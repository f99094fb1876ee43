/** Simple commands of the shell, with redirections anywhere among the arguments: what parseexec reads. */
module ShellItems {
  import opened Shell

  /** What a simple command is made of: an argument, or a redirection sign and its file. */
  datatype Item<W> = Arg(w: W) | To(sign: char, file: W)

  predicate Signs<W>(items: seq<Item<W>>) {
    forall i :: 0 <= i < |items| && items[i].To? ==> items[i].sign in "<>+"
  }

  function Flat<W>(items: seq<Item<W>>): seq<Token<W>> {
    if items == [] then []
    else (match items[0] case Arg(w) => [Word(w)] case To(c, f) => [Sym(c), Word(f)]) + Flat(items[1..])
  }

  /** The arguments, in order. */
  function Arguments<W>(items: seq<Item<W>>): seq<W> {
    if items == [] then []
    else (match items[0] case Arg(w) => [w] case To(_, _) => []) + Arguments(items[1..])
  }

  /** A command with the redirections around it in order, the last one outermost. */
  function Around<W>(c: Cmd<W>, items: seq<Item<W>>): Cmd<W> {
    if items == [] then c
    else
      var rest, last := items[..|items| - 1], items[|items| - 1];
      match last
      case Arg(_) => Around(c, rest)
      case To(sign, f) => Redir(Around(c, rest), f, if sign == '<' then In else Out)
  }

  function Redirections<W>(items: seq<Item<W>>): seq<Redirection<W>> {
    if items == [] then []
    else
      (match items[0]
       case Arg(_) => []
       case To(c, f) => [Redirection(f, if c == '<' then In else Out)]) + Redirections(items[1..])
  }

  lemma RedirsNext<W>(c: char, f: W, ts: seq<Token<W>>)
    requires c in "<>+"
    ensures var r := Redirs(ts);
      Redirs([Sym(c), Word(f)] + ts) ==
      if r.Fail? then Fail(r.error) else Ok([Redirection(f, if c == '<' then In else Out)] + r.value, r.rest)
  {
    assert ([Sym(c), Word(f)] + ts)[2..] == ts;
  }

  /** No redirection comes next: an argument does, or the end. */
  lemma RedirsStop<W>(items: seq<Item<W>>, post: seq<Token<W>>)
    requires if items == [] then !Next(post, "<>+") else items[0].Arg?
    ensures Redirs(Flat(items) + post) == Ok([], Flat(items) + post)
  {
    assert items != [] ==> (Flat(items) + post)[0] == Word(items[0].w);
    assert items == [] ==> Flat(items) + post == post;
  }

  /** How many redirections come before the next argument. */
  function Lead<W>(items: seq<Item<W>>): (k: nat)
    ensures k <= |items| && (k < |items| ==> items[k].Arg?)
  {
    if items == [] || items[0].Arg? then 0 else 1 + Lead(items[1..])
  }

  /** Nothing but redirections. */
  predicate OnlyTo<W>(items: seq<Item<W>>) { forall i :: 0 <= i < |items| ==> items[i].To? }

  lemma {:induction false} FlatJoin<W>(a: seq<Item<W>>, b: seq<Item<W>>)
    ensures Flat(a + b) == Flat(a) + Flat(b)
    decreases |a|
  {
    hide Flat, Arguments, Redirections;
    if a == [] {
      NoItems<W>();
      assert a + b == b && [] + Flat(b) == Flat(b);
    } else {
      assert (a + b)[1..] == a[1..] + b && (a + b)[0] == a[0];
      FlatJoin(a[1..], b);
      First(a);
      First(a + b);
    }
  }

  lemma {:induction false} ArgumentsJoin<W>(a: seq<Item<W>>, b: seq<Item<W>>)
    ensures Arguments(a + b) == Arguments(a) + Arguments(b)
    decreases |a|
  {
    hide Flat, Arguments, Redirections;
    if a == [] {
      NoItems<W>();
      assert a + b == b && [] + Arguments(b) == Arguments(b);
    } else {
      assert (a + b)[1..] == a[1..] + b && (a + b)[0] == a[0];
      ArgumentsJoin(a[1..], b);
      First(a);
      First(a + b);
    }
  }

  lemma {:induction false} RedirectionsJoin<W>(a: seq<Item<W>>, b: seq<Item<W>>)
    ensures Redirections(a + b) == Redirections(a) + Redirections(b)
    decreases |a|
  {
    hide Flat, Arguments, Redirections;
    if a == [] {
      NoItems<W>();
      assert a + b == b && [] + Redirections(b) == Redirections(b);
    } else {
      assert (a + b)[1..] == a[1..] + b && (a + b)[0] == a[0];
      RedirectionsJoin(a[1..], b);
      First(a);
      First(a + b);
    }
  }

  lemma {:induction false} NoArguments<W>(items: seq<Item<W>>)
    requires OnlyTo(items)
    ensures Arguments(items) == []
    decreases |items|
  {
    if items != [] { NoArguments(items[1..]); }
  }

  lemma {:induction false} LeadOnly<W>(items: seq<Item<W>>)
    ensures OnlyTo(items[..Lead(items)])
    decreases |items|
  {
    if items != [] && items[0].To? {
      LeadOnly(items[1..]);
      assert items[..Lead(items)][1..] == items[1..][..Lead(items) - 1];
    }
  }

  lemma LeadSplits<W>(items: seq<Item<W>>)
    ensures var k := Lead(items);
      && Arguments(items) == Arguments(items[k..])
      && Redirections(items) == Redirections(items[..k]) + Redirections(items[k..])
  {
    hide Arguments, Redirections, Lead;
    var k := Lead(items);
    assert items == items[..k] + items[k..];
    ArgumentsJoin(items[..k], items[k..]);
    RedirectionsJoin(items[..k], items[k..]);
    LeadOnly(items);
    NoArguments(items[..k]);
  }

  /** They are the redirections read next. */
  lemma {:induction false} RedirsItems<W>(items: seq<Item<W>>, post: seq<Token<W>>)
    requires Signs(items) && (Lead(items) == |items| ==> !Next(post, "<>+"))
    ensures var k := Lead(items);
      Redirs(Flat(items) + post) == Ok(Redirections(items[..k]), Flat(items[k..]) + post)
    decreases |items|
  {
    hide Redirs, Flat, Redirections;
    var k := Lead(items);
    if k == 0 {
      assert items[k..] == items && items[..k] == [];
      NoItems<W>();
      RedirsStop(items, post);
    } else {
      FirstTo(items);
      FirstTo(items[..k]);
      RedirsItems(items[1..], post);
      var ts := Flat(items[1..]) + post;
      assert Flat(items) + post == [Sym(items[0].sign), Word(items[0].file)] + ts;
      RedirsNext(items[0].sign, items[0].file, ts);
      assert items[1..][k - 1..] == items[k..] && items[..k][1..] == items[1..][..k - 1];
    }
  }

  lemma {:induction false} ArgsItems<W>(items: seq<Item<W>>, post: seq<Token<W>>, args: seq<W>,
      rs: seq<Redirection<W>>)
    requires Signs(items) && Ends(post) && |args| < MAXARGS && (items != [] ==> items[0].Arg?)
    ensures var all := args + Arguments(items);
      Args(Flat(items) + post, args, rs) ==
      if |all| < MAXARGS then Ok(Wrap(Exec(all), rs + Redirections(items)), post) else Fail(TooManyArgs)
    decreases |items|
  {
    hide Redirs, Args, Flat, Arguments, Redirections, Wrap, Signs;
    if items == [] {
      NoItems<W>();
      assert [] + post == post && args + [] == args && rs + [] == rs;
      ArgsEnd(post, args, rs);
    } else {
      FirstArg(items);
      TailSigns(items, 1);
      var w, more := items[0].w, items[1..];
      var lead, rest := more[..Lead(more)], more[Lead(more)..];
      assert [Word(w)] + Flat(more) + post == [Word(w)] + (Flat(more) + post);
      ArgsNext(w, Flat(more) + post, args, rs);
      RedirsItems(more, post);
      LeadSplits(more);
      assert args + ([w] + Arguments(rest)) == args + [w] + Arguments(rest);
      assert rs + (Redirections(lead) + Redirections(rest)) == rs + Redirections(lead) + Redirections(rest);
      if |args| + 1 < MAXARGS {
        TailSigns(more, Lead(more));
        ArgsItems(rest, post, args + [w], rs + Redirections(lead));
      }
    }
  }

  lemma NoItems<W>()
    ensures var none: seq<Item<W>> := []; Flat(none) == [] && Arguments(none) == [] && Redirections(none) == []
  {
  }

  lemma FirstArg<W>(items: seq<Item<W>>)
    requires items != [] && items[0].Arg?
    ensures Flat(items) == [Word(items[0].w)] + Flat(items[1..])
    ensures Arguments(items) == [items[0].w] + Arguments(items[1..])
    ensures Redirections(items) == Redirections(items[1..])
  {
  }

  lemma FirstTo<W>(items: seq<Item<W>>)
    requires items != [] && items[0].To?
    ensures Flat(items) == [Sym(items[0].sign), Word(items[0].file)] + Flat(items[1..])
    ensures Arguments(items) == Arguments(items[1..])
    ensures Redirections(items) ==
      [Redirection(items[0].file, if items[0].sign == '<' then In else Out)] + Redirections(items[1..])
  {
  }

  lemma First<W>(items: seq<Item<W>>)
    requires items != []
    ensures var one, rest := [items[0]], items[1..];
      && Flat(items) == Flat(one) + Flat(rest) && Arguments(items) == Arguments(one) + Arguments(rest)
      && Redirections(items) == Redirections(one) + Redirections(rest)
  {
    hide Flat, Arguments, Redirections;
    var one := [items[0]];
    assert one[1..] == [];
    NoItems<W>();
    if items[0].Arg? {
      FirstArg(items);
      FirstArg(one);
    } else {
      FirstTo(items);
      FirstTo(one);
    }
  }

  lemma TailSigns<W>(items: seq<Item<W>>, k: nat)
    requires Signs(items) && k <= |items|
    ensures Signs(items[k..])
  {
  }

  /** A simple command is read as all its arguments in order, with all its redirections around it in order,
      wherever they stand among the arguments, exactly when it has no more than nine arguments. */
  lemma SimpleItems<W>(items: seq<Item<W>>, post: seq<Token<W>>)
    requires Signs(items) && Ends(post)
    ensures Simple(Flat(items) + post) ==
      if |Arguments(items)| < MAXARGS then Ok(Around(Exec(Arguments(items)), items), post) else Fail(TooManyArgs)
  {
    hide Redirs, Args, Wrap;
    var ts := Flat(items) + post;
    assert !Next(ts, "(") by {
      assert items == [] ==> ts == post;
    }
    var k := Lead(items);
    RedirsItems(items, post);
    LeadSplits(items);
    ArgsItems(items[k..], post, [], Redirections(items[..k]));
    assert [] + Arguments(items[k..]) == Arguments(items);
    WrapItems(Exec(Arguments(items)), items);
  }

  lemma {:induction false} WrapItems<W>(c: Cmd<W>, items: seq<Item<W>>)
    ensures Wrap(c, Redirections(items)) == Around(c, items)
    decreases |items|
  {
    if items != [] {
      var rest, last := items[..|items| - 1], items[|items| - 1];
      WrapItems(c, rest);
      assert items == rest + [last] && [last][1..] == [];
      RedirectionsJoin(rest, [last]);
      if last.Arg? {
        assert Redirections(items) == Redirections(rest);
      } else {
        assert Redirections([last]) == [Redirection(last.file, if last.sign == '<' then In else Out)];
        WrapLast(c, Redirections(rest), Redirection(last.file, if last.sign == '<' then In else Out));
      }
    }
  }

  lemma {:induction false} WrapLast<W>(c: Cmd<W>, rs: seq<Redirection<W>>, r: Redirection<W>)
    ensures Wrap(c, rs + [r]) == Redir(Wrap(c, rs), r.file, r.mode)
    decreases |rs|
  {
    if rs == [] {
      assert rs + [r] == [r] && [r][1..] == [];
    } else {
      WrapLast(Redir(c, rs[0].file, rs[0].mode), rs[1..], r);
      assert (rs + [r])[1..] == rs[1..] + [r];
    }
  }

  /** So a line that is one simple command means that command. */
  lemma CommandItems<W>(items: seq<Item<W>>)
    requires Signs(items)
    ensures Command(Flat(items)) ==
      if |Arguments(items)| < MAXARGS then Ok(Around(Exec(Arguments(items)), items), []) else Fail(TooManyArgs)
  {
    hide Simple;
    SimpleItems(items, []);
    var ts := Flat(items);
    assert ts + [] == ts;
    assert Pipeline(ts) == Simple(ts);
    assert Simple(ts).Ok? ==> Backs(Simple(ts).value, []) == (Simple(ts).value, []);
    assert Line(ts) == Simple(ts);
  }
}
