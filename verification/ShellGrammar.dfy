/** The shell's language: the trees its lines are written from, what each line is, and what it means. A line is
    accepted exactly when some tree writes it, and then it means what that tree means. */
module ShellGrammar {
  import opened Shell
  import opened ShellItems

  /** A command between the pipes: a simple one, or a parenthesised script with redirections after it. */
  datatype Part<W> = Bare(items: seq<Item<W>>) | Group(body: Script<W>, items: seq<Item<W>>)

  /** Commands joined by pipes. */
  datatype Row<W> = One(part: Part<W>) | Piped(part: Part<W>, row: Row<W>)

  /** Rows joined by semicolons, each with the & signs after it. */
  datatype Script<W> = Last(row: Row<W>, backs: nat) | Then(row: Row<W>, backs: nat, script: Script<W>)

  // ---- what a tree writes ----

  function FlatPart<W>(p: Part<W>): seq<Token<W>> {
    match p
    case Bare(items) => Flat(items)
    case Group(body, items) => [Sym('(')] + FlatScript(body) + [Sym(')')] + Flat(items)
  }

  function FlatRow<W>(r: Row<W>): seq<Token<W>> {
    match r
    case One(p) => FlatPart(p)
    case Piped(p, r') => FlatPart(p) + [Sym('|')] + FlatRow(r')
  }

  function Amps<W>(n: nat): (ts: seq<Token<W>>)
    ensures |ts| == n && forall i :: 0 <= i < n ==> ts[i] == Sym('&')
  {
    if n == 0 then [] else [Sym('&')] + Amps(n - 1)
  }

  function FlatScript<W>(s: Script<W>): seq<Token<W>> {
    match s
    case Last(r, n) => FlatRow(r) + Amps(n)
    case Then(r, n, s') => FlatRow(r) + Amps(n) + [Sym(';')] + FlatScript(s')
  }

  // ---- what it means ----

  function MeanPart<W>(p: Part<W>): Cmd<W> {
    match p
    case Bare(items) => Around(Exec(Arguments(items)), items)
    case Group(body, items) => Around(MeanScript(body), items)
  }

  function MeanRow<W>(r: Row<W>): Cmd<W> {
    match r
    case One(p) => MeanPart(p)
    case Piped(p, r') => Pipe(MeanPart(p), MeanRow(r'))
  }

  /** In the background, once for each &. */
  function Behind<W>(c: Cmd<W>, n: nat): Cmd<W> { if n == 0 then c else Back(Behind(c, n - 1)) }

  function MeanScript<W>(s: Script<W>): Cmd<W> {
    match s
    case Last(r, n) => Behind(MeanRow(r), n)
    case Then(r, n, s') => List(Behind(MeanRow(r), n), MeanScript(s'))
  }

  // ---- which trees there are ----

  predicate GoodPart<W>(p: Part<W>) {
    match p
    case Bare(items) => Signs(items)
    case Group(body, items) => GoodScript(body) && Signs(items) && OnlyTo(items)
  }

  predicate GoodRow<W>(r: Row<W>) {
    match r
    case One(p) => GoodPart(p)
    case Piped(p, r') => GoodPart(p) && GoodRow(r')
  }

  predicate GoodScript<W>(s: Script<W>) {
    match s
    case Last(r, _) => GoodRow(r)
    case Then(r, _, s') => GoodRow(r) && GoodScript(s')
  }

  // ---- every tree is read as what it means ----

  lemma {:induction false} ShortAround<W>(c: Cmd<W>, items: seq<Item<W>>)
    ensures Short(Around(c, items)) == Short(c)
    decreases |items|
  {
    if items != [] { ShortAround(c, items[..|items| - 1]); }
  }

  lemma {:induction false} ShortBehind<W>(c: Cmd<W>, n: nat)
    ensures Short(Behind(c, n)) == Short(c)
  {
    if n > 0 { ShortBehind(c, n - 1); }
  }

  lemma {:induction false} LeadOnlyTo<W>(items: seq<Item<W>>)
    requires OnlyTo(items)
    ensures Lead(items) == |items|
    decreases |items|
  {
    if items != [] { LeadOnlyTo(items[1..]); }
  }

  lemma BareRead<W>(items: seq<Item<W>>, post: seq<Token<W>>)
    requires Signs(items) && Ends(post)
    ensures Simple(FlatPart(Bare(items)) + post) == Inverse(MeanPart(Bare(items)), post)
  {
    hide Simple, Flat, Around, Arguments;
    SimpleItems(items, post);
    ShortAround(Exec(Arguments(items)), items);
  }

  lemma GroupRead<W>(body: Script<W>, items: seq<Item<W>>, post: seq<Token<W>>)
    requires Signs(items) && OnlyTo(items) && Ends(post)
    requires var p := [Sym(')')] + (Flat(items) + post);
      Line(FlatScript(body) + p) == Inverse(MeanScript(body), p)
    ensures Simple(FlatPart(Group(body, items)) + post) == Inverse(MeanPart(Group(body, items)), post)
  {
    hide Simple, Line, Redirs, Flat, Around, FlatScript, MeanScript, Wrap;
    var after := Flat(items) + post;
    var ts := FlatPart(Group(body, items)) + post;
    assert ts == Parens(FlatScript(body)) + after;
    BlockIs(ts, FlatScript(body), after);
    GroupRedirs(items, post);
    WrapItems(MeanScript(body), items);
    ShortAround(MeanScript(body), items);
  }

  lemma GroupRedirs<W>(items: seq<Item<W>>, post: seq<Token<W>>)
    requires Signs(items) && OnlyTo(items) && Ends(post)
    ensures Redirs(Flat(items) + post) == Ok(Redirections(items), post)
  {
    hide Redirs, Redirections;
    LeadOnlyTo(items);
    RedirsItems(items, post);
    assert items[..|items|] == items && items[|items|..] == [];
    assert [] + post == post;
  }

  lemma {:induction false} PartRead<W>(p: Part<W>, post: seq<Token<W>>)
    requires GoodPart(p) && Ends(post)
    ensures Simple(FlatPart(p) + post) == Inverse(MeanPart(p), post)
    decreases p
  {
    hide Simple, Line, FlatPart, MeanPart;
    match p
    case Bare(items) => BareRead(items, post);
    case Group(body, items) =>
      ScriptRead(body, [Sym(')')] + (Flat(items) + post));
      GroupRead(body, items, post);
  }

  lemma {:induction false} RowRead<W>(r: Row<W>, post: seq<Token<W>>)
    requires GoodRow(r) && Ends(post) && !Next(post, "|")
    ensures Pipeline(FlatRow(r) + post) == Inverse(MeanRow(r), post)
    decreases r
  {
    hide Simple, FlatPart, MeanPart, GoodPart;
    match r
    case One(p) => PartRead(p, post);
    case Piped(p, r') =>
      var more := FlatRow(r') + post;
      PartRead(p, [Sym('|')] + more);
      RowRead(r', post);
      assert FlatRow(r) + post == FlatPart(p) + ([Sym('|')] + more);
      assert ([Sym('|')] + more)[1..] == more;
  }

  lemma {:induction false} BacksRead<W>(c: Cmd<W>, n: nat, post: seq<Token<W>>)
    requires !Next(post, "&")
    ensures Backs(c, Amps(n) + post) == (Behind(c, n), post)
    decreases n
  {
    if n == 0 {
      assert Amps(n) + post == post;
    } else {
      assert (Amps(n) + post)[1..] == Amps(n - 1) + post;
      BacksRead(Back(c), n - 1, post);
      BehindBack(c, n - 1);
    }
  }

  lemma {:induction false} BehindBack<W>(c: Cmd<W>, n: nat)
    ensures Behind(Back(c), n) == Back(Behind(c, n))
  {
    if n > 0 { BehindBack(c, n - 1); }
  }

  /** A row and its & signs, before the ; or the end. */
  lemma RowBehind<W>(r: Row<W>, n: nat, post: seq<Token<W>>)
    requires Pipeline(FlatRow(r) + (Amps(n) + post)) == Inverse(MeanRow(r), Amps(n) + post)
    requires !Next(post, "&")
    ensures Line(FlatRow(r) + Amps(n) + post) ==
      if !Short(MeanRow(r)) then Fail(TooManyArgs)
      else if !Next(post, ";") then Ok(Behind(MeanRow(r), n), post)
      else
        var d := Line(post[1..]);
        if d.Fail? then Fail(d.error) else Ok(List(Behind(MeanRow(r), n), d.value), d.rest)
  {
    hide Pipeline, Backs, Behind, FlatRow, MeanRow, Amps;
    BacksRead(MeanRow(r), n, post);
    assert FlatRow(r) + Amps(n) + post == FlatRow(r) + (Amps(n) + post);
  }

  lemma AmpsEnd<W>(n: nat, post: seq<Token<W>>)
    requires post == [] || Next(post, ");")
    ensures Ends(Amps(n) + post) && !Next(Amps(n) + post, "|")
  {
    assert n == 0 ==> Amps(n) + post == post;
  }

  /** The tokens of a tree, before the end or a closing parenthesis, are read as what the tree means, exactly when
      no command in it has too many arguments. */
  lemma {:induction false} ScriptRead<W>(s: Script<W>, post: seq<Token<W>>)
    requires GoodScript(s) && Closes(post)
    ensures Line(FlatScript(s) + post) == Inverse(MeanScript(s), post)
    decreases s
  {
    hide Line, Pipeline, FlatRow, MeanRow, GoodRow, Amps, Behind;
    match s
    case Last(r, n) =>
      AmpsEnd(n, post);
      RowRead(r, Amps(n) + post);
      RowBehind(r, n, post);
      ShortBehind(MeanRow(r), n);
    case Then(r, n, s') =>
      var more := FlatScript(s') + post;
      var next := [Sym(';')] + more;
      AmpsEnd(n, next);
      RowRead(r, Amps(n) + next);
      RowBehind(r, n, next);
      ShortBehind(MeanRow(r), n);
      ScriptRead(s', post);
      assert next[1..] == more;
      assert FlatScript(s) + post == FlatRow(r) + Amps(n) + next;
  }

  // ---- whatever is read, some tree writes it ----

  lemma ToWritten<W>(ts: seq<Token<W>>, more: seq<Item<W>>) returns (items: seq<Item<W>>)
    requires |ts| > 1 && Next(ts, "<>+") && ts[1].Word? && Flat(more) <= ts[2..] && Signs(more) && OnlyTo(more)
    ensures Signs(items) && OnlyTo(items) && ts == Flat(items) + ts[2..][|Flat(more)|..]
    ensures Redirections(items) ==
      [Redirection(ts[1].w, if ts[0].c == '<' then In else Out)] + Redirections(more)
  {
    hide Flat, Redirections;
    items := [To(ts[0].c, ts[1].w)] + more;
    assert items[1..] == more;
    FirstTo(items);
    assert [Sym(ts[0].c), Word(ts[1].w)] == [ts[0], ts[1]];
    assert ts == [ts[0], ts[1]] + ts[2..] && ts[2..] == Flat(more) + ts[2..][|Flat(more)|..];
  }

  lemma {:induction false} RedirsWritten<W>(ts: seq<Token<W>>) returns (items: seq<Item<W>>)
    requires Redirs(ts).Ok?
    ensures Signs(items) && OnlyTo(items)
    ensures ts == Flat(items) + Redirs(ts).rest && Redirections(items) == Redirs(ts).value
    decreases |ts|
  {
    if !Next(ts, "<>+") {
      items := [];
    } else {
      var more := RedirsWritten(ts[2..]);
      items := ToWritten(ts, more);
    }
  }

  lemma ArgsOk<W>(ts: seq<Token<W>>, args: seq<W>, rs: seq<Redirection<W>>)
    requires Args(ts, args, rs).Ok? && ts != [] && !Next(ts, "|)&;")
    ensures var r := Redirs(ts[1..]);
      && ts[0].Word? && |args| + 1 < MAXARGS && r.Ok?
      && Args(ts, args, rs) == Args(r.rest, args + [ts[0].w], rs + r.value)
  {
    hide Redirs;
  }

  lemma {:induction false} ArgsWritten<W>(ts: seq<Token<W>>, args: seq<W>, rs: seq<Redirection<W>>)
    returns (items: seq<Item<W>>)
    requires Args(ts, args, rs).Ok? && |args| < MAXARGS
    ensures var r := Args(ts, args, rs); var all := args + Arguments(items);
      && Signs(items) && |all| < MAXARGS
      && ts == Flat(items) + r.rest && r.value == Wrap(Exec(all), rs + Redirections(items))
    decreases |ts|
  {
    hide Args, Redirs, Wrap, Flat, Arguments, Redirections, Signs, OnlyTo;
    if ts == [] || Next(ts, "|)&;") {
      items := [];
      NoItems<W>();
      ArgsEnd(ts, args, rs);
      assert args + [] == args && rs + [] == rs && Signs(items) by { EmptySigns<W>(); }
    } else {
      ArgsOk(ts, args, rs);
      var w := ts[0].w;
      var lead := RedirsWritten(ts[1..]);
      var rest := ArgsWritten(Redirs(ts[1..]).rest, args + [w], rs + Redirs(ts[1..]).value);
      items := ItemsWritten(ts, w, lead, rest, Redirs(ts[1..]).rest);
      assert args + ([w] + Arguments(rest)) == args + [w] + Arguments(rest);
      assert rs + (Redirections(lead) + Redirections(rest)) == rs + Redirections(lead) + Redirections(rest);
    }
  }

  lemma EmptySigns<W>()
    ensures var none: seq<Item<W>> := []; Signs(none)
  {
  }

  /** An argument, the redirections after it, and the rest. */
  lemma ItemsWritten<W>(ts: seq<Token<W>>, w: W, lead: seq<Item<W>>, rest: seq<Item<W>>, next: seq<Token<W>>)
    returns (items: seq<Item<W>>)
    requires ts != [] && ts[0] == Word(w) && ts[1..] == Flat(lead) + next
    requires Flat(rest) <= next && Signs(lead) && OnlyTo(lead) && Signs(rest)
    ensures Signs(items) && ts == Flat(items) + next[|Flat(rest)|..]
    ensures Arguments(items) == [w] + Arguments(rest)
    ensures Redirections(items) == Redirections(lead) + Redirections(rest)
  {
    hide Flat, Arguments, Redirections, Signs, OnlyTo;
    items := [Arg(w)] + (lead + rest);
    FirstArg(items);
    assert items[1..] == lead + rest;
    FlatJoin(lead, rest);
    ArgumentsJoin(lead, rest);
    RedirectionsJoin(lead, rest);
    NoArguments(lead);
    assert [] + Arguments(rest) == Arguments(rest);
    SignsJoin(w, lead, rest);
    var post := next[|Flat(rest)|..];
    assert next == Flat(rest) + post;
    assert ts == [Word(w)] + ts[1..];
    assert [Word(w)] + (Flat(lead) + (Flat(rest) + post)) == [Word(w)] + (Flat(lead) + Flat(rest)) + post;
  }

  lemma SignsJoin<W>(w: W, a: seq<Item<W>>, b: seq<Item<W>>)
    requires Signs(a) && Signs(b)
    ensures Signs([Arg(w)] + (a + b))
  {
  }

  lemma BareWritten<W>(ts: seq<Token<W>>) returns (items: seq<Item<W>>)
    requires Simple(ts).Ok? && !Next(ts, "(")
    ensures Signs(items) && ts == Flat(items) + Simple(ts).rest
    ensures |Arguments(items)| < MAXARGS && Simple(ts).value == Around(Exec(Arguments(items)), items)
  {
    hide Args, Redirs, Wrap, Flat, Arguments, Redirections, Around;
    var lead := RedirsWritten(ts);
    var next := Redirs(ts).rest;
    var rest := ArgsWritten(next, [], Redirs(ts).value);
    items := lead + rest;
    FlatJoin(lead, rest);
    ArgumentsJoin(lead, rest);
    RedirectionsJoin(lead, rest);
    NoArguments(lead);
    var args := Arguments(rest);
    assert [] + args == args;
    assert Flat(lead) + (Flat(rest) + Simple(ts).rest) == Flat(lead) + Flat(rest) + Simple(ts).rest;
    WrapItems(Exec(args), items);
  }

  lemma {:induction false} PartWritten<W>(ts: seq<Token<W>>) returns (p: Part<W>)
    requires Simple(ts).Ok?
    ensures GoodPart(p) && Short(MeanPart(p))
    ensures ts == FlatPart(p) + Simple(ts).rest && Simple(ts).value == MeanPart(p)
    decreases |ts|, 1
  {
    hide Line, Redirs, Wrap, Flat, Around, Args;
    if Next(ts, "(") {
      var body := ScriptWritten(ts[1..]);
      var after := Line(ts[1..]).rest;
      var items := RedirsWritten(after[1..]);
      p := Group(body, items);
      WrapItems(MeanScript(body), items);
      ShortAround(MeanScript(body), items);
      assert ts == [Sym('(')] + ts[1..] && after == [Sym(')')] + after[1..];
      assert FlatPart(p) == [Sym('(')] + FlatScript(body) + [Sym(')')] + Flat(items);
    } else {
      var items := BareWritten(ts);
      p := Bare(items);
      ShortAround(Exec(Arguments(items)), items);
    }
  }

  lemma {:induction false} RowWritten<W>(ts: seq<Token<W>>) returns (r: Row<W>)
    requires Pipeline(ts).Ok?
    ensures GoodRow(r) && Short(MeanRow(r))
    ensures ts == FlatRow(r) + Pipeline(ts).rest && Pipeline(ts).value == MeanRow(r)
    decreases |ts|, 2
  {
    hide Simple, FlatPart, MeanPart, GoodPart;
    var p := PartWritten(ts);
    var rest := Simple(ts).rest;
    if !Next(rest, "|") {
      r := One(p);
    } else {
      var more := RowWritten(rest[1..]);
      r := Piped(p, more);
      assert rest == [Sym('|')] + rest[1..];
      assert FlatPart(p) + ([Sym('|')] + rest[1..]) == FlatPart(p) + [Sym('|')] + rest[1..];
    }
  }

  lemma {:induction false} BacksWritten<W>(c: Cmd<W>, ts: seq<Token<W>>) returns (n: nat)
    ensures ts == Amps(n) + Backs(c, ts).1 && Backs(c, ts).0 == Behind(c, n)
    decreases |ts|
  {
    if Next(ts, "&") {
      n := BacksWritten(Back(c), ts[1..]);
      BehindBack(c, n);
      n := n + 1;
      assert ts == [Sym('&')] + ts[1..];
    } else {
      n := 0;
    }
  }

  /** Whatever is read as a line was written by a tree that means what was read, up to the tokens left. */
  lemma {:induction false} ScriptWritten<W>(ts: seq<Token<W>>) returns (s: Script<W>)
    requires Line(ts).Ok?
    ensures GoodScript(s) && Short(MeanScript(s))
    ensures ts == FlatScript(s) + Line(ts).rest && Line(ts).value == MeanScript(s)
    decreases |ts|, 3
  {
    hide Pipeline, Backs, FlatRow, MeanRow, GoodRow, Amps, Behind;
    var r := RowWritten(ts);
    var (c, after) := (Pipeline(ts).value, Pipeline(ts).rest);
    var n := BacksWritten(c, after);
    ShortBehind(c, n);
    var rest := Backs(c, after).1;
    assert FlatRow(r) + (Amps(n) + rest) == FlatRow(r) + Amps(n) + rest;
    if !Next(rest, ";") {
      s := Last(r, n);
    } else {
      var more := ScriptWritten(rest[1..]);
      s := Then(r, n, more);
      assert rest == [Sym(';')] + rest[1..];
      ThenWritten(r, n, more, Line(rest[1..]).rest);
    }
  }

  lemma ThenWritten<W>(r: Row<W>, n: nat, s: Script<W>, post: seq<Token<W>>)
    ensures FlatScript(Then(r, n, s)) + post == FlatRow(r) + Amps(n) + ([Sym(';')] + (FlatScript(s) + post))
  {
  }

  /** The tree writes this line, and means this command. */
  ghost predicate Writes<W>(s: Script<W>, ts: seq<Token<W>>, c: Cmd<W>) {
    GoodScript(s) && FlatScript(s) == ts && MeanScript(s) == c
  }

  /** The parser accepts a line as a command exactly when some tree that means the command writes the line and no
      simple command in it has ten arguments or more; so a line has at most one meaning. */
  lemma Language<W>(ts: seq<Token<W>>, c: Cmd<W>)
    ensures Command(ts) == Ok(c, []) <==> Short(c) && exists s :: Writes(s, ts, c)
  {
    hide Line, FlatScript, MeanScript, GoodScript;
    if Command(ts) == Ok(c, []) {
      var s := ScriptWritten(ts);
      assert FlatScript(s) + [] == FlatScript(s);
      assert Writes(s, ts, c);
    }
    if s :| Writes(s, ts, c) {
      ScriptRead(s, []);
      assert FlatScript(s) + [] == ts;
    }
  }

  // ---- how a line fails ----

  /** A closing parenthesis too many is left over, whatever follows it. */
  lemma Unopened<W>(s: Script<W>, post: seq<Token<W>>)
    requires GoodScript(s) && Short(MeanScript(s))
    ensures Command(FlatScript(s) + ([Sym(')')] + post)) == Fail(Leftovers)
  {
    hide Line, FlatScript, MeanScript, GoodScript;
    ScriptRead(s, [Sym(')')] + post);
  }

  /** A parenthesis that is not closed is missing. */
  lemma Unclosed<W>(s: Script<W>)
    requires GoodScript(s) && Short(MeanScript(s))
    ensures Command([Sym('(')] + FlatScript(s)) == Fail(MissingParen)
  {
    hide Line, FlatScript, MeanScript, GoodScript;
    ScriptRead(s, []);
    var ts := [Sym('(')] + FlatScript(s);
    assert ts[1..] == FlatScript(s) + [];
    assert Block(ts) == Fail(MissingParen);
    SimpleFails(ts);
  }

  lemma SimpleFails<W>(ts: seq<Token<W>>)
    requires Simple(ts).Fail?
    ensures Command(ts) == Fail(Simple(ts).error)
  {
    hide Simple;
    assert Pipeline(ts) == Fail(Simple(ts).error);
    assert Line(ts) == Fail(Simple(ts).error);
  }

  /** What cannot follow the items of a simple command: a redirection without a file, or any other symbol that
      does not end the command. */
  ghost predicate Bad<W>(post: seq<Token<W>>, e: Error) {
    || (e == MissingFile && Next(post, "<>+") && (|post| == 1 || post[1].Sym?))
    || (e == Syntax && post != [] && post[0].Sym? && post[0].c !in "|)&;<>+")
  }

  lemma {:induction false} RedirsFail<W>(items: seq<Item<W>>, post: seq<Token<W>>)
    requires Signs(items) && OnlyTo(items) && Bad(post, MissingFile)
    ensures Redirs(Flat(items) + post) == Fail(MissingFile)
    decreases |items|
  {
    if items == [] {
      assert Flat(items) + post == post;
    } else {
      RedirsFail(items[1..], post);
      hide Redirs;
      var ts := Flat(items[1..]) + post;
      assert Flat(items) + post == [Sym(items[0].sign), Word(items[0].file)] + ts;
      RedirsNext(items[0].sign, items[0].file, ts);
    }
  }

  lemma ArgsSyntax<W>(post: seq<Token<W>>, args: seq<W>, rs: seq<Redirection<W>>)
    requires Bad(post, Syntax)
    ensures Args(post, args, rs) == Fail(Syntax)
  {
  }

  lemma BadSyntax<W>(post: seq<Token<W>>, e: Error)
    requires Bad(post, e)
    ensures e == MissingFile || (e == Syntax && !Next(post, "<>+"))
  {
  }

  lemma {:induction false} ArgsFail<W>(items: seq<Item<W>>, post: seq<Token<W>>, args: seq<W>,
      rs: seq<Redirection<W>>, e: Error)
    requires Signs(items) && Bad(post, e) && |args + Arguments(items)| < MAXARGS
    requires if items == [] then e == Syntax else items[0].Arg?
    ensures Args(Flat(items) + post, args, rs) == Fail(e)
    decreases |items|
  {
    hide Redirs, Args, Flat, Arguments, Redirections, Signs, Lead, Bad;
    if items == [] {
      NoItems<W>();
      assert [] + post == post;
      ArgsSyntax(post, args, rs);
    } else {
      FirstArg(items);
      TailSigns(items, 1);
      var w, more := items[0].w, items[1..];
      assert [Word(w)] + Flat(more) + post == [Word(w)] + (Flat(more) + post);
      ArgsNext(w, Flat(more) + post, args, rs);
      LeadSplits(more);
      var k := Lead(more);
      if k == |more| && e == MissingFile {
        LeadOnly(more);
        assert more[..k] == more;
        RedirsFail(more, post);
      } else {
        BadSyntax(post, e);
        RedirsItems(more, post);
        TailSigns(more, k);
        assert args + ([w] + Arguments(more)) == args + [w] + Arguments(more);
        ArgsFail(more[k..], post, args + [w], rs + Redirections(more[..k]), e);
      }
    }
  }

  /** A line whose first command cannot be continued fails with the error of what comes next. */
  lemma BadNext<W>(items: seq<Item<W>>, post: seq<Token<W>>, e: Error)
    requires Signs(items) && Bad(post, e) && |Arguments(items)| < MAXARGS
    requires items == [] ==> post[0].c != '('
    ensures Command(Flat(items) + post) == Fail(e)
  {
    hide Redirs, Args, Arguments, Command;
    var ts := Flat(items) + post;
    assert !Next(ts, "(") by {
      assert items == [] ==> ts == post;
    }
    var k := Lead(items);
    LeadSplits(items);
    if k == |items| && e == MissingFile {
      LeadOnly(items);
      assert items[..k] == items;
      RedirsFail(items, post);
    } else {
      RedirsItems(items, post);
      assert [] + Arguments(items[k..]) == Arguments(items[k..]);
      ArgsFail(items[k..], post, [], Redirections(items[..k]), e);
    }
    SimpleFails(ts);
  }
}
