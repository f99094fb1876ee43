/** The shell's grammar over tokens (sh.c), and the parenthesised printing that it inverts. A word can be
    anything here: a string, or the span of one in the line. */
module Shell {

  const MAXARGS := 10

  datatype Token<W> = Word(w: W) | Sym(c: char)        // '+' stands for >>

  datatype Mode = In | Out

  datatype Cmd<W> =
    | Exec(args: seq<W>)
    | Redir(cmd: Cmd<W>, file: W, mode: Mode)
    | Pipe(left: Cmd<W>, right: Cmd<W>)
    | List(left: Cmd<W>, right: Cmd<W>)
    | Back(cmd: Cmd<W>)

  datatype Redirection<W> = Redirection(file: W, mode: Mode)

  /** What the shell panics with. */
  datatype Error = TooManyArgs | MissingFile | MissingParen | Syntax | Leftovers

  datatype Parsed<T, W> = Ok(value: T, rest: seq<Token<W>>) | Fail(error: Error)

  predicate Next<W>(ts: seq<Token<W>>, cs: string) { ts != [] && ts[0].Sym? && ts[0].c in cs }

  // ---- the grammar ----

  function Redirs<W>(ts: seq<Token<W>>): (r: Parsed<seq<Redirection<W>>, W>)
    ensures r.Ok? ==> |r.rest| <= |ts|
    decreases |ts|
  {
    if !Next(ts, "<>+") then Ok([], ts)
    else if |ts| == 1 || !ts[1].Word? then Fail(MissingFile)
    else match Redirs(ts[2..])
      case Fail(e) => Fail(e)
      case Ok(rs, rest) => Ok([Redirection(ts[1].w, if ts[0].c == '<' then In else Out)] + rs, rest)
  }

  function Wrap<W>(c: Cmd<W>, rs: seq<Redirection<W>>): Cmd<W>
    decreases |rs|
  {
    if rs == [] then c else Wrap(Redir(c, rs[0].file, rs[0].mode), rs[1..])
  }

  /** The arguments and redirections that follow, when args and rs have been read. */
  function Args<W>(ts: seq<Token<W>>, args: seq<W>, rs: seq<Redirection<W>>): (r: Parsed<Cmd<W>, W>)
    ensures r.Ok? ==> |r.rest| <= |ts|
    decreases |ts|
  {
    if ts == [] || Next(ts, "|)&;") then Ok(Wrap(Exec(args), rs), ts)
    else if !ts[0].Word? then Fail(Syntax)
    else if |args| + 1 >= MAXARGS then Fail(TooManyArgs)
    else match Redirs(ts[1..])
      case Fail(e) => Fail(e)
      case Ok(more, rest) => Args(rest, args + [ts[0].w], rs + more)
  }

  function Block<W>(ts: seq<Token<W>>): (r: Parsed<Cmd<W>, W>)
    requires Next(ts, "(")
    ensures r.Ok? ==> |r.rest| < |ts|
    decreases |ts|, 0
  {
    match Line(ts[1..])
    case Fail(e) => Fail(e)
    case Ok(c, rest) =>
      if !Next(rest, ")") then Fail(MissingParen)
      else match Redirs(rest[1..])
        case Fail(e) => Fail(e)
        case Ok(rs, rest') => Ok(Wrap(c, rs), rest')
  }

  function Simple<W>(ts: seq<Token<W>>): (r: Parsed<Cmd<W>, W>)
    ensures r.Ok? ==> |r.rest| <= |ts|
    decreases |ts|, 1
  {
    if Next(ts, "(") then Block(ts)
    else match Redirs(ts)
      case Fail(e) => Fail(e)
      case Ok(rs, rest) => Args(rest, [], rs)
  }

  function Pipeline<W>(ts: seq<Token<W>>): (r: Parsed<Cmd<W>, W>)
    ensures r.Ok? ==> |r.rest| <= |ts|
    decreases |ts|, 2
  {
    match Simple(ts)
    case Fail(e) => Fail(e)
    case Ok(c, rest) =>
      if !Next(rest, "|") then Ok(c, rest)
      else match Pipeline(rest[1..])
        case Fail(e) => Fail(e)
        case Ok(d, rest') => Ok(Pipe(c, d), rest')
  }

  /** The & signs that follow a pipeline. */
  function Backs<W>(c: Cmd<W>, ts: seq<Token<W>>): (r: (Cmd<W>, seq<Token<W>>))
    ensures |r.1| <= |ts| && !Next(r.1, "&")
    decreases |ts|
  {
    if Next(ts, "&") then Backs(Back(c), ts[1..]) else (c, ts)
  }

  function Line<W>(ts: seq<Token<W>>): (r: Parsed<Cmd<W>, W>)
    ensures r.Ok? ==> |r.rest| <= |ts|
    decreases |ts|, 3
  {
    match Pipeline(ts)
    case Fail(e) => Fail(e)
    case Ok(c0, ts0) =>
      var (c, rest) := Backs(c0, ts0);
      if !Next(rest, ";") then Ok(c, rest)
      else match Line(rest[1..])
        case Fail(e) => Fail(e)
        case Ok(d, rest') => Ok(List(c, d), rest')
  }

  /** parsecmd, before nulterminate. */
  function Command<W>(ts: seq<Token<W>>): Parsed<Cmd<W>, W> {
    match Line(ts)
    case Fail(e) => Fail(e)
    case Ok(c, rest) => if rest == [] then Ok(c, []) else Fail(Leftovers)
  }

  // ---- >> is > ----

  /** Every >> read as >. */
  function Plain<W>(ts: seq<Token<W>>): (r: seq<Token<W>>)
    ensures |r| == |ts| && forall i :: 0 <= i < |ts| ==> r[i] == if ts[i] == Sym('+') then Sym('>') else ts[i]
  {
    if ts == [] then [] else [if ts[0] == Sym('+') then Sym('>') else ts[0]] + Plain(ts[1..])
  }

  function PlainRest<T, W>(r: Parsed<T, W>): Parsed<T, W> {
    match r
    case Fail(e) => Fail(e)
    case Ok(v, rest) => Ok(v, Plain(rest))
  }

  lemma PlainFrom<W>(ts: seq<Token<W>>, k: nat)
    requires k <= |ts|
    ensures Plain(ts)[k..] == Plain(ts[k..])
  {
    hide Plain;
  }

  lemma {:induction false} PlainRedirs<W>(ts: seq<Token<W>>)
    ensures Redirs(Plain(ts)) == PlainRest(Redirs(ts))
    decreases |ts|
  {
    hide Plain;
    if Next(ts, "<>+") && |ts| > 1 {
      PlainFrom(ts, 2);
      PlainRedirs(ts[2..]);
    }
  }

  lemma {:induction false} PlainArgs<W>(ts: seq<Token<W>>, args: seq<W>, rs: seq<Redirection<W>>)
    ensures Args(Plain(ts), args, rs) == PlainRest(Args(ts, args, rs))
    decreases |ts|
  {
    hide Plain, Redirs, Wrap;
    if ts != [] {
      PlainFrom(ts, 1);
      PlainRedirs(ts[1..]);
      if Redirs(ts[1..]).Ok? && ts[0].Word? && |args| + 1 < MAXARGS {
        PlainArgs(Redirs(ts[1..]).rest, args + [ts[0].w], rs + Redirs(ts[1..]).value);
      }
    }
  }

  lemma {:induction false} PlainBlock<W>(ts: seq<Token<W>>)
    requires Next(ts, "(")
    ensures Block(Plain(ts)) == PlainRest(Block(ts))
    decreases |ts|, 0
  {
    hide Plain, Redirs, Wrap, Line;
    PlainFrom(ts, 1);
    PlainLine(ts[1..]);
    if Line(ts[1..]).Ok? && Line(ts[1..]).rest != [] {
      PlainFrom(Line(ts[1..]).rest, 1);
      PlainRedirs(Line(ts[1..]).rest[1..]);
    }
  }

  lemma {:induction false} PlainSimple<W>(ts: seq<Token<W>>)
    ensures Simple(Plain(ts)) == PlainRest(Simple(ts))
    decreases |ts|, 1
  {
    hide Plain, Redirs, Args, Block;
    if Next(ts, "(") {
      PlainBlock(ts);
    } else {
      PlainRedirs(ts);
      if Redirs(ts).Ok? { PlainArgs(Redirs(ts).rest, [], Redirs(ts).value); }
    }
  }

  lemma {:induction false} PlainPipeline<W>(ts: seq<Token<W>>)
    ensures Pipeline(Plain(ts)) == PlainRest(Pipeline(ts))
    decreases |ts|, 2
  {
    hide Plain, Simple;
    PlainSimple(ts);
    if Simple(ts).Ok? && Next(Simple(ts).rest, "|") {
      PlainFrom(Simple(ts).rest, 1);
      PlainPipeline(Simple(ts).rest[1..]);
    }
  }

  lemma {:induction false} PlainBacks<W>(c: Cmd<W>, ts: seq<Token<W>>)
    ensures Backs(c, Plain(ts)) == (Backs(c, ts).0, Plain(Backs(c, ts).1))
    decreases |ts|
  {
    hide Plain;
    if Next(ts, "&") {
      PlainFrom(ts, 1);
      PlainBacks(Back(c), ts[1..]);
    }
  }

  lemma {:induction false} PlainLine<W>(ts: seq<Token<W>>)
    ensures Line(Plain(ts)) == PlainRest(Line(ts))
    decreases |ts|, 3
  {
    hide Plain, Pipeline, Backs;
    PlainPipeline(ts);
    if Pipeline(ts).Ok? {
      PlainBacks(Pipeline(ts).value, Pipeline(ts).rest);
      var rest := Backs(Pipeline(ts).value, Pipeline(ts).rest).1;
      if Next(rest, ";") {
        PlainFrom(rest, 1);
        PlainLine(rest[1..]);
      }
    }
  }

  /** Every line means what it means with each >> replaced by >: nothing is ever appended to. */
  lemma AppendIsOut<W>(ts: seq<Token<W>>)
    ensures Command(Plain(ts)) == Command(ts)
  {
    hide Line;
    PlainLine(ts);
  }

  // ---- printing ----

  function Words<W>(args: seq<W>): seq<Token<W>> { seq(|args|, i requires 0 <= i < |args| => Word(args[i])) }

  function Parens<W>(ts: seq<Token<W>>): seq<Token<W>> { [Sym('(')] + ts + [Sym(')')] }

  function Sign(m: Mode): char { if m.In? then '<' else '>' }

  function Printed<W>(c: Cmd<W>): seq<Token<W>> {
    match c
    case Exec(args) => Words(args)
    case Redir(d, file, mode) => Parens(Printed(d)) + [Sym(Sign(mode)), Word(file)]
    case Pipe(l, r) => Parens(Printed(l)) + [Sym('|')] + Parens(Printed(r))
    case List(l, r) => Parens(Printed(l)) + [Sym(';')] + Parens(Printed(r))
    case Back(d) => Parens(Printed(d)) + [Sym('&')]
  }

  /** Fewer than MAXARGS arguments in every command. */
  predicate Short<W>(c: Cmd<W>) {
    match c
    case Exec(args) => |args| < MAXARGS
    case Redir(d, _, _) => Short(d)
    case Pipe(l, r) => Short(l) && Short(r)
    case List(l, r) => Short(l) && Short(r)
    case Back(d) => Short(d)
  }

  // ---- the parser inverts the printer ----

  /** What can follow a printed command: nothing, or the parenthesis that closes it. */
  ghost predicate Closes<W>(post: seq<Token<W>>) { post == [] || post[0] == Sym(')') }

  /** What can follow a simple command. */
  ghost predicate Ends<W>(post: seq<Token<W>>) { post == [] || Next(post, "|)&;") }

  lemma ArgsEnd<W>(post: seq<Token<W>>, args: seq<W>, rs: seq<Redirection<W>>)
    requires Ends(post)
    ensures Args(post, args, rs) == Ok(Wrap(Exec(args), rs), post)
  {
  }

  lemma ArgsNext<W>(w: W, ts: seq<Token<W>>, args: seq<W>, rs: seq<Redirection<W>>)
    ensures var r := Redirs(ts);
      Args([Word(w)] + ts, args, rs) ==
      if |args| + 1 >= MAXARGS then Fail(TooManyArgs)
      else if r.Fail? then Fail(r.error)
      else Args(r.rest, args + [w], rs + r.value)
  {
    hide Redirs;
    assert ([Word(w)] + ts)[1..] == ts;
  }

  lemma {:induction false} ArgsWords<W>(args: seq<W>, done: seq<W>, post: seq<Token<W>>)
    requires Closes(post) && |done| < MAXARGS
    ensures Args(Words(args) + post, done, []) ==
      if |done + args| < MAXARGS then Ok(Exec(done + args), post) else Fail(TooManyArgs)
    decreases |args|
  {
    hide Args, Redirs;
    var ts := Words(args) + post;
    var none: seq<Redirection<W>> := [];
    if args == [] {
      assert ts == post && done + args == done;
      ArgsEnd(post, done, none);
    } else {
      var next := Words(args[1..]) + post;
      assert ts == [Word(args[0])] + next;
      assert next != [] ==> next[0].Word? || next[0] == Sym(')');
      NoRedirs(next);
      ArgsNext(args[0], next, done, none);
      assert none + none == none;
      if |done| + 1 < MAXARGS {
        ArgsWords(args[1..], done + [args[0]], post);
        assert done + [args[0]] + args[1..] == done + args;
      }
    }
  }

  /** A line that is one command. */
  lemma LineSimple<W>(ts: seq<Token<W>>, post: seq<Token<W>>)
    requires Simple(ts).Ok? ==> Simple(ts).rest == post && Closes(post)
    ensures Line(ts) == Simple(ts)
  {
    if Simple(ts).Ok? {
      assert Pipeline(ts) == Simple(ts);
      assert Backs(Simple(ts).value, post) == (Simple(ts).value, post);
    }
  }

  /** A parenthesised command, and the redirections after it. */
  lemma BlockIs<W>(ts: seq<Token<W>>, inner: seq<Token<W>>, after: seq<Token<W>>)
    requires ts == Parens(inner) + after
    requires var r := Line(inner + ([Sym(')')] + after)); r.Ok? ==> r.rest == [Sym(')')] + after
    ensures Simple(ts) == match Line(inner + ([Sym(')')] + after))
      case Fail(e) => Fail(e)
      case Ok(c, _) => match Redirs(after)
        case Fail(e) => Fail(e)
        case Ok(rs, rest) => Ok(Wrap(c, rs), rest)
  {
    hide Line, Redirs, Wrap;
    assert ts[0] == Sym('(') && ts[1..] == inner + ([Sym(')')] + after);
    assert ([Sym(')')] + after)[1..] == after;
    assert Simple(ts) == Block(ts);
  }

  lemma NoRedirs<W>(ts: seq<Token<W>>)
    requires !Next(ts, "<>+")
    ensures Redirs(ts) == Ok([], ts)
  {
  }

  /** The outcome of parsing a printed command before the closing tokens post. */
  function Inverse<W>(c: Cmd<W>, post: seq<Token<W>>): Parsed<Cmd<W>, W> {
    if Short(c) then Ok(c, post) else Fail(TooManyArgs)
  }

  /** Parsing what was printed gives back the command, exactly when no command has too many arguments. */
  lemma {:induction false} RoundTrip<W>(c: Cmd<W>, post: seq<Token<W>>)
    requires Closes(post)
    ensures Line(Printed(c) + post) == Inverse(c, post)
    decreases c
  {
    match c
    case Exec(args) => ExecTrip(args, post);
    case Redir(d, file, mode) =>
      RoundTrip(d, [Sym(')'), Sym(Sign(mode)), Word(file)] + post);
      RedirTrip(d, file, mode, post);
    case Pipe(l, r) =>
      RoundTrip(l, [Sym(')'), Sym('|')] + Parens(Printed(r)) + post);
      RoundTrip(r, [Sym(')')] + post);
      PipeTrip(l, r, post);
    case List(l, r) =>
      RoundTrip(l, [Sym(')'), Sym(';')] + Parens(Printed(r)) + post);
      RoundTrip(r, [Sym(')')] + post);
      ListTrip(l, r, post);
    case Back(d) =>
      RoundTrip(d, [Sym(')'), Sym('&')] + post);
      BackTrip(d, post);
  }

  lemma ExecTrip<W>(args: seq<W>, post: seq<Token<W>>)
    requires Closes(post)
    ensures Line(Words(args) + post) == Inverse(Exec(args), post)
  {
    hide Args, Line, Pipeline, Block;
    var ts := Words(args) + post;
    assert ts != [] ==> ts[0].Word? || ts[0] == Sym(')');
    NoRedirs(ts);
    ArgsWords(args, [], post);
    assert [] + args == args;
    assert Simple(ts) == Args(ts, [], []);
    LineSimple(ts, post);
  }

  lemma RedirTrip<W>(d: Cmd<W>, file: W, mode: Mode, post: seq<Token<W>>)
    requires Closes(post)
    requires var p := [Sym(')'), Sym(Sign(mode)), Word(file)] + post; Line(Printed(d) + p) == Inverse(d, p)
    ensures Line(Printed(Redir(d, file, mode)) + post) == Inverse(Redir(d, file, mode), post)
  {
    hide Line, Pipeline, Simple;
    var after := [Sym(Sign(mode)), Word(file)] + post;
    var ts := Printed(Redir(d, file, mode)) + post;
    assert ts == Parens(Printed(d)) + after;
    assert [Sym(')')] + after == [Sym(')'), Sym(Sign(mode)), Word(file)] + post;
    BlockIs(ts, Printed(d), after);
    assert after[2..] == post;
    NoRedirs(post);
    assert Redirs(after) == Ok([Redirection(file, mode)] + [], post);
    LineSimple(ts, post);
  }

  lemma PairTokens<W>(a: seq<Token<W>>, c: char, b: seq<Token<W>>, post: seq<Token<W>>)
    ensures a + [Sym(c)] + b + post == a + ([Sym(c)] + (b + post))
    ensures [Sym(')')] + ([Sym(c)] + (b + post)) == [Sym(')'), Sym(c)] + b + post
  {
  }

  lemma PipeTrip<W>(l: Cmd<W>, r: Cmd<W>, post: seq<Token<W>>)
    requires Closes(post)
    requires var p := [Sym(')'), Sym('|')] + Parens(Printed(r)) + post; Line(Printed(l) + p) == Inverse(l, p)
    requires var p := [Sym(')')] + post; Line(Printed(r) + p) == Inverse(r, p)
    ensures Line(Printed(Pipe(l, r)) + post) == Inverse(Pipe(l, r), post)
  {
    hide Line, Simple, Pipeline, Redirs, Parens;
    var second := Parens(Printed(r)) + post;
    var after := [Sym('|')] + second;
    var ts := Printed(Pipe(l, r)) + post;
    PairTokens(Parens(Printed(l)), '|', Parens(Printed(r)), post);
    BlockIs(ts, Printed(l), after);
    NoRedirs(after);
    BlockIs(second, Printed(r), post);
    NoRedirs(post);
    assert after[1..] == second;
    LinePipe(ts, l, after, post);
  }

  lemma LinePipe<W>(ts: seq<Token<W>>, c: Cmd<W>, after: seq<Token<W>>, post: seq<Token<W>>)
    requires Next(after, "|") && Closes(post)
    requires Simple(ts) == Ok(c, after) || Simple(ts) == Fail(TooManyArgs)
    requires Simple(after[1..]).Ok? ==> Simple(after[1..]).rest == post
    ensures Line(ts) == if Simple(ts).Fail? then Fail(TooManyArgs) else
      match Simple(after[1..]) case Fail(e) => Fail(e) case Ok(d, rest) => Ok(Pipe(c, d), rest)
  {
    hide Simple;
    assert Pipeline(after[1..]) == Simple(after[1..]);
  }

  lemma ListTrip<W>(l: Cmd<W>, r: Cmd<W>, post: seq<Token<W>>)
    requires Closes(post)
    requires var p := [Sym(')'), Sym(';')] + Parens(Printed(r)) + post; Line(Printed(l) + p) == Inverse(l, p)
    requires var p := [Sym(')')] + post; Line(Printed(r) + p) == Inverse(r, p)
    ensures Line(Printed(List(l, r)) + post) == Inverse(List(l, r), post)
  {
    hide Line, Simple, Pipeline, Redirs, Parens;
    var second := Parens(Printed(r)) + post;
    var after := [Sym(';')] + second;
    var ts := Printed(List(l, r)) + post;
    PairTokens(Parens(Printed(l)), ';', Parens(Printed(r)), post);
    BlockIs(ts, Printed(l), after);
    NoRedirs(after);
    BlockIs(second, Printed(r), post);
    NoRedirs(post);
    LineSimple(second, post);
    assert after[1..] == second;
    LineList(ts, l, after);
  }

  lemma LineList<W>(ts: seq<Token<W>>, c: Cmd<W>, after: seq<Token<W>>)
    requires Next(after, ";")
    requires Simple(ts) == Ok(c, after) || Simple(ts) == Fail(TooManyArgs)
    ensures Line(ts) == if Simple(ts).Fail? then Fail(TooManyArgs) else
      match Line(after[1..]) case Fail(e) => Fail(e) case Ok(d, rest) => Ok(List(c, d), rest)
  {
    hide Simple;
    if Simple(ts).Ok? {
      assert Pipeline(ts) == Ok(c, after) && Backs(c, after) == (c, after);
    }
  }

  lemma BackTrip<W>(d: Cmd<W>, post: seq<Token<W>>)
    requires Closes(post)
    requires var p := [Sym(')'), Sym('&')] + post; Line(Printed(d) + p) == Inverse(d, p)
    ensures Line(Printed(Back(d)) + post) == Inverse(Back(d), post)
  {
    hide Simple, Line;
    var after := [Sym('&')] + post;
    var ts := Printed(Back(d)) + post;
    assert ts == Parens(Printed(d)) + after;
    assert [Sym(')')] + after == [Sym(')'), Sym('&')] + post;
    BlockIs(ts, Printed(d), after);
    NoRedirs(after);
    assert after[1..] == post;
    LineBack(ts, d, after);
  }

  lemma LineBack<W>(ts: seq<Token<W>>, c: Cmd<W>, after: seq<Token<W>>)
    requires Next(after, "&") && Closes(after[1..])
    requires Simple(ts) == Ok(c, after) || Simple(ts) == Fail(TooManyArgs)
    ensures Line(ts) == if Simple(ts).Fail? then Fail(TooManyArgs) else Ok(Back(c), after[1..])
  {
    hide Simple;
    if Simple(ts).Ok? {
      assert Pipeline(ts) == Ok(c, after);
      assert Backs(Back(c), after[1..]) == (Back(c), after[1..]);
    }
  }
}
