/** sh.c's recursive-descent parser: a cursor moved over the line, proved to read the grammar of Shell, and
    nulterminate's writes into the line. */
module ShellParser {
  import opened Shell
  import opened ShellLines

  /** A parse, or a panic. */
  datatype Outcome<T> = Done(value: T) | Panic(error: Error)

  /** The characters that peek looks for, as tokens: > may begin >>. */
  function AsTokens(toks: string): string { if '>' in toks then toks + "+" else toks }

  lemma {:induction false} SkipTwice(src: string, p: nat)
    requires CString(src) && p <= |src|
    ensures SkipSpace(src, SkipSpace(src, p)) == SkipSpace(src, p)
    ensures Tokens(src, SkipSpace(src, p)) == Tokens(src, p)
  {
  }

  lemma WordEnds(src: string, p: nat)
    requires p <= |src| && (p < |src| ==> IsSpace(src[p]) || IsSymbol(src[p]))
    ensures WordEnd(src, p) == p
  {
  }

  /** What the next character says about the next token. */
  lemma PeekNext(src: string, p: nat, toks: string)
    requires CString(src) && p <= |src| && SkipSpace(src, p) == p && forall c :: c in toks ==> IsSymbol(c)
    ensures p < |src| && src[p] in toks <==> Next(Tokens(src, p), AsTokens(toks))
    ensures p == |src| <==> Tokens(src, p) == []
  {
    if p < |src| {
      assert !IsSymbol('+');
      assert Tokens(src, p)[0] == TokenAt(src, p).0;
    }
  }

  class Parser {
    const src: string
    var ps: nat

    predicate Valid()
      reads this
    {
      CString(src) && ps <= |src|
    }

    ghost function Left(): seq<Token<Span>>
      requires Valid()
      reads this
    {
      Tokens(src, ps)
    }

    constructor (line: string)
      requires CString(line)
      ensures Valid() && src == line && ps == 0
    {
      src, ps := line, 0;
    }

    /** Skip the white space that the next token may follow. */
    method SkipWhite()
      requires Valid()
      modifies this
      ensures Valid() && ps == SkipSpace(src, old(ps)) == SkipSpace(src, ps) && Left() == old(Left())
    {
      SkipTwice(src, ps);
      while ps < |src| && IsSpace(src[ps])
        invariant Valid() && SkipSpace(src, ps) == SkipSpace(src, old(ps))
      {
        ps := ps + 1;
      }
    }

    /** peek */
    method Peek(toks: string) returns (b: bool)
      requires Valid() && forall c :: c in toks ==> IsSymbol(c)
      modifies this
      ensures Valid() && old(ps) <= ps && Left() == old(Left()) && (b <==> Next(Left(), AsTokens(toks)))
      ensures ps == |src| <==> Left() == []
    {
      SkipWhite();
      PeekNext(src, ps, toks);
      b := ps < |src| && src[ps] in toks;
    }

    /** gettoken's switch on the character at the cursor. */
    method Scan() returns (ret: char)
      requires Valid() && ps < |src| && !IsSpace(src[ps]) && src[ps] != '\0'
      modifies this
      ensures Valid() && ps == TokenAt(src, old(ps)).1 && ret != '\0'
      ensures var t := TokenAt(src, old(ps)).0;
        match t case Word(w) => ret == 'a' && w == Span(old(ps), ps) case Sym(c) => ret == c && ret != 'a'
    {
      if src[ps] in "|();&<" {
        ret := src[ps];
        ps := ps + 1;
      } else if src[ps] == '>' {
        ret := '>';
        ps := ps + 1;
        if ps < |src| && src[ps] == '>' {
          ret := '+';
          ps := ps + 1;
        }
      } else {
        ret := 'a';
        while ps < |src| && !IsSpace(src[ps]) && !IsSymbol(src[ps])
          invariant Valid() && old(ps) <= ps && WordEnd(src, ps) == WordEnd(src, old(ps))
        {
          ps := ps + 1;
        }
        WordEnds(src, ps);
      }
    }

    /** gettoken: the kind of token, and where a word begins and ends. */
    method GetToken() returns (ret: char, q: nat, eq: nat)
      requires Valid()
      modifies this
      ensures Valid() && old(ps) <= ps
      ensures old(Left()) == [] ==> ret == '\0' && Left() == []
      ensures old(Left()) != [] ==> old(ps) < ps && Left() == old(Left())[1..] && ret != '\0'
      ensures old(Left()) != [] && old(Left())[0].Word? ==> ret == 'a' && old(Left())[0].w == Span(q, eq)
      ensures old(Left()) != [] && old(Left())[0].Sym? ==> ret == old(Left())[0].c && ret != 'a'
    {
      hide IsSpace, IsSymbol, TokenAt;
      SkipWhite();
      q := ps;
      if ps == |src| {
        ret := '\0';
      } else {
        ghost var s := ps;
        ret := Scan();
        assert Tokens(src, s) == [TokenAt(src, s).0] + Tokens(src, ps);
      }
      eq := ps;
      SkipWhite();
    }

    /** parseredirs: the redirections that follow, in order. */
    method ParseRedirs() returns (out: Outcome<seq<Redirection<Span>>>)
      requires Valid()
      modifies this
      ensures Valid() && old(ps) <= ps && Agrees(Redirs(old(Left())), out, Left())
    {
      hide Tokens, CString;
      var rs: seq<Redirection<Span>> := [];
      Prepended(Redirs(Left()));
      var more := Peek("<>");
      while more
        invariant Valid() && old(ps) <= ps && (more <==> Next(Left(), "<>+"))
        invariant Prepend(rs, Redirs(Left())) == Redirs(old(Left()))
        decreases |src| - ps
      {
        ghost var ts := Left();
        var tok, _, _ := GetToken();
        var kind, q, eq := GetToken();
        if kind != 'a' {
          return Panic(MissingFile);
        }
        assert ts[1] == Word(Span(q, eq)) && Left() == ts[2..];
        var one := Redirection(Span(q, eq), if tok == '<' then In else Out);
        PrependOne(rs, one, Redirs(Left()));
        rs := rs + [one];
        more := Peek("<>");
      }
      assert rs + [] == rs;
      out := Done(rs);
    }

    /** parseline */
    method ParseLine() returns (out: Outcome<Cmd<Span>>)
      requires Valid()
      modifies this
      ensures Valid() && old(ps) <= ps && Agrees(Line(old(Left())), out, Left())
      decreases |src| - ps, 3
    {
      hide Tokens, CString, Pipeline;
      ghost var ts := Left();
      out := ParsePipe();
      if out.Panic? {
        return;
      }
      var cmd := out.value;
      ghost var c0, ts0 := cmd, Left();
      var back := Peek("&");
      while back
        invariant Valid() && old(ps) <= ps && (back <==> Next(Left(), "&")) && Backs(cmd, Left()) == Backs(c0, ts0)
        decreases |src| - ps
      {
        var _, _, _ := GetToken();
        cmd := Back(cmd);
        back := Peek("&");
      }
      var semi := Peek(";");
      if !semi {
        return Done(cmd);
      }
      var _, _, _ := GetToken();
      out := ParseLine();
      if out.Done? {
        out := Done(List(cmd, out.value));
      }
    }

    /** parsepipe */
    method ParsePipe() returns (out: Outcome<Cmd<Span>>)
      requires Valid()
      modifies this
      ensures Valid() && old(ps) <= ps && Agrees(Pipeline(old(Left())), out, Left())
      decreases |src| - ps, 2
    {
      hide Tokens, CString, Simple;
      out := ParseExec();
      if out.Panic? {
        return;
      }
      var cmd := out.value;
      var bar := Peek("|");
      if !bar {
        return;
      }
      var _, _, _ := GetToken();
      out := ParsePipe();
      if out.Done? {
        out := Done(Pipe(cmd, out.value));
      }
    }

    /** parseblock */
    method ParseBlock() returns (out: Outcome<Cmd<Span>>)
      requires Valid() && Next(Left(), "(")
      modifies this
      ensures Valid() && old(ps) <= ps && Agrees(Block(old(Left())), out, Left())
      decreases |src| - ps, 0
    {
      hide Tokens, CString, Line, Redirs;
      var _, _, _ := GetToken();
      out := ParseLine();
      if out.Panic? {
        return;
      }
      var cmd := out.value;
      var close := Peek(")");
      if !close {
        return Panic(MissingParen);
      }
      var _, _, _ := GetToken();
      var rs := ParseRedirs();
      out := if rs.Panic? then Panic(rs.error) else Done(Wrap(cmd, rs.value));
    }

    /** parseexec; argv is the argument list of the command inside the redirections. */
    method ParseExec() returns (out: Outcome<Cmd<Span>>)
      requires Valid()
      modifies this
      ensures Valid() && old(ps) <= ps && Agrees(Simple(old(Left())), out, Left())
      decreases |src| - ps, 1
    {
      hide Tokens, CString, Block, Redirs;
      var open := Peek("(");
      if open {
        out := ParseBlock();
        return;
      }
      var argv: seq<Span> := [];
      var rs := ParseRedirs();
      if rs.Panic? {
        return Panic(rs.error);
      }
      var redirs := rs.value;
      var stop := Peek("|)&;");
      while !stop
        invariant Valid() && old(ps) <= ps && (stop <==> Next(Left(), "|)&;")) && |argv| < MAXARGS
        invariant Simple(old(Left())) == Args(Left(), argv, redirs)
        decreases |src| - ps, !stop
      {
        ghost var ts := Left();
        var tok, q, eq := GetToken();
        if tok == '\0' {
          break;
        }
        if tok != 'a' {
          return Panic(Syntax);
        }
        argv := argv + [Span(q, eq)];
        if |argv| >= MAXARGS {
          return Panic(TooManyArgs);
        }
        rs := ParseRedirs();
        if rs.Panic? {
          return Panic(rs.error);
        }
        redirs := redirs + rs.value;
        stop := Peek("|)&;");
      }
      out := Done(Wrap(Exec(argv), redirs));
    }
  }

  /** nulterminate */
  method NulTerminate(buf: array<char>, c: Cmd<Span>)
    requires EndsIn(c, buf.Length)
    modifies buf
    ensures buf[..] == Cut(old(buf[..]), c)
    decreases c
  {
    ghost var before := buf[..];
    match c
    case Exec(args) =>
      var i := 0;
      while i < |args|
        invariant 0 <= i <= |args| && buf[..] == CutAll(before, args[..i])
      {
        CutNext(before, args, i);
        buf[args[i].eq] := '\0';
        i := i + 1;
      }
      assert args[..i] == args;
    case Redir(d, file, _) =>
      NulTerminate(buf, d);
      buf[file.eq] := '\0';
    case Pipe(l, r) =>
      NulTerminate(buf, l);
      NulTerminate(buf, r);
    case List(l, r) =>
      NulTerminate(buf, l);
      NulTerminate(buf, r);
    case Back(d) =>
      NulTerminate(buf, d);
  }

  /** parsecmd of the line in buf, n characters before the terminating NUL. */
  method ParseCmd(buf: array<char>, n: nat) returns (out: Outcome<Cmd<Span>>)
    requires n < buf.Length && CString(buf[..n]) && buf[n] == '\0'
    modifies buf
    ensures var r := Command(old(Tokens(buf[..n], 0)));
      match r case Fail(e) => out == Panic(e) case Ok(c, _) => out == Done(c)
    ensures out.Done? ==> ReadsBack(buf[..], old(buf[..n]), out.value)
    ensures out.Panic? ==> buf[..] == old(buf[..])
  {
    hide Tokens, Line;
    ghost var line := buf[..n];
    var parser := new Parser(buf[..n]);
    out := parser.ParseLine();
    if out.Panic? {
      return;
    }
    var _ := parser.Peek("");
    if parser.ps != n {
      return Panic(Leftovers);
    }
    TokensAreWords(line, 0);
    LineFine(line, Tokens(line, 0));
    WordsEnd(line, out.value, buf.Length);
    NulTerminate(buf, out.value);
    CutReads(old(buf[..]), line, out.value);
  }

  // ---- the terminators ----

  predicate EndsIn(c: Cmd<Span>, n: nat) {
    match c
    case Exec(args) => forall i :: 0 <= i < |args| ==> args[i].eq < n
    case Redir(d, file, _) => EndsIn(d, n) && file.eq < n
    case Pipe(l, r) => EndsIn(l, n) && EndsIn(r, n)
    case List(l, r) => EndsIn(l, n) && EndsIn(r, n)
    case Back(d) => EndsIn(d, n)
  }

  ghost function CutAll(buf: seq<char>, args: seq<Span>): (r: seq<char>)
    requires forall i :: 0 <= i < |args| ==> args[i].eq < |buf|
    ensures |r| == |buf|
  {
    if args == [] then buf else CutAll(buf, args[..|args| - 1])[args[|args| - 1].eq := '\0']
  }

  lemma CutNext(buf: seq<char>, args: seq<Span>, i: nat)
    requires i < |args| && forall k :: 0 <= k < |args| ==> args[k].eq < |buf|
    ensures CutAll(buf, args[..i + 1]) == CutAll(buf, args[..i])[args[i].eq := '\0']
  {
    assert args[..i + 1][..i] == args[..i];
  }

  /** The line with a NUL after each of the command's words. */
  ghost function Cut(buf: seq<char>, c: Cmd<Span>): (r: seq<char>)
    requires EndsIn(c, |buf|)
    ensures |r| == |buf|
    decreases c
  {
    match c
    case Exec(args) => CutAll(buf, args)
    case Redir(d, file, _) => Cut(buf, d)[file.eq := '\0']
    case Pipe(l, r) => Cut(Cut(buf, l), r)
    case List(l, r) => Cut(Cut(buf, l), r)
    case Back(d) => Cut(buf, d)
  }

  /** The C string at q. */
  function StringAt(buf: seq<char>, q: nat): string
    decreases |buf| - q
  {
    if q >= |buf| || buf[q] == '\0' then "" else [buf[q]] + StringAt(buf, q + 1)
  }

  /** Each word of the command, read as a C string, is the word it was in the line. */
  ghost predicate ReadsBack(buf: seq<char>, line: string, c: Cmd<Span>) {
    match c
    case Exec(args) => forall i :: 0 <= i < |args| ==> StringAt(buf, args[i].q) == Slice(line, args[i])
    case Redir(d, file, _) => ReadsBack(buf, line, d) && StringAt(buf, file.q) == Slice(line, file)
    case Pipe(l, r) => ReadsBack(buf, line, l) && ReadsBack(buf, line, r)
    case List(l, r) => ReadsBack(buf, line, l) && ReadsBack(buf, line, r)
    case Back(d) => ReadsBack(buf, line, d)
  }

  lemma {:induction false} WordsEnd(line: string, c: Cmd<Span>, n: nat)
    requires WordsIn(line, c) && |line| < n
    ensures EndsIn(c, n)
    decreases c
  {
    match c
    case Exec(args) =>
      forall i | 0 <= i < |args| ensures args[i].eq < n {
        assert WordSpan(line, args[i]);
      }
    case Redir(d, file, mode) => WordsEnd(line, d, n);
    case Pipe(l, r) => WordsEnd(line, l, n); WordsEnd(line, r, n);
    case List(l, r) => WordsEnd(line, l, n); WordsEnd(line, r, n);
    case Back(d) => WordsEnd(line, d, n);
  }

  /** after is buf with NULs written, none of them over a character of a word of the line. */
  ghost predicate Spares(line: string, buf: seq<char>, after: seq<char>) {
    && |after| == |buf| > |line|
    && (forall i :: 0 <= i < |buf| ==> after[i] == buf[i] || after[i] == '\0')
    && (forall i :: 0 <= i < |line| && IsWordChar(line[i]) ==> after[i] == buf[i])
  }

  lemma {:induction false} CutAllSpares(line: string, buf: seq<char>, args: seq<Span>)
    requires |buf| > |line| && (forall i :: 0 <= i < |args| ==> args[i].eq < |buf| && WordSpan(line, args[i]))
    ensures Spares(line, buf, CutAll(buf, args)) &&
      forall i :: 0 <= i < |args| ==> CutAll(buf, args)[args[i].eq] == '\0'
    decreases |args|
  {
    hide IsWordChar;
    if args != [] {
      var n := |args| - 1;
      CutAllSpares(line, buf, args[..n]);
      assert WordSpan(line, args[n]);
      forall i | 0 <= i < n ensures CutAll(buf, args)[args[i].eq] == '\0' {
        assert args[..n][i] == args[i];
      }
    }
  }

  lemma {:induction false} CutSpares(line: string, buf: seq<char>, c: Cmd<Span>)
    requires |buf| > |line| && EndsIn(c, |buf|) && WordsIn(line, c)
    ensures Spares(line, buf, Cut(buf, c))
    decreases c
  {
    hide IsWordChar;
    match c
    case Exec(args) => CutAllSpares(line, buf, args);
    case Redir(d, file, mode) => CutSpares(line, buf, d);
    case Pipe(l, r) => CutSpares(line, buf, l); CutSpares(line, Cut(buf, l), r);
    case List(l, r) => CutSpares(line, buf, l); CutSpares(line, Cut(buf, l), r);
    case Back(d) => CutSpares(line, buf, d);
  }

  /** Every word of the command is followed by a NUL. */
  ghost predicate Ended(buf: seq<char>, c: Cmd<Span>)
    requires EndsIn(c, |buf|)
  {
    match c
    case Exec(args) => forall i :: 0 <= i < |args| ==> buf[args[i].eq] == '\0'
    case Redir(d, file, _) => Ended(buf, d) && buf[file.eq] == '\0'
    case Pipe(l, r) => Ended(buf, l) && Ended(buf, r)
    case List(l, r) => Ended(buf, l) && Ended(buf, r)
    case Back(d) => Ended(buf, d)
  }

  lemma {:induction false} EndedStays(line: string, buf: seq<char>, after: seq<char>, c: Cmd<Span>)
    requires Spares(line, buf, after) && EndsIn(c, |buf|) && Ended(buf, c)
    ensures Ended(after, c)
    decreases c
  {
    match c
    case Exec(args) =>
    case Redir(d, file, mode) => EndedStays(line, buf, after, d);
    case Pipe(l, r) => EndedStays(line, buf, after, l); EndedStays(line, buf, after, r);
    case List(l, r) => EndedStays(line, buf, after, l); EndedStays(line, buf, after, r);
    case Back(d) => EndedStays(line, buf, after, d);
  }

  lemma {:induction false} CutEnds(line: string, buf: seq<char>, c: Cmd<Span>)
    requires |buf| > |line| && EndsIn(c, |buf|) && WordsIn(line, c)
    ensures Ended(Cut(buf, c), c)
    decreases c
  {
    hide Spares, IsWordChar;
    match c
    case Exec(args) => CutAllSpares(line, buf, args);
    case Redir(d, file, mode) =>
      CutEnds(line, buf, d);
      OneCut(line, Cut(buf, d), file);
      EndedStays(line, Cut(buf, d), Cut(buf, c), d);
    case Pipe(l, r) => PairEnds(line, buf, c, l, r);
    case List(l, r) => PairEnds(line, buf, c, l, r);
    case Back(d) => CutEnds(line, buf, d);
  }

  lemma {:induction false} PairEnds(line: string, buf: seq<char>, c: Cmd<Span>, l: Cmd<Span>, r: Cmd<Span>)
    requires (c == Pipe(l, r) || c == List(l, r)) && |buf| > |line| && EndsIn(l, |buf|) && EndsIn(r, |buf|)
    requires WordsIn(line, l) && WordsIn(line, r)
    ensures Ended(Cut(Cut(buf, l), r), l) && Ended(Cut(Cut(buf, l), r), r)
    decreases c, 0
  {
    hide Spares, IsWordChar;
    CutEnds(line, buf, l);
    CutEnds(line, Cut(buf, l), r);
    CutSpares(line, Cut(buf, l), r);
    EndedStays(line, Cut(buf, l), Cut(Cut(buf, l), r), l);
  }

  lemma OneCut(line: string, buf: seq<char>, s: Span)
    requires |buf| > |line| && s.eq < |buf| && WordSpan(line, s)
    ensures Spares(line, buf, buf[s.eq := '\0'])
  {
  }

  lemma {:induction false} StringIs(line: string, buf: seq<char>, q: nat, eq: nat)
    requires q <= eq <= |line| < |buf| && buf[eq] == '\0' && CString(line)
    requires forall i :: q <= i < eq ==> buf[i] == line[i]
    ensures StringAt(buf, q) == line[q..eq]
    decreases eq - q
  {
    if q < eq { StringIs(line, buf, q + 1, eq); }
  }

  lemma {:induction false} EndedReads(line: string, buf: seq<char>, c: Cmd<Span>)
    requires CString(line) && |buf| > |line| && EndsIn(c, |buf|) && WordsIn(line, c) && Ended(buf, c)
    requires forall i :: 0 <= i < |line| && IsWordChar(line[i]) ==> buf[i] == line[i]
    ensures ReadsBack(buf, line, c)
    decreases c
  {
    hide IsWordChar, CString, StringAt;
    match c
    case Exec(args) =>
      forall i | 0 <= i < |args| ensures StringAt(buf, args[i].q) == Slice(line, args[i]) {
        assert WordSpan(line, args[i]);
        StringIs(line, buf, args[i].q, args[i].eq);
      }
    case Redir(d, file, mode) => EndedReads(line, buf, d); StringIs(line, buf, file.q, file.eq);
    case Pipe(l, r) => EndedReads(line, buf, l); EndedReads(line, buf, r);
    case List(l, r) => EndedReads(line, buf, l); EndedReads(line, buf, r);
    case Back(d) => EndedReads(line, buf, d);
  }

  /** After nulterminate every word reads as it did in the line. */
  lemma CutReads(buf: seq<char>, line: string, c: Cmd<Span>)
    requires CString(line) && |buf| > |line| && buf[..|line|] == line && WordsIn(line, c) && EndsIn(c, |buf|)
    ensures ReadsBack(Cut(buf, c), line, c)
  {
    hide IsWordChar, CString, Cut;
    CutSpares(line, buf, c);
    CutEnds(line, buf, c);
    forall i | 0 <= i < |line| && IsWordChar(line[i]) ensures Cut(buf, c)[i] == line[i] {
      assert line[i] == buf[..|line|][i];
    }
    EndedReads(line, Cut(buf, c), c);
  }

  // ---- agreement with the grammar ----

  ghost predicate Agrees<T(!new)>(r: Parsed<T, Span>, out: Outcome<T>, left: seq<Token<Span>>) {
    match r
    case Fail(e) => out == Panic(e)
    case Ok(v, rest) => out == Done(v) && left == rest
  }

  ghost function Prepend(rs: seq<Redirection<Span>>, r: Parsed<seq<Redirection<Span>>, Span>)
    : Parsed<seq<Redirection<Span>>, Span>
  {
    match r
    case Fail(e) => Fail(e)
    case Ok(more, rest) => Ok(rs + more, rest)
  }

  lemma Prepended(r: Parsed<seq<Redirection<Span>>, Span>)
    ensures Prepend([], r) == r
  {
    if r.Ok? { assert [] + r.value == r.value; }
  }

  lemma PrependOne(rs: seq<Redirection<Span>>, one: Redirection<Span>, r: Parsed<seq<Redirection<Span>>, Span>)
    ensures Prepend(rs, Prepend([one], r)) == Prepend(rs + [one], r)
  {
    if r.Ok? { assert rs + ([one] + r.value) == rs + [one] + r.value; }
  }
}
