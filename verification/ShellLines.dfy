/** Command lines as characters: sh.c's tokens, printing a command as a line, and what the parser gives
    for a printed line and for any line. */
module ShellLines {
  import opened Shell

  /** A word of the line: from q up to, but not including, eq. */
  datatype Span = Span(q: nat, eq: nat)

  predicate IsSpace(c: char) { c in " \t\r\n\U{0B}" }

  predicate IsSymbol(c: char) { c in "<|>&;()" }

  predicate IsWordChar(c: char) { c != '\0' && !IsSpace(c) && !IsSymbol(c) }

  /** A C string's characters, without its terminator. */
  predicate CString(src: string) { forall i :: 0 <= i < |src| ==> src[i] != '\0' }

  function SkipSpace(src: string, p: nat): (r: nat)
    requires p <= |src|
    ensures p <= r <= |src| && (r < |src| ==> !IsSpace(src[r]))
    ensures forall i :: p <= i < r ==> IsSpace(src[i])
    decreases |src| - p
  {
    if p < |src| && IsSpace(src[p]) then SkipSpace(src, p + 1) else p
  }

  function WordEnd(src: string, p: nat): (r: nat)
    requires p <= |src|
    ensures p <= r <= |src| && (r < |src| ==> !IsWordChar(src[r]))
    ensures forall i :: p <= i < r ==> IsWordChar(src[i])
    decreases |src| - p
  {
    if p < |src| && IsWordChar(src[p]) then WordEnd(src, p + 1) else p
  }

  /** The token at p, and where it ends. */
  function TokenAt(src: string, p: nat): (r: (Token<Span>, nat))
    requires p < |src| && !IsSpace(src[p]) && src[p] != '\0'
    ensures p < r.1 <= |src|
  {
    if src[p] == '>' && p + 1 < |src| && src[p + 1] == '>' then (Sym('+'), p + 2)
    else if IsSymbol(src[p]) then (Sym(src[p]), p + 1)
    else
      assert WordEnd(src, p) == WordEnd(src, p + 1);
      (Word(Span(p, WordEnd(src, p))), WordEnd(src, p))
  }

  function Tokens(src: string, p: nat): (ts: seq<Token<Span>>)
    requires CString(src) && p <= |src|
    decreases |src| - p
  {
    var s := SkipSpace(src, p);
    if s == |src| then [] else
      var (t, e) := TokenAt(src, s);
      [t] + Tokens(src, e)
  }

  // ---- printing ----

  function Join(args: seq<string>): string {
    if args == [] then "" else if |args| == 1 then args[0] else args[0] + " " + Join(args[1..])
  }

  function Print(c: Cmd<string>): string {
    match c
    case Exec(args) => Join(args)
    case Redir(d, file, mode) => "(" + (Print(d) + (")" + ([Sign(mode)] + file)))
    case Pipe(l, r) => "(" + (Print(l) + ([')', '|', '('] + (Print(r) + ")")))
    case List(l, r) => "(" + (Print(l) + ([')', ';', '('] + (Print(r) + ")")))
    case Back(d) => "(" + (Print(d) + (")" + "&"))
  }

  predicate IsWord(w: string) { w != "" && forall i :: 0 <= i < |w| ==> IsWordChar(w[i]) }

  predicate Printable(c: Cmd<string>) {
    match c
    case Exec(args) => forall i :: 0 <= i < |args| ==> IsWord(args[i])
    case Redir(d, file, mode) => Printable(d) && IsWord(file)
    case Pipe(l, r) => Printable(l) && Printable(r)
    case List(l, r) => Printable(l) && Printable(r)
    case Back(d) => Printable(d)
  }

  function JoinSpans(args: seq<string>, p: nat): seq<Span> {
    if args == [] then [] else [Span(p, p + |args[0]|)] + JoinSpans(args[1..], p + |args[0]| + 1)
  }

  /** The command with its words replaced by their places when it is printed at p. */
  function Placed(c: Cmd<string>, p: nat): Cmd<Span> {
    match c
    case Exec(args) => Exec(JoinSpans(args, p))
    case Redir(d, file, mode) => var q := p + 3 + |Print(d)|; Redir(Placed(d, p + 1), Span(q, q + |file|), mode)
    case Pipe(l, r) => Pipe(Placed(l, p + 1), Placed(r, p + 4 + |Print(l)|))
    case List(l, r) => List(Placed(l, p + 1), Placed(r, p + 4 + |Print(l)|))
    case Back(d) => Back(Placed(d, p + 1))
  }

  /** The words that a command's spans stand for. */
  function Slice(src: string, s: Span): string {
    if s.q <= s.eq <= |src| then src[s.q..s.eq] else ""
  }

  function Text(src: string, c: Cmd<Span>): Cmd<string> {
    match c
    case Exec(args) => Exec(seq(|args|, i requires 0 <= i < |args| => Slice(src, args[i])))
    case Redir(d, file, mode) => Redir(Text(src, d), Slice(src, file), mode)
    case Pipe(l, r) => Pipe(Text(src, l), Text(src, r))
    case List(l, r) => List(Text(src, l), Text(src, r))
    case Back(d) => Back(Text(src, d))
  }

  // ---- the tokens of a printed line ----

  /** w stands in src at p. */
  ghost predicate At(src: string, p: nat, w: string) { p + |w| <= |src| && src[p..p + |w|] == w }

  lemma AtSplit(src: string, p: nat, a: string, b: string)
    requires At(src, p, a + b)
    ensures At(src, p, a) && At(src, p + |a|, b)
  {
    assert src[p..p + |a|] == (a + b)[..|a|];
    assert src[p + |a|..p + |a| + |b|] == (a + b)[|a|..];
  }

  /** A word cannot run on at p. */
  ghost predicate Boundary(src: string, p: nat) { p <= |src| && (p < |src| ==> !IsWordChar(src[p])) }

  lemma TokensSpace(src: string, p: nat)
    requires CString(src) && At(src, p, " ")
    ensures Tokens(src, p) == Tokens(src, p + 1)
  {
    assert src[p] == src[p..p + 1][0];
  }

  lemma TokensSym(src: string, p: nat, c: char)
    requires CString(src) && At(src, p, [c]) && IsSymbol(c) && (c == '>' ==> p + 1 == |src| || src[p + 1] != '>')
    ensures Tokens(src, p) == [Sym(c)] + Tokens(src, p + 1)
  {
    assert src[p] == src[p..p + 1][0];
    assert SkipSpace(src, p) == p;
  }

  lemma {:induction false} WordEndIs(src: string, p: nat, e: nat)
    requires p <= e <= |src| && (forall i :: p <= i < e ==> IsWordChar(src[i])) && Boundary(src, e)
    ensures WordEnd(src, p) == e
    decreases e - p
  {
    if p < e { WordEndIs(src, p + 1, e); }
  }

  lemma TokensWord(src: string, p: nat, w: string)
    requires CString(src) && At(src, p, w) && IsWord(w) && Boundary(src, p + |w|)
    ensures Tokens(src, p) == [Word(Span(p, p + |w|))] + Tokens(src, p + |w|)
  {
    forall i | p <= i < p + |w| ensures IsWordChar(src[i]) {
      assert src[i] == w[i - p];
    }
    WordEndIs(src, p, p + |w|);
    assert SkipSpace(src, p) == p;
  }

  lemma AtOne(src: string, p: nat, c: char)
    requires At(src, p, [c])
    ensures p < |src| && src[p] == c
  {
    assert src[p] == src[p..p + 1][0];
  }

  lemma WordsFirst(s: Span, more: seq<Span>, ts: seq<Token<Span>>)
    ensures Words([s] + more) + ts == [Word(s)] + (Words(more) + ts)
  {
  }

  lemma {:induction false} TokensJoin(src: string, p: nat, args: seq<string>)
    requires CString(src) && At(src, p, Join(args)) && (forall i :: 0 <= i < |args| ==> IsWord(args[i]))
    requires Boundary(src, p + |Join(args)|)
    ensures Tokens(src, p) == Words(JoinSpans(args, p)) + Tokens(src, p + |Join(args)|)
    decreases |args|
  {
    hide Tokens, At, Words, IsWord, IsWordChar;
    if args == [] {
      NoWords(Tokens(src, p));
    } else if |args| == 1 {
      TokensWord(src, p, args[0]);
      WordsFirst(Span(p, p + |args[0]|), [], Tokens(src, p + |args[0]|));
      NoWords(Tokens(src, p + |args[0]|));
    } else {
      var q, more := p + |args[0]|, args[1..];
      AtSplit(src, p, args[0] + " ", Join(more));
      AtSplit(src, p, args[0], " ");
      AtOne(src, q, ' ');
      SpaceEnds();
      TokensWord(src, p, args[0]);
      TokensSpace(src, q);
      TokensJoin(src, q + 1, more);
      WordsFirst(Span(p, q), JoinSpans(more, q + 1), Tokens(src, p + |Join(args)|));
    }
  }

  lemma NoWords(ts: seq<Token<Span>>)
    ensures Words([]) + ts == ts
  {
  }

  lemma SpaceEnds()
    ensures !IsWordChar(' ') && !IsWordChar('(') && !IsWordChar(')') && !IsWordChar('<') && !IsWordChar('>')
  {
  }

  // ---- a printed line reads back ----

  /** Where c is printed in src, the tokens are its tokens. */
  lemma {:induction false} TokensPrint(src: string, p: nat, c: Cmd<string>)
    requires CString(src) && At(src, p, Print(c)) && Printable(c) && Boundary(src, p + |Print(c)|)
    ensures Tokens(src, p) == Printed(Placed(c, p)) + Tokens(src, p + |Print(c)|)
    decreases c, 1
  {
    hide Tokens, At, Words, IsWord, IsWordChar, CString, Parens;
    match c
    case Exec(args) => TokensJoin(src, p, args);
    case Redir(d, file, mode) =>
      AtParen(src, p, Print(d), [Sign(mode)] + file);
      TokensPrint(src, p + 1, d);
      RedirTokens(src, p, Print(d), mode, file, Printed(Placed(d, p + 1)));
    case Pipe(l, r) => PairPrint(src, p, c, l, '|', r);
    case List(l, r) => PairPrint(src, p, c, l, ';', r);
    case Back(d) =>
      AtParen(src, p, Print(d), "&");
      TokensPrint(src, p + 1, d);
      BackTokens(src, p, Print(d), Printed(Placed(d, p + 1)));
  }

  lemma {:induction false} PairPrint(src: string, p: nat, c: Cmd<string>, l: Cmd<string>, sign: char, r: Cmd<string>)
    requires CString(src) && (c == Pipe(l, r) || c == List(l, r)) && Printable(l) && Printable(r) && IsSymbol(sign) &&
      sign != '>'
    requires At(src, p, "(" + (Print(l) + ([')', sign, '('] + (Print(r) + ")"))))
    ensures p + 5 + |Print(l)| + |Print(r)| <= |src|
    ensures Tokens(src, p) ==
      Parens(Printed(Placed(l, p + 1))) + [Sym(sign)] + Parens(Printed(Placed(r, p + 4 + |Print(l)|)))
      + Tokens(src, p + 5 + |Print(l)| + |Print(r)|)
    decreases c, 0
  {
    hide Tokens, At, IsWordChar, CString, Parens, Print, Printed, Placed, Printable, IsSymbol;
    AtTwo(src, p, Print(l), sign, Print(r));
    TokensPrint(src, p + 1, l);
    TokensPrint(src, p + 4 + |Print(l)|, r);
    TwoTokens(src, p, Print(l), sign, Print(r), Printed(Placed(l, p + 1)), Printed(Placed(r, p + 4 + |Print(l)|)));
  }

  lemma RedirTokens(src: string, p: nat, a: string, mode: Mode, file: string, ts: seq<Token<Span>>)
    requires CString(src) && IsWord(file) && At(src, p, "(") && At(src, p + 1 + |a|, ")") &&
      At(src, p + 2 + |a|, [Sign(mode)] + file)
    requires p + 3 + |a| + |file| <= |src| && Boundary(src, p + 3 + |a| + |file|)
    requires Tokens(src, p + 1) == ts + Tokens(src, p + 1 + |a|)
    ensures var q := p + 3 + |a|;
      Tokens(src, p) == Parens(ts) + [Sym(Sign(mode)), Word(Span(q, q + |file|))] + Tokens(src, q + |file|)
  {
    hide Tokens, CString, At, IsWord, IsWordChar;
    TokensParen(src, p, a, ts);
    AtSplit(src, p + 2 + |a|, [Sign(mode)], file);
    FileNext(src, p + 3 + |a|, file);
    TokensSym(src, p + 2 + |a|, Sign(mode));
    TokensWord(src, p + 3 + |a|, file);
    ThenTwo(Parens(ts), Sym(Sign(mode)), Word(Span(p + 3 + |a|, p + 3 + |a| + |file|)),
        Tokens(src, p + 3 + |a| + |file|));
  }

  lemma BackTokens(src: string, p: nat, a: string, ts: seq<Token<Span>>)
    requires CString(src) && At(src, p, "(") && At(src, p + 1 + |a|, ")") && At(src, p + 2 + |a|, "&")
    requires p + 3 + |a| <= |src| && Tokens(src, p + 1) == ts + Tokens(src, p + 1 + |a|)
    ensures Tokens(src, p) == Parens(ts) + [Sym('&')] + Tokens(src, p + 3 + |a|)
  {
    hide Tokens, CString, At;
    TokensParen(src, p, a, ts);
    TokensSym(src, p + 2 + |a|, '&');
    var rest := Tokens(src, p + 3 + |a|);
    assert Parens(ts) + ([Sym('&')] + rest) == Parens(ts) + [Sym('&')] + rest;
  }

  /** "(" a ")" b at p: where its parts are. */
  lemma AtParen(src: string, p: nat, a: string, b: string)
    requires At(src, p, "(" + (a + (")" + b)))
    ensures At(src, p, "(") && At(src, p + 1, a) && At(src, p + 1 + |a|, ")") && At(src, p + 2 + |a|, b)
    ensures Boundary(src, p + 1 + |a|)
  {
    hide At, IsWordChar;
    AtSplit(src, p, "(", a + (")" + b));
    AtSplit(src, p + 1, a, ")" + b);
    AtSplit(src, p + 1 + |a|, ")", b);
    AtOne(src, p + 1 + |a|, ')');
    SpaceEnds();
  }

  lemma TokensParen(src: string, p: nat, a: string, ts: seq<Token<Span>>)
    requires CString(src) && At(src, p, "(") && At(src, p + 1 + |a|, ")") && p + 1 + |a| <= |src|
    requires p + 1 <= |src| && Tokens(src, p + 1) == ts + Tokens(src, p + 1 + |a|)
    ensures p + 2 + |a| <= |src| && Tokens(src, p) == Parens(ts) + Tokens(src, p + 2 + |a|)
  {
    hide Tokens, CString;
    TokensSym(src, p, '(');
    TokensSym(src, p + 1 + |a|, ')');
  }

  lemma FileNext(src: string, p: nat, w: string)
    requires At(src, p, w) && IsWord(w)
    ensures p < |src| && src[p] != '>'
  {
    assert src[p] == w[0];
  }

  lemma ThenTwo(a: seq<Token<Span>>, t: Token<Span>, u: Token<Span>, rest: seq<Token<Span>>)
    ensures a + ([t] + ([u] + rest)) == a + [t, u] + rest
  {
  }

  /** "(" a ")" c "(" b ")" at p: where its parts are. */
  lemma AtTwo(src: string, p: nat, a: string, c: char, b: string)
    requires At(src, p, "(" + (a + ([')', c, '('] + (b + ")"))))
    ensures At(src, p, "(") && At(src, p + 1, a) && At(src, p + 1 + |a|, ")") && At(src, p + 2 + |a|, [c]) &&
      At(src, p + 3 + |a|, "(")
    ensures At(src, p + 4 + |a|, b) && At(src, p + 4 + |a| + |b|, ")") && p + 5 + |a| + |b| <= |src|
    ensures Boundary(src, p + 1 + |a|) && Boundary(src, p + 4 + |a| + |b|)
  {
    hide IsWordChar;
    assert "(" + (a + ([')', c, '('] + (b + ")"))) == "(" + (a + (")" + ([c] + ("(" + (b + (")" + ""))))));
    AtParen(src, p, a, [c] + ("(" + (b + (")" + ""))));
    AtSplit(src, p + 2 + |a|, [c], "(" + (b + (")" + "")));
    AtParen(src, p + 3 + |a|, b, "");
  }

  lemma TwoTokens(src: string, p: nat, a: string, c: char, b: string, ts: seq<Token<Span>>, us: seq<Token<Span>>)
    requires CString(src) && p + 5 + |a| + |b| <= |src| && IsSymbol(c) && c != '>'
    requires At(src, p, "(") && At(src, p + 1 + |a|, ")") && At(src, p + 2 + |a|, [c]) && At(src, p + 3 + |a|, "(") &&
      At(src, p + 4 + |a| + |b|, ")")
    requires Tokens(src, p + 1) == ts + Tokens(src, p + 1 + |a|)
    requires Tokens(src, p + 4 + |a|) == us + Tokens(src, p + 4 + |a| + |b|)
    ensures Tokens(src, p) == Parens(ts) + [Sym(c)] + Parens(us) + Tokens(src, p + 5 + |a| + |b|)
  {
    hide Tokens, CString, At;
    TokensParen(src, p, a, ts);
    TokensSym(src, p + 2 + |a|, c);
    TokensParen(src, p + 3 + |a|, b, us);
    var rest := Tokens(src, p + 5 + |a| + |b|);
    assert Parens(ts) + ([Sym(c)] + (Parens(us) + rest)) == Parens(ts) + [Sym(c)] + Parens(us) + rest;
  }

  lemma {:induction false} TextJoin(src: string, p: nat, args: seq<string>)
    requires At(src, p, Join(args))
    ensures |JoinSpans(args, p)| == |args| &&
      forall i :: 0 <= i < |args| ==> Slice(src, JoinSpans(args, p)[i]) == args[i]
    decreases |args|
  {
    hide At;
    if |args| == 1 {
      AtSlice(src, p, args[0]);
    } else if |args| > 1 {
      AtSplit(src, p, args[0] + " ", Join(args[1..]));
      AtSplit(src, p, args[0], " ");
      AtSlice(src, p, args[0]);
      TextJoin(src, p + |args[0]| + 1, args[1..]);
    }
  }

  lemma ExecPlaced(src: string, p: nat, args: seq<string>)
    requires At(src, p, Join(args))
    ensures Text(src, Exec(JoinSpans(args, p))) == Exec(args) && |JoinSpans(args, p)| == |args|
  {
    hide At, Join, JoinSpans, Slice;
    TextJoin(src, p, args);
    assert Text(src, Exec(JoinSpans(args, p))).args == args;
  }

  /** The places hold the words. */
  lemma {:induction false} TextPlaced(src: string, p: nat, c: Cmd<string>)
    requires At(src, p, Print(c))
    ensures Text(src, Placed(c, p)) == c && (Short(Placed(c, p)) <==> Short(c))
    decreases c
  {
    hide At, IsWordChar, Slice, JoinSpans, Join, Boundary;
    match c
    case Exec(args) => ExecPlaced(src, p, args);
    case Redir(d, file, mode) =>
      AtParen(src, p, Print(d), [Sign(mode)] + file);
      AtSplit(src, p + 2 + |Print(d)|, [Sign(mode)], file);
      AtSlice(src, p + 3 + |Print(d)|, file);
      TextPlaced(src, p + 1, d);
    case Pipe(l, r) =>
      AtTwo(src, p, Print(l), '|', Print(r));
      TextPlaced(src, p + 1, l);
      TextPlaced(src, p + 4 + |Print(l)|, r);
    case List(l, r) =>
      AtTwo(src, p, Print(l), ';', Print(r));
      TextPlaced(src, p + 1, l);
      TextPlaced(src, p + 4 + |Print(l)|, r);
    case Back(d) =>
      AtParen(src, p, Print(d), "&");
      TextPlaced(src, p + 1, d);
  }

  lemma AtSlice(src: string, p: nat, w: string)
    requires At(src, p, w)
    ensures Slice(src, Span(p, p + |w|)) == w
  {
  }

  lemma {:induction false} JoinCString(args: seq<string>)
    requires forall i :: 0 <= i < |args| ==> IsWord(args[i])
    ensures CString(Join(args))
    decreases |args|
  {
    if |args| > 1 { JoinCString(args[1..]); }
    if |args| > 0 { assert IsWord(args[0]); }
  }

  lemma {:induction false} PrintCString(c: Cmd<string>)
    requires Printable(c)
    ensures CString(Print(c))
    decreases c
  {
    match c
    case Exec(args) => JoinCString(args);
    case Redir(d, file, mode) => PrintCString(d);
    case Pipe(l, r) => PrintCString(l); PrintCString(r);
    case List(l, r) => PrintCString(l); PrintCString(r);
    case Back(d) => PrintCString(d);
  }

  /** The shell reads back every command it could have printed, exactly when no command in it has more than
      nine arguments. */
  lemma ParsePrint(c: Cmd<string>)
    requires Printable(c)
    ensures CString(Print(c))
    ensures Command(Tokens(Print(c), 0)) == if Short(c) then Ok(Placed(c, 0), []) else Fail(TooManyArgs)
    ensures Text(Print(c), Placed(c, 0)) == c
  {
    hide Line, IsWordChar, Printable;
    var src := Print(c);
    PrintCString(c);
    TokensPrint(src, 0, c);
    TextPlaced(src, 0, c);
    NothingLeft(src);
    RoundTrip(Placed(c, 0), []);
    assert Printed(Placed(c, 0)) + [] == Printed(Placed(c, 0));
  }

  lemma NothingLeft(src: string)
    requires CString(src)
    ensures Tokens(src, |src|) == []
  {
  }

  // ---- any line ----

  /** The span is a word of the line, and no character of the word follows it. */
  ghost predicate WordSpan(src: string, s: Span) {
    s.q < s.eq <= |src| && (forall i :: s.q <= i < s.eq ==> IsWordChar(src[i])) && Boundary(src, s.eq)
  }

  ghost predicate WordsIn(src: string, c: Cmd<Span>) {
    match c
    case Exec(args) => forall i :: 0 <= i < |args| ==> WordSpan(src, args[i])
    case Redir(d, file, mode) => WordsIn(src, d) && WordSpan(src, file)
    case Pipe(l, r) => WordsIn(src, l) && WordsIn(src, r)
    case List(l, r) => WordsIn(src, l) && WordsIn(src, r)
    case Back(d) => WordsIn(src, d)
  }

  /** What a parse of the line gives: short commands made of words of the line. */
  ghost predicate Fine(src: string, c: Cmd<Span>) { Short(c) && WordsIn(src, c) }

  ghost predicate WordTokens(src: string, ts: seq<Token<Span>>) {
    forall i :: 0 <= i < |ts| && ts[i].Word? ==> WordSpan(src, ts[i].w)
  }

  ghost predicate FineRedirs(src: string, rs: seq<Redirection<Span>>) {
    forall i :: 0 <= i < |rs| ==> WordSpan(src, rs[i].file)
  }

  lemma {:induction false} TokensAreWords(src: string, p: nat)
    requires CString(src) && p <= |src|
    ensures WordTokens(src, Tokens(src, p))
    decreases |src| - p
  {
    hide IsWordChar, IsSpace, IsSymbol;
    var s := SkipSpace(src, p);
    if s < |src| {
      var (t, e) := TokenAt(src, s);
      TokensAreWords(src, e);
      TokenIsWord(src, s);
      assert Tokens(src, p) == [t] + Tokens(src, e);
    }
  }

  lemma TokenIsWord(src: string, s: nat)
    requires s < |src| && !IsSpace(src[s]) && src[s] != '\0'
    ensures TokenAt(src, s).0.Word? ==> WordSpan(src, TokenAt(src, s).0.w)
  {
  }

  // ---- no character is lost ----

  /** What the tokens look like in the line. */
  function Spelled(src: string, ts: seq<Token<Span>>): string {
    if ts == [] then ""
    else (match ts[0] case Word(s) => Slice(src, s) case Sym(c) => if c == '+' then ">>" else [c]) +
         Spelled(src, ts[1..])
  }

  /** The characters that are not white space. */
  function Dense(s: string): string {
    if s == "" then "" else (if IsSpace(s[0]) then "" else [s[0]]) + Dense(s[1..])
  }

  lemma {:induction false} DenseSkip(src: string, p: nat)
    requires p <= |src|
    ensures Dense(src[p..]) == Dense(src[SkipSpace(src, p)..])
    decreases |src| - p
  {
    hide IsSpace;
    if p < |src| && IsSpace(src[p]) {
      DenseSkip(src, p + 1);
      assert src[p..][1..] == src[p + 1..];
    }
  }

  lemma {:induction false} DenseRun(src: string, p: nat, e: nat)
    requires p <= e <= |src| && forall i :: p <= i < e ==> !IsSpace(src[i])
    ensures Dense(src[p..]) == src[p..e] + Dense(src[e..])
    decreases e - p
  {
    hide IsSpace;
    if p < e {
      DenseRun(src, p + 1, e);
      assert src[p..][1..] == src[p + 1..] && src[p..e] == [src[p]] + src[p + 1..e];
    }
  }

  lemma TokenSpelled(src: string, p: nat)
    requires p < |src| && !IsSpace(src[p]) && src[p] != '\0'
    ensures var (t, e) := TokenAt(src, p);
      && (forall i :: p <= i < e ==> !IsSpace(src[i]))
      && src[p..e] == match t case Word(s) => Slice(src, s) case Sym(c) => if c == '+' then ">>" else [c]
  {
  }

  /** The tokens spell the line: every character is in one of them, in order, but for the white space. */
  lemma {:induction false} Spelling(src: string, p: nat)
    requires CString(src) && p <= |src|
    ensures Spelled(src, Tokens(src, p)) == Dense(src[p..])
    decreases |src| - p
  {
    hide TokenAt, SkipSpace, IsSpace;
    var s := SkipSpace(src, p);
    DenseSkip(src, p);
    if s < |src| {
      var e := TokenAt(src, s).1;
      TokenSpelled(src, s);
      DenseRun(src, s, e);
      Spelling(src, e);
      assert Tokens(src, p)[1..] == Tokens(src, e);
    }
  }

  /** Two > signs together are one token. */
  lemma TokensAppend(src: string, p: nat)
    requires CString(src) && At(src, p, ">>")
    ensures Tokens(src, p) == [Sym('+')] + Tokens(src, p + 2)
  {
    assert src[p] == ">>"[0] && src[p + 1] == ">>"[1] by {
      assert src[p..p + 2][0] == src[p] && src[p..p + 2][1] == src[p + 1];
    }
    assert SkipSpace(src, p) == p;
  }

  lemma {:induction false} RedirsFine(src: string, ts: seq<Token<Span>>)
    requires WordTokens(src, ts) && Redirs(ts).Ok?
    ensures FineRedirs(src, Redirs(ts).value) && WordTokens(src, Redirs(ts).rest)
    decreases |ts|
  {
    hide WordSpan;
    if Next(ts, "<>+") {
      RedirsFine(src, ts[2..]);
      assert WordSpan(src, ts[1].w);
    }
  }

  lemma {:induction false} WrapFine(src: string, c: Cmd<Span>, rs: seq<Redirection<Span>>)
    requires Fine(src, c) && FineRedirs(src, rs)
    ensures Fine(src, Wrap(c, rs))
    decreases |rs|
  {
    if rs != [] { WrapFine(src, Redir(c, rs[0].file, rs[0].mode), rs[1..]); }
  }

  lemma {:induction false} ArgsFine(src: string, ts: seq<Token<Span>>, args: seq<Span>, rs: seq<Redirection<Span>>)
    requires WordTokens(src, ts) && Fine(src, Exec(args)) && FineRedirs(src, rs) && Args(ts, args, rs).Ok?
    ensures Fine(src, Args(ts, args, rs).value) && WordTokens(src, Args(ts, args, rs).rest)
    decreases |ts|
  {
    hide WordSpan;
    if ts == [] || Next(ts, "|)&;") {
      WrapFine(src, Exec(args), rs);
    } else {
      RedirsFine(src, ts[1..]);
      assert WordSpan(src, ts[0].w);
      ArgsFine(src, Redirs(ts[1..]).rest, args + [ts[0].w], rs + Redirs(ts[1..]).value);
    }
  }

  lemma {:induction false} BacksFine(src: string, c: Cmd<Span>, ts: seq<Token<Span>>)
    requires Fine(src, c) && WordTokens(src, ts)
    ensures Fine(src, Backs(c, ts).0) && WordTokens(src, Backs(c, ts).1)
    decreases |ts|
  {
    hide WordSpan;
    if Next(ts, "&") { BacksFine(src, Back(c), ts[1..]); }
  }

  lemma {:induction false} BlockFine(src: string, ts: seq<Token<Span>>)
    requires WordTokens(src, ts) && Next(ts, "(") && Block(ts).Ok?
    ensures Fine(src, Block(ts).value) && WordTokens(src, Block(ts).rest)
    decreases |ts|, 0
  {
    hide WordSpan, Fine;
    LineFine(src, ts[1..]);
    var r := Line(ts[1..]);
    RedirsFine(src, r.rest[1..]);
    WrapFine(src, r.value, Redirs(r.rest[1..]).value);
  }

  lemma {:induction false} SimpleFine(src: string, ts: seq<Token<Span>>)
    requires WordTokens(src, ts) && Simple(ts).Ok?
    ensures Fine(src, Simple(ts).value) && WordTokens(src, Simple(ts).rest)
    decreases |ts|, 1
  {
    if Next(ts, "(") {
      BlockFine(src, ts);
    } else {
      RedirsFine(src, ts);
      ArgsFine(src, Redirs(ts).rest, [], Redirs(ts).value);
    }
  }

  lemma {:induction false} PipelineFine(src: string, ts: seq<Token<Span>>)
    requires WordTokens(src, ts) && Pipeline(ts).Ok?
    ensures Fine(src, Pipeline(ts).value) && WordTokens(src, Pipeline(ts).rest)
    decreases |ts|, 2
  {
    hide WordSpan;
    SimpleFine(src, ts);
    var rest := Simple(ts).rest;
    if Next(rest, "|") { PipelineFine(src, rest[1..]); }
  }

  lemma {:induction false} LineFine(src: string, ts: seq<Token<Span>>)
    requires WordTokens(src, ts) && Line(ts).Ok?
    ensures Fine(src, Line(ts).value) && WordTokens(src, Line(ts).rest)
    decreases |ts|, 3
  {
    hide WordSpan;
    PipelineFine(src, ts);
    var r := Pipeline(ts);
    BacksFine(src, r.value, r.rest);
    var (c, rest) := Backs(r.value, r.rest);
    if Next(rest, ";") { LineFine(src, rest[1..]); }
  }

  lemma {:induction false} TextPrintable(src: string, c: Cmd<Span>)
    requires WordsIn(src, c)
    ensures Printable(Text(src, c)) && (Short(Text(src, c)) <==> Short(c))
    decreases c
  {
    match c
    case Exec(args) =>
      forall i | 0 <= i < |args| ensures IsWord(Slice(src, args[i])) {
        assert WordSpan(src, args[i]);
      }
    case Redir(d, file, mode) => TextPrintable(src, d);
    case Pipe(l, r) => TextPrintable(src, l); TextPrintable(src, r);
    case List(l, r) => TextPrintable(src, l); TextPrintable(src, r);
    case Back(d) => TextPrintable(src, d);
  }

  /** Whatever line the shell accepts, printing what it read and reading that again gives the same command. */
  lemma Reparse(src: string)
    requires CString(src) && Command(Tokens(src, 0)).Ok?
    ensures var c := Text(src, Command(Tokens(src, 0)).value);
      && CString(Print(c)) && Command(Tokens(Print(c), 0)).Ok?
      && Text(Print(c), Command(Tokens(Print(c), 0)).value) == c
  {
    hide Line, WordTokens, Printable;
    var ts := Tokens(src, 0);
    TokensAreWords(src, 0);
    LineFine(src, ts);
    TextPrintable(src, Line(ts).value);
    ParsePrint(Text(src, Line(ts).value));
  }
}
