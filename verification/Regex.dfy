/** grep's pattern matcher (match, matchhere and matchstar), against a semantics by factorisation: a text
    matches if it can be cut into one word for each item of the pattern. Strings are C strings, so the end
    of a sequence is the terminating NUL. */
module Regex {

  datatype Item = One(c: char) | Star(c: char) | End

  /** The items of a pattern: c* is a repetition, a final $ the end of the text, anything else one character. */
  function Items(re: string): (its: seq<Item>)
    ensures forall i :: 0 <= i < |its| && its[i].End? ==> i == |its| - 1
    decreases |re|
  {
    if re == "" then []
    else if |re| > 1 && re[1] == '*' then [Star(re[0])] + Items(re[2..])
    else if re == "$" then [End]
    else [One(re[0])] + Items(re[1..])
  }

  // ---- the one way to read a pattern ----

  function Written(it: Item): (w: string)
    ensures 1 <= |w| <= 2
  {
    match it
    case One(c) => [c]
    case Star(c) => [c, '*']
    case End => "$"
  }

  function Pattern(its: seq<Item>): string {
    if its == [] then "" else Written(its[0]) + Pattern(its[1..])
  }

  /** A character before a star repeats, and a $ at the end is the end. */
  ghost predicate Proper(its: seq<Item>) {
    && (forall i :: 0 <= i < |its| - 1 && its[i].One? ==> Written(its[i + 1])[0] != '*')
    && (forall i :: 0 <= i < |its| && its[i].End? ==> i == |its| - 1)
    && (its != [] ==> its[|its| - 1] != One('$'))
  }

  lemma {:induction false} ItemsWritten(re: string)
    ensures Pattern(Items(re)) == re && Proper(Items(re))
    decreases |re|
  {
    if re != "" {
      var two := |re| > 1 && re[1] == '*';
      var its := Items(re);
      if !two && re == "$" {
        assert its[1..] == [];
      } else {
        var rest := if two then re[2..] else re[1..];
        ItemsWritten(rest);
        assert its[1..] == Items(rest);
        assert re == (if two then [re[0], '*'] else [re[0]]) + rest;
        ProperFirst(its);
      }
    }
  }

  lemma ProperFirst(its: seq<Item>)
    requires its != []
    ensures Proper(its) <==>
      if |its| == 1 then its[0] != One('$')
      else !its[0].End? && (its[0].One? ==> Written(its[1])[0] != '*') && Proper(its[1..])
  {
    if |its| > 1 {
      var rest := its[1..];
      forall i | 0 <= i < |rest| ensures rest[i] == its[i + 1] {
      }
      if Proper(rest) {
        forall i | 1 <= i < |its| - 1 && its[i].One? ensures Written(its[i + 1])[0] != '*' {
          assert rest[i - 1].One? && rest[i - 1 + 1] == its[i + 1];
        }
        forall i | 1 <= i < |its| && its[i].End? ensures i == |its| - 1 {
          assert rest[i - 1].End?;
        }
      }
    }
  }

  lemma {:induction false} PatternRead(its: seq<Item>)
    requires Proper(its)
    ensures Items(Pattern(its)) == its
    decreases |its|
  {
    if its != [] {
      var it, rest := its[0], its[1..];
      ProperFirst(its);
      var w := Pattern(rest);
      if |its| == 1 {
        assert rest == [] && w == "";
      } else {
        PatternRead(rest);
        assert w[0] == Written(rest[0])[0];
      }
      assert Items(Pattern(its)) == [it] + Items(w) by {
        var re := Pattern(its);
        assert re == Written(it) + w;
        assert it.One? ==> re[1..] == w;
        assert it.Star? ==> re[2..] == w;
      }
      assert its == [it] + rest;
    }
  }

  /** A pattern is read as the items that are written so and proper, and there are no others. */
  lemma ItemsExactly(re: string, its: seq<Item>)
    ensures its == Items(re) <==> Pattern(its) == re && Proper(its)
  {
    hide Pattern, Items, Proper;
    ItemsWritten(re);
    if Proper(its) { PatternRead(its); }
  }

  predicate Accepts(c: char, d: char) { c == '.' || d == c }

  predicate Fits(it: Item, w: string) {
    match it
    case One(c) => |w| == 1 && Accepts(c, w[0])
    case Star(c) => forall i :: 0 <= i < |w| ==> Accepts(c, w[i])
    case End => w == ""
  }

  function Concat(ws: seq<string>): string {
    if ws == [] then "" else ws[0] + Concat(ws[1..])
  }

  ghost predicate EndsWithEnd(its: seq<Item>) { its != [] && its[|its| - 1].End? }

  /** The words ws show that the items match at the beginning of text. */
  ghost predicate Shows(its: seq<Item>, ws: seq<string>, text: string) {
    && |ws| == |its| && (forall i :: 0 <= i < |its| ==> Fits(its[i], ws[i]))
    && Concat(ws) <= text && (EndsWithEnd(its) ==> Concat(ws) == text)
  }

  ghost predicate MatchesHere(its: seq<Item>, text: string) { exists ws :: Shows(its, ws, text) }

  /** What match is for: some suffix of the text, or all of it under a leading ^. */
  ghost predicate Matches(re: string, text: string) {
    if re != "" && re[0] == '^' then MatchesHere(Items(re[1..]), text)
    else exists k :: 0 <= k <= |text| && MatchesHere(Items(re), text[k..])
  }

  lemma HereNone(text: string)
    ensures MatchesHere([], text)
  {
    assert Shows([], [], text);
  }

  lemma HereEnd(text: string)
    ensures MatchesHere([End], text) <==> text == ""
  {
    if text == "" {
      assert Concat([""]) == "";
      assert Shows([End], [""], text);
    }
    forall ws | Shows([End], ws, text) ensures text == "" {
      assert ws == [ws[0]] && Fits(End, ws[0]);
      assert Concat(ws) == ws[0] + Concat(ws[1..]);
    }
  }

  /** A first word of length j, and the rest of the items on the rest of the text. */
  lemma HereFirst(it: Item, its: seq<Item>, text: string, j: nat)
    requires j <= |text| && Fits(it, text[..j]) && MatchesHere(its, text[j..]) && !it.End?
    ensures MatchesHere([it] + its, text)
  {
    var ws :| Shows(its, ws, text[j..]);
    var vs := [text[..j]] + ws;
    assert vs[1..] == ws;
    assert text[..j] + text[j..] == text;
    assert Shows([it] + its, vs, text);
  }

  lemma HereSplit(it: Item, its: seq<Item>, text: string) returns (j: nat)
    requires MatchesHere([it] + its, text) && !it.End?
    ensures j <= |text| && Fits(it, text[..j]) && MatchesHere(its, text[j..])
  {
    var ws :| Shows([it] + its, ws, text);
    j := |ws[0]|;
    assert Concat(ws) == ws[0] + Concat(ws[1..]);
    assert Fits(([it] + its)[0], ws[0]);
    assert text[..j] == Concat(ws)[..j] == ws[0];
    assert Shows(its, ws[1..], text[j..]) by {
      forall i | 0 <= i < |its| ensures Fits(its[i], ws[1..][i]) {
        assert Fits(([it] + its)[i + 1], ws[i + 1]);
      }
      assert Concat(ws[1..]) == Concat(ws)[j..];
    }
  }

  lemma HereOne(c: char, its: seq<Item>, text: string)
    ensures MatchesHere([One(c)] + its, text) <==> text != "" && Accepts(c, text[0]) && MatchesHere(its, text[1..])
  {
    if text != "" && Accepts(c, text[0]) && MatchesHere(its, text[1..]) {
      HereFirst(One(c), its, text, 1);
    }
    if MatchesHere([One(c)] + its, text) {
      var j := HereSplit(One(c), its, text);
    }
  }

  /** The first j characters of text may all be c. */
  predicate Run(c: char, text: string, j: nat)
    requires j <= |text|
  {
    forall i :: 0 <= i < j ==> Accepts(c, text[i])
  }

  lemma HereStar(c: char, its: seq<Item>, text: string)
    ensures MatchesHere([Star(c)] + its, text) <==> exists j: nat ::
      j <= |text| && Run(c, text, j) && MatchesHere(its, text[j..])
  {
    forall j: nat | j <= |text| && Run(c, text, j) && MatchesHere(its, text[j..])
      ensures MatchesHere([Star(c)] + its, text)
    {
      HereFirst(Star(c), its, text, j);
    }
    if MatchesHere([Star(c)] + its, text) {
      var j := HereSplit(Star(c), its, text);
      assert Run(c, text, j) by {
        forall i | 0 <= i < j ensures Accepts(c, text[i]) {
          assert text[i] == text[..j][i];
        }
      }
    }
  }

  /** match */
  method Match(re: string, text: string) returns (b: bool)
    ensures b <==> Matches(re, text)
  {
    if re != "" && re[0] == '^' {
      b := MatchHere(re[1..], text);
      return;
    }
    var i := 0;
    b := MatchHere(re, text);
    while !b && i < |text|
      invariant 0 <= i <= |text|
      invariant !b ==> forall k :: 0 <= k <= i ==> !MatchesHere(Items(re), text[k..])
      invariant b ==> MatchesHere(Items(re), text[i..])
    {
      i := i + 1;
      b := MatchHere(re, text[i..]);
    }
  }

  /** matchhere */
  method MatchHere(re: string, text: string) returns (b: bool)
    ensures b <==> MatchesHere(Items(re), text)
    decreases |re|, 0
  {
    hide MatchesHere;
    if re == "" {
      HereNone(text);
      return true;
    }
    if |re| > 1 && re[1] == '*' {
      b := MatchStar(re[0], re[2..], text);
      return;
    }
    if re[0] == '$' && |re| == 1 {
      HereEnd(text);
      return text == "";
    }
    HereOne(re[0], Items(re[1..]), text);
    if text != "" && (re[0] == '.' || re[0] == text[0]) {
      b := MatchHere(re[1..], text[1..]);
      return;
    }
    b := false;
  }

  /** matchstar */
  method MatchStar(c: char, re: string, text: string) returns (b: bool)
    ensures b <==> MatchesHere([Star(c)] + Items(re), text)
    decreases |re|, 1
  {
    hide MatchesHere;
    HereStar(c, Items(re), text);
    var i := 0;
    b := MatchHere(re, text);
    while !b && i < |text| && (text[i] == c || c == '.')
      invariant 0 <= i <= |text| && Run(c, text, i)
      invariant !b ==> forall j: nat :: j <= i ==> !MatchesHere(Items(re), text[j..])
      invariant b ==> MatchesHere(Items(re), text[i..])
    {
      i := i + 1;
      b := MatchHere(re, text[i..]);
    }
  }
}
