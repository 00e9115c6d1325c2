/** The small regular-expression matcher of the C test harness, against a declarative meaning
    of its patterns. Texts and patterns are contents of C strings, without the final NUL. */
module RegexMatcher {

  // ---------------------------------------------------------------- the meaning of patterns

  datatype Atom = Literal(c: char) | AnyChar

  datatype Item = Single(a: Atom) | Star(a: Atom)

  /** A sequence of items, and whether a match must reach the end of the text. */
  datatype Pattern = Pattern(items: seq<Item>, atEnd: bool)

  function AtomOf(c: char): (r: Atom) { if c == '.' then AnyChar else Literal(c) }

  predicate Accepts(a: Atom, c: char) { a == AnyChar || a == Literal(c) }

  /** How a pattern is read: a star makes a closure of the character before it, whichever
      character that is; a dollar sign is special only as the last character. */
  function Parse(re: string): (r: Pattern)
    decreases |re|
  {
    if re == "" then Pattern([], false)
    else if |re| >= 2 && re[1] == '*' then
      var p := Parse(re[2..]);
      p.(items := [Star(AtomOf(re[0]))] + p.items)
    else if re == "$" then Pattern([], true)
    else
      var p := Parse(re[1..]);
      p.(items := [Single(AtomOf(re[0]))] + p.items)
  }

  /** The texts spelled by a sequence of items. */
  ghost predicate Spells(items: seq<Item>, s: string)
    decreases |items|
  {
    if items == [] then s == ""
    else
      match items[0]
      case Single(a) => s != "" && Accepts(a, s[0]) && Spells(items[1..], s[1..])
      case Star(a) => exists k :: 0 <= k <= |s| && AllAccepted(a, s, k) && Spells(items[1..], s[k..])
  }

  predicate AllAccepted(a: Atom, s: string, k: nat)
    requires k <= |s|
  {
    forall j :: 0 <= j < k ==> Accepts(a, s[j])
  }

  /** Some prefix of the text is spelled by the pattern, all of the text if it must be. */
  ghost predicate MatchesAtStart(re: string, text: string) {
    exists n :: 0 <= n <= |text| && Spells(Parse(re).items, text[..n]) && (Parse(re).atEnd ==> n == |text|)
  }

  /** A match starts somewhere in the text, at its start under a leading caret. */
  ghost predicate Matches(re: string, text: string) {
    if re != "" && re[0] == '^' then MatchesAtStart(re[1..], text)
    else exists i :: 0 <= i <= |text| && MatchesAtStart(re, text[i..])
  }

  // ---------------------------------------------------------------- unfolding the meaning

  lemma EmptyPattern(text: string)
    ensures MatchesAtStart("", text)
  {
    assert Spells([], text[..0]);
  }

  lemma DollarPattern(text: string)
    ensures MatchesAtStart("$", text) <==> text == ""
  {
    if text == "" { assert Spells([], text[..0]); }
  }

  lemma SinglePattern(re: string, text: string)
    requires re != "" && re != "$" && !(|re| >= 2 && re[1] == '*')
    ensures MatchesAtStart(re, text) <==>
            text != "" && Accepts(AtomOf(re[0]), text[0]) && MatchesAtStart(re[1..], text[1..])
  {
    var p, q := Parse(re), Parse(re[1..]);
    assert p.items[1..] == q.items;
    if MatchesAtStart(re, text) {
      var n :| 0 <= n <= |text| && Spells(p.items, text[..n]) && (p.atEnd ==> n == |text|);
      assert text[..n][1..] == text[1..][..n - 1];
    }
    if text != "" && Accepts(AtomOf(re[0]), text[0]) && MatchesAtStart(re[1..], text[1..]) {
      var n :| 0 <= n <= |text[1..]| && Spells(q.items, text[1..][..n]) && (q.atEnd ==> n == |text[1..]|);
      assert text[..n + 1][1..] == text[1..][..n];
      assert Spells(p.items, text[..n + 1]);
    }
  }

  lemma StarPattern(re: string, text: string)
    requires |re| >= 2 && re[1] == '*'
    ensures MatchesAtStart(re, text) <==>
            exists k :: 0 <= k <= |text| && AllAccepted(AtomOf(re[0]), text, k) && MatchesAtStart(re[2..], text[k..])
  {
    var p, q, a := Parse(re), Parse(re[2..]), AtomOf(re[0]);
    assert p.items[1..] == q.items;
    if MatchesAtStart(re, text) {
      var n :| 0 <= n <= |text| && Spells(p.items, text[..n]) && (p.atEnd ==> n == |text|);
      var s := text[..n];
      var k :| 0 <= k <= |s| && AllAccepted(a, s, k) && Spells(q.items, s[k..]);
      assert s[k..] == text[k..][..n - k];
      assert MatchesAtStart(re[2..], text[k..]);
    }
    if k :| 0 <= k <= |text| && AllAccepted(a, text, k) && MatchesAtStart(re[2..], text[k..]) {
      var n :| 0 <= n <= |text[k..]| && Spells(q.items, text[k..][..n]) && (q.atEnd ==> n == |text[k..]|);
      var s := text[..k + n];
      assert s[k..] == text[k..][..n] && AllAccepted(a, s, k);
      assert Spells(p.items, s);
    }
  }

  // ---------------------------------------------------------------- what patterns say

  /** A caret at the very front ties the match to the start of the text; without one it may start
      anywhere. */
  lemma CaretPattern(re: string, text: string)
    ensures Matches("^" + re, text) <==> MatchesAtStart(re, text)
    ensures re == "" || re[0] != '^' ==>
              (Matches(re, text) <==> exists i :: 0 <= i <= |text| && MatchesAtStart(re, text[i..]))
  {
    assert ("^" + re)[1..] == re;
  }

  /** A dot stands for any one character. */
  lemma DotPattern(re: string, text: string)
    requires re == "" || re[0] != '*'
    ensures MatchesAtStart("." + re, text) <==> text != "" && MatchesAtStart(re, text[1..])
  {
    assert ("." + re)[0] == '.' && (re != "" ==> ("." + re)[1] == re[0]);
    SinglePattern("." + re, text);
    assert ("." + re)[1..] == re;
  }

  /** Any other character stands for itself, a caret that is not in front and a dollar sign that
      is not last included. */
  lemma LiteralPattern(c: char, re: string, text: string)
    requires c != '.' && (re == "" || re[0] != '*') && !(c == '$' && re == "")
    ensures MatchesAtStart([c] + re, text) <==> text != "" && text[0] == c && MatchesAtStart(re, text[1..])
  {
    assert ([c] + re)[0] == c && (re != "" ==> ([c] + re)[1] == re[0]);
    SinglePattern([c] + re, text);
    assert ([c] + re)[1..] == re;
  }

  /** A starred character stands for any run of itself, and a starred dot for any run. */
  lemma RunPattern(c: char, re: string, text: string)
    ensures MatchesAtStart([c, '*'] + re, text) <==>
            exists k :: 0 <= k <= |text| && (forall j :: 0 <= j < k ==> c == '.' || text[j] == c) && MatchesAtStart(re, text[k..])
  {
    StarPattern([c, '*'] + re, text);
    assert ([c, '*'] + re)[2..] == re;
    if k :| 0 <= k <= |text| && AllAccepted(AtomOf(c), text, k) && MatchesAtStart(re, text[k..]) {
      assert forall j :: 0 <= j < k ==> Accepts(AtomOf(c), text[j]);
    }
    if k :| 0 <= k <= |text| && (forall j :: 0 <= j < k ==> c == '.' || text[j] == c) && MatchesAtStart(re, text[k..]) {
      assert AllAccepted(AtomOf(c), text, k);
    }
  }

  predicate IsPlain(re: string) { '.' !in re && '*' !in re && '$' !in re && '^' !in re }

  lemma {:induction false} PlainAtStart(re: string, text: string)
    requires IsPlain(re)
    ensures MatchesAtStart(re, text) <==> re <= text
    ensures MatchesAtStart(re + "$", text) <==> re == text
    decreases |re|
  {
    if re == "" {
      EmptyPattern(text);
      DollarPattern(text);
      assert re + "$" == "$";
    } else {
      var c, t := re[0], re[1..];
      assert re == [c] + t && re + "$" == [c] + (t + "$");
      LiteralPattern(c, t, text);
      LiteralPattern(c, t + "$", text);
      if text != "" {
        PlainAtStart(t, text[1..]);
        assert text == [text[0]] + text[1..];
      }
    }
  }

  /** A pattern without special characters is found exactly where it occurs; between a caret and
      a dollar sign it is found in itself only. */
  lemma PlainPattern(re: string, text: string)
    requires IsPlain(re)
    ensures Matches(re, text) <==> exists i :: 0 <= i <= |text| && re <= text[i..]
    ensures Matches("^" + (re + "$"), text) <==> text == re
  {
    CaretPattern(re, text);
    CaretPattern(re + "$", text);
    PlainAtStart(re, text);
    forall i | 0 <= i <= |text| ensures MatchesAtStart(re, text[i..]) <==> re <= text[i..] { PlainAtStart(re, text[i..]); }
  }

  // ---------------------------------------------------------------- the matcher

  /** `_upb_test_matchhere`. */
  method MatchHere(regexp: string, text: string) returns (r: bool)
    ensures r <==> MatchesAtStart(regexp, text)
    decreases |regexp|, 0
  {
    if regexp == "" {
      EmptyPattern(text);
      return true;
    }
    if |regexp| >= 2 && regexp[1] == '*' {
      StarPattern(regexp, text);
      r := MatchStar(regexp[0], regexp[2..], text);
      return;
    }
    if regexp[0] == '$' && |regexp| == 1 {
      DollarPattern(text);
      return text == "";
    }
    SinglePattern(regexp, text);
    if text != "" && (regexp[0] == '.' || regexp[0] == text[0]) {
      r := MatchHere(regexp[1..], text[1..]);
      return;
    }
    r := false;
  }

  /** `_upb_test_matchstar`: tries the rest of the pattern after every run of accepted
      characters, shortest first. */
  method MatchStar(c: char, regexp: string, text: string) returns (r: bool)
    ensures r <==> exists k :: 0 <= k <= |text| && AllAccepted(AtomOf(c), text, k) && MatchesAtStart(regexp, text[k..])
    decreases |regexp|, 1
  {
    var i := 0;
    while true
      invariant 0 <= i <= |text| && AllAccepted(AtomOf(c), text, i)
      invariant forall k :: 0 <= k < i ==> !MatchesAtStart(regexp, text[k..])
      decreases |text| - i
    {
      var here := MatchHere(regexp, text[i..]);
      if here { return true; }
      if !(i < |text| && (text[i] == c || c == '.')) { break; }
      i := i + 1;
    }
    r := false;
    assert i < |text| ==> !Accepts(AtomOf(c), text[i]);
    assert forall k :: i < k <= |text| ==> !AllAccepted(AtomOf(c), text, k);
  }

  /** `_upb_test_match`. */
  method Match(regexp: string, text: string) returns (r: bool)
    ensures r <==> Matches(regexp, text)
  {
    if regexp != "" && regexp[0] == '^' {
      r := MatchHere(regexp[1..], text);
      return;
    }
    var i := 0;
    while true
      invariant 0 <= i <= |text|
      invariant forall k :: 0 <= k < i ==> !MatchesAtStart(regexp, text[k..])
      decreases |text| - i
    {
      var here := MatchHere(regexp, text[i..]);
      if here { return true; }
      if i == |text| { break; }
      i := i + 1;
    }
    r := false;
  }
}
