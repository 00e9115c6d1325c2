/** Perl class names (`A::B`) and protobuf full names (`A.B`), translated into each other by
    loops with a fast path that copies 32 or 16 characters at a time. A name is the content
    of a C string, up to the terminating NUL. */
module NameTranslation {
  import opened Strings

  // ---------------------------------------------------------------- specification

  /** Every pair of colons, taken from the left, becomes a dot. */
  function ClassToFull(s: string): (r: string)
    ensures |r| <= |s|
    decreases |s|
  {
    if s == "" then ""
    else if |s| >= 2 && s[0] == ':' && s[1] == ':' then "." + ClassToFull(s[2..])
    else [s[0]] + ClassToFull(s[1..])
  }

  /** Every dot becomes a pair of colons. */
  function FullToClass(s: string): (r: string) {
    if s == "" then ""
    else (if s[0] == '.' then "::" else [s[0]]) + FullToClass(s[1..])
  }

  function Dots(s: string): (r: nat) {
    if s == "" then 0 else Dots(s[..|s| - 1]) + (if s[|s| - 1] == '.' then 1 else 0)
  }

  /** What a chunk must be to be copied whole. */
  predicate Plain(s: string) { forall i :: 0 <= i < |s| ==> s[i] != '.' && s[i] != ':' }

  /** Some colon has a colon or a dot right after it. */
  predicate Ambiguous(s: string) {
    exists i :: 0 <= i < |s| - 1 && s[i] == ':' && (s[i + 1] == ':' || s[i + 1] == '.')
  }

  // ---------------------------------------------------------------- the translations undo each other

  lemma AmbiguousTail(s: string)
    requires s != ""
    ensures Ambiguous(s) <==> Ambiguous(s[1..]) || (|s| >= 2 && s[0] == ':' && (s[1] == ':' || s[1] == '.'))
  {
    var t := s[1..];
    if Ambiguous(s) {
      var i :| 0 <= i < |s| - 1 && s[i] == ':' && (s[i + 1] == ':' || s[i + 1] == '.');
      if i > 0 { assert t[i - 1] == s[i] && t[i - 1 + 1] == s[i + 1]; }
    }
    if Ambiguous(t) {
      var i :| 0 <= i < |t| - 1 && t[i] == ':' && (t[i + 1] == ':' || t[i + 1] == '.');
      assert s[i + 1] == ':' && s[i + 1 + 1] == t[i + 1];
    }
    if |s| >= 2 && s[0] == ':' && (s[1] == ':' || s[1] == '.') { assert s[0 + 1] == s[1]; }
  }

  /** A full name comes back exactly when no colon in it is followed by a colon or a dot; in
      particular every name without a colon comes back. */
  lemma {:induction false} FullNameComesBack(s: string)
    ensures ClassToFull(FullToClass(s)) == s <==> !Ambiguous(s)
    decreases |s|
  {
    if s == "" {
    } else {
      var t := s[1..];
      FullNameComesBack(t);
      AmbiguousTail(s);
      assert s == [s[0]] + t;
      var c := FullToClass(s);
      if s[0] == '.' {
        assert c[2..] == FullToClass(t);
      } else {
        assert c[1..] == FullToClass(t);
        if t != "" { assert c[1] == if t[0] == '.' then ':' else t[0]; }
      }
    }
  }

  lemma {:induction false} NoDotInClass(s: string)
    ensures '.' !in FullToClass(s)
  {
    if s == "" {
    } else {
      NoDotInClass(s[1..]);
    }
  }

  lemma {:induction false} ClassNameReturns(s: string)
    requires '.' !in s
    ensures FullToClass(ClassToFull(s)) == s
    decreases |s|
  {
    if s == "" {
    } else {
      var c := ClassToFull(s);
      if |s| >= 2 && s[0] == ':' && s[1] == ':' {
        ClassNameReturns(s[2..]);
        assert c[1..] == ClassToFull(s[2..]);
        assert s == "::" + s[2..];
      } else {
        ClassNameReturns(s[1..]);
        assert c[1..] == ClassToFull(s[1..]);
        assert s == [s[0]] + s[1..];
      }
    }
  }

  /** A class name comes back exactly when it has no dot, however its colons run. */
  lemma ClassNameComesBack(s: string)
    ensures FullToClass(ClassToFull(s)) == s <==> '.' !in s
  {
    NoDotInClass(ClassToFull(s));
    if '.' !in s { ClassNameReturns(s); }
  }

  /** Two colons in a row. */
  predicate HasPair(s: string) {
    exists i :: 0 <= i < |s| - 1 && s[i] == ':' && s[i + 1] == ':'
  }

  lemma PairTail(s: string)
    requires s != ""
    ensures HasPair(s) <==> HasPair(s[1..]) || (|s| >= 2 && s[0] == ':' && s[1] == ':')
  {
    var t := s[1..];
    if HasPair(s) {
      var i :| 0 <= i < |s| - 1 && s[i] == ':' && s[i + 1] == ':';
      if i > 0 { assert t[i - 1] == s[i] && t[i - 1 + 1] == s[i + 1]; }
    }
    if HasPair(t) {
      var i :| 0 <= i < |t| - 1 && t[i] == ':' && t[i + 1] == ':';
      assert s[i + 1] == ':' && s[i + 1 + 1] == ':';
    }
    if |s| >= 2 && s[0] == ':' && s[1] == ':' { assert s[0 + 1] == ':'; }
  }

  /** A name comes out of class-to-full as itself exactly when it has no two colons in a row; in
      particular a full name does. */
  lemma {:induction false} DottedStays(s: string)
    ensures ClassToFull(s) == s <==> !HasPair(s)
    decreases |s|
  {
    if s == "" {
    } else {
      PairTail(s);
      assert s == [s[0]] + s[1..];
      if |s| >= 2 && s[0] == ':' && s[1] == ':' {
        assert |ClassToFull(s)| < |s|;
      } else {
        DottedStays(s[1..]);
        assert ClassToFull(s)[1..] == ClassToFull(s[1..]);
      }
    }
  }

  /** A name comes out of full-to-class as itself exactly when it has no dot. */
  lemma {:induction false} UndottedStays(s: string)
    ensures FullToClass(s) == s <==> '.' !in s
    ensures |FullToClass(s)| >= |s|
  {
    if s == "" {
    } else {
      UndottedStays(s[1..]);
      assert s == [s[0]] + s[1..];
      if s[0] == '.' {
        assert |FullToClass(s)| > |s|;
      } else {
        assert FullToClass(s)[1..] == FullToClass(s[1..]);
      }
    }
  }

  /** Segment by segment: two colons become a dot, and a dot becomes two colons. */
  lemma {:induction false} SegmentTranslated(a: string, b: string)
    requires !HasPair(a) && (a == "" || a[|a| - 1] != ':')
    ensures ClassToFull(a + "::" + b) == a + "." + ClassToFull(b)
    decreases |a|
  {
    var s := a + "::" + b;
    if a == "" {
      assert s[2..] == b;
    } else {
      PairTail(a);
      var t := a[1..];
      assert s[0] == a[0] && s[1..] == t + "::" + b && (|a| >= 2 ==> s[1] == a[1]);
      SegmentTranslated(t, b);
      assert a == [a[0]] + t;
      assert [a[0]] + (t + "." + ClassToFull(b)) == a + "." + ClassToFull(b);
    }
  }

  lemma {:induction false} DotTranslated(a: string, b: string)
    ensures FullToClass(a + "." + b) == FullToClass(a) + "::" + FullToClass(b)
    decreases |a|
  {
    var s := a + "." + b;
    if a == "" {
      assert s[1..] == b;
    } else {
      var t := a[1..];
      assert s[0] == a[0] && s[1..] == t + "." + b;
      DotTranslated(t, b);
      var c := if a[0] == '.' then "::" else [a[0]];
      assert c + (FullToClass(t) + "::" + FullToClass(b)) == c + FullToClass(t) + "::" + FullToClass(b);
    }
  }

  // ---------------------------------------------------------------- the fast path refines the loop

  lemma {:induction false} PlainCopies(a: string, rest: string)
    requires Plain(a)
    ensures ClassToFull(a + rest) == a + ClassToFull(rest)
    ensures FullToClass(a + rest) == a + FullToClass(rest)
    decreases |a|
  {
    if a == "" {
      assert a + rest == rest && "" + ClassToFull(rest) == ClassToFull(rest) && "" + FullToClass(rest) == FullToClass(rest);
    } else {
      var s, t := a + rest, a[1..];
      assert s[0] == a[0] && s[1..] == t + rest;
      PlainCopies(t, rest);
      Translates(s);
      Reassociate([a[0]], t, ClassToFull(rest));
      Reassociate([a[0]], t, FullToClass(rest));
      assert [a[0]] + t == a;
    }
  }

  /** A first character that is neither a dot nor a colon is copied. */
  lemma Translates(s: string)
    requires s != "" && s[0] != '.' && s[0] != ':'
    ensures ClassToFull(s) == [s[0]] + ClassToFull(s[1..])
    ensures FullToClass(s) == [s[0]] + FullToClass(s[1..])
  {
  }

  lemma {:induction false} DotsTotal(s: string)
    ensures |FullToClass(s)| == |s| + Dots(s)
    decreases |s|
  {
    if s == "" {
    } else {
      DotsHead(s);
      DotsTotal(s[1..]);
    }
  }

  lemma {:induction false} DotsHead(s: string)
    requires s != ""
    ensures Dots(s) == (if s[0] == '.' then 1 else 0) + Dots(s[1..])
    decreases |s|
  {
    var init := s[..|s| - 1];
    if init != "" {
      DotsHead(init);
      assert init[1..] == s[1..][..|s| - 2];
    } else {
      assert s[1..] == "";
    }
  }

  /** How far the translation of `name` has come: `i` characters read, `d` written. */
  ghost predicate Done(name: string, i: nat, buf: array<char>, d: nat, full: bool)
    reads buf
    requires i <= |name| && d <= buf.Length
  {
    var rest := name[i..];
    if full then buf[..d] + ClassToFull(rest) == ClassToFull(name) else buf[..d] + FullToClass(rest) == FullToClass(name)
  }

  /** One vector load and store. */
  method CopyChunk(buf: array<char>, d: nat, chunk: string)
    requires d + |chunk| <= buf.Length
    modifies buf
    ensures buf[..d + |chunk|] == old(buf[..d]) + chunk
  {
    forall j | 0 <= j < |chunk| { buf[d + j] := chunk[j]; }
  }

  /** Copies `width`-character chunks while they are plain, as the vector loops do. */
  method CopyPlainChunks(name: string, start: nat, buf: array<char>, d0: nat, width: nat, ghost full: bool)
    returns (i: nat, d: nat)
    requires 0 < width && start <= |name|
    requires d0 + (|name| - start) <= buf.Length
    requires Done(name, start, buf, d0, full)
    modifies buf
    ensures start <= i <= |name| && 0 <= d && d - d0 == i - start && Done(name, i, buf, d, full)
  {
    hide ClassToFull, FullToClass;
    i, d := start, d0;
    var remaining := |name| - start;
    while remaining >= width
      invariant start <= i <= |name| && remaining == |name| - i && d - d0 == i - start
      invariant Done(name, i, buf, d, full)
      decreases remaining
    {
      var chunk := name[i..i + width];
      if !Plain(chunk) { break; }
      ghost var was := buf[..d];
      CopyChunk(buf, d, chunk);
      PlainCopies(chunk, name[i + width..]);
      assert name[i..] == chunk + name[i + width..];
      Reassociate(was, chunk, ClassToFull(name[i + width..]));
      Reassociate(was, chunk, FullToClass(name[i + width..]));
      d, i, remaining := d + width, i + width, remaining - width;
    }
  }

  /** One round of the scalar loop of `PerlUpb_ClassNameToFullName`. */
  lemma FullRound(name: string, i: nat, done: string)
    requires i < |name|
    ensures var pair := i + 1 < |name| && name[i] == ':' && name[i + 1] == ':';
            done + ClassToFull(name[i..]) ==
            if pair then (done + ".") + ClassToFull(name[i + 2..]) else (done + [name[i]]) + ClassToFull(name[i + 1..])
  {
    var s := name[i..];
    if i + 1 < |name| && name[i] == ':' && name[i + 1] == ':' {
      assert s[2..] == name[i + 2..];
      Reassociate(done, ".", ClassToFull(name[i + 2..]));
    } else {
      assert s[1..] == name[i + 1..];
      Reassociate(done, [name[i]], ClassToFull(name[i + 1..]));
    }
  }

  lemma ClassRound(name: string, i: nat, done: string)
    requires i < |name|
    ensures done + FullToClass(name[i..])
         == (done + if name[i] == '.' then "::" else [name[i]]) + FullToClass(name[i + 1..])
  {
    assert name[i..][1..] == name[i + 1..];
    Reassociate(done, if name[i] == '.' then "::" else [name[i]], FullToClass(name[i + 1..]));
  }

  /** The finished C string in a buffer. */
  ghost predicate HoldsString(buf: array<char>, s: string)
    reads buf
  {
    |s| < buf.Length && buf[..|s|] == s && buf[|s|] == '\0'
  }

  /** `PerlUpb_ClassNameToFullName`, built with the vector loops (`vector`) or without: the
      same result, in a buffer of the length of the input plus one. */
  method ClassNameToFullName(name: string, vector: bool) returns (buf: array<char>)
    ensures fresh(buf) && buf.Length == |name| + 1 && HoldsString(buf, ClassToFull(name))
  {
    hide ClassToFull, FullToClass;
    buf := new char[|name| + 1];
    var s, d := 0, 0;
    assert name[0..] == name && "" + ClassToFull(name) == ClassToFull(name);
    if vector {
      s, d := CopyPlainChunks(name, s, buf, d, 32, true);
      s, d := CopyPlainChunks(name, s, buf, d, 16, true);
    }
    while s < |name|
      invariant 0 <= s <= |name| && 0 <= d <= s && Done(name, s, buf, d, true)
    {
      ghost var done := buf[..d];
      FullRound(name, s, done);
      if s + 1 < |name| && name[s] == ':' && name[s + 1] == ':' {
        d := Put(buf, d, '.');
        s := s + 2;
      } else {
        d := Put(buf, d, name[s]);
        s := s + 1;
      }
    }
    Translated(name, buf, d, true);
    Terminate(buf, d);
  }

  /** When everything is read, everything is written. */
  lemma Translated(name: string, buf: array<char>, d: nat, full: bool)
    requires d <= buf.Length && Done(name, |name|, buf, d, full)
    ensures buf[..d] == if full then ClassToFull(name) else FullToClass(name)
  {
    assert name[|name|..] == "" && buf[..d] + "" == buf[..d];
  }

  /** `PerlUpb_FullNameToClassName`: counts the dots to size the buffer, then translates. */
  method FullNameToClassName(name: string, vector: bool) returns (buf: array<char>)
    ensures fresh(buf) && buf.Length == |name| + Dots(name) + 1 && HoldsString(buf, FullToClass(name))
  {
    hide ClassToFull, FullToClass;
    var dots, p := 0, 0;
    while p < |name|
      invariant 0 <= p <= |name| && dots == Dots(name[..p])
    {
      assert name[..p + 1][..p] == name[..p];
      if name[p] == '.' { dots := dots + 1; }
      p := p + 1;
    }
    assert name[..p] == name;
    DotsTotal(name);
    buf := new char[|name| + dots + 1];
    var s, d := 0, 0;
    assert name[0..] == name && "" + FullToClass(name) == FullToClass(name);
    if vector {
      s, d := CopyPlainChunks(name, s, buf, d, 32, false);
    }
    while s < |name|
      invariant 0 <= s <= |name| && 0 <= d <= |name| + dots && Done(name, s, buf, d, false)
    {
      ghost var done := buf[..d];
      ClassRound(name, s, done);
      if name[s] == '.' {
        assert |done + "::"| <= |FullToClass(name)|;
        d := Put(buf, d, ':');
        d := Put(buf, d, ':');
        assert buf[..d] == done + "::";
      } else {
        assert |done + [name[s]]| <= |FullToClass(name)|;
        d := Put(buf, d, name[s]);
      }
      s := s + 1;
    }
    Translated(name, buf, d, false);
    Terminate(buf, d);
  }
}
