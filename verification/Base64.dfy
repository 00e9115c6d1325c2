/** The base64 text the code generator emits into a here-document, against the decoding of
    section 4 of RFC 4648. */
module Base64 {
  import opened Streams
  import opened Bits
  import opened Strings
  import opened Options

  // ---------------------------------------------------------------- specification

  const TABLE: string := "ABCDEFGHIJKLMNOPQRSTUVWXYZ" + "abcdefghijklmnopqrstuvwxyz" + "0123456789" + "+/"

  /** The value of a character of the alphabet, by its range in Table 1 of the RFC. */
  function Sextet(c: char): (r: Option<nat>) {
    if 'A' <= c <= 'Z' then Some((c - 'A') as int)
    else if 'a' <= c <= 'z' then Some((c - 'a') as int + 26)
    else if '0' <= c <= '9' then Some((c - '0') as int + 52)
    else if c == '+' then Some(62)
    else if c == '/' then Some(63)
    else None
  }

  /** Four characters without padding are three bytes. */
  function DecodeFull(q: string): (r: Option<seq<byte>>)
    requires |q| == 4
  {
    match (Sextet(q[0]), Sextet(q[1]), Sextet(q[2]), Sextet(q[3]))
    case (Some(a), Some(b), Some(c), Some(d)) =>
      if a < 64 && b < 64 && c < 64 && d < 64 then
        Some([a * 4 + b / 16, b % 16 * 16 + c / 4, c % 4 * 64 + d])
      else None
    case _ => None
  }

  /** The last four characters may end in padding; the bits left over must be zero. */
  function DecodeLast(q: string): (r: Option<seq<byte>>)
    requires |q| == 4
  {
    if q[3] != '=' then DecodeFull(q)
    else if q[2] != '=' then
      match (Sextet(q[0]), Sextet(q[1]), Sextet(q[2]))
      case (Some(a), Some(b), Some(c)) =>
        if a < 64 && b < 64 && c < 64 && c % 4 == 0 then Some([a * 4 + b / 16, b % 16 * 16 + c / 4]) else None
      case _ => None
    else
      match (Sextet(q[0]), Sextet(q[1]))
      case (Some(a), Some(b)) => if a < 64 && b < 64 && b % 16 == 0 then Some([a * 4 + b / 16]) else None
      case _ => None
  }

  /** The decoder of section 4. */
  function Decode(s: string): (r: Option<seq<byte>>) {
    if s == "" then Some([])
    else if |s| < 4 then None
    else if |s| == 4 then DecodeLast(s)
    else
      match (DecodeFull(s[..4]), Decode(s[4..]))
      case (Some(a), Some(b)) => Some(a + b)
      case _ => None
  }

  function WithoutNewlines(s: string): (r: string) {
    if s == "" then "" else (if s[0] == '\n' then "" else [s[0]]) + WithoutNewlines(s[1..])
  }

  /** The lines of a text, the last one possibly empty. */
  function Lines(s: string): (ls: seq<string>)
    ensures ls != []
  {
    if s == "" then [""]
    else if s[0] == '\n' then [""] + Lines(s[1..])
    else
      var ls := Lines(s[1..]);
      [[s[0]] + ls[0]] + ls[1..]
  }

  // ---------------------------------------------------------------- the encoder

  /** Byte `i`, or zero beyond the end. */
  function At(buf: seq<byte>, i: nat): (r: byte) { if i < |buf| then buf[i] else 0 }

  /** The bytes from `i` on as one 24-bit number. */
  function Word(a: byte, b: byte, c: byte): (r: nat) { a as int * 65536 + b as int * 256 + c as int }

  /** The four characters printed for the bytes from `i` on. */
  function Quad(buf: seq<byte>, i: nat): (q: string)
    requires i < |buf|
    ensures |q| == 4
  {
    var val := Word(At(buf, i), At(buf, i + 1), At(buf, i + 2));
    [ TABLE[val / 262144 % 64],
      TABLE[val / 4096 % 64],
      if i + 1 < |buf| then TABLE[val / 64 % 64] else '=',
      if i + 2 < |buf| then TABLE[val % 64] else '=' ]
  }

  /** The text of all groups from byte `i` on, without newlines. */
  function Text(buf: seq<byte>, i: nat): (s: string)
    decreases |buf| - i
  {
    if i >= |buf| then "" else Quad(buf, i) + Text(buf, i + 3)
  }

  /** The same with a newline after every eighteenth group. */
  function Broken(buf: seq<byte>, i: nat): (s: string)
    decreases |buf| - i
  {
    if i >= |buf| then ""
    else Quad(buf, i) + (if (i / 3 + 1) % 18 == 0 then "\n" else "") + Broken(buf, i + 3)
  }

  // ---------------------------------------------------------------- properties

  function Letter(i: nat): (r: char)
    requires i < 64
  {
    if i < 26 then 'A' + i as char
    else if i < 52 then 'a' + (i - 26) as char
    else if i < 62 then '0' + (i - 52) as char
    else if i == 62 then '+' else '/'
  }

  lemma TableLetter(i: nat)
    requires i < 64
    ensures TABLE[i] == Letter(i)
  {
  }

  lemma LetterSextet(i: nat)
    requires i < 64
    ensures Sextet(Letter(i)) == Some(i) && Letter(i) != '=' && Letter(i) != '\n'
  {
  }

  lemma TableSextet(i: nat)
    requires i < 64
    ensures Sextet(TABLE[i]) == Some(i) && TABLE[i] != '=' && TABLE[i] != '\n'
  {
    hide Sextet, Letter, TABLE;
    TableLetter(i);
    LetterSextet(i);
  }

  lemma FirstPart(a: byte, b: byte, c: byte)
    ensures Word(a, b, c) / 262144 % 64 == a / 4
  {
    var low, high := a % 4 * 65536 + b * 256 + c, a / 4;
    assert Word(a, b, c) == 262144 * high + low && 0 <= low < 262144;
    assert Word(a, b, c) / 262144 == high;
  }

  lemma SecondPart(a: byte, b: byte, c: byte)
    ensures Word(a, b, c) / 4096 % 64 == a % 4 * 16 + b / 16
  {
    var low, high := b % 16 * 256 + c, a % 4 * 16 + b / 16;
    assert Word(a, b, c) == 4096 * (64 * (a / 4) + high) + low && 0 <= low < 4096;
    assert Word(a, b, c) / 4096 == 64 * (a / 4) + high;
  }

  lemma ThirdPart(a: byte, b: byte, c: byte)
    ensures Word(a, b, c) / 64 % 64 == b % 16 * 4 + c / 64
  {
    var high := b % 16 * 4 + c / 64;
    assert Word(a, b, c) == 64 * (64 * (16 * a + b / 16) + high) + c % 64;
    assert Word(a, b, c) / 64 == 64 * (16 * a + b / 16) + high;
  }

  lemma LastPart(a: byte, b: byte, c: byte)
    ensures Word(a, b, c) % 64 == c % 64
  {
    assert Word(a, b, c) == 64 * (1024 * a + 4 * b + c / 64) + c % 64;
  }

  /** The characters of a group are those of its six-bit parts. */
  lemma QuadSextets(buf: seq<byte>, i: nat)
    requires i < |buf|
    ensures var a, b, c := At(buf, i), At(buf, i + 1), At(buf, i + 2);
            && Sextet(Quad(buf, i)[0]) == Some(a / 4)
            && Sextet(Quad(buf, i)[1]) == Some(a % 4 * 16 + b / 16)
            && (if i + 1 < |buf| then Sextet(Quad(buf, i)[2]) == Some(b % 16 * 4 + c / 64) && Quad(buf, i)[2] != '='
                else Quad(buf, i)[2] == '=')
            && (if i + 2 < |buf| then Sextet(Quad(buf, i)[3]) == Some(c % 64) && Quad(buf, i)[3] != '='
                else Quad(buf, i)[3] == '=')
            && forall k :: 0 <= k < 4 ==> Quad(buf, i)[k] != '\n'
  {
    hide Sextet, TABLE, Word;
    var a, b, c := At(buf, i), At(buf, i + 1), At(buf, i + 2);
    FirstPart(a, b, c);
    SecondPart(a, b, c);
    ThirdPart(a, b, c);
    LastPart(a, b, c);
    TableSextet(a / 4);
    TableSextet(a % 4 * 16 + b / 16);
    TableSextet(b % 16 * 4 + c / 64);
    TableSextet(c % 64);
  }

  lemma SextetsJoin(a: byte, b: byte, c: byte)
    ensures a / 4 * 4 + (a % 4 * 16 + b / 16) / 16 == a
    ensures (a % 4 * 16 + b / 16) % 16 * 16 + (b % 16 * 4 + c / 64) / 4 == b
    ensures (b % 16 * 4 + c / 64) % 4 * 64 + c % 64 == c
  {
    var x, y := b / 16, c / 64;
    assert (a % 4 * 16 + x) / 16 == a % 4 && (a % 4 * 16 + x) % 16 == x;
    assert (b % 16 * 4 + y) / 4 == b % 16 && (b % 16 * 4 + y) % 4 == y;
  }

  /** One group decodes to its bytes; only the last group is padded. */
  lemma QuadDecodes(buf: seq<byte>, i: nat)
    requires i < |buf|
    ensures i + 3 <= |buf| ==> DecodeFull(Quad(buf, i)) == Some(buf[i..i + 3])
    ensures |buf| <= i + 3 ==> DecodeLast(Quad(buf, i)) == Some(buf[i..])
  {
    hide Sextet, Quad;
    QuadSextets(buf, i);
    var a, b, c := At(buf, i), At(buf, i + 1), At(buf, i + 2);
    SextetsJoin(a, b, c);
    if i + 3 <= |buf| {
      assert buf[i..i + 3] == [a, b, c];
      if |buf| == i + 3 { assert buf[i..] == [a, b, c]; }
    } else if |buf| == i + 2 {
      assert buf[i..] == [a, b];
    } else {
      assert buf[i..] == [a];
    }
  }

  lemma {:induction false} TextDecodes(buf: seq<byte>, i: nat)
    requires i <= |buf|
    ensures Decode(Text(buf, i)) == Some(buf[i..])
    ensures |Text(buf, i)| == (|buf| - i + 2) / 3 * 4
    decreases |buf| - i
  {
    hide DecodeFull, DecodeLast, Quad;
    if i == |buf| {
      assert buf[i..] == [];
    } else {
      QuadDecodes(buf, i);
      var s := Text(buf, i);
      if i + 3 < |buf| {
        TextDecodes(buf, i + 3);
        var n := |buf| - i;
        assert (n + 2) / 3 == (n - 1) / 3 + 1;
        assert s[..4] == Quad(buf, i) && s[4..] == Text(buf, i + 3) && Text(buf, i + 3) != "";
        assert buf[i..] == buf[i..i + 3] + buf[i + 3..];
      } else {
        assert Text(buf, i + 3) == "";
        assert s == Quad(buf, i);
      }
    }
  }

  /** How many characters are `=` at the end: two, one or none, by the length modulo three. */
  lemma {:induction false} PaddingIsRight(buf: seq<byte>, i: nat)
    requires i < |buf|
    ensures var s, r := Text(buf, i), (|buf| - i) % 3;
            && |s| >= 4
            && (s[|s| - 1] == '=' <==> r != 0)
            && (s[|s| - 2] == '=' <==> r == 1)
    decreases |buf| - i
  {
    hide Quad, Sextet;
    QuadSextets(buf, i);
    var s, q := Text(buf, i), Quad(buf, i);
    if i + 3 < |buf| {
      PaddingIsRight(buf, i + 3);
      var t := Text(buf, i + 3);
      assert s == q + t && s[|s| - 1] == t[|t| - 1] && s[|s| - 2] == t[|t| - 2];
    } else {
      assert Text(buf, i + 3) == "" && s == q;
      assert q[2] != '=' || i + 1 >= |buf|;
    }
  }

  /** The letters of a full group. */
  lemma QuadLetters(buf: seq<byte>, i: nat)
    requires i < |buf|
    ensures var a, b, c := At(buf, i), At(buf, i + 1), At(buf, i + 2);
            Quad(buf, i) == [
              Letter(a / 4), Letter(a % 4 * 16 + b / 16),
              if i + 1 < |buf| then Letter(b % 16 * 4 + c / 64) else '=',
              if i + 2 < |buf| then Letter(c % 64) else '=']
  {
    hide TABLE, Word, Letter;
    var a, b, c := At(buf, i), At(buf, i + 1), At(buf, i + 2);
    FirstPart(a, b, c);
    SecondPart(a, b, c);
    ThirdPart(a, b, c);
    LastPart(a, b, c);
    TableLetter(a / 4);
    TableLetter(a % 4 * 16 + b / 16);
    TableLetter(b % 16 * 4 + c / 64);
    TableLetter(c % 64);
  }

  lemma OneGroup(buf: seq<byte>)
    requires 1 <= |buf| <= 3
    ensures Text(buf, 0) == Quad(buf, 0)
  {
    hide Quad;
    assert Text(buf, 3) == "" && Quad(buf, 0) + "" == Quad(buf, 0);
  }

  lemma TwoGroups(buf: seq<byte>)
    requires 4 <= |buf| <= 6
    ensures Text(buf, 0) == Quad(buf, 0) + Quad(buf, 3)
  {
    hide Quad;
    assert Text(buf, 6) == "" && Quad(buf, 3) + "" == Quad(buf, 3);
    assert Text(buf, 3) == Quad(buf, 3);
  }

  /** Test vectors of section 10 of RFC 4648: the empty string, "f" and "fo". */
  lemma ShortVectors()
    ensures Text([], 0) == "" && Text([102], 0) == "Zg==" && Text([102, 111], 0) == "Zm8="
  {
    hide Text, Quad;
    assert Text([], 0) == "" by { NoText(); }
    OneGroup([102]);
    QuadLetters([102], 0);
    OneGroup([102, 111]);
    QuadLetters([102, 111], 0);
  }

  /** And "foobar". */
  lemma LongVector()
    ensures Text([102, 111, 111, 98, 97, 114], 0) == "Zm9v" + "YmFy"
  {
    hide Text, Quad;
    var buf: seq<byte> := [102, 111, 111, 98, 97, 114];
    TwoGroups(buf);
    assert Quad(buf, 0) == "Zm9v" by { QuadLetters(buf, 0); }
    assert Quad(buf, 3) == "YmFy" by { QuadLetters(buf, 3); }
  }

  lemma NoText()
    ensures Text([], 0) == ""
  {
  }

  lemma BrokenStep(buf: seq<byte>, i: nat)
    requires i < |buf|
    ensures var rest := Broken(buf, i + 3);
            Broken(buf, i) == Quad(buf, i) + if (i / 3 + 1) % 18 == 0 then ['\n'] + rest else rest
    ensures '\n' !in Quad(buf, i)
  {
    hide Quad, Sextet;
    QuadSextets(buf, i);
    Reassociate(Quad(buf, i), "\n", Broken(buf, i + 3));
    Reassociate(Quad(buf, i), "", Broken(buf, i + 3));
    assert "" + Broken(buf, i + 3) == Broken(buf, i + 3);
  }

  // ---- lines

  lemma {:induction false} WithoutNewlinesCopies(a: string, b: string)
    requires '\n' !in a
    ensures WithoutNewlines(a + b) == a + WithoutNewlines(b)
    decreases |a|
  {
    if a == "" {
      assert a + b == b && a + WithoutNewlines(b) == WithoutNewlines(b);
    } else {
      var s, t := a + b, a[1..];
      assert s[0] == a[0] && s[1..] == t + b;
      WithoutNewlinesCopies(t, b);
      Reassociate([a[0]], t, WithoutNewlines(b));
      assert [a[0]] + t == a;
    }
  }

  /** Line breaks are all that is added to the text. */
  lemma {:induction false} BrokenIsText(buf: seq<byte>, i: nat)
    ensures WithoutNewlines(Broken(buf, i)) == Text(buf, i)
    decreases |buf| - i
  {
    if i >= |buf| {
    } else {
      hide Quad, Broken;
      BrokenStep(buf, i);
      BrokenIsText(buf, i + 3);
      var q, rest := Quad(buf, i), Broken(buf, i + 3);
      var t := ['\n'] + rest;
      assert t[1..] == rest && "" + WithoutNewlines(rest) == WithoutNewlines(rest);
      WithoutNewlinesCopies(q, if (i / 3 + 1) % 18 == 0 then t else rest);
    }
  }

  lemma {:induction false} LinesCopy(a: string, b: string)
    requires '\n' !in a
    ensures Lines(a + b) == [a + Lines(b)[0]] + Lines(b)[1..]
    decreases |a|
  {
    if a == "" {
      assert a + b == b && a + Lines(b)[0] == Lines(b)[0];
    } else {
      var s, t := a + b, a[1..];
      assert s[0] == a[0] && s[1..] == t + b;
      LinesCopy(t, b);
      Reassociate([a[0]], t, Lines(b)[0]);
      assert [a[0]] + t == a;
      assert Lines(t + b)[1..] == Lines(b)[1..];
    }
  }

  /** Every line is full, with 72 characters, but the last, which has fewer and a multiple of four;
      `column` is how many groups the first line already has. */
  predicate GoodLines(ls: seq<string>, column: nat) {
    forall k :: 0 <= k < |ls| ==>
      var n := |ls[k]| + (if k == 0 then 4 * column else 0);
      if k < |ls| - 1 then n == 72 else n < 72 && n % 4 == 0
  }

  /** Four more characters on the first line, or on a line of their own. */
  lemma GoodLinesStep(q: string, ls: seq<string>, column: nat)
    requires |q| == 4 && ls != [] && column < 18
    requires GoodLines(ls, if column == 17 then 0 else column + 1)
    ensures if column == 17 then GoodLines([q] + ls, column) else GoodLines([q + ls[0]] + ls[1..], column)
  {
  }

  /** How many groups the current line has after `g` groups in all. */
  function Column(g: nat): (c: nat)
    ensures c < 18
  {
    g % 18
  }

  lemma NextColumn(g: nat)
    ensures Column(g + 1) == if Column(g) == 17 then 0 else Column(g) + 1
    ensures (3 * g / 3 + 1) % 18 == 0 <==> Column(g) == 17
  {
    assert 3 * g / 3 == g;
  }

  lemma LinesEnd(buf: seq<byte>, i: nat, column: nat)
    requires i >= |buf| && column < 18
    ensures GoodLines(Lines(Broken(buf, i)), column)
  {
  }

  lemma {:induction false} BrokenLines(buf: seq<byte>, g: nat)
    ensures GoodLines(Lines(Broken(buf, 3 * g)), Column(g))
    decreases |buf| - 3 * g
  {
    hide Quad, Broken, GoodLines, Column;
    var i := 3 * g;
    if i < |buf| {
      BrokenStep(buf, i);
      BrokenLines(buf, g + 1);
      var q, rest := Quad(buf, i), Broken(buf, i + 3);
      var ls := Lines(rest);
      NextColumn(g);
      GoodLinesStep(q, ls, Column(g));
      if Column(g) == 17 {
        var t := ['\n'] + rest;
        assert t[1..] == rest;
        LinesCopy(q, t);
        assert q + "" == q && ([""] + ls)[1..] == ls;
      } else {
        LinesCopy(q, rest);
      }
    } else {
      LinesEnd(buf, i, Column(g));
    }
  }

  /** The emitted text: without its newlines it decodes, by section 4 of RFC 4648, to the
      bytes that were encoded; all lines but the last have exactly 72 characters, and the last
      has fewer; and no line is the `EOF` that ends the here-document. */
  lemma EmittedText(buf: seq<byte>)
    ensures Decode(WithoutNewlines(Broken(buf, 0))) == Some(buf)
    ensures var ls := Lines(Broken(buf, 0));
            (forall k :: 0 <= k < |ls| - 1 ==> |ls[k]| == 72) && |ls[|ls| - 1]| < 72
    ensures forall line :: line in Lines(Broken(buf, 0)) ==> |line| <= 72 && line != "EOF"
  {
    hide Broken, Lines, GoodLines, Decode, WithoutNewlines, Text;
    BrokenIsText(buf, 0);
    TextDecodes(buf, 0);
    assert buf[0..] == buf;
    BrokenLines(buf, 0);
    GoodLinesMean(Lines(Broken(buf, 0)));
  }

  lemma GoodLinesMean(ls: seq<string>)
    requires ls != [] && GoodLines(ls, 0)
    ensures (forall k :: 0 <= k < |ls| - 1 ==> |ls[k]| == 72) && |ls[|ls| - 1]| < 72
    ensures forall line :: line in ls ==> |line| <= 72 && line != "EOF"
  {
    forall line | line in ls ensures |line| <= 72 && |line| % 4 == 0 {
      var k :| 0 <= k < |ls| && ls[k] == line;
    }
    assert |"EOF"| == 3;
  }

  /** The base64 loop of `GenerateModule`, up to the end of the here-document. */
  method EmitDescriptor(buf: seq<byte>) returns (ss: string)
    ensures ss == Broken(buf, 0) + "\nEOF\n"
  {
    hide Broken, Quad;
    ss := "";
    var i, size := 0, |buf|;
    assert "" + Broken(buf, 0) == Broken(buf, 0);
    while i < size
      invariant i % 3 == 0
      invariant ss + Broken(buf, i) == Broken(buf, 0)
      decreases size - i
    {
      BrokenStep(buf, i);
      Reassociate(ss, Quad(buf, i), if (i / 3 + 1) % 18 == 0 then ['\n'] + Broken(buf, i + 3) else Broken(buf, i + 3));
      ss := EmitGroup(ss, buf, i);
      if (i / 3 + 1) % 18 == 0 {
        Reassociate(ss, "\n", Broken(buf, i + 3));
        ss := ss + "\n";
      }
      i := i + 3;
    }
    BrokenEnd(buf, i);
    assert ss + "" == ss;
    ss := ss + "\nEOF\n";
  }

  lemma BrokenEnd(buf: seq<byte>, i: nat)
    requires i >= |buf|
    ensures Broken(buf, i) == ""
  {
  }

  /** One round of the loop: three bytes, or what is left of them, in four characters. */
  method EmitGroup(before: string, buf: seq<byte>, i: nat) returns (ss: string)
    requires i < |buf|
    ensures ss == before + Quad(buf, i)
  {
    hide TABLE;
    TableLength();
    var size := |buf|;
    var val := buf[i] as int * 65536;
    OrWord(At(buf, i), At(buf, i + 1), At(buf, i + 2));
    if i + 1 < size { val := Or(val, buf[i + 1] as int * 256); }
    if i + 2 < size { val := Or(val, buf[i + 2]); }
    assert val == Word(At(buf, i), At(buf, i + 1), At(buf, i + 2));
    ss := before + [TABLE[val / 262144 % 64]];
    ss := ss + [TABLE[val / 4096 % 64]];
    ss := ss + [if i + 1 < size then TABLE[val / 64 % 64] else '='];
    ss := ss + [if i + 2 < size then TABLE[val % 64] else '='];
  }

  /** The three bytes occupy different bits of the word. */
  lemma OrWord(a: byte, b: byte, c: byte)
    ensures Or(a * 65536, b * 256) == a * 65536 + b * 256
    ensures Or(a * 65536 + b * 256, c) == Word(a, b, c)
  {
    assert Shl(1, 0) == 1 && Shl(a, 0) == a && Shl(a * 256 + b, 0) == a * 256 + b;
    hide Shl, Or;
    ShlBy8(1, 0);
    ShlBy8(1, 8);
    ShlBy8(a, 0);
    ShlBy8(a, 8);
    ShlBy8(a * 256 + b, 0);
    OrDisjoint(a, b * 256, 16);
    OrDisjoint(a * 256 + b, c, 8);
  }

  lemma TableLength()
    ensures |TABLE| == 64
  {
  }
}
