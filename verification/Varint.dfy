/** The base-128 varint codec: one encoder (`WriteVarint`) and two decoders, one over an
    in-memory range (`decode_varint`) and one over a file handle (`ReadVarint`), all three
    tied to one declarative meaning of the encoding. */
module Varint {
  import opened Streams
  import opened Bits

  // ---------------------------------------------------------------- specification

  /** 128 to the power `n`, the weight of the `n`-th seven-bit group. */
  function Weight(n: nat): (w: nat)
    ensures w >= 1
  {
    if n == 0 then 1 else 128 * Weight(n - 1)
  }

  /** The low seven bits of `b`, shifted left by 7*i. */
  function Shifted(b: byte, i: nat): (r: nat)
    ensures r <= 127 * Weight(i)
  {
    if i == 0 then b % 128 else 128 * Shifted(b, i - 1)
  }

  /** The number spelled by the low seven bits of every byte, least significant group first. */
  function Groups(s: seq<byte>): (r: nat) {
    if s == [] then 0 else Groups(s[..|s| - 1]) + Shifted(s[|s| - 1], |s| - 1)
  }

  /** At most ten bytes, of which exactly the last has no continuation bit. */
  predicate IsVarint(s: seq<byte>) {
    && 1 <= |s| <= 10
    && s[|s| - 1] < 128
    && forall i :: 0 <= i < |s| - 1 ==> s[i] >= 128
  }

  datatype Decoded = Nothing | Varint(value: uint64, used: nat)

  /** How many bytes the varint at the head of `s` takes; 0 when there is none.
      `seen` bytes with a continuation bit came before. */
  function Length(s: seq<byte>, seen: nat := 0): (n: nat)
    requires seen <= 10
    ensures n <= |s| && (n > 0 ==> seen + n <= 10)
    decreases 10 - seen
  {
    if seen == 10 || s == [] then 0
    else if s[0] < 128 then 1
    else
      var n := Length(s[1..], seen + 1);
      if n == 0 then 0 else n + 1
  }

  /** What a decoder must answer on `s`: the value of the varint at the head, modulo 2^64. */
  function Decode(s: seq<byte>): (r: Decoded) {
    var n := Length(s);
    if n == 0 then Nothing else Varint(Wrap(Groups(s[..n])), n)
  }

  function Encode(v: nat): (s: seq<byte>)
    ensures |s| >= 1
  {
    if v < 128 then [v] else [v % 128 + 128] + Encode(v / 128)
  }

  // ---------------------------------------------------------------- properties

  /** The first byte without a continuation bit is the `n`-th. */
  predicate EndsAt(s: seq<byte>, n: nat) {
    1 <= n <= |s| && s[n - 1] < 128 && forall i :: 0 <= i < n - 1 ==> s[i] >= 128
  }

  lemma {:induction false} LengthEnds(s: seq<byte>, seen: nat)
    requires seen <= 10
    ensures Length(s, seen) > 0 ==> EndsAt(s, Length(s, seen))
    decreases 10 - seen
  {
    if seen == 10 || s == [] || s[0] < 128 {
    } else {
      LengthEnds(s[1..], seen + 1);
      var n := Length(s, seen);
      if n > 0 {
        forall i | 1 <= i < n - 1 ensures s[i] >= 128 { assert s[1..][i - 1] == s[i]; }
      }
    }
  }

  lemma {:induction false} EndsLength(s: seq<byte>, seen: nat, n: nat)
    requires EndsAt(s, n) && seen + n <= 10
    ensures Length(s, seen) == n
    decreases n
  {
    if n <= 1 {
    } else {
      forall i | 0 <= i < n - 2 ensures s[1..][i] >= 128 { assert s[1..][i] == s[i + 1]; }
      EndsLength(s[1..], seen + 1, n - 1);
    }
  }

  lemma DecodeAt(s: seq<byte>, n: nat)
    requires n <= |s| && IsVarint(s[..n])
    ensures Decode(s) == Varint(Wrap(Groups(s[..n])), n)
  {
    assert s[n - 1] == s[..n][n - 1];
    forall i | 0 <= i < n - 1 ensures s[i] >= 128 { assert s[i] == s[..n][i]; }
    EndsLength(s, 0, n);
  }

  /** The decoders' answer, stated without `Length`: a value is found exactly when a prefix
      of the input is a varint, and then it is that prefix's number modulo 2^64. */
  lemma DecodeMeaning(s: seq<byte>)
    ensures forall n :: 0 <= n <= |s| && IsVarint(s[..n])
                        ==> Decode(s) == Varint(Wrap(Groups(s[..n])), n)
    ensures Decode(s).Varint? ==> Decode(s).used <= |s| && IsVarint(s[..Decode(s).used])
  {
    LengthEnds(s, 0);
    forall n | 0 <= n <= |s| && IsVarint(s[..n])
      ensures Decode(s) == Varint(Wrap(Groups(s[..n])), n)
    {
      DecodeAt(s, n);
    }
  }

  lemma {:induction false} GroupsPrepend(b: byte, s: seq<byte>)
    ensures Groups([b] + s) == b % 128 + 128 * Groups(s)
  {
    var t := [b] + s;
    if s == [] {
      assert t[..0] == [];
    } else {
      assert t[..|s|] == [b] + s[..|s| - 1];
      GroupsPrepend(b, s[..|s| - 1]);
    }
  }

  lemma {:induction false} GroupsBound(s: seq<byte>)
    ensures Groups(s) < Weight(|s|)
  {
    if s == [] {
    } else {
      GroupsBound(s[..|s| - 1]);
    }
  }

  lemma WeightValues()
    ensures Weight(9) == 0x8000_0000_0000_0000 && Weight(10) == 64 * TWO_TO_64
  {
    assert Weight(5) == 0x8_0000_0000;
  }

  lemma {:induction false} WeightMonotone(a: nat, b: nat)
    requires a <= b
    ensures Weight(a) <= Weight(b)
    decreases b - a
  {
    if a >= b {
    } else {
      WeightMonotone(a + 1, b);
    }
  }

  lemma GroupsFit(s: seq<byte>)
    requires |s| < 10
    ensures Groups(s) < TWO_TO_64
  {
    assert Weight(9) < TWO_TO_64 by { WeightValues(); }
    GroupsBound(s);
    WeightMonotone(|s|, 9);
  }

  /** A number below 128^n is written in at most n bytes, only the last of which
      has no continuation bit, and those bytes spell the number. */
  lemma {:induction false} EncodeShape(v: nat, n: nat)
    requires n >= 1 && v < Weight(n)
    ensures |Encode(v)| <= n
    ensures Encode(v)[|Encode(v)| - 1] < 128
    ensures forall i :: 0 <= i < |Encode(v)| - 1 ==> Encode(v)[i] >= 128
    ensures Groups(Encode(v)) == v
  {
    hide Groups, Weight;
    if v < 128 {
      assert [v] == [v] + [] && v % 128 == v;
      GroupsPrepend(v, []);
      NoGroups();
    } else {
      var low, high := v % 128, v / 128;
      WeightStep(n, high, low);
      EncodeShape(high, n - 1);
      GroupsPrepend(low + 128, Encode(high));
    }
  }

  lemma NoGroups()
    ensures Groups([]) == 0
  {
  }

  lemma WeightStep(n: nat, high: nat, low: nat)
    requires 128 * high + low < Weight(n) && high >= 1 && low < 128
    ensures n >= 2 && high < Weight(n - 1) && (low + 128) % 128 == low
  {
  }

  lemma EncodeFits(v: uint64)
    ensures |Encode(v)| <= 10 && IsVarint(Encode(v)) && Groups(Encode(v)) == v
  {
    assert v < Weight(10) by { WeightValues(); }
    EncodeShape(v, 10);
  }

  /** Decoding what the encoder wrote gives the number back and consumes exactly the bytes
      written, whatever follows; at most ten bytes are written. */
  lemma RoundTrip(v: uint64, rest: seq<byte>)
    ensures |Encode(v)| <= 10 && IsVarint(Encode(v))
    ensures Decode(Encode(v) + rest) == Varint(v, |Encode(v)|)
  {
    EncodeFits(v);
    var s := Encode(v) + rest;
    assert s[..|Encode(v)|] == Encode(v);
    DecodeAt(s, |Encode(v)|);
  }

  /** No shorter sequence of bytes decodes to the same number. */
  lemma EncodeIsMinimal(v: uint64, s: seq<byte>)
    requires Decode(s).Varint? && Decode(s).value == v
    ensures |Encode(v)| <= Decode(s).used
  {
    var n := Decode(s).used;
    DecodeMeaning(s);
    if n == 10 {
      EncodeFits(v);
    } else {
      GroupsFit(s[..n]);
      GroupsBound(s[..n]);
      EncodeShape(v, n);
    }
  }

  /** The example of the Protocol Buffers encoding guide: 150 is 96 01. */
  lemma EncodeExample(rest: seq<byte>)
    ensures Encode(150) == [0x96, 0x01] && Decode([0x96, 0x01] + rest) == Varint(150, 2)
  {
    RoundTrip(150, rest);
    assert Encode(150) == [150 % 128 + 128] + Encode(1);
  }

  /** Nothing but continuation bytes, to the end or for ten bytes, is no varint. */
  lemma NoVarint(s: seq<byte>, n: nat)
    requires n <= |s| && (n == |s| || n == 10)
    requires forall i :: 0 <= i < n ==> s[i] >= 128
    ensures Decode(s) == Nothing
  {
    LengthEnds(s, 0);
  }

  /** A decoder never looks past the varint: what follows it is irrelevant. */
  lemma DecodePrefix(s: seq<byte>, t: seq<byte>)
    requires Decode(s).Varint?
    ensures Decode(s).used <= |s|
    ensures Decode(s[..Decode(s).used] + t) == Decode(s)
  {
    var n := Decode(s).used;
    DecodeMeaning(s);
    assert (s[..n] + t)[..n] == s[..n];
    DecodeAt(s[..n] + t, n);
  }

  // ---------------------------------------------------------------- the three loops

  /** One step of either decoding loop: or-ing seven more bits in at position 7*i of the
      64-bit word; at position 63 all but the lowest of the seven fall off. */
  function OrBits(res: nat, b: byte, i: nat): (r: nat) {
    Or(res, Wrap(Shl(b % 128, 7 * i)))
  }

  lemma {:induction false} ShiftedIsShl(b: byte, i: nat)
    ensures Shifted(b, i) == Shl(b % 128, 7 * i) && Weight(i) == Shl(1, 7 * i)
  {
    if i == 0 {
    } else {
      ShiftedIsShl(b, i - 1);
      ShlBy7(b % 128, 7 * (i - 1));
      ShlBy7(1, 7 * (i - 1));
    }
  }

  /** What is left in the word of bits put at position 63. */
  lemma TopBit(c: nat)
    ensures Wrap(Shl(c, 63)) == Shl(c % 2, 63) <= 0x8000_0000_0000_0000
  {
    hide Shl;
    ShlBy63(c);
    ShlBy63(c % 2);
    var q, d := c / 2, c % 2;
    assert c == 2 * q + d;
    Remainder(q, d * 0x8000_0000_0000_0000);
  }

  lemma Remainder(q: nat, r: nat)
    requires r < TWO_TO_64
    ensures Wrap(q * 0x1_0000_0000_0000_0000 + r) == r
  {
  }

  lemma ShlBy63(c: nat)
    ensures Shl(c, 63) == c * 0x8000_0000_0000_0000
  {
    hide Shl;
    assert Shl(c, 0) == c by { ShlBy0(c); }
    ShlBy7(c, 0);
    ShlBy7(c, 7);
    ShlBy7(c, 14);
    ShlBy7(c, 21);
    ShlBy7(c, 28);
    ShlBy7(c, 35);
    ShlBy7(c, 42);
    ShlBy7(c, 49);
    ShlBy7(c, 56);
  }

  lemma ShlBy0(c: nat)
    ensures Shl(c, 0) == c
  {
  }

  lemma ShiftedFits(b: byte, i: nat)
    requires i < 9
    ensures Wrap(Shifted(b, i)) == Shifted(b, i) && Weight(i) + Shifted(b, i) <= TWO_TO_64
  {
    WeightMonotone(i, 8);
    assert Weight(8) == 0x100_0000_0000_0000 by { assert Weight(4) == 0x1000_0000; }
  }

  /** The accumulator has bits below position 7*i only, so the or is the sum modulo 2^64. */
  lemma OrIsSum(res: nat, b: byte, i: nat)
    requires i < 10 && res < Weight(i)
    ensures OrBits(res, b, i) == Wrap(res + Shifted(b, i))
  {
    hide Or, Shl, Shifted, Weight;
    ShiftedIsShl(b, i);
    if i < 9 {
      ShiftedFits(b, i);
      OrDisjoint(b % 128, res, 7 * i);
    } else {
      TopBit(b % 128);
      WeightValues();
      OrDisjoint(b % 128 % 2, res, 63);
    }
  }

  lemma GroupsAppend(s: seq<byte>, b: byte)
    ensures Groups(s + [b]) == Groups(s) + Shifted(b, |s|)
  {
    assert (s + [b])[..|s|] == s;
  }

  /** After `i` steps the accumulator holds the first `i` groups; the tenth step wraps. */
  lemma DecodeStep(s: seq<byte>, i: nat)
    requires i < |s| && i < 10
    ensures Groups(s[..i]) < TWO_TO_64
    ensures OrBits(Groups(s[..i]), s[i], i) == Wrap(Groups(s[..i + 1]))
    ensures i < 9 ==> OrBits(Groups(s[..i]), s[i], i) == Groups(s[..i + 1])
  {
    hide OrBits, Shifted, Groups, Weight, Wrap;
    var t := s[..i];
    assert s[..i + 1] == t + [s[i]];
    GroupsBound(t);
    GroupsAppend(t, s[i]);
    OrIsSum(Groups(t), s[i], i);
    assert Groups(t) < TWO_TO_64 by { WeightMonotone(i, 9); WeightValues(); }
    if i < 9 {
      GroupsFit(s[..i + 1]);
      Remainder(0, Groups(s[..i + 1]));
    }
  }

  lemma DecodeFound(s: seq<byte>, i: nat)
    requires i < |s| && i < 10 && s[i] < 128 && forall j :: 0 <= j < i ==> s[j] >= 128
    ensures Decode(s) == Varint(Wrap(Groups(s[..i + 1])), i + 1)
  {
    DecodeAt(s, i + 1);
  }

  /** `decode_varint`: reads from `data[ptr..end]`; `next` is the position after the varint. */
  method DecodeVarint(data: seq<byte>, ptr: nat, end: nat) returns (ok: bool, next: nat, val: uint64)
    requires ptr <= end <= |data|
    ensures var d := Decode(data[ptr..end]);
            ok == d.Varint? && (ok ==> val == d.value && next == ptr + d.used)
    ensures next <= end
  {
    ghost var s := data[ptr..end];
    var res: uint64, i, p := 0, 0, ptr;
    while p < end
      invariant 0 <= i <= 9 && p == ptr + i <= end
      invariant forall j :: 0 <= j < i ==> s[j] >= 128
      invariant res == Groups(s[..i])
    {
      var b := data[p];
      assert b == s[i];
      p := p + 1;
      DecodeStep(s, i);
      res := OrBits(res, b, i);
      if b < 128 {
        DecodeFound(s, i);
        return true, p, res;
      }
      i := i + 1;
      if i * 7 >= 64 { break; }
    }
    NoVarint(s, i);
    ok, next, val := false, ptr, 0;
  }

  /** `ReadVarint`: the same number read byte by byte from a handle. When there is no varint
      the bytes looked at stay consumed. */
  method ReadVarint(fp: InHandle) returns (ok: bool, val: uint64)
    modifies fp
    ensures var d := Decode(old(fp.pending));
            ok == d.Varint? && val == (if ok then d.value else 0)
    ensures ok ==> Decode(old(fp.pending)).used <= |old(fp.pending)| &&
                   fp.pending == old(fp.pending)[Decode(old(fp.pending)).used..]
    ensures !ok ==> fp.pending == (if |old(fp.pending)| < 10 then [] else old(fp.pending)[10..])
  {
    ghost var s := fp.pending;
    var res: uint64, i := 0, 0;
    while i * 7 < 64
      invariant 0 <= i <= 10 && i <= |s|
      invariant fp.pending == s[i..]
      invariant forall j :: 0 <= j < i ==> s[j] >= 128
      invariant i < 10 ==> res == Groups(s[..i])
    {
      var got := fp.Read(1);
      if |got| != 1 {
        NoVarint(s, i);
        return false, 0;
      }
      var b := got[0];
      DecodeStep(s, i);
      res := OrBits(res, b, i);
      if b < 128 {
        DecodeFound(s, i);
        return true, res;
      }
      i := i + 1;
    }
    NoVarint(s, i);
    ok, val := false, 0;
  }

  lemma EncodeStep(done: seq<byte>, v: nat)
    ensures v < 128 ==> done + Encode(v) == done + [v]
    ensures v >= 128 ==> done + Encode(v) == (done + [v % 128 + 128]) + Encode(v / 128)
    ensures |done + Encode(v)| > |done|
  {
  }

  /** `WriteVarint`: fills a ten-byte buffer and writes its used part to the handle. */
  method WriteVarint(fp: OutHandle, v: uint64)
    modifies fp
    ensures var n := if |Encode(v)| <= old(fp.room) then |Encode(v)| else old(fp.room);
            fp.written == old(fp.written) + Encode(v)[..n] && fp.room == old(fp.room) - n
  {
    var buf := new byte[10];
    var i, val, more := 0, v as nat, true;
    assert |Encode(v)| <= 10 by { EncodeFits(v); }
    ghost var done: seq<byte> := [];
    while more
      invariant 0 <= i <= 10 && |done| == i && buf[..i] == done
      invariant if more then done + Encode(val) == Encode(v) else done == Encode(v)
      modifies buf
      decreases val, more
    {
      EncodeStep(done, val);
      var b: byte := val % 128;
      val := val / 128;
      if val > 0 { b := b + 128; }
      buf[i] := b;
      done := done + [b];
      i, more := i + 1, val > 0;
    }
    var n := fp.Write(buf[..i]);
  }
}
