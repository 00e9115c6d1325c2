/** The unknown fields of a message: raw wire bytes held in chunks, and the scrubber that
    deletes one field number from them. */
module UnknownFields {
  import opened Streams
  import opened Varint
  import opened Bits

  // ---------------------------------------------------------------- specification

  /** One tag with its value, as raw bytes. */
  datatype Entry = Entry(number: nat, bytes: seq<byte>)

  datatype Head = NoEntry | Found(entry: Entry)

  /** Bytes taken by a value of the given wire type at the head of `s`, or -1. Groups (wire
      types 3 and 4) and the unassigned types 6 and 7 cannot be skipped. */
  function ValueLength(s: seq<byte>, wireType: nat): (r: int) {
    match wireType
    case 0 => if Decode(s).Varint? then Decode(s).used else -1
    case 1 => if |s| >= 8 then 8 else -1
    case 2 =>
      var d := Decode(s);
      if d.Varint? && |s| - d.used >= d.value then d.used + d.value else -1
    case 5 => if |s| >= 4 then 4 else -1
    case _ => -1
  }

  /** The entry at the head of `s`, if there is a complete one. */
  function HeadEntry(s: seq<byte>): (h: Head)
    ensures h.Found? ==> 0 < |h.entry.bytes| && h.entry.bytes <= s
  {
    var d := Decode(s);
    if d.Nothing? then NoEntry
    else
      DecodeMeaning(s);
      var n := ValueLength(s[d.used..], d.value % 8);
      if n < 0 then NoEntry
      else
        ValueLengthBound(s[d.used..], d.value % 8);
        Found(Entry(d.value / 8, s[..d.used + n]))
  }

  lemma ValueLengthBound(s: seq<byte>, wireType: nat)
    ensures ValueLength(s, wireType) <= |s|
  {
    DecodeMeaning(s);
  }

  /** The entries of the longest parseable prefix of a chunk. */
  function Parse(s: seq<byte>): (r: seq<Entry>)
    decreases |s|
  {
    var h := HeadEntry(s);
    if h.NoEntry? then [] else [h.entry] + Parse(s[|h.entry.bytes|..])
  }

  function ParseAll(chunks: seq<seq<byte>>): (r: seq<Entry>) {
    if chunks == [] then [] else ParseAll(chunks[..|chunks| - 1]) + Parse(chunks[|chunks| - 1])
  }

  function Bytes(es: seq<Entry>): (r: seq<byte>) {
    if es == [] then [] else es[0].bytes + Bytes(es[1..])
  }

  function Join(chunks: seq<seq<byte>>): (r: seq<byte>) {
    if chunks == [] then [] else Join(chunks[..|chunks| - 1]) + chunks[|chunks| - 1]
  }

  /** The entries with a different field number, in order. */
  function Without(es: seq<Entry>, tag: nat): (r: seq<Entry>) {
    if es == [] then []
    else (if es[0].number != tag then [es[0]] else []) + Without(es[1..], tag)
  }

  /** Everything of `chunks` is entries, with nothing left over in any chunk. */
  predicate FullyParseable(chunks: seq<seq<byte>>) {
    forall i :: 0 <= i < |chunks| ==> Bytes(Parse(chunks[i])) == chunks[i]
  }

  /** Each one is an entry by itself. */
  predicate WellFormed(es: seq<Entry>) {
    forall i :: 0 <= i < |es| ==> HeadEntry(es[i].bytes) == Found(es[i])
  }

  /** The chunks after deleting field number `tag`: at most one chunk. */
  function Deleted(chunks: seq<seq<byte>>, tag: nat): (r: seq<seq<byte>>) {
    var kept := Bytes(Without(ParseAll(chunks), tag));
    if kept == [] then [] else [kept]
  }

  // ---------------------------------------------------------------- entries are self-delimiting

  /** A value's length does not depend on the bytes after it. */
  lemma ValueLengthPrefix(s: seq<byte>, t: seq<byte>, wireType: nat)
    requires ValueLength(s, wireType) >= 0
    ensures ValueLength(s, wireType) <= |s|
    ensures ValueLength(s[..ValueLength(s, wireType)] + t, wireType) == ValueLength(s, wireType)
  {
    hide Decode;
    ValueLengthBound(s, wireType);
    var n := ValueLength(s, wireType);
    if wireType == 0 || wireType == 2 {
      var u := Decode(s).used;
      DecodePrefix(s, s[u..n] + t);
      assert s[..u] + (s[u..n] + t) == s[..n] + t;
    }
  }

  /** How an entry is found: a tag, then a value of the tag's wire type. */
  lemma HeadEntryParts(s: seq<byte>)
    ensures var d := Decode(s);
            if d.Nothing? then HeadEntry(s).NoEntry? else
              && d.used <= |s|
              && var n := ValueLength(s[d.used..], d.value % 8);
                 if n < 0 then HeadEntry(s).NoEntry? else
                   d.used + n <= |s| && HeadEntry(s) == Found(Entry(d.value / 8, s[..d.used + n]))
  {
  }

  /** An entry is recognised by its own bytes, whatever follows them. */
  lemma HeadEntryPrefix(s: seq<byte>, t: seq<byte>)
    requires HeadEntry(s).Found?
    ensures HeadEntry(HeadEntry(s).entry.bytes + t) == HeadEntry(s)
  {
    hide Decode, ValueLength, HeadEntry;
    HeadEntryParts(s);
    var d := Decode(s);
    var rest := s[d.used..];
    var n := ValueLength(rest, d.value % 8);
    ValueLengthPrefix(rest, t, d.value % 8);
    var b := s[..d.used + n] + t;
    assert b == s[..d.used] + (rest[..n] + t);
    DecodePrefix(s, rest[..n] + t);
    assert b[d.used..] == rest[..n] + t;
    HeadEntryParts(b);
    assert b[..d.used + n] == s[..d.used + n];
  }

  lemma {:induction false} ParseWellFormed(s: seq<byte>)
    ensures WellFormed(Parse(s))
    decreases |s|
  {
    var h := HeadEntry(s);
    if h.NoEntry? {
    } else {
      HeadEntryPrefix(s, []);
      assert h.entry.bytes + [] == h.entry.bytes;
      ParseWellFormed(s[|h.entry.bytes|..]);
    }
  }

  /** The scan takes the longest parseable prefix: what it returns spells a prefix of the
      input, and no entry starts where it stops. */
  lemma {:induction false} ParseLongest(s: seq<byte>)
    ensures Bytes(Parse(s)) <= s
    ensures HeadEntry(s[|Bytes(Parse(s))|..]).NoEntry?
    decreases |s|
  {
    hide HeadEntry, Bytes, Parse;
    var h := HeadEntry(s);
    if h.NoEntry? {
      ParseStop(s);
      NoBytes();
      assert s[0..] == s;
    } else {
      var n := |h.entry.bytes|;
      var rest := s[n..];
      ParseLongest(rest);
      HeadEntryPrefix(s, []);
      assert h.entry.bytes + [] == h.entry.bytes && s == h.entry.bytes + rest;
      ParseHead(h.entry, rest);
      BytesHead(h.entry, Parse(rest));
      assert s[|Bytes(Parse(s))|..] == rest[|Bytes(Parse(rest))|..];
    }
  }

  lemma NoBytes()
    ensures Bytes([]) == []
  {
  }

  /** That reading is the only one: any well-formed entries followed by bytes that start no
      entry are parsed as exactly those entries. */
  lemma {:induction false} ParseUnique(es: seq<Entry>, tail: seq<byte>)
    requires WellFormed(es) && HeadEntry(tail).NoEntry?
    ensures Parse(Bytes(es) + tail) == es
    decreases |es|
  {
    hide HeadEntry, Parse;
    if es == [] {
      ParseStop(tail);
      assert Bytes(es) + tail == tail;
    } else {
      WellFormedTail(es);
      ParseUnique(es[1..], tail);
      ParseHead(es[0], Bytes(es[1..]) + tail);
      assert Bytes(es) + tail == es[0].bytes + (Bytes(es[1..]) + tail);
    }
  }

  lemma WellFormedTail(es: seq<Entry>)
    requires WellFormed(es) && es != []
    ensures HeadEntry(es[0].bytes) == Found(es[0]) && 0 < |es[0].bytes|
    ensures WellFormed(es[1..])
  {
    var t := es[1..];
    forall i | 0 <= i < |t| ensures HeadEntry(t[i].bytes) == Found(t[i]) { assert t[i] == es[i + 1]; }
  }

  lemma ParseStop(s: seq<byte>)
    requires HeadEntry(s).NoEntry?
    ensures Parse(s) == []
  {
  }

  lemma ParseHead(e: Entry, rest: seq<byte>)
    requires HeadEntry(e.bytes) == Found(e)
    ensures Parse(e.bytes + rest) == [e] + Parse(rest)
  {
    HeadEntryPrefix(e.bytes, rest);
    assert (e.bytes + rest)[|e.bytes|..] == rest;
  }

  lemma ParseBytes(es: seq<Entry>)
    requires WellFormed(es)
    ensures Parse(Bytes(es)) == es
  {
    assert HeadEntry([]).NoEntry?;
    ParseUnique(es, []);
    assert Bytes(es) + [] == Bytes(es);
  }

  // ---------------------------------------------------------------- the formats

  /** A tag followed by a value that its wire type delimits. */
  lemma TagAndValue(number: nat, wireType: nat, value: seq<byte>, rest: seq<byte>)
    requires wireType < 8 && 8 * number + wireType < TWO_TO_64
    requires ValueLength(value + rest, wireType) == |value|
    ensures var tag := Encode(8 * number + wireType);
            HeadEntry(tag + value + rest) == Found(Entry(number, tag + value))
  {
    hide ValueLength, HeadEntry, Encode, Decode;
    var v := 8 * number + wireType;
    var tag := Encode(v);
    var s := tag + value + rest;
    assert s == tag + (value + rest);
    RoundTrip(v, value + rest);
    HeadEntryParts(s);
    assert s[|tag|..] == value + rest && s[..|tag| + |value|] == tag + value;
    assert v / 8 == number && v % 8 == wireType;
  }

  lemma TagAlone(number: nat, wireType: nat, rest: seq<byte>)
    requires wireType < 8 && 8 * number + wireType < TWO_TO_64 && ValueLength(rest, wireType) < 0
    ensures HeadEntry(Encode(8 * number + wireType) + rest).NoEntry?
  {
    hide ValueLength, HeadEntry, Encode, Decode;
    var v := 8 * number + wireType;
    RoundTrip(v, rest);
    HeadEntryParts(Encode(v) + rest);
    assert (Encode(v) + rest)[|Encode(v)|..] == rest;
    assert v % 8 == wireType;
  }

  /** Wire type 0: the tag, then a varint, canonical or not. */
  lemma VarintEntry(number: nat, value: seq<byte>, rest: seq<byte>)
    requires 8 * number < TWO_TO_64 && IsVarint(value)
    ensures HeadEntry(Encode(8 * number) + value + rest) == Found(Entry(number, Encode(8 * number) + value))
  {
    assert (value + rest)[..|value|] == value;
    DecodeAt(value + rest, |value|);
    TagAndValue(number, 0, value, rest);
  }

  /** Wire type 1: the tag, then exactly eight bytes. */
  lemma Fixed64Entry(number: nat, value: seq<byte>, rest: seq<byte>)
    requires 8 * number + 1 < TWO_TO_64
    ensures |value| == 8 ==>
              HeadEntry(Encode(8 * number + 1) + value + rest) == Found(Entry(number, Encode(8 * number + 1) + value))
    ensures |rest| < 8 ==> HeadEntry(Encode(8 * number + 1) + rest).NoEntry?
  {
    if |value| == 8 { TagAndValue(number, 1, value, rest); }
    if |rest| < 8 { TagAlone(number, 1, rest); }
  }

  /** Wire type 5: the tag, then exactly four bytes. */
  lemma Fixed32Entry(number: nat, value: seq<byte>, rest: seq<byte>)
    requires 8 * number + 5 < TWO_TO_64
    ensures |value| == 4 ==>
              HeadEntry(Encode(8 * number + 5) + value + rest) == Found(Entry(number, Encode(8 * number + 5) + value))
    ensures |rest| < 4 ==> HeadEntry(Encode(8 * number + 5) + rest).NoEntry?
  {
    if |value| == 4 { TagAndValue(number, 5, value, rest); }
    if |rest| < 4 { TagAlone(number, 5, rest); }
  }

  /** Wire type 2: the tag, a length, and as many bytes; fewer are no entry. */
  lemma DelimitedEntry(number: nat, value: seq<byte>, rest: seq<byte>, declared: uint64)
    requires 8 * number + 2 < TWO_TO_64
    ensures |value| == declared ==>
              var tag := Encode(8 * number + 2);
              HeadEntry(tag + (Encode(declared) + value) + rest) == Found(Entry(number, tag + (Encode(declared) + value)))
    ensures |rest| < declared ==> HeadEntry(Encode(8 * number + 2) + (Encode(declared) + rest)).NoEntry?
  {
    hide Encode, HeadEntry, Decode;
    if |value| == declared {
      RoundTrip(declared, value + rest);
      assert Encode(declared) + value + rest == Encode(declared) + (value + rest);
      TagAndValue(number, 2, Encode(declared) + value, rest);
    }
    if |rest| < declared {
      RoundTrip(declared, rest);
      TagAlone(number, 2, Encode(declared) + rest);
    }
  }

  /** Groups and the unassigned wire types start no entry, and neither does anything that does
      not begin with a varint. */
  lemma NoOtherEntry(number: nat, wireType: nat, rest: seq<byte>)
    requires wireType == 3 || wireType == 4 || wireType == 6 || wireType == 7
    requires 8 * number + wireType < TWO_TO_64
    ensures HeadEntry(Encode(8 * number + wireType) + rest).NoEntry?
    ensures Decode(rest).Nothing? ==> HeadEntry(rest).NoEntry? && HeadEntry(Encode(8 * number) + rest).NoEntry?
  {
    TagAlone(number, wireType, rest);
    HeadEntryParts(rest);
    if Decode(rest).Nothing? { TagAlone(number, 0, rest); }
  }

  // ---------------------------------------------------------------- filtering

  lemma {:induction false} BytesAppend(es: seq<Entry>, fs: seq<Entry>)
    ensures Bytes(es + fs) == Bytes(es) + Bytes(fs)
  {
    if es == [] {
      assert es + fs == fs;
    } else {
      assert (es + fs)[1..] == es[1..] + fs;
      BytesAppend(es[1..], fs);
    }
  }

  lemma {:induction false} WithoutAppend(es: seq<Entry>, fs: seq<Entry>, tag: nat)
    ensures Without(es + fs, tag) == Without(es, tag) + Without(fs, tag)
  {
    if es == [] {
      assert es + fs == fs;
    } else {
      assert (es + fs)[1..] == es[1..] + fs;
      WithoutAppend(es[1..], fs, tag);
    }
  }

  lemma {:induction false} WithoutTwice(es: seq<Entry>, tag: nat, other: nat)
    ensures Without(Without(es, tag), tag) == Without(es, tag)
    ensures Without(Without(es, tag), other) == Without(Without(es, other), tag)
  {
    if es == [] {
    } else {
      var t := es[1..];
      WithoutTwice(t, tag, other);
      WithoutHead(es[0], Without(t, tag), other);
      WithoutHead(es[0], Without(t, tag), tag);
      WithoutHead(es[0], Without(t, other), tag);
    }
  }

  lemma {:induction false} WithoutWellFormed(es: seq<Entry>, tag: nat)
    requires WellFormed(es)
    ensures WellFormed(Without(es, tag))
  {
    if es == [] {
    } else {
      WellFormedTail(es);
      WithoutWellFormed(es[1..], tag);
    }
  }

  predicate Lacks(es: seq<Entry>, tag: nat) {
    forall i :: 0 <= i < |es| ==> es[i].number != tag
  }

  lemma {:induction false} WithoutShrinks(es: seq<Entry>, tag: nat)
    requires WellFormed(es)
    ensures |Bytes(Without(es, tag))| <= |Bytes(es)|
    ensures if Lacks(es, tag) then Without(es, tag) == es else |Bytes(Without(es, tag))| < |Bytes(es)|
  {
    hide HeadEntry;
    if es == [] {
    } else {
      var e, t := es[0], es[1..];
      WellFormedTail(es);
      WithoutShrinks(t, tag);
      assert es == [e] + t;
      WithoutHead(e, t, tag);
      BytesHead(e, t);
      BytesHead(e, Without(t, tag));
      assert [] + Without(t, tag) == Without(t, tag);
      assert Lacks(es, tag) <==> e.number != tag && Lacks(t, tag) by { LacksHead(e, t, tag); }
    }
  }

  lemma LacksHead(e: Entry, es: seq<Entry>, tag: nat)
    ensures Lacks([e] + es, tag) <==> e.number != tag && Lacks(es, tag)
  {
    var all := [e] + es;
    assert all[0] == e;
    if Lacks(all, tag) {
      forall i | 0 <= i < |es| ensures es[i].number != tag { assert all[i + 1] == es[i]; }
    }
  }

  lemma BytesHead(e: Entry, es: seq<Entry>)
    ensures Bytes([e] + es) == e.bytes + Bytes(es)
  {
    assert ([e] + es)[1..] == es;
  }

  lemma WithoutHead(e: Entry, es: seq<Entry>, tag: nat)
    ensures Without([e] + es, tag) == (if e.number != tag then [e] else []) + Without(es, tag)
    ensures Without([] + es, tag) == Without(es, tag)
  {
    assert ([e] + es)[1..] == es;
    assert [] + es == es;
  }

  lemma {:induction false} ParseAllFacts(chunks: seq<seq<byte>>)
    ensures WellFormed(ParseAll(chunks))
    ensures |Bytes(ParseAll(chunks))| <= |Join(chunks)|
    ensures FullyParseable(chunks) ==> Bytes(ParseAll(chunks)) == Join(chunks)
    ensures !FullyParseable(chunks) ==> |Bytes(ParseAll(chunks))| < |Join(chunks)|
  {
    hide Parse, WellFormed, FullyParseable, Bytes;
    if chunks == [] {
      NoChunks();
    } else {
      var init, last := chunks[..|chunks| - 1], chunks[|chunks| - 1];
      ParseAllFacts(init);
      ParseWellFormed(last);
      ParseLongest(last);
      BytesAppend(ParseAll(init), Parse(last));
      WellFormedAppend(ParseAll(init), Parse(last));
      FullyAppend(init, last);
      assert chunks == init + [last];
    }
  }

  lemma NoChunks()
    ensures WellFormed([]) && Bytes([]) == [] && FullyParseable([])
  {
  }

  lemma WellFormedAppend(es: seq<Entry>, fs: seq<Entry>)
    requires WellFormed(es) && WellFormed(fs)
    ensures WellFormed(es + fs)
  {
  }

  lemma FullyAppend(init: seq<seq<byte>>, last: seq<byte>)
    ensures FullyParseable(init + [last]) <==> FullyParseable(init) && Bytes(Parse(last)) == last
  {
    hide Parse, Bytes;
    var all := init + [last];
    assert all[|init|] == last;
    if FullyParseable(all) {
      forall i | 0 <= i < |init| ensures Bytes(Parse(init[i])) == init[i] { assert all[i] == init[i]; }
    }
  }

  // ---------------------------------------------------------------- main results

  /** Parsing the chunks left by a deletion gives the kept entries, although all of them
      now sit in one chunk. */
  lemma DeletedEntries(chunks: seq<seq<byte>>, tag: nat)
    ensures ParseAll(Deleted(chunks, tag)) == Without(ParseAll(chunks), tag)
    ensures Join(Deleted(chunks, tag)) == Bytes(Without(ParseAll(chunks), tag))
  {
    var es := Without(ParseAll(chunks), tag);
    ParseAllFacts(chunks);
    WithoutWellFormed(ParseAll(chunks), tag);
    ParseBytes(es);
    if es != [] { WellFormedTail(es); }
    if Bytes(es) != [] {
      var one := [Bytes(es)];
      assert one[..0] == [];
      assert ParseAll(one) == [] + Parse(Bytes(es));
      assert Join(one) == [] + Bytes(es);
    }
  }

  lemma DeleteIdempotent(chunks: seq<seq<byte>>, tag: nat)
    ensures Deleted(Deleted(chunks, tag), tag) == Deleted(chunks, tag)
  {
    DeletedEntries(chunks, tag);
    WithoutTwice(ParseAll(chunks), tag, tag);
  }

  lemma DeleteCommutes(chunks: seq<seq<byte>>, tag: nat, other: nat)
    ensures Deleted(Deleted(chunks, tag), other) == Deleted(Deleted(chunks, other), tag)
  {
    DeletedEntries(chunks, tag);
    DeletedEntries(chunks, other);
    WithoutTwice(ParseAll(chunks), tag, other);
  }

  /** Deleting a number changes no byte exactly when every chunk parses to its end and no
      entry carries the number; in every other case bytes are lost. */
  lemma DeleteLeavesData(chunks: seq<seq<byte>>, tag: nat)
    ensures Join(Deleted(chunks, tag)) == Join(chunks)
            <==> FullyParseable(chunks) && Lacks(ParseAll(chunks), tag)
    ensures Join(Deleted(chunks, tag)) != Join(chunks) ==> |Join(Deleted(chunks, tag))| < |Join(chunks)|
  {
    DeletedEntries(chunks, tag);
    ParseAllFacts(chunks);
    WithoutShrinks(ParseAll(chunks), tag);
  }

  /** What deletion promises about a message whose unknown data was assembled from entries:
      however the entries are grouped into chunks, exactly those of other numbers remain,
      byte for byte and in order. */
  lemma {:induction false} DeleteFromGroups(groups: seq<seq<Entry>>, tag: nat)
    requires forall i :: 0 <= i < |groups| ==> WellFormed(groups[i])
    ensures Join(Deleted(seq(|groups|, i requires 0 <= i < |groups| => Bytes(groups[i])), tag))
            == Bytes(Without(Ungroup(groups), tag))
  {
    var chunks := seq(|groups|, i requires 0 <= i < |groups| => Bytes(groups[i]));
    DeletedEntries(chunks, tag);
    ParseGroups(groups, chunks);
  }

  function Ungroup(groups: seq<seq<Entry>>): (r: seq<Entry>) {
    if groups == [] then [] else Ungroup(groups[..|groups| - 1]) + groups[|groups| - 1]
  }

  lemma {:induction false} ParseGroups(groups: seq<seq<Entry>>, chunks: seq<seq<byte>>)
    requires |chunks| == |groups|
    requires forall i :: 0 <= i < |groups| ==> WellFormed(groups[i]) && chunks[i] == Bytes(groups[i])
    ensures ParseAll(chunks) == Ungroup(groups)
  {
    if groups == [] {
    } else {
      ParseGroups(groups[..|groups| - 1], chunks[..|chunks| - 1]);
      ParseBytes(groups[|groups| - 1]);
    }
  }

  // ---------------------------------------------------------------- the scrubber

  /** `skip_value`: the position after the value that starts at `ptr`, or -1. */
  method SkipValue(data: seq<byte>, ptr: nat, end: nat, wireType: nat) returns (next: int)
    requires ptr <= end <= |data| && wireType < 8
    ensures var n := ValueLength(data[ptr..end], wireType);
            next == if n < 0 then -1 else ptr + n
    ensures next <= end
  {
    ValueLengthBound(data[ptr..end], wireType);
    match wireType
    case 0 =>
      var ok, p, _ := DecodeVarint(data, ptr, end);
      return if ok then p else -1;
    case 1 =>
      return if end - ptr < 8 then -1 else ptr + 8;
    case 2 =>
      var ok, p, len := DecodeVarint(data, ptr, end);
      return if !ok || end - p < len then -1 else p + len;
    case 5 =>
      return if end - ptr < 4 then -1 else ptr + 4;
    case _ =>
      return -1;
  }

  class UnknownFieldSet {
    /** The unknown chunks of the message, in the order the message iterates them. */
    var chunks: seq<seq<byte>>

    constructor (chunks: seq<seq<byte>>)
      ensures this.chunks == chunks
    {
      this.chunks := chunks;
    }

    /** `PerlUpb_UnknownFieldSet_GetData`: sizes a buffer in one pass, fills it in another. */
    method GetData() returns (data: seq<byte>)
      ensures data == Join(chunks)
    {
      var total := TotalSize();
      if total == 0 { return []; }
      var buf, offset, k := new byte[total], 0, 0;
      while k < |chunks|
        invariant 0 <= k <= |chunks|
        invariant offset == |Join(chunks[..k])| <= total && buf[..offset] == Join(chunks[..k])
      {
        JoinStep(chunks, k);
        CopyInto(buf, offset, chunks[k]);
        offset, k := offset + |chunks[k]|, k + 1;
      }
      assert chunks[..k] == chunks;
      data := buf[..];
    }

    method TotalSize() returns (total: nat)
      ensures total == |Join(chunks)|
    {
      total := 0;
      var k := 0;
      while k < |chunks|
        invariant 0 <= k <= |chunks| && total == |Join(chunks[..k])|
      {
        JoinStep(chunks, k);
        total, k := total + |chunks[k]|, k + 1;
      }
      assert chunks[..k] == chunks;
    }

    /** `PerlUpb_UnknownFieldSet_DeleteTag`: copies the entries to keep into a buffer of the
        total size, which is never exceeded, and puts them back as one chunk. */
    method DeleteTag(tag: nat)
      modifies this
      ensures chunks == Deleted(old(chunks), tag)
    {
      hide Without, ParseAll, Parse;
      var total := TotalSize();
      DeleteStart(tag);
      var newData, newSize, k := new byte[total], 0, 0;
      while k < |chunks|
        invariant 0 <= k <= |chunks| && chunks == old(chunks)
        invariant newSize <= |Join(chunks[..k])|
        invariant newSize <= total && newData[..newSize] == Bytes(Without(ParseAll(chunks[..k]), tag))
        modifies newData
      {
        JoinStep(chunks, k);
        newSize := ScrubChunk(chunks[k], tag, newData, newSize);
        DeleteStep(chunks, k, tag);
        k := k + 1;
      }
      assert chunks[..k] == chunks;
      chunks := [];
      if newSize > 0 { chunks := [newData[..newSize]]; }
    }
  }

  lemma {:induction false} JoinStep(chunks: seq<seq<byte>>, k: nat)
    requires k < |chunks|
    ensures Join(chunks[..k + 1]) == Join(chunks[..k]) + chunks[k]
    ensures |Join(chunks[..k])| + |chunks[k]| <= |Join(chunks)|
    decreases |chunks|
  {
    assert chunks[..k + 1][..k] == chunks[..k];
    if k + 1 < |chunks| {
      var init := chunks[..|chunks| - 1];
      JoinStep(init, k);
      assert init[..k] == chunks[..k];
    } else {
      assert chunks[..k + 1] == chunks;
    }
  }

  lemma DeleteStart(tag: nat)
    ensures Bytes(Without(ParseAll([]), tag)) == []
  {
  }

  lemma DeleteStep(chunks: seq<seq<byte>>, k: nat, tag: nat)
    requires k < |chunks|
    ensures Bytes(Without(ParseAll(chunks[..k + 1]), tag))
            == Bytes(Without(ParseAll(chunks[..k]), tag)) + Bytes(Without(Parse(chunks[k]), tag))
  {
    assert chunks[..k + 1][..k] == chunks[..k];
    WithoutAppend(ParseAll(chunks[..k]), Parse(chunks[k]), tag);
    BytesAppend(Without(ParseAll(chunks[..k]), tag), Without(Parse(chunks[k]), tag));
  }

  /** The inner loop of `DeleteTag`: scans one chunk up to the first byte that starts no
      complete entry. */
  method ScrubChunk(chunk: seq<byte>, tag: nat, newData: array<byte>, start: nat) returns (newSize: nat)
    requires start + |chunk| <= newData.Length
    modifies newData
    ensures start <= newSize <= start + |chunk|
    ensures newData[..newSize] == old(newData[..start]) + Bytes(Without(Parse(chunk), tag))
  {
    hide *;
    newSize := start;
    var ptr, end := 0, |chunk|;
    assert chunk[0..] == chunk;
    ghost var kept: seq<Entry> := [];
    BytesSnoc(kept, Entry(0, []));
    while ptr < end
      invariant ptr <= end && start <= newSize <= start + ptr
      invariant newData[..newSize] == old(newData[..start]) + Bytes(kept)
      invariant Without(Parse(chunk), tag) == kept + Without(Parse(chunk[ptr..]), tag)
      decreases end - ptr
    {
      var found, entryEnd, number := NextEntry(chunk, ptr);
      if !found { break; }
      ghost var e := Entry(number, chunk[ptr..entryEnd]);
      assert chunk[ptr..][|e.bytes|..] == chunk[entryEnd..];
      ParseStep(chunk[ptr..], e, tag);
      if number != tag {
        CopyInto(newData, newSize, chunk[ptr..entryEnd]);
        BytesSnoc(kept, e);
        newSize, kept := newSize + (entryEnd - ptr), kept + [e];
      }
      ptr := entryEnd;
    }
    ScanEnds(chunk[ptr..], tag);
    assert kept + [] == kept;
  }

  lemma ScanEnds(s: seq<byte>, tag: nat)
    ensures s == [] ==> HeadEntry(s).NoEntry?
    ensures HeadEntry(s).NoEntry? ==> Without(Parse(s), tag) == []
  {
    HeadEntryParts(s);
  }

  lemma BytesSnoc(es: seq<Entry>, e: Entry)
    ensures Bytes([]) == [] && Bytes(es + [e]) == Bytes(es) + e.bytes
  {
    BytesAppend(es, [e]);
    assert Bytes([e]) == e.bytes + Bytes([]);
  }

  /** One tag and the value after it, or the reason to stop scanning the chunk. */
  method NextEntry(chunk: seq<byte>, ptr: nat) returns (found: bool, entryEnd: nat, number: nat)
    requires ptr < |chunk|
    ensures found == HeadEntry(chunk[ptr..]).Found?
    ensures found ==> ptr < entryEnd <= |chunk| &&
                      HeadEntry(chunk[ptr..]) == Found(Entry(number, chunk[ptr..entryEnd]))
  {
    hide Decode, ValueLength, HeadEntry;
    var end := |chunk|;
    ghost var rest := chunk[ptr..];
    assert rest == chunk[ptr..end];
    HeadEntryParts(rest);
    var ok, tagEnd, entryTag := DecodeVarint(chunk, ptr, end);
    if !ok { return false, ptr, 0; }
    assert rest[tagEnd - ptr..] == chunk[tagEnd..end];
    var next := SkipValue(chunk, tagEnd, end, entryTag % 8);
    if next < 0 { return false, ptr, 0; }
    assert rest[..next - ptr] == chunk[ptr..next];
    found, entryEnd, number := true, next, entryTag / 8;
  }

  lemma ParseStep(s: seq<byte>, e: Entry, tag: nat)
    requires HeadEntry(s) == Found(e)
    ensures |e.bytes| <= |s|
    ensures Without(Parse(s), tag) == (if e.number != tag then [e] else []) + Without(Parse(s[|e.bytes|..]), tag)
  {
    WithoutHead(e, Parse(s[|e.bytes|..]), tag);
  }
}
