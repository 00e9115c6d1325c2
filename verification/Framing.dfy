/** Messages on file handles: length-prefixed frames, and the unprefixed read to the end
    of the stream into a buffer that doubles. Payloads are the encoded messages. */
module Framing {
  import opened Streams
  import opened Strings
  import opened Varint
  import opened Bits

  // ---------------------------------------------------------------- specification

  /** The largest count an `SSize_t` holds. */
  const MAX_SSIZE: int := 0x7FFF_FFFF_FFFF_FFFF

  /** The cast of a `size_t` to `SSize_t`. */
  function Signed(n: uint64): (r: int)
    ensures n <= MAX_SSIZE ==> r == n
    ensures n > MAX_SSIZE ==> r < 0
  {
    if n <= MAX_SSIZE then n else n - TWO_TO_64
  }

  /** A payload that fits in memory. */
  predicate Fits(payload: seq<byte>) { |payload| <= MAX_SSIZE }

  function Frame(payload: seq<byte>): (r: seq<byte>) {
    Encode(|payload|) + payload
  }

  function Frames(payloads: seq<seq<byte>>): (r: seq<byte>) {
    if payloads == [] then [] else Frame(payloads[0]) + Frames(payloads[1..])
  }

  /** What one call of the reader comes to: undef (no length could be read), a croak about
      a short payload, the payload, or a shortage that goes unnoticed, when the decoder is
      told the declared length of a buffer with fewer bytes read into it. */
  datatype ReadResult =
    | Undef
    | Truncated(expected: nat, got: nat)
    | Payload(bytes: seq<byte>)
    | Overstated(declared: nat, arrived: seq<byte>)

  /** Reading `total` bytes when `rest` is left; the shortage is tested on signed counts. */
  function ReadPayload(rest: seq<byte>, total: uint64): (r: ReadResult) {
    if |rest| >= total then Payload(rest[..total])
    else if Signed(|rest|) < Signed(total) then Truncated(total, |rest|)
    else Overstated(total, rest)
  }

  /** The answer of the prefixed reader on what is left of the stream. */
  function NextFrame(s: seq<byte>): (r: ReadResult) {
    var d := Decode(s);
    if d.Nothing? then Undef
    else
      DecodeMeaning(s);
      ReadPayload(s[d.used..], d.value)
  }

  /** The bytes a successful read takes off the stream. */
  function FrameLength(s: seq<byte>): (n: nat)
    requires NextFrame(s).Payload?
    ensures 0 < n <= |s|
  {
    DecodeMeaning(s);
    Decode(s).used + Decode(s).value
  }

  datatype Session = Session(payloads: seq<seq<byte>>, end: ReadResult)

  /** Calling the reader until it stops giving payloads. */
  function ReadAll(s: seq<byte>): (r: Session)
    decreases |s|
  {
    var r := NextFrame(s);
    if !r.Payload? then Session([], r)
    else
      var more := ReadAll(s[FrameLength(s)..]);
      Session([r.bytes] + more.payloads, more.end)
  }

  // ---------------------------------------------------------------- properties

  lemma EndOfStream()
    ensures NextFrame([]) == Undef
  {
    NoVarint([], 0);
  }

  /** A payload that is shorter than declared is reported exactly when the declared length is
      at most 2^63 - 1 (or the stream has more bytes than that); a longer declaration is taken
      for a negative one, and the decoder gets it. */
  lemma ShortageReported(s: seq<byte>)
    requires Decode(s).Varint?
    ensures var d := Decode(s);
            && d.used <= |s|
            && var got := |s| - d.used;
               && (NextFrame(s).Payload? <==> got >= d.value)
               && (NextFrame(s).Truncated? <==> got < d.value && (d.value <= MAX_SSIZE || got > MAX_SSIZE))
               && (NextFrame(s).Overstated? <==> got <= MAX_SSIZE < d.value)
  {
    DecodeMeaning(s);
  }

  /** The reader says undef exactly when no length can be read: at the end of the stream, in the
      middle of a length, or when ten bytes make none. */
  lemma UndefExactly(s: seq<byte>)
    ensures NextFrame(s) == Undef <==> forall n :: 0 <= n <= |s| ==> !IsVarint(s[..n])
  {
    DecodeMeaning(s);
  }

  lemma ReadsOneFrame(payload: seq<byte>, rest: seq<byte>)
    requires Fits(payload)
    ensures NextFrame(Frame(payload) + rest) == Payload(payload)
    ensures FrameLength(Frame(payload) + rest) == |Frame(payload)|
  {
    var s := Frame(payload) + rest;
    RoundTrip(|payload|, payload + rest);
    assert s == Encode(|payload|) + (payload + rest);
    assert s[Decode(s).used..] == payload + rest;
  }

  lemma ReadAllStep(payload: seq<byte>, rest: seq<byte>)
    requires Fits(payload)
    ensures var more := ReadAll(rest);
            ReadAll(Frame(payload) + rest) == Session([payload] + more.payloads, more.end)
  {
    hide NextFrame, FrameLength, Frame;
    var s := Frame(payload) + rest;
    ReadsOneFrame(payload, rest);
    assert s[|Frame(payload)|..] == rest;
  }

  /** Whatever list of payloads was written, empty ones included, reading until the stream
      ends gives the same list in order and then undef. */
  lemma {:induction false} ReadAllRoundTrip(payloads: seq<seq<byte>>)
    requires forall i :: 0 <= i < |payloads| ==> Fits(payloads[i])
    ensures ReadAll(Frames(payloads)) == Session(payloads, Undef)
  {
    if payloads == [] {
      EndOfStream();
    } else {
      ReadAllStep(payloads[0], Frames(payloads[1..]));
      ReadAllRoundTrip(payloads[1..]);
    }
  }

  lemma ReadAllStops(s: seq<byte>)
    requires !NextFrame(s).Payload?
    ensures ReadAll(s) == Session([], NextFrame(s))
  {
  }

  /** How many whole frames fit in the first `cut` bytes. */
  function WholeFrames(payloads: seq<seq<byte>>, cut: nat): (n: nat)
    ensures n <= |payloads|
  {
    if payloads == [] || cut < |Frame(payloads[0])| then 0
    else 1 + WholeFrames(payloads[1..], cut - |Frame(payloads[0])|)
  }

  /** A stream cut off anywhere yields exactly the frames that lie wholly before the cut.
      The reader then croaks when the cut is inside or right before a non-empty payload; when
      it is inside a length or between frames it says undef, as at a proper end. */
  lemma {:induction false} ReadAllOfCutStream(payloads: seq<seq<byte>>, cut: nat)
    requires forall i :: 0 <= i < |payloads| ==> Fits(payloads[i])
    requires cut <= |Frames(payloads)|
    ensures var n := WholeFrames(payloads, cut);
            var into := cut - |Frames(payloads[..n])|;
            && ReadAll(Frames(payloads)[..cut]).payloads == payloads[..n]
            && 0 <= into && (n < |payloads| ==> into < |Frame(payloads[n])|)
            && ReadAll(Frames(payloads)[..cut]).end ==
               if n == |payloads| || into < |Encode(|payloads[n]|)| then Undef
               else Truncated(|payloads[n]|, into - |Encode(|payloads[n]|)|)
  {
    hide Encode, NextFrame, FrameLength, Frame, ReadAll;
    var s := Frames(payloads)[..cut];
    if payloads == [] {
      EndOfStream();
      ReadAllStops(s);
    } else if cut < |Frame(payloads[0])| {
      assert payloads[..0] == [];
      assert s == Frame(payloads[0])[..cut];
      CutFrame(payloads[0], cut);
      ReadAllStops(s);
    } else {
      var f, t := Frame(payloads[0]), payloads[1..];
      ReadAllOfCutStream(t, cut - |f|);
      var rest := Frames(t)[..cut - |f|];
      assert s == f + rest;
      ReadAllStep(payloads[0], rest);
      var n := WholeFrames(t, cut - |f|);
      assert payloads[..n + 1] == [payloads[0]] + t[..n];
      assert payloads[..n + 1][1..] == t[..n];
    }
  }

  lemma CutFrame(payload: seq<byte>, cut: nat)
    requires Fits(payload) && cut < |Frame(payload)|
    ensures NextFrame(Frame(payload)[..cut]) ==
            if cut < |Encode(|payload|)| then Undef else Truncated(|payload|, cut - |Encode(|payload|)|)
  {
    var e := Encode(|payload|);
    var s := Frame(payload)[..cut];
    EncodeFits(|payload|);
    if cut < |e| {
      forall i | 0 <= i < cut ensures s[i] >= 128 { assert s[i] == e[i]; }
      NoVarint(s, cut);
    } else {
      assert s == e + payload[..cut - |e|];
      RoundTrip(|payload|, payload[..cut - |e|]);
    }
  }

  // ---------------------------------------------------------------- the handle operations

  /** Two writes in a row leave on the device what one write of both would. */
  lemma JoinedWrite(done: seq<byte>, a: seq<byte>, b: seq<byte>, room: nat)
    ensures var n := if |a| <= room then |a| else room;
            var k := if |b| <= room - n then |b| else room - n;
            && n + k == (if |a + b| <= room then |a + b| else room)
            && (done + a[..n]) + b[..k] == done + (a + b)[..n + k]
  {
    var n := if |a| <= room then |a| else room;
    var k := if |b| <= room - n then |b| else room - n;
    assert (a + b)[..n + k] == a[..n] + b[..k];
    Reassociate(done, a[..n], b[..k]);
  }

  /** `PerlUpb_Message_ToHandle` on an encoded message. A short write of the payload is an
      error; a short write of the length alone goes unnoticed, which matters only when the
      payload is empty. */
  method ToHandle(fp: OutHandle, payload: seq<byte>, lengthPrefixed: bool) returns (ok: bool)
    requires Fits(payload)
    modifies fp
    ensures var all := if lengthPrefixed then Frame(payload) else payload;
            var n := if |all| <= old(fp.room) then |all| else old(fp.room);
            && fp.written == old(fp.written) + all[..n]
            && fp.room == old(fp.room) - n
            && (ok <==> n == |all| || payload == [])
  {
    if lengthPrefixed {
      EncodeFits(|payload|);
      WriteVarint(fp, |payload|);
    }
    JoinedWrite(old(fp.written), Encode(|payload|), payload, old(fp.room));
    hide Encode;
    if |payload| > 0 {
      var written := fp.Write(payload);
      if written < |payload| { return false; }
    }
    ok := true;
  }

  /** Writing a whole list to a device with room for it. */
  method WriteFrames(fp: OutHandle, payloads: seq<seq<byte>>)
    requires forall i :: 0 <= i < |payloads| ==> Fits(payloads[i])
    requires |Frames(payloads)| <= fp.room
    modifies fp
    ensures fp.written == old(fp.written) + Frames(payloads)
  {
    var k := 0;
    while k < |payloads|
      invariant 0 <= k <= |payloads|
      invariant fp.written + Frames(payloads[k..]) == old(fp.written) + Frames(payloads)
      invariant |Frames(payloads[k..])| <= fp.room
    {
      assert payloads[k..][1..] == payloads[k + 1..];
      var ok := ToHandle(fp, payloads[k], true);
      assert ok;
      assert Frame(payloads[k])[..|Frame(payloads[k])|] == Frame(payloads[k]);
      k := k + 1;
    }
  }

  /** The prefixed branch of `PerlUpb_Message_FromHandle`. */
  method FromHandle(fp: InHandle) returns (r: ReadResult)
    modifies fp
    ensures r == NextFrame(old(fp.pending))
    ensures r.Payload? ==> fp.pending == old(fp.pending)[FrameLength(old(fp.pending))..]
    ensures r.Truncated? || r.Overstated? ==> fp.pending == []
    ensures r.Undef? ==> fp.pending == (if |old(fp.pending)| < 10 then [] else old(fp.pending)[10..])
  {
    ghost var s := fp.pending;
    var ok, total := ReadVarint(fp);
    if !ok { return Undef; }
    ghost var rest := fp.pending;
    var buf := fp.Read(total);
    if Signed(|buf|) < Signed(total) { return Truncated(total, |buf|); }
    if |buf| < total { return Overstated(total, buf); } // no test in the code, which decodes either way
    assert s[FrameLength(s)..] == rest[total..];
    r := Payload(buf);
  }

  /** Reading messages until the reader gives no more. */
  method ReadFrames(fp: InHandle) returns (payloads: seq<seq<byte>>, end: ReadResult)
    modifies fp
    ensures Session(payloads, end) == ReadAll(old(fp.pending))
  {
    hide NextFrame, FrameLength;
    payloads := [];
    while true
      invariant ReadAll(old(fp.pending)) ==
                Session(payloads + ReadAll(fp.pending).payloads, ReadAll(fp.pending).end)
      decreases |fp.pending|
    {
      ghost var s := fp.pending;
      var r := FromHandle(fp);
      if !r.Payload? {
        assert payloads + [] == payloads;
        return payloads, r;
      }
      assert payloads + ([r.bytes] + ReadAll(fp.pending).payloads)
          == (payloads + [r.bytes]) + ReadAll(fp.pending).payloads;
      payloads := payloads + [r.bytes];
    }
  }

  /** 4096 doubled `k` times. */
  function Doubled(k: nat): (c: nat)
    ensures c >= 4096
  {
    if k == 0 then 4096 else 2 * Doubled(k - 1)
  }

  /** A new buffer of `capacity` bytes that starts with the old buffer's first `used`. */
  method Grow(buf: array<byte>, used: nat, capacity: nat) returns (newBuf: array<byte>)
    requires used <= buf.Length && used <= capacity
    ensures fresh(newBuf) && newBuf.Length == capacity && newBuf[..used] == buf[..used]
  {
    newBuf := new byte[capacity];
    CopyInto(newBuf, 0, buf[..used]);
  }

  /** The unprefixed branch of `PerlUpb_Message_FromHandle`: the whole stream, however the
      reads are split. Every read asks for at least one byte (`ReadSome` demands it); the
      buffer's capacity is 4096 times a power of two and, once grown, at most twice what
      has been read. */
  method FromHandleToEnd(fp: InHandle) returns (data: seq<byte>, capacity: nat)
    modifies fp
    ensures data == old(fp.pending) && fp.pending == []
    ensures exists k :: capacity == Doubled(k)
    ensures capacity <= 4096 || capacity <= 2 * |data|
    ensures |data| <= capacity
  {
    capacity := 4096;
    var totalRead := 0;
    var buf := new byte[capacity];
    ghost var k := 0;
    assert capacity == Doubled(k);
    while true
      invariant fresh(buf) && buf.Length == capacity == Doubled(k)
      invariant 0 <= totalRead <= capacity
      invariant capacity <= 4096 || capacity <= 2 * totalRead
      invariant buf[..totalRead] + fp.pending == old(fp.pending)
      decreases |fp.pending|
    {
      if totalRead == capacity {
        capacity, k := capacity * 2, k + 1;
        buf := Grow(buf, totalRead, capacity);
      }
      var got := fp.ReadSome(capacity - totalRead);
      if |got| <= 0 { break; }
      Reassociate(buf[..totalRead], got, fp.pending);
      ghost var before := buf[..totalRead];
      CopyInto(buf, totalRead, got);
      totalRead := totalRead + |got|;
      assert buf[..totalRead] == before + got;
    }
    data := buf[..totalRead];
    assert fp.pending == [] && data + [] == data;
    assert capacity == Doubled(k);
  }
}
