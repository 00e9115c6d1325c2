/** The linear block allocator on its canary path: bump allocation out of one region, with
    sixteen guard bytes before and after every block. Pointers are positions in the region. */
module BlockAlloc {
  import opened Streams
  import opened Options
  import opened Bits

  /** The pattern 0xDEADBEEFCAFEBABE as it lies in memory, in two halves. */
  function Pattern(): (w: seq<byte>)
    ensures |w| == 8
  {
    [0xBE, 0xBA, 0xFE, 0xCA] + [0xEF, 0xBE, 0xAD, 0xDE]
  }

  /** The pattern twice. */
  function Canary(): (c: seq<byte>)
    ensures |c| == 16
  {
    Pattern() + Pattern()
  }

  // ---------------------------------------------------------------- specification

  /** A block handed out: where its user area starts, and how long it is. */
  datatype Block = Block(user: nat, size: nat)

  datatype State = State(mem: seq<byte>, offset: nat, poisoned: bool, blocks: seq<Block>)

  /** What a call ends in; a croak says which canary was found damaged. */
  datatype Outcome = Null | Croaked(underflow: bool) | Pointer(p: nat)

  /** What a block takes from the region: itself and two canaries, rounded up to sixteen. */
  function Aligned(size: nat): (n: nat)
    ensures n % 16 == 0 && size + 32 <= n <= size + 47
  {
    (size + 32 + 15) / 16 * 16
  }

  /** The same as the code computes it on `size_t`s, whose sums may wrap. */
  function AlignedWord(size: uint64): (n: uint64) {
    Wrap(Wrap(size + 32) + 15) / 16 * 16
  }

  /** The code's test that the block fits. */
  predicate PassesTest(offset: nat, size: uint64, limit: uint64) {
    Wrap(offset + AlignedWord(size)) <= limit
  }

  /** What `AlignedWord` gives when its sums wrap. */
  function Remnant(size: uint64): (n: nat) {
    if size <= 0xFFFF_FFFF_FFFF_FFE0 then 0 else if size <= 0xFFFF_FFFF_FFFF_FFF0 then 16 else 32
  }

  /** Below the bound the code's sums are exact, and the test passes exactly for blocks that
      fit. From it on none fits, but the test passes for all sizes but the last 31, and for
      those too when the few bytes left of their sum pass: then a block is handed out that
      lies beyond the region. */
  lemma WrapExactly(offset: nat, size: uint64, limit: uint64)
    requires offset <= limit && offset % 16 == 0
    ensures offset + size + 47 < TWO_TO_64 ==> (PassesTest(offset, size, limit) <==> offset + Aligned(size) <= limit)
    ensures PassesTest(offset, size, limit) && offset + Aligned(size) > limit <==>
            && offset + size + 47 >= TWO_TO_64
            && (Remnant(size) == 0 || Wrap(offset + Remnant(size)) <= limit)
  {
    hide Wrap, AlignedWord;
    WordOf(size);
    var word := if size + 47 < TWO_TO_64 then Aligned(size) else Remnant(size);
    WrapFacts(offset + word);
    RoundedReach(offset, size);
  }

  lemma WordOf(size: uint64)
    ensures AlignedWord(size) == if size + 47 < TWO_TO_64 then Aligned(size) else Remnant(size)
    ensures size + 47 >= TWO_TO_64 ==> Aligned(size) >= TWO_TO_64
    ensures size + 47 < TWO_TO_64 ==> Remnant(size) == 0 && Aligned(size) <= 0xFFFF_FFFF_FFFF_FFF0
  {
    hide Wrap;
    WrapFacts(size + 32);
    WrapFacts(Wrap(size + 32) + 15);
  }

  /** Rounding does not move a size across a multiple of sixteen. */
  lemma RoundedReach(offset: nat, size: nat)
    requires offset % 16 == 0
    ensures offset + Aligned(size) >= TWO_TO_64 <==> offset + size + 47 >= TWO_TO_64
  {
    var k, n := offset / 16, size + 47;
    assert offset == 16 * k && n == 16 * (n / 16) + n % 16;
  }

  lemma WordExact(offset: nat, size: nat)
    requires offset + size + 47 < TWO_TO_64
    ensures AlignedWord(size) == Aligned(size) && Wrap(offset + AlignedWord(size)) == offset + Aligned(size)
  {
    hide Wrap, AlignedWord;
    WordOf(size);
    WrapFacts(offset + Aligned(size));
  }

  function WriteAt(mem: seq<byte>, pos: nat, bytes: seq<byte>): (r: seq<byte>)
    requires pos + |bytes| <= |mem|
    ensures |r| == |mem|
  {
    mem[..pos] + bytes + mem[pos + |bytes|..]
  }

  /** The memory at `pos` reads as `bytes`. */
  predicate Holds(mem: seq<byte>, pos: nat, bytes: seq<byte>) {
    pos + |bytes| <= |mem| && mem[pos..pos + |bytes|] == bytes
  }

  /** The canary before a block is in the region, as it was written. */
  predicate FrontIntact(mem: seq<byte>, b: Block) {
    b.user >= 16 && Holds(mem, b.user - 16, Canary())
  }

  /** Both canaries of a block are. */
  predicate Intact(mem: seq<byte>, b: Block) {
    FrontIntact(mem, b) && Holds(mem, b.user + b.size, Canary())
  }

  /** The memory with both canaries of a block written. */
  function Guarded(mem: seq<byte>, b: Block): (r: seq<byte>)
    requires 16 <= b.user && b.user + b.size + 16 <= |mem|
    ensures |r| == |mem|
  {
    WriteAt(WriteAt(mem, b.user - 16, Canary()), b.user + b.size, Canary())
  }

  function Alloc(s: State, size: nat): (r: (State, Outcome)) {
    if s.offset + Aligned(size) > |s.mem| then (s, Null)
    else
      var b := Block(s.offset + 16, size);
      (State(Guarded(s.mem, b), s.offset + Aligned(size), s.poisoned, s.blocks + [b]), Pointer(b.user))
  }

  function Min(a: nat, b: nat): (m: nat)
    ensures m <= a && m <= b && (m == a || m == b)
  {
    if a < b then a else b
  }

  /** A new block that starts with the contents of the old one, as far as they fit. */
  function Realloc(s: State, b: Block, size: nat): (r: (State, Outcome))
    requires b.user + b.size <= |s.mem|
  {
    var (t, r) := Alloc(s, size);
    if r.Pointer? then
      (t.(mem := WriteAt(t.mem, r.p, t.mem[b.user..b.user + Min(b.size, size)])), r)
    else (t, r)
  }

  /** One call of the allocator function, with the pointer of a block or without one. */
  function Request(s: State, ptr: Option<Block>, size: nat): (r: (State, Outcome))
    requires Legal(s, ptr, size)
  {
    if s.poisoned then (s, Null)
    else if ptr.Some? && !Intact(s.mem, ptr.value) then
      (s.(poisoned := true), Croaked(!FrontIntact(s.mem, ptr.value)))
    else if size == 0 then (s, Null)
    else if ptr.Some? then
      BlockWithin(s, ptr.value);
      Realloc(s, ptr.value, size)
    else Alloc(s, size)
  }

  /** A request the caller may make: the pointer, if any, was handed out with that size, and
      the sums the allocator forms fit a `size_t`. */
  predicate Legal(s: State, ptr: Option<Block>, size: nat) {
    Inv(s) && (ptr.Some? ==> ptr.value in s.blocks) && s.offset + size + 47 < TWO_TO_64
  }

  /** Where the next block would start if exactly `blocks` had been handed out. */
  function End(blocks: seq<Block>): (r: nat) {
    if blocks == [] then 0 else End(blocks[..|blocks| - 1]) + Aligned(blocks[|blocks| - 1].size)
  }

  /** The blocks with their canaries tile the region from its start up to `offset`. */
  predicate Inv(s: State) {
    && s.offset == End(s.blocks) && s.offset <= |s.mem|
    && forall i :: 0 <= i < |s.blocks| ==> Follows(s.blocks, i)
  }

  /** Block `i` starts where the ones before it end. */
  predicate Follows(blocks: seq<Block>, i: nat)
    requires i < |blocks|
  {
    blocks[i].user == End(blocks[..i]) + 16 && blocks[i].size > 0
  }

  // ---------------------------------------------------------------- tiling

  lemma {:induction false} EndGrows(blocks: seq<Block>, i: nat, j: nat)
    requires i <= j <= |blocks|
    ensures End(blocks[..i]) <= End(blocks[..j])
    ensures i < j ==> End(blocks[..i]) + Aligned(blocks[i].size) <= End(blocks[..j])
    decreases j - i
  {
    if i >= j {
    } else {
      EndGrows(blocks, i, j - 1);
      assert blocks[..j][..j - 1] == blocks[..j - 1];
    }
  }

  lemma {:induction false} EndAligned(blocks: seq<Block>)
    ensures End(blocks) % 16 == 0
  {
    hide Aligned;
    if blocks == [] {
    } else {
      EndAligned(blocks[..|blocks| - 1]);
    }
  }

  /** Every block, canaries included, lies inside the used part of the region, and two
      different blocks do not even share a canary. */
  lemma BlocksApart(s: State, i: nat, j: nat)
    requires Inv(s) && i < |s.blocks| && j < |s.blocks|
    ensures s.offset % 16 == 0 && s.offset <= |s.mem|
    ensures 16 <= s.blocks[i].user && s.blocks[i].user + s.blocks[i].size + 16 <= s.offset
    ensures s.blocks[i].user % 16 == 0 && s.blocks[i].size > 0
    ensures i < j ==> s.blocks[i].user + s.blocks[i].size + 16 <= s.blocks[j].user - 16
  {
    hide End;
    hide Aligned;
    assert Follows(s.blocks, i) && Follows(s.blocks, j);
    EndGrows(s.blocks, i, |s.blocks|);
    assert s.blocks[..|s.blocks|] == s.blocks;
    EndAligned(s.blocks[..i]);
    EndAligned(s.blocks);
    if i < j { EndGrows(s.blocks, i, j); }
  }

  lemma BlockWithin(s: State, b: Block)
    requires Inv(s) && b in s.blocks
    ensures 16 <= b.user && b.user + b.size + 16 <= s.offset <= |s.mem| && b.size > 0
  {
    hide Inv;
    var i :| 0 <= i < |s.blocks| && s.blocks[i] == b;
    BlocksApart(s, i, i);
  }

  // ---------------------------------------------------------------- memory

  lemma Written(mem: seq<byte>, pos: nat, bytes: seq<byte>)
    requires pos + |bytes| <= |mem|
    ensures Holds(WriteAt(mem, pos, bytes), pos, bytes)
  {
  }

  /** A write leaves what it does not overlap. */
  lemma Untouched(mem: seq<byte>, pos: nat, bytes: seq<byte>, at: nat, what: seq<byte>)
    requires pos + |bytes| <= |mem| && (at + |what| <= pos || pos + |bytes| <= at)
    ensures Holds(WriteAt(mem, pos, bytes), at, what) <==> Holds(mem, at, what)
  {
    if at + |what| <= |mem| {
      assert WriteAt(mem, pos, bytes)[at..at + |what|] == mem[at..at + |what|];
    }
  }

  lemma WriteAbove(mem: seq<byte>, pos: nat, bytes: seq<byte>, n: nat)
    requires n <= pos && pos + |bytes| <= |mem|
    ensures Alike(WriteAt(mem, pos, bytes), mem, n)
  {
  }

  /** Two states of the region agree below `n`. */
  predicate Alike(a: seq<byte>, b: seq<byte>, n: nat) {
    |a| == |b| && n <= |a| && a[..n] == b[..n]
  }

  lemma AlikeTrans(a: seq<byte>, b: seq<byte>, c: seq<byte>, n: nat)
    requires Alike(a, b, n) && Alike(b, c, n)
    ensures Alike(a, c, n)
  {
  }

  lemma HoldsBelow(a: seq<byte>, b: seq<byte>, n: nat, at: nat, what: seq<byte>)
    requires Alike(a, b, n) && at + |what| <= n
    ensures Holds(a, at, what) <==> Holds(b, at, what)
  {
    assert a[at..at + |what|] == a[..n][at..at + |what|];
    assert b[at..at + |what|] == b[..n][at..at + |what|];
  }

  lemma SliceBelow(a: seq<byte>, b: seq<byte>, n: nat, lo: nat, hi: nat)
    requires Alike(a, b, n) && lo <= hi <= n
    ensures a[lo..hi] == b[lo..hi]
  {
    assert a[lo..hi] == a[..n][lo..hi];
    assert b[lo..hi] == b[..n][lo..hi];
  }

  /** A block below `n` is as healthy in one state as in the other. */
  lemma IntactBelow(a: seq<byte>, b: seq<byte>, n: nat, c: Block)
    requires Alike(a, b, n) && 16 <= c.user && c.user + c.size + 16 <= n
    ensures Intact(a, c) <==> Intact(b, c)
  {
    hide Alike;
    hide Holds;
    HoldsBelow(a, b, n, c.user - 16, Canary());
    HoldsBelow(a, b, n, c.user + c.size, Canary());
  }

  lemma GuardedFacts(mem: seq<byte>, b: Block, n: nat)
    requires 16 <= b.user && b.user + b.size + 16 <= |mem| && n + 16 <= b.user
    ensures Intact(Guarded(mem, b), b) && Alike(Guarded(mem, b), mem, n)
  {
    hide Canary;
    hide Holds;
    hide WriteAt;
    hide Alike;
    var first := WriteAt(mem, b.user - 16, Canary());
    Written(mem, b.user - 16, Canary());
    Written(first, b.user + b.size, Canary());
    Untouched(first, b.user + b.size, Canary(), b.user - 16, Canary());
    WriteAbove(mem, b.user - 16, Canary(), n);
    WriteAbove(first, b.user + b.size, Canary(), n);
    AlikeTrans(Guarded(mem, b), first, mem, n);
  }

  /** Filling a user area leaves the canaries alone. */
  lemma FillFacts(mem: seq<byte>, b: Block, bytes: seq<byte>, n: nat)
    requires Intact(mem, b) && n <= b.user && |bytes| <= b.size && b.user + b.size <= |mem|
    ensures Intact(WriteAt(mem, b.user, bytes), b) && Alike(WriteAt(mem, b.user, bytes), mem, n)
    ensures Holds(WriteAt(mem, b.user, bytes), b.user, bytes)
  {
    hide Canary;
    hide Holds;
    hide WriteAt;
    hide Alike;
    Written(mem, b.user, bytes);
    WriteAbove(mem, b.user, bytes, n);
    Untouched(mem, b.user, bytes, b.user - 16, Canary());
    Untouched(mem, b.user, bytes, b.user + b.size, Canary());
  }

  // ---------------------------------------------------------------- requests

  /** What a request that hands out a block leaves behind: one more tile, intact, and nothing
      written below the old offset. */
  predicate Grown(s: State, t: State, p: nat, size: nat) {
    && Inv(t) && t.blocks == s.blocks + [Block(p, size)]
    && t.offset == s.offset + Aligned(size) && p == s.offset + 16 && p % 16 == 0
    && t.poisoned == s.poisoned
    && Intact(t.mem, Block(p, size)) && Alike(t.mem, s.mem, s.offset)
  }

  lemma InvGrows(s: State, t: State, size: nat)
    requires Inv(s) && size > 0 && t.blocks == s.blocks + [Block(s.offset + 16, size)]
    requires t.offset == s.offset + Aligned(size) <= |t.mem|
    ensures Inv(t) && s.offset % 16 == 0
  {
    hide Aligned;
    EndAligned(s.blocks);
    assert t.blocks[..|t.blocks| - 1] == s.blocks;
    forall i | 0 <= i < |t.blocks| ensures Follows(t.blocks, i) {
      if i < |s.blocks| {
        assert t.blocks[..i] == s.blocks[..i] && Follows(s.blocks, i);
      } else {
        assert t.blocks[..i] == s.blocks;
      }
    }
  }

  /** An allocation succeeds exactly when the rounded block fits. */
  lemma AllocFacts(s: State, size: nat)
    requires Inv(s) && size > 0
    ensures var (t, r) := Alloc(s, size);
            && (r.Pointer? <==> s.offset + Aligned(size) <= |s.mem|)
            && (r.Pointer? ==> Grown(s, t, r.p, size))
            && (!r.Pointer? ==> t == s && r == Null)
  {
    hide Inv;
    hide Aligned;
    hide Guarded;
    hide Intact;
    if s.offset + Aligned(size) <= |s.mem| {
      InvGrows(s, Alloc(s, size).0, size);
      GuardedFacts(s.mem, Block(s.offset + 16, size), s.offset);
    }
  }

  /** A reallocation moreover carries the contents over. */
  lemma ReallocFacts(s: State, b: Block, size: nat)
    requires Inv(s) && b in s.blocks && size > 0 && b.user + b.size <= s.offset
    ensures var (t, r) := Realloc(s, b, size);
            && (r.Pointer? <==> s.offset + Aligned(size) <= |s.mem|)
            && (r.Pointer? ==> Grown(s, t, r.p, size) && Holds(t.mem, r.p, s.mem[b.user..b.user + Min(b.size, size)]))
            && (!r.Pointer? ==> t == s && r == Null)
  {
    hide Aligned;
    hide WriteAt;
    hide Intact;
    hide Alloc;
    hide Holds;
    hide End;
    hide Follows;
    AllocFacts(s, size);
    var (u, r) := Alloc(s, size);
    if r.Pointer? {
      hide Alike;
      var n := Min(b.size, size);
      SliceBelow(u.mem, s.mem, s.offset, b.user, b.user + n);
      FillFacts(u.mem, Block(r.p, size), u.mem[b.user..b.user + n], s.offset);
      AlikeTrans(Realloc(s, b, size).0.mem, u.mem, s.mem, s.offset);
    }
  }

  /** Every request: it croaks exactly when the canaries of the block it is given are damaged,
      does nothing once poisoned, and hands out a block exactly when one is asked for and fits.
      A new block costs at most its size plus 47 bytes and starts with the old one's contents. */
  lemma RequestFacts(s: State, ptr: Option<Block>, size: nat)
    requires Legal(s, ptr, size)
    ensures var (t, r) := Request(s, ptr, size);
            var damaged := ptr.Some? && !Intact(s.mem, ptr.value);
            && Inv(t) && |t.mem| == |s.mem|
            && (s.poisoned ==> t == s && r == Null)
            && (!s.poisoned && damaged ==> t == s.(poisoned := true) && r == Croaked(!FrontIntact(s.mem, ptr.value)))
            && (!s.poisoned && !damaged ==>
                  && (r.Pointer? <==> size > 0 && s.offset + Aligned(size) <= |s.mem|)
                  && (!r.Pointer? ==> t == s && r == Null))
            && (r.Pointer? ==>
                  && !s.poisoned && !damaged && Grown(s, t, r.p, size)
                  && s.offset + size + 32 <= t.offset <= s.offset + size + 47
                  && (ptr.Some? ==>
                        && ptr.value.user + ptr.value.size <= s.offset
                        && Holds(t.mem, r.p, s.mem[ptr.value.user..ptr.value.user + Min(ptr.value.size, size)])))
  {
    hide Aligned;
    hide Intact;
    hide Alloc;
    hide Realloc;
    hide Holds;
    hide End;
    hide Follows;
    if ptr.Some? { BlockWithin(s, ptr.value); }
    if size > 0 {
      AllocFacts(s, size);
      if ptr.Some? { ReallocFacts(s, ptr.value, size); }
    }
  }

  /** A request, a reallocation included, disturbs no block handed out before: neither its
      user area nor its canaries. */
  lemma OldBlocksKept(s: State, ptr: Option<Block>, size: nat, b: Block)
    requires Legal(s, ptr, size) && b in s.blocks
    ensures var t := Request(s, ptr, size).0;
            && b in t.blocks && (Intact(t.mem, b) <==> Intact(s.mem, b))
            && b.user + b.size <= |s.mem| && Holds(t.mem, b.user, s.mem[b.user..b.user + b.size])
  {
    hide Aligned;
    hide Intact;
    hide Request;
    hide Inv;
    BlockWithin(s, b);
    RequestFacts(s, ptr, size);
    var t := Request(s, ptr, size).0;
    if t.mem != s.mem {
      IntactBelow(t.mem, s.mem, s.offset, b);
      SliceBelow(t.mem, s.mem, s.offset, b.user, b.user + b.size);
    }
  }

  // ---------------------------------------------------------------- clients

  /** Where a client may write: inside some block's user area. */
  predicate InUserArea(s: State, addr: nat) {
    exists b :: b in s.blocks && b.user <= addr < b.user + b.size
  }

  predicate AllIntact(s: State) {
    forall b :: b in s.blocks ==> Intact(s.mem, b)
  }

  /** A client stores one byte. */
  function Store(s: State, addr: nat, v: byte): (r: State)
    requires addr < |s.mem|
  {
    s.(mem := s.mem[addr := v])
  }

  lemma StoreKeepsInv(s: State, addr: nat, v: byte)
    requires Inv(s) && addr < |s.mem|
    ensures Inv(Store(s, addr, v))
  {
  }

  /** The 32 guard bytes of a block. */
  predicate InCanary(b: Block, addr: nat) {
    b.user - 16 <= addr < b.user || b.user + b.size <= addr < b.user + b.size + 16
  }

  /** No byte of any user area is a guard byte of any block. */
  lemma UserAreasClear(s: State, addr: nat, c: Block)
    requires Inv(s) && InUserArea(s, addr) && c in s.blocks
    ensures !InCanary(c, addr) && addr < |s.mem|
  {
    var b :| b in s.blocks && b.user <= addr < b.user + b.size;
    var i :| 0 <= i < |s.blocks| && s.blocks[i] == b;
    var j :| 0 <= j < |s.blocks| && s.blocks[j] == c;
    BlocksApart(s, i, j);
    BlocksApart(s, j, i);
  }

  /** A store outside a block's guard bytes leaves its state of health as it was; a store
      that changes a guard byte of an intact block damages it. */
  lemma StoreIntact(s: State, addr: nat, v: byte, c: Block)
    requires Inv(s) && c in s.blocks && addr < |s.mem|
    ensures Inv(Store(s, addr, v))
    ensures !InCanary(c, addr) ==> (Intact(Store(s, addr, v).mem, c) <==> Intact(s.mem, c))
    ensures InCanary(c, addr) && Intact(s.mem, c) && v != s.mem[addr] ==> !Intact(Store(s, addr, v).mem, c)
  {
    BlockWithin(s, c);
    var m := s.mem[addr := v];
    if !InCanary(c, addr) {
      assert m[c.user - 16..c.user] == s.mem[c.user - 16..c.user];
      assert m[c.user + c.size..c.user + c.size + 16] == s.mem[c.user + c.size..c.user + c.size + 16];
    } else if addr < c.user {
      assert m[c.user - 16..c.user][addr - (c.user - 16)] == v;
      assert s.mem[c.user - 16..c.user][addr - (c.user - 16)] == s.mem[addr];
    } else {
      assert m[c.user + c.size..c.user + c.size + 16][addr - (c.user + c.size)] == v;
      assert s.mem[c.user + c.size..c.user + c.size + 16][addr - (c.user + c.size)] == s.mem[addr];
    }
  }

  // ---------------------------------------------------------------- the pattern

  /** The number that bytes are in little-endian order. */
  function Little(bytes: seq<byte>): (n: nat) {
    if bytes == [] then 0 else bytes[0] as int + 256 * Little(bytes[1..])
  }

  lemma {:induction false} LittleSame(a: seq<byte>, b: seq<byte>)
    requires |a| == |b|
    ensures Little(a) == Little(b) <==> a == b
  {
    if a == [] {
    } else {
      LittleSame(a[1..], b[1..]);
      assert a == [a[0]] + a[1..] && b == [b[0]] + b[1..];
    }
  }

  /** The canary is the pattern 0xDEADBEEFCAFEBABE, twice. */
  lemma CanaryWords()
    ensures Little(Canary()[..8]) == 0xDEAD_BEEF_CAFE_BABE && Little(Canary()[8..]) == 0xDEAD_BEEF_CAFE_BABE
    ensures forall i :: 0 <= i < 16 ==> Canary()[i] != 0
  {
    hide Little, Pattern;
    PatternWord();
    assert Canary()[..8] == Pattern() && Canary()[8..] == Pattern();
    forall i | 0 <= i < 16 ensures Canary()[i] != 0 {
      assert Canary()[i] == Pattern()[if i < 8 then i else i - 8];
    }
  }

  lemma PatternWord()
    ensures Little(Pattern()) == 0xDEAD_BEEF_CAFE_BABE
    ensures forall i :: 0 <= i < 8 ==> Pattern()[i] != 0
  {
    hide Little;
    LittleFour(0xEF, 0xBE, 0xAD, 0xDE, []);
    LittleFour(0xBE, 0xBA, 0xFE, 0xCA, [0xEF, 0xBE, 0xAD, 0xDE]);
    assert [0xEF, 0xBE, 0xAD, 0xDE] + [] == [0xEF, 0xBE, 0xAD, 0xDE];
    LittleNone();
  }

  lemma LittleNone()
    ensures Little([]) == 0
  {
  }

  lemma LittleFour(a: byte, b: byte, c: byte, d: byte, rest: seq<byte>)
    ensures Little([a, b, c, d] + rest) == a as int + 256 * b as int + 65536 * c as int + 16777216 * d as int + 4294967296 * Little(rest)
  {
    LittleOne(d, rest);
    LittleOne(c, [d] + rest);
    LittleOne(b, [c] + ([d] + rest));
    LittleOne(a, [b] + ([c] + ([d] + rest)));
    assert [a, b, c, d] + rest == [a] + ([b] + ([c] + ([d] + rest)));
  }

  lemma LittleOne(a: byte, rest: seq<byte>)
    ensures Little([a] + rest) == a as int + 256 * Little(rest)
  {
    assert ([a] + rest)[1..] == rest;
  }

  /** Sixteen bytes are the canary exactly when both their words are the pattern. */
  lemma WordsDecide(bytes: seq<byte>)
    requires |bytes| == 16
    ensures bytes == Canary() <==>
            Little(bytes[..8]) == 0xDEAD_BEEF_CAFE_BABE && Little(bytes[8..]) == 0xDEAD_BEEF_CAFE_BABE
  {
    hide Canary, Little;
    CanaryWords();
    LittleSame(bytes[..8], Canary()[..8]);
    LittleSame(bytes[8..], Canary()[8..]);
    assert bytes == bytes[..8] + bytes[8..] && Canary() == Canary()[..8] + Canary()[8..];
  }

  /** The check of the code on four 64-bit words is the check of the canaries. */
  lemma IntactWords(mem: seq<byte>, b: Block)
    requires 16 <= b.user && b.user + b.size + 16 <= |mem|
    ensures var start, end := b.user - 16, b.user + b.size;
            && (FrontIntact(mem, b) <==>
                  Little(mem[start..start + 8]) == 0xDEAD_BEEF_CAFE_BABE && Little(mem[start + 8..start + 16]) == 0xDEAD_BEEF_CAFE_BABE)
            && (Intact(mem, b) <==>
                  FrontIntact(mem, b) &&
                  Little(mem[end..end + 8]) == 0xDEAD_BEEF_CAFE_BABE && Little(mem[end + 8..end + 16]) == 0xDEAD_BEEF_CAFE_BABE)
  {
    hide Canary, Little;
    var start, end := b.user - 16, b.user + b.size;
    HalvesOf(mem, start);
    HalvesOf(mem, end);
    WordsDecide(mem[start..start + 16]);
    WordsDecide(mem[end..end + 16]);
  }

  lemma HalvesOf(mem: seq<byte>, at: nat)
    requires at + 16 <= |mem|
    ensures mem[at..at + 16][..8] == mem[at..at + 8] && mem[at..at + 16][8..] == mem[at + 8..at + 16]
  {
  }

  /** A zero stored on any guard byte of an intact block, as by an overrun or underrun of a
      string, makes the block's next free or reallocation croak and says on which side. */
  lemma ZeroDetected(s: State, addr: nat, b: Block, size: nat)
    requires Inv(s) && !s.poisoned && b in s.blocks && Intact(s.mem, b) && InCanary(b, addr) && addr < |s.mem|
    requires Legal(Store(s, addr, 0), Some(b), size)
    ensures var (t, r) := Request(Store(s, addr, 0), Some(b), size);
            r == Croaked(addr < b.user) && t.poisoned && t.mem == s.mem[addr := 0]
  {
    hide Canary, Inv, Holds;
    BlockWithin(s, b);
    if addr < b.user {
      ZeroBreaks(s.mem, b.user - 16, addr);
    } else {
      ZeroBreaks(s.mem, b.user + b.size, addr);
      ZeroElsewhere(s.mem, b.user - 16, addr);
    }
  }

  lemma ZeroBreaks(mem: seq<byte>, pos: nat, addr: nat)
    requires pos <= addr < pos + 16 <= |mem|
    ensures !Holds(mem[addr := 0], pos, Canary())
  {
    hide Canary;
    CanaryWords();
    assert mem[addr := 0][pos..pos + 16][addr - pos] == 0;
  }

  lemma ZeroElsewhere(mem: seq<byte>, pos: nat, addr: nat)
    requires pos + 16 <= addr < |mem|
    ensures Holds(mem[addr := 0], pos, Canary()) <==> Holds(mem, pos, Canary())
  {
    hide Canary;
    assert mem[addr := 0][pos..pos + 16] == mem[pos..pos + 16];
  }

  // ---------------------------------------------------------------- runs

  datatype Op = Call(ptr: Option<Block>, size: nat) | Write(addr: nat, v: byte)

  /** What clients and callers may do: legal requests, and stores anywhere in the region. */
  predicate Allowed(s: State, op: Op) {
    match op
    case Call(ptr, size) => Legal(s, ptr, size)
    case Write(addr, _) => Inv(s) && addr < |s.mem|
  }

  function Step(s: State, op: Op): (r: State)
    requires Allowed(s, op)
  {
    match op case Call(ptr, size) => Request(s, ptr, size).0 case Write(addr, v) => Store(s, addr, v)
  }

  predicate CanRun(s: State, ops: seq<Op>)
    decreases |ops|
  {
    ops == [] || (Allowed(s, ops[0]) && CanRun(Step(s, ops[0]), ops[1..]))
  }

  function Run(s: State, ops: seq<Op>): (r: State)
    requires CanRun(s, ops)
    decreases |ops|
  {
    if ops == [] then s else Run(Step(s, ops[0]), ops[1..])
  }

  /** A region no block has been taken from. */
  predicate Initial(s: State) { s.offset == 0 && !s.poisoned && s.blocks == [] }

  lemma StepInv(s: State, op: Op)
    requires Allowed(s, op)
    ensures Inv(Step(s, op)) && |Step(s, op).mem| == |s.mem|
    ensures s.blocks <= Step(s, op).blocks
    ensures s.poisoned ==> Step(s, op).poisoned
  {
    match op
    case Call(ptr, size) => RequestFacts(s, ptr, size);
    case Write(addr, v) => StoreKeepsInv(s, addr, v);
  }

  /** On every run from an empty region the blocks with their canaries tile the used part of
      it exactly, at sixteen-byte steps and without overlap. */
  lemma RunTiles(s: State, ops: seq<Op>, i: nat, j: nat)
    requires Initial(s) && CanRun(s, ops)
    requires i < j < |Run(s, ops).blocks|
    ensures var t := Run(s, ops);
            && t.offset == End(t.blocks) <= |s.mem| && t.offset % 16 == 0
            && t.blocks[i].user == End(t.blocks[..i]) + 16 && t.blocks[i].user % 16 == 0
            && t.blocks[i].user + t.blocks[i].size + 16 <= t.blocks[j].user - 16
            && t.blocks[j].user + t.blocks[j].size + 16 <= t.offset
  {
    RunInv(s, ops);
    var t := Run(s, ops);
    assert Follows(t.blocks, i);
    BlocksApart(t, i, j);
    BlocksApart(t, j, j);
  }

  /** On every run the blocks tile the used part of the region; nothing is ever taken back. */
  lemma {:induction false} RunInv(s: State, ops: seq<Op>)
    requires Inv(s) && CanRun(s, ops)
    ensures Inv(Run(s, ops)) && |Run(s, ops).mem| == |s.mem| && s.blocks <= Run(s, ops).blocks
    ensures s.poisoned ==> Run(s, ops).poisoned
    decreases |ops|
  {
    if ops == [] {
    } else {
      StepInv(s, ops[0]);
      RunInv(Step(s, ops[0]), ops[1..]);
    }
  }

  /** Every store of the run goes into a user area handed out before it. */
  predicate WellBehaved(s: State, ops: seq<Op>)
    requires CanRun(s, ops)
    decreases |ops|
  {
    ops == [] || ((ops[0].Write? ==> InUserArea(s, ops[0].addr)) && WellBehaved(Step(s, ops[0]), ops[1..]))
  }

  lemma StepIntact(s: State, op: Op)
    requires Allowed(s, op) && AllIntact(s)
    requires op.Write? ==> InUserArea(s, op.addr)
    ensures Inv(Step(s, op)) && AllIntact(Step(s, op))
    ensures Step(s, op).poisoned == s.poisoned
  {
    StepInv(s, op);
    var t := Step(s, op);
    match op
    case Call(ptr, size) =>
      RequestFacts(s, ptr, size);
      forall b | b in t.blocks ensures Intact(t.mem, b) {
        if b in s.blocks { OldBlocksKept(s, ptr, size, b); }
      }
    case Write(addr, v) =>
      forall b | b in t.blocks ensures Intact(t.mem, b) {
        UserAreasClear(s, addr, b);
        StoreIntact(s, addr, v, b);
      }
  }

  /** If clients write only inside their own user areas, no check ever fails. */
  lemma {:induction false} WellBehavedNeverCroaks(s: State, ops: seq<Op>)
    requires Inv(s) && CanRun(s, ops) && AllIntact(s) && !s.poisoned && WellBehaved(s, ops)
    ensures Inv(Run(s, ops)) && AllIntact(Run(s, ops)) && !Run(s, ops).poisoned
    decreases |ops|
  {
    if ops == [] {
    } else {
      StepIntact(s, ops[0]);
      WellBehavedNeverCroaks(Step(s, ops[0]), ops[1..]);
    }
  }

  /** Damage to a block stays until its next check, as long as no store goes to its guard
      bytes again: requests on other blocks do not repair it. */
  lemma {:induction false} DamageStays(s: State, ops: seq<Op>, b: Block)
    requires Inv(s) && CanRun(s, ops) && b in s.blocks && !Intact(s.mem, b)
    requires forall i :: 0 <= i < |ops| ==> ops[i].Write? ==> !InCanary(b, ops[i].addr)
    ensures var t := Run(s, ops); Inv(t) && b in t.blocks && !Intact(t.mem, b)
    decreases |ops|
  {
    if ops == [] {
    } else {
      var t := Step(s, ops[0]);
      StepInv(s, ops[0]);
      match ops[0] {
        case Call(ptr, size) => OldBlocksKept(s, ptr, size, b);
        case Write(addr, v) => StoreIntact(s, addr, v, b);
      }
      DamageStays(t, ops[1..], b);
    }
  }

  /** If a store changes a guard byte of an intact block, then whatever else happens that
      leaves those bytes alone, the block's next free or reallocation croaks, unless another
      check has failed before; and from a failed check on every request returns NULL. */
  lemma CorruptionDetected(s: State, addr: nat, v: byte, b: Block, ops: seq<Op>, size: nat)
    requires Inv(s) && b in s.blocks && Intact(s.mem, b) && addr < |s.mem| && InCanary(b, addr) && v != s.mem[addr]
    requires CanRun(Store(s, addr, v), ops)
    requires forall i :: 0 <= i < |ops| ==> ops[i].Write? ==> !InCanary(b, ops[i].addr)
    requires Legal(Run(Store(s, addr, v), ops), Some(b), size)
    ensures var t := Run(Store(s, addr, v), ops);
            var (u, r) := Request(t, Some(b), size);
            && u.poisoned && (if t.poisoned then r == Null else r.Croaked?)
  {
    StoreIntact(s, addr, v, b);
    DamageStays(Store(s, addr, v), ops, b);
    RequestFacts(Run(Store(s, addr, v), ops), Some(b), size);
  }

  /** The poison flag is for good. */
  lemma PoisonedForGood(s: State, ops: seq<Op>, ptr: Option<Block>, size: nat)
    requires Inv(s) && s.poisoned && CanRun(s, ops) && Legal(Run(s, ops), ptr, size)
    ensures Request(Run(s, ops), ptr, size) == (Run(s, ops), Null)
  {
    RunInv(s, ops);
  }

  lemma StepKeepsByte(s: State, op: Op, b: Block, addr: nat)
    requires Allowed(s, op) && b in s.blocks && b.user <= addr < b.user + b.size
    requires op.Write? ==> op.addr != addr
    ensures var t := Step(s, op);
            Inv(t) && b in t.blocks && addr < |s.mem| == |t.mem| && t.mem[addr] == s.mem[addr]
  {
    hide Inv;
    hide Request;
    BlockWithin(s, b);
    StepInv(s, op);
    match op
    case Call(ptr, size) =>
      OldBlocksKept(s, ptr, size, b);
      var t := Request(s, ptr, size).0;
      assert t.mem[b.user..b.user + b.size][addr - b.user] == s.mem[b.user..b.user + b.size][addr - b.user];
    case Write(_, _) =>
  }

  /** A byte of a user area keeps its value, whatever is requested and stored elsewhere. */
  lemma {:induction false} UserBytesStay(s: State, ops: seq<Op>, b: Block, addr: nat)
    requires Inv(s) && CanRun(s, ops) && b in s.blocks && b.user <= addr < b.user + b.size
    requires forall i :: 0 <= i < |ops| ==> ops[i].Write? ==> ops[i].addr != addr
    ensures addr < |s.mem| && addr < |Run(s, ops).mem|
    ensures Run(s, ops).mem[addr] == s.mem[addr]
    decreases |ops|
  {
    hide Inv;
    hide Step;
    BlockWithin(s, b);
    if ops == [] {
    } else {
      StepKeepsByte(s, ops[0], b, addr);
      UserBytesStay(Step(s, ops[0]), ops[1..], b, addr);
    }
  }

  // ---------------------------------------------------------------- the allocator

  class BlockAllocator {
    const region: array<byte>
    var offset: nat
    var poisoned: bool
    ghost var blocks: seq<Block>

    ghost function Abs(): (r: State)
      reads this, region
    {
      State(region[..], offset, poisoned, blocks)
    }

    constructor (size: nat)
      ensures fresh(region) && region.Length == size && Initial(Abs())
    {
      region := new byte[size](_ => 0);
      offset, poisoned, blocks := 0, false, [];
    }

    /** `PerlUpb_WriteCanaries` at the start of a raw block. */
    method WriteCanaries(raw: nat, size: nat)
      requires raw + size + 32 <= region.Length
      modifies region
      ensures region[..] == Guarded(old(region[..]), Block(raw + 16, size))
    {
      CopyInto(region, raw, Canary());
      CopyInto(region, raw + 16 + size, Canary());
    }

    /** `PerlUpb_VerifyCanaries`: sets the poison flag and croaks, or finds nothing wrong. */
    method VerifyCanaries(ptr: nat, size: nat) returns (r: Outcome)
      requires 16 <= ptr && ptr + size + 16 <= region.Length
      modifies this`poisoned
      ensures var b := Block(ptr, size);
              && r == (if Intact(region[..], b) then Null else Croaked(!FrontIntact(region[..], b)))
              && poisoned == (old(poisoned) || !Intact(region[..], b))
    {
      if region[ptr - 16..ptr] != Canary() {
        poisoned := true;
        return Croaked(true);
      }
      if region[ptr + size..ptr + size + 16] != Canary() {
        poisoned := true;
        return Croaked(false);
      }
      return Null;
    }

    /** `memcpy` within the region. */
    method Move(to: nat, from: nat, n: nat)
      requires from + n <= region.Length && to + n <= region.Length
      modifies region
      ensures region[..] == WriteAt(old(region[..]), to, old(region[..])[from..from + n])
    {
      ghost var was := region[..];
      assert region[from..from + n] == was[from..from + n];
      CopyInto(region, to, region[from..from + n]);
      assert region[..] == region[..to + n] + region[to + n..];
    }

    /** `PerlUpb_BlockAlloc_Func`. */
    method Func(ptr: Option<nat>, oldsize: nat, size: nat) returns (r: Outcome)
      requires Legal(Abs(), if ptr.Some? then Some(Block(ptr.value, oldsize)) else None, size)
      modifies this, region
      ensures (Abs(), r) == Request(old(Abs()), if ptr.Some? then Some(Block(ptr.value, oldsize)) else None, size)
      decreases ptr.Some?
    {
      hide Aligned;
      hide AlignedWord;
      hide Wrap;
      hide Guarded;
      hide Intact;
      hide FrontIntact;
      hide WriteAt;
      hide Inv;
      hide Canary;
      if poisoned { return Null; }
      ghost var s := Abs();
      if size > 0 { AllocFacts(s, size); }
      if ptr.Some? { BlockWithin(Abs(), Block(ptr.value, oldsize)); }
      if size == 0 {
        if ptr.Some? {
          r := VerifyCanaries(ptr.value, oldsize);
          if r.Croaked? { return; }
        }
        return Null;
      }
      if ptr.Some? {
        r := VerifyCanaries(ptr.value, oldsize);
        if r.Croaked? { return; }
        r := Func(None, 0, size);
        assert (Abs(), r) == Alloc(s, size);
        if r.Pointer? && oldsize > 0 {
          BlockWithin(Abs(), Block(r.p, size));
          Move(r.p, ptr.value, Min(oldsize, size));
        }
        return;
      }
      var alignedSize := AlignedWord(size);
      WordExact(offset, size);
      if Wrap(offset + alignedSize) > region.Length { return Null; }
      WriteCanaries(offset, size);
      r := Pointer(offset + 16);
      blocks := blocks + [Block(offset + 16, size)];
      offset := offset + alignedSize;
    }
  }
}
