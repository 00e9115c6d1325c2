# Protobuf for Perl: a verified model of the hand-written core

This project models the logic that the `Protobuf` distribution itself contributes on top of
upb: conversion between messages and Perl data, the wire scanner for unknown fields, framing
on file handles, the object cache with its locks and audit ring, the memoising accessors, the
block allocator with canaries, the two computations of Perl class names, the vectorised name
translation, the base64 printer of the code generator and the regular-expression matcher of
the C test harness. Each operation that changes state step by step is a method or a class,
proved against a specification function or a declarative predicate; what the source promises
is then proved about that specification for all inputs, all runs or all schedules.

`dafny verify dfyconfig.toml` checks everything.

| file | what it holds |
|---|---|
| `Options.dfy`, `Sequences.dfy`, `Streams.dfy`, `Strings.dfy` | optional values; elements of sequences; bytes, file handles, `memcpy`; text buffers |
| `Bits.dfy` | 64-bit words, the bitwise or and the left shift |
| `Varint.dfy` | one declarative meaning of base-128 varints, one encoder, two decoders |
| `UnknownFields.dfy` | parsing of unknown chunks, deletion of a field number |
| `Framing.dfy` | length-prefixed frames, the reader with a doubling buffer |
| `ObjCache.dfy`, `AuditLog.dfy` | the cache as a sequential object with ghost history; the event ring |
| `CacheLocks.dfy` | the same calls as interleaved lock steps of any number of threads |
| `FastAccessors.dfy` | the per-object memo with one dirty bit |
| `BlockAlloc.dfy` | bump allocation, canaries, the poison flag |
| `Convert.dfy` | message to Perl data and back, with the batch paths |
| `ConvertedValues.dfy` | what each kind of Perl value gives on each type of field, and what Perl sees of a message |
| `ClassNames.dfy` | generator and runtime class names, and when they agree |
| `ClassNameForms.dfy` | those names in closed form |
| `NameTranslation.dfy` | class name to full name and back, chunked |
| `Base64.dfy` | the printed descriptor against section 4 of RFC 4648 |
| `RegexMatcher.dfy` | the matcher against a declarative meaning of patterns |

## What the proofs found

Where a promise fails for some inputs, a lemma gives the exact condition under which it holds.

* The cache is called an LRU (`obj_lru`, `lru_mutex`), but a hit does not renew an entry: the
  queue is first in, first out (`ObjCache.QueueIsLastAdded`). An object that is still alive
  therefore loses its identity after other additions, and a pointer that is added again goes
  with its oldest key in the queue, not with its own: `ObjCache.SurvivesExactly` and
  `ObjCache.WrapIdentity` give the exact number of additions.
* Worse, the cleanup of a dying wrapper deletes whatever is cached for its pointer. A wrapper
  pushed out while alive therefore takes its successor's entry along when it dies, and a third
  wrapper is made while the second lives (`ObjCache.EvictedWrapperDies`; the cleanup is at
  fault exactly when a wrapper other than the dying one is cached, `ObjCache.CleanupForgets`).
* `PerlUpb_ObjCache_Clear` takes the stripes before the queue lock, against the order of every
  other call. Run alone it is harmless (`CacheLocks.NoDeadlock`). When calls may overlap
  freely, a deadlock can be reached if and only if both `Clear` and an evicting `Add` are
  among them (`CacheLocks.DeadlockExactly`).
* The generic `set` and `clear` do not mark the memo dirty, so a fast getter may answer a stale
  value afterwards (`FastAccessors.StaleExample`). What a caller has to check before such a
  write, on the memo and the value to be set, is `FastAccessors.Harmless`, and
  `FastAccessors.SlowWriteCoherent` and `FastAccessors.AlwaysCoherentExactly` prove that check
  exact, for one write and for whole runs. With two wrappers of one message even fast writes
  make a memo stale, that of the other wrapper (`FastAccessors.TwoWrappersExample`); the same
  check is exact there too (`FastAccessors.WrappersAgreeExactly`).
* The float limit `3.402823466e+38` lies below `FLT_MAX`: `FLT_MAX` and the infinities are
  refused in a singular float field, but accepted in a repeated one, whose batch is unchecked
  (`Convert.MessageRoundTrip`, `Convert.LargestFloatRefused`).
* The batch path does not look up enum names: a name becomes whatever number Perl reads in it
  (`Convert.BatchAgrees`, with the names for which that is the right number).
* Field names are looked up as C strings, so a hash key with a NUL names the field its part
  before the NUL names, and a hash can have several keys for one field (`Convert.NulExample`).
* The message a hash turns into can depend on Perl's iteration order. It does so if and only if
  the hash is accepted and it, or a hash nested in it, has two entries that name two members of
  one oneof (`Convert.ClashExample`), or name one field and convert to different values
  (`Convert.OrdersAgreeExactly`).
* The generator registers messages of files without a package under a name with two dots and
  never finds them again; it cuts file names at the last dot and the runtime at the first; and
  it capitalises no message name while the runtime capitalises all (`ClassNames.ClassesAgree`).
* `DeleteTag` drops whatever follows the last complete entry of a chunk, groups included
  (`UnknownFields.DeleteLeavesData`).
* A truncated or overlong length prefix reads as undef, like a proper end of the stream
  (`Framing.ReadAllOfCutStream`); a short write of the length goes unnoticed when the payload
  is empty (`Framing.ToHandle`).
* The test for a short payload compares signed counts: a declared length of 2^63 or more passes
  for a negative one, so the shortage goes unnoticed and the decoder is told the declared length
  (`Framing.ShortageReported`).

## Conventions

* Integers are unbounded; 64-bit wrap-around of varints, 32-bit casts and the rounding of the
  allocator are written out. Requests for which the allocator's `size_t` sums would wrap are
  excluded by `BlockAlloc.Legal`; `BlockAlloc.WrapExactly` says for which of them the code would
  hand out a block beyond the region.
* `croak` is a result (`Croak`, `Croaked`, `Truncated`), and a weak reference is a `Ref` that
  an object's death sets to `Undef`.
* What Perl and the C library decide is a parameter: how strings read as numbers, how doubles
  turn into integers and round, and what number a reference is (`Convert.Perl`). The
  assumptions made of it are named where they are used: that 32-bit integers are exact as
  doubles (`Convert.ExactIntegers`), that integers round as IEEE 754 has it
  (`ConvertedValues.Rounds`) and that doubles lose their fraction
  (`ConvertedValues.Truncates`).
* C strings are their contents up to the NUL; a hash key is a whole Perl string, which
  `Convert.CString` cuts where the code does. `toupper` is that of the C locale.
* A read that may return early is a nondeterministic choice. The iteration order of every hash,
  by the place it is nested at, is a parameter, and results are proved for all of them.

## Model

| member | source | states |
|---|---|---|
| Varint.DecodeMeaning | Protobuf/xs/unknown_fields/set.c:98-112 | a decoder finds a number exactly when some prefix of the input is a varint (at most ten bytes, only the last without continuation bit), and then answers that prefix's number modulo 2^64 and its length |
| Varint.RoundTrip | Protobuf/xs/message/serialize.c:262-272 | decoding what was encoded for any 64-bit number, whatever follows it, gives the number and consumes exactly the bytes written, at most ten |
| Varint.EncodeIsMinimal | Protobuf/xs/message/serialize.c:262-272 | no shorter varint, canonical or not, decodes to the same number |
| Varint.EncodeExample | Protobuf/xs/message/serialize.c:262-272 | 150 is written 96 01, as in the Protocol Buffers encoding guide, and read back |
| Varint.NoVarint | Protobuf/xs/message/serialize.c:316-325 | ten bytes with continuation bit, or fewer and then the end, are refused |
| Varint.DecodePrefix | Protobuf/xs/unknown_fields/set.c:98-112 | a decoder's answer does not depend on what follows the varint |
| Varint.OrIsSum | Protobuf/xs/unknown_fields/set.c:102-103 | or-ing seven bits, shifted in a 64-bit word, into an accumulator with bits below that position only is adding them modulo 2^64; at position 63 all but one fall off |
| Bits.OrBit | Protobuf/xs/message/serialize.c:319 | the or has exactly the bits of either number |
| Bits.OrDisjoint | Protobuf/xs/message/serialize.c:319 | where the bits of two numbers do not overlap their or is their sum |
| Varint.DecodeStep | Protobuf/xs/unknown_fields/set.c:102-108 | or-ing in one more seven-bit group keeps the accumulator equal to the number spelled so far; only the tenth group can wrap |
| Varint.DecodeVarint | Protobuf/xs/unknown_fields/set.c:98-112 | the in-memory loop answers as the specification on its range and never reads beyond the end |
| Varint.ReadVarint | Protobuf/xs/message/serialize.c:310-326 | the loop over a handle agrees with the in-memory one on success, value and length consumed; on failure it has consumed ten bytes or all |
| Varint.WriteVarint | Protobuf/xs/message/serialize.c:262-272 | the ten-byte buffer suffices and the handle receives the encoding, as far as there is room |
| UnknownFields.ParseLongest | Protobuf/xs/unknown_fields/set.c:164-180 | the entries scanned spell a prefix of the chunk, and no complete entry starts where the scan stops |
| UnknownFields.ParseUnique | Protobuf/xs/unknown_fields/set.c:164-180 | any sequence of complete entries followed by bytes that start none is scanned as exactly those entries |
| UnknownFields.HeadEntryPrefix | Protobuf/xs/unknown_fields/set.c:164-172 | an entry is recognised from its own bytes whatever follows |
| UnknownFields.VarintEntry | Protobuf/xs/unknown_fields/set.c:116-119 | a tag of wire type 0 and any varint make an entry, whatever follows |
| UnknownFields.Fixed64Entry | Protobuf/xs/unknown_fields/set.c:120-122 | a tag of wire type 1 and exactly eight bytes make an entry; with fewer there is none |
| UnknownFields.DelimitedEntry | Protobuf/xs/unknown_fields/set.c:123-128 | a tag of wire type 2, a length and as many bytes make an entry; with fewer there is none |
| UnknownFields.Fixed32Entry | Protobuf/xs/unknown_fields/set.c:129-131 | a tag of wire type 5 and exactly four bytes make an entry; with fewer there is none |
| UnknownFields.NoOtherEntry | Protobuf/xs/unknown_fields/set.c:132-133 | groups, unassigned wire types and malformed tags start no entry |
| UnknownFields.DeletedEntries | Protobuf/xs/unknown_fields/set.c:137-189 | re-parsing the single chunk left by a deletion gives exactly the entries of other numbers from all chunks, in order |
| UnknownFields.DeleteIdempotent | Protobuf/xs/unknown_fields/set.c:147-186 | deleting a number twice is deleting it once |
| UnknownFields.DeleteCommutes | Protobuf/xs/unknown_fields/set.c:147-186 | deletions of two numbers commute |
| UnknownFields.DeleteLeavesData | Protobuf/xs/unknown_fields/set.c:160-186 | the data are unchanged if and only if every chunk parses to its end and no entry has the number; otherwise bytes are lost |
| UnknownFields.DeleteFromGroups | Protobuf/xs/unknown_fields/set.c:137-189 | data assembled from complete entries, however grouped into chunks, keep exactly the entries of other numbers |
| UnknownFields.SkipValue | Protobuf/xs/unknown_fields/set.c:114-135 | the position after a value of wire type 0, 1, 2 or 5, or failure; never beyond the end |
| UnknownFields.NextEntry | Protobuf/xs/unknown_fields/set.c:165-172 | one tag and value are found exactly when a complete entry starts here |
| UnknownFields.ScrubChunk | Protobuf/xs/unknown_fields/set.c:160-181 | appends to the buffer the bytes of the chunk's entries of other numbers, never more than the chunk's size |
| UnknownFields.UnknownFieldSet.GetData | Protobuf/xs/unknown_fields/set.c:38-70 | the concatenation of all chunks, in a buffer of exactly that size |
| UnknownFields.UnknownFieldSet.TotalSize | Protobuf/xs/unknown_fields/set.c:148-154 | the size the two passes agree on |
| UnknownFields.UnknownFieldSet.DeleteTag | Protobuf/xs/unknown_fields/set.c:137-189 | the chunks become the specified deletion, and the buffer of the total size is never exceeded |
| Framing.ReadsOneFrame | Protobuf/xs/message/serialize.c:343-354 | a frame followed by anything reads as its payload and takes exactly its own bytes |
| Framing.ReadAllRoundTrip | Protobuf/xs/message/serialize.c:295-354 | writing any list of payloads, empty ones included, and reading until the end gives the list in order, then undef |
| Framing.ReadAllOfCutStream | Protobuf/xs/message/serialize.c:343-354 | a stream cut anywhere yields exactly the frames wholly before the cut, then the truncation error with both lengths, or undef when the cut is within a length or between frames |
| Framing.CutFrame | Protobuf/xs/message/serialize.c:345-354 | what the reader answers on every proper prefix of one frame |
| Framing.ToHandle | Protobuf/xs/message/serialize.c:274-308 | what reaches a device with limited room, and that success is reported if and only if all was written or the payload is empty |
| Framing.WriteFrames | Protobuf/xs/message/serialize.c:295-305 | writing a list of messages puts their frames on the handle |
| Framing.ShortageReported | Protobuf/xs/message/serialize.c:351-355 | a payload is complete exactly when enough bytes are left; a shortage is reported if and only if the declared length is at most 2^63 - 1 (or more bytes than that arrived), and otherwise passes unnoticed |
| Framing.UndefExactly | Protobuf/xs/message/serialize.c:344-350 | undef is answered if and only if no prefix of what is left is a varint |
| Framing.FromHandle | Protobuf/xs/message/serialize.c:343-355 | the prefixed reader answers as specified and leaves the handle right behind the frame |
| Framing.ReadFrames | Protobuf/xs/message/serialize.c:343-355 | calling the reader until it stops is the specified session |
| Framing.Grow | Protobuf/xs/message/serialize.c:362-367 | the larger buffer starts with what was read so far |
| Framing.FromHandleToEnd | Protobuf/xs/message/serialize.c:356-376 | the whole stream, however reads are split; each read asks for at least one byte; capacity is 4096 times a power of two and at most the larger of 4096 and twice the bytes read |
| ObjCache.StepKeeps | Protobuf/xs/protobuf/obj_cache.c:118-265 | every call and every object death keeps: a live reference is cached exactly while its latest addition has not been ended; there is an entry exactly while history says so; cached keys are queued; additions are evictions followed by the queue; lookups are answered, and deletions find something, exactly when history says so; and the log is the history's events, in order |
| ObjCache.RunKeeps | Protobuf/xs/protobuf/obj_cache.c:118-265 | so in every reachable state |
| ObjCache.GetLogs | Protobuf/xs/protobuf/obj_cache.c:191-209 | a lookup logs a hit exactly when an addition of the pointer is current, and otherwise a miss and drops the entry |
| ObjCache.DeleteLogs | Protobuf/xs/protobuf/obj_cache.c:227-230 | a deletion is logged exactly when history says there is an entry, dead ones included |
| ObjCache.AddBounds | Protobuf/xs/protobuf/obj_cache.c:154-175 | after an addition the queue is the last `capacity` keys, and queue and cache are within the capacity |
| ObjCache.TrimForm | Protobuf/xs/protobuf/obj_cache.c:158-174 | the eviction loop as a whole takes out the oldest keys in order, each with its entry and an event |
| ObjCache.LogKinds | Protobuf/xs/protobuf/obj_cache.c:152-169 | the logged additions and evictions are those of the history |
| ObjCache.TrimKeeps | Protobuf/xs/protobuf/obj_cache.c:158-174 | the eviction loop ends with exactly the newest `capacity` keys queued, invariant kept |
| ObjCache.SurvivesExactly | Protobuf/xs/protobuf/obj_cache.c:154-175 | an entry stored for any pointer, queued before or not, is found if and only if evictions have not reached the oldest key of that pointer: by the exact count of additions since; the queue is the last `capacity` keys of all |
| ObjCache.SurvivesUnqueued | Protobuf/xs/protobuf/obj_cache.c:154-175 | a pointer not queued before is found if and only if fewer than `capacity` additions followed |
| ObjCache.QueueIsLastAdded | Protobuf/xs/protobuf/obj_cache.c:154-175 | with constant capacity the queue is always the last N added pointers since the latest clear |
| ObjCache.HoldsLastAdded | Protobuf/xs/protobuf/obj_cache.c:154-233 | when no pointer is added twice, exactly the last N added, minus deleted and dead, are found |
| ObjCache.WrapIdentity | Protobuf/xs/protobuf/utils.c:326-352 | wrapping a pointer again gives the same wrapper if and only if evictions have not reached the oldest key of the pointer, old keys of earlier wrappers included |
| ObjCache.CleanupForgets | Protobuf/xs/protobuf/utils.c:308-315 | the cleanup leaves nothing cached for the pointer; it forgets something the death alone would have left if and only if an object other than the dying one was cached |
| ObjCache.EvictedWrapperDies | Protobuf/xs/protobuf/utils.c:308-352 | once evictions have reached its key a pointer is wrapped anew; the first wrapper's death then makes the cache forget the second, living one, and a third is made; with the exact condition for the second to have been cached |
| ObjCache.Cache.Add | Protobuf/xs/protobuf/obj_cache.c:130-176 | the entry is stored, the queue is the last `capacity` keys, the evicted keys lose their entries, and the log gets the addition and then the evictions in order; nothing happens for a null pointer or a non-reference |
| ObjCache.Cache.Get | Protobuf/xs/protobuf/obj_cache.c:178-213 | an object is answered if and only if it is the one of the latest addition of that pointer with no end since; a hit is logged exactly then and a miss otherwise, when a dead entry is dropped |
| ObjCache.Cache.Delete | Protobuf/xs/protobuf/obj_cache.c:215-233 | the entry is gone, the queue keeps its key, and a deletion is logged exactly when there was an entry |
| ObjCache.Cache.SetCapacity | Protobuf/xs/protobuf/obj_cache.c:118-124 | only the capacity changes; nothing is evicted yet |
| ObjCache.Cache.Clear | Protobuf/xs/protobuf/obj_cache.c:242-265 | cache, queue and log are emptied |
| ObjCache.Cache.ObjectDies | Protobuf/xs/protobuf/obj_cache.c:143-145 | the weak references to a dead object are emptied, and no others |
| ObjCache.Cache.WrapObject | Protobuf/xs/protobuf/utils.c:326-352 | the cached wrapper, or a new one which is then cached |
| ObjCache.Cache.WrapperDies | Protobuf/xs/protobuf/utils.c:308-315 | weak references to the dying wrapper are emptied and the entry of its pointer is deleted, whoever's it is |
| AuditLog.RingPush | Protobuf/xs/protobuf/obj_cache.c:80-88 | storing behind the newest slot of the ring is appending, and on a full ring dropping the oldest |
| AuditLog.LastAppend | Protobuf/xs/protobuf/obj_cache.c:80-88 | keeping the last n after each append is keeping the last n of everything |
| AuditLog.Log.LogEvent | Protobuf/xs/protobuf/obj_cache.c:76-90 | the ring stays the last 2048 events of the history, to which the event is added when the log is initialised |
| AuditLog.Log.Reset | Protobuf/xs/protobuf/obj_cache.c:256-259 | the history starts anew |
| AuditLog.Log.GetAuditLog | Protobuf/xs/protobuf/obj_cache.c:267-283 | exactly the last 2048 events since the latest clear, in order |
| CacheLocks.CallInOrder | Protobuf/xs/protobuf/obj_cache.c:76-265 | every call touches nothing unlocked and ends holding nothing; all but Clear take queue, one stripe, audit in that order; all but an evicting Add take stripes by number, queue, audit |
| CacheLocks.ClearInOrder | Protobuf/xs/protobuf/obj_cache.c:242-265 | Clear takes the stripes by number, then the queue, then the audit log, and is balanced |
| CacheLocks.CallTouches | Protobuf/xs/protobuf/obj_cache.c:76-233 | what every call but Clear touches, in which order and under which locks: an Add has let go of its stripe before it logs and takes the queue, evictions and lookups log under their stripe |
| CacheLocks.ClearTouches | Protobuf/xs/protobuf/obj_cache.c:246-264 | Clear touches all stripes' entries, the queue and the log under all locks |
| CacheLocks.StripesInTurn | Protobuf/xs/protobuf/obj_cache.c:70-73 | sixteen-byte blocks of addresses go to the sixteen stripes in turn |
| CacheLocks.ReachesKeeps | Protobuf/xs/protobuf/obj_cache.c:76-283 | in every interleaving of any number of threads the lock invariant holds (Clear beginning only when no call is in flight) |
| CacheLocks.RaceFree | Protobuf/xs/protobuf/obj_cache.c:130-265 | whatever calls overlap, two threads are never about to touch the entries of one stripe, the queue or the ring |
| CacheLocks.LookupsTogether | Protobuf/xs/protobuf/obj_cache.c:178-213 | two threads can be inside the table at once, looking up two pointers, if and only if the pointers are in different stripes |
| CacheLocks.NoDeadlock | Protobuf/xs/protobuf/obj_cache.c:76-283 | with Clear run alone, while any call is in flight some thread can move |
| CacheLocks.EveryScheduleFinishes | Protobuf/xs/protobuf/obj_cache.c:76-283 | under every schedule all calls complete after exactly the remaining number of moves, and all locks are free |
| CacheLocks.OverlappingClearDeadlocks | Protobuf/xs/protobuf/obj_cache.c:246-249 | for every Add that evicts, a Clear begun beside it can reach a deadlock |
| CacheLocks.DeadlockExactly | Protobuf/xs/protobuf/obj_cache.c:130-265 | for every set of calls that may overlap freely, a deadlock is reachable if and only if Clear and an evicting Add are both in it |
| FastAccessors.CoherentMeans | Protobuf/xs/protobuf/fast_accessors.c:62-117 | an object is coherent if and only if on every field the fast getter answers what the uncached read answers and leaves the message as that read does |
| FastAccessors.GetterAgrees | Protobuf/xs/protobuf/fast_accessors.c:62-117 | on a coherent object the fast getter answers the uncached read and leaves the message as that read does |
| FastAccessors.StepCoherent | Protobuf/xs/protobuf/fast_accessors.c:48-117 | fast gets, sets, failed sets, clears and generic reads keep an object coherent |
| FastAccessors.FastRunsAgree | Protobuf/xs/protobuf/fast_accessors.c:48-208 | after every such run, from any flags, the fast getter agrees with the uncached read on every field, displaced oneof members included |
| FastAccessors.WriteHeavyRunsAgree | Protobuf/xs/protobuf/fast_accessors.c:66-70 | a write-heavy object agrees after every run, generic writes included |
| FastAccessors.SlowWriteCoherent | Protobuf/lib/Protobuf/Message.xs.part:55-63 | a generic write keeps an object coherent if and only if, before it, no memo is in use, or the value set is the one memoised, and what is memoised for the rest of the oneof (or for a cleared, non-container field) is the default |
| FastAccessors.AlwaysCoherentExactly | Protobuf/lib/Protobuf/Message.xs.part:55-85 | throughout any run, generic writes included, the fast getter agrees with the uncached read if and only if every generic write in it passes that check when it happens |
| FastAccessors.FastWriteRepairs | Protobuf/xs/protobuf/fast_accessors.c:139-147 | any successful fast write makes any object coherent |
| FastAccessors.RepairedRunsAgree | Protobuf/xs/protobuf/fast_accessors.c:48-208 | after any run, generic writes included, the getter agrees if a fast write came after the last generic one |
| FastAccessors.StaleExample | Protobuf/lib/Protobuf/Message.xs.part:55-63 | fast get, generic set, fast get: the old value is answered |
| FastAccessors.SecondGetIsHit | Protobuf/xs/protobuf/fast_accessors.c:74-112 | after a fast get of a value another is answered from the memo and changes nothing |
| FastAccessors.WriteHeavyUntouched | Protobuf/xs/protobuf/fast_accessors.c:55-70 | on a write-heavy object no run touches flags or memo |
| FastAccessors.FastWriteMarks | Protobuf/xs/protobuf/fast_accessors.c:139-147 | on any other object a fast write sets the dirty bit, and the memo answers nothing any more |
| FastAccessors.FailedSetChangesNothing | Protobuf/xs/message/access.c:52-57 | a set whose conversion croaks changes nothing, not even the dirty bit; a generic write changes the message alone |
| FastAccessors.SeenFrom | Protobuf/xs/protobuf/fast_accessors.c:48-117 | a fast call through one wrapper of a message is a generic call for every other wrapper of it |
| FastAccessors.StepThroughCoherent | Protobuf/xs/protobuf/fast_accessors.c:139-147 | a call through any wrapper keeps all wrappers of the message coherent if and only if it is harmless to those whose dirty bit it does not set |
| FastAccessors.WrappersAgreeExactly | Protobuf/xs/protobuf/fast_accessors.c:48-208 | throughout any run through any number of wrappers of one message all fast getters agree with the uncached read if and only if every write is harmless, when it happens, to the wrappers it bypasses |
| FastAccessors.TwoWrappersExample | Protobuf/xs/protobuf/fast_accessors.c:139-147 | fast get through one wrapper, fast set through another, and the first still answers the old value |
| FastAccessors.ReadStable | Protobuf/xs/message/access.c:12-43 | reading a field again answers the same and changes nothing; only an absent container is changed by being read, and no other field |
| FastAccessors.ReadAfterWrite | Protobuf/xs/message/access.c:45-58 | after a set, the field reads as the value, the rest of its oneof as default, and every other field as before |
| FastAccessors.ReadAfterErase | Protobuf/xs/message/access.c:71-76 | after a clear, the field reads as its default or as a new container, and every other field as before |
| FastAccessors.MessageObject.Invalidate | Protobuf/xs/protobuf/fast_accessors.c:141-147 | the dirty bit is set unless the object is write-heavy |
| FastAccessors.MessageObject.Get | Protobuf/xs/protobuf/fast_accessors.c:62-117 | the specified step, and on a coherent object the uncached answer |
| FastAccessors.MessageObject.Set | Protobuf/xs/protobuf/fast_accessors.c:119-150 | the specified step; a failed conversion changes nothing |
| FastAccessors.MessageObject.Clear | Protobuf/xs/protobuf/fast_accessors.c:178-208 | the specified step |
| BlockAlloc.Aligned | Protobuf/xs/protobuf/arena_tmpfs.c:126-127 | a block takes a multiple of 16, at least its size plus 32 and at most its size plus 47 |
| BlockAlloc.WrapExactly | Protobuf/xs/protobuf/arena_tmpfs.c:126-128 | in 64-bit arithmetic the test is exact while offset + size + 47 stays below 2^64; from there on it lets a block beyond the region pass for all sizes up to 2^64 - 32, and for larger ones if and only if the 16 or 32 bytes left of the sum pass |
| BlockAlloc.BlocksApart | Protobuf/xs/protobuf/arena_tmpfs.c:125-138 | blocks are 16-aligned, lie with their canaries in the used region, and two never share a byte, canaries included |
| BlockAlloc.RunTiles | Protobuf/xs/protobuf/arena_tmpfs.c:125-138 | on every run from an empty region the rounded blocks tile [0, offset), offset is a multiple of 16 within the region, and user areas with canaries are disjoint |
| BlockAlloc.RequestFacts | Protobuf/xs/protobuf/arena_tmpfs.c:46-140 | a call croaks exactly when the canaries of its block are damaged (saying which side), does nothing once poisoned, and hands out a block exactly when one is asked for and fits; a new block is intact, costs size plus 32 to 47 bytes and starts with the first min(old, new) bytes of the old one |
| BlockAlloc.OldBlocksKept | Protobuf/xs/protobuf/arena_tmpfs.c:77-90 | no call disturbs a block handed out before: user area and canaries stay |
| BlockAlloc.UserBytesStay | Protobuf/xs/protobuf/arena_tmpfs.c:77-138 | on every run a user byte keeps its value until a store to that very address |
| BlockAlloc.RunInv | Protobuf/xs/protobuf/arena_tmpfs.c:46-140 | every run keeps the tiling; nothing is taken back, and the poison flag is never reset |
| BlockAlloc.WellBehavedNeverCroaks | Protobuf/xs/protobuf/arena.h:116-130 | if every store goes into a user area handed out before it, no check ever fails and the flag stays clear |
| BlockAlloc.StoreIntact | Protobuf/xs/protobuf/arena.h:116-130 | a store outside a block's guard bytes leaves its health as it was; one that changes a guard byte of an intact block damages it |
| BlockAlloc.CanaryWords | Protobuf/xs/protobuf/arena.h:104-114 | the guard bytes are the pattern 0xDEADBEEFCAFEBABE twice, in little-endian order, and none is zero |
| BlockAlloc.IntactWords | Protobuf/xs/protobuf/arena.h:119-129 | comparing four 64-bit words with the pattern decides about the 32 guard bytes |
| BlockAlloc.ZeroDetected | Protobuf/xs/protobuf/arena.h:116-130 | a zero stored on any guard byte of an intact block makes its next free or realloc croak, with underflow exactly when it lay before the block |
| BlockAlloc.DamageStays | Protobuf/xs/protobuf/arena.h:107-130 | no request repairs a damaged block |
| BlockAlloc.CorruptionDetected | Protobuf/xs/protobuf/arena.h:116-130 | after a store that changes any of the 32 guard bytes, and any further run that leaves them alone, the block's next free or realloc croaks (or returns NULL if another check failed before) and the allocator is poisoned |
| BlockAlloc.PoisonedForGood | Protobuf/xs/protobuf/arena_tmpfs.c:50 | from then on, after any run, every request returns NULL and changes nothing |
| BlockAlloc.BlockAllocator.constructor | Protobuf/xs/protobuf/arena.h:43 | a fresh region nothing has been taken from |
| BlockAlloc.BlockAllocator.WriteCanaries | Protobuf/xs/protobuf/arena.h:107-114 | exactly the 16 bytes before and after the user area are written |
| BlockAlloc.BlockAllocator.VerifyCanaries | Protobuf/xs/protobuf/arena.h:116-130 | underflow is reported before overflow; the flag is set exactly on damage |
| BlockAlloc.BlockAllocator.Func | Protobuf/xs/protobuf/arena_tmpfs.c:46-140 | allocation, reallocation and free on the region give the specified state and result |
| Convert.ScalarRoundTrip | Protobuf/xs/convert/upb_to_sv.c:16-47 | every value of every scalar type comes back unchanged by the batch path, and by the checked path except floats beyond the limit, which croak |
| ConvertedValues.IntegerGiven | Protobuf/xs/convert/sv_to_upb.c:50-146 | an integer is taken exactly by each integer type within its range and croaks outside it (in signed 64-bit fields large ones keep their bits, in enums the low 32); what all other types make of it |
| ConvertedValues.NumberGiven | Protobuf/xs/convert/sv_to_upb.c:50-146 | a double croaks exactly beyond the bounds of the 32-bit and float types, and for unsigned 64-bit when negative; otherwise integers lose the fraction; no strings, bytes or enums |
| ConvertedValues.StringGiven | Protobuf/xs/convert/sv_to_upb.c:50-146 | for every type when a string croaks and what it gives: strtoll and strtoull for 64 bits, false for "" and "0", the named number for enums and a croak for unknown names, UTF-8 for strings and bytes for bytes |
| ConvertedValues.YesNoGiven | Protobuf/xs/convert/sv_to_upb.c:50-146 | what PL_sv_yes and PL_sv_no give on every type |
| ConvertedValues.ReferenceGiven | Protobuf/xs/convert/sv_to_upb.c:147-196 | what undef, arrays, hashes and objects give on every type; message fields take objects of their own type only, and hashes |
| ConvertedValues.FieldGiven | Protobuf/xs/convert/sv_to_upb.c:261-447 | undef croaks; repeated fields croak on all but arrays and take them element by element; arrays of numbers, truth values and enums never croak, other arrays exactly when an element does |
| ConvertedValues.HashGiven | Protobuf/xs/convert/sv_to_upb.c:152-178 | a hash croaks exactly when some key, cut at its first NUL, is the name of no field or its value does not convert for that field; each field of the message is the converted value of an entry whose key names it |
| ConvertedValues.ElementUnchecked | Protobuf/xs/convert/sv_to_upb.c:211-259 | an array element beyond 32 bits keeps its low bits, and a string in an array of enums is read as a number |
| ConvertedValues.ProjectedValue | Protobuf/xs/convert/upb_to_sv.c:16-47 | what Perl sees of every scalar: integers in Perl's own form, truth values as PL_sv_yes and PL_sv_no, the UTF8 flag on strings and not on bytes |
| ConvertedValues.MessageIsPlain | Protobuf/xs/convert/upb_to_sv.c:189-277 | a message becomes plain data at every depth: exactly its present fields, whole arrays, and hashes for messages within |
| ConvertedValues.SingularRoundTrip | Protobuf/xs/convert/upb_to_sv.c:48-56 | a value converted by itself, a message as a wrapper of it, is taken back as itself |
| ConvertedValues.UpgradeCharacters | Protobuf/xs/convert/sv_to_upb.c:63-73 | the UTF-8 of a string without the flag has, by section 3 of RFC 3629, its bytes as characters |
| ConvertedValues.DowngradeCharacters | Protobuf/xs/convert/sv_to_upb.c:74-84 | a flagged string gives its characters as bytes exactly when they all fit a byte, and croaks otherwise |
| ConvertedValues.DowngradeExactly | Protobuf/xs/convert/sv_to_upb.c:74-84 | downgrading undoes upgrading and succeeds on nothing else |
| Convert.LargestFloatRefused | Protobuf/xs/convert/sv_to_upb.c:88-95 | the largest single-precision number is refused |
| Convert.BatchAgrees | Protobuf/xs/convert/sv_to_upb.c:211-259 | wherever the checked conversion succeeds the batch gives the same value, except for enum names, where it does so if and only if Perl reads the name as its number |
| Convert.MessageRoundTrip | Protobuf/xs/convert/upb_to_sv.c:189-277 | for every message tree, of any depth, with oneofs, repeated and nested fields: the projection converts back if and only if no singular float is beyond the limit, and then to the message itself and nothing else, in every iteration order of every hash |
| Convert.RoundTripInOrder | Protobuf/xs/convert/sv_to_upb.c:152-178 | in every iteration order the way back gives the message itself, or croaks exactly when some singular float is beyond the limit |
| Convert.MessageResult | Protobuf/xs/convert/sv_to_upb.c:152-178 | in every iteration order the population croaks exactly when some key, cut at its first NUL, is no field or some value is not accepted, and otherwise gives a message with each entry on its field, unless it is an empty array, overwritten by another key for the field, or displaced within its oneof |
| Convert.OrdersAgreeExactly | Protobuf/xs/convert/sv_to_upb.c:158-177 | all iteration orders of a hash and the hashes in it give one result if and only if the hash is not accepted, or no two entries of one hash name two members of one oneof, or one field with values that convert differently |
| Convert.AlikeExactly | Protobuf/xs/convert/sv_to_upb.c:261-447 | whether two values for a field convert alike is told by converting both, in any order |
| Convert.MessageClash | Protobuf/xs/convert/sv_to_upb.c:158-177 | for every accepted hash with such a clash of either kind, at any depth, two orders that give two different messages |
| Convert.OrderIrrelevant | Protobuf/xs/convert/sv_to_upb.c:158-177 | without a clash there is at most one message the entries can be turned into |
| Convert.ClashExample | Protobuf/xs/convert/sv_to_upb.c:158-177 | two members of one oneof: in either order, the one iterated last is the one left |
| Convert.NulExample | Protobuf/xs/convert/sv_to_upb.c:162-173 | two keys that differ after a NUL only: both name the field, and in either order the one iterated last decides |
| Convert.CStringSame | Protobuf/xs/convert/sv_to_upb.c:163-166 | a key without a NUL is looked up whole |
| Convert.CStringCuts | Protobuf/xs/convert/sv_to_upb.c:163-166 | nothing from the first NUL of a key on is seen |
| Convert.SetFieldKeeps | Protobuf/xs/convert/sv_to_upb.c:161-175 | setting one more entry keeps the message one that the entries so far can produce |
| Convert.UpbToSvBatch | Protobuf/xs/convert/upb_to_sv.c:69-82 | four values a round and the rest one by one give what the element-wise conversion gives (which `ConvertedValues.SingularRoundTrip` characterises) |
| Convert.UpbToSvBatchRaw | Protobuf/xs/convert/upb_to_sv.c:85-127 | the raw batch gives what the element-wise conversion gives |
| Convert.MessageToPerl | Protobuf/xs/convert/upb_to_sv.c:189-277 | the loop over the fields fills the hash with exactly the present fields, recursively |
| Convert.SlotToPerl | Protobuf/xs/convert/upb_to_sv.c:236-270 | a repeated field becomes the array of its converted elements, by either path |
| Convert.ValueToPerl | Protobuf/xs/convert/upb_to_sv.c:255-270 | a sub-message becomes a nested hash, anything else a scalar |
| Convert.SvToUpbBatchRaw | Protobuf/xs/convert/sv_to_upb.c:211-259 | the loop chosen by the type gives each element without type or range check, which is the checked conversion's value where that succeeds (enum names excepted) |
| Convert.SvToUpb | Protobuf/xs/convert/sv_to_upb.c:261-447 | gives the specified slot in the given iteration order, and croaks exactly on what is not accepted |
| Convert.ConvertSingular | Protobuf/xs/convert/sv_to_upb.c:50-202 | the same for one value: scalars, plain hashes, and objects of exactly the field's type |
| Convert.BuildMessage | Protobuf/xs/convert/sv_to_upb.c:152-178 | population from a hash in the given order gives the specified message; it croaks exactly when some key, cut at its first NUL, is no field or some value is not accepted |
| Convert.RoundTrip | Protobuf/xs/convert/sv_to_upb.c:152-178 | running both conversions, in any iteration order, gives the message back, or croaks exactly on a refused float |
| ClassNames.SplitJoined | Protobuf/protoc/helpers.cc:39-52 | splitting names joined by dots gives the names back |
| ClassNameForms.SplitBetween | Protobuf/protoc/helpers.cc:39-52 | splitting undoes joining, empty pieces in the middle kept |
| ClassNameForms.SplitTrailing | Protobuf/protoc/helpers.cc:41-50 | a delimiter at the end makes no piece |
| ClassNameForms.UpperLetters | Protobuf/xs/protobuf/utils.c:156-157 | lower-case letters go to the upper-case letter at the same place of the alphabet, every other character to itself |
| ClassNameForms.CapitalizedLetters | Protobuf/protoc/helpers.cc:97-100 | capitalising changes the first character only |
| ClassNameForms.PackageForm | Protobuf/protoc/helpers.cc:92-104 | a package becomes its capitalised segments with `::` between them |
| ClassNameForms.CamelForm | Protobuf/protoc/helpers.cc:54-62 | both camel-casings put the capitalised words together |
| ClassNameForms.BaseNameForm | Protobuf/xs/protobuf/utils.c:171-172 | the base of a path is what follows its last slash, and the path itself without one |
| ClassNameForms.FileModuleOfBase | Protobuf/protoc/generator.cc:115-119 | on both sides the module of a file is that of its base name, whatever the directory |
| ClassNameForms.FileModuleForm | Protobuf/xs/protobuf/utils.c:170-196 | it is the camel-cased base name up to the first dot for the runtime and up to the last for the generator |
| ClassNameForms.FileModuleLetters | Protobuf/xs/protobuf/utils.c:170-196 | a module has no slash, underscore or dot |
| ClassNameForms.RuntimeClassForm | Protobuf/xs/protobuf/utils.c:209-236 | the runtime's class in closed form: capitalised package, file words together, capitalised names, for any directory |
| ClassNameForms.ClassParts | Protobuf/xs/protobuf/utils.c:217-237 | the class with a package, without one, and for a name that is the package itself |
| ClassNameForms.ResolvedForm | Protobuf/protoc/generator.cc:97-105 | what the generator resolves, in closed form: the file's package and the names as they are, or without a package the capitalised names alone |
| ClassNameForms.UnregisteredForm | Protobuf/protoc/generator.cc:102-104 | an unregistered name resolves to its capitalised segments, with or without a dot in front |
| ClassNameForms.LaterCounts | Protobuf/protoc/generator.cc:46-59 | of two files or messages registered under one name the later counts |
| ClassNameForms.RelativeForms | Protobuf/xs/protobuf/utils.c:217-224 | what is left of a full name without its package, in all cases |
| ClassNameForms.GeneratorPackageForm | Protobuf/protoc/generator.cc:107-132 | the generator's package of a file in closed form |
| ClassNameForms.ClassHasNoSlash | Protobuf/xs/protobuf/utils.c:209-236 | no class name has a slash |
| ClassNameForms.ClassExample | Protobuf/xs/protobuf/utils.c:209-236 | one class spelled out |
| ClassNames.CapitalizationsAgree | Protobuf/xs/protobuf/utils.c:149-168 | on dotted names the runtime's character loop and the generator's segment loop capitalise alike |
| ClassNames.CamelCasesAgree | Protobuf/xs/protobuf/utils.c:177-193 | on every string the runtime's and the generator's camel-casing are the same |
| ClassNames.FileModulesAgree | Protobuf/xs/protobuf/utils.c:170-196 | the file modules are the same if and only if the base name has at most one dot |
| ClassNames.Lookup | Protobuf/protoc/generator.cc:50-95 | in a legal request every message of a file with a package is found under its type name with its class, and none of a file without |
| ClassNames.ClassesAgree | Protobuf/protoc/generator.cc:97-132 | for every message of every legal request, however deep, generator and runtime agree if and only if the file has a package, its base name has at most one dot and no name on the path starts in lower case |
| ClassNames.SplitString | Protobuf/protoc/helpers.cc:39-52 | the pieces between delimiters, an empty last piece dropped |
| ClassNames.CamelCase | Protobuf/protoc/helpers.cc:54-62 | the loop computes the specified camel-casing |
| ClassNames.CapitalizeSegments | Protobuf/protoc/helpers.cc:92-104 | the loop computes capitalised segments joined by colons |
| ClassNames.CapitalizePathLoop | Protobuf/xs/protobuf/utils.c:149-168 | nothing for an empty string; otherwise the specified name, in a buffer of twice the length plus one |
| ClassNames.FileModuleLoop | Protobuf/xs/protobuf/utils.c:170-196 | the specified module, in a buffer of the base's length plus one |
| ClassNames.MessageStashName | Protobuf/xs/protobuf/utils.c:209-236 | the specified class name, of exactly the length allocated for it |
| ClassNames.Generator.BuildPackageMap | Protobuf/protoc/generator.cc:38-48 | the package of every file, later files of a name winning |
| ClassNames.Generator.RegisterTypesRecursively | Protobuf/protoc/generator.cc:50-67 | one entry for a message and each message nested in it, in order |
| ClassNames.Generator.RegisterAll | Protobuf/protoc/generator.cc:91-93 | the same for all messages of a file |
| ClassNames.Generator.BuildTypeMap | Protobuf/protoc/generator.cc:69-95 | all entries of all files |
| ClassNames.Generator.ResolvePerlClass | Protobuf/protoc/generator.cc:97-105 | the registered class, or the capitalised name |
| ClassNames.ResolveBoth | Protobuf/protoc/generator.cc:38-132 | running both sides on any legal request: they agree under the condition of ClassesAgree and no other |
| NameTranslation.FullNameComesBack | Protobuf/xs/protobuf/utils.c:56-147 | class-to-full undoes full-to-class if and only if no colon is followed by a colon or a dot |
| NameTranslation.ClassNameComesBack | Protobuf/xs/protobuf/utils.c:56-147 | full-to-class undoes class-to-full if and only if the class name has no dot, however its colons run |
| NameTranslation.DottedStays | Protobuf/xs/protobuf/utils.c:95-102 | a name comes out of class-to-full as itself if and only if it has no two colons in a row |
| NameTranslation.UndottedStays | Protobuf/xs/protobuf/utils.c:136-144 | a name comes out of full-to-class as itself if and only if it has no dot |
| NameTranslation.SegmentTranslated | Protobuf/xs/protobuf/utils.c:95-102 | segment by segment, two colons become a dot |
| NameTranslation.DotTranslated | Protobuf/xs/protobuf/utils.c:136-144 | segment by segment, a dot becomes two colons |
| NameTranslation.PlainCopies | Protobuf/xs/protobuf/utils.c:66-92 | a chunk without dots and colons may be copied whole, whatever follows |
| NameTranslation.CopyPlainChunks | Protobuf/xs/protobuf/utils.c:66-92 | the vector loops stop in a state from which the scalar loop finishes the same translation, inside the buffer |
| NameTranslation.ClassNameToFullName | Protobuf/xs/protobuf/utils.c:56-105 | with or without vector loops the same C string, in a buffer of the input's length plus one |
| NameTranslation.FullNameToClassName | Protobuf/xs/protobuf/utils.c:110-147 | the same, in a buffer of the input's length plus its dots plus one |
| Base64.TextDecodes | Protobuf/protoc/generator.cc:264-275 | the decoder of section 4 of RFC 4648, strict about padding and leftover bits, gives the bytes back; the length is four characters for every three bytes begun |
| Base64.PaddingIsRight | Protobuf/protoc/generator.cc:273-274 | two, one or no padding characters, by the length modulo three |
| Base64.ShortVectors | Protobuf/protoc/generator.cc:264-275 | test vectors of section 10 of RFC 4648: the empty string, "f" and "fo" |
| Base64.LongVector | Protobuf/protoc/generator.cc:264-275 | and "foobar" |
| Base64.BrokenIsText | Protobuf/protoc/generator.cc:276 | newlines are all that is added |
| Base64.BrokenLines | Protobuf/protoc/generator.cc:276 | every line but the last has exactly 72 characters, and the last has fewer, a multiple of four |
| Base64.EmittedText | Protobuf/protoc/generator.cc:259-278 | the emitted text decodes to the descriptor, all lines but the last have exactly 72 characters, and no line ends the here-document early |
| Base64.EmitDescriptor | Protobuf/protoc/generator.cc:264-278 | the loop emits that text and the closing line |
| Base64.EmitGroup | Protobuf/protoc/generator.cc:267-274 | the four characters of one group |
| Base64.OrWord | Protobuf/protoc/generator.cc:267-269 | or-ing the three bytes into one word is adding them at their places |
| RegexMatcher.SinglePattern | Protobuf/t/c/upb-perl-test.h:164-166 | what a single character or dot at the head of a pattern means |
| RegexMatcher.StarPattern | Protobuf/t/c/upb-perl-test.h:162 | what a starred character at the head of a pattern means |
| RegexMatcher.DollarPattern | Protobuf/t/c/upb-perl-test.h:163 | a final dollar matches only the end |
| RegexMatcher.DotPattern | Protobuf/t/c/upb-perl-test.h:164-165 | a dot stands for any one character |
| RegexMatcher.LiteralPattern | Protobuf/t/c/upb-perl-test.h:164-165 | any other character stands for itself, a caret or dollar out of place included |
| RegexMatcher.RunPattern | Protobuf/t/c/upb-perl-test.h:169-174 | a starred character stands for any run of itself, a starred dot for any run |
| RegexMatcher.CaretPattern | Protobuf/t/c/upb-perl-test.h:152-158 | a caret in front ties the match to the start of the text; without one it may start anywhere |
| RegexMatcher.PlainPattern | Protobuf/t/c/upb-perl-test.h:152-174 | a pattern without special characters is found exactly where it occurs, and between caret and dollar in itself only |
| RegexMatcher.MatchHere | Protobuf/t/c/upb-perl-test.h:160-167 | succeeds if and only if a prefix of the text is in the pattern's language (all of it under a final dollar), and terminates |
| RegexMatcher.MatchStar | Protobuf/t/c/upb-perl-test.h:169-174 | succeeds if and only if some run of accepted characters leaves a text the rest of the pattern matches |
| RegexMatcher.Match | Protobuf/t/c/upb-perl-test.h:152-158 | succeeds if and only if a match starts somewhere, at the start under a caret |

## Left out

- Map fields, extensions, unknown data and fields of implicit presence in the conversion between messages and Perl data; messages have explicit presence.
- Values of `Math::BigInt` and tied containers as conversion input; 64-bit integers are Perl's own.
- upb itself: encoding, decoding, arenas, descriptor pools. Payloads are opaque bytes, messages are values, and setting or clearing a field is a function of the message.
- Framing.FromHandle: the arena is taken to provide a buffer of any declared length; that it may fail to is not part of this model.
- Framing.ReadFrames: that the payload bytes then parse as a message is not part of this model.
- BlockAlloc.BlockAllocator.Func: the branch with guard pages, mapped files and the out-parameter `actual_size` are not modelled, and a request whose sums would wrap a `size_t` is excluded (what the code's test does with it is `BlockAlloc.WrapExactly`, what the block then overwrites is not modelled); the region starts with zero bytes.
- BlockAlloc.BlockAllocator.VerifyCanaries: the canary is compared as sixteen bytes, not as two words; the message of the croak is reduced to the side.
- ObjCache.Cache.Add: a failing hash store and global destruction are not modelled.
- ObjCache.Cache.ObjectDies: when an object dies is up to Perl's reference counts, which are not modelled; a death can come at any point of a run.
- ObjCache.Cache.WrapObject: the fields, class and magic of the new wrapper are reduced to its identity.
- AuditLog.Log.LogEvent: time stamps are not modelled.
- CacheLocks.RaceFree: says nothing about the hash table as one object. The source keeps the entries of all stripes in one hash for each interpreter, and the lock of a stripe guards the stripe's entries only (`CacheLocks.LookupsTogether`); the model has no interpreters, whose tables are separate.
- CacheLocks.ReachesKeeps: contention counters, which are updated partly outside the locks, and the one-time initialisation of the mutexes are not modelled; the data each lock protects are resources that are touched, their contents being the subject of the sequential model.
- FastAccessors.MessageObject.Get: objects that are not XS-backed, a failing hash store and callers that modify a returned scalar in place are not modelled; the bits of `mg_private` are booleans.
- `PerlUpb_FastHas`, which uses no memo.
- Convert.OrdersAgreeExactly: scalars are values. That Perl caches in a string scalar its first reading as a number, which a scalar reached through two places of the data then shows at the second, and that a scalar may hold a string and a different number at once, is not modelled; nor are tied hashes.
- Convert.UpbToSvBatch: the source has no caller of this batch; it is modelled by itself.
- Convert.ConvertSingular: the deep copy of a message object is the same value; numbers outside the range of a 64-bit cast are whatever Perl makes of them; the validity of string bytes as UTF-8 is not examined, as the source does not examine it.
- ClassNames.MessageStashName: the per-interpreter table of classes already computed and the setting up of inheritance are not modelled.
- NameTranslation.CopyPlainChunks: a vector compare and store is a test and copy of 32 or 16 characters; processor detection is not modelled.
- RegexMatcher.Match: texts and patterns are values; a caret or dollar that is not at its place is an ordinary character, as in the source.
- The thin wrappers over descriptors, pools, containers and arenas, and the gRPC and authentication bindings, which would only add easy members.
