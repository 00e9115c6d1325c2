/** The object cache of one interpreter: weak references by pointer, bounded by a
    first-in-first-out queue of keys that may be stale or repeated. */
module ObjCache {
  import opened AuditLog
  import opened Sequences

  type Ptr = nat

  const NULL: Ptr := 0

  /** An object's identity. */
  type Obj = nat

  /** A Perl reference; a weak one loses its target when the object dies. */
  datatype Ref = Undef | To(obj: Obj)

  // ---------------------------------------------------------------- specification

  /** What has happened to the cache: evictions, lookups with their outcome, and deletions with
      whether there was an entry included. */
  datatype Happening =
    | Added(ptr: Ptr, obj: Obj)
    | Evicted(ptr: Ptr)
    | Deleted(ptr: Ptr, found: bool)
    | Looked(ptr: Ptr, answered: bool)
    | Cleared
    | Died(obj: Obj)

  datatype State = State(
    cache: map<Ptr, Ref>, queue: seq<Ptr>, capacity: nat,
    events: seq<Event>, trace: seq<Happening>)

  datatype Op =
    | Add(ptr: Ptr, ref: Ref)
    | Get(ptr: Ptr)
    | Delete(ptr: Ptr)
    | SetCapacity(capacity: nat)
    | Clear
    | Die(obj: Obj)

  const EMPTY: State := State(map[], [], 100000, [], [])

  function Logged(s: State, kind: int, ptr: Ptr): (r: State) {
    s.(events := s.events + [Event(kind, ptr)])
  }

  function EvictOldest(s: State): (r: State)
    requires s.queue != []
  {
    var p := s.queue[0];
    Logged(s.(queue := s.queue[1..], cache := s.cache - {p}, trace := s.trace + [Evicted(p)]), EVENT_EVICT, p)
  }

  function Trim(s: State): (r: State)
    decreases |s.queue|
  {
    if |s.queue| > s.capacity then Trim(EvictOldest(s)) else s
  }

  function Push(s: State, p: Ptr, o: Obj): (r: State) {
    Logged(s.(cache := s.cache[p := To(o)], queue := s.queue + [p], trace := s.trace + [Added(p, o)]), EVENT_ADD, p)
  }

  /** What `Get` answers. */
  function Lookup(s: State, p: Ptr): (r: Ref) {
    if p in s.cache then s.cache[p] else Undef
  }

  function Step(s: State, op: Op): (r: State) {
    match op
    case Add(p, ref) => if p == NULL || ref == Undef then s else Trim(Push(s, p, ref.obj))
    case Get(p) =>
      if p == NULL then s
      else if Lookup(s, p) != Undef then Logged(s.(trace := s.trace + [Looked(p, true)]), EVENT_HIT, p)
      else Logged(s.(cache := s.cache - {p}, trace := s.trace + [Looked(p, false)]), EVENT_MISS, p)
    case Delete(p) =>
      if p == NULL then s
      else
        var gone := s.(cache := s.cache - {p}, trace := s.trace + [Deleted(p, p in s.cache)]);
        if p in s.cache then Logged(gone, EVENT_DELETE, p) else gone
    case SetCapacity(n) => s.(capacity := n)
    case Clear => s.(cache := map[], queue := [], events := [], trace := s.trace + [Cleared])
    case Die(o) =>
      s.(cache := map p | p in s.cache :: if s.cache[p] == To(o) then Undef else s.cache[p],
         trace := s.trace + [Died(o)])
  }

  function Run(s: State, ops: seq<Op>): (r: State) {
    if ops == [] then s else Step(Run(s, ops[..|ops| - 1]), ops[|ops| - 1])
  }

  /** The object the latest `Add(p)` stored, if nothing since has ended it: no eviction,
      deletion or re-adding of `p`, no clear, and not the object's death. */
  ghost predicate Current(t: seq<Happening>, p: Ptr, o: Obj) {
    exists i :: 0 <= i < |t| && t[i] == Added(p, o) && forall j :: i < j < |t| ==> !Ends(t[j], p, o)
  }

  predicate Ends(h: Happening, p: Ptr, o: Obj) {
    h == Evicted(p) || IsDeletion(h, p) || h == Cleared || h == Died(o) || (h.Added? && h.ptr == p)
  }

  predicate IsDeletion(h: Happening, p: Ptr) { h.Deleted? && h.ptr == p }

  /** There is an entry for `p`, alive or dead: added, and since then neither evicted nor deleted
      nor cleared nor looked up in vain. */
  ghost predicate Entered(t: seq<Happening>, p: Ptr) {
    exists i :: 0 <= i < |t| && t[i].Added? && t[i].ptr == p && forall j :: i < j < |t| ==> !Removes(t[j], p)
  }

  predicate Removes(h: Happening, p: Ptr) {
    h == Evicted(p) || IsDeletion(h, p) || h == Cleared || h == Looked(p, false)
  }

  /** The history tells the truth: lookups were answered exactly when an addition was current,
      and deletions found something exactly when there was an entry. */
  ghost predicate Truthful(t: seq<Happening>) {
    forall i :: 0 <= i < |t| ==> True(t[..i], t[i])
  }

  ghost predicate True(before: seq<Happening>, h: Happening) {
    && (h.Looked? ==> (h.answered <==> exists o :: Current(before, h.ptr, o)))
    && (h.Deleted? ==> (h.found <==> Entered(before, h.ptr)))
  }

  /** The event that is logged for a happening, if one is. */
  function EventOf(h: Happening): (e: seq<Event>) {
    match h
    case Added(p, _) => [Event(EVENT_ADD, p)]
    case Evicted(p) => [Event(EVENT_EVICT, p)]
    case Deleted(p, found) => if found then [Event(EVENT_DELETE, p)] else []
    case Looked(p, answered) => [Event(if answered then EVENT_HIT else EVENT_MISS, p)]
    case _ => []
  }

  /** The log that belongs to a history: the events since the latest clear. */
  function LogOf(t: seq<Happening>): (events: seq<Event>) {
    if t == [] then []
    else
      var h, before := t[|t| - 1], t[..|t| - 1];
      if h == Cleared then [] else LogOf(before) + EventOf(h)
  }

  /** Pointers added, and pointers evicted, since the latest clear. */
  function AddedSince(t: seq<Happening>): (r: seq<Ptr>) {
    if t == [] then []
    else
      var h, before := t[|t| - 1], t[..|t| - 1];
      if h == Cleared then [] else AddedSince(before) + (if h.Added? then [h.ptr] else [])
  }

  function EvictedSince(t: seq<Happening>): (r: seq<Ptr>) {
    if t == [] then []
    else
      var h, before := t[|t| - 1], t[..|t| - 1];
      if h == Cleared then [] else EvictedSince(before) + (if h.Evicted? then [h.ptr] else [])
  }

  /** The pointers of the logged events of one kind. */
  function Kind(events: seq<Event>, kind: int): (r: seq<Ptr>) {
    if events == [] then []
    else
      var e := events[|events| - 1];
      Kind(events[..|events| - 1], kind) + (if e.kind == kind then [e.ptr] else [])
  }

  // ---------------------------------------------------------------- what every step keeps

  ghost predicate Inv(s: State) {
    // a live reference is cached exactly while the latest addition is current
    && (forall p, o :: (p in s.cache && s.cache[p] == To(o)) <==> Current(s.trace, p, o))
    // every cached key is queued
    && (forall p :: p in s.cache ==> p in s.queue)
    // first in, first out: what was added is what was evicted, then what is queued
    && AddedSince(s.trace) == EvictedSince(s.trace) + s.queue
    // there is an entry, alive or dead, exactly while history says so
    && (forall p :: p in s.cache <==> Entered(s.trace, p))
    // lookups and deletions were what history says, and the log tells the same story
    && Truthful(s.trace)
    && s.events == LogOf(s.trace)
  }

  /** One more happening ends what it ends and leaves everything else current. */
  lemma CurrentStep(t: seq<Happening>, h: Happening, p: Ptr, o: Obj)
    ensures Current(t + [h], p, o) <==> h == Added(p, o) || (Current(t, p, o) && !Ends(h, p, o))
  {
    var u := t + [h];
    if h == Added(p, o) {
      assert u[|t|] == Added(p, o);
    } else if Current(t, p, o) && !Ends(h, p, o) {
      var i :| 0 <= i < |t| && t[i] == Added(p, o) && forall j :: i < j < |t| ==> !Ends(t[j], p, o);
      assert u[i] == Added(p, o);
      assert forall j :: i < j < |u| ==> !Ends(u[j], p, o);
    }
    if Current(u, p, o) && h != Added(p, o) {
      var i :| 0 <= i < |u| && u[i] == Added(p, o) && forall j :: i < j < |u| ==> !Ends(u[j], p, o);
      assert !Ends(u[|t|], p, o);
      assert t[i] == Added(p, o);
      forall j | i < j < |t| ensures !Ends(t[j], p, o) { assert u[j] == t[j]; }
    }
  }

  lemma SinceStep(t: seq<Happening>, h: Happening)
    ensures AddedSince(t + [h]) ==
            if h == Cleared then [] else AddedSince(t) + (if h.Added? then [h.ptr] else [])
    ensures EvictedSince(t + [h]) ==
            if h == Cleared then [] else EvictedSince(t) + (if h.Evicted? then [h.ptr] else [])
  {
    assert (t + [h])[..|t|] == t;
  }

  /** One more happening makes and removes entries as it does. */
  lemma EnteredStep(t: seq<Happening>, h: Happening, p: Ptr)
    ensures Entered(t + [h], p) <==> (h.Added? && h.ptr == p) || (Entered(t, p) && !Removes(h, p))
  {
    var u := t + [h];
    if h.Added? && h.ptr == p {
      assert u[|t|].Added?;
    } else if Entered(t, p) && !Removes(h, p) {
      var i :| 0 <= i < |t| && t[i].Added? && t[i].ptr == p && forall j :: i < j < |t| ==> !Removes(t[j], p);
      assert u[i].Added?;
      assert forall j :: i < j < |u| ==> !Removes(u[j], p);
    }
    if Entered(u, p) && !(h.Added? && h.ptr == p) {
      var i :| 0 <= i < |u| && u[i].Added? && u[i].ptr == p && forall j :: i < j < |u| ==> !Removes(u[j], p);
      assert !Removes(u[|t|], p);
      assert t[i].Added?;
      forall j | i < j < |t| ensures !Removes(t[j], p) { assert u[j] == t[j]; }
    }
  }

  lemma TruthfulStep(t: seq<Happening>, h: Happening)
    requires Truthful(t) && True(t, h)
    ensures Truthful(t + [h])
  {
    var u := t + [h];
    forall i | 0 <= i < |u| ensures True(u[..i], u[i]) {
      assert u[..i] == t[..i];
      if i < |t| { assert True(t[..i], t[i]); } else { assert t[..i] == t; }
    }
  }

  /** All of one happening's effect on the history functions. */
  lemma Happens(s: State, h: Happening)
    requires Truthful(s.trace) && True(s.trace, h)
    ensures var t := s.trace + [h];
            && (forall p, o :: Current(t, p, o) <==> h == Added(p, o) || (Current(s.trace, p, o) && !Ends(h, p, o)))
            && (forall p :: Entered(t, p) <==> (h.Added? && h.ptr == p) || (Entered(s.trace, p) && !Removes(h, p)))
            && Truthful(t)
            && AddedSince(t) == (if h == Cleared then [] else AddedSince(s.trace) + (if h.Added? then [h.ptr] else []))
            && EvictedSince(t) == (if h == Cleared then [] else EvictedSince(s.trace) + (if h.Evicted? then [h.ptr] else []))
            && LogOf(t) == (if h == Cleared then [] else LogOf(s.trace) + EventOf(h))
  {
    forall p, o
      ensures Current(s.trace + [h], p, o) <==> h == Added(p, o) || (Current(s.trace, p, o) && !Ends(h, p, o))
    {
      CurrentStep(s.trace, h, p, o);
    }
    forall p ensures Entered(s.trace + [h], p) <==> (h.Added? && h.ptr == p) || (Entered(s.trace, p) && !Removes(h, p)) {
      EnteredStep(s.trace, h, p);
    }
    TruthfulStep(s.trace, h);
    SinceStep(s.trace, h);
    assert (s.trace + [h])[..|s.trace|] == s.trace;
  }

  /** The logged additions and evictions are those of the history. */
  lemma {:induction false} LogKinds(t: seq<Happening>)
    ensures Kind(LogOf(t), EVENT_ADD) == AddedSince(t)
    ensures Kind(LogOf(t), EVENT_EVICT) == EvictedSince(t)
  {
    if t == [] {
    } else {
      hide Kind, EventOf;
      var before, h := t[..|t| - 1], t[|t| - 1];
      LogKinds(before);
      NothingLogged();
      EventKind(h);
      KindStep(LogOf(before), h, EVENT_ADD);
      KindStep(LogOf(before), h, EVENT_EVICT);
    }
  }

  lemma NothingLogged()
    ensures Kind([], EVENT_ADD) == Kind([], EVENT_EVICT) == []
  {
  }

  lemma EventKind(h: Happening)
    ensures EventOf(h) != [] && EventOf(h)[0].kind == EVENT_ADD <==> h.Added?
    ensures EventOf(h) != [] && EventOf(h)[0].kind == EVENT_EVICT <==> h.Evicted?
  {
  }

  lemma KindStep(events: seq<Event>, h: Happening, kind: int)
    ensures Kind(events + EventOf(h), kind)
         == Kind(events, kind) + (if EventOf(h) != [] && EventOf(h)[0].kind == kind then [h.ptr] else [])
  {
    if EventOf(h) == [] {
      assert events + EventOf(h) == events && Kind(events, kind) + [] == Kind(events, kind);
    } else {
      assert (events + EventOf(h))[..|events|] == events;
    }
  }

  /** Happenings that make no claim are true. */
  lemma Plain(before: seq<Happening>, h: Happening)
    requires !h.Looked? && !h.Deleted?
    ensures True(before, h)
  {
  }

  lemma LookedTruly(s: State, p: Ptr)
    requires Inv(s)
    ensures True(s.trace, Looked(p, Lookup(s, p) != Undef))
  {
    hide Current, Entered, Truthful, AddedSince, EvictedSince, LogOf;
    if Lookup(s, p) != Undef { assert Current(s.trace, p, Lookup(s, p).obj); }
    if o :| Current(s.trace, p, o) { assert s.cache[p] == To(o); }
  }

  lemma DeletedTruly(s: State, p: Ptr)
    requires Inv(s)
    ensures True(s.trace, Deleted(p, p in s.cache))
  {
    hide Current, Entered, Truthful, AddedSince, EvictedSince, LogOf;
  }

  lemma PushKeeps(s: State, p: Ptr, o: Obj)
    requires Inv(s)
    ensures Inv(Push(s, p, o))
  {
    hide Current, Entered, True, Truthful, AddedSince, EvictedSince, LogOf;
    Plain(s.trace, Added(p, o));
    Happens(s, Added(p, o));
  }

  lemma EvictKeeps(s: State)
    requires Inv(s) && s.queue != []
    ensures Inv(EvictOldest(s))
  {
    hide Current, Entered, Ends, Removes, True, Truthful, AddedSince, EvictedSince, LogOf, EventOf;
    var p := s.queue[0];
    Plain(s.trace, Evicted(p));
    Happens(s, Evicted(p));
    EvictionEffects(p);
    HeadMoves(EvictedSince(s.trace), s.queue);
    forall q | q in s.cache - {p} ensures q in s.queue[1..] { NotHead(s.queue, q); }
  }

  lemma HeadMoves<T>(a: seq<T>, q: seq<T>)
    requires q != []
    ensures (a + [q[0]]) + q[1..] == a + q
  {
  }

  lemma NotHead<T>(q: seq<T>, x: T)
    requires x in q && x != q[0]
    ensures x in q[1..]
  {
    var i :| 0 <= i < |q| && q[i] == x;
    assert q[1..][i - 1] == x;
  }

  lemma EvictionEffects(p: Ptr)
    ensures forall q, o :: Ends(Evicted(p), q, o) <==> q == p
    ensures forall q :: Removes(Evicted(p), q) <==> q == p
    ensures EventOf(Evicted(p)) == [Event(EVENT_EVICT, p)]
  {
  }

  lemma EvictShifts(s: State)
    requires s.queue != []
    ensures EvictOldest(s).queue == s.queue[1..] && EvictOldest(s).capacity == s.capacity
  {
  }

  lemma {:induction false} TrimKeeps(s: State)
    requires Inv(s)
    ensures Inv(Trim(s)) && |Trim(s).queue| <= s.capacity && Trim(s).capacity == s.capacity
    ensures Trim(s).queue == Last(s.queue, s.capacity)
    decreases |s.queue|
  {
    hide Inv, EvictOldest;
    if |s.queue| <= s.capacity {
    } else {
      EvictKeeps(s);
      EvictShifts(s);
      TrimKeeps(EvictOldest(s));
    }
  }

  function EvictEvents(ptrs: seq<Ptr>): (events: seq<Event>) {
    seq(|ptrs|, i requires 0 <= i < |ptrs| => Event(EVENT_EVICT, ptrs[i]))
  }

  /** What the eviction loop does, all rounds together: the oldest keys go, in order, each with its
      entry and an event. */
  lemma {:induction false} TrimForm(s: State)
    ensures var t, gone := Trim(s), s.queue[..|s.queue| - |Last(s.queue, s.capacity)|];
            && t.queue == Last(s.queue, s.capacity) && t.capacity == s.capacity
            && t.cache == s.cache - Elements(gone) && t.events == s.events + EvictEvents(gone)
    decreases |s.queue|
  {
    hide EvictOldest, EvictEvents, Elements;
    if |s.queue| <= s.capacity {
      NoneEvicted(s);
    } else {
      var u, k := EvictOldest(s), |s.queue| - s.capacity;
      EvictShifts(s);
      TrimForm(u);
      OneEvicted(s, k);
    }
  }

  lemma NoneEvicted(s: State)
    ensures s.cache - Elements(s.queue[..0]) == s.cache && s.events + EvictEvents(s.queue[..0]) == s.events
  {
    assert EvictEvents(s.queue[..0]) == [];
  }

  lemma OneEvicted(s: State, k: nat)
    requires 1 <= k <= |s.queue|
    ensures var u, gone := EvictOldest(s), s.queue[..k];
            var later := u.queue[..k - 1];
            && s.cache - Elements(gone) == u.cache - Elements(later)
            && s.events + EvictEvents(gone) == u.events + EvictEvents(later)
  {
    var u, gone := EvictOldest(s), s.queue[..k];
    var later := u.queue[..k - 1];
    assert gone == [s.queue[0]] + later;
    assert Elements(gone) == {s.queue[0]} + Elements(later);
    assert EvictEvents(gone) == [Event(EVENT_EVICT, s.queue[0])] + EvictEvents(later);
  }

  lemma GetKeeps(s: State, p: Ptr)
    requires Inv(s)
    ensures Inv(Step(s, Get(p)))
  {
    hide Current, Entered, True, Truthful, AddedSince, EvictedSince, LogOf;
    if p != NULL {
      LookedTruly(s, p);
      Happens(s, Looked(p, Lookup(s, p) != Undef));
    }
  }

  /** What a lookup logs and drops: a hit exactly when an addition is current, and a miss with the
      dead entry, if there is one, otherwise. */
  lemma GetLogs(s: State, p: Ptr)
    requires Inv(s) && p != NULL
    ensures var t, found := Step(s, Get(p)), exists o :: Current(s.trace, p, o);
            && t.events == s.events + [Event(if found then EVENT_HIT else EVENT_MISS, p)]
            && t.cache == (if found then s.cache else s.cache - {p}) && t.queue == s.queue && t.capacity == s.capacity
            && (Lookup(s, p) != Undef <==> found)
  {
    hide Current, Entered, Truthful, AddedSince, EvictedSince, LogOf;
    if Lookup(s, p) != Undef { assert Current(s.trace, p, Lookup(s, p).obj); }
    if o :| Current(s.trace, p, o) { assert s.cache[p] == To(o); }
  }

  /** What a deletion logs: an event exactly when there is an entry. */
  lemma DeleteLogs(s: State, p: Ptr)
    requires Inv(s) && p != NULL
    ensures var t := Step(s, Delete(p));
            && t.events == s.events + (if Entered(s.trace, p) then [Event(EVENT_DELETE, p)] else [])
            && t.cache == s.cache - {p} && t.queue == s.queue && t.capacity == s.capacity
  {
    hide Current, Entered, Truthful, AddedSince, EvictedSince, LogOf;
  }

  lemma DeleteKeeps(s: State, p: Ptr)
    requires Inv(s)
    ensures Inv(Step(s, Delete(p)))
  {
    hide Current, Entered, True, Truthful, AddedSince, EvictedSince, LogOf;
    DeletedTruly(s, p);
    Happens(s, Deleted(p, p in s.cache));
  }

  lemma DieKeeps(s: State, o: Obj)
    requires Inv(s)
    ensures Inv(Step(s, Die(o)))
  {
    hide Current, Entered, True, Truthful, AddedSince, EvictedSince, LogOf;
    Plain(s.trace, Died(o));
    Happens(s, Died(o));
  }

  lemma ClearKeeps(s: State)
    requires Inv(s)
    ensures Inv(Step(s, Clear))
  {
    hide Current, Entered, True, Truthful, AddedSince, EvictedSince, LogOf;
    Plain(s.trace, Cleared);
    Happens(s, Cleared);
  }

  lemma StepKeeps(s: State, op: Op)
    requires Inv(s)
    ensures Inv(Step(s, op))
  {
    hide Current, Entered, True, Truthful, AddedSince, EvictedSince, LogOf;
    match op
    case Add(p, ref) =>
      if p != NULL && ref != Undef {
        PushKeeps(s, p, ref.obj);
        TrimKeeps(Push(s, p, ref.obj));
      }
    case Get(p) => GetKeeps(s, p);
    case Delete(p) => DeleteKeeps(s, p);
    case SetCapacity(n) =>
    case Clear => ClearKeeps(s);
    case Die(o) => DieKeeps(s, o);
  }

  /** Every reachable state satisfies the invariant. */
  lemma {:induction false} RunKeeps(ops: seq<Op>)
    ensures Inv(Run(EMPTY, ops))
  {
    if ops == [] {
    } else {
      RunKeeps(ops[..|ops| - 1]);
      StepKeeps(Run(EMPTY, ops[..|ops| - 1]), ops[|ops| - 1]);
    }
  }

  /** After every effective addition queue and cache are within the capacity. */
  lemma AddBounds(s: State, p: Ptr, o: Obj)
    requires Inv(s) && p != NULL
    ensures var t := Step(s, Add(p, To(o)));
            && Inv(t) && t.capacity == s.capacity
            && t.queue == Last(s.queue + [p], s.capacity)
            && |t.queue| <= s.capacity && |t.cache| <= s.capacity
  {
    hide Inv;
    PushKeeps(s, p, o);
    TrimKeeps(Push(s, p, o));
    CacheWithinQueue(Step(s, Add(p, To(o))));
  }

  lemma CacheWithinQueue(s: State)
    requires Inv(s)
    ensures |s.cache| <= |s.queue|
  {
    Distinct(s.queue);
    SubsetSize(s.cache.Keys, Elements(s.queue));
    assert |s.cache| == |s.cache.Keys|;
  }

  lemma {:induction false} Distinct(q: seq<Ptr>)
    ensures |Elements(q)| <= |q|
  {
    if q == [] {
    } else {
      var rest := Elements(q[1..]);
      Distinct(q[1..]);
      assert Elements(q) == rest + {q[0]};
      if q[0] in rest { assert rest + {q[0]} == rest; }
    }
  }

  lemma {:induction false} SubsetSize(a: set<Ptr>, b: set<Ptr>)
    requires a <= b
    ensures |a| <= |b|
  {
    if a == {} {
    } else {
      var x :| x in a;
      SubsetSize(a - {x}, b - {x});
      assert |a| == |a - {x}| + 1 && |b| == |b - {x}| + 1;
    }
  }

  // ---------------------------------------------------------------- how long an entry lives

  predicate Effective(op: Op) { op.Add? && op.ptr != NULL && op.ref != Undef }

  /** The pointers that calls add. */
  function AddedBy(ops: seq<Op>): (ptrs: seq<Ptr>) {
    if ops == [] then []
    else AddedBy(ops[..|ops| - 1]) + (if Effective(ops[|ops| - 1]) then [ops[|ops| - 1].ptr] else [])
  }

  function Adds(ops: seq<Op>): (n: nat) { |AddedBy(ops)| }

  /** Calls that neither end the entry for `p` themselves nor change the capacity. */
  predicate Unrelated(op: Op, p: Ptr, o: Obj, capacity: nat) {
    && op != Delete(p) && op != Clear && op != Die(o)
    && !(op.Add? && op.ptr == p)
    && (op.SetCapacity? ==> op.capacity == capacity)
  }

  /** The oldest place of `p` in a queue, or its length. */
  function Oldest(q: seq<Ptr>, p: Ptr): (i: nat)
    ensures i <= |q| && (i < |q| ==> q[i] == p) && forall j :: 0 <= j < i ==> q[j] != p
  {
    if q == [] || q[0] == p then 0
    else
      var i := Oldest(q[1..], p);
      assert forall j :: 1 <= j < i + 1 ==> q[j] == q[1..][j - 1];
      i + 1
  }

  /** Trimming takes out exactly the keys it evicts. */
  lemma {:induction false} TrimLookup(s: State, p: Ptr)
    ensures var evicted := s.queue[..|s.queue| - |Last(s.queue, s.capacity)|];
            && (p !in evicted ==> Lookup(Trim(s), p) == Lookup(s, p))
            && (p in evicted || p !in s.cache ==> p !in Trim(s).cache)
    decreases |s.queue|
  {
    if |s.queue| <= s.capacity {
    } else {
      var t := EvictOldest(s);
      TrimLookup(t, p);
      var k := |s.queue| - s.capacity;
      assert s.queue[..k] == [s.queue[0]] + t.queue[..k - 1];
    }
  }

  /** Where the entry for `p` is when `all` is what the queue would hold without evictions and
      `i` the oldest place of `p` in it: the entry goes with that key, not with its own. */
  ghost predicate Placed(s: State, p: Ptr, o: Obj, all: seq<Ptr>, i: nat) {
    && s.queue == Last(all, s.capacity)
    && if |all| <= s.capacity + i then Lookup(s, p) == To(o) else p !in s.cache
  }

  /** Evictions reach the oldest key of `p`, or do not. */
  lemma TrimPlaces(u: State, p: Ptr, o: Obj, all: seq<Ptr>, b: nat, i: nat)
    requires b <= i < |all| && u.queue == all[b..] && Lookup(u, p) == To(o)
    requires all[i] == p && forall j :: 0 <= j < i ==> all[j] != p
    ensures if |all| <= u.capacity + i then Lookup(Trim(u), p) == To(o) else p !in Trim(u).cache
  {
    TrimLookup(u, p);
    var d := |u.queue| - |Last(u.queue, u.capacity)|;
    if i < b + d { assert u.queue[..d][i - b] == p; }
  }

  lemma PlacedFirst(s: State, p: Ptr, o: Obj)
    requires Inv(s) && p != NULL
    ensures var t, all := Step(s, Add(p, To(o))), s.queue + [p];
            Inv(t) && t.capacity == s.capacity && Placed(t, p, o, all, Oldest(all, p))
  {
    hide Inv, Oldest;
    AddBounds(s, p, o);
    var all := s.queue + [p];
    assert all[|s.queue|] == p && all[0..] == all;
    TrimPlaces(Push(s, p, o), p, o, all, 0, Oldest(all, p));
  }

  /** One later addition may push the entry out; nothing else moves it: a hit does not renew
      it, and what is lost does not come back. */
  lemma PlacedStep(s: State, op: Op, p: Ptr, o: Obj, all: seq<Ptr>, i: nat)
    requires Inv(s) && Unrelated(op, p, o, s.capacity) && Placed(s, p, o, all, i)
    requires i < |all| && all[i] == p && forall j :: 0 <= j < i ==> all[j] != p
    ensures var t := Step(s, op);
            Inv(t) && t.capacity == s.capacity && Placed(t, p, o, if Effective(op) then all + [op.ptr] else all, i)
  {
    hide Inv, Trim, Last;
    StepKeeps(s, op);
    if Effective(op) {
      LastSuffix(all, s.capacity);
      AddBounds(s, op.ptr, op.ref.obj);
      var u, more := Push(s, op.ptr, op.ref.obj), all + [op.ptr];
      LastAppend(all, op.ptr, s.capacity);
      var b := |all| - |s.queue|;
      assert u.queue == more[b..];
      if |all| <= s.capacity + i {
        TrimPlaces(u, p, o, more, b, i);
      } else {
        TrimLookup(u, p);
      }
    }
  }

  lemma LastSuffix<T>(s: seq<T>, n: nat)
    ensures Last(s, n) == s[|s| - |Last(s, n)|..] && |Last(s, n)| == (if |s| <= n then |s| else n)
  {
  }

  /** How long an entry is found that was stored for any pointer, queued already or not, while
      the capacity stays the same and nothing ends the entry: exactly until evictions reach the
      oldest key of that pointer in the queue. */
  lemma {:induction false} SurvivesExactly(s: State, p: Ptr, o: Obj, ops: seq<Op>)
    requires Inv(s) && p != NULL
    requires forall i :: 0 <= i < |ops| ==> Unrelated(ops[i], p, o, s.capacity)
    ensures var t, i := Run(Step(s, Add(p, To(o))), ops), Oldest(s.queue + [p], p);
            && Inv(t) && t.capacity == s.capacity
            && t.queue == Last(s.queue + [p] + AddedBy(ops), s.capacity)
            && (Lookup(t, p) == To(o) <==> |s.queue| + 1 + Adds(ops) <= s.capacity + i)
            && (Lookup(t, p) != To(o) ==> p !in t.cache)
            && Placed(t, p, o, s.queue + [p] + AddedBy(ops), i)
  {
    hide Inv, Step, Oldest;
    var i := Oldest(s.queue + [p], p);
    assert (s.queue + [p])[|s.queue|] == p;
    if ops == [] {
      PlacedFirst(s, p, o);
      assert s.queue + [p] + [] == s.queue + [p];
    } else {
      var init, op := ops[..|ops| - 1], ops[|ops| - 1];
      SurvivesExactly(s, p, o, init);
      var all := s.queue + [p] + AddedBy(init);
      PlacedStep(Run(Step(s, Add(p, To(o))), init), op, p, o, all, i);
      assert s.queue + [p] + AddedBy(ops) == if Effective(op) then all + [op.ptr] else all;
    }
  }

  /** A pointer that was not queued survives fewer than `capacity` additions, and no more. */
  lemma SurvivesUnqueued(s: State, p: Ptr, o: Obj, ops: seq<Op>)
    requires Inv(s) && p != NULL && p !in s.queue
    requires forall i :: 0 <= i < |ops| ==> Unrelated(ops[i], p, o, s.capacity)
    ensures var t := Run(Step(s, Add(p, To(o))), ops);
            && (Lookup(t, p) == To(o) <==> Adds(ops) < s.capacity)
            && (Adds(ops) >= s.capacity ==> p !in t.queue)
  {
    hide Inv, Step, Run;
    SurvivesExactly(s, p, o, ops);
    NotAdded(ops, p, o, s.capacity);
    var i := Oldest(s.queue + [p], p);
    assert (s.queue + [p])[|s.queue|] == p;
    if i < |s.queue| { assert s.queue[i] == p; }
    if Adds(ops) >= s.capacity {
      var all, late := s.queue + [p] + AddedBy(ops), AddedBy(ops)[Adds(ops) - s.capacity..];
      assert Last(all, s.capacity) == late;
      assert forall k :: 0 <= k < |late| ==> late[k] in AddedBy(ops);
    }
  }

  lemma {:induction false} NotAdded(ops: seq<Op>, p: Ptr, o: Obj, capacity: nat)
    requires forall i :: 0 <= i < |ops| ==> Unrelated(ops[i], p, o, capacity)
    ensures p !in AddedBy(ops)
  {
    if ops == [] {
    } else {
      NotAdded(ops[..|ops| - 1], p, o, capacity);
    }
  }

  // ---------------------------------------------------------------- contents at any time

  predicate KeepsCapacity(op: Op, n: nat) { op.SetCapacity? ==> op.capacity == n }

  /** With a constant capacity the queue is always the last `n` added pointers. */
  lemma {:induction false} QueueIsLastAdded(ops: seq<Op>, n: nat)
    requires forall i :: 0 <= i < |ops| ==> KeepsCapacity(ops[i], n)
    ensures var t := Run(EMPTY.(capacity := n), ops);
            Inv(t) && t.capacity == n && t.queue == Last(AddedSince(t.trace), n)
  {
    if ops == [] {
    } else {
      var init, op := ops[..|ops| - 1], ops[|ops| - 1];
      QueueIsLastAdded(init, n);
      var t := Run(EMPTY.(capacity := n), init);
      StepKeeps(t, op);
      StepQueue(t, op);
      if Effective(op) { LastAppend(AddedSince(t.trace), op.ptr, n); }
    }
  }

  /** What a call does to the queue, in terms of the additions it records. */
  lemma StepQueue(s: State, op: Op)
    requires Inv(s)
    ensures var t := Step(s, op);
            if Effective(op) then
              t.queue == Last(s.queue + [op.ptr], s.capacity) && AddedSince(t.trace) == AddedSince(s.trace) + [op.ptr]
              && t.capacity == s.capacity
            else if op == Clear then t.queue == [] && AddedSince(t.trace) == [] && t.capacity == s.capacity
            else t.queue == s.queue && AddedSince(t.trace) == AddedSince(s.trace)
                 && t.capacity == (if op.SetCapacity? then op.capacity else s.capacity)
  {
    hide Inv;
    if Effective(op) {
      AddBounds(s, op.ptr, op.ref.obj);
      SinceStep(s.trace, Added(op.ptr, op.ref.obj));
      TrimAdded(Push(s, op.ptr, op.ref.obj));
    } else if op == Clear {
      SinceStep(s.trace, Cleared);
    } else if op.Delete? {
      SinceStep(s.trace, Deleted(op.ptr, op.ptr in s.cache));
    } else if op.Get? {
      SinceStep(s.trace, Looked(op.ptr, Lookup(s, op.ptr) != Undef));
    } else if op.Die? {
      SinceStep(s.trace, Died(op.obj));
    }
  }

  lemma {:induction false} TrimAdded(s: State)
    ensures AddedSince(Trim(s).trace) == AddedSince(s.trace)
    decreases |s.queue|
  {
    if |s.queue| <= s.capacity {
    } else {
      SinceStep(s.trace, Evicted(s.queue[0]));
      TrimAdded(EvictOldest(s));
    }
  }

  /** The latest addition of `p`, undone neither by a deletion, a clear nor the object's death. */
  ghost predicate Standing(t: seq<Happening>, p: Ptr, o: Obj) {
    exists i :: 0 <= i < |t| && t[i] == Added(p, o) &&
      forall j :: i < j < |t| ==> !IsDeletion(t[j], p) && t[j] != Cleared && t[j] != Died(o)
  }

  /** When no pointer is added twice (since the latest clear), a cache of constant capacity
      `n` holds exactly the last `n` added pointers, minus deleted and dead ones. */
  lemma HoldsLastAdded(ops: seq<Op>, n: nat)
    requires forall i :: 0 <= i < |ops| ==> KeepsCapacity(ops[i], n)
    requires NoRepeats(AddedSince(Run(EMPTY.(capacity := n), ops).trace))
    ensures var t := Run(EMPTY.(capacity := n), ops);
            forall p, o :: Lookup(t, p) == To(o) <==>
                           p in Last(AddedSince(t.trace), n) && Standing(t.trace, p, o)
  {
    hide Run, AddedSince, EvictedSince, LogOf, Truthful, Entered;
    QueueIsLastAdded(ops, n);
    var t := Run(EMPTY.(capacity := n), ops);
    forall p, o
      ensures Lookup(t, p) == To(o) <==> p in t.queue && Standing(t.trace, p, o)
    {
      QueuedAndStanding(t, p, o);
    }
  }

  lemma QueuedAndStanding(s: State, p: Ptr, o: Obj)
    requires Inv(s)
    requires NoRepeats(AddedSince(s.trace))
    ensures Lookup(s, p) == To(o) <==> p in s.queue && Standing(s.trace, p, o)
  {
    hide AddedSince, EvictedSince, LogOf, Truthful, Entered;
    var t := s.trace;
    if Current(t, p, o) {
      var i :| 0 <= i < |t| && t[i] == Added(p, o) && forall j :: i < j < |t| ==> !Ends(t[j], p, o);
      assert p in s.cache;
      assert Standing(t, p, o);
    }
    if p in s.queue && Standing(t, p, o) {
      var i :| 0 <= i < |t| && t[i] == Added(p, o) &&
               forall j :: i < j < |t| ==> !IsDeletion(t[j], p) && t[j] != Cleared && t[j] != Died(o);
      forall j | i < j < |t| ensures !Ends(t[j], p, o) { OnceQueued(s, p, i, j); }
      assert Current(t, p, o);
    }
  }

  /** A pointer added once since the latest clear and still queued was neither evicted nor
      added again. */
  lemma OnceQueued(s: State, p: Ptr, i: nat, j: nat)
    requires Inv(s) && p in s.queue && i < j < |s.trace|
    requires s.trace[i].Added? && s.trace[i].ptr == p
    requires forall k :: i < k < |s.trace| ==> s.trace[k] != Cleared
    requires NoRepeats(AddedSince(s.trace))
    ensures s.trace[j] != Evicted(p) && !(s.trace[j].Added? && s.trace[j].ptr == p)
  {
    if s.trace[j] == Evicted(p) {
      InEvicted(s.trace, p, j);
      EvictedAndQueued(s, p);
    } else if s.trace[j].Added? && s.trace[j].ptr == p {
      var x, y := AddedTwice(s.trace, p, i, j);
    }
  }

  lemma EvictedAndQueued(s: State, p: Ptr)
    requires Inv(s) && p in EvictedSince(s.trace) && p in s.queue
    ensures !NoRepeats(AddedSince(s.trace))
  {
    var a, e := AddedSince(s.trace), EvictedSince(s.trace);
    var x :| 0 <= x < |e| && e[x] == p;
    var y :| 0 <= y < |s.queue| && s.queue[y] == p;
    var z := |e| + y;
    assert a[x] == e[x] && a[z] == s.queue[y];
  }

  lemma {:induction false} InEvicted(t: seq<Happening>, p: Ptr, j: nat)
    requires j < |t| && t[j] == Evicted(p) && forall k :: j < k < |t| ==> t[k] != Cleared
    ensures p in EvictedSince(t)
  {
    var e := EvictedSince(t);
    if j < |t| - 1 {
      var before := EvictedSince(t[..|t| - 1]);
      InEvicted(t[..|t| - 1], p, j);
      var x :| 0 <= x < |before| && before[x] == p;
      assert e[x] == p;
    } else {
      assert e[|e| - 1] == p;
    }
  }

  lemma {:induction false} InAdded(t: seq<Happening>, p: Ptr, i: nat) returns (x: nat)
    requires i < |t| && t[i].Added? && t[i].ptr == p && forall k :: i < k < |t| ==> t[k] != Cleared
    ensures x < |AddedSince(t)| && AddedSince(t)[x] == p
  {
    if i < |t| - 1 { x := InAdded(t[..|t| - 1], p, i); } else { x := |AddedSince(t)| - 1; }
  }

  lemma {:induction false} AddedTwice(t: seq<Happening>, p: Ptr, i: nat, j: nat) returns (x: nat, y: nat)
    requires i < j < |t| && t[i].Added? && t[i].ptr == p && t[j].Added? && t[j].ptr == p
    requires forall k :: i < k < |t| ==> t[k] != Cleared
    ensures x < y < |AddedSince(t)| && AddedSince(t)[x] == p == AddedSince(t)[y]
  {
    if j < |t| - 1 {
      x, y := AddedTwice(t[..|t| - 1], p, i, j);
    } else {
      x := InAdded(t[..|t| - 1], p, i);
      y := |AddedSince(t)| - 1;
    }
  }

  // ---------------------------------------------------------------- wrapping

  /** `PerlUpb_WrapArenaBoundObject` for a non-null pointer: the cached wrapper, or `newObj`,
      which is then cached. */
  function Wrap(s: State, p: Ptr, newObj: Obj): (r: (State, Obj)) {
    var hit := Lookup(s, p);
    var got := Step(s, Get(p));
    if hit != Undef then (got, hit.obj) else (Step(got, Add(p, To(newObj))), newObj)
  }

  /** A pointer that is not cached gets a wrapper, and gets the same one again exactly until
      evictions reach its oldest queued key, even if the wrapper lives on. */
  lemma WrapIdentity(s: State, p: Ptr, o: Obj, ops: seq<Op>, newObj: Obj)
    requires Inv(s) && p != NULL && Lookup(s, p) == Undef && newObj != o
    requires forall i :: 0 <= i < |ops| ==> Unrelated(ops[i], p, o, s.capacity)
    ensures var first := Wrap(s, p, o);
            && first.1 == o
            && (Wrap(Run(first.0, ops), p, newObj).1 == o <==>
                |s.queue| + 1 + Adds(ops) <= s.capacity + Oldest(s.queue + [p], p))
  {
    hide Run;
    GetKeeps(s, p);
    SurvivesExactly(Step(s, Get(p)), p, o, ops);
  }

  /** The death of a wrapper for `p`: weak references to it are emptied, and its cleanup magic
      deletes whatever is cached for `p`. */
  function Cleanup(s: State, p: Ptr, o: Obj): (r: State) {
    Step(Step(s, Die(o)), Delete(p))
  }

  /** After the cleanup nothing is cached for `p`; it forgets a living object, which the death
      alone would have left cached, exactly when a wrapper other than the dying one was. */
  lemma CleanupForgets(s: State, p: Ptr, dying: Obj, newObj: Obj)
    requires p != NULL
    ensures Lookup(Cleanup(s, p, dying), p) == Undef
    ensures Wrap(Cleanup(s, p, dying), p, newObj).1 == newObj
    ensures Lookup(Step(s, Die(dying)), p) != Undef <==> Lookup(s, p) != Undef && Lookup(s, p) != To(dying)
    ensures Lookup(Step(s, Die(dying)), p) != Undef ==> Lookup(Step(s, Die(dying)), p) == Lookup(s, p)
  {
  }

  /** A wrapper pushed out of the cache while it lives takes its successor's entry along when
      it dies: once evictions have reached its key the pointer is wrapped anew, and after the
      first wrapper's cleanup a third one is made. The second was cached until then, and still
      would be but for the cleanup, unless the queue held an old key of the pointer that its
      own addition evicted; it certainly was if the pointer had not been queued at first. */
  lemma EvictedWrapperDies(s: State, p: Ptr, first: Obj, ops: seq<Op>, second: Obj, third: Obj)
    requires Inv(s) && p != NULL && Lookup(s, p) == Undef && first != second
    requires forall i :: 0 <= i < |ops| ==> Unrelated(ops[i], p, first, s.capacity)
    requires |s.queue| + 1 + Adds(ops) > s.capacity + Oldest(s.queue + [p], p)
    ensures var u := Run(Wrap(s, p, first).0, ops);
            var (t, w) := Wrap(u, p, second);
            && w == second
            && (Lookup(t, p) == To(second) <==> |u.queue| < u.capacity + Oldest(u.queue + [p], p))
            && (p !in s.queue && s.capacity >= 1 ==> Lookup(t, p) == To(second))
            && Lookup(Step(t, Die(first)), p) == Lookup(t, p)
            && Wrap(Cleanup(t, p, first), p, third).1 == third
  {
    hide Run, Inv, Oldest;
    GetKeeps(s, p);
    SurvivesExactly(Step(s, Get(p)), p, first, ops);
    var u := Run(Wrap(s, p, first).0, ops);
    GetKeeps(u, p);
    SecondWrapped(Step(u, Get(p)), p, second);
    if p !in s.queue {
      SurvivesUnqueued(Step(s, Get(p)), p, first, ops);
    }
    CleanupForgets(Wrap(u, p, second).0, p, first, third);
  }

  lemma SecondWrapped(s: State, p: Ptr, o: Obj)
    requires Inv(s) && p != NULL
    ensures var r := Lookup(Step(s, Add(p, To(o))), p);
            (r == To(o) || r == Undef) && (r == To(o) <==> |s.queue| < s.capacity + Oldest(s.queue + [p], p))
  {
    SurvivesExactly(s, p, o, []);
  }

  // ---------------------------------------------------------------- the class

  class Cache {
    var cache: map<Ptr, Ref>
    var queue: seq<Ptr>
    var capacity: nat
    const log: Log
    ghost var trace: seq<Happening>

    ghost function Abs(): (r: State)
      reads this, log
    {
      State(cache, queue, capacity, log.history, trace)
    }

    ghost predicate Valid()
      reads this, log, log.entries
    {
      log.Valid() && log.initialized && Inv(Abs())
    }

    constructor ()
      ensures Valid() && Abs() == EMPTY && fresh(log) && fresh(log.entries)
    {
      cache, queue, capacity, trace := map[], [], 100000, [];
      log := new Log();
      new;
      RunKeeps([]);
    }

    /** `PerlUpb_ObjCache_Add`. */
    method Add(ptr: Ptr, ref: Ref)
      requires Valid()
      modifies this, log, log.entries
      ensures Valid() && Abs() == Step(old(Abs()), Op.Add(ptr, ref))
      ensures ptr == NULL || ref == Undef ==> Abs() == old(Abs())
      ensures ptr != NULL && ref != Undef ==>
                var all := old(queue) + [ptr];
                var evicted := all[..|all| - |Last(all, capacity)|];
                && queue == Last(all, capacity) && capacity == old(capacity)
                && log.history == old(log.history) + [Event(EVENT_ADD, ptr)] + EvictEvents(evicted)
                && cache == old(cache)[ptr := ref] - Elements(evicted)
    {
      hide Inv, Last, Log.View;
      StepKeeps(Abs(), Op.Add(ptr, ref));
      if ptr != NULL && ref != Undef {
        TrimForm(Push(Abs(), ptr, ref.obj));
      }
      if ptr == NULL || ref == Undef { return; }
      cache := cache[ptr := ref];
      log.LogEvent(EVENT_ADD, ptr);
      queue := queue + [ptr];
      trace := trace + [Added(ptr, ref.obj)];
      assert Abs() == Push(old(Abs()), ptr, ref.obj);
      while |queue| > capacity
        invariant log.Valid() && log.initialized
        invariant Trim(Abs()) == Trim(Push(old(Abs()), ptr, ref.obj))
        decreases |queue|
      {
        ghost var before := Abs();
        var oldest := queue[0];
        queue := queue[1..];
        cache := cache - {oldest};
        trace := trace + [Evicted(oldest)];
        log.LogEvent(EVENT_EVICT, oldest);
        assert Abs() == EvictOldest(before);
      }
    }

    /** `PerlUpb_ObjCache_Get`. */
    method Get(ptr: Ptr) returns (result: Ref)
      requires Valid()
      modifies this, log, log.entries
      ensures Valid() && Abs() == Step(old(Abs()), Op.Get(ptr))
      ensures ptr == NULL ==> result == Undef && Abs() == old(Abs())
      ensures ptr != NULL ==>
                && log.history == old(log.history) + [Event(if result != Undef then EVENT_HIT else EVENT_MISS, ptr)]
                && cache == (if result != Undef then old(cache) else old(cache) - {ptr})
                && queue == old(queue) && capacity == old(capacity)
      ensures ptr != NULL ==> forall o :: result == To(o) <==> Current(old(trace), ptr, o)
    {
      StepKeeps(Abs(), Op.Get(ptr));
      if ptr == NULL { return Undef; }
      result := Undef;
      if ptr in cache {
        if cache[ptr] != Undef {
          result := cache[ptr];
          trace := trace + [Looked(ptr, true)];
          log.LogEvent(EVENT_HIT, ptr);
        }
        if result == Undef {
          cache := cache - {ptr};
          trace := trace + [Looked(ptr, false)];
          log.LogEvent(EVENT_MISS, ptr);
        }
      } else {
        trace := trace + [Looked(ptr, false)];
        log.LogEvent(EVENT_MISS, ptr);
        assert cache == cache - {ptr};
      }
    }

    /** `PerlUpb_ObjCache_Delete`. */
    method Delete(ptr: Ptr)
      requires Valid()
      modifies this, log, log.entries
      ensures Valid() && Abs() == Step(old(Abs()), Op.Delete(ptr))
      ensures queue == old(queue) && capacity == old(capacity)
      ensures cache == if ptr == NULL then old(cache) else old(cache) - {ptr}
      ensures log.history == old(log.history) + if ptr != NULL && ptr in old(cache) then [Event(EVENT_DELETE, ptr)] else []
    {
      hide Inv;
      StepKeeps(Abs(), Op.Delete(ptr));
      if ptr == NULL { return; }
      trace := trace + [Deleted(ptr, ptr in cache)];
      if ptr in cache {
        cache := cache - {ptr};
        log.LogEvent(EVENT_DELETE, ptr);
      }
      assert cache == old(cache) - {ptr};
    }

    /** `PerlUpb_ObjCache_SetCapacity`: nothing is evicted before the next addition. */
    method SetCapacity(capacity: nat)
      requires Valid()
      modifies this
      ensures Valid() && Abs() == Step(old(Abs()), Op.SetCapacity(capacity))
      ensures this.capacity == capacity && cache == old(cache) && queue == old(queue) && log.history == old(log.history)
    {
      hide Inv;
      StepKeeps(Abs(), Op.SetCapacity(capacity));
      this.capacity := capacity;
    }

    /** `PerlUpb_ObjCache_Clear`. */
    method Clear()
      requires Valid()
      modifies this, log
      ensures Valid() && Abs() == Step(old(Abs()), Op.Clear)
      ensures cache == map[] && queue == [] && log.history == [] && capacity == old(capacity)
    {
      hide Inv;
      StepKeeps(Abs(), Op.Clear);
      cache, queue, trace := map[], [], trace + [Cleared];
      log.Reset();
    }

    /** The death of an object empties the weak references to it. */
    method ObjectDies(obj: Obj)
      requires Valid()
      modifies this
      ensures Valid() && Abs() == Step(old(Abs()), Op.Die(obj))
      ensures cache.Keys == old(cache).Keys && queue == old(queue) && log.history == old(log.history)
      ensures forall p :: p in cache ==> cache[p] == if old(cache)[p] == To(obj) then Undef else old(cache)[p]
    {
      hide Inv;
      StepKeeps(Abs(), Op.Die(obj));
      cache := map p | p in cache :: if cache[p] == To(obj) then Undef else cache[p];
      trace := trace + [Died(obj)];
    }

    /** `wrapper_cleanup`, run when a wrapper dies. */
    method WrapperDies(ptr: Ptr, obj: Obj)
      requires Valid()
      modifies this, log, log.entries
      ensures Valid() && Abs() == Cleanup(old(Abs()), ptr, obj)
      ensures ptr != NULL ==> ptr !in cache
    {
      hide Inv;
      ObjectDies(obj);
      Delete(ptr);
    }

    /** `PerlUpb_WrapArenaBoundObject`, given the identity a new wrapper would have. */
    method WrapObject(ptr: Ptr, newObj: Obj) returns (obj: Obj)
      requires Valid() && ptr != NULL
      modifies this, log, log.entries
      ensures Valid() && (Abs(), obj) == Wrap(old(Abs()), ptr, newObj)
      ensures if exists o :: Current(old(trace), ptr, o) then Current(old(trace), ptr, obj) else obj == newObj
    {
      ghost var s := Abs();
      var cached := Get(ptr);
      assert Lookup(s, ptr) != Undef ==> cached == Lookup(s, ptr) by {
        if Lookup(s, ptr) != Undef { assert Current(s.trace, ptr, Lookup(s, ptr).obj); }
      }
      assert cached != Undef ==> Lookup(s, ptr) == cached by {
        if cached != Undef { assert Current(s.trace, ptr, cached.obj); }
      }
      if cached != Undef { return cached.obj; }
      Add(ptr, To(newObj));
      obj := newObj;
    }
  }
}
