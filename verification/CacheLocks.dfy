/** The locks of the object cache under any number of threads: sixteen stripe locks, one
    queue lock and one audit-log lock, taken in every possible interleaving. */
module CacheLocks {

  const NUM_CACHE_STRIPES: nat := 16

  type Ptr = nat

  type StripeIndex = i: nat | i < NUM_CACHE_STRIPES

  datatype Lock = Queue | Stripe(i: StripeIndex) | Audit

  /** What the locks protect: the cache entries of one stripe, the key queue with the
      capacity, and the audit ring. */
  datatype Resource = Entries(i: StripeIndex) | Keys | Ring

  function Guard(r: Resource): (res: Lock) {
    match r case Entries(i) => Stripe(i) case Keys => Queue case Ring => Audit
  }

  datatype Action = Acquire(lock: Lock) | Release(lock: Lock) | Touch(resource: Resource)

  /** `get_stripe`. */
  function StripeOf(ptr: Ptr): (i: StripeIndex) {
    (ptr / 16) % 16
  }

  /** The calls, with the outcomes that decide which locks they take: the keys `Add` evicts,
      and whether `Delete` finds an entry to delete and log. */
  datatype Call =
    | Add(ptr: Ptr, evicted: seq<Ptr>)
    | Get(ptr: Ptr)
    | Delete(ptr: Ptr, present: bool)
    | SetCapacity
    | GetAuditLog
    | LogEvent
    | Clear

  // ---------------------------------------------------------------- the calls as lock programs

  /** `PerlUpb_ObjCache_LogEvent`, then `rest`. */
  function LogThen(rest: seq<Action>): (r: seq<Action>) {
    [Acquire(Audit), Touch(Ring), Release(Audit)] + rest
  }

  /** Taking a stripe, touching its entries, perhaps logging, releasing it, then `rest`. */
  function Striped(i: StripeIndex, logs: bool, rest: seq<Action>): (r: seq<Action>) {
    var release := [Release(Stripe(i))] + rest;
    [Acquire(Stripe(i)), Touch(Entries(i))] + if logs then LogThen(release) else release
  }

  /** The eviction loop of `Add`, which runs with the queue locked: each round shifts the
      oldest key off the queue and deletes its entry. */
  function Evictions(evicted: seq<Ptr>, rest: seq<Action>): (r: seq<Action>) {
    if evicted == [] then rest
    else [Touch(Keys)] + Striped(StripeOf(evicted[0]), true, Evictions(evicted[1..], rest))
  }

  function AcquireStripes(i: nat, rest: seq<Action>): (r: seq<Action>)
    decreases 16 - i
  {
    if i >= 16 then rest else [Acquire(Stripe(i))] + AcquireStripes(i + 1, rest)
  }

  function TouchStripes(i: nat, rest: seq<Action>): (r: seq<Action>)
    decreases 16 - i
  {
    if i >= 16 then rest else [Touch(Entries(i))] + TouchStripes(i + 1, rest)
  }

  function ReleaseStripes(i: nat, rest: seq<Action>): (r: seq<Action>)
    requires i <= 16
  {
    if i == 0 then rest else [Release(Stripe(i - 1))] + ReleaseStripes(i - 1, rest)
  }

  /** `Clear` after it has all the stripes. */
  const CLEAR_TAIL: seq<Action> :=
    [Acquire(Queue)] + TouchStripes(0, [Touch(Keys)] + LogThen([Release(Queue)] + ReleaseStripes(16, [])))

  function AddTail(evicted: seq<Ptr>): (r: seq<Action>) {
    [Acquire(Queue), Touch(Keys)] + Evictions(evicted, [Release(Queue)])
  }

  function Program(c: Call): (r: seq<Action>) {
    match c
    case Add(p, evicted) => Striped(StripeOf(p), false, LogThen(AddTail(evicted)))
    case Get(p) => Striped(StripeOf(p), true, [])
    case Delete(p, present) => Striped(StripeOf(p), present, [])
    case SetCapacity => [Acquire(Queue), Touch(Keys), Release(Queue)]
    case GetAuditLog => LogThen([])
    case LogEvent => LogThen([])
    case Clear => AcquireStripes(0, CLEAR_TAIL)
  }

  // ---------------------------------------------------------------- the interleaved system

  /** `rest[t]` is what thread `t` has still to do; an idle thread has nothing to do. */
  datatype System = System(rest: seq<seq<Action>>, owner: map<Lock, nat>, clearing: bool)

  predicate Idle(s: System) {
    forall t :: 0 <= t < |s.rest| ==> s.rest[t] == []
  }

  predicate Initial(s: System) {
    Idle(s) && s.owner == map[] && !s.clearing
  }

  /** A thread can move unless it waits for a lock some thread holds. */
  predicate Enabled(s: System, t: nat) {
    && t < |s.rest| && s.rest[t] != []
    && (s.rest[t][0].Acquire? ==> s.rest[t][0].lock !in s.owner)
  }

  /** Thread `t` performs its next action. */
  function Do(s: System, t: nat): (r: System)
    requires Enabled(s, t)
  {
    var a := s.rest[t][0];
    var rest := s.rest[t := s.rest[t][1..]];
    match a
    case Acquire(l) => s.(rest := rest, owner := s.owner[l := t])
    case Release(l) => s.(rest := rest, owner := s.owner - {l})
    case Touch(_) => s.(rest := rest)
  }

  /** An idle thread may begin a call. `Clear` is for interpreter shutdown: it begins only
      when no other call is in flight, and none begins until it is over. `overlap` lifts
      that restriction. */
  predicate MayStart(s: System, t: nat, c: Call, overlap: bool) {
    && t < |s.rest| && s.rest[t] == []
    && (c == Clear || s.clearing ==> overlap || Idle(s))
  }

  function Start(s: System, t: nat, c: Call): (r: System)
    requires t < |s.rest|
  {
    s.(rest := s.rest[t := Program(c)], clearing := c == Clear)
  }

  datatype Move = Begin(thread: nat, call: Call) | Go(thread: nat)

  predicate Allowed(s: System, m: Move, overlap: bool) {
    match m case Begin(t, c) => MayStart(s, t, c, overlap) case Go(t) => Enabled(s, t)
  }

  function Apply(s: System, m: Move): (r: System)
    requires Allowed(s, m, true)
  {
    match m case Begin(t, c) => Start(s, t, c) case Go(t) => Do(s, t)
  }

  /** `s` can be reached by the given moves, by any threads in any order. */
  ghost predicate Reaches(moves: seq<Move>, s: System, overlap: bool)
    decreases |moves|
  {
    if moves == [] then Initial(s)
    else
      var m := moves[|moves| - 1];
      exists before :: Reaches(moves[..|moves| - 1], before, overlap) && Allowed(before, m, overlap) && s == Apply(before, m)
  }

  // ---------------------------------------------------------------- lock order

  /** The ways a program may be disciplined: its locks are balanced, and they may moreover be
      taken queue first, then one stripe, then the audit log; or the stripes by number, then
      the queue, then the audit log. */
  datatype Order = Balanced | QueueFirst | StripesFirst

  function Rank(l: Lock, order: Order): (r: nat) {
    match l
    case Queue => if order == QueueFirst then 0 else 16
    case Stripe(i) => if order == QueueFirst then 1 else i
    case Audit => 17
  }

  function Held(s: System, t: nat): (locks: set<Lock>) {
    set l | l in s.owner && s.owner[l] == t
  }

  /** Every lock in `held` comes before `l`. */
  predicate Before(held: set<Lock>, l: Lock, order: Order) {
    order != Balanced ==> forall h :: h in held ==> Rank(h, order) < Rank(l, order)
  }

  /** A program is in order when run with the locks `held`: it takes no lock it has, releases
      only locks it has, touches nothing without its lock, ends with none, and takes only
      locks that come after all it holds. */
  predicate InOrder(p: seq<Action>, held: set<Lock>, order: Order) {
    if p == [] then held == {}
    else
      match p[0]
      case Acquire(l) => l !in held && Before(held, l, order) && InOrder(p[1..], held + {l}, order)
      case Release(l) => l in held && InOrder(p[1..], held - {l}, order)
      case Touch(r) => Guard(r) in held && InOrder(p[1..], held, order)
  }

  /** What every thread has still to do is in order from the locks it holds. */
  ghost predicate Ordered(s: System, order: Order) {
    && (forall l :: l in s.owner ==> s.owner[l] < |s.rest|)
    && (forall t :: 0 <= t < |s.rest| ==> InOrder(s.rest[t], Held(s, t), order))
  }

  /** The invariant when `Clear` runs alone. */
  ghost predicate Inv(s: System) {
    && Ordered(s, if s.clearing then Balanced else QueueFirst)
    && (s.clearing ==> exists c :: OnlyBusy(s, c))
  }

  predicate OnlyBusy(s: System, c: nat) {
    forall t :: 0 <= t < |s.rest| && t != c ==> s.rest[t] == []
  }

  // ---------------------------------------------------------------- every call is in order

  lemma LogInOrder(rest: seq<Action>, held: set<Lock>, order: Order)
    requires Audit !in held && Before(held, Audit, order)
    requires InOrder(rest, held, order)
    ensures InOrder(LogThen(rest), held, order)
  {
    var p := LogThen(rest);
    assert p[1..][1..][1..] == rest;
    assert held + {Audit} - {Audit} == held;
  }

  lemma StripedInOrder(i: StripeIndex, logs: bool, rest: seq<Action>, held: set<Lock>, order: Order)
    requires Stripe(i) !in held && Audit !in held && Before(held, Stripe(i), order)
    requires InOrder(rest, held, order)
    ensures InOrder(Striped(i, logs, rest), held, order)
  {
    var inner, release := held + {Stripe(i)}, [Release(Stripe(i))] + rest;
    assert release[1..] == rest && inner - {Stripe(i)} == held;
    assert InOrder(release, inner, order);
    if logs { LogInOrder(release, inner, order); }
    var p := Striped(i, logs, rest);
    assert p[1..][1..] == if logs then LogThen(release) else release;
  }

  lemma {:induction false} EvictionsInOrder(evicted: seq<Ptr>, rest: seq<Action>, order: Order)
    requires evicted == [] || order != StripesFirst
    requires InOrder(rest, {Queue}, order)
    ensures InOrder(Evictions(evicted, rest), {Queue}, order)
  {
    if evicted == [] {
    } else {
      EvictionsInOrder(evicted[1..], rest, order);
      var round := Striped(StripeOf(evicted[0]), true, Evictions(evicted[1..], rest));
      StripedInOrder(StripeOf(evicted[0]), true, Evictions(evicted[1..], rest), {Queue}, order);
      assert ([Touch(Keys)] + round)[1..] == round;
    }
  }

  lemma AddTailInOrder(evicted: seq<Ptr>, order: Order)
    requires evicted == [] || order != StripesFirst
    ensures InOrder(AddTail(evicted), {}, order)
  {
    var release := [Release(Queue)];
    assert release[1..] == [] && {Queue} - {Queue} == {};
    EvictionsInOrder(evicted, release, order);
    var p := AddTail(evicted);
    assert p[1..][1..] == Evictions(evicted, release);
    assert {} + {Queue} == {Queue};
  }

  /** An `Add` that pushes something out of the cache. */
  predicate Evicting(c: Call) { c.Add? && c.evicted != [] }

  /** Which discipline which call keeps: all are balanced; `Clear` alone does not put the queue
      first, and an evicting `Add` alone does not put the stripes first. */
  predicate Keeps(c: Call, order: Order) {
    match order
    case Balanced => true
    case QueueFirst => c != Clear
    case StripesFirst => !Evicting(c)
  }

  /** Every call keeps its disciplines: it touches nothing unlocked, ends holding nothing, and
      takes its locks in order. */
  lemma CallInOrder(c: Call, order: Order)
    requires Keeps(c, order)
    ensures InOrder(Program(c), {}, order)
  {
    match c
    case Add(p, evicted) =>
      AddTailInOrder(evicted, order);
      LogInOrder(AddTail(evicted), {}, order);
      StripedInOrder(StripeOf(p), false, LogThen(AddTail(evicted)), {}, order);
    case Get(p) => StripedInOrder(StripeOf(p), true, [], {}, order);
    case Delete(p, present) => StripedInOrder(StripeOf(p), present, [], {}, order);
    case SetCapacity =>
      var q, release := Program(c), [Release(Queue)];
      assert release[1..] == [] && {Queue} - {Queue} == {} && {} + {Queue} == {Queue};
      assert InOrder(release, {Queue}, order);
      assert q[1..][1..] == release;
    case GetAuditLog => LogInOrder([], {}, order);
    case LogEvent => LogInOrder([], {}, order);
    case Clear => ClearInOrder(order);
  }

  function Below(n: nat): (locks: set<Lock>)
    requires n <= 16
  {
    set i | 0 <= i < n :: Stripe(i)
  }

  lemma {:induction false} AcquireInOrder(i: nat, rest: seq<Action>, order: Order)
    requires order != QueueFirst && i <= 16 && InOrder(rest, Below(16), order)
    ensures InOrder(AcquireStripes(i, rest), Below(i), order)
    decreases 16 - i
  {
    if i >= 16 {
    } else {
      AcquireInOrder(i + 1, rest, order);
      assert Below(i) + {Stripe(i)} == Below(i + 1);
      assert AcquireStripes(i, rest)[1..] == AcquireStripes(i + 1, rest);
    }
  }

  lemma {:induction false} TouchInOrder(i: nat, rest: seq<Action>, held: set<Lock>, order: Order)
    requires i <= 16 && Below(16) <= held && InOrder(rest, held, order)
    ensures InOrder(TouchStripes(i, rest), held, order)
    decreases 16 - i
  {
    if i >= 16 {
    } else {
      TouchInOrder(i + 1, rest, held, order);
      assert Stripe(i) in Below(16);
      assert TouchStripes(i, rest)[1..] == TouchStripes(i + 1, rest);
    }
  }

  lemma {:induction false} ReleaseInOrder(i: nat, order: Order)
    requires i <= 16
    ensures InOrder(ReleaseStripes(i, []), Below(i), order)
  {
    if i > 0 {
      ReleaseInOrder(i - 1, order);
      assert Below(i) - {Stripe(i - 1)} == Below(i - 1);
      assert ReleaseStripes(i, [])[1..] == ReleaseStripes(i - 1, []);
    } else {
      assert Below(0) == {};
    }
  }

  /** `Clear` takes the stripes by number, then the queue, then the audit log. */
  lemma ClearInOrder(order: Order)
    requires order != QueueFirst
    ensures InOrder(Program(Clear), {}, order)
  {
    var held := Below(16) + {Queue};
    ReleaseInOrder(16, order);
    var release := [Release(Queue)] + ReleaseStripes(16, []);
    assert release[1..] == ReleaseStripes(16, []) && held - {Queue} == Below(16);
    LogInOrder(release, held, order);
    var keys := [Touch(Keys)] + LogThen(release);
    assert keys[1..] == LogThen(release);
    TouchInOrder(0, keys, held, order);
    assert CLEAR_TAIL[1..] == TouchStripes(0, keys);
    assert InOrder(CLEAR_TAIL, Below(16), order);
    AcquireInOrder(0, CLEAR_TAIL, order);
    assert Below(0) == {};
  }

  // ---------------------------------------------------------------- what every call does

  /** A resource touched, and the locks held then. */
  datatype Touching = Touching(resource: Resource, held: set<Lock>)

  /** What a program touches, in order. */
  function Observed(p: seq<Action>, held: set<Lock>): (o: seq<Touching>) {
    if p == [] then []
    else
      match p[0]
      case Acquire(l) => Observed(p[1..], held + {l})
      case Release(l) => Observed(p[1..], held - {l})
      case Touch(r) => [Touching(r, held)] + Observed(p[1..], held)
  }

  /** For each evicted key: the queue, then the key's entry and the log, under the key's stripe as
      well as the queue lock. */
  function EvictionTouches(evicted: seq<Ptr>): (o: seq<Touching>) {
    if evicted == [] then []
    else
      var i := StripeOf(evicted[0]);
      [Touching(Keys, {Queue}), Touching(Entries(i), {Queue, Stripe(i)}), Touching(Ring, {Queue, Stripe(i), Audit})]
      + EvictionTouches(evicted[1..])
  }

  lemma ObservedLog(rest: seq<Action>, held: set<Lock>)
    requires Audit !in held
    ensures Observed(LogThen(rest), held) == [Touching(Ring, held + {Audit})] + Observed(rest, held)
  {
    var p, release := LogThen(rest), [Release(Audit)] + rest;
    assert release[1..] == rest && held + {Audit} - {Audit} == held;
    assert Observed(release, held + {Audit}) == Observed(rest, held);
    assert p[1..][1..] == release;
  }

  lemma ObservedStriped(i: StripeIndex, logs: bool, rest: seq<Action>, held: set<Lock>)
    requires Stripe(i) !in held && Audit !in held
    ensures Observed(Striped(i, logs, rest), held)
         == [Touching(Entries(i), held + {Stripe(i)})]
            + (if logs then [Touching(Ring, held + {Stripe(i)} + {Audit})] else []) + Observed(rest, held)
  {
    var p, inner, release := Striped(i, logs, rest), held + {Stripe(i)}, [Release(Stripe(i))] + rest;
    assert release[1..] == rest && inner - {Stripe(i)} == held;
    assert Observed(release, inner) == Observed(rest, held);
    if logs { ObservedLog(release, inner); }
    assert p[1..][1..] == if logs then LogThen(release) else release;
  }

  lemma {:induction false} ObservedEvictions(evicted: seq<Ptr>, rest: seq<Action>)
    ensures Observed(Evictions(evicted, rest), {Queue}) == EvictionTouches(evicted) + Observed(rest, {Queue})
  {
    if evicted == [] {
    } else {
      var i, more := StripeOf(evicted[0]), Evictions(evicted[1..], rest);
      ObservedEvictions(evicted[1..], rest);
      ObservedStriped(i, true, more, {Queue});
      assert ([Touch(Keys)] + Striped(i, true, more))[1..] == Striped(i, true, more);
      assert {Queue} + {Stripe(i)} == {Queue, Stripe(i)} && {Queue} + {Stripe(i)} + {Audit} == {Queue, Stripe(i), Audit};
    }
  }

  /** What every call but `Clear` touches, in which order and under which locks: an `Add` has let
      go of its stripe before it logs and before it takes the queue; lookups, and deletions that
      find something, log under their stripe; `SetCapacity` touches the queue's data alone. */
  lemma CallTouches(c: Call)
    requires c != Clear
    ensures Observed(Program(c), {}) ==
            match c
            case Add(p, evicted) =>
              [Touching(Entries(StripeOf(p)), {Stripe(StripeOf(p))}), Touching(Ring, {Audit}), Touching(Keys, {Queue})]
              + EvictionTouches(evicted)
            case Get(p) => [Touching(Entries(StripeOf(p)), {Stripe(StripeOf(p))}), Touching(Ring, {Stripe(StripeOf(p)), Audit})]
            case Delete(p, present) =>
              [Touching(Entries(StripeOf(p)), {Stripe(StripeOf(p))})]
              + (if present then [Touching(Ring, {Stripe(StripeOf(p)), Audit})] else [])
            case SetCapacity => [Touching(Keys, {Queue})]
            case _ => [Touching(Ring, {Audit})]
  {
    hide Striped, LogThen, Evictions, StripeOf;
    forall i: StripeIndex ensures {} + {Stripe(i)} == {Stripe(i)} && {Stripe(i)} + {Audit} == {Stripe(i), Audit} {}
    assert Observed([], {}) == [];
    match c
    case Add(p, evicted) =>
      ObservedStriped(StripeOf(p), false, LogThen(AddTail(evicted)), {});
      ObservedLog(AddTail(evicted), {});
      ObservedAddTail(evicted);
      assert {} + {Audit} == {Audit};
      ThreeThen(Touching(Entries(StripeOf(p)), {Stripe(StripeOf(p))}), Touching(Ring, {Audit}), Touching(Keys, {Queue}), EvictionTouches(evicted));
    case Get(p) =>
      ObservedStriped(StripeOf(p), true, [], {});
      assert {} + {Stripe(StripeOf(p))} + {Audit} == {Stripe(StripeOf(p)), Audit};
    case Delete(p, present) =>
      ObservedStriped(StripeOf(p), present, [], {});
      assert {} + {Stripe(StripeOf(p))} == {Stripe(StripeOf(p))};
      assert {} + {Stripe(StripeOf(p))} + {Audit} == {Stripe(StripeOf(p)), Audit};
    case SetCapacity =>
      var q := Program(c);
      var release := [Release(Queue)];
      assert q[1..][1..] == release && release[1..] == [];
      assert {} + {Queue} == {Queue} && Observed(release, {Queue}) == Observed([], {Queue} - {Queue}) == [];
    case GetAuditLog =>
      ObservedLog([], {});
      assert {} + {Audit} == {Audit};
    case LogEvent =>
      ObservedLog([], {});
      assert {} + {Audit} == {Audit};
  }

  lemma ThreeThen<T>(a: T, b: T, c: T, rest: seq<T>)
    ensures [a] + [] + ([b] + ([c] + rest)) == [a, b, c] + rest
  {
  }

  lemma ObservedAddTail(evicted: seq<Ptr>)
    ensures Observed(AddTail(evicted), {}) == [Touching(Keys, {Queue})] + EvictionTouches(evicted)
  {
    hide Evictions;
    var p, rest := AddTail(evicted), [Release(Queue)];
    assert p[1..][1..] == Evictions(evicted, rest) && rest[1..] == [];
    assert {} + {Queue} == {Queue};
    ObservedEvictions(evicted, rest);
  }

  /** `Clear` touches the entries of all stripes, the queue's data and the log, under all locks. */
  lemma ClearTouches()
    ensures var held := Below(16) + {Queue};
            && Observed(Program(Clear), {}) == AllEntries(0, held) + [Touching(Keys, held), Touching(Ring, held + {Audit})]
            && |AllEntries(0, held)| == 16
            && forall i :: 0 <= i < 16 ==> AllEntries(0, held)[i] == Touching(Entries(i), held)
  {
    hide LogThen, TouchStripes, ReleaseStripes, AcquireStripes, Below, AllEntries;
    var held := Below(16) + {Queue};
    var tail := [Release(Queue)] + ReleaseStripes(16, []);
    var keys := [Touch(Keys)] + LogThen(tail);
    NothingBelow();
    ObservedAcquires(0, CLEAR_TAIL);
    assert CLEAR_TAIL[1..] == TouchStripes(0, keys);
    ObservedTouches(0, keys, held);
    assert keys[1..] == LogThen(tail);
    ObservedLog(tail, held);
    assert tail[1..] == ReleaseStripes(16, []);
    ObservedReleases(16, held - {Queue});
    EntriesInTurn(0, held);
  }

  lemma NothingBelow()
    ensures Below(0) == {} && Audit !in Below(16) + {Queue}
  {
  }

  lemma {:induction false} ObservedAcquires(i: nat, rest: seq<Action>)
    requires i <= 16
    ensures Observed(AcquireStripes(i, rest), Below(i)) == Observed(rest, Below(16))
    decreases 16 - i
  {
    if i == 16 {
    } else {
      ObservedAcquires(i + 1, rest);
      assert Below(i) + {Stripe(i)} == Below(i + 1);
      assert AcquireStripes(i, rest)[1..] == AcquireStripes(i + 1, rest);
    }
  }

  /** The entries of the stripes from `i` on, touched in turn. */
  function AllEntries(i: nat, held: set<Lock>): (o: seq<Touching>)
    decreases 16 - i
  {
    if i >= 16 then [] else [Touching(Entries(i), held)] + AllEntries(i + 1, held)
  }

  lemma {:induction false} ObservedTouches(i: nat, rest: seq<Action>, held: set<Lock>)
    requires i <= 16
    ensures Observed(TouchStripes(i, rest), held) == AllEntries(i, held) + Observed(rest, held)
    decreases 16 - i
  {
    if i == 16 {
      assert AllEntries(16, held) + Observed(rest, held) == Observed(rest, held);
    } else {
      ObservedTouches(i + 1, rest, held);
      assert TouchStripes(i, rest)[1..] == TouchStripes(i + 1, rest);
      OneThen(Touching(Entries(i), held), AllEntries(i + 1, held), Observed(rest, held));
    }
  }

  lemma OneThen<T>(a: T, more: seq<T>, rest: seq<T>)
    ensures [a] + (more + rest) == [a] + more + rest
  {
  }

  /** That is each stripe once, by number. */
  lemma {:induction false} EntriesInTurn(i: nat, held: set<Lock>)
    requires i <= 16
    ensures |AllEntries(i, held)| == 16 - i
    ensures forall j :: 0 <= j < 16 - i ==> AllEntries(i, held)[j] == Touching(Entries(i + j), held)
    decreases 16 - i
  {
    if i == 16 {
    } else {
      EntriesInTurn(i + 1, held);
      var more := AllEntries(i + 1, held);
      forall j | 1 <= j < 16 - i ensures AllEntries(i, held)[j] == Touching(Entries(i + j), held) {
        assert AllEntries(i, held)[j] == more[j - 1];
      }
    }
  }

  lemma {:induction false} ObservedReleases(i: nat, held: set<Lock>)
    requires i <= 16
    ensures Observed(ReleaseStripes(i, []), held) == []
    decreases i
  {
    if i == 0 {
    } else {
      ObservedReleases(i - 1, held - {Stripe(i - 1)});
      assert ReleaseStripes(i, [])[1..] == ReleaseStripes(i - 1, []);
    }
  }

  /** Stripes are sixteen-byte blocks of addresses, in turn. */
  lemma StripesInTurn(block: nat, offset: nat)
    requires offset < 16
    ensures StripeOf(16 * block + offset) == block % 16
  {
    assert (16 * block + offset) / 16 == block;
  }

  // ---------------------------------------------------------------- what every move keeps

  lemma DoKeeps(s: System, t: nat, order: Order)
    requires Ordered(s, order) && Enabled(s, t)
    ensures Ordered(Do(s, t), order)
  {
    var n := Do(s, t);
    forall u | 0 <= u < |s.rest|
      ensures InOrder(n.rest[u], Held(n, u), order)
    {
      if u != t {
        assert Held(n, u) == Held(s, u);
      } else {
        match s.rest[t][0]
        case Acquire(l) => assert Held(n, t) == Held(s, t) + {l};
        case Release(l) => assert Held(n, t) == Held(s, t) - {l};
        case Touch(_) => assert Held(n, t) == Held(s, t);
      }
    }
  }

  lemma StartKeeps(s: System, t: nat, c: Call, order: Order)
    requires Ordered(s, order) && t < |s.rest| && s.rest[t] == [] && Keeps(c, order)
    ensures Ordered(Start(s, t, c), order)
  {
    var n := Start(s, t, c);
    CallInOrder(c, order);
    IdleHoldsNothing(s, t, order);
    forall u | 0 <= u < |s.rest| ensures InOrder(n.rest[u], Held(n, u), order) {
      assert Held(n, u) == Held(s, u);
    }
  }

  lemma IdleHoldsNothing(s: System, t: nat, order: Order)
    requires Ordered(s, order) && t < |s.rest| && s.rest[t] == []
    ensures Held(s, t) == {}
  {
  }

  /** When every thread is idle, or about to be the only busy one, any order is kept. */
  lemma IdleOrdered(s: System, order: Order, other: Order)
    requires Ordered(s, order) && Idle(s)
    ensures Ordered(s, other)
  {
    forall t | 0 <= t < |s.rest| ensures InOrder(s.rest[t], Held(s, t), other) {
      IdleHoldsNothing(s, t, order);
    }
  }

  lemma InitialOrdered(s: System, order: Order)
    requires Initial(s)
    ensures Ordered(s, order)
  {
    forall t | 0 <= t < |s.rest| ensures InOrder(s.rest[t], Held(s, t), order) {
      assert Held(s, t) == {};
    }
  }

  lemma MoveKeepsInv(s: System, m: Move)
    requires Inv(s) && Allowed(s, m, false)
    ensures Inv(Apply(s, m))
  {
    var now := if s.clearing then Balanced else QueueFirst;
    var n := Apply(s, m);
    match m
    case Begin(t, c) =>
      var next := if c == Clear then Balanced else QueueFirst;
      if now != next || s.clearing { IdleOrdered(s, now, next); }
      StartKeeps(s, t, c, next);
      if n.clearing { assert OnlyBusy(n, t); }
    case Go(t) =>
      DoKeeps(s, t, now);
      if s.clearing {
        var c :| OnlyBusy(s, c);
        assert OnlyBusy(n, c);
      }
  }

  /** The invariant holds in every reachable state, whatever the threads and the schedule. */
  lemma {:induction false} ReachesKeeps(moves: seq<Move>, s: System)
    requires Reaches(moves, s, false)
    ensures Inv(s)
    decreases |moves|
  {
    if moves == [] {
      InitialOrdered(s, QueueFirst);
    } else {
      var init, m := moves[..|moves| - 1], moves[|moves| - 1];
      var before :| Reaches(init, before, false) && Allowed(before, m, false) && s == Apply(before, m);
      ReachesKeeps(init, before);
      MoveKeepsInv(before, m);
    }
  }

  // ---------------------------------------------------------------- main results

  /** Following the chain of waiting threads up the lock order finds one that can move. */
  lemma {:induction false} FindEnabled(s: System, t: nat, low: nat, order: Order) returns (u: nat)
    requires order != Balanced && Ordered(s, order) && t < |s.rest| && s.rest[t] != [] && low <= 18
    requires s.rest[t][0].Acquire? ==> Rank(s.rest[t][0].lock, order) >= low
    ensures Enabled(s, u)
    decreases 18 - low
  {
    if Enabled(s, t) {
      u := t;
    } else {
      var l := s.rest[t][0].lock;
      var holder := s.owner[l];
      assert l in Held(s, holder);
      assert InOrder(s.rest[holder], Held(s, holder), order);
      u := FindEnabled(s, holder, Rank(l, order) + 1, order);
    }
  }

  lemma ClearNeverWaits(s: System, t: nat)
    requires Inv(s) && s.clearing && t < |s.rest| && s.rest[t] != []
    ensures Enabled(s, t)
  {
    var c :| OnlyBusy(s, c);
    forall l | l in s.owner ensures l in Held(s, t) {
      assert l in Held(s, s.owner[l]);
      if s.owner[l] != t { IdleHoldsNothing(s, s.owner[l], Balanced); }
    }
  }

  /** Some call is in flight and no thread can move. */
  predicate Deadlocked(s: System) {
    !Idle(s) && forall t :: 0 <= t < |s.rest| ==> !Enabled(s, t)
  }

  lemma OrderedMoves(s: System, order: Order)
    requires order != Balanced && Ordered(s, order)
    ensures !Deadlocked(s)
  {
    if !Idle(s) {
      var t :| 0 <= t < |s.rest| && s.rest[t] != [];
      var u := FindEnabled(s, t, 0, order);
    }
  }

  /** No reachable state is deadlocked when `Clear` runs alone: while any call is in flight,
      some thread can move. */
  lemma NoDeadlock(s: System)
    requires Inv(s)
    ensures !Deadlocked(s)
  {
    if !s.clearing {
      OrderedMoves(s, QueueFirst);
    } else if !Idle(s) {
      var t :| 0 <= t < |s.rest| && s.rest[t] != [];
      ClearNeverWaits(s, t);
    }
  }

  /** Actions still to be done by all threads. */
  function Left(rest: seq<seq<Action>>): (r: nat) {
    if rest == [] then 0 else |rest[0]| + Left(rest[1..])
  }

  lemma {:induction false} LeftStep(rest: seq<seq<Action>>, t: nat)
    requires t < |rest| && rest[t] != []
    ensures Left(rest) == Left(rest[t := rest[t][1..]]) + 1
  {
    var next := rest[t := rest[t][1..]];
    if t == 0 {
      assert next[1..] == rest[1..];
    } else {
      LeftStep(rest[1..], t - 1);
      assert next[1..] == rest[1..][t - 1 := rest[t][1..]];
    }
  }

  lemma {:induction false} LeftZero(rest: seq<seq<Action>>)
    ensures Left(rest) == 0 <==> forall t :: 0 <= t < |rest| ==> rest[t] == []
  {
    if rest == [] {
    } else {
      LeftZero(rest[1..]);
      if forall t :: 0 <= t < |rest[1..]| ==> rest[1..][t] == [] {
        assert rest[0] == [] ==> forall t :: 0 <= t < |rest| ==> rest[t] == [] || rest[1..][t - 1] == [];
      } else {
        var t :| 0 <= t < |rest[1..]| && rest[1..][t] != [];
        assert rest[t + 1] != [];
      }
    }
  }

  /** Letting threads move, one after another. */
  predicate CanMove(s: System, schedule: seq<nat>)
    decreases |schedule|
  {
    schedule == [] || (Enabled(s, schedule[0]) && CanMove(Do(s, schedule[0]), schedule[1..]))
  }

  function Moved(s: System, schedule: seq<nat>): (r: System)
    requires CanMove(s, schedule)
    decreases |schedule|
  {
    if schedule == [] then s else Moved(Do(s, schedule[0]), schedule[1..])
  }

  /** However the scheduler picks among the threads that can move, after exactly as many moves
      as there were actions left every call is complete and every lock is free; before
      that, some thread can move. */
  lemma {:induction false} EveryScheduleFinishes(s: System, schedule: seq<nat>)
    requires Inv(s) && CanMove(s, schedule)
    ensures var n := Moved(s, schedule);
            && Inv(n) && |schedule| + Left(n.rest) == Left(s.rest)
            && (|schedule| == Left(s.rest) ==> Idle(n) && n.owner == map[])
            && (|schedule| < Left(s.rest) ==> !Idle(n) && !Deadlocked(n))
    decreases |schedule|
  {
    var n := Moved(s, schedule);
    if schedule != [] {
      MoveKeepsInv(s, Go(schedule[0]));
      LeftStep(s.rest, schedule[0]);
      EveryScheduleFinishes(Do(s, schedule[0]), schedule[1..]);
    } else {
      LeftZero(n.rest);
      NoDeadlock(n);
      if Left(n.rest) == 0 { AllFree(n); }
    }
  }

  lemma AllFree(s: System)
    requires Inv(s) && Idle(s)
    ensures s.owner == map[]
  {
    if l :| l in s.owner {
      assert l in Held(s, s.owner[l]);
      IdleHoldsNothing(s, s.owner[l], if s.clearing then Balanced else QueueFirst);
    }
  }

  // ---------------------------------------------------------------- why Clear runs alone

  /** Which calls the threads make. */
  type Calls = Call -> bool

  predicate Begins(moves: seq<Move>, calls: Calls) {
    forall i :: 0 <= i < |moves| && moves[i].Begin? ==> calls(moves[i].call)
  }

  /** `s` can be reached when any thread may begin any of `calls` at any time, `Clear` too. */
  ghost predicate Reachable(s: System, calls: Calls) {
    exists moves :: Reaches(moves, s, true) && Begins(moves, calls)
  }

  lemma Extend(s: System, m: Move, calls: Calls)
    requires Reachable(s, calls) && Allowed(s, m, true) && (m.Begin? ==> calls(m.call))
    ensures Reachable(Apply(s, m), calls)
  {
    var moves :| Reaches(moves, s, true) && Begins(moves, calls);
    var more := moves + [m];
    assert more[..|more| - 1] == moves && more[|more| - 1] == m;
    assert Reaches(more, Apply(s, m), true) && Begins(more, calls);
  }

  lemma {:induction false} ReachableOrdered(moves: seq<Move>, s: System, calls: Calls, order: Order)
    requires Reaches(moves, s, true) && Begins(moves, calls) && forall c :: calls(c) ==> Keeps(c, order)
    ensures Ordered(s, order)
    decreases |moves|
  {
    if moves == [] {
      InitialOrdered(s, order);
    } else {
      var init, m := moves[..|moves| - 1], moves[|moves| - 1];
      var before :| Reaches(init, before, true) && Allowed(before, m, true) && s == Apply(before, m);
      ReachableOrdered(init, before, calls, order);
      match m
      case Begin(t, c) => StartKeeps(before, t, c, order);
      case Go(t) => DoKeeps(before, t, order);
    }
  }

  /** Thread `t` performs `a`, the first of its remaining actions. */
  lemma Goes(s: System, t: nat, a: Action, rest: seq<Action>, calls: Calls) returns (n: System)
    requires Reachable(s, calls) && t < |s.rest| && s.rest[t] == [a] + rest
    requires a.Acquire? ==> a.lock !in s.owner
    ensures Reachable(n, calls) && n.rest == s.rest[t := rest] && n.clearing == s.clearing
    ensures n.owner == match a
                       case Acquire(l) => s.owner[l := t]
                       case Release(l) => s.owner - {l}
                       case Touch(_) => s.owner
  {
    Extend(s, Go(t), calls);
    n := Apply(s, Go(t));
  }

  /** Thread 0 runs `LogEvent`, holding the locks `owner`. */
  lemma GoesLogging(s: System, rest: seq<Action>, calls: Calls) returns (n: System)
    requires Reachable(s, calls) && s.rest == [LogThen(rest), []] && s.owner == map[]
    ensures Reachable(n, calls) && n.rest == [rest, []] && n.clearing == s.clearing && n.owner == map[]
  {
    hide Reachable, Reaches;
    n := Goes(s, 0, Acquire(Audit), [Touch(Ring), Release(Audit)] + rest, calls);
    n := Goes(n, 0, Touch(Ring), [Release(Audit)] + rest, calls);
    n := Goes(n, 0, Release(Audit), rest, calls);
  }

  lemma AddStarts(p: Ptr, evicted: seq<Ptr>, calls: Calls) returns (s: System)
    requires calls(Add(p, evicted))
    ensures Reachable(s, calls)
    ensures s == System([Striped(StripeOf(p), false, LogThen(AddTail(evicted))), []], map[], false)
  {
    s := System([[], []], map[], false);
    assert Reaches([], s, true) && Begins([], calls);
    Extend(s, Begin(0, Add(p, evicted)), calls);
    s := Apply(s, Begin(0, Add(p, evicted)));
  }

  function FirstRound(evicted: seq<Ptr>): (r: seq<Action>)
    requires evicted != []
  {
    Striped(StripeOf(evicted[0]), true, Evictions(evicted[1..], [Release(Queue)]))
  }

  lemma EvictionStarts(evicted: seq<Ptr>, rest: seq<Action>)
    requires evicted != []
    ensures Evictions(evicted, rest)
         == [Touch(Keys)] + Striped(StripeOf(evicted[0]), true, Evictions(evicted[1..], rest))
  {
  }

  /** Thread 0 is evicting its first key, thread 1 is idle. */
  lemma AddReachesEviction(p: Ptr, evicted: seq<Ptr>, calls: Calls) returns (s: System)
    requires evicted != [] && calls(Add(p, evicted))
    ensures Reachable(s, calls)
    ensures s == System([FirstRound(evicted), []], map[Queue := 0], false)
  {
    hide Reachable, Reaches, Evictions;
    var i, tail := StripeOf(p), LogThen(AddTail(evicted));
    s := AddStarts(p, evicted, calls);
    var release := [Release(Stripe(i))] + tail;
    assert Striped(i, false, tail) == [Acquire(Stripe(i))] + ([Touch(Entries(i))] + release);
    s := Goes(s, 0, Acquire(Stripe(i)), [Touch(Entries(i))] + release, calls);
    s := Goes(s, 0, Touch(Entries(i)), release, calls);
    s := Goes(s, 0, Release(Stripe(i)), tail, calls);
    s := GoesLogging(s, AddTail(evicted), calls);
    var loop := Evictions(evicted, [Release(Queue)]);
    assert AddTail(evicted) == [Acquire(Queue)] + ([Touch(Keys)] + loop);
    s := Goes(s, 0, Acquire(Queue), [Touch(Keys)] + loop, calls);
    s := Goes(s, 0, Touch(Keys), loop, calls);
    EvictionStarts(evicted, [Release(Queue)]);
    s := Goes(s, 0, Touch(Keys), FirstRound(evicted), calls);
  }

  /** The stripes below `k` belong to thread 1, the queue to thread 0. */
  function Locked(k: nat): (r: map<Lock, nat>)
    requires k <= 16
  {
    map l | l in Below(k) + {Queue} :: if l == Queue then 0 else 1
  }

  lemma LockedNext(k: nat)
    requires k < 16
    ensures Stripe(k) !in Locked(k) && Locked(k)[Stripe(k) := 1] == Locked(k + 1)
  {
  }

  lemma {:induction false} ClearTakesStripes(s: System, k: nat, other: seq<Action>, calls: Calls) returns (n: System)
    requires k <= 16 && Reachable(s, calls)
    requires s.rest == [other, AcquireStripes(k, CLEAR_TAIL)] && s.owner == Locked(k)
    ensures Reachable(n, calls) && n.rest == [other, CLEAR_TAIL] && n.owner == Locked(16)
    decreases 16 - k
  {
    hide Reachable, Reaches, Locked;
    if k == 16 {
      n := s;
    } else {
      LockedNext(k);
      n := Goes(s, 1, Acquire(Stripe(k)), AcquireStripes(k + 1, CLEAR_TAIL), calls);
      n := ClearTakesStripes(n, k + 1, other, calls);
    }
  }

  /** If `Clear` may start while another thread's `Add` is evicting, whatever it adds and
      evicts, the two can block each other for ever: one holds the queue and waits for a
      stripe, the other holds every stripe and waits for the queue. */
  lemma OverlappingClearDeadlocks(p: Ptr, evicted: seq<Ptr>, calls: Calls)
    requires evicted != [] && calls(Add(p, evicted)) && calls(Clear)
    ensures exists s :: Reachable(s, calls) && Deadlocked(s)
  {
    hide Reachable, Reaches, Evictions, TouchStripes, ReleaseStripes, AcquireStripes;
    var s := AddReachesEviction(p, evicted, calls);
    Extend(s, Begin(1, Clear), calls);
    s := Apply(s, Begin(1, Clear));
    assert Below(0) == {};
    assert s.owner == Locked(0);
    s := ClearTakesStripes(s, 0, FirstRound(evicted), calls);
    var i := StripeOf(evicted[0]);
    assert s.rest[0][0] == Acquire(Stripe(i));
    assert Stripe(i) in Below(16) && s.rest[1][0] == Acquire(Queue);
    assert Deadlocked(s);
  }

  /** The exact condition: when calls may overlap freely, a deadlock can be reached if and only
      if both `Clear` and an `Add` that evicts are among them. Without `Clear` the queue comes
      first; without evictions the stripes do. */
  lemma DeadlockExactly(calls: Calls)
    ensures (exists s :: Reachable(s, calls) && Deadlocked(s))
            <==> calls(Clear) && exists c :: calls(c) && Evicting(c)
  {
    if calls(Clear) && exists c :: calls(c) && Evicting(c) {
      var c :| calls(c) && Evicting(c);
      OverlappingClearDeadlocks(c.ptr, c.evicted, calls);
    } else {
      var order := if calls(Clear) then StripesFirst else QueueFirst;
      forall s | Reachable(s, calls) ensures !Deadlocked(s) {
        var moves :| Reaches(moves, s, true) && Begins(moves, calls);
        ReachableOrdered(moves, s, calls, order);
        OrderedMoves(s, order);
      }
    }
  }

  // ---------------------------------------------------------------- what the locks exclude

  /** Two threads are both about to touch something. */
  predicate Together(s: System, t: nat, r: Resource, u: nat, q: Resource) {
    && t < |s.rest| && u < |s.rest| && t != u
    && s.rest[t] != [] && s.rest[t][0] == Touch(r) && s.rest[u] != [] && s.rest[u][0] == Touch(q)
  }

  /** Whatever calls overlap, two threads are never about to touch resources with one lock. */
  lemma RaceFree(s: System, calls: Calls, t: nat, r: Resource, u: nat, q: Resource)
    requires Reachable(s, calls) && Together(s, t, r, u, q)
    ensures Guard(r) != Guard(q)
  {
    var moves :| Reaches(moves, s, true) && Begins(moves, calls);
    ReachableOrdered(moves, s, calls, Balanced);
    assert Guard(r) in Held(s, t) && Guard(q) in Held(s, u);
  }

  /** Two threads begin a call each. */
  lemma BothStart(c: Call, d: Call, calls: Calls) returns (s: System)
    requires calls(c) && calls(d)
    ensures Reachable(s, calls) && s.rest == [Program(c), Program(d)] && s.owner == map[]
  {
    var idle := System([[], []], map[], false);
    assert Reaches([], idle, true) && Begins([], calls);
    assert Reachable(idle, calls);
    hide Reachable, Reaches, Program;
    Extend(idle, Begin(0, c), calls);
    var one := Start(idle, 0, c);
    Extend(one, Begin(1, d), calls);
    s := Start(one, 1, d);
  }

  lemma LookupProgram(p: Ptr)
    ensures var i := StripeOf(p);
            Program(Get(p)) == [Acquire(Stripe(i))] + ([Touch(Entries(i))] + LogThen([Release(Stripe(i))] + []))
  {
  }

  lemma LookupsMeet(p: Ptr, q: Ptr, calls: Calls) returns (s: System)
    requires calls(Get(p)) && calls(Get(q)) && StripeOf(p) != StripeOf(q)
    ensures Reachable(s, calls) && Together(s, 0, Entries(StripeOf(p)), 1, Entries(StripeOf(q)))
  {
    hide Reachable, Reaches, StripeOf, Program, LogThen;
    var i, j := StripeOf(p), StripeOf(q);
    s := BothStart(Get(p), Get(q), calls);
    LookupProgram(p);
    LookupProgram(q);
    var a := [Touch(Entries(i))] + LogThen([Release(Stripe(i))] + []);
    var b := [Touch(Entries(j))] + LogThen([Release(Stripe(j))] + []);
    s := Goes(s, 0, Acquire(Stripe(i)), a, calls);
    s := Goes(s, 1, Acquire(Stripe(j)), b, calls);
  }

  /** No more is excluded: lookups of two pointers can be inside the table at once if and only
      if the pointers are in different stripes. */
  lemma LookupsTogether(p: Ptr, q: Ptr, calls: Calls)
    requires calls(Get(p)) && calls(Get(q))
    ensures (exists s, t, u :: Reachable(s, calls) && Together(s, t, Entries(StripeOf(p)), u, Entries(StripeOf(q))))
            <==> StripeOf(p) != StripeOf(q)
  {
    var i, j := StripeOf(p), StripeOf(q);
    if i != j {
      var s := LookupsMeet(p, q, calls);
    } else {
      forall s, t, u | Reachable(s, calls) && Together(s, t, Entries(i), u, Entries(j)) ensures false {
        RaceFree(s, calls, t, Entries(i), u, Entries(j));
      }
    }
  }
}
