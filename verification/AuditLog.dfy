/** The audit log of the object cache: a ring of the most recent events. */
module AuditLog {

  const AUDIT_LOG_SIZE: nat := 2048

  const EVENT_ADD: int := 1
  const EVENT_HIT: int := 2
  const EVENT_MISS: int := 3
  const EVENT_DELETE: int := 4
  const EVENT_EVICT: int := 5

  datatype Event = Event(kind: int, ptr: nat)

  /** The last `n` elements of `s`, or all of them. */
  function Last<T>(s: seq<T>, n: nat): (r: seq<T>)
    ensures |r| <= n && |r| <= |s|
  {
    if |s| <= n then s else s[|s| - n..]
  }

  /** A position on the ring. */
  function Slot(i: nat): (r: nat)
    ensures r < AUDIT_LOG_SIZE
    ensures i < AUDIT_LOG_SIZE ==> r == i
    ensures AUDIT_LOG_SIZE <= i < 2 * AUDIT_LOG_SIZE ==> r == i - AUDIT_LOG_SIZE
  {
    i % 2048
  }

  /** `count` entries of the ring from `head` on. */
  function Ring(entries: seq<Event>, head: nat, count: nat): (r: seq<Event>)
    requires |entries| == AUDIT_LOG_SIZE && head < AUDIT_LOG_SIZE && count <= AUDIT_LOG_SIZE
    ensures |r| == count
  {
    seq(count, i requires 0 <= i < count => entries[Slot(head + i)])
  }

  /** Storing behind the newest entry adds it at the end; on a full ring the oldest goes. */
  lemma RingPush(entries: seq<Event>, head: nat, count: nat, x: Event)
    requires |entries| == AUDIT_LOG_SIZE && head < AUDIT_LOG_SIZE && count <= AUDIT_LOG_SIZE
    ensures var full := count == AUDIT_LOG_SIZE;
            Ring(entries[Slot(head + count) := x], if full then Slot(head + 1) else head, if full then count else count + 1)
            == Last(Ring(entries, head, count) + [x], AUDIT_LOG_SIZE)
  {
    var was := Ring(entries, head, count);
    var now := entries[Slot(head + count) := x];
    if count == AUDIT_LOG_SIZE {
      var ring := Ring(now, Slot(head + 1), count);
      forall i | 0 <= i < count ensures ring[i] == (was + [x])[i + 1] {
        assert Slot(Slot(head + 1) + i) == Slot(head + (i + 1));
        if i < count - 1 { assert was[i + 1] == entries[Slot(head + (i + 1))]; }
      }
    } else {
      var ring := Ring(now, head, count + 1);
      forall i | 0 <= i < count ensures ring[i] == was[i] {
        assert ring[i] == now[Slot(head + i)];
      }
    }
  }

  class Log {
    const entries: array<Event>
    var head: nat
    var count: nat
    var initialized: bool
    /** Every event since the latest clear. */
    ghost var history: seq<Event>

    /** The ring read from `head`. */
    ghost function View(): (r: seq<Event>)
      reads this, entries
      requires entries.Length == AUDIT_LOG_SIZE && head < AUDIT_LOG_SIZE && count <= AUDIT_LOG_SIZE
    {
      Ring(entries[..], head, count)
    }

    ghost predicate Valid()
      reads this, entries
    {
      && entries.Length == AUDIT_LOG_SIZE
      && head < AUDIT_LOG_SIZE && count <= AUDIT_LOG_SIZE
      && View() == Last(history, AUDIT_LOG_SIZE)
    }

    constructor ()
      ensures Valid() && initialized && history == []
      ensures fresh(entries)
    {
      entries := new Event[AUDIT_LOG_SIZE](i => Event(0, 0));
      head, count, initialized, history := 0, 0, true, [];
      new;
      assert View() == [];
    }

    /** `PerlUpb_ObjCache_LogEvent`. */
    method LogEvent(kind: int, ptr: nat)
      requires Valid()
      modifies this, entries
      ensures Valid() && initialized == old(initialized)
      ensures history == if initialized then old(history) + [Event(kind, ptr)] else old(history)
    {
      if !initialized { return; }
      hide Last, Ring;
      RingPush(entries[..], head, count, Event(kind, ptr));
      var idx := Slot(head + count);
      if count == AUDIT_LOG_SIZE {
        head := Slot(head + 1);
      } else {
        count := count + 1;
      }
      entries[idx] := Event(kind, ptr);
      history := history + [Event(kind, ptr)];
      LastAppend(old(history), Event(kind, ptr), AUDIT_LOG_SIZE);
    }

    /** The part of `PerlUpb_ObjCache_Clear` that resets the ring. */
    method Reset()
      requires Valid()
      modifies this
      ensures Valid() && history == [] && initialized == old(initialized)
    {
      head, count, history := 0, 0, [];
      assert View() == [];
    }

    /** `PerlUpb_ObjCache_GetAuditLog`: after any sequence of events and clears, exactly the
        last 2048 events since the latest clear, in order. */
    method GetAuditLog() returns (log: seq<Event>)
      requires Valid()
      ensures log == Last(history, AUDIT_LOG_SIZE)
    {
      log := [];
      var i := 0;
      while i < count
        invariant 0 <= i <= count && log == View()[..i]
      {
        var idx := Slot(head + i);
        log := log + [entries[idx]];
        i := i + 1;
      }
    }
  }

  lemma LastAppend<T>(s: seq<T>, x: T, n: nat)
    ensures Last(Last(s, n) + [x], n) == Last(s + [x], n)
  {
  }
}
