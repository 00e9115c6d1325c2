/** The generated accessors of a message object: a memo of field values beside the message,
    invalidated as a whole by one dirty bit, and not used at all by write-heavy objects. */
module FastAccessors {
  import opened Options

  // ---------------------------------------------------------------- the message underneath

  /** A Perl value as the accessors see it. */
  datatype SV = Undef | Defined(id: nat)

  /** A field: repeated and map fields are containers, which reading creates; a member of a
      oneof displaces the others; an absent scalar reads as its default. */
  datatype Field = Field(name: string, container: bool, oneof: Option<nat>, default: SV)

  /** The fields that are set, and the identity the next container will have. */
  datatype Message = Message(values: map<string, SV>, next: nat)

  /** `PerlUpb_Message_GetField`, the uncached read. Reading an absent container stores an
      empty one in the message. */
  function Read(m: Message, f: Field): (r: (SV, Message)) {
    if f.name in m.values then (m.values[f.name], m)
    else if f.container then (Defined(m.next), Message(m.values[f.name := Defined(m.next)], m.next + 1))
    else (f.default, m)
  }

  /** `upb_Message_SetFieldByDef`: a oneof keeps only the member set last. */
  function Write(schema: set<Field>, m: Message, f: Field, v: SV): (r: Message) {
    m.(values := (map n | n in m.values && !Displaces(schema, f, n) :: m.values[n])[f.name := v])
  }

  predicate Displaces(schema: set<Field>, f: Field, n: string) {
    f.oneof.Some? && exists g :: g in schema && g.name == n && g.oneof == f.oneof
  }

  /** Two fields of one oneof. */
  predicate Siblings(f: Field, g: Field) {
    f.oneof.Some? && f.oneof == g.oneof && f.name != g.name
  }

  /** `upb_Message_ClearFieldByDef`. */
  function Erase(m: Message, f: Field): (r: Message) {
    m.(values := m.values - {f.name})
  }

  /** Field names are unique, and containers are in no oneof. */
  predicate ValidSchema(schema: set<Field>) {
    && (forall f, g :: f in schema && g in schema && f.name == g.name ==> f == g)
    && (forall f :: f in schema ==> f.container ==> f.oneof.None?)
  }

  /** A read settles the field: reading again answers the same and changes nothing. Only an
      absent container is changed by being read, and no other field. */
  lemma ReadStable(m: Message, f: Field, g: Field)
    ensures Read(Read(m, f).1, f) == (Read(m, f).0, Read(m, f).1)
    ensures f.name in m.values || !f.container ==> Read(m, f).1 == m
    ensures Read(m, f).0 == if f.name in m.values then m.values[f.name] else if f.container then Defined(m.next) else f.default
    ensures f.name !in m.values && f.container ==>
              Read(m, f).1.values == m.values[f.name := Defined(m.next)] && Read(m, f).1.next > m.next
    ensures g.name != f.name ==> (g.name in Read(m, f).1.values <==> g.name in m.values)
    ensures g.name != f.name && g.name in m.values ==> Read(m, f).1.values[g.name] == m.values[g.name]
  {
  }

  /** What is read after a set: the value on the field, the default on the rest of its oneof,
      and on every other field what was read before; and none of these reads changes anything
      unless the one before the set would have. */
  lemma ReadAfterWrite(schema: set<Field>, m: Message, f: Field, v: SV, g: Field)
    requires ValidSchema(schema) && f in schema && g in schema
    ensures var n := Write(schema, m, f, v);
            && (f == g ==> Read(n, g) == (v, n))
            && (Siblings(f, g) ==> Read(n, g) == (g.default, n))
            && (f != g && !Siblings(f, g) ==>
                  Read(n, g).0 == Read(m, g).0 && (Read(n, g).1 == n <==> Read(m, g).1 == m))
  {
  }

  /** What is read after a clear: the default, or a new container, and on every other field
      what was read before. */
  lemma ReadAfterErase(schema: set<Field>, m: Message, f: Field, g: Field)
    requires ValidSchema(schema) && f in schema && g in schema
    ensures var n := Erase(m, f);
            && (f == g && !g.container ==> Read(n, g) == (g.default, n))
            && (f == g && g.container ==> Read(n, g).0 == Defined(n.next) && Read(n, g).1 != n)
            && (f != g ==> Read(n, g).0 == Read(m, g).0 && (Read(n, g).1 == n <==> Read(m, g).1 == m))
  {
  }

  // ---------------------------------------------------------------- the accessors' state

  /** The bits of `mg_private`: the dirty bit and the profile given at wrapping. */
  datatype Flags = Flags(cacheDirty: bool, writeHeavy: bool, readHeavy: bool, zeroCopy: bool)

  /** The object: message, flags and the `_cache` hash, when there is one. */
  datatype Object = Object(message: Message, flags: Flags, memo: Option<map<string, SV>>)

  predicate Dirty(o: Object) { o.flags.cacheDirty }

  predicate WriteHeavy(o: Object) { o.flags.writeHeavy }

  function MarkDirty(o: Object): (r: Object) {
    if WriteHeavy(o) then o else o.(flags := o.flags.(cacheDirty := true))
  }

  datatype Op =
    | FastGet(f: Field)
    | FastSet(f: Field, converted: Option<SV>)   // no value when the conversion croaks
    | FastClear(f: Field)
    | SlowSet(f: Field, converted: Option<SV>)   // the generic `set` method
    | SlowClear(f: Field)                        // the generic `clear` method
    | SlowGet(f: Field)                          // the generic `get` method

  /** The memo after the check for coarse invalidation. */
  function Fresh(o: Object): (r: map<string, SV>) {
    if Dirty(o) || o.memo.None? then map[] else o.memo.value
  }

  /** What the fast getter answers. */
  function Answer(o: Object, f: Field): (r: SV) {
    if WriteHeavy(o) then Read(o.message, f).0
    else if f.name in Fresh(o) && Fresh(o)[f.name] != Undef then Fresh(o)[f.name]
    else Read(o.message, f).0
  }

  function Step(schema: set<Field>, o: Object, op: Op): (r: Object) {
    match op
    case FastGet(f) =>
      if WriteHeavy(o) then o.(message := Read(o.message, f).1)
      else
        var clean := o.(flags := o.flags.(cacheDirty := false), memo := Some(Fresh(o)));
        if f.name in Fresh(o) && Fresh(o)[f.name] != Undef then clean
        else clean.(message := Read(o.message, f).1, memo := Some(Fresh(o)[f.name := Read(o.message, f).0]))
    case FastSet(f, v) => if v.None? then o else MarkDirty(o.(message := Write(schema, o.message, f, v.value)))
    case FastClear(f) => MarkDirty(o.(message := Erase(o.message, f)))
    case SlowSet(f, v) => if v.None? then o else o.(message := Write(schema, o.message, f, v.value))
    case SlowClear(f) => o.(message := Erase(o.message, f))
    case SlowGet(f) => o.(message := Read(o.message, f).1)
  }

  function Run(schema: set<Field>, o: Object, ops: seq<Op>): (r: Object) {
    if ops == [] then o else Step(schema, Run(schema, o, ops[..|ops| - 1]), ops[|ops| - 1])
  }

  function FieldOf(op: Op): (r: Field) { op.f }

  predicate FieldsOf(schema: set<Field>, ops: seq<Op>) {
    forall i :: 0 <= i < |ops| ==> FieldOf(ops[i]) in schema
  }

  predicate SlowWrite(op: Op) { op.SlowSet? || op.SlowClear? }

  // ---------------------------------------------------------------- when the memo is right

  /** The memo's answer for `f` is the uncached one, and reading would change nothing. */
  predicate RightAbout(o: Object, f: Field) {
    f.name in Fresh(o) && Fresh(o)[f.name] != Undef ==>
      Read(o.message, f) == (Fresh(o)[f.name], o.message)
  }

  /** The fast getter can be trusted on every field. */
  predicate Coherent(schema: set<Field>, o: Object) {
    WriteHeavy(o) || forall f :: f in schema ==> RightAbout(o, f)
  }

  /** Which is the same as: on every field the fast getter answers what the uncached read
      answers now, and leaves the message as that read leaves it. */
  lemma CoherentMeans(schema: set<Field>, o: Object)
    ensures Coherent(schema, o) <==>
            forall f :: f in schema ==>
              Answer(o, f) == Read(o.message, f).0 && Step(schema, o, FastGet(f)).message == Read(o.message, f).1
  {
    hide Read;
  }

  /** A coherent object's fast getter answers what the uncached read answers now, and leaves
      the message as that read leaves it. */
  lemma GetterAgrees(schema: set<Field>, o: Object, f: Field)
    requires Coherent(schema, o) && f in schema
    ensures Answer(o, f) == Read(o.message, f).0
    ensures Step(schema, o, FastGet(f)).message == Read(o.message, f).1
  {
  }

  /** The memo a fast get leaves behind. */
  lemma GetLeaves(schema: set<Field>, o: Object, f: Field)
    ensures var n := Step(schema, o, FastGet(f));
            && WriteHeavy(n) == WriteHeavy(o)
            && (!WriteHeavy(o) ==>
                  var hit := f.name in Fresh(o) && Fresh(o)[f.name] != Undef;
                  && Fresh(n) == (if hit then Fresh(o) else Fresh(o)[f.name := Read(o.message, f).0])
                  && n.message == (if hit then o.message else Read(o.message, f).1))
  {
    hide Read;
  }

  lemma GetCoherent(schema: set<Field>, o: Object, f: Field)
    requires ValidSchema(schema) && Coherent(schema, o) && f in schema
    ensures Coherent(schema, Step(schema, o, FastGet(f)))
    ensures WriteHeavy(Step(schema, o, FastGet(f))) == WriteHeavy(o)
  {
    hide Step, Fresh, WriteHeavy;
    GetLeaves(schema, o, f);
    var n := Step(schema, o, FastGet(f));
    if !WriteHeavy(o) {
      forall g | g in schema ensures RightAbout(n, g) {
        assert RightAbout(o, g);
        ReadRight(schema, o.message, f, g);
      }
    }
  }

  /** Reading `f` keeps settled what reading `g` answers, and settles it when it is `f`. */
  lemma ReadRight(schema: set<Field>, m: Message, f: Field, g: Field)
    requires ValidSchema(schema) && f in schema && g in schema
    ensures Read(m, g).1 == m ==> Read(Read(m, f).1, g) == (Read(m, g).0, Read(m, f).1)
    ensures f.name == g.name ==> Read(Read(m, f).1, g) == (Read(m, f).0, Read(m, f).1)
  {
  }

  /** Every call except the generic writers keeps an object coherent. */
  lemma StepCoherent(schema: set<Field>, o: Object, op: Op)
    requires ValidSchema(schema) && Coherent(schema, o) && FieldOf(op) in schema && !SlowWrite(op)
    ensures Coherent(schema, Step(schema, o, op))
    ensures WriteHeavy(Step(schema, o, op)) == WriteHeavy(o)
  {
    match op
    case FastGet(f) => GetCoherent(schema, o, f);
    case SlowGet(f) =>
      forall g | g in schema && !WriteHeavy(o) ensures RightAbout(Step(schema, o, op), g) {
        assert RightAbout(o, g);
        ReadRight(schema, o.message, f, g);
      }
    case FastSet(f, v) => if v.Some? { FastWriteRepairs(schema, o, op); }
    case FastClear(f) => FastWriteRepairs(schema, o, op);
  }

  /** After any run of fast gets, sets, failed sets and clears (and generic reads) on an
      object that starts without a memo, whatever its flags, the fast getter agrees with the
      uncached read on every field, also on those a oneof has displaced. */
  lemma {:induction false} FastRunsAgree(schema: set<Field>, o: Object, ops: seq<Op>, f: Field)
    requires ValidSchema(schema) && FieldsOf(schema, ops) && f in schema && o.memo.None?
    requires forall i :: 0 <= i < |ops| ==> !SlowWrite(ops[i])
    ensures var r := Run(schema, o, ops);
            && Coherent(schema, r)
            && WriteHeavy(r) == WriteHeavy(o)
            && Answer(r, f) == Read(r.message, f).0
            && Step(schema, r, FastGet(f)).message == Read(r.message, f).1
  {
    if ops == [] {
    } else {
      FastRunsAgree(schema, o, ops[..|ops| - 1], f);
      StepCoherent(schema, Run(schema, o, ops[..|ops| - 1]), ops[|ops| - 1]);
    }
    GetterAgrees(schema, Run(schema, o, ops), f);
  }

  /** On a write-heavy object it agrees after every run, the generic writers included. */
  lemma {:induction false} WriteHeavyRunsAgree(schema: set<Field>, o: Object, ops: seq<Op>, f: Field)
    requires WriteHeavy(o)
    ensures var r := Run(schema, o, ops);
            WriteHeavy(r) && Answer(r, f) == Read(r.message, f).0
  {
    if ops == [] {
    } else {
      WriteHeavyRunsAgree(schema, o, ops[..|ops| - 1], f);
    }
  }

  /** The memo has an answer for `f` that the getter would give. */
  predicate Memoised(o: Object, f: Field) {
    !WriteHeavy(o) && f.name in Fresh(o) && Fresh(o)[f.name] != Undef
  }

  /** What a caller of a generic writer has to check before the call: the value set is the one
      memoised for the field, if any; and whatever is memoised for the rest of its oneof, or for
      a field that is cleared, is the default. */
  predicate Harmless(schema: set<Field>, o: Object, op: Op)
    requires SlowWrite(op)
  {
    match op
    case SlowSet(f, Some(v)) =>
      && (Memoised(o, f) ==> Fresh(o)[f.name] == v)
      && forall g :: g in schema && Siblings(f, g) && Memoised(o, g) ==> Fresh(o)[g.name] == g.default
    case SlowSet(_, None) => true
    case SlowClear(f) => Memoised(o, f) ==> !f.container && Fresh(o)[f.name] == f.default
  }

  /** A generic write leaves the flags alone, so a coherent object stays so exactly when the
      write was harmless, which can be told before it happens. Without a memo, on a dirty or on
      a write-heavy object every write is. */
  lemma SlowWriteCoherent(schema: set<Field>, o: Object, op: Op)
    requires ValidSchema(schema) && Coherent(schema, o) && FieldOf(op) in schema && SlowWrite(op)
    ensures Coherent(schema, Step(schema, o, op)) <==> Harmless(schema, o, op)
    ensures WriteHeavy(o) || Dirty(o) || o.memo.None? ==> Harmless(schema, o, op)
  {
    var n := Step(schema, o, op);
    if !WriteHeavy(o) {
      hide Read;
      forall g | g in schema ensures RightAbout(n, g) <==> HarmlessTo(o, op, g) {
        assert RightAbout(o, g);
        SlowWriteRight(schema, o, op, g);
      }
    }
  }

  /** The share of one field in that condition. */
  predicate HarmlessTo(o: Object, op: Op, g: Field)
    requires SlowWrite(op)
  {
    Memoised(o, g) ==>
      match op
      case SlowSet(f, Some(v)) =>
        (f == g ==> Fresh(o)[g.name] == v) && (Siblings(f, g) ==> Fresh(o)[g.name] == g.default)
      case SlowSet(_, None) => true
      case SlowClear(f) => f == g ==> !g.container && Fresh(o)[g.name] == g.default
  }

  lemma SlowWriteRight(schema: set<Field>, o: Object, op: Op, g: Field)
    requires ValidSchema(schema) && FieldOf(op) in schema && g in schema && SlowWrite(op)
    requires !WriteHeavy(o) && RightAbout(o, g)
    ensures RightAbout(Step(schema, o, op), g) <==> HarmlessTo(o, op, g)
  {
    if Memoised(o, g) {
      match op
      case SlowSet(f, Some(v)) => ReadAfterWrite(schema, o.message, f, v, g);
      case SlowSet(_, None) =>
      case SlowClear(f) => ReadAfterErase(schema, o.message, f, g);
    }
  }

  /** Throughout a run, generic writes included, the fast getter can be trusted if and only if
      every generic write in it is harmless when it happens. */
  lemma {:induction false} AlwaysCoherentExactly(schema: set<Field>, o: Object, ops: seq<Op>)
    requires ValidSchema(schema) && FieldsOf(schema, ops) && Coherent(schema, o)
    ensures AlwaysCoherent(schema, o, ops) <==> AlwaysHarmless(schema, o, ops)
  {
    hide Coherent, Step, Harmless;
    if ops == [] {
    } else {
      var init, op := ops[..|ops| - 1], ops[|ops| - 1];
      AlwaysCoherentExactly(schema, o, init);
      var before := Run(schema, o, init);
      if AlwaysCoherent(schema, o, init) {
        if SlowWrite(op) { SlowWriteCoherent(schema, before, op); } else { StepCoherent(schema, before, op); }
      }
    }
  }

  predicate AlwaysCoherent(schema: set<Field>, o: Object, ops: seq<Op>) {
    (ops != [] ==> AlwaysCoherent(schema, o, ops[..|ops| - 1])) && Coherent(schema, Run(schema, o, ops))
  }

  predicate AlwaysHarmless(schema: set<Field>, o: Object, ops: seq<Op>) {
    ops == [] ||
    (AlwaysHarmless(schema, o, ops[..|ops| - 1]) &&
     (SlowWrite(ops[|ops| - 1]) ==> Harmless(schema, Run(schema, o, ops[..|ops| - 1]), ops[|ops| - 1])))
  }

  /** Any later fast write repairs the object. */
  lemma FastWriteRepairs(schema: set<Field>, o: Object, op: Op)
    requires (op.FastSet? && op.converted.Some?) || op.FastClear?
    ensures Coherent(schema, Step(schema, o, op))
  {
  }

  /** So after any run, generic writes included, the fast getter agrees with the uncached read
      if some fast write came after the last generic one. */
  lemma {:induction false} RepairedRunsAgree(schema: set<Field>, o: Object, ops: seq<Op>, i: nat, f: Field)
    requires ValidSchema(schema) && FieldsOf(schema, ops) && f in schema && i < |ops|
    requires (ops[i].FastSet? && ops[i].converted.Some?) || ops[i].FastClear?
    requires forall j :: i < j < |ops| ==> !SlowWrite(ops[j])
    ensures var r := Run(schema, o, ops);
            Coherent(schema, r) && Answer(r, f) == Read(r.message, f).0
  {
    var before, last := Run(schema, o, ops[..|ops| - 1]), ops[|ops| - 1];
    if i == |ops| - 1 {
      FastWriteRepairs(schema, before, last);
    } else {
      RepairedRunsAgree(schema, o, ops[..|ops| - 1], i, f);
      StepCoherent(schema, before, last);
    }
    GetterAgrees(schema, Run(schema, o, ops), f);
  }

  /** The failing case in three calls: read a field fast, set it by the generic setter, read it
      fast again, and the old value is answered. */
  lemma StaleExample()
    ensures var f := Field("f", false, None, Defined(0));
            var start := Object(Message(map[], 1), Flags(false, false, false, false), None);
            var r := Run({f}, start, [FastGet(f), SlowSet(f, Some(Defined(7)))]);
            Answer(r, f) == Defined(0) && Read(r.message, f).0 == Defined(7)
  {
    var f := Field("f", false, None, Defined(0));
    var start := Object(Message(map[], 1), Flags(false, false, false, false), None);
    var ops := [FastGet(f), SlowSet(f, Some(Defined(7)))];
    assert ops[..1] == [FastGet(f)] && ops[..1][..0] == [];
    assert Run({f}, start, []) == start;
    assert Run({f}, start, ops[..1]) == Step({f}, start, FastGet(f));
  }

  /** What the memo is for: after a fast get of a field with a value, another one is answered from
      the memo and changes nothing. */
  lemma SecondGetIsHit(schema: set<Field>, o: Object, f: Field)
    requires !WriteHeavy(o) && Answer(o, f) != Undef
    ensures var n := Step(schema, o, FastGet(f));
            && !Dirty(n) && n.memo.Some? && f.name in n.memo.value && n.memo.value[f.name] == Answer(o, f)
            && Answer(n, f) == Answer(o, f) && Step(schema, n, FastGet(f)) == n
  {
  }

  /** On a write-heavy object no call touches the flags or the memo. */
  lemma {:induction false} WriteHeavyUntouched(schema: set<Field>, o: Object, ops: seq<Op>)
    requires WriteHeavy(o)
    ensures Run(schema, o, ops).flags == o.flags && Run(schema, o, ops).memo == o.memo
  {
    if ops == [] {
    } else {
      WriteHeavyUntouched(schema, o, ops[..|ops| - 1]);
    }
  }

  /** A set whose conversion croaks changes nothing, not even the dirty bit; a generic write, when
      it succeeds, changes the message alone. */
  lemma FailedSetChangesNothing(schema: set<Field>, o: Object, f: Field, v: SV)
    ensures Step(schema, o, FastSet(f, None)) == o && Step(schema, o, SlowSet(f, None)) == o
    ensures Step(schema, o, SlowSet(f, Some(v))) == o.(message := Write(schema, o.message, f, v))
    ensures Step(schema, o, SlowClear(f)) == o.(message := Erase(o.message, f))
  {
  }

  /** On any other object a fast write marks the memo dirty and leaves it to the next fast get to
      drop it. */
  lemma FastWriteMarks(schema: set<Field>, o: Object, op: Op)
    requires !WriteHeavy(o) && ((op.FastSet? && op.converted.Some?) || op.FastClear?)
    ensures var n := Step(schema, o, op);
            && Dirty(n) && n.memo == o.memo && n.flags == o.flags.(cacheDirty := true)
            && forall f {:trigger Memoised(n, f)} :: !Memoised(n, f)
  {
  }

  // ---------------------------------------------------------------- several wrappers

  /** What belongs to one wrapper of a message: its flags and its memo. */
  datatype Wrapper = Wrapper(flags: Flags, memo: Option<map<string, SV>>)

  /** A message with all the wrappers there are of it. */
  datatype Shared = Shared(message: Message, wrappers: seq<Wrapper>)

  /** The message as wrapper `i` sees it. */
  function View(h: Shared, i: nat): (o: Object)
    requires i < |h.wrappers|
  {
    Object(h.message, h.wrappers[i].flags, h.wrappers[i].memo)
  }

  /** A call through wrapper `i`. */
  datatype Through = Through(i: nat, op: Op)

  function StepThrough(schema: set<Field>, h: Shared, c: Through): (r: Shared) {
    if c.i >= |h.wrappers| then h
    else
      var n := Step(schema, View(h, c.i), c.op);
      Shared(n.message, h.wrappers[c.i := Wrapper(n.flags, n.memo)])
  }

  function RunThrough(schema: set<Field>, h: Shared, calls: seq<Through>): (r: Shared) {
    if calls == [] then h
    else StepThrough(schema, RunThrough(schema, h, calls[..|calls| - 1]), calls[|calls| - 1])
  }

  /** What a call through one wrapper is for the others: the flags and memo it sets are not
      theirs. */
  function Elsewhere(op: Op): (r: Op) {
    match op
    case FastGet(f) => SlowGet(f)
    case FastSet(f, v) => SlowSet(f, v)
    case FastClear(f) => SlowClear(f)
    case _ => op
  }

  predicate AllCoherent(schema: set<Field>, h: Shared) {
    forall i :: 0 <= i < |h.wrappers| ==> Coherent(schema, View(h, i))
  }

  /** The check for every wrapper a write bypasses: all but the one it goes through, and that
      one too when it is generic. */
  predicate HarmlessToAll(schema: set<Field>, h: Shared, c: Through) {
    SlowWrite(Elsewhere(c.op)) ==>
      forall i :: 0 <= i < |h.wrappers| ==>
        (i == c.i && !SlowWrite(c.op)) || Harmless(schema, View(h, i), Elsewhere(c.op))
  }

  /** A call through one wrapper, as seen from any. */
  lemma SeenFrom(schema: set<Field>, h: Shared, c: Through, i: nat)
    requires ValidSchema(schema) && AllCoherent(schema, h) && FieldOf(c.op) in schema
    requires c.i < |h.wrappers| && i < |h.wrappers|
    ensures View(StepThrough(schema, h, c), i) == Step(schema, View(h, i), if i == c.i then c.op else Elsewhere(c.op))
  {
    hide Coherent, Read;
    if c.op.FastGet? { GetterAgrees(schema, View(h, c.i), c.op.f); }
  }

  /** Every call, generic or fast, through any wrapper keeps all wrappers coherent if and only
      if it is harmless to those it bypasses. */
  lemma StepThroughCoherent(schema: set<Field>, h: Shared, c: Through)
    requires ValidSchema(schema) && AllCoherent(schema, h) && FieldOf(c.op) in schema && c.i < |h.wrappers|
    ensures AllCoherent(schema, StepThrough(schema, h, c)) <==> HarmlessToAll(schema, h, c)
  {
    hide Coherent, Step, Harmless;
    var n := StepThrough(schema, h, c);
    forall i | 0 <= i < |h.wrappers|
      ensures Coherent(schema, View(n, i)) <==>
              (SlowWrite(Elsewhere(c.op)) ==>
                 (i == c.i && !SlowWrite(c.op)) || Harmless(schema, View(h, i), Elsewhere(c.op)))
    {
      var op := if i == c.i then c.op else Elsewhere(c.op);
      SeenFrom(schema, h, c, i);
      if SlowWrite(op) { SlowWriteCoherent(schema, View(h, i), op); } else { StepCoherent(schema, View(h, i), op); }
    }
    assert |n.wrappers| == |h.wrappers|;
  }

  predicate AlwaysAllCoherent(schema: set<Field>, h: Shared, calls: seq<Through>) {
    (calls != [] ==> AlwaysAllCoherent(schema, h, calls[..|calls| - 1])) && AllCoherent(schema, RunThrough(schema, h, calls))
  }

  predicate AlwaysHarmlessToAll(schema: set<Field>, h: Shared, calls: seq<Through>) {
    calls == [] ||
    (AlwaysHarmlessToAll(schema, h, calls[..|calls| - 1]) &&
     HarmlessToAll(schema, RunThrough(schema, h, calls[..|calls| - 1]), calls[|calls| - 1]))
  }

  lemma {:induction false} WrappersStay(schema: set<Field>, h: Shared, calls: seq<Through>)
    ensures |RunThrough(schema, h, calls).wrappers| == |h.wrappers|
  {
    if calls == [] {
    } else {
      WrappersStay(schema, h, calls[..|calls| - 1]);
    }
  }

  /** Throughout any run of calls through the wrappers of one message, every fast getter of
      every wrapper agrees with the uncached read if and only if every write, the fast ones
      included, is harmless when it happens to the wrappers it bypasses. */
  lemma {:induction false} WrappersAgreeExactly(schema: set<Field>, h: Shared, calls: seq<Through>)
    requires ValidSchema(schema) && AllCoherent(schema, h)
    requires forall k :: 0 <= k < |calls| ==> calls[k].i < |h.wrappers| && FieldOf(calls[k].op) in schema
    ensures AlwaysAllCoherent(schema, h, calls) <==> AlwaysHarmlessToAll(schema, h, calls)
  {
    hide AllCoherent, HarmlessToAll, StepThrough;
    if calls == [] {
    } else {
      var init := calls[..|calls| - 1];
      WrappersAgreeExactly(schema, h, init);
      WrappersStay(schema, h, init);
      if AlwaysAllCoherent(schema, h, init) {
        StepThroughCoherent(schema, RunThrough(schema, h, init), calls[|calls| - 1]);
      }
    }
  }

  /** Two wrappers and fast calls only: a field read through the first, then set through the
      second, is read as before through the first. */
  lemma TwoWrappersExample()
    ensures var f := Field("f", false, None, Defined(0));
            var none := Flags(false, false, false, false);
            var start := Shared(Message(map[], 1), [Wrapper(none, None), Wrapper(none, None)]);
            var h := RunThrough({f}, start, [Through(0, FastGet(f)), Through(1, FastSet(f, Some(Defined(7))))]);
            |h.wrappers| == 2 && Answer(View(h, 0), f) == Defined(0) && Read(h.message, f).0 == Defined(7)
  {
    var f := Field("f", false, None, Defined(0));
    var none := Flags(false, false, false, false);
    var start := Shared(Message(map[], 1), [Wrapper(none, None), Wrapper(none, None)]);
    var calls := [Through(0, FastGet(f)), Through(1, FastSet(f, Some(Defined(7))))];
    assert calls[..1] == [Through(0, FastGet(f))] && calls[..1][..0] == [];
    assert RunThrough({f}, start, []) == start;
    assert RunThrough({f}, start, calls[..1]) == StepThrough({f}, start, Through(0, FastGet(f)));
  }

  // ---------------------------------------------------------------- the accessors

  /** An XS-backed message object with its magic. */
  class MessageObject {
    const schema: set<Field>
    var message: Message
    var mgPrivate: Flags
    var cache: Option<map<string, SV>>

    function Abs(): (r: Object)
      reads this
    {
      Object(message, mgPrivate, cache)
    }

    constructor (schema: set<Field>, message: Message, flags: Flags)
      ensures this.schema == schema && Abs() == Object(message, flags, None)
    {
      this.schema, this.message, this.mgPrivate, this.cache := schema, message, flags, None;
    }

    /** `PerlUpb_Message_GetField`. */
    method GetField(f: Field) returns (sv: SV)
      modifies this`message
      ensures (sv, message) == Read(old(message), f)
      ensures Read(message, f) == (sv, message)
      ensures message == old(message) || (f.container && f.name !in old(message).values)
    {
      var r := Read(message, f);
      sv, message := r.0, r.1;
    }

    /** `PerlUpb_Message_SetField`: converts first, so a croak leaves the message as it was. */
    method SetField(f: Field, converted: Option<SV>) returns (croaked: bool)
      modifies this`message
      ensures croaked == converted.None?
      ensures croaked ==> message == old(message)
      ensures !croaked ==> message == Write(schema, old(message), f, converted.value)
      ensures !croaked ==> Read(message, f) == (converted.value, message)
    {
      if converted.None? { return true; }
      message := Write(schema, message, f, converted.value);
      croaked := false;
    }

    /** Marks the memo dirty, unless the object never uses it. */
    method Invalidate()
      modifies this`mgPrivate
      ensures Abs() == MarkDirty(old(Abs()))
    {
      if !mgPrivate.writeHeavy {
        mgPrivate := mgPrivate.(cacheDirty := true);
      }
    }

    /** `PerlUpb_FastAccessor` as a getter: on an object that only the fast accessors write,
        the answer is that of the uncached read. */
    method Get(f: Field) returns (sv: SV)
      modifies this
      ensures Abs() == Step(schema, old(Abs()), FastGet(f)) && sv == Answer(old(Abs()), f)
      ensures old(Coherent(schema, Abs())) && f in schema ==> (sv, message) == Read(old(message), f)
    {
      ghost var o := Abs();
      hide Read, Coherent;
      if Coherent(schema, o) && f in schema { GetterAgrees(schema, o, f); }
      if mgPrivate.writeHeavy {
        sv := GetField(f);
        return;
      }
      if mgPrivate.cacheDirty {
        cache := None;
        mgPrivate := mgPrivate.(cacheDirty := false);
      }
      if cache.None? { cache := Some(map[]); }
      if f.name in cache.value && cache.value[f.name] != Undef {
        return cache.value[f.name];
      }
      sv := GetField(f);
      cache := Some(cache.value[f.name := sv]);
    }

    /** `PerlUpb_FastSetter`, and `PerlUpb_FastAccessor` as a setter. */
    method Set(f: Field, converted: Option<SV>) returns (croaked: bool)
      modifies this
      ensures Abs() == Step(schema, old(Abs()), FastSet(f, converted)) && croaked == converted.None?
    {
      croaked := SetField(f, converted);
      if !croaked { Invalidate(); }
    }

    /** `PerlUpb_FastClear`. */
    method Clear(f: Field)
      modifies this
      ensures Abs() == Step(schema, old(Abs()), FastClear(f))
    {
      message := Erase(message, f);
      Invalidate();
    }
  }
}
