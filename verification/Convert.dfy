/** Messages to Perl data and back: the recursive projection of a message into nested hashes
    and arrays, the conversion that rebuilds a message from them in whatever order Perl
    iterates a hash, and the batch paths for arrays of numbers. */
module Convert {
  import opened Streams
  import opened Options
  import opened Sequences

  datatype Result<+T> = Ok(value: T) | Croak

  // ---------------------------------------------------------------- schemas and messages

  /** Field types; the variants that differ only on the wire share one constructor. */
  datatype FieldType =
    | Int32 | UInt32 | Int64 | UInt64 | Bool | Float | Double | String | Bytes
    | Enum(names: map<seq<byte>, int>)
    | Message(name: string)

  datatype Field = Field(name: string, typ: FieldType, repeated: bool, oneof: Option<nat>)

  /** The fields of each message type, in order. */
  type Schema = map<string, seq<Field>>

  /** A double-precision number. Single-precision values are those the cast leaves unchanged. */
  datatype Number = Finite(r: real) | Infinite(negative: bool) | NaN

  datatype Value =
    | I32(i32: int) | U32(u32: int) | I64(i64: int) | U64(u64: int)
    | B(b: bool) | F(f: Number) | D(d: Number) | S(s: seq<byte>) | Y(y: seq<byte>)
    | E(e: int) | M(m: Msg)

  datatype Slot = One(v: Value) | Many(vs: seq<Value>)

  /** The fields that are present. An empty repeated field counts as absent. */
  datatype Msg = Msg(slots: map<string, Slot>)

  // ---------------------------------------------------------------- Perl values

  /** `IV` and `UV` are integers (`UV` above IV_MAX), `PV` is a string with its UTF8 flag,
      `YesNo` is a copy of PL_sv_yes or PL_sv_no, `Object` is a wrapped message. */
  datatype SV =
    | Undef | IV(iv: int) | UV(uv: int) | NV(nv: Number) | PV(bytes: seq<byte>, utf8: bool)
    | YesNo(yes: bool) | Array(items: seq<SV>) | Hash(entries: map<string, SV>)
    | Object(typ: string, msg: Msg)

  /** Conversions that Perl and the C library decide: how strings read as numbers (for `SvIV`,
      `SvUV`, `SvNV`, `strtoll` and `strtoull`), how doubles turn into integers (for `SvIV`,
      `SvUV` and the two casts), how numbers round, and what a reference is as a number. */
  datatype Perl = Perl(
    looksLikeNumber: seq<byte> -> bool,
    stringIV: seq<byte> -> int,
    stringUV: seq<byte> -> int,
    stringNV: seq<byte> -> Number,
    strtoll: seq<byte> -> int,
    strtoull: seq<byte> -> int,
    numberIV: Number -> int,
    numberUV: Number -> int,
    castInt64: Number -> int,
    castUInt64: Number -> int,
    round: int -> Number,
    narrow: Number -> Number,
    address: SV -> int)

  function NewUV(u: int): (r: SV) { if u <= 0x7FFF_FFFF_FFFF_FFFF then IV(u) else UV(u) }

  predicate IOK(sv: SV) { sv.IV? || sv.UV? || sv.YesNo? }
  predicate NOK(sv: SV) { sv.NV? || sv.YesNo? }
  predicate POK(sv: SV) { sv.PV? || sv.YesNo? }

  /** `SvPVX` of a string or of PL_sv_yes and PL_sv_no. */
  function Text(sv: SV): (r: seq<byte>)
    requires POK(sv)
  {
    match sv case PV(s, _) => s case YesNo(b) => if b then [49] else []
  }

  /** `SvIV`. */
  function IntOf(p: Perl, sv: SV): (r: int) {
    match sv
    case Undef => 0
    case IV(n) => n
    case UV(n) => n - 0x1_0000_0000_0000_0000
    case YesNo(b) => if b then 1 else 0
    case NV(d) => p.numberIV(d)
    case PV(s, _) => p.stringIV(s)
    case _ => p.address(sv)
  }

  /** `SvUV`. */
  function UIntOf(p: Perl, sv: SV): (r: int) {
    match sv
    case IV(n) => if n < 0 then n + 0x1_0000_0000_0000_0000 else n
    case UV(n) => n
    case NV(d) => p.numberUV(d)
    case PV(s, _) => p.stringUV(s)
    case _ => IntOf(p, sv)
  }

  /** `SvNV`. */
  function NumberOf(p: Perl, sv: SV): (r: Number) {
    match sv
    case Undef => Finite(0.0)
    case IV(n) => p.round(n)
    case UV(n) => p.round(n)
    case YesNo(b) => Finite(if b then 1.0 else 0.0)
    case NV(d) => d
    case PV(s, _) => p.stringNV(s)
    case _ => p.round(p.address(sv))
  }

  /** `SvTRUE`. */
  predicate Truth(sv: SV) {
    match sv
    case Undef => false
    case IV(n) => n != 0
    case UV(n) => n != 0
    case NV(d) => d != Finite(0.0)
    case PV(s, _) => s != [] && s != [48]
    case YesNo(b) => b
    case _ => true
  }

  /** `SvPVutf8`: a string without the flag is Latin-1 and is upgraded. */
  function Upgrade(s: seq<byte>): (r: seq<byte>) {
    if s == [] then []
    else (if s[0] < 128 then [s[0]] else [192 + s[0] / 64, 128 + s[0] % 64]) + Upgrade(s[1..])
  }

  function Utf8Of(sv: SV): (r: seq<byte>)
    requires POK(sv)
  {
    if sv.PV? && !sv.utf8 then Upgrade(sv.bytes) else Text(sv)
  }

  /** `SvPVbyte`: a flagged string is downgraded, which fails on a wide character. */
  function Downgrade(s: seq<byte>): (r: Result<seq<byte>>) {
    if s == [] then Ok([])
    else if s[0] < 128 then
      (match Downgrade(s[1..]) case Ok(t) => Ok([s[0]] + t) case Croak => Croak)
    else if 194 <= s[0] <= 195 && |s| >= 2 && 128 <= s[1] < 192 then
      (match Downgrade(s[2..]) case Ok(t) => Ok([(s[0] - 192) * 64 + (s[1] - 128)] + t) case Croak => Croak)
    else Croak
  }

  function BytesOf(sv: SV): (r: Result<seq<byte>>)
    requires POK(sv)
  {
    if sv.PV? && sv.utf8 then Downgrade(sv.bytes) else Ok(Text(sv))
  }

  // C integer casts.
  function ToInt32(n: int): (r: int)
    ensures -0x8000_0000 <= r < 0x8000_0000 && (-0x8000_0000 <= n < 0x8000_0000 ==> r == n)
    ensures (r - n) % 0x1_0000_0000 == 0
  {
    (n + 0x8000_0000) % 0x1_0000_0000 - 0x8000_0000
  }

  function ToUInt32(n: int): (r: int)
    ensures 0 <= r < 0x1_0000_0000 && (0 <= n < 0x1_0000_0000 ==> r == n)
    ensures (r - n) % 0x1_0000_0000 == 0
  {
    n % 0x1_0000_0000
  }

  // ---------------------------------------------------------------- one value

  predicate OutOfLimits(d: Number, min: real, max: real) {
    d.Infinite? || (d.Finite? && (d.r < min || d.r > max))
  }

  const FLOAT_LIMIT: real := 340282346600000000000000000000000000000.0

  predicate Numeric(p: Perl, sv: SV) {
    IOK(sv) || NOK(sv) || (POK(sv) && p.looksLikeNumber(Text(sv)))
  }

  /** `PerlUpb_SVToI64` and `PerlUpb_SVToU64`. */
  function Int64Of(p: Perl, sv: SV): (r: int) {
    if IOK(sv) then IntOf(p, sv)
    else if POK(sv) then p.strtoll(Text(sv))
    else p.castInt64(NumberOf(p, sv))
  }

  function UInt64Of(p: Perl, sv: SV): (r: int) {
    if IOK(sv) then UIntOf(p, sv)
    else if POK(sv) then p.strtoull(Text(sv))
    else p.castUInt64(NumberOf(p, sv))
  }

  /** `convert_singular_sv_to_upb` for everything but messages. */
  function Scalar(p: Perl, t: FieldType, sv: SV): (r: Result<Value>)
    requires !t.Message?
  {
    match t
    case Int32 =>
      if !Numeric(p, sv) || OutOfLimits(NumberOf(p, sv), -2147483648.0, 2147483647.0) then Croak
      else Ok(I32(ToInt32(IntOf(p, sv))))
    case UInt32 =>
      if !Numeric(p, sv) || OutOfLimits(NumberOf(p, sv), 0.0, 4294967295.0) then Croak
      else Ok(U32(ToUInt32(UIntOf(p, sv))))
    case Int64 => Ok(I64(Int64Of(p, sv)))
    case UInt64 =>
      if !sv.UV? && NOK(sv) && NumberOf(p, sv).Finite? && NumberOf(p, sv).r < 0.0 then Croak
      else if !sv.UV? && NOK(sv) && NumberOf(p, sv) == Infinite(true) then Croak
      else if sv.IV? && sv.iv < 0 then Croak
      else Ok(U64(UInt64Of(p, sv)))
    case Bool => Ok(B(Truth(sv)))
    case Float =>
      if !Numeric(p, sv) || OutOfLimits(NumberOf(p, sv), -FLOAT_LIMIT, FLOAT_LIMIT) then Croak
      else Ok(F(p.narrow(NumberOf(p, sv))))
    case Double => if !Numeric(p, sv) then Croak else Ok(D(NumberOf(p, sv)))
    case String => if !POK(sv) then Croak else Ok(S(Utf8Of(sv)))
    case Bytes =>
      if !POK(sv) then Croak
      else (match BytesOf(sv) case Ok(s) => Ok(Y(s)) case Croak => Croak)
    case Enum(names) =>
      if IOK(sv) then Ok(E(ToInt32(IntOf(p, sv))))
      else if POK(sv) && Utf8Of(sv) in names then Ok(E(names[Utf8Of(sv)]))
      else Croak
  }

  /** The types that repeated fields convert in a batch. */
  predicate Batched(t: FieldType) { !t.Message? && t != String && t != Bytes }

  /** One element of `PerlUpb_SvToUpb_BatchRaw`: no type check and no range check. */
  function Raw(p: Perl, t: FieldType, sv: SV): (r: Value)
    requires Batched(t)
  {
    match t
    case Bool => B(Truth(sv))
    case Int32 => I32(ToInt32(IntOf(p, sv)))
    case Enum(_) => E(ToInt32(IntOf(p, sv)))
    case UInt32 => U32(ToUInt32(UIntOf(p, sv)))
    case Float => F(p.narrow(NumberOf(p, sv)))
    case Double => D(NumberOf(p, sv))
    case Int64 => I64(Int64Of(p, sv))
    case UInt64 => U64(UInt64Of(p, sv))
  }

  /** `convert_singular_upb_to_sv` for everything but messages. */
  function ScalarToSv(v: Value): (r: SV)
    requires !v.M?
  {
    match v
    case I32(n) => IV(n)
    case E(n) => IV(n)
    case S(s) => PV(s, true)
    case Y(s) => PV(s, false)
    case B(b) => YesNo(b)
    case F(d) => NV(d)
    case D(d) => NV(d)
    case U32(n) => NewUV(n)
    case I64(n) => IV(n)
    case U64(n) => NewUV(n)
  }

  /** The values a field of type `t` can hold. */
  predicate Holds(p: Perl, t: FieldType, v: Value) {
    match v
    case I32(n) => t.Int32? && -0x8000_0000 <= n < 0x8000_0000
    case U32(n) => t.UInt32? && 0 <= n < 0x1_0000_0000
    case I64(n) => t.Int64? && -0x8000_0000_0000_0000 <= n < 0x8000_0000_0000_0000
    case U64(n) => t.UInt64? && 0 <= n < 0x1_0000_0000_0000_0000
    case B(_) => t.Bool?
    case F(d) => t.Float? && p.narrow(d) == d
    case D(_) => t.Double?
    case S(_) => t.String?
    case Y(_) => t.Bytes?
    case E(n) => t.Enum? && -0x8000_0000 <= n < 0x8000_0000
    case M(_) => t.Message?
  }

  /** Perl holds every 32-bit integer exactly as a double. */
  ghost predicate ExactIntegers(p: Perl) {
    forall n {:trigger p.round(n)} :: -0x8000_0000 <= n < 0x1_0000_0000 ==> p.round(n) == Finite(n as real)
  }

  /** A single-precision value the range check lets through. The limit is the decimal
      3.402823466e+38, which lies just below the largest such number. */
  predicate FloatAccepted(v: Value) {
    v.F? ==> !OutOfLimits(v.f, -FLOAT_LIMIT, FLOAT_LIMIT)
  }

  /** One value survives the way to Perl and back, by either path; only the checked path
      refuses anything, and only floats beyond the limit. */
  lemma ScalarRoundTrip(p: Perl, t: FieldType, v: Value)
    requires ExactIntegers(p) && Holds(p, t, v) && !t.Message?
    ensures Scalar(p, t, ScalarToSv(v)) == if FloatAccepted(v) then Ok(v) else Croak
    ensures Batched(t) ==> Raw(p, t, ScalarToSv(v)) == v
  {
  }

  /** The largest single-precision number is refused by the range check. */
  lemma LargestFloatRefused(p: Perl)
    ensures Scalar(p, Float, ScalarToSv(F(Finite(340282346638528859811704183484516925440.0)))) == Croak
  {
  }

  /** Where the checked conversion succeeds the batch gives the same value, except that it
      does not look up enum names: there it agrees exactly when Perl reads the name as the
      number the enum gives it. */
  lemma BatchAgrees(p: Perl, t: FieldType, sv: SV)
    requires Batched(t) && Scalar(p, t, sv).Ok?
    ensures (t.Enum? ==> IOK(sv)) ==> Raw(p, t, sv) == Scalar(p, t, sv).value
    ensures t.Enum? && !IOK(sv) ==> POK(sv) && Raw(p, t, sv) == E(ToInt32(p.stringIV(Text(sv))))
    ensures t.Enum? && !IOK(sv) ==>
              (Raw(p, t, sv) == Scalar(p, t, sv).value <==> t.names[Utf8Of(sv)] == ToInt32(p.stringIV(Text(sv))))
  {
  }

  // ---------------------------------------------------------------- whole messages

  function Find(fields: seq<Field>, name: string): (r: Option<Field>) {
    if fields == [] then None
    else if fields[0].name == name then Some(fields[0])
    else Find(fields[1..], name)
  }

  function FieldsOf(s: Schema, typ: string): (r: seq<Field>) { if typ in s then s[typ] else [] }

  predicate Distinct(fields: seq<Field>) {
    forall i, j :: 0 <= i < j < |fields| ==> fields[i].name != fields[j].name
  }

  /** Field names are C strings and unique within a message, and repeated fields are in no
      oneof. */
  predicate ValidSchema(s: Schema) {
    forall t :: t in s ==>
      && Distinct(s[t])
      && forall f :: f in s[t] ==> '\0' !in f.name && (f.repeated ==> f.oneof.None?)
  }

  /** What C takes for the string: all before the first NUL. */
  function CString(key: string): (name: string)
    ensures |name| <= |key|
  {
    if key == "" || key[0] == '\0' then "" else [key[0]] + CString(key[1..])
  }

  lemma {:induction false} CStringSame(key: string)
    requires '\0' !in key
    ensures CString(key) == key
  {
    if key == "" {
    } else {
      CStringSame(key[1..]);
    }
  }

  /** Whatever follows the first NUL is not seen. */
  lemma {:induction false} CStringCuts(name: string, rest: string)
    requires '\0' !in name
    ensures CString(name + "\0" + rest) == name
  {
    var key := name + "\0" + rest;
    if name == "" {
      assert key[0] == '\0';
    } else {
      CStringCuts(name[1..], rest);
      assert key[0] == name[0] && key[1..] == name[1..] + "\0" + rest;
    }
  }

  /** `upb_MessageDef_FindFieldByName` on a hash key: a key with a NUL names the field that its
      part before the NUL names. */
  function FindByName(fields: seq<Field>, key: string): (r: Option<Field>) {
    Find(fields, CString(key))
  }

  /** The name of a field is a key for it. */
  lemma FindByOwnName(s: Schema, typ: string, name: string)
    requires ValidSchema(s) && Find(FieldsOf(s, typ), name).Some?
    ensures CString(name) == name
  {
    FindIn(FieldsOf(s, typ), name);
    CStringSame(name);
  }

  lemma {:induction false} FindIn(fields: seq<Field>, name: string)
    ensures Find(fields, name).Some? ==> Find(fields, name).value in fields && Find(fields, name).value.name == name
    ensures Find(fields, name).None? ==> forall i :: 0 <= i < |fields| ==> fields[i].name != name
  {
    if fields == [] {
    } else {
      FindIn(fields[1..], name);
    }
  }

  lemma {:induction false} FindAt(fields: seq<Field>, i: nat)
    requires i < |fields| && Distinct(fields)
    ensures Find(fields, fields[i].name) == Some(fields[i])
  {
    if i == 0 {
    } else {
      var t := fields[1..];
      assert Distinct(t);
      assert t[i - 1] == fields[i];
      FindAt(t, i - 1);
    }
  }

  predicate SameOneof(f: Field, g: Field) {
    f.oneof.Some? && f.oneof == g.oneof
  }

  /** What `upb_Message` guarantees of a message of type `typ`. */
  ghost predicate WellTyped(p: Perl, s: Schema, typ: string, m: Msg)
    decreases m
  {
    && (forall k :: k in m.slots ==>
          var f := Find(FieldsOf(s, typ), k);
          f.Some? && SlotTyped(p, s, f.value, m.slots[k]))
    && OneofsSingle(FieldsOf(s, typ), m)
  }

  /** At most one member of each oneof is present. */
  ghost predicate OneofsSingle(fields: seq<Field>, m: Msg) {
    forall k, l :: k in m.slots && l in m.slots && k != l ==> !Siblings(fields, k, l)
  }

  predicate Siblings(fields: seq<Field>, k: string, l: string) {
    Find(fields, k).Some? && Find(fields, l).Some? && SameOneof(Find(fields, k).value, Find(fields, l).value)
  }

  ghost predicate SlotTyped(p: Perl, s: Schema, f: Field, slot: Slot)
    decreases slot
  {
    match slot
    case One(v) => !f.repeated && ValueTyped(p, s, f, v)
    case Many(vs) => f.repeated && vs != [] && forall i :: 0 <= i < |vs| ==> ValueTyped(p, s, f, vs[i])
  }

  ghost predicate ValueTyped(p: Perl, s: Schema, f: Field, v: Value)
    decreases v
  {
    Holds(p, f.typ, v) && (v.M? ==> WellTyped(p, s, f.typ.name, v.m))
  }

  // ---- to Perl

  function MessageToSv(s: Schema, typ: string, m: Msg): (sv: SV)
    ensures sv.Hash?
    decreases m
  {
    Hash(map k | k in m.slots && Find(FieldsOf(s, typ), k).Some? && Present(m.slots[k]) ::
           SlotToSv(s, Find(FieldsOf(s, typ), k).value, m.slots[k]))
  }

  predicate Present(slot: Slot) { slot.Many? ==> slot.vs != [] }

  function SlotToSv(s: Schema, f: Field, slot: Slot): (r: SV)
    decreases slot
  {
    match slot
    case One(v) => ValueToSv(s, f, v)
    case Many(vs) => Array(seq(|vs|, i requires 0 <= i < |vs| => ValueToSv(s, f, vs[i])))
  }

  function ValueToSv(s: Schema, f: Field, v: Value): (r: SV)
    decreases v
  {
    if v.M? then (if f.typ.Message? then MessageToSv(s, f.typ.name, v.m) else Undef) else ScalarToSv(v)
  }

  // ---- and back

  /** Whether `PerlUpb_SvToUpb` accepts `sv` for field `f`; it croaks otherwise. */
  ghost predicate Accepts(p: Perl, s: Schema, f: Field, sv: SV)
    decreases sv, 2
  {
    && sv != Undef
    && if f.repeated then
         sv.Array? && (!Batched(f.typ) ==> forall i :: 0 <= i < |sv.items| ==> AcceptsOne(p, s, f, sv.items[i]))
       else AcceptsOne(p, s, f, sv)
  }

  ghost predicate AcceptsOne(p: Perl, s: Schema, f: Field, sv: SV)
    decreases sv, 1
  {
    if !f.typ.Message? then Scalar(p, f.typ, sv).Ok?
    else
      match sv
      case Hash(_) => HashAccepted(p, s, f.typ.name, sv)
      case Object(t, _) => t == f.typ.name
      case _ => false
  }

  /** Every key names a field that accepts the value. */
  ghost predicate HashAccepted(p: Perl, s: Schema, typ: string, sv: SV)
    requires sv.Hash?
    decreases sv, 0
  {
    forall k :: k in sv.entries ==>
      var f := FindByName(FieldsOf(s, typ), k);
      f.Some? && Accepts(p, s, f.value, sv.entries[k])
  }

  /** `slot` is what `PerlUpb_SvToUpb` can produce from `sv` for field `f`. */
  ghost predicate Converts(p: Perl, s: Schema, f: Field, sv: SV, slot: Slot)
    decreases sv, 2
  {
    && sv != Undef
    && if f.repeated then
         && sv.Array? && slot.Many? && |slot.vs| == |sv.items|
         && forall i :: 0 <= i < |sv.items| ==>
              if Batched(f.typ) then slot.vs[i] == Raw(p, f.typ, sv.items[i])
              else ConvertsOne(p, s, f, sv.items[i], slot.vs[i])
       else slot.One? && ConvertsOne(p, s, f, sv, slot.v)
  }

  ghost predicate ConvertsOne(p: Perl, s: Schema, f: Field, sv: SV, v: Value)
    decreases sv, 1
  {
    if !f.typ.Message? then Scalar(p, f.typ, sv) == Ok(v)
    else
      match sv
      case Hash(h) => v.M? && Built(p, s, f.typ.name, sv, h.Keys, v.m)
      case Object(t, m) => t == f.typ.name && v == M(m)
      case _ => false
  }

  /** `m` is a message the entries `done` of the hash can be turned into: each entry is set on
      the field its key names; of several entries for one field or in one oneof the one
      iterated last remains, which can be any of them. */
  ghost predicate Built(p: Perl, s: Schema, typ: string, sv: SV, done: set<string>, m: Msg)
    requires sv.Hash? && done <= sv.entries.Keys
    decreases sv, 0
  {
    var fields, h := FieldsOf(s, typ), sv.entries;
    && (forall n :: n in m.slots ==>
          && Find(fields, n).Some? && Present(m.slots[n])
          && exists k :: k in done && CString(k) == n && Converts(p, s, Find(fields, n).value, h[k], m.slots[n]))
    && (forall k :: k in done && CString(k) !in m.slots ==> Replaced(fields, h, done, CString(k), m))
    && OneofsSingle(fields, m)
  }

  /** Why entries for `n` left no field: one of them is an empty array, which is absence, or
      another member of the oneof may have been set after them. */
  ghost predicate Replaced(fields: seq<Field>, h: map<string, SV>, done: set<string>, n: string, m: Msg)
    requires done <= h.Keys
  {
    || (Find(fields, n).Some? && Find(fields, n).value.repeated && exists k :: k in done && CString(k) == n && h[k] == Array([]))
    || exists l :: l in m.slots && Siblings(fields, n, l)
  }

  // ---------------------------------------------------------------- the round trip

  /** No single float anywhere in the message is beyond the limit. Repeated floats may be:
      their batch is not checked. */
  ghost predicate FloatsAccepted(m: Msg)
    decreases m
  {
    forall k :: k in m.slots ==> SlotFloatsAccepted(m.slots[k])
  }

  ghost predicate SlotFloatsAccepted(slot: Slot)
    decreases slot
  {
    match slot
    case One(v) => ValueFloatsAccepted(v)
    case Many(vs) => forall i :: 0 <= i < |vs| && vs[i].M? ==> FloatsAccepted(vs[i].m)
  }

  ghost predicate ValueFloatsAccepted(v: Value)
    decreases v
  {
    FloatAccepted(v) && (v.M? ==> FloatsAccepted(v.m))
  }

  lemma {:induction false} ValueRoundTrip(p: Perl, s: Schema, f: Field, v: Value)
    requires ExactIntegers(p) && ValidSchema(s) && ValueTyped(p, s, f, v)
    ensures var sv := ValueToSv(s, f, v);
            && sv != Undef && !sv.Array?
            && (AcceptsOne(p, s, f, sv) <==> ValueFloatsAccepted(v))
            && (ValueFloatsAccepted(v) ==> forall w :: ConvertsOne(p, s, f, sv, w) <==> w == v)
    decreases v, 0
  {
    hide Built, HashAccepted, FloatsAccepted, WellTyped, MessageToSv, Scalar, ScalarToSv;
    if v.M? {
      MessageRoundTrip(p, s, f.typ.name, v.m);
    } else {
      ScalarRoundTrip(p, f.typ, v);
      ScalarToSvShape(v);
    }
  }

  lemma ScalarToSvShape(v: Value)
    requires !v.M?
    ensures ScalarToSv(v) != Undef && !ScalarToSv(v).Array?
  {
  }

  lemma {:induction false} SlotRoundTrip(p: Perl, s: Schema, f: Field, slot: Slot)
    requires ExactIntegers(p) && ValidSchema(s) && SlotTyped(p, s, f, slot)
    ensures var sv := SlotToSv(s, f, slot);
            && sv != Array([])
            && (Accepts(p, s, f, sv) <==> SlotFloatsAccepted(slot))
            && (SlotFloatsAccepted(slot) ==> forall w :: Converts(p, s, f, sv, w) <==> w == slot)
    decreases slot
  {
    hide AcceptsOne, ConvertsOne, ValueToSv, ValueTyped, Raw;
    match slot
    case One(v) => ValueRoundTrip(p, s, f, v);
    case Many(vs) =>
      var sv := SlotToSv(s, f, slot);
      forall i | 0 <= i < |vs|
        ensures vs[i].M? ==> !Batched(f.typ)
        ensures Batched(f.typ) ==> Raw(p, f.typ, sv.items[i]) == vs[i]
        ensures !Batched(f.typ) ==>
          && (AcceptsOne(p, s, f, sv.items[i]) <==> ElementFine(vs[i]))
          && (ElementFine(vs[i]) ==> forall w :: ConvertsOne(p, s, f, sv.items[i], w) <==> w == vs[i])
      {
        assert sv.items[i] == ValueToSv(s, f, vs[i]);
        ElementRoundTrip(p, s, f, vs[i]);
      }
      forall w | SlotFloatsAccepted(slot)
        ensures Converts(p, s, f, sv, w) <==> w == slot
      {
        if Converts(p, s, f, sv, w) {
          forall i | 0 <= i < |vs| ensures w.vs[i] == vs[i] {
            assert ElementFine(vs[i]);
            var item := sv.items[i];
            if Batched(f.typ) {
              assert w.vs[i] == Raw(p, f.typ, item);
            } else {
              assert ConvertsOne(p, s, f, item, w.vs[i]);
            }
          }
          assert w.vs == vs;
        }
      }
  }

  ghost predicate ElementFine(v: Value) { v.M? ==> FloatsAccepted(v.m) }

  lemma {:induction false} ElementRoundTrip(p: Perl, s: Schema, f: Field, v: Value)
    requires ExactIntegers(p) && ValidSchema(s) && ValueTyped(p, s, f, v)
    ensures v.M? ==> !Batched(f.typ)
    ensures Batched(f.typ) ==> Raw(p, f.typ, ValueToSv(s, f, v)) == v
    ensures !Batched(f.typ) ==>
      && (AcceptsOne(p, s, f, ValueToSv(s, f, v)) <==> ElementFine(v))
      && (ElementFine(v) ==> forall w :: ConvertsOne(p, s, f, ValueToSv(s, f, v), w) <==> w == v)
    decreases v, 1
  {
    ValueRoundTrip(p, s, f, v);
    if Batched(f.typ) { ScalarRoundTrip(p, f.typ, v); }
  }

  /** The conversion of a projected message: whatever order the hashes are iterated in, it
      is accepted exactly when no single float is beyond the limit, and then the only
      possible outcome is the message itself. */
  lemma {:induction false} MessageRoundTrip(p: Perl, s: Schema, typ: string, m: Msg)
    requires ExactIntegers(p) && ValidSchema(s) && WellTyped(p, s, typ, m)
    ensures var sv := MessageToSv(s, typ, m);
            && (HashAccepted(p, s, typ, sv) <==> FloatsAccepted(m))
            && (FloatsAccepted(m) ==> forall w :: Built(p, s, typ, sv, sv.entries.Keys, w) <==> w == m)
    decreases m
  {
    hide Accepts, Converts, SlotToSv, SlotTyped, SlotFloatsAccepted, OneofsSingle;
    var fields, sv := FieldsOf(s, typ), MessageToSv(s, typ, m);
    forall k | k in m.slots
      ensures k in sv.entries && CString(k) == k && Present(m.slots[k]) && sv.entries[k] != Array([])
      ensures Accepts(p, s, Find(fields, k).value, sv.entries[k]) <==> SlotFloatsAccepted(m.slots[k])
      ensures SlotFloatsAccepted(m.slots[k]) ==>
                forall w :: Converts(p, s, Find(fields, k).value, sv.entries[k], w) <==> w == m.slots[k]
    {
      FindByOwnName(s, typ, k);
      TypedPresent(p, s, Find(fields, k).value, m.slots[k]);
      SlotRoundTrip(p, s, Find(fields, k).value, m.slots[k]);
    }
    assert sv.entries.Keys == m.slots.Keys;
    forall w | FloatsAccepted(m)
      ensures Built(p, s, typ, sv, sv.entries.Keys, w) <==> w == m
    {
      if Built(p, s, typ, sv, sv.entries.Keys, w) {
        forall n | n in w.slots ensures n in m.slots && w.slots[n] == m.slots[n] {
          var k :| k in sv.entries && CString(k) == n && Converts(p, s, Find(fields, n).value, sv.entries[k], w.slots[n]);
          assert SlotFloatsAccepted(m.slots[k]);
        }
        forall k | k in m.slots ensures k in w.slots {
          if k !in w.slots {
            assert CString(k) == k;
            NotReplaced(fields, sv.entries, k, w, m);
          }
        }
        assert w.slots == m.slots;
      }
      if w == m {
        forall n | n in m.slots
          ensures exists k :: k in sv.entries && CString(k) == n && Converts(p, s, Find(fields, n).value, sv.entries[k], m.slots[n])
        {
          assert SlotFloatsAccepted(m.slots[n]) && CString(n) == n;
        }
      }
    }
  }

  lemma TypedPresent(p: Perl, s: Schema, f: Field, slot: Slot)
    requires SlotTyped(p, s, f, slot)
    ensures Present(slot)
  {
  }

  lemma NotReplaced(fields: seq<Field>, h: map<string, SV>, k: string, w: Msg, m: Msg)
    requires k in m.slots && k !in w.slots && w.slots.Keys <= m.slots.Keys == h.Keys
    requires forall l :: l in h ==> CString(l) == l && h[l] != Array([])
    requires OneofsSingle(fields, m)
    ensures !Replaced(fields, h, h.Keys, k, w)
  {
  }

  // ---------------------------------------------------------------- iteration order

  /** No two entries of a hash, at any depth, get in each other's way. */
  ghost predicate NoClash(p: Perl, s: Schema, f: Field, sv: SV)
    decreases sv, 1
  {
    match sv
    case Hash(_) => f.typ.Message? ==> NoHashClash(p, s, f.typ.name, sv)
    case Array(items) => forall i :: 0 <= i < |items| ==> NoClash(p, s, f, items[i])
    case _ => true
  }

  ghost predicate NoHashClash(p: Perl, s: Schema, typ: string, sv: SV)
    requires sv.Hash?
    decreases sv, 0
  {
    var fields, h := FieldsOf(s, typ), sv.entries;
    && (forall k, l :: k in h && l in h && k != l ==> Compatible(p, s, typ, sv, k, l))
    && (forall k :: k in h && FindByName(fields, k).Some? ==> NoClash(p, s, FindByName(fields, k).value, h[k]))
  }

  /** Two entries of a hash do not name two members of one oneof, and if they name one field,
      by keys that differ after a NUL, their values convert to the same. */
  ghost predicate Compatible(p: Perl, s: Schema, typ: string, sv: SV, k: string, l: string)
    requires sv.Hash? && k in sv.entries && l in sv.entries
  {
    var fields, h := FieldsOf(s, typ), sv.entries;
    if CString(k) == CString(l) then
      FindByName(fields, k).Some? ==> Alike(p, s, FindByName(fields, k).value, h[k], h[l])
    else !Siblings(fields, CString(k), CString(l))
  }

  /** Two values convert to the same. */
  ghost predicate Alike(p: Perl, s: Schema, f: Field, a: SV, b: SV) {
    exists slot :: Converts(p, s, f, a, slot) && Converts(p, s, f, b, slot)
  }

  /** A hash without such a clash turns into one message only, in whatever order it and the
      hashes inside it are iterated. */
  lemma {:induction false} OrderIrrelevant(p: Perl, s: Schema, typ: string, sv: SV, m: Msg, n: Msg)
    requires sv.Hash? && NoHashClash(p, s, typ, sv)
    requires Built(p, s, typ, sv, sv.entries.Keys, m) && Built(p, s, typ, sv, sv.entries.Keys, n)
    ensures m == n
    decreases sv, 1
  {
    hide Built, NoHashClash;
    forall q | q in m.slots ensures q in n.slots && m.slots[q] == n.slots[q] { SameField(p, s, typ, sv, m, n, q); }
    forall q | q in n.slots ensures q in m.slots { SameField(p, s, typ, sv, n, m, q); }
    assert m.slots == n.slots;
  }

  /** The entry a field came from. */
  lemma Origin(p: Perl, s: Schema, typ: string, sv: SV, m: Msg, q: string) returns (k: string)
    requires sv.Hash? && Built(p, s, typ, sv, sv.entries.Keys, m) && q in m.slots
    ensures k in sv.entries && CString(k) == q && FindByName(FieldsOf(s, typ), k).Some? && Present(m.slots[q])
    ensures Converts(p, s, FindByName(FieldsOf(s, typ), k).value, sv.entries[k], m.slots[q])
  {
    hide Converts, Find, Siblings, OneofsSingle, CString, Present;
    k :| k in sv.entries && CString(k) == q && Converts(p, s, Find(FieldsOf(s, typ), q).value, sv.entries[k], m.slots[q]);
  }

  lemma EntriesCompatible(p: Perl, s: Schema, typ: string, sv: SV, k: string, l: string)
    requires sv.Hash? && NoHashClash(p, s, typ, sv) && k in sv.entries && l in sv.entries && k != l
    ensures Compatible(p, s, typ, sv, k, l)
  {
  }

  /** Two entries for one field give one value. */
  lemma {:induction false} SameValue(p: Perl, s: Schema, typ: string, sv: SV, k: string, l: string, a: Slot, b: Slot)
    requires sv.Hash? && NoHashClash(p, s, typ, sv)
    requires k in sv.entries && l in sv.entries && CString(k) == CString(l) && FindByName(FieldsOf(s, typ), k).Some?
    requires Converts(p, s, FindByName(FieldsOf(s, typ), k).value, sv.entries[k], a)
    requires Converts(p, s, FindByName(FieldsOf(s, typ), k).value, sv.entries[l], b)
    ensures a == b
    decreases sv, 0, 0
  {
    hide Converts, NoClash, Find, CString;
    var f, h := FindByName(FieldsOf(s, typ), k).value, sv.entries;
    var slot := a;
    if k != l {
      EntriesCompatible(p, s, typ, sv, k, l);
      slot :| Converts(p, s, f, h[k], slot) && Converts(p, s, f, h[l], slot);
    }
    assert NoClash(p, s, FindByName(FieldsOf(s, typ), l).value, h[l]);
    SlotOrderIrrelevant(p, s, f, h[k], a, slot);
    SlotOrderIrrelevant(p, s, f, h[l], b, slot);
  }

  /** What one order leaves on a field every order leaves there. */
  lemma {:induction false} SameField(p: Perl, s: Schema, typ: string, sv: SV, m: Msg, n: Msg, q: string)
    requires sv.Hash? && NoHashClash(p, s, typ, sv) && q in m.slots
    requires Built(p, s, typ, sv, sv.entries.Keys, m) && Built(p, s, typ, sv, sv.entries.Keys, n)
    ensures q in n.slots && m.slots[q] == n.slots[q]
    decreases sv, 0, 1
  {
    hide Converts, NoClash, NoHashClash, Find, Siblings, OneofsSingle, CString, Present;
    var h := sv.entries;
    var k := Origin(p, s, typ, sv, m, q);
    if q in n.slots {
      var l := Origin(p, s, typ, sv, n, q);
      SameValue(p, s, typ, sv, k, l, m.slots[q], n.slots[q]);
    } else if r :| r in n.slots && Siblings(FieldsOf(s, typ), q, r) {
      var l := Origin(p, s, typ, sv, n, r);
      EntriesCompatible(p, s, typ, sv, k, l);
    } else {
      assert Replaced(FieldsOf(s, typ), h, h.Keys, q, n);
      var l :| l in h && CString(l) == q && h[l] == Array([]);
      EmptyConverts(p, s, FindByName(FieldsOf(s, typ), k).value);
      SameValue(p, s, typ, sv, k, l, m.slots[q], Many([]));
    }
  }

  /** An empty array leaves no present slot of a repeated field. */
  lemma EmptyConverts(p: Perl, s: Schema, f: Field)
    requires f.repeated
    ensures Converts(p, s, f, Array([]), Many([])) && !Present(Many([]))
  {
  }

  lemma {:induction false} SlotOrderIrrelevant(p: Perl, s: Schema, f: Field, sv: SV, a: Slot, b: Slot)
    requires NoClash(p, s, f, sv) && Converts(p, s, f, sv, a) && Converts(p, s, f, sv, b)
    ensures a == b
    decreases sv, 3
  {
    hide ConvertsOne;
    if f.repeated {
      forall i | 0 <= i < |sv.items| ensures a.vs[i] == b.vs[i] {
        if !Batched(f.typ) { OneOrderIrrelevant(p, s, f, sv.items[i], a.vs[i], b.vs[i]); }
      }
      assert a.vs == b.vs;
    } else {
      OneOrderIrrelevant(p, s, f, sv, a.v, b.v);
    }
  }

  lemma {:induction false} OneOrderIrrelevant(p: Perl, s: Schema, f: Field, sv: SV, a: Value, b: Value)
    requires NoClash(p, s, f, sv) && ConvertsOne(p, s, f, sv, a) && ConvertsOne(p, s, f, sv, b)
    ensures a == b
    decreases sv, 2
  {
    hide Built, NoHashClash;
    if f.typ.Message? && sv.Hash? { OrderIrrelevant(p, s, f.typ.name, sv, a.m, b.m); }
  }

  // ---------------------------------------------------------------- conversion in a given order

  /** One step on the way to a nested value. */
  datatype Link = Key(k: string) | Index(i: nat)

  /** Perl's iteration order: for the hash at each place, its keys in a row. */
  type Iteration = (seq<Link>, set<string>) -> seq<string>

  /** Every key once. */
  ghost predicate Lists(order: seq<string>, keys: set<string>) {
    (forall k :: k in order <==> k in keys) && NoRepeats(order)
  }

  ghost predicate IsIteration(it: Iteration) {
    forall at, keys :: Lists(it(at, keys), keys)
  }

  /** `upb_Message_SetFieldByDef`: replaces the field, and whatever else its oneof holds. */
  function SetField(fields: seq<Field>, m: Msg, k: string, slot: Slot): (r: Msg) {
    var others := map l | l in m.slots && l != k && !Siblings(fields, k, l) :: m.slots[l];
    Msg(if Present(slot) then others[k := slot] else others)
  }

  lemma AbsentSlot(p: Perl, s: Schema, f: Field, sv: SV, slot: Slot)
    requires Converts(p, s, f, sv, slot) && !Present(slot)
    ensures f.repeated && sv == Array([])
  {
  }

  lemma SiblingsSingle(s: Schema, typ: string, k: string, l: string)
    requires ValidSchema(s) && Siblings(FieldsOf(s, typ), k, l)
    ensures !Find(FieldsOf(s, typ), k).value.repeated && Siblings(FieldsOf(s, typ), l, k)
  {
    FindIn(FieldsOf(s, typ), k);
  }

  lemma SetFieldSingle(fields: seq<Field>, m: Msg, k: string, slot: Slot)
    requires OneofsSingle(fields, m)
    ensures OneofsSingle(fields, SetField(fields, m, k, slot))
  {
    hide Find;
  }

  lemma SetFieldKeeps(p: Perl, s: Schema, typ: string, sv: SV, done: set<string>, m: Msg, k: string, slot: Slot)
    requires ValidSchema(s) && sv.Hash? && done <= sv.entries.Keys && k in sv.entries && k !in done
    requires Built(p, s, typ, sv, done, m)
    requires var f := FindByName(FieldsOf(s, typ), k); f.Some? && Converts(p, s, f.value, sv.entries[k], slot)
    ensures Built(p, s, typ, sv, done + {k}, SetField(FieldsOf(s, typ), m, CString(k), slot))
  {
    hide Converts, Find, OneofsSingle, Present, CString, Replaced, Siblings, ValidSchema;
    var fields, h, name := FieldsOf(s, typ), sv.entries, CString(k);
    var n := SetField(fields, m, name, slot);
    SetFieldSingle(fields, m, name, slot);
    forall q | q in n.slots
      ensures && Find(fields, q).Some? && Present(n.slots[q])
              && exists l :: l in done + {k} && CString(l) == q && Converts(p, s, Find(fields, q).value, h[l], n.slots[q])
    {
      if q == name {
        assert k in done + {k};
      } else {
        var l :| l in done && CString(l) == q && Converts(p, s, Find(fields, q).value, h[l], m.slots[q]);
        assert l in done + {k};
      }
    }
    forall l | l in done + {k} && CString(l) !in n.slots
      ensures Replaced(fields, h, done + {k}, CString(l), n)
    {
      SetFieldReplaces(p, s, typ, sv, done, m, k, slot, CString(l));
    }
  }

  lemma SetFieldReplaces(
    p: Perl, s: Schema, typ: string, sv: SV, done: set<string>, m: Msg, k: string, slot: Slot, q: string)
    requires ValidSchema(s) && sv.Hash? && done <= sv.entries.Keys && k in sv.entries
    requires q == CString(k) || q in m.slots || Replaced(FieldsOf(s, typ), sv.entries, done, q, m)
    requires var f := FindByName(FieldsOf(s, typ), k); f.Some? && Converts(p, s, f.value, sv.entries[k], slot)
    requires q !in SetField(FieldsOf(s, typ), m, CString(k), slot).slots
    ensures Replaced(FieldsOf(s, typ), sv.entries, done + {k}, q, SetField(FieldsOf(s, typ), m, CString(k), slot))
  {
    hide Converts, Find, CString, ValidSchema, Present;
    var fields, h, name := FieldsOf(s, typ), sv.entries, CString(k);
    var n := SetField(fields, m, name, slot);
    if !Present(slot) {
      AbsentSlot(p, s, Find(fields, name).value, h[k], slot);
      forall l ensures !Siblings(fields, name, l) {
        if Siblings(fields, name, l) { SiblingsSingle(s, typ, name, l); }
      }
    }
    if q == name {
      assert k in done + {k} && h[k] == Array([]);
    } else if q in m.slots {
      assert Siblings(fields, q, name) && Siblings(fields, name, q);
    } else if r :| r in m.slots && Siblings(fields, q, r) {
      if r !in n.slots { assert Siblings(fields, q, name) && Siblings(fields, name, q); }
    } else {
      var e :| e in done && CString(e) == q && h[e] == Array([]);
      assert e in done + {k};
    }
  }

  lemma BuiltNothing(p: Perl, s: Schema, typ: string, sv: SV)
    requires sv.Hash?
    ensures Built(p, s, typ, sv, {}, Msg(map[]))
  {
  }

  /** `PerlUpb_SvToUpb` on the value at a place. */
  function ToSlot(p: Perl, s: Schema, f: Field, sv: SV, it: Iteration, at: seq<Link>): (r: Result<Slot>)
    requires IsIteration(it)
    decreases sv, 4, 0
  {
    if sv == Undef then Croak
    else if !f.repeated then
      match ToValue(p, s, f, sv, it, at) case Ok(v) => Ok(One(v)) case Croak => Croak
    else if !sv.Array? then Croak
    else if Batched(f.typ) then
      Ok(Many(seq(|sv.items|, i requires 0 <= i < |sv.items| => Raw(p, f.typ, sv.items[i]))))
    else
      match ToValues(p, s, f, sv, |sv.items|, it, at) case Ok(vs) => Ok(Many(vs)) case Croak => Croak
  }

  /** The first `n` elements of an array, one by one. */
  function ToValues(p: Perl, s: Schema, f: Field, sv: SV, n: nat, it: Iteration, at: seq<Link>): (r: Result<seq<Value>>)
    requires IsIteration(it) && sv.Array? && n <= |sv.items|
    decreases sv, 3, n
  {
    if n == 0 then Ok([])
    else
      match ToValues(p, s, f, sv, n - 1, it, at)
      case Croak => Croak
      case Ok(vs) =>
        match ToValue(p, s, f, sv.items[n - 1], it, at + [Index(n - 1)])
        case Ok(v) => Ok(vs + [v])
        case Croak => Croak
  }

  /** `convert_singular_sv_to_upb`. */
  function ToValue(p: Perl, s: Schema, f: Field, sv: SV, it: Iteration, at: seq<Link>): (r: Result<Value>)
    requires IsIteration(it)
    decreases sv, 2, 0
  {
    if !f.typ.Message? then Scalar(p, f.typ, sv)
    else
      match sv
      case Hash(_) =>
        (match ToMessage(p, s, f.typ.name, sv, it, at) case Ok(m) => Ok(M(m)) case Croak => Croak)
      case Object(t, m) => if t == f.typ.name then Ok(M(m)) else Croak
      case _ => Croak
  }

  /** The population of a message from the hash at a place. */
  function ToMessage(p: Perl, s: Schema, typ: string, sv: SV, it: Iteration, at: seq<Link>): (r: Result<Msg>)
    requires IsIteration(it) && sv.Hash?
    decreases sv, 1, 0
  {
    Populate(p, s, typ, sv, it(at, sv.entries.Keys), it, at)
  }

  /** From its entries under the keys `order`, in that order, each set on its field. */
  function Populate(p: Perl, s: Schema, typ: string, sv: SV, order: seq<string>, it: Iteration, at: seq<Link>)
    : (r: Result<Msg>)
    requires IsIteration(it) && sv.Hash? && forall k :: k in order ==> k in sv.entries
    decreases sv, 0, |order|
  {
    if order == [] then Ok(Msg(map[]))
    else
      var k := order[|order| - 1];
      var f := FindByName(FieldsOf(s, typ), k);
      match Populate(p, s, typ, sv, order[..|order| - 1], it, at)
      case Croak => Croak
      case Ok(m) =>
        if f.None? then Croak
        else
          match ToSlot(p, s, f.value, sv.entries[k], it, at + [Key(k)])
          case Croak => Croak
          case Ok(slot) => Ok(SetField(FieldsOf(s, typ), m, CString(k), slot))
  }

  // ---- what every order gives

  lemma {:induction false} SlotResult(p: Perl, s: Schema, f: Field, sv: SV, it: Iteration, at: seq<Link>)
    requires ValidSchema(s) && IsIteration(it)
    ensures ToSlot(p, s, f, sv, it, at).Ok? <==> Accepts(p, s, f, sv)
    ensures ToSlot(p, s, f, sv, it, at).Ok? ==> Converts(p, s, f, sv, ToSlot(p, s, f, sv, it, at).value)
    decreases sv, 4, 0
  {
    hide AcceptsOne, ConvertsOne, ToValue, ToValues, IsIteration, ValidSchema, Raw;
    if !f.repeated {
      ValueResult(p, s, f, sv, it, at);
    } else if sv.Array? && !Batched(f.typ) {
      ValuesResult(p, s, f, sv, |sv.items|, it, at);
    }
  }

  lemma {:induction false} ValuesResult(p: Perl, s: Schema, f: Field, sv: SV, n: nat, it: Iteration, at: seq<Link>)
    requires ValidSchema(s) && IsIteration(it) && sv.Array? && n <= |sv.items|
    ensures var r := ToValues(p, s, f, sv, n, it, at);
            && (r.Ok? <==> forall i :: 0 <= i < n ==> AcceptsOne(p, s, f, sv.items[i]))
            && (r.Ok? ==> |r.value| == n && forall i :: 0 <= i < n ==>
                  ConvertsOne(p, s, f, sv.items[i], r.value[i]) &&
                  ToValue(p, s, f, sv.items[i], it, at + [Index(i)]) == Ok(r.value[i]))
    decreases sv, 3, n
  {
    hide AcceptsOne, ConvertsOne, ToValue, IsIteration, ValidSchema;
    if n == 0 {
    } else {
      ValuesResult(p, s, f, sv, n - 1, it, at);
      ValueResult(p, s, f, sv.items[n - 1], it, at + [Index(n - 1)]);
    }
  }

  lemma {:induction false} ValueResult(p: Perl, s: Schema, f: Field, sv: SV, it: Iteration, at: seq<Link>)
    requires ValidSchema(s) && IsIteration(it)
    ensures ToValue(p, s, f, sv, it, at).Ok? <==> AcceptsOne(p, s, f, sv)
    ensures ToValue(p, s, f, sv, it, at).Ok? ==> ConvertsOne(p, s, f, sv, ToValue(p, s, f, sv, it, at).value)
    decreases sv, 2, 0
  {
    hide Scalar, Built, HashAccepted, ToMessage, IsIteration, ValidSchema;
    if f.typ.Message? && sv.Hash? { MessageResult(p, s, f.typ.name, sv, it, at); }
  }

  /** In whatever order, the population succeeds exactly on an accepted hash, and gives a
      message the entries can be turned into. */
  lemma {:induction false} MessageResult(p: Perl, s: Schema, typ: string, sv: SV, it: Iteration, at: seq<Link>)
    requires ValidSchema(s) && IsIteration(it) && sv.Hash?
    ensures ToMessage(p, s, typ, sv, it, at).Ok? <==> HashAccepted(p, s, typ, sv)
    ensures ToMessage(p, s, typ, sv, it, at).Ok? ==>
              Built(p, s, typ, sv, sv.entries.Keys, ToMessage(p, s, typ, sv, it, at).value)
    decreases sv, 1, 0
  {
    hide Populate, Accepts, Built, ValidSchema;
    var order := it(at, sv.entries.Keys);
    PopulateResult(p, s, typ, sv, order, it, at);
    assert Elements(order) == sv.entries.Keys;
  }

  /** Every key names a field that accepts its value. */
  ghost predicate KeyAccepted(p: Perl, s: Schema, typ: string, sv: SV, k: string)
    requires sv.Hash? && k in sv.entries
  {
    FindByName(FieldsOf(s, typ), k).Some? && Accepts(p, s, FindByName(FieldsOf(s, typ), k).value, sv.entries[k])
  }

  lemma {:induction false} PopulateResult(
    p: Perl, s: Schema, typ: string, sv: SV, order: seq<string>, it: Iteration, at: seq<Link>)
    requires ValidSchema(s) && IsIteration(it) && sv.Hash? && NoRepeats(order) && forall k :: k in order ==> k in sv.entries
    ensures var r := Populate(p, s, typ, sv, order, it, at);
            && (r.Ok? <==> forall k :: k in order ==> KeyAccepted(p, s, typ, sv, k))
            && (r.Ok? ==> Built(p, s, typ, sv, Elements(order), r.value))
    decreases sv, 0, |order|
  {
    hide Accepts, Converts, Built, ToSlot, IsIteration, ValidSchema, SetField, CString;
    var done := Elements(order);
    if order == [] {
      BuiltNothing(p, s, typ, sv);
      assert done == {};
    } else {
      var k, init := order[|order| - 1], order[..|order| - 1];
      PopulateResult(p, s, typ, sv, init, it, at);
      assert order == init + [k];
      var f := FindByName(FieldsOf(s, typ), k);
      var before := Elements(init);
      assert k !in init && done == before + {k};
      if f.Some? {
        SlotResult(p, s, f.value, sv.entries[k], it, at + [Key(k)]);
        var m, slot := Populate(p, s, typ, sv, init, it, at), ToSlot(p, s, f.value, sv.entries[k], it, at + [Key(k)]);
        if m.Ok? && slot.Ok? { SetFieldKeeps(p, s, typ, sv, before, m.value, k, slot.value); }
      }
    }
  }

  /** Whatever order the hashes of a projected message are iterated in, the way back gives the
      message itself, or croaks exactly when some single float is beyond the limit. */
  lemma RoundTripInOrder(p: Perl, s: Schema, typ: string, m: Msg, it: Iteration, at: seq<Link>)
    requires ExactIntegers(p) && ValidSchema(s) && WellTyped(p, s, typ, m) && IsIteration(it)
    ensures ToMessage(p, s, typ, MessageToSv(s, typ, m), it, at) == if FloatsAccepted(m) then Ok(m) else Croak
  {
    hide *;
    MessageRoundTrip(p, s, typ, m);
    MessageResult(p, s, typ, MessageToSv(s, typ, m), it, at);
  }

  // ---- when the order matters

  /** An order for every set of keys. */
  ghost function Listing(keys: set<string>): (order: seq<string>)
    ensures Lists(order, keys)
  {
    if keys == {} then []
    else
      var k :| k in keys;
      ListsAppend(Listing(keys - {k}), k);
      assert keys - {k} + {k} == keys;
      Listing(keys - {k}) + [k]
  }

  lemma ListsAppend(order: seq<string>, k: string)
    requires k !in order && NoRepeats(order)
    ensures Lists(order + [k], Elements(order) + {k})
  {
  }

  ghost function SomeIteration(): (it: Iteration)
    ensures IsIteration(it)
  {
    (at: seq<Link>, keys: set<string>) => Listing(keys)
  }

  /** The same but for the order of one hash. */
  ghost function Override(it: Iteration, at: seq<Link>, order: seq<string>): (n: Iteration)
    requires IsIteration(it) && NoRepeats(order)
    ensures IsIteration(n) && n(at, Elements(order)) == order && AlikeBelow(n, it, |at| + 1)
  {
    var keys := Elements(order);
    (a: seq<Link>, ks: set<string>) => if a == at && ks == keys then order else it(a, ks)
  }

  /** The same at all places at least `depth` deep. */
  ghost predicate AlikeBelow(a: Iteration, b: Iteration, depth: nat) {
    forall at, keys :: |at| >= depth ==> a(at, keys) == b(at, keys)
  }

  /** What happens at a place depends only on the orders there and below. */
  lemma {:induction false} SlotAlike(p: Perl, s: Schema, f: Field, sv: SV, a: Iteration, b: Iteration, at: seq<Link>)
    requires IsIteration(a) && IsIteration(b) && AlikeBelow(a, b, |at|)
    ensures ToSlot(p, s, f, sv, a, at) == ToSlot(p, s, f, sv, b, at)
    decreases sv, 4, 0
  {
    hide IsIteration, AlikeBelow, Raw;
    if !f.repeated {
      ValueAlike(p, s, f, sv, a, b, at);
    } else if sv.Array? {
      ValuesAlike(p, s, f, sv, |sv.items|, a, b, at);
    }
  }

  lemma {:induction false} ValuesAlike(p: Perl, s: Schema, f: Field, sv: SV, n: nat, a: Iteration, b: Iteration, at: seq<Link>)
    requires IsIteration(a) && IsIteration(b) && AlikeBelow(a, b, |at|) && sv.Array? && n <= |sv.items|
    ensures ToValues(p, s, f, sv, n, a, at) == ToValues(p, s, f, sv, n, b, at)
    decreases sv, 3, n
  {
    if n == 0 {
    } else {
      ValuesAlike(p, s, f, sv, n - 1, a, b, at);
      AlikeDeeper(a, b, |at|);
      ValueAlike(p, s, f, sv.items[n - 1], a, b, at + [Index(n - 1)]);
    }
  }

  lemma AlikeDeeper(a: Iteration, b: Iteration, depth: nat)
    requires AlikeBelow(a, b, depth)
    ensures AlikeBelow(a, b, depth + 1)
  {
  }

  lemma {:induction false} ValueAlike(p: Perl, s: Schema, f: Field, sv: SV, a: Iteration, b: Iteration, at: seq<Link>)
    requires IsIteration(a) && IsIteration(b) && AlikeBelow(a, b, |at|)
    ensures ToValue(p, s, f, sv, a, at) == ToValue(p, s, f, sv, b, at)
    decreases sv, 2, 0
  {
    if f.typ.Message? && sv.Hash? {
      AlikeDeeper(a, b, |at|);
      PopulateAlike(p, s, f.typ.name, sv, a(at, sv.entries.Keys), a, b, at);
    }
  }

  lemma {:induction false} PopulateAlike(
    p: Perl, s: Schema, typ: string, sv: SV, order: seq<string>, a: Iteration, b: Iteration, at: seq<Link>)
    requires IsIteration(a) && IsIteration(b) && AlikeBelow(a, b, |at| + 1)
    requires sv.Hash? && forall k :: k in order ==> k in sv.entries
    ensures Populate(p, s, typ, sv, order, a, at) == Populate(p, s, typ, sv, order, b, at)
    decreases sv, 0, |order|
  {
    hide IsIteration, AlikeBelow, ToSlot;
    if order == [] {
    } else {
      var k := order[|order| - 1];
      PopulateAlike(p, s, typ, sv, order[..|order| - 1], a, b, at);
      if FindByName(FieldsOf(s, typ), k).Some? {
        SlotAlike(p, s, FindByName(FieldsOf(s, typ), k).value, sv.entries[k], a, b, at + [Key(k)]);
      }
    }
  }

  /** The entry set last decides about its field, and nothing else of its oneof stays. */
  lemma LastStays(p: Perl, s: Schema, typ: string, sv: SV, init: seq<string>, k: string, it: Iteration, at: seq<Link>)
    requires ValidSchema(s) && IsIteration(it) && sv.Hash? && HashAccepted(p, s, typ, sv)
    requires k in sv.entries && k !in init && NoRepeats(init) && forall q :: q in init ==> q in sv.entries
    ensures var r, f, name := Populate(p, s, typ, sv, init + [k], it, at), FindByName(FieldsOf(s, typ), k), CString(k);
            && r.Ok? && f.Some?
            && var slot := ToSlot(p, s, f.value, sv.entries[k], it, at + [Key(k)]);
               && slot.Ok? && Converts(p, s, f.value, sv.entries[k], slot.value)
               && (name in r.value.slots <==> Present(slot.value))
               && (Present(slot.value) ==> r.value.slots[name] == slot.value)
               && forall l :: Siblings(FieldsOf(s, typ), name, l) && l != name ==> l !in r.value.slots
  {
    hide IsIteration, ValidSchema, Accepts, Converts, ToSlot, Built, Siblings, CString;
    var order, f := init + [k], FindByName(FieldsOf(s, typ), k);
    assert order[..|order| - 1] == init;
    forall q | q in init ensures KeyAccepted(p, s, typ, sv, q) {}
    PopulateResult(p, s, typ, sv, init, it, at);
    SlotResult(p, s, f.value, sv.entries[k], it, at + [Key(k)]);
  }

  /** An iteration in which `k` is the last key of the hash at `at`, after `l` among others. */
  lemma LastKeys(keys: set<string>, l: string, k: string, at: seq<Link>) returns (it: Iteration, init: seq<string>)
    requires k in keys && l in keys && k != l
    ensures IsIteration(it) && it(at, keys) == init + [k]
    ensures k !in init && l in init && NoRepeats(init) && forall q :: q in init ==> q in keys
  {
    init := Listing(keys - {k});
    it := Override(SomeIteration(), at, init + [k]);
    assert Elements(init + [k]) == keys;
  }

  /** Two entries in each other's way: each can be the one that decides. */
  lemma PairClash(p: Perl, s: Schema, typ: string, sv: SV, k: string, l: string, at: seq<Link>)
    returns (a: Iteration, b: Iteration)
    requires ValidSchema(s) && sv.Hash? && HashAccepted(p, s, typ, sv)
    requires k in sv.entries && l in sv.entries && k != l && !Compatible(p, s, typ, sv, k, l)
    ensures IsIteration(a) && IsIteration(b) && ToMessage(p, s, typ, sv, a, at) != ToMessage(p, s, typ, sv, b, at)
  {
    hide ValidSchema, HashAccepted, Accepts, Populate, Find, IsIteration, ToSlot, Siblings, Converts, CString, Present;
    var fields, x, y := FieldsOf(s, typ), [], [];
    a, x := LastKeys(sv.entries.Keys, l, k, at);
    b, y := LastKeys(sv.entries.Keys, k, l, at);
    LastStays(p, s, typ, sv, x, k, a, at);
    LastStays(p, s, typ, sv, y, l, b, at);
    var f := FindByName(fields, k).value;
    if CString(k) == CString(l) {
      var v, w := ToSlot(p, s, f, sv.entries[k], a, at + [Key(k)]).value, ToSlot(p, s, f, sv.entries[l], b, at + [Key(l)]).value;
      assert v != w;
      AbsentSame(v, w);
    } else {
      SiblingsPresent(p, s, typ, CString(k), CString(l), sv.entries[k], ToSlot(p, s, f, sv.entries[k], a, at + [Key(k)]).value);
    }
  }

  /** There is only one way for a slot to be absent. */
  lemma AbsentSame(v: Slot, w: Slot)
    ensures !Present(v) && !Present(w) ==> v == w
  {
  }

  /** A member of a oneof is never absent once set. */
  lemma SiblingsPresent(p: Perl, s: Schema, typ: string, k: string, l: string, sv: SV, slot: Slot)
    requires ValidSchema(s) && Siblings(FieldsOf(s, typ), k, l)
    requires Converts(p, s, Find(FieldsOf(s, typ), k).value, sv, slot)
    ensures Present(slot) && Siblings(FieldsOf(s, typ), l, k)
  {
    SiblingsSingle(s, typ, k, l);
  }

  /** An order that decides what an entry gives decides about the message, when the entry comes
      last. */
  lemma DeeperClash(p: Perl, s: Schema, typ: string, sv: SV, k: string, it: Iteration, at: seq<Link>)
    returns (n: Iteration)
    requires ValidSchema(s) && IsIteration(it) && sv.Hash? && HashAccepted(p, s, typ, sv) && k in sv.entries
    ensures IsIteration(n)
    ensures var r, f := ToMessage(p, s, typ, sv, n, at), FindByName(FieldsOf(s, typ), k);
            && r.Ok? && f.Some?
            && var slot := ToSlot(p, s, f.value, sv.entries[k], it, at + [Key(k)]);
               slot.Ok? && Present(slot.value) ==> CString(k) in r.value.slots && r.value.slots[CString(k)] == slot.value
  {
    hide ValidSchema, HashAccepted, Accepts, Populate, Find, IsIteration, ToSlot, AlikeBelow, CString;
    var keys := sv.entries.Keys;
    var init := Listing(keys - {k});
    n := Override(it, at, init + [k]);
    assert Elements(init + [k]) == keys;
    LastStays(p, s, typ, sv, init, k, n, at);
    SlotAlike(p, s, FindByName(FieldsOf(s, typ), k).value, sv.entries[k], n, it, at + [Key(k)]);
  }

  /** An accepted hash with a clash, there or deeper: two orders that give two messages. */
  lemma {:induction false} MessageClash(p: Perl, s: Schema, typ: string, sv: SV, at: seq<Link>)
    returns (a: Iteration, b: Iteration)
    requires ValidSchema(s) && sv.Hash? && HashAccepted(p, s, typ, sv) && !NoHashClash(p, s, typ, sv)
    ensures IsIteration(a) && IsIteration(b) && ToMessage(p, s, typ, sv, a, at) != ToMessage(p, s, typ, sv, b, at)
    decreases sv, 1
  {
    hide ValidSchema, Accepts, NoClash, ToMessage, Find, Compatible, IsIteration, ToSlot, CString;
    var fields, keys := FieldsOf(s, typ), sv.entries.Keys;
    if k, l :| k in keys && l in keys && k != l && !Compatible(p, s, typ, sv, k, l) {
      a, b := PairClash(p, s, typ, sv, k, l, at);
    } else {
      var k :| k in keys && FindByName(fields, k).Some? && !NoClash(p, s, FindByName(fields, k).value, sv.entries[k]);
      var a0, b0 := SlotClash(p, s, FindByName(fields, k).value, sv.entries[k], at + [Key(k)]);
      a := DeeperClash(p, s, typ, sv, k, a0, at);
      b := DeeperClash(p, s, typ, sv, k, b0, at);
    }
  }

  lemma {:induction false} SlotClash(p: Perl, s: Schema, f: Field, sv: SV, at: seq<Link>)
    returns (a: Iteration, b: Iteration)
    requires ValidSchema(s) && Accepts(p, s, f, sv) && !NoClash(p, s, f, sv)
    ensures IsIteration(a) && IsIteration(b)
    ensures var x, y := ToSlot(p, s, f, sv, a, at), ToSlot(p, s, f, sv, b, at);
            x.Ok? && y.Ok? && x != y && Present(x.value) && Present(y.value)
    decreases sv, 3
  {
    hide ValidSchema, IsIteration, AcceptsOne, ConvertsOne;
    NoClashScalar(p, s, f, sv);
    if f.repeated {
      var i :| 0 <= i < |sv.items| && !NoClash(p, s, f, sv.items[i]);
      a, b := ValueClash(p, s, f, sv.items[i], at + [Index(i)]);
      ValuesResult(p, s, f, sv, |sv.items|, a, at);
      ValuesResult(p, s, f, sv, |sv.items|, b, at);
      SlotResult(p, s, f, sv, a, at);
      SlotResult(p, s, f, sv, b, at);
    } else {
      a, b := ValueClash(p, s, f, sv, at);
      SlotResult(p, s, f, sv, a, at);
      SlotResult(p, s, f, sv, b, at);
    }
  }

  lemma {:induction false} ValueClash(p: Perl, s: Schema, f: Field, sv: SV, at: seq<Link>)
    returns (a: Iteration, b: Iteration)
    requires ValidSchema(s) && AcceptsOne(p, s, f, sv) && !NoClash(p, s, f, sv)
    ensures IsIteration(a) && IsIteration(b) && ToValue(p, s, f, sv, a, at) != ToValue(p, s, f, sv, b, at)
    decreases sv, 2
  {
    hide ValidSchema, IsIteration, HashAccepted, NoHashClash;
    NoClashScalar(p, s, f, sv);
    a, b := MessageClash(p, s, f.typ.name, sv, at);
  }

  /** Only message fields clash. */
  lemma {:induction false} NoClashScalar(p: Perl, s: Schema, f: Field, sv: SV)
    ensures !f.typ.Message? ==> NoClash(p, s, f, sv)
    decreases sv
  {
    if !f.typ.Message? && sv.Array? {
      forall i | 0 <= i < |sv.items| ensures NoClash(p, s, f, sv.items[i]) { NoClashScalar(p, s, f, sv.items[i]); }
    }
  }

  ghost predicate OrdersAgree(p: Perl, s: Schema, typ: string, sv: SV, at: seq<Link>)
    requires sv.Hash?
  {
    forall a, b | IsIteration(a) && IsIteration(b) :: ToMessage(p, s, typ, sv, a, at) == ToMessage(p, s, typ, sv, b, at)
  }

  /** Whether two values convert to the same can be told by converting them, in any order. */
  lemma AlikeExactly(p: Perl, s: Schema, f: Field, x: SV, y: SV, it: Iteration, at: seq<Link>)
    requires ValidSchema(s) && IsIteration(it) && Accepts(p, s, f, x) && Accepts(p, s, f, y)
    requires NoClash(p, s, f, x) && NoClash(p, s, f, y)
    ensures Alike(p, s, f, x, y) <==> ToSlot(p, s, f, x, it, at) == ToSlot(p, s, f, y, it, at)
  {
    hide ValidSchema, IsIteration, Accepts, NoClash, Converts, ToSlot;
    SlotResult(p, s, f, x, it, at);
    SlotResult(p, s, f, y, it, at);
    var a, b := ToSlot(p, s, f, x, it, at).value, ToSlot(p, s, f, y, it, at).value;
    if Alike(p, s, f, x, y) {
      var slot :| Converts(p, s, f, x, slot) && Converts(p, s, f, y, slot);
      SlotOrderIrrelevant(p, s, f, x, a, slot);
      SlotOrderIrrelevant(p, s, f, y, b, slot);
    }
  }

  /** The exact condition: an accepted hash gives one message in all iteration orders, its own
      and those of the hashes in it, if and only if none of them has two entries that name two
      members of one oneof, or name one field and convert to different values. A hash that is
      not accepted croaks in every order. */
  lemma OrdersAgreeExactly(p: Perl, s: Schema, typ: string, sv: SV, at: seq<Link>)
    requires ValidSchema(s) && sv.Hash?
    ensures OrdersAgree(p, s, typ, sv, at) <==> (HashAccepted(p, s, typ, sv) ==> NoHashClash(p, s, typ, sv))
  {
    hide ValidSchema, IsIteration, HashAccepted, NoHashClash, ToMessage, Built;
    if HashAccepted(p, s, typ, sv) && !NoHashClash(p, s, typ, sv) {
      var a, b := MessageClash(p, s, typ, sv, at);
    } else {
      forall a, b | IsIteration(a) && IsIteration(b)
        ensures ToMessage(p, s, typ, sv, a, at) == ToMessage(p, s, typ, sv, b, at)
      {
        MessageResult(p, s, typ, sv, a, at);
        MessageResult(p, s, typ, sv, b, at);
        if HashAccepted(p, s, typ, sv) {
          OrderIrrelevant(p, s, typ, sv, ToMessage(p, s, typ, sv, a, at).value, ToMessage(p, s, typ, sv, b, at).value);
        }
      }
    }
  }

  /** The smallest clash: whichever of two members of a oneof comes last is the one left. */
  lemma ClashExample(p: Perl, it: Iteration)
    requires IsIteration(it)
    ensures var f, g := Field("f", Bool, false, Some(0)), Field("g", Bool, false, Some(0));
            var s: Schema := map["T" := [f, g]];
            var sv := Hash(map["f" := YesNo(true), "g" := YesNo(true)]);
            && Populate(p, s, "T", sv, ["g", "f"], it, []) == Ok(Msg(map["f" := One(B(true))]))
            && Populate(p, s, "T", sv, ["f", "g"], it, []) == Ok(Msg(map["g" := One(B(true))]))
  {
    var f, g := Field("f", Bool, false, Some(0)), Field("g", Bool, false, Some(0));
    var s: Schema := map["T" := [f, g]];
    var sv := Hash(map["f" := YesNo(true), "g" := YesNo(true)]);
    assert Find([f, g], "f") == Some(f);
    assert Find([f, g], "g") == Some(g) by { assert [f, g][1..] == [g]; }
    assert Siblings(FieldsOf(s, "T"), "f", "g") && Siblings(FieldsOf(s, "T"), "g", "f");
    assert CString("f") == "f" && CString("g") == "g";
    assert ["g", "f"][..1] == ["g"] && ["f", "g"][..1] == ["f"] && ["g"][..0] == [] && ["f"][..0] == [];
    assert Populate(p, s, "T", sv, [], it, []) == Ok(Msg(map[]));
    assert Populate(p, s, "T", sv, ["g"], it, []) == Ok(Msg(map["g" := One(B(true))]));
    assert Populate(p, s, "T", sv, ["f"], it, []) == Ok(Msg(map["f" := One(B(true))]));
  }

  /** Two keys that differ after a NUL only: both name the field, and the one iterated last
      decides. */
  lemma NulExample(p: Perl, it: Iteration)
    requires IsIteration(it)
    ensures var s: Schema := map["T" := [Field("f", Bool, false, None)]];
            var sv := Hash(map["f" := YesNo(true), "f\0" := YesNo(false)]);
            && Populate(p, s, "T", sv, ["f\0", "f"], it, []) == Ok(Msg(map["f" := One(B(true))]))
            && Populate(p, s, "T", sv, ["f", "f\0"], it, []) == Ok(Msg(map["f" := One(B(false))]))
  {
    var f := Field("f", Bool, false, None);
    var s: Schema := map["T" := [f]];
    var sv := Hash(map["f" := YesNo(true), "f\0" := YesNo(false)]);
    assert Find([f], "f") == Some(f);
    assert CString("f") == "f";
    assert CString("f\0") == "f" by { assert "f\0"[1..] == "\0"; }
    assert ["f\0", "f"][..1] == ["f\0"] && ["f", "f\0"][..1] == ["f"] && ["f"][..0] == [] && ["f\0"][..0] == [];
    assert Populate(p, s, "T", sv, [], it, []) == Ok(Msg(map[]));
    assert Populate(p, s, "T", sv, ["f"], it, []) == Ok(Msg(map["f" := One(B(true))]));
    assert Populate(p, s, "T", sv, ["f\0"], it, []) == Ok(Msg(map["f" := One(B(false))]));
  }

  // ---------------------------------------------------------------- the loops to Perl

  /** A message-typed value becomes a wrapper when converted by itself. */
  function SingularToSv(f: Field, v: Value): (r: SV) {
    if v.M? then Object(if f.typ.Message? then f.typ.name else "", v.m) else ScalarToSv(v)
  }

  /** `PerlUpb_UpbToSv_Batch`: four values a round, then the rest one by one. */
  method UpbToSvBatch(vals: seq<Value>, f: Field, out: array<SV>)
    requires out.Length == |vals|
    modifies out
    ensures out[..] == seq(|vals|, i requires 0 <= i < |vals| => SingularToSv(f, vals[i]))
  {
    var i, count := 0, |vals|;
    while i + 3 < count
      invariant 0 <= i <= count
      invariant forall j :: 0 <= j < i ==> out[j] == SingularToSv(f, vals[j])
    {
      out[i] := SingularToSv(f, vals[i]);
      out[i + 1] := SingularToSv(f, vals[i + 1]);
      out[i + 2] := SingularToSv(f, vals[i + 2]);
      out[i + 3] := SingularToSv(f, vals[i + 3]);
      i := i + 4;
    }
    while i < count
      invariant 0 <= i <= count
      invariant forall j :: 0 <= j < i ==> out[j] == SingularToSv(f, vals[j])
    {
      out[i] := SingularToSv(f, vals[i]);
      i := i + 1;
    }
  }

  /** `PerlUpb_UpbToSv_BatchRaw` on the values of an array of type `t`: the case chosen by
      the type converts as the element-wise path does. */
  method UpbToSvBatchRaw(p: Perl, data: seq<Value>, t: FieldType, out: array<SV>)
    requires Batched(t) && out.Length == |data|
    requires forall i :: 0 <= i < |data| ==> !data[i].M? && Holds(p, t, data[i])
    modifies out
    ensures forall i :: 0 <= i < |data| ==> out[i] == ScalarToSv(data[i])
  {
    var i := 0;
    while i < |data|
      invariant 0 <= i <= |data|
      invariant forall j :: 0 <= j < i ==> out[j] == ScalarToSv(data[j])
    {
      match t {
      case Bool => out[i] := YesNo(data[i].b);
      case Int32 => out[i] := IV(data[i].i32);
      case Enum(_) => out[i] := IV(data[i].e);
      case UInt32 => out[i] := NewUV(data[i].u32);
      case Float => out[i] := NV(data[i].f);
      case Double => out[i] := NV(data[i].d);
      case Int64 => out[i] := IV(data[i].i64);
      case UInt64 => out[i] := NewUV(data[i].u64);
      }
      i := i + 1;
    }
  }

  /** `PerlUpb_Message_ToSv`: visits the fields in declaration order. */
  method MessageToPerl(p: Perl, s: Schema, typ: string, m: Msg) returns (sv: SV)
    requires ValidSchema(s) && WellTyped(p, s, typ, m)
    ensures sv == MessageToSv(s, typ, m)
    decreases m
  {
    var hv: map<string, SV> := map[];
    var fields, i := FieldsOf(s, typ), 0;
    while i < |fields|
      invariant 0 <= i <= |fields|
      invariant forall k :: k in hv <==> k in m.slots && exists j :: 0 <= j < i && fields[j].name == k
      invariant forall k :: k in hv ==> Find(fields, k).Some? && Present(m.slots[k]) &&
                                        hv[k] == SlotToSv(s, Find(fields, k).value, m.slots[k])
    {
      var f := fields[i];
      FindAt(fields, i);
      if f.name in m.slots {
        assert SlotTyped(p, s, f, m.slots[f.name]);
        var val := SlotToPerl(p, s, f, m.slots[f.name]);
        hv := hv[f.name := val];
      }
      i := i + 1;
    }
    forall k | k in m.slots ensures k in hv { FindIn(fields, k); }
    sv := Hash(hv);
    assert hv == MessageToSv(s, typ, m).entries;
  }

  method SlotToPerl(p: Perl, s: Schema, f: Field, slot: Slot) returns (sv: SV)
    requires ValidSchema(s) && SlotTyped(p, s, f, slot)
    ensures sv == SlotToSv(s, f, slot)
    decreases slot
  {
    match slot
    case One(v) => sv := ValueToPerl(p, s, f, v);
    case Many(vs) =>
      var av: seq<SV> := [];
      var j := 0;
      if Batched(f.typ) {
        var entries := new SV[|vs|](_ => Undef);
        UpbToSvBatchRaw(p, vs, f.typ, entries);
        while j < |vs|
          invariant 0 <= j <= |vs| == entries.Length && av == entries[..j]
        {
          av, j := av + [entries[j]], j + 1;
        }
        assert forall i :: 0 <= i < |vs| ==> av[i] == ValueToSv(s, f, vs[i]);
      } else {
        while j < |vs|
          invariant 0 <= j <= |vs| && |av| == j
          invariant forall i :: 0 <= i < j ==> av[i] == ValueToSv(s, f, vs[i])
        {
          var item := ValueToPerl(p, s, f, vs[j]);
          av, j := av + [item], j + 1;
        }
      }
      sv := Array(av);
      assert av == SlotToSv(s, f, slot).items;
  }

  method ValueToPerl(p: Perl, s: Schema, f: Field, v: Value) returns (sv: SV)
    requires ValidSchema(s) && ValueTyped(p, s, f, v)
    ensures sv == ValueToSv(s, f, v)
    decreases v
  {
    if f.typ.Message? {
      sv := MessageToPerl(p, s, f.typ.name, v.m);
    } else {
      sv := ScalarToSv(v);
    }
  }

  // ---------------------------------------------------------------- the loops back

  /** `PerlUpb_SvToUpb_BatchRaw`: the case chosen by the type; where the checked conversion
      succeeds the element is the same, enum names excepted. */
  method SvToUpbBatchRaw(p: Perl, src: seq<SV>, t: FieldType, dst: array<Value>)
    requires Batched(t) && dst.Length == |src|
    modifies dst
    ensures forall i :: 0 <= i < |src| ==> dst[i] == Raw(p, t, src[i])
    ensures forall i :: 0 <= i < |src| && Scalar(p, t, src[i]).Ok? && (t.Enum? ==> IOK(src[i])) ==>
              dst[i] == Scalar(p, t, src[i]).value
  {
    var i := 0;
    while i < |src|
      invariant 0 <= i <= |src|
      invariant forall j :: 0 <= j < i ==> dst[j] == Raw(p, t, src[j])
    {
      match t {
      case Bool => dst[i] := B(Truth(src[i]));
      case Int32 => dst[i] := I32(ToInt32(IntOf(p, src[i])));
      case Enum(_) => dst[i] := E(ToInt32(IntOf(p, src[i])));
      case UInt32 => dst[i] := U32(ToUInt32(UIntOf(p, src[i])));
      case Float => dst[i] := F(p.narrow(NumberOf(p, src[i])));
      case Double => dst[i] := D(NumberOf(p, src[i]));
      case Int64 => dst[i] := I64(Int64Of(p, src[i]));
      case UInt64 => dst[i] := U64(UInt64Of(p, src[i]));
      }
      i := i + 1;
    }
    forall i | 0 <= i < |src| && Scalar(p, t, src[i]).Ok? { BatchAgrees(p, t, src[i]); }
  }

  /** An array that croaks in its first elements croaks. */
  lemma {:induction false} ValuesCroak(p: Perl, s: Schema, f: Field, sv: SV, k: nat, n: nat, it: Iteration, at: seq<Link>)
    requires IsIteration(it) && sv.Array? && k <= n <= |sv.items| && ToValues(p, s, f, sv, k, it, at).Croak?
    ensures ToValues(p, s, f, sv, n, it, at).Croak?
  {
    if k >= n {
    } else {
      ValuesCroak(p, s, f, sv, k, n - 1, it, at);
    }
  }

  lemma {:induction false} PopulateCroak(
    p: Perl, s: Schema, typ: string, sv: SV, order: seq<string>, k: nat, it: Iteration, at: seq<Link>)
    requires IsIteration(it) && sv.Hash? && (forall q :: q in order ==> q in sv.entries)
    requires k <= |order| && Populate(p, s, typ, sv, order[..k], it, at).Croak?
    ensures Populate(p, s, typ, sv, order, it, at).Croak?
    decreases |order|
  {
    if k < |order| {
      var init := order[..|order| - 1];
      assert init[..k] == order[..k];
      PopulateCroak(p, s, typ, sv, init, k, it, at);
    } else {
      assert order[..k] == order;
    }
  }

  /** `PerlUpb_SvToUpb`. */
  method SvToUpb(p: Perl, s: Schema, f: Field, sv: SV, it: Iteration, at: seq<Link>) returns (r: Result<Slot>)
    requires ValidSchema(s) && IsIteration(it)
    ensures r == ToSlot(p, s, f, sv, it, at)
    ensures r.Ok? <==> Accepts(p, s, f, sv)
    ensures r.Ok? ==> Converts(p, s, f, sv, r.value)
    decreases sv, 2
  {
    hide AcceptsOne, ConvertsOne, Raw, Accepts, Converts, IsIteration, ValidSchema, ToValue, ToValues;
    SlotResult(p, s, f, sv, it, at);
    if sv == Undef { return Croak; }
    if !f.repeated {
      var one := ConvertSingular(p, s, f, sv, it, at);
      return if one.Ok? then Ok(One(one.value)) else Croak;
    }
    if !sv.Array? { return Croak; }
    var n := |sv.items|;
    var arr := new Value[n](_ => B(false));
    if Batched(f.typ) {
      SvToUpbBatchRaw(p, sv.items, f.typ, arr);
      assert arr[..] == seq(n, i requires 0 <= i < n => Raw(p, f.typ, sv.items[i]));
    } else {
      var i := 0;
      ValuesStep(p, s, f, sv, 0, it, at);
      while i < n
        invariant 0 <= i <= n
        invariant ToValues(p, s, f, sv, i, it, at) == Ok(arr[..i])
      {
        ValuesStep(p, s, f, sv, i + 1, it, at);
        var item := ConvertSingular(p, s, f, sv.items[i], it, at + [Index(i)]);
        if item.Croak? {
          ValuesCroak(p, s, f, sv, i + 1, n, it, at);
          return Croak;
        }
        arr[i] := item.value;
        i := i + 1;
        assert arr[..i] == arr[..i - 1] + [item.value];
      }
      assert arr[..] == arr[..n];
    }
    r := Ok(Many(arr[..]));
  }

  lemma ValuesStep(p: Perl, s: Schema, f: Field, sv: SV, n: nat, it: Iteration, at: seq<Link>)
    requires IsIteration(it) && sv.Array? && n <= |sv.items|
    ensures ToValues(p, s, f, sv, n, it, at) ==
            if n == 0 then Ok([])
            else
              match (ToValues(p, s, f, sv, n - 1, it, at), ToValue(p, s, f, sv.items[n - 1], it, at + [Index(n - 1)]))
              case (Ok(vs), Ok(v)) => Ok(vs + [v])
              case _ => Croak
  {
  }

  /** `convert_singular_sv_to_upb`. */
  method ConvertSingular(p: Perl, s: Schema, f: Field, sv: SV, it: Iteration, at: seq<Link>) returns (r: Result<Value>)
    requires ValidSchema(s) && IsIteration(it)
    ensures r == ToValue(p, s, f, sv, it, at)
    ensures r.Ok? <==> AcceptsOne(p, s, f, sv)
    ensures r.Ok? ==> ConvertsOne(p, s, f, sv, r.value)
    decreases sv, 1
  {
    hide Scalar, Built, HashAccepted, ToMessage, AcceptsOne, ConvertsOne, IsIteration, ValidSchema;
    ValueResult(p, s, f, sv, it, at);
    if !f.typ.Message? { return Scalar(p, f.typ, sv); }
    match sv
    case Hash(_) =>
      var m := BuildMessage(p, s, f.typ.name, sv, it, at);
      return if m.Ok? then Ok(M(m.value)) else Croak;
    case Object(t, m) =>
      return if t == f.typ.name then Ok(M(m)) else Croak;
    case _ =>
      return Croak;
  }

  /** The population of a message from a hash, in the order Perl iterates it. */
  method BuildMessage(p: Perl, s: Schema, typ: string, sv: SV, it: Iteration, at: seq<Link>) returns (r: Result<Msg>)
    requires ValidSchema(s) && IsIteration(it) && sv.Hash?
    ensures r == ToMessage(p, s, typ, sv, it, at)
    ensures r.Ok? <==> HashAccepted(p, s, typ, sv)
    ensures r.Ok? ==> Built(p, s, typ, sv, sv.entries.Keys, r.value)
    decreases sv, 0
  {
    hide Accepts, Converts, Built, HashAccepted, ValidSchema, ToSlot, Populate;
    MessageResult(p, s, typ, sv, it, at);
    var fields, order := FieldsOf(s, typ), it(at, sv.entries.Keys);
    var m, i := Msg(map[]), 0;
    PopulateStep(p, s, typ, sv, order, 0, it, at);
    while i < |order|
      invariant 0 <= i <= |order| && Populate(p, s, typ, sv, order[..i], it, at) == Ok(m)
    {
      var key := order[i];
      PopulateStep(p, s, typ, sv, order, i + 1, it, at);
      var f := FindByName(fields, key);
      if f.None? {
        PopulateCroak(p, s, typ, sv, order, i + 1, it, at);
        return Croak;
      }
      var val := SvToUpb(p, s, f.value, sv.entries[key], it, at + [Key(key)]);
      if val.Croak? {
        PopulateCroak(p, s, typ, sv, order, i + 1, it, at);
        return Croak;
      }
      m := SetField(fields, m, CString(key), val.value);
      i := i + 1;
    }
    assert order[..i] == order;
    r := Ok(m);
  }

  lemma PopulateStep(p: Perl, s: Schema, typ: string, sv: SV, order: seq<string>, n: nat, it: Iteration, at: seq<Link>)
    requires IsIteration(it) && sv.Hash? && (forall q :: q in order ==> q in sv.entries) && n <= |order|
    ensures Populate(p, s, typ, sv, order[..n], it, at) ==
            if n == 0 then Ok(Msg(map[]))
            else
              var k := order[n - 1];
              var f := FindByName(FieldsOf(s, typ), k);
              if f.None? then Croak
              else
                match (Populate(p, s, typ, sv, order[..n - 1], it, at), ToSlot(p, s, f.value, sv.entries[k], it, at + [Key(k)]))
                case (Ok(m), Ok(slot)) => Ok(SetField(FieldsOf(s, typ), m, CString(k), slot))
                case _ => Croak
  {
    if n > 0 { assert order[..n][..n - 1] == order[..n - 1]; }
  }

  /** The way to Perl and back, as the two operations perform it. */
  method RoundTrip(p: Perl, s: Schema, typ: string, m: Msg, it: Iteration) returns (r: Result<Msg>)
    requires ExactIntegers(p) && ValidSchema(s) && WellTyped(p, s, typ, m) && IsIteration(it)
    ensures FloatsAccepted(m) ==> r == Ok(m)
    ensures !FloatsAccepted(m) ==> r == Croak
  {
    var sv := MessageToPerl(p, s, typ, m);
    RoundTripInOrder(p, s, typ, m, it, []);
    r := BuildMessage(p, s, typ, sv, it, []);
  }
}
