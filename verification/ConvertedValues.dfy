/** What the conversions of `Convert` come to, stated value by value: what each kind of Perl value
    gives on a field of each type, and what Perl sees of a projected message. */
module ConvertedValues {
  import opened Streams
  import opened Options
  import opened Convert

  // ---------------------------------------------------------------- what every kind of Perl value gives

  /** A scalar holds an integer in the form Perl would. */
  predicate HoldsInteger(sv: SV, n: int) {
    || (sv == IV(n) && -0x8000_0000_0000_0000 <= n <= 0x7FFF_FFFF_FFFF_FFFF)
    || (sv == UV(n) && 0x7FFF_FFFF_FFFF_FFFF < n <= 0xFFFF_FFFF_FFFF_FFFF)
  }

  predicate Below(a: Number, b: Number) { a.Finite? && b.Finite? && a.r <= b.r }

  /** Integers become doubles as IEEE 754 has it: exactly up to 2^53, in order beyond. */
  ghost predicate Rounds(p: Perl) {
    && (forall n {:trigger p.round(n)} :: -0x20_0000_0000_0000 <= n <= 0x20_0000_0000_0000 ==> p.round(n) == Finite(n as real))
    && (forall a, b {:trigger p.round(a), p.round(b)} ::
          -0x8000_0000_0000_0000 <= a <= b <= 0x1_0000_0000_0000_0000 ==> Below(p.round(a), p.round(b)))
    && p.round(0x1_0000_0000_0000_0000) == Finite(18446744073709551616.0)
    && p.round(-0x8000_0000_0000_0000) == Finite(-9223372036854775808.0)
  }

  /** A number without its fraction. */
  function TowardZero(r: real): (n: int) {
    if r >= 0.0 then r.Floor else -((-r).Floor)
  }

  /** Doubles become integers without their fraction, as far as the integers go. */
  ghost predicate Truncates(p: Perl) {
    forall d: Number :: d.Finite? ==>
      && (-9223372036854775808.0 <= d.r < 9223372036854775808.0 ==>
            p.numberIV(d) == TowardZero(d.r) && p.castInt64(d) == TowardZero(d.r))
      && (0.0 <= d.r < 18446744073709551616.0 ==>
            p.numberUV(d) == TowardZero(d.r) && p.castUInt64(d) == TowardZero(d.r))
  }

  /** An integer: each integer type takes it exactly within its range. A 64-bit signed field
      takes an unsigned integer beyond its range for the negative one with the same bits, and an
      enum takes the low 32 bits. */
  lemma IntegerGiven(p: Perl, s: Schema, f: Field, sv: SV, n: int, it: Iteration, at: seq<Link>)
    requires Rounds(p) && IsIteration(it) && HoldsInteger(sv, n)
    ensures var r := ToValue(p, s, f, sv, it, at);
            match f.typ
            case Int32 => r == (if -0x8000_0000 <= n < 0x8000_0000 then Ok(I32(n)) else Croak)
            case UInt32 => r == (if 0 <= n < 0x1_0000_0000 then Ok(U32(n)) else Croak)
            case Int64 => r == Ok(I64(if n < 0x8000_0000_0000_0000 then n else n - 0x1_0000_0000_0000_0000))
            case UInt64 => r == (if n < 0 then Croak else Ok(U64(n)))
            case Bool => r == Ok(B(n != 0))
            case Float => r == Ok(F(p.narrow(p.round(n))))
            case Double => r == Ok(D(p.round(n)))
            case Enum(_) => r.Ok? && r.value.E? && -0x8000_0000 <= r.value.e < 0x8000_0000 && (r.value.e - n) % 0x1_0000_0000 == 0
            case _ => r == Croak
  {
    hide IsIteration;
    if !f.typ.Message? { IntegerScalar(p, f.typ, sv, n); }
  }

  lemma IntegerScalar(p: Perl, t: FieldType, sv: SV, n: int)
    requires Rounds(p) && HoldsInteger(sv, n) && !t.Message?
    ensures var d := p.round(n);
            && d.Finite? && -9223372036854775808.0 <= d.r <= 18446744073709551616.0
            && (d.r < -2147483648.0 <==> n < -0x8000_0000) && (d.r > 2147483647.0 <==> n > 0x7FFF_FFFF)
            && (d.r < 0.0 <==> n < 0) && (d.r > 4294967295.0 <==> n > 0xFFFF_FFFF)
    ensures var r := Scalar(p, t, sv);
            match t
            case Int32 => r == (if -0x8000_0000 <= n < 0x8000_0000 then Ok(I32(n)) else Croak)
            case UInt32 => r == (if 0 <= n < 0x1_0000_0000 then Ok(U32(n)) else Croak)
            case Int64 => r == Ok(I64(if n < 0x8000_0000_0000_0000 then n else n - 0x1_0000_0000_0000_0000))
            case UInt64 => r == (if n < 0 then Croak else Ok(U64(n)))
            case Bool => r == Ok(B(n != 0))
            case Float => r == Ok(F(p.narrow(p.round(n))))
            case Double => r == Ok(D(p.round(n)))
            case Enum(_) => r.Ok? && r.value.E? && -0x8000_0000 <= r.value.e < 0x8000_0000 && (r.value.e - n) % 0x1_0000_0000 == 0
            case _ => r == Croak
  {
    assert Below(p.round(-0x8000_0000_0000_0000), p.round(n)) && Below(p.round(n), p.round(0x1_0000_0000_0000_0000));
    Ordered(p, n, -0x8000_0001);
    Ordered(p, n, -0x8000_0000);
    Ordered(p, n, 0x7FFF_FFFF);
    Ordered(p, n, 0x8000_0000);
    Ordered(p, n, -1);
    Ordered(p, n, 0);
    Ordered(p, n, 0xFFFF_FFFF);
    Ordered(p, n, 0x1_0000_0000);
  }

  /** Comparing with a small integer is the same before and after rounding. */
  lemma Ordered(p: Perl, n: int, k: int)
    requires Rounds(p) && -0x8000_0000_0000_0000 <= n <= 0x1_0000_0000_0000_0000 && -0x1_0000_0000 <= k <= 0x1_0000_0000
    ensures p.round(n).Finite?
    ensures n <= k ==> p.round(n).r <= k as real
    ensures n >= k ==> p.round(n).r >= k as real
  {
    assert p.round(k) == Finite(k as real);
    if n <= k { assert Below(p.round(n), p.round(k)); } else { assert Below(p.round(k), p.round(n)); }
  }

  /** A double: the checked types croak exactly beyond their bounds (a NaN is beyond none), and
      integers lose the fraction; the unsigned 64-bit type croaks exactly on negative ones. */
  lemma NumberGiven(p: Perl, s: Schema, f: Field, d: Number, it: Iteration, at: seq<Link>)
    requires Truncates(p) && IsIteration(it)
    ensures var r := ToValue(p, s, f, NV(d), it, at);
            match f.typ
            case Int32 =>
              && (r == Croak <==> d.Infinite? || (d.Finite? && (d.r < -2147483648.0 || d.r > 2147483647.0)))
              && (r.Ok? && d.Finite? ==> r == Ok(I32(TowardZero(d.r))))
            case UInt32 =>
              && (r == Croak <==> d.Infinite? || (d.Finite? && (d.r < 0.0 || d.r > 4294967295.0)))
              && (r.Ok? && d.Finite? ==> r == Ok(U32(TowardZero(d.r))))
            case Int64 =>
              r.Ok? && (d.Finite? && -9223372036854775808.0 <= d.r < 9223372036854775808.0 ==> r == Ok(I64(TowardZero(d.r))))
            case UInt64 =>
              && (r == Croak <==> d == Infinite(true) || (d.Finite? && d.r < 0.0))
              && (d.Finite? && 0.0 <= d.r < 18446744073709551616.0 ==> r == Ok(U64(TowardZero(d.r))))
            case Bool => r == Ok(B(d != Finite(0.0)))
            case Float =>
              r == if d.Infinite? || (d.Finite? && (d.r < -340282346600000000000000000000000000000.0 ||
                                                     d.r > 340282346600000000000000000000000000000.0))
                   then Croak else Ok(F(p.narrow(d)))
            case Double => r == Ok(D(d))
            case _ => r == Croak
  {
    hide IsIteration;
    if d.Finite? && -2147483648.0 <= d.r <= 4294967295.0 { SmallFloor(d.r); }
  }

  lemma SmallFloor(r: real)
    ensures -2147483648.0 <= r <= 2147483647.0 ==> -0x8000_0000 <= TowardZero(r) < 0x8000_0000
    ensures 0.0 <= r <= 4294967295.0 ==> 0 <= TowardZero(r) < 0x1_0000_0000
  {
  }

  /** The UTF-8 of a string's characters. */
  function AsUtf8(text: seq<byte>, utf8: bool): (r: seq<byte>) { if utf8 then text else Upgrade(text) }

  /** A string: the numeric types with bounds croak unless it looks like a number, and then go by
      what `SvNV` reads for the bounds and by what `SvIV`, `SvUV` or `SvNV` reads for the value;
      the 64-bit types take what strtoll or strtoull reads; it is false when empty or "0"; an
      enum takes the names it has; a string field takes the UTF-8 of its characters, and a bytes
      field its bytes if it has no flag and its characters as bytes otherwise. */
  lemma StringGiven(p: Perl, s: Schema, f: Field, text: seq<byte>, utf8: bool, it: Iteration, at: seq<Link>)
    requires IsIteration(it)
    ensures var r, d := ToValue(p, s, f, PV(text, utf8), it, at), p.stringNV(text);
            match f.typ
            case Int32 =>
              && (r == Croak <==> !p.looksLikeNumber(text) || d.Infinite? || (d.Finite? && (d.r < -2147483648.0 || d.r > 2147483647.0)))
              && (r.Ok? ==> r.value.I32? && (r.value.i32 - p.stringIV(text)) % 0x1_0000_0000 == 0)
            case UInt32 =>
              && (r == Croak <==> !p.looksLikeNumber(text) || d.Infinite? || (d.Finite? && (d.r < 0.0 || d.r > 4294967295.0)))
              && (r.Ok? ==> r.value.U32? && (r.value.u32 - p.stringUV(text)) % 0x1_0000_0000 == 0)
            case Int64 => r == Ok(I64(p.strtoll(text)))
            case UInt64 => r == Ok(U64(p.strtoull(text)))
            case Bool => r == Ok(B(text != [] && text != [48]))
            case Float =>
              r == if !p.looksLikeNumber(text) || d.Infinite? ||
                      (d.Finite? && (d.r < -340282346600000000000000000000000000000.0 || d.r > 340282346600000000000000000000000000000.0))
                   then Croak else Ok(F(p.narrow(d)))
            case Double => r == if p.looksLikeNumber(text) then Ok(D(d)) else Croak
            case String => r == Ok(S(AsUtf8(text, utf8)))
            case Bytes => r == if !utf8 then Ok(Y(text)) else if Downgrade(text).Ok? then Ok(Y(Downgrade(text).value)) else Croak
            case Enum(names) =>
              r == if AsUtf8(text, utf8) in names then Ok(E(names[AsUtf8(text, utf8)])) else Croak
            case Message(_) => r == Croak
  {
    hide IsIteration, Upgrade, Downgrade;
  }

  /** PL_sv_yes and PL_sv_no are 1 and 0, "1" and the empty string, true and false; no enum name
      is looked up for them. */
  lemma YesNoGiven(p: Perl, s: Schema, f: Field, yes: bool, it: Iteration, at: seq<Link>)
    requires IsIteration(it)
    ensures var r, n := ToValue(p, s, f, YesNo(yes), it, at), if yes then 1 else 0;
            match f.typ
            case Int32 => r == Ok(I32(n))
            case UInt32 => r == Ok(U32(n))
            case Int64 => r == Ok(I64(n))
            case UInt64 => r == Ok(U64(n))
            case Bool => r == Ok(B(yes))
            case Float => r == Ok(F(p.narrow(Finite(n as real))))
            case Double => r == Ok(D(Finite(n as real)))
            case String => r == Ok(S(if yes then [49] else []))
            case Bytes => r == Ok(Y(if yes then [49] else []))
            case Enum(_) => r == Ok(E(n))
            case Message(_) => r == Croak
  {
    hide IsIteration;
    assert Upgrade([49]) == [49] + Upgrade([]);
  }

  /** Undef and references: true or false, and numbers for 64-bit fields only; message fields
      take objects of exactly their type, and hashes. */
  lemma ReferenceGiven(p: Perl, s: Schema, f: Field, sv: SV, it: Iteration, at: seq<Link>)
    requires IsIteration(it) && (sv == Undef || sv.Array? || sv.Hash? || sv.Object?)
    ensures var r := ToValue(p, s, f, sv, it, at);
            match f.typ
            case Bool => r == Ok(B(sv != Undef))
            case Int64 => r == Ok(I64(p.castInt64(if sv == Undef then Finite(0.0) else p.round(p.address(sv)))))
            case UInt64 => r == Ok(U64(p.castUInt64(if sv == Undef then Finite(0.0) else p.round(p.address(sv)))))
            case Message(_) => sv == Undef || sv.Array? ==> r == Croak
            case _ => r == Croak
    ensures f.typ.Message? && sv.Object? ==>
              ToValue(p, s, f, sv, it, at) == if sv.typ == f.typ.name then Ok(M(sv.msg)) else Croak
    ensures f.typ.Message? && sv.Hash? ==>
              var r, m := ToValue(p, s, f, sv, it, at), ToMessage(p, s, f.typ.name, sv, it, at);
              (r.Ok? <==> m.Ok?) && (r.Ok? ==> r.value == M(m.value))
  {
    hide IsIteration, ToMessage;
  }

  /** Fields: undef croaks; a single field takes the value; a repeated one croaks on all but
      arrays, and takes an array element by element. Arrays of numbers, truth values and enums
      never croak; arrays of strings, bytes and messages do exactly when an element does. */
  lemma FieldGiven(p: Perl, s: Schema, f: Field, sv: SV, it: Iteration, at: seq<Link>)
    requires ValidSchema(s) && IsIteration(it)
    ensures var r := ToSlot(p, s, f, sv, it, at);
            && (sv == Undef ==> r == Croak)
            && (sv != Undef && !f.repeated ==>
                  var v := ToValue(p, s, f, sv, it, at); r == if v.Ok? then Ok(One(v.value)) else Croak)
            && (f.repeated && !sv.Array? ==> r == Croak)
            && (f.repeated && sv.Array? ==>
                  var checked := f.typ.String? || f.typ.Bytes? || f.typ.Message?;
                  && (r.Ok? <==> checked ==> forall i :: 0 <= i < |sv.items| ==> ToValue(p, s, f, sv.items[i], it, at + [Index(i)]).Ok?)
                  && (r.Ok? ==> r.value.Many? && |r.value.vs| == |sv.items|)
                  && (r.Ok? && checked ==> forall i :: 0 <= i < |sv.items| ==>
                        ToValue(p, s, f, sv.items[i], it, at + [Index(i)]) == Ok(r.value.vs[i]))
                  && (r.Ok? && !checked ==> forall i :: 0 <= i < |sv.items| ==> r.value.vs[i] == Raw(p, f.typ, sv.items[i])))
  {
    hide IsIteration, ToValue, ToValues, ValidSchema, Raw;
    if f.repeated && sv.Array? && !Batched(f.typ) {
      ValuesResult(p, s, f, sv, |sv.items|, it, at);
      forall i | 0 <= i < |sv.items| ensures ToValue(p, s, f, sv.items[i], it, at + [Index(i)]).Ok? <==> AcceptsOne(p, s, f, sv.items[i]) {
        ValueResult(p, s, f, sv.items[i], it, at + [Index(i)]);
      }
    }
  }

  /** A key of a hash names a field whose conversion of the value succeeds. */
  ghost predicate KeyFits(p: Perl, s: Schema, typ: string, sv: SV, k: string, it: Iteration, at: seq<Link>)
    requires IsIteration(it) && sv.Hash? && k in sv.entries
  {
    exists i :: 0 <= i < |FieldsOf(s, typ)| && FieldsOf(s, typ)[i].name == CString(k) &&
      ToSlot(p, s, FieldsOf(s, typ)[i], sv.entries[k], it, at + [Key(k)]).Ok?
  }

  /** A field of the result comes from an entry whose key names it. */
  ghost predicate ComesFrom(p: Perl, s: Schema, typ: string, sv: SV, n: string, slot: Slot, it: Iteration, at: seq<Link>)
    requires IsIteration(it) && sv.Hash?
  {
    exists i, k :: 0 <= i < |FieldsOf(s, typ)| && FieldsOf(s, typ)[i].name == n && k in sv.entries && CString(k) == n &&
      ToSlot(p, s, FieldsOf(s, typ)[i], sv.entries[k], it, at + [Key(k)]) == Ok(slot)
  }

  /** A hash: it croaks exactly when some key, cut at its first NUL, is the name of no field, or its
      value does not convert for that field; and each field of the message is the converted value
      of an entry whose key names it. */
  lemma HashGiven(p: Perl, s: Schema, typ: string, sv: SV, it: Iteration, at: seq<Link>)
    requires ValidSchema(s) && IsIteration(it) && sv.Hash?
    ensures var r := ToMessage(p, s, typ, sv, it, at);
            && (r.Ok? <==> forall k :: k in sv.entries ==> KeyFits(p, s, typ, sv, k, it, at))
            && (r.Ok? ==> forall n :: n in r.value.slots ==>
                  Present(r.value.slots[n]) && ComesFrom(p, s, typ, sv, n, r.value.slots[n], it, at))
  {
    hide Populate, KeyFits, ComesFrom, ValidSchema, Present;
    EntriesGiven(p, s, typ, sv, it(at, sv.entries.Keys), it, at);
  }

  lemma {:induction false} EntriesGiven(p: Perl, s: Schema, typ: string, sv: SV, order: seq<string>, it: Iteration, at: seq<Link>)
    requires ValidSchema(s) && IsIteration(it) && sv.Hash? && forall k :: k in order ==> k in sv.entries
    ensures var r := Populate(p, s, typ, sv, order, it, at);
            && (r.Ok? <==> forall k :: k in order ==> KeyFits(p, s, typ, sv, k, it, at))
            && (r.Ok? ==> forall n :: n in r.value.slots ==>
                  Present(r.value.slots[n]) && ComesFrom(p, s, typ, sv, n, r.value.slots[n], it, at))
  {
    hide IsIteration, ValidSchema, ToSlot, KeyFits, ComesFrom, Find, CString;
    if order == [] {
    } else {
      var init, k := order[..|order| - 1], order[|order| - 1];
      EntriesGiven(p, s, typ, sv, init, it, at);
      EntryGiven(p, s, typ, sv, k, it, at);
      assert order == init + [k];
    }
  }

  lemma EntryGiven(p: Perl, s: Schema, typ: string, sv: SV, k: string, it: Iteration, at: seq<Link>)
    requires ValidSchema(s) && IsIteration(it) && sv.Hash? && k in sv.entries
    ensures var f := FindByName(FieldsOf(s, typ), k);
            && (f.None? ==> !KeyFits(p, s, typ, sv, k, it, at))
            && (f.Some? ==>
                  var slot := ToSlot(p, s, f.value, sv.entries[k], it, at + [Key(k)]);
                  && (slot.Ok? <==> KeyFits(p, s, typ, sv, k, it, at))
                  && (slot.Ok? ==> ComesFrom(p, s, typ, sv, CString(k), slot.value, it, at)))
  {
    hide IsIteration, ToSlot, Find, CString;
    var fields, name := FieldsOf(s, typ), CString(k);
    var f := Find(fields, name);
    FindIn(fields, name);
    if f.Some? {
      var j :| 0 <= j < |fields| && fields[j] == f.value;
      assert forall i :: 0 <= i < |fields| && fields[i].name == name ==> fields[i] == f.value;
    }
  }

  /** Array elements are not checked: an integer beyond 32 bits keeps its low 32 bits, and a
      string in an array of enums is read as a number, not looked up. */
  lemma ElementUnchecked(p: Perl, sv: SV, n: int, names: map<seq<byte>, int>, text: seq<byte>, utf8: bool)
    requires HoldsInteger(sv, n)
    ensures var v := Raw(p, Int32, sv); v.I32? && -0x8000_0000 <= v.i32 < 0x8000_0000 && (v.i32 - n) % 0x1_0000_0000 == 0
    ensures var v := Raw(p, UInt32, sv); v.U32? && 0 <= v.u32 < 0x1_0000_0000 && (v.u32 - n) % 0x1_0000_0000 == 0
    ensures n < 0 ==> Raw(p, UInt64, sv) == U64(n + 0x1_0000_0000_0000_0000)
    ensures Raw(p, Float, sv) == F(p.narrow(p.round(n))) && Raw(p, Double, sv) == D(p.round(n)) && Raw(p, Bool, sv) == B(n != 0)
    ensures var v := Raw(p, Enum(names), PV(text, utf8)); v.E? && (v.e - p.stringIV(text)) % 0x1_0000_0000 == 0
  {
    hide ToInt32, ToUInt32;
    if n < 0 { Low32(ToUInt32(n + 0x1_0000_0000_0000_0000), n, 0x1_0000_0000); }
    if n > 0x7FFF_FFFF_FFFF_FFFF { Low32(ToInt32(n - 0x1_0000_0000_0000_0000), n, -0x1_0000_0000); }
  }

  /** Multiples of 2^32 do not count for the low 32 bits. */
  lemma Low32(r: int, n: int, k: int)
    requires (r - (n + k * 0x1_0000_0000)) % 0x1_0000_0000 == 0
    ensures (r - n) % 0x1_0000_0000 == 0
  {
  }

  // ---------------------------------------------------------------- what Perl sees of a value

  /** Every value looks to Perl as it should: integers as integers in Perl's own form and not as
      strings, floats as doubles, truth values as PL_sv_yes and PL_sv_no, strings with the UTF8
      flag and bytes without. */
  lemma ProjectedValue(p: Perl, t: FieldType, v: Value)
    requires Holds(p, t, v) && !v.M?
    ensures var sv := ScalarToSv(v);
            match v
            case I32(n) => HoldsInteger(sv, n)
            case U32(n) => HoldsInteger(sv, n)
            case I64(n) => HoldsInteger(sv, n)
            case U64(n) => HoldsInteger(sv, n)
            case E(n) => HoldsInteger(sv, n)
            case B(b) => sv == YesNo(b)
            case F(d) => sv == NV(d)
            case D(d) => sv == NV(d)
            case S(text) => sv == PV(text, true)
            case Y(text) => sv == PV(text, false)
  {
  }

  /** Nothing but data at any depth: no wrapped messages, and no undef. */
  ghost predicate PlainData(sv: SV)
    decreases sv
  {
    match sv
    case Hash(h) => forall k :: k in h ==> PlainData(h[k])
    case Array(items) => forall i :: 0 <= i < |items| ==> PlainData(items[i])
    case Object(_, _) => false
    case Undef => false
    case _ => true
  }

  /** A message becomes plain data: a hash with exactly its present fields, arrays with all the
      elements, and hashes for messages within. */
  lemma {:induction false} MessageIsPlain(p: Perl, s: Schema, typ: string, m: Msg)
    requires WellTyped(p, s, typ, m)
    ensures PlainData(MessageToSv(s, typ, m)) && MessageToSv(s, typ, m).entries.Keys == m.slots.Keys
    ensures forall k :: k in m.slots ==>
              var sv := MessageToSv(s, typ, m).entries[k];
              match m.slots[k]
              case One(v) => !sv.Array? && (v.M? <==> sv.Hash?)
              case Many(vs) => sv.Array? && |sv.items| == |vs| && forall i :: 0 <= i < |vs| ==> (vs[i].M? <==> sv.items[i].Hash?)
    decreases m
  {
    hide SlotToSv, SlotTyped, PlainData;
    forall k | k in m.slots
      ensures Present(m.slots[k]) && PlainData(MessageToSv(s, typ, m).entries[k])
      ensures var sv := MessageToSv(s, typ, m).entries[k];
              match m.slots[k]
              case One(v) => !sv.Array? && (v.M? <==> sv.Hash?)
              case Many(vs) => sv.Array? && |sv.items| == |vs| && forall i :: 0 <= i < |vs| ==> (vs[i].M? <==> sv.items[i].Hash?)
    {
      TypedPresent(p, s, Find(FieldsOf(s, typ), k).value, m.slots[k]);
      SlotIsPlain(p, s, Find(FieldsOf(s, typ), k).value, m.slots[k]);
    }
    HashIsPlain(MessageToSv(s, typ, m));
  }

  lemma HashIsPlain(sv: SV)
    requires sv.Hash? && forall k :: k in sv.entries ==> PlainData(sv.entries[k])
    ensures PlainData(sv)
  {
  }

  lemma {:induction false} SlotIsPlain(p: Perl, s: Schema, f: Field, slot: Slot)
    requires SlotTyped(p, s, f, slot)
    ensures var sv := SlotToSv(s, f, slot);
            && PlainData(sv)
            && match slot
               case One(v) => !sv.Array? && (v.M? <==> sv.Hash?)
               case Many(vs) => sv.Array? && |sv.items| == |vs| && forall i :: 0 <= i < |vs| ==> (vs[i].M? <==> sv.items[i].Hash?)
    decreases slot
  {
    hide ValueToSv, ValueTyped;
    match slot
    case One(v) => ValueIsPlain(p, s, f, v);
    case Many(vs) =>
      forall i | 0 <= i < |vs|
        ensures PlainData(SlotToSv(s, f, slot).items[i]) && (vs[i].M? <==> SlotToSv(s, f, slot).items[i].Hash?)
      {
        ValueIsPlain(p, s, f, vs[i]);
      }
  }

  lemma {:induction false} ValueIsPlain(p: Perl, s: Schema, f: Field, v: Value)
    requires ValueTyped(p, s, f, v)
    ensures PlainData(ValueToSv(s, f, v)) && !ValueToSv(s, f, v).Array? && (v.M? <==> ValueToSv(s, f, v).Hash?)
    decreases v
  {
    hide WellTyped, MessageToSv;
    if v.M? { MessageIsPlain(p, s, f.typ.name, v.m); }
  }

  /** A value converted by itself, a message as a wrapper around it, is taken back as itself. */
  lemma SingularRoundTrip(p: Perl, s: Schema, f: Field, v: Value, it: Iteration, at: seq<Link>)
    requires ExactIntegers(p) && IsIteration(it) && Holds(p, f.typ, v)
    ensures v.M? ==> SingularToSv(f, v) == Object(f.typ.name, v.m)
    ensures ToValue(p, s, f, SingularToSv(f, v), it, at) == if FloatAccepted(v) then Ok(v) else Croak
  {
    hide IsIteration;
    if !v.M? { ScalarRoundTrip(p, f.typ, v); }
  }

  // ---------------------------------------------------------------- characters

  predicate Continues(b: byte) { 128 <= b < 192 }

  function Prepend(c: nat, rest: Option<seq<nat>>): (r: Option<seq<nat>>) {
    match rest case Some(cs) => Some([c] + cs) case None => None
  }

  /** The characters of UTF-8 text, by section 3 of RFC 3629: the shortest form only. */
  function Characters(u: seq<byte>): (r: Option<seq<nat>>) {
    if u == [] then Some([])
    else if u[0] < 128 then Prepend(u[0], Characters(u[1..]))
    else if 194 <= u[0] < 224 && |u| >= 2 && Continues(u[1]) then
      Prepend((u[0] as int - 192) * 64 + (u[1] - 128), Characters(u[2..]))
    else if 224 <= u[0] < 240 && |u| >= 3 && Continues(u[1]) && Continues(u[2]) && (u[0] == 224 ==> u[1] >= 160) then
      Prepend((u[0] as int - 224) * 4096 + (u[1] as int - 128) * 64 + (u[2] - 128), Characters(u[3..]))
    else if 240 <= u[0] < 245 && |u| >= 4 && Continues(u[1]) && Continues(u[2]) && Continues(u[3]) && (u[0] == 240 ==> u[1] >= 144) then
      Prepend(
        (u[0] as int - 240) * 262144 + (u[1] as int - 128) * 4096 + (u[2] as int - 128) * 64 + (u[3] - 128),
        Characters(u[4..]))
    else None
  }

  /** A Latin-1 string upgrades to the UTF-8 text with its bytes as characters. */
  lemma {:induction false} UpgradeCharacters(text: seq<byte>)
    ensures Characters(Upgrade(text)) == Some(text)
  {
    if text == [] {
    } else {
      var c, u := text[0], Upgrade(text);
      UpgradeCharacters(text[1..]);
      if c < 128 {
        assert u[1..] == Upgrade(text[1..]);
      } else {
        assert u[0] == 192 + c / 64 && u[1] == 128 + c % 64 && u[2..] == Upgrade(text[1..]);
      }
      assert text == [c] + text[1..];
    }
  }

  /** UTF-8 text downgrades to its characters exactly when they all fit a byte. */
  lemma {:induction false} DowngradeCharacters(u: seq<byte>)
    requires Characters(u).Some?
    ensures var cs := Characters(u).value;
            && (Downgrade(u).Ok? <==> forall i :: 0 <= i < |cs| ==> cs[i] < 256)
            && (Downgrade(u).Ok? ==> Downgrade(u).value == cs)
  {
    if u == [] {
    } else {
      var cs := Characters(u).value;
      var n := if u[0] < 128 then 1 else if u[0] < 224 then 2 else if u[0] < 240 then 3 else 4;
      DowngradeCharacters(u[n..]);
      assert cs[1..] == Characters(u[n..]).value;
      assert cs == [cs[0]] + cs[1..];
      if n <= 2 && u[0] < 196 {
        assert cs[0] < 256;
      } else {
        assert cs[0] >= 256;
      }
    }
  }

  /** Downgrading undoes upgrading, and succeeds on nothing else. */
  lemma {:induction false} DowngradeExactly(u: seq<byte>, text: seq<byte>)
    ensures Downgrade(u) == Ok(text) <==> u == Upgrade(text)
  {
    if u == [] {
      if text != [] { assert |Upgrade(text)| > 0; }
    } else {
      var n := if u[0] < 128 then 1 else 2;
      if text != [] && n <= |u| { DowngradeExactly(u[n..], text[1..]); }
      if Downgrade(u) == Ok(text) {
        assert Downgrade(u[n..]) == Ok(text[1..]);
        assert u == u[..n] + u[n..];
      }
      if u == Upgrade(text) {
        assert text != [];
        assert u[n..] == Upgrade(text[1..]);
        assert text == [text[0]] + text[1..];
      }
    }
  }
}
