/** Stated field offsets against the positions where fields really are. The loops of
    _calc_offsets and _calc_size do not notice that a field between two runs of bit fields ends
    the storage unit of the first; this module says exactly when an offset is wrong, and Seeks
    when that matters. */
module Offsets {
  import opened Bits
  import opened Bytes
  import opened Text
  import opened Layout

  /** The storage unit that the bit fields before this point share, and the bits left in it. */
  datatype Run = NoRun | Run(unit: Scalar, left: int)

  function RunNext(run: Run, f: Field): Run {
    if f.bits == 0 || BitScalar(f).None? then NoRun
    else if run.NoRun? then Run(BitScalar(f).value, UnitSize(f) * 8 - f.bits)
    else run.(left := run.left - f.bits)
  }

  /** The layouts the codec is made for: distinct names, and adjacent bit fields of one unsigned
      type that fit one storage unit. */
  predicate SupportedFields(fields: seq<Field>, run: Run)
    decreases fields
  {
    fields == [] ||
    var f, rest := fields[0], fields[1..];
    && (forall g | g in rest :: g.name != f.name)
    && (f.bits == 0 ==> SupportedType(f.typ))
    && (f.bits > 0 ==>
          && BitScalar(f).Some? && !BitScalar(f).value.Char? && !ScalarSigned(BitScalar(f).value)
          && (run.NoRun? ==> f.bits <= 8 * UnitSize(f))
          && (run.Run? ==> run.unit == BitScalar(f).value && f.bits <= run.left))
    && SupportedFields(rest, RunNext(run, f))
  }

  predicate SupportedElem(e: Elem)
    decreases e
  {
    e.Single? || SupportedFields(e.fields, NoRun)
  }

  predicate SupportedType(t: Type)
    decreases t
  {
    SupportedElem(t.elem)
  }

  /** The bytes that reading takes: each run of bit fields takes one unit. None where that
      depends on the data. */
  function UsedFields(fields: seq<Field>, run: Run): Option<nat>
    decreases fields
  {
    if fields == [] then Some(0)
    else
      var f, rest := fields[0], fields[1..];
      var here := if f.bits == 0 then UsedType(f.typ) else if run.NoRun? then Some(UnitSize(f)) else Some(0);
      Layout.Plus(here, UsedFields(rest, RunNext(run, f)))
  }

  function UsedElem(e: Elem): Option<nat>
    decreases e
  {
    match e
    case Single(s) => Some(ScalarSize(s))
    case Struct(fields) => UsedFields(fields, NoRun)
  }

  function UsedType(t: Type): Option<nat>
    decreases t
  {
    match t
    case One(e) => UsedElem(e)
    case Many(e, Static(n)) => var u := UsedElem(e); if u.None? then None else Some(u.value * n)
    case Many(_, _) => None
  }

  // -------------------------------------------------- the property and the guard it depends on

  /** Every stated offset is where its field is, and the end is where the plan ends; `at` is the
      position relative to the start, as long as the plan knows an offset. */
  predicate InPlaceFields(fields: seq<Field>, p: Plan, run: Run, at: nat)
    decreases fields
  {
    if fields == [] then p.offset.Some? ==> p.offset.value == at
    else
      var f, rest := fields[0], fields[1..];
      var p' := PlanNext(p, f, TypeLen(f.typ));
      var used := if f.bits == 0 then UsedType(f.typ) else if run.NoRun? then Some(UnitSize(f)) else Some(0);
      && (PlanOffset(p, f).Some? ==> PlanOffset(p, f).value == at)
      && (f.bits == 0 ==> InPlaceType(f.typ))
      && InPlaceFields(rest, p', RunNext(run, f), if used.Some? then at + used.value else at)
  }

  predicate InPlaceElem(e: Elem)
    decreases e
  {
    e.Single? || InPlaceFields(e.fields, START, NoRun, 0)
  }

  predicate InPlaceType(t: Type)
    decreases t
  {
    (t.Many? && t.count == Static(0)) || InPlaceElem(t.elem)
  }

  /** Where a run of bit fields begins at a known offset, _calc_offsets takes the branch that
      opens a storage unit: the run before it, if of the same type, filled its unit. */
  predicate UnsharedFields(fields: seq<Field>, p: Plan, run: Run)
    decreases fields
  {
    fields == [] ||
    var f, rest := fields[0], fields[1..];
    && (f.bits > 0 && run.NoRun? && p.offset.Some? ==> OpensUnit(p, f))
    && (f.bits == 0 ==> UnsharedType(f.typ))
    && UnsharedFields(rest, PlanNext(p, f, TypeLen(f.typ)), RunNext(run, f))
  }

  predicate UnsharedElem(e: Elem)
    decreases e
  {
    e.Single? || UnsharedFields(e.fields, START, NoRun)
  }

  predicate UnsharedType(t: Type)
    decreases t
  {
    (t.Many? && t.count == Static(0)) || UnsharedElem(t.elem)
  }

  /** The plan's storage unit is the one that the bit fields really share. */
  predicate Tracks(p: Plan, run: Run) {
    p.offset.Some? && run.Run? ==> p.unit == Some(run.unit) && p.left == run.left
  }

  /** A plan that has fallen behind states a wrong offset next, or a wrong end. */
  lemma {:induction false} BehindFails(fields: seq<Field>, p: Plan, run: Run, at: nat)
    requires p.offset.Some? && p.offset.value < at
    ensures !InPlaceFields(fields, p, run, at)
    decreases fields
  {
    if fields != [] {
      var f := fields[0];
      if PlanOffset(p, f).None? {
        var p' := PlanNext(p, f, TypeLen(f.typ));
        BehindFails(fields[1..], p', RunNext(run, f), if run.NoRun? then at + UnitSize(f) else at);
      }
    }
  }

  // -------------------------------------------------- lengths

  /** In place, __len__ is the number of bytes used. */
  lemma {:induction false} InPlaceLenElem(e: Elem)
    requires SupportedElem(e) && InPlaceElem(e)
    ensures ElemLen(e) == UsedElem(e)
    decreases e, 1
  {
    if e.Struct? {
      InPlaceLen(e.fields, START, NoRun, 0);
    }
  }

  lemma {:induction false} SameKnown(e: Elem)
    requires SupportedElem(e)
    ensures ElemLen(e).Some? <==> UsedElem(e).Some?
    decreases e, 1
  {
    if e.Struct? {
      SameKnownFields(e.fields, START, NoRun, 0);
    }
  }

  lemma {:induction false} SameKnownFields(fields: seq<Field>, p: Plan, run: Run, size: nat)
    requires SupportedFields(fields, run)
    ensures CalcSize(fields, p, size).Some? <==> UsedFields(fields, run).Some?
    decreases fields, 0
  {
    if fields != [] {
      var f := fields[0];
      var p' := PlanNext(p, f, TypeLen(f.typ));
      if f.bits > 0 {
        SameKnownFields(fields[1..], p', RunNext(run, f), if OpensUnit(p, f) then size + UnitSize(f) else size);
      } else {
        SameKnown(f.typ.elem);
        if TypeLen(f.typ).Some? {
          var o, end := PlanOffset(p, f), size + TypeLen(f.typ).value;
          var o' := if o.Some? && o.value + TypeLen(f.typ).value > end then o.value + TypeLen(f.typ).value else end;
          SameKnownFields(fields[1..], p', NoRun, o');
        }
      }
    }
  }

  lemma {:induction false} InPlaceLenType(t: Type)
    requires SupportedType(t) && InPlaceType(t)
    ensures TypeLen(t) == UsedType(t)
    decreases t, 2
  {
    if t.Many? && t.count == Static(0) {
      SameKnown(t.elem);
    } else {
      InPlaceLenElem(t.elem);
    }
  }

  lemma {:induction false} InPlaceLen(fields: seq<Field>, p: Plan, run: Run, at: nat)
    requires SupportedFields(fields, run) && InPlaceFields(fields, p, run, at)
    requires p.offset == Some(at) && Tracks(p, run)
    ensures CalcSize(fields, p, at) == (if UsedFields(fields, run).None? then None
        else Some(at + UsedFields(fields, run).value))
    decreases fields, 0
  {
    hide TypeLen, UsedType;
    if fields != [] {
      var f, rest := fields[0], fields[1..];
      var p' := PlanNext(p, f, TypeLen(f.typ));
      if f.bits > 0 {
        if run.NoRun? {
          if !OpensUnit(p, f) { BehindFails(rest, p', RunNext(run, f), at + UnitSize(f)); }
          InPlaceLen(rest, p', RunNext(run, f), at + UnitSize(f));
        } else {
          InPlaceLen(rest, p', RunNext(run, f), at);
        }
      } else {
        InPlaceLenType(f.typ);
        if TypeLen(f.typ).Some? {
          InPlaceLen(rest, p', NoRun, at + TypeLen(f.typ).value);
        }
      }
    }
  }

  // -------------------------------------------------- exactly when offsets are right

  lemma {:induction false} InPlaceExactlyElem(e: Elem)
    requires SupportedElem(e)
    ensures InPlaceElem(e) <==> UnsharedElem(e)
    decreases e, 1
  {
    if e.Struct? {
      InPlaceExactly(e.fields, START, NoRun, 0);
    }
  }

  lemma {:induction false} InPlaceExactly(fields: seq<Field>, p: Plan, run: Run, at: nat)
    requires SupportedFields(fields, run) && Tracks(p, run)
    requires p.offset.Some? ==> p.offset.value == at
    ensures InPlaceFields(fields, p, run, at) <==> UnsharedFields(fields, p, run)
    decreases fields, 0
  {
    hide TypeLen, UsedType;
    if fields != [] {
      var f, rest := fields[0], fields[1..];
      var p' := PlanNext(p, f, TypeLen(f.typ));
      if f.bits > 0 {
        var at' := if run.NoRun? then at + UnitSize(f) else at;
        if run.NoRun? && p.offset.Some? && !OpensUnit(p, f) {
          BehindFails(rest, p', RunNext(run, f), at');
        } else {
          InPlaceExactly(rest, p', RunNext(run, f), at');
        }
      } else {
        InPlaceExactlyElem(f.typ.elem);
        if InPlaceType(f.typ) {
          InPlaceLenType(f.typ);
          InPlaceExactly(rest, p', NoRun, if TypeLen(f.typ).Some? then at + TypeLen(f.typ).value else at);
        }
      }
    }
  }

  // -------------------------------------------------- reading takes the bytes used

  /** The bit buffer holds the unit of the run. */
  predicate Loaded(run: Run, b: BitState) {
    if run.NoRun? then b == IDLE else b.typ == Some(run.unit) && b.remaining == run.left
  }

  lemma BitsStep(f: Field, rest: seq<Field>, run: Run, b: BitState, src: Source, pos: nat)
    requires f.bits > 0 && SupportedFields([f] + rest, run) && Loaded(run, b)
    requires var x := ReadBits(b, BitScalar(f).value, f.bits, src, pos); x.Ok? && x.full
    ensures SupportedFields(rest, RunNext(run, f))
    ensures var x := ReadBits(b, BitScalar(f).value, f.bits, src, pos);
            && Loaded(RunNext(run, f), x.value.1)
            && x.pos == pos + (if run.NoRun? then UnitSize(f) else 0)
  {
    assert ([f] + rest)[0] == f && ([f] + rest)[1..] == rest;
  }

  lemma {:induction false} ConsumedMany(e: Elem, count: nat, src: Source, pos: nat)
    requires SupportedElem(e) && UsedElem(e).Some?
    requires var x := ReadMany(e, count, src, false, pos); x.Ok? && x.full
    ensures ReadMany(e, count, src, false, pos).pos == pos + UsedElem(e).value * count
    decreases e, 2, count
  {
    if count > 0 {
      var x := ReadElem(e, src, false, pos);
      ConsumedElem(e, src, pos);
      ConsumedMany(e, count - 1, src, x.pos);
      OneMoreTimes(UsedElem(e).value, count);
    }
  }

  lemma OneMoreTimes(n: nat, count: nat)
    requires count > 0
    ensures n * count == n + n * (count - 1)
  {}

  lemma {:induction false} ConsumedElem(e: Elem, src: Source, pos: nat)
    requires SupportedElem(e) && UsedElem(e).Some?
    requires var x := ReadElem(e, src, false, pos); x.Ok? && x.full
    ensures ReadElem(e, src, false, pos).pos == pos + UsedElem(e).value
    decreases e, 1
  {
    if e.Struct? {
      Consumed(e.fields, START, NoRun, pos, src, pos, IDLE, map[]);
    }
  }

  lemma {:induction false} ConsumedType(t: Type, r: map<string, Value>, src: Source, pos: nat)
    requires SupportedType(t) && UsedType(t).Some?
    requires var x := ReadType(t, r, src, false, pos); x.Ok? && x.full
    ensures ReadType(t, r, src, false, pos).pos == pos + UsedType(t).value
    decreases t, 3
  {
    match t {
      case One(e) => ConsumedElem(e, src, pos);
      case Many(e, Static(n)) => if e.Struct? { ConsumedMany(e, n, src, pos); }
      case Many(_, _) =>
    }
  }

  /** Reading on from field to field takes exactly the bytes used. */
  lemma {:induction false} Consumed(fields: seq<Field>, p: Plan, run: Run, start: nat, src: Source, pos: nat,
      b: BitState, r: map<string, Value>)
    requires SupportedFields(fields, run) && UsedFields(fields, run).Some? && Loaded(run, b)
    requires var x := ReadFields(fields, p, start, src, false, pos, b, r); x.Ok? && x.full
    ensures ReadFields(fields, p, start, src, false, pos, b, r).pos == pos + UsedFields(fields, run).value
    decreases fields, 0
  {
    if fields != [] {
      var f, rest := fields[0], fields[1..];
      var p' := PlanNext(p, f, TypeLen(f.typ));
      assert fields == [f] + rest;
      if f.bits > 0 {
        var s := BitScalar(f).value;
        var x := ReadBits(b, s, f.bits, src, pos);
        BitsStep(f, rest, run, b, src, pos);
        Consumed(rest, p', RunNext(run, f), start, src, x.pos, x.value.1, r[f.name := Int(x.value.0)]);
      } else {
        var x := ReadType(f.typ, r, src, false, pos);
        ConsumedType(f.typ, r, src, pos);
        Consumed(rest, p', NoRun, start, src, x.pos, IDLE, r[f.name := x.value]);
      }
    }
  }
}
