/** Exactly when the stated offsets do harm. A reader that has been sent astray stays behind, since no
    stated offset is ever ahead of its field; so that even where it happens to read the right values it
    stops short of the end. */
module SeekLimits {
  import opened Bits
  import opened Bytes
  import opened Text
  import opened Layout
  import opened Offsets
  import opened Seeks

  // -------------------------------------------------- runs cut in two

  /** The last run of bit fields is not cut by an offset stated in its middle. */
  predicate UnsplitFields(fields: seq<Field>, p: Plan, run: Run)
    decreases fields
  {
    fields == [] ||
    var f, rest := fields[0], fields[1..];
    && !(f.bits > 0 && run.Run? && IsSought(p, f) && AllBits(rest))
    && (f.bits == 0 ==> UnsplitElem(f.typ.elem))
    && UnsplitFields(rest, PlanNext(p, f, TypeLen(f.typ)), RunNext(run, f))
  }

  predicate UnsplitElem(e: Elem)
    decreases e
  {
    e.Single? || UnsplitFields(e.fields, START, NoRun)
  }

  /** That is so in all structures inside. */
  predicate NestedUnsplit(fields: seq<Field>) {
    forall k | 0 <= k < |fields| :: fields[k].bits == 0 ==> UnsplitElem(fields[k].typ.elem)
  }

  lemma {:induction false} UnsplitIsNested(fields: seq<Field>, p: Plan, run: Run)
    requires UnsplitFields(fields, p, run)
    ensures NestedUnsplit(fields)
    decreases fields
  {
    if fields != [] {
      var f, rest := fields[0], fields[1..];
      UnsplitIsNested(rest, PlanNext(p, f, TypeLen(f.typ)), RunNext(run, f));
      assert forall k | 0 < k < |fields| :: fields[k] == rest[k - 1];
    }
  }

  // -------------------------------------------------- the plan is never ahead

  /** The plan has not come further than hi. In a run it is either in step with the reader, or behind by
      a unit that it may still open. */
  predicate Below(p: Plan, run: Run, hi: nat) {
    p.offset.Some? ==>
      && p.offset.value <= hi
      && (run.Run? ==>
            && p.unit == Some(run.unit) && run.left <= 8 * ScalarSize(run.unit)
            && (p.left >= run.left || p.offset.value + ScalarSize(run.unit) <= hi))
  }

  lemma BelowAfterBits(fields: seq<Field>, p: Plan, run: Run, hi: nat)
    requires fields != [] && fields[0].bits > 0 && SupportedFields(fields, run) && Below(p, run, hi)
    ensures var f := fields[0];
            && Below(PlanNext(p, f, TypeLen(f.typ)), RunNext(run, f), hi + UnitHere(f, run))
            && (IsSought(p, f) ==> PlanOffset(p, f).value <= hi)
  {}

  /** Where a run begins at an offset that is too low, the plan stays that low. */
  lemma BelowAfterOpening(fields: seq<Field>, p: Plan, hi: nat)
    requires fields != [] && fields[0].bits > 0 && SupportedFields(fields, NoRun)
    requires IsSought(p, fields[0]) && PlanOffset(p, fields[0]).value <= hi
    ensures var f := fields[0]; Below(PlanNext(p, f, TypeLen(f.typ)), RunNext(NoRun, f), hi + UnitSize(f))
  {}

  /** An offset stated in the middle of a run is that of the unit that the plan had missed. */
  lemma SplitIsBehind(fields: seq<Field>, p: Plan, run: Run, hi: nat)
    requires fields != [] && fields[0].bits > 0 && SupportedFields(fields, run) && Below(p, run, hi) && run.Run?
    requires IsSought(p, fields[0])
    ensures PlanOffset(p, fields[0]).value < hi
    ensures var f := fields[0];
            var p', run' := PlanNext(p, f, TypeLen(f.typ)), RunNext(run, f);
            p'.unit == Some(run'.unit) && p'.left >= run'.left
  {}

  /** Within a run that the plan is in step with no reader moves. */
  lemma {:induction false} LastRun(fields: seq<Field>, p: Plan, run: Run, at: nat, values: map<string, Value>,
      seeks: bool)
    requires AllBits(fields) && run.Run? && SupportedFields(fields, run)
    requires seeks ==> p.unit == Some(run.unit) && p.left >= run.left
    ensures SpanFields(fields, p, run, at, values, seeks) == at
    decreases fields
  {
    if fields != [] {
      var f, rest := fields[0], fields[1..];
      assert AllBits(rest);
      LastRun(rest, PlanNext(p, f, TypeLen(f.typ)), RunNext(run, f), at, values, seeks);
    }
  }

  // -------------------------------------------------- one field

  lemma StrayStep(fields: seq<Field>, p: Plan, run: Run, at: nat, values: map<string, Value>)
    requires fields != []
    ensures var f := fields[0];
            StrayFields(fields, p, run, at, values) <==>
              || Astray(fields, p, run, at)
              || (f.bits == 0 && f.name in values && StrayType(f.typ, values[f.name]))
              || StrayFields(fields[1..], PlanNext(p, f, TypeLen(f.typ)), RunNext(run, f),
                  at + UsedHere(f, run), values)
  {
  }

  // -------------------------------------------------- the reader that seeks stays behind

  /** What the reader that seeks and the stated length fall short by. */
  predicate Short(seek: nat, len: Option<nat>, span: nat, stray: bool) {
    && seek <= span && (len.Some? ==> len.value <= span)
    && (stray ==> seek < span && (len.Some? ==> len.value < span))
  }

  lemma {:induction false} ShortElem(e: Elem, src: Source, pos: nat)
    requires SupportedElem(e) && UnsplitElem(e) && ReadElem(e, src, false, pos).Ok? && ReadElem(e, src, false, pos).full
    ensures var v := ReadElem(e, src, false, pos).value;
            Short(SpanElem(e, v, true), ElemLen(e), SpanElem(e, v, false), StrayElem(e, v))
    decreases e, 1
  {
    if e.Struct? {
      UnsplitIsNested(e.fields, START, NoRun);
      ShortFields(e.fields, START, NoRun, 0, 0, 0, 0, pos, src, IDLE, map[]);
    }
  }

  lemma {:induction false} ShortMany(e: Elem, count: nat, src: Source, pos: nat)
    requires SupportedElem(e) && UnsplitElem(e)
    requires ReadMany(e, count, src, false, pos).Ok? && ReadMany(e, count, src, false, pos).full
    ensures var vs := ReadMany(e, count, src, false, pos).value;
            Short(SpanMany(e, vs, true), Times(ElemLen(e), count), SpanMany(e, vs, false), StrayAny(e, vs))
    decreases e, 2, count
  {
    hide ReadElem, SupportedElem, UnsplitElem, StrayElem, SpanElem, ElemLen;
    if count > 0 {
      var x := ReadElem(e, src, false, pos);
      ShortElem(e, src, pos);
      ShortMany(e, count - 1, src, x.pos);
      var vs := ReadMany(e, count - 1, src, false, x.pos).value;
      var all := [x.value] + vs;
      assert all[1..] == vs && all[0] == x.value && forall k | 0 <= k < |vs| :: vs[k] == all[k + 1];
      assert forall k | 0 < k < |all| :: all[k] == vs[k - 1];
      assert StrayAny(e, all) ==> StrayElem(e, x.value) || StrayAny(e, vs);
      if ElemLen(e).Some? { OneMoreTimes(ElemLen(e).value, count); }
    }
  }

  function Times(len: Option<nat>, count: nat): Option<nat> { if len.None? then None else Some(len.value * count) }

  lemma {:induction false} ShortType(t: Type, r: map<string, Value>, src: Source, pos: nat)
    requires SupportedType(t) && UnsplitElem(t.elem)
    requires ReadType(t, r, src, false, pos).Ok? && ReadType(t, r, src, false, pos).full
    ensures var v := ReadType(t, r, src, false, pos).value;
            Short(SpanType(t, v, true), TypeLen(t), SpanType(t, v, false), StrayType(t, v))
    decreases t, 3
  {
    hide ReadMany, SpanMany, StrayAny, ReadScalars, ScalarsSpan, ReadUntilZero;
    match t {
      case One(e) => ShortElem(e, src, pos);
      case Many(e, Static(n)) =>
        if e.Single? {
          ScalarsSpanIs(e.scalar, n, src, pos);
          NoneStray(e, ReadScalars(e.scalar, n, src, pos).value);
        } else {
          ShortMany(e, n, src, pos);
        }
      case Many(e, Dynamic(expr)) =>
        var n := Evaluated(expr, r, src).value;
        if e.Single? { NoneStray(e, ReadScalars(e.scalar, n, src, pos).value); } else { ShortMany(e, n, src, pos); }
      case Many(e, NullTerminated) => NoneStray(e, ReadUntilZero(e.scalar, src, pos).value);
    }
  }

  lemma NoneStray(e: Elem, v: Value)
    requires e.Single?
    ensures v.List? ==> !StrayAny(e, v.vs)
  {}

  /** The reader that reads on is at `at`, the one that seeks at `a` or further back, and neither it nor
      the plan is beyond hi: then it ends short by what hi is short of at, and by more when a seek goes
      astray. `stated` is at, as far as the plan knows it. */
  lemma {:induction false} ShortFields(fields: seq<Field>, p: Plan, run: Run, a: nat, hi: nat, at: nat, stated: nat,
      start: nat, src: Source, b: BitState, r: map<string, Value>)
    requires SupportedFields(fields, run) && Loaded(run, b) && NestedUnsplit(fields)
    requires a <= hi <= at && Below(p, run, hi) && (p.offset.Some? ==> stated == at)
    requires var x := ReadFields(fields, p, start, src, false, start + at, b, r); x.Ok? && x.full
    ensures FallShort(fields, p, run, a, hi, at, stated,
        ReadFields(fields, p, start, src, false, start + at, b, r).value)
    decreases fields, 1
  {
    hide *;
    if fields == [] {
      NothingFallsShort(p, run, a, hi, at, stated, start, src, b, r);
    } else if fields[0].bits > 0 {
      ShortBits(fields, p, run, a, hi, at, stated, start, src, b, r);
    } else {
      ShortPlain(fields, p, run, a, hi, at, stated, start, src, b, r);
    }
  }

  predicate FallShort(fields: seq<Field>, p: Plan, run: Run, a: nat, hi: nat, at: nat, stated: nat,
      values: map<string, Value>)
    requires hi <= at
  {
    var seek, span := SpanFields(fields, p, run, a, values, true), SpanFields(fields, p, run, at, values, false);
    var len: Option<nat> := if p.offset.None? then None else CalcSize(fields, p, p.offset.value);
    var stray := StrayFields(fields, p, run, stated, values);
    && seek + (at - hi) <= span && (stray ==> seek < span)
    && (len.Some? ==> len.value + (at - hi) <= span && (stray && UnsplitFields(fields, p, run) ==> len.value < span))
  }

  lemma NothingFallsShort(p: Plan, run: Run, a: nat, hi: nat, at: nat, stated: nat, start: nat, src: Source,
      b: BitState, r: map<string, Value>)
    requires a <= hi <= at && Below(p, run, hi)
    ensures FallShort([], p, run, a, hi, at, stated, ReadFields([], p, start, src, false, start + at, b, r).value)
  {}

  lemma NestedRest(fields: seq<Field>)
    requires fields != [] && NestedUnsplit(fields)
    ensures NestedUnsplit(fields[1..])
  {
    assert forall k | 0 <= k < |fields| - 1 :: fields[1..][k] == fields[k + 1];
  }

  lemma {:induction false} ShortBits(fields: seq<Field>, p: Plan, run: Run, a: nat, hi: nat, at: nat, stated: nat,
      start: nat, src: Source, b: BitState, r: map<string, Value>)
    requires fields != [] && fields[0].bits > 0
    requires SupportedFields(fields, run) && Loaded(run, b) && NestedUnsplit(fields)
    requires a <= hi <= at && Below(p, run, hi) && (p.offset.Some? ==> stated == at)
    requires var x := ReadFields(fields, p, start, src, false, start + at, b, r); x.Ok? && x.full
    ensures FallShort(fields, p, run, a, hi, at, stated,
        ReadFields(fields, p, start, src, false, start + at, b, r).value)
    decreases fields, 0
  {
    hide ReadBits, PlanNext, TypeLen, FallShort, Below, Astray, ReadType;
    var f, rest := fields[0], fields[1..];
    assert fields == [f] + rest;
    var p', run', u := PlanNext(p, f, TypeLen(f.typ)), RunNext(run, f), UnitHere(f, run);
    var x := ReadBits(b, BitScalar(f).value, f.bits, src, start + at);
    BitsStep(f, rest, run, b, src, start + at);
    BelowAfterBits(fields, p, run, hi);
    NestedRest(fields);
    AstrayIsBehind(fields, p, run, hi, stated);
    var low := if Astray(fields, p, run, stated) && run.NoRun? && hi == at then hi - 1 else hi;
    LowBits(fields, p, run, a, hi, at, stated, low);
    var a' := Sought(p, f, 0, true, a);
    PlanKnows(p, f, at, u, stated);
    var r' := r[f.name := Int(x.value.0)];
    ShortFields(rest, p', run', a' + u, low + u, at + u, stated + UsedHere(f, run), start, src, x.value.1, r');
    BitsFallShort(fields, p, run, a, hi, at, stated, low,
                  ReadFields(rest, p', start, src, false, start + (at + u), x.value.1, r').value);
  }

  lemma PlanKnows(p: Plan, f: Field, at: nat, u: nat, stated: nat)
    requires f.bits > 0
    ensures PlanNext(p, f, TypeLen(f.typ)).offset.Some? ==> p.offset.Some?
  {}

  lemma AstrayIsBehind(fields: seq<Field>, p: Plan, run: Run, hi: nat, stated: nat)
    requires fields != [] && fields[0].bits > 0 && SupportedFields(fields, run) && Below(p, run, hi)
    ensures Astray(fields, p, run, stated) && (p.offset.Some? ==> stated == hi)
        ==> hi > 0 && PlanOffset(p, fields[0]).value < hi
  {}

  /** How low the reader that seeks and the plan are after the field. */
  lemma LowBits(fields: seq<Field>, p: Plan, run: Run, a: nat, hi: nat, at: nat, stated: nat, low: nat)
    requires fields != [] && fields[0].bits > 0 && SupportedFields(fields, run)
    requires a <= hi <= at && Below(p, run, hi) && (p.offset.Some? ==> stated == at)
    requires low == if Astray(fields, p, run, stated) && run.NoRun? && hi == at then hi - 1 else hi
    ensures var f := fields[0];
            && 0 <= low && Sought(p, f, 0, true, a) <= low
            && Below(PlanNext(p, f, TypeLen(f.typ)), RunNext(run, f), low + UnitHere(f, run))
  {
    hide PlanNext, TypeLen, Below, Astray;
    BelowAfterBits(fields, p, run, hi);
    AstrayIsBehind(fields, p, run, hi, stated);
    if Astray(fields, p, run, stated) && run.NoRun? && hi == at {
      AstrayIsSought(fields, p, run, stated);
      BelowAfterOpening(fields, p, hi - 1);
    }
  }

  lemma AstrayIsSought(fields: seq<Field>, p: Plan, run: Run, stated: nat)
    requires fields != [] && Astray(fields, p, run, stated)
    ensures IsSought(p, fields[0])
  {}

  lemma BitsFallShort(fields: seq<Field>, p: Plan, run: Run, a: nat, hi: nat, at: nat, stated: nat, low: nat,
      values: map<string, Value>)
    requires fields != [] && fields[0].bits > 0 && SupportedFields(fields, run)
    requires a <= hi <= at && Below(p, run, hi) && (p.offset.Some? ==> stated == at)
    requires low == if Astray(fields, p, run, stated) && run.NoRun? && hi == at then hi - 1 else hi
    requires low <= at
    requires var f := fields[0];
             FallShort(fields[1..], PlanNext(p, f, TypeLen(f.typ)), RunNext(run, f),
                       Sought(p, f, 0, true, a) + UnitHere(f, run), low + UnitHere(f, run), at + UnitHere(f, run),
                       stated + UsedHere(f, run), values)
    ensures FallShort(fields, p, run, a, hi, at, stated, values)
  {
    hide PlanNext, TypeLen, Below, SpanFields, SpanHere, StrayFields, CalcSize, UnsplitFields, SupportedFields;
    var f, rest := fields[0], fields[1..];
    BitsLength(fields, p);
    StrayStep(fields, p, run, stated, values);
    SpanStep(fields, p, run, a, values, true);
    SpanStep(fields, p, run, at, values, false);
    if UnsplitFields(fields, p, run) { UnsplitStep(fields, p, run); }
    if Astray(fields, p, run, stated) && run.Run? { CutStopsShort(fields, p, run, a, hi, at, values); }
  }

  lemma UnsplitStep(fields: seq<Field>, p: Plan, run: Run)
    requires fields != [] && UnsplitFields(fields, p, run)
    ensures var f := fields[0];
            && !(f.bits > 0 && run.Run? && IsSought(p, f) && AllBits(fields[1..]))
            && UnsplitFields(fields[1..], PlanNext(p, f, TypeLen(f.typ)), RunNext(run, f))
  {}

  /** A reader sent back in the middle of the last run stays there. */
  lemma CutStopsShort(fields: seq<Field>, p: Plan, run: Run, a: nat, hi: nat, at: nat, values: map<string, Value>)
    requires fields != [] && fields[0].bits > 0 && SupportedFields(fields, run) && run.Run?
    requires hi <= at && Below(p, run, hi) && IsSought(p, fields[0]) && AllBits(fields[1..])
    ensures SpanFields(fields, p, run, a, values, true) < SpanFields(fields, p, run, at, values, false)
  {
    hide PlanNext, TypeLen, Below, SpanFields, SpanHere;
    var f, rest := fields[0], fields[1..];
    var p', run' := PlanNext(p, f, TypeLen(f.typ)), RunNext(run, f);
    SplitIsBehind(fields, p, run, hi);
    SpanStep(fields, p, run, a, values, true);
    SpanStep(fields, p, run, at, values, false);
    LastRun(rest, p', run', PlanOffset(p, f).value, values, true);
    LastRun(rest, p', run', at, values, false);
  }

  lemma BitsLength(fields: seq<Field>, p: Plan)
    requires fields != [] && fields[0].bits > 0
    ensures var p' := PlanNext(p, fields[0], TypeLen(fields[0].typ));
            p.offset.Some? ==>
              p'.offset.Some? && CalcSize(fields, p, p.offset.value) == CalcSize(fields[1..], p', p'.offset.value)
  {
    hide TypeLen, CalcSize;
    if p.offset.Some? { BitsCounted(fields, p, p.offset.value); }
  }

  lemma BitsCounted(fields: seq<Field>, p: Plan, size: nat)
    requires fields != [] && fields[0].bits > 0
    ensures CalcSize(fields, p, size)
         == CalcSize(fields[1..], PlanNext(p, fields[0], TypeLen(fields[0].typ)),
                     if OpensUnit(p, fields[0]) then size + UnitSize(fields[0]) else size)
  {
    hide TypeLen, PlanNext;
  }

  lemma {:induction false} ShortPlain(fields: seq<Field>, p: Plan, run: Run, a: nat, hi: nat, at: nat, stated: nat,
      start: nat, src: Source, b: BitState, r: map<string, Value>)
    requires fields != [] && fields[0].bits == 0
    requires SupportedFields(fields, run) && Loaded(run, b) && NestedUnsplit(fields)
    requires a <= hi <= at && Below(p, run, hi) && (p.offset.Some? ==> stated == at)
    requires var x := ReadFields(fields, p, start, src, false, start + at, b, r); x.Ok? && x.full
    ensures FallShort(fields, p, run, a, hi, at, stated,
        ReadFields(fields, p, start, src, false, start + at, b, r).value)
    decreases fields, 0
  {
    hide *;
    var f, rest := fields[0], fields[1..];
    var p' := PlanNext(p, f, TypeLen(f.typ));
    var x := ReadType(f.typ, r, src, false, start + at);
    PlainReads(fields, p, run, start, src, at, b, r);
    var r' := r[f.name := x.value];
    FirstIsFresh(fields, run);
    SpanTypeIs(f.typ, r, src, false, start + at);
    ShortType(f.typ, r, src, start + at);
    var span, seek := SpanType(f.typ, x.value, false), SpanType(f.typ, x.value, true);
    NestedRest(fields);
    var late := StrayType(f.typ, x.value) || (Astray(fields, p, run, stated) && hi == at);
    LowPlain(fields, p, run, a, hi, at, stated, span, seek, x.value);
    var low := if late then hi + span - 1 else hi + span;
    StatedAfter(f, p, r, src, start, at, stated, run);
    ShortFields(rest, p', NoRun, Sought(p, f, 0, true, a) + seek, low, at + span, stated + UsedHere(f, run), start,
                src, IDLE, r');
    Kept(rest, p', start, src, false, x.pos, IDLE, r', f.name);
    PlainFallsShort(fields, p, run, a, hi, at, stated, ReadFields(rest, p', start, src, false, x.pos, IDLE, r').value,
        x.value);
  }

  lemma PlainReads(fields: seq<Field>, p: Plan, run: Run, start: nat, src: Source, at: nat, b: BitState,
      r: map<string, Value>)
    requires fields != [] && fields[0].bits == 0 && SupportedFields(fields, run) && NestedUnsplit(fields)
    requires var x := ReadFields(fields, p, start, src, false, start + at, b, r); x.Ok? && x.full
    ensures var f := fields[0];
            var x := ReadType(f.typ, r, src, false, start + at);
            && x.Ok? && x.full
            && SupportedType(f.typ) && UnsplitElem(f.typ.elem) && SupportedFields(fields[1..], NoRun)
            && RunNext(run, f) == NoRun && Loaded(NoRun, IDLE)
            && var y := ReadFields(fields[1..], PlanNext(p, f, TypeLen(f.typ)), start, src, false, x.pos, IDLE,
                                   r[f.name := x.value]);
               && y.Ok? && y.full
               && y.value == ReadFields(fields, p, start, src, false, start + at, b, r).value
  {
    hide ReadType, PlanNext, TypeLen, SupportedType, UnsplitElem;
  }

  /** Where the plan knows the next offset, that is where the reader that reads on is. */
  lemma StatedAfter(f: Field, p: Plan, r: map<string, Value>, src: Source, start: nat, at: nat, stated: nat, run: Run)
    requires f.bits == 0 && SupportedType(f.typ) && (p.offset.Some? ==> stated == at)
    requires var x := ReadType(f.typ, r, src, false, start + at); x.Ok? && x.full
    ensures var x := ReadType(f.typ, r, src, false, start + at);
            PlanNext(p, f, TypeLen(f.typ)).offset.Some? ==>
              stated + UsedHere(f, run) == at + SpanType(f.typ, x.value, false)
  {
    hide ReadType, SpanType, TypeLen;
    KnownTogether(f.typ);
    SpanTypeIs(f.typ, r, src, false, start + at);
    if UsedType(f.typ).Some? { ConsumedType(f.typ, r, src, start + at); }
  }

  lemma LowPlain(fields: seq<Field>, p: Plan, run: Run, a: nat, hi: nat, at: nat, stated: nat, span: nat, seek: nat,
      v: Value)
    requires fields != [] && fields[0].bits == 0
    requires a <= hi <= at && Below(p, run, hi) && (p.offset.Some? ==> stated == at)
    requires Short(seek, TypeLen(fields[0].typ), span, StrayType(fields[0].typ, v))
    ensures var f := fields[0];
            var late := StrayType(f.typ, v) || (Astray(fields, p, run, stated) && hi == at);
            && (late ==> hi + span > 0)
            && var low := if late then hi + span - 1 else hi + span;
               && Sought(p, f, 0, true, a) + seek <= low && Below(PlanNext(p, f, TypeLen(f.typ)), NoRun, low)
  {
    hide TypeLen, StrayType;
  }

  lemma PlainFallsShort(fields: seq<Field>, p: Plan, run: Run, a: nat, hi: nat, at: nat, stated: nat,
      values: map<string, Value>, v: Value)
    requires fields != [] && fields[0].bits == 0 && fields[0].name in values && values[fields[0].name] == v
    requires a <= hi <= at && Below(p, run, hi) && (p.offset.Some? ==> stated == at)
    requires var f := fields[0];
             var span, seek := SpanType(f.typ, v, false), SpanType(f.typ, v, true);
             var late := StrayType(f.typ, v) || (Astray(fields, p, run, stated) && hi == at);
             && (late ==> hi + span > 0) && Short(seek, TypeLen(f.typ), span, StrayType(f.typ, v))
             && var low := if late then hi + span - 1 else hi + span;
                FallShort(fields[1..], PlanNext(p, f, TypeLen(f.typ)), NoRun, Sought(p, f, 0, true, a) + seek, low,
                          at + span, stated + UsedHere(f, run), values)
    ensures FallShort(fields, p, run, a, hi, at, stated, values)
  {
    hide PlanNext, TypeLen, Below, Astray, SpanType, StrayType, UnsplitElem, SpanFields, SpanHere, StrayFields,
        CalcSize;
    StrayStep(fields, p, run, stated, values);
    SpanStep(fields, p, run, a, values, true);
    SpanStep(fields, p, run, at, values, false);
    if p.offset.Some? && CalcSize(fields, p, p.offset.value).Some? { PlainLength(fields, p, p.offset.value); }
  }

  lemma PlainLength(fields: seq<Field>, p: Plan, o: nat)
    requires fields != [] && fields[0].bits == 0 && p.offset == Some(o) && CalcSize(fields, p, o).Some?
    ensures TypeLen(fields[0].typ).Some?
    ensures var p', end := PlanNext(p, fields[0], TypeLen(fields[0].typ)), o + TypeLen(fields[0].typ).value;
            p'.offset == Some(end) && CalcSize(fields, p, o) == CalcSize(fields[1..], p', end)
  {
  }

  // -------------------------------------------------- exactly when seeks do harm

  predicate Decided(e: Elem) { e.Struct? ==> NestedUnsplit(e.fields) }

  /** On every input that holds all of its bytes: the reader that seeks gives the value and the position
      of the one that reads on if and only if no seek goes astray in that value; unless a structure
      inside ends in a run that its own plan cuts, where it depends on the bytes. */
  lemma SeeksExactly(e: Elem, src: Source, pos: nat)
    requires SupportedElem(e) && Decided(e) && ReadElem(e, src, false, pos).Ok? && ReadElem(e, src, false, pos).full
    ensures ReadElem(e, src, true, pos) == ReadElem(e, src, false, pos) <==>
            !StrayElem(e, ReadElem(e, src, false, pos).value)
  {
    hide ReadElem, SpanElem;
    var x := ReadElem(e, src, false, pos);
    if StrayElem(e, x.value) {
      SpanElemIs(e, src, false, pos);
      StrayStopsShort(e, src, pos);
      if ReadElem(e, src, true, pos) == x { SpanElemIs(e, src, true, pos); }
    } else {
      SameElem(e, src, pos);
    }
  }

  lemma StrayStopsShort(e: Elem, src: Source, pos: nat)
    requires SupportedElem(e) && Decided(e) && ReadElem(e, src, false, pos).Ok? && ReadElem(e, src, false, pos).full
    requires StrayElem(e, ReadElem(e, src, false, pos).value)
    ensures var v := ReadElem(e, src, false, pos).value; SpanElem(e, v, true) < SpanElem(e, v, false)
  {
    ShortFields(e.fields, START, NoRun, 0, 0, 0, 0, pos, src, IDLE, map[]);
  }

  // -------------------------------------------------- offsets that are right do no harm

  lemma {:induction false} InPlaceIsHarmless(fields: seq<Field>, p: Plan, run: Run, at: nat)
    requires SupportedFields(fields, run) && InPlaceFields(fields, p, run, at)
    ensures HarmlessFields(fields, p, run, at)
    decreases fields, 0
  {
    hide PlanNext, TypeLen;
    if fields != [] {
      var f := fields[0];
      if f.bits == 0 { InPlaceIsHarmlessElem(f.typ.elem); }
      InPlaceIsHarmless(fields[1..], PlanNext(p, f, TypeLen(f.typ)), RunNext(run, f), at + UsedHere(f, run));
    }
  }

  lemma {:induction false} InPlaceIsHarmlessElem(e: Elem)
    requires SupportedElem(e)
    ensures InPlaceElem(e) ==> HarmlessElem(e)
    decreases e, 1
  {
    if e.Struct? && InPlaceElem(e) { InPlaceIsHarmless(e.fields, START, NoRun, 0); }
  }

  /** Where no two runs share a unit, no seek goes astray. */
  lemma UnsharedIsHarmless(e: Elem)
    requires SupportedElem(e) && UnsharedElem(e)
    ensures HarmlessElem(e)
  {
    InPlaceExactlyElem(e);
    InPlaceIsHarmlessElem(e);
  }
}
