/** The round trip for whole structures: nested, with arrays, dynamic lengths and bit fields. */
module StructureRoundTrip {
  import opened Bits
  import opened Bytes
  import opened Text
  import opened Layout
  import opened Offsets
  import opened Seeks
  import opened SeekLimits
  import opened BitFields
  import opened RoundTrip

  // -------------------------------------------------- runs of bit fields in a structure

  /** The bit buffer when the run of bit fields at the front is finished. */
  function Finished(fields: seq<Field>, values: map<string, Value>, c: BitState, endian: Endian): BitState
    decreases fields
  {
    if fields == [] || fields[0].bits == 0 then c
    else
      var f := fields[0];
      if BitScalar(f).None? || f.name !in values || !values[f.name].Int? then c
      else
        var c' := PutBits(c, BitScalar(f).value, values[f.name].i, f.bits, endian);
        if c'.None? then c else Finished(fields[1..], values, c'.value, endian)
  }

  /** The bytes after the storage unit of the run at the front. */
  function AfterRun(fields: seq<Field>, values: map<string, Value>, endian: Endian): Option<seq<byte>>
    decreases fields
  {
    if fields == [] then Some([])
    else if fields[0].name !in values then None
    else if fields[0].bits > 0 then AfterRun(fields[1..], values, endian)
    else Concat(WriteType(fields[0].typ, values[fields[0].name], endian),
        WriteFields(fields[1..], values, IDLE, endian))
  }

  /** The writer's buffer is the unit of the run. */
  predicate Filling(run: Run, c: BitState, endian: Endian) {
    run.Run? && Writing(c, endian) && c.typ == Some(run.unit) && c.remaining == run.left
    && !run.unit.Char? && !ScalarSigned(run.unit)
  }

  lemma PutField(f: Field, v: nat, run: Run, c: BitState, w: nat, endian: Endian)
    requires Filling(run, c, endian) && BitScalar(f) == Some(run.unit) && 0 < f.bits <= run.left && v < Pow2(f.bits)
    ensures var d := PutBits(c, run.unit, v, f.bits, endian);
            && d.Some? && Filling(RunNext(run, f), d.value, endian)
            && (Agrees(w, d.value, endian) ==>
                  && Agrees(w, c, endian)
                  && TakeBits(Reading(w, c, endian), f.bits, endian) == Some((v, Reading(w, d.value, endian))))
  {
    hide PutBits, TakeBits, Writing, Agrees, Reading;
    TakeWhatWasPut(c, v, f.bits, w, endian);
  }

  /** The run is written as one unit, whose word agrees with every stage of the writing. */
  lemma {:induction false} RunWritten(fields: seq<Field>, values: map<string, Value>, run: Run, c: BitState,
      r: map<string, Value>, src: Source)
    requires Filling(run, c, src.endian) && SupportedFields(fields, run) && FitsFields(fields, values, r, src)
    ensures var d := Finished(fields, values, c, src.endian);
            && Writing(d, src.endian) && d.typ == c.typ && 0 <= d.buffer && Agrees(d.buffer, c, src.endian)
            && WriteFields(fields, values, c, src.endian)
                == Concat(Flushed(d, src.endian), AfterRun(fields, values, src.endian))
    decreases fields
  {
    hide Writing, Agrees, TakeBits, PutBits, Flushed, Pow2, ScalarSize, Reading;
    if fields == [] || fields[0].bits == 0 {
      AgreesWithItself(c, src.endian);
      WritingNat(c, src.endian);
      ConcatNothing(Flushed(c, src.endian));
    } else {
      var f := fields[0];
      var v := values[f.name].i;
      PutField(f, v, run, c, 0, src.endian);
      var d := PutBits(c, run.unit, v, f.bits, src.endian).value;
      RunWritten(fields[1..], values, RunNext(run, f), d, r[f.name := values[f.name]], src);
      PutField(f, v, run, c, Finished(fields[1..], values, d, src.endian).buffer, src.endian);
    }
  }

  lemma WritingNat(c: BitState, endian: Endian)
    requires Writing(c, endian)
    ensures 0 <= c.buffer
  {}

  lemma ConcatNothing(a: Option<seq<byte>>)
    ensures Concat(a, Some([])) == a == Concat(Some([]), a)
  {
    if a.Some? { assert a.value + [] == a.value == [] + a.value; }
  }

  /** A flushed unit reads back as its word. */
  lemma UnitRoundTrip(d: BitState, s: Scalar, src: Source, pos: nat)
    requires Writing(d, src.endian) && d.typ == Some(s) && !s.Char? && !ScalarSigned(s)
    ensures Flushed(d, src.endian).Some? && |Flushed(d, src.endian).value| == ScalarSize(s)
    ensures Holds(src, pos, Flushed(d, src.endian).value) ==>
              ReadScalar(s, src, pos) == Ok(Int(d.buffer), pos + ScalarSize(s), true)
  {
    hide Decode, Encode, ReadScalar, Holds;
    FitsUnit(d, src.endian);
    ScalarRoundTrip(s, Int(d.buffer), src, pos);
  }

  // -------------------------------------------------- the map of values

  function Filled(r: map<string, Value>, fields: seq<Field>, values: map<string, Value>): map<string, Value>
    decreases fields
  {
    if fields == [] || fields[0].name !in values then r
    else Filled(r[fields[0].name := values[fields[0].name]], fields[1..], values)
  }

  lemma {:induction false} FilledAll(r: map<string, Value>, fields: seq<Field>, values: map<string, Value>)
    requires Names(fields) <= values.Keys && r.Keys <= values.Keys
    requires forall k | k in r :: r[k] == values[k]
    ensures Filled(r, fields, values).Keys == r.Keys + Names(fields)
    ensures forall k | k in Filled(r, fields, values) :: k in values && Filled(r, fields, values)[k] == values[k]
    decreases fields
  {
    if fields != [] {
      FilledAll(r[fields[0].name := values[fields[0].name]], fields[1..], values);
    }
  }

  // -------------------------------------------------- structures

  lemma {:induction false} ElemRoundTrip(e: Elem, v: Value, src: Source, pos: nat)
    requires SupportedElem(e) && FitsElem(e, v, src)
    ensures WriteElem(e, v, src.endian).Some?
    ensures var out := WriteElem(e, v, src.endian).value;
            Holds(src, pos, out) ==> ReadElem(e, src, false, pos) == Ok(v, pos + |out|, true)
    decreases e, 1
  {
    match e
    case Single(s) => ScalarRoundTrip(s, v, src, pos);
    case Struct(fields) =>
      FieldsRoundTrip(fields, START, NoRun, pos, v.values, IDLE, IDLE, 0, src, pos, map[]);
      FilledAll(map[], fields, v.values);
      assert Filled(map[], fields, v.values) == v.values;
  }

  lemma {:induction false} ManyRoundTrip(e: Elem, vs: seq<Value>, src: Source, pos: nat)
    requires SupportedElem(e) && forall k | 0 <= k < |vs| :: FitsElem(e, vs[k], src)
    ensures WriteMany(e, vs, src.endian).Some?
    ensures var out := WriteMany(e, vs, src.endian).value;
            Holds(src, pos, out) ==> ReadMany(e, |vs|, src, false, pos) == Ok(vs, pos + |out|, true)
    decreases e, 2, |vs|
  {
    hide Holds, ReadElem, WriteElem, FitsElem, SupportedElem;
    if vs != [] {
      ElemRoundTrip(e, vs[0], src, pos);
      var a := WriteElem(e, vs[0], src.endian).value;
      ManyRoundTrip(e, vs[1..], src, pos + |a|);
      var b := WriteMany(e, vs[1..], src.endian).value;
      if Holds(src, pos, a + b) {
        HoldsBoth(src, pos, a, b);
        assert [vs[0]] + vs[1..] == vs;
      }
    }
  }

  lemma {:induction false} CountedRoundTrip(e: Elem, n: nat, v: Value, src: Source, pos: nat)
    requires SupportedElem(e) && FitsCounted(e, n, v, src)
    ensures var out := if e.Single? then WriteScalars(e.scalar, v, src.endian) else WriteMany(e, v.vs, src.endian);
            && out.Some?
            && (Holds(src, pos, out.value) ==> ReadCounted(e, n, src, false, pos) == Ok(v, pos + |out.value|, true))
    decreases e, 3
  {
    match e
    case Single(s) => ScalarsRoundTrip(s, n, v, src, pos);
    case Struct(_) => ManyRoundTrip(e, v.vs, src, pos);
  }

  lemma {:induction false} TypeRoundTrip(t: Type, v: Value, r: map<string, Value>, src: Source, pos: nat)
    requires SupportedType(t) && FitsType(t, v, r, src)
    ensures WriteType(t, v, src.endian).Some?
    ensures var out := WriteType(t, v, src.endian).value;
            Holds(src, pos, out) ==> ReadType(t, r, src, false, pos) == Ok(v, pos + |out|, true)
    decreases t, 4
  {
    hide WriteElem, WriteMany, WriteScalars, WriteUntilZero, ReadElem, ReadCounted, ReadUntilZero, Holds, FitsElem,
        FitsUntilZero, SupportedElem, Evaluated;
    match t
    case One(e) => ElemRoundTrip(e, v, src, pos);
    case Many(e, Static(n)) => CountedRoundTrip(e, n, v, src, pos);
    case Many(e, Dynamic(expr)) => CountedRoundTrip(e, Evaluated(expr, r, src).value, v, src, pos);
    case Many(e, NullTerminated) => UntilZeroRoundTrip(e.scalar, v, src, pos);
  }

  /** How far writer and reader have come: idle between runs; within a run the reader has loaded
      the unit whose word is w. */
  predicate InStep(fields: seq<Field>, values: map<string, Value>, run: Run, c: BitState, b: BitState, w: nat,
      endian: Endian) {
    if run.NoRun? then c == IDLE && b == IDLE
    else
      && Filling(run, c, endian)
      && w == Finished(fields, values, c, endian).buffer
      && b == Reading(w, c, endian)
  }

  function Remaining(fields: seq<Field>, values: map<string, Value>, run: Run, endian: Endian): Option<seq<byte>> {
    if run.NoRun? then WriteFields(fields, values, IDLE, endian) else AfterRun(fields, values, endian)
  }

  lemma {:induction false} FieldsRoundTrip(fields: seq<Field>, p: Plan, run: Run, start: nat,
      values: map<string, Value>,
      c: BitState, b: BitState, w: nat, src: Source, pos: nat, r: map<string, Value>)
    requires SupportedFields(fields, run) && FitsFields(fields, values, r, src)
    requires InStep(fields, values, run, c, b, w, src.endian)
    ensures Remaining(fields, values, run, src.endian).Some?
    ensures var out := Remaining(fields, values, run, src.endian).value;
            var x := ReadFields(fields, p, start, src, false, pos, b, r);
            Holds(src, pos, out) ==> x == Ok(Filled(r, fields, values), pos + |out|, true)
    decreases fields, 1
  {
    hide *;
    if fields == [] {
      NothingRoundTrip(p, run, start, values, c, b, w, src, pos, r);
    } else if fields[0].bits > 0 {
      BitsRoundTrip(fields, p, run, start, values, c, b, w, src, pos, r);
    } else {
      PlainRoundTrip(fields, p, run, start, values, c, b, w, src, pos, r);
    }
  }

  lemma NothingRoundTrip(p: Plan, run: Run, start: nat, values: map<string, Value>,
      c: BitState, b: BitState, w: nat, src: Source, pos: nat, r: map<string, Value>)
    requires InStep([], values, run, c, b, w, src.endian)
    ensures Remaining([], values, run, src.endian) == Some([])
    ensures ReadFields([], p, start, src, false, pos, b, r) == Ok(Filled(r, [], values), pos, true)
  {
  }

  /** A field that is no bit field ends the run before it. */
  lemma {:induction false} PlainRoundTrip(fields: seq<Field>, p: Plan, run: Run, start: nat, values: map<string, Value>,
      c: BitState, b: BitState, w: nat, src: Source, pos: nat, r: map<string, Value>)
    requires fields != [] && fields[0].bits == 0
    requires SupportedFields(fields, run) && FitsFields(fields, values, r, src)
    requires InStep(fields, values, run, c, b, w, src.endian)
    ensures Remaining(fields, values, run, src.endian).Some?
    ensures var out := Remaining(fields, values, run, src.endian).value;
            var x := ReadFields(fields, p, start, src, false, pos, b, r);
            Holds(src, pos, out) ==> x == Ok(Filled(r, fields, values), pos + |out|, true)
    decreases fields, 0
  {
    hide Holds, ReadType, WriteType, FitsType, SupportedType, PlanNext, TypeLen, Filling, Finished, Reading,
        ReadFields, Filled;
    var f, rest := fields[0], fields[1..];
    var p' := PlanNext(p, f, TypeLen(f.typ));
    TypeRoundTrip(f.typ, values[f.name], r, src, pos);
    var x := WriteType(f.typ, values[f.name], src.endian).value;
    FieldsRoundTrip(rest, p', NoRun, start, values, IDLE, IDLE, 0, src, pos + |x|, r[f.name := values[f.name]]);
    var y := WriteFields(rest, values, IDLE, src.endian).value;
    ConcatNothing(Some(x + y));
    if Holds(src, pos, x + y) {
      HoldsBoth(src, pos, x, y);
      ReadsPlain(fields, p, start, src, pos, b, r, values, pos + |x|);
    }
  }

  lemma ReadsPlain(fields: seq<Field>, p: Plan, start: nat, src: Source, pos: nat, b: BitState, r: map<string, Value>,
      values: map<string, Value>, q: nat)
    requires fields != [] && fields[0].bits == 0 && fields[0].name in values
    requires ReadType(fields[0].typ, r, src, false, pos) == Ok(values[fields[0].name], q, true)
    ensures Filled(r, fields, values) == Filled(r[fields[0].name := values[fields[0].name]], fields[1..], values)
    ensures ReadFields(fields, p, start, src, false, pos, b, r)
         == Noting(true, ReadFields(fields[1..], PlanNext(p, fields[0], TypeLen(fields[0].typ)), start, src, false, q,
                                    IDLE, r[fields[0].name := values[fields[0].name]]))
  {
    hide ReadType, PlanNext, TypeLen;
  }

  /** The first bit field of a run makes the reader load the unit. */
  lemma RunBegins(fields: seq<Field>, values: map<string, Value>, r: map<string, Value>, src: Source, pos: nat)
      returns (d: BitState, b: BitState, w: nat, unit: seq<byte>)
    requires fields != [] && fields[0].bits > 0
    requires SupportedFields(fields, NoRun) && FitsFields(fields, values, r, src)
    ensures InStep(fields[1..], values, RunNext(NoRun, fields[0]), d, b, w, src.endian)
    ensures |unit| == UnitSize(fields[0])
    ensures WriteFields(fields, values, IDLE, src.endian)
        == Concat(Some(unit), AfterRun(fields[1..], values, src.endian))
    ensures values[fields[0].name].Int?
    ensures var x := ReadBits(IDLE, BitScalar(fields[0]).value, fields[0].bits, src, pos);
            Holds(src, pos, unit) ==> x == Ok((values[fields[0].name].i, b), pos + |unit|, true)
  {
    hide Holds, Writing, Agrees, TakeBits, PutBits, Flushed, Pow2, ScalarSize, Reading, ReadScalar, PlanNext, TypeLen;
    var f, rest := fields[0], fields[1..];
    var s, v := BitScalar(f).value, values[f.name].i;
    var whole := Run(s, ScalarSize(s) * 8);
    OpenedIsEmpty(s, src.endian);
    FirstPut(s, v, f.bits, src.endian);
    OpenedFills(s, src.endian);
    PutField(f, v, whole, Opened(s), 0, src.endian);
    d := PutBits(Opened(s), s, v, f.bits, src.endian).value;
    var run := RunNext(NoRun, f);
    RunWritten(rest, values, run, d, r[f.name := values[f.name]], src);
    var done := Finished(rest, values, d, src.endian);
    w := done.buffer;
    PutField(f, v, whole, Opened(s), w, src.endian);
    ReadFromStart(s, w, src.endian);
    UnitRoundTrip(done, s, src, pos);
    unit := Flushed(done, src.endian).value;
    InUnit(d, src.endian);
    b := Reading(w, d, src.endian);
  }

  lemma InUnit(d: BitState, endian: Endian)
    requires Writing(d, endian)
    ensures d.typ.Some? && 0 <= d.remaining <= UnitBits(d)
  {}

  lemma OpenedFills(s: Scalar, endian: Endian)
    requires !s.Char? && !ScalarSigned(s)
    ensures Filling(Run(s, ScalarSize(s) * 8), Opened(s), endian)
  {
    OpenedIsEmpty(s, endian);
  }

  /** The next bit fields are taken from it. */
  lemma RunContinues(fields: seq<Field>, values: map<string, Value>, run: Run, c: BitState, b: BitState, w: nat,
      r: map<string, Value>, src: Source, pos: nat)
      returns (d: BitState, b': BitState)
    requires fields != [] && fields[0].bits > 0 && run.Run?
    requires SupportedFields(fields, run) && FitsFields(fields, values, r, src)
    requires InStep(fields, values, run, c, b, w, src.endian)
    ensures InStep(fields[1..], values, RunNext(run, fields[0]), d, b', w, src.endian)
    ensures values[fields[0].name].Int?
    ensures ReadBits(b, BitScalar(fields[0]).value, fields[0].bits, src, pos)
        == Ok((values[fields[0].name].i, b'), pos, true)
  {
    hide Holds, Agrees, TakeBits, PutBits, Flushed, Pow2, ScalarSize, ReadScalar, PlanNext, TypeLen;
    var f, rest := fields[0], fields[1..];
    var v := values[f.name].i;
    PutField(f, v, run, c, w, src.endian);
    d := PutBits(c, run.unit, v, f.bits, src.endian).value;
    RunWritten(rest, values, RunNext(run, f), d, r[f.name := values[f.name]], src);
    b' := Reading(w, d, src.endian);
  }

  lemma {:induction false} BitsRoundTrip(fields: seq<Field>, p: Plan, run: Run, start: nat, values: map<string, Value>,
      c: BitState, b: BitState, w: nat, src: Source, pos: nat, r: map<string, Value>)
    requires fields != [] && fields[0].bits > 0
    requires SupportedFields(fields, run) && FitsFields(fields, values, r, src)
    requires InStep(fields, values, run, c, b, w, src.endian)
    ensures Remaining(fields, values, run, src.endian).Some?
    ensures var out := Remaining(fields, values, run, src.endian).value;
            var x := ReadFields(fields, p, start, src, false, pos, b, r);
            Holds(src, pos, out) ==> x == Ok(Filled(r, fields, values), pos + |out|, true)
    decreases fields, 0
  {
    hide Holds, Agrees, TakeBits, PutBits, Flushed, Pow2, ScalarSize, ReadScalar, PlanNext, TypeLen, Filling,
        Finished, Reading, ReadBits, ReadFields, Filled;
    var f, rest := fields[0], fields[1..];
    var p', run' := PlanNext(p, f, TypeLen(f.typ)), RunNext(run, f);
    var r' := r[f.name := values[f.name]];
    if run.Run? {
      var d, b' := RunContinues(fields, values, run, c, b, w, r, src, pos);
      FieldsRoundTrip(rest, p', run', start, values, d, b', w, src, pos, r');
      ReadsBitField(fields, p, start, src, pos, b, r, values, pos, b');
    } else {
      var d, b', w', unit := RunBegins(fields, values, r, src, pos);
      FieldsRoundTrip(rest, p', run', start, values, d, b', w', src, pos + |unit|, r');
      var tail := AfterRun(rest, values, src.endian).value;
      if Holds(src, pos, unit + tail) {
        HoldsBoth(src, pos, unit, tail);
        ReadsBitField(fields, p, start, src, pos, b, r, values, pos + |unit|, b');
      }
    }
  }

  lemma ReadsBitField(fields: seq<Field>, p: Plan, start: nat, src: Source, pos: nat, b: BitState,
      r: map<string, Value>, values: map<string, Value>, q: nat, b': BitState)
    requires fields != [] && fields[0].bits > 0 && fields[0].name in values && values[fields[0].name].Int?
    requires BitScalar(fields[0]).Some?
    requires ReadBits(b, BitScalar(fields[0]).value, fields[0].bits, src, pos)
          == Ok((values[fields[0].name].i, b'), q, true)
    ensures Filled(r, fields, values) == Filled(r[fields[0].name := values[fields[0].name]], fields[1..], values)
    ensures ReadFields(fields, p, start, src, false, pos, b, r)
         == Noting(true, ReadFields(fields[1..], PlanNext(p, fields[0], TypeLen(fields[0].typ)), start, src, false, q,
                                    b', r[fields[0].name := values[fields[0].name]]))
  {
    hide ReadBits, PlanNext, TypeLen;
  }

  /** The round trip, for every supported layout and every consistent instance: Structure._read, which
      obeys stated offsets, gives back the instance from the bytes that Structure._write gave and
      consumes exactly those, if no seek goes astray in it, and only then; unless a structure inside
      ends in a run that its own plan cuts. */
  lemma ReadUndoesWrite(e: Elem, v: Value, src: Source, pos: nat)
    requires SupportedElem(e) && FitsElem(e, v, src)
    ensures WriteElem(e, v, src.endian).Some?
    ensures var out := WriteElem(e, v, src.endian).value;
            Holds(src, pos, out) ==>
              && (!StrayElem(e, v) ==> ReadElem(e, src, true, pos) == Ok(v, pos + |out|, true))
              && (Decided(e) ==> (ReadElem(e, src, true, pos) == Ok(v, pos + |out|, true) <==> !StrayElem(e, v)))
  {
    hide ReadElem, FitsElem, StrayElem;
    ElemRoundTrip(e, v, src, pos);
    if Holds(src, pos, WriteElem(e, v, src.endian).value) {
      if !StrayElem(e, v) { SameElem(e, src, pos); }
      if Decided(e) { SeeksExactly(e, src, pos); }
    }
  }

  /** In a harmless layout that is so for every consistent instance. */
  lemma HarmlessRoundTrip(e: Elem, v: Value, src: Source, pos: nat)
    requires SupportedElem(e) && HarmlessElem(e) && FitsElem(e, v, src)
    ensures WriteElem(e, v, src.endian).Some?
    ensures var out := WriteElem(e, v, src.endian).value;
            Holds(src, pos, out) ==> ReadElem(e, src, true, pos) == Ok(v, pos + |out|, true)
  {
    hide ReadElem, FitsElem, HarmlessElem;
    ElemRoundTrip(e, v, src, pos);
    if Holds(src, pos, WriteElem(e, v, src.endian).value) { NoHarmElem(e, src, pos); }
  }

  // -------------------------------------------------- a shared unit breaks it

  const Byte := One(Single(Packed(U8)))

  /** struct { uint8 a : 4; uint8 x; uint8 b : 4; uint8 y; } and its tails */
  const Y_ONLY: seq<Field> := [Field("y", Byte, 0)]
  const FROM_B: seq<Field> := [Field("b", Byte, 4)] + Y_ONLY
  const FROM_X: seq<Field> := [Field("x", Byte, 0)] + FROM_B
  const SHARED_UNIT: seq<Field> := [Field("a", Byte, 4)] + FROM_X

  const SHARED_INSTANCE := map["a" := Int(1), "x" := Int(2), "b" := Int(3), "y" := Int(4)]

  lemma Tails()
    ensures SHARED_UNIT[0] == Field("a", Byte, 4) && SHARED_UNIT[1..] == FROM_X
    ensures FROM_X[0] == Field("x", Byte, 0) && FROM_X[1..] == FROM_B
    ensures FROM_B[0] == Field("b", Byte, 4) && FROM_B[1..] == Y_ONLY
    ensures Y_ONLY[0] == Field("y", Byte, 0) && Y_ONLY[1..] == []
  {}

  /** What one byte and one nibble read give. */
  lemma ReadByte(src: Source, pos: nat)
    requires pos < |src.data|
    ensures ReadScalar(Packed(U8), src, pos) == Ok(Int(src.data[pos]), pos + 1, true)
  {
    hide Decode;
    assert Chunk(src, pos, 1) == [src.data[pos]];
    DecodeByte(src.data[pos], src.endian);
  }

  lemma DecodeByte(v: byte, endian: Endian)
    ensures Decode([v], 1, false, endian) == v
  {
    ByteValue(v);
    ByteReversed(v);
    hide BigValue, Reverse, Pow2, Low, Shr;
  }

  lemma ByteReversed(v: byte)
    ensures Reverse([v]) == [v]
  {
    assert [v][1..] == [] && Reverse<byte>([]) == [];
  }

  lemma ByteValue(v: byte)
    ensures BigValue([v]) == v
  {
    assert [v][..0] == [] && BigValue([]) == 0;
  }

  lemma ReadNibble(src: Source, pos: nat)
    requires pos < |src.data| && src.data[pos] < 16 && src.endian == Little
    ensures ReadBits(IDLE, Packed(U8), 4, src, pos)
         == Ok((src.data[pos] as int, BitState(Some(Packed(U8)), 0, 4)), pos + 1, true)
  {
    hide ReadScalar, Low, And, Shr;
    ReadByte(src, pos);
    var v := src.data[pos];
    ShlOne(4);
    AndMask(v, 4);
    Sixteen();
    LowSmall(v, 4);
  }

  lemma Sixteen()
    ensures Pow2(4) == 16
  {}

  /** The other nibble is taken from what the buffer holds. */
  lemma HighNibble(src: Source, pos: nat)
    requires src.endian == Little
    ensures ReadBits(BitState(Some(Packed(U8)), 0, 4), Packed(U8), 4, src, pos)
         == Ok((0, BitState(Some(Packed(U8)), 0, 0)), pos, true)
  {
    hide Low, And, Shr;
    ShlOne(4);
    AndMask(0, 4);
    Sixteen();
    LowSmall(0, 4);
    ShrZero(4);
  }

  lemma ShrZero(n: nat)
    ensures Shr(0, n) == 0
  {}

  lemma SharedUnitIsSupported(src: Source)
    ensures SupportedElem(Struct(SHARED_UNIT)) && Decided(Struct(SHARED_UNIT))
    ensures FitsElem(Struct(SHARED_UNIT), Inst(SHARED_INSTANCE), src)
    ensures StrayElem(Struct(SHARED_UNIT), Inst(SHARED_INSTANCE))
  {
    hide SupportedFields, StrayFields, FitsElem;
    SharedSupported();
    SharedGoesAstray(SHARED_INSTANCE);
    SharedInstanceFits(src);
  }

  lemma SharedSupported()
    ensures SupportedFields(SHARED_UNIT, NoRun)
  {
    hide SupportedFields;
    Tails();
    assert FROM_B[1].name == "y" && FROM_X[1].name == "b" && FROM_X[2].name == "y";
    SupportedNibble("y", 0, [], Run(Packed(U8), 4));
    assert Y_ONLY + [] == Y_ONLY;
    SupportedNibble("b", 4, Y_ONLY, NoRun);
    SupportedNibble("x", 0, FROM_B, Run(Packed(U8), 4));
    SupportedNibble("a", 4, FROM_X, NoRun);
  }

  lemma SupportedNibble(name: string, bits: nat, rest: seq<Field>, run: Run)
    requires (bits == 0 || (bits == 4 && run.NoRun?)) && forall k | 0 <= k < |rest| :: rest[k].name != name
    requires rest == [] || SupportedFields(rest, RunNext(run, Field(name, Byte, bits)))
    ensures SupportedFields([Field(name, Byte, bits)] + rest, run)
  {
    var fields := [Field(name, Byte, bits)] + rest;
    assert fields[1..] == rest;
    assert forall g | g in fields[1..] :: g.name != fields[0].name;
    assert SupportedType(Byte);
  }

  lemma SharedPlans()
    ensures PlanNext(START, SHARED_UNIT[0], TypeLen(Byte)) == Plan(Some(1), Some(Packed(U8)), 4)
    ensures PlanNext(Plan(Some(1), Some(Packed(U8)), 4), FROM_X[0], TypeLen(Byte)) == Plan(Some(2), Some(Packed(U8)), 4)
    ensures PlanNext(Plan(Some(2), Some(Packed(U8)), 4), FROM_B[0], TypeLen(Byte)) == Plan(Some(2), Some(Packed(U8)), 0)
  {
    Tails();
  }

  /** The offset stated for y is 2, where b is; it is at 3. */
  lemma SharedGoesAstray(values: map<string, Value>)
    ensures StrayFields(SHARED_UNIT, START, NoRun, 0, values)
  {
    hide StrayType, SupportedFields;
    Tails();
    SharedPlans();
    var p1, p2 := Plan(Some(1), Some(Packed(U8)), 4), Plan(Some(2), Some(Packed(U8)), 4);
    var p3 := Plan(Some(2), Some(Packed(U8)), 0);
    assert Astray(Y_ONLY, p3, Run(Packed(U8), 4), 3);
    assert StrayFields(Y_ONLY, p3, Run(Packed(U8), 4), 3, values);
    assert StrayFields(FROM_B, p2, NoRun, 2, values);
    assert StrayFields(FROM_X, p1, Run(Packed(U8), 4), 1, values);
  }

  /** Without y nothing is sought at a wrong offset, although b still shares the unit of a. */
  const B_ONLY: seq<Field> := [Field("b", Byte, 4)]
  const X_AND_B: seq<Field> := [Field("x", Byte, 0)] + B_ONLY
  const WITHOUT_Y: seq<Field> := [Field("a", Byte, 4)] + X_AND_B

  lemma WithoutYIsHarmless()
    ensures HarmlessElem(Struct(WITHOUT_Y)) && !UnsharedElem(Struct(WITHOUT_Y))
  {
    hide HarmlessFields, UnsharedFields;
    Tails();
    SharedPlans();
    var p1, p2 := Plan(Some(1), Some(Packed(U8)), 4), Plan(Some(2), Some(Packed(U8)), 4);
    WithoutYTails();
    OnlyB(p2);
    HarmlessStep(X_AND_B, p1, Run(Packed(U8), 4), 1, p2);
    HarmlessStep(WITHOUT_Y, START, NoRun, 0, p1);
  }

  lemma WithoutYTails()
    ensures X_AND_B[0] == Field("x", Byte, 0) && X_AND_B[1..] == B_ONLY
    ensures WITHOUT_Y[0] == Field("a", Byte, 4) && WITHOUT_Y[1..] == X_AND_B
  {}

  /** Neither a seek nor a shared unit lies before the rest. */
  lemma HarmlessStep(fields: seq<Field>, p: Plan, run: Run, at: nat, p': Plan)
    requires fields != [] && fields[0].typ == Byte && PlanNext(p, fields[0], TypeLen(Byte)) == p'
    requires !Astray(fields, p, run, at) && HarmlessFields(fields[1..], p', RunNext(run, fields[0]), at + 1)
    requires fields[0].bits > 0 ==> run.NoRun?
    ensures HarmlessFields(fields, p, run, at)
    ensures !UnsharedFields(fields[1..], p', RunNext(run, fields[0])) ==> !UnsharedFields(fields, p, run)
  {
    hide PlanNext, TypeLen, Astray;
    assert UsedHere(fields[0], run) == 1;
    assert HarmlessType(Byte);
  }

  lemma OnlyB(p: Plan)
    requires p == Plan(Some(2), Some(Packed(U8)), 4)
    ensures HarmlessFields(B_ONLY, p, NoRun, 2) && !UnsharedFields(B_ONLY, p, NoRun)
  {
    assert B_ONLY[1..] == [];
  }

  lemma SharedInstanceFits(src: Source)
    ensures FitsElem(Struct(SHARED_UNIT), Inst(SHARED_INSTANCE), src)
  {
    Tails();
    Sixteen();
    assert Names(Y_ONLY) == {"y"} && Names(FROM_B) == {"b", "y"} && Names(FROM_X) == {"x", "b", "y"};
    var values := SHARED_INSTANCE;
    assert values["a"] == Int(1) && values["x"] == Int(2) && values["b"] == Int(3) && values["y"] == Int(4);
    InByte(2);
    InByte(4);
    var r1 := map["a" := values["a"]];
    var r2 := r1["x" := values["x"]];
    var r3 := r2["b" := values["b"]];
    assert FitsFields([], values, r3["y" := values["y"]], src);
    assert FitsFields(Y_ONLY, values, r3, src);
    assert FitsFields(FROM_B, values, r2, src);
    assert FitsFields(FROM_X, values, r1, src);
    assert map[]["a" := values["a"]] == r1;
  }

  lemma InByte(v: byte)
    ensures FitsScalar(Packed(U8), Int(v)) && WriteScalar(Packed(U8), Int(v), Little) == Some([v])
  {
    Sixteen();
    assert Pow2(7) == 8 * Pow2(4);
    assert Encode(v, 1, Little) == [v];
  }

  /** The offset stated for y is that of b's unit, so y reads b's byte instead of its own. */
  lemma SharedUnitBreaksRoundTrip(src: Source)
    requires src.data == [1, 2, 3, 4] && src.endian == Little
    ensures WriteElem(Struct(SHARED_UNIT), Inst(SHARED_INSTANCE), Little) == Some(src.data)
    ensures ReadElem(Struct(SHARED_UNIT), src, true, 0) == Ok(Inst(SHARED_INSTANCE["y" := Int(3)]), 3, true)
  {
    SharedWritten();
    SharedRead(src);
  }

  lemma PutNibble(v: nat)
    requires v < 16
    ensures PutBits(IDLE, Packed(U8), v, 4, Little) == Some(BitState(Some(Packed(U8)), v, 4))
  {
  }

  lemma SharedWritten()
    ensures WriteElem(Struct(SHARED_UNIT), Inst(SHARED_INSTANCE), Little) == Some([1, 2, 3, 4])
  {
    hide PutBits, WriteScalar;
    Tails();
    var values := SHARED_INSTANCE;
    assert values["a"] == Int(1) && values["x"] == Int(2) && values["b"] == Int(3) && values["y"] == Int(4);
    InByte(1);
    InByte(2);
    InByte(3);
    InByte(4);
    PutNibble(1);
    PutNibble(3);
    assert WriteFields([], values, IDLE, Little) == Some([]);
    assert [] + ([4] + []) == [4] && [3] + ([4] + []) == [3, 4] && [1] + ([2] + [3, 4]) == [1, 2, 3, 4];
    assert WriteFields(Y_ONLY, values, IDLE, Little) == Some([4]);
    assert WriteFields(Y_ONLY, values, BitState(Some(Packed(U8)), 3, 4), Little) == Some([3, 4]);
    assert WriteFields(FROM_B, values, IDLE, Little) == Some([3, 4]);
    assert WriteFields(FROM_X, values, BitState(Some(Packed(U8)), 1, 4), Little) == Some([1, 2, 3, 4]);
  }

  lemma SharedRead(src: Source)
    requires src.data == [1, 2, 3, 4] && src.endian == Little
    ensures ReadElem(Struct(SHARED_UNIT), src, true, 0) == Ok(Inst(SHARED_INSTANCE["y" := Int(3)]), 3, true)
  {
    hide ReadBits, ReadScalar, Decode;
    Tails();
    var unit := Some(Packed(U8));
    var p1, p2, p3 := Plan(Some(1), unit, 4), Plan(Some(2), unit, 4), Plan(Some(2), unit, 0);
    assert PlanNext(START, SHARED_UNIT[0], TypeLen(Byte)) == p1;
    assert PlanNext(p1, FROM_X[0], TypeLen(Byte)) == p2;
    assert PlanNext(p2, FROM_B[0], TypeLen(Byte)) == p3;
    var r1 := map["a" := Int(1)];
    var r2 := r1["x" := Int(2)];
    var r3 := r2["b" := Int(3)];
    ReadNibble(src, 0);
    ReadByte(src, 1);
    ReadNibble(src, 2);
    ReadByte(src, 2);
    var b := BitState(unit, 0, 4);
    assert ReadFields(Y_ONLY, p3, 0, src, true, 3, b, r3) == Ok(r3["y" := Int(3)], 3, true);
    assert ReadFields(FROM_B, p2, 0, src, true, 2, IDLE, r2) == Ok(r3["y" := Int(3)], 3, true);
    assert ReadFields(FROM_X, p1, 0, src, true, 1, b, r1) == Ok(r3["y" := Int(3)], 3, true);
    assert r3["y" := Int(3)] == SHARED_INSTANCE["y" := Int(3)];
  }
}
