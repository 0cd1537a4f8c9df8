/** When the stated offsets do harm: Structure._read seeks to them, and where one is wrong it reads on
    from there. */
module Seeks {
  import opened Bits
  import opened Bytes
  import opened BytesInteger
  import opened Text
  import opened Layout
  import opened Offsets

  // -------------------------------------------------- the guard

  predicate IsSought(p: Plan, f: Field) { PlanOffset(p, f).Some? && PlanOffset(p, f).value != 0 }

  predicate AllBits(fields: seq<Field>) { forall k | 0 <= k < |fields| :: fields[k].bits > 0 }

  /** The seek to the first field goes astray: it is stated elsewhere than at `at`, where it is, and
      it takes bytes from there, or nothing behind it sets the position right. A field in the middle
      of a run takes no bytes. */
  predicate Astray(fields: seq<Field>, p: Plan, run: Run, at: nat)
    requires fields != []
  {
    var f := fields[0];
    && IsSought(p, f) && PlanOffset(p, f).value != at
    && (f.bits == 0 || run.NoRun? || AllBits(fields[1..]))
  }

  /** The bytes that the first field takes, as far as they are known. */
  function UsedHere(f: Field, run: Run): nat {
    if f.bits > 0 then (if run.NoRun? then UnitSize(f) else 0)
    else if UsedType(f.typ).Some? then UsedType(f.typ).value
    else 0
  }

  /** No seek goes astray in any instance of the layout. `at` is the position relative to the start,
      as long as the plan knows an offset. */
  predicate HarmlessFields(fields: seq<Field>, p: Plan, run: Run, at: nat)
    decreases fields
  {
    fields == [] ||
    var f := fields[0];
    && !Astray(fields, p, run, at)
    && (f.bits == 0 ==> HarmlessType(f.typ))
    && HarmlessFields(fields[1..], PlanNext(p, f, TypeLen(f.typ)), RunNext(run, f), at + UsedHere(f, run))
  }

  predicate HarmlessElem(e: Elem)
    decreases e
  {
    e.Single? || HarmlessFields(e.fields, START, NoRun, 0)
  }

  predicate HarmlessType(t: Type)
    decreases t
  {
    (t.Many? && t.count == Static(0)) || HarmlessElem(t.elem)
  }

  /** A seek goes astray in this instance: one of the structure itself, or of a structure that is
      there, since arrays can be empty. */
  predicate StrayFields(fields: seq<Field>, p: Plan, run: Run, at: nat, values: map<string, Value>)
    decreases fields
  {
    fields != [] &&
    var f := fields[0];
    || Astray(fields, p, run, at)
    || (f.bits == 0 && f.name in values && StrayType(f.typ, values[f.name]))
    || StrayFields(fields[1..], PlanNext(p, f, TypeLen(f.typ)), RunNext(run, f), at + UsedHere(f, run), values)
  }

  predicate StrayElem(e: Elem, v: Value)
    decreases e, 0
  {
    e.Struct? && v.Inst? && StrayFields(e.fields, START, NoRun, 0, v.values)
  }

  predicate StrayType(t: Type, v: Value)
    decreases t
  {
    match t
    case One(e) => StrayElem(e, v)
    case Many(e, _) => v.List? && StrayAny(e, v.vs)
  }

  predicate StrayAny(e: Elem, vs: seq<Value>)
    decreases e, 1
  {
    exists k :: 0 <= k < |vs| && StrayElem(e, vs[k])
  }

  // -------------------------------------------------- two readers side by side

  /** The reader that seeks, at seekPos, and the one that reads on, at pos. They can be apart within a
      run of bit fields that a field follows whose offset is stated. */
  predicate OnTrack(fields: seq<Field>, p: Plan, run: Run, at: nat, start: nat, seekPos: nat, pos: nat, b: BitState) {
    && SupportedFields(fields, run) && Loaded(run, b)
    && (p.offset.Some? ==> pos == start + at)
    && (seekPos == pos || (run.Run? && p.offset.Some? && p.offset.value != 0 && !AllBits(fields)))
  }

  /** Where the first field takes bytes, both readers are in the same place. */
  lemma SamePlace(fields: seq<Field>, p: Plan, run: Run, at: nat, start: nat, seekPos: nat, pos: nat, b: BitState)
    requires fields != [] && OnTrack(fields, p, run, at, start, seekPos, pos, b) && !Astray(fields, p, run, at)
    ensures fields[0].bits == 0 || run.NoRun? ==> Sought(p, fields[0], start, true, seekPos) == pos
    ensures fields[0].bits == 0 ==> SupportedType(fields[0].typ)
  {}

  /** In the middle of a run no byte is read. */
  lemma WithinRun(fields: seq<Field>, run: Run, b: BitState, src: Source, pos: nat, pos': nat)
    requires fields != [] && fields[0].bits > 0 && SupportedFields(fields, run) && Loaded(run, b) && run.Run?
    ensures BitScalar(fields[0]) == Some(run.unit)
    ensures ReadBits(b, run.unit, fields[0].bits, src, pos).Ok?
        <==> ReadBits(b, run.unit, fields[0].bits, src, pos').Ok?
    ensures ReadBits(b, run.unit, fields[0].bits, src, pos).Ok? ==>
              var x, y := ReadBits(b, run.unit, fields[0].bits, src, pos),
                  ReadBits(b, run.unit, fields[0].bits, src, pos');
              x.value == y.value && x.full && y.full && x.pos == pos && y.pos == pos'
  {
    hide TakeBits;
  }

  lemma NextAfterBits(fields: seq<Field>, p: Plan, run: Run, at: nat, start: nat, src: Source, seekPos: nat, pos: nat,
      b: BitState)
    requires fields != [] && fields[0].bits > 0
    requires OnTrack(fields, p, run, at, start, seekPos, pos, b) && !Astray(fields, p, run, at)
    requires var x := ReadBits(b, BitScalar(fields[0]).value, fields[0].bits, src, pos); x.Ok? && x.full
    ensures var f := fields[0];
            var x := ReadBits(b, BitScalar(f).value, f.bits, src, pos);
            var seek := if run.NoRun? then x.pos else Sought(p, f, start, true, seekPos);
            OnTrack(fields[1..], PlanNext(p, f, TypeLen(f.typ)), RunNext(run, f), at + UsedHere(f, run), start, seek,
                    x.pos, x.value.1)
  {
    hide ReadBits;
    var f, rest := fields[0], fields[1..];
    assert fields == [f] + rest;
    BitsStep(f, rest, run, b, src, pos);
    if run.Run? { StillApart(fields, p, run, at, start, seekPos, pos, b); }
  }

  lemma StillApart(fields: seq<Field>, p: Plan, run: Run, at: nat, start: nat, seekPos: nat, pos: nat, b: BitState)
    requires fields != [] && fields[0].bits > 0 && run.Run?
    requires OnTrack(fields, p, run, at, start, seekPos, pos, b) && !Astray(fields, p, run, at)
    ensures var f := fields[0];
            var seek, p' := Sought(p, f, start, true, seekPos), PlanNext(p, f, TypeLen(f.typ));
            seek == pos || (RunNext(run, f).Run? && p'.offset.Some? && p'.offset.value != 0 && !AllBits(fields[1..]))
  {
    var f, rest := fields[0], fields[1..];
    assert AllBits(rest) ==> AllBits(fields);
  }

  lemma NextAfterType(fields: seq<Field>, p: Plan, run: Run, at: nat, start: nat, src: Source, seekPos: nat, pos: nat,
      b: BitState, r: map<string, Value>)
    requires fields != [] && fields[0].bits == 0 && OnTrack(fields, p, run, at, start, seekPos, pos, b)
    requires var x := ReadType(fields[0].typ, r, src, false, pos); x.Ok? && x.full
    ensures var f := fields[0];
            var x := ReadType(f.typ, r, src, false, pos);
            OnTrack(fields[1..], PlanNext(p, f, TypeLen(f.typ)), NoRun, at + UsedHere(f, run), start, x.pos,
                x.pos, IDLE)
  {
    hide ReadType;
    var f := fields[0];
    KnownTogether(f.typ);
    if UsedType(f.typ).Some? { ConsumedType(f.typ, r, src, pos); }
  }

  lemma KnownTogether(t: Type)
    requires SupportedType(t)
    ensures TypeLen(t).Some? <==> UsedType(t).Some?
  {
    SameKnown(t.elem);
  }

  // -------------------------------------------------- harmless layouts

  lemma {:induction false} NoHarmElem(e: Elem, src: Source, pos: nat)
    requires SupportedElem(e) && HarmlessElem(e)
    ensures Strict(ReadElem(e, src, true, pos)) == Strict(ReadElem(e, src, false, pos))
    decreases e, 1
  {
    if e.Struct? {
      SeeksDoNoHarm(e.fields, START, NoRun, 0, pos, src, pos, pos, IDLE, map[]);
    }
  }

  lemma {:induction false} NoHarmMany(e: Elem, count: nat, src: Source, pos: nat)
    requires SupportedElem(e) && HarmlessElem(e)
    ensures Strict(ReadMany(e, count, src, true, pos)) == Strict(ReadMany(e, count, src, false, pos))
    decreases e, 2, count
  {
    hide ReadElem, SupportedElem, HarmlessElem;
    if count > 0 {
      NoHarmElem(e, src, pos);
      var x := ReadElem(e, src, false, pos);
      if x.Ok? && x.full { NoHarmMany(e, count - 1, src, x.pos); }
    }
  }

  lemma {:induction false} NoHarmType(t: Type, r: map<string, Value>, src: Source, pos: nat)
    requires SupportedType(t) && HarmlessType(t)
    ensures Strict(ReadType(t, r, src, true, pos)) == Strict(ReadType(t, r, src, false, pos))
    decreases t, 3
  {
    match t {
      case One(e) => NoHarmElem(e, src, pos);
      case Many(e, Static(n)) =>
        if n == 0 {
          assert ReadMany(e, n, src, true, pos) == ReadMany(e, n, src, false, pos);
        } else if e.Struct? {
          NoHarmMany(e, n, src, pos);
        }
      case Many(e, Dynamic(expr)) =>
        var n := Evaluated(expr, r, src);
        if e.Struct? && n.Some? { NoHarmMany(e, n.value, src, pos); }
      case Many(_, NullTerminated) =>
    }
  }

  /** In a harmless layout, on every input, reading with stated offsets and reading on from field to
      field both find a byte missing or give the same. */
  lemma {:induction false} SeeksDoNoHarm(fields: seq<Field>, p: Plan, run: Run, at: nat, start: nat, src: Source,
      seekPos: nat, pos: nat, b: BitState, r: map<string, Value>)
    requires OnTrack(fields, p, run, at, start, seekPos, pos, b) && HarmlessFields(fields, p, run, at)
    ensures Strict(ReadFields(fields, p, start, src, true, seekPos, b, r))
         == Strict(ReadFields(fields, p, start, src, false, pos, b, r))
    decreases fields, 0
  {
    hide OnTrack, Astray, Sought, ReadType, ReadBits, PlanNext, TypeLen;
    if fields == [] {
      Together(p, run, at, start, seekPos, pos, b);
    } else {
      var f, rest := fields[0], fields[1..];
      var p', run', at' := PlanNext(p, f, TypeLen(f.typ)), RunNext(run, f), at + UsedHere(f, run);
      SamePlace(fields, p, run, at, start, seekPos, pos, b);
      Unsought(p, f, start, pos);
      var seek := Sought(p, f, start, true, seekPos);
      if f.bits > 0 {
        if BitScalar(f).Some? {
          var x := ReadBits(b, BitScalar(f).value, f.bits, src, pos);
          if run.Run? { WithinRunTracked(fields, p, run, at, start, seekPos, pos, b, src); }
          if x.Ok? && x.full {
            NextAfterBits(fields, p, run, at, start, src, seekPos, pos, b);
            SeeksDoNoHarm(rest, p', run', at', start, src, if run.NoRun? then x.pos else seek, x.pos, x.value.1,
                          r[f.name := Int(x.value.0)]);
          }
        }
      } else {
        var x := ReadType(f.typ, r, src, false, pos);
        NoHarmType(f.typ, r, src, pos);
        if x.Ok? && x.full {
          NextAfterType(fields, p, run, at, start, src, seekPos, pos, b, r);
          SeeksDoNoHarm(rest, p', NoRun, at', start, src, x.pos, x.pos, IDLE, r[f.name := x.value]);
        }
      }
    }
  }

  lemma WithinRunTracked(fields: seq<Field>, p: Plan, run: Run, at: nat, start: nat, seekPos: nat, pos: nat,
      b: BitState, src: Source)
    requires fields != [] && fields[0].bits > 0 && run.Run? && OnTrack(fields, p, run, at, start, seekPos, pos, b)
    ensures BitScalar(fields[0]).Some?
    ensures var s, n := BitScalar(fields[0]).value, fields[0].bits;
            var x, y := ReadBits(b, s, n, src, pos), ReadBits(b, s, n, src, Sought(p, fields[0], start, true, seekPos));
            && x.Ok? == y.Ok?
            && (x.Ok? ==> x.value == y.value && x.full && y.full && y.pos == Sought(p, fields[0], start, true, seekPos))
  {
    hide ReadBits, Sought;
    WithinRun(fields, run, b, src, pos, Sought(p, fields[0], start, true, seekPos));
  }

  lemma Together(p: Plan, run: Run, at: nat, start: nat, seekPos: nat, pos: nat, b: BitState)
    requires OnTrack([], p, run, at, start, seekPos, pos, b)
    ensures seekPos == pos
  {
    assert AllBits([]);
  }

  lemma Unsought(p: Plan, f: Field, start: nat, pos: nat)
    ensures Sought(p, f, start, false, pos) == pos
  {}

  // -------------------------------------------------- how far a reader gets

  function ScalarsSpan(s: Scalar, v: Value): nat {
    match v
    case Raw(bs) => |bs|
    case List(vs) => ScalarSize(s) * |vs|
    case _ => 0
  }

  /** How far behind its start a reader is at the end of a value: the one that seeks, or the one that
      reads on. That depends only on the layout and on the lengths of the arrays in the value. */
  function SpanElem(e: Elem, v: Value, seeks: bool): nat
    decreases e, 0
  {
    match e
    case Single(s) => ScalarSize(s)
    case Struct(fields) => if v.Inst? then SpanFields(fields, START, NoRun, 0, v.values, seeks) else 0
  }

  function SpanMany(e: Elem, vs: seq<Value>, seeks: bool): nat
    decreases e, 1, |vs|
  {
    if vs == [] then 0 else SpanElem(e, vs[0], seeks) + SpanMany(e, vs[1..], seeks)
  }

  function SpanType(t: Type, v: Value, seeks: bool): nat
    decreases t, 0
  {
    match t
    case One(e) => SpanElem(e, v, seeks)
    case Many(Single(s), NullTerminated) => ScalarsSpan(s, v) + ScalarSize(s)
    case Many(Single(s), _) => ScalarsSpan(s, v)
    case Many(e, _) => if v.List? then SpanMany(e, v.vs, seeks) else 0
  }

  function SpanFields(fields: seq<Field>, p: Plan, run: Run, at: nat, values: map<string, Value>, seeks: bool): nat
    decreases fields
  {
    if fields == [] then at
    else
      var f := fields[0];
      var here := Sought(p, f, 0, seeks, at);
      SpanFields(fields[1..], PlanNext(p, f, TypeLen(f.typ)), RunNext(run, f), here + SpanHere(f, run, values, seeks),
                 values, seeks)
  }

  /** How far the first field takes the reader. */
  function SpanHere(f: Field, run: Run, values: map<string, Value>, seeks: bool): nat
    decreases f.typ, 1
  {
    if f.bits > 0 then (if run.NoRun? then UnitSize(f) else 0)
    else if f.name in values then SpanType(f.typ, values[f.name], seeks)
    else 0
  }

  // -------------------------------------------------- reading is as far as that

  predicate Fresh(name: string, fields: seq<Field>) { forall k | 0 <= k < |fields| :: fields[k].name != name }

  /** What has been read stays. */
  lemma {:induction false} Kept(fields: seq<Field>, p: Plan, start: nat, src: Source, seeks: bool, pos: nat,
      b: BitState, r: map<string, Value>, name: string)
    requires name in r && Fresh(name, fields)
    requires ReadFields(fields, p, start, src, seeks, pos, b, r).Ok?
    ensures var x := ReadFields(fields, p, start, src, seeks, pos, b, r); name in x.value && x.value[name] == r[name]
    decreases fields
  {
    hide ReadType, ReadBits, PlanNext, TypeLen, Sought;
    if fields != [] {
      var f, rest := fields[0], fields[1..];
      var p', here := PlanNext(p, f, TypeLen(f.typ)), Sought(p, f, start, seeks, pos);
      assert Fresh(name, rest);
      if f.bits > 0 {
        var x := ReadBits(b, BitScalar(f).value, f.bits, src, here);
        Kept(rest, p', start, src, seeks, x.pos, x.value.1, r[f.name := Int(x.value.0)], name);
      } else {
        var x := ReadType(f.typ, r, src, seeks, here);
        Kept(rest, p', start, src, seeks, x.pos, IDLE, r[f.name := x.value], name);
      }
    }
  }

  lemma FirstIsFresh(fields: seq<Field>, run: Run)
    requires fields != [] && SupportedFields(fields, run)
    ensures Fresh(fields[0].name, fields[1..])
  {
    var f, rest := fields[0], fields[1..];
    forall k | 0 <= k < |rest| ensures rest[k].name != f.name { assert rest[k] in rest; }
  }

  lemma {:induction false} IntsSpan(size: nat, strict: bool, decode: seq<byte> -> int, src: Source, pos: nat)
    requires size > 0 && decode([]) == 0
    requires var x := ReadIntsUntilZero(size, strict, decode, src, pos); x.Ok? && x.full
    ensures var x := ReadIntsUntilZero(size, strict, decode, src, pos); x.pos == pos + size * |x.value| + size
    decreases |src.data| - pos
  {
    var v := decode(Chunk(src, pos, size));
    if v != 0 {
      IntsSpan(size, strict, decode, src, After(src, pos, size));
      var n := |ReadIntsUntilZero(size, strict, decode, src, After(src, pos, size)).value|;
      OneMoreTimes(size, n + 1);
    }
  }

  lemma {:induction false} BytesSpan(src: Source, pos: nat)
    requires ReadBytesUntilZero(src, pos).Ok?
    ensures var x := ReadBytesUntilZero(src, pos); x.pos == pos + |x.value| + 1
    decreases |src.data| - pos
  {
    if src.data[pos] != 0 { BytesSpan(src, pos + 1); }
  }

  lemma UntilZeroSpan(s: Scalar, src: Source, pos: nat)
    requires ReadUntilZero(s, src, pos).Ok? && ReadUntilZero(s, src, pos).full
    ensures var x := ReadUntilZero(s, src, pos); x.pos == pos + ScalarsSpan(s, x.value) + ScalarSize(s)
  {
    if s.Char? {
      BytesSpan(src, pos);
    } else {
      NothingIsZero(s, src.endian);
      IntsSpan(ScalarSize(s), s.Packed?, Decoder(ScalarSize(s), ScalarSigned(s), src.endian), src, pos);
    }
  }

  lemma ScalarsSpanIs(s: Scalar, count: nat, src: Source, pos: nat)
    requires ReadScalars(s, count, src, pos).Ok? && ReadScalars(s, count, src, pos).full
    ensures var x := ReadScalars(s, count, src, pos); x.pos == pos + ScalarsSpan(s, x.value)
    ensures var x := ReadScalars(s, count, src, pos); ScalarsSpan(s, x.value) == ScalarSize(s) * count
  {
    hide ParseAll;
  }

  lemma {:induction false} SpanElemIs(e: Elem, src: Source, seeks: bool, pos: nat)
    requires SupportedElem(e) && ReadElem(e, src, seeks, pos).Ok? && ReadElem(e, src, seeks, pos).full
    ensures var x := ReadElem(e, src, seeks, pos); x.pos == pos + SpanElem(e, x.value, seeks)
    decreases e, 1
  {
    match e {
      case Single(s) => assert ReadScalar(s, src, pos).pos == pos + ScalarSize(s) by { ScalarSpan(s, src, pos); }
      case Struct(fields) => SpanFieldsIs(fields, START, NoRun, 0, pos, src, seeks, pos, IDLE, map[]);
    }
  }

  lemma ScalarSpan(s: Scalar, src: Source, pos: nat)
    requires ReadScalar(s, src, pos).Ok? && ReadScalar(s, src, pos).full
    ensures ReadScalar(s, src, pos).pos == pos + ScalarSize(s)
  {
    hide Decode;
  }

  lemma {:induction false} SpanManyIs(e: Elem, count: nat, src: Source, seeks: bool, pos: nat)
    requires SupportedElem(e) && ReadMany(e, count, src, seeks, pos).Ok? && ReadMany(e, count, src, seeks, pos).full
    ensures var x := ReadMany(e, count, src, seeks, pos);
        |x.value| == count && x.pos == pos + SpanMany(e, x.value, seeks)
    decreases e, 2, count
  {
    hide ReadElem, SpanElem, SupportedElem;
    if count > 0 {
      var x := ReadElem(e, src, seeks, pos);
      SpanElemIs(e, src, seeks, pos);
      SpanManyIs(e, count - 1, src, seeks, x.pos);
      var vs := ReadMany(e, count - 1, src, seeks, x.pos).value;
      assert ([x.value] + vs)[1..] == vs;
    }
  }

  lemma {:induction false} SpanTypeIs(t: Type, r: map<string, Value>, src: Source, seeks: bool, pos: nat)
    requires SupportedType(t) && ReadType(t, r, src, seeks, pos).Ok? && ReadType(t, r, src, seeks, pos).full
    ensures var x := ReadType(t, r, src, seeks, pos); x.pos == pos + SpanType(t, x.value, seeks)
    decreases t, 3
  {
    hide ReadScalars, ReadUntilZero, ScalarsSpan, ReadMany, SpanMany;
    match t {
      case One(e) => SpanElemIs(e, src, seeks, pos);
      case Many(e, Static(n)) =>
        if e.Single? { ScalarsSpanIs(e.scalar, n, src, pos); } else { SpanManyIs(e, n, src, seeks, pos); }
      case Many(e, Dynamic(expr)) =>
        var n := Evaluated(expr, r, src).value;
        if e.Single? { ScalarsSpanIs(e.scalar, n, src, pos); } else { SpanManyIs(e, n, src, seeks, pos); }
      case Many(e, NullTerminated) => UntilZeroSpan(e.scalar, src, pos);
    }
  }

  function UnitHere(f: Field, run: Run): nat { if run.NoRun? then UnitSize(f) else 0 }

  lemma SpanStep(fields: seq<Field>, p: Plan, run: Run, at: nat, values: map<string, Value>, seeks: bool)
    requires fields != []
    ensures var f := fields[0];
            SpanFields(fields, p, run, at, values, seeks)
            == SpanFields(fields[1..], PlanNext(p, f, TypeLen(f.typ)), RunNext(run, f),
                          Sought(p, f, 0, seeks, at) + SpanHere(f, run, values, seeks), values, seeks)
    ensures fields[0].bits > 0 ==> SpanHere(fields[0], run, values, seeks) == UnitHere(fields[0], run)
    ensures fields[0].bits == 0 && fields[0].name in values ==>
              SpanHere(fields[0], run, values, seeks) == SpanType(fields[0].typ, values[fields[0].name], seeks)
  {}

  lemma NothingSpans(p: Plan, run: Run, at: nat, start: nat, src: Source, seeks: bool, pos: nat, b: BitState,
      r: map<string, Value>)
    ensures ReadFields([], p, start, src, seeks, pos, b, r) == Ok(r, pos, true)
    ensures SpanFields([], p, run, at, r, seeks) == at
  {}

  /** One turn of the loop over the fields, when no byte is missing. */
  lemma FieldRead(fields: seq<Field>, p: Plan, start: nat, src: Source, seeks: bool, at: nat, b: BitState,
      r: map<string, Value>)
    requires fields != []
    requires var x := ReadFields(fields, p, start, src, seeks, start + at, b, r); x.Ok? && x.full
    ensures var f := fields[0];
            var here, p' := start + Sought(p, f, 0, seeks, at), PlanNext(p, f, TypeLen(f.typ));
            var y := ReadFields(fields, p, start, src, seeks, start + at, b, r);
            if f.bits > 0 then
              && BitScalar(f).Some?
              && var x := ReadBits(b, BitScalar(f).value, f.bits, src, here);
                 && x.Ok? && x.full
                 && y == ReadFields(fields[1..], p', start, src, seeks, x.pos, x.value.1, r[f.name := Int(x.value.0)])
            else
              var x := ReadType(f.typ, r, src, seeks, here);
              && x.Ok? && x.full
              && y == ReadFields(fields[1..], p', start, src, seeks, x.pos, IDLE, r[f.name := x.value])
  {
    hide ReadType, ReadBits, PlanNext, TypeLen;
  }

  /** A reader that finds no byte missing ends as far behind its start as the span says. */
  lemma {:induction false} SpanFieldsIs(fields: seq<Field>, p: Plan, run: Run, at: nat, start: nat, src: Source,
      seeks: bool, pos: nat, b: BitState, r: map<string, Value>)
    requires SupportedFields(fields, run) && Loaded(run, b) && pos == start + at
    requires var x := ReadFields(fields, p, start, src, seeks, pos, b, r); x.Ok? && x.full
    ensures var x := ReadFields(fields, p, start, src, seeks, pos, b, r);
            x.pos == start + SpanFields(fields, p, run, at, x.value, seeks)
    decreases fields, 0
  {
    hide ReadFields, ReadType, ReadBits, PlanNext, TypeLen, SpanType, SpanFields, SpanHere, SupportedType, Sought;
    if fields == [] {
      NothingSpans(p, run, at, start, src, seeks, pos, b, r);
    } else {
      var f, rest := fields[0], fields[1..];
      assert fields == [f] + rest;
      var p', here := PlanNext(p, f, TypeLen(f.typ)), Sought(p, f, 0, seeks, at);
      var res := ReadFields(fields, p, start, src, seeks, pos, b, r).value;
      FieldRead(fields, p, start, src, seeks, at, b, r);
      SpanStep(fields, p, run, at, res, seeks);
      if f.bits > 0 {
        var s := BitScalar(f).value;
        var x := ReadBits(b, s, f.bits, src, start + here);
        BitsStep(f, rest, run, b, src, start + here);
        SpanFieldsIs(rest, p', RunNext(run, f), here + SpanHere(f, run, res, seeks), start, src, seeks, x.pos,
                     x.value.1, r[f.name := Int(x.value.0)]);
      } else {
        var x := ReadType(f.typ, r, src, seeks, start + here);
        SpanTypeIs(f.typ, r, src, seeks, start + here);
        FirstIsFresh(fields, run);
        Kept(rest, p', start, src, seeks, x.pos, IDLE, r[f.name := x.value], f.name);
        SpanFieldsIs(rest, p', NoRun, here + SpanHere(f, run, res, seeks), start, src, seeks, x.pos, IDLE,
                     r[f.name := x.value]);
      }
    }
  }

  // -------------------------------------------------- instances in which no seek goes astray

  lemma {:induction false} SameElem(e: Elem, src: Source, pos: nat)
    requires SupportedElem(e)
    requires var x := ReadElem(e, src, false, pos); x.Ok? && x.full && !StrayElem(e, x.value)
    ensures ReadElem(e, src, true, pos) == ReadElem(e, src, false, pos)
    decreases e, 1
  {
    if e.Struct? {
      SameFields(e.fields, START, NoRun, 0, pos, src, pos, pos, IDLE, map[]);
    }
  }

  lemma {:induction false} SameMany(e: Elem, count: nat, src: Source, pos: nat)
    requires SupportedElem(e)
    requires var x := ReadMany(e, count, src, false, pos); x.Ok? && x.full && !StrayAny(e, x.value)
    ensures ReadMany(e, count, src, true, pos) == ReadMany(e, count, src, false, pos)
    decreases e, 2, count
  {
    hide ReadElem, SupportedElem, StrayElem;
    if count > 0 {
      var x := ReadElem(e, src, false, pos);
      var vs := ReadMany(e, count - 1, src, false, x.pos).value;
      var all := [x.value] + vs;
      assert all[0] == x.value && forall k | 0 <= k < |vs| :: vs[k] == all[k + 1];
      SameElem(e, src, pos);
      SameMany(e, count - 1, src, x.pos);
    }
  }

  lemma {:induction false} SameType(t: Type, r: map<string, Value>, src: Source, pos: nat)
    requires SupportedType(t)
    requires var x := ReadType(t, r, src, false, pos); x.Ok? && x.full && !StrayType(t, x.value)
    ensures ReadType(t, r, src, true, pos) == ReadType(t, r, src, false, pos)
    decreases t, 3
  {
    hide ReadMany, StrayAny;
    match t {
      case One(e) => SameElem(e, src, pos);
      case Many(e, Static(n)) => if e.Struct? { SameMany(e, n, src, pos); }
      case Many(e, Dynamic(expr)) => if e.Struct? { SameMany(e, Evaluated(expr, r, src).value, src, pos); }
      case Many(_, NullTerminated) =>
    }
  }

  /** Where no seek goes astray in what the reader that reads on gives, the other gives the same. */
  lemma {:induction false} SameFields(fields: seq<Field>, p: Plan, run: Run, at: nat, start: nat, src: Source,
      seekPos: nat, pos: nat, b: BitState, r: map<string, Value>)
    requires OnTrack(fields, p, run, at, start, seekPos, pos, b)
    requires var x := ReadFields(fields, p, start, src, false, pos, b, r);
             x.Ok? && x.full && !StrayFields(fields, p, run, at, x.value)
    ensures ReadFields(fields, p, start, src, true, seekPos, b, r)
        == ReadFields(fields, p, start, src, false, pos, b, r)
    decreases fields, 0
  {
    hide OnTrack, Astray, Sought, ReadType, ReadBits, PlanNext, TypeLen, StrayType;
    if fields == [] {
      Together(p, run, at, start, seekPos, pos, b);
    } else {
      var f, rest := fields[0], fields[1..];
      var p', run', at' := PlanNext(p, f, TypeLen(f.typ)), RunNext(run, f), at + UsedHere(f, run);
      SamePlace(fields, p, run, at, start, seekPos, pos, b);
      Unsought(p, f, start, pos);
      var seek := Sought(p, f, start, true, seekPos);
      if f.bits > 0 {
        var x := ReadBits(b, BitScalar(f).value, f.bits, src, pos);
        if run.Run? { WithinRunTracked(fields, p, run, at, start, seekPos, pos, b, src); }
        NextAfterBits(fields, p, run, at, start, src, seekPos, pos, b);
        SameFields(rest, p', run', at', start, src, if run.NoRun? then x.pos else seek, x.pos, x.value.1,
                   r[f.name := Int(x.value.0)]);
      } else {
        var x := ReadType(f.typ, r, src, false, pos);
        OnTrackIsSupported(fields, p, run, at, start, seekPos, pos, b);
        FirstIsFresh(fields, run);
        Kept(rest, p', start, src, false, x.pos, IDLE, r[f.name := x.value], f.name);
        SameType(f.typ, r, src, pos);
        NextAfterType(fields, p, run, at, start, src, seekPos, pos, b, r);
        SameFields(rest, p', NoRun, at', start, src, x.pos, x.pos, IDLE, r[f.name := x.value]);
      }
    }
  }

  lemma OnTrackIsSupported(fields: seq<Field>, p: Plan, run: Run, at: nat, start: nat, seekPos: nat, pos: nat,
      b: BitState)
    requires OnTrack(fields, p, run, at, start, seekPos, pos, b)
    ensures SupportedFields(fields, run)
  {}
}
