/** Where the generated reader and the interpreter part: for each restriction of the compiler
    theorem, the fields that need it and no others. */
module CompilerLimits {
  import opened Bits
  import opened Bytes
  import opened BytesInteger
  import opened Text
  import opened Layout
  import opened Offsets
  import opened Compiler
  import opened CompilerProofs
  import opened CompilerTheorem
  import opened ExpressionContexts
  import opened GeneratedReader
  import Example = StructureRoundTrip
  import Ex = Expression

  // -------------------------------------------------- one field that is no bit field

  /** The generated reader of a structure of one field agrees with the interpreter on this input. */
  predicate Agrees(f: Field, src: Source, pos: nat) {
    Compiled([f], src, pos) == Instance(StrictFields([f], src, pos, IDLE, map[]))
  }

  ghost predicate AlwaysAgrees(f: Field) { forall src, pos :: Agrees(f, src, pos) }

  /** One field: the two readers agree on every input, complete or not, if and only if the field is
      neither a scalar char (an index gives an int, not bytes), nor an array of one int24 or int48 (the
      list is taken apart), nor a null-terminated array of those (its loop never ends). */
  lemma OneFieldExactly(f: Field)
    requires f.bits == 0 && f.typ.elem.Single?
    ensures AlwaysAgrees(f) <==> !Odd(f.typ)
  {
    hide Agrees, Odd;
    forall src, pos: nat | !Odd(f.typ) ensures Agrees(f, src, pos) { OneField(f, src, pos); }
    if Odd(f.typ) {
      var src := Source(Encode(0, ScalarSize(f.typ.elem.scalar), Little), Little, map[]);
      OneField(f, src, 0);
      OddReads(f, src);
      assert !Agrees(f, src, 0);
    }
  }

  lemma OneField(f: Field, src: Source, pos: nat)
    requires f.bits == 0 && f.typ.elem.Single?
    ensures !Odd(f.typ) ==> Agrees(f, src, pos)
    ensures Odd(f.typ) && Strict(ReadType(f.typ, map[], src, false, pos)).Ok? ==> !Agrees(f, src, pos)
  {
    hide Compiled, Odd, ReadType, GotScalars, StrictFields, GotFields;
    var none: map<string, Value> := map[];
    assert [f][1..] == [];
    var x, y := Strict(ReadType(f.typ, none, src, false, pos)), GotScalars(f, none, src, pos);
    ScalarsExactly(f, none, src, pos);
    OneCompiles(f, src, pos);
    StrictFirst([f], src, pos, IDLE, none);
    GotFirst([f], src, pos, IDLE, none);
    if x.Ok? { NothingMore(src, x.pos, none[f.name := x.value]); }
    if y.Ok? { NothingMore(src, y.pos, none[f.name := y.value]); }
    assert x.Ok? && y.Ok? && x.value != y.value ==> none[f.name := x.value] != none[f.name := y.value] by {
      assert x.Ok? ==> none[f.name := x.value][f.name] == x.value;
    }
  }

  lemma OneCompiles(f: Field, src: Source, pos: nat)
    requires f.bits == 0 && f.typ.elem.Single?
    ensures Compiled([f], src, pos) == Instance(GotFields([f], src, pos, IDLE, map[]))
  {
    hide Compiled, GotFields;
    assert [f][1..] == [];
    CompiledExactly([f], src, pos);
  }

  lemma NothingMore(src: Source, pos: nat, r: map<string, Value>)
    ensures GotFields([], src, pos, IDLE, r) == StrictFields([], src, pos, IDLE, r) == Ok(r, pos, true)
  {}

  /** The interpreter reads an odd field: an array that ends at once, if it is null-terminated. */
  lemma OddReads(f: Field, src: Source)
    requires f.bits == 0 && f.typ.elem.Single? && Odd(f.typ)
    requires src.data == Encode(0, ScalarSize(f.typ.elem.scalar), Little) && src.endian == Little
    ensures Strict(ReadType(f.typ, map[], src, false, 0)).Ok?
  {
    hide Encode, Decode;
    var s := f.typ.elem.scalar;
    if f.typ.Many? && f.typ.count.NullTerminated? {
      ZeroInRange(ScalarSize(s), ScalarSigned(s));
      DecodeEncode(0, ScalarSize(s), ScalarSigned(s), Little);
      assert src.data[0..|src.data|] == src.data;
      assert ReadUntilZero(s, src, 0).Ok? && ReadUntilZero(s, src, 0).full;
    }
  }

  lemma ZeroInRange(size: Size, signed: bool)
    ensures InRange(0, size, signed)
  {}

  /** The generated loop for a null-terminated array of int24 or int48 finds no end, whatever the
      input. */
  lemma NeverEndsFails(name: string, s: Scalar, src: Source, pos: nat)
    requires s.BytesInt?
    ensures Compiled([Field(name, Many(Single(s), NullTerminated), 0)], src, pos) == Fail
  {
    hide Compiled;
    OneCompiles(Field(name, Many(Single(s), NullTerminated), 0), src, pos);
  }

  // -------------------------------------------------- a unit held over a structure

  /** The rest of a run that the generated class takes from a held unit, of which `left` bits are left,
      and behind it fields of known length. */
  ghost predicate TakenFrom(fields: seq<Field>, unit: Scalar, left: int)
    decreases fields
  {
    fields == [] ||
    if fields[0].bits > 0 then left >= 1 && TakenFrom(fields[1..], unit, left - fields[0].bits)
    else ApartFields(fields, NoRun, Run(unit, left)) && UsedFields(fields, NoRun).Some?
  }

  /** One run of bit fields is taken from a unit read before a structure. */
  ghost predicate HoldsOnce(fields: seq<Field>, run: Run, held: Run)
    decreases fields
  {
    fields != [] &&
    var f, rest := fields[0], fields[1..];
    if f.bits > 0 && run.NoRun? && Reused(held, f) then TakenFrom(rest, held.unit, held.left - f.bits)
    else
      && (f.typ.elem.Struct? ==> ApartFields(f.typ.elem.fields, NoRun, NoRun) && OwnNameFree(f))
      && HoldsOnce(rest, RunNext(run, f), HeldNext(f, run, held))
  }

  /** A layout in which at most one run of bit fields is taken from a held unit, as a whole and with
      fields of known length behind it: on every input that the interpreter reads, the generated reader
      agrees if and only if none is, since else it stops one unit short. */
  lemma HeldUnitExactly(fields: seq<Field>, src: Source, pos: nat)
    requires SupportedElem(Struct(fields)) && EvenFields(fields)
    requires ApartFields(fields, NoRun, NoRun) || HoldsOnce(fields, NoRun, NoRun)
    requires Strict(ReadElem(Struct(fields), src, false, pos)).Ok?
    ensures Compiled(fields, src, pos) == Strict(ReadElem(Struct(fields), src, false, pos))
        <==> ApartFields(fields, NoRun, NoRun)
  {
    hide Compiled, ReadElem, StrictFields, GotFields, SupportedFields, ApartFields, EvenFields, HoldsOnce;
    assert SupportedElem(Struct(fields));
    SupportedReads(fields, src, pos);
    if ApartFields(fields, NoRun, NoRun) {
      CompiledReadsOn(fields, src, pos);
    } else {
      StopsShort(fields, NoRun, NoRun, IDLE, IDLE, src, pos, map[]);
    }
  }

  predicate Short(x: Read<map<string, Value>>, y: Read<map<string, Value>>) { x.Ok? && y.Ok? ==> y.pos < x.pos }

  lemma {:induction false} StopsShort(fields: seq<Field>, run: Run, held: Run, bc: BitState, bi: BitState, src: Source,
      pos: nat, r: map<string, Value>)
    requires SupportedFields(fields, run) && SameBits(run, held, bc, bi)
    requires EvenFields(fields) && HoldsOnce(fields, run, held)
    ensures Short(StrictFields(fields, src, pos, bi, r), GotFields(fields, src, pos, bc, r))
    decreases fields
  {
    hide ReadType, ReadBits, GotStruct, GotScalars, SupportedFields, ApartFields, StrictFields, GotFields;
    var f, rest := fields[0], fields[1..];
    if f.bits > 0 {
      assert [f] + rest == fields;
      FirstIsBits(fields, run);
      StrictBits(fields, src, pos, bi, r);
      BitsFirst(fields, src, pos, bc, r);
      var x: Read<(int, BitState)> := Strict(ReadBits(bi, BitScalar(f).value, f.bits, src, pos));
      var y: Read<(int, BitState)> := Strict(ReadBits(bc, BitScalar(f).value, f.bits, src, pos));
      if x.Ok? && y.Ok? {
        BitsAfter(f, rest, run, held, bc, bi, src, pos);
        if run.NoRun? && Reused(held, f) {
          HeldIsTaken(f, held, bc, src, pos);
          RestIsShort(rest, RunNext(run, f), held.left - f.bits, y.value.1, x.value.1, src, y.pos, x.pos,
                      r[f.name := Int(y.value.0)], r[f.name := Int(x.value.0)]);
        } else {
          SameUnit(f, rest, run, held, bc, bi, src, pos);
          StopsShort(rest, RunNext(run, f), NoRun, x.value.1, x.value.1, src, x.pos, r[f.name := Int(x.value.0)]);
        }
      }
    } else {
      var b := AfterField(fields, run, held, bc, bi);
      if f.typ.elem.Struct? { StructSide(f, r, src, pos); } else { ScalarsExactly(f, r, src, pos); }
      StrictFirst(fields, src, pos, bi, r);
      GotFirst(fields, src, pos, bc, r);
      var x := Strict(ReadType(f.typ, r, src, false, pos));
      if x.Ok? { StopsShort(rest, NoRun, HeldNext(f, run, held), b, IDLE, src, x.pos, r[f.name := x.value]); }
    }
  }

  lemma FirstIsBits(fields: seq<Field>, run: Run)
    requires fields != [] && fields[0].bits > 0 && SupportedFields(fields, run)
    ensures BitScalar(fields[0]).Some? && fields[0].typ == One(Single(BitScalar(fields[0]).value))
  {}

  /** The interpreter reads a unit where the generated class takes what it holds. */
  lemma HeldIsTaken(f: Field, held: Run, bc: BitState, src: Source, pos: nat)
    requires f.bits > 0 && Reused(held, f) && bc.typ == Some(held.unit) && bc.remaining == held.left
    ensures var x := ReadBits(IDLE, held.unit, f.bits, src, pos); x.Ok? && x.full ==> x.pos > pos
    ensures var y := ReadBits(bc, held.unit, f.bits, src, pos);
            y.Ok? ==> y.pos == pos && y.value.1.typ == Some(held.unit) && y.value.1.remaining == held.left - f.bits
  {
    hide ReadScalar, Shr, And, Xor, Shl;
    ReadsOn(held.unit, src, pos);
  }

  lemma ReadsOn(s: Scalar, src: Source, pos: nat)
    ensures var x := ReadScalar(s, src, pos); x.Ok? && x.full ==> x.pos > pos
  {}

  lemma {:induction false} RestIsShort(fields: seq<Field>, run: Run, left: int, bc: BitState, bi: BitState, src: Source,
      short: nat, pos: nat, r: map<string, Value>, r': map<string, Value>)
    requires SupportedFields(fields, run) && EvenFields(fields) && run.Run? && TakenFrom(fields, run.unit, left)
    requires bc.typ == Some(run.unit) && bc.remaining == left && Loaded(run, bi) && short < pos
    ensures Short(StrictFields(fields, src, pos, bi, r'), GotFields(fields, src, short, bc, r))
    decreases fields
  {
    hide ReadBits, SupportedFields, ApartFields, StrictFields, GotFields, EvenFields;
    if fields == [] {
      NoFieldsLeft(src, short, pos, bc, bi, r, r');
    } else if fields[0].bits > 0 {
      var f, rest := fields[0], fields[1..];
      assert [f] + rest == fields;
      InRun(fields, run);
      StrictBits(fields, src, pos, bi, r');
      BitsFirst(fields, src, short, bc, r);
      var x: Read<(int, BitState)> := Strict(ReadBits(bi, run.unit, f.bits, src, pos));
      var y: Read<(int, BitState)> := Strict(ReadBits(bc, run.unit, f.bits, src, short));
      if x.Ok? && y.Ok? {
        BitsAfter(f, rest, run, NoRun, bi, bi, src, pos);
        HeldIsTaken(f, Run(run.unit, left), bc, src, short);
        StaysBehind(f, rest, run, bi, src, pos);
        RestIsShort(rest, RunNext(run, f), left - f.bits, y.value.1, x.value.1, src, short, x.pos,
                    r[f.name := Int(y.value.0)], r'[f.name := Int(x.value.0)]);
      }
    } else {
      assert SupportedFields(fields, NoRun) && SupportedFields(fields, run) by { RunEnds(fields, run); }
      SideBySide(fields, NoRun, Run(run.unit, left), bc, IDLE, src, short, r);
      StrictAnyBits(fields, src, pos, bi, r');
      KnownEnd(fields, src, short, r);
      KnownEnd(fields, src, pos, r');
    }
  }

  lemma NoFieldsLeft(src: Source, short: nat, pos: nat, bc: BitState, bi: BitState, r: map<string, Value>,
      r': map<string, Value>)
    ensures StrictFields([], src, pos, bi, r') == Ok(r', pos, true)
    ensures GotFields([], src, short, bc, r) == Ok(r, short, true)
  {}

  lemma InRun(fields: seq<Field>, run: Run)
    requires fields != [] && fields[0].bits > 0 && SupportedFields(fields, run) && run.Run?
    ensures BitScalar(fields[0]) == Some(run.unit) && fields[0].typ == One(Single(run.unit))
    ensures RunNext(run, fields[0]) == run.(left := run.left - fields[0].bits)
    ensures EvenFields(fields) ==> EvenFields(fields[1..])
  {}

  lemma StaysBehind(f: Field, rest: seq<Field>, run: Run, b: BitState, src: Source, pos: nat)
    requires f.bits > 0 && SupportedFields([f] + rest, run) && Loaded(run, b) && run.Run?
    requires BitScalar(f) == Some(run.unit) && Strict(ReadBits(b, run.unit, f.bits, src, pos)).Ok?
    ensures ReadBits(b, run.unit, f.bits, src, pos).pos == pos
  {
    hide ReadBits;
    BitsStep(f, rest, run, b, src, pos);
  }

  lemma RunEnds(fields: seq<Field>, run: Run)
    requires fields != [] && fields[0].bits == 0 && SupportedFields(fields, run)
    ensures SupportedFields(fields, NoRun)
  {}

  lemma StrictAnyBits(fields: seq<Field>, src: Source, pos: nat, b: BitState, r: map<string, Value>)
    requires fields != [] && fields[0].bits == 0
    ensures StrictFields(fields, src, pos, b, r) == StrictFields(fields, src, pos, IDLE, r)
  {}

  /** Fields of known length end where that says. */
  lemma KnownEnd(fields: seq<Field>, src: Source, pos: nat, r: map<string, Value>)
    requires SupportedFields(fields, NoRun) && UsedFields(fields, NoRun).Some?
    ensures var x := StrictFields(fields, src, pos, IDLE, r); x.Ok? ==> x.pos == pos + UsedFields(fields, NoRun).value
  {
    hide ReadFields, StrictFields, SupportedFields, UsedFields;
    StrictIsFull(fields, START, pos, src, pos, IDLE, r);
    var x := ReadFields(fields, START, pos, src, false, pos, IDLE, r);
    if x.Ok? && x.full { Consumed(fields, START, NoRun, pos, src, pos, IDLE, r); }
  }

  // -------------------------------------------------- examples

  const INNER: seq<Field> := [Field("x", Example.Byte, 0)]
  const NIBBLE_A := Field("a", Example.Byte, 4)
  const INNER_FIELD := Field("s", One(Struct(INNER)), 0)
  const NIBBLE_B := Field("b", Example.Byte, 4)
  const NIBBLE_C := Field("c", Example.Byte, 4)

  /** struct { uint8 a : 4; struct { uint8 x; } s; uint8 b : 4; } */
  const THREE: seq<Field> := [NIBBLE_A, INNER_FIELD, NIBBLE_B]

  /** and with a second bit field behind the structure */
  const FOUR: seq<Field> := [NIBBLE_A, INNER_FIELD, NIBBLE_B, NIBBLE_C]

  lemma ThreeTails()
    ensures THREE[1..] == [INNER_FIELD, NIBBLE_B] && THREE[1..][1..] == [NIBBLE_B] && [NIBBLE_B][1..] == []
    ensures INNER[1..] == []
  {}

  lemma ThreeHolds()
    ensures SupportedElem(Struct(THREE)) && EvenFields(THREE) && HoldsOnce(THREE, NoRun, NoRun)
    ensures !ApartFields(THREE, NoRun, NoRun)
  {
    ThreeTails();
    InnerIsPlain();
    assert SupportedElem(INNER_FIELD.typ.elem) && SupportedType(INNER_FIELD.typ);
    var held := Run(Packed(U8), 4);
    assert RunNext(NoRun, NIBBLE_A) == held;
    assert SupportedFields([NIBBLE_B], NoRun) && EvenFields([NIBBLE_B]);
    assert SupportedFields([INNER_FIELD, NIBBLE_B], held) && EvenFields([INNER_FIELD, NIBBLE_B]);
    assert HoldsOnce([NIBBLE_B], NoRun, held) && !ApartFields([NIBBLE_B], NoRun, held);
    assert HoldsOnce([INNER_FIELD, NIBBLE_B], held, NoRun) && !ApartFields([INNER_FIELD, NIBBLE_B], held, NoRun);
  }

  lemma InnerIsPlain()
    ensures SupportedFields(INNER, NoRun) && EvenFields(INNER) && ApartFields(INNER, NoRun, NoRun)
  {
    assert INNER[1..] == [];
    assert SupportedType(Example.Byte);
  }

  /** The readers of the three fields differ on every little-endian input of three bytes. */
  lemma HeldUnitExample(src: Source)
    requires |src.data| == 3 && src.endian == Little
    ensures Strict(ReadElem(Struct(THREE), src, false, 0)).Ok?
    ensures Compiled(THREE, src, 0) != Strict(ReadElem(Struct(THREE), src, false, 0))
  {
    hide Compiled, StrictFields, GotFields, ReadElem, SupportedElem, EvenFields, HoldsOnce, ApartFields;
    ThreeHolds();
    SupportedReads(THREE, src, 0);
    ThreeRead(src);
    HeldUnitExactly(THREE, src, 0);
  }

  lemma ThreeRead(src: Source)
    requires |src.data| == 3 && src.endian == Little
    ensures StrictFields(THREE, src, 0, IDLE, map[]).Ok?
  {
    hide And, Shr, ReadScalar, ReadElem;
    ThreeTails();
    InnerReads(src);
    Example.ReadByte(src, 0);
    Example.ReadByte(src, 2);
    forall r ensures StrictFields([NIBBLE_B], src, 2, IDLE, r).Ok? {}
    forall r, b ensures StrictFields([INNER_FIELD, NIBBLE_B], src, 1, b, r).Ok? {}
  }

  lemma InnerReads(src: Source)
    requires |src.data| == 3
    ensures ReadElem(Struct(INNER), src, false, 1) == Ok(Inst(map["x" := Int(src.data[1])]), 2, true)
  {
    hide ReadScalar;
    assert INNER[1..] == [];
    Example.ReadByte(src, 1);
    var p := PlanNext(START, INNER[0], TypeLen(INNER[0].typ));
    var r := map["x" := Int(src.data[1])];
    assert map[]["x" := Int(src.data[1])] == r;
    assert ReadFields([], p, 1, src, false, 2, IDLE, r) == Ok(r, 2, true);
    assert ReadFields(INNER, START, 1, src, false, 1, IDLE, map[]) == Ok(r, 2, true);
  }

  /** The generated code reads it so too. */
  lemma InnerGot(src: Source, r: map<string, Value>)
    requires |src.data| == 3
    ensures GotStruct(INNER_FIELD, r, src, 1) == Ok(Inst(map["x" := Int(src.data[1])]), 2, true)
  {
    hide ReadElem, EvenFields, ApartFields, SupportedFields;
    InnerIsPlain();
    InnerReads(src);
    InstSide(INNER, src, 1);
  }

  function FourValues(a: byte, x: byte, b: byte, c: byte): map<string, Value> {
    map["a" := Int(a), "s" := Inst(map["x" := Int(x)]), "b" := Int(b), "c" := Int(c)]
  }

  lemma FourTails()
    ensures FOUR[1..] == [INNER_FIELD, NIBBLE_B, NIBBLE_C] && FOUR[1..][1..] == [NIBBLE_B, NIBBLE_C]
    ensures FOUR[1..][1..][1..] == [NIBBLE_C] && FOUR[1..][1..][1..][1..] == []
  {}

  lemma FourSupported()
    ensures SupportedElem(Struct(FOUR))
  {
    InnerIsPlain();
    assert SupportedElem(INNER_FIELD.typ.elem) && SupportedType(INNER_FIELD.typ);
    hide SupportedFields, SupportedType;
    AroundStructure(NIBBLE_A, INNER_FIELD, NIBBLE_B, NIBBLE_C);
  }

  lemma AroundStructure(a: Field, s: Field, b: Field, c: Field)
    requires a.typ == b.typ == c.typ == Example.Byte && a.bits == b.bits == c.bits == 4
    requires s.bits == 0 && SupportedType(s.typ)
    requires a.name == "a" && s.name == "s" && b.name == "b" && c.name == "c"
    ensures SupportedFields([a, s, b, c], NoRun)
  {
    var run := Run(Packed(U8), 4);
    assert SupportedFields([], run.(left := 0));
    hide SupportedFields, SupportedType;
    OneMoreField(c, [], run);
    assert [c] + [] == [c];
    OneMoreField(b, [c], NoRun);
    assert [b] + [c] == [b, c];
    OneMoreField(s, [b, c], run);
    assert [s] + [b, c] == [s, b, c];
    OneMoreField(a, [s, b, c], NoRun);
    assert [a] + [s, b, c] == [a, s, b, c];
  }

  lemma OneMoreField(f: Field, rest: seq<Field>, run: Run)
    requires (forall g | g in rest :: g.name != f.name) && (f.bits == 0 ==> SupportedType(f.typ))
    requires f.bits > 0 ==> f.typ == Example.Byte && f.bits <= if run.Run? then run.left else 8
    requires f.bits > 0 && run.Run? ==> run.unit == Packed(U8)
    requires SupportedFields(rest, RunNext(run, f))
    ensures SupportedFields([f] + rest, run)
  {
    assert ([f] + rest)[0] == f && ([f] + rest)[1..] == rest;
  }

  /** The generated reader takes b from the unit of a, and loads for c the unit that holds b and c. */
  lemma FourGot(src: Source)
    requires |src.data| == 3 && src.endian == Little && src.data[0] < 16 && src.data[2] < 16
    ensures GotFields(FOUR, src, 0, IDLE, map[]) == Ok(FourValues(src.data[0], src.data[1], 0, src.data[2]), 3, true)
  {
    hide ReadBits, GotStruct, ReadScalar;
    FourTails();
    var held, empty := BitState(Some(Packed(U8)), 0, 4), BitState(Some(Packed(U8)), 0, 0);
    var r1 := map["a" := Int(src.data[0])];
    var r2 := r1["s" := Inst(map["x" := Int(src.data[1])])];
    var r3 := r2["b" := Int(0)];
    var r4 := r3["c" := Int(src.data[2])];
    assert map[]["a" := Int(src.data[0])] == r1;
    Example.ReadNibble(src, 0);
    Example.HighNibble(src, 2);
    Example.ReadNibble(src, 2);
    NibbleAfterUnit(src);
    InnerGot(src, r1);
    assert GotFields([], src, 3, held, r4) == Ok(r4, 3, true);
    assert GotFields([NIBBLE_C], src, 2, empty, r3) == Ok(r4, 3, true);
    assert GotFields([NIBBLE_B, NIBBLE_C], src, 2, held, r2) == Ok(r4, 3, true);
    assert GotFields([INNER_FIELD, NIBBLE_B, NIBBLE_C], src, 1, held, r1) == Ok(r4, 3, true);
    assert r4 == FourValues(src.data[0], src.data[1], 0, src.data[2]);
  }

  /** A unit that is used up is replaced. */
  lemma NibbleAfterUnit(src: Source)
    ensures ReadBits(BitState(Some(Packed(U8)), 0, 0), Packed(U8), 4, src, 2) == ReadBits(IDLE, Packed(U8), 4, src, 2)
  {
    hide ReadScalar, TakeBits;
  }

  /** The interpreter loads that unit for b. */
  lemma FourReads(src: Source)
    requires |src.data| == 3 && src.endian == Little && src.data[0] < 16 && src.data[2] < 16
    ensures StrictFields(FOUR, src, 0, IDLE, map[]) == Ok(FourValues(src.data[0], src.data[1], src.data[2], 0), 3, true)
  {
    hide ReadBits, ReadElem, ReadScalar;
    FourTails();
    var held := BitState(Some(Packed(U8)), 0, 4);
    var r1 := map["a" := Int(src.data[0])];
    var r2 := r1["s" := Inst(map["x" := Int(src.data[1])])];
    var r3 := r2["b" := Int(src.data[2])];
    var r4 := r3["c" := Int(0)];
    assert map[]["a" := Int(src.data[0])] == r1;
    Example.ReadNibble(src, 0);
    InnerReads(src);
    Example.ReadNibble(src, 2);
    Example.HighNibble(src, 3);
    assert StrictFields([], src, 3, BitState(Some(Packed(U8)), 0, 0), r4) == Ok(r4, 3, true);
    assert StrictFields([NIBBLE_C], src, 3, held, r3) == Ok(r4, 3, true);
    assert StrictFields([NIBBLE_B, NIBBLE_C], src, 2, IDLE, r2) == Ok(r4, 3, true);
    assert StrictFields([INNER_FIELD, NIBBLE_B, NIBBLE_C], src, 1, held, r1) == Ok(r4, 3, true);
    assert r4 == FourValues(src.data[0], src.data[1], src.data[2], 0);
  }

  /** Where the run goes on behind the held unit the bytes decide: with two bit fields behind the
      structure the readers agree on three zeros, and not when the last byte is 1. */
  lemma HeldUnitByChance(zeros: Source, other: Source)
    requires zeros.data == [0, 0, 0] && other.data == [0, 0, 1] && zeros.endian == Little && other.endian == Little
    ensures SupportedElem(Struct(FOUR))
    ensures Compiled(FOUR, zeros, 0) == Strict(ReadElem(Struct(FOUR), zeros, false, 0))
    ensures Compiled(FOUR, other, 0) != Strict(ReadElem(Struct(FOUR), other, false, 0))
  {
    hide Compiled, StrictFields, GotFields, ReadElem, SupportedElem;
    FourSupported();
    SupportedReads(FOUR, zeros, 0);
    SupportedReads(FOUR, other, 0);
    FourGot(zeros);
    FourReads(zeros);
    FourGot(other);
    FourReads(other);
    FourDiffer(FourValues(0, 0, 0, 1), FourValues(0, 0, 1, 0));
  }

  lemma FourDiffer(v: map<string, Value>, w: map<string, Value>)
    requires v == FourValues(0, 0, 0, 1) && w == FourValues(0, 0, 1, 0)
    ensures v != w
  {
    assert "b" in v && "b" in w && v["b"] == Int(0) && w["b"] == Int(1);
  }

  // -------------------------------------------------- an array counted by its own name

  const EMPTY: seq<Field> := []
  const OWN_COUNT := Field("n", Many(Struct(EMPTY), Dynamic("n")), 0)

  /** The value of a text that is one name. */
  lemma NameAlone(s: string, env: Ex.Env)
    requires s == "n"
    ensures Ex.EvaluateFrom(s, [], [], Ex.Part(env)) == Ex.Lookup(s, env)
  {
    hide Ex.Lookup, Ex.SplitAt, Strip, LastIndex, Ex.OpText;
    assert s[1..] == [] && [] + [s[0]] == s;
    assert Ex.EvaluateFrom([], [], s, Ex.Part(env)) == Ex.EvaluatePart(s, env);
    NameStripped(s);
    forall op: Ex.Op ensures LastIndex(s, Ex.OpText(op)) == -1 { NoOperator(s, op); }
    NoneFound(s, Ex.OPERATORS);
  }

  lemma NameStripped(s: string)
    requires s == "n"
    ensures Strip(s) == s
  {
    assert !IsSpace(s[0]);
  }

  lemma NoOperator(s: string, op: Ex.Op)
    requires s == "n"
    ensures LastIndex(s, Ex.OpText(op)) == -1
  {
    hide LastIndex;
    var o := Ex.OpText(op);
    assert s != o && s[0..1] == s && forall k :: !At(s, o, k);
  }

  lemma {:induction false} NoneFound(s: string, ops: seq<Ex.Op>)
    requires forall op :: LastIndex(s, Ex.OpText(op)) == -1
    ensures Ex.SplitAt(s, ops) == Ex.Atom(s)
  {
    hide LastIndex, Ex.OpText;
    if ops != [] { NoneFound(s, ops[1..]); }
  }

  /** Where its name is also that of a constant, the interpreter takes the constant; the generated class
      finds the list that it has just put there, and fails. */
  lemma OwnNameExample(src: Source)
    requires src.consts == map["n" := 0]
    ensures StrictFields([OWN_COUNT], src, 0, IDLE, map[]) == Ok(map["n" := List([])], 0, true)
    ensures Compiled([OWN_COUNT], src, 0) == Fail
  {
    hide Ex.EvaluateFrom, Ex.Part, Compiled;
    var own: map<string, Value> := map["n" := List([])];
    NameAlone("n", Ex.Env(ContextOf(map[]), src.consts));
    NameAlone("n", Ex.Env(ContextOf(own), src.consts));
    assert Evaluated("n", map[], src) == Some(0) && Evaluated("n", own, src) == None;
    assert [OWN_COUNT][1..] == [] && map[]["n" := List([])] == own;
    assert ReadMany(Struct(EMPTY), 0, src, false, 0) == Ok([], 0, true);
    assert StrictFields([], src, 0, IDLE, own) == Ok(own, 0, true);
    CompiledExactly([OWN_COUNT], src, 0);
    assert GotFields([OWN_COUNT], src, 0, IDLE, map[]) == Fail;
  }
}
