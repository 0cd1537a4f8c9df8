/** The generated reader of a whole structure against the interpreter. */
module CompilerTheorem {
  import opened Bits
  import opened Bytes
  import opened BytesInteger
  import opened Text
  import opened Layout
  import opened Offsets
  import opened Seeks
  import opened SeekLimits
  import opened ExpressionContexts
  import opened Compiler
  import opened CompilerProofs
  import opened GeneratedReader

  /** Reading field by field, giving up at the first missing byte. */
  function StrictFields(fields: seq<Field>, src: Source, pos: nat, b: BitState,
      r: map<string, Value>): Read<map<string, Value>>
    decreases fields
  {
    if fields == [] then Ok(r, pos, true)
    else
      var f, rest := fields[0], fields[1..];
      if f.bits > 0 then
        if BitScalar(f).None? then Fail
        else
          var x: Read<(int, BitState)> := Strict(ReadBits(b, BitScalar(f).value, f.bits, src, pos));
          if x.Fail? then Fail else StrictFields(rest, src, x.pos, x.value.1, r[f.name := Int(x.value.0)])
      else
        var x := Strict(ReadType(f.typ, r, src, false, pos));
        if x.Fail? then Fail else StrictFields(rest, src, x.pos, IDLE, r[f.name := x.value])
  }

  lemma {:induction false} StrictIsFull(fields: seq<Field>, p: Plan, start: nat, src: Source, pos: nat, b: BitState,
      r: map<string, Value>)
    ensures Strict(ReadFields(fields, p, start, src, false, pos, b, r)) == StrictFields(fields, src, pos, b, r)
    decreases fields
  {
    hide ReadType, ReadBits, PlanNext, TypeLen;
    if fields != [] {
      var f, rest := fields[0], fields[1..];
      var p' := PlanNext(p, f, TypeLen(f.typ));
      if f.bits > 0 {
        if BitScalar(f).Some? {
          var x := ReadBits(b, BitScalar(f).value, f.bits, src, pos);
          if x.Ok? {
            StrictIsFull(rest, p', start, src, x.pos, x.value.1, r[f.name := Int(x.value.0)]);
          }
        }
      } else {
        var x := ReadType(f.typ, r, src, false, pos);
        if x.Ok? {
          StrictIsFull(rest, p', start, src, x.pos, IDLE, r[f.name := x.value]);
        }
      }
    }
  }

  // -------------------------------------------------- where the readers part

  /** No bit field is taken from a unit that a generated class still holds over a structure, and no
      array of structures looks itself up in its count. `held` is such a unit. */
  ghost predicate ApartFields(fields: seq<Field>, run: Run, held: Run)
    decreases fields
  {
    fields == [] ||
    var f := fields[0];
    && (f.typ.elem.Struct? ==> ApartFields(f.typ.elem.fields, NoRun, NoRun) && OwnNameFree(f))
    && (f.bits > 0 && run.NoRun? ==> !Reused(held, f))
    && ApartFields(fields[1..], RunNext(run, f), HeldNext(f, run, held))
  }

  /** The unit that a generated class holds after the field, though the interpreter has dropped it. */
  function HeldNext(f: Field, run: Run, held: Run): Run {
    if f.typ.elem.Single? then NoRun else if run.Run? then run else held
  }

  /** The count of an array of structures does not look up the array itself. */
  ghost predicate OwnNameFree(f: Field) {
    f.typ.Many? && f.typ.count.Dynamic? ==> OwnNameUnused(f.name, f.typ.count.expr)
  }

  /** The generated bit reader would take the field from a unit read before a structure. */
  predicate Reused(held: Run, f: Field) {
    held.Run? && held.left >= 1 && BitScalar(f) == Some(held.unit)
  }

  /** No field at any depth is odd. */
  predicate EvenFields(fields: seq<Field>)
    decreases fields
  {
    fields == [] ||
    var f := fields[0];
    && (f.bits == 0 ==> !Odd(f.typ) && (f.typ.elem.Struct? ==> EvenFields(f.typ.elem.fields)))
    && EvenFields(fields[1..])
  }

  /** The layouts that the compiler can handle. */
  ghost predicate Compilable(fields: seq<Field>) { ApartFields(fields, NoRun, NoRun) && EvenFields(fields) }

  /** A field of this instance is odd: one of the structure itself, or of a structure that is there. */
  predicate OddFields(fields: seq<Field>, values: map<string, Value>)
    decreases fields, 0
  {
    fields != [] &&
    var f := fields[0];
    || (f.bits == 0 && f.name in values && OddType(f.typ, values[f.name]))
    || OddFields(fields[1..], values)
  }

  predicate OddType(t: Type, v: Value)
    decreases t, 0
  {
    || Odd(t)
    || (t.elem.Struct? && t.One? && OddInst(t.elem.fields, v))
    || (t.elem.Struct? && t.Many? && v.List? && OddAny(t.elem.fields, v.vs))
  }

  predicate OddInst(fields: seq<Field>, v: Value)
    decreases fields, 1
  {
    v.Inst? && OddFields(fields, v.values)
  }

  predicate OddAny(fields: seq<Field>, vs: seq<Value>)
    decreases fields, 2
  {
    exists k :: 0 <= k < |vs| && OddInst(fields, vs[k])
  }

  // -------------------------------------------------- one field

  lemma FixedReads(f: Field, src: Source, pos: nat, r: map<string, Value>)
    requires IsFixed(f)
    ensures Strict(ReadType(f.typ, r, src, false, pos)) ==
            if Enough(src, pos, FixedSize(f)) then Ok(FixedValue(f, Chunk(src, pos, FixedSize(f)), src.endian),
                pos + FixedSize(f), true)
            else Fail
  {
    hide Decode, CharSize, CharSigned;
  }

  /** Where the generated reader gives something else, or nothing. */
  predicate Differs<T(==)>(x: Read<T>, y: Read<T>) { x.Ok? ==> y.Fail? || y.value != x.value }

  lemma ScalarsExactly(f: Field, r: map<string, Value>, src: Source, pos: nat)
    requires f.typ.elem.Single? && f.bits == 0
    ensures var x, y := Strict(ReadType(f.typ, r, src, false, pos)), GotScalars(f, r, src, pos);
            if Odd(f.typ) then Differs(x, y) else y == x
  {
    hide ReadUntilZero, GotValue, FixedValue;
    if IsFixed(f) {
      hide ReadType;
      FixedReads(f, src, pos, r);
      var n := FixedSize(f);
      if Enough(src, pos, n) { GotExactly(f, Chunk(src, pos, n), src.endian); }
    }
  }

  // -------------------------------------------------- the two readers side by side

  /** The bit buffers of the generated code and of the interpreter. */
  predicate SameBits(run: Run, held: Run, bc: BitState, bi: BitState) {
    if run.Run? then held.NoRun? && bc == bi && Loaded(run, bi)
    else bi == IDLE && if held.NoRun? then bc == IDLE else bc.typ == Some(held.unit) && bc.remaining == held.left
  }

  /** What is assumed of the fields still to come. */
  ghost predicate Ready(fields: seq<Field>, run: Run, held: Run, bc: BitState, bi: BitState) {
    SupportedFields(fields, run) && ApartFields(fields, run, held) && SameBits(run, held, bc, bi)
  }

  lemma {:induction false} KeptGot(fields: seq<Field>, src: Source, pos: nat, b: BitState, r: map<string, Value>,
      name: string)
    requires name in r && Fresh(name, fields) && GotFields(fields, src, pos, b, r).Ok?
    ensures var x := GotFields(fields, src, pos, b, r); name in x.value && x.value[name] == r[name]
    decreases fields
  {
    hide GotStruct, GotScalars, ReadBits;
    if fields != [] {
      var f, rest := fields[0], fields[1..];
      assert Fresh(name, rest);
      if f.typ.elem.Struct? {
        var x := GotStruct(f, r, src, pos);
        KeptGot(rest, src, x.pos, b, r[f.name := x.value], name);
      } else if f.bits > 0 {
        var x: Read<(int, BitState)> := Strict(ReadBits(b, f.typ.elem.scalar, f.bits, src, pos));
        KeptGot(rest, src, x.pos, x.value.1, r[f.name := Int(x.value.0)], name);
      } else {
        var x := GotScalars(f, r, src, pos);
        KeptGot(rest, src, x.pos, IDLE, r[f.name := x.value], name);
      }
    }
  }

  lemma KeptStrict(fields: seq<Field>, src: Source, pos: nat, b: BitState, r: map<string, Value>, name: string)
    requires name in r && Fresh(name, fields) && StrictFields(fields, src, pos, b, r).Ok?
    ensures var x := StrictFields(fields, src, pos, b, r); name in x.value && x.value[name] == r[name]
  {
    hide ReadFields, StrictFields;
    StrictIsFull(fields, START, pos, src, pos, b, r);
    Kept(fields, START, pos, src, false, pos, b, r, name);
  }

  /** The generated reader against the interpreter that reads on: in a layout without odd fields they do
      the same, and on an input that the interpreter reads they do if and only if no field of the
      instance is odd. */
  lemma {:induction false} SideBySide(fields: seq<Field>, run: Run, held: Run, bc: BitState, bi: BitState, src: Source,
      pos: nat, r: map<string, Value>)
    requires Ready(fields, run, held, bc, bi)
    ensures var x, y := StrictFields(fields, src, pos, bi, r), GotFields(fields, src, pos, bc, r);
            && (EvenFields(fields) ==> y == x)
            && (x.Ok? ==> if OddFields(fields, x.value) then Differs(x, y) else y == x)
    decreases fields, 1
  {
    hide ReadType, ReadBits, GotStruct, GotScalars, SupportedFields, ApartFields, StrictFields, GotFields;
    if fields == [] {
      NoneLeft(src, pos, bc, bi, r);
    } else if fields[0].bits > 0 {
      BitsSide(fields, run, held, bc, bi, src, pos, r);
    } else {
      var f, rest := fields[0], fields[1..];
      var x := Strict(ReadType(f.typ, r, src, false, pos));
      var y := if f.typ.elem.Struct? then GotStruct(f, r, src, pos) else GotScalars(f, r, src, pos);
      var b := AfterField(fields, run, held, bc, bi);
      ApartFirst(fields, run, held);
      if f.typ.elem.Struct? { StructSide(f, r, src, pos); } else { ScalarsExactly(f, r, src, pos); }
      StrictFirst(fields, src, pos, bi, r);
      GotFirst(fields, src, pos, bc, r);
      if x.Ok? && y == x { SideBySide(rest, NoRun, HeldNext(f, run, held), b, IDLE, src, x.pos, r[f.name := x.value]); }
      FirstIsFresh(fields, run);
      TypeSide(fields, x, y, b, bc, bi, src, pos, r);
    }
  }

  lemma NoneLeft(src: Source, pos: nat, bc: BitState, bi: BitState, r: map<string, Value>)
    ensures GotFields([], src, pos, bc, r) == StrictFields([], src, pos, bi, r)
  {}

  lemma StrictFirst(fields: seq<Field>, src: Source, pos: nat, b: BitState, r: map<string, Value>)
    requires fields != [] && fields[0].bits == 0
    ensures var x := Strict(ReadType(fields[0].typ, r, src, false, pos));
            StrictFields(fields, src, pos, b, r)
            == if x.Fail? then Fail else StrictFields(fields[1..], src, x.pos, IDLE, r[fields[0].name := x.value])
  {
    hide ReadType;
  }

  lemma GotFirst(fields: seq<Field>, src: Source, pos: nat, b: BitState, r: map<string, Value>)
    requires fields != [] && fields[0].bits == 0
    ensures var f := fields[0];
            var y := if f.typ.elem.Struct? then GotStruct(f, r, src, pos) else GotScalars(f, r, src, pos);
            GotFields(fields, src, pos, b, r)
            == if y.Fail? then Fail
               else GotFields(fields[1..], src, y.pos, if f.typ.elem.Struct? then b else IDLE, r[f.name := y.value])
  {
    hide GotStruct, GotScalars;
  }

  /** The bit buffer of the generated code behind a field that is no bit field. */
  lemma AfterField(fields: seq<Field>, run: Run, held: Run, bc: BitState, bi: BitState) returns (b: BitState)
    requires fields != [] && fields[0].bits == 0 && SupportedFields(fields, run) && SameBits(run, held, bc, bi)
    ensures b == if fields[0].typ.elem.Struct? then bc else IDLE
    ensures SupportedFields(fields[1..], NoRun) && SameBits(NoRun, HeldNext(fields[0], run, held), b, IDLE)
    ensures fields[0].typ.elem.Struct? ==> SupportedFields(fields[0].typ.elem.fields, NoRun)
  {
    var f := fields[0];
    assert SupportedType(f.typ) && SupportedElem(f.typ.elem);
    b := if f.typ.elem.Struct? then bc else IDLE;
  }

  lemma ApartFirst(fields: seq<Field>, run: Run, held: Run)
    requires fields != [] && ApartFields(fields, run, held)
    ensures var f := fields[0];
            && ApartFields(fields[1..], RunNext(run, f), HeldNext(f, run, held))
            && (f.typ.elem.Struct? ==> OwnNameFree(f) && ApartFields(f.typ.elem.fields, NoRun, NoRun))
            && (f.bits > 0 && run.NoRun? ==> !Reused(held, f))
  {}

  /** The first field decides whether the rest matters. */
  lemma TypeSide(fields: seq<Field>, x: Read<Value>, y: Read<Value>, b: BitState, bc: BitState, bi: BitState,
      src: Source, pos: nat, r: map<string, Value>)
    requires fields != [] && fields[0].bits == 0 && Fresh(fields[0].name, fields[1..])
    requires var f, rest := fields[0], fields[1..];
             && StrictFields(fields, src, pos, bi, r)
                == (if x.Fail? then Fail else StrictFields(rest, src, x.pos, IDLE, r[f.name := x.value]))
             && GotFields(fields, src, pos, bc, r)
                == (if y.Fail? then Fail else GotFields(rest, src, y.pos, b, r[f.name := y.value]))
             && (!Odd(f.typ) && (f.typ.elem.Struct? ==> EvenFields(f.typ.elem.fields)) ==> y == x)
             && (x.Ok? ==> if OddType(f.typ, x.value) then Differs(x, y) else y == x)
             && (x.Ok? && y == x ==>
                   var x', y' := StrictFields(rest, src, x.pos, IDLE, r[f.name := x.value]),
                                 GotFields(rest, src, x.pos, b, r[f.name := x.value]);
                   && (EvenFields(rest) ==> y' == x')
                   && (x'.Ok? ==> if OddFields(rest, x'.value) then Differs(x', y') else y' == x'))
    ensures var x, y := StrictFields(fields, src, pos, bi, r), GotFields(fields, src, pos, bc, r);
            && (EvenFields(fields) ==> y == x)
            && (x.Ok? ==> if OddFields(fields, x.value) then Differs(x, y) else y == x)
  {
    hide StrictFields, GotFields, OddType, Odd;
    var f, rest := fields[0], fields[1..];
    if StrictFields(fields, src, pos, bi, r).Ok? {
      KeptStrict(rest, src, x.pos, IDLE, r[f.name := x.value], f.name);
      if GotFields(fields, src, pos, bc, r).Ok? { KeptGot(rest, src, y.pos, b, r[f.name := y.value], f.name); }
    }
  }

  lemma {:induction false} StructSide(f: Field, r: map<string, Value>, src: Source, pos: nat)
    requires f.bits == 0 && f.typ.elem.Struct? && OwnNameFree(f)
    requires Ready(f.typ.elem.fields, NoRun, NoRun, IDLE, IDLE)
    ensures var x, y := Strict(ReadType(f.typ, r, src, false, pos)), GotStruct(f, r, src, pos);
            && (EvenFields(f.typ.elem.fields) ==> y == x)
            && (x.Ok? ==> if OddType(f.typ, x.value) then Differs(x, y) else y == x)
    decreases f.typ.elem.fields, 4
  {
    hide ReadFields, ReadMany, GotFields, GotMany, Evaluated, Ready, StrictFields, EvenFields, OddFields, OddAny;
    var sub := f.typ.elem.fields;
    if f.typ.One? {
      InstSide(sub, src, pos);
    } else {
      var n := CountIn(f.typ.count, r, src);
      assert CountIn(f.typ.count, r[f.name := List([])], src) == n;
      if n.Some? { ManySide(sub, n.value, src, pos); }
    }
  }

  /** One structure. */
  lemma {:induction false} InstSide(sub: seq<Field>, src: Source, pos: nat)
    requires Ready(sub, NoRun, NoRun, IDLE, IDLE)
    ensures var x, y := Strict(ReadElem(Struct(sub), src, false, pos)), GotFields(sub, src, pos, IDLE, map[]);
            && (EvenFields(sub) ==> Instance(y) == x)
            && (x.Ok? ==> if OddInst(sub, x.value) then Differs(x, Instance(y)) else Instance(y) == x)
    decreases sub, 2
  {
    hide ReadFields, GotFields, Ready, StrictFields, EvenFields, OddFields;
    SideBySide(sub, NoRun, NoRun, IDLE, IDLE, src, pos, map[]);
    StrictIsFull(sub, START, pos, src, pos, IDLE, map[]);
  }

  lemma {:induction false} ManySide(sub: seq<Field>, n: nat, src: Source, pos: nat)
    requires Ready(sub, NoRun, NoRun, IDLE, IDLE)
    ensures var x, y := Strict(ReadMany(Struct(sub), n, src, false, pos)), GotMany(sub, n, src, pos);
            && (EvenFields(sub) ==> y == x)
            && (x.Ok? ==> if OddAny(sub, x.value) then Differs(x, y) else y == x)
    decreases sub, 3, n
  {
    hide ReadElem, GotFields, Ready, EvenFields, OddInst;
    if n > 0 {
      InstSide(sub, src, pos);
      var x := Strict(ReadElem(Struct(sub), src, false, pos));
      if x.Ok? {
        ManySide(sub, n - 1, src, x.pos);
        var more := Strict(ReadMany(Struct(sub), n - 1, src, false, x.pos));
        if more.Ok? { OddAnyCons(sub, x.value, more.value); }
        var y := GotFields(sub, src, pos, IDLE, map[]);
        if more.Ok? && y.Ok? { SameCons(x.value, more.value, Inst(y.value)); }
      }
    }
  }

  lemma SameCons(v: Value, vs: seq<Value>, w: Value)
    ensures forall ws: seq<Value> :: [v] + vs == [w] + ws <==> v == w && vs == ws
  {
    forall ws: seq<Value> | [v] + vs == [w] + ws ensures v == w && vs == ws {
      assert ([v] + vs)[0] == v && ([w] + ws)[0] == w && ([v] + vs)[1..] == vs && ([w] + ws)[1..] == ws;
    }
  }

  lemma OddAnyCons(sub: seq<Field>, v: Value, vs: seq<Value>)
    ensures OddAny(sub, [v] + vs) <==> OddInst(sub, v) || OddAny(sub, vs)
  {
    hide OddInst;
    if OddAny(sub, vs) {
      var k :| 0 <= k < |vs| && OddInst(sub, vs[k]);
      assert ([v] + vs)[k + 1] == vs[k];
    }
    if OddInst(sub, v) { assert ([v] + vs)[0] == v; }
  }

  // -------------------------------------------------- bit fields

  lemma {:induction false} BitsSide(fields: seq<Field>, run: Run, held: Run, bc: BitState, bi: BitState, src: Source,
      pos: nat, r: map<string, Value>)
    requires fields != [] && fields[0].bits > 0 && Ready(fields, run, held, bc, bi)
    ensures var x, y := StrictFields(fields, src, pos, bi, r), GotFields(fields, src, pos, bc, r);
            && (EvenFields(fields) ==> y == x)
            && (x.Ok? ==> if OddFields(fields, x.value) then Differs(x, y) else y == x)
    decreases fields, 0
  {
    hide ReadBits, StrictFields, GotFields, SupportedFields, ApartFields;
    var f, rest := fields[0], fields[1..];
    assert fields == [f] + rest;
    ApartFirst(fields, run, held);
    SameUnit(f, rest, run, held, bc, bi, src, pos);
    var x: Read<(int, BitState)> := Strict(ReadBits(bi, f.typ.elem.scalar, f.bits, src, pos));
    StrictBits(fields, src, pos, bi, r);
    BitsFirst(fields, src, pos, bc, r);
    if x.Ok? {
      BitsAfter(f, rest, run, held, bc, bi, src, pos);
      assert HeldNext(f, run, held) == NoRun;
      SideBySide(rest, RunNext(run, f), NoRun, x.value.1, x.value.1, src, x.pos, r[f.name := Int(x.value.0)]);
    }
  }

  lemma StrictBits(fields: seq<Field>, src: Source, pos: nat, b: BitState, r: map<string, Value>)
    requires fields != [] && fields[0].bits > 0 && BitScalar(fields[0]).Some?
    ensures var x: Read<(int, BitState)> := Strict(ReadBits(b, BitScalar(fields[0]).value, fields[0].bits, src, pos));
            StrictFields(fields, src, pos, b, r)
            == if x.Fail? then Fail else StrictFields(fields[1..], src, x.pos, x.value.1,
                r[fields[0].name := Int(x.value.0)])
  {
    hide ReadBits;
  }

  /** The state of the interpreter's bit reader after the field. */
  lemma BitsAfter(f: Field, rest: seq<Field>, run: Run, held: Run, bc: BitState, bi: BitState, src: Source, pos: nat)
    requires f.bits > 0 && BitScalar(f).Some? && SupportedFields([f] + rest, run) && SameBits(run, held, bc, bi)
    requires Strict(ReadBits(bi, BitScalar(f).value, f.bits, src, pos)).Ok?
    ensures var b := ReadBits(bi, BitScalar(f).value, f.bits, src, pos).value.1;
            && SupportedFields(rest, RunNext(run, f))
            && Loaded(RunNext(run, f), b) && SameBits(RunNext(run, f), NoRun, b, b)
  {
    hide ReadBits;
    assert ([f] + rest)[0] == f && ([f] + rest)[1..] == rest;
    BitsStep(f, rest, run, bi, src, pos);
  }

  /** Both bit readers take the field from the same unit. */
  lemma SameUnit(f: Field, rest: seq<Field>, run: Run, held: Run, bc: BitState, bi: BitState, src: Source, pos: nat)
    requires f.bits > 0 && SupportedFields([f] + rest, run) && SameBits(run, held, bc, bi)
    requires run.NoRun? ==> !Reused(held, f)
    ensures BitScalar(f).Some? && f.typ == One(Single(BitScalar(f).value))
    ensures ReadBits(bc, BitScalar(f).value, f.bits, src, pos) == ReadBits(bi, BitScalar(f).value, f.bits, src, pos)
  {
    hide TakeBits, ReadScalar;
    assert ([f] + rest)[0] == f && ([f] + rest)[1..] == rest;
  }

  // -------------------------------------------------- whole structures

  lemma {:induction false} SupportedCompiles(fields: seq<Field>, run: Run)
    requires SupportedFields(fields, run)
    ensures Compiles(fields)
    decreases fields
  {
    if fields != [] {
      var f := fields[0];
      SupportedCompiles(fields[1..], RunNext(run, f));
      if f.typ.elem.Struct? {
        assert SupportedType(f.typ) && SupportedElem(f.typ.elem);
        SupportedCompiles(f.typ.elem.fields, NoRun);
      }
    }
  }

  /** A supported layout compiles, and its generated class reads its fields one by one. */
  lemma SupportedReads(fields: seq<Field>, src: Source, pos: nat)
    requires SupportedElem(Struct(fields))
    ensures Blocks(fields, [], 0, false).Some?
    ensures Compiled(fields, src, pos) == Instance(GotFields(fields, src, pos, IDLE, map[]))
    ensures Strict(ReadElem(Struct(fields), src, false, pos)) == Instance(StrictFields(fields, src, pos, IDLE, map[]))
  {
    hide Blocks, SupportedFields, Compiled, ReadFields, GotFields, StrictFields;
    var e := Struct(fields);
    assert SupportedFields(fields, NoRun) by { assert SupportedElem(e); }
    SupportedCompiles(fields, NoRun);
    CompiledExactly(fields, src, pos);
    StrictIsFull(fields, START, pos, src, pos, IDLE, map[]);
    assert ReadElem(e, src, false, pos)
        == match ReadFields(fields, START, pos, src, false, pos, IDLE, map[])
           case Fail => Fail
           case Ok(r, p, full) => Ok(Inst(r), p, full);
  }

  /** On every input that the interpreter reads: the generated class gives the same instance and position
      if and only if no field of the instance is odd. In a harmless layout that interpreter is
      Structure._read with its seeks. */
  lemma ReadsExactly(fields: seq<Field>, src: Source, pos: nat)
    requires SupportedElem(Struct(fields)) && ApartFields(fields, NoRun, NoRun)
    requires Strict(ReadElem(Struct(fields), src, false, pos)).Ok?
    ensures var x := Strict(ReadElem(Struct(fields), src, false, pos));
            x.value.Inst? && (Compiled(fields, src, pos) == x <==> !OddFields(fields, x.value.values))
    ensures HarmlessElem(Struct(fields)) ==>
              Strict(ReadElem(Struct(fields), src, true, pos)) == Strict(ReadElem(Struct(fields), src, false, pos))
  {
    hide Blocks, Compiled, ReadElem, GotFields, StrictFields, ApartFields, SupportedFields, HarmlessElem;
    SupportedReads(fields, src, pos);
    assert SupportedElem(Struct(fields));
    SideBySide(fields, NoRun, NoRun, IDLE, IDLE, src, pos, map[]);
    if HarmlessElem(Struct(fields)) { NoHarmElem(Struct(fields), src, pos); }
  }

  lemma CompiledReadsOn(fields: seq<Field>, src: Source, pos: nat)
    requires SupportedElem(Struct(fields)) && Compilable(fields)
    ensures Blocks(fields, [], 0, false).Some?
    ensures Compiled(fields, src, pos) == Strict(ReadElem(Struct(fields), src, false, pos))
  {
    hide Blocks, Compiled, ReadElem, GotFields, StrictFields, ApartFields, SupportedFields, EvenFields;
    SupportedReads(fields, src, pos);
    assert SupportedElem(Struct(fields));
    SideBySide(fields, NoRun, NoRun, IDLE, IDLE, src, pos, map[]);
  }

  /** The compiler preserves meaning: from every byte string and position, the generated class
      and Structure._read, which obeys stated offsets, both find a byte missing or give the same
      instance and the same position after it. */
  lemma CompilerPreservesMeaning(fields: seq<Field>, src: Source, pos: nat)
    requires SupportedElem(Struct(fields)) && HarmlessElem(Struct(fields)) && Compilable(fields)
    ensures Blocks(fields, [], 0, false).Some?
    ensures Compiled(fields, src, pos) == Strict(ReadElem(Struct(fields), src, true, pos))
  {
    hide Blocks, SupportedFields, Compilable, Compiled, ReadElem, HarmlessElem;
    CompiledReadsOn(fields, src, pos);
    NoHarmElem(Struct(fields), src, pos);
  }

  /** In any other layout, on every input that holds all of its bytes: the generated class, which does
      not seek, and Structure._read agree if no seek goes astray in the instance, and only then; unless
      a structure inside ends in a run that its own plan cuts. */
  lemma CompilerExactly(fields: seq<Field>, src: Source, pos: nat)
    requires SupportedElem(Struct(fields)) && Compilable(fields)
    requires Compiled(fields, src, pos).Ok?
    ensures var e, v := Struct(fields), Compiled(fields, src, pos).value;
            && (!StrayElem(e, v) ==> Compiled(fields, src, pos) == Strict(ReadElem(e, src, true, pos)))
            && (NestedUnsplit(fields) ==>
                  (Compiled(fields, src, pos) == Strict(ReadElem(e, src, true, pos)) <==> !StrayElem(e, v)))
  {
    hide Blocks, SupportedFields, Compilable, Compiled, ReadElem, StrayElem;
    var e := Struct(fields);
    CompiledReadsOn(fields, src, pos);
    if !StrayElem(e, Compiled(fields, src, pos).value) { SameElem(e, src, pos); }
    if NestedUnsplit(fields) { SeeksExactly(e, src, pos); }
  }
}
