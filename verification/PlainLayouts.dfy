/** Layouts without bit fields: the generated reader gives back every consistent instance. */
module PlainLayouts {
  import opened Bits
  import opened Bytes
  import opened Text
  import opened Layout
  import opened Offsets
  import opened RoundTrip
  import opened StructureRoundTrip
  import opened Compiler
  import opened CompilerProofs
  import opened CompilerTheorem
  import opened GeneratedReader

  /** Packed integers, arrays of them and of characters, and structures of such fields. */
  predicate PlainType(t: Type)
    decreases t
  {
    match t
    case One(Single(s)) => s.Packed?
    case Many(Single(s), count) => !s.BytesInt? && !count.NullTerminated?
    case One(Struct(fields)) => PlainLayout(fields)
    case _ => false
  }

  predicate PlainLayout(fields: seq<Field>)
    decreases fields
  {
    fields == [] ||
    (&& (forall g | g in fields[1..] :: g.name != fields[0].name)
     && fields[0].bits == 0 && PlainType(fields[0].typ) && PlainLayout(fields[1..]))
  }

  lemma {:induction false} PlainIsSupported(fields: seq<Field>)
    requires PlainLayout(fields)
    ensures SupportedFields(fields, NoRun) && Compilable(fields)
    decreases fields
  {
    if fields != [] {
      var f, rest := fields[0], fields[1..];
      PlainIsSupported(rest);
      if f.typ.elem.Struct? { PlainIsSupported(f.typ.elem.fields); }
      assert SupportedElem(f.typ.elem) && SupportedType(f.typ);
    }
  }

  /** Reading an instance that was written, with the generated class. */
  lemma ReadsInstance(fields: seq<Field>, v: Value, src: Source, pos: nat, out: seq<byte>)
    requires PlainLayout(fields) && FitsElem(Struct(fields), v, src)
    requires WriteElem(Struct(fields), v, src.endian) == Some(out) && Holds(src, pos, out)
    ensures Compiled(fields, src, pos) == Ok(v, pos + |out|, true)
  {
    hide FitsElem, WriteElem, ReadElem, Compiled, SupportedFields, Compilable;
    PlainIsSupported(fields);
    assert SupportedElem(Struct(fields));
    ElemRoundTrip(Struct(fields), v, src, pos);
    CompiledReadsOn(fields, src, pos);
  }

  // -------------------------------------------------- instances from values in order

  function Assigned(fields: seq<Field>, vals: seq<Value>, r: map<string, Value>): map<string, Value>
    requires |fields| == |vals|
    decreases |fields|
  {
    if fields == [] then r else Assigned(fields[1..], vals[1..], r[fields[0].name := vals[0]])
  }

  function InstOf(fields: seq<Field>, vals: seq<Value>): Value
    requires |fields| == |vals|
  {
    Inst(Assigned(fields, vals, map[]))
  }

  /** The values fit, each given those before it. */
  predicate FitsAll(fields: seq<Field>, vals: seq<Value>, r: map<string, Value>, src: Source)
    requires |fields| == |vals|
    decreases |fields|
  {
    fields == [] ||
    (FitsType(fields[0].typ, vals[0], r, src) && FitsAll(fields[1..], vals[1..], r[fields[0].name := vals[0]], src))
  }

  function WrittenAll(fields: seq<Field>, vals: seq<Value>, endian: Endian): Option<seq<byte>>
    requires |fields| == |vals|
    decreases |fields|
  {
    if fields == [] then Some([])
    else Concat(WriteType(fields[0].typ, vals[0], endian), WrittenAll(fields[1..], vals[1..], endian))
  }

  predicate Has(values: map<string, Value>, fields: seq<Field>, vals: seq<Value>)
    requires |fields| == |vals|
  {
    forall k | 0 <= k < |fields| :: fields[k].name in values && values[fields[k].name] == vals[k]
  }

  lemma {:induction false} AssignedKeeps(fields: seq<Field>, vals: seq<Value>, r: map<string, Value>, name: string)
    requires |fields| == |vals| && (forall g | g in fields :: g.name != name) && name in r
    ensures name in Assigned(fields, vals, r) && Assigned(fields, vals, r)[name] == r[name]
    decreases |fields|
  {
    if fields != [] { AssignedKeeps(fields[1..], vals[1..], r[fields[0].name := vals[0]], name); }
  }

  lemma {:induction false} AssignedHas(fields: seq<Field>, vals: seq<Value>, r: map<string, Value>)
    requires |fields| == |vals| && PlainLayout(fields)
    ensures Has(Assigned(fields, vals, r), fields, vals)
    ensures Assigned(fields, vals, r).Keys == r.Keys + Names(fields)
    decreases |fields|
  {
    hide PlainType;
    if fields != [] {
      var f, v, r' := fields[0], vals[0], r[fields[0].name := vals[0]];
      AssignedKeeps(fields[1..], vals[1..], r', f.name);
      AssignedHas(fields[1..], vals[1..], r');
      assert forall k | 0 < k < |fields| :: fields[k] == fields[1..][k - 1] && vals[k] == vals[1..][k - 1];
    }
  }

  lemma HasTail(values: map<string, Value>, fields: seq<Field>, vals: seq<Value>)
    requires |fields| == |vals| > 0 && Has(values, fields, vals)
    ensures Has(values, fields[1..], vals[1..])
  {}

  lemma {:induction false} FitsFromAll(fields: seq<Field>, vals: seq<Value>, values: map<string, Value>,
      r: map<string, Value>, src: Source)
    requires |fields| == |vals| && PlainLayout(fields) && Has(values, fields, vals) && FitsAll(fields, vals, r, src)
    ensures FitsFields(fields, values, r, src)
    decreases |fields|
  {
    hide FitsType, PlainType;
    if fields != [] {
      HasTail(values, fields, vals);
      assert values[fields[0].name] == vals[0];
      FitsFromAll(fields[1..], vals[1..], values, r[fields[0].name := vals[0]], src);
    }
  }

  lemma {:induction false} WritesAll(fields: seq<Field>, vals: seq<Value>, values: map<string, Value>, endian: Endian)
    requires |fields| == |vals| && PlainLayout(fields) && Has(values, fields, vals)
    ensures WriteFields(fields, values, IDLE, endian) == WrittenAll(fields, vals, endian)
    decreases |fields|
  {
    hide WriteType, PlainType;
    if fields != [] {
      HasTail(values, fields, vals);
      assert values[fields[0].name] == vals[0];
      WritesAll(fields[1..], vals[1..], values, endian);
      ConcatNothing(WrittenAll(fields, vals, endian));
    }
  }

  /** What FitsAll and WrittenAll say of the instance. */
  lemma InstanceOf(fields: seq<Field>, vals: seq<Value>, src: Source)
    requires |fields| == |vals| && PlainLayout(fields)
    ensures InstOf(fields, vals).Inst? && Has(InstOf(fields, vals).values, fields, vals)
    ensures FitsAll(fields, vals, map[], src) ==> FitsElem(Struct(fields), InstOf(fields, vals), src)
    ensures WriteElem(Struct(fields), InstOf(fields, vals), src.endian) == WrittenAll(fields, vals, src.endian)
  {
    hide FitsFields, WriteFields, FitsAll, WrittenAll, PlainLayout;
    var values := Assigned(fields, vals, map[]);
    AssignedHas(fields, vals, map[]);
    WritesAll(fields, vals, values, src.endian);
    if FitsAll(fields, vals, map[], src) { FitsFromAll(fields, vals, values, map[], src); }
    var none: map<string, Value> := map[];
    assert none.Keys + Names(fields) == Names(fields);
  }
}
