/** Classes BitBuffer and Structure with their loops: the stream is moved, buffers are updated in
    place, and the results are those of the functions of module Layout. */
module Structures {
  import opened Bits
  import opened Bytes
  import opened BytesInteger
  import opened Text
  import Ex = Expression
  import opened Layout

  /** A stream that is read, with how numbers are stored in it and the definition's constants. */
  class Reader {
    const src: Source
    var pos: nat

    constructor (src: Source)
      ensures this.src == src && pos == 0
    {
      this.src, pos := src, 0;
    }

    method Read(n: nat) returns (bs: seq<byte>)
      modifies this
      ensures bs == Chunk(src, old(pos), n) && pos == After(src, old(pos), n)
    {
      bs := Slice(src.data, pos, pos + n);
      pos := pos + |bs|;
    }

    method Seek(to: nat)
      modifies this
      ensures pos == to
    {
      pos := to;
    }
  }

  /** What a method that reads gives: None for an exception, else the value, and the stream moved. */
  predicate Outcome<T(==)>(x: Read<T>, v: Option<T>, pos: nat) {
    if x.Fail? then v.None? else v == Some(x.value) && pos == x.pos
  }

  class BitBuffer {
    var typ: Option<Scalar>
    var buffer: int
    var remaining: int

    constructor ()
      ensures Abstract() == IDLE
    {
      typ, buffer, remaining := None, 0, 0;
    }

    function Abstract(): BitState
      reads this
    {
      BitState(typ, buffer, remaining)
    }

    method Read(field: Scalar, bits: nat, reader: Reader) returns (v: Option<int>)
      modifies this, reader
      ensures var x := ReadBits(old(Abstract()), field, bits, reader.src, old(reader.pos));
              if x.Fail? then v.None? else v == Some(x.value.0) && Abstract() == x.value.1 && reader.pos == x.pos
    {
      hide And, Xor, Shl, Shr, Decode;
      if remaining < 1 || typ != Some(field) {
        typ := Some(field);
        remaining := ScalarSize(field) * 8;
        var word := ReadOne(field, reader);
        if word.None? || !word.value.Int? {
          return None;
        }
        buffer := word.value.i;
      }
      if reader.src.endian.Little? {
        v := Some(And(buffer, Shl(1, bits) - 1));
        buffer := Shr(buffer, bits);
        remaining := remaining - bits;
      } else {
        if remaining - bits < 0 {
          return None;
        }
        var x := And(buffer, Xor(Shl(1, remaining - bits) - 1, Shl(1, remaining) - 1));
        v := Some(Shr(x, remaining - bits));
        remaining := remaining - bits;
      }
    }

    /** Returns false for an exception. */
    method Write(field: Scalar, data: int, bits: nat, endian: Endian) returns (ok: bool)
      modifies this
      ensures ok == PutBits(old(Abstract()), field, data, bits, endian).Some?
      ensures ok ==> Some(Abstract()) == PutBits(old(Abstract()), field, data, bits, endian) && typ.Some?
    {
      hide Or, Shl;
      if remaining == 0 {
        remaining := ScalarSize(field) * 8;
        typ := Some(field);
      }
      if typ.None? {
        return false;
      }
      var shift := if endian.Little? then ScalarSize(typ.value) * 8 - remaining else remaining - bits;
      if shift < 0 {
        return false;
      }
      buffer := Or(buffer, Shl(data, shift));
      remaining := remaining - bits;
      ok := true;
    }

    /** The bytes to write; None for an exception. */
    method Flush(endian: Endian) returns (bs: Option<seq<byte>>)
      requires typ.Some?
      modifies this
      ensures bs == Flushed(old(Abstract()), endian) && (bs.Some? ==> Abstract() == IDLE)
    {
      bs := WriteScalar(typ.value, Int(buffer), endian);
      if bs.Some? {
        typ, remaining, buffer := None, 0, 0;
      }
    }

    method Reset()
      modifies this
      ensures Abstract() == IDLE
    {
      typ, buffer, remaining := None, 0, 0;
    }
  }

  /** _read of the scalar types. */
  method ReadOne(s: Scalar, reader: Reader) returns (v: Option<Value>)
    modifies reader
    ensures Outcome(ReadScalar(s, reader.src, old(reader.pos)), v, reader.pos)
  {
    hide Decode;
    var n := ScalarSize(s);
    var bs := reader.Read(n);
    if s.Packed? && |bs| != n {
      return None;
    }
    v := Some(if s.Char? then Raw(bs) else Int(Decode(bs, n, ScalarSigned(s), reader.src.endian)));
  }

  /** _read_array of the scalar types. */
  method ReadArray(s: Scalar, count: nat, reader: Reader) returns (v: Option<Value>)
    modifies reader
    ensures Outcome(ReadScalars(s, count, reader.src, old(reader.pos)), v, reader.pos)
  {
    var n := ScalarSize(s) * count;
    var bs := reader.Read(n);
    if s.Packed? && |bs| != n {
      return None;
    }
    v := Some(if s.Char? then Raw(bs)
        else List(Ints(ParseAll(bs, ScalarSize(s), count, ScalarSigned(s), reader.src.endian))));
  }

  /** _read_0 of the integer types. */
  method ReadInts0(s: Scalar, reader: Reader) returns (v: Option<Value>)
    requires !s.Char?
    modifies reader
    ensures Outcome(ReadUntilZero(s, reader.src, old(reader.pos)), v, reader.pos)
  {
    hide Decode;
    NothingIsZero(s, reader.src.endian);
    var size, src := ScalarSize(s), reader.src;
    ghost var decode := Decoder(size, ScalarSigned(s), src.endian);
    ghost var whole := ReadIntsUntilZero(size, s.Packed?, decode, src, reader.pos);
    var r: seq<int> := [];
    NumbersNothing(whole);
    while true
      invariant decode([]) == 0
      invariant SameNumbers(r, ReadIntsUntilZero(size, s.Packed?, decode, src, reader.pos), whole)
      decreases |src.data| - reader.pos
    {
      var at := reader.pos;
      var d := reader.Read(size);
      if s.Packed? && |d| != size {
        return None;
      }
      var n := Decode(d, size, ScalarSigned(s), src.endian);
      assert n == decode(d);
      if n == 0 {
        break;
      }
      NumbersMore(r, n, ReadIntsUntilZero(size, s.Packed?, decode, src, reader.pos), whole);
      r := r + [n];
    }
    assert r + [] == r;
    v := Some(List(Ints(r)));
  }

  /** The numbers so far, and what reading on gives, are the whole, as far as values and positions go. */
  ghost predicate SameNumbers(done: seq<int>, rest: Read<seq<int>>, whole: Read<seq<int>>) {
    if rest.Fail? then whole.Fail? else whole.Ok? && whole.value == done + rest.value && whole.pos == rest.pos
  }

  lemma NumbersNothing(whole: Read<seq<int>>)
    ensures SameNumbers([], whole, whole)
  {
    if whole.Ok? { assert [] + whole.value == whole.value; }
  }

  lemma NumbersMore(done: seq<int>, n: int, rest: Read<seq<int>>, whole: Read<seq<int>>)
    requires rest.Ok? ==> whole.Ok? && whole.value == done + ([n] + rest.value) && whole.pos == rest.pos
    requires rest.Fail? ==> whole.Fail?
    ensures SameNumbers(done + [n], rest, whole)
  {
    if rest.Ok? { assert done + ([n] + rest.value) == done + [n] + rest.value; }
  }

  /** _read_0 of char. */
  method ReadChars0(reader: Reader) returns (v: Option<Value>)
    modifies reader
    ensures Outcome(ReadUntilZero(Char, reader.src, old(reader.pos)), v, reader.pos)
  {
    ghost var whole := ReadBytesUntilZero(reader.src, reader.pos);
    var r: seq<byte> := [];
    var src := reader.src;
    while true
      invariant SameBytes(r, ReadBytesUntilZero(src, reader.pos), whole)
      decreases |src.data| - reader.pos
    {
      var c := reader.Read(1);
      if c == [] {
        return None;
      }
      if c[0] == 0 {
        break;
      }
      BytesMore(r, c[0], ReadBytesUntilZero(src, reader.pos), whole);
      r := r + c;
    }
    assert r + [] == r;
    v := Some(Raw(r));
  }

  ghost predicate SameBytes(done: seq<byte>, rest: Read<seq<byte>>, whole: Read<seq<byte>>) {
    if rest.Fail? then whole.Fail? else whole.Ok? && whole.value == done + rest.value && whole.pos == rest.pos
  }

  lemma BytesMore(done: seq<byte>, n: byte, rest: Read<seq<byte>>, whole: Read<seq<byte>>)
    requires rest.Ok? ==> whole.Ok? && whole.value == done + ([n] + rest.value) && whole.pos == rest.pos
    requires rest.Fail? ==> whole.Fail?
    ensures SameBytes(done + [n], rest, whole)
  {
    if rest.Ok? { assert done + ([n] + rest.value) == done + [n] + rest.value; }
  }

  // -------------------------------------------------- offsets

  /** The loop variables of _calc_offsets before the k-th field. */
  function PlanAt(fields: seq<Field>, k: nat): Plan
    requires k <= |fields|
  {
    if k == 0 then Layout.START else PlanNext(PlanAt(fields, k - 1), fields[k - 1], TypeLen(fields[k - 1].typ))
  }

  method CalcOffsets(fields: seq<Field>) returns (offsets: seq<Option<nat>>)
    ensures |offsets| == |fields| && Stated(fields, offsets)
  {
    hide TypeLen, PlanAt, PlanOffset, BitScalar, UnitSize;
    offsets := [];
    var offset: Option<nat> := Some(0);
    var bitstype: Option<Scalar> := None;
    var bitsremaining: int := 0;
    assert PlanAt(fields, 0) == Layout.START by { PlanBegins(fields); }
    for i := 0 to |fields|
      invariant |offsets| == i && forall k | 0 <= k < i :: offsets[k] == PlanOffset(PlanAt(fields, k), fields[k])
      invariant PlanAt(fields, i) == Plan(offset, bitstype, bitsremaining)
    {
      var field := fields[i];
      PlanStep(fields, i, offset, bitstype, bitsremaining);
      if field.bits > 0 {
        if bitsremaining == 0 || bitstype != BitScalar(field) {
          bitstype := BitScalar(field);
          bitsremaining := UnitSize(field) * 8;
          offsets := offsets + [offset];
          offset := Layout.Plus(offset, Some(UnitSize(field)));
        } else {
          offsets := offsets + [None];
        }
        bitsremaining := bitsremaining - field.bits;
        continue;
      }
      offsets := offsets + [offset];
      offset := Layout.Plus(offset, TypeLen(field.typ));
    }
  }

  /** These are the offsets that _calc_offsets states. */
  predicate Stated(fields: seq<Field>, offsets: seq<Option<nat>>)
    requires |offsets| == |fields|
  {
    forall k | 0 <= k < |fields| :: offsets[k] == PlanOffset(PlanAt(fields, k), fields[k])
  }

  lemma PlanBegins(fields: seq<Field>)
    ensures PlanAt(fields, 0) == Layout.START
  {}

  lemma PlanStep(fields: seq<Field>, i: nat, offset: Option<nat>, unit: Option<Scalar>, left: int)
    requires i < |fields| && PlanAt(fields, i) == Plan(offset, unit, left)
    ensures var f, opens := fields[i], left == 0 || unit != BitScalar(fields[i]);
            && PlanOffset(PlanAt(fields, i), f) == (if f.bits > 0 && !opens then None else offset)
            && PlanAt(fields, i + 1)
            == (if f.bits > 0 && opens then Plan(Layout.Plus(offset, Some(UnitSize(f))), BitScalar(f),
                UnitSize(f) * 8 - f.bits)
                else if f.bits > 0 then Plan(offset, unit, left - f.bits)
                else Plan(Layout.Plus(offset, TypeLen(f.typ)), unit, left))
  {
    hide TypeLen, BitScalar, UnitSize;
  }

  /** _calc_size, for fields whose offsets are stated; None for a TypeError. */
  method CalcLength(fields: seq<Field>, offsets: seq<Option<nat>>) returns (length: Option<nat>)
    requires |offsets| == |fields| && Stated(fields, offsets)
    ensures length == CalcSize(fields, Layout.START, 0)
  {
    hide TypeLen, CalcSize, PlanAt, PlanOffset, BitScalar, UnitSize;
    var size: nat := 0;
    var bitstype: Option<Scalar> := None;
    var bitsremaining: int := 0;
    ghost var offset: Option<nat> := Some(0);
    PlanBegins(fields);
    assert fields[0..] == fields;
    for i := 0 to |fields|
      invariant CalcSize(fields[i..], PlanAt(fields, i), size) == CalcSize(fields, Layout.START, 0)
      invariant PlanAt(fields, i) == Plan(offset, bitstype, bitsremaining)
    {
      var field := fields[i];
      PlanStep(fields, i, offset, bitstype, bitsremaining);
      SizeStep(fields, i, size);
      offset := PlanAt(fields, i + 1).offset;
      if field.bits > 0 {
        if bitsremaining == 0 || bitstype != BitScalar(field) {
          bitstype := BitScalar(field);
          bitsremaining := UnitSize(field) * 8;
          size := size + UnitSize(field);
        }
        bitsremaining := bitsremaining - field.bits;
        continue;
      }
      var fieldlen := TypeLen(field.typ);
      if fieldlen.None? {
        return None;
      }
      size := size + fieldlen.value;
      if offsets[i].Some? {
        size := if offsets[i].value + fieldlen.value > size then offsets[i].value + fieldlen.value else size;
      }
    }
    SizeEnd(fields, size);
    length := Some(size);
  }

  lemma SizeEnd(fields: seq<Field>, size: nat)
    ensures CalcSize(fields[|fields|..], PlanAt(fields, |fields|), size) == Some(size)
  {}

  lemma SizeStep(fields: seq<Field>, i: nat, size: nat)
    requires i < |fields|
    ensures var f, p, rest, len := fields[i], PlanAt(fields, i), fields[i + 1..], TypeLen(fields[i].typ);
            CalcSize(fields[i..], p, size)
            == if f.bits > 0 then CalcSize(rest, PlanAt(fields, i + 1),
                if OpensUnit(p, f) then size + UnitSize(f) else size)
               else if len.None? then None
               else CalcSize(rest, PlanAt(fields, i + 1), Larger(size + len.value, PlanOffset(p, f), len.value))
  {
    hide TypeLen;
    assert fields[i..][0] == fields[i] && fields[i..][1..] == fields[i + 1..];
  }

  function Larger(end: nat, offset: Option<nat>, len: nat): nat {
    if offset.Some? && offset.value + len > end then offset.value + len else end
  }

  // -------------------------------------------------- reading structures

  /** The rest of the loop over the fields, from the k-th on. */
  function FieldsFrom(fields: seq<Field>, k: nat, start: nat, src: Source, pos: nat, b: BitState,
      r: map<string, Value>): Read<map<string, Value>>
    requires k <= |fields|
  {
    ReadFields(fields[k..], PlanAt(fields, k), start, src, true, pos, b, r)
  }

  /** The loop so far and the rest give what the whole gives, as far as values and positions go. */
  ghost predicate Leads(rest: Read<map<string, Value>>, whole: Read<map<string, Value>>) {
    if rest.Fail? then whole.Fail? else whole.Ok? && whole.value == rest.value && whole.pos == rest.pos
  }

  lemma FieldsBegin(fields: seq<Field>, start: nat, src: Source)
    ensures FieldsFrom(fields, 0, start, src, start, IDLE, map[])
        == ReadFields(fields, Layout.START, start, src, true, start, IDLE, map[])
  {
    hide ReadFields;
    assert fields[0..] == fields;
  }

  lemma FieldsEnd(fields: seq<Field>, start: nat, src: Source, pos: nat, b: BitState, r: map<string, Value>)
    ensures FieldsFrom(fields, |fields|, start, src, pos, b, r) == Ok(r, pos, true)
  {}

  lemma BitField(fields: seq<Field>, k: nat, start: nat, src: Source, pos: nat, b: BitState, r: map<string, Value>,
      whole: Read<map<string, Value>>)
    requires k < |fields| && fields[k].bits > 0 && Leads(FieldsFrom(fields, k, start, src, pos, b, r), whole)
    ensures BitScalar(fields[k]).None? ==> whole.Fail?
    ensures BitScalar(fields[k]).Some? ==>
              var at := Sought(PlanAt(fields, k), fields[k], start, true, pos);
              var x := ReadBits(b, BitScalar(fields[k]).value, fields[k].bits, src, at);
              if x.Fail? then whole.Fail?
              else Leads(FieldsFrom(fields, k + 1, start, src, x.pos, x.value.1,
                  r[fields[k].name := Int(x.value.0)]), whole)
  {
    hide ReadBits, Sought, PlanNext, TypeLen;
    assert fields[k..][0] == fields[k] && fields[k..][1..] == fields[k + 1..];
  }

  lemma PlainField(fields: seq<Field>, k: nat, start: nat, src: Source, pos: nat, b: BitState, r: map<string, Value>,
      whole: Read<map<string, Value>>)
    requires k < |fields| && fields[k].bits == 0 && Leads(FieldsFrom(fields, k, start, src, pos, b, r), whole)
    ensures var at := Sought(PlanAt(fields, k), fields[k], start, true, pos);
            var x := ReadType(fields[k].typ, r, src, true, at);
            if x.Fail? then whole.Fail?
            else Leads(FieldsFrom(fields, k + 1, start, src, x.pos, IDLE, r[fields[k].name := x.value]), whole)
  {
    hide ReadType, Sought, PlanNext, TypeLen;
    assert fields[k..][0] == fields[k] && fields[k..][1..] == fields[k + 1..];
  }

  /** Structure._read */
  method ReadStructure(fields: seq<Field>, reader: Reader) returns (v: Option<Value>)
    modifies reader
    ensures Outcome(ReadElem(Struct(fields), reader.src, true, old(reader.pos)), v, reader.pos)
    decreases fields, 0
  {
    hide FieldsFrom, ReadFields, ReadType, ReadBits, PlanAt, PlanOffset, BitScalar;
    var offsets := CalcOffsets(fields);
    var bitbuffer := new BitBuffer();
    var src, structStart := reader.src, reader.pos;
    ghost var whole := ReadFields(fields, Layout.START, structStart, src, true, structStart, IDLE, map[]);
    var r: map<string, Value> := map[];
    FieldsBegin(fields, structStart, src);
    for i := 0 to |fields|
      invariant fresh(bitbuffer) && reader.src == src
      invariant Leads(FieldsFrom(fields, i, structStart, src, reader.pos, bitbuffer.Abstract(), r), whole)
    {
      var field := fields[i];
      if field.bits > 0 {
        BitField(fields, i, structStart, src, reader.pos, bitbuffer.Abstract(), r, whole);
      } else {
        PlainField(fields, i, structStart, src, reader.pos, bitbuffer.Abstract(), r, whole);
      }
      if offsets[i].Some? && offsets[i].value != 0 {
        if reader.pos != structStart + offsets[i].value {
          reader.Seek(structStart + offsets[i].value);
        }
      }
      if field.bits > 0 {
        if BitScalar(field).None? {
          return None;
        }
        var n := bitbuffer.Read(BitScalar(field).value, field.bits, reader);
        if n.None? {
          return None;
        }
        r := r[field.name := Int(n.value)];
        continue;
      }
      bitbuffer.Reset();
      var value := ReadTyped(field.typ, r, reader);
      if value.None? {
        return None;
      }
      r := r[field.name := value.value];
    }
    FieldsEnd(fields, structStart, src, reader.pos, bitbuffer.Abstract(), r);
    v := Some(Inst(r));
  }

  /** Array._read and the _read methods of the other types. */
  method ReadTyped(t: Type, r: map<string, Value>, reader: Reader) returns (v: Option<Value>)
    modifies reader
    ensures Outcome(ReadType(t, r, reader.src, true, old(reader.pos)), v, reader.pos)
    decreases t, 2
  {
    hide ReadScalar, ReadScalars, ReadFields, ReadUntilZero, ReadElem, Ex.EvaluateFrom;
    match t {
      case One(Single(s)) =>
        OneScalar(s, r, reader.src, reader.pos);
        v := ReadOne(s, reader);
      case One(Struct(fields)) => v := ReadStructure(fields, reader);
      case Many(e, Static(n)) => v := ReadCountedElems(e, n, reader);
      case Many(e, Dynamic(expr)) => {
        var n := Ex.Evaluate(expr, Ex.Env(ContextOf(r), reader.src.consts));
        if n.None? {
          return None;
        }
        v := ReadCountedElems(e, if n.value < 0 then 0 else n.value, reader);
      }
      case Many(Single(s), NullTerminated) => {
        if s.Char? {
          v := ReadChars0(reader);
        } else {
          v := ReadInts0(s, reader);
        }
      }
      case Many(Struct(_), NullTerminated) => v := None;
    }
  }

  lemma OneScalar(s: Scalar, r: map<string, Value>, src: Source, pos: nat)
    ensures ReadType(One(Single(s)), r, src, true, pos) == ReadScalar(s, src, pos)
  {}

  /** _read_array */
  method ReadCountedElems(e: Elem, n: nat, reader: Reader) returns (v: Option<Value>)
    modifies reader
    ensures Outcome(ReadCounted(e, n, reader.src, true, old(reader.pos)), v, reader.pos)
    decreases e, 1
  {
    hide ReadScalars, ReadMany, ReadElem;
    if e.Single? {
      v := ReadArray(e.scalar, n, reader);
    } else {
      var values := ReadElems(e.fields, n, reader);
      v := if values.None? then None else Some(List(values.value));
    }
  }

  /** BaseType._read_array, for structures. */
  method ReadElems(fields: seq<Field>, n: nat, reader: Reader) returns (vs: Option<seq<Value>>)
    modifies reader
    ensures Outcome(ReadMany(Struct(fields), n, reader.src, true, old(reader.pos)), vs, reader.pos)
    decreases fields, 1
  {
    hide ReadElem, ReadMany;
    var src := reader.src;
    ghost var whole := ReadMany(Struct(fields), n, src, true, reader.pos);
    var found: seq<Value> := [];
    ManyNothing(whole);
    for i := 0 to n
      invariant reader.src == src
      invariant ManyLeads(found, ReadMany(Struct(fields), n - i, src, true, reader.pos), whole)
    {
      ManyStep(found, fields, n - i, src, reader.pos, whole);
      var v := ReadStructure(fields, reader);
      if v.None? {
        return None;
      }
      found := found + [v.value];
    }
    ManyEnd(found, fields, src, reader.pos, whole);
    vs := Some(found);
  }

  ghost predicate ManyLeads(done: seq<Value>, rest: Read<seq<Value>>, whole: Read<seq<Value>>) {
    if rest.Fail? then whole.Fail? else whole.Ok? && whole.value == done + rest.value && whole.pos == rest.pos
  }

  lemma ManyNothing(whole: Read<seq<Value>>)
    ensures ManyLeads([], whole, whole)
  {
    if whole.Ok? { assert [] + whole.value == whole.value; }
  }

  lemma ManyStep(done: seq<Value>, fields: seq<Field>, n: nat, src: Source, pos: nat, whole: Read<seq<Value>>)
    requires n > 0 && ManyLeads(done, ReadMany(Struct(fields), n, src, true, pos), whole)
    ensures var x := ReadElem(Struct(fields), src, true, pos);
            if x.Fail? then whole.Fail?
            else ManyLeads(done + [x.value], ReadMany(Struct(fields), n - 1, src, true, x.pos), whole)
  {
    hide ReadElem;
    var x := ReadElem(Struct(fields), src, true, pos);
    if x.Ok? {
      var rest := ReadMany(Struct(fields), n - 1, src, true, x.pos);
      if rest.Ok? { assert done + ([x.value] + rest.value) == done + [x.value] + rest.value; }
    }
  }

  lemma ManyEnd(done: seq<Value>, fields: seq<Field>, src: Source, pos: nat, whole: Read<seq<Value>>)
    requires ManyLeads(done, ReadMany(Struct(fields), 0, src, true, pos), whole)
    ensures whole.Ok? && whole.value == done && whole.pos == pos
  {
    assert done + [] == done;
  }

  // -------------------------------------------------- writing structures

  lemma FieldWritten(fields: seq<Field>, k: nat, values: map<string, Value>, b: BitState, endian: Endian)
    requires k < |fields|
    ensures WriteFields(fields[k..], values, b, endian) == WriteStep(fields, k, values, b, endian)
  {
    hide WriteType, PutBits, Flushed;
    assert fields[k..][0] == fields[k] && fields[k..][1..] == fields[k + 1..];
  }

  function WriteStep(fields: seq<Field>, k: nat, values: map<string, Value>, b: BitState,
      endian: Endian): Option<seq<byte>>
    requires k < |fields|
  {
    var f, rest := fields[k], fields[k + 1..];
    if f.name !in values then None
    else if f.bits > 0 then
      if BitScalar(f).None? || !values[f.name].Int? then None
      else
        var b' := PutBits(b, BitScalar(f).value, values[f.name].i, f.bits, endian);
        if b'.None? then None else WriteFields(rest, values, b'.value, endian)
    else Concat(Flushed(b, endian), Concat(WriteType(f.typ, values[f.name], endian),
        WriteFields(rest, values, IDLE, endian)))
  }

  lemma Written(out: seq<byte>, a: seq<byte>, b: Option<seq<byte>>)
    ensures Concat(Some(out), Concat(Some(a), b)) == Concat(Some(out + a), b)
  {
    if b.Some? { assert out + (a + b.value) == out + a + b.value; }
  }

  /** Structure._write: the bytes written, or None for an exception. */
  method WriteStructure(fields: seq<Field>, values: map<string, Value>,
      endian: Endian) returns (bytes: Option<seq<byte>>)
    ensures bytes == WriteFields(fields, values, IDLE, endian)
  {
    hide WriteFields, WriteType, PutBits, Flushed, BitScalar;
    var bitbuffer := new BitBuffer();
    var out: seq<byte> := [];
    assert fields[0..] == fields;
    ghost var whole := WriteFields(fields, values, IDLE, endian);
    assert Concat(Some([]), whole) == whole by { if whole.Some? { assert [] + whole.value == whole.value; } }
    for i := 0 to |fields|
      invariant fresh(bitbuffer) && (bitbuffer.typ.None? ==> bitbuffer.Abstract() == IDLE)
      invariant Concat(Some(out), WriteFields(fields[i..], values, bitbuffer.Abstract(), endian)) == whole
    {
      var field := fields[i];
      FieldWritten(fields, i, values, bitbuffer.Abstract(), endian);
      if field.name !in values {
        return None;
      }
      if field.bits > 0 {
        if BitScalar(field).None? || !values[field.name].Int? {
          return None;
        }
        var ok := bitbuffer.Write(BitScalar(field).value, values[field.name].i, field.bits, endian);
        if !ok {
          return None;
        }
        continue;
      }
      NothingFlushed(bitbuffer.Abstract(), endian);
      ghost var b := bitbuffer.Abstract();
      var before := out;
      if bitbuffer.typ.Some? {
        var flushed := bitbuffer.Flush(endian);
        if flushed.None? {
          return None;
        }
        out := out + flushed.value;
      } else {
        assert out + [] == out;
      }
      var bs := WriteType(field.typ, values[field.name], endian);
      Written(before, Flushed(b, endian).value, Concat(bs, WriteFields(fields[i + 1..], values, IDLE, endian)));
      if bs.None? {
        return None;
      }
      Written(out, bs.value, WriteFields(fields[i + 1..], values, IDLE, endian));
      out := out + bs.value;
    }
    AllWritten(fields, values, bitbuffer.Abstract(), endian);
    if bitbuffer.typ.Some? {
      var flushed := bitbuffer.Flush(endian);
      if flushed.None? {
        return None;
      }
      out := out + flushed.value;
    } else {
      NothingFlushed(bitbuffer.Abstract(), endian);
      assert out + [] == out;
    }
    bytes := Some(out);
  }

  lemma AllWritten(fields: seq<Field>, values: map<string, Value>, b: BitState, endian: Endian)
    ensures WriteFields(fields[|fields|..], values, b, endian) == Flushed(b, endian)
  {}

  lemma NothingFlushed(b: BitState, endian: Endian)
    ensures b.typ.None? ==> Flushed(b, endian) == Some([])
  {}
}
