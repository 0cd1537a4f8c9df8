/** Binary layouts as data, and the field-by-field interpreter of class Structure: what reading
    a byte string at a position gives, and which bytes writing an instance gives. */
module Layout {
  import opened Bits
  import opened Bytes
  import opened BytesInteger
  import opened Text
  import Ex = Expression

  /** The characters of Python's struct module that the packed integer types use; x is a pad byte. */
  datatype PackChar = PadX | I8 | U8 | I16 | U16 | I32 | U32 | I64 | U64

  function CharSize(c: PackChar): (n: nat)
    ensures n > 0
  {
    match c
    case PadX => 1
    case I8 => 1
    case U8 => 1
    case I16 => 2
    case U16 => 2
    case I32 => 4
    case U32 => 4
    case I64 => 8
    case U64 => 8
  }

  predicate CharSigned(c: PackChar) { c in {I8, I16, I32, I64} }

  /** The integer codes. */
  type IntCode = c: PackChar | c != PadX witness U8

  type Size = n: nat | n > 0 witness 1

  datatype Scalar = Packed(code: IntCode) | BytesInt(width: Size, signed: bool) | Char

  datatype Elem = Single(scalar: Scalar) | Struct(fields: seq<Field>)

  datatype Count = Static(n: nat) | Dynamic(expr: string) | NullTerminated

  datatype Type = One(elem: Elem) | Many(elem: Elem, count: Count)

  /** A field; bits is zero when it is not a bit field. */
  datatype Field = Field(name: string, typ: Type, bits: nat)

  datatype Value = Int(i: int) | Raw(bs: seq<byte>) | List(vs: seq<Value>) | Inst(values: map<string, Value>)

  /** A stream's bytes, how numbers are stored in them, and the constants of the definition. */
  datatype Source = Source(data: seq<byte>, endian: Endian, consts: map<string, int>)

  /** The outcome of a read: the value, the position after it, and whether the stream held every
      byte that was asked for. */
  datatype Read<T> = Fail | Ok(value: T, pos: nat, full: bool)

  function ScalarSize(s: Scalar): (n: nat)
    ensures n > 0
  {
    match s
    case Packed(c) => CharSize(c)
    case BytesInt(w, _) => w
    case Char => 1
  }

  function ScalarSigned(s: Scalar): bool {
    match s
    case Packed(c) => CharSigned(c)
    case BytesInt(_, signed) => signed
    case Char => false
  }

  function Ints(ns: seq<int>): (vs: seq<Value>)
    ensures |vs| == |ns|
  {
    seq(|ns|, k requires 0 <= k < |ns| => Int(ns[k]))
  }

  // -------------------------------------------------- streams

  /** stream.read(n) */
  function Chunk(src: Source, pos: nat, n: nat): (bs: seq<byte>)
    ensures |bs| <= n
    ensures pos + n <= |src.data| ==> bs == src.data[pos..pos + n]
  {
    Slice(src.data, pos, pos + n)
  }

  /** The position after stream.read(n). */
  function After(src: Source, pos: nat, n: nat): (p: nat)
    ensures p >= pos
  {
    if pos + n <= |src.data| then pos + n else if pos <= |src.data| then |src.data| else pos
  }

  /** The stream gave as many bytes as were asked for. */
  predicate Enough(src: Source, pos: nat, n: nat) { |Chunk(src, pos, n)| == n }

  // -------------------------------------------------- reading scalars

  function ReadInts(code: Scalar, count: nat, src: Source, pos: nat): seq<int> {
    ParseAll(Chunk(src, pos, ScalarSize(code) * count), ScalarSize(code), count, ScalarSigned(code), src.endian)
  }

  /** _read_array of the scalar types: packed integers insist on their bytes. */
  function ReadScalars(s: Scalar, count: nat, src: Source, pos: nat): Read<Value> {
    var n := ScalarSize(s) * count;
    if s.Packed? && !Enough(src, pos, n) then Fail
    else if s.Char? then Ok(Raw(Chunk(src, pos, n)), After(src, pos, n), Enough(src, pos, n))
    else Ok(List(Ints(ReadInts(s, count, src, pos))), After(src, pos, n), Enough(src, pos, n))
  }

  /** _read of the scalar types. */
  function ReadScalar(s: Scalar, src: Source, pos: nat): Read<Value> {
    var n := ScalarSize(s);
    if s.Packed? && !Enough(src, pos, n) then Fail
    else if s.Char? then Ok(Raw(Chunk(src, pos, n)), After(src, pos, n), Enough(src, pos, n))
    else Ok(Int(Decode(Chunk(src, pos, n), n, ScalarSigned(s), src.endian)), After(src, pos, n), Enough(src, pos, n))
  }

  /** _read_0 of the integer types: the numbers before the first zero. Packed integers are
      strict about their bytes. */
  function ReadIntsUntilZero(size: nat, strict: bool, decode: seq<byte> -> int, src: Source, pos: nat): Read<seq<int>>
    requires size > 0 && decode([]) == 0
    decreases |src.data| - pos
  {
    var v := decode(Chunk(src, pos, size));
    var p, enough := After(src, pos, size), Enough(src, pos, size);
    if strict && !enough then Fail
    else if v == 0 then Ok([], p, enough)
    else
      assert Chunk(src, pos, size) != [];
      match ReadIntsUntilZero(size, strict, decode, src, p)
      case Fail => Fail
      case Ok(vs, q, full) => Ok([v] + vs, q, full && enough)
  }

  lemma NothingIsZero(s: Scalar, endian: Endian)
    ensures Decoder(ScalarSize(s), ScalarSigned(s), endian)([]) == 0
  {
    LowSmall(0, 8 * ScalarSize(s) - 1);
  }

  /** _read_0 of char: the bytes before the first zero byte. */
  function ReadBytesUntilZero(src: Source, pos: nat): Read<seq<byte>>
    decreases |src.data| - pos
  {
    if pos >= |src.data| then Fail
    else if src.data[pos] == 0 then Ok([], pos + 1, true)
    else
      match ReadBytesUntilZero(src, pos + 1)
      case Fail => Fail
      case Ok(bs, p, full) => Ok([src.data[pos]] + bs, p, full)
  }

  function ReadUntilZero(s: Scalar, src: Source, pos: nat): Read<Value> {
    if s.Char? then
      match ReadBytesUntilZero(src, pos)
      case Fail => Fail
      case Ok(bs, p, full) => Ok(Raw(bs), p, full)
    else
      NothingIsZero(s, src.endian);
      match ReadIntsUntilZero(ScalarSize(s), s.Packed?, Decoder(ScalarSize(s), ScalarSigned(s), src.endian), src, pos)
      case Fail => Fail
      case Ok(ns, p, full) => Ok(List(Ints(ns)), p, full)
  }

  /** Of a stream that ends early packed integers raise an exception; characters and integers of any number
      of bytes take what is there. */
  lemma EndsEarly(s: Scalar, count: nat, src: Source, pos: nat)
    requires pos <= |src.data| < pos + ScalarSize(s) * count
    ensures ReadScalars(s, count, src, pos)
         == match s
            case Packed(_) => Fail
            case Char => Ok(Raw(src.data[pos..]), |src.data|, false)
            case BytesInt(w, signed) =>
              Ok(List(Ints(ParseAll(src.data[pos..], w, count, signed, src.endian))), |src.data|, false)
  {
    hide Decode;
    assert Chunk(src, pos, ScalarSize(s) * count) == src.data[pos..];
  }

  lemma OneEndsEarly(s: Scalar, src: Source, pos: nat)
    requires pos <= |src.data| < pos + ScalarSize(s)
    ensures ReadScalar(s, src, pos)
         == match s
            case Packed(_) => Fail
            case Char => Ok(Raw([]), |src.data|, false)
            case BytesInt(w, signed) => Ok(Int(Decode(src.data[pos..], w, signed, src.endian)), |src.data|, false)
  {
    hide Decode;
    assert Chunk(src, pos, ScalarSize(s)) == src.data[pos..];
  }

  /** A null-terminated array without its terminator: an exception, but for integers of any number of bytes,
      for which the end of the stream counts as zero. */
  lemma {:induction false} NoTerminator(s: Scalar, src: Source, pos: nat)
    requires pos <= |src.data|
    ensures s.Char? && 0 !in src.data[pos..] ==> ReadUntilZero(s, src, pos) == Fail
    ensures s.Packed? && pos == |src.data| ==> ReadUntilZero(s, src, pos) == Fail
    ensures s.BytesInt? && pos == |src.data| ==> ReadUntilZero(s, src, pos) == Ok(List([]), pos, false)
    decreases |src.data| - pos
  {
    hide Decode;
    if s.Char? && pos < |src.data| {
      var rest := src.data[pos..];
      assert src.data[pos] == rest[0] && src.data[pos + 1..] == rest[1..];
      NoTerminator(s, src, pos + 1);
    } else if pos == |src.data| {
      assert Chunk(src, pos, ScalarSize(s)) == [];
      NothingIsZero(s, src.endian);
      assert Ints([]) == [];
    }
  }

  // -------------------------------------------------- bit buffers

  /** The fields of class BitBuffer. */
  datatype BitState = BitState(typ: Option<Scalar>, buffer: int, remaining: int)

  const IDLE := BitState(None, 0, 0)

  /** Takes `bits` bits out of a loaded buffer; None where a shift count is negative. */
  function TakeBits(b: BitState, bits: nat, endian: Endian): Option<(int, BitState)> {
    if endian.Little? then
      Some((And(b.buffer, Shl(1, bits) - 1), b.(buffer := Shr(b.buffer, bits), remaining := b.remaining - bits)))
    else if b.remaining < bits then None
    else
      var mask := Xor(Shl(1, b.remaining - bits) - 1, Shl(1, b.remaining) - 1);
      Some((Shr(And(b.buffer, mask), b.remaining - bits), b.(remaining := b.remaining - bits)))
  }

  predicate NeedsUnit(b: BitState, s: Scalar) { b.remaining < 1 || b.typ != Some(s) }

  function ReadBits(b: BitState, s: Scalar, bits: nat, src: Source, pos: nat): Read<(int, BitState)> {
    if NeedsUnit(b, s) then
      match ReadScalar(s, src, pos)
      case Ok(Int(w), p, full) => Taken(TakeBits(BitState(Some(s), w, ScalarSize(s) * 8), bits, src.endian), p, full)
      case _ => Fail
    else Taken(TakeBits(b, bits, src.endian), pos, true)
  }

  function Taken(t: Option<(int, BitState)>, pos: nat, full: bool): Read<(int, BitState)> {
    if t.None? then Fail else Ok(t.value, pos, full)
  }

  /** Adds `bits` bits to the buffer being written. */
  function PutBits(b: BitState, s: Scalar, v: int, bits: nat, endian: Endian): Option<BitState> {
    var c := if b.remaining == 0 then b.(remaining := ScalarSize(s) * 8, typ := Some(s)) else b;
    if c.typ.None? then None
    else
      var shift := if endian.Little? then ScalarSize(c.typ.value) * 8 - c.remaining else c.remaining - bits;
      if shift < 0 then None
      else Some(c.(buffer := Or(c.buffer, Shl(v, shift)), remaining := c.remaining - bits))
  }

  // -------------------------------------------------- stated offsets

  /** The loop variables of _calc_offsets: the offset reached, None once it is unknown, and the
      storage unit that bit fields are believed to share. */
  datatype Plan = Plan(offset: Option<nat>, unit: Option<Scalar>, left: int)

  const START := Plan(Some(0), None, 0)

  predicate OpensUnit(p: Plan, f: Field) { p.left == 0 || p.unit != BitScalar(f) }

  function BitScalar(f: Field): Option<Scalar> {
    match f.typ
    case One(Single(s)) => Some(s)
    case _ => None
  }

  function UnitSize(f: Field): nat {
    match f.typ
    case One(Single(s)) => ScalarSize(s)
    case _ => 0
  }

  function Plus(a: Option<nat>, b: Option<nat>): Option<nat> {
    if a.None? || b.None? then None else Some(a.value + b.value)
  }

  /** One turn of the loop of _calc_offsets, given the length of the field's type. */
  function PlanNext(p: Plan, f: Field, len: Option<nat>): Plan {
    if f.bits > 0 then
      if OpensUnit(p, f) then
        Plan(Plus(p.offset, Some(UnitSize(f))), BitScalar(f), UnitSize(f) * 8 - f.bits)
      else p.(left := p.left - f.bits)
    else p.(offset := Plus(p.offset, len))
  }

  /** The offset stated for a field. */
  function PlanOffset(p: Plan, f: Field): Option<nat> {
    if f.bits > 0 && !OpensUnit(p, f) then None else p.offset
  }

  /** The loop of _calc_size over fields whose stated offsets follow the plan; None where a
      field has no fixed length. */
  function CalcSize(fields: seq<Field>, p: Plan, size: nat): Option<nat>
    decreases fields, 1
  {
    if fields == [] then Some(size)
    else
      var f, rest := fields[0], fields[1..];
      var len := TypeLen(f.typ);
      var p' := PlanNext(p, f, len);
      if f.bits > 0 then CalcSize(rest, p', if OpensUnit(p, f) then size + UnitSize(f) else size)
      else if len.None? then None
      else
        var o, end := PlanOffset(p, f), size + len.value;
        CalcSize(rest, p', if o.Some? && o.value + len.value > end then o.value + len.value else end)
  }

  /** __len__ of the types; None for a TypeError. */
  function ElemLen(e: Elem): Option<nat>
    decreases e
  {
    match e
    case Single(s) => Some(ScalarSize(s))
    case Struct(fields) => CalcSize(fields, START, 0)
  }

  function TypeLen(t: Type): Option<nat>
    decreases t
  {
    match t
    case One(e) => ElemLen(e)
    case Many(e, Static(n)) => var len := ElemLen(e); if len.None? then None else Some(len.value * n)
    case Many(_, _) => None
  }

  // -------------------------------------------------- reading structures

  function ContextOf(r: map<string, Value>): map<string, Option<int>> {
    map k | k in r :: if r[k].Int? then Some(r[k].i) else None
  }

  /** The length of an array with a count expression, from the fields read before it. */
  function Evaluated(expr: string, r: map<string, Value>, src: Source): Option<nat> {
    var env := Ex.Env(ContextOf(r), src.consts);
    var v := Ex.EvaluateFrom(expr, [], [], Ex.Part(env));
    if v.None? then None else Some(if v.value < 0 then 0 else v.value)
  }

  function ReadElem(e: Elem, src: Source, seeks: bool, pos: nat): Read<Value>
    decreases e, 0
  {
    match e
    case Single(s) => ReadScalar(s, src, pos)
    case Struct(fields) =>
      match ReadFields(fields, START, pos, src, seeks, pos, IDLE, map[])
      case Fail => Fail
      case Ok(r, p, full) => Ok(Inst(r), p, full)
  }

  /** BaseType._read_array: one element after the other. */
  function ReadMany(e: Elem, count: nat, src: Source, seeks: bool, pos: nat): Read<seq<Value>>
    decreases e, 1, count
  {
    if count == 0 then Ok([], pos, true)
    else
      match ReadElem(e, src, seeks, pos)
      case Fail => Fail
      case Ok(v, p, full) =>
        match ReadMany(e, count - 1, src, seeks, p)
        case Fail => Fail
        case Ok(vs, q, full') => Ok([v] + vs, q, full && full')
  }

  function ReadCounted(e: Elem, count: nat, src: Source, seeks: bool, pos: nat): Read<Value>
    decreases e, 2
  {
    match e
    case Single(s) => ReadScalars(s, count, src, pos)
    case Struct(_) =>
      match ReadMany(e, count, src, seeks, pos)
      case Fail => Fail
      case Ok(vs, p, full) => Ok(List(vs), p, full)
  }

  function ReadType(t: Type, r: map<string, Value>, src: Source, seeks: bool, pos: nat): Read<Value>
    decreases t
  {
    match t
    case One(e) => ReadElem(e, src, seeks, pos)
    case Many(e, Static(n)) => ReadCounted(e, n, src, seeks, pos)
    case Many(e, Dynamic(expr)) =>
      var n := Evaluated(expr, r, src);
      if n.None? then Fail else ReadCounted(e, n.value, src, seeks, pos)
    case Many(Single(s), NullTerminated) => ReadUntilZero(s, src, pos)
    case Many(Struct(_), NullTerminated) => Fail
  }

  /** Where a field is read. Class Structure seeks to the stated offset, unless that is zero or
      unknown; the generated readers read on. */
  function Sought(p: Plan, f: Field, start: nat, seeks: bool, pos: nat): nat {
    var o := PlanOffset(p, f);
    if seeks && o.Some? && o.value != 0 then start + o.value else pos
  }

  /** The loop over the fields in Structure._read. */
  function ReadFields(fields: seq<Field>, p: Plan, start: nat, src: Source, seeks: bool, pos: nat,
      b: BitState, r: map<string, Value>): Read<map<string, Value>>
    decreases fields
  {
    if fields == [] then Ok(r, pos, true)
    else
      var f, rest := fields[0], fields[1..];
      var at := Sought(p, f, start, seeks, pos);
      var p' := PlanNext(p, f, TypeLen(f.typ));
      if f.bits > 0 then
        match f.typ
        case One(Single(s)) => (
          match ReadBits(b, s, f.bits, src, at)
          case Fail => Fail
          case Ok((v, b'), q, full) => Noting(full, ReadFields(rest, p', start, src, seeks, q, b', r[f.name := Int(v)]))
        )
        case _ => Fail
      else
        match ReadType(f.typ, r, src, seeks, at)
        case Fail => Fail
        case Ok(v, q, full) => Noting(full, ReadFields(rest, p', start, src, seeks, q, IDLE, r[f.name := v]))
  }

  function Noting<T>(full: bool, x: Read<T>): Read<T> {
    match x
    case Fail => Fail
    case Ok(v, p, full') => Ok(v, p, full && full')
  }

  /** A read that counts only when no byte was missing. */
  function Strict<T>(x: Read<T>): Read<T> {
    if x.Ok? && x.full then x else Fail
  }

  // -------------------------------------------------- writing

  function Concat(a: Option<seq<byte>>, b: Option<seq<byte>>): Option<seq<byte>> {
    if a.None? || b.None? then None else Some(a.value + b.value)
  }

  /** struct.pack insists on the range, BytesInteger.pack does not. */
  function WriteInt(s: Scalar, v: int, endian: Endian): Option<seq<byte>> {
    if s.Char? || (s.Packed? && !InRange(v, ScalarSize(s), ScalarSigned(s))) then None
    else Some(Encode(v, ScalarSize(s), endian))
  }

  function WriteScalar(s: Scalar, v: Value, endian: Endian): Option<seq<byte>> {
    match v
    case Int(i) => if s.Char? then (if 0 <= i < 256 then Some([i]) else None) else WriteInt(s, i, endian)
    case Raw(bs) => if s.Char? then Some(bs) else None
    case _ => None
  }

  function WriteInts(s: Scalar, vs: seq<Value>, endian: Endian): Option<seq<byte>> {
    if vs == [] then Some([])
    else if !vs[0].Int? then None
    else Concat(WriteInt(s, vs[0].i, endian), WriteInts(s, vs[1..], endian))
  }

  function WriteScalars(s: Scalar, v: Value, endian: Endian): Option<seq<byte>> {
    if s.Char? then WriteScalar(s, v, endian)
    else if v.List? then WriteInts(s, v.vs, endian)
    else None
  }

  function WriteUntilZero(s: Scalar, v: Value, endian: Endian): Option<seq<byte>> {
    match v
    case List(vs) => WriteScalars(s, List(vs + [Int(0)]), endian)
    case Raw(bs) => WriteScalars(s, Raw(bs + [0]), endian)
    case _ => None
  }

  function WriteElem(e: Elem, v: Value, endian: Endian): Option<seq<byte>>
    decreases e, 0
  {
    match e
    case Single(s) => WriteScalar(s, v, endian)
    case Struct(fields) => if v.Inst? then WriteFields(fields, v.values, IDLE, endian) else None
  }

  function WriteMany(e: Elem, vs: seq<Value>, endian: Endian): Option<seq<byte>>
    decreases e, 1, |vs|
  {
    if vs == [] then Some([]) else Concat(WriteElem(e, vs[0], endian), WriteMany(e, vs[1..], endian))
  }

  function WriteType(t: Type, v: Value, endian: Endian): Option<seq<byte>>
    decreases t
  {
    match t
    case One(e) => WriteElem(e, v, endian)
    case Many(Single(s), NullTerminated) => WriteUntilZero(s, v, endian)
    case Many(Struct(_), NullTerminated) => None
    case Many(Single(s), _) => WriteScalars(s, v, endian)
    case Many(e, _) => if v.List? then WriteMany(e, v.vs, endian) else None
  }

  /** BitBuffer.flush, when there is something to flush. */
  function Flushed(b: BitState, endian: Endian): Option<seq<byte>> {
    if b.typ.None? then Some([]) else WriteScalar(b.typ.value, Int(b.buffer), endian)
  }

  /** The loop over the fields in Structure._write, with the flush after it. */
  function WriteFields(fields: seq<Field>, values: map<string, Value>, b: BitState, endian: Endian): Option<seq<byte>>
    decreases fields
  {
    if fields == [] then Flushed(b, endian)
    else
      var f, rest := fields[0], fields[1..];
      if f.name !in values then None
      else if f.bits > 0 then
        match (f.typ, values[f.name])
        case (One(Single(s)), Int(v)) =>
          var b' := PutBits(b, s, v, f.bits, endian);
          if b'.None? then None else WriteFields(rest, values, b'.value, endian)
        case _ => None
      else
        Concat(Flushed(b, endian),
               Concat(WriteType(f.typ, values[f.name], endian), WriteFields(rest, values, IDLE, endian)))
  }

  /** A number is written to a character as to an unsigned byte. */
  lemma CharOfNumber(i: int, endian: Endian)
    ensures WriteScalar(Char, Int(i), endian) == WriteScalar(Packed(U8), Int(i), endian)
    ensures 0 <= i < 256 ==> WriteScalar(Char, Int(i), endian) == Some([i])
  {
    if 0 <= i < 256 { OneByte(i, endian); }
    assert Pow2(8) == 256 by { FirstPowers(); }
  }

  lemma OneByte(i: nat, endian: Endian)
    requires i < 256
    ensures Encode(i, 1, endian) == [i]
  {
    assert BigDigits(i / 256, 0) == [] && BigDigits(i, 1) == [i];
    assert Reverse([i]) == [i];
  }

  // -------------------------------------------------- the packed integers

  /** Their least and greatest numbers. */
  predicate Between(c: IntCode, v: int) {
    match c
    case I8 => -128 <= v <= 127
    case U8 => 0 <= v <= 255
    case I16 => -32768 <= v <= 32767
    case U16 => 0 <= v <= 65535
    case I32 => -2147483648 <= v <= 2147483647
    case U32 => 0 <= v <= 4294967295
    case I64 => -9223372036854775808 <= v <= 9223372036854775807
    case U64 => 0 <= v <= 18446744073709551615
  }

  lemma Powers()
    ensures Pow2(7) == 128 && Pow2(15) == 32768 && Pow2(31) == 2147483648 && Pow2(63) == 9223372036854775808
  {
    hide Pow2;
    EightTimes(0);
    EightTimes(7);
    EightTimes(15);
    EightTimes(23);
    EightTimes(31);
    EightTimes(39);
    EightTimes(47);
    EightTimes(55);
    assert Pow2(0) == 1 && Pow2(7) == 128 by { FirstPowers(); }
  }

  lemma EightTimes(n: nat)
    ensures Pow2(n + 8) == 256 * Pow2(n)
  {
    Pow2Add(n, 8);
    ShlByte(Pow2(n));
  }

  lemma FirstPowers()
    ensures Pow2(0) == 1 && Pow2(7) == 128
  {
    assert Pow2(7) == 8 * Pow2(4);
  }

  /** They are written exactly when they are in their range, and as one, two, four or eight bytes. */
  lemma PackedExactly(c: IntCode, v: int, endian: Endian)
    ensures WriteInt(Packed(c), v, endian).Some? <==> Between(c, v)
    ensures CharSize(c) == match c
            case I8 => 1 case U8 => 1 case I16 => 2 case U16 => 2
            case I32 => 4 case U32 => 4 case I64 => 8 case U64 => 8
  {
    hide Encode, Pow2;
    Powers();
  }
}
