/** Class Compiler: a structure becomes blocks of reading code. Fields of fixed size share one
    read, one unpack with a run-length format, and are picked out by index. The generated source
    is modelled by the datatype Block, its execution by Exec. */
module Compiler {
  import opened Bits
  import opened Bytes
  import opened BytesInteger
  import opened Text
  import opened Layout

  /** One item of the format string, as in "3B". */
  datatype FormatItem = FormatItem(count: nat, code: PackChar)

  /** The right-hand sides of the generated assignments. */
  datatype Getter =
    | DataAt(index: nat)                                                  // data[i]
    | DataSlice(lo: nat, hi: nat)                                         // list(data[lo:hi])
    | BufAt(index: nat)                                                   // buf[i]
    | BufSlice(lo: nat, hi: nat)                                          // buf[lo:hi]
    | ParseInts(lo: nat, hi: nat, size: Size, count: nat, signed: bool)   // BytesInteger.parse(buf[lo:hi], ...)

  datatype Assign = Assign(name: string, getter: Getter)

  datatype Block =
    | ReadBlock(size: nat, format: seq<FormatItem>, assigns: seq<Assign>)
    | StructRead(name: string, body: seq<Block>)
    | StructsRead(name: string, body: seq<Block>, count: Count)
    | BitRead(name: string, scalar: Scalar, bits: nat)
    | BitReset
    | UntilZero(name: string, scalar: Scalar)
    | Counted(name: string, scalar: Scalar, expr: string)

  // -------------------------------------------------- fields of fixed size

  /** A field that goes into a block: a scalar or an array of known length of scalars. */
  predicate IsFixed(f: Field) {
    f.bits == 0 && f.typ.elem.Single? && (f.typ.One? || f.typ.count.Static?)
  }

  function CountOf(t: Type): nat { if t.Many? && t.count.Static? then t.count.n else 1 }

  function FixedSize(f: Field): nat
    requires IsFixed(f)
  {
    ScalarSize(f.typ.elem.scalar) * CountOf(f.typ)
  }

  function CodeOf(s: Scalar): PackChar { if s.Packed? then s.code else PadX }

  /** How many format characters a field needs, and how many numbers unpacking gives for it. */
  function CharCount(f: Field): nat
    requires IsFixed(f)
  {
    if f.typ.elem.scalar.Packed? then CountOf(f.typ) else FixedSize(f)
  }

  function DataCount(f: Field): nat
    requires IsFixed(f)
  {
    if f.typ.elem.scalar.Packed? then CountOf(f.typ) else 0
  }

  function GetterOf(f: Field, buf: nat, dat: nat): Getter
    requires IsFixed(f)
  {
    var count := CountOf(f.typ);
    match f.typ.elem.scalar
    case BytesInt(w, signed) => ParseInts(buf, buf + count * w, w, count, signed)
    case Char => if f.typ.Many? then BufSlice(buf, buf + count) else BufAt(buf)
    case Packed(_) => if f.typ.Many? then DataSlice(dat, dat + count) else DataAt(dat)
  }

  predicate AllFixed(block: seq<Field>) { forall k | 0 <= k < |block| :: IsFixed(block[k]) }

  function BlockSize(block: seq<Field>): nat
    requires AllFixed(block)
  {
    if block == [] then 0 else FixedSize(block[0]) + BlockSize(block[1..])
  }

  function Getters(block: seq<Field>, buf: nat, dat: nat): seq<Assign>
    requires AllFixed(block)
    decreases block
  {
    if block == [] then []
    else
      var f := block[0];
      [Assign(f.name, GetterOf(f, buf, dat))] + Getters(block[1..], buf + FixedSize(f), dat + DataCount(f))
  }

  /** The format of a block, given the run being counted: neighbours of one code share an item. */
  function Formats(block: seq<Field>, code: Option<PackChar>, count: nat): seq<FormatItem>
    requires AllFixed(block)
    decreases block
  {
    if block == [] then (if count > 0 && code.Some? then [FormatItem(count, code.value)] else [])
    else
      var f := block[0];
      var c := CodeOf(f.typ.elem.scalar);
      if code.None? || code.value == c then Formats(block[1..], Some(c), count + CharCount(f))
      else [FormatItem(count, code.value)] + Formats(block[1..], Some(c), CharCount(f))
  }

  function BlockOf(size: nat, block: seq<Field>): Block
    requires AllFixed(block)
  {
    ReadBlock(size, Formats(block, None, 0), Getters(block, 0, 0))
  }

  method GenReadBlock(size: nat, block: seq<Field>) returns (code: Block)
    requires AllFixed(block)
    ensures code == BlockOf(size, block)
  {
    hide Getters, Formats, GetterOf, ScalarSize, CodeOf, FixedSize, CharCount, DataCount, CountOf;
    var readcode: seq<Assign> := [];
    var fmt: seq<FormatItem> := [];
    var curtype: Option<PackChar> := None;
    var curcount: nat := 0;
    var bufOffset: nat := 0;
    var dataOffset: nat := 0;
    assert block[0..] == block;
    for i := 0 to |block|
      invariant curtype.None? ==> curcount == 0
      invariant readcode + Getters(block[i..], bufOffset, dataOffset) == Getters(block, 0, 0)
      invariant fmt + Formats(block[i..], curtype, curcount) == Formats(block, None, 0)
    {
      var field := block[i];
      FixedIs(field);
      GettersStep(readcode, block, i, bufOffset, dataOffset);
      ghost var fmt0, curtype0, curcount0 := fmt, curtype, curcount;
      var t := field.typ.elem.scalar;
      var count := CountOf(field.typ);
      var dataCount := count;
      var charcount := count;
      var packchar := PadX;
      if curtype == None {
        curtype := Some(CodeOf(t));
      }
      if t.Packed? {
        packchar := t.code;
      } else {
        dataCount := 0;
        charcount := ScalarSize(t) * charcount;
      }
      if curtype != Some(packchar) {
        fmt := fmt + [FormatItem(curcount, curtype.value)];
        curcount := 0;
      }
      curcount := curcount + charcount;
      curtype := Some(packchar);
      FormatsStep(fmt0, block, i, curtype0, curcount0, fmt, curcount);
      readcode := readcode + [Assign(field.name, GetterOf(field, bufOffset, dataOffset))];
      dataOffset := dataOffset + dataCount;
      bufOffset := bufOffset + ScalarSize(t) * count;
    }
    NoFieldsLeft(block[|block|..], bufOffset, dataOffset, curtype, curcount);
    if curcount > 0 {
      fmt := fmt + [FormatItem(curcount, curtype.value)];
    }
    code := ReadBlock(size, fmt, readcode);
  }

  lemma FixedIs(f: Field)
    requires IsFixed(f)
    ensures var s, count := f.typ.elem.scalar, CountOf(f.typ);
            && FixedSize(f) == ScalarSize(s) * count
            && CharCount(f) == (if s.Packed? then count else ScalarSize(s) * count)
            && DataCount(f) == (if s.Packed? then count else 0)
            && CodeOf(s) == if s.Packed? then s.code else PadX
  {}

  lemma NoFieldsLeft(block: seq<Field>, buf: nat, dat: nat, code: Option<PackChar>, count: nat)
    requires block == []
    ensures Getters(block, buf, dat) == []
    ensures Formats(block, code, count) == if count > 0 && code.Some? then [FormatItem(count, code.value)] else []
  {}

  lemma GettersStep(done: seq<Assign>, block: seq<Field>, i: nat, buf: nat, dat: nat)
    requires AllFixed(block) && i < |block|
    ensures done + Getters(block[i..], buf, dat)
         == done + [Assign(block[i].name, GetterOf(block[i], buf, dat))]
          + Getters(block[i + 1..], buf + FixedSize(block[i]), dat + DataCount(block[i]))
  {
    assert block[i..][0] == block[i] && block[i..][1..] == block[i + 1..];
  }

  /** One turn of the loop, from `done` and `count` to `done'` and `count'`. */
  lemma FormatsStep(done: seq<FormatItem>, block: seq<Field>, i: nat, code: Option<PackChar>, count: nat,
      done': seq<FormatItem>, count': nat)
    requires AllFixed(block) && i < |block|
    requires var c := CodeOf(block[i].typ.elem.scalar);
             if code.None? || code.value == c then done' == done && count' == count + CharCount(block[i])
             else done' == done + [FormatItem(count, code.value)] && count' == CharCount(block[i])
    ensures done + Formats(block[i..], code, count)
         == done' + Formats(block[i + 1..], Some(CodeOf(block[i].typ.elem.scalar)), count')
  {
    assert block[i..][0] == block[i] && block[i..][1..] == block[i + 1..];
    var c := CodeOf(block[i].typ.elem.scalar);
    if code.Some? && code.value != c {
      var item, more := FormatItem(count, code.value), Formats(block[i + 1..], Some(c), count');
      assert done + ([item] + more) == done + [item] + more;
    }
  }

  // -------------------------------------------------- all fields

  function Flush(size: nat, cur: seq<Field>): seq<Block>
    requires AllFixed(cur)
  {
    if cur == [] then [] else [BlockOf(size, cur)]
  }

  function Prepend(a: seq<Block>, b: Option<seq<Block>>): Option<seq<Block>> {
    if b.None? then None else Some(a + b.value)
  }

  /** The blocks for the fields still to come, with `cur` waiting for a block of `size` bytes;
      None where compiling raises an error. */
  function Blocks(fields: seq<Field>, cur: seq<Field>, size: nat, prevWasBits: bool): Option<seq<Block>>
    requires AllFixed(cur)
    decreases fields
  {
    if fields == [] then Some(Flush(size, cur))
    else
      var f, rest := fields[0], fields[1..];
      if f.typ.elem.Struct? then
        var body := Blocks(f.typ.elem.fields, [], 0, false);
        if body.None? then None
        else
          var block := if f.typ.One? then StructRead(f.name, body.value)
              else StructsRead(f.name, body.value, f.typ.count);
          Prepend(Flush(size, cur) + [block], Blocks(rest, [], 0, prevWasBits))
      else
        var s := f.typ.elem.scalar;
        if f.bits > 0 then
          if f.typ.Many? then None
          else Prepend(Flush(size, cur) + [BitRead(f.name, s, f.bits)], Blocks(rest, [], 0, true))
        else
          var reset := if prevWasBits then [BitReset] else [];
          if IsFixed(f) then Prepend(reset, Blocks(rest, cur + [f], size + FixedSize(f), false))
          else
            var block := if f.typ.count.Dynamic? then Counted(f.name, s, f.typ.count.expr) else UntilZero(f.name, s);
            Prepend(reset + Flush(size, cur) + [block], Blocks(rest, [], 0, false))
  }

  method GenStructClass(fields: seq<Field>) returns (code: Option<seq<Block>>)
    ensures code == Blocks(fields, [], 0, false)
    decreases fields
  {
    hide BlockOf, ScalarSize, Blocks;
    var blocks: seq<Block> := [];
    var curBlock: seq<Field> := [];
    var readSize: nat := 0;
    var prevWasBits := false;
    var i := 0;
    assert fields[0..] == fields;
    PrependNothing(Blocks(fields, [], 0, false));
    while i < |fields|
      invariant 0 <= i <= |fields| && AllFixed(curBlock)
      invariant Blocks(fields, [], 0, false) == Prepend(blocks, Blocks(fields[i..], curBlock, readSize, prevWasBits))
    {
      var field := fields[i];
      ghost var rest := fields[i + 1..];
      assert fields[i..][0] == field && fields[i..][1..] == rest;
      BlocksFirst(fields[i..], curBlock, readSize, prevWasBits);
      ghost var was := blocks;
      i := i + 1;
      if field.typ.elem.Struct? {
        if curBlock != [] {
          var block := GenReadBlock(readSize, curBlock);
          blocks := blocks + [block];
        }
        var body := GenStructClass(field.typ.elem.fields);
        if body.None? {
          return None;
        }
        var structRead := if field.typ.One? then StructRead(field.name, body.value)
                          else StructsRead(field.name, body.value, field.typ.count);
        PrependTwice(was, Flush(readSize, curBlock) + [structRead], Blocks(rest, [], 0, prevWasBits));
        blocks := blocks + [structRead];
        assert blocks == was + (Flush(readSize, curBlock) + [structRead]);
        readSize := 0;
        curBlock := [];
        continue;
      }
      if field.bits > 0 {
        if curBlock != [] {
          var block := GenReadBlock(readSize, curBlock);
          blocks := blocks + [block];
        }
        if field.typ.Many? {
          return None;
        }
        var bitRead := BitRead(field.name, field.typ.elem.scalar, field.bits);
        PrependTwice(was, Flush(readSize, curBlock) + [bitRead], Blocks(rest, [], 0, true));
        blocks := blocks + [bitRead];
        assert blocks == was + (Flush(readSize, curBlock) + [bitRead]);
        readSize := 0;
        curBlock := [];
        prevWasBits := true;
        continue;
      }
      ghost var reset := if prevWasBits then [BitReset] else [];
      if prevWasBits {
        blocks := blocks + [BitReset];
        prevWasBits := false;
      }
      assert blocks == was + reset;
      if IsFixed(field) {
        PrependTwice(was, reset, Blocks(rest, curBlock + [field], readSize + FixedSize(field), false));
        readSize := readSize + FixedSize(field);
        curBlock := curBlock + [field];
      } else {
        if curBlock != [] {
          var block := GenReadBlock(readSize, curBlock);
          blocks := blocks + [block];
        }
        assert blocks == was + reset + Flush(readSize, curBlock);
        var t := field.typ.elem.scalar;
        var dynamicBlock := if field.typ.count.Dynamic? then Counted(field.name, t, field.typ.count.expr)
                            else UntilZero(field.name, t);
        PrependTwice(was, reset + Flush(readSize, curBlock) + [dynamicBlock], Blocks(rest, [], 0, false));
        blocks := blocks + [dynamicBlock];
        assert blocks == was + (reset + Flush(readSize, curBlock) + [dynamicBlock]);
        readSize := 0;
        curBlock := [];
      }
    }
    assert fields[i..] == [];
    NoBlocksLeft(curBlock, readSize, prevWasBits);
    assert Blocks(fields, [], 0, false) == Some(blocks + Flush(readSize, curBlock));
    assert curBlock == [] ==> blocks + [] == blocks;
    if curBlock != [] {
      var block := GenReadBlock(readSize, curBlock);
      blocks := blocks + [block];
    }
    code := Some(blocks);
  }

  lemma NoBlocksLeft(cur: seq<Field>, size: nat, prev: bool)
    requires AllFixed(cur)
    ensures Blocks([], cur, size, prev) == Some(Flush(size, cur))
  {}

  lemma BlocksFirst(fields: seq<Field>, cur: seq<Field>, size: nat, prev: bool)
    requires AllFixed(cur) && fields != []
    ensures var f, rest := fields[0], fields[1..];
            var reset := if prev then [BitReset] else [];
            Blocks(fields, cur, size, prev)
            == if f.typ.elem.Struct? then
                 var body := Blocks(f.typ.elem.fields, [], 0, false);
                 if body.None? then None
                 else Prepend(Flush(size, cur) + [if f.typ.One? then StructRead(f.name, body.value)
                                                  else StructsRead(f.name, body.value, f.typ.count)],
                              Blocks(rest, [], 0, prev))
               else if f.bits > 0 then
                 if f.typ.Many? then None
                 else Prepend(Flush(size, cur) + [BitRead(f.name, f.typ.elem.scalar, f.bits)],
                              Blocks(rest, [], 0, true))
               else if IsFixed(f) then Prepend(reset, Blocks(rest, cur + [f], size + FixedSize(f), false))
               else Prepend(reset + Flush(size, cur) + [if f.typ.count.Dynamic?
                                                        then Counted(f.name, f.typ.elem.scalar, f.typ.count.expr)
                                                        else UntilZero(f.name, f.typ.elem.scalar)],
                            Blocks(rest, [], 0, false))
  {}

  lemma PrependNothing(b: Option<seq<Block>>)
    ensures Prepend([], b) == b
  {
    if b.Some? { assert [] + b.value == b.value; }
  }

  lemma PrependTwice(a: seq<Block>, b: seq<Block>, c: Option<seq<Block>>)
    ensures Prepend(a, Prepend(b, c)) == Prepend(a + b, c)
  {
    if c.Some? { assert a + (b + c.value) == a + b + c.value; }
  }

  // -------------------------------------------------- running the blocks

  function FormatSize(format: seq<FormatItem>): nat {
    if format == [] then 0 else CharSize(format[0].code) * format[0].count + FormatSize(format[1..])
  }

  /** struct.unpack of one item: pad bytes give nothing. */
  function UnpackItem(item: FormatItem, buf: seq<byte>, endian: Endian): seq<int> {
    if item.code == PadX then []
    else ParseAll(buf, CharSize(item.code), item.count, CharSigned(item.code), endian)
  }

  /** struct.unpack, for a buffer of the size of the format. */
  function Unpack(format: seq<FormatItem>, buf: seq<byte>, endian: Endian): seq<int>
    decreases format
  {
    if format == [] then []
    else
      var n := CharSize(format[0].code) * format[0].count;
      UnpackItem(format[0], Take(buf, n), endian) + Unpack(format[1..], Drop(buf, n), endian)
  }

  function Get(g: Getter, buf: seq<byte>, data: seq<int>, endian: Endian): Option<Value> {
    match g
    case DataAt(i) => if i < |data| then Some(Int(data[i])) else None
    case DataSlice(lo, hi) => Some(List(Ints(Slice(data, lo, hi))))
    case BufAt(i) => if i < |buf| then Some(Int(buf[i])) else None
    case BufSlice(lo, hi) => Some(Raw(Slice(buf, lo, hi)))
    case ParseInts(lo, hi, size, count, signed) =>
      var ns := ParseAll(Slice(buf, lo, hi), size, count, signed, endian);
      Some(if count == 1 then Int(ns[0]) else List(Ints(ns)))
  }

  function RunAssigns(assigns: seq<Assign>, buf: seq<byte>, data: seq<int>, endian: Endian, r: map<string, Value>)
      : Option<map<string, Value>>
    decreases assigns
  {
    if assigns == [] then Some(r)
    else
      var v := Get(assigns[0].getter, buf, data, endian);
      if v.None? then None else RunAssigns(assigns[1..], buf, data, endian, r[assigns[0].name := v.value])
  }

  function RunBlock(block: Block, src: Source, pos: nat, r: map<string, Value>): Read<map<string, Value>>
    requires block.ReadBlock?
  {
    var buf := Chunk(src, pos, block.size);
    if !Enough(src, pos, block.size) || FormatSize(block.format) != |buf| then Fail
    else
      var r' := RunAssigns(block.assigns, buf, Unpack(block.format, buf, src.endian), src.endian, r);
      if r'.None? then Fail else Ok(r'.value, pos + block.size, true)
  }

  /** What the generated loop for a null-terminated array makes of the bytes of one element: a number,
      the bytes themselves, or, for BytesInteger.parse with a count of one, a list. */
  function LoopValue(s: Scalar, d: seq<byte>, endian: Endian): Value {
    match s
    case Packed(c) => Int(Decode(d, CharSize(c), CharSigned(c), endian))
    case Char => Raw(d)
    case BytesInt(w, signed) => List(Ints(ParseAll(d, w, 1, signed, endian)))
  }

  /** What it compares that with. */
  function LoopEnd(s: Scalar): Value { if s.Char? then Raw([0]) else Int(0) }

  function LoopUntilZero(s: Scalar, src: Source, pos: nat): Read<seq<Value>>
    decreases |src.data| - pos
  {
    var n := ScalarSize(s);
    if !Enough(src, pos, n) then Fail
    else
      var v := LoopValue(s, Chunk(src, pos, n), src.endian);
      if v == LoopEnd(s) then Ok([], pos + n, true)
      else
        match LoopUntilZero(s, src, pos + n)
        case Fail => Fail
        case Ok(vs, p, full) => Ok([v] + vs, p, full)
  }

  /** b"".join */
  function JoinRaw(vs: seq<Value>): seq<byte> {
    if vs == [] then [] else (if vs[0].Raw? then vs[0].bs else []) + JoinRaw(vs[1..])
  }

  /** The generated code for a null-terminated array of scalars. */
  function RunUntilZero(s: Scalar, src: Source, pos: nat): Read<Value> {
    match LoopUntilZero(s, src, pos)
    case Fail => Fail
    case Ok(vs, p, full) => Ok(if s.Char? then Raw(JoinRaw(vs)) else List(vs), p, full)
  }

  /** The generated code for an array of scalars with a count expression. */
  function RunCounted(s: Scalar, count: nat, src: Source, pos: nat): Read<Value> {
    var n := ScalarSize(s) * count;
    if !Enough(src, pos, n) then Fail
    else Ok(if s.Char? then Raw(Chunk(src, pos, n)) else List(Ints(ReadInts(s, count, src, pos))), pos + n, true)
  }

  /** The body of a generated _read. For an array of structures it puts an empty list under the field's
      name before it evaluates the count. */
  function Exec(blocks: seq<Block>, src: Source, pos: nat, b: BitState, r: map<string, Value>): Read<map<string, Value>>
    decreases blocks, 0
  {
    if blocks == [] then Ok(r, pos, true)
    else
      var rest := blocks[1..];
      match blocks[0]
      case ReadBlock(_, _, _) => (
        match RunBlock(blocks[0], src, pos, r)
        case Fail => Fail
        case Ok(r', p, _) => Exec(rest, src, p, b, r')
      )
      case StructRead(name, body) => (
        match Exec(body, src, pos, IDLE, map[])
        case Fail => Fail
        case Ok(v, p, full) => Noting(full, Exec(rest, src, p, b, r[name := Inst(v)]))
      )
      case StructsRead(name, body, count) => (
        var n := match count
          case Static(k) => Some(k)
          case Dynamic(expr) => Evaluated(expr, r[name := List([])], src)
          case NullTerminated => None;
        if n.None? then Fail
        else
          match ExecMany(body, n.value, src, pos)
          case Fail => Fail
          case Ok(vs, p, full) => Noting(full, Exec(rest, src, p, b, r[name := List(vs)]))
      )
      case BitRead(name, s, bits) => (
        match ReadBits(b, s, bits, src, pos)
        case Fail => Fail
        case Ok((v, b'), p, full) => Noting(full, Exec(rest, src, p, b', r[name := Int(v)]))
      )
      case BitReset => Exec(rest, src, pos, IDLE, r)
      case UntilZero(name, s) => (
        match RunUntilZero(s, src, pos)
        case Fail => Fail
        case Ok(v, p, full) => Noting(full, Exec(rest, src, p, b, r[name := v]))
      )
      case Counted(name, s, expr) =>
        var n := Evaluated(expr, r, src);
        if n.None? then Fail
        else
          match RunCounted(s, n.value, src, pos)
          case Fail => Fail
          case Ok(v, p, _) => Exec(rest, src, p, b, r[name := v])
  }

  function ExecMany(body: seq<Block>, count: nat, src: Source, pos: nat): Read<seq<Value>>
    decreases body, 1, count
  {
    if count == 0 then Ok([], pos, true)
    else
      match Exec(body, src, pos, IDLE, map[])
      case Fail => Fail
      case Ok(v, p, full) =>
        match ExecMany(body, count - 1, src, p)
        case Fail => Fail
        case Ok(vs, q, full') => Ok([Inst(v)] + vs, q, full && full')
  }
}
