/** What a generated class reads, for every layout: its blocks read field after field, each field from
    its own bytes. */
module GeneratedReader {
  import opened Bits
  import opened Bytes
  import opened BytesInteger
  import opened Text
  import opened Layout
  import opened Compiler
  import opened CompilerProofs

  // -------------------------------------------------- field by field

  function CountIn(count: Count, r: map<string, Value>, src: Source): Option<nat> {
    match count
    case Static(k) => Some(k)
    case Dynamic(expr) => Evaluated(expr, r, src)
    case NullTerminated => None
  }

  /** The fields of a structure as a generated class reads them, giving up at the first missing byte.
      It makes ints of some fields (GotValue), keeps its bit buffer over a structure, and never ends a
      null-terminated array of arbitrary-width integers. */
  function GotFields(fields: seq<Field>, src: Source, pos: nat, b: BitState,
      r: map<string, Value>): Read<map<string, Value>>
    decreases fields, 0
  {
    if fields == [] then Ok(r, pos, true)
    else
      var f, rest := fields[0], fields[1..];
      if f.typ.elem.Struct? then
        var x := GotStruct(f, r, src, pos);
        if x.Fail? then Fail else GotFields(rest, src, x.pos, b, r[f.name := x.value])
      else if f.bits > 0 then
        var x: Read<(int, BitState)> := Strict(ReadBits(b, f.typ.elem.scalar, f.bits, src, pos));
        if x.Fail? then Fail else GotFields(rest, src, x.pos, x.value.1, r[f.name := Int(x.value.0)])
      else
        var x := GotScalars(f, r, src, pos);
        if x.Fail? then Fail else GotFields(rest, src, x.pos, IDLE, r[f.name := x.value])
  }

  /** A structure or an array of structures, whose name stands for an empty list while its count is
      evaluated. */
  function GotStruct(f: Field, r: map<string, Value>, src: Source, pos: nat): Read<Value>
    requires f.typ.elem.Struct?
    decreases f.typ.elem.fields, 2
  {
    if f.typ.One? then
      var x := GotFields(f.typ.elem.fields, src, pos, IDLE, map[]);
      if x.Fail? then Fail else Ok(Inst(x.value), x.pos, true)
    else
      var n := CountIn(f.typ.count, r[f.name := List([])], src);
      if n.None? then Fail
      else
        var x := GotMany(f.typ.elem.fields, n.value, src, pos);
        if x.Fail? then Fail else Ok(List(x.value), x.pos, true)
  }

  function GotMany(fields: seq<Field>, count: nat, src: Source, pos: nat): Read<seq<Value>>
    decreases fields, 1, count
  {
    if count == 0 then Ok([], pos, true)
    else
      var x := GotFields(fields, src, pos, IDLE, map[]);
      if x.Fail? then Fail
      else
        var y := GotMany(fields, count - 1, src, x.pos);
        if y.Fail? then Fail else Ok([Inst(x.value)] + y.value, y.pos, true)
  }

  function GotScalars(f: Field, r: map<string, Value>, src: Source, pos: nat): Read<Value>
    requires f.typ.elem.Single? && f.bits == 0
  {
    if IsFixed(f) then
      var n := FixedSize(f);
      if Enough(src, pos, n) then Ok(GotValue(f, Chunk(src, pos, n), src.endian), pos + n, true) else Fail
    else if f.typ.count.Dynamic? then Strict(ReadType(f.typ, r, src, false, pos))
    else if f.typ.elem.scalar.BytesInt? then Fail
    else Strict(ReadUntilZero(f.typ.elem.scalar, src, pos))
  }

  // -------------------------------------------------- the fields of a block

  lemma {:induction false} FixedFields(block: seq<Field>, src: Source, pos: nat, b: BitState, r: map<string, Value>)
    requires AllFixed(block)
    ensures block == [] ==> GotFields(block, src, pos, b, r) == Ok(r, pos, true)
    ensures block != [] ==> GotFields(block, src, pos, b, r) == ReadAll(block, src, pos, r)
    decreases block
  {
    hide GotValue, FixedSize, Chunk;
    if block != [] {
      var f, rest := block[0], block[1..];
      var n, m := FixedSize(f), BlockSize(rest);
      ChunkParts(src, pos, n, m);
      if Enough(src, pos, n) {
        var r' := r[f.name := GotValue(f, Chunk(src, pos, n), src.endian)];
        FixedFields(rest, src, pos + n, IDLE, r');
        if Enough(src, pos, n + m) {
          GotValuesStep(block, Chunk(src, pos, n + m), src.endian, r);
        }
      }
    }
  }

  lemma ChunkParts(src: Source, pos: nat, n: nat, m: nat)
    ensures Enough(src, pos, n + m) <==> Enough(src, pos, n) && Enough(src, pos + n, m)
    ensures Enough(src, pos, n + m) ==>
              Take(Chunk(src, pos, n + m), n) == Chunk(src, pos, n)
                  && Drop(Chunk(src, pos, n + m), n) == Chunk(src, pos + n, m)
  {}

  lemma GotValuesStep(block: seq<Field>, buf: seq<byte>, endian: Endian, r: map<string, Value>)
    requires AllFixed(block) && block != [] && |buf| == BlockSize(block)
    ensures var f, n := block[0], FixedSize(block[0]);
            GotValues(block, buf, endian, r)
            == GotValues(block[1..], Drop(buf, n), endian, r[f.name := GotValue(f, Take(buf, n), endian)])
  {}

  lemma {:induction false} GotAppend(a: seq<Field>, c: seq<Field>, src: Source, pos: nat, b: BitState,
      r: map<string, Value>)
    requires a != [] && AllFixed(a)
    ensures GotFields(a + c, src, pos, b, r) == Continue(GotFields(a, src, pos, b, r), c, src)
    decreases a
  {
    hide GotScalars;
    var f := a[0];
    assert (a + c)[0] == f && (a + c)[1..] == a[1..] + c;
    var x := GotScalars(f, r, src, pos);
    if x.Ok? {
      if a[1..] == [] {
        assert a[1..] + c == c;
      } else {
        GotAppend(a[1..], c, src, x.pos, IDLE, r[f.name := x.value]);
      }
    }
  }

  function Continue(x: Read<map<string, Value>>, fields: seq<Field>, src: Source): Read<map<string, Value>> {
    if x.Fail? then Fail else GotFields(fields, src, x.pos, IDLE, x.value)
  }

  function ExecAfter(x: Read<map<string, Value>>, bs: seq<Block>, src: Source, b: BitState): Read<map<string, Value>> {
    if x.Fail? then Fail else Exec(bs, src, x.pos, b, x.value)
  }

  lemma FlushRuns(cur: seq<Field>, bs: seq<Block>, src: Source, pos: nat, b: BitState, r: map<string, Value>)
    requires AllFixed(cur)
    ensures cur == [] ==> Flush(BlockSize(cur), cur) + bs == bs
    ensures cur != [] ==>
              Exec(Flush(BlockSize(cur), cur) + bs, src, pos, b, r) == ExecAfter(ReadAll(cur, src, pos, r), bs, src, b)
  {
    hide RunBlock, ReadAll, BlockOf;
    if cur != [] {
      var block := BlockOf(BlockSize(cur), cur);
      BlockReads(cur, src, pos, r);
      assert BlockOf(BlockSize(cur), cur).ReadBlock? by { IsReadBlock(BlockSize(cur), cur); }
      assert ([block] + bs)[1..] == bs;
    }
  }

  lemma IsReadBlock(size: nat, cur: seq<Field>)
    requires AllFixed(cur)
    ensures BlockOf(size, cur).ReadBlock?
  {}

  // -------------------------------------------------- the theorem

  lemma Join(cur: seq<Field>, fields: seq<Field>, bs: seq<Block>, src: Source, pos: nat, b: BitState,
      r: map<string, Value>)
    requires AllFixed(cur) && (cur != [] ==> b == IDLE)
    requires cur == [] ==> Strict(Exec(bs, src, pos, b, r)) == GotFields(fields, src, pos, b, r)
    requires cur != [] && ReadAll(cur, src, pos, r).Ok? ==>
               var x := ReadAll(cur, src, pos, r);
               Strict(Exec(bs, src, x.pos, b, x.value)) == GotFields(fields, src, x.pos, IDLE, x.value)
    ensures Strict(Exec(Flush(BlockSize(cur), cur) + bs, src, pos, b, r)) == GotFields(cur + fields, src, pos, b, r)
  {
    hide Exec, GotFields, ReadAll, Flush;
    FlushRuns(cur, bs, src, pos, b, r);
    if cur == [] {
      assert cur + fields == fields;
    } else {
      GotAppend(cur, fields, src, pos, b, r);
      FixedFields(cur, src, pos, b, r);
    }
  }

  /** Where the block before the next field leaves off. */
  function AfterBlock(cur: seq<Field>, src: Source, pos: nat, r: map<string, Value>): (nat, map<string, Value>)
    requires AllFixed(cur)
  {
    if cur == [] then (pos, r)
    else
      var x := ReadAll(cur, src, pos, r);
      if x.Fail? then (pos, r) else (x.pos, x.value)
  }

  /** The generated blocks, with `cur` waiting for the next one, read the fields one by one, from any
      state of the bit buffer that they can meet. */
  lemma {:induction false} BlocksRun(fields: seq<Field>, cur: seq<Field>, prev: bool, b: BitState, src: Source,
      pos: nat, r: map<string, Value>)
    requires AllFixed(cur) && (cur != [] ==> !prev) && (!prev ==> b == IDLE)
    requires Blocks(fields, cur, BlockSize(cur), prev).Some?
    ensures Strict(Exec(Blocks(fields, cur, BlockSize(cur), prev).value, src, pos, b, r))
         == GotFields(cur + fields, src, pos, b, r)
    decreases fields, 2
  {
    hide Exec, GotFields, ReadAll, Flush, Blocks, FixedSize;
    var flush := Flush(BlockSize(cur), cur);
    var (p, r') := AfterBlock(cur, src, pos, r);
    if fields != [] { BlocksFirst(fields, cur, BlockSize(cur), prev); }
    if fields == [] {
      NoBlocksLeft(cur, BlockSize(cur), prev);
      NoFields(src, p, b, r');
      assert flush + [] == flush;
      Join(cur, fields, [], src, pos, b, r);
    } else if fields[0].typ.elem.Struct? {
      var bs := StructHead(fields, prev, b, src, p, r');
      Regroup(flush, [bs[0]], bs[1..]);
      Join(cur, fields, bs, src, pos, b, r);
    } else if fields[0].bits > 0 {
      var bs := BitsHead(fields, b, src, p, r');
      Regroup(flush, [bs[0]], bs[1..]);
      Join(cur, fields, bs, src, pos, b, r);
    } else if IsFixed(fields[0]) {
      FixedHead(fields, cur, prev, b, src, pos, r);
    } else {
      var bs := DynamicHead(fields, b, src, p, r');
      Regroup(flush, [bs[0]], bs[1..]);
      if prev {
        ResetRuns(bs, src, pos, b, r);
        assert flush == [] by { NothingToFlush(BlockSize(cur), cur); }
        assert cur + fields == fields && [BitReset] + flush + [bs[0]] + bs[1..] == [BitReset] + bs;
      } else {
        Join(cur, fields, bs, src, pos, b, r);
        assert [] + flush + [bs[0]] == flush + [bs[0]];
      }
    }
  }

  lemma NothingToFlush(size: nat, cur: seq<Field>)
    requires cur == []
    ensures Flush(size, cur) == []
  {}

  lemma Regroup(a: seq<Block>, b: seq<Block>, c: seq<Block>)
    ensures a + b + c == a + (b + c)
  {}

  lemma NoFields(src: Source, pos: nat, b: BitState, r: map<string, Value>)
    ensures Strict(Exec([], src, pos, b, r)) == GotFields([], src, pos, b, r) == GotFields([], src, pos, IDLE, r)
  {}

  lemma ResetRuns(bs: seq<Block>, src: Source, pos: nat, b: BitState, r: map<string, Value>)
    ensures Exec([BitReset] + bs, src, pos, b, r) == Exec(bs, src, pos, IDLE, r)
  {
    assert ([BitReset] + bs)[1..] == bs;
  }

  // -------------------------------------------------- a field of fixed size joins the block

  lemma {:induction false} FixedHead(fields: seq<Field>, cur: seq<Field>, prev: bool, b: BitState, src: Source,
      pos: nat, r: map<string, Value>)
    requires AllFixed(cur) && (cur != [] ==> !prev) && (!prev ==> b == IDLE)
    requires fields != [] && IsFixed(fields[0]) && Blocks(fields, cur, BlockSize(cur), prev).Some?
    ensures Strict(Exec(Blocks(fields, cur, BlockSize(cur), prev).value, src, pos, b, r))
         == GotFields(cur + fields, src, pos, b, r)
    decreases fields, 1
  {
    hide Exec, GotFields, FixedSize;
    var f, rest := fields[0], fields[1..];
    SizeSnoc(cur, f);
    BlocksRun(rest, cur + [f], false, IDLE, src, pos, r);
    assert cur + [f] + rest == cur + fields;
    FirstIsPlain(cur + fields, src, pos, b, r);
    var bs := Blocks(rest, cur + [f], BlockSize(cur + [f]), false).value;
    if prev {
      ResetRuns(bs, src, pos, b, r);
    } else {
      assert [] + bs == bs;
    }
  }

  lemma {:induction false} SizeSnoc(cur: seq<Field>, f: Field)
    requires AllFixed(cur) && IsFixed(f)
    ensures AllFixed(cur + [f]) && BlockSize(cur + [f]) == BlockSize(cur) + FixedSize(f)
  {
    if cur == [] {
      assert [] + [f] == [f] && [f][1..] == [];
    } else {
      SizeSnoc(cur[1..], f);
      assert (cur + [f])[1..] == cur[1..] + [f];
    }
  }

  /** Scalars are read whatever the bit buffer holds. */
  lemma FirstIsPlain(fields: seq<Field>, src: Source, pos: nat, b: BitState, r: map<string, Value>)
    requires fields != [] && fields[0].bits == 0 && fields[0].typ.elem.Single?
    ensures GotFields(fields, src, pos, b, r) == GotFields(fields, src, pos, IDLE, r)
  {}

  // -------------------------------------------------- other fields

  function StructBlock(f: Field, body: seq<Block>): Block {
    if f.typ.One? then StructRead(f.name, body) else StructsRead(f.name, body, f.typ.count)
  }

  lemma {:induction false} StructHead(fields: seq<Field>, prev: bool, b: BitState, src: Source, pos: nat,
      r: map<string, Value>) returns (bs: seq<Block>)
    requires fields != [] && fields[0].typ.elem.Struct? && (!prev ==> b == IDLE)
    requires Blocks(fields[0].typ.elem.fields, [], 0, false).Some? && Blocks(fields[1..], [], 0, prev).Some?
    ensures bs == [StructBlock(fields[0], Blocks(fields[0].typ.elem.fields, [], 0, false).value)]
        + Blocks(fields[1..], [], 0, prev).value
    ensures Strict(Exec(bs, src, pos, b, r)) == GotFields(fields, src, pos, b, r)
    decreases fields, 1
  {
    hide Blocks, GotFields;
    var f, rest := fields[0], fields[1..];
    var body := Blocks(f.typ.elem.fields, [], 0, false).value;
    var x := GotStruct(f, r, src, pos);
    StructValueIs(f, body, r, src, pos);
    var q, r' := if x.Ok? then x.pos else pos, if x.Ok? then r[f.name := x.value] else r;
    BlocksRun(rest, [], prev, b, src, q, r');
    assert [] + rest == rest;
    var more := Blocks(rest, [], 0, prev).value;
    bs := [StructBlock(f, body)] + more;
    StructRuns(f, body, more, src, pos, b, r);
    StructFirst(fields, src, pos, b, r);
  }

  /** What the generated code for a structure or an array of structures gives. */
  function StructValue(f: Field, body: seq<Block>, r: map<string, Value>, src: Source, pos: nat): Read<Value> {
    if f.typ.One? then
      var x := Exec(body, src, pos, IDLE, map[]);
      if x.Fail? then Fail else Ok(Inst(x.value), x.pos, x.full)
    else
      var n := CountIn(f.typ.count, r[f.name := List([])], src);
      if n.None? then Fail
      else
        var x := ExecMany(body, n.value, src, pos);
        if x.Fail? then Fail else Ok(List(x.value), x.pos, x.full)
  }

  lemma StructRuns(f: Field, body: seq<Block>, more: seq<Block>, src: Source, pos: nat, b: BitState,
      r: map<string, Value>)
    ensures var y := StructValue(f, body, r, src, pos);
            Exec([StructBlock(f, body)] + more, src, pos, b, r)
            == if y.Fail? then Fail else Noting(y.full, Exec(more, src, y.pos, b, r[f.name := y.value]))
  {
    assert ([StructBlock(f, body)] + more)[1..] == more;
  }

  lemma StructFirst(fields: seq<Field>, src: Source, pos: nat, b: BitState, r: map<string, Value>)
    requires fields != [] && fields[0].typ.elem.Struct?
    ensures var x := GotStruct(fields[0], r, src, pos);
            GotFields(fields, src, pos, b, r)
            == if x.Fail? then Fail else GotFields(fields[1..], src, x.pos, b, r[fields[0].name := x.value])
  {}

  lemma {:induction false} StructValueIs(f: Field, body: seq<Block>, r: map<string, Value>, src: Source, pos: nat)
    requires f.typ.elem.Struct? && Blocks(f.typ.elem.fields, [], 0, false) == Some(body)
    ensures Strict(StructValue(f, body, r, src, pos)) == GotStruct(f, r, src, pos)
    decreases f.typ.elem.fields, 5
  {
    hide Exec, ExecMany, GotFields, GotMany, Evaluated, Blocks;
    var sub := f.typ.elem.fields;
    if f.typ.One? {
      BodyRun(sub, body, src, pos);
    } else {
      var n := CountIn(f.typ.count, r[f.name := List([])], src);
      if n.Some? { ManyRun(sub, body, n.value, src, pos); }
    }
  }

  lemma {:induction false} ManyRun(sub: seq<Field>, body: seq<Block>, n: nat, src: Source, pos: nat)
    requires Blocks(sub, [], 0, false) == Some(body)
    ensures Strict(ExecMany(body, n, src, pos)) == GotMany(sub, n, src, pos)
    decreases sub, 4, n
  {
    hide Exec, GotFields, Blocks;
    if n > 0 {
      BodyRun(sub, body, src, pos);
      var x := Exec(body, src, pos, IDLE, map[]);
      if x.Ok? && x.full { ManyRun(sub, body, n - 1, src, x.pos); }
    }
  }

  lemma {:induction false} BodyRun(sub: seq<Field>, body: seq<Block>, src: Source, pos: nat)
    requires Blocks(sub, [], 0, false) == Some(body)
    ensures Strict(Exec(body, src, pos, IDLE, map[])) == GotFields(sub, src, pos, IDLE, map[])
    decreases sub, 3
  {
    hide Exec, GotFields, Blocks;
    BlocksRun(sub, [], false, IDLE, src, pos, map[]);
    assert [] + sub == sub;
  }

  lemma {:induction false} BitsHead(fields: seq<Field>, b: BitState, src: Source, pos: nat, r: map<string, Value>)
      returns (bs: seq<Block>)
    requires fields != [] && fields[0].bits > 0 && fields[0].typ.elem.Single?
    requires Blocks(fields[1..], [], 0, true).Some?
    ensures bs == [BitRead(fields[0].name, fields[0].typ.elem.scalar, fields[0].bits)]
        + Blocks(fields[1..], [], 0, true).value
    ensures Strict(Exec(bs, src, pos, b, r)) == GotFields(fields, src, pos, b, r)
    decreases fields, 1
  {
    hide Blocks, ReadBits, Exec, GotFields;
    var f, rest := fields[0], fields[1..];
    var x: Read<(int, BitState)> := Strict(ReadBits(b, f.typ.elem.scalar, f.bits, src, pos));
    if x.Ok? {
      BlocksRun(rest, [], true, x.value.1, src, x.pos, r[f.name := Int(x.value.0)]);
      assert [] + rest == rest;
    }
    var more := Blocks(rest, [], 0, true).value;
    bs := [BitRead(f.name, f.typ.elem.scalar, f.bits)] + more;
    BitsRun(f, more, src, pos, b, r);
    BitsFirst(fields, src, pos, b, r);
  }

  lemma BitsRun(f: Field, more: seq<Block>, src: Source, pos: nat, b: BitState, r: map<string, Value>)
    requires f.typ.elem.Single?
    ensures Strict(Exec([BitRead(f.name, f.typ.elem.scalar, f.bits)] + more, src, pos, b, r))
         == Strict(ThenBits(Strict(ReadBits(b, f.typ.elem.scalar, f.bits, src, pos)), f.name, more, src, r))
  {
    hide ReadBits;
    assert ([BitRead(f.name, f.typ.elem.scalar, f.bits)] + more)[1..] == more;
  }

  function ThenBits(x: Read<(int, BitState)>, name: string, more: seq<Block>, src: Source,
      r: map<string, Value>): Read<map<string, Value>> {
    if x.Fail? then Fail else Exec(more, src, x.pos, x.value.1, r[name := Int(x.value.0)])
  }

  lemma BitsFirst(fields: seq<Field>, src: Source, pos: nat, b: BitState, r: map<string, Value>)
    requires fields != [] && fields[0].bits > 0 && fields[0].typ.elem.Single?
    ensures var x: Read<(int, BitState)> :=
              Strict(ReadBits(b, fields[0].typ.elem.scalar, fields[0].bits, src, pos));
            GotFields(fields, src, pos, b, r)
            == if x.Fail? then Fail else GotFields(fields[1..], src, x.pos, x.value.1,
                r[fields[0].name := Int(x.value.0)])
  {
    hide ReadBits;
  }

  function DynamicBlock(f: Field): Block
    requires f.typ.elem.Single? && f.typ.Many?
  {
    if f.typ.count.Dynamic? then Counted(f.name, f.typ.elem.scalar, f.typ.count.expr)
        else UntilZero(f.name, f.typ.elem.scalar)
  }

  lemma {:induction false} DynamicHead(fields: seq<Field>, b: BitState, src: Source, pos: nat, r: map<string, Value>)
      returns (bs: seq<Block>)
    requires fields != [] && fields[0].bits == 0 && fields[0].typ.elem.Single? && !IsFixed(fields[0])
    requires Blocks(fields[1..], [], 0, false).Some?
    ensures bs == [DynamicBlock(fields[0])] + Blocks(fields[1..], [], 0, false).value
    ensures Strict(Exec(bs, src, pos, IDLE, r)) == GotFields(fields, src, pos, b, r)
    decreases fields, 1
  {
    hide Blocks, GotFields, GotScalars, Exec;
    var f, rest := fields[0], fields[1..];
    var x := GotScalars(f, r, src, pos);
    if x.Ok? {
      BlocksRun(rest, [], false, IDLE, src, x.pos, r[f.name := x.value]);
      assert [] + rest == rest;
    }
    var more := Blocks(rest, [], 0, false).value;
    bs := [DynamicBlock(f)] + more;
    DynamicRuns(f, more, src, pos, r);
    ScalarsFirst(fields, src, pos, b, r);
  }

  lemma ScalarsFirst(fields: seq<Field>, src: Source, pos: nat, b: BitState, r: map<string, Value>)
    requires fields != [] && fields[0].bits == 0 && fields[0].typ.elem.Single?
    ensures var x := GotScalars(fields[0], r, src, pos);
            GotFields(fields, src, pos, b, r)
            == if x.Fail? then Fail else GotFields(fields[1..], src, x.pos, IDLE, r[fields[0].name := x.value])
  {
    hide GotScalars;
  }

  lemma DynamicRuns(f: Field, more: seq<Block>, src: Source, pos: nat, r: map<string, Value>)
    requires f.typ.elem.Single? && f.bits == 0 && !IsFixed(f)
    ensures Strict(Exec([DynamicBlock(f)] + more, src, pos, IDLE, r))
         == Strict(Then(GotScalars(f, r, src, pos), f.name, more, src, r))
  {
    hide ReadType, ReadUntilZero, DynamicBlock;
    var s := f.typ.elem.scalar;
    if f.typ.count.Dynamic? {
      CountedRuns(f.name, s, f.typ.count.expr, more, src, pos, r);
      assert DynamicBlock(f) == Counted(f.name, s, f.typ.count.expr) by { DynamicIs(f); }
    } else {
      UntilZeroRuns(f.name, s, more, src, pos, r);
      assert DynamicBlock(f) == UntilZero(f.name, s) by { DynamicIs(f); }
    }
  }

  lemma DynamicIs(f: Field)
    requires f.typ.elem.Single? && f.typ.Many?
    ensures DynamicBlock(f) == if f.typ.count.Dynamic? then Counted(f.name, f.typ.elem.scalar, f.typ.count.expr)
        else UntilZero(f.name, f.typ.elem.scalar)
  {}

  lemma CountedRuns(name: string, s: Scalar, expr: string, more: seq<Block>, src: Source, pos: nat,
      r: map<string, Value>)
    ensures Strict(Exec([Counted(name, s, expr)] + more, src, pos, IDLE, r))
         == Strict(Then(Strict(ReadType(Many(Single(s), Dynamic(expr)), r, src, false, pos)), name, more, src, r))
  {
    hide ReadInts, Evaluated;
    assert ([Counted(name, s, expr)] + more)[1..] == more;
  }

  lemma UntilZeroRuns(name: string, s: Scalar, more: seq<Block>, src: Source, pos: nat, r: map<string, Value>)
    ensures Strict(Exec([UntilZero(name, s)] + more, src, pos, IDLE, r))
         == Strict(Then(if s.BytesInt? then Fail else Strict(ReadUntilZero(s, src, pos)), name, more, src, r))
  {
    hide ReadUntilZero, LoopUntilZero;
    assert ([UntilZero(name, s)] + more)[1..] == more;
    if s.BytesInt? { LoopNeverEnds(s, src, pos); } else { LoopReads(s, src, pos); }
  }

  function Then(x: Read<Value>, name: string, more: seq<Block>, src: Source,
      r: map<string, Value>): Read<map<string, Value>> {
    if x.Fail? then Fail else Exec(more, src, x.pos, IDLE, r[name := x.value])
  }

  // -------------------------------------------------- whole structures

  /** What the generated class gives for a structure, when no byte is missing. */
  function Compiled(fields: seq<Field>, src: Source, pos: nat): Read<Value> {
    var code := Blocks(fields, [], 0, false);
    if code.None? then Fail else Instance(Strict(Exec(code.value, src, pos, IDLE, map[])))
  }

  function Instance(x: Read<map<string, Value>>): Read<Value> {
    if x.Fail? then Fail else Ok(Inst(x.value), x.pos, x.full)
  }

  /** Nothing that compiling refuses: bit fields are no arrays. */
  predicate Compiles(fields: seq<Field>)
    decreases fields
  {
    fields == [] ||
    (&& (if fields[0].typ.elem.Struct? then Compiles(fields[0].typ.elem.fields)
         else fields[0].bits > 0 ==> fields[0].typ.One?)
     && Compiles(fields[1..]))
  }

  lemma {:induction false} CompilesExactly(fields: seq<Field>, cur: seq<Field>, size: nat, prev: bool)
    requires AllFixed(cur)
    ensures Blocks(fields, cur, size, prev).Some? <==> Compiles(fields)
    decreases fields
  {
    hide Flush;
    if fields != [] {
      var f, rest := fields[0], fields[1..];
      if f.typ.elem.Struct? {
        CompilesExactly(f.typ.elem.fields, [], 0, false);
        CompilesExactly(rest, [], 0, prev);
      } else if f.bits > 0 {
        CompilesExactly(rest, [], 0, true);
      } else if IsFixed(f) {
        CompilesExactly(rest, cur + [f], size + FixedSize(f), false);
      } else {
        CompilesExactly(rest, [], 0, false);
      }
    }
  }

  /** Every layout without arrays of bit fields compiles, and its generated class reads field by field;
      no other layout compiles. */
  lemma CompiledExactly(fields: seq<Field>, src: Source, pos: nat)
    ensures Blocks(fields, [], 0, false).Some? <==> Compiles(fields)
    ensures Compiled(fields, src, pos)
         == if Compiles(fields) then Instance(GotFields(fields, src, pos, IDLE, map[])) else Fail
  {
    hide Exec, Blocks, GotFields, Compiles;
    CompilesExactly(fields, [], 0, false);
    if Compiles(fields) { BodyRun(fields, Blocks(fields, [], 0, false).value, src, pos); }
  }
}
