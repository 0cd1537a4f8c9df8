/** One generated block against its fields: one read and one unpack give every field a value of its
    own bytes; and the generated loops of null-terminated arrays. */
module CompilerProofs {
  import opened Bits
  import opened Bytes
  import opened BytesInteger
  import opened Text
  import opened Layout
  import opened Offsets
  import opened Compiler

  // -------------------------------------------------- one block: the bytes of its fields

  /** What the interpreter makes of the bytes of a field of fixed size. */
  function FixedValue(f: Field, bs: seq<byte>, endian: Endian): Value
    requires IsFixed(f)
  {
    var s := f.typ.elem.scalar;
    var n := ScalarSize(s);
    if s.Char? then Raw(bs)
    else if f.typ.One? then Int(Decode(bs, n, ScalarSigned(s), endian))
    else List(Ints(ParseAll(bs, n, CountOf(f.typ), ScalarSigned(s), endian)))
  }

  /** What a generated class makes of them: an index into the buffer gives an int, and so does
      BytesInteger.parse with a count of one. */
  function GotValue(f: Field, bs: seq<byte>, endian: Endian): Value
    requires IsFixed(f) && |bs| == FixedSize(f)
  {
    var n := ScalarSize(f.typ.elem.scalar);
    match f.typ.elem.scalar
    case Char => if f.typ.One? then Int(bs[0]) else Raw(bs)
    case BytesInt(_, signed) =>
      if CountOf(f.typ) == 1 then Int(Decode(bs, n, signed, endian))
      else List(Ints(ParseAll(bs, n, CountOf(f.typ), signed, endian)))
    case Packed(c) =>
      if f.typ.One? then Int(Decode(bs, n, CharSigned(c), endian))
      else List(Ints(ParseAll(bs, n, CountOf(f.typ), CharSigned(c), endian)))
  }

  /** The scalars and arrays of scalars of which a generated class makes something else than the
      interpreter, or which it never reads to the end. */
  predicate Odd(t: Type) {
    match t
    case One(Single(s)) => s.Char?
    case Many(Single(s), count) => s.BytesInt? && (count == Static(1) || count.NullTerminated?)
    case _ => false
  }

  lemma GotExactly(f: Field, bs: seq<byte>, endian: Endian)
    requires IsFixed(f) && |bs| == FixedSize(f)
    ensures GotValue(f, bs, endian) == FixedValue(f, bs, endian) <==> !Odd(f.typ)
  {
    hide Decode, CharSize, CharSigned, ParseAll;
  }

  function GotValues(block: seq<Field>, buf: seq<byte>, endian: Endian, r: map<string, Value>): map<string, Value>
    requires AllFixed(block) && |buf| == BlockSize(block)
    decreases block
  {
    if block == [] then r
    else
      var f := block[0];
      var n := FixedSize(f);
      GotValues(block[1..], Drop(buf, n), endian, r[f.name := GotValue(f, Take(buf, n), endian)])
  }

  /** The numbers that unpacking gives for a field, and for all fields of a block. */
  function DataOf(f: Field, bs: seq<byte>, endian: Endian): seq<int>
    requires IsFixed(f)
  {
    UnpackItem(FormatItem(CharCount(f), CodeOf(f.typ.elem.scalar)), bs, endian)
  }

  function DataAll(block: seq<Field>, buf: seq<byte>, endian: Endian): seq<int>
    requires AllFixed(block)
    decreases block
  {
    if block == [] then []
    else
      var n := FixedSize(block[0]);
      DataOf(block[0], Take(buf, n), endian) + DataAll(block[1..], Drop(buf, n), endian)
  }

  // -------------------------------------------------- the run-length format

  lemma GroupOfPrefix(a: seq<byte>, b: seq<byte>, c: nat, size: nat)
    requires (c + 1) * size <= |a|
    ensures Group(a + b, c, size) == Group(a, c, size)
  {}

  lemma GroupOfSuffix(a: seq<byte>, b: seq<byte>, m: nat, c: nat, size: nat)
    requires |a| == size * m && |b| >= size * (c + 1)
    ensures Group(a + b, m + c, size) == Group(b, c, size)
  {
    assert (m + c) * size == m * size + c * size;
    assert (m + c + 1) * size == m * size + (c + 1) * size;
  }

  /** Unpacking two neighbouring runs of one code is unpacking them as one. */
  lemma MergeRuns(code: PackChar, m: nat, n: nat, a: seq<byte>, b: seq<byte>, endian: Endian)
    requires |a| == CharSize(code) * m && |b| == CharSize(code) * n
    ensures |a + b| == CharSize(code) * (m + n)
    ensures UnpackItem(FormatItem(m + n, code), a + b, endian)
         == UnpackItem(FormatItem(m, code), a, endian) + UnpackItem(FormatItem(n, code), b, endian)
  {
    Distribute(CharSize(code), m, n);
    if code != PadX {
      MergeGroups(CharSize(code), m, n, a, b, Decoder(CharSize(code), CharSigned(code), endian));
    }
  }

  lemma Distribute(s: nat, m: nat, n: nat)
    ensures s * (m + n) == s * m + s * n
  {}

  lemma MergeGroups(size: nat, m: nat, n: nat, a: seq<byte>, b: seq<byte>, decode: seq<byte> -> int)
    requires |a| == size * m && |b| == size * n
    ensures Groups(a + b, size, m + n, decode) == Groups(a, size, m, decode) + Groups(b, size, n, decode)
  {
    forall c | 0 <= c < m + n
      ensures Group(a + b, c, size) == if c < m then Group(a, c, size) else Group(b, c - m, size)
    {
      if c < m {
        Within(size, c + 1, m);
        GroupOfPrefix(a, b, c, size);
      } else {
        Within(size, c - m + 1, n);
        GroupOfSuffix(a, b, m, c - m, size);
      }
    }
  }

  lemma Within(size: nat, c: nat, m: nat)
    requires c <= m
    ensures c * size == size * c <= size * m
  {}

  lemma FormatCons(item: FormatItem, rest: seq<FormatItem>, a: seq<byte>, b: seq<byte>, endian: Endian)
    requires |a| == CharSize(item.code) * item.count
    ensures FormatSize([item] + rest) == |a| + FormatSize(rest)
    ensures Unpack([item] + rest, a + b, endian) == UnpackItem(item, a, endian) + Unpack(rest, b, endian)
  {
    assert ([item] + rest)[1..] == rest;
    assert Take(a + b, |a|) == a && Drop(a + b, |a|) == b;
  }

  /** The coalesced format unpacks a block to the numbers of its fields; `a` holds the bytes of
      the run being counted. */
  lemma {:induction false} FormatUnpacks(block: seq<Field>, code: PackChar, count: nat, a: seq<byte>, buf: seq<byte>,
      endian: Endian)
    requires AllFixed(block) && |buf| == BlockSize(block) && |a| == CharSize(code) * count
    ensures FormatSize(Formats(block, Some(code), count)) == |a| + |buf|
    ensures Unpack(Formats(block, Some(code), count), a + buf, endian)
         == UnpackItem(FormatItem(count, code), a, endian) + DataAll(block, buf, endian)
    decreases block
  {
    hide Unpack, FormatSize, UnpackItem, FixedSize, CharCount, CodeOf, CharSize, DataOf;
    if block == [] {
      assert buf == [] && a + buf == a;
      LastRun(code, count, a, endian);
      assert DataAll(block, buf, endian) == [];
    } else {
      var f, rest := block[0], block[1..];
      var c, n := CodeOf(f.typ.elem.scalar), CharCount(f);
      var b, more := SplitBuf(f, buf);
      CharsOfField(f);
      DataIsItem(f, b, endian);
      var d, ds := DataOf(f, b, endian), DataAll(rest, more, endian);
      assert DataAll(block, buf, endian) == d + ds;
      if c == code {
        MergeRuns(code, count, n, a, b, endian);
        FormatUnpacks(rest, c, count + n, a + b, more, endian);
        Associate(a, b, more);
        Associate(UnpackItem(FormatItem(count, code), a, endian), d, ds);
      } else {
        FormatUnpacks(rest, c, n, b, more, endian);
        FormatCons(FormatItem(count, code), Formats(rest, Some(c), n), a, b + more, endian);
      }
    }
  }

  lemma Associate<T>(a: seq<T>, b: seq<T>, c: seq<T>)
    ensures a + b + c == a + (b + c)
  {}

  lemma DataIsItem(f: Field, bs: seq<byte>, endian: Endian)
    requires IsFixed(f)
    ensures DataOf(f, bs, endian) == UnpackItem(FormatItem(CharCount(f), CodeOf(f.typ.elem.scalar)), bs, endian)
  {}

  lemma SplitBuf(f: Field, buf: seq<byte>) returns (b: seq<byte>, more: seq<byte>)
    requires IsFixed(f) && FixedSize(f) <= |buf|
    ensures buf == b + more && |b| == FixedSize(f)
    ensures Take(buf, FixedSize(f)) == b && Drop(buf, FixedSize(f)) == more
  {
    b, more := buf[..FixedSize(f)], buf[FixedSize(f)..];
  }

  lemma LastRun(code: PackChar, count: nat, a: seq<byte>, endian: Endian)
    requires |a| == CharSize(code) * count
    ensures FormatSize(Formats([], Some(code), count)) == |a|
    ensures Unpack(Formats([], Some(code), count), a, endian) == UnpackItem(FormatItem(count, code), a, endian)
  {
    var item := FormatItem(count, code);
    if count == 0 {
      assert a == [];
    } else {
      FormatCons(item, [], a, [], endian);
      assert [item] + [] == [item] && a + [] == a;
    }
  }

  lemma CharsOfField(f: Field)
    requires IsFixed(f)
    ensures CharSize(CodeOf(f.typ.elem.scalar)) * CharCount(f) == FixedSize(f)
  {}

  // -------------------------------------------------- the indices

  /** Indexing the whole buffer and the whole unpacked list finds the field's value. */
  lemma GetterFinds(f: Field, before: seq<byte>, bs: seq<byte>, after: seq<byte>,
      dBefore: seq<int>, dAfter: seq<int>, endian: Endian)
    requires IsFixed(f) && |bs| == FixedSize(f)
    ensures Get(GetterOf(f, |before|, |dBefore|), before + bs + after, dBefore + DataOf(f, bs, endian) + dAfter, endian)
         == Some(GotValue(f, bs, endian))
  {
    hide Decode, CharSize, CharSigned;
    var s := f.typ.elem.scalar;
    if s.Packed? {
      PackedFinds(f, before + bs + after, dBefore, bs, dAfter, endian);
    } else {
      BufFinds(f, before, bs, after, dBefore + DataOf(f, bs, endian) + dAfter, |dBefore|, endian);
    }
  }

  lemma PackedFinds(f: Field, buf: seq<byte>, dBefore: seq<int>, bs: seq<byte>, dAfter: seq<int>, endian: Endian)
    requires IsFixed(f) && f.typ.elem.scalar.Packed? && |bs| == FixedSize(f)
    ensures forall at: nat :: Get(GetterOf(f, at, |dBefore|), buf, dBefore + DataOf(f, bs, endian) + dAfter, endian)
                           == Some(GotValue(f, bs, endian))
  {
    hide Decode, CharSize, CharSigned;
    DataFinds(f, dBefore, DataOf(f, bs, endian), dAfter);
    if f.typ.One? { GroupAll(bs, ScalarSize(f.typ.elem.scalar)); }
  }

  lemma BufFinds(f: Field, before: seq<byte>, bs: seq<byte>, after: seq<byte>, data: seq<int>, dat: nat, endian: Endian)
    requires IsFixed(f) && !f.typ.elem.scalar.Packed? && |bs| == FixedSize(f)
    ensures Get(GetterOf(f, |before|, dat), before + bs + after, data, endian) == Some(GotValue(f, bs, endian))
  {
    hide Decode, CharSize, CharSigned, ParseAll, Ints;
    var buf := before + bs + after;
    assert buf[|before|..|before| + |bs|] == bs;
    match f.typ.elem.scalar {
      case Char => assert f.typ.One? ==> buf[|before|] == bs[0];
      case BytesInt(w, signed) => if CountOf(f.typ) == 1 { OneNumber(bs, w, signed, endian); }
      case Packed(_) =>
    }
  }

  lemma OneNumber(bs: seq<byte>, w: Size, signed: bool, endian: Endian)
    requires |bs| == w
    ensures ParseAll(bs, w, 1, signed, endian)[0] == Decode(bs, w, signed, endian)
  {
    hide Decode;
    GroupAll(bs, w);
  }

  lemma DataFinds(f: Field, before: seq<int>, d: seq<int>, after: seq<int>)
    requires IsFixed(f) && f.typ.elem.scalar.Packed? && |d| == CountOf(f.typ)
    ensures var data := before + d + after;
            && Slice(data, |before|, |before| + |d|) == d
            && (f.typ.One? ==> data[|before|] == d[0])
  {
    var data := before + d + after;
    assert data[|before|..|before| + |d|] == d;
  }

  lemma GroupAll(bs: seq<byte>, size: nat)
    requires |bs| == size
    ensures Group(bs, 0, size) == bs
  {
    assert bs[0..size] == bs;
  }

  lemma {:induction false} AssignsFind(block: seq<Field>, before: seq<byte>, buf: seq<byte>, dBefore: seq<int>,
      endian: Endian, r: map<string, Value>)
    requires AllFixed(block) && |buf| == BlockSize(block)
    ensures RunAssigns(Getters(block, |before|, |dBefore|), before + buf, dBefore + DataAll(block, buf, endian),
        endian, r)
         == Some(GotValues(block, buf, endian, r))
    decreases block
  {
    hide Get, GetterOf, UnpackItem, GotValue, DataOf, FixedSize, DataCount;
    if block != [] {
      var f, rest := block[0], block[1..];
      var b, more := SplitBuf(f, buf);
      var d, ds := DataOf(f, b, endian), DataAll(rest, more, endian);
      var v := GotValue(f, b, endian);
      GetterFinds(f, before, b, more, dBefore, ds, endian);
      DataLength(f, b, endian);
      AssignsFind(rest, before + b, more, dBefore + d, endian, r[f.name := v]);
      Associate(before, b, more);
      Associate(dBefore, d, ds);
      GettersCons(block, |before|, |dBefore|);
    }
  }

  lemma GettersCons(block: seq<Field>, buf: nat, dat: nat)
    requires AllFixed(block) && block != []
    ensures Getters(block, buf, dat) != []
    ensures Getters(block, buf, dat)[0] == Assign(block[0].name, GetterOf(block[0], buf, dat))
    ensures Getters(block, buf, dat)[1..] == Getters(block[1..], buf + FixedSize(block[0]), dat + DataCount(block[0]))
  {}

  lemma DataLength(f: Field, bs: seq<byte>, endian: Endian)
    requires IsFixed(f)
    ensures |DataOf(f, bs, endian)| == DataCount(f)
  {
    hide CharSize;
  }

  function ReadAll(block: seq<Field>, src: Source, pos: nat, r: map<string, Value>): Read<map<string, Value>>
    requires AllFixed(block)
  {
    var n := BlockSize(block);
    if Enough(src, pos, n) then Ok(GotValues(block, Chunk(src, pos, n), src.endian, r), pos + n, true) else Fail
  }

  /** A block reads its bytes and gives every field its value, or fails when a byte is missing. */
  lemma BlockReads(block: seq<Field>, src: Source, pos: nat, r: map<string, Value>)
    requires block != [] && AllFixed(block)
    ensures RunBlock(BlockOf(BlockSize(block), block), src, pos, r) == ReadAll(block, src, pos, r)
  {
    hide RunAssigns, Unpack, GotValues, Getters, DataAll, FormatSize;
    var n := BlockSize(block);
    if Enough(src, pos, n) {
      var buf := Chunk(src, pos, n);
      FormatFromNothing(block, buf, src.endian);
      AssignsFind(block, [], buf, [], src.endian, r);
      assert [] + buf == buf && [] + DataAll(block, buf, src.endian) == DataAll(block, buf, src.endian);
    }
  }

  lemma FormatFromNothing(block: seq<Field>, buf: seq<byte>, endian: Endian)
    requires block != [] && AllFixed(block) && |buf| == BlockSize(block)
    ensures FormatSize(Formats(block, None, 0)) == |buf|
    ensures Unpack(Formats(block, None, 0), buf, endian) == DataAll(block, buf, endian)
  {
    hide Unpack, FormatSize, DataAll;
    var c := CodeOf(block[0].typ.elem.scalar);
    assert Formats(block, None, 0) == Formats(block, Some(c), 0);
    FormatUnpacks(block, c, 0, [], buf, endian);
    NoItems(c, endian);
    assert [] + buf == buf && [] + DataAll(block, buf, endian) == DataAll(block, buf, endian);
  }

  lemma NoItems(code: PackChar, endian: Endian)
    ensures UnpackItem(FormatItem(0, code), [], endian) == []
  {}

  // -------------------------------------------------- null-terminated arrays

  lemma {:induction false} PackedLoop(c: IntCode, src: Source, pos: nat)
    requires Decoder(CharSize(c), CharSigned(c), src.endian)([]) == 0
    ensures LoopUntilZero(Packed(c), src, pos)
         == match ReadIntsUntilZero(CharSize(c), true, Decoder(CharSize(c), CharSigned(c), src.endian), src, pos)
            case Fail => Fail
            case Ok(ns, p, full) => Ok(Ints(ns), p, full)
    decreases |src.data| - pos
  {
    hide Decode, CharSize, CharSigned, Chunk, ParseAll, JoinRaw;
    var n := CharSize(c);
    if Enough(src, pos, n) {
      assert After(src, pos, n) == pos + n by { EnoughIsAfter(src, pos, n); }
      var v := Decode(Chunk(src, pos, n), n, CharSigned(c), src.endian);
      if v != 0 {
        PackedLoop(c, src, pos + n);
        match ReadIntsUntilZero(n, true, Decoder(n, CharSigned(c), src.endian), src, pos + n) {
          case Fail =>
          case Ok(ns, p, full) => assert Ints([v] + ns) == [Int(v)] + Ints(ns);
        }
      }
    }
  }

  lemma EnoughIsAfter(src: Source, pos: nat, n: nat)
    requires Enough(src, pos, n)
    ensures After(src, pos, n) == pos + n
  {}

  lemma {:induction false} CharLoop(src: Source, pos: nat)
    ensures RunUntilZero(Char, src, pos)
         == match ReadBytesUntilZero(src, pos) case Fail => Fail case Ok(bs, p, full) => Ok(Raw(bs), p, full)
    decreases |src.data| - pos
  {
    if pos < |src.data| {
      var d := Chunk(src, pos, 1);
      assert d == [src.data[pos]];
      if src.data[pos] != 0 {
        CharLoop(src, pos + 1);
        assert d != [0] by { assert d[0] != 0; }
        match LoopUntilZero(Char, src, pos + 1) {
          case Fail =>
          case Ok(vs, p, full) => assert ([Raw(d)] + vs)[1..] == vs;
        }
      }
    }
  }

  /** The generated loops of packed integers and characters read what the interpreter reads. */
  lemma LoopReads(s: Scalar, src: Source, pos: nat)
    requires !s.BytesInt?
    ensures RunUntilZero(s, src, pos) == ReadUntilZero(s, src, pos)
  {
    match s {
      case Packed(c) =>
        NothingIsZero(s, src.endian);
        PackedLoop(c, src, pos);
      case Char => CharLoop(src, pos);
      case BytesInt(_, _) =>
    }
  }

  /** That of arbitrary-width integers compares a list with zero: it goes on until a byte is missing. */
  lemma {:induction false} LoopNeverEnds(s: Scalar, src: Source, pos: nat)
    requires s.BytesInt?
    ensures LoopUntilZero(s, src, pos) == Fail
    decreases |src.data| - pos
  {
    hide ParseAll;
    if Enough(src, pos, ScalarSize(s)) { LoopNeverEnds(s, src, pos + ScalarSize(s)); }
  }
}
