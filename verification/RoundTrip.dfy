/** Reading what was written gives back the instance and takes exactly the bytes written. */
module RoundTrip {
  import opened Bits
  import opened Bytes
  import opened BytesInteger
  import opened Text
  import opened Layout
  import opened Offsets
  import opened BitFields

  /** The stream holds these bytes at this position. */
  predicate Holds(src: Source, pos: nat, bs: seq<byte>) {
    pos + |bs| <= |src.data| && src.data[pos..pos + |bs|] == bs
  }

  lemma HoldsBoth(src: Source, pos: nat, a: seq<byte>, b: seq<byte>)
    requires Holds(src, pos, a + b)
    ensures Holds(src, pos, a) && Holds(src, pos + |a|, b)
  {
    var c := src.data[pos..pos + |a + b|];
    assert c[..|a|] == a && c[|a|..] == b;
    assert c[..|a|] == src.data[pos..pos + |a|];
    assert c[|a|..] == src.data[pos + |a|..pos + |a + b|];
  }

  // -------------------------------------------------- consistent instances

  predicate FitsScalar(s: Scalar, v: Value) {
    if s.Char? then v.Raw? && |v.bs| == 1
    else v.Int? && InRange(v.i, ScalarSize(s), ScalarSigned(s))
  }

  predicate AllFit(s: Scalar, vs: seq<Value>) { forall k | 0 <= k < |vs| :: FitsScalar(s, vs[k]) }

  predicate FitsScalars(s: Scalar, n: nat, v: Value) {
    if s.Char? then v.Raw? && |v.bs| == n
    else v.List? && |v.vs| == n && AllFit(s, v.vs)
  }

  predicate FitsUntilZero(s: Scalar, v: Value) {
    if s.Char? then v.Raw? && forall k | 0 <= k < |v.bs| :: v.bs[k] != 0
    else v.List? && AllFit(s, v.vs) && forall k | 0 <= k < |v.vs| :: v.vs[k] != Int(0)
  }

  /** An instance of a structure: a value for every field and no other, array lengths as their
      count expressions say, and null-terminated arrays without a zero. */
  predicate FitsElem(e: Elem, v: Value, src: Source)
    decreases e, 0
  {
    match e
    case Single(s) => FitsScalar(s, v)
    case Struct(fields) => v.Inst? && v.values.Keys == Names(fields) && FitsFields(fields, v.values, map[], src)
  }

  predicate FitsCounted(e: Elem, n: nat, v: Value, src: Source)
    decreases e, 1
  {
    match e
    case Single(s) => FitsScalars(s, n, v)
    case Struct(_) => v.List? && |v.vs| == n && forall k | 0 <= k < n :: FitsElem(e, v.vs[k], src)
  }

  predicate FitsType(t: Type, v: Value, r: map<string, Value>, src: Source)
    decreases t
  {
    match t
    case One(e) => FitsElem(e, v, src)
    case Many(e, Static(n)) => FitsCounted(e, n, v, src)
    case Many(e, Dynamic(expr)) => Evaluated(expr, r, src).Some?
        && FitsCounted(e, Evaluated(expr, r, src).value, v, src)
    case Many(Single(s), NullTerminated) => FitsUntilZero(s, v)
    case Many(Struct(_), NullTerminated) => false
  }

  predicate FitsFields(fields: seq<Field>, values: map<string, Value>, r: map<string, Value>, src: Source)
    decreases fields
  {
    fields == [] ||
    var f, rest := fields[0], fields[1..];
    && f.name in values
    && (if f.bits > 0 then values[f.name].Int? && 0 <= values[f.name].i < Pow2(f.bits)
        else FitsType(f.typ, values[f.name], r, src))
    && FitsFields(rest, values, r[f.name := values[f.name]], src)
  }

  function Names(fields: seq<Field>): set<string> {
    if fields == [] then {} else {fields[0].name} + Names(fields[1..])
  }

  // -------------------------------------------------- scalars

  lemma ScalarRoundTrip(s: Scalar, v: Value, src: Source, pos: nat)
    requires FitsScalar(s, v)
    ensures WriteScalar(s, v, src.endian).Some?
    ensures Holds(src, pos, WriteScalar(s, v, src.endian).value) ==>
              ReadScalar(s, src, pos) == Ok(v, pos + |WriteScalar(s, v, src.endian).value|, true)
  {
    hide Encode, Decode, InRange;
    if !s.Char? {
      DecodeEncode(v.i, ScalarSize(s), ScalarSigned(s), src.endian);
    }
  }

  function IntsOf(vs: seq<Value>): (ns: seq<int>)
    requires forall k | 0 <= k < |vs| :: vs[k].Int?
    ensures |ns| == |vs|
  {
    seq(|vs|, k requires 0 <= k < |vs| => vs[k].i)
  }

  lemma {:induction false} WrittenInts(s: Scalar, vs: seq<Value>, endian: Endian)
    requires !s.Char? && AllFit(s, vs)
    ensures WriteInts(s, vs, endian) == Some(PackAll(IntsOf(vs), ScalarSize(s), endian))
  {
    if vs != [] {
      assert FitsScalar(s, vs[0]);
      WrittenInts(s, vs[1..], endian);
      assert IntsOf(vs)[1..] == IntsOf(vs[1..]);
    }
  }

  lemma ScalarsRoundTrip(s: Scalar, n: nat, v: Value, src: Source, pos: nat)
    requires FitsScalars(s, n, v)
    ensures WriteScalars(s, v, src.endian).Some?
    ensures Holds(src, pos, WriteScalars(s, v, src.endian).value) ==>
              ReadScalars(s, n, src, pos) == Ok(v, pos + |WriteScalars(s, v, src.endian).value|, true)
  {
    if !s.Char? {
      WrittenInts(s, v.vs, src.endian);
      InRangeAll(s, v.vs);
      IntsRoundTrip(s, IntsOf(v.vs), src, pos);
      assert Ints(IntsOf(v.vs)) == v.vs;
    }
  }

  lemma IntsRoundTrip(s: Scalar, ns: seq<int>, src: Source, pos: nat)
    requires !s.Char? && AllInRange(ns, ScalarSize(s), ScalarSigned(s))
    ensures var out := PackAll(ns, ScalarSize(s), src.endian);
            Holds(src, pos, out) ==> ReadScalars(s, |ns|, src, pos) == Ok(List(Ints(ns)), pos + |out|, true)
  {
    hide AllInRange, PackAll, ParseAll, ScalarSize, ScalarSigned;
    var size := ScalarSize(s);
    var out := PackAll(ns, size, src.endian);
    PackedLength(ns, size, src.endian);
    RoundTrip(ns, size, ScalarSigned(s), src.endian, []);
    assert out + [] == out;
    if Holds(src, pos, out) { assert Chunk(src, pos, size * |ns|) == out; }
  }

  lemma InRangeAll(s: Scalar, vs: seq<Value>)
    requires !s.Char? && AllFit(s, vs)
    ensures AllInRange(IntsOf(vs), ScalarSize(s), ScalarSigned(s))
  {
    forall k | 0 <= k < |vs| ensures InRange(IntsOf(vs)[k], ScalarSize(s), ScalarSigned(s)) {
      assert FitsScalar(s, vs[k]);
    }
  }

  lemma {:induction false} BytesUntilZero(bs: seq<byte>, src: Source, pos: nat)
    requires forall k | 0 <= k < |bs| :: bs[k] != 0
    requires Holds(src, pos, bs + [0])
    ensures ReadBytesUntilZero(src, pos) == Ok(bs, pos + |bs| + 1, true)
    decreases bs
  {
    assert src.data[pos] == (bs + [0])[0];
    if bs != [] {
      assert bs + [0] == [bs[0]] + (bs[1..] + [0]);
      HoldsBoth(src, pos, [bs[0]], bs[1..] + [0]);
      BytesUntilZero(bs[1..], src, pos + 1);
      assert [bs[0]] + bs[1..] == bs;
    }
  }

  ghost predicate DecodesAll(decode: seq<byte> -> int, ns: seq<int>, size: nat, endian: Endian) {
    forall k | 0 <= k < |ns| :: decode(Encode(ns[k], size, endian)) == ns[k]
  }

  lemma {:induction false} PackedUntilZero(ns: seq<int>, size: nat, strict: bool, decode: seq<byte> -> int,
      src: Source, pos: nat)
    requires size > 0 && decode([]) == 0 && decode(Encode(0, size, src.endian)) == 0
    requires DecodesAll(decode, ns, size, src.endian) && forall k | 0 <= k < |ns| :: ns[k] != 0
    requires Holds(src, pos, PackAll(ns + [0], size, src.endian))
    ensures ReadIntsUntilZero(size, strict, decode, src, pos)
         == Ok(ns, pos + |PackAll(ns + [0], size, src.endian)|, true)
    decreases ns
  {
    hide Encode, PackAll;
    if ns == [] {
      PackedZero(size, src.endian);
      assert Chunk(src, pos, size) == Encode(0, size, src.endian);
    } else {
      var first, tail := Encode(ns[0], size, src.endian), PackAll(ns[1..] + [0], size, src.endian);
      PackedCons(ns, size, src.endian);
      HoldsBoth(src, pos, first, tail);
      assert Chunk(src, pos, size) == first;
      PackedUntilZero(ns[1..], size, strict, decode, src, pos + size);
      assert [ns[0]] + ns[1..] == ns;
    }
  }

  lemma PackedZero(size: nat, endian: Endian)
    ensures PackAll([] + [0], size, endian) == Encode(0, size, endian)
  {
    assert [] + [0] == [0];
    assert Encode(0, size, endian) + [] == Encode(0, size, endian);
  }

  lemma PackedCons(ns: seq<int>, size: nat, endian: Endian)
    requires ns != []
    ensures PackAll(ns + [0], size, endian) == Encode(ns[0], size, endian) + PackAll(ns[1..] + [0], size, endian)
  {
    assert (ns + [0])[1..] == ns[1..] + [0];
  }

  lemma ZeroFits(s: Scalar)
    ensures !s.Char? ==> FitsScalar(s, Int(0))
  {}

  lemma AllDecode(s: Scalar, vs: seq<Value>, endian: Endian)
    requires !s.Char? && AllFit(s, vs)
    ensures DecodesAll(Decoder(ScalarSize(s), ScalarSigned(s), endian), IntsOf(vs), ScalarSize(s), endian)
  {
    forall k | 0 <= k < |vs|
      ensures Decode(Encode(vs[k].i, ScalarSize(s), endian), ScalarSize(s), ScalarSigned(s), endian) == vs[k].i
    {
      assert FitsScalar(s, vs[k]);
      DecodeEncode(vs[k].i, ScalarSize(s), ScalarSigned(s), endian);
    }
  }

  /** The list with its terminator, as integers in range. */
  lemma Terminated(s: Scalar, vs: seq<Value>, endian: Endian)
    requires !s.Char? && AllFit(s, vs)
    ensures Ints(IntsOf(vs)) == vs
    ensures WriteInts(s, vs + [Int(0)], endian) == Some(PackAll(IntsOf(vs) + [0], ScalarSize(s), endian))
    ensures Decoder(ScalarSize(s), ScalarSigned(s), endian)(Encode(0, ScalarSize(s), endian)) == 0
  {
    hide Encode, Decode, PackAll, WriteInts;
    var all := vs + [Int(0)];
    ZeroFits(s);
    assert AllFit(s, all) by { assert forall k | 0 <= k < |vs| :: FitsScalar(s, vs[k]); }
    WrittenInts(s, all, endian);
    assert IntsOf(all) == IntsOf(vs) + [0];
    assert forall k | 0 <= k < |vs| :: FitsScalar(s, vs[k]);
    DecodeEncode(0, ScalarSize(s), ScalarSigned(s), endian);
  }

  lemma UntilZeroRoundTrip(s: Scalar, v: Value, src: Source, pos: nat)
    requires FitsUntilZero(s, v)
    ensures WriteUntilZero(s, v, src.endian).Some?
    ensures Holds(src, pos, WriteUntilZero(s, v, src.endian).value) ==>
              ReadUntilZero(s, src, pos) == Ok(v, pos + |WriteUntilZero(s, v, src.endian).value|, true)
  {
    hide Encode, Decode, PackAll;
    if s.Char? {
      if Holds(src, pos, v.bs + [0]) { BytesUntilZero(v.bs, src, pos); }
    } else {
      var ns := IntsOf(v.vs);
      Terminated(s, v.vs, src.endian);
      AllDecode(s, v.vs, src.endian);
      NothingIsZero(s, src.endian);
      assert forall k | 0 <= k < |ns| :: v.vs[k] == Int(ns[k]);
      if Holds(src, pos, PackAll(ns + [0], ScalarSize(s), src.endian)) {
        PackedUntilZero(ns, ScalarSize(s), s.Packed?, Decoder(ScalarSize(s), ScalarSigned(s), src.endian), src, pos);
      }
    }
  }
}
