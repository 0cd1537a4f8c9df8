/** A structure whose last run of bit fields is cut by its own plan: whether its readers agree depends
    on the bytes, so that no condition on layouts and lengths could be exact there. */
module CutRuns {
  import opened Bits
  import opened Bytes
  import opened Text
  import opened Layout
  import opened Offsets
  import opened Seeks
  import opened SeekLimits
  import opened StructureRoundTrip

  /** struct { uint8 a : 4; uint8 x; uint8 b : 4; uint8 c : 4; } takes three bytes; the offset of c is
      stated as 2, where the unit of b and c begins. */
  const C_ONLY: seq<Field> := [Field("c", Byte, 4)]
  const B_AND_C: seq<Field> := [Field("b", Byte, 4)] + C_ONLY
  const FROM_X_CUT: seq<Field> := [Field("x", Byte, 0)] + B_AND_C
  const CUT: seq<Field> := [Field("a", Byte, 4)] + FROM_X_CUT

  /** Two of them, and a byte. */
  const TWO_CUT: seq<Field> := [Field("n", Many(Struct(CUT), Static(2)), 0), Field("y", Byte, 0)]

  const UNIT: Option<Scalar> := Some(Packed(U8))

  lemma CutTails()
    ensures CUT[0] == Field("a", Byte, 4) && CUT[1..] == FROM_X_CUT
    ensures FROM_X_CUT[0] == Field("x", Byte, 0) && FROM_X_CUT[1..] == B_AND_C
    ensures B_AND_C[0] == Field("b", Byte, 4) && B_AND_C[1..] == C_ONLY
    ensures C_ONLY[0] == Field("c", Byte, 4) && C_ONLY[1..] == []
    ensures TWO_CUT[0] == Field("n", Many(Struct(CUT), Static(2)), 0) && TWO_CUT[1..] == [Field("y", Byte, 0)]
  {}

  lemma CutPlans()
    ensures TypeLen(Byte) == Some(1)
    ensures PlanNext(START, CUT[0], TypeLen(Byte)) == Plan(Some(1), UNIT, 4)
    ensures PlanNext(Plan(Some(1), UNIT, 4), FROM_X_CUT[0], TypeLen(Byte)) == Plan(Some(2), UNIT, 4)
    ensures PlanNext(Plan(Some(2), UNIT, 4), B_AND_C[0], TypeLen(Byte)) == Plan(Some(2), UNIT, 0)
    ensures PlanNext(Plan(Some(2), UNIT, 0), C_ONLY[0], TypeLen(Byte)) == Plan(Some(3), UNIT, 4)
    ensures PlanOffset(Plan(Some(2), UNIT, 0), C_ONLY[0]) == Some(2)
  {
    CutTails();
  }

  /** Its stated length is right. */
  lemma CutLength()
    ensures ElemLen(Struct(CUT)) == Some(3)
  {
    CutTails();
    CutPlans();
    assert CalcSize([], Plan(Some(3), UNIT, 4), 3) == Some(3);
    assert CalcSize(C_ONLY, Plan(Some(2), UNIT, 0), 2) == Some(3);
    assert CalcSize(B_AND_C, Plan(Some(2), UNIT, 4), 2) == Some(3);
    assert CalcSize(FROM_X_CUT, Plan(Some(1), UNIT, 4), 1) == Some(3);
  }

  lemma CutSupported()
    ensures SupportedElem(Struct(TWO_CUT))
  {
    hide SupportedFields;
    CutTails();
    assert forall f | f in B_AND_C :: f.name in {"b", "c"};
    SupportedLast();
    SupportedNibble("b", 4, C_ONLY, NoRun);
    SupportedNibble("x", 0, B_AND_C, Run(Packed(U8), 4));
    SupportedNibble("a", 4, FROM_X_CUT, NoRun);
    assert SupportedElem(Struct(CUT));
    SupportedTwo();
  }

  lemma SupportedLast()
    ensures SupportedFields(C_ONLY, Run(Packed(U8), 4))
  {
    CutTails();
  }

  lemma SupportedTwo()
    requires SupportedElem(Struct(CUT))
    ensures SupportedFields(TWO_CUT, NoRun)
  {
    hide SupportedElem;
    CutTails();
    assert SupportedType(Many(Struct(CUT), Static(2)));
    assert SupportedType(Byte) by { assert SupportedElem(Single(Packed(U8))) by { SupportedByte(); } }
    var y := [Field("y", Byte, 0)];
    assert y[1..] == [] && TWO_CUT[1..] == y && RunNext(NoRun, TWO_CUT[0]) == NoRun;
    assert SupportedFields(y, NoRun);
  }

  lemma SupportedByte()
    ensures SupportedElem(Single(Packed(U8)))
  {}

  function CutValue(a: byte, x: byte, b: byte): Value {
    Inst(map["a" := Int(a), "x" := Int(x), "b" := Int(b), "c" := Int(0)])
  }

  /** The reader that seeks goes back behind b, whose unit holds c. */
  lemma CutReads(src: Source, seeks: bool, q: nat)
    requires q + 3 <= |src.data| && src.endian == Little && src.data[q] < 16 && src.data[q + 2] < 16
    ensures ReadElem(Struct(CUT), src, seeks, q)
         == Ok(CutValue(src.data[q], src.data[q + 1], src.data[q + 2]), if seeks then q + 2 else q + 3, true)
  {
    hide ReadBits, ReadScalar, Decode;
    CutTails();
    CutPlans();
    var p1, p2, p3 := Plan(Some(1), UNIT, 4), Plan(Some(2), UNIT, 4), Plan(Some(2), UNIT, 0);
    var a, x, b := src.data[q], src.data[q + 1], src.data[q + 2];
    var r1 := map["a" := Int(a)];
    var r2 := r1["x" := Int(x)];
    var r3 := r2["b" := Int(b)];
    var r4 := r3["c" := Int(0)];
    var held, done := BitState(UNIT, 0, 4), BitState(UNIT, 0, 0);
    var end := if seeks then q + 2 else q + 3;
    ReadNibble(src, q);
    ReadByte(src, q + 1);
    ReadNibble(src, q + 2);
    HighNibble(src, end);
    assert ReadFields([], Plan(Some(3), UNIT, 4), q, src, seeks, end, done, r4) == Ok(r4, end, true);
    assert ReadFields(C_ONLY, p3, q, src, seeks, q + 3, held, r3) == Ok(r4, end, true);
    assert ReadFields(B_AND_C, p2, q, src, seeks, q + 2, IDLE, r2) == Ok(r4, end, true);
    assert ReadFields(FROM_X_CUT, p1, q, src, seeks, q + 1, BitState(UNIT, 0, 4), r1) == Ok(r4, end, true);
    assert map[]["a" := Int(a)] == r1;
    assert ReadFields(CUT, START, q, src, seeks, q, IDLE, map[]) == Ok(r4, end, true);
  }

  lemma TwoReads(src: Source, seeks: bool)
    requires |src.data| == 7 && src.endian == Little && forall k | 0 <= k < 7 :: src.data[k] < 16
    ensures var q := if seeks then 2 else 3;
            var n := List([CutValue(src.data[0], src.data[1], src.data[2]),
                           CutValue(src.data[q], src.data[q + 1], src.data[q + 2])]);
            ReadElem(Struct(TWO_CUT), src, seeks, 0) == Ok(Inst(map["n" := n, "y" := Int(src.data[6])]), 7, true)
  {
    hide ReadElem, ReadScalar, ElemLen;
    var q := if seeks then 2 else 3;
    CutTails();
    CutReads(src, seeks, 0);
    CutReads(src, seeks, q);
    CutLength();
    ReadByte(src, 6);
    var v, w := CutValue(src.data[0], src.data[1], src.data[2]),
        CutValue(src.data[q], src.data[q + 1], src.data[q + 2]);
    var e := Struct(CUT);
    assert ReadMany(e, 0, src, seeks, 2 * q) == Ok([], 2 * q, true);
    assert ReadMany(e, 1, src, seeks, q) == Ok([w] + [], 2 * q, true);
    assert ReadMany(e, 2, src, seeks, 0) == Ok([v] + ([w] + []), 2 * q, true);
    assert [v] + ([w] + []) == [v, w];
    TwoRead(src, seeks, 2 * q, List([v, w]));
  }

  lemma TwoRead(src: Source, seeks: bool, q: nat, n: Value)
    requires |src.data| == 7 && q == (if seeks then 4 else 6) && ElemLen(Struct(CUT)) == Some(3)
    requires ReadType(Many(Struct(CUT), Static(2)), map[], src, seeks, 0) == Ok(n, q, true)
    ensures ReadElem(Struct(TWO_CUT), src, seeks, 0) == Ok(Inst(map["n" := n, "y" := Int(src.data[6])]), 7, true)
  {
    hide ReadScalar, ElemLen;
    CutTails();
    ReadByte(src, 6);
    var y := [Field("y", Byte, 0)];
    var r1 := map["n" := n];
    var r2 := r1["y" := Int(src.data[6])];
    var p := Plan(Some(6), None, 0);
    assert PlanNext(START, TWO_CUT[0], TypeLen(TWO_CUT[0].typ)) == p;
    assert y[1..] == [];
    ReadByteType(src, seeks);
    assert ReadFields([], PlanNext(p, y[0], TypeLen(Byte)), 0, src, seeks, 7, IDLE, r2) == Ok(r2, 7, true);
    assert ReadFields(y, p, 0, src, seeks, q, IDLE, r1) == Ok(r2, 7, true);
    assert map[]["n" := n] == r1;
    assert ReadFields(TWO_CUT, START, 0, src, seeks, 0, IDLE, map[]) == Ok(r2, 7, true);
  }

  lemma ReadByteType(src: Source, seeks: bool)
    requires |src.data| == 7
    ensures forall r :: ReadType(Byte, r, src, seeks, 6) == Ok(Int(src.data[6]), 7, true)
  {
    hide ReadScalar;
    ReadByte(src, 6);
  }

  /** On seven zero bytes the two readers agree, although the one that seeks reads the second structure
      from the wrong place; on other bytes, for an instance of the same shape, they do not. */
  lemma DependsOnBytes(zeros: Source, other: Source)
    requires zeros.data == [0, 0, 0, 0, 0, 0, 0] && other.data == [0, 0, 0, 1, 0, 0, 0]
    requires zeros.endian == Little && other.endian == Little
    ensures SupportedElem(Struct(TWO_CUT)) && !Decided(Struct(TWO_CUT))
    ensures ReadElem(Struct(TWO_CUT), zeros, false, 0).Ok? && ReadElem(Struct(TWO_CUT), zeros, false, 0).full
    ensures ReadElem(Struct(TWO_CUT), zeros, true, 0) == ReadElem(Struct(TWO_CUT), zeros, false, 0)
    ensures ReadElem(Struct(TWO_CUT), other, false, 0).Ok? && ReadElem(Struct(TWO_CUT), other, false, 0).full
    ensures ReadElem(Struct(TWO_CUT), other, true, 0) != ReadElem(Struct(TWO_CUT), other, false, 0)
  {
    hide ReadElem, SupportedElem;
    CutSupported();
    CutIsSplit();
    TwoReads(zeros, true);
    TwoReads(zeros, false);
    TwoReads(other, true);
    TwoReads(other, false);
    OtherDiffers(ReadElem(Struct(TWO_CUT), other, true, 0).value, ReadElem(Struct(TWO_CUT), other, false, 0).value);
  }

  lemma OtherDiffers(v: Value, w: Value)
    requires v == Inst(map["n" := List([CutValue(0, 0, 0), CutValue(0, 1, 0)]), "y" := Int(0)])
    requires w == Inst(map["n" := List([CutValue(0, 0, 0), CutValue(1, 0, 0)]), "y" := Int(0)])
    ensures v != w
  {
    assert v.values["n"].vs[1].values["a"] == Int(0) && w.values["n"].vs[1].values["a"] == Int(1);
  }

  lemma CutIsSplit()
    ensures !Decided(Struct(TWO_CUT))
  {
    CutTails();
    CutPlans();
    var p1, p2, p3 := Plan(Some(1), UNIT, 4), Plan(Some(2), UNIT, 4), Plan(Some(2), UNIT, 0);
    assert AllBits([]);
    assert !UnsplitFields(C_ONLY, p3, Run(Packed(U8), 4));
    assert !UnsplitFields(B_AND_C, p2, NoRun);
    assert !UnsplitFields(FROM_X_CUT, p1, Run(Packed(U8), 4));
    assert !UnsplitFields(CUT, START, NoRun);
    assert !UnsplitElem(Struct(CUT));
  }
}
