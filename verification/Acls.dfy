/** The layouts of security descriptors and how class SecurityDescriptor puts them together. */
module Acls {
  import opened Bits
  import opened ByteOrder
  import opened Bytes
  import opened BytesInteger
  import opened Text
  import Ex = Expression
  import ExpressionProofs
  import opened Layout
  import opened RoundTrip
  import opened CompilerTheorem
  import opened GeneratedReader
  import opened PlainLayouts
  import opened Controls

  const Byte := One(Single(Packed(U8)))
  const Short := One(Single(Packed(U16)))
  const Word := One(Single(Packed(U32)))

  function F(name: string, typ: Type): Field { Field(name, typ, 0) }

  function Chars(count: Count): Type { Many(Single(Char), count) }

  const HEADER := [F("Revision", Byte), F("Sbz1", Byte), F("Control", Short), F("OffsetOwner", Word),
                   F("OffsetGroup", Word), F("OffsetSacl", Word), F("OffsetDacl", Word)]

  const AUTHORITY := [F("Value", Chars(Static(6)))]

  const SID := [F("Revision", Byte), F("SubAuthorityCount", Byte), F("IdentifierAuthority", One(Struct(AUTHORITY))),
                F("SubAuthority", Many(Single(Packed(U32)), Dynamic("SubAuthorityCount")))]

  const ACL := [F("AclRevision", Byte), F("Sbz1", Byte), F("AclSize", Short), F("AceCount", Short), F("Sbz2", Short),
                F("Data", Chars(Dynamic("AclSize - 8")))]

  const ACE := [F("AceType", Byte), F("AceFlags", Byte), F("AceSize", Short), F("Data", Chars(Dynamic("AceSize - 4")))]

  const BASIC_ACE := [F("Mask", Word), F("Sid", One(Struct(SID)))]

  const OBJECT_ACE := [F("Mask", Word), F("Flags", Word), F("ObjectType", Chars(Dynamic("Flags & 1 * 16"))),
                       F("InheritedObjectType", Chars(Dynamic("Flags & 2 * 8"))), F("Sid", One(Struct(SID)))]

  // -------------------------------------------------- the layouts are plain

  predicate Different(fields: seq<Field>) { forall i, j | 0 <= i < j < |fields| :: fields[i].name != fields[j].name }

  lemma {:induction false} PlainWhen(fields: seq<Field>)
    requires Different(fields) && forall k | 0 <= k < |fields| :: fields[k].bits == 0 && PlainType(fields[k].typ)
    ensures PlainLayout(fields)
    decreases |fields|
  {
    hide PlainType;
    if fields != [] {
      assert forall k | 0 <= k < |fields[1..]| :: fields[1..][k] == fields[k + 1];
      PlainWhen(fields[1..]);
    }
  }

  lemma SidIsPlain()
    ensures PlainLayout(AUTHORITY) && PlainLayout(SID)
  {
    hide PlainLayout;
    PlainWhen(AUTHORITY);
    PlainWhen(SID);
  }

  lemma LayoutsArePlain()
    ensures PlainLayout(HEADER) && PlainLayout(ACL) && PlainLayout(ACE) && PlainLayout(BASIC_ACE)
        && PlainLayout(OBJECT_ACE)
  {
    hide PlainLayout;
    SidIsPlain();
    PlainWhen(HEADER);
    PlainWhen(ACL);
    PlainWhen(ACE);
    PlainWhen(BASIC_ACE);
    PlainWhen(OBJECT_ACE);
  }

  // -------------------------------------------------- array lengths

  /** Names that are no numbers. */
  ghost predicate Lettered(r: map<string, Value>) { forall s | s in r :: s != "" && !IsDigit(s[0]) }

  lemma NameAdded(r: map<string, Value>, name: string, v: Value)
    requires Lettered(r) && name != "" && !IsDigit(name[0])
    ensures Lettered(r[name := v])
  {}

  function Environment(r: map<string, Value>): Ex.Env { Ex.Env(ContextOf(r), map[]) }

  lemma LetteredIsPlain(r: map<string, Value>)
    requires Lettered(r)
    ensures Ex.PlainNames(Environment(r))
  {
    var env := Environment(r);
    assert env.context.Keys == r.Keys;
    forall s | IsNumeral(s) ensures s !in env.context && s !in env.consts {
      assert s[0] in s;
    }
  }

  /** Words of letters, and numerals, are clean operands. */
  predicate Wordy(s: string) { s != "" && forall c | c in s :: IsDigit(c) || 'A' <= c <= 'Z' || 'a' <= c <= 'z' }

  lemma WordyIsClean(s: string)
    requires Wordy(s)
    ensures Ex.Clean(s)
  {
    assert s[0] in s && s[|s| - 1] in s;
    assert LStrip(s) == s && RStrip(s) == s;
  }

  lemma OperandValue(name: string, r: map<string, Value>)
    requires Wordy(name) && Lettered(r)
    ensures name in r && r[name].Int? ==> Ex.Lookup(name, Environment(r)) == Some(r[name].i)
    ensures IsNumeral(name) && !("0x" <= name) ==> Ex.Lookup(name, Environment(r)) == Some(NumeralValue(name))
  {
    if IsNumeral(name) { assert name[0] in name; }
  }

  lemma CountIs(name: string, r: map<string, Value>, src: Source)
    requires Wordy(name) && Lettered(r) && src.consts == map[] && name in r && r[name].Int? && r[name].i >= 0
    ensures Evaluated(name, r, src) == Some(r[name].i)
  {
    hide Ex.EvaluateFrom, Ex.Clean, Ex.Lookup, Ex.PlainNames;
    var t := Ex.Leaf("", name, "");
    assert Ex.Render(t) == name by { assert "" + name + "" == name; }
    WordyIsClean(name);
    LetteredIsPlain(r);
    OperandValue(name, r);
    ExpressionProofs.EvaluatesTree(t, Environment(r));
  }

  lemma DifferenceIs(name: string, num: string, r: map<string, Value>, src: Source)
    requires Wordy(name) && Wordy(num) && IsNumeral(num) && !("0x" <= num)
    requires Lettered(r) && src.consts == map[] && name in r && r[name].Int? && r[name].i >= NumeralValue(num)
    ensures Evaluated(name + " - " + num, r, src) == Some(r[name].i - NumeralValue(num))
  {
    hide Ex.EvaluateFrom, Ex.Clean, Ex.Lookup, Ex.PlainNames, NumeralValue;
    var t := Ex.Node(Ex.Minus, Ex.Leaf("", name, " "), Ex.Leaf(" ", num, ""));
    assert Ex.Render(t) == name + " - " + num;
    WordyIsClean(name);
    WordyIsClean(num);
    LetteredIsPlain(r);
    OperandValue(name, r);
    OperandValue(num, r);
    ExpressionProofs.EvaluatesTree(t, Environment(r));
  }

  /** "name & mask * factor" is (name & mask) * factor. */
  lemma MaskedIs(name: string, mask: string, factor: string, r: map<string, Value>, src: Source)
    requires Wordy(name) && Wordy(mask) && IsNumeral(mask) && !("0x" <= mask) && Wordy(factor) && IsNumeral(factor)
        && !("0x" <= factor)
    requires Lettered(r) && src.consts == map[] && name in r && r[name].Int?
    requires And(r[name].i, NumeralValue(mask)) * NumeralValue(factor) >= 0
    ensures Evaluated(name + " & " + mask + " * " + factor, r, src)
        == Some(And(r[name].i, NumeralValue(mask)) * NumeralValue(factor))
  {
    hide Ex.EvaluateFrom, Ex.Clean, Ex.Lookup, Ex.PlainNames, NumeralValue, And;
    var both := Ex.Node(Ex.BitAnd, Ex.Leaf("", name, " "), Ex.Leaf(" ", mask, " "));
    var last := Ex.Leaf(" ", factor, "");
    var t := Ex.Node(Ex.Times, both, last);
    assert "" + name + " " == name + " ";
    assert Ex.Render(both) == name + " " + "&" + (" " + mask + " ");
    assert " " + factor + "" == " " + factor;
    assert Ex.Render(t) == name + " " + "&" + (" " + mask + " ") + "*" + (" " + factor);
    assert Ex.Render(t) == name + " & " + mask + " * " + factor;
    WordyIsClean(name);
    WordyIsClean(mask);
    WordyIsClean(factor);
    LetteredIsPlain(r);
    OperandValue(name, r);
    OperandValue(mask, r);
    OperandValue(factor, r);
    var env := Environment(r);
    assert Ex.TopOps(both) == {Ex.BitAnd};
    assert Ex.TopOps(last) == {};
    assert Ex.Value(both, env) == Some(And(r[name].i, NumeralValue(mask)));
    assert Ex.Value(t, env) == Some(And(r[name].i, NumeralValue(mask)) * NumeralValue(factor));
    ExpressionProofs.EvaluatesTree(t, env);
  }

  /** A GUID is there when its flag is set, and has sixteen bytes. */
  lemma GuidSizes(flags: nat)
    ensures And(flags, 1) * 16 == if BitSet(flags, 0) then 16 else 0
    ensures And(flags, 2) * 8 == if BitSet(flags, 1) then 16 else 0
  {
    AndMask(flags, 1);
    AndMask(flags / 2, 1);
    AndStep(flags, 2);
  }

  // -------------------------------------------------- security identifiers

  /** A security identifier, as in section 2.4.2 of MS-DTYP. */
  datatype Sid = Sid(revision: byte, authority: seq<byte>, subs: seq<nat>)

  predicate GoodSid(sid: Sid) {
    |sid.authority| == 6 && |sid.subs| < 256 && forall k | 0 <= k < |sid.subs| :: sid.subs[k] < Pow2(32)
  }

  function SidValues(sid: Sid): (vs: seq<Value>)
    ensures |vs| == 4
  {
    [Int(sid.revision), Int(|sid.subs|), InstOf(AUTHORITY, [Raw(sid.authority)]), List(Ints(sid.subs))]
  }

  function SidInstance(sid: Sid): Value { InstOf(SID, SidValues(sid)) }

  /** Little-endian numbers of one, two and four bytes, and what encoding gives. */
  function Le1(n: int): (bs: seq<byte>)
    ensures bs == Encode(n, 1, Little)
  {
    EncodedBytes(n);
    [n % 256]
  }

  function Le2(n: int): (bs: seq<byte>)
    ensures bs == Encode(n, 2, Little)
  {
    EncodedBytes(n);
    [n % 256, n / 256 % 256]
  }

  function Le4(n: int): (bs: seq<byte>)
    ensures bs == Encode(n, 4, Little)
  {
    EncodedBytes(n);
    [n % 256, n / 256 % 256, n / 65536 % 256, n / 16777216 % 256]
  }

  lemma EncodedBytes(n: int)
    ensures Encode(n, 1, Little) == [n % 256]
    ensures Encode(n, 2, Little) == [n % 256, n / 256 % 256]
    ensures Encode(n, 4, Little) == [n % 256, n / 256 % 256, n / 65536 % 256, n / 16777216 % 256]
  {
    hide Encode, Weight;
    FirstWeights();
    forall size: nat, k: nat | k < size ensures Encode(n, size, Little)[k] == n / Weight(k) % 256 {
      EncodeAt(n, size, Little, k);
    }
  }

  lemma FirstWeights()
    ensures Weight(0) == 1 && Weight(1) == 256 && Weight(2) == 65536 && Weight(3) == 16777216
  {}

  function Words(ns: seq<int>): (bs: seq<byte>)
    ensures bs == PackAll(ns, 4, Little)
  {
    if ns == [] then [] else Le4(ns[0]) + Words(ns[1..])
  }

  /** Revision, count, authority, then the sub-authorities in little-endian order. */
  function SidBytes(sid: Sid): seq<byte> {
    Le1(sid.revision) + (Le1(|sid.subs|) + (sid.authority + Words(sid.subs)))
  }

  // -------------------------------------------------- fields one by one

  /** The fields still to come fit and are written as these bytes. */
  predicate Written(fields: seq<Field>, vals: seq<Value>, r: map<string, Value>, src: Source, out: seq<byte>) {
    && |fields| == |vals| && src.endian == Little && src.consts == map[]
    && FitsAll(fields, vals, r, src) && WrittenAll(fields, vals, Little) == Some(out)
  }

  lemma WrittenEnd(fields: seq<Field>, vals: seq<Value>, r: map<string, Value>, src: Source)
    requires |fields| == |vals| && src.endian == Little && src.consts == map[]
    ensures Written(fields[|fields|..], vals[|fields|..], r, src, [])
  {}

  lemma WrittenStep(fields: seq<Field>, vals: seq<Value>, k: nat, r: map<string, Value>, src: Source, a: seq<byte>,
      b: seq<byte>)
    requires k < |fields| == |vals|
    requires FitsType(fields[k].typ, vals[k], r, src) && WriteType(fields[k].typ, vals[k], Little) == Some(a)
    requires Written(fields[k + 1..], vals[k + 1..], r[fields[k].name := vals[k]], src, b)
    ensures Written(fields[k..], vals[k..], r, src, a + b)
  {
    hide FitsType, WriteType;
    assert fields[k..][1..] == fields[k + 1..] && vals[k..][1..] == vals[k + 1..];
    assert fields[k..][0] == fields[k] && vals[k..][0] == vals[k];
  }

  /** The two ways of writing a number of one, two or four bytes. */
  lemma NumberWritten(code: IntCode, n: nat, r: map<string, Value>, src: Source)
    requires code in {U8, U16, U32} && n < Pow2(8 * CharSize(code))
    ensures FitsType(One(Single(Packed(code))), Int(n), r, src)
    ensures WriteType(One(Single(Packed(code))), Int(n), Little) == Some(Encode(n, CharSize(code), Little))
  {
    InRangeNat(n, CharSize(code));
    hide Encode, Pow2, InRange;
  }

  lemma InRangeNat(n: nat, size: Size)
    requires n < Pow2(8 * size)
    ensures InRange(n, size, false)
  {}

  lemma CharsWritten(count: Count, bs: seq<byte>, r: map<string, Value>, src: Source)
    requires count.Static? ==> count.n == |bs|
    requires count.Dynamic? ==> Evaluated(count.expr, r, src) == Some(|bs|)
    requires !count.NullTerminated?
    ensures FitsType(Chars(count), Raw(bs), r, src) && WriteType(Chars(count), Raw(bs), Little) == Some(bs)
  {
    hide Evaluated;
  }

  lemma StructWritten(fields: seq<Field>, vals: seq<Value>, r: map<string, Value>, src: Source, out: seq<byte>)
    requires PlainLayout(fields) && Written(fields, vals, map[], src, out)
    ensures FitsType(One(Struct(fields)), InstOf(fields, vals), r, src)
    ensures WriteType(One(Struct(fields)), InstOf(fields, vals), Little) == Some(out)
    ensures FitsElem(Struct(fields), InstOf(fields, vals), src)
        && WriteElem(Struct(fields), InstOf(fields, vals), Little) == Some(out)
  {
    hide FitsElem, WriteElem, FitsAll, WrittenAll, PlainLayout;
    InstanceOf(fields, vals, src);
  }

  lemma WordsWritten(count: Count, ns: seq<nat>, r: map<string, Value>, src: Source)
    requires count.Dynamic? && Evaluated(count.expr, r, src) == Some(|ns|)
        && forall k | 0 <= k < |ns| :: ns[k] < Pow2(32)
    ensures FitsType(Many(Single(Packed(U32)), count), List(Ints(ns)), r, src)
    ensures WriteType(Many(Single(Packed(U32)), count), List(Ints(ns)), Little) == Some(PackAll(ns, 4, Little))
  {
    hide Evaluated, Encode, Pow2;
    var vs := Ints(ns);
    forall k | 0 <= k < |vs| ensures FitsScalar(Packed(U32), vs[k]) { WordFits(ns[k]); }
    WrittenInts(Packed(U32), vs, Little);
    assert IntsOf(vs) == ns;
  }

  lemma WordFits(n: nat)
    requires n < Pow2(32)
    ensures FitsScalar(Packed(U32), Int(n))
  {
    InRangeNat(n, 4);
    hide Pow2, InRange;
  }

  lemma SidWritten(sid: Sid, src: Source)
    requires GoodSid(sid) && src.endian == Little && src.consts == map[]
    ensures Written(SID, SidValues(sid), map[], src, SidBytes(sid))
  {
    hide FitsAll, WrittenAll, FitsType, WriteType, Encode, PackAll, Evaluated, Pow2, PlainLayout, Written, InstOf;
    var vs := SidValues(sid);
    var r1: map<string, Value> := map["Revision" := vs[0]];
    var tail := sid.authority + PackAll(sid.subs, 4, Little);
    SidTail(sid, r1["SubAuthorityCount" := vs[1]], src);
    ByteFits(|sid.subs|);
    NumberWritten(U8, |sid.subs|, r1, src);
    WrittenStep(SID, vs, 1, r1, src, Le1(|sid.subs|), tail);
    ByteFits(sid.revision);
    NumberWritten(U8, sid.revision, map[], src);
    assert map[]["Revision" := vs[0]] == r1;
    WrittenStep(SID, vs, 0, map[], src, Le1(sid.revision), Le1(|sid.subs|) + tail);
    assert SID[0..] == SID && vs[0..] == vs;
  }

  lemma SidTail(sid: Sid, r: map<string, Value>, src: Source)
    requires GoodSid(sid) && src.endian == Little && src.consts == map[] && Lettered(r)
    requires "SubAuthorityCount" in r && r["SubAuthorityCount"] == Int(|sid.subs|)
    ensures Written(SID[2..], SidValues(sid)[2..], r, src, sid.authority + PackAll(sid.subs, 4, Little))
  {
    hide FitsAll, WrittenAll, FitsType, WriteType, Encode, PackAll, Evaluated, Pow2, PlainLayout, Written, InstOf;
    hide Wordy, Lettered;
    var vs := SidValues(sid);
    NameAdded(r, "IdentifierAuthority", vs[2]);
    CountWord();
    var r3 := r["IdentifierAuthority" := vs[2]];
    var subs := PackAll(sid.subs, 4, Little);
    WrittenEnd(SID, vs, r3["SubAuthority" := vs[3]], src);
    CountIs("SubAuthorityCount", r3, src);
    WordsWritten(Dynamic("SubAuthorityCount"), sid.subs, r3, src);
    WrittenStep(SID, vs, 3, r3, src, subs, []);
    assert subs + [] == subs;
    AuthorityWritten(sid.authority, r, src);
    WrittenStep(SID, vs, 2, r, src, sid.authority, subs);
  }

  lemma CountWord()
    ensures Wordy("SubAuthorityCount")
  {}

  lemma SizeWord()
    ensures Wordy("AclSize") && Wordy("8") && IsNumeral("8")
  {}

  lemma ByteFits(n: nat)
    requires n < 256
    ensures n < Pow2(8)
  {
    assert Pow2(8) == 16 * Pow2(4);
  }

  lemma AuthorityWritten(bs: seq<byte>, r: map<string, Value>, src: Source)
    requires |bs| == 6 && src.endian == Little && src.consts == map[]
    ensures FitsType(One(Struct(AUTHORITY)), InstOf(AUTHORITY, [Raw(bs)]), r, src)
    ensures WriteType(One(Struct(AUTHORITY)), InstOf(AUTHORITY, [Raw(bs)]), Little) == Some(bs)
  {
    hide FitsAll, WrittenAll, FitsType, WriteType, PlainLayout, Written, InstOf;
    SidIsPlain();
    CharsWritten(Static(6), bs, map[], src);
    WrittenEnd(AUTHORITY, [Raw(bs)], map["Value" := Raw(bs)], src);
    WrittenStep(AUTHORITY, [Raw(bs)], 0, map[], src, bs, []);
    assert AUTHORITY[0..] == AUTHORITY && [Raw(bs)][0..] == [Raw(bs)] && bs + [] == bs;
    StructWritten(AUTHORITY, [Raw(bs)], r, src, bs);
  }

  /** A number field in front of the others. */
  lemma NumberStep(fields: seq<Field>, vals: seq<Value>, k: nat, code: IntCode, n: nat, r: map<string, Value>,
      src: Source, b: seq<byte>)
    requires k < |fields| == |vals| && fields[k].typ == One(Single(Packed(code))) && vals[k] == Int(n)
    requires code in {U8, U16, U32} && n < Pow2(8 * CharSize(code))
    requires Written(fields[k + 1..], vals[k + 1..], r[fields[k].name := Int(n)], src, b)
    ensures Written(fields[k..], vals[k..], r, src, Encode(n, CharSize(code), Little) + b)
  {
    hide FitsType, WriteType, Written, Encode, Pow2;
    NumberWritten(code, n, r, src);
    WrittenStep(fields, vals, k, r, src, Encode(n, CharSize(code), Little), b);
  }

  /** A security identifier at the end. */
  lemma SidLast(fields: seq<Field>, vals: seq<Value>, k: nat, sid: Sid, r: map<string, Value>, src: Source)
    requires k + 1 == |fields| == |vals| && fields[k].typ == One(Struct(SID)) && vals[k] == SidInstance(sid)
    requires GoodSid(sid) && src.endian == Little && src.consts == map[]
    ensures Written(fields[k..], vals[k..], r, src, SidBytes(sid))
  {
    hide FitsType, WriteType, Written, SidValues, SidBytes, InstOf, PlainLayout;
    SidIsPlain();
    SidWritten(sid, src);
    StructWritten(SID, SidValues(sid), r, src, SidBytes(sid));
    WrittenEnd(fields, vals, r[fields[k].name := vals[k]], src);
    WrittenStep(fields, vals, k, r, src, SidBytes(sid), []);
    assert SidBytes(sid) + [] == SidBytes(sid);
  }

  lemma TheWhole(fields: seq<Field>, vals: seq<Value>, src: Source, out: seq<byte>)
    requires Written(fields[0..], vals[0..], map[], src, out)
    ensures Written(fields, vals, map[], src, out)
  {
    assert fields[0..] == fields && vals[0..] == vals;
  }

  // -------------------------------------------------- access control entries

  /** An entry, as in section 2.4.4 of MS-DTYP: the types 0 and 1, the types 5 and 6 with the GUIDs
      that their flags say, and other types, whose data stays as it is. */
  datatype Ace =
    | Basic(typ: byte, flags: byte, mask: nat, sid: Sid)
    | Object(typ: byte, flags: byte, mask: nat, present: nat, objectType: seq<byte>, inheritedType: seq<byte>, sid: Sid)
    | Unknown(typ: byte, flags: byte, data: seq<byte>)

  predicate GoodAce(a: Ace) {
    && 4 + |BodyBytes(a)| < 65536
    && match a
       case Basic(typ, _, mask, sid) => typ in {0, 1} && mask < Pow2(32) && GoodSid(sid)
       case Object(typ, _, mask, present, objectType, inheritedType, sid) =>
         && typ in {5, 6} && mask < Pow2(32) && present < Pow2(32) && GoodSid(sid)
         && |objectType| == (if BitSet(present, 0) then 16 else 0)
         && |inheritedType| == (if BitSet(present, 1) then 16 else 0)
       case Unknown(typ, _, _) => typ !in {0, 1, 5, 6}
  }

  function BodyLayout(typ: int): Option<seq<Field>> {
    if typ == 0 || typ == 1 then Some(BASIC_ACE) else if typ == 5 || typ == 6 then Some(OBJECT_ACE) else None
  }

  function BodyBytes(a: Ace): seq<byte> {
    match a
    case Basic(_, _, mask, sid) => Le4(mask) + SidBytes(sid)
    case Object(_, _, mask, present, objectType, inheritedType, sid) =>
      Le4(mask) + (Le4(present) + (objectType + (inheritedType + SidBytes(sid))))
    case Unknown(_, _, data) => data
  }

  lemma BasicWritten(mask: nat, sid: Sid, src: Source)
    requires mask < Pow2(32) && GoodSid(sid) && src.endian == Little && src.consts == map[]
    ensures Written(BASIC_ACE, [Int(mask), SidInstance(sid)], map[], src, Le4(mask) + SidBytes(sid))
  {
    hide FitsType, WriteType, Written, SidInstance, SidBytes, Encode, Pow2;
    var vs := [Int(mask), SidInstance(sid)];
    SidLast(BASIC_ACE, vs, 1, sid, map["Mask" := vs[0]], src);
    NumberStep(BASIC_ACE, vs, 0, U32, mask, map[], src, SidBytes(sid));
    TheWhole(BASIC_ACE, vs, src, Le4(mask) + SidBytes(sid));
  }

  function ObjectValues(mask: nat, present: nat, objectType: seq<byte>, inheritedType: seq<byte>,
      sid: Sid): seq<Value> {
    [Int(mask), Int(present), Raw(objectType), Raw(inheritedType), SidInstance(sid)]
  }

  lemma ObjectWritten(mask: nat, present: nat, objectType: seq<byte>, inheritedType: seq<byte>, sid: Sid, src: Source)
    requires mask < Pow2(32) && present < Pow2(32) && GoodSid(sid) && src.endian == Little && src.consts == map[]
    requires |objectType| == (if BitSet(present, 0) then 16 else 0)
        && |inheritedType| == (if BitSet(present, 1) then 16 else 0)
    ensures Written(OBJECT_ACE, ObjectValues(mask, present, objectType, inheritedType, sid), map[], src,
                    Le4(mask) + (Le4(present) + (objectType + (inheritedType + SidBytes(sid)))))
  {
    hide FitsType, WriteType, Written, SidInstance, SidBytes, Encode, Pow2, BitSet;
    var vs := ObjectValues(mask, present, objectType, inheritedType, sid);
    var r1: map<string, Value> := map["Mask" := vs[0]];
    var tail := objectType + (inheritedType + SidBytes(sid));
    GuidsWritten(vs, present, objectType, inheritedType, sid, r1["Flags" := vs[1]], src);
    NumberStep(OBJECT_ACE, vs, 1, U32, present, r1, src, tail);
    NumberStep(OBJECT_ACE, vs, 0, U32, mask, map[], src, Le4(present) + tail);
    TheWhole(OBJECT_ACE, vs, src, Le4(mask) + (Le4(present) + tail));
  }

  lemma GuidsWritten(vs: seq<Value>, present: nat, objectType: seq<byte>, inheritedType: seq<byte>, sid: Sid,
      r: map<string, Value>, src: Source)
    requires |vs| == 5 && vs[2] == Raw(objectType) && vs[3] == Raw(inheritedType) && vs[4] == SidInstance(sid)
    requires GoodSid(sid) && src.endian == Little && src.consts == map[] && Lettered(r) && "Flags" in r
        && r["Flags"] == Int(present)
    requires |objectType| == (if BitSet(present, 0) then 16 else 0)
        && |inheritedType| == (if BitSet(present, 1) then 16 else 0)
    ensures Written(OBJECT_ACE[2..], vs[2..], r, src, objectType + (inheritedType + SidBytes(sid)))
  {
    hide FitsType, WriteType, Written, SidInstance, SidBytes, Encode, BitSet, Evaluated, And;
    var r3 := r["ObjectType" := vs[2]];
    SidLast(OBJECT_ACE, vs, 4, sid, r3["InheritedObjectType" := vs[3]], src);
    FlagsLength(present, r, src);
    FlagsLength(present, r3, src);
    CharsWritten(Dynamic("Flags & 2 * 8"), inheritedType, r3, src);
    WrittenStep(OBJECT_ACE, vs, 3, r3, src, inheritedType, SidBytes(sid));
    CharsWritten(Dynamic("Flags & 1 * 16"), objectType, r, src);
    WrittenStep(OBJECT_ACE, vs, 2, r, src, objectType, inheritedType + SidBytes(sid));
  }

  /** The lengths of the two GUIDs, from the flags read before. */
  lemma FlagsLength(present: nat, r: map<string, Value>, src: Source)
    requires src.consts == map[] && Lettered(r) && "Flags" in r && r["Flags"] == Int(present)
    ensures Evaluated("Flags & 1 * 16", r, src) == Some(if BitSet(present, 0) then 16 else 0)
    ensures Evaluated("Flags & 2 * 8", r, src) == Some(if BitSet(present, 1) then 16 else 0)
  {
    hide BitSet, Evaluated, And;
    GuidSizes(present);
    Numerals();
    MaskedIs("Flags", "1", "16", r, src);
    MaskedIs("Flags", "2", "8", r, src);
    assert "Flags" + " & " + "1" + " * " + "16" == "Flags & 1 * 16";
    assert "Flags" + " & " + "2" + " * " + "8" == "Flags & 2 * 8";
  }

  lemma Numerals()
    ensures NumeralValue("1") == 1 && NumeralValue("2") == 2 && NumeralValue("4") == 4 && NumeralValue("8") == 8
        && NumeralValue("16") == 16
  {
    assert "1"[..0] == "" && "2"[..0] == "" && "4"[..0] == "" && "8"[..0] == "" && "16"[..1] == "1";
  }

  function AceValues(a: Ace): (vs: seq<Value>)
    ensures |vs| == 4
  {
    [Int(a.typ), Int(a.flags), Int(4 + |BodyBytes(a)|), Raw(BodyBytes(a))]
  }

  function AceInstance(a: Ace): Value { InstOf(ACE, AceValues(a)) }

  function AceBytes(a: Ace): seq<byte> {
    Le1(a.typ) + (Le1(a.flags) + (Le2(4 + |BodyBytes(a)|) + BodyBytes(a)))
  }

  lemma AceWritten(typ: byte, flags: byte, body: seq<byte>, src: Source)
    requires 4 + |body| < 65536 && src.endian == Little && src.consts == map[]
    ensures Written(ACE, [Int(typ), Int(flags), Int(4 + |body|), Raw(body)], map[], src,
                    Le1(typ) + (Le1(flags) + (Le2(4 + |body|) + body)))
  {
    hide FitsType, WriteType, Written, Encode, Pow2, Evaluated;
    var vs := [Int(typ), Int(flags), Int(4 + |body|), Raw(body)];
    var r1: map<string, Value> := map["AceType" := vs[0]];
    AceTail(vs, body, r1["AceFlags" := vs[1]], src);
    ByteFits(typ);
    ByteFits(flags);
    var tail := Le2(4 + |body|) + body;
    NumberStep(ACE, vs, 1, U8, flags, r1, src, tail);
    NumberStep(ACE, vs, 0, U8, typ, map[], src, Le1(flags) + tail);
    TheWhole(ACE, vs, src, Le1(typ) + (Le1(flags) + tail));
  }

  lemma AceTail(vs: seq<Value>, body: seq<byte>, r: map<string, Value>, src: Source)
    requires |vs| == 4 && vs[2] == Int(4 + |body|) && vs[3] == Raw(body) && Lettered(r)
    requires 4 + |body| < 65536 && src.endian == Little && src.consts == map[]
    ensures Written(ACE[2..], vs[2..], r, src, Le2(4 + |body|) + body)
  {
    hide FitsType, WriteType, Written, Encode, Pow2, Evaluated;
    var r3 := r["AceSize" := vs[2]];
    WrittenEnd(ACE, vs, r3["Data" := vs[3]], src);
    Numerals();
    DifferenceIs("AceSize", "4", r3, src);
    assert "AceSize" + " - " + "4" == "AceSize - 4";
    CharsWritten(Dynamic("AceSize - 4"), body, r3, src);
    WrittenStep(ACE, vs, 3, r3, src, body, []);
    assert body + [] == body;
    ShortFits(4 + |body|);
    NumberStep(ACE, vs, 2, U16, 4 + |body|, r, src, body);
  }

  lemma ShortFits(n: nat)
    requires n < 65536
    ensures n < Pow2(16)
  {
    Pow2Add(8, 8);
    assert Pow2(8) == 16 * Pow2(4);
  }

  // -------------------------------------------------- access control lists

  /** An access control list, as in section 2.4.5 of MS-DTYP; unused bytes can follow its entries. */
  datatype Acl = Acl(revision: byte, sbz1: byte, sbz2: nat, aces: seq<Ace>, unused: seq<byte>)

  function AllAceBytes(aces: seq<Ace>): seq<byte> {
    if aces == [] then [] else AceBytes(aces[0]) + AllAceBytes(aces[1..])
  }

  function AclData(acl: Acl): seq<byte> { AllAceBytes(acl.aces) + acl.unused }

  predicate GoodAcl(acl: Acl) {
    && 8 + |AclData(acl)| < 65536 && |acl.aces| < 65536 && acl.sbz2 < 65536
    && forall k | 0 <= k < |acl.aces| :: GoodAce(acl.aces[k])
  }

  function AclValues(acl: Acl): (vs: seq<Value>)
    ensures |vs| == 6
  {
    var data := AclData(acl);
    [Int(acl.revision), Int(acl.sbz1), Int(8 + |data|), Int(|acl.aces|), Int(acl.sbz2), Raw(data)]
  }

  function AclInstance(acl: Acl): Value { InstOf(ACL, AclValues(acl)) }

  function AclBytes(acl: Acl): seq<byte> {
    var data := AclData(acl);
    Le1(acl.revision) + (Le1(acl.sbz1) + (Le2(8 + |data|) + (Le2(|acl.aces|) + (Le2(acl.sbz2) + data))))
  }

  lemma AclWritten(acl: Acl, src: Source)
    requires GoodAcl(acl) && src.endian == Little && src.consts == map[]
    ensures Written(ACL, AclValues(acl), map[], src, AclBytes(acl))
  {
    hide FitsType, WriteType, Written, Encode, Pow2, AclData;
    var vs, data := AclValues(acl), AclData(acl);
    var r1: map<string, Value> := map["AclRevision" := vs[0]];
    var r2 := r1["Sbz1" := vs[1]];
    AclTail(vs, data, |acl.aces|, acl.sbz2, r2, src);
    ByteFits(acl.revision);
    ByteFits(acl.sbz1);
    var tail := Le2(8 + |data|) + (Le2(|acl.aces|) + (Le2(acl.sbz2) + data));
    NumberStep(ACL, vs, 1, U8, acl.sbz1, r1, src, tail);
    NumberStep(ACL, vs, 0, U8, acl.revision, map[], src, Le1(acl.sbz1) + tail);
    TheWhole(ACL, vs, src, AclBytes(acl));
  }

  lemma AclTail(vs: seq<Value>, data: seq<byte>, count: nat, sbz2: nat, r: map<string, Value>, src: Source)
    requires |vs| == 6 && vs[2] == Int(8 + |data|) && vs[3] == Int(count) && vs[4] == Int(sbz2) && vs[5] == Raw(data)
    requires 8 + |data| < 65536 && count < 65536 && sbz2 < 65536 && src.endian == Little && src.consts == map[]
        && Lettered(r)
    ensures Written(ACL[2..], vs[2..], r, src, Le2(8 + |data|) + (Le2(count) + (Le2(sbz2) + data)))
  {
    hide FitsType, WriteType, Written, Encode, Pow2, Evaluated, Wordy, Lettered, IsNumeral, NumeralValue;
    var r3 := r["AclSize" := vs[2]];
    var r4 := r3["AceCount" := vs[3]];
    var r5 := r4["Sbz2" := vs[4]];
    NameAdded(r, "AclSize", vs[2]);
    NameAdded(r3, "AceCount", vs[3]);
    NameAdded(r4, "Sbz2", vs[4]);
    SizeWord();
    WrittenEnd(ACL, vs, r5["Data" := vs[5]], src);
    Numerals();
    DifferenceIs("AclSize", "8", r5, src);
    assert "AclSize" + " - " + "8" == "AclSize - 8";
    CharsWritten(Dynamic("AclSize - 8"), data, r5, src);
    WrittenStep(ACL, vs, 5, r5, src, data, []);
    assert data + [] == data;
    ShortFits(8 + |data|);
    ShortFits(count);
    ShortFits(sbz2);
    NumberStep(ACL, vs, 4, U16, sbz2, r4, src, data);
    NumberStep(ACL, vs, 3, U16, count, r3, src, Le2(sbz2) + data);
    NumberStep(ACL, vs, 2, U16, 8 + |data|, r, src, Le2(count) + (Le2(sbz2) + data));
  }

  // -------------------------------------------------- reading

  function NumberIn(v: Value, name: string): int {
    if v.Inst? && name in v.values && v.values[name].Int? then v.values[name].i else 0
  }

  function BytesIn(v: Value, name: string): seq<byte> {
    if v.Inst? && name in v.values && v.values[name].Raw? then v.values[name].bs else []
  }

  /** An ACE object: its fields, and those of its data if the type is known. */
  datatype ParsedAce = ParsedAce(ace: Value, data: Option<Value>)

  datatype ParsedAcl = ParsedAcl(acl: Value, aces: seq<ParsedAce>)

  function Buffer(data: seq<byte>): Source { Source(data, Little, map[]) }

  /** The constructor of ACE, and where it leaves the stream; None for an exception. */
  function ParseAce(src: Source, pos: nat): Option<(ParsedAce, nat)> {
    match Compiled(ACE, src, pos)
    case Fail => None
    case Ok(ace, p, _) =>
      match BodyLayout(NumberIn(ace, "AceType"))
      case None => Some((ParsedAce(ace, None), p))
      case Some(layout) =>
        match Compiled(layout, Buffer(BytesIn(ace, "Data")), 0)
        case Fail => None
        case Ok(data, _, _) => Some((ParsedAce(ace, Some(data)), p))
  }

  function ParseAces(src: Source, pos: nat, count: nat): Option<seq<ParsedAce>>
    decreases count
  {
    if count == 0 then Some([])
    else
      match ParseAce(src, pos)
      case None => None
      case Some((ace, p)) =>
        var more := ParseAces(src, p, count - 1);
        if more.None? then None else Some([ace] + more.value)
  }

  /** As many entries as were asked for, or an exception. */
  lemma {:induction false} AllAces(src: Source, pos: nat, count: nat)
    ensures ParseAces(src, pos, count).Some? ==> |ParseAces(src, pos, count).value| == count
    decreases count
  {
    hide ParseAce;
    if count > 0 && ParseAce(src, pos).Some? { AllAces(src, ParseAce(src, pos).value.1, count - 1); }
  }

  /** The loop in the constructor of ACL. */
  method AppendAces(src: Source, count: nat) returns (aces: Option<seq<ParsedAce>>)
    ensures aces == ParseAces(src, 0, count)
  {
    hide ParseAce;
    var found: seq<ParsedAce> := [];
    var pos: nat := 0;
    OptionBehind([], ParseAces(src, 0, count));
    for i := 0 to count
      invariant AcesBehind(found, ParseAces(src, pos, count - i)) == ParseAces(src, 0, count)
    {
      var ace := ParseAce(src, pos);
      if ace.None? {
        return None;
      }
      AcesTwice(found, ace.value.0, ParseAces(src, ace.value.1, count - i - 1));
      found, pos := found + [ace.value.0], ace.value.1;
    }
    assert found + [] == found;
    aces := Some(found);
  }

  function AcesBehind(a: seq<ParsedAce>, b: Option<seq<ParsedAce>>): Option<seq<ParsedAce>> {
    if b.None? then None else Some(a + b.value)
  }

  lemma OptionBehind(a: seq<ParsedAce>, b: Option<seq<ParsedAce>>)
    ensures a == [] ==> AcesBehind(a, b) == b
  {
    if b.Some? { assert [] + b.value == b.value; }
  }

  lemma AcesTwice(a: seq<ParsedAce>, x: ParsedAce, b: Option<seq<ParsedAce>>)
    ensures AcesBehind(a, AcesBehind([x], b)) == AcesBehind(a + [x], b)
  {
    if b.Some? { assert a + ([x] + b.value) == a + [x] + b.value; }
  }

  function ParseAcl(src: Source, pos: nat): Option<ParsedAcl> {
    match Compiled(ACL, src, pos)
    case Fail => None
    case Ok(acl, _, _) =>
      var count := NumberIn(acl, "AceCount");
      var aces := ParseAces(Buffer(BytesIn(acl, "Data")), 0, if count < 0 then 0 else count);
      if aces.None? then None else Some(ParsedAcl(acl, aces.value))
  }

  /** Of any data: a list that is read has as many entries as its header states. */
  lemma AclHasAll(src: Source, pos: nat)
    requires ParseAcl(src, pos).Some?
    ensures var p := ParseAcl(src, pos).value;
            |p.aces| == if NumberIn(p.acl, "AceCount") < 0 then 0 else NumberIn(p.acl, "AceCount")
  {
    hide Compiled, ParseAces, NumberIn, BytesIn;
    var acl := Compiled(ACL, src, pos).value;
    var count := NumberIn(acl, "AceCount");
    AllAces(Buffer(BytesIn(acl, "Data")), 0, if count < 0 then 0 else count);
  }

  // -------------------------------------------------- reading back

  lemma ReadBack(fields: seq<Field>, vals: seq<Value>, src: Source, pos: nat, out: seq<byte>)
    requires |fields| == |vals| && PlainLayout(fields) && Written(fields, vals, map[], src, out) && Holds(src, pos, out)
    ensures Compiled(fields, src, pos) == Ok(InstOf(fields, vals), pos + |out|, true)
  {
    hide PlainLayout, FitsElem, WriteElem, Compiled, InstOf, FitsType, WriteType;
    StructWritten(fields, vals, map[], src, out);
    ReadsInstance(fields, InstOf(fields, vals), src, pos, out);
  }

  lemma FieldOf(fields: seq<Field>, vals: seq<Value>, k: nat)
    requires |fields| == |vals| && PlainLayout(fields) && k < |fields|
    ensures var v := InstOf(fields, vals);
            && (vals[k].Int? ==> NumberIn(v, fields[k].name) == vals[k].i)
            && (vals[k].Raw? ==> BytesIn(v, fields[k].name) == vals[k].bs)
  {
    hide PlainLayout;
    AssignedHas(fields, vals, map[]);
  }

  predicate HoldsAt(src: Source, pos: nat, bs: seq<byte>) { src.endian == Little && src.consts == map[] && Holds(src,
      pos, bs) }

  lemma SidReads(sid: Sid, src: Source, pos: nat)
    requires GoodSid(sid) && HoldsAt(src, pos, SidBytes(sid))
    ensures Compiled(SID, src, pos) == Ok(SidInstance(sid), pos + |SidBytes(sid)|, true)
  {
    hide SidBytes, SidValues, Written, Compiled, PlainLayout, InstOf;
    SidIsPlain();
    SidWritten(sid, src);
    ReadBack(SID, SidValues(sid), src, pos, SidBytes(sid));
  }

  function ExpectedAce(a: Ace): ParsedAce {
    match a
    case Basic(_, _, mask, sid) => ParsedAce(AceInstance(a), Some(InstOf(BASIC_ACE, [Int(mask), SidInstance(sid)])))
    case Object(_, _, mask, present, objectType, inheritedType, sid) =>
      ParsedAce(AceInstance(a), Some(InstOf(OBJECT_ACE, ObjectValues(mask, present, objectType, inheritedType, sid))))
    case Unknown(_, _, _) => ParsedAce(AceInstance(a), None)
  }

  lemma BodyReads(a: Ace)
    requires GoodAce(a) && !a.Unknown?
    ensures BodyLayout(a.typ).Some? && ExpectedAce(a).data.Some?
    ensures var x := Compiled(BodyLayout(a.typ).value, Buffer(BodyBytes(a)), 0);
        x.Ok? && x.value == ExpectedAce(a).data.value
  {
    hide SidBytes, SidInstance, Written, Compiled, PlainLayout, InstOf, Encode, Pow2, BitSet;
    var src := Buffer(BodyBytes(a));
    assert src.data[0..|src.data|] == src.data;
    LayoutsArePlain();
    match a {
      case Basic(_, _, mask, sid) => {
        BasicWritten(mask, sid, src);
        ReadBack(BASIC_ACE, [Int(mask), SidInstance(sid)], src, 0, BodyBytes(a));
      }
      case Object(_, _, mask, present, objectType, inheritedType, sid) => {
        ObjectWritten(mask, present, objectType, inheritedType, sid, src);
        ReadBack(OBJECT_ACE, ObjectValues(mask, present, objectType, inheritedType, sid), src, 0, BodyBytes(a));
      }
    }
  }

  lemma AceReads(a: Ace, src: Source, pos: nat)
    requires GoodAce(a) && HoldsAt(src, pos, AceBytes(a))
    ensures ParseAce(src, pos) == Some((ExpectedAce(a), pos + |AceBytes(a)|))
  {
    hide Written, Compiled, PlainLayout, InstOf, Encode, Pow2, BodyBytes, NumberIn, BytesIn, BitSet;
    LayoutsArePlain();
    AceWritten(a.typ, a.flags, BodyBytes(a), src);
    ReadBack(ACE, AceValues(a), src, pos, AceBytes(a));
    FieldOf(ACE, AceValues(a), 0);
    FieldOf(ACE, AceValues(a), 3);
    if !a.Unknown? { BodyReads(a); }
  }

  function ExpectedAces(aces: seq<Ace>): seq<ParsedAce> {
    if aces == [] then [] else [ExpectedAce(aces[0])] + ExpectedAces(aces[1..])
  }

  lemma {:induction false} AcesRead(aces: seq<Ace>, src: Source, pos: nat)
    requires (forall k | 0 <= k < |aces| :: GoodAce(aces[k])) && HoldsAt(src, pos, AllAceBytes(aces))
    ensures ParseAces(src, pos, |aces|) == Some(ExpectedAces(aces))
    decreases |aces|
  {
    hide AceBytes, ParseAce, ExpectedAce, GoodAce, Holds;
    if aces != [] {
      HoldsBoth(src, pos, AceBytes(aces[0]), AllAceBytes(aces[1..]));
      AceReads(aces[0], src, pos);
      AcesRead(aces[1..], src, pos + |AceBytes(aces[0])|);
    }
  }

  lemma AcesAtTheFront(acl: Acl)
    ensures HoldsAt(Buffer(AclData(acl)), 0, AllAceBytes(acl.aces))
  {
    var data, n := AclData(acl), |AllAceBytes(acl.aces)|;
    assert data[0..n] == AllAceBytes(acl.aces);
  }

  lemma AclReads(acl: Acl, src: Source, pos: nat)
    requires GoodAcl(acl) && HoldsAt(src, pos, AclBytes(acl))
    ensures ParseAcl(src, pos) == Some(ParsedAcl(AclInstance(acl), ExpectedAces(acl.aces)))
  {
    hide Written, Compiled, PlainLayout, InstOf, Encode, NumberIn, BytesIn, AllAceBytes, ExpectedAces, ParseAces,
        GoodAce;
    LayoutsArePlain();
    AclWritten(acl, src);
    ReadBack(ACL, AclValues(acl), src, pos, AclBytes(acl));
    FieldOf(ACL, AclValues(acl), 3);
    FieldOf(ACL, AclValues(acl), 5);
    var buf := Buffer(AclData(acl));
    AcesAtTheFront(acl);
    AcesRead(acl.aces, buf, 0);
  }

  // -------------------------------------------------- security descriptors

  /** A security descriptor, as in section 2.4.6 of MS-DTYP. */
  datatype Descriptor = Descriptor(revision: byte, sbz1: byte, control: nat, owner: Option<Sid>, group: Option<Sid>,
                                   sacl: Option<Acl>, dacl: Option<Acl>)

  /** Where its parts are; zero for one that is not there. */
  datatype Places = Places(owner: nat, group: nat, sacl: nat, dacl: nat)

  function HeaderValues(d: Descriptor, at: Places): (vs: seq<Value>)
    ensures |vs| == 7
  {
    [Int(d.revision), Int(d.sbz1), Int(d.control), Int(at.owner), Int(at.group), Int(at.sacl), Int(at.dacl)]
  }

  function HeaderBytes(d: Descriptor, at: Places): seq<byte> {
    Le1(d.revision) + (Le1(d.sbz1) + (Le2(d.control)
        + (Le4(at.owner) + (Le4(at.group) + (Le4(at.sacl) + Le4(at.dacl))))))
  }

  lemma HeaderWritten(d: Descriptor, at: Places, src: Source)
    requires d.control < 65536 && at.owner < Pow2(32) && at.group < Pow2(32) && at.sacl < Pow2(32) && at.dacl < Pow2(32)
    requires src.endian == Little && src.consts == map[]
    ensures Written(HEADER, HeaderValues(d, at), map[], src, HeaderBytes(d, at))
  {
    hide Written, Encode, Pow2, FitsType, WriteType;
    var vs := HeaderValues(d, at);
    var r1: map<string, Value> := map["Revision" := vs[0]];
    var r2 := r1["Sbz1" := vs[1]];
    var r3 := r2["Control" := vs[2]];
    PlacesWritten(vs, at, r3, src);
    ByteFits(d.revision);
    ByteFits(d.sbz1);
    ShortFits(d.control);
    var tail := Le4(at.owner) + (Le4(at.group) + (Le4(at.sacl) + Le4(at.dacl)));
    NumberStep(HEADER, vs, 2, U16, d.control, r2, src, tail);
    NumberStep(HEADER, vs, 1, U8, d.sbz1, r1, src, Le2(d.control) + tail);
    NumberStep(HEADER, vs, 0, U8, d.revision, map[], src, Le1(d.sbz1) + (Le2(d.control) + tail));
    TheWhole(HEADER, vs, src, HeaderBytes(d, at));
  }

  lemma PlacesWritten(vs: seq<Value>, at: Places, r: map<string, Value>, src: Source)
    requires |vs| == 7 && vs[3..] == [Int(at.owner), Int(at.group), Int(at.sacl), Int(at.dacl)]
    requires at.owner < Pow2(32) && at.group < Pow2(32) && at.sacl < Pow2(32) && at.dacl < Pow2(32)
    requires src.endian == Little && src.consts == map[]
    ensures Written(HEADER[3..], vs[3..], r, src, Le4(at.owner) + (Le4(at.group) + (Le4(at.sacl) + Le4(at.dacl))))
  {
    hide Written, Encode, Pow2, FitsType, WriteType;
    assert vs[3] == vs[3..][0] && vs[4] == vs[3..][1] && vs[5] == vs[3..][2] && vs[6] == vs[3..][3];
    var r4 := r["OffsetOwner" := vs[3]];
    var r5 := r4["OffsetGroup" := vs[4]];
    var r6 := r5["OffsetSacl" := vs[5]];
    WrittenEnd(HEADER, vs, r6["OffsetDacl" := vs[6]], src);
    NumberStep(HEADER, vs, 6, U32, at.dacl, r6, src, []);
    assert Le4(at.dacl) + [] == Le4(at.dacl);
    NumberStep(HEADER, vs, 5, U32, at.sacl, r5, src, Le4(at.dacl));
    NumberStep(HEADER, vs, 4, U32, at.group, r4, src, Le4(at.sacl) + Le4(at.dacl));
    NumberStep(HEADER, vs, 3, U32, at.owner, r, src, Le4(at.group) + (Le4(at.sacl) + Le4(at.dacl)));
  }

  /** What the constructor of SecurityDescriptor sets. */
  datatype Parsed = Parsed(descriptor: Value, owner: Option<Value>, group: Option<Value>, sacl: Option<ParsedAcl>,
      dacl: Option<ParsedAcl>)

  /** A part that is read where the header says; the outer option is None for an exception. */
  function SidAt(src: Source, at: int): Option<Option<Value>> {
    if at <= 0 then Some(None)
    else
      match Compiled(SID, src, at)
      case Fail => None
      case Ok(sid, _, _) => Some(Some(sid))
  }

  function AclAt(src: Source, at: int): Option<Option<ParsedAcl>> {
    if at <= 0 then Some(None)
    else
      var acl := ParseAcl(src, at);
      if acl.None? then None else Some(acl)
  }

  function ParseDescriptor(src: Source): Option<Parsed> {
    match Compiled(HEADER, src, 0)
    case Fail => None
    case Ok(h, _, _) =>
      var owner, group := SidAt(src, NumberIn(h, "OffsetOwner")), SidAt(src, NumberIn(h, "OffsetGroup"));
      var sacl, dacl := AclAt(src, NumberIn(h, "OffsetSacl")), AclAt(src, NumberIn(h, "OffsetDacl"));
      if owner.None? || group.None? || sacl.None? || dacl.None? then None
      else Some(Parsed(h, owner.value, group.value, sacl.value, dacl.value))
  }

  /** Of any data: a descriptor that is read has each part if and only if the header has an offset for it:
      one that cannot be read is never left out. */
  lemma PartsWhereStated(src: Source)
    requires ParseDescriptor(src).Some?
    ensures var p := ParseDescriptor(src).value;
            && (p.owner.Some? <==> NumberIn(p.descriptor, "OffsetOwner") > 0)
            && (p.group.Some? <==> NumberIn(p.descriptor, "OffsetGroup") > 0)
            && (p.sacl.Some? <==> NumberIn(p.descriptor, "OffsetSacl") > 0)
            && (p.dacl.Some? <==> NumberIn(p.descriptor, "OffsetDacl") > 0)
  {
    hide Compiled, ParseAcl, NumberIn;
  }

  /** The data hold the descriptor with its parts at these places, in any order. */
  predicate LaidOut(d: Descriptor, at: Places, src: Source) {
    && d.control < 65536 && HoldsAt(src, 0, HeaderBytes(d, at))
    && at.owner < Pow2(32) && at.group < Pow2(32) && at.sacl < Pow2(32) && at.dacl < Pow2(32)
    && SidLaidOut(d.owner, at.owner, src) && SidLaidOut(d.group, at.group, src)
    && AclLaidOut(d.sacl, at.sacl, src) && AclLaidOut(d.dacl, at.dacl, src)
  }

  predicate SidLaidOut(sid: Option<Sid>, at: nat, src: Source) {
    if sid.None? then at == 0 else at > 0 && GoodSid(sid.value) && HoldsAt(src, at, SidBytes(sid.value))
  }

  predicate AclLaidOut(acl: Option<Acl>, at: nat, src: Source) {
    if acl.None? then at == 0 else at > 0 && GoodAcl(acl.value) && HoldsAt(src, at, AclBytes(acl.value))
  }

  function SidExpected(sid: Option<Sid>): Option<Value> { if sid.None? then None else Some(SidInstance(sid.value)) }

  function AclExpected(acl: Option<Acl>): Option<ParsedAcl> {
    if acl.None? then None else Some(ParsedAcl(AclInstance(acl.value), ExpectedAces(acl.value.aces)))
  }

  lemma SidAtReads(sid: Option<Sid>, at: nat, src: Source)
    requires SidLaidOut(sid, at, src)
    ensures SidAt(src, at) == Some(SidExpected(sid))
  {
    hide Compiled, SidBytes, SidInstance, GoodSid, HoldsAt;
    if sid.Some? { SidReads(sid.value, src, at); }
  }

  lemma AclAtReads(acl: Option<Acl>, at: nat, src: Source)
    requires AclLaidOut(acl, at, src)
    ensures AclAt(src, at) == Some(AclExpected(acl))
  {
    hide ParseAcl, AclBytes, AclInstance, GoodAcl, HoldsAt, ExpectedAces;
    if acl.Some? { AclReads(acl.value, src, at); }
  }

  /** Whatever is laid out by MS-DTYP is recovered: header, owner, group and both lists, with every
      entry, its fields and its data. */
  lemma DescriptorReads(d: Descriptor, at: Places, src: Source)
    requires LaidOut(d, at, src)
    ensures ParseDescriptor(src)
         == Some(Parsed(InstOf(HEADER, HeaderValues(d, at)), SidExpected(d.owner), SidExpected(d.group),
             AclExpected(d.sacl), AclExpected(d.dacl)))
  {
    hide Compiled, Written, InstOf, NumberIn, Encode, SidLaidOut, AclLaidOut, SidAt, AclAt, SidExpected, AclExpected,
        PlainLayout, Pow2;
    var vs := HeaderValues(d, at);
    LayoutsArePlain();
    HeaderWritten(d, at, src);
    ReadBack(HEADER, vs, src, 0, HeaderBytes(d, at));
    FieldOf(HEADER, vs, 3);
    FieldOf(HEADER, vs, 4);
    FieldOf(HEADER, vs, 5);
    FieldOf(HEADER, vs, 6);
    SidAtReads(d.owner, at.owner, src);
    SidAtReads(d.group, at.group, src);
    AclAtReads(d.sacl, at.sacl, src);
    AclAtReads(d.dacl, at.dacl, src);
  }

  // -------------------------------------------------- one way of laying out

  function SidPart(sid: Option<Sid>): seq<byte> { if sid.None? then [] else SidBytes(sid.value) }

  function AclPart(acl: Option<Acl>): seq<byte> { if acl.None? then [] else AclBytes(acl.value) }

  function Place(there: bool, at: nat): nat { if there then at else 0 }

  /** The parts directly behind the header, one behind the other. */
  function PlacesOf(d: Descriptor): Places {
    var a := 20;
    var b := a + |SidPart(d.owner)|;
    var c := b + |SidPart(d.group)|;
    var e := c + |AclPart(d.sacl)|;
    Places(Place(d.owner.Some?, a), Place(d.group.Some?, b), Place(d.sacl.Some?, c), Place(d.dacl.Some?, e))
  }

  function Assembled(d: Descriptor): seq<byte> {
    HeaderBytes(d, PlacesOf(d)) + (SidPart(d.owner) + (SidPart(d.group) + (AclPart(d.sacl) + AclPart(d.dacl))))
  }

  predicate GoodDescriptor(d: Descriptor) {
    && d.control < 65536 && |Assembled(d)| < Pow2(32)
    && (d.owner.Some? ==> GoodSid(d.owner.value)) && (d.group.Some? ==> GoodSid(d.group.value))
    && (d.sacl.Some? ==> GoodAcl(d.sacl.value)) && (d.dacl.Some? ==> GoodAcl(d.dacl.value))
  }

  lemma HoldsMiddle(pre: seq<byte>, part: seq<byte>, post: seq<byte>)
    ensures HoldsAt(Buffer(pre + part + post), |pre|, part)
  {
    var data := pre + part + post;
    assert data[|pre|..|pre| + |part|] == part;
  }

  lemma FiveParts(h: seq<byte>, a: seq<byte>, b: seq<byte>, c: seq<byte>, d: seq<byte>)
    ensures var src := Buffer(h + (a + (b + (c + d))));
            && HoldsAt(src, 0, h) && HoldsAt(src, |h|, a) && HoldsAt(src, |h| + |a|, b)
            && HoldsAt(src, |h| + |a| + |b|, c) && HoldsAt(src, |h| + |a| + |b| + |c|, d)
  {
    hide HoldsAt;
    var data := h + (a + (b + (c + d)));
    assert data == [] + h + (a + (b + (c + d)));
    HoldsMiddle([], h, a + (b + (c + d)));
    assert data == h + a + (b + (c + d));
    HoldsMiddle(h, a, b + (c + d));
    assert data == (h + a) + b + (c + d);
    HoldsMiddle(h + a, b, c + d);
    assert data == (h + a + b) + c + d;
    HoldsMiddle(h + a + b, c, d);
    assert data == (h + a + b + c) + d + [];
    HoldsMiddle(h + a + b + c, d, []);
  }

  /** So every descriptor of a size that its offsets can hold has a layout, and is read back from it. */
  lemma AssembledIsLaidOut(d: Descriptor)
    requires GoodDescriptor(d)
    ensures LaidOut(d, PlacesOf(d), Buffer(Assembled(d)))
  {
    hide HoldsAt, SidBytes, AclBytes, Encode, Pow2, GoodSid, GoodAcl;
    var h := HeaderBytes(d, PlacesOf(d));
    assert |h| == 20;
    FiveParts(h, SidPart(d.owner), SidPart(d.group), AclPart(d.sacl), AclPart(d.dacl));
    BigEnough();
  }

  lemma BigEnough()
    ensures 20 < Pow2(32)
  {
    Pow2Mono(5, 32);
    assert Pow2(5) == 32;
  }
}
