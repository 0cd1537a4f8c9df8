/** The texts of search filters, character by character, and what each stands for; reading by the grammar
    accepts exactly these texts. */
module FilterLanguage {
  import opened FilterTree
  import opened FilterGrammar
  import opened FilterTexts
  import opened PrintParse

  // -------------------------------------------------- the texts

  /** What stands between parentheses: an item, whose options are dropped; `&` or `|`, white space and one
      member or more; `!`, white space and one member. */
  datatype Body =
    | ItemBody(attr: string, options: seq<string>, comp: string, val: string)
    | JunctionBody(both: bool, fills: seq<string>, members: seq<Member>)
    | NotBody(fills: seq<string>, member: Member)

  /** A filter in parentheses, and the white space behind it. */
  datatype Member = Member(body: Body, after: seq<string>)

  predicate IsFill(f: string) { f == " " || f == "\t" || f == "\n" || f == "\r\n" }

  predicate AreFills(fs: seq<string>) { forall k | 0 <= k < |fs| :: IsFill(fs[k]) }

  predicate AreOptions(os: seq<string>) { forall k | 0 <= k < |os| :: os[k] != "" && AreAttrChars(os[k]) }

  predicate IsBody(b: Body)
    decreases b
  {
    match b
    case ItemBody(a, os, c, v) => (IsName(a) || IsOid(a)) && AreOptions(os) && GoodComp(c) && GoodValue(c, v)
    case JunctionBody(_, fs, ms) => AreFills(fs) && ms != [] && forall k | 0 <= k < |ms| :: IsMember(ms[k])
    case NotBody(fs, m) => AreFills(fs) && IsMember(m)
  }

  predicate IsMember(m: Member)
    decreases m
  {
    IsBody(m.body) && AreFills(m.after)
  }

  predicate AreMembers(ms: seq<Member>) { forall k | 0 <= k < |ms| :: IsMember(ms[k]) }

  function Concat(ss: seq<string>): string { if ss == [] then "" else ss[0] + Concat(ss[1..]) }

  function OptionsText(os: seq<string>): string { if os == [] then "" else ";" + os[0] + OptionsText(os[1..]) }

  function BodyText(b: Body): string
    decreases b
  {
    match b
    case ItemBody(a, os, c, v) => a + OptionsText(os) + c + v
    case JunctionBody(both, fs, ms) => (if both then "&" else "|") + Concat(fs) + MembersText(ms)
    case NotBody(fs, m) => "!" + Concat(fs) + MemberText(m)
  }

  function MemberText(m: Member): string
    decreases m
  {
    "(" + BodyText(m.body) + ")" + Concat(m.after)
  }

  function MembersText(ms: seq<Member>): string
    decreases ms
  {
    if ms == [] then "" else MemberText(ms[0]) + MembersText(ms[1..])
  }

  /** What it stands for: white space in front of the members takes their place, and a Not over anything but
      an item is None. */
  function Meant(b: Body): Filter
    decreases b
  {
    match b
    case ItemBody(a, _, c, v) => Item(a, c, v)
    case JunctionBody(both, fs, ms) =>
      Group(if both then And else Or, if fs != [] then Spaces(fs) else MeantAll(ms))
    case NotBody(_, m) => if m.body.ItemBody? then Group(Not, [Meant(m.body)]) else Nothing
  }

  function Spaces(fs: seq<string>): seq<Filter> { seq(|fs|, k requires 0 <= k < |fs| => Fill(fs[k])) }

  lemma {:induction false} SpacesAre(fs: seq<string>)
    ensures FillNodes(fs) == Spaces(fs)
  {
    if fs != [] {
      SpacesAre(fs[1..]);
      assert Spaces(fs) == [Fill(fs[0])] + Spaces(fs[1..]);
    }
  }

  function MeantAll(ms: seq<Member>): (ts: seq<Filter>)
    ensures |ts| == |ms|
    decreases ms
  {
    if ms == [] then [] else [Meant(ms[0].body)] + MeantAll(ms[1..])
  }

  // -------------------------------------------------- white space

  lemma {:induction false} ConcatSize(fs: seq<string>)
    ensures |Concat(fs)| == FillsSize(fs)
  {
    if fs != [] { ConcatSize(fs[1..]); }
  }

  lemma FillFirst(f: string, t: string)
    requires IsFill(f)
    ensures FillLen(f + t) == |f| && Sub(f + t, 0, |f|) == f && Rest(f + t, |f|) == t
  {
    if |f + t| >= 2 { assert Sub(f + t, 0, 2)[0] == f[0]; }
  }

  /** White space is taken as it is written. */
  lemma {:induction false} FillsRead(fs: seq<string>, t: string)
    requires AreFills(fs) && NoFill(t)
    ensures Fills(Concat(fs) + t) == fs && FillsSize(fs) == |Concat(fs)| && Rest(Concat(fs) + t, |Concat(fs)|) == t
  {
    hide IsFill, FillLen, NoFill;
    ConcatSize(fs);
    if fs == [] {
      NoFills(t);
      assert "" + t == t;
    } else {
      var f, more := fs[0], Concat(fs[1..]) + t;
      assert IsFill(f) && Concat(fs) + t == f + more;
      FillFirst(f, more);
      FillIsLong(f);
      FillsRead(fs[1..], t);
    }
  }

  lemma FillIsLong(f: string)
    requires IsFill(f)
    ensures |f| > 0
  {}

  /** What is taken as white space is written so, and none is behind it. */
  lemma {:induction false} FillsFound(s: string)
    ensures var fs := Fills(s);
            && AreFills(fs) && |Concat(fs)| == FillsSize(fs) <= |s|
            && s == Concat(fs) + Rest(s, FillsSize(fs)) && NoFill(Rest(s, FillsSize(fs)))
    decreases |s|
  {
    hide IsFill, FillLen, Rest, Sub;
    var n := FillLen(s);
    ConcatSize(Fills(s));
    if n == 0 {
      WholeRest(s);
    } else {
      var f, r := Sub(s, 0, n), Rest(s, n);
      FillFound(s);
      FillsFound(r);
      CutAt(s, n);
      var k := FillsSize(Fills(r));
      Rest2(s, n, k);
      assert f + (Concat(Fills(r)) + Rest(r, k)) == f + Concat(Fills(r)) + Rest(r, k);
    }
  }

  lemma CutAt(s: string, n: nat)
    requires n <= |s|
    ensures s == Sub(s, 0, n) + Rest(s, n)
  {}

  lemma FillFound(s: string)
    requires FillLen(s) > 0
    ensures IsFill(Sub(s, 0, FillLen(s)))
  {}

  // -------------------------------------------------- items are read

  predicate EndsName(t: string) { t != "" && !IsAttrChar(t[0]) && t[0] != ';' }

  lemma WordReads(o: string, t: string)
    requires o != "" && AreAttrChars(o) && EndsAttr(t)
    ensures Run(o + t, IsAttrChar) == |o|
  {
    hide IsAttrChar, IsOther;
    RunEnd(o, t, IsAttrChar);
    var n := Run(o, IsAttrChar);
    if n < |o| { FirstIs(o[n]); }
  }

  lemma {:induction false} OptionsRead(os: seq<string>, t: string)
    requires os != [] && AreOptions(os) && EndsName(t)
    ensures OptionsLen(os[0] + (OptionsText(os[1..]) + t)) == |OptionsText(os)| - 1 > 0
    decreases |os|
  {
    hide Run, AreAttrChars, IsAttrChar, Rest;
    var o, rest := os[0], os[1..];
    var more := OptionsText(rest) + t;
    var s := o + more;
    assert AreAttrChars(o);
    if rest == [] {
      assert more == t;
      WordReads(o, t);
      PrintParse.Behind(o, t);
    } else {
      var next := rest[0] + (OptionsText(rest[1..]) + t);
      assert more == ";" + next && |OptionsText(rest)| == 1 + |rest[0]| + |OptionsText(rest[1..])|;
      SemicolonEnds(next);
      WordReads(o, more);
      PrintParse.Behind(o, more);
      FirstOf(";", next);
      Semicolon();
      RestThen(o + ";", |o| + 1, next);
      BehindSign(o, next);
      OptionsRead(rest, t);
    }
  }

  lemma SemicolonEnds(t: string)
    ensures EndsAttr(";" + t)
  {}

  lemma Semicolon()
    ensures CharIs(";", 0, ';')
  {}

  lemma BehindSign(o: string, t: string)
    ensures Rest(o + (";" + t), |o| + 1) == t
  {}

  lemma DescriptionReads(a: string, os: seq<string>, t: string)
    requires GoodAttr(a) && AreOptions(os) && EndsName(t)
    ensures var s := a + (OptionsText(os) + t);
            AttrTypeLen(s) == |a| && DescriptionLen(s) == |a| + |OptionsText(os)|
  {
    hide AttrTypeLen, IsAttrChar, OptionsLen, Rest;
    var more := OptionsText(os) + t;
    if os == [] {
      assert more == t;
      AttrReads(a, t);
    } else {
      var next := os[0] + (OptionsText(os[1..]) + t);
      assert more == ";" + next;
      SemicolonEnds(next);
      AttrEnd(a, more);
      PrintParse.Behind(a, more);
      FirstOf(";", next);
      Semicolon();
      BehindSign(a, next);
      OptionsRead(os, t);
    }
  }

  /** The pieces of an item's text, by position. */
  lemma ItemParts(a: string, o: string, c: string, v: string, t: string)
    ensures var s := a + (o + (c + (v + t)));
            && Sub(s, 0, |a|) == a && Rest(s, |a| + |o|) == c + (v + t)
            && Sub(s, |a| + |o|, |a| + |o| + |c|) == c && Rest(s, |a| + |o| + |c|) == v + t
            && Sub(s, |a| + |o| + |c|, |a| + |o| + |c| + |v|) == v
            && s == a + o + c + v + t
            && CharIs(s, |a| + |o|, '=') == CharIs(c + (v + t), 0, '=')
  {}

  lemma ItemBodyReads(a: string, os: seq<string>, c: string, v: string, t: string)
    requires GoodAttr(a) && AreOptions(os) && GoodComp(c) && GoodValue(c, v) && EndsItem(t)
    ensures ReadItem(a + OptionsText(os) + c + v + t) == Got(Flt(Item(a, c, v)), |a + OptionsText(os) + c + v|)
  {
    hide AttrTypeLen, DescriptionLen, CompLen, ValueLen, WildcardLen, Rest, Sub, CharIs;
    var o := OptionsText(os);
    var s := a + (o + (c + (v + t)));
    ItemParts(a, o, c, v, t);
    CompReads(c, v + t);
    SignEnds(c, v + t);
    DescriptionReads(a, os, c + (v + t));
    WildcardEnd(v, t);
    var n := |a| + |o|;
    assert DescriptionLen(s) == n && AttrTypeLen(s) == |a|;
    if c == "=" {
      assert CharIs(s, n, '=') && Rest(s, n + 1) == v + t;
      assert Sub(s, n + 1, n + 1 + |v|) == v;
    } else {
      assert !CharIs(s, n, '=') && ReadWildcard(s) == Failure;
    }
    assert ReadWildcard(s) == if '*' in v then Got(Flt(Item(a, c, v)), n + |c| + |v|) else Failure;
    if '*' !in v {
      assert ReadSimple(s) == Got(Flt(Item(a, c, v)), n + |c| + |v|);
    }
  }

  lemma SignEnds(c: string, t: string)
    requires GoodComp(c)
    ensures EndsName(c + t)
  {}

  // -------------------------------------------------- every such text is read

  lemma MemberOpens(m: Member, tail: string)
    ensures NoFill(MemberText(m) + tail) && Fills(MemberText(m) + tail) == []
  {
    var rest := BodyText(m.body) + ")" + Concat(m.after) + tail;
    assert MemberText(m) + tail == ['('] + rest;
    NoFillAt('(', rest);
  }

  lemma MeantIsNoText(b: Body)
    ensures FilterOf(Flt(Meant(b))) == Meant(b) && (Meant(b).Item? <==> b.ItemBody?)
  {}

  lemma Parenthesised(s: string, inner: string, n: nat, rest: string, f: Filter)
    requires n + 2 <= |s| && Fills(s) == [] && CharIs(s, 0, '(') && Rest(s, 1) == inner && CharIs(s, 1 + n, ')')
    requires ReadComp(inner) == Got(Flt(f), n) && Rest(s, n + 2) == rest
    ensures ReadFilter(s) == Got(Flt(FilterOf(Flt(f))), n + 2 + FillsSize(Fills(rest)))
  {
    hide ReadComp, Rest, Fills, FilterOf, CharIs;
  }

  lemma MemberParts(body: string, rest: string)
    ensures var s := "(" + body + ")" + rest;
            && CharIs(s, 0, '(') && Rest(s, 1) == body + (")" + rest)
            && CharIs(s, 1 + |body|, ')') && Rest(s, |body| + 2) == rest
  {
    assert "(" + body + ")" + rest == "(" + (body + (")" + rest));
  }

  lemma {:induction false} MemberReads(m: Member, tail: string)
    requires IsMember(m) && NoFill(tail)
    ensures ReadFilter(MemberText(m) + tail) == Got(Flt(Meant(m.body)), |MemberText(m)|)
    decreases m, 1
  {
    hide ReadFilter, ReadComp, BodyText, Fills, Rest, CharIs, NoFill, IsBody, Meant;
    var body, rest := BodyText(m.body), Concat(m.after) + tail;
    var s := "(" + body + ")" + rest;
    assert MemberText(m) + tail == s;
    MemberOpens(m, tail);
    MemberParts(body, rest);
    BodyReadsBack(m.body, ")" + rest);
    FillsRead(m.after, tail);
    Parenthesised(s, body + (")" + rest), |body|, rest, Meant(m.body));
    MeantIsNoText(m.body);
  }

  lemma NoSignAt(s: string)
    requires s != "" && IsAttrChar(s[0])
    ensures ReadJunction(And, s) == ReadJunction(Or, s) == ReadNot(s) == Failure
  {}

  lemma AttrBeginsText(a: string, t: string)
    requires GoodAttr(a)
    ensures a + t != "" && IsAttrChar((a + t)[0])
  {
    AttrBegins(a);
    assert (a + t)[0] == a[0];
  }

  lemma {:induction false} BodyReadsBack(b: Body, tail: string)
    requires IsBody(b) && EndsValue(tail)
    ensures ReadComp(BodyText(b) + tail) == Got(Flt(Meant(b)), |BodyText(b)|)
    decreases b, 1
  {
    hide ReadJunction, ReadNot, ReadItem, MemberText, MembersText, OptionsText, Concat, IsMember, GoodValue, IsName,
        IsOid, Meant;
    match b {
      case ItemBody(a, os, c, v) =>
        AttrExactly(a);
        ItemBodyReads(a, os, c, v, tail);
        AttrBeginsText(a, OptionsText(os) + c + v + tail);
        assert a + (OptionsText(os) + c + v + tail) == a + OptionsText(os) + c + v + tail;
        NoSignAt(a + OptionsText(os) + c + v + tail);
        ItemMeant(b);
      case JunctionBody(both, fs, ms) =>
        JunctionReadsBack(both, fs, ms, tail);
      case NotBody(fs, m) =>
        NotReadsBack(fs, m, tail);
    }
  }

  lemma ItemMeant(b: Body)
    requires b.ItemBody?
    ensures Meant(b) == Item(b.attr, b.comp, b.val)
  {}

  lemma MembersOpen(ms: seq<Member>, tail: string)
    requires ms != []
    ensures NoFill(MembersText(ms) + tail)
  {
    hide NoFill, MemberText;
    var more := MembersText(ms[1..]) + tail;
    assert MembersText(ms) + tail == MemberText(ms[0]) + more;
    MemberOpens(ms[0], more);
  }

  /** A sign, white space, and what is read behind it. */
  lemma SignParts(sign: string, w: string, more: string)
    requires |sign| == 1
    ensures var s := sign + w + more; CharIs(s, 0, sign[0]) && Rest(s, 1) == w + more && Rest(s, 1 + |w|) == more
    ensures var s := sign + w + more; forall c :: CharIs(s, 0, c) == (c == sign[0])
  {}

  lemma JunctionFinds(op: Op, s: string, fs: seq<string>, list: string, n: nat, tail: string, ts: seq<Filter>)
    requires op != Not && CharIs(s, 0, OpText(op)[0]) && Fills(Rest(s, 1)) == fs && 1 + FillsSize(fs) + n <= |s|
    requires Rest(s, 1 + FillsSize(fs)) == list && ReadList(list) == Got(Flts(ts), n)
    requires Rest(s, 1 + FillsSize(fs) + n) == tail && Fills(tail) == []
    ensures ReadJunction(op, s)
         == Got(Flt(Group(op, if fs != [] then FillNodes(fs) else ts)), 1 + FillsSize(fs) + n)
  {
    hide ReadList, Rest, Fills, CharIs, OpText, FillNodes;
  }

  lemma SignIs(op: Op)
    ensures OpText(op) == match op case And => "&" case Or => "|" case Not => "!"
  {}

  lemma {:induction false} JunctionReadsBack(both: bool, fs: seq<string>, ms: seq<Member>, tail: string)
    requires AreFills(fs) && ms != [] && AreMembers(ms) && EndsValue(tail)
    ensures var b := JunctionBody(both, fs, ms);
            ReadComp(BodyText(b) + tail) == Got(Flt(Meant(b)), |BodyText(b)|)
    decreases ms, 3
  {
    hide ReadJunction, ReadNot, ReadItem, ReadList, MembersText, Concat, IsMember, Rest, Fills, CharIs, OpText, NoFill,
        Spaces, MeantAll;
    var op := if both then And else Or;
    var sign := if both then "&" else "|";
    var list := MembersText(ms) + tail;
    var s := sign + Concat(fs) + list;
    assert BodyText(JunctionBody(both, fs, ms)) + tail == s;
    SignIs(op);
    SignParts(sign, Concat(fs), list);
    SpacesAre(fs);
    MembersOpen(ms, tail);
    FillsRead(fs, list);
    MembersRead(ms, tail);
    EndNoFill(tail);
    var n := |MembersText(ms)|;
    BehindBoth(sign + Concat(fs), MembersText(ms), tail);
    JunctionFinds(op, s, fs, list, n, tail, MeantAll(ms));
    if !both { OtherSign(s); }
  }

  lemma BehindBoth(p: string, q: string, tail: string)
    ensures p + (q + tail) == p + q + tail && Rest(p + (q + tail), |p| + |q|) == tail
  {}

  lemma OtherSign(s: string)
    requires CharIs(s, 0, '|')
    ensures ReadJunction(And, s) == Failure
  {}

  lemma NoJunction(s: string)
    requires CharIs(s, 0, '!')
    ensures ReadJunction(And, s) == ReadJunction(Or, s) == Failure
  {}

  lemma NotFinds(s: string, fs: seq<string>, inner: string, n: nat, tail: string, f: Filter)
    requires CharIs(s, 0, '!') && Fills(Rest(s, 1)) == fs && 1 + FillsSize(fs) + n <= |s|
    requires Rest(s, 1 + FillsSize(fs)) == inner && ReadFilter(inner) == Got(Flt(f), n)
    requires Rest(s, 1 + FillsSize(fs) + n) == tail && Fills(tail) == []
    ensures ReadNot(s) == Got(Flt(Negation(Flt(f))), 1 + FillsSize(fs) + n)
  {
    hide ReadFilter, Rest, Fills, CharIs;
  }

  lemma {:induction false} NotReadsBack(fs: seq<string>, m: Member, tail: string)
    requires AreFills(fs) && IsMember(m) && EndsValue(tail)
    ensures var b := NotBody(fs, m); ReadComp(BodyText(b) + tail) == Got(Flt(Meant(b)), |BodyText(b)|)
    decreases m, 2
  {
    hide ReadJunction, ReadNot, ReadItem, ReadFilter, MemberText, Concat, IsMember, Rest, Fills, CharIs, NoFill;
    var inner := MemberText(m) + tail;
    var s := "!" + Concat(fs) + inner;
    assert BodyText(NotBody(fs, m)) + tail == s;
    SignParts("!", Concat(fs), inner);
    MemberOpens(m, tail);
    FillsRead(fs, inner);
    EndNoFill(tail);
    MemberReads(m, tail);
    BehindBoth("!" + Concat(fs), MemberText(m), tail);
    NotFinds(s, fs, inner, |MemberText(m)|, tail, Meant(m.body));
    NoJunction(s);
    MeantIsNoText(m.body);
  }

  lemma {:induction false} MembersRead(ms: seq<Member>, tail: string)
    requires ms != [] && AreMembers(ms) && EndsValue(tail)
    ensures ReadList(MembersText(ms) + tail) == Got(Flts(MeantAll(ms)), |MembersText(ms)|)
    decreases ms, 2
  {
    hide ReadFilter, MemberText, Fills, Rest, IsMember, NoFill, Meant;
    var m, rest := ms[0], ms[1..];
    var more := MembersText(rest) + tail;
    assert MembersText(ms) + tail == MemberText(m) + more;
    PrintParse.Behind(MemberText(m), more);
    assert IsMember(m);
    if rest == [] {
      assert more == tail;
      EndNoFill(tail);
      MemberReads(m, tail);
      NoMore(tail);
    } else {
      MembersOpen(rest, tail);
      MemberReads(m, more);
      MembersRead(rest, tail);
    }
  }

  // -------------------------------------------------- whatever is read is such a text

  lemma CharAt(s: string, i: nat, c: char)
    requires CharIs(s, i, c)
    ensures i < |s| && Rest(s, i) == [c] + Rest(s, i + 1)
  {}

  lemma WordFound(u: string)
    ensures AreAttrChars(Sub(u, 0, Run(u, IsAttrChar)))
  {
    hide IsAttrChar, IsOther;
    var n := Run(u, IsAttrChar);
    forall k | 0 <= k < n ensures IsOther(u[k]) { FirstIs(u[k]); }
  }

  lemma {:induction false} OptionsFound(u: string) returns (os: seq<string>)
    requires OptionsLen(u) > 0
    ensures AreOptions(os) && os != [] && ";" + u == OptionsText(os) + Rest(u, OptionsLen(u))
    decreases |u|
  {
    hide Run, AreAttrChars, Rest, Sub, CharIs, OptionsText;
    var n := Run(u, IsAttrChar);
    var o := Sub(u, 0, n);
    WordFound(u);
    CutAt(u, n);
    NoOptions();
    if CharIs(u, n, ';') && OptionsLen(Rest(u, n + 1)) > 0 {
      var rest := OptionsFound(Rest(u, n + 1));
      os := [o] + rest;
      CharAt(u, n, ';');
      Rest2(u, n + 1, OptionsLen(Rest(u, n + 1)));
      OneOption(o, rest, Rest(u, OptionsLen(u)));
    } else {
      os := [o] + [];
      OneOption(o, [], Rest(u, OptionsLen(u)));
    }
  }

  lemma NoOptions()
    ensures OptionsText([]) == ""
  {}

  lemma OneOption(o: string, os: seq<string>, end: string)
    ensures ";" + (o + (OptionsText(os) + end)) == OptionsText([o] + os) + end
  {
    assert ([o] + os)[1..] == os;
  }

  lemma DescriptionFound(s: string) returns (a: string, os: seq<string>)
    requires DescriptionLen(s) > 0
    ensures (IsName(a) || IsOid(a)) && AreOptions(os) && a == Sub(s, 0, AttrTypeLen(s))
    ensures s == a + OptionsText(os) + Rest(s, DescriptionLen(s))
  {
    hide AttrTypeLen, OptionsLen, IsName, IsOid, Rest, Sub, CharIs, GoodAttr;
    var n := AttrTypeLen(s);
    a := Sub(s, 0, n);
    AttrOfPrefix(s);
    AttrExactly(a);
    CutAt(s, n);
    os := [];
    if CharIs(s, n, ';') && OptionsLen(Rest(s, n + 1)) > 0 {
      os := OptionsFound(Rest(s, n + 1));
      CharAt(s, n, ';');
      Rest2(s, n + 1, OptionsLen(Rest(s, n + 1)));
      var end := Rest(s, DescriptionLen(s));
      assert a + (OptionsText(os) + end) == a + OptionsText(os) + end;
    }
  }

  lemma {:induction false} ItemFound(s: string) returns (b: Body)
    requires ReadItem(s).Got?
    ensures b.ItemBody? && IsBody(b) && ReadItem(s).node == Flt(Meant(b))
    ensures s == BodyText(b) + Rest(s, ReadItem(s).used)
  {
    hide AttrTypeLen, DescriptionLen, CompLen, ValueLen, WildcardLen, IsName, IsOid, Rest, Sub, GoodValue, GoodComp,
        AreOptions, OptionsText, GoodAttr;
    ItemProduced(s);
    var t := ReadItem(s).node.filter;
    var n, used := DescriptionLen(s), ReadItem(s).used;
    var a, os := DescriptionFound(s);
    b := ItemBody(a, os, t.comp, t.val);
    if ReadWildcard(s).Got? {
      SignFound(s, n);
      CutBetween(s, n, n + 1, used);
    } else {
      CutBetween(s, n, n + CompLen(Rest(s, n)), used);
    }
    var end := Rest(s, used);
    assert a + OptionsText(os) + (t.comp + t.val + end) == BodyText(b) + end;
  }

  lemma SignFound(s: string, n: nat)
    requires CharIs(s, n, '=')
    ensures n < |s| && Sub(s, n, n + 1) == "="
  {}

  lemma CutBetween(s: string, i: nat, j: nat, k: nat)
    requires i <= j <= k <= |s|
    ensures Rest(s, i) == Sub(s, i, j) + Sub(s, j, k) + Rest(s, k)
  {}

  lemma {:induction false} FilterFound(s: string) returns (m: Member)
    requires ReadFilter(s).Got?
    ensures IsMember(m) && ReadFilter(s).node == Flt(Meant(m.body))
    ensures AreFills(Fills(s)) && s == Concat(Fills(s)) + MemberText(m) + Rest(s, ReadFilter(s).used)
    ensures NoFill(Rest(s, ReadFilter(s).used))
    decreases |s|, 1
  {
    hide Fills, FillsSize, Rest, CharIs, ReadComp, ReadFilter, BodyText, Concat, IsBody, Meant, FilterOf, NoFill;
    FillsFound(s);
    var f := FillsSize(Fills(s));
    FilterIs(s, f);
    var inner := Rest(s, f + 1);
    var b := BodyFound(inner);
    var used := ReadComp(inner).used;
    CharAt(s, f, '(');
    Rest2(s, f + 1, used);
    CharAt(s, f + 1 + used, ')');
    var n := f + 1 + used + 1;
    FillsFound(Rest(s, n));
    var after := Fills(Rest(s, n));
    Rest2(s, n, FillsSize(after));
    m := Member(b, after);
    MeantIsNoText(b);
    MemberAssembled(Concat(Fills(s)), BodyText(b), Concat(after), Rest(s, ReadFilter(s).used));
  }

  lemma FilterIs(s: string, f: nat)
    requires ReadFilter(s).Got? && f == FillsSize(Fills(s))
    ensures CharIs(s, f, '(') && f + 1 <= |s|
    ensures var c := ReadComp(Rest(s, f + 1));
            && c.Got? && CharIs(s, f + 1 + c.used, ')') && f + 1 + c.used + 1 <= |s|
            && ReadFilter(s).node == Flt(FilterOf(c.node))
            && ReadFilter(s).used == f + 1 + c.used + 1 + FillsSize(Fills(Rest(s, f + 1 + c.used + 1)))
  {
    hide Fills, FillsSize, Rest, ReadComp, FilterOf;
  }

  lemma MemberAssembled(w: string, body: string, after: string, end: string)
    ensures w + (['('] + (body + ([')'] + (after + end)))) == w + ("(" + body + ")" + after) + end
  {}

  lemma {:induction false} BodyFound(s: string) returns (b: Body)
    requires ReadComp(s).Got?
    ensures IsBody(b) && ReadComp(s).node == Flt(Meant(b)) && s == BodyText(b) + Rest(s, ReadComp(s).used)
    decreases |s|, 3
  {
    hide ReadJunction, ReadNot, ReadItem, Rest, BodyText, Meant, IsBody;
    if ReadJunction(And, s).Got? {
      b := JunctionFound(true, s);
    } else if ReadJunction(Or, s).Got? {
      b := JunctionFound(false, s);
    } else if ReadNot(s).Got? {
      b := NotFound(s);
    } else {
      b := ItemFound(s);
    }
  }

  lemma {:induction false} JunctionFound(both: bool, s: string) returns (b: Body)
    requires ReadJunction(if both then And else Or, s).Got?
    ensures var r := ReadJunction(if both then And else Or, s);
            IsBody(b) && r.node == Flt(Meant(b)) && s == BodyText(b) + Rest(s, r.used)
    decreases |s|, 2
  {
    hide ReadList, Rest, Fills, FillNodes, CharIs, Concat, MembersText, NoFill, IsMember, OpText, IsFill, Spaces,
        MeantAll, FillsSize;
    var op := if both then And else Or;
    SignIs(op);
    var fs := Fills(Rest(s, 1));
    SpacesAre(fs);
    FillsFound(Rest(s, 1));
    var f := 1 + FillsSize(fs);
    Rest2(s, 1, FillsSize(fs));
    var list := Rest(s, f);
    var ms := ListFound(list);
    var n := f + ReadList(list).used;
    Rest2(s, f, ReadList(list).used);
    NoFills(Rest(s, n));
    CharAt(s, 0, if both then '&' else '|');
    WholeRest(s);
    b := JunctionBody(both, fs, ms);
    BodyAssembled(if both then "&" else "|", Concat(fs), MembersText(ms), Rest(s, n));
  }

  lemma BodyAssembled(sign: string, w: string, more: string, end: string)
    ensures sign + (w + (more + end)) == sign + w + more + end
  {}

  lemma {:induction false} NotFound(s: string) returns (b: Body)
    requires ReadNot(s).Got?
    ensures IsBody(b) && ReadNot(s).node == Flt(Meant(b)) && s == BodyText(b) + Rest(s, ReadNot(s).used)
    decreases |s|, 2
  {
    hide ReadFilter, Rest, Fills, CharIs, Concat, MemberText, NoFill, IsMember, IsFill;
    var fs := Fills(Rest(s, 1));
    FillsFound(Rest(s, 1));
    var f := 1 + FillsSize(fs);
    Rest2(s, 1, FillsSize(fs));
    var inner := Rest(s, f);
    var m := FilterFound(inner);
    NoFills(inner);
    NoText();
    assert "" + MemberText(m) == MemberText(m);
    var n := f + ReadFilter(inner).used;
    Rest2(s, f, ReadFilter(inner).used);
    NoFills(Rest(s, n));
    CharAt(s, 0, '!');
    WholeRest(s);
    b := NotBody(fs, m);
    MeantIsNoText(m.body);
    BodyAssembled("!", Concat(fs), MemberText(m), Rest(s, n));
  }

  lemma NoText()
    ensures Concat([]) == ""
  {}

  lemma {:induction false} ListFound(s: string) returns (ms: seq<Member>)
    requires ReadList(s).Got? && NoFill(s)
    ensures ms != [] && AreMembers(ms) && ReadList(s).node == Flts(MeantAll(ms))
    ensures s == MembersText(ms) + Rest(s, ReadList(s).used) && NoFill(Rest(s, ReadList(s).used))
    decreases |s|, 2
  {
    hide ReadFilter, Rest, Fills, Concat, MemberText, NoFill, IsMember, Meant;
    var x := ReadFilter(s);
    var m := FilterFound(s);
    NoFills(s);
    NoText();
    assert "" + MemberText(m) == MemberText(m);
    ms := [m];
    assert [m][1..] == [] && MembersText([m]) == MemberText(m) + "" && MemberText(m) + "" == MemberText(m);
    if ReadList(Rest(s, x.used)).Got? {
      var more := Rest(s, x.used);
      var rest := ListFound(more);
      Rest2(s, x.used, ReadList(more).used);
      ms := [m] + rest;
      assert ms[1..] == rest;
      var end := Rest(s, ReadList(s).used);
      assert MemberText(m) + (MembersText(rest) + end) == MemberText(m) + MembersText(rest) + end;
    }
  }

  // -------------------------------------------------- the language

  /** White space and a filter in parentheses, or white space and an item. */
  ghost predicate IsFilterText(s: string, f: Filter) { IsWholeFilter(s, f) || IsBareItem(s, f) }

  ghost predicate IsWholeFilter(s: string, f: Filter) {
    exists fs, m :: AreFills(fs) && IsMember(m) && s == Concat(fs) + MemberText(m) && f == Meant(m.body)
  }

  ghost predicate IsBareItem(s: string, f: Filter) {
    exists fs, b :: AreFills(fs) && IsBody(b) && b.ItemBody? && s == Concat(fs) + BodyText(b) && f == Meant(b)
  }

  /** Parser.parse accepts exactly these texts, and gives what they stand for. */
  lemma ParsesExactly(s: string, f: Filter)
    ensures ParseText(s) == Parsed(f) <==> IsFilterText(s, f)
  {
    hide ReadFilter, ReadFilterItem, IsBody, IsMember, Meant, BodyText, MemberText, Concat, AreFills;
    if ParseText(s) == Parsed(f) { TextFound(s, f); }
    if IsWholeFilter(s, f) {
      var fs, m :| AreFills(fs) && IsMember(m) && s == Concat(fs) + MemberText(m) && f == Meant(m.body);
      WholeRead(fs, m);
    }
    if IsBareItem(s, f) {
      var fs, b :| AreFills(fs) && IsBody(b) && b.ItemBody? && s == Concat(fs) + BodyText(b) && f == Meant(b);
      BareRead(fs, b);
    }
  }

  lemma TextFound(s: string, f: Filter)
    requires ParseText(s) == Parsed(f)
    ensures IsFilterText(s, f)
  {
    hide ReadFilter, ReadItem, IsBody, IsMember, Meant, BodyText, MemberText, Concat, Fills, Rest, AreFills, FilterOf;
    NothingLeft(s);
    if ReadFilter(s).Got? {
      var m := FilterFound(s);
      NoEnd(Concat(Fills(s)) + MemberText(m));
    } else {
      var fs := Fills(s);
      var inner := Rest(s, FillsSize(fs));
      FillsFound(s);
      var b := ItemFound(inner);
      Rest2(s, FillsSize(fs), ReadItem(inner).used);
      MeantIsNoText(b);
      NoEnd(BodyText(b));
    }
  }

  lemma NothingLeft(s: string)
    ensures Rest(s, |s|) == ""
  {}

  lemma NoEnd(s: string)
    ensures s + "" == s
  {}

  lemma BehindFills(s: string, n: nat, t: string)
    requires n == FillsSize(Fills(s)) && Rest(s, n) == t && Fills(t) == []
    ensures ReadFilter(s) == match ReadFilter(t) case Failure => Failure case Got(node, used) => Got(node, n + used)
  {
    hide Fills, ReadComp, FilterOf, Rest;
    CharBehind(s, n, 0, '(');
    if CharIs(t, 0, '(') {
      Rest2(s, n, 1);
      var c := ReadComp(Rest(t, 1));
      if c.Got? {
        CharBehind(s, n, 1 + c.used, ')');
        if CharIs(t, 1 + c.used, ')') { Rest2(s, n, 2 + c.used); }
      }
    }
  }

  lemma CharBehind(s: string, n: nat, i: nat, c: char)
    requires n <= |s|
    ensures CharIs(Rest(s, n), i, c) == CharIs(s, n + i, c)
    ensures CharIs(Rest(s, n), i, c) ==> n + i < |s|
  {}

  lemma WholeRead(fs: seq<string>, m: Member)
    requires AreFills(fs) && IsMember(m)
    ensures ParseText(Concat(fs) + MemberText(m)) == Parsed(Meant(m.body))
  {
    hide ReadFilter, ReadFilterItem, IsMember, Meant, MemberText, Concat, Fills, Rest, AreFills, NoFill;
    var t := MemberText(m);
    var s := Concat(fs) + t;
    NoEnd(t);
    MemberOpens(m, "");
    FillsRead(fs, t);
    assert NoFill("") by { NoFillAtEnd(); }
    MemberReads(m, "");
    BehindFills(s, |Concat(fs)|, t);
  }

  lemma NoFillAtEnd()
    ensures NoFill("")
  {}

  lemma BareRead(fs: seq<string>, b: Body)
    requires AreFills(fs) && IsBody(b) && b.ItemBody?
    ensures ParseText(Concat(fs) + BodyText(b)) == Parsed(Meant(b))
  {
    hide ReadFilter, ReadItem, Concat, Fills, Rest, AreFills, NoFill, IsName, IsOid, OptionsText, AreOptions, GoodValue,
        GoodComp, FilterOf, CharIs;
    var t := BodyText(b);
    var s := Concat(fs) + t;
    AttrExactly(b.attr);
    AttrBeginsText(b.attr, OptionsText(b.options) + b.comp + b.val);
    assert b.attr + (OptionsText(b.options) + b.comp + b.val) == t;
    NoFillInFront(t);
    FillsRead(fs, t);
    NoFills(t);
    BehindFills(s, |Concat(fs)|, t);
    ItemBodyReads(b.attr, b.options, b.comp, b.val, "");
    NoEnd(t);
    MeantIsNoText(b);
  }

  lemma NoFillInFront(t: string)
    requires t != "" && IsAttrChar(t[0])
    ensures NoFill(t) && ReadFilter(t) == Failure
  {
    assert FillLen(t) == 0 by { assert |t| >= 2 ==> Sub(t, 0, 2)[0] == t[0]; }
    assert Fills(t) == [];
  }
}
