/** Parsing what was printed, with Parser.parse on the text as it is. */
module PrintParse {
  import opened FilterTree
  import opened FilterGrammar

  // -------------------------------------------------- what the grammar can read back

  /** Attribute names: a letter, colon or dot followed by letters, digits, colons, dots and
      hyphens; or numbers with dots between them. */
  predicate GoodAttr(a: string) { a != "" && AttrTypeLen(a) == |a| }

  predicate GoodComp(c: string) { c in {"=", "~=", ">=", "<="} }

  /** Values are not empty and have no closing parenthesis; stars stand only behind "=", and never
      next to each other. */
  predicate GoodValue(comp: string, v: string) {
    v != "" && Stars(v) && (comp != "=" ==> '*' !in v)
  }

  predicate Stars(v: string) {
    ')' !in v && forall k | 0 <= k < |v| - 1 :: !(v[k] == '*' && v[k + 1] == '*')
  }

  predicate GoodItem(t: Filter) { t.Item? && GoodAttr(t.attr) && GoodComp(t.comp) && GoodValue(t.comp, t.val) }

  predicate Good(t: Filter)
    decreases t
  {
    match t
    case Item(_, _, _) => GoodItem(t)
    case Group(op, fs) => fs != [] && (op == Not ==> |fs| == 1) && forall k | 0 <= k < |fs| :: Good(fs[k])
    case _ => false
  }

  predicate AllGood(ts: seq<Filter>) { forall k | 0 <= k < |ts| :: Good(ts[k]) }

  /** What parsing makes of a filter: a negated group is lost. */
  function Blur(t: Filter): Filter
    decreases t
  {
    match t
    case Group(Not, fs) => if |fs| == 1 && fs[0].Item? then t else Nothing
    case Group(op, fs) => Group(op, BlurAll(fs))
    case _ => t
  }

  function BlurAll(ts: seq<Filter>): (us: seq<Filter>)
    ensures |us| == |ts|
    decreases ts
  {
    if ts == [] then [] else [Blur(ts[0])] + BlurAll(ts[1..])
  }

  /** Every Not stands over an item. */
  predicate PlainNots(t: Filter)
    decreases t
  {
    t.Group? ==>
      if t.op == Not then |t.filters| == 1 && t.filters[0].Item?
      else forall k | 0 <= k < |t.filters| :: PlainNots(t.filters[k])
  }

  // -------------------------------------------------- texts

  lemma Behind(p: string, t: string)
    ensures Rest(p + t, |p|) == t && Sub(p + t, 0, |p|) == p
    ensures forall c :: CharIs(p + t, |p|, c) == CharIs(t, 0, c)
  {}

  lemma FirstOf(p: string, t: string)
    requires p != ""
    ensures forall c :: CharIs(p + t, 0, c) == CharIs(p, 0, c)
  {}

  // -------------------------------------------------- runs of characters

  /** The length of a run does not depend on what is behind the character that ends it. */
  lemma {:induction false} RunEnd(a: string, t: string, member: char -> bool)
    requires t != "" ==> !member(t[0])
    ensures Run(a + t, member) == Run(a, member)
    decreases |a|
  {
    if a == "" {
      assert a + t == t;
    } else {
      assert (a + t)[1..] == a[1..] + t && (a + t)[0] == a[0];
      RunEnd(a[1..], t, member);
    }
  }

  predicate EndsAttr(t: string) { t != "" && !IsAttrChar(t[0]) }

  lemma RestThen(a: string, n: nat, t: string)
    requires n <= |a|
    ensures Rest(a + t, n) == Rest(a, n) + t
  {}

  lemma {:induction false} DottedEnd(a: string, t: string)
    requires EndsAttr(t)
    ensures DottedLen(a + t) == DottedLen(a)
    decreases |a|
  {
    hide Run, Rest, CharIs;
    if a == "" {
      assert a + t == t;
      NoDot(t);
    } else {
      FirstOf(a, t);
      RestThen(a, 1, t);
      RunEnd(Rest(a, 1), t, IsDigit);
      var d := Run(Rest(a, 1), IsDigit);
      RestThen(a, 1 + d, t);
      DottedEnd(Rest(a, 1 + d), t);
    }
  }

  lemma NoDot(t: string)
    requires EndsAttr(t)
    ensures DottedLen(t) == DottedLen("") == 0
  {}

  lemma AttrEnd(a: string, t: string)
    requires EndsAttr(t)
    ensures AttrTypeLen(a + t) == AttrTypeLen(a)
  {
    hide Run, DottedLen;
    RunEnd(a, t, IsDigit);
    var d := Run(a, IsDigit);
    assert Rest(a + t, d) == Rest(a, d) + t;
    DottedEnd(Rest(a, d), t);
    if a == "" {
      assert a + t == t;
    } else {
      assert (a + t)[0] == a[0] && Rest(a + t, 1) == Rest(a, 1) + t;
      RunEnd(Rest(a, 1), t, IsAttrChar);
    }
  }

  // -------------------------------------------------- values

  predicate EndsValue(t: string) { t != "" && t[0] == ')' }

  /** An item can also end where the text ends. */
  predicate EndsItem(t: string) { t == "" || EndsValue(t) }

  lemma ValueEnd(v: string, t: string)
    requires EndsItem(t)
    ensures ValueLen(v + t) == ValueLen(v)
  {
    RunEnd(v, t, IsValueChar);
  }

  lemma StarFirst(v: string)
    requires Stars(v)
    ensures var k := ValueLen(v); k == |v| <==> '*' !in v
    ensures var k := ValueLen(v); k < |v| ==> v[k] == '*' && Stars(v[k + 1..]) && !CharIs(v[k + 1..], 0, '*')
  {
    var k := ValueLen(v);
    if k < |v| {
      assert v[k] in v;
      var b := v[k + 1..];
      assert forall c | c in b :: c in v;
      assert forall j | 0 <= j < |b| :: b[j] == v[k + 1 + j];
    }
  }

  lemma {:induction false} PiecesEnd(b: string, t: string)
    requires Stars(b) && !CharIs(b, 0, '*') && EndsItem(t)
    ensures PiecesLen(b + t) <= |b|
    ensures PiecesLen(b + t) + ValueLen(Rest(b + t, PiecesLen(b + t))) == |b|
    decreases |b|
  {
    hide ValueLen, Rest;
    var k := ValueLen(b);
    ValueEnd(b, t);
    StarFirst(b);
    if k == |b| {
      Behind(b, t);
      WholeRest(b + t);
    } else {
      StarsLater(b, k);
      Skip(b, k + 1, t);
      PiecesEnd(b[k + 1..], t);
      Rest2(b + t, k + 1, PiecesLen(b[k + 1..] + t));
    }
  }

  lemma StarsLater(b: string, k: nat)
    requires k == ValueLen(b) < |b| && b[k] == '*' && !CharIs(b, 0, '*')
    ensures k > 0
  {}

  lemma WholeRest(s: string)
    ensures Rest(s, 0) == s
  {}

  lemma Skip(b: string, n: nat, t: string)
    requires n <= |b|
    ensures Rest(b + t, n) == b[n..] + t
  {}

  lemma Rest2(s: string, i: nat, n: nat)
    requires i + n <= |s|
    ensures Rest(Rest(s, i), n) == Rest(s, i + n)
  {}

  lemma WildcardEnd(v: string, t: string)
    requires Stars(v) && EndsItem(t)
    ensures '*' in v ==> WildcardLen(v + t) == |v|
    ensures '*' !in v ==> WildcardLen(v + t) == 0 && ValueLen(v + t) == |v|
  {
    hide ValueLen, Rest;
    var k := ValueLen(v);
    ValueEnd(v, t);
    StarFirst(v);
    Skip(v, k, t);
    if k == |v| {
      assert v[k..] + t == t;
    } else {
      var b := v[k + 1..];
      Skip(v, k + 1, t);
      Rest2(v + t, k, 1);
      PiecesEnd(b, t);
      Rest2(v + t, k + 1, PiecesLen(b + t));
    }
  }

  // -------------------------------------------------- items

  lemma CompReads(c: string, t: string)
    requires GoodComp(c)
    ensures CompLen(c + t) == |c| && EndsAttr(c + t)
    ensures forall x :: CharIs(c + t, 0, x) == (x == c[0])
    ensures c != "=" ==> c[0] != '='
  {
    assert Sub(c + t, 0, |c|) == c;
    if |c| == 2 { assert Sub(c + t, 0, 1) == [c[0]]; }
  }

  lemma AttrReads(a: string, t: string)
    requires GoodAttr(a) && EndsAttr(t) && t[0] != ';'
    ensures AttrTypeLen(a + t) == |a| == DescriptionLen(a + t)
  {
    hide AttrTypeLen;
    AttrEnd(a, t);
    Behind(a, t);
  }

  /** The pieces of a printed item, by position. */
  lemma ItemText(a: string, c: string, v: string, t: string)
    ensures var s := a + (c + (v + t));
            && Sub(s, 0, |a|) == a && Rest(s, |a|) == c + (v + t)
            && Sub(s, |a|, |a| + |c|) == c && Rest(s, |a| + |c|) == v + t
            && Sub(s, |a| + |c|, |a| + |c| + |v|) == v
            && s == a + c + v + t
  {}

  lemma ItemReads(t: Filter, tail: string)
    requires GoodItem(t) && EndsValue(tail)
    ensures ReadItem(t.attr + t.comp + t.val + tail) == Got(Flt(t), |t.attr + t.comp + t.val|)
  {
    hide AttrTypeLen, DescriptionLen, CompLen, ValueLen, WildcardLen, Rest, Sub;
    var a, c, v := t.attr, t.comp, t.val;
    var s := a + (c + (v + tail));
    ItemText(a, c, v, tail);
    CompReads(c, v + tail);
    AttrReads(a, c + (v + tail));
    Behind(a, c + (v + tail));
    WildcardEnd(v, tail);
    assert ReadWildcard(s) == if '*' in v then Got(Flt(t), |a| + |c| + |v|) else Failure;
    if '*' !in v {
      assert ReadSimple(s) == Got(Flt(t), |a| + |c| + |v|);
    }
  }

  // -------------------------------------------------- filters

  predicate NoFill(t: string) { FillLen(t) == 0 }

  lemma NoFillAt(c: char, t: string)
    requires c == '(' || c == ')'
    ensures NoFill([c] + t) && Fills([c] + t) == []
  {
    var s := [c] + t;
    if |s| >= 2 { assert Sub(s, 0, 2)[0] == c; }
  }

  lemma NoFills(t: string)
    requires NoFill(t)
    ensures Fills(t) == [] && FillsSize(Fills(t)) == 0
  {}

  /** What stands between the parentheses of a printed filter. */
  function Body(t: Filter): string {
    match t
    case Item(a, c, v) => a + c + v
    case Group(op, fs) => OpText(op) + PrintAll(fs)
    case _ => ""
  }

  lemma PrintIsBody(t: Filter)
    requires t.Item? || t.Group?
    ensures Print(t) == "(" + Body(t) + ")"
  {
    if t.Group? {
      assert "(" + OpText(t.op) + PrintAll(t.filters) + ")" == "(" + (OpText(t.op) + PrintAll(t.filters)) + ")";
    }
  }

  lemma Enclosed(body: string, tail: string, f: Filter)
    requires NoFill(tail) && ReadComp(body + (")" + tail)) == Got(Flt(f), |body|)
    ensures ReadFilter("(" + body + ")" + tail) == Got(Flt(FilterOf(Flt(f))), |body| + 2)
  {
    hide ReadFilter, ReadComp, Rest, Fills, FilterOf, CharIs;
    EnclosedText(body, tail);
    NoFills(tail);
    Encloses("(" + body + ")" + tail, body + (")" + tail), |body|, tail, f);
  }

  lemma Encloses(s: string, inner: string, n: nat, tail: string, f: Filter)
    requires n + 2 <= |s| && Fills(s) == [] && CharIs(s, 0, '(') && Rest(s, 1) == inner && CharIs(s, 1 + n, ')')
    requires ReadComp(inner) == Got(Flt(f), n) && Rest(s, n + 2) == tail && Fills(tail) == []
    ensures ReadFilter(s) == Got(Flt(FilterOf(Flt(f))), n + 2)
  {
    hide ReadComp, Rest, Fills, FilterOf, CharIs;
  }

  lemma EnclosedText(body: string, tail: string)
    ensures var s := "(" + body + ")" + tail;
            && Fills(s) == [] && CharIs(s, 0, '(') && Rest(s, 1) == body + (")" + tail)
            && CharIs(s, 1 + |body|, ')') && Rest(s, |body| + 2) == tail
  {
    hide Fills;
    var inner := body + (")" + tail);
    assert "(" + body + ")" + tail == ['('] + inner;
    NoFillAt('(', inner);
  }

  lemma Single(c: char)
    ensures CharIs([c], 0, c)
  {}

  /** Parsing a printed filter takes exactly its text. */
  lemma {:induction false} FilterReads(t: Filter, tail: string)
    requires Good(t) && NoFill(tail)
    ensures ReadFilter(Print(t) + tail) == Got(Flt(Blur(t)), |Print(t)|)
    decreases t, 3
  {
    hide ReadFilter, ReadComp, Print;
    PrintIsBody(t);
    BodyReads(t, ")" + tail);
    Enclosed(Body(t), tail, Blur(t));
  }

  lemma {:induction false} BodyReads(t: Filter, tail: string)
    requires Good(t) && EndsValue(tail)
    ensures ReadComp(Body(t) + tail) == Got(Flt(Blur(t)), |Body(t)|)
    decreases t, 2
  {
    hide ReadJunction, ReadNot, ReadItem, PrintAll, BlurAll;
    match t {
      case Item(a, c, v) =>
        ItemReads(t, tail);
        NoSign(t, tail);
      case Group(op, fs) => {
        assert OpText(op) + PrintAll(fs) + tail == OpText(op) + (PrintAll(fs) + tail);
        OtherSigns(op, PrintAll(fs) + tail);
        if op == Not {
          NotReads(fs[0], tail);
          PrintOne(fs);
          assert fs == [fs[0]] && !Blur(fs[0]).Fill? && (Blur(fs[0]).Item? ==> fs[0].Item?);
        } else {
          ListReads(fs, tail);
          JunctionReads(op, fs, tail);
        }
      }
      case _ =>
    }
  }

  lemma PrintOne(fs: seq<Filter>)
    requires |fs| == 1
    ensures PrintAll(fs) == Print(fs[0])
  {
    assert fs[1..] == [];
    assert Print(fs[0]) + "" == Print(fs[0]);
  }

  /** An item does not begin with the sign of a group. */
  lemma NoSign(t: Filter, tail: string)
    requires GoodItem(t)
    ensures forall op :: op != Not ==> ReadJunction(op, t.attr + t.comp + t.val + tail) == Failure
    ensures ReadNot(t.attr + t.comp + t.val + tail) == Failure
  {
    var a, s := t.attr, t.attr + t.comp + t.val + tail;
    assert s[0] == a[0];
    AttrBegins(a);
  }

  lemma AttrBegins(a: string)
    requires GoodAttr(a)
    ensures IsAttrChar(a[0])
  {}

  lemma OtherSigns(op: Op, s: string)
    ensures op != And ==> ReadJunction(And, OpText(op) + s) == Failure
    ensures op == Not ==> ReadJunction(Or, OpText(op) + s) == Failure
  {
    FirstOf(OpText(op), s);
  }

  lemma {:induction false} NotReads(x: Filter, tail: string)
    requires Good(x) && EndsValue(tail)
    ensures ReadNot("!" + (Print(x) + tail)) == Got(Flt(Negation(Flt(Blur(x)))), 1 + |Print(x)|)
    decreases x, 4
  {
    hide ReadFilter, Print, Fills, Rest, CharIs;
    var inner := Print(x) + tail;
    EndNoFill(tail);
    FilterReads(x, tail);
    Single('!');
    FirstOf("!", inner);
    Behind("!", inner);
    OpenNoFill(x, tail);
    assert "!" + inner == "!" + Print(x) + tail;
    Behind("!" + Print(x), tail);
    WholeRest(inner);
  }

  lemma EndNoFill(tail: string)
    requires EndsValue(tail)
    ensures NoFill(tail) && Fills(tail) == []
  {
    assert tail == [')'] + tail[1..];
    NoFillAt(')', tail[1..]);
  }

  lemma OpenNoFill(x: Filter, tail: string)
    requires Good(x)
    ensures NoFill(Print(x) + tail) && Fills(Print(x) + tail) == []
  {
    PrintIsBody(x);
    assert Print(x) + tail == ['('] + (Body(x) + ")" + tail);
    NoFillAt('(', Body(x) + ")" + tail);
  }

  lemma JunctionReads(op: Op, fs: seq<Filter>, tail: string)
    requires op != Not && fs != [] && AllGood(fs) && EndsValue(tail)
    requires ReadList(PrintAll(fs) + tail) == Got(Flts(BlurAll(fs)), |PrintAll(fs)|)
    ensures ReadJunction(op, OpText(op) + (PrintAll(fs) + tail)) == Got(Flt(Group(op, BlurAll(fs))), 1 + |PrintAll(fs)|)
  {
    hide ReadList, Print, Fills, Rest, CharIs, OpText, BlurAll;
    var inner := PrintAll(fs) + tail;
    var sign := OpText(op);
    Single(sign[0]);
    assert sign == [sign[0]];
    FirstOf(sign, inner);
    Behind(sign, inner);
    ListNoFill(fs, tail);
    NoFills(inner);
    EndNoFill(tail);
    WholeRest(inner);
    assert sign + inner == sign + PrintAll(fs) + tail;
    Behind(sign + PrintAll(fs), tail);
  }

  lemma {:induction false} ListReads(ts: seq<Filter>, tail: string)
    requires ts != [] && AllGood(ts) && EndsValue(tail)
    ensures ReadList(PrintAll(ts) + tail) == Got(Flts(BlurAll(ts)), |PrintAll(ts)|)
    decreases ts, 4
  {
    hide ReadFilter, Print, Fills, Rest;
    var x, rest := ts[0], ts[1..];
    var more := PrintAll(rest) + tail;
    PrintAllCons(ts, tail);
    Behind(Print(x), more);
    if rest == [] {
      assert more == tail;
      EndNoFill(tail);
      FilterReads(x, tail);
      NoMore(tail);
    } else {
      ListNoFill(rest, tail);
      FilterReads(x, more);
      ListReads(rest, tail);
    }
  }

  lemma NoMore(tail: string)
    requires EndsValue(tail)
    ensures ReadFilter(tail) == Failure && ReadList(tail) == Failure
  {
    EndNoFill(tail);
  }

  // -------------------------------------------------- the round trip

  lemma {:induction false} BlurExactly(t: Filter)
    requires Good(t)
    ensures Blur(t) == t <==> PlainNots(t)
    decreases t, 0
  {
    if t.Group? && t.op != Not { BlurAllExactly(t.filters); }
  }

  lemma {:induction false} BlurAllExactly(ts: seq<Filter>)
    requires AllGood(ts)
    ensures BlurAll(ts) == ts <==> forall k | 0 <= k < |ts| :: PlainNots(ts[k])
    decreases ts, 1
  {
    if ts != [] {
      BlurExactly(ts[0]);
      BlurAllExactly(ts[1..]);
      assert forall k | 0 < k < |ts| :: ts[k] == ts[1..][k - 1];
      assert BlurAll(ts) == [Blur(ts[0])] + BlurAll(ts[1..]);
      assert ts == [ts[0]] + ts[1..];
    }
  }

  /** Parsing takes the whole of a printed filter and gives it back, but for negated groups. */
  lemma ParsePrinted(t: Filter)
    requires Good(t)
    ensures ParseText(Print(t)) == Parsed(Blur(t))
  {
    hide ReadFilter, Print;
    FilterReads(t, "");
    assert Print(t) + "" == Print(t);
  }

  // -------------------------------------------------- every parse is of this kind

  lemma {:induction false} RunOfPrefix(s: string, n: nat, member: char -> bool)
    requires n <= |s|
    ensures Run(Sub(s, 0, n), member) == if Run(s, member) <= n then Run(s, member) else n
    decreases n
  {
    if n > 0 && member(s[0]) {
      assert Sub(s, 0, n)[1..] == Sub(s[1..], 0, n - 1) && Sub(s, 0, n)[0] == s[0];
      RunOfPrefix(s[1..], n - 1, member);
    }
  }

  lemma PrefixRest(s: string, i: nat, n: nat)
    requires i <= n <= |s|
    ensures Rest(Sub(s, 0, n), i) == Sub(Rest(s, i), 0, n - i)
    ensures forall c :: i < n ==> CharIs(Sub(s, 0, n), i, c) == CharIs(s, i, c)
  {}

  lemma {:induction false} DottedOfPrefix(s: string)
    ensures DottedLen(Sub(s, 0, DottedLen(s))) == DottedLen(s)
    decreases |s|
  {
    hide Run, Rest, Sub, CharIs;
    var n := DottedLen(s);
    if n > 0 {
      var p := Sub(s, 0, n);
      var d := Run(Rest(s, 1), IsDigit);
      PrefixRest(s, 0, n);
      PrefixRest(s, 1, n);
      RunOfPrefix(Rest(s, 1), n - 1, IsDigit);
      PrefixRest(s, 1 + d, n);
      DottedOfPrefix(Rest(s, 1 + d));
    } else {
      NothingDotted(Sub(s, 0, n));
    }
  }

  lemma NothingDotted(s: string)
    requires |s| == 0
    ensures DottedLen(s) == 0
  {}

  /** The attribute that was read is good. */
  lemma AttrOfPrefix(s: string)
    requires AttrTypeLen(s) > 0
    ensures GoodAttr(Sub(s, 0, AttrTypeLen(s)))
  {
    hide Run, Rest, Sub, DottedLen;
    var n := AttrTypeLen(s);
    var p := Sub(s, 0, n);
    var d := Run(s, IsDigit);
    RunOfPrefix(s, n, IsDigit);
    if OidLen(s) > 0 {
      PrefixRest(s, d, n);
      DottedOfPrefix(Rest(s, d));
    } else {
      PrefixRest(s, 0, n);
      PrefixRest(s, 1, n);
      RunOfPrefix(Rest(s, 1), n - 1, IsAttrChar);
      assert p[0] == s[0] by { assert CharIs(p, 0, s[0]); }
    }
  }

  lemma ValueOfRun(u: string)
    ensures Stars(Sub(u, 0, ValueLen(u))) && '*' !in Sub(u, 0, ValueLen(u))
  {}

  lemma StarsJoin(a: string, b: string)
    requires Stars(a) && '*' !in a && Stars(b) && !CharIs(b, 0, '*')
    ensures Stars(a + "*" + b)
  {
    var v := a + "*" + b;
    forall k | 0 <= k < |v| - 1 ensures !(v[k] == '*' && v[k + 1] == '*') {
      if k < |a| { assert v[k] == a[k] && a[k] in a; }
      else if k > |a| { assert v[k] == b[k - |a| - 1] && v[k + 1] == b[k - |a|]; }
    }
  }

  lemma Parts(u: string, v: nat, n: nat)
    requires v < n <= |u| && CharIs(u, v, '*')
    ensures Sub(u, 0, n) == Sub(u, 0, v) + "*" + Sub(Rest(u, v + 1), 0, n - v - 1)
  {}

  lemma {:induction false} PiecesStars(u: string)
    ensures PiecesLen(u) + ValueLen(Rest(u, PiecesLen(u))) <= |u|
    ensures var w := Sub(u, 0, PiecesLen(u) + ValueLen(Rest(u, PiecesLen(u)))); Stars(w) && !CharIs(w, 0, '*')
    decreases |u|
  {
    hide ValueLen, Rest, Sub, Stars;
    var v := ValueLen(u);
    var p := PiecesLen(u);
    var n := p + ValueLen(Rest(u, p));
    ValueOfRun(u);
    WholeRest(u);
    if p == 0 {
      NoStarFirst(Sub(u, 0, v));
    } else {
      var b := Rest(u, v + 1);
      PiecesStars(b);
      Rest2(u, v + 1, PiecesLen(b));
      Parts(u, v, n);
      StarsJoin(Sub(u, 0, v), Sub(b, 0, n - v - 1));
      NoStarFirst(Sub(u, 0, v));
      FirstOf(Sub(u, 0, v), "*" + Sub(b, 0, n - v - 1));
      assert Sub(u, 0, v) + "*" + Sub(b, 0, n - v - 1) == Sub(u, 0, v) + ("*" + Sub(b, 0, n - v - 1));
    }
  }

  lemma NoStarFirst(s: string)
    requires '*' !in s
    ensures !CharIs(s, 0, '*')
  {}

  lemma WildcardStars(u: string)
    requires WildcardLen(u) > 0
    ensures Stars(Sub(u, 0, WildcardLen(u)))
  {
    hide ValueLen, Rest, Sub, Stars;
    var v, n := ValueLen(u), WildcardLen(u);
    var b := Rest(u, v + 1);
    CharOfRest(u, v);
    Rest2(u, v, 1);
    ValueOfRun(u);
    PiecesStars(b);
    Rest2(u, v + 1, PiecesLen(b));
    Parts(u, v, n);
    StarsJoin(Sub(u, 0, v), Sub(b, 0, n - v - 1));
  }

  lemma CharOfRest(u: string, v: nat)
    requires v <= |u|
    ensures CharIs(Rest(u, v), 0, '*') == CharIs(u, v, '*')
  {}

  lemma CompOf(s: string)
    requires CompLen(s) > 0
    ensures GoodComp(Sub(s, 0, CompLen(s)))
  {}

  lemma SubOfRest(s: string, i: nat, n: nat)
    requires i + n <= |s|
    ensures Sub(s, i, i + n) == Sub(Rest(s, i), 0, n)
  {}

  lemma ItemProduced(s: string)
    requires ReadItem(s).Got?
    ensures ReadItem(s).node.Flt? && GoodItem(ReadItem(s).node.filter)
  {
    hide AttrTypeLen, CompLen, ValueLen, WildcardLen, Rest, Sub, Stars, GoodAttr, GoodComp;
    var a := DescriptionLen(s);
    AttrOfPrefix(s);
    if ReadWildcard(s).Got? {
      var w := WildcardLen(Rest(s, a + 1));
      WildcardStars(Rest(s, a + 1));
      SubOfRest(s, a + 1, w);
      assert GoodComp("=") by { EqualIsGood(); }
    } else {
      var c := CompLen(Rest(s, a));
      CompOf(Rest(s, a));
      SubOfRest(s, a, c);
      ValueOfRun(Rest(s, a + c));
      SubOfRest(s, a + c, ValueLen(Rest(s, a + c)));
    }
  }

  lemma EqualIsGood()
    ensures GoodComp("=")
  {}

  /** The filters that parsing can give. */
  predicate Produced(t: Filter)
    decreases t
  {
    match t
    case Item(_, _, _) => GoodItem(t)
    case Group(Not, fs) => |fs| == 1 && GoodItem(fs[0])
    case Group(_, fs) => fs != [] && forall k | 0 <= k < |fs| :: Produced(fs[k])
    case _ => true
  }

  predicate AllProduced(ts: seq<Filter>) { forall k | 0 <= k < |ts| :: Produced(ts[k]) }

  lemma {:induction false} FillsProduced(fs: seq<string>)
    ensures AllProduced(FillNodes(fs)) && |FillNodes(fs)| == |fs|
  {
    if fs != [] {
      FillsProduced(fs[1..]);
    }
  }

  lemma {:induction false} FilterProduced(s: string)
    requires ReadFilter(s).Got?
    ensures Produced(ReadFilter(s).node.filter)
    decreases |s|, 1
  {
    hide Fills, Rest, CharIs, ReadComp, Produced;
    var f := FillsSize(Fills(s));
    CompProduced(Rest(s, f + 1));
    NothingProduced();
  }

  lemma NothingProduced()
    ensures Produced(Nothing)
  {}

  lemma {:induction false} CompProduced(s: string)
    requires ReadComp(s).Got?
    ensures ReadComp(s).node.Flt? && Produced(ReadComp(s).node.filter)
    decreases |s|, 3
  {
    hide ReadJunction, ReadNot, ReadItem;
    if ReadJunction(And, s).Got? {
      JunctionProduced(And, s);
    } else if ReadJunction(Or, s).Got? {
      JunctionProduced(Or, s);
    } else if ReadNot(s).Got? {
      NotProduced(s);
    } else {
      ItemProduced(s);
    }
  }

  lemma {:induction false} JunctionProduced(op: Op, s: string)
    requires op != Not && ReadJunction(op, s).Got?
    ensures ReadJunction(op, s).node.Flt? && Produced(ReadJunction(op, s).node.filter)
    decreases |s|, 2
  {
    hide ReadList, Rest, Fills, FillNodes, CharIs;
    var fills := Fills(Rest(s, 1));
    var f := 1 + FillsSize(fills);
    ListProduced(Rest(s, f));
    FillsProduced(fills);
  }

  lemma {:induction false} NotProduced(s: string)
    requires ReadNot(s).Got?
    ensures ReadNot(s).node.Flt? && Produced(ReadNot(s).node.filter)
    decreases |s|, 2
  {
    hide ReadFilter, Rest, Fills, CharIs;
    FilterProduced(Rest(s, 1 + FillsSize(Fills(Rest(s, 1)))));
  }

  lemma {:induction false} ListProduced(s: string)
    requires ReadList(s).Got?
    ensures ReadList(s).node.filters != [] && AllProduced(ReadList(s).node.filters)
    decreases |s|, 2
  {
    hide ReadFilter, Rest, Produced;
    var x := ReadFilter(s);
    FilterProduced(s);
    if ReadList(Rest(s, x.used)).Got? {
      ListProduced(Rest(s, x.used));
    }
  }

  lemma {:induction false} ProperIsGood(t: Filter)
    requires Proper(t)
    ensures Produced(t) <==> Good(t) && PlainNots(t)
    decreases t
  {
    if t.Group? {
      forall k | 0 <= k < |t.filters|
        ensures Produced(t.filters[k]) <==> Good(t.filters[k]) && PlainNots(t.filters[k])
      {
        ProperIsGood(t.filters[k]);
      }
    }
  }

  /** For every filter that can be built: parsing its text gives it back if and only if its
      groups are not empty, its attributes, comparisons and values are of the kind above, and
      every Not stands over an item. */
  lemma RoundTripExactly(t: Filter)
    requires Proper(t)
    ensures ParseText(Print(t)) == Parsed(t) <==> Good(t) && PlainNots(t)
  {
    hide ReadFilter, ReadFilterItem, Print, Good, PlainNots, Produced, Blur;
    ProperIsGood(t);
    if Good(t) && PlainNots(t) {
      ParsePrinted(t);
      BlurExactly(t);
    } else if ParseText(Print(t)) == Parsed(t) {
      if ReadFilter(Print(t)).Got? {
        FilterProduced(Print(t));
      } else {
        ItemRootProduced(Print(t));
      }
    }
  }

  lemma ItemRootProduced(s: string)
    requires ReadFilterItem(s).Got?
    ensures Produced(ReadFilterItem(s).node.filter)
  {
    hide ReadItem, Rest, Fills;
    ItemProduced(Rest(s, FillsSize(Fills(s))));
  }

  // -------------------------------------------------- what is lost

  /** A Not over a group is read as None, whatever the group. */
  lemma NegatedGroupIsLost(g: Filter)
    requires g.Group? && Good(g)
    ensures ParseText(Print(Group(Not, [g]))) == Parsed(Nothing)
  {
    hide Print, ParseText;
    assert Good(Group(Not, [g])) && Blur(Group(Not, [g])) == Nothing;
    ParsePrinted(Group(Not, [g]));
  }

  predicate Blank(w: string) { FillsSize(Fills(w)) == |w| }

  lemma {:induction false} BlankThen(w: string, t: string)
    requires Blank(w) && NoFill(t)
    ensures Fills(w + t) == Fills(w)
    decreases |w|
  {
    var n := FillLen(w);
    if n == 0 {
      assert w + t == t;
    } else {
      FillLenThen(w, t);
      Skip(w, n, t);
      assert Sub(w + t, 0, n) == Sub(w, 0, n);
      assert Rest(w, n) == w[n..];
      assert Blank(w[n..]) by { assert Fills(w) == [Sub(w, 0, n)] + Fills(Rest(w, n)); }
      BlankThen(w[n..], t);
    }
  }

  lemma FillLenThen(w: string, t: string)
    requires FillLen(w) > 0
    ensures FillLen(w + t) == FillLen(w)
  {
    assert (w + t)[0] == w[0];
    if |w| >= 2 { assert Sub(w + t, 0, 2) == Sub(w, 0, 2); }
    if SepLen(w) == 2 { assert Sub(w, 0, 2)[0] == '\r' && Sub(w + t, 0, 2)[0] == '\r'; }
    if |w + t| >= 2 { assert Sub(w + t, 0, 2)[0] == w[0]; }
  }

  /** White space directly behind the sign of an And or Or takes the place of its members. */
  lemma FillTakesOver(op: Op, w: string, fs: seq<Filter>)
    requires op != Not && w != "" && Blank(w) && fs != [] && AllGood(fs)
    ensures ParseText("(" + (OpText(op) + w + PrintAll(fs)) + ")") == Parsed(Group(op, FillNodes(Fills(w))))
    ensures !Proper(Group(op, FillNodes(Fills(w))))
  {
    hide ReadFilter, ReadComp, ReadFilterItem, Print, PrintAll, Fills, FillNodes, OpText;
    var body := OpText(op) + w + PrintAll(fs);
    var g := Group(op, FillNodes(Fills(w)));
    FillComp(op, w, fs);
    TextEnd(body);
    assert NoFill("");
    Enclosed(body, "", g);
    FillsThere(w);
  }

  lemma TextEnd(body: string)
    ensures "(" + body + ")" + "" == "(" + body + ")" && body + (")" + "") == body + ")"
  {}

  lemma FillComp(op: Op, w: string, fs: seq<Filter>)
    requires op != Not && w != "" && Blank(w) && fs != [] && AllGood(fs)
    ensures ReadComp(OpText(op) + w + PrintAll(fs) + ")")
         == Got(Flt(Group(op, FillNodes(Fills(w)))), |OpText(op) + w + PrintAll(fs)|)
  {
    hide ReadJunction, ReadComp, Print, PrintAll, Fills, FillNodes, OpText;
    var more := w + (PrintAll(fs) + ")");
    assert OpText(op) + w + PrintAll(fs) + ")" == OpText(op) + more;
    FillJunction(op, w, fs, ")");
    OtherSigns(op, more);
    FirstJunction(op, OpText(op) + more, Group(op, FillNodes(Fills(w))), 1 + |w| + |PrintAll(fs)|);
  }

  lemma FirstJunction(op: Op, s: string, g: Filter, n: nat)
    requires op != Not && ReadJunction(op, s) == Got(Flt(g), n) && (op == Or ==> ReadJunction(And, s) == Failure)
    ensures ReadComp(s) == Got(Flt(g), n)
  {
    hide ReadJunction, ReadNot, ReadItem;
  }

  lemma FillsThere(w: string)
    requires w != "" && Blank(w)
    ensures Fills(w) != [] && |FillNodes(Fills(w))| > 0 && FillNodes(Fills(w))[0].Fill?
  {}

  lemma FillJunction(op: Op, w: string, fs: seq<Filter>, tail: string)
    requires op != Not && w != "" && Blank(w) && fs != [] && AllGood(fs) && EndsValue(tail)
    ensures ReadJunction(op, OpText(op) + (w + (PrintAll(fs) + tail)))
         == Got(Flt(Group(op, FillNodes(Fills(w)))), 1 + |w| + |PrintAll(fs)|)
  {
    hide ReadJunction, PrintAll, Fills, FillNodes, OpText;
    var inner := PrintAll(fs) + tail;
    ListNoFill(fs, tail);
    BlankThen(w, inner);
    ListReads(fs, tail);
    EndNoFill(tail);
    JunctionText(OpText(op), w, PrintAll(fs), tail);
    FillJunctionOf(op, OpText(op) + (w + inner), w, |PrintAll(fs)|, tail, w + inner, inner, BlurAll(fs));
  }

  lemma FillJunctionOf(op: Op, s: string, w: string, n: nat, tail: string, more: string, inner: string,
      list: seq<Filter>)
    requires w != "" && Blank(w) && Fills(more) == Fills(w) && ReadList(inner) == Got(Flts(list), n)
        && Fills(tail) == []
    requires 1 + |w| + n <= |s| && CharIs(s, 0, OpText(op)[0]) && Rest(s, 1) == more
    requires Rest(s, 1 + |w|) == inner && Rest(s, 1 + |w| + n) == tail
    ensures ReadJunction(op, s) == Got(Flt(Group(op, FillNodes(Fills(w)))), 1 + |w| + n)
  {
    hide ReadJunction, ReadList, Fills, FillsSize, FillNodes, OpText, Rest, CharIs;
    FillsThere(w);
    NoFillsSize();
    JunctionIs(op, s, Fills(w), |w|, more, inner, list, n, tail);
  }

  lemma NoFillsSize()
    ensures FillsSize([]) == 0
  {}

  lemma ListNoFill(fs: seq<Filter>, tail: string)
    requires fs != [] && AllGood(fs)
    ensures NoFill(PrintAll(fs) + tail)
  {
    hide Print, PrintAll, FillLen;
    PrintAllCons(fs, tail);
    OpenNoFill(fs[0], PrintAll(fs[1..]) + tail);
  }

  lemma PrintAllCons(fs: seq<Filter>, tail: string)
    requires fs != []
    ensures PrintAll(fs) + tail == Print(fs[0]) + (PrintAll(fs[1..]) + tail)
  {
    hide Print;
  }

  lemma JunctionText(sign: string, w: string, body: string, tail: string)
    requires |sign| == 1
    ensures var s := sign + (w + (body + tail));
            && CharIs(s, 0, sign[0]) && Rest(s, 1) == w + (body + tail)
            && |s| >= 1 + |w| + |body| && Rest(s, 1 + |w|) == body + tail && Rest(s, 1 + |w| + |body|) == tail
  {}

  lemma JunctionIs(op: Op, s: string, fills: seq<string>, f: nat, more: string, inner: string, list: seq<Filter>,
      n: nat, tail: string)
    requires f == FillsSize(fills) && 1 + f + n <= |s| && CharIs(s, 0, OpText(op)[0]) && Rest(s, 1) == more
        && Fills(more) == fills
    requires Rest(s, 1 + f) == inner && ReadList(inner) == Got(Flts(list), n)
    requires Rest(s, 1 + f + n) == tail && FillsSize(Fills(tail)) == 0
    ensures ReadJunction(op, s) == Got(Flt(Junction(op, fills, Flts(list))), 1 + f + n)
  {
    hide ReadList, Fills, FillsSize, Rest, CharIs, OpText, FillNodes, Junction;
  }
}
