/** query_syntax_converter: filters become the Filter of section 4.5.1 of RFC 4511. */
module Translation {
  import opened Bytes
  import opened Text
  import opened Unicode
  import opened FilterTree
  import opened Query

  // -------------------------------------------------- assertions and filters

  datatype Assertion =
    | Presence(attr: seq<byte>)
    | Equals(attr: seq<byte>, value: seq<byte>)
    | AtLeast(attr: seq<byte>, value: seq<byte>)
    | AtMost(attr: seq<byte>, value: seq<byte>)
    | Approx(attr: seq<byte>, value: seq<byte>)
    | Substring(attr: seq<byte>, initial: Option<seq<byte>>, any: seq<seq<byte>>, final: Option<seq<byte>>)
    | Extensible(rule: Option<seq<byte>>, typ: Option<seq<byte>>, value: seq<byte>, dnAttributes: bool)

  datatype Request = Leaf(assertion: Assertion) | AllOf(of: seq<Request>) | AnyOf(of: seq<Request>)
      | NotOf(not: Request)

  // -------------------------------------------------- the translation

  function Until(s: string, c: char): (k: nat)
    ensures k <= |s| && c !in s[..k] && (k < |s| ==> s[k] == c)
  {
    if s == "" || s[0] == c then 0
    else
      assert s[..1 + Until(s[1..], c)] == [s[0]] + s[1..][..Until(s[1..], c)];
      1 + Until(s[1..], c)
  }

  /** str.split(":") */
  function Colons(s: string): (ps: seq<string>)
    ensures ps != []
    decreases |s|
  {
    var k := Until(s, ':');
    if k == |s| then [s] else [s[..k]] + Colons(s[k + 1..])
  }

  predicate EndsInColon(attr: string) { attr != "" && attr[|attr| - 1] == ':' }

  /** The parts of a name that ends in a colon, without that colon. */
  function NameParts(attr: string): (ps: seq<string>)
    requires attr != ""
    ensures ps != []
  {
    Colons(attr[..|attr| - 1])
  }

  /** A name ends in a colon if that is its last character, and the parts are of what stands before. */
  lemma NameEnds(a: string, c: char)
    ensures EndsInColon(a + [c]) <==> c == ':'
    ensures NameParts(a + [c]) == Colons(a)
  {
    assert (a + [c])[..|a|] == a;
  }

  /** equality; None where an exception is raised, as it is for a name that ends in a colon and does not
      have exactly two parts. */
  function Equality(attr: string, value: string): Option<Assertion> {
    if attr == "" then None
    else if EndsInColon(attr) then
      var ps := NameParts(attr);
      var octets := Encoded(value);
      if |ps| != 2 || octets.None? then None
      else Some(Extensible(Some(Utf8(ps[1])), Some(Utf8(ps[0])), octets.value, false))
    else EqualityOf(Utf8(attr), value)
  }

  /** equality for an attribute that does not end in a colon. */
  function EqualityOf(attr: seq<byte>, value: string): Option<Assertion> {
    var n := |value|;
    if value == "*" then Some(Presence(attr))
    else if n > 0 && value[0] == '*' && value[n - 1] == '*' then
      var x := Encoded(value[1..n - 1]);
      if x.None? then None else Some(Substring(attr, None, [x.value], None))
    else if n > 0 && value[0] == '*' then
      var x := Encoded(value[1..]);
      if x.None? then None else Some(Substring(attr, None, [], Some(x.value)))
    else if n > 0 && value[n - 1] == '*' then
      var x := Encoded(value[..n - 1]);
      if x.None? then None else Some(Substring(attr, Some(x.value), [], None))
    else
      var x := Encoded(value);
      if x.None? then None else Some(Equals(attr, x.value))
  }

  function Compared(comp: string, attr: seq<byte>, value: seq<byte>): Option<Assertion> {
    if comp == "<=" then Some(AtMost(attr, value))
    else if comp == ">=" then Some(AtLeast(attr, value))
    else if comp == "~=" then Some(Approx(attr, value))
    else None
  }

  /** query_syntax_converter_inner; None where an exception is raised. */
  function Convert(t: Filter): Option<Request>
    decreases t
  {
    match t
    case Item(attr, comp, val) =>
      var a := if comp == "=" then Equality(attr, val)
               else if Encoded(val).None? then None else Compared(comp, Utf8(attr), Encoded(val).value);
      if a.None? then None else Some(Leaf(a.value))
    case Group(Not, fs) =>
      if fs == [] then None
      else
        var x := Convert(fs[0]);
        if x.None? then None else Some(NotOf(x.value))
    case Group(op, fs) =>
      var xs := ConvertAll(fs);
      if xs.None? then None else Some(if op == And then AllOf(xs.value) else AnyOf(xs.value))
    case _ => None
  }

  function ConvertAll(ts: seq<Filter>): Option<seq<Request>>
    decreases ts
  {
    if ts == [] then Some([])
    else
      var x, xs := Convert(ts[0]), ConvertAll(ts[1..]);
      if x.None? || xs.None? then None else Some([x.value] + xs.value)
  }

  // -------------------------------------------------- what filters mean

  /** Section 4.5.1.7 of RFC 4511: a filter is TRUE, FALSE or Undefined of an entry. */
  datatype Truth = True | False | Undefined

  function Both(a: Truth, b: Truth): Truth {
    if a.False? || b.False? then False else if a.True? && b.True? then True else Undefined
  }

  function Inverse(a: Truth): Truth { if a.True? then False else if a.False? then True else Undefined }

  function OneOf(a: Truth, b: Truth): Truth { Inverse(Both(Inverse(a), Inverse(b))) }

  function Evaluate(r: Request, holds: Assertion -> Truth): Truth
    decreases r
  {
    match r
    case Leaf(a) => holds(a)
    case AllOf(of) => EvaluateAll(of, holds)
    case AnyOf(of) => EvaluateAny(of, holds)
    case NotOf(x) => Inverse(Evaluate(x, holds))
  }

  function EvaluateAll(rs: seq<Request>, holds: Assertion -> Truth): Truth
    decreases rs
  {
    if rs == [] then True else Both(Evaluate(rs[0], holds), EvaluateAll(rs[1..], holds))
  }

  function EvaluateAny(rs: seq<Request>, holds: Assertion -> Truth): Truth
    decreases rs
  {
    if rs == [] then False else OneOf(Evaluate(rs[0], holds), EvaluateAny(rs[1..], holds))
  }

  /** The parts of a value between its stars. */
  function Parts(s: string): (ps: seq<string>)
    ensures ps != []
    decreases |s|
  {
    var k := Until(s, '*');
    if k == |s| then [s] else [s[..k]] + Parts(s[k + 1..])
  }

  function PartOctets(p: string): Option<seq<byte>> { if p == "" then None else Some(Octets(p)) }

  function EachOctets(ps: seq<string>): (os: seq<seq<byte>>)
    ensures |os| == |ps|
  {
    seq(|ps|, k requires 0 <= k < |ps| => Octets(ps[k]))
  }

  /** The assertion that section 3 of RFC 4515 reads in "attr=value": presence, equality, or
      substrings with every part between stars. */
  function Rfc4515Equality(attr: seq<byte>, value: string): Assertion {
    var ps := Parts(value);
    if value == "*" then Presence(attr)
    else if |ps| == 1 then Equals(attr, Octets(value))
    else Substring(attr, PartOctets(ps[0]), EachOctets(ps[1..|ps| - 1]), PartOctets(ps[|ps| - 1]))
  }

  predicate IsDn(s: string) { Upper(s) == "DN" }

  lemma DnExactly(s: string)
    ensures IsDn(s) <==> |s| == 2 && s[0] in "dD" && s[1] in "nN"
  {
    if |s| == 2 { assert Upper(s) == [UpperChar(s[0]), UpperChar(s[1])]; }
  }

  /** The extensible match that section 3 of RFC 4515 reads in the parts of a name: a type, which can be
      absent; then "dn" in any case for the attributes of the DN; then a rule, which can be absent behind
      a type. None if the name is no such thing. */
  function Rfc4515Extensible(ps: seq<string>, value: seq<byte>): Option<Assertion>
    requires ps != []
  {
    var dn := |ps| > 1 && IsDn(ps[1]);
    var rules := ps[if dn then 2 else 1..];
    var typ := if ps[0] == "" then None else Some(Utf8(ps[0]));
    if |rules| > 1 || (|rules| == 1 && rules[0] == "") || (rules == [] && typ.None?) then None
    else Some(Extensible(if rules == [] then None else Some(Utf8(rules[0])), typ, value, dn))
  }

  /** The assertion that RFC 4515 reads in an item; None where it reads none. In a value, a backslash
      without two digits and a star where none belongs are taken for themselves. */
  function Rfc4515Item(attr: string, comp: string, val: string): Option<Assertion> {
    if attr == "" then None
    else if comp == "<=" then Some(AtMost(Utf8(attr), Octets(val)))
    else if comp == ">=" then Some(AtLeast(Utf8(attr), Octets(val)))
    else if comp == "~=" then Some(Approx(Utf8(attr), Octets(val)))
    else if comp != "=" then None
    else if EndsInColon(attr) then Rfc4515Extensible(NameParts(attr), Octets(val))
    else Some(Rfc4515Equality(Utf8(attr), val))
  }

  /** The truth of a filter's text, by RFC 4515 for its items and RFC 4511 for its groups. */
  function Meaning(t: Filter, holds: Assertion -> Truth): Truth
    decreases t
  {
    match t
    case Item(attr, comp, val) =>
      var a := Rfc4515Item(attr, comp, val);
      if a.None? then Undefined else holds(a.value)
    case Group(And, fs) => MeaningAll(fs, holds)
    case Group(Or, fs) => MeaningAny(fs, holds)
    case Group(Not, fs) => if fs == [] then Undefined else Inverse(Meaning(fs[0], holds))
    case _ => Undefined
  }

  function MeaningAll(ts: seq<Filter>, holds: Assertion -> Truth): Truth
    decreases ts
  {
    if ts == [] then True else Both(Meaning(ts[0], holds), MeaningAll(ts[1..], holds))
  }

  function MeaningAny(ts: seq<Filter>, holds: Assertion -> Truth): Truth
    decreases ts
  {
    if ts == [] then False else OneOf(Meaning(ts[0], holds), MeaningAny(ts[1..], holds))
  }

  // -------------------------------------------------- truth

  /** Section 4.5.1.7 of RFC 4511: an and is TRUE if all are, FALSE if one is FALSE, else Undefined; an or is
      TRUE if one is, FALSE if all are FALSE, else Undefined; a not turns TRUE and FALSE round. */
  lemma EvaluateMeans(rs: seq<Request>, holds: Assertion -> Truth)
    ensures Evaluate(AllOf(rs), holds) == True <==> forall k :: 0 <= k < |rs| ==> Evaluate(rs[k], holds) == True
    ensures Evaluate(AllOf(rs), holds) == False <==> exists k :: 0 <= k < |rs| && Evaluate(rs[k], holds) == False
    ensures Evaluate(AnyOf(rs), holds) == True <==> exists k :: 0 <= k < |rs| && Evaluate(rs[k], holds) == True
    ensures Evaluate(AnyOf(rs), holds) == False <==> forall k :: 0 <= k < |rs| ==> Evaluate(rs[k], holds) == False
    ensures rs != [] ==>
              && (Evaluate(NotOf(rs[0]), holds) == True <==> Evaluate(rs[0], holds) == False)
              && (Evaluate(NotOf(rs[0]), holds) == False <==> Evaluate(rs[0], holds) == True)
  {
    EachEvaluates(rs, holds);
  }

  lemma {:induction false} EachEvaluates(rs: seq<Request>, holds: Assertion -> Truth)
    ensures EvaluateAll(rs, holds) == True <==> forall k :: 0 <= k < |rs| ==> Evaluate(rs[k], holds) == True
    ensures EvaluateAll(rs, holds) == False <==> exists k :: 0 <= k < |rs| && Evaluate(rs[k], holds) == False
    ensures EvaluateAny(rs, holds) == True <==> exists k :: 0 <= k < |rs| && Evaluate(rs[k], holds) == True
    ensures EvaluateAny(rs, holds) == False <==> forall k :: 0 <= k < |rs| ==> Evaluate(rs[k], holds) == False
  {
    hide Evaluate;
    if rs != [] {
      var rest := rs[1..];
      EachEvaluates(rest, holds);
      assert forall k | 0 < k < |rs| :: rs[k] == rest[k - 1];
      assert forall k | 0 <= k < |rest| :: rest[k] == rs[k + 1];
      if exists k :: 0 <= k < |rest| && Evaluate(rest[k], holds) == False {
        var k :| 0 <= k < |rest| && Evaluate(rest[k], holds) == False;
        assert Evaluate(rs[k + 1], holds) == False;
      }
      if exists k :: 0 <= k < |rest| && Evaluate(rest[k], holds) == True {
        var k :| 0 <= k < |rest| && Evaluate(rest[k], holds) == True;
        assert Evaluate(rs[k + 1], holds) == True;
      }
    }
  }

  /** Filters whose items are of RFC 4515, and none of them Undefined of the entry. */
  predicate Decided(t: Filter, holds: Assertion -> Truth)
    decreases t
  {
    match t
    case Item(a, c, v) => Rfc4515Item(a, c, v).Some? && holds(Rfc4515Item(a, c, v).value) != Undefined
    case Group(op, fs) => (op == Not ==> |fs| == 1) && forall k | 0 <= k < |fs| :: Decided(fs[k], holds)
    case _ => false
  }

  function Holding(holds: Assertion -> Truth): Filter -> bool {
    (t: Filter) =>
      && t.Item? && Rfc4515Item(t.attr, t.comp, t.val).Some?
      && holds(Rfc4515Item(t.attr, t.comp, t.val).value).True?
  }

  /** The match of a filter object is the truth of its text. */
  lemma {:induction false} MatchIsMeaning(t: Filter, holds: Assertion -> Truth)
    requires Decided(t, holds)
    ensures Meaning(t, holds) == if Match(t, Holding(holds)) then True else False
    decreases t, 0
  {
    hide Rfc4515Item;
    match t {
      case Item(_, _, _) =>
      case Group(op, fs) =>
        MatchesAreMeanings(fs, holds);
        if op == Not { OneMember(fs, Holding(holds)); }
      case _ =>
    }
  }

  lemma {:induction false} MatchesAreMeanings(ts: seq<Filter>, holds: Assertion -> Truth)
    requires forall k | 0 <= k < |ts| :: Decided(ts[k], holds)
    ensures MeaningAll(ts, holds) == if AllMatch(ts, Holding(holds)) then True else False
    ensures MeaningAny(ts, holds) == if AnyMatch(ts, Holding(holds)) then True else False
    ensures ts != [] ==> Meaning(ts[0], holds) == if Match(ts[0], Holding(holds)) then True else False
    decreases ts, 1
  {
    hide Meaning, Match;
    if ts != [] {
      MatchIsMeaning(ts[0], holds);
      MatchesAreMeanings(ts[1..], holds);
    }
  }

  // -------------------------------------------------- values

  /** Stars stand only at the ends. */
  predicate StarsAtEnds(v: string) { forall k | 0 < k < |v| - 1 :: v[k] != '*' }

  lemma PartsOfPlain(s: string)
    requires '*' !in s
    ensures Parts(s) == [s]
  {
    assert Until(s, '*') < |s| ==> s[Until(s, '*')] in s;
  }

  lemma PartsAfterStar(s: string)
    requires s != "" && s[0] == '*'
    ensures Parts(s) == [""] + Parts(s[1..])
  {}

  lemma PartsBeforeStar(s: string)
    requires '*' !in s
    ensures Parts(s + "*") == [s, ""]
  {
    var t := s + "*";
    UntilStar(s);
    assert t[|s| + 1..] == "" && t[..|s|] == s;
    PartsOfPlain("");
  }

  lemma {:induction false} UntilStar(s: string)
    requires '*' !in s
    ensures Until(s + "*", '*') == |s|
  {
    if s == "" {
      assert s + "*" == "*";
    } else {
      assert (s + "*")[1..] == s[1..] + "*" && (s + "*")[0] == s[0];
      UntilStar(s[1..]);
    }
  }

  function Count(s: string): nat { if s == "" then 0 else (if s[0] == '*' then 1 else 0) + Count(s[1..]) }

  lemma {:induction false} CountUntil(s: string)
    requires Until(s, '*') < |s|
    ensures Count(s) == 1 + Count(s[Until(s, '*') + 1..])
  {
    if s[0] != '*' {
      CountUntil(s[1..]);
      assert s[1..][Until(s[1..], '*') + 1..] == s[Until(s, '*') + 1..];
    }
  }

  lemma {:induction false} NoStars(s: string)
    ensures Count(s) == 0 <==> '*' !in s
  {
    if s != "" {
      NoStars(s[1..]);
      assert s == [s[0]] + s[1..];
    }
  }

  lemma {:induction false} PartsCount(s: string)
    ensures |Parts(s)| == 1 + Count(s)
    decreases |s|
  {
    hide Until, Count;
    var k := Until(s, '*');
    if k == |s| {
      assert s[..k] == s;
      NoStars(s);
    } else {
      var rest := s[k + 1..];
      CountUntil(s);
      PartsCount(rest);
      assert Parts(s) == [s[..k]] + Parts(rest);
    }
  }

  lemma {:induction false} CountSplit(a: string, b: string)
    ensures Count(a + b) == Count(a) + Count(b)
  {
    if a == "" {
      assert a + b == b;
    } else {
      assert (a + b)[1..] == a[1..] + b && (a + b)[0] == a[0];
      CountSplit(a[1..], b);
    }
  }

  /** The stars of a value are those at its ends and those between. */
  lemma CountEnds(v: string)
    requires |v| >= 2
    ensures Count(v) == (if v[0] == '*' then 1 else 0) + Count(v[1..|v| - 1]) + (if v[|v| - 1] == '*' then 1 else 0)
    ensures Count(v[1..|v| - 1]) == 0 <==> StarsAtEnds(v)
  {
    hide Count;
    var a, mid, b := v[0], v[1..|v| - 1], v[|v| - 1];
    assert v == [a] + (mid + [b]);
    CountSplit([a], mid + [b]);
    CountSplit(mid, [b]);
    CountOne(a);
    CountOne(b);
    NoStars(mid);
    MiddleStars(v);
  }

  lemma CountOne(c: char)
    ensures Count([c]) == if c == '*' then 1 else 0
  {
    assert [c][1..] == "";
  }

  lemma MiddleStars(v: string)
    requires |v| >= 2
    ensures '*' !in v[1..|v| - 1] <==> StarsAtEnds(v)
  {
    var mid := v[1..|v| - 1];
    assert forall k | 0 < k < |v| - 1 :: v[k] == mid[k - 1];
    assert forall k | 0 <= k < |mid| :: mid[k] == v[k + 1];
  }

  // -------------------------------------------------- items

  /** The part of a value that is unescaped. */
  function Inner(v: string): string {
    var n := |v|;
    if n > 1 && v[0] == '*' && v[n - 1] == '*' then v[1..n - 1]
    else if n > 0 && v[0] == '*' then v[1..]
    else if n > 0 && v[n - 1] == '*' then v[..n - 1]
    else v
  }

  lemma TamePrefix(s: string, c: char)
    ensures Tame(s + [c]) <==> Tame(s) && (|s| >= 2 && s[|s| - 2] == '\\' ==> TamePair(s[|s| - 1], c))
  {
    hide TamePair;
    var t := s + [c];
    assert t[|s|] == c && forall k | 0 <= k < |s| :: t[k] == s[k];
    if |s| >= 2 {
      var k := |s| - 2;
      assert Tame(t) && t[k] == '\\' ==> TamePair(t[k + 1], t[k + 2]);
    }
  }

  lemma StarIsNoPair(a: char)
    ensures TamePair(a, '*')
  {}

  /** Stars at the ends are in no pair. */
  lemma InnerIsTame(v: string)
    ensures Tame(v) <==> Tame(Inner(v))
  {
    hide Tame, IntPair, TamePair;
    var n := |v|;
    if n > 0 && v[0] == '*' {
      TameCons(v);
      var w := v[1..];
      if n > 1 && v[n - 1] == '*' {
        assert w == v[1..n - 1] + ['*'];
        TamePrefix(v[1..n - 1], '*');
        if n > 2 { StarIsNoPair(v[n - 2]); }
      }
    } else if n > 0 && v[n - 1] == '*' {
      assert v == v[..n - 1] + ['*'];
      TamePrefix(v[..n - 1], '*');
      if n > 1 { StarIsNoPair(v[n - 2]); }
    }
  }

  /** The translation of a value, once its inner part is unescaped. */
  lemma EqualityOctets(attr: seq<byte>, v: string)
    ensures EqualityOf(attr, v) == Some(TamedEquality(attr, v)) <==> Tame(v)
    ensures EqualityOf(attr, v).Some? ==> SameShape(EqualityOf(attr, v).value, TamedEquality(attr, v))
  {
    hide Encoded, Octets, Tame;
    InnerIsTame(v);
    EncodedIsOctets(Inner(v));
    assert v == "*" ==> Inner(v) == "";
    NothingTame();
  }

  /** The same kind of assertion, with as many parts. */
  predicate SameShape(a: Assertion, b: Assertion) {
    && a.Presence? == b.Presence? && a.Equals? == b.Equals? && a.Substring? == b.Substring?
    && (a.Substring? && b.Substring? ==> |a.any| == |b.any|)
  }

  function TamedEquality(attr: seq<byte>, v: string): Assertion {
    var n := |v|;
    if v == "*" then Presence(attr)
    else if n > 1 && v[0] == '*' && v[n - 1] == '*' then Substring(attr, None, [Octets(v[1..n - 1])], None)
    else if n > 0 && v[0] == '*' then Substring(attr, None, [], Some(Octets(v[1..])))
    else if n > 0 && v[n - 1] == '*' then Substring(attr, Some(Octets(v[..n - 1])), [], None)
    else Equals(attr, Octets(v))
  }

  /** The parts of a value with stars only at its ends. */
  function EndParts(v: string): seq<string> {
    var n := |v|;
    if n > 1 && v[0] == '*' && v[n - 1] == '*' then ["", v[1..n - 1], ""]
    else if n > 0 && v[0] == '*' then ["", v[1..]]
    else if n > 0 && v[n - 1] == '*' then [v[..n - 1], ""]
    else [v]
  }

  lemma PartsBoth(m: string)
    requires '*' !in m
    ensures Parts("*" + (m + "*")) == ["", m, ""]
  {
    hide Parts;
    PartsAfterStar("*" + (m + "*"));
    assert ("*" + (m + "*"))[1..] == m + "*";
    PartsBeforeStar(m);
  }

  lemma PartsLeft(m: string)
    requires '*' !in m
    ensures Parts("*" + m) == ["", m]
  {
    hide Parts;
    PartsAfterStar("*" + m);
    assert ("*" + m)[1..] == m;
    PartsOfPlain(m);
  }

  lemma PartsOfEnds(v: string)
    requires StarsAtEnds(v) && v != "*"
    ensures Parts(v) == EndParts(v)
  {
    hide Parts;
    var n := |v|;
    if n < 2 {
      PartsOfPlain(v);
    } else {
      MiddleStars(v);
      LongParts(v[0], v[1..n - 1], v[n - 1]);
      assert v == [v[0]] + v[1..n - 1] + [v[n - 1]];
    }
  }

  lemma LongParts(a: char, mid: string, b: char)
    requires '*' !in mid
    ensures Parts([a] + mid + [b]) == EndParts([a] + mid + [b])
  {
    hide Parts;
    var v := [a] + mid + [b];
    assert v == [a] + (mid + [b]) && v[1..] == mid + [b] && v[..|v| - 1] == [a] + mid && v[1..|v| - 1] == mid;
    if a == '*' && b == '*' {
      PartsBoth(mid);
    } else if a == '*' {
      PartsLeft(mid + [b]);
    } else if b == '*' {
      PartsBeforeStar([a] + mid);
    } else {
      PartsOfPlain(v);
    }
  }

  /** The translation of an item means what RFC 4515 says it means if and only if its stars stand
      only at the ends of the value and no backslash stands before an odd pair that int() reads. */
  lemma EqualityExactly(attr: seq<byte>, v: string)
    ensures EqualityOf(attr, v) == Some(Rfc4515Equality(attr, v)) <==> StarsAtEnds(v) && Tame(v)
  {
    hide Octets, Parts, EqualityOf, Tame, StarsAtEnds, TamedEquality;
    EqualityOctets(attr, v);
    if v == "*" {
      ShortStars(v);
      StarMeans(attr);
    } else if StarsAtEnds(v) {
      PartsOfEnds(v);
      EndsMean(attr, v);
    } else {
      BetweenDiffers(attr, v);
    }
  }

  lemma StarMeans(attr: seq<byte>)
    ensures TamedEquality(attr, "*") == Rfc4515Equality(attr, "*")
  {}

  lemma ShortStars(v: string)
    requires |v| < 3
    ensures StarsAtEnds(v)
  {}

  lemma EndsMean(attr: seq<byte>, v: string)
    requires v != "*" && StarsAtEnds(v)
    requires Parts(v) == EndParts(v)
    ensures TamedEquality(attr, v) == Rfc4515Equality(attr, v)
  {
    hide Octets, Parts;
  }

  /** With a star between, the standard sees more parts than the translation. */
  lemma BetweenDiffers(attr: seq<byte>, v: string)
    requires v != "*" && !StarsAtEnds(v)
    ensures !SameShape(TamedEquality(attr, v), Rfc4515Equality(attr, v))
  {
    hide Octets, Parts, Count;
    CountEnds(v);
    PartsCount(v);
  }

  // -------------------------------------------------- filters

  predicate Compares(comp: string) { comp in {"=", "<=", ">=", "~="} }

  /** Stars between the ends of a value matter only where stars mean anything. */
  predicate StarsFit(attr: string, comp: string, val: string) {
    comp == "=" && attr != "" && !EndsInColon(attr) ==> StarsAtEnds(val)
  }

  /** An extensible match by a type and a rule, without "dn". */
  predicate TypeAndRule(attr: string)
    requires attr != ""
  {
    var ps := NameParts(attr);
    |ps| == 2 && ps[0] != "" && ps[1] != "" && !IsDn(ps[1])
  }

  /** What the translation reads as RFC 4515 does: extensible matches by type and rule, stars at the ends
      of a value, and no backslash before an odd pair that int() reads. */
  predicate Read4515(attr: string, comp: string, val: string) {
    && (comp == "=" && EndsInColon(attr) ==> TypeAndRule(attr))
    && StarsFit(attr, comp, val) && Tame(val)
  }

  /** Every item of RFC 4515 becomes the assertion that it stands for if and only if its name, stars and
      escapes are of that kind. */
  lemma ItemExactly(t: Filter)
    requires t.Item? && Rfc4515Item(t.attr, t.comp, t.val).Some?
    ensures Convert(t) == Some(Leaf(Rfc4515Item(t.attr, t.comp, t.val).value)) <==> Read4515(t.attr, t.comp, t.val)
  {
    hide Tame, Encoded, Octets, EqualityOf, Rfc4515Equality, StarsAtEnds, Colons, IsDn, Upper;
    EncodedIsOctets(t.val);
    EqualityExactly(Utf8(t.attr), t.val);
  }

  /** The text that is unescaped for an item. */
  function Unescaped(attr: string, comp: string, val: string): string {
    if comp == "=" && !EndsInColon(attr) then Inner(val) else val
  }

  /** An item is translated at all, and no exception raised, if and only if its comparison is one of the
      four, its name not empty behind an equals sign, and of exactly two parts where it ends in a colon,
      and no escape in its value gives a negative number. */
  lemma AcceptedExactly(t: Filter)
    requires t.Item?
    ensures Convert(t).Some? <==>
            && Compares(t.comp)
            && (t.comp == "=" ==> t.attr != "" && (EndsInColon(t.attr) ==> |NameParts(t.attr)| == 2))
            && Encoded(Unescaped(t.attr, t.comp, t.val)).Some?
  {
    hide Encoded, Colons;
    assert t.val == "*" ==> Inner(t.val) == "";
    assert Encoded("").Some? by { NothingEncoded(); }
  }

  lemma NothingEncoded()
    ensures Encoded("").Some?
  {}

  // -------------------------------------------------- three examples of section 4 of RFC 4515

  lemma ColonsOf(p: string, rest: string)
    requires ':' !in p
    ensures Colons(p) == [p] && Colons(p + ":" + rest) == [p] + Colons(rest)
  {
    var s := p + ":" + rest;
    UntilColon(p, rest);
    assert s[..|p|] == p && s[|p| + 1..] == rest;
    assert forall k | 0 <= k < |p| :: p[k] in p;
  }

  lemma {:induction false} UntilColon(p: string, rest: string)
    requires ':' !in p
    ensures Until(p + ":" + rest, ':') == |p|
  {
    if p == "" {
      assert p + ":" + rest == ":" + rest;
    } else {
      assert (p + ":" + rest)[1..] == p[1..] + ":" + rest && (p + ":" + rest)[0] == p[0];
      UntilColon(p[1..], rest);
    }
  }

  /** "(o:dn:=Ace Industry)" asks for the attributes of the DN, and is sent as a rule named dn. */
  lemma DnExample(val: string)
    ensures Rfc4515Item("o:dn:", "=", val) == Some(Extensible(None, Some(Utf8("o")), Octets(val), true))
    ensures Encoded(val).Some? ==>
              Convert(Item("o:dn:", "=", val))
              == Some(Leaf(Extensible(Some(Utf8("dn")), Some(Utf8("o")), Encoded(val).value, false)))
  {
    hide Encoded, Octets, Utf8, Colons;
    ColonsOf("o", "dn");
    ColonsOf("dn", "");
    assert "o:dn:"[..4] == "o" + ":" + "dn";
    assert "dn"[1..] == "n" && "n"[1..] == "";
    assert IsDn("dn");
  }

  /** "(:1.2.3:=Wilma Flintstone)" names no type, and is sent with an empty one. */
  lemma NoTypeExample(val: string)
    ensures Rfc4515Item(":1.2.3:", "=", val) == Some(Extensible(Some(Utf8("1.2.3")), None, Octets(val), false))
    ensures Encoded(val).Some? ==>
              Convert(Item(":1.2.3:", "=", val))
              == Some(Leaf(Extensible(Some(Utf8("1.2.3")), Some(Utf8("")), Encoded(val).value, false)))
  {
    hide Encoded, Octets, Utf8, Colons;
    ColonsOf("", "1.2.3");
    ColonsOf("1.2.3", "");
    assert ":1.2.3:"[..6] == "" + ":" + "1.2.3";
    assert |Upper("1.2.3")| == 5;
  }

  /** "(cn:=Betty Rubble)" names no rule, and raises an exception. */
  lemma NoRuleExample(val: string)
    ensures Rfc4515Item("cn:", "=", val) == Some(Extensible(None, Some(Utf8("cn")), Octets(val), false))
    ensures Convert(Item("cn:", "=", val)) == None
  {
    hide Encoded, Octets, Utf8, Colons;
    ColonsOf("cn", "");
    assert "cn:"[..2] == "cn";
  }

  // -------------------------------------------------- whole filters

  /** A filter of RFC 4515; a Not is over one filter. */
  predicate IsRfc4515(t: Filter)
    decreases t
  {
    match t
    case Item(attr, comp, val) => Rfc4515Item(attr, comp, val).Some?
    case Group(op, fs) => (op == Not ==> |fs| == 1) && forall k | 0 <= k < |fs| :: IsRfc4515(fs[k])
    case _ => false
  }

  /** Every item is read as RFC 4515 reads it. */
  predicate AllRead4515(t: Filter)
    decreases t
  {
    match t
    case Item(attr, comp, val) => Read4515(attr, comp, val)
    case Group(_, fs) => forall k | 0 <= k < |fs| :: AllRead4515(fs[k])
    case _ => true
  }

  /** The request that RFC 4515 makes of a filter. */
  function Rfc4515Request(t: Filter): Request
    requires IsRfc4515(t)
    decreases t
  {
    match t
    case Item(attr, comp, val) => Leaf(Rfc4515Item(attr, comp, val).value)
    case Group(Not, fs) => NotOf(Rfc4515Request(fs[0]))
    case Group(And, fs) => AllOf(Rfc4515Requests(fs))
    case Group(Or, fs) => AnyOf(Rfc4515Requests(fs))
  }

  function Rfc4515Requests(ts: seq<Filter>): (rs: seq<Request>)
    requires forall k | 0 <= k < |ts| :: IsRfc4515(ts[k])
    ensures |rs| == |ts|
    decreases ts
  {
    if ts == [] then [] else [Rfc4515Request(ts[0])] + Rfc4515Requests(ts[1..])
  }

  /** The translation of a filter of RFC 4515 is the request that the standard makes of it, at every
      depth, if and only if every item's name, stars and escapes are read as the standard reads them. */
  lemma {:induction false} TranslationExactly(t: Filter)
    requires IsRfc4515(t)
    ensures Convert(t) == Some(Rfc4515Request(t)) <==> AllRead4515(t)
    decreases t, 0
  {
    hide Rfc4515Item, Equality, Read4515, Encoded, Compared;
    if t.Item? {
      ItemExactly(t);
    } else if t.op == Not {
      TranslationExactly(t.filters[0]);
    } else {
      TranslationsExactly(t.filters);
    }
  }

  lemma {:induction false} TranslationsExactly(ts: seq<Filter>)
    requires forall k | 0 <= k < |ts| :: IsRfc4515(ts[k])
    ensures ConvertAll(ts) == Some(Rfc4515Requests(ts)) <==> forall k | 0 <= k < |ts| :: AllRead4515(ts[k])
    decreases ts, 1
  {
    hide IsRfc4515, Convert, AllRead4515, Rfc4515Request;
    if ts != [] {
      TranslationExactly(ts[0]);
      TranslationsExactly(ts[1..]);
      var xs := ConvertAll(ts[1..]);
      if xs.Some? { assert forall x: Request :: ([x] + xs.value)[1..] == xs.value && ([x] + xs.value)[0] == x; }
      assert Rfc4515Requests(ts)[1..] == Rfc4515Requests(ts[1..]) && Rfc4515Requests(ts)[0] == Rfc4515Request(ts[0]);
      assert forall k | 0 < k < |ts| :: ts[k] == ts[1..][k - 1];
      assert forall k | 0 <= k < |ts| - 1 :: ts[1..][k] == ts[k + 1];
    }
  }

  /** The request of RFC 4515 is as true of every entry as the filter, whatever assertions hold. */
  lemma {:induction false} RequestMeans(t: Filter, holds: Assertion -> Truth)
    requires IsRfc4515(t)
    ensures Evaluate(Rfc4515Request(t), holds) == Meaning(t, holds)
    decreases t, 0
  {
    hide Rfc4515Item, Both, OneOf;
    if t.Item? {
    } else if t.op == Not {
      RequestMeans(t.filters[0], holds);
    } else {
      RequestsMean(t.filters, holds);
    }
  }

  lemma {:induction false} RequestsMean(ts: seq<Filter>, holds: Assertion -> Truth)
    requires forall k | 0 <= k < |ts| :: IsRfc4515(ts[k])
    ensures EvaluateAll(Rfc4515Requests(ts), holds) == MeaningAll(ts, holds)
    ensures EvaluateAny(Rfc4515Requests(ts), holds) == MeaningAny(ts, holds)
    decreases ts, 1
  {
    hide IsRfc4515, Both, OneOf, Meaning, Rfc4515Request;
    if ts != [] {
      RequestMeans(ts[0], holds);
      RequestsMean(ts[1..], holds);
      assert Rfc4515Requests(ts)[1..] == Rfc4515Requests(ts[1..]);
    }
  }

  /** The translation preserves meaning: of every entry, whatever assertions hold of it, the
      request is as true as the filter. */
  lemma TranslationPreservesMeaning(t: Filter, holds: Assertion -> Truth)
    requires IsRfc4515(t) && AllRead4515(t)
    ensures Convert(t).Some? && Evaluate(Convert(t).value, holds) == Meaning(t, holds)
  {
    hide Evaluate, Meaning, Convert, IsRfc4515, AllRead4515;
    TranslationExactly(t);
    RequestMeans(t, holds);
  }

  /** Children keep their number and order. */
  lemma {:induction false} ConvertKeepsOrder(ts: seq<Filter>, k: nat)
    requires ConvertAll(ts).Some? && k < |ts|
    ensures |ConvertAll(ts).value| == |ts| && Convert(ts[k]) == Some(ConvertAll(ts).value[k])
    decreases ts
  {
    hide Convert;
    if k > 0 {
      ConvertKeepsOrder(ts[1..], k - 1);
    } else if |ts| > 1 {
      ConvertKeepsOrder(ts[1..], 0);
    }
  }
}
