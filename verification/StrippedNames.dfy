/** Names that got spaces when values were put back: of any number of items, all lose them again. */
module StrippedNames {
  import opened Text
  import opened Query
  import opened Stripping
  import opened StrippedFilters

  // -------------------------------------------------- rows of names and values

  /** A name with spaces has only letters, digits and hyphens beside them. */
  predicate IsPlain(a: string) {
    forall c | c in a :: 'a' <= c <= 'z' || 'A' <= c <= 'Z' || '0' <= c <= '9' || c == '-' || c == ' '
  }

  /** What is found as a name, up to the sign behind. The opening of an And or Not in front of an item is found
      as a part of it, as in "&(cn". */
  predicate IsFound(a: string) {
    && a != "" && (forall c | c in a :: IsNameChar(c)) && a[|a| - 1] != '('
    && (' ' in a ==> IsPlain(a) && WithoutSpaces(a) != "")
  }

  predicate IsNamed(t: Token) {
    match t
    case One(a, c, v) => IsFound(a) && IsComparison(c) && IsEscaped(v)
    case Mark(m) => m == "(|" || m == ")"
  }

  predicate AreNamed(ts: seq<Token>) { forall k | 0 <= k < |ts| :: IsNamed(ts[k]) }

  /** The expression name? matches this name: letters in either case, and the last one of the expression is
      optional. */
  predicate Hits(name: string, a: string) {
    (|a| == |name| || |a| + 1 == |name|) && forall k | 0 <= k < |a| :: UpperChar(name[k]) == UpperChar(a[k])
  }

  /** It does not match what stands behind a parenthesis in another. */
  predicate HitsInside(name: string, a: string) { exists j :: 0 <= j < |a| && a[j] == '(' && Hits(name, a[j + 1..]) }

  function Unspaced(t: Token): Token {
    match t
    case One(a, c, v) => One(WithoutSpaces(a), c, v)
    case Mark(_) => t
  }

  function AllUnspaced(ts: seq<Token>): (us: seq<Token>)
    ensures |us| == |ts|
  {
    seq(|ts|, k requires 0 <= k < |ts| => Unspaced(ts[k]))
  }

  /** A name with spaces matches only itself, with spaces or without. */
  predicate Tells(name: string, t: Token) {
    t.One? ==>
      && (Hits(name, t.attr) || Hits(name, WithoutSpaces(t.attr)) ==> WithoutSpaces(t.attr) == WithoutSpaces(name))
      && !HitsInside(name, t.attr)
  }

  predicate AllTold(ts: seq<Token>) {
    forall i, k | 0 <= i < |ts| && 0 <= k < |ts| && ts[i].One? && ' ' in ts[i].attr :: Tells(ts[i].attr, ts[k])
  }

  // -------------------------------------------------- every name is found

  function NamesOf(ts: seq<Token>): seq<string> {
    if ts == [] then []
    else (match ts[0] case One(a, _, _) => [a] case Mark(_) => []) + NamesOf(ts[1..])
  }

  lemma {:induction false} SkipNames(prev: char, m: string, rest: string)
    requires prev != '(' && '(' !in m
    ensures Names(prev, m + rest) == Names(if m == "" then prev else m[|m| - 1], rest)
    decreases |m|
  {
    if m == "" {
      assert m + rest == rest;
    } else {
      assert (m + rest)[1..] == m[1..] + rest && m[0] in m && m[|m| - 1] in m;
      SkipNames(m[0], m[1..], rest);
    }
  }

  lemma NameThen(prev: char, a: string, tail: string, rest: string)
    requires prev != '(' && IsFound(a) && tail != "" && IsSign(tail[0]) && '(' !in tail
    ensures Names(prev, "(" + (a + (tail + rest))) == [a] + Names(tail[|tail| - 1], rest)
  {
    hide NameEnd;
    var s := a + (tail + rest);
    assert ("(" + s)[1..] == s && s[..|a|] == a && s[|a|..] == tail + rest;
    WholeName(a, tail + rest);
    SkipNames(a[|a| - 1], tail, rest);
  }

  lemma {:induction false} NamesAre(prev: char, ts: seq<Token>)
    requires AreNamed(ts) && prev != '('
    ensures Names(prev, Row(ts)) == NamesOf(ts)
    decreases |ts|
  {
    hide Names, IsFound, IsEscaped, IsComparison, OneItem;
    if ts == [] {
      NothingFound(prev);
    } else {
      var t, rest := ts[0], ts[1..];
      assert IsNamed(t) && Row(ts) == TokenText(t) + Row(rest);
      match t {
        case Mark(m) =>
          MarkThen(prev, m, Row(rest));
          NamesAre(m[|m| - 1], rest);
        case One(a, c, v) =>
          var tail := c + v + ")";
          TailIs(c, v);
          Grouped(a, c, v, Row(rest));
          NameThen(prev, a, tail, Row(rest));
          NamesAre(')', rest);
      }
    }
  }

  lemma NothingFound(prev: char)
    ensures Names(prev, "") == []
  {}

  lemma Grouped(a: string, c: string, v: string, rest: string)
    ensures OneItem(a, c, v) + rest == "(" + (a + (c + v + ")" + rest))
  {
    Associate("(", a, c + v + ")", rest);
    assert "(" + a + c + v + ")" == "(" + a + (c + v + ")");
  }

  lemma Associate(x: string, a: string, t: string, r: string)
    ensures x + a + t + r == x + (a + (t + r))
  {}

  lemma TailIs(c: string, v: string)
    requires IsComparison(c) && IsEscaped(v)
    ensures var tail := c + v + ")"; tail != "" && IsSign(tail[0]) && '(' !in tail && tail[|tail| - 1] == ')'
  {}

  lemma MarkThen(prev: char, m: string, rest: string)
    requires prev != '(' && (m == "(|" || m == ")")
    ensures Names(prev, m + rest) == Names(m[|m| - 1], rest)
  {
    assert (m + rest)[1..] == m[1..] + rest;
    if m == "(|" { assert ("|" + rest)[1..] == rest; }
  }

  // -------------------------------------------------- one name is replaced wherever it matches

  function Struck(t: Token, name: string): Token {
    if t.One? && Hits(name, t.attr) then t.(attr := WithoutSpaces(name)) else t
  }

  function AllStruck(ts: seq<Token>, name: string): (us: seq<Token>)
    ensures |us| == |ts|
  {
    seq(|ts|, k requires 0 <= k < |ts| => Struck(ts[k], name))
  }

  lemma {:induction false} SkipRenamed(prev: char, m: string, rest: string, name: string)
    requires prev != '(' && '(' !in m && name != ""
    ensures Renamed(prev, m + rest, name) == m + Renamed(if m == "" then prev else m[|m| - 1], rest, name)
    decreases |m|
  {
    if m == "" {
      assert m + rest == rest;
    } else {
      assert (m + rest)[1..] == m[1..] + rest && m[0] in m && m[|m| - 1] in m;
      SkipRenamed(m[0], m[1..], rest, name);
      assert m == [m[0]] + m[1..];
    }
  }

  /** The expression matches up to the sign or not at all. */
  lemma MatchIsHit(name: string, a: string, rest: string)
    requires name != "" && IsPlain(name) && (forall c | c in a :: IsNameChar(c)) && rest != "" && IsSign(rest[0])
    ensures MatchEnd(name, a + rest) == if Hits(name, a) then Some(|a|) else None
  {
    var n, s := |name|, a + rest;
    assert forall k | 0 <= k < |a| :: s[k] == a[k] && a[k] in a;
    assert forall k | 0 <= k < n :: name[k] in name;
    NoSign(name, a, rest);
    PlainMatches(name, a, rest);
    PlainMatches(name[..n - 1], a, rest);
  }

  lemma NoSign(name: string, a: string, rest: string)
    requires (forall c | c in a :: IsNameChar(c)) && rest != "" && IsSign(rest[0])
    ensures forall k | 0 <= k < |a + rest| && IsSign((a + rest)[k]) :: k >= |a|
  {
    forall k | 0 <= k < |a| ensures !IsSign((a + rest)[k]) { assert a[k] in a; }
  }

  lemma PlainMatches(name: string, a: string, rest: string)
    requires IsPlain(name) && rest != "" && IsSign(rest[0])
    ensures Matches(name, a + rest) <==>
            |name| <= |a| && forall k | 0 <= k < |name| :: UpperChar(name[k]) == UpperChar(a[k])
  {
    var s := a + rest;
    forall k | 0 <= k < |name| ensures name[k] != '.' && UpperChar(name[k]) != rest[0] == UpperChar(rest[0]) {
      assert name[k] in name;
    }
    hide UpperChar;
    if |name| > |a| { assert s[|a|] == rest[0]; }
    assert forall k | 0 <= k < |a| :: s[k] == a[k];
  }

  /** A name that it does not match stays. */
  lemma {:induction false} Passed(prev: char, a: string, rest: string, name: string)
    requires name != "" && IsPlain(name) && (forall c | c in a :: IsNameChar(c)) && rest != "" && IsSign(rest[0])
    requires !(prev == '(' && Hits(name, a)) && !HitsInside(name, a) && (a == "" ==> prev != '(')
    requires a != "" ==> a[|a| - 1] != '('
    ensures Renamed(prev, a + rest, name) == a + Renamed(if a == "" then prev else a[|a| - 1], rest, name)
    decreases |a|
  {
    hide MatchEnd, Hits, IsNameChar;
    if a == "" {
      assert a + rest == rest;
    } else {
      MatchIsHit(name, a, rest);
      var b := a[1..];
      assert (a + rest)[1..] == b + rest && a == [a[0]] + b;
      forall j | 0 <= j < |b| && b[j] == '(' ensures !Hits(name, b[j + 1..]) {
        assert a[j + 1] == '(' && a[j + 1 + 1..] == b[j + 1..];
      }
      assert a[0] == '(' ==> !Hits(name, a[0 + 1..]);
      assert b != "" ==> b[|b| - 1] == a[|a| - 1];
      Passed(a[0], b, rest, name);
    }
  }

  lemma StruckThen(prev: char, a: string, tail: string, rest: string, name: string)
    requires prev != '(' && IsFound(a) && tail != "" && IsSign(tail[0]) && '(' !in tail
    requires name != "" && IsPlain(name) && !HitsInside(name, a)
    ensures Renamed(prev, "(" + (a + (tail + rest)), name)
         == "(" + ((if Hits(name, a) then WithoutSpaces(name) else a)
                   + (tail + Renamed(tail[|tail| - 1], rest, name)))
  {
    hide Hits, HitsInside, MatchEnd, WithoutSpaces;
    var s := a + (tail + rest);
    assert ("(" + s)[1..] == s && s[..|a|] == a && s[|a|..] == tail + rest;
    MatchIsHit(name, a, tail + rest);
    SkipRenamed(a[|a| - 1], tail, rest, name);
    if !Hits(name, a) { Passed('(', a, tail + rest, name); }
  }

  lemma {:induction false} RowStruck(prev: char, ts: seq<Token>, name: string)
    requires AreNamed(ts) && prev != '(' && name != "" && IsPlain(name)
    requires forall k | 0 <= k < |ts| && ts[k].One? :: !HitsInside(name, ts[k].attr)
    ensures Renamed(prev, Row(ts), name) == Row(AllStruck(ts, name))
    decreases |ts|
  {
    hide Renamed, IsFound, IsEscaped, IsComparison, OneItem, Hits, HitsInside, WithoutSpaces;
    if ts == [] {
      NothingStruck(prev, name);
    } else {
      var t, rest := ts[0], ts[1..];
      assert IsNamed(t) && Row(ts) == TokenText(t) + Row(rest);
      assert AllStruck(ts, name) == [Struck(t, name)] + AllStruck(rest, name);
      RowCons(Struck(t, name), AllStruck(rest, name));
      match t {
        case Mark(m) =>
          MarkPassed(prev, m, Row(rest), name);
          RowStruck(m[|m| - 1], rest, name);
        case One(a, c, v) =>
          var tail := c + v + ")";
          TailIs(c, v);
          Grouped(a, c, v, Row(rest));
          StruckThen(prev, a, tail, Row(rest), name);
          RowStruck(')', rest, name);
          var b, more := Struck(t, name).attr, Row(AllStruck(rest, name));
          Grouped(b, c, v, more);
      }
    }
  }

  lemma NothingStruck(prev: char, name: string)
    requires name != ""
    ensures Renamed(prev, "", name) == ""
  {}

  lemma MarkPassed(prev: char, m: string, rest: string, name: string)
    requires prev != '(' && (m == "(|" || m == ")") && name != "" && IsPlain(name)
    ensures Renamed(prev, m + rest, name) == m + Renamed(m[|m| - 1], rest, name)
  {
    assert (m + rest)[1..] == m[1..] + rest;
    if m == "(|" {
      var s := "|" + rest;
      assert s[1..] == rest && name[0] in name;
      assert MatchEnd(name, s) == None;
    }
  }

  // -------------------------------------------------- all of them

  /** Some names have lost their spaces: those of the list, at least. */
  ghost predicate Between(ts: seq<Token>, us: seq<Token>, gone: set<string>) {
    && |us| == |ts|
    && (forall k | 0 <= k < |ts| :: us[k] == ts[k] || us[k] == Unspaced(ts[k]))
    && (forall k | 0 <= k < |ts| && ts[k].One? && ts[k].attr in gone :: us[k] == Unspaced(ts[k]))
  }

  lemma UnspacedIsNamed(t: Token)
    requires IsNamed(t)
    ensures IsNamed(Unspaced(t))
  {
    if t.One? {
      if ' ' in t.attr {
        KeyChars(t.attr);
        hide WithoutSpaces;
        var b := WithoutSpaces(t.attr);
        forall c | c in b ensures IsNameChar(c) { assert c in t.attr; }
        assert b[|b| - 1] in b;
      } else {
        NotThere(t.attr, ' ', "");
      }
    }
  }

  lemma OneStep(ts: seq<Token>, us: seq<Token>, gone: set<string>, name: string)
    requires AreNamed(ts) && AllTold(ts) && Between(ts, us, gone)
    requires name in NamesOf(ts) && ' ' in name
    ensures AreNamed(us) && (forall k | 0 <= k < |us| && us[k].One? :: !HitsInside(name, us[k].attr))
    ensures name != "" && IsPlain(name) && Between(ts, AllStruck(us, name), gone + {name})
  {
    hide Hits, HitsInside, IsPlain, WithoutSpaces;
    var i := WhoseName(ts, name);
    assert IsNamed(ts[i]);
    forall k | 0 <= k < |us| ensures IsNamed(us[k]) {
      assert IsNamed(ts[k]);
      UnspacedIsNamed(ts[k]);
    }
    forall k | 0 <= k < |us| && us[k].One? ensures !HitsInside(name, us[k].attr) {
      assert Tells(ts[i].attr, ts[k]) && IsNamed(ts[k]);
      NoneInside(name, ts[k].attr);
    }
    forall k | 0 <= k < |us|
      ensures Struck(us[k], name) == ts[k] || Struck(us[k], name) == Unspaced(ts[k])
      ensures ts[k].One? && ts[k].attr in gone + {name} ==> Struck(us[k], name) == Unspaced(ts[k])
    {
      assert Tells(ts[i].attr, ts[k]);
      HitsItself(name);
    }
  }

  lemma HitsItself(name: string)
    ensures Hits(name, name)
  {}

  lemma NoneInside(name: string, a: string)
    requires IsFound(a) && !HitsInside(name, a)
    ensures !HitsInside(name, WithoutSpaces(a))
  {
    if ' ' in a {
      KeyChars(a);
      hide WithoutSpaces;
      assert '(' !in a;
    } else {
      NotThere(a, ' ', "");
    }
  }

  lemma {:induction false} WhoseName(ts: seq<Token>, name: string) returns (i: nat)
    requires name in NamesOf(ts)
    ensures i < |ts| && ts[i].One? && ts[i].attr == name
  {
    if ts[0].One? && ts[0].attr == name {
      i := 0;
    } else {
      i := WhoseName(ts[1..], name);
      i := i + 1;
    }
  }

  lemma {:induction false} NameOfItem(ts: seq<Token>, k: nat)
    requires k < |ts| && ts[k].One?
    ensures ts[k].attr in NamesOf(ts)
  {
    if k > 0 { NameOfItem(ts[1..], k - 1); }
  }

  lemma {:induction false} NamesGo(ts: seq<Token>, us: seq<Token>, gone: set<string>, names: seq<string>)
    returns (vs: seq<Token>)
    requires AreNamed(ts) && AllTold(ts) && Between(ts, us, gone)
    requires forall name | name in names :: name in NamesOf(ts)
    ensures Rename(names, Row(us)) == Row(vs)
    ensures Between(ts, vs, gone + set name | name in names && ' ' in name)
    decreases |names|
  {
    hide Row, Renamed, Between, AllTold, AreNamed, NamesOf;
    if names == [] {
      vs := us;
      assert gone + (set name | name in names && ' ' in name) == gone;
    } else {
      var name, rest := names[0], names[1..];
      assert names == [name] + rest;
      if ' ' in name {
        OneStep(ts, us, gone, name);
        RowStruck(START_OF_TEXT, us, name);
        vs := NamesGo(ts, AllStruck(us, name), gone + {name}, rest);
        assert gone + (set n | n in names && ' ' in n) == gone + {name} + set n | n in rest && ' ' in n;
      } else {
        vs := NamesGo(ts, us, gone, rest);
        assert (set n | n in names && ' ' in n) == set n | n in rest && ' ' in n;
      }
    }
  }

  lemma AllGone(ts: seq<Token>, us: seq<Token>, gone: set<string>)
    requires Between(ts, us, gone) && forall k | 0 <= k < |ts| && ts[k].One? && ' ' in ts[k].attr :: ts[k].attr in gone
    ensures us == AllUnspaced(ts)
  {
    hide WithoutSpaces;
    forall k | 0 <= k < |ts| ensures us[k] == Unspaced(ts[k]) {
      if ts[k].One? && ' ' !in ts[k].attr { NoSpaceThere(ts[k].attr); }
    }
  }

  /** Whatever items a text has when the values are back in it, every name loses its spaces, if none of those
      with spaces can be taken for another one. */
  lemma NamesComeOut(ts: seq<Token>, text: string)
    requires AreNamed(ts) && AllTold(ts) && WithValues(text) == Row(ts)
    ensures Strippable(text) && Stripped(text) == Row(AllUnspaced(ts))
  {
    hide Row, Names, Rename, NamesOf, Between, AllTold, WithValues;
    NamesAre(START_OF_TEXT, ts);
    var names := NamesOf(ts);
    assert Between(ts, ts, {}) by { NothingGone(ts); }
    var us := NamesGo(ts, ts, {}, names);
    var gone := {} + set name | name in names && ' ' in name;
    forall k | 0 <= k < |ts| && ts[k].One? && ' ' in ts[k].attr ensures ts[k].attr in gone { NameOfItem(ts, k); }
    AllGone(ts, us, gone);
    forall name | name in names && ' ' in name ensures NoPattern(name) {
      var i := WhoseName(ts, name);
      assert IsNamed(ts[i]);
    }
  }

  lemma NothingGone(ts: seq<Token>)
    ensures Between(ts, ts, {})
  {}

  // -------------------------------------------------- a value that is found in two names

  /** The two items of an Or, whose names end in the first value without its spaces. */
  function TwoNamed(x: string, y: string, end: string, v: string, w: string): seq<Token> {
    [Mark("(|"), One(x + end, "=", v), One(y + end, "=", w), Mark(")")]
  }

  lemma {:induction false} KeptThen(p: string, rest: string, key: string, w: string)
    requires key != "" && key[0] !in p
    ensures ReplacedAll(p + rest, key, w) == p + ReplacedAll(rest, key, w)
  {
    hide ReplacedAll;
    if p == "" {
      assert p + rest == rest;
    } else {
      assert p[0] in p && forall c | c in p[1..] :: c in p;
      KeptThen(p[1..], rest, key, w);
      KeptOne(p[0], p[1..] + rest, key, w);
      assert p + rest == [p[0]] + (p[1..] + rest);
      Front(p, ReplacedAll(rest, key, w));
    }
  }

  lemma Front(p: string, r: string)
    requires p != ""
    ensures [p[0]] + (p[1..] + r) == p + r
  {}

  lemma KeptOne(c: char, rest: string, key: string, w: string)
    requires key != "" && key[0] != c
    ensures ReplacedAll([c] + rest, key, w) == [c] + ReplacedAll(rest, key, w)
  {
    var s := [c] + rest;
    assert s[0] == c && s[1..] == rest;
  }

  lemma KeyThen(rest: string, key: string, w: string)
    requires key != ""
    ensures ReplacedAll(key + rest, key, w) == w + ReplacedAll(rest, key, w)
  {
    assert (key + rest)[|key|..] == rest;
  }

  lemma TwoNamedRow(x: string, y: string, end: string, v: string, w: string)
    ensures Row(TwoNamed(x, y, end, v, w))
         == ("(|(" + x) + (end + ("=" + (v + ((")(" + y) + (end + ("=" + w + "))"))))))
  {
    hide Row;
    var one, two := One(x + end, "=", v), One(y + end, "=", w);
    RowFour(Mark("(|"), one, two, Mark(")"));
    assert OneItem(x + end, "=", v) == "(" + x + end + "=" + v + ")";
    assert OneItem(y + end, "=", w) == "(" + y + end + "=" + w + ")";
    RegroupTwo(x, y, end, v, w);
  }

  lemma RegroupTwo(x: string, y: string, e: string, v: string, w: string)
    ensures "(|" + (("(" + x + e + "=" + v + ")") + (("(" + y + e + "=" + w + ")") + ")"))
         == ("(|(" + x) + (e + ("=" + (v + ((")(" + y) + (e + ("=" + w + "))"))))))
  {}

  lemma BothReplaced(x: string, y: string, v: string, w: string, key: string)
    requires key != "" && key[0] !in x && key[0] !in y && key[0] !in w && key[0] !in "(|)="
    ensures ReplacedAll(Row(TwoNamed(x, y, key, key, w)), key, v) == Row(TwoNamed(x, y, v, v, w))
  {
    hide ReplacedAll;
    TwoNamedRow(x, y, key, key, w);
    TwoNamedRow(x, y, v, v, w);
    var last := "=" + w + "))";
    assert ReplacedAll(last, key, v) == last by {
      KeptThen(last, "", key, v);
      assert last + "" == last && ReplacedAll("", key, v) == "" by { NothingThere(key, v); }
    }
    KeyThen(last, key, v);
    KeptThen(")(" + y, key + last, key, v);
    var behind := (")(" + y) + (key + last);
    KeyThen(behind, key, v);
    KeptThen("=", key + behind, key, v);
    KeyThen("=" + (key + behind), key, v);
    KeptThen("(|(" + x, key + ("=" + (key + behind)), key, v);
  }

  lemma NothingThere(key: string, v: string)
    requires key != ""
    ensures ReplacedAll("", key, v) == ""
  {}

  lemma TwoBare(x: string, y: string, v: string, w: string, key: string)
    requires key == WithoutSpaces(v) && w == WithoutSpaces(w)
    ensures BareTokens(TwoNamed(x, y, key, v, w)) == TwoNamed(x, y, key, key, w)
  {
    hide WithoutSpaces;
    var open, close := Mark("(|"), Mark(")");
    var one, two := One(x + key, "=", v), One(y + key, "=", w);
    BareAppend([open], [one, two, close]);
    BareAppend([one], [two, close]);
    BareAppend([two], [close]);
    assert [open] + [one, two, close] == [open, one, two, close] && [one] + [two, close] == [one, two, close];
    assert [two] + [close] == [two, close];
    BareAlone(open);
    BareAlone(one);
    BareAlone(two);
    BareAlone(close);
  }

  lemma BareAlone(t: Token)
    ensures BareTokens([t]) == [BareToken(t)]
  {
    hide BareToken;
    assert [t][1..] == [];
  }

  /** The value, and an empty one if it ends in an equals sign. */
  function ValueFound(v: string): seq<string> { if v != "" && v[|v| - 1] == '=' then [v, ""] else [v] }

  lemma TwoValues(x: string, y: string, end: string, v: string, w: string)
    ensures ValuesOf(TwoNamed(x, y, end, v, w)) == ValueFound(v) + ValueFound(w)
  {
    var ts := TwoNamed(x, y, end, v, w);
    assert ts[1..][1..][1..] == [Mark(")")] && ts[1..][0] == ts[1] && ts[1..][1..][0] == ts[2];
    assert ValuesOf([Mark(")")]) == [];
    assert ValuesOf(ts[1..][1..]) == ValueFound(w) + [];
  }

  lemma TwoValuesBack(x: string, y: string, v: string, w: string, key: string)
    requires IsEscaped(v) && IsEscaped(w) && ' ' !in w && key == WithoutSpaces(v) && key != ""
    requires IsWord(x + key) && IsWord(y + key)
    requires key[0] !in x && key[0] !in y && key[0] !in w && key[0] !in "(|)="
    ensures WithValues(Row(TwoNamed(x, y, key, v, w))) == Row(TwoNamed(x, y, v, v, w))
  {
    hide Row, Values, ValuesOf, PutBack, ReplacedAll, WithoutSpaces, IsWord, BareTokens, WithoutLineFeeds;
    var ts, s := TwoNamed(x, y, key, v, w), Row(TwoNamed(x, y, key, key, w));
    ValuesAre(START_OF_TEXT, ts);
    BareRow(ts);
    BareIs(Row(ts));
    NoSpaceThere(w);
    TwoBare(x, y, v, w, key);
    TwoValues(x, y, key, v, w);
    BareIs(v);
    BareIs(w);
    hide Bare;
    PutBackFirst(v, ValueFound(w), s);
    var t := ReplacedAll(s, key, v);
    PutBackFirst(w, [], t);
    ReplacedBySame(t, w);
    assert [w] + [] == [w] && [w, ""] + [] == [w, ""] && PutBack([], t) == t by { PutBackNothing(t); }
    BothReplaced(x, y, v, w, key);
  }

  lemma PutBackNothing(s: string)
    ensures PutBack([], s) == s
  {}

  lemma TwoAreNamed(x: string, y: string, v: string, w: string, key: string)
    requires IsEscaped(v) && IsEscaped(w) && key == WithoutSpaces(v) && key != ""
    requires IsWord(x + key) && IsWord(y + key) && IsPlain(x + v) && IsPlain(y + v)
    ensures AreNamed(TwoNamed(x, y, v, v, w))
  {
    PlainIsFound(x, v, key);
    PlainIsFound(y, v, key);
  }

  lemma PlainIsFound(x: string, v: string, key: string)
    requires key == WithoutSpaces(v) && key != "" && IsWord(x + key) && IsPlain(x + v)
    ensures IsFound(x + v) && WithoutSpaces(x + v) == x + key
  {
    hide WithoutSpaces;
    var a := x + v;
    if v == "" { NoSpaceThere(v); }
    forall c | c in x ensures c != ' ' { assert c in x + key; }
    NoSpaceThere(x);
    BareOfBoth(x, v);
    forall c | c in a ensures IsNameChar(c) && c != '(' {}
    assert a[|a| - 1] in a;
  }

  lemma TwoAreTold(x: string, y: string, v: string, w: string)
    requires x != "" && y != "" && UpperChar(x[0]) != UpperChar(y[0]) && IsPlain(x + v) && IsPlain(y + v)
    requires ' ' !in x && ' ' !in y
    ensures AllTold(TwoNamed(x, y, v, v, w))
  {
    Apart(x + v, y + v, y);
    Apart(y + v, x + v, x);
    NoneBehind(x + v);
    NoneBehind(y + v);
  }

  /** Names that begin with another letter. */
  lemma Apart(name: string, a: string, y: string)
    requires name != "" && a != "" && y != "" && y <= a && ' ' !in y && UpperChar(name[0]) != UpperChar(a[0])
    ensures !Hits(name, a) && !Hits(name, WithoutSpaces(a))
  {
    hide WithoutSpaces;
    NoSpaceThere(y);
    BareOfBoth(y, a[|y|..]);
    assert a == y + a[|y|..] && WithoutSpaces(a)[0] == a[0];
  }

  lemma NoneBehind(a: string)
    requires IsPlain(a)
    ensures forall name :: !HitsInside(name, a)
  {
    forall j | 0 <= j < |a| ensures a[j] != '(' { assert a[j] in a; }
  }

  /** A value that is found in the names of two items: its spaces get into both, and come out of both. */
  lemma BothComeOut(x: string, y: string, v: string, w: string, key: string)
    requires IsEscaped(v) && IsEscaped(w) && ' ' !in w && key == WithoutSpaces(v) && key != ""
    requires IsWord(x + key) && IsWord(y + key) && IsPlain(x + v) && IsPlain(y + v) && x != "" && y != ""
    requires UpperChar(x[0]) != UpperChar(y[0])
    requires key[0] !in x && key[0] !in y && key[0] !in w && key[0] !in "(|)="
    ensures var text := Row(TwoNamed(x, y, key, v, w)); Strippable(text) && Stripped(text) == text
  {
    hide Row, WithValues, Values, ValuesOf, PutBack, Bare, ReplacedAll, WithoutSpaces, IsEscaped, IsWord, IsPlain;
    hide Strippable, Stripped, Hits;
    var ts, us := TwoNamed(x, y, key, v, w), TwoNamed(x, y, v, v, w);
    TwoValuesBack(x, y, v, w, key);
    TwoAreNamed(x, y, v, w, key);
    SpacelessFront(x, key);
    SpacelessFront(y, key);
    TwoAreTold(x, y, v, w);
    NamesComeOut(us, Row(ts));
    PlainIsFound(x, v, key);
    PlainIsFound(y, v, key);
    assert AllUnspaced(us) == ts;
  }

  lemma SpacelessFront(x: string, key: string)
    requires IsWord(x + key)
    ensures ' ' !in x
  {
    assert forall c | c in x :: c in x + key;
  }
}
