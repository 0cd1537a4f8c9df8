/** Stripping whole filters: of any number of items at any depth, every value gets its spaces back. */
module StrippedFilters {
  import opened Text
  import opened Query
  import opened FilterTree
  import opened Stripping

  // -------------------------------------------------- a filter as a row of items

  /** An item in parentheses, or what stands between items: parentheses and signs of groups. */
  datatype Token = One(attr: string, comp: string, val: string) | Mark(text: string)

  function TokenText(t: Token): string {
    match t
    case One(a, c, v) => OneItem(a, c, v)
    case Mark(m) => m
  }

  function Row(ts: seq<Token>): string { if ts == [] then "" else TokenText(ts[0]) + Row(ts[1..]) }

  /** The same with the values without their spaces. */
  function BareToken(t: Token): Token {
    match t
    case One(a, c, v) => One(a, c, WithoutSpaces(v))
    case Mark(_) => t
  }

  function BareTokens(ts: seq<Token>): (bs: seq<Token>)
    ensures |bs| == |ts|
  {
    if ts == [] then [] else [BareToken(ts[0])] + BareTokens(ts[1..])
  }

  predicate IsMark(m: string) { m == "(&" || m == "(|" || m == "(!" || m == ")" }

  predicate IsToken(t: Token) {
    match t
    case One(a, c, v) => IsWord(a) && IsComparison(c) && IsEscaped(v)
    case Mark(m) => IsMark(m)
  }

  predicate AreTokens(ts: seq<Token>) { forall k | 0 <= k < |ts| :: IsToken(ts[k]) }

  /** The key is found in the text at this place only. */
  predicate OnlyAt(s: string, key: string, place: nat) {
    forall i | 0 <= i < |s| && key <= s[i..] :: i == place
  }

  /** A value with spaces, when those of all values are taken out, is not empty and not found anywhere but
      in its own place. Values without spaces can be found anywhere. */
  predicate Found(ts: seq<Token>, k: nat)
    requires k < |ts|
  {
    ts[k].One? && ' ' in ts[k].val ==>
      var key := WithoutSpaces(ts[k].val);
      && key != ""
      && OnlyAt(Row(BareTokens(ts)), key, |Row(BareTokens(ts[..k]))| + |"(" + ts[k].attr + ts[k].comp|)
  }

  predicate AllFound(ts: seq<Token>) { forall k | 0 <= k < |ts| :: Found(ts, k) }

  lemma {:induction false} RowAppend(a: seq<Token>, b: seq<Token>)
    ensures Row(a + b) == Row(a) + Row(b)
  {
    hide TokenText;
    if a == [] {
      assert a + b == b;
    } else {
      assert (a + b)[1..] == a[1..] + b;
      RowAppend(a[1..], b);
      assert TokenText(a[0]) + (Row(a[1..]) + Row(b)) == TokenText(a[0]) + Row(a[1..]) + Row(b);
    }
  }

  lemma RowCons(t: Token, ts: seq<Token>)
    ensures Row([t] + ts) == TokenText(t) + Row(ts)
  {
    assert ([t] + ts)[1..] == ts;
  }

  lemma {:induction false} BareAppend(a: seq<Token>, b: seq<Token>)
    ensures BareTokens(a + b) == BareTokens(a) + BareTokens(b)
  {
    hide BareToken;
    if a == [] {
      assert a + b == b;
    } else {
      assert (a + b)[1..] == a[1..] + b;
      BareAppend(a[1..], b);
    }
  }

  // -------------------------------------------------- the values are found, in order

  /** The values of the items, with an empty one behind each that ends in an equals sign. */
  function ValuesOf(ts: seq<Token>): seq<string> {
    if ts == [] then []
    else if ts[0].Mark? then ValuesOf(ts[1..])
    else
      var v := ts[0].val;
      (if v != "" && v[|v| - 1] == '=' then [v, ""] else [v]) + ValuesOf(ts[1..])
  }

  lemma {:induction false} SkipPlain(prev: char, m: string, rest: string)
    requires prev != '=' && '=' !in m && m != ""
    ensures Values(prev, m + rest) == Values(m[|m| - 1], rest) && m[|m| - 1] != '='
  {
    assert m[|m| - 1] in m;
    assert forall c | c in m[..|m| - 1] :: c in m;
    SkipToSign(prev, m, rest);
  }

  /** Behind the sign of an item. */
  lemma ValueThen(v: string, rest: string)
    requires IsEscaped(v)
    ensures Values('=', v + (")" + rest))
         == (if v != "" && v[|v| - 1] == '=' then [v, ""] else [v]) + Values(')', rest)
  {
    hide Values, ValueEnd, IsEscaped;
    var s := v + (")" + rest);
    ValueUntil(v, rest);
    FirstValue(s, |v|);
    assert s[|v|..] == ")" + rest && s[..|v|] == v;
    if v == "" {
      assert s[1..] == rest;
    } else {
      assert s[|v| - 1] == v[|v| - 1];
      LastOf(v[|v| - 1], rest);
      assert [v] + ([""] + Values(')', rest)) == [v, ""] + Values(')', rest);
    }
  }

  lemma FirstValue(s: string, k: nat)
    requires ValueEnd(s) == Some(k)
    ensures k == 0 ==> s != "" && Values('=', s) == [""] + Values(s[0], s[1..])
    ensures k > 0 ==> Values('=', s) == [s[..k]] + Values(s[k - 1], s[k..])
  {
    hide ValueEnd;
  }

  lemma LastOf(prev: char, rest: string)
    ensures Values(prev, ")" + rest) == (if prev == '=' then [""] else []) + Values(')', rest)
  {
    assert (")" + rest)[1..] == rest;
  }

  lemma {:induction false} ValueUntil(v: string, rest: string)
    requires IsEscaped(v)
    ensures ValueEnd(v + (")" + rest)) == Some(|v|)
  {
    var s := v + (")" + rest);
    if v != "" {
      assert s[1..] == v[1..] + (")" + rest) && s[0] == v[0] && v[0] in v;
      ValueUntil(v[1..], rest);
    }
  }

  lemma HeadEnds(a: string, c: string)
    requires IsWord(a) && IsComparison(c)
    ensures var head := "(" + a + c; head != "" && head[|head| - 1] == '=' && '=' !in head[..|head| - 1]
  {
    var head := "(" + a + c;
    assert '=' !in a;
    forall k | 0 <= k < |head| - 1 ensures head[k] != '=' {
      assert head[k] == '(' || (1 <= k <= |a| && head[k] == a[k - 1] && a[k - 1] in a) || (|c| == 2 && head[k] == c[0]);
    }
  }

  lemma {:induction false} ValuesAre(prev: char, ts: seq<Token>)
    requires AreTokens(ts) && prev != '='
    ensures Values(prev, Row(ts)) == ValuesOf(ts)
    decreases |ts|
  {
    hide Values, IsWord, IsEscaped, IsComparison;
    if ts == [] {
      NoValues(prev);
    } else {
      var t, rest := ts[0], ts[1..];
      assert IsToken(t);
      match t {
        case Mark(m) =>
          SkipPlain(prev, m, Row(rest));
          ValuesAre(m[|m| - 1], rest);
        case One(a, c, v) =>
          var head := "(" + a + c;
          HeadEnds(a, c);
          assert OneItem(a, c, v) + Row(rest) == head + (v + (")" + Row(rest)));
          SkipToSign(prev, head, v + (")" + Row(rest)));
          ValueThen(v, Row(rest));
          ValuesAre(')', rest);
      }
    }
  }

  lemma NoValues(prev: char)
    ensures Values(prev, "") == []
  {}

  // -------------------------------------------------- all spaces are taken out

  lemma BareText(t: Token)
    requires IsToken(t)
    ensures WithoutSpaces(TokenText(t)) == TokenText(BareToken(t)) && '\n' !in TokenText(t)
  {
    if t.One? {
      BareItem(t.attr, t.comp, t.val);
      BareIs(TokenText(t));
    } else {
      NotThere(t.text, ' ', "");
    }
  }

  lemma {:induction false} BareRow(ts: seq<Token>)
    requires AreTokens(ts)
    ensures WithoutSpaces(Row(ts)) == Row(BareTokens(ts)) && '\n' !in Row(ts)
  {
    hide TokenText, BareToken, IsToken;
    if ts != [] {
      assert IsToken(ts[0]);
      BareText(ts[0]);
      BareRow(ts[1..]);
      ReplacedAppend(TokenText(ts[0]), Row(ts[1..]), ' ', "");
    }
  }

  // -------------------------------------------------- the values are put back

  /** One occurrence, and so one replacement. */
  lemma ReplacedOnce(a: string, key: string, b: string, w: string)
    requires key != "" && OnlyAt(a + (key + b), key, |a|)
    ensures ReplacedAll(a + (key + b), key, w) == a + (w + b)
  {
    hide ReplacedAll;
    var s := a + (key + b);
    forall i | 0 <= i < |a| ensures !(key <= s[i..]) && !(key <= a[i..]) {
      assert s[i..] == a[i..] + (key + b);
      BeginsLonger(key, a[i..], key + b);
    }
    ReplacedApart(a, key + b, key, w);
    NotOccurring(a, key, w);
    forall i | 0 <= i < |b| ensures !(key <= b[i..]) {
      assert s[|a| + |key| + i..] == b[i..];
    }
    NotOccurring(b, key, w);
    assert s[|a|..] == key + b;
    ReplacedFirst(key + b, key, w);
    assert (key + b)[|key|..] == b;
    assert key <= key + b;
  }

  /** Whether a text without spaces is found does not depend on the spaces around it. */
  lemma FoundAmongSpaces(s: string, key: string, place: nat)
    requires key != "" && ' ' !in key && place <= |s| && key <= s[place..]
    requires OnlyAt(WithoutSpaces(s), key, |WithoutSpaces(s[..place])|)
    ensures OnlyAt(s, key, place)
  {
    hide Replaced;
    forall i | 0 <= i < |s| && key <= s[i..] ensures i == place {
      FoundBare(s, key, i);
      FoundBare(s, key, place);
      if i < place {
        MoreBefore(s, i, place);
      } else if place < i {
        MoreBefore(s, place, i);
      }
    }
  }

  lemma FoundBare(s: string, key: string, i: nat)
    requires key != "" && ' ' !in key && i <= |s| && key <= s[i..]
    ensures var b, j := WithoutSpaces(s), |WithoutSpaces(s[..i])|; j < |b| && key <= b[j..]
    ensures i < |s| && s[i] != ' '
  {
    hide Replaced;
    var a, c := s[..i], s[i + |key|..];
    assert s == a + (key + c) by { assert s[i..] == key + c; }
    ReplacedAppend(a, key + c, ' ', "");
    ReplacedAppend(key, c, ' ', "");
    NotThere(key, ' ', "");
    assert WithoutSpaces(s)[|WithoutSpaces(a)|..] == key + WithoutSpaces(c);
    assert s[i] == key[0] && key[0] in key;
  }

  /** A character that is no space makes the text in front longer. */
  lemma MoreBefore(s: string, i: nat, j: nat)
    requires i < j <= |s| && s[i] != ' '
    ensures |WithoutSpaces(s[..i])| < |WithoutSpaces(s[..j])|
  {
    hide Replaced;
    assert s[..j] == s[..i] + ([s[i]] + s[i + 1..j]);
    ReplacedAppend(s[..i], [s[i]] + s[i + 1..j], ' ', "");
    ReplacedAppend([s[i]], s[i + 1..j], ' ', "");
    NotThere([s[i]], ' ', "");
  }

  /** The items up to k have their values back, the others wait. */
  function Part(ts: seq<Token>, k: nat): string
    requires k <= |ts|
  {
    Row(ts[..k]) + Row(BareTokens(ts[k..]))
  }

  lemma PartBare(ts: seq<Token>, k: nat)
    requires AreTokens(ts) && k <= |ts|
    ensures WithoutSpaces(Part(ts, k)) == Row(BareTokens(ts))
  {
    hide Row, TokenText, BareTokens, IsToken, WithoutSpaces, Replaced;
    var front, back := ts[..k], ts[k..];
    assert front + back == ts;
    BareRow(front);
    BareRow(back);
    BareTwice(Row(back));
    BareOfBoth(Row(front), Row(BareTokens(back)));
    BareAppend(front, back);
    RowAppend(BareTokens(front), BareTokens(back));
  }

  lemma BareOfBoth(a: string, b: string)
    ensures WithoutSpaces(a + b) == WithoutSpaces(a) + WithoutSpaces(b)
  {
    ReplacedAppend(a, b, ' ', "");
  }

  lemma BareTwice(s: string)
    ensures WithoutSpaces(WithoutSpaces(s)) == WithoutSpaces(s)
  {
    KeyChars(s);
    NotThere(WithoutSpaces(s), ' ', "");
  }

  lemma TokenApart(ts: seq<Token>, k: nat)
    requires k < |ts|
    ensures Part(ts, k) == Row(ts[..k]) + (TokenText(BareToken(ts[k])) + Row(BareTokens(ts[k + 1..])))
    ensures Part(ts, k + 1) == Row(ts[..k]) + (TokenText(ts[k]) + Row(BareTokens(ts[k + 1..])))
  {
    hide TokenText, BareToken;
    assert ts[k..][1..] == ts[k + 1..];
    assert ts[..k + 1] == ts[..k] + [ts[k]];
    RowAppend(ts[..k], [ts[k]]);
    RowCons(ts[k], []);
    assert [ts[k]] + [] == [ts[k]] && TokenText(ts[k]) + "" == TokenText(ts[k]);
    assert Row(ts[..k]) + TokenText(ts[k]) + Row(BareTokens(ts[k + 1..]))
        == Row(ts[..k]) + (TokenText(ts[k]) + Row(BareTokens(ts[k + 1..])));
  }

  /** One value is put back. */
  lemma ValuePutBack(ts: seq<Token>, k: nat)
    requires AreTokens(ts) && k < |ts| && ts[k].One? && Found(ts, k)
    ensures ReplacedAll(Part(ts, k), Bare(ts[k].val), ts[k].val) == Part(ts, k + 1)
  {
    hide Row, BareTokens, WithoutSpaces, IsWord, IsComparison, Part, ReplacedAll, OnlyAt, Bare;
    var a, c, v := ts[k].attr, ts[k].comp, ts[k].val;
    var key := WithoutSpaces(v);
    assert IsToken(ts[k]);
    BareIs(v);
    KeyChars(v);
    TokenApart(ts, k);
    if ' ' in v {
      var front, head, back := Row(ts[..k]), "(" + a + c, Row(BareTokens(ts[k + 1..]));
      var s := Part(ts, k);
      assert s == front + head + (key + (")" + back)) by { Assembled(front, head, key, back); }
      assert Part(ts, k + 1) == front + head + (v + (")" + back)) by { Assembled(front, head, v, back); }
      PartBare(ts, k);
      BareHead(ts[..k], a, c);
      assert s[..|front + head|] == front + head && s[|front + head|..] == key + (")" + back);
      FoundAmongSpaces(s, key, |front + head|);
      ReplacedOnce(front + head, key, ")" + back, v);
    } else {
      ReplacedBySame(Part(ts, k), v);
    }
  }

  lemma Assembled(front: string, head: string, v: string, back: string)
    ensures front + (head + v + ")" + back) == front + head + (v + (")" + back))
  {}

  lemma BareHead(ts: seq<Token>, a: string, c: string)
    requires AreTokens(ts) && IsWord(a) && IsComparison(c)
    ensures |WithoutSpaces(Row(ts) + ("(" + a + c))| == |Row(BareTokens(ts))| + |"(" + a + c|
  {
    hide Row, BareTokens, IsToken;
    BareRow(ts);
    BareOfBoth(Row(ts), "(" + a + c);
    NotThere("(" + a + c, ' ', "");
  }

  lemma {:induction false} AllPutBack(ts: seq<Token>, k: nat)
    requires AreTokens(ts) && AllFound(ts) && k <= |ts|
    ensures PutBack(ValuesOf(ts[k..]), Part(ts, k)) == Row(ts)
    decreases |ts| - k
  {
    hide Row, TokenText, BareTokens, BareToken, Part, Found, IsToken, ReplacedAll, Bare;
    if k == |ts| {
      Finished(ts);
    } else {
      var rest := ts[k + 1..];
      assert ts[k..][1..] == rest && ts[k..][0] == ts[k];
      AllPutBack(ts, k + 1);
      if ts[k].Mark? {
        TokenApart(ts, k);
        MarkIsBare(ts[k]);
      } else {
        assert Found(ts, k);
        ValuePutBack(ts, k);
        PutBackFirst(ts[k].val, ValuesOf(rest), Part(ts, k));
      }
    }
  }

  lemma MarkIsBare(t: Token)
    requires t.Mark?
    ensures BareToken(t) == t
  {}

  lemma Finished(ts: seq<Token>)
    ensures ts[|ts|..] == [] && Part(ts, |ts|) == Row(ts)
  {
    assert ts[..|ts|] == ts;
    assert Row(ts) + "" == Row(ts);
  }

  lemma PutBackFirst(v: string, vs: seq<string>, s: string)
    ensures PutBack([v] + vs, s) == PutBack([v, ""] + vs, s) == PutBack(vs, ReplacedAll(s, Bare(v), v))
  {
    hide ReplacedAll, Bare;
    var t := ReplacedAll(s, Bare(v), v);
    BareIs("");
    ReplacedBySame(t, "");
    assert ([v] + vs)[1..] == vs && ([v, ""] + vs)[1..] == [""] + vs && ([""] + vs)[1..] == vs;
  }

  // -------------------------------------------------- and the names have no spaces

  /** No space before the first sign. */
  predicate ClearToSign(s: string) { s != "" && !IsSign(s[0]) ==> s[0] != ' ' && ClearToSign(s[1..]) }

  predicate ClearBehind(s: string) { forall i | 0 <= i < |s| && s[i] == '(' :: ClearToSign(s[i + 1..]) }

  lemma {:induction false} NameIsClear(s: string)
    requires ClearToSign(s) && NameEnd(s).Some?
    ensures ' ' !in s[..NameEnd(s).value]
  {
    if !IsSign(s[0]) {
      NameIsClear(s[1..]);
      var k := NameEnd(s[1..]).value;
      assert s[..k + 1] == [s[0]] + s[1..][..k];
    }
  }

  lemma ClearLater(s: string, k: nat)
    requires ClearBehind(s) && k <= |s|
    ensures ClearBehind(s[k..])
  {
    forall i | 0 <= i < |s[k..]| && s[k..][i] == '(' ensures ClearToSign(s[k..][i + 1..]) {
      assert s[k..][i + 1..] == s[k + i + 1..] && s[k + i] == '(';
    }
  }

  lemma {:induction false} NamesAreClear(prev: char, s: string)
    requires ClearBehind(s) && (prev == '(' ==> ClearToSign(s))
    ensures forall name | name in Names(prev, s) :: ' ' !in name
    decreases |s|
  {
    hide NameEnd, ClearToSign, ClearBehind;
    if s != "" {
      ClearLater(s, 1);
      ClearNext(s);
      if prev == '(' && NameEnd(s).Some? {
        var k := NameEnd(s).value;
        NameIsClear(s);
        if k == 0 {
          NamesAreClear(s[0], s[1..]);
        } else {
          ClearLater(s, k);
          ClearNext(s[k - 1..]) by { ClearLater(s, k - 1); }
          assert s[k - 1..][1..] == s[k..];
          NamesAreClear(s[k - 1], s[k..]);
        }
      } else {
        NamesAreClear(s[0], s[1..]);
      }
    }
  }

  lemma ClearNext(s: string)
    requires s != "" && ClearBehind(s)
    ensures s[0] == '(' ==> ClearToSign(s[1..])
  {}

  lemma {:induction false} ClearThrough(m: string, rest: string)
    requires ' ' !in m && (ClearToSign(rest) || exists i :: 0 <= i < |m| && IsSign(m[i]))
    ensures ClearToSign(m + rest)
  {
    if m == "" {
      assert m + rest == rest;
    } else {
      assert (m + rest)[0] == m[0] && (m + rest)[1..] == m[1..] + rest && m[0] in m;
      if !IsSign(m[0]) {
        if !ClearToSign(rest) {
          var i :| 0 <= i < |m| && IsSign(m[i]);
          assert m[1..][i - 1] == m[i];
        }
        assert forall c | c in m[1..] :: c in m;
        ClearThrough(m[1..], rest);
      }
    }
  }

  lemma {:induction false} RowIsClear(ts: seq<Token>)
    requires AreTokens(ts)
    ensures ClearToSign(Row(ts)) && ClearBehind(Row(ts))
  {
    hide ClearToSign, IsWord, IsComparison, IsEscaped;
    if ts == [] {
      NothingIsClear();
    } else {
      var t, rest := ts[0], ts[1..];
      assert IsToken(t);
      RowIsClear(rest);
      match t {
        case Mark(m) => MarkIsClear(m, Row(rest));
        case One(a, c, v) => ItemIsClear(a, c, v, Row(rest));
      }
    }
  }

  lemma NothingIsClear()
    ensures ClearToSign("")
  {}

  lemma MarkIsClear(m: string, rest: string)
    requires IsMark(m) && ClearToSign(rest) && ClearBehind(rest)
    ensures ClearToSign(m + rest) && ClearBehind(m + rest)
  {
    hide ClearToSign;
    ClearThrough(m, rest);
    var s := m + rest;
    forall i | 0 <= i < |s| && s[i] == '(' ensures ClearToSign(s[i + 1..]) {
      if i < |m| {
        assert s[i + 1..] == m[i + 1..] + rest;
        ClearThrough(m[i + 1..], rest);
      } else {
        assert s[i + 1..] == rest[i - |m| + 1..] && rest[i - |m|] == '(';
      }
    }
  }

  lemma ItemIsClear(a: string, c: string, v: string, rest: string)
    requires IsWord(a) && IsComparison(c) && IsEscaped(v) && ClearBehind(rest)
    ensures ClearToSign(OneItem(a, c, v) + rest) && ClearBehind(OneItem(a, c, v) + rest)
  {
    hide ClearToSign;
    var s := OneItem(a, c, v) + rest;
    var tail := v + ")" + rest;
    assert s == "(" + a + c + tail;
    SignIn("(" + a, c);
    ClearThrough("(" + a + c, tail);
    SignIn(a, c);
    ClearThrough(a + c, tail);
    forall i | 0 <= i < |s| && s[i] == '(' ensures ClearToSign(s[i + 1..]) {
      var n := |OneItem(a, c, v)|;
      if i >= n {
        assert s[i + 1..] == rest[i - n + 1..] && rest[i - n] == '(';
      } else {
        OnlyOpening(a, c, v, i);
        assert s[1..] == a + c + tail;
      }
    }
  }

  lemma SignIn(a: string, c: string)
    requires (forall x | x in a :: IsWordChar(x) || x == '(') && IsComparison(c)
    ensures ' ' !in a + c && exists i :: 0 <= i < |a + c| && IsSign((a + c)[i])
  {
    assert (a + c)[|a|] == c[0] && IsSign(c[0]);
  }

  lemma OnlyOpening(a: string, c: string, v: string, i: nat)
    requires IsWord(a) && IsComparison(c) && IsEscaped(v) && i < |OneItem(a, c, v)|
    ensures OneItem(a, c, v)[i] == '(' ==> i == 0
  {
    var s := OneItem(a, c, v);
    if 0 < i <= |a| { assert s[i] == a[i - 1] && a[i - 1] in a; }
    else if |a| < i <= |a| + |c| { assert s[i] == c[i - 1 - |a|]; }
    else if |a| + |c| < i <= |a| + |c| + |v| {
      assert s[i] == v[i - 1 - |a| - |c|] && v[i - 1 - |a| - |c|] in v;
    }
  }

  // -------------------------------------------------- the whole

  lemma RowComesBack(ts: seq<Token>)
    requires AreTokens(ts) && AllFound(ts)
    ensures Strippable(Row(ts)) && Stripped(Row(ts)) == Row(ts)
  {
    hide Row, Values, ValuesOf, Bare, PutBack, Names, Rename, Found, ClearBehind, ClearToSign, IsToken, BareTokens;
    var s := Row(ts);
    ValuesAre(START_OF_TEXT, ts);
    BareRow(ts);
    BareIs(s);
    assert ts[0..] == ts && ts[..0] == [];
    NothingYet(ts);
    AllPutBack(ts, 0);
    assert WithValues(s) == s;
    RowIsClear(ts);
    NamesAreClear(START_OF_TEXT, s);
    NothingRenamed(Names(START_OF_TEXT, s), s);
  }

  lemma NothingYet(ts: seq<Token>)
    ensures Part(ts, 0) == Row(BareTokens(ts))
  {
    assert ts[0..] == ts && ts[..0] == [];
    assert "" + Row(BareTokens(ts)) == Row(BareTokens(ts));
  }

  // -------------------------------------------------- filters

  function Opening(op: Op): string { if op == And then "(&" else if op == Or then "(|" else "(!" }

  function Tokens(t: Filter): seq<Token>
    decreases t
  {
    match t
    case Item(a, c, v) => [One(a, c, v)]
    case Group(op, fs) => [Mark(Opening(op))] + TokensOf(fs) + [Mark(")")]
    case _ => []
  }

  function TokensOf(ts: seq<Filter>): seq<Token>
    decreases ts
  {
    if ts == [] then [] else Tokens(ts[0]) + TokensOf(ts[1..])
  }

  lemma {:induction false} PrintIsRow(t: Filter)
    requires Proper(t)
    ensures Print(t) == Row(Tokens(t))
    decreases t, 0
  {
    match t {
      case Item(a, c, v) => RowOne(One(a, c, v));
      case Group(op, fs) =>
        PrintsAreRow(fs);
        RowOne(Mark(Opening(op)));
        RowOne(Mark(")"));
        RowAppend([Mark(Opening(op))] + TokensOf(fs), [Mark(")")]);
        RowAppend([Mark(Opening(op))], TokensOf(fs));
      case _ =>
    }
  }

  lemma RowOne(t: Token)
    ensures Row([t]) == TokenText(t)
  {
    hide TokenText;
    assert [t][1..] == [] && TokenText(t) + "" == TokenText(t);
  }

  lemma {:induction false} PrintsAreRow(ts: seq<Filter>)
    requires forall k | 0 <= k < |ts| :: Proper(ts[k])
    ensures PrintAll(ts) == Row(TokensOf(ts))
    decreases ts, 1
  {
    hide Print;
    if ts != [] {
      PrintIsRow(ts[0]);
      PrintsAreRow(ts[1..]);
      RowAppend(Tokens(ts[0]), TokensOf(ts[1..]));
    }
  }

  /** _strip_whitespace leaves a printed filter as it is, however many items it has and at any depth, if
      every value with spaces, when all spaces are out, is found in its own place only. Values are as
      escape leaves them, without line feeds. */
  lemma FilterComesBack(t: Filter)
    requires Proper(t) && AreTokens(Tokens(t)) && AllFound(Tokens(t))
    ensures Strippable(Print(t)) && Stripped(Print(t)) == Print(t)
  {
    PrintIsRow(t);
    RowComesBack(Tokens(t));
  }

  // -------------------------------------------------- an example

  lemma FirstLetterOnly(a: string, key: string, b: string)
    requires key != "" && key[0] !in a && key[0] !in key[1..] && key[0] !in b
    ensures OnlyAt(a + (key + b), key, |a|)
  {
    var s := a + (key + b);
    forall i | 0 <= i < |s| ensures key <= s[i..] ==> i == |a| {
      assert s[i..][0] == s[i];
      if i < |a| { assert s[i] == a[i] && a[i] in a; }
      else if |a| < i < |a| + |key| { assert s[i] == key[1..][i - |a| - 1]; }
      else if i >= |a| + |key| { assert s[i] == b[i - |a| - |key|] && b[i - |a| - |key|] in b; }
    }
  }

  /** A group of two items, the second with spaces in its value: it comes back if the first letter of that
      value is nowhere else. */
  lemma TwoItems(op: Op, user: Filter, john: Filter, key: string)
    requires user.Item? && john.Item? && IsWord(user.attr) && IsWord(john.attr)
    requires user.comp == john.comp == "=" && IsEscaped(user.val) && IsEscaped(john.val)
    requires ' ' !in user.val && key == WithoutSpaces(john.val) && key != ""
    requires var a := Opening(op) + ("(" + user.attr + "=" + user.val + ")") + ("(" + john.attr + "=");
             key[0] !in a && key[0] !in key[1..] && key[0] !in "))"
    ensures var t := Group(op, [user, john]); Strippable(Print(t)) && Stripped(Print(t)) == Print(t)
  {
    hide Row, BareTokens, OnlyAt, IsWord, IsEscaped, WithoutSpaces, Found, Tokens, TokensOf, TokenText, BareToken;
    hide Print, Stripped, Strippable;
    var u, j := One(user.attr, "=", user.val), One(john.attr, "=", john.val);
    var open, close := Mark(Opening(op)), Mark(")");
    var ts := [open, u, j, close];
    var t := Group(op, [user, john]);
    TokensOfTwo(op, user, john);
    assert IsToken(open) && IsToken(u) && IsToken(j) && IsToken(close) by { MarksAreTokens(op); }
    NoSpaceThere(user.val);
    var bare := One(john.attr, "=", key);
    BareFour(open, u, j, close, bare);
    var a := Opening(op) + ("(" + user.attr + "=" + user.val + ")") + ("(" + john.attr + "=");
    RowOfTwo(op, u, bare, a);
    FirstLetterOnly(a, key, "))");
    assert ts[..2] == [open, u];
    forall k | 0 <= k < |ts| ensures Found(ts, k) { FoundInFour(ts, k, key, |a|); }
    FilterComesBack(t);
  }

  lemma RowOfTwo(op: Op, u: Token, b: Token, a: string)
    requires u.One? && b.One? && u.comp == b.comp == "="
    requires a == Opening(op) + ("(" + u.attr + "=" + u.val + ")") + ("(" + b.attr + "=")
    ensures Row([Mark(Opening(op)), u, b, Mark(")")]) == a + (b.val + "))")
    ensures |Row([Mark(Opening(op)), u])| + |"(" + b.attr + "="| == |a|
  {
    hide Row, Opening;
    RowFour(Mark(Opening(op)), u, b, Mark(")"));
    Regrouped(Opening(op), "(" + u.attr + "=" + u.val + ")", "(" + b.attr + "=", b.val, ")");
    assert "))" == ")" + ")";
  }

  lemma Regrouped(o: string, u: string, h: string, v: string, c: string)
    ensures o + (u + ((h + v + c) + c)) == o + u + h + (v + (c + c))
  {}

  lemma TokensOfTwo(op: Op, a: Filter, b: Filter)
    requires a.Item? && b.Item?
    ensures Tokens(Group(op, [a, b]))
         == [Mark(Opening(op)), One(a.attr, a.comp, a.val), One(b.attr, b.comp, b.val), Mark(")")]
  {
    TokensCons(b, []);
    TokensCons(a, [b]);
    assert [b] + [] == [b] && [a] + [b] == [a, b];
  }

  lemma TokensCons(t: Filter, ts: seq<Filter>)
    ensures TokensOf([t] + ts) == Tokens(t) + TokensOf(ts)
  {
    assert ([t] + ts)[1..] == ts;
  }

  lemma MarksAreTokens(op: Op)
    ensures IsToken(Mark(Opening(op))) && IsToken(Mark(")")) && Mark(Opening(op)).Mark?
  {}

  lemma NoSpaceThere(v: string)
    requires ' ' !in v
    ensures WithoutSpaces(v) == v
  {
    NotThere(v, ' ', "");
  }

  lemma BareFour(open: Token, u: Token, j: Token, close: Token, bare: Token)
    requires open.Mark? && close.Mark? && u.One? && j.One? && WithoutSpaces(u.val) == u.val
    requires bare == One(j.attr, j.comp, WithoutSpaces(j.val))
    ensures BareTokens([open, u, j, close]) == [open, u, bare, close] && BareTokens([open, u]) == [open, u]
  {
    hide WithoutSpaces;
    assert [open, u, j, close][1..] == [u, j, close] && [u, j, close][1..] == [j, close];
    assert [j, close][1..] == [close] && [close][1..] == [] && [open, u][1..] == [u] && [u][1..] == [];
    assert BareTokens([close]) == [close] && BareTokens([j, close]) == [bare, close];
    assert BareTokens([u, j, close]) == [u, bare, close] && BareTokens([u]) == [u];
  }

  lemma RowFour(open: Token, u: Token, j: Token, close: Token)
    ensures Row([open, u, j, close]) == TokenText(open) + (TokenText(u) + (TokenText(j) + TokenText(close)))
    ensures Row([open, u]) == TokenText(open) + TokenText(u)
  {
    hide TokenText;
    RowOne(close);
    RowOne(u);
    RowCons(j, [close]);
    RowCons(u, [j, close]);
    RowCons(open, [u, j, close]);
    RowCons(open, [u]);
    assert [j] + [close] == [j, close] && [u] + [j, close] == [u, j, close] && [open] + [u] == [open, u];
    assert [open] + [u, j, close] == [open, u, j, close];
  }

  lemma FoundInFour(ts: seq<Token>, k: nat, key: string, place: nat)
    requires |ts| == 4 && k < 4 && ts[0].Mark? && ts[1].One? && ts[2].One? && ts[3].Mark? && ' ' !in ts[1].val
    requires key != "" && key == WithoutSpaces(ts[2].val) && OnlyAt(Row(BareTokens(ts)), key, place)
    requires |Row(BareTokens(ts[..2]))| + |"(" + ts[2].attr + ts[2].comp| == place
    ensures Found(ts, k)
  {
    hide Row, BareTokens, OnlyAt, WithoutSpaces;
  }

  /** "(&(objectClass=user)(cn=John Smith))" keeps its space. */
  lemma SecondValueExample(user: Filter, john: Filter)
    requires user == Item("objectClass", "=", "user") && john == Item("cn", "=", "John Smith")
    ensures var t := Group(And, [user, john]); Strippable(Print(t)) && Stripped(Print(t)) == Print(t)
  {
    hide WithoutSpaces, Print, Stripped, Strippable, IsWord, IsEscaped;
    var key := "JohnSmith";
    SpaceBetween("John", "Smith");
    assert john.val == "John" + " " + "Smith" && "John" + "Smith" == key;
    ObjectClass(user.attr);
    CommonName(john.attr);
    UserValue(user.val);
    JohnValue(john.val);
    JohnKey(key);
    TwoItems(And, user, john, key) by {
      NotInHead(key[0], Opening(And), user.attr, user.val, john.attr);
    }
  }

  lemma ObjectClass(s: string)
    requires s == "objectClass"
    ensures IsWord(s) && 'J' !in s
  {}

  lemma CommonName(s: string)
    requires s == "cn"
    ensures IsWord(s) && 'J' !in s
  {}

  lemma UserValue(s: string)
    requires s == "user"
    ensures IsEscaped(s) && 'J' !in s && ' ' !in s
  {}

  lemma JohnValue(s: string)
    requires s == "John Smith"
    ensures IsEscaped(s)
  {}

  lemma JohnKey(s: string)
    requires s == "JohnSmith"
    ensures s != "" && s[0] == 'J' && 'J' !in s[1..]
  {}

  lemma NotInHead(c: char, sign: string, a: string, v: string, b: string)
    requires c !in sign && c !in a && c !in v && c !in b && c != '(' && c != ')' && c != '='
    ensures c !in sign + ("(" + a + "=" + v + ")") + ("(" + b + "=")
  {}

  lemma SpaceBetween(x: string, y: string)
    requires ' ' !in x && ' ' !in y
    ensures WithoutSpaces(x + " " + y) == x + y
  {
    ReplacedAppend(x + " ", y, ' ', "");
    ReplacedAppend(x, " ", ' ', "");
    NotThere(x, ' ', "");
    NotThere(y, ' ', "");
    assert " "[1..] == "" && x + "" == x;
  }
}
