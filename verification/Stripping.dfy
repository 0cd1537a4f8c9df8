/** _strip_whitespace, which every filter goes through before it is parsed: it takes out all spaces and
    line breaks, and puts the values it found before back in. */
module Stripping {
  import opened Text
  import opened Query

  // -------------------------------------------------- taking out

  /** str.replace of a carriage return and line feed by nothing. */
  function DropCrLf(s: string): string {
    if s == "" then ""
    else if |s| >= 2 && s[0] == '\r' && s[1] == '\n' then DropCrLf(s[2..])
    else [s[0]] + DropCrLf(s[1..])
  }

  function WithoutLineFeeds(s: string): string { Replaced(DropCrLf(s), '\n', "") }

  function WithoutSpaces(s: string): string { Replaced(s, ' ', "") }

  function Bare(s: string): string { WithoutSpaces(WithoutLineFeeds(s)) }

  // -------------------------------------------------- the values

  /** How far a value goes: up to the first closing parenthesis, if no line feed comes before. */
  function ValueEnd(s: string): (r: Option<nat>)
    ensures r.Some? ==> r.value < |s|
  {
    if s == "" || s[0] == '\n' then None
    else if s[0] == ')' then Some(0)
    else
      match ValueEnd(s[1..])
      case None => None
      case Some(k) => Some(k + 1)
  }

  /** re.findall of the values in the rest of a text behind the character prev. A value begins behind an
      equals sign. */
  function Values(prev: char, s: string): seq<string>
    decreases |s|
  {
    if s == "" then []
    else if prev == '=' && ValueEnd(s).Some? then
      var k := ValueEnd(s).value;
      if k == 0 then [""] + Values(s[0], s[1..]) else [s[..k]] + Values(s[k - 1], s[k..])
    else Values(s[0], s[1..])
  }

  /** str.replace of a text; of an empty one it puts the new text around every character. */
  function ReplacedAll(s: string, key: string, w: string): string
    decreases |s|
  {
    if key == "" then (if s == "" then w else w + [s[0]] + ReplacedAll(s[1..], key, w))
    else if s == "" then ""
    else if key <= s then w + ReplacedAll(s[|key|..], key, w)
    else [s[0]] + ReplacedAll(s[1..], key, w)
  }

  function PutBack(values: seq<string>, s: string): string {
    if values == [] then s else PutBack(values[1..], ReplacedAll(s, Bare(values[0]), values[0]))
  }

  // -------------------------------------------------- the names

  predicate IsSign(c: char) { c == '=' || c == '~' || c == '>' || c == '<' }

  /** [a-zA-Z0-9 -.], where ` -.` is a range. */
  predicate IsNameChar(c: char) {
    'a' <= c <= 'z' || 'A' <= c <= 'Z' || '0' <= c <= '9' || ' ' <= c <= '.'
  }

  function NameEnd(s: string): (r: Option<nat>)
    ensures r.Some? ==> r.value < |s|
  {
    if s == "" then None
    else if IsSign(s[0]) then Some(0)
    else if !IsNameChar(s[0]) then None
    else
      match NameEnd(s[1..])
      case None => None
      case Some(k) => Some(k + 1)
  }

  /** re.findall of the names in the rest of a text behind the character prev. */
  function Names(prev: char, s: string): seq<string>
    decreases |s|
  {
    if s == "" then []
    else if prev == '(' && NameEnd(s).Some? then
      var k := NameEnd(s).value;
      if k == 0 then [""] + Names(s[0], s[1..]) else [s[..k]] + Names(s[k - 1], s[k..])
    else Names(s[0], s[1..])
  }

  /** A name taken for a regular expression matches one character for each of its own, unless it holds
      any of !"#$%&'()*+, */
  predicate NoPattern(name: string) { forall c | c in name :: !('!' <= c <= ',') }

  predicate Matches(name: string, s: string) {
    |name| <= |s| && forall k | 0 <= k < |name| ::
                       if name[k] == '.' then s[k] != '\n' else UpperChar(name[k]) == UpperChar(s[k])
  }

  /** How far the expression name? followed by a sign matches, the last character of the name being
      optional. */
  function MatchEnd(name: string, s: string): (r: Option<nat>)
    requires name != ""
    ensures r.Some? ==> r.value < |s|
  {
    var n := |name|;
    if Matches(name, s) && n < |s| && IsSign(s[n]) then Some(n)
    else if Matches(name[..n - 1], s) && n - 1 < |s| && IsSign(s[n - 1]) then Some(n - 1)
    else None
  }

  /** re.sub of the name behind an opening parenthesis by the name without spaces. */
  function Renamed(prev: char, s: string, name: string): string
    requires name != ""
    decreases |s|
  {
    if s == "" then ""
    else if prev == '(' && MatchEnd(name, s).Some? then
      var k := MatchEnd(name, s).value;
      if k == 0 then WithoutSpaces(name) + [s[0]] + Renamed(s[0], s[1..], name)
      else WithoutSpaces(name) + Renamed(s[k - 1], s[k..], name)
    else [s[0]] + Renamed(s[0], s[1..], name)
  }

  function Rename(names: seq<string>, s: string): string {
    if names == [] then s
    else Rename(names[1..], if ' ' in names[0] then Renamed(START_OF_TEXT, s, names[0]) else s)
  }

  /** Stands for no character. */
  const START_OF_TEXT := '\0'

  // -------------------------------------------------- the whole

  function WithValues(text: string): string { PutBack(Values(START_OF_TEXT, text), Bare(text)) }

  /** The names are no patterns. */
  predicate Strippable(text: string) {
    forall name | name in Names(START_OF_TEXT, WithValues(text)) :: ' ' in name ==> NoPattern(name)
  }

  /** _strip_whitespace */
  function Stripped(text: string): string
    requires Strippable(text)
  {
    Rename(Names(START_OF_TEXT, WithValues(text)), WithValues(text))
  }

  // -------------------------------------------------- texts without spaces

  lemma {:induction false} NoLineFeed(s: string)
    requires '\n' !in s
    ensures DropCrLf(s) == s && WithoutLineFeeds(s) == s
  {
    NotThere(s, '\n', "");
    if s != "" { NoLineFeed(s[1..]); }
  }

  lemma BareIs(s: string)
    requires '\n' !in s
    ensures Bare(s) == WithoutSpaces(s)
    ensures ' ' !in s ==> Bare(s) == s
  {
    NoLineFeed(s);
    if ' ' !in s { NotThere(s, ' ', ""); }
  }

  lemma {:induction false} ReplacedBySame(s: string, key: string)
    ensures ReplacedAll(s, key, key) == s
    decreases |s|
  {
    if s != "" {
      ReplacedBySame(s[1..], key);
      if key != "" && key <= s { ReplacedBySame(s[|key|..], key); }
    }
  }

  lemma {:induction false} ValueIsOnOneLine(s: string)
    requires ValueEnd(s).Some?
    ensures '\n' !in s[..ValueEnd(s).value]
  {
    if s[0] != ')' {
      ValueIsOnOneLine(s[1..]);
      var k := ValueEnd(s[1..]).value;
      assert s[..k + 1] == [s[0]] + s[1..][..k];
    }
  }

  /** Of a text without spaces, the values that are put back are there. */
  lemma {:induction false} NothingPutBack(prev: char, s: string, t: string)
    requires ' ' !in s
    ensures PutBack(Values(prev, s), t) == t
    decreases |s|
  {
    hide Bare, ReplacedAll, ValueEnd;
    if s != "" {
      if prev == '=' && ValueEnd(s).Some? {
        var k := ValueEnd(s).value;
        ValueIsOnOneLine(s);
        BareIs(s[..k]);
        ReplacedBySame(t, s[..k]);
        if k == 0 { NothingPutBack(s[0], s[1..], t); } else { NothingPutBack(s[k - 1], s[k..], t); }
      } else {
        NothingPutBack(s[0], s[1..], t);
      }
    }
  }

  lemma {:induction false} NamesAreParts(prev: char, s: string)
    requires ' ' !in s
    ensures forall name | name in Names(prev, s) :: ' ' !in name
    decreases |s|
  {
    hide NameEnd;
    if s != "" {
      if prev == '(' && NameEnd(s).Some? {
        var k := NameEnd(s).value;
        if k == 0 { NamesAreParts(s[0], s[1..]); } else { NamesAreParts(s[k - 1], s[k..]); }
      } else {
        NamesAreParts(s[0], s[1..]);
      }
    }
  }

  lemma {:induction false} NothingRenamed(names: seq<string>, s: string)
    requires forall name | name in names :: ' ' !in name
    ensures Rename(names, s) == s
  {
    if names != [] { NothingRenamed(names[1..], s); }
  }

  lemma {:induction false} NoneAdded(s: string, c: char)
    requires c !in s
    ensures c !in DropCrLf(s) && c !in Replaced(s, '\n', "")
    decreases |s|
  {
    if s != "" {
      NoneAdded(s[1..], c);
      if |s| >= 2 { NoneAdded(s[2..], c); }
      assert s[0] in s;
    }
  }

  /** A text without spaces loses its line breaks. */
  lemma StrippedOfSpaceless(text: string)
    requires ' ' !in text
    ensures Strippable(text) && Stripped(text) == WithoutLineFeeds(text)
  {
    hide Values, Names, Bare, WithoutLineFeeds, PutBack, Rename;
    NothingPutBack(START_OF_TEXT, text, Bare(text));
    assert Bare(text) == WithoutLineFeeds(text) && ' ' !in Bare(text) by { SpacelessBare(text); }
    NamesAreParts(START_OF_TEXT, Bare(text));
    NothingRenamed(Names(START_OF_TEXT, Bare(text)), Bare(text));
  }

  lemma SpacelessBare(text: string)
    requires ' ' !in text
    ensures Bare(text) == WithoutLineFeeds(text) && ' ' !in Bare(text)
  {
    NoneAdded(text, ' ');
    NoneAdded(DropCrLf(text), ' ');
    NotThere(WithoutLineFeeds(text), ' ', "");
  }

  // -------------------------------------------------- one item

  /** The characters of an attribute that the grammar reads; a colon is no part of what is taken for a
      name here. */
  predicate IsWordChar(c: char) {
    'a' <= c <= 'z' || 'A' <= c <= 'Z' || '0' <= c <= '9' || c == '-' || c == '.' || c == ':'
  }

  predicate IsWord(a: string) { a != "" && forall c | c in a :: IsWordChar(c) }

  predicate IsComparison(c: string) { c in {"=", "~=", ">=", "<="} }

  function OneItem(a: string, c: string, v: string): string { "(" + a + c + v + ")" }

  /** No line feed, and no parenthesis but those around. */
  predicate IsEscaped(v: string) { '\n' !in v && '(' !in v && ')' !in v }

  /** Without its spaces the value does not begin within the comparison, or in front of it and reach
      into it: what is put back lands in its own place, and otherwise only in a name without colon. */
  predicate Recoverable(a: string, c: string, v: string) {
    var key, head := WithoutSpaces(v), "(" + a + c;
    key != "" && forall i | 0 <= i < |head| && key <= (head + key)[i..] :: i + |key| <= 1 + |a| && ':' !in a
  }

  lemma {:induction false} SkipToSign(prev: char, a: string, rest: string)
    requires prev != '=' && a != "" && '=' !in a[..|a| - 1]
    ensures Values(prev, a + rest) == Values(a[|a| - 1], rest)
    decreases |a|
  {
    assert (a + rest)[0] == a[0] && (a + rest)[1..] == a[1..] + rest;
    if |a| == 1 {
      assert a[1..] + rest == rest;
    } else {
      assert a[0] == a[..|a| - 1][0] && a[1..][..|a| - 2] == a[..|a| - 1][1..];
      SkipToSign(a[0], a[1..], rest);
    }
  }

  lemma {:induction false} WholeValue(v: string)
    requires IsEscaped(v)
    ensures ValueEnd(v + ")") == Some(|v|)
  {
    if v != "" {
      assert (v + ")")[1..] == v[1..] + ")" && v[0] in v;
      WholeValue(v[1..]);
    }
  }

  /** The value is found, and perhaps an empty one behind it. */
  lemma ValuesOfItem(a: string, c: string, v: string)
    requires IsWord(a) && IsComparison(c) && IsEscaped(v)
    ensures var vs := Values(START_OF_TEXT, OneItem(a, c, v)); vs == [v] || vs == [v, ""]
  {
    var head, rest := "(" + a + c, v + ")";
    assert OneItem(a, c, v) == head + rest;
    assert '=' !in a && head[|head| - 1] == '=';
    assert forall k | 0 <= k < |head| - 1 :: head[k] == '(' || head[k] in a || (|c| == 2 && head[k] == c[0]);
    assert '=' !in head[..|head| - 1];
    SkipToSign(START_OF_TEXT, head, rest);
    WholeValue(v);
    assert rest[|v|..] == ")" && rest[1..] == (if v == "" then "" else v[1..] + ")") && ")"[1..] == "";
    assert Values(')', "") == [];
    assert rest[..|v|] == v;
    if v != "" {
      assert rest[|v| - 1] == v[|v| - 1];
      LastParenthesis(v[|v| - 1]);
    }
  }

  lemma LastParenthesis(prev: char)
    ensures Values(prev, ")") == [] || Values(prev, ")") == [""]
  {
    assert ")"[1..] == "";
  }

  lemma BareItem(a: string, c: string, v: string)
    requires IsWord(a) && IsComparison(c) && IsEscaped(v)
    ensures Bare(OneItem(a, c, v)) == OneItem(a, c, WithoutSpaces(v))
  {
    assert '\n' !in OneItem(a, c, v);
    BareIs(OneItem(a, c, v));
    ReplacedAppend("(" + a + c + v, ")", ' ', "");
    ReplacedAppend("(" + a + c, v, ' ', "");
    NotThere("(" + a + c, ' ', "");
    NotThere(")", ' ', "");
  }

  /** No occurrence of the key crosses from the first text to the second. */
  predicate NoneCrosses(a: string, b: string, key: string) {
    forall i | 0 <= i < |a| && key <= (a + b)[i..] :: i + |key| <= |a|
  }

  lemma NoneCrossesLater(a: string, b: string, key: string, n: nat)
    requires n <= |a| && NoneCrosses(a, b, key)
    ensures a[n..] + b == (a + b)[n..] && NoneCrosses(a[n..], b, key)
  {
    var s := a + b;
    assert a[n..] + b == s[n..];
    forall i | 0 <= i < |a[n..]| && key <= s[n..][i..] ensures i + |key| <= |a[n..]| {
      assert s[n..][i..] == s[n + i..];
    }
  }

  lemma FirstFits(a: string, b: string, key: string)
    requires a != "" && NoneCrosses(a, b, key)
    ensures key <= a + b <==> key <= a
  {
    assert (a + b)[0..] == a + b;
    if key <= a + b {
      assert |key| <= |a|;
      assert forall k | 0 <= k < |key| :: key[k] == (a + b)[k] == a[k];
    }
  }

  lemma {:induction false} ReplacedApart(a: string, b: string, key: string, w: string)
    requires key != "" && NoneCrosses(a, b, key)
    ensures ReplacedAll(a + b, key, w) == ReplacedAll(a, key, w) + ReplacedAll(b, key, w)
    decreases |a|
  {
    hide NoneCrosses, ReplacedAll;
    if a == "" {
      assert a + b == b && ReplacedAll("", key, w) == "" by { NothingReplaced(key, w); }
    } else {
      FirstFits(a, b, key);
      var n := if key <= a then |key| else 1;
      NoneCrossesLater(a, b, key, n);
      ReplacedApart(a[n..], b, key, w);
      ReplacedFirst(a, key, w);
      ReplacedFirst(a + b, key, w);
      var first := if key <= a then w else [a[0]];
      assert ReplacedAll(a + b, key, w) == first + (ReplacedAll(a[n..], key, w) + ReplacedAll(b, key, w));
    }
  }

  lemma NothingReplaced(key: string, w: string)
    requires key != ""
    ensures ReplacedAll("", key, w) == ""
  {}

  lemma ReplacedFirst(s: string, key: string, w: string)
    requires key != "" && s != ""
    ensures key <= s ==> ReplacedAll(s, key, w) == w + ReplacedAll(s[|key|..], key, w)
    ensures !(key <= s) ==> ReplacedAll(s, key, w) == [s[0]] + ReplacedAll(s[1..], key, w)
  {}

  lemma {:induction false} NotOccurring(s: string, key: string, w: string)
    requires key != "" && forall i | 0 <= i < |s| :: !(key <= s[i..])
    ensures ReplacedAll(s, key, w) == s
  {
    if s != "" {
      assert s[0..] == s;
      forall i | 0 <= i < |s[1..]| ensures !(key <= s[1..][i..]) { assert s[1..][i..] == s[i + 1..]; }
      NotOccurring(s[1..], key, w);
    }
  }

  /** What Recoverable says of the text itself. */
  lemma OccursInName(a: string, c: string, key: string, i: nat)
    requires ')' !in key && key != "" && i < |"(" + a + c| && key <= ("(" + a + c + key + ")")[i..]
    requires forall i | 0 <= i < |"(" + a + c| && key <= ("(" + a + c + key)[i..] :: i + |key| <= 1 + |a|
    ensures i + |key| <= 1 + |a|
  {
    var head := "(" + a + c;
    var s := head + key;
    assert (s + ")")[i..] == s[i..] + ")";
    forall k | 0 <= k < |key| ensures key[k] == s[i..][k] { assert key[k] == (s[i..] + ")")[k]; }
    assert key <= s[i..];
  }

  lemma NameApart(a: string, c: string, key: string)
    requires ')' !in key && key != ""
    requires forall i | 0 <= i < |"(" + a + c| && key <= ("(" + a + c + key)[i..] :: i + |key| <= 1 + |a|
    ensures NoneCrosses("(" + a, c + (key + ")"), key)
    ensures forall i | 0 <= i < |c| :: !(key <= (c + (key + ")"))[i..])
  {
    var x, y := "(" + a, c + (key + ")");
    var text := "(" + a + c + key + ")";
    assert text == x + y;
    forall i | 0 <= i < |x| && key <= (x + y)[i..] ensures i + |key| <= |x| { OccursInName(a, c, key, i); }
    forall i | 0 <= i < |c| ensures !(key <= y[i..]) {
      assert text[|x| + i..] == y[i..];
      if key <= y[i..] { OccursInName(a, c, key, |x| + i); }
    }
  }

  /** What is put back: the value in its place, and perhaps spaces in the name. */
  lemma PutBackItem(a: string, c: string, v: string)
    requires IsWord(a) && IsComparison(c) && IsEscaped(v) && Recoverable(a, c, v)
    ensures var key := WithoutSpaces(v);
            ReplacedAll(OneItem(a, c, key), key, v) == OneItem(ReplacedAll(a, key, v), c, v)
  {
    hide ReplacedAll, NoneCrosses, WithoutSpaces;
    var key := WithoutSpaces(v);
    KeyChars(v);
    var x, y := "(" + a, c + (key + ")");
    assert OneItem(a, c, key) == x + y;
    NameApart(a, c, key);
    ReplacedApart(x, y, key, v);
    OpeningStays(a, key, v);
    ValueReplaced(c, key, v);
    assert OneItem(ReplacedAll(a, key, v), c, v) == "(" + ReplacedAll(a, key, v) + (c + (v + ")"));
  }

  lemma OpeningStays(a: string, key: string, w: string)
    requires key != "" && '(' !in key
    ensures ReplacedAll("(" + a, key, w) == "(" + ReplacedAll(a, key, w)
  {
    assert key[0] in key && ("(" + a)[1..] == a && ("(" + a)[0] == '(';
  }

  lemma ValueReplaced(c: string, key: string, w: string)
    requires key != "" && ')' !in key && forall i | 0 <= i < |c| :: !(key <= (c + (key + ")"))[i..])
    ensures ReplacedAll(c + (key + ")"), key, w) == c + (w + ")")
  {
    hide ReplacedAll, NoneCrosses;
    var z := key + ")";
    NotInFront(c, z, key);
    ReplacedApart(c, z, key, w);
    NotOccurring(c, key, w);
    LastReplaced(key, w);
  }

  lemma NotInFront(c: string, z: string, key: string)
    requires forall i | 0 <= i < |c| :: !(key <= (c + z)[i..])
    ensures NoneCrosses(c, z, key) && forall i | 0 <= i < |c| :: !(key <= c[i..])
  {
    forall i | 0 <= i < |c| ensures !(key <= c[i..]) {
      BeginsLonger(key, c[i..], z);
      assert (c + z)[i..] == c[i..] + z;
    }
  }

  lemma {:induction false} KeyChars(v: string)
    ensures ' ' !in WithoutSpaces(v) && forall x | x in WithoutSpaces(v) :: x in v
    ensures forall x | x in v :: x == ' ' || x in WithoutSpaces(v)
  {
    if v != "" {
      KeyChars(v[1..]);
      assert v == [v[0]] + v[1..];
    }
  }

  lemma ParenthesisStays(s: string, key: string, w: string)
    requires key != "" && |s| == 1 && s[0] !in key
    ensures ReplacedAll(s, key, w) == s
  {
    assert s[1..] == "" && key[0] in key;
  }

  lemma LastReplaced(key: string, w: string)
    requires key != "" && ')' !in key
    ensures ReplacedAll(key + ")", key, w) == w + ")"
  {
    ParenthesisStays(")", key, w);
    assert (key + ")")[|key|..] == ")";
  }

  /** Spaces in the name come out again. */
  lemma {:induction false} SpacesInName(a: string, key: string, v: string)
    requires key != "" && key == WithoutSpaces(v) && forall x | x in a :: IsWordChar(x)
    ensures var r := ReplacedAll(a, key, v);
            WithoutSpaces(r) == a && forall x | x in r :: IsWordChar(x) || x == ' '
    decreases |a|
  {
    hide IsWordChar, Replaced;
    assert IsWordChar(' ') == false by { SpaceIsNoWord(); }
    if a == "" {
      NotThere("", ' ', "");
    } else if key <= a {
      SpacesInName(a[|key|..], key, v);
      KeyChars(v);
      ReplacedAppend(v, ReplacedAll(a[|key|..], key, v), ' ', "");
      assert a == key + a[|key|..] && forall x | x in key :: x in a;
    } else {
      SpacesInName(a[1..], key, v);
      ReplacedAppend([a[0]], ReplacedAll(a[1..], key, v), ' ', "");
      NotThere([a[0]], ' ', "");
      assert a == [a[0]] + a[1..];
    }
  }

  lemma SpaceIsNoWord()
    ensures !IsWordChar(' ')
  {}

  lemma {:induction false} WholeName(r: string, rest: string)
    requires (forall x | x in r :: IsNameChar(x)) && rest != "" && IsSign(rest[0])
    ensures NameEnd(r + rest) == Some(|r|)
  {
    if r == "" {
      assert r + rest == rest;
    } else {
      assert (r + rest)[1..] == r[1..] + rest && r[0] in r;
      WholeName(r[1..], rest);
    }
  }

  lemma {:induction false} NoMoreNames(prev: char, s: string, name: string)
    requires prev != '(' && '(' !in s && name != ""
    ensures Names(prev, s) == [] && Renamed(prev, s, name) == s
    decreases |s|
  {
    if s != "" {
      assert s[0] in s && s == [s[0]] + s[1..];
      NoMoreNames(s[0], s[1..], name);
    }
  }

  /** The name is found, and put right. */
  lemma NamePutRight(r: string, c: string, v: string)
    requires r != "" && (forall x | x in r :: IsWordChar(x) || x == ' ') && ':' !in r
    requires IsComparison(c) && IsEscaped(v)
    ensures Names(START_OF_TEXT, OneItem(r, c, v)) == [r] && NoPattern(r)
    ensures Rename([r], OneItem(r, c, v)) == OneItem(WithoutSpaces(r), c, v)
  {
    hide Names, Renamed, WithoutSpaces;
    var rest := c + v + ")";
    assert OneItem(r, c, v) == "(" + (r + rest) && '(' !in rest && IsSign(rest[0]);
    NameFound(r, rest);
    assert [r][1..] == [];
    if ' ' in r {
      NameReplaced(r, rest);
      assert OneItem(WithoutSpaces(r), c, v) == "(" + (WithoutSpaces(r) + rest);
    } else {
      BareIs(r);
    }
  }

  lemma NameFound(r: string, rest: string)
    requires r != "" && (forall x | x in r :: IsWordChar(x) || x == ' ') && ':' !in r
    requires rest != "" && IsSign(rest[0]) && '(' !in rest
    ensures Names(START_OF_TEXT, "(" + (r + rest)) == [r]
  {
    hide NameEnd;
    assert ("(" + (r + rest))[1..] == r + rest;
    assert (r + rest)[..|r|] == r && (r + rest)[|r|..] == rest;
    WholeName(r, rest);
    assert r[|r| - 1] in r;
    NoMoreNames(r[|r| - 1], rest, r);
  }

  lemma NameReplaced(r: string, rest: string)
    requires r != "" && (forall x | x in r :: IsWordChar(x) || x == ' ') && ':' !in r
    requires rest != "" && IsSign(rest[0]) && '(' !in rest
    ensures Renamed(START_OF_TEXT, "(" + (r + rest), r) == "(" + (WithoutSpaces(r) + rest)
  {
    hide Matches, WithoutSpaces;
    assert ("(" + (r + rest))[1..] == r + rest;
    assert (r + rest)[..|r|] == r && (r + rest)[|r|..] == rest;
    MatchesItself(r, rest);
    assert r[|r| - 1] in r;
    NoMoreNames(r[|r| - 1], rest, r);
    assert Renamed('(', r + rest, r) == WithoutSpaces(r) + rest;
  }

  lemma MatchesItself(r: string, rest: string)
    requires '\n' !in r
    ensures Matches(r, r + rest)
  {
    forall k | 0 <= k < |r| ensures (r + rest)[k] == r[k] != '\n' {}
  }

  /** A recoverable item comes back as it was. */
  lemma ItemComesBack(a: string, c: string, v: string)
    requires IsWord(a) && IsComparison(c) && IsEscaped(v) && Recoverable(a, c, v)
    ensures Strippable(OneItem(a, c, v)) && Stripped(OneItem(a, c, v)) == OneItem(a, c, v)
  {
    hide Values, Names, Bare, ReplacedAll, Rename, WithoutSpaces, OneItem;
    var text, key := OneItem(a, c, v), WithoutSpaces(v);
    var r := ReplacedAll(a, key, v);
    ValuesOfItem(a, c, v);
    BareItem(a, c, v);
    PutBackItem(a, c, v);
    BareIs(v);
    BareIs("");
    ReplacedBySame(OneItem(r, c, v), "");
    assert WithValues(text) == OneItem(r, c, v) by { PutBackOne(v, Bare(text), Values(START_OF_TEXT, text)); }
    SpacesInName(a, key, v);
    if r == "" { NotThere("", ' ', ""); }
    if ':' in a {
      NotInName(a, c, v);
      NoNameFound(a, c, v);
      NothingRenamed([], text);
    } else {
      NoColonAdded(r, a);
      NamePutRight(r, c, v);
    }
  }

  lemma NoColonAdded(r: string, a: string)
    requires WithoutSpaces(r) == a && ':' !in a
    ensures ':' !in r
  {
    KeyChars(r);
  }

  lemma NotInName(a: string, c: string, v: string)
    requires Recoverable(a, c, v) && ':' in a
    ensures ReplacedAll(a, WithoutSpaces(v), v) == a
  {
    hide ReplacedAll, WithoutSpaces;
    var key := WithoutSpaces(v);
    forall i | 0 <= i < |a| ensures !(key <= a[i..]) {
      BeginsLonger(key, a[i..], c + key);
      assert ("(" + a + c + key)[1 + i..] == a[i..] + (c + key);
    }
    NotOccurring(a, key, v);
  }

  lemma BeginsLonger(key: string, s: string, t: string)
    ensures key <= s ==> key <= s + t
  {
    assert (s + t)[..|s|] == s;
  }

  /** With a colon it is not taken for a name. */
  lemma NoNameFound(a: string, c: string, v: string)
    requires IsWord(a) && ':' in a && IsComparison(c) && IsEscaped(v)
    ensures Names(START_OF_TEXT, OneItem(a, c, v)) == []
  {
    hide NameEnd, IsWordChar;
    var rest := c + v + ")";
    assert OneItem(a, c, v) == "(" + (a + rest) && ("(" + (a + rest))[1..] == a + rest;
    ColonEnds(a, rest);
    NoParenthesis(a, rest, v);
    NoMoreNames(a[0], (a + rest)[1..], a);
  }

  lemma NoParenthesis(a: string, rest: string, v: string)
    requires IsWord(a) && '(' !in rest
    ensures '(' !in a + rest && '(' !in (a + rest)[1..] && a[0] != '('
  {
    assert a[0] in a;
  }

  lemma {:induction false} ColonEnds(a: string, rest: string)
    requires ':' in a && forall x | x in a :: IsWordChar(x)
    ensures NameEnd(a + rest) == None
  {
    assert a[0] in a && (a + rest)[1..] == a[1..] + rest && (a + rest)[0] == a[0];
    if a[0] != ':' {
      assert a == [a[0]] + a[1..];
      ColonEnds(a[1..], rest);
    }
  }

  lemma PutBackOne(v: string, s: string, vs: seq<string>)
    requires vs == [v] || vs == [v, ""]
    requires Bare("") == ""
    ensures PutBack(vs, s) == ReplacedAll(s, Bare(v), v)
  {
    hide Bare, ReplacedAll;
    var t := ReplacedAll(s, Bare(v), v);
    ReplacedBySame(t, "");
    assert [v][1..] == [] && [v, ""][1..] == [""] && [""][1..] == [];
    assert PutBack([], t) == t;
  }

  /** A value that begins or ends with a star is recoverable: there is no other star. */
  lemma StarsRecover(a: string, c: string, v: string)
    requires IsWord(a) && IsComparison(c) && '*' !in v
    ensures Recoverable(a, c, "*" + v) && Recoverable(a, c, "*" + v + "*") && Recoverable(a, c, v + "*")
  {
    hide Replaced;
    var k := WithoutSpaces(v);
    KeyChars(v);
    NotThere("*", ' ', "");
    ReplacedAppend("*", v, ' ', "");
    ReplacedAppend(v, "*", ' ', "");
    ReplacedAppend("*" + v, "*", ' ', "");
    assert WithoutSpaces("*" + v) == "*" + k && WithoutSpaces(v + "*") == k + "*"
        && WithoutSpaces("*" + v + "*") == "*" + k + "*";
    assert '*' !in "(" + a + c by { NoStarThere(a, c); }
    StarInFront("(" + a + c, k);
    StarInFront("(" + a + c, k + "*");
    assert "*" + (k + "*") == "*" + k + "*";
    StarBehind("(" + a + c, k);
  }

  lemma NoStarThere(a: string, c: string)
    requires IsWord(a) && IsComparison(c)
    ensures '*' !in "(" + a + c
  {}

  lemma StarInFront(head: string, k: string)
    requires '*' !in head
    ensures forall i | 0 <= i < |head| :: !("*" + k <= (head + ("*" + k))[i..])
  {
    forall i | 0 <= i < |head| ensures !("*" + k <= (head + ("*" + k))[i..]) {
      assert (head + ("*" + k))[i..][0] == head[i];
    }
  }

  lemma StarBehind(head: string, k: string)
    requires '*' !in head && '*' !in k
    ensures forall i | 0 <= i < |head| :: !(k + "*" <= (head + (k + "*"))[i..])
  {
    var key := k + "*";
    var s := head + key;
    forall i | 0 <= i < |head| ensures !(key <= s[i..]) {
      assert s == head + k + "*" && s[i..][|k|] == (head + k)[i + |k|];
    }
  }

  /** A value that is taken for the sign: what is put back is one character too early. */
  lemma SignTaken(a: string)
    requires IsWord(a)
    ensures !Recoverable(a, "=", "= =")
    ensures Strippable(OneItem(a, "=", "= =")) && Stripped(OneItem(a, "=", "= =")) == OneItem(a, "=", " ==")
  {
    hide Values, Names, Bare, ReplacedAll, Rename, WithoutSpaces;
    var v, key, x := "= =", "==", "(" + a;
    assert WithoutSpaces(v) == key by { TwoSigns(v); }
    assert (x + "=" + key)[|a| + 1..] == "===" && key <= "===";
    var text := OneItem(a, "=", v);
    ValuesOfItem(a, "=", v);
    BareItem(a, "=", v);
    BareIs(v);
    BareIs("");
    assert OneItem(a, "=", key) == x + "===)";
    assert '=' !in a;
    forall i | 0 <= i < |x| ensures !(key <= (x + "===)")[i..]) && !(key <= x[i..]) {
      assert (x + "===)")[i..][0] == x[i] == x[i..][0] != '=';
    }
    ReplacedApart(x, "===)", key, v);
    NotOccurring(x, key, v);
    ThreeSigns("===)", key, v);
    var back := OneItem(a, "=", " ==");
    assert x + "= ==)" == back;
    PutBackOne(v, Bare(text), Values(START_OF_TEXT, text));
    assert WithValues(text) == back;
    if ':' in a {
      NoNameFound(a, "=", " ==");
      NothingRenamed([], back);
    } else {
      NamePutRight(a, "=", " ==");
    }
    BareIs(a);
  }

  lemma TwoSigns(v: string)
    requires v == "= ="
    ensures WithoutSpaces(v) == "=="
  {
    ReplacedAppend("=", " =", ' ', "");
    ReplacedAppend(" ", "=", ' ', "");
    NotThere("=", ' ', "");
    assert v == "=" + " =" && " =" == " " + "=" && " "[1..] == "";
  }

  lemma ThreeSigns(s: string, key: string, v: string)
    requires s == "===)" && key == "==" && v == "= ="
    ensures ReplacedAll(s, key, v) == "= ==)"
  {
    assert s[2..] == "=)" && "=)"[1..] == ")" && ")"[1..] == "";
    assert !(key <= "=)") && !(key <= ")");
    assert ReplacedAll(")", key, v) == ")";
    assert ReplacedAll("=)", key, v) == "=)";
  }
}
