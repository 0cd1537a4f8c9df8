/** From a builder to the request: the filter that a builder makes is printed, parsed and
    translated. */
module Builders {
  import opened Bytes
  import opened Text
  import opened Unicode
  import opened FilterTree
  import opened FilterGrammar
  import opened FilterLanguage
  import opened FilterTexts
  import opened PrintParse
  import opened Query
  import opened StrippedFilters
  import opened Stripping
  import opened Translation

  /** The methods of class Attribute that take a value. */
  datatype Kind = EqualTo | StartsWith | EndsWith | Contains | ApproxTo | Lte | Gte

  function Build(kind: Kind, attr: string, v: string): Filter {
    match kind
    case EqualTo => Item(attr, "=", Escape(v))
    case StartsWith => Item(attr, "=", Escape(v) + "*")
    case EndsWith => Item(attr, "=", "*" + Escape(v))
    case Contains => Item(attr, "=", "*" + Escape(v) + "*")
    case ApproxTo => Item(attr, "~=", Escape(v))
    case Lte => Item(attr, "<=", Escape(v))
    case Gte => Item(attr, ">=", Escape(v))
  }

  /** The parser's actions and query_syntax_converter_inner on a text as it is. */
  function Translated(text: string): Option<Translation.Request> {
    match ParseText(text)
    case ParseError => None
    case Parsed(f) => Convert(f)
  }

  /** query_syntax_converter, LDAPBase.parse with its stripping included; None where an exception is
      raised. */
  function Request(text: string): Option<Translation.Request>
    requires Strippable(text)
  {
    Translated(Stripped(text))
  }

  /** What the caller of a builder asks for. */
  function Asked(kind: Kind, attr: seq<byte>, v: seq<byte>): Assertion {
    match kind
    case EqualTo => Equals(attr, v)
    case StartsWith => Substring(attr, Some(v), [], None)
    case EndsWith => Substring(attr, None, [], Some(v))
    case Contains => Substring(attr, None, [v], None)
    case ApproxTo => Assertion.Approx(attr, v)
    case Lte => AtMost(attr, v)
    case Gte => AtLeast(attr, v)
  }

  /** Stripping finds the value of the built text again. */
  predicate Found(kind: Kind, attr: string, v: string) {
    || kind == StartsWith || kind == EndsWith || kind == Contains
    || Recoverable(attr, Build(kind, attr, v).comp, Escape(v))
  }

  /** For every attribute name that does not end in a colon and every text, stars, parentheses,
      backslashes and NUL included: the request asserts the builder's kind of match with the UTF-8
      encoding of the text, if and only if the text is not empty and has no line feed. A text with
      spaces has no line feed, and is found again. */
  lemma BuilderExactly(kind: Kind, attr: string, v: string)
    requires GoodAttr(attr) && attr[|attr| - 1] != ':'
    requires ' ' in v ==> '\n' !in v && Found(kind, attr, v)
    ensures Strippable(Print(Build(kind, attr, v)))
    ensures Request(Print(Build(kind, attr, v))) == Some(Leaf(Asked(kind, Utf8(attr), Utf8(v)))) <==>
            v != "" && '\n' !in v
  {
    hide Translated, Print, Build, Utf8, GoodAttr, WithoutLineFeeds, Stripped, Strippable, Found;
    var w := if ' ' in v then v else WithoutLineFeeds(v);
    if ' ' in v {
      BuiltComesBack(kind, attr, v);
    } else {
      BuiltWithoutSpaces(kind, attr, v);
      StrippedOfSpaceless(Print(Build(kind, attr, v)));
      BuiltStripped(kind, attr, v);
      StrippedExactly(v);
    }
    if w != "" {
      BuiltIsTranslated(kind, attr, w);
      if Utf8(w) == Utf8(v) { SameText(w, v); }
      AskedTwice(kind, Utf8(attr), Utf8(w), Utf8(v));
    } else {
      NothingTranslated(kind, attr, Utf8(v));
    }
  }

  lemma BuiltComesBack(kind: Kind, attr: string, v: string)
    requires GoodAttr(attr) && '\n' !in v && Found(kind, attr, v)
    ensures Strippable(Print(Build(kind, attr, v)))
    ensures Stripped(Print(Build(kind, attr, v))) == Print(Build(kind, attr, v))
  {
    hide Stripped, Strippable, Recoverable, Escape, EscapeEach, GoodAttr;
    EscapeIsEach(v);
    EscapedIsPlain(v);
    EscapedOnOneLine(v);
    var t := Build(kind, attr, v);
    assert IsWord(attr) by { AttrIsWord(attr); }
    if Recoverable(attr, t.comp, t.val) {
      ItemComesBack(attr, t.comp, t.val);
      assert Print(t) == OneItem(attr, t.comp, t.val);
    } else {
      StarsRecover(attr, t.comp, Escape(v));
    }
  }

  lemma AttrIsWord(attr: string)
    requires GoodAttr(attr)
    ensures IsWord(attr)
  {
    AttrChars(attr);
  }

  lemma {:induction false} EscapedOnOneLine(v: string)
    requires '\n' !in v
    ensures '\n' !in EscapeEach(v) && '(' !in EscapeEach(v)
  {
    if v != "" {
      assert v[0] in v;
      EscapedOnOneLine(v[1..]);
    }
  }

  /** A text with spaces that is taken for the sign of the comparison: another one is asked for. */
  lemma SignIsTaken(attr: string)
    requires GoodAttr(attr) && attr[|attr| - 1] != ':'
    ensures Strippable(Print(Build(EqualTo, attr, "= =")))
    ensures Request(Print(Build(EqualTo, attr, "= ="))) == Some(Leaf(Equals(Utf8(attr), Utf8(" =="))))
  {
    hide Translated, Utf8, GoodAttr, Stripped, Strippable, Escape;
    AttrIsWord(attr);
    SignTaken(attr);
    PlainValue("= =");
    PlainValue(" ==");
    BuiltIsTranslated(EqualTo, attr, " ==");
  }

  lemma PlainValue(v: string)
    requires forall c | c in v :: c == ' ' || c == '='
    ensures Escape(v) == v
  {
    hide Replaced;
    NotThere(v, '\\', "\\5c");
    NotThere(v, '*', "\\2a");
    NotThere(v, '(', "\\28");
    NotThere(v, ')', "\\29");
    NotThere(v, '\0', "\\00");
  }

  lemma SameText(a: string, b: string)
    requires Utf8(a) == Utf8(b)
    ensures a == b
  {
    hide Utf8;
    Utf8RoundTrip(a);
    Utf8RoundTrip(b);
  }

  lemma AskedTwice(kind: Kind, attr: seq<byte>, a: seq<byte>, b: seq<byte>)
    ensures Asked(kind, attr, a) == Asked(kind, attr, b) ==> a == b
  {
    if kind == Contains { assert [a] == [b] ==> [a][0] == [b][0]; }
  }

  lemma BuiltIsTranslated(kind: Kind, attr: string, v: string)
    requires GoodAttr(attr) && attr[|attr| - 1] != ':' && v != ""
    ensures Translated(Print(Build(kind, attr, v))) == Some(Leaf(Asked(kind, Utf8(attr), Utf8(v))))
  {
    hide ParseText, Print, Convert, Build, Utf8, AttrTypeLen;
    BuiltIsGood(kind, attr, v);
    ParsePrinted(Build(kind, attr, v));
    BuiltConverts(kind, attr, v);
  }

  // -------------------------------------------------- stripping

  lemma {:induction false} DropCrLfParts(a: string, b: string)
    requires a != "" && b != "" ==> a[|a| - 1] != '\r' || b[0] != '\n'
    ensures DropCrLf(a + b) == DropCrLf(a) + DropCrLf(b)
    decreases |a|
  {
    if a == "" {
      assert a + b == b;
    } else {
      var s := a + b;
      assert s[1..] == a[1..] + b;
      if |a| >= 2 && a[0] == '\r' && a[1] == '\n' {
        assert s[2..] == a[2..] + b;
        DropCrLfParts(a[2..], b);
      } else {
        DropCrLfParts(a[1..], b);
      }
    }
  }

  lemma {:induction false} ReplacedShorter(s: string)
    ensures |Replaced(s, '\n', "")| <= |s|
    ensures '\n' in s ==> |Replaced(s, '\n', "")| < |s|
  {
    if s != "" {
      ReplacedShorter(s[1..]);
      assert s == [s[0]] + s[1..];
    }
  }

  lemma {:induction false} DropShorter(s: string)
    ensures |DropCrLf(s)| <= |s|
    ensures '\n' in s && '\n' !in DropCrLf(s) ==> |DropCrLf(s)| < |s|
  {
    if s != "" {
      DropShorter(s[1..]);
      if |s| >= 2 { DropShorter(s[2..]); }
      assert s == [s[0]] + s[1..];
    }
  }

  /** Stripping changes a text, by making it shorter, exactly when it has a line feed. */
  lemma StrippedExactly(s: string)
    ensures WithoutLineFeeds(s) == s <==> '\n' !in s
  {
    if '\n' !in s {
      NoLineFeed(s);
    } else {
      DropShorter(s);
      ReplacedShorter(DropCrLf(s));
    }
  }

  lemma EscapedEnds(c: char)
    ensures DropCrLf(EscapeChar(c)) == EscapeChar(c)
    ensures EscapeChar(c) != "" && (EscapeChar(c)[|EscapeChar(c)| - 1] == '\r' ==> c == '\r')
    ensures EscapeChar(c)[0] == '\n' <==> c == '\n'
    ensures Replaced(EscapeChar(c), '\n', "") == if c == '\n' then "" else EscapeChar(c)
  {
    var e := EscapeChar(c);
    if |e| == 3 {
      NoLineFeed(e);
      NotThere(e, '\n', "");
    } else {
      assert e[1..] == "";
    }
  }

  lemma EscapeCons(c: char, s: string)
    ensures EscapeEach([c] + s) == EscapeChar(c) + EscapeEach(s)
  {
    hide EscapeChar;
    assert ([c] + s)[1..] == s;
  }

  lemma EscapedFirst(s: string)
    requires s != ""
    ensures EscapeEach(s) != "" && (EscapeEach(s)[0] == '\n' <==> s[0] == '\n')
  {
    EscapedEnds(s[0]);
  }

  lemma DropCons(c: char, s: string)
    requires s == "" || c != '\r' || s[0] != '\n'
    ensures DropCrLf([c] + s) == [c] + DropCrLf(s)
  {
    assert ([c] + s)[1..] == s;
  }

  lemma DropPair(s: string)
    ensures DropCrLf("\r\n" + s) == DropCrLf(s)
    ensures EscapeEach("\r\n" + s) == "\r\n" + EscapeEach(s)
  {
    assert ("\r\n" + s)[2..] == s;
    EscapeCons('\r', ['\n'] + s);
    EscapeCons('\n', s);
    assert "\r\n" + s == ['\r'] + (['\n'] + s);
  }

  /** Stripping and escaping do not meet. */
  lemma {:induction false} EscapedDropped(v: string)
    ensures DropCrLf(EscapeEach(v)) == EscapeEach(DropCrLf(v))
    decreases |v|
  {
    hide EscapeEach, EscapeChar, DropCrLf;
    if v == "" {
      NothingEscaped();
    } else if |v| >= 2 && v[0] == '\r' && v[1] == '\n' {
      EscapedDropped(v[2..]);
      DropPair(v[2..]);
      DropPair(EscapeEach(v[2..]));
      assert v == "\r\n" + v[2..];
    } else {
      var c, rest := v[0], v[1..];
      EscapedDropped(rest);
      EscapedEnds(c);
      assert v == [c] + rest;
      EscapeCons(c, rest);
      if rest != "" { EscapedFirst(rest); } else { NothingEscaped(); }
      DropCrLfParts(EscapeChar(c), EscapeEach(rest));
      DropCons(c, rest);
      EscapeCons(c, DropCrLf(rest));
    }
  }

  lemma NothingEscaped()
    ensures EscapeEach("") == "" && DropCrLf("") == ""
  {}

  lemma {:induction false} EscapedWithoutFeeds(v: string)
    ensures Replaced(EscapeEach(v), '\n', "") == EscapeEach(Replaced(v, '\n', ""))
    decreases |v|
  {
    if v != "" {
      var c := v[0];
      EscapedEnds(c);
      EscapedWithoutFeeds(v[1..]);
      ReplacedAppend(EscapeChar(c), EscapeEach(v[1..]), '\n', "");
      var rest := Replaced(v[1..], '\n', "");
      if c != '\n' { assert ([c] + rest)[1..] == rest; } else { assert "" + rest == rest; }
    }
  }

  lemma EscapedStripped(v: string)
    ensures WithoutLineFeeds(EscapeEach(v)) == EscapeEach(WithoutLineFeeds(v))
  {
    EscapedDropped(v);
    EscapedWithoutFeeds(DropCrLf(v));
  }

  /** What a builder puts before and behind the escaped text. */
  function Before(kind: Kind, attr: string): string {
    "(" + attr + Sign(kind)
  }

  function Sign(kind: Kind): string {
    match kind
    case EqualTo => "="
    case StartsWith => "="
    case EndsWith => "=*"
    case Contains => "=*"
    case ApproxTo => "~="
    case Lte => "<="
    case Gte => ">="
  }

  function Behind(kind: Kind): string { if kind == StartsWith || kind == Contains then "*)" else ")" }

  lemma BuiltText(kind: Kind, attr: string, v: string)
    ensures Print(Build(kind, attr, v)) == Before(kind, attr) + EscapeEach(v) + Behind(kind)
  {
    EscapeIsEach(v);
    hide Escape, EscapeEach;
  }

  lemma {:induction false} DottedChars(s: string)
    requires DottedLen(s) == |s|
    ensures forall c | c in s :: IsAttrChar(c)
    decreases |s|
  {
    if s != "" {
      var d := Run(Rest(s, 1), FilterGrammar.IsDigit);
      DottedChars(Rest(s, 1 + d));
      forall k | 0 <= k < |s| ensures IsAttrChar(s[k]) {
        if 0 < k <= d { assert s[k] == Rest(s, 1)[k - 1]; }
        else if k > d { assert s[k] == Rest(s, 1 + d)[k - 1 - d]; }
      }
    }
  }

  lemma AttrChars(attr: string)
    requires GoodAttr(attr)
    ensures forall c | c in attr :: IsAttrChar(c)
  {
    if OidLen(attr) > 0 {
      var d := Run(attr, FilterGrammar.IsDigit);
      DottedChars(Rest(attr, d));
      forall k | 0 <= k < |attr| ensures IsAttrChar(attr[k]) {
        if k >= d { assert attr[k] == Rest(attr, d)[k - d]; }
      }
    } else {
      forall k | 0 <= k < |attr| ensures IsAttrChar(attr[k]) {
        if k > 0 { assert attr[k] == Rest(attr, 1)[k - 1]; }
      }
    }
  }

  predicate NoWhiteSpace(s: string) { ' ' !in s && '\n' !in s && '\r' !in s }

  lemma BeforeIsBlack(kind: Kind, attr: string)
    requires GoodAttr(attr)
    ensures NoWhiteSpace(Before(kind, attr)) && Before(kind, attr) != "" && NoWhiteSpace(Behind(kind))
  {
    AttrIsBlack(attr);
    hide GoodAttr;
    BlackParts("(" + attr, Sign(kind));
    BlackParts("(", attr);
  }

  lemma AttrIsBlack(attr: string)
    requires GoodAttr(attr)
    ensures NoWhiteSpace(attr)
  {
    AttrChars(attr);
  }

  lemma BlackParts(a: string, b: string)
    requires NoWhiteSpace(a) && NoWhiteSpace(b)
    ensures NoWhiteSpace(a + b)
  {}

  lemma {:induction false} EscapedWithoutSpaces(v: string)
    requires ' ' !in v
    ensures ' ' !in EscapeEach(v)
  {
    if v != "" { EscapedWithoutSpaces(v[1..]); }
  }

  lemma BuiltWithoutSpaces(kind: Kind, attr: string, v: string)
    requires GoodAttr(attr) && ' ' !in v
    ensures ' ' !in Print(Build(kind, attr, v))
  {
    hide Print, Build, Before, GoodAttr;
    BuiltText(kind, attr, v);
    BeforeIsBlack(kind, attr);
    EscapedWithoutSpaces(v);
  }

  lemma StrippedInside(a: string, e: string, b: string)
    requires NoWhiteSpace(a) && NoWhiteSpace(b) && a != "" && b != ""
    ensures WithoutLineFeeds(a + e + b) == a + WithoutLineFeeds(e) + b
  {
    NoLineFeed(a);
    NoLineFeed(b);
    assert a[|a| - 1] in a && b[0] in b;
    DropCrLfParts(a + e, b);
    DropCrLfParts(a, e);
    ReplacedAppend(a + DropCrLf(e), b, '\n', "");
    ReplacedAppend(a, DropCrLf(e), '\n', "");
  }

  /** Stripping a built text strips the text it was built from. */
  lemma BuiltStripped(kind: Kind, attr: string, v: string)
    requires GoodAttr(attr)
    ensures WithoutLineFeeds(Print(Build(kind, attr, v))) == Print(Build(kind, attr, WithoutLineFeeds(v)))
  {
    hide Print, Build, Before, GoodAttr, WithoutLineFeeds;
    BuiltText(kind, attr, v);
    BuiltText(kind, attr, WithoutLineFeeds(v));
    BeforeIsBlack(kind, attr);
    StrippedInside(Before(kind, attr), EscapeEach(v), Behind(kind));
    EscapedStripped(v);
  }

  // -------------------------------------------------- nothing but white space

  /** An item without a value, or with two stars for one, cannot be parsed. */
  lemma NoValueFails(a: string, c: string, v: string)
    requires GoodAttr(a) && GoodComp(c) && (v == "" || (v == "**" && c == "="))
    ensures ParseText(Print(Item(a, c, v))) == ParseError
  {
    hide AttrTypeLen, DescriptionLen, CompLen, ValueLen, WildcardLen, Rest, Sub;
    var s := a + (c + (v + ")"));
    ItemText(a, c, v, ")");
    CompReads(c, v + ")");
    AttrReads(a, c + (v + ")"));
    PrintParse.Behind(a, c + (v + ")"));
    NoValue(v);
    assert ReadItem(s).Failure? || (ReadItem(s).used == |a| + 2 && v == "**");
    NotThePair(a, c, v, s);
  }

  lemma NoValue(v: string)
    requires v == "" || v == "**"
    ensures ValueLen(v + ")") == 0 && WildcardLen(v + ")") == |v| / 2
  {
    var s := v + ")";
    if v == "" {
      assert s == ")" && Rest(s, 0) == s;
    } else {
      assert s == "**)" && Rest(s, 0) == s && Rest(s, 1) == "*)";
      assert PiecesLen("*)") == 0 && ValueLen("*)") == 0;
    }
  }

  lemma NotThePair(a: string, c: string, v: string, s: string)
    requires GoodAttr(a) && s == a + (c + (v + ")")) && s == a + c + v + ")" && GoodComp(c)
    requires ReadItem(s).Failure? || (ReadItem(s).used == |a| + 2 && v == "**" && c == "=")
    ensures ParseText(Print(Item(a, c, v))) == ParseError
  {
    hide ReadItem, ReadJunction, ReadNot, GoodAttr;
    var text := "(" + s;
    assert Print(Item(a, c, v)) == text;
    SignsFail(a, s);
    NoFillAt('(', s);
    assert Rest(text, 1) == s && Rest(text, 0) == text;
    assert ReadComp(s) == ReadItem(s);
    if ReadItem(s).Got? { assert s[|a| + 2] == '*' && text[|a| + 3] == '*'; }
    assert ReadFilter(text) == Failure;
    assert ReadItem(text) == Failure by { OpensNoItem(s); }
  }

  lemma SignsFail(a: string, s: string)
    requires GoodAttr(a) && a <= s
    ensures forall op :: op != Not ==> ReadJunction(op, s) == Failure
    ensures ReadNot(s) == Failure
  {
    assert s[0] == a[0];
    AttrBegins(a);
  }

  lemma OpensNoItem(s: string)
    ensures ReadItem("(" + s) == Failure
  {
    var text := "(" + s;
    assert text[0] == '(';
    assert Run(text, FilterGrammar.IsDigit) == 0 && NameLen(text) == 0;
  }

  lemma BuiltOfNothing(kind: Kind, attr: string) returns (c: string, v: string)
    ensures Build(kind, attr, "") == Item(attr, c, v) && GoodComp(c)
    ensures v == "" || (c == "=" && v == "**") || (c == "=" && v == "*" && (kind == StartsWith || kind == EndsWith))
  {
    EscapeIsEach("");
    hide Escape;
    assert "" + "*" == "*" && "*" + "" == "*" && "*" + "" + "*" == "**";
    c, v := Build(kind, attr, "").comp, Build(kind, attr, "").val;
  }

  lemma PresenceTranslated(attr: string)
    requires GoodAttr(attr) && attr[|attr| - 1] != ':'
    ensures Translated(Print(Item(attr, "=", "*"))) == Some(Leaf(Presence(Utf8(attr))))
  {
    hide ParseText, Print, AttrTypeLen, Utf8;
    var t := Item(attr, "=", "*");
    assert Stars("*");
    assert GoodItem(t) && Blur(t) == t;
    ParsePrinted(t);
  }

  /** A builder with nothing to match asks for an attribute's presence or fails. */
  lemma NothingTranslated(kind: Kind, attr: string, x: seq<byte>)
    requires GoodAttr(attr) && attr[|attr| - 1] != ':'
    ensures Translated(Print(Build(kind, attr, ""))) != Some(Leaf(Asked(kind, Utf8(attr), x)))
  {
    hide ParseText, Print, Build, GoodAttr, Utf8, Convert;
    var c, v := BuiltOfNothing(kind, attr);
    if v == "*" {
      PresenceTranslated(attr);
    } else {
      NoValueFails(attr, c, v);
    }
  }

  lemma BuiltIsGood(kind: Kind, attr: string, v: string)
    requires GoodAttr(attr) && v != ""
    ensures Good(Build(kind, attr, v)) && Blur(Build(kind, attr, v)) == Build(kind, attr, v)
  {
    hide Escape, EscapeEach, GoodAttr;
    EscapeIsEach(v);
    EscapedIsPlain(v);
    var e := Escape(v);
    PlainStars(e);
    assert Good(Build(kind, attr, v)) by { assert GoodItem(Build(kind, attr, v)); }
  }

  lemma PlainStars(e: string)
    requires e != "" && '*' !in e && ')' !in e
    ensures Stars(e) && Stars(e + "*") && Stars("*" + e) && Stars("*" + e + "*")
  {
    assert e[0] in e && e[|e| - 1] in e;
    StarsEnd(e, "*");
    StarsEnd("*", e);
    StarsEnd("*" + e, "*");
  }

  lemma StarsEnd(a: string, b: string)
    requires Stars(a) && Stars(b) && a != "" && b != "" && !(a[|a| - 1] == '*' && b[0] == '*')
    ensures Stars(a + b)
  {
    var v := a + b;
    forall k | 0 <= k < |v| - 1 ensures !(v[k] == '*' && v[k + 1] == '*') {
      if k < |a| - 1 { assert v[k] == a[k] && v[k + 1] == a[k + 1]; }
      else if k >= |a| { assert v[k] == b[k - |a|] && v[k + 1] == b[k + 1 - |a|]; }
    }
  }

  lemma BuiltConverts(kind: Kind, attr: string, v: string)
    requires attr != "" && attr[|attr| - 1] != ':' && v != ""
    ensures Convert(Build(kind, attr, v)) == Some(Leaf(Asked(kind, Utf8(attr), Utf8(v))))
  {
    hide Escape, EscapeEach, Encoded, Utf8;
    EscapeIsEach(v);
    EscapedIsPlain(v);
    EncodeEscaped(v);
    var e := Escape(v);
    assert e[0] in e && e[|e| - 1] in e;
    assert (e + "*")[..|e|] == e && ("*" + e)[1..] == e && ("*" + e + "*")[1..|e| + 1] == e;
  }

  lemma EncodedText(s: string)
    requires Encoded(s) == Some([])
    ensures s == ""
  {}

  // -------------------------------------------------- any text

  /** No text asks for an empty value. */
  lemma NothingAsked(kind: Kind, attr: seq<byte>, text: string)
    ensures Translated(text) != Some(Leaf(Asked(kind, attr, [])))
  {
    hide ReadFilter, ReadFilterItem, Encoded, Utf8;
    var r := ParseText(text);
    if r.Parsed? && r.filter.Item? && Convert(r.filter).Some? {
      if ReadFilter(text).Got? {
        FilterProduced(text);
      } else {
        ItemRootProduced(text);
      }
      NothingConverted(kind, attr, r.filter);
    }
  }

  lemma NothingConverted(kind: Kind, attr: seq<byte>, t: Filter)
    requires GoodItem(t) && Convert(t).Some?
    ensures Convert(t) != Some(Leaf(Asked(kind, attr, [])))
  {
    hide Encoded, Utf8, GoodAttr;
    var v := t.val;
    if Encoded(v) == Some([]) { EncodedText(v); }
    if t.comp == "=" && |v| > 1 {
      if Encoded(v[1..]) == Some([]) { EncodedText(v[1..]); }
      if Encoded(v[..|v| - 1]) == Some([]) { EncodedText(v[..|v| - 1]); }
      if Encoded(v[1..|v| - 1]) == Some([]) {
        EncodedText(v[1..|v| - 1]);
        assert |v| == 2 && !(v[0] == '*' && v[1] == '*');
      }
    }
  }

  // -------------------------------------------------- whole filters

  /** LDAPBase.parse of the text of a filter, stripping included, gives the filter back but for negated
      groups, if its values are found again. */
  lemma ParsedAgain(t: Filter)
    requires Good(t) && AreTokens(Tokens(t)) && AllFound(Tokens(t))
    ensures Strippable(Print(t)) && ParseText(Stripped(Print(t))) == Parsed(Blur(t))
  {
    hide ParseText, Stripped, Strippable, Print, Blur, AllFound, AreTokens, Tokens;
    GoodIsProper(t);
    FilterComesBack(t);
    ParsePrinted(t);
  }

  lemma {:induction false} GoodIsProper(t: Filter)
    requires Good(t)
    ensures Proper(t)
    decreases t
  {
    if t.Group? {
      forall k | 0 <= k < |t.filters| ensures Proper(t.filters[k]) { GoodIsProper(t.filters[k]); }
    }
  }

  // -------------------------------------------------- an extensible match

  /** From the text "(type:rule:=value)" to the assertion it asks for, as for
      "(userAccountControl:1.2.840.113556.1.4.803:=4194304)". */
  lemma ExtensibleText(typ: string, rule: string, val: string)
    requires IsName(typ) && ':' !in typ && rule != "" && AreAttrChars(rule) && ':' !in rule && !IsDn(rule)
    requires GoodValue("=", val) && Tame(val) && ' ' !in val && '\n' !in val
    ensures var text := "(" + typ + ":" + rule + ":=" + val + ")";
            Strippable(text)
            && Request(text) == Some(Leaf(Extensible(Some(Utf8(rule)), Some(Utf8(typ)), Octets(val), false)))
  {
    hide ParseText, Convert, GoodValue, Tame, Utf8, Octets, IsOther, IsFirst, Stripped, Strippable, Encoded, IsDn;
    var attr := typ + ":" + rule + ":";
    var text := "(" + typ + ":" + rule + ":=" + val + ")";
    NameAndRule(typ, rule);
    var b := ItemBody(attr, [], "=", val);
    ItemMeant(b);
    assert IsBody(b) && IsMember(Member(b, []));
    MemberOf(attr, val);
    assert text == "" + MemberText(Member(b, []));
    assert IsWholeFilter(text, Item(attr, "=", val)) by { NoText(); }
    ParsesExactly(text, Item(attr, "=", val));
    ExtensibleConverts(typ, rule, val);
    assert ' ' !in text && '\n' !in text by { PlainText(typ, rule, val); }
    StrippedOfSpaceless(text);
    NoLineFeed(text);
  }

  lemma MemberOf(attr: string, val: string)
    ensures MemberText(Member(ItemBody(attr, [], "=", val), [])) == "(" + attr + "=" + val + ")"
  {
    assert attr + "" == attr && "(" + (attr + "" + "=" + val) + ")" + "" == "(" + attr + "=" + val + ")";
  }

  lemma NameAndRule(typ: string, rule: string)
    requires IsName(typ) && AreAttrChars(rule)
    ensures IsName(typ + ":" + rule + ":")
  {
    assert IsOther(':');
    assert (typ + ":" + rule + ":")[0] == typ[0];
  }

  lemma PlainText(typ: string, rule: string, val: string)
    requires AreAttrChars(typ) && AreAttrChars(rule) && ' ' !in val && '\n' !in val
    ensures ' ' !in "(" + typ + ":" + rule + ":=" + val + ")" && '\n' !in "(" + typ + ":" + rule + ":=" + val + ")"
  {
    hide IsOther, IsFirst;
    FirstIs(' ');
    FirstIs('\n');
    NotInText(' ', typ, rule, val);
    NotInText('\n', typ, rule, val);
  }

  lemma NotInText(c: char, typ: string, rule: string, val: string)
    requires c !in typ && c !in rule && c !in val && c != '(' && c != ':' && c != '=' && c != ')'
    ensures c !in "(" + typ + ":" + rule + ":=" + val + ")"
  {}

  lemma ExtensibleConverts(typ: string, rule: string, val: string)
    requires ':' !in typ && ':' !in rule && Tame(val)
    ensures Convert(Item(typ + ":" + rule + ":", "=", val))
         == Some(Leaf(Extensible(Some(Utf8(rule)), Some(Utf8(typ)), Octets(val), false)))
  {
    hide Encoded, Octets, Utf8, Colons, Tame;
    EncodedIsOctets(val);
    ColonsOf(typ, rule);
    ColonsOf(rule, "");
    var attr := typ + ":" + rule + ":";
    assert attr[..|attr| - 1] == typ + ":" + rule;
  }
}
