/** Class Grammar and class Parser: one method for each rule, which moves the offset and keeps
    what it found in a table, by rule and position. Rules of one shape share a method, and the
    loops and character tests that the generated code repeats are methods of their own. */
module FilterParser {
  import opened FilterTree
  import opened FilterGrammar

  /** What a method returns: FAILURE or a node. */
  datatype Answer = Failed | Found(node: Node)

  /** An entry of the table: what the rule returned and where it left the offset. */
  datatype Entry = Entry(answer: Answer, end: nat)

  type Key = (Rule, nat)

  function EntryOf(rule: Rule, input: string, i: nat): (e: Entry)
    requires i <= |input|
    ensures i <= e.end <= |input|
    ensures if e.answer.Found? then i < e.end else e.end == i
  {
    match Peg(rule, Rest(input, i))
    case Failure => Entry(Failed, i)
    case Got(node, used) => Entry(Found(node), i + used)
  }

  /** A rule calls, at its own position, only rules of lower rank. */
  function Rank(rule: Rule): nat {
    match rule
    case Root => 13
    case FilterList => 12
    case FilterRule => 11
    case FilterItem => 11
    case FilterComp => 10
    case AndRule => 9
    case OrRule => 9
    case NotRule => 9
    case ItemRule => 8
    case Wildcard => 7
    case Simple => 7
    case AttrRule => 6
    case Description => 5
    case AttrType => 4
    case WildcardValue => 4
    case Any => 3
    case Options => 3
    case AttrTypeName => 2
    case LdapOid => 2
    case Value => 2
    case OptionRule => 2
    case FillRule => 1
    case FilterType => 1
    case AttrTypeChars => 1
    case AttributeValue => 1
    case _ => 0
  }

  /** These rules, at work at earlier positions, or here with higher rank, may call a rule of this
      rank here. */
  predicate MayCall(working: set<Key>, i: nat, rank: nat) {
    forall k | k in working :: k.1 < i || (k.1 == i && rank < Rank(k.0))
  }

  // -------------------------------------------------- texts by position

  lemma RestRest(s: string, i: nat, n: nat)
    requires i + n <= |s|
    ensures Rest(Rest(s, i), n) == Rest(s, i + n)
  {}

  lemma SubRest(s: string, i: nat, j: nat, k: nat)
    requires j <= k && i + k <= |s|
    ensures Sub(Rest(s, i), j, k) == Sub(s, i + j, i + k)
  {}

  lemma CharRest(s: string, i: nat, n: nat)
    requires i + n <= |s|
    ensures forall c :: CharIs(Rest(s, i), n, c) == CharIs(s, i + n, c)
  {}

  lemma FirstChar(s: string, i: nat)
    requires i < |s|
    ensures Rest(s, i)[0] == s[i] && Sub(s, i, i + 1) == [s[i]]
  {}

  lemma SubSub(s: string, i: nat, j: nat, k: nat)
    requires i <= j <= k <= |s|
    ensures Sub(s, i, j) + Sub(s, j, k) == Sub(s, i, k)
  {}

  lemma RunIs(s: string, n: nat, member: char -> bool)
    requires n <= |s| && (forall k | 0 <= k < n :: member(s[k])) && (n < |s| ==> !member(s[n]))
    ensures Run(s, member) == n
  {}

  lemma RunEnds(input: string, i: nat, j: nat, member: char -> bool)
    requires i <= j <= |input| && (forall k | i <= k < j :: member(input[k])) && (j < |input| ==> !member(input[j]))
    ensures Run(Rest(input, i), member) == j - i
  {
    hide Run;
    RunIs(Rest(input, i), j - i, member);
  }

  // -------------------------------------------------- entries of single rules

  function Either(a: Entry, b: Entry): Entry { if a.answer.Found? then a else b }

  /** A character of a class, or a text, at a position. */
  function CharAt(input: string, i: nat, member: char -> bool): Entry
    requires i <= |input|
  {
    if i < |input| && member(input[i]) then Entry(Found(Text(Sub(input, i, i + 1))), i + 1) else Entry(Failed, i)
  }

  function TextAt(input: string, i: nat, text: string): Entry
    requires i <= |input|
  {
    if i + |text| <= |input| && Sub(input, i, i + |text|) == text then Entry(Found(Text(text)), i + |text|)
        else Entry(Failed, i)
  }

  function TextTo(input: string, i: nat, j: nat): Entry
    requires i <= j <= |input|
  {
    if i == j then Entry(Failed, i) else Entry(Found(Text(Sub(input, i, j))), j)
  }

  function NameTo(input: string, i: nat, j: nat, end: nat): Entry
    requires i <= j <= |input|
  {
    if i == j then Entry(Failed, i) else Entry(Found(Attr(Sub(input, i, j))), end)
  }

  /** The entry for what the grammar gives. */
  function Entered(r: Outcome, i: nat): Entry {
    if r.Failure? then Entry(Failed, i) else Entry(Found(r.node), i + r.used)
  }

  lemma EntryIs(rule: Rule, input: string, i: nat, r: Outcome)
    requires i <= |input| && Peg(rule, Rest(input, i)) == r
    ensures EntryOf(rule, input, i) == Entered(r, i)
  {
    hide Peg;
  }

  lemma MatchedAt(rule: Rule, input: string, i: nat, n: nat)
    requires i <= |input| && n <= |input| - i && Peg(rule, Rest(input, i)) == Matched(Rest(input, i), n)
    ensures EntryOf(rule, input, i) == TextTo(input, i, i + n)
  {
    hide Peg, EntryOf, Rest, Sub;
    EntryIs(rule, input, i, Matched(Rest(input, i), n));
    SubRest(input, i, 0, n);
  }

  predicate IsLiteral(rule: Rule) { rule in {Equal, Approx, Greater, Less, Space, Tab} }

  function Literal(rule: Rule): (t: string)
    requires IsLiteral(rule)
    ensures t != []
  {
    match rule
    case Equal => "="
    case Approx => "~="
    case Greater => ">="
    case Less => "<="
    case Space => " "
    case _ => "\t"
  }

  lemma LiteralStep(rule: Rule, input: string, i: nat)
    requires i <= |input| && IsLiteral(rule)
    ensures EntryOf(rule, input, i) == TextAt(input, i, Literal(rule))
  {
    hide EntryOf, Rest, Sub;
    var s, t := Rest(input, i), Literal(rule);
    assert Peg(rule, s) == Matched(s, Token(s, t));
    hide Peg;
    MatchedAt(rule, input, i, Token(s, t));
    if |t| <= |s| { SubRest(input, i, 0, |t|); }
  }

  predicate IsClass(rule: Rule) { rule in {Digit, Alpha, AttributeValue, AttrTypeChars} }

  function MemberOf(rule: Rule): char -> bool
    requires IsClass(rule)
  {
    match rule
    case AttributeValue => IsValueChar
    case AttrTypeChars => IsAttrChar
    case Digit => IsDigit
    case _ => IsAlpha
  }

  lemma ClassStep(rule: Rule, input: string, i: nat)
    requires i <= |input| && IsClass(rule)
    ensures EntryOf(rule, input, i) == CharAt(input, i, MemberOf(rule))
  {
    hide EntryOf;
    var s := Rest(input, i);
    assert Peg(rule, s) == Matched(s, OneOf(s, MemberOf(rule)));
    hide Peg;
    MatchedAt(rule, input, i, OneOf(s, MemberOf(rule)));
    if i < |input| { FirstChar(input, i); }
  }

  lemma EscapedStep(input: string, i: nat)
    requires i <= |input|
    ensures EntryOf(EscapedCharacter, input, i) == Entry(Failed, i)
  {}

  lemma SepStep(input: string, i: nat)
    requires i <= |input|
    ensures EntryOf(Sep, input, i) == Either(TextAt(input, i, "\r\n"), CharAt(input, i, c => c == '\n'))
  {
    hide EntryOf, Sub;
    var s := Rest(input, i);
    assert Peg(Sep, s) == Matched(s, SepLen(s));
    hide Peg, Rest;
    MatchedAt(Sep, input, i, SepLen(s));
    if |s| >= 2 { SubRest(input, i, 0, 2); }
    CharRest(input, i, 0);
  }

  lemma FillStep(input: string, i: nat)
    requires i <= |input|
    ensures EntryOf(FillRule, input, i) == Either(EntryOf(Space, input, i),
        Either(EntryOf(Tab, input, i), EntryOf(Sep, input, i)))
    ensures EntryOf(FillRule, input, i) == TextTo(input, i, i + FillLen(Rest(input, i)))
  {
    hide EntryOf, SepLen, Rest;
    var s := Rest(input, i);
    FillPeg(s);
    hide Peg, Matched;
    MatchedAt(FillRule, input, i, FillLen(s));
    MatchedAt(Sep, input, i, SepLen(s));
    CharRest(input, i, 0);
    BlankStep(Space, input, i);
    BlankStep(Tab, input, i);
    hide Sub;
  }

  lemma FillPeg(s: string)
    ensures Peg(FillRule, s) == Matched(s, FillLen(s)) && Peg(Sep, s) == Matched(s, SepLen(s))
  {
    hide FillLen, SepLen, Matched;
  }

  lemma BlankStep(rule: Rule, input: string, i: nat)
    requires i <= |input| && rule in {Space, Tab}
    ensures EntryOf(rule, input, i) == if CharIs(input, i, Literal(rule)[0]) then TextTo(input, i, i + 1)
        else Entry(Failed, i)
  {
    hide EntryOf;
    LiteralStep(rule, input, i);
    if i < |input| { FirstChar(input, i); }
  }

  lemma FilterTypeStep(input: string, i: nat)
    requires i <= |input|
    ensures EntryOf(FilterType, input, i)
         == Either(EntryOf(Equal, input, i),
                   Either(EntryOf(Approx, input, i), Either(EntryOf(Greater, input, i), EntryOf(Less, input, i))))
  {
    hide EntryOf, Rest, Sub;
    var s := Rest(input, i);
    assert Peg(FilterType, s) == Matched(s, CompLen(s));
    assert Peg(Equal, s) == Matched(s, Token(s, "=")) && Peg(Approx, s) == Matched(s, Token(s, "~="));
    assert Peg(Greater, s) == Matched(s, Token(s, ">=")) && Peg(Less, s) == Matched(s, Token(s, "<="));
    hide Peg;
    MatchedAt(FilterType, input, i, CompLen(s));
    MatchedAt(Equal, input, i, Token(s, "="));
    MatchedAt(Approx, input, i, Token(s, "~="));
    MatchedAt(Greater, input, i, Token(s, ">="));
    MatchedAt(Less, input, i, Token(s, "<="));
  }

  // -------------------------------------------------- entries of lengths

  /** The rules whose node is the text they match. */
  predicate IsLex(rule: Rule) {
    rule in {Value, OptionRule, Options, Any, WildcardValue, FilterType, FillRule}
  }

  lemma LexStep(rule: Rule, input: string, i: nat)
    requires i <= |input| && IsLex(rule)
    ensures EntryOf(rule, input, i) == TextTo(input, i, i + LexLen(rule, Rest(input, i)))
  {
    hide LexLen, EntryOf, Rest, Sub;
    var s := Rest(input, i);
    assert Peg(rule, s) == Matched(s, LexLen(rule, s));
    hide Peg;
    MatchedAt(rule, input, i, LexLen(rule, s));
  }

  lemma NameStep(input: string, i: nat)
    requires i <= |input|
    ensures EntryOf(AttrTypeName, input, i) == NameTo(input, i, i + NameLen(Rest(input, i)),
        i + NameLen(Rest(input, i)))
    ensures EntryOf(LdapOid, input, i) == NameTo(input, i, i + OidLen(Rest(input, i)), i + OidLen(Rest(input, i)))
    ensures EntryOf(AttrType, input, i) == NameTo(input, i, i + AttrTypeLen(Rest(input, i)),
        i + AttrTypeLen(Rest(input, i)))
    ensures EntryOf(Description, input, i) == NameTo(input, i, i + AttrTypeLen(Rest(input, i)),
        i + DescriptionLen(Rest(input, i)))
    ensures EntryOf(AttrRule, input, i) == EntryOf(Description, input, i)
  {
    hide NameLen, OidLen, AttrTypeLen, DescriptionLen, EntryOf, Rest, Sub;
    var s := Rest(input, i);
    var n, o, t, d := NameLen(s), OidLen(s), AttrTypeLen(s), DescriptionLen(s);
    assert Peg(AttrTypeName, s) == Named(s, n, n) && Peg(LdapOid, s) == Named(s, o, o)
        && Peg(AttrType, s) == Named(s, t, t);
    assert Peg(Description, s) == Named(s, t, d) == Peg(AttrRule, s);
    hide Peg;
    NamedAt(AttrTypeName, input, i, n, n);
    NamedAt(LdapOid, input, i, o, o);
    NamedAt(AttrType, input, i, t, t);
    NamedAt(Description, input, i, t, d);
    NamedAt(AttrRule, input, i, t, d);
  }

  lemma NamedAt(rule: Rule, input: string, i: nat, n: nat, used: nat)
    requires i <= |input| && n <= |input| - i && Peg(rule, Rest(input, i)) == Named(Rest(input, i), n, used)
    ensures EntryOf(rule, input, i) == NameTo(input, i, i + n, i + used)
  {
    hide Peg, EntryOf, Rest, Sub;
    EntryIs(rule, input, i, Named(Rest(input, i), n, used));
    SubRest(input, i, 0, n);
  }

  lemma AttrTypeNameStep(input: string, i: nat)
    requires i <= |input|
    ensures NameLen(Rest(input, i))
         == if i < |input| && IsAlpha(input[i]) then 1 + Run(Rest(input, i + 1), IsAttrChar) else 0
  {
    hide Run;
    if i < |input| {
      FirstChar(input, i);
      RestRest(input, i, 1);
    }
  }

  lemma AnyStep(input: string, i: nat)
    requires i <= |input|
    ensures AnyLen(Rest(input, i)) == if CharIs(input, i, '*') then 1 + PiecesLen(Rest(input, i + 1)) else 0
    ensures LexLen(Any, Rest(input, i)) == AnyLen(Rest(input, i))
  {
    hide PiecesLen, Rest;
    CharRest(input, i, 0);
    if i < |input| { RestRest(input, i, 1); }
  }

  lemma PiecesStep(input: string, i: nat, v: nat)
    requires i <= |input| && v == ValueLen(Rest(input, i))
    ensures LexLen(Value, Rest(input, i)) == v
    ensures v == 0 || !CharIs(input, i + v, '*') ==> PiecesLen(Rest(input, i)) == 0
    ensures v > 0 && CharIs(input, i + v, '*') ==>
              PiecesLen(Rest(input, i)) == v + 1 + PiecesLen(Rest(input, i + v + 1))
  {
    hide ValueLen, Rest;
    CharRest(input, i, v);
    if i + v < |input| { RestRest(input, i, v + 1); }
  }

  lemma WildcardLenStep(input: string, i: nat, v: nat)
    requires i <= |input| && v == ValueLen(Rest(input, i))
    ensures WildcardLen(Rest(input, i)) == WildcardFrom(input, i + v, v)
  {
    hide ValueLen, AnyLen, Rest;
    RestRest(input, i, v);
    RestRest(input, i, v + AnyLen(Rest(input, i + v)));
  }

  /** The length of a value with stars of which v characters have been read. */
  function WildcardFrom(input: string, i: nat, v: nat): nat
    requires i <= |input|
  {
    var a := AnyLen(Rest(input, i));
    if a == 0 then 0 else v + a + ValueLen(Rest(input, i + a))
  }

  lemma OidStep(input: string, i: nat, d: nat)
    requires i <= |input| && d == Run(Rest(input, i), IsDigit)
    ensures OidLen(Rest(input, i)) == if d == 0 then 0 else d + DottedLen(Rest(input, i + d))
  {
    hide Run, DottedLen, Rest;
    RestRest(input, i, d);
  }

  lemma DottedStep(input: string, i: nat)
    requires i <= |input|
    ensures !CharIs(input, i, '.') ==> DottedLen(Rest(input, i)) == 0
    ensures CharIs(input, i, '.') ==> DottedLen(Rest(input, i)) == DottedFrom(input, i + 1)
  {
    hide Run, Rest;
    CharRest(input, i, 0);
    if i < |input| {
      RestRest(input, i, 1);
      RestRest(input, i, 1 + Run(Rest(input, i + 1), IsDigit));
    }
  }

  /** The length of the repetition whose dot has been read. */
  function DottedFrom(input: string, i: nat): nat
    requires i <= |input|
  {
    var d := Run(Rest(input, i), IsDigit);
    if d == 0 then 0 else 1 + d + DottedLen(Rest(input, i + d))
  }

  function OptionalLen(input: string, i: nat): nat
    requires i <= |input|
  {
    if CharIs(input, i, ';') && OptionsLen(Rest(input, i + 1)) > 0 then 1 + OptionsLen(Rest(input, i + 1)) else 0
  }

  lemma OptionsStep(input: string, i: nat, n: nat)
    requires i <= |input| && n == Run(Rest(input, i), IsAttrChar)
    ensures LexLen(Options, Rest(input, i)) == OptionsLen(Rest(input, i)) && LexLen(OptionRule, Rest(input, i)) == n
    ensures OptionsLen(Rest(input, i)) == if n == 0 then 0 else n + OptionalLen(input, i + n)
  {
    hide Run, Rest;
    CharRest(input, i, n);
    if i + n < |input| { RestRest(input, i, n + 1); }
  }

  lemma DescriptionStep(input: string, i: nat, n: nat)
    requires i <= |input| && n == AttrTypeLen(Rest(input, i))
    ensures DescriptionLen(Rest(input, i)) == if n == 0 then 0 else n + OptionalLen(input, i + n)
  {
    hide AttrTypeLen, OptionsLen, Rest;
    CharRest(input, i, n);
    if i + n < |input| { RestRest(input, i, n + 1); }
  }

  // -------------------------------------------------- entries of items

  function TextOf(n: Node): string { if n.Text? then n.text else "" }

  function NameOf(n: Node): string { if n.Attr? then n.name else "" }

  function WildcardValueAt(input: string, i: nat): Entry
    requires i <= |input|
  {
    var a := EntryOf(Any, input, EntryOf(Value, input, i).end);
    var w := EntryOf(Value, input, a.end);
    if a.answer.Failed? then Entry(Failed, i) else Entry(Found(Text(Sub(input, i, w.end))), w.end)
  }

  lemma WildcardValueStep(input: string, i: nat)
    requires i <= |input|
    ensures EntryOf(WildcardValue, input, i) == WildcardValueAt(input, i)
  {
    hide Peg, EntryOf, Rest, Sub, ValueLen, AnyLen, LexLen, WildcardLen;
    var v := ValueEnd(input, i);
    var a := AnyEnd(input, i + v);
    var w := ValueEnd(input, i + v + a);
    WildcardLenStep(input, i, v);
    LexStep(WildcardValue, input, i);
    ItemRules(Rest(input, i));
  }

  lemma ValueEnd(input: string, i: nat) returns (n: nat)
    requires i <= |input|
    ensures n == ValueLen(Rest(input, i)) && EntryOf(Value, input, i).end == i + n
  {
    hide Peg, EntryOf, Rest, Sub, ValueLen;
    n := ValueLen(Rest(input, i));
    LexStep(Value, input, i);
    ItemRules(Rest(input, i));
  }

  lemma AnyEnd(input: string, i: nat) returns (n: nat)
    requires i <= |input|
    ensures n == AnyLen(Rest(input, i)) && EntryOf(Any, input, i).end == i + n
  {
    hide Peg, EntryOf, Rest, Sub, AnyLen;
    n := AnyLen(Rest(input, i));
    LexStep(Any, input, i);
    AnyStep(input, i);
  }

  function WildcardAt(input: string, i: nat): Entry
    requires i <= |input|
  {
    var a := EntryOf(AttrRule, input, i);
    var e := EntryOf(Equal, input, a.end);
    var w := EntryOf(WildcardValue, input, e.end);
    if a.answer.Failed? || e.answer.Failed? || w.answer.Failed? then Entry(Failed, i)
    else Entry(Found(Flt(Item(NameOf(a.answer.node), "=", TextOf(w.answer.node)))), w.end)
  }

  function SimpleAt(input: string, i: nat): Entry
    requires i <= |input|
  {
    var a := EntryOf(AttrRule, input, i);
    var c := EntryOf(FilterType, input, a.end);
    var v := EntryOf(Value, input, c.end);
    if a.answer.Failed? || c.answer.Failed? || v.answer.Failed? then Entry(Failed, i)
    else Entry(Found(Flt(Item(NameOf(a.answer.node), TextOf(c.answer.node), TextOf(v.answer.node)))), v.end)
  }

  lemma AttrFirst(s: string)
    ensures DescriptionLen(s) == 0 <==> AttrTypeLen(s) == 0
    ensures AttrTypeLen(s) <= DescriptionLen(s)
  {
    hide AttrTypeLen;
  }

  lemma ItemRules(s: string)
    ensures Peg(Wildcard, s) == ReadWildcard(s) && Peg(Simple, s) == ReadSimple(s)
    ensures LexLen(WildcardValue, s) == WildcardLen(s) && LexLen(Value, s) == ValueLen(s)
        && LexLen(FilterType, s) == CompLen(s)
  {
    hide ReadWildcard, ReadSimple, WildcardLen, ValueLen, CompLen;
  }

  lemma WildcardStep(input: string, i: nat)
    requires i <= |input|
    ensures EntryOf(Wildcard, input, i) == WildcardAt(input, i)
  {
    hide AttrTypeLen, DescriptionLen, WildcardLen, Peg, EntryOf, LexLen, Rest, Sub;
    var s := Rest(input, i);
    var t, a := AttrTypeLen(s), DescriptionLen(s);
    AttrFirst(s);
    ItemRules(s);
    EntryIs(Wildcard, input, i, ReadWildcard(s));
    NameStep(input, i);
    if a == 0 { return; }
    SubRest(input, i, 0, t);
    var j := i + a;
    CharRest(input, i, a);
    EqualStep(input, j);
    if !CharIs(input, j, '=') { return; }
    RestRest(input, i, a + 1);
    LexStep(WildcardValue, input, j + 1);
    ItemRules(Rest(input, j + 1));
    SubRest(input, i, a + 1, a + 1 + WildcardLen(Rest(input, j + 1)));
  }

  lemma EqualStep(input: string, i: nat)
    requires i <= |input|
    ensures EntryOf(Equal, input, i) == if CharIs(input, i, '=') then Entry(Found(Text("=")), i + 1)
        else Entry(Failed, i)
  {
    hide EntryOf;
    LiteralStep(Equal, input, i);
    if i < |input| { FirstChar(input, i); }
  }

  lemma SimpleStep(input: string, i: nat)
    requires i <= |input|
    ensures EntryOf(Simple, input, i) == SimpleAt(input, i)
  {
    hide AttrTypeLen, DescriptionLen, CompLen, ValueLen, Peg, EntryOf, LexLen, Rest, Sub;
    var s := Rest(input, i);
    var t, a := AttrTypeLen(s), DescriptionLen(s);
    AttrFirst(s);
    ItemRules(s);
    EntryIs(Simple, input, i, ReadSimple(s));
    NameStep(input, i);
    if a == 0 { return; }
    SubRest(input, i, 0, t);
    var j := i + a;
    RestRest(input, i, a);
    LexStep(FilterType, input, j);
    ItemRules(Rest(input, j));
    var c := CompLen(Rest(input, j));
    if c == 0 { return; }
    SubRest(input, i, a, a + c);
    var k := j + c;
    RestRest(input, i, a + c);
    LexStep(Value, input, k);
    ItemRules(Rest(input, k));
    SubRest(input, i, a + c, a + c + ValueLen(Rest(input, k)));
  }

  lemma ItemStep(input: string, i: nat)
    requires i <= |input|
    ensures EntryOf(ItemRule, input, i) == Either(EntryOf(Wildcard, input, i), EntryOf(Simple, input, i))
  {
    hide EntryOf, ReadWildcard, ReadSimple, Rest;
    var s := Rest(input, i);
    EntryIs(ItemRule, input, i, ReadItem(s));
    EntryIs(Wildcard, input, i, ReadWildcard(s));
    EntryIs(Simple, input, i, ReadSimple(s));
  }

  // -------------------------------------------------- entries of filters

  function TreeOf(n: Node): Filter { if n.Flt? then n.filter else Nothing }

  /** Where FILL* ends. */
  function FillsEnd(input: string, i: nat): (j: nat)
    requires i <= |input|
    ensures i <= j <= |input|
  {
    i + FillsSize(Fills(Rest(input, i)))
  }

  lemma FillsStep(input: string, i: nat, n: nat)
    requires i <= |input| && n == FillLen(Rest(input, i))
    ensures Fills(Rest(input, i)) == if n == 0 then [] else [Sub(input, i, i + n)] + Fills(Rest(input, i + n))
  {
    hide FillLen, Rest, Sub;
    SubRest(input, i, 0, n);
    RestRest(input, i, n);
  }

  lemma {:induction false} FillsSizeSnoc(fs: seq<string>, f: string)
    ensures FillsSize(fs + [f]) == FillsSize(fs) + |f|
  {
    if fs == [] {
      assert [] + [f] == [f] && [f][1..] == [];
    } else {
      FillsSizeSnoc(fs[1..], f);
      assert (fs + [f])[1..] == fs[1..] + [f];
    }
  }

  function FilterAt(input: string, i: nat): Entry
    requires i <= |input|
  {
    var f := FillsEnd(input, i);
    if !CharIs(input, f, '(') then Entry(Failed, i)
    else
      var c := EntryOf(FilterComp, input, f + 1);
      if c.answer.Failed? || !CharIs(input, c.end, ')') then Entry(Failed, i)
      else Entry(Found(Flt(FilterOf(c.answer.node))), FillsEnd(input, c.end + 1))
  }

  lemma FilterStep(input: string, i: nat)
    requires i <= |input|
    ensures EntryOf(FilterRule, input, i) == FilterAt(input, i)
  {
    hide Fills, FillsSize, Rest, EntryOf, ReadComp, ReadFilter, FilterOf, FillsEnd, FillLen, FilterAt, CharIs;
    var s := Rest(input, i);
    var r := ReadFilter(s);
    EntryIs(FilterRule, input, i, r);
    FillsEndIs(input, i);
    var f := FillsEnd(input, i);
    CharRest(input, i, f - i);
    FilterParts(s, f - i);
    if !CharIs(input, f, '(') {
      NoFilterAt(input, i);
      return;
    }
    OpeningIsThere(input, f);
    RestRest(input, i, f + 1 - i);
    var c := ReadComp(Rest(input, f + 1));
    EntryIs(FilterComp, input, f + 1, c);
    FilterAtIs(input, i, EntryOf(FilterComp, input, f + 1));
    if c.Failure? {
      assert r == Failure;
    } else {
      var e := f + 1 + c.used;
      CharRest(input, i, e - i);
      if CharIs(input, e, ')') {
        OpeningIsThere(input, e);
        RestRest(input, i, e + 1 - i);
        FillsEndIs(input, e + 1);
        assert r == Got(Flt(FilterOf(c.node)), FillsEnd(input, e + 1) - i);
      } else {
        assert r == Failure;
      }
    }
  }

  lemma OpeningIsThere(input: string, f: nat)
    ensures forall x | CharIs(input, f, x) :: f < |input|
  {}

  lemma NoFilterAt(input: string, i: nat)
    requires i <= |input| && !CharIs(input, FillsEnd(input, i), '(')
    ensures FilterAt(input, i) == Entry(Failed, i)
  {
    hide FillsEnd, EntryOf, FilterOf, CharIs;
  }

  lemma FilterAtIs(input: string, i: nat, c: Entry)
    requires i <= |input| && CharIs(input, FillsEnd(input, i), '(')
    requires c == EntryOf(FilterComp, input, FillsEnd(input, i) + 1)
    ensures c.answer.Failed? || !CharIs(input, c.end, ')') ==> FilterAt(input, i) == Entry(Failed, i)
    ensures !c.answer.Failed? && CharIs(input, c.end, ')') ==>
              FilterAt(input, i) == Entry(Found(Flt(FilterOf(c.answer.node))), FillsEnd(input, c.end + 1))
  {
    hide FillsEnd, EntryOf, FilterOf;
  }

  lemma FillsEndIs(input: string, i: nat)
    requires i <= |input|
    ensures FillsEnd(input, i) == i + FillsSize(Fills(Rest(input, i)))
  {}

  /** The filter rule from where the white space ends. */
  lemma FilterParts(s: string, f: nat)
    requires f == FillsSize(Fills(s))
    ensures f <= |s|
    ensures !CharIs(s, f, '(') ==> ReadFilter(s) == Failure
    ensures CharIs(s, f, '(') ==>
              var c := ReadComp(Rest(s, f + 1));
              var n := if c.Got? then f + 1 + c.used else 0;
              if c.Failure? || !CharIs(s, n, ')') then ReadFilter(s) == Failure
              else ReadFilter(s) == Got(Flt(FilterOf(c.node)), n + 1 + FillsSize(Fills(Rest(s, n + 1))))
  {
    hide Fills, FillsSize, Rest, ReadComp, FilterOf;
  }

  function FilterItemAt(input: string, i: nat): Entry
    requires i <= |input|
  {
    var r := EntryOf(ItemRule, input, FillsEnd(input, i));
    if r.answer.Failed? then Entry(Failed, i) else Entry(Found(Flt(FilterOf(r.answer.node))), r.end)
  }

  lemma FilterItemStep(input: string, i: nat)
    requires i <= |input|
    ensures EntryOf(FilterItem, input, i) == FilterItemAt(input, i)
  {
    hide Fills, FillsSize, Rest, EntryOf, ReadItem;
    var f := FillsEnd(input, i);
    EntryIs(FilterItem, input, i, ReadFilterItem(Rest(input, i)));
    RestRest(input, i, f - i);
    EntryIs(ItemRule, input, f, ReadItem(Rest(input, f)));
  }

  lemma CompStep(input: string, i: nat)
    requires i <= |input|
    ensures EntryOf(FilterComp, input, i)
         == Either(EntryOf(AndRule, input, i),
                   Either(EntryOf(OrRule, input, i), Either(EntryOf(NotRule, input, i), EntryOf(ItemRule, input, i))))
  {
    hide Rest, EntryOf, ReadJunction, ReadNot, ReadItem;
    var s := Rest(input, i);
    EntryIs(FilterComp, input, i, ReadComp(s));
    EntryIs(AndRule, input, i, ReadJunction(And, s));
    EntryIs(OrRule, input, i, ReadJunction(Or, s));
    EntryIs(NotRule, input, i, ReadNot(s));
    EntryIs(ItemRule, input, i, ReadItem(s));
  }

  function JunctionRule(op: Op): Rule { if op == And then AndRule else OrRule }

  function JunctionAt(op: Op, input: string, i: nat): Entry
    requires i <= |input|
  {
    if !CharIs(input, i, OpText(op)[0]) then Entry(Failed, i)
    else
      var l := EntryOf(FilterList, input, FillsEnd(input, i + 1));
      if l.answer.Failed? then Entry(Failed, i)
      else Entry(Found(Flt(Junction(op, Fills(Rest(input, i + 1)), l.answer.node))), FillsEnd(input, l.end))
  }

  lemma JunctionStep(op: Op, input: string, i: nat)
    requires i <= |input| && op != Not
    ensures EntryOf(JunctionRule(op), input, i) == JunctionAt(op, input, i)
  {
    hide Fills, FillsSize, Rest, EntryOf, ReadList, OpText;
    var s := Rest(input, i);
    EntryIs(JunctionRule(op), input, i, ReadJunction(op, s));
    CharRest(input, i, 0);
    if CharIs(input, i, OpText(op)[0]) {
      RestRest(input, i, 1);
      var f := FillsEnd(input, i + 1);
      RestRest(input, i, f - i);
      var l := ReadList(Rest(input, f));
      EntryIs(FilterList, input, f, l);
      if l.Got? { RestRest(input, i, f + l.used - i); }
    }
  }

  function NotAt(input: string, i: nat): Entry
    requires i <= |input|
  {
    if !CharIs(input, i, '!') then Entry(Failed, i)
    else
      var x := EntryOf(FilterRule, input, FillsEnd(input, i + 1));
      if x.answer.Failed? then Entry(Failed, i)
      else Entry(Found(Flt(Negation(x.answer.node))), FillsEnd(input, x.end))
  }

  lemma NotStep(input: string, i: nat)
    requires i <= |input|
    ensures EntryOf(NotRule, input, i) == NotAt(input, i)
  {
    hide Fills, FillsSize, Rest, EntryOf, ReadFilter;
    EntryIs(NotRule, input, i, ReadNot(Rest(input, i)));
    CharRest(input, i, 0);
    if CharIs(input, i, '!') {
      RestRest(input, i, 1);
      var f := FillsEnd(input, i + 1);
      RestRest(input, i, f - i);
      var x := ReadFilter(Rest(input, f));
      EntryIs(FilterRule, input, f, x);
      if x.Got? { RestRest(input, i, f + x.used - i); }
    }
  }

  /** The list once these filters have been read, up to here. */
  function ListFrom(input: string, done: seq<Filter>, at: nat, i: nat): Entry
    requires at <= |input| && i <= |input|
  {
    var l := EntryOf(FilterList, input, at);
    if l.answer.Found? then Entry(Found(Flts(done + FiltersOf(l.answer.node))), l.end)
    else if done == [] then Entry(Failed, i)
    else Entry(Found(Flts(done)), at)
  }

  function FiltersOf(n: Node): seq<Filter> { if n.Flts? then n.filters else [] }

  lemma ListStep(input: string, i: nat)
    requires i <= |input|
    ensures ListFrom(input, [], i, i) == EntryOf(FilterList, input, i)
    ensures EntryOf(FilterRule, input, i).answer.Failed? ==> EntryOf(FilterList, input, i) == Entry(Failed, i)
    ensures EntryOf(FilterRule, input, i).answer.Found? ==>
              EntryOf(FilterList, input, i) == ListFrom(input, [TreeOf(EntryOf(FilterRule, input, i).answer.node)],
                  EntryOf(FilterRule, input, i).end, i)
  {
    hide Rest, EntryOf, ReadFilter;
    var s := Rest(input, i);
    var x := ReadFilter(s);
    EntryIs(FilterRule, input, i, x);
    EntryIs(FilterList, input, i, ReadList(s));
    if ReadList(s).Got? { assert [] + ReadList(s).node.filters == ReadList(s).node.filters; }
    if x.Got? {
      RestRest(input, i, x.used);
      EntryIs(FilterList, input, i + x.used, ReadList(Rest(input, i + x.used)));
    }
  }

  /** One more filter of the list. */
  lemma ListMore(input: string, done: seq<Filter>, at: nat, i: nat)
    requires at <= |input| && i <= |input| && EntryOf(FilterRule, input, at).answer.Found?
    ensures ListFrom(input, done, at, i)
         == ListFrom(input, done + [TreeOf(EntryOf(FilterRule, input, at).answer.node)],
             EntryOf(FilterRule, input, at).end, i)
  {
    hide EntryOf;
    ListStep(input, at);
    var f, e := TreeOf(EntryOf(FilterRule, input, at).answer.node), EntryOf(FilterRule, input, at).end;
    var l := EntryOf(FilterList, input, e);
    if l.answer.Found? { assert done + ([f] + FiltersOf(l.answer.node)) == done + [f] + FiltersOf(l.answer.node); }
  }

  lemma RootStep(input: string, i: nat)
    requires i <= |input|
    ensures EntryOf(Root, input, i) == Either(EntryOf(FilterRule, input, i), EntryOf(FilterItem, input, i))
  {
    hide Rest, EntryOf, ReadFilter, ReadFilterItem;
    var s := Rest(input, i);
    EntryIs(Root, input, i, ReadRoot(s));
    EntryIs(FilterRule, input, i, ReadFilter(s));
    EntryIs(FilterItem, input, i, ReadFilterItem(s));
  }

  // -------------------------------------------------- the number of entries

  const RULES := [Root, FilterRule, FilterItem, FilterComp, AndRule, OrRule, NotRule, FilterList, ItemRule, Simple,
                  FilterType, Equal, Approx, Greater, Less, Wildcard, WildcardValue, Any, AttrRule, Value, Description,
                  AttrType, AttrTypeName, AttrTypeChars, LdapOid, Options, OptionRule, AttributeValue, EscapedCharacter,
                  FillRule, Space, Tab, Sep, Digit, Alpha]

  lemma {:induction false} KeysOfRule(keys: set<Key>, rule: Rule, n: nat)
    requires forall k | k in keys :: k.0 == rule && k.1 < n
    ensures |keys| <= n
    decreases n
  {
    if n == 0 {
      assert keys == {};
    } else {
      var top: set<Key> := {(rule, n - 1)};
      KeysOfRule(keys - top, rule, n - 1);
      assert |keys| <= |keys - top| + 1 by { assert keys <= (keys - top) + top; SubsetSize(keys, (keys - top) + top); }
    }
  }

  lemma {:induction false} SubsetSize(a: set<Key>, b: set<Key>)
    requires a <= b
    ensures |a| <= |b|
  {
    if a != {} {
      var k :| k in a;
      SubsetSize(a - {k}, b - {k});
    }
  }

  /** At most one entry for each rule and position. */
  lemma {:induction false} KeysOfRules(keys: set<Key>, rules: seq<Rule>, n: nat)
    requires forall k | k in keys :: k.0 in rules && k.1 < n
    ensures |keys| <= |rules| * n
    decreases |rules|
  {
    if rules == [] {
      assert keys == {};
    } else {
      var mine := set k | k in keys && k.0 == rules[0];
      KeysOfRule(mine, rules[0], n);
      KeysOfRules(keys - mine, rules[1..], n);
      assert keys == mine + (keys - mine);
      assert |rules| * n == n + |rules[1..]| * n by { OneMore(|rules[1..]|, n); }
    }
  }

  lemma OneMore(m: nat, n: nat)
    ensures (m + 1) * n == n + m * n
  {}

  lemma AllRules(rule: Rule)
    ensures rule in RULES
  {}

  lemma OneMoreEntry(cache: map<Key, Entry>, working: set<Key>, k: Key, e: Entry)
    requires k in working && working !! cache.Keys
    ensures var cache', working' := cache[k := e], working - {k};
            working' !! cache'.Keys && |cache'| + |working'| == |cache| + |working|
  {
    assert cache[k := e].Keys == cache.Keys + {k};
  }

  class Parser {
    const input: string
    var offset: nat
    var cache: map<Key, Entry>
    /** The rules at work, and how often a rule had to be worked out. */
    ghost var working: set<Key>
    ghost var misses: nat

    constructor (input: string)
      ensures this.input == input && offset == 0 && cache == map[] && working == {} && misses == 0 && Valid()
    {
      this.input, offset, cache, working, misses := input, 0, map[], {}, 0;
    }

    /** Every entry of the table is what the grammar gives without a table; a rule was worked out
        once for each entry and for each rule at work. */
    ghost predicate Valid()
      reads this`cache, this`working, this`misses
    {
      && (forall k | k in cache :: k.1 <= |input| && cache[k] == EntryOf(k.0, input, k.1))
      && working !! cache.Keys && misses == |cache| + |working|
    }

    ghost predicate Ready(rule: Rule)
      reads this
    {
      Valid() && offset <= |input| && MayCall(working, offset, Rank(rule))
    }

    /** The outcome of a method: the grammar's answer, the offset moved past what was read. */
    twostate predicate Reads(rule: Rule, answer: Answer)
      reads this
    {
      && Valid() && old(offset) <= offset <= |input| && working == old(working)
      && Entry(answer, offset) == EntryOf(rule, input, old(offset))
      && (if answer.Found? then old(offset) < offset else offset == old(offset))
    }

    /** The rule is at work at this position, and may call others. */
    ghost predicate Working(before: set<Key>, rule: Rule, at: nat)
      reads this`working
    {
      && working == before + {(rule, at)} && (rule, at) !in before
      && forall j: nat, r: Rule :: j > at || (j == at && Rank(r) < Rank(rule)) ==> MayCall(working, j, Rank(r))
    }

    /** The table's entry, if there is one; else the rule goes to work. */
    method Recall(rule: Rule) returns (hit: bool, answer: Answer)
      requires Ready(rule)
      modifies this`offset, this`working, this`misses
      ensures hit ==> Reads(rule, answer)
      ensures !hit ==> Valid() && offset == old(offset) && Working(old(working), rule, offset)
    {
      hide EntryOf;
      hit, answer := (rule, offset) in cache, Failed;
      if hit {
        var e := cache[(rule, offset)];
        offset, answer := e.end, e.answer;
      } else {
        working, misses := working + {(rule, offset)}, misses + 1;
      }
    }

    method Remember(rule: Rule, at: nat, answer: Answer, ghost before: set<Key>)
      requires Valid() && at <= |input| && Working(before, rule, at)
      requires Entry(answer, offset) == EntryOf(rule, input, at)
      modifies this`cache, this`working
      ensures Valid() && working == before && at <= offset <= |input|
      ensures if answer.Found? then at < offset else offset == at
    {
      hide EntryOf, MayCall;
      OneMoreEntry(cache, working, (rule, at), Entry(answer, offset));
      cache := cache[(rule, at) := Entry(answer, offset)];
      working := working - {(rule, at)};
    }

    method ReadChar(c: char) returns (ok: bool)
      requires offset <= |input|
      modifies this`offset
      ensures offset <= |input| && ok == CharIs(input, old(offset), c) && offset == old(offset) + (if ok then 1 else 0)
    {
      ok := offset < |input| && input[offset] == c;
      if ok { offset := offset + 1; }
    }

    /** The rules for a fixed text. */
    method ReadLiteral(rule: Rule) returns (answer: Answer)
      requires Ready(rule) && IsLiteral(rule)
      modifies this
      ensures Reads(rule, answer)
    {
      hide Peg, EntryOf, Parser.Valid, MayCall, Rest, Sub;
      var index0 := offset;
      var hit, a := Recall(rule);
      if hit { return a; }
      LiteralStep(rule, input, index0);
      answer := Failed;
      var text := Literal(rule);
      if offset + |text| <= |input| && Sub(input, offset, offset + |text|) == text {
        answer := Found(Text(text));
        offset := offset + |text|;
      }
      Remember(rule, index0, answer, old(working));
    }

    /** The rules for one character of a class. */
    method ReadOneOf(rule: Rule) returns (answer: Answer)
      requires Ready(rule) && rule in {Digit, Alpha}
      modifies this
      ensures Reads(rule, answer)
    {
      hide Peg, EntryOf, Parser.Valid, MayCall, Rest, Sub;
      var index0 := offset;
      var hit, a := Recall(rule);
      if hit { return a; }
      ClassStep(rule, input, index0);
      answer := Failed;
      if offset < |input| && MemberOf(rule)(input[offset]) {
        answer := Found(Text(Sub(input, offset, offset + 1)));
        offset := offset + 1;
      }
      Remember(rule, index0, answer, old(working));
    }

    method ReadEscapedCharacter() returns (answer: Answer)
      requires Ready(EscapedCharacter)
      modifies this
      ensures Reads(EscapedCharacter, answer)
    {
      hide Peg, EntryOf, Parser.Valid, MayCall, Rest, Sub;
      var index0 := offset;
      var hit, a := Recall(EscapedCharacter);
      if hit { return a; }
      EscapedStep(input, index0);
      answer := Failed;
      Remember(EscapedCharacter, index0, answer, old(working));
    }

    method ReadAttributeValue() returns (answer: Answer)
      requires Ready(AttributeValue)
      modifies this
      ensures Reads(AttributeValue, answer)
    {
      hide Peg, EntryOf, Parser.Valid, MayCall, Rest, Sub;
      var index0 := offset;
      var hit, a := Recall(AttributeValue);
      if hit { return a; }
      ClassStep(AttributeValue, input, index0);
      EscapedStep(input, index0);
      answer := ReadEscapedCharacter();
      if answer.Failed? {
        if offset < |input| && IsValueChar(input[offset]) {
          answer := Found(Text(Sub(input, offset, offset + 1)));
          offset := offset + 1;
        }
      }
      Remember(AttributeValue, index0, answer, old(working));
    }

    method ReadAttrTypeChars() returns (answer: Answer)
      requires Ready(AttrTypeChars)
      modifies this
      ensures Reads(AttrTypeChars, answer)
    {
      hide Peg, EntryOf, Parser.Valid, MayCall, Rest, Sub;
      var index0 := offset;
      var hit, a := Recall(AttrTypeChars);
      if hit { return a; }
      ClassStep(AttrTypeChars, input, index0);
      ClassStep(Alpha, input, index0);
      ClassStep(Digit, input, index0);
      answer := ReadOneOf(Alpha);
      if answer.Failed? {
        answer := ReadOneOf(Digit);
        if answer.Failed? {
          if offset < |input| && input[offset] == '-' {
            answer := Found(Text(Sub(input, offset, offset + 1)));
            offset := offset + 1;
          }
        }
      }
      Remember(AttrTypeChars, index0, answer, old(working));
    }

    method ReadSep() returns (answer: Answer)
      requires Ready(Sep)
      modifies this
      ensures Reads(Sep, answer)
    {
      hide Peg, EntryOf, Parser.Valid, MayCall, Rest, Sub;
      var index0 := offset;
      var hit, a := Recall(Sep);
      if hit { return a; }
      SepStep(input, index0);
      answer := Failed;
      if offset + 2 <= |input| && Sub(input, offset, offset + 2) == "\r\n" {
        answer := Found(Text("\r\n"));
        offset := offset + 2;
      } else if offset < |input| && input[offset] == '\n' {
        answer := Found(Text(Sub(input, offset, offset + 1)));
        offset := offset + 1;
      }
      Remember(Sep, index0, answer, old(working));
    }

    method ReadFill() returns (answer: Answer)
      requires Ready(FillRule)
      modifies this
      ensures Reads(FillRule, answer)
    {
      hide Peg, EntryOf, Parser.Valid, MayCall, Rest, Sub;
      var index0 := offset;
      var hit, a := Recall(FillRule);
      if hit { return a; }
      FillStep(input, index0);
      answer := ReadLiteral(Space);
      if answer.Failed? {
        answer := ReadLiteral(Tab);
        if answer.Failed? {
          answer := ReadSep();
        }
      }
      Remember(FillRule, index0, answer, old(working));
    }

    method ReadFilterType() returns (answer: Answer)
      requires Ready(FilterType)
      modifies this
      ensures Reads(FilterType, answer)
    {
      hide Peg, EntryOf, Parser.Valid, MayCall, Rest, Sub;
      var index0 := offset;
      var hit, a := Recall(FilterType);
      if hit { return a; }
      FilterTypeStep(input, index0);
      answer := ReadLiteral(Equal);
      if answer.Failed? {
        answer := ReadLiteral(Approx);
        if answer.Failed? {
          answer := ReadLiteral(Greater);
          if answer.Failed? {
            answer := ReadLiteral(Less);
          }
        }
      }
      Remember(FilterType, index0, answer, old(working));
    }

    // ------------------------------------------------ repetitions

    /** The loop over a rule for one character. */
    method ReadRun(rule: Rule, ghost before: set<Key>, ghost parent: Rule, ghost at: nat) returns (text: string)
      requires Valid() && offset <= |input| && Working(before, parent, at) && at <= offset
      requires rule in {AttributeValue, AttrTypeChars, Digit} && Rank(rule) < Rank(parent)
      modifies this
      ensures Valid() && working == old(working) && old(offset) <= offset <= |input|
      ensures text == Sub(input, old(offset), offset) && |text| == Run(Rest(input, old(offset)), MemberOf(rule))
    {
      hide Peg, EntryOf, Parser.Valid, MayCall, Rest, Sub, Rank;
      var index1 := offset;
      text := "";
      var more := true;
      while more
        invariant Valid() && working == old(working) && index1 <= offset <= |input|
        invariant text == Sub(input, index1, offset)
        invariant forall k | index1 <= k < offset :: MemberOf(rule)(input[k])
        invariant !more && offset < |input| ==> !MemberOf(rule)(input[offset])
        decreases more, |input| - offset
      {
        assert MayCall(working, offset, Rank(rule));
        ClassStep(rule, input, offset);
        var answer;
        if rule == AttributeValue {
          answer := ReadAttributeValue();
        } else if rule == AttrTypeChars {
          answer := ReadAttrTypeChars();
        } else {
          answer := ReadOneOf(Digit);
        }
        if answer.Found? {
          SubSub(input, index1, offset - 1, offset);
          text := text + answer.node.text;
        } else {
          more := false;
        }
      }
      RunEnds(input, index1, offset, MemberOf(rule));
    }

    method ReadValue() returns (answer: Answer)
      requires Ready(Value)
      modifies this
      ensures Reads(Value, answer)
    {
      hide Peg, EntryOf, Parser.Valid, MayCall, Rest, Sub;
      var index0 := offset;
      var hit, a := Recall(Value);
      if hit { return a; }
      LexStep(Value, input, index0);
      var text := ReadRun(AttributeValue, old(working), Value, index0);
      answer := if text == "" then Failed else Found(Text(text));
      Remember(Value, index0, answer, old(working));
    }

    method ReadOption() returns (answer: Answer)
      requires Ready(OptionRule)
      modifies this
      ensures Reads(OptionRule, answer)
    {
      hide Peg, EntryOf, Parser.Valid, MayCall, Rest, Sub;
      var index0 := offset;
      var hit, a := Recall(OptionRule);
      if hit { return a; }
      LexStep(OptionRule, input, index0);
      var text := ReadRun(AttrTypeChars, old(working), OptionRule, index0);
      answer := if text == "" then Failed else Found(Text(text));
      Remember(OptionRule, index0, answer, old(working));
    }

    method ReadAny() returns (answer: Answer)
      requires Ready(Any)
      modifies this
      ensures Reads(Any, answer)
    {
      hide Peg, EntryOf, Parser.Valid, MayCall, Rest, Sub, AnyLen, PiecesLen, ValueLen;
      var index0 := offset;
      var hit, a := Recall(Any);
      if hit { return a; }
      LexStep(Any, input, index0);
      AnyStep(input, index0);
      answer := Failed;
      var star := ReadChar('*');
      if star {
        var more := true;
        while more
          invariant Valid() && Working(old(working), Any, index0) && index0 < offset <= |input|
          invariant AnyLen(Rest(input, index0)) == offset - index0
              + (if more then PiecesLen(Rest(input, offset)) else 0)
          decreases more, |input| - offset
        {
          var index3 := offset;
          LexStep(Value, input, index3);
          PiecesStep(input, index3, ValueLen(Rest(input, index3)));
          assert MayCall(working, offset, Rank(Value));
          var value := ReadValue();
          star := false;
          if value.Found? {
            star := ReadChar('*');
          }
          if !star {
            offset := index3;
            more := false;
          }
        }
        answer := Found(Text(Sub(input, index0, offset)));
      }
      Remember(Any, index0, answer, old(working));
    }

    method ReadWildcardValue() returns (answer: Answer)
      requires Ready(WildcardValue)
      modifies this
      ensures Reads(WildcardValue, answer)
    {
      hide Peg, EntryOf, Parser.Valid, MayCall, Rest, Sub, ValueLen, AnyLen;
      var index0 := offset;
      var hit, a := Recall(WildcardValue);
      if hit { return a; }
      WildcardValueStep(input, index0);
      answer := Failed;
      var value := ReadValue();
      var any := ReadAny();
      if any.Found? {
        value := ReadValue();
        answer := Found(Text(Sub(input, index0, offset)));
      } else {
        offset := index0;
      }
      Remember(WildcardValue, index0, answer, old(working));
    }

    // ------------------------------------------------ attributes

    method ReadAttrTypeName() returns (answer: Answer)
      requires Ready(AttrTypeName)
      modifies this
      ensures Reads(AttrTypeName, answer)
    {
      hide Peg, EntryOf, Parser.Valid, MayCall, Rest, Sub, Run;
      var index0 := offset;
      var hit, a := Recall(AttrTypeName);
      if hit { return a; }
      NameStep(input, index0);
      AttrTypeNameStep(input, index0);
      ClassStep(Alpha, input, index0);
      answer := ReadOneOf(Alpha);
      if answer.Found? {
        var text := ReadRun(AttrTypeChars, old(working), AttrTypeName, index0);
        SubSub(input, index0, index0 + 1, offset);
        answer := Found(Attr(TextOf(answer.node) + text));
      }
      Remember(AttrTypeName, index0, answer, old(working));
    }

    /** The loop over the numbers behind dots. */
    method ReadDots(ghost before: set<Key>, ghost at: nat)
      requires Valid() && offset <= |input| && Working(before, LdapOid, at) && at <= offset
      modifies this
      ensures Valid() && working == old(working)
      ensures offset == old(offset) + DottedLen(Rest(input, old(offset))) <= |input|
    {
      hide Peg, EntryOf, Parser.Valid, MayCall, Rest, Sub, Run, DottedLen, LexLen;
      ghost var start, left: nat := offset, DottedLen(Rest(input, offset));
      var more := true;
      while more
        invariant Valid() && working == old(working) && start <= offset <= |input|
        invariant DottedLen(Rest(input, start)) == offset - start + left
        invariant left == if more then DottedLen(Rest(input, offset)) else 0
        decreases more, |input| - offset
      {
        var index4 := offset;
        var dot := ReadChar('.');
        var digits := "";
        DottedStep(input, index4);
        if dot {
          digits := ReadRun(Digit, before, LdapOid, at);
        }
        if digits == "" {
          offset := index4;
          more := false;
        }
        left := if more then DottedLen(Rest(input, offset)) else 0;
      }
    }

    method ReadLdapOid() returns (answer: Answer)
      requires Ready(LdapOid)
      modifies this
      ensures Reads(LdapOid, answer)
    {
      hide Peg, EntryOf, Parser.Valid, MayCall, Rest, Sub, Run, OidLen, DottedLen, LexLen;
      var index0 := offset;
      var hit, a := Recall(LdapOid);
      if hit { return a; }
      NameStep(input, index0);
      OidStep(input, index0, Run(Rest(input, index0), IsDigit));
      answer := Failed;
      var digits := ReadRun(Digit, old(working), LdapOid, index0);
      if digits != "" {
        ReadDots(old(working), index0);
        answer := Found(Attr(Sub(input, index0, offset)));
      }
      Remember(LdapOid, index0, answer, old(working));
    }

    method ReadAttrType() returns (answer: Answer)
      requires Ready(AttrType)
      modifies this
      ensures Reads(AttrType, answer)
    {
      hide Peg, EntryOf, Parser.Valid, MayCall, Rest, Sub, OidLen, NameLen;
      var index0 := offset;
      var hit, a := Recall(AttrType);
      if hit { return a; }
      NameStep(input, index0);
      answer := ReadLdapOid();
      if answer.Failed? {
        answer := ReadAttrTypeName();
      }
      Remember(AttrType, index0, answer, old(working));
    }

    method ReadOptions() returns (answer: Answer)
      requires Ready(Options)
      modifies this
      ensures Reads(Options, answer)
      decreases |input| - offset
    {
      hide Peg, EntryOf, Parser.Valid, MayCall, Rest, Sub, Run, OptionsLen, LexLen;
      var index0 := offset;
      var hit, a := Recall(Options);
      if hit { return a; }
      LexStep(Options, input, index0);
      LexStep(OptionRule, input, index0);
      OptionsStep(input, index0, Run(Rest(input, index0), IsAttrChar));
      var option := ReadOption();
      answer := Failed;
      if option.Found? {
        ghost var index2 := offset;
        var semicolon := ReadChar(';');
        if semicolon {
          LexStep(Options, input, offset);
          OptionsStep(input, offset, Run(Rest(input, offset), IsAttrChar));
          var options := ReadOptions();
          if options.Found? {
            FirstChar(input, index2);
            SubSub(input, index0, index2, index2 + 1);
            SubSub(input, index0, index2 + 1, offset);
            answer := Found(Text(TextOf(option.node) + ";" + TextOf(options.node)));
          }
        }
      }
      if answer.Failed? {
        offset := index0;
        answer := ReadOption();
      }
      Remember(Options, index0, answer, old(working));
    }

    method ReadDescription() returns (answer: Answer)
      requires Ready(Description)
      modifies this
      ensures Reads(Description, answer)
    {
      hide Peg, EntryOf, Parser.Valid, MayCall, Rest, Sub, AttrTypeLen, OptionsLen, DescriptionLen, LexLen, Run;
      var index0 := offset;
      var hit, a := Recall(Description);
      if hit { return a; }
      NameStep(input, index0);
      DescriptionStep(input, index0, AttrTypeLen(Rest(input, index0)));
      answer := ReadAttrType();
      if answer.Found? {
        var index2 := offset;
        var semicolon := ReadChar(';');
        if semicolon {
          LexStep(Options, input, offset);
          OptionsStep(input, offset, Run(Rest(input, offset), IsAttrChar));
          var options := ReadOptions();
          if options.Failed? {
            offset := index2;
          }
        }
      }
      Remember(Description, index0, answer, old(working));
    }

    method ReadAttr() returns (answer: Answer)
      requires Ready(AttrRule)
      modifies this
      ensures Reads(AttrRule, answer)
    {
      hide Peg, EntryOf, Parser.Valid, MayCall, Rest, Sub;
      var index0 := offset;
      var hit, a := Recall(AttrRule);
      if hit { return a; }
      NameStep(input, index0);
      answer := ReadDescription();
      Remember(AttrRule, index0, answer, old(working));
    }

    // ------------------------------------------------ items

    method ReadWildcard() returns (answer: Answer)
      requires Ready(Wildcard)
      modifies this
      ensures Reads(Wildcard, answer)
    {
      hide Peg, EntryOf, Parser.Valid, MayCall, Rest, Sub;
      var index0 := offset;
      var hit, a := Recall(Wildcard);
      if hit { return a; }
      WildcardStep(input, index0);
      answer := Failed;
      var attr := ReadAttr();
      if attr.Found? {
        var equal := ReadLiteral(Equal);
        if equal.Found? {
          var value := ReadWildcardValue();
          if value.Found? {
            answer := Found(Flt(Item(NameOf(attr.node), "=", TextOf(value.node))));
          }
        }
      }
      if answer.Failed? { offset := index0; }
      Remember(Wildcard, index0, answer, old(working));
    }

    method ReadSimple() returns (answer: Answer)
      requires Ready(Simple)
      modifies this
      ensures Reads(Simple, answer)
    {
      hide Peg, EntryOf, Parser.Valid, MayCall, Rest, Sub;
      var index0 := offset;
      var hit, a := Recall(Simple);
      if hit { return a; }
      SimpleStep(input, index0);
      answer := Failed;
      var attr := ReadAttr();
      if attr.Found? {
        var comp := ReadFilterType();
        if comp.Found? {
          var value := ReadValue();
          if value.Found? {
            answer := Found(Flt(Item(NameOf(attr.node), TextOf(comp.node), TextOf(value.node))));
          }
        }
      }
      if answer.Failed? { offset := index0; }
      Remember(Simple, index0, answer, old(working));
    }

    method ReadItem() returns (answer: Answer)
      requires Ready(ItemRule)
      modifies this
      ensures Reads(ItemRule, answer)
    {
      hide Peg, EntryOf, Parser.Valid, MayCall, Rest, Sub;
      var index0 := offset;
      var hit, a := Recall(ItemRule);
      if hit { return a; }
      ItemStep(input, index0);
      answer := ReadWildcard();
      if answer.Failed? {
        answer := ReadSimple();
      }
      Remember(ItemRule, index0, answer, old(working));
    }

    // ------------------------------------------------ filters

    /** The loop over FILL. */
    method ReadFills(ghost before: set<Key>, ghost parent: Rule, ghost at: nat) returns (fills: seq<string>)
      requires Valid() && offset <= |input| && Working(before, parent, at) && at <= offset
          && Rank(FillRule) < Rank(parent)
      modifies this
      ensures Valid() && working == old(working) && offset == FillsEnd(input, old(offset))
      ensures fills == Fills(Rest(input, old(offset)))
    {
      hide Peg, EntryOf, Parser.Valid, MayCall, Rank, Rest, Sub, Fills, FillsSize;
      var index2 := offset;
      fills := [];
      var more := true;
      NoFills(Fills(Rest(input, index2)));
      while more
        invariant Valid() && working == old(working) && index2 <= offset <= |input|
        invariant FillsSize(fills) == offset - index2
        invariant fills + (if more then Fills(Rest(input, offset)) else []) == Fills(Rest(input, index2))
        decreases more, |input| - offset
      {
        FillStep(input, offset);
        FillsStep(input, offset, FillLen(Rest(input, offset)));
        assert MayCall(working, offset, Rank(FillRule));
        var answer := ReadFill();
        if answer.Found? {
          var text := TextOf(answer.node);
          FillsSizeSnoc(fills, text);
          Associate(fills, [text], Fills(Rest(input, offset)));
          fills := fills + [text];
        } else {
          more := false;
        }
      }
      assert fills + [] == fills;
    }

    method ReadFilter() returns (answer: Answer)
      requires Ready(FilterRule)
      modifies this
      ensures Reads(FilterRule, answer)
      decreases |input| - offset, Rank(FilterRule)
    {
      hide Peg, EntryOf, Parser.Valid, MayCall, Rest, Sub, Fills, FilterOf, FillsEnd;
      var index0 := offset;
      var hit, a := Recall(FilterRule);
      if hit { return a; }
      FilterStep(input, index0);
      answer := Failed;
      var fills := ReadFills(old(working), FilterRule, index0);
      var open := ReadChar('(');
      if open {
        var comp := ReadFilterComp();
        if comp.Found? {
          var close := ReadChar(')');
          if close {
            fills := ReadFills(old(working), FilterRule, index0);
            answer := Found(Flt(FilterOf(comp.node)));
          }
        }
      }
      if answer.Failed? { offset := index0; }
      Remember(FilterRule, index0, answer, old(working));
    }

    method ReadFilterItem() returns (answer: Answer)
      requires Ready(FilterItem)
      modifies this
      ensures Reads(FilterItem, answer)
    {
      hide Peg, EntryOf, Parser.Valid, MayCall, Rest, Sub, Fills, FilterOf, FillsEnd;
      var index0 := offset;
      var hit, a := Recall(FilterItem);
      if hit { return a; }
      FilterItemStep(input, index0);
      answer := Failed;
      var fills := ReadFills(old(working), FilterItem, index0);
      var item := ReadItem();
      if item.Found? {
        answer := Found(Flt(FilterOf(item.node)));
      } else {
        offset := index0;
      }
      Remember(FilterItem, index0, answer, old(working));
    }

    method ReadFilterComp() returns (answer: Answer)
      requires Ready(FilterComp)
      modifies this
      ensures Reads(FilterComp, answer)
      decreases |input| - offset, Rank(FilterComp)
    {
      hide Peg, EntryOf, Parser.Valid, MayCall, Rest, Sub;
      var index0 := offset;
      var hit, a := Recall(FilterComp);
      if hit { return a; }
      CompStep(input, index0);
      answer := ReadJunction(And);
      if answer.Failed? {
        answer := ReadJunction(Or);
        if answer.Failed? {
          answer := ReadNot();
          if answer.Failed? {
            answer := ReadItem();
          }
        }
      }
      Remember(FilterComp, index0, answer, old(working));
    }

    /** _read_and, _read_or */
    method ReadJunction(op: Op) returns (answer: Answer)
      requires Ready(JunctionRule(op)) && op != Not
      modifies this
      ensures Reads(JunctionRule(op), answer)
      decreases |input| - offset, Rank(JunctionRule(op))
    {
      hide Peg, EntryOf, Parser.Valid, MayCall, Rest, Sub, Fills, FilterOf, FillsEnd, OpText;
      var index0 := offset;
      var rule := JunctionRule(op);
      var hit, a := Recall(rule);
      if hit { return a; }
      JunctionStep(op, input, index0);
      answer := Failed;
      var sign := ReadChar(OpText(op)[0]);
      if sign {
        var fills := ReadFills(old(working), rule, index0);
        var list := ReadFilterList();
        if list.Found? {
          var _ := ReadFills(old(working), rule, index0);
          answer := Found(Flt(Junction(op, fills, list.node)));
        }
      }
      if answer.Failed? { offset := index0; }
      Remember(rule, index0, answer, old(working));
    }

    method ReadNot() returns (answer: Answer)
      requires Ready(NotRule)
      modifies this
      ensures Reads(NotRule, answer)
      decreases |input| - offset, Rank(NotRule)
    {
      hide Peg, EntryOf, Parser.Valid, MayCall, Rest, Sub, Fills, FilterOf, FillsEnd;
      var index0 := offset;
      var hit, a := Recall(NotRule);
      if hit { return a; }
      NotStep(input, index0);
      answer := Failed;
      var sign := ReadChar('!');
      if sign {
        var fills := ReadFills(old(working), NotRule, index0);
        var filter := ReadFilter();
        if filter.Found? {
          fills := ReadFills(old(working), NotRule, index0);
          answer := Found(Flt(Negation(filter.node)));
        }
      }
      if answer.Failed? { offset := index0; }
      Remember(NotRule, index0, answer, old(working));
    }

    method ReadFilterList() returns (answer: Answer)
      requires Ready(FilterList)
      modifies this
      ensures Reads(FilterList, answer)
      decreases |input| - offset, Rank(FilterList)
    {
      hide Peg, EntryOf, Parser.Valid, MayCall, Rest, Sub;
      var index0 := offset;
      var hit, a := Recall(FilterList);
      if hit { return a; }
      ListStep(input, index0);
      var filters: seq<Filter> := [];
      var more := true;
      while more
        invariant Valid() && Working(old(working), FilterList, index0) && index0 <= offset <= |input|
        invariant ListFrom(input, filters, offset, index0) == EntryOf(FilterList, input, index0)
        invariant filters == [] ==> offset == index0
        invariant !more ==> EntryOf(FilterRule, input, offset).answer.Failed?
        decreases more, |input| - offset
      {
        assert MayCall(working, offset, Rank(FilterRule));
        ghost var i := offset;
        var filter := ReadFilter();
        if filter.Found? {
          ListMore(input, filters, i, index0);
          filters := filters + [TreeOf(filter.node)];
        } else {
          more := false;
        }
      }
      ListStep(input, offset);
      answer := if filters == [] then Failed else Found(Flts(filters));
      Remember(FilterList, index0, answer, old(working));
    }

    method ReadRoot() returns (answer: Answer)
      requires Ready(Root)
      modifies this
      ensures Reads(Root, answer)
    {
      hide Peg, EntryOf, Parser.Valid, MayCall, Rest, Sub;
      var index0 := offset;
      var hit, a := Recall(Root);
      if hit { return a; }
      RootStep(input, index0);
      answer := ReadFilter();
      if answer.Failed? {
        answer := ReadFilterItem();
      }
      Remember(Root, index0, answer, old(working));
    }

    /** Parsing with the table gives what the grammar gives without it, and works a rule out at
        most once for each position. */
    method Parse() returns (result: FilterGrammar.Parse)
      requires Valid() && offset == 0 && cache == map[] && working == {}
      modifies this
      ensures Valid() && result == ParseText(input)
      ensures misses == |cache| <= |RULES| * (|input| + 1)
    {
      hide Peg, EntryOf, MayCall, Parser.Valid, FilterGrammar.ReadRoot;
      assert MayCall(working, offset, Rank(Root)) by { NothingAtWork(offset, Rank(Root)); }
      var tree := ReadRoot();
      RootText(input);
      result := if tree.Found? && offset == |input| then Parsed(TreeOf(tree.node)) else ParseError;
      WorkBound();
    }

    lemma WorkBound()
      requires Valid() && working == {}
      ensures misses == |cache| <= |RULES| * (|input| + 1)
    {
      forall k | k in cache.Keys ensures k.0 in RULES && k.1 < |input| + 1 { AllRules(k.0); }
      KeysOfRules(cache.Keys, RULES, |input| + 1);
    }
  }

  lemma NoFills(fs: seq<string>)
    ensures FillsSize([]) == 0 && [] + fs == fs
  {}

  lemma Associate(a: seq<string>, b: seq<string>, c: seq<string>)
    ensures a + b + c == a + (b + c)
  {}

  lemma NothingAtWork(i: nat, rank: nat)
    ensures MayCall({}, i, rank)
  {}

  lemma RootText(input: string)
    ensures EntryOf(Root, input, 0) == Entered(FilterGrammar.ReadRoot(input), 0)
  {
    hide FilterGrammar.ReadRoot;
    assert Rest(input, 0) == input;
    EntryIs(Root, input, 0, FilterGrammar.ReadRoot(input));
  }
}
