/** The grammar of search filters, one function for each rule, without a memo table: what a rule
    gives for the text that is still to be read. */
module FilterGrammar {
  import opened FilterTree

  datatype Node = Text(text: string) | Attr(name: string) | Flt(filter: Filter) | Flts(filters: seq<Filter>)

  /** FAILURE, or a node and how many characters it took. */
  datatype Outcome = Failure | Got(node: Node, used: nat)

  // -------------------------------------------------- characters and runs of them

  predicate IsDigit(c: char) { '0' <= c <= '9' }

  /** [a-zA-Z:.] */
  predicate IsAlpha(c: char) { 'a' <= c <= 'z' || 'A' <= c <= 'Z' || c == ':' || c == '.' }

  predicate IsAttrChar(c: char) { IsAlpha(c) || IsDigit(c) || c == '-' }

  /** [^*\x29] */
  predicate IsValueChar(c: char) { c != '*' && c != ')' }

  predicate CharIs(s: string, i: nat, c: char) { i < |s| && s[i] == c }

  function Rest(s: string, i: nat): (t: string)
    requires i <= |s|
    ensures |t| == |s| - i
  {
    s[i..]
  }

  function Sub(s: string, i: nat, j: nat): (t: string)
    requires i <= j <= |s|
    ensures |t| == j - i
  {
    s[i..j]
  }

  /** The number of leading characters of a class. */
  function Run(s: string, member: char -> bool): (n: nat)
    ensures n <= |s|
    ensures forall k | 0 <= k < n :: member(s[k])
    ensures n < |s| ==> !member(s[n])
  {
    if s == [] || !member(s[0]) then 0 else 1 + Run(s[1..], member)
  }

  // -------------------------------------------------- lexical rules, by the length they match; 0 is failure

  function FillLen(s: string): (n: nat)
    ensures n <= |s|
  {
    if CharIs(s, 0, ' ') || CharIs(s, 0, '\t') then 1 else SepLen(s)
  }

  function SepLen(s: string): (n: nat)
    ensures n <= |s|
  {
    if |s| >= 2 && Sub(s, 0, 2) == "\r\n" then 2 else if CharIs(s, 0, '\n') then 1 else 0
  }

  /** FILL*, as the texts of its nodes. */
  function Fills(s: string): (fs: seq<string>)
    ensures FillsSize(fs) <= |s|
  {
    if FillLen(s) == 0 then [] else [Sub(s, 0, FillLen(s))] + Fills(Rest(s, FillLen(s)))
  }

  function FillsSize(fs: seq<string>): nat { if fs == [] then 0 else |fs[0]| + FillsSize(fs[1..]) }

  /** ("." DIGIT+)* */
  function DottedLen(s: string): (n: nat)
    ensures n <= |s|
  {
    if !CharIs(s, 0, '.') then 0
    else
      var d := Run(Rest(s, 1), IsDigit);
      if d == 0 then 0 else 1 + d + DottedLen(Rest(s, 1 + d))
  }

  function OidLen(s: string): (n: nat)
    ensures n <= |s|
  {
    var d := Run(s, IsDigit);
    if d == 0 then 0 else d + DottedLen(Rest(s, d))
  }

  function NameLen(s: string): (n: nat)
    ensures n <= |s|
  {
    if s == [] || !IsAlpha(s[0]) then 0 else 1 + Run(Rest(s, 1), IsAttrChar)
  }

  function AttrTypeLen(s: string): (n: nat)
    ensures n <= |s|
  {
    if OidLen(s) > 0 then OidLen(s) else NameLen(s)
  }

  function OptionsLen(s: string): (n: nat)
    ensures n <= |s|
  {
    var n := Run(s, IsAttrChar);
    if n == 0 then 0
    else if CharIs(s, n, ';') && OptionsLen(Rest(s, n + 1)) > 0 then n + 1 + OptionsLen(Rest(s, n + 1))
    else n
  }

  /** The attribute with its options, which are read and dropped. */
  function DescriptionLen(s: string): (n: nat)
    ensures n <= |s|
  {
    var n := AttrTypeLen(s);
    if n == 0 then 0
    else if CharIs(s, n, ';') && OptionsLen(Rest(s, n + 1)) > 0 then n + 1 + OptionsLen(Rest(s, n + 1))
    else n
  }

  function ValueLen(s: string): (n: nat)
    ensures n <= |s|
  {
    Run(s, IsValueChar)
  }

  /** (value "*")* */
  function PiecesLen(s: string): (n: nat)
    ensures n <= |s|
  {
    var v := ValueLen(s);
    if v == 0 || !CharIs(s, v, '*') then 0 else v + 1 + PiecesLen(Rest(s, v + 1))
  }

  function AnyLen(s: string): (n: nat)
    ensures n <= |s|
  {
    if CharIs(s, 0, '*') then 1 + PiecesLen(Rest(s, 1)) else 0
  }

  function WildcardLen(s: string): (n: nat)
    ensures n <= |s|
  {
    var v := ValueLen(s);
    var a := AnyLen(Rest(s, v));
    if a == 0 then 0 else v + a + ValueLen(Rest(s, v + a))
  }

  predicate Begins(s: string, t: string) { |t| <= |s| && Sub(s, 0, |t|) == t }

  function CompLen(s: string): (n: nat)
    ensures n <= |s|
  {
    if Begins(s, "=") then 1 else if Begins(s, "~=") || Begins(s, ">=") || Begins(s, "<=") then 2 else 0
  }

  // -------------------------------------------------- items

  /** attr "=" wildcard_value */
  function ReadWildcard(s: string): (r: Outcome)
    ensures r.Got? ==> 0 < r.used <= |s|
  {
    var a := DescriptionLen(s);
    if a == 0 || !CharIs(s, a, '=') then Failure
    else
      var w := WildcardLen(Rest(s, a + 1));
      if w == 0 then Failure
      else Got(Flt(Item(Sub(s, 0, AttrTypeLen(s)), "=", Sub(s, a + 1, a + 1 + w))), a + 1 + w)
  }

  /** attr filtertype value */
  function ReadSimple(s: string): (r: Outcome)
    ensures r.Got? ==> 0 < r.used <= |s|
  {
    var a := DescriptionLen(s);
    var c := CompLen(Rest(s, a));
    if a == 0 || c == 0 then Failure
    else
      var v := ValueLen(Rest(s, a + c));
      if v == 0 then Failure
      else Got(Flt(Item(Sub(s, 0, AttrTypeLen(s)), Sub(s, a, a + c), Sub(s, a + c, a + c + v))), a + c + v)
  }

  function OrElse(a: Outcome, b: Outcome): Outcome { if a.Got? then a else b }

  function ReadItem(s: string): (r: Outcome)
    ensures r.Got? ==> 0 < r.used <= |s|
  {
    OrElse(ReadWildcard(s), ReadSimple(s))
  }

  // -------------------------------------------------- filters

  function FillNodes(fs: seq<string>): seq<Filter> { if fs == [] then [] else [Fill(fs[0])] + FillNodes(fs[1..]) }

  /** return_filter: the first element that is a filter; None if there is none. */
  function FilterOf(n: Node): Filter {
    match n
    case Flt(Item(a, c, v)) => Item(a, c, v)
    case Flt(Group(op, fs)) => Group(op, fs)
    case _ => Nothing
  }

  /** return_and_filter, return_or_filter: the first element that has elements, which is the white
      space if there is any. */
  function Junction(op: Op, fills: seq<string>, list: Node): Filter {
    Group(op, if fills != [] then FillNodes(fills) else if list.Flts? then list.filters else [])
  }

  /** return_not_filter takes items only. */
  function Negation(n: Node): Filter {
    if n.Flt? && n.filter.Item? then Group(Not, [n.filter]) else Nothing
  }

  /** FILL* "(" filtercomp ")" FILL* */
  function ReadFilter(s: string): (r: Outcome)
    ensures r.Got? ==> r.node.Flt? && 0 < r.used <= |s|
    decreases |s|, 1
  {
    var f := FillsSize(Fills(s));
    if !CharIs(s, f, '(') then Failure
    else
      var c := ReadComp(Rest(s, f + 1));
      if c.Failure? || !CharIs(s, f + 1 + c.used, ')') then Failure
      else
        var n := f + 1 + c.used + 1;
        Got(Flt(FilterOf(c.node)), n + FillsSize(Fills(Rest(s, n))))
  }

  /** FILL* item */
  function ReadFilterItem(s: string): (r: Outcome)
    ensures r.Got? ==> r.node.Flt? && 0 < r.used <= |s|
  {
    var f := FillsSize(Fills(s));
    var r := ReadItem(Rest(s, f));
    if r.Failure? then Failure else Got(Flt(FilterOf(r.node)), f + r.used)
  }

  function ReadComp(s: string): (r: Outcome)
    ensures r.Got? ==> 0 < r.used <= |s|
    decreases |s|, 3
  {
    OrElse(ReadJunction(And, s), OrElse(ReadJunction(Or, s), OrElse(ReadNot(s), ReadItem(s))))
  }

  /** ("&" | "|") FILL* filterlist FILL* */
  function ReadJunction(op: Op, s: string): (r: Outcome)
    ensures r.Got? ==> 0 < r.used <= |s|
    decreases |s|, 2
  {
    if !CharIs(s, 0, OpText(op)[0]) then Failure
    else
      var fills := Fills(Rest(s, 1));
      var f := 1 + FillsSize(fills);
      var l := ReadList(Rest(s, f));
      if l.Failure? then Failure
      else
        var n := f + l.used;
        Got(Flt(Junction(op, fills, l.node)), n + FillsSize(Fills(Rest(s, n))))
  }

  /** "!" FILL* filter FILL* */
  function ReadNot(s: string): (r: Outcome)
    ensures r.Got? ==> 0 < r.used <= |s|
    decreases |s|, 2
  {
    if !CharIs(s, 0, '!') then Failure
    else
      var f := 1 + FillsSize(Fills(Rest(s, 1)));
      var x := ReadFilter(Rest(s, f));
      if x.Failure? then Failure
      else
        var n := f + x.used;
        Got(Flt(Negation(x.node)), n + FillsSize(Fills(Rest(s, n))))
  }

  /** filter+ */
  function ReadList(s: string): (r: Outcome)
    ensures r.Got? ==> r.node.Flts? && 0 < r.used <= |s|
    decreases |s|, 2
  {
    var x := ReadFilter(s);
    if x.Failure? then Failure
    else
      var more := ReadList(Rest(s, x.used));
      if more.Failure? then Got(Flts([x.node.filter]), x.used)
      else Got(Flts([x.node.filter] + more.node.filters), x.used + more.used)
  }

  function ReadRoot(s: string): (r: Outcome)
    ensures r.Got? ==> r.node.Flt? && 0 < r.used <= |s|
  {
    OrElse(ReadFilter(s), ReadFilterItem(s))
  }

  // -------------------------------------------------- rules by name

  datatype Rule =
    | Root | FilterRule | FilterItem | FilterComp | AndRule | OrRule | NotRule | FilterList
    | ItemRule | Simple | FilterType | Equal | Approx | Greater | Less | Wildcard | WildcardValue | Any
    | AttrRule | Value | Description | AttrType | AttrTypeName | AttrTypeChars | LdapOid | Options | OptionRule
    | AttributeValue | EscapedCharacter | FillRule | Space | Tab | Sep | Digit | Alpha

  function OneOf(s: string, member: char -> bool): (n: nat)
    ensures n <= |s|
  {
    if s != [] && member(s[0]) then 1 else 0
  }

  function Token(s: string, t: string): (n: nat)
    ensures n <= |s|
  {
    if Begins(s, t) then |t| else 0
  }

  /** The length that a rule whose node is the text it matched matches; 0 is failure. */
  function LexLen(rule: Rule, s: string): (n: nat)
    ensures n <= |s|
  {
    match rule
    case FilterType => CompLen(s)
    case Equal => Token(s, "=")
    case Approx => Token(s, "~=")
    case Greater => Token(s, ">=")
    case Less => Token(s, "<=")
    case WildcardValue => WildcardLen(s)
    case Any => AnyLen(s)
    case Value => ValueLen(s)
    case AttrTypeChars => OneOf(s, IsAttrChar)
    case Options => OptionsLen(s)
    case OptionRule => Run(s, IsAttrChar)
    case AttributeValue => OneOf(s, IsValueChar)
    case FillRule => FillLen(s)
    case Space => Token(s, " ")
    case Tab => Token(s, "\t")
    case Sep => SepLen(s)
    case Digit => OneOf(s, IsDigit)
    case Alpha => OneOf(s, IsAlpha)
    case _ => 0
  }

  function Matched(s: string, n: nat): Outcome
    requires n <= |s|
  {
    if n == 0 then Failure else Got(Text(Sub(s, 0, n)), n)
  }

  function Named(s: string, n: nat, used: nat): Outcome
    requires n <= |s|
  {
    if n == 0 then Failure else Got(Attr(Sub(s, 0, n)), used)
  }

  /** What a rule gives for a text. */
  function Peg(rule: Rule, s: string): (r: Outcome)
    ensures r.Got? ==> 0 < r.used <= |s|
  {
    match rule
    case Root => ReadRoot(s)
    case FilterRule => ReadFilter(s)
    case FilterItem => ReadFilterItem(s)
    case FilterComp => ReadComp(s)
    case AndRule => ReadJunction(And, s)
    case OrRule => ReadJunction(Or, s)
    case NotRule => ReadNot(s)
    case FilterList => ReadList(s)
    case ItemRule => ReadItem(s)
    case Simple => ReadSimple(s)
    case Wildcard => ReadWildcard(s)
    case AttrRule => Named(s, AttrTypeLen(s), DescriptionLen(s))
    case Description => Named(s, AttrTypeLen(s), DescriptionLen(s))
    case AttrType => Named(s, AttrTypeLen(s), AttrTypeLen(s))
    case AttrTypeName => Named(s, NameLen(s), NameLen(s))
    case LdapOid => Named(s, OidLen(s), OidLen(s))
    case _ => Matched(s, LexLen(rule, s))
  }

  datatype Parse = Parsed(filter: Filter) | ParseError

  /** Parser.parse: the root rule must take the whole text. LDAPBase.parse strips white space from a
      filter before it gets here. */
  function ParseText(s: string): Parse {
    var r := ReadRoot(s);
    if r.Got? && r.used == |s| then Parsed(r.node.filter) else ParseError
  }
}
