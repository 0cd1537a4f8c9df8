/** From filters to the search requests of LDAP: escaping, unescaping to octets, and the
    translation to the Filter of section 4.5.1 of RFC 4511. */
module Query {
  import opened Bytes
  import opened Text
  import opened Unicode
  import opened FilterTree

  // -------------------------------------------------- escaping

  /** str.replace of one character. */
  function Replaced(s: string, c: char, w: string): string {
    if s == "" then "" else (if s[0] == c then w else [s[0]]) + Replaced(s[1..], c, w)
  }

  /** LDAPBase.escape and Attribute.escape */
  function Escape(s: string): string {
    var t := Replaced(Replaced(Replaced(s, '\\', "\\5c"), '*', "\\2a"), '(', "\\28");
    Replaced(Replaced(t, ')', "\\29"), '\0', "\\00")
  }

  function EscapeChar(c: char): string {
    if c == '\\' then "\\5c" else if c == '*' then "\\2a" else if c == '(' then "\\28" else if c == ')' then "\\29"
    else if c == '\0' then "\\00" else [c]
  }

  function EscapeEach(s: string): string {
    if s == "" then "" else EscapeChar(s[0]) + EscapeEach(s[1..])
  }

  lemma {:induction false} ReplacedAppend(a: string, b: string, c: char, w: string)
    ensures Replaced(a + b, c, w) == Replaced(a, c, w) + Replaced(b, c, w)
  {
    if a == "" {
      assert a + b == b;
    } else {
      assert (a + b)[1..] == a[1..] + b;
      ReplacedAppend(a[1..], b, c, w);
    }
  }

  lemma EscapeAppend(a: string, b: string)
    ensures Escape(a + b) == Escape(a) + Escape(b)
  {
    hide Replaced;
    var a1, b1 := Replaced(a, '\\', "\\5c"), Replaced(b, '\\', "\\5c");
    var a2, b2 := Replaced(a1, '*', "\\2a"), Replaced(b1, '*', "\\2a");
    var a3, b3 := Replaced(a2, '(', "\\28"), Replaced(b2, '(', "\\28");
    var a4, b4 := Replaced(a3, ')', "\\29"), Replaced(b3, ')', "\\29");
    ReplacedAppend(a, b, '\\', "\\5c");
    ReplacedAppend(a1, b1, '*', "\\2a");
    ReplacedAppend(a2, b2, '(', "\\28");
    ReplacedAppend(a3, b3, ')', "\\29");
    ReplacedAppend(a4, b4, '\0', "\\00");
  }

  lemma {:induction false} NotThere(s: string, c: char, w: string)
    requires c !in s
    ensures Replaced(s, c, w) == s
  {
    if s != "" { NotThere(s[1..], c, w); }
  }

  lemma ReplacedChar(x: char, c: char, w: string)
    ensures Replaced([x], c, w) == if x == c then w else [x]
  {
    assert [x][1..] == "";
  }

  lemma EscapedChar(x: char)
    ensures Escape([x]) == EscapeChar(x)
  {
    hide Replaced;
    ReplacedChar(x, '\\', "\\5c");
    ReplacedChar(x, '*', "\\2a");
    ReplacedChar(x, '(', "\\28");
    ReplacedChar(x, ')', "\\29");
    ReplacedChar(x, '\0', "\\00");
    NotThere("\\5c", '*', "\\2a");
    NotThere("\\5c", '(', "\\28");
    NotThere("\\5c", ')', "\\29");
    NotThere("\\5c", '\0', "\\00");
    NotThere("\\2a", '(', "\\28");
    NotThere("\\2a", ')', "\\29");
    NotThere("\\2a", '\0', "\\00");
    NotThere("\\28", ')', "\\29");
    NotThere("\\28", '\0', "\\00");
    NotThere("\\29", '\0', "\\00");
  }

  /** Replacing one character after the other is replacing them all at once: no replacement puts
      in what a later one looks for. */
  lemma {:induction false} EscapeIsEach(s: string)
    ensures Escape(s) == EscapeEach(s)
  {
    if s != "" {
      assert s == [s[0]] + s[1..];
      EscapeAppend([s[0]], s[1..]);
      EscapedChar(s[0]);
      EscapeIsEach(s[1..]);
    }
  }

  /** Escaped text can stand in a filter as it is. */
  lemma {:induction false} EscapedIsPlain(s: string)
    ensures '*' !in EscapeEach(s) && ')' !in EscapeEach(s) && '(' !in EscapeEach(s) && '\0' !in EscapeEach(s)
    ensures EscapeEach(s) == "" <==> s == ""
  {
    if s != "" { EscapedIsPlain(s[1..]); }
  }

  // -------------------------------------------------- unescaping

  /** White space that int() ignores around a number in ASCII text. */
  predicate IsIntSpace(c: char) { '\t' <= c <= '\r' || c == ' ' }

  /** int(text, 16) of two characters; None for a ValueError. */
  function IntPair(a: char, b: char): Option<int> {
    var x: int := if HexDigit(a).Some? then HexDigit(a).value else -1;
    var y: int := if HexDigit(b).Some? then HexDigit(b).value else -1;
    if x >= 0 && y >= 0 then Some(16 * x + y)
    else if y >= 0 && (a == '+' || IsIntSpace(a)) then Some(y)
    else if y >= 0 && a == '-' then Some(-y)
    else if x >= 0 && IsIntSpace(b) then Some(x)
    else None
  }

  /** rfc4515_encode; None for the OverflowError of a negative number's to_bytes. */
  function Encoded(s: string): Option<seq<byte>>
    decreases |s|
  {
    if s == "" then Some([])
    else if s[0] == '\\' && |s| > 2 then
      var n := IntPair(s[1], s[2]);
      if n.None? then Before([0x5C], Encoded(s[1..]))
      else if n.value < 0 then None
      else Before([OneByte(n.value)], Encoded(s[3..]))
    else Before(CharBytes(s[0]), Encoded(s[1..]))
  }

  function OneByte(n: int): byte { if 0 <= n < 256 then n else 0 }

  function Before(a: seq<byte>, b: Option<seq<byte>>): Option<seq<byte>> {
    if b.None? then None else Some(a + b.value)
  }

  lemma PairInByte(a: char, b: char)
    ensures IntPair(a, b).Some? ==> IntPair(a, b).value < 256
  {}

  method Rfc4515Encode(value: string) returns (r: Option<seq<byte>>)
    ensures r == Encoded(value)
  {
    hide IntPair, CharBytes;
    var byteStr: seq<byte> := [];
    var i := 0;
    assert value[0..] == value;
    BeforeNothing(Encoded(value));
    while i < |value|
      invariant 0 <= i <= |value|
      invariant Before(byteStr, Encoded(value[i..])) == Encoded(value)
    {
      ghost var s := value[i..];
      assert s[1..] == value[i + 1..];
      if value[i] == '\\' && i < |value| - 2 {
        assert s[3..] == value[i + 3..];
        var n := IntPair(value[i + 1], value[i + 2]);
        PairInByte(value[i + 1], value[i + 2]);
        if n.None? {
          BeforeTwice(byteStr, [0x5C], Encoded(s[1..]));
          byteStr := byteStr + [0x5C];
        } else if n.value < 0 {
          return None;
        } else {
          BeforeTwice(byteStr, [n.value as byte], Encoded(s[3..]));
          byteStr := byteStr + [n.value];
          i := i + 2;
        }
      } else {
        BeforeTwice(byteStr, CharBytes(value[i]), Encoded(s[1..]));
        byteStr := byteStr + CharBytes(value[i]);
      }
      i := i + 1;
    }
    assert value[i..] == "";
    r := Some(byteStr);
    assert byteStr + [] == byteStr;
  }

  lemma BeforeNothing(b: Option<seq<byte>>)
    ensures Before([], b) == b
  {
    if b.Some? { assert [] + b.value == b.value; }
  }

  lemma BeforeTwice(a: seq<byte>, b: seq<byte>, c: Option<seq<byte>>)
    ensures Before(a, Before(b, c)) == Before(a + b, c)
  {
    if c.Some? { assert a + (b + c.value) == a + b + c.value; }
  }

  /** The octets of a value by section 3 of RFC 4515: a backslash and two hexadecimal digits are
      one octet, every other character its UTF-8 encoding. */
  function Octets(s: string): seq<byte>
    decreases |s|
  {
    if s == "" then []
    else if s[0] == '\\' && |s| > 2 && HexDigit(s[1]).Some? && HexDigit(s[2]).Some? then
      [OneByte(16 * HexDigit(s[1]).value + HexDigit(s[2]).value)] + Octets(s[3..])
    else CharBytes(s[0]) + Octets(s[1..])
  }

  /** Behind no backslash stand two characters, not both hexadecimal digits, that int() reads. */
  predicate Tame(s: string) {
    forall k | 0 <= k < |s| - 2 && s[k] == '\\' :: TamePair(s[k + 1], s[k + 2])
  }

  predicate TamePair(a: char, b: char) { IntPair(a, b).Some? ==> HexDigit(a).Some? && HexDigit(b).Some? }

  lemma TameSlice(s: string, i: nat, j: nat)
    requires i <= j <= |s| && Tame(s)
    ensures Tame(s[i..j])
  {
    var t := s[i..j];
    forall k | 0 <= k < |t| - 2 && t[k] == '\\' ensures TamePair(t[k + 1], t[k + 2]) {
      assert s[i + k] == t[k] && s[i + k + 1] == t[k + 1] && s[i + k + 2] == t[k + 2];
    }
  }

  lemma {:induction false} TamedIsOctets(s: string)
    requires Tame(s)
    ensures Encoded(s) == Some(Octets(s))
    decreases |s|
  {
    hide Tame, IntPair, CharBytes;
    if s != "" {
      TameSlice(s, 1, |s|);
      assert s[1..|s|] == s[1..];
      TamedIsOctets(s[1..]);
      if s[0] == '\\' && |s| > 2 {
        TameFirst(s);
        TameSlice(s, 3, |s|);
        assert s[3..|s|] == s[3..];
        TamedIsOctets(s[3..]);
      }
    }
  }

  lemma TameCons(s: string)
    requires s != ""
    ensures Tame(s) <==> (s[0] == '\\' && |s| > 2 ==> TamePair(s[1], s[2])) && Tame(s[1..])
  {
    var t := s[1..];
    assert forall k | 0 < k < |s| :: s[k] == t[k - 1];
    assert forall k | 0 <= k < |t| :: t[k] == s[k + 1];
  }

  /** Behind a backslash, a pair that int() reads holds no other backslash. */
  lemma TameBehindPair(s: string)
    requires |s| > 2 && s[0] == '\\' && IntPair(s[1], s[2]).Some?
    ensures Tame(s) <==> TamePair(s[1], s[2]) && Tame(s[3..])
    ensures Octets(s[1..]) == CharBytes(s[1]) + (CharBytes(s[2]) + Octets(s[3..]))
  {
    hide Tame, CharBytes;
    TameCons(s);
    TameCons(s[1..]);
    TameCons(s[2..]);
    assert s[1..][0] == s[1] && s[1..][1..] == s[2..] && s[2..][0] == s[2] && s[2..][1..] == s[3..];
  }

  lemma SomeBytes(c: char)
    ensures |CharBytes(c)| >= 1
  {}

  /** Such a pair is one octet here where the standard has three characters or more. */
  lemma {:induction false} EncodedAtMost(s: string)
    ensures Encoded(s).Some? ==> |Encoded(s).value| <= |Octets(s)|
    ensures Encoded(s).Some? && !Tame(s) ==> |Encoded(s).value| < |Octets(s)|
    decreases |s|
  {
    hide Tame, IntPair, CharBytes;
    if s == "" {
      assert Tame(s) by { NothingTame(); }
    } else {
      TameCons(s);
      SomeBytes(s[0]);
      EncodedAtMost(s[1..]);
      if s[0] == '\\' && |s| > 2 {
        EncodedAtMost(s[3..]);
        if IntPair(s[1], s[2]).Some? {
          TameBehindPair(s);
          SomeBytes(s[1]);
          SomeBytes(s[2]);
          HexPair(s[1], s[2]);
        } else {
          HexPair(s[1], s[2]);
          Backslash();
        }
      }
    }
  }

  lemma NothingTame()
    ensures Tame("")
  {}

  lemma Backslash()
    ensures |CharBytes('\\')| == 1
  {}

  lemma HexPair(a: char, b: char)
    ensures HexDigit(a).Some? && HexDigit(b).Some? ==> IntPair(a, b).Some?
    ensures IntPair(a, b).None? ==> TamePair(a, b)
    ensures IntPair(a, b).Some? && !(HexDigit(a).Some? && HexDigit(b).Some?) <==> !TamePair(a, b)
  {}

  /** Unescaping follows the standard exactly on the values in which no backslash stands before two
      characters, not both hexadecimal digits, that int() reads. */
  lemma EncodedIsOctets(s: string)
    ensures Encoded(s) == Some(Octets(s)) <==> Tame(s)
  {
    hide Encoded, Octets, Tame;
    if Tame(s) {
      TamedIsOctets(s);
    } else {
      EncodedAtMost(s);
    }
  }

  /** Such a value: the standard has three characters, the client sends the octet 5. */
  lemma OddPairExample()
    ensures Encoded("\\+5") == Some([5]) && Octets("\\+5") == [0x5C, 0x2B, 0x35]
  {
    var s := "\\+5";
    assert s[1..] == "+5" && s[3..] == "" && s[1..][1..] == "5" && s[1..][1..][1..] == "";
    assert HexDigit('+').None? && IntPair('+', '5') == Some(5);
    assert CharBytes('\\') == [0x5C] && CharBytes('+') == [0x2B] && CharBytes('5') == [0x35];
    assert Octets("5") == [0x35] + [] && Octets("+5") == [0x2B] + [0x35];
    assert IntPair(s[1], s[2]) == Some(5) && Encoded("") == Some([]);
    var five: seq<byte> := [5];
    assert five + [] == five && [OneByte(5)] == five;
    assert Encoded(s) == Before(five, Encoded(s[3..]));
    assert Octets(s) == [0x5C] + ([0x2B] + [0x35]);
  }

  lemma TameFirst(s: string)
    requires Tame(s) && |s| > 2 && s[0] == '\\'
    ensures IntPair(s[1], s[2]).Some? <==> HexDigit(s[1]).Some? && HexDigit(s[2]).Some?
    ensures IntPair(s[1], s[2]).Some? ==>
              0 <= IntPair(s[1], s[2]).value == 16 * HexDigit(s[1]).value + HexDigit(s[2]).value
    ensures CharBytes(s[0]) == [0x5C]
  {}

  /** Unescaping undoes escaping: it gives the UTF-8 encoding of any text. */
  lemma {:induction false} EncodeEscaped(s: string)
    ensures Encoded(EscapeEach(s)) == Some(Utf8(s))
  {
    if s != "" {
      EncodeEscaped(s[1..]);
      EncodedChar(s[0], EscapeEach(s[1..]));
    }
  }

  lemma EncodedChar(c: char, more: string)
    ensures Encoded(EscapeChar(c) + more) == Before(CharBytes(c), Encoded(more))
  {
    hide CharBytes, EscapeChar, IntPair, Encoded;
    var e := EscapeChar(c);
    var s := e + more;
    assert s[|e|..] == more;
    EscapedSize(c);
    if |e| == 3 {
      assert s[0] == e[0] && s[1] == e[1] && s[2] == e[2];
      EscapedByte(c);
      EncodedFirst(s);
    } else {
      EncodedFirst(s);
    }
  }

  lemma EncodedFirst(s: string)
    requires s != ""
    ensures s[0] == '\\' && |s| > 2 && IntPair(s[1], s[2]).Some? && IntPair(s[1], s[2]).value >= 0 ==>
              Encoded(s) == Before([OneByte(IntPair(s[1], s[2]).value)], Encoded(s[3..]))
    ensures s[0] != '\\' ==> Encoded(s) == Before(CharBytes(s[0]), Encoded(s[1..]))
  {
    hide IntPair, CharBytes;
  }

  lemma EscapedSize(c: char)
    ensures |EscapeChar(c)| == 3 || (EscapeChar(c) == [c] && c != '\\')
  {}

  lemma EscapedByte(c: char)
    requires |EscapeChar(c)| == 3
    ensures c as int < 256
    ensures var e := EscapeChar(c); e[0] == '\\' && IntPair(e[1], e[2]) == Some(c as int) && CharBytes(c) == [c as int]
  {}
}
