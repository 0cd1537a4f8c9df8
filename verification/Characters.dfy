/** The characters that are folded and counted, letter by letter. */
module Characters {
  import opened Text
  import opened Query
  import opened Unicode
  import Stripping

  const LOWER := "abcdefghijklmnopqrstuvwxyz"
  const UPPER := "ABCDEFGHIJKLMNOPQRSTUVWXYZ"
  const HEX_LOWER := "0123456789abcdef"
  const HEX_UPPER := "0123456789ABCDEF"

  /** The sixteen digits, in either case, and no others. */
  lemma HexDigitExactly(c: char, n: nat)
    ensures HexDigit(c) == Some(n) <==> n < 16 && (c == HEX_LOWER[n] || c == HEX_UPPER[n])
  {
    if '0' <= c <= '9' {
      assert c == HEX_LOWER[(c - '0') as nat];
    } else if 'a' <= c <= 'f' {
      assert c == HEX_LOWER[10 + (c - 'a') as nat];
    } else if 'A' <= c <= 'F' {
      assert c == HEX_UPPER[10 + (c - 'A') as nat];
    }
  }

  /** The small letters become their capitals, and nothing else changes. */
  lemma UpperExactly(c: char, n: nat)
    ensures n < 26 ==> UpperChar(LOWER[n]) == UPPER[n]
    ensures c in LOWER || UpperChar(c) == c
  {
    if 'a' <= c <= 'z' { assert c == LOWER[(c - 'a') as nat]; }
  }

  const SPECIAL := "!\"#$%&'()*+,"

  predicate SameLetter(a: char, b: char) {
    a == b || exists n :: 0 <= n < 26 && (a == LOWER[n] || a == UPPER[n]) && (b == LOWER[n] || b == UPPER[n])
  }

  predicate Stands(a: char, b: char) { if a == '.' then b != '\n' else SameLetter(a, b) }

  /** A name taken for a regular expression that ignores case, character by character. */
  lemma MatchExactly(name: string, s: string)
    ensures Stripping.NoPattern(name) <==> forall c | c in name :: c !in SPECIAL
    ensures Stripping.Matches(name, s) <==> |name| <= |s| && forall k | 0 <= k < |name| :: Stands(name[k], s[k])
  {
    hide UpperChar, SameLetter;
    forall c ensures '!' <= c <= ',' <==> c in SPECIAL { SpecialIs(c); }
    hide SPECIAL;
    forall a, b ensures UpperChar(a) == UpperChar(b) <==> SameLetter(a, b) { SameUpper(a, b); }
  }

  lemma SpecialIs(a: char)
    ensures '!' <= a <= ',' <==> a in SPECIAL
  {
    if '!' <= a <= ',' { assert a == SPECIAL[(a - '!') as nat]; }
  }

  lemma SameUpper(a: char, b: char)
    ensures UpperChar(a) == UpperChar(b) <==> SameLetter(a, b)
  {
    if UpperChar(a) == UpperChar(b) && a != b {
      var n := (UpperChar(a) - 'A') as nat;
      assert n < 26 && UPPER[n] == UpperChar(a);
      OneOfTwo(a, n);
      OneOfTwo(b, n);
    }
    if SameLetter(a, b) && a != b {
      var n :| 0 <= n < 26 && (a == LOWER[n] || a == UPPER[n]) && (b == LOWER[n] || b == UPPER[n]);
      UpperExactly(LOWER[n], n);
      assert UpperChar(UPPER[n]) == UPPER[n];
    }
  }

  lemma OneOfTwo(c: char, n: nat)
    requires n < 26 && UpperChar(c) == UPPER[n]
    ensures c == LOWER[n] || c == UPPER[n]
  {}

  const BLANKS := " \t\n\r\U{000B}\U{000C}"

  const WHITE := BLANKS + "\U{001C}\U{001D}\U{001E}\U{001F}"

  /** str.strip takes off the white space of ASCII. */
  lemma SpaceExactly(c: char)
    ensures IsSpace(c) <==> c in WHITE
  {}

  predicate IsHexChar(c: char) { c in HEX_LOWER || c in HEX_UPPER }

  /** int(text, 16) reads two characters if they are two digits, or one with a sign or a blank in front or
      a blank behind. */
  lemma PairExactly(a: char, b: char)
    ensures IntPair(a, b).Some? <==>
            || (IsHexChar(a) && IsHexChar(b))
            || ((a == '+' || a == '-' || a in BLANKS) && IsHexChar(b))
            || (IsHexChar(a) && b in BLANKS)
  {
    HexCharIs(a);
    HexCharIs(b);
    BlankIs(a);
    BlankIs(b);
    hide HexDigit;
  }

  lemma HexCharIs(c: char)
    ensures HexDigit(c).Some? <==> IsHexChar(c)
    ensures HexDigit(c).Some? ==> c !in BLANKS && c != '+' && c != '-'
  {
    if HexDigit(c).Some? { HexDigitExactly(c, HexDigit(c).value); }
    if c in HEX_LOWER {
      var n :| 0 <= n < 16 && HEX_LOWER[n] == c;
      HexDigitExactly(c, n);
    }
    if c in HEX_UPPER {
      var n :| 0 <= n < 16 && HEX_UPPER[n] == c;
      HexDigitExactly(c, n);
    }
  }

  lemma BlankIs(c: char)
    ensures IsIntSpace(c) <==> c in BLANKS
  {}

  /** And it reads them so. */
  lemma PairValue(m: nat, n: nat)
    requires m < 16 && n < 16
    ensures IntPair(HEX_LOWER[m], HEX_UPPER[n]) == IntPair(HEX_UPPER[m], HEX_LOWER[n]) == Some(16 * m + n)
    ensures IntPair('-', HEX_LOWER[n]) == Some(0 - n) && IntPair('+', HEX_LOWER[n]) == Some(n)
    ensures IntPair(' ', HEX_LOWER[n]) == IntPair(HEX_LOWER[n], ' ') == Some(n)
  {
    HexDigitExactly(HEX_LOWER[m], m);
    HexDigitExactly(HEX_UPPER[m], m);
    HexDigitExactly(HEX_LOWER[n], n);
    HexDigitExactly(HEX_UPPER[n], n);
  }

  /** A backslash before a negative number raises an exception. */
  lemma NegativePair(n: nat, more: string)
    requires 0 < n < 16
    ensures Encoded("\\" + "-" + [HEX_LOWER[n]] + more) == None
  {
    var s := "\\" + "-" + [HEX_LOWER[n]] + more;
    assert s[0] == '\\' && s[1] == '-' && s[2] == HEX_LOWER[n];
    PairValue(n, n);
    hide IntPair;
  }

  /** Characters of one to four octets, from sections 3 and 7 of RFC 3629. */
  lemma Rfc3629Examples()
    ensures forall c: char | c < '\U{0080}' :: CharBytes(c) == [c as int]
    ensures CharBytes('\U{0391}') == [0xCE, 0x91] && CharBytes('\U{2262}') == [0xE2, 0x89, 0xA2]
    ensures CharBytes('\U{233B4}') == [0xF0, 0xA3, 0x8E, 0xB4]
  {}

  // -------------------------------------------------- numerals

  const NUMERALS := "0123456789"

  /** One digit or more. */
  lemma NumeralExactly(s: string)
    ensures IsHex(s) <==> s != "" && forall c | c in s :: IsHexChar(c)
    ensures IsNumeral(s) <==> s != "" && forall c | c in s :: c in NUMERALS
  {
    hide IsHexChar;
    forall c: char ensures HexDigit(c).Some? <==> IsHexChar(c) { HexCharIs(c); }
    hide HexDigit;
    forall c: char ensures Text.IsDigit(c) <==> c in NUMERALS { NumeralIs(c); }
  }

  lemma NumeralIs(c: char)
    ensures '0' <= c <= '9' <==> c in NUMERALS
  {
    if '0' <= c <= '9' { assert c == NUMERALS[(c - '0') as nat]; }
  }

  /** A digit behind a numeral: the number in front times the base, and the digit. */
  lemma HexAppend(s: string, n: nat)
    requires n < 16 && forall c | c in s :: HexDigit(c).Some?
    ensures HexDigit(HEX_LOWER[n]) == HexDigit(HEX_UPPER[n]) == Some(n)
    ensures HexValue(s + [HEX_LOWER[n]]) == HexValue(s + [HEX_UPPER[n]]) == 16 * HexValue(s) + n
  {
    HexDigitExactly(HEX_LOWER[n], n);
    HexDigitExactly(HEX_UPPER[n], n);
    hide HexDigit;
    assert (s + [HEX_LOWER[n]])[..|s|] == s && (s + [HEX_UPPER[n]])[..|s|] == s;
  }

  lemma NumeralAppend(s: string, n: nat)
    requires n < 10 && forall c | c in s :: Text.IsDigit(c)
    ensures Text.IsDigit(NUMERALS[n]) && NumeralValue(s + [NUMERALS[n]]) == 10 * NumeralValue(s) + n
  {
    assert (s + [NUMERALS[n]])[..|s|] == s;
  }
}
