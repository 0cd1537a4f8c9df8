/** The string operations the models share: strip, find and decimal numerals. */
module Text {

  datatype Option<T> = None | Some(value: T)

  /** Python's str.isspace for one ASCII character. */
  predicate IsSpace(c: char) {
    '\U{0009}' <= c <= '\U{000D}' || '\U{001C}' <= c <= '\U{0020}'
  }

  predicate Blank(s: string) { forall c | c in s :: IsSpace(c) }

  function LStrip(s: string): (r: string)
    ensures |r| <= |s|
  {
    if s != [] && IsSpace(s[0]) then LStrip(s[1..]) else s
  }

  function RStrip(s: string): (r: string)
    ensures |r| <= |s|
  {
    if s != [] && IsSpace(s[|s| - 1]) then RStrip(s[..|s| - 1]) else s
  }

  function Strip(s: string): (r: string)
    ensures |r| <= |s|
  {
    RStrip(LStrip(s))
  }

  lemma {:induction false} LStripParts(s: string) returns (p: string)
    ensures Blank(p) && s == p + LStrip(s)
    ensures LStrip(s) != [] ==> !IsSpace(LStrip(s)[0])
  {
    hide IsSpace;
    if s != [] && IsSpace(s[0]) {
      p := LStripParts(s[1..]);
      p := [s[0]] + p;
    } else {
      p := [];
    }
  }

  lemma {:induction false} LStripBlank(p: string, s: string)
    requires Blank(p)
    ensures LStrip(p + s) == LStrip(s)
  {
    if p == [] {
      assert p + s == s;
    } else {
      assert (p + s)[1..] == p[1..] + s;
      LStripBlank(p[1..], s);
    }
  }

  lemma {:induction false} RStripBlank(s: string, p: string)
    requires Blank(p)
    ensures RStrip(s + p) == RStrip(s)
  {
    if p == [] {
      assert s + p == s;
    } else {
      assert (s + p)[..|s + p| - 1] == s + p[..|p| - 1];
      RStripBlank(s, p[..|p| - 1]);
    }
  }

  /** Text with a visible character in the middle is stripped on each side separately. */
  lemma {:induction false} LStripMiddle(a: string, m: string, b: string)
    requires m != [] && !IsSpace(m[0])
    ensures LStrip(a + m + b) == LStrip(a) + m + b
  {
    if a == [] {
      assert a + m + b == m + b && (m + b)[0] == m[0];
    } else if IsSpace(a[0]) {
      assert (a + m + b)[1..] == a[1..] + m + b;
      LStripMiddle(a[1..], m, b);
    }
  }

  lemma {:induction false} RStripMiddle(a: string, m: string, b: string)
    requires m != [] && !IsSpace(m[|m| - 1])
    ensures RStrip(a + m + b) == a + m + RStrip(b)
  {
    if b == [] {
      assert a + m + b == a + m;
    } else if IsSpace(b[|b| - 1]) {
      assert (a + m + b)[..|a + m + b| - 1] == a + m + b[..|b| - 1];
      RStripMiddle(a, m, b[..|b| - 1]);
    }
  }

  lemma StripMiddle(a: string, m: string, b: string)
    requires m != [] && !IsSpace(m[0]) && !IsSpace(m[|m| - 1])
    ensures Strip(a + m + b) == LStrip(a) + m + RStrip(b)
  {
    LStripMiddle(a, m, b);
    RStripMiddle(LStrip(a), m, b);
  }

  lemma {:induction false} LStripTwice(s: string)
    ensures LStrip(LStrip(s)) == LStrip(s)
  {
    var _ := LStripParts(s);
  }

  lemma {:induction false} RStripParts(s: string) returns (p: string)
    ensures Blank(p) && s == RStrip(s) + p
    ensures RStrip(s) != [] ==> !IsSpace(RStrip(s)[|RStrip(s)| - 1])
  {
    if s != [] && IsSpace(s[|s| - 1]) {
      p := RStripParts(s[..|s| - 1]);
      p := p + [s[|s| - 1]];
    } else {
      p := [];
    }
  }

  /** Stripping one side first makes no difference to stripping both. */
  lemma StripOfParts(s: string)
    ensures Strip(LStrip(s)) == Strip(s) == Strip(RStrip(s)) == Strip(Strip(s))
  {
    LStripTwice(s);
    var p := RStripParts(s);
    StripTrailing(RStrip(s), p);
    var t := LStrip(s);
    var q := RStripParts(t);
    StripTrailing(RStrip(t), q);
  }

  lemma StripTrailing(s: string, p: string)
    requires Blank(p)
    ensures Strip(s + p) == Strip(s)
  {
    var q := LStripParts(s);
    if LStrip(s) == [] {
      assert Blank(q + p) && (q + p) + [] == s + p;
      LStripBlank(q + p, []);
      assert LStrip(s + p) == [];
    } else {
      var m := LStrip(s);
      LStripMiddle(q, m, p);
      LStripBlank(q, []);
      assert q + [] == q;
      assert s + p == q + m + p;
      assert LStrip(s + p) == m + p;
      RStripBlank(m, p);
    }
  }

  lemma StripBlankSides(p: string, s: string, q: string)
    requires Blank(p) && Blank(q)
    ensures Strip(p + s + q) == Strip(s)
  {
    StripTrailing(p + s, q);
    LStripBlank(p, s);
  }

  // -------------------------------------------------- substrings

  predicate At(s: string, o: string, i: int) {
    0 <= i <= |s| - |o| && s[i..i + |o|] == o
  }

  /** Python's rfind; -1 when absent. */
  function LastIndex(s: string, o: string): (i: int)
    ensures -1 <= i
    ensures i >= 0 ==> At(s, o, i)
    ensures forall k | i < k :: !At(s, o, k)
  {
    LastIndexUpTo(s, o, |s|)
  }

  function LastIndexUpTo(s: string, o: string, n: nat): (i: int)
    ensures -1 <= i <= n
    ensures i >= 0 ==> At(s, o, i)
    ensures forall k | i < k <= n :: !At(s, o, k)
  {
    if At(s, o, n) then n else if n == 0 then -1 else LastIndexUpTo(s, o, n - 1)
  }

  // -------------------------------------------------- numerals

  predicate IsDigit(c: char) { '0' <= c <= '9' }

  function DigitValue(c: char): (d: nat)
    requires IsDigit(c)
    ensures d < 10
  {
    (c - '0') as nat
  }

  function DigitChar(d: nat): char
    requires d < 10
  {
    '0' + d as char
  }

  /** Python's str of a natural number. */
  function NatText(n: nat): (s: string)
    ensures s != [] && forall c | c in s :: IsDigit(c)
  {
    if n < 10 then [DigitChar(n)] else NatText(n / 10) + [DigitChar(n % 10)]
  }

  function IntText(v: int): string { if v < 0 then "-" + NatText(-v) else NatText(v) }

  predicate IsNumeral(s: string) { s != [] && forall c | c in s :: IsDigit(c) }

  function NumeralValue(s: string): nat
    requires forall c | c in s :: IsDigit(c)
  {
    if s == [] then 0 else 10 * NumeralValue(s[..|s| - 1]) + DigitValue(s[|s| - 1])
  }

  lemma {:induction false} NumeralOfText(n: nat)
    ensures NumeralValue(NatText(n)) == n
  {
    var s := NatText(n);
    if n < 10 {
      assert s[..|s| - 1] == [];
    } else {
      assert s[..|s| - 1] == NatText(n / 10);
      NumeralOfText(n / 10);
    }
  }

  function HexDigit(c: char): Option<nat> {
    if '0' <= c <= '9' then Some((c - '0') as nat)
    else if 'a' <= c <= 'f' then Some((c - 'a') as nat + 10)
    else if 'A' <= c <= 'F' then Some((c - 'A') as nat + 10)
    else None
  }

  predicate IsHex(s: string) { s != [] && forall c | c in s :: HexDigit(c).Some? }

  function HexValue(s: string): nat
    requires forall c | c in s :: HexDigit(c).Some?
  {
    if s == [] then 0 else 16 * HexValue(s[..|s| - 1]) + HexDigit(s[|s| - 1]).value
  }

  // -------------------------------------------------- upper case

  /** str.upper for one ASCII character. */
  function UpperChar(c: char): char { if 'a' <= c <= 'z' then 'A' + (c - 'a') else c }

  function Upper(s: string): (u: string)
    ensures |u| == |s| && forall k | 0 <= k < |s| :: u[k] == UpperChar(s[k])
  {
    if s == "" then "" else [UpperChar(s[0])] + Upper(s[1..])
  }

  predicate IsUpper(s: string) { forall c | c in s :: UpperChar(c) == c }

  lemma UpperIsUpper(s: string)
    ensures IsUpper(Upper(s)) && (Upper(s) == s <==> IsUpper(s))
  {
    forall c | c in Upper(s) ensures UpperChar(c) == c {
      var k :| 0 <= k < |s| && Upper(s)[k] == c;
    }
    if IsUpper(s) {
      forall k | 0 <= k < |s| ensures Upper(s)[k] == s[k] { assert s[k] in s; }
      assert Upper(s) == s;
    }
  }
}
