/** The texts that are search filters, character by character, and what each of them stands for:
    reading by the grammar accepts exactly these texts. */
module FilterTexts {
  import opened Characters
  import opened FilterTree
  import opened FilterGrammar
  import opened PrintParse

  // -------------------------------------------------- attributes

  predicate IsFirst(c: char) { c in LOWER || c in UPPER || c == ':' || c == '.' }

  predicate IsOther(c: char) { IsFirst(c) || c in NUMERALS || c == '-' }

  /** A letter, colon or dot, then letters, digits, colons, dots and hyphens. */
  predicate IsName(a: string) { a != "" && IsFirst(a[0]) && AreAttrChars(a) }

  predicate AreAttrChars(a: string) { forall c | c in a :: IsOther(c) }

  /** Digits, and single dots between them. */
  predicate IsOid(a: string) { a != "" && a[0] in NUMERALS && DotsBetween(a) }

  predicate DotsBetween(a: string) {
    forall k | 0 <= k < |a| :: a[k] in NUMERALS || (a[k] == '.' && k + 1 < |a| && a[k + 1] in NUMERALS)
  }

  lemma FirstIs(c: char)
    ensures IsAlpha(c) <==> IsFirst(c)
    ensures FilterGrammar.IsDigit(c) <==> c in NUMERALS
    ensures IsAttrChar(c) <==> IsOther(c)
  {
    LetterIs(c);
    NumeralIs(c);
  }

  lemma LetterIs(c: char)
    ensures 'a' <= c <= 'z' <==> c in LOWER
    ensures 'A' <= c <= 'Z' <==> c in UPPER
  {
    SmallIs(c);
    CapitalIs(c);
    hide LOWER, UPPER;
  }

  lemma SmallIs(c: char)
    ensures 'a' <= c <= 'z' <==> c in LOWER
  {
    if 'a' <= c <= 'z' { assert c == LOWER[(c - 'a') as nat]; }
  }

  lemma CapitalIs(c: char)
    ensures 'A' <= c <= 'Z' <==> c in UPPER
  {
    if 'A' <= c <= 'Z' { assert c == UPPER[(c - 'A') as nat]; }
  }

  lemma {:induction false} DottedExactly(a: string)
    ensures DottedLen(a) == |a| <==> a == "" || (a[0] == '.' && DotsBetween(a))
    decreases |a|
  {
    hide Run, DotsBetween, IsFirst, IsOther, NUMERALS;
    if a != "" && a[0] == '.' {
      var r := Rest(a, 1);
      var d := Run(r, FilterGrammar.IsDigit);
      if d == 0 {
        if r != "" { FirstIs(r[0]); }
        NoDigitBehind(a);
      } else {
        var b := Rest(a, 1 + d);
        DottedExactly(b);
        forall k | 1 <= k < 1 + d ensures a[k] in NUMERALS { FirstIs(r[k - 1]); }
        if b != "" { FirstIs(b[0]); }
        DotsApart(a, 1, 1 + d);
      }
    }
  }

  lemma NoDigitBehind(a: string)
    requires a != "" && a[0] == '.' && (|a| > 1 ==> a[1] !in NUMERALS)
    ensures !DotsBetween(a)
  {
    NumeralIs('.');
  }

  /** Digits in front of the next dot, from `first` on. */
  lemma DotsApart(a: string, first: nat, n: nat)
    requires first < n <= |a| && (forall k | first <= k < n :: a[k] in NUMERALS)
    requires first == 0 || (first == 1 && a[0] == '.')
    requires n < |a| ==> a[n] !in NUMERALS
    ensures DotsBetween(a) <==> n == |a| || (a[n] == '.' && DotsBetween(a[n..]))
  {
    var b := a[n..];
    if DotsBetween(a) {
      forall k | 0 <= k < |b| ensures b[k] in NUMERALS || (b[k] == '.' && k + 1 < |b| && b[k + 1] in NUMERALS) {
        assert b[k] == a[n + k];
      }
    }
    if n == |a| || (a[n] == '.' && DotsBetween(b)) {
      forall k | 0 <= k < |a| ensures a[k] in NUMERALS || (a[k] == '.' && k + 1 < |a| && a[k + 1] in NUMERALS) {
        if k >= n { assert a[k] == b[k - n]; }
      }
    }
  }

  /** The attributes that are read back are these. */
  lemma AttrExactly(a: string)
    ensures GoodAttr(a) <==> IsName(a) || IsOid(a)
  {
    hide Run;
    if a != "" {
      FirstIs(a[0]);
      var d := Run(a, FilterGrammar.IsDigit);
      if d > 0 {
        var b := Rest(a, d);
        DottedExactly(b);
        forall k | 0 <= k < d ensures a[k] in NUMERALS { FirstIs(a[k]); }
        if b != "" { FirstIs(b[0]); }
        DotsApart(a, 0, d);
      } else {
        NameExactly(a);
      }
    }
  }

  lemma NameExactly(a: string)
    requires a != ""
    ensures NameLen(a) == |a| <==> IsName(a)
  {
    hide IsFirst, IsOther, IsAlpha, IsAttrChar;
    var r := Rest(a, 1);
    var n := Run(r, IsAttrChar);
    FirstIs(a[0]);
    FirstIsOther(a[0]);
    forall k | 1 <= k < 1 + n ensures IsOther(a[k]) { FirstIs(r[k - 1]); }
    if n < |r| {
      FirstIs(r[n]);
      assert a[1 + n] == r[n] && a[1 + n] in a;
    } else {
      assert forall k | 1 <= k < |a| :: IsOther(a[k]);
    }
  }

  lemma FirstIsOther(c: char)
    ensures IsFirst(c) ==> IsOther(c)
  {}
}
