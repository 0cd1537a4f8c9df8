/** Python's integers under shifts and bitwise operators: unbounded and, below zero, in
    two's complement with infinitely many leading ones. Every recursion takes one bit at a
    time, so that only division by the literal two is left to the solver. */
module Bits {

  function Pow2(n: nat): (p: nat)
    ensures p >= 1
  {
    if n == 0 then 1 else 2 * Pow2(n - 1)
  }

  function Shl(a: int, n: nat): int { if n == 0 then a else 2 * Shl(a, n - 1) }

  function Shr(a: int, n: nat): int
    decreases n
  {
    if n == 0 then a else Shr(a / 2, n - 1)
  }

  /** The n low bits. */
  function Low(a: int, n: nat): (r: nat)
    ensures r < Pow2(n)
    decreases n
  {
    if n == 0 then 0 else a % 2 + 2 * Low(a / 2, n - 1)
  }

  predicate Bit(a: int, k: nat) { Shr(a, k) % 2 == 1 }

  /** How far an integer is from having only equal bits: the measure of the recursions below. */
  function Spread(a: int): nat { if a >= 0 then a else -a - 1 }

  function And(a: int, b: int): int
    decreases Spread(a)
  {
    if a == 0 then 0
    else if a == -1 then b
    else 2 * And(a / 2, b / 2) + (if a % 2 == 1 && b % 2 == 1 then 1 else 0)
  }

  function Or(a: int, b: int): int
    decreases Spread(a)
  {
    if a == 0 then b
    else if a == -1 then -1
    else 2 * Or(a / 2, b / 2) + (if a % 2 == 1 || b % 2 == 1 then 1 else 0)
  }

  function Xor(a: int, b: int): int
    decreases Spread(a)
  {
    if a == 0 then b
    else if a == -1 then -b - 1
    else 2 * Xor(a / 2, b / 2) + (if a % 2 != b % 2 then 1 else 0)
  }

  // -------------------------------------------------- shifts

  lemma {:induction false} ShlOne(n: nat)
    ensures Shl(1, n) == Pow2(n)
  {
    if n > 0 { ShlOne(n - 1); }
  }

  lemma {:induction false} ShlShl(a: int, m: nat, n: nat)
    ensures Shl(Shl(a, m), n) == Shl(a, m + n)
  {
    if n > 0 { ShlShl(a, m, n - 1); }
  }

  lemma {:induction false} ShrShr(a: int, m: nat, n: nat)
    ensures Shr(Shr(a, m), n) == Shr(a, m + n)
    decreases m
  {
    if m > 0 { ShrShr(a / 2, m - 1, n); }
  }

  /** A shift splits an integer into high and low bits. */
  lemma {:induction false} Split(a: int, n: nat)
    ensures a == Shl(Shr(a, n), n) + Low(a, n)
    decreases n
  {
    if n > 0 { Split(a / 2, n - 1); }
  }

  lemma {:induction false} SplitUnique(h: int, l: nat, n: nat)
    requires l < Pow2(n)
    ensures Shr(Shl(h, n) + l, n) == h && Low(Shl(h, n) + l, n) == l
  {
    if n > 0 {
      var x := Shl(h, n) + l;
      assert x / 2 == Shl(h, n - 1) + l / 2 && x % 2 == l % 2;
      SplitUnique(h, l / 2, n - 1);
    }
  }

  lemma {:induction false} ShrNat(a: nat, n: nat)
    ensures 0 <= Shr(a, n) <= a
  {
    if n > 0 { ShrNat(a / 2, n - 1); }
  }

  lemma {:induction false} ShrBound(a: nat, m: nat, n: nat)
    requires a < Pow2(m + n)
    ensures 0 <= Shr(a, n) < Pow2(m)
  {
    if n > 0 { ShrBound(a / 2, m, n - 1); }
  }

  lemma {:induction false} LowSmall(a: nat, n: nat)
    requires a < Pow2(n)
    ensures Low(a, n) == a && Shr(a, n) == 0
  {
    if n > 0 { LowSmall(a / 2, n - 1); }
  }

  /** The low m + n bits are the low n bits below the next m bits. */
  lemma {:induction false} LowSplit(a: int, m: nat, n: nat)
    ensures Low(a, m + n) == Shl(Low(Shr(a, n), m), n) + Low(a, n)
    decreases n
  {
    if n > 0 { LowSplit(a / 2, m, n - 1); }
  }

  lemma {:induction false} Pow2Add(m: nat, n: nat)
    ensures Pow2(m + n) == Shl(Pow2(m), n)
  {
    if n > 0 { Pow2Add(m, n - 1); }
  }

  lemma {:induction false} Pow2Mono(m: nat, n: nat)
    requires m <= n
    ensures Pow2(m) <= Pow2(n)
  {
    if m < n { Pow2Mono(m, n - 1); }
  }

  // -------------------------------------------------- masks

  lemma {:induction false} AndZero(a: int)
    ensures And(a, 0) == 0
    decreases Spread(a)
  {
    if a != 0 && a != -1 { AndZero(a / 2); }
  }

  lemma AndStep(a: int, b: int)
    ensures And(a, b) == 2 * And(a / 2, b / 2) + (if a % 2 == 1 && b % 2 == 1 then 1 else 0)
  {
    if a == -1 { assert a / 2 == -1; }
  }

  /** The mask (1 << n) - 1 keeps the n low bits. */
  lemma {:induction false} AndMask(a: int, n: nat)
    ensures And(a, Pow2(n) - 1) == Low(a, n)
    decreases n
  {
    if n == 0 {
      AndZero(a);
    } else {
      var m := Pow2(n) - 1;
      assert m / 2 == Pow2(n - 1) - 1 && m % 2 == 1;
      AndStep(a, m);
      AndMask(a / 2, n - 1);
    }
  }

  /** ((1 << j) - 1) ^ ((1 << r) - 1) selects the bits from j up to r. */
  lemma {:induction false} XorMasks(j: nat, r: nat)
    requires j <= r
    ensures Xor(Pow2(j) - 1, Pow2(r) - 1) == Pow2(r) - Pow2(j)
  {
    if j > 0 {
      var m, n := Pow2(j) - 1, Pow2(r) - 1;
      assert m / 2 == Pow2(j - 1) - 1 && m % 2 == 1;
      assert n / 2 == Pow2(r - 1) - 1 && n % 2 == 1;
      XorMasks(j - 1, r - 1);
    }
  }

  lemma {:induction false} AndWindow(a: int, j: nat, r: nat)
    requires j <= r
    ensures Shr(And(a, Pow2(r) - Pow2(j)), j) == Low(Shr(a, j), r - j)
    decreases j
  {
    hide And;
    if j == 0 {
      AndMask(a, r);
    } else {
      var m := Pow2(r) - Pow2(j);
      assert m / 2 == Pow2(r - 1) - Pow2(j - 1) && m % 2 == 0;
      AndStep(a, m);
      AndWindow(a / 2, j - 1, r - 1);
    }
  }

  // -------------------------------------------------- or of disjoint bits

  lemma {:induction false} OrZero(a: int)
    ensures Or(a, 0) == a
    decreases Spread(a)
  {
    if a != 0 && a != -1 { OrZero(a / 2); }
  }

  lemma OrStep(a: int, b: int)
    ensures Or(a, b) == 2 * Or(a / 2, b / 2) + (if a % 2 == 1 || b % 2 == 1 then 1 else 0)
  {
    if a == -1 { assert a / 2 == -1; }
  }

  /** Disjoint bits: or is addition. */
  lemma {:induction false} OrDisjoint(a: int, b: nat, n: nat)
    requires b < Pow2(n)
    ensures Or(Shl(a, n), b) == Or(b, Shl(a, n)) == Shl(a, n) + b
    decreases n
  {
    if n == 0 {
      OrZero(a);
    } else {
      var x := Shl(a, n);
      assert x / 2 == Shl(a, n - 1) && x % 2 == 0;
      OrStep(x, b);
      OrStep(b, x);
      OrDisjoint(a, b / 2, n - 1);
    }
  }

  // -------------------------------------------------- what the operators mean

  lemma {:induction false} ShlIs(a: int, n: nat)
    ensures Shl(a, n) == a * Pow2(n)
  {
    if n > 0 {
      ShlIs(a, n - 1);
      Doubled(a, Pow2(n - 1));
    }
  }

  lemma Doubled(a: int, p: int)
    ensures 2 * (a * p) == a * (2 * p)
  {}

  lemma {:induction false} ShrIs(a: int, n: nat)
    ensures Shr(a, n) == a / Pow2(n)
    decreases n
  {
    if n > 0 {
      ShrIs(a / 2, n - 1);
      HalvedFirst(a, Pow2(n - 1));
    }
  }

  lemma HalvedFirst(a: int, p: nat)
    requires p >= 1
    ensures a / 2 / p == a / (2 * p)
  {
    var q := a / 2 / p;
    var r := a / 2 % p;
    assert a == 2 * (p * q + r) + a % 2;
    Doubled(q, p);
    assert a == (2 * p) * q + (2 * r + a % 2);
    UniqueQuotient(a, 2 * p, q, 2 * r + a % 2);
  }

  lemma UniqueQuotient(n: int, d: nat, q: int, r: nat)
    requires d >= 1 && n == d * q + r && r < d
    ensures n / d == q
  {
    var p := n / d;
    assert n == d * p + n % d;
    Grows(d, q + 1, p);
    Grows(d, p + 1, q);
  }

  lemma Grows(d: nat, x: int, y: int)
    ensures x <= y ==> d * x <= d * y
  {}

  lemma LowIs(a: int, n: nat)
    ensures Low(a, n) == a % Pow2(n)
  {
    hide Shl, Shr, Low, Pow2;
    Split(a, n);
    ShlIs(Shr(a, n), n);
    ShrIs(a, n);
    Remainder(a, Pow2(n), Low(a, n));
  }

  lemma Remainder(n: int, d: nat, r: nat)
    requires d >= 1 && r < d && n == n / d * d + r
    ensures n % d == r
  {}

  /** Each bit of the result is made of the two bits in that place. */
  lemma {:induction false} EachBit(a: int, b: int, k: nat)
    ensures Bit(And(a, b), k) <==> Bit(a, k) && Bit(b, k)
    ensures Bit(Or(a, b), k) <==> Bit(a, k) || Bit(b, k)
    ensures Bit(Xor(a, b), k) <==> Bit(a, k) != Bit(b, k)
    decreases k
  {
    AndStep(a, b);
    OrStep(a, b);
    XorStep(a, b);
    hide And, Or, Xor, Bit;
    BitStep(a, a / 2, a % 2, k);
    BitStep(b, b / 2, b % 2, k);
    BitStep(And(a, b), And(a / 2, b / 2), if a % 2 == 1 && b % 2 == 1 then 1 else 0, k);
    BitStep(Or(a, b), Or(a / 2, b / 2), if a % 2 == 1 || b % 2 == 1 then 1 else 0, k);
    BitStep(Xor(a, b), Xor(a / 2, b / 2), if a % 2 != b % 2 then 1 else 0, k);
    if k > 0 { EachBit(a / 2, b / 2, k - 1); }
  }

  lemma BitStep(n: int, half: int, low: int, k: nat)
    requires n == 2 * half + low && 0 <= low < 2
    ensures Bit(n, k) <==> if k == 0 then low == 1 else Bit(half, k - 1)
  {
    assert n / 2 == half && n % 2 == low;
  }

  lemma XorStep(a: int, b: int)
    ensures Xor(a, b) == 2 * Xor(a / 2, b / 2) + (if a % 2 != b % 2 then 1 else 0)
  {
    if a == -1 { assert a / 2 == -1; }
  }

  /** The k-th bit of a number is that of its k-th half. */
  lemma BitIs(a: int, k: nat)
    ensures Bit(a, k) <==> a / Pow2(k) % 2 == 1
  {
    ShrIs(a, k);
  }
}
