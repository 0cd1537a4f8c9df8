/** What decoding and encoding mean byte by byte: the weight of each byte, and which comes first. */
module ByteOrder {
  import opened Bits
  import opened Bytes

  /** 256 to the power of k */
  function Weight(k: nat): (w: nat)
    ensures w >= 1
  {
    if k == 0 then 1 else 256 * Weight(k - 1)
  }

  /** The k-th byte has weight 256 ^ k. */
  function LittleSum(bs: seq<byte>): int {
    if bs == [] then 0 else LittleSum(bs[..|bs| - 1]) + Weight(|bs| - 1) * bs[|bs| - 1]
  }

  /** The first byte has the greatest weight. */
  function BigSum(bs: seq<byte>): int {
    if bs == [] then 0 else Weight(|bs| - 1) * bs[0] + BigSum(bs[1..])
  }

  /** A number of `size` bytes in two's complement: the upper half stands for the negative numbers. */
  function Signed(n: int, size: nat, signed: bool): int {
    if signed && 2 * n >= Weight(size) then n - Weight(size) else n
  }

  /** "Little" is the byte of least weight first, "Big" the one of greatest weight. A stream that has ended
      gives fewer bytes than the size. */
  lemma DecodeIs(bs: seq<byte>, size: nat, signed: bool, endian: Endian)
    requires |bs| <= size && size > 0
    ensures Decode(bs, size, signed, endian)
         == Signed(if endian.Little? then LittleSum(bs) else BigSum(bs), size, signed)
  {
    hide BigValue, LittleSum, BigSum, Reverse;
    LittleIs(bs);
    BigIs(bs);
    ValueBound(Arrange(bs, endian));
    Pow2Mono(8 * |bs|, 8 * size);
    WeightIs(size);
    TopBit(BigValue(Arrange(bs, endian)), 8 * size - 1);
  }

  /** The byte of weight 256 ^ k holds that digit of the number, in two's complement if it is negative. */
  lemma EncodeAt(v: int, size: nat, endian: Endian, k: nat)
    requires k < size
    ensures Encode(v, size, endian)[if endian.Little? then k else size - 1 - k] == v / Weight(k) % 256
  {
    hide BigDigits, Weight, Reverse;
    var w := if v < 0 then v + Pow2(8 * size) else v;
    DigitAt(w, size, k);
    ReverseAt(BigDigits(w, size), k);
    if v < 0 {
      WeightIs(size);
      HigherByte(v, k, size);
    }
  }

  // -------------------------------------------------- weights

  lemma {:induction false} WeightIs(k: nat)
    ensures Weight(k) == Pow2(8 * k)
  {
    if k > 0 {
      WeightIs(k - 1);
      Pow2Add(8 * (k - 1), 8);
      ShlByte(Pow2(8 * (k - 1)));
    }
  }

  lemma {:induction false} WeightParts(k: nat, n: nat)
    ensures Weight(k + n) == Weight(k) * Weight(n)
    decreases k
  {
    if k > 0 {
      WeightParts(k - 1, n);
      assert Weight(k + n) == 256 * (Weight(k - 1) * Weight(n));
      Multiplied(Weight(k - 1), Weight(n));
    }
  }

  lemma Multiplied(a: int, b: int)
    ensures 256 * (a * b) == (256 * a) * b == a * (256 * b)
  {}

  lemma DividedTwice(n: int, w: nat)
    requires w >= 1
    ensures n / 256 / w == n / (256 * w)
  {
    var q, r := n / 256, n % 256;
    var a, b := q / w, q % w;
    assert n == 256 * (w * a + b) + r;
    assert 256 * (w * a) == (256 * w) * a;
    Quotient(n, 256 * w, a, 256 * b + r);
  }

  lemma Quotient(n: int, d: nat, a: int, c: nat)
    requires d >= 1 && n == d * a + c && c < d
    ensures n / d == a
  {
    var q := n / d;
    assert n == d * q + n % d;
    Monotone(d, a + 1, q);
    Monotone(d, q + 1, a);
  }

  lemma Monotone(d: nat, x: int, y: int)
    ensures x <= y ==> d * x <= d * y
  {}

  /** Adding a multiple of a higher weight does not change a digit. */
  lemma HigherByte(v: int, k: nat, size: nat)
    requires k < size
    ensures (v + Weight(size)) / Weight(k) % 256 == v / Weight(k) % 256
  {
    hide Weight;
    WeightParts(k, size - k);
    assert Weight(size - k) == 256 * Weight(size - k - 1) by { NextWeight(size - k - 1); }
    AboveOnly(v, Weight(k), Weight(size - k - 1));
  }

  lemma NextWeight(k: nat)
    ensures Weight(k + 1) == 256 * Weight(k)
  {}

  lemma AboveOnly(v: int, w: nat, m: int)
    requires w >= 1
    ensures (v + w * (256 * m)) / w % 256 == v / w % 256
  {
    var q, r := v / w, v % w;
    Distributed(w, q, 256 * m);
    assert v == w * q + r;
    Quotient(v + w * (256 * m), w, q + 256 * m, r);
    LowByte(q, m);
  }

  lemma Distributed(w: int, a: int, b: int)
    ensures w * (a + b) == w * a + w * b
  {}

  lemma LowByte(q: int, m: int)
    ensures (q + 256 * m) % 256 == q % 256
  {}

  // -------------------------------------------------- digits and sums

  lemma {:induction false} DigitAt(n: int, size: nat, k: nat)
    requires k < size
    ensures BigDigits(n, size)[size - 1 - k] == n / Weight(k) % 256
    decreases k
  {
    if k > 0 {
      DigitAt(n / 256, size - 1, k - 1);
      DividedTwice(n, Weight(k - 1));
    }
  }

  lemma {:induction false} BigCons(b: byte, bs: seq<byte>)
    ensures BigValue([b] + bs) == Weight(|bs|) * b + BigValue(bs)
  {
    var s := [b] + bs;
    if bs == [] {
      assert s[..0] == [];
    } else {
      var front := bs[..|bs| - 1];
      assert s[..|s| - 1] == [b] + front;
      BigCons(b, front);
      Multiplied(Weight(|front|), b);
    }
  }

  lemma {:induction false} BigIs(bs: seq<byte>)
    ensures BigValue(bs) == BigSum(bs)
  {
    if bs != [] {
      BigIs(bs[1..]);
      BigCons(bs[0], bs[1..]);
      assert bs == [bs[0]] + bs[1..];
    }
  }

  lemma {:induction false} LittleCons(b: byte, bs: seq<byte>)
    ensures LittleSum([b] + bs) == b + 256 * LittleSum(bs)
  {
    var s := [b] + bs;
    if bs == [] {
      assert s[..0] == [];
    } else {
      var front := bs[..|bs| - 1];
      assert s[..|s| - 1] == [b] + front;
      LittleCons(b, front);
      Multiplied(Weight(|front|), bs[|bs| - 1]);
    }
  }

  lemma {:induction false} LittleIs(bs: seq<byte>)
    ensures BigValue(Reverse(bs)) == LittleSum(bs)
  {
    if bs != [] {
      LittleIs(bs[1..]);
      LittleCons(bs[0], bs[1..]);
      hide LittleSum;
      assert bs == [bs[0]] + bs[1..];
      LastDigit(Reverse(bs[1..]), bs[0]);
    }
  }

  lemma LastDigit(bs: seq<byte>, b: byte)
    ensures BigValue(bs + [b]) == 256 * BigValue(bs) + b
  {
    assert (bs + [b])[..|bs|] == bs;
  }
}
