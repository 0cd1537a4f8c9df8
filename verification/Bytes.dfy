/** Byte strings, Python slices of them, and integers stored in them. */
module Bytes {
  import opened Bits

  type byte = x: int | 0 <= x < 256

  datatype Endian = Little | Big

  function Min(a: int, b: int): int { if a < b then a else b }

  /** Python's s[lo:hi] for 0 <= lo, 0 <= hi. */
  function Slice<T>(s: seq<T>, lo: nat, hi: nat): (r: seq<T>)
    ensures lo <= hi <= |s| ==> r == s[lo..hi]
  {
    var h := Min(hi, |s|);
    if lo <= h then s[lo..h] else []
  }

  function Take<T>(s: seq<T>, n: nat): seq<T> { s[..Min(n, |s|)] }

  function Drop<T>(s: seq<T>, n: nat): seq<T> { s[Min(n, |s|)..] }

  function Reverse<T>(s: seq<T>): (r: seq<T>)
    ensures |r| == |s|
  {
    if s == [] then [] else Reverse(s[1..]) + [s[0]]
  }

  lemma {:induction false} ReverseAt<T>(s: seq<T>, k: nat)
    requires k < |s|
    ensures Reverse(s)[k] == s[|s| - 1 - k]
  {
    if k < |s| - 1 {
      ReverseAt(s[1..], k);
    }
  }

  lemma ReverseTwice<T>(s: seq<T>)
    ensures Reverse(Reverse(s)) == s
  {
    forall k | 0 <= k < |s| ensures Reverse(Reverse(s))[k] == s[k] {
      ReverseAt(Reverse(s), k);
      ReverseAt(s, |s| - 1 - k);
    }
  }

  // -------------------------------------------------- unsigned integers in bytes

  /** The value of the bytes, most significant first. */
  function BigValue(bs: seq<byte>): nat {
    if bs == [] then 0 else 256 * BigValue(bs[..|bs| - 1]) + bs[|bs| - 1]
  }

  /** The low bytes of an integer, most significant first. */
  function BigDigits(n: int, size: nat): (bs: seq<byte>)
    ensures |bs| == size
    decreases size
  {
    if size == 0 then [] else BigDigits(n / 256, size - 1) + [n % 256]
  }

  function Arrange(bs: seq<byte>, endian: Endian): (r: seq<byte>)
    ensures |r| == |bs|
  {
    if endian.Little? then Reverse(bs) else bs
  }

  lemma ArrangeTwice(bs: seq<byte>, endian: Endian)
    ensures Arrange(Arrange(bs, endian), endian) == bs
  {
    ReverseTwice(bs);
  }

  /** A byte is eight bits. */
  lemma Low8(a: int, n: nat)
    ensures Shr(a, 8) == a / 256 && Low(a, 8) == a % 256
    ensures Low(a, n + 8) == 256 * Low(a / 256, n) + a % 256
  {
    ByteBits(a);
    LowSplit(a, n, 8);
    ShlByte(Low(a / 256, n));
  }

  lemma ByteBits(a: int)
    ensures Shr(a, 8) == a / 256 && Low(a, 8) == a % 256
  {
    Split(a, 8);
    ShlByte(Shr(a, 8));
  }

  lemma ShlByte(a: int)
    ensures Shl(a, 8) == 256 * a
  {
    calc {
      Shl(a, 8);
      2 * Shl(a, 7);
      4 * Shl(a, 6);
      8 * Shl(a, 5);
      16 * Shl(a, 4);
      32 * Shl(a, 3);
      64 * Shl(a, 2);
      128 * Shl(a, 1);
      256 * a;
    }
  }

  lemma {:induction false} DigitsValue(n: int, size: nat)
    ensures BigValue(BigDigits(n, size)) == Low(n, 8 * size)
    decreases size
  {
    hide Low;
    if size == 0 {
      LowNothing(n);
    } else {
      DigitsValue(n / 256, size - 1);
      var d := BigDigits(n, size);
      assert d[..|d| - 1] == BigDigits(n / 256, size - 1);
      Low8(n, 8 * (size - 1));
    }
  }

  lemma LowNothing(n: int)
    ensures Low(n, 0) == 0
  {}

  lemma {:induction false} ValueBound(bs: seq<byte>)
    ensures BigValue(bs) < Pow2(8 * |bs|)
  {
    if bs != [] {
      var n := 8 * (|bs| - 1);
      ValueBound(bs[..|bs| - 1]);
      Pow2Add(n, 8);
      ShlByte(Pow2(n));
    }
  }

  lemma {:induction false} ValueDigits(bs: seq<byte>)
    ensures BigDigits(BigValue(bs), |bs|) == bs
  {
    if bs != [] {
      ValueDigits(bs[..|bs| - 1]);
    }
  }

  // -------------------------------------------------- signed integers in bytes

  /** Two's complement: the top bit of `size` bytes stands for minus its weight. */
  function SignAdjust(n: int, size: nat, signed: bool): int
    requires size > 0
  {
    if signed && Bit(n, 8 * size - 1) then n - 2 * Pow2(8 * size - 1) else n
  }

  function Decode(bs: seq<byte>, size: nat, signed: bool, endian: Endian): int
    requires size > 0
  {
    SignAdjust(BigValue(Arrange(bs, endian)), size, signed)
  }

  function Encode(v: int, size: nat, endian: Endian): (bs: seq<byte>)
    ensures |bs| == size
  {
    Arrange(BigDigits(if v < 0 then v + Pow2(8 * size) else v, size), endian)
  }

  predicate InRange(v: int, size: nat, signed: bool)
    requires size > 0
  {
    var half: int := Pow2(8 * size - 1);
    if signed then -half <= v < half else 0 <= v < 2 * half
  }

  lemma {:induction false} TopBit(n: nat, k: nat)
    requires n < Pow2(k + 1)
    ensures Bit(n, k) <==> n >= Pow2(k)
  {
    if k > 0 {
      assert Shr(n, k) == Shr(n / 2, k - 1);
      TopBit(n / 2, k - 1);
    }
  }

  /** Decoding always lands in range. */
  lemma DecodeInRange(bs: seq<byte>, size: nat, signed: bool, endian: Endian)
    requires |bs| == size > 0
    ensures InRange(Decode(bs, size, signed, endian), size, signed)
  {
    var n := BigValue(Arrange(bs, endian));
    ValueBound(Arrange(bs, endian));
    TopBit(n, 8 * size - 1);
  }

  /** An integer survives being stored in `size` bytes exactly when it is in range. */
  lemma DecodeEncode(v: int, size: nat, signed: bool, endian: Endian)
    requires size > 0
    ensures Decode(Encode(v, size, endian), size, signed, endian) == v <==> InRange(v, size, signed)
  {
    var w := if v < 0 then v + Pow2(8 * size) else v;
    var bs := Encode(v, size, endian);
    DecodeInRange(bs, size, signed, endian);
    if InRange(v, size, signed) {
      assert Pow2(8 * size) == 2 * Pow2(8 * size - 1);
      ArrangeTwice(BigDigits(w, size), endian);
      DigitsValue(w, size);
      LowSmall(w, 8 * size);
      TopBit(w, 8 * size - 1);
    }
  }

  /** Stored integers are told apart by their bytes. */
  lemma EncodeDecode(bs: seq<byte>, size: nat, signed: bool, endian: Endian)
    requires |bs| == size > 0
    ensures Encode(Decode(bs, size, signed, endian), size, endian) == bs
  {
    var a := Arrange(bs, endian);
    ValueBound(a);
    TopBit(BigValue(a), 8 * size - 1);
    ValueDigits(a);
    ArrangeTwice(bs, endian);
  }
}
