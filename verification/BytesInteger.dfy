/** Integers of any number of bytes: the static parse and pack of class BytesInteger, as loops
    over shifted and masked numbers, against the value of each group of bytes. */
module BytesInteger {
  import opened Bits
  import opened Bytes

  /** The bytes of one integer; a buffer that ends early gives short groups. */
  function Group(buf: seq<byte>, c: nat, size: nat): seq<byte> {
    Slice(buf, c * size, (c + 1) * size)
  }

  function Decoder(size: nat, signed: bool, endian: Endian): seq<byte> -> int
    requires size > 0
  {
    bs => Decode(bs, size, signed, endian)
  }

  function Groups(buf: seq<byte>, size: nat, count: nat, decode: seq<byte> -> int): (nums: seq<int>)
    ensures |nums| == count
  {
    seq(count, c requires 0 <= c => decode(Group(buf, c, size)))
  }

  /** `count` integers of `size` bytes each. */
  function ParseAll(buf: seq<byte>, size: nat, count: nat, signed: bool, endian: Endian): (nums: seq<int>)
    requires size > 0
    ensures |nums| == count
  {
    Groups(buf, size, count, Decoder(size, signed, endian))
  }

  function PackAll(data: seq<int>, size: nat, endian: Endian): seq<byte> {
    if data == [] then [] else Encode(data[0], size, endian) + PackAll(data[1..], size, endian)
  }

  method Parse(buf: seq<byte>, size: nat, count: nat, signed: bool, endian: Endian) returns (nums: seq<int>)
    requires size > 0
    ensures nums == ParseAll(buf, size, count, signed, endian)
  {
    nums := [];
    var c := 0;
    while c < count
      invariant 0 <= c <= count
      invariant |nums| == c
      invariant forall k | 0 <= k < c :: nums[k] == Decode(Group(buf, k, size), size, signed, endian)
    {
      var num := ParseOne(Group(buf, c, size), size, signed, endian);
      nums := nums + [num];
      c := c + 1;
    }
  }

  /** The body of parse's loop: one group of bytes. */
  method ParseOne(group: seq<byte>, size: nat, signed: bool, endian: Endian) returns (num: int)
    requires size > 0
    ensures num == Decode(group, size, signed, endian)
  {
    num := 0;
    var data := group;
    if endian == Little {
      data := Reverse(data);
    }
    var i := 0;
    while i < |data|
      invariant 0 <= i <= |data|
      invariant num == BigValue(data[..i])
    {
      ByteOr(num, data[i]);
      num := Or(Shl(num, 8), data[i]);
      assert data[..i + 1][..i] == data[..i];
      i := i + 1;
    }
    assert data[..|data|] == data;
    AndSingle(num, 8 * size - 1);
    if signed && And(num, Shl(1, 8 * size - 1)) != 0 {
      var bias := Shl(1, 8 * size - 1);
      num := num - bias * 2;
    }
  }

  method Pack(data: seq<int>, size: nat, endian: Endian) returns (out: seq<byte>)
    ensures out == PackAll(data, size, endian)
  {
    out := [];
    var k := 0;
    while k < |data|
      invariant 0 <= k <= |data|
      invariant out == PackAll(data[..k], size, endian)
    {
      var d := PackOne(data[k], size, endian);
      PackSnoc(data[..k], data[k], size, endian);
      assert data[..k] + [data[k]] == data[..k + 1];
      out := out + d;
      k := k + 1;
    }
    assert data[..k] == data;
  }

  lemma {:induction false} PackSnoc(data: seq<int>, v: int, size: nat, endian: Endian)
    ensures PackAll(data + [v], size, endian) == PackAll(data, size, endian) + Encode(v, size, endian)
  {
    if data == [] {
      assert PackAll([v], size, endian) == Encode(v, size, endian);
    } else {
      PackSnoc(data[1..], v, size, endian);
      assert (data + [v])[1..] == data[1..] + [v];
    }
  }

  /** The body of pack's loop: one integer. */
  method PackOne(v: int, size: nat, endian: Endian) returns (d: seq<byte>)
    ensures d == Encode(v, size, endian)
  {
    hide And, Shr, Shl, Pow2, Reverse;
    var num := v;
    if num < 0 {
      ShlOne(8 * size);
      num := num + Shl(1, 8 * size);
    }
    ghost var whole := num;
    d := seq(size, _ => 0);
    var i: int := size - 1;
    while i >= 0
      invariant -1 <= i < size && |d| == size
      invariant BigDigits(whole, size) == BigDigits(num, i + 1) + d[i + 1..]
    {
      LowByte(num);
      var b := And(num, 255);
      assert BigDigits(num, i + 1) == BigDigits(num / 256, i) + [b];
      ghost var done := d[i + 1..];
      d := d[i := b];
      assert d[i..] == [b] + done;
      assert BigDigits(num / 256, i) + [b] + done == BigDigits(num / 256, i) + ([b] + done);
      num := Shr(num, 8);
      i := i - 1;
    }
    assert d == BigDigits(whole, size);
    if endian == Little {
      d := Reverse(d);
    }
  }

  lemma LowByte(num: int)
    ensures And(num, 255) == num % 256 && Shr(num, 8) == num / 256
  {
    Pow2Eight();
    AndMask(num, 8);
    ByteBits(num);
  }

  lemma ByteOr(num: nat, b: byte)
    ensures Or(Shl(num, 8), b) == 256 * num + b
  {
    Pow2Eight();
    OrDisjoint(num, b, 8);
    ShlByte(num);
  }

  lemma Pow2Eight()
    ensures Pow2(8) == 256
  {
    ShlOne(8);
    ShlByte(1);
  }

  lemma {:induction false} AndSingle(num: nat, k: nat)
    ensures Shl(1, k) == Pow2(k)
    ensures And(num, Pow2(k)) != 0 <==> Bit(num, k)
  {
    ShlOne(k);
    if k == 0 {
      AndStep(num, 1);
      AndZero(num / 2);
    } else {
      assert Pow2(k) / 2 == Pow2(k - 1) && Pow2(k) % 2 == 0;
      AndStep(num, Pow2(k));
      AndSingle(num / 2, k - 1);
    }
  }

  // -------------------------------------------------- round trip

  lemma {:induction false} PackedLength(data: seq<int>, size: nat, endian: Endian)
    ensures |PackAll(data, size, endian)| == size * |data|
  {
    if data != [] {
      PackedLength(data[1..], size, endian);
      OneMore(size, |data|);
    }
  }

  lemma OneMore(size: nat, count: nat)
    requires count > 0
    ensures size * count == size + size * (count - 1) && size * (count - 1) >= 0
  {}

  /** Groups after the first are the groups of what follows the first. */
  lemma NextGroup(first: seq<byte>, more: seq<byte>, c: nat)
    ensures Group(first + more, 0, |first|) == first
    ensures Group(first + more, c + 1, |first|) == Group(more, c, |first|)
  {
    var n := |first|;
    assert (c + 1) * n == c * n + n && (c + 2) * n == (c + 1) * n + n;
  }

  lemma {:induction false} PackedGroup(data: seq<int>, k: nat, size: nat, endian: Endian, rest: seq<byte>)
    requires k < |data|
    ensures Group(PackAll(data, size, endian) + rest, k, size) == Encode(data[k], size, endian)
  {
    var first := Encode(data[0], size, endian);
    var more := PackAll(data[1..], size, endian) + rest;
    assert PackAll(data, size, endian) + rest == first + more;
    if k == 0 {
      NextGroup(first, more, 0);
    } else {
      NextGroup(first, more, k - 1);
      PackedGroup(data[1..], k - 1, size, endian, rest);
    }
  }

  ghost predicate AllInRange(data: seq<int>, size: nat, signed: bool)
    requires size > 0
  {
    forall k | 0 <= k < |data| :: InRange(data[k], size, signed)
  }

  /** Parsing what was packed returns the list exactly when every integer fits, whatever follows. */
  lemma RoundTrip(data: seq<int>, size: nat, signed: bool, endian: Endian, rest: seq<byte>)
    requires size > 0
    ensures ParseAll(PackAll(data, size, endian) + rest, size, |data|, signed, endian) == data
       <==> AllInRange(data, size, signed)
  {
    var back := ParseAll(PackAll(data, size, endian) + rest, size, |data|, signed, endian);
    forall k | 0 <= k < |data| ensures back[k] == data[k] <==> InRange(data[k], size, signed) {
      PackedGroup(data, k, size, endian, rest);
      DecodeEncode(data[k], size, signed, endian);
    }
  }

  /** Packing what was parsed returns the bytes. */
  lemma {:induction false} ParsePack(buf: seq<byte>, size: nat, count: nat, signed: bool, endian: Endian)
    requires size > 0 && |buf| == size * count
    ensures PackAll(ParseAll(buf, size, count, signed, endian), size, endian) == buf
    decreases count
  {
    if count > 0 {
      OneMore(size, count);
      var first, more := buf[..size], buf[size..];
      assert buf == first + more;
      ParseCons(first, more, count - 1, signed, endian);
      EncodeDecode(first, size, signed, endian);
      ParsePack(more, size, count - 1, signed, endian);
    }
  }

  lemma GroupsCons(first: seq<byte>, more: seq<byte>, count: nat, decode: seq<byte> -> int)
    ensures Groups(first + more, |first|, count + 1, decode)
         == [decode(first)] + Groups(more, |first|, count, decode)
  {
    forall c | 0 <= c <= count
      ensures Group(first + more, c, |first|) == if c == 0 then first else Group(more, c - 1, |first|)
    {
      NextGroup(first, more, if c == 0 then 0 else c - 1);
    }
  }

  lemma ParseCons(first: seq<byte>, more: seq<byte>, count: nat, signed: bool, endian: Endian)
    requires first != []
    ensures ParseAll(first + more, |first|, count + 1, signed, endian)
         == [Decode(first, |first|, signed, endian)] + ParseAll(more, |first|, count, signed, endian)
  {
    GroupsCons(first, more, count, Decoder(|first|, signed, endian));
  }
}
