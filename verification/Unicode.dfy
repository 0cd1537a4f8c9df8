/** str.encode: UTF-8, and its inverse. */
module Unicode {
  import opened Bytes
  import opened Text

  function CharBytes(c: char): (bs: seq<byte>)
    ensures bs != []
  {
    var n := c as int;
    if n < 0x80 then [n]
    else if n < 0x800 then [0xC0 + n / 64, 0x80 + n % 64]
    else if n < 0x1_0000 then [0xE0 + n / 4096, 0x80 + n / 64 % 64, 0x80 + n % 64]
    else [0xF0 + n / 262144, 0x80 + n / 4096 % 64, 0x80 + n / 64 % 64, 0x80 + n % 64]
  }

  function Utf8(s: string): seq<byte> {
    if s == "" then [] else CharBytes(s[0]) + Utf8(s[1..])
  }

  // -------------------------------------------------- the inverse

  function FirstSize(b: byte): nat { if b < 0x80 then 1 else if b < 0xE0 then 2 else if b < 0xF0 then 3 else 4 }

  /** The number that the first character's bytes hold. */
  function FirstCode(bs: seq<byte>): int
    requires bs != [] && FirstSize(bs[0]) <= |bs|
  {
    var n: seq<int> := bs;
    if n[0] < 0x80 then n[0]
    else if n[0] < 0xE0 then (n[0] - 0xC0) * 64 + (n[1] - 0x80)
    else if n[0] < 0xF0 then (n[0] - 0xE0) * 4096 + (n[1] - 0x80) * 64 + (n[2] - 0x80)
    else (n[0] - 0xF0) * 262144 + (n[1] - 0x80) * 4096 + (n[2] - 0x80) * 64 + (n[3] - 0x80)
  }

  predicate IsScalar(n: int) { 0 <= n < 0xD800 || 0xE000 <= n < 0x11_0000 }

  function Utf8Decode(bs: seq<byte>): Option<string> {
    if bs == [] then Some("")
    else if FirstSize(bs[0]) > |bs| || !IsScalar(FirstCode(bs)) then None
    else
      var rest := Utf8Decode(bs[FirstSize(bs[0])..]);
      if rest.None? then None else Some([FirstCode(bs) as char] + rest.value)
  }

  lemma SixBits(n: nat)
    ensures n == n / 64 * 64 + n % 64
  {}

  lemma TwelveBits(n: nat)
    ensures n / 64 / 64 == n / 4096 && n == n / 4096 * 4096 + n / 64 % 64 * 64 + n % 64
  {
    SixBits(n);
    SixBits(n / 64);
  }

  lemma EighteenBits(n: nat)
    ensures n / 4096 / 64 == n / 262144 && n == n / 262144 * 262144 + n / 4096 % 64 * 4096 + n / 64 % 64 * 64 + n % 64
  {
    TwelveBits(n);
    SixBits(n / 4096);
  }

  lemma FirstCodeOf(c: char)
    ensures FirstSize(CharBytes(c)[0]) == |CharBytes(c)| && FirstCode(CharBytes(c)) == c as int
  {
    var n := c as int;
    if n >= 0x1_0000 { EighteenBits(n); } else { TwelveBits(n); }
  }

  lemma FirstOfChar(c: char, rest: seq<byte>)
    ensures var bs := CharBytes(c) + rest;
            && FirstSize(bs[0]) == |CharBytes(c)| && FirstCode(bs) == c as int
            && bs[|CharBytes(c)|..] == rest
  {
    FirstCodeOf(c);
    Longer(CharBytes(c), rest);
  }

  lemma Longer(a: seq<byte>, rest: seq<byte>)
    requires a != [] && FirstSize(a[0]) == |a|
    ensures FirstCode(a + rest) == FirstCode(a) && (a + rest)[0] == a[0] && (a + rest)[|a|..] == rest
  {
    assert forall k | 0 <= k < |a| :: (a + rest)[k] == a[k];
  }

  lemma {:induction false} Utf8RoundTrip(s: string)
    ensures Utf8Decode(Utf8(s)) == Some(s)
  {
    if s != "" {
      FirstOfChar(s[0], Utf8(s[1..]));
      Utf8RoundTrip(s[1..]);
      assert s == [s[0]] + s[1..];
    }
  }
}
