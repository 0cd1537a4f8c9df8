/** The definite forms of section 8.1.3 of X.690, octet by octet. */
module Ber {
  import opened Bytes

  /** Numbers of two to four octets, the most significant first. */
  function Two(a: int, b: int): int { 0x100 * a + b }

  function Three(a: int, b: int, c: int): int { 0x1_0000 * a + 0x100 * b + c }

  function Four(a: int, b: int, c: int, d: int): int { 0x100_0000 * a + 0x1_0000 * b + 0x100 * c + d }

  /** These octets state n contents octets: one octet up to 127, or 128 plus the number of octets that
      follow, which spell n with the most significant first. At most four follow. */
  predicate States(os: seq<byte>, n: nat) {
    || (|os| == 1 && os[0] <= 127 && n == os[0])
    || (|os| == 2 && os[0] == 0x81 && n == os[1])
    || (|os| == 3 && os[0] == 0x82 && n == Two(os[1], os[2]))
    || (|os| == 4 && os[0] == 0x83 && n == Three(os[1], os[2], os[3]))
    || (|os| == 5 && os[0] == 0x84 && n == Four(os[1], os[2], os[3], os[4]))
  }

  /** An identifier octet, k length octets and the contents that they state. */
  predicate HasLength(m: seq<byte>, k: nat) { 1 + k <= |m| && States(m[1..1 + k], |m| - 1 - k) }

  predicate IsMessage(m: seq<byte>) {
    HasLength(m, 1) || HasLength(m, 2) || HasLength(m, 3) || HasLength(m, 4) || HasLength(m, 5)
  }

  /** Any identifier, contents and octets that state their length make a message. */
  lemma MessageOf(id: byte, os: seq<byte>, contents: seq<byte>)
    requires States(os, |contents|)
    ensures IsMessage([id] + os + contents)
  {
    var m := [id] + os + contents;
    assert m[1..1 + |os|] == os;
    assert HasLength(m, |os|);
  }

  // -------------------------------------------------- and the sum that int.from_bytes computes

  lemma BigValueOf(os: seq<byte>)
    ensures |os| == 1 ==> BigValue(os) == os[0]
    ensures |os| == 2 ==> BigValue(os) == Two(os[0], os[1])
    ensures |os| == 3 ==> BigValue(os) == 0x1_0000 * os[0] as int + Two(os[1], os[2])
    ensures |os| == 4 ==> BigValue(os) == 0x100_0000 * os[0] as int + Three(os[1], os[2], os[3])
  {
    if |os| > 0 {
      var a := os[..|os| - 1];
      if |a| > 0 {
        var b := a[..|a| - 1];
        if |b| > 0 {
          assert b[..|b| - 1] == os[..|os| - 3];
          assert |b| == 1 ==> b[..|b| - 1] == [] && BigValue(b) == os[0];
          assert |b| == 2 ==> b[..1] == [os[0]] && b[..1][..0] == [] && BigValue(b) == Two(os[0], os[1]);
        } else {
          assert a[..0] == [] && BigValue(a) == os[0];
        }
      } else {
        assert os[..0] == [];
      }
    }
  }
}
