/** SecurityDescriptor.has_control: looking a control bit up in the binary text of the field. */
module Controls {
  import opened Bits
  import opened Text

  /** The digits of bin(n), without the prefix. */
  function Binary(n: nat): (s: seq<bool>)
    ensures s != []
  {
    if n < 2 then [n == 1] else Binary(n / 2) + [n % 2 == 1]
  }

  /** has_control; None for an IndexError. */
  function HasControl(control: nat, k: nat): Option<bool> {
    var digits := Binary(control);
    if k < |digits| then Some(digits[k]) else None
  }

  predicate BitSet(n: nat, k: nat) { Low(Shr(n, k), 1) == 1 }

  lemma {:induction false} BinaryLength(n: nat, m: nat)
    requires m > 0
    ensures |Binary(n)| <= m <==> n < Pow2(m)
    decreases m
  {
    if m > 1 && n >= 2 { BinaryLength(n / 2, m - 1); }
  }

  lemma {:induction false} BinaryAt(n: nat, k: nat)
    requires k < |Binary(n)|
    ensures Binary(n)[k] == BitSet(n, |Binary(n)| - 1 - k)
    decreases n
  {
    if n >= 2 && k < |Binary(n)| - 1 { BinaryAt(n / 2, k); }
  }

  lemma {:induction false} ShrPositive(n: nat, k: nat)
    ensures Shr(n, k) >= 1 <==> n >= Pow2(k)
    decreases k
  {
    if k > 0 { ShrPositive(n / 2, k - 1); }
  }

  lemma TopBit(n: nat, k: nat)
    requires n < Pow2(k + 1)
    ensures BitSet(n, k) <==> n >= Pow2(k)
  {
    ShrPositive(n, k);
    ShrBound(n, 1, k);
  }

  /** The bits of the control field are numbered from the least significant in section 2.4.6 of
      MS-DTYP, those of has_control from the most significant: the two agree for every control if
      and only if the descriptor is self-relative. */
  lemma HasControlExactly(control: nat)
    requires control < Pow2(16)
    ensures (forall k: nat | k < 16 :: HasControl(control, k) == Some(BitSet(control, 15 - k))) <==> BitSet(control, 15)
  {
    hide Pow2, Binary, BitSet;
    TopBit(control, 15);
    BinaryLength(control, 16);
    BinaryLength(control, 15);
    if BitSet(control, 15) {
      forall k: nat | k < 16 ensures HasControl(control, k) == Some(BitSet(control, 15 - k)) { BinaryAt(control, k); }
    } else {
      assert HasControl(control, 15) == None;
    }
  }
}
