/** Bit fields: what is put into a storage unit is what is taken out of it, in either byte order. */
module BitFields {
  import opened Bits
  import opened Bytes
  import opened Text
  import opened Layout

  function UnitBits(b: BitState): nat {
    if b.typ.None? then 0 else ScalarSize(b.typ.value) * 8
  }

  /** A buffer being written: only its used bits are set, the low ones or, big-endian, the high ones. */
  predicate Writing(b: BitState, endian: Endian) {
    && b.typ.Some? && 0 <= b.remaining <= UnitBits(b) && 0 <= b.buffer
    && if endian.Little? then b.buffer < Pow2(UnitBits(b) - b.remaining)
       else b.buffer < Pow2(UnitBits(b)) && Low(b.buffer, b.remaining) == 0
  }

  /** The word agrees with the bits written so far. */
  predicate Agrees(w: nat, b: BitState, endian: Endian)
    requires b.typ.Some? && 0 <= b.remaining <= UnitBits(b)
  {
    if endian.Little? then Low(w, UnitBits(b) - b.remaining) == b.buffer
    else Shr(w, b.remaining) == Shr(b.buffer, b.remaining)
  }

  /** The reader's buffer for the word when it has taken as many bits as are written. */
  function Reading(w: nat, b: BitState, endian: Endian): BitState
    requires b.typ.Some? && 0 <= b.remaining <= UnitBits(b)
  {
    b.(buffer := if endian.Little? then Shr(w, UnitBits(b) - b.remaining) else w)
  }

  function Opened(s: Scalar): BitState { BitState(Some(s), 0, ScalarSize(s) * 8) }

  lemma PutLittle(b: BitState, v: nat, bits: nat)
    requires Writing(b, Little) && 0 < bits <= b.remaining && v < Pow2(bits)
    ensures PutBits(b, b.typ.value, v, bits, Little) == Some(b.(buffer := Shl(v, UnitBits(b) - b.remaining) + b.buffer,
                                                                remaining := b.remaining - bits))
    ensures Writing(PutBits(b, b.typ.value, v, bits, Little).value, Little)
  {
    hide Or, Shl, Low, Shr, Pow2;
    var u := UnitBits(b) - b.remaining;
    OrDisjoint(v, b.buffer, u);
    ShlBelow(v, b.buffer, bits, u);
  }

  lemma {:induction false} ShlBelow(v: nat, l: nat, m: nat, n: nat)
    requires v < Pow2(m) && l < Pow2(n)
    ensures 0 <= Shl(v, n) + l < Pow2(m + n)
  {
    if n > 0 {
      ShlBelow(v, l / 2, m, n - 1);
    }
  }

  lemma PutBig(b: BitState, v: nat, bits: nat)
    requires Writing(b, Big) && 0 < bits <= b.remaining && v < Pow2(bits)
    ensures var h, k := Shr(b.buffer, b.remaining), b.remaining - bits;
            PutBits(b, b.typ.value, v, bits, Big) == Some(b.(buffer := Shl(Shl(h, bits) + v, k), remaining := k))
    ensures Writing(PutBits(b, b.typ.value, v, bits, Big).value, Big)
  {
    hide Or, Pow2, Low, Shl, Shr, ScalarSize;
    var h, k := Shr(b.buffer, b.remaining), b.remaining - bits;
    var top := UnitBits(b) - b.remaining;
    Split(b.buffer, b.remaining);
    ShrNat(b.buffer, b.remaining);
    ShrBound(b.buffer, top, b.remaining);
    BigWord(h, v, bits, k, top);
  }

  lemma BigWord(h: nat, v: nat, bits: nat, k: nat, top: nat)
    requires h < Pow2(top) && v < Pow2(bits)
    ensures var x := Shl(Shl(h, bits) + v, k);
            && Or(Shl(h, bits + k), Shl(v, k)) == x
            && 0 <= x < Pow2(top + bits + k) && Low(x, k) == 0
  {
    ShlShl(h, bits, k);
    OrShifted(Shl(h, bits), v, k, bits);
    ShlBelow(h, v, top, bits);
    ShlBelow(Shl(h, bits) + v, 0, top + bits, k);
    SplitUnique(Shl(h, bits) + v, 0, k);
  }

  /** Or of a high part that ends in zeros with a low part, both shifted. */
  lemma {:induction false} OrShifted(x: int, v: nat, k: nat, bits: nat)
    requires v < Pow2(bits) && exists h :: x == Shl(h, bits)
    ensures Or(Shl(x, k), Shl(v, k)) == Shl(x + v, k)
  {
    if k == 0 {
      var h :| x == Shl(h, bits);
      OrDisjoint(h, v, bits);
    } else {
      OrShifted(x, v, k - 1, bits);
      assert Shl(x, k) / 2 == Shl(x, k - 1) && Shl(x, k) % 2 == 0;
      assert Shl(v, k) / 2 == Shl(v, k - 1) && Shl(v, k) % 2 == 0;
      OrStep(Shl(x, k), Shl(v, k));
    }
  }

  /** One step: a word that agrees with the buffer after a put agrees with it before, and taking
      as many bits from the word gives the value put. */
  lemma TakeWhatWasPut(b: BitState, v: nat, bits: nat, w: nat, endian: Endian)
    requires Writing(b, endian) && 0 < bits <= b.remaining && v < Pow2(bits)
    ensures PutBits(b, b.typ.value, v, bits, endian).Some?
    ensures var c := PutBits(b, b.typ.value, v, bits, endian).value;
            && Writing(c, endian) && c.typ == b.typ && c.remaining == b.remaining - bits
            && (Agrees(w, c, endian) ==>
                  && Agrees(w, b, endian)
                  && TakeBits(Reading(w, b, endian), bits, endian) == Some((v, Reading(w, c, endian))))
  {
    if endian.Little? {
      PutLittle(b, v, bits);
      TakeLittle(b, v, bits, w);
    } else {
      PutBig(b, v, bits);
      TakeBig(b, v, bits, w);
    }
  }

  lemma TakeLittle(b: BitState, v: nat, bits: nat, w: nat)
    requires Writing(b, Little) && 0 < bits <= b.remaining && v < Pow2(bits)
    ensures var u := UnitBits(b) - b.remaining;
            var c := b.(buffer := Shl(v, u) + b.buffer, remaining := b.remaining - bits);
            Agrees(w, c, Little) ==>
              && Agrees(w, b, Little)
              && TakeBits(Reading(w, b, Little), bits, Little) == Some((v, Reading(w, c, Little)))
  {
    hide And, Pow2, Low, Shl, Shr, ScalarSize;
    var u := UnitBits(b) - b.remaining;
    LowSplit(w, bits, u);
    SplitUnique(v, b.buffer, u);
    SplitUnique(Low(Shr(w, u), bits), Low(w, u), u);
    ShlOne(bits);
    AndMask(Shr(w, u), bits);
    ShrShr(w, u, bits);
  }

  lemma TakeBig(b: BitState, v: nat, bits: nat, w: nat)
    requires Writing(b, Big) && 0 < bits <= b.remaining && v < Pow2(bits)
    ensures var h, k := Shr(b.buffer, b.remaining), b.remaining - bits;
            var c := b.(buffer := Shl(Shl(h, bits) + v, k), remaining := k);
            Agrees(w, c, Big) ==>
              && Agrees(w, b, Big)
              && TakeBits(Reading(w, b, Big), bits, Big) == Some((v, Reading(w, c, Big)))
  {
    hide And, Xor, Pow2, Low, Shl, Shr, ScalarSize;
    var h, k := Shr(b.buffer, b.remaining), b.remaining - bits;
    ZeroBelow(k);
    SplitUnique(Shl(h, bits) + v, 0, k);
    SplitUnique(h, v, bits);
    ShrShr(w, k, bits);
    Window(w, k, b.remaining);
  }

  lemma ZeroBelow(k: nat)
    ensures 0 < Pow2(k)
  {}

  lemma Window(w: int, k: nat, r: nat)
    requires k <= r
    ensures Shr(And(w, Xor(Shl(1, k) - 1, Shl(1, r) - 1)), k) == Low(Shr(w, k), r - k)
  {
    ShlOne(k);
    ShlOne(r);
    XorMasks(k, r);
    AndWindow(w, k, r);
  }

  /** A finished buffer agrees with itself. */
  lemma AgreesWithItself(b: BitState, endian: Endian)
    requires Writing(b, endian)
    ensures Agrees(b.buffer, b, endian)
  {
    if endian.Little? {
      LowSmall(b.buffer, UnitBits(b) - b.remaining);
    }
  }

  /** What is flushed is below 2 ^ (8 * size). */
  lemma FitsUnit(b: BitState, endian: Endian)
    requires Writing(b, endian)
    ensures b.buffer < Pow2(UnitBits(b))
  {
    Pow2Mono(UnitBits(b) - b.remaining, UnitBits(b));
  }

  // -------------------------------------------------- a run of bit fields

  datatype Piece = Piece(value: nat, bits: nat)

  function TotalBits(run: seq<Piece>): nat {
    if run == [] then 0 else run[0].bits + TotalBits(run[1..])
  }

  function PutAll(b: BitState, s: Scalar, run: seq<Piece>, endian: Endian): Option<BitState>
    decreases run
  {
    if run == [] then Some(b)
    else
      var c := PutBits(b, s, run[0].value, run[0].bits, endian);
      if c.None? then None else PutAll(c.value, s, run[1..], endian)
  }

  function TakeAll(b: BitState, widths: seq<nat>, endian: Endian): Option<seq<int>>
    decreases widths
  {
    if widths == [] then Some([])
    else
      match TakeBits(b, widths[0], endian)
      case None => None
      case Some((v, c)) =>
        var vs := TakeAll(c, widths[1..], endian);
        if vs.None? then None else Some([v] + vs.value)
  }

  ghost predicate GoodRun(run: seq<Piece>) {
    forall p | p in run :: 0 < p.bits && p.value < Pow2(p.bits)
  }

  function Widths(run: seq<Piece>): seq<nat> { if run == [] then [] else [run[0].bits] + Widths(run[1..]) }

  function Values(run: seq<Piece>): seq<int> { if run == [] then [] else [run[0].value] + Values(run[1..]) }

  lemma {:induction false} RunFrom(b: BitState, run: seq<Piece>, endian: Endian)
    requires Writing(b, endian) && GoodRun(run) && TotalBits(run) <= b.remaining
    ensures var c := PutAll(b, b.typ.value, run, endian);
            && c.Some? && Writing(c.value, endian) && c.value.typ == b.typ
            && Agrees(c.value.buffer, b, endian)
            && TakeAll(Reading(c.value.buffer, b, endian), Widths(run), endian) == Some(Values(run))
    decreases run
  {
    if run == [] {
      AgreesWithItself(b, endian);
    } else {
      TakeWhatWasPut(b, run[0].value, run[0].bits, 0, endian);
      var c := PutBits(b, b.typ.value, run[0].value, run[0].bits, endian).value;
      RunFrom(c, run[1..], endian);
      var w := PutAll(c, b.typ.value, run[1..], endian).value.buffer;
      TakeWhatWasPut(b, run[0].value, run[0].bits, w, endian);
    }
  }

  /** Writing a run of bit fields, flushing it and reading it back gives every value; the stored
      word fits the unit. */
  lemma RunRoundTrip(s: Scalar, run: seq<Piece>, endian: Endian)
    requires !s.Char? && !ScalarSigned(s)
    requires run != [] && GoodRun(run) && TotalBits(run) <= ScalarSize(s) * 8
    ensures var c := PutAll(IDLE, s, run, endian);
            && c.Some? && 0 <= c.value.buffer < Pow2(8 * ScalarSize(s))
            && Flushed(c.value, endian).Some?
            && var w := Decode(Flushed(c.value, endian).value, ScalarSize(s), false, endian);
               TakeAll(BitState(Some(s), w, ScalarSize(s) * 8), Widths(run), endian) == Some(Values(run))
  {
    hide *;
    var b := Opened(s);
    PutFirst(s, run, endian);
    OpenedIsEmpty(s, endian);
    RunFrom(b, run, endian);
    var c := PutAll(b, s, run, endian).value;
    WordFits(c, s, endian);
    FlushedDecodes(c, s, endian);
    ReadFromStart(s, c.buffer, endian);
  }

  /** The word that was stored is the word that is loaded. */
  lemma FlushedDecodes(c: BitState, s: Scalar, endian: Endian)
    requires c.typ == Some(s) && !s.Char? && !ScalarSigned(s) && 0 <= c.buffer < Pow2(8 * ScalarSize(s))
    ensures Flushed(c, endian).Some? && Decode(Flushed(c, endian).value, ScalarSize(s), false, endian) == c.buffer
  {
    assert InRange(c.buffer, ScalarSize(s), false);
    hide Decode, Encode, InRange;
    DecodeEncode(c.buffer, ScalarSize(s), false, endian);
  }

  lemma FirstPut(s: Scalar, v: int, bits: nat, endian: Endian)
    ensures PutBits(IDLE, s, v, bits, endian) == PutBits(Opened(s), s, v, bits, endian)
  {}

  lemma PutFirst(s: Scalar, run: seq<Piece>, endian: Endian)
    requires run != []
    ensures PutAll(IDLE, s, run, endian) == PutAll(Opened(s), s, run, endian)
  {
    hide PutBits;
    FirstPut(s, run[0].value, run[0].bits, endian);
  }

  lemma WordFits(c: BitState, s: Scalar, endian: Endian)
    requires Writing(c, endian) && c.typ == Some(s)
    ensures 0 <= c.buffer < Pow2(8 * ScalarSize(s))
  {
    FitsUnit(c, endian);
  }

  lemma OpenedIsEmpty(s: Scalar, endian: Endian)
    ensures Writing(Opened(s), endian) && Opened(s).typ == Some(s) && Opened(s).remaining == ScalarSize(s) * 8
  {
    var n := UnitBits(Opened(s));
    Empty(n);
  }

  lemma Empty(n: nat)
    ensures Low(0, n) == 0 && 0 < Pow2(n) && Pow2(0) == 1
  {
    LowSmall(0, n);
  }

  lemma ReadFromStart(s: Scalar, w: nat, endian: Endian)
    ensures Reading(w, Opened(s), endian) == BitState(Some(s), w, ScalarSize(s) * 8)
  {
    var b := Opened(s);
    assert UnitBits(b) - b.remaining == 0;
  }

  // -------------------------------------------------- where each field is in the word

  /** What is taken out of any word, negative ones too: the next bits from below, or big-endian from above. */
  lemma TakenIs(b: BitState, bits: nat, endian: Endian)
    ensures TakeBits(b, bits, endian).Some? <==> endian.Little? || bits <= b.remaining
    ensures TakeBits(b, bits, endian).Some? ==>
            var (v, c) := TakeBits(b, bits, endian).value;
            && v == (if endian.Little? then b.buffer else b.buffer / Pow2(b.remaining - bits)) % Pow2(bits)
            && c == b.(remaining := b.remaining - bits,
                       buffer := if endian.Little? then b.buffer / Pow2(bits) else b.buffer)
  {
    hide And, Xor, Pow2, Low, Shl, Shr;
    if endian.Little? {
      ShlOne(bits);
      AndMask(b.buffer, bits);
      LowIs(b.buffer, bits);
      ShrIs(b.buffer, bits);
    } else if bits <= b.remaining {
      var k := b.remaining - bits;
      Window(b.buffer, k, b.remaining);
      LowIs(Shr(b.buffer, k), bits);
      ShrIs(b.buffer, k);
    }
  }

  /** What is put in, whether it fits or not: nothing is masked, so that the bits of a value that is too
      great go on to its neighbours. */
  lemma PutIs(b: BitState, v: int, bits: nat, endian: Endian, k: nat)
    requires b.typ.Some? && 0 < bits <= b.remaining <= UnitBits(b)
    ensures var place := if endian.Little? then UnitBits(b) - b.remaining else b.remaining - bits;
            var c := PutBits(b, b.typ.value, v, bits, endian);
            && c.Some? && c.value.typ == b.typ && c.value.remaining == b.remaining - bits
            && (Bit(c.value.buffer, k) <==> Bit(b.buffer, k) || (k >= place && Bit(v, k - place)))
  {
    hide Or, Bit;
    var place: nat := if endian.Little? then UnitBits(b) - b.remaining else b.remaining - bits;
    EachBit(b.buffer, Shl(v, place), k);
    ShiftedBit(v, place, k);
  }

  /** A put behind a full unit begins the next one in the same word: what is there is neither written out nor
      cleared, and the type is that of the field. */
  lemma PutOnTop(b: BitState, s: Scalar, v: int, bits: nat, endian: Endian, k: nat)
    requires b.remaining == 0 && 0 < bits <= 8 * ScalarSize(s)
    ensures var place := if endian.Little? then 0 else 8 * ScalarSize(s) - bits;
            var c := PutBits(b, s, v, bits, endian);
            && c.Some? && c.value.typ == Some(s) && c.value.remaining == 8 * ScalarSize(s) - bits
            && (Bit(c.value.buffer, k) <==> Bit(b.buffer, k) || (k >= place && Bit(v, k - place)))
  {
    hide PutBits, Bit;
    var unit := BitState(Some(s), b.buffer, 8 * ScalarSize(s));
    Reopened(b, s, v, bits, endian);
    PutIs(unit, v, bits, endian, k);
  }

  lemma Reopened(b: BitState, s: Scalar, v: int, bits: nat, endian: Endian)
    requires b.remaining == 0
    ensures PutBits(b, s, v, bits, endian)
         == PutBits(BitState(Some(s), b.buffer, 8 * ScalarSize(s)), s, v, bits, endian)
  {}

  lemma {:induction false} ShiftedBit(v: int, n: nat, k: nat)
    ensures Bit(Shl(v, n), k) <==> k >= n && Bit(v, k - n)
    decreases n
  {
    hide Bit;
    if n > 0 {
      BitStep(Shl(v, n), Shl(v, n - 1), 0, k);
      if k > 0 { ShiftedBit(v, n - 1, k - 1); }
    }
  }

  /** The fields of a unit of `unit` bits, each times the weight of its place: from the lowest bit up, or
      big-endian from the highest down. */
  function PlacedSum(run: seq<Piece>, used: nat, unit: nat, endian: Endian): int
    requires used + TotalBits(run) <= unit
  {
    if run == [] then 0
    else
      var p := run[0];
      p.value * Pow2(if endian.Little? then used else unit - used - p.bits)
        + PlacedSum(run[1..], used + p.bits, unit, endian)
  }

  lemma {:induction false} WordFrom(b: BitState, run: seq<Piece>, endian: Endian)
    requires Writing(b, endian) && GoodRun(run) && TotalBits(run) <= b.remaining
    ensures PutAll(b, b.typ.value, run, endian).Some?
    ensures PutAll(b, b.typ.value, run, endian).value.buffer
         == b.buffer + PlacedSum(run, UnitBits(b) - b.remaining, UnitBits(b), endian)
    decreases run
  {
    hide PutBits, Writing, Pow2;
    if run != [] {
      var p := run[0];
      assert p in run && forall q | q in run[1..] :: q in run;
      PutPlaced(b, p.value, p.bits, endian);
      WordFrom(PutBits(b, b.typ.value, p.value, p.bits, endian).value, run[1..], endian);
    }
  }

  lemma PutPlaced(b: BitState, v: nat, bits: nat, endian: Endian)
    requires Writing(b, endian) && 0 < bits <= b.remaining && v < Pow2(bits)
    ensures b.typ.Some? && b.remaining <= UnitBits(b)
    ensures var c := PutBits(b, b.typ.value, v, bits, endian);
            && c.Some? && Writing(c.value, endian) && c.value.typ == b.typ && c.value.remaining == b.remaining - bits
            && c.value.buffer == b.buffer
                + v * Pow2(if endian.Little? then UnitBits(b) - b.remaining else b.remaining - bits)
  {
    hide PutBits, Shl, Shr, Low, Pow2;
    var k := b.remaining - bits;
    if endian.Little? {
      PutLittle(b, v, bits);
      ShlIs(v, UnitBits(b) - b.remaining);
    } else {
      PutBig(b, v, bits);
      var h := Shr(b.buffer, b.remaining);
      Split(b.buffer, b.remaining);
      ShlShl(h, bits, k);
      ShlIs(Shl(h, bits) + v, k);
      ShlIs(Shl(h, bits), k);
      assert (Shl(h, bits) + v) * Pow2(k) == Shl(h, bits) * Pow2(k) + v * Pow2(k);
    }
  }

  /** The word that a run of bit fields leaves: little-endian units are filled from the lowest bit, big-endian
      ones from the highest. */
  lemma WordIsSum(s: Scalar, run: seq<Piece>, endian: Endian)
    requires run != [] && GoodRun(run) && TotalBits(run) <= ScalarSize(s) * 8
    ensures PutAll(IDLE, s, run, endian).Some?
    ensures PutAll(IDLE, s, run, endian).value.buffer == PlacedSum(run, 0, ScalarSize(s) * 8, endian)
  {
    hide PutAll, PutBits, Writing, GoodRun;
    PutFirst(s, run, endian);
    OpenedIsEmpty(s, endian);
    WordFrom(Opened(s), run, endian);
  }
}
