/** 32-bit machine words as sets of bit positions: the bit operations on words are the operations
    on those sets.
 */
module MachineWords {
  import opened Basics

  const ALL: bv32 := 0xFFFF_FFFF

  // ---- bits of one word ----

  type BitPos = b: int | 0 <= b < 32

  /** A word shifted up by one place. */
  function Doubled(x: bv32): bv32 {
    x + x
  }

  /** The word in which only bit `b` is set, built up so that proofs can follow it. */
  function Bit(b: BitPos): bv32 {
    if b == 0 then 1 else Doubled(Bit(b - 1))
  }

  /** It is a one shifted up by `b` places, as the code writes it. */
  lemma {:induction false} BitIsShifted(b: BitPos)
    ensures Bit(b) == (1 as bv32) << b
  {
    if b > 0 {
      BitIsShifted(b - 1);
      ShiftOnce(b);
    }
  }

  lemma {:induction false} ShiftOnce(b: BitPos)
    ensures b > 0 ==> (1 as bv32) << b == Doubled((1 as bv32) << (b - 1))
  {
    var c := b as bv32;
    assert (1 as bv32) << c == (1 as bv32) << b;
  }

  predicate Meets(w: bv32, z: bv32) {
    w & z != 0
  }

  /** Bit `b` of `w` is set. The quantifier only keeps the bit operations out of proofs that do
      not look at them. */
  predicate Has(w: bv32, b: BitPos) {
    forall k {:trigger Look(k)} :: 0 <= k < 1 && Look(k) ==> Meets(w, Bit(b))
  }

  lemma {:induction false} BitsApart(b: BitPos, c: BitPos)
    requires b < c
    ensures Bit(b) & Bit(c) == 0
    decreases b
  {
    if b == 0 {
      OneApart(Bit(c - 1));
    } else {
      BitsApart(b - 1, c - 1);
      ShiftApart(Bit(b - 1), Bit(c - 1));
    }
  }

  lemma OneApart(x: bv32)
    ensures 1 & (x + x) == 0
  {
  }

  lemma ShiftApart(x: bv32, y: bv32)
    requires x & y == 0
    ensures (x + x) & (y + y) == 0
  {
  }

  lemma TopBit()
    ensures Bit(31) == 0x8000_0000
  {
    assert Bit(4) == 0x10;
    assert Bit(8) == 0x100;
    assert Bit(12) == 0x1000;
    assert Bit(16) == 0x1_0000;
    assert Bit(20) == 0x10_0000;
    assert Bit(24) == 0x100_0000;
    assert Bit(28) == 0x1000_0000;
  }

  lemma {:induction false} BitSome(b: BitPos)
    ensures Bit(b) != 0 && Has(Bit(b), b)
  {
    assert Look(0);
    if b > 0 {
      BitSome(b - 1);
      BitsApart(b - 1, 31);
      TopBit();
      ShiftSome(Bit(b - 1));
    }
    SameAnd(Bit(b));
  }

  lemma ShiftSome(x: bv32)
    requires x != 0 && x & 0x8000_0000 == 0
    ensures x + x != 0
  {
  }

  lemma SameAnd(x: bv32)
    ensures x & x == x
  {
  }

  /** The bits below `b`, as the code computes them. */
  function Below(b: BitPos): bv32 {
    Bit(b) - 1
  }

  lemma {:induction false} OneBit(b: BitPos)
    ensures Bit(b) & Below(b) == 0 && Power(Bit(b))
  {
    if b > 0 {
      OneBit(b - 1);
      DoubledBelow(Bit(b - 1));
    }
  }

  lemma DoubledBelow(x: bv32)
    requires x & (x - 1) == 0
    ensures (x + x) & ((x + x) - 1) == 0
    ensures (x + x) - 1 == (x - 1) | x
  {
  }

  /** Exactly the bits below `b` are set. */
  lemma {:induction false} BelowHas(b: BitPos, c: BitPos)
    ensures Has(Below(b), c) <==> c < b
    decreases b
  {
    if b > 0 {
      BelowHas(b - 1, c);
      OneBit(b - 1);
      DoubledBelow(Bit(b - 1));
      OrHas(Below(b - 1), Bit(b - 1), c);
      BitHas(b - 1, c);
    } else {
      ZeroHas(c);
    }
  }

  lemma {:induction false} BitHas(b: BitPos, c: BitPos)
    ensures Has(Bit(b), c) <==> b == c
  {
    assert Look(0);
    if b < c {
      BitsApart(b, c);
    } else if c < b {
      BitsApart(c, b);
      AndCommutes(Bit(b), Bit(c));
    } else {
      BitSome(b);
    }
  }

  lemma AndCommutes(x: bv32, y: bv32)
    ensures x & y == y & x
  {
  }

  lemma {:induction false} ZeroHas(c: BitPos)
    ensures !Has(0, c)
  {
    assert Look(0);
  }

  lemma {:induction false} OrHas(x: bv32, y: bv32, c: BitPos)
    ensures Has(x | y, c) <==> Has(x, c) || Has(y, c)
  {
    assert Look(0);
    MeetsOr(x, y, Bit(c));
  }

  lemma MeetsOr(x: bv32, y: bv32, z: bv32)
    ensures Meets(x | y, z) <==> Meets(x, z) || Meets(y, z)
  {
    assert (x | y) & z == (x & z) | (y & z);
    OrZero(x & z, y & z);
  }

  lemma OrZero(x: bv32, y: bv32)
    ensures x | y == 0 <==> x == 0 && y == 0
  {
  }

  lemma {:induction false} AndHas(x: bv32, y: bv32, c: BitPos)
    ensures Has(x & y, c) <==> Has(x, c) && Has(y, c)
  {
    assert Look(0);
    OneBit(c);
    MeetsAnd(x, y, Bit(c));
  }

  predicate Power(z: bv32) {
    z & (z - 1) == 0
  }

  lemma MeetsAnd(x: bv32, y: bv32, z: bv32)
    requires Power(z)
    ensures Meets(x & y, z) <==> Meets(x, z) && Meets(y, z)
  {
    MaskOne(x, z);
    MaskOne(y, z);
  }

  lemma MaskOne(x: bv32, z: bv32)
    requires Power(z)
    ensures x & z == 0 || x & z == z
  {
  }

  lemma {:induction false} NotHas(x: bv32, c: BitPos)
    ensures Has(!x, c) <==> !Has(x, c)
  {
    assert Look(0);
    OneBit(c);
    BitSome(c);
    MeetsNot(x, Bit(c));
  }

  lemma MeetsNot(x: bv32, z: bv32)
    requires Power(z) && z != 0
    ensures Meets(!x, z) <==> !Meets(x, z)
  {
    MaskOne(x, z);
  }

  lemma {:induction false} AllHas(c: BitPos)
    ensures Has(ALL, c)
  {
    assert Look(0);
    BitSome(c);
    MeetsAll(Bit(c));
  }

  lemma MeetsAll(z: bv32)
    requires z != 0
    ensures Meets(ALL, z)
  {
  }

  lemma {:induction false} NotMeets(w: bv32, b: BitPos)
    ensures !Has(w, b) ==> w & Bit(b) == 0
  {
    assert Look(0);
  }

  lemma {:induction false} BelowSplit(b: BitPos)
    requires b > 0
    ensures Below(b) == Below(b - 1) | Bit(b - 1)
  {
    OneBit(b - 1);
    DoubledBelow(Bit(b - 1));
  }

  lemma Distribute(w: bv32, x: bv32, y: bv32)
    requires w & x == 0 && w & y == 0
    ensures w & (x | y) == 0
  {
  }

  lemma {:induction false} NoneBelow(w: bv32, b: BitPos)
    requires forall c: BitPos :: !Has(w, c)
    ensures w & Below(b) == 0
  {
    if b > 0 {
      NoneBelow(w, b - 1);
      assert !Has(w, b - 1);
      NotMeets(w, b - 1);
      Distribute(w, Below(b - 1), Bit(b - 1));
      BelowSplit(b);
    }
  }

  lemma {:induction false} NoneIsZero(w: bv32)
    requires forall c: BitPos :: !Has(w, c)
    ensures w == 0
  {
    NoneBelow(w, 31);
    assert !Has(w, 31);
    NotMeets(w, 31);
    TopBit();
    HalvesZero(w);
  }

  lemma HalvesZero(w: bv32)
    requires w & 0x7FFF_FFFF == 0 && w & 0x8000_0000 == 0
    ensures w == 0
  {
  }

  // ---- a word as the set of its bits ----

  /** The positions of the bits that are set. */
  ghost function Positions(w: bv32): set<BitPos> {
    set b: BitPos | Has(w, b)
  }

  /** The positions below `b`. */
  function Upto(b: nat): set<BitPos> {
    set c: BitPos | 0 <= c < 32 && Under(c, b)
  }

  predicate Under(c: BitPos, b: nat) {
    c < b
  }

  /** The operations on words that the vector uses are those on sets of positions. */
  lemma {:induction false} WordOperations(x: bv32, y: bv32)
    ensures Positions(x | y) == Positions(x) + Positions(y)
    ensures Positions(x & y) == Positions(x) * Positions(y)
    ensures Positions(!x) == Upto(32) - Positions(x)
  {
    forall c: BitPos
      ensures Has(x | y, c) <==> Has(x, c) || Has(y, c)
      ensures Has(x & y, c) <==> Has(x, c) && Has(y, c)
      ensures Has(!x, c) <==> !Has(x, c)
    {
      OrHas(x, y, c);
      AndHas(x, y, c);
      NotHas(x, c);
    }
  }

  lemma {:induction false} WordConstants(b: BitPos)
    ensures Bit(b) == (1 as bv32) << b
    ensures Positions(Bit(b)) == {b}
    ensures Positions(Below(b)) == Upto(b)
    ensures Positions(ALL) == Upto(32)
  {
    BitIsShifted(b);
    forall c: BitPos
      ensures Has(Bit(b), c) <==> c == b
      ensures Has(Below(b), c) <==> c < b
      ensures Has(ALL, c)
    {
      BitHas(b, c);
      BelowHas(b, c);
      AllHas(c);
    }
  }

  lemma {:induction false} WordZero(w: bv32)
    ensures w == 0 <==> Positions(w) == {}
  {
    if Positions(w) == {} {
      forall c: BitPos
        ensures !Has(w, c)
      {
        assert c !in Positions(w);
      }
      NoneIsZero(w);
    }
    if w == 0 {
      forall c: BitPos
        ensures !Has(w, c)
      {
        ZeroHas(c);
      }
    }
  }

  // ---- counting bits ----

  /** The zero bits at the bottom of a set of positions, counted from bit `b` on. */
  function TrailingZeros(w: set<BitPos>, b: nat): (z: nat)
    requires b <= 32
    ensures b <= z <= 32
    ensures forall c: BitPos :: b <= c < z ==> c !in w
    ensures z < 32 ==> z in w
    decreases 32 - b
  {
    if b == 32 then 32 else if b in w then b else TrailingZeros(w, b + 1)
  }

  /** The zero bits at the bottom of a word, counted from bit `b` on by testing each. */
  function ZerosFrom(w: bv32, b: nat): nat
    requires b <= 32
    decreases 32 - b
  {
    if b == 32 || Meets(w, Bit(b)) then b else ZerosFrom(w, b + 1)
  }

  /** The one bits of a word below bit `b`, counted by testing each. */
  function OnesBelow(w: bv32, b: nat): nat
    requires b <= 32
  {
    if b == 0 then 0 else OnesBelow(w, b - 1) + if Meets(w, Bit(b - 1)) then 1 else 0
  }

  /** Counting the trailing zeros of a word is counting those of the set of its bits ... */
  lemma {:induction false} WordTrailingZeros(w: bv32, b: nat)
    requires b <= 32
    ensures ZerosFrom(w, b) == TrailingZeros(Positions(w), b)
    decreases 32 - b
  {
    if b < 32 {
      HasMeets(w, b);
      WordTrailingZeros(w, b + 1);
    }
  }

  /** ... and counting its ones is counting the members of that set. */
  lemma {:induction false} WordOnes(w: bv32, b: nat)
    requires b <= 32
    ensures OnesBelow(w, b) == |Positions(w) * Upto(b)|
    ensures b == 32 ==> OnesBelow(w, b) == |Positions(w)|
  {
    if b > 0 {
      WordOnes(w, b - 1);
      HasMeets(w, b - 1);
      UptoStep(Positions(w), b - 1);
    } else {
      assert Positions(w) * Upto(0) == {};
    }
    if b == 32 {
      assert Positions(w) * Upto(b) == Positions(w);
    }
  }

  lemma {:induction false} HasMeets(w: bv32, b: BitPos)
    ensures b in Positions(w) <==> Meets(w, Bit(b))
  {
    assert Look(0);
  }

  lemma UptoStep(w: set<BitPos>, b: BitPos)
    ensures |w * Upto(b + 1)| == |w * Upto(b)| + if b in w then 1 else 0
  {
    var lower := w * Upto(b);
    assert b !in lower;
    assert w * Upto(b + 1) == if b in w then lower + {b} else lower;
  }
}
