/** The bits of a 32-bit word, counted from the least significant one, and what the named
    operations do to each of them. */
module Bits {
  import opened Words

  predicate Low(v: bv32) { v & 1 == 1 }

  /** Bit `b` of `v`; beyond bit 31 there are only zeros. */
  predicate HasBit(v: bv32, b: nat) { Low(Shr(v, b)) }

  // ---------------------------------------------------------------------------
  // One bit, one place
  // ---------------------------------------------------------------------------

  lemma LowOfAndOr(v: bv32, w: bv32)
    ensures Low(And(v, w)) <==> Low(v) && Low(w)
    ensures Low(Or(v, w)) <==> Low(v) || Low(w)
  {
  }

  lemma OrShiftOne(v: bv32, w: bv32)
    ensures Right(Or(v, w)) == Or(Right(v), Right(w))
  {
  }

  lemma LeftIsEven(v: bv32)
    ensures !Low(Left(v))
  {
  }

  lemma LowAndRest(v: bv32, w: bv32)
    requires Low(v) == Low(w) && Right(v) == Right(w)
    ensures v == w
  {
  }

  // ---------------------------------------------------------------------------
  // Shifts by many places
  // ---------------------------------------------------------------------------

  lemma {:induction false} ShrOr(v: bv32, w: bv32, n: nat)
    ensures Shr(Or(v, w), n) == Or(Shr(v, n), Shr(w, n))
    decreases n
  {
    hide Or, Right;
    if n == 0 {
    } else {
      OrShiftOne(v, w);
      ShrOr(Right(v), Right(w), n - 1);
    }
  }

  lemma {:induction false} ShrShr(v: bv32, m: nat, n: nat)
    ensures Shr(Shr(v, m), n) == Shr(v, m + n)
    decreases m
  {
    hide Right;
    if m == 0 {
    } else {
      ShrShr(Right(v), m - 1, n);
    }
  }

  lemma ShrOne(v: bv32)
    ensures Shr(v, 1) == Right(v) && Shr(v, 0) == v
  {
    assert Shr(Right(v), 0) == Right(v);
  }

  // ---------------------------------------------------------------------------
  // Words whose set bits are the lowest ones
  // ---------------------------------------------------------------------------

  predicate LowestOnes(v: bv32) { v & (v + 1) == 0 }

  lemma RightKeepsLowestOnes(v: bv32)
    requires LowestOnes(v)
    ensures LowestOnes(Right(v))
  {
  }

  lemma LowestOnesLow(v: bv32)
    requires LowestOnes(v) && v != 0
    ensures Low(v)
  {
  }

  lemma {:induction false} ShrLowestOnes(v: bv32, n: nat)
    requires LowestOnes(v)
    ensures LowestOnes(Shr(v, n))
    decreases n
  {
    hide LowestOnes, Right;
    if n == 0 {
    } else {
      RightKeepsLowestOnes(v);
      ShrLowestOnes(Right(v), n - 1);
    }
  }

  lemma {:induction false} ShrZero(n: nat)
    ensures Shr(0, n) == 0
    decreases n
  {
    if n == 0 {
    } else {
      assert Right(0) == 0;
      ShrZero(n - 1);
    }
  }

  lemma EightLess(v: bv32, n: nat)
    ensures Shr(v, n + 8) == Shr(v >> 8, n)
  {
    var v4 := Right(Right(Right(Right(v))));
    assert Right(Right(Right(Right(v4)))) == v >> 8;
    assert Shr(v, n + 8) == Shr(Right(v), n + 7) == Shr(Right(Right(v)), n + 6) == Shr(Right(Right(Right(v))), n + 5)
        == Shr(v4, n + 4);
    assert Shr(v4, n + 4) == Shr(Right(v4), n + 3) == Shr(Right(Right(v4)), n + 2)
        == Shr(Right(Right(Right(v4))), n + 1) == Shr(Right(Right(Right(Right(v4)))), n);
  }

  lemma TopBit()
    ensures Shr(ALL_ONES, 31) == 1
  {
    EightLess(ALL_ONES, 23);
    EightLess(0xff_ffff, 15);
    EightLess(0xffff, 7);
    assert Shr(0xff, 7) == 1;
  }

  /** Nothing is left after 32 places. */
  lemma ShrAll(v: bv32, n: nat)
    requires n >= 32
    ensures Shr(v, n) == 0
  {
    hide And, Shr;
    TopBit();
    ShrShr(ALL_ONES, 31, 1);
    ShrOne(1);
    RightOfOne();
    AndIdentity(v);
    ShrAnd(v, ALL_ONES, 32);
    AndWithZero(Shr(v, 32));
    ShrShr(v, 32, n - 32);
    ShrZero(n - 32);
  }

  lemma RightOfOne()
    ensures Right(1) == 0
  {
  }

  lemma AndWithZero(v: bv32)
    ensures And(v, 0) == 0
  {
  }

  lemma OnesReach(n: nat)
    requires n < 32
    ensures Low(Shr(ALL_ONES, n))
  {
    hide Low, LowestOnes, Shr;
    AllLowest();
    ShrLowestOnes(ALL_ONES, n);
    if Shr(ALL_ONES, n) == 0 {
      ShrShr(ALL_ONES, n, 31 - n);
      ShrZero(31 - n);
      TopBit();
      assert false;
    }
    LowestOnesLow(Shr(ALL_ONES, n));
  }

  lemma AllLowest()
    ensures LowestOnes(ALL_ONES)
  {
  }

  // ---------------------------------------------------------------------------
  // What the operations do to a bit
  // ---------------------------------------------------------------------------

  lemma AndBit(v: bv32, w: bv32, b: nat)
    ensures HasBit(And(v, w), b) <==> HasBit(v, b) && HasBit(w, b)
  {
    hide And, Shr, Low;
    ShrAnd(v, w, b);
    LowOfAndOr(Shr(v, b), Shr(w, b));
  }

  lemma OrBit(v: bv32, w: bv32, b: nat)
    ensures HasBit(Or(v, w), b) <==> HasBit(v, b) || HasBit(w, b)
  {
    hide Or, Shr, Low;
    ShrOr(v, w, b);
    LowOfAndOr(Shr(v, b), Shr(w, b));
  }

  lemma ZeroBit(b: nat)
    ensures !HasBit(0, b)
  {
    hide Shr;
    ShrZero(b);
  }

  lemma BitBeyond(v: bv32, b: nat)
    requires b >= 32
    ensures !HasBit(v, b)
  {
    hide Shr;
    ShrAll(v, b);
  }

  lemma OnesBit(b: nat)
    ensures HasBit(ALL_ONES, b) <==> b < 32
  {
    hide Low, Shr;
    if b < 32 {
      OnesReach(b);
    } else {
      BitBeyond(ALL_ONES, b);
    }
  }

  lemma ShrBit(v: bv32, n: nat, b: nat)
    ensures HasBit(Shr(v, n), b) <==> HasBit(v, b + n)
  {
    hide Shr, Low;
    ShrShr(v, n, b);
  }

  lemma LeftBit(v: bv32, b: nat)
    requires b < 32
    ensures HasBit(Left(v), b) <==> b >= 1 && HasBit(v, b - 1)
  {
    hide Left, Right, Shr, Low, And;
    if b == 0 {
      ShrOne(Left(v));
      LeftIsEven(v);
    } else {
      ShrShr(Left(v), 1, b - 1);
      ShrOne(Left(v));
      OneLeftOneRight(v);
      AndBit(v, 0x7fff_ffff, b - 1);
      ShrShr(ALL_ONES, 1, b - 1);
      ShrOne(ALL_ONES);
      assert Right(ALL_ONES) == 0x7fff_ffff by { RightOnes(); }
      OnesBit(b);
    }
  }

  lemma RightOnes()
    ensures Right(ALL_ONES) == 0x7fff_ffff
  {
  }

  lemma {:induction false} ShlBit(v: bv32, n: nat, b: nat)
    requires b < 32
    ensures HasBit(Shl(v, n), b) <==> b >= n && HasBit(v, b - n)
    decreases n
  {
    hide Left, HasBit;
    if n == 0 {
    } else {
      ShlBit(Left(v), n - 1, b);
      if b >= n - 1 {
        LeftBit(v, b - (n - 1));
      }
    }
  }

  // ---------------------------------------------------------------------------
  // A word is its 32 bits
  // ---------------------------------------------------------------------------

  predicate SameBits(v: bv32, w: bv32, n: nat) {
    forall b :: 0 <= b < n ==> HasBit(v, b) == HasBit(w, b)
  }

  lemma Extensional(v: bv32, w: bv32)
    ensures SameBits(v, w, 32) <==> v == w
  {
    hide Shr, HasBit;
    ShrAll(v, 32);
    ShrAll(w, 32);
    if SameBits(v, w, 32) {
      SameLowBits(v, w, 32);
    }
  }

  lemma {:induction false} SameLowBits(v: bv32, w: bv32, n: nat)
    requires SameBits(v, w, n) && Shr(v, n) == Shr(w, n)
    ensures v == w
    decreases n
  {
    hide Low, Right;
    if n == 0 {
    } else {
      assert SameBits(Right(v), Right(w), n - 1) by {
        forall b | 0 <= b < n - 1
          ensures HasBit(Right(v), b) == HasBit(Right(w), b)
        {
          assert HasBit(v, b + 1) == HasBit(w, b + 1);
        }
      }
      SameLowBits(Right(v), Right(w), n - 1);
      assert HasBit(v, 0) == HasBit(w, 0);
      LowAndRest(v, w);
    }
  }

  /** How many of the `n` low bits are set. */
  function Ones(v: bv32, n: nat): nat {
    if n == 0 then 0 else Ones(v, n - 1) + if HasBit(v, n - 1) then 1 else 0
  }
}
