/** Bitwise operations and shifts of 32-bit words. They are named so that the proofs can
    reason from the laws below instead of bit by bit. */
module Words {

  const ALL_ONES: bv32 := 0xffff_ffff

  function And(a: bv32, b: bv32): bv32 { a & b }

  function Or(a: bv32, b: bv32): bv32 { a | b }

  predicate Over(v: bv32, limit: bv32) { v > limit }

  function Left(v: bv32): bv32 { v << 1 }

  function Right(v: bv32): bv32 { v >> 1 }

  /** `v` moved `n` places left, zeros coming in. */
  function Shl(v: bv32, n: nat): bv32
    decreases n
  {
    if n == 0 then v else Shl(Left(v), n - 1)
  }

  /** `v` moved `n` places right, zeros coming in. */
  function Shr(v: bv32, n: nat): bv32
    decreases n
  {
    if n == 0 then v else Shr(Right(v), n - 1)
  }

  /** Every bit of `a` is a bit of `b`. */
  predicate Within(a: bv32, b: bv32) { And(a, b) == a }

  lemma OverMeans(v: bv32, limit: bv32)
    ensures Over(v, limit) <==> v > limit
    ensures !Over(v, limit) <==> v <= limit
    ensures !Over(v, 0xffff_ffff)
  {
  }

  lemma AndShiftOne(a: bv32, b: bv32)
    ensures Left(And(a, b)) == And(Left(a), Left(b))
    ensures Right(And(a, b)) == And(Right(a), Right(b))
  {
  }

  lemma OneLeftOneRight(v: bv32)
    ensures Right(Left(v)) == And(v, 0x7fff_ffff)
    ensures Left(Right(v)) == And(v, 0xffff_fffe)
  {
  }

  lemma AndAssociates(a: bv32, b: bv32, c: bv32)
    ensures And(And(a, b), c) == And(a, And(b, c))
  {
  }

  lemma AndIdentity(a: bv32)
    ensures And(a, ALL_ONES) == a && And(ALL_ONES, a) == a && And(a, a) == a
  {
  }

  lemma AndOr(a: bv32, b: bv32, m: bv32)
    ensures And(Or(a, b), m) == Or(And(a, m), And(b, m))
  {
  }

  lemma OrZero(a: bv32)
    ensures Or(0, a) == a && Or(a, 0) == a
  {
  }

  lemma WithinMask(a: bv32, m: bv32)
    ensures Within(And(a, m), m)
  {
  }

  lemma {:induction false} ShlAnd(a: bv32, b: bv32, n: nat)
    ensures Shl(And(a, b), n) == And(Shl(a, n), Shl(b, n))
    decreases n
  {
    hide And, Left;
    if n == 0 {
    } else {
      AndShiftOne(a, b);
      ShlAnd(Left(a), Left(b), n - 1);
    }
  }

  lemma {:induction false} ShrAnd(a: bv32, b: bv32, n: nat)
    ensures Shr(And(a, b), n) == And(Shr(a, n), Shr(b, n))
    decreases n
  {
    hide And, Right;
    if n == 0 {
    } else {
      AndShiftOne(a, b);
      ShrAnd(Right(a), Right(b), n - 1);
    }
  }

  lemma {:induction false} ShlLast(v: bv32, n: nat)
    requires n > 0
    ensures Shl(v, n) == Left(Shl(v, n - 1))
    decreases n
  {
    hide Left;
    if n <= 1 {
    } else {
      ShlLast(Left(v), n - 1);
    }
  }

  lemma {:induction false} ShrLast(v: bv32, n: nat)
    requires n > 0
    ensures Shr(v, n) == Right(Shr(v, n - 1))
    decreases n
  {
    hide Right;
    if n <= 1 {
    } else {
      ShrLast(Right(v), n - 1);
    }
  }

  /** Shifting out and back keeps the bits under one mask, the same for every word. */
  lemma {:induction false} LeftThenRight(v: bv32, w: bv32, n: nat) returns (kept: bv32)
    ensures Shr(Shl(v, n), n) == And(v, kept) && Shr(Shl(w, n), n) == And(w, kept)
    decreases n
  {
    hide And, Left, Right;
    if n == 0 {
      kept := ALL_ONES;
      AndIdentity(v);
      AndIdentity(w);
    } else {
      var k := LeftThenRight(v, w, n - 1);
      var edge := Shr(0x7fff_ffff, n - 1);
      kept := And(k, edge);
      forall x <- {v, w}
        ensures Shr(Shl(x, n), n) == And(Shr(Shl(x, n - 1), n - 1), edge)
      {
        ShlLast(x, n);
        OneLeftOneRight(Shl(x, n - 1));
        ShrAnd(Shl(x, n - 1), 0x7fff_ffff, n - 1);
      }
      AndAssociates(v, k, edge);
      AndAssociates(w, k, edge);
    }
  }

  lemma {:induction false} RightThenLeft(v: bv32, w: bv32, n: nat) returns (kept: bv32)
    ensures Shl(Shr(v, n), n) == And(v, kept) && Shl(Shr(w, n), n) == And(w, kept)
    decreases n
  {
    hide And, Left, Right;
    if n == 0 {
      kept := ALL_ONES;
      AndIdentity(v);
      AndIdentity(w);
    } else {
      var k := RightThenLeft(v, w, n - 1);
      var edge := Shl(0xffff_fffe, n - 1);
      kept := And(k, edge);
      forall x <- {v, w}
        ensures Shl(Shr(x, n), n) == And(Shl(Shr(x, n - 1), n - 1), edge)
      {
        ShrLast(x, n);
        OneLeftOneRight(Shr(x, n - 1));
        ShlAnd(Shr(x, n - 1), 0xffff_fffe, n - 1);
      }
      AndAssociates(v, k, edge);
      AndAssociates(w, k, edge);
    }
  }

  lemma KeptUnderMask(a: bv32, mask: bv32, kept: bv32)
    requires Within(a, mask) && And(mask, kept) == mask
    ensures And(a, kept) == a
  {
  }

  /** A shift that loses no bit of a mask loses no bit of a word under the mask. */
  lemma ShiftedBack(a: bv32, mask: bv32, n: nat)
    requires Within(a, mask)
    ensures Shr(Shl(mask, n), n) == mask ==> Shr(Shl(a, n), n) == a
    ensures Shl(Shr(mask, n), n) == mask ==> Shl(Shr(a, n), n) == a
  {
    hide And, Left, Right, Shl, Shr;
    var kept := LeftThenRight(a, mask, n);
    if And(mask, kept) == mask {
      KeptUnderMask(a, mask, kept);
    }
    kept := RightThenLeft(a, mask, n);
    if And(mask, kept) == mask {
      KeptUnderMask(a, mask, kept);
    }
  }

  /** 32 places leave nothing. */
  lemma {:induction false} ShlAll(v: bv32)
    ensures Shl(v, 32) == 0
  {
    hide Shl;
    EightMore(v, 24);
    EightMore(v << 8, 16);
    EightMore(v << 16, 8);
    EightMore(v << 24, 0);
    EightAtOnce(v);
    assert Shl(0, 0) == 0 by {
      ShlNone(0);
    }
  }

  lemma ShlNone(v: bv32)
    ensures Shl(v, 0) == v
  {
  }

  lemma EightAtOnce(v: bv32)
    ensures (v << 8) << 8 == v << 16 && (v << 16) << 8 == v << 24 && (v << 24) << 8 == 0
  {
  }

  lemma EightMore(v: bv32, n: nat)
    ensures Shl(v, n + 8) == Shl(v << 8, n)
  {
    var v4 := Left(Left(Left(Left(v))));
    assert Left(Left(Left(Left(v4)))) == v << 8;
    assert Shl(v, n + 8) == Shl(Left(v), n + 7) == Shl(Left(Left(v)), n + 6) == Shl(Left(Left(Left(v))), n + 5)
        == Shl(v4, n + 4) == Shl(Left(v4), n + 3) == Shl(Left(Left(v4)), n + 2) == Shl(Left(Left(Left(v4))), n + 1)
        == Shl(Left(Left(Left(Left(v4)))), n);
  }
}
