/** The constants of a modulus that the code computes as remainders, with nowhere to put the quotient. */
module ModulusConstants {
  import opened Arithmetic
  import opened Limbs
  import opened Spans
  import opened Division

  lemma OddAboveHalf(n: nat, p: nat)
    requires n % 2 == 1 && p <= 2 * n && p % 4 == 0 && n < p
    ensures p % n == p - n
  {
    DivModUnique(p, n, 1, p - n);
  }

  lemma TwoLimbs()
    ensures BasePow(2) == BASE * BASE && BasePow(2) % 4 == 0 && BasePow(3) == BASE * BASE * BASE
  {
    BasePowOne();
    assert BasePow(2) == BASE * BasePow(1);
    assert BasePow(3) == BASE * BasePow(2);
    var half := Pow2(LIMB_BITS - 1);
    Pow2Double(LIMB_BITS - 1);
    FourTimes(half, BASE);
  }

  lemma FourTimes(half: nat, b: nat)
    requires b == 2 * half
    ensures b * b == 4 * (half * half) && (b * b) % 4 == 0
  {
    ThreeWay(2, half, b);
    ThreeWay(half, 2, half);
  }

  lemma SquareBelow(n: Positive, r: nat, p: nat)
    requires r < n && r < p
    ensures 0 <= r * r < n * p
  {
    MulMono(r, 0, r);
    MulMono(r, r, n);
    MulStrict(n, r, p);
  }

  /** R squared modulo n, for an odd n of two limbs whose top bit is set, is computed as the remainder of r * r, where
      r is R modulo n.  There is room for the division if and only if r * r is below n moved up by one limb, or has
      four limbs. */
  lemma {:induction false} SquareRoomIff(n: Positive)
    requires n % 2 == 1 && Normalised(n) && LimbsOf(n) == 2
    ensures var r := BasePow(2) % n;
            && r == BasePow(2) - n
            && (DivisionHasRoom(r * r, n, 0) <==> !(n * BASE <= r * r < BasePow(3)))
  {
    hide BasePow, Normalised, LimbsOf, DivisionHasRoom;
    NormalisedBounds(n);
    TwoLimbs();
    OddAboveHalf(n, BasePow(2));
    var r := BasePow(2) % n;
    SquareBelow(n, r, BASE * BASE);
    EmptyQuotientRoomIff(r * r, n);
  }

  // The modulus b^4 - b^3 + 1, where c is b^3.
  lemma RootModulus(b: nat, c: nat, n: int)
    requires b >= 2 && b % 2 == 0 && c == b * b * b && n == b * c - c + 1
    ensures n % 2 == 1 && 1 <= n < b * c <= 2 * n
  {
    EvenTimes(b, c);
    assert c % 2 == 0 && c >= 8 by {
      EvenTimes(b, b * b);
      ThreeWay(b, b, b);
      CubeAtLeast(b);
    }
    BetweenHalfAndWhole(b, c);
    OddDifference(b * c, c);
  }

  lemma OddDifference(x: int, c: int)
    requires x % 2 == 0 && c % 2 == 0
    ensures (x - c + 1) % 2 == 1
  {
  }

  lemma CubeAtLeast(b: nat)
    requires b >= 2
    ensures b * b * b >= 8
  {
    MulMono(b, 2, b);
    MulMono(b * b, 2, b);
  }

  lemma BetweenHalfAndWhole(b: nat, c: nat)
    requires b >= 2 && c >= 8
    ensures 2 * c <= b * c
  {
    MulMono(c, 2, b);
  }

  lemma RootSquares(b: nat, c: nat)
    requires c == b * b * b
    ensures b * c == (b * b) * (b * b)
    ensures b * c * (b * b) == c * c == (b * b) * (b * b) * (b * b)
  {
    var s := b * b;
    ThreeWay(b, s, b);
    ThreeWay(s, b, c);
    ThreeWay(b, c, s);
    assert b * c == s * s;
    assert c * c == (s * b) * c;
  }

  lemma RootGap(b: nat, c: nat, n: int)
    requires b >= 2 && c == b * b * b && n == b * c - c + 1
    ensures n * (b * b) <= (c - 1) * (c - 1) < c * c
  {
    var s := b * b;
    RootSquares(b, c);
    MulMono(b, 2, b);
    MulMono(s, 2, b);
    Distribute(b * c, c - 1, s);
    Distribute(c, 1, s);
    Distribute(c, 1, c - 1);
    Distribute(c, 1, c);
    MulMono(c - 1, 4, s);
  }

  lemma EvenTimes(b: nat, c: nat)
    requires b % 2 == 0
    ensures (b * c) % 2 == 0
  {
    ThreeWay(2, b / 2, c);
  }

  lemma {:induction false} HalfLimb() returns (b: nat)
    requires LIMB_BITS % 2 == 0
    ensures b >= 2 && b % 2 == 0 && BASE == b * b
  {
    hide Pow2;
    var half := LIMB_BITS / 2;
    b := Pow2(half);
    Pow2Add(half, half);
    Pow2Double(half - 1);
  }

  lemma {:induction false} TopBitSet(n: nat)
    requires n < BasePow(2) <= 2 * n
    ensures Normalised(n) && LimbsOf(n) == 2
  {
    hide BasePow, BitWidth;
    BasePowIsPow2(2);
    Pow2Double(2 * LIMB_BITS - 1);
    BitWidthUnique(n, 2 * LIMB_BITS);
    LimbCountExact(2);
  }

  /** For limbs of an even number of bits there is an odd modulus of two limbs for which the remainder is not
      computed: with b the square root of the base it is b^4 - b^3 + 1, and R leaves b^3 - 1. */
  lemma {:induction false} SquareWithoutRoom() returns (n: Positive)
    requires LIMB_BITS % 2 == 0
    ensures n % 2 == 1 && Normalised(n) && LimbsOf(n) == 2
    ensures var r := BasePow(2) % n; r * r >= 0 && !DivisionHasRoom(r * r, n, 0)
    ensures exists b: nat :: BASE == b * b && n == b * b * b * b - b * b * b + 1
  {
    hide BasePow, Normalised, LimbsOf, DivisionHasRoom;
    var b := HalfLimb();
    var c := b * b * b;
    RootModulus(b, c, b * c - c + 1);
    RootSquares(b, c);
    RootGap(b, c, b * c - c + 1);
    n := b * c - c + 1;
    TwoLimbs();
    TopBitSet(n);
    SquareRoomIff(n);
    ThreeWay(b * b, b, b);
    assert n == b * b * b * b - b * b * b + 1;
  }
}
