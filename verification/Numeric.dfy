/** The number-theoretic operations on whole numbers, with results in buffers of their own. */
module Numeric {
  import opened Arithmetic
  import opened Limbs
  import opened Spans
  import opened Divisibility
  import Division
  import Euclid

  lemma FitsExactly(v: nat, s: Span)
    requires v < Pow2(s.bits)
    ensures v % BasePow(s.LimbSize()) == v
  {
    hide Pow2, BasePow, LimbCount;
    NormalFits(v, s);
    DivModUnique(v, BasePow(s.LimbSize()), 0, v);
  }

  lemma QuotientFits(n: nat, d: Positive, leftBits: nat, rightBits: nat)
    requires n < Pow2(leftBits) && d < Pow2(rightBits)
    ensures 0 <= n / d < Pow2(leftBits) && 0 <= n % d < Pow2(rightBits) && rightBits > 0
    ensures n == (n / d) * d + n % d
  {
    DivModBounds(n, d);
  }

  /** Quotient and remainder, both exact. */
  method Divide(left: Span, right: Span) returns (quotient: Span, remainder: Span)
    requires left.Normal() && right.Normal() && right.Number() > 0
    ensures fresh(quotient.data) && quotient.bits == left.bits && quotient.Normal()
    ensures fresh(remainder.data) && remainder.bits == right.bits && remainder.Normal()
    ensures left.Number() == quotient.Number() * right.Number() + remainder.Number()
    ensures remainder.Number() < right.Number()
  {
    hide Pow2, BasePow, LimbCount, Division.QuotientHasRoom;
    quotient := NewZero(left.bits);
    remainder := NewZero(right.bits);
    ghost var n, d := left.Number(), right.Number();
    QuotientFits(n, d, left.bits, right.bits);
    NormalFits(n / d, quotient);
    Division.RoomForTrueQuotient(n, d, quotient.LimbSize());
    Division.Divide(quotient, remainder, left, right);
    FitsExactly(n / d, quotient);
  }

  lemma {:induction false} GcdBound(a: nat, b: nat, width: nat)
    requires a < Pow2(width) && b < Pow2(width)
    ensures Gcd(a, b) < Pow2(width)
  {
    hide Pow2;
    GcdIsGreatest(a, b);
    var g := Gcd(a, b);
    DivisorBelow(g, a);
    DivisorBelow(g, b);
  }

  lemma DivisorBelow(g: nat, a: nat)
    requires Divides(g, a)
    ensures a > 0 ==> g <= a
    ensures g > 0 || a == 0
  {
    var k := DividesWitness(g, a);
    if a > 0 && g > a {
      if k >= 1 {
        MulMono(g, 1, k);
      } else {
        MulMono(g, k, 0);
      }
    }
  }

  /** The greatest common divisor, exact. */
  method GreatestCommonDivisor(left: Span, right: Span) returns (result: Span)
    requires left.Normal() && right.Normal()
    ensures fresh(result.data) && result.bits == Max(left.bits, right.bits) && result.Normal()
    ensures result.Number() == Gcd(left.Number(), right.Number())
  {
    hide Pow2, BasePow, LimbCount, Gcd;
    result := NewZero(Max(left.bits, right.bits));
    Pow2Mono(left.bits, result.bits);
    Pow2Mono(right.bits, result.bits);
    GcdBound(left.Number(), right.Number(), result.bits);
    Euclid.GreatestCommonDivisor(result, left, right);
    FitsExactly(Gcd(left.Number(), right.Number()), result);
  }

  /** The inverse of a number that has one. */
  method InvertModulo(value: Span, modulus: Span) returns (inverse: Span)
    requires value.Normal() && modulus.Normal() && modulus.Number() > 0
    requires Gcd(value.Number(), modulus.Number()) == 1
    ensures fresh(inverse.data) && inverse.bits == modulus.bits && inverse.Normal()
    ensures inverse.Number() <= modulus.Number()
    ensures Congruent(inverse.Number() * value.Number(), 1, modulus.Number())
  {
    hide Pow2, BasePow, LimbCount, Gcd, Euclid.Extended, Congruent;
    ghost var a, n := value.Number(), modulus.Number();
    Euclid.ExtendedIsBezout(a, n);
    assert modulus.bits > 0 by { Pow2Small(); }
    var greatestCommonDivisor := NewZero(Max(value.bits, modulus.bits));
    inverse := NewZero(modulus.bits);
    var unused := NewZero(0);
    Euclid.ExtendedEuclidean(greatestCommonDivisor, inverse, unused, value, modulus);
    FitsExactly(Euclid.Extended(a, n).1, inverse);
  }
}
