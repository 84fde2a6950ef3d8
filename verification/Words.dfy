/** Operations on single limbs, with the wrap-around of a machine word written out. */
module Words {
  import opened Arithmetic
  import opened Limbs

  function Bit(b: bool): (r: nat)
    ensures r <= 1
  {
    if b then 1 else 0
  }

  lemma WrapRanges(v: int)
    ensures 0 <= v < BASE ==> v % BASE == v
    ensures BASE <= v < 2 * BASE ==> v % BASE == v - BASE
    ensures -(BASE as int) <= v < 0 ==> v % BASE == v + BASE
  {
    if 0 <= v < BASE {
      DivModUnique(v, BASE, 0, v);
    } else if BASE <= v < 2 * BASE {
      DivModUnique(v, BASE, 1, v - BASE);
    } else if -(BASE as int) <= v < 0 {
      DivModUnique(v, BASE, -1, v + BASE);
    }
  }

  /** What is left of a value in one limb; single additions and subtractions wrap at most once. */
  function Wrap(v: int): (r: Limb)
    ensures 0 <= v < BASE ==> r == v
    ensures BASE <= v < 2 * BASE ==> r == v - BASE
    ensures -(BASE as int) <= v < 0 ==> r == v + BASE
  {
    WrapRanges(v);
    v % BASE
  }

  /** Sum of two limbs and a carry; the carry out is read off from two wrap-around comparisons. */
  function ExtendedAdd(left: Limb, right: Limb, carry: bool): (r: (Limb, bool))
    ensures r.0 + BASE * Bit(r.1) == left + right + Bit(carry)
  {
    var tmpLeft := Wrap(left + Bit(carry));
    var tmpRight := Wrap(right + tmpLeft);
    (tmpRight, left > tmpLeft || right > tmpRight)
  }

  /** Difference of two limbs and a borrow. */
  function SubtractWithBorrow(left: Limb, right: Limb, borrow: bool): (r: (Limb, bool))
    ensures left - right - Bit(borrow) == r.0 - BASE * Bit(r.1)
  {
    var tmpRight := Wrap(right + Bit(borrow));
    var tmpLeft := Wrap(left - tmpRight);
    (tmpLeft, left < tmpLeft || right > tmpRight)
  }

  lemma ProductBound(x: Limb, y: Limb)
    ensures 0 <= x * y <= (BASE - 1) * (BASE - 1)
    ensures (BASE - 1) * (BASE - 1) == BASE * (BASE - 2) + 1
  {
    MulMono(x, 0, y);
    MulMono(x, y, BASE - 1);
    MulMono(BASE - 1, x, BASE - 1);
    Distribute(BASE - 2, 1, BASE - 1);
    Distribute(BASE, 1, BASE - 2);
  }

  lemma QuotientBound(v: nat, b: Positive, q: nat)
    requires v < b * (q + 1)
    ensures 0 <= v / b <= q
  {
    var k := v / b;
    assert v == b * k + v % b;
    if k >= q + 1 {
      MulMono(b, q + 1, k);
    } else if k < 0 {
      MulMono(b, k, -1);
    }
  }

  /** Both halves of a product of two limbs. */
  function ExtendedMultiply(left: Limb, right: Limb): (r: (Limb, Limb))
    ensures r.0 + BASE * r.1 == left * right
    ensures r.1 <= BASE - 2
  {
    var p := left * right;
    ProductBound(left, right);
    assert p < BASE * (BASE - 2 + 1) by { Distribute(BASE - 2, 1, BASE); }
    QuotientBound(p, BASE, BASE - 2);
    (p % BASE, p / BASE)
  }

  lemma MultiplyAddArithmetic(b: nat, lower: nat, upper: nat, s0: nat, c0: nat, s1: nat, c1: nat, x: nat, y: nat, p: nat)
    requires lower + b * upper == p
    requires s0 + b * c0 == lower + x
    requires s1 + b * c1 == s0 + y
    ensures s1 + b * (upper + c0 + c1) == p + x + y
  {
    Distribute(upper + c0, c1, b);
    Distribute(upper, c0, b);
  }

  // A number of at most two limbs has an upper limb below the base.
  lemma UpperFits(b: LimbBase, lower: nat, upper: nat, p: nat, x: nat, y: nat)
    requires lower + b * upper == p + x + y
    requires p <= (b - 1) * (b - 1) && x < b && y < b
    ensures upper < b
  {
    Distribute(b, 1, b - 1);
    if upper >= b {
      MulMono(b, b, upper);
    }
  }

  lemma MultiplyAddFits(left: Limb, right: Limb, lower: nat, upper: nat, s0: nat, c0: nat, s1: nat, c1: nat, x: Limb, y: Limb)
    requires lower + BASE * upper == left * right
    requires s0 + BASE * c0 == lower + x
    requires s1 + BASE * c1 == s0 + y
    ensures s1 + BASE * (upper + c0 + c1) == left * right + x + y
    ensures upper + c0 + c1 < BASE
  {
    var p := left * right;
    ProductBound(left, right);
    MultiplyAddArithmetic(BASE, lower, upper, s0, c0, s1, c1, x, y, p);
    UpperFits(BASE, s1, upper + c0 + c1, p, x, y);
  }

  /** left * right + summand + other always fits two limbs. */
  function ExtendedMultiplyAdd(left: Limb, right: Limb, summand: Limb, other: Limb): (r: (Limb, Limb))
    ensures r.0 + BASE * r.1 == left * right + summand + other
  {
    var (lower, upper) := ExtendedMultiply(left, right);
    var (sum0, carry0) := ExtendedAdd(lower, summand, false);
    var (sum1, carry1) := ExtendedAdd(sum0, other, false);
    MultiplyAddFits(left, right, lower, upper, sum0, Bit(carry0), sum1, Bit(carry1), summand, other);
    (sum1, Wrap(Wrap(upper + Bit(carry0)) + Bit(carry1)))
  }

  /** The lower limb of a product. */
  function MultiplyLow(left: Limb, right: Limb): (r: Limb)
    ensures r == (left * right) % BASE
  {
    (left * right) % BASE
  }

  lemma MultiplyAddWraps(p: int, x: int, lower: nat, upper: int, b: Positive)
    requires p + x == lower + b * upper && lower < b
    ensures (p % b + x % b) % b == lower
  {
    ModAdd(p, x, b);
    ModAdd(p % b, x, b);
    DivModUnique(p + x, b, upper, lower);
  }

  /** Lower limb of left * right + summand + other, used where the result has no limb for the rest. */
  function MultiplyAdd(left: Limb, right: Limb, summand: Limb, other: Limb): (r: Limb)
    ensures r == ExtendedMultiplyAdd(left, right, summand, other).0
  {
    var (lower, upper) := ExtendedMultiplyAdd(left, right, summand, other);
    MultiplyAddWraps(left * right, summand + other, lower, upper, BASE);
    Wrap(MultiplyLow(left, right) + Wrap(summand + other))
  }

  /** Estimated quotient of a two-limb numerator, clamped to the largest limb. */
  function ClampedDivide(lower: Limb, upper: Limb, denominator: Limb): (r: Limb)
    requires denominator != 0
    ensures r * denominator <= lower + BASE * upper
    ensures r == BASE - 1 || lower + BASE * upper < (r + 1) * denominator
  {
    var numerator := lower + BASE * upper;
    var quotient := numerator / denominator;
    assert numerator == quotient * denominator + numerator % denominator;
    assert quotient >= 0 by { if quotient < 0 { MulMono(denominator, quotient, -1); } }
    Distribute(quotient, 1, denominator);
    if quotient > BASE - 1 then
      MulMono(denominator, BASE - 1, quotient);
      BASE - 1
    else
      quotient
  }
}
