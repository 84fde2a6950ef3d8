/** The residue operations on limb buffers.  A result may share its storage with an operand, as it does in
    the assignment forms. */
module ResidueBuffers {
  import opened Arithmetic
  import opened Limbs
  import opened Words
  import opened Spans
  import opened Chains
  import opened Multiplication
  import opened Division
  import opened Montgomery
  import opened Divisibility
  import opened Euclid
  import opened Residues

  // A span sized for a residue of the modulus.
  ghost predicate Sized(m: Modulus, s: Span) {
    s.InBounds() && s.bits == BitWidth(Max(0, m.n - 1)) && s.LimbSize() == m.limbs
  }

  ghost predicate Stored(m: Modulus, s: Span)
    reads s.data
  {
    Sized(m, s) && s.Number() < m.n
  }

  ghost predicate IsModulus(m: Modulus, modulus: Span)
    reads modulus.data
  {
    m.Valid() && modulus.InBounds() && modulus.Number() == m.n
  }

  lemma {:induction false} ResidueFits(m: Modulus, v: nat, bits: nat)
    requires bits == BitWidth(Max(0, m.n - 1)) && v < m.n
    ensures v < Pow2(bits) && v < BasePow(LimbCount(bits))
    ensures 2 * v < Pow2(bits + 1)
  {
    hide LimbCount, BasePow, Pow2, BitWidth;
    BitWidthBounds(m.n - 1);
    FitsLimbs(v, bits);
    Pow2Double(bits);
  }

  // Exact values of a sum and of a difference.
  method AddExact(result: Span, left: Span, right: Span)
    requires result.InBounds() && left.InBounds() && right.InBounds()
    requires left.SameOrApart(result) && right.SameOrApart(result)
    modifies result.data
    ensures OnlyWithin(result)
    ensures result.Number() == (old(left.Number()) + old(right.Number())) % BasePow(result.LimbSize())
  {
    hide LimbCount, BasePow, IsSum;
    ghost var s, t := left.Content(), right.Content();
    var carry := Add(result, left, right, false);
    SumModulo(result.Content(), carry, s, t);
  }

  lemma {:induction false} SumModulo(w: seq<Limb>, carry: bool, l: seq<Limb>, r: seq<Limb>)
    requires IsSum(w, carry, l, r, false)
    ensures Value(w) == (Value(l) + Value(r)) % BasePow(|w|)
  {
    hide BasePow;
    var p := BasePow(|w|);
    LowIsMod(l, |w|);
    LowIsMod(r, |w|);
    ValueBound(w);
    ModAdd(Value(l), Value(r), p);
    ModAdd(Value(l) % p, Value(r), p);
    DivModUnique(Value(l) % p + Value(r) % p, p, Bit(carry), Value(w));
  }

  method SubtractExact(result: Span, left: Span, right: Span) returns (borrow: bool)
    requires result.InBounds() && left.InBounds() && right.InBounds()
    requires left.SameOrApart(result) && right.SameOrApart(result)
    requires left.Number() < BasePow(result.LimbSize()) && right.Number() < BasePow(result.LimbSize())
    modifies result.data
    ensures OnlyWithin(result)
    ensures borrow <==> old(left.Number()) < old(right.Number())
    ensures result.Number() == old(left.Number()) - old(right.Number()) + Bit(borrow) * BasePow(result.LimbSize())
  {
    hide LimbCount, BasePow, IsDifference;
    ghost var s, t := left.Content(), right.Content();
    borrow := Subtract(result, left, right, false);
    DifferenceFits(result.Content(), borrow, s, t);
  }

  lemma KeepsSmall(v: nat, p: nat)
    requires v < p
    ensures v % p == v
  {
    DivModUnique(v, p, 0, v);
  }

  /** left + right, with the comparison against the modulus read off from the borrow.  If the sum needs
      another limb, the difference is formed there as well. */
  method AddResidues(m: Modulus, result: Span, left: Span, right: Span, modulus: Span)
    requires IsModulus(m, modulus) && Stored(m, left) && Stored(m, right) && Sized(m, result)
    requires left.SameOrApart(result) && right.SameOrApart(result) && modulus.data != result.data
    modifies result.data
    ensures OnlyWithin(result)
    ensures Stored(m, result) && result.Number() == m.Plus(old(left.Number()), old(right.Number()))
  {
    hide LimbCount, BasePow, Pow2, BitWidth, IsNegatedInverse;
    ghost var a, b := left.Number(), right.Number();
    var sum := NewZero(result.bits + 1);
    ResidueFits(m, a, result.bits);
    ResidueFits(m, b, result.bits);
    FitsLimbs(a + b, result.bits + 1);
    LimbCountMono(result.bits, result.bits + 1);
    BasePowMono(result.LimbSize(), sum.LimbSize());
    AddExact(sum, left, right);
    KeepsSmall(a + b, BasePow(sum.LimbSize()));
    SelectReduced(m, result, sum, modulus);
  }

  lemma {:induction false} ModulusBelow(m: Modulus)
    requires m.Valid()
    ensures m.n < BasePow(m.limbs)
  {
    ModulusOdd(m);
    if m.limbs > 0 {
      ThreeWay(Pow2(LIMB_BITS - 1), 2, BasePow(m.limbs - 1));
      assert BasePow(m.limbs) == 2 * (Pow2(LIMB_BITS - 1) * BasePow(m.limbs - 1));
    }
  }

  // Chooses between the sum and the sum less the modulus.
  method SelectReduced(m: Modulus, result: Span, sum: Span, modulus: Span)
    requires IsModulus(m, modulus) && Sized(m, result) && sum.InBounds() && sum.bits == result.bits + 1
    requires sum.Number() < 2 * m.n && sum.Number() < BasePow(sum.LimbSize())
    requires result.LimbSize() <= sum.LimbSize()
    requires modulus.data != result.data && sum.data != result.data
    modifies result.data
    ensures OnlyWithin(result)
    ensures Stored(m, result)
    ensures result.Number() == if sum.Number() < m.n then sum.Number() else sum.Number() - m.n
  {
    hide LimbCount, BasePow, Pow2, BitWidth, IsNegatedInverse;
    ghost var c := sum.Number();
    ModulusBelow(m);
    BasePowMono(result.LimbSize(), sum.LimbSize());
    ghost var chosen := if c < m.n then c else c - m.n;
    KeepsSmall(chosen, BasePow(result.LimbSize()));
    if sum.LimbSize() == result.LimbSize() {
      var underflow := SubtractExact(result, sum, modulus);
      LowIsMod(sum.Content(), result.LimbSize());
      LowIsMod(result.Content(), result.LimbSize());
      Select(result, result, sum, underflow);
    } else {
      var difference := NewZero(sum.bits);
      var underflow := SubtractExact(difference, sum, modulus);
      LowIsMod(sum.Content(), result.LimbSize());
      LowIsMod(difference.Content(), result.LimbSize());
      Select(result, difference, sum, underflow);
    }
  }

  /** left - right; the modulus is added back after a borrow, by masking it with the borrow. */
  method SubtractResidues(m: Modulus, result: Span, left: Span, right: Span, modulus: Span)
    requires IsModulus(m, modulus) && Stored(m, left) && Stored(m, right) && Sized(m, result)
    requires modulus.data != result.data
    modifies result.data
    ensures OnlyWithin(result)
    ensures Stored(m, result) && result.Number() == m.Minus(old(left.Number()), old(right.Number()))
  {
    hide LimbCount, BasePow, Pow2, BitWidth, IsNegatedInverse;
    ghost var a, b := left.Number(), right.Number();
    var difference := NewZero(result.bits);
    ModulusBelow(m);
    var underflow := SubtractExact(difference, left, right);
    var empty := NewNull();
    var masked := if underflow then modulus else empty;
    AddExact(result, difference, masked);
    ghost var p := BasePow(m.limbs);
    if underflow {
      DivModUnique(a - b + p + m.n, p, 1, a - b + m.n);
    } else {
      KeepsSmall(a - b, p);
    }
  }

  /** -value, keeping zero at zero. */
  method NegateResidue(m: Modulus, result: Span, value: Span, modulus: Span)
    requires IsModulus(m, modulus) && Stored(m, value) && Sized(m, result)
    requires value.SameOrApart(result) && modulus.data != result.data
    modifies result.data
    ensures OnlyWithin(result)
    ensures Stored(m, result) && result.Number() == m.Negate(old(value.Number()))
  {
    hide LimbCount, BasePow, Pow2, BitWidth, IsNegatedInverse;
    ModulusBelow(m);
    var empty := NewNull();
    var nonzero := CompareNotEqual(value, empty);
    var masked := if nonzero then modulus else empty;
    var borrow := SubtractExact(result, masked, value);
  }

  // The product of a number and a number below the modulus, of both sizes together.
  method DoubleProduct(m: Modulus, left: Span, right: Span) returns (product: Span)
    requires m.n >= 2 && left.Normal() && right.InBounds()
    requires right.bits == BitWidth(Max(0, m.n - 1)) && right.Number() < m.n
    ensures fresh(product.data) && product.InBounds()
    ensures product.Number() == left.Number() * right.Number()
  {
    hide LimbCount, BasePow, Pow2, BitWidth;
    ghost var a, b := left.Number(), right.Number();
    product := NewZero(left.bits + right.bits);
    ResidueFits(m, b, right.bits);
    BitWidthBounds(m.n - 1);
    LimbCountBounds(right.bits);
    assert right.LimbSize() > 0;
    ProductFitsBits(a, b, left.bits, right.bits);
    FitsLimbs(a * b, left.bits + right.bits);
    Multiply(product, left, right);
    KeepsSmall(a * b, BasePow(product.LimbSize()));
  }

  /** left * right: the double-size product, reduced. */
  method MultiplyResidues(m: Modulus, result: Span, left: Span, right: Span, modulus: Span)
    requires IsModulus(m, modulus) && Stored(m, left) && Stored(m, right) && Sized(m, result)
    requires modulus.data != result.data
    modifies result.data
    ensures OnlyWithin(result)
    ensures Stored(m, result) && result.Number() == m.Times(old(left.Number()), old(right.Number()))
  {
    hide LimbCount, BasePow, Pow2, BitWidth, IsNegatedInverse, Reduce;
    ghost var a, b := left.Number(), right.Number();
    ProductBelow(a, b, m.n, m.R());
    ResidueFits(m, a, left.bits);
    var product := DoubleProduct(m, left, right);
    MontgomeryReduce(result, product, modulus, m.limbs, m.inverse);
    ModulusBelow(m);
    KeepsSmall(Reduce(a * b, m.n, m.inverse, m.limbs), BasePow(m.limbs));
  }

  /** Reads a residue back as an unsigned integer. */
  method ToUnsigned(m: Modulus, result: Span, value: Span, modulus: Span)
    requires IsModulus(m, modulus) && Stored(m, value) && Sized(m, result)
    requires modulus.data != result.data
    modifies result.data
    ensures OnlyWithin(result)
    ensures result.Number() == Unsigned(m, old(value.Number()))
  {
    hide LimbCount, BasePow, Pow2, BitWidth, IsNegatedInverse, Reduce;
    ghost var a := value.Number();
    MulMono(m.n, 1, m.R());
    ThreeWay(m.n, m.R(), 1);
    MontgomeryReduce(result, value, modulus, m.limbs, m.inverse);
    ModulusBelow(m);
    KeepsSmall(Reduce(a, m.n, m.inverse, m.limbs), BasePow(m.limbs));
  }

  /** Stores an unsigned integer.  The factor is R^2, or R' * R^2 for an integer with more limbs than the
      modulus, which is reduced twice. */
  method StoreUnsigned(m: Modulus, result: Span, value: Span, modulus: Span, factor: Span)
    requires IsModulus(m, modulus) && value.Normal() && Sized(m, result)
    requires Stored(m, factor)
    requires factor.Number() == if value.bits <= m.limbs * LIMB_BITS then SquareOfR(m) else OtherTimesSquare(m, value.LimbSize())
    requires modulus.data != result.data && factor.data != result.data
    modifies result.data
    ensures OnlyWithin(result)
    ensures Stored(m, result) && result.Number() == FromUnsigned(m, old(value.Number()), value.bits)
  {
    hide LimbCount, BasePow, Pow2, BitWidth, IsNegatedInverse, Reduce, SquareOfR, OtherTimesSquare;
    ghost var v, f, r := value.Number(), factor.Number(), m.R();
    ModulusBelow(m);
    if value.bits <= m.limbs * LIMB_BITS {
      BasePowIsPow2(m.limbs);
      Pow2Mono(value.bits, m.limbs * LIMB_BITS);
      ProductBelow(v, f, m.n, r);
      var product := DoubleProduct(m, value, factor);
      MontgomeryReduce(result, product, modulus, m.limbs, m.inverse);
      KeepsSmall(Reduce(v * f, m.n, m.inverse, m.limbs), r);
    } else {
      ghost var p := BasePow(value.LimbSize());
      FitsLimbs(v, value.bits);
      MulMono(p, 1, m.n);
      MontgomeryReduce(result, value, modulus, value.LimbSize(), m.inverse);
      ghost var y := Reduce(v, m.n, m.inverse, value.LimbSize());
      KeepsSmall(y, r);
      ProductBelow(y, f, m.n, r);
      ResidueFits(m, y, result.bits);
      var product := DoubleProduct(m, result, factor);
      MontgomeryReduce(result, product, modulus, m.limbs, m.inverse);
      KeepsSmall(Reduce(y * f, m.n, m.inverse, m.limbs), r);
    }
  }

  /** Inverts a residue: cofactor times R^3, reduced.  The operand and the modulus have to be coprime. */
  method InvertResidue(m: Modulus, result: Span, value: Span, modulus: Span, cube: Span)
    requires IsModulus(m, modulus) && modulus.Normal() && Stored(m, value) && value.Normal() && Sized(m, result)
    requires Stored(m, cube) && cube.Number() == CubeOfR(m)
    requires Gcd(value.Number(), m.n) == 1
    requires modulus.data != result.data
    modifies result.data
    ensures OnlyWithin(result)
    ensures Stored(m, result) && result.Number() == Invert(m, old(value.Number()))
  {
    hide LimbCount, BasePow, Pow2, BitWidth, IsNegatedInverse, Reduce, Gcd, Extended, CubeOfR;
    ghost var a := value.Number();
    ghost var x, c := Extended(a, m.n).1, CubeOfR(m);
    ExtendedIsBezout(a, m.n);
    CofactorBelow(m, a, x);
    var divisor := NewZero(result.bits);
    var inverse := NewZero(result.bits);
    var empty := NewNull();
    LimbCountOfPositive(modulus);
    ExtendedEuclidean(divisor, inverse, empty, value, modulus);
    ModulusBelow(m);
    KeepsSmall(x, BasePow(m.limbs));
    ProductBelow(x, c, m.n, m.R());
    ResidueFits(m, x, inverse.bits);
    var product := DoubleProduct(m, inverse, cube);
    MontgomeryReduce(result, product, modulus, m.limbs, m.inverse);
    KeepsSmall(Reduce(x * c, m.n, m.inverse, m.limbs), BasePow(m.limbs));
  }

  lemma LimbCountOfPositive(s: Span)
    requires s.Normal() && s.Number() > 0
    ensures s.bits > 0
  {
    hide Value;
    Pow2Small();
  }

  // The modulus itself is not a cofactor that gives one.
  lemma {:induction false} CofactorBelow(m: Modulus, a: nat, x: int)
    requires m.n >= 2 && 0 <= x <= m.n && Congruent(x * a, 1, m.n)
    ensures x < m.n
  {
    hide Divides;
    if x == m.n {
      CongruentMultiple(0, a, m.n);
      CongruentSym(m.n * a, 1, m.n);
      CongruentTrans(1, m.n * a, 0, m.n);
      CongruentUnique(1, 0, m.n);
    }
  }
}
