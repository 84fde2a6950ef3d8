/** Multi-precision Montgomery reduction. */
module Montgomery {
  import opened Arithmetic
  import opened Limbs
  import opened Words
  import opened Spans
  import opened Chains
  import opened Multiplication
  import opened Division
  import opened Divisibility
  import Shifts

  // The reduction on numbers

  /** The multiple of the modulus that clears limb i of u. */
  function Factor(u: nat, inverse: Limb, i: nat): (m: Limb) {
    Shifts.DivideNat(u, BasePow(i));
    MultiplyLow((u / BasePow(i)) % BASE, inverse)
  }

  /** The number after the first i rounds. */
  function AfterRounds(t: nat, n: nat, inverse: Limb, i: nat): (u: nat) {
    if i == 0 then
      t
    else
      var u := AfterRounds(t, n, inverse, i - 1);
      var m := Factor(u, inverse, i - 1);
      MulMono(n, 0, m);
      MulMono(BasePow(i - 1), 0, m * n);
      u + (m * n) * BasePow(i - 1)
  }

  /** Result of the reduction of t with r rounds: the upper limbs, less the modulus if they reach it. */
  function Reduce(t: nat, n: nat, inverse: Limb, r: nat): int {
    var s := AfterRounds(t, n, inverse, r) / BasePow(r);
    if s >= n then s - n else s
  }

  /** What the reduction needs of the modulus and of the precomputed limb. */
  ghost predicate IsNegatedInverse(n: nat, inverse: Limb) {
    (n * inverse + 1) % BASE == 0
  }

  lemma ClearsLimb(h: int, n: nat, inverse: nat, b: Positive)
    requires (n * inverse + 1) % b == 0
    ensures (h + (((h % b) * inverse) % b) * n) % b == 0
  {
    var m := ((h % b) * inverse) % b;
    // m * n is h * inverse * n modulo b
    ModMul((h % b) * inverse, n, b);
    ModMul(h, inverse * n, b);
    ThreeWay(h % b, inverse, n);
    ThreeWay(h, inverse, n);
    ThreeWay(n, inverse, 1);
    assert (m * n) % b == (h * (inverse * n)) % b;
    Distribute(n * inverse, 1, h);
    ModMul(n * inverse + 1, h, b);
    assert (h * (inverse * n) + h) % b == 0 by { DivModUnique(0, b, 0, 0); ThreeWay(inverse * n, h, 1); }
    ModAdd(m * n, h, b);
    ModAdd(h * (inverse * n), h, b);
  }

  /** After i rounds the low i limbs are zero, the number has changed by a multiple of the modulus, and it
      has grown by less than that power of the base times the modulus. */
  lemma {:induction false} RoundsInvariant(t: nat, n: nat, inverse: Limb, i: nat) returns (k: nat)
    requires IsNegatedInverse(n, inverse)
    ensures AfterRounds(t, n, inverse, i) % BasePow(i) == 0
    ensures AfterRounds(t, n, inverse, i) == t + k * n && k < BasePow(i)
  {
    if i == 0 {
      k := 0;
      BasePowOne();
    } else {
      hide BasePow;
      var p := BasePow(i - 1);
      k := RoundsInvariant(t, n, inverse, i - 1);
      var u := AfterRounds(t, n, inverse, i - 1);
      var h := u / p;
      var m := Factor(u, inverse, i - 1);
      RoundDivisible(u, h, m, n, inverse, p);
      BasePowStrict(i - 1, i);
      ThreeWay(m, n, p);
      Distribute(k, m * p, n);
      TopDigitBound(k, m, p, BASE);
      MulMono(p, 0, m);
      k := k + m * p;
    }
  }

  lemma RoundDivisible(u: nat, h: int, m: nat, n: nat, inverse: Limb, p: Positive)
    requires u % p == 0 && h == u / p && m == ((h % BASE) * inverse) % BASE
    requires (n * inverse + 1) % BASE == 0
    ensures BASE * p >= 1 && (u + (m * n) * p) % (BASE * p) == 0
  {
    ClearsLimb(h, n, inverse, BASE);
    Distribute(h, m * n, p);
    var q := (h + m * n) / BASE;
    assert h + m * n == q * BASE;
    assert u == h * p;
    ThreeWay(q, BASE, p);
    MulMono(BASE, 1, p);
    DivModUnique(u + (m * n) * p, BASE * p, q, 0);
  }

  lemma ReducedBound(t: nat, n: Positive, k: nat, p: Positive, s: int)
    requires t + k * n == s * p && t < p * n && k < p
    ensures 0 <= s < 2 * n
  {
    MulMono(n, k + 1, p);
    Distribute(k, 1, n);
    ThreeWay(p, n, 1);
    assert s * p < (2 * n) * p by { ThreeWay(2, n, p); }
    if s >= 2 * n {
      MulMono(p, 2 * n, s);
    } else if s < 0 {
      MulMono(p, s, -1);
    }
  }

  /** The reduction returns the representative below n of t divided by the r-th power of the base. */
  lemma {:induction false} ReduceCorrect(t: nat, n: Positive, inverse: Limb, r: nat)
    requires IsNegatedInverse(n, inverse) && t < BasePow(r) * n
    ensures 0 <= Reduce(t, n, inverse, r) < n
    ensures Congruent(Reduce(t, n, inverse, r) * BasePow(r), t, n)
    ensures 0 <= AfterRounds(t, n, inverse, r) / BasePow(r) < 2 * n
    ensures AfterRounds(t, n, inverse, r) == (AfterRounds(t, n, inverse, r) / BasePow(r)) * BasePow(r)
  {
    hide BasePow, AfterRounds;
    var p := BasePow(r);
    var k := RoundsInvariant(t, n, inverse, r);
    var u := AfterRounds(t, n, inverse, r);
    QuotientAndRemainder(u, p);
    var s := u / p;
    ReducedBound(t, n, k, p, s);
    var x := Reduce(t, n, inverse, r);
    var c := if s >= n then 1 else 0;
    assert x == s - c * n;
    ReduceWitness(s, c, n, p, t, k, x);
    DividesMultiple(n, k - c * p);
  }

  lemma ReduceWitness(s: int, c: int, n: int, p: int, t: int, k: int, x: int)
    requires t + k * n == s * p && x == s - c * n
    ensures x * p - t == (k - c * p) * n
  {
    Distribute(s, c * n, p);
    ThreeWay(c, n, p);
    ThreeWay(c, p, n);
    Distribute(k, c * p, n);
  }

  // The reduction over buffers

  lemma {:induction false} DigitOfValue(s: seq<Limb>, i: nat)
    ensures Value(s) / BasePow(i) >= 0 && Digit(s, i) == (Value(s) / BasePow(i)) % BASE
  {
    hide BasePow;
    LowStep(s, i);
    LowBound(s, i);
    var h := UpperLimbs(s, i + 1);
    BasePowStrict(i, i + 1);
    ThreeWay(BASE, BasePow(i), h);
    Distribute(Digit(s, i), BASE * h, BasePow(i));
    ThreeWay(BASE, h, BasePow(i));
    MulMono(BASE, 0, h);
    DivModUnique(Value(s), BasePow(i), Digit(s, i) + BASE * h, Low(s, i));
    ThreeWay(BASE, h, 1);
    DivModUnique(Digit(s, i) + BASE * h, BASE, h, Digit(s, i));
  }

  lemma SymmetricMultiplyAdd(x: Limb, y: Limb, summand: Limb, other: Limb)
    ensures ExtendedMultiplyAdd(x, y, summand, other) == ExtendedMultiplyAdd(y, x, summand, other)
  {
    hide ExtendedMultiplyAdd;
    var (a, b) := ExtendedMultiplyAdd(x, y, summand, other);
    var (c, d) := ExtendedMultiplyAdd(y, x, summand, other);
    assert x * y == y * x;
    SameSplit(BASE, b, a, d, c);
  }

  // Two limbs are determined by their value.
  lemma SameSplit(base: Positive, upper: nat, lower: nat, otherUpper: nat, otherLower: nat)
    requires lower < base && otherLower < base
    requires upper * base + lower == otherUpper * base + otherLower
    ensures upper == otherUpper && lower == otherLower
  {
    DivModUnique(upper * base + lower, base, upper, lower);
    DivModUnique(upper * base + lower, base, otherUpper, otherLower);
  }

  lemma AddIsMultiplyAdd(digit: Limb, summand: Limb, other: Limb)
    ensures ExtendedMultiplyAdd(0, digit, summand, other)
         == (ExtendedAdd(summand, other, false).0, Bit(ExtendedAdd(summand, other, false).1))
  {
    hide ExtendedMultiplyAdd, ExtendedAdd;
    var (a, b) := ExtendedMultiplyAdd(0, digit, summand, other);
    var (c, d) := ExtendedAdd(summand, other, false);
    SplitDivMod(summand + other, BASE, b, a);
    SplitDivMod(summand + other, BASE, Bit(d), c);
  }

  lemma {:induction false} RowComplete(p: seq<Limb>, carry: Limb, base: seq<Limb>, l: seq<Limb>, digit: Limb, i: nat)
    requires IsRow(p, carry, 0, base, l, digit, i, |base|) && |p| == |base| && i + |l| <= |p|
    requires Value(base) + (digit * Value(l)) * BasePow(i) < BasePow(|base|)
    ensures carry == 0 && Value(p) == Value(base) + (digit * Value(l)) * BasePow(i)
  {
    hide BasePow;
    if carry >= 1 {
      MulMono(BasePow(|base|), 1, carry);
    }
  }

  /** One round: adds factor * modulus at limb i and carries on to the top limb. */
  method ReduceRound(T: Span, modulus: Span, factor: Limb, i: nat)
    requires T.InBounds() && modulus.InBounds() && T.data != modulus.data
    requires i + modulus.LimbSize() <= T.LimbSize()
    requires 0 <= T.Number() + (factor * modulus.Number()) * BasePow(i) < BasePow(T.LimbSize())
    modifies T.data
    ensures T.Number() == old(T.Number()) + (factor * modulus.Number()) * BasePow(i)
  {
    hide LimbCount, IsRow, ExtendedMultiplyAdd, ExtendedAdd, BasePow;
    var size := T.LimbSize();
    var p := modulus.LimbSize();
    ghost var base, l := T.Content(), modulus.Content();
    ghost var w := base[..i];
    var carry: Limb := 0;
    IsRowStart(base, l, factor, i, size);
    for j := 0 to p
      invariant |w| == i + j && forall k :: 0 <= k < |w| ==> T.data[T.offset + k] == w[k]
      invariant forall k :: |w| <= k < size ==> T.data[T.offset + k] == base[k]
      invariant IsRow(w, carry, 0, base, l, factor, i, size)
    {
      var k := i + j;
      var x, current := modulus.Read(j), T.data[T.offset + k];
      assert x == Digit(l, j) && current == Digit(base, k);
      IsRowStep(w, carry, base, l, factor, i, size);
      SymmetricMultiplyAdd(x, factor, current, carry);
      var (lower, upper) := ExtendedMultiplyAdd(factor, x, current, carry);
      T.data[T.offset + k] := lower;
      w := w + [lower];
      carry := upper;
    }
    for k := i + p to size
      invariant |w| == k && forall m :: 0 <= m < |w| ==> T.data[T.offset + m] == w[m]
      invariant forall m :: |w| <= m < size ==> T.data[T.offset + m] == base[m]
      invariant IsRow(w, carry, 0, base, l, factor, i, size)
    {
      var current := T.data[T.offset + k];
      assert current == Digit(base, k) && Digit(l, k - i) == 0;
      IsRowStep(w, carry, base, l, factor, i, size);
      AddIsMultiplyAdd(factor, current, carry);
      var (sum, newCarry) := ExtendedAdd(current, carry, false);
      T.data[T.offset + k] := sum;
      w := w + [sum];
      carry := Bit(newCarry);
    }
    assert T.Content() == w;
    RowComplete(w, carry, base, l, factor, i);
  }

  /** What fits before round i + 1 fits the buffer after it. */
  lemma {:induction false} RoundFits(t: nat, n: Positive, inverse: Limb, i: nat, r: nat, p: nat)
    requires IsNegatedInverse(n, inverse) && t < BasePow(r) * n && i < r && n < BasePow(p)
    ensures var u := AfterRounds(t, n, inverse, i);
            0 <= u + (Factor(u, inverse, i) * n) * BasePow(i) == AfterRounds(t, n, inverse, i + 1) < BasePow(r + p + 1)
  {
    hide BasePow, Factor;
    RoundBound(t, n, inverse, i + 1, r, p);
  }

  lemma {:induction false} RoundBound(t: nat, n: Positive, inverse: Limb, i: nat, r: nat, p: nat)
    requires IsNegatedInverse(n, inverse) && t < BasePow(r) * n && i <= r && n < BasePow(p)
    ensures AfterRounds(t, n, inverse, i) < BasePow(r + p + 1)
  {
    hide BasePow, AfterRounds;
    var k := RoundsInvariant(t, n, inverse, i);
    BasePowMono(i, r);
    BasePowAdd(r, p);
    BasePowStrict(r + p, r + p + 1);
    BelowTwice(t, n, k, BasePow(r), BasePow(p));
  }

  lemma BelowTwice(t: nat, n: nat, k: nat, r: nat, p: nat)
    requires t < r * n && k < r && n < p
    ensures t + k * n < 2 * (r * p)
  {
    MulMono(n, k, r);
    ThreeWay(n, r, 1);
    MulMono(r, n, p);
  }

  /** The reduction in place over r + p + 1 limbs.  Masking the modulus is choosing between it and zero. */
  method MontgomeryReduce(result: Span, value: Span, modulus: Span, r: nat, inverse: Limb)
    requires result.InBounds() && value.InBounds() && modulus.InBounds() && result.data != modulus.data
    requires IsNegatedInverse(modulus.Number(), inverse) && modulus.Number() > 0
    requires value.Number() < BasePow(r) * modulus.Number()
    modifies result.data
    ensures OnlyWithin(result)
    ensures var x := Reduce(old(value.Number()), modulus.Number(), inverse, r);
            0 <= x < modulus.Number() && result.Number() == x % BasePow(result.LimbSize())
  {
    hide LimbCount, BasePow, AfterRounds, Factor, IsNegatedInverse, IsDifference;
    ghost var t, n := value.Number(), modulus.Number();
    var p := modulus.LimbSize();
    var T := NewLimbs(r + p + 1);
    ValueBound(modulus.Content());
    CopyFits(t, n, r, p, value.Content());
    BitCopy(T, value);
    ReduceRounds(T, modulus, r, inverse);
    FinishReduce(result, T, modulus, r, t, inverse);
  }

  /** All rounds, in place. */
  method ReduceRounds(T: Span, modulus: Span, r: nat, inverse: Limb)
    requires T.InBounds() && modulus.InBounds() && T.data != modulus.data
    requires T.LimbSize() == r + modulus.LimbSize() + 1
    requires IsNegatedInverse(modulus.Number(), inverse) && modulus.Number() > 0
    requires T.Number() < BasePow(r) * modulus.Number()
    modifies T.data
    ensures T.Number() == AfterRounds(old(T.Number()), modulus.Number(), inverse, r)
  {
    hide LimbCount, BasePow, AfterRounds, Factor, IsNegatedInverse, MultiplyLow;
    ghost var t, n := T.Number(), modulus.Number();
    ValueBound(modulus.Content());
    RoundsZero(t, n, inverse);
    for i := 0 to r
      invariant T.Number() == AfterRounds(t, n, inverse, i)
    {
      RoundFits(t, n, inverse, i, r, modulus.LimbSize());
      DigitOfValue(T.Content(), i);
      assert T.Read(i) == Digit(T.Content(), i);
      var m := MultiplyLow(T.Read(i), inverse);
      FactorIs(T.Number(), inverse, i);
      ReduceRound(T, modulus, m, i);
    }
  }

  lemma RoundsZero(t: nat, n: nat, inverse: Limb)
    ensures AfterRounds(t, n, inverse, 0) == t
  {
  }

  lemma FactorIs(u: nat, inverse: Limb, i: nat)
    ensures u / BasePow(i) >= 0 && Factor(u, inverse, i) == MultiplyLow((u / BasePow(i)) % BASE, inverse)
  {
    Shifts.DivideNat(u, BasePow(i));
  }

  method NewLimbs(n: nat) returns (s: Span)
    ensures fresh(s.data) && s.InBounds() && s.LimbSize() == n && s.bits == n * LIMB_BITS && s.Number() == 0
    ensures s.offset == 0 && s.data.Length == n
  {
    LimbCountExact(n);
    MulMono(LIMB_BITS, 0, n);
    s := NewZero(n * LIMB_BITS);
  }

  lemma {:induction false} CopyFits(t: nat, n: nat, r: nat, p: nat, s: seq<Limb>)
    requires t == Value(s) && t < BasePow(r) * n && n < BasePow(p)
    ensures Low(s, r + p + 1) == t
  {
    hide BasePow;
    MulMono(BasePow(r), n, BasePow(p));
    BasePowAdd(r, p);
    BasePowMono(r + p, r + p + 1);
    LowIsMod(s, r + p + 1);
    DivModUnique(t, BasePow(r + p + 1), 0, t);
  }

  // Keeps the upper limbs and subtracts the modulus once if they reach it.
  method FinishReduce(result: Span, T: Span, modulus: Span, r: nat, ghost t: nat, ghost inverse: Limb)
    requires result.InBounds() && T.InBounds() && modulus.InBounds()
    requires result.data != modulus.data && result.data != T.data
    requires T.bits == T.LimbSize() * LIMB_BITS && r <= T.LimbSize()
    requires IsNegatedInverse(modulus.Number(), inverse) && modulus.Number() > 0
    requires t < BasePow(r) * modulus.Number() && T.Number() == AfterRounds(t, modulus.Number(), inverse, r)
    modifies result.data
    ensures OnlyWithin(result)
    ensures var x := Reduce(t, modulus.Number(), inverse, r);
            0 <= x < modulus.Number() && result.Number() == x % BasePow(result.LimbSize())
  {
    hide LimbCount, BasePow, AfterRounds, IsNegatedInverse, IsDifference;
    ghost var n := modulus.Number();
    ReduceCorrect(t, n, inverse, r);
    ValueBound(T.Content());
    BasePowIsPow2(T.LimbSize());
    SubspanNumber(T, r);
    var S := T.Subspan(r);
    var reaches := CompareFold(GreaterEqual, S, modulus);
    var empty := NewNull();
    var masked := if reaches then modulus else empty;
    ghost var s, m := S.Content(), masked.Content();
    var borrow := Subtract(result, S, masked, false);
    DifferenceModulo(result.Content(), borrow, s, m);
  }
}
