/** Long division of multi-limb numbers.  The denominator is first shifted so that the top bit of its top
    limb is set; then one quotient limb is found at a time from an estimate that is at most two too large.
    The remainder may share its storage with the numerator. */
module Division {
  import opened Arithmetic
  import opened Limbs
  import opened Words
  import opened Spans
  import opened Chains
  import opened Shifts
  import opened Multiplication

  /** Number of limbs a value occupies. */
  function LimbsOf(v: nat): nat {
    LimbCount(BitWidth(v))
  }

  /** The top bit of the top limb is set. */
  ghost predicate Normalised(d: nat) {
    d > 0 && BitWidth(d) == LimbsOf(d) * LIMB_BITS
  }

  lemma NormalisedBounds(d: nat)
    requires Normalised(d)
    ensures LimbsOf(d) >= 1
    ensures BasePow(LimbsOf(d)) <= 2 * d
    ensures d < BasePow(LimbsOf(d))
  {
    hide Pow2, BasePow, LimbCount, BitWidth;
    var n := LimbsOf(d);
    assert n < 1 ==> n * LIMB_BITS == 0;
    BitWidthBounds(d);
    BasePowIsPow2(n);
    Pow2Double(n * LIMB_BITS - 1);
  }

  lemma LimbsOfBounds(v: nat)
    ensures v < BasePow(LimbsOf(v))
    ensures v > 0 ==> LimbsOf(v) > 0 && BasePow(LimbsOf(v) - 1) <= v
    ensures v == 0 ==> LimbsOf(v) == 0
  {
    hide BasePow, LimbCount, BitWidth;
    LimbCountOfValue(v, 0);
    LimbCountOfValue(v, LimbsOf(v));
    if LimbsOf(v) > 0 {
      LimbCountOfValue(v, LimbsOf(v) - 1);
    } else {
      BasePowOne();
    }
  }

  // Estimating one quotient limb

  lemma EstimateNotTooSmall(n: nat, d: Positive, p: Positive, u: nat, top: nat, q: nat, estimate: nat, b: nat)
    requires q == n / d && n < d * b
    requires n < (u + 1) * p && top * p <= d && top >= 1
    requires estimate == b - 1 || u < (estimate + 1) * top
    ensures q <= estimate
  {
    assert n == q * d + n % d;
    if q > estimate {
      if estimate == b - 1 {
        MulMono(d, b, q);
      } else {
        MulMono(top, estimate + 1, q);
        MulMono(q, top * p, d);
        ThreeWay(q, top, p);
        assert (q * top) * p <= n;
        MulMono(p, u + 1, q * top);
      }
    }
  }

  lemma EstimateAtMostTwoTooLarge(n: nat, d: Positive, p: Positive, u: nat, top: nat, estimate: nat, b: Positive)
    requires u * p <= n && d < (top + 1) * p
    requires b * p <= 2 * d
    requires estimate * top <= u && estimate < b
    ensures estimate <= n / d + 2
  {
    if estimate >= 2 {
      MulMono(p, estimate * top, u);
      MulMono(estimate, d, (top + 1) * p);
      Distribute(top, 1, p);
      Distribute(top * p, p, estimate);
      ThreeWay(estimate, top, p);
      assert estimate * d <= n + estimate * p;
      MulMono(p, estimate, b);
      assert estimate * d <= n + 2 * d;
      Distribute(estimate, 2, d);
      assert (estimate - 2) * d <= n;
      LessThanQuotient(n, d, estimate - 2);
    } else {
      DivideNat(n, d);
    }
  }

  lemma LessThanQuotient(n: nat, d: Positive, k: int)
    requires k * d <= n
    ensures k <= n / d
  {
    assert n == (n / d) * d + n % d;
    if k > n / d {
      MulMono(d, n / d + 1, k);
    }
  }

  // A normalised denominator fills its limbs, and its top limb is at least half the base.
  lemma {:induction false} NormalisedTop(t: seq<Limb>, m: nat)
    requires Normalised(Value(t)) && m == LimbsOf(Value(t))
    ensures 1 <= m <= |t| && t[m - 1] != 0
    ensures Value(t) < BasePow(m) && BASE * BasePow(m - 1) <= 2 * Value(t)
    ensures t[m - 1] * BasePow(m - 1) <= Value(t) < (t[m - 1] + 1) * BasePow(m - 1)
  {
    hide BasePow, LimbCount, BitWidth, Pow2;
    var d := Value(t);
    NormalisedBounds(d);
    ValueBound(t);
    LimbsOfBounds(d);
    if m > |t| {
      BasePowMono(|t|, m - 1);
    }
    BasePowStrict(m - 1, m);
    MulMono(BasePow(m - 1), 2, BASE);
    TopLimb(t, m);
  }

  /** The clamped quotient of the two top limbs by the top limb of a normalised denominator is the true
      quotient limb or one or two more. */
  lemma {:induction false} EstimateIsClose(s: seq<Limb>, t: seq<Limb>, m: nat)
    requires Normalised(Value(t)) && Value(s) < Value(t) * BASE
    requires m == LimbsOf(Value(t))
    ensures 1 <= m <= |t| && t[m - 1] != 0
    ensures var q := Value(s) / Value(t);
            q <= ClampedDivide(Digit(s, m - 1), Digit(s, m), t[m - 1]) <= q + 2
  {
    hide BasePow, LimbCount, BitWidth, Pow2, ClampedDivide, Value, Digit, LimbsOf, Normalised;
    NormalisedTop(t, m);
    TopTwoLimbs(s, m, Value(t));
    var u := Digit(s, m - 1) + BASE * Digit(s, m);
    var estimate := ClampedDivide(Digit(s, m - 1), Digit(s, m), t[m - 1]);
    EstimateFromTops(Value(s), Value(t), BasePow(m - 1), u, t[m - 1], estimate, BASE);
  }

  lemma EstimateFromTops(n: nat, d: Positive, p: Positive, u: nat, top: nat, estimate: nat, b: Positive)
    requires n < d * b && u * p <= n < (u + 1) * p
    requires top >= 1 && top * p <= d < (top + 1) * p && b * p <= 2 * d
    requires estimate * top <= u && estimate < b
    requires estimate == b - 1 || u < (estimate + 1) * top
    ensures n / d <= estimate <= n / d + 2
  {
    DivideNat(n, d);
    EstimateNotTooSmall(n, d, p, u, top, n / d, estimate, b);
    EstimateAtMostTwoTooLarge(n, d, p, u, top, estimate, b);
  }

  // The top limb of a value that occupies m limbs.
  lemma {:induction false} TopLimb(t: seq<Limb>, m: nat)
    requires 1 <= m <= |t| && Value(t) < BasePow(m)
    ensures t[m - 1] * BasePow(m - 1) <= Value(t) < (t[m - 1] + 1) * BasePow(m - 1)
  {
    hide BasePow;
    LowIsMod(t, m);
    DivModUnique(Value(t), BasePow(m), 0, Value(t));
    LowStep(t, m - 1);
    LowBound(t, m - 1);
    Distribute(t[m - 1], 1, BasePow(m - 1));
  }

  lemma {:induction false} TopTwoLimbs(s: seq<Limb>, m: nat, d: nat)
    requires m >= 1 && d < BasePow(m) && Value(s) < d * BASE
    ensures var u := Digit(s, m - 1) + BASE * Digit(s, m);
            u * BasePow(m - 1) <= Value(s) < (u + 1) * BasePow(m - 1)
  {
    hide BasePow;
    var p := BasePow(m - 1);
    var x, y := Digit(s, m - 1), Digit(s, m);
    BasePowStrict(m - 1, m);
    BasePowStrict(m, m + 1);
    MulMono(BASE, d, BasePow(m));
    assert Value(s) < BasePow(m + 1);
    LowIsMod(s, m + 1);
    DivModUnique(Value(s), BasePow(m + 1), 0, Value(s));
    LowStep(s, m);
    LowStep(s, m - 1);
    LowBound(s, m - 1);
    Distribute(x, BASE * y, p);
    Distribute(x + BASE * y, 1, p);
    ThreeWay(y, BASE, p);
    ThreeWay(BASE, y, p);
  }

  // Values of parts of a span

  lemma {:induction false} SubspanNumber(s: Span, k: nat)
    requires s.Normal()
    ensures s.Subspan(k).Normal()
    ensures s.Subspan(k).Number() == s.Number() / BasePow(k)
    ensures k <= s.LimbSize() ==> s.Subspan(k).Content() == s.Content()[k..]
  {
    hide BasePow, LimbCount, Pow2;
    var v := s.Content();
    if k < s.LimbSize() {
      assert s.Subspan(k).Content() == v[k..];
      ValueSplitDivMod(v, k);
      SubspanSize(s.bits, k);
      BasePowIsPow2(k);
      MulMono(LIMB_BITS, 0, k);
      Pow2Add(k * LIMB_BITS, s.bits - k * LIMB_BITS);
      QuotientBelow(Value(v), BasePow(k), Pow2(s.bits - k * LIMB_BITS));
    } else {
      LowBound(v, k);
      DivModUnique(Value(v), BasePow(k), 0, Value(v));
      assert s.Subspan(k).Content() == [];
    }
  }

  lemma QuotientBelow(v: nat, p: Positive, q: nat)
    requires v < p * q
    ensures v / p < q
  {
    DivideNat(v, p);
    assert v == (v / p) * p + v % p;
    if v / p >= q {
      MulMono(p, q, v / p);
    }
  }

  lemma ReducedDifference(l: nat, r: nat, w: nat, k: int, p: Positive)
    requires w == l % p - r % p + k * p && w < p
    ensures w == (l - r) % p
  {
    var x, y := l % p, r % p;
    ModSub(l, r, p);
    ModSub(x, r, p);
    ThreeWay(-1, k, p);
    DivModUnique(x - y, p, -k, w);
  }

  lemma {:induction false} DifferenceModulo(w: seq<Limb>, borrow: bool, l: seq<Limb>, r: seq<Limb>)
    requires IsDifference(w, borrow, l, r, false)
    ensures Value(w) == (Value(l) - Value(r)) % BasePow(|w|)
  {
    hide BasePow;
    LowIsMod(l, |w|);
    LowIsMod(r, |w|);
    ValueBound(w);
    ReducedDifference(Value(l), Value(r), Value(w), Bit(borrow), BasePow(|w|));
  }

  // Dividing a numerator with one limb more than the denominator

  /** The quotient needs a second limb. */
  predicate NeedsSecondLimb(n: nat, d: nat) {
    n >= d * BASE
  }

  lemma CorrectedQuotient(n: nat, d: Positive, estimate: nat)
    requires n / d <= estimate <= n / d + 2
    ensures estimate * d > n <==> estimate > n / d
    ensures estimate * d > n ==> (estimate - 1) * d == estimate * d - d
    ensures estimate >= 1 ==> ((estimate - 1) * d > n <==> estimate - 1 > n / d)
    ensures n - (n / d) * d == n % d
  {
    DivideNat(n, d);
    var q := n / d;
    assert n == q * d + n % d;
    Distribute(estimate, 1, d);
    Distribute(q, 1, d);
    if estimate > q {
      MulMono(d, q + 1, estimate);
    } else {
      MulMono(d, estimate, q);
    }
    if estimate - 1 > q {
      MulMono(d, q + 1, estimate - 1);
    } else {
      MulMono(d, estimate - 1, q);
    }
  }

  lemma EstimateFits(d: nat, estimate: nat, m: nat)
    requires estimate < BASE && d < BasePow(m)
    ensures (d * estimate) % BasePow(m + 1) == estimate * d
  {
    hide BasePow;
    MulMono(estimate, 0, d);
    MulMono(d, estimate, BASE);
    BasePowStrict(m, m + 1);
    MulStrict(BASE, d, BasePow(m));
    DivModUnique(d * estimate, BasePow(m + 1), 0, estimate * d);
  }

  lemma {:induction false} SingleLimb(x: Limb)
    ensures LimbCount(BitWidth(x)) == if x == 0 then 0 else 1
    ensures x < Pow2(BitWidth(x))
  {
    hide BasePow, LimbCount, BitWidth, Pow2;
    BasePowOne();
    LimbCountOfValue(x, 1);
    LimbCountOfValue(x, 0);
    BitWidthBounds(x);
  }

  /** A span over one limb in its own storage, sized for the limb's bits, so possibly empty. */
  ghost predicate HoldsLimb(q: Span)
    reads q.data
  {
    q.InBounds() && q.offset == 0 && q.data.Length == 1 && q.LimbSize() <= 1 && (q.LimbSize() == 0 ==> q.data[0] == 0)
  }

  lemma HeldLimb(q: Span)
    requires HoldsLimb(q)
    ensures q.Number() == q.data[0]
  {
    ValueSingle(q.data[0]);
    assert q.LimbSize() == 1 ==> q.Content() == [q.data[0]];
    assert q.LimbSize() == 0 ==> q.Content() == [];
  }

  /** One correction of the estimate: if the product exceeds the numerator, the estimate drops by one. */
  method Correct(product: Span, numerator: Span, denominator: Span, q: Span, ghost limit: nat)
    requires product.InBounds() && numerator.InBounds() && denominator.InBounds() && HoldsLimb(q)
    requires product.data != numerator.data && product.data != denominator.data && product.data != q.data
    requires q.data != numerator.data && q.data != denominator.data
    requires denominator.Number() > 0 && product.Number() == q.data[0] * denominator.Number()
    requires limit == numerator.Number() / denominator.Number() && limit <= q.data[0] <= limit + 2
    modifies product.data, q.data
    ensures OnlyWithin(product)
    ensures q.data[0] == if old(q.data[0]) > limit then old(q.data[0]) - 1 else old(q.data[0])
    ensures HoldsLimb(q)
    ensures product.Number() == q.data[0] * denominator.Number()
  {
    hide BasePow, LimbCount, IsDifference;
    ghost var n, d, estimate := numerator.Number(), denominator.Number(), q.data[0] as nat;
    CorrectedQuotient(n, d, estimate);
    var tooLarge := Compare(Greater, product, numerator);
    if tooLarge {
      q.data[0] := q.data[0] - 1;
      ghost var before := product.Content();
      ghost var t := denominator.Content();
      var borrow := Subtract(product, product, denominator, false);
      DifferenceModulo(product.Content(), borrow, before, t);
      ValueBound(before);
      MulMono(d, 0, estimate - 1);
      DivModUnique(estimate * d - d, BasePow(product.LimbSize()), 0, estimate * d - d);
    }
  }

  /** The estimated quotient limb, in storage of its own. */
  method EstimateLimb(numerator: Span, denominator: Span, m: nat) returns (q: Span)
    requires numerator.InBounds() && denominator.InBounds()
    requires Normalised(denominator.Number()) && m == LimbsOf(denominator.Number())
    requires !NeedsSecondLimb(numerator.Number(), denominator.Number())
    ensures fresh(q.data) && HoldsLimb(q) && q.Normal()
    ensures numerator.Number() / denominator.Number() <= q.data[0] <= numerator.Number() / denominator.Number() + 2
  {
    hide BasePow, LimbCount, BitWidth, Pow2, ClampedDivide, LimbsOf, Normalised;
    ghost var s, t := numerator.Content(), denominator.Content();
    EstimateIsClose(s, t, m);
    assert denominator.Read(m - 1) == t[m - 1];
    var estimate := ClampedDivide(numerator.ExtendedRead(m - 1), numerator.ExtendedRead(m), denominator.Read(m - 1));
    var data := new Limb[1](_ => estimate);
    q := Span(data, 0, BitWidth(estimate));
    SingleLimb(estimate);
    HeldLimb(q);
  }

  lemma NormalisedPositive(d: nat)
    requires Normalised(d)
    ensures d > 0 && BitWidth(d) == LimbsOf(d) * LIMB_BITS
  {
  }

  method MultiplyByLimb(product: Span, denominator: Span, q: Span, m: nat)
    requires product.InBounds() && denominator.Normal() && HoldsLimb(q) && q.Normal()
    requires product.data != denominator.data && product.data != q.data
    requires m == LimbsOf(denominator.Number()) && product.LimbSize() == m + 1
    modifies product.data
    ensures OnlyWithin(product)
    ensures product.Number() == q.data[0] * denominator.Number()
  {
    hide BasePow, LimbCount, BitWidth, Pow2, LimbsOf;
    HeldLimb(q);
    LimbsOfBounds(denominator.Number());
    EstimateFits(denominator.Number(), q.data[0], m);
    MultiplyCompiletime(product, denominator, q);
  }

  /** Finds the quotient limb and leaves its product with the denominator in `product`. */
  method QuotientLimb(product: Span, numerator: Span, denominator: Span, m: nat) returns (q: Span)
    requires product.InBounds() && numerator.InBounds() && denominator.Normal()
    requires product.data != numerator.data && product.data != denominator.data
    requires Normalised(denominator.Number())
    requires m == LimbsOf(denominator.Number()) && product.LimbSize() == m + 1
    requires !NeedsSecondLimb(numerator.Number(), denominator.Number())
    modifies product.data
    ensures OnlyWithin(product)
    ensures q.InBounds() && fresh(q.data)
    ensures q.Number() == numerator.Number() / denominator.Number()
    ensures product.Number() == q.Number() * denominator.Number()
  {
    hide BasePow, LimbCount, BitWidth, Pow2, LimbsOf, Normalised, NeedsSecondLimb;
    q := EstimateLimb(numerator, denominator, m);
    MultiplyByLimb(product, denominator, q, m);
    assert denominator.Number() > 0 by { NormalisedPositive(denominator.Number()); }
    DivideNat(numerator.Number(), denominator.Number());
    ghost var limit: nat := numerator.Number() / denominator.Number();
    Correct(product, numerator, denominator, q, limit);
    Correct(product, numerator, denominator, q, limit);
    HeldLimb(q);
  }

  method NewNull() returns (s: Span)
    ensures fresh(s.data) && s.InBounds() && s.LimbSize() == 0 && s.Number() == 0
  {
    s := NewZero(0);
    LimbCountExact(0);
  }

  /** The denominator moved up by one limb. */
  method ScaledDenominator(denominator: Span, width: nat) returns (scaled: Span)
    requires denominator.InBounds() && width == BitWidth(denominator.Number()) && denominator.Number() > 0
    ensures fresh(scaled.data) && scaled.InBounds()
    ensures scaled.bits == width + LIMB_BITS && scaled.LimbSize() == LimbsOf(denominator.Number()) + 1
    ensures scaled.Number() == denominator.Number() * BASE
  {
    hide BasePow, LimbCount, BitWidth, Pow2;
    scaled := NewZero(width + LIMB_BITS);
    LimbCountAdd(width, 1);
    LimbsOfBounds(denominator.Number());
    var upper := scaled.Subspan(1);
    assert upper.data == scaled.data && upper.offset == 1;
    BitCopy(upper, denominator);
    MovedUp(scaled.Content(), upper.Content(), denominator.Content());
  }

  lemma {:induction false} MovedUp(scaled: seq<Limb>, upper: seq<Limb>, d: seq<Limb>)
    requires scaled == [0] + upper && Value(upper) == Low(d, |upper|) && Value(d) < BasePow(|upper|)
    ensures Value(scaled) == Value(d) * BASE
  {
    hide BasePow;
    LowIsMod(d, |upper|);
    DivModUnique(Value(d), BasePow(|upper|), 0, Value(d));
    ValueSingle(0);
    ValueCat([0], upper);
    BasePowOne();
  }

  // quotient = low + 2^limb_bits for a quotient `low` of one limb.
  method AddSecondLimb(quotient: Span, low: Span)
    requires quotient.InBounds() && low.InBounds() && quotient.data != low.data
    requires quotient.LimbSize() == low.LimbSize() >= 1 && low.Number() < BASE
    modifies quotient.data
    ensures OnlyWithin(quotient)
    ensures quotient.Number() == (low.Number() + BASE) % BasePow(quotient.LimbSize())
  {
    hide BasePow, LimbCount, IsSum;
    ghost var v := low.Content();
    ghost var size := |v|;
    BasePowOne();
    ValueSplit(v, 1);
    assert v[..1] == [v[0]];
    ValueSingle(v[0]);
    assert Value(v[1..]) == 0 && Value(v) == v[0] by { SmallUpper(v[0], BASE, Value(v[1..])); }
    var empty := NewNull();
    var upper, lowUpper := quotient.Subspan(1), low.Subspan(1);
    assert lowUpper.Content() == v[1..];
    quotient.data[quotient.offset] := low.Read(0);
    var carry := Add(upper, lowUpper, empty, true);
    assert quotient.Content() == [v[0]] + upper.Content();
    ValueCat([v[0]], upper.Content());
    ValueSingle(v[0]);
    OneAbove(upper.Content(), carry, v[1..], []);
    SecondLimbModulo(v[0], upper.Number(), size);
  }

  lemma SmallUpper(x: nat, b: nat, upper: nat)
    requires x + b * upper < b
    ensures upper == 0
  {
    if upper >= 1 {
      MulMono(b, 1, upper);
    }
  }

  lemma {:induction false} OneAbove(w: seq<Limb>, carry: bool, l: seq<Limb>, r: seq<Limb>)
    requires IsSum(w, carry, l, r, true) && Value(l) == 0 && r == []
    ensures Value(w) == 1 % BasePow(|w|)
  {
    hide BasePow;
    LowBound(l, |w|);
    ValueBound(w);
    DivModUnique(1, BasePow(|w|), Bit(carry), Value(w));
  }

  lemma SecondLimbModulo(x: Limb, upper: nat, n: nat)
    requires n >= 1 && upper == 1 % BasePow(n - 1)
    ensures x + BasePow(1) * upper == (x + BASE) % BasePow(n)
  {
    hide BasePow;
    BasePowOne();
    BasePowStrict(n - 1, n);
    var k := 1 / BasePow(n - 1);
    assert 1 == k * BasePow(n - 1) + upper;
    Distribute(k * BasePow(n - 1), upper, BASE);
    ThreeWay(k, BasePow(n - 1), BASE);
    MulMono(BASE, upper + 1, BasePow(n - 1));
    Distribute(upper, 1, BASE);
    DivModUnique(x + BASE, BasePow(n), k, x + BASE * upper);
  }

  // Storage the four operands of a division may and may not share.
  ghost predicate Separate(quotient: Span, remainder: Span, numerator: Span, denominator: Span) {
    && quotient.data != remainder.data && quotient.data != numerator.data && quotient.data != denominator.data
    && remainder.data != denominator.data
    && numerator.SameOrApart(remainder)
  }

  lemma ReduceByMultiple(n: nat, d: Positive, k: nat)
    requires k * d <= n
    ensures (n - k * d) / d == n / d - k
    ensures (n - k * d) % d == n % d
  {
    assert n == (n / d) * d + n % d;
    Distribute(n / d, k, d);
    LessThanQuotient(n, d, k);
    DivModUnique(n - k * d, d, n / d - k, n % d);
  }

  // A numerator with one limb more than a normalised denominator is below twice the scaled denominator.
  lemma SecondLimbIsOne(n: nat, d: nat)
    requires Normalised(d) && LimbsOf(n) <= LimbsOf(d) + 1 && NeedsSecondLimb(n, d)
    ensures n - d * BASE < BasePow(LimbsOf(d) + 1)
    ensures !NeedsSecondLimb(n - d * BASE, d)
    ensures BASE * d <= n && n / d == (n - d * BASE) / d + BASE && (n - d * BASE) % d == n % d
    ensures LimbsOf(n - d * BASE) <= LimbsOf(d) + 1
    ensures (n - d * BASE) / d < BASE
  {
    hide BasePow, LimbCount, BitWidth;
    var m := LimbsOf(d);
    NormalisedBounds(d);
    LimbsOfBounds(n);
    BasePowMono(LimbsOf(n), m + 1);
    BasePowStrict(m, m + 1);
    MulMono(BASE, BasePow(m), 2 * d);
    ThreeWay(BASE, 2, d);
    ReduceByMultiple(n, d, BASE);
    LimbCountOfValue(n - d * BASE, m + 1);
    QuotientBelow(n - d * BASE, d, BASE);
  }

  lemma ExactWidth(width: nat, v: nat, n: nat)
    requires width == n * LIMB_BITS && v < BasePow(n + 1)
    ensures v < Pow2(width + LIMB_BITS)
  {
    BasePowIsPow2(n + 1);
    Distribute(n, 1, LIMB_BITS);
  }

  /** Division when the numerator has at most one limb more than the denominator. */
  method DivideSimilarSized(quotient: Span, remainder: Span, numerator: Span, denominator: Span)
    requires quotient.InBounds() && remainder.InBounds() && numerator.Normal() && denominator.Normal()
    requires Separate(quotient, remainder, numerator, denominator)
    requires Normalised(denominator.Number())
    requires LimbsOf(numerator.Number()) <= LimbsOf(denominator.Number()) + 1
    requires NeedsSecondLimb(numerator.Number(), denominator.Number()) ==> quotient.LimbSize() >= 1
    modifies quotient.data, remainder.data
    ensures OnlyWithin(quotient) && OnlyWithin(remainder)
    ensures denominator.Number() > 0
    ensures quotient.Number() == (old(numerator.Number()) / denominator.Number()) % BasePow(quotient.LimbSize())
    ensures remainder.Number() == (old(numerator.Number()) % denominator.Number()) % BasePow(remainder.LimbSize())
    decreases if NeedsSecondLimb(numerator.Number(), denominator.Number()) then 2 else 0
  {
    hide BasePow, LimbCount, BitWidth, Pow2, Normalised, LimbsOf, NeedsSecondLimb, IsDifference;
    ghost var n, d := numerator.Number(), denominator.Number();
    NormalisedPositive(d);
    var width := BitWidthOf(denominator);
    var intermediate := ScaledDenominator(denominator, width);
    var high := Compare(GreaterEqual, numerator, intermediate);
    if high {
      assert NeedsSecondLimb(n, d) by { SecondLimbDefinition(n, d); }
      DivideHigh(quotient, remainder, numerator, denominator, intermediate, width);
    } else {
      assert !NeedsSecondLimb(n, d) by { SecondLimbDefinition(n, d); }
      DivideLow(quotient, remainder, numerator, denominator, intermediate, width);
    }
  }

  lemma SecondLimbDefinition(n: nat, d: nat)
    ensures NeedsSecondLimb(n, d) <==> n >= d * BASE
  {
  }

  // The quotient fits one limb: writes it, and what is left of the numerator.
  method FinishLow(quotient: Span, remainder: Span, numerator: Span, product: Span, q: Span, ghost d: nat)
    requires quotient.InBounds() && remainder.InBounds() && numerator.InBounds() && product.InBounds() && q.InBounds()
    requires quotient.data != remainder.data && quotient.data != numerator.data && quotient.data != product.data
    requires quotient.data != q.data && remainder.data != q.data
    requires numerator.SameOrApart(remainder) && remainder.data != product.data
    requires d > 0 && q.Number() == numerator.Number() / d && product.Number() == q.Number() * d
    modifies quotient.data, remainder.data
    ensures OnlyWithin(quotient) && OnlyWithin(remainder)
    ensures quotient.Number() == (old(numerator.Number()) / d) % BasePow(quotient.LimbSize())
    ensures remainder.Number() == (old(numerator.Number()) % d) % BasePow(remainder.LimbSize())
  {
    hide BasePow, LimbCount, IsDifference;
    ghost var n := numerator.Number();
    ghost var s, t := numerator.Content(), product.Content();
    LowIsMod(q.Content(), quotient.LimbSize());
    BitCopy(quotient, q);
    var borrow := Subtract(remainder, numerator, product, false);
    DifferenceModulo(remainder.Content(), borrow, s, t);
    CorrectedQuotient(n, d, n / d);
  }

  // The quotient fits one limb.
  method DivideLow(quotient: Span, remainder: Span, numerator: Span, denominator: Span, intermediate: Span, width: nat)
    requires quotient.InBounds() && remainder.InBounds() && numerator.InBounds() && denominator.Normal()
    requires Separate(quotient, remainder, numerator, denominator)
    requires intermediate.InBounds() && intermediate.data != quotient.data && intermediate.data != remainder.data
    requires intermediate.data != numerator.data && intermediate.data != denominator.data
    requires Normalised(denominator.Number()) && width == BitWidth(denominator.Number())
    requires intermediate.LimbSize() == LimbsOf(denominator.Number()) + 1
    requires !NeedsSecondLimb(numerator.Number(), denominator.Number())
    modifies quotient.data, remainder.data, intermediate.data
    ensures OnlyWithin(quotient) && OnlyWithin(remainder)
    ensures denominator.Number() > 0
    ensures quotient.Number() == (old(numerator.Number()) / denominator.Number()) % BasePow(quotient.LimbSize())
    ensures remainder.Number() == (old(numerator.Number()) % denominator.Number()) % BasePow(remainder.LimbSize())
  {
    hide BasePow, LimbCount, BitWidth, Pow2, Normalised, NeedsSecondLimb;
    NormalisedPositive(denominator.Number());
    ghost var d := denominator.Number();
    var q := QuotientLimb(intermediate, numerator, denominator, LimbCount(width));
    FinishLow(quotient, remainder, numerator, intermediate, q, d);
  }

  // The quotient needs a second limb, which is then one: subtract the scaled denominator and start over.
  method DivideHigh(quotient: Span, remainder: Span, numerator: Span, denominator: Span, intermediate: Span, width: nat)
    requires quotient.InBounds() && remainder.InBounds() && numerator.Normal() && denominator.Normal()
    requires Separate(quotient, remainder, numerator, denominator)
    requires intermediate.InBounds() && intermediate.data != quotient.data && intermediate.data != remainder.data
    requires intermediate.data != numerator.data && intermediate.data != denominator.data
    requires Normalised(denominator.Number()) && width == BitWidth(denominator.Number())
    requires intermediate.bits == width + LIMB_BITS && intermediate.LimbSize() == LimbsOf(denominator.Number()) + 1
    requires intermediate.Number() == denominator.Number() * BASE
    requires LimbsOf(numerator.Number()) <= LimbsOf(denominator.Number()) + 1
    requires NeedsSecondLimb(numerator.Number(), denominator.Number()) && quotient.LimbSize() >= 1
    modifies quotient.data, remainder.data, intermediate.data
    ensures OnlyWithin(quotient) && OnlyWithin(remainder)
    ensures denominator.Number() > 0
    ensures quotient.Number() == (old(numerator.Number()) / denominator.Number()) % BasePow(quotient.LimbSize())
    ensures remainder.Number() == (old(numerator.Number()) % denominator.Number()) % BasePow(remainder.LimbSize())
    decreases 1
  {
    hide BasePow, LimbCount, BitWidth, Pow2, LimbsOf, NeedsSecondLimb, Normalised;
    ghost var n, d := numerator.Number(), denominator.Number();
    ghost var m := LimbsOf(d);
    ghost var rest := WithoutSecondLimb(n, d);
    assert width == m * LIMB_BITS by { NormalisedPositive(d); }
    RemoveSecondLimb(intermediate, numerator, rest, m);
    ExactWidth(width, rest, m);
    var low := NewZero(quotient.bits);
    DivideSimilarSized(low, remainder, intermediate, denominator);
    SmallQuotient(rest / d, quotient.LimbSize());
    AddSecondLimb(quotient, low);
  }

  lemma {:induction false} WithoutSecondLimb(n: nat, d: nat) returns (rest: nat)
    requires Normalised(d) && LimbsOf(n) <= LimbsOf(d) + 1 && NeedsSecondLimb(n, d)
    ensures d > 0 && n == rest + d * BASE && rest < BasePow(LimbsOf(d) + 1)
    ensures !NeedsSecondLimb(rest, d) && LimbsOf(rest) <= LimbsOf(d) + 1
    ensures n / d == rest / d + BASE && rest % d == n % d && 0 <= rest / d < BASE
  {
    NormalisedPositive(d);
    SecondLimbIsOne(n, d);
    rest := n - d * BASE;
    DivideNat(rest, d);
  }

  // Takes the scaled denominator off the numerator.
  method RemoveSecondLimb(intermediate: Span, numerator: Span, ghost rest: nat, ghost m: nat)
    requires intermediate.InBounds() && numerator.InBounds() && intermediate.data != numerator.data
    requires intermediate.LimbSize() == m + 1 && rest < BasePow(m + 1)
    requires numerator.Number() == rest + intermediate.Number()
    modifies intermediate.data
    ensures intermediate.Number() == rest
  {
    hide BasePow, LimbCount, IsDifference;
    ghost var s, t := numerator.Content(), intermediate.Content();
    var borrow := Subtract(intermediate, numerator, intermediate, false);
    DifferenceModulo(intermediate.Content(), borrow, s, t);
    DivModUnique(rest, BasePow(m + 1), 0, rest);
  }

  lemma SmallQuotient(q: int, n: nat)
    requires 0 <= q < BASE && n >= 1
    ensures q % BasePow(n) == q
  {
    hide BasePow;
    BasePowOne();
    BasePowMono(1, n);
    DivModUnique(q, BasePow(n), 0, q);
  }

  // Dividing a numerator of any size

  /** All limbs but the lowest. */
  function TopLimbs(n: nat, lower: nat): nat {
    DivModBounds(n, BasePow(lower));
    n / BasePow(lower)
  }

  /** What remains of the numerator after its top limbs have been divided: the remainder of the top limbs
      above the untouched lower limbs. */
  function Rest(n: nat, d: Positive, lower: nat): int {
    (TopLimbs(n, lower) % d) * BasePow(lower) + n % BasePow(lower)
  }

  lemma RestBound(r: nat, d: Positive, p: Positive, low: nat)
    requires r < d && low < p
    ensures 0 <= r * p + low < d * p
  {
    MulMono(p, r + 1, d);
    Distribute(r, 1, p);
    MulMono(p, 0, r);
  }

  lemma RestRegroups(q: int, d: int, r: int, p: int, low: int)
    ensures (q * d + r) * p + low == (p * q) * d + (r * p + low)
  {
    Distribute(q * d, r, p);
    ThreeWay(q, d, p);
    ThreeWay(p, q, d);
  }

  lemma AddMultiple(rest: nat, k: int, d: Positive)
    ensures (k * d + rest) / d == rest / d + k
    ensures (k * d + rest) % d == rest % d
  {
    assert rest == (rest / d) * d + rest % d;
    Distribute(k, rest / d, d);
    DivModUnique(k * d + rest, d, k + rest / d, rest % d);
  }

  lemma RestOfParts(n: nat, d: Positive, p: Positive, c: int, low: nat, q: int, r: nat, rest: int)
    requires n == c * p + low && low < p
    requires c == q * d + r && r < d
    requires rest == r * p + low
    ensures 0 <= rest < d * p
    ensures n / d == rest / d + p * q && rest % d == n % d
    ensures 0 <= rest / d < p
  {
    RestBound(r, d, p, low);
    RestRegroups(q, d, r, p, low);
    AddMultiple(rest, p * q, d);
    DivideNat(rest, d);
    QuotientBelow(rest, d, p);
  }

  lemma QuotientAndRemainder(n: int, d: Positive)
    ensures n == (n / d) * d + n % d && 0 <= n % d < d
  {
  }

  lemma {:induction false} RestDivides(n: nat, d: Positive, lower: nat)
    ensures TopLimbs(n, lower) >= 0
    ensures 0 <= Rest(n, d, lower) < d * BasePow(lower)
    ensures n / d == Rest(n, d, lower) / d + BasePow(lower) * (TopLimbs(n, lower) / d)
    ensures Rest(n, d, lower) % d == n % d
    ensures 0 <= Rest(n, d, lower) / d < BasePow(lower)
  {
    hide BasePow;
    var p := BasePow(lower);
    DivideNat(n, p);
    QuotientAndRemainder(n, p);
    QuotientAndRemainder(n / p, d);
    RestOfParts(n, d, p, n / p, n % p, (n / p) / d, (n / p) % d, Rest(n, d, lower));
  }

  lemma {:induction false} RestSmaller(n: nat, d: Positive)
    requires LimbsOf(n) > LimbsOf(d) + 1
    ensures Rest(n, d, LimbsOf(n) - LimbsOf(d) - 1) < n
  {
    hide BasePow, LimbCount, BitWidth, Rest;
    var lower := LimbsOf(n) - LimbsOf(d) - 1;
    assert Rest(n, d, lower) < d * BasePow(lower) by { RestDivides(n, d, lower); }
    LimbsOfBounds(n);
    LimbsOfBounds(d);
    BasePowAdd(LimbsOf(d), lower);
    ScaleBelow(Rest(n, d, lower), d, BasePow(lower), BasePow(LimbsOf(d)));
  }

  lemma ScaleBelow(x: int, d: nat, p: Positive, q: nat)
    requires x < d * p && d <= q
    ensures x < q * p
  {
    MulMono(p, d, q);
  }

  // Room for the second limbs

  /** The denominator moved up by a limbs. */
  function AtPlace(d: Positive, a: nat): Positive {
    MulMono(BasePow(a), 1, d);
    d * BasePow(a)
  }

  /** Of the numerator without its multiples of the denominator one place higher, what is left is at least the
      denominator at place a, and yet has only a limbs more than the denominator. */
  predicate SecondLimbAt(n: nat, d: Positive, a: nat) {
    AtPlace(d, a) <= n % AtPlace(d, a + 1) < BasePow(LimbsOf(d) + a)
  }

  /** The quotient span reaches every place at which a normalised denominator needs a second limb. */
  predicate QuotientHasRoom(n: nat, d: Positive, limbs: nat) {
    forall a: nat :: limbs < a <= LimbsOf(n) ==> !SecondLimbAt(n, d, a)
  }

  lemma ScaledBounds(d: nat, p: Positive, top: nat, b: nat)
    requires d < top <= 2 * d && b >= 2
    ensures d * p < top * p <= 2 * (d * p) && d * (b * p) == b * (d * p) >= 2 * (d * p)
  {
    ThreeWay(d, b, p);
    MulMono(d * p, 2, b);
    MulStrict(p, d, top);
    MulMono(p, top, 2 * d);
    ThreeWay(2, d, p);
  }

  lemma PlaceBounds(d: Positive, a: nat)
    requires Normalised(d)
    ensures AtPlace(d, a + 1) == BASE * AtPlace(d, a) >= 2 * AtPlace(d, a)
    ensures AtPlace(d, a) < BasePow(LimbsOf(d) + a) <= 2 * AtPlace(d, a)
  {
    hide BasePow, Normalised, LimbsOf;
    NormalisedBounds(d);
    BasePowAdd(LimbsOf(d), a);
    BasePowStrict(a, a + 1);
    ScaledBounds(d, BasePow(a), BasePow(LimbsOf(d)), BASE);
  }

  lemma {:induction false} PlaceMono(d: Positive, a: nat, b: nat)
    requires a <= b
    ensures AtPlace(d, a) <= AtPlace(d, b)
    ensures exists k :: AtPlace(d, b) == k * AtPlace(d, a)
  {
    hide BasePow;
    BasePowMono(a, b);
    MulMono(d, BasePow(a), BasePow(b));
    BasePowAdd(a, b - a);
    ThreeWay(d, BasePow(a), BasePow(b - a));
    assert AtPlace(d, b) == BasePow(b - a) * AtPlace(d, a);
  }

  lemma NotBelow(n: nat, d: Positive, a: nat)
    requires n < AtPlace(d, a)
    ensures !SecondLimbAt(n, d, a)
  {
    hide AtPlace, BasePow, LimbsOf;
    DivModBounds(n, AtPlace(d, a + 1));
    MulMono(AtPlace(d, a + 1), 0, n / AtPlace(d, a + 1));
  }

  lemma {:induction false} NotAboveTop(n: nat, d: Positive, a: nat)
    requires LimbsOf(n) <= a
    ensures n < AtPlace(d, a) && !SecondLimbAt(n, d, a)
  {
    hide BasePow, LimbsOf, SecondLimbAt;
    LimbsOfBounds(n);
    BasePowMono(LimbsOf(n), a);
    MulMono(BasePow(a), 1, d);
    NotBelow(n, d, a);
  }

  // The place that the top step can reach.
  lemma {:induction false} AtTopPlace(n: nat, d: Positive, a: nat)
    requires Normalised(d) && a >= 1 && LimbsOf(n) == LimbsOf(d) + a
    ensures n < BasePow(LimbsOf(d) + a) <= 2 * AtPlace(d, a) <= AtPlace(d, a + 1)
    ensures SecondLimbAt(n, d, a) <==> n >= AtPlace(d, a)
    ensures SecondLimbAt(n, d, a - 1) ==> n >= AtPlace(d, a)
    ensures forall b: nat :: b > a ==> !SecondLimbAt(n, d, b)
  {
    hide BasePow, LimbsOf, Normalised, AtPlace;
    PlaceBounds(d, a);
    LimbsOfBounds(n);
    DivModUnique(n, AtPlace(d, a + 1), 0, n);
    if n < AtPlace(d, a) {
      DivModUnique(n, AtPlace(d, a), 0, n);
    }
    forall b: nat | b > a ensures !SecondLimbAt(n, d, b) {
      PlaceMono(d, a + 1, b);
      NotBelow(n, d, b);
    }
  }

  lemma ModOfMod(n: nat, x: Positive, y: Positive, k: int)
    requires x == k * y
    ensures (n % x) % y == n % y
  {
    var q := n / x;
    assert n == q * x + n % x;
    ThreeWay(q, k, y);
    ModAddMultiple(n % x, q * k, y);
  }

  lemma {:induction false} RestIsRemainder(n: nat, d: Positive, lower: nat)
    ensures 0 <= Rest(n, d, lower) == n % AtPlace(d, lower)
  {
    hide BasePow;
    var p := BasePow(lower);
    DivideNat(n, p);
    QuotientAndRemainder(n, p);
    QuotientAndRemainder(n / p, d);
    var q, r := (n / p) / d, (n / p) % d;
    RestBound(r, d, p, n % p);
    RestRegroups(q, d, r, p, n % p);
    ThreeWay(p, q, d);
    ThreeWay(q, d, p);
    DivModUnique(n, AtPlace(d, lower), q, Rest(n, d, lower));
  }

  // Below the top limbs, the rest is as good as the numerator.
  lemma {:induction false} SameInRest(n: nat, d: Positive, lower: nat, a: nat)
    ensures Rest(n, d, lower) >= 0
    ensures a < lower ==> (SecondLimbAt(Rest(n, d, lower), d, a) <==> SecondLimbAt(n, d, a))
    ensures a >= lower ==> !SecondLimbAt(Rest(n, d, lower), d, a)
  {
    hide BasePow, LimbsOf, Rest, AtPlace;
    RestIsRemainder(n, d, lower);
    if a < lower {
      PlaceMono(d, a + 1, lower);
      var k :| AtPlace(d, lower) == k * AtPlace(d, a + 1);
      ModOfMod(n, AtPlace(d, lower), AtPlace(d, a + 1), k);
    } else {
      PlaceMono(d, lower, a);
      NotBelow(Rest(n, d, lower), d, a);
    }
  }

  lemma {:induction false} NoneBeyond(n: nat, d: Positive, limbs: nat, a: nat)
    requires QuotientHasRoom(n, d, limbs) && a > limbs
    ensures !SecondLimbAt(n, d, a)
  {
    hide SecondLimbAt, LimbsOf;
    if a > LimbsOf(n) {
      NotAboveTop(n, d, a);
    }
  }

  lemma {:induction false} TopPart(n: nat, d: Positive)
    requires LimbsOf(n) > LimbsOf(d)
    ensures var lower := LimbsOf(n) - LimbsOf(d) - 1;
            && TopLimbs(n, lower) >= 0
            && LimbsOf(TopLimbs(n, lower)) <= LimbsOf(d) + 1
            && (NeedsSecondLimb(TopLimbs(n, lower), d) <==> n >= AtPlace(d, lower + 1))
            && (lower == 0 ==> TopLimbs(n, lower) == n)
  {
    hide BasePow, LimbCount, BitWidth;
    var lower := LimbsOf(n) - LimbsOf(d) - 1;
    var p := BasePow(lower);
    LimbsOfBounds(n);
    BasePowAdd(lower, LimbsOf(d) + 1);
    QuotientBelow(n, p, BasePow(LimbsOf(d) + 1));
    DivideNat(n, p);
    LimbCountOfValue(n / p, LimbsOf(d) + 1);
    BasePowStrict(lower, lower + 1);
    ThreeWay(d, BASE, p);
    if NeedsSecondLimb(n / p, d) {
      MulMono(p, d * BASE, n / p);
    }
    if n >= AtPlace(d, lower + 1) {
      LessThanQuotient(n, p, d * BASE);
    }
    BasePowOne();
    DivModUnique(n, 1, n, 0);
  }

  /** Room for the whole is room for the top step and for the rest. */
  lemma {:induction false} RoomForStep(n: nat, d: Positive, limbs: nat)
    requires Normalised(d) && LimbsOf(n) > LimbsOf(d)
    ensures var lower := LimbsOf(n) - LimbsOf(d) - 1;
            && TopLimbs(n, lower) >= 0 && Rest(n, d, lower) >= 0
            && (QuotientHasRoom(n, d, limbs) <==>
                  && (NeedsSecondLimb(TopLimbs(n, lower), d) ==> lower < limbs)
                  && (lower >= 1 ==> QuotientHasRoom(Rest(n, d, lower), d, Min(lower, limbs))))
  {
    hide BasePow, LimbsOf, Rest, SecondLimbAt, NeedsSecondLimb, AtPlace, TopLimbs, Normalised, QuotientHasRoom;
    var lower := LimbsOf(n) - LimbsOf(d) - 1;
    TopPart(n, d);
    AtTopPlace(n, d, lower + 1);
    SameInRest(n, d, lower, 0);
    if QuotientHasRoom(n, d, limbs) {
      if lower >= limbs {
        NoneBeyond(n, d, limbs, lower + 1);
      }
      RestKeepsRoom(n, d, lower, limbs);
    } else {
      LimbWithoutRoom(n, d, lower, limbs);
    }
  }

  lemma RoomAtStep(n: nat, d: Positive, limbs: nat)
    requires Normalised(d) && LimbsOf(n) > LimbsOf(d) && QuotientHasRoom(n, d, limbs)
    ensures var lower := LimbsOf(n) - LimbsOf(d) - 1;
            && TopLimbs(n, lower) >= 0 && (NeedsSecondLimb(TopLimbs(n, lower), d) ==> lower < limbs)
            && (lower == 0 ==> TopLimbs(n, lower) == n)
            && (lower >= 1 ==> 0 <= Rest(n, d, lower) && QuotientHasRoom(Rest(n, d, lower), d, Min(lower, limbs)))
  {
    hide LimbsOf, Rest, QuotientHasRoom, NeedsSecondLimb, TopLimbs, Normalised, AtPlace;
    RoomForStep(n, d, limbs);
    TopPart(n, d);
  }

  lemma {:induction false} RestKeepsRoom(n: nat, d: Positive, lower: nat, limbs: nat)
    requires QuotientHasRoom(n, d, limbs)
    ensures Rest(n, d, lower) >= 0 && QuotientHasRoom(Rest(n, d, lower), d, Min(lower, limbs))
  {
    hide LimbsOf, Rest, SecondLimbAt;
    SameInRest(n, d, lower, 0);
    forall a: nat | Min(lower, limbs) < a ensures !SecondLimbAt(Rest(n, d, lower), d, a) {
      SameInRest(n, d, lower, a);
      if a > limbs {
        NoneBeyond(n, d, limbs, a);
      }
    }
  }

  lemma {:induction false} LimbWithoutRoom(n: nat, d: Positive, lower: nat, limbs: nat)
    requires !QuotientHasRoom(n, d, limbs)
    requires forall b: nat :: b > lower + 1 ==> !SecondLimbAt(n, d, b)
    requires SecondLimbAt(n, d, lower) ==> n >= AtPlace(d, lower + 1)
    requires SecondLimbAt(n, d, lower + 1) ==> n >= AtPlace(d, lower + 1)
    ensures Rest(n, d, lower) >= 0
    ensures (n >= AtPlace(d, lower + 1) && lower >= limbs) || (lower >= 1 && !QuotientHasRoom(Rest(n, d, lower), d, Min(lower, limbs)))
  {
    hide LimbsOf, Rest, SecondLimbAt, AtPlace;
    var a: nat :| limbs < a <= LimbsOf(n) && SecondLimbAt(n, d, a);
    SameInRest(n, d, lower, a);
    if a < lower && QuotientHasRoom(Rest(n, d, lower), d, Min(lower, limbs)) {
      NoneBeyond(Rest(n, d, lower), d, Min(lower, limbs), a);
    }
  }

  /** One division of at most one limb more than the denominator: its numerator, and the limbs of its quotient span. */
  datatype Step = Step(top: nat, limbs: nat) {
    /** The lowest limb of the quotient is written by itself only when there is a second one. */
    predicate WritesInside(d: nat) {
      NeedsSecondLimb(top, d) ==> limbs >= 1
    }
  }

  /** The steps that a division by a normalised denominator makes, in order. */
  function Steps(n: nat, d: Positive, limbs: nat): seq<Step>
    decreases n
  {
    var above := LimbsOf(n) - LimbsOf(d);
    if above <= 0 then []
    else if above == 1 then [Step(n, limbs)]
    else
      RestSmaller(n, d);
      RestDivides(n, d, above - 1);
      [Step(TopLimbs(n, above - 1), Max(0, limbs - (above - 1)))] + Steps(Rest(n, d, above - 1), d, Min(above - 1, limbs))
  }

  lemma StepsUnfold(n: nat, d: Positive, limbs: nat)
    ensures var lower := LimbsOf(n) - LimbsOf(d) - 1;
            && (lower < 0 ==> Steps(n, d, limbs) == [])
            && (lower == 0 ==> Steps(n, d, limbs) == [Step(n, limbs)])
            && (lower >= 1 ==>
                  && TopLimbs(n, lower) >= 0 && Rest(n, d, lower) >= 0
                  && Steps(n, d, limbs)
                  == [Step(TopLimbs(n, lower), Max(0, limbs - lower))] + Steps(Rest(n, d, lower), d, Min(lower, limbs)))
  {
    hide LimbsOf, Rest, TopLimbs;
    var lower := LimbsOf(n) - LimbsOf(d) - 1;
    if lower >= 1 {
      RestSmaller(n, d);
      RestDivides(n, d, lower);
    }
  }

  predicate AllInside(steps: seq<Step>, d: nat) {
    forall step :: step in steps ==> step.WritesInside(d)
  }

  lemma AllInsideParts(first: Step, others: seq<Step>, d: nat)
    ensures AllInside([first] + others, d) <==> first.WritesInside(d) && AllInside(others, d)
    ensures AllInside([], d)
  {
    hide Step.WritesInside;
    if AllInside([first] + others, d) {
      assert first in [first] + others;
    }
  }

  /** There is room if and only if no step writes the lowest limb of a quotient span without limbs. */
  lemma {:induction false} RoomIff(n: nat, d: Positive, limbs: nat)
    requires Normalised(d)
    ensures QuotientHasRoom(n, d, limbs) <==> AllInside(Steps(n, d, limbs), d)
    decreases n
  {
    hide BasePow, LimbsOf, Rest, TopLimbs, Normalised, NeedsSecondLimb, QuotientHasRoom, AllInside;
    var above := LimbsOf(n) - LimbsOf(d);
    if above <= 0 {
      RoomForShort(n, d, limbs);
      AllInsideParts(Step(0, 0), [], d);
    } else {
      RoomForStep(n, d, limbs);
      TopPart(n, d);
      if above == 1 {
        AllInsideParts(Step(n, limbs), [], d);
        assert [Step(n, limbs)] + [] == [Step(n, limbs)];
      } else {
        var lower := above - 1;
        RestSmaller(n, d);
        RoomIff(Rest(n, d, lower), d, Min(lower, limbs));
        AllInsideParts(Step(TopLimbs(n, lower), Max(0, limbs - lower)), Steps(Rest(n, d, lower), d, Min(lower, limbs)), d);
      }
    }
  }

  lemma {:induction false} RoomForShort(n: nat, d: Positive, limbs: nat)
    requires Normalised(d) && LimbsOf(n) <= LimbsOf(d)
    ensures QuotientHasRoom(n, d, limbs)
  {
    hide BasePow, LimbsOf, SecondLimbAt, Normalised, AtPlace;
    LimbsOfBounds(n);
    BasePowMono(LimbsOf(n), LimbsOf(d));
    PlaceBounds(d, 0);
    forall a: nat | a >= 1 ensures !SecondLimbAt(n, d, a) {
      PlaceMono(d, 1, a);
      NotBelow(n, d, a);
    }
  }

  lemma {:induction false} RoomForQuotient(n: nat, d: Positive, limbs: nat)
    requires n / d < BasePow(limbs)
    ensures QuotientHasRoom(n, d, limbs)
  {
    hide BasePow, LimbsOf, SecondLimbAt;
    forall a: nat | a >= limbs ensures !SecondLimbAt(n, d, a) {
      BasePowMono(limbs, a);
      if n >= AtPlace(d, a) {
        LessThanQuotient(n, d, BasePow(a));
      }
      NotBelow(n, d, a);
    }
  }

  // Joining the limbs found below to those found above.
  lemma {:induction false} JoinQuotient(low: nat, high: nat, lower: nat, size: nat)
    requires low < BasePow(lower)
    ensures lower < size ==> (low + BasePow(lower) * high) % BasePow(size) == low + BasePow(lower) * (high % BasePow(size - lower))
    ensures lower >= size ==> (low + BasePow(lower) * high) % BasePow(size) == low % BasePow(size)
  {
    hide BasePow;
    var p := BasePow(lower);
    if lower < size {
      var r := BasePow(size - lower);
      BasePowAdd(lower, size - lower);
      assert high == (high / r) * r + high % r;
      Distribute((high / r) * r, high % r, p);
      ThreeWay(high / r, r, p);
      ThreeWay(p, high / r, r);
      MulMono(p, high % r + 1, r);
      Distribute(high % r, 1, p);
      MulMono(p, 0, high % r);
      DivModUnique(low + p * high, BasePow(size), high / r, low + p * (high % r));
    } else {
      BasePowAdd(size, lower - size);
      ThreeWay(BasePow(size), BasePow(lower - size), high);
      ModAddMultiple(low, BasePow(lower - size) * high, BasePow(size));
    }
  }

  lemma PartsOf(s: Span, k: nat)
    requires s.InBounds() && k < s.LimbSize()
    ensures s.Content() == s.FirstLimbs(k).Content() + s.Subspan(k).Content()
    ensures s.Number() == s.FirstLimbs(k).Number() + BasePow(k) * s.Subspan(k).Number()
  {
    hide BasePow, LimbCount, Value;
    var low, high := s.FirstLimbs(k), s.Subspan(k);
    assert |low.Content()| == k;
    assert s.Content() == low.Content() + high.Content();
    ValueCat(low.Content(), high.Content());
  }

  // Copies the lower limbs of the numerator below the remainder of its top limbs.
  method CopyLower(rest: Span, numerator: Span, lower: nat)
    requires rest.InBounds() && numerator.InBounds() && rest.data != numerator.data
    requires lower < rest.LimbSize() && lower <= numerator.LimbSize()
    modifies rest.data
    ensures rest.Number() == numerator.Number() % BasePow(lower) + BasePow(lower) * old(rest.Subspan(lower).Number())
  {
    hide BasePow, LimbCount, Pow2;
    ghost var s := numerator.Content();
    var upper := rest.Subspan(lower);
    ghost var u := upper.Content();
    assert numerator.FirstLimbs(lower).Content() == s[..lower];
    BitCopy(rest.FirstLimbs(lower), numerator.FirstLimbs(lower));
    assert upper.Content() == u;
    PartsOf(rest, lower);
    LowFull(s[..lower], lower);
    ValueSplitDivMod(s, lower);
  }

  // Divides the top limbs; returns the rest of the numerator in storage of its own.
  method DivideTop(quotient: Span, numerator: Span, denominator: Span, width: nat, lower: nat)
      returns (rest: Span, ghost step: Step)
    requires quotient.InBounds() && numerator.Normal() && denominator.Normal()
    requires quotient.data != numerator.data && quotient.data != denominator.data
    requires Normalised(denominator.Number()) && denominator.Number() > 0
    requires width == BitWidth(numerator.Number())
    requires LimbsOf(numerator.Number()) > LimbsOf(denominator.Number()) + 1
    requires lower == LimbsOf(numerator.Number()) - LimbsOf(denominator.Number()) - 1
    requires NeedsSecondLimb(TopLimbs(numerator.Number(), lower), denominator.Number()) ==> lower < quotient.LimbSize()
    modifies quotient.data
    ensures OnlyWithin(quotient)
    ensures fresh(rest.data) && rest.Normal()
    ensures rest.Number() == Rest(numerator.Number(), denominator.Number(), lower)
    ensures step == Step(TopLimbs(numerator.Number(), lower), Max(0, quotient.LimbSize() - lower))
    ensures quotient.Subspan(lower).Number()
         == (TopLimbs(numerator.Number(), lower) / denominator.Number()) % BasePow(quotient.Subspan(lower).LimbSize())
  {
    hide BasePow, LimbCount, BitWidth, Pow2, Normalised, NeedsSecondLimb, LimbsOf;
    ghost var n, d := numerator.Number(), denominator.Number();
    assert LimbCount(width) == LimbsOf(n) by { LimbsOfDefinition(n); }
    rest := NewZero(width);
    var upper := rest.Subspan(lower);
    var top := numerator.Subspan(lower);
    SubspanNumber(numerator, lower);
    TopPart(n, d);
    step := Step(top.Number(), quotient.Subspan(lower).LimbSize());
    DivideSimilarSized(quotient.Subspan(lower), upper, top, denominator);
    RemainderFits(TopLimbs(n, lower), d, upper.LimbSize());
    LimbsFit(numerator);
    CopyLower(rest, numerator, lower);
    RestSmaller(n, d);
    BitWidthBounds(n);
  }

  lemma LimbsOfDefinition(n: nat)
    ensures LimbsOf(n) == LimbCount(BitWidth(n))
  {
  }

  lemma {:induction false} LimbsFit(s: Span)
    requires s.InBounds()
    ensures LimbsOf(s.Number()) <= s.LimbSize()
  {
    hide BasePow, LimbCount, BitWidth;
    ValueBound(s.Content());
    LimbCountOfValue(s.Number(), s.LimbSize());
  }

  lemma {:induction false} RemainderFits(c: nat, d: Positive, limbs: nat)
    requires LimbsOf(d) <= limbs
    ensures 0 <= c % d && (c % d) % BasePow(limbs) == c % d
  {
    hide BasePow, LimbCount, BitWidth;
    LimbsOfBounds(d);
    BasePowMono(LimbsOf(d), limbs);
    DivModUnique(c % d, BasePow(limbs), 0, c % d);
  }

  // Numerators that are not longer than the denominator.
  method DivideShort(quotient: Span, remainder: Span, numerator: Span, denominator: Span, sameSize: bool)
    requires quotient.InBounds() && remainder.InBounds() && numerator.InBounds() && denominator.InBounds()
    requires Separate(quotient, remainder, numerator, denominator)
    requires Normalised(denominator.Number()) && denominator.Number() > 0
    requires LimbsOf(numerator.Number()) <= LimbsOf(denominator.Number())
    requires sameSize <==> LimbsOf(numerator.Number()) == LimbsOf(denominator.Number())
    modifies quotient.data, remainder.data
    ensures OnlyWithin(quotient) && OnlyWithin(remainder)
    ensures quotient.Number() == (old(numerator.Number()) / denominator.Number()) % BasePow(quotient.LimbSize())
    ensures remainder.Number() == (old(numerator.Number()) % denominator.Number()) % BasePow(remainder.LimbSize())
  {
    hide BasePow, LimbCount, BitWidth, Pow2, LimbsOf, IsDifference;
    ghost var n, d := numerator.Number(), denominator.Number();
    ghost var s, t := numerator.Content(), denominator.Content();
    ShortQuotient(n, d);
    LowIsMod(s, remainder.LimbSize());
    var less := !sameSize;
    if sameSize {
      less := Compare(Less, numerator, denominator);
    }
    if less {
      DivModUnique(n, d, 0, n);
      var empty := NewNull();
      LowIsMod(empty.Content(), quotient.LimbSize());
      BitCopy(quotient, empty);
      BitCopy(remainder, numerator);
    } else {
      DivModUnique(n, d, 1, n - d);
      var one := NewOne();
      LowIsMod(one.Content(), quotient.LimbSize());
      BitCopy(quotient, one);
      var borrow := Subtract(remainder, numerator, denominator, false);
      DifferenceModulo(remainder.Content(), borrow, s, t);
    }
  }

  method NewOne() returns (s: Span)
    ensures fresh(s.data) && s.InBounds() && s.Number() == 1
  {
    var data := new Limb[1](_ => 1);
    s := Span(data, 0, 1);
    MulMono(1, 1, LIMB_BITS);
    LimbCountUnique(1, 1);
    assert s.Content() == [1];
    ValueSingle(1);
  }

  lemma {:induction false} ShortQuotient(n: nat, d: nat)
    requires Normalised(d) && LimbsOf(n) <= LimbsOf(d)
    ensures LimbsOf(n) < LimbsOf(d) ==> n < d
    ensures n < 2 * d
  {
    hide BasePow, LimbCount, BitWidth;
    NormalisedBounds(d);
    LimbsOfBounds(n);
    LimbsOfBounds(d);
    BasePowMono(LimbsOf(n), LimbsOf(d));
    if LimbsOf(n) < LimbsOf(d) {
      BasePowMono(LimbsOf(n), LimbsOf(d) - 1);
    }
  }

  /** Division by a normalised denominator: the top limbs first, then what they leave, as long as there is
      more than one limb above the denominator.  Returns the steps it made. */
  method DivideNormalized(quotient: Span, remainder: Span, numerator: Span, denominator: Span) returns (ghost steps: seq<Step>)
    requires quotient.InBounds() && remainder.InBounds() && numerator.Normal() && denominator.Normal()
    requires Separate(quotient, remainder, numerator, denominator)
    requires Normalised(denominator.Number()) && denominator.Number() > 0
    requires QuotientHasRoom(numerator.Number(), denominator.Number(), quotient.LimbSize())
    modifies quotient.data, remainder.data
    ensures OnlyWithin(quotient) && OnlyWithin(remainder)
    ensures quotient.Number() == (old(numerator.Number()) / denominator.Number()) % BasePow(quotient.LimbSize())
    ensures remainder.Number() == (old(numerator.Number()) % denominator.Number()) % BasePow(remainder.LimbSize())
    ensures steps == Steps(old(numerator.Number()), denominator.Number(), quotient.LimbSize())
    decreases numerator.Number()
  {
    hide BasePow, LimbCount, BitWidth, Pow2, Normalised, LimbsOf, NeedsSecondLimb, QuotientHasRoom, Rest, TopLimbs, Steps, Value;
    ghost var n, d := numerator.Number(), denominator.Number();
    var width := BitWidthOf(numerator);
    var denominatorWidth := BitWidthOf(denominator);
    var size, denominatorSize := LimbCount(width), LimbCount(denominatorWidth);
    LimbsOfDefinition(n);
    LimbsOfDefinition(d);
    StepsUnfold(n, d, quotient.LimbSize());
    if size <= denominatorSize {
      steps := [];
      DivideShort(quotient, remainder, numerator, denominator, size == denominatorSize);
    } else if size == denominatorSize + 1 {
      RoomAtStep(n, d, quotient.LimbSize());
      steps := [Step(n, quotient.LimbSize())];
      DivideSimilarSized(quotient, remainder, numerator, denominator);
    } else {
      var lower := size - denominatorSize - 1;
      RoomAtStep(n, d, quotient.LimbSize());
      var rest, first := DivideTop(quotient, numerator, denominator, width, lower);
      RestSmaller(n, d);
      RestDivides(n, d, lower);
      ghost var high := quotient.Subspan(lower).Content();
      var others := DivideNormalized(quotient.FirstLimbs(lower), remainder, rest, denominator);
      assert quotient.Subspan(lower).Content() == high;
      steps := [first] + others;
      FinishQuotient(quotient, n, d, lower);
    }
  }

  lemma {:induction false} FinishQuotient(quotient: Span, n: nat, d: Positive, lower: nat)
    requires quotient.InBounds()
    requires TopLimbs(n, lower) >= 0 && Rest(n, d, lower) >= 0
    requires quotient.FirstLimbs(lower).Number() == (Rest(n, d, lower) / d) % BasePow(quotient.FirstLimbs(lower).LimbSize())
    requires quotient.Subspan(lower).Number() == (TopLimbs(n, lower) / d) % BasePow(quotient.Subspan(lower).LimbSize())
    ensures quotient.Number() == (n / d) % BasePow(quotient.LimbSize())
  {
    hide BasePow, LimbCount, Rest, Value;
    var size := quotient.LimbSize();
    RestDivides(n, d, lower);
    var low, high := Rest(n, d, lower) / d, TopLimbs(n, lower) / d;
    DivideNat(TopLimbs(n, lower), d);
    JoinQuotient(low, high, lower, size);
    if lower < size {
      DivModUnique(low, BasePow(lower), 0, low);
      PartsOf(quotient, lower);
    }
  }

  // Dividing by any denominator

  /** How far a denominator has to be shifted left to be normalised. */
  function NormalisingShift(d: Positive): nat {
    if BitWidth(d) % LIMB_BITS == 0 then 0 else LIMB_BITS - BitWidth(d) % LIMB_BITS
  }

  lemma {:induction false} ShiftNormalises(d: Positive)
    ensures d * Pow2(NormalisingShift(d)) >= 1
    ensures BitWidth(d * Pow2(NormalisingShift(d))) == BitWidth(d) + NormalisingShift(d)
    ensures Normalised(d * Pow2(NormalisingShift(d)))
    ensures NormalisingShift(d) < LIMB_BITS
  {
    hide BasePow, LimbCount, BitWidth, Pow2;
    var w, s := BitWidth(d), NormalisingShift(d);
    var p := Pow2(s);
    BitWidthBounds(d);
    MulMono(d, 1, p);
    Pow2Add(w, s);
    Pow2Add(w - 1, s);
    MulMono(p, Pow2(w - 1), d);
    MulStrict(p, d, Pow2(w));
    BitWidthUnique(d * p, w + s);
    QuotientAndRemainder(w, LIMB_BITS);
    var q := w / LIMB_BITS;
    var limbs := if s == 0 then q else q + 1;
    Distribute(q, 1, LIMB_BITS);
    assert w + s == limbs * LIMB_BITS;
    DivideNat(w, LIMB_BITS);
    LimbCountExact(limbs);
  }

  lemma ScaledDivision(n: nat, d: Positive, p: Positive)
    ensures d * p >= 1 && (n * p) / (d * p) == n / d && (n * p) % (d * p) == (n % d) * p
  {
    QuotientAndRemainder(n, d);
    DivideNat(n, d);
    MulMono(p, 1, d);
    Distribute((n / d) * d, n % d, p);
    ThreeWay(n / d, d, p);
    MulMono(p, n % d + 1, d);
    Distribute(n % d, 1, p);
    MulMono(p, 0, n % d);
    DivModUnique(n * p, d * p, n / d, (n % d) * p);
  }

  /** The quotient span has room for the division after both operands have been shifted. */
  ghost predicate DivisionHasRoom(n: nat, d: Positive, limbs: nat) {
    ShiftNormalises(d);
    QuotientHasRoom(n * Pow2(NormalisingShift(d)), d * Pow2(NormalisingShift(d)), limbs)
  }

  /** There is room for a division by any denominator if and only if no step of the division of the shifted numbers
      writes the lowest limb of a quotient span without limbs. */
  lemma DivisionRoomIff(n: nat, d: Positive, limbs: nat)
    ensures var p := Pow2(NormalisingShift(d));
            && n * p >= 0 && d * p >= 1
            && (DivisionHasRoom(n, d, limbs) <==> AllInside(Steps(n * p, d * p, limbs), d * p))
  {
    hide Pow2, NormalisingShift, QuotientHasRoom, Steps, Normalised, AllInside;
    ShiftNormalises(d);
    MulMono(Pow2(NormalisingShift(d)), 0, n);
    RoomIff(n * Pow2(NormalisingShift(d)), d * Pow2(NormalisingShift(d)), limbs);
  }

  /** A span that holds the true quotient has room. */
  lemma {:induction false} RoomForTrueQuotient(n: nat, d: Positive, limbs: nat)
    requires n / d < BasePow(limbs)
    ensures DivisionHasRoom(n, d, limbs)
  {
    hide BasePow, LimbCount, BitWidth, Pow2, QuotientHasRoom;
    ShiftNormalises(d);
    var p := Pow2(NormalisingShift(d));
    ScaledDivision(n, d, p);
    MulMono(p, 0, n);
    RoomForQuotient(n * p, d * p, limbs);
  }

  lemma NormalisingNothing(d: Positive)
    requires Normalised(d)
    ensures NormalisingShift(d) == 0 && Pow2(0) == 1
  {
    DivModUnique(BitWidth(d), LIMB_BITS, LimbsOf(d), 0);
  }

  /** An empty quotient span is not always enough.  For a denominator whose top bit is set, and numerators below the
      denominator moved up by two limbs, the division fails exactly on the numerators from the denominator moved up by
      one limb to the last one with one limb more than the denominator. */
  lemma {:induction false} EmptyQuotientRoomIff(n: nat, d: Positive)
    requires Normalised(d) && n < d * (BASE * BASE)
    ensures DivisionHasRoom(n, d, 0) <==> !(d * BASE <= n < BasePow(LimbsOf(d) + 1))
  {
    hide BasePow, Normalised, LimbsOf, AtPlace, QuotientHasRoom, NormalisingShift;
    NormalisingNothing(d);
    assert n * 1 == n && d * 1 == d;
    assert AtPlace(d, 1) == d * BASE && AtPlace(d, 2) == d * (BASE * BASE) by { LowPlaces(d); }
    assert QuotientHasRoom(n, d, 0) ==> !SecondLimbAt(n, d, 1) by {
      if QuotientHasRoom(n, d, 0) {
        NoneBeyond(n, d, 0, 1);
      }
    }
    DivModUnique(n, AtPlace(d, 2), 0, n);
    assert SecondLimbAt(n, d, 1) <==> d * BASE <= n < BasePow(LimbsOf(d) + 1);
    forall a: nat | a >= 2 ensures !SecondLimbAt(n, d, a) {
      PlaceMono(d, 2, a);
      NotBelow(n, d, a);
    }
    assert !SecondLimbAt(n, d, 1) ==> QuotientHasRoom(n, d, 0) by { RoomFromPlaces(n, d); }
  }

  lemma LowPlaces(d: Positive)
    ensures AtPlace(d, 1) == d * BASE && AtPlace(d, 2) == d * (BASE * BASE)
  {
    BasePowOne();
    assert BasePow(2) == BASE * BasePow(1);
  }

  lemma RoomFromPlaces(n: nat, d: Positive)
    requires forall a: nat :: a >= 2 ==> !SecondLimbAt(n, d, a)
    ensures !SecondLimbAt(n, d, 1) ==> QuotientHasRoom(n, d, 0)
  {
    hide SecondLimbAt, LimbsOf;
  }

  lemma {:induction false} ShiftFits(v: nat, width: nat, shift: nat)
    requires v < Pow2(width)
    ensures 0 <= v * Pow2(shift) < Pow2(width + shift)
    ensures (v * Pow2(shift)) % BasePow(LimbCount(width + shift)) == v * Pow2(shift)
  {
    hide BasePow, LimbCount, Pow2;
    var p := Pow2(shift);
    Pow2Add(width, shift);
    MulMono(p, 0, v);
    MulStrict(p, v, Pow2(width));
    FitsLimbs(v * p, width + shift);
    DivModUnique(v * p, BasePow(LimbCount(width + shift)), 0, v * p);
  }

  method ShiftedCopy(value: Span, width: nat, shift: nat) returns (s: Span)
    requires value.InBounds() && width == BitWidth(value.Number())
    ensures fresh(s.data) && s.Normal()
    ensures s.Number() == value.Number() * Pow2(shift)
  {
    hide BasePow, LimbCount, Pow2;
    BitWidthBounds(value.Number());
    s := NewZero(width + shift);
    ShiftFits(value.Number(), width, shift);
    ShiftLeft(s, value, shift);
  }

  // Shifts the remainder back; an empty span takes nothing.
  method ShiftBack(remainder: Span, shifted: Span, shift: nat, ghost r: nat)
    requires remainder.InBounds() && shifted.InBounds() && remainder.data != shifted.data
    requires shifted.bits == remainder.bits + shift
    requires remainder.bits == 0 || r < Pow2(remainder.bits)
    requires shifted.Number() == (r * Pow2(shift)) % BasePow(shifted.LimbSize())
    modifies remainder.data
    ensures OnlyWithin(remainder)
    ensures remainder.bits > 0 ==> remainder.Number() == r
  {
    hide BasePow, LimbCount, Pow2;
    ShiftRight(remainder, shifted, shift);
    if remainder.bits > 0 {
      ShiftFits(r, remainder.bits, shift);
      DivModUnique(r * Pow2(shift), Pow2(shift), r, 0);
      FitsLimbs(r, remainder.bits);
      DivModUnique(r, BasePow(remainder.LimbSize()), 0, r);
    }
  }

  method DivideShifted(quotient: Span, remainder: Span, numerator: Span, denominator: Span, numeratorWidth: nat, width: nat, shift: nat)
    requires quotient.InBounds() && remainder.InBounds() && numerator.Normal() && denominator.Normal()
    requires Separate(quotient, remainder, numerator, denominator)
    requires numeratorWidth == BitWidth(numerator.Number()) && width == BitWidth(denominator.Number())
    requires denominator.Number() > 0 && shift == NormalisingShift(denominator.Number())
    requires remainder.bits == 0 || numerator.Number() % denominator.Number() < Pow2(remainder.bits)
    requires DivisionHasRoom(numerator.Number(), denominator.Number(), quotient.LimbSize())
    modifies quotient.data, remainder.data
    ensures OnlyWithin(quotient) && OnlyWithin(remainder)
    ensures quotient.Number() == (old(numerator.Number()) / denominator.Number()) % BasePow(quotient.LimbSize())
    ensures remainder.bits > 0 ==> remainder.Number() == old(numerator.Number()) % denominator.Number()
  {
    hide BasePow, LimbCount, BitWidth, Pow2, Normalised, LimbsOf, QuotientHasRoom, NormalisingShift;
    ghost var n, d := numerator.Number(), denominator.Number();
    var shiftedNumerator := ShiftedCopy(numerator, numeratorWidth, shift);
    var shiftedDenominator := ShiftedCopy(denominator, width, shift);
    var shiftedRemainder := NewZero(remainder.bits + shift);
    ShiftNormalises(d);
    ScaledDivision(n, d, Pow2(shift));
    var _ := DivideNormalized(quotient, shiftedRemainder, shiftedNumerator, shiftedDenominator);
    ShiftBack(remainder, shiftedRemainder, shift, n % d);
  }

  lemma Unshifted(n: nat, d: Positive)
    requires BitWidth(d) % LIMB_BITS == 0
    ensures NormalisingShift(d) == 0 && d * Pow2(0) == d && n * Pow2(0) == n
  {
    assert Pow2(0) == 1;
  }

  /** The division a caller gets.  The remainder span is either empty, when the remainder is not wanted, or
      holds the true remainder; the quotient is cut off at its span. */
  method Divide(quotient: Span, remainder: Span, numerator: Span, denominator: Span)
    requires quotient.InBounds() && remainder.InBounds() && numerator.Normal() && denominator.Normal()
    requires Separate(quotient, remainder, numerator, denominator)
    requires denominator.Number() > 0
    requires remainder.bits == 0 || numerator.Number() % denominator.Number() < Pow2(remainder.bits)
    requires DivisionHasRoom(numerator.Number(), denominator.Number(), quotient.LimbSize())
    modifies quotient.data, remainder.data
    ensures OnlyWithin(quotient) && OnlyWithin(remainder)
    ensures quotient.Number() == (old(numerator.Number()) / denominator.Number()) % BasePow(quotient.LimbSize())
    ensures remainder.bits > 0 ==> remainder.Number() == old(numerator.Number()) % denominator.Number()
  {
    hide BasePow, LimbCount, BitWidth, Pow2, Normalised, LimbsOf, QuotientHasRoom;
    ghost var n, d := numerator.Number(), denominator.Number();
    var numeratorWidth := BitWidthOf(numerator);
    var width := BitWidthOf(denominator);
    ShiftNormalises(d);
    if width % LIMB_BITS == 0 {
      Unshifted(n, d);
      var _ := DivideNormalized(quotient, remainder, numerator, denominator);
      if remainder.bits > 0 {
        FitsLimbs(n % d, remainder.bits);
        DivModUnique(n % d, BasePow(remainder.LimbSize()), 0, n % d);
      }
    } else {
      var shift := LIMB_BITS - width % LIMB_BITS;
      DivideShifted(quotient, remainder, numerator, denominator, numeratorWidth, width, shift);
    }
  }
}
