/** Schoolbook multiplication with truncation to the result. */
module Multiplication {
  import opened Arithmetic
  import opened Limbs
  import opened Words
  import opened Spans
  import Chains

  // One row adds left * digit at limb i to what the rows before it left in `base`.  The limbs finished
  // so far are p; `lost` counts the multiples of the intermediate's modulus that were cut off.
  ghost predicate IsRow(p: seq<Limb>, carry: Limb, lost: nat, base: seq<Limb>, l: seq<Limb>, digit: Limb, i: nat, size: nat) {
    && i <= |p|
    && Value(p) + carry * BasePow(|p|) + lost * BasePow(size)
       == Low(base, |p|) + (digit * Low(l, |p| - i)) * BasePow(i)
  }

  lemma IsRowStart(base: seq<Limb>, l: seq<Limb>, digit: Limb, i: nat, size: nat)
    requires i <= |base|
    ensures IsRow(base[..i], 0, 0, base, l, digit, i, size)
  {
    LowStep(l, 0);
    assert i == |base| ==> base[..i] == base;
  }

  lemma RowArithmetic(v: int, carry: int, lost: int, low: int, digit: int, lowL: int, q: int, pk: int, ps: int,
                      lower: int, upper: int, x: int, cur: int, b: int, qj: int)
    requires v + carry * pk + lost * ps == low + (digit * lowL) * q
    requires lower + b * upper == x * digit + cur + carry
    requires pk == q * qj
    ensures (v + lower * pk) + upper * (b * pk) + lost * ps == (low + cur * pk) + (digit * (lowL + x * qj)) * q
  {
    calc {
      lower * pk;
      (x * digit + cur + carry - b * upper) * pk;
      { Distribute(x * digit + cur + carry, b * upper, pk); Distribute(x * digit + cur, carry, pk); Distribute(x * digit, cur, pk); }
      (x * digit) * pk + cur * pk + carry * pk - (b * upper) * pk;
      { ThreeWay(b, upper, pk); ThreeWay(b, pk, upper); }
      (x * digit) * pk + cur * pk + carry * pk - upper * (b * pk);
    }
    calc {
      (digit * (lowL + x * qj)) * q;
      { Distribute(lowL, x * qj, digit); Distribute(digit * lowL, digit * (x * qj), q); }
      (digit * lowL) * q + (digit * (x * qj)) * q;
      { ThreeWay(digit, x, qj); ThreeWay(digit * x, qj, q); ThreeWay(x, digit, 1); }
      (digit * lowL) * q + (x * digit) * pk;
    }
  }

  lemma IsRowStep(p: seq<Limb>, carry: Limb, base: seq<Limb>, l: seq<Limb>, digit: Limb, i: nat, size: nat)
    requires IsRow(p, carry, 0, base, l, digit, i, size)
    requires |p| < size
    ensures var (lower, upper) := ExtendedMultiplyAdd(Digit(l, |p| - i), digit, Digit(base, |p|), carry);
            && IsRow(p + [lower], upper, 0, base, l, digit, i, size)
            && (|p| + 1 == size ==> IsRow(p + [lower], 0, upper, base, l, digit, i, size))
  {
    hide ExtendedMultiplyAdd;
    var k := |p|;
    var j := k - i;
    var x, cur := Digit(l, j), Digit(base, k);
    var (lower, upper) := ExtendedMultiplyAdd(x, digit, cur, carry);
    BasePowAdd(i, j);
    BasePowStrict(k, k + 1);
    RowArithmetic(Value(p), carry, 0, Low(base, k), digit, Low(l, j), BasePow(i), BasePow(k), BasePow(size), lower, upper, x, cur, BASE, BasePow(j));
    LowStep(l, j);
    LowStep(base, k);
    assert (p + [lower])[..k] == p;
  }

  // The rows finished so far, as a number, are left times the lowest limbs of right.
  ghost predicate IsPartialProduct(w: seq<Limb>, lost: nat, l: seq<Limb>, r: seq<Limb>, i: nat, size: nat) {
    Value(w) + lost * BasePow(size) == Value(l) * Low(r, i)
  }

  lemma RowsArithmetic(v: int, carry: int, lostRow: int, base: int, lost: int, l: int, lowR: int, digit: int, q: int, pk: int, ps: int)
    requires v + carry * pk + lostRow * ps == base + (digit * l) * q
    requires base + lost * ps == l * lowR
    ensures v + carry * pk + (lost + lostRow) * ps == l * (lowR + digit * q)
  {
    Distribute(lost, lostRow, ps);
    Distribute(lowR, digit * q, l);
    ThreeWay(l, digit, q);
    ThreeWay(digit, l, q);
  }

  // A row that leaves its carry in a new limb.
  lemma RowWritten(p: seq<Limb>, carry: Limb, base: seq<Limb>, l: seq<Limb>, r: seq<Limb>, i: nat, size: nat, lost: nat)
    requires i < |r| && |p| == i + |l| && |base| <= |p|
    requires IsRow(p, carry, 0, base, l, r[i], i, size)
    requires IsPartialProduct(base, lost, l, r, i, size)
    ensures IsPartialProduct(p + [carry], lost, l, r, i + 1, size)
  {
    LowStep(r, i);
    assert (p + [carry])[..|p|] == p;
    RowsArithmetic(Value(p), carry, 0, Value(base), lost, Value(l), Low(r, i), r[i], BasePow(i), BasePow(|p|), BasePow(size));
  }

  // A row that ends at the top of the intermediate, losing its carry.
  lemma RowCut(p: seq<Limb>, carry: Limb, lostRow: nat, base: seq<Limb>, l: seq<Limb>, r: seq<Limb>, i: nat, size: nat, lost: nat)
      returns (newLost: nat)
    requires i < |r| && |p| == size && size <= i + |l| && |base| <= size
    requires IsRow(p, carry, lostRow, base, l, r[i], i, size)
    requires IsPartialProduct(base, lost, l, r, i, size)
    ensures IsPartialProduct(p, newLost, l, r, i + 1, size)
  {
    hide BasePow;
    LowStep(r, i);
    var j := size - i;
    var h := UpperLimbs(l, j);
    var ps := BasePow(size);
    BasePowAdd(i, j);
    // r[i] * Value(l) at limb i differs from what was added by a multiple of the modulus
    CutRow(r[i], Value(l), Low(l, j), h, BasePow(i), BasePow(j));
    MulMono(r[i], 0, h);
    Distribute(carry, lostRow, ps);
    Distribute(carry + lostRow, r[i] * h, ps);
    RowsArithmetic(Value(p), 0, carry + lostRow + r[i] * h, Value(base), lost, Value(l), Low(r, i), r[i], BasePow(i), ps, ps);
    newLost := lost + (carry + lostRow + r[i] * h);
  }

  lemma CutRow(d: int, l: int, low: int, h: int, pi: int, pj: int)
    requires l == low + pj * h
    ensures (d * l) * pi == (d * low) * pi + (d * h) * (pi * pj)
  {
    Distribute(low, pj * h, d);
    Distribute(d * low, d * (pj * h), pi);
    CutArithmetic(d, pj, h, pi);
  }

  lemma CutArithmetic(d: int, pj: int, h: int, pi: int)
    ensures (d * (pj * h)) * pi == (d * h) * (pi * pj)
  {
    ThreeWay(pj, h, 1);
    ThreeWay(d, pj, h);
    ThreeWay(d * h, pj, pi);
    ThreeWay(d, h, pj);
  }

  lemma UpperLimbs(s: seq<Limb>, n: nat) returns (h: nat)
    ensures Value(s) == Low(s, n) + BasePow(n) * h
  {
    if n < |s| {
      h := Value(s[n..]);
      ValueSplit(s, n);
    } else {
      h := 0;
    }
  }

  lemma PartialStart(l: seq<Limb>, r: seq<Limb>, size: nat)
    ensures IsPartialProduct([], 0, l, r, 0, size)
  {
    LowStep(r, 0);
  }

  lemma ProductFinished(w: seq<Limb>, lost: nat, l: seq<Limb>, r: seq<Limb>, i: nat, size: nat)
    requires IsPartialProduct(w, lost, l, r, i, size)
    requires |w| == size && (i == size || i >= |r|)
    ensures Value(w) == (Value(l) * Value(r)) % BasePow(size)
  {
    ValueBound(w);
    var p := BasePow(size);
    DivModUnique(Value(l) * Low(r, i), p, lost, Value(w));
    if i < |r| {
      LowIsMod(r, i);
      ModMul(Value(l), Value(r), p);
    }
  }

  // The two lemmas below say that a product which fits the declared sizes is not cut.
  lemma ProductFitsBits(x: nat, y: nat, xBits: nat, yBits: nat)
    requires x < Pow2(xBits) && y < Pow2(yBits)
    ensures 0 <= x * y < Pow2(xBits + yBits)
  {
    Pow2Add(xBits, yBits);
    MulMono(x, 0, y);
    MulMono(y, x, Pow2(xBits));
    MulMono(Pow2(xBits), y + 1, Pow2(yBits));
    Distribute(y, 1, Pow2(xBits));
  }

  lemma IntermediateSize(resultBits: nat, leftBits: nat, rightBits: nat)
    ensures LimbCount(Min(resultBits, leftBits + rightBits)) <= LimbCount(resultBits)
    ensures LimbCount(Min(resultBits, leftBits + rightBits)) <= LimbCount(leftBits) + LimbCount(rightBits)
  {
    var a, b := LimbCount(leftBits), LimbCount(rightBits);
    LimbCountMono(Min(resultBits, leftBits + rightBits), resultBits);
    LimbCountBounds(leftBits);
    LimbCountBounds(rightBits);
    Distribute(a, b, LIMB_BITS);
    LimbCountMono(Min(resultBits, leftBits + rightBits), (a + b) * LIMB_BITS);
    LimbCountExact(a + b);
  }

  lemma TruncatedProduct(v: nat, resultBits: nat, productBits: nat)
    requires v < Pow2(productBits)
    ensures v % BasePow(LimbCount(Min(resultBits, productBits))) == v % BasePow(LimbCount(resultBits))
  {
    if productBits < resultBits {
      FitsLimbs(v, productBits);
      LimbCountMono(productBits, resultBits);
      BasePowMono(LimbCount(productBits), LimbCount(resultBits));
      DivModUnique(v, BasePow(LimbCount(productBits)), 0, v);
      DivModUnique(v, BasePow(LimbCount(resultBits)), 0, v);
    }
  }

  /** Row i: adds left times limb i of right into the intermediate, whose limbs written so far are `base`.
      No limb is read that an earlier row has not written. */
  method MultiplyRow(intermediate: Span, left: Span, right: Span, i: nat, resultLimbs: nat, ghost base: seq<Limb>, ghost lost: nat)
      returns (ghost w: seq<Limb>, ghost newLost: nat)
    requires intermediate.InBounds() && left.InBounds() && right.InBounds()
    requires left.data != intermediate.data && right.data != intermediate.data
    requires i < intermediate.LimbSize() <= resultLimbs && i < right.LimbSize()
    requires |base| == if i == 0 then 0 else Min(intermediate.LimbSize(), i + left.LimbSize())
    requires forall k :: 0 <= k < |base| ==> intermediate.data[intermediate.offset + k] == base[k]
    requires IsPartialProduct(base, lost, left.Content(), right.Content(), i, intermediate.LimbSize())
    modifies intermediate.data
    ensures OnlyWithin(intermediate)
    ensures |w| == Min(intermediate.LimbSize(), i + 1 + left.LimbSize())
    ensures forall k :: 0 <= k < |w| ==> intermediate.data[intermediate.offset + k] == w[k]
    ensures IsPartialProduct(w, newLost, left.Content(), right.Content(), i + 1, intermediate.LimbSize())
  {
    hide LimbCount, IsRow, IsPartialProduct, ExtendedMultiplyAdd, MultiplyAdd;
    var size := intermediate.LimbSize();
    ghost var l, r := left.Content(), right.Content();
    var leftOverlap := Min(size - i, left.LimbSize());
    var carry: Limb := 0;
    ghost var lostRow: nat := 0;
    w := base[..i];
    var digit := right.Read(i);
    IsRowStart(base, l, digit, i, size);
    for j := 0 to leftOverlap
      invariant OnlyWithin(intermediate)
      invariant |w| == i + j && forall k :: 0 <= k < |w| ==> intermediate.data[intermediate.offset + k] == w[k]
      invariant forall k :: |w| <= k < |base| ==> intermediate.data[intermediate.offset + k] == base[k]
      invariant lostRow != 0 ==> |w| == size
      invariant IsRow(w, carry, lostRow, base, l, digit, i, size)
    {
      var k := i + j;
      var x := left.Read(j);
      assert x == Digit(l, j);
      var current := if i == 0 then 0 else intermediate.data[intermediate.offset + k];
      assert current == Digit(base, k);
      IsRowStep(w, carry, base, l, digit, i, size);
      if k + 1 < resultLimbs {
        var (lower, upper) := ExtendedMultiplyAdd(x, digit, current, carry);
        intermediate.data[intermediate.offset + k] := lower;
        w := w + [lower];
        carry := upper;
      } else {
        lostRow := ExtendedMultiplyAdd(x, digit, current, carry).1;
        var lower := MultiplyAdd(x, digit, current, carry);
        assert lower == ExtendedMultiplyAdd(x, digit, current, carry).0;
        intermediate.data[intermediate.offset + k] := lower;
        w := w + [lower];
        carry := 0;
      }
    }
    if size > left.LimbSize() + i {
      intermediate.data[intermediate.offset + i + left.LimbSize()] := carry;
      RowWritten(w, carry, base, l, r, i, size, lost);
      w := w + [carry];
      newLost := lost;
    } else {
      newLost := RowCut(w, carry, lostRow, base, l, r, i, size, lost);
    }
  }

  /** All rows.  Afterwards the intermediate is left * right modulo its size. */
  method MultiplyRows(intermediate: Span, left: Span, right: Span, resultLimbs: nat)
    requires intermediate.InBounds() && left.InBounds() && right.InBounds()
    requires left.data != intermediate.data && right.data != intermediate.data
    requires intermediate.LimbSize() <= resultLimbs
    requires intermediate.LimbSize() <= left.LimbSize() + right.LimbSize()
    requires right.LimbSize() > 0 || intermediate.Number() == 0
    modifies intermediate.data
    ensures OnlyWithin(intermediate)
    ensures intermediate.Number() == (left.Number() * right.Number()) % BasePow(intermediate.LimbSize())
  {
    hide LimbCount, IsPartialProduct;
    var size := intermediate.LimbSize();
    ghost var l, r := left.Content(), right.Content();
    ghost var w: seq<Limb>, lost: nat := [], 0;
    PartialStart(l, r, size);
    var rightOverlap := Min(size, right.LimbSize());
    for i := 0 to rightOverlap
      invariant OnlyWithin(intermediate)
      invariant i == 0 ==> intermediate.Content() == old(intermediate.Content())
      invariant |w| == if i == 0 then 0 else Min(size, i + left.LimbSize())
      invariant forall k :: 0 <= k < |w| ==> intermediate.data[intermediate.offset + k] == w[k]
      invariant IsPartialProduct(w, lost, l, r, i, size)
    {
      w, lost := MultiplyRow(intermediate, left, right, i, resultLimbs, w, lost);
    }
    if rightOverlap == 0 && size > 0 {
      ProductOfEmpty(l, r, size);
    } else {
      assert intermediate.Content() == w;
      ProductFinished(w, lost, l, r, rightOverlap, size);
    }
  }

  lemma ProductOfEmpty(l: seq<Limb>, r: seq<Limb>, size: nat)
    requires r == []
    ensures (Value(l) * Value(r)) % BasePow(size) == 0
  {
    DivModUnique(0, BasePow(size), 0, 0);
  }

  // Copies the intermediate to the result, with zeros above it.
  method WriteProduct(result: Span, intermediate: Span)
    requires result.InBounds() && intermediate.InBounds()
    requires result.data != intermediate.data && intermediate.LimbSize() <= result.LimbSize()
    modifies result.data
    ensures OnlyWithin(result)
    ensures result.Number() == intermediate.Number()
  {
    hide LimbCount;
    var n := intermediate.LimbSize();
    ghost var v := intermediate.Content();
    for i := 0 to n
      invariant OnlyWithin(result)
      invariant forall k :: 0 <= k < i ==> result.data[result.offset + k] == Digit(v, k)
    {
      result.data[result.offset + i] := intermediate.Read(i);
    }
    for i := n to result.LimbSize()
      invariant OnlyWithin(result)
      invariant forall k :: 0 <= k < i ==> result.data[result.offset + k] == Digit(v, k)
    {
      result.data[result.offset + i] := 0;
    }
    Chains.ValueOfDigits(result.Content(), v);
  }

  /** result = left * right, cut off at the result's limbs, with an intermediate that starts uninitialised. */
  method Multiply(result: Span, left: Span, right: Span)
    requires result.InBounds() && left.Normal() && right.Normal()
    requires right.LimbSize() > 0 || Min(result.bits, left.bits + right.bits) == 0
    modifies result.data
    ensures OnlyWithin(result)
    ensures result.Number() == (old(left.Number()) * old(right.Number())) % BasePow(result.LimbSize())
  {
    hide LimbCount, BasePow, Pow2;
    var intermediate := NewUninitialised(Min(result.bits, left.bits + right.bits));
    IntermediateSize(result.bits, left.bits, right.bits);
    if right.LimbSize() == 0 {
      LimbCountExact(0);
      assert intermediate.Content() == [];
    }
    MultiplyRows(intermediate, left, right, result.LimbSize());
    ghost var l, r := left.Number(), right.Number();
    WriteProduct(result, intermediate);
    ProductFitsBits(l, r, left.bits, right.bits);
    TruncatedProduct(l * r, result.bits, left.bits + right.bits);
  }

  /** The same product with an intermediate that starts at zero, so that right may be empty. */
  method MultiplyCompiletime(result: Span, left: Span, right: Span)
    requires result.InBounds() && left.Normal() && right.Normal()
    modifies result.data
    ensures OnlyWithin(result)
    ensures result.Number() == (old(left.Number()) * old(right.Number())) % BasePow(result.LimbSize())
  {
    hide LimbCount, BasePow, Pow2;
    var intermediate := NewZero(Min(result.bits, left.bits + right.bits));
    IntermediateSize(result.bits, left.bits, right.bits);
    MultiplyRows(intermediate, left, right, result.LimbSize());
    ghost var l, r := left.Number(), right.Number();
    WriteProduct(result, intermediate);
    ProductFitsBits(l, r, left.bits, right.bits);
    TruncatedProduct(l * r, result.bits, left.bits + right.bits);
  }
}
