/** Writing to normal spans.  A write of the top limb of a normal span keeps only the bits that belong to the span, so
    that a result is cut at the span's bits and not at whole limbs.  The loops do not read the top limb of a result
    again, or only to add to it; so masking after the last write is masking at every write. */
module NormalWrites {
  import opened Arithmetic
  import opened Limbs
  import opened Words
  import opened Spans
  import opened Chains
  import opened Shifts
  import opened Multiplication
  import opened Divisibility
  import Euclid

  // The bits of a span's size that are in its top limb.
  lemma TopBits(bits: nat) returns (k: nat)
    requires LimbCount(bits) > 0
    ensures k == bits - (LimbCount(bits) - 1) * LIMB_BITS <= LIMB_BITS
    ensures Pow2(bits) == Pow2(k) * BasePow(LimbCount(bits) - 1)
  {
    hide Pow2, BasePow, LimbCount;
    var size := LimbCount(bits);
    LimbCountBounds(bits);
    SubspanSize(bits, size - 1);
    Distribute(size, 1, LIMB_BITS);
    k := bits - (size - 1) * LIMB_BITS;
    BasePowIsPow2(size - 1);
    MulMono(LIMB_BITS, 0, size - 1);
    Pow2Add(k, (size - 1) * LIMB_BITS);
  }

  lemma MaskedTop(low: nat, top: nat, p: Positive, q: Positive)
    requires low < p
    ensures (low + top * p) % (q * p) == low + (top % q) * p
    ensures 0 <= top % q <= top
  {
    DivModBounds(top, q);
    MulMono(p, top % q + 1, q);
    Distribute(top % q, 1, p);
    MulMono(p, 0, top % q);
    Distribute((top / q) * q, top % q, p);
    ThreeWay(top / q, q, p);
    DivModUnique(low + top * p, q * p, top / q, low + (top % q) * p);
  }

  /** Takes the bits beyond its size off a span. */
  method MaskTop(s: Span)
    requires s.InBounds()
    modifies s.data
    ensures OnlyWithin(s) && s.Normal()
    ensures s.Number() == old(s.Number()) % Pow2(s.bits)
  {
    hide Pow2, BasePow, LimbCount;
    var size := s.LimbSize();
    if size == 0 {
      SubspanSize(s.bits, 0);
      assert s.bits == 0 && Pow2(0) == 1 by { Pow2Small(); }
    } else {
      ghost var v := s.Content();
      ghost var low := v[..size - 1];
      ghost var k := TopBits(s.bits);
      var p := Pow2(s.bits - (size - 1) * LIMB_BITS);
      ValueBound(low);
      MaskedTop(Value(low), v[size - 1], BasePow(size - 1), p);
      s.data[s.offset + size - 1] := s.data[s.offset + size - 1] % p;
      assert s.Content()[..size - 1] == low;
      DivModBounds(Value(v), Pow2(s.bits));
    }
  }

  /** Cutting at limbs first makes no difference. */
  lemma CutThenMasked(v: int, bits: nat)
    ensures (v % BasePow(LimbCount(bits))) % Pow2(bits) == v % Pow2(bits)
  {
    hide Pow2, BasePow, LimbCount;
    var size := LimbCount(bits);
    LimbCountBounds(bits);
    var more := size * LIMB_BITS - bits;
    BasePowIsPow2(size);
    Pow2Add(more, bits);
    var q := v / BasePow(size);
    assert v == q * BasePow(size) + v % BasePow(size);
    ThreeWay(q, Pow2(more), Pow2(bits));
    ModAddMultiple(v % BasePow(size), q * Pow2(more), Pow2(bits));
  }

  lemma SumOfRemainders(l: nat, r: nat, c: nat, w: nat, k: nat, p: Positive)
    requires w + k * p == l % p + r % p + c && w < p
    ensures w == (l + r + c) % p
  {
    var x, y := l / p, r / p;
    assert l == x * p + l % p && r == y * p + r % p;
    Distribute(x, y, p);
    Distribute(x + y, k, p);
    DivModUnique(l + r + c, p, x + y + k, w);
  }

  lemma DifferenceOfRemainders(l: nat, r: nat, c: nat, w: nat, k: nat, p: Positive)
    requires w - k * p == l % p - r % p - c && w < p
    ensures w == (l - r - c) % p
  {
    var x, y := l / p, r / p;
    assert l == x * p + l % p && r == y * p + r % p;
    Distribute(x, y, p);
    Distribute(x - y, k, p);
    DivModUnique(l - r - c, p, x - y - k, w);
  }

  lemma {:induction false} SumModulo(w: seq<Limb>, carry: bool, l: seq<Limb>, r: seq<Limb>, carryIn: bool)
    requires IsSum(w, carry, l, r, carryIn)
    ensures Value(w) == (Value(l) + Value(r) + Bit(carryIn)) % BasePow(|w|)
    ensures carry <==> Value(l) % BasePow(|w|) + Value(r) % BasePow(|w|) + Bit(carryIn) >= BasePow(|w|)
  {
    hide BasePow;
    LowIsMod(l, |w|);
    LowIsMod(r, |w|);
    ValueBound(w);
    SumOfRemainders(Value(l), Value(r), Bit(carryIn), Value(w), Bit(carry), BasePow(|w|));
  }

  lemma {:induction false} DifferenceBorrowModulo(w: seq<Limb>, borrow: bool, l: seq<Limb>, r: seq<Limb>, borrowIn: bool)
    requires IsDifference(w, borrow, l, r, borrowIn)
    ensures Value(w) == (Value(l) - Value(r) - Bit(borrowIn)) % BasePow(|w|)
    ensures borrow <==> Value(l) % BasePow(|w|) < Value(r) % BasePow(|w|) + Bit(borrowIn)
  {
    hide BasePow;
    LowIsMod(l, |w|);
    LowIsMod(r, |w|);
    ValueBound(w);
    DifferenceOfRemainders(Value(l), Value(r), Bit(borrowIn), Value(w), Bit(borrow), BasePow(|w|));
  }

  method AddNormal(result: Span, left: Span, right: Span, carry: bool) returns (carryOut: bool)
    requires result.InBounds() && left.InBounds() && right.InBounds()
    requires left.SameOrApart(result) && right.SameOrApart(result)
    modifies result.data
    ensures OnlyWithin(result) && result.Normal()
    ensures result.Number() == (old(left.Number()) + old(right.Number()) + Bit(carry)) % Pow2(result.bits)
    ensures var p := BasePow(result.LimbSize());
            carryOut <==> old(left.Number()) % p + old(right.Number()) % p + Bit(carry) >= p
  {
    hide Pow2, BasePow, LimbCount, IsSum;
    ghost var l, r := left.Content(), right.Content();
    carryOut := Add(result, left, right, carry);
    SumModulo(result.Content(), carryOut, l, r, carry);
    CutThenMasked(Value(l) + Value(r) + Bit(carry), result.bits);
    MaskTop(result);
  }

  method SubtractNormal(result: Span, left: Span, right: Span, borrow: bool) returns (borrowOut: bool)
    requires result.InBounds() && left.InBounds() && right.InBounds()
    requires left.SameOrApart(result) && right.SameOrApart(result)
    modifies result.data
    ensures OnlyWithin(result) && result.Normal()
    ensures result.Number() == (old(left.Number()) - old(right.Number()) - Bit(borrow)) % Pow2(result.bits)
    ensures var p := BasePow(result.LimbSize());
            borrowOut <==> old(left.Number()) % p < old(right.Number()) % p + Bit(borrow)
  {
    hide Pow2, BasePow, LimbCount, IsDifference;
    ghost var l, r := left.Content(), right.Content();
    borrowOut := Subtract(result, left, right, borrow);
    DifferenceBorrowModulo(result.Content(), borrowOut, l, r, borrow);
    CutThenMasked(Value(l) - Value(r) - Bit(borrow), result.bits);
    MaskTop(result);
  }

  method BitCopyNormal(result: Span, value: Span)
    requires result.InBounds() && value.InBounds()
    requires value.SameOrApart(result)
    modifies result.data
    ensures OnlyWithin(result) && result.Normal()
    ensures result.Number() == old(value.Number()) % Pow2(result.bits)
  {
    hide Pow2, BasePow, LimbCount;
    LowIsMod(value.Content(), result.LimbSize());
    CutThenMasked(value.Number(), result.bits);
    BitCopy(result, value);
    MaskTop(result);
  }

  method SelectNormal(result: Span, falseValue: Span, trueValue: Span, choice: bool)
    requires result.InBounds() && falseValue.InBounds() && trueValue.InBounds()
    requires falseValue.SameOrApart(result) && trueValue.SameOrApart(result)
    modifies result.data
    ensures OnlyWithin(result) && result.Normal()
    ensures result.Number() == (if choice then old(trueValue.Number()) else old(falseValue.Number())) % Pow2(result.bits)
  {
    hide Pow2, BasePow, LimbCount;
    ghost var chosen := if choice then trueValue.Content() else falseValue.Content();
    LowIsMod(chosen, result.LimbSize());
    CutThenMasked(Value(chosen), result.bits);
    Select(result, falseValue, trueValue, choice);
    MaskTop(result);
  }

  method ShiftLeftNormal(result: Span, value: Span, shift: nat)
    requires result.InBounds() && value.InBounds()
    requires value.SameOrApart(result)
    modifies result.data
    ensures OnlyWithin(result) && result.Normal()
    ensures result.Number() == (old(value.Number()) * Pow2(shift)) % Pow2(result.bits)
  {
    hide Pow2, BasePow, LimbCount;
    CutThenMasked(value.Number() * Pow2(shift), result.bits);
    ShiftLeft(result, value, shift);
    MaskTop(result);
  }

  method ShiftRightNormal(result: Span, value: Span, shift: nat)
    requires result.InBounds() && value.InBounds()
    requires value.SameOrApart(result)
    modifies result.data
    ensures OnlyWithin(result) && result.Normal()
    ensures result.Number() == (old(value.Number()) / Pow2(shift)) % Pow2(result.bits)
  {
    hide Pow2, BasePow, LimbCount;
    CutThenMasked(value.Number() / Pow2(shift), result.bits);
    ShiftRight(result, value, shift);
    MaskTop(result);
  }

  method MultiplyNormal(result: Span, left: Span, right: Span)
    requires result.InBounds() && left.Normal() && right.Normal()
    requires right.LimbSize() > 0 || Min(result.bits, left.bits + right.bits) == 0
    modifies result.data
    ensures OnlyWithin(result) && result.Normal()
    ensures result.Number() == (old(left.Number()) * old(right.Number())) % Pow2(result.bits)
  {
    hide Pow2, BasePow, LimbCount;
    CutThenMasked(left.Number() * right.Number(), result.bits);
    Multiply(result, left, right);
    MaskTop(result);
  }

  method MultiplyCompiletimeNormal(result: Span, left: Span, right: Span)
    requires result.InBounds() && left.Normal() && right.Normal()
    modifies result.data
    ensures OnlyWithin(result) && result.Normal()
    ensures result.Number() == (old(left.Number()) * old(right.Number())) % Pow2(result.bits)
  {
    hide Pow2, BasePow, LimbCount;
    CutThenMasked(left.Number() * right.Number(), result.bits);
    MultiplyCompiletime(result, left, right);
    MaskTop(result);
  }

  method GreatestCommonDivisorNormal(result: Span, left: Span, right: Span)
    requires result.InBounds() && left.Normal() && right.Normal()
    requires left.SameOrApart(result) && right.SameOrApart(result)
    modifies result.data
    ensures OnlyWithin(result) && result.Normal()
    ensures result.Number() == Gcd(old(left.Number()), old(right.Number())) % Pow2(result.bits)
  {
    hide Pow2, BasePow, LimbCount, Gcd;
    CutThenMasked(Gcd(left.Number(), right.Number()), result.bits);
    Euclid.GreatestCommonDivisor(result, left, right);
    MaskTop(result);
  }
}
