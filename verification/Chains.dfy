/** Loops over limbs that carry at most one limb of state: addition, subtraction, copying, comparison,
    selection, shifts and the two bit counts. */
module Chains {
  import opened Arithmetic
  import opened Limbs
  import opened Words
  import opened Spans

  lemma AddStep(p: nat, b: nat, sum: int, l: int, r: int, c: int, newCarry: int, s: int, x: int, y: int)
    requires sum + c * p == l + r
    requires s + b * newCarry == x + y + c
    ensures (sum + s * p) + newCarry * (b * p) == (l + x * p) + (r + y * p)
  {
    assert s == x + y + c - b * newCarry;
    calc {
      s * p;
      (x + y + c - b * newCarry) * p;
      { Distribute(x + y + c, b * newCarry, p); Distribute(x + y, c, p); Distribute(x, y, p); }
      x * p + y * p + c * p - (b * newCarry) * p;
      { ThreeWay(newCarry, b, p); ThreeWay(b, newCarry, p); }
      x * p + y * p + c * p - newCarry * (b * p);
    }
  }

  /** The limbs w and the carry are the sum of as many low limbs of l and r. */
  ghost predicate IsSum(w: seq<Limb>, carry: bool, l: seq<Limb>, r: seq<Limb>, carryIn: bool) {
    Value(w) + Bit(carry) * BasePow(|w|) == Low(l, |w|) + Low(r, |w|) + Bit(carryIn)
  }

  lemma IsSumStart(l: seq<Limb>, r: seq<Limb>, carry: bool)
    ensures IsSum([], carry, l, r, carry)
  {
    LowStep(l, 0);
    LowStep(r, 0);
    BasePowOne();
  }

  lemma IsSumStep(w: seq<Limb>, carry: bool, l: seq<Limb>, r: seq<Limb>, carryIn: bool)
    requires IsSum(w, carry, l, r, carryIn)
    ensures var (sum, newCarry) := ExtendedAdd(Digit(l, |w|), Digit(r, |w|), carry);
            IsSum(w + [sum], newCarry, l, r, carryIn)
  {
    var i := |w|;
    var x, y := Digit(l, i), Digit(r, i);
    var (sum, newCarry) := ExtendedAdd(x, y, carry);
    AddStep(BasePow(i), BASE, Value(w), Low(l, i), Low(r, i) + Bit(carryIn), Bit(carry), Bit(newCarry), sum, x, y);
    assert (w + [sum])[..i] == w;
    LowStep(l, i);
    LowStep(r, i);
  }

  /** result = left + right + carry, returning the carry out of the last result limb. */
  method Add(result: Span, left: Span, right: Span, carry: bool) returns (carryOut: bool)
    requires result.InBounds() && left.InBounds() && right.InBounds()
    requires left.SameOrApart(result) && right.SameOrApart(result)
    modifies result.data
    ensures OnlyWithin(result)
    ensures IsSum(result.Content(), carryOut, old(left.Content()), old(right.Content()), carry)
  {
    hide IsSum, ExtendedAdd, LimbCount;
    var n := result.LimbSize();
    ghost var l, r := left.Content(), right.Content();
    ghost var w: seq<Limb> := [];
    carryOut := carry;
    IsSumStart(l, r, carry);
    for i := 0 to n
      invariant OnlyWithin(result)
      invariant forall k :: i <= k < |l| ==> left.data[left.offset + k] == l[k]
      invariant forall k :: i <= k < |r| ==> right.data[right.offset + k] == r[k]
      invariant |w| == i && forall k :: 0 <= k < i ==> result.data[result.offset + k] == w[k]
      invariant IsSum(w, carryOut, l, r, carry)
    {
      var x, y := left.ExtendedRead(i), right.ExtendedRead(i);
      assert x == Digit(l, i) && y == Digit(r, i);
      var (sum, newCarry) := ExtendedAdd(x, y, carryOut);
      IsSumStep(w, carryOut, l, r, carry);
      result.data[result.offset + i] := sum;
      carryOut := newCarry;
      w := w + [sum];
    }
    assert result.Content() == w;
  }

  lemma SubtractStep(p: nat, b: nat, diff: int, l: int, r: int, c: int, newBorrow: int, s: int, x: int, y: int)
    requires diff - c * p == l - r
    requires x - y - c == s - b * newBorrow
    ensures (diff + s * p) - newBorrow * (b * p) == (l + x * p) - (r + y * p)
  {
    assert s == x - y - c + b * newBorrow;
    calc {
      s * p;
      (x - y - c + b * newBorrow) * p;
      { Distribute(x - y - c, b * newBorrow, p); Distribute(x - y, c, p); Distribute(x, y, p); }
      x * p - y * p - c * p + (b * newBorrow) * p;
      { ThreeWay(newBorrow, b, p); ThreeWay(b, newBorrow, p); }
      x * p - y * p - c * p + newBorrow * (b * p);
    }
  }

  /** The limbs w and the borrow are the difference of as many low limbs of l and r. */
  ghost predicate IsDifference(w: seq<Limb>, borrow: bool, l: seq<Limb>, r: seq<Limb>, borrowIn: bool) {
    Value(w) - Bit(borrow) * BasePow(|w|) == Low(l, |w|) - Low(r, |w|) - Bit(borrowIn)
  }

  lemma IsDifferenceStart(l: seq<Limb>, r: seq<Limb>, borrow: bool)
    ensures IsDifference([], borrow, l, r, borrow)
  {
    LowStep(l, 0);
    LowStep(r, 0);
    BasePowOne();
  }

  lemma IsDifferenceStep(w: seq<Limb>, borrow: bool, l: seq<Limb>, r: seq<Limb>, borrowIn: bool)
    requires IsDifference(w, borrow, l, r, borrowIn)
    ensures var (diff, newBorrow) := SubtractWithBorrow(Digit(l, |w|), Digit(r, |w|), borrow);
            IsDifference(w + [diff], newBorrow, l, r, borrowIn)
  {
    var i := |w|;
    var x, y := Digit(l, i), Digit(r, i);
    var (diff, newBorrow) := SubtractWithBorrow(x, y, borrow);
    SubtractStep(BasePow(i), BASE, Value(w), Low(l, i), Low(r, i) + Bit(borrowIn), Bit(borrow), Bit(newBorrow), diff, x, y);
    assert (w + [diff])[..i] == w;
    LowStep(l, i);
    LowStep(r, i);
  }

  /** result = left - right - borrow, returning the borrow out of the last result limb. */
  method Subtract(result: Span, left: Span, right: Span, borrow: bool) returns (borrowOut: bool)
    requires result.InBounds() && left.InBounds() && right.InBounds()
    requires left.SameOrApart(result) && right.SameOrApart(result)
    modifies result.data
    ensures OnlyWithin(result)
    ensures IsDifference(result.Content(), borrowOut, old(left.Content()), old(right.Content()), borrow)
  {
    hide IsDifference, SubtractWithBorrow, LimbCount;
    var n := result.LimbSize();
    ghost var l, r := left.Content(), right.Content();
    ghost var w: seq<Limb> := [];
    borrowOut := borrow;
    IsDifferenceStart(l, r, borrow);
    for i := 0 to n
      invariant OnlyWithin(result)
      invariant forall k :: i <= k < |l| ==> left.data[left.offset + k] == l[k]
      invariant forall k :: i <= k < |r| ==> right.data[right.offset + k] == r[k]
      invariant |w| == i && forall k :: 0 <= k < i ==> result.data[result.offset + k] == w[k]
      invariant IsDifference(w, borrowOut, l, r, borrow)
    {
      var x, y := left.ExtendedRead(i), right.ExtendedRead(i);
      assert x == Digit(l, i) && y == Digit(r, i);
      var (diff, newBorrow) := SubtractWithBorrow(x, y, borrowOut);
      IsDifferenceStep(w, borrowOut, l, r, borrow);
      result.data[result.offset + i] := diff;
      borrowOut := newBorrow;
      w := w + [diff];
    }
    assert result.Content() == w;
  }

  // What a sum or a difference says about values that fit

  /** Without a carry, or when the result is known to fit, addition is exact. */
  lemma SumFits(w: seq<Limb>, carry: bool, l: seq<Limb>, r: seq<Limb>, carryIn: bool)
    requires IsSum(w, carry, l, r, carryIn)
    requires Value(l) + Value(r) + Bit(carryIn) < BasePow(|w|)
    ensures !carry && Value(w) == Value(l) + Value(r) + Bit(carryIn)
  {
    var n := |w|;
    LowBound(l, n);
    LowBound(r, n);
    LowIsMod(l, n);
    LowIsMod(r, n);
    DivModUnique(Value(l), BasePow(n), 0, Value(l));
    DivModUnique(Value(r), BasePow(n), 0, Value(r));
  }

  /** A subtraction borrows exactly when the right operand is the larger one. */
  lemma DifferenceFits(w: seq<Limb>, borrow: bool, l: seq<Limb>, r: seq<Limb>)
    requires IsDifference(w, borrow, l, r, false)
    requires Value(l) < BasePow(|w|) && Value(r) < BasePow(|w|)
    ensures borrow <==> Value(l) < Value(r)
    ensures Value(w) == Value(l) - Value(r) + Bit(borrow) * BasePow(|w|)
  {
    var n := |w|;
    LowIsMod(l, n);
    LowIsMod(r, n);
    DivModUnique(Value(l), BasePow(n), 0, Value(l));
    DivModUnique(Value(r), BasePow(n), 0, Value(r));
    ValueBound(w);
  }

  // Copying

  lemma {:induction false} ValueOfDigits(w: seq<Limb>, s: seq<Limb>)
    requires forall i :: 0 <= i < |w| ==> w[i] == Digit(s, i)
    ensures Value(w) == Low(s, |w|)
  {
    LowStep(s, 0);
    if w != [] {
      var n := |w| - 1;
      ValueOfDigits(w[..n], s);
      LowStep(s, n);
    }
  }

  /** result = value, truncated or extended with zeros. */
  method BitCopy(result: Span, value: Span)
    requires result.InBounds() && value.InBounds()
    requires value.SameOrApart(result)
    modifies result.data
    ensures OnlyWithin(result)
    ensures result.Number() == Low(old(value.Content()), result.LimbSize())
    ensures forall i :: 0 <= i < result.LimbSize() ==> result.Read(i) == Digit(old(value.Content()), i)
  {
    hide LimbCount;
    var n := result.LimbSize();
    ghost var v := value.Content();
    for i := 0 to n
      invariant OnlyWithin(result)
      invariant forall k :: i <= k < |v| ==> value.data[value.offset + k] == v[k]
      invariant forall k :: 0 <= k < i ==> result.data[result.offset + k] == Digit(v, k)
    {
      result.data[result.offset + i] := value.ExtendedRead(i);
    }
    ValueOfDigits(result.Content(), v);
  }

  /** result = falseValue or trueValue, limb by limb. */
  method Select(result: Span, falseValue: Span, trueValue: Span, choice: bool)
    requires result.InBounds() && falseValue.InBounds() && trueValue.InBounds()
    requires falseValue.SameOrApart(result) && trueValue.SameOrApart(result)
    modifies result.data
    ensures OnlyWithin(result)
    ensures result.Number() == Low(if choice then old(trueValue.Content()) else old(falseValue.Content()), result.LimbSize())
  {
    hide LimbCount;
    var n := result.LimbSize();
    var chosen := if choice then trueValue else falseValue;
    ghost var v := chosen.Content();
    for i := 0 to n
      invariant OnlyWithin(result)
      invariant forall k :: i <= k < |v| ==> chosen.data[chosen.offset + k] == v[k]
      invariant forall k :: 0 <= k < i ==> result.data[result.offset + k] == Digit(v, k)
    {
      result.data[result.offset + i] := chosen.ExtendedRead(i);
    }
    ValueOfDigits(result.Content(), v);
  }

  // Comparison

  datatype Comparison = Greater | Less | GreaterEqual | LessEqual {

    /** What the comparison says of two numbers. */
    predicate Holds(x: nat, y: nat) {
      match this
      case Greater => x > y
      case Less => x < y
      case GreaterEqual => x >= y
      case LessEqual => x <= y
    }
  }

  // Two numbers that agree from limb i + 1 on compare as limb i does, if it differs.
  lemma {:induction false} LowDecidedBy(l: seq<Limb>, r: seq<Limb>, i: nat, n: nat)
    requires i < n
    requires Digit(l, i) < Digit(r, i)
    requires forall k :: i < k < n ==> Digit(l, k) == Digit(r, k)
    ensures Low(l, n) < Low(r, n)
    decreases n
  {
    var m := n - 1;
    LowStep(l, m);
    LowStep(r, m);
    if i == m {
      LowBound(l, m);
      LowBound(r, m);
      CompareStep(Low(l, m), Digit(l, m), Low(r, m), Digit(r, m), BasePow(m));
    } else {
      LowDecidedBy(l, r, i, m);
    }
  }

  lemma {:induction false} LowOfEqualDigits(l: seq<Limb>, r: seq<Limb>, n: nat)
    requires forall k :: 0 <= k < n ==> Digit(l, k) == Digit(r, k)
    ensures Low(l, n) == Low(r, n)
  {
    if n == 0 {
      LowStep(l, 0);
      LowStep(r, 0);
    } else {
      LowOfEqualDigits(l, r, n - 1);
      LowStep(l, n - 1);
      LowStep(r, n - 1);
    }
  }

  /** Comparison with an early exit at the most significant limb that differs. */
  method Compare(op: Comparison, left: Span, right: Span) returns (result: bool)
    requires left.InBounds() && right.InBounds()
    ensures result <==> op.Holds(left.Number(), right.Number())
    ensures match op
            case Greater => result <==> left.Number() > right.Number()
            case Less => result <==> left.Number() < right.Number()
            case GreaterEqual => result <==> left.Number() >= right.Number()
            case LessEqual => result <==> left.Number() <= right.Number()
  {
    hide LimbCount;
    var n := Max(left.LimbSize(), right.LimbSize());
    ghost var l, r := left.Content(), right.Content();
    for i := n downto 0
      invariant forall k :: i <= k < n ==> Digit(l, k) == Digit(r, k)
    {
      var x, y := left.ExtendedRead(i), right.ExtendedRead(i);
      if x != y {
        if x < y {
          LowDecidedBy(l, r, i, n);
        } else {
          LowDecidedBy(r, l, i, n);
        }
        return op.Holds(x, y);
      }
    }
    LowOfEqualDigits(l, r, n);
    return op.GreaterEqual? || op.LessEqual?;
  }

  /** The same comparison as a fold over all limbs that takes the same steps for every input. */
  method CompareFold(op: Comparison, left: Span, right: Span) returns (result: bool)
    requires left.InBounds() && right.InBounds()
    ensures result <==> op.Holds(left.Number(), right.Number())
    ensures match op
            case Greater => result <==> left.Number() > right.Number()
            case Less => result <==> left.Number() < right.Number()
            case GreaterEqual => result <==> left.Number() >= right.Number()
            case LessEqual => result <==> left.Number() <= right.Number()
  {
    hide LimbCount;
    var n := Max(left.LimbSize(), right.LimbSize());
    ghost var l, r := left.Content(), right.Content();
    var determined := false;
    result := op.GreaterEqual? || op.LessEqual?;
    for i := n downto 0
      invariant !determined ==> forall k :: i <= k < n ==> Digit(l, k) == Digit(r, k)
      invariant !determined ==> result == (op.GreaterEqual? || op.LessEqual?)
      invariant determined ==> result == op.Holds(left.Number(), right.Number()) && left.Number() != right.Number()
    {
      var x, y := left.ExtendedRead(i), right.ExtendedRead(i);
      var notEqual := x != y;
      if !determined && x < y {
        LowDecidedBy(l, r, i, n);
      } else if !determined && y < x {
        LowDecidedBy(r, l, i, n);
      }
      result := if !determined && notEqual then op.Holds(x, y) else result;
      determined := determined || notEqual;
    }
    if !determined {
      LowOfEqualDigits(l, r, n);
    }
  }

  /** Equality, leaving at the first limb that differs. */
  method EqualTo(left: Span, right: Span) returns (result: bool)
    requires left.InBounds() && right.InBounds()
    ensures result <==> left.Number() == right.Number()
  {
    hide LimbCount;
    var n := Max(left.LimbSize(), right.LimbSize());
    ghost var l, r := left.Content(), right.Content();
    for i := 0 to n
      invariant forall k :: 0 <= k < i ==> Digit(l, k) == Digit(r, k)
    {
      if left.ExtendedRead(i) != right.ExtendedRead(i) {
        DifferentDigits(l, r, i, n);
        return false;
      }
    }
    LowOfEqualDigits(l, r, n);
    return true;
  }

  lemma {:induction false} DifferentDigits(l: seq<Limb>, r: seq<Limb>, i: nat, n: nat)
    requires i < n && Digit(l, i) != Digit(r, i)
    ensures Low(l, n) != Low(r, n)
    decreases n
  {
    var m := n - 1;
    if Digit(l, m) < Digit(r, m) {
      LowDecidedBy(l, r, m, n);
    } else if Digit(r, m) < Digit(l, m) {
      LowDecidedBy(r, l, m, n);
    } else {
      DifferentDigits(l, r, i, m);
      LowStep(l, m);
      LowStep(r, m);
    }
  }
}
