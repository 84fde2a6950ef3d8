/** Greatest common divisors of multi-limb numbers: the binary algorithm, and the extended Euclidean
    algorithm with unsigned cofactors. */
module Euclid {
  import opened Arithmetic
  import opened Limbs
  import opened Words
  import opened Spans
  import opened Chains
  import opened Shifts
  import opened Multiplication
  import opened Division
  import opened Divisibility

  // Binary greatest common divisor

  // One round of the loop: the larger odd number becomes the odd part of the difference.
  lemma {:induction false} BinaryStep(u: nat, v: nat) returns (w: nat)
    requires u % 2 == 1 && v % 2 == 1 && u > v
    ensures w == (u - v) / Pow2(TrailingZeros(u - v))
    ensures w % 2 == 1 && 0 < w < u
    ensures Gcd(w, v) == Gcd(u, v)
  {
    hide Gcd, Pow2, TrailingZeros;
    var t := TrailingZeros(u - v);
    w := TrailingZerosSplit(u - v);
    DivModUnique(u - v, Pow2(t), w, 0);
    GcdSubtract(u, v);
    GcdDropPower(t, w, v);
    MulMono(w, 1, Pow2(t));
  }

  // Subtracts v from u and drops the trailing zeros, in place.
  method ReduceDifference(u: Span, v: Span)
    requires u.Normal() && v.Normal() && u.data != v.data
    requires u.Number() % 2 == 1 && v.Number() % 2 == 1 && u.Number() > v.Number()
    modifies u.data
    ensures u.Normal() && u.Number() % 2 == 1
    ensures 0 < u.Number() < old(u.Number())
    ensures Gcd(u.Number(), v.Number()) == Gcd(old(u.Number()), v.Number())
  {
    hide Gcd, Pow2, BasePow, LimbCount, TrailingZeros, IsDifference;
    ghost var x, y := u.Number(), v.Number();
    ghost var s, t := u.Content(), v.Content();
    ghost var w := BinaryStep(x, y);
    var borrow := Subtract(u, u, v, false);
    DifferenceModulo(u.Content(), borrow, s, t);
    NormalFits(x, u);
    DivModUnique(x - y, BasePow(u.LimbSize()), 0, x - y);
    var zeros := CountTrailingZeros(u);
    ShiftRight(u, u, zeros);
    DivModUnique(w, BasePow(u.LimbSize()), 0, w);
  }

  // The odd part of a number that is not zero.
  method OddPart(value: Span, zeros: nat, width: nat) returns (u: Span)
    requires value.Normal() && value.Number() > 0 && zeros == TrailingZeros(value.Number()) && value.bits <= width
    ensures fresh(u.data) && u.Normal() && u.Number() % 2 == 1
    ensures value.Number() == Pow2(zeros) * u.Number()
    ensures u.Number() <= value.Number()
  {
    hide Pow2, BasePow, LimbCount, TrailingZeros;
    ghost var v := value.Number();
    ghost var odd := TrailingZerosSplit(v);
    u := NewZero(width);
    ShiftRight(u, value, zeros);
    DivModUnique(v, Pow2(zeros), odd, 0);
    MulMono(odd, 1, Pow2(zeros));
    Pow2Mono(value.bits, width);
    NormalFits(odd, u);
    DivModUnique(odd, BasePow(u.LimbSize()), 0, odd);
  }

  /** The binary algorithm.  Both working buffers hold odd numbers; the read and write views of the two
      are exchanged together. */
  method GreatestCommonDivisor(result: Span, left: Span, right: Span)
    requires result.InBounds() && left.Normal() && right.Normal()
    requires left.SameOrApart(result) && right.SameOrApart(result)
    modifies result.data
    ensures OnlyWithin(result)
    ensures result.Number() == Gcd(old(left.Number()), old(right.Number())) % BasePow(result.LimbSize())
  {
    hide Gcd, Pow2, BasePow, LimbCount, TrailingZeros;
    ghost var x, y := left.Number(), right.Number();
    var empty := NewNull();
    var leftZero := EqualTo(left, empty);
    var rightZero := EqualTo(right, empty);
    GcdOfZero(x, y);
    if leftZero {
      LowIsMod(right.Content(), result.LimbSize());
      BitCopy(result, right);
    } else if rightZero {
      LowIsMod(left.Content(), result.LimbSize());
      BitCopy(result, left);
    } else {
      GcdOfPositive(result, left, right);
    }
  }

  method GcdOfPositive(result: Span, left: Span, right: Span)
    requires result.InBounds() && left.Normal() && right.Normal()
    requires left.Number() > 0 && right.Number() > 0
    modifies result.data
    ensures OnlyWithin(result)
    ensures result.Number() == Gcd(old(left.Number()), old(right.Number())) % BasePow(result.LimbSize())
  {
    hide Gcd, Pow2, BasePow, LimbCount, TrailingZeros;
    var width := Max(left.bits, right.bits);
    var leftZeros := CountTrailingZeros(left);
    var rightZeros := CountTrailingZeros(right);
    var u := OddPart(left, leftZeros, width);
    var v := OddPart(right, rightZeros, width);
    GcdOfOddParts(leftZeros, u.Number(), rightZeros, v.Number());
    GcdOfOdd(result, u, v, Min(leftZeros, rightZeros));
  }

  method GcdOfOdd(result: Span, u: Span, v: Span, zeros: nat)
    requires result.InBounds() && u.Normal() && v.Normal()
    requires u.data != v.data && u.data != result.data && v.data != result.data
    requires u.Number() % 2 == 1 && v.Number() % 2 == 1
    modifies result.data, u.data, v.data
    ensures OnlyWithin(result)
    ensures result.Number() == (Pow2(zeros) * Gcd(old(u.Number()), old(v.Number()))) % BasePow(result.LimbSize())
  {
    hide Gcd, Pow2, BasePow, LimbCount;
    ghost var g := Gcd(u.Number(), v.Number());
    var odd := OddLoop(u, v, g);
    ShiftLeft(result, odd, zeros);
    ThreeWay(g, Pow2(zeros), 1);
  }

  lemma {:induction false} GcdOfZero(a: nat, b: nat)
    ensures Gcd(0, b) == b && Gcd(a, 0) == a
    ensures Gcd(a, a) == a
  {
    GcdSymmetric(0, b);
    if a > 0 {
      GcdSubtract(a, a);
      GcdSymmetric(0, a);
    }
  }

  method OddLoop(u0: Span, v0: Span, ghost g: nat) returns (u: Span)
    requires u0.Normal() && v0.Normal() && u0.data != v0.data
    requires u0.Number() % 2 == 1 && v0.Number() % 2 == 1
    requires Gcd(u0.Number(), v0.Number()) == g
    modifies u0.data, v0.data
    ensures u == u0 || u == v0
    ensures u.Normal() && u.Number() == g
  {
    hide Gcd, LimbCount, Pow2;
    u := u0;
    var v := v0;
    var different := CompareNotEqual(u, v);
    while different
      invariant (u == u0 && v == v0) || (u == v0 && v == u0)
      invariant u.Normal() && v.Normal()
      invariant u.Number() % 2 == 1 && v.Number() % 2 == 1
      invariant Gcd(u.Number(), v.Number()) == g
      invariant different <==> u.Number() != v.Number()
      decreases u.Number() + v.Number()
    {
      var less := Compare(Less, u, v);
      if less {
        GcdSymmetric(u.Number(), v.Number());
        u, v := v, u;
      }
      ReduceDifference(u, v);
      different := CompareNotEqual(u, v);
    }
    GcdOfZero(u.Number(), 0);
  }

  method CompareNotEqual(left: Span, right: Span) returns (result: bool)
    requires left.InBounds() && right.InBounds()
    ensures result <==> left.Number() != right.Number()
  {
    var equal := EqualTo(left, right);
    result := !equal;
  }

  // Extended Euclidean algorithm

  datatype Row = Row(r: nat, s: nat, t: nat)

  /** The rounds of the algorithm on numbers: remainders and the absolute values of the cofactors.  The
      signs alternate, so the parity of the number of rounds tells them. */
  function Rounds(previous: Row, current: Row, odd: bool): (Row, bool)
    decreases current.r
  {
    if current.r == 0 then
      (previous, odd)
    else
      RoundIsNat(previous, current);
      Rounds(current, NextRow(previous, current), !odd)
  }

  lemma RoundIsNat(previous: Row, current: Row)
    requires current.r > 0
    ensures previous.r / current.r >= 0 && (previous.r / current.r) * current.s >= 0 && (previous.r / current.r) * current.t >= 0
  {
    DivideNat(previous.r, current.r);
    MulMono(current.s, 0, previous.r / current.r);
    MulMono(current.t, 0, previous.r / current.r);
  }

  function NextRow(previous: Row, current: Row): Row
    requires current.r > 0
  {
    RoundIsNat(previous, current);
    var q := previous.r / current.r;
    Row(previous.r % current.r, previous.s + q * current.s, previous.t + q * current.t)
  }

  /** Greatest common divisor and two unsigned cofactors, the one with the wrong sign taken modulo the
      other number. */
  function Extended(left: nat, right: nat): (nat, int, int) {
    var (last, odd) := Rounds(Row(left, 1, 0), Row(right, 0, 1), false);
    Cofactors(last, odd, left, right)
  }

  function Cofactors(last: Row, odd: bool, left: nat, right: nat): (nat, int, int) {
    if odd then (last.r, right - last.s, last.t) else (last.r, last.s, left - last.t)
  }

  /** What holds between two consecutive rows. */
  ghost predicate RowsBelong(previous: Row, current: Row, odd: bool, left: nat, right: nat) {
    && current.s * previous.r + previous.s * current.r == right
    && current.t * previous.r + previous.t * current.r == left
    && (if odd then previous.t * right - previous.s * left == previous.r && current.s * left - current.t * right == current.r
        else previous.s * left - previous.t * right == previous.r && current.t * right - current.s * left == current.r)
    && Gcd(previous.r, current.r) == Gcd(left, right)
    && (odd ==> previous.s <= right && previous.r >= 1)
    && (!odd ==> previous.t <= left)
    && previous.s <= Max(right, 1) && previous.t <= Max(left, 1)
    && current.s <= Max(right, 1) && current.t <= Max(left, 1)
    && (previous.r == 0 ==> current.s == 0)
  }

  lemma {:induction false} RowsStart(left: nat, right: nat)
    ensures RowsBelong(Row(left, 1, 0), Row(right, 0, 1), false, left, right)
  {
  }

  lemma FactorAtMost(x: nat, y: nat, z: nat, r: nat, bound: nat)
    requires x * y + z * r == bound && y >= 1
    ensures x <= bound
  {
    MulMono(x, 1, y);
    MulMono(z, 0, r);
  }

  lemma DeterminantStep(x: int, oldX: int, r: int, oldR: int, q: int, rem: int, bound: int)
    requires x * oldR + oldX * r == bound && oldR == q * r + rem
    ensures (oldX + q * x) * r + x * rem == bound
  {
    Distribute(oldX, q * x, r);
    ThreeWay(q, x, r);
    Distribute(q * r, rem, x);
    ThreeWay(q, r, x);
  }

  lemma SignStep(x: int, oldX: int, y: int, oldY: int, left: int, right: int, r: int, oldR: int, q: int, rem: int)
    requires oldX * left - oldY * right == oldR && y * right - x * left == r && oldR == q * r + rem
    ensures (oldX + q * x) * left - (oldY + q * y) * right == rem
  {
    Distribute(oldX, q * x, left);
    Distribute(oldY, q * y, right);
    ThreeWay(q, x, left);
    ThreeWay(q, y, right);
    Distribute(y * right, x * left, q);
  }

  lemma {:induction false} RowsStep(previous: Row, current: Row, odd: bool, left: nat, right: nat)
    requires RowsBelong(previous, current, odd, left, right) && current.r > 0
    ensures RowsBelong(current, NextRow(previous, current), !odd, left, right)
    ensures NextRow(previous, current).s <= right && NextRow(previous, current).t <= left
    ensures NextRow(previous, current).r < current.r
  {
    hide Gcd;
    var q, rem := previous.r / current.r, previous.r % current.r;
    QuotientAndRemainder(previous.r, current.r);
    var next := NextRow(previous, current);
    DeterminantStep(current.s, previous.s, current.r, previous.r, q, rem, right);
    DeterminantStep(current.t, previous.t, current.r, previous.r, q, rem, left);
    ThreeWay(next.s, current.r, 1);
    if odd {
      SignStep(current.t, previous.t, current.s, previous.s, right, left, current.r, previous.r, q, rem);
    } else {
      SignStep(current.s, previous.s, current.t, previous.t, left, right, current.r, previous.r, q, rem);
    }
    EuclidStep(previous.r, current.r);
    SameDivisorsSameGcd(previous.r, current.r, current.r, rem);
    FactorAtMost(next.s, current.r, current.s, rem, right);
    FactorAtMost(next.t, current.r, current.t, rem, left);
    if previous.r >= 1 {
      FactorAtMost(current.s, previous.r, previous.s, current.r, right);
      FactorAtMost(current.t, previous.r, previous.t, current.r, left);
    }
  }

  /** What the last row with a remainder other than zero says. */
  ghost predicate Outcome(last: Row, odd: bool, left: nat, right: nat) {
    && last.r == Gcd(left, right)
    && last.s <= Max(right, 1) && last.t <= Max(left, 1)
    && (if odd then last.s <= right && last.t * right - last.s * left == last.r
        else last.t <= left && last.s * left - last.t * right == last.r)
  }

  lemma {:induction false} RowsEnd(previous: Row, current: Row, odd: bool, left: nat, right: nat)
    requires RowsBelong(previous, current, odd, left, right)
    ensures var (last, isOdd) := Rounds(previous, current, odd); Outcome(last, isOdd, left, right)
    decreases current.r
  {
    hide Gcd;
    if current.r == 0 {
      GcdOfZero(previous.r, previous.r);
    } else {
      hide RowsBelong, NextRow, Outcome;
      RowsStep(previous, current, odd, left, right);
      RowsEnd(current, NextRow(previous, current), !odd, left, right);
    }
  }

  lemma ShiftedCofactor(left: int, right: int, s: int, t: int, g: int)
    requires t * right - s * left == g
    ensures (right - s) * left - g == (left - t) * right
    ensures t * right - g == s * left
  {
    Distribute(right, s, left);
    Distribute(left, t, right);
    ThreeWay(left, right, 1);
  }

  /** The extended algorithm returns the greatest common divisor and two cofactors in unsigned range, each of
      which gives the divisor modulo the other number. */
  lemma {:induction false} ExtendedIsBezout(left: nat, right: nat)
    ensures var (g, x, y) := Extended(left, right);
            && g == Gcd(left, right)
            && 0 <= x <= Max(right, 1) && 0 <= y <= Max(left, 1)
            && Congruent(x * left, g, right)
            && Congruent(y * right, g, left)
  {
    hide Gcd, Rounds, Outcome, Congruent, Max;
    RowsStart(left, right);
    RowsEnd(Row(left, 1, 0), Row(right, 0, 1), false, left, right);
    var (last, odd) := Rounds(Row(left, 1, 0), Row(right, 0, 1), false);
    OutcomeIsBezout(last, odd, left, right);
  }

  lemma OutcomeIsBezout(last: Row, odd: bool, left: nat, right: nat)
    requires Outcome(last, odd, left, right)
    ensures var x, y := if odd then right - last.s else last.s, if odd then last.t else left - last.t;
            && last.r == Gcd(left, right)
            && 0 <= x <= Max(right, 1) && 0 <= y <= Max(left, 1)
            && Congruent(x * left, last.r, right) && Congruent(y * right, last.r, left)
  {
    hide Gcd, Divides;
    if odd {
      ShiftedCofactor(left, right, last.s, last.t, last.r);
      DividesMultiple(right, left - last.t);
      DividesMultiple(left, last.s);
    } else {
      ShiftedCofactor(right, left, last.t, last.s, last.r);
      DividesMultiple(left, right - last.s);
      DividesMultiple(right, last.t);
    }
  }

  // The rounds over buffers

  // A fresh buffer holding one; a buffer without limbs cannot hold it.
  method NewOneOf(bits: nat) returns (s: Span)
    ensures fresh(s.data) && s.bits == bits && s.Normal()
    ensures s.Number() == if bits == 0 then 0 else 1
  {
    hide BasePow, Pow2;
    s := NewZero(bits);
    LimbCountBounds(bits);
    if bits > 0 {
      assert s.LimbSize() >= 1;
      ghost var zeros := s.Content();
      s.data[0] := 1;
      assert s.Content() == [1] + zeros[1..];
      ValueZero(zeros[1..]);
      ValueCat([1], zeros[1..]);
      ValueSingle(1);
      Pow2Mono(1, bits);
      Pow2Small();
    } else {
      LimbCountExact(0);
    }
  }

  // Divides old by current, leaving the remainder in the storage of old.
  method DivideInPlace(q: Span, previous: Span, current: Span)
    requires q.InBounds() && previous.Normal() && current.Normal()
    requires q.data != previous.data && q.data != current.data && previous.data != current.data
    requires current.Number() > 0 && q.bits == previous.bits
    modifies q.data, previous.data
    ensures previous.Normal() && q.Normal()
    ensures q.Number() == old(previous.Number()) / current.Number()
    ensures previous.Number() == old(previous.Number()) % current.Number()
  {
    hide BasePow, Pow2, LimbCount, DivisionHasRoom;
    ghost var n, d := previous.Number(), current.Number();
    QuotientAndRemainder(n, d);
    DivideNat(n, d);
    QuotientAtMost(n, d);
    FitsLimbs(n / d, q.bits);
    RoomForTrueQuotient(n, d, q.LimbSize());
    if previous.bits == 0 {
      EmptyIsZero(previous);
    }
    Divide(q, previous, previous, current);
    DivModUnique(n / d, BasePow(q.LimbSize()), 0, n / d);
    if previous.bits == 0 {
      EmptyIsZero(previous);
    }
  }

  lemma QuotientAtMost(n: nat, d: Positive)
    ensures n / d <= n && n % d <= n
  {
    DivideNat(n, d);
    QuotientAndRemainder(n, d);
    MulMono(n / d, 1, d);
  }

  lemma EmptyIsZero(s: Span)
    requires s.bits == 0 && s.InBounds()
    ensures s.Number() == 0
  {
    LimbCountExact(0);
  }

  // old + q * current, in the storage of old.
  method AddProduct(tmp: Span, previous: Span, q: Span, current: Span)
    requires tmp.InBounds() && previous.Normal() && q.Normal() && current.Normal()
    requires tmp.data != previous.data && tmp.data != q.data && tmp.data != current.data
    requires previous.data != q.data && previous.data != current.data
    requires tmp.bits == previous.bits
    requires 0 <= q.Number() * current.Number() && previous.Number() + q.Number() * current.Number() < Pow2(previous.bits)
    modifies tmp.data, previous.data
    ensures previous.Normal()
    ensures previous.Number() == old(previous.Number()) + q.Number() * current.Number()
  {
    hide BasePow, Pow2, LimbCount, IsSum;
    ghost var p := q.Number() * current.Number();
    MultiplyCompiletime(tmp, q, current);
    FitsLimbs(p, tmp.bits);
    DivModUnique(p, BasePow(tmp.LimbSize()), 0, p);
    ghost var s, t := previous.Content(), tmp.Content();
    FitsLimbs(previous.Number() + p, previous.bits);
    var carry := Add(previous, previous, tmp, false);
    SumFits(previous.Content(), carry, s, t, false);
  }

  /** The eight working buffers of the algorithm, as the views currently in use. */
  datatype Buffers = Buffers(oldR: Span, r: Span, oldS: Span, s: Span, oldT: Span, t: Span, q: Span, tmp: Span) {

    ghost predicate Distinct() {
      && oldR.data != r.data && oldR.data != oldS.data && oldR.data != s.data && oldR.data != oldT.data
      && oldR.data != t.data && oldR.data != q.data && oldR.data != tmp.data
      && r.data != oldS.data && r.data != s.data && r.data != oldT.data && r.data != t.data && r.data != q.data && r.data != tmp.data
      && oldS.data != s.data && oldS.data != oldT.data && oldS.data != t.data && oldS.data != q.data && oldS.data != tmp.data
      && s.data != oldT.data && s.data != t.data && s.data != q.data && s.data != tmp.data
      && oldT.data != t.data && oldT.data != q.data && oldT.data != tmp.data
      && t.data != q.data && t.data != tmp.data
      && q.data != tmp.data
    }

    ghost predicate Sized(width: nat) {
      && oldR.bits == width && r.bits == width && oldS.bits == width && s.bits == width
      && oldT.bits == width && t.bits == width && q.bits == width && tmp.bits == width
      && q.InBounds() && tmp.InBounds()
    }

    // The buffers hold two consecutive rows.
    ghost predicate Hold(previous: Row, current: Row)
      reads oldR.data, r.data, oldS.data, s.data, oldT.data, t.data
    {
      && oldR.Normal() && oldR.Number() == previous.r
      && r.Normal() && r.Number() == current.r
      && oldS.Normal() && oldS.Number() == previous.s
      && s.Normal() && s.Number() == current.s
      && oldT.Normal() && oldT.Number() == previous.t
      && t.Normal() && t.Number() == current.t
    }

    // Exchanging old and current after a round.
    function Swapped(): Buffers {
      Buffers(r, oldR, s, oldS, t, oldT, q, tmp)
    }
  }

  /** One round: divide in place, update both cofactors, exchange the views. */
  method Round(b: Buffers, width: nat, ghost previous: Row, ghost current: Row) returns (next: Buffers)
    requires b.Distinct() && b.Sized(width) && b.Hold(previous, current)
    requires current.r > 0
    requires NextRow(previous, current).s < Pow2(width) && NextRow(previous, current).t < Pow2(width)
    modifies b.oldR.data, b.oldS.data, b.oldT.data, b.q.data, b.tmp.data
    ensures next == b.Swapped()
    ensures next.Distinct() && next.Sized(width) && next.Hold(current, NextRow(previous, current))
  {
    hide Pow2, LimbCount;
    RoundIsNat(previous, current);
    DivideInPlace(b.q, b.oldR, b.r);
    AddProduct(b.tmp, b.oldS, b.q, b.s);
    AddProduct(b.tmp, b.oldT, b.q, b.t);
    next := b.Swapped();
  }

  method NewBuffers(left: Span, right: Span, width: nat) returns (b: Buffers)
    requires left.Normal() && right.Normal() && width == Max(left.bits, right.bits)
    ensures fresh(b.oldR.data) && fresh(b.r.data) && fresh(b.oldS.data) && fresh(b.s.data)
    ensures fresh(b.oldT.data) && fresh(b.t.data) && fresh(b.q.data) && fresh(b.tmp.data)
    ensures b.Distinct() && b.Sized(width)
    ensures var one := if width == 0 then 0 else 1; b.Hold(Row(left.Number(), one, 0), Row(right.Number(), 0, one))
  {
    hide Pow2, LimbCount, BasePow, Value, Span.Number, Span.Content;
    var oldR, r := CopyPair(left, right, width);
    var oldS, s := UnitPair(width);
    var t, oldT := UnitPair(width);
    var q, tmp := ZeroPair(width);
    b := Buffers(oldR, r, oldS, s, oldT, t, q, tmp);
  }

  method CopyPair(left: Span, right: Span, width: nat) returns (x: Span, y: Span)
    requires left.Normal() && right.Normal() && width == Max(left.bits, right.bits)
    ensures fresh(x.data) && fresh(y.data) && x.data != y.data && x.bits == y.bits == width
    ensures x.Normal() && y.Normal() && x.Number() == left.Number() && y.Number() == right.Number()
  {
    x := CopyOf(left, width);
    y := CopyOf(right, width);
  }

  method UnitPair(width: nat) returns (x: Span, y: Span)
    ensures fresh(x.data) && fresh(y.data) && x.data != y.data && x.bits == y.bits == width
    ensures x.Normal() && y.Normal() && x.Number() == (if width == 0 then 0 else 1) && y.Number() == 0
  {
    x := NewOneOf(width);
    y := NewZero(width);
  }

  method ZeroPair(width: nat) returns (x: Span, y: Span)
    ensures fresh(x.data) && fresh(y.data) && x.data != y.data && x.bits == y.bits == width
    ensures x.InBounds() && y.InBounds()
  {
    x := NewZero(width);
    y := NewZero(width);
  }

  method CopyOf(value: Span, width: nat) returns (s: Span)
    requires value.Normal() && value.bits <= width
    ensures fresh(s.data) && s.bits == width && s.Normal() && s.Number() == value.Number()
  {
    hide Pow2, LimbCount, BasePow;
    s := NewZero(width);
    BitCopy(s, value);
    LimbCountMono(value.bits, width);
    Pow2Mono(value.bits, width);
  }

  /** The cofactor with the wrong sign, taken modulo the other number. */
  method Complement(cofactor: Span, number: Span)
    requires cofactor.Normal() && number.Normal() && cofactor.data != number.data
    requires cofactor.Number() <= number.Number() && number.bits <= cofactor.bits
    modifies cofactor.data
    ensures cofactor.Normal() && cofactor.Number() == number.Number() - old(cofactor.Number())
  {
    hide Pow2, LimbCount, BasePow, IsDifference;
    ghost var s, t := number.Content(), cofactor.Content();
    Pow2Mono(number.bits, cofactor.bits);
    FitsLimbs(Value(s) - Value(t), cofactor.bits);
    var borrow := Subtract(cofactor, number, cofactor, false);
    DifferenceModulo(cofactor.Content(), borrow, s, t);
    DivModUnique(Value(s) - Value(t), BasePow(cofactor.LimbSize()), 0, Value(s) - Value(t));
  }

  /** The extended Euclidean algorithm over buffers.  Results are cut off at their spans; a span without
      limbs takes nothing.  Between two operands without limbs the left cofactor, one, has no place to be kept in. */
  method ExtendedEuclidean(result: Span, leftResult: Span, rightResult: Span, left: Span, right: Span)
    requires result.InBounds() && leftResult.InBounds() && rightResult.InBounds() && left.Normal() && right.Normal()
    requires result.data != leftResult.data && result.data != rightResult.data && leftResult.data != rightResult.data
    modifies result.data, leftResult.data, rightResult.data
    ensures var (g, x, y) := Extended(old(left.Number()), old(right.Number()));
            && 0 <= x && 0 <= y
            && result.Number() == g % BasePow(result.LimbSize())
            && leftResult.Number() == (if Max(left.bits, right.bits) == 0 then 0 else x) % BasePow(leftResult.LimbSize())
            && rightResult.Number() == y % BasePow(rightResult.LimbSize())
  {
    hide Pow2, LimbCount, BasePow, RowsBelong, NextRow, Rounds, Extended, Value, Span.Content, Buffers.Distinct, Buffers.Hold, Outcome, Cofactors;
    ghost var m, n := left.Number(), right.Number();
    var width := Max(left.bits, right.bits);
    ghost var one := if width == 0 then 0 else 1;
    ghost var previous, current := Row(m, one, 0), Row(n, 0, one);
    ghost var start := Rounds(previous, current, false);
    var b := NewBuffers(left, right, width);
    UnitRowsStart(left, right, one);
    Pow2Mono(left.bits, width);
    Pow2Mono(right.bits, width);
    var odd := false;
    var empty := NewNull();
    CurrentHeld(b, previous, current);
    var more := CompareNotEqual(b.r, empty);
    while more
      invariant fresh(b.oldR.data) && fresh(b.r.data) && fresh(b.oldS.data) && fresh(b.s.data)
      invariant fresh(b.oldT.data) && fresh(b.t.data) && fresh(b.q.data) && fresh(b.tmp.data)
      invariant b.Distinct() && b.Sized(width) && b.Hold(previous, current)
      invariant empty.InBounds() && empty.LimbSize() == 0 && empty.Number() == 0
      invariant left.Normal() && left.Number() == m && right.Normal() && right.Number() == n
      invariant RowsBelong(previous, current, odd, m, n)
      invariant Rounds(previous, current, odd) == start
      invariant more <==> current.r != 0
      decreases current.r
    {
      RowsStep(previous, current, odd, m, n);
      RoundsStep(previous, current, odd);
      b := Round(b, width, previous, current);
      previous, current := current, NextRow(previous, current);
      odd := !odd;
      CurrentHeld(b, previous, current);
      more := CompareNotEqual(b.r, empty);
    }
    RoundsStep(previous, current, odd);
    OldHeld(b, previous, current);
    FromUnitRows(previous, odd, m, n, one);
    FinishExtended(result, leftResult, rightResult, left, right, b.oldR, b.oldS, b.oldT, odd, previous);
  }

  // Without limbs the first rows are zero.
  lemma ZeroRows()
    ensures RowsBelong(Row(0, 0, 0), Row(0, 0, 0), false, 0, 0)
    ensures Outcome(Row(0, 0, 0), false, 0, 0)
  {
    hide Gcd;
    GcdOfZero(0, 0);
  }

  lemma NoRounds()
    ensures Rounds(Row(0, 0, 0), Row(0, 0, 0), false) == (Row(0, 0, 0), false)
    ensures Extended(0, 0) == (0, 1, 0) && Cofactors(Row(0, 0, 0), false, 0, 0) == (0, 0, 0)
  {
    hide Rounds, NextRow;
    RoundsStep(Row(0, 0, 0), Row(0, 0, 0), false);
    RoundsStep(Row(0, 1, 0), Row(0, 0, 1), false);
  }

  lemma UnitRowsStart(left: Span, right: Span, one: nat)
    requires left.InBounds() && right.InBounds() && one == if Max(left.bits, right.bits) == 0 then 0 else 1
    ensures one == 1 || left.Number() == 0 == right.Number()
    ensures RowsBelong(Row(left.Number(), one, 0), Row(right.Number(), 0, one), false, left.Number(), right.Number())
  {
    hide RowsBelong, Span.Number;
    RowsStart(left.Number(), right.Number());
    if one == 0 {
      EmptyIsZero(left);
      EmptyIsZero(right);
      ZeroRows();
    }
  }

  lemma FromUnitRows(last: Row, odd: bool, left: nat, right: nat, one: nat)
    requires (last, odd) == Rounds(Row(left, one, 0), Row(right, 0, one), false)
    requires one == 1 || (one == 0 && left == 0 == right)
    ensures Outcome(last, odd, left, right)
    ensures var (g, x, y) := Extended(left, right);
            0 <= x && 0 <= y && (g, if one == 0 then 0 else x, y) == Cofactors(last, odd, left, right)
  {
    hide Gcd, Rounds, RowsBelong, Outcome, Extended, Cofactors;
    if one == 0 {
      ZeroRows();
      NoRounds();
    } else {
      FromRows(last, odd, left, right);
    }
  }

  lemma FromRows(last: Row, odd: bool, left: nat, right: nat)
    requires (last, odd) == Rounds(Row(left, 1, 0), Row(right, 0, 1), false)
    ensures Outcome(last, odd, left, right)
    ensures var (g, x, y) := Extended(left, right); 0 <= x && 0 <= y && (g, x, y) == Cofactors(last, odd, left, right)
  {
    hide Gcd, Rounds, RowsBelong, Outcome, Congruent, Divides, Max, NextRow, Cofactors;
    RowsStart(left, right);
    RowsEnd(Row(left, 1, 0), Row(right, 0, 1), false, left, right);
    ExtendedIsBezout(left, right);
  }

  lemma CurrentHeld(b: Buffers, previous: Row, current: Row)
    requires b.Hold(previous, current)
    ensures b.r.InBounds() && b.r.Number() == current.r
  {
  }

  lemma OldHeld(b: Buffers, previous: Row, current: Row)
    requires b.Hold(previous, current) && b.Distinct()
    ensures b.oldR.Normal() && b.oldS.Normal() && b.oldT.Normal()
    ensures b.oldR.data != b.oldS.data && b.oldR.data != b.oldT.data && b.oldS.data != b.oldT.data
    ensures previous == Row(b.oldR.Number(), b.oldS.Number(), b.oldT.Number())
  {
  }

  lemma RoundsStep(previous: Row, current: Row, odd: bool)
    ensures Rounds(previous, current, odd) == if current.r == 0 then (previous, odd) else Rounds(current, NextRow(previous, current), !odd)
  {
  }

  method FinishExtended(result: Span, leftResult: Span, rightResult: Span, left: Span, right: Span,
                        r: Span, s: Span, t: Span, odd: bool, ghost last: Row)
    requires result.InBounds() && leftResult.InBounds() && rightResult.InBounds() && left.Normal() && right.Normal()
    requires result.data != leftResult.data && result.data != rightResult.data && leftResult.data != rightResult.data
    requires r.Normal() && s.Normal() && t.Normal() && r.data != s.data && r.data != t.data && s.data != t.data
    requires {r.data, s.data, t.data} !! {result.data, leftResult.data, rightResult.data, left.data, right.data}
    requires left.bits <= s.bits && right.bits <= s.bits && s.bits == t.bits
    requires last == Row(r.Number(), s.Number(), t.Number())
    requires Outcome(last, odd, left.Number(), right.Number())
    modifies result.data, leftResult.data, rightResult.data, s.data, t.data
    ensures var (g, x, y) := Cofactors(last, odd, old(left.Number()), old(right.Number()));
            && 0 <= x && 0 <= y
            && result.Number() == g % BasePow(result.LimbSize())
            && leftResult.Number() == x % BasePow(leftResult.LimbSize())
            && rightResult.Number() == y % BasePow(rightResult.LimbSize())
  {
    hide Pow2, LimbCount, BasePow, Gcd;
    if odd {
      Complement(s, right);
    } else {
      Complement(t, left);
    }
    LowIsMod(r.Content(), result.LimbSize());
    LowIsMod(s.Content(), leftResult.LimbSize());
    LowIsMod(t.Content(), rightResult.LimbSize());
    BitCopy(result, r);
    BitCopy(leftResult, s);
    BitCopy(rightResult, t);
  }
}
