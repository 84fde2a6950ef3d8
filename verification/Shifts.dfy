/** Bit counts and shifts of multi-limb numbers. */
module Shifts {
  import opened Arithmetic
  import opened Limbs
  import opened Spans

  // Bit width

  lemma TopBits(low: nat, x: nat, p: nat, h: nat, f: nat)
    requires low < p && h <= x < f
    ensures h * p <= low + x * p < f * p
  {
    TopDigitBound(low, x, p, f);
    MulMono(p, h, x);
  }

  lemma {:induction false} BitWidthOfTop(low: nat, x: nat, i: nat)
    requires x > 0 && low < BasePow(i)
    ensures BitWidth(low + x * BasePow(i)) == BitWidth(x) + i * LIMB_BITS
  {
    hide BasePow, Pow2, BitWidth;
    var w := BitWidth(x);
    var k := i * LIMB_BITS;
    MulMono(LIMB_BITS, 0, i);
    BitWidthBounds(x);
    BasePowIsPow2(i);
    Pow2Add(w, k);
    Pow2Add(w - 1, k);
    TopBits(low, x, BasePow(i), Pow2(w - 1), Pow2(w));
    BitWidthUnique(low + x * BasePow(i), w + k);
  }

  lemma {:induction false} ZeroTop(s: seq<Limb>, i: nat, n: nat)
    requires i <= n
    requires forall k :: i <= k < n ==> Digit(s, k) == 0
    ensures Low(s, n) == Low(s, i)
    decreases n
  {
    if i < n {
      ZeroTop(s, i, n - 1);
      LowStep(s, n - 1);
    }
  }

  lemma {:induction false} BitWidthFound(s: seq<Limb>, i: nat)
    requires i < |s| && s[i] != 0
    requires forall k :: i < k < |s| ==> s[k] == 0
    ensures BitWidth(Value(s)) == BitWidth(s[i]) + i * LIMB_BITS
  {
    ZeroTop(s, i + 1, |s|);
    LowStep(s, i);
    LowBound(s, i);
    BitWidthOfTop(Low(s, i), s[i], i);
  }

  /** Bit width with an early exit at the most significant limb that is not zero. */
  method BitWidthOf(value: Span) returns (width: nat)
    requires value.InBounds()
    ensures width == BitWidth(value.Number())
  {
    hide LimbCount, BitWidth;
    ghost var v := value.Content();
    BitWidthOfZero();
    for i := value.LimbSize() downto 0
      invariant forall k :: i <= k < |v| ==> v[k] == 0
    {
      var w := BitWidth(value.Read(i));
      BitWidthBounds(value.Read(i));
      assert value.Read(i) == v[i];
      if w != 0 {
        assert v[i] != 0;
        BitWidthFound(v, i);
        MulMono(LIMB_BITS, 0, i);
        return w + i * LIMB_BITS;
      }
    }
    ValueZero(v);
    return 0;
  }

  lemma BitWidthOfZero()
    ensures BitWidth(0) == 0
  {
  }

  /** The same width as a fold that visits every limb. */
  method BitWidthFold(value: Span) returns (width: nat)
    requires value.InBounds()
    ensures width == BitWidth(value.Number())
  {
    hide LimbCount, BitWidth;
    ghost var v := value.Content();
    BitWidthOfZero();
    width := 0;
    for i := value.LimbSize() downto 0
      invariant width == 0 ==> forall k :: i <= k < |v| ==> v[k] == 0
      invariant width != 0 ==> width == BitWidth(value.Number())
    {
      var w := BitWidth(value.Read(i));
      BitWidthBounds(value.Read(i));
      MulMono(LIMB_BITS, 0, i);
      if width == 0 && v[i] != 0 {
        BitWidthFound(v, i);
      }
      width := if width == 0 && w != 0 then w + i * LIMB_BITS else width;
    }
    if width == 0 {
      ValueZero(v);
    }
  }

  // Trailing zeros

  /** Number of zero bits below the lowest bit that is set. */
  function TrailingZeros(v: nat): nat
    requires v > 0
  {
    if v % 2 == 1 then 0 else 1 + TrailingZeros(v / 2)
  }

  lemma {:induction false} TrailingZerosUnique(v: nat, t: nat, odd: nat)
    requires v == Pow2(t) * odd && odd % 2 == 1
    ensures v > 0 && TrailingZeros(v) == t
  {
    if t == 0 {
      assert Pow2(0) == 1;
    } else {
      ThreeWay(2, Pow2(t - 1), odd);
      var half := Pow2(t - 1) * odd;
      assert v == 2 * half;
      TrailingZerosUnique(half, t - 1, odd);
    }
  }

  lemma {:induction false} TrailingZerosSplit(v: nat) returns (odd: nat)
    requires v > 0
    ensures v == Pow2(TrailingZeros(v)) * odd && odd % 2 == 1
  {
    if v % 2 == 1 {
      odd := v;
    } else {
      odd := TrailingZerosSplit(v / 2);
      ThreeWay(2, Pow2(TrailingZeros(v / 2)), odd);
    }
  }

  lemma {:induction false} TrailingZerosBound(v: nat, w: nat)
    requires 0 < v < Pow2(w)
    ensures TrailingZeros(v) < w
  {
    var odd := TrailingZerosSplit(v);
    var t := TrailingZeros(v);
    MulMono(Pow2(t), 1, odd);
    if w <= t {
      Pow2Mono(w, t);
    }
  }

  lemma FactorOut(a: nat, odd: nat, c: nat, rest: nat, p: nat, b: nat)
    requires b == a * (2 * c)
    ensures (a * odd) * p + (b * p) * rest == (p * a) * (odd + 2 * (c * rest))
  {
    ThreeWay(a, odd, p);
    ThreeWay(p, a, odd);
    assert (b * p) * rest == (p * a) * (2 * (c * rest)) by {
      calc {
        (b * p) * rest;
        ((a * (2 * c)) * p) * rest;
        { ThreeWay(a, 2 * c, p); }
        ((a * p) * (2 * c)) * rest;
        { ThreeWay(a * p, 2 * c, rest); }
        (a * p) * ((2 * c) * rest);
        { ThreeWay(2, c, rest); }
        (p * a) * (2 * (c * rest));
      }
    }
    Distribute(odd, 2 * (c * rest), p * a);
  }

  lemma {:induction false} TrailingZerosFound(s: seq<Limb>, i: nat)
    requires i < |s| && s[i] != 0
    requires forall k :: 0 <= k < i ==> s[k] == 0
    ensures Value(s) > 0 && TrailingZeros(Value(s)) == TrailingZeros(s[i]) + i * LIMB_BITS
  {
    hide TrailingZeros, Pow2, BasePow;
    var t := TrailingZeros(s[i]);
    TrailingZerosBound(s[i], LIMB_BITS);
    var odd := TrailingZerosSplit(s[i]);
    var c := Pow2(LIMB_BITS - t - 1);
    var p := BasePow(i);
    var rest := Value(s[i + 1..]);
    ValueZero(s[..i]);
    ValueSplit(s, i + 1);
    assert s[..i + 1][..i] == s[..i];
    BaseSplit(t);
    assert BASE == Pow2(t) * (2 * c) by { Pow2Double(LIMB_BITS - t - 1); }
    BasePowStrict(i, i + 1);
    LowStep(s, i);
    FactorOut(Pow2(t), odd, c, rest, p, BASE);
    BasePowIsPow2(i);
    MulMono(LIMB_BITS, 0, i);
    Pow2Add(i * LIMB_BITS, t);
    MulMono(c, 0, rest);
    TrailingZerosUnique(Value(s), i * LIMB_BITS + t, odd + 2 * (c * rest));
  }

  /** Trailing zeros of one limb; a limb without a set bit has as many as it has bits. */
  function LimbTrailingZeros(x: Limb): (r: nat)
    ensures r == LIMB_BITS <==> x == 0
  {
    if x == 0 then
      LIMB_BITS
    else
      TrailingZerosBound(x, LIMB_BITS);
      TrailingZeros(x)
  }

  /** Trailing zeros of a number, the span's size in bits if it is zero. */
  method CountTrailingZeros(value: Span) returns (count: nat)
    requires value.Normal()
    ensures count == if value.Number() == 0 then value.bits else TrailingZeros(value.Number())
  {
    hide LimbCount, TrailingZeros, Pow2;
    ghost var v := value.Content();
    for i := 0 to value.LimbSize()
      invariant forall k :: 0 <= k < i ==> v[k] == 0
    {
      var c := LimbTrailingZeros(value.Read(i));
      assert value.Read(i) == v[i];
      if c != LIMB_BITS {
        TrailingZerosFound(v, i);
        TrailingZerosBound(Value(v), value.bits);
        MulMono(LIMB_BITS, 0, i);
        return Min(i * LIMB_BITS + c, value.bits);
      }
    }
    ValueZero(v);
    return value.bits;
  }

  // Left shift

  // The base splits into the part a limb is shifted by and the complementary part.
  lemma BaseSplit(shift: nat)
    requires shift <= LIMB_BITS
    ensures BASE == Pow2(shift) * Pow2(LIMB_BITS - shift)
  {
    Pow2Add(shift, LIMB_BITS - shift);
  }

  lemma ShiftedLimb(x: nat, a: Positive, c: Positive, b: Positive)
    requires b == a * c
    ensures x * a == (x * a) % b + b * (x / c)
    ensures (x * a) % b == (x % c) * a
    ensures x < b ==> x / c < a
    ensures (x * a) % b + (a - 1) < b
  {
    var q, r := x / c, x % c;
    assert x == q * c + r;
    Distribute(q * c, r, a);
    ThreeWay(q, c, a);
    ThreeWay(q, a, c);
    assert (q * c) * a == q * b;
    MulMono(a, r + 1, c);
    Distribute(r, 1, a);
    DivModUnique(x * a, b, q, r * a);
    if x < b && q >= a {
      MulMono(c, a, q);
    }
  }

  lemma CombinedShiftLeftFits(lower: Limb, upper: Limb, shift: nat)
    requires shift <= LIMB_BITS
    ensures 0 <= (upper * Pow2(shift)) % BASE + lower / Pow2(LIMB_BITS - shift) < BASE
  {
    hide Pow2;
    var a, c := Pow2(shift), Pow2(LIMB_BITS - shift);
    BaseSplit(shift);
    ShiftedLimb(upper, a, c, BASE);
    ShiftedLimb(lower, a, c, BASE);
    DivideNat(lower, c);
  }

  /** Limb of a number shifted left by fewer bits than a limb has.  The two parts have no bit in
      common, so their sum is their bitwise or. */
  function CombinedShiftLeft(lower: Limb, upper: Limb, shift: nat): (r: Limb)
    requires shift <= LIMB_BITS
    ensures r == (upper * Pow2(shift)) % BASE + lower / Pow2(LIMB_BITS - shift)
  {
    CombinedShiftLeftFits(lower, upper, shift);
    (upper * Pow2(shift)) % BASE + lower / Pow2(LIMB_BITS - shift)
  }

  /** Limb i of a number shifted left by `limbs` limbs and `shift` bits. */
  function ShiftLeftDigit(s: seq<Limb>, limbs: nat, shift: nat, i: nat): Limb
    requires shift < LIMB_BITS
  {
    if i < limbs then 0
    else CombinedShiftLeft(if i > limbs then Digit(s, i - limbs - 1) else 0, Digit(s, i - limbs), shift)
  }

  lemma ShiftLeftArithmetic(w: nat, d: nat, c: nat, carry: nat, p: nat, b: nat, low: nat, x: nat, a: nat)
    requires w + carry * p == low * a
    requires d == c + carry
    ensures (w + d * p) + ((x * a) - c) * p == (low + x * p) * a
  {
    Distribute(c, carry, p);
    Distribute(x * a, c, p);
    Distribute(low, x * p, a);
    ThreeWay(x, a, p);
  }

  // The limbs below i of the shifted number, together with the bits leaving limb i - 1, are the
  // shifted lower limbs.
  lemma {:induction false} ShiftLeftPrefix(s: seq<Limb>, w: seq<Limb>, shift: nat)
    requires shift < LIMB_BITS
    requires forall i :: 0 <= i < |w| ==> w[i] == ShiftLeftDigit(s, 0, shift, i)
    ensures Value(w) + (if w == [] then 0 else (Digit(s, |w| - 1) / Pow2(LIMB_BITS - shift)) * BasePow(|w|))
         == Low(s, |w|) * Pow2(shift)
  {
    hide BasePow, Pow2;
    LowStep(s, 0);
    if w != [] {
      var n := |w| - 1;
      var a, c := Pow2(shift), Pow2(LIMB_BITS - shift);
      ShiftLeftPrefix(s, w[..n], shift);
      BaseSplit(shift);
      var x := Digit(s, n);
      var prev := if n > 0 then Digit(s, n - 1) / c else 0;
      ShiftedLimb(x, a, c, BASE);
      ZeroDivided(c);
      assert w[n] == (x * a) % BASE + prev;
      ShiftLeftArithmetic(Value(w[..n]), w[n], (x * a) % BASE, prev, BasePow(n), BASE, Low(s, n), x, a);
      LowStep(s, n);
      BasePowStrict(n, n + 1);
      ThreeWay(BASE, x / c, BasePow(n));
    }
  }

  lemma ZeroDivided(c: Positive)
    ensures 0 / c == 0
  {
  }

  lemma ShiftLeftMod(w: nat, carry: nat, p: Positive, low: nat, v: nat, a: nat)
    requires w + carry * p == low * a && w < p
    requires low == v % p
    ensures w == (v * a) % p
  {
    ModMul(v, a, p);
    DivModUnique(low * a, p, carry, w);
  }

  // Shifting by whole limbs on top.
  lemma {:induction false} ShiftLeftLimbs(s: seq<Limb>, w: seq<Limb>, limbs: nat, shift: nat)
    requires shift < LIMB_BITS
    requires forall i :: 0 <= i < |w| ==> w[i] == ShiftLeftDigit(s, limbs, shift, i)
    ensures Value(w) == (Value(s) * (Pow2(shift) * BasePow(limbs))) % BasePow(|w|)
  {
    hide BasePow, Pow2;
    var a := Pow2(shift);
    var q := BasePow(limbs);
    if |w| <= limbs {
      ValueZero(w);
      var r := BasePow(limbs - |w|);
      BasePowAdd(|w|, limbs - |w|);
      var k := Value(s) * a * r;
      ThreeWay(Value(s), a, q);
      ThreeWay(Value(s) * a, BasePow(|w|), r);
      MulMono(a, 0, Value(s));
      MulMono(r, 0, Value(s) * a);
      DivModUnique(Value(s) * (a * q), BasePow(|w|), k, 0);
    } else {
      var u := w[limbs..];
      var m := |u|;
      ValueZero(w[..limbs]);
      ValueSplit(w, limbs);
      assert forall i :: 0 <= i < m ==> u[i] == ShiftLeftDigit(s, 0, shift, i);
      ShiftLeftPrefix(s, u, shift);
      LowIsMod(s, m);
      ValueBound(u);
      var carry := if u == [] then 0 else Digit(s, m - 1) / Pow2(LIMB_BITS - shift);
      DivideNat(Digit(s, m - 1), Pow2(LIMB_BITS - shift));
      ShiftLeftMod(Value(u), carry, BasePow(m), Low(s, m), Value(s), a);
      ScaleMod(Value(s) * a, q, BasePow(m));
      BasePowAdd(limbs, m);
      ThreeWay(Value(s), a, q);
    }
  }

  lemma DivideNat(x: nat, c: Positive)
    ensures x / c >= 0
  {
    assert x == c * (x / c) + x % c;
    if x / c < 0 {
      MulMono(c, x / c, -1);
    }
  }

  lemma ScaleMod(v: int, q: Positive, p: Positive)
    ensures q * p >= 1 && (v * q) % (q * p) == q * (v % p)
  {
    var k, r := v / p, v % p;
    MulMono(q, 1, p);
    assert v == k * p + r;
    Distribute(k * p, r, q);
    ThreeWay(k, p, q);
    ThreeWay(q, p, k);
    MulMono(q, r + 1, p);
    MulMono(q, 0, r);
    Distribute(r, 1, q);
    DivModUnique(v * q, q * p, k, q * r);
  }

  lemma {:induction false} ShiftSplit(shift: nat)
    ensures Pow2(shift) == Pow2(shift % LIMB_BITS) * BasePow(shift / LIMB_BITS)
  {
    DivideNat(shift, LIMB_BITS);
    var limbs, bits := shift / LIMB_BITS, shift % LIMB_BITS;
    assert shift == bits + limbs * LIMB_BITS;
    MulMono(LIMB_BITS, 0, limbs);
    Pow2Add(bits, limbs * LIMB_BITS);
    BasePowIsPow2(limbs);
  }

  /** result = value * 2^shift, cut off at the result's limbs, written from the top limb down. */
  method ShiftLeft(result: Span, value: Span, shift: nat)
    requires result.InBounds() && value.InBounds()
    requires value.SameOrApart(result)
    modifies result.data
    ensures OnlyWithin(result)
    ensures result.Number() == (old(value.Number()) * Pow2(shift)) % BasePow(result.LimbSize())
  {
    hide LimbCount, ShiftLeftDigit, CombinedShiftLeft, Pow2, BasePow;
    var n := result.LimbSize();
    ghost var v := value.Content();
    DivideNat(shift, LIMB_BITS);
    var limbShift, bitShift := shift / LIMB_BITS, shift % LIMB_BITS;
    for i := n downto 0
      invariant OnlyWithin(result)
      invariant forall k :: 0 <= k < |v| && k < i ==> value.data[value.offset + k] == v[k]
      invariant forall k :: i <= k < n ==> result.data[result.offset + k] == ShiftLeftDigit(v, limbShift, bitShift, k)
    {
      ShiftLeftCases(v, limbShift, bitShift, i);
      if i < limbShift {
        result.data[result.offset + i] := 0;
      } else {
        var current := if i - limbShift < value.LimbSize() then value.data[value.offset + (i - limbShift)] else 0;
        assert current == Digit(v, i - limbShift);
        if bitShift == 0 {
          result.data[result.offset + i] := current;
        } else {
          var previous := if 0 < i - limbShift <= value.LimbSize() then value.data[value.offset + (i - limbShift - 1)] else 0;
          result.data[result.offset + i] := CombinedShiftLeft(previous, current, bitShift);
        }
      }
    }
    ShiftLeftLimbs(v, result.Content(), limbShift, bitShift);
    ShiftSplit(shift);
  }

  lemma ShiftLeftCases(s: seq<Limb>, limbs: nat, shift: nat, i: nat)
    requires shift < LIMB_BITS
    ensures i < limbs ==> ShiftLeftDigit(s, limbs, shift, i) == 0
    ensures i >= limbs && shift == 0 ==> ShiftLeftDigit(s, limbs, shift, i) == Digit(s, i - limbs)
    ensures i >= limbs ==>
              ShiftLeftDigit(s, limbs, shift, i)
              == CombinedShiftLeft(if i > limbs then Digit(s, i - limbs - 1) else 0, Digit(s, i - limbs), shift)
  {
    if i >= limbs && shift == 0 {
      var x := Digit(s, i - limbs);
      var y := if i > limbs then Digit(s, i - limbs - 1) else 0;
      assert Pow2(0) == 1;
      DivModUnique(x, BASE, 0, x);
      DivModUnique(y, BASE, 0, y);
    }
  }

  // Right shift

  /** Limb of a number shifted right by fewer bits than a limb has; again the parts are disjoint. */
  function CombinedShiftRight(lower: Limb, upper: Limb, shift: nat): (r: Limb)
    requires shift <= LIMB_BITS
    ensures r * Pow2(shift) + lower % Pow2(shift) == lower + (upper % Pow2(shift)) * BASE
  {
    CombinedShiftRightFits(lower, upper, shift);
    lower / Pow2(shift) + (upper * Pow2(LIMB_BITS - shift)) % BASE
  }

  lemma CombinedShiftRightFits(lower: Limb, upper: Limb, shift: nat)
    requires shift <= LIMB_BITS
    ensures var d := lower / Pow2(shift) + (upper * Pow2(LIMB_BITS - shift)) % BASE;
            0 <= d < BASE && d * Pow2(shift) + lower % Pow2(shift) == lower + (upper % Pow2(shift)) * BASE
  {
    hide Pow2;
    var a, c := Pow2(shift), Pow2(LIMB_BITS - shift);
    BaseSplit(shift);
    ShiftedLimb(upper, c, a, BASE);
    ShiftedLimb(lower, c, a, BASE);
    DivideNat(lower, a);
    var q := lower / a;
    assert lower == q * a + lower % a;
    Distribute(q, (upper * c) % BASE, a);
    ThreeWay(upper % a, c, a);
  }

  /** Limb i of a number shifted right by `limbs` limbs and `shift` bits. */
  function ShiftRightDigit(s: seq<Limb>, limbs: nat, shift: nat, i: nat): Limb
    requires shift < LIMB_BITS
  {
    CombinedShiftRight(Digit(s, i + limbs), Digit(s, i + limbs + 1), shift)
  }

  lemma ShiftRightArithmetic(w: nat, d: nat, r0: nat, low: nat, x: nat, rx: nat, ry: nat, p: nat, b: nat, a: nat)
    requires w * a + r0 == low + rx * p
    requires d * a + rx == x + ry * b
    ensures (w + d * p) * a + r0 == (low + x * p) + ry * (b * p)
  {
    Distribute(w, d * p, a);
    ThreeWay(d, p, a);
    calc {
      (d * a) * p;
      (x + ry * b - rx) * p;
      { Distribute(x + ry * b, rx, p); Distribute(x, ry * b, p); ThreeWay(ry, b, p); }
      x * p + ry * (b * p) - rx * p;
    }
  }

  lemma {:induction false} ShiftRightPrefix(u: seq<Limb>, w: seq<Limb>, shift: nat)
    requires shift < LIMB_BITS
    requires forall i :: 0 <= i < |w| ==> w[i] == ShiftRightDigit(u, 0, shift, i)
    ensures Value(w) * Pow2(shift) + Digit(u, 0) % Pow2(shift)
         == Low(u, |w|) + (Digit(u, |w|) % Pow2(shift)) * BasePow(|w|)
  {
    hide BasePow, Pow2;
    var a := Pow2(shift);
    if w == [] {
      LowStep(u, 0);
      BasePowOne();
    } else {
      var n := |w| - 1;
      ShiftRightPrefix(u, w[..n], shift);
      LowStep(u, n);
      BasePowStrict(n, n + 1);
      DivModBounds(Digit(u, 0), a);
      DivModBounds(Digit(u, n), a);
      DivModBounds(Digit(u, n + 1), a);
      ShiftRightArithmetic(Value(w[..n]), w[n], Digit(u, 0) % a, Low(u, n), Digit(u, n), Digit(u, n) % a, Digit(u, n + 1) % a, BasePow(n), BASE, a);
    }
  }

  lemma ShiftRightDivide(v: nat, a: Positive, x: nat, r0: nat, low: nat, h: nat, p: Positive)
    requires v == low + p * h
    requires x * a + r0 == low + (h % a) * p
    requires r0 < a && x < p
    ensures x == (v / a) % p
  {
    var k := h / a;
    DivideNat(h, a);
    assert h == k * a + h % a;
    Distribute(k * a, h % a, p);
    ThreeWay(k, a, p);
    ThreeWay(p, k, a);
    Distribute(x, k * p, a);
    assert v == (x + k * p) * a + r0;
    DivModUnique(v, a, x + k * p, r0);
    DivModUnique(x + k * p, p, k, x);
  }

  // The limbs from n on, modulo a divisor of the base, are limb n modulo that divisor.
  lemma {:induction false} UpperPart(u: seq<Limb>, n: nat, a: Positive, c: nat) returns (h: nat)
    requires BASE == a * c
    ensures Value(u) == Low(u, n) + BasePow(n) * h
    ensures h % a == Digit(u, n) % a
  {
    hide BasePow;
    if n < |u| {
      h := Value(u[n..]);
      ValueSplit(u, n);
      ValueSplit(u[n..], 1);
      assert u[n..][..1] == [u[n]];
      ValueSingle(u[n]);
      BasePowOne();
      var rest := Value(u[n..][1..]);
      ThreeWay(a, c, rest);
      ModAddMultiple(u[n], c * rest, a);
    } else {
      h := 0;
    }
  }

  lemma DivideTwice(v: nat, p: Positive, a: Positive)
    ensures a * p >= 1 && (v / p) / a == v / (a * p)
  {
    var q, r := v / p, v % p;
    DivideNat(v, p);
    var q2, r2 := q / a, q % a;
    DivideNat(q, a);
    assert v == q * p + r && q == q2 * a + r2;
    Distribute(q2 * a, r2, p);
    ThreeWay(q2, a, p);
    MulMono(p, r2 + 1, a);
    Distribute(r2, 1, p);
    MulMono(p, 0, r2);
    MulMono(a, 1, p);
    DivModUnique(v, a * p, q2, r2 * p + r);
  }

  lemma {:induction false} DropLimbs(s: seq<Limb>, limbs: nat) returns (u: seq<Limb>)
    ensures Value(u) == Value(s) / BasePow(limbs)
    ensures forall i: nat :: Digit(u, i) == Digit(s, i + limbs)
  {
    if limbs <= |s| {
      u := s[limbs..];
      ValueSplitDivMod(s, limbs);
    } else {
      u := [];
      LowBound(s, limbs);
      LowFull(s, limbs);
      DivModUnique(Value(s), BasePow(limbs), 0, Value(s));
    }
  }

  lemma {:induction false} ShiftRightLimbs(s: seq<Limb>, w: seq<Limb>, limbs: nat, shift: nat)
    requires shift < LIMB_BITS
    requires forall i :: 0 <= i < |w| ==> w[i] == ShiftRightDigit(s, limbs, shift, i)
    ensures Pow2(shift) * BasePow(limbs) >= 1
    ensures Value(w) == (Value(s) / (Pow2(shift) * BasePow(limbs))) % BasePow(|w|)
  {
    hide BasePow, Pow2;
    var a, c := Pow2(shift), Pow2(LIMB_BITS - shift);
    var u := DropLimbs(s, limbs);
    assert forall i :: 0 <= i < |w| ==> w[i] == ShiftRightDigit(u, 0, shift, i);
    ShiftRightPrefix(u, w, shift);
    BaseSplit(shift);
    var h := UpperPart(u, |w|, a, c);
    ValueBound(w);
    ShiftRightDivide(Value(u), a, Value(w), Digit(u, 0) % a, Low(u, |w|), h, BasePow(|w|));
    DivideTwice(Value(s), BasePow(limbs), a);
  }

  lemma ShiftRightCases(s: seq<Limb>, limbs: nat, i: nat)
    ensures ShiftRightDigit(s, limbs, 0, i) == Digit(s, i + limbs)
  {
    var x, y := Digit(s, i + limbs), Digit(s, i + limbs + 1);
    var r := CombinedShiftRight(x, y, 0);
    assert Pow2(0) == 1;
    assert r * 1 + x % 1 == x + (y % 1) * BASE;
    assert x % 1 == 0 && y % 1 == 0;
  }

  /** result = value / 2^shift, cut off at the result's limbs, written from limb 0 up. */
  method ShiftRight(result: Span, value: Span, shift: nat)
    requires result.InBounds() && value.InBounds()
    requires value.SameOrApart(result)
    modifies result.data
    ensures OnlyWithin(result)
    ensures result.Number() == (old(value.Number()) / Pow2(shift)) % BasePow(result.LimbSize())
  {
    hide LimbCount, ShiftRightDigit, CombinedShiftRight, Pow2, BasePow;
    var n := result.LimbSize();
    ghost var v := value.Content();
    DivideNat(shift, LIMB_BITS);
    var limbShift, bitShift := shift / LIMB_BITS, shift % LIMB_BITS;
    for i := 0 to n
      invariant OnlyWithin(result)
      invariant forall k :: i <= k < |v| ==> value.data[value.offset + k] == v[k]
      invariant forall k :: 0 <= k < i ==> result.data[result.offset + k] == ShiftRightDigit(v, limbShift, bitShift, k)
    {
      var current := value.ExtendedRead(i + limbShift);
      assert current == Digit(v, i + limbShift);
      if bitShift == 0 {
        ShiftRightCases(v, limbShift, i);
        result.data[result.offset + i] := current;
      } else {
        var next := value.ExtendedRead(i + limbShift + 1);
        assert next == Digit(v, i + limbShift + 1);
        ShiftRightIs(v, limbShift, bitShift, i);
        result.data[result.offset + i] := CombinedShiftRight(current, next, bitShift);
      }
    }
    ShiftRightLimbs(v, result.Content(), limbShift, bitShift);
    ShiftSplit(shift);
  }

  lemma ShiftRightIs(s: seq<Limb>, limbs: nat, shift: nat, i: nat)
    requires shift < LIMB_BITS
    ensures ShiftRightDigit(s, limbs, shift, i) == CombinedShiftRight(Digit(s, i + limbs), Digit(s, i + limbs + 1), shift)
  {
  }
}
