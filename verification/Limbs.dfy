/** Multi-limb naturals as little-endian sequences of limbs.

    The limb width is a constant without a value: everything below holds for every width. */
module Limbs {
  import opened Arithmetic

  const LIMB_BITS: Positive

  type LimbBase = b: nat | b >= 2 && b == Pow2(LIMB_BITS) witness Pow2(LIMB_BITS)

  /** One more than the largest limb. */
  const BASE: LimbBase

  type Limb = x: nat | x < BASE witness 0

  function BasePow(n: nat): (r: nat)
    ensures r >= 1
  {
    if n == 0 then 1 else BASE * BasePow(n - 1)
  }

  /** The number a sequence of limbs stands for; limb 0 is the least significant. */
  function Value(s: seq<Limb>): nat {
    if s == [] then 0 else Value(s[..|s| - 1]) + s[|s| - 1] * BasePow(|s| - 1)
  }

  /** Limb i of a number whose missing upper limbs are zero. */
  function Digit(s: seq<Limb>, i: nat): Limb {
    if i < |s| then s[i] else 0
  }

  /** The value of the lowest n limbs. */
  function Low(s: seq<Limb>, n: nat): nat {
    if n < |s| then Value(s[..n]) else Value(s)
  }

  // Arithmetic steps

  lemma TopDigitBound(v: nat, d: nat, p: nat, b: nat)
    requires v < p && d < b
    ensures v + d * p < b * p
  {
    MulMono(p, d + 1, b);
  }

  lemma {:induction false} ValueBound(s: seq<Limb>)
    ensures Value(s) < BasePow(|s|)
  {
    if s != [] {
      var n := |s| - 1;
      ValueBound(s[..n]);
      TopDigitBound(Value(s[..n]), s[n], BasePow(n), BASE);
    }
  }

  lemma LowStep(s: seq<Limb>, i: nat)
    ensures Low(s, 0) == 0
    ensures Low(s, i + 1) == Low(s, i) + Digit(s, i) * BasePow(i)
  {
    if i < |s| {
      assert s[..i + 1][..i] == s[..i];
      assert i + 1 == |s| ==> s[..i + 1] == s;
    }
  }

  lemma LowFull(s: seq<Limb>, n: nat)
    requires |s| <= n
    ensures Low(s, n) == Value(s)
  {
  }

  lemma {:induction false} LowBound(s: seq<Limb>, n: nat)
    ensures Low(s, n) < BasePow(n)
    ensures Low(s, n) <= Value(s)
  {
    if n < |s| {
      ValueBound(s[..n]);
      ValueSplit(s, n);
      MulMono(BasePow(n), 0, Value(s[n..]));
    } else {
      ValueBound(s);
      BasePowMono(|s|, n);
    }
  }

  lemma {:induction false} BasePowAdd(m: nat, n: nat)
    ensures BasePow(m + n) == BasePow(m) * BasePow(n)
  {
    if n != 0 {
      BasePowAdd(m, n - 1);
      ThreeWay(BASE, BasePow(m), BasePow(n - 1));
    }
  }

  lemma {:induction false} BasePowMono(m: nat, n: nat)
    requires m <= n
    ensures BasePow(m) <= BasePow(n)
    decreases n - m
  {
    if m < n {
      BasePowMono(m, n - 1);
      MulMono(BasePow(n - 1), 1, BASE);
    }
  }

  lemma BasePowStrict(m: nat, n: nat)
    requires m < n
    ensures BASE * BasePow(m) == BasePow(m + 1) <= BasePow(n)
    ensures 2 * BasePow(m) <= BasePow(n)
  {
    BasePowMono(m + 1, n);
    MulMono(BasePow(m), 2, BASE);
  }

  lemma {:induction false} BasePowIsPow2(n: nat)
    ensures BasePow(n) == Pow2(n * LIMB_BITS)
  {
    if n != 0 {
      BasePowIsPow2(n - 1);
      Pow2Add(LIMB_BITS, (n - 1) * LIMB_BITS);
      assert LIMB_BITS + (n - 1) * LIMB_BITS == n * LIMB_BITS;
    }
  }

  lemma BasePowOne()
    ensures BasePow(0) == 1 && BasePow(1) == BASE
  {
    assert BasePow(1) == BASE * BasePow(0);
  }

  lemma CatStep(p: int, v: int, d: int, q: int)
    ensures p * (v + d * q) == p * v + d * (p * q)
  {
    Distribute(v, d * q, p);
    ThreeWay(d, q, p);
    ThreeWay(p, q, d);
  }

  lemma {:induction false} ValueCat(s: seq<Limb>, t: seq<Limb>)
    ensures Value(s + t) == Value(s) + BasePow(|s|) * Value(t)
  {
    if t == [] {
      assert s + t == s;
    } else {
      var n := |t| - 1;
      assert (s + t)[..|s| + n] == s + t[..n];
      ValueCat(s, t[..n]);
      BasePowAdd(|s|, n);
      CatStep(BasePow(|s|), Value(t[..n]), t[n], BasePow(n));
    }
  }

  lemma ValueSplit(s: seq<Limb>, n: nat)
    requires n <= |s|
    ensures Value(s) == Value(s[..n]) + BasePow(n) * Value(s[n..])
  {
    assert s == s[..n] + s[n..];
    ValueCat(s[..n], s[n..]);
  }

  lemma SplitDivMod(v: nat, p: Positive, upper: nat, lower: nat)
    requires v == lower + p * upper && lower < p
    ensures v / p == upper && v % p == lower
  {
    DivModUnique(v, p, upper, lower);
  }

  lemma {:induction false} ValueSplitDivMod(s: seq<Limb>, n: nat)
    requires n <= |s|
    ensures Value(s) / BasePow(n) == Value(s[n..])
    ensures Value(s) % BasePow(n) == Value(s[..n])
  {
    ValueSplit(s, n);
    ValueBound(s[..n]);
    SplitDivMod(Value(s), BasePow(n), Value(s[n..]), Value(s[..n]));
  }

  /** Keeping the lowest n limbs is reduction modulo the n-th power of the base. */
  lemma LowIsMod(s: seq<Limb>, n: nat)
    ensures Low(s, n) == Value(s) % BasePow(n)
  {
    if n < |s| {
      ValueSplitDivMod(s, n);
    } else {
      LowBound(s, n);
      DivModUnique(Value(s), BasePow(n), 0, Value(s));
    }
  }

  lemma ValueSingle(x: Limb)
    ensures Value([x]) == x
  {
    BasePowOne();
    assert [x][..0] == [];
  }

  lemma {:induction false} ValueZero(s: seq<Limb>)
    ensures Value(s) == 0 <==> forall i :: 0 <= i < |s| ==> s[i] == 0
  {
    if s != [] {
      var n := |s| - 1;
      ValueZero(s[..n]);
      if s[n] != 0 {
        MulMono(BasePow(n), 1, s[n]);
      }
      assert forall i :: 0 <= i < n ==> s[..n][i] == s[i];
    }
  }

  // Two numbers that agree above limb n compare as limb n does.
  lemma CompareStep(a: nat, x: nat, b: nat, y: nat, p: nat)
    requires a < p && b < p && x < y
    ensures a + x * p < b + y * p
  {
    MulMono(p, x + 1, y);
  }

  /** Equal-length sequences are equal exactly when their values are. */
  lemma {:induction false} ValueInjective(s: seq<Limb>, t: seq<Limb>)
    requires |s| == |t|
    ensures Value(s) == Value(t) <==> s == t
  {
    if s != [] {
      var n := |s| - 1;
      ValueInjective(s[..n], t[..n]);
      ValueBound(s[..n]);
      ValueBound(t[..n]);
      if s[n] < t[n] {
        CompareStep(Value(s[..n]), s[n], Value(t[..n]), t[n], BasePow(n));
      } else if t[n] < s[n] {
        CompareStep(Value(t[..n]), t[n], Value(s[..n]), s[n], BasePow(n));
      } else {
        assert s == s[..n] + [s[n]] && t == t[..n] + [t[n]];
      }
    }
  }

  // Sizes in bits and in limbs

  /** Number of limbs needed for a number of bits, rounded up. */
  function LimbCount(bits: nat): nat {
    (bits + LIMB_BITS - 1) / LIMB_BITS
  }

  lemma LimbCountBounds(bits: nat)
    ensures bits <= LimbCount(bits) * LIMB_BITS < bits + LIMB_BITS
  {
    var n := LimbCount(bits);
    var r := (bits + LIMB_BITS - 1) % LIMB_BITS;
    assert bits + LIMB_BITS - 1 == n * LIMB_BITS + r;
  }

  lemma LimbCountUnique(bits: nat, n: nat)
    requires bits <= n * LIMB_BITS < bits + LIMB_BITS
    ensures LimbCount(bits) == n
  {
    DivModUnique(bits + LIMB_BITS - 1, LIMB_BITS, n, bits + LIMB_BITS - 1 - n * LIMB_BITS);
  }

  lemma LimbCountMono(a: nat, b: nat)
    requires a <= b
    ensures LimbCount(a) <= LimbCount(b)
  {
    LimbCountBounds(a);
    LimbCountBounds(b);
    var m, n := LimbCount(a), LimbCount(b);
    if n < m {
      MulMono(LIMB_BITS, n + 1, m);
    }
  }

  lemma LimbCountAdd(bits: nat, n: nat)
    ensures LimbCount(bits + n * LIMB_BITS) == LimbCount(bits) + n
  {
    LimbCountBounds(bits);
    Distribute(LimbCount(bits), n, LIMB_BITS);
    LimbCountUnique(bits + n * LIMB_BITS, LimbCount(bits) + n);
  }

  lemma LimbCountExact(n: nat)
    ensures LimbCount(n * LIMB_BITS) == n
  {
    LimbCountUnique(n * LIMB_BITS, n);
  }

  /** A value that fits a number of bits fits the limbs those bits need. */
  lemma FitsLimbs(v: nat, bits: nat)
    requires v < Pow2(bits)
    ensures v < BasePow(LimbCount(bits))
  {
    LimbCountBounds(bits);
    BasePowIsPow2(LimbCount(bits));
    Pow2Mono(bits, LimbCount(bits) * LIMB_BITS);
  }

  /** The limb count of a value's bit width is the least number of limbs that holds it. */
  lemma LimbCountOfValue(v: nat, n: nat)
    ensures LimbCount(BitWidth(v)) <= n <==> v < BasePow(n)
  {
    var w := BitWidth(v);
    BitWidthBounds(v);
    LimbCountBounds(w);
    BasePowIsPow2(n);
    if v < BasePow(n) {
      BitWidthLe(v, n * LIMB_BITS);
      LimbCountMono(w, n * LIMB_BITS);
      LimbCountExact(n);
    }
    if LimbCount(w) <= n {
      MulMono(LIMB_BITS, LimbCount(w), n);
      Pow2Mono(w, n * LIMB_BITS);
    }
  }
}
