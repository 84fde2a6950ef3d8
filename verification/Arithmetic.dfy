/** Facts about multiplication, division and powers of two on the integers.  Every proof in the other
    modules that needs a product of two unknowns calls one of these, so that the solver never has to
    search for a nonlinear argument inside a larger proof. */
module Arithmetic {

  type Positive = x: nat | x >= 1 witness 1

  function Max(a: int, b: int): int {
    if a < b then b else a
  }

  function Min(a: int, b: int): int {
    if a < b then a else b
  }

  lemma MulMono(a: nat, b: int, c: int)
    requires b <= c
    ensures a * b <= a * c
  {
  }

  lemma MulStrict(a: Positive, b: int, c: int)
    requires b < c
    ensures a * b < a * c
  {
  }

  lemma DivModUnique(a: int, b: Positive, q: int, r: nat)
    requires a == q * b + r && r < b
    ensures a / b == q && a % b == r
  {
    var q1, r1 := a / b, a % b;
    assert a == q1 * b + r1;
    assert (q - q1) * b == r1 - r;
    if q - q1 >= 1 {
      MulMono(b, 1, q - q1);
    } else if q - q1 <= -1 {
      MulMono(b, q - q1, -1);
    }
  }

  lemma DivModBounds(a: nat, b: Positive)
    ensures 0 <= a / b <= a && 0 <= a % b < b
    ensures a == (a / b) * b + a % b
  {
    var q := a / b;
    if q < 0 {
      MulMono(b, q, -1);
    } else {
      MulMono(q, 1, b);
    }
  }

  lemma DivBelow(a: nat, b: Positive, c: nat)
    requires a < b * c
    ensures 0 <= a / b < c && 0 <= a % b < b
    ensures a == (a / b) * b + a % b
  {
    DivModBounds(a, b);
    if a / b >= c {
      MulMono(b, c, a / b);
    }
  }

  // The next lemmas move a multiple of the modulus in and out of a remainder.
  lemma ModAddMultiple(a: int, k: int, m: Positive)
    ensures (a + k * m) % m == a % m
  {
    var q, r := a / m, a % m;
    assert a + k * m == (q + k) * m + r;
    DivModUnique(a + k * m, m, q + k, r);
  }

  lemma ModEqualIff(a: int, b: int, m: Positive)
    ensures a % m == b % m <==> (a - b) % m == 0
  {
    var q, r := b / m, b % m;
    if (a - b) % m == 0 {
      var k := (a - b) / m;
      assert a == b + k * m;
      ModAddMultiple(b, k, m);
    }
    if a % m == b % m {
      var qa := a / m;
      assert a - b == (qa - q) * m + 0;
      DivModUnique(a - b, m, qa - q, 0);
    }
  }

  lemma ModMul(a: int, b: int, m: Positive)
    ensures (a * b) % m == ((a % m) * b) % m == (a * (b % m)) % m
  {
    var qa, ra := a / m, a % m;
    var qb, rb := b / m, b % m;
    assert a * b == ra * b + (qa * b) * m by { assert a == qa * m + ra; ThreeWay(qa, m, b); Distribute(qa * m, ra, b); }
    ModAddMultiple(ra * b, qa * b, m);
    assert a * b == a * rb + (qb * a) * m by { assert b == qb * m + rb; ThreeWay(qb, m, a); Distribute(qb * m, rb, a); }
    ModAddMultiple(a * rb, qb * a, m);
  }

  lemma ModAdd(a: int, b: int, m: Positive)
    ensures (a + b) % m == ((a % m) + b) % m == (a + (b % m)) % m
  {
    var qa, qb := a / m, b / m;
    assert a + b == (a % m) + b + qa * m;
    ModAddMultiple((a % m) + b, qa, m);
    assert a + b == a + (b % m) + qb * m;
    ModAddMultiple(a + (b % m), qb, m);
  }

  lemma ModSub(a: int, b: int, m: Positive)
    ensures (a - b) % m == ((a % m) - b) % m == (a - (b % m)) % m
  {
    var qa, qb := a / m, b / m;
    assert a - b == (a % m) - b + qa * m;
    ModAddMultiple((a % m) - b, qa, m);
    assert a - b == a - (b % m) + (-qb) * m;
    ModAddMultiple(a - (b % m), -qb, m);
  }

  lemma ThreeWay(a: int, b: int, c: int)
    ensures (a * b) * c == (a * c) * b == a * (b * c) == (c * a) * b
  {
  }

  lemma Distribute(a: int, b: int, c: int)
    ensures (a + b) * c == a * c + b * c
    ensures c * (a + b) == c * a + c * b
    ensures (a - b) * c == a * c - b * c
    ensures c * (a - b) == c * a - c * b
  {
  }

  // Powers of two

  function Pow2(n: nat): (r: nat)
    ensures r >= 1
  {
    if n == 0 then 1 else 2 * Pow2(n - 1)
  }

  lemma Pow2Small()
    ensures Pow2(0) == 1 && Pow2(1) == 2
  {
  }

  lemma Pow2Double(n: nat)
    ensures Pow2(n + 1) == 2 * Pow2(n)
  {
  }

  lemma {:induction false} Pow2Add(m: nat, n: nat)
    ensures Pow2(m + n) == Pow2(m) * Pow2(n)
  {
    if n == 0 {
      assert Pow2(0) == 1;
    } else {
      Pow2Add(m, n - 1);
      var a, b := Pow2(m), Pow2(n - 1);
      ThreeWay(a, 2, b);
    }
  }

  lemma {:induction false} Pow2Mono(m: nat, n: nat)
    requires m <= n
    ensures Pow2(m) <= Pow2(n)
    decreases n - m
  {
    if m < n {
      Pow2Mono(m + 1, n);
    }
  }

  lemma {:induction false} Pow2Strict(m: nat, n: nat)
    requires m < n
    ensures 2 * Pow2(m) <= Pow2(n)
  {
    Pow2Mono(m + 1, n);
  }

  /** Number of bits of a value: the least width that holds it. */
  function BitWidth(v: nat): nat {
    if v == 0 then 0 else 1 + BitWidth(v / 2)
  }

  lemma {:induction false} BitWidthBounds(v: nat)
    ensures v < Pow2(BitWidth(v))
    ensures v > 0 ==> BitWidth(v) > 0 && Pow2(BitWidth(v) - 1) <= v
  {
    if v > 0 {
      BitWidthBounds(v / 2);
    }
  }

  // BitWidth is fixed by the two bounds.
  lemma {:induction false} BitWidthUnique(v: nat, w: nat)
    requires v < Pow2(w)
    requires w > 0 ==> Pow2(w - 1) <= v
    ensures BitWidth(v) == w
  {
    BitWidthBounds(v);
    var b := BitWidth(v);
    if b < w {
      Pow2Mono(b, w - 1);
    } else if w < b {
      Pow2Mono(w, b - 1);
    }
  }

  lemma {:induction false} BitWidthLe(v: nat, w: nat)
    requires v < Pow2(w)
    ensures BitWidth(v) <= w
  {
    BitWidthBounds(v);
    if BitWidth(v) > w {
      Pow2Mono(w, BitWidth(v) - 1);
    }
  }
}
