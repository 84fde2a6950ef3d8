/** Divisibility and greatest common divisors of plain numbers. */
module Divisibility {
  import opened Arithmetic

  predicate Divides(d: nat, x: int) {
    if d == 0 then x == 0 else x % d == 0
  }

  /** a and b differ by a multiple of m; modulo zero only equal numbers are congruent. */
  predicate Congruent(a: int, b: int, m: nat) {
    Divides(m, a - b)
  }

  lemma DividesMultiple(d: nat, k: int)
    ensures Divides(d, k * d)
  {
    if d > 0 {
      DivModUnique(k * d, d, k, 0);
    }
  }

  lemma DividesWitness(d: nat, x: int) returns (k: int)
    requires Divides(d, x)
    ensures x == k * d
  {
    k := if d == 0 then 0 else x / d;
  }

  lemma DividesLinear(d: nat, x: int, y: int, a: int, b: int)
    requires Divides(d, x) && Divides(d, y)
    ensures Divides(d, a * x + b * y)
  {
    var k := DividesWitness(d, x);
    var l := DividesWitness(d, y);
    ThreeWay(a, k, d);
    ThreeWay(b, l, d);
    Distribute(a * k, b * l, d);
    DividesMultiple(d, a * k + b * l);
  }

  // Congruences

  lemma CongruentRefl(a: int, m: nat)
    ensures Congruent(a, a, m)
  {
    DividesMultiple(m, 0);
  }

  lemma CongruentSym(a: int, b: int, m: nat)
    requires Congruent(a, b, m)
    ensures Congruent(b, a, m)
  {
    DividesLinear(m, a - b, a - b, -1, 0);
  }

  lemma CongruentTrans(a: int, b: int, c: int, m: nat)
    requires Congruent(a, b, m) && Congruent(b, c, m)
    ensures Congruent(a, c, m)
  {
    DividesLinear(m, a - b, b - c, 1, 1);
  }

  lemma CongruentAdd(a: int, b: int, c: int, d: int, m: nat)
    requires Congruent(a, b, m) && Congruent(c, d, m)
    ensures Congruent(a + c, b + d, m) && Congruent(a - c, b - d, m)
  {
    DividesLinear(m, a - b, c - d, 1, 1);
    DividesLinear(m, a - b, c - d, 1, -1);
  }

  lemma CongruentMul(a: int, b: int, c: int, d: int, m: nat)
    requires Congruent(a, b, m) && Congruent(c, d, m)
    ensures Congruent(a * c, b * d, m)
  {
    hide Divides;
    DividesLinear(m, a - b, c - d, c, b);
    Distribute(a, b, c);
    Distribute(c, d, b);
  }

  lemma CongruentMultiple(a: int, k: int, m: nat)
    ensures Congruent(a + k * m, a, m)
  {
    DividesMultiple(m, k);
  }

  lemma CongruentMod(a: int, m: Positive)
    ensures Congruent(a % m, a, m) && Congruent(a, a % m, m)
  {
    var k := a / m;
    assert a == a % m + k * m;
    CongruentMultiple(a % m, k, m);
    CongruentSym(a, a % m, m);
  }

  /** Congruent numbers in the same range of one modulus are equal. */
  lemma CongruentUnique(a: int, b: int, m: nat)
    requires Congruent(a, b, m) && a - b < m && b - a < m
    ensures a == b
  {
    var k := DividesWitness(m, a - b);
    if k >= 1 {
      MulMono(m, 1, k);
    } else if k <= -1 {
      MulMono(m, k, -1);
    }
  }

  predicate CommonDivisor(d: nat, a: nat, b: nat) {
    Divides(d, a) && Divides(d, b)
  }

  /** The two pairs have the same common divisors. */
  ghost predicate SameDivisors(a: nat, b: nat, c: nat, d: nat) {
    forall k: nat :: CommonDivisor(k, a, b) <==> CommonDivisor(k, c, d)
  }

  function Gcd(a: nat, b: nat): (g: nat)
    decreases b
  {
    if b == 0 then a else Gcd(b, a % b)
  }

  lemma {:induction false} EuclidStep(a: nat, b: Positive)
    ensures SameDivisors(a, b, b, a % b)
  {
    forall k: nat ensures CommonDivisor(k, a, b) <==> CommonDivisor(k, b, a % b) {
      assert a == (a / b) * b + a % b;
      if CommonDivisor(k, a, b) {
        DividesLinear(k, a, b, 1, -(a / b));
        assert 1 * a + -(a / b) * b == a % b;
      }
      if CommonDivisor(k, b, a % b) {
        DividesLinear(k, b, a % b, a / b, 1);
        assert (a / b) * b + 1 * (a % b) == a;
      }
    }
  }

  /** Gcd is a common divisor that every common divisor divides. */
  lemma {:induction false} GcdIsGreatest(a: nat, b: nat)
    ensures CommonDivisor(Gcd(a, b), a, b)
    ensures forall k: nat :: CommonDivisor(k, a, b) ==> Divides(k, Gcd(a, b))
    decreases b
  {
    if b == 0 {
      DividesMultiple(a, 1);
      DividesMultiple(a, 0);
    } else {
      GcdIsGreatest(b, a % b);
      EuclidStep(a, b);
    }
  }

  lemma DividesBothWays(a: nat, b: nat)
    requires Divides(a, b) && Divides(b, a)
    ensures a == b
  {
    var k := DividesWitness(a, b);
    var l := DividesWitness(b, a);
    if a > 0 && b > 0 {
      if k < 1 {
        MulMono(a, k, 0);
      } else {
        MulMono(a, 1, k);
      }
      if l < 1 {
        MulMono(b, l, 0);
      } else {
        MulMono(b, 1, l);
      }
    }
  }

  /** A number with the property of a greatest common divisor is the greatest common divisor. */
  lemma {:induction false} GcdUnique(a: nat, b: nat, g: nat)
    requires CommonDivisor(g, a, b)
    requires forall k: nat :: CommonDivisor(k, a, b) ==> Divides(k, g)
    ensures g == Gcd(a, b)
  {
    GcdIsGreatest(a, b);
    DividesBothWays(g, Gcd(a, b));
  }

  lemma {:induction false} SameDivisorsSameGcd(a: nat, b: nat, c: nat, d: nat)
    requires SameDivisors(a, b, c, d)
    ensures Gcd(a, b) == Gcd(c, d)
  {
    GcdIsGreatest(a, b);
    assert CommonDivisor(Gcd(a, b), c, d);
    GcdUnique(c, d, Gcd(a, b));
  }

  lemma {:induction false} GcdSymmetric(a: nat, b: nat)
    ensures Gcd(a, b) == Gcd(b, a)
  {
    assert SameDivisors(a, b, b, a);
    SameDivisorsSameGcd(a, b, b, a);
  }

  lemma {:induction false} GcdSubtract(a: nat, b: nat)
    requires b <= a
    ensures Gcd(a - b, b) == Gcd(a, b)
  {
    forall k: nat ensures CommonDivisor(k, a - b, b) <==> CommonDivisor(k, a, b) {
      if CommonDivisor(k, a - b, b) {
        DividesLinear(k, a - b, b, 1, 1);
      }
      if CommonDivisor(k, a, b) {
        DividesLinear(k, a, b, 1, -1);
      }
    }
    SameDivisorsSameGcd(a - b, b, a, b);
  }

  lemma EvenProduct(l: int, h: int)
    ensures (l * (2 * h)) % 2 == 0
  {
    ThreeWay(l, 2, h);
    assert l * (2 * h) == 2 * (l * h);
  }

  lemma OddCofactor(c: int, k: int, x: int)
    requires c % 2 == 1 && c * k == 2 * x
    ensures k % 2 == 0
  {
    var m := c / 2;
    assert c == 2 * m + 1;
    Distribute(2 * m, 1, k);
    ThreeWay(2, m, k);
    assert k == 2 * (x - m * k);
  }

  // Halving one number does not change the common divisors with an odd one.
  lemma {:induction false} GcdHalve(a: nat, b: nat)
    requires b % 2 == 1
    ensures Gcd(2 * a, b) == Gcd(a, b)
  {
    forall k: nat ensures CommonDivisor(k, 2 * a, b) <==> CommonDivisor(k, a, b) {
      if CommonDivisor(k, a, b) {
        DividesLinear(k, a, a, 1, 1);
      }
      if CommonDivisor(k, 2 * a, b) {
        var l := DividesWitness(k, b);
        var m := DividesWitness(k, 2 * a);
        assert k % 2 == 1 by {
          if k % 2 == 0 {
            EvenProduct(l, k / 2);
          }
        }
        OddCofactor(k, m, a);
        ThreeWay(2, m / 2, k);
        assert a == (m / 2) * k;
        DividesMultiple(k, m / 2);
      }
    }
    SameDivisorsSameGcd(2 * a, b, a, b);
  }

  lemma {:induction false} GcdDropPower(n: nat, a: nat, b: nat)
    requires b % 2 == 1
    ensures Pow2(n) * a >= 0 && Gcd(Pow2(n) * a, b) == Gcd(a, b)
  {
    if n == 0 {
      assert Pow2(0) == 1;
    } else {
      GcdDropPower(n - 1, a, b);
      ThreeWay(2, Pow2(n - 1), a);
      GcdHalve(Pow2(n - 1) * a, b);
    }
  }

  lemma ScaledRemainder(a: nat, b: Positive)
    ensures (2 * a) % (2 * b) == 2 * (a % b)
  {
    var q, r := a / b, a % b;
    assert a == q * b + r;
    ThreeWay(2, q, b);
    DivModUnique(2 * a, 2 * b, q, 2 * r);
  }

  lemma {:induction false} GcdDouble(a: nat, b: nat)
    ensures Gcd(2 * a, 2 * b) == 2 * Gcd(a, b)
    decreases b
  {
    if b > 0 {
      ScaledRemainder(a, b);
      GcdDouble(b, a % b);
    }
  }

  lemma {:induction false} GcdScale(n: nat, a: nat, b: nat)
    ensures Pow2(n) * a >= 0 && Pow2(n) * b >= 0
    ensures Gcd(Pow2(n) * a, Pow2(n) * b) == Pow2(n) * Gcd(a, b)
  {
    if n == 0 {
      assert Pow2(0) == 1;
    } else {
      GcdScale(n - 1, a, b);
      ThreeWay(2, Pow2(n - 1), a);
      ThreeWay(2, Pow2(n - 1), b);
      ThreeWay(2, Pow2(n - 1), Gcd(a, b));
      GcdDouble(Pow2(n - 1) * a, Pow2(n - 1) * b);
    }
  }

  /** The common power of two comes out of a greatest common divisor, the other powers do not matter. */
  lemma {:induction false} GcdOfOddParts(a: nat, u: nat, b: nat, v: nat)
    requires u % 2 == 1 && v % 2 == 1
    ensures Pow2(a) * u >= 0 && Pow2(b) * v >= 0
    ensures Gcd(Pow2(a) * u, Pow2(b) * v) == Pow2(Min(a, b)) * Gcd(u, v)
  {
    hide Gcd, Pow2;
    if a <= b {
      Pow2Add(a, b - a);
      GcdDropPower(b - a, v, u);
      ThreeWay(Pow2(a), Pow2(b - a), v);
      GcdScale(a, u, Pow2(b - a) * v);
      GcdSymmetric(u, Pow2(b - a) * v);
      GcdSymmetric(u, v);
    } else {
      Pow2Add(b, a - b);
      GcdDropPower(a - b, u, v);
      ThreeWay(Pow2(b), Pow2(a - b), u);
      GcdScale(b, Pow2(a - b) * u, v);
    }
  }
}
