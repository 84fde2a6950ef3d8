/** The test that picks the root of unity, and that a root which passes it makes the transform's parameters. */
module RootsOfUnity {
  import opened Arithmetic
  import opened Divisibility
  import opened Rings
  import opened Transform

  ghost predicate Prime(q: nat) {
    q >= 2 && forall d: nat :: 2 <= d < q ==> !Divides(d, q)
  }

  lemma {:induction false} Bezout(a: nat, b: nat) returns (x: int, y: int)
    ensures x * a + y * b == Gcd(a, b)
    decreases b
  {
    if b == 0 {
      x, y := 1, 0;
    } else {
      var u, v := Bezout(b, a % b);
      x, y := v, u - (a / b) * v;
      var k := a / b;
      Distribute(u, k * v, b);
      Distribute(a, k * b, v);
      ThreeWay(k, v, b);
      assert a % b == a - k * b;
    }
  }

  /** A prime that divides a product divides a factor. */
  lemma {:induction false} PrimeDividesFactor(q: nat, a: nat, b: int)
    requires Prime(q) && Divides(q, a * b)
    ensures Divides(q, a) || Divides(q, b)
  {
    var g := Gcd(a, q);
    GcdIsGreatest(a, q);
    if g == q {
      assert Divides(q, a);
    } else {
      var k := DividesWitness(g, q);
      if g > q {
        if k >= 1 {
          MulMono(g, 1, k);
        } else {
          MulMono(g, k, 0);
        }
        assert false;
      }
      assert g == 1;
      var x, y := Bezout(a, q);
      Distribute(x * a, y * q, b);
      ThreeWay(x, a, b);
      ThreeWay(y, q, b);
      assert b == x * (a * b) + (y * b) * q;
      DividesMultiple(q, 1);
      DividesLinear(q, a * b, q, x, y * b);
    }
  }

  /** The test of a candidate: half the degree does not give one, the whole degree does. */
  predicate IsRootOfUnity(q: Positive, x: int, degree: nat) {
    Pow(q, x, degree / 2) != 1 && Pow(q, x, degree) == 1
  }

  lemma OneBelowAndAbove(q: Positive, y: nat)
    requires q >= 2 && y < q
    ensures (y * y) % q == 1 <==> Divides(q, (y + 1) * (y - 1))
  {
    assert (y + 1) * (y - 1) == y * y - 1;
    ModEqualIff(y * y, 1, q);
    DivModUnique(1, q, 0, 1);
  }

  lemma MultipleBelow(q: Positive, z: nat)
    requires Divides(q, z) && z < 2 * q
    ensures z == 0 || z == q
  {
    var k := DividesWitness(q, z);
    if k >= 2 {
      MulMono(q, 2, k);
    } else if k < 0 {
      MulMono(q, k, -1);
    }
  }

  lemma {:induction false} OnlySquareRootsOfOne(q: Positive, y: nat)
    requires Prime(q) && y < q && Divides(q, (y + 1) * (y - 1))
    ensures y == 1 || y == q - 1
  {
    DivModUnique(-1, q, -1, q - 1);
    PrimeDividesFactor(q, y + 1, y - 1);
    if Divides(q, y + 1) {
      MultipleBelow(q, y + 1);
    } else if y > 0 {
      MultipleBelow(q, y - 1);
    }
  }

  lemma SquareOfMinusOne(q: Positive)
    requires q >= 2
    ensures ((q - 1) * (q - 1)) % q == 1
  {
    assert (q - 1) * (q - 1) == (q - 2) * q + 1;
    DivModUnique((q - 1) * (q - 1), q, q - 2, 1);
  }

  /** Modulo an odd prime the test accepts exactly the roots of X^N + 1, for degree 2 * N. */
  lemma {:induction false} RootTest(q: Positive, x: int, n: nat)
    requires Prime(q) && q > 2
    ensures IsRootOfUnity(q, x, 2 * n) <==> Pow(q, x, n) == q - 1
  {
    hide Pow;
    var y := Pow(q, x, n);
    PowReduced(q, x, n);
    PowAdd(q, x, n, n);
    OneBelowAndAbove(q, y);
    SquareOfMinusOne(q);
    if IsRootOfUnity(q, x, 2 * n) {
      OnlySquareRootsOfOne(q, y);
    }
  }

  /** A root that passes the test has an inverse, and so has N: the transform's parameters exist. */
  lemma {:induction false} ParametersExist(q: Positive, bits: nat, phi: int) returns (p: Parameters)
    requires Prime(q) && q > 2
    requires IsRootOfUnity(q, phi, 2 * Pow2(bits))
    ensures p.q == q && p.bits == bits && p.phi == phi && p.Valid()
  {
    hide Pow, Pow2, Mul;
    var n := Pow2(bits);
    RootTest(q, phi, n);
    var phiInverse := Pow(q, phi, 2 * n - 1);
    PowAdd(q, phi, 1, 2 * n - 1);
    assert Pow(q, phi, 1) == phi % q by { PowFirst(q, phi); }
    MulReduces(q, phi, phiInverse);
    if q % 2 == 0 {
      DividesMultiple(2, q / 2);
      assert false;
    }
    var half := (q + 1) / 2;
    var nInverse := Pow(q, half, bits);
    TwiceHalf(q);
    PowOfProduct(q, 2, half, bits);
    PowOfOne(q, bits);
    PowOfTwo(q, bits);
    MulReduces(q, n, nInverse);
    p := Parameters(q, bits, phi, phiInverse, nInverse);
  }

  lemma PowFirst(q: Positive, x: int)
    ensures Pow(q, x, 1) == x % q
  {
    assert Pow(q, x, 0) == 1 % q;
    TimesOne(q, x);
  }

  lemma TwiceHalf(q: Positive)
    requires q % 2 == 1 && q >= 2
    ensures Mul(q, 2, (q + 1) / 2) == 1
  {
    DivModUnique(q + 1, q, 1, 1);
  }

  /** The smallest vectors the kernels take: four elements, modulo 17. */
  lemma SmallestCase()
    ensures Prime(17) && Parameters(17, 2, 2, 9, 13).Valid()
  {
    assert Pow(17, 2, 2) == 4 && Pow(17, 2, 4) == 16;
  }
}
