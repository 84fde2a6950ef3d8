/** Arithmetic modulo q, and polynomials over it as coefficient sequences. */
module Rings {
  import opened Arithmetic
  import opened Divisibility

  function Add(q: Positive, a: int, b: int): int {
    (a + b) % q
  }

  function Sub(q: Positive, a: int, b: int): int {
    (a - b) % q
  }

  function Mul(q: Positive, a: int, b: int): int {
    (a * b) % q
  }

  function Pow(q: Positive, x: int, e: nat): int {
    if e == 0 then 1 % q else Mul(q, x, Pow(q, x, e - 1))
  }

  lemma ReduceTwice(q: Positive, a: int)
    ensures (a % q) % q == a % q && 0 <= a % q < q
  {
    DivModUnique(a % q, q, 0, a % q);
  }

  // Every operation only sees its operands modulo q.
  lemma AddReduces(q: Positive, a: int, b: int)
    ensures Add(q, a, b) == Add(q, a % q, b) == Add(q, a, b % q) == Add(q, a % q, b % q)
    ensures Sub(q, a, b) == Sub(q, a % q, b) == Sub(q, a, b % q) == Sub(q, a % q, b % q)
  {
    ModAdd(a, b, q);
    ModAdd(a % q, b, q);
    ModSub(a, b, q);
    ModSub(a % q, b, q);
  }

  lemma MulReduces(q: Positive, a: int, b: int)
    ensures Mul(q, a, b) == Mul(q, a % q, b) == Mul(q, a, b % q) == Mul(q, a % q, b % q)
  {
    ModMul(a, b, q);
    ModMul(a % q, b, q);
  }

  lemma MulAssociative(q: Positive, a: int, b: int, c: int)
    ensures Mul(q, Mul(q, a, b), c) == Mul(q, a, Mul(q, b, c)) == Mul(q, a * b, c)
    ensures Mul(q, a, b) == Mul(q, b, a)
  {
    ModMul(a * b, c, q);
    ModMul(a, b * c, q);
    ThreeWay(a, b, c);
  }

  // a * (b + c) and its variants, each with the inner results reduced.
  lemma MulDistributes(q: Positive, a: int, b: int, c: int)
    ensures Mul(q, a, Add(q, b, c)) == Add(q, Mul(q, a, b), Mul(q, a, c))
    ensures Mul(q, a, Sub(q, b, c)) == Sub(q, Mul(q, a, b), Mul(q, a, c))
    ensures Mul(q, Add(q, b, c), a) == Add(q, Mul(q, b, a), Mul(q, c, a))
  {
    ModMul(a, b + c, q);
    ModMul(a, b - c, q);
    ModMul(b + c, a, q);
    Distribute(b, c, a);
    AddReduces(q, a * b, a * c);
    AddReduces(q, b * a, c * a);
  }

  lemma AddAssociative(q: Positive, a: int, b: int, c: int)
    ensures Add(q, Add(q, a, b), c) == Add(q, a, Add(q, b, c)) == Add(q, a + b, c)
    ensures Add(q, a, b) == Add(q, b, a)
  {
    AddInner(q, a + b, c);
    AddInner(q, b + c, a);
  }

  lemma AddInner(q: Positive, x: int, y: int)
    ensures Add(q, x % q, y) == Add(q, y, x % q) == Add(q, x, y)
  {
    ModAdd(x, y, q);
  }

  // u - v * c is u + v * (-c).
  lemma SubAsAdd(q: Positive, u: int, c: int, v: int)
    ensures Sub(q, u, Mul(q, c, v)) == Add(q, u, Mul(q, -c, v))
  {
    ModSub(u, c * v, q);
    ModAdd(u, -c * v, q);
    assert -c * v == -(c * v);
  }

  // (a + b) + (c + d) regrouped
  lemma AddRegroup(q: Positive, a: int, b: int, c: int, d: int)
    ensures Add(q, Add(q, a, b), Add(q, c, d)) == Add(q, Add(q, a, c), Add(q, b, d))
  {
    AddReduces(q, a + b, c + d);
    AddReduces(q, a + c, b + d);
  }

  lemma {:induction false} PowAdd(q: Positive, x: int, m: nat, n: nat)
    ensures Pow(q, x, m + n) == Mul(q, Pow(q, x, m), Pow(q, x, n))
  {
    if m == 0 {
      PowReduced(q, x, n);
      MulReduces(q, 1, Pow(q, x, n));
    } else {
      PowAdd(q, x, m - 1, n);
      MulAssociative(q, x, Pow(q, x, m - 1), Pow(q, x, n));
    }
  }

  lemma {:induction false} PowReduced(q: Positive, x: int, n: nat)
    ensures 0 <= Pow(q, x, n) < q
    ensures Pow(q, x, n) % q == Pow(q, x, n)
  {
    DivModUnique(Pow(q, x, n), q, 0, Pow(q, x, n));
  }

  lemma {:induction false} PowMul(q: Positive, x: int, m: nat, n: nat)
    ensures m * n >= 0 && Pow(q, x, m * n) == Pow(q, Pow(q, x, m), n)
  {
    MulMono(m, 0, n);
    if n > 0 {
      PowMul(q, x, m, n - 1);
      Distribute(n - 1, 1, m);
      PowAdd(q, x, m, m * (n - 1));
    }
  }

  lemma {:induction false} PowOfProduct(q: Positive, x: int, y: int, n: nat)
    ensures Pow(q, Mul(q, x, y), n) == Mul(q, Pow(q, x, n), Pow(q, y, n))
  {
    if n == 0 {
      MulReduces(q, 1, 1);
    } else {
      PowOfProduct(q, x, y, n - 1);
      var a, b := Pow(q, x, n - 1), Pow(q, y, n - 1);
      MulAssociative(q, x, y, Mul(q, a, b));
      MulAssociative(q, y, a, b);
      MulAssociative(q, a, y, b);
      MulAssociative(q, x, a, Mul(q, y, b));
    }
  }

  // Polynomials

  predicate Reduced(q: Positive, a: seq<int>) {
    forall i :: 0 <= i < |a| ==> 0 <= a[i] < q
  }

  /** Value of the polynomial with these coefficients, the constant one first. */
  function Eval(q: Positive, a: seq<int>, x: int): int {
    if a == [] then 0 else Add(q, a[0], Mul(q, x, Eval(q, a[1..], x)))
  }

  lemma {:induction false} EvalReduced(q: Positive, a: seq<int>, x: int)
    ensures 0 <= Eval(q, a, x) < q
  {
    if a != [] {
      ReduceTwice(q, a[0] + Mul(q, x, Eval(q, a[1..], x)));
    }
  }

  /** u + c * v, coefficient by coefficient. */
  function Combine(q: Positive, u: seq<int>, c: int, v: seq<int>): (w: seq<int>)
    requires |u| == |v|
    ensures |w| == |u|
  {
    seq(|u|, i requires 0 <= i < |u| => Add(q, u[i], Mul(q, c, v[i])))
  }

  /** Evaluation is linear. */
  lemma {:induction false} EvalCombine(q: Positive, u: seq<int>, c: int, v: seq<int>, x: int)
    requires |u| == |v|
    ensures Eval(q, Combine(q, u, c, v), x) == Add(q, Eval(q, u, x), Mul(q, c, Eval(q, v, x)))
  {
    hide Add, Mul;
    if u == [] {
      EvalCombineEmpty(q, c);
    } else {
      assert Combine(q, u, c, v)[1..] == Combine(q, u[1..], c, v[1..]);
      EvalCombine(q, u[1..], c, v[1..], x);
      var e, f := Eval(q, u[1..], x), Eval(q, v[1..], x);
      MulDistributes(q, x, e, Mul(q, c, f));
      MulAssociative(q, x, c, f);
      MulAssociative(q, c, x, f);
      MulAssociative(q, c, Mul(q, x, f), 1);
      MulDistributes(q, c, v[0], Mul(q, x, f));
      AddRegroup(q, u[0], Mul(q, c, v[0]), Mul(q, x, e), Mul(q, c, Mul(q, x, f)));
    }
  }

  lemma EvalCombineEmpty(q: Positive, c: int)
    ensures Add(q, 0, Mul(q, c, 0)) == 0
  {
    assert c * 0 == 0;
    DivModUnique(0, q, 0, 0);
  }

  /** Evaluation of a polynomial cut into a lower and an upper part. */
  lemma {:induction false} EvalSplit(q: Positive, lower: seq<int>, upper: seq<int>, x: int)
    ensures Eval(q, lower + upper, x) == Add(q, Eval(q, lower, x), Mul(q, Pow(q, x, |lower|), Eval(q, upper, x)))
  {
    var e := Eval(q, upper, x);
    if lower == [] {
      assert lower + upper == upper;
      EvalReduced(q, upper, x);
      MulReduces(q, 1, e);
      DivModUnique(e, q, 0, e);
    } else {
      hide Add, Mul;
      assert (lower + upper)[1..] == lower[1..] + upper;
      EvalSplit(q, lower[1..], upper, x);
      var d, p := Eval(q, lower[1..], x), Pow(q, x, |lower| - 1);
      MulDistributes(q, x, d, Mul(q, p, e));
      MulAssociative(q, x, p, e);
      AddAssociative(q, lower[0], Mul(q, x, d), Mul(q, x, Mul(q, p, e)));
      assert Pow(q, x, |lower|) == Mul(q, x, p);
    }
  }

  /** Where the point's power is c, an upper half folds onto the lower half with factor c. */
  lemma {:induction false} EvalFold(q: Positive, lower: seq<int>, upper: seq<int>, c: int, x: int)
    requires |lower| == |upper| && Pow(q, x, |lower|) == c % q
    ensures Eval(q, lower + upper, x) == Eval(q, Combine(q, lower, c, upper), x)
  {
    hide Add, Mul, Eval, Combine, Pow;
    EvalSplit(q, lower, upper, x);
    EvalCombine(q, lower, c, upper, x);
    MulReduces(q, c, Eval(q, upper, x));
  }
}
