/** Linearly homomorphic encryption over polynomials modulo X^N + 1: decryption undoes encryption as long as the
    noise is small. */
module Encryption {
  import opened Arithmetic
  import opened Rings
  import opened Transform

  /** The integer of least absolute value with a given residue. */
  function Centre(n: Positive, x: int): int {
    if x > n / 2 then x - n else x
  }

  /** A residue modulo one number as a residue modulo another. */
  function Cast(n: Positive, m: Positive, x: int): int {
    Centre(n, x) % m
  }

  function CastAll(n: Positive, m: Positive, a: seq<int>): (b: seq<int>)
    ensures |b| == |a|
  {
    seq(|a|, k requires 0 <= k < |a| => Cast(n, m, a[k]))
  }

  function PointAdd(q: Positive, a: seq<int>, b: seq<int>): (c: seq<int>)
    requires |a| == |b|
    ensures |c| == |a|
  {
    seq(|a|, k requires 0 <= k < |a| => Add(q, a[k], b[k]))
  }

  function PointSub(q: Positive, a: seq<int>, b: seq<int>): (c: seq<int>)
    requires |a| == |b|
    ensures |c| == |a|
  {
    seq(|a|, k requires 0 <= k < |a| => Sub(q, a[k], b[k]))
  }

  /** The plaintext ring: its modulus, and the transform when messages are held transformed. */
  datatype Plaintext = Coefficients(p: Positive) | Evaluations(parameters: Parameters) {

    function Modulus(): Positive {
      match this
      case Coefficients(p) => p
      case Evaluations(parameters) => parameters.q
    }

    function ToCoefficients(m: seq<int>): (c: seq<int>)
      requires Evaluations? ==> |m| == parameters.N()
      ensures |c| == |m|
    {
      match this
      case Coefficients(_) => m
      case Evaluations(parameters) => Inverse(parameters, m)
    }

    function FromCoefficients(c: seq<int>): (m: seq<int>)
      requires Evaluations? ==> |c| == parameters.N()
      ensures |m| == |c|
    {
      match this
      case Coefficients(_) => c
      case Evaluations(parameters) => Forward(parameters, c)
    }
  }

  datatype Ciphertext = Ciphertext(c0: seq<int>, c1: seq<int>)

  /** Keys and randomness are transformed vectors. */
  function Enc(t: Parameters, plain: Plaintext, a: seq<int>, b: seq<int>, message: seq<int>,
               u: seq<int>, v: seq<int>, w: seq<int>): (c: Ciphertext)
    requires |a| == |b| == |u| == |v| == |w| == |message| == t.N()
    requires plain.Evaluations? ==> plain.parameters.N() == t.N()
    ensures |c.c0| == |c.c1| == t.N()
  {
    var p := plain.Modulus();
    var m := Forward(t, CastAll(p, t.q, plain.ToCoefficients(message)));
    Ciphertext(
      PointAdd(t.q, PointAdd(t.q, Pointwise(t.q, a, u), Scale(t.q, p, v)), m),
      PointAdd(t.q, Pointwise(t.q, b, u), Scale(t.q, p, w)))
  }

  function Dec(t: Parameters, plain: Plaintext, s: seq<int>, c: Ciphertext): (m: seq<int>)
    requires |s| == |c.c0| == |c.c1| == t.N()
    requires plain.Evaluations? ==> plain.parameters.N() == t.N()
    ensures |m| == t.N()
  {
    var x := PointSub(t.q, c.c0, Pointwise(t.q, s, c.c1));
    plain.FromCoefficients(CastAll(t.q, plain.Modulus(), Inverse(t, x)))
  }

  // Integers behind the residues

  function ResiduesOf(q: Positive, a: seq<int>): (b: seq<int>)
    ensures |b| == |a| && Reduced(q, b)
  {
    seq(|a|, k requires 0 <= k < |a| => a[k] % q)
  }

  /** Coefficient k of the product modulo X^N + 1 over the integers, from coefficient i of a on. */
  function IntegerCoefficient(a: seq<int>, b: seq<int>, i: nat, k: nat): int
    requires |a| == |b| && i <= |a| && k < |b|
    decreases |a| - i
  {
    if i == |a| then 0 else a[i] * Shifted(b, i, k) + IntegerCoefficient(a, b, i + 1, k)
  }

  /** Coefficient k of the message with its noise: m + p * (v + e * u - s * w), over the integers. */
  function Noisy(p: Positive, m: seq<int>, s: seq<int>, e: seq<int>, u: seq<int>, v: seq<int>, w: seq<int>, k: nat): int
    requires |m| == |s| == |e| == |u| == |v| == |w| && k < |m|
  {
    Centre(p, m[k]) + p * (v[k] + IntegerCoefficient(e, u, 0, k) - IntegerCoefficient(s, w, 0, k))
  }

  lemma CentreOfSmall(q: Positive, t: int)
    requires -(q as int) < 2 * t < q
    ensures Centre(q, t % q) == t
  {
    if t >= 0 {
      DivModUnique(t, q, 0, t);
    } else {
      DivModUnique(t, q, -1, t + q);
    }
  }

  lemma CentreKeepsResidue(p: Positive, x: int, z: int)
    requires 0 <= x < p
    ensures (Centre(p, x) + p * z) % p == x
  {
    var k := if x > p / 2 then z - 1 else z;
    Distribute(z, 1, p);
    DivModUnique(Centre(p, x) + p * z, p, k, x);
  }

  lemma ShiftedReduces(q: Positive, b: seq<int>, i: nat, k: nat, x: int)
    requires i < |b| && k < |b|
    ensures Mul(q, x % q, Shifted(ResiduesOf(q, b), i, k)) == Mul(q, x, Shifted(b, i, k))
  {
    var y, z := Shifted(b, i, k), Shifted(ResiduesOf(q, b), i, k);
    MulReduces(q, x, z);
    MulReduces(q, x, y);
    if i <= k {
      MulReduces(q, x, b[k - i]);
    } else {
      var c := b[|b| + k - i];
      ModSub(0, c, q);
    }
  }

  /** The product of residues is the residue of the product. */
  lemma {:induction false} ProductOfResidues(q: Positive, a: seq<int>, b: seq<int>, i: nat, k: nat)
    requires |a| == |b| && i <= |a| && k < |b|
    ensures ProductCoefficient(q, ResiduesOf(q, a), ResiduesOf(q, b), i, k) == IntegerCoefficient(a, b, i, k) % q
    decreases |a| - i
  {
    hide Mul;
    if i == |a| {
      DivModUnique(0, q, 0, 0);
    } else {
      ProductOfResidues(q, a, b, i + 1, k);
      ShiftedReduces(q, b, i, k, a[i]);
      AddOfProduct(q, a[i], Shifted(b, i, k), IntegerCoefficient(a, b, i + 1, k));
    }
  }

  lemma AddOfProduct(q: Positive, x: int, y: int, z: int)
    ensures Add(q, Mul(q, x, y), z % q) == (x * y + z) % q
  {
    AddReduces(q, x * y, z);
  }

  // The transform is linear

  lemma {:induction false} ForwardOfCombine(t: Parameters, a: seq<int>, c: int, b: seq<int>)
    requires t.Valid() && |a| == |b| == t.N() && Reduced(t.q, a) && Reduced(t.q, b)
    ensures Reduced(t.q, Combine(t.q, a, c, b))
    ensures Forward(t, Combine(t.q, a, c, b)) == Combine(t.q, Forward(t, a), c, Forward(t, b))
  {
    hide Forward, Eval, Add, Mul, Parameters.Point;
    var d := Combine(t.q, a, c, b);
    assert Reduced(t.q, d) by { CombineReduced(t.q, a, c, b); }
    forall k: nat | k < t.N() ensures Forward(t, d)[k] == Combine(t.q, Forward(t, a), c, Forward(t, b))[k] {
      ForwardEvaluates(t, a, k);
      ForwardEvaluates(t, b, k);
      ForwardEvaluates(t, d, k);
      EvalCombine(t.q, a, c, b, t.Point(k));
    }
  }

  lemma {:induction false} CombineReduced(q: Positive, a: seq<int>, c: int, b: seq<int>)
    requires |a| == |b|
    ensures Reduced(q, Combine(q, a, c, b))
  {
    forall k | 0 <= k < |a| ensures 0 <= Add(q, a[k], Mul(q, c, b[k])) < q {
      ReduceTwice(q, a[k] + Mul(q, c, b[k]));
    }
  }

  /** The noisy message as coefficients modulo q: m + p * ((v + e * u) - s * w). */
  function NoisyResidues(q: Positive, p: Positive, m: seq<int>, s: seq<int>, e: seq<int>, u: seq<int>, v: seq<int>, w: seq<int>): (r: seq<int>)
    requires |m| == |s| == |e| == |u| == |v| == |w|
    ensures |r| == |m|
  {
    Combine(q, CastAll(p, q, m), p,
      Combine(q, Combine(q, ResiduesOf(q, v), 1, Product(q, ResiduesOf(q, e), ResiduesOf(q, u))), -1,
        Product(q, ResiduesOf(q, s), ResiduesOf(q, w))))
  }

  lemma {:induction false} NoisyResidue(q: Positive, p: Positive, m: seq<int>, s: seq<int>, e: seq<int>, u: seq<int>, v: seq<int>, w: seq<int>, k: nat)
    requires |m| == |s| == |e| == |u| == |v| == |w| && k < |m|
    ensures NoisyResidues(q, p, m, s, e, u, v, w)[k] == Noisy(p, m, s, e, u, v, w, k) % q
  {
    hide ProductCoefficient, IntegerCoefficient;
    ProductOfResidues(q, e, u, 0, k);
    ProductOfResidues(q, s, w, 0, k);
    NoisyArithmetic(q, Centre(p, m[k]), p, v[k], IntegerCoefficient(e, u, 0, k), IntegerCoefficient(s, w, 0, k));
  }

  lemma NoisyArithmetic(q: Positive, m: int, p: int, v: int, x: int, y: int)
    ensures Add(q, m % q, Mul(q, p, Add(q, Add(q, v % q, Mul(q, 1, x % q)), Mul(q, -1, y % q)))) == (m + p * (v + x - y)) % q
  {
    MulReduces(q, 1, x);
    AddReduces(q, v, x);
    MulReduces(q, -1, y);
    AddReduces(q, v + x, -y);
    assert Add(q, Add(q, v % q, Mul(q, 1, x % q)), Mul(q, -1, y % q)) == (v + x - y) % q;
    MulReduces(q, p, v + x - y);
    AddReduces(q, m, p * (v + x - y));
  }

  // Element by element, decryption leaves the noisy message

  lemma AddModulo(q: Positive, x: int, y: int)
    ensures Add(q, x % q, y % q) == (x + y) % q == Add(q, x % q, y)
    ensures Sub(q, x % q, y % q) == (x - y) % q
  {
    AddReduces(q, x, y);
  }

  lemma MulModulo(q: Positive, x: int, y: int)
    ensures Mul(q, x % q, y) == (x * y) % q == Mul(q, x, y % q) == Mul(q, x % q, y % q)
  {
    MulReduces(q, x, y);
  }

  lemma Regrouped(b: int, s: int, p: int, e: int, u: int, v: int, w: int, m: int)
    ensures (b * s + p * e) * u + p * v + m - s * (b * u + p * w) == m + p * (v + e * u - s * w)
  {
    assert (b * s + p * e) * u == s * (b * u) + p * (e * u) by {
      Distribute(b * s, p * e, u);
      ThreeWay(b, s, u);
      ThreeWay(s, b, u);
      ThreeWay(p, e, u);
    }
    assert s * (b * u + p * w) == s * (b * u) + p * (s * w) by {
      Distribute(b * u, p * w, s);
      ThreeWay(s, p, w);
      ThreeWay(p, s, w);
    }
    Distribute(v + e * u, s * w, p);
    Distribute(v, e * u, p);
  }

  lemma {:induction false} DecryptedElement(q: Positive, a: int, b: int, s: int, p: int, e: int, u: int, v: int, w: int, m: int)
    requires a == Add(q, Mul(q, b, s), Mul(q, p, e))
    ensures Sub(q, Add(q, Add(q, Mul(q, a, u), Mul(q, p, v)), m), Mul(q, s, Add(q, Mul(q, b, u), Mul(q, p, w))))
         == Add(q, m, Mul(q, p, Add(q, Add(q, v, Mul(q, 1, Mul(q, e, u))), Mul(q, -1, Mul(q, s, w)))))
  {
    var x := b * s + p * e;
    AddModulo(q, b * s, p * e);
    MulModulo(q, x, u);
    AddModulo(q, x * u, p * v);
    AddModulo(q, x * u + p * v, m);
    var c := b * u + p * w;
    AddModulo(q, b * u, p * w);
    MulModulo(q, s, c);
    AddModulo(q, x * u + p * v + m, s * c);
    Regrouped(b, s, p, e, u, v, w, m);
    MulModulo(q, 1, e * u);
    AddReduces(q, v, e * u);
    MulModulo(q, -1, s * w);
    AddReduces(q, v + e * u, -(s * w));
    MulModulo(q, p, v + e * u - s * w);
    AddReduces(q, m, p * (v + e * u - s * w));
  }

  /** The transform of the noisy message, built from the transforms of its parts. */
  lemma {:induction false} ForwardOfNoisy(t: Parameters, p: Positive, m: seq<int>, s: seq<int>, e: seq<int>, u: seq<int>, v: seq<int>, w: seq<int>)
    requires t.Valid() && |m| == |s| == |e| == |u| == |v| == |w| == t.N()
    ensures Reduced(t.q, NoisyResidues(t.q, p, m, s, e, u, v, w))
    ensures var q := t.q;
            Forward(t, NoisyResidues(q, p, m, s, e, u, v, w))
              == Combine(q, Forward(t, CastAll(p, q, m)), p,
                   Combine(q, Combine(q, Forward(t, ResiduesOf(q, v)), 1,
                       Pointwise(q, Forward(t, ResiduesOf(q, e)), Forward(t, ResiduesOf(q, u)))), -1,
                     Pointwise(q, Forward(t, ResiduesOf(q, s)), Forward(t, ResiduesOf(q, w)))))
  {
    hide Forward, Combine, Product, Pointwise, ResiduesOf;
    var q := t.q;
    var cast := CastAll(p, q, m);
    assert Reduced(q, cast) by { CastReduced(p, q, m); }
    var rs, re, ru, rv, rw := ResiduesOf(q, s), ResiduesOf(q, e), ResiduesOf(q, u), ResiduesOf(q, v), ResiduesOf(q, w);
    ForwardOfProduct(t, re, ru);
    ForwardOfProduct(t, rs, rw);
    ForwardOfCombine(t, rv, 1, Product(q, re, ru));
    ForwardOfCombine(t, Combine(q, rv, 1, Product(q, re, ru)), -1, Product(q, rs, rw));
    ForwardOfCombine(t, cast, p, Combine(q, Combine(q, rv, 1, Product(q, re, ru)), -1, Product(q, rs, rw)));
  }

  lemma CastReduced(n: Positive, m: Positive, a: seq<int>)
    ensures Reduced(m, CastAll(n, m, a))
  {
  }

  /** What decryption transforms back. */
  lemma {:induction false} DecryptedTransform(t: Parameters, p: Positive, a: seq<int>, b: seq<int>, message: seq<int>,
                                              s: seq<int>, e: seq<int>, u: seq<int>, v: seq<int>, w: seq<int>)
    requires t.Valid() && |a| == |b| == |message| == |s| == |e| == |u| == |v| == |w| == t.N()
    requires a == PointAdd(t.q, Pointwise(t.q, b, Forward(t, ResiduesOf(t.q, s))), Scale(t.q, p, Forward(t, ResiduesOf(t.q, e))))
    ensures var fs, fu, fv, fw := Forward(t, ResiduesOf(t.q, s)), Forward(t, ResiduesOf(t.q, u)), Forward(t, ResiduesOf(t.q, v)), Forward(t, ResiduesOf(t.q, w));
            var c := Enc(t, Coefficients(p), a, b, message, fu, fv, fw);
            PointSub(t.q, c.c0, Pointwise(t.q, fs, c.c1)) == Forward(t, NoisyResidues(t.q, p, message, s, e, u, v, w))
  {
    hide Forward, NoisyResidues, ResiduesOf, CastAll, Add, Sub, Mul;
    var q := t.q;
    var fs, fe, fu, fv, fw := Forward(t, ResiduesOf(q, s)), Forward(t, ResiduesOf(q, e)), Forward(t, ResiduesOf(q, u)), Forward(t, ResiduesOf(q, v)), Forward(t, ResiduesOf(q, w));
    var fm := Forward(t, CastAll(p, q, message));
    ForwardOfNoisy(t, p, message, s, e, u, v, w);
    var c := Enc(t, Coefficients(p), a, b, message, fu, fv, fw);
    var x := PointSub(q, c.c0, Pointwise(q, fs, c.c1));
    forall k | 0 <= k < t.N()
      ensures x[k] == Add(q, fm[k], Mul(q, p, Add(q, Add(q, fv[k], Mul(q, 1, Mul(q, fe[k], fu[k]))), Mul(q, -1, Mul(q, fs[k], fw[k])))))
    {
      DecryptedElement(q, a[k], b[k], fs[k], p, fe[k], fu[k], fv[k], fw[k], fm[k]);
    }
  }

  lemma {:induction false} SmallNoiseCasts(q: Positive, p: Positive, m: seq<int>, s: seq<int>, e: seq<int>, u: seq<int>, v: seq<int>, w: seq<int>)
    requires |m| == |s| == |e| == |u| == |v| == |w| && Reduced(p, m)
    requires forall k :: 0 <= k < |m| ==> -(q as int) < 2 * Noisy(p, m, s, e, u, v, w, k) < q
    ensures CastAll(q, p, NoisyResidues(q, p, m, s, e, u, v, w)) == m
  {
    hide IntegerCoefficient, NoisyResidues, Centre;
    forall k | 0 <= k < |m| ensures Cast(q, p, NoisyResidues(q, p, m, s, e, u, v, w)[k]) == m[k] {
      NoisyResidue(q, p, m, s, e, u, v, w, k);
      CentreOfSmall(q, Noisy(p, m, s, e, u, v, w, k));
      CentreKeepsResidue(p, m[k], v[k] + IntegerCoefficient(e, u, 0, k) - IntegerCoefficient(s, w, 0, k));
    }
  }

  /** Decryption undoes encryption for messages held as coefficients or transformed, when the key satisfies
      a == b * s + p * e, and the noise is small: every coefficient of the noisy message is below q / 2 in absolute
      value. */
  lemma {:induction false} DecOfEnc(t: Parameters, plain: Plaintext, a: seq<int>, b: seq<int>, message: seq<int>,
                                    s: seq<int>, e: seq<int>, u: seq<int>, v: seq<int>, w: seq<int>)
    requires t.Valid() && (plain.Evaluations? ==> plain.parameters.Valid() && plain.parameters.N() == t.N())
    requires |a| == |b| == |message| == |s| == |e| == |u| == |v| == |w| == t.N()
    requires Reduced(plain.Modulus(), message)
    requires a == PointAdd(t.q, Pointwise(t.q, b, Forward(t, ResiduesOf(t.q, s))), Scale(t.q, plain.Modulus(), Forward(t, ResiduesOf(t.q, e))))
    requires forall k :: 0 <= k < t.N() ==> -(t.q as int) < 2 * Noisy(plain.Modulus(), plain.ToCoefficients(message), s, e, u, v, w, k) < t.q
    ensures var fs, fu, fv, fw := Forward(t, ResiduesOf(t.q, s)), Forward(t, ResiduesOf(t.q, u)), Forward(t, ResiduesOf(t.q, v)), Forward(t, ResiduesOf(t.q, w));
            Dec(t, plain, fs, Enc(t, plain, a, b, message, fu, fv, fw)) == message
  {
    hide Forward, Inverse, ResiduesOf, CastAll, Noisy, NoisyResidues, PointAdd, PointSub, Pointwise, Scale;
    var p, coefficients := plain.Modulus(), plain.ToCoefficients(message);
    DecryptedTransform(t, p, a, b, coefficients, s, e, u, v, w);
    ForwardOfNoisy(t, p, coefficients, s, e, u, v, w);
    InverseOfForward(t, NoisyResidues(t.q, p, coefficients, s, e, u, v, w));
    assert Reduced(p, coefficients) by { CoefficientsReduced(plain, message); }
    SmallNoiseCasts(t.q, p, coefficients, s, e, u, v, w);
    if plain.Evaluations? {
      ForwardOfInverse(plain.parameters, message);
    }
  }

  lemma {:induction false} CoefficientsReduced(plain: Plaintext, message: seq<int>)
    requires plain.Evaluations? ==> |message| == plain.parameters.N()
    requires Reduced(plain.Modulus(), message)
    ensures Reduced(plain.Modulus(), plain.ToCoefficients(message))
  {
    if plain.Evaluations? {
      var p := plain.parameters;
      forall k | 0 <= k < p.N() ensures 0 <= Inverse(p, message)[k] < p.q {
        ReduceTwice(p.q, p.nInverse * InverseStages(p, message, 0)[k]);
      }
    }
  }
}
