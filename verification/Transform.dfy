/** The negacyclic number theoretic transform of one vector: its stages, what they compute, and that they
    are inverted by the stages of the inverse transform. */
module Transform {
  import opened Arithmetic
  import opened BitReversal
  import opened Rings

  /** Modulus, size and the precomputed constants.  The root has N-th power -1, so it is a primitive root of
      degree 2 * N. */
  datatype Parameters = Parameters(q: Positive, bits: nat, phi: int, phiInverse: int, nInverse: int) {

    function N(): Positive {
      Pow2(bits)
    }

    ghost predicate Valid() {
      && q >= 2
      && Pow(q, phi, N()) == q - 1
      && Mul(q, phi, phiInverse) == 1
      && Mul(q, N(), nInverse) == 1
    }

    /** Entry of the root table of the forward transform. */
    function Psi(k: nat): int {
      Pow(q, phi, Reverse(bits, k))
    }

    /** Entry of the root table of the inverse transform, before the factor 1/N is folded in. */
    function PsiInverse(k: nat): int {
      Pow(q, phiInverse, Reverse(bits, k))
    }

    /** Distance of the two elements of a butterfly. */
    function Step(iteration: nat): Positive
      requires iteration < bits
    {
      Pow2(bits - 1 - iteration)
    }

    /** The point that output k of the forward transform evaluates at. */
    function Point(k: nat): int {
      Pow(q, phi, 2 * Reverse(bits, k) + 1)
    }
  }

  // Positions inside a pair of blocks

  lemma BlockPosition(k: nat, t: Positive)
    ensures var g, r := k / (2 * t), k % (2 * t);
            && 0 <= r < 2 * t && 0 <= g && k == g * (2 * t) + r
            && (r < t ==> k / t == 2 * g && k % t == r)
            && (r >= t ==> k / t == 2 * g + 1 && k % t == r - t)
  {
    var g, r := k / (2 * t), k % (2 * t);
    assert k == g * (2 * t) + r;
    if g < 0 {
      MulMono(2 * t, g, -1);
    }
    ThreeWay(g, 2, t);
    if r < t {
      DivModUnique(k, t, 2 * g, r);
    } else {
      Distribute(2 * g, 1, t);
      DivModUnique(k, t, 2 * g + 1, r - t);
    }
  }

  lemma BlockUnique(g: nat, r: nat, s: Positive)
    requires r < s
    ensures g * s >= 0 && (g * s + r) / s == g && (g * s + r) % s == r
  {
    MulMono(s, 0, g);
    DivModUnique(g * s + r, s, g, r);
  }

  lemma BlocksFit(g: nat, s: Positive, m: nat, n: nat)
    requires n == m * s && g < m
    ensures g * s + s <= n
  {
    MulMono(s, g + 1, m);
    Distribute(g, 1, s);
  }

  /** Where the two elements of the butterfly at position k are, and that they are in the vector. */
  lemma {:induction false} ButterflyInside(p: Parameters, iteration: nat, k: nat)
    requires iteration < p.bits && k < p.N()
    ensures var t := p.Step(iteration); var g, r := k / (2 * t), k % (2 * t);
            && 0 <= g < Pow2(iteration) && 0 <= r < 2 * t && k == g * (2 * t) + r && g * (2 * t) + 2 * t <= p.N()
            && (r < t ==> k + t < p.N() && (k + t) / (2 * t) == g && (k + t) % (2 * t) == r + t)
            && (r >= t ==> k - t >= 0 && (k - t) / (2 * t) == g && (k - t) % (2 * t) == r - t)
  {
    hide Pow2;
    Pow2Add(iteration, p.bits - iteration);
    Pow2Double(p.bits - 1 - iteration);
    InsideBlocks(k, p.Step(iteration), Pow2(iteration), p.N());
  }

  lemma InsideBlocks(k: nat, t: Positive, m: nat, n: nat)
    requires n == m * (2 * t) && k < n
    ensures var g, r := k / (2 * t), k % (2 * t);
            && 0 <= g < m && 0 <= r < 2 * t && k == g * (2 * t) + r && g * (2 * t) + 2 * t <= n
            && (r < t ==> k + t < n && (k + t) / (2 * t) == g && (k + t) % (2 * t) == r + t)
            && (r >= t ==> k - t >= 0 && (k - t) / (2 * t) == g && (k - t) % (2 * t) == r - t)
  {
    ThreeWay(m, 2 * t, 1);
    DivBelow(k, 2 * t, m);
    var g, r := k / (2 * t), k % (2 * t);
    BlocksFit(g, 2 * t, m, n);
    if r < t {
      BlockUnique(g, r + t, 2 * t);
    } else {
      BlockUnique(g, r - t, 2 * t);
    }
  }

  /** Element k of the vector after one forward stage. */
  function ForwardElement(p: Parameters, a: seq<int>, iteration: nat, k: nat): int
    requires iteration < p.bits && |a| == p.N() && k < p.N()
  {
    ButterflyInside(p, iteration, k);
    var t := p.Step(iteration);
    var g := k / (2 * t);
    var psi := p.Psi(Pow2(iteration) + g);
    if k % (2 * t) < t then
      Add(p.q, a[k], Mul(p.q, a[k + t], psi))
    else
      Sub(p.q, a[k - t], Mul(p.q, a[k], psi))
  }

  function ForwardStage(p: Parameters, a: seq<int>, iteration: nat): (b: seq<int>)
    requires iteration < p.bits && |a| == p.N()
    ensures |b| == p.N()
  {
    seq(p.N(), k requires 0 <= k < p.N() => ForwardElement(p, a, iteration, k))
  }

  /** Element k after the stage of the inverse transform that undoes the given forward stage. */
  function InverseElement(p: Parameters, a: seq<int>, iteration: nat, k: nat): int
    requires iteration < p.bits && |a| == p.N() && k < p.N()
  {
    ButterflyInside(p, iteration, k);
    var t := p.Step(iteration);
    var g := k / (2 * t);
    var psi := p.PsiInverse(Pow2(iteration) + g);
    if k % (2 * t) < t then
      Add(p.q, a[k], a[k + t])
    else
      Mul(p.q, Sub(p.q, a[k - t], a[k]), psi)
  }

  function InverseStage(p: Parameters, a: seq<int>, iteration: nat): (b: seq<int>)
    requires iteration < p.bits && |a| == p.N()
    ensures |b| == p.N()
  {
    seq(p.N(), k requires 0 <= k < p.N() => InverseElement(p, a, iteration, k))
  }

  /** The first `count` forward stages. */
  function ForwardStages(p: Parameters, a: seq<int>, count: nat): (b: seq<int>)
    requires count <= p.bits && |a| == p.N()
    ensures |b| == p.N()
  {
    if count == 0 then a else ForwardStage(p, ForwardStages(p, a, count - 1), count - 1)
  }

  /** The inverse stages from iteration bits - 1 down to `last`. */
  function InverseStages(p: Parameters, a: seq<int>, last: nat): (b: seq<int>)
    requires last <= p.bits && |a| == p.N()
    ensures |b| == p.N()
    decreases p.bits - last
  {
    if last == p.bits then a else InverseStage(p, InverseStages(p, a, last + 1), last)
  }

  function Scale(q: Positive, c: int, a: seq<int>): (b: seq<int>)
    ensures |b| == |a|
  {
    seq(|a|, i requires 0 <= i < |a| => Mul(q, c, a[i]))
  }

  function Forward(p: Parameters, a: seq<int>): (b: seq<int>)
    requires |a| == p.N()
    ensures |b| == p.N()
  {
    ForwardStages(p, a, p.bits)
  }

  function Inverse(p: Parameters, a: seq<int>): (b: seq<int>)
    requires |a| == p.N()
    ensures |b| == p.N()
  {
    Scale(p.q, p.nInverse, InverseStages(p, a, 0))
  }

  // The forward transform evaluates

  // The exponent of the point, brought down to the block level, is the exponent in the root table.
  lemma {:induction false} ExponentAtLevel(bits: nat, iteration: nat, k: nat)
    requires iteration < bits && k < Pow2(bits)
    ensures var t := Pow2(bits - 1 - iteration); var g, b := k / (2 * t), if k % (2 * t) < t then 0 else 1;
            && 0 <= g && exists c: nat ::
              (2 * Reverse(bits, k) + 1) * t == Reverse(bits, Pow2(iteration) + g) + b * Pow2(bits) + c * (2 * Pow2(bits))
  {
    hide Reverse, Pow2;
    var low := bits - 1 - iteration;
    var t := Pow2(low);
    BlockPosition(k, t);
    var g, r := k / (2 * t), k % (2 * t);
    var b, j := if r < t then 0 else 1, if r < t then r else r - t;
    var p := Pow2(iteration);
    // bits of k: g on top, then b, then j
    ReverseJoin(iteration + 1, 2 * g + b, low, j);
    Distribute(2 * g, b, t);
    ThreeWay(2, g, t);
    ThreeWay(g, 2, t);
    assert (2 * g + b) * t + j == k;
    ReverseBit(iteration, g, b);
    // bits of Pow2(iteration) + g: one on top of g, zeros above
    Pow2Add(iteration + 1, low);
    Pow2Double(iteration);
    GroupBelow(k, g, bits, iteration);
    ReverseTopBit(bits, iteration, g);
    var rg, rj := Reverse(iteration, g), Reverse(low, j);
    ExponentArithmetic(rj, p, b, rg, t, Pow2(bits));
    assert (2 * Reverse(bits, k) + 1) * t == Reverse(bits, p + g) + b * Pow2(bits) + rj * (2 * Pow2(bits));
  }

  lemma ExponentArithmetic(rj: nat, p: nat, b: nat, rg: nat, t: nat, n: nat)
    requires n == (2 * p) * t
    ensures (2 * (rj * (2 * p) + (b * p + rg)) + 1) * t == (t + rg * (2 * t)) + b * n + rj * (2 * n)
  {
    Distribute(2 * (rj * (2 * p) + (b * p + rg)), 1, t);
    assert 2 * (rj * (2 * p) + (b * p + rg)) == (2 * rj) * (2 * p) + (b * (2 * p) + 2 * rg) by {
      ThreeWay(2, rj, 2 * p);
      ThreeWay(b, 2, p);
    }
    Distribute((2 * rj) * (2 * p), b * (2 * p) + 2 * rg, t);
    Distribute(b * (2 * p), 2 * rg, t);
    ThreeWay(2 * rj, 2 * p, t);
    ThreeWay(b, 2 * p, t);
    ThreeWay(2, rj, n);
    ThreeWay(rj, 2, n);
    ThreeWay(2, rg, t);
    ThreeWay(rg, 2, t);
  }

  lemma {:induction false} GroupBelow(k: nat, g: int, bits: nat, iteration: nat)
    requires iteration < bits && k < Pow2(bits)
    requires g == k / (2 * Pow2(bits - 1 - iteration))
    ensures 0 <= g < Pow2(iteration)
  {
    hide Pow2;
    Pow2Add(iteration, bits - iteration);
    Pow2Double(bits - 1 - iteration);
    InsideBlocks(k, Pow2(bits - 1 - iteration), Pow2(iteration), Pow2(bits));
  }

  // Powers of the root

  lemma TimesMinusOne(q: Positive, x: int)
    ensures Mul(q, x, q - 1) == (-x) % q
  {
    Distribute(q, 1, x);
    ModAddMultiple(-x, x, q);
    ThreeWay(x, q, 1);
  }

  lemma {:induction false} FullTurn(p: Parameters, c: nat)
    requires p.Valid()
    ensures c * (2 * p.N()) >= 0 && Pow(p.q, p.phi, c * (2 * p.N())) == 1 % p.q
  {
    hide Pow2, Mul;
    var n := p.N();
    MulMono(2 * n, 0, c);
    if c > 0 {
      FullTurn(p, c - 1);
      Distribute(c - 1, 1, 2 * n);
      PowAdd(p.q, p.phi, (c - 1) * (2 * n), 2 * n);
      PowAdd(p.q, p.phi, n, n);
      TimesMinusOne(p.q, p.q - 1);
      MinusMinusOne(p.q);
    }
  }

  lemma MinusMinusOne(q: Positive)
    ensures (-(q - 1)) % q == 1 % q
    ensures Mul(q, 1 % q, 1 % q) == 1 % q
  {
    ModAddMultiple(1, -1, q);
    MulReduces(q, 1, 1);
  }

  /** At the level of a stage, the point's power is plus or minus the root of its block. */
  lemma {:induction false} PointPower(p: Parameters, iteration: nat, k: nat)
    requires p.Valid() && iteration < p.bits && k < p.N()
    ensures var t := p.Step(iteration); var g := k / (2 * t);
            && 0 <= g
            && var psi := p.Psi(Pow2(iteration) + g);
               Pow(p.q, p.Point(k), t) == (if k % (2 * t) < t then psi else -psi) % p.q
  {
    hide Pow2, Mul, Reverse, Pow;
    var n, q := p.N(), p.q;
    var t := p.Step(iteration);
    ExponentAtLevel(p.bits, iteration, k);
    var g, b := k / (2 * t), if k % (2 * t) < t then 0 else 1;
    var e := Reverse(p.bits, Pow2(iteration) + g);
    var c: nat :| (2 * Reverse(p.bits, k) + 1) * t == e + b * n + c * (2 * n);
    PowMul(q, p.phi, 2 * Reverse(p.bits, k) + 1, t);
    MulMono(2 * n, 0, c);
    PowAdd(q, p.phi, e + b * n, c * (2 * n));
    FullTurn(p, c);
    PowReduced(q, p.phi, e + b * n);
    TimesOne(q, Pow(q, p.phi, e + b * n));
    PowReduced(q, p.phi, e);
    if b == 1 {
      PowAdd(q, p.phi, e, n);
      TimesMinusOne(q, Pow(q, p.phi, e));
    }
  }

  lemma TimesOne(q: Positive, x: int)
    ensures Mul(q, x, 1 % q) == x % q && Mul(q, 1 % q, x) == x % q
  {
    MulReduces(q, x, 1);
    MulReduces(q, 1, x);
  }

  // One forward stage, seen on one block

  /** The elements of the block of size s that holds position k. */
  function Block(a: seq<int>, k: nat, s: Positive): (b: seq<int>)
    requires (k / s) * s >= 0 && (k / s) * s + s <= |a|
    ensures |b| == s
  {
    a[(k / s) * s..(k / s) * s + s]
  }

  ghost predicate BlockInside(a: seq<int>, k: nat, s: Positive) {
    (k / s) * s >= 0 && (k / s) * s + s <= |a|
  }

  lemma {:induction false} BlocksInside(p: Parameters, iteration: nat, k: nat, a: seq<int>)
    requires iteration < p.bits && k < p.N() && |a| == p.N()
    ensures var t := p.Step(iteration);
            && BlockInside(a, k, 2 * t) && BlockInside(a, k, t)
            && (k / t) * t == (k / (2 * t)) * (2 * t) + (if k % (2 * t) < t then 0 else t)
  {
    hide Pow2;
    ButterflyInside(p, iteration, k);
    var t := p.Step(iteration);
    BlockPosition(k, t);
    var g := k / (2 * t);
    ThreeWay(g, 2, t);
    Distribute(2 * g, 1, t);
    MulMono(2 * t, 0, g);
  }

  // Element j of the half that a stage makes of a block.
  lemma {:induction false} ForwardBlockElement(p: Parameters, a: seq<int>, iteration: nat, k: nat, j: nat)
    requires iteration < p.bits && k < p.N() && |a| == p.N() && j < p.Step(iteration)
    requires var t := p.Step(iteration); BlockInside(a, k, 2 * t) && BlockInside(a, k, t) && k / (2 * t) >= 0
    ensures var t := p.Step(iteration);
            var block, psi := Block(a, k, 2 * t), p.Psi(Pow2(iteration) + k / (2 * t));
            Block(ForwardStage(p, a, iteration), k, t)[j]
              == Add(p.q, block[j], Mul(p.q, if k % (2 * t) < t then psi else -psi, block[t + j]))
  {
    hide Pow2, Add, Sub, Mul, Parameters.Psi;
    var t := p.Step(iteration);
    var b := ForwardStage(p, a, iteration);
    var g := k / (2 * t);
    var psi := p.Psi(Pow2(iteration) + g);
    BlocksInside(p, iteration, k, a);
    ButterflyInside(p, iteration, k);
    var i := g * (2 * t) + j;
    assert Block(a, k, 2 * t)[j] == a[i] && Block(a, k, 2 * t)[t + j] == a[i + t];
    if k % (2 * t) < t {
      BlockUnique(g, j, 2 * t);
      assert Block(b, k, t)[j] == b[i] == ForwardElement(p, a, iteration, i);
      MulAssociative(p.q, a[i + t], psi, 1);
    } else {
      BlockUnique(g, j + t, 2 * t);
      assert Block(b, k, t)[j] == b[i + t] == ForwardElement(p, a, iteration, i + t);
      MulAssociative(p.q, a[i + t], psi, 1);
      SubAsAdd(p.q, a[i], psi, a[i + t]);
    }
  }

  /** A stage replaces the block around k, of which it keeps the half around k, by the lower half plus or
      minus the root times the upper half. */
  lemma {:induction false} ForwardBlock(p: Parameters, a: seq<int>, iteration: nat, k: nat)
    requires iteration < p.bits && k < p.N() && |a| == p.N()
    requires var t := p.Step(iteration); BlockInside(a, k, 2 * t) && BlockInside(a, k, t) && k / (2 * t) >= 0
    ensures var t := p.Step(iteration);
            var block, psi := Block(a, k, 2 * t), p.Psi(Pow2(iteration) + k / (2 * t));
            Block(ForwardStage(p, a, iteration), k, t)
              == Combine(p.q, block[..t], if k % (2 * t) < t then psi else -psi, block[t..])
  {
    hide Pow2, Add, Sub, Mul, Parameters.Psi, ForwardStage, Block;
    var t := p.Step(iteration);
    var block, psi := Block(a, k, 2 * t), p.Psi(Pow2(iteration) + k / (2 * t));
    var half := Block(ForwardStage(p, a, iteration), k, t);
    forall j: nat | j < t
      ensures half[j] == Add(p.q, block[..t][j], Mul(p.q, if k % (2 * t) < t then psi else -psi, block[t..][j]))
    {
      ForwardBlockElement(p, a, iteration, k, j);
    }
  }

  /** Before the stage of an iteration, every block evaluates at the points of its outputs as the input does. */
  ghost predicate Evaluates(p: Parameters, a: seq<int>, input: seq<int>, iteration: nat)
    requires iteration <= p.bits && |a| == p.N()
  {
    var s := Pow2(p.bits - iteration);
    forall k: nat :: k < p.N() ==> BlockInside(a, k, s) && Eval(p.q, Block(a, k, s), p.Point(k)) == Eval(p.q, input, p.Point(k))
  }

  lemma {:induction false} EvaluatesStep(p: Parameters, a: seq<int>, input: seq<int>, iteration: nat)
    requires p.Valid() && iteration < p.bits && |a| == p.N() && Evaluates(p, a, input, iteration)
    ensures Evaluates(p, ForwardStage(p, a, iteration), input, iteration + 1)
  {
    hide Pow2, Eval, Combine, Pow, Parameters.Psi, Parameters.Point;
    var t := p.Step(iteration);
    Pow2Double(p.bits - 1 - iteration);
    var b := ForwardStage(p, a, iteration);
    forall k: nat | k < p.N()
      ensures BlockInside(b, k, t) && Eval(p.q, Block(b, k, t), p.Point(k)) == Eval(p.q, input, p.Point(k))
    {
      BlocksInside(p, iteration, k, a);
      BlocksInside(p, iteration, k, b);
      PointPower(p, iteration, k);
      ForwardBlock(p, a, iteration, k);
      var block := Block(a, k, 2 * t);
      var psi := p.Psi(Pow2(iteration) + k / (2 * t));
      assert block == block[..t] + block[t..];
      EvalFold(p.q, block[..t], block[t..], if k % (2 * t) < t then psi else -psi, p.Point(k));
    }
  }

  lemma {:induction false} EvaluatesStages(p: Parameters, a: seq<int>, count: nat)
    requires p.Valid() && count <= p.bits && |a| == p.N()
    ensures Evaluates(p, ForwardStages(p, a, count), a, count)
  {
    if count == 0 {
      hide Pow2;
      forall k: nat | k < p.N()
        ensures BlockInside(a, k, p.N()) && Block(a, k, p.N()) == a
      {
        BlockUnique(0, k, p.N());
      }
    } else {
      EvaluatesStages(p, a, count - 1);
      EvaluatesStep(p, ForwardStages(p, a, count - 1), a, count - 1);
    }
  }

  /** Output k of the forward transform is the value of the input polynomial at the root to the power
      2 * Reverse(k) + 1. */
  lemma {:induction false} ForwardEvaluates(p: Parameters, a: seq<int>, k: nat)
    requires p.Valid() && |a| == p.N() && k < p.N() && Reduced(p.q, a)
    ensures Forward(p, a)[k] == Eval(p.q, a, p.Point(k))
  {
    hide Parameters.Point, ForwardStages, ForwardStage;
    EvaluatesStages(p, a, p.bits);
    var b := Forward(p, a);
    Pow2Small();
    BlockUnique(k, 0, 1);
    assert Block(b, k, 1) == [b[k]];
    EvalSingle(p.q, b[k], p.Point(k));
    ForwardReduced(p, a, p.bits);
  }

  lemma {:induction false} EvalSingle(q: Positive, x: int, y: int)
    ensures Eval(q, [x], y) == x % q
  {
    assert Eval(q, [], y) == 0;
    assert y * 0 == 0;
    DivModUnique(0, q, 0, 0);
  }

  lemma {:induction false} ForwardReduced(p: Parameters, a: seq<int>, count: nat)
    requires count <= p.bits && |a| == p.N() && Reduced(p.q, a)
    ensures Reduced(p.q, ForwardStages(p, a, count))
    ensures forall k :: 0 <= k < p.N() ==> ForwardStages(p, a, count)[k] % p.q == ForwardStages(p, a, count)[k]
  {
    var b := ForwardStages(p, a, count);
    forall k | 0 <= k < p.N() ensures 0 <= b[k] < p.q && b[k] % p.q == b[k] {
      if count > 0 {
        var c := ForwardStages(p, a, count - 1);
        assert b[k] == ForwardElement(p, c, count - 1, k);
      }
      DivModUnique(b[k], p.q, 0, b[k]);
    }
  }

  // Stages undo each other up to a factor of two

  lemma {:induction false} PsiTimesInverse(p: Parameters, k: nat)
    requires p.Valid()
    ensures Mul(p.q, p.Psi(k), p.PsiInverse(k)) == 1
  {
    hide Pow, Reverse;
    var e := Reverse(p.bits, k);
    PowOfProduct(p.q, p.phi, p.phiInverse, e);
    PowOfOne(p.q, e);
  }

  lemma {:induction false} PowOfOne(q: Positive, e: nat)
    ensures q >= 2 ==> Pow(q, 1, e) == 1
  {
    if q >= 2 {
      DivModUnique(1, q, 0, 1);
      if e > 0 {
        PowOfOne(q, e - 1);
      }
    }
  }

  lemma SumOfSumAndDifference(q: Positive, u: int, w: int)
    ensures Add(q, Add(q, u, w), Sub(q, u, w)) == Mul(q, 2, u)
    ensures Sub(q, Add(q, u, w), Sub(q, u, w)) == Mul(q, 2, w)
  {
    AddReduces(q, u + w, u - w);
  }

  lemma UndoProduct(q: Positive, v: int, psi: int, psiInverse: int)
    requires Mul(q, psi, psiInverse) == 1 % q
    ensures Mul(q, Mul(q, 2, Mul(q, v, psi)), psiInverse) == Mul(q, 2, v)
    ensures Mul(q, Mul(q, v, psiInverse), psi) == v % q
  {
    hide Mul;
    MulAssociative(q, 2, Mul(q, v, psi), psiInverse);
    MulAssociative(q, v, psi, psiInverse);
    MulAssociative(q, psiInverse, psi, 1);
    MulAssociative(q, v, psiInverse, psi);
    TimesOne(q, v);
    MulReduces(q, 2, v);
  }

  lemma {:induction false} StageUndone(p: Parameters, a: seq<int>, iteration: nat)
    requires p.Valid() && iteration < p.bits && |a| == p.N()
    ensures InverseStage(p, ForwardStage(p, a, iteration), iteration) == Scale(p.q, 2, a)
  {
    hide Pow2, Add, Sub, Mul, Parameters.Psi, Parameters.PsiInverse;
    var t := p.Step(iteration);
    var b := ForwardStage(p, a, iteration);
    forall k: nat | k < p.N() ensures InverseElement(p, b, iteration, k) == Mul(p.q, 2, a[k]) {
      ButterflyInside(p, iteration, k);
      var g := k / (2 * t);
      var psi := p.Psi(Pow2(iteration) + g);
      PsiTimesInverse(p, Pow2(iteration) + g);
      SmallOne(p.q);
      var low := if k % (2 * t) < t then k else k - t;
      var u, v := a[low], a[low + t];
      assert b[low] == Add(p.q, u, Mul(p.q, v, psi));
      assert b[low + t] == Sub(p.q, u, Mul(p.q, v, psi));
      SumOfSumAndDifference(p.q, u, Mul(p.q, v, psi));
      UndoProduct(p.q, v, psi, p.PsiInverse(Pow2(iteration) + g));
    }
  }

  lemma SmallOne(q: Positive)
    ensures q >= 2 ==> 1 % q == 1
  {
    if q >= 2 {
      DivModUnique(1, q, 0, 1);
    }
  }

  lemma {:induction false} StageRedone(p: Parameters, a: seq<int>, iteration: nat)
    requires p.Valid() && iteration < p.bits && |a| == p.N()
    ensures ForwardStage(p, InverseStage(p, a, iteration), iteration) == Scale(p.q, 2, a)
  {
    hide Pow2, Add, Sub, Mul, Parameters.Psi, Parameters.PsiInverse;
    var t := p.Step(iteration);
    var b := InverseStage(p, a, iteration);
    forall k: nat | k < p.N() ensures ForwardElement(p, b, iteration, k) == Mul(p.q, 2, a[k]) {
      ButterflyInside(p, iteration, k);
      var g := k / (2 * t);
      var psi, psiInverse := p.Psi(Pow2(iteration) + g), p.PsiInverse(Pow2(iteration) + g);
      PsiTimesInverse(p, Pow2(iteration) + g);
      SmallOne(p.q);
      var low := if k % (2 * t) < t then k else k - t;
      var u, v := a[low], a[low + t];
      assert b[low] == Add(p.q, u, v);
      assert b[low + t] == Mul(p.q, Sub(p.q, u, v), psiInverse);
      UndoProduct(p.q, Sub(p.q, u, v), psi, psiInverse);
      SumAndReducedDifference(p.q, u, v);
    }
  }

  lemma SumAndReducedDifference(q: Positive, u: int, v: int)
    ensures Add(q, Add(q, u, v), Sub(q, u, v) % q) == Mul(q, 2, u)
    ensures Sub(q, Add(q, u, v), Sub(q, u, v) % q) == Mul(q, 2, v)
  {
    ReduceTwice(q, u - v);
    AddReduces(q, u + v, u - v);
  }

  // Stages commute with scaling

  lemma {:induction false} InverseStageScales(p: Parameters, c: int, a: seq<int>, iteration: nat)
    requires iteration < p.bits && |a| == p.N()
    ensures InverseStage(p, Scale(p.q, c, a), iteration) == Scale(p.q, c, InverseStage(p, a, iteration))
  {
    hide Pow2, Add, Sub, Mul, Parameters.PsiInverse;
    var t := p.Step(iteration);
    var b := Scale(p.q, c, a);
    forall k: nat | k < p.N()
      ensures InverseElement(p, b, iteration, k) == Mul(p.q, c, InverseElement(p, a, iteration, k))
    {
      ButterflyInside(p, iteration, k);
      var psi := p.PsiInverse(Pow2(iteration) + k / (2 * t));
      if k % (2 * t) < t {
        MulDistributes(p.q, c, a[k], a[k + t]);
      } else {
        MulDistributes(p.q, c, a[k - t], a[k]);
        MulAssociative(p.q, c, Sub(p.q, a[k - t], a[k]), psi);
      }
    }
  }

  lemma {:induction false} ForwardStageScales(p: Parameters, c: int, a: seq<int>, iteration: nat)
    requires iteration < p.bits && |a| == p.N()
    ensures ForwardStage(p, Scale(p.q, c, a), iteration) == Scale(p.q, c, ForwardStage(p, a, iteration))
  {
    hide Pow2, Add, Sub, Mul, Parameters.Psi;
    var t := p.Step(iteration);
    var b := Scale(p.q, c, a);
    forall k: nat | k < p.N()
      ensures ForwardElement(p, b, iteration, k) == Mul(p.q, c, ForwardElement(p, a, iteration, k))
    {
      ButterflyInside(p, iteration, k);
      var psi := p.Psi(Pow2(iteration) + k / (2 * t));
      var low := if k % (2 * t) < t then k else k - t;
      MulAssociative(p.q, c, a[low + t], psi);
      MulDistributes(p.q, c, a[low], Mul(p.q, a[low + t], psi));
    }
  }

  lemma {:induction false} ScaleTwice(q: Positive, c: int, d: int, a: seq<int>)
    ensures Scale(q, c, Scale(q, d, a)) == Scale(q, Mul(q, c, d), a)
  {
    hide Mul;
    forall i | 0 <= i < |a| ensures Mul(q, c, Mul(q, d, a[i])) == Mul(q, Mul(q, c, d), a[i]) {
      MulAssociative(q, c, d, a[i]);
    }
  }

  lemma {:induction false} ScaleOne(q: Positive, c: int, a: seq<int>)
    requires Reduced(q, a) && c == 1 % q
    ensures Scale(q, c, a) == a
  {
    forall i | 0 <= i < |a| ensures Mul(q, c, a[i]) == a[i] {
      TimesOne(q, a[i]);
      DivModUnique(a[i], q, 0, a[i]);
    }
  }

  // Both compositions are the identity

  lemma {:induction false} InverseStagesOfForward(p: Parameters, a: seq<int>, last: nat)
    requires p.Valid() && last <= p.bits && |a| == p.N() && Reduced(p.q, a)
    ensures InverseStages(p, ForwardStages(p, a, p.bits), last)
         == Scale(p.q, Pow(p.q, 2, p.bits - last), ForwardStages(p, a, last))
    decreases p.bits - last
  {
    hide ForwardStage, InverseStage, Scale, Mul;
    var q := p.q;
    if last == p.bits {
      ForwardReduced(p, a, last);
      assert Pow(q, 2, 0) == 1 % q;
      ScaleOne(q, 1 % q, ForwardStages(p, a, last));
    } else {
      InverseStagesOfForward(p, a, last + 1);
      var c := Pow(q, 2, p.bits - last - 1);
      var f := ForwardStages(p, a, last);
      InverseStageScales(p, c, ForwardStages(p, a, last + 1), last);
      StageUndone(p, f, last);
      ScaleTwice(q, c, 2, f);
      MulAssociative(q, c, 2, 1);
    }
  }

  lemma {:induction false} PowOfTwo(q: Positive, n: nat)
    ensures Pow(q, 2, n) == Pow2(n) % q
  {
    if n > 0 {
      PowOfTwo(q, n - 1);
      MulReduces(q, 2, Pow2(n - 1));
    }
  }

  lemma {:induction false} Normalises(p: Parameters)
    requires p.Valid()
    ensures Mul(p.q, p.nInverse, Pow(p.q, 2, p.bits)) == 1 % p.q
    ensures Mul(p.q, Pow(p.q, 2, p.bits), p.nInverse) == 1 % p.q
  {
    hide Pow;
    PowOfTwo(p.q, p.bits);
    MulReduces(p.q, p.N(), p.nInverse);
    MulAssociative(p.q, p.nInverse, Pow(p.q, 2, p.bits), 1);
    SmallOne(p.q);
  }

  /** The inverse transform undoes the forward transform. */
  lemma {:induction false} InverseOfForward(p: Parameters, a: seq<int>)
    requires p.Valid() && |a| == p.N() && Reduced(p.q, a)
    ensures Inverse(p, Forward(p, a)) == a
  {
    hide ForwardStages, InverseStages, Scale, Mul, Pow;
    InverseStagesOfForward(p, a, 0);
    assert ForwardStages(p, a, 0) == a by { ForwardStagesZero(p, a); }
    ScaleTwice(p.q, p.nInverse, Pow(p.q, 2, p.bits), a);
    Normalises(p);
    ScaleOne(p.q, 1 % p.q, a);
  }

  lemma ForwardStagesZero(p: Parameters, a: seq<int>)
    requires |a| == p.N()
    ensures ForwardStages(p, a, 0) == a
  {
  }

  lemma InverseStagesEnd(p: Parameters, a: seq<int>)
    requires |a| == p.N()
    ensures InverseStages(p, a, p.bits) == a
  {
  }

  lemma {:induction false} ForwardStagesOfInverse(p: Parameters, b: seq<int>, count: nat)
    requires p.Valid() && count <= p.bits && |b| == p.N()
    ensures ForwardStages(p, Inverse(p, b), count)
         == Scale(p.q, Mul(p.q, Pow(p.q, 2, count), p.nInverse), InverseStages(p, b, count))
  {
    hide ForwardStage, InverseStage, Scale, Mul;
    var q := p.q;
    if count == 0 {
      assert Pow(q, 2, 0) == 1 % q;
      TimesOne(q, p.nInverse);
      ScaleReduced(q, p.nInverse, InverseStages(p, b, 0));
    } else {
      ForwardStagesOfInverse(p, b, count - 1);
      var c := Mul(q, Pow(q, 2, count - 1), p.nInverse);
      var f := InverseStages(p, b, count);
      ForwardStageScales(p, c, InverseStages(p, b, count - 1), count - 1);
      StageRedone(p, f, count - 1);
      ScaleTwice(q, c, 2, f);
      MulAssociative(q, c, 2, 1);
      MulAssociative(q, 2, Pow(q, 2, count - 1), p.nInverse);
    }
  }

  lemma {:induction false} ScaleReduced(q: Positive, c: int, a: seq<int>)
    ensures Scale(q, c, a) == Scale(q, c % q, a)
  {
    forall i | 0 <= i < |a| ensures Mul(q, c, a[i]) == Mul(q, c % q, a[i]) {
      MulReduces(q, c, a[i]);
    }
  }

  /** The forward transform undoes the inverse transform. */
  lemma {:induction false} ForwardOfInverse(p: Parameters, b: seq<int>)
    requires p.Valid() && |b| == p.N() && Reduced(p.q, b)
    ensures Forward(p, Inverse(p, b)) == b
  {
    hide ForwardStages, InverseStages, Scale, Mul, Pow;
    ForwardStagesOfInverse(p, b, p.bits);
    Normalises(p);
    InverseStagesEnd(p, b);
    ScaleOne(p.q, 1 % p.q, b);
  }

  // Products

  /** Coefficient k of X^i * b modulo X^N + 1. */
  function Shifted(b: seq<int>, i: nat, k: nat): int
    requires i < |b| && k < |b|
  {
    if i <= k then b[k - i] else -b[|b| + k - i]
  }

  /** Coefficient k of the product modulo X^N + 1, using the coefficients of a from i on. */
  function ProductCoefficient(q: Positive, a: seq<int>, b: seq<int>, i: nat, k: nat): int
    requires |a| == |b| && i <= |a| && k < |b|
    decreases |a| - i
  {
    if i == |a| then 0 else Add(q, Mul(q, a[i], Shifted(b, i, k)), ProductCoefficient(q, a, b, i + 1, k))
  }

  /** The product modulo X^N + 1. */
  function Product(q: Positive, a: seq<int>, b: seq<int>): (c: seq<int>)
    requires |a| == |b|
    ensures |c| == |b|
  {
    seq(|b|, k requires 0 <= k < |b| => ProductCoefficient(q, a, b, 0, k))
  }

  function Pointwise(q: Positive, a: seq<int>, b: seq<int>): (c: seq<int>)
    requires |a| == |b|
    ensures |c| == |a|
  {
    seq(|a|, k requires 0 <= k < |a| => Mul(q, a[k], b[k]))
  }

  function ShiftedBy(b: seq<int>, i: nat): (c: seq<int>)
    requires i < |b|
    ensures |c| == |b|
  {
    seq(|b|, k requires 0 <= k < |b| => Shifted(b, i, k))
  }

  function PartialProduct(q: Positive, a: seq<int>, b: seq<int>, i: nat): (c: seq<int>)
    requires |a| == |b| && i <= |a|
    ensures |c| == |b|
  {
    seq(|b|, k requires 0 <= k < |b| => ProductCoefficient(q, a, b, i, k))
  }

  // Negating coefficients negates the value.
  lemma {:induction false} EvalNegated(q: Positive, a: seq<int>, x: int)
    ensures Eval(q, seq(|a|, i requires 0 <= i < |a| => -a[i]), x) == Mul(q, -1, Eval(q, a, x))
  {
    var b := seq(|a|, i requires 0 <= i < |a| => -a[i]);
    if a == [] {
      assert -1 * 0 == 0;
      DivModUnique(0, q, 0, 0);
    } else {
      hide Add, Mul;
      var c := seq(|a| - 1, i requires 0 <= i < |a| - 1 => -a[1..][i]);
      assert b[1..] == c;
      EvalNegated(q, a[1..], x);
      var e := Eval(q, a[1..], x);
      MulAssociative(q, x, -1, e);
      MulAssociative(q, -1, x, e);
      MulDistributes(q, -1, a[0], Mul(q, x, e));
      NegatedSum(q, a[0], Mul(q, -1, Mul(q, x, e)));
    }
  }

  lemma NegatedSum(q: Positive, x: int, y: int)
    ensures Add(q, -x, y) == Add(q, Mul(q, -1, x), y)
  {
    AddReduces(q, -x, y);
  }

  /** Multiplying by X^i modulo X^N + 1 multiplies the value at a root of X^N + 1 by the i-th power. */
  lemma {:induction false} EvalShifted(q: Positive, b: seq<int>, i: nat, x: int)
    requires i < |b| && Pow(q, x, |b|) == (q - 1) % q
    ensures Eval(q, ShiftedBy(b, i), x) == Mul(q, Pow(q, x, i), Eval(q, b, x))
  {
    hide Add, Mul, Eval, Pow;
    var n := |b|;
    var lower, upper := b[..n - i], b[n - i..];
    var negated := seq(|upper|, j requires 0 <= j < |upper| => -upper[j]);
    assert ShiftedBy(b, i) == negated + lower;
    assert b == lower + upper;
    EvalSplit(q, negated, lower, x);
    EvalSplit(q, lower, upper, x);
    EvalNegated(q, upper, x);
    var e, f, p := Eval(q, lower, x), Eval(q, upper, x), Pow(q, x, i);
    PowAdd(q, x, i, n - i);
    MulDistributes(q, p, e, Mul(q, Pow(q, x, n - i), f));
    MulAssociative(q, p, Pow(q, x, n - i), f);
    MulReduces(q, q - 1, f);
    MinusOneAgain(q, f);
    AddAssociative(q, Mul(q, p, e), Mul(q, -1, f), 0);
  }

  lemma MinusOneAgain(q: Positive, f: int)
    ensures Mul(q, q - 1, f) == Mul(q, -1, f)
  {
    TimesMinusOne(q, f);
    MulAssociative(q, f, q - 1, 1);
    assert -1 * f == -f;
  }

  lemma {:induction false} EvalProduct(q: Positive, a: seq<int>, b: seq<int>, i: nat, x: int)
    requires |a| == |b| && i <= |a| && Pow(q, x, |b|) == (q - 1) % q
    ensures Eval(q, PartialProduct(q, a, b, i), x)
         == Mul(q, Pow(q, x, i), Mul(q, Eval(q, a[i..], x), Eval(q, b, x)))
    decreases |a| - i
  {
    hide Add, Mul, Pow;
    var e := Eval(q, b, x);
    if i == |a| {
      assert a[i..] == [];
      EvalZeros(q, PartialProduct(q, a, b, i), x);
      MulZero(q, e);
      MulZero(q, Pow(q, x, i));
    } else {
      var rest := PartialProduct(q, a, b, i + 1);
      assert PartialProduct(q, a, b, i) == Combine(q, rest, a[i], ShiftedBy(b, i)) by {
        forall k | 0 <= k < |b| ensures ProductCoefficient(q, a, b, i, k) == Add(q, rest[k], Mul(q, a[i], Shifted(b, i, k))) {
          AddAssociative(q, rest[k], Mul(q, a[i], Shifted(b, i, k)), 0);
        }
      }
      EvalCombine(q, rest, a[i], ShiftedBy(b, i), x);
      EvalShifted(q, b, i, x);
      EvalProduct(q, a, b, i + 1, x);
      assert a[i..][1..] == a[i + 1..];
      var f, p := Eval(q, a[i + 1..], x), Pow(q, x, i);
      assert Pow(q, x, i + 1) == Mul(q, x, p) by { PowStepUp(q, x, i); }
      ProductStep(q, a[i], x, p, e, f);
    }
  }

  lemma PowStepUp(q: Positive, x: int, i: nat)
    ensures Pow(q, x, i + 1) == Mul(q, x, Pow(q, x, i))
  {
  }

  lemma MulZero(q: Positive, x: int)
    ensures Mul(q, 0, x) == 0 && Mul(q, x, 0) == 0
  {
    DivModUnique(0, q, 0, 0);
  }

  lemma {:induction false} EvalZeros(q: Positive, a: seq<int>, x: int)
    requires forall i :: 0 <= i < |a| ==> a[i] == 0
    ensures Eval(q, a, x) == 0
  {
    if a != [] {
      EvalZeros(q, a[1..], x);
      MulZero(q, x);
      DivModUnique(0, q, 0, 0);
    }
  }

  // x * p * (f * e) + a * (p * e) == p * ((a + x * f) * e)
  lemma ProductStep(q: Positive, a: int, x: int, p: int, e: int, f: int)
    ensures Add(q, Mul(q, Mul(q, x, p), Mul(q, f, e)), Mul(q, a, Mul(q, p, e)))
         == Mul(q, p, Mul(q, Add(q, a, Mul(q, x, f)), e))
  {
    hide Add, Mul;
    MulAssociative(q, x, p, Mul(q, f, e));
    MulAssociative(q, p, x, 1);
    MulAssociative(q, p, x, Mul(q, f, e));
    MulAssociative(q, x, f, e);
    MulAssociative(q, a, p, e);
    MulAssociative(q, p, a, e);
    MulAssociative(q, p, a, 1);
    MulDistributes(q, p, Mul(q, a, e), Mul(q, Mul(q, x, f), e));
    MulDistributes(q, e, a, Mul(q, x, f));
    AddAssociative(q, Mul(q, p, Mul(q, a, e)), Mul(q, p, Mul(q, Mul(q, x, f), e)), 0);
  }

  /** Every point is a root of X^N + 1. */
  lemma {:induction false} PointIsRoot(p: Parameters, k: nat)
    requires p.Valid()
    ensures Pow(p.q, p.Point(k), p.N()) == (p.q - 1) % p.q
  {
    hide Pow, Mul, Reverse, Pow2;
    var n, r := p.N(), Reverse(p.bits, k);
    PowMul(p.q, p.phi, 2 * r + 1, n);
    Distribute(2 * r, 1, n);
    ThreeWay(2, r, n);
    FullTurn(p, r);
    PowAdd(p.q, p.phi, r * (2 * n), n);
    TimesOne(p.q, p.q - 1);
  }

  /** The transform of a product modulo X^N + 1 is the pointwise product of the transforms. */
  lemma {:induction false} ForwardOfProduct(p: Parameters, a: seq<int>, b: seq<int>)
    requires p.Valid() && |a| == |b| == p.N() && Reduced(p.q, a) && Reduced(p.q, b)
    ensures Reduced(p.q, Product(p.q, a, b))
    ensures Forward(p, Product(p.q, a, b)) == Pointwise(p.q, Forward(p, a), Forward(p, b))
  {
    hide Pow, Pow2, Forward, Mul, Eval, Parameters.Point;
    var c := Product(p.q, a, b);
    ProductReduced(p.q, a, b);
    forall k: nat | k < p.N() ensures Forward(p, c)[k] == Mul(p.q, Forward(p, a)[k], Forward(p, b)[k]) {
      var x := p.Point(k);
      ForwardEvaluates(p, a, k);
      ForwardEvaluates(p, b, k);
      ForwardEvaluates(p, c, k);
      PointIsRoot(p, k);
      assert c == PartialProduct(p.q, a, b, 0);
      EvalProduct(p.q, a, b, 0, x);
      assert a[0..] == a;
      PowZeroth(p.q, x, Mul(p.q, Eval(p.q, a, x), Eval(p.q, b, x)));
      ProductIsReduced(p.q, Eval(p.q, a, x), Eval(p.q, b, x));
    }
  }

  lemma PowZeroth(q: Positive, x: int, y: int)
    ensures Mul(q, Pow(q, x, 0), y) == y % q
  {
    TimesOne(q, y);
  }

  lemma ProductIsReduced(q: Positive, x: int, y: int)
    ensures Mul(q, x, y) % q == Mul(q, x, y)
  {
    ReduceTwice(q, x * y);
  }

  lemma {:induction false} ProductReduced(q: Positive, a: seq<int>, b: seq<int>)
    requires |a| == |b|
    ensures Reduced(q, Product(q, a, b))
  {
    forall k | 0 <= k < |b| ensures 0 <= ProductCoefficient(q, a, b, 0, k) < q {
      CoefficientReduced(q, a, b, 0, k);
    }
  }

  lemma {:induction false} CoefficientReduced(q: Positive, a: seq<int>, b: seq<int>, i: nat, k: nat)
    requires |a| == |b| && i <= |a| && k < |b|
    ensures 0 <= ProductCoefficient(q, a, b, i, k) < q
  {
    if i < |a| {
      ReduceTwice(q, Mul(q, a[i], Shifted(b, i, k)) + ProductCoefficient(q, a, b, i + 1, k));
    }
  }

  /** Transforming, multiplying pointwise and transforming back multiplies modulo X^N + 1. */
  lemma {:induction false} TransformMultiplies(p: Parameters, a: seq<int>, b: seq<int>)
    requires p.Valid() && |a| == |b| == p.N() && Reduced(p.q, a) && Reduced(p.q, b)
    ensures Inverse(p, Pointwise(p.q, Forward(p, a), Forward(p, b))) == Product(p.q, a, b)
  {
    ForwardOfProduct(p, a, b);
    InverseOfForward(p, Product(p.q, a, b));
  }
}
