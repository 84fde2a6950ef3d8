/** The kernels of the transform on a batch of vectors: the table of roots, and the first, inner and last stages,
    each run by work-items in any order.  The first kernel turns the batch from one vector after the other to
    one position after the other, the last one turns it back. */
module TransformKernels {
  import opened Arithmetic
  import opened BitReversal
  import opened Rings
  import opened Transform

  datatype Layout = ByVector | ByPosition

  /** Where position k of vector i is, with e vectors of n elements each. */
  function Index(layout: Layout, n: nat, e: nat, k: nat, i: nat): nat {
    MulMono(n, 0, i);
    MulMono(e, 0, k);
    match layout
    case ByVector => k + i * n
    case ByPosition => i + k * e
  }

  lemma IndexInside(layout: Layout, n: nat, e: nat, k: nat, i: nat)
    requires k < n && i < e
    ensures Index(layout, n, e, k, i) < n * e
  {
    MulMono(n, i + 1, e);
    Distribute(i, 1, n);
    MulMono(e, k + 1, n);
    Distribute(k, 1, e);
  }

  lemma IndexUnique(layout: Layout, n: nat, e: nat, k: nat, i: nat, l: nat, j: nat)
    requires k < n && i < e && l < n && j < e
    requires Index(layout, n, e, k, i) == Index(layout, n, e, l, j)
    ensures k == l && i == j
  {
    if layout == ByVector {
      DivModUnique(Index(layout, n, e, k, i), n, i, k);
      DivModUnique(Index(layout, n, e, k, i), n, j, l);
    } else {
      DivModUnique(Index(layout, n, e, k, i), e, k, i);
      DivModUnique(Index(layout, n, e, k, i), e, l, j);
    }
  }

  /** Vector i of a batch. */
  function Vector(layout: Layout, buffer: seq<int>, n: nat, e: nat, i: nat): (a: seq<int>)
    requires |buffer| == n * e && i < e
    ensures |a| == n
  {
    seq(n, k requires 0 <= k < n => IndexInside(layout, n, e, k, i); buffer[Index(layout, n, e, k, i)])
  }

  // Work-items

  /** Every work-item runs exactly once. */
  ghost predicate Schedule(order: seq<nat>, count: nat) {
    && (forall j :: 0 <= j < |order| ==> order[j] < count)
    && (forall j, k :: 0 <= j < k < |order| ==> order[j] != order[k])
    && (forall id :: 0 <= id < count ==> id in order)
  }

  /** The work-item, within a vector, that handles position k in a stage with distance t. */
  function Owner(t: Positive, k: nat): nat {
    DivModBounds(k, 2 * t);
    DivModBounds(k % (2 * t), t);
    MulMono(t, 0, k / (2 * t));
    (k / (2 * t)) * t + k % (2 * t) % t
  }

  /** The lower position that work-item `tid` of a vector handles; the upper one is at distance t. */
  function Target(t: Positive, tid: nat): nat {
    DivModBounds(tid, t);
    MulMono(t, 0, tid / t);
    (tid / t) * t * 2 + tid % t
  }

  lemma OwnerOfPair(t: Positive, tid: nat)
    ensures var k := Target(t, tid);
            && Owner(t, k) == tid == Owner(t, k + t)
            && k / (2 * t) == tid / t == (k + t) / (2 * t) && k % (2 * t) < t <= (k + t) % (2 * t)
  {
    DivModBounds(tid, t);
    var g, r := tid / t, tid % t;
    var k := Target(t, tid);
    ThreeWay(g, t, 2);
    DivModUnique(k, 2 * t, g, r);
    DivModUnique(k + t, 2 * t, g, r + t);
    DivModUnique(r, t, 0, r);
    DivModUnique(r + t, t, 1, r);
  }

  lemma PairOfOwner(t: Positive, k: nat)
    ensures k == Target(t, Owner(t, k)) || k == Target(t, Owner(t, k)) + t
  {
    DivModBounds(k, 2 * t);
    var g, r := k / (2 * t), k % (2 * t);
    var s := if r < t then r else r - t;
    DivModUnique(r, t, if r < t then 0 else 1, s);
    MulMono(t, 0, g);
    DivModUnique(Owner(t, k), t, g, s);
    ThreeWay(g, t, 2);
  }

  lemma OwnerBelowHalf(g: nat, r: nat, s: nat, t: Positive, m: nat)
    requires s < t && r < 2 * t
    ensures g * (2 * t) + r < m * (2 * t) <==> g * t + s < m * t
  {
    if g < m {
      MulMono(t, g + 1, m);
      MulMono(2 * t, g + 1, m);
      Distribute(g, 1, t);
      Distribute(g, 1, 2 * t);
    } else {
      MulMono(t, m, g);
      MulMono(2 * t, m, g);
    }
  }

  /** In a vector of n elements, cut into blocks of 2 * t, there are n / 2 work-items. */
  lemma OwnerInside(t: Positive, m: nat, n: nat, k: nat)
    requires n == m * (2 * t)
    ensures k < n <==> Owner(t, k) < n / 2
  {
    DivModBounds(k, 2 * t);
    var g, r := k / (2 * t), k % (2 * t);
    DivModBounds(r, t);
    OwnerBelowHalf(g, r, r % t, t, m);
    ThreeWay(m, 2, t);
    MulMono(t, 0, m);
    DivModUnique(n, 2, m * t, 0);
  }

  lemma {:induction false} PairInside(p: Parameters, iteration: nat, tid: nat)
    requires iteration < p.bits && tid < p.N() / 2
    ensures var t := p.Step(iteration); Target(t, tid) + t < p.N()
    ensures tid / p.Step(iteration) >= 0
  {
    hide Pow2, Owner, Target;
    var t := p.Step(iteration);
    BlocksOf(p, iteration);
    OwnerOfPair(t, tid);
    OwnerInside(t, Pow2(iteration), p.N(), Target(t, tid) + t);
    DivModBounds(tid, t);
  }

  lemma {:induction false} BlocksOf(p: Parameters, iteration: nat)
    requires iteration < p.bits
    ensures p.N() == Pow2(iteration) * (2 * p.Step(iteration))
    ensures p.N() / Pow2(iteration) == 2 * p.Step(iteration)
  {
    hide Pow2;
    Pow2Add(iteration, p.bits - iteration);
    Pow2Double(p.bits - 1 - iteration);
    DivModUnique(p.N(), Pow2(iteration), 2 * p.Step(iteration), 0);
  }

  lemma {:induction false} OwnerBelow(p: Parameters, iteration: nat, k: nat)
    requires iteration < p.bits && k < p.N()
    ensures Owner(p.Step(iteration), k) < p.N() / 2
  {
    hide Pow2, Owner;
    BlocksOf(p, iteration);
    OwnerInside(p.Step(iteration), Pow2(iteration), p.N(), k);
  }

  /** Number of work-items of a kernel. */
  function Items(p: Parameters, e: nat): nat {
    MulMono(e, 0, p.N() / 2);
    p.N() / 2 * e
  }

  /** The element indices that a work-item touches. */
  function Touched(p: Parameters, layout: Layout, e: nat, iteration: nat, tid: nat, i: nat): set<nat>
    requires iteration < p.bits
  {
    var t := p.Step(iteration);
    {Index(layout, p.N(), e, Target(t, tid), i), Index(layout, p.N(), e, Target(t, tid) + t, i)}
  }

  /** Different work-items touch different elements, so they cannot observe each other. */
  lemma {:induction false} ItemsDisjoint(p: Parameters, layout: Layout, e: nat, iteration: nat,
                                         tid: nat, i: nat, other: nat, j: nat)
    requires iteration < p.bits && tid < p.N() / 2 && other < p.N() / 2 && i < e && j < e
    requires (tid, i) != (other, j)
    ensures Touched(p, layout, e, iteration, tid, i) !! Touched(p, layout, e, iteration, other, j)
  {
    hide Pow2, Owner, Target, Index;
    var t, n := p.Step(iteration), p.N();
    PairInside(p, iteration, tid);
    PairInside(p, iteration, other);
    OwnerOfPair(t, tid);
    OwnerOfPair(t, other);
    forall x | x in Touched(p, layout, e, iteration, tid, i) && x in Touched(p, layout, e, iteration, other, j)
      ensures false
    {
      var k := if x == Index(layout, n, e, Target(t, tid), i) then Target(t, tid) else Target(t, tid) + t;
      var l := if x == Index(layout, n, e, Target(t, other), j) then Target(t, other) else Target(t, other) + t;
      IndexUnique(layout, n, e, k, i, l, j);
    }
  }

  /** Together the work-items touch every element of the batch. */
  lemma {:induction false} ItemsCover(p: Parameters, layout: Layout, e: nat, iteration: nat, k: nat, i: nat)
    requires iteration < p.bits && k < p.N() && i < e
    ensures Owner(p.Step(iteration), k) < p.N() / 2
    ensures Index(layout, p.N(), e, k, i) in Touched(p, layout, e, iteration, Owner(p.Step(iteration), k), i)
  {
    hide Pow2, Owner, Target, Index;
    OwnerBelow(p, iteration, k);
    PairOfOwner(p.Step(iteration), k);
  }

  /** A kernel half way: the elements of the executed work-items have their new values, the others are
      as before. */
  ghost predicate Progress(p: Parameters, items: Layout, layout: Layout, e: nat, iteration: nat,
                           now: seq<int>, before: seq<int>, rows: seq<seq<int>>, done: set<nat>)
    requires iteration < p.bits && |now| == |before| == p.N() * e && |rows| == e
    requires forall i :: 0 <= i < e ==> |rows[i]| == p.N()
  {
    forall k: nat, i: nat :: k < p.N() && i < e ==>
      (IndexInside(layout, p.N(), e, k, i);
       var x := Index(layout, p.N(), e, k, i);
       now[x] == if Index(items, p.N() / 2, e, Owner(p.Step(iteration), k), i) in done then rows[i][k] else before[x])
  }

  ghost predicate Executed(order: seq<nat>, j: nat, done: set<nat>)
    requires j <= |order|
  {
    forall id: nat :: id in done <==> id in order[..j]
  }

  lemma {:induction false} ExecuteStep(order: seq<nat>, j: nat, done: set<nat>, count: nat)
    requires j < |order| && Executed(order, j, done) && Schedule(order, count)
    ensures Executed(order, j + 1, done + {order[j]}) && order[j] !in done && order[j] < count
  {
    assert order[..j + 1] == order[..j] + [order[j]];
  }

  lemma {:induction false} ProgressRead(p: Parameters, items: Layout, layout: Layout, e: nat, iteration: nat,
                                        now: seq<int>, before: seq<int>, rows: seq<seq<int>>, done: set<nat>,
                                        tid: nat, i: nat)
    requires iteration < p.bits && |now| == |before| == p.N() * e && |rows| == e
    requires forall i :: 0 <= i < e ==> |rows[i]| == p.N()
    requires Progress(p, items, layout, e, iteration, now, before, rows, done)
    requires tid < p.N() / 2 && i < e && Index(items, p.N() / 2, e, tid, i) !in done
    ensures var t := p.Step(iteration); var k := Target(t, tid);
            && k + t < p.N()
            && Index(layout, p.N(), e, k, i) < p.N() * e && Index(layout, p.N(), e, k + t, i) < p.N() * e
            && now[Index(layout, p.N(), e, k, i)] == before[Index(layout, p.N(), e, k, i)]
            && now[Index(layout, p.N(), e, k + t, i)] == before[Index(layout, p.N(), e, k + t, i)]
  {
    hide Pow2, Owner, Target, Index;
    PairInside(p, iteration, tid);
    var t := p.Step(iteration);
    OwnerOfPair(t, tid);
    IndexInside(layout, p.N(), e, Target(t, tid), i);
    IndexInside(layout, p.N(), e, Target(t, tid) + t, i);
  }

  lemma {:induction false} ProgressStep(p: Parameters, items: Layout, layout: Layout, e: nat, iteration: nat,
                                        now: seq<int>, next: seq<int>, before: seq<int>, rows: seq<seq<int>>,
                                        done: set<nat>, tid: nat, i: nat)
    requires iteration < p.bits && |now| == |next| == |before| == p.N() * e && |rows| == e
    requires forall i :: 0 <= i < e ==> |rows[i]| == p.N()
    requires Progress(p, items, layout, e, iteration, now, before, rows, done)
    requires tid < p.N() / 2 && i < e
    requires var t := p.Step(iteration); var k := Target(t, tid);
             && k + t < p.N()
             && Index(layout, p.N(), e, k, i) < p.N() * e && Index(layout, p.N(), e, k + t, i) < p.N() * e
             && next == now[Index(layout, p.N(), e, k, i) := rows[i][k]][Index(layout, p.N(), e, k + t, i) := rows[i][k + t]]
    ensures Progress(p, items, layout, e, iteration, next, before, rows, done + {Index(items, p.N() / 2, e, tid, i)})
  {
    hide Pow2, Owner, Target, Index;
    var t, n := p.Step(iteration), p.N();
    var k := Target(t, tid);
    OwnerOfPair(t, tid);
    forall l: nat, j: nat | l < n && j < e
      ensures Index(layout, n, e, l, j) < n * e
      ensures next[Index(layout, n, e, l, j)]
           == if Index(items, n / 2, e, Owner(t, l), j) in done + {Index(items, n / 2, e, tid, i)} then rows[j][l]
              else before[Index(layout, n, e, l, j)]
    {
      IndexInside(layout, n, e, l, j);
      OwnerBelow(p, iteration, l);
      if Owner(t, l) == tid && j == i {
        PairOfOwner(t, l);
        if l == k && Index(layout, n, e, k, i) == Index(layout, n, e, k + t, i) {
          IndexUnique(layout, n, e, k, i, k + t, i);
        }
      } else {
        if Index(items, n / 2, e, Owner(t, l), j) == Index(items, n / 2, e, tid, i) {
          IndexUnique(items, n / 2, e, Owner(t, l), j, tid, i);
        }
        if Index(layout, n, e, l, j) == Index(layout, n, e, k, i) {
          IndexUnique(layout, n, e, l, j, k, i);
        }
        if Index(layout, n, e, l, j) == Index(layout, n, e, k + t, i) {
          IndexUnique(layout, n, e, l, j, k + t, i);
        }
      }
    }
  }

  lemma {:induction false} ProgressStart(p: Parameters, items: Layout, layout: Layout, e: nat, iteration: nat,
                                         before: seq<int>, rows: seq<seq<int>>)
    requires iteration < p.bits && |before| == p.N() * e && |rows| == e
    requires forall i :: 0 <= i < e ==> |rows[i]| == p.N()
    ensures Progress(p, items, layout, e, iteration, before, before, rows, {})
  {
  }

  lemma {:induction false} ProgressEnd(p: Parameters, items: Layout, layout: Layout, e: nat, iteration: nat,
                                       now: seq<int>, before: seq<int>, rows: seq<seq<int>>, done: set<nat>, order: seq<nat>)
    requires iteration < p.bits && |now| == |before| == p.N() * e && |rows| == e
    requires forall i :: 0 <= i < e ==> |rows[i]| == p.N()
    requires Progress(p, items, layout, e, iteration, now, before, rows, done)
    requires Schedule(order, Items(p, e)) && Executed(order, |order|, done)
    ensures forall i: nat :: i < e ==> Vector(layout, now, p.N(), e, i) == rows[i]
  {
    hide Pow2, Owner, Target, Index;
    assert order[..|order|] == order;
    forall i: nat | i < e ensures Vector(layout, now, p.N(), e, i) == rows[i] {
      var a := Vector(layout, now, p.N(), e, i);
      forall k: nat | k < p.N() ensures a[k] == rows[i][k] {
        IndexInside(layout, p.N(), e, k, i);
        OwnerBelow(p, iteration, k);
        IndexInside(items, p.N() / 2, e, Owner(p.Step(iteration), k), i);
      }
    }
  }

  lemma EmptyBatch(half: nat, e: nat)
    ensures half == 0 || e == 0 ==> half * e == 0
  {
  }

  /** The pair of positions that a work-item of the given number handles. */
  lemma ItemOf(items: Layout, half: nat, e: nat, id: nat)
    requires id < half * e
    ensures half > 0 && e > 0
    ensures items == ByVector ==> 0 <= id / half < e && 0 <= id % half < half && Index(items, half, e, id % half, id / half) == id
    ensures items == ByPosition ==> 0 <= id / e < half && 0 <= id % e < e && Index(items, half, e, id / e, id % e) == id
  {
    EmptyBatch(half, e);
    ThreeWay(half, e, 1);
    DivBelow(id, half, e);
    DivBelow(id, e, half);
  }

  // What a stage makes of a pair

  lemma {:induction false} ForwardPair(p: Parameters, a: seq<int>, iteration: nat, tid: nat)
    requires iteration < p.bits && |a| == p.N() && tid < p.N() / 2
    ensures var t := p.Step(iteration); var k := Target(t, tid);
            && k + t < p.N() && 0 <= tid / t && 0 <= Pow2(iteration) + tid / t < p.N()
            && var v := Mul(p.q, a[k + t], p.Psi(Pow2(iteration) + tid / t));
               && ForwardStage(p, a, iteration)[k] == Add(p.q, a[k], v)
               && ForwardStage(p, a, iteration)[k + t] == Sub(p.q, a[k], v)
  {
    hide Pow2, Target, Owner, Add, Sub, Mul, Parameters.Psi;
    PairInside(p, iteration, tid);
    var t := p.Step(iteration);
    OwnerOfPair(t, tid);
    ButterflyInside(p, iteration, Target(t, tid));
    ButterflyInside(p, iteration, Target(t, tid) + t);
    TableInside(p, iteration, tid / t);
  }

  lemma {:induction false} TableInside(p: Parameters, iteration: nat, g: nat)
    requires iteration < p.bits && g < Pow2(iteration)
    ensures Pow2(iteration) + g < p.N()
  {
    Pow2Strict(iteration, p.bits);
  }

  lemma {:induction false} InversePair(p: Parameters, a: seq<int>, iteration: nat, tid: nat)
    requires iteration < p.bits && |a| == p.N() && tid < p.N() / 2
    ensures var t := p.Step(iteration); var k := Target(t, tid);
            && k + t < p.N() && 0 <= tid / t && 0 <= Pow2(iteration) + tid / t < p.N()
            && InverseStage(p, a, iteration)[k] == Add(p.q, a[k], a[k + t])
            && InverseStage(p, a, iteration)[k + t]
               == Mul(p.q, Sub(p.q, a[k], a[k + t]), p.PsiInverse(Pow2(iteration) + tid / t))
  {
    hide Pow2, Target, Owner, Add, Sub, Mul, Parameters.PsiInverse;
    PairInside(p, iteration, tid);
    var t := p.Step(iteration);
    OwnerOfPair(t, tid);
    ButterflyInside(p, iteration, Target(t, tid));
    ButterflyInside(p, iteration, Target(t, tid) + t);
    TableInside(p, iteration, tid / t);
  }

  // Tables

  ghost predicate ForwardTable(p: Parameters, psis: seq<int>) {
    |psis| == p.N() && forall k: nat :: k < p.N() ==> psis[k] == p.Psi(k)
  }

  /** The factor 1/N is folded into the two entries that the last inverse stage uses. */
  ghost predicate InverseTable(p: Parameters, psis: seq<int>) {
    && |psis| == p.N()
    && (forall k: nat :: 2 <= k < p.N() ==> psis[k] == p.PsiInverse(k))
    && psis[0] == p.nInverse
    && (p.N() > 1 ==> psis[1] == Mul(p.q, p.PsiInverse(1), p.nInverse))
  }

  // Forward

  ghost function ForwardRows(p: Parameters, layout: Layout, buffer: seq<int>, e: nat, iteration: nat): (rows: seq<seq<int>>)
    requires iteration < p.bits && |buffer| == p.N() * e
    ensures |rows| == e && forall i :: 0 <= i < e ==> |rows[i]| == p.N()
    ensures forall i: nat :: i < e ==> rows[i] == ForwardStage(p, Vector(layout, buffer, p.N(), e, i), iteration)
  {
    seq(e, i requires 0 <= i < e => ForwardStage(p, Vector(layout, buffer, p.N(), e, i), iteration))
  }

  lemma NoneExecuted(order: seq<nat>)
    ensures Executed(order, 0, {})
  {
  }

  // The distance as the inner kernels compute it
  lemma {:induction false} StageStep(p: Parameters, iteration: nat)
    requires iteration < p.bits
    ensures p.N() / Pow2(iteration) / 2 == p.Step(iteration)
    ensures iteration >= 1 ==> Pow2(iteration) >= 2
  {
    BlocksOf(p, iteration);
  }

  lemma {:induction false} EndSteps(p: Parameters)
    requires p.bits >= 1
    ensures p.Step(0) == p.N() / 2 == Pow2(p.bits - 1) && p.Step(p.bits - 1) == 1 && Pow2(0) == 1
    ensures p.bits >= 2 ==> p.N() / 2 >= 2
  {
    if p.bits >= 2 {
      Pow2Mono(1, p.bits - 1);
    }
  }

  lemma TargetWide(t: Positive, tid: nat)
    requires tid < t
    ensures Target(t, tid) == tid && tid / t == 0
  {
    DivModUnique(tid, t, 0, tid);
  }

  lemma TargetNarrow(tid: nat)
    ensures Target(1, tid) == 2 * tid && tid / 1 == tid
  {
  }

  /** The first stage: reads the vectors one after the other, writes the batch one position after the other. */
  method ForwardFirst(p: Parameters, psis: array<int>, input: seq<int>, scratch: array<int>, e: nat, order: seq<nat>)
    requires p.bits >= 1
    requires ForwardTable(p, psis[..]) && |input| == p.N() * e == scratch.Length && psis != scratch
    requires Schedule(order, Items(p, e))
    modifies scratch
    ensures forall i: nat :: i < e ==>
      Vector(ByPosition, scratch[..], p.N(), e, i)
        == ForwardStage(p, Vector(ByVector, input, p.N(), e, i), 0)
  {
    hide Pow2, Add, Sub, Mul, Parameters.Psi, Parameters.PsiInverse, ForwardStage, InverseStage, Owner, Progress, Executed, Schedule, Index, Target;
    EndSteps(p);
    ghost var before := scratch[..];
    ghost var rows := ForwardRows(p, ByVector, input, e, 0);
    ghost var done: set<nat> := {};
    ProgressStart(p, ByVector, ByPosition, e, 0, before, rows);
    assert Executed(order, 0, done) by { NoneExecuted(order); }
    for j := 0 to |order|
      invariant Executed(order, j, done)
      invariant Progress(p, ByVector, ByPosition, e, 0, scratch[..], before, rows, done)
    {
      var id := order[j];
      ExecuteStep(order, j, done, Items(p, e));
      ItemOf(ByVector, p.N() / 2, e, id);
      var i: nat, tid: nat := id / (p.N() / 2), id % (p.N() / 2);
      var step := p.N() / 2;
      var target := tid;
      TargetWide(step, tid);
      ghost var now := scratch[..];
      ProgressRead(p, ByVector, ByPosition, e, 0, now, before, rows, done, tid, i);
      ForwardPair(p, Vector(ByVector, input, p.N(), e, i), 0, tid);
      var psi := psis[1];
      IndexInside(ByVector, p.N(), e, target, i);
      IndexInside(ByVector, p.N(), e, target + step, i);
      var index, indexStep := Index(ByVector, p.N(), e, target, i), Index(ByVector, p.N(), e, target + step, i);
      var writeIndex, writeIndexStep := Index(ByPosition, p.N(), e, target, i), Index(ByPosition, p.N(), e, target + step, i);
      var u, v := input[index], input[indexStep];
      v := Mul(p.q, v, psi);
      scratch[writeIndex] := Add(p.q, u, v);
      scratch[writeIndexStep] := Sub(p.q, u, v);
      ProgressStep(p, ByVector, ByPosition, e, 0, now, scratch[..], before, rows, done, tid, i);
      done := done + {id};
    }
    ProgressEnd(p, ByVector, ByPosition, e, 0, scratch[..], before, rows, done, order);
  }

  /** One inner stage, in place. */
  method ForwardInner(p: Parameters, psis: array<int>, scratch: array<int>, e: nat, iteration: nat, order: seq<nat>)
    requires iteration < p.bits
    requires ForwardTable(p, psis[..]) && scratch.Length == p.N() * e && psis != scratch
    requires Schedule(order, Items(p, e))
    modifies scratch
    ensures forall i: nat :: i < e ==>
      Vector(ByPosition, scratch[..], p.N(), e, i)
        == ForwardStage(p, Vector(ByPosition, old(scratch[..]), p.N(), e, i), iteration)
  {
    hide Pow2, Add, Sub, Mul, Parameters.Psi, Parameters.PsiInverse, ForwardStage, InverseStage, Owner, Progress, Executed, Schedule, Index, Target;
    ghost var before := scratch[..];
    ghost var rows := ForwardRows(p, ByPosition, before, e, iteration);
    ghost var done: set<nat> := {};
    ProgressStart(p, ByPosition, ByPosition, e, iteration, before, rows);
    assert Executed(order, 0, done) by { NoneExecuted(order); }
    for j := 0 to |order|
      invariant Executed(order, j, done)
      invariant Progress(p, ByPosition, ByPosition, e, iteration, scratch[..], before, rows, done)
    {
      var id := order[j];
      ExecuteStep(order, j, done, Items(p, e));
      ItemOf(ByPosition, p.N() / 2, e, id);
      var tid: nat, i: nat := id / e, id % e;
      var length := Pow2(iteration);
      StageStep(p, iteration);
      var step := p.N() / length / 2;
      var psiStep := tid / step;
      var target := Target(step, tid);
      ghost var now := scratch[..];
      ProgressRead(p, ByPosition, ByPosition, e, iteration, now, before, rows, done, tid, i);
      ForwardPair(p, Vector(ByPosition, before, p.N(), e, i), iteration, tid);
      var psi := psis[length + psiStep];
      var index, indexStep := Index(ByPosition, p.N(), e, target, i), Index(ByPosition, p.N(), e, target + step, i);
      var u, v := scratch[index], scratch[indexStep];
      v := Mul(p.q, v, psi);
      scratch[index] := Add(p.q, u, v);
      scratch[indexStep] := Sub(p.q, u, v);
      ProgressStep(p, ByPosition, ByPosition, e, iteration, now, scratch[..], before, rows, done, tid, i);
      done := done + {id};
    }
    ProgressEnd(p, ByPosition, ByPosition, e, iteration, scratch[..], before, rows, done, order);
  }

  /** The last stage, which turns the batch back. */
  method ForwardLast(p: Parameters, psis: array<int>, scratch: array<int>, tensor: array<int>, e: nat, order: seq<nat>)
    requires p.bits >= 1
    requires ForwardTable(p, psis[..]) && scratch.Length == p.N() * e == tensor.Length && psis != tensor && scratch != tensor
    requires Schedule(order, Items(p, e))
    modifies tensor
    ensures forall i: nat :: i < e ==>
      Vector(ByVector, tensor[..], p.N(), e, i)
        == ForwardStage(p, Vector(ByPosition, scratch[..], p.N(), e, i), p.bits - 1)
  {
    hide Pow2, Add, Sub, Mul, Parameters.Psi, Parameters.PsiInverse, ForwardStage, InverseStage, Owner, Progress, Executed, Schedule, Index, Target;
    EndSteps(p);
    ghost var stage := p.bits - 1;
    ghost var before := tensor[..];
    ghost var rows := ForwardRows(p, ByPosition, scratch[..], e, stage);
    ghost var done: set<nat> := {};
    ProgressStart(p, ByPosition, ByVector, e, stage, before, rows);
    assert Executed(order, 0, done) by { NoneExecuted(order); }
    for j := 0 to |order|
      invariant Executed(order, j, done)
      invariant Progress(p, ByPosition, ByVector, e, stage, tensor[..], before, rows, done)
    {
      var id := order[j];
      ExecuteStep(order, j, done, Items(p, e));
      ItemOf(ByPosition, p.N() / 2, e, id);
      var tid: nat, i: nat := id / e, id % e;
      var step := 1;
      var target := 2 * tid;
      TargetNarrow(tid);
      ghost var now := tensor[..];
      ProgressRead(p, ByPosition, ByVector, e, stage, now, before, rows, done, tid, i);
      ForwardPair(p, Vector(ByPosition, scratch[..], p.N(), e, i), stage, tid);
      var psi := psis[p.N() / 2 + tid];
      IndexInside(ByPosition, p.N(), e, target, i);
      IndexInside(ByPosition, p.N(), e, target + step, i);
      var index, indexStep := Index(ByPosition, p.N(), e, target, i), Index(ByPosition, p.N(), e, target + step, i);
      var writeIndex, writeIndexStep := Index(ByVector, p.N(), e, target, i), Index(ByVector, p.N(), e, target + step, i);
      var u, v := scratch[index], scratch[indexStep];
      v := Mul(p.q, v, psi);
      tensor[writeIndex] := Add(p.q, u, v);
      tensor[writeIndexStep] := Sub(p.q, u, v);
      ProgressStep(p, ByPosition, ByVector, e, stage, now, tensor[..], before, rows, done, tid, i);
      done := done + {id};
    }
    ProgressEnd(p, ByPosition, ByVector, e, stage, tensor[..], before, rows, done, order);
  }

  // Inverse

  ghost function InverseRows(p: Parameters, layout: Layout, buffer: seq<int>, e: nat, iteration: nat): (rows: seq<seq<int>>)
    requires iteration < p.bits && |buffer| == p.N() * e
    ensures |rows| == e && forall i :: 0 <= i < e ==> |rows[i]| == p.N()
    ensures forall i: nat :: i < e ==> rows[i] == InverseStage(p, Vector(layout, buffer, p.N(), e, i), iteration)
  {
    seq(e, i requires 0 <= i < e => InverseStage(p, Vector(layout, buffer, p.N(), e, i), iteration))
  }

  ghost function LastRows(p: Parameters, layout: Layout, buffer: seq<int>, e: nat): (rows: seq<seq<int>>)
    requires p.bits >= 1 && |buffer| == p.N() * e
    ensures |rows| == e && forall i :: 0 <= i < e ==> |rows[i]| == p.N()
    ensures forall i: nat :: i < e ==>
      rows[i] == Scale(p.q, p.nInverse, InverseStage(p, Vector(layout, buffer, p.N(), e, i), 0))
  {
    seq(e, i requires 0 <= i < e => Scale(p.q, p.nInverse, InverseStage(p, Vector(layout, buffer, p.N(), e, i), 0)))
  }

  // The inverse counts its iterations from the other end.
  lemma {:induction false} InverseLength(p: Parameters, iteration: nat)
    requires iteration < p.bits
    ensures p.N() / Pow2(iteration + 1) == Pow2(p.bits - 1 - iteration)
  {
    hide Pow2;
    Pow2Add(iteration + 1, p.bits - 1 - iteration);
    DivModUnique(p.N(), Pow2(iteration + 1), Pow2(p.bits - 1 - iteration), 0);
  }

  /** The factor 1/N, in the products the last stage takes. */
  lemma FoldedFactor(p: Parameters, sum: int, difference: int, psi: int)
    ensures Mul(p.q, sum, p.nInverse) == Mul(p.q, p.nInverse, sum)
    ensures Mul(p.q, difference, Mul(p.q, psi, p.nInverse)) == Mul(p.q, p.nInverse, Mul(p.q, difference, psi))
  {
    hide Mul;
    MulAssociative(p.q, sum, p.nInverse, 1);
    MulAssociative(p.q, difference, psi, p.nInverse);
    MulAssociative(p.q, p.nInverse, Mul(p.q, difference, psi), 1);
  }

  /** The first stage of the inverse. */
  method InverseFirst(p: Parameters, psis: array<int>, input: seq<int>, scratch: array<int>, e: nat, order: seq<nat>)
    requires p.bits >= 2
    requires InverseTable(p, psis[..]) && |input| == p.N() * e == scratch.Length && psis != scratch
    requires Schedule(order, Items(p, e))
    modifies scratch
    ensures forall i: nat :: i < e ==>
      Vector(ByPosition, scratch[..], p.N(), e, i)
        == InverseStage(p, Vector(ByVector, input, p.N(), e, i), p.bits - 1)
  {
    hide Pow2, Add, Sub, Mul, Parameters.Psi, Parameters.PsiInverse, ForwardStage, InverseStage, Owner, Progress, Executed, Schedule, Index, Target;
    EndSteps(p);
    ghost var stage := p.bits - 1;
    ghost var before := scratch[..];
    ghost var rows := InverseRows(p, ByVector, input, e, stage);
    ghost var done: set<nat> := {};
    ProgressStart(p, ByVector, ByPosition, e, stage, before, rows);
    assert Executed(order, 0, done) by { NoneExecuted(order); }
    for j := 0 to |order|
      invariant Executed(order, j, done)
      invariant Progress(p, ByVector, ByPosition, e, stage, scratch[..], before, rows, done)
    {
      var id := order[j];
      ExecuteStep(order, j, done, Items(p, e));
      ItemOf(ByVector, p.N() / 2, e, id);
      var i: nat, tid: nat := id / (p.N() / 2), id % (p.N() / 2);
      var step := 1;
      var target := 2 * tid;
      TargetNarrow(tid);
      ghost var now := scratch[..];
      ProgressRead(p, ByVector, ByPosition, e, stage, now, before, rows, done, tid, i);
      InversePair(p, Vector(ByVector, input, p.N(), e, i), stage, tid);
      var psi := psis[p.N() / 2 + tid];
      IndexInside(ByVector, p.N(), e, target, i);
      IndexInside(ByVector, p.N(), e, target + step, i);
      var index, indexStep := Index(ByVector, p.N(), e, target, i), Index(ByVector, p.N(), e, target + step, i);
      var writeIndex, writeIndexStep := Index(ByPosition, p.N(), e, target, i), Index(ByPosition, p.N(), e, target + step, i);
      var u, v := input[index], input[indexStep];
      scratch[writeIndex] := Add(p.q, u, v);
      scratch[writeIndexStep] := Mul(p.q, Sub(p.q, u, v), psi);
      ProgressStep(p, ByVector, ByPosition, e, stage, now, scratch[..], before, rows, done, tid, i);
      done := done + {id};
    }
    ProgressEnd(p, ByVector, ByPosition, e, stage, scratch[..], before, rows, done, order);
  }

  /** One inner stage of the inverse, in place. */
  method InverseInner(p: Parameters, psis: array<int>, scratch: array<int>, e: nat, iteration: nat, order: seq<nat>)
    requires iteration < p.bits && p.bits >= 2 && iteration < p.bits - 1
    requires InverseTable(p, psis[..]) && scratch.Length == p.N() * e && psis != scratch
    requires Schedule(order, Items(p, e))
    modifies scratch
    ensures forall i: nat :: i < e ==>
      Vector(ByPosition, scratch[..], p.N(), e, i)
        == InverseStage(p, Vector(ByPosition, old(scratch[..]), p.N(), e, i), p.bits - 1 - iteration)
  {
    hide Pow2, Add, Sub, Mul, Parameters.Psi, Parameters.PsiInverse, ForwardStage, InverseStage, Owner, Progress, Executed, Schedule, Index, Target;
    ghost var stage := p.bits - 1 - iteration;
    ghost var before := scratch[..];
    ghost var rows := InverseRows(p, ByPosition, before, e, stage);
    ghost var done: set<nat> := {};
    ProgressStart(p, ByPosition, ByPosition, e, stage, before, rows);
    assert Executed(order, 0, done) by { NoneExecuted(order); }
    for j := 0 to |order|
      invariant Executed(order, j, done)
      invariant Progress(p, ByPosition, ByPosition, e, stage, scratch[..], before, rows, done)
    {
      var id := order[j];
      ExecuteStep(order, j, done, Items(p, e));
      ItemOf(ByPosition, p.N() / 2, e, id);
      var tid: nat, i: nat := id / e, id % e;
      InverseLength(p, iteration);
      var length := p.N() / Pow2(iteration + 1);
      StageStep(p, stage);
      var step := p.N() / length / 2;
      var psiStep := tid / step;
      var target := Target(step, tid);
      ghost var now := scratch[..];
      ProgressRead(p, ByPosition, ByPosition, e, stage, now, before, rows, done, tid, i);
      InversePair(p, Vector(ByPosition, before, p.N(), e, i), stage, tid);
      var psi := psis[length + psiStep];
      var index, indexStep := Index(ByPosition, p.N(), e, target, i), Index(ByPosition, p.N(), e, target + step, i);
      var u, v := scratch[index], scratch[indexStep];
      scratch[index] := Add(p.q, u, v);
      scratch[indexStep] := Mul(p.q, Sub(p.q, u, v), psi);
      ProgressStep(p, ByPosition, ByPosition, e, stage, now, scratch[..], before, rows, done, tid, i);
      done := done + {id};
    }
    ProgressEnd(p, ByPosition, ByPosition, e, stage, scratch[..], before, rows, done, order);
  }

  /** The last stage of the inverse, which also divides by N. */
  method InverseLast(p: Parameters, psis: array<int>, scratch: array<int>, tensor: array<int>, e: nat, order: seq<nat>)
    requires p.bits >= 1
    requires InverseTable(p, psis[..]) && scratch.Length == p.N() * e == tensor.Length && psis != tensor && scratch != tensor
    requires Schedule(order, Items(p, e))
    modifies tensor
    ensures forall i: nat :: i < e ==>
      Vector(ByVector, tensor[..], p.N(), e, i)
        == Scale(p.q, p.nInverse, InverseStage(p, Vector(ByPosition, scratch[..], p.N(), e, i), 0))
  {
    hide Pow2, Add, Sub, Mul, Parameters.Psi, Parameters.PsiInverse, ForwardStage, InverseStage, Owner, Progress, Executed, Schedule, Index, Target;
    EndSteps(p);
    ghost var stage := 0;
    ghost var before := tensor[..];
    ghost var rows := LastRows(p, ByPosition, scratch[..], e);
    ghost var done: set<nat> := {};
    ProgressStart(p, ByPosition, ByVector, e, stage, before, rows);
    assert Executed(order, 0, done) by { NoneExecuted(order); }
    for j := 0 to |order|
      invariant Executed(order, j, done)
      invariant Progress(p, ByPosition, ByVector, e, stage, tensor[..], before, rows, done)
    {
      var id := order[j];
      ExecuteStep(order, j, done, Items(p, e));
      ItemOf(ByPosition, p.N() / 2, e, id);
      var tid: nat, i: nat := id / e, id % e;
      var step := p.N() / 2;
      var target := tid;
      TargetWide(step, tid);
      ghost var now := tensor[..];
      ProgressRead(p, ByPosition, ByVector, e, stage, now, before, rows, done, tid, i);
      InversePair(p, Vector(ByPosition, scratch[..], p.N(), e, i), stage, tid);
      var psi := psis[1];
      IndexInside(ByPosition, p.N(), e, target, i);
      IndexInside(ByPosition, p.N(), e, target + step, i);
      var index, indexStep := Index(ByPosition, p.N(), e, target, i), Index(ByPosition, p.N(), e, target + step, i);
      var writeIndex, writeIndexStep := Index(ByVector, p.N(), e, target, i), Index(ByVector, p.N(), e, target + step, i);
      var u, v := scratch[index], scratch[indexStep];
      FoldedFactor(p, Add(p.q, u, v), Sub(p.q, u, v), p.PsiInverse(1));
      tensor[writeIndex] := Mul(p.q, Add(p.q, u, v), psis[0]);
      tensor[writeIndexStep] := Mul(p.q, Sub(p.q, u, v), psi);
      ProgressStep(p, ByPosition, ByVector, e, stage, now, tensor[..], before, rows, done, tid, i);
      done := done + {id};
    }
    ProgressEnd(p, ByPosition, ByVector, e, stage, tensor[..], before, rows, done, order);
  }

  // The table

  ghost function Entry(p: Parameters, inverse: bool, k: nat): int {
    if !inverse then p.Psi(k)
    else if k == 0 then p.nInverse
    else if k == 1 then Mul(p.q, p.PsiInverse(1), p.nInverse)
    else p.PsiInverse(k)
  }

  ghost predicate Filled(p: Parameters, inverse: bool, psis: seq<int>, i: nat)
    requires |psis| == p.N()
  {
    forall k: nat :: k < p.N() && Reverse(p.bits, k) < i ==> psis[k] == Entry(p, inverse, k)
  }

  lemma {:induction false} FillOne(p: Parameters, inverse: bool, psis: seq<int>, i: nat)
    requires |psis| == p.N() && i < p.N() && Filled(p, inverse, psis, i)
    ensures Reverse(p.bits, i) < p.N()
    ensures Filled(p, inverse, psis[Reverse(p.bits, i) := Entry(p, inverse, Reverse(p.bits, i))], i + 1)
  {
    hide Reverse, Pow2;
    ReverseInvolution(p.bits, i);
    forall k: nat | k < p.N() && Reverse(p.bits, k) == i ensures k == Reverse(p.bits, i) {
      ReverseInvolution(p.bits, k);
    }
  }

  lemma {:induction false} FirstTwo(p: Parameters, inverse: bool, psis: seq<int>)
    requires p.bits >= 2 && |psis| == p.N()
    requires psis[0] == Entry(p, inverse, 0)
    ensures Reverse(p.bits, 0) == 0 && Reverse(p.bits, 1) < p.N() && 1 < p.N()
    ensures Filled(p, inverse, psis[Reverse(p.bits, 1) := Entry(p, inverse, Reverse(p.bits, 1))], 2)
  {
    hide Reverse, Pow2, Entry;
    ReverseZero(p.bits);
    Pow2Mono(1, p.bits);
    Pow2Small();
    forall k: nat | k < p.N() && Reverse(p.bits, k) < 1 ensures k == 0 {
      ReverseInvolution(p.bits, k);
    }
    FillOne(p, inverse, psis, 1);
  }

  // The entry that goes with the i-th power of the root
  lemma {:induction false} EntryOfPower(p: Parameters, inverse: bool, i: nat)
    requires p.bits >= 2 && 1 <= i < p.N()
    ensures var root, j := if inverse then p.phiInverse else p.phi, Reverse(p.bits, i);
            && j < p.N()
            && (i == 1 ==> j != 1)
            && Entry(p, inverse, j) == if inverse && j == 1 then Mul(p.q, Pow(p.q, root, i), p.nInverse) else Pow(p.q, root, i)
  {
    hide Reverse, Pow2, Pow, Mul;
    ReverseInvolution(p.bits, i);
    ReverseZero(p.bits);
    ReverseOne(p.bits);
    Pow2Mono(1, p.bits - 1);
    Pow2Small();
  }

  lemma {:induction false} PowNext(p: Parameters, root: int, i: nat)
    ensures Pow(p.q, root, i + 1) == Mul(p.q, Pow(p.q, root, i), root)
  {
    MulAssociative(p.q, root, Pow(p.q, root, i), 1);
  }

  /** The powers of the root in bit-reversed order. */
  method GetRoots(p: Parameters, inverse: bool) returns (psis: array<int>)
    requires 2 <= p.bits <= 31
    ensures fresh(psis)
    ensures !inverse ==> ForwardTable(p, psis[..])
    ensures inverse ==> InverseTable(p, psis[..])
    ensures psis.Length == p.N() >= 2
    ensures !inverse ==> forall k: nat :: k < p.N() ==> psis[k] == Pow(p.q, p.phi, Reverse(p.bits, k))
    ensures inverse ==> forall k: nat :: 2 <= k < p.N() ==> psis[k] == Pow(p.q, p.phiInverse, Reverse(p.bits, k))
    ensures inverse ==> psis[0] == p.nInverse && psis[1] == Mul(p.q, Pow(p.q, p.phiInverse, Reverse(p.bits, 1)), p.nInverse)
  {
    hide Pow2, Mul, Pow, Reverse, Entry, Filled;
    var n := p.N();
    psis := new int[n];
    psis[0] := if inverse then p.nInverse else 1 % p.q;
    assert psis[0] == Entry(p, inverse, 0) by { EntryZero(p, inverse); }
    var root := if inverse then p.phiInverse else p.phi;
    FirstTwo(p, inverse, psis[..]);
    EntryOfPower(p, inverse, 1);
    PowNext(p, root, 0);
    PowFirstPower(p, inverse);
    var first := BitReverse(1, p.bits);
    psis[first] := root % p.q;
    var power := root;
    for i := 2 to n
      invariant power % p.q == Pow(p.q, root, i - 1)
      invariant Filled(p, inverse, psis[..], i)
    {
      PowNext(p, root, i - 1);
      MulReduces(p.q, power, root);
      power := Mul(p.q, power, root);
      var j := BitReverse(i, p.bits);
      EntryOfPower(p, inverse, i);
      FillOne(p, inverse, psis[..], i);
      PowReduced(p.q, root, i);
      if inverse && j == 1 {
        psis[j] := Mul(p.q, power, p.nInverse);
      } else {
        psis[j] := power;
      }
    }
    TableFilled(p, inverse, psis[..]);
  }

  lemma {:induction false} EntryZero(p: Parameters, inverse: bool)
    ensures Entry(p, inverse, 0) == if inverse then p.nInverse else 1 % p.q
  {
    ReverseZero(p.bits);
  }

  lemma {:induction false} PowFirstPower(p: Parameters, inverse: bool)
    ensures var root := if inverse then p.phiInverse else p.phi; Pow(p.q, root, 1) == root % p.q
  {
    var root := if inverse then p.phiInverse else p.phi;
    assert Pow(p.q, root, 0) == 1 % p.q;
    TimesOne(p.q, root);
  }

  lemma {:induction false} TableFilled(p: Parameters, inverse: bool, psis: seq<int>)
    requires p.bits >= 2 && |psis| == p.N() && Filled(p, inverse, psis, p.N())
    ensures !inverse ==> ForwardTable(p, psis)
    ensures inverse ==> InverseTable(p, psis)
  {
    hide Pow2, Mul, Pow, Reverse;
    forall k: nat | k < p.N() ensures psis[k] == Entry(p, inverse, k) {
      ReverseBound(p.bits, k);
    }
  }

  // The whole transforms

  ghost predicate Schedules(p: Parameters, e: nat, orders: seq<seq<nat>>) {
    |orders| == p.bits && forall s :: 0 <= s < |orders| ==> Schedule(orders[s], Items(p, e))
  }

  /** Any order in which all work-items occur will do, for instance the natural one. */
  lemma NaturalOrder(p: Parameters, e: nat)
    ensures Schedules(p, e, seq(p.bits, _ => seq(Items(p, e), id => id)))
  {
    var order := seq(Items(p, e), id => id);
    forall id | 0 <= id < Items(p, e) ensures id in order {
      assert order[id] == id;
    }
  }

  /** On every batch, with the work-items of every kernel in any order, each vector of the result is the
      transform of the vector of the input. */
  method ForwardTransform(p: Parameters, input: seq<int>, e: nat, tensor: array<int>, orders: seq<seq<nat>>)
    requires 2 <= p.bits <= 31 && |input| == p.N() * e == tensor.Length && Schedules(p, e, orders)
    modifies tensor
    ensures forall i: nat :: i < e ==>
      Vector(ByVector, tensor[..], p.N(), e, i) == Forward(p, Vector(ByVector, input, p.N(), e, i))
  {
    hide Pow2, ForwardStage, Vector, ForwardTable, Schedule, Items;
    var roots := GetRoots(p, false);
    var scratch := new int[p.N() * e];
    ForwardFirst(p, roots, input, scratch, e, orders[0]);
    for iteration := 1 to p.bits - 1
      invariant ForwardTable(p, roots[..])
      invariant forall i: nat :: i < e ==>
        Vector(ByPosition, scratch[..], p.N(), e, i) == ForwardStages(p, Vector(ByVector, input, p.N(), e, i), iteration)
    {
      ForwardInner(p, roots, scratch, e, iteration, orders[iteration]);
    }
    ForwardLast(p, roots, scratch, tensor, e, orders[p.bits - 1]);
  }

  method InverseTransform(p: Parameters, input: seq<int>, e: nat, tensor: array<int>, orders: seq<seq<nat>>)
    requires 2 <= p.bits <= 31 && |input| == p.N() * e == tensor.Length && Schedules(p, e, orders)
    modifies tensor
    ensures forall i: nat :: i < e ==>
      Vector(ByVector, tensor[..], p.N(), e, i) == Inverse(p, Vector(ByVector, input, p.N(), e, i))
  {
    hide Pow2, InverseStage, Vector, InverseTable, Schedule, Items, Scale;
    var roots := GetRoots(p, true);
    var scratch := new int[p.N() * e];
    InverseFirst(p, roots, input, scratch, e, orders[0]);
    for iteration := 1 to p.bits - 1
      invariant InverseTable(p, roots[..])
      invariant forall i: nat :: i < e ==>
        Vector(ByPosition, scratch[..], p.N(), e, i) == InverseStages(p, Vector(ByVector, input, p.N(), e, i), p.bits - iteration)
    {
      InverseInner(p, roots, scratch, e, iteration, orders[iteration]);
    }
    InverseLast(p, roots, scratch, tensor, e, orders[p.bits - 1]);
  }
}
