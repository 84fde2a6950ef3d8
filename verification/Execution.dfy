/** Running a plan: every planned expression is computed into its tensor, reading the tensors of the planned
    expressions that occur in it. */
module Execution {
  import opened Planning

  /** What an operator makes of the values of its operands, tensor for tensor. */
  type Semantics<!V> = (Operator, seq<V>) -> V

  /** Caching passes the value on. */
  ghost predicate CacheIsIdentity<V(!new)>(sem: Semantics<V>) {
    forall x: V :: sem(CACHE, [x]) == x
  }

  /** The value of an expression, computed recursively without any tensor. */
  function Direct<V>(sem: Semantics<V>, e: Expr): V
    decreases e, |e.operands| + 1
  {
    sem(e.op, DirectOperands(sem, e, |e.operands|))
  }

  function DirectOperands<V>(sem: Semantics<V>, e: Expr, n: nat): (values: seq<V>)
    requires n <= |e.operands|
    ensures |values| == n
    decreases e, n
  {
    if n == 0 then [] else DirectOperands(sem, e, n - 1) + [Direct(sem, e.operands[n - 1].expr)]
  }

  function IndexOf(plan: seq<Expr>, e: Expr): (i: nat)
    requires e in plan
    ensures i < |plan| && plan[i] == e
  {
    if plan[0] == e then 0 else 1 + IndexOf(plan[1..], e)
  }

  /** The value of an expression as an operand: from its tensor when it is planned. */
  function State<V>(sem: Semantics<V>, plan: seq<Expr>, tensors: seq<V>, e: Expr): V
    requires |tensors| == |plan|
    decreases e, |e.operands| + 1
  {
    if e in plan then tensors[IndexOf(plan, e)]
    else sem(e.op, StateOperands(sem, plan, tensors, e, |e.operands|))
  }

  function StateOperands<V>(sem: Semantics<V>, plan: seq<Expr>, tensors: seq<V>, e: Expr, n: nat): (values: seq<V>)
    requires |tensors| == |plan| && n <= |e.operands|
    ensures |values| == n
    decreases e, n
  {
    if n == 0 then []
    else StateOperands(sem, plan, tensors, e, n - 1) + [State(sem, plan, tensors, e.operands[n - 1].expr)]
  }

  /** The value that is written for a planned expression. */
  function ExecuteSingle<V>(sem: Semantics<V>, plan: seq<Expr>, tensors: seq<V>, e: Expr): V
    requires |tensors| == |plan|
  {
    sem(e.op, StateOperands(sem, plan, tensors, e, |e.operands|))
  }

  /** The tensors after the first k steps. */
  function TensorsAfter<V>(sem: Semantics<V>, plan: seq<Expr>, initial: seq<V>, k: nat): (tensors: seq<V>)
    requires |initial| == |plan| && k <= |plan|
    ensures |tensors| == |plan|
  {
    if k == 0 then initial
    else
      var before := TensorsAfter(sem, plan, initial, k - 1);
      before[k - 1 := ExecuteSingle(sem, plan, before, plan[k - 1])]
  }

  method Execute<V>(sem: Semantics<V>, plan: seq<Expr>, tensors: array<V>)
    requires tensors.Length == |plan|
    modifies tensors
    ensures tensors[..] == TensorsAfter(sem, plan, old(tensors[..]), |plan|)
  {
    for i := 0 to |plan|
      invariant tensors[..] == TensorsAfter(sem, plan, old(tensors[..]), i)
    {
      ghost var before := tensors[..];
      tensors[i] := ExecuteSingle(sem, plan, tensors[..], plan[i]);
      assert tensors[..] == before[i := ExecuteSingle(sem, plan, before, plan[i])];
    }
  }

  lemma {:induction false} WrittenOnce<V>(sem: Semantics<V>, plan: seq<Expr>, initial: seq<V>, i: nat, k: nat)
    requires |initial| == |plan| && i < |plan| && k <= |plan|
    ensures TensorsAfter(sem, plan, initial, k)[i]
         == if i < k then ExecuteSingle(sem, plan, TensorsAfter(sem, plan, initial, i), plan[i]) else initial[i]
  {
    if k > 0 {
      WrittenOnce(sem, plan, initial, i, k - 1);
    }
  }

  lemma {:induction false} UniqueIndex(plan: seq<Expr>, i: nat)
    requires NoDuplicates(plan) && i < |plan|
    ensures IndexOf(plan, plan[i]) == i
  {
    var j := IndexOf(plan, plan[i]);
    assert j < i || j > i || j == i;
  }

  // An ordered plan computes what direct evaluation computes

  /** The tensors of the first k planned expressions hold their values. */
  ghost predicate FirstAreDirect<V>(sem: Semantics<V>, plan: seq<Expr>, tensors: seq<V>, k: nat)
    requires |tensors| == |plan| && k <= |plan|
  {
    forall i :: 0 <= i < k ==> tensors[i] == Direct(sem, plan[i])
  }

  ghost predicate PlannedBelow(plan: seq<Expr>, e: Expr, k: nat) {
    forall j :: 0 <= j < |plan| && Inside(plan[j], e) ==> j < k
  }

  lemma {:induction false} StateIsDirect<V>(sem: Semantics<V>, plan: seq<Expr>, tensors: seq<V>, k: nat, e: Expr)
    requires |tensors| == |plan| && k <= |plan| && FirstAreDirect(sem, plan, tensors, k)
    requires PlannedBelow(plan, e, k) && (e in plan ==> IndexOf(plan, e) < k)
    ensures State(sem, plan, tensors, e) == Direct(sem, e)
    decreases e, |e.operands| + 1
  {
    if e !in plan {
      OperandsAreDirect(sem, plan, tensors, k, e, |e.operands|);
    }
  }

  lemma {:induction false} OperandsAreDirect<V>(sem: Semantics<V>, plan: seq<Expr>, tensors: seq<V>, k: nat, e: Expr, n: nat)
    requires |tensors| == |plan| && k <= |plan| && FirstAreDirect(sem, plan, tensors, k) && n <= |e.operands|
    requires PlannedBelow(plan, e, k)
    ensures StateOperands(sem, plan, tensors, e, n) == DirectOperands(sem, e, n)
    decreases e, n
  {
    if n > 0 {
      OperandsAreDirect(sem, plan, tensors, k, e, n - 1);
      var f := e.operands[n - 1].expr;
      WithinSelf(f);
      assert Inside(f, e);
      forall j | 0 <= j < |plan| && Inside(plan[j], f) ensures j < k {
        assert Within(plan[j], f);
        assert Inside(plan[j], e);
      }
      StateIsDirect(sem, plan, tensors, k, f);
    }
  }

  lemma {:induction false} OrderedRunIsDirect<V>(sem: Semantics<V>, plan: seq<Expr>, initial: seq<V>, k: nat)
    requires |initial| == |plan| && k <= |plan| && NoDuplicates(plan) && Ordered(plan)
    ensures FirstAreDirect(sem, plan, TensorsAfter(sem, plan, initial, k), k)
  {
    hide Inside;
    if k > 0 {
      OrderedRunIsDirect(sem, plan, initial, k - 1);
      var before := TensorsAfter(sem, plan, initial, k - 1);
      OperandsAreDirect(sem, plan, before, k - 1, plan[k - 1], |plan[k - 1].operands|);
    }
  }

  /** The results that the queue hands out for the expressions it was given. */
  function Results<V>(sem: Semantics<V>, exprs: seq<Expr>, plan: seq<Expr>, initial: seq<V>): (results: seq<V>)
    requires |initial| == |plan| && forall k :: 0 <= k < |exprs| ==> Cache(exprs[k]) in plan
    ensures |results| == |exprs|
  {
    seq(|exprs|, k requires 0 <= k < |exprs| => TensorsAfter(sem, plan, initial, |plan|)[IndexOf(plan, Cache(exprs[k]))])
  }

  lemma {:induction false} RootsArePlanned(exprs: seq<Expr>)
    ensures var plan := GenerateExecutionCache(exprs);
            NoDuplicates(plan) && forall k :: 0 <= k < |exprs| ==> Cache(exprs[k]) in plan
  {
    var roots := CacheAll(exprs);
    var traces := TraceExpressions(map[], roots);
    PlanContents(traces, roots, |roots|);
    assert roots[..|roots|] == roots;
    forall k | 0 <= k < |exprs| ensures Cache(exprs[k]) in GenerateExecutionCache(exprs) {
      assert roots[k] in roots;
    }
  }

  lemma {:induction false} CacheKeepsValue<V(!new)>(sem: Semantics<V>, e: Expr)
    requires CacheIsIdentity(sem)
    ensures Direct(sem, Cache(e)) == Direct(sem, e)
  {
    if !e.op.cacheable {
      var c := Cache(e);
      assert DirectOperands(sem, c, 0) == [];
      assert DirectOperands(sem, c, 1) == [Direct(sem, e)];
    }
  }

  /** Whenever the roots are in order, running the generated plan gives every expression the value of its direct
      evaluation, for every meaning of the operators and whatever the tensors held before. */
  lemma {:induction false} PlanIsCorrect<V(!new)>(sem: Semantics<V>, exprs: seq<Expr>, initial: seq<V>)
    requires CacheIsIdentity(sem)
    requires |initial| == |GenerateExecutionCache(exprs)|
    requires RootsInOrder(TraceExpressions(map[], CacheAll(exprs)), CacheAll(exprs))
    ensures forall k :: 0 <= k < |exprs| ==> Cache(exprs[k]) in GenerateExecutionCache(exprs)
    ensures forall k :: 0 <= k < |exprs| ==>
      Results(sem, exprs, GenerateExecutionCache(exprs), initial)[k] == Direct(sem, exprs[k])
  {
    hide Inside, TensorsAfter, Direct, Cache, RootsInOrder;
    var roots := CacheAll(exprs);
    var plan := GenerateExecutionCache(exprs);
    RootsArePlanned(exprs);
    OrderedIff(TraceExpressions(map[], roots), roots);
    OrderedRunIsDirect(sem, plan, initial, |plan|);
    forall k | 0 <= k < |exprs| ensures Results(sem, exprs, plan, initial)[k] == Direct(sem, exprs[k]) {
      CacheKeepsValue(sem, exprs[k]);
    }
  }

  // Out of order the plan is wrong

  /** Marks values that come from a tensor before it was written. */
  function Tainted(op: Operator, values: seq<bool>): bool {
    exists i :: 0 <= i < |values| && values[i]
  }

  lemma {:induction false} NothingTainted(e: Expr)
    ensures !Direct(Tainted, e)
    decreases e, |e.operands| + 1
  {
    NoOperandTainted(e, |e.operands|);
  }

  lemma {:induction false} NoOperandTainted(e: Expr, n: nat)
    requires n <= |e.operands|
    ensures forall i :: 0 <= i < n ==> !DirectOperands(Tainted, e, n)[i]
    decreases e, n
  {
    if n > 0 {
      NoOperandTainted(e, n - 1);
      NothingTainted(e.operands[n - 1].expr);
    }
  }

  /** An expression read while a planned expression in it, or itself, has no clean tensor yet. */
  lemma {:induction false} StateTainted(plan: seq<Expr>, tensors: seq<bool>, e: Expr, bad: Expr)
    requires |tensors| == |plan| && Within(bad, e) && bad in plan
    requires forall f :: f in plan && Within(bad, f) && Within(f, e) ==> tensors[IndexOf(plan, f)]
    ensures State(Tainted, plan, tensors, e)
    decreases e, |e.operands| + 1
  {
    if e in plan {
      WithinSelf(e);
    } else {
      WithinSelf(bad);
      var i := OperandTainted(plan, tensors, e, bad, |e.operands|);
      assert StateOperands(Tainted, plan, tensors, e, |e.operands|)[i];
    }
  }

  lemma {:induction false} OperandTainted(plan: seq<Expr>, tensors: seq<bool>, e: Expr, bad: Expr, n: nat) returns (i: nat)
    requires |tensors| == |plan| && n <= |e.operands| && bad in plan
    requires exists j :: 0 <= j < n && Within(bad, e.operands[j].expr)
    requires forall f :: f in plan && Within(bad, f) && Inside(f, e) ==> tensors[IndexOf(plan, f)]
    ensures i < n && StateOperands(Tainted, plan, tensors, e, n)[i]
    decreases e, n
  {
    var f := e.operands[n - 1].expr;
    if Within(bad, f) {
      i := n - 1;
      forall g | g in plan && Within(bad, g) && Within(g, f) ensures tensors[IndexOf(plan, g)] {
        assert Inside(g, e);
      }
      StateTainted(plan, tensors, f, bad);
    } else {
      i := OperandTainted(plan, tensors, e, bad, n - 1);
    }
  }

  /** Every planned expression around one that was read too early is tainted. */
  lemma {:induction false} TaintSpreads(plan: seq<Expr>, initial: seq<bool>, bad: nat, i: nat)
    requires |initial| == |plan| && NoDuplicates(plan) && bad < |plan| && i < |plan|
    requires forall l :: 0 <= l < |plan| ==> initial[l]
    requires Inside(plan[bad], plan[i])
    requires i < bad || ExecuteSingle(Tainted, plan, TensorsAfter(Tainted, plan, initial, bad), plan[bad])
    ensures ExecuteSingle(Tainted, plan, TensorsAfter(Tainted, plan, initial, i), plan[i])
    decreases i
  {
    hide Within, Inside, State, StateOperands;
    var tensors := TensorsAfter(Tainted, plan, initial, i);
    forall f | f in plan && Within(plan[bad], f) && Inside(f, plan[i]) ensures tensors[IndexOf(plan, f)] {
      var l := IndexOf(plan, f);
      WrittenOnce(Tainted, plan, initial, l, i);
      if l < i && l != bad {
        OnlySelf(plan[bad], f);
        UniqueIndex(plan, bad);
        TaintSpreads(plan, initial, bad, l);
      }
    }
    var e := plan[i];
    assert exists j :: 0 <= j < |e.operands| && Within(plan[bad], e.operands[j].expr) by { InsideOperand(plan[bad], e); }
    var j := OperandTainted(plan, tensors, e, plan[bad], |e.operands|);
  }

  lemma OnlySelf(x: Expr, e: Expr)
    requires Within(x, e)
    ensures x == e || Inside(x, e)
  {
  }

  lemma InsideOperand(x: Expr, e: Expr)
    requires Inside(x, e)
    ensures exists j :: 0 <= j < |e.operands| && Within(x, e.operands[j].expr)
  {
  }

  lemma {:induction false} TaintIsKept()
    ensures CacheIsIdentity(Tainted)
  {
    forall x: bool ensures Tainted(CACHE, [x]) == x {
      assert [x][0] == x;
    }
  }

  /** Whenever the roots are not in order, the plan fails: there are meanings of the operators and contents of the
      tensors for which one of the expressions gets a wrong value. */
  lemma {:induction false} OutOfOrderIsWrong(exprs: seq<Expr>, initial: seq<bool>) returns (k: nat)
    requires |initial| == |GenerateExecutionCache(exprs)| && forall l :: 0 <= l < |initial| ==> initial[l]
    requires !RootsInOrder(TraceExpressions(map[], CacheAll(exprs)), CacheAll(exprs))
    ensures CacheIsIdentity(Tainted)
    ensures forall k :: 0 <= k < |exprs| ==> Cache(exprs[k]) in GenerateExecutionCache(exprs)
    ensures k < |exprs| && Results(Tainted, exprs, GenerateExecutionCache(exprs), initial)[k] != Direct(Tainted, exprs[k])
  {
    hide Inside, Within, Cache, RootsInOrder, Tainted, CacheIsIdentity;
    var roots := CacheAll(exprs);
    var traces := TraceExpressions(map[], roots);
    var plan := PlanOf(traces, roots, |roots|);
    assert roots[..|roots|] == roots;
    TaintIsKept();
    RootsArePlanned(exprs);
    OrderedIff(traces, roots);
    var i, j :| 0 <= i < |plan| && 0 <= j < |plan| && Inside(plan[j], plan[i]) && j >= i;
    InsideIsSmaller(plan[j], plan[i]);
    TaintSpreads(plan, initial, j, i);
    k := AddedBy(traces, roots, |roots|, i);
    var l := IndexOf(plan, roots[k]);
    OnlySelf(plan[i], roots[k]);
    if plan[i] == roots[k] {
      UniqueIndex(plan, i);
    } else {
      TaintSpreads(plan, initial, i, l);
    }
    WrittenOnce(Tainted, plan, initial, l, |plan|);
    NothingTainted(exprs[k]);
  }

  // The smallest case: x, and y that uses x once

  function Leaf(x: Operator): Expr {
    Expr(x, [])
  }

  function Over(y: Operator, x: Operator): Expr {
    Expr(y, [Operand(false, Leaf(x))])
  }

  lemma LateTraces(x: Operator, y: Operator)
    requires x.cacheable && y.cacheable
    ensures TraceExpressions(map[], [Over(y, x), Leaf(x)]) == map[Leaf(x) := {[HopAt(Over(y, x), 0)]}]
  {
    var e, f := Leaf(x), Over(y, x);
    var hop := HopAt(f, 0);
    assert TraceExpression(map[], [hop], e) == map[e := {[hop]}] by { assert {} + {[hop]} == {[hop]}; }
    assert TraceOperands(map[], [], f, 1) == map[e := {[hop]}] by { assert [] + [hop] == [hop]; }
    assert FindInOperands(map[], f, 1) == map[] by { assert FindNextExpressionToTrace(map[], e) == map[]; }
    assert [f, e][..1] == [f] && [f][..0] == [];
    assert TraceExpressions(map[], []) == map[];
    assert TraceExpressions(map[], [f]) == map[e := {[hop]}];
    assert FindNextExpressionToTrace(map[e := {[hop]}], e) == map[e := {[hop]}];
  }

  lemma LatePlan(traces: Traces, x: Operator, y: Operator)
    requires x.cacheable && y.cacheable && x != y && Inlined(traces, Leaf(x))
    ensures CacheExpressions(traces, [Over(y, x), Leaf(x)]) == [Over(y, x), Leaf(x)]
  {
    hide Inlined;
    var e, f := Leaf(x), Over(y, x);
    assert [f, e][..1] == [f] && [f][..0] == [];
    assert CacheExpression([], traces, false, e) == [];
    assert CacheOperands([], traces, f, 1) == [];
    assert CacheExpression([], traces, true, f) == [f];
    assert CacheExpressions(traces, []) == [];
    assert CacheExpressions(traces, [f]) == [f];
    assert CacheExpression([f], traces, true, e) == [f, e];
  }

  lemma LateOrder(traces: Traces, x: Operator, y: Operator)
    requires x.cacheable && y.cacheable && x != y && Inlined(traces, Leaf(x))
    ensures !RootsInOrder(traces, [Over(y, x), Leaf(x)])
    ensures forall t: Traces :: RootsInOrder(t, [Leaf(x), Over(y, x)])
  {
    hide Inlined;
    var e, f := Leaf(x), Over(y, x);
    var roots := [f, e];
    WithinSelf(e);
    assert f.operands[0].expr == e;
    assert Inside(roots[1], roots[0]);
    assert roots[1] !in roots[..1];
    assert !Inside(f, e);
  }

  /** When y is asked for before x, the first step reads the tensor of x, which only the second step writes; asked
      for in the other order the roots are in order. */
  lemma LateOperand(x: Operator, y: Operator)
    requires x.cacheable && y.cacheable && !x.complex && x != y
    ensures GenerateExecutionCache([Over(y, x), Leaf(x)]) == [Over(y, x), Leaf(x)]
    ensures !RootsInOrder(TraceExpressions(map[], [Over(y, x), Leaf(x)]), [Over(y, x), Leaf(x)])
    ensures RootsInOrder(TraceExpressions(map[], [Leaf(x), Over(y, x)]), [Leaf(x), Over(y, x)])
  {
    hide TraceExpressions, CacheExpressions, RootsInOrder;
    var roots := [Over(y, x), Leaf(x)];
    assert CacheAll(roots) == roots;
    LateTraces(x, y);
    var hop := HopAt(Over(y, x), 0);
    assert IsNotMultipleAccess([hop]);
    var traces := TraceExpressions(map[], roots);
    assert [hop] in TracesOf(traces, Leaf(x)) && TracesOf(traces, Leaf(x)) == {[hop]};
    LatePlan(traces, x, y);
    LateOrder(traces, x, y);
  }
}
