/** Which sub-expressions of a group of expressions get a tensor of their own, and in which order they are
    computed. */
module Planning {

  /** What is known of an operator: whether a value of it may be kept, and whether it runs as a kernel of its own. */
  datatype Operator = Operator(name: nat, cacheable: bool, complex: bool)

  /** An operand, and whether its elements are accessed more than once. */
  datatype Operand = Operand(multiple: bool, expr: Expr)

  datatype Expr = Expr(op: Operator, operands: seq<Operand>)

  /** The operator that only passes its operand on. */
  const CACHE: Operator := Operator(0, true, false)

  function Cache(e: Expr): (r: Expr)
    ensures r.op.cacheable
  {
    if e.op.cacheable then e else Expr(CACHE, [Operand(false, e)])
  }

  function CacheAll(exprs: seq<Expr>): (roots: seq<Expr>)
    ensures |roots| == |exprs| && forall k :: 0 <= k < |roots| ==> roots[k] == Cache(exprs[k])
    ensures forall r :: r in roots ==> r.op.cacheable
  {
    seq(|exprs|, k requires 0 <= k < |exprs| => Cache(exprs[k]))
  }

  // Sub-expressions

  /** x occurs in e, or is e. */
  ghost predicate Within(x: Expr, e: Expr)
    decreases e, 1
  {
    x == e || Inside(x, e)
  }

  /** x occurs in an operand of e. */
  ghost predicate Inside(x: Expr, e: Expr)
    decreases e, 0
  {
    exists i :: 0 <= i < |e.operands| && Within(x, e.operands[i].expr)
  }

  lemma {:induction false} WithinTransitive(x: Expr, y: Expr, e: Expr)
    requires Within(x, y) && Within(y, e)
    ensures Within(x, e)
    decreases e
  {
    if y != e {
      var i :| 0 <= i < |e.operands| && Within(y, e.operands[i].expr);
      WithinTransitive(x, y, e.operands[i].expr);
    }
  }

  lemma InsideWithin(x: Expr, y: Expr, e: Expr)
    requires Inside(x, y) && Within(y, e)
    ensures Inside(x, e)
  {
    if y != e {
      var i :| 0 <= i < |e.operands| && Within(y, e.operands[i].expr);
      WithinTransitive(x, y, e.operands[i].expr);
    }
  }

  function Depth(e: Expr): nat {
    1 + DepthOfOperands(e, |e.operands|)
  }

  function DepthOfOperands(e: Expr, n: nat): (d: nat)
    requires n <= |e.operands|
    ensures forall i :: 0 <= i < n ==> Depth(e.operands[i].expr) <= d
    decreases e, 0, n
  {
    if n == 0 then 0
    else
      var d, f := DepthOfOperands(e, n - 1), Depth(e.operands[n - 1].expr);
      if d < f then f else d
  }

  /** Nothing is inside itself. */
  lemma {:induction false} InsideIsSmaller(x: Expr, e: Expr)
    ensures Inside(x, e) ==> Depth(x) < Depth(e)
    decreases e
  {
    if Inside(x, e) {
      var i :| 0 <= i < |e.operands| && Within(x, e.operands[i].expr);
      assert Depth(e.operands[i].expr) <= DepthOfOperands(e, |e.operands|);
      InsideIsSmaller(x, e.operands[i].expr);
    }
  }

  // Traces

  /** One step from an expression to an operand. */
  datatype Hop = Hop(expr: Expr, multiple: bool, index: nat)

  type Trace = seq<Hop>

  type Traces = map<Expr, set<Trace>>

  function TracesOf(traces: Traces, x: Expr): set<Trace> {
    if x in traces then traces[x] else {}
  }

  function HopAt(e: Expr, i: nat): Hop
    requires i < |e.operands|
  {
    Hop(e, e.operands[i].multiple, i)
  }

  /** Follows an expression down to the first expressions that may be kept, and notes how it got there. */
  function TraceExpression(traces: Traces, trace: Trace, e: Expr): Traces
    decreases e, |e.operands| + 1
  {
    if e.op.cacheable then
      traces[e := TracesOf(traces, e) + {trace}]
    else
      TraceOperands(traces, trace, e, |e.operands|)
  }

  function TraceOperands(traces: Traces, trace: Trace, e: Expr, n: nat): Traces
    requires n <= |e.operands|
    decreases e, n
  {
    if n == 0 then traces
    else TraceExpression(TraceOperands(traces, trace, e, n - 1), trace + [HopAt(e, n - 1)], e.operands[n - 1].expr)
  }

  /** Finds every expression that may be kept and traces its operands. */
  function FindNextExpressionToTrace(traces: Traces, e: Expr): Traces
    decreases e, |e.operands| + 1
  {
    var below := FindInOperands(traces, e, |e.operands|);
    if e.op.cacheable then TraceOperands(below, [], e, |e.operands|) else below
  }

  function FindInOperands(traces: Traces, e: Expr, n: nat): Traces
    requires n <= |e.operands|
    decreases e, n
  {
    if n == 0 then traces
    else FindNextExpressionToTrace(FindInOperands(traces, e, n - 1), e.operands[n - 1].expr)
  }

  function TraceExpressions(traces: Traces, roots: seq<Expr>): Traces {
    if roots == [] then traces
    else FindNextExpressionToTrace(TraceExpressions(traces, roots[..|roots| - 1]), roots[|roots| - 1])
  }

  // What the traces mean

  /** A way from e down to x, past expressions that cannot be kept. */
  ghost predicate Way(e: Expr, x: Expr, way: Trace)
    decreases e
  {
    if e.op.cacheable then
      way == [] && x == e
    else
      way != [] && way[0].index < |e.operands| && way[0] == HopAt(e, way[0].index)
      && Way(e.operands[way[0].index].expr, x, way[1..])
  }

  /** A way from an operand of e down to x. */
  ghost predicate Use(e: Expr, x: Expr, way: Trace) {
    way != [] && way[0].index < |e.operands| && way[0] == HopAt(e, way[0].index)
    && Way(e.operands[way[0].index].expr, x, way[1..])
  }

  lemma {:induction false} TraceMeaning(traces: Traces, trace: Trace, e: Expr, x: Expr, t: Trace)
    ensures t in TracesOf(TraceExpression(traces, trace, e), x)
       <==> t in TracesOf(traces, x) || (trace <= t && Way(e, x, t[|trace|..]))
    decreases e, |e.operands| + 1
  {
    if e.op.cacheable {
      if trace <= t && t[|trace|..] == [] {
        assert t == trace;
      }
    } else {
      TraceOperandsMeaning(traces, trace, e, |e.operands|, x, t);
    }
  }

  // Ways that start with one of the first n operands
  ghost predicate UseBelow(e: Expr, x: Expr, way: Trace, n: nat) {
    Use(e, x, way) && way[0].index < n
  }

  lemma {:induction false} TraceOperandsMeaning(traces: Traces, trace: Trace, e: Expr, n: nat, x: Expr, t: Trace)
    requires n <= |e.operands|
    ensures t in TracesOf(TraceOperands(traces, trace, e, n), x)
       <==> t in TracesOf(traces, x) || (trace <= t && UseBelow(e, x, t[|trace|..], n))
    decreases e, n
  {
    if n > 0 {
      TraceOperandsMeaning(traces, trace, e, n - 1, x, t);
      var longer := trace + [HopAt(e, n - 1)];
      TraceMeaning(TraceOperands(traces, trace, e, n - 1), longer, e.operands[n - 1].expr, x, t);
      if trace <= t && UseBelow(e, x, t[|trace|..], n) && t[|trace|].index == n - 1 {
        assert t[|trace|..][1..] == t[|longer|..];
        assert t == trace + [t[|trace|]] + t[|longer|..];
      }
      if longer <= t && Way(e.operands[n - 1].expr, x, t[|longer|..]) {
        assert t[|trace|] == longer[|trace|];
        assert t[|trace|..][1..] == t[|longer|..];
        assert trace == longer[..|trace|];
      }
    }
  }

  /** x is used from an expression that may be kept. */
  ghost predicate UsedIn(root: Expr, x: Expr, t: Trace) {
    exists e :: Within(e, root) && e.op.cacheable && Use(e, x, t)
  }

  lemma {:induction false} FindMeaning(traces: Traces, e: Expr, x: Expr, t: Trace)
    ensures t in TracesOf(FindNextExpressionToTrace(traces, e), x) <==> t in TracesOf(traces, x) || UsedIn(e, x, t)
    decreases e, |e.operands| + 1
  {
    FindInOperandsMeaning(traces, e, |e.operands|, x, t);
    var below := FindInOperands(traces, e, |e.operands|);
    if e.op.cacheable {
      TraceOperandsMeaning(below, [], e, |e.operands|, x, t);
      assert t[0..] == t;
    }
    UsedInSplit(e, x, t);
  }

  ghost predicate UsedInOperands(e: Expr, x: Expr, t: Trace, n: nat)
    requires n <= |e.operands|
  {
    exists i :: 0 <= i < n && UsedIn(e.operands[i].expr, x, t)
  }

  lemma {:induction false} FindInOperandsMeaning(traces: Traces, e: Expr, n: nat, x: Expr, t: Trace)
    requires n <= |e.operands|
    ensures t in TracesOf(FindInOperands(traces, e, n), x) <==> t in TracesOf(traces, x) || UsedInOperands(e, x, t, n)
    decreases e, n
  {
    hide UsedIn;
    if n > 0 {
      FindInOperandsMeaning(traces, e, n - 1, x, t);
      FindMeaning(FindInOperands(traces, e, n - 1), e.operands[n - 1].expr, x, t);
    }
  }

  lemma {:induction false} UsedInSplit(e: Expr, x: Expr, t: Trace)
    ensures UsedIn(e, x, t) <==> UsedInOperands(e, x, t, |e.operands|) || (e.op.cacheable && Use(e, x, t))
  {
    if UsedIn(e, x, t) {
      var f :| Within(f, e) && f.op.cacheable && Use(f, x, t);
      if f != e {
        assert Inside(f, e);
        var i :| 0 <= i < |e.operands| && Within(f, e.operands[i].expr);
        assert UsedIn(e.operands[i].expr, x, t);
      }
    }
    if UsedInOperands(e, x, t, |e.operands|) {
      var i :| 0 <= i < |e.operands| && UsedIn(e.operands[i].expr, x, t);
      var f :| Within(f, e.operands[i].expr) && f.op.cacheable && Use(f, x, t);
      assert Within(f, e);
    }
    if e.op.cacheable && Use(e, x, t) {
      assert Within(e, e);
    }
  }

  /** The traces of an expression are exactly its uses by expressions that may be kept. */
  lemma {:induction false} TracesAreUses(roots: seq<Expr>, x: Expr, t: Trace)
    ensures t in TracesOf(TraceExpressions(map[], roots), x) <==> exists k :: 0 <= k < |roots| && UsedIn(roots[k], x, t)
  {
    hide UsedIn;
    if roots != [] {
      var before, last := roots[..|roots| - 1], roots[|roots| - 1];
      TracesAreUses(before, x, t);
      FindMeaning(TraceExpressions(map[], before), last, x, t);
      if exists k :: 0 <= k < |before| && UsedIn(before[k], x, t) {
        var k :| 0 <= k < |before| && UsedIn(before[k], x, t);
        assert roots[k] == before[k];
      }
    }
  }

  // The plan

  predicate IsNotMultipleAccess(t: Trace) {
    forall i :: 0 <= i < |t| ==> !t[i].multiple
  }

  /** The expression is computed where it is used: there is one use, which takes every element once. */
  predicate Inlined(traces: Traces, e: Expr) {
    !e.op.complex && exists t :: t in TracesOf(traces, e) && TracesOf(traces, e) == {t} && IsNotMultipleAccess(t)
  }

  ghost predicate UsedBySome(roots: seq<Expr>, x: Expr, t: Trace) {
    exists k :: 0 <= k < |roots| && UsedIn(roots[k], x, t)
  }

  /** The operand indices lead from the first expression of the chain, which may be kept, past expressions that may not, to
      its last, which may. */
  ghost predicate Chain(chain: seq<Expr>, path: seq<nat>) {
    && |path| >= 1 && |chain| == |path| + 1
    && chain[0].op.cacheable && chain[|path|].op.cacheable
    && (forall i :: 1 <= i < |path| ==> !chain[i].op.cacheable)
    && forall i :: 0 <= i < |path| ==> path[i] < |chain[i].operands| && chain[i + 1] == chain[i].operands[path[i]].expr
  }

  /** The chain starts at an expression that occurs in one of the roots and ends at x. */
  ghost predicate UsedAlong(roots: seq<Expr>, x: Expr, chain: seq<Expr>, path: seq<nat>) {
    Chain(chain, path) && chain[|path|] == x && WithinSome(chain[0], roots)
  }

  // The trace that notes the chain, with the flags of the operands.
  function TraceOf(chain: seq<Expr>, path: seq<nat>): Trace
    requires |chain| == |path| + 1 && forall i :: 0 <= i < |path| ==> path[i] < |chain[i].operands|
  {
    seq(|path|, i requires 0 <= i < |path| => Hop(chain[i], chain[i].operands[path[i]].multiple, path[i]))
  }

  // A chain below an operand; it may start with an expression that may not be kept.
  ghost predicate Tail(chain: seq<Expr>, path: seq<nat>) {
    && |chain| == |path| + 1 && chain[|path|].op.cacheable
    && (forall i :: 0 <= i < |path| ==> !chain[i].op.cacheable)
    && forall i :: 0 <= i < |path| ==> path[i] < |chain[i].operands| && chain[i + 1] == chain[i].operands[path[i]].expr
  }

  lemma {:induction false} TailIsWay(chain: seq<Expr>, path: seq<nat>)
    requires Tail(chain, path)
    ensures Way(chain[0], chain[|path|], TraceOf(chain, path))
    decreases |path|
  {
    if path != [] {
      TailIsWay(chain[1..], path[1..]);
      assert TraceOf(chain, path)[1..] == TraceOf(chain[1..], path[1..]);
    }
  }

  lemma {:induction false} WayIsTail(e: Expr, x: Expr, way: Trace) returns (chain: seq<Expr>, path: seq<nat>)
    requires Way(e, x, way)
    ensures Tail(chain, path) && chain[0] == e && chain[|path|] == x && way == TraceOf(chain, path)
    decreases e
  {
    if e.op.cacheable {
      chain, path := [e], [];
    } else {
      var below, rest := WayIsTail(e.operands[way[0].index].expr, x, way[1..]);
      chain, path := [e] + below, [way[0].index] + rest;
      assert way == [way[0]] + way[1..];
    }
  }

  lemma ChainIsUse(chain: seq<Expr>, path: seq<nat>)
    requires Chain(chain, path)
    ensures Use(chain[0], chain[|path|], TraceOf(chain, path))
  {
    TailIsWay(chain[1..], path[1..]);
    assert TraceOf(chain, path)[1..] == TraceOf(chain[1..], path[1..]);
  }

  lemma UseIsChain(e: Expr, x: Expr, t: Trace) returns (chain: seq<Expr>, path: seq<nat>)
    requires e.op.cacheable && Use(e, x, t)
    ensures Chain(chain, path) && chain[0] == e && chain[|path|] == x && t == TraceOf(chain, path)
  {
    var below, rest := WayIsTail(e.operands[t[0].index].expr, x, t[1..]);
    chain, path := [e] + below, [t[0].index] + rest;
    assert t == [t[0]] + t[1..];
  }

  lemma {:induction false} UsesAreChains(roots: seq<Expr>, x: Expr, t: Trace)
    ensures UsedBySome(roots, x, t) <==> exists chain, path :: UsedAlong(roots, x, chain, path) && t == TraceOf(chain, path)
  {
    hide Within, Way, Use;
    if UsedBySome(roots, x, t) {
      var k :| 0 <= k < |roots| && UsedIn(roots[k], x, t);
      var e :| Within(e, roots[k]) && e.op.cacheable && Use(e, x, t);
      var chain, path := UseIsChain(e, x, t);
      assert UsedAlong(roots, x, chain, path);
    }
    if chain: seq<Expr>, path: seq<nat> :| UsedAlong(roots, x, chain, path) && t == TraceOf(chain, path) {
      var k :| 0 <= k < |roots| && Within(chain[0], roots[k]);
      assert chain[0].op.cacheable by { ChainStarts(chain, path); }
      ChainIsUse(chain, path);
      assert UsedIn(roots[k], x, t);
    }
  }

  lemma ChainStarts(chain: seq<Expr>, path: seq<nat>)
    requires Chain(chain, path)
    ensures chain[0].op.cacheable && |path| >= 1
  {
  }

  // A trace has one chain.
  lemma TraceDetermines(chain: seq<Expr>, path: seq<nat>, other: seq<Expr>, way: seq<nat>)
    requires Chain(chain, path) && Chain(other, way) && TraceOf(chain, path) == TraceOf(other, way)
    requires chain[|path|] == other[|way|]
    ensures chain == other && path == way
  {
    var t, u := TraceOf(chain, path), TraceOf(other, way);
    assert |path| == |t| == |way|;
    forall i | 0 <= i < |path| ensures chain[i] == other[i] && path[i] == way[i] {
      assert t[i] == u[i];
    }
  }

  /** There is one way along which x is used, and no operand on it is accessed more than once. */
  ghost predicate UsedOnce(roots: seq<Expr>, x: Expr) {
    exists chain: seq<Expr>, path: seq<nat> ::
      && UsedAlong(roots, x, chain, path)
      && (forall i :: 0 <= i < |path| ==> path[i] < |chain[i].operands| && !chain[i].operands[path[i]].multiple)
      && forall other, way :: UsedAlong(roots, x, other, way) ==> other == chain && way == path
  }

  // The traces of x are those of the ways along which it is used.
  ghost predicate TracesOfChains(roots: seq<Expr>, x: Expr, uses: set<Trace>) {
    && (forall t :: t in uses ==> TraceOfUse(roots, x, t))
    && forall chain, path :: UsedAlong(roots, x, chain, path) ==> TraceOf(chain, path) in uses
  }

  ghost predicate TraceOfUse(roots: seq<Expr>, x: Expr, t: Trace) {
    exists chain, path :: UsedAlong(roots, x, chain, path) && t == TraceOf(chain, path)
  }

  lemma UsedAlongIsChain(roots: seq<Expr>, x: Expr, chain: seq<Expr>, path: seq<nat>)
    requires UsedAlong(roots, x, chain, path)
    ensures Chain(chain, path) && chain[|path|] == x
    ensures forall i :: 0 <= i < |path| ==> path[i] < |chain[i].operands| && TraceOf(chain, path)[i].multiple == chain[i].operands[path[i]].multiple
  {
  }

  lemma OneChain(roots: seq<Expr>, x: Expr, uses: set<Trace>, t: Trace)
    requires TracesOfChains(roots, x, uses) && uses == {t} && IsNotMultipleAccess(t)
    ensures UsedOnce(roots, x)
  {
    hide WithinSome, TraceOf;
    assert TraceOfUse(roots, x, t);
    var chain: seq<Expr>, path: seq<nat> :| UsedAlong(roots, x, chain, path) && t == TraceOf(chain, path);
    UsedAlongIsChain(roots, x, chain, path);
    TraceLength(chain, path);
    forall i | 0 <= i < |path| ensures path[i] < |chain[i].operands| && !chain[i].operands[path[i]].multiple {
      assert !t[i].multiple;
    }
    forall other, way | UsedAlong(roots, x, other, way) ensures other == chain && way == path {
      UsedAlongIsChain(roots, x, other, way);
      assert TraceOf(other, way) in uses;
      TraceDetermines(other, way, chain, path);
    }
  }

  lemma OneTrace(roots: seq<Expr>, x: Expr, uses: set<Trace>)
    requires TracesOfChains(roots, x, uses) && UsedOnce(roots, x)
    ensures exists t :: t in uses && uses == {t} && IsNotMultipleAccess(t)
  {
    hide WithinSome, TraceOf;
    var chain: seq<Expr>, path: seq<nat> :|
      && UsedAlong(roots, x, chain, path)
      && (forall i :: 0 <= i < |path| ==> path[i] < |chain[i].operands| && !chain[i].operands[path[i]].multiple)
      && forall other, way :: UsedAlong(roots, x, other, way) ==> other == chain && way == path;
    UsedAlongIsChain(roots, x, chain, path);
    var t := TraceOf(chain, path);
    assert t in uses;
    forall u | u in uses ensures u == t {
      var other, way :| UsedAlong(roots, x, other, way) && u == TraceOf(other, way);
    }
    assert |t| == |path| by { TraceLength(chain, path); }
    assert uses == {t};
  }

  lemma TraceLength(chain: seq<Expr>, path: seq<nat>)
    requires Chain(chain, path)
    ensures |TraceOf(chain, path)| == |path|
  {
  }

  /** An expression is computed in place if and only if it is used in exactly one place, counting every place of an
      expression that may be kept once, and no operand on the way there is accessed more than once. */
  lemma {:induction false} InlinedMeansOneUse(roots: seq<Expr>, x: Expr)
    ensures Inlined(TraceExpressions(map[], roots), x) <==> !x.op.complex && UsedOnce(roots, x)
  {
    hide TracesOfChains, IsNotMultipleAccess, UsedOnce;
    var uses := TracesOf(TraceExpressions(map[], roots), x);
    TracesAreChains(roots, x);
    if Inlined(TraceExpressions(map[], roots), x) {
      var t :| t in uses && uses == {t} && IsNotMultipleAccess(t);
      OneChain(roots, x, uses, t);
    }
    if UsedOnce(roots, x) {
      OneTrace(roots, x, uses);
    }
  }

  lemma {:induction false} TracesAreChains(roots: seq<Expr>, x: Expr)
    ensures TracesOfChains(roots, x, TracesOf(TraceExpressions(map[], roots), x))
  {
    hide UsedIn, WithinSome, TraceOf;
    var uses := TracesOf(TraceExpressions(map[], roots), x);
    forall t ensures t in uses <==> TraceOfUse(roots, x, t) {
      TracesAreUses(roots, x, t);
      UsesAreChains(roots, x, t);
    }
    forall chain, path | UsedAlong(roots, x, chain, path) ensures TraceOf(chain, path) in uses {
      assert TraceOfUse(roots, x, TraceOf(chain, path));
    }
  }

  function Insert(plan: seq<Expr>, e: Expr): seq<Expr> {
    if e in plan then plan else plan + [e]
  }

  function CacheExpression(plan: seq<Expr>, traces: Traces, topLevel: bool, e: Expr): seq<Expr>
    requires topLevel ==> e.op.cacheable
    decreases e, |e.operands| + 1
  {
    var below := CacheOperands(plan, traces, e, |e.operands|);
    if e.op.cacheable then
      if topLevel then Insert(below, e)
      else if Inlined(traces, e) then below
      else Insert(below, e)
    else
      below
  }

  function CacheOperands(plan: seq<Expr>, traces: Traces, e: Expr, n: nat): seq<Expr>
    requires n <= |e.operands|
    decreases e, n
  {
    if n == 0 then plan
    else CacheExpression(CacheOperands(plan, traces, e, n - 1), traces, false, e.operands[n - 1].expr)
  }

  function CacheExpressions(traces: Traces, roots: seq<Expr>): seq<Expr>
    requires forall r :: r in roots ==> r.op.cacheable
  {
    if roots == [] then []
    else CacheExpression(CacheExpressions(traces, roots[..|roots| - 1]), traces, true, roots[|roots| - 1])
  }

  function GenerateExecutionCache(exprs: seq<Expr>): seq<Expr> {
    CacheExpressions(TraceExpressions(map[], CacheAll(exprs)), CacheAll(exprs))
  }

  // The order of the plan

  ghost predicate NoDuplicates(plan: seq<Expr>) {
    forall i, j :: 0 <= i < j < |plan| ==> plan[i] != plan[j]
  }

  /** An expression that gets a tensor wherever it occurs. */
  predicate Stored(traces: Traces, e: Expr) {
    e.op.cacheable && !Inlined(traces, e)
  }

  /** Everything stored that occurs in a planned expression is planned before it. */
  ghost predicate Closed(traces: Traces, plan: seq<Expr>) {
    forall i, x :: 0 <= i < |plan| && Inside(x, plan[i]) && Stored(traces, x) ==> x in plan[..i]
  }

  ghost predicate Sound(traces: Traces, plan: seq<Expr>) {
    NoDuplicates(plan) && Closed(traces, plan) && forall x :: x in plan ==> x.op.cacheable
  }

  lemma InsertSound(traces: Traces, plan: seq<Expr>, e: Expr)
    requires Sound(traces, plan) && e.op.cacheable
    requires forall x :: Inside(x, e) && Stored(traces, x) ==> x in plan
    ensures Sound(traces, Insert(plan, e)) && plan <= Insert(plan, e)
    ensures forall x :: x in Insert(plan, e) <==> x in plan || x == e
  {
    hide Inside, Stored;
    var next := Insert(plan, e);
    forall i, x | 0 <= i < |next| && Inside(x, next[i]) && Stored(traces, x) ensures x in next[..i] {
      if i < |plan| {
        assert next[i] == plan[i];
        assert next[..i] == plan[..i];
      } else {
        assert next[..i] == plan;
      }
    }
  }

  /** What handling an expression adds to the plan: the stored expressions in it, and itself when it is a root. */
  ghost predicate Adds(traces: Traces, plan: seq<Expr>, next: seq<Expr>, e: Expr, topLevel: bool) {
    && plan <= next
    && forall x :: x in next <==> x in plan || (Within(x, e) && Stored(traces, x)) || (topLevel && x == e)
  }

  ghost predicate AddsBelow(traces: Traces, plan: seq<Expr>, next: seq<Expr>, e: Expr, n: nat) {
    && plan <= next
    && forall x :: x in next <==> x in plan || (InsideFirst(x, e, n) && Stored(traces, x))
  }

  ghost predicate InsideFirst(x: Expr, e: Expr, n: nat) {
    exists i :: 0 <= i < n && i < |e.operands| && Within(x, e.operands[i].expr)
  }

  lemma {:induction false} CacheExpressionAdds(plan: seq<Expr>, traces: Traces, topLevel: bool, e: Expr)
    requires Sound(traces, plan) && (topLevel ==> e.op.cacheable)
    ensures Sound(traces, CacheExpression(plan, traces, topLevel, e))
    ensures Adds(traces, plan, CacheExpression(plan, traces, topLevel, e), e, topLevel)
    decreases e, |e.operands| + 1
  {
    hide Sound, Inlined;
    CacheOperandsAdds(plan, traces, e, |e.operands|);
    var below := CacheOperands(plan, traces, e, |e.operands|);
    forall x ensures InsideFirst(x, e, |e.operands|) <==> Inside(x, e) {
    }
    if e.op.cacheable {
      InsertSound(traces, below, e);
    }
  }

  lemma {:induction false} CacheOperandsAdds(plan: seq<Expr>, traces: Traces, e: Expr, n: nat)
    requires Sound(traces, plan) && n <= |e.operands|
    ensures Sound(traces, CacheOperands(plan, traces, e, n))
    ensures AddsBelow(traces, plan, CacheOperands(plan, traces, e, n), e, n)
    decreases e, n
  {
    hide Sound, Within, Stored;
    if n > 0 {
      CacheOperandsAdds(plan, traces, e, n - 1);
      var before := CacheOperands(plan, traces, e, n - 1);
      CacheExpressionAdds(before, traces, false, e.operands[n - 1].expr);
      forall x ensures InsideFirst(x, e, n) <==> InsideFirst(x, e, n - 1) || Within(x, e.operands[n - 1].expr) {
        if InsideFirst(x, e, n) && !InsideFirst(x, e, n - 1) {
          var i :| 0 <= i < n && i < |e.operands| && Within(x, e.operands[i].expr);
        }
      }
    }
  }

  /** The plan of the first k roots. */
  function PlanOf(traces: Traces, roots: seq<Expr>, k: nat): seq<Expr>
    requires (forall r :: r in roots ==> r.op.cacheable) && k <= |roots|
  {
    CacheExpressions(traces, roots[..k])
  }

  lemma {:induction false} PlanStep(traces: Traces, roots: seq<Expr>, k: nat)
    requires (forall r :: r in roots ==> r.op.cacheable) && k < |roots|
    requires Sound(traces, PlanOf(traces, roots, k))
    ensures Sound(traces, PlanOf(traces, roots, k + 1))
    ensures Adds(traces, PlanOf(traces, roots, k), PlanOf(traces, roots, k + 1), roots[k], true)
  {
    assert roots[..k + 1][..k] == roots[..k];
    assert roots[k] in roots;
    CacheExpressionAdds(PlanOf(traces, roots, k), traces, true, roots[k]);
  }

  ghost predicate WithinSome(x: Expr, roots: seq<Expr>) {
    exists j :: 0 <= j < |roots| && Within(x, roots[j])
  }

  lemma WithinOneMore(x: Expr, roots: seq<Expr>, r: Expr)
    ensures WithinSome(x, roots + [r]) <==> WithinSome(x, roots) || Within(x, r)
  {
    hide Within;
    var all := roots + [r];
    if WithinSome(x, roots) {
      var j :| 0 <= j < |roots| && Within(x, roots[j]);
      assert all[j] == roots[j];
    }
    if Within(x, r) {
      assert all[|roots|] == r;
    }
  }

  /** The plan holds nothing twice, every stored expression stands after the stored expressions in it, every root
      is planned, and so is every other stored expression that occurs, and nothing else. */
  lemma {:induction false} PlanContents(traces: Traces, roots: seq<Expr>, k: nat)
    requires (forall r :: r in roots ==> r.op.cacheable) && k <= |roots|
    ensures Sound(traces, PlanOf(traces, roots, k))
    ensures forall x :: x in PlanOf(traces, roots, k) <==> x in roots[..k] || (Stored(traces, x) && WithinSome(x, roots[..k]))
  {
    hide Within, Stored, Sound;
    if k == 0 {
      assert Sound(traces, []) by { EmptySound(traces); }
    } else {
      PlanContents(traces, roots, k - 1);
      PlanStep(traces, roots, k - 1);
      assert roots[..k] == roots[..k - 1] + [roots[k - 1]];
      forall x ensures WithinSome(x, roots[..k]) <==> WithinSome(x, roots[..k - 1]) || Within(x, roots[k - 1]) {
        WithinOneMore(x, roots[..k - 1], roots[k - 1]);
      }
    }
  }

  lemma EmptySound(traces: Traces)
    ensures Sound(traces, [])
  {
  }

  lemma {:induction false} PlanGrows(traces: Traces, roots: seq<Expr>, j: nat, k: nat)
    requires (forall r :: r in roots ==> r.op.cacheable) && j <= k <= |roots|
    ensures PlanOf(traces, roots, j) <= PlanOf(traces, roots, k)
  {
    hide Sound;
    if j < k {
      PlanGrows(traces, roots, j, k - 1);
      PlanContents(traces, roots, k - 1);
      PlanStep(traces, roots, k - 1);
    }
  }

  /** An expression that runs as a kernel of its own always gets a tensor, provided it may be kept at all. */
  lemma {:induction false} ComplexIsPlanned(exprs: seq<Expr>, k: nat, x: Expr)
    requires k < |exprs| && Within(x, exprs[k]) && x.op.complex && x.op.cacheable
    ensures x in GenerateExecutionCache(exprs)
  {
    var roots := CacheAll(exprs);
    var traces := TraceExpressions(map[], roots);
    PlanContents(traces, roots, |roots|);
    assert roots[..|roots|] == roots;
    if !exprs[k].op.cacheable {
      assert roots[k].operands[0].expr == exprs[k];
      assert Inside(x, roots[k]);
    }
    assert Within(x, roots[k]);
  }

  /** What is planned: the expressions asked for, with a cache around those that may not be kept, and of everything that
      occurs in them and may be kept all that is complex or is not used exactly once, element by element. */
  lemma {:induction false} PlannedIff(exprs: seq<Expr>, x: Expr)
    ensures x in GenerateExecutionCache(exprs)
       <==> || (exists k :: 0 <= k < |exprs| && x == if exprs[k].op.cacheable then exprs[k] else Expr(CACHE, [Operand(false, exprs[k])]))
            || (x.op.cacheable && WithinSome(x, CacheAll(exprs)) && (x.op.complex || !UsedOnce(CacheAll(exprs), x)))
  {
    hide UsedOnce, WithinSome, Inlined;
    var roots := CacheAll(exprs);
    PlanContents(TraceExpressions(map[], roots), roots, |roots|);
    assert roots[..|roots|] == roots;
    InlinedMeansOneUse(roots, x);
    assert x in roots <==> exists k :: 0 <= k < |exprs| && x == Cache(exprs[k]);
  }

  // The chain down to an operand of y, from the nearest expression above y that may be kept, or from e.
  lemma {:induction false} ChainDown(e: Expr, y: Expr, i: nat) returns (chain: seq<Expr>, path: seq<nat>)
    requires Within(y, e) && i < |y.operands|
    ensures |path| >= 1 && |chain| == |path| + 1
    ensures chain[|path| - 1] == y && path[|path| - 1] == i
    ensures forall j :: 1 <= j < |path| ==> !chain[j].op.cacheable
    ensures forall j :: 0 <= j < |path| ==> path[j] < |chain[j].operands| && chain[j + 1] == chain[j].operands[path[j]].expr
    ensures if chain[0].op.cacheable then Within(chain[0], e) else chain[0] == e
    decreases e
  {
    if y == e {
      chain, path := [y, y.operands[i].expr], [i];
    } else {
      var l :| 0 <= l < |e.operands| && Within(y, e.operands[l].expr);
      chain, path := ChainDown(e.operands[l].expr, y, i);
      if chain[0].op.cacheable {
        assert Inside(chain[0], e);
      } else {
        chain, path := [e] + chain, [l] + path;
        WithinSelf(e);
      }
    }
  }

  lemma CachedWithin(exprs: seq<Expr>, k: nat, y: Expr)
    requires k < |exprs| && Within(y, exprs[k])
    ensures Within(y, CacheAll(exprs)[k])
  {
    var root := CacheAll(exprs)[k];
    if !exprs[k].op.cacheable {
      assert root.operands[0].expr == exprs[k];
      assert Inside(y, root);
    }
  }

  /** An operand that is accessed more than once always gets a tensor, if it may be kept. */
  lemma {:induction false} MultipleIsPlanned(exprs: seq<Expr>, k: nat, y: Expr, i: nat)
    requires k < |exprs| && Within(y, exprs[k]) && i < |y.operands|
    requires y.operands[i].multiple && y.operands[i].expr.op.cacheable
    ensures y.operands[i].expr in GenerateExecutionCache(exprs)
  {
    hide Within, Inside, GenerateExecutionCache, CacheAll, Cache;
    var roots, x := CacheAll(exprs), y.operands[i].expr;
    CachedWithin(exprs, k, y);
    assert roots[k] in roots;
    var chain, path := ChainDown(roots[k], y, i);
    assert Chain(chain, path);
    WithinRoot(roots, k, chain[0]);
    assert UsedAlong(roots, x, chain, path);
    OperandWithin(y, i);
    WithinTransitive(x, y, roots[k]);
    WithinRoot(roots, k, x);
    PlannedIff(exprs, x);
  }

  lemma OperandWithin(y: Expr, i: nat)
    requires i < |y.operands|
    ensures Within(y.operands[i].expr, y)
  {
    WithinSelf(y.operands[i].expr);
    assert Inside(y.operands[i].expr, y);
  }

  lemma WithinRoot(roots: seq<Expr>, k: nat, x: Expr)
    requires k < |roots| && Within(x, roots[k])
    ensures WithinSome(x, roots)
  {
  }

  /** Every planned expression stands after all planned expressions that occur in it. */
  ghost predicate Ordered(plan: seq<Expr>) {
    forall i, j :: 0 <= i < |plan| && 0 <= j < |plan| && Inside(plan[j], plan[i]) ==> j < i
  }

  /** No root that is computed where it is used occurs in a root that comes before its first appearance. */
  ghost predicate RootsInOrder(traces: Traces, roots: seq<Expr>) {
    forall i, j :: 0 <= i < j < |roots| && Inside(roots[j], roots[i]) && roots[j] !in roots[..i + 1] ==> !Inlined(traces, roots[j])
  }

  lemma WithinSelf(x: Expr)
    ensures Within(x, x)
  {
  }

  // The root whose turn it was when a plan entry was added
  lemma {:induction false} AddedBy(traces: Traces, roots: seq<Expr>, k: nat, i: nat) returns (r: nat)
    requires (forall r :: r in roots ==> r.op.cacheable) && k <= |roots|
    requires i < |PlanOf(traces, roots, k)|
    ensures r < k && |PlanOf(traces, roots, r)| <= i < |PlanOf(traces, roots, r + 1)|
    ensures PlanOf(traces, roots, r + 1) <= PlanOf(traces, roots, k)
    ensures Within(PlanOf(traces, roots, k)[i], roots[r])
  {
    hide Sound, Stored, Within, Inlined, WithinSome;
    if k > 0 {
      PlanContents(traces, roots, k - 1);
      PlanStep(traces, roots, k - 1);
      var before, after := PlanOf(traces, roots, k - 1), PlanOf(traces, roots, k);
      if i < |before| {
        r := AddedBy(traces, roots, k - 1, i);
      } else {
        r := k - 1;
        NotBefore(traces, before, after, i);
        WithinSelf(roots[r]);
      }
    }
  }

  lemma NotBefore(traces: Traces, before: seq<Expr>, after: seq<Expr>, i: nat)
    requires before <= after && |before| <= i < |after| && Sound(traces, after)
    ensures after[i] !in before
  {
  }

  /** The plan is in order if and only if the roots are. */
  lemma {:induction false} OrderedIff(traces: Traces, roots: seq<Expr>)
    requires forall r :: r in roots ==> r.op.cacheable
    ensures Ordered(CacheExpressions(traces, roots)) <==> RootsInOrder(traces, roots)
  {
    var plan := PlanOf(traces, roots, |roots|);
    assert roots[..|roots|] == roots;
    PlanContents(traces, roots, |roots|);
    if RootsInOrder(traces, roots) {
      forall i, j | 0 <= i < |plan| && 0 <= j < |plan| && Inside(plan[j], plan[i]) ensures j < i {
        RootsOrderPlan(traces, roots, i, j);
      }
    } else {
      var i, j :| 0 <= i < j < |roots| && Inside(roots[j], roots[i]) && roots[j] !in roots[..i + 1] && Inlined(traces, roots[j]);
      LateRoot(traces, roots, i, j);
    }
  }

  lemma {:induction false} RootsOrderPlan(traces: Traces, roots: seq<Expr>, i: nat, j: nat)
    requires (forall r :: r in roots ==> r.op.cacheable) && RootsInOrder(traces, roots)
    requires var plan := PlanOf(traces, roots, |roots|); i < |plan| && j < |plan| && Inside(plan[j], plan[i])
    ensures j < i
  {
    hide Inlined, Inside, Within, RootsInOrder;
    var plan := PlanOf(traces, roots, |roots|);
    PlanContents(traces, roots, |roots|);
    assert plan[j] in plan && plan[j].op.cacheable;
    if Stored(traces, plan[j]) {
      var l :| 0 <= l < i && plan[..i][l] == plan[j];
      assert plan[l] == plan[j];
    } else {
      InlinedRootFirst(traces, roots, i, j);
    }
  }

  lemma {:induction false} RootEarlier(traces: Traces, roots: seq<Expr>, r: nat, x: Expr)
    requires RootsInOrder(traces, roots) && r < |roots|
    requires x in roots && Inlined(traces, x) && Inside(x, roots[r])
    ensures x in roots[..r]
  {
    hide Inlined, Inside, Depth;
    InsideIsSmaller(x, roots[r]);
    assert roots[..r + 1] == roots[..r] + [roots[r]];
  }

  // A planned expression that is not stored is a root; it was planned before the turn of a root that it occurs in.
  lemma {:induction false} InlinedRootFirst(traces: Traces, roots: seq<Expr>, i: nat, j: nat)
    requires (forall r :: r in roots ==> r.op.cacheable) && RootsInOrder(traces, roots)
    requires var plan := PlanOf(traces, roots, |roots|); i < |plan| && j < |plan| && Inside(plan[j], plan[i])
    requires Inlined(traces, PlanOf(traces, roots, |roots|)[j])
    ensures j < i
  {
    hide Inlined, Inside, Within, WithinSome, RootsInOrder, Sound;
    var plan := PlanOf(traces, roots, |roots|);
    var x := plan[j];
    assert roots[..|roots|] == roots;
    PlanContents(traces, roots, |roots|);
    assert x in plan && x in roots;
    var r := AddedBy(traces, roots, |roots|, i);
    InsideWithin(x, plan[i], roots[r]);
    RootEarlier(traces, roots, r, x);
    PlanContents(traces, roots, r);
    PlanGrows(traces, roots, r, |roots|);
    EarlierIndex(traces, PlanOf(traces, roots, r), plan, j);
  }

  lemma EarlierIndex(traces: Traces, before: seq<Expr>, plan: seq<Expr>, j: nat)
    requires before <= plan && Sound(traces, plan) && j < |plan| && plan[j] in before
    ensures j < |before|
  {
    var c :| 0 <= c < |before| && before[c] == plan[j];
    assert plan[c] == plan[j];
  }

  lemma {:induction false} LateRoot(traces: Traces, roots: seq<Expr>, i: nat, j: nat)
    requires forall r :: r in roots ==> r.op.cacheable
    requires i < j < |roots| && Inside(roots[j], roots[i]) && roots[j] !in roots[..i + 1] && Inlined(traces, roots[j])
    ensures !Ordered(PlanOf(traces, roots, |roots|))
  {
    hide Inlined, Inside, Within;
    var plan := PlanOf(traces, roots, |roots|);
    PlanContents(traces, roots, i + 1);
    PlanContents(traces, roots, |roots|);
    PlanGrows(traces, roots, i + 1, |roots|);
    var early := PlanOf(traces, roots, i + 1);
    assert roots[..i + 1][i] == roots[i];
    assert roots[..|roots|][j] == roots[j];
    assert roots[i] in early && roots[j] in plan && roots[j] !in early;
    var a :| 0 <= a < |early| && early[a] == roots[i];
    var b :| 0 <= b < |plan| && plan[b] == roots[j];
    assert plan[a] == roots[i];
  }
}
