/** Building transform expressions: a transform of an inverse transform is never built, nor the other way round,
    and a tuple is transformed part by part. */
module TransformExpressions {
  import opened Arithmetic
  import opened Rings
  import opened Transform

  datatype Expression =
    | Given(vector: seq<int>)
    | Transformed(inner: Expression)
    | InverseTransformed(inner: Expression)
    | Tuple(parts: seq<Expression>)

  predicate WellFormed(p: Parameters, e: Expression) {
    match e
    case Given(vector) => |vector| == p.N() && Reduced(p.q, vector)
    case Transformed(inner) => !inner.Tuple? && WellFormed(p, inner)
    case InverseTransformed(inner) => !inner.Tuple? && WellFormed(p, inner)
    case Tuple(parts) => forall i :: 0 <= i < |parts| ==> WellFormed(p, parts[i])
  }

  /** The vectors an expression stands for, one for every expression that is not a tuple. */
  function Vectors(p: Parameters, e: Expression): (vectors: seq<seq<int>>)
    requires WellFormed(p, e)
    ensures !e.Tuple? ==> |vectors| == 1
    ensures forall i :: 0 <= i < |vectors| ==> |vectors[i]| == p.N()
    decreases e, 0
  {
    match e
    case Given(vector) => [vector]
    case Transformed(inner) => [Forward(p, Vectors(p, inner)[0])]
    case InverseTransformed(inner) => [Inverse(p, Vectors(p, inner)[0])]
    case Tuple(parts) => AllVectors(p, parts)
  }

  function AllVectors(p: Parameters, parts: seq<Expression>): (vectors: seq<seq<int>>)
    requires forall i :: 0 <= i < |parts| ==> WellFormed(p, parts[i])
    ensures forall i :: 0 <= i < |vectors| ==> |vectors[i]| == p.N()
    decreases parts, 1
  {
    if parts == [] then [] else Vectors(p, parts[0]) + AllVectors(p, parts[1..])
  }

  /** The vectors of a tuple are those of its parts, in order, and a vector stands for itself. */
  lemma {:induction false} TupleVectors(p: Parameters, parts: seq<Expression>, e: Expression, vector: seq<int>)
    requires forall i :: 0 <= i < |parts| ==> WellFormed(p, parts[i])
    requires WellFormed(p, e) && |vector| == p.N() && forall k :: 0 <= k < |vector| ==> 0 <= vector[k] < p.q
    ensures WellFormed(p, Tuple(parts + [e])) && Vectors(p, Tuple(parts + [e])) == Vectors(p, Tuple(parts)) + Vectors(p, e)
    ensures WellFormed(p, Given(vector)) && Vectors(p, Given(vector)) == [vector]
  {
    assert WellFormed(p, Given(vector)) && Vectors(p, Given(vector)) == [vector] by { GivenVector(p, vector); }
    OneMorePart(p, parts, e);
  }

  lemma GivenVector(p: Parameters, vector: seq<int>)
    requires |vector| == p.N() && Reduced(p.q, vector)
    ensures WellFormed(p, Given(vector)) && Vectors(p, Given(vector)) == [vector]
  {
  }

  lemma {:induction false} OneMorePart(p: Parameters, parts: seq<Expression>, e: Expression)
    requires (forall i :: 0 <= i < |parts| ==> WellFormed(p, parts[i])) && WellFormed(p, e)
    ensures forall i :: 0 <= i < |parts + [e]| ==> WellFormed(p, (parts + [e])[i])
    ensures AllVectors(p, parts + [e]) == AllVectors(p, parts) + Vectors(p, e)
  {
    if parts == [] {
      assert [] + [e] == [e] && [e][1..] == [];
      assert AllVectors(p, [e]) == Vectors(p, e) + AllVectors(p, []);
    } else {
      assert (parts + [e])[1..] == parts[1..] + [e];
      OneMorePart(p, parts[1..], e);
    }
  }

  function NumberTheoreticTransform(e: Expression): Expression
    decreases e, 0
  {
    match e
    case InverseTransformed(inner) => inner
    case Tuple(parts) => Tuple(TransformParts(parts))
    case _ => Transformed(e)
  }

  function TransformParts(parts: seq<Expression>): (r: seq<Expression>)
    ensures |r| == |parts|
    decreases parts, 1
  {
    if parts == [] then [] else [NumberTheoreticTransform(parts[0])] + TransformParts(parts[1..])
  }

  function InverseNumberTheoreticTransform(e: Expression): Expression
    decreases e, 0
  {
    match e
    case Transformed(inner) => inner
    case Tuple(parts) => Tuple(InverseParts(parts))
    case _ => InverseTransformed(e)
  }

  function InverseParts(parts: seq<Expression>): (r: seq<Expression>)
    ensures |r| == |parts|
    decreases parts, 1
  {
    if parts == [] then [] else [InverseNumberTheoreticTransform(parts[0])] + InverseParts(parts[1..])
  }

  ghost predicate AllReduced(p: Parameters, vectors: seq<seq<int>>) {
    forall i :: 0 <= i < |vectors| ==> Reduced(p.q, vectors[i])
  }

  lemma {:induction false} InverseReduced(p: Parameters, a: seq<int>)
    requires |a| == p.N()
    ensures Reduced(p.q, Inverse(p, a))
  {
    var b := Inverse(p, a);
    forall k | 0 <= k < |b| ensures 0 <= b[k] < p.q {
      ReduceTwice(p.q, p.nInverse * InverseStages(p, a, 0)[k]);
    }
  }

  /** Whatever is built, the values are reduced. */
  lemma {:induction false} VectorsReduced(p: Parameters, e: Expression)
    requires WellFormed(p, e)
    ensures AllReduced(p, Vectors(p, e))
    decreases e, 0
  {
    hide Forward, Inverse;
    match e
    case Given(vector) =>
    case Transformed(inner) =>
      VectorsReduced(p, inner);
      assert Reduced(p.q, Forward(p, Vectors(p, inner)[0])) by { TransformReduced(p, Vectors(p, inner)[0]); }
    case InverseTransformed(inner) =>
      InverseReduced(p, Vectors(p, inner)[0]);
    case Tuple(parts) =>
      AllVectorsReduced(p, parts);
  }

  lemma {:induction false} TransformReduced(p: Parameters, a: seq<int>)
    requires |a| == p.N() && Reduced(p.q, a)
    ensures Reduced(p.q, Forward(p, a))
  {
    ForwardReduced(p, a, p.bits);
  }

  lemma {:induction false} AllVectorsReduced(p: Parameters, parts: seq<Expression>)
    requires forall i :: 0 <= i < |parts| ==> WellFormed(p, parts[i])
    ensures AllReduced(p, AllVectors(p, parts))
    decreases parts, 1
  {
    if parts != [] {
      VectorsReduced(p, parts[0]);
      AllVectorsReduced(p, parts[1..]);
    }
  }

  ghost function ForwardAll(p: Parameters, vectors: seq<seq<int>>): seq<seq<int>>
    requires forall i :: 0 <= i < |vectors| ==> |vectors[i]| == p.N()
  {
    seq(|vectors|, i requires 0 <= i < |vectors| => Forward(p, vectors[i]))
  }

  ghost function InverseAll(p: Parameters, vectors: seq<seq<int>>): seq<seq<int>>
    requires forall i :: 0 <= i < |vectors| ==> |vectors[i]| == p.N()
  {
    seq(|vectors|, i requires 0 <= i < |vectors| => Inverse(p, vectors[i]))
  }

  /** The built expression stands for the transforms of what the argument stands for, also where a pair of
      transforms was left out. */
  lemma {:induction false} TransformMeaning(p: Parameters, e: Expression)
    requires p.Valid() && WellFormed(p, e)
    ensures WellFormed(p, NumberTheoreticTransform(e))
    ensures Vectors(p, NumberTheoreticTransform(e)) == ForwardAll(p, Vectors(p, e))
    decreases e, 0
  {
    hide Forward, Inverse;
    match e
    case Given(vector) =>
    case Transformed(inner) =>
    case InverseTransformed(inner) =>
      VectorsReduced(p, inner);
      ForwardOfInverse(p, Vectors(p, inner)[0]);
      assert Vectors(p, inner) == [Vectors(p, inner)[0]];
    case Tuple(parts) =>
      TransformPartsMeaning(p, parts);
  }

  lemma {:induction false} TransformPartsMeaning(p: Parameters, parts: seq<Expression>)
    requires p.Valid() && forall i :: 0 <= i < |parts| ==> WellFormed(p, parts[i])
    ensures forall i :: 0 <= i < |parts| ==> WellFormed(p, TransformParts(parts)[i])
    ensures AllVectors(p, TransformParts(parts)) == ForwardAll(p, AllVectors(p, parts))
    decreases parts, 1
  {
    hide Forward, NumberTheoreticTransform, Vectors;
    if parts != [] {
      TransformMeaning(p, parts[0]);
      TransformPartsMeaning(p, parts[1..]);
      assert TransformParts(parts)[1..] == TransformParts(parts[1..]);
      ForwardAllConcat(p, Vectors(p, parts[0]), AllVectors(p, parts[1..]));
    }
  }

  lemma ForwardAllConcat(p: Parameters, a: seq<seq<int>>, b: seq<seq<int>>)
    requires forall i :: 0 <= i < |a| ==> |a[i]| == p.N()
    requires forall i :: 0 <= i < |b| ==> |b[i]| == p.N()
    ensures forall i :: 0 <= i < |a + b| ==> |(a + b)[i]| == p.N()
    ensures ForwardAll(p, a + b) == ForwardAll(p, a) + ForwardAll(p, b)
  {
    hide Forward;
  }

  lemma InverseAllConcat(p: Parameters, a: seq<seq<int>>, b: seq<seq<int>>)
    requires forall i :: 0 <= i < |a| ==> |a[i]| == p.N()
    requires forall i :: 0 <= i < |b| ==> |b[i]| == p.N()
    ensures forall i :: 0 <= i < |a + b| ==> |(a + b)[i]| == p.N()
    ensures InverseAll(p, a + b) == InverseAll(p, a) + InverseAll(p, b)
  {
    hide Inverse;
  }

  lemma {:induction false} InverseTransformMeaning(p: Parameters, e: Expression)
    requires p.Valid() && WellFormed(p, e)
    ensures WellFormed(p, InverseNumberTheoreticTransform(e))
    ensures Vectors(p, InverseNumberTheoreticTransform(e)) == InverseAll(p, Vectors(p, e))
    decreases e, 0
  {
    hide Forward, Inverse;
    match e
    case Given(vector) =>
    case InverseTransformed(inner) =>
    case Transformed(inner) =>
      VectorsReduced(p, inner);
      InverseOfForward(p, Vectors(p, inner)[0]);
      assert Vectors(p, inner) == [Vectors(p, inner)[0]];
    case Tuple(parts) =>
      InversePartsMeaning(p, parts);
  }

  lemma {:induction false} InversePartsMeaning(p: Parameters, parts: seq<Expression>)
    requires p.Valid() && forall i :: 0 <= i < |parts| ==> WellFormed(p, parts[i])
    ensures forall i :: 0 <= i < |parts| ==> WellFormed(p, InverseParts(parts)[i])
    ensures AllVectors(p, InverseParts(parts)) == InverseAll(p, AllVectors(p, parts))
    decreases parts, 1
  {
    hide Inverse, InverseNumberTheoreticTransform, Vectors;
    if parts != [] {
      InverseTransformMeaning(p, parts[0]);
      InversePartsMeaning(p, parts[1..]);
      assert InverseParts(parts)[1..] == InverseParts(parts[1..]);
      InverseAllConcat(p, Vectors(p, parts[0]), AllVectors(p, parts[1..]));
    }
  }
}
