/** Views of limb buffers.  A span has a size in bits; it owns the limbs those bits need.  Several spans
    may view one buffer, and a result may share its storage with an operand.

    The upper limb of a readable span holds no bits beyond the span's size (`Normal`), so that masking it
    on a read, as the source does, changes nothing. */
module Spans {
  import opened Arithmetic
  import opened Limbs

  datatype Span = Span(data: array<Limb>, offset: nat, bits: nat) {

    function LimbSize(): nat {
      LimbCount(bits)
    }

    ghost predicate InBounds() {
      offset + LimbSize() <= data.Length
    }

    function Content(): (s: seq<Limb>)
      requires InBounds()
      reads data
      ensures |s| == LimbSize()
    {
      data[offset..offset + LimbSize()]
    }

    function Number(): nat
      requires InBounds()
      reads data
    {
      Value(Content())
    }

    ghost predicate Normal()
      reads data
    {
      InBounds() && Number() < Pow2(bits)
    }

    function Read(i: nat): Limb
      requires InBounds() && i < LimbSize()
      reads data
    {
      data[offset + i]
    }

    /** Limbs beyond the span read as zero. */
    function ExtendedRead(i: nat): (x: Limb)
      requires InBounds()
      reads data
      ensures x == Digit(Content(), i)
    {
      if i < LimbSize() then data[offset + i] else 0
    }

    /** All but the lowest n limbs. */
    function Subspan(n: nat): (r: Span)
      requires InBounds()
      ensures r.InBounds() && r.data == data
      ensures n <= LimbSize() ==> r.LimbSize() == LimbSize() - n
      ensures n >= LimbSize() ==> r.LimbSize() == 0
      ensures n < LimbSize() ==> r.offset == offset + n && r.bits == bits - n * LIMB_BITS
    {
      LimbCountBounds(bits);
      SubspanSize(bits, n);
      if n * LIMB_BITS < bits then
        Span(data, offset + n, bits - n * LIMB_BITS)
      else
        LimbCountExact(0);
        Span(data, offset, 0)
    }

    /** The lowest n limbs, or the whole span if it has no more than that. */
    function FirstLimbs(n: nat): (r: Span)
      requires InBounds()
      ensures r.InBounds() && r.data == data && r.offset == offset
      ensures r.LimbSize() == if n < LimbSize() then n else LimbSize()
      ensures n >= LimbSize() ==> r == this
    {
      SubspanSize(bits, n);
      LimbCountBounds(bits);
      if n * LIMB_BITS < bits then
        LimbCountExact(n);
        Span(data, offset, n * LIMB_BITS)
      else
        this
    }

    /** The operand is read no later than its storage is overwritten by an ascending loop over `result`. */
    ghost predicate SameOrApart(result: Span) {
      data == result.data ==> offset == result.offset
    }
  }

  lemma SubspanSize(bits: nat, n: nat)
    ensures n * LIMB_BITS < bits <==> n < LimbCount(bits)
    ensures n * LIMB_BITS < bits ==> LimbCount(bits - n * LIMB_BITS) == LimbCount(bits) - n
  {
    var m := LimbCount(bits);
    LimbCountBounds(bits);
    if n < m {
      MulMono(LIMB_BITS, n + 1, m);
      LimbCountAdd(bits - n * LIMB_BITS, n);
    } else {
      MulMono(LIMB_BITS, m, n);
    }
  }

  /** Nothing outside the span changed. */
  twostate predicate OnlyWithin(s: Span)
    reads s.data
  {
    forall k :: 0 <= k < s.data.Length && !(s.offset <= k < s.offset + s.LimbSize()) ==> s.data[k] == old(s.data[k])
  }

  // A number that fits a span's bits fits its limbs.
  lemma NormalFits(v: nat, s: Span)
    requires v < Pow2(s.bits)
    ensures v < BasePow(s.LimbSize())
  {
    FitsLimbs(v, s.bits);
  }

  /** Fresh buffer for a number of bits, all limbs zero. */
  method NewZero(bits: nat) returns (s: Span)
    ensures fresh(s.data) && s.bits == bits && s.offset == 0 && s.data.Length == s.LimbSize()
    ensures s.InBounds() && s.Number() == 0 && s.Normal()
    ensures forall i :: 0 <= i < s.data.Length ==> s.data[i] == 0
  {
    var data := new Limb[LimbCount(bits)](_ => 0);
    s := Span(data, 0, bits);
    ValueZero(s.Content());
  }

  /** Fresh buffer whose limbs are not initialised. */
  method NewUninitialised(bits: nat) returns (s: Span)
    ensures fresh(s.data) && s.bits == bits && s.offset == 0 && s.data.Length == s.LimbSize()
    ensures s.InBounds()
  {
    var data := new Limb[LimbCount(bits)];
    s := Span(data, 0, bits);
  }
}
