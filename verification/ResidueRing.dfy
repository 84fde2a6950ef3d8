/** Stored residues compute in the ring of integers modulo n: what the transform and the encryption assume of their
    elements is what the residue type does. */
module ResidueRing {
  import opened Arithmetic
  import Rings
  import Encryption
  import opened Residues

  /** The stored forms and the residues correspond one to one, and the operations on stored forms are the
      operations of the ring on the residues. */
  ghost predicate Reads(m: Modulus, a: int, x: int) {
    0 <= a < m.n && Unsigned(m, a) == x
  }

  lemma RepresentedReads(m: Modulus, a: int, x: int)
    requires m.Valid() && m.Represents(a, x)
    ensures Reads(m, a, x % m.n)
  {
    UnsignedIsResidue(m, a, x);
  }

  lemma ReadsRepresented(m: Modulus, a: int, x: int)
    requires m.Valid() && Reads(m, a, x)
    ensures m.Represents(a, x)
  {
    UnsignedRepresents(m, a);
  }

  lemma {:induction false} SumsAreRingSums(m: Modulus, a: nat, x: int, b: nat, y: int)
    requires m.Valid() && Reads(m, a, x) && Reads(m, b, y)
    ensures Reads(m, m.Plus(a, b), Rings.Add(m.n, x, y))
    ensures Reads(m, m.Minus(a, b), Rings.Sub(m.n, x, y))
  {
    hide Reads, Modulus.Represents, Modulus.Plus, Modulus.Minus;
    ReadsRepresented(m, a, x);
    ReadsRepresented(m, b, y);
    PlusRepresents(m, a, x, b, y);
    MinusRepresents(m, a, x, b, y);
    RepresentedReads(m, m.Plus(a, b), x + y);
    RepresentedReads(m, m.Minus(a, b), x - y);
  }

  lemma {:induction false} ProductsAreRingProducts(m: Modulus, a: nat, x: int, b: nat, y: int)
    requires m.Valid() && Reads(m, a, x) && Reads(m, b, y)
    ensures Reads(m, m.Times(a, b), Rings.Mul(m.n, x, y))
  {
    hide Reads, Modulus.Represents, Modulus.Times;
    ReadsRepresented(m, a, x);
    ReadsRepresented(m, b, y);
    TimesRepresents(m, a, x, b, y);
    RepresentedReads(m, m.Times(a, b), x * y);
  }

  /** Changing the modulus is the cast that encryption and decryption use. */
  lemma {:induction false} ConversionIsCast(m: Modulus, other: Modulus, a: nat, x: int)
    requires m.Valid() && other.Valid() && Reads(other, a, x)
    ensures Reads(m, FromOther(m, other, a), Encryption.Cast(other.n, m.n, x))
  {
    hide FromOther, Modulus.Redc;
    FromOtherRepresents(m, other, a);
    RepresentedReads(m, FromOther(m, other, a), Signed(other, a));
  }
}
