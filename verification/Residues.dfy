/** Residues in Montgomery form: a residue x modulo n is stored as the representative of x * R below n,
    where R is the power of the base with as many limbs as the modulus. */
module Residues {
  import opened Arithmetic
  import opened Limbs
  import opened Divisibility
  import opened Montgomery
  import opened Euclid
  import opened Words

  function Power(x: int, e: nat): int {
    if e == 0 then 1 else x * Power(x, e - 1)
  }

  datatype Modulus = Modulus(n: nat, limbs: nat, inverse: Limb) {

    ghost predicate Valid() {
      2 <= n <= BasePow(limbs) && IsNegatedInverse(n, inverse)
    }

    /** The auxiliary modulus. */
    function R(): (r: nat)
      ensures r >= 1
    {
      BasePow(limbs)
    }

    /** a is the stored form of x. */
    ghost predicate Represents(a: int, x: int) {
      0 <= a < n && Congruent(a, x * R(), n)
    }

    function Redc(t: nat): int {
      Reduce(t, n, inverse, limbs)
    }

    // Operations on stored forms

    function Plus(a: nat, b: nat): int {
      if a + b < n then a + b else a + b - n
    }

    function Minus(a: nat, b: nat): int {
      if a < b then a - b + n else a - b
    }

    function Negate(a: nat): int {
      if a != 0 then n - a else 0
    }

    function Times(a: nat, b: nat): int {
      MulMono(a, 0, b);
      Redc(a * b)
    }
  }

  // Dividing by the base is possible modulo n: this is what the precomputed limb gives.

  lemma {:induction false} BaseInvertible(m: Modulus) returns (k: int)
    requires m.Valid()
    ensures Congruent(BASE * k, 1, m.n)
  {
    k := (m.n * m.inverse + 1) / BASE;
    assert m.n * m.inverse + 1 == BASE * k;
    CongruentMultiple(1, m.inverse, m.n);
    ThreeWay(m.n, m.inverse, 1);
  }

  lemma {:induction false} BasePowInvertible(m: Modulus, e: nat) returns (k: int)
    requires m.Valid()
    ensures Congruent(BasePow(e) * k, 1, m.n)
  {
    if e == 0 {
      k := 1;
      BasePowOne();
      CongruentRefl(1, m.n);
    } else {
      hide Congruent, Divides;
      var j := BasePowInvertible(m, e - 1);
      var i := BaseInvertible(m);
      k := i * j;
      CongruentMul(BASE * i, 1, BasePow(e - 1) * j, 1, m.n);
      Regroup(BASE, i, BasePow(e - 1), j);
    }
  }

  lemma Regroup(a: int, b: int, c: int, d: int)
    ensures (a * b) * (c * d) == (a * c) * (b * d)
  {
    ThreeWay(a, b, c * d);
    ThreeWay(c, d, b);
    ThreeWay(a, c, d * b);
    ThreeWay(b, c, d);
    ThreeWay(b, d, c);
    ThreeWay(c, b, d);
  }

  /** A common factor that is a power of the base cancels. */
  lemma {:induction false} CancelBasePow(m: Modulus, e: nat, x: int, y: int)
    requires m.Valid() && Congruent(x * BasePow(e), y * BasePow(e), m.n)
    ensures Congruent(x, y, m.n)
  {
    hide Congruent, Divides, BasePow;
    var p := BasePow(e);
    var k := BasePowInvertible(m, e);
    CongruentRefl(k, m.n);
    CongruentRefl(x, m.n);
    CongruentRefl(y, m.n);
    CongruentMul(x * p, y * p, k, k, m.n);
    CongruentMul(x, x, p * k, 1, m.n);
    CongruentMul(y, y, p * k, 1, m.n);
    ThreeWay(x, p, k);
    ThreeWay(y, p, k);
    CongruentSym(x * (p * k), x, m.n);
    CongruentTrans(x, x * (p * k), y * (p * k), m.n);
    CongruentTrans(x, y * (p * k), y, m.n);
  }

  /** The stored form determines the residue, and the residue the stored form. */
  lemma {:induction false} RepresentsUnique(m: Modulus, a: int, x: int, b: int, y: int)
    requires m.Valid() && m.Represents(a, x) && m.Represents(b, y)
    ensures a == b <==> Congruent(x, y, m.n)
  {
    hide BasePow, Congruent, Divides;
    var r := m.R();
    if a == b {
      CongruentSym(a, x * r, m.n);
      CongruentTrans(x * r, a, y * r, m.n);
      CancelBasePow(m, m.limbs, x, y);
    }
    if Congruent(x, y, m.n) {
      CongruentRefl(r, m.n);
      CongruentMul(x, y, r, r, m.n);
      CongruentTrans(a, x * r, y * r, m.n);
      CongruentSym(b, y * r, m.n);
      CongruentTrans(a, y * r, b, m.n);
      CongruentUnique(a, b, m.n);
    }
  }

  lemma {:induction false} PlusRepresents(m: Modulus, a: nat, x: int, b: nat, y: int)
    requires m.Valid() && m.Represents(a, x) && m.Represents(b, y)
    ensures m.Represents(m.Plus(a, b), x + y)
  {
    hide BasePow, Congruent, Divides;
    CongruentAdd(a, x * m.R(), b, y * m.R(), m.n);
    Distribute(x, y, m.R());
    if a + b >= m.n {
      CongruentMultiple(a + b, -1, m.n);
      CongruentTrans(a + b - m.n, a + b, (x + y) * m.R(), m.n);
    }
  }

  lemma {:induction false} MinusRepresents(m: Modulus, a: nat, x: int, b: nat, y: int)
    requires m.Valid() && m.Represents(a, x) && m.Represents(b, y)
    ensures m.Represents(m.Minus(a, b), x - y)
  {
    hide BasePow, Congruent, Divides;
    CongruentAdd(a, x * m.R(), b, y * m.R(), m.n);
    Distribute(x, y, m.R());
    if a < b {
      CongruentMultiple(a - b, 1, m.n);
      CongruentTrans(a - b + m.n, a - b, (x - y) * m.R(), m.n);
    }
  }

  lemma {:induction false} NegateRepresents(m: Modulus, a: nat, x: int)
    requires m.Valid() && m.Represents(a, x)
    ensures m.Represents(m.Negate(a), -x)
  {
    hide BasePow, Congruent, Divides;
    CongruentRefl(0, m.n);
    CongruentAdd(0, 0, a, x * m.R(), m.n);
    assert (-x) * m.R() == 0 - x * m.R();
    CongruentMultiple(0 - a, 1, m.n);
    CongruentTrans(m.n - a, 0 - a, (-x) * m.R(), m.n);
  }

  lemma {:induction false} RedcRepresents(m: Modulus, t: nat, z: int)
    requires m.Valid() && t < m.R() * m.n && Congruent(t, (z * m.R()) * m.R(), m.n)
    ensures m.Represents(m.Redc(t), z)
  {
    hide BasePow, Congruent, Divides, Reduce;
    ReduceCorrect(t, m.n, m.inverse, m.limbs);
    CongruentTrans(m.Redc(t) * m.R(), t, (z * m.R()) * m.R(), m.n);
    CancelBasePow(m, m.limbs, m.Redc(t), z * m.R());
  }

  lemma ProductBelow(a: nat, b: nat, n: nat, r: nat)
    requires a <= r && b < n && 1 <= r
    ensures 0 <= a * b < r * n
  {
    MulMono(a, 0, b);
    MulMono(b, a, r);
    MulStrict(r, b, n);
  }

  lemma {:induction false} TimesRepresents(m: Modulus, a: nat, x: int, b: nat, y: int)
    requires m.Valid() && m.Represents(a, x) && m.Represents(b, y)
    ensures m.Represents(m.Times(a, b), x * y)
  {
    hide BasePow, Congruent, Divides, Reduce;
    var r := m.R();
    ProductBelow(a, b, m.n, r);
    CongruentMul(a, x * r, b, y * r, m.n);
    Regroup(x, r, y, r);
    ThreeWay(x * y, r, r);
    RedcRepresents(m, a * b, x * y);
  }

  // Reading a residue back

  /** The residue between 0 and n - 1. */
  function Unsigned(m: Modulus, a: nat): int {
    m.Redc(a)
  }

  /** The residue of least absolute value; an even split goes to the positive side. */
  function Signed(m: Modulus, a: nat): int {
    var u := Unsigned(m, a);
    if u > m.n / 2 then u - m.n else u
  }

  lemma {:induction false} UnsignedRepresents(m: Modulus, a: nat)
    requires m.Valid() && a < m.n
    ensures 0 <= Unsigned(m, a) < m.n
    ensures m.Represents(a, Unsigned(m, a))
  {
    hide BasePow, Congruent, Divides, Reduce;
    MulMono(m.n, 1, m.R());
    ThreeWay(m.n, m.R(), 1);
    ReduceCorrect(a, m.n, m.inverse, m.limbs);
    CongruentSym(m.Redc(a) * m.R(), a, m.n);
  }

  /** What is read back is the residue, reduced. */
  lemma {:induction false} UnsignedIsResidue(m: Modulus, a: nat, x: int)
    requires m.Valid() && m.Represents(a, x)
    ensures Unsigned(m, a) == x % m.n
  {
    hide BasePow, Congruent, Divides, Reduce;
    UnsignedRepresents(m, a);
    RepresentsUnique(m, a, Unsigned(m, a), a, x);
    CongruentMod(x, m.n);
    CongruentTrans(Unsigned(m, a), x, x % m.n, m.n);
    CongruentUnique(Unsigned(m, a), x % m.n, m.n);
  }

  /** The signed value is the same residue, and lies in the centred range. */
  lemma {:induction false} SignedIsCentred(m: Modulus, a: nat)
    requires m.Valid() && a < m.n
    ensures m.Represents(a, Signed(m, a))
    ensures -(m.n as int) < 2 * Signed(m, a) <= m.n
  {
    hide BasePow, Congruent, Divides, Reduce, Unsigned;
    UnsignedRepresents(m, a);
    var u := Unsigned(m, a);
    if u > m.n / 2 {
      SameResidue(m, a, u, u - m.n);
    }
  }

  lemma {:induction false} SameResidue(m: Modulus, a: int, x: int, y: int)
    requires m.Represents(a, x) && (x - y == m.n || x == y || y - x == m.n)
    ensures m.Represents(a, y)
  {
    hide BasePow, Divides;
    var r := m.R();
    var k := if x - y == m.n then 1 else if x == y then 0 else -1;
    Distribute(x, y, r);
    assert x * r == y * r + (k * r) * m.n by { ThreeWay(k, m.n, r); Distribute(y, k * m.n, r); }
    CongruentMultiple(y * r, k * r, m.n);
    CongruentTrans(a, x * r, y * r, m.n);
  }

  // Entering Montgomery form

  /** R^2 modulo n. */
  function SquareOfR(m: Modulus): int
    requires m.n >= 1
  {
    ((m.R() % m.n) * (m.R() % m.n)) % m.n
  }

  /** R' * R^2 modulo n, for an R' with `size` limbs. */
  function OtherTimesSquare(m: Modulus, size: nat): int
    requires m.n >= 1
  {
    (BasePow(size) * SquareOfR(m)) % m.n
  }

  /** R^3 modulo n. */
  function CubeOfR(m: Modulus): int
    requires m.n >= 1
  {
    MulMono(SquareOfR(m), 0, SquareOfR(m));
    m.Redc(SquareOfR(m) * SquareOfR(m))
  }

  lemma {:induction false} SquareIsSquare(m: Modulus)
    requires m.Valid()
    ensures 0 <= SquareOfR(m) < m.n && Congruent(SquareOfR(m), m.R() * m.R(), m.n)
  {
    hide BasePow, Congruent, Divides;
    var r := m.R();
    CongruentMod(r, m.n);
    CongruentMul(r % m.n, r, r % m.n, r, m.n);
    CongruentMod((r % m.n) * (r % m.n), m.n);
    CongruentTrans(SquareOfR(m), (r % m.n) * (r % m.n), r * r, m.n);
  }

  lemma {:induction false} CubeRepresents(m: Modulus)
    requires m.Valid()
    ensures m.Represents(CubeOfR(m), m.R() * m.R())
  {
    hide BasePow, Congruent, Divides, Reduce;
    var r, q := m.R(), SquareOfR(m);
    SquareIsSquare(m);
    ProductBelow(q, q, m.n, r);
    CongruentMul(q, r * r, q, r * r, m.n);
    ThreeWay(r * r, r, r);
    RedcRepresents(m, q * q, r * r);
  }

  /** Stored form of an unsigned integer of the given size: one reduction if it fits the modulus's limbs,
      otherwise two. */
  function FromUnsigned(m: Modulus, v: nat, bits: nat): int
    requires m.n >= 1
  {
    if bits <= m.limbs * LIMB_BITS then
      MulMono(v, 0, SquareOfR(m));
      m.Redc(v * SquareOfR(m))
    else
      var y := Reduce(v, m.n, m.inverse, LimbCount(bits));
      m.Redc(Max(0, y * OtherTimesSquare(m, LimbCount(bits))))
  }

  /** Both branches store the residue of the integer. */
  lemma {:induction false} FromUnsignedRepresents(m: Modulus, v: nat, bits: nat)
    requires m.Valid() && v < Pow2(bits)
    ensures m.Represents(FromUnsigned(m, v, bits), v)
  {
    hide BasePow, Congruent, Divides, Reduce, LimbCount, Pow2;
    var r, q := m.R(), SquareOfR(m);
    SquareIsSquare(m);
    CongruentRefl(v, m.n);
    ThreeWay(v, r, r);
    if bits <= m.limbs * LIMB_BITS {
      BasePowIsPow2(m.limbs);
      Pow2Mono(bits, m.limbs * LIMB_BITS);
      ProductBelow(v, q, m.n, r);
      CongruentMul(v, v, q, r * r, m.n);
      RedcRepresents(m, v * q, v);
    } else {
      LargeRepresents(m, v, LimbCount(bits)) by { FitsLimbs(v, bits); }
    }
  }

  lemma {:induction false} LargeRepresents(m: Modulus, v: nat, size: nat)
    requires m.Valid() && v < BasePow(size)
    ensures var y := Reduce(v, m.n, m.inverse, size);
            y * OtherTimesSquare(m, size) >= 0 && m.Represents(m.Redc(y * OtherTimesSquare(m, size)), v)
  {
    hide BasePow, Congruent, Divides, Reduce;
    var r, q, p := m.R(), SquareOfR(m), BasePow(size);
    SquareIsSquare(m);
    MulMono(p, 1, m.n);
    ReduceCorrect(v, m.n, m.inverse, size);
    var y := Reduce(v, m.n, m.inverse, size);
    var z := OtherTimesSquare(m, size);
    // y * z is y * p * R^2, which is v * R^2
    CongruentMod(p * q, m.n);
    CongruentRefl(p, m.n);
    CongruentMul(p, p, q, r * r, m.n);
    CongruentTrans(z, p * q, p * (r * r), m.n);
    CongruentRefl(y, m.n);
    CongruentMul(y, y, z, p * (r * r), m.n);
    CongruentRefl(r * r, m.n);
    CongruentMul(y * p, v, r * r, r * r, m.n);
    ThreeWay(y, p, r * r);
    CongruentTrans(y * z, (y * p) * (r * r), v * (r * r), m.n);
    ThreeWay(v, r, r);
    ProductBelow(y, z, m.n, r);
    RedcRepresents(m, y * z, v);
  }

  /** Reading back what was stored gives the integer modulo n. */
  lemma {:induction false} UnsignedRoundTrip(m: Modulus, v: nat, bits: nat)
    requires m.Valid() && v < Pow2(bits)
    ensures FromUnsigned(m, v, bits) >= 0 && Unsigned(m, FromUnsigned(m, v, bits)) == v % m.n
  {
    hide BasePow, Congruent, Divides, Reduce, LimbCount, FromUnsigned, Unsigned, Pow2;
    FromUnsignedRepresents(m, v, bits);
    UnsignedIsResidue(m, FromUnsigned(m, v, bits), v);
  }

  /** What has to be added to a multiple of something to reach a multiple of n. */
  function OffsetTo(m: Modulus, other: nat): int
    requires m.n >= 1
  {
    if other % m.n == 0 then 0 else m.n - other % m.n
  }

  lemma {:induction false} OffsetReachesMultiple(m: Modulus, other: nat)
    requires m.n >= 1
    ensures 0 <= OffsetTo(m, other) < m.n && Congruent(other + OffsetTo(m, other), 0, m.n)
  {
    hide Congruent, Divides;
    CongruentMod(other, m.n);
    var k := if other % m.n == 0 then 0 else 1;
    var x := other % m.n;
    CongruentRefl(OffsetTo(m, other), m.n);
    CongruentAdd(other, x, OffsetTo(m, other), OffsetTo(m, other), m.n);
    CongruentMultiple(0, k, m.n);
    CongruentTrans(other + OffsetTo(m, other), x + OffsetTo(m, other), 0, m.n);
  }

  /** Stored form of a signed integer with `bits` bits, sign included: negative values are moved up by the
      modulus, or by the first multiple of it that is large enough. */
  function FromSigned(m: Modulus, v: int, bits: nat, modulusBits: nat): int
    requires m.n >= 1 && bits >= 1
  {
    if bits < modulusBits then
      FromUnsigned(m, Max(0, if v < 0 then m.n + v else v), modulusBits)
    else
      var multiple := Pow2(bits - 1) + OffsetTo(m, Pow2(bits - 1));
      FromUnsigned(m, Max(0, if v < 0 then multiple + v else v), BitWidth(Max(0, multiple - 1)))
  }

  lemma {:induction false} FromSignedRepresents(m: Modulus, v: int, bits: nat, modulusBits: nat)
    requires m.Valid() && modulusBits == BitWidth(m.n - 1)
    requires bits >= 1 && -(Pow2(bits - 1) as int) <= v < Pow2(bits - 1)
    ensures m.Represents(FromSigned(m, v, bits, modulusBits), v)
  {
    hide BasePow, Congruent, Divides, Reduce, LimbCount, Pow2, BitWidth, FromUnsigned;
    var r := m.R();
    if bits < modulusBits {
      BitWidthBounds(m.n - 1);
      Pow2Mono(bits, modulusBits - 1);
      Pow2Mono(bits - 1, bits);
      var x := if v < 0 then m.n + v else v;
      FromUnsignedRepresents(m, x, modulusBits);
      SameResidue(m, FromUnsigned(m, x, modulusBits), x, v);
    } else {
      var multiple := Pow2(bits - 1) + OffsetTo(m, Pow2(bits - 1));
      OffsetReachesMultiple(m, Pow2(bits - 1));
      var x := if v < 0 then multiple + v else v;
      BitWidthBounds(multiple - 1);
      var w := BitWidth(multiple - 1);
      FromUnsignedRepresents(m, x, w);
      if v < 0 {
        MovedResidue(m, FromUnsigned(m, x, w), x, multiple, v);
      }
    }
  }

  lemma {:induction false} MovedResidue(m: Modulus, a: int, x: int, multiple: int, v: int)
    requires m.Represents(a, x) && Congruent(multiple, 0, m.n) && x == multiple + v
    ensures m.Represents(a, v)
  {
    hide BasePow, Congruent, Divides;
    CongruentRefl(v, m.n);
    CongruentAdd(multiple, 0, v, v, m.n);
    CongruentRefl(m.R(), m.n);
    CongruentMul(x, v, m.R(), m.R(), m.n);
    CongruentTrans(a, x * m.R(), v * m.R(), m.n);
  }

  /** A modulus whose limb inverse exists is odd. */
  lemma ModulusOdd(m: Modulus)
    requires m.Valid()
    ensures m.n % 2 == 1
  {
    var k := (m.n * m.inverse + 1) / BASE;
    ThreeWay(2, Pow2(LIMB_BITS - 1), k);
    assert m.n * m.inverse + 1 == 2 * (Pow2(LIMB_BITS - 1) * k);
    if m.n % 2 == 0 {
      ThreeWay(2, m.n / 2, m.inverse);
      EvenIsNotOdd((m.n / 2) * m.inverse, Pow2(LIMB_BITS - 1) * k, m.n * m.inverse);
    }
  }

  lemma EvenIsNotOdd(x: int, y: int, z: int)
    requires z == 2 * x
    ensures z + 1 != 2 * y
  {
  }

  /** Signed output re-enters as the same stored form. */
  lemma {:induction false} SignedRoundTrip(m: Modulus, a: nat)
    requires m.Valid() && a < m.n
    ensures BitWidth(m.n - 1) >= 1
    ensures FromSigned(m, Signed(m, a), BitWidth(m.n - 1), BitWidth(m.n - 1)) == a
  {
    hide BasePow, Congruent, Divides, Reduce, LimbCount, FromUnsigned, FromSigned, Signed, BitWidth, Pow2;
    var bits := BitWidth(m.n - 1);
    var v := Signed(m, a);
    ModulusOdd(m);
    SignedIsCentred(m, a);
    BitWidthBounds(m.n - 1);
    Pow2Double(bits - 1);
    FromSignedRepresents(m, v, bits, bits);
    CongruentRefl(v, m.n);
    RepresentsUnique(m, FromSigned(m, v, bits, bits), v, a, v);
  }

  /** Stored form of a residue of another modulus, taken with least absolute value. */
  function FromOther(m: Modulus, other: Modulus, a: nat): int
    requires m.n >= 1 && other.n >= 1
  {
    var u := Unsigned(other, a);
    if m.n > other.n then
      FromUnsigned(m, Max(0, if u > other.n / 2 then u + (m.n - other.n) else u), BitWidth(m.n - 1))
    else
      FromUnsigned(m, Max(0, if u > other.n / 2 then u + OffsetTo(m, other.n) else u), BitWidth(other.n + OffsetTo(m, other.n) - 1))
  }

  /** Changing the modulus keeps the residue of least absolute value. */
  lemma {:induction false} FromOtherRepresents(m: Modulus, other: Modulus, a: nat)
    requires m.Valid() && other.Valid() && a < other.n
    ensures OffsetTo(m, other.n) >= 0
    ensures m.Represents(FromOther(m, other, a), Signed(other, a))
  {
    hide BasePow, Congruent, Divides, Reduce, LimbCount, FromUnsigned, Unsigned, BitWidth, Pow2;
    var u, v := Unsigned(other, a), Signed(other, a);
    UnsignedRepresents(other, a);
    OffsetReachesMultiple(m, other.n);
    if m.n > other.n {
      var x := if u > other.n / 2 then u + (m.n - other.n) else u;
      BitWidthBounds(m.n - 1);
      FromUnsignedRepresents(m, x, BitWidth(m.n - 1));
      SameResidue(m, FromUnsigned(m, x, BitWidth(m.n - 1)), x, v);
    } else {
      var x := if u > other.n / 2 then u + OffsetTo(m, other.n) else u;
      var top := other.n + OffsetTo(m, other.n) - 1;
      BitWidthBounds(top);
      FromUnsignedRepresents(m, x, BitWidth(top));
      if u > other.n / 2 {
        MovedResidue(m, FromUnsigned(m, x, BitWidth(top)), x, other.n + OffsetTo(m, other.n), v);
      }
    }
  }

  // Inversion

  /** The limb -n^-1, from the unsigned left cofactor of n and the base. */
  function NegatedInverse(n: nat): Limb {
    Wrap(-(Extended(n, BASE).1 % BASE))
  }

  /** The extended Euclidean algorithm on an odd modulus and the base gives the limb the reduction needs. */
  lemma {:induction false} NegatedInverseCorrect(n: nat)
    requires Gcd(n, BASE) == 1
    ensures IsNegatedInverse(n, NegatedInverse(n)) && (n * NegatedInverse(n) + 1) % BASE == 0
    ensures forall limbs: nat :: 2 <= n <= BasePow(limbs) ==> Modulus(n, limbs, NegatedInverse(n)).Valid()
  {
    hide Gcd, Extended, BasePow;
    ExtendedIsBezout(n, BASE);
    var x := Extended(n, BASE).1;
    NegatedCofactor(n, x, BASE);
  }

  lemma NegatedCofactor(n: nat, x: int, b: Positive)
    requires (x * n - 1) % b == 0
    ensures var inverse := (-(x % b)) % b; 0 <= inverse < b && (n * inverse + 1) % b == 0
  {
    var inverse := (-(x % b)) % b;
    ModSub(0, x, b);
    DivModUnique(0, b, 0, 0);
    ModMul(n, -x, b);
    ModAdd(n * -x, 1, b);
    ModAdd(n * inverse, 1, b);
    ModSub(0, x * n - 1, b);
    assert n * -x + 1 == 0 - (x * n - 1);
  }

  /** Stored form of the inverse. */
  function Invert(m: Modulus, a: nat): int
    requires m.n >= 1
  {
    m.Redc(Max(0, Extended(a, m.n).1 * CubeOfR(m)))
  }

  /** The inverse is stored as a residue whose product with the original one is one. */
  lemma {:induction false} InvertRepresents(m: Modulus, a: nat, z: int) returns (w: int)
    requires m.Valid() && m.Represents(a, z) && Gcd(a, m.n) == 1
    ensures m.Represents(Invert(m, a), w) && Congruent(w * z, 1, m.n)
  {
    hide BasePow, Congruent, Divides, Reduce, Gcd, Extended, CubeOfR;
    var r, x, c := m.R(), Extended(a, m.n).1, CubeOfR(m);
    ExtendedIsBezout(a, m.n);
    CubeRepresents(m);
    // x * R^3 reduces to x * R^2, the stored form of w = x * R
    w := x * r;
    CongruentRefl(x, m.n);
    CongruentMul(x, x, c, (r * r) * r, m.n);
    ThreeWay(x, r * r, r);
    ThreeWay(x, r, r);
    MulMono(x, 0, c);
    ProductBelow(x, c, m.n, r);
    RedcRepresents(m, x * c, w);
    // w * z = x * (z * R) = x * a = 1
    ThreeWay(x, r, z);
    CongruentMul(x, x, a, z * r, m.n);
    CongruentSym(x * a, x * (z * r), m.n);
    CongruentTrans(x * (z * r), x * a, 1, m.n);
    ThreeWay(x, z, r);
  }

  // Powers

  lemma {:induction false} PowerAdd(x: int, m: nat, n: nat)
    ensures Power(x, m + n) == Power(x, m) * Power(x, n)
  {
    if m > 0 {
      PowerAdd(x, m - 1, n);
      ThreeWay(x, Power(x, m - 1), Power(x, n));
    }
  }

  lemma {:induction false} PowerDouble(x: int, e: nat)
    ensures Power(x * x, e) == Power(x, 2 * e)
  {
    if e > 0 {
      PowerDouble(x, e - 1);
      assert Power(x, 2 * e) == x * Power(x, 2 * e - 1);
      assert Power(x, 2 * e - 1) == x * Power(x, 2 * e - 2);
      ThreeWay(x, x, Power(x, 2 * e - 2));
    }
  }

  /** The product of the result so far and value^rest is what has to come out. */
  ghost predicate Progress(m: Modulus, result: int, y: int, value: int, z: int, rest: nat, total: int) {
    m.Represents(result, y) && m.Represents(value, z) && y * Power(z, rest) == total
  }

  lemma {:induction false} PowStart(m: Modulus, a: nat, x: int, e: nat)
    requires m.Valid() && m.Represents(a, x)
    ensures FromUnsigned(m, 1, 1) >= 0 && Progress(m, FromUnsigned(m, 1, 1), 1, a, x, e, Power(x, e))
    ensures m.Represents(FromUnsigned(m, 1, 1), Power(x, 0))
  {
    Pow2Small();
    FromUnsignedRepresents(m, 1, 1);
  }

  lemma {:induction false} PowStep(m: Modulus, result: nat, y: int, value: nat, z: int, rest: nat, total: int)
    requires m.Valid() && Progress(m, result, y, value, z, rest, total)
    ensures m.Times(value, value) >= 0
    ensures rest % 2 == 1 ==> m.Times(result, value) >= 0
                              && Progress(m, m.Times(result, value), y * z, m.Times(value, value), z * z, rest / 2, total)
    ensures rest % 2 == 0 ==> Progress(m, result, y, m.Times(value, value), z * z, rest / 2, total)
  {
    hide BasePow, Congruent, Divides, Reduce, Modulus.Times;
    TimesRepresents(m, result, y, value, z);
    TimesRepresents(m, value, z, value, z);
    PowerDouble(z, rest / 2);
    if rest % 2 == 1 {
      assert Power(z, rest) == z * Power(z, rest - 1);
      ThreeWay(y, z, Power(z, rest - 1));
    }
  }

  lemma {:induction false} PowEnd(m: Modulus, result: nat, y: int, value: nat, z: int, total: int)
    requires m.Valid()
    ensures Progress(m, result, y, value, z, 1, total) ==> m.Represents(m.Times(value, result), total)
    ensures Progress(m, result, y, value, z, 0, total) ==> m.Represents(result, total)
  {
    hide BasePow, Congruent, Divides, Reduce, Modulus.Times;
    assert Power(z, 0) == 1 && Power(z, 1) == z * Power(z, 0);
    if Progress(m, result, y, value, z, 1, total) {
      TimesRepresents(m, value, z, result, y);
    }
  }

  /** Power with an exponent known beforehand: the top bit is handled by the last product. */
  method PowFixed(m: Modulus, a: nat, ghost x: int, e: nat) returns (result: int)
    requires m.Valid() && m.Represents(a, x)
    ensures m.Represents(result, Power(x, e))
  {
    hide *;
    PowStart(m, a, x, e);
    if e == 0 {
      return FromUnsigned(m, 1, 1);
    }
    var res: nat, value: nat, rest: nat := FromUnsigned(m, 1, 1), a, e;
    ghost var y, z := 1, x;
    while rest > 1
      invariant rest >= 1
      invariant Progress(m, res, y, value, z, rest, Power(x, e))
    {
      PowStep(m, res, y, value, z, rest, Power(x, e));
      if rest % 2 == 1 {
        res, y := m.Times(res, value), y * z;
      }
      value, z := m.Times(value, value), z * z;
      rest := rest / 2;
    }
    PowEnd(m, res, y, value, z, Power(x, e));
    result := m.Times(value, res);
  }

  /** Power with an exponent of a given size: every bit is visited. */
  method PowAny(m: Modulus, a: nat, ghost x: int, e: nat, bits: nat) returns (result: int)
    requires m.Valid() && m.Represents(a, x) && e < Pow2(bits)
    ensures m.Represents(result, Power(x, e))
  {
    hide *;
    PowStart(m, a, x, e);
    if e == 0 {
      return FromUnsigned(m, 1, 1);
    }
    var res: nat, value: nat, rest: nat := FromUnsigned(m, 1, 1), a, e;
    ghost var y, z := 1, x;
    for i := 0 to bits
      invariant Progress(m, res, y, value, z, rest, Power(x, e))
      invariant rest < Pow2(bits - i)
    {
      PowStep(m, res, y, value, z, rest, Power(x, e));
      Pow2Double(bits - i - 1);
      if rest % 2 == 1 {
        res, y := m.Times(res, value), y * z;
      }
      value, z := m.Times(value, value), z * z;
      rest := rest / 2;
    }
    Pow2Small();
    PowEnd(m, res, y, value, z, Power(x, e));
    result := res;
  }
}
