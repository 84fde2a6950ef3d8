/** Bit reversal: what it is, and that the masked swaps of neighbouring groups compute it. */
module BitReversal {
  import opened Arithmetic

  /** The number whose n bits are the lowest n bits of k in reverse order. */
  function Reverse(n: nat, k: nat): nat {
    if n == 0 then 0 else (k % 2) * Pow2(n - 1) + Reverse(n - 1, k / 2)
  }

  lemma {:induction false} ReverseBound(n: nat, k: nat)
    ensures Reverse(n, k) < Pow2(n)
  {
    if n > 0 {
      ReverseBound(n - 1, k / 2);
    }
  }

  lemma ReverseJoinArithmetic(a: nat, p: nat, b: nat)
    ensures (a * (2 * p) + b) % 2 == b % 2
    ensures (a * (2 * p) + b) / 2 == a * p + b / 2
  {
    ThreeWay(a, 2, p);
    assert a * (2 * p) == 2 * (a * p);
  }

  /** Reversing two adjacent groups of bits exchanges the groups and reverses each. */
  lemma {:induction false} ReverseJoin(i: nat, a: nat, j: nat, b: nat)
    requires b < Pow2(j)
    ensures a * Pow2(j) >= 0
    ensures Reverse(i + j, a * Pow2(j) + b) == Reverse(j, b) * Pow2(i) + Reverse(i, a)
  {
    MulMono(Pow2(j), 0, a);
    if j == 0 {
      Pow2Small();
      assert Reverse(0, b) == 0;
    } else {
      ReverseJoin(i, a, j - 1, b / 2);
      ReverseJoinArithmetic(a, Pow2(j - 1), b);
      Pow2Add(i, j - 1);
      var x := b % 2;
      ThreeWay(x, Pow2(i), Pow2(j - 1));
      ThreeWay(x, Pow2(j - 1), Pow2(i));
      Distribute(x * Pow2(j - 1), Reverse(j - 1, b / 2), Pow2(i));
    }
  }

  // One more bit at the bottom becomes the top bit.
  lemma {:induction false} ReverseBit(n: nat, g: nat, b: nat)
    requires b <= 1
    ensures Reverse(n + 1, 2 * g + b) == b * Pow2(n) + Reverse(n, g)
  {
  }

  lemma {:induction false} ReverseZero(n: nat)
    ensures Reverse(n, 0) == 0
  {
    if n > 0 {
      ReverseZero(n - 1);
    }
  }

  lemma {:induction false} ReverseOne(n: nat)
    requires n >= 1
    ensures Reverse(n, 1) == Pow2(n - 1)
  {
    ReverseZero(n - 1);
  }

  lemma ReverseOneBit(a: nat)
    requires a <= 1
    ensures Reverse(1, a) == a
  {
    assert Reverse(0, a / 2) == 0;
    Pow2Small();
  }

  // A one above n bits, seen with `bits` bits.
  lemma {:induction false} ReverseTopBit(bits: nat, n: nat, g: nat)
    requires n < bits && g < Pow2(n)
    ensures Reverse(bits, Pow2(n) + g) == Pow2(bits - 1 - n) + Reverse(n, g) * (2 * Pow2(bits - 1 - n))
  {
    hide Pow2, Reverse;
    ReverseJoin(bits - n, 1, n, g);
    Pow2Double(bits - 1 - n);
    assert Reverse(bits - n, 1) == Pow2(bits - n - 1) by { ReverseOne(bits - n); }
  }

  /** Reversing twice gives the number back, so reversal permutes the indices below Pow2(n). */
  lemma {:induction false} ReverseInvolution(n: nat, k: nat)
    requires k < Pow2(n)
    ensures Reverse(n, k) < Pow2(n) && Reverse(n, Reverse(n, k)) == k
  {
    hide Pow2;
    ReverseBound(n, k);
    Pow2Small();
    if n > 0 {
      Pow2Double(n - 1);
      ReverseInvolution(n - 1, k / 2);
      assert Reverse(n, k) == (k % 2) * Pow2(n - 1) + Reverse(n - 1, k / 2);
      ReverseJoin(1, k % 2, n - 1, Reverse(n - 1, k / 2));
      ReverseOneBit(k % 2);
    }
  }

  // Bitwise operations

  function And(x: nat, y: nat): nat {
    if x == 0 || y == 0 then 0 else (if x % 2 == 1 && y % 2 == 1 then 1 else 0) + 2 * And(x / 2, y / 2)
  }

  function Or(x: nat, y: nat): nat
    decreases x + y
  {
    if x == 0 && y == 0 then 0 else (if x % 2 == 1 || y % 2 == 1 then 1 else 0) + 2 * Or(x / 2, y / 2)
  }

  lemma {:induction false} AndJoin(a: nat, b: nat, c: nat, d: nat, j: nat)
    requires b < Pow2(j) && d < Pow2(j)
    ensures a * Pow2(j) >= 0 && c * Pow2(j) >= 0
    ensures And(a * Pow2(j) + b, c * Pow2(j) + d) == And(a, c) * Pow2(j) + And(b, d)
  {
    hide And, Pow2;
    MulMono(Pow2(j), 0, a);
    MulMono(Pow2(j), 0, c);
    if j == 0 {
      Pow2Small();
      AndUnfold(0, 0);
    } else {
      Pow2Double(j - 1);
      ReverseJoinArithmetic(a, Pow2(j - 1), b);
      ReverseJoinArithmetic(c, Pow2(j - 1), d);
      AndJoin(a, b / 2, c, d / 2, j - 1);
      AndUnfold(a * Pow2(j) + b, c * Pow2(j) + d);
      AndUnfold(b, d);
      ThreeWay(And(a, c), 2, Pow2(j - 1));
    }
  }

  lemma {:induction false} AndUnfold(x: nat, y: nat)
    ensures And(x, y) == (if x % 2 == 1 && y % 2 == 1 then 1 else 0) + 2 * And(x / 2, y / 2)
  {
  }

  lemma {:induction false} OrJoin(a: nat, b: nat, c: nat, d: nat, j: nat)
    requires b < Pow2(j) && d < Pow2(j)
    ensures a * Pow2(j) >= 0 && c * Pow2(j) >= 0
    ensures Or(a * Pow2(j) + b, c * Pow2(j) + d) == Or(a, c) * Pow2(j) + Or(b, d)
  {
    hide Or, Pow2;
    MulMono(Pow2(j), 0, a);
    MulMono(Pow2(j), 0, c);
    if j == 0 {
      Pow2Small();
      OrUnfold(0, 0);
    } else {
      Pow2Double(j - 1);
      ReverseJoinArithmetic(a, Pow2(j - 1), b);
      ReverseJoinArithmetic(c, Pow2(j - 1), d);
      OrJoin(a, b / 2, c, d / 2, j - 1);
      OrUnfold(a * Pow2(j) + b, c * Pow2(j) + d);
      OrUnfold(b, d);
      ThreeWay(Or(a, c), 2, Pow2(j - 1));
    }
  }

  lemma {:induction false} OrUnfold(x: nat, y: nat)
    ensures Or(x, y) == (if x % 2 == 1 || y % 2 == 1 then 1 else 0) + 2 * Or(x / 2, y / 2)
  {
  }

  lemma {:induction false} OrZero(x: nat)
    ensures Or(x, 0) == x == Or(0, x)
  {
    if x > 0 {
      OrZero(x / 2);
    }
  }

  lemma HalvedRemainder(x: nat, p: Positive)
    ensures x % (2 * p) == 2 * ((x / 2) % p) + x % 2
  {
    DivModBounds(x / 2, p);
    var q, r := (x / 2) / p, (x / 2) % p;
    ThreeWay(q, 2, p);
    DivModUnique(x, 2 * p, q, 2 * r + x % 2);
  }

  /** A mask of g ones keeps the lowest g bits. */
  lemma {:induction false} AndOnes(x: nat, g: nat)
    ensures And(x, Pow2(g) - 1) == x % Pow2(g)
  {
    hide Pow2;
    if g == 0 {
      assert Pow2(0) == 1 by { Pow2Small(); }
    } else {
      var p := Pow2(g - 1);
      Pow2Double(g - 1);
      AndOnes(x / 2, g - 1);
      AndUnfold(x, 2 * p - 1);
      HalvedRemainder(x, p);
    }
  }

  /** Parts that do not overlap are joined by addition. */
  lemma {:induction false} OrDisjoint(h: nat, l: nat, g: nat)
    requires h < Pow2(g)
    ensures l * Pow2(g) >= 0 && Or(h, l * Pow2(g)) == l * Pow2(g) + h
  {
    hide Or, Pow2;
    OrJoin(0, h, l, 0, g);
    OrZero(l);
    OrZero(h);
  }

  // Swapping groups

  /** `count` groups of g ones, g zeros apart. */
  function Mask(g: nat, count: nat): nat {
    if count == 0 then 0 else
      MulMono(Pow2(2 * g), 0, Mask(g, count - 1));
      Mask(g, count - 1) * Pow2(2 * g) + (Pow2(g) - 1)
  }

  /** The masks written as literals in the source. */
  lemma MaskLiterals()
    ensures Mask(1, 2) == 0x5 && Mask(1, 4) == 0x55 && Mask(1, 8) == 0x5555 && Mask(1, 16) == 0x5555_5555
    ensures Mask(2, 1) == 0x3 && Mask(2, 2) == 0x33 && Mask(2, 4) == 0x3333 && Mask(2, 8) == 0x3333_3333
    ensures Mask(4, 2) == 0xf0f && Mask(4, 4) == 0xf0f_0f0f && Mask(8, 1) == 0xff && Mask(8, 2) == 0xff_00ff
  {
    assert Pow2(2) == 4 && Pow2(4) == 16 && Pow2(8) == 256 && Pow2(16) == 65536;
    assert Mask(1, 4) == 0x55 && Mask(2, 2) == 0x33 && Mask(4, 1) == 0xf;
    assert Mask(1, 6) == 0x555 && Mask(2, 4) == 0x3333;
  }

  /** Exchanges the neighbouring groups of g bits that the mask selects. */
  function SwapMasked(v: nat, g: nat, mask: nat): nat {
    DivModBounds(v, Pow2(g));
    MulMono(Pow2(g), 0, And(v, mask));
    Or(And(v / Pow2(g), mask), And(v, mask) * Pow2(g))
  }

  /** Every group of g bits reversed, the groups left in place. */
  function ReverseGroups(v: nat, g: nat, count: nat): nat {
    if count == 0 then 0 else
      DivModBounds(v, Pow2(g));
      MulMono(Pow2(g), 0, ReverseGroups(v / Pow2(g), g, count - 1));
      ReverseGroups(v / Pow2(g), g, count - 1) * Pow2(g) + Reverse(g, v % Pow2(g))
  }

  // The three parts of a value: its lowest two groups and the rest
  lemma PartsArithmetic(u: nat, h: nat, l: nat, p: Positive)
    requires h < p && l < p
    ensures h * p >= 0 && u * (p * p) >= 0
    ensures var v := u * (p * p) + (h * p + l);
            && h * p + l < p * p
            && v / p == u * p + h && v % p == l
            && v / (p * p) == u && v % (p * p) == h * p + l
            && (u * p + h) / p == u && (u * p + h) % p == h
  {
    MulMono(p, 0, h);
    MulMono(p, h, p - 1);
    MulMono(p * p, 0, u);
    var v := u * (p * p) + (h * p + l);
    DivModUnique(v, p * p, u, h * p + l);
    ThreeWay(u, p, p);
    Distribute(u * p, h, p);
    DivModUnique(v, p, u * p + h, l);
    DivModUnique(u * p + h, p, u, h);
  }

  // The groups moved down by g bits and masked
  lemma {:induction false} MaskedDown(u: nat, h: nat, l: nat, g: nat, mask: nat)
    requires h < Pow2(g) && l < Pow2(g)
    ensures var p := Pow2(g); var s := Pow2(2 * g);
            && s == p * p && u / p >= 0 && u * s + (h * p + l) >= 0 && (u * s + (h * p + l)) / p >= 0 && mask * s + (p - 1) >= 0
            && And((u * s + (h * p + l)) / p, mask * s + (p - 1)) == And(u / p, mask) * s + h
  {
    hide And, Pow2;
    var p := Pow2(g);
    Pow2Add(g, g);
    var s := Pow2(2 * g);
    PartsArithmetic(u, h, l, p);
    MulMono(s, 0, mask);
    DivModBounds(u, p);
    var u1, u0 := u / p, u % p;
    PartsArithmetic(u1, u0, h, p);
    ThreeWay(u1, p, p);
    Distribute(u1 * p, u0, p);
    assert (u * s + (h * p + l)) / p == u1 * s + (u0 * p + h);
    MulMono(p, 1, p);
    AndJoin(u1, u0 * p + h, mask, p - 1, 2 * g);
    AndOnes(u0 * p + h, g);
    DivModUnique(u0 * p + h, p, u0, h);
  }

  // The groups masked in place
  lemma {:induction false} MaskedInPlace(u: nat, h: nat, l: nat, g: nat, mask: nat)
    requires h < Pow2(g) && l < Pow2(g)
    ensures var p := Pow2(g); var s := Pow2(2 * g);
            && s == p * p && u * s + (h * p + l) >= 0 && mask * s + (p - 1) >= 0
            && And(u * s + (h * p + l), mask * s + (p - 1)) == And(u, mask) * s + l
  {
    hide And, Pow2;
    var p := Pow2(g);
    Pow2Add(g, g);
    var s := Pow2(2 * g);
    PartsArithmetic(u, h, l, p);
    MulMono(s, 0, mask);
    MulMono(p, 1, p);
    AndJoin(u, h * p + l, mask, p - 1, 2 * g);
    AndOnes(h * p + l, g);
    DivModUnique(h * p + l, p, h, l);
  }

  // The two masked values joined again
  lemma {:induction false} JoinMasked(x: nat, y: nat, h: nat, l: nat, g: nat)
    requires h < Pow2(g) && l < Pow2(g)
    ensures var p := Pow2(g); var s := Pow2(2 * g);
            && x * s >= 0 && y * p >= 0 && l * p >= 0 && (y * s + l) * p >= 0
            && Or(x * s + h, (y * s + l) * p) == Or(x, y * p) * s + (l * p + h)
  {
    hide Or, Pow2;
    var p := Pow2(g);
    Pow2Add(g, g);
    var s := Pow2(2 * g);
    Distribute(y * s, l, p);
    ThreeWay(y, s, p);
    MulMono(p, 0, y);
    MulMono(s, 0, x);
    PartsArithmetic(0, l, h, p);
    PartsArithmetic(0, 0, h, p);
    OrJoin(x, h, y * p, l * p, 2 * g);
    OrDisjoint(h, l, g);
  }

  /** A masked swap exchanges the lowest two groups and swaps the groups above them. */
  lemma {:induction false} SwapLowest(u: nat, h: nat, l: nat, g: nat, mask: nat)
    requires h < Pow2(g) && l < Pow2(g)
    ensures var p := Pow2(g); var s := Pow2(2 * g);
            && s == p * p && u * s + (h * p + l) >= 0 && mask * s + (p - 1) >= 0
            && SwapMasked(u * s + (h * p + l), g, mask * s + (p - 1)) == SwapMasked(u, g, mask) * s + (l * p + h)
  {
    hide Or, And, Pow2;
    MaskedDown(u, h, l, g, mask);
    MaskedInPlace(u, h, l, g, mask);
    JoinMasked(And(u / Pow2(g), mask), And(u, mask), h, l, g);
  }

  // A value is made of its lowest two groups and the rest.
  lemma {:induction false} Parts(v: nat, g: nat)
    ensures var p, s := Pow2(g), Pow2(2 * g);
            && s == p * p
            && 0 <= v / p && 0 <= v / p / p && 0 <= v % p < p && 0 <= v / p % p < p
            && v / s == v / p / p && v % s == v / p % p * p + v % p
  {
    hide Pow2;
    var p := Pow2(g);
    Pow2Add(g, g);
    DivModBounds(v, p);
    DivModBounds(v / p, p);
    var l, h, u := v % p, v / p % p, v / p / p;
    PartsArithmetic(u, h, l, p);
    ThreeWay(u, p, p);
    Distribute(u * p, h, p);
  }

  // Two steps of the recursion
  lemma {:induction false} ReverseTwoGroups(v: nat, g: nat, count: nat)
    requires count >= 2
    ensures var p, s := Pow2(g), Pow2(2 * g);
            && 0 <= v / p && 0 <= v / p / p && 0 <= v % p && 0 <= v / p % p
            && ReverseGroups(v, g, count)
               == ReverseGroups(v / p / p, g, count - 2) * s + (Reverse(g, v / p % p) * p + Reverse(g, v % p))
  {
    hide Pow2, Reverse;
    var p := Pow2(g);
    Parts(v, g);
    var r, h := ReverseGroups(v / p / p, g, count - 2), Reverse(g, v / p % p);
    assert ReverseGroups(v / p, g, count - 1) == r * p + h;
    Distribute(r * p, h, p);
    ThreeWay(r, p, p);
  }

  lemma {:induction false} SwapStep(v: nat, g: nat, count: nat)
    requires count >= 1
    ensures 0 <= v / Pow2(2 * g) && 0 <= v % Pow2(2 * g)
    ensures ReverseGroups(v, 2 * g, count)
         == ReverseGroups(v / Pow2(2 * g), 2 * g, count - 1) * Pow2(2 * g) + Reverse(2 * g, v % Pow2(2 * g))
    ensures Mask(g, count) == Mask(g, count - 1) * Pow2(2 * g) + (Pow2(g) - 1)
  {
    hide Pow2, Reverse;
    DivModBounds(v, Pow2(2 * g));
  }

  /** Swapping neighbours among reversed groups reverses the groups of twice the size. */
  lemma {:induction false} SwapDoubles(v: nat, g: nat, count: nat)
    ensures SwapMasked(ReverseGroups(v, g, 2 * count), g, Mask(g, count)) == ReverseGroups(v, 2 * g, count)
  {
    hide Or, And, Pow2, Reverse, SwapMasked, ReverseGroups, Mask;
    var p := Pow2(g);
    if count == 0 {
      SwapNothing(v, g);
    } else {
      SwapStep(v, g, count);
      Parts(v, g);
      var l, h, u := v % p, v / p % p, v / p / p;
      SwapDoubles(u, g, count - 1);
      ReverseTwoGroups(v, g, 2 * count);
      ReverseBound(g, l);
      ReverseBound(g, h);
      SwapLowest(ReverseGroups(u, g, 2 * count - 2), Reverse(g, h), Reverse(g, l), g, Mask(g, count - 1));
      ReverseJoin(g, h, g, l);
    }
  }

  lemma {:induction false} SwapNothing(v: nat, g: nat)
    ensures SwapMasked(ReverseGroups(v, g, 0), g, Mask(g, 0)) == 0 == ReverseGroups(v, 2 * g, 0)
  {
    DivModUnique(0, Pow2(g), 0, 0);
  }

  lemma {:induction false} ReverseSingles(v: nat, count: nat)
    requires v < Pow2(count)
    ensures ReverseGroups(v, 1, count) == v
  {
    Pow2Small();
    if count > 0 {
      ReverseSingles(v / 2, count - 1);
      ReverseOneBit(v % 2);
    }
  }

  lemma ReverseWhole(v: nat, g: nat)
    requires v < Pow2(g)
    ensures ReverseGroups(v, g, 1) == Reverse(g, v)
  {
    DivModUnique(v, Pow2(g), 0, v);
    assert ReverseGroups(0, g, 0) == 0;
  }

  /** The overloads for 2, 4, 8, 16 and 32 bits, which are the cases w == 1 to 5: the swaps of single bits, of
      pairs, and so on up to the two halves. */
  method BitReversePowerOfTwo(v: nat, w: nat) returns (value: nat)
    requires v < Pow2(Pow2(w))
    ensures value == Reverse(Pow2(w), v)
  {
    hide Or, And, Reverse, Mask, SwapMasked, ReverseGroups;
    value := v;
    assert value == ReverseGroups(v, 1, Pow2(w)) by { ReverseSingles(v, Pow2(w)); }
    var s := 0;
    while s < w
      invariant s <= w
      invariant value == ReverseGroups(v, Pow2(s), Pow2(w - s))
    {
      var g, mask := Pow2(s), Mask(Pow2(s), Pow2(w - s - 1));
      Pow2Double(s);
      Pow2Double(w - s - 1);
      SwapDoubles(v, g, Pow2(w - s - 1));
      value := SwapMasked(value, g, mask);
      s := s + 1;
    }
    Pow2Small();
    ReverseWhole(v, Pow2(w));
  }

  lemma SmallWidths()
    ensures Pow2(1) == 2 && Pow2(2) == 4 && Pow2(3) == 8 && Pow2(4) == 16 && Pow2(5) == 32
  {
  }

  /** Any number of bits: reverse within the next power of two and shift the zeros out again. */
  method BitReverse(v: nat, n: nat) returns (value: nat)
    requires 2 <= n <= 32 && v < Pow2(n)
    ensures value == Reverse(n, v)
    ensures value < Pow2(n)
  {
    hide Reverse, Pow2;
    var w := if n <= 2 then 1 else if n <= 4 then 2 else if n <= 8 then 3 else if n <= 16 then 4 else 5;
    var width := Pow2(w);
    SmallWidths();
    Pow2Mono(n, width);
    value := BitReversePowerOfTwo(v, w);
    ReverseJoin(width - n, 0, n, v);
    ReverseZero(width - n);
    ReverseBound(n, v);
    DivModUnique(value, Pow2(width - n), Reverse(n, v), 0);
    value := value / Pow2(width - n);
  }
}
