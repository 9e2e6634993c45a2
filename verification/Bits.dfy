/** The unsigned arithmetic helpers of the engine, with the facts the block
    index, the skip list and the commit layout rest on. */
module Bits {

  const WORD := 0x1_0000_0000

  function Pow2(k: nat): (r: nat)
    ensures r > 0
  {
    if k == 0 then 1 else 2 * Pow2(k - 1)
  }

  /** Number of one bits. */
  function Popc(x: nat): (r: nat) {
    if x == 0 then 0 else x % 2 + Popc(x / 2)
  }

  /** Number of trailing zero bits. */
  function Ctz(x: nat): (r: nat)
    requires x > 0
  {
    if x % 2 == 1 then 0 else 1 + Ctz(x / 2)
  }

  /** Number of bits up to the highest one bit. */
  function BitLen(x: nat): (r: nat) {
    if x == 0 then 0 else 1 + BitLen(x / 2)
  }

  /** Exponent of the smallest power of two not below a: the width minus the
      leading zeros of a - 1. */
  function Npw2(a: nat): (r: nat)
    requires a >= 2
  {
    BitLen(a - 1)
  }

  function Min(a: nat, b: nat): nat { if a < b then a else b }

  function Max(a: nat, b: nat): nat { if a > b then a else b }

  function AlignDown(a: nat, alignment: nat): (r: nat)
    requires alignment > 0
  {
    a - a % alignment
  }

  function AlignUp(a: nat, alignment: nat): (r: nat)
    requires alignment > 0
  {
    AlignDown(a + alignment - 1, alignment)
  }

  /** x / m by repeated subtraction: the same number (QuotIsDivision), in a form
      that keeps division by a variable out of the proofs. */
  function Quot(x: nat, m: nat): (r: nat)
    requires m > 0
  {
    if x < m then 0 else 1 + Quot(x - m, m)
  }

  /** Distance between two 32-bit sequence numbers, ignoring overflow. */
  function Scmp(a: nat, b: nat): (r: int)
    requires a < WORD && b < WORD
  {
    var d := (a - b) % WORD;
    if d < WORD / 2 then d else d - WORD
  }

  // ----- powers of two -----

  lemma Pow2Monotone(j: nat, k: nat)
    requires j <= k
    ensures Pow2(j) <= Pow2(k)
    decreases k - j
  {
    if j < k { Pow2Monotone(j + 1, k); }
  }

  lemma Pow2Values()
    ensures Pow2(16) == 0x1_0000 && Pow2(24) == 0x100_0000
    ensures Pow2(25) == 0x200_0000 && Pow2(31) == 0x8000_0000 && Pow2(32) == WORD
  {
    assert Pow2(8) == 256;
    Pow2Add(8, 8);
    Pow2Add(16, 8);
    Pow2Add(24, 1);
    Pow2Add(24, 7);
    Pow2Add(16, 16);
    assert Pow2(7) == 128;
  }

  lemma Pow2Add(j: nat, k: nat)
    ensures Pow2(j + k) == Pow2(j) * Pow2(k)
  {
    if j > 0 { Pow2Add(j - 1, k); }
  }

  lemma BitLenBounds(x: nat)
    requires x > 0
    ensures BitLen(x) > 0
    ensures Pow2(BitLen(x) - 1) <= x < Pow2(BitLen(x))
  {
    if x > 1 { BitLenBounds(x / 2); }
  }

  lemma BitLenUnique(x: nat, k: nat)
    requires Pow2(k) <= x < Pow2(k + 1)
    ensures BitLen(x) == k + 1
  {
    if k == 0 {
      assert x == 1;
    } else {
      BitLenUnique(x / 2, k - 1);
    }
  }

  lemma {:induction false} BitLenMonotone(x: nat, y: nat)
    requires x <= y
    ensures BitLen(x) <= BitLen(y)
  {
    if x > 0 { BitLenMonotone(x / 2, y / 2); }
  }

  /** The power of two returned is the least one that is not below a. */
  lemma Npw2IsLeast(a: nat)
    requires a >= 2
    ensures a <= Pow2(Npw2(a))
    ensures forall k: nat :: a <= Pow2(k) ==> Npw2(a) <= k
  {
    BitLenBounds(a - 1);
    forall k: nat | a <= Pow2(k) ensures Npw2(a) <= k {
      if k < Npw2(a) { Pow2Monotone(k, Npw2(a) - 1); }
    }
  }

  // ----- trailing zeros -----

  lemma CtzDivides(x: nat)
    requires x > 0
    ensures Pow2(Ctz(x)) <= x
    ensures x % Pow2(Ctz(x)) == 0
  {
    if x % 2 == 0 {
      CtzDivides(x / 2);
      var p := Pow2(Ctz(x / 2));
      assert x == 2 * (x / 2) == 2 * (p * (x / 2 / p)) == (2 * p) * (x / 2 / p);
      MultipleMod(x / 2 / p, 2 * p);
    }
  }

  /** A power of two divides the number exactly up to that exponent. */
  lemma {:induction false} CtzIsLargest(x: nat, k: nat)
    requires x > 0
    ensures x % Pow2(k) == 0 <==> k <= Ctz(x)
  {
    if k > 0 && x % 2 == 0 {
      CtzIsLargest(x / 2, k - 1);
      HalfMod(x / 2, Pow2(k - 1));
    } else if k > 0 {
      OddMod(x, Pow2(k - 1));
    }
  }

  lemma OddMod(x: nat, m: nat)
    requires m > 0 && x % 2 == 1
    ensures x % (2 * m) != 0
  {
    FloorMul(x, 2 * m);
    var q := x / (2 * m);
    assert (2 * m) * q == 2 * (m * q);
  }

  lemma HalfMod(x: nat, m: nat)
    requires m > 0
    ensures (2 * x) % (2 * m) == 2 * (x % m)
  {
    FloorMul(x, m);
    var q := x / m;
    assert (2 * m) * q == 2 * (m * q);
    QuotientIs(2 * x, 2 * m, q);
    FloorMul(2 * x, 2 * m);
  }

  lemma MultipleMod(q: nat, m: nat)
    requires m > 0
    ensures (m * q) % m == 0
  {
    if q > 0 {
      MultipleMod(q - 1, m);
      assert m * q == m * (q - 1) + m;
      assert (m * (q - 1) + m) % m == (m * (q - 1)) % m by { AddMod(m * (q - 1), m); }
    }
  }

  lemma AddMod(x: nat, m: nat)
    requires m > 0
    ensures (x + m) % m == x % m
  {
    FloorMul(x, m);
    assert m * (x / m + 1) == m * (x / m) + m;
    QuotientIs(x + m, m, x / m + 1);
    FloorMul(x + m, m);
  }

  lemma MulMonotone(m: nat, a: int, b: int)
    requires a <= b
    ensures m * a <= m * b
  {
  }

  lemma MulStep(m: int, k: int)
    ensures m * k == m * (k - 1) + m
  {
  }

  lemma FloorMul(x: nat, m: nat)
    requires m > 0
    ensures m * (x / m) <= x < m * (x / m) + m
    ensures x == m * (x / m) + x % m
  {
  }

  lemma {:induction false} QuotIs(x: nat, m: nat, q: nat)
    requires m > 0 && m * q <= x < m * q + m
    ensures Quot(x, m) == q
  {
    if q > 0 {
      assert m * q == m * (q - 1) + m;
      MulMonotone(m, 0, q - 1);
      QuotIs(x - m, m, q - 1);
    }
  }

  lemma {:induction false} QuotBounds(x: nat, m: nat)
    requires m > 0
    ensures m * Quot(x, m) <= x < m * Quot(x, m) + m
  {
    if x >= m {
      QuotBounds(x - m, m);
      assert m * (1 + Quot(x - m, m)) == m + m * Quot(x - m, m);
    }
  }

  /** Distinct multiples are at least m apart. */
  lemma MulGap(m: nat, a: int, b: int)
    ensures a > b ==> m * a >= m * b + m
  {
    if a > b {
      MulMonotone(m, b + 1, a);
      assert m * (b + 1) == m * b + m;
    }
  }

  lemma QuotIsDivision(x: nat, m: nat)
    requires m > 0
    ensures Quot(x, m) == x / m
  {
    FloorMul(x, m);
    QuotIs(x, m, x / m);
  }

  lemma QuotientIs(x: nat, m: nat, q: nat)
    requires m > 0 && m * q <= x < m * q + m
    ensures x / m == q
  {
    FloorMul(x, m);
    var d := x / m - q;
    assert m * d == m * (x / m) - m * q;
    if d > 0 {
      MulMonotone(m, 1, d);
    } else if d < 0 {
      MulMonotone(m, d, -1);
    }
  }

  /** Removing a power of two below the lowest one bit leaves a number whose
      lowest one bit is that power. */
  lemma CtzAfterShortSkip(x: nat, k: nat)
    requires x > 0 && k < Ctz(x)
    ensures Pow2(k) < x
    ensures Ctz(x - Pow2(k)) == k
  {
    if k == 0 {
      assert x % 2 == 0;
    } else {
      CtzAfterShortSkip(x / 2, k - 1);
      CtzOfDouble(x / 2 - Pow2(k - 1));
      assert x - Pow2(k) == 2 * (x / 2 - Pow2(k - 1));
    }
  }

  lemma CtzOfDouble(x: nat)
    requires x > 0
    ensures Ctz(2 * x) == 1 + Ctz(x)
  {
  }

  /** Removing the lowest one bit raises the number of trailing zeros. */
  lemma CtzAfterFullSkip(x: nat)
    requires x > 0 && x != Pow2(Ctz(x))
    ensures Pow2(Ctz(x)) < x
    ensures Ctz(x) < Ctz(x - Pow2(Ctz(x)))
  {
    CtzDivides(x);
    if x % 2 == 1 {
      assert Ctz(x - 1) == 1 + Ctz((x - 1) / 2);
    } else {
      CtzAfterFullSkip(x / 2);
      assert x - Pow2(Ctz(x)) == 2 * (x / 2 - Pow2(Ctz(x / 2)));
    }
  }

  lemma CtzBelow(x: nat, k: nat)
    requires 0 < x < Pow2(k)
    ensures Ctz(x) < k
  {
    CtzDivides(x);
    if k <= Ctz(x) { Pow2Monotone(k, Ctz(x)); }
  }

  // ----- one bits -----

  /** Incrementing clears the trailing ones and sets the bit above them. */
  lemma {:induction false} PopcSuccessor(x: nat)
    ensures Popc(x + 1) + Ctz(x + 1) == Popc(x) + 1
  {
    if x % 2 == 1 {
      assert (x + 1) / 2 == x / 2 + 1;
      PopcSuccessor(x / 2);
    } else {
      assert (x + 1) / 2 == x / 2;
    }
  }

  lemma PopcAtMost(x: nat, k: nat)
    requires x < Pow2(k)
    ensures Popc(x) <= k
    ensures Popc(x) == k ==> x == Pow2(k) - 1
  {
    if k > 0 { PopcAtMost(x / 2, k - 1); }
  }

  lemma PopcAllOnes(k: nat)
    ensures Popc(Pow2(k) - 1) == k
  {
    if k > 0 {
      assert (Pow2(k) - 1) / 2 == Pow2(k - 1) - 1;
      PopcAllOnes(k - 1);
    }
  }

  lemma PopcPow2(k: nat)
    ensures Popc(Pow2(k)) == 1
  {
    if k > 0 { PopcPow2(k - 1); }
  }

  lemma PopcAtMostValue(x: nat)
    ensures Popc(x) <= x
  {
  }

  // ----- alignment -----

  lemma AlignDownBounds(a: nat, alignment: nat)
    requires alignment > 0
    ensures AlignDown(a, alignment) <= a < AlignDown(a, alignment) + alignment
    ensures AlignDown(a, alignment) % alignment == 0
  {
    assert a == alignment * (a / alignment) + a % alignment;
    MultipleMod(a / alignment, alignment);
  }

  lemma AlignUpBounds(a: nat, alignment: nat)
    requires alignment > 0
    ensures a <= AlignUp(a, alignment) < a + alignment
    ensures AlignUp(a, alignment) % alignment == 0
  {
    AlignDownBounds(a + alignment - 1, alignment);
  }

  // ----- sequence numbers -----

  /** A revision counter that has just been incremented compares as newer, also
      across the 32-bit wrap-around. */
  lemma ScmpSuccessor(r: nat)
    requires r < WORD
    ensures Scmp((r + 1) % WORD, r) == 1
    ensures Scmp(r, (r + 1) % WORD) == -1
  {
    if r + 1 == WORD {
      assert (r + 1) % WORD == 0;
    }
  }

  /** The comparison is the difference as a signed word. */
  lemma ScmpIsDifference(a: nat, b: nat)
    requires a < WORD && b < WORD
    ensures -0x8000_0000 <= Scmp(a, b) < 0x8000_0000
    ensures Scmp(a, b) == a - b || Scmp(a, b) == a - b + WORD || Scmp(a, b) == a - b - WORD
  {
  }

  // ----- exclusive or -----

  /** XOR of two numbers, bit by bit. */
  function XorNat(a: nat, b: nat): (r: nat) {
    if a == 0 && b == 0 then 0 else 2 * XorNat(a / 2, b / 2) + (a + b) % 2
  }

  lemma {:induction false} AssociatesNat(a: nat, b: nat, c: nat)
    ensures XorNat(XorNat(a, b), c) == XorNat(a, XorNat(b, c))
    decreases a + b + c
  {
    if a != 0 || b != 0 || c != 0 {
      AssociatesNat(a / 2, b / 2, c / 2);
      var ab, bc := XorNat(a, b), XorNat(b, c);
      XorParts(a, b);
      XorParts(b, c);
      XorParts(ab, c);
      XorParts(a, bc);
      hide XorNat;
      assert (ab + c) % 2 == (a + bc) % 2 by { SumParity(a, b, c, ab, bc); }
      var l, r := XorNat(ab, c), XorNat(a, bc);
      assert l / 2 == r / 2 && l % 2 == r % 2;
    }
  }

  lemma SumParity(a: nat, b: nat, c: nat, ab: nat, bc: nat)
    requires ab % 2 == (a + b) % 2 && bc % 2 == (b + c) % 2
    ensures (ab + c) % 2 == (a + bc) % 2
  {
  }

  lemma XorParts(a: nat, b: nat)
    ensures XorNat(a, b) / 2 == XorNat(a / 2, b / 2) && XorNat(a, b) % 2 == (a + b) % 2
  {
  }

  lemma CommutesNat(a: nat, b: nat)
    ensures XorNat(a, b) == XorNat(b, a)
  {
  }

  lemma CancelsNat(a: nat)
    ensures XorNat(a, a) == 0 && XorNat(a, 0) == a
  {
  }

  lemma XorNatUndo(a: nat, b: nat)
    ensures XorNat(XorNat(a, b), b) == a
  {
    hide XorNat;
    AssociatesNat(a, b, b);
    CancelsNat(a);
    CancelsNat(b);
  }

  /** The top bit of an XOR. */
  lemma {:induction false} XorTop(a: nat, b: nat, k: nat)
    requires a < 2 * Pow2(k) && b < 2 * Pow2(k)
    ensures XorNat(a, b) < 2 * Pow2(k) && ((XorNat(a, b) >= Pow2(k)) <==> ((a >= Pow2(k)) != (b >= Pow2(k))))
  {
    if k > 0 {
      XorTop(a / 2, b / 2, k - 1);
      XorParts(a, b);
    }
  }

  /** The low bits of an XOR come from the low bits. */
  lemma {:induction false} XorLow(a: nat, b: nat, k: nat)
    ensures XorNat(a, b) % Pow2(k) == XorNat(a % Pow2(k), b % Pow2(k))
  {
    if k > 0 {
      XorLow(a / 2, b / 2, k - 1);
      XorLowStep(a, b, Pow2(k - 1));
    }
  }

  lemma XorLowStep(a: nat, b: nat, m: nat)
    requires m > 0 && XorNat(a / 2, b / 2) % m == XorNat(a / 2 % m, b / 2 % m)
    ensures XorNat(a, b) % (2 * m) == XorNat(a % (2 * m), b % (2 * m))
  {
    hide XorNat;
    var x, al, bl := XorNat(a, b), a % (2 * m), b % (2 * m);
    XorParts(a, b);
    LowBits(a, m);
    LowBits(b, m);
    LowBits(x, m);
    XorParts(al, bl);
    Halves(x % (2 * m), XorNat(al, bl), (a + b) % 2, al, bl, a, b);
  }

  lemma Halves(x: nat, y: nat, bit: nat, al: nat, bl: nat, a: nat, b: nat)
    requires x / 2 == y / 2 && x % 2 == bit == (a + b) % 2 && y % 2 == (al + bl) % 2 && al % 2 == a % 2 &&
             bl % 2 == b % 2
    ensures x == y
  {
  }

  lemma LowBits(x: nat, m: nat)
    requires m > 0
    ensures x % (2 * m) == 2 * (x / 2 % m) + x % 2
    ensures x % (2 * m) / 2 == x / 2 % m && x % (2 * m) % 2 == x % 2
  {
    FloorMul(x / 2, m);
    var q, r := x / 2 / m, 2 * (x / 2 % m) + x % 2;
    assert x == 2 * m * q + r;
    QuotientIs(x, 2 * m, q);
    FloorMul(x, 2 * m);
  }
}
