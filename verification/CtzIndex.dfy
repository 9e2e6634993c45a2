/** The closed-form block index of a file (`lfs_ctz_index`) against the layout it
    is meant to invert: block 0 holds only data, block i begins with one 4-byte
    pointer per k <= ctz(i). */
module CtzIndex {
  import opened Bits

  const FILE_MAX := 2147483647

  /** Bytes block i gives up to pointers. */
  function PointerBytes(i: nat): nat {
    if i == 0 then 0 else 4 * (Ctz(i) + 1)
  }

  /** File position of the first data byte of block i. */
  function DataStart(blockSize: nat, i: nat): int {
    if i == 0 then 0 else DataStart(blockSize, i - 1) + blockSize - PointerBytes(i - 1)
  }

  /** Byte `pos` of a file lies at offset `off` of its i-th block. */
  predicate LocatedAt(blockSize: nat, pos: nat, i: nat, off: int) {
    PointerBytes(i) <= off < blockSize && pos == DataStart(blockSize, i) + off - PointerBytes(i)
  }

  /** The assertion the engine makes on its configuration. */
  predicate AcceptedBlockSize(blockSize: nat) {
    blockSize > 8 && var blocks := 0xffffffff / (blockSize - 8); blocks >= 2 && 4 * Npw2(blocks) <= blockSize
  }

  /** Second division: the block index, given the first estimate. The
      subtraction never goes below zero (NothingUnderflows). */
  function Corrected(b: nat, size: nat, estimate: nat): (r: nat)
    requires b > 0 && estimate > 0
  {
    var d := size - 4 * (Popc(estimate - 1) + 2);
    if d < 0 then 0 else Quot(d, b)
  }

  /** The block and the offset the two divisions give. */
  function BlockFormula(blockSize: nat, size: nat): (r: nat)
    requires blockSize > 8
  {
    var estimate := Quot(size, blockSize - 8);
    if estimate == 0 then 0 else Corrected(blockSize - 8, size, estimate)
  }

  function OffsetFormula(blockSize: nat, size: nat): (r: int)
    requires blockSize > 8
  {
    if Quot(size, blockSize - 8) == 0 then size
    else
      var i := BlockFormula(blockSize, size);
      size - (blockSize - 8) * i - 4 * Popc(i)
  }

  /** The formula gives the place of byte `size`. */
  predicate ExactAt(blockSize: nat, size: nat)
    requires blockSize > 8
  {
    LocatedAt(blockSize, size, BlockFormula(blockSize, size), OffsetFormula(blockSize, size))
  }

  // ----- the layout -----

  /** Legendre's identity in the form the index uses: summing the pointers of
      the blocks before i gives a multiple of i corrected by a bit count. */
  lemma {:induction false} DataStartClosed(blockSize: nat, i: nat)
    requires i > 0
    ensures DataStart(blockSize, i) == (blockSize - 8) * i + 4 * (Popc(i - 1) + 2)
  {
    MulStep(blockSize - 8, i);
    if i > 1 {
      DataStartClosed(blockSize, i - 1);
      PopcSuccessor(i - 2);
    }
  }

  /** The same for the place of a byte: where its block would have to start if
      all blocks lost just two pointers, corrected by a bit count. */
  lemma ClosedPlace(blockSize: nat, size: nat, t: nat, off: nat)
    requires t > 0 && LocatedAt(blockSize, size, t, off)
    ensures size == (blockSize - 8) * t + (4 * Popc(t) + off)
    ensures 4 * (Popc(t - 1) + 2) <= 4 * Popc(t) + off
  {
    DataStartClosed(blockSize, t);
    PopcSuccessor(t - 1);
  }

  /** The blocks a file can have keep room for data after their pointers. */
  lemma PointersFit(blockSize: nat, i: nat)
    requires blockSize > 104 && i < Pow2(25)
    ensures PointerBytes(i) < blockSize
  {
    if i > 0 { CtzBelow(i, 25); }
  }

  lemma {:induction false} DataStartMonotone(blockSize: nat, i: nat, j: nat)
    requires i <= j
    requires forall k: nat :: k < j ==> PointerBytes(k) < blockSize
    ensures DataStart(blockSize, i) + (j - i) <= DataStart(blockSize, j)
    decreases j - i
  {
    if i < j { DataStartMonotone(blockSize, i, j - 1); }
  }

  /** The layout gives every byte one place. */
  lemma PlaceIsUnique(blockSize: nat, pos: nat, i: nat, off: nat, j: nat, off': nat)
    requires LocatedAt(blockSize, pos, i, off) && LocatedAt(blockSize, pos, j, off')
    requires forall k: nat :: k < i || k < j ==> PointerBytes(k) < blockSize
    ensures i == j && off == off'
  {
    if i < j {
      DataStartMonotone(blockSize, i + 1, j);
    } else if j < i {
      DataStartMonotone(blockSize, j + 1, i);
    }
  }

  // ----- correctness of the formula -----

  /** One division overestimates the block by at most one as long as the bit
      count of the true block is small against the block size; the second
      division then repairs it. */
  lemma FormulaCorrects(blockSize: nat, size: nat, t: nat, off: nat)
    requires blockSize > 16
    requires LocatedAt(blockSize, size, t, off)
    requires 4 * (Popc(t) + 2) <= blockSize - 8
    ensures BlockFormula(blockSize, size) == t && OffsetFormula(blockSize, size) == off
  {
    var b := blockSize - 8;
    if t == 0 {
      Estimate(b, size, 0, size);
      assert Popc(0) == 0;
      if b <= size {
        SecondDivision(b, size, 0, size, 1);
      }
    } else {
      ClosedPlace(blockSize, size, t, off);
      LaterBlockCorrects(b, size, t, off, 4 * Popc(t) + off);
    }
  }

  lemma LaterBlockCorrects(b: nat, size: nat, t: nat, off: nat, rest: nat)
    requires t > 0 && rest == 4 * Popc(t) + off && off < b + 8
    requires 4 * (Popc(t - 1) + 2) <= rest && 4 * (Popc(t) + 2) <= b
    requires size == b * t + rest
    ensures BlockFormula(b + 8, size) == t && OffsetFormula(b + 8, size) == off
  {
    Estimate(b, size, t, rest);
    SecondDivision(b, size, t, rest, if rest < b then t else t + 1);
  }

  lemma SecondDivision(b: nat, size: nat, t: nat, rest: nat, estimate: nat)
    requires b > 0 && estimate > 0 && size == b * t + rest
    requires var c := 4 * (Popc(estimate - 1) + 2); c <= rest < c + b
    ensures Corrected(b, size, estimate) == t
  {
    QuotIs(size - 4 * (Popc(estimate - 1) + 2), b, t);
  }

  lemma Estimate(b: nat, size: nat, t: nat, rest: nat)
    requires b > 0 && size == b * t + rest && rest < b + b
    ensures Quot(size, b) == if rest < b then t else t + 1
  {
    if rest < b {
      QuotIs(size, b, t);
    } else {
      assert b * (t + 1) == b * t + b;
      QuotIs(size, b, t + 1);
    }
  }

  /** Every byte up to the largest file size lies in a block below 2^25 - 1. */
  lemma PlaceExists(blockSize: nat, pos: nat, bound: nat) returns (i: nat, off: nat)
    requires blockSize >= 112 && bound <= Pow2(25)
    requires pos < DataStart(blockSize, bound)
    ensures i < bound && LocatedAt(blockSize, pos, i, off)
  {
    if pos >= DataStart(blockSize, bound - 1) {
      i := bound - 1;
      off := pos - DataStart(blockSize, i) + PointerBytes(i);
    } else {
      i, off := PlaceExists(blockSize, pos, bound - 1);
    }
  }

  lemma LargeFilesFit(blockSize: nat)
    requires blockSize >= 112
    ensures FILE_MAX < DataStart(blockSize, Pow2(25) - 1)
  {
    Pow2Values();
    DataStartClosed(blockSize, Pow2(25) - 1);
    assert (blockSize - 8) * 33554431 >= 104 * 33554431;
  }

  /** With blocks of at least 112 bytes the formula is exact for every position
      a file can have. */
  lemma ExactFromBlockSize112(blockSize: nat, size: nat)
    requires blockSize >= 112 && size <= FILE_MAX
    ensures ExactAt(blockSize, size)
    ensures BlockFormula(blockSize, size) < Pow2(25) - 1
  {
    LargeFilesFit(blockSize);
    var t, off := PlaceExists(blockSize, size, Pow2(25) - 1);
    PopcAtMost(t, 25);
    assert Popc(t) <= 24;
    FormulaCorrects(blockSize, size, t, off);
  }

  lemma DivAtLeast(m: nat, b: nat, k: nat)
    requires b > 0 && b * k <= m
    ensures m / b >= k
  {
    FloorMul(m, b);
    MulGap(b, k, m / b);
  }

  lemma DivBelow(m: nat, b: nat, k: nat)
    requires b > 0 && m < b * k
    ensures m / b < k
  {
    FloorMul(m, b);
    MulGap(b, m / b, k);
  }

  lemma Npw2Upto(x: nat, k: nat)
    requires 2 <= x
    ensures x <= Pow2(k) ==> Npw2(x) <= k
    ensures x > Pow2(k) ==> Npw2(x) > k
  {
    Npw2IsLeast(x);
    if x > Pow2(k) && Npw2(x) <= k { Pow2Monotone(Npw2(x), k); }
  }

  /** Block sizes below 104 do not pass the configuration assertion... */
  lemma AcceptedAtLeast104(blockSize: nat)
    requires AcceptedBlockSize(blockSize)
    ensures blockSize >= 104
  {
    hide Npw2;
    if blockSize < 104 {
      var b := blockSize - 8;
      MulMonotone(33554433, b, 95);
      DivAtLeast(0xffffffff, b, 33554433);
      Pow2Values();
      Npw2Upto(0xffffffff / b, 25);
    }
  }

  /** ...and all others do, up to 2 GiB, where the number of blocks would be below
      what lfs_npw2 is defined for. */
  lemma AcceptedFrom104(blockSize: nat)
    requires 8 < blockSize <= 0x8000_0000
    ensures AcceptedBlockSize(blockSize) <==> blockSize >= 104
  {
    hide Npw2;
    if blockSize >= 104 {
      var b := blockSize - 8;
      MulMonotone(44739243, 96, b);
      DivBelow(0xffffffff, b, 44739243);
      DivAtLeast(0xffffffff, b, 2);
      Pow2Values();
      assert Pow2(26) == 2 * Pow2(25);
      Npw2Upto(0xffffffff / b, 26);
    } else if AcceptedBlockSize(blockSize) {
      AcceptedAtLeast104(blockSize);
    }
  }

  /** A configuration that is accepted, and a position in its files for which the
      formula is wrong. */
  lemma Wrong104()
    ensures AcceptedBlockSize(104) && 96 * 16777217 <= FILE_MAX && !ExactAt(104, 96 * 16777217)
  {
    AcceptedFrom104(104);
    WrongBelow112(104);
  }

  /** Block sizes the assertion lets through below 112 break the formula: here
      is the position, in the last but one block before an estimate that is two
      too large. */
  lemma WrongBelow112(blockSize: nat)
    requires 104 <= blockSize < 112
    ensures (blockSize - 8) * 16777217 <= FILE_MAX
    ensures !ExactAt(blockSize, (blockSize - 8) * 16777217)
  {
    var b := blockSize - 8;
    var size := b * 16777217;
    Pow2Values();
    Estimate(b, size, 16777217, 0);
    PopcPow2(24);
    SecondDivision(b, size, 16777216, b, 16777217);
    StartOfBlock2To24(blockSize);
  }

  lemma StartOfBlock2To24(blockSize: nat)
    ensures DataStart(blockSize, 16777216) == (blockSize - 8) * 16777216 + 104
  {
    Pow2Values();
    PopcAllOnes(24);
    DataStartClosed(blockSize, 16777216);
  }

  /** The exact condition: the index is right for every file position if and
      only if blocks have at least 112 bytes. */
  lemma ExactIffBlockSize112(blockSize: nat)
    requires AcceptedBlockSize(blockSize)
    ensures (forall size: nat :: size <= FILE_MAX ==> ExactAt(blockSize, size)) <==> blockSize >= 112
  {
    AcceptedAtLeast104(blockSize);
    if blockSize >= 112 {
      forall size: nat | size <= FILE_MAX ensures ExactAt(blockSize, size) {
        ExactFromBlockSize112(blockSize, size);
      }
    } else {
      WrongBelow112(blockSize);
    }
  }

  /** For every block size the assertion admits, both subtractions of the
      formula stay at or above zero. */
  lemma NothingUnderflows(blockSize: nat, size: nat)
    requires blockSize >= 104 && size <= FILE_MAX
    ensures OffsetFormula(blockSize, size) >= 0
    ensures Quot(size, blockSize - 8) > 0 ==> 4 * (Popc(Quot(size, blockSize - 8) - 1) + 2) <= size
  {
    var b := blockSize - 8;
    var estimate := Quot(size, b);
    QuotBounds(size, b);
    if estimate > 0 {
      CorrectionFits(b, size, estimate);
      EstimateSmall(b, size, estimate);
      var d := size - 4 * (Popc(estimate - 1) + 2);
      QuotBounds(d, b);
      PopcNearEstimate(b, size, estimate, Quot(d, b));
    }
  }

  lemma CorrectionFits(b: nat, size: nat, estimate: nat)
    requires b >= 96 && 0 < estimate && b * estimate <= size
    ensures 4 * (Popc(estimate - 1) + 2) <= size
  {
    PopcAtMostValue(estimate - 1);
    MulMonotone(estimate, 96, b);
  }

  lemma EstimateSmall(b: nat, size: nat, estimate: nat)
    requires b >= 96 && size <= FILE_MAX && b * estimate <= size
    ensures estimate < Pow2(25)
  {
    Pow2Values();
    MulMonotone(estimate, 96, b);
  }

  lemma PopcNearEstimate(b: nat, size: nat, estimate: nat, i: nat)
    requires b >= 96 && 0 < estimate < Pow2(25)
    requires b * estimate <= size
    requires var d := size - 4 * (Popc(estimate - 1) + 2); b * i <= d < b * i + b
    requires size < b * estimate + b
    ensures Popc(i) <= Popc(estimate - 1) + 2
  {
    MulGap(b, i, estimate);
    if i == estimate {
      PopcSuccessor(estimate - 1);
    } else if i < estimate - 1 {
      MulGap(b, estimate - 1, i);
      MulGap(b, estimate, estimate - 1);
      PopcAtMost(i, 25);
    }
  }

  /** `lfs_ctz_index`: maps a file position to a block index and replaces the
      position by the offset inside that block. */
  method Index(blockSize: nat, pos: nat) returns (i: nat, off: nat)
    requires blockSize >= 104 && pos <= FILE_MAX
    ensures i == BlockFormula(blockSize, pos) && off == OffsetFormula(blockSize, pos)
    ensures blockSize >= 112 ==> LocatedAt(blockSize, pos, i, off) && i < Pow2(25) - 1
  {
    NothingUnderflows(blockSize, pos);
    var size := pos;
    var b := blockSize - 8;
    i := Quot(size, b);
    if i == 0 {
      off := size;
    } else {
      i := Quot(size - 4 * (Popc(i - 1) + 2), b);
      off := size - b * i - 4 * Popc(i);
    }
    if blockSize >= 112 { ExactFromBlockSize112(blockSize, pos); }
  }
}
