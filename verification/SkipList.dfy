/** The copy-on-write skip list holding the blocks of a file: `lfs_ctz_find`,
    `lfs_ctz_extend` and `lfs_ctz_traverse`. Block i points back to block
    i - 2^k for every k up to the number of trailing zeros of i. */
module SkipList {
  import opened Bits
  import opened Bytes
  import opened CtzIndex

  type Disk = map<nat, seq<Byte>>

  const BLOCK_NULL := WORD - 1

  // 112 is where the block index becomes exact; 2^25 - 1 blocks hold FILE_MAX.
  predicate Geometry(blockSize: nat, count: nat) {
    112 <= blockSize < WORD && count < Pow2(25)
  }

  /** The blocks of a file are on the disk and block addresses are words. */
  ghost predicate OnDisk(disk: Disk, blockSize: nat, blocks: seq<nat>) {
    forall i :: 0 <= i < |blocks| ==> IsBlock(disk, blockSize, blocks[i])
  }

  ghost predicate IsBlock(disk: Disk, blockSize: nat, b: nat) {
    b < WORD && b in disk && |disk[b]| == blockSize
  }

  ghost predicate Agree(disk: Disk, disk': Disk, blocks: seq<nat>) {
    forall i :: 0 <= i < |blocks| ==> blocks[i] in disk && blocks[i] in disk' && disk'[blocks[i]] == disk[blocks[i]]
  }

  /** Pointer k of the block with this content leads from block i to block
      i - 2^k. */
  ghost predicate PointsBack(content: seq<Byte>, blocks: seq<nat>, i: nat, k: nat) {
    Pow2(k) <= i <= |blocks| && 4 * k + 4 <= |content| && WordAt(content, 4 * k) == blocks[i - Pow2(k)]
  }

  ghost predicate PointersAt(disk: Disk, blockSize: nat, blocks: seq<nat>, i: nat)
    requires OnDisk(disk, blockSize, blocks) && Geometry(blockSize, |blocks|)
    requires 0 < i < |blocks|
  {
    forall k: nat :: k <= Ctz(i) ==> PointsBack(disk[blocks[i]], blocks, i, k)
  }

  /** The skip-list invariant. */
  ghost predicate Chain(disk: Disk, blockSize: nat, blocks: seq<nat>) {
    Geometry(blockSize, |blocks|) && OnDisk(disk, blockSize, blocks) &&
    forall i :: 0 < i < |blocks| ==> PointersAt(disk, blockSize, blocks, i)
  }

  /** The data bytes of the chain, block after block, without the pointers. */
  ghost function Payload(disk: Disk, blockSize: nat, blocks: seq<nat>): (s: seq<Byte>)
    requires Geometry(blockSize, |blocks|) && OnDisk(disk, blockSize, blocks)
  {
    if blocks == [] then []
    else
      var last := |blocks| - 1;
      PointersFit(blockSize, last);
      Payload(disk, blockSize, blocks[..last]) + disk[blocks[last]][PointerBytes(last)..]
  }

  lemma {:induction false} PayloadLength(disk: Disk, blockSize: nat, blocks: seq<nat>)
    requires Geometry(blockSize, |blocks|) && OnDisk(disk, blockSize, blocks)
    ensures |Payload(disk, blockSize, blocks)| == DataStart(blockSize, |blocks|)
  {
    if blocks != [] {
      PointersFit(blockSize, |blocks| - 1);
      PayloadLength(disk, blockSize, blocks[..|blocks| - 1]);
    }
  }

  /** A byte of the payload sits where the layout says. */
  lemma {:induction false} PayloadAt(disk: Disk, blockSize: nat, blocks: seq<nat>, pos: nat, i: nat, off: nat)
    requires Geometry(blockSize, |blocks|) && OnDisk(disk, blockSize, blocks)
    requires i < |blocks| && LocatedAt(blockSize, pos, i, off)
    ensures pos < |Payload(disk, blockSize, blocks)|
    ensures Payload(disk, blockSize, blocks)[pos] == disk[blocks[i]][off]
  {
    var last := |blocks| - 1;
    var front, b := blocks[..last], blocks[last];
    assert blocks == front + [b];
    PayloadSnoc(disk, blockSize, front, b, PointerBytes(last));
    if i < last {
      PayloadAt(disk, blockSize, front, pos, i, off);
    } else {
      PayloadLength(disk, blockSize, front);
      ReadBehindFront(Payload(disk, blockSize, front), disk[b], PointerBytes(last), off);
    }
  }

  lemma ReadBehindFront(front: seq<Byte>, content: seq<Byte>, skip: nat, off: nat)
    requires skip <= off < |content|
    ensures (front + content[skip..])[|front| + off - skip] == content[off]
  {
  }

  /** Changing a block outside the chain changes nothing. */
  lemma {:induction false} PayloadFrame(disk: Disk, disk': Disk, blockSize: nat, blocks: seq<nat>)
    requires Geometry(blockSize, |blocks|) && OnDisk(disk, blockSize, blocks)
    requires Agree(disk, disk', blocks)
    ensures OnDisk(disk', blockSize, blocks)
    ensures Payload(disk', blockSize, blocks) == Payload(disk, blockSize, blocks)
  {
    if blocks != [] {
      PayloadFrame(disk, disk', blockSize, blocks[..|blocks| - 1]);
    }
  }

  lemma FollowPointer(disk: Disk, blockSize: nat, blocks: seq<nat>, i: nat, k: nat)
    requires Chain(disk, blockSize, blocks) && 0 < i < |blocks| && k <= Ctz(i)
    ensures Pow2(k) <= i && blocks[i] in disk && 4 * k + 4 <= |disk[blocks[i]]|
    ensures WordAt(disk[blocks[i]], 4 * k) == blocks[i - Pow2(k)]
  {
    assert PointersAt(disk, blockSize, blocks, i);
    assert PointsBack(disk[blocks[i]], blocks, i, k);
  }

  lemma ChainFrame(disk: Disk, disk': Disk, blockSize: nat, blocks: seq<nat>)
    requires Chain(disk, blockSize, blocks)
    requires Agree(disk, disk', blocks)
    ensures Chain(disk', blockSize, blocks)
  {
    forall i | 0 < i < |blocks| ensures PointersAt(disk', blockSize, blocks, i) {
      assert PointersAt(disk, blockSize, blocks, i);
    }
  }

  lemma ChainPrefix(disk: Disk, blockSize: nat, blocks: seq<nat>, n: nat)
    requires Chain(disk, blockSize, blocks) && n <= |blocks|
    ensures Chain(disk, blockSize, blocks[..n])
  {
    forall i | 0 < i < n ensures PointersAt(disk, blockSize, blocks[..n], i) {
      assert PointersAt(disk, blockSize, blocks, i);
      forall k: nat | k <= Ctz(i) ensures PointsBack(disk[blocks[..n][i]], blocks[..n], i, k) {
        assert PointsBack(disk[blocks[i]], blocks, i, k);
      }
    }
  }

  /** `blocks` are the blocks of a file given by its head block and its size. */
  ghost predicate FileBlocks(disk: Disk, blockSize: nat, head: nat, size: nat, blocks: seq<nat>) {
    Chain(disk, blockSize, blocks) && size <= FILE_MAX &&
    if size == 0 then blocks == []
    else
      blocks != [] && head == blocks[|blocks| - 1] &&
      DataStart(blockSize, |blocks| - 1) < size <= DataStart(blockSize, |blocks|)
  }

  /** The bytes of such a file. */
  ghost function Content(disk: Disk, blockSize: nat, head: nat, size: nat, blocks: seq<nat>): (s: seq<Byte>)
    requires FileBlocks(disk, blockSize, head, size, blocks)
    ensures |s| == size
  {
    PayloadLength(disk, blockSize, blocks);
    Payload(disk, blockSize, blocks)[..size]
  }

  // ----- find -----

  /** Bound on the hops still needed: the distance halves each time the skip is
      limited by it, and before that the trailing zeros grow with each hop. */
  function HopBound(current: nat, distance: nat): (r: nat)
    requires 0 < distance <= current
  {
    BitLen(distance) + (if Ctz(current) < BitLen(distance) then BitLen(distance) - 1 - Ctz(current) else 0)
  }

  function Skip(current: nat, target: nat): (r: nat)
    requires target < current
  {
    Min(Npw2(current - target + 1) - 1, Ctz(current))
  }

  lemma SkipIsLegal(current: nat, target: nat)
    requires target < current
    ensures Skip(current, target) <= Ctz(current)
    ensures Pow2(Skip(current, target)) <= current - target
  {
    BitLenBounds(current - target);
    Pow2Monotone(Skip(current, target), BitLen(current - target) - 1);
  }

  lemma HopProgress(current: nat, target: nat)
    requires target < current
    requires current - Pow2(Skip(current, target)) > target
    ensures var next := current - Pow2(Skip(current, target));
      HopBound(next, next - target) < HopBound(current, current - target)
  {
    var d := current - target;
    var s := Skip(current, target);
    SkipIsLegal(current, target);
    BitLenBounds(d);
    var d' := d - Pow2(s);
    BitLenMonotone(d', d);
    if s == BitLen(d) - 1 {
      assert d' < Pow2(s);
      BitLenBelow(d', s);
    }
    if s < Ctz(current) {
      CtzAfterShortSkip(current, s);
    } else {
      CtzAfterFullSkip(current);
    }
  }

  lemma BitLenBelow(x: nat, k: nat)
    requires 0 < x < Pow2(k)
    ensures BitLen(x) <= k
  {
    BitLenBounds(x);
    if BitLen(x) > k { Pow2Monotone(k, BitLen(x) - 1); }
  }

  /** The index computation as callers see it: the place of a position. */
  method Locate(blockSize: nat, pos: nat) returns (i: nat, off: nat)
    requires blockSize >= 112 && pos <= FILE_MAX
    ensures LocatedAt(blockSize, pos, i, off) && i < Pow2(25) - 1
  {
    i, off := Index(blockSize, pos);
  }

  /** `lfs_ctz_find`: walks from the last block of a file to the block holding
      byte `pos`. */
  method Find(disk: Disk, blockSize: nat, head: nat, size: nat, pos: nat, ghost blocks: seq<nat>)
    returns (block: nat, off: nat, ghost index: nat, ghost hops: nat)
    requires FileBlocks(disk, blockSize, head, size, blocks) && pos <= FILE_MAX
    ensures size == 0 ==> block == BLOCK_NULL && off == 0
    ensures pos < size ==> index < |blocks| && block == blocks[index] && LocatedAt(blockSize, pos, index, off)
    ensures pos < size ==> disk[block][off] == Content(disk, blockSize, head, size, blocks)[pos]
    ensures size > 0 ==> hops <= 2 * BitLen(|blocks| - 1)
  {
    hops := 0;
    index := 0;
    if size == 0 {
      return BLOCK_NULL, 0, 0, 0;
    }
    var current, lastOff := Locate(blockSize, size - 1);
    LastBlockIs(blockSize, size, |blocks|, current, lastOff);
    var target;
    target, off := Locate(blockSize, pos);
    index := target;
    block, hops := Walk(disk, blockSize, head, current, target, blocks);
    if pos < size {
      TargetWithin(blockSize, pos, size, |blocks|, target, off);
      PayloadAt(disk, blockSize, blocks, pos, target, off);
    }
  }

  lemma FirstBound(current: nat, target: nat)
    requires target < current
    ensures HopBound(current, current - target) <= 2 * BitLen(current)
  {
    BitLenMonotone(current - target, current);
  }

  /** One hop: to an earlier block that is not before the target, with fewer to come. */
  lemma Hop(disk: Disk, blockSize: nat, blocks: seq<nat>, current: nat, target: nat)
    requires Chain(disk, blockSize, blocks) && target < current < |blocks|
    ensures var skip := Skip(current, target); var next := current - Pow2(skip);
      target <= next < current &&
      blocks[current] in disk && 4 * skip + 4 <= |disk[blocks[current]]| &&
      WordAt(disk[blocks[current]], 4 * skip) == blocks[next] &&
      HopBound(current, current - target) >= 1 &&
      (next > target ==> HopBound(next, next - target) < HopBound(current, current - target))
  {
    hide WordAt, Pow2, Chain, Skip, HopBound;
    SkipIsLegal(current, target);
    FollowPointer(disk, blockSize, blocks, current, Skip(current, target));
    AtLeastOneHop(current, target);
    if current - Pow2(Skip(current, target)) > target {
      HopProgress(current, target);
    }
  }

  lemma AtLeastOneHop(current: nat, target: nat)
    requires target < current
    ensures HopBound(current, current - target) >= 1
  {
    BitLenBounds(current - target);
  }

  /** The loop of `lfs_ctz_find`. */
  method Walk(disk: Disk, blockSize: nat, head: nat, start: nat, target: nat, ghost blocks: seq<nat>)
    returns (block: nat, ghost hops: nat)
    requires Chain(disk, blockSize, blocks) && start + 1 == |blocks| && head == blocks[start]
    ensures target <= start ==> block == blocks[target]
    ensures start < target ==> block == head
    ensures hops <= 2 * BitLen(start)
  {
    hide Skip, HopBound, BitLen, Pow2, WordAt, Chain;
    hops := 0;
    var current: nat := start;
    block := head;
    if current > target {
      FirstBound(current, target);
    }
    while current > target
      invariant current <= start && block == blocks[current]
      invariant current > target ==> hops + HopBound(current, current - target) <= 2 * BitLen(start)
      invariant hops <= 2 * BitLen(start)
      invariant current == start || target <= current
    {
      var skip := Skip(current, target);
      Hop(disk, blockSize, blocks, current, target);
      var next := current - Pow2(skip);
      block := WordAt(disk[block], 4 * skip);
      current := next;
      hops := hops + 1;
    }
  }

  /** The index of the last byte is the index of the last block. */
  lemma LastBlockIs(blockSize: nat, size: nat, count: nat, i: nat, off: nat)
    requires Geometry(blockSize, count) && count > 0 && size > 0
    requires DataStart(blockSize, count - 1) < size <= DataStart(blockSize, count)
    requires LocatedAt(blockSize, size - 1, i, off) && i < Pow2(25)
    ensures i == count - 1
    ensures off + 1 == size - DataStart(blockSize, i) + PointerBytes(i)
  {
    PlaceByInterval(blockSize, size - 1, count - 1, i, off);
  }

  /** A position between the starts of block j and of block j + 1 is in j. */
  lemma PlaceByInterval(blockSize: nat, pos: nat, j: nat, i: nat, off: nat)
    requires blockSize >= 112 && i < Pow2(25) && j < Pow2(25)
    requires DataStart(blockSize, j) <= pos < DataStart(blockSize, j + 1)
    requires LocatedAt(blockSize, pos, i, off)
    ensures i == j
  {
    forall k: nat | k < Pow2(25) ensures PointerBytes(k) < blockSize {
      PointersFit(blockSize, k);
    }
    PlaceIsUnique(blockSize, pos, i, off, j, pos - DataStart(blockSize, j) + PointerBytes(j));
  }

  lemma TargetWithin(blockSize: nat, pos: nat, size: nat, count: nat, i: nat, off: nat)
    requires Geometry(blockSize, count) && count > 0
    requires pos < size <= DataStart(blockSize, count)
    requires LocatedAt(blockSize, pos, i, off) && i < Pow2(25)
    ensures i < count
  {
    if i >= count {
      forall k: nat | k < i ensures PointerBytes(k) < blockSize {
        PointersFit(blockSize, k);
      }
      DataStartMonotone(blockSize, count, i);
    }
  }

  // ----- extend -----

  /** What extending a file for a write at its end leaves behind: the new block
      is the last one and has room at the place of position `size`, every other
      block of the disk is untouched, and the bytes of the file are the same. */
  ghost predicate Extended(disk: Disk, disk': Disk, blockSize: nat, head: nat, size: nat, nblock: nat,
                           blocks: seq<nat>, off: nat)
    requires FileBlocks(disk, blockSize, head, size, blocks)
  {
    OnlyChanged(disk, disk', nblock) &&
    HoldsFirst(disk', blockSize, ExtendedBlocks(blockSize, size, nblock, blocks), size, off,
      Content(disk, blockSize, head, size, blocks))
  }

  /** A chain that begins with the bytes `content` and goes on at `off` of its
      last block. */
  ghost predicate HoldsFirst(disk: Disk, blockSize: nat, blocks: seq<nat>, size: nat, off: nat, content: seq<Byte>) {
    Chain(disk, blockSize, blocks) && blocks != [] && LocatedAt(blockSize, size, |blocks| - 1, off) &&
    size < |Payload(disk, blockSize, blocks)| && Payload(disk, blockSize, blocks)[..size] == content
  }

  /** The blocks afterwards: the new block replaces an incomplete last block or
      comes behind a complete one. */
  ghost function ExtendedBlocks(blockSize: nat, size: nat, nblock: nat, blocks: seq<nat>): (r: seq<nat>) {
    if blocks != [] && size != DataStart(blockSize, |blocks|) then blocks[..|blocks| - 1] + [nblock]
    else blocks + [nblock]
  }

  ghost predicate OnlyChanged(disk: Disk, disk': Disk, nblock: nat) {
    disk'.Keys == disk.Keys && forall b :: b in disk && b != nblock ==> disk'[b] == disk[b]
  }

  /** `lfs_ctz_extend` on a block the allocator has just handed out: copies an
      incomplete last block, or starts a new block with its pointers. */
  method Extend(disk: Disk, blockSize: nat, head: nat, size: nat, nblock: nat, ghost blocks: seq<nat>)
    returns (disk': Disk, off: nat)
    requires FileBlocks(disk, blockSize, head, size, blocks) && blockSize >= 112 && blockSize < WORD
    requires nblock !in blocks && nblock < WORD && nblock in disk && |disk[nblock]| == blockSize
    ensures Extended(disk, disk', blockSize, head, size, nblock, blocks, off)
  {
    hide Extended, Content, HoldsFirst;
    if size == 0 {
      ExtendedEmpty(disk, blockSize, head, nblock, blocks);
      return disk, 0;
    }
    var index, noff := Locate(blockSize, size - 1);
    LastBlockIs(blockSize, size, |blocks|, index, noff);
    noff := noff + 1;
    if noff != blockSize {
      disk' := CopyBytes(disk, head, nblock, noff);
      CopiedLast(disk, disk', blockSize, head, size, nblock, blocks, noff);
      return disk', noff;
    }
    index := index + 1;
    CountGrows(blockSize, size, |blocks|);
    disk' := WritePointers(disk, blockSize, head, index, nblock, blocks);
    AppendedBlock(disk, disk', blockSize, head, size, nblock, blocks);
    off := 4 * (Ctz(index) + 1);
  }

  lemma ExtendedEmpty(disk: Disk, blockSize: nat, head: nat, nblock: nat, blocks: seq<nat>)
    requires FileBlocks(disk, blockSize, head, 0, blocks) && 112 <= blockSize < WORD
    requires nblock < WORD && nblock in disk && |disk[nblock]| == blockSize
    ensures Extended(disk, disk, blockSize, head, 0, nblock, blocks, 0)
  {
    PayloadLength(disk, blockSize, [nblock]);
  }

  /** The byte-by-byte copy of an incomplete last block. */
  method CopyBytes(disk: Disk, from: nat, to: nat, count: nat) returns (disk': Disk)
    requires from in disk && to in disk && from != to && count <= |disk[from]| == |disk[to]|
    ensures OnlyChanged(disk, disk', to) && |disk'[to]| == |disk[to]|
    ensures disk'[to][..count] == disk[from][..count]
  {
    disk' := disk;
    for i := 0 to count
      invariant OnlyChanged(disk, disk', to) && |disk'[to]| == |disk[to]|
      invariant disk'[to][..i] == disk[from][..i]
    {
      var data := disk'[from][i];
      disk' := disk'[to := disk'[to][i := data]];
    }
  }

  /** The loop that fills the pointers of a new block, following the pointers
      of older blocks to find each target. */
  method WritePointers(disk: Disk, blockSize: nat, head: nat, index: nat, nblock: nat, ghost blocks: seq<nat>)
    returns (disk': Disk)
    requires Chain(disk, blockSize, blocks) && index == |blocks| > 0 && head == blocks[index - 1]
    requires index + 1 < Pow2(25)
    requires nblock !in blocks && nblock in disk && |disk[nblock]| == blockSize
    ensures OnlyChanged(disk, disk', nblock) && |disk'[nblock]| == blockSize
    ensures forall k: nat :: k <= Ctz(index) ==> PointsBack(disk'[nblock], blocks, index, k)
  {
    disk' := disk;
    var nhead := head;
    PointersFit(blockSize, index);
    var skips := Ctz(index) + 1;
    for i := 0 to skips
      invariant OnlyChanged(disk, disk', nblock) && |disk'[nblock]| == blockSize
      invariant nhead < WORD
      invariant i < skips ==> Pow2(i) <= index && nhead == blocks[index - Pow2(i)]
      invariant forall k: nat :: k < i ==> PointsBack(disk'[nblock], blocks, index, k)
    {
      AddPointer(disk'[nblock], blocks, index, i, nhead);
      disk' := disk'[nblock := Patch(disk'[nblock], 4 * i, ToLe32(nhead))];
      if i != skips - 1 {
        NextPointer(disk, blockSize, blocks, index, i);
        nhead := WordAt(disk'[nhead], 4 * i);
      }
    }
  }

  lemma AddPointer(content: seq<Byte>, blocks: seq<nat>, index: nat, i: nat, target: nat)
    requires 4 * i + 4 <= |content| && target < WORD
    requires Pow2(i) <= index <= |blocks| && target == blocks[index - Pow2(i)]
    requires forall k: nat :: k < i ==> PointsBack(content, blocks, index, k)
    ensures forall k: nat :: k <= i ==> PointsBack(Patch(content, 4 * i, ToLe32(target)), blocks, index, k)
  {
    WordRoundTrip(content, 4 * i, target);
    forall k: nat | k < i ensures PointsBack(Patch(content, 4 * i, ToLe32(target)), blocks, index, k) {
      assert PointsBack(content, blocks, index, k);
      PatchKeepsOtherWords(content, 4 * i, ToLe32(target), 4 * k);
    }
  }

  /** Pointer i of the block pointer i leads to is the target of pointer i + 1. */
  lemma NextPointer(disk: Disk, blockSize: nat, blocks: seq<nat>, index: nat, i: nat)
    requires Chain(disk, blockSize, blocks) && 0 < index == |blocks| && i < Ctz(index)
    ensures Pow2(i) <= index && Pow2(i + 1) <= index
    ensures var b := blocks[index - Pow2(i)];
      b in disk && 4 * i + 4 <= |disk[b]| && WordAt(disk[b], 4 * i) == blocks[index - Pow2(i + 1)]
  {
    CtzAfterShortSkip(index, i);
    FollowPointer(disk, blockSize, blocks, index - Pow2(i), i);
  }

  /** A file as large as its blocks allow still has room for one more block. */
  lemma CountGrows(blockSize: nat, size: nat, count: nat)
    requires Geometry(blockSize, count) && size <= FILE_MAX
    requires DataStart(blockSize, count) == size
    ensures count + 1 < Pow2(25)
  {
    LargeFilesFit(blockSize);
    if count + 1 >= Pow2(25) {
      assert count == Pow2(25) - 1;
    }
  }

  lemma CopiedLast(disk: Disk, disk': Disk, blockSize: nat, head: nat, size: nat, nblock: nat,
                   blocks: seq<nat>, noff: nat)
    requires FileBlocks(disk, blockSize, head, size, blocks) && size > 0
    requires nblock !in blocks && nblock < WORD && nblock in disk && |disk[nblock]| == blockSize
    requires OnlyChanged(disk, disk', nblock) && |disk'[nblock]| == blockSize
    requires noff < blockSize && disk'[nblock][..noff] == disk[head][..noff]
    requires noff == size - DataStart(blockSize, |blocks| - 1) + PointerBytes(|blocks| - 1)
    ensures Extended(disk, disk', blockSize, head, size, nblock, blocks, noff)
  {
    var last := |blocks| - 1;
    CopiedChain(disk, disk', blockSize, nblock, blocks, noff);
    assert blocks == blocks[..last] + [head] && IsBlock(disk, blockSize, blocks[last]);
    LastIncomplete(blockSize, size, |blocks|, noff);
    CopiedHolds(disk, disk', blockSize, blocks[..last], head, nblock, size, noff);
  }

  /** An incomplete last block is not the end of the payload. */
  lemma LastIncomplete(blockSize: nat, size: nat, count: nat, noff: nat)
    requires count > 0 && noff < blockSize
    requires noff == size - DataStart(blockSize, count - 1) + PointerBytes(count - 1)
    ensures size != DataStart(blockSize, count)
  {
  }

  lemma CopiedHolds(disk: Disk, disk': Disk, blockSize: nat, front: seq<nat>, head: nat, nblock: nat, size: nat,
                    noff: nat)
    requires Chain(disk, blockSize, front + [head]) && Chain(disk', blockSize, front + [nblock])
    requires Agree(disk, disk', front) && IsBlock(disk, blockSize, head) && IsBlock(disk', blockSize, nblock)
    requires noff < blockSize && disk'[nblock][..noff] == disk[head][..noff] &&
             LocatedAt(blockSize, size, |front|, noff)
    ensures OnDisk(disk, blockSize, front + [head]) && size <= |Payload(disk, blockSize, front + [head])|
    ensures HoldsFirst(disk', blockSize, front + [nblock], size, noff, Payload(disk, blockSize, front + [head])[..size])
  {
    assert forall i :: 0 <= i < |front| ==> front[i] == (front + [head])[i];
    CopiedPayload(disk, disk', blockSize, front, head, nblock, PointerBytes(|front|), noff);
    PayloadLength(disk, blockSize, front);
    PayloadLength(disk', blockSize, front + [nblock]);
  }

  /** Two chains that differ in their last block only, with the same bytes at
      its beginning. */
  lemma CopiedPayload(disk: Disk, disk': Disk, blockSize: nat, front: seq<nat>, b: nat, nblock: nat,
                      skip: nat, noff: nat)
    requires Geometry(blockSize, |front| + 1) && skip == PointerBytes(|front|)
    requires OnDisk(disk, blockSize, front) && IsBlock(disk, blockSize, b) && IsBlock(disk', blockSize, nblock)
    requires Agree(disk, disk', front)
    requires skip <= noff < blockSize && disk'[nblock][..noff] == disk[b][..noff]
    ensures OnDisk(disk, blockSize, front + [b]) && OnDisk(disk', blockSize, front + [nblock])
    ensures SameUpTo(Payload(disk, blockSize, front + [b]), Payload(disk', blockSize, front + [nblock]),
      |Payload(disk, blockSize, front)| + noff - skip)
  {
    PayloadFrame(disk, disk', blockSize, front);
    PayloadSnoc(disk, blockSize, front, b, skip);
    PayloadSnoc(disk', blockSize, front, nblock, skip);
    SamePrefixMiddle(disk'[nblock], disk[b], noff, skip);
    SameAfterFront(Payload(disk, blockSize, front), disk[b][skip..], disk'[nblock][skip..], noff - skip);
  }

  lemma PayloadSnoc(disk: Disk, blockSize: nat, front: seq<nat>, b: nat, skip: nat)
    requires Geometry(blockSize, |front| + 1) && skip == PointerBytes(|front|)
    requires OnDisk(disk, blockSize, front) && IsBlock(disk, blockSize, b)
    ensures OnDisk(disk, blockSize, front + [b])
    ensures skip < |disk[b]| == blockSize
    ensures Payload(disk, blockSize, front + [b]) == Payload(disk, blockSize, front) + disk[b][skip..]
  {
    PointersFit(blockSize, |front|);
    assert (front + [b])[..|front|] == front;
  }

  lemma CopiedChain(disk: Disk, disk': Disk, blockSize: nat, nblock: nat, blocks: seq<nat>, noff: nat)
    requires Chain(disk, blockSize, blocks) && blocks != []
    requires nblock !in blocks && nblock < WORD && nblock in disk
    requires OnlyChanged(disk, disk', nblock) && |disk'[nblock]| == blockSize
    requires PointerBytes(|blocks| - 1) <= noff < blockSize
    requires disk'[nblock][..noff] == disk[blocks[|blocks| - 1]][..noff]
    ensures Chain(disk', blockSize, blocks[..|blocks| - 1] + [nblock])
  {
    var last := |blocks| - 1;
    var blocks' := blocks[..last] + [nblock];
    assert OnDisk(disk', blockSize, blocks');
    forall i | 0 < i < |blocks'| ensures PointersAt(disk', blockSize, blocks', i) {
      assert PointersAt(disk, blockSize, blocks, i);
      forall k: nat | k <= Ctz(i) ensures PointsBack(disk'[blocks'[i]], blocks', i, k) {
        assert PointsBack(disk[blocks[i]], blocks, i, k);
        if i == last {
          SamePrefixWord(disk'[nblock], disk[blocks[last]], noff, 4 * k);
        }
      }
    }
  }

  lemma SamePrefixMiddle(s: seq<Byte>, t: seq<Byte>, n: nat, skip: nat)
    requires skip <= n <= |s| && n <= |t| && s[..n] == t[..n]
    ensures s[skip..][..n - skip] == t[skip..][..n - skip]
  {
    assert forall i :: 0 <= i < n ==> s[i] == s[..n][i] && t[i] == t[..n][i];
  }

  lemma SamePrefixWord(s: seq<Byte>, t: seq<Byte>, n: nat, off: nat)
    requires n <= |s| && n <= |t| && s[..n] == t[..n] && off + 4 <= n
    ensures WordAt(s, off) == WordAt(t, off)
  {
    assert forall i :: 0 <= i < n ==> s[i] == s[..n][i] && t[i] == t[..n][i];
  }

  ghost predicate SameUpTo(s: seq<Byte>, t: seq<Byte>, n: nat) {
    n <= |s| && n <= |t| && s[..n] == t[..n]
  }

  lemma SameAfterFront(front: seq<Byte>, a: seq<Byte>, b: seq<Byte>, n: nat)
    requires n <= |a| && n <= |b| && a[..n] == b[..n]
    ensures SameUpTo(front + a, front + b, |front| + n)
  {
    assert (front + a)[..|front| + n] == front + a[..n];
    assert (front + b)[..|front| + n] == front + b[..n];
  }

  lemma AppendedBlock(disk: Disk, disk': Disk, blockSize: nat, head: nat, size: nat, nblock: nat, blocks: seq<nat>)
    requires FileBlocks(disk, blockSize, head, size, blocks) && size > 0
    requires DataStart(blockSize, |blocks|) == size && |blocks| + 1 < Pow2(25)
    requires nblock !in blocks && nblock < WORD && nblock in disk && |disk[nblock]| == blockSize
    requires OnlyChanged(disk, disk', nblock) && |disk'[nblock]| == blockSize
    requires forall k: nat :: k <= Ctz(|blocks|) ==> PointsBack(disk'[nblock], blocks, |blocks|, k)
    ensures Extended(disk, disk', blockSize, head, size, nblock, blocks, 4 * (Ctz(|blocks|) + 1))
  {
    PointersFit(blockSize, |blocks|);
    AppendedChain(disk, disk', blockSize, nblock, blocks);
    AppendedHolds(disk, disk', blockSize, nblock, blocks);
    PayloadLength(disk, blockSize, blocks);
  }

  lemma AppendedHolds(disk: Disk, disk': Disk, blockSize: nat, nblock: nat, blocks: seq<nat>)
    requires Chain(disk, blockSize, blocks) && Chain(disk', blockSize, blocks + [nblock]) && Agree(disk, disk', blocks)
    requires DataStart(blockSize, |blocks|) >= 0 && IsBlock(disk', blockSize, nblock)
    ensures HoldsFirst(disk', blockSize, blocks + [nblock], DataStart(blockSize, |blocks|), PointerBytes(|blocks|),
      Payload(disk, blockSize, blocks))
  {
    PointersFit(blockSize, |blocks|);
    PayloadFrame(disk, disk', blockSize, blocks);
    PayloadSnoc(disk', blockSize, blocks, nblock, PointerBytes(|blocks|));
    PayloadLength(disk, blockSize, blocks);
    PayloadLength(disk', blockSize, blocks + [nblock]);
  }

  lemma AppendedChain(disk: Disk, disk': Disk, blockSize: nat, nblock: nat, blocks: seq<nat>)
    requires Chain(disk, blockSize, blocks) && |blocks| + 1 < Pow2(25)
    requires nblock !in blocks && nblock < WORD && nblock in disk
    requires OnlyChanged(disk, disk', nblock) && |disk'[nblock]| == blockSize
    requires blocks != [] ==> forall k: nat :: k <= Ctz(|blocks|) ==> PointsBack(disk'[nblock], blocks, |blocks|, k)
    ensures Chain(disk', blockSize, blocks + [nblock])
  {
    var blocks' := blocks + [nblock];
    ChainFrame(disk, disk', blockSize, blocks);
    forall i | 0 < i < |blocks'| ensures PointersAt(disk', blockSize, blocks', i) {
      assert i < |blocks| ==> PointersAt(disk', blockSize, blocks, i);
      forall k: nat | k <= Ctz(i) ensures PointsBack(disk'[blocks'[i]], blocks', i, k) {
        assert PointsBack(disk'[blocks'[i]], blocks, i, k);
      }
    }
  }

  // ----- traverse -----

  /** The first pointer leads one block back; in an even block the second one
      leads two blocks back. */
  lemma FollowTwo(disk: Disk, blockSize: nat, blocks: seq<nat>, index: nat)
    requires Chain(disk, blockSize, blocks) && 0 < index < |blocks|
    ensures blocks[index] in disk && 4 <= |disk[blocks[index]]| && WordAt(disk[blocks[index]], 0) == blocks[index - 1]
    ensures index % 2 == 0 ==> 8 <= |disk[blocks[index]]| && WordAt(disk[blocks[index]], 4) == blocks[index - 2]
  {
    assert Pow2(0) == 1 && Pow2(1) == 2;
    FollowPointer(disk, blockSize, blocks, index, 0);
    if index % 2 == 0 {
      FollowPointer(disk, blockSize, blocks, index, 1);
    }
  }

  /** `lfs_ctz_traverse` with a callback that records its argument: every block
      of the file is visited exactly once, from the last to the first. */
  method Traverse(disk: Disk, blockSize: nat, head: nat, size: nat, ghost blocks: seq<nat>)
    returns (visited: seq<nat>)
    requires FileBlocks(disk, blockSize, head, size, blocks)
    ensures |visited| == |blocks|
    ensures forall i :: 0 <= i < |blocks| ==> visited[i] == blocks[|blocks| - 1 - i]
  {
    visited := [];
    if size == 0 {
      return;
    }
    var index: nat, lastOff := Locate(blockSize, size - 1);
    LastBlockIs(blockSize, size, |blocks|, index, lastOff);
    var current := head;
    while true
      invariant index < |blocks| && current == blocks[index]
      invariant |visited| == |blocks| - 1 - index
      invariant forall i :: 0 <= i < |visited| ==> visited[i] == blocks[|blocks| - 1 - i]
      decreases index
    {
      visited := visited + [current];
      if index == 0 {
        return;
      }
      FollowTwo(disk, blockSize, blocks, index);
      if index % 2 == 1 {
        current := WordAt(disk[current], 0);
        index := index - 1;
      } else {
        visited := visited + [WordAt(disk[current], 0)];
        current := WordAt(disk[current], 4);
        index := index - 2;
      }
    }
  }
}
