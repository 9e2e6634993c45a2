/** The read and program caches in front of a flat RAM device. */
module BlockCache {
  import opened Bits
  import opened Bytes

  /** The sizes of the configuration; each divides the next. */
  datatype Config = Config(read_size: nat, prog_size: nat, cache_size: nat, block_size: nat, block_count: nat)

  ghost predicate Multiple(a: nat, m: nat) {
    exists q: nat :: IsTimes(a, m, q)
  }

  predicate IsTimes(a: nat, m: nat, q: nat) {
    a == m * q
  }

  ghost predicate ValidConfig(c: Config) {
    c.read_size > 0 && c.prog_size > 0 && c.cache_size > 0 && c.block_size > 0 &&
    Multiple(c.prog_size, c.read_size) && Multiple(c.cache_size, c.prog_size) && Multiple(c.block_size, c.cache_size)
  }

  lemma ZeroIsMultiple(m: nat)
    ensures Multiple(0, m)
  {
    assert IsTimes(0, m, 0);
  }

  lemma MultipleOf(a: nat, b: nat, m: nat)
    requires Multiple(a, b) && Multiple(b, m)
    ensures Multiple(a, m)
  {
    var p: nat :| IsTimes(a, b, p);
    var q: nat :| IsTimes(b, m, q);
    assert m * q * p == m * (q * p);
    assert IsTimes(a, m, q * p);
  }

  lemma MultipleAdd(a: nat, b: nat, m: nat)
    requires Multiple(a, m) && Multiple(b, m)
    ensures Multiple(a + b, m)
  {
    var p: nat :| IsTimes(a, m, p);
    var q: nat :| IsTimes(b, m, q);
    assert m * (p + q) == m * p + m * q;
    assert IsTimes(a + b, m, p + q);
  }

  lemma MultipleSub(a: nat, b: nat, m: nat)
    requires Multiple(a, m) && Multiple(b, m) && a >= b
    ensures Multiple(a - b, m) && (a > b ==> a - b >= m)
  {
    var p: nat :| IsTimes(a, m, p);
    var q: nat :| IsTimes(b, m, q);
    MulGap(m, p, q);
    MulGap(m, q, p);
    if p >= q {
      assert m * (p - q) == m * p - m * q;
      assert IsTimes(a - b, m, p - q);
    } else {
      assert a < b || m == 0;
      assert IsTimes(a - b, m, 0);
    }
  }

  lemma MultipleIsMod(a: nat, m: nat)
    requires m > 0
    ensures Multiple(a, m) <==> a % m == 0
  {
    FloorMul(a, m);
    if a % m == 0 {
      assert IsTimes(a, m, a / m);
    }
    if Multiple(a, m) {
      var q: nat :| IsTimes(a, m, q);
      Bits.MultipleMod(q, m);
    }
  }

  lemma Aligned(a: nat, m: nat)
    requires m > 0
    ensures AlignDown(a, m) <= a < AlignDown(a, m) + m && Multiple(AlignDown(a, m), m)
    ensures a <= AlignUp(a, m) < a + m && Multiple(AlignUp(a, m), m)
    ensures a >= m ==> AlignDown(a, m) >= m
  {
    AlignDownBounds(a, m);
    AlignUpBounds(a, m);
    MultipleIsMod(AlignDown(a, m), m);
    MultipleIsMod(AlignUp(a, m), m);
  }

  // ----- the device -----

  /** Where a block starts on the flat device. */
  function Start(size: nat, b: nat): (r: nat) {
    size * b
  }

  /** The bytes of one block. */
  function BlockOf(flat: seq<Byte>, size: nat, b: nat): (r: seq<Byte>)
    requires Start(size, b) + size <= |flat|
    ensures |r| == size
  {
    flat[Start(size, b)..Start(size, b) + size]
  }

  lemma BlockFits(c: Config, b: nat)
    requires b < c.block_count
    ensures Start(c.block_size, b) + c.block_size <= Start(c.block_size, c.block_count)
  {
    MulGap(c.block_size, c.block_count, b);
  }

  lemma BlocksApart(size: nat, b: nat, other: nat)
    ensures b < other ==> Start(size, b) + size <= Start(size, other)
    ensures b > other ==> Start(size, other) + size <= Start(size, b)
  {
    MulGap(size, b, other);
    MulGap(size, other, b);
  }

  /** Writing within one block leaves the others alone. */
  lemma PatchedBlocks(flat: seq<Byte>, size: nat, b: nat, off: nat, data: seq<Byte>, other: nat)
    requires Start(size, b) + size <= |flat| && Start(size, other) + size <= |flat| && off + |data| <= size
    ensures BlockOf(Patch(flat, Start(size, b) + off, data), size, other)
      == if other == b then Patch(BlockOf(flat, size, b), off, data) else BlockOf(flat, size, other)
  {
    hide Patch, Start;
    BlocksApart(size, b, other);
    PatchedSlice(flat, Start(size, b) + off, data, Start(size, other), size, Start(size, b));
  }

  lemma PatchedSlice(flat: seq<Byte>, at: nat, data: seq<Byte>, start: nat, size: nat, block: nat)
    requires at + |data| <= |flat| && start + size <= |flat| && block <= at && at + |data| <= block + size
    requires start == block || start + size <= block || block + size <= start
    ensures Patch(flat, at, data)[start..start + size]
      == if start == block then Patch(flat[start..start + size], at - block, data) else flat[start..start + size]
  {
  }

  lemma SliceOfBlock(flat: seq<Byte>, size: nat, b: nat, off: nat, n: nat)
    requires Start(size, b) + size <= |flat| && off + n <= size
    ensures BlockOf(flat, size, b)[off..off + n] == flat[Start(size, b) + off..Start(size, b) + off + n]
  {
    hide Start;
    SliceOfSlice(flat, Start(size, b), size, off, n);
  }

  /** `lfs_rambd`: a flat buffer. Erasing does nothing. */
  class RamDevice {
    const c: Config
    const buffer: array<Byte>

    ghost predicate Valid() {
      ValidConfig(c) && buffer.Length == Start(c.block_size, c.block_count)
    }

    constructor (c: Config)
      requires ValidConfig(c)
      ensures Valid() && this.c == c && fresh(buffer)
    {
      this.c := c;
      buffer := new Byte[Start(c.block_size, c.block_count)](_ => 0);
    }

    ghost function Block(b: nat): (r: seq<Byte>)
      requires Valid() && b < c.block_count
      reads buffer
      ensures |r| == c.block_size
    {
      BlockFits(c, b);
      BlockOf(buffer[..], c.block_size, b)
    }

    /** `lfs_rambd_read`, which asserts alignment. */
    method Read(b: nat, off: nat, size: nat) returns (data: seq<Byte>)
      requires Valid() && b < c.block_count && off + size <= c.block_size
      requires Multiple(off, c.read_size) && Multiple(size, c.read_size)
      ensures data == Block(b)[off..off + size]
    {
      hide ValidConfig, Multiple, Start, BlockOf;
      BlockFits(c, b);
      var at := Start(c.block_size, b) + off;
      data := buffer[at..at + size];
      assert data == buffer[..][at..at + size];
      SliceOfBlock(buffer[..], c.block_size, b, off, size);
    }

    /** `lfs_rambd_prog`. */
    method Prog(b: nat, off: nat, data: seq<Byte>)
      requires Valid() && b < c.block_count && off + |data| <= c.block_size
      requires Multiple(off, c.prog_size) && Multiple(|data|, c.prog_size)
      modifies buffer
      ensures Block(b) == Patch(old(Block(b)), off, data)
      ensures forall o: nat :: o < c.block_count && o != b ==> Block(o) == old(Block(o))
    {
      hide ValidConfig, Multiple, Patch, BlockOf, Start;
      BlockFits(c, b);
      var at := Start(c.block_size, b) + off;
      ghost var was := buffer[..];
      CopyTo(buffer, at, data);
      forall o: nat | o < c.block_count
        ensures Block(o) == if o == b then Patch(old(Block(b)), off, data) else old(Block(o))
      {
        BlockFits(c, o);
        PatchedBlocks(was, c.block_size, b, off, data, o);
      }
    }
  }

  /** The bytes of a block from an offset on. */
  ghost predicate IsPart(data: seq<Byte>, block: seq<Byte>, off: nat) {
    off + |data| <= |block| && data == block[off..off + |data|]
  }

  lemma PartFrom(data: seq<Byte>, block: seq<Byte>, off: nat, end: nat)
    requires off <= end <= |block| && data == block[off..end]
    ensures IsPart(data, block, off) && |data| == end - off
  {
  }

  lemma NoPart(block: seq<Byte>, off: nat)
    requires off <= |block|
    ensures IsPart([], block, off)
  {
  }

  /** The bytes of a window are those of the block from an offset on. */
  ghost predicate SameFrom(buf: seq<Byte>, block: seq<Byte>, start: nat, from: nat) {
    start + |buf| <= |block| && forall i :: start <= i < start + |buf| && from <= i ==> buf[i - start] == block[i]
  }

  lemma PartOfWindow(buf: seq<Byte>, start: nat, block: seq<Byte>, from: nat, off: nat, n: nat)
    requires SameFrom(buf, block, start, from)
    requires start <= off && from <= off && off + n <= start + |buf|
    ensures IsPart(buf[off - start..off - start + n], block, off)
  {
    var at := off - start;
    forall k | at <= k < at + n ensures buf[k] == block[k - at + off] {
      assert buf[start + k - start] == block[start + k];
    }
    SameBytes(buf, at, block, off, n);
    PartFrom(buf[at..at + n], block, off, off + n);
  }

  // ----- the caches -----

  /** What part of a block a cache holds. */
  datatype Window = NoBlock | Window(block: nat, off: nat, size: nat)

  predicate Holds(w: Window, b: nat, off: nat) {
    w.Window? && w.block == b && w.off <= off < w.off + w.size
  }

  predicate Programmed(p: Window, b: nat) {
    p.Window? && p.block == b
  }

  ghost predicate FitsIn(w: Window, c: Config, unit: nat) {
    w.Window? ==>
      w.block < c.block_count && w.off + w.size <= c.block_size && w.size <= c.cache_size && Multiple(w.off, unit)
  }

  lemma SameBytes(a: seq<Byte>, i: nat, b: seq<Byte>, j: nat, n: nat)
    requires i + n <= |a| && j + n <= |b| && forall k :: i <= k < i + n ==> a[k] == b[k - i + j]
    ensures a[i..i + n] == b[j..j + n]
  {
    var x, y := a[i..i + n], b[j..j + n];
    forall k | 0 <= k < n ensures x[k] == y[k] {
      var m := i + k;
      assert x[k] == a[m] && y[k] == b[m - i + j];
    }
  }

  lemma PatchByte(block: seq<Byte>, at: nat, data: seq<Byte>, k: nat)
    requires at + |data| <= |block| && k < |block|
    ensures Patch(block, at, data)[k] == if at <= k < at + |data| then data[k - at] else block[k]
  {
  }

  lemma PatchedInside(block: seq<Byte>, at: nat, data: seq<Byte>, off: nat, n: nat)
    requires at + |data| <= |block| && at <= off && off + n <= at + |data|
    ensures Patch(block, at, data)[off..off + n] == data[off - at..off - at + n]
  {
    hide Patch;
    var r, from := Patch(block, at, data), off - at;
    forall k | off <= k < off + n ensures r[k] == data[k - off + from] {
      PatchByte(block, at, data, k);
    }
    SameBytes(r, off, data, from, n);
  }

  lemma PatchedOutside(block: seq<Byte>, at: nat, data: seq<Byte>, off: nat, n: nat)
    requires at + |data| <= |block| && off + n <= |block| && (off + n <= at || at + |data| <= off)
    ensures Patch(block, at, data)[off..off + n] == block[off..off + n]
  {
    hide Patch;
    var r := Patch(block, at, data);
    forall k | off <= k < off + n ensures r[k] == block[k] {
      PatchByte(block, at, data, k);
    }
    SameBytes(r, off, block, off, n);
  }

  /** How far lfs_bd_read loads its cache. */
  function LoadSize(c: Config, off: nat, hint: nat): int
    requires c.read_size > 0
  {
    var start, end := AlignDown(off, c.read_size), AlignUp(off + hint, c.read_size);
    var size := (if end < c.block_size then end else c.block_size) - start;
    if size < c.cache_size then size else c.cache_size
  }

  lemma LoadFits(c: Config, off: nat, hint: nat)
    requires ValidConfig(c) && off < c.block_size && hint > 0
    ensures var start, size := AlignDown(off, c.read_size), LoadSize(c, off, hint);
      start <= off < start + size <= c.block_size && size <= c.cache_size && Multiple(start, c.read_size) &&
        Multiple(size, c.read_size)
  {
    hide AlignDown, AlignUp, Multiple;
    var read := c.read_size;
    MultipleOf(c.cache_size, c.prog_size, read);
    MultipleOf(c.block_size, c.cache_size, read);
    Aligned(off, read);
    Aligned(off + hint, read);
    var start, end := AlignDown(off, read), AlignUp(off + hint, read);
    MultipleSub(if end < c.block_size then end else c.block_size, start, read);
    CacheHoldsUnit(c, read);
  }

  lemma CacheHoldsUnit(c: Config, read: nat)
    requires c.cache_size > 0 && Multiple(c.cache_size, read)
    ensures c.cache_size >= read
  {
    var q: nat :| IsTimes(c.cache_size, read, q);
    assert q > 0;
    MulMonotone(read, 1, q);
  }

  /** `memcpy`. */
  method CopyTo(buf: array<Byte>, at: nat, data: seq<Byte>)
    requires at + |data| <= buf.Length
    modifies buf
    ensures buf[..] == Patch(old(buf[..]), at, data)
  {
    hide Patch;
    PatchNothing(buf[..], at);
    assert data[..0] == [];
    for i := 0 to |data|
      invariant buf[..] == Patch(old(buf[..]), at, data[..i])
    {
      ghost var was := buf[..];
      buf[at + i] := data[i];
      PatchOne(old(buf[..]), at, data, i, was);
    }
    assert data[..|data|] == data;
  }

  lemma PatchOne(buf: seq<Byte>, at: nat, data: seq<Byte>, i: nat, was: seq<Byte>)
    requires at + |data| <= |buf| && i < |data| && was == Patch(buf, at, data[..i])
    ensures was[at + i := data[i]] == Patch(buf, at, data[..i + 1])
  {
  }

  class Caches {
    const dev: RamDevice
    const rbuf: array<Byte>
    const pbuf: array<Byte>
    var r: Window
    var p: Window

    ghost predicate Valid()
      reads this
    {
      dev.Valid() && rbuf.Length == dev.c.cache_size && pbuf.Length == dev.c.cache_size &&
      rbuf != pbuf && rbuf != dev.buffer && pbuf != dev.buffer &&
      FitsIn(r, dev.c, dev.c.read_size) && FitsIn(p, dev.c, dev.c.prog_size)
    }

    constructor (dev: RamDevice)
      requires dev.Valid()
      ensures Valid() && Agrees() && this.dev == dev && p == NoBlock
    {
      this.dev := dev;
      rbuf := new Byte[dev.c.cache_size](_ => 0xff);
      pbuf := new Byte[dev.c.cache_size](_ => 0xff);
      r, p := NoBlock, NoBlock;
    }

    /** The read cache holds what the device holds, except perhaps in front of `from` in
        block b. */
    ghost predicate AgreesFrom(b: nat, from: nat)
      reads this, rbuf, dev.buffer
      requires Valid()
    {
      r.Window? ==> SameFrom(rbuf[..r.size], dev.Block(r.block), r.off, if r.block == b then from else 0)
    }

    ghost predicate Agrees()
      reads this, rbuf, dev.buffer
      requires Valid()
    {
      AgreesFrom(0, 0)
    }

    /** A block with what has been programmed but not flushed. */
    ghost function Merged(b: nat): (block: seq<Byte>)
      reads this, pbuf, dev.buffer
      requires Valid() && b < dev.c.block_count
      ensures |block| == dev.c.block_size
    {
      if p.Window? && p.block == b then Patch(dev.Block(b), p.off, pbuf[..p.size]) else dev.Block(b)
    }

    ghost function Seen(useP: bool, b: nat): (block: seq<Byte>)
      reads this, pbuf, dev.buffer
      requires Valid() && b < dev.c.block_count
      ensures |block| == dev.c.block_size
    {
      if useP then Merged(b) else dev.Block(b)
    }

    /** Where nothing has been programmed the device is seen. */
    lemma NotProgrammed(useP: bool, b: nat, off: nat, data: seq<Byte>)
      requires Valid() && b < dev.c.block_count && IsPart(data, dev.Block(b), off)
      requires !useP || !(p.Window? && p.block == b) || off + |data| <= p.off || p.off + p.size <= off
      ensures IsPart(data, Seen(useP, b), off)
    {
      if useP && p.Window? && p.block == b {
        PatchedOutside(dev.Block(b), p.off, pbuf[..p.size], off, |data|);
      }
    }

    /** From one aligned offset to another there is at least a unit. */
    lemma UnitLeft(off: nat)
      requires Valid() && off % dev.c.read_size == 0
      ensures Multiple(off, dev.c.read_size)
      ensures p.Window? && off < p.off ==> p.off - off >= dev.c.read_size
      ensures r.Window? && off < r.off ==> r.off - off >= dev.c.read_size
    {
      MultipleIsMod(off, dev.c.read_size);
      hide Multiple;
      if p.Window? && off < p.off {
        MultipleOf(p.off, dev.c.prog_size, dev.c.read_size);
        MultipleSub(p.off, off, dev.c.read_size);
      }
      if r.Window? && off < r.off {
        MultipleSub(r.off, off, dev.c.read_size);
      }
    }

    /** Loads the read cache around an offset. */
    method Load(b: nat, off: nat, hint: nat)
      requires Valid() && b < dev.c.block_count && off < dev.c.block_size && hint > 0
      modifies this`r, rbuf
      ensures Valid() && Agrees() && Holds(r, b, off)
    {
      hide AlignUp, AlignDown, Multiple, LoadSize;
      LoadFits(dev.c, off, hint);
      var start, size := AlignDown(off, dev.c.read_size), LoadSize(dev.c, off, hint);
      r := Window(b, start, size);
      var data := dev.Read(b, start, size);
      CopyTo(rbuf, 0, data);
    }

    lemma AgreesMore(b: nat, from: nat)
      requires Valid() && Agrees()
      ensures AgreesFrom(b, from)
    {
    }

    lemma AgreesBehind(b: nat, from: nat, further: nat)
      requires Valid() && AgreesFrom(b, from) && from <= further
      ensures AgreesFrom(b, further)
    {
    }

    lemma AgreesAll(b: nat)
      requires Valid() && AgreesFrom(b, 0)
      ensures Agrees()
    {
    }

    lemma UnitPositive()
      requires Valid()
      ensures dev.c.read_size > 0 && dev.c.prog_size > 0
    {
    }

    /** Bytes that the program cache has. */
    method TakeProgrammed(b: nat, off: nat, size: nat) returns (data: seq<Byte>)
      requires Valid() && 0 < size && Holds(p, b, off) && off + size <= dev.c.block_size
      ensures 0 < |data| <= size && IsPart(data, Merged(b), off)
    {
      hide Patch, Multiple;
      var diff, from := Min(size, p.size - (off - p.off)), off - p.off;
      PatchedInside(dev.Block(b), p.off, pbuf[..p.size], off, diff);
      data := pbuf[from..from + diff];
      SliceOfSlice(pbuf[..], 0, p.size, from, diff);
      assert pbuf[..][0..p.size] == pbuf[..p.size] && pbuf[..][from..from + diff] == data;
    }

    /** Bytes that the read cache has. */
    method TakeRead(b: nat, off: nat, size: nat, ghost from: nat) returns (data: seq<Byte>)
      requires Valid() && AgreesFrom(b, from) && from <= off
      requires 0 < size && Holds(r, b, off) && off + size <= dev.c.block_size
      ensures 0 < |data| <= size && IsPart(data, dev.Block(b), off)
    {
      hide Multiple;
      var diff := Min(size, r.size - (off - r.off));
      data := rbuf[off - r.off..off - r.off + diff];
      PartOfWindow(rbuf[..r.size], r.off, dev.Block(b), from, off, diff);
    }

    /** Whole units straight from the device. */
    method Bypass(b: nat, off: nat, size: nat) returns (data: seq<Byte>)
      requires Valid() && b < dev.c.block_count && off + size <= dev.c.block_size
      requires Multiple(off, dev.c.read_size) && size >= dev.c.read_size
      ensures 0 < |data| <= size && IsPart(data, dev.Block(b), off)
    {
      hide Multiple, AlignDown, AlignUp, ValidConfig;
      UnitPositive();
      Aligned(size, dev.c.read_size);
      var whole := AlignDown(size, dev.c.read_size);
      ghost var block, end := dev.Block(b), off + whole;
      data := dev.Read(b, off, whole);
      PartFrom(data, block, off, end);
    }

    /** One turn of the loop of `lfs_bd_read`: some bytes, or the read cache loaded so
        that there are some at the next turn. */
    method ReadSome(useP: bool, hint: nat, b: nat, off: nat, size: nat, ghost from: nat) returns (data: seq<Byte>)
      requires Valid() && AgreesFrom(b, from) && from <= off
      requires 0 < size && b < dev.c.block_count && off + size <= dev.c.block_size && hint > 0
      modifies this`r, rbuf
      ensures Valid() && AgreesFrom(b, from)
      ensures |data| <= size && IsPart(data, Seen(useP, b), off)
      ensures data == [] ==> Holds(r, b, off) && !Holds(old(r), b, off)
    {
      hide Multiple, AlignUp, AlignDown, Patch, ValidConfig, IsPart;
      UnitPositive();
      NoPart(Seen(useP, b), off);
      var diff := size;
      if useP && p.Window? && b == p.block && off < p.off + p.size {
        if off >= p.off {
          data := TakeProgrammed(b, off, size);
          return;
        }
        diff := Min(diff, p.off - off);
      }
      if r.Window? && b == r.block && off < r.off + r.size {
        if off >= r.off {
          data := TakeRead(b, off, diff, from);
          NotProgrammed(useP, b, off, data);
          return;
        }
        diff := Min(diff, r.off - off);
      }
      if size >= hint && off % dev.c.read_size == 0 && size >= dev.c.read_size {
        UnitLeft(off);
        data := Bypass(b, off, diff);
        NotProgrammed(useP, b, off, data);
        return;
      }
      Load(b, off, hint);
      AgreesMore(b, from);
      data := [];
    }

    /** `lfs_bd_read`: LFS_ERR_CORRUPT outside the device, or the bytes. `useP` says
        whether the program cache is consulted. */
    method Read(useP: bool, hint: nat, b: nat, off: nat, size: nat, ghost from: nat) returns (ok: bool, data: seq<Byte>)
      requires Valid() && AgreesFrom(b, from) && from <= off && hint > 0
      modifies this`r, rbuf
      ensures Valid() && AgreesFrom(b, from)
      ensures ok <==> b < dev.c.block_count && off + size <= dev.c.block_size
      ensures ok ==> |data| == size && IsPart(data, Seen(useP, b), off)
    {
      hide Multiple, ValidConfig, Patch, IsPart;
      if b >= dev.c.block_count || off + size > dev.c.block_size {
        return false, [];
      }
      ghost var block := Seen(useP, b);
      ok, data := true, [];
      NoPart(block, off);
      while |data| < size
        invariant |data| <= size && Valid() && AgreesFrom(b, from) && Seen(useP, b) == block && IsPart(data, block, off)
        decreases size - |data|, if Holds(r, b, off + |data|) then 0 else 1
      {
        var more := ReadSome(useP, hint, b, off + |data|, size - |data|, from);
        PartsJoin(data, more, block, off);
        assert more == [] ==> data + more == data;
        data := data + more;
      }
    }

    /** `lfs_bd_cmp`: how a block compares with the given bytes, eight at a time; nothing
        when they would be outside the device. */
    method Compare(useP: bool, hint: nat, b: nat, off: nat, data: seq<Byte>) returns (ok: bool, order: Order)
      requires Valid() && Agrees() && hint >= |data|
      modifies this`r, rbuf
      ensures Valid() && Agrees()
      ensures data == [] ==> ok && order == Equal
      ensures b < dev.c.block_count && off + |data| <= dev.c.block_size ==>
        ok && order == MemCmp(Seen(useP, b)[off..off + |data|], data)
      ensures data != [] && b >= dev.c.block_count ==> !ok
    {
      hide Multiple, ValidConfig, Patch, IsPart, MemCmp;
      ok, order := true, Equal;
      var i := 0;
      ghost var inside := b < dev.c.block_count && off + |data| <= dev.c.block_size;
      MemCmpEqual(data[..0], data[..0]);
      assert inside ==> Seen(useP, b)[off..off + 0] == data[..0];
      while i < |data|
        invariant i <= |data| && Valid() && Agrees() && ok && order == Equal
        invariant b < dev.c.block_count ==> Seen(useP, b) == old(Seen(useP, b))
        invariant inside ==> MemCmp(Seen(useP, b)[off..off + i], data[..i]) == Equal
        invariant data != [] && b >= dev.c.block_count ==> i == 0
      {
        var diff := Min(|data| - i, 8);
        var dat;
        AgreesMore(b, 0);
        ok, dat := Read(useP, hint - i, b, off + i, diff, 0);
        AgreesAll(b);
        if !ok {
          return false, Equal;
        }
        order := MemCmp(dat, data[i..i + diff]);
        if inside {
          CompareParts(data, i, diff, dat, Seen(useP, b), off);
        }
        if order != Equal {
          return true, order;
        }
        i := i + diff;
      }
      assert data[..i] == data;
    }

    /** The whole units that a flush writes. */
    lemma UnitsFit()
      requires Valid() && p.Window?
      ensures dev.c.prog_size > 0
      ensures var size := AlignUp(p.size, dev.c.prog_size);
        p.size <= size <= dev.c.cache_size && p.off + size <= dev.c.block_size && Multiple(size, dev.c.prog_size)
    {
      hide AlignUp, AlignDown, Multiple;
      var prog := dev.c.prog_size;
      Aligned(p.size, prog);
      MultipleOf(dev.c.block_size, dev.c.cache_size, prog);
      MultipleSub(dev.c.block_size, p.off, prog);
      AlignUpStays(p.size, prog, dev.c.cache_size);
      AlignUpStays(p.size, prog, dev.c.block_size - p.off);
    }

    /** Reading back what was written, through a read cache that was dropped. */
    method Validate(data: seq<Byte>) returns (ok: bool)
      requires Valid() && p.Window? && IsPart(data, dev.Block(p.block), p.off)
      modifies this`r, rbuf
      ensures ok && Valid() && Agrees()
    {
      hide Multiple, ValidConfig, IsPart;
      r := NoBlock;
      assert p.off + |data| <= dev.c.block_size by { PartEnds(data, dev.Block(p.block), p.off); }
      var order;
      PartCompares(data, dev.Block(p.block), p.off);
      ok, order := Compare(false, |data|, p.block, p.off, data);
      ok := ok && order == Equal;
    }

    /** `lfs_cache_zero`. */
    method Zero()
      requires Valid()
      modifies this`p, pbuf
      ensures Valid() && p == NoBlock && forall i :: 0 <= i < pbuf.Length ==> pbuf[i] == 0xff
    {
      for i := 0 to pbuf.Length
        invariant forall j :: 0 <= j < i ==> pbuf[j] == 0xff
      {
        pbuf[i] := 0xff;
      }
      p := NoBlock;
    }

    /** `lfs_bd_flush`: writes what is in the program cache, up to a whole program
        unit, and validates it when asked to. */
    method Flush(validate: bool) returns (ok: bool)
      requires Valid() && (validate ==> Agrees())
      modifies this, rbuf, pbuf, dev.buffer
      ensures ok && Valid() && p == NoBlock && (validate ==> Agrees())
      ensures old(p).Window? ==> forall i :: 0 <= i < pbuf.Length ==> pbuf[i] == 0xff
      ensures !validate ==> r == old(r) && rbuf[..] == old(rbuf[..])
      ensures forall b: nat :: b < dev.c.block_count ==>
        dev.Block(b) == if Programmed(old(p), b) then Written(old(dev.Block(b)), old(p), old(pbuf[..]), dev.c.prog_size)
          else old(dev.Block(b))
    {
      hide Multiple, ValidConfig, IsPart, AlignUp, Patch;
      ok := true;
      if p.Window? {
        UnitsFit();
        var size := AlignUp(p.size, dev.c.prog_size);
        var data := pbuf[..size];
        PatchedPart(dev.Block(p.block), p.off, data);
        dev.Prog(p.block, p.off, data);
        if validate {
          ok := Validate(data);
        }
        Zero();
      }
    }

    /** `lfs_bd_sync`: drops the read cache and flushes. */
    method Sync(validate: bool) returns (ok: bool)
      requires Valid()
      modifies this, rbuf, pbuf, dev.buffer
      ensures ok && Valid() && Agrees() && p == NoBlock
      ensures forall b: nat :: b < dev.c.block_count ==>
        dev.Block(b) == if Programmed(old(p), b) then Written(old(dev.Block(b)), old(p), old(pbuf[..]), dev.c.prog_size)
          else old(dev.Block(b))
    {
      hide Multiple, ValidConfig, Written;
      r := NoBlock;
      ok := Flush(validate);
    }

    /** The same, for a block in which what was programmed ends at `pos` in the program
        unit that ends at `end`: only in between may the flush add bytes. */
    method SyncUnit(b: nat, ghost pos: nat, ghost end: nat)
      requires Valid() && b < dev.c.block_count && Continues(b, pos) &&
               pos <= end < pos + dev.c.prog_size <= dev.c.block_size + dev.c.prog_size
      requires Multiple(end, dev.c.prog_size) && end <= dev.c.block_size
      modifies this, rbuf, pbuf, dev.buffer
      ensures Valid() && Agrees() && p == NoBlock && Continues(b, end)
      ensures dev.Block(b)[..pos] == old(Merged(b))[..pos] && dev.Block(b)[end..] == old(Merged(b))[end..]
    {
      hide Multiple, ValidConfig, Patch, SameFrom, AlignUp, AlignDown, Written;
      ghost var block, w, buf := dev.Block(b), p, pbuf[..];
      if p.Window? {
        UnitsFit();
        ghost var size := AlignUp(p.size, dev.c.prog_size);
        Aligned(p.size, dev.c.prog_size);
        MultipleAdd(p.off, size, dev.c.prog_size);
        if p.off + size > end {
          MultipleSub(p.off + size, end, dev.c.prog_size);
        }
        WrittenUnit(block, p, buf, dev.c.prog_size, end);
      }
      var ok := Sync(false);
    }

    /** What has been programmed ends here: where the program cache ends, or at the
        start of a program unit when it is empty. */
    ghost predicate Continues(b: nat, pos: nat)
      reads this
    {
      if p.Window? then p.block == b && pos == p.off + p.size && p.size < dev.c.cache_size
      else Multiple(pos, dev.c.prog_size)
    }

    /** Behind what has been programmed the device shows. */
    lemma MergedBehind(b: nat, pos: nat)
      requires Valid() && b < dev.c.block_count && Continues(b, pos)
      ensures forall i :: pos <= i < dev.c.block_size ==> Merged(b)[i] == dev.Block(b)[i]
    {
    }

    /** The program cache reaches as far as the program unit in which the bytes end. */
    lemma CacheReaches(b: nat, pos: nat, off: nat, end: nat)
      requires Valid() && p.Window? && Continues(b, pos) && Multiple(end, dev.c.prog_size) && off < end
      requires pos == off || end < pos + dev.c.prog_size
      ensures off < p.off + dev.c.cache_size
    {
      if pos != off {
        var limit := p.off + dev.c.cache_size;
        MultipleAdd(p.off, dev.c.cache_size, dev.c.prog_size);
        hide Multiple;
        if limit < end {
          MultipleSub(end, limit, dev.c.prog_size);
        }
      }
    }

    /** Bytes into the program cache, perhaps behind a gap, which keeps what was in the
        cache. */
    method Fill(b: nat, pos: nat, off: nat, data: seq<Byte>) returns (ghost gap: seq<Byte>)
      requires Valid() && p.Window? && Continues(b, pos) && pos <= off && off + |data| <= dev.c.block_size
      requires off + |data| <= p.off + dev.c.cache_size
      modifies this`p, pbuf
      ensures Valid() && p == old(p).(size := off + |data| - old(p.off)) && |gap| == off - pos
      ensures Merged(b) == Patch(old(Merged(b)), pos, gap + data)
      ensures forall o: nat :: o < dev.c.block_count && o != b ==> Merged(o) == old(Merged(o))
    {
      hide Multiple, ValidConfig, Patch;
      ghost var was, size, at := pbuf[..], p.size, off - p.off;
      gap := was[size..at];
      CopyTo(pbuf, off - p.off, data);
      PatchBehindGap(was, size, at, data);
      PatchExtends(dev.Block(b), p.off, was, size, gap + data, pbuf[..]);
      p := p.(size := off + |data| - p.off);
    }

    /** A full program cache is flushed. */
    method FlushFull(validate: bool, b: nat, ghost from: nat)
      requires Valid() && p.Window? && p.block == b && p.size == dev.c.cache_size && p.off + p.size <= from
      requires if validate then Agrees() else AgreesFrom(b, from)
      modifies this, rbuf, pbuf, dev.buffer
      ensures Valid() && p == NoBlock && (if validate then Agrees() else AgreesFrom(b, from))
      ensures Multiple(old(p.off + p.size), dev.c.prog_size)
      ensures forall o: nat :: o < dev.c.block_count ==> Merged(o) == old(Merged(o))
    {
      hide ValidConfig, Patch, AlignUp, AlignDown, Multiple, SameFrom;
      UnitsFit();
      FullUnits(p.off, dev.c.cache_size, dev.c.prog_size);
      ghost var w, was := p, if r.Window? then dev.Block(r.block) else [];
      var ok := Flush(validate);
      if !validate && r.Window? {
        if r.block == b {
          FlushedInFront(rbuf[..r.size], was, dev.Block(b), r.off, from, w.off, old(pbuf[..w.size]));
        }
      }
    }

    /** An empty program cache starts at a program unit. */
    method Begin(b: nat, ghost pos: nat, off: nat) returns (ghost start: nat)
      requires Valid() && p == NoBlock && Continues(b, pos) && pos <= off && b < dev.c.block_count &&
               off < dev.c.block_size
      modifies this`p
      ensures Valid() && p.Window? && Continues(b, start) && pos <= start <= off < p.off + dev.c.cache_size
      ensures forall o: nat :: o < dev.c.block_count ==> Merged(o) == old(Merged(o))
    {
      hide Patch, AlignDown, AlignUp, Multiple;
      var unit := AlignDown(off, dev.c.prog_size);
      start := unit;
      Aligned(off, dev.c.prog_size);
      if pos > unit {
        MultipleSub(pos, unit, dev.c.prog_size);
      }
      CacheHoldsUnit(dev.c, dev.c.prog_size);
      p := Window(b, unit, 0);
      PatchNothing(dev.Block(b), p.off);
      assert pbuf[..0] == [];
    }

    /** One turn of the loop of `lfs_bd_prog`: as many bytes as the program cache takes,
        or none and an empty one begun. `pos` is where what was programmed before
        ends, `end` where it does then. */
    method ProgSome(validate: bool, b: nat, ghost pos: nat, off: nat, data: seq<Byte>, ghost from: nat)
      returns (n: nat, ghost gap: seq<Byte>, ghost end: nat)
      requires Valid() && b < dev.c.block_count && off + |data| <= dev.c.block_size && off + |data| <= from
      requires if validate then Agrees() else AgreesFrom(b, from)
      requires data != [] && Continues(b, pos) && pos <= off && (p.Window? ==> off < p.off + dev.c.cache_size)
      modifies this, rbuf, pbuf, dev.buffer
      ensures n <= |data| && Valid() && (if validate then Agrees() else AgreesFrom(b, from)) && Continues(b, end)
      ensures if n > 0 then end == off + n else pos <= end <= off
      ensures n == 0 ==> p.Window? && old(p) == NoBlock && off < p.off + dev.c.cache_size
      ensures pos + |gap + data[..n]| == end && end <= dev.c.block_size
      ensures Merged(b) == Patch(old(Merged(b)), pos, gap + data[..n])
      ensures forall o: nat :: o < dev.c.block_count && o != b ==> Merged(o) == old(Merged(o))
    {
      hide ValidConfig, Patch, AlignUp, AlignDown, Multiple, Merged, SameFrom;
      if p.Window? {
        n := Min(|data|, dev.c.cache_size - (off - p.off));
        gap := Fill(b, p.off + p.size, off, data[..n]);
        end := off + n;
        if p.size == dev.c.cache_size {
          FlushFull(validate, b, from);
        }
      } else {
        n := 0;
        ghost var was := Merged(b);
        end := Begin(b, pos, off);
        gap := was[pos..end];
        PatchSelf(was, pos, end);
        assert gap + data[..0] == gap;
      }
    }

    /** `lfs_bd_prog`. What was programmed before ends at `pos`; the bytes in between
        may become anything. */
    method Prog(validate: bool, b: nat, ghost pos: nat, start: nat, data: seq<Byte>) returns (ghost gap: seq<Byte>)
      requires Valid() && b < dev.c.block_count && start + |data| <= dev.c.block_size
      requires if validate then Agrees() else AgreesFrom(b, start + |data|)
      requires Continues(b, pos) && pos <= start && (p.Window? ==> start < p.off + dev.c.cache_size)
      requires data == [] ==> pos == start
      modifies this, rbuf, pbuf, dev.buffer
      ensures Valid() && (if validate then Agrees() else AgreesFrom(b, start + |data|)) && Continues(b, start + |data|)
      ensures |gap| == start - pos && Merged(b) == Patch(old(Merged(b)), pos, gap + data)
      ensures forall o: nat :: o < dev.c.block_count && o != b ==> Merged(o) == old(Merged(o))
    {
      hide ValidConfig, Patch, AlignUp, AlignDown, Multiple, Merged, AgreesFrom;
      var i := 0;
      ghost var end: nat, done: seq<Byte> := pos, [];
      PatchNothing(Merged(b), pos);
      while i < |data|
        invariant i <= |data| && Valid() && (if validate then Agrees() else AgreesFrom(b, start + |data|))
        invariant Continues(b, end) && pos <= end <= start + i && pos + |done| == end && end <= dev.c.block_size
        invariant i > 0 ==> end == start + i && done[start - pos..] == data[..i]
        invariant p.Window? ==> i == |data| || start + i < p.off + dev.c.cache_size
        invariant Merged(b) == Patch(old(Merged(b)), pos, done)
        invariant forall o: nat :: o < dev.c.block_count && o != b ==> Merged(o) == old(Merged(o))
        decreases |data| - i, if p.Window? then 0 else 1
      {
        var n;
        ghost var more, next;
        n, more, next := ProgSome(validate, b, end, start + i, data[i..], start + |data|);
        PatchJoins(old(Merged(b)), pos, done, more + data[i..][..n]);
        DoneMore(done, more, data, i, n, start - pos);
        done := done + (more + data[i..][..n]);
        end, i := next, i + n;
      }
      gap := done[..start - pos];
      assert done == gap + done[start - pos..];
      assert data[..i] == data;
    }
  }

  lemma PatchJoins(block: seq<Byte>, pos: nat, a: seq<Byte>, b: seq<Byte>)
    requires pos + |a| + |b| <= |block|
    ensures Patch(Patch(block, pos, a), pos + |a|, b) == Patch(block, pos, a + b)
  {
  }

  /** What was done so far, once the gap is behind: the bytes programmed. */
  lemma DoneMore(done: seq<Byte>, more: seq<Byte>, data: seq<Byte>, i: nat, n: nat, gap: nat)
    requires i + n <= |data| && (i > 0 ==> |done| == gap + i && done[gap..] == data[..i])
    requires i == 0 ==> |done| <= gap
    requires if n > 0 then |done| + |more| == gap + i else i > 0 ==> more == []
    ensures i + n > 0 ==>
            |done + (more + data[i..][..n])| >= gap && (done + (more + data[i..][..n]))[gap..] == data[..i + n]
  {
    if i > 0 {
      assert (done + (more + data[i..][..n]))[gap..] == done[gap..] + data[i..][..n];
    } else if n > 0 {
      assert (done + (more + data[i..][..n]))[gap..] == data[i..][..n];
    }
  }

  /** Bytes behind a gap, as bytes with the gap. */
  lemma PatchBehindGap(buf: seq<Byte>, size: nat, at: nat, data: seq<Byte>)
    requires size <= at && at + |data| <= |buf|
    ensures Patch(buf, at, data) == Patch(buf, size, buf[size..at] + data)
  {
  }

  /** What was flushed in front of an offset does not matter behind it. */
  lemma FlushedInFront(buf: seq<Byte>, was: seq<Byte>, now: seq<Byte>, start: nat, from: nat, at: nat, data: seq<Byte>)
    requires SameFrom(buf, was, start, from) && at + |data| <= |was| && now == Patch(was, at, data) &&
             at + |data| <= from
    ensures SameFrom(buf, now, start, from)
  {
  }

  lemma PatchSelf(block: seq<Byte>, pos: nat, end: nat)
    requires pos <= end <= |block|
    ensures Patch(block, pos, block[pos..end]) == block
  {
  }

  lemma PatchNothing(block: seq<Byte>, off: nat)
    requires off <= |block|
    ensures Patch(block, off, []) == block
  {
  }

  lemma PatchExtends(block: seq<Byte>, at: nat, was: seq<Byte>, size: nat, data: seq<Byte>, now: seq<Byte>)
    requires size + |data| <= |was| && at + size + |data| <= |block| && now == Patch(was, size, data)
    ensures Patch(block, at, now[..size + |data|]) == Patch(Patch(block, at, was[..size]), at + size, data)
  {
    assert now[..size + |data|] == was[..size] + data;
  }

  lemma FullUnits(off: nat, size: nat, prog: nat)
    requires prog > 0 && Multiple(off, prog) && Multiple(size, prog)
    ensures AlignUp(size, prog) == size && Multiple(off + size, prog)
  {
    AlignUpStays(size, prog, size);
    Aligned(size, prog);
    MultipleAdd(off, size, prog);
  }


  /** A block after the program cache was flushed to it: what the cache holds, up to
      a whole program unit. */
  function Written(block: seq<Byte>, p: Window, buf: seq<Byte>, prog_size: nat): (r: seq<Byte>) {
    if p.Window? && prog_size > 0 && AlignUp(p.size, prog_size) <= |buf| &&
      p.off + AlignUp(p.size, prog_size) <= |block| then
      Patch(block, p.off, buf[..AlignUp(p.size, prog_size)])
    else block
  }

  /** A flush leaves in the block what was programmed, and changes less than a program
      unit behind it. */
  lemma WrittenMeans(block: seq<Byte>, p: Window, buf: seq<Byte>, prog_size: nat)
    requires p.Window? && prog_size > 0 && AlignUp(p.size, prog_size) <= |buf| &&
             p.off + AlignUp(p.size, prog_size) <= |block|
    ensures p.off + p.size <= |block| && p.size <= |buf|
    ensures var now, end := Written(block, p, buf, prog_size), p.off + p.size;
      now[..end] == Patch(block, p.off, buf[..p.size])[..end] &&
      forall i :: end + prog_size <= i < |block| ==> now[i] == block[i]
  {
    hide AlignDown, AlignUp;
    Aligned(p.size, prog_size);
  }

  lemma WrittenUnit(block: seq<Byte>, p: Window, buf: seq<Byte>, prog_size: nat, end: nat)
    requires p.Window? && prog_size > 0 && p.size <= AlignUp(p.size, prog_size) <= |buf|
    requires p.off + AlignUp(p.size, prog_size) <= end <= |block|
    ensures var now, was, pos := Written(block, p, buf, prog_size), Patch(block, p.off, buf[..p.size]), p.off + p.size;
      |now| == |block| && now[..pos] == was[..pos] && now[end..] == was[end..]
  {
    hide AlignUp;
  }

  lemma AlignUpStays(a: nat, m: nat, limit: nat)
    requires m > 0 && Multiple(limit, m) && a <= limit
    ensures AlignUp(a, m) <= limit
  {
    hide AlignUp, Multiple;
    Aligned(a, m);
    if AlignUp(a, m) > limit {
      MultipleSub(AlignUp(a, m), limit, m);
    }
  }

  lemma PartEnds(data: seq<Byte>, block: seq<Byte>, off: nat)
    requires IsPart(data, block, off)
    ensures off + |data| <= |block|
  {
  }

  lemma PatchedPart(block: seq<Byte>, off: nat, data: seq<Byte>)
    requires off + |data| <= |block|
    ensures IsPart(data, Patch(block, off, data), off)
  {
  }

  lemma PartsJoin(a: seq<Byte>, more: seq<Byte>, block: seq<Byte>, off: nat)
    requires IsPart(a, block, off) && IsPart(more, block, off + |a|)
    ensures IsPart(a + more, block, off)
  {
  }

  /** The first part that differs decides. */
  lemma CompareParts(data: seq<Byte>, i: nat, n: nat, dat: seq<Byte>, block: seq<Byte>, off: nat)
    requires i + n <= |data| && |dat| == n && off + |data| <= |block| && IsPart(dat, block, off + i)
    requires MemCmp(block[off..off + i], data[..i]) == Equal
    ensures var order := MemCmp(dat, data[i..i + n]);
      if order == Equal then MemCmp(block[off..off + (i + n)], data[..i + n]) == Equal
      else MemCmp(block[off..off + |data|], data) == order
  {
    hide MemCmp, IsPart;
    var x := block[off..off + |data|];
    PrefixOf(block, off, |data|, i);
    PrefixOf(block, off, |data|, i + n);
    PartIs(dat, block, off, |data|, i);
    CompareSeqs(x, data, i, n);
  }

  lemma PrefixOf(block: seq<Byte>, off: nat, len: nat, k: nat)
    requires off + len <= |block| && k <= len
    ensures block[off..off + len][..k] == block[off..off + k]
  {
  }

  lemma PartIs(dat: seq<Byte>, block: seq<Byte>, off: nat, len: nat, i: nat)
    requires IsPart(dat, block, off + i) && i + |dat| <= len && off + len <= |block|
    ensures block[off..off + len][i..i + |dat|] == dat
  {
    SliceOfSlice(block, off, len, i, |dat|);
  }

  lemma CompareSeqs(x: seq<Byte>, data: seq<Byte>, i: nat, n: nat)
    requires |x| == |data| && i + n <= |data| && MemCmp(x[..i], data[..i]) == Equal
    ensures var order := MemCmp(x[i..i + n], data[i..i + n]);
      if order == Equal then MemCmp(x[..i + n], data[..i + n]) == Equal else MemCmp(x, data) == order
  {
    hide MemCmp;
    assert x[..i + n] == x[..i] + x[i..i + n] && data[..i + n] == data[..i] + data[i..i + n];
    MemCmpAppend(x[..i], data[..i], x[i..i + n], data[i..i + n]);
    assert x == x[..i + n] + x[i + n..] && data == data[..i + n] + data[i + n..];
    MemCmpAppend(x[..i + n], data[..i + n], x[i + n..], data[i + n..]);
  }

  lemma PartCompares(data: seq<Byte>, block: seq<Byte>, off: nat)
    requires IsPart(data, block, off)
    ensures MemCmp(block[off..off + |data|], data) == Equal
  {
    MemCmpEqual(data, data);
  }
}
