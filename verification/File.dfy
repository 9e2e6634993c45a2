/** Reading, writing, flushing and seeking a file that is stored in blocks
    (`lfs_file_flushedread`, `lfs_file_flushedwrite`, `lfs_file_flush`,
    `lfs_file_rawwrite`, `lfs_file_rawread`, `lfs_file_rawseek`), as a
    refinement of a byte sequence with a position. */
module File {
  import opened Bits
  import opened Bytes
  import opened CtzIndex
  import opened SkipList

  datatype Error = NoSpace | FileTooBig | Invalid

  datatype Outcome<T> = Ok(value: T) | Err(error: Error)

  // ----- the specification: a byte sequence -----

  /** `data` written over `s` from position p on. */
  function Overwrite(s: seq<Byte>, p: nat, data: seq<Byte>): (r: seq<Byte>)
    requires p <= |s|
  {
    s[..p] + data + (if p + |data| < |s| then s[p + |data|..] else [])
  }

  function Zeros(n: nat): (r: seq<Byte>)
    ensures |r| == n
  {
    seq(n, _ => 0)
  }

  /** `s` filled up with zeros to length n, if it is shorter. */
  function ZeroFill(s: seq<Byte>, n: nat): (r: seq<Byte>) {
    if |s| < n then s + Zeros(n - |s|) else s
  }

  lemma OverwriteMore(s: seq<Byte>, p: nat, d: seq<Byte>, e: seq<Byte>)
    requires p <= |s|
    ensures p + |d| <= |Overwrite(s, p, d)|
    ensures Overwrite(Overwrite(s, p, d), p + |d|, e) == Overwrite(s, p, d + e)
  {
    var r := Overwrite(s, p, d);
    assert r[..p + |d|] == s[..p] + d;
    assert s[..p] + (d + e) == s[..p] + d + e;
  }

  lemma OverwriteNothing(s: seq<Byte>, p: nat)
    requires p <= |s|
    ensures Overwrite(s, p, []) == s
  {
    assert s[..p] + s[p..] == s;
  }

  /** What a version being written holds: the bytes written so far, then the
      rest of the stored bytes. */
  function Merged(written: seq<Byte>, stored: seq<Byte>): (r: seq<Byte>)
    ensures |r| == Max(|written|, |stored|)
  {
    written + stored[Min(|written|, |stored|)..]
  }

  lemma MergeMore(written: seq<Byte>, chunk: seq<Byte>, stored: seq<Byte>)
    ensures Merged(written + chunk, stored) == Overwrite(Merged(written, stored), |written|, chunk)
  {
    var m := Merged(written, stored);
    assert m[..|written|] == written;
    if |written| + |chunk| < |m| {
      assert m[|written| + |chunk|..] == stored[|written| + |chunk|..];
    }
  }

  lemma MergePrefix(stored: seq<Byte>, n: nat)
    requires n <= |stored|
    ensures Merged(stored[..n], stored) == stored
  {
  }

  // ----- the block level -----

  /** Programming bytes behind the pointers of the last block of a chain. */
  lemma ProgramLast(disk: Disk, blockSize: nat, front: seq<nat>, b: nat, off: nat, data: seq<Byte>)
    requires Chain(disk, blockSize, front + [b]) && b !in front
    requires PointerBytes(|front|) <= off && off + |data| <= blockSize
    ensures b in disk && |disk[b]| == blockSize
    ensures var disk' := disk[b := Patch(disk[b], off, data)];
      var pos := DataStart(blockSize, |front|) + off - PointerBytes(|front|);
      Chain(disk', blockSize, front + [b]) && 0 <= pos &&
      ProgrammedAt(Payload(disk, blockSize, front + [b]), Payload(disk', blockSize, front + [b]), pos, data)
  {
    var all := front + [b];
    assert all[|front|] == b && IsBlock(disk, blockSize, all[|front|]);
    var disk' := disk[b := Patch(disk[b], off, data)];
    var skip := PointerBytes(|front|);
    assert OnDisk(disk', blockSize, all);
    forall i | 0 < i < |all| ensures PointersAt(disk', blockSize, all, i) {
      assert PointersAt(disk, blockSize, all, i);
      forall k: nat | k <= Ctz(i) ensures PointsBack(disk'[all[i]], all, i, k) {
        assert PointsBack(disk[all[i]], all, i, k);
        if i == |front| {
          PatchKeepsOtherWords(disk[b], off, data, 4 * k);
        }
      }
    }
    assert OnDisk(disk, blockSize, front) by {
      assert forall i :: 0 <= i < |front| ==> front[i] == all[i];
    }
    PayloadLength(disk, blockSize, front);
    PayloadFrame(disk, disk', blockSize, front);
    PayloadSnoc(disk, blockSize, front, b, skip);
    PayloadSnoc(disk', blockSize, front, b, skip);
    PatchBehind(Payload(disk, blockSize, front), disk[b], skip, off, data);
  }

  /** A place within the last block lies within the payload. */
  lemma PayloadRoom(disk: Disk, blockSize: nat, front: seq<nat>, b: nat, off: nat)
    requires Chain(disk, blockSize, front + [b])
    requires PointerBytes(|front|) <= off <= blockSize
    ensures 0 <= DataStart(blockSize, |front|)
    ensures DataStart(blockSize, |front|) + off - PointerBytes(|front|) <= |Payload(disk, blockSize, front + [b])|
  {
    PayloadLength(disk, blockSize, front + [b]);
    var all := front + [b];
    assert OnDisk(disk, blockSize, front) by {
      assert forall i :: 0 <= i < |front| ==> front[i] == all[i];
    }
    PayloadLength(disk, blockSize, front);
  }

  /** `t` is `s` with `data` at position `pos`; bytes behind it do not matter. */
  ghost predicate ProgrammedAt(s: seq<Byte>, t: seq<Byte>, pos: nat, data: seq<Byte>) {
    pos <= |s| && pos + |data| <= |t| && t[..pos] == s[..pos] && t[..pos + |data|] == s[..pos] + data
  }

  lemma PatchBehind(front: seq<Byte>, content: seq<Byte>, skip: nat, off: nat, data: seq<Byte>)
    requires skip <= off && off + |data| <= |content|
    ensures ProgrammedAt(front + content[skip..], front + Patch(content, off, data)[skip..], |front| + off - skip, data)
  {
    var patched := Patch(content, off, data);
    assert patched[skip..][..off - skip] == content[skip..][..off - skip];
    assert patched[skip..][..off - skip + |data|] == content[skip..][..off - skip] + data;
    var pos := |front| + off - skip;
    assert (front + content[skip..])[..pos] == front + content[skip..][..off - skip];
    assert (front + patched[skip..])[..pos] == front + patched[skip..][..off - skip];
    assert (front + patched[skip..])[..pos + |data|] == front + patched[skip..][..off - skip + |data|];
  }

  /** The blocks up to the one holding byte pos - 1 are a file of size pos with
      the same first bytes. */
  lemma PrefixFile(disk: Disk, blockSize: nat, head: nat, size: nat, blocks: seq<nat>, pos: nat, i: nat, off: nat)
    requires FileBlocks(disk, blockSize, head, size, blocks)
    requires 0 < pos <= size && i < |blocks| && LocatedAt(blockSize, pos - 1, i, off)
    ensures FileBlocks(disk, blockSize, blocks[i], pos, blocks[..i + 1])
    ensures Content(disk, blockSize, blocks[i], pos, blocks[..i + 1]) ==
      Content(disk, blockSize, head, size, blocks)[..pos]
  {
    ChainPrefix(disk, blockSize, blocks, i + 1);
    PayloadPrefix(disk, blockSize, blocks, i + 1);
    PayloadLength(disk, blockSize, blocks[..i + 1]);
    PayloadLength(disk, blockSize, blocks);
    TakeOfPrefix(Payload(disk, blockSize, blocks[..i + 1]), Payload(disk, blockSize, blocks), size, pos);
  }

  lemma TakeOfPrefix(q: seq<Byte>, p: seq<Byte>, size: nat, pos: nat)
    requires q <= p && pos <= |q| && pos <= size <= |p|
    ensures q[..pos] == p[..size][..pos]
  {
    assert q == p[..|q|];
  }

  lemma {:induction false} PayloadPrefix(disk: Disk, blockSize: nat, blocks: seq<nat>, n: nat)
    requires Geometry(blockSize, |blocks|) && OnDisk(disk, blockSize, blocks) && n <= |blocks|
    ensures OnDisk(disk, blockSize, blocks[..n])
    ensures Payload(disk, blockSize, blocks[..n]) <= Payload(disk, blockSize, blocks)
    decreases |blocks|
  {
    if n < |blocks| {
      var last := |blocks| - 1;
      PayloadPrefix(disk, blockSize, blocks[..last], n);
      assert blocks[..last][..n] == blocks[..n];
      assert blocks == blocks[..last] + [blocks[last]];
      PayloadSnoc(disk, blockSize, blocks[..last], blocks[last], PointerBytes(last));
    } else {
      assert blocks[..n] == blocks;
    }
  }

  lemma FileFrame(disk: Disk, disk': Disk, blockSize: nat, head: nat, size: nat, blocks: seq<nat>)
    requires FileBlocks(disk, blockSize, head, size, blocks) && Agree(disk, disk', blocks)
    ensures FileBlocks(disk', blockSize, head, size, blocks)
    ensures Content(disk', blockSize, head, size, blocks) == Content(disk, blockSize, head, size, blocks)
  {
    ChainFrame(disk, disk', blockSize, blocks);
    PayloadFrame(disk, disk', blockSize, blocks);
  }

  /** A version being written ends in block `b`, with `off` as the place of
      position `pos`. */
  ghost predicate WritingAt(disk: Disk, blockSize: nat, front: seq<nat>, b: nat, off: nat, pos: nat) {
    Chain(disk, blockSize, front + [b]) && b !in front &&
    PointerBytes(|front|) <= off <= blockSize &&
    pos == DataStart(blockSize, |front|) + off - PointerBytes(|front|)
  }

  /** The bytes programmed for it so far. */
  ghost function WrittenBytes(disk: Disk, blockSize: nat, front: seq<nat>, b: nat, off: nat, pos: nat): (s: seq<Byte>)
    requires WritingAt(disk, blockSize, front, b, off, pos)
    ensures |s| == pos
  {
    PayloadRoom(disk, blockSize, front, b, off);
    Payload(disk, blockSize, front + [b])[..pos]
  }

  /** Extending a file by a block not used by it starts a version with the same
      bytes. */
  lemma ExtendedIsWriting(disk: Disk, disk': Disk, blockSize: nat, head: nat, pos: nat, nblock: nat,
                          chain: seq<nat>, off: nat)
    requires FileBlocks(disk, blockSize, head, pos, chain) && nblock !in chain
    requires Extended(disk, disk', blockSize, head, pos, nblock, chain, off)
    ensures WritingAt(disk', blockSize, FrontOf(blockSize, pos, chain), nblock, off, pos) && off < blockSize
    ensures WrittenBytes(disk', blockSize, FrontOf(blockSize, pos, chain), nblock, off, pos) ==
      Content(disk, blockSize, head, pos, chain)
  {
    assert ExtendedBlocks(blockSize, pos, nblock, chain) == FrontOf(blockSize, pos, chain) + [nblock];
  }

  /** The blocks an extension leaves in front of the new one. */
  function FrontOf(blockSize: nat, size: nat, chain: seq<nat>): (r: seq<nat>)
    ensures r <= chain
  {
    if chain != [] && size != DataStart(blockSize, |chain|) then chain[..|chain| - 1] else chain
  }

  // ----- the state of an open file -----

  /** The device as the file sees it through its caches, what the allocator
      hands out next, and the fields of the file. `blocks` and `front` are
      there for the proofs: the blocks of the file as last flushed, and those
      before `block` of the version being written. */
  datatype State = State(
    blockSize: nat, fileMax: nat, append: bool,
    disk: Disk, free: set<nat>,
    head: nat, size: nat, pos: nat, block: nat, off: nat,
    reading: bool, writing: bool, dirty: bool, erred: bool,
    cacheOff: nat, cacheSize: nat,
    ghost blocks: seq<nat>, ghost front: seq<nat>)

  ghost predicate Apart(blocks: seq<nat>, free: set<nat>) {
    forall i :: 0 <= i < |blocks| ==> blocks[i] !in free
  }

  /** Blocks to be handed out are not in use. */
  ghost predicate FreeBlocks(st: State) {
    112 <= st.blockSize < WORD && st.fileMax <= FILE_MAX &&
    (forall b :: b in st.free ==> IsBlock(st.disk, st.blockSize, b)) &&
    Apart(st.blocks, st.free) && (st.writing ==> Apart(st.front + [st.block], st.free))
  }

  ghost predicate Flushed(st: State) {
    FileBlocks(st.disk, st.blockSize, st.head, st.size, st.blocks)
  }

  ghost predicate WritePlace(st: State) {
    WritingAt(st.disk, st.blockSize, st.front, st.block, st.off, st.pos) && st.block !in st.blocks &&
    (st.append ==> st.size <= st.pos)
  }

  /** While a read is in progress, `block` and `off` are the place of `pos`, or
      the end of the block before it, where the next read looks the place up. */
  ghost predicate ReadPlace(st: State) {
    (st.off != st.blockSize ==>
      exists i :: 0 <= i < |st.blocks| && st.block == st.blocks[i] && LocatedAt(st.blockSize, st.pos, i, st.off)) &&
    (st.off == st.blockSize ==>
      exists i :: 0 <= i < |st.blocks| && st.block == st.blocks[i] && st.pos == DataStart(st.blockSize, i + 1))
  }

  ghost predicate Valid(st: State) {
    FreeBlocks(st) && Flushed(st) &&
    (st.reading ==> !st.writing && ReadPlace(st)) && (st.writing ==> WritePlace(st))
  }

  /** The bytes as last flushed, and those programmed for the next version. */
  ghost function Stored(st: State): (s: seq<Byte>)
    requires Flushed(st)
    ensures |s| == st.size
  {
    Content(st.disk, st.blockSize, st.head, st.size, st.blocks)
  }

  ghost function Written(st: State): (s: seq<Byte>)
    requires WritePlace(st)
    ensures |s| == st.pos
  {
    WrittenBytes(st.disk, st.blockSize, st.front, st.block, st.off, st.pos)
  }

  /** What the file contains for its user. */
  ghost function Contents(st: State): (s: seq<Byte>)
    requires Valid(st)
    ensures |s| == if st.writing then Max(st.pos, st.size) else st.size
  {
    if st.writing then Merged(Written(st), Stored(st)) else Stored(st)
  }

  /** What an operation may change on the disk: blocks that were free, and the
      block that was being written already. */
  ghost predicate Kept(st: State, st': State) {
    st'.disk.Keys == st.disk.Keys && st'.free <= st.free &&
    (forall b :: b in st.disk && b !in st.free && !(st.writing && b == st.block) ==> st'.disk[b] == st.disk[b]) &&
    (st'.writing ==> st'.block in st.free || (st.writing && st'.block == st.block))
  }

  /** A block that is free or part of the version being written. */
  ghost predicate Held(st: State, b: nat) {
    b in st.free || (st.writing && (b == st.block || b in st.front))
  }

  /** Every block that is taken is used for the version being written. */
  ghost predicate NoneLost(st: State, st': State) {
    forall b :: Held(st, b) ==> Held(st', b)
  }

  /** ...or for the stored one, when that became it. */
  ghost predicate NoneWasted(st: State, st': State) {
    forall b :: Held(st, b) ==> Held(st', b) || b in st'.blocks
  }

  ghost predicate SameFile(st: State, st': State) {
    st'.blockSize == st.blockSize && st'.fileMax == st.fileMax && st'.append == st.append
  }

  lemma KeptTransitive(a: State, b: State, c: State)
    requires Kept(a, b) && Kept(b, c)
    ensures Kept(a, c)
  {
  }

  // ----- the steps on states -----

  /** Taking the next free block for the version whose blocks are `chain`. */
  lemma GrowStep(st: State, disk': Disk, nblock: nat, off': nat, chain: seq<nat>)
    requires Valid(st) && !st.reading && nblock in st.free
    requires FileBlocks(st.disk, st.blockSize, st.block, st.pos, chain) && Apart(chain, st.free)
    requires st.writing ==> Content(st.disk, st.blockSize, st.block, st.pos, chain) == Written(st)
    requires !st.writing ==> st.pos <= st.size && (st.append ==> st.size == st.pos)
    requires !st.writing ==> Content(st.disk, st.blockSize, st.block, st.pos, chain) == Stored(st)[..st.pos]
    requires Extended(st.disk, disk', st.blockSize, st.block, st.pos, nblock, chain, off')
    ensures var st' := Grown(st, disk', nblock, off', chain);
      Valid(st') && Contents(st') == Contents(st) && st'.off < st'.blockSize && Kept(st, st')
  {
    var st' := Grown(st, disk', nblock, off', chain);
    ExtendedIsWriting(st.disk, disk', st.blockSize, st.block, st.pos, nblock, chain, off');
    FileFrame(st.disk, disk', st.blockSize, st.head, st.size, st.blocks);
    GrowKeepsFree(st, disk', nblock, off', chain);
    if !st.writing {
      MergePrefix(Stored(st), st.pos);
    }
  }

  ghost function Grown(st: State, disk': Disk, nblock: nat, off': nat, chain: seq<nat>): State {
    st.(disk := disk', free := st.free - {nblock}, block := nblock, off := off', writing := true,
        front := FrontOf(st.blockSize, st.pos, chain))
  }

  lemma GrowKeepsFree(st: State, disk': Disk, nblock: nat, off': nat, chain: seq<nat>)
    requires FreeBlocks(st) && nblock in st.free && Apart(chain, st.free)
    requires OnlyChanged(st.disk, disk', nblock) && IsBlock(disk', st.blockSize, nblock)
    ensures FreeBlocks(Grown(st, disk', nblock, off', chain))
  {
    forall b | b in st.free && b != nblock ensures IsBlock(disk', st.blockSize, b) {
      assert IsBlock(st.disk, st.blockSize, b);
    }
  }

  /** Programming bytes into the block being written. */
  lemma ProgramStep(st: State, chunk: seq<Byte>)
    requires Valid(st) && st.writing && st.off + |chunk| <= st.blockSize
    ensures st.block in st.disk && |st.disk[st.block]| == st.blockSize
    ensures var st' := Programmed(st, chunk);
      Valid(st') && Contents(st') == Overwrite(Contents(st), st.pos, chunk) && Kept(st, st') && NoneLost(st, st')
  {
    ProgramLast(st.disk, st.blockSize, st.front, st.block, st.off, chunk);
    var st' := Programmed(st, chunk);
    FileFrame(st.disk, st'.disk, st.blockSize, st.head, st.size, st.blocks);
    forall b | b in st.free ensures IsBlock(st'.disk, st.blockSize, b) {
      assert IsBlock(st.disk, st.blockSize, b);
    }
    assert Written(st') == Written(st) + chunk;
    MergeMore(Written(st), chunk, Stored(st));
  }

  ghost function Programmed(st: State, chunk: seq<Byte>): State
    requires st.block in st.disk && st.off + |chunk| <= |st.disk[st.block]|
  {
    st.(disk := st.disk[st.block := Patch(st.disk[st.block], st.off, chunk)],
        pos := st.pos + |chunk|, off := st.off + |chunk|)
  }

  /** Between operations something has been written behind the pointers of the
      block being written. */
  ghost predicate Settled(st: State) {
    Valid(st) && st.pos <= st.fileMax && st.size <= st.fileMax && (st.writing ==> PointerBytes(|st.front|) < st.off)
  }

  /** Then what has been written is a file ending in `block`. */
  lemma WrittenIsFile(st: State)
    requires Settled(st) && st.writing
    ensures FileBlocks(st.disk, st.blockSize, st.block, st.pos, st.front + [st.block])
    ensures Content(st.disk, st.blockSize, st.block, st.pos, st.front + [st.block]) == Written(st)
  {
    PayloadRoom(st.disk, st.blockSize, st.front, st.block, st.off);
    assert (st.front + [st.block])[|st.front|] == st.block;
  }

  /** Making the written version the stored one, once it covers the old one. */
  lemma FlushStep(st: State, pos: nat)
    requires Settled(st) && st.writing && st.size <= st.pos && !st.reading && pos <= st.fileMax
    ensures Settled(AsStored(st, pos)) && Contents(AsStored(st, pos)) == Contents(st)
  {
    WrittenIsFile(st);
  }

  ghost function AsStored(st: State, pos: nat): State {
    st.(head := st.block, size := st.pos, blocks := st.front + [st.block], front := [],
        writing := false, dirty := true, pos := pos)
  }

  /** Nothing the user sees changes. */
  ghost predicate Quiet(st: State, st': State) {
    Valid(st) && Valid(st') && Contents(st') == Contents(st) && Kept(st, st') && NoneLost(st, st') &&
      SameFile(st, st') &&
    st'.head == st.head && st'.size == st.size && st'.blocks == st.blocks && st'.pos == st.pos &&
    st'.reading == st.reading && st'.dirty == st.dirty
  }

  /** A version is being written with room behind `off`, or can be started. */
  ghost predicate CanWrite(st: State) {
    Valid(st) && !st.reading && (!st.writing ==> st.pos <= st.size && (st.append ==> st.size == st.pos))
  }

  /** Where the write loop stands after k bytes. */
  ghost predicate Wrote(st: State, cur: State, data: seq<Byte>, k: nat) {
    CanWrite(st) && Settled(cur) && CanWrite(cur) && Kept(st, cur) && NoneLost(st, cur) && SameFile(st, cur) &&
    cur.head == st.head && cur.size == st.size && cur.blocks == st.blocks && cur.dirty == st.dirty &&
    k <= |data| && cur.pos == st.pos + k && (cur.writing <==> st.writing || k > 0) &&
    st.pos <= |Contents(st)| && Contents(cur) == Overwrite(Contents(st), st.pos, data[..k])
  }

  lemma WroteNothing(st: State, data: seq<Byte>)
    requires Settled(st) && CanWrite(st)
    ensures Wrote(st, st, data, 0)
  {
    OverwriteNothing(Contents(st), st.pos);
    assert data[..0] == [];
  }

  lemma WriteMore(st: State, cur: State, middle: State, data: seq<Byte>, k: nat, next: nat)
    requires Wrote(st, cur, data, k) && k < next <= |data|
    requires Quiet(cur, middle) && middle.writing && middle.off + (next - k) <= middle.blockSize
    requires st.pos + |data| <= st.fileMax
    ensures middle.block in middle.disk && |middle.disk[middle.block]| == middle.blockSize
    ensures Wrote(st, Programmed(middle, data[k..next]), data, next)
  {
    var chunk := data[k..next];
    ProgramStep(middle, chunk);
    KeptTransitive(st, cur, middle);
    KeptTransitive(st, middle, Programmed(middle, chunk));
    OverwriteChunk(Contents(st), st.pos, data, k, next);
  }

  lemma OverwriteChunk(s: seq<Byte>, p: nat, data: seq<Byte>, k: nat, next: nat)
    requires p <= |s| && k <= next <= |data|
    ensures p + k <= |Overwrite(s, p, data[..k])|
    ensures Overwrite(Overwrite(s, p, data[..k]), p + k, data[k..next]) == Overwrite(s, p, data[..next])
  {
    OverwriteMore(s, p, data[..k], data[k..next]);
    assert data[..k] + data[k..next] == data[..next];
  }

  lemma WroteFacts(st: State, cur: State, data: seq<Byte>, k: nat)
    requires Wrote(st, cur, data, k)
    ensures CanWrite(cur) && cur.pos == st.pos + k && SameFile(st, cur)
    ensures k <= |data| && cur.fileMax <= FILE_MAX
  {
  }

  /** Extending into a free block, as a step on the state. */
  method ExtendInto(disk: Disk, blockSize: nat, block: nat, pos: nat, nblock: nat, ghost st: State,
                    ghost chain: seq<nat>)
    returns (disk': Disk, off': nat)
    requires CanWrite(st) && nblock in st.free
    requires disk == st.disk && blockSize == st.blockSize && block == st.block && pos == st.pos
    requires Continues(st, chain)
    ensures Quiet(st, Grown(st, disk', nblock, off', chain)) && off' < blockSize
  {
    disk', off' := Extend(disk, blockSize, block, pos, nblock, chain);
    GrowStep(st, disk', nblock, off', chain);
    GrowLosesNone(st, disk', nblock, off', chain);
  }

  lemma GrowLosesNone(st: State, disk': Disk, nblock: nat, off': nat, chain: seq<nat>)
    requires st.writing ==> chain == st.front + [st.block] && DataStart(st.blockSize, |chain|) == st.pos
    ensures NoneLost(st, Grown(st, disk', nblock, off', chain))
  {
    hide DataStart;
    if st.writing {
      assert forall b :: b == st.block || b in st.front ==> b in chain;
    }
  }

  /** `chain` is a file ending in `block` with the bytes before `pos`. */
  ghost predicate Continues(st: State, chain: seq<nat>)
    requires Valid(st)
  {
    FileBlocks(st.disk, st.blockSize, st.block, st.pos, chain) && Apart(chain, st.free) &&
    (st.writing ==> Content(st.disk, st.blockSize, st.block, st.pos, chain) == Written(st)) &&
    (st.writing ==> chain == st.front + [st.block] && DataStart(st.blockSize, |chain|) == st.pos) &&
    (!st.writing ==> st.pos <= st.size) &&
    (!st.writing ==> Content(st.disk, st.blockSize, st.block, st.pos, chain) == Stored(st)[..st.pos])
  }

  lemma BlockFull(st: State)
    requires Valid(st) && st.writing && st.off == st.blockSize && st.pos <= FILE_MAX
    ensures Continues(st, st.front + [st.block])
  {
    PointersFit(st.blockSize, |st.front|);
    PayloadRoom(st.disk, st.blockSize, st.front, st.block, st.off);
    assert (st.front + [st.block])[|st.front|] == st.block;
  }

  /** `block` and `off` mean nothing while no operation is in progress. */
  lemma IdlePlace(st: State, block: nat, off: nat)
    requires Valid(st) && !st.reading && !st.writing
    ensures Quiet(st, Found(st, block, off))
  {
  }

  /** Finding the block before `pos`, as a step on the state. */
  method FindBefore(disk: Disk, blockSize: nat, head: nat, size: nat, pos: nat, block0: nat, off0: nat, ghost st: State)
    returns (block: nat, off: nat, ghost chain: seq<nat>)
    requires CanWrite(st) && !st.writing && pos == st.pos
    requires disk == st.disk && blockSize == st.blockSize && head == st.head && size == st.size
    ensures Quiet(st, Found(st, block, off)) && CanWrite(Found(st, block, off))
    ensures Continues(Found(st, block, off), chain)
  {
    if pos == 0 {
      IdlePlace(st, block0, off0);
      return block0, off0, [];
    }
    ghost var index, hops;
    block, off, index, hops := Find(disk, blockSize, head, size, pos - 1, st.blocks);
    chain := st.blocks[..index + 1];
    PrefixFile(disk, blockSize, head, size, st.blocks, pos, index, off);
    IdlePlace(st, block, off);
  }

  ghost function Found(st: State, block: nat, off: nat): State {
    st.(block := block, off := off, cacheOff := 0, cacheSize := 0)
  }

  lemma QuietTransitive(a: State, b: State, c: State)
    requires Quiet(a, b) && Quiet(b, c)
    ensures Quiet(a, c)
  {
    KeptTransitive(a, b, c);
  }

  lemma WriteFacts(st: State)
    requires CanWrite(st)
    ensures Quiet(st, st) && (st.writing ==> st.off <= st.blockSize)
  {
  }

  lemma Erring(st: State)
    requires CanWrite(st)
    ensures Quiet(st, st.(erred := true))
  {
  }

  lemma WroteStill(st: State, cur: State, last: State, data: seq<Byte>, k: nat)
    requires Wrote(st, cur, data, k) && Quiet(cur, last)
    requires last.writing == cur.writing && (last.writing ==> last.front == cur.front && last.off == cur.off)
    ensures Wrote(st, last, data, k)
  {
    KeptTransitive(st, cur, last);
  }

  // ----- reading -----

  /** After the look-up, or in the middle of a block. */
  ghost predicate AtByte(st: State, i: nat) {
    Settled(st) && !st.writing && st.pos < st.size &&
    i < |st.blocks| && st.block == st.blocks[i] && LocatedAt(st.blockSize, st.pos, i, st.off)
  }

  /** The bytes of one block are consecutive bytes of the file. */
  lemma ReadStep(st: State, i: nat, diff: nat)
    requires AtByte(st, i) && diff <= st.blockSize - st.off && st.pos + diff <= st.size
    ensures st.block in st.disk && |st.disk[st.block]| == st.blockSize
    ensures st.disk[st.block][st.off..st.off + diff] == Stored(st)[st.pos..st.pos + diff]
  {
    assert IsBlock(st.disk, st.blockSize, st.blocks[i]);
    PayloadLength(st.disk, st.blockSize, st.blocks);
    BlockSlice(st.disk, st.blockSize, st.blocks, st.pos, i, st.off, diff);
    SliceOfTake(Payload(st.disk, st.blockSize, st.blocks), st.size, st.pos, st.pos + diff);
  }

  lemma SliceOfTake(s: seq<Byte>, n: nat, a: nat, b: nat)
    requires a <= b <= n <= |s|
    ensures s[..n][a..b] == s[a..b]
  {
  }

  lemma BlockSlice(disk: Disk, blockSize: nat, blocks: seq<nat>, pos: nat, i: nat, off: nat, diff: nat)
    requires Geometry(blockSize, |blocks|) && OnDisk(disk, blockSize, blocks)
    requires i < |blocks| && LocatedAt(blockSize, pos, i, off) && off + diff <= blockSize
    requires pos + diff <= |Payload(disk, blockSize, blocks)|
    ensures IsBlock(disk, blockSize, blocks[i])
    ensures disk[blocks[i]][off..off + diff] == Payload(disk, blockSize, blocks)[pos..pos + diff]
  {
    assert IsBlock(disk, blockSize, blocks[i]);
    var fromBlock, fromFile := disk[blocks[i]][off..off + diff], Payload(disk, blockSize, blocks)[pos..pos + diff];
    forall j | 0 <= j < diff ensures fromBlock[j] == fromFile[j] {
      PayloadAt(disk, blockSize, blocks, pos + j, i, off + j);
    }
  }

  ghost function ReadOn(st: State, diff: nat, cacheOff: nat, cacheSize: nat): State {
    st.(pos := st.pos + diff, off := st.off + diff, reading := true, cacheOff := cacheOff, cacheSize := cacheSize)
  }

  lemma ReadOnSettled(st: State, i: nat, diff: nat, cacheOff: nat, cacheSize: nat)
    requires AtByte(st, i) && 0 < diff <= st.blockSize - st.off && st.pos + diff <= st.size <= st.fileMax
    ensures Settled(ReadOn(st, diff, cacheOff, cacheSize))
    ensures Contents(ReadOn(st, diff, cacheOff, cacheSize)) == Contents(st)
  {
    var next := ReadOn(st, diff, cacheOff, cacheSize);
    if next.off != st.blockSize {
      assert LocatedAt(st.blockSize, next.pos, i, next.off);
    } else {
      assert next.pos == DataStart(st.blockSize, i + 1);
    }
  }

  /** What reading changes: where the file is, nothing of what it holds. */
  ghost predicate OnlyMoved(st: State, st': State) {
    Settled(st) && Settled(st') && !st.writing && !st'.writing &&
    st' == st.(pos := st'.pos, block := st'.block, off := st'.off, reading := st'.reading,
               cacheOff := st'.cacheOff, cacheSize := st'.cacheSize)
  }

  // ----- flushing -----

  /** The loop that copies the stored bytes behind `pos`, seen from the version
      being written and from the reader of the stored version. */
  ghost predicate Copying(st0: State, st: State, reader: State) {
    Settled(st0) && Settled(st) && st.writing && Quiet0(st0, st) && st0.pos <= st.pos <= Max(st0.pos, st.size) &&
    Settled(reader) && !reader.writing && reader.pos == st.pos && reader.disk == st.disk && reader.free == st.free &&
    reader.blockSize == st.blockSize && reader.fileMax == st.fileMax &&
    reader.head == st.head && reader.size == st.size && reader.blocks == st.blocks
  }

  /** Nothing the user sees changes, except that more of it has been written. */
  ghost predicate Quiet0(st: State, st': State) {
    Valid(st) && Valid(st') && Contents(st') == Contents(st) && Kept(st, st') && NoneLost(st, st') &&
      SameFile(st, st') &&
    st'.head == st.head && st'.size == st.size && st'.blocks == st.blocks && !st'.reading && st'.dirty == st.dirty
  }

  /** Writing the stored byte at `pos` over itself. */
  lemma CopyByte(st0: State, before: State, st: State, data: seq<Byte>, done: nat)
    requires Settled(st0) && Settled(before) && before.writing && Quiet0(st0, before)
    requires before.pos < before.size && data == Stored(before)[before.pos..before.pos + 1]
    requires Wrote(before, st, data, done)
    ensures Quiet0(st0, st) && Settled(st) && st.writing && st.pos == before.pos + done
  {
    KeptTransitive(st0, before, st);
    var c := Contents(before);
    assert c[before.pos] == Stored(before)[before.pos];
    SameByte(c, before.pos, data[..done]);
  }

  lemma SameByte(s: seq<Byte>, p: nat, data: seq<Byte>)
    requires |data| <= 1 && p < |s| && (data == [] || data[0] == s[p])
    ensures Overwrite(s, p, data) == s
  {
  }

  /** The device has moved on under a reader of the stored version. */
  lemma ReaderFollows(reader: State, st: State)
    requires Settled(reader) && !reader.writing && Settled(st)
    requires reader.blockSize == st.blockSize && reader.fileMax == st.fileMax
    requires reader.head == st.head && reader.size == st.size && reader.blocks == st.blocks
    ensures Settled(reader.(disk := st.disk, free := st.free))
  {
  }

  lemma SliceMore(s: seq<Byte>, a: nat, b: nat, c: nat)
    requires a <= b <= c <= |s|
    ensures s[a..b] + s[b..c] == s[a..c]
  {
  }

  // ----- writes beyond the end -----

  /** Where a write starts. */
  function WriteStart(st: State): (p: nat) {
    if st.append && st.pos < st.size then st.size else st.pos
  }

  /** Contents after a write of `data` at position p, possibly beyond the end,
      that got as far as position `upTo`. */
  function WrittenUpTo(s: seq<Byte>, p: nat, data: seq<Byte>, upTo: nat): (r: seq<Byte>) {
    if upTo < p then ZeroFill(s, upTo)
    else Overwrite(ZeroFill(s, p), p, if upTo - p <= |data| then data[..upTo - p] else data)
  }

  lemma ZeroFillMore(s: seq<Byte>, n: nat)
    requires |s| <= n
    ensures Overwrite(ZeroFill(s, n), n, [0]) == ZeroFill(s, n + 1)
  {
  }

  lemma ZeroFillSelf(s: seq<Byte>)
    ensures ZeroFill(s, |s|) == s && forall p :: 0 <= p <= |s| ==> ZeroFill(s, p) == s
  {
  }

  /** One more zero behind the end. */
  lemma ZeroStep(st0: State, c: seq<Byte>, before: State, st: State, done: nat)
    requires Settled(before) && Wrote(before, st, [0], done)
    requires |c| <= before.pos && Contents(before) == ZeroFill(c, before.pos) && Kept(st0, before)
    ensures Settled(st) && Kept(st0, st) && st.pos == before.pos + done
    ensures Contents(st) == ZeroFill(c, st.pos)
  {
    KeptTransitive(st0, before, st);
    if done == 0 {
      OverwriteNothing(Contents(before), before.pos);
      assert [0 as Byte][..0] == [];
    } else {
      ZeroFillMore(c, before.pos);
      assert [0 as Byte][..1] == [0];
    }
  }

  lemma KeptReflexive(st: State)
    ensures Kept(st, st)
  {
  }

  lemma StartingWrite(st: State)
    requires Settled(st)
    ensures var next := st.(reading := false, pos := WriteStart(st));
      Settled(next) && Contents(next) == Contents(st) && WriteStart(next) == next.pos && Kept(st, next)
  {
  }

  lemma Started(st: State)
    requires Settled(st) && !st.reading && WriteStart(st) == st.pos && (st.writing || st.pos <= st.size)
    ensures CanWrite(st) && Kept(st, st) && st.pos <= |Contents(st)|
  {
  }

  lemma WroteUpTo(st0: State, middle: State, st: State, p: nat, data: seq<Byte>, done: nat)
    requires Settled(st0) && Kept(st0, middle) && Wrote(middle, st, data, done) && middle.pos == p
    requires Contents(middle) == ZeroFill(Contents(st0), p)
    ensures Kept(st0, st) && st.pos == p + done
    ensures Contents(st) == WrittenUpTo(Contents(st0), p, data, st.pos)
  {
    KeptTransitive(st0, middle, st);
  }

  /** Writing everything: the bytes replace what was at their positions, behind
      as many zeros as the file was too short. */
  lemma WrittenCompletely(s: seq<Byte>, p: nat, data: seq<Byte>)
    ensures WrittenUpTo(s, p, data, p + |data|) == Overwrite(ZeroFill(s, p), p, data)
    ensures var r := WrittenUpTo(s, p, data, p + |data|);
      |r| == Max(|ZeroFill(s, p)|, p + |data|) && forall i :: 0 <= i < |r| ==>
        r[i] == if p <= i < p + |data| then data[i - p] else if i < |s| then s[i] else 0
  {
    assert data[..|data|] == data;
  }

  // ----- seeking -----

  datatype Whence = Set | Cur | End

  /** The target of a seek, or nothing when it is out of range. */
  function SeekTarget(st: State, offset: int, whence: Whence): (r: Outcome<nat>) {
    var npos := match whence
      case Set => offset
      case Cur => st.pos + offset
      case End => (if st.writing then Max(st.pos, st.size) else st.size) + offset;
    if npos < 0 || npos > st.fileMax then Err(Invalid) else Ok(npos)
  }

  /** The seek stays inside the cached part of the block that `pos` is in. */
  predicate CachedSeek(st: State, npos: nat)
    requires st.blockSize > 8
  {
    !st.writing && BlockFormula(st.blockSize, st.pos) == BlockFormula(st.blockSize, npos) &&
    st.cacheOff <= OffsetFormula(st.blockSize, npos) < st.cacheOff + st.cacheSize
  }

  ghost function FastSeek(st: State, npos: nat): State
    requires st.blockSize > 8 && CachedSeek(st, npos)
  {
    st.(pos := npos, off := OffsetFormula(st.blockSize, npos))
  }

  ghost predicate DistinctBlocks(blocks: seq<nat>) {
    forall i, j :: 0 <= i < j < |blocks| ==> blocks[i] != blocks[j]
  }

  /** The shortcut goes wrong when the last read ended exactly at the end of a
      block: `block` is then still the block before the one `pos` is in. */
  predicate StaleBlock(st: State) {
    st.reading && st.off == st.blockSize
  }

  /** The seeks that go wrong. */
  predicate GoesStale(st: State, npos: nat)
    requires st.blockSize > 8
  {
    npos != st.pos && CachedSeek(st, npos) && StaleBlock(st)
  }

  /** The shortcut of `lfs_file_rawseek` leaves the file able to read on, if and
      only if the last read did not end exactly at the end of a block. */
  lemma CachedSeekExact(st: State, npos: nat)
    requires Settled(st) && npos <= st.fileMax && CachedSeek(st, npos)
    ensures !StaleBlock(st) ==> Settled(FastSeek(st, npos))
    ensures StaleBlock(st) && DistinctBlocks(st.blocks) ==> !Settled(FastSeek(st, npos))
  {
    ExactFromBlockSize112(st.blockSize, st.pos);
    ExactFromBlockSize112(st.blockSize, npos);
    var i, noff := BlockFormula(st.blockSize, npos), OffsetFormula(st.blockSize, npos);
    if StaleBlock(st) && DistinctBlocks(st.blocks) {
      var j :| 0 <= j < |st.blocks| && st.block == st.blocks[j] && st.pos == DataStart(st.blockSize, j + 1);
      StartsNextBlock(st, j, i, OffsetFormula(st.blockSize, st.pos));
      forall k | 0 <= k < |st.blocks| && LocatedAt(st.blockSize, npos, k, noff) ensures st.block != st.blocks[k] {
        OnePlace(st.blockSize, npos, k, noff, i, noff);
      }
    } else if st.reading && !StaleBlock(st) {
      var k :| 0 <= k < |st.blocks| && st.block == st.blocks[k] && LocatedAt(st.blockSize, st.pos, k, st.off);
      OnePlace(st.blockSize, st.pos, k, st.off, i, OffsetFormula(st.blockSize, st.pos));
      assert LocatedAt(st.blockSize, npos, k, noff);
    }
  }

  lemma OnePlace(blockSize: nat, pos: nat, k: nat, offK: nat, i: nat, offI: nat)
    requires blockSize >= 112 && k < Pow2(25) && i < Pow2(25)
    requires LocatedAt(blockSize, pos, k, offK) && LocatedAt(blockSize, pos, i, offI)
    ensures k == i
  {
    forall m: nat | m < Pow2(25) ensures PointerBytes(m) < blockSize {
      PointersFit(blockSize, m);
    }
    PlaceIsUnique(blockSize, pos, k, offK, i, offI);
  }

  /** The start of block j + 1 is in block j + 1. */
  lemma StartsNextBlock(st: State, j: nat, i: nat, off: nat)
    requires Settled(st) && j < |st.blocks| && st.pos == DataStart(st.blockSize, j + 1)
    requires i < Pow2(25) - 1 && LocatedAt(st.blockSize, st.pos, i, off)
    ensures i == j + 1
  {
    if j + 1 < Pow2(25) {
      NextPlace(st.blockSize, st.pos, j + 1, i, off);
    }
  }

  /** The byte with which block j starts is in block j. */
  lemma NextPlace(blockSize: nat, pos: nat, j: nat, i: nat, off: nat)
    requires 112 <= blockSize && j < Pow2(25) && i < Pow2(25) - 1 && pos == DataStart(blockSize, j)
    requires LocatedAt(blockSize, pos, i, off)
    ensures i == j
  {
    hide Pow2, LocatedAt;
    PointersFit(blockSize, j);
    PlaceByInterval(blockSize, pos, j, i, off);
  }

  /** A file of two blocks, behind those of the superblock, read up to the end of the
      first one: the block holds zeros, the second block ones. */
  ghost function StaleExample(): State {
    State(112, FILE_MAX, false,
      map[2 := seq(112, _ => 0), 3 := [2, 0, 0, 0] + seq(108, _ => 1)], {},
      3, 200, 112, 2, 112, true, false, false, false, 0, 112, [2, 3], [])
  }

  /** Such files exist, and after the shortcut the next read would take a byte of
      the wrong block: a zero, where the file has a one. */
  lemma StaleSeekReadsWrongByte()
    ensures var st := StaleExample();
      Settled(st) && DistinctBlocks(st.blocks) && CachedSeek(st, 162) && StaleBlock(st) &&
      var next := FastSeek(st, 162);
      next.off < next.blockSize && next.disk[next.block][next.off] == 0 && Contents(st)[162] == 1
  {
    var st := StaleExample();
    StaleExampleSettled();
    PlaceInExample(112, 4);
    PlaceInExample(162, 54);
    PayloadAt(st.disk, 112, st.blocks, 162, 1, 54);
  }

  lemma PlaceInExample(pos: nat, off: nat)
    requires 4 <= off < 112 && pos == 108 + off
    ensures LocatedAt(112, pos, 1, off)
    ensures BlockFormula(112, pos) == 1 && OffsetFormula(112, pos) == off
  {
    assert Ctz(1) == 0;
    assert DataStart(112, 0) == 0;
    assert LocatedAt(112, pos, 1, off);
    assert Popc(1) == 1;
    FormulaCorrects(112, pos, 1, off);
  }

  lemma StaleExampleSettled()
    ensures Settled(StaleExample()) && StaleBlock(StaleExample())
  {
    var st := StaleExample();
    Pow2Values();
    assert Ctz(1) == 0 && Pow2(0) == 1;
    assert IsBlock(st.disk, 112, 2) && IsBlock(st.disk, 112, 3);
    assert PointsBack(st.disk[3], st.blocks, 1, 0);
    assert PointersAt(st.disk, 112, st.blocks, 1);
    assert DataStart(112, 0) == 0 && DataStart(112, 1) == 112 && DataStart(112, 2) == 220;
    assert st.block == st.blocks[0] && st.pos == DataStart(112, 0 + 1);
  }

  // ----- the file object -----

  /** An open file together with the device it lives on. */
  class Handle {
    var st: State

    constructor (st: State)
      ensures this.st == st
    {
      this.st := st;
    }

    // ----- writing -----

    /** The part of `lfs_file_flushedwrite` that finds a block with room for the
        byte at `pos`: a copy of the block before it, or a new one behind it. */
    method StartBlock() returns (r: Outcome<()>)
      requires CanWrite(st) && st.pos < st.fileMax
      modifies this
      ensures Quiet(old(st), st)
      ensures r.Ok? ==> st.writing && st.off < st.blockSize && st.erred == old(st.erred)
      ensures r.Err? ==> st.erred && st.free == {} && st.writing == old(st.writing)
      ensures r.Err? && st.writing ==> st.front == old(st.front) && st.off == old(st.off)
    {
      WriteFacts(st);
      if st.writing && st.off != st.blockSize {
        return Ok(());
      }
      ghost var chain;
      if st.writing {
        chain := st.front + [st.block];
        BlockFull(st);
      } else {
        var block, off;
        block, off, chain := FindBefore(st.disk, st.blockSize, st.head, st.size, st.pos, st.block, st.off, st);
        st := st.(block := block, off := off, cacheOff := 0, cacheSize := 0);
      }
      if st.free == {} {
        Erring(st);
        QuietTransitive(old(st), st, st.(erred := true));
        st := st.(erred := true);
        return Err(NoSpace);
      }
      var nblock :| nblock in st.free;
      var disk', off' := ExtendInto(st.disk, st.blockSize, st.block, st.pos, nblock, st, chain);
      ghost var next := Grown(st, disk', nblock, off', chain);
      QuietTransitive(old(st), st, next);
      st := st.(disk := disk', free := st.free - {nblock}, block := nblock, off := off', writing := true,
        front := FrontOf(st.blockSize, st.pos, chain));
      return Ok(());
    }

    /** `lfs_file_flushedwrite` for a file stored in blocks. On an error the
        first `done` bytes have been written. */
    method FlushedWrite(data: seq<Byte>) returns (done: nat)
      requires Settled(st) && CanWrite(st) && st.pos + |data| <= st.fileMax
      modifies this
      ensures Wrote(old(st), st, data, done)
      ensures st.erred == (old(st.erred) || done < |data|) && (done < |data| ==> st.free == {})
    {
      done := 0;
      ghost var st0 := st;
      WroteNothing(st, data);
      while done < |data|
        invariant Wrote(st0, st, data, done) && st.erred == st0.erred
      {
        WroteFacts(st0, st, data, done);
        var next := WriteChunk(data, done, st0);
        if next == done {
          return;
        }
        done := next;
      }
    }

    /** One round of the loop: a new block if needed, then as much as fits, or
        nothing on an error. */
    method WriteChunk(data: seq<Byte>, done: nat, ghost st0: State) returns (next: nat)
      requires Wrote(st0, st, data, done) && done < |data| && st0.pos + |data| <= st0.fileMax
      modifies this
      ensures done <= next && Wrote(st0, st, data, next)
      ensures st.erred == (old(st.erred) || next == done) && (next == done ==> st.free == {})
    {
      ghost var cur := st;
      WroteFacts(st0, cur, data, done);
      var started := StartBlock();
      if started.Err? {
        WroteStill(st0, cur, st, data, done);
        return done;
      }
      next := ProgramNext(data, done, st0, cur);
    }

    /** Programs as much as fits into the block being written. */
    method ProgramNext(data: seq<Byte>, done: nat, ghost st0: State, ghost cur: State) returns (next: nat)
      requires Wrote(st0, cur, data, done) && done < |data| && st0.pos + |data| <= st0.fileMax
      requires Quiet(cur, st) && st.writing && st.off < st.blockSize
      modifies this
      ensures done < next && Wrote(st0, st, data, next) && st.erred == old(st.erred)
    {
      var diff := Min(|data| - done, st.blockSize - st.off);
      next := done + diff;
      WriteMore(st0, cur, st, data, done, next);
      Program(data[done..next]);
    }

    /** `lfs_bd_prog` into the block being written. */
    method Program(chunk: seq<Byte>)
      requires st.block in st.disk && st.off + |chunk| <= |st.disk[st.block]|
      modifies this
      ensures st == Programmed(old(st), chunk)
    {
      st := st.(disk := st.disk[st.block := Patch(st.disk[st.block], st.off, chunk)],
        pos := st.pos + |chunk|, off := st.off + |chunk|);
    }

    // ----- reading -----

    /** `lfs_file_flushedread` for a file stored in blocks. */
    method FlushedRead(count: nat) returns (data: seq<Byte>)
      requires Settled(st) && !st.writing && st.size <= st.fileMax
      modifies this
      ensures OnlyMoved(old(st), st) && st.pos == old(st.pos) + |data|
      ensures |data| == if st.size <= old(st.pos) then 0 else Min(count, st.size - old(st.pos))
      ensures st.pos <= st.size || data == []
      ensures data != [] ==> data == Stored(old(st))[old(st.pos)..st.pos]
    {
      hide FreeBlocks, WritePlace, ReadPlace;
      ghost var st0 := st;
      data := [];
      if st.pos >= st.size {
        return;
      }
      var end := Min(st.pos + count, st.size);
      while st.pos < end
        invariant OnlyMoved(st0, st) && st0.pos <= st.pos <= end && |data| == st.pos - st0.pos
        invariant data == Stored(st0)[st0.pos..st.pos]
        decreases end - st.pos
      {
        var chunk := ReadChunk(end);
        SliceMore(Stored(st0), st0.pos, st.pos - |chunk|, st.pos);
        data := data + chunk;
      }
    }

    /** One round of the loop: looks up the place if needed, then reads as much
        of the block as is wanted. */
    method ReadChunk(end: nat) returns (chunk: seq<Byte>)
      requires Settled(st) && !st.writing && st.pos < end <= st.size <= st.fileMax
      modifies this
      ensures OnlyMoved(old(st), st) && old(st.pos) < st.pos <= end && |chunk| == st.pos - old(st.pos)
      ensures chunk == Stored(old(st))[old(st.pos)..st.pos]
    {
      hide FreeBlocks, Flushed, WritePlace, ReadPlace, LocatedAt;
      ghost var index := Position();
      ghost var at := st;
      var diff := Min(end - st.pos, st.blockSize - st.off);
      ReadStep(st, index, diff);
      chunk := st.disk[st.block][st.off..st.off + diff];
      var cacheOff: nat := *;
      var cacheSize: nat := *;
      ReadOnSettled(st, index, diff, cacheOff, cacheSize);
      st := st.(pos := st.pos + diff, off := st.off + diff, reading := true, cacheOff := cacheOff,
        cacheSize := cacheSize);
    }

    /** The look-up at the start of a read and at the end of a block. */
    method Position() returns (ghost index: nat)
      requires Settled(st) && !st.writing && st.pos < st.size
      modifies this
      ensures AtByte(st, index) && st.off < st.blockSize
      ensures st == old(st).(block := st.block, off := st.off, reading := true)
    {
      if !st.reading || st.off == st.blockSize {
        ghost var hops;
        var block, off;
        block, off, index, hops := Find(st.disk, st.blockSize, st.head, st.size, st.pos, st.blocks);
        st := st.(block := block, off := off, reading := true);
      } else {
        index :| 0 <= index < |st.blocks| && st.block == st.blocks[index] &&
          LocatedAt(st.blockSize, st.pos, index, st.off);
      }
    }

    // ----- flushing -----

    /** `lfs_file_flush` for a file stored in blocks. */
    method Flush() returns (r: Outcome<()>)
      requires Settled(st)
      modifies this
      ensures Settled(st) && Contents(st) == Contents(old(st)) && !st.reading
      ensures Kept(old(st), st) && NoneWasted(old(st), st) && SameFile(old(st), st)
      ensures r.Ok? ==> !st.writing && st.pos == old(st.pos) && st.erred == old(st.erred)
      ensures r.Ok? && !old(st.writing) ==> st == old(st).(reading := false)
      ensures r.Ok? && old(st.writing) ==> st.dirty
      ensures r.Err? ==> r.error == NoSpace && st.erred && st.free == {} && old(st.writing)
    {
      if st.reading {
        st := st.(reading := false);
      }
      if st.writing {
        var pos := st.pos;
        var copied := CopyRest();
        if !copied {
          return Err(NoSpace);
        }
        FlushStep(st, pos);
        st := st.(head := st.block, size := st.pos, blocks := st.front + [st.block], front := [],
          writing := false, dirty := true, pos := pos);
      }
      return Ok(());
    }

    /** Copies over anything after the bytes written so far. */
    method CopyRest() returns (copied: bool)
      requires Settled(st) && st.writing && st.size <= st.fileMax
      modifies this
      ensures Quiet0(old(st), st) && Settled(st) && st.writing
      ensures copied ==> st.pos == Max(old(st.pos), st.size) && st.erred == old(st.erred)
      ensures !copied ==> st.erred && st.free == {}
    {
      ghost var st0 := st;
      var reader := new Handle(st.(writing := false, reading := false));
      while st.pos < st.size
        invariant fresh(reader) && Copying(st0, st, reader.st) && st.erred == st0.erred
        decreases st.size - st.pos
      {
        var one := CopyOne(reader, st0);
        if !one {
          return false;
        }
      }
      return true;
    }

    /** One round of the loop: reads a byte of the stored version and writes it. */
    method CopyOne(reader: Handle, ghost st0: State) returns (copied: bool)
      requires reader != this && Copying(st0, st, reader.st) && st.pos < st.size <= st.fileMax
      modifies this, reader
      ensures Quiet0(st0, st) && Settled(st) && st.writing
      ensures copied ==> Copying(st0, st, reader.st) && st.pos == old(st.pos) + 1 && st.erred == old(st.erred)
      ensures !copied ==> st.erred && st.free == {}
    {
      ghost var before := st;
      var data := reader.FlushedRead(1);
      var done := FlushedWrite(data);
      CopyByte(st0, before, st, data, done);
      if done < 1 {
        return false;
      }
      ReaderFollows(reader.st, st);
      reader.st := reader.st.(disk := st.disk, free := st.free);
      return true;
    }

    // ----- the operations of the interface -----

    /** `lfs_file_rawread`. */
    method Read(count: nat) returns (r: Outcome<seq<Byte>>)
      requires Settled(st)
      modifies this
      ensures Settled(st) && Contents(st) == Contents(old(st)) && Kept(old(st), st) && SameFile(old(st), st)
      ensures NoneWasted(old(st), st)
      ensures r.Ok? ==> |r.value| == if |Contents(old(st))| <= old(st.pos) then 0
        else Min(count, |Contents(old(st))| - old(st.pos))
      ensures r.Ok? ==> st.pos == old(st.pos) + |r.value|
      ensures r.Ok? && r.value != [] ==> r.value == Contents(old(st))[old(st.pos)..st.pos]
      ensures r.Err? ==> r.error == NoSpace && st.erred && st.free == {} && old(st.writing)
    {
      if st.writing {
        var flushed := Flush();
        if flushed.Err? {
          return Err(flushed.error);
        }
      }
      var data := FlushedRead(count);
      return Ok(data);
    }

    /** `lfs_file_rawwrite`. What an error leaves behind is what was written up
        to `pos`. */
    method Write(data: seq<Byte>) returns (r: Outcome<nat>)
      requires Settled(st)
      modifies this
      ensures Settled(st) && Kept(old(st), st) && NoneLost(old(st), st) && SameFile(old(st), st)
      ensures r == Err(FileTooBig) <==> WriteStart(old(st)) + |data| > st.fileMax
      ensures r == Err(FileTooBig) ==> Contents(st) == Contents(old(st)) && st.pos == WriteStart(old(st))
      ensures r != Err(FileTooBig) ==>
        Contents(st) == WrittenUpTo(Contents(old(st)), WriteStart(old(st)), data, st.pos)
      ensures r.Ok? ==> r.value == |data| && st.pos == WriteStart(old(st)) + |data| && !st.erred
      ensures r.Err? ==> r.error == FileTooBig || (r.error == NoSpace && st.erred && st.free == {})
      ensures r == Err(NoSpace) ==> st.pos < WriteStart(old(st)) + |data|
    {
      st := st.(reading := false, pos := WriteStart(st));
      StartingWrite(old(st));
      if st.pos + |data| > st.fileMax {
        return Err(FileTooBig);
      }
      r := WriteFrom(data);
    }

    method WriteFrom(data: seq<Byte>) returns (r: Outcome<nat>)
      requires Settled(st) && !st.reading && st.size <= st.fileMax && WriteStart(st) == st.pos
      requires st.pos + |data| <= st.fileMax
      modifies this
      ensures Settled(st) && Kept(old(st), st) && NoneLost(old(st), st) && SameFile(old(st), st)
      ensures Contents(st) == WrittenUpTo(Contents(old(st)), old(st.pos), data, st.pos)
      ensures if r.Ok? then r.value == |data| && st.pos == old(st.pos) + |data| && !st.erred
        else r.error == NoSpace && st.erred && st.free == {} && st.pos < old(st.pos) + |data|
    {
      ghost var st0 := st;
      var p := st.pos;
      ZeroFillSelf(Contents(st0));
      if !st.writing && st.pos > st.size {
        var filled := FillTo(p);
        if !filled {
          return Err(NoSpace);
        }
      } else {
        Started(st0);
      }
      ghost var middle := st;
      var done := FlushedWrite(data);
      WroteUpTo(st0, middle, st, p, data, done);
      if done < |data| {
        return Err(NoSpace);
      }
      st := st.(erred := false);
      return Ok(done);
    }

    /** Fills with zeros from the end of the file to position p. */
    method FillTo(p: nat) returns (filled: bool)
      requires Settled(st) && !st.reading && !st.writing && st.size < p <= st.fileMax
      modifies this
      ensures Settled(st) && CanWrite(st) && Kept(old(st), st) && NoneLost(old(st), st) && SameFile(old(st), st)
      ensures Contents(st) == ZeroFill(Contents(old(st)), st.pos) && st.size <= st.pos <= p
      ensures if filled then st.pos == p else st.pos < p && st.erred && st.free == {}
    {
      ghost var st0 := st;
      st := st.(pos := st.size);
      ZeroFillSelf(Contents(st));
      filled := true;
      while st.pos < p
        invariant Settled(st) && CanWrite(st) && Kept(st0, st) && NoneLost(st0, st) && SameFile(st0, st)
        invariant st0.size <= st.pos <= p && Contents(st) == ZeroFill(Contents(st0), st.pos) && st.size == st0.size
        decreases p - st.pos
      {
        ghost var before := st;
        var done := FlushedWrite([0]);
        ZeroStep(st0, Contents(st0), before, st, done);
        if done < 1 {
          return false;
        }
      }
    }

    /** The shortcut of `lfs_file_rawseek`. */
    method SeekInCache(npos: nat) returns (hit: bool)
      requires Settled(st) && !st.writing && npos <= st.fileMax
      modifies this
      ensures hit <==> CachedSeek(old(st), npos)
      ensures st == if hit then FastSeek(old(st), npos) else old(st)
      ensures hit && !StaleBlock(old(st)) ==> Settled(st)
      ensures hit && StaleBlock(old(st)) && DistinctBlocks(st.blocks) ==> !Settled(st)
    {
      var oindex, ooff := Index(st.blockSize, st.pos);
      var nindex, noff := Index(st.blockSize, npos);
      if oindex == nindex && st.cacheOff <= noff < st.cacheOff + st.cacheSize {
        CachedSeekExact(st, npos);
        st := st.(pos := npos, off := noff);
        return true;
      }
      return false;
    }

    /** `lfs_file_rawseek`. */
    method Seek(offset: int, whence: Whence) returns (r: Outcome<nat>)
      requires Settled(st)
      modifies this
      ensures SeekTarget(old(st), offset, whence).Err? ==> r == Err(Invalid) && st == old(st)
      ensures SeekTarget(old(st), offset, whence).Ok? ==> r == SeekTarget(old(st), offset, whence) || r == Err(NoSpace)
      ensures r.Ok? ==> st.pos == r.value && (!GoesStale(old(st), r.value) ==> Settled(st))
      ensures r.Ok? && GoesStale(old(st), r.value) && DistinctBlocks(st.blocks) ==> !Settled(st)
      ensures r == Err(NoSpace) ==> Settled(st) && st.erred && st.free == {} && old(st.writing)
      ensures SameFile(old(st), st) && (Settled(st) ==> Contents(st) == Contents(old(st)) && Kept(old(st), st))
      ensures NoneWasted(old(st), st)
    {
      hide Kept, GoesStale, Flushed, WritePlace, ReadPlace, FreeBlocks, Contents, DistinctBlocks;
      var npos: int;
      match whence {
        case Set => npos := offset;
        case Cur => npos := st.pos + offset;
        case End => npos := (if st.writing then Max(st.pos, st.size) else st.size) + offset;
      }
      if npos < 0 || npos > st.fileMax {
        KeptReflexive(st);
        return Err(Invalid);
      }
      r := SeekTo(npos);
    }

    method SeekTo(npos: nat) returns (r: Outcome<nat>)
      requires Settled(st) && npos <= st.fileMax
      modifies this
      ensures r == Ok(npos) || r == Err(NoSpace)
      ensures r.Ok? ==> st.pos == npos && (!GoesStale(old(st), npos) ==> Settled(st))
      ensures r.Ok? && GoesStale(old(st), npos) && DistinctBlocks(st.blocks) ==> !Settled(st)
      ensures r.Err? ==> Settled(st) && st.erred && st.free == {} && old(st.writing)
      ensures SameFile(old(st), st) && (Settled(st) ==> Contents(st) == Contents(old(st)) && Kept(old(st), st))
      ensures NoneWasted(old(st), st)
    {
      if st.pos == npos {
        KeptReflexive(st);
        return Ok(npos);
      }
      if !st.writing {
        var hit := SeekInCache(npos);
        if hit {
          return Ok(npos);
        }
      }
      r := FlushAndMove(npos);
    }

    method FlushAndMove(npos: nat) returns (r: Outcome<nat>)
      requires Settled(st) && npos <= st.fileMax
      modifies this
      ensures r == Ok(npos) || r == Err(NoSpace)
      ensures Settled(st) && Contents(st) == Contents(old(st)) && Kept(old(st), st) && SameFile(old(st), st)
      ensures NoneWasted(old(st), st)
      ensures if r.Ok? then st.pos == npos else st.erred && st.free == {} && old(st.writing)
    {
      var flushed := Flush();
      if flushed.Err? {
        return Err(NoSpace);
      }
      st := st.(pos := npos);
      return Ok(npos);
    }

    /** The operations of a run: each does what the specification says, unless there is
        no space or the seek is one that goes wrong. */
    method PerformRead(count: nat) returns (answer: Answer, ok: bool)
      requires Settled(st)
      modifies this
      ensures SameFile(old(st), st) && Settled(st) && Kept(old(st), st) && NoneWasted(old(st), st)
      ensures if ok then Does(old(st), TakeBytes(count), st, answer) else st.erred && st.free == {}
    {
      hide Kept, Flushed, FreeBlocks, ReadPlace, WritePlace;
      var r := Read(count);
      if r.Ok? {
        TakenAt(Contents(old(st)), old(st.pos), count, r.value);
        return Bytes(r.value), true;
      }
      return Refused(NoSpace), false;
    }

    method PerformWrite(data: seq<Byte>) returns (answer: Answer, ok: bool)
      requires Settled(st)
      modifies this
      ensures SameFile(old(st), st) && Settled(st) && Kept(old(st), st) && NoneWasted(old(st), st)
      ensures if ok then Does(old(st), PutBytes(data), st, answer) else st.erred && st.free == {}
    {
      hide Kept, Flushed, FreeBlocks, ReadPlace, Overwrite, ZeroFill, WrittenUpTo;
      StartsAt(st);
      var r := Write(data);
      if r == Err(FileTooBig) {
        return Refused(FileTooBig), true;
      }
      if r.Ok? {
        WrittenCompletely(Contents(old(st)), WriteStart(old(st)), data);
        return Count(r.value), true;
      }
      return Refused(NoSpace), false;
    }

    method PerformSeek(offset: int, whence: Whence) returns (answer: Answer, ok: bool)
      requires Settled(st)
      modifies this
      ensures SameFile(old(st), st) && (Settled(st) ==> Kept(old(st), st)) && NoneWasted(old(st), st)
      ensures if ok then Settled(st) && Does(old(st), Move(offset, whence), st, answer)
        else (st.erred && st.free == {}) || SeeksStale(old(st), Move(offset, whence))
    {
      hide Kept, Flushed, ReadPlace, WritePlace, Apart;
      var stale := SeeksStale(st, Move(offset, whence));
      KeptReflexive(st);
      var r := Seek(offset, whence);
      if r == Err(Invalid) {
        return Refused(Invalid), true;
      }
      if r.Ok? {
        return Count(r.value), !stale;
      }
      return Refused(NoSpace), false;
    }

    method PerformFlush() returns (answer: Answer, ok: bool)
      requires Settled(st)
      modifies this
      ensures SameFile(old(st), st) && Settled(st) && Kept(old(st), st) && NoneWasted(old(st), st)
      ensures if ok then Does(old(st), Settle, st, answer) else st.erred && st.free == {}
    {
      hide Kept, Flushed, FreeBlocks, ReadPlace, WritePlace;
      var r := Flush();
      if r.Ok? {
        return Count(0), true;
      }
      return Refused(NoSpace), false;
    }

    method Perform(op: Operation) returns (answer: Answer, ok: bool)
      requires Settled(st)
      modifies this
      ensures SameFile(old(st), st) && (Settled(st) ==> Kept(old(st), st)) && NoneWasted(old(st), st)
      ensures if ok then Settled(st) && Does(old(st), op, st, answer)
        else (st.erred && st.free == {}) || SeeksStale(old(st), op)
    {
      hide Kept, Valid, Does;
      match op {
        case TakeBytes(count) => answer, ok := PerformRead(count);
        case PutBytes(data) => answer, ok := PerformWrite(data);
        case Move(offset, whence) => answer, ok := PerformSeek(offset, whence);
        case Settle => answer, ok := PerformFlush();
      }
    }

    /** Any run of operations, up to one for which there is no space or a seek that goes
        wrong: what the user gets, and the file in the end, are those of the byte
        sequence. */
    method PerformAll(ops: seq<Operation>) returns (answers: seq<Answer>, ghost states: seq<State>)
      requires Settled(st)
      modifies this
      ensures |answers| <= |ops| && |states| == |answers| + 1 && states[0] == old(st) && Settled(states[|answers|])
      ensures (SpecOf(states[|answers|]), answers) == SpecRun(SpecOf(old(st)), st.fileMax, st.append, ops, |answers|)
      ensures forall k :: 0 <= k < |answers| ==> Kept(states[k], states[k + 1]) && NoneWasted(states[k], states[k + 1])
      ensures SameFile(old(st), st) && NoneWasted(states[|answers|], st)
      ensures if |answers| == |ops| then st == states[|ops|]
        else (st.erred && st.free == {}) || SeeksStale(states[|answers|], ops[|answers|])
    {
      hide Kept, Held, Valid, SpecStep, SpecOf, SeeksStale;
      answers, states := [], [st];
      while |answers| < |ops|
        invariant |answers| <= |ops| && |states| == |answers| + 1 && states[0] == old(st) && states[|answers|] == st
        invariant Settled(st) && SameFile(old(st), st)
        invariant (SpecOf(st), answers) == SpecRun(SpecOf(old(st)), st.fileMax, st.append, ops, |answers|)
        invariant forall k :: 0 <= k < |answers| ==>
                  Kept(states[k], states[k + 1]) && NoneWasted(states[k], states[k + 1])
        decreases |ops| - |answers|
      {
        var answer, ok := Perform(ops[|answers|]);
        if !ok {
          return;
        }
        answers, states := answers + [answer], states + [st];
      }
    }
  }

  // ----- runs -----

  datatype Operation = TakeBytes(count: nat) | PutBytes(data: seq<Byte>) | Move(offset: int, whence: Whence) | Settle

  datatype Answer = Bytes(data: seq<Byte>) | Count(n: nat) | Refused(error: Error)

  /** The specification of a file: a byte sequence and a position. */
  datatype Spec = Spec(bytes: seq<Byte>, pos: nat)

  function SpecStep(f: Spec, fileMax: nat, append: bool, op: Operation): (r: (Spec, Answer)) {
    match op
    case TakeBytes(count) =>
      var n := if f.pos >= |f.bytes| then 0 else Min(count, |f.bytes| - f.pos);
      (f.(pos := f.pos + n), Bytes(if n == 0 then [] else f.bytes[f.pos..f.pos + n]))
    case PutBytes(data) =>
      var start := if append && f.pos < |f.bytes| then |f.bytes| else f.pos;
      if start + |data| > fileMax then (f.(pos := start), Refused(FileTooBig))
      else (Spec(Overwrite(ZeroFill(f.bytes, start), start, data), start + |data|), Count(|data|))
    case Move(offset, whence) =>
      var npos := match whence
        case Set => offset
        case Cur => f.pos + offset
        case End => |f.bytes| + offset;
      if npos < 0 || npos > fileMax then (f, Refused(Invalid)) else (f.(pos := npos), Count(npos))
    case Settle => (f, Count(0))
  }

  /** The first k operations. */
  function SpecRun(f: Spec, fileMax: nat, append: bool, ops: seq<Operation>, k: nat): (r: (Spec, seq<Answer>))
    requires k <= |ops|
  {
    if k == 0 then (f, [])
    else
      var before := SpecRun(f, fileMax, append, ops, k - 1);
      var step := SpecStep(before.0, fileMax, append, ops[k - 1]);
      (step.0, before.1 + [step.1])
  }

  ghost function SpecOf(st: State): Spec
    requires Valid(st)
  {
    Spec(Contents(st), st.pos)
  }

  /** The operation did what the specification says. */
  ghost predicate Does(st: State, op: Operation, st': State, answer: Answer) {
    Valid(st) && Valid(st') && (SpecOf(st'), answer) == SpecStep(SpecOf(st), st.fileMax, st.append, op)
  }

  /** A seek that goes wrong. */
  predicate SeeksStale(st: State, op: Operation)
    requires st.blockSize > 8
  {
    op.Move? && var target := SeekTarget(st, op.offset, op.whence); target.Ok? && GoesStale(st, target.value)
  }

  /** A write starts at the position, or at the end of the contents. */
  lemma StartsAt(st: State)
    requires Valid(st)
    ensures WriteStart(st) == if st.append && st.pos < |Contents(st)| then |Contents(st)| else st.pos
  {
  }

  lemma TakenAt(s: seq<Byte>, p: nat, count: nat, data: seq<Byte>)
    requires |data| == if |s| <= p then 0 else Min(count, |s| - p)
    requires data != [] ==> data == s[p..p + |data|]
    ensures data == if |data| == 0 then [] else s[p..p + |data|]
  {
  }

  // ----- the synced version -----

  /** The blocks of a version on disk are neither free nor being written. */
  ghost predicate Protected(st: State, blocks: seq<nat>) {
    Apart(blocks, st.free) && (st.writing ==> st.block !in blocks)
  }

  /** The allocator has found other blocks to be free, none of the given version. */
  ghost predicate Refreshed(st: State, st': State, blocks: seq<nat>) {
    st' == st.(free := st'.free) && FreeBlocks(st') && Apart(blocks, st'.free)
  }

  /** A run of file operations, each of which keeps the blocks that are in use; in
      between blocks that are no longer used may become free again. */
  ghost predicate Run(states: seq<State>, blocks: seq<nat>) {
    forall i :: 0 <= i < |states| - 1 ==>
      (Kept(states[i], states[i + 1]) || Refreshed(states[i], states[i + 1], blocks))
  }

  /** Whatever run of operations follows a sync, the synced version stays on the
      disk byte for byte, as long as its blocks are in use. */
  lemma {:induction false} SyncedVersionSurvives(states: seq<State>, head: nat, size: nat, blocks: seq<nat>)
    requires Run(states, blocks) && states != [] && Protected(states[0], blocks)
    requires FileBlocks(states[0].disk, states[0].blockSize, head, size, blocks)
    ensures var last := states[|states| - 1];
      FileBlocks(last.disk, states[0].blockSize, head, size, blocks) && Protected(last, blocks) &&
      Content(last.disk, states[0].blockSize, head, size, blocks) ==
        Content(states[0].disk, states[0].blockSize, head, size, blocks)
  {
    if |states| > 1 {
      var before := states[..|states| - 1];
      SyncedVersionSurvives(before, head, size, blocks);
      var a, b := before[|before| - 1], states[|states| - 1];
      assert a == states[|states| - 2] && b == states[|states| - 2 + 1];
      assert Kept(a, b) || Refreshed(a, b, blocks);
      forall i | 0 <= i < |blocks|
        ensures blocks[i] in a.disk && blocks[i] in b.disk && b.disk[blocks[i]] == a.disk[blocks[i]]
      {
        assert IsBlock(a.disk, states[0].blockSize, blocks[i]);
      }
      FileFrame(a.disk, b.disk, states[0].blockSize, head, size, blocks);
    }
  }
}
