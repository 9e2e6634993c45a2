/** Losing power while a metadata pair is written: a fetch then finds the whole old
    directory or the whole new one. CRCs are idealised: bytes that were not written
    as a commit do not pass for one. */
module PairCrash {
  import opened Wrappers
  import opened Bits
  import opened Bytes
  import opened MetaLog
  import Search
  import opened CommitCodec
  import BlockCache
  import Traverse

  // ----- what a log says -----

  /** The last tag of global state. */
  function StateTo(log: seq<Entry>, k: nat): (state: Option<Entry>)
    requires k <= |log|
  {
    if k == 0 then None else if log[k - 1].tag.kind == Globals then Some(log[k - 1]) else StateTo(log, k - 1)
  }

  lemma {:induction false} StateIsLast(log: seq<Entry>, k: nat)
    requires k <= |log|
    ensures match StateTo(log, k)
      case None => forall i :: 0 <= i < k ==> log[i].tag.kind != Globals
      case Some(e) => exists i :: 0 <= i < k && log[i] == e && Search.LastOfKind(log, k, i, Globals)
  {
    if k > 0 {
      StateIsLast(log, k - 1);
      if log[k - 1].tag.kind == Globals {
        assert Search.LastOfKind(log, k, k - 1, Globals);
      } else if StateTo(log, k - 1).Some? {
        var i :| 0 <= i < k - 1 && log[i] == StateTo(log, k - 1).value && Search.LastOfKind(log, k - 1, i, Globals);
        assert Search.LastOfKind(log, k, i, Globals);
      }
    }
  }

  /** All that a log says: the entries, where the tail leads, and the stored part of the
      global state. */
  datatype Content = Content(dir: seq<Attrs>, tail: Option<Entry>, state: Option<Entry>)

  function ContentOf(log: seq<Entry>): Content {
    Content(Replay(log), Search.TailTo(log, |log|), StateTo(log, |log|))
  }

  lemma {:induction false} SaysAppend(log: seq<Entry>, more: seq<Entry>, k: nat)
    requires k <= |log|
    ensures Search.TailTo(log + more, k) == Search.TailTo(log, k) && StateTo(log + more, k) == StateTo(log, k)
  {
    if k > 0 {
      SaysAppend(log, more, k - 1);
    }
  }

  /** CRC tags mean nothing. */
  lemma {:induction false} CrcsMeanNothing(log: seq<Entry>, crcs: seq<Entry>)
    requires forall k :: 0 <= k < |crcs| ==> IsCrc(crcs[k].tag)
    ensures ContentOf(log + crcs) == ContentOf(log)
  {
    if crcs == [] {
      assert log + crcs == log;
    } else {
      var less := crcs[..|crcs| - 1];
      CrcsMeanNothing(log, less);
      assert log + crcs == (log + less) + [crcs[|crcs| - 1]];
      ReplayAppend(log + less, [crcs[|crcs| - 1]], |log + less|);
      SaysAppend(log + less, [crcs[|crcs| - 1]], |log + less|);
    }
  }

  // ----- a commit cut short -----

  /** A commit: entries and the CRC tags that end it. */
  datatype Commit = Commit(entries: seq<Entry>, crcs: seq<Entry>)

  ghost predicate IsCommit(c: Commit) {
    c.crcs != [] && forall k :: 0 <= k < |c.crcs| ==> IsCrc(c.crcs[k].tag)
  }

  function Whole(log: seq<Entry>, c: Commit): seq<Entry> {
    log + c.entries + c.crcs
  }

  /** The log with a commit of which the first j CRC tags are there. */
  function With(log: seq<Entry>, c: Commit, j: nat): seq<Entry>
    requires j <= |c.crcs|
  {
    if j == 0 then log else log + c.entries + c.crcs[..j]
  }

  /** The block after the commit differs from that before only between the end of the log
      and its own, where a scan stops. */
  ghost predicate Writes(was: seq<Byte>, now: seq<Byte>, log: seq<Entry>, c: Commit) {
    var whole := Whole(log, c);
    |now| == |was| && Layout(was, log) && Layout(now, whole) && Sealed(now, whole) &&
    OffAt(log, |log|) <= |was| && now[..OffAt(log, |log|)] == was[..OffAt(log, |log|)] &&
    OffAt(whole, |whole|) <= |was| && now[OffAt(whole, |whole|)..] == was[OffAt(whole, |whole|)..]
  }

  /** Where CRC tag j of the commit is, or the commit ends. */
  function CrcAt(log: seq<Entry>, c: Commit, j: nat): (off: nat)
    requires j <= |c.crcs|
  {
    OffAt(Whole(log, c), |log| + |c.entries| + j)
  }

  /** What is on disk when power is lost after m bytes: these are as after the commit,
      the others as before. */
  ghost predicate Cut(was: seq<Byte>, now: seq<Byte>, torn: seq<Byte>, m: nat) {
    |torn| == |now| == |was| && m <= |now| && torn[..m] == now[..m] && torn[m..] == was[m..]
  }

  /** How many CRC tags were complete. */
  function Done(log: seq<Entry>, c: Commit, m: nat, j: nat): (r: nat)
    requires j <= |c.crcs|
    ensures r <= j && (r > 0 ==> CrcAt(log, c, r - 1) + 8 <= m)
    ensures r == 0 && j > 0 ==> m < CrcAt(log, c, 0) + 8
  {
    if j == 0 then 0 else if CrcAt(log, c, j - 1) + 8 <= m then j else Done(log, c, m, j - 1)
  }

  lemma WithIsPrefix(log: seq<Entry>, c: Commit, j: nat)
    requires 0 < j <= |c.crcs| && ValidLog(Whole(log, c)) && IsCommit(c)
    ensures Whole(log, c) == With(log, c, j) + c.crcs[j..] && |With(log, c, j)| == |log| + |c.entries| + j
    ensures UsedEnd(With(log, c, j)) == CrcAt(log, c, j - 1) + 8
  {
    assert c.crcs == c.crcs[..j] + c.crcs[j..];
    assert Whole(log, c) == With(log, c, j) + c.crcs[j..];
    var n := |log| + |c.entries| + j - 1;
    OffPrefix(With(log, c, j), c.crcs[j..], n);
    assert Whole(log, c)[n] == c.crcs[j - 1] && ValidEntry(Whole(log, c)[n]);
  }

  /** What a block holds that was being written. */
  lemma CutLayout(was: seq<Byte>, now: seq<Byte>, torn: seq<Byte>, m: nat, log: seq<Entry>, c: Commit)
    requires Writes(was, now, log, c) && Cut(was, now, torn, m) && IsCommit(c)
    ensures Layout(torn, With(log, c, Done(log, c, m, |c.crcs|)))
  {
    hide Layout, OffAt, UsedEnd, CrcAt, ValidLog;
    LayoutValid(was, log);
    LayoutValid(now, Whole(log, c));
    var j := Done(log, c, m, |c.crcs|);
    if j == 0 {
      UsedAtMost(log);
      SameStart(was, now, UsedEnd(log), OffAt(log, |log|));
      CutStart(was, now, torn, m, UsedEnd(log));
      assert log + [] == log;
      LayoutPrefix(was, torn, log, []);
    } else {
      WithIsPrefix(log, c, j);
      assert torn[..UsedEnd(With(log, c, j))] == now[..UsedEnd(With(log, c, j))] by {
        SameStart(now, torn, UsedEnd(With(log, c, j)), m);
      }
      LayoutPrefix(now, torn, With(log, c, j), c.crcs[j..]);
    }
  }

  /** Bytes that the commit does not change are there wherever it is cut. */
  lemma CutStart(was: seq<Byte>, now: seq<Byte>, torn: seq<Byte>, m: nat, end: nat)
    requires Cut(was, now, torn, m) && end <= |was| && now[..end] == was[..end]
    ensures torn[..end] == was[..end]
  {
    forall i | 0 <= i < end ensures torn[i] == was[i] {
      assert now[i] == now[..end][i] == was[..end][i];
      CutByte(was, now, torn, m, i);
    }
  }

  lemma CutByte(was: seq<Byte>, now: seq<Byte>, torn: seq<Byte>, m: nat, i: nat)
    requires Cut(was, now, torn, m) && i < |torn|
    ensures torn[i] == if i < m then now[i] else was[i]
  {
    if i < m {
      assert torn[i] == torn[..m][i];
    } else {
      assert torn[i] == torn[m..][i - m];
    }
  }

  /** The idealised CRC: when the cut is inside the commit, no bytes behind the last
      complete part pass for another. */
  ghost predicate NoFluke(torn: seq<Byte>, log: seq<Entry>, c: Commit, m: nat)
    requires IsCommit(c)
  {
    OffAt(log, |log|) < m < CrcAt(log, c, |c.crcs| - 1) + 8 ==>
      var found := With(log, c, Done(log, c, m, |c.crcs|)); ValidLog(found) && Sealed(torn, found)
  }

  /** In front of the commit and behind it that is so. */
  lemma CutSealed(was: seq<Byte>, now: seq<Byte>, torn: seq<Byte>, m: nat, log: seq<Entry>, c: Commit)
    requires Writes(was, now, log, c) && Cut(was, now, torn, m) && IsCommit(c) && NoFluke(torn, log, c, m)
    requires ValidLog(log) && (m <= OffAt(log, |log|) ==> Sealed(was, log))
    ensures var found := With(log, c, Done(log, c, m, |c.crcs|)); ValidLog(found) && Sealed(torn, found)
  {
    hide Layout, OffAt, Sealed, CrcAt, ValidLog;
    if m >= CrcAt(log, c, |c.crcs| - 1) + 8 {
      var whole := Whole(log, c);
      AllDone(log, c, m);
      LayoutValid(now, whole);
      assert EndsCommit(whole);
      CutEnd(was, now, torn, m, OffAt(whole, |whole|));
      SealedStays(now, torn, whole);
    } else if m <= OffAt(log, |log|) {
      NoneDone(log, c, m);
      CutStart(was, now, torn, m, OffAt(log, |log|));
      NothingCut(was, now, torn, m, OffAt(log, |log|));
    }
  }

  lemma AllDone(log: seq<Entry>, c: Commit, m: nat)
    requires IsCommit(c) && m >= CrcAt(log, c, |c.crcs| - 1) + 8
    ensures With(log, c, Done(log, c, m, |c.crcs|)) == Whole(log, c)
  {
    assert c.crcs[..|c.crcs|] == c.crcs;
  }

  lemma NoneDone(log: seq<Entry>, c: Commit, m: nat)
    requires IsCommit(c) && m <= OffAt(log, |log|)
    ensures Done(log, c, m, |c.crcs|) == 0
  {
    var j := Done(log, c, m, |c.crcs|);
    if j > 0 {
      OffGrows(Whole(log, c), |log|, |log| + |c.entries| + j - 1);
      assert Whole(log, c) == log + (c.entries + c.crcs);
      OffPrefix(log, c.entries + c.crcs, |log|);
    }
  }

  /** Behind the end of the commit nothing changes wherever it is cut. */
  lemma CutEnd(was: seq<Byte>, now: seq<Byte>, torn: seq<Byte>, m: nat, end: nat)
    requires Cut(was, now, torn, m) && end <= |was| && now[end..] == was[end..]
    ensures torn[end..] == now[end..]
  {
    forall i | end <= i < |now| ensures torn[i] == now[i] {
      assert now[i] == now[end..][i - end] == was[end..][i - end];
      CutByte(was, now, torn, m, i);
    }
    assert forall i :: 0 <= i < |now| - end ==> torn[end..][i] == torn[end + i] && now[end..][i] == now[end + i];
  }

  lemma NothingCut(was: seq<Byte>, now: seq<Byte>, torn: seq<Byte>, m: nat, end: nat)
    requires Cut(was, now, torn, m) && m <= end <= |was| && torn[..end] == was[..end]
    ensures torn == was
  {
    forall i | 0 <= i < |was| ensures torn[i] == was[i] {
      assert i < end ==> torn[i] == torn[..end][i] == was[..end][i];
      CutByte(was, now, torn, m, i);
    }
  }

  /** Appending a commit is atomic: cut short anywhere, a fetch finds the log as it
      was, or with all entries of the commit, and the latter exactly from when the
      first CRC was written. Entries, tail and global state change together. */
  lemma AppendIsAtomic(was: seq<Byte>, now: seq<Byte>, torn: seq<Byte>, m: nat, log: seq<Entry>, c: Commit)
    requires Writes(was, now, log, c) && Cut(was, now, torn, m) && IsCommit(c) && EndsCommit(log)
    requires ValidLog(log) && Sealed(was, log) && NoFluke(torn, log, c, m)
    ensures FetchLog(torn).off > 0 && FetchLog(torn).log == With(log, c, Done(log, c, m, |c.crcs|))
    ensures Done(log, c, m, |c.crcs|) == 0 <==> m < CrcAt(log, c, 0) + 8
    ensures ContentOf(FetchLog(torn).log) == ContentOf(if m < CrcAt(log, c, 0) + 8 then log else log + c.entries)
  {
    hide Layout, Sealed, OffAt, ContentOf, CrcAt, NoFluke, Writes;
    var j := Done(log, c, m, |c.crcs|);
    CutLayout(was, now, torn, m, log, c);
    CutSealed(was, now, torn, m, log, c);
    if j > 0 {
      assert With(log, c, j)[|With(log, c, j)| - 1] == c.crcs[j - 1];
      CrcsMeanNothing(log + c.entries, c.crcs[..j]);
      CrcsInOrder(log, c, j - 1);
    }
    FetchFinds(torn, With(log, c, j));
  }

  lemma CrcsInOrder(log: seq<Entry>, c: Commit, j: nat)
    requires j <= |c.crcs|
    ensures CrcAt(log, c, 0) <= CrcAt(log, c, j)
  {
    OffGrows(Whole(log, c), |log| + |c.entries|, |log| + |c.entries| + j);
  }

  // ----- writing a commit -----

  /** The entries of a commit, as far as `end`. */
  method WriteEntries(w: Writer, entries: seq<Entry>, end: nat) returns (fits: bool)
    requires w.Valid() && w.pos == w.at.off <= end <= w.caches.dev.c.block_size
    requires ValidLog(entries) && forall k :: 0 <= k < |entries| ==> !IsCrc(entries[k].tag)
    modifies w, w.caches, w.caches.rbuf, w.caches.pbuf, w.caches.dev.buffer
    ensures w.Valid() && old(w.at.off) <= w.pos == w.at.off <= end
    ensures w.Block()[..old(w.at.off)] == old(w.Block()[..w.at.off])
    ensures |w.Block()| == |old(w.Block())| && w.at.off <= |w.Block()| &&
            w.Block()[w.at.off..] == old(w.Block())[w.at.off..]
    ensures fits ==> w.log == old(w.log) + entries
    ensures fits <==> old(w.at.off) + Traverse.SpaceOf(entries) <= end
  {
    hide IsAt, ValidEntry, w.Ready, w.Block, UsedEnd, Traverse.SpaceOf;
    Traverse.EmptySpace();
    var k := 0;
    ghost var block, start, log := w.Block(), w.at.off, w.log;
    assert entries[..0] == [] && log + [] == log;
    while k < |entries|
      invariant k <= |entries| && w.Valid() && start <= w.pos == w.at.off <= end && w.log == log + entries[..k]
      invariant |w.Block()| == |block| && w.Block()[..start] == block[..start]
      invariant w.at.off <= |block| && w.Block()[w.at.off..] == block[w.at.off..]
      invariant w.at.off == start + Traverse.SpaceOf(entries[..k])
    {
      ghost var off, now := w.at.off, w.Block();
      OneMoreSpace(entries, k);
      fits := w.Attr(entries[k], end);
      if !fits {
        SameStart(now, w.Block(), start, off);
        return;
      }
      SameStart(now, w.Block(), start, off);
      SameEnd(block, now, w.Block(), off, w.at.off);
      assert entries[..k + 1] == entries[..k] + [entries[k]];
      k := k + 1;
    }
    assert entries[..k] == entries;
    fits := true;
  }

  lemma OneMoreSpace(entries: seq<Entry>, k: nat)
    requires k < |entries|
    ensures Traverse.SpaceOf(entries[..k + 1]) == Traverse.SpaceOf(entries[..k]) + Traverse.Space(entries[k])
    ensures Traverse.SpaceOf(entries[..k + 1]) <= Traverse.SpaceOf(entries)
  {
    Traverse.SpaceAppend(entries[..k + 1], entries[k + 1..]);
    assert entries == entries[..k + 1] + entries[k + 1..];
    assert entries[..k + 1][..k] == entries[..k];
  }

  /** The commits of `lfs_dir_relocatingcommit` and `lfs_dir_compact`, as bytes on the
      device: the entries as far as `end`, and the CRC. */
  method WriteCommit(w: Writer, entries: seq<Entry>, end: nat) returns (fits: bool, ghost c: Commit)
    requires w.Valid() && w.pos == w.at.off <= end && end + 8 <= w.caches.dev.c.block_size
    requires ValidLog(entries) && forall k :: 0 <= k < |entries| ==> !IsCrc(entries[k].tag)
    modifies w, w.caches, w.caches.rbuf, w.caches.pbuf, w.caches.dev.buffer
    ensures w.Valid() && (fits <==> old(w.at.off) + Traverse.SpaceOf(entries) <= end)
    ensures fits ==> c.entries == entries && IsCommit(c) && w.log == Whole(old(w.log), c)
    ensures fits ==> w.Block() == w.caches.dev.Block(w.b) && Sealed(w.Block(), w.log)
    ensures fits ==> Writes(old(w.Block()), w.Block(), old(w.log), c)
  {
    hide IsAt, Sealed, AlignUp, ValidEntry, OffAt, Whole, w.Ready, w.Block, UsedEnd, Layout;
    ghost var was, log0, at0 := w.Block(), w.log, w.at;
    AtEnd(was, log0, at0);
    IsLaidOut(was, log0, at0);
    fits := WriteEntries(w, entries, end);
    if !fits {
      return false, Commit([], []);
    }
    ghost var mid, log1, off := w.Block(), w.log, w.at.off;
    CommitFits(w);
    var _ := w.Finish();
    IsLaidOut(w.Block(), w.log, w.at);
    c := Commit(entries, w.log[|log1|..]);
    WholeLog(w.log, log0, c);
    SameStart(mid, w.Block(), at0.off, off);
    SameEnd(was, mid, w.Block(), off, w.at.off);
    AtEnd(w.Block(), w.log, w.at);
  }

  lemma CommitFits(w: Writer)
    requires w.Valid() && w.at.off + 8 <= w.caches.dev.c.block_size
    ensures w.caches.dev.c.prog_size > 0
    ensures AlignUp(w.at.off + 8, w.caches.dev.c.prog_size) <= w.caches.dev.c.block_size
  {
    hide IsAt, AlignUp, BlockCache.Multiple, BlockCache.SameFrom, UsedEnd;
    var c := w.caches.dev.c;
    BlockCache.MultipleOf(c.block_size, c.cache_size, c.prog_size);
    BlockCache.AlignUpStays(w.at.off + 8, c.prog_size, c.block_size);
  }

  lemma SameEnd(block: seq<Byte>, now: seq<Byte>, now': seq<Byte>, off: nat, end: nat)
    requires |now| == |block| == |now'| && off <= end <= |block|
    requires now[off..] == block[off..] && now'[end..] == now[end..]
    ensures now'[end..] == block[end..]
  {
    assert now[end..] == now[off..][end - off..] == block[off..][end - off..] == block[end..];
  }

  lemma WholeLog(log: seq<Entry>, log0: seq<Entry>, c: Commit)
    requires |log0| + |c.entries| <= |log| && log[..|log0| + |c.entries|] == log0 + c.entries
    requires c.crcs == log[|log0| + |c.entries|..]
    ensures log == Whole(log0, c)
  {
    assert log == log[..|log0| + |c.entries|] + log[|log0| + |c.entries|..];
  }

  // ----- both blocks of a pair -----

  function RevOf(block: seq<Byte>): (rev: nat)
    requires |block| >= 4
    ensures rev < WORD
  {
    WordAt(block, 0)
  }

  /** The log of a pair, and whether it is in the second block; or LFS_ERR_CORRUPT. */
  datatype Found = Corrupt | In(second: bool, fetched: Fetched)

  /** `lfs_dir_fetchmatch`: the block with the newer revision, or else the other. */
  method FetchPair(b0: seq<Byte>, b1: seq<Byte>) returns (r: Found)
    requires |b0| >= 4 && |b1| >= 4
    ensures r == Fetched2(b0, b1)
    ensures r == Corrupt <==> FetchLog(b0).off == 0 && FetchLog(b1).off == 0
    ensures r.In? ==> r.fetched == FetchLog(if r.second then b1 else b0) && r.fetched.off > 0
    ensures FetchLog(b0).off > 0 && FetchLog(b1).off > 0 ==> (r.second <==> Scmp(RevOf(b1), RevOf(b0)) > 0)
  {
    var second := Scmp(RevOf(b1), RevOf(b0)) > 0;
    var f := FetchBlock(if second then b1 else b0);
    if f.off > 0 {
      return In(second, f);
    }
    f := FetchBlock(if second then b0 else b1);
    r := if f.off > 0 then In(!second, f) else Corrupt;
  }

  function Fetched2(b0: seq<Byte>, b1: seq<Byte>): Found
    requires |b0| >= 4 && |b1| >= 4
  {
    var second := Scmp(RevOf(b1), RevOf(b0)) > 0;
    var f, g := FetchLog(if second then b1 else b0), FetchLog(if second then b0 else b1);
    if f.off > 0 then In(second, f) else if g.off > 0 then In(!second, g) else Corrupt
  }

  /** The pair with the current block in its place. */
  function FetchedFrom(current: seq<Byte>, other: seq<Byte>, second: bool): Found
    requires |current| >= 4 && |other| >= 4
  {
    if second then Fetched2(other, current) else Fetched2(current, other)
  }

  /** The idealised CRC, for a block that is being overwritten: before the first CRC is
      complete nothing in it passes for a commit, whatever was in it before. */
  ghost predicate NoOldFluke(torn: seq<Byte>, m: nat, c: Commit)
    requires IsCommit(c)
  {
    (0 < m < CrcAt([], c, 0) + 8 ==> FetchLog(torn).off == 0) &&
    (m >= CrcAt([], c, 0) + 8 ==> NoFluke(torn, [], c, m))
  }

  /** Compacting into the other block is atomic: cut short anywhere, a fetch of the
      pair finds the old log, and the new one exactly from when its first CRC was
      written; also when the revision count wraps around. */
  lemma CompactIsAtomic(current: seq<Byte>, was: seq<Byte>, now: seq<Byte>, torn: seq<Byte>, m: nat, second: bool,
                        c: Commit)
    requires |current| >= 4 && |was| >= 4 && IsCommit(c) && FetchLog(current).off > 0
    requires FetchedFrom(current, was, second) == In(second, FetchLog(current))
    requires Writes(Patch(was, 0, ToLe32((RevOf(current) + 1) % WORD)), now, [], c)
    requires Cut(was, now, torn, m) && NoOldFluke(torn, m, c)
    ensures var done := m >= CrcAt([], c, 0) + 8;
      var r := FetchedFrom(current, torn, second);
      r.In? && r.second == (second != done) &&
      (r.fetched.log == if done then With([], c, Done([], c, m, |c.crcs|)) else FetchLog(current).log) &&
      ContentOf(r.fetched.log) == ContentOf(if done then c.entries else FetchLog(current).log)
  {
    hide Layout, Scan, OffAt, ContentOf, Scmp, Patch, ToLe32, FetchLog, UsedEnd;
    var rev := (RevOf(current) + 1) % WORD;
    if m >= CrcAt([], c, 0) + 8 {
      var was' := Patch(was, 0, ToLe32(rev));
      NewRevision(was, was', now, torn, m, rev);
      StartAt(Whole([], c));
      OffGrows(Whole([], c), 0, |c.entries|);
      CutLayout(was', now, torn, m, [], c);
      LayoutValid(was', []);
      StartAt([]);
      CutSealed(was', now, torn, m, [], c);
      var j := Done([], c, m, |c.crcs|);
      DoneOnce(c, m);
      assert With([], c, j)[|With([], c, j)| - 1] == c.crcs[j - 1];
      FetchFinds(torn, With([], c, j));
      CrcsMeanNothing([] + c.entries, c.crcs[..j]);
      assert [] + c.entries == c.entries;
      ScmpSuccessor(RevOf(current));
    } else if m == 0 {
      assert torn == was by { assert torn == torn[..0] + torn[0..]; }
    }
  }

  lemma DoneOnce(c: Commit, m: nat)
    requires IsCommit(c) && m >= CrcAt([], c, 0) + 8
    ensures Done([], c, m, |c.crcs|) > 0
  {
  }

  lemma NewRevision(was: seq<Byte>, was': seq<Byte>, now: seq<Byte>, torn: seq<Byte>, m: nat, rev: nat)
    requires |was| >= 4 && rev < WORD && was' == Patch(was, 0, ToLe32(rev)) && 4 <= m && Cut(was, now, torn, m)
    requires now[..4] == was'[..4]
    ensures Cut(was', now, torn, m) && RevOf(torn) == rev
  {
    hide ToLe32;
    Bytes.WordRoundTrip(was, 0, rev);
    assert was'[m..] == was[m..];
    forall i | 0 <= i < 4 ensures torn[i] == was'[i] {
      assert torn[i] == torn[..m][i] == now[..m][i] == now[..4][i] == was'[..4][i];
    }
  }
}
