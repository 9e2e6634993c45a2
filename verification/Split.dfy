/** Compacting a directory that may have outgrown its block:
    `lfs_dir_splittingcompact` cuts the entries into pieces, each in a metadata
    pair of its own. */
module Split {
  import opened Wrappers
  import opened Bits
  import opened Bytes
  import opened MetaLog
  import opened Gstate
  import opened Traverse
  import opened Compaction

  /** The sizes that matter; no metadata_max is zero. */
  datatype Config = Config(block_size: nat, prog_size: nat, metadata_max: nat)

  predicate ValidConfig(c: Config) {
    0 < c.prog_size && 36 <= c.block_size && c.metadata_max <= c.block_size
  }

  function MetadataSize(c: Config): nat {
    if c.metadata_max > 0 then c.metadata_max else c.block_size
  }

  /** The size up to which a piece is not split. */
  function Cap(c: Config): nat
    requires ValidConfig(c)
  {
    Min(c.block_size - 36, AlignUp(MetadataSize(c) / 2, c.prog_size))
  }

  const TAIL_SPACE := 12
  const GSTATE_SPACE := 16

  /** The room for attributes in a block, next to the revision count, the CRC, and
      a tail and global state where there are any. */
  function Room(c: Config, tail: bool, state: bool): int {
    MetadataSize(c) - 8 - 4 - (if tail then TAIL_SPACE else 0) - (if state then GSTATE_SPACE else 0)
  }

  /** The check leaves 36 bytes, but a tail and global state take four more: what
      passes it fits in any case exactly when the cap at half a block is low
      enough. */
  lemma CapSuffices(c: Config)
    requires ValidConfig(c)
    ensures (forall size: nat, tail, state :: size <= Cap(c) ==> FitsBeside(c, size, tail, state))
      <==> Cap(c) + 40 <= MetadataSize(c)
  {
    assert FitsBeside(c, Cap(c), true, true) <==> Cap(c) + 40 <= MetadataSize(c);
  }

  predicate FitsBeside(c: Config, size: nat, tail: bool, state: bool) {
    size <= Room(c, tail, state)
  }

  function Listed(e: Option<Entry>): seq<Entry> {
    if e.Some? then [e.value] else []
  }

  /** A tail is stored as two words, global state as three. */
  predicate EndsWith(tail: Option<Entry>, state: Option<Entry>) {
    (tail.Some? ==> tail.value.tag.kind == Tail && tail.value.tag.size == 8) &&
    (state.Some? ==> state.value.tag.kind == Globals && state.value.tag.size == 12)
  }

  /** What fits is what takes, with the revision count in front and the tag of a CRC and
      its word behind, no more than metadata may. */
  lemma FitsIff(c: Config, log: seq<Entry>, tail: Option<Entry>, state: Option<Entry>)
    requires EndsWith(tail, state)
    ensures FitsBeside(c, SpaceOf(log), tail.Some?, state.Some?) <==>
            4 + SpaceOf(log + Listed(tail) + Listed(state)) + 8 <= MetadataSize(c)
  {
    SpaceAppend(log + Listed(tail), Listed(state));
    SpaceAppend(log, Listed(tail));
    if tail.Some? {
      SpaceOne(tail.value);
    }
    if state.Some? {
      SpaceOne(state.value);
    }
  }

  lemma SpaceOne(e: Entry)
    ensures SpaceOf([e]) == Space(e)
  {
    assert [e][..0] == [];
  }

  /** That is when a whole number of program units lies between half of what metadata
      may take and 40 bytes less than that. */
  lemma CapSufficesUnits(c: Config)
    requires ValidConfig(c)
    ensures Cap(c) + 40 <= MetadataSize(c) <==>
            exists k: nat :: IsBetween(c.prog_size * k, MetadataSize(c) / 2, MetadataSize(c) - 40)
  {
    hide AlignUp;
    var half, p := MetadataSize(c) / 2, c.prog_size;
    AlignUpBounds(half, p);
    var up := AlignUp(half, p);
    if Cap(c) + 40 <= MetadataSize(c) {
      FloorMul(up, p);
      assert IsBetween(p * (up / p), half, MetadataSize(c) - 40);
    }
    if k: nat :| IsBetween(p * k, half, MetadataSize(c) - 40) {
      FloorMul(up, p);
      if p * k < up {
        MulBelow(p, k, up / p);
      }
    }
  }

  predicate IsBetween(x: int, low: int, high: int) {
    low <= x <= high
  }

  lemma MulBelow(p: nat, a: nat, b: nat)
    requires p * a < p * b
    ensures p * a + p <= p * b
  {
    if a >= b {
      MulMonotone(p, b, a);
    } else {
      MulMonotone(p, a + 1, b);
    }
  }

  /** When metadata takes whole program units, the block or a smaller maximum, that is
      when there is more than one. */
  lemma CapSufficesWhole(c: Config, k: nat)
    requires ValidConfig(c) && MetadataSize(c) == c.prog_size * k >= 120
    ensures Cap(c) + 40 <= MetadataSize(c) <==> k > 1
  {
    hide AlignUp;
    var half, p := MetadataSize(c) / 2, c.prog_size;
    var units := (k + 1) / 2;
    assert k == 2 * units || k == 2 * units - 1;
    if k == 2 * units {
      assert p * k == 2 * (p * units);
    } else {
      assert p * k == 2 * (p * units) - p;
      if units > 1 {
        MulMonotone(p, 2, units);
      } else {
        assert units == 1;
      }
    }
    AlignUpMultiple(half, p, if p == 1 then half else units);
  }

  lemma AlignUpMultiple(a: nat, m: nat, q: nat)
    requires m > 0 && a <= m * q < a + m
    ensures AlignUp(a, m) == m * q
  {
    QuotientIs(a + m - 1, m, q);
    FloorMul(a + m - 1, m);
  }

  // ----- pieces -----

  /** The entries of the directory that go in one metadata pair, its log, and where its
      tail leads. */
  datatype Piece = Piece(ptr: Ptr, begin: nat, end: nat, log: seq<Entry>, split: bool, tail: Option<Ptr>)

  function Emitted(items: seq<Item>, begin: nat, end: nat): seq<Entry> {
    EmitFrom(1, CompactFrame(items, begin, end))
  }

  /** What the engine takes for a piece that fits. */
  predicate Accepted(c: Config, items: seq<Item>, begin: nat, end: nat)
    requires ValidConfig(c)
  {
    end - begin <= 1 || (end - begin < 0xff && SpaceOf(Emitted(items, begin, end)) <= Cap(c))
  }

  // ----- a directory that does not fit -----

  /** Two files, as a compaction leaves them: names and structures. */
  function TwoFiles(a: seq<Byte>, b: seq<Byte>, s: seq<Byte>, t: seq<Byte>): seq<Entry> {
    [Entry(Tag(Name, 1, 0, |a|), a), Entry(Tag(Struct, 2, 0, |s|), s),
     Entry(Tag(Name, 1, 1, |b|), b), Entry(Tag(Struct, 2, 1, |t|), t)]
  }

  lemma {:induction false} FilterNothing(items: seq<Item>, k: nat, t: Tag)
    requires k <= |items| && forall j :: k <= j < |items| ==> FilterBy(items[j], t) == (false, t)
    ensures FilterThrough(items, k, t) == t
    decreases |items| - k
  {
    hide FilterBy;
    if k < |items| {
      FilterNothing(items, k + 1, t);
    }
  }

  ghost predicate Lasting(log: seq<Entry>, n: nat, i: nat)
    requires i < |log|
  {
    var t := log[i].tag;
    IsAttr(t) && !IsNoop(t) && t.id < n &&
    forall j :: i < j < |log| ==> FilterBy(OnDisk(log)[j], t) == (false, t)
  }

  /** A log of which nothing is redundant is written as it is. */
  lemma {:induction false} EmitsAll(log: seq<Entry>, n: nat, off: nat)
    requires off <= |log| && forall i :: 0 <= i < |log| ==> Lasting(log, n, i)
    ensures EmitFrom(1, CompactFrame(OnDisk(log), 0, n).(off := off)) == log[off..]
    decreases |log| - off
  {
    if off < |log| {
      EmitsAll(log, n, off + 1);
      assert Lasting(log, n, off);
      FilterNothing(OnDisk(log), off + 1, log[off].tag);
    }
  }

  lemma TwoFilesMean(a: seq<Byte>, b: seq<Byte>, s: seq<Byte>, t: seq<Byte>)
    requires |a| < DELETED_SIZE && |b| < DELETED_SIZE && |s| == |t| == 8
    ensures var log := TwoFiles(a, b, s, t);
      WellFormed(log) && |Replay(log)| == 2 && AllNamed(Replay(log))
  {
    var log := TwoFiles(a, b, s, t);
    assert log[..0] == [] && log[..1] == log[..0] + [log[0]] && log[..2] == log[..1] + [log[1]];
    assert log[..3] == log[..2] + [log[2]] && log == log[..3] + [log[3]];
    hide ReplayTo, SplicedBefore, WellFormed;
    NothingYet();
    AppendTag([], log[0]);
    AppendTag(log[..1], log[1]);
    AppendTag(log[..2], log[2]);
    AppendTag(log[..3], log[3]);
  }

  lemma NothingYet()
    ensures WellFormed([]) && Replay([]) == [] && !SplicedBefore([], 0)
  {
  }

  /** In blocks of one program unit of 128 bytes: a directory that is accepted whole but
      does not fit beside a tail and global state. */
  lemma DoesNotFit(a: seq<Byte>, b: seq<Byte>, s: seq<Byte>, t: seq<Byte>)
    requires 57 <= |a| + |b| <= 60 && |a| <= 40 && |b| <= 40 && |s| == |t| == 8
    ensures var c, items := Config(128, 128, 0), OnDisk(TwoFiles(a, b, s, t));
      ValidConfig(c) && GoodList(items) && |Meaning(items, |items|)| == 2 && AllNamed(Meaning(items, |items|)) &&
      Accepted(c, items, 0, 2) && !FitsBeside(c, SpaceOf(Emitted(items, 0, 2)), true, true)
  {
    hide EmitFrom, WellFormed, ReplayTo, Meaning, GoodList, FilterBy, AllNamed, TwoFiles, Lasting, SpaceOf, Cap;
    var log := TwoFiles(a, b, s, t);
    TwoFilesMean(a, b, s, t);
    LogIsGood(log);
    TwoFilesLast(a, b, s, t);
    EmitsAll(log, 2, 0);
    TwoFilesSpace(a, b, s, t);
    var f := CompactFrame(OnDisk(log), 0, 2);
    assert f.(off := 0) == f && log[0..] == log;
    CapOfOneUnit();
  }

  lemma CapOfOneUnit()
    ensures Cap(Config(128, 128, 0)) == 92
  {
    hide AlignUp;
    AlignUpMultiple(64, 128, 1);
  }

  lemma TwoFilesLast(a: seq<Byte>, b: seq<Byte>, s: seq<Byte>, t: seq<Byte>)
    requires |a| <= 40 && |b| <= 40 && |s| == |t| == 8
    ensures var log := TwoFiles(a, b, s, t); forall i :: 0 <= i < |log| ==> Lasting(log, 2, i)
  {
  }

  lemma TwoFilesSpace(a: seq<Byte>, b: seq<Byte>, s: seq<Byte>, t: seq<Byte>)
    requires |s| == |t| == 8 && |a| <= 40 && |b| <= 40
    ensures SpaceOf(TwoFiles(a, b, s, t)) == 32 + |a| + |b|
  {
    hide SpaceOf;
    var log := TwoFiles(a, b, s, t);
    assert log[..1] == [log[0]] && [log[0]] == [] + [log[0]] && log[..2] == log[..1] + [log[1]];
    assert log[..3] == log[..2] + [log[2]] && log == log[..3] + [log[3]];
    EmptySpace();
    SpaceNext([], log[0]);
    SpaceNext(log[..1], log[1]);
    SpaceNext(log[..2], log[2]);
    SpaceNext(log[..3], log[3]);
  }

  lemma SpaceNext(log: seq<Entry>, e: Entry)
    ensures SpaceOf(log + [e]) == SpaceOf(log) + Space(e)
  {
    assert (log + [e])[..|log|] == log;
  }

  /** The pieces are consecutive and cover `[begin, end)`. */
  predicate Consecutive(pieces: seq<Piece>, begin: nat, end: nat) {
    if pieces == [] then begin == end
    else pieces[0].begin == begin <= pieces[0].end <= end && Consecutive(pieces[1..], pieces[0].end, end)
  }

  ghost predicate Holds(pieces: seq<Piece>, dir: seq<Attrs>) {
    forall i :: 0 <= i < |pieces| ==> HoldsPiece(pieces[i], dir)
  }

  ghost predicate HoldsPiece(p: Piece, dir: seq<Attrs>) {
    p.begin <= p.end <= |dir| && WellFormed(p.log) && Replay(p.log) == dir[p.begin..p.end]
  }

  /** The directory that a chain of pieces makes up, following the tails. */
  function Joined(pieces: seq<Piece>): (dir: seq<Attrs>) {
    if pieces == [] then [] else Replay(pieces[0].log) + Joined(pieces[1..])
  }

  /** Each piece goes on in the next, and the last where the directory went on before. */
  ghost predicate TailsLead(pieces: seq<Piece>, split: bool, tail: Option<Ptr>) {
    forall i :: 0 <= i < |pieces| ==> LeadsOn(pieces, i, split, tail)
  }

  predicate LeadsOn(pieces: seq<Piece>, i: nat, split: bool, tail: Option<Ptr>)
    requires i < |pieces|
  {
    if i + 1 < |pieces| then pieces[i].split && pieces[i].tail == Some(pieces[i + 1].ptr)
    else pieces[i].split == split && pieces[i].tail == tail
  }

  /** What up to n pairs hold, following hard tails. */
  function AlongTails(disk: map<Ptr, Piece>, at: Option<Ptr>, n: nat): (dir: seq<Attrs>)
    decreases n
  {
    if n == 0 || at.None? || at.value !in disk then []
    else
      var p := disk[at.value];
      Replay(p.log) + AlongTails(disk, if p.split then p.tail else None, n - 1)
  }

  ghost predicate StoredOn(disk: map<Ptr, Piece>, pieces: seq<Piece>) {
    forall i :: 0 <= i < |pieces| ==> pieces[i].ptr in disk && disk[pieces[i].ptr] == pieces[i]
  }

  /** Following the tails from the first piece gives the directory. */
  lemma {:induction false} AlongIsJoined(disk: map<Ptr, Piece>, pieces: seq<Piece>, split: bool, tail: Option<Ptr>)
    requires pieces != [] && StoredOn(disk, pieces) && TailsLead(pieces, split, tail)
    ensures AlongTails(disk, Some(pieces[0].ptr), |pieces|) == Joined(pieces)
  {
    hide ReplayTo;
    var rest := pieces[1..];
    assert disk[pieces[0].ptr] == pieces[0];
    if rest == [] {
      assert Joined(rest) == [];
    } else {
      forall i | 0 <= i < |rest|
        ensures rest[i].ptr in disk && disk[rest[i].ptr] == rest[i] && LeadsOn(rest, i, split, tail)
      {
        assert rest[i] == pieces[i + 1] && LeadsOn(pieces, i + 1, split, tail);
      }
      assert LeadsOn(pieces, 0, split, tail);
      AlongIsJoined(disk, rest, split, tail);
    }
  }

  lemma {:induction false} JoinedIsWhole(pieces: seq<Piece>, dir: seq<Attrs>, begin: nat, end: nat)
    requires Consecutive(pieces, begin, end) && Holds(pieces, dir) && begin <= end <= |dir|
    ensures Joined(pieces) == dir[begin..end]
  {
    hide WellFormed, ReplayTo;
    if pieces != [] {
      assert HoldsPiece(pieces[0], dir);
      forall i | 0 <= i < |pieces[1..]| ensures HoldsPiece(pieces[1..][i], dir) {
        assert pieces[1..][i] == pieces[i + 1];
      }
      JoinedIsWhole(pieces[1..], dir, pieces[0].end, end);
    }
  }

  /** Some halvings lead from one to the other. */
  predicate HalvesTo(begin: nat, split: nat, end: nat)
    requires begin <= end
    decreases end - begin
  {
    split == begin || (begin + 1 < end && HalvesTo(begin + (end - begin) / 2, split, end))
  }

  /** So many entries are too many for one piece, or take more than half of what metadata
      may, or leave less than 36 bytes in the block. */
  ghost predicate TooMuch(c: Config, items: seq<Item>, begin: nat, end: nat)
    requires ValidConfig(c)
  {
    var size := SpaceOf(EmitFrom(1, CompactFrame(items, begin, end)));
    end - begin > 1 &&
    (end - begin >= 0xff || size + 36 > c.block_size || size > AlignUp(MetadataSize(c) / 2, c.prog_size))
  }

  lemma AcceptedIff(c: Config, items: seq<Item>, begin: nat, end: nat)
    requires ValidConfig(c)
    ensures Accepted(c, items, begin, end) <==> !TooMuch(c, items, begin, end)
  {
    hide EmitFrom, SpaceOf, AlignUp;
  }

  /** Twice as many entries were too much. */
  ghost predicate HalfTooMany(c: Config, items: seq<Item>, begin: nat, split: nat, end: nat)
    requires ValidConfig(c)
  {
    exists s: nat :: begin <= s < end && split == s + (end - s) / 2 && TooMuch(c, items, s, end)
  }

  lemma {:induction false} HalvesFurther(begin: nat, split: nat, end: nat)
    requires begin <= end && split + 1 < end && HalvesTo(begin, split, end)
    ensures begin <= split && HalvesTo(begin, split + (end - split) / 2, end)
    decreases end - begin
  {
    if split != begin {
      HalvesFurther(begin + (end - begin) / 2, split, end);
    }
  }

  /** Halving the entries until what is left at the end is accepted. */
  method FindSplit(c: Config, items: seq<Item>, begin: nat, end: nat) returns (split: nat)
    requires ValidConfig(c) && begin <= end
    ensures begin <= split <= end && (begin < end ==> split < end)
    ensures Accepted(c, items, split, end)
    ensures split == begin <==> Accepted(c, items, begin, end)
    ensures HalvesTo(begin, split, end) && (split > begin ==> HalfTooMany(c, items, begin, split, end))
  {
    hide SpaceOf, EmitFrom, Outer, Cap, TooMuch;
    split := begin;
    while end - split > 1
      invariant begin <= split <= end && (begin < end ==> split < end)
      invariant split > begin ==> !Accepted(c, items, begin, end)
      invariant HalvesTo(begin, split, end) && (split > begin ==> HalfTooMany(c, items, begin, split, end))
    {
      OuterFrame(CompactFrame(items, split, end));
      var _, _, size := Traverse.Traverse(CompactFrame(items, split, end), None);
      if end - split < 0xff && size <= Cap(c) {
        break;
      }
      HalvesFurther(begin, split, end);
      AcceptedIff(c, items, split, end);
      ghost var s := split;
      split := split + (end - split) / 2;
      assert begin <= s < end && split == s + (end - s) / 2 && TooMuch(c, items, s, end);
    }
  }

  /** What states the compactions write: `first` that of the first one, which takes
      over the pending changes; `own` that of the pair itself when there was a split
      before. */
  datatype States = States(first: bool, own: bool)

  /** Every entry fits alone, whatever goes with it. */
  ghost predicate AllFitAlone(c: Config, items: seq<Item>, begin: nat, end: nat)
    requires ValidConfig(c)
  {
    forall i: nat :: begin <= i < end ==> FitsAlone(c, items, i)
  }

  ghost predicate FitsAlone(c: Config, items: seq<Item>, i: nat)
    requires ValidConfig(c)
  {
    SpaceOf(Emitted(items, i, i + 1)) + 40 <= MetadataSize(c)
  }

  lemma AcceptedFits(c: Config, items: seq<Item>, first: nat, last: nat, begin: nat, end: nat, tail: bool, state: bool)
    requires ValidConfig(c) && Cap(c) + 40 <= MetadataSize(c) && first <= begin <= end <= last
    requires Accepted(c, items, begin, end) && AllFitAlone(c, items, first, last)
    ensures FitsBeside(c, SpaceOf(Emitted(items, begin, end)), tail, state)
  {
    hide SpaceOf, EmitFrom;
    if begin == end {
      NothingInRange(CompactFrame(items, begin, end));
      EmptySpace();
    } else if end - begin == 1 {
      assert FitsAlone(c, items, begin);
    }
  }

  lemma {:induction false} NothingInRange(f: Frame)
    requires f.mask == CompactMask && f.begin >= f.end
    ensures EmitFrom(1, f) == []
    decreases |f.items| - f.off
  {
    if f.off < |f.items| {
      NothingInRange(f.(off := f.off + 1));
    }
  }

  /** The pairs are all different. */
  ghost predicate Different(ptrs: seq<Ptr>) {
    forall i, j :: 0 <= i < j < |ptrs| ==> ptrs[i] != ptrs[j]
  }

  /** The pieces behind the first are in the new pairs, the last in the first of them. */
  ghost predicate InPairs(pieces: seq<Piece>, spares: seq<Ptr>) {
    |pieces| <= |spares| && forall i :: 0 <= i < |pieces| ==> pieces[i].ptr == spares[|pieces| - 1 - i]
  }

  /** Another piece in front of the others takes over where the directory goes on. */
  lemma LinkedMore(p: Piece, rest: seq<Piece>, split: bool, tail: Option<Ptr>)
    requires TailsLead(rest, split, tail)
    requires p.split == (rest != [] || split) && p.tail == if rest == [] then tail else Some(rest[0].ptr)
    ensures TailsLead([p] + rest, split, tail)
  {
    var all := [p] + rest;
    forall i | 0 <= i < |all| ensures LeadsOn(all, i, split, tail) {
      assert i > 0 ==> all[i] == rest[i - 1] && LeadsOn(rest, i - 1, split, tail);
    }
  }

  /** All of them in different pairs. */
  lemma PairsDiffer(own: Ptr, p: Piece, rest: seq<Piece>, spares: seq<Ptr>)
    requires Different([own] + spares) && InPairs(rest, spares) && p.ptr == own
    ensures forall i, j :: 0 <= i < j < |rest| + 1 ==> ([p] + rest)[i].ptr != ([p] + rest)[j].ptr
  {
    var all, ptrs := [p] + rest, [own] + spares;
    forall i, j | 0 <= i < j < |all| ensures all[i].ptr != all[j].ptr {
      var a, b := if i == 0 then 0 else |rest| - i + 1, |rest| - j + 1;
      assert i > 0 ==> all[i] == rest[i - 1];
      assert all[i].ptr == ptrs[a] && all[j] == rest[j - 1] && all[j].ptr == ptrs[b];
      assert ptrs[Min(a, b)] != ptrs[Max(a, b)];
    }
  }

  /** The piece is in its pair, beside its tail. */
  ghost predicate Written(c: Config, items: seq<Item>, p: Piece)
    requires ValidConfig(c)
  {
    p.log == Emitted(items, p.begin, p.end) && FitsBeside(c, SpaceOf(p.log), p.tail.Some?, false)
  }

  /** A piece of several entries does not have too many, and leaves room in its block. */
  predicate LeavesRoom(c: Config, p: Piece)
    requires ValidConfig(c)
  {
    p.end - p.begin > 1 ==>
      p.end - p.begin < 0xff && SpaceOf(p.log) + 36 <= c.block_size &&
      SpaceOf(p.log) <= AlignUp(MetadataSize(c) / 2, c.prog_size)
  }

  lemma AcceptedLeavesRoom(c: Config, items: seq<Item>, p: Piece)
    requires ValidConfig(c) && Accepted(c, items, p.begin, p.end) && Written(c, items, p)
    ensures LeavesRoom(c, p)
  {
    hide EmitFrom, SpaceOf;
  }

  /** `lfs_dir_splittingcompact` of the pair `own`, which goes on as `split` and `tail` say,
      with new metadata pairs in `spares`. */
  method SplittingCompact(c: Config, items: seq<Item>, begin: nat, end: nat, own: Ptr, split: bool, tail: Option<Ptr>,
                          states: States, spares: seq<Ptr>)
    returns (ok: bool, pieces: seq<Piece>)
    requires ValidConfig(c) && GoodList(items) && Different([own] + spares)
    requires var dir := Meaning(items, |items|); AllNamed(dir) && begin <= end <= |dir|
    ensures ok ==>
            Consecutive(pieces, begin, end) && pieces != [] && Joined(pieces) == Meaning(items, |items|)[begin..end]
    ensures pieces != [] && pieces[0].ptr == own && TailsLead(pieces, split, tail)
    ensures forall i, j :: 0 <= i < j < |pieces| ==> pieces[i].ptr != pieces[j].ptr
    ensures ok ==> forall i :: 0 <= i < |pieces| ==> HoldsPiece(pieces[i], Meaning(items, |items|))
    ensures ok ==> forall i :: 1 <= i < |pieces| ==> Accepted(c, items, pieces[i].begin, pieces[i].end)
    ensures ok ==> forall i :: 0 <= i < |pieces| ==> Written(c, items, pieces[i])
    ensures ok ==> forall i :: 1 <= i < |pieces| ==> LeavesRoom(c, pieces[i])
    ensures forall i :: 1 <= i < |pieces| ==> HalfTooMany(c, items, begin, pieces[i].begin, pieces[i].end)
    ensures !TooMuch(c, items, begin, end) ==> |pieces| == 1
    ensures Cap(c) + 40 <= MetadataSize(c) && AllFitAlone(c, items, begin, end) && |spares| >= end - begin ==>
      ok && Accepted(c, items, pieces[0].begin, pieces[0].end)
    ensures Accepted(c, items, begin, end) ==>
            (ok <==> FitsBeside(c, SpaceOf(Emitted(items, begin, end)), tail.Some?, states.first))
  {
    hide SpaceOf, EmitFrom, Meaning, GoodList, WellFormed, ReplayTo, Cap, Room, AllNamed, Accepted, Joined, Different,
      TailsLead, LeavesRoom, Written, FitsBeside, HoldsPiece, HalfTooMany, HalvesTo,
      TooMuch;
    AcceptedIff(c, items, begin, end);
    ghost var dir := Meaning(items, |items|);
    var rest, upto := [], end;
    ghost var easy := Cap(c) + 40 <= MetadataSize(c) && AllFitAlone(c, items, begin, end) && |spares| >= end - begin;
    NoneLinked(split, tail);
    while true
      invariant begin <= upto <= end && Consecutive(rest, upto, end) && Holds(rest, dir)
      invariant forall i :: 0 <= i < |rest| ==> Accepted(c, items, rest[i].begin, rest[i].end)
      invariant InPairs(rest, spares) && TailsLead(rest, split, tail)
      invariant forall i :: 0 <= i < |rest| ==> Written(c, items, rest[i]) && LeavesRoom(c, rest[i])
      invariant forall i :: 0 <= i < |rest| ==> HalfTooMany(c, items, begin, rest[i].begin, rest[i].end)
      invariant easy ==> |spares| - |rest| >= upto - begin
      invariant Accepted(c, items, begin, end) ==> rest == [] && upto == end
      decreases upto
    {
      var at := FindSplit(c, items, begin, upto);
      if at == begin || |rest| == |spares| {
        break;
      }
      var behind := if rest == [] then tail else Some(rest[0].ptr);
      var fits, p := WritePiece(c, items, at, upto, spares[|rest|], rest != [] || split, behind,
        states.first && rest == []);
      if easy {
        AcceptedFits(c, items, begin, end, at, upto, behind.Some?, states.first && rest == []);
      }
      if !fits {
        break;
      }
      LinkedMore(p, rest, split, tail);
      rest := [p] + rest;
      upto := at;
    }
    var behind := if rest == [] then tail else Some(rest[0].ptr);
    var state := if rest == [] then states.first else states.own;
    var p;
    ok, p := WritePiece(c, items, begin, upto, own, rest != [] || split, behind, state);
    LinkedMore(p, rest, split, tail);
    PairsDiffer(own, p, rest, spares);
    pieces := [p] + rest;
    if easy {
      AcceptedFits(c, items, begin, end, begin, upto, behind.Some?, state);
    }
    if ok {
      JoinedIsWhole(pieces, dir, begin, end);
    }
  }

  /** Compacts the entries in the range into one pair. */
  method WritePiece(c: Config, items: seq<Item>, begin: nat, end: nat, ptr: Ptr, split: bool, tail: Option<Ptr>,
                    state: bool)
    returns (fits: bool, p: Piece)
    requires ValidConfig(c) && GoodList(items)
    requires var dir := Meaning(items, |items|); AllNamed(dir) && begin <= end <= |dir|
    ensures p == Piece(ptr, begin, end, p.log, split, tail)
    ensures fits <==> FitsBeside(c, SpaceOf(Emitted(items, begin, end)), tail.Some?, state)
    ensures fits ==> HoldsPiece(p, Meaning(items, |items|)) && Written(c, items, p)
    ensures fits && Accepted(c, items, begin, end) ==> LeavesRoom(c, p)
  {
    hide SpaceOf, EmitFrom, Meaning, GoodList, WellFormed, ReplayTo, AllNamed, Accepted, LeavesRoom;
    var log;
    fits, log := Compact(items, begin, end, Room(c, tail.Some?, state));
    p := Piece(ptr, begin, end, log, split, tail);
    if fits && Accepted(c, items, begin, end) {
      AcceptedLeavesRoom(c, items, p);
    }
  }

  lemma NoneLinked(split: bool, tail: Option<Ptr>)
    ensures TailsLead([], split, tail)
  {
  }
}
