/** What compaction leaves out: of the tags of an attribute only the last remains, so a
    log that is compacted is no longer than what the directory holds. */
module Redundancy {
  import opened Wrappers
  import opened Bits
  import opened Bytes
  import opened MetaLog
  import opened Traverse
  import opened Compaction
  import opened Renames

  /** Tags of the same attribute of the same entry. */
  predicate SameAttr(a: Tag, b: Tag) {
    IsAttr(a) && IsAttr(b) && a.id == b.id && KeyOf(a) == KeyOf(b)
  }

  /** Nothing but attributes, and none of them twice. */
  ghost predicate EachOnce(log: seq<Entry>) {
    (forall i :: 0 <= i < |log| ==> IsAttr(log[i].tag)) &&
    forall i, j :: 0 <= i < j < |log| ==> !SameAttr(log[i].tag, log[j].tag)
  }

  /** The log says nothing of the attribute. */
  ghost predicate SaysNothing(log: seq<Entry>, id: int, key: Key) {
    forall i :: 0 <= i < |log| && IsAttr(log[i].tag) && log[i].tag.id == id ==> KeyOf(log[i].tag) != key
  }

  lemma OnceAppend(a: seq<Entry>, b: seq<Entry>)
    requires EachOnce(a) && EachOnce(b)
    requires forall j :: 0 <= j < |b| ==> SaysNothing(a, b[j].tag.id, KeyOf(b[j].tag))
    ensures EachOnce(a + b)
  {
    var c := a + b;
    forall i, j | 0 <= i < j < |c| ensures !SameAttr(c[i].tag, c[j].tag) {
      if i < |a| <= j {
        assert SaysNothing(a, b[j - |a|].tag.id, KeyOf(b[j - |a|].tag)) && c[j] == b[j - |a|];
      } else if |a| <= i {
        assert c[i] == b[i - |a|] && c[j] == b[j - |a|];
      }
    }
  }

  // ----- kept tags -----

  /** A kept attribute or move. */
  ghost predicate Simple(item: Item) {
    !IsNoop(item.tag) && !IsUserAttrs(item) &&
    if IsMove(item) then !IsDeleted(item.tag) && WellFormed(item.buffer.log) else item.buffer.Bytes? && IsAttr(item.tag)
  }

  /** The item is about the attribute; a move may be about any but the name. */
  ghost predicate Covers(item: Item, id: int, key: Key) {
    item.tag.id == id && if IsMove(item) then key != NameKey else IsAttr(item.tag) && KeyOf(item.tag) == key
  }

  ghost predicate Free(kept: Kept, id: int, key: Key) {
    kept.More? ==> Free(kept.before, id, key) && !Covers(kept.item, id, key)
  }

  /** No attribute is kept twice. */
  ghost predicate Single(kept: Kept) {
    kept.More? ==> Single(kept.before) && Simple(kept.item) && OnTop(kept.before, kept.item)
  }

  ghost predicate OnTop(before: Kept, item: Item) {
    forall key :: Covers(item, item.tag.id, key) ==> Free(before, item.tag.id, key)
  }

  lemma {:induction false} NothingBelow(kept: Kept, id: int, key: Key)
    requires id < 0
    ensures Free(kept, id, key)
  {
    if kept.More? {
      NothingBelow(kept.before, id, key);
    }
  }

  /** What a later item makes of a kept one: it goes, or is where it was. */
  lemma StaysSimple(item: Item, early: Item)
    requires Sieving(item) && Simple(early)
    ensures var r := FilterBy(item, early.tag).1; !IsNoop(r) ==>
      Simple(early.(tag := r)) && Moved(item, early.tag, r) &&
      forall id: nat, key :: Covers(early.(tag := r), id, key) <==> Covers(early, Before(item, id), key)
  {
    hide FilterBy, Sieving, WellFormed;
    SieveOne(item, early);
  }

  lemma {:induction false} SieveFree(kept: Kept, item: Item, id: nat, key: Key)
    requires Sieving(item) && Single(kept) && Free(kept, Before(item, id), key)
    ensures Free(Sieve(kept, item), id, key)
  {
    hide FilterBy, Before, Sieving, Covers, Simple, OnTop;
    if kept.More? {
      SieveFree(kept.before, item, id, key);
      StaysSimple(item, kept.item);
    }
  }

  lemma {:induction false} SieveSingle(kept: Kept, item: Item)
    requires Sieving(item) && Single(kept)
    ensures Single(Sieve(kept, item))
  {
    hide FilterBy, Before, Sieving, Covers, Simple;
    if kept.More? {
      SieveSingle(kept.before, item);
      StaysSimple(item, kept.item);
      var r := FilterBy(item, kept.item.tag).1;
      if !IsNoop(r) {
        StaysOnTop(kept.before, kept.item, item, r);
      }
    }
  }

  lemma StaysOnTop(before: Kept, early: Item, item: Item, r: Tag)
    requires Sieving(item) && Single(before) && OnTop(before, early) && Moved(item, early.tag, r)
    requires forall id: nat, key :: Covers(early.(tag := r), id, key) <==> Covers(early, Before(item, id), key)
    ensures OnTop(Sieve(before, item), early.(tag := r))
  {
    hide Before, Sieving, Covers, Single;
    forall key | Covers(early.(tag := r), r.id, key) ensures Free(Sieve(before, item), r.id, key) {
      assert Before(item, r.id) == early.tag.id;
      SieveFree(before, item, r.id, key);
    }
  }

  /** An attribute that is set or removed makes what was said of it before redundant. */
  lemma {:induction false} SieveDrops(kept: Kept, item: Item)
    requires Sieving(item) && item.buffer.Bytes? && IsAttr(item.tag) && Single(kept) && AllBytes(kept)
    ensures Free(Sieve(kept, item), item.tag.id, KeyOf(item.tag))
  {
    hide FilterBy, Sieving, Covers, Simple, OnTop;
    if kept.More? {
      SieveDrops(kept.before, item);
      DropsOne(item, kept.item);
    }
  }

  lemma DropsOne(item: Item, early: Item)
    requires Sieving(item) && item.buffer.Bytes? && IsAttr(item.tag) && Simple(early) && early.buffer.Bytes?
    ensures var r := FilterBy(item, early.tag).1;
      IsNoop(r) || !Covers(early.(tag := r), item.tag.id, KeyOf(item.tag))
  {
  }

  lemma {:induction false} NothingToSieve(kept: Kept, item: Item)
    requires IsNoop(item.tag) || IsMove(item)
    requires Single(kept)
    ensures Sieve(kept, item) == kept
  {
    hide OnTop;
    if kept.More? {
      NothingToSieve(kept.before, item);
    }
  }

  /** Moves come on top of nothing but names, and no attributes on top of moves. */
  ghost predicate MovesAreFresh(items: seq<Item>, mask: Mask, k: nat)
    requires k < |items|
  {
    var kept, item := KeptOf(items, mask, k), items[k];
    !IsUserAttrs(item) &&
    (IsMove(item) ==> mask != MoveMask && forall key :: key != NameKey ==> Free(kept, item.tag.id, key)) &&
    (item.buffer.Bytes? && IsAttr(item.tag) && !IsNoop(item.tag) ==> AllBytes(kept))
  }

  lemma {:induction false} KeptSingle(items: seq<Item>, mask: Mask, k: nat)
    requires k <= |items| && GoodList(items) && mask != CommitMask && forall i :: 0 <= i < k ==>
             MovesAreFresh(items, mask, i)
    ensures Single(KeptOf(items, mask, k))
  {
    hide Sieve, Single, GoodList, ItemApplies, MovesAreFresh, AllBytes, Free;
    if k == 0 {
      NothingKept(items, mask);
    } else {
      KeptSingle(items, mask, k - 1);
      GoodAt(items, k - 1);
      assert MovesAreFresh(items, mask, k - 1);
      OneMoreKept(items, mask, k);
    }
  }

  lemma NothingKept(items: seq<Item>, mask: Mask)
    ensures Single(KeptOf(items, mask, 0))
  {
  }

  lemma OneMoreKept(items: seq<Item>, mask: Mask, k: nat)
    requires 0 < k <= |items| && mask != CommitMask && MovesAreFresh(items, mask, k - 1) &&
             Single(KeptOf(items, mask, k - 1))
    requires ItemApplies(Meaning(items, k - 1), ItemsSpliced(items, k - 1), items[k - 1])
    ensures Single(KeptOf(items, mask, k))
  {
    hide Sieve, Free, AllBytes, Meaning, FilterBy;
    var kept, item := KeptOf(items, mask, k - 1), items[k - 1];
    if IsNoop(item.tag) || IsMove(item) {
      NothingToSieve(kept, item);
    } else {
      AppliesSieves(Meaning(items, k - 1), ItemsSpliced(items, k - 1), item);
      SieveSingle(kept, item);
      if IsAttr(item.tag) {
        SieveDrops(kept, item);
      }
    }
  }

  lemma AppliesSieves(dir: seq<Attrs>, spliced: bool, item: Item)
    requires ItemApplies(dir, spliced, item) && !IsNoop(item.tag) && !IsMove(item) && !IsUserAttrs(item)
    ensures Sieving(item) && item.buffer.Bytes?
  {
  }

  // ----- what is emitted -----

  /** Ids in range stay ids. */
  ghost predicate Renumbers(f: Frame) {
    f.mask != CommitMask && f.begin + f.diff >= 0
  }

  /** What is emitted for an item is about what the item is about. */
  ghost predicate EmitsCovered(out: seq<Entry>, item: Item, diff: int) {
    forall i :: 0 <= i < |out| ==> IsAttr(out[i].tag) && Covers(item, out[i].tag.id - diff, KeyOf(out[i].tag))
  }

  /** An item emits what it is about, and nothing twice. */
  lemma EmitsRight(level: nat, f: Frame, item: Item)
    requires Renumbers(f) && Simple(item)
    ensures EmitsCovered(EmitOne(level, f, item), item, f.diff) && EachOnce(EmitOne(level, f, item))
    decreases level, 0
  {
    hide EmitFrom, WellFormed;
    if IsMove(item) && InRange(f, item.tag) && level > 0 {
      var mf := MoveFrame(item, f.diff);
      DiskSingle(item.buffer.log);
      KeptOnce(level - 1, mf, KeptOf(mf.items, MoveMask, |mf.items|));
      KeptOnlyAttrs(mf.items, |mf.items|);
      MoveEmits(level - 1, mf, KeptOf(mf.items, MoveMask, |mf.items|));
      EmitsAllKept(level - 1, mf);
    }
  }

  /** A log on disk, of which a move takes the attributes. */
  lemma DiskSingle(log: seq<Entry>)
    requires WellFormed(log)
    ensures NoLists(OnDisk(log), |log|) && Single(KeptOf(OnDisk(log), MoveMask, |log|))
  {
    hide WellFormed, Single, GoodList, MovesAreFresh;
    LogIsGood(log);
    BytesAreFresh(OnDisk(log), MoveMask, |log|);
    KeptSingle(OnDisk(log), MoveMask, |log|);
  }

  lemma BytesAreFresh(items: seq<Item>, mask: Mask, n: nat)
    requires n <= |items| && NoLists(items, n)
    ensures forall k :: 0 <= k < n ==> MovesAreFresh(items, mask, k)
  {
    hide KeptOf;
    forall k | 0 <= k < n ensures MovesAreFresh(items, mask, k) {
      KeptBytes(items, mask, k);
    }
  }

  ghost predicate AllMoved(out: seq<Entry>, id: int) {
    forall i :: 0 <= i < |out| ==> IsAttr(out[i].tag) && out[i].tag.id == id && KeyOf(out[i].tag) != NameKey
  }

  lemma MovedAppend(a: seq<Entry>, b: seq<Entry>, id: int)
    requires AllMoved(a, id) && AllMoved(b, id)
    ensures AllMoved(a + b, id)
  {
  }

  /** All that a move emits is for its entry, and none of it a name. */
  lemma {:induction false} MoveEmits(level: nat, f: Frame, kept: Kept)
    requires Renumbers(f) && f.end == f.begin + 1 && OnlyAttrs(kept) && Single(kept)
    ensures AllMoved(EmitKept(level, f, kept), f.begin + f.diff)
  {
    hide OnTop, EmitOne;
    if kept.More? {
      MoveEmits(level, f, kept.before);
      EmitsBytes(level, f, kept.item);
      MovedAppend(EmitKept(level, f, kept.before), EmitOne(level, f, kept.item), f.begin + f.diff);
    }
  }

  /** An attribute in range is emitted with its new id. */
  lemma EmitsBytes(level: nat, f: Frame, item: Item)
    requires item.buffer.Bytes? && !IsNoop(item.tag)
    ensures EmitOne(level, f, item) == if InRange(f, item.tag) then
            [Entry(Renumber(item.tag, f.diff), item.buffer.data)] else []
  {
  }

  lemma {:induction false} EmitsNothing(level: nat, f: Frame, kept: Kept, id: nat, key: Key)
    requires Single(kept) && Renumbers(f) && Free(kept, id - f.diff, key)
    ensures SaysNothing(EmitKept(level, f, kept), id, key)
    decreases level, 1, kept
  {
    hide EmitOne, Covers, OnTop, Simple;
    if kept.More? {
      EmitsNothing(level, f, kept.before, id, key);
      EmitsRight(level, f, kept.item);
      EmitsOther(EmitOne(level, f, kept.item), kept.item, f.diff, id, key);
      NothingAppend(EmitKept(level, f, kept.before), EmitOne(level, f, kept.item), id, key);
    }
  }

  lemma EmitsOther(out: seq<Entry>, item: Item, diff: int, id: nat, key: Key)
    requires EmitsCovered(out, item, diff) && !Covers(item, id - diff, key)
    ensures SaysNothing(out, id, key)
  {
    hide Covers;
  }

  lemma NothingAppend(a: seq<Entry>, b: seq<Entry>, id: nat, key: Key)
    requires SaysNothing(a, id, key) && SaysNothing(b, id, key)
    ensures SaysNothing(a + b, id, key)
  {
  }

  lemma {:induction false} KeptOnce(level: nat, f: Frame, kept: Kept)
    requires Single(kept) && Renumbers(f)
    ensures EachOnce(EmitKept(level, f, kept))
    decreases level, 2, kept
  {
    hide EmitOne, OnTop, Simple, Covers;
    if kept.More? {
      KeptOnce(level, f, kept.before);
      EmitsRight(level, f, kept.item);
      var out := EmitOne(level, f, kept.item);
      forall j | 0 <= j < |out| ensures SaysNothing(EmitKept(level, f, kept.before), out[j].tag.id, KeyOf(out[j].tag)) {
        TopIsFree(kept.before, kept.item, out[j].tag.id - f.diff, KeyOf(out[j].tag));
        EmitsNothing(level, f, kept.before, out[j].tag.id, KeyOf(out[j].tag));
      }
      OnceAppend(EmitKept(level, f, kept.before), out);
    }
  }

  lemma TopIsFree(before: Kept, item: Item, id: int, key: Key)
    requires OnTop(before, item) && Covers(item, id, key)
    ensures Free(before, id, key)
  {
  }

  // ----- removals -----

  /** The last of the items that is not left out removes an attribute. */
  ghost predicate EndsRemoving(items: seq<Item>, k: nat)
    requires k <= |items|
  {
    exists r :: 0 <= r < k && Removes(items[r]) && forall i :: r < i < k ==> IsNoop(items[i].tag)
  }

  ghost predicate KeepsRemoval(kept: Kept) {
    kept.More? && (Removes(kept.item) || KeepsRemoval(kept.before))
  }

  lemma {:induction false} SieveRemovals(kept: Kept, item: Item)
    requires Sieving(item) && item.buffer.Bytes? && AllBytes(kept) && Single(kept)
    ensures !KeepsRemoval(Sieve(kept, item))
  {
    hide Simple, OnTop;
    if kept.More? {
      SieveRemovals(kept.before, item);
    }
  }

  /** A removal is kept only when nothing comes behind it. */
  lemma {:induction false} KeptRemovals(items: seq<Item>, k: nat)
    requires k <= |items| && GoodList(items) && NoLists(items, |items|)
    ensures KeepsRemoval(KeptOf(items, CompactMask, k)) ==> EndsRemoving(items, k)
  {
    hide Sieve, Single, GoodList, ItemApplies, AllBytes, Removes;
    if k > 0 {
      var kept, item := KeptOf(items, CompactMask, k - 1), items[k - 1];
      KeptRemovals(items, k - 1);
      BytesAreFresh(items, CompactMask, |items|);
      KeptSingle(items, CompactMask, k - 1);
      KeptBytes(items, CompactMask, k - 1);
      GoodAt(items, k - 1);
      if IsNoop(item.tag) {
        NothingToSieve(kept, item);
        RemovingStill(items, k);
      } else {
        NotMoved(items, k - 1);
        AppliesSieves(Meaning(items, k - 1), ItemsSpliced(items, k - 1), item);
        SieveRemovals(kept, item);
        if Removes(item) {
          assert EndsRemoving(items, k);
        }
      }
    }
  }

  lemma NotMoved(items: seq<Item>, k: nat)
    requires k < |items| && NoLists(items, |items|)
    ensures !IsMove(items[k]) && !IsUserAttrs(items[k])
  {
  }

  lemma RemovingStill(items: seq<Item>, k: nat)
    requires 0 < k <= |items| && IsNoop(items[k - 1].tag)
    ensures EndsRemoving(items, k - 1) ==> EndsRemoving(items, k)
  {
    hide Removes;
    if EndsRemoving(items, k - 1) {
      var r :| 0 <= r < k - 1 && Removes(items[r]) && forall i :: r < i < k - 1 ==> IsNoop(items[i].tag);
      assert forall i :: r < i < k ==> IsNoop(items[i].tag);
    }
  }

  ghost predicate NoRemovals(out: seq<Entry>) {
    forall i :: 0 <= i < |out| ==> !IsDeleted(out[i].tag)
  }

  lemma NoneAppend(a: seq<Entry>, b: seq<Entry>)
    requires NoRemovals(a) && NoRemovals(b)
    ensures NoRemovals(a + b)
  {
  }

  lemma {:induction false} EmitsNoRemoval(level: nat, f: Frame, kept: Kept)
    requires AllBytes(kept) && Single(kept) && !KeepsRemoval(kept)
    ensures NoRemovals(EmitKept(level, f, kept))
  {
    hide EmitOne, OnTop;
    if kept.More? {
      EmitsNoRemoval(level, f, kept.before);
      EmitsBytes(level, f, kept.item);
      NoneAppend(EmitKept(level, f, kept.before), EmitOne(level, f, kept.item));
    }
  }

  // ----- compaction -----

  /** Compacting a log with attributes behind it writes each attribute at most once, and
      a removal only when that is the last that is said. */
  lemma CompactDrops(items: seq<Item>, begin: nat, end: nat)
    requires GoodList(items) && NoLists(items, |items|)
    ensures var out := EmitFrom(1, CompactFrame(items, begin, end));
      EachOnce(out) && (!EndsRemoving(items, |items|) ==> NoRemovals(out))
  {
    hide EmitFrom, GoodList, Single, MovesAreFresh, KeptOf;
    var f := CompactFrame(items, begin, end);
    var kept := KeptOf(items, CompactMask, |items|);
    BytesAreFresh(items, CompactMask, |items|);
    KeptSingle(items, CompactMask, |items|);
    KeptOnce(1, f, kept);
    EmitsAllKept(1, f);
    KeptRemovals(items, |items|);
    KeptBytes(items, CompactMask, |items|);
    if !EndsRemoving(items, |items|) {
      EmitsNoRemoval(1, f, kept);
    }
  }

  /** So does compacting it with the list of a rename. */
  lemma RenameDrops(log: seq<Entry>, source: seq<Entry>, k: nat, newid: nat, replace: bool, same: bool, kind: Byte,
                    name: seq<Byte>, begin: nat, end: nat)
    requires WellFormed(log) && AllNamed(Replay(log)) && WellFormed(source) && k < |Replay(source)| && k != DELETED_SIZE
    requires newid <= |Replay(log)| && (replace ==> newid < |Replay(log)|) && kind != 0 && |name| != DELETED_SIZE
    requires same ==> source == log && (replace ==> newid != k)
    ensures EachOnce(EmitFrom(1,
              CompactFrame(OnDisk(log) + RenameItems(source, k, newid, replace, same, kind, name), begin, end)))
  {
    hide EmitFrom, WellFormed, ReplayTo, GoodList, Single, MovesAreFresh, KeptOf, Meaning, AllNamed;
    var items := OnDisk(log) + RenameItems(source, k, newid, replace, same, kind, name);
    RenameMeans(log, source, k, newid, replace, same, kind, name);
    RenameIsFresh(log, source, k, newid, replace, same, kind, name);
    KeptSingle(items, CompactMask, |items|);
    KeptOnce(1, CompactFrame(items, begin, end), KeptOf(items, CompactMask, |items|));
    EmitsAllKept(1, CompactFrame(items, begin, end));
  }

  /** The move comes right behind the name of the entry that was created for it. */
  lemma RenameIsFresh(log: seq<Entry>, source: seq<Entry>, k: nat, newid: nat, replace: bool, same: bool, kind: Byte,
                      name: seq<Byte>)
    requires GoodList(OnDisk(log) + RenameItems(source, k, newid, replace, same, kind, name)) && kind != 0
    ensures var items := OnDisk(log) + RenameItems(source, k, newid, replace, same, kind, name);
      forall i :: 0 <= i < |items| ==> MovesAreFresh(items, CompactMask, i)
  {
    hide GoodList, KeptOf, AllBytes, Free, MovesAreFresh, OnDisk;
    var items, n := OnDisk(log) + RenameItems(source, k, newid, replace, same, kind, name), |log|;
    assert items[..n] == OnDisk(log) && items[n..] == RenameItems(source, k, newid, replace, same, kind, name);
    DiskIsBytes(log);
    assert NoLists(items, n + 3) by {
      forall i | 0 <= i < n + 3 ensures items[i].buffer.Bytes? {
        assert items[i] == if i < n then items[..n][i] else items[n..][i - n];
      }
    }
    BytesAreFresh(items, CompactMask, n + 3);
    assert items[n + 1] == items[n..][1] && items[n + 2] == items[n..][2];
    var kept := KeptOf(items, CompactMask, n + 3);
    forall key | key != NameKey ensures Free(kept, newid, key) {
      NameOnly(items, n + 1, newid, kind, name, key);
    }
    MoveIsFresh(items, n + 3, newid, k, source);
    SpliceIsFresh(items, n + 4);
  }

  lemma DiskIsBytes(log: seq<Entry>)
    ensures NoLists(OnDisk(log), |log|)
  {
  }

  lemma MoveIsFresh(items: seq<Item>, k: nat, id: nat, from: nat, source: seq<Entry>)
    requires k < |items| && items[k] == MoveItem(id, from, source)
    requires forall key :: key != NameKey ==> Free(KeptOf(items, CompactMask, k), id, key)
    ensures MovesAreFresh(items, CompactMask, k)
  {
    hide KeptOf, Free;
  }

  lemma SpliceIsFresh(items: seq<Item>, k: nat)
    requires k < |items| && items[k].buffer.Bytes? && (IsNoop(items[k].tag) || items[k].tag.kind == Splice)
    ensures MovesAreFresh(items, CompactMask, k)
  {
    hide KeptOf, Free, AllBytes;
  }

  /** After an entry was created and named nothing else is said of it. */
  lemma NameOnly(items: seq<Item>, k: nat, id: nat, kind: Byte, name: seq<Byte>, key: Key)
    requires GoodList(items) && k + 2 <= |items| && NoLists(items, k + 2) && kind != 0 && key != NameKey
    requires items[k] == CreateItem(id) && items[k + 1] == NameItem(id, kind, name)
    ensures Free(KeptOf(items, CompactMask, k + 2), id, key)
  {
    hide GoodList, FilterBy, Sieve, AllBytes, MovesAreFresh, Simple, OnTop;
    var kept := KeptOf(items, CompactMask, k);
    BytesAreFresh(items, CompactMask, k + 2);
    KeptSingle(items, CompactMask, k);
    KeptSingle(items, CompactMask, k + 1);
    NothingBelow(kept, -1, key);
    SieveFree(kept, items[k], id, key);
    SieveFree(KeptOf(items, CompactMask, k + 1), items[k + 1], id, key);
  }

  // ----- appending -----

  /** The tags of a list that are not left out. */
  function TagsOf(attrs: seq<Item>, off: nat): (log: seq<Entry>)
    requires off <= |attrs| && forall i :: 0 <= i < |attrs| ==> attrs[i].buffer.Bytes?
    decreases |attrs| - off
  {
    if off == |attrs| then []
    else if IsNoop(attrs[off].tag) then TagsOf(attrs, off + 1)
    else [Entry(attrs[off].tag, attrs[off].buffer.data)] + TagsOf(attrs, off + 1)
  }

  /** A commit appends the tags of its list as they are. */
  lemma {:induction false} CommitWrites(attrs: seq<Item>, off: nat)
    requires off <= |attrs| && forall i :: 0 <= i < |attrs| ==> attrs[i].buffer.Bytes?
    ensures EmitFrom(1, CommitFrame(attrs, off)) == TagsOf(attrs, off)
    decreases |attrs| - off
  {
    if off < |attrs| {
      CommitWrites(attrs, off + 1);
      assert CommitFrame(attrs, off).(off := off + 1) == CommitFrame(attrs, off + 1);
    }
  }

  // ----- no more and no less -----

  /** The log has for each attribute of the directory one entry, and no other. */
  ghost predicate Lists(log: seq<Entry>, dir: seq<Attrs>) {
    EachOnce(log) && (forall i :: 0 <= i < |log| ==> IsOf(log[i], dir)) &&
    forall id: nat, key :: Get(dir, id, key).Some? ==> exists i :: 0 <= i < |log| && Tells(log[i], id, key)
  }

  ghost predicate IsOf(e: Entry, dir: seq<Attrs>) {
    IsAttr(e.tag) && Get(dir, e.tag.id, KeyOf(e.tag)) == Some(ValueOf(e))
  }

  ghost predicate Tells(e: Entry, id: nat, key: Key) {
    IsAttr(e.tag) && e.tag.id == id && KeyOf(e.tag) == key
  }

  /** What a tag changes: the attribute it is for. */
  lemma AttrStep(dir: seq<Attrs>, spliced: bool, e: Entry, id: nat, key: Key)
    requires Applies(dir, spliced, e) && IsAttr(e.tag) && !IsDeleted(e.tag)
    ensures Get(Apply(dir, e), id, key) == if Tells(e, id, key) then Some(ValueOf(e)) else Get(dir, id, key)
  {
    hide Apply, Applies, Get;
    Compaction.TagMeans(dir, spliced, e, id, key);
  }

  /** Without repetitions every entry is what counts in the end. */
  lemma {:induction false} OnceCounts(log: seq<Entry>, i: nat, k: nat)
    requires WellFormed(log) && EachOnce(log) && NoRemovals(log) && i < k <= |log|
    ensures Get(ReplayTo(log, k), log[i].tag.id, KeyOf(log[i].tag)) == Some(ValueOf(log[i]))
  {
    hide Apply, Applies, WellFormed, Get, SplicedBefore, ReplayTo;
    ReplayStep(log, k);
    AppliesAt(log, k - 1);
    AttrStep(ReplayTo(log, k - 1), SplicedBefore(log, k - 1), log[k - 1], log[i].tag.id, KeyOf(log[i].tag));
    if i < k - 1 {
      OnceCounts(log, i, k - 1);
      assert !SameAttr(log[i].tag, log[k - 1].tag);
    }
  }

  /** All there is was said. */
  lemma {:induction false} AllWasSaid(log: seq<Entry>, k: nat, id: nat, key: Key) returns (i: nat)
    requires WellFormed(log) && EachOnce(log) && NoRemovals(log) && k <= |log| && Get(ReplayTo(log, k), id, key).Some?
    ensures i < k && Tells(log[i], id, key)
  {
    hide Apply, Applies, WellFormed, Get, SplicedBefore, ReplayTo;
    i := 0;
    if k == 0 {
      NothingAtStart(log, id, key);
    } else {
      ReplayStep(log, k);
      AppliesAt(log, k - 1);
      AttrStep(ReplayTo(log, k - 1), SplicedBefore(log, k - 1), log[k - 1], id, key);
      i := k - 1;
      if !Tells(log[k - 1], id, key) {
        i := AllWasSaid(log, k - 1, id, key);
      }
    }
  }

  lemma OnceLists(log: seq<Entry>)
    requires WellFormed(log) && EachOnce(log) && NoRemovals(log)
    ensures Lists(log, Replay(log))
  {
    hide WellFormed, Get, ReplayTo;
    forall i | 0 <= i < |log| ensures IsOf(log[i], Replay(log)) {
      OnceCounts(log, i, |log|);
    }
    forall id: nat, key | Get(Replay(log), id, key).Some?
      ensures exists i :: 0 <= i < |log| && Tells(log[i], id, key)
    {
      var i := AllWasSaid(log, |log|, id, key);
    }
  }

  /** What compaction writes, and so what it takes, is the attributes of the entries in
      the range and nothing else. */
  lemma CompactLists(items: seq<Item>, begin: nat, end: nat)
    requires GoodList(items) && NoLists(items, |items|) && !EndsRemoving(items, |items|)
    requires AllNamed(Meaning(items, |items|)) && begin <= end <= |Meaning(items, |items|)|
    ensures Lists(EmitFrom(1, CompactFrame(items, begin, end)), Meaning(items, |items|)[begin..end])
  {
    hide EmitFrom, WellFormed, ReplayTo, GoodList, Meaning, AllNamed, EachOnce, Lists, EndsRemoving;
    CompactDrops(items, begin, end);
    CompactKeepsMeaning(items, begin, end);
    OnceLists(EmitFrom(1, CompactFrame(items, begin, end)));
  }
}
