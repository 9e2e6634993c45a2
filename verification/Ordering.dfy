/** Every log the engine writes can be searched: compacted logs, and those to which a
    creation, a removal, a rename or new attributes were appended. */
module Ordering {
  import opened Bits
  import opened Bytes
  import opened MetaLog
  import opened Traverse
  import opened Compaction
  import opened Search
  import opened Renames

  // ----- logs without splices -----

  /** The names of the first directory are names of the second. */
  ghost predicate NamesOf(a: seq<Attrs>, b: seq<Attrs>) {
    |a| <= |b| && forall i :: 0 <= i < |a| && Named(a[i]) ==> Named(b[i]) && a[i][NameKey] == b[i][NameKey]
  }

  lemma FewerSorted(a: seq<Attrs>, b: seq<Attrs>)
    requires NamesOf(a, b) && Sorted(b)
    ensures Sorted(a)
  {
  }

  lemma NamesTransitive(a: seq<Attrs>, b: seq<Attrs>, c: seq<Attrs>)
    requires NamesOf(a, b) && NamesOf(b, c)
    ensures NamesOf(a, c)
  {
  }

  lemma ApplyKeepsNames(dir: seq<Attrs>, spliced: bool, e: Entry)
    requires Applies(dir, spliced, e) && e.tag.kind != Splice
    ensures NamesOf(dir, Apply(dir, e))
  {
  }

  lemma {:induction false} NamesGrow(log: seq<Entry>, k: nat)
    requires WellFormed(log) && !SplicedBefore(log, |log|) && k <= |log|
    ensures NamesOf(ReplayTo(log, k), Replay(log))
    decreases |log| - k
  {
    hide Apply, Applies, WellFormed, ReplayTo;
    if k == |log| {
      assert NamesOf(Replay(log), Replay(log));
    } else {
      NamesGrow(log, k + 1);
      AppliesAt(log, k);
      ReplayStep(log, k + 1);
      ApplyKeepsNames(ReplayTo(log, k), SplicedBefore(log, k), log[k]);
      NamesTransitive(ReplayTo(log, k), ReplayTo(log, k + 1), Replay(log));
    }
  }

  /** A log that only names entries was sorted throughout if it is in the end. */
  lemma PlainIsOrderly(log: seq<Entry>)
    requires Plain(log, false) && Sorted(Replay(log)) && AllNamed(Replay(log))
    ensures Orderly(log)
  {
    hide Sorted, WellFormed, ReplayTo, NamesOf;
    forall k | 0 <= k <= |log| ensures Sorted(ReplayTo(log, k)) {
      NamesGrow(log, k);
      FewerSorted(ReplayTo(log, k), Replay(log));
    }
  }

  lemma SliceSorted(dir: seq<Attrs>, begin: nat, end: nat)
    requires Sorted(dir) && AllNamed(dir) && begin <= end <= |dir|
    ensures Sorted(dir[begin..end]) && AllNamed(dir[begin..end])
  {
  }

  /** What compaction writes can be searched, in whichever order it names entries. */
  lemma CompactIsOrderly(items: seq<Item>, begin: nat, end: nat)
    requires GoodList(items) && AllNamed(Meaning(items, |items|)) && begin <= end <= |Meaning(items, |items|)|
    requires Sorted(Meaning(items, |items|))
    ensures Orderly(EmitFrom(1, CompactFrame(items, begin, end)))
  {
    hide Sorted, GoodList, Meaning, EmitFrom, ReplayTo, WellFormed, SplicedBefore, AllNamed;
    CompactKeepsMeaning(items, begin, end);
    SliceSorted(Meaning(items, |items|), begin, end);
    PlainIsOrderly(EmitFrom(1, CompactFrame(items, begin, end)));
  }

  // ----- appending -----

  /** Entries that neither name nor move others. */
  ghost predicate Quiet(es: seq<Entry>) {
    forall i :: 0 <= i < |es| ==> es[i].tag.kind != Name && es[i].tag.kind != Splice
  }

  lemma ApplyQuiet(dir: seq<Attrs>, e: Entry)
    requires Sorted(dir) && e.tag.kind != Name && e.tag.kind != Splice
    ensures Sorted(Apply(dir, e))
  {
  }

  lemma {:induction false} QuietKeepsSorted(log: seq<Entry>, es: seq<Entry>, k: nat)
    requires SortedThroughout(log) && Quiet(es) && k <= |log + es|
    ensures Sorted(ReplayTo(log + es, k))
  {
    hide Sorted, Apply;
    if k <= |log| {
      ReplayAppend(log, es, k);
    } else {
      QuietKeepsSorted(log, es, k - 1);
      ReplayStep(log + es, k);
      ApplyQuiet(ReplayTo(log + es, k - 1), es[k - 1 - |log|]);
    }
  }

  lemma {:induction false} FilteredKind(items: seq<Item>, k: nat, t: Tag)
    requires k <= |items|
    ensures FilterThrough(items, k, t).kind == t.kind || IsNoop(FilterThrough(items, k, t))
    decreases |items| - k
  {
    hide FilterBy;
    if k < |items| {
      FilterByFilters(items[k], t);
      var r := FilterBy(items[k], t);
      if !r.0 {
        if IsNoop(r.1) {
          NoopStays(items, k + 1, r.1);
        } else {
          FilteredKind(items, k + 1, r.1);
        }
      }
    }
  }

  /** A move emits structures and attributes. */
  lemma {:induction false} MoveIsQuiet(f: Frame)
    requires f.mask == MoveMask
    ensures Quiet(EmitFrom(0, f))
    decreases |f.items| - f.off
  {
    if f.off < |f.items| {
      var item, next := f.items[f.off], f.(off := f.off + 1);
      MoveIsQuiet(next);
      if Passes(f.mask, item.tag.kind) {
        FilteredKind(f.items, next.off, item.tag);
      }
    }
  }

  /** An item that neither names an entry nor splices. */
  predicate QuietItem(item: Item) {
    IsMove(item) || IsUserAttrs(item) || IsNoop(item.tag) || (item.tag.kind != Name && item.tag.kind != Splice)
  }

  lemma EmitsQuiet(f: Frame, item: Item)
    requires QuietItem(item)
    ensures Quiet(EmitOne(1, f, item))
  {
    if IsMove(item) {
      MoveIsQuiet(MoveFrame(item, f.diff));
    }
  }

  /** One item appended, when the directory is sorted after it. */
  lemma ItemKeepsSorted(log: seq<Entry>, spliced: bool, f: Frame, item: Item)
    requires SortedThroughout(log) && Plain(log, spliced) && ItemApplies(Replay(log), spliced, item)
    requires f.mask == CommitMask && f.diff == 0 && Sorted(ApplyItem(Replay(log), item))
    ensures SortedThroughout(log + EmitOne(1, f, item))
  {
    hide Sorted, WellFormed, ReplayTo, SplicedBefore, EmitFrom, Apply, Applies;
    var es := EmitOne(1, f, item);
    if QuietItem(item) {
      EmitsQuiet(f, item);
      forall k | 0 <= k <= |log + es| ensures Sorted(ReplayTo(log + es, k)) {
        QuietKeepsSorted(log, es, k);
      }
    } else {
      var e := Entry(item.tag, item.buffer.data);
      AppendTag(log, e);
      SortedNext(log, e);
    }
  }

  /** The directory is sorted after each item from `from` on. */
  ghost predicate StaysSorted(items: seq<Item>, from: nat) {
    forall k :: from <= k <= |items| ==> Sorted(Meaning(items, k))
  }

  lemma {:induction false} AppendStaysSorted(log: seq<Entry>, disk: seq<Item>, attrs: seq<Item>, off: nat)
    requires GoodList(disk + attrs) && off <= |attrs| && Compaction.Holds(log, disk + attrs, |disk| + off)
    requires SortedThroughout(log) && StaysSorted(disk + attrs, |disk| + off)
    ensures SortedThroughout(log + EmitFrom(1, CommitFrame(attrs, off)))
    decreases |attrs| - off
  {
    hide EmitOne, GoodList, Sorted, Meaning, SortedThroughout, ItemApplies, ApplyItem, WellFormed, SplicedBefore;
    if off == |attrs| {
      assert log + [] == log;
    } else {
      var items, k, f, next := disk + attrs, |disk| + off, CommitFrame(attrs, off), CommitFrame(attrs, off + 1);
      var out := EmitOne(1, next, attrs[off]);
      assert items[k] == attrs[off];
      GoodAt(items, k);
      ItemKeepsSorted(log, ItemsSpliced(items, k), next, attrs[off]);
      CommitNext(log, disk, attrs, off);
      AppendStaysSorted(log + out, disk, attrs, off + 1);
      assert f.(off := off + 1) == next;
      assert log + (out + EmitFrom(1, next)) == (log + out) + EmitFrom(1, next);
    }
  }

  /** A log to which a list was appended can be searched, if it could before and the
      directory stays sorted from item to item. */
  lemma CommitIsOrderly(log: seq<Entry>, attrs: seq<Item>)
    requires Orderly(log) && GoodList(OnDisk(log) + attrs) && StaysSorted(OnDisk(log) + attrs, |log|)
    requires AllNamed(Meaning(OnDisk(log) + attrs, |log| + |attrs|))
    ensures Orderly(log + EmitFrom(1, CommitFrame(attrs, 0)))
  {
    hide GoodList, EmitFrom, StaysSorted, WellFormed, SortedThroughout, AllNamed;
    OnDiskMeans(log, attrs, |log|);
    OnDiskSpliced(log, attrs, |log|);
    AppendStaysSorted(log, OnDisk(log), attrs, 0);
    CommitKeepsMeaning(log, attrs);
  }

  /** By either way to commit. */
  lemma EitherIsOrderly(log: seq<Entry>, attrs: seq<Item>, dir: seq<Attrs>)
    requires Orderly(log) && Reaches(OnDisk(log) + attrs, dir) && AllNamed(dir) &&
             StaysSorted(OnDisk(log) + attrs, |log|)
    ensures Orderly(log + EmitFrom(1, CommitFrame(attrs, 0)))
    ensures Orderly(EmitFrom(1, CompactFrame(OnDisk(log) + attrs, 0, |dir|)))
  {
    hide GoodList, EmitFrom, Orderly, AllNamed, Sorted, Meaning;
    CommitIsOrderly(log, attrs);
    CompactIsOrderly(OnDisk(log) + attrs, 0, |dir|);
  }

  /** What a search for the new name said: it is at `newid`, to be replaced, or
      `newid` is where it belongs. */
  ghost predicate FoundPlace(dir: seq<Attrs>, newid: nat, replace: bool, name: seq<Byte>) {
    if replace then newid < |dir| && Searchable(dir[newid]) && NameOf(dir[newid]) == name
    else newid <= |dir| && SplitsAt(dir, newid, name) && (newid < |dir| ==> Searchable(dir[newid]))
  }

  // ----- what the engine commits -----

  /** What the search finds is such a place. */
  lemma FoundIsPlace(dir: seq<Attrs>, name: seq<Byte>, r: FindResult)
    requires Finds(dir, |dir|, name, r)
    ensures FoundPlace(dir, r.id, r.Match?, name)
  {
  }

  lemma RemoveSorted(dir: seq<Attrs>, i: nat)
    requires Sorted(dir) && AllNamed(dir) && i < |dir|
    ensures Sorted(Remove(dir, i)) && AllNamed(Remove(dir, i))
  {
    var r := Remove(dir, i);
    assert forall j :: 0 <= j < |r| ==> r[j] == dir[if j < i then j else j + 1];
  }

  /** Where a list has got to. */
  lemma Reached(items: seq<Item>, more: seq<Item>, dir: seq<Attrs>)
    requires Reaches(items, dir)
    ensures Meaning(items + more, |items|) == dir
  {
    hide Meaning, GoodList;
    MeaningAppend(items, more, |items|);
  }

  /** Removing an entry. */
  lemma DeleteIsOrderly(log: seq<Entry>, k: nat)
    requires Orderly(log) && k < |Replay(log)|
    ensures Orderly(log + EmitFrom(1, CommitFrame([DeleteItem(k)], 0)))
    ensures Orderly(EmitFrom(1, CompactFrame(OnDisk(log) + [DeleteItem(k)], 0, |Replay(log)| - 1)))
  {
    hide EmitFrom, WellFormed, ReplayTo, Meaning, GoodList, Sorted, AllNamed;
    var dir, items := Replay(log), OnDisk(log) + [DeleteItem(k)];
    assert Sorted(ReplayTo(log, |log|));
    Renames.DeleteMeans(log, k);
    RemoveSorted(dir, k);
    StartsFrom(log);
    Reached(OnDisk(log), [DeleteItem(k)], dir);
    forall n | |log| <= n <= |items| ensures Sorted(Meaning(items, n)) {
      assert n == |log| || n == |items|;
    }
    EitherIsOrderly(log, [DeleteItem(k)], Remove(dir, k));
  }

  lemma QuietMeaning(dir: seq<Attrs>, spliced: bool, item: Item)
    requires Sorted(dir) && AllNamed(dir) && QuietItem(item) && ItemApplies(dir, spliced, item)
    ensures Sorted(ApplyItem(dir, item)) && AllNamed(ApplyItem(dir, item))
  {
    hide WellFormed, ReplayTo;
    assert NamesOf(dir, ApplyItem(dir, item)) && NamesOf(ApplyItem(dir, item), dir);
    FewerSorted(ApplyItem(dir, item), dir);
  }

  /** From there on only items that neither name entries nor splice. */
  ghost predicate QuietFrom(items: seq<Item>, from: nat) {
    forall i :: from <= i < |items| ==> QuietItem(items[i])
  }

  lemma {:induction false} QuietStaysSorted(items: seq<Item>, from: nat, k: nat)
    requires GoodList(items) && from <= k <= |items| && QuietFrom(items, from)
    requires Sorted(Meaning(items, from)) && AllNamed(Meaning(items, from))
    ensures Sorted(Meaning(items, k)) && AllNamed(Meaning(items, k))
  {
    hide GoodList, Sorted, AllNamed, ItemApplies, ApplyItem, QuietItem;
    if k > from {
      QuietStaysSorted(items, from, k - 1);
      GoodAt(items, k - 1);
      QuietMeaning(Meaning(items, k - 1), ItemsSpliced(items, k - 1), items[k - 1]);
    }
  }

  /** New structures and attributes: syncing a file, setting or removing attributes,
      changing the tail. */
  lemma UpdateIsOrderly(log: seq<Entry>, attrs: seq<Item>)
    requires Orderly(log) && GoodList(OnDisk(log) + attrs) && forall i :: 0 <= i < |attrs| ==> QuietItem(attrs[i])
    ensures Orderly(log + EmitFrom(1, CommitFrame(attrs, 0)))
    ensures Orderly(EmitFrom(1, CompactFrame(OnDisk(log) + attrs, 0, |Meaning(OnDisk(log) + attrs, |log| + |attrs|)|)))
  {
    hide EmitFrom, Sorted, AllNamed, Meaning, GoodList, QuietItem, WellFormed, ReplayTo;
    var items := OnDisk(log) + attrs;
    assert Sorted(ReplayTo(log, |log|));
    OnDiskMeans(log, attrs, |log|);
    forall k | |log| <= k <= |items| ensures Sorted(Meaning(items, k)) {
      QuietStaysSorted(items, |log|, k);
    }
    QuietStaysSorted(items, |log|, |items|);
    EitherIsOrderly(log, attrs, Meaning(items, |items|));
  }

  /** A new entry where the search said, with its structure and attributes. */
  lemma CreateIsOrderly(log: seq<Entry>, id: nat, kind: Byte, name: seq<Byte>, attrs: seq<Item>)
    requires Orderly(log) && FoundPlace(Replay(log), id, false, name) && 0 < kind < 128 && |name| != DELETED_SIZE
    requires forall i :: 0 <= i < |attrs| ==> QuietItem(attrs[i])
    requires GoodList(OnDisk(log) + ([CreateItem(id), NameItem(id, kind, name)] + attrs))
    ensures var list := [CreateItem(id), NameItem(id, kind, name)] + attrs;
      Orderly(log + EmitFrom(1, CommitFrame(list, 0))) &&
      Orderly(EmitFrom(1, CompactFrame(OnDisk(log) + list, 0, |Meaning(OnDisk(log) + list, |log| + |list|)|)))
  {
    hide EmitFrom, Sorted, AllNamed, Meaning, GoodList, QuietItem, WellFormed, ReplayTo, NamedAs, SplitsAt, Insert;
    var list, dir, s0 := [CreateItem(id), NameItem(id, kind, name)] + attrs, Replay(log), OnDisk(log);
    var items, from := s0 + list, |log| + 2;
    assert Sorted(ReplayTo(log, |log|));
    StartsFrom(log);
    CreateStep(s0, dir, id);
    Placed4(dir, id, kind, name, map[]);
    NameStep(s0 + [list[0]], Insert(dir, id, map[]), id, kind, name);
    assert items == s0 + [list[0]] + list[1..] == s0 + [list[0]] + [list[1]] + attrs;
    Reached(s0, list, dir);
    Reached(s0 + [list[0]], list[1..], Insert(dir, id, map[]));
    Reached(s0 + [list[0]] + [list[1]], attrs, Insert(dir, id, NamedAs(map[], kind, name)));
    PlaceStaysSorted(dir, id, kind, name, map[]);
    PlacedNamed(dir, id, map[], kind, name);
    forall k | |log| <= k <= |items| ensures Sorted(Meaning(items, k)) {
      if k >= from {
        QuietStaysSorted(items, from, k);
      } else {
        assert k == |log| || k == |log| + 1;
      }
    }
    QuietStaysSorted(items, from, |items|);
    EitherIsOrderly(log, list, Meaning(items, |items|));
  }

  // ----- renames -----

  lemma RoomSplits(dir: seq<Attrs>, newid: nat, replace: bool, name: seq<Byte>)
    requires Sorted(dir) && AllNamed(dir) && FoundPlace(dir, newid, replace, name)
    ensures var room := if replace then Remove(dir, newid) else dir;
      Sorted(room) && AllNamed(room) && newid <= |room| && SplitsAt(room, newid, name) &&
      (newid < |room| ==> Searchable(room[newid]))
  {
    if replace {
      RemoveSorted(dir, newid);
      var room := Remove(dir, newid);
      assert forall j :: 0 <= j < |room| ==> room[j] == dir[if j < newid then j else j + 1];
    }
  }

  /** The directory at each of the middle steps. */
  lemma PlaceStaysSorted(room: seq<Attrs>, newid: nat, kind: Byte, name: seq<Byte>, n: Attrs)
    requires Sorted(room) && AllNamed(room) && newid <= |room| && SplitsAt(room, newid, name)
    requires (newid < |room| ==> Searchable(room[newid])) && 0 < kind < 128
    ensures Sorted(Insert(room, newid, map[])) && Sorted(Insert(room, newid, NamedAs(map[], kind, name)))
    ensures Sorted(Insert(room, newid, NamedAs(n, kind, name)))
  {
    InsertGap(room, newid);
    InsertKeepsSorted(room, newid, name, NamedAs(map[], kind, name));
    InsertKeepsSorted(room, newid, name, NamedAs(n, kind, name));
  }

  lemma Placed4(room: seq<Attrs>, newid: nat, kind: Byte, name: seq<Byte>, n: Attrs)
    requires newid <= |room|
    ensures Insert(room, newid, map[])[newid] == map[]
    ensures Insert(room, newid, map[])[newid := NamedAs(map[], kind, name)] ==
            Insert(room, newid, NamedAs(map[], kind, name))
    ensures var named := Insert(room, newid, NamedAs(map[], kind, name));
      named[newid].Keys == {NameKey} &&
        named[newid := n[NameKey := named[newid][NameKey]]] == Insert(room, newid, NamedAs(n, kind, name))
  {
  }

  /** The directories a rename goes through. */
  lemma RenameStates(log: seq<Entry>, source: seq<Entry>, k: nat, newid: nat, replace: bool, same: bool, kind: Byte,
                     name: seq<Byte>)
    requires WellFormed(log) && AllNamed(Replay(log)) && WellFormed(source) && k < |Replay(source)| && k != DELETED_SIZE
    requires newid <= |Replay(log)| && (replace ==> newid < |Replay(log)|) && kind != 0 && |name| != DELETED_SIZE
    ensures var items := OnDisk(log) + RenameItems(source, k, newid, replace, same, kind, name);
      var room := if replace then Remove(Replay(log), newid) else Replay(log);
      newid <= |room| &&
      Meaning(items, |log|) == Replay(log) && Meaning(items, |log| + 1) == room &&
      Meaning(items, |log| + 2) == Insert(room, newid, map[]) &&
      Meaning(items, |log| + 3) == Insert(room, newid, NamedAs(map[], kind, name)) &&
      Meaning(items, |log| + 4) == Insert(room, newid, NamedAs(Replay(source)[k], kind, name))
  {
    hide Reaches, WellFormed, ReplayTo, Insert, Remove, NamedAs, AllNamed, Meaning;
    var list := RenameItems(source, k, newid, replace, same, kind, name);
    var room := if replace then Remove(Replay(log), newid) else Replay(log);
    var s0 := OnDisk(log);
    StartsFrom(log);
    IfDeleteStep(s0, Replay(log), replace, newid);
    var s1 := s0 + [list[0]];
    CreateStep(s1, room, newid);
    var s2 := s1 + [list[1]];
    Placed4(room, newid, kind, name, Replay(source)[k]);
    NameStep(s2, Insert(room, newid, map[]), newid, kind, name);
    var s3 := s2 + [list[2]];
    MoveStep(s3, Insert(room, newid, NamedAs(map[], kind, name)), newid, k, source);
    var s4 := s3 + [list[3]];
    assert list == [list[0], list[1], list[2], list[3], list[4]];
    assert s0 + list == s1 + list[1..] == s2 + list[2..] == s3 + list[3..] == s4 + list[4..];
    Reached(s0, list, Replay(log));
    Reached(s1, list[1..], room);
    Reached(s2, list[2..], Insert(room, newid, map[]));
    Reached(s3, list[3..], Insert(room, newid, NamedAs(map[], kind, name)));
    Reached(s4, list[4..], Insert(room, newid, NamedAs(Replay(source)[k], kind, name)));
  }

  /** A rename, in either of its pairs. */
  lemma RenameIsOrderly(log: seq<Entry>, source: seq<Entry>, k: nat, newid: nat, replace: bool, same: bool,
                        kind: Byte, name: seq<Byte>)
    requires Orderly(log) && WellFormed(source) && k < |Replay(source)| && k != DELETED_SIZE
    requires FoundPlace(Replay(log), newid, replace, name) && 0 < kind < 128 && |name| != DELETED_SIZE
    requires same ==> source == log && (replace ==> newid != k)
    ensures var items := RenameItems(source, k, newid, replace, same, kind, name);
      Orderly(log + EmitFrom(1, CommitFrame(items, 0))) &&
      Orderly(EmitFrom(1, CompactFrame(OnDisk(log) + items, 0, |Meaning(OnDisk(log) + items, |log| + |items|)|)))
  {
    hide EmitFrom, WellFormed, ReplayTo, Meaning, GoodList, Sorted, AllNamed, Placed, PlacedWithin, NamedAs,
      FoundPlace, StaysSorted;
    var list := RenameItems(source, k, newid, replace, same, kind, name);
    assert newid <= |Replay(log)| && (replace ==> newid < |Replay(log)|) by {
      PlaceExists(Replay(log), newid, replace, name);
    }
    RenameMeans(log, source, k, newid, replace, same, kind, name);
    RenameStaysSorted(log, source, k, newid, replace, same, kind, name);
    EitherIsOrderly(log, list, Meaning(OnDisk(log) + list, |log| + |list|));
  }

  lemma PlaceExists(dir: seq<Attrs>, newid: nat, replace: bool, name: seq<Byte>)
    requires FoundPlace(dir, newid, replace, name)
    ensures newid <= |dir| && (replace ==> newid < |dir|)
  {
  }

  lemma RenameStaysSorted(log: seq<Entry>, source: seq<Entry>, k: nat, newid: nat, replace: bool, same: bool,
                          kind: Byte, name: seq<Byte>)
    requires Orderly(log) && WellFormed(source) && k < |Replay(source)| && k != DELETED_SIZE
    requires FoundPlace(Replay(log), newid, replace, name) && 0 < kind < 128 && |name| != DELETED_SIZE
    requires same ==> source == log && (replace ==> newid != k)
    ensures StaysSorted(OnDisk(log) + RenameItems(source, k, newid, replace, same, kind, name), |log|)
  {
    hide WellFormed, ReplayTo, Meaning, GoodList, Sorted, AllNamed, Placed, PlacedWithin, NamedAs, SplitsAt,
      StaysSorted;
    var dir, list := Replay(log), RenameItems(source, k, newid, replace, same, kind, name);
    var items, n := OnDisk(log) + list, NamedAs(Replay(source)[k], kind, name);
    var room := if replace then Remove(dir, newid) else dir;
    RoomSplits(dir, newid, replace, name);
    PlaceStaysSorted(room, newid, kind, name, Replay(source)[k]);
    RenameStates(log, source, k, newid, replace, same, kind, name);
    RenameEndsSorted(log, source, k, newid, replace, same, kind, name);
    LastState(log);
    FiveSorted(items, |log|);
  }

  lemma LastState(log: seq<Entry>)
    requires Orderly(log)
    ensures Sorted(Replay(log))
  {
    assert Sorted(ReplayTo(log, |log|));
  }

  /** Whether or not the old entry was in the same pair and is deleted at last. */
  lemma RenameEndsSorted(log: seq<Entry>, source: seq<Entry>, k: nat, newid: nat, replace: bool, same: bool,
                         kind: Byte, name: seq<Byte>)
    requires Orderly(log) && WellFormed(source) && k < |Replay(source)| && k != DELETED_SIZE
    requires FoundPlace(Replay(log), newid, replace, name) && 0 < kind < 128 && |name| != DELETED_SIZE
    requires same ==> source == log && (replace ==> newid != k)
    ensures var items := OnDisk(log) + RenameItems(source, k, newid, replace, same, kind, name);
      Sorted(Meaning(items, |items|))
  {
    hide WellFormed, ReplayTo, Meaning, GoodList, Sorted, AllNamed, Placed, PlacedWithin, NamedAs, SplitsAt;
    var dir, n := Replay(log), NamedAs(Replay(source)[k], kind, name);
    var room := if replace then Remove(dir, newid) else dir;
    RoomSplits(dir, newid, replace, name);
    PlaceStaysSorted(room, newid, kind, name, Replay(source)[k]);
    RenameMeans(log, source, k, newid, replace, same, kind, name);
    PlacedIs(dir, newid, replace, n);
    if same {
      var from := if !replace && newid <= k then k + 1 else k;
      PlacedWithinIs(dir, k, newid, replace, n);
      PlacedNamed(room, newid, Replay(source)[k], kind, name);
      RemoveSorted(Placed(dir, newid, replace, n), from);
    }
  }

  lemma PlacedNamed(room: seq<Attrs>, newid: nat, n: Attrs, kind: Byte, name: seq<Byte>)
    requires AllNamed(room) && newid <= |room|
    ensures AllNamed(Insert(room, newid, NamedAs(n, kind, name)))
  {
  }

  lemma FiveSorted(items: seq<Item>, from: nat)
    requires |items| == from + 5 && Sorted(Meaning(items, from)) && Sorted(Meaning(items, from + 1)) &&
             Sorted(Meaning(items, from + 2))
    requires Sorted(Meaning(items, from + 3)) && Sorted(Meaning(items, from + 4)) && Sorted(Meaning(items, from + 5))
    ensures StaysSorted(items, from)
  {
    hide Sorted, Meaning;
    forall k | from <= k <= |items| ensures Sorted(Meaning(items, k)) {
      assert k == from || k == from + 1 || k == from + 2 || k == from + 3 || k == from + 4 || k == from + 5;
    }
  }
}
