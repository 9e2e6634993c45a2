/** The attributes that operations commit to a directory, and what they mean: an
    entry moved with all it has but its name, a new entry, one that goes. */
module Renames {
  import opened Bits
  import opened Bytes
  import opened MetaLog
  import opened Traverse
  import opened Compaction

  function DeleteItem(id: nat): Item {
    Item(Tag(Splice, DELETE, id, 0), Bytes([]))
  }

  function CreateItem(id: nat): Item {
    Item(Tag(Splice, CREATE, id, 0), Bytes([]))
  }

  function NameItem(id: nat, kind: Byte, name: seq<Byte>): Item {
    Item(Tag(Name, kind, id, |name|), Bytes(name))
  }

  function MoveItem(id: nat, from: nat, source: seq<Entry>): Item {
    Item(Tag(From, FROM_MOVE, id, from), Directory(source))
  }

  /** `LFS_MKTAG_IF`. */
  function If(b: bool, item: Item): Item {
    if b then item else Item(NOOP, Bytes([]))
  }

  /** The list of `lfs_rawrename`: `same` when entry k is in the same pair, where a
      new entry in front of it moves it. */
  function RenameItems(source: seq<Entry>, k: nat, newid: nat, replace: bool, same: bool, kind: Byte,
                       name: seq<Byte>): seq<Item> {
    var from := if !replace && newid <= k then k + 1 else k;
    [If(replace, DeleteItem(newid)), CreateItem(newid), NameItem(newid, kind, name), MoveItem(newid, k, source),
      If(same, DeleteItem(from))]
  }

  /** The attributes with another name. */
  function NamedAs(attrs: Attrs, kind: Byte, name: seq<Byte>): Attrs {
    attrs[NameKey := Value(Name, kind, |name|, name)]
  }

  /** The directory after a list of items that all apply. */
  ghost predicate Reaches(items: seq<Item>, dir: seq<Attrs>) {
    GoodList(items) && Meaning(items, |items|) == dir
  }

  lemma {:induction false} MeaningAppend(items: seq<Item>, more: seq<Item>, k: nat)
    requires k <= |items|
    ensures Meaning(items + more, k) == Meaning(items, k) && (ItemsSpliced(items + more, k) <==> ItemsSpliced(items, k))
    ensures NoLists(items + more, k) <==> NoLists(items, k)
  {
    hide ApplyItem;
    assert forall i :: 0 <= i < k ==> (items + more)[i] == items[i];
    if k > 0 {
      MeaningAppend(items, more, k - 1);
    }
  }

  lemma OneMore(items: seq<Item>, dir: seq<Attrs>, item: Item)
    requires Reaches(items, dir) && ItemApplies(dir, ItemsSpliced(items, |items|), item) && !Removes(item)
    ensures Reaches(items + [item], ApplyItem(dir, item))
    ensures ItemsSpliced(items + [item], |items| + 1) <==>
            ItemsSpliced(items, |items|) || (item.buffer.Bytes? && item.tag.kind == Splice)
  {
    hide ApplyItem, ItemApplies, Removes, NoLists;
    var items' := items + [item];
    MeaningAppend(items, [item], |items|);
    assert items'[|items|] == item;
    forall k | 0 <= k < |items'|
      ensures ItemApplies(Meaning(items', k), ItemsSpliced(items', k), items'[k]) &&
              (Removes(items'[k]) ==> NoLists(items', k))
    {
      MeaningAppend(items, [item], k);
      if k < |items| {
        GoodAt(items, k);
      }
    }
    SplicedOneMore(items, item);
  }

  lemma SplicedOneMore(items: seq<Item>, item: Item)
    ensures ItemsSpliced(items + [item], |items| + 1) <==>
            ItemsSpliced(items, |items|) || (item.buffer.Bytes? && item.tag.kind == Splice)
  {
    var items' := items + [item];
    assert items'[|items|] == item && forall i :: 0 <= i < |items| ==> items'[i] == items[i];
  }

  lemma StartsFrom(log: seq<Entry>)
    requires WellFormed(log)
    ensures Reaches(OnDisk(log), Replay(log))
  {
    hide WellFormed, GoodList, Meaning;
    LogIsGood(log);
  }

  // ----- the steps of a rename -----

  lemma DeleteStep(items: seq<Item>, dir: seq<Attrs>, id: nat)
    requires Reaches(items, dir) && AllNamed(dir) && id < |dir|
    ensures Reaches(items + [DeleteItem(id)], Remove(dir, id)) && AllNamed(Remove(dir, id))
  {
    hide Meaning, GoodList, ItemsSpliced;
    OneMore(items, dir, DeleteItem(id));
  }

  lemma CreateStep(items: seq<Item>, dir: seq<Attrs>, id: nat)
    requires Reaches(items, dir) && AllNamed(dir) && id <= |dir|
    ensures Reaches(items + [CreateItem(id)], Insert(dir, id, map[]))
  {
    hide Meaning, GoodList, ItemsSpliced;
    OneMore(items, dir, CreateItem(id));
  }

  lemma NameStep(items: seq<Item>, dir: seq<Attrs>, id: nat, kind: Byte, name: seq<Byte>)
    requires Reaches(items, dir) && id < |dir| && dir[id] == map[] && kind != 0 && |name| != DELETED_SIZE
    ensures Reaches(items + [NameItem(id, kind, name)], dir[id := NamedAs(map[], kind, name)])
  {
    hide Meaning, GoodList, ItemsSpliced;
    OneMore(items, dir, NameItem(id, kind, name));
    assert dir[id := map[]] == dir;
  }

  lemma MoveStep(items: seq<Item>, dir: seq<Attrs>, id: nat, k: nat, source: seq<Entry>)
    requires Reaches(items, dir) && id < |dir| && dir[id].Keys == {NameKey}
    requires WellFormed(source) && k < |Replay(source)| && k != DELETED_SIZE
    ensures Reaches(items + [MoveItem(id, k, source)], dir[id := Replay(source)[k][NameKey := dir[id][NameKey]]])
  {
    hide Meaning, GoodList, ItemsSpliced, WellFormed, ReplayTo;
    var item := MoveItem(id, k, source);
    OneMore(items, dir, item);
    assert dir[id] + (Source(item) - {NameKey}) == Replay(source)[k][NameKey := dir[id][NameKey]];
    assert ApplyItem(dir, item) == dir[id := Replay(source)[k][NameKey := dir[id][NameKey]]];
  }

  lemma NoopStep(items: seq<Item>, dir: seq<Attrs>)
    requires Reaches(items, dir)
    ensures Reaches(items + [Item(NOOP, Bytes([]))], dir)
  {
    hide Meaning, GoodList, ItemsSpliced;
    OneMore(items, dir, Item(NOOP, Bytes([])));
  }

  lemma IfDeleteStep(items: seq<Item>, dir: seq<Attrs>, b: bool, id: nat)
    requires Reaches(items, dir) && AllNamed(dir) && (b ==> id < |dir|)
    ensures var dir' := if b then Remove(dir, id) else dir;
      Reaches(items + [If(b, DeleteItem(id))], dir') && AllNamed(dir')
  {
    hide Reaches;
    if b {
      DeleteStep(items, dir, id);
    } else {
      NoopStep(items, dir);
    }
  }

  /** A new entry that takes its attributes from elsewhere. */
  lemma PlaceSteps(items: seq<Item>, dir: seq<Attrs>, id: nat, kind: Byte, name: seq<Byte>, k: nat, source: seq<Entry>)
    requires Reaches(items, dir) && AllNamed(dir) && id <= |dir| && kind != 0 && |name| != DELETED_SIZE
    requires WellFormed(source) && k < |Replay(source)| && k != DELETED_SIZE
    ensures var n := NamedAs(Replay(source)[k], kind, name);
      Reaches(items + [CreateItem(id)] + [NameItem(id, kind, name)] + [MoveItem(id, k, source)], Insert(dir, id, n)) &&
      AllNamed(Insert(dir, id, n))
  {
    hide Reaches, WellFormed, ReplayTo;
    var dir1 := Insert(dir, id, map[]);
    CreateStep(items, dir, id);
    assert dir1[id] == map[];
    NameStep(items + [CreateItem(id)], dir1, id, kind, name);
    var dir2 := dir1[id := NamedAs(map[], kind, name)];
    assert dir2[id].Keys == {NameKey};
    MoveStep(items + [CreateItem(id)] + [NameItem(id, kind, name)], dir2, id, k, source);
    var n := NamedAs(Replay(source)[k], kind, name);
    assert dir2[id := n] == Insert(dir, id, n);
  }

  /** The list of `lfs_rawrename` does what it is for: in another pair it places the
      entry there with all its attributes under the new name; in the same pair it
      changes nothing but the name. */
  lemma RenameMeans(log: seq<Entry>, source: seq<Entry>, k: nat, newid: nat, replace: bool, same: bool, kind: Byte,
                    name: seq<Byte>)
    requires WellFormed(log) && AllNamed(Replay(log)) && WellFormed(source) && k < |Replay(source)| && k != DELETED_SIZE
    requires newid <= |Replay(log)| && (replace ==> newid < |Replay(log)|) && kind != 0 && |name| != DELETED_SIZE
    requires same ==> source == log && (replace ==> newid != k)
    ensures var dir, n := Replay(log), NamedAs(Replay(source)[k], kind, name);
      var dir' := if same then PlacedWithin(dir, k, newid, replace, n) else Placed(dir, newid, replace, n);
      Reaches(OnDisk(log) + RenameItems(source, k, newid, replace, same, kind, name), dir') && AllNamed(dir')
  {
    hide Reaches, WellFormed, ReplayTo, PlacedWithin, Insert, Remove, NamedAs, AllNamed;
    var dir, n := Replay(log), NamedAs(Replay(source)[k], kind, name);
    var from := if !replace && newid <= k then k + 1 else k;
    var room := if replace then Remove(dir, newid) else dir;
    var s0 := OnDisk(log);
    StartsFrom(log);
    IfDeleteStep(s0, dir, replace, newid);
    var s1 := s0 + [If(replace, DeleteItem(newid))];
    PlaceSteps(s1, room, newid, kind, name, k, source);
    var s4 := s1 + [CreateItem(newid)] + [NameItem(newid, kind, name)] + [MoveItem(newid, k, source)];
    PlacedIs(dir, newid, replace, n);
    if same {
      PlacedWithinIs(dir, k, newid, replace, n);
    }
    IfDeleteStep(s4, Placed(dir, newid, replace, n), same, from);
    assert s4 + [If(same, DeleteItem(from))] == OnDisk(log) + RenameItems(source, k, newid, replace, same, kind, name);
  }

  /** The list of `lfs_rawremove`, and of the second commit of a rename. */
  lemma DeleteMeans(log: seq<Entry>, k: nat)
    requires WellFormed(log) && AllNamed(Replay(log)) && k < |Replay(log)|
    ensures Reaches(OnDisk(log) + [DeleteItem(k)], Remove(Replay(log), k)) && AllNamed(Remove(Replay(log), k))
  {
    hide Reaches, WellFormed, ReplayTo;
    StartsFrom(log);
    DeleteStep(OnDisk(log), Replay(log), k);
  }

  // ----- both ways to commit a rename -----

  /** Whether the list is appended to the log or the log compacted with it, the pair
      replays to the same: the old directory with the entry renamed. */
  lemma RenameCommits(log: seq<Entry>, source: seq<Entry>, k: nat, newid: nat, replace: bool, same: bool, kind: Byte,
                      name: seq<Byte>)
    requires WellFormed(log) && AllNamed(Replay(log)) && WellFormed(source) && k < |Replay(source)| && k != DELETED_SIZE
    requires newid <= |Replay(log)| && (replace ==> newid < |Replay(log)|) && kind != 0 && |name| != DELETED_SIZE
    requires same ==> source == log && (replace ==> newid != k)
    ensures var dir, n := Replay(log), NamedAs(Replay(source)[k], kind, name);
      var dir' := if same then PlacedWithin(dir, k, newid, replace, n) else Placed(dir, newid, replace, n);
      var items := RenameItems(source, k, newid, replace, same, kind, name);
      var appended, compacted := log + EmitFrom(1, CommitFrame(items, 0)),
        EmitFrom(1, CompactFrame(OnDisk(log) + items, 0, |dir'|));
      WellFormed(appended) && Replay(appended) == dir' && WellFormed(compacted) && Replay(compacted) == dir'
  {
    hide WellFormed, ReplayTo, EmitFrom, PlacedWithin, Placed, NamedAs, Meaning, GoodList, AllNamed, SplicedBefore,
      ItemsSpliced;
    RenameMeans(log, source, k, newid, replace, same, kind, name);
    var items := RenameItems(source, k, newid, replace, same, kind, name);
    var all := OnDisk(log) + items;
    CommitKeepsMeaning(log, items);
    CompactKeepsMeaning(all, 0, |Meaning(all, |all|)|);
  }
}
