/** Committing to a directory: appending the pending attributes to its log, or
    writing a new log from what `lfs_dir_traverse` leaves of both. The two agree
    with what the attributes mean. */
module Compaction {
  import opened Wrappers
  import opened Bits
  import opened Bytes
  import opened MetaLog
  import opened Traverse

  // ----- what pending attributes mean -----

  /** The attributes of the entry a move copies from. */
  function Source(item: Item): Attrs
    requires IsMove(item)
  {
    var dir := Replay(item.buffer.log);
    if item.tag.size < |dir| then dir[item.tag.size] else map[]
  }

  function LastAttr(attrs: seq<(Byte, seq<Byte>)>, n: nat, chunk: Byte): (r: Option<seq<Byte>>)
    requires n <= |attrs|
  {
    if n == 0 then None
    else if attrs[n - 1].0 == chunk then Some(attrs[n - 1].1)
    else LastAttr(attrs, n - 1, chunk)
  }

  /** What an item says about an attribute of its entry: nothing, that it is gone,
      or its value. */
  function Says(item: Item, key: Key): (r: Option<Option<Value>>) {
    if IsMove(item) then
      if key != NameKey && key in Source(item) then Some(Some(Source(item)[key])) else None
    else if IsUserAttrs(item) then
      if key.UserKey? && LastAttr(item.buffer.attrs, |item.buffer.attrs|, key.chunk).Some? then
        var data := LastAttr(item.buffer.attrs, |item.buffer.attrs|, key.chunk).value;
        Some(Some(Value(UserAttr, key.chunk, |data|, data)))
      else None
    else if item.buffer.Bytes? && !IsNoop(item.tag) && IsAttr(item.tag) && KeyOf(item.tag) == key then
      Some(if IsDeleted(item.tag) then None else Some(ValueOf(Entry(item.tag, item.buffer.data))))
    else None
  }

  /** The entry with what a move or a list of attributes says. */
  function Told(attrs: Attrs, item: Item): (r: Attrs)
    requires IsMove(item) || IsUserAttrs(item)
    ensures forall key :: (key in r) == match Says(item, key)
                                         case None => key in attrs
                                         case Some(v) => v.Some?
    ensures forall key :: key in r ==> (r[key] == match Says(item, key)
                                                   case None => attrs[key]
                                                   case Some(v) => v.value)
  {
    if IsMove(item) then attrs + (Source(item) - {NameKey})
    else ToldAttrs(attrs, item.buffer.attrs, |item.buffer.attrs|)
  }

  function ToldAttrs(attrs: Attrs, list: seq<(Byte, seq<Byte>)>, n: nat): (r: Attrs)
    requires n <= |list|
    ensures forall key :: (key in r) == (key in attrs || (key.UserKey? && LastAttr(list, n, key.chunk).Some?))
    ensures forall key :: key in r ==> (r[key] ==
      if key.UserKey? && LastAttr(list, n, key.chunk).Some? then
        var data := LastAttr(list, n, key.chunk).value; Value(UserAttr, key.chunk, |data|, data)
      else attrs[key])
  {
    if n == 0 then attrs
    else
      var a := list[n - 1];
      ToldAttrs(attrs, list, n - 1)[UserKey(a.0) := Value(UserAttr, a.0, |a.1|, a.1)]
  }

  /** The directory after one more item. */
  function ApplyItem(dir: seq<Attrs>, item: Item): (r: seq<Attrs>) {
    if IsMove(item) || IsUserAttrs(item) then
      if item.tag.id < |dir| then dir[item.tag.id := Told(dir[item.tag.id], item)] else dir
    else if item.buffer.Bytes? && !IsNoop(item.tag) then Apply(dir, Entry(item.tag, item.buffer.data))
    else dir
  }

  /** The directory after the first k items. */
  function Meaning(items: seq<Item>, k: nat): (dir: seq<Attrs>)
    requires k <= |items|
  {
    if k == 0 then [] else ApplyItem(Meaning(items, k - 1), items[k - 1])
  }

  /** What the engine's callers put in an attribute list: tags that apply; moves
      onto an entry that has nothing but its name; lists of attributes of a named
      entry. */
  ghost predicate ItemApplies(dir: seq<Attrs>, spliced: bool, item: Item) {
    var id := item.tag.id;
    if IsMove(item) then
      WellFormed(item.buffer.log) && item.tag.size < |Replay(item.buffer.log)| && !IsDeleted(item.tag) &&
      id < |dir| && dir[id].Keys == {NameKey}
    else if IsUserAttrs(item) then
      !IsDeleted(item.tag) && id < |dir| && Named(dir[id]) &&
      forall i :: 0 <= i < |item.buffer.attrs| ==> |item.buffer.attrs[i].1| < DELETED_SIZE
    else IsNoop(item.tag) || (item.buffer.Bytes? && Applies(dir, spliced, Entry(item.tag, item.buffer.data)))
  }

  // ----- what the filtering leaves -----

  /** The tags a traversal has kept so far, oldest first, as later items have
      left them. */
  datatype Kept = Empty | More(before: Kept, item: Item)

  function Sieve(kept: Kept, item: Item): (r: Kept) {
    match kept
    case Empty => Empty
    case More(before, early) =>
      var t := FilterBy(item, early.tag).1;
      if IsNoop(t) then Sieve(before, item) else More(Sieve(before, item), early.(tag := t))
  }

  /** What is kept of the first k items. */
  function KeptOf(items: seq<Item>, mask: Mask, k: nat): (r: Kept)
    requires k <= |items|
  {
    if k == 0 then Empty
    else
      var sieved := Sieve(KeptOf(items, mask, k - 1), items[k - 1]);
      if Passes(mask, items[k - 1].tag.kind) && !IsNoop(items[k - 1].tag) then More(sieved, items[k - 1]) else sieved
  }

  /** What a traversal emits for a list of kept tags. */
  function EmitKept(level: nat, f: Frame, kept: Kept): (out: seq<Entry>) {
    match kept
    case Empty => []
    case More(before, item) => EmitKept(level, f, before) + EmitOne(level, f, item)
  }

  /** The same with the items from `off` on still to filter. */
  function EmitThrough(level: nat, f: Frame, kept: Kept, off: nat): (out: seq<Entry>)
    requires off <= |f.items|
  {
    match kept
    case Empty => []
    case More(before, item) =>
      EmitThrough(level, f, before, off) + EmitOne(level, f, item.(tag := FilterThrough(f.items, off, item.tag)))
  }

  lemma {:induction false} NoopStays(items: seq<Item>, k: nat, t: Tag)
    requires k <= |items| && IsNoop(t)
    ensures IsNoop(FilterThrough(items, k, t))
    decreases |items| - k
  {
    if k < |items| {
      NoopFilters(items[k], t);
      if !FilterBy(items[k], t).0 {
        NoopStays(items, k + 1, FilterBy(items[k], t).1);
      }
    }
  }

  lemma NoopFilters(item: Item, t: Tag)
    requires IsNoop(t)
    ensures IsNoop(FilterBy(item, t).1)
  {
    if IsUserAttrs(item) {
      NoopFiltersAttrs(item.tag.id, item.buffer.attrs, 0, t);
    }
  }

  lemma NoopFiltersAttrs(id: nat, attrs: seq<(Byte, seq<Byte>)>, i: nat, t: Tag)
    requires IsNoop(t) && i <= |attrs|
    ensures IsNoop(FilterAttrs(id, attrs, i, t))
    decreases |attrs| - i
  {
  }

  lemma {:induction false} SieveEmits(level: nat, f: Frame, kept: Kept, off: nat)
    requires off < |f.items|
    ensures EmitThrough(level, f, kept, off) == EmitThrough(level, f, Sieve(kept, f.items[off]), off + 1)
  {
    hide EmitOne, FilterBy;
    match kept {
      case Empty =>
      case More(before, early) =>
        SieveEmits(level, f, before, off);
        var r := FilterBy(f.items[off], early.tag);
        if IsNoop(r.1) {
          NoopStays(f.items, off + 1, r.1);
          NoopEmits(level, f, early.(tag := FilterThrough(f.items, off, early.tag)));
        } else {
          StopsAtNoop(f.items[off], early.tag);
          assert early.(tag := r.1).(tag := FilterThrough(f.items, off + 1, r.1)) ==
            early.(tag := FilterThrough(f.items, off, early.tag));
        }
    }
  }

  lemma StopsAtNoop(item: Item, t: Tag)
    ensures FilterBy(item, t).0 ==> IsNoop(FilterBy(item, t).1)
  {
  }

  lemma NoopEmits(level: nat, f: Frame, item: Item)
    requires IsNoop(item.tag)
    ensures EmitOne(level, f, item) == []
  {
  }

  lemma EmitAllThrough(level: nat, f: Frame, kept: Kept)
    ensures EmitThrough(level, f, kept, |f.items|) == EmitKept(level, f, kept)
  {
  }

  /** A traversal emits the tags kept of all items. */
  lemma {:induction false} EmitsKept(level: nat, f: Frame, off: nat)
    requires off <= |f.items| && f.mask != CommitMask
    ensures EmitFrom(level, f.(off := 0)) ==
      EmitThrough(level, f, KeptOf(f.items, f.mask, off), off) + EmitFrom(level, f.(off := off))
  {
    hide EmitOne;
    if off == 0 {
    } else {
      var k := off - 1;
      EmitsKept(level, f, k);
      var kept, item := KeptOf(f.items, f.mask, k), f.items[k];
      SieveEmits(level, f, kept, k);
      var at, next := f.(off := k), f.(off := off);
      assert at.(off := at.off + 1) == next;
      if Passes(f.mask, item.tag.kind) {
        var filtered := item.(tag := FilterThrough(f.items, off, item.tag));
        EmitIgnoresOff(level, next, f, filtered);
        assert EmitFrom(level, at) == EmitOne(level, f, filtered) + EmitFrom(level, next);
        if IsNoop(item.tag) {
          NoopStays(f.items, off, item.tag);
          NoopEmits(level, f, filtered);
        }
      } else {
        assert EmitFrom(level, at) == EmitFrom(level, next);
      }
    }
  }

  lemma EmitIgnoresOff(level: nat, f: Frame, g: Frame, item: Item)
    requires f == g.(off := f.off)
    ensures EmitOne(level, f, item) == EmitOne(level, g, item)
  {
  }

  // ----- what is kept, and what it means -----

  /** What the kept tags say about an attribute: the last word counts. */
  function LastOf(kept: Kept, id: int, key: Key): (r: Option<Value>) {
    match kept
    case Empty => None
    case More(before, item) =>
      if item.tag.id == id && Says(item, key).Some? then Says(item, key).value else LastOf(before, id, key)
  }

  /** Nothing but tags with bytes, none of which says anything about the attribute. */
  ghost predicate Silent(kept: Kept, id: int, key: Key) {
    match kept
    case Empty => true
    case More(before, item) =>
      Silent(before, id, key) && item.buffer.Bytes? && !(item.tag.id == id && Says(item, key).Some?)
  }

  /** A removed attribute. */
  predicate Removes(item: Item) {
    item.buffer.Bytes? && IsDeleted(item.tag)
  }

  /** What items carry is of the size their tags say, and can be followed. */
  ghost predicate Sound(item: Item) {
    if IsMove(item) then WellFormed(item.buffer.log) && item.tag.size < |Replay(item.buffer.log)|
    else if IsUserAttrs(item) then forall i :: 0 <= i < |item.buffer.attrs| ==> |item.buffer.attrs[i].1| < DELETED_SIZE
    else item.buffer.Bytes? && (item.tag.kind == Name ==> item.tag.size == |item.buffer.data|)
  }

  /** The shape kept tags have: the name of an entry comes once, before its
      attributes; nothing is moved on top of attributes; nothing comes before the
      removal of an attribute that it would have to undo. Without names in the
      traversal the first does not apply. */
  ghost predicate Fits(before: Kept, item: Item, names: bool) {
    var id := item.tag.id;
    !IsNoop(item.tag) && Sound(item) &&
    (IsMove(item) || IsUserAttrs(item) || (item.buffer.Bytes? && IsAttr(item.tag))) &&
    (names ==> (LastOf(before, id, NameKey).None? <==> item.tag.kind == Name)) &&
    (IsMove(item) ==> forall key :: key != NameKey ==> LastOf(before, id, key) == None) &&
    (IsDeleted(item.tag) ==> item.tag.kind == UserAttr && item.buffer.Bytes? && Silent(before, id, KeyOf(item.tag)))
  }

  ghost predicate Proper(kept: Kept, names: bool) {
    match kept
    case Empty => true
    case More(before, item) => Proper(before, names) && Fits(before, item, names)
  }

  lemma SilentSaysNothing(kept: Kept, id: int, key: Key)
    requires Silent(kept, id, key)
    ensures LastOf(kept, id, key) == None
  {
  }

  // ----- later items that filter -----

  /** The id an entry with this id after the item had before it; none for the
      entry it creates. */
  function Before(item: Item, id: int): (r: int) {
    if !item.buffer.Bytes? || item.tag.kind != Splice then id
    else if IsCreate(item.tag) then (if id < item.tag.id then id else if id == item.tag.id then -1 else id - 1)
    else if id < item.tag.id then id else id + 1
  }

  /** The items of a well-formed list that make tags redundant. */
  predicate Sieving(item: Item) {
    if IsUserAttrs(item) then item.buffer.attrs != []
    else
      item.buffer.Bytes? && !IsNoop(item.tag) && item.tag.kind != From &&
      (item.tag.kind == Splice ==> IsCreate(item.tag) || IsDelete(item.tag))
  }

  predicate Speaks(item: Item, id: int, key: Key) {
    item.tag.id == id && Says(item, key).Some?
  }

  /** A kept item. */
  predicate Keepable(item: Item) {
    !IsNoop(item.tag) && (IsMove(item) || IsUserAttrs(item) || (item.buffer.Bytes? && IsAttr(item.tag))) &&
    (IsDeleted(item.tag) ==> item.buffer.Bytes?)
  }

  /** Redundant are removals, the attributes of deleted entries, and what the item
      itself says. */
  ghost predicate MadeRedundant(item: Item, early: Item) {
    IsDeleted(early.tag) || (forall id: nat :: Before(item, id) != early.tag.id) ||
    (early.buffer.Bytes? && IsAttr(early.tag) && Speaks(item, early.tag.id, KeyOf(early.tag)))
  }

  ghost predicate Moved(item: Item, t: Tag, r: Tag) {
    r == t.(id := r.id) && !IsDeleted(t) && forall id: nat :: Before(item, id) == t.id <==> id == r.id
  }

  lemma SieveOne(item: Item, early: Item)
    requires Sieving(item) && Keepable(early)
    ensures var r := FilterBy(item, early.tag).1;
      if IsNoop(r) then MadeRedundant(item, early) else Moved(item, early.tag, r)
  {
    if IsUserAttrs(item) {
      FilterAttrsSays(item.tag.id, item.buffer.attrs, 0, early.tag);
      LastAttrSome(item.buffer.attrs, |item.buffer.attrs|, early.tag.chunk);
    }
  }

  lemma LastAttrSome(attrs: seq<(Byte, seq<Byte>)>, n: nat, chunk: Byte)
    requires n <= |attrs|
    ensures LastAttr(attrs, n, chunk).Some? <==> exists i :: 0 <= i < n && attrs[i].0 == chunk
  {
  }

  lemma FilterAttrsSays(id: nat, attrs: seq<(Byte, seq<Byte>)>, i: nat, t: Tag)
    requires i <= |attrs| && !IsNoop(t)
    ensures var r := FilterAttrs(id, attrs, i, t);
      if IsNoop(r) then
        IsDeleted(t) || (t.kind == UserAttr && t.id == id && exists j :: i <= j < |attrs| && attrs[j].0 == t.chunk)
      else r == t && (i < |attrs| ==> !IsDeleted(t))
    decreases |attrs| - i
  {
  }

  /** Filtering by an item changes only what the item speaks of. */
  lemma {:induction false} SieveMeans(kept: Kept, item: Item, names: bool, id: nat, key: Key)
    requires Sieving(item) && Proper(kept, names)
    ensures !Speaks(item, id, key) ==> LastOf(Sieve(kept, item), id, key) == LastOf(kept, Before(item, id), key)
    ensures LastOf(kept, Before(item, id), key) == None ==> LastOf(Sieve(kept, item), id, key) == None
  {
    hide FilterBy, Says, Before, Sieving, Silent, IsMove, IsUserAttrs;
    match kept {
      case Empty =>
      case More(before, early) =>
        SieveMeans(before, item, names, id, key);
        SieveOne(item, early);
        SieveNext(before, early, item, names, id, key);
    }
  }

  lemma SieveNext(before: Kept, early: Item, item: Item, names: bool, id: nat, key: Key)
    requires Sieving(item) && Fits(before, early, names)
    ensures var r := FilterBy(item, early.tag).1;
      var was := LastOf(More(before, early), Before(item, id), key);
      if IsNoop(r) then
        (!Speaks(item, id, key) ==> was == LastOf(before, Before(item, id), key)) &&
        (was == None ==> LastOf(before, Before(item, id), key) == None)
      else
        was == if r.id == id && Says(early.(tag := r), key).Some? then Says(early.(tag := r), key).value
          else LastOf(before, Before(item, id), key)
  {
    SieveOne(item, early);
    if IsDeleted(early.tag) {
      SilentSaysNothing(before, early.tag.id, KeyOf(early.tag));
    }
  }

  /** An item that names an entry comes when the entry has no name yet. */
  ghost predicate NamesNew(kept: Kept, item: Item) {
    item.buffer.Bytes? && item.tag.kind == Name ==> LastOf(kept, item.tag.id, NameKey) == None
  }

  lemma {:induction false} SieveProper(kept: Kept, item: Item, names: bool)
    requires Sieving(item) && Proper(kept, names) && (names ==> NamesNew(kept, item))
    ensures Proper(Sieve(kept, item), names)
  {
    hide FilterBy, Before, Sieving, Silent;
    match kept {
      case Empty =>
      case More(before, early) =>
        SieveOne(item, early);
        NamesStayNew(before, early, item, names);
        SieveProper(before, item, names);
        if !IsNoop(FilterBy(item, early.tag).1) {
          StaysFit(before, early, item, names);
        }
    }
  }

  lemma NamesStayNew(before: Kept, early: Item, item: Item, names: bool)
    requires Fits(before, early, names) && (names ==> NamesNew(More(before, early), item))
    ensures names ==> NamesNew(before, item)
    ensures names && item.buffer.Bytes? && item.tag.kind == Name ==> early.tag.id != item.tag.id
  {
    hide Silent;
  }

  lemma BeforeSame(item: Item, id: nat)
    requires Speaks(item, id, NameKey)
    ensures Before(item, id) == id && item.buffer.Bytes? && item.tag.kind == Name
  {
  }

  lemma StaysFit(before: Kept, early: Item, item: Item, names: bool)
    requires Sieving(item) && Proper(before, names) && Fits(before, early, names)
    requires names ==> NamesNew(More(before, early), item)
    requires !IsNoop(FilterBy(item, early.tag).1)
    ensures Fits(Sieve(before, item), early.(tag := FilterBy(item, early.tag).1), names)
  {
    hide FilterBy, Before, Sieving, Silent;
    SieveOne(item, early);
    var r := FilterBy(item, early.tag).1;
    SieveMeans(before, item, names, r.id, NameKey);
    if names && Speaks(item, r.id, NameKey) {
      BeforeSame(item, r.id);
      NamesStayNew(before, early, item, names);
    }
    forall key | key != NameKey && IsMove(early) ensures LastOf(Sieve(before, item), r.id, key) == None {
      SieveMeans(before, item, names, r.id, key);
    }
  }

  // ----- following the meaning -----

  predicate Wanted(mask: Mask, key: Key) {
    mask != MoveMask || key != NameKey
  }

  /** What is kept says what the directory holds. */
  ghost predicate Agrees(kept: Kept, dir: seq<Attrs>, mask: Mask) {
    forall id: nat, key :: Wanted(mask, key) ==> LastOf(kept, id, key) == Get(dir, id, key)
  }

  ghost predicate AllBytes(kept: Kept) {
    kept.More? ==> kept.item.buffer.Bytes? && AllBytes(kept.before)
  }

  lemma TagMeans(dir: seq<Attrs>, spliced: bool, e: Entry, id: nat, key: Key)
    requires Applies(dir, spliced, e)
    ensures Get(Apply(dir, e), id, key) ==
      if IsAttr(e.tag) && e.tag.id == id && KeyOf(e.tag) == key then
        (if IsDeleted(e.tag) then None else Some(ValueOf(e)))
      else Get(dir, Before(Item(e.tag, Bytes(e.data)), id), key)
  {
  }

  lemma ListMeans(dir: seq<Attrs>, item: Item, id: nat, key: Key)
    requires (IsMove(item) || IsUserAttrs(item)) && item.tag.id < |dir|
    ensures Get(dir[item.tag.id := Told(dir[item.tag.id], item)], id, key) ==
      if Speaks(item, id, key) then Says(item, key).value else Get(dir, id, key)
  {
    hide Told, Says, IsMove, IsUserAttrs;
  }

  lemma ItemMeans(dir: seq<Attrs>, spliced: bool, item: Item, id: nat, key: Key)
    requires ItemApplies(dir, spliced, item)
    ensures Get(ApplyItem(dir, item), id, key) ==
      if Speaks(item, id, key) then Says(item, key).value else Get(dir, Before(item, id), key)
  {
    hide Get, Apply, Told;
    if IsMove(item) || IsUserAttrs(item) {
      ListMeans(dir, item, id, key);
    } else if !IsNoop(item.tag) {
      TagMeans(dir, spliced, Entry(item.tag, item.buffer.data), id, key);
    }
  }

  lemma SieveNothing(kept: Kept, item: Item, names: bool)
    requires Proper(kept, names) && (IsNoop(item.tag) || IsMove(item) || (IsUserAttrs(item) && item.buffer.attrs == []))
    ensures Sieve(kept, item) == kept
  {
  }

  lemma SieveSilent(kept: Kept, item: Item, names: bool)
    requires Proper(kept, names) && AllBytes(kept)
    requires item.buffer.Bytes? && item.tag.kind == UserAttr
    ensures Silent(Sieve(kept, item), item.tag.id, KeyOf(item.tag))
  {
  }

  lemma SieveBytes(kept: Kept, item: Item)
    requires AllBytes(kept)
    ensures AllBytes(Sieve(kept, item))
  {
  }

  /** An item that makes nothing redundant, or one that applies and sieves. */
  lemma SieveAny(kept: Kept, dir: seq<Attrs>, spliced: bool, item: Item, mask: Mask, id: nat, key: Key)
    requires Proper(kept, mask != MoveMask) && Agrees(kept, dir, mask) && ItemApplies(dir, spliced, item) &&
             Wanted(mask, key)
    ensures !Speaks(item, id, key) ==> LastOf(Sieve(kept, item), id, key) == Get(dir, Before(item, id), key)
    ensures Get(dir, Before(item, id), key) == None ==> LastOf(Sieve(kept, item), id, key) == None
  {
    hide Sieve, LastOf, Proper;
    NoEntryBelow(kept, Before(item, id), key);
    if Sieving(item) {
      SieveMeans(kept, item, mask != MoveMask, id, key);
    } else {
      SieveNothing(kept, item, mask != MoveMask);
    }
  }

  lemma NoEntryBelow(kept: Kept, id: int, key: Key)
    ensures id < 0 ==> LastOf(kept, id, key) == None
  {
  }

  lemma SieveStaysProper(kept: Kept, dir: seq<Attrs>, spliced: bool, item: Item, mask: Mask)
    requires Proper(kept, mask != MoveMask) && Agrees(kept, dir, mask) && ItemApplies(dir, spliced, item)
    ensures Proper(Sieve(kept, item), mask != MoveMask)
  {
    hide Sieve, LastOf, Proper, KeyOf;
    if Sieving(item) {
      SieveProper(kept, item, mask != MoveMask);
    } else {
      SieveNothing(kept, item, mask != MoveMask);
    }
  }

  /** Whether the item is kept, for now. */
  predicate IsKept(mask: Mask, item: Item) {
    Passes(mask, item.tag.kind) && !IsNoop(item.tag)
  }

  lemma FitsNext(kept: Kept, dir: seq<Attrs>, spliced: bool, item: Item, mask: Mask)
    requires Proper(kept, mask != MoveMask) && Agrees(kept, dir, mask) && ItemApplies(dir, spliced, item)
    requires Removes(item) ==> AllBytes(kept)
    requires mask != CommitMask && (mask == MoveMask ==> item.buffer.Bytes?)
    requires IsKept(mask, item)
    ensures Fits(Sieve(kept, item), item, mask != MoveMask)
  {
    hide Sieve, LastOf, Proper, Silent, AllBytes, Agrees;
    var id := item.tag.id;
    if mask != MoveMask {
      SieveAny(kept, dir, spliced, item, mask, id, NameKey);
    }
    forall key | IsMove(item) && key != NameKey ensures LastOf(Sieve(kept, item), id, key) == None {
      SieveAny(kept, dir, spliced, item, mask, id, key);
    }
    if IsDeleted(item.tag) {
      SieveSilent(kept, item, mask != MoveMask);
    }
  }

  lemma AgreesNext(kept: Kept, dir: seq<Attrs>, spliced: bool, item: Item, mask: Mask)
    requires Proper(kept, mask != MoveMask) && Agrees(kept, dir, mask) && ItemApplies(dir, spliced, item)
    requires mask != CommitMask && (mask == MoveMask ==> item.buffer.Bytes?)
    ensures Agrees(
              if IsKept(mask, item) then More(Sieve(kept, item), item) else Sieve(kept, item),
              ApplyItem(dir, item), mask)
  {
    hide Sieve, Proper, Says, ApplyItem, ItemApplies, Before;
    forall id: nat, key | Wanted(mask, key)
      ensures LastOf(if IsKept(mask, item) then More(Sieve(kept, item), item) else Sieve(kept, item), id, key)
        == Get(ApplyItem(dir, item), id, key)
    {
      SieveAny(kept, dir, spliced, item, mask, id, key);
      ItemMeans(dir, spliced, item, id, key);
      SpeaksKept(dir, spliced, item, mask, id, key);
    }
  }

  lemma SpeaksKept(dir: seq<Attrs>, spliced: bool, item: Item, mask: Mask, id: nat, key: Key)
    requires ItemApplies(dir, spliced, item) && (mask == MoveMask ==> item.buffer.Bytes?) && mask != CommitMask
    requires Wanted(mask, key)
    ensures Speaks(item, id, key) ==> IsKept(mask, item)
  {
  }

  // ----- well-formed lists of items -----

  ghost predicate ItemsSpliced(items: seq<Item>, k: nat)
    requires k <= |items|
  {
    exists i :: 0 <= i < k && items[i].buffer.Bytes? && items[i].tag.kind == Splice
  }

  ghost predicate NoLists(items: seq<Item>, k: nat)
    requires k <= |items|
  {
    forall i :: 0 <= i < k ==> items[i].buffer.Bytes?
  }

  /** A log followed by what the engine's callers commit: every item applies, and
      attributes are not removed behind moved or listed ones. */
  ghost predicate GoodList(items: seq<Item>) {
    forall k :: 0 <= k < |items| ==> (ItemApplies(Meaning(items, k), ItemsSpliced(items, k), items[k]) &&
      (Removes(items[k]) ==> NoLists(items, k)))
  }

  lemma GoodAt(items: seq<Item>, k: nat)
    requires GoodList(items) && k < |items|
    ensures ItemApplies(Meaning(items, k), ItemsSpliced(items, k), items[k]) &&
            (Removes(items[k]) ==> NoLists(items, k))
    ensures Meaning(items, k + 1) == ApplyItem(Meaning(items, k), items[k])
  {
  }

  lemma {:induction false} KeptBytes(items: seq<Item>, mask: Mask, k: nat)
    requires k <= |items| && NoLists(items, k)
    ensures AllBytes(KeptOf(items, mask, k))
  {
    if k > 0 {
      KeptBytes(items, mask, k - 1);
      SieveBytes(KeptOf(items, mask, k - 1), items[k - 1]);
    }
  }

  /** What is kept says what the items mean. */
  lemma {:induction false} KeptMeans(items: seq<Item>, mask: Mask, k: nat)
    requires k <= |items| && GoodList(items) && mask != CommitMask
    requires mask == MoveMask ==> NoLists(items, |items|)
    ensures Proper(KeptOf(items, mask, k), mask != MoveMask) && Agrees(KeptOf(items, mask, k), Meaning(items, k), mask)
  {
    hide Sieve, Proper, LastOf, ItemApplies, ApplyItem, GoodList;
    if k == 0 {
      KeptStart(items, mask);
    } else {
      KeptMeans(items, mask, k - 1);
      GoodAt(items, k - 1);
      var kept, dir, item := KeptOf(items, mask, k - 1), Meaning(items, k - 1), items[k - 1];
      AgreesNext(kept, dir, ItemsSpliced(items, k - 1), item, mask);
      SieveStaysProper(kept, dir, ItemsSpliced(items, k - 1), item, mask);
      if Removes(item) {
        KeptBytes(items, mask, k - 1);
      }
      if IsKept(mask, item) {
        FitsNext(kept, dir, ItemsSpliced(items, k - 1), item, mask);
        ProperNext(Sieve(kept, item), item, mask != MoveMask);
      }
    }
  }

  lemma KeptStart(items: seq<Item>, mask: Mask)
    ensures Proper(KeptOf(items, mask, 0), mask != MoveMask) && Agrees(KeptOf(items, mask, 0), Meaning(items, 0), mask)
  {
  }

  lemma ProperNext(kept: Kept, item: Item, names: bool)
    requires Proper(kept, names) && Fits(kept, item, names)
    ensures Proper(More(kept, item), names)
  {
  }

  // ----- replaying what is emitted -----

  /** A well-formed log that has splices, or none. */
  ghost predicate Plain(log: seq<Entry>, spliced: bool) {
    WellFormed(log) && SplicedBefore(log, |log|) == spliced
  }

  /** Behind `log`, `log'` also has what the item says about its entry `id`. */
  ghost predicate Adds(log: seq<Entry>, log': seq<Entry>, spliced: bool, id: nat, item: Item) {
    Plain(log', spliced) &&
      |Replay(log')| == (if item.tag.kind == Name then Max(|Replay(log)|, id + 1) else |Replay(log)|) &&
    forall i: nat, key :: Get(Replay(log'), i, key) ==
      if i == id && Says(item, key).Some? then Says(item, key).value else Get(Replay(log), i, key)
  }

  lemma AddTag(log: seq<Entry>, spliced: bool, id: nat, item: Item)
    requires Plain(log, spliced) && item.buffer.Bytes? && IsAttr(item.tag) && !IsNoop(item.tag) && Sound(item)
    requires IsDeleted(item.tag) ==> item.tag.kind == UserAttr
    requires item.tag.kind == Name ==> !spliced
    requires Get(Replay(log), id, NameKey).None? <==> item.tag.kind == Name
    ensures Adds(log, log + [Entry(item.tag.(id := id), item.buffer.data)], spliced, id, item)
  {
    hide WellFormed, ReplayTo, SplicedBefore;
    var e := Entry(item.tag.(id := id), item.buffer.data);
    AppendTag(log, e);
  }

  function ListEntries(id: nat, attrs: seq<(Byte, seq<Byte>)>): (out: seq<Entry>)
    ensures |out| == |attrs|
  {
    seq(|attrs|, i requires 0 <= i < |attrs| => UserAttrEntry(id, attrs[i]))
  }

  /** The same for the first n of a list of attributes. */
  ghost predicate AddsList(log: seq<Entry>, log': seq<Entry>, spliced: bool, id: nat, attrs: seq<(Byte, seq<Byte>)>,
                           n: nat)
    requires n <= |attrs|
  {
    Plain(log', spliced) && |Replay(log')| == |Replay(log)| &&
    forall i: nat, key :: Get(Replay(log'), i, key) ==
      if i == id && key.UserKey? && LastAttr(attrs, n, key.chunk).Some? then
        var data := LastAttr(attrs, n, key.chunk).value; Some(Value(UserAttr, key.chunk, |data|, data))
      else Get(Replay(log), i, key)
  }

  lemma {:induction false} AddList(log: seq<Entry>, spliced: bool, id: nat, attrs: seq<(Byte, seq<Byte>)>, n: nat)
    requires Plain(log, spliced) && Get(Replay(log), id, NameKey).Some? && n <= |attrs|
    requires forall i :: 0 <= i < |attrs| ==> |attrs[i].1| < DELETED_SIZE
    ensures AddsList(log, log + ListEntries(id, attrs)[..n], spliced, id, attrs, n)
  {
    hide WellFormed, ReplayTo, SplicedBefore;
    if n == 0 {
      assert log + ListEntries(id, attrs)[..n] == log;
    } else {
      AddList(log, spliced, id, attrs, n - 1);
      var log' := log + ListEntries(id, attrs)[..n - 1];
      var e := UserAttrEntry(id, attrs[n - 1]);
      assert log + ListEntries(id, attrs)[..n] == log' + [e];
      AddOneMore(log, log', spliced, id, attrs, n);
    }
  }

  lemma AddOneMore(log: seq<Entry>, log': seq<Entry>, spliced: bool, id: nat, attrs: seq<(Byte, seq<Byte>)>, n: nat)
    requires 0 < n <= |attrs| && |attrs[n - 1].1| < DELETED_SIZE
    requires AddsList(log, log', spliced, id, attrs, n - 1) && Get(Replay(log), id, NameKey).Some?
    ensures AddsList(log, log' + [UserAttrEntry(id, attrs[n - 1])], spliced, id, attrs, n)
  {
    hide WellFormed, ReplayTo, SplicedBefore;
    var e := UserAttrEntry(id, attrs[n - 1]);
    assert Get(Replay(log'), id, NameKey).Some?;
    AppendTag(log', e);
    forall i: nat, key
      ensures Get(Replay(log' + [e]), i, key)
        == if i == id && key == UserKey(e.tag.chunk) then Some(ValueOf(e)) else Get(Replay(log'), i, key)
    {
    }
  }

  // ----- replaying a move -----

  /** Nothing but structures and user attributes. */
  ghost predicate OnlyAttrs(kept: Kept) {
    kept.More? ==> OnlyAttrs(kept.before) && kept.item.buffer.Bytes? && Passes(MoveMask, kept.item.tag.kind)
  }

  lemma SieveOnlyAttrs(kept: Kept, item: Item)
    requires OnlyAttrs(kept)
    ensures OnlyAttrs(Sieve(kept, item))
  {
    if kept.More? {
      FilterByFilters(item, kept.item.tag);
    }
  }

  lemma {:induction false} KeptOnlyAttrs(items: seq<Item>, k: nat)
    requires k <= |items| && NoLists(items, k)
    ensures OnlyAttrs(KeptOf(items, MoveMask, k))
  {
    hide Sieve;
    if k > 0 {
      KeptOnlyAttrs(items, k - 1);
      SieveOnlyAttrs(KeptOf(items, MoveMask, k - 1), items[k - 1]);
    }
  }

  ghost predicate AddsMoved(log: seq<Entry>, log': seq<Entry>, spliced: bool, id: nat, kept: Kept, from: nat) {
    Plain(log', spliced) && |Replay(log')| == |Replay(log)| &&
    forall i: nat, key :: Get(Replay(log'), i, key) ==
      if i == id && key != NameKey && LastOf(kept, from, key).Some? then LastOf(kept, from, key)
      else Get(Replay(log), i, key)
  }

  /** An entry that has nothing but its name. */
  ghost predicate OnlyNamed(dir: seq<Attrs>, id: nat) {
    Get(dir, id, NameKey).Some? && forall key :: key != NameKey ==> Get(dir, id, key) == None
  }

  ghost predicate MovesTo(f: Frame, id: nat) {
    f.mask == MoveMask && f.begin >= 0 && f.end == f.begin + 1 && f.diff == id - f.begin
  }

  lemma {:induction false} AddMoved(log: seq<Entry>, spliced: bool, id: nat, f: Frame, kept: Kept)
    requires Plain(log, spliced) && OnlyNamed(Replay(log), id) && OnlyAttrs(kept) && Proper(kept, false) &&
             MovesTo(f, id)
    ensures AddsMoved(log, log + EmitKept(0, f, kept), spliced, id, kept, f.begin)
  {
    hide WellFormed, ReplayTo, SplicedBefore, LastOf, Get, Fits, EmitOne;
    match kept {
      case Empty =>
        assert log + [] == log;
        LastOfEmpty(f.begin);
      case More(before, item) =>
        AddMoved(log, spliced, id, f, before);
        assert log + EmitKept(0, f, kept) == (log + EmitKept(0, f, before)) + EmitOne(0, f, item);
        AddMovedTag(log, log + EmitKept(0, f, before), spliced, id, f, before, item);
    }
  }

  lemma LastOfEmpty(id: nat)
    ensures forall key :: LastOf(Empty, id, key) == None
  {
  }

  lemma AddMovedTag(log: seq<Entry>, log': seq<Entry>, spliced: bool, id: nat, f: Frame, before: Kept, item: Item)
    requires OnlyNamed(Replay(log), id) && MovesTo(f, id) && AddsMoved(log, log', spliced, id, before, f.begin)
    requires item.buffer.Bytes? && Passes(MoveMask, item.tag.kind) && Fits(before, item, false)
    ensures AddsMoved(log, log' + EmitOne(0, f, item), spliced, id, More(before, item), f.begin)
  {
    hide WellFormed, ReplayTo, SplicedBefore, Get;
    if item.tag.id == f.begin {
      assert Get(Replay(log'), id, NameKey).Some?;
      AddTag(log', spliced, id, item);
      if IsDeleted(item.tag) {
        SilentSaysNothing(before, f.begin, KeyOf(item.tag));
      }
    } else {
      assert log' + [] == log';
    }
  }

  // ----- logs on disk as items -----

  lemma {:induction false} OnDiskMeans(log: seq<Entry>, more: seq<Item>, k: nat)
    requires WellFormed(log) && k <= |log|
    ensures Meaning(OnDisk(log) + more, k) == ReplayTo(log, k)
  {
    hide WellFormed, Apply, Applies, SplicedBefore;
    if k > 0 {
      OnDiskMeans(log, more, k - 1);
      AppliesAt(log, k - 1);
      assert (OnDisk(log) + more)[k - 1] == Item(log[k - 1].tag, Bytes(log[k - 1].data));
      AppliedTag(ReplayTo(log, k - 1), SplicedBefore(log, k - 1), log[k - 1]);
    }
  }

  lemma AppliedTag(dir: seq<Attrs>, spliced: bool, e: Entry)
    requires Applies(dir, spliced, e)
    ensures var item := Item(e.tag, Bytes(e.data));
      ApplyItem(dir, item) == Apply(dir, e) && ItemApplies(dir, spliced, item)
  {
  }

  lemma OnDiskSpliced(log: seq<Entry>, more: seq<Item>, k: nat)
    requires k <= |log|
    ensures ItemsSpliced(OnDisk(log) + more, k) == SplicedBefore(log, k)
  {
    var items := OnDisk(log) + more;
    assert forall i :: 0 <= i < k ==> items[i] == Item(log[i].tag, Bytes(log[i].data));
  }

  /** A well-formed log is a good list up to its end. */
  lemma OnDiskGood(log: seq<Entry>, more: seq<Item>, k: nat)
    requires WellFormed(log) && k < |log|
    ensures var items := OnDisk(log) + more;
      ItemApplies(Meaning(items, k), ItemsSpliced(items, k), items[k]) && NoLists(items, k)
  {
    hide WellFormed, Applies, SplicedBefore, ItemApplies, ItemsSpliced;
    OnDiskMeans(log, more, k);
    OnDiskSpliced(log, more, k);
    AppliesAt(log, k);
    AppliedTag(ReplayTo(log, k), SplicedBefore(log, k), log[k]);
  }

  lemma LogIsGood(log: seq<Entry>)
    requires WellFormed(log)
    ensures GoodList(OnDisk(log)) && NoLists(OnDisk(log), |log|) && Meaning(OnDisk(log), |log|) == Replay(log)
  {
    hide WellFormed, ItemApplies, ItemsSpliced, Meaning;
    assert OnDisk(log) + [] == OnDisk(log);
    forall k | 0 <= k < |log|
      ensures ItemApplies(Meaning(OnDisk(log), k), ItemsSpliced(OnDisk(log), k), OnDisk(log)[k]) &&
              NoLists(OnDisk(log), k)
    {
      OnDiskGood(log, [], k);
    }
    OnDiskMeans(log, [], |log|);
  }

  // ----- moves on the whole -----

  lemma AddMove(log: seq<Entry>, spliced: bool, id: nat, item: Item, diff: int)
    requires Plain(log, spliced) && OnlyNamed(Replay(log), id) && IsMove(item) && Sound(item) &&
             item.tag.id + diff == id
    ensures Adds(log, log + EmitFrom(0, MoveFrame(item, diff)), spliced, id, item)
  {
    hide ReplayTo, WellFormed, SplicedBefore, LastOf, KeptOf, EmitKept, Proper, EmitFrom, NoLists, Meaning, GoodList;
    var f, source := MoveFrame(item, diff), item.buffer.log;
    LogIsGood(source);
    var kept := KeptOf(f.items, MoveMask, |f.items|);
    KeptMeans(f.items, MoveMask, |f.items|);
    KeptOnlyAttrs(f.items, |f.items|);
    AddMoved(log, spliced, id, f, kept);
    EmitsAllKept(0, f);
    var log' := log + EmitFrom(0, f);
    forall i: nat, key
      ensures Get(Replay(log'), i, key) ==
        if i == id && Says(item, key).Some? then Says(item, key).value else Get(Replay(log), i, key)
    {
      assert key != NameKey ==> LastOf(kept, item.tag.size, key) == Get(Replay(source), item.tag.size, key);
    }
  }

  lemma EmitsAllKept(level: nat, f: Frame)
    requires f.off == 0 && f.mask != CommitMask
    ensures EmitFrom(level, f) == EmitKept(level, f, KeptOf(f.items, f.mask, |f.items|))
  {
    hide EmitOne;
    EmitsKept(level, f, |f.items|);
    EmitAllThrough(level, f, KeptOf(f.items, f.mask, |f.items|));
    assert f.(off := 0) == f;
  }

  // ----- compaction -----

  function CompactFrame(items: seq<Item>, begin: int, end: int): Frame {
    Frame(items, 0, CompactMask, begin, end, -begin, false)
  }

  /** The log emitted so far holds what is kept of the entries in range. */
  ghost predicate Slices(log: seq<Entry>, kept: Kept, begin: nat, end: nat) {
    Plain(log, false) && |Replay(log)| <= end - begin &&
    forall i: nat, key :: i < end - begin ==> Get(Replay(log), i, key) == LastOf(kept, i + begin, key)
  }

  lemma AddItem(log: seq<Entry>, spliced: bool, id: nat, f: Frame, item: Item)
    requires Plain(log, spliced) && Sound(item) && InRange(f, item.tag) && item.tag.id + f.diff == id &&
             !IsNoop(item.tag)
    requires IsMove(item) || IsUserAttrs(item) || (item.buffer.Bytes? && IsAttr(item.tag))
    requires IsMove(item) ==> OnlyNamed(Replay(log), id)
    requires IsDeleted(item.tag) ==> item.tag.kind == UserAttr
    requires item.tag.kind == Name ==> !spliced
    requires Get(Replay(log), id, NameKey).None? <==> item.tag.kind == Name
    ensures Adds(log, log + EmitOne(1, f, item), spliced, id, item)
  {
    hide WellFormed, ReplayTo, SplicedBefore, EmitFrom, Get;
    if IsMove(item) {
      AddMove(log, spliced, id, item, f.diff);
    } else if IsUserAttrs(item) {
      var attrs := item.buffer.attrs;
      AddList(log, spliced, id, attrs, |attrs|);
      assert ListEntries(id, attrs)[..|attrs|] == ListEntries(id, attrs) == EmitOne(1, f, item);
    } else {
      AddTag(log, spliced, id, item);
    }
  }

  lemma SliceNext(log: seq<Entry>, f: Frame, begin: nat, end: nat, before: Kept, item: Item)
    requires Slices(log, before, begin, end) && Fits(before, item, true) && f == CompactFrame(f.items, begin, end)
    ensures Slices(log + EmitOne(1, f, item), More(before, item), begin, end)
  {
    hide WellFormed, ReplayTo, SplicedBefore, EmitFrom, Plain, Says;
    if InRange(f, item.tag) {
      var id: nat := item.tag.id - begin;
      assert forall key :: Get(Replay(log), id, key) == LastOf(before, id + begin, key);
      AddItem(log, false, id, f, item);
    } else {
      assert log + [] == log;
    }
  }

  lemma {:induction false} KeptSlices(f: Frame, begin: nat, end: nat, kept: Kept)
    requires Proper(kept, true) && f == CompactFrame(f.items, begin, end) && begin <= end
    ensures Slices(EmitKept(1, f, kept), kept, begin, end)
  {
    hide Slices, EmitOne, Fits;
    match kept {
      case Empty => EmptySlices(begin, end);
      case More(before, item) =>
        KeptSlices(f, begin, end, before);
        SliceNext(EmitKept(1, f, before), f, begin, end, before, item);
    }
  }

  lemma EmptySlices(begin: nat, end: nat)
    requires begin <= end
    ensures Slices([], Empty, begin, end)
  {
  }

  /** Directories of the same length that look the same are the same. */
  lemma SameEntries(a: seq<Attrs>, b: seq<Attrs>)
    requires |a| == |b| && forall i: nat, key :: Get(a, i, key) == Get(b, i, key)
    ensures a == b
  {
    forall i: nat | i < |b| ensures a[i] == b[i] {
      forall key ensures key in a[i] <==> key in b[i] {
        assert Get(a, i, key) == Get(b, i, key);
      }
      forall key | key in a[i] ensures a[i][key] == b[i][key] {
        assert Get(a, i, key) == Get(b, i, key);
      }
    }
  }

  /** So are any two, when entries have names. */
  lemma SameDirectory(a: seq<Attrs>, b: seq<Attrs>)
    requires |a| <= |b| && AllNamed(b)
    requires forall i: nat, key :: i < |b| ==> Get(a, i, key) == Get(b, i, key)
    ensures a == b
  {
    if b != [] {
      var i: nat := |b| - 1;
      assert Get(a, i, NameKey) == Get(b, i, NameKey);
    }
    SameEntries(a, b);
  }

  /** Compaction preserves meaning: what it writes for the entries in `[begin, end)`
      of a log with pending attributes replays to exactly these entries. */
  lemma CompactKeepsMeaning(items: seq<Item>, begin: nat, end: nat)
    requires GoodList(items) && AllNamed(Meaning(items, |items|)) && begin <= end <= |Meaning(items, |items|)|
    ensures var log := EmitFrom(1, CompactFrame(items, begin, end));
      Plain(log, false) && Replay(log) == Meaning(items, |items|)[begin..end]
  {
    hide ReplayTo, WellFormed, SplicedBefore, EmitFrom, Proper, KeptOf, EmitKept, GoodList, Meaning, LastOf;
    var f, dir, n := CompactFrame(items, begin, end), Meaning(items, |items|), |items|;
    EmitsAllKept(1, f);
    KeptMeans(items, CompactMask, n);
    var kept := KeptOf(items, CompactMask, n);
    KeptSlices(f, begin, end, kept);
    var log := EmitKept(1, f, kept);
    forall i: nat, key | i < end - begin ensures Get(Replay(log), i, key) == Get(dir[begin..end], i, key) {
      assert LastOf(kept, i + begin, key) == Get(dir, i + begin, key);
    }
    SameDirectory(Replay(log), dir[begin..end]);
  }

  // ----- appending to the log -----

  function CommitFrame(attrs: seq<Item>, off: nat): Frame {
    Frame(attrs, off, CommitMask, 0, 0, 0, false)
  }

  /** The log holds what the first k items mean. */
  ghost predicate Holds(log: seq<Entry>, items: seq<Item>, k: nat)
    requires k <= |items|
  {
    Plain(log, ItemsSpliced(items, k)) && Replay(log) == Meaning(items, k)
  }

  lemma CommitItem(log: seq<Entry>, spliced: bool, f: Frame, item: Item)
    requires Plain(log, spliced) && ItemApplies(Replay(log), spliced, item) && f.mask == CommitMask && f.diff == 0
    ensures var log' := log + EmitOne(1, f, item);
      Plain(log', spliced || (item.buffer.Bytes? && item.tag.kind == Splice)) &&
        Replay(log') == ApplyItem(Replay(log), item)
  {
    hide WellFormed, ReplayTo, SplicedBefore, EmitFrom, Get, Apply, Applies;
    if IsNoop(item.tag) {
      assert log + [] == log;
    } else if IsMove(item) || IsUserAttrs(item) {
      ListApplies(Replay(log), spliced, item);
      AddItem(log, spliced, item.tag.id, f, item);
      forall i: nat, key
        ensures Get(Replay(log + EmitOne(1, f, item)), i, key) == Get(ApplyItem(Replay(log), item), i, key)
      {
        ItemMeans(Replay(log), spliced, item, i, key);
      }
      SameEntries(Replay(log + EmitOne(1, f, item)), ApplyItem(Replay(log), item));
    } else {
      AppendTag(log, Entry(item.tag, item.buffer.data));
    }
  }

  lemma ListApplies(dir: seq<Attrs>, spliced: bool, item: Item)
    requires ItemApplies(dir, spliced, item) && (IsMove(item) || IsUserAttrs(item))
    ensures Get(dir, item.tag.id, NameKey).Some? && !IsDeleted(item.tag) && item.tag.kind != Name
    ensures IsMove(item) ==> OnlyNamed(dir, item.tag.id)
    ensures |ApplyItem(dir, item)| == |dir|
  {
  }

  lemma {:induction false} CommitRest(log: seq<Entry>, disk: seq<Item>, attrs: seq<Item>, off: nat)
    requires GoodList(disk + attrs) && off <= |attrs| && Holds(log, disk + attrs, |disk| + off)
    ensures Holds(log + EmitFrom(1, CommitFrame(attrs, off)), disk + attrs, |disk| + |attrs|)
    decreases |attrs| - off
  {
    hide Holds, EmitOne, GoodList;
    if off == |attrs| {
      assert log + [] == log;
    } else {
      var f, next, out := CommitFrame(attrs, off), CommitFrame(attrs, off + 1),
        EmitOne(1, CommitFrame(attrs, off + 1), attrs[off]);
      CommitNext(log, disk, attrs, off);
      CommitRest(log + out, disk, attrs, off + 1);
      assert f.(off := off + 1) == next;
      assert log + (out + EmitFrom(1, next)) == (log + out) + EmitFrom(1, next);
    }
  }

  lemma CommitNext(log: seq<Entry>, disk: seq<Item>, attrs: seq<Item>, off: nat)
    requires GoodList(disk + attrs) && off < |attrs| && Holds(log, disk + attrs, |disk| + off)
    ensures var out := EmitOne(1, CommitFrame(attrs, off + 1), attrs[off]);
      Holds(log + out, disk + attrs, |disk| + off + 1)
  {
    hide WellFormed, ReplayTo, EmitOne, ApplyItem, ItemApplies, GoodList, SplicedBefore, Meaning;
    var items, k, item := disk + attrs, |disk| + off, attrs[off];
    assert items[k] == item;
    GoodAt(items, k);
    CommitItem(log, ItemsSpliced(items, k), CommitFrame(attrs, off + 1), item);
  }

  /** Committing preserves meaning: the log followed by what is appended for the
      pending attributes replays to what the two mean. */
  lemma CommitKeepsMeaning(log: seq<Entry>, attrs: seq<Item>)
    requires WellFormed(log) && GoodList(OnDisk(log) + attrs)
    ensures Holds(log + EmitFrom(1, CommitFrame(attrs, 0)), OnDisk(log) + attrs, |log| + |attrs|)
  {
    hide WellFormed, GoodList, EmitFrom;
    var items := OnDisk(log) + attrs;
    OnDiskMeans(log, attrs, |log|);
    OnDiskSpliced(log, attrs, |log|);
    CommitRest(log, OnDisk(log), attrs, 0);
  }

  // ----- the two ways to commit -----

  lemma OuterFrame(f: Frame)
    requires !f.filter && f.mask != MoveMask
    ensures Outer(f)
  {
  }

  /** The traversal of `lfs_dir_relocatingcommit` that appends to the log, in the
      room that is left in the block. */
  method Append(log: seq<Entry>, attrs: seq<Item>, room: nat) returns (fits: bool, log': seq<Entry>)
    requires WellFormed(log) && GoodList(OnDisk(log) + attrs)
    ensures fits <==> SpaceOf(EmitFrom(1, CommitFrame(attrs, 0))) <= room
    ensures fits ==> WellFormed(log') && log <= log' && Replay(log') == Meaning(OnDisk(log) + attrs, |log| + |attrs|)
    ensures fits ==> SpaceOf(log'[|log|..]) <= room
    ensures !fits ==> log' == log
  {
    hide SpaceOf, EmitFrom, Meaning, GoodList, WellFormed, ReplayTo, Outer;
    OuterFrame(CommitFrame(attrs, 0));
    var out, size;
    fits, out, size := Traverse.Traverse(CommitFrame(attrs, 0), Some(room));
    if fits {
      CommitKeepsMeaning(log, attrs);
      log' := log + out;
      assert log'[|log|..] == out;
    } else {
      log' := log;
    }
  }

  /** The traversal of `lfs_dir_compact` that writes the entries in `[begin, end)`
      to an empty block. */
  method Compact(items: seq<Item>, begin: nat, end: nat, room: int) returns (fits: bool, log: seq<Entry>)
    requires GoodList(items) && AllNamed(Meaning(items, |items|)) && begin <= end <= |Meaning(items, |items|)|
    ensures fits <==> SpaceOf(EmitFrom(1, CompactFrame(items, begin, end))) <= room
    ensures fits ==> WellFormed(log) && Replay(log) == Meaning(items, |items|)[begin..end]
    ensures fits ==> log == EmitFrom(1, CompactFrame(items, begin, end)) && SpaceOf(log) <= room
  {
    hide SpaceOf, EmitFrom, Meaning, GoodList, WellFormed, ReplayTo, Outer;
    if room < 0 {
      return false, [];
    }
    var f := CompactFrame(items, begin, end);
    OuterFrame(f);
    var size;
    fits, log, size := Traverse.Traverse(f, Some(room));
    CompactKeepsMeaning(items, begin, end);
  }
}
