/** The metadata log of a directory: tags, what replaying them means, and the
    backward lookup `lfs_dir_getslice`. */
module MetaLog {
  import opened Wrappers
  import opened Bits
  import opened Bytes

  // The upper three bits of the 11-bit type, in the order of their values.
  datatype Kind = Name | From | Struct | UserAttr | Splice | Crc | Tail | Globals

  /** A tag: kind and chunk make up the type. */
  datatype Tag = Tag(kind: Kind, chunk: Byte, id: nat, size: nat)

  datatype Entry = Entry(tag: Tag, data: seq<Byte>)

  const CREATE: Byte := 0x01
  const DELETE: Byte := 0xff
  const SUPERBLOCK: Byte := 0xff
  const DELETED_SIZE := 0x3ff

  predicate IsCreate(t: Tag) {
    t.kind == Splice && t.chunk == CREATE
  }

  predicate IsDelete(t: Tag) {
    t.kind == Splice && t.chunk == DELETE
  }

  /** A tag saying that an attribute is gone. */
  predicate IsDeleted(t: Tag) {
    t.size == DELETED_SIZE
  }

  /** By how much a splice moves later ids: the chunk as a signed byte. */
  function SpliceBy(t: Tag): (r: int) {
    if t.chunk < 128 then t.chunk else t.chunk - 256
  }

  /** What an attribute of an entry is stored under: one name, one structure,
      and a user attribute for each type. */
  datatype Key = NameKey | StructKey | UserKey(chunk: Byte)

  predicate IsAttr(t: Tag) {
    t.kind == Name || t.kind == Struct || t.kind == UserAttr
  }

  function KeyOf(t: Tag): Key
    requires IsAttr(t)
  {
    match t.kind
    case Name => NameKey
    case Struct => StructKey
    case UserAttr => UserKey(t.chunk)
  }

  // ----- replaying -----

  /** A stored attribute: its type and size, and its bytes. */
  datatype Value = Value(kind: Kind, chunk: Byte, size: nat, data: seq<Byte>)

  function ValueOf(e: Entry): Value {
    Value(e.tag.kind, e.tag.chunk, e.tag.size, e.data)
  }

  /** The attributes of one directory entry. */
  type Attrs = map<Key, Value>

  function Insert<T>(s: seq<T>, i: nat, x: T): (r: seq<T>)
    requires i <= |s|
    ensures |r| == |s| + 1
  {
    s[..i] + [x] + s[i..]
  }

  function Remove<T>(s: seq<T>, i: nat): (r: seq<T>)
    requires i < |s|
    ensures |r| == |s| - 1
  {
    s[..i] + s[i + 1..]
  }

  /** The entries with one in a new place, or in the place of another. */
  function Placed<T>(nodes: seq<T>, newid: nat, replace: bool, n: T): (r: seq<T>)
    requires newid <= |nodes| && (replace ==> newid < |nodes|)
    ensures |r| == |nodes| + if replace then 0 else 1
  {
    if replace then nodes[newid := n] else Insert(nodes, newid, n)
  }

  /** The entries of a pair with only the name of entry k changed, and its place. */
  function PlacedWithin<T>(nodes: seq<T>, k: nat, newid: nat, replace: bool, n: T): (r: seq<T>)
    requires k < |nodes| && newid <= |nodes| && (replace ==> newid < |nodes| && newid != k)
  {
    if replace then Remove(nodes[newid := n], k)
    else Insert(Remove(nodes, k), if newid <= k then newid else newid - 1, n)
  }

  lemma PlacedIs<T>(nodes: seq<T>, newid: nat, replace: bool, n: T)
    requires newid <= |nodes| && (replace ==> newid < |nodes|)
    ensures Placed(nodes, newid, replace, n) == Insert(if replace then Remove(nodes, newid) else nodes, newid, n)
  {
  }

  lemma InsertThenRemove<T>(nodes: seq<T>, k: nat, newid: nat, n: T)
    requires k < |nodes| && newid <= |nodes|
    ensures newid <= k ==> Insert(Remove(nodes, k), newid, n) == Remove(Insert(nodes, newid, n), k + 1)
    ensures newid > k ==> Insert(Remove(nodes, k), newid - 1, n) == Remove(Insert(nodes, newid, n), k)
  {
    if newid <= k {
      var a, b := Insert(Remove(nodes, k), newid, n), Remove(Insert(nodes, newid, n), k + 1);
      assert forall i :: 0 <= i < |a| ==> a[i] == b[i];
    } else {
      var a, b := Insert(Remove(nodes, k), newid - 1, n), Remove(Insert(nodes, newid, n), k);
      assert forall i :: 0 <= i < |a| ==> a[i] == b[i];
    }
  }

  /** Placing an entry and deleting the old one, whose id may have moved. */
  lemma PlacedWithinIs<T>(nodes: seq<T>, k: nat, newid: nat, replace: bool, n: T)
    requires k < |nodes| && newid <= |nodes| && (replace ==> newid < |nodes| && newid != k)
    ensures var from := if !replace && newid <= k then k + 1 else k;
      PlacedWithin(nodes, k, newid, replace, n) == Remove(Placed(nodes, newid, replace, n), from) &&
      Placed(nodes, newid, replace, n)[from] == nodes[k]
  {
    if !replace {
      hide Remove;
      InsertThenRemove(nodes, k, newid, n);
    }
  }

  /** Room for entry `id`, with empty entries in the gap. */
  function Extend(dir: seq<Attrs>, id: nat): (r: seq<Attrs>)
    ensures |r| == Max(|dir|, id + 1)
  {
    if id < |dir| then dir else dir + seq(id + 1 - |dir|, _ => map[])
  }

  function SetAttr(attrs: Attrs, e: Entry): Attrs
    requires IsAttr(e.tag)
  {
    if IsDeleted(e.tag) then attrs - {KeyOf(e.tag)} else attrs[KeyOf(e.tag) := ValueOf(e)]
  }

  /** The effect of one tag: splices insert and remove entries, names and
      attributes are stored with their entry, a name also makes room for it. */
  function Apply(dir: seq<Attrs>, e: Entry): (r: seq<Attrs>) {
    var id := e.tag.id;
    if IsCreate(e.tag) then (if id <= |dir| then Insert(dir, id, map[]) else dir)
    else if IsDelete(e.tag) then (if id < |dir| then Remove(dir, id) else dir)
    else if e.tag.kind == Name then
      var room := Extend(dir, id);
      room[id := SetAttr(room[id], e)]
    else if IsAttr(e.tag) && id < |dir| then dir[id := SetAttr(dir[id], e)]
    else dir
  }

  /** The directory after the first k tags. */
  function ReplayTo(log: seq<Entry>, k: nat): (dir: seq<Attrs>)
    requires k <= |log|
  {
    if k == 0 then [] else Apply(ReplayTo(log, k - 1), log[k - 1])
  }

  function Replay(log: seq<Entry>): (dir: seq<Attrs>) {
    ReplayTo(log, |log|)
  }

  // ----- well-formed logs -----

  predicate Named(attrs: Attrs) {
    NameKey in attrs
  }

  ghost predicate AllNamed(dir: seq<Attrs>) {
    forall i :: 0 <= i < |dir| ==> Named(dir[i])
  }

  ghost predicate SplicedBefore(log: seq<Entry>, k: nat)
    requires k <= |log|
  {
    exists i :: 0 <= i < k && log[i].tag.kind == Splice
  }

  /** What the engine ever appends: splices when all entries have names; a name
      for an entry without one, which after the first splice must have been
      created; attributes of named entries; only user attributes are deleted. */
  ghost predicate Applies(dir: seq<Attrs>, spliced: bool, e: Entry) {
    var t := e.tag;
    match t.kind
    case Splice => AllNamed(dir) && t.size == 0 &&
      ((t.chunk == CREATE && t.id <= |dir|) || (t.chunk == DELETE && t.id < |dir|))
    case Name => t.chunk != 0 && !IsDeleted(t) && t.size == |e.data| && (t.id < |dir| ==> !Named(dir[t.id])) &&
      (spliced ==> t.id < |dir|)
    case Struct => !IsDeleted(t) && t.id < |dir| && Named(dir[t.id])
    case UserAttr => t.id < |dir| && Named(dir[t.id])
    case From => false
    case _ => true
  }

  ghost predicate WellFormed(log: seq<Entry>) {
    forall k :: 0 <= k < |log| ==> Applies(ReplayTo(log, k), SplicedBefore(log, k), log[k])
  }

  lemma ReplayStep(log: seq<Entry>, k: nat)
    requires 0 < k <= |log|
    ensures ReplayTo(log, k) == Apply(ReplayTo(log, k - 1), log[k - 1])
  {
  }

  lemma AppliesAt(log: seq<Entry>, k: nat)
    requires WellFormed(log) && k < |log|
    ensures Applies(ReplayTo(log, k), SplicedBefore(log, k), log[k])
  {
  }

  lemma {:induction false} ReplayAppend(log: seq<Entry>, more: seq<Entry>, k: nat)
    requires k <= |log|
    ensures ReplayTo(log + more, k) == ReplayTo(log, k)
  {
    if k > 0 { ReplayAppend(log, more, k - 1); }
  }

  /** Appending a tag that applies. */
  lemma AppendTag(log: seq<Entry>, e: Entry)
    requires WellFormed(log) && Applies(Replay(log), SplicedBefore(log, |log|), e)
    ensures WellFormed(log + [e]) && Replay(log + [e]) == Apply(Replay(log), e)
    ensures forall k :: 0 <= k <= |log| ==> ReplayTo(log + [e], k) == ReplayTo(log, k)
    ensures SplicedBefore(log + [e], |log| + 1) <==> SplicedBefore(log, |log|) || e.tag.kind == Splice
  {
    hide Apply, Applies, ReplayTo, SplicedBefore;
    var log' := log + [e];
    forall k | 0 <= k <= |log|
      ensures ReplayTo(log', k) == ReplayTo(log, k) && SplicedBefore(log', k) == SplicedBefore(log, k)
    {
      ReplayAppend(log, [e], k);
      SplicedAppend(log, e, k);
    }
    SplicedAppend(log, e, |log|);
    ReplayStep(log', |log'|);
    assert log'[|log|] == e;
    forall k | 0 <= k < |log'| ensures Applies(ReplayTo(log', k), SplicedBefore(log', k), log'[k]) {
      if k < |log| { AppliesAt(log, k); }
    }
  }

  lemma SplicedAppend(log: seq<Entry>, e: Entry, k: nat)
    requires k <= |log|
    ensures SplicedBefore(log + [e], k) == SplicedBefore(log, k)
    ensures SplicedBefore(log + [e], |log| + 1) <==> SplicedBefore(log, |log|) || e.tag.kind == Splice
  {
    assert forall i :: 0 <= i < |log| ==> (log + [e])[i] == log[i];
    assert (log + [e])[|log|] == e;
  }

  // ----- lookup -----

  /** The reference lookup: the attribute of entry `id` after replaying. */
  function Get(dir: seq<Attrs>, id: int, key: Key): (r: Option<Value>) {
    if 0 <= id < |dir| && key in dir[id] then Some(dir[id][key]) else None
  }

  /** A directory as it is seen while the move of entry `moved` is pending. */
  function Hide(dir: seq<Attrs>, moved: Option<nat>): (r: seq<Attrs>) {
    if moved.Some? && moved.value < |dir| then Remove(dir, moved.value) else dir
  }

  /** Before a tag, the entry known as `id` behind it had this id. */
  function IdBefore(t: Tag, id: int): (r: int) {
    if t.kind == Splice && t.id <= id then id - SpliceBy(t) else id
  }

  /** The masks the engine looks up with: the kind of a name or a structure,
      the exact type of a user attribute, and in all cases the id. */
  predicate Matches(t: Tag, key: Key, id: int) {
    IsAttr(t) && KeyOf(t) == key && t.id == id
  }

  /** `now` is what a lookup behind tag e gives, in terms of one before it. */
  ghost predicate LooksBack(e: Entry, id: nat, key: Key, before: seq<Attrs>, now: Option<Value>) {
    if IsCreate(e.tag) && e.tag.id == id then now == None
    else if Matches(e.tag, key, id) then now == if IsDeleted(e.tag) then None else Some(ValueOf(e))
    else IdBefore(e.tag, id) >= 0 && now == Get(before, IdBefore(e.tag, id), key)
  }

  lemma StepBack(dir: seq<Attrs>, spliced: bool, e: Entry, id: nat, key: Key)
    requires Applies(dir, spliced, e)
    ensures LooksBack(e, id, key, dir, Get(Apply(dir, e), id, key))
  {
  }

  /** A buffer of the wanted size: the stored bytes cut off or filled with zeros. */
  function Fit(data: seq<Byte>, size: nat): (r: seq<Byte>)
    ensures |r| == size && forall i :: 0 <= i < size ==> r[i] == if i < |data| then data[i] else 0
  {
    if size <= |data| then data[..size] else data + seq(size - |data|, _ => 0)
  }

  /** A tag and a buffer, or LFS_ERR_NOENT. */
  datatype Result = NoEntry | Found(tag: Tag, buffer: seq<Byte>)

  /** A lookup with the mask of files and directories passes over the name of a
      superblock. */
  function Narrowed(found: Option<Value>, narrow: bool): (r: Option<Value>) {
    if narrow && found.Some? && found.value.chunk >= 128 then None else found
  }

  function Answer(found: Option<Value>, id: nat, size: nat): Result {
    match found
    case None => NoEntry
    case Some(v) => Found(Tag(v.kind, v.chunk, id, v.size), Fit(v.data, size))
  }

  lemma LookBack(log: seq<Entry>, off: nat, id: nat, key: Key)
    requires WellFormed(log) && off < |log|
    ensures LooksBack(log[off], id, key, ReplayTo(log, off), Get(ReplayTo(log, off + 1), id, key))
  {
    StepBack(ReplayTo(log, off), SplicedBefore(log, off), log[off], id, key);
  }

  lemma HideShifts(dir: seq<Attrs>, moved: Option<nat>, id: nat, key: Key, gdiff: int)
    requires moved.Some? ==> moved.value < |dir|
    requires gdiff == if moved.Some? && moved.value <= id then -1 else 0
    ensures Get(Hide(dir, moved), id, key) == Get(dir, id - gdiff, key)
  {
  }

  /** `lfs_dir_getslice` for the attribute `key` of entry `id`. `moved` is the id
      of a pending move out of this pair. */
  method GetSlice(log: seq<Entry>, moved: Option<nat>, id: nat, key: Key, narrow: bool, size: nat) returns (r: Result)
    requires WellFormed(log) && (moved.Some? ==> moved.value < |Replay(log)|) && (narrow ==> key == NameKey)
    ensures r == Answer(Narrowed(Get(Hide(Replay(log), moved), id, key), narrow), id, size)
  {
    hide Get, Hide, ReplayTo, WellFormed;
    var gdiff := if moved.Some? && moved.value <= id then -1 else 0;
    HideShifts(Replay(log), moved, id, key, gdiff);
    r := WalkBack(log, id, gdiff, key, narrow, size);
  }

  /** What one tag says about the entry looked for: its attribute, that there is
      none, or under which shifted id to look further back. */
  datatype Visit = Stop(result: Result) | GoOn(gdiff: int)

  function VisitTag(e: Entry, key: Key, narrow: bool, id: nat, gdiff: int, size: nat): (r: Visit)
    requires gdiff <= id
  {
    var tag := e.tag;
    if IsCreate(tag) && tag.id == id - gdiff then Stop(NoEntry)
    else
      var gdiff' := if tag.kind == Splice && tag.id <= id - gdiff then gdiff + SpliceBy(tag) else gdiff;
      if !Matches(tag, key, id - gdiff') || (narrow && tag.chunk >= 128) then GoOn(gdiff')
      else if IsDeleted(tag) then Stop(NoEntry)
      else Stop(Found(Tag(tag.kind, tag.chunk, id, tag.size), Fit(e.data, size)))
  }

  lemma VisitLooksBack(log: seq<Entry>, off: nat, key: Key, narrow: bool, id: nat, gdiff: int, size: nat)
    requires WellFormed(log) && off < |log| && gdiff <= id && (narrow ==> key == NameKey)
    ensures var v := VisitTag(log[off], key, narrow, id, gdiff, size);
      var now := Narrowed(Get(ReplayTo(log, off + 1), id - gdiff, key), narrow);
      if v.Stop? then Answer(now, id, size) == v.result
      else v.gdiff <= id && now == Narrowed(Get(ReplayTo(log, off), id - v.gdiff, key), narrow)
  {
    hide ReplayTo, Apply, WellFormed, VisitTag, LooksBack;
    LookBack(log, off, id - gdiff, key);
    AppliesAt(log, off);
    FirstName(ReplayTo(log, off), SplicedBefore(log, off), log[off]);
    VisitAgrees(log[off], key, narrow, id, gdiff, size, ReplayTo(log, off),
      Get(ReplayTo(log, off + 1), id - gdiff, key));
  }

  /** An entry is named once. */
  lemma FirstName(dir: seq<Attrs>, spliced: bool, e: Entry)
    requires Applies(dir, spliced, e)
    ensures e.tag.kind == Name ==> Get(dir, e.tag.id, NameKey) == None
  {
  }

  lemma VisitAgrees(e: Entry, key: Key, narrow: bool, id: nat, gdiff: int, size: nat, before: seq<Attrs>,
                    now: Option<Value>)
    requires gdiff <= id && LooksBack(e, id - gdiff, key, before, now) && (narrow ==> key == NameKey)
    requires e.tag.kind == Name ==> Get(before, e.tag.id, NameKey) == None
    ensures var v := VisitTag(e, key, narrow, id, gdiff, size);
      if v.Stop? then Answer(Narrowed(now, narrow), id, size) == v.result
      else v.gdiff <= id && Narrowed(now, narrow) == Narrowed(Get(before, id - v.gdiff, key), narrow)
  {
    hide Get;
  }

  /** Its loop: walks the log from the end, following the entry through the
      splices. */
  method WalkBack(log: seq<Entry>, id: nat, start: int, key: Key, narrow: bool, size: nat) returns (r: Result)
    requires WellFormed(log) && start <= 0 && (narrow ==> key == NameKey)
    ensures r == Answer(Narrowed(Get(Replay(log), id - start, key), narrow), id, size)
  {
    hide ReplayTo, Get, Apply, WellFormed;
    var gdiff := start;
    var off := |log|;
    ghost var found := Narrowed(Get(Replay(log), id - start, key), narrow);
    while off > 0
      invariant 0 <= off <= |log| && gdiff <= id
      invariant Narrowed(Get(ReplayTo(log, off), id - gdiff, key), narrow) == found
    {
      off := off - 1;
      VisitLooksBack(log, off, key, narrow, id, gdiff, size);
      var visit := VisitTag(log[off], key, narrow, id, gdiff, size);
      if visit.Stop? {
        return visit.result;
      }
      gdiff := visit.gdiff;
    }
    NothingAtStart(log, id - gdiff, key);
    return NoEntry;
  }

  lemma NothingAtStart(log: seq<Entry>, id: int, key: Key)
    ensures Get(ReplayTo(log, 0), id, key) == None
  {
  }
}
