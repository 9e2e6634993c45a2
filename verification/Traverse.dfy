/** `lfs_dir_traverse`: walking a directory log and pending attributes, filtering
    out what later tags make redundant. The code uses an explicit stack; the
    reference is the recursion it stands for. */
module Traverse {
  import opened Wrappers
  import opened Bits
  import opened Bytes
  import opened MetaLog

  // ----- items -----

  /** What comes with a tag: bytes, the directory an entry is moved from, or a
      list of user attributes. */
  datatype Buffer = Bytes(data: seq<Byte>) | Directory(log: seq<Entry>) | AttrList(attrs: seq<(Byte, seq<Byte>)>)

  /** A tag on disk or in a list of pending attributes. */
  datatype Item = Item(tag: Tag, buffer: Buffer)

  const FROM_NOOP: Byte := 0x00
  const FROM_MOVE: Byte := 0x01
  const FROM_USERATTRS: Byte := 0x02

  const NOOP := Tag(Name, FROM_NOOP, 0, 0)

  predicate IsNoop(t: Tag) {
    t.kind == Name && t.chunk == FROM_NOOP
  }

  /** Copy the attributes of entry `size` of a directory to entry `id`. */
  predicate IsMove(item: Item) {
    item.tag.kind == From && item.tag.chunk == FROM_MOVE && item.buffer.Directory?
  }

  predicate IsUserAttrs(item: Item) {
    item.tag.kind == From && item.tag.chunk == FROM_USERATTRS && item.buffer.AttrList?
  }

  function OnDisk(log: seq<Entry>): (items: seq<Item>)
    ensures |items| == |log|
    ensures forall i :: 0 <= i < |log| ==> items[i] == Item(log[i].tag, Bytes(log[i].data))
  {
    seq(|log|, i requires 0 <= i < |log| => Item(log[i].tag, Bytes(log[i].data)))
  }

  function UserAttrEntry(id: nat, a: (Byte, seq<Byte>)): Entry {
    Entry(Tag(UserAttr, a.0, id, |a.1|), a.1)
  }

  // ----- filtering -----

  /** Types with an odd first digit are told apart by their chunk, the others
      replace each other. */
  predicate SameSlot(later: Tag, t: Tag) {
    later.kind == t.kind && later.id == t.id &&
    (later.kind == From || later.kind == UserAttr || later.kind == Crc || later.kind == Globals ==>
      later.chunk == t.chunk)
  }

  predicate Redundant(later: Tag, t: Tag) {
    SameSlot(later, t) || IsDeleted(t) || (IsDelete(later) && later.id == t.id)
  }

  /** `lfs_dir_traverse_filter`: what a later tag makes of an earlier one. */
  function Filter(later: Tag, t: Tag): (r: Tag) {
    if Redundant(later, t) then NOOP
    else if later.kind == Splice && later.id <= t.id && t.id + SpliceBy(later) >= 0 then
      t.(id := t.id + SpliceBy(later))
    else t
  }

  /** A list of user attributes filters with each of them, up to the first that
      makes the tag redundant. */
  function FilterAttrs(id: nat, attrs: seq<(Byte, seq<Byte>)>, i: nat, t: Tag): (r: Tag)
    requires i <= |attrs|
    decreases |attrs| - i
  {
    if i == |attrs| then t
    else
      var later := UserAttrEntry(id, attrs[i]).tag;
      if Redundant(later, t) then NOOP else FilterAttrs(id, attrs, i + 1, Filter(later, t))
  }

  /** What one later item makes of a tag, and whether the filtering ends there. */
  function FilterBy(item: Item, t: Tag): (r: (bool, Tag)) {
    if IsNoop(item.tag) || IsMove(item) then (false, t)
    else if IsUserAttrs(item) then (false, FilterAttrs(item.tag.id, item.buffer.attrs, 0, t))
    else (Redundant(item.tag, t), Filter(item.tag, t))
  }

  function FilterThrough(items: seq<Item>, k: nat, t: Tag): (r: Tag)
    requires k <= |items|
    decreases |items| - k
  {
    if k == |items| then t
    else
      var r := FilterBy(items[k], t);
      if r.0 then r.1 else FilterThrough(items, k + 1, r.1)
  }

  // ----- the recursion -----

  // Which types a traversal wants; all but the first also ask for filtering.
  datatype Mask = CommitMask | CompactMask | MoveMask

  predicate Passes(mask: Mask, kind: Kind) {
    match mask
    case CommitMask => true
    case CompactMask => kind == Name || kind == From || kind == Struct || kind == UserAttr
    case MoveMask => kind == Struct || kind == UserAttr
  }

  /** A traversal: over which items, from where, and how ids are selected and
      renumbered. `filter` marks the traversals that only filter. */
  datatype Frame = Frame(items: seq<Item>, off: nat, mask: Mask, begin: int, end: int, diff: int, filter: bool)

  predicate InRange(f: Frame, t: Tag) {
    f.mask == CommitMask || f.begin <= t.id < f.end
  }

  function MoveFrame(item: Item, diff: int): Frame
    requires IsMove(item)
  {
    Frame(OnDisk(item.buffer.log), 0, MoveMask, item.tag.size, item.tag.size + 1, item.tag.id - item.tag.size + diff,
      false)
  }

  function Renumber(t: Tag, diff: int): Tag {
    if t.id + diff < 0 then t else t.(id := t.id + diff)
  }

  /** What a traversal emits for an item once it has been filtered. Moves are
      followed one level deep: directories on disk contain none. */
  function EmitOne(level: nat, f: Frame, item: Item): (out: seq<Entry>)
    decreases level, 0, 0
  {
    if !InRange(f, item.tag) || IsNoop(item.tag) then []
    else if IsMove(item) then
      if level == 0 then [] else EmitFrom(level - 1, MoveFrame(item, f.diff))
    else if IsUserAttrs(item) then
      var id := Renumber(item.tag, f.diff).id;
      seq(|item.buffer.attrs|, i requires 0 <= i < |item.buffer.attrs| => UserAttrEntry(id, item.buffer.attrs[i]))
    else if item.buffer.Bytes? then [Entry(Renumber(item.tag, f.diff), item.buffer.data)]
    else []
  }

  function EmitFrom(level: nat, f: Frame): (out: seq<Entry>)
    decreases level, 1, |f.items| - f.off
  {
    if f.off >= |f.items| then []
    else
      var item, next := f.items[f.off], f.(off := f.off + 1);
      if !Passes(f.mask, item.tag.kind) then EmitFrom(level, next)
      else if f.mask == CommitMask then EmitOne(level, next, item) + EmitFrom(level, next)
      else EmitOne(level, next, item.(tag := FilterThrough(f.items, next.off, item.tag))) + EmitFrom(level, next)
  }

  // ----- the machine with the explicit stack -----

  /** `at` is the traversal going on, `popped` the item to handle next (after the
      label of that name), `stack` the suspended traversals with their items. */
  datatype Machine = Machine(at: Frame, popped: Option<Item>, stack: seq<(Frame, Item)>, out: seq<Entry>)

  /** Returning to the suspended traversal on top of the stack. */
  function Pop(m: Machine): Machine
    requires m.stack != []
  {
    var top := m.stack[|m.stack| - 1];
    Machine(top.0, Some(top.1), m.stack[..|m.stack| - 1], m.out)
  }

  /** The item below a filtering traversal. */
  function SetTop(stack: seq<(Frame, Item)>, t: Tag): (r: seq<(Frame, Item)>)
    requires stack != []
  {
    var top := stack[|stack| - 1];
    stack[..|stack| - 1] + [(top.0, top.1.(tag := t))]
  }

  predicate Finished(m: Machine) {
    m.popped == None && m.at.off >= |m.at.items| && m.stack == []
  }

  /** Taking the next item, or returning to the caller. */
  function Fetch(m: Machine): (r: Machine)
    requires !Finished(m) && m.popped == None
  {
    if m.at.off >= |m.at.items| then Pop(m)
    else
      var item, next := m.at.items[m.at.off], m.at.(off := m.at.off + 1);
      if m.at.filter then m.(at := next, popped := Some(item))
      else if !Passes(m.at.mask, item.tag.kind) then m.(at := next)
      else if m.at.mask == CommitMask then m.(at := next, popped := Some(item))
      else Machine(Frame(m.at.items, next.off, CommitMask, 0, 0, 0, true), None, m.stack + [(next, item)], m.out)
  }

  /** Handling an item: filtering the one below, following a move, emitting. */
  function Handle(m: Machine): (r: Machine)
    requires m.popped.Some? && (m.at.filter ==> m.stack != [])
  {
    var item, rest := m.popped.value, m.(popped := None);
    if m.at.filter then
      var top := m.stack[|m.stack| - 1].1;
      var r := FilterBy(item, top.tag);
      var updated := rest.(stack := SetTop(m.stack, r.1));
      if r.0 then Pop(updated) else updated
    else if InRange(m.at, item.tag) && !IsNoop(item.tag) && IsMove(item) then
      Machine(MoveFrame(item, m.at.diff), None, m.stack + [(m.at, Item(NOOP, Bytes([])))], m.out)
    else rest.(out := m.out + EmitOne(0, m.at, item))
  }

  function Step(m: Machine): (r: Machine)
    requires !Finished(m) && (m.at.filter ==> m.stack != [])
  {
    if m.popped.None? then Fetch(m) else Handle(m)
  }

  // ----- the machine against the recursion -----

  /** No directory on disk contains moves. */
  ghost predicate NoMoves(items: seq<Item>) {
    forall i :: 0 <= i < |items| ==> !IsMove(items[i])
  }

  /** Directories that entries are moved from are well-formed logs. */
  ghost predicate GoodItem(item: Item) {
    IsMove(item) ==> NoMoves(OnDisk(item.buffer.log))
  }

  ghost predicate GoodItems(items: seq<Item>) {
    forall i :: 0 <= i < |items| ==> GoodItem(items[i])
  }

  /** A traversal on the given level: the outer one, or one following a move. */
  ghost predicate Outer(f: Frame) {
    !f.filter && GoodItems(f.items) && f.mask != MoveMask
  }

  ghost predicate Moving(f: Frame) {
    !f.filter && NoMoves(f.items) && f.mask == MoveMask
  }

  /** The shapes the machine goes through: never more than two traversals are
      suspended. */
  ghost predicate Good(m: Machine) {
    match |m.stack|
    case 0 => Outer(m.at) && (m.popped.Some? ==> GoodItem(m.popped.value))
    case 1 => Outer(m.stack[0].0) && GoodItem(m.stack[0].1) &&
      (m.at.filter || (Moving(m.at) && IsNoop(m.stack[0].1.tag) && (m.popped.Some? ==> !IsMove(m.popped.value))))
    case 2 => m.at.filter && Outer(m.stack[0].0) && GoodItem(m.stack[0].1) && IsNoop(m.stack[0].1.tag) &&
      Moving(m.stack[1].0) && !IsMove(m.stack[1].1)
    case _ => false
  }

  /** What a tag becomes when the filtering traversal `f` has gone through. */
  function Filtered(f: Frame, popped: Option<Item>, t: Tag): (r: Tag) {
    var off := Min(f.off, |f.items|);
    match popped
    case None => FilterThrough(f.items, off, t)
    case Some(item) =>
      var r := FilterBy(item, t);
      if r.0 then r.1 else FilterThrough(f.items, off, r.1)
  }

  /** What is still to be emitted, by the recursion. */
  function Remaining(at: Frame, popped: Option<Item>, stack: seq<(Frame, Item)>): (out: seq<Entry>)
    decreases |stack|, if popped.Some? then 2 else 1
  {
    var level := if stack == [] then 1 else 0;
    if at.filter && stack != [] then
      var top := stack[|stack| - 1];
      Remaining(top.0, Some(top.1.(tag := Filtered(at, popped, top.1.tag))), stack[..|stack| - 1])
    else if popped.Some? then EmitOne(level, at, popped.value) + Remaining(at, None, stack)
    else EmitFrom(level, at) + Suspended(stack)
  }

  /** What the suspended traversals still have to emit. */
  function Suspended(stack: seq<(Frame, Item)>): (out: seq<Entry>)
    decreases |stack|, 0
  {
    if stack == [] then []
    else
      var top := stack[|stack| - 1];
      Remaining(top.0, Some(top.1), stack[..|stack| - 1])
  }

  /** Filtering leaves a tag alone except for its id, or turns it into a no-op. */
  predicate Filters(t: Tag, r: Tag) {
    (r.kind == t.kind && r.chunk == t.chunk && r.size == t.size) || r == NOOP
  }

  lemma FilterAttrsFilters(id: nat, attrs: seq<(Byte, seq<Byte>)>, i: nat, t: Tag)
    requires i <= |attrs|
    ensures Filters(t, FilterAttrs(id, attrs, i, t))
    decreases |attrs| - i
  {
  }

  lemma FilterByFilters(item: Item, t: Tag)
    ensures var r := FilterBy(item, t).1; Filters(t, r)
  {
    if IsUserAttrs(item) {
      FilterAttrsFilters(item.tag.id, item.buffer.attrs, 0, t);
    }
  }

  /** Every step emits what the recursion would emit next, and the stack never
      holds more than two traversals. */
  lemma FetchKeeps(m: Machine)
    requires Good(m) && !Finished(m) && m.popped == None
    ensures Good(Fetch(m)) && Fetch(m).out == m.out
    ensures var n := Fetch(m); Remaining(n.at, n.popped, n.stack) == Remaining(m.at, None, m.stack)
  {
    hide Remaining, EmitFrom, EmitOne, FilterThrough, FilterBy;
    FetchGood(m);
    if m.at.off >= |m.at.items| {
      PopKeeps(m.at, m.stack);
    } else if !m.at.filter && Passes(m.at.mask, m.at.items[m.at.off].tag.kind) && m.at.mask != CommitMask {
      PushKeeps(m.at, m.stack);
    } else {
      TakeKeeps(m.at, m.stack);
    }
  }

  lemma FetchGood(m: Machine)
    requires Good(m) && !Finished(m) && m.popped == None
    ensures Good(Fetch(m))
  {
    hide EmitFrom, EmitOne;
  }

  lemma TakeKeeps(at: Frame, stack: seq<(Frame, Item)>)
    requires at.off < |at.items| && (at.filter ==> stack != [])
    ensures var item, next := at.items[at.off], at.(off := at.off + 1);
      if at.filter then Remaining(next, Some(item), stack) == Remaining(at, None, stack)
      else if !Passes(at.mask, item.tag.kind) then Remaining(next, None, stack) == Remaining(at, None, stack)
      else at.mask == CommitMask ==> Remaining(next, Some(item), stack) == Remaining(at, None, stack)
  {
    hide EmitOne, FilterBy;
    var item, next := at.items[at.off], at.(off := at.off + 1);
    if at.filter {
      TakeFilters(at, if stack == [] then NOOP else stack[|stack| - 1].1.tag);
    }
  }

  lemma TakeFilters(at: Frame, t: Tag)
    requires at.off < |at.items|
    ensures Filtered(at.(off := at.off + 1), Some(at.items[at.off]), t) == Filtered(at, None, t)
  {
    hide FilterBy;
  }

  lemma PopKeeps(at: Frame, stack: seq<(Frame, Item)>)
    requires at.off >= |at.items| && stack != []
    ensures var top := stack[|stack| - 1];
      Remaining(at, None, stack) == Remaining(top.0, Some(top.1), stack[..|stack| - 1])
  {
    var top := stack[|stack| - 1];
    assert top.1.(tag := top.1.tag) == top.1;
  }

  lemma PushKeeps(at: Frame, stack: seq<(Frame, Item)>)
    requires at.off < |at.items| && !at.filter && at.mask != CommitMask
    requires Passes(at.mask, at.items[at.off].tag.kind)
    ensures var next := at.(off := at.off + 1);
      Remaining(Frame(at.items, next.off, CommitMask, 0, 0, 0, true), None, stack + [(next, at.items[at.off])])
        == Remaining(at, None, stack)
  {
    var item, next := at.items[at.off], at.(off := at.off + 1);
    var pushed := stack + [(next, item)];
    assert pushed[..|pushed| - 1] == stack && pushed[|pushed| - 1] == (next, item);
    var level := if stack == [] then 1 else 0;
    var filtered := item.(tag := FilterThrough(at.items, next.off, item.tag));
    var one, more, rest := EmitOne(level, next, filtered), EmitFrom(level, next), Suspended(stack);
    assert EmitFrom(level, at) == one + more;
    assert Remaining(next, Some(filtered), stack) == one + (more + rest) == (one + more) + rest;
  }

  lemma HandleKeeps(m: Machine)
    requires Good(m) && m.popped.Some?
    ensures Good(Handle(m))
    ensures var n := Handle(m); n.out + Remaining(n.at, n.popped, n.stack) == m.out + Remaining(m.at, m.popped, m.stack)
  {
    var item := m.popped.value;
    if m.at.filter {
      FilterByFilters(item, m.stack[|m.stack| - 1].1.tag);
      FilterKeeps(m.at, item, m.stack);
    } else if InRange(m.at, item.tag) && !IsNoop(item.tag) && IsMove(item) {
      FollowKeeps(m.at, item);
    } else {
      assert EmitOne(0, m.at, item) == EmitOne(1, m.at, item);
    }
  }

  lemma FilterKeeps(at: Frame, item: Item, stack: seq<(Frame, Item)>)
    requires at.filter && stack != []
    ensures var top := stack[|stack| - 1];
      var r := FilterBy(item, top.1.tag);
      var below := SetTop(stack, r.1);
      Remaining(at, Some(item), stack) ==
        if r.0 then Remaining(top.0, Some(top.1.(tag := r.1)), stack[..|stack| - 1])
        else Remaining(at, None, below)
  {
    var top := stack[|stack| - 1];
    var r := FilterBy(item, top.1.tag);
    var below := SetTop(stack, r.1);
    assert below[..|below| - 1] == stack[..|stack| - 1];
    assert below[|below| - 1] == (top.0, top.1.(tag := r.1));
    var off := Min(at.off, |at.items|);
    assert Filtered(at, None, r.1) == FilterThrough(at.items, off, r.1);
    assert top.1.(tag := r.1).(tag := FilterThrough(at.items, off, r.1)) ==
      top.1.(tag := FilterThrough(at.items, off, r.1));
  }

  lemma FollowKeeps(at: Frame, item: Item)
    requires !at.filter && InRange(at, item.tag) && !IsNoop(item.tag) && IsMove(item)
    ensures Remaining(MoveFrame(item, at.diff), None, [(at, Item(NOOP, Bytes([])))]) == Remaining(at, Some(item), [])
  {
    var stack := [(at, Item(NOOP, Bytes([])))];
    assert stack[..0] == [] && stack[|stack| - 1] == stack[0];
    assert EmitOne(1, at, item) == EmitFrom(0, MoveFrame(item, at.diff));
    assert EmitOne(1, at, Item(NOOP, Bytes([]))) == [];
    assert Suspended(stack) == Remaining(at, Some(stack[0].1), []);
    assert Remaining(at, Some(stack[0].1), []) == [] + Remaining(at, None, []);
  }

  // ----- the traversal -----

  function Left(f: Frame): nat {
    if f.off >= |f.items| then 0 else |f.items| - f.off
  }

  /** Progress of the traversal on one level: what it has to do before the next
      item; 4 and 2 while a filtering or a moving traversal is above it. */
  function Phase(popped: Option<Item>): nat {
    match popped
    case None => 0
    case Some(item) => if IsNoop(item.tag) then 1 else 3
  }

  /** The measure that shows the machine stops, one pair of numbers a level. */
  function Rank(m: Machine): (r: (nat, nat, nat, nat, nat, nat)) {
    if |m.stack| == 0 then (Left(m.at), Phase(m.popped), 0, 0, 0, 0)
    else if |m.stack| == 1 then
      (Left(m.stack[0].0), if m.at.filter then 4 else 2, Left(m.at), Phase(m.popped), 0, 0)
    else (Left(m.stack[0].0), 2, Left(m.stack[1].0), 4, Left(m.at), Phase(m.popped))
  }

  predicate Lower(a: (nat, nat, nat, nat, nat, nat), b: (nat, nat, nat, nat, nat, nat)) {
    a.0 < b.0 || (a.0 == b.0 && (a.1 < b.1 || (a.1 == b.1 && (a.2 < b.2 || (a.2 == b.2 && (a.3 < b.3 ||
      (a.3 == b.3 && (a.4 < b.4 || (a.4 == b.4 && a.5 < b.5)))))))))
  }

  lemma StepLowers(m: Machine)
    requires Good(m) && !Finished(m) && Good(Step(m))
    ensures Lower(Rank(Step(m)), Rank(m))
  {
  }

  /** The space an entry takes in a log: its tag and its bytes. */
  function Space(e: Entry): nat {
    4 + if IsDeleted(e.tag) then 0 else e.tag.size
  }

  function SpaceOf(log: seq<Entry>): (r: nat) {
    if log == [] then 0 else SpaceOf(log[..|log| - 1]) + Space(log[|log| - 1])
  }

  lemma {:induction false} SpaceAppend(a: seq<Entry>, b: seq<Entry>)
    ensures SpaceOf(a + b) == SpaceOf(a) + SpaceOf(b)
  {
    if b == [] {
      assert a + b == a;
    } else {
      assert (a + b)[..|a + b| - 1] == a + b[..|b| - 1];
      SpaceAppend(a, b[..|b| - 1]);
    }
  }

  lemma StepKeeps(m: Machine)
    requires Good(m) && !Finished(m)
    ensures m.at.filter ==> m.stack != []
    ensures Good(Step(m)) && Lower(Rank(Step(m)), Rank(m)) && m.out <= Step(m).out
    ensures var n := Step(m);
      n.out + Remaining(n.at, n.popped, n.stack) == m.out + Remaining(m.at, m.popped, m.stack)
  {
    hide EmitFrom, Remaining, EmitOne, FilterBy, MoveFrame, OnDisk, Rank, Lower;
    if m.popped == None {
      FetchKeeps(m);
    } else {
      HandleKeeps(m);
    }
    StepLowers(m);
  }

  lemma StartKeeps(f: Frame)
    requires Outer(f)
    ensures Good(Machine(f, None, [], [])) && [] + Remaining(f, None, []) == EmitFrom(1, f)
  {
    assert Suspended([]) == [];
  }

  lemma FinishedKeeps(m: Machine)
    requires Finished(m) && Good(m)
    ensures Remaining(m.at, m.popped, m.stack) == []
  {
  }

  /** Emitting more only takes more space, and never more than all. */
  lemma SpaceGrows(out: seq<Entry>, next: seq<Entry>, rest: seq<Entry>)
    requires out <= next
    ensures SpaceOf(next) == SpaceOf(out) + SpaceOf(next[|out|..]) <= SpaceOf(next + rest)
  {
    SpaceAppend(out, next[|out|..]);
    SpaceAppend(next, rest);
    assert next == out + next[|out|..];
  }

  /** `lfs_dir_traverse` with the callbacks that commit and that measure: emits
      what the recursion emits, or stops with LFS_ERR_NOSPC as soon as that takes
      more than the given room. */
  method Traverse(f: Frame, room: Option<nat>) returns (fits: bool, out: seq<Entry>, size: nat)
    requires Outer(f)
    ensures fits <==> room == None || SpaceOf(EmitFrom(1, f)) <= room.value
    ensures fits ==> out == EmitFrom(1, f) && size == SpaceOf(out)
  {
    hide Step, SpaceOf, EmitFrom, Good, Remaining, Rank, Suspended, EmitOne, Outer;
    var m := Machine(f, None, [], []);
    StartKeeps(f);
    out, size := [], 0;
    EmptySpace();
    while !Finished(m)
      invariant Good(m) && out == m.out && size == SpaceOf(out)
      invariant out + Remaining(m.at, m.popped, m.stack) == EmitFrom(1, f)
      invariant room == None || size <= room.value
      decreases Rank(m).0, Rank(m).1, Rank(m).2, Rank(m).3, Rank(m).4, Rank(m).5
    {
      StepKeeps(m);
      m := Step(m);
      SpaceGrows(out, m.out, Remaining(m.at, m.popped, m.stack));
      size := size + SpaceOf(m.out[|out|..]);
      out := m.out;
      if room.Some? && size > room.value {
        return false, [], 0;
      }
    }
    FinishedKeeps(m);
    assert out + [] == out;
    fits := true;
  }

  lemma EmptySpace()
    ensures SpaceOf([]) == 0
  {
  }
}
