/** Inputs for which directory operations do not keep what they should: a rename into
    itself, and commits that are refused, as when there is no room. */
module Failures {
  import opened Wrappers
  import opened Bytes
  import opened Gstate
  import opened MetaLog
  import opened Chain
  import opened Tree
  import opened Commit
  import opened Fs

  // ----- small file systems -----

  /** "littlefs". */
  const MAGIC: seq<Byte> := [0x6c, 0x69, 0x74, 0x74, 0x6c, 0x65, 0x66, 0x73]

  /** The entry that the root begins with. */
  function Superblock(config: Value): Node {
    Node(map[NameKey := Value(Kind.Name, SUPERBLOCK, 8, MAGIC), StructKey := config], None)
  }

  /** A root with a file and a directory a. */
  function Home(config: Value, file: Attrs, dir: Attrs, a: Ptr): seq<Node> {
    [Superblock(config), Node(file, None), Node(dir, Some(a))]
  }

  /** The root, and behind it a directory of one pair. */
  function Two(root: seq<Node>, a: Ptr, inside: seq<Node>, bit: bool): seq<Cell> {
    [Cell(ROOT, root, false, ZERO.(bit := bit)), Cell(a, inside, false, ZERO)]
  }

  /** What such a list says. */
  lemma TwoMeans(root: seq<Node>, a: Ptr, inside: seq<Node>, bit: bool)
    requires a != ROOT && root != []
    ensures var cells, s := Two(root, a, inside, bit), Scan(None, Bare(Two(root, a, inside, bit)));
      Distinct(cells) && XorAll(cells) == ZERO.(bit := bit) && MoveOf(XorAll(cells)) == NoMove &&
      OwnerAt(Bare(cells), 0) == ROOT && OwnerAt(Bare(cells), 1) == a &&
      s.own == None && s.heads == multiset{ROOT, a} && s.refs == Children(root) + Children(inside) &&
      ViewOf(cells) == s.view == Put(map[ROOT := (ROOT, root)], a, a, inside)
  {
    hide Scan, Xor, XorAll, Children;
    var c, d := Cell(ROOT, root, false, ZERO.(bit := bit)), Cell(a, inside, false, ZERO);
    var e, f := SeenCell(c, NoMove), SeenCell(d, NoMove);
    assert [c, d] == [c] + [d] && Bare([c, d]) == [e, f] == [e] + [f] && [e] == [] + [e];
    assert [e, f][..0] == [] && [e, f][..1] == [e];
    XorAppend([c], [d]);
    XorOne(c);
    XorOne(d);
    XorCancels(ZERO.(bit := bit));
    ScanNothing(None);
    ScanNext(None, [], e);
    ScanNext(None, [e], f);
  }

  lemma TwoIsTidy(root: seq<Node>, a: Ptr, inside: seq<Node>)
    requires a != ROOT && root != [] && Children(root) + Children(inside) == multiset{a}
    ensures var cells := Two(root, a, inside, false); Tidy(Bare(cells)) && Sound(cells)
  {
    hide Scan, XorAll, Children, Extra, Two;
    TwoMeans(root, a, inside, false);
    SoundFrom(Two(root, a, inside, false), ZERO, multiset{});
  }

  lemma HomeChildren(config: Value, file: Attrs, dir: Attrs, a: Ptr)
    ensures Children(Home(config, file, dir, a)) == multiset{a} &&
            Children(Home(config, file, dir, a)[..2]) == multiset{}
    ensures Children([]) == multiset{}
  {
    hide Children;
    var home := Home(config, file, dir, a);
    assert home[..1] == [] + [home[0]] && home[..2] == home[..1] + [home[1]] && home == home[..2] + [home[2]];
    NoRefs();
    ChildrenAppend([], [home[0]]);
    ChildrenAppend(home[..1], [home[1]]);
    ChildrenAppend(home[..2], [home[2]]);
    ChildrenOne(home[0]);
    ChildrenOne(home[1]);
    ChildrenOne(home[2]);
  }

  // ----- a rename into itself -----

  /** Renaming "/a" to "/a/b" is done like any other: the directory is then the only one
      that refers to itself, with nothing that would have it repaired. */
  lemma IntoItself(config: Value, file: Attrs, dir: Attrs, name: Value)
    ensures var a := Ptr(2, 3);
      var home := Home(config, file, dir, a);
      var cells, after := Two(home, a, [], false), Two(home[..2], a, [WithName(home[2], name)], false);
      Distinct(cells) && Sound(cells) && Tidy(Bare(cells)) && Rooted(ViewOf(cells)) &&
      RenameResult(cells, 0, 2, 1, 0, false) == Done && Renamed(cells, 0, 2, 1, 0, false, name) == ViewOf(after) &&
      Distinct(after) && Sound(after) && Tidy(Bare(after)) && !XorAll(after).bit && !IsTree(after)
  {
    hide Scan, XorAll, Rooted, Tidy, ViewOf, Inside, Sound, Renamed, Home, Children;
    var a := Ptr(2, 3);
    var home := Home(config, file, dir, a);
    HomeIs(config, file, dir, a);
    var cells, after := Two(home, a, [], false), Two(home[..2], a, [WithName(home[2], name)], false);
    HomeChildren(config, file, dir, a);
    ChildrenOne(WithName(home[2], name));
    TwoMeans(home, a, [], false);
    TwoMeans(home[..2], a, [WithName(home[2], name)], false);
    TwoIsTidy(home, a, []);
    TwoIsTidy(home[..2], a, [WithName(home[2], name)]);
    HomeIsTree(config, file, dir, a);
    HomeRenamed(config, file, dir, a, name);
    RenameRooted(cells, 0, 2, 1, 0, false, name);
    TreeIff(after);
  }

  lemma HomeIs(config: Value, file: Attrs, dir: Attrs, a: Ptr)
    ensures var home := Home(config, file, dir, a);
      |home| == 3 && home[1].child == None && home[2].child == Some(a) && home[..2] != []
  {
  }

  lemma HomeIsTree(config: Value, file: Attrs, dir: Attrs, a: Ptr)
    requires a != ROOT
    ensures var home := Home(config, file, dir, a);
      var view := ViewOf(Two(home, a, [], false)); Rooted(view) && Inside(view, home[2], a)
  {
    hide Scan, Children, Below, EdgesOf, ViewOf, Home, Two;
    var home := Home(config, file, dir, a);
    HomeIs(config, file, dir, a);
    HomeChildren(config, file, dir, a);
    TwoMeans(home, a, [], false);
    HomeEdge(home, a);
    BelowSelf({(ROOT, a)}, ROOT);
    BelowSelf({(ROOT, a)}, a);
    BelowNext({(ROOT, a)}, ROOT, ROOT, a);
  }

  lemma HomeEdge(home: seq<Node>, a: Ptr)
    requires Children(home) == multiset{a}
    ensures EdgesOf(Put(map[ROOT := (ROOT, home)], a, a, [])) == {(ROOT, a)} || a == ROOT
  {
    hide Children;
    var view: View := Put(map[ROOT := (ROOT, home)], a, a, []);
    if a != ROOT {
      InEdges(view, ROOT, a);
    }
  }

  lemma HomeRenamed(config: Value, file: Attrs, dir: Attrs, a: Ptr, name: Value)
    requires a != ROOT
    ensures var home := Home(config, file, dir, a);
      var cells := Two(home, a, [], false);
      RenameResult(cells, 0, 2, 1, 0, false) == Done &&
      Renamed(cells, 0, 2, 1, 0, false, name) == ViewOf(Two(home[..2], a, [WithName(home[2], name)], false))
  {
    hide Scan, ViewOf, OwnerAt, Home, Children;
    var home := Home(config, file, dir, a);
    HomeIs(config, file, dir, a);
    var m := WithName(home[2], name);
    TwoMeans(home, a, [], false);
    TwoMeans(home[..2], a, [m], false);
    PlacedIs([], 0, false, m);
    assert Insert([], 0, m) == [m] && Remove(home, 2) == home[..2];
  }

  // ----- refused commits -----

  /** A rename to another pair that was refused its first commit has the move prepared
      all the same. With the next commit, whatever it is for, the entry is gone and
      nowhere else; unless it was a directory, the repair that follows deletes it. */
  method RenameThenCommit(e: Engine, p: Ptr, k: nat, q: Ptr, newid: nat, replace: bool, name: Value, s: Ptr,
                          ghost i: nat, ghost j: nat, ghost h: nat)
    requires e.Ready() && i < |e.cells| && j < |e.cells| && h < |e.cells| && i != j
    requires e.cells[i].ptr == p && e.cells[j].ptr == q && e.cells[h].ptr == s
    requires k < |e.cells[i].nodes| && k < NO_ID && newid <= |e.cells[j].nodes|
    requires (replace ==> newid < |e.cells[j].nodes|) && RenameResult(e.cells, i, k, j, newid, replace) == Done
    modifies e
    ensures ViewOf(e.cells) ==
      Put(ViewOf(old(e.cells)), p, OwnerAt(Bare(old(e.cells)), i), Remove(old(e.cells[i].nodes), k))
    ensures old(e.cells[i].nodes[k].child) == None ==> e.Valid()
  {
    hide Scan, XorAll, Xor, IsChain, Distinct, Lacks, Extra, Put, Renamed, Rooted, IsTree, AllRooted, Atomic;
    var r := e.Rename(p, k, q, newid, replace, name, 0, i, j);
    AtPair(e.st, e.cells, h);
    LinkedDistinct(e.st, e.cells);
    ghost var was := e.cells;
    e.CommitNodes(s, e.st.disk[s].nodes, h);
    LinkedDistinct(e.st, e.cells);
    HiddenShows(was, e.cells, i, k);
  }

  /** Renaming "/f" to "/a/f" right after a mount, out of room, and then a commit that
      changes nothing in the root: the file is gone. */
  method LoseFile(config: Value, file: Attrs, dir: Attrs, name: Value) returns (e: Engine)
    ensures fresh(e) && e.Valid()
    ensures ViewOf(e.cells) == map[ROOT := (ROOT, [Superblock(config), Node(dir, Some(Ptr(2, 3)))])]
  {
    hide Scan, XorAll, Xor, Tidy, ViewOf, Sound, IsChain, Extra, Renamed, Children, Home, Two;
    var a := Ptr(2, 3);
    var home := Home(config, file, dir, a);
    ghost var cells := Two(home, a, [], false);
    HomeIs(config, file, dir, a);
    HomeChildren(config, file, dir, a);
    TwoMeans(home, a, [], false);
    TwoIsTidy(home, a, []);
    TwoIs(home, a, [], false);
    TwoOnDisk(home, a);
    e := new Engine(map[ROOT := Pair(home, false, Some(a), ZERO), a := Pair([], false, None, ZERO)], ZERO, cells);
    RenameThenCommit(e, ROOT, 1, a, 0, false, name, ROOT, 0, 1, 0);
    HomeWithout(config, file, dir, a);
  }

  lemma TwoOnDisk(root: seq<Node>, a: Ptr)
    requires a != ROOT
    ensures IsChain(map[ROOT := Pair(root, false, Some(a), ZERO), a := Pair([], false, None, ZERO)],
              Two(root, a, [], false))
  {
    var disk := map[ROOT := Pair(root, false, Some(a), ZERO), a := Pair([], false, None, ZERO)];
    var cells := Two(root, a, [], false);
    assert StoredAt(disk, cells, 0) && StoredAt(disk, cells, 1);
  }

  lemma HomeWithout(config: Value, file: Attrs, dir: Attrs, a: Ptr)
    requires a != ROOT
    ensures var home := Home(config, file, dir, a);
      Put(Put(map[ROOT := (ROOT, home)], a, a, []), ROOT, ROOT, Remove(home, 1)) ==
      map[ROOT := (ROOT, [Superblock(config), Node(dir, Some(a))])]
  {
    var home := Home(config, file, dir, a);
    assert Remove(home, 1) == [Superblock(config), Node(dir, Some(a))];
  }

  /** The same list with a move that was never made. */
  lemma HiddenShows(was: seq<Cell>, cells: seq<Cell>, i: nat, k: nat)
    requires Distinct(was) && Distinct(cells) && Tidy(Bare(was)) && Bare(cells) == Bare(was)
    requires i < |was| && k < |was[i].nodes| && k < NO_ID
    requires MoveOf(XorAll(was)) == NoMove && MoveOf(XorAll(cells)) == Moving(was[i].ptr, k)
    ensures ViewOf(cells) == Put(ViewOf(was), was[i].ptr, OwnerAt(Bare(was), i), Remove(was[i].nodes, k))
    ensures was[i].nodes[k].child == None ==> Sound(cells) && Extra(Seen(cells, MoveOf(XorAll(cells)))) == multiset{}
  {
    hide Scan, Distinct, XorAll, Extra, Put, Children, Remove;
    var move := MoveOf(XorAll(cells));
    assert Bare(cells)[i] == Bare(was)[i] && |cells| == |was|;
    assert SeenCell(cells[i], NoMove) == SeenCell(was[i], NoMove);
    SeenDistinct(was, NoMove);
    SeenWithout(cells, move, i);
    UpdateScan(Bare(was), i, Remove(was[i].nodes, k));
    if was[i].nodes[k].child == None {
      DeleteLacks(Bare(was), multiset{}, i, k);
      assert multiset{} + ChildOf(was[i].nodes[k]) == multiset{};
      assert MovesFrom(cells[i], move);
      SoundFrom(cells, XorAll(cells), multiset{});
      LacksExtra(Seen(cells, move), multiset{});
    }
  }

  /** A rename refused its second commit has taken the move back. The next commit, if it
      is not the repair, then has the entry seen in both places. */
  method RenameThenSync(e: Engine, p: Ptr, k: nat, q: Ptr, newid: nat, replace: bool, name: Value, s: Ptr,
                        ghost i: nat, ghost j: nat, ghost h: nat)
    requires e.Ready() && i < |e.cells| && j < |e.cells| && h < |e.cells| && i != j
    requires e.cells[i].ptr == p && e.cells[j].ptr == q && e.cells[h].ptr == s && !DropsPair(e.cells, i)
    requires k < |e.cells[i].nodes| && k < NO_ID && newid <= |e.cells[j].nodes|
    requires (replace ==> newid < |e.cells[j].nodes|) && RenameResult(e.cells, i, k, j, newid, replace) == Done
    modifies e
    ensures var nodes := Placed(old(e.cells[j].nodes), newid, replace, WithName(old(e.cells[i].nodes[k]), name));
      ViewOf(e.cells) == Put(ViewOf(old(e.cells)), q, OwnerAt(Bare(old(e.cells)), j), nodes)
  {
    hide Scan, XorAll, Xor, IsChain, Distinct, Lacks, Extra, Put, Renamed, Rooted, IsTree, AllRooted, Atomic, Placed,
      ViewOf, Sound;
    LinkedDistinct(e.st, e.cells);
    ghost var was := e.cells;
    var r := e.Rename(p, k, q, newid, replace, name, 1, i, j);
    ghost var mid := e.cells;
    SamePairs(was, mid, h);
    AtPair(e.st, e.cells, h);
    e.CommitNodes(s, e.st.disk[s].nodes, h);
    SeenAgain(was, e.cells, j, Placed(was[j].nodes, newid, replace, WithName(was[i].nodes[k], name)));
  }

  lemma SamePairs(was: seq<Cell>, cells: seq<Cell>, h: nat)
    requires |Bare(cells)| == |was| && h < |was| && Bare(cells)[h].ptr == Bare(was)[h].ptr
    ensures h < |cells| && cells[h].ptr == was[h].ptr
  {
  }

  /** The list with other entries in one pair and nothing hidden. */
  lemma SeenAgain(was: seq<Cell>, cells: seq<Cell>, j: nat, nodes: seq<Node>)
    requires j < |was| && Distinct(Bare(was)) && MoveOf(XorAll(was)) == MoveOf(XorAll(cells)) == NoMove
    requires Bare(cells) == Bare(was)[j := Bare(was)[j].(nodes := nodes)]
    ensures ViewOf(cells) == Put(ViewOf(was), was[j].ptr, OwnerAt(Bare(was), j), nodes)
  {
    hide Scan, XorAll, Put, Distinct;
    UpdateScan(Bare(was), j, nodes);
  }

  /** The first mkdir after an orphan was found, as the last entry of the root and out of
      room at its second commit: what the pairs store is then not what the code takes
      it for. */
  method MkdirAfterRecover(disk: Disk, attrs: Attrs, d: Ptr, ghost cells: seq<Cell>) returns (e: Engine)
    requires IsChain(disk, cells) && Sound(cells) && Extra(Seen(cells, MoveOf(XorAll(cells)))) != multiset{}
    requires NotOn(cells, d)
    ensures fresh(e) && !e.Valid() && ViewOf(e.cells) == ViewOf(cells)
  {
    hide Sound, XorAll, ViewOf, Shows, Rooted, IsTree, AllRooted, Lacks, Extra;
    e := Recover(disk, cells);
    RootFirst(e.st, e.cells);
    AtPair(e.st, e.cells, 0);
    var r := e.Mkdir(ROOT, |e.st.disk[ROOT].nodes|, attrs, d, 1, 0);
  }

  /** Such a list: a root without directories and an empty one. */
  lemma OrphanList(config: Value, a: Ptr)
    requires a != ROOT
    ensures var cells := Two([Superblock(config)], a, [], true);
      cells[0].ptr == ROOT && Sound(cells) && Extra(Seen(cells, MoveOf(XorAll(cells)))) == multiset{a}
  {
    hide Scan, XorAll, Children, Extra, Two;
    var cells := Two([Superblock(config)], a, [], true);
    TwoMeans([Superblock(config)], a, [], true);
    ChildrenOne(Superblock(config));
    NoRefs();
    TwoIs([Superblock(config)], a, [], true);
    assert Lacks(Bare(cells), multiset{a});
    SoundFrom(cells, ZERO.(bit := true), multiset{a});
    LacksExtra(Bare(cells), multiset{a});
  }

  lemma TwoIs(root: seq<Node>, a: Ptr, inside: seq<Node>, bit: bool)
    ensures var cells := Two(root, a, inside, bit);
      |cells| == 2 && cells[0] == Cell(ROOT, root, false, ZERO.(bit := bit)) &&
        cells[1] == Cell(a, inside, false, ZERO) &&
      Bare(cells)[0].ptr == ROOT && Bare(cells)[1] == Cell(a, inside, false, ZERO)
  {
  }
}
