/** Directory operations as sequences of commits, any of which may be the last one
    before power is lost. */
module Fs {
  import opened Wrappers
  import opened Bits
  import opened Gstate
  import opened MetaLog
  import opened Chain
  import opened Tree
  import opened Commit

  /** What is on disk between commits: directories on the list that the tree lacks
      are there only when the bit says so, and a pending move is of an entry that
      exists. */
  ghost predicate Sound(cells: seq<Cell>) {
    Distinct(cells) && SoundWith(cells, XorAll(cells))
  }

  ghost predicate SoundWith(cells: seq<Cell>, d: Delta) {
    Balanced(Seen(cells, MoveOf(d)), d.bit) && MoveInside(cells, MoveOf(d))
  }

  ghost predicate MoveInside(cells: seq<Cell>, move: Move) {
    move.Moving? ==> exists i :: 0 <= i < |cells| && MovesFrom(cells[i], move)
  }

  predicate MovesFrom(c: Cell, move: Move) {
    move.Moving? && c.ptr == move.pair && move.id < |c.nodes|
  }

  /** The directories on the list that the tree lacks. */
  function Extra(cells: seq<Cell>): multiset<Ptr> {
    var s := Scan(None, cells);
    s.heads - (s.refs + multiset{ROOT})
  }

  ghost predicate Balanced(cells: seq<Cell>, bit: bool) {
    Lacks(cells, Extra(cells)) && (!bit ==> Extra(cells) == multiset{})
  }

  lemma LacksExtra(cells: seq<Cell>, extra: multiset<Ptr>)
    requires Lacks(cells, extra)
    ensures Extra(cells) == extra
  {
    hide Scan;
    var s := Scan(None, cells);
    forall p ensures Extra(cells)[p] == extra[p] {
      assert (s.refs + multiset{ROOT} + extra)[p] == s.heads[p];
    }
  }

  /** What a user sees of the disk. */
  function ViewOf(cells: seq<Cell>): View {
    Scan(None, Seen(cells, MoveOf(XorAll(cells)))).view
  }

  /** A state of the disk that has the given view and can be recovered from. */
  ghost predicate Shows(cells: seq<Cell>, view: View) {
    Sound(cells) && ViewOf(cells) == view
  }

  /** Every state since the first n was the old one or the new one. */
  ghost predicate Atomic(trace: seq<seq<Cell>>, n: nat, was: View, now: View) {
    forall k :: n <= k < |trace| ==> (Shows(trace[k], was) || Shows(trace[k], now))
  }

  lemma AtomicNone(trace: seq<seq<Cell>>, view: View)
    ensures Atomic(trace, |trace|, view, view)
  {
  }

  lemma AtomicNext(trace: seq<seq<Cell>>, cells: seq<Cell>, n: nat, view: View)
    requires Atomic(trace, n, view, view) && Shows(cells, view)
    ensures Atomic(trace + [cells], n, view, view)
  {
    hide Shows;
  }

  lemma SeenDistinct(cells: seq<Cell>, move: Move)
    ensures Distinct(Seen(cells, move)) <==> Distinct(cells)
  {
    var s := Seen(cells, move);
    assert forall i :: 0 <= i < |cells| ==> s[i].ptr == cells[i].ptr;
  }

  /** The list with what is stored left aside. */
  function Bare(cells: seq<Cell>): (r: seq<Cell>)
    ensures |r| == |cells|
  {
    Seen(cells, NoMove)
  }

  lemma SoundFrom(cells: seq<Cell>, d: Delta, extra: multiset<Ptr>)
    requires Distinct(cells) && XorAll(cells) == d && Lacks(Seen(cells, MoveOf(d)), extra)
    requires MoveInside(cells, MoveOf(d)) && (!d.bit ==> extra == multiset{})
    ensures Shows(cells, Scan(None, Seen(cells, MoveOf(d))).view)
  {
    hide Scan, Distinct, MoveInside, Lacks, Extra, XorAll, MoveOf, Seen;
    LacksExtra(Seen(cells, MoveOf(d)), extra);
  }

  // ----- the tree -----

  /** The directories on the list are those that can be reached from the root. */
  ghost predicate IsTree(cells: seq<Cell>) {
    forall x :: Reached(ViewOf(cells), x) <==> x in Scan(None, Bare(cells)).heads
  }

  /** In every state since the first n all directories with entries can be reached. */
  ghost predicate AllRooted(trace: seq<seq<Cell>>, n: nat) {
    forall k :: n <= k < |trace| ==> Rooted(ViewOf(trace[k]))
  }

  lemma AtomicRooted(trace: seq<seq<Cell>>, n: nat, was: View, now: View)
    requires Atomic(trace, n, was, now)
    ensures Rooted(was) && Rooted(now) ==> AllRooted(trace, n)
  {
    hide Rooted, ViewOf, Sound;
  }

  /** With no repairs to make, the list is the tree exactly when every directory with
      an entry can be reached. */
  lemma TreeIff(cells: seq<Cell>)
    requires Distinct(cells) && Tidy(Bare(cells)) && MoveOf(XorAll(cells)) == NoMove
    ensures IsTree(cells) <==> Rooted(ViewOf(cells))
  {
    hide Scan, XorAll, Below, EdgesOf;
    SeenDistinct(cells, NoMove);
    if Rooted(ViewOf(cells)) {
      forall x ensures Reached(ViewOf(cells), x) <==> x in Scan(None, Bare(cells)).heads {
        ReachedIff(Bare(cells), multiset{}, x);
      }
    }
    if IsTree(cells) {
      var edges := EdgesOf(ViewOf(cells));
      TidyEdges(Bare(cells));
      forall e | e in edges ensures Below(edges, ROOT, e.1) {
        InHeads(Bare(cells), e.1);
        assert Reached(ViewOf(cells), e.1);
      }
    }
  }

  /** After a refused commit for which the state of a pair was taken over, all goes on
      as before exactly when that was nothing. */
  lemma TakenOver(was: State, cells: seq<Cell>, x: Ptr)
    requires Linked(was, cells) && was.gdelta == ZERO && x in was.disk
    ensures var st := Stolen(was, x);
      (Linked(st, cells) && st.gdelta == ZERO <==> was.disk[x].stored == ZERO) &&
      (Conserved(st, cells) <==> was.disk[x].stored == ZERO)
  {
    hide Xor, XorAll, IsChain;
    StolenConserved(was, cells, x);
    XorCancels(was.disk[x].stored);
    XorCommutes(ZERO, was.disk[x].stored);
  }

  lemma StoresOnly(cells: seq<Cell>, i: nat)
    requires Distinct(cells) && i < |cells|
    ensures StoresNothing(cells, cells[i].ptr) <==> cells[i].stored == ZERO
  {
  }

  /** Unlinking a pair changes what its predecessor stores, and no other. */
  lemma UnlinkedStores(was: seq<Cell>, cells: seq<Cell>, i: nat)
    requires 1 <= i < |was| && |cells| == |was| - 1 && cells[i - 1].ptr == was[i - 1].ptr
    requires forall h :: 0 <= h < |cells| && h != i - 1 ==> cells[h] == was[if h < i then h else h + 1]
    ensures forall d :: d != was[i].ptr && d != was[i - 1].ptr ==> (StoresNothing(cells, d) <==> StoresNothing(was, d))
  {
    forall d | d != was[i].ptr && d != was[i - 1].ptr ensures StoresNothing(cells, d) <==> StoresNothing(was, d) {
      forall h | 0 <= h < |was| && was[h].ptr == d
        ensures exists g :: 0 <= g < |cells| && cells[g] == was[h]
      {
        var g := if h < i then h else h - 1;
        assert cells[g] == was[h];
      }
    }
  }

  /** An empty directory is neither the pair with its entry nor the one before it that
      is continued there. */
  lemma NotDropped(cells: seq<Cell>, i: nat, k: nat, c: nat)
    requires Distinct(cells) && i < |cells| && k < |cells[i].nodes| && c < |cells|
    requires cells[c].nodes == [] && !cells[c].split
    ensures cells[c].ptr != cells[i].ptr && (DropsPair(cells, i) ==> cells[c].ptr != cells[i - 1].ptr)
  {
  }

  /** What the pairs on the list store is the state on disk as the code knows it. */
  lemma ConservedIff(st: State, cells: seq<Cell>)
    requires st.gdelta == ZERO
    ensures Conserved(st, cells) <==> XorAll(cells) == st.gdisk
  {
    hide Xor, XorAll;
    XorCancels(XorAll(cells));
  }

  /** A pair that was written but not linked takes with it what it was to store: the
      list goes with the state exactly when there was nothing to store. */
  lemma StillLinked(was: State, st: State, cells: seq<Cell>)
    requires Linked(was, cells) && was.gdelta == ZERO && XorAll(cells) == was.gdisk
    requires st.gdelta == ZERO && st.gdisk == was.gstate.delta
    ensures Conserved(st, cells) <==> was.gstate.delta == was.gdisk
  {
    ConservedIff(st, cells);
  }

  ghost predicate NotOn(cells: seq<Cell>, d: Ptr) {
    forall j :: 0 <= j < |cells| ==> cells[j].ptr != d
  }

  lemma ReadyTree(st: State, cells: seq<Cell>)
    requires Linked(st, cells) && Tidy(Bare(cells)) && MoveOf(XorAll(cells)) == NoMove
    ensures IsTree(cells) <==> Rooted(ViewOf(cells))
  {
    hide Scan, XorAll, Xor, Rooted, Tidy, ViewOf;
    TreeIff(cells);
  }

  lemma InHeads(cells: seq<Cell>, x: Ptr)
    requires Tidy(cells) && x in Scan(None, cells).refs
    ensures x in Scan(None, cells).heads
  {
    hide Scan;
    var s := Scan(None, cells);
    assert (s.refs + multiset{ROOT} + multiset{})[x] == s.heads[x];
  }

  /** A directory on the list that cannot be reached is there only when the bit says
      so. */
  lemma DetachedHasBit(cells: seq<Cell>, x: Ptr)
    requires Sound(cells) && Rooted(ViewOf(cells))
    requires x in Scan(None, Seen(cells, MoveOf(XorAll(cells)))).heads && !Reached(ViewOf(cells), x)
    ensures XorAll(cells).bit
  {
    hide Scan, XorAll, Reached, EdgesOf, Extra;
    var seen := Seen(cells, MoveOf(XorAll(cells)));
    SeenDistinct(cells, MoveOf(XorAll(cells)));
    ReachedIff(seen, Extra(seen), x);
  }

  lemma RemoveRooted(cells: seq<Cell>, i: nat, k: nat)
    requires Distinct(cells) && Tidy(Bare(cells)) && MoveOf(XorAll(cells)) == NoMove
    requires i < |cells| && k < |cells[i].nodes| && !Occupied(cells, cells[i].nodes[k])
    ensures Rooted(ViewOf(cells)) ==>
            Rooted(Put(ViewOf(cells), cells[i].ptr, OwnerAt(Bare(cells), i), Remove(cells[i].nodes, k)))
  {
    hide Scan, XorAll, Rooted, Put, Children, Remove;
    SeenDistinct(cells, NoMove);
    ChildrenRemove(cells[i].nodes, k);
    BareEmptyDir(cells, cells[i].nodes[k].child);
    assert Bare(cells)[i] == SeenCell(cells[i], NoMove);
    if Rooted(ViewOf(cells)) {
      LessRooted(Bare(cells), i, Remove(cells[i].nodes, k), ChildOf(cells[i].nodes[k]));
    }
  }

  lemma MkdirRooted(cells: seq<Cell>, i: nat, k: nat, attrs: Attrs, d: Ptr)
    requires Distinct(cells) && Tidy(Bare(cells)) && MoveOf(XorAll(cells)) == NoMove
    requires i < |cells| && k <= |cells[i].nodes| && forall j :: 0 <= j < |cells| ==> cells[j].ptr != d
    ensures Rooted(ViewOf(cells)) ==>
            Rooted(Put(ViewOf(cells), cells[i].ptr, OwnerAt(Bare(cells), i),
              Insert(cells[i].nodes, k, Node(attrs, Some(d)))))
  {
    hide Scan, XorAll, Rooted, Put, Children, Insert;
    SeenDistinct(cells, NoMove);
    ChildrenInsert(cells[i].nodes, k, Node(attrs, Some(d)));
    assert Bare(cells)[i] == SeenCell(cells[i], NoMove);
    if Rooted(ViewOf(cells)) {
      MoreRooted(Bare(cells), i, Insert(cells[i].nodes, k, Node(attrs, Some(d))), d);
    }
  }

  /** A rename keeps every directory reachable exactly when it does not move one into
      itself or below. */
  lemma RenameRooted(cells: seq<Cell>, i: nat, k: nat, j: nat, newid: nat, replace: bool, name: Value)
    requires Distinct(cells) && Tidy(Bare(cells)) && MoveOf(XorAll(cells)) == NoMove
    requires i < |cells| && j < |cells| && k < |cells[i].nodes| && newid <= |cells[j].nodes|
    requires replace ==> newid < |cells[j].nodes| && (i == j ==> newid != k)
    requires RenameResult(cells, i, k, j, newid, replace) == Done
    ensures Rooted(ViewOf(cells)) ==>
            (Rooted(Renamed(cells, i, k, j, newid, replace, name)) <==>
             !Inside(ViewOf(cells), cells[i].nodes[k], OwnerAt(Bare(cells), j)))
  {
    hide Scan, XorAll, Rooted, Put, Children, Insert, Remove, Placed, PlacedWithin, Inside, Tidy;
    SeenDistinct(cells, NoMove);
    var bare, n := Bare(cells), WithName(cells[i].nodes[k], name);
    var replaced := if replace then ChildOf(cells[j].nodes[newid]) else multiset{};
    assert bare[i] == SeenCell(cells[i], NoMove) && bare[j] == SeenCell(cells[j], NoMove);
    if !Rooted(ViewOf(cells)) {
    } else if i == j {
      WithinReplaces(cells, i, k, newid, replace, n, replaced);
      BareReplaced(cells, i, replaced);
      LessRooted(bare, i, PlacedWithin(cells[i].nodes, k, newid, replace, n), replaced);
      NotAbove(bare, i, k);
    } else {
      AcrossReplaces(cells, i, k, j, newid, replace, n, replaced);
      BareReplaced(cells, j, replaced);
      PlacedHas(cells[j].nodes, newid, replace, n);
      MoveRooted(bare, i, k, j, Placed(cells[j].nodes, newid, replace, n), replaced);
    }
  }

  lemma BareReplaced(cells: seq<Cell>, j: nat, replaced: multiset<Ptr>)
    requires j < |cells| && forall x :: x in replaced ==> EmptyDir(cells, x) && x != cells[j].ptr
    ensures forall x :: x in replaced ==> EmptyDir(Bare(cells), x) && x != Bare(cells)[j].ptr
  {
    forall x | x in replaced ensures EmptyDir(Bare(cells), x) && x != Bare(cells)[j].ptr {
      BareEmptyDir(cells, Some(x));
    }
  }

  lemma PlacedHas(nodes: seq<Node>, newid: nat, replace: bool, n: Node)
    requires newid <= |nodes| && (replace ==> newid < |nodes|)
    ensures ChildOf(n) <= Children(Placed(nodes, newid, replace, n))
  {
    hide Children, ChildOf, Insert, Remove, Placed;
    PlacedIs(nodes, newid, replace, n);
    ChildrenInsert(if replace then Remove(nodes, newid) else nodes, newid, n);
  }

  datatype Result = Done | NotEmpty | IsDir | NoSpace

  /** What `lfs_fs_pred` finds; for the root it succeeds and sets nothing. */
  datatype Predecessor = NotFound | Unset | Behind(ptr: Ptr)

  /** Deleting the only entry of the pair at i drops the pair, as it continues a
      directory. */
  predicate DropsPair(cells: seq<Cell>, i: nat)
    requires i < |cells|
  {
    |cells[i].nodes| == 1 && i > 0 && cells[i - 1].split
  }

  /** Taking over what the pair at i stores takes over nothing. */
  ghost predicate StoresNothing(cells: seq<Cell>, x: Ptr) {
    forall i :: 0 <= i < |cells| && cells[i].ptr == x ==> cells[i].stored == ZERO
  }

  class Engine {
    var st: State
    ghost var cells: seq<Cell>
    // The lists of pairs that were on disk after each commit.
    ghost var trace: seq<seq<Cell>>

    /** Between operations: the next one can repair what there is to repair. */
    ghost predicate Valid()
      reads this
    {
      Linked(st, cells) && XorAll(cells) == st.gdisk && st.gdelta == ZERO && Sound(cells) &&
      Agreed(st.gstate) && (MoveOf(st.gstate.delta) == MoveOf(st.gdisk) || MoveOf(st.gstate.delta) == NoMove) &&
      (st.gstate.orphans == 0 ==> Extra(Seen(cells, MoveOf(st.gdisk))) == multiset{})
    }

    /** With nothing left to repair. */
    ghost predicate Ready()
      reads this
    {
      Valid() && MoveOf(st.gdisk) == NoMove && Tidy(Bare(cells))
    }

    /** In the middle of an operation, with nothing pending but what is in `gstate`. */
    ghost predicate Working()
      reads this
    {
      Linked(st, cells) && XorAll(cells) == st.gdisk && st.gdelta == ZERO
    }

    /** The state after a mount, from the sum of what the pairs store. */
    constructor (disk: Disk, sum: Delta, ghost cells: seq<Cell>)
      requires IsChain(disk, cells) && Sound(cells) && sum == XorAll(cells)
      ensures Valid() && this.cells == cells && st.disk == disk && trace == []
      ensures st.gdisk == XorAll(cells) && st.gstate == Mounted(sum)
    {
      XorCancels(sum);
      st := State(disk, Mounted(sum), sum, ZERO);
      this.cells := cells;
      trace := [];
    }

    /** A commit of other entries to the pair at i. */
    method CommitNodes(p: Ptr, nodes: seq<Node>, ghost i: nat)
      requires Linked(st, cells) && i < |cells| && cells[i].ptr == p
      modifies this
      ensures Working() && st.gstate == old(st.gstate) && st.gdisk == st.gstate.delta
      ensures Bare(cells) == Bare(old(cells))[i := Bare(old(cells))[i].(nodes := nodes)]
      ensures |cells| == |old(cells)| && forall h :: 0 <= h < |cells| && h != i ==> cells[h] == old(cells)[h]
      ensures forall d :: d != p ==> (StoresNothing(cells, d) <==> StoresNothing(old(cells), d))
      ensures trace == old(trace) + [cells]
      ensures forall d :: NotOn(old(cells), d) ==> NotOn(cells, d)
    {
      hide XorAll, IsChain;
      AtPair(st, cells, i);
      CommitUpdates(st, cells, i, nodes);
      st := Committed(st, p, nodes, st.disk[p].split, st.disk[p].tail);
      cells := WithPair(old(st), cells, i, nodes, cells[i].split);
      trace := trace + [cells];
    }

    /** `lfs_fs_pred`: the pair whose tail is p. */
    method Pred(p: Ptr) returns (r: Predecessor)
      requires Linked(st, cells)
      ensures r == NotFound <==> NotOn(cells, p)
      ensures r == Unset <==> p == ROOT
      ensures forall i :: 0 < i < |cells| && cells[i].ptr == p ==> r == Behind(cells[i - 1].ptr)
    {
      hide XorAll, Xor, IsChain;
      RootFirst(st, cells);
      if p == ROOT {
        return Unset;
      }
      var at := ROOT;
      ghost var k := 0;
      AtPair(st, cells, 0);
      while st.disk[at].tail.Some?
        invariant 0 <= k < |cells| && at == cells[k].ptr && at in st.disk && st.disk[at] == PairAt(cells, k)
        invariant forall i :: 0 <= i <= k ==> cells[i].ptr != p
        decreases |cells| - k
      {
        if st.disk[at].tail == Some(p) {
          assert cells[k + 1].ptr == p;
          return Behind(at);
        }
        at := st.disk[at].tail.value;
        k := k + 1;
        AtPair(st, cells, k);
      }
      return NotFound;
    }

    /** `lfs_dir_drop` with its predecessor: takes over the state and the tail of the
        pair at i. The state is taken over also when the commit is refused. */
    method Unlink(x: Ptr, pred: Ptr, fits: bool, ghost i: nat)
      requires Linked(st, cells) && 1 <= i < |cells| && cells[i].ptr == x && cells[i - 1].ptr == pred
      modifies this
      ensures st.gstate == old(st.gstate) && x in old(st.disk)
      ensures fits ==> Working() && st.gdisk == st.gstate.delta && Bare(cells) == Unlinked(Bare(old(cells)), i)
      ensures trace == if fits then old(trace) + [cells] else old(trace)
      ensures forall d :: NotOn(old(cells), d) ==> NotOn(cells, d)
      ensures forall d :: d != x && d != pred ==> (StoresNothing(cells, d) <==> StoresNothing(old(cells), d))
      ensures !fits ==> cells == old(cells) && st == Stolen(old(st), x) && st.disk[x].stored == cells[i].stored
    {
      hide XorAll, Xor, IsChain, Conserved, StoresNothing;
      AtPair(st, cells, i);
      AtPair(st, cells, i - 1);
      var dir, stolen := st.disk[x], Stolen(st, x);
      if !fits {
        st := stolen;
        return;
      }
      CommitUnlinks(st, cells, i);
      st := Committed(stolen, pred, st.disk[pred].nodes, dir.split, dir.tail);
      cells := Remove(WithPair(stolen, cells, i - 1, cells[i - 1].nodes, cells[i].split), i);
      trace := trace + [cells];
      UnlinkedStores(old(cells), cells, i);
    }

    /** A commit that deletes entry k of the pair at i. A pair that becomes empty and
        continues a directory is dropped instead. */
    method DeleteEntry(p: Ptr, k: nat, fits: bool, ghost i: nat)
      requires Linked(st, cells) && i < |cells| && cells[i].ptr == p && k < |cells[i].nodes|
      modifies this
      ensures st.gstate == old(st.gstate)
      ensures fits ==> Working() && st.gdisk == st.gstate.delta
      ensures fits ==> var bare := Bare(old(cells));
        Dropped(bare[i := bare[i].(nodes := Remove(bare[i].nodes, k))], Bare(cells), i)
      ensures trace == if fits then old(trace) + [cells] else old(trace)
      ensures forall d :: NotOn(old(cells), d) ==> NotOn(cells, d)
      ensures forall d :: d != p && (DropsPair(old(cells), i) ==> d != old(cells)[i - 1].ptr) ==>
        (StoresNothing(cells, d) <==> StoresNothing(old(cells), d))
      ensures !fits ==>
        cells == old(cells) && p in old(st.disk) && old(st.disk)[p].stored == cells[i].stored &&
        st == if DropsPair(cells, i) then Stolen(old(st), p) else old(st)
    {
      hide XorAll, IsChain;
      AtPair(st, cells, i);
      RootFirst(st, cells);
      var nodes := Remove(st.disk[p].nodes, k);
      if nodes == [] {
        var pred := Pred(p);
        if pred.Behind? {
          AtPair(st, cells, i - 1);
          if st.disk[pred.ptr].split {
            Unlink(p, pred.ptr, fits, i);
            return;
          }
        }
      }
      if fits {
        CommitNodes(p, nodes, i);
      }
    }

    /** `lfs_fs_demove`: completes a rename that was interrupted. When its commit is
        refused, `taken` is the pair whose state was taken over, if any. */
    method Demove(fits: bool) returns (ok: bool, ghost taken: Option<Ptr>)
      requires Valid()
      modifies this
      ensures ok == (fits || MoveOf(old(st.gdisk)) == NoMove)
      ensures ok ==> Valid() && MoveOf(st.gdisk) == NoMove && st.gstate.orphans == old(st.gstate.orphans)
      ensures ok && old(st.gstate.delta == st.gdisk) ==> st.gstate.delta == st.gdisk
      ensures ok ==> Extra(Bare(cells)) == Extra(Seen(old(cells), MoveOf(old(st.gdisk))))
      ensures !ok ==> cells == old(cells) && (Valid() <==> taken.None? || StoresNothing(cells, taken.value))
      ensures !ok && taken.Some? ==> taken.value == MoveOf(old(st.gdisk)).pair
      ensures ViewOf(cells) == ViewOf(old(cells)) && old(trace) <= trace
      ensures Atomic(trace, |old(trace)|, ViewOf(cells), ViewOf(cells))
      ensures Rooted(ViewOf(old(cells))) ==> Rooted(ViewOf(cells)) && AllRooted(trace, |old(trace)|)
      ensures forall d :: NotOn(old(cells), d) ==> NotOn(cells, d)
    {
      hide Scan, XorAll, Xor, IsChain, Distinct, Seen, Extra;
      var move := MoveOf(st.gdisk);
      taken := None;
      AtomicNone(trace, ViewOf(cells));
      AtomicRooted(trace, |trace|, ViewOf(cells), ViewOf(cells));
      if move == NoMove {
        return true, None;
      }
      ghost var i :| 0 <= i < |cells| && MovesFrom(cells[i], move);
      ghost var seen := Seen(cells, move);
      PrepMoveMeans(st.gstate, NoMove);
      st := st.(gstate := PrepMove(st.gstate, NoMove));
      ghost var before := st;
      DeleteEntry(move.pair, move.id, fits, i);
      LinkedDistinct(old(st), old(cells));
      if !fits {
        taken := if DropsPair(cells, i) then Some(move.pair) else None;
        TakenOver(before, cells, move.pair);
        StoresOnly(cells, i);
        return false, taken;
      }
      LinkedDistinct(st, cells);
      MoveDone(old(cells), cells, move, i, Extra(seen), ViewOf(old(cells)));
      LacksExtra(Bare(cells), Extra(seen));
      AtomicRooted(trace, |old(trace)|, ViewOf(cells), ViewOf(cells));
      return true, None;
    }

    /** `lfs_fs_parent`: whether an entry refers to the directory. */
    method HasParent(x: Ptr) returns (r: bool)
      requires Linked(st, cells)
      ensures r <==> x in Scan(None, Bare(cells)).refs
    {
      hide Children, XorAll, Scan, IsChain;
      ghost var bare := Bare(cells);
      var at := Some(ROOT);
      ghost var n := 0;
      RootFirst(st, cells);
      assert bare[..0] == [];
      ScanNothing(None);
      while at.Some?
        invariant n <= |cells| && at == (if n < |cells| then Some(cells[n].ptr) else None)
        invariant x !in Scan(None, bare[..n]).refs
        decreases |cells| - n
      {
        AtPair(st, cells, n);
        var pair := st.disk[at.value];
        var here := Refers(pair.nodes, x);
        Around(bare, n);
        if here {
          return true;
        }
        at := pair.tail;
        n := n + 1;
      }
      assert bare[..n] == bare;
      return false;
    }

    method Refers(nodes: seq<Node>, x: Ptr) returns (r: bool)
      ensures r <==> x in Children(nodes)
    {
      hide Children;
      NoChildren(nodes);
      var k := 0;
      while k < |nodes|
        invariant k <= |nodes| && x !in Children(nodes[..k])
      {
        ChildrenNext(nodes, k);
        if nodes[k].child == Some(x) {
          ChildrenAppend(nodes[..k + 1], nodes[k + 1..]);
          assert nodes == nodes[..k + 1] + nodes[k + 1..];
          return true;
        }
        k := k + 1;
      }
      assert nodes[..k] == nodes;
      return false;
    }

    /** Unlinking an orphan. */
    method UnlinkOrphan(x: Ptr, at: Ptr, ghost i: nat, ghost extra: multiset<Ptr>, ghost view: View,
                        ghost was: seq<Cell>, ghost all: multiset<Ptr>, ghost found: nat)
      requires Working() && MoveOf(st.gdisk) == NoMove && MoveOf(st.gstate.delta) == NoMove && st.gstate.delta.bit
      requires 1 <= i < |cells| && cells[i].ptr == x && cells[i - 1].ptr == at && !cells[i - 1].split
      requires Lacks(Bare(cells), extra) && x in extra && at !in extra && Shows(cells, view)
      requires StillLeft(was, cells, all, extra, found)
      modifies this
      ensures Working() && st.gstate == old(st.gstate) && MoveOf(st.gdisk) == NoMove && st.gdisk == st.gstate.delta
      ensures |cells| == |old(cells)| - 1 && forall j :: 0 <= j < i ==> cells[j].ptr == old(cells[j].ptr)
      ensures at in st.disk && st.disk[at] == PairAt(cells, i - 1)
      ensures Lacks(Bare(cells), extra - multiset{x}) && Shows(cells, view)
      ensures trace == old(trace) + [cells]
      ensures forall d :: NotOn(old(cells), d) ==> NotOn(cells, d)
      ensures StillLeft(was, cells, all, extra - multiset{x}, found + 1)
    {
      hide Scan, XorAll, IsChain, Distinct, Lacks, Extra, StillLeft, StoresNothing;
      LinkedDistinct(st, cells);
      OneOrphan(Bare(cells), extra, x);
      Unlink(x, at, true, i);
      LeftNext(was, old(cells), cells, all, extra, found, x, at);
      LinkedDistinct(st, cells);
      OrphanUnlinked(old(cells), cells, extra, i, view);
      AtPair(st, cells, i - 1);
    }

    /** The same refused. */
    method RefuseOrphan(x: Ptr, at: Ptr, ghost i: nat)
      requires Working() && 1 <= i < |cells| && cells[i].ptr == x && cells[i - 1].ptr == at
      modifies this
      ensures cells == old(cells) && trace == old(trace) && st.gstate == old(st.gstate) && st.gdisk == old(st.gdisk)
      ensures Working() <==> StoresNothing(cells, x)
    {
      hide Scan, XorAll, Xor, IsChain, Distinct;
      LinkedDistinct(st, cells);
      ghost var before := st;
      Unlink(x, at, false, i);
      TakenOver(before, cells, x);
      StoresOnly(cells, i);
    }

    /** Whether the directory that goes on behind the pair has no entry. */
    method IsOrphan(at: Ptr, x: Ptr, ghost i: nat, ghost extra: multiset<Ptr>) returns (r: bool)
      requires Linked(st, cells) && Lacks(Bare(cells), extra) && 1 <= i < |cells|
      requires cells[i].ptr == x && cells[i - 1].ptr == at && at in st.disk && st.disk[at] == PairAt(cells, i - 1)
      ensures r <==> x in extra
      ensures r ==> !cells[i - 1].split
    {
      hide Scan, XorAll, IsChain, Distinct, Lacks, Conserved;
      var parent := true;
      if !st.disk[at].split {
        parent := HasParent(x);
      }
      CheckedParent(st, cells, extra, i);
      return !parent;
    }

    /** In its walk along the list, at the pair `at`, which is the n-th: none up to there
        is an orphan, those in `extra` are, and `found` were. */
    ghost predicate Sweeping(at: Ptr, n: nat, was: seq<Cell>, all: multiset<Ptr>, extra: multiset<Ptr>, found: nat,
                             view: View)
      reads this
    {
      Working() && MoveOf(st.gdisk) == NoMove && MoveOf(st.gstate.delta) == NoMove && st.gstate.delta.bit &&
      n < |cells| && at == cells[n].ptr && at in st.disk && st.disk[at] == PairAt(cells, n) &&
      Lacks(Bare(cells), extra) && Shows(cells, view) && StillLeft(was, cells, all, extra, found) &&
      forall k :: 0 <= k <= n ==> cells[k].ptr !in extra
    }

    /** Its next step: to the next pair, or over it; or it is refused. */
    method SweepOn(at: Ptr, found: nat, limit: Option<nat>, ghost n: nat, ghost was: seq<Cell>,
                   ghost all: multiset<Ptr>,
                   ghost extra: multiset<Ptr>, ghost view: View)
                   returns (at': Ptr, found': nat, ok: bool, ghost n': nat, ghost extra': multiset<Ptr>)
      requires Sweeping(at, n, was, all, extra, found, view) && st.disk[at].tail.Some?
      requires limit.Some? ==> found <= limit.value
      modifies this
      ensures st.gstate == old(st.gstate) && MoveOf(st.gdisk) == NoMove && (limit.Some? ==> found' <= limit.value)
      ensures ok ==> Sweeping(at', n', was, all, extra', found', view) && |cells| - n' < |old(cells)| - n
      ensures ok ==> found' >= found && st.gdisk == if found' == found then old(st.gdisk) else st.gstate.delta
      ensures trace == (if ok && found' != found then old(trace) + [cells] else old(trace))
      ensures !ok ==> limit == Some(found) && found < |all| && cells == old(cells) && at' in all
      ensures !ok ==> (Working() <==> StoresNothing(was, at'))
      ensures !ok ==> (StoresNothing(cells, at') <==> StoresNothing(was, at'))
      ensures forall d :: NotOn(old(cells), d) ==> NotOn(cells, d)
    {
      hide Scan, XorAll, IsChain, Distinct, Lacks, Conserved, Shows, MoveOf, StoresNothing, StillLeft;
      at', found', ok, n', extra' := st.disk[at].tail.value, found, true, n, extra;
      AtPair(st, cells, n + 1);
      var orphan := IsOrphan(at, at', n + 1, extra);
      if !orphan {
        n' := n + 1;
        return;
      }
      LeftAt(was, cells, all, extra, found, at');
      if limit == Some(found) {
        RefuseOrphan(at', at, n + 1);
        ok := false;
        return;
      }
      UnlinkOrphan(at', at, n + 1, extra, view, was, all, found);
      extra' := extra - multiset{at'};
      at', found' := at, found + 1;
    }

    /** The whole walk, with room for so many commits; `taken` is the orphan for which
        there was none. */
    method Sweep(limit: Option<nat>, ghost all: multiset<Ptr>, ghost view: View)
                 returns (found: nat, ok: bool, ghost taken: Option<Ptr>)
      requires Working() && MoveOf(st.gdisk) == NoMove && MoveOf(st.gstate.delta) == NoMove && st.gstate.delta.bit
      requires Lacks(Bare(cells), all) && Shows(cells, view)
      modifies this
      ensures st.gstate == old(st.gstate) && MoveOf(st.gdisk) == NoMove && Shows(cells, view)
      ensures ok == (limit.None? || |all| <= limit.value)
      ensures ok ==> Working() && Tidy(Bare(cells)) && found == |all|
      ensures ok ==> ((found == 0 && st.gdisk == old(st.gdisk)) || st.gdisk == st.gstate.delta)
      ensures !ok ==> taken.Some? && taken.value in all && (Working() <==> StoresNothing(old(cells), taken.value))
      ensures !ok ==> (StoresNothing(cells, taken.value) <==> StoresNothing(old(cells), taken.value))
      ensures old(trace) <= trace && Atomic(trace, |old(trace)|, view, view)
      ensures forall d :: NotOn(old(cells), d) ==> NotOn(cells, d)
    {
      hide Scan, XorAll, IsChain, Distinct, Seen, Lacks, Conserved, Shows, MoveOf, Atomic, StoresNothing, StillLeft,
        NotOn;
      AtomicNone(trace, view);
      NothingFound(cells, all);
      RootFirst(st, cells);
      NotExtra(cells, all, 0);
      AtPair(st, cells, 0);
      found, ok, taken := 0, true, None;
      var at := ROOT;
      ghost var n, extra := 0, all;
      while st.disk[at].tail.Some?
        invariant Sweeping(at, n, old(cells), all, extra, found, view) && st.gstate == old(st.gstate)
        invariant (found == 0 && st.gdisk == old(st.gdisk)) || st.gdisk == st.gstate.delta
        invariant limit.Some? ==> found <= limit.value
        invariant old(trace) <= trace && Atomic(trace, |old(trace)|, view, view)
        invariant forall d :: NotOn(old(cells), d) ==> NotOn(cells, d)
        decreases |cells| - n
      {
        ghost var before, m := trace, found;
        at, found, ok, n, extra := SweepOn(at, found, limit, n, old(cells), all, extra, view);
        if !ok {
          return found, false, Some(at);
        }
        if found != m {
          AtomicNext(before, cells, |old(trace)|, view);
        }
      }
      NoneExtra(cells, extra);
      LeftNone(old(cells), cells, all, found);
    }

    /** `lfs_fs_deorphan` after a loss of power: unlinks the directories that nothing
        refers to. */
    method Deorphan(limit: Option<nat>) returns (ok: bool, ghost taken: Option<Ptr>)
      requires Valid() && MoveOf(st.gdisk) == NoMove
      modifies this
      ensures ok == (limit.None? || old(|Extra(Bare(cells))|) <= limit.value)
      ensures ok ==> Ready()
      ensures ok && old(st.gstate.delta == st.gdisk) ==>
        (st.gstate.delta == st.gdisk <==> !(0 < old(st.gstate.orphans) <= old(|Extra(Bare(cells))|)))
      ensures !ok ==> taken.Some? && taken.value in old(Extra(Bare(cells)))
      ensures !ok ==> (Valid() <==> StoresNothing(old(cells), taken.value))
      ensures !ok ==> (Valid() <==> StoresNothing(cells, taken.value))
      ensures ViewOf(cells) == ViewOf(old(cells)) && old(trace) <= trace
      ensures Atomic(trace, |old(trace)|, ViewOf(cells), ViewOf(cells))
      ensures Rooted(ViewOf(old(cells))) ==> Rooted(ViewOf(cells)) && AllRooted(trace, |old(trace)|)
      ensures ok && Rooted(ViewOf(old(cells))) ==> IsTree(cells)
      ensures forall d :: NotOn(old(cells), d) ==> NotOn(cells, d)
    {
      hide Scan, XorAll, IsChain, Distinct, Seen, Lacks, Extra, StoresNothing, Rooted, IsTree, AllRooted;
      if st.gstate.orphans == 0 {
        ReadyTree(st, cells);
        AtomicNone(trace, ViewOf(cells));
        AtomicRooted(trace, |trace|, ViewOf(cells), ViewOf(cells));
        return true, None;
      }
      var found;
      found, ok, taken := Sweep(limit, Extra(Bare(cells)), ViewOf(cells));
      AtomicRooted(trace, |old(trace)|, ViewOf(cells), ViewOf(cells));
      if !ok {
        return;
      }
      LacksExtra(Bare(cells), multiset{});
      var change: int := 0 - Min(st.gstate.orphans, found);
      PrepOrphansMeans(st.gstate, change);
      st := st.(gstate := PrepOrphans(st.gstate, change));
      ReadyTree(st, cells);
    }

    /** `lfs_fs_forceconsistency`, with which every operation starts, with room for so
        many commits. */
    method ForceConsistency(limit: Option<nat>) returns (ok: bool, ghost taken: Option<Ptr>)
      requires Valid()
      modifies this
      ensures var moves := if MoveOf(old(st.gdisk)) == NoMove then 0 else 1;
        ok == (limit.None? || moves + old(|Extra(Seen(cells, MoveOf(st.gdisk)))|) <= limit.value)
      ensures ok ==> Ready()
      ensures ok && old(st.gstate.delta == st.gdisk) ==>
        (st.gstate.delta == st.gdisk <==> !(0 < old(st.gstate.orphans) <= old(|Extra(Seen(cells, MoveOf(st.gdisk)))|)))
      ensures !ok ==> (Valid() <==> taken.None? || StoresNothing(cells, taken.value))
      ensures !ok && taken.Some? ==>
        taken.value in old(Extra(Seen(cells, MoveOf(st.gdisk)))) ||
        (MoveOf(old(st.gdisk)).Moving? && taken.value == MoveOf(old(st.gdisk)).pair)
      ensures ViewOf(cells) == ViewOf(old(cells)) && old(trace) <= trace
      ensures Atomic(trace, |old(trace)|, ViewOf(cells), ViewOf(cells))
      ensures Rooted(ViewOf(old(cells))) ==> Rooted(ViewOf(cells)) && AllRooted(trace, |old(trace)|)
      ensures ok && Rooted(ViewOf(old(cells))) ==> IsTree(cells)
      ensures forall d :: NotOn(old(cells), d) ==> NotOn(cells, d)
    {
      hide XorAll, IsChain, Distinct, Seen, Lacks, Extra, Shows, ViewOf, StoresNothing, Rooted, IsTree, AllRooted;
      var moves := MoveOf(st.gdisk) != NoMove;
      ok, taken := Demove(limit != Some(0));
      if ok {
        ok, taken := Deorphan(if limit.None? || !moves then limit else Some(limit.value - 1));
      }
      AtomicRooted(trace, |old(trace)|, ViewOf(cells), ViewOf(cells));
    }

    /** Whether the directory has neither entries nor further pairs. */
    method IsEmpty(x: Ptr, ghost i: nat) returns (r: bool)
      requires Linked(st, cells) && i < |cells| && cells[i].ptr == x
      ensures r == (cells[i].nodes == [] && !cells[i].split)
    {
      hide XorAll, IsChain;
      AtPair(st, cells, i);
      r := st.disk[x].nodes == [] && !st.disk[x].split;
    }

    /** Unlinks a directory that has been removed from the tree: the end of
        `lfs_rawremove` and `lfs_rawrename`. */
    method DropDir(x: Ptr, fits: bool, ghost view: View)
      requires Working() && MoveOf(st.gdisk) == NoMove && MoveOf(st.gstate.delta) == NoMove && st.gstate.orphans > 0
      requires Lacks(Bare(cells), multiset{x}) && Shows(cells, view)
      modifies this
      ensures Shows(cells, view) && trace == if fits then old(trace) + [cells] else old(trace)
      ensures if fits then Ready() else Valid() <==> old(st.gstate.orphans) > 1 && StoresNothing(old(cells), x)
    {
      hide Scan, XorAll, IsChain, Distinct, Lacks, Extra, PrepOrphans;
      PrepOrphansMeans(st.gstate, -1);
      st := st.(gstate := PrepOrphans(st.gstate, -1));
      ghost var i := OnList(st, cells, multiset{x}, x);
      var pred := Pred(x);
      ghost var before := st;
      Unlink(x, pred.ptr, fits, i);
      if fits {
        LinkedDistinct(st, cells);
        LastOrphanUnlinked(old(cells), cells, x, i, view);
      } else {
        LinkedDistinct(before, cells);
        LacksExtra(Bare(cells), multiset{x});
        StoresOnly(cells, i);
        TakenOver(before, cells, x);
      }
    }

    /** `lfs_rawremove` of entry k of the pair at i; only the first `room` commits
        succeed. */
    method RemoveEntry(p: Ptr, k: nat, room: nat, ghost i: nat) returns (r: Result)
      requires Ready() && i < |cells| && cells[i].ptr == p && k < |cells[i].nodes|
      modifies this
      ensures old(trace) <= trace
      ensures r == if Occupied(old(cells), old(cells[i].nodes[k])) then NotEmpty
                   else if room < (if old(cells[i].nodes[k].child.Some?) then 2 else 1) then NoSpace else Done
      ensures r == NotEmpty ==> cells == old(cells) && trace == old(trace)
      ensures var now := Put(ViewOf(old(cells)), p, OwnerAt(Bare(old(cells)), i), Remove(old(cells[i].nodes), k));
        (r == Done || (r == NoSpace && room > 0) ==> ViewOf(cells) == now) &&
        (r == NoSpace && room == 0 ==> cells == old(cells)) && Atomic(trace, |old(trace)|, ViewOf(old(cells)), now)
      ensures r == NoSpace ==>
        (Valid() <==> if room == 0 then !DropsPair(old(cells), i) || old(cells[i].stored) == ZERO
                      else old(st.gstate.orphans) > 0 && StoresNothing(old(cells), old(cells[i].nodes[k].child.value)))
      ensures r != NoSpace ==> Ready()
      ensures Rooted(ViewOf(old(cells))) ==> Rooted(ViewOf(cells)) && AllRooted(trace, |old(trace)|)
      ensures r != NoSpace && Rooted(ViewOf(old(cells))) ==> IsTree(cells)
    {
      hide Scan, XorAll, IsChain, Distinct, Lacks, Extra, PrepOrphans, Rooted, IsTree, AllRooted, Put, ViewOf, Sound,
        Xor, StoresNothing, DropsPair;
      ghost var now := Put(ViewOf(cells), p, OwnerAt(Bare(cells), i), Remove(cells[i].nodes, k));
      AtPair(st, cells, i);
      LinkedDistinct(st, cells);
      AtomicNone(trace, ViewOf(cells));
      AtomicRooted(trace, |trace|, ViewOf(cells), ViewOf(cells));
      ReadyTree(st, cells);
      var child := st.disk[p].nodes[k].child;
      if child.Some? {
        ghost var c := ChildOnList(st, cells, i, k);
        var free := IsEmpty(child.value, c);
        OccupiedAt(cells, cells[i].nodes[k], c);
        if !free {
          return NotEmpty;
        }
        NotDropped(cells, i, k, c);
        PrepOrphansMeans(st.gstate, 1);
        st := st.(gstate := PrepOrphans(st.gstate, 1));
      }
      ghost var before := st;
      DeleteEntry(p, k, room > 0, i);
      if room == 0 {
        TakenOver(before, cells, p);
        return NoSpace;
      }
      LinkedDistinct(st, cells);
      DeletedShows(old(cells), cells, i, k);
      RemoveRooted(old(cells), i, k);
      r := Done;
      if child.Some? {
        DropDir(child.value, room > 1, now);
        r := if room > 1 then Done else NoSpace;
      }
      if room > 1 || child.None? {
        ReadyTree(st, cells);
      }
      AtomicRooted(trace, |old(trace)|, ViewOf(old(cells)), now);
    }

    /** The last pair of the directory that the pair at i is part of. */
    method LastOf(p: Ptr, ghost i: nat) returns (r: Ptr, ghost n: nat)
      requires Linked(st, cells) && Tidy(Bare(cells)) && i < |cells| && cells[i].ptr == p
      ensures i <= n < |cells| && r == cells[n].ptr && !cells[n].split && (n == i <==> !cells[i].split)
    {
      hide Scan, XorAll, IsChain, Distinct;
      r, n := p, i;
      AtPair(st, cells, n);
      LastUnsplit(cells);
      while st.disk[r].split
        invariant i <= n < |cells| && r == cells[n].ptr && r in st.disk && st.disk[r] == PairAt(cells, n)
        invariant n > i ==> cells[i].split
        decreases |cells| - n
      {
        r := st.disk[r].tail.value;
        n := n + 1;
        AtPair(st, cells, n);
      }
    }

    /** Writes a new pair that leads on to where the pair at n does. */
    method WriteNew(d: Ptr, tail: Option<Ptr>, ghost n: nat)
      requires Working() && n < |cells| && tail == TailAt(cells, n)
      requires forall j :: 0 <= j < |cells| ==> cells[j].ptr != d
      modifies this
      ensures IsChain(st.disk, cells) && cells == old(cells) && st.gstate == old(st.gstate) && st.gdelta == ZERO
      ensures d in st.disk && st.disk[d] == Pair([], false, tail, st.disk[d].stored)
      ensures Xor(XorAll(cells), st.disk[d].stored) == st.gdisk == st.gstate.delta
      ensures trace == old(trace) + [cells]
    {
      hide XorAll, Xor, IsChain;
      var pair := Pair([], false, tail, Change(st));
      OtherChain(st.disk, cells, d, pair);
      ChangeReaches(XorAll(cells), st);
      st := State(st.disk[d := pair], st.gstate, st.gstate.delta, ZERO);
      trace := trace + [cells];
    }

    /** A commit to the pair at n that lets its tail lead to the new pair. */
    method Link(p: Ptr, nodes: seq<Node>, d: Ptr, ghost n: nat)
      requires IsChain(st.disk, cells) && n < |cells| && cells[n].ptr == p && !cells[n].split
      requires d in st.disk && st.disk[d] == Pair([], false, TailAt(cells, n), st.disk[d].stored)
      requires forall j :: 0 <= j < |cells| ==> cells[j].ptr != d
      requires Xor(XorAll(cells), st.disk[d].stored) == st.gdisk && st.gdelta == ZERO
      modifies this
      ensures Working() && st.gstate == old(st.gstate) && st.gdisk == st.gstate.delta
      ensures var bare := Bare(old(cells));
        Bare(cells) == Insert(bare, n + 1, Cell(d, [], false, ZERO))[n := bare[n].(nodes := nodes)]
      ensures trace == old(trace) + [cells]
    {
      hide XorAll, Xor, IsChain;
      XorCancels(Xor(XorAll(cells), st.disk[d].stored));
      AtPair(st, cells, n);
      CommitLinks(st, cells, n, nodes, d);
      ghost var stored := st.disk[d].stored;
      st := Committed(st, p, nodes, false, Some(d));
      cells := Insert(WithPair(old(st), cells, n, nodes, false), n + 1, Cell(d, [], false, stored));
      trace := trace + [cells];
    }

    /** `lfs_rawmkdir` as entry k of the pair at i, with a newly allocated pair; only the
        first `room` commits succeed. */
    method Mkdir(p: Ptr, k: nat, attrs: Attrs, d: Ptr, room: nat, ghost i: nat) returns (r: Result)
      requires Ready() && i < |cells| && cells[i].ptr == p && k <= |cells[i].nodes|
      requires forall j :: 0 <= j < |cells| ==> cells[j].ptr != d
      modifies this
      ensures r == if room < (if old(cells[i].split) then 3 else 2) then NoSpace else Done
      ensures old(trace) <= trace
      ensures var n := Node(attrs, Some(d));
        var now := Put(ViewOf(old(cells)), p, OwnerAt(Bare(old(cells)), i), Insert(old(cells[i].nodes), k, n));
        r == Done ==> Ready() && ViewOf(cells) == now && Atomic(trace, |old(trace)|, ViewOf(old(cells)), now)
      ensures r == NoSpace ==>
        ViewOf(cells) == ViewOf(old(cells)) && Atomic(trace, |old(trace)|, ViewOf(old(cells)), ViewOf(old(cells))) &&
        (Valid() <==>
           room == 0 || (room == 1 && old(st.gstate.delta == st.gdisk)) || (room == 2 && old(st.gstate.orphans > 0)))
      ensures Rooted(ViewOf(old(cells))) ==> Rooted(ViewOf(cells)) && AllRooted(trace, |old(trace)|)
      ensures r == Done && Rooted(ViewOf(old(cells))) ==> IsTree(cells)
    {
      hide Scan, XorAll, Xor, IsChain, Distinct, Lacks, Extra, PrepOrphans, Rooted, IsTree, AllRooted, Put;
      RootFirst(st, cells);
      MkdirRooted(cells, i, k, attrs, d);
      if room == 0 {
        AtomicRooted(trace, |trace|, ViewOf(cells), ViewOf(cells));
        return NoSpace;
      }
      AtPair(st, cells, i);
      LinkedDistinct(st, cells);
      var pred;
      ghost var n;
      pred, n := LastOf(p, i);
      AtPair(st, cells, n);
      WriteNew(d, st.disk[pred].tail, n);
      AtPair(st, cells, i);
      AtPair(st, cells, n);
      if st.disk[p].split {
        r := MkdirSplit(p, k, attrs, d, pred, room - 1, i, n);
      } else {
        if room == 1 {
          StillLinked(old(st), st, cells);
          AtomicRooted(trace, |old(trace)|, ViewOf(cells), ViewOf(cells));
          return NoSpace;
        }
        Link(p, Insert(st.disk[p].nodes, k, Node(attrs, Some(d))), d, n);
        LinkedDistinct(st, cells);
        InsertedShows(old(cells), cells, cells, n, i, k, attrs, d);
        r := Done;
      }
      if r == Done {
        ReadyTree(st, cells);
      }
      AtomicRooted(trace, |old(trace)|, ViewOf(old(cells)), ViewOf(cells));
    }

    /** The commits when the directory goes on in further pairs: to the last of them, and
        to the one with the entry. */
    method MkdirSplit(p: Ptr, k: nat, attrs: Attrs, d: Ptr, pred: Ptr, room: nat, ghost i: nat, ghost n: nat)
                      returns (r: Result)
      requires IsChain(st.disk, cells) && st.gdelta == ZERO && i < n < |cells| && cells[i].ptr == p &&
               k <= |cells[i].nodes|
      requires cells[n].ptr == pred && !cells[n].split && forall j :: 0 <= j < |cells| ==> cells[j].ptr != d
      requires d in st.disk && st.disk[d] == Pair([], false, TailAt(cells, n), st.disk[d].stored)
      requires Xor(XorAll(cells), st.disk[d].stored) == st.gdisk == st.gstate.delta
      requires Sound(cells) && Agreed(st.gstate) && Tidy(Bare(cells))
      requires MoveOf(XorAll(cells)) == NoMove && MoveOf(st.gdisk) == NoMove
      modifies this
      ensures r == if room < 2 then NoSpace else Done
      ensures old(trace) <= trace
      ensures var was, now := ViewOf(old(cells)),
        Put(ViewOf(old(cells)), p, OwnerAt(Bare(old(cells)), i), Insert(old(cells[i].nodes), k, Node(attrs, Some(d))));
        (r == Done ==> Ready() && ViewOf(cells) == now && Atomic(trace, |old(trace)|, was, now)) &&
        (r == NoSpace ==> ViewOf(cells) == was && Atomic(trace, |old(trace)|, was, was))
      ensures r == NoSpace ==>
        (Valid() <==> if room == 0 then XorAll(old(cells)) == old(st.gdisk) else old(st.gstate.orphans > 0))
    {
      hide Scan, XorAll, Xor, IsChain, Distinct, Lacks, Extra, PrepOrphans, Put;
      AtPair(st, cells, i);
      AtPair(st, cells, n);
      LacksExtra(Bare(cells), multiset{});
      PrepOrphansMeans(st.gstate, 1);
      st := st.(gstate := PrepOrphans(st.gstate, 1));
      if room == 0 {
        ConservedIff(st, cells);
        return NoSpace;
      }
      Link(pred, st.disk[pred].nodes, d, n);
      LinkedDistinct(st, cells);
      LinkedShows(old(cells), cells, n, d);
      PrepOrphansMeans(st.gstate, -1);
      st := st.(gstate := PrepOrphans(st.gstate, -1));
      if room == 1 {
        return NoSpace;
      }
      ghost var mid := cells;
      AtPair(st, cells, i);
      CommitNodes(p, Insert(st.disk[p].nodes, k, Node(attrs, Some(d))), i);
      LinkedDistinct(st, cells);
      InsertedShows(old(cells), mid, cells, n, i, k, attrs, d);
      return Done;
    }

    /** The commits that move entry k of the pair at i to another pair, at j, which
        then has the given entries; only the first `room` succeed. */
    method MoveAcross(p: Ptr, k: nat, q: Ptr, nodes: seq<Node>, room: nat, ghost i: nat, ghost j: nat,
                      ghost replaced: multiset<Ptr>)
      requires Working() && Tidy(Bare(cells)) && Sound(cells) && i < |cells| && j < |cells| && i != j
      requires cells[i].ptr == p && cells[j].ptr == q && k < |cells[i].nodes| && k < NO_ID && Agreed(st.gstate)
      requires MoveOf(st.gdisk) == NoMove && MoveOf(st.gstate.delta) == NoMove
      requires Replaces(cells, j, nodes, cells[i].nodes[k], replaced) &&
               (replaced != multiset{} ==> st.gstate.delta.bit)
      modifies this
      ensures st.gstate.orphans == old(st.gstate.orphans) && st.gstate.delta.bit == old(st.gstate.delta.bit)
      ensures room == 0 ==>
        cells == old(cells) && trace == old(trace) && Working() && st.gdisk == old(st.gdisk) &&
        MoveOf(st.gstate.delta) == Moving(p, k)
      ensures room > 0 ==> Shows(cells, Moved(old(cells), i, k, j, nodes)) && MoveOf(st.gstate.delta) == NoMove
      ensures room == 1 ==> (Valid() <==> !DropsPair(old(cells), i) || old(cells)[i].stored == ZERO)
      ensures room == 1 ==> Bare(cells) == Bare(old(cells))[j := Bare(old(cells))[j].(nodes := nodes)]
      ensures room > 1 ==> Working() && MoveOf(st.gdisk) == NoMove && Lacks(Bare(cells), replaced)
      ensures room > 1 ==>
        forall d :: d != p && d != q && (DropsPair(old(cells), i) ==> d != old(cells)[i - 1].ptr) ==>
          (StoresNothing(cells, d) <==> StoresNothing(old(cells), d))
      ensures old(trace) <= trace
      ensures Atomic(trace, |old(trace)|, ViewOf(old(cells)), Moved(old(cells), i, k, j, nodes))
    {
      hide Scan, XorAll, Xor, IsChain, Distinct, Lacks, Extra, PrepMove, Children, Moved, ViewOf, Sound,
        StoresNothing, DropsPair;
      LinkedDistinct(st, cells);
      PrepMoveMeans(st.gstate, Moving(p, k));
      st := st.(gstate := PrepMove(st.gstate, Moving(p, k)));
      if room == 0 {
        return;
      }
      CommitNodes(q, nodes, j);
      LinkedDistinct(st, cells);
      ghost var mid := cells;
      MoveShows(old(cells), mid, i, k, j, nodes, replaced);
      PrepMoveMeans(st.gstate, NoMove);
      st := st.(gstate := PrepMove(st.gstate, NoMove));
      ghost var before := st;
      SameDrops(old(cells), mid, i);
      DeleteEntry(p, k, room > 1, i);
      if room == 1 {
        LacksExtra(Seen(mid, Moving(p, k)), replaced);
        TakenOver(before, mid, p);
        return;
      }
      LinkedDistinct(st, cells);
      MoveDone(mid, cells, Moving(p, k), i, replaced, Moved(old(cells), i, k, j, nodes));
    }

    /** The commit that moves an entry within the pair at i. */
    method MoveWithin(p: Ptr, nodes: seq<Node>, ghost i: nat, ghost replaced: multiset<Ptr>)
      requires Working() && Tidy(Bare(cells)) && Sound(cells) && i < |cells| && cells[i].ptr == p
      requires MoveOf(st.gdisk) == NoMove && MoveOf(st.gstate.delta) == NoMove
      requires Replaces(cells, i, nodes, Node(map[], None), replaced) &&
               (replaced != multiset{} ==> st.gstate.delta.bit)
      modifies this
      ensures Working() && MoveOf(st.gdisk) == NoMove && st.gstate == old(st.gstate)
      ensures var now := Put(ViewOf(old(cells)), p, OwnerAt(Bare(old(cells)), i), nodes);
        Lacks(Bare(cells), replaced) && Shows(cells, now)
      ensures forall d :: d != p ==> (StoresNothing(cells, d) <==> StoresNothing(old(cells), d))
      ensures trace == old(trace) + [cells]
    {
      hide Scan, XorAll, Xor, IsChain, Distinct, Lacks, Extra, Children;
      LinkedDistinct(st, cells);
      CommitNodes(p, nodes, i);
      LinkedDistinct(st, cells);
      WithinShows(old(cells), cells, i, nodes, replaced);
    }

    /** The commits of a rename, when nothing stands in its way; only the first `room`
        succeed. */
    method MoveEntry(p: Ptr, k: nat, q: Ptr, newid: nat, replace: bool, name: Value, dropped: Option<Ptr>, room: nat,
                     ghost i: nat, ghost j: nat)
      requires Working() && Tidy(Bare(cells)) && Sound(cells) && Agreed(st.gstate)
      requires MoveOf(st.gdisk) == NoMove && MoveOf(st.gstate.delta) == NoMove
      requires i < |cells| && j < |cells| && cells[i].ptr == p && cells[j].ptr == q
      requires k < |cells[i].nodes| && k < NO_ID && newid <= |cells[j].nodes|
      requires replace ==>
               newid < |cells[j].nodes| && !Occupied(cells, cells[j].nodes[newid]) && (i == j ==> newid != k)
      requires dropped == Replaced(cells, j, newid, replace) && (dropped.Some? ==> st.gstate.orphans > 0)
      modifies this
      ensures room >= Commits(i == j, dropped) ==> Ready()
      ensures room == 0 ==>
        cells == old(cells) && trace == old(trace) && Working() && Agreed(st.gstate) &&
        st.gdisk == old(st.gdisk) && st.gstate.orphans == old(st.gstate.orphans) &&
        MoveOf(st.gstate.delta) == if i == j then NoMove else Moving(p, k)
      ensures room < Commits(i == j, dropped) ==>
        (Valid() <==> CanGoOn(old(cells), old(st.gstate.orphans), i, j, dropped, room))
      ensures room == 1 && i != j ==>
        Bare(cells) == MovedTo(old(cells), i, k, j, newid, replace, name) && MoveOf(st.gstate.delta) == NoMove
      ensures old(trace) <= trace
      ensures var now := Renamed(old(cells), i, k, j, newid, replace, name);
        (room > 0 ==> ViewOf(cells) == now) && Atomic(trace, |old(trace)|, ViewOf(old(cells)), now)
    {
      hide Scan, XorAll, Xor, IsChain, Distinct, Lacks, Extra, Children, Put, Placed, PlacedWithin, ViewOf, Conserved,
        Sound, StoresNothing, DropsPair;
      AtPair(st, cells, i);
      AtPair(st, cells, j);
      LinkedDistinct(st, cells);
      SamePair(cells, i, j);
      LacksExtra(Bare(cells), multiset{});
      var nodes, node := st.disk[q].nodes, WithName(st.disk[p].nodes[k], name);
      ghost var now := Renamed(cells, i, k, j, newid, replace, name);
      ghost var replaced := if dropped.Some? then multiset{dropped.value} else multiset{};
      var placed := Insert(if replace then Remove(nodes, newid) else nodes, newid, node);
      if dropped.Some? {
        ghost var c := ChildOnList(st, cells, j, newid);
        OccupiedAt(cells, cells[j].nodes[newid], c);
        NotDropped(cells, i, k, c);
        NotDropped(cells, j, newid, c);
      }
      if p == q {
        if room == 0 {
          return;
        }
        var from := if !replace && newid <= k then k + 1 else k;
        WithinReplaces(cells, i, k, newid, replace, node, replaced);
        MoveWithin(p, Remove(placed, from), i, replaced);
      } else {
        AcrossReplaces(cells, i, k, j, newid, replace, node, replaced);
        MoveAcross(p, k, q, placed, room, i, j, replaced);
        if room < 2 {
          return;
        }
      }
      FinishMove(dropped, room >= Commits(p == q, dropped), now);
    }

    /** A directory that was replaced is dropped. */
    method FinishMove(dropped: Option<Ptr>, fits: bool, ghost view: View)
      requires Working() && MoveOf(st.gdisk) == NoMove && MoveOf(st.gstate.delta) == NoMove && Agreed(st.gstate)
      requires dropped.Some? ==> st.gstate.orphans > 0
      requires Lacks(Bare(cells), if dropped.Some? then multiset{dropped.value} else multiset{}) && Shows(cells, view)
      modifies this
      ensures Shows(cells, view) && old(trace) <= trace && Atomic(trace, |old(trace)|, view, view)
      ensures if fits || dropped.None? then Ready()
        else Valid() <==> old(st.gstate.orphans) > 1 && StoresNothing(old(cells), dropped.value)
    {
      hide Scan, XorAll, IsChain, Distinct, Lacks, Extra;
      if dropped.Some? {
        DropDir(dropped.value, fits, view);
      } else {
        LacksExtra(Bare(cells), multiset{});
      }
    }

    /** `lfs_rawrename` of entry k of the pair at i to id `newid` of the pair at j: as
        a new entry, or to replace the one there. Only the first `room` commits succeed. */
    method Rename(p: Ptr, k: nat, q: Ptr, newid: nat, replace: bool, name: Value, room: nat, ghost i: nat, ghost j: nat)
                  returns (r: Result)
      requires Ready() && i < |cells| && j < |cells| && cells[i].ptr == p && cells[j].ptr == q
      requires k < |cells[i].nodes| && k < NO_ID && newid <= |cells[j].nodes| && (replace ==> newid < |cells[j].nodes|)
      modifies this
      ensures var stays := replace && i == j && newid == k;
        var result := RenameResult(old(cells), i, k, j, newid, replace);
        var enough := room >= Commits(i == j, Replaced(old(cells), j, newid, replace));
        r == if result == Done && !stays && !enough then NoSpace else result
      ensures var source, target := old(cells[i].nodes[k]), if replace then Some(old(cells[j].nodes[newid])) else None;
        (r == IsDir <==> target.Some? && (target.value.child == None <==> source.child != None)) &&
        (r == NotEmpty <==>
           target.Some? && r != IsDir && !(i == j && newid == k) && Occupied(old(cells), target.value))
      ensures r == NotEmpty || r == IsDir || (replace && i == j && newid == k) ==>
        cells == old(cells) && trace == old(trace)
      ensures r != NoSpace ==> Ready()
      ensures (r == Done || r == NoSpace) && !(replace && i == j && newid == k) ==>
        var now := Renamed(old(cells), i, k, j, newid, replace, name);
        (r == Done || room > 0 ==> ViewOf(cells) == now) && Atomic(trace, |old(trace)|, ViewOf(old(cells)), now) &&
        Relocated(old(cells), now, i, k, j, newid, replace, name) &&
        (Rooted(ViewOf(old(cells))) ==>
           (Rooted(now) <==> !Inside(ViewOf(old(cells)), old(cells[i].nodes[k]), OwnerAt(Bare(old(cells)), j))))
      ensures r == NoSpace ==>
        (Valid() <==>
          CanGoOn(old(cells), old(st.gstate.orphans) + 1, i, j, Replaced(old(cells), j, newid, replace), room))
      ensures r == NoSpace && room == 0 ==>
        cells == old(cells) && trace == old(trace) && Working() && Agreed(st.gstate) &&
        st.gstate.orphans >= old(st.gstate.orphans) &&
        MoveOf(st.gstate.delta) == if i == j then NoMove else Moving(p, k)
      ensures r == NoSpace && room == 1 && i != j ==>
        Bare(cells) == MovedTo(old(cells), i, k, j, newid, replace, name) && MoveOf(st.gstate.delta) == NoMove
      ensures old(trace) <= trace && (r != NoSpace ==> (IsTree(cells) <==> Rooted(ViewOf(cells))))
      ensures Rooted(ViewOf(old(cells))) && Rooted(ViewOf(cells)) ==> AllRooted(trace, |old(trace)|)
    {
      hide Scan, XorAll, Xor, IsChain, Distinct, Lacks, Extra, PrepOrphans, Put, Renamed, ViewOf, Shows, Sound,
        Rooted, Inside, IsTree, Relocated;
      AtPair(st, cells, i);
      AtPair(st, cells, j);
      LinkedDistinct(st, cells);
      ReadyTree(st, cells);
      SamePair(cells, i, j);
      var dropped: Option<Ptr> := None;
      if replace {
        var prev := st.disk[q].nodes[newid];
        if prev.child.Some? != st.disk[p].nodes[k].child.Some? {
          return IsDir;
        }
        if p == q && newid == k {
          return Done;
        }
        if prev.child.Some? {
          ghost var c := ChildOnList(st, cells, j, newid);
          var free := IsEmpty(prev.child.value, c);
          OccupiedAt(cells, cells[j].nodes[newid], c);
          if !free {
            return NotEmpty;
          }
          dropped := prev.child;
          PrepOrphansMeans(st.gstate, 1);
          st := st.(gstate := PrepOrphans(st.gstate, 1));
        }
      }
      MoveEntry(p, k, q, newid, replace, name, dropped, room, i, j);
      RenamedIs(old(cells), i, k, j, newid, replace, name);
      RenameRooted(old(cells), i, k, j, newid, replace, name);
      AtomicRooted(trace, |old(trace)|, ViewOf(old(cells)), Renamed(old(cells), i, k, j, newid, replace, name));
      if room < Commits(p == q, dropped) {
        return NoSpace;
      }
      ReadyTree(st, cells);
      return Done;
    }
  }

  /** `lfs_rawmount`: adds up what the pairs on the list store. */
  method SumOf(disk: Disk, ghost cells: seq<Cell>) returns (sum: Delta)
    requires IsChain(disk, cells)
    ensures sum == XorAll(cells)
  {
    hide Xor, IsChain;
    sum := ZERO;
    var at := Some(ROOT);
    ghost var n := 0;
    FirstIsRoot(disk, cells);
    while at.Some?
      invariant n <= |cells| && at == (if n < |cells| then Some(cells[n].ptr) else None)
      invariant sum == XorAll(cells[..n])
      decreases |cells| - n
    {
      StoredHere(disk, cells, n);
      assert cells[..n + 1][..n] == cells[..n];
      sum := Xor(sum, disk[at.value].stored);
      at := disk[at.value].tail;
      n := n + 1;
    }
    assert cells[..n] == cells;
  }

  lemma FirstIsRoot(disk: Disk, cells: seq<Cell>)
    requires IsChain(disk, cells)
    ensures cells != [] && cells[0].ptr == ROOT
  {
  }

  lemma StoredHere(disk: Disk, cells: seq<Cell>, n: nat)
    requires IsChain(disk, cells) && n < |cells|
    ensures cells[n].ptr in disk && disk[cells[n].ptr] == PairAt(cells, n)
  {
    assert StoredAt(disk, cells, n);
  }

  /** A file system that has just been formatted: the root alone, without directories
      in it. */
  lemma FormattedIsSound(nodes: seq<Node>)
    requires forall k :: 0 <= k < |nodes| ==> nodes[k].child == None
    ensures var cells := [Cell(ROOT, nodes, false, ZERO)];
      IsChain(map[ROOT := Pair(nodes, false, None, ZERO)], cells) && Sound(cells) && Tidy(Bare(cells)) &&
        Rooted(ViewOf(cells))
  {
    hide Scan, Lacks, Extra, XorAll, Seen, Children, Below;
    var cells := [Cell(ROOT, nodes, false, ZERO)];
    XorOne(cells[0]);
    FormattedIsTidy(nodes);
    LacksExtra(Bare(cells), multiset{});
    SoundFrom(cells, ZERO, multiset{});
    assert StoredAt(map[ROOT := Pair(nodes, false, None, ZERO)], cells, 0);
    NoChildrenIn(nodes);
    forall p ensures Refs(ViewOf(cells), p) == multiset{} {
      if p in ViewOf(cells) {
        var i := CellOf(Bare(cells), p);
        ViewAt(Bare(cells), i);
      }
    }
  }

  lemma FormattedIsTidy(nodes: seq<Node>)
    requires forall k :: 0 <= k < |nodes| ==> nodes[k].child == None
    ensures Lacks(Bare([Cell(ROOT, nodes, false, ZERO)]), multiset{})
  {
    hide Children;
    var c := Cell(ROOT, nodes, false, ZERO);
    assert Bare([c]) == [c];
    ScanNext(None, [], c);
    ScanNothing(None);
    assert [] + [c] == [c];
    NoChildrenIn(nodes);
  }

  lemma {:induction false} NoChildrenIn(nodes: seq<Node>)
    requires forall k :: 0 <= k < |nodes| ==> nodes[k].child == None
    ensures Children(nodes) == multiset{}
  {
    if nodes != [] {
      NoChildrenIn(nodes[..|nodes| - 1]);
    }
  }

  /** After a loss of power in any of the states an operation goes through, a mount
      and what the next operation does first give a consistent file system in which
      the same is seen. */
  method Recover(disk: Disk, ghost cells: seq<Cell>) returns (e: Engine)
    requires IsChain(disk, cells) && Sound(cells)
    ensures fresh(e) && e.Ready() && ViewOf(e.cells) == ViewOf(cells)
    ensures Atomic(e.trace, 0, ViewOf(cells), ViewOf(cells))
    ensures Rooted(ViewOf(cells)) ==> IsTree(e.cells) && Rooted(ViewOf(e.cells)) && AllRooted(e.trace, 0)
    ensures forall d :: NotOn(cells, d) ==> NotOn(e.cells, d)
    ensures e.st.gstate.delta == e.st.gdisk <==> Extra(Seen(cells, MoveOf(XorAll(cells)))) == multiset{}
  {
    hide XorAll, ViewOf, Tidy, IsChain, Shows, Rooted, IsTree, AllRooted, Lacks, Extra;
    var sum := SumOf(disk, cells);
    e := new Engine(disk, sum, cells);
    var _, _ := e.ForceConsistency(None);
  }

  function WithName(n: Node, name: Value): Node {
    n.(attrs := n.attrs[NameKey := name])
  }

  /** What is seen after a rename. */
  function Renamed(cells: seq<Cell>, i: nat, k: nat, j: nat, newid: nat, replace: bool, name: Value): View
    requires i < |cells| && j < |cells| && k < |cells[i].nodes|
    requires newid <= |cells[j].nodes| && (replace ==> newid < |cells[j].nodes| && (i == j ==> newid != k))
  {
    var n := WithName(cells[i].nodes[k], name);
    if i == j then
      Put(ViewOf(cells), cells[i].ptr, OwnerAt(Bare(cells), i), PlacedWithin(cells[i].nodes, k, newid, replace, n))
    else Moved(cells, i, k, j, Placed(cells[j].nodes, newid, replace, n))
  }

  /** The directory that an entry refers to which a rename replaces. */
  function Replaced(cells: seq<Cell>, j: nat, newid: nat, replace: bool): Option<Ptr>
    requires j < |cells| && (replace ==> newid < |cells[j].nodes|)
  {
    if replace then cells[j].nodes[newid].child else None
  }

  /** How many commits a rename takes. */
  function Commits(within: bool, dropped: Option<Ptr>): nat {
    (if within then 1 else 2) + (if dropped.Some? then 1 else 0)
  }

  /** Whether the next operation can repair what a rename has left that was refused
      its commit after `room` others, with the directory it replaces counted as an
      orphan. */
  ghost predicate CanGoOn(cells: seq<Cell>, orphans: nat, i: nat, j: nat, dropped: Option<Ptr>, room: nat)
    requires i < |cells|
  {
    if room == 0 then i == j
    else if room == 1 && i != j then !DropsPair(cells, i) || cells[i].stored == ZERO
    else orphans > 1 && dropped.Some? && StoresNothing(cells, dropped.value)
  }

  /** The list between the two commits of a move. */
  function MovedTo(cells: seq<Cell>, i: nat, k: nat, j: nat, newid: nat, replace: bool, name: Value): seq<Cell>
    requires i < |cells| && j < |cells| && k < |cells[i].nodes|
    requires newid <= |cells[j].nodes| && (replace ==> newid < |cells[j].nodes|)
  {
    var n := WithName(cells[i].nodes[k], name);
    Bare(cells)[j := Bare(cells)[j].(nodes := Placed(cells[j].nodes, newid, replace, n))]
  }

  lemma SameDrops(was: seq<Cell>, cells: seq<Cell>, i: nat)
    requires i < |was| && |cells| == |was| && cells[i] == was[i]
    requires forall h :: 0 <= h < |was| ==>
      Bare(cells)[h].split == Bare(was)[h].split && Bare(cells)[h].ptr == Bare(was)[h].ptr
    ensures DropsPair(cells, i) <==> DropsPair(was, i)
    ensures DropsPair(was, i) ==> i > 0 && cells[i - 1].ptr == was[i - 1].ptr
  {
    if i > 0 {
      assert Bare(cells)[i - 1].split == cells[i - 1].split && Bare(was)[i - 1].split == was[i - 1].split;
    }
  }

  // ----- what a rename shows -----

  /** The entry with the new name, and all else that it was. */
  ghost predicate SameButName(n: Node, was: Node, name: Value) {
    n.child == was.child && n.attrs.Keys == was.attrs.Keys + {NameKey} && n.attrs[NameKey] == name &&
    forall key :: key in was.attrs && key != NameKey ==> n.attrs[key] == was.attrs[key]
  }

  /** The entries of a pair, of which a view shows none when there are none. */
  function NodesIn(view: View, p: Ptr): (nodes: seq<Node>) {
    if p in view then view[p].1 else []
  }

  /** Where the entry is in its new pair, or in the same one. */
  function NewPlace(same: bool, k: nat, newid: nat): (at: nat) {
    if same && k < newid then newid - 1 else newid
  }

  /** The other entries of that pair. */
  function Others<T>(nodes: seq<T>, same: bool, k: nat, newid: nat, replace: bool): (others: seq<T>)
    requires newid <= |nodes| && (same ==> k < |nodes|) && (replace ==> newid < |nodes| && (same ==> newid != k))
  {
    if same && replace then
      if newid < k then Remove(Remove(nodes, k), newid) else Remove(Remove(nodes, newid), k)
    else if same then Remove(nodes, k)
    else if replace then Remove(nodes, newid)
    else nodes
  }

  /** The view has the entry in its new place under the new name, and everything else as
      it was but for the entry that was replaced. */
  ghost predicate Relocated(cells: seq<Cell>, now: View, i: nat, k: nat, j: nat, newid: nat, replace: bool, name: Value)
    requires i < |cells| && j < |cells| && k < |cells[i].nodes| && newid <= |cells[j].nodes|
    requires replace ==> newid < |cells[j].nodes| && (i == j ==> newid != k)
  {
    var was, p, q, at := ViewOf(cells), cells[i].ptr, cells[j].ptr, NewPlace(i == j, k, newid);
    q in now && now[q].0 == OwnerAt(Bare(cells), j) && at < |now[q].1| &&
    SameButName(now[q].1[at], cells[i].nodes[k], name) &&
    now[q].1[..at] + now[q].1[at + 1..] == Others(cells[j].nodes, i == j, k, newid, replace) &&
    (i != j ==> NodesIn(now, p) == Remove(cells[i].nodes, k) && (p in now ==> now[p].0 == OwnerAt(Bare(cells), i))) &&
    forall r :: r != p && r != q ==> (r in now <==> r in was) && (r in now ==> now[r] == was[r])
  }

  lemma RenamedIs(cells: seq<Cell>, i: nat, k: nat, j: nat, newid: nat, replace: bool, name: Value)
    requires Distinct(cells) && i < |cells| && j < |cells| && k < |cells[i].nodes| && newid <= |cells[j].nodes|
    requires replace ==> newid < |cells[j].nodes| && (i == j ==> newid != k)
    ensures Relocated(cells, Renamed(cells, i, k, j, newid, replace, name), i, k, j, newid, replace, name)
  {
    hide Scan, Distinct, Insert, Remove, OwnerAt, ViewOf, WithName, Placed, PlacedWithin, SameButName, Others;
    SamePair(cells, i, j);
    NamedIs(cells[i].nodes[k], name);
    PlacedRest(cells[j].nodes, i == j, k, newid, replace, WithName(cells[i].nodes[k], name));
  }

  lemma NamedIs(n: Node, name: Value)
    ensures SameButName(WithName(n, name), n, name)
  {
  }

  lemma PlacedRest<T>(nodes: seq<T>, same: bool, k: nat, newid: nat, replace: bool, n: T)
    requires newid <= |nodes| && (same ==> k < |nodes|) && (replace ==> newid < |nodes| && (same ==> newid != k))
    ensures var at := NewPlace(same, k, newid);
      var placed := if same then PlacedWithin(nodes, k, newid, replace, n) else Placed(nodes, newid, replace, n);
      at < |placed| && placed[at] == n && placed[..at] + placed[at + 1..] == Others(nodes, same, k, newid, replace)
  {
    if same && replace {
      WithoutTwo(nodes, Min(k, newid), Max(k, newid), n, newid < k);
    } else if same {
      WithoutOne(Remove(nodes, k), NewPlace(same, k, newid), n);
    } else if !replace {
      WithoutOne(nodes, newid, n);
    } else {
      var placed := Placed(nodes, newid, replace, n);
      assert placed[..newid] == nodes[..newid] && placed[newid + 1..] == nodes[newid + 1..];
    }
  }

  lemma WithoutOne<T>(nodes: seq<T>, at: nat, n: T)
    requires at <= |nodes|
    ensures var more := Insert(nodes, at, n); more[at] == n && more[..at] + more[at + 1..] == nodes
  {
    var more := Insert(nodes, at, n);
    assert more[..at] == nodes[..at] && more[at + 1..] == nodes[at..];
  }

  /** Two entries, of which one is replaced and the other goes. */
  lemma WithoutTwo<T>(nodes: seq<T>, a: nat, b: nat, n: T, first: bool)
    requires a < b < |nodes|
    ensures var less := if first then Remove(nodes[a := n], b) else Remove(nodes[b := n], a);
      var at := if first then a else b - 1;
      less[at] == n && less[..at] + less[at + 1..] == Remove(Remove(nodes, b), a)
  {
    var two := Remove(nodes, b);
    assert two[..a] == nodes[..a] && two[a + 1..] == nodes[a + 1..b] + nodes[b + 1..];
    if first {
      FirstReplaced(nodes, a, b, n);
    } else {
      SecondReplaced(nodes, a, b, n);
      assert nodes[..a] + nodes[a + 1..b] + nodes[b + 1..] == nodes[..a] + (nodes[a + 1..b] + nodes[b + 1..]);
    }
  }

  lemma FirstReplaced<T>(nodes: seq<T>, a: nat, b: nat, n: T)
    requires a < b < |nodes|
    ensures var less := Remove(nodes[a := n], b);
      less[a] == n && less[..a] == nodes[..a] && less[a + 1..] == nodes[a + 1..b] + nodes[b + 1..]
  {
  }

  lemma SecondReplaced<T>(nodes: seq<T>, a: nat, b: nat, n: T)
    requires a < b < |nodes|
    ensures var less := Remove(nodes[b := n], a);
      less[b - 1] == n && less[..b - 1] == nodes[..a] + nodes[a + 1..b] && less[b..] == nodes[b + 1..]
  {
  }

  ghost function RenameResult(cells: seq<Cell>, i: nat, k: nat, j: nat, newid: nat, replace: bool): Result
    requires i < |cells| && j < |cells| && k < |cells[i].nodes| && (replace ==> newid < |cells[j].nodes|)
  {
    if !replace then Done
    else if cells[j].nodes[newid].child.Some? != cells[i].nodes[k].child.Some? then IsDir
    else if i == j && newid == k then Done
    else if Occupied(cells, cells[j].nodes[newid]) then NotEmpty
    else Done
  }

  lemma SamePair(cells: seq<Cell>, i: nat, j: nat)
    requires Distinct(cells) && i < |cells| && j < |cells|
    ensures cells[i].ptr == cells[j].ptr <==> i == j
  {
  }

  /** The directories the entries refer to, after an entry was put in. */
  lemma PlacedChildren(nodes: seq<Node>, newid: nat, replace: bool, n: Node)
    requires newid <= |nodes| && (replace ==> newid < |nodes|)
    ensures Children(Placed(nodes, newid, replace, n)) + (if replace then ChildOf(nodes[newid]) else multiset{})
      == Children(nodes) + ChildOf(n)
  {
    hide Children, ChildOf, Insert, Remove, Placed;
    PlacedIs(nodes, newid, replace, n);
    if replace {
      ChildrenRemove(nodes, newid);
      ChildrenInsert(Remove(nodes, newid), newid, n);
    } else {
      ChildrenInsert(nodes, newid, n);
    }
  }

  lemma AcrossReplaces(cells: seq<Cell>, i: nat, k: nat, j: nat, newid: nat, replace: bool, n: Node,
                       replaced: multiset<Ptr>)
    requires Distinct(cells) && i < |cells| && j < |cells| && i != j && k < |cells[i].nodes|
    requires newid <= |cells[j].nodes| &&
             (replace ==> newid < |cells[j].nodes| && !Occupied(cells, cells[j].nodes[newid]))
    requires n.child == cells[i].nodes[k].child &&
             replaced == if replace then ChildOf(cells[j].nodes[newid]) else multiset{}
    ensures var nodes := Insert(if replace then Remove(cells[j].nodes, newid) else cells[j].nodes, newid, n);
      nodes == Placed(cells[j].nodes, newid, replace, n) && Replaces(cells, j, nodes, cells[i].nodes[k], replaced)
  {
    hide Children, Placed, Insert, Remove;
    PlacedIs(cells[j].nodes, newid, replace, n);
    PlacedChildren(cells[j].nodes, newid, replace, n);
  }

  lemma WithinReplaces(cells: seq<Cell>, i: nat, k: nat, newid: nat, replace: bool, n: Node, replaced: multiset<Ptr>)
    requires Distinct(cells) && i < |cells| && k < |cells[i].nodes| && newid <= |cells[i].nodes|
    requires replace ==> newid < |cells[i].nodes| && newid != k && !Occupied(cells, cells[i].nodes[newid])
    requires n.child == cells[i].nodes[k].child
    requires replaced == if replace then ChildOf(cells[i].nodes[newid]) else multiset{}
    ensures var from := if !replace && newid <= k then k + 1 else k;
      var nodes := Remove(Insert(if replace then Remove(cells[i].nodes, newid) else cells[i].nodes, newid, n), from);
      nodes == PlacedWithin(cells[i].nodes, k, newid, replace, n) &&
        Replaces(cells, i, nodes, Node(map[], None), replaced)
  {
    hide Children, Placed, PlacedWithin, Insert, Remove;
    var nodes := cells[i].nodes;
    PlacedIs(nodes, newid, replace, n);
    PlacedWithinIs(nodes, k, newid, replace, n);
    WithinChildren(nodes, k, newid, replace, n);
  }

  lemma WithinChildren(nodes: seq<Node>, k: nat, newid: nat, replace: bool, n: Node)
    requires k < |nodes| && newid <= |nodes| && (replace ==> newid < |nodes| && newid != k) && n.child == nodes[k].child
    ensures var kept := PlacedWithin(nodes, k, newid, replace, n);
      Children(kept) + (if replace then ChildOf(nodes[newid]) else multiset{}) == Children(nodes)
  {
    hide Children, Placed, PlacedWithin, Insert, Remove;
    PlacedChildren(nodes, newid, replace, n);
    PlacedWithinIs(nodes, k, newid, replace, n);
    ChildrenRemove(Placed(nodes, newid, replace, n), if !replace && newid <= k then k + 1 else k);
    SameLess(Children(PlacedWithin(nodes, k, newid, replace, n)), ChildOf(nodes[k]),
      if replace then ChildOf(nodes[newid]) else multiset{}, Children(nodes));
  }

  lemma SameLess(a: multiset<Ptr>, e: multiset<Ptr>, b: multiset<Ptr>, all: multiset<Ptr>)
    requires a + e + b == all + e
    ensures a + b == all
  {
    forall p ensures (a + b)[p] == all[p] {
      assert (a + e + b)[p] == (all + e)[p];
    }
  }

  lemma WithinShows(was: seq<Cell>, cells: seq<Cell>, i: nat, nodes: seq<Node>, replaced: multiset<Ptr>)
    requires i < |was| && Distinct(was) && Distinct(cells) && Tidy(Bare(was))
    requires Bare(cells) == Bare(was)[i := Bare(was)[i].(nodes := nodes)]
    requires MoveOf(XorAll(was)) == NoMove && MoveOf(XorAll(cells)) == NoMove
    requires Replaces(was, i, nodes, Node(map[], None), replaced) && (replaced != multiset{} ==> XorAll(cells).bit)
    ensures Lacks(Bare(cells), replaced) && Shows(cells, Put(ViewOf(was), was[i].ptr, OwnerAt(Bare(was), i), nodes))
  {
    hide Scan, Distinct, XorAll, Extra, Put, Children;
    var bare := Bare(was);
    SeenDistinct(was, NoMove);
    UpdateScan(bare, i, nodes);
    Cancels(Scan(None, Bare(cells)).refs, Scan(None, bare).refs, Children(bare[i].nodes), Children(nodes), replaced);
    assert Scan(None, Bare(cells)).refs + multiset{ROOT} + replaced ==
      Scan(None, bare).refs + multiset{ROOT} + multiset{};
    forall x | 0 <= x < |cells| && Bare(cells)[x].ptr in replaced
      ensures Bare(cells)[x].nodes == [] && !Bare(cells)[x].split
    {
      assert EmptyDir(was, Bare(cells)[x].ptr);
      assert Bare(cells)[x].ptr == was[x].ptr;
    }
    SoundFrom(cells, XorAll(cells), replaced);
  }

  /** What is seen after moving entry k of the pair at i to the pair at j. */
  function Moved(cells: seq<Cell>, i: nat, k: nat, j: nat, nodes: seq<Node>): View
    requires i < |cells| && j < |cells| && k < |cells[i].nodes|
  {
    Put(Put(ViewOf(cells), cells[j].ptr, OwnerAt(Bare(cells), j), nodes),
      cells[i].ptr, OwnerAt(Bare(cells), i), Remove(cells[i].nodes, k))
  }

  /** The pair at j with another entry, for which one that refers to an empty
      directory may have gone. */
  ghost predicate Replaces(cells: seq<Cell>, j: nat, nodes: seq<Node>, n: Node, replaced: multiset<Ptr>)
    requires j < |cells|
  {
    Children(nodes) + replaced == Children(cells[j].nodes) + ChildOf(n) &&
    forall x :: x in replaced ==> EmptyDir(cells, x) && x != cells[j].ptr
  }

  /** Between the two commits of a move the entry is seen in its new place only. */
  lemma MoveShows(was: seq<Cell>, cells: seq<Cell>, i: nat, k: nat, j: nat, nodes: seq<Node>, replaced: multiset<Ptr>)
    requires i < |was| && j < |was| && i != j && k < |was[i].nodes| && Distinct(was) && Distinct(cells) &&
             Tidy(Bare(was))
    requires Bare(cells) == Bare(was)[j := Bare(was)[j].(nodes := nodes)]
    requires MoveOf(XorAll(was)) == NoMove && MoveOf(XorAll(cells)) == Moving(was[i].ptr, k)
    requires Replaces(was, j, nodes, was[i].nodes[k], replaced) && (replaced != multiset{} ==> XorAll(cells).bit)
    ensures Lacks(Seen(cells, MoveOf(XorAll(cells))), replaced) && Shows(cells, Moved(was, i, k, j, nodes))
    ensures i < |cells| && MovesFrom(cells[i], Moving(was[i].ptr, k))
  {
    hide Scan, Distinct, XorAll, Extra, Put, Lacks, Children;
    var bare, move := Bare(was), Moving(was[i].ptr, k);
    assert Bare(cells)[i] == bare[i];
    SeenDistinct(was, NoMove);
    SeenWithout(cells, move, i);
    forall x | x in replaced ensures EmptyDir(bare, x) {
      BareEmptyDir(was, Some(x));
    }
    MoveLacks(bare, i, k, j, nodes, replaced);
    SoundFrom(cells, XorAll(cells), replaced);
  }

  /** The second commit, or the one that completes it later, leaves the same to be
      seen. */
  lemma MoveDone(was: seq<Cell>, cells: seq<Cell>, move: Move, i: nat, extra: multiset<Ptr>, view: View)
    requires i < |was| && MovesFrom(was[i], move) && Distinct(was) && Distinct(cells) && MoveOf(XorAll(was)) == move
    requires var bare := Bare(was);
      Dropped(bare[i := bare[i].(nodes := Remove(bare[i].nodes, move.id))], Bare(cells), i)
    requires Lacks(Seen(was, move), extra) && Shows(was, view)
    requires MoveOf(XorAll(cells)) == NoMove && (!XorAll(cells).bit ==> extra == multiset{})
    ensures Lacks(Bare(cells), extra) && Shows(cells, view)
  {
    hide Scan, Distinct, XorAll, Extra, Lacks;
    SeenWithout(was, move, i);
    SeenDistinct(was, move);
    DroppedMeans(Seen(was, move), Bare(cells), i, extra);
    SoundFrom(cells, XorAll(cells), extra);
  }

  /** The entry is a directory that has something in it. */
  ghost predicate Occupied(cells: seq<Cell>, n: Node) {
    n.child.Some? && !EmptyDir(cells, n.child.value)
  }

  lemma OccupiedAt(cells: seq<Cell>, n: Node, c: nat)
    requires Distinct(cells) && c < |cells| && n.child == Some(cells[c].ptr)
    ensures Occupied(cells, n) <==> !(cells[c].nodes == [] && !cells[c].split)
  {
  }

  /** Where on the list a directory is that nothing refers to. */
  ghost method OnList(st: State, cells: seq<Cell>, extra: multiset<Ptr>, x: Ptr) returns (i: nat)
    requires Linked(st, cells) && Lacks(Bare(cells), extra) && x in extra
    ensures 1 <= i < |cells| && cells[i].ptr == x && !cells[i - 1].split
  {
    hide Scan, XorAll;
    assert x in Scan(None, Bare(cells)).heads;
    if forall k :: 0 <= k < |cells| ==> cells[k].ptr != x {
      ViewInside(None, Bare(cells), x);
    }
    i :| 0 <= i < |cells| && cells[i].ptr == x;
    NotExtra(cells, extra, i);
  }

  /** Where on the list the directory is that an entry refers to. */
  ghost method ChildOnList(st: State, cells: seq<Cell>, i: nat, k: nat) returns (c: nat)
    requires Linked(st, cells) && Tidy(Bare(cells)) && i < |cells| && k < |cells[i].nodes| &&
             cells[i].nodes[k].child.Some?
    ensures c < |cells| && cells[i].nodes[k].child == Some(cells[c].ptr)
  {
    hide Scan, XorAll;
    var x := cells[i].nodes[k].child.value;
    ChildIncluded(Bare(cells), i, k);
    if forall j :: 0 <= j < |cells| ==> cells[j].ptr != x {
      ViewInside(None, Bare(cells), x);
    }
    c :| 0 <= c < |cells| && cells[c].ptr == x;
  }

  lemma ChildrenNext(nodes: seq<Node>, k: nat)
    requires k < |nodes|
    ensures Children(nodes[..k + 1]) == Children(nodes[..k]) + ChildOf(nodes[k])
  {
    assert nodes[..k + 1][..k] == nodes[..k];
  }

  lemma NoChildren(nodes: seq<Node>)
    ensures Children(nodes[..0]) == multiset{}
  {
  }

  lemma ChildIncluded(cells: seq<Cell>, i: nat, k: nat)
    requires i < |cells| && k < |cells[i].nodes| && cells[i].nodes[k].child.Some?
    ensures cells[i].nodes[k].child.value in Scan(None, cells).refs
  {
    hide Scan, Children;
    Around(cells, i);
    ChildrenRemove(cells[i].nodes, k);
    assert cells[i].nodes[k].child.value in ChildOf(cells[i].nodes[k]);
  }

  lemma LastOrphanUnlinked(was: seq<Cell>, cells: seq<Cell>, x: Ptr, i: nat, view: View)
    requires 1 <= i < |was| && Distinct(was) && Distinct(cells) && Bare(cells) == Unlinked(Bare(was), i)
    requires Lacks(Bare(was), multiset{x}) && was[i].ptr == x && !was[i - 1].split && MoveOf(XorAll(was)) == NoMove
    requires MoveOf(XorAll(cells)) == NoMove && Shows(was, view)
    ensures Tidy(Bare(cells)) && Extra(Bare(cells)) == multiset{} && Shows(cells, view)
  {
    hide Scan, Distinct, XorAll, Extra;
    SeenDistinct(was, NoMove);
    UnlinkLacks(Bare(was), multiset{x}, i);
    UnlinkScan(Bare(was), i);
    assert multiset{x} - multiset{x} == multiset{};
    SoundFrom(cells, XorAll(cells), multiset{});
    LacksExtra(Bare(cells), multiset{});
  }

  lemma DeletedShows(was: seq<Cell>, cells: seq<Cell>, i: nat, k: nat)
    requires i < |was| && k < |was[i].nodes| && Distinct(was) && Distinct(cells) && Tidy(Bare(was))
    requires var bare := Bare(was);
      Dropped(bare[i := bare[i].(nodes := Remove(bare[i].nodes, k))], Bare(cells), i)
    requires MoveOf(XorAll(was)) == NoMove && MoveOf(XorAll(cells)) == NoMove && !Occupied(was, was[i].nodes[k])
    requires was[i].nodes[k].child.Some? ==> XorAll(cells).bit
    ensures Lacks(Bare(cells), ChildOf(was[i].nodes[k])) && Extra(Bare(cells)) == ChildOf(was[i].nodes[k])
    ensures Shows(cells, Put(ViewOf(was), was[i].ptr, OwnerAt(Bare(was), i), Remove(was[i].nodes, k)))
  {
    hide Scan, Distinct, XorAll, Extra, Put;
    var bare, extra := Bare(was), ChildOf(was[i].nodes[k]);
    var less := bare[i := bare[i].(nodes := Remove(bare[i].nodes, k))];
    SeenDistinct(was, NoMove);
    BareEmptyDir(was, was[i].nodes[k].child);
    DeleteLacks(bare, multiset{}, i, k);
    assert multiset{} + extra == extra;
    UpdateScan(bare, i, Remove(bare[i].nodes, k));
    UpdateDistinct(bare, i, less[i]);
    DroppedMeans(less, Bare(cells), i, extra);
    SoundFrom(cells, XorAll(cells), extra);
    LacksExtra(Bare(cells), extra);
  }

  lemma BareEmptyDir(cells: seq<Cell>, child: Option<Ptr>)
    ensures child.Some? && EmptyDir(cells, child.value) ==> EmptyDir(Bare(cells), child.value)
  {
  }

  lemma LastUnsplit(cells: seq<Cell>)
    requires Tidy(Bare(cells)) && cells != []
    ensures !cells[|cells| - 1].split
  {
  }

  /** The new pair is on the list, but not in the tree yet. */
  lemma LinkedShows(was: seq<Cell>, cells: seq<Cell>, n: nat, d: Ptr)
    requires n < |was| && !was[n].split && Distinct(cells) && Tidy(Bare(was))
    requires forall j :: 0 <= j < |was| ==> was[j].ptr != d
    requires Bare(cells) ==
             Insert(Bare(was), n + 1, Cell(d, [], false, ZERO))[n := Bare(was)[n].(nodes := was[n].nodes)]
    requires MoveOf(XorAll(was)) == NoMove && MoveOf(XorAll(cells)) == NoMove && XorAll(cells).bit
    ensures Shows(cells, ViewOf(was)) && Extra(Bare(cells)) == multiset{d}
  {
    hide Scan, Distinct, XorAll, Extra;
    assert Bare(cells) == Insert(Bare(was), n + 1, Cell(d, [], false, ZERO));
    LinkLacks(Bare(was), multiset{}, n, Cell(d, [], false, ZERO));
    LinkScan(Bare(was), n, Cell(d, [], false, ZERO));
    SoundFrom(cells, XorAll(cells), multiset{} + multiset{d});
    LacksExtra(Bare(cells), multiset{} + multiset{d});
  }

  /** It is in both. */
  lemma InsertedShows(was: seq<Cell>, mid: seq<Cell>, cells: seq<Cell>, n: nat, i: nat, k: nat, attrs: Attrs, d: Ptr)
    requires i <= n < |was| && k <= |was[i].nodes| && !was[n].split && Distinct(was) && Distinct(cells) &&
             Tidy(Bare(was))
    requires forall j :: 0 <= j < |was| ==> was[j].ptr != d
    requires var bare := Bare(was);
      var nodes := Insert(bare[i].nodes, k, Node(attrs, Some(d)));
      Bare(cells) == Insert(bare, n + 1, Cell(d, [], false, ZERO))[i := bare[i].(nodes := nodes)]
    requires MoveOf(XorAll(was)) == NoMove && MoveOf(XorAll(cells)) == NoMove
    ensures Tidy(Bare(cells)) && Extra(Bare(cells)) == multiset{}
    ensures Shows(cells,
              Put(ViewOf(was), was[i].ptr, OwnerAt(Bare(was), i), Insert(was[i].nodes, k, Node(attrs, Some(d)))))
  {
    hide Scan, Distinct, XorAll, Extra, Put;
    var bare, fresh', node := Bare(was), Cell(d, [], false, ZERO), Node(attrs, Some(d));
    var linked := Insert(bare, n + 1, fresh');
    SeenDistinct(was, NoMove);
    InsertDistinct(bare, n + 1, fresh');
    LinkLacks(bare, multiset{}, n, fresh');
    LinkScan(bare, n, fresh');
    assert multiset{} + multiset{d} == multiset{} + ChildOf(node);
    InsertLacks(linked, multiset{}, i, k, node);
    UpdateScan(linked, i, Insert(linked[i].nodes, k, node));
    assert linked[..i] == bare[..i];
    SoundFrom(cells, XorAll(cells), multiset{});
    LacksExtra(Bare(cells), multiset{});
  }

  lemma OrphanUnlinked(was: seq<Cell>, cells: seq<Cell>, extra: multiset<Ptr>, i: nat, view: View)
    requires 1 <= i < |was| && Distinct(was) && Distinct(cells) && Bare(cells) == Unlinked(Bare(was), i)
    requires Lacks(Bare(was), extra) && was[i].ptr in extra && !was[i - 1].split && MoveOf(XorAll(was)) == NoMove
    requires XorAll(cells).bit && MoveOf(XorAll(cells)) == NoMove && Shows(was, view)
    ensures Lacks(Bare(cells), extra - multiset{was[i].ptr}) && Shows(cells, view)
    ensures forall j :: 0 <= j < i ==> cells[j].ptr == was[j].ptr
  {
    hide Scan, Distinct, XorAll, Extra;
    SeenDistinct(was, NoMove);
    UnlinkLacks(Bare(was), extra, i);
    UnlinkScan(Bare(was), i);
    SoundFrom(cells, XorAll(cells), extra - multiset{was[i].ptr});
    forall j | 0 <= j < i ensures cells[j].ptr == was[j].ptr {
      assert Bare(cells)[j].ptr == Bare(was)[j].ptr;
    }
  }

  lemma CheckedParent(st: State, cells: seq<Cell>, extra: multiset<Ptr>, i: nat)
    requires Linked(st, cells) && Lacks(Bare(cells), extra) && 1 <= i < |cells|
    ensures cells[i].ptr in extra <==> (!cells[i - 1].split && cells[i].ptr !in Scan(None, Bare(cells)).refs)
  {
    hide Scan;
    NotExtra(cells, extra, i);
    DistinctAt(cells, i, 0);
  }

  /** After so many orphans were unlinked: those left, which store what they did. */
  ghost predicate StillLeft(was: seq<Cell>, cells: seq<Cell>, all: multiset<Ptr>, extra: multiset<Ptr>, found: nat) {
    found + |extra| == |all| &&
    forall d :: d in extra ==> d in all && (StoresNothing(cells, d) <==> StoresNothing(was, d))
  }

  lemma NothingFound(cells: seq<Cell>, all: multiset<Ptr>)
    ensures StillLeft(cells, cells, all, all, 0)
  {
  }

  lemma LeftAt(was: seq<Cell>, cells: seq<Cell>, all: multiset<Ptr>, extra: multiset<Ptr>, found: nat, x: Ptr)
    requires StillLeft(was, cells, all, extra, found) && x in extra
    ensures found < |all| && x in all && (StoresNothing(cells, x) <==> StoresNothing(was, x))
  {
  }

  lemma LeftNone(was: seq<Cell>, cells: seq<Cell>, all: multiset<Ptr>, found: nat)
    requires StillLeft(was, cells, all, multiset{}, found)
    ensures found == |all|
  {
  }

  lemma LeftNext(was: seq<Cell>, cells: seq<Cell>, cells': seq<Cell>, all: multiset<Ptr>, extra: multiset<Ptr>,
                 found: nat, x: Ptr, at: Ptr)
    requires StillLeft(was, cells, all, extra, found) && x in extra && at !in extra
    requires extra[x] == 1 && |extra - multiset{x}| == |extra| - 1
    requires forall d :: d != x && d != at ==> (StoresNothing(cells', d) <==> StoresNothing(cells, d))
    ensures StillLeft(was, cells', all, extra - multiset{x}, found + 1)
  {
    hide StoresNothing;
  }

  /** An orphan is counted once. */
  lemma OneOrphan(cells: seq<Cell>, extra: multiset<Ptr>, x: Ptr)
    requires Lacks(cells, extra) && Distinct(cells) && x in extra
    ensures extra[x] == 1 && |extra - multiset{x}| == |extra| - 1
  {
    hide Scan;
    HeadOnce(cells, x);
    assert (Scan(None, cells).refs + multiset{ROOT} + extra)[x] == Scan(None, cells).heads[x];
  }

  lemma NoneExtra(cells: seq<Cell>, extra: multiset<Ptr>)
    requires Lacks(Bare(cells), extra) && forall k :: 0 <= k < |cells| ==> cells[k].ptr !in extra
    ensures extra == multiset{}
  {
    hide Scan;
    forall p ensures p !in extra {
      if p in extra {
        assert p in Scan(None, Bare(cells)).heads;
        ViewInside(None, Bare(cells), p);
      }
    }
  }

  lemma RootFirst(st: State, cells: seq<Cell>)
    requires Linked(st, cells)
    ensures cells != [] && cells[0].ptr == ROOT && Distinct(cells)
  {
  }

  /** Neither the root nor a pair that something refers to is an orphan. */
  lemma NotExtra(cells: seq<Cell>, extra: multiset<Ptr>, i: nat)
    requires Lacks(Bare(cells), extra) && Distinct(cells) && i < |cells|
    ensures cells[i].ptr in extra <==>
      (cells[i].ptr != ROOT && (i == 0 || !cells[i - 1].split) && cells[i].ptr !in Scan(None, Bare(cells)).refs)
  {
    hide Scan;
    SeenDistinct(cells, NoMove);
    HeadIff(Bare(cells), i);
    var s := Scan(None, Bare(cells));
    var p := cells[i].ptr;
    assert (s.refs + multiset{ROOT} + extra)[p] == s.heads[p];
  }

  /** Hiding an entry or deleting it leaves the same to be seen. */
  lemma SeenWithout(cells: seq<Cell>, move: Move, i: nat)
    requires Distinct(cells) && i < |cells| && MovesFrom(cells[i], move)
    ensures Seen(cells, move) == Bare(cells)[i := Bare(cells)[i].(nodes := Remove(cells[i].nodes, move.id))]
    ensures Bare(cells)[i].nodes == cells[i].nodes
  {
    var bare := Bare(cells)[i := Bare(cells)[i].(nodes := Remove(cells[i].nodes, move.id))];
    forall j | 0 <= j < |cells| ensures Seen(cells, move)[j] == bare[j] {
      if j != i {
        DistinctAt(cells, i, j);
      }
    }
  }

  lemma LinkedDistinct(st: State, cells: seq<Cell>)
    requires Linked(st, cells)
    ensures Distinct(cells) && Distinct(Bare(cells))
  {
    SeenDistinct(cells, NoMove);
  }
}
