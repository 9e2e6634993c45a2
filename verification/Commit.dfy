/** Commits to metadata pairs: what each does to the disk, the list of pairs and
    the global state. */
module Commit {
  import opened Wrappers
  import opened Gstate
  import opened MetaLog
  import opened Chain

  /** The disk, the global state as it should be, as it is on disk, and what has
      been taken from pairs that are being dropped. */
  datatype State = State(disk: Disk, gstate: GState, gdisk: Delta, gdelta: Delta)

  /** What a commit adds to the state its pair stores. */
  function Change(st: State): Delta {
    Xor(Xor(st.gstate.delta, st.gdisk), st.gdelta)
  }

  /** A commit to pair p, by appending or by compacting. */
  function Committed(st: State, p: Ptr, nodes: seq<Node>, split: bool, tail: Option<Ptr>): State
    requires p in st.disk
  {
    State(st.disk[p := Pair(nodes, split, tail, Xor(st.disk[p].stored, Change(st)))], st.gstate, st.gstate.delta, ZERO)
  }

  /** Taking over what pair p stores, before it is unlinked. */
  function Stolen(st: State, p: Ptr): State
    requires p in st.disk
  {
    st.(gdelta := Xor(st.gdelta, st.disk[p].stored))
  }

  /** What is stored in all pairs of the list, with what has been taken over, is the
      global state on disk. */
  ghost predicate Conserved(st: State, cells: seq<Cell>) {
    Xor(XorAll(cells), st.gdelta) == st.gdisk
  }

  lemma StolenConserved(st: State, cells: seq<Cell>, p: Ptr)
    requires Conserved(st, cells) && p in st.disk
    ensures Conserved(Stolen(st, p), cells) <==> st.disk[p].stored == ZERO
  {
    hide Xor, XorAll;
    var stored := st.disk[p].stored;
    // total ^ (gdelta ^ stored) == gdisk ^ stored
    XorAssociates(XorAll(cells), st.gdelta, stored);
    XorCancels(st.gdisk);
    XorAssociates(st.gdisk, st.gdisk, stored);
    XorCancels(stored);
    XorCommutes(ZERO, stored);
  }

  ghost predicate Linked(st: State, cells: seq<Cell>) {
    IsChain(st.disk, cells) && Conserved(st, cells)
  }

  /** The list with a changed pair. */
  function WithPair(st: State, cells: seq<Cell>, i: nat, nodes: seq<Node>, split: bool): (r: seq<Cell>)
    requires i < |cells|
  {
    cells[i := Cell(cells[i].ptr, nodes, split, Xor(cells[i].stored, Change(st)))]
  }

  /** Adding to one of the sums adds to the total. */
  lemma XorUpdate(cells: seq<Cell>, i: nat, c: Cell, change: Delta)
    requires i < |cells| && c.stored == Xor(cells[i].stored, change)
    ensures XorAll(cells[i := c]) == Xor(XorAll(cells), change)
  {
    hide Xor, XorAll;
    var cells' := cells[i := c];
    assert cells == cells[..i] + [cells[i]] + cells[i + 1..];
    assert cells' == cells[..i] + [c] + cells[i + 1..];
    XorAppend(cells[..i] + [cells[i]], cells[i + 1..]);
    XorAppend(cells[..i] + [c], cells[i + 1..]);
    XorAppend(cells[..i], [cells[i]]);
    XorAppend(cells[..i], [c]);
    XorOne(cells[i]);
    XorOne(c);
    XorReplaces(XorAll(cells[..i]), cells[i].stored, XorAll(cells[i + 1..]), change);
  }

  /** Taking a pair out of the list takes out what it stores. */
  lemma XorRemove(cells: seq<Cell>, i: nat)
    requires i < |cells|
    ensures XorAll(cells) == Xor(XorAll(Remove(cells, i)), cells[i].stored)
  {
    hide Xor, XorAll;
    RemoveParts(cells, i);
    XorWithout(cells[..i], cells[i], cells[i + 1..]);
  }

  lemma RemoveParts(cells: seq<Cell>, i: nat)
    requires i < |cells|
    ensures cells == cells[..i] + [cells[i]] + cells[i + 1..] && Remove(cells, i) == cells[..i] + cells[i + 1..]
  {
  }

  lemma XorWithout(front: seq<Cell>, c: Cell, rest: seq<Cell>)
    ensures XorAll(front + [c] + rest) == Xor(XorAll(front + rest), c.stored)
  {
    hide Xor, XorAll;
    XorAppend(front + [c], rest);
    XorAppend(front, [c]);
    XorAppend(front, rest);
    XorOne(c);
    XorSwaps(XorAll(front), c.stored, XorAll(rest));
  }

  lemma XorSwaps(a: Delta, b: Delta, c: Delta)
    ensures Xor(Xor(a, b), c) == Xor(Xor(a, c), b)
  {
    hide Xor;
    XorAssociates(a, b, c);
    XorCommutes(b, c);
    XorAssociates(a, c, b);
  }

  /** After a commit the sum is the global state as it should be. */
  lemma ChangeReaches(total: Delta, st: State)
    requires Xor(total, st.gdelta) == st.gdisk
    ensures Xor(total, Change(st)) == st.gstate.delta
  {
    hide Xor;
    var g, d, e := st.gstate.delta, st.gdisk, st.gdelta;
    // total ^ ((g ^ d) ^ e) == (total ^ e) ^ (g ^ d) == d ^ (d ^ g) == g
    XorCommutes(Xor(g, d), e);
    XorAssociates(total, e, Xor(g, d));
    XorCommutes(g, d);
    XorAssociates(d, d, g);
    XorCancels(d);
    XorCancels(g);
    XorCommutes(ZERO, g);
  }

  lemma Settles(st: State, cells: seq<Cell>)
    requires st.gdelta == ZERO && XorAll(cells) == st.gdisk
    ensures Conserved(st, cells)
  {
    hide Xor;
    XorCancels(XorAll(cells));
  }

  lemma AtPair(st: State, cells: seq<Cell>, i: nat)
    requires IsChain(st.disk, cells) && i < |cells|
    ensures cells[i].ptr in st.disk && st.disk[cells[i].ptr] == PairAt(cells, i)
  {
    assert StoredAt(st.disk, cells, i);
  }

  /** A commit that changes only the entries of a pair. */
  lemma CommitUpdates(st: State, cells: seq<Cell>, i: nat, nodes: seq<Node>)
    requires Linked(st, cells) && i < |cells|
    ensures cells[i].ptr in st.disk
    ensures var st' := Committed(st, cells[i].ptr, nodes, cells[i].split, TailAt(cells, i));
      var cells' := WithPair(st, cells, i, nodes, cells[i].split);
      Linked(st', cells') && XorAll(cells') == st.gstate.delta
  {
    hide Xor, XorAll, IsChain, Distinct;
    var cells' := WithPair(st, cells, i, nodes, cells[i].split);
    AtPair(st, cells, i);
    UpdateChain(st.disk, cells, i, cells'[i]);
    XorUpdate(cells, i, cells'[i], Change(st));
    ChangeReaches(XorAll(cells), st);
    Settles(Committed(st, cells[i].ptr, nodes, cells[i].split, TailAt(cells, i)), cells');
  }

  /** A commit that lets the tail lead past the next pair, whose state was stolen. */
  lemma CommitUnlinks(st: State, cells: seq<Cell>, i: nat)
    requires Linked(st, cells) && 1 <= i < |cells|
    ensures cells[i].ptr in st.disk && cells[i - 1].ptr in st.disk
    ensures var p := cells[i - 1].ptr;
      var st' := Committed(Stolen(st, cells[i].ptr), p, cells[i - 1].nodes, cells[i].split, TailAt(cells, i));
      var cells' := Remove(WithPair(Stolen(st, cells[i].ptr), cells, i - 1, cells[i - 1].nodes, cells[i].split), i);
      Linked(st', cells') && XorAll(cells') == st.gstate.delta
  {
    hide Xor, XorAll, IsChain, Distinct;
    AtPair(st, cells, i);
    AtPair(st, cells, i - 1);
    var mid, stolen := Remove(cells, i), Stolen(st, cells[i].ptr);
    var c := Cell(cells[i - 1].ptr, cells[i - 1].nodes, cells[i].split, Xor(cells[i - 1].stored, Change(stolen)));
    var cells' := Remove(WithPair(stolen, cells, i - 1, cells[i - 1].nodes, cells[i].split), i);
    assert cells' == mid[i - 1 := c];
    UnlinkChain(st.disk, cells, i, c);
    XorRemove(cells, i);
    // total ^ gdelta == (mid ^ stored) ^ gdelta == mid ^ (gdelta ^ stored)
    XorAssociates(XorAll(mid), cells[i].stored, st.gdelta);
    XorCommutes(cells[i].stored, st.gdelta);
    ChangeReaches(XorAll(mid), stolen);
    XorUpdate(mid, i - 1, c, Change(stolen));
    Settles(Committed(stolen, c.ptr, c.nodes, c.split, TailAt(cells, i)), cells');
  }

  /** A commit that lets the tail lead to a new pair, whose state counts from then
      on. */
  lemma CommitLinks(st: State, cells: seq<Cell>, i: nat, nodes: seq<Node>, d: Ptr)
    requires IsChain(st.disk, cells) && i < |cells| && !cells[i].split
    requires d in st.disk && st.disk[d] == Pair([], false, TailAt(cells, i), st.disk[d].stored)
    requires forall j :: 0 <= j < |cells| ==> cells[j].ptr != d
    requires Xor(Xor(XorAll(cells), st.disk[d].stored), st.gdelta) == st.gdisk
    ensures cells[i].ptr in st.disk
    ensures var st' := Committed(st, cells[i].ptr, nodes, false, Some(d));
      var cells' := Insert(WithPair(st, cells, i, nodes, false), i + 1, Cell(d, [], false, st.disk[d].stored));
      Linked(st', cells') && XorAll(cells') == st.gstate.delta
  {
    hide Xor, XorAll, IsChain, Distinct;
    AtPair(st, cells, i);
    var mid := Insert(cells, i + 1, Cell(d, [], false, st.disk[d].stored));
    var cells' := Insert(WithPair(st, cells, i, nodes, false), i + 1, Cell(d, [], false, st.disk[d].stored));
    assert cells' == mid[i := cells'[i]];
    LinkChain(st.disk, cells, i, cells'[i], mid[i + 1]);
    XorRemove(mid, i + 1);
    assert Remove(mid, i + 1) == cells;
    ChangeReaches(XorAll(mid), st);
    XorUpdate(mid, i, cells'[i], Change(st));
    Settles(Committed(st, cells[i].ptr, nodes, false, Some(d)), cells');
  }
}
