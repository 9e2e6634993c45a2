/** The metadata pairs of a file system, threaded by their tails: what a user sees
    of them, which directories they are, and which the tree refers to. */
module Chain {
  import opened Wrappers
  import opened Gstate
  import opened MetaLog

  /** A directory entry: its attributes and, for a directory, the pair that its
      structure names. */
  datatype Node = Node(attrs: Attrs, child: Option<Ptr>)

  /** A metadata pair on disk. */
  datatype Pair = Pair(nodes: seq<Node>, split: bool, tail: Option<Ptr>, stored: Delta)

  type Disk = map<Ptr, Pair>

  /** A pair on the list; the next cell is where its tail leads. */
  datatype Cell = Cell(ptr: Ptr, nodes: seq<Node>, split: bool, stored: Delta)

  const ROOT := Ptr(0, 1)

  function TailAt(cells: seq<Cell>, i: nat): Option<Ptr>
    requires i < |cells|
  {
    if i + 1 < |cells| then Some(cells[i + 1].ptr) else None
  }

  function PairAt(cells: seq<Cell>, i: nat): Pair
    requires i < |cells|
  {
    Pair(cells[i].nodes, cells[i].split, TailAt(cells, i), cells[i].stored)
  }

  /** The tails from the root lead through exactly these pairs. */
  ghost predicate IsChain(disk: Disk, cells: seq<Cell>) {
    cells != [] && cells[0].ptr == ROOT && Distinct(cells) &&
    forall i :: 0 <= i < |cells| ==> StoredAt(disk, cells, i)
  }

  ghost predicate StoredAt(disk: Disk, cells: seq<Cell>, i: nat)
    requires i < |cells|
  {
    cells[i].ptr in disk && disk[cells[i].ptr] == PairAt(cells, i)
  }

  ghost predicate Distinct(cells: seq<Cell>) {
    forall i, j :: 0 <= i < j < |cells| ==> cells[i].ptr != cells[j].ptr
  }

  /** The sum of what all pairs store. */
  function XorAll(cells: seq<Cell>): (r: Delta) {
    if cells == [] then ZERO else Xor(XorAll(cells[..|cells| - 1]), cells[|cells| - 1].stored)
  }

  lemma {:induction false} XorAppend(a: seq<Cell>, b: seq<Cell>)
    ensures XorAll(a + b) == Xor(XorAll(a), XorAll(b))
  {
    hide Xor;
    if b == [] {
      assert a + b == a;
      XorCancels(XorAll(a));
    } else {
      assert (a + b)[..|a + b| - 1] == a + b[..|b| - 1];
      XorAppend(a, b[..|b| - 1]);
      XorAssociates(XorAll(a), XorAll(b[..|b| - 1]), b[|b| - 1].stored);
    }
  }

  lemma XorOne(c: Cell)
    ensures XorAll([c]) == c.stored
  {
    hide Xor;
    XorCancels(c.stored);
    XorCommutes(ZERO, c.stored);
    assert [c][..0] == [];
  }

  // ----- what is seen -----

  /** The entries of a pair without one whose move is pending. */
  function Visible(c: Cell, move: Move): (r: seq<Node>) {
    if move.Moving? && move.pair == c.ptr && move.id < |c.nodes| then Remove(c.nodes, move.id) else c.nodes
  }

  function SeenCell(c: Cell, move: Move): Cell {
    Cell(c.ptr, Visible(c, move), c.split, ZERO)
  }

  function Seen(cells: seq<Cell>, move: Move): (r: seq<Cell>)
    ensures |r| == |cells| && forall i :: 0 <= i < |cells| ==> r[i] == SeenCell(cells[i], move)
  {
    seq(|cells|, i requires 0 <= i < |cells| => SeenCell(cells[i], move))
  }

  function ChildOf(n: Node): (r: multiset<Ptr>) {
    if n.child.Some? then multiset{n.child.value} else multiset{}
  }

  function Children(nodes: seq<Node>): (r: multiset<Ptr>) {
    if nodes == [] then multiset{} else Children(nodes[..|nodes| - 1]) + ChildOf(nodes[|nodes| - 1])
  }

  lemma {:induction false} ChildrenAppend(a: seq<Node>, b: seq<Node>)
    ensures Children(a + b) == Children(a) + Children(b)
  {
    if b == [] {
      assert a + b == a;
    } else {
      assert (a + b)[..|a + b| - 1] == a + b[..|b| - 1];
      ChildrenAppend(a, b[..|b| - 1]);
    }
  }

  lemma ChildrenOne(n: Node)
    ensures Children([n]) == ChildOf(n)
  {
    assert [n][..0] == [];
  }

  lemma ChildrenInsert(nodes: seq<Node>, i: nat, n: Node)
    requires i <= |nodes|
    ensures Children(Insert(nodes, i, n)) == Children(nodes) + ChildOf(n)
  {
    hide Children, ChildOf;
    ChildrenAppend(nodes[..i] + [n], nodes[i..]);
    ChildrenAppend(nodes[..i], [n]);
    ChildrenOne(n);
    ChildrenAppend(nodes[..i], nodes[i..]);
    assert nodes[..i] + nodes[i..] == nodes;
  }

  lemma ChildrenRemove(nodes: seq<Node>, i: nat)
    requires i < |nodes|
    ensures Children(Remove(nodes, i)) + ChildOf(nodes[i]) == Children(nodes)
  {
    hide Children, ChildOf;
    InsertRemoved(nodes, i);
    hide Insert, Remove;
    ChildrenInsert(Remove(nodes, i), i, nodes[i]);
  }

  lemma InsertRemoved(nodes: seq<Node>, i: nat)
    requires i < |nodes|
    ensures Insert(Remove(nodes, i), i, nodes[i]) == nodes
  {
  }

  /** For each pair that has entries, the directory it is part of, and the entries. */
  type View = map<Ptr, (Ptr, seq<Node>)>

  /** Going along the list: the directory that goes on in the next pair, if any;
      what there is to see; the first pairs of directories; the pairs that the
      entries refer to. */
  datatype Sum = Sum(own: Option<Ptr>, view: View, heads: multiset<Ptr>, refs: multiset<Ptr>)

  function Put(view: View, ptr: Ptr, owner: Ptr, nodes: seq<Node>): (r: View) {
    if nodes == [] then view - {ptr} else view[ptr := (owner, nodes)]
  }

  function Owner(own: Option<Ptr>, c: Cell): Ptr {
    if own.Some? then own.value else c.ptr
  }

  function Step(s: Sum, c: Cell): Sum {
    var owner := Owner(s.own, c);
    Sum(if c.split then Some(owner) else None,
        if c.nodes == [] then s.view else s.view[c.ptr := (owner, c.nodes)],
        if s.own.Some? then s.heads else s.heads + multiset{c.ptr},
        s.refs + Children(c.nodes))
  }

  function Scan(own: Option<Ptr>, cells: seq<Cell>): (s: Sum) {
    if cells == [] then Sum(own, map[], multiset{}, multiset{})
    else Step(Scan(own, cells[..|cells| - 1]), cells[|cells| - 1])
  }

  function Join(a: Sum, b: Sum): Sum {
    Sum(b.own, a.view + b.view, a.heads + b.heads, a.refs + b.refs)
  }

  lemma StepJoin(a: Sum, b: Sum, c: Cell)
    ensures Step(Join(a, b), c) == Join(a, Step(b, c))
  {
    hide Children;
    MoreView(a.view, b.view, c.ptr, (Owner(b.own, c), c.nodes));
    MoreMembers(a.heads, b.heads, multiset{c.ptr});
    MoreMembers(a.refs, b.refs, Children(c.nodes));
  }

  lemma MoreView(a: View, b: View, ptr: Ptr, seen: (Ptr, seq<Node>))
    ensures (a + b)[ptr := seen] == a + b[ptr := seen]
  {
  }

  lemma MoreMembers(a: multiset<Ptr>, b: multiset<Ptr>, more: multiset<Ptr>)
    ensures a + b + more == a + (b + more)
  {
  }

  lemma ScanNext(own: Option<Ptr>, cells: seq<Cell>, c: Cell)
    ensures Scan(own, cells + [c]) == Step(Scan(own, cells), c)
  {
    hide Step;
    assert (cells + [c])[..|cells|] == cells;
  }

  lemma ScanNothing(own: Option<Ptr>)
    ensures Scan(own, []) == Sum(own, map[], multiset{}, multiset{})
  {
  }

  lemma {:induction false} ScanAppend(own: Option<Ptr>, a: seq<Cell>, b: seq<Cell>)
    ensures Scan(own, a + b) == Join(Scan(own, a), Scan(Scan(own, a).own, b))
  {
    hide Step, Scan;
    if b == [] {
      assert a + b == a;
      ScanNothing(Scan(own, a).own);
    } else {
      var b', c := b[..|b| - 1], b[|b| - 1];
      assert a + b == (a + b') + [c] && b == b' + [c];
      ScanAppend(own, a, b');
      ScanNext(own, a + b', c);
      ScanNext(Scan(own, a).own, b', c);
      StepJoin(Scan(own, a), Scan(Scan(own, a).own, b'), c);
    }
  }

  /** Only pairs of the list are seen. */
  lemma {:induction false} ViewInside(own: Option<Ptr>, cells: seq<Cell>, ptr: Ptr)
    requires forall i :: 0 <= i < |cells| ==> cells[i].ptr != ptr
    ensures ptr !in Scan(own, cells).view && ptr !in Scan(own, cells).heads
  {
    if cells != [] {
      ViewInside(own, cells[..|cells| - 1], ptr);
    }
  }

  // ----- changes of the list -----

  /** The directory that the pair at i is part of. */
  function OwnerAt(cells: seq<Cell>, i: nat): Ptr
    requires i < |cells|
  {
    Owner(Scan(None, cells[..i]).own, cells[i])
  }

  /** The scan goes through the pairs before i, that one, and those after it. */
  lemma Around(cells: seq<Cell>, i: nat)
    requires i < |cells|
    ensures var s := Step(Scan(None, cells[..i]), cells[i]);
      Scan(None, cells) == Join(s, Scan(s.own, cells[i + 1..])) && Scan(None, cells[..i + 1]) == s
  {
    hide Scan, Step, Join;
    assert cells == cells[..i + 1] + cells[i + 1..] && cells[..i + 1] == cells[..i] + [cells[i]];
    ScanNext(None, cells[..i], cells[i]);
    ScanAppend(None, cells[..i + 1], cells[i + 1..]);
  }

  /** A pair is seen once. */
  lemma SeenOnce(cells: seq<Cell>, i: nat, own: Option<Ptr>)
    requires i < |cells| && Distinct(cells)
    ensures cells[i].ptr !in Scan(None, cells[..i]).view && cells[i].ptr !in Scan(own, cells[i + 1..]).view
    ensures cells[i].ptr !in Scan(None, cells[..i]).heads && cells[i].ptr !in Scan(own, cells[i + 1..]).heads
  {
    hide Scan;
    ViewInside(None, cells[..i], cells[i].ptr);
    ViewInside(own, cells[i + 1..], cells[i].ptr);
  }

  lemma PutView(before: View, after: View, ptr: Ptr, owner: Ptr, was: seq<Node>, nodes: seq<Node>)
    requires ptr !in before && ptr !in after
    ensures Put(before, ptr, owner, nodes) + after == Put(Put(before, ptr, owner, was) + after, ptr, owner, nodes)
  {
  }

  lemma SwapPart(a: multiset<Ptr>, b: multiset<Ptr>, was: multiset<Ptr>, now: multiset<Ptr>)
    ensures a + now + b + was == a + was + b + now
  {
  }

  lemma StepPut(x: Sum, c: Cell, nodes: seq<Node>, rest: Sum)
    requires c.ptr !in x.view && c.ptr !in rest.view
    ensures var s, s' := Join(Step(x, c), rest), Join(Step(x, c.(nodes := nodes)), rest);
      s'.own == s.own && s'.heads == s.heads && s'.view == Put(s.view, c.ptr, Owner(x.own, c), nodes) &&
      s'.refs + Children(c.nodes) == s.refs + Children(nodes)
  {
    hide Children, Put;
    StepView(x, c);
    StepView(x, c.(nodes := nodes));
    PutView(x.view, rest.view, c.ptr, Owner(x.own, c), c.nodes, nodes);
    SwapPart(x.refs, rest.refs, Children(c.nodes), Children(nodes));
  }

  lemma StepView(x: Sum, c: Cell)
    requires c.ptr !in x.view
    ensures Step(x, c).view == Put(x.view, c.ptr, Owner(x.own, c), c.nodes)
  {
    hide Children;
    assert c.nodes == [] ==> x.view - {c.ptr} == x.view;
  }

  /** Other entries in the pair at i. */
  lemma UpdateScan(cells: seq<Cell>, i: nat, nodes: seq<Node>)
    requires i < |cells| && Distinct(cells)
    ensures var s, s' := Scan(None, cells), Scan(None, cells[i := cells[i].(nodes := nodes)]);
      s'.own == s.own && s'.heads == s.heads && s'.view == Put(s.view, cells[i].ptr, OwnerAt(cells, i), nodes) &&
      s'.refs + Children(cells[i].nodes) == s.refs + Children(nodes)
  {
    hide Scan, Children, Join;
    var cells' := cells[i := cells[i].(nodes := nodes)];
    Around(cells, i);
    Around(cells', i);
    assert cells'[..i] == cells[..i] && cells'[i + 1..] == cells[i + 1..];
    var x := Scan(None, cells[..i]);
    SeenOnce(cells, i, Step(x, cells[i]).own);
    StepPut(x, cells[i], nodes, Scan(Step(x, cells[i]).own, cells[i + 1..]));
  }

  /** The list without the pair at i, whose tail its predecessor takes over. */
  function Unlinked(cells: seq<Cell>, i: nat): (r: seq<Cell>)
    requires 1 <= i < |cells|
  {
    Remove(cells[i - 1 := cells[i - 1].(split := cells[i].split)], i)
  }

  lemma StepTwice(x: Sum, c: Cell, e: Cell)
    requires e.nodes == [] && (c.split || !e.split)
    ensures var s, s' := Step(Step(x, c), e), Step(x, c.(split := e.split));
      s'.own == s.own && s'.view == s.view && s'.refs == s.refs &&
      s.heads == if c.split then s'.heads else s'.heads + multiset{e.ptr}
  {
    assert Children([]) == multiset{};
    hide Children;
  }

  /** An empty pair is unlinked: nothing changes but that a directory goes, if the
      pair was one. */
  lemma UnlinkScan(cells: seq<Cell>, i: nat)
    requires 1 <= i < |cells| && cells[i].nodes == [] && (cells[i - 1].split || !cells[i].split)
    ensures var s, s' := Scan(None, cells), Scan(None, Unlinked(cells, i));
      s'.own == s.own && s'.view == s.view && s'.refs == s.refs &&
      s.heads == if cells[i - 1].split then s'.heads else s'.heads + multiset{cells[i].ptr}
  {
    hide Scan, Step, Join, Unlinked;
    var x := Scan(None, cells[..i - 1]);
    AroundTwo(cells, i);
    AroundUnlinked(cells, i);
    StepTwice(x, cells[i - 1], cells[i]);
    JoinHeads(Step(Step(x, cells[i - 1]), cells[i]), Step(x, cells[i - 1].(split := cells[i].split)),
      Scan(Step(Step(x, cells[i - 1]), cells[i]).own, cells[i + 1..]), cells[i].ptr);
  }

  lemma AroundTwo(cells: seq<Cell>, i: nat)
    requires 1 <= i < |cells|
    ensures var s := Step(Step(Scan(None, cells[..i - 1]), cells[i - 1]), cells[i]);
      Scan(None, cells) == Join(s, Scan(s.own, cells[i + 1..]))
  {
    hide Scan, Step, Join;
    Around(cells, i);
    Around(cells, i - 1);
  }

  lemma AroundUnlinked(cells: seq<Cell>, i: nat)
    requires 1 <= i < |cells|
    ensures var s := Step(Scan(None, cells[..i - 1]), cells[i - 1].(split := cells[i].split));
      Scan(None, Unlinked(cells, i)) == Join(s, Scan(s.own, cells[i + 1..]))
  {
    hide Scan, Step, Join;
    var cells' := Unlinked(cells, i);
    Around(cells', i - 1);
    assert cells'[..i - 1] == cells[..i - 1] && cells'[i..] == cells[i + 1..];
  }

  lemma JoinHeads(a: Sum, b: Sum, rest: Sum, ptr: Ptr)
    requires a.own == b.own && a.view == b.view && a.refs == b.refs
    ensures Join(a, rest).own == Join(b, rest).own && Join(a, rest).view == Join(b, rest).view
    ensures Join(a, rest).refs == Join(b, rest).refs
    ensures a.heads == b.heads ==> Join(a, rest).heads == Join(b, rest).heads
    ensures a.heads == b.heads + multiset{ptr} ==> Join(a, rest).heads == Join(b, rest).heads + multiset{ptr}
  {
  }

  /** The list with a new pair behind the one at i. */
  lemma LinkScan(cells: seq<Cell>, i: nat, d: Cell)
    requires i < |cells| && !cells[i].split && d.nodes == [] && !d.split
    ensures var s, s' := Scan(None, cells), Scan(None, Insert(cells, i + 1, d));
      s'.own == s.own && s'.view == s.view && s'.refs == s.refs && s'.heads == s.heads + multiset{d.ptr}
  {
    hide Scan;
    var cells' := Insert(cells, i + 1, d);
    UnlinkScan(cells', i + 1);
    assert Unlinked(cells', i + 1) == cells;
  }

  /** The pairs that start directories are those behind a soft tail, each once. */
  lemma HeadIff(cells: seq<Cell>, i: nat)
    requires i < |cells| && Distinct(cells)
    ensures Scan(None, cells).heads[cells[i].ptr] == if i == 0 || !cells[i - 1].split then 1 else 0
  {
    hide Scan;
    Around(cells, i);
    var x := Scan(None, cells[..i]);
    SeenOnce(cells, i, Step(x, cells[i]).own);
    if i == 0 {
      ScanNothing(None);
      assert cells[..0] == [];
    } else {
      Around(cells, i - 1);
    }
  }

  // ----- changes on disk -----

  lemma RemoveDistinct(cells: seq<Cell>, i: nat)
    requires Distinct(cells) && i < |cells|
    ensures Distinct(Remove(cells, i))
  {
    var r := Remove(cells, i);
    assert forall j :: 0 <= j < |r| ==> r[j] == cells[if j < i then j else j + 1];
  }

  lemma InsertDistinct(cells: seq<Cell>, i: nat, c: Cell)
    requires Distinct(cells) && i <= |cells| && forall j :: 0 <= j < |cells| ==> cells[j].ptr != c.ptr
    ensures Distinct(Insert(cells, i, c))
  {
    var r := Insert(cells, i, c);
    assert forall j :: 0 <= j < |r| ==> r[j] == if j < i then cells[j] else if j == i then c else cells[j - 1];
  }

  lemma UpdateDistinct(cells: seq<Cell>, i: nat, c: Cell)
    requires Distinct(cells) && i < |cells| && c.ptr == cells[i].ptr
    ensures Distinct(cells[i := c])
  {
  }

  /** Writing a pair that is on the list. */
  lemma UpdateChain(disk: Disk, cells: seq<Cell>, i: nat, c: Cell)
    requires IsChain(disk, cells) && i < |cells| && c.ptr == cells[i].ptr
    ensures IsChain(disk[c.ptr := Pair(c.nodes, c.split, TailAt(cells, i), c.stored)], cells[i := c])
  {
    var disk', cells' := disk[c.ptr := Pair(c.nodes, c.split, TailAt(cells, i), c.stored)], cells[i := c];
    UpdateDistinct(cells, i, c);
    forall j | 0 <= j < |cells'| ensures StoredAt(disk', cells', j) {
      assert StoredAt(disk, cells, j);
    }
  }

  /** Writing a pair that is not. */
  lemma OtherChain(disk: Disk, cells: seq<Cell>, p: Ptr, pair: Pair)
    requires IsChain(disk, cells) && forall j :: 0 <= j < |cells| ==> cells[j].ptr != p
    ensures IsChain(disk[p := pair], cells)
  {
    var disk' := disk[p := pair];
    forall j | 0 <= j < |cells| ensures StoredAt(disk', cells, j) {
      assert StoredAt(disk, cells, j);
    }
  }

  /** Letting a tail lead past the next pair. */
  lemma UnlinkChain(disk: Disk, cells: seq<Cell>, i: nat, c: Cell)
    requires IsChain(disk, cells) && 1 <= i < |cells| && c.ptr == cells[i - 1].ptr
    ensures IsChain(disk[c.ptr := Pair(c.nodes, c.split, TailAt(cells, i), c.stored)], Remove(cells, i)[i - 1 := c])
  {
    hide Distinct;
    var disk' := disk[c.ptr := Pair(c.nodes, c.split, TailAt(cells, i), c.stored)];
    var cells' := Remove(cells, i)[i - 1 := c];
    RemoveDistinct(cells, i);
    UpdateDistinct(Remove(cells, i), i - 1, c);
    forall j | 0 <= j < |cells'| ensures StoredAt(disk', cells', j) {
      var k := if j < i then j else j + 1;
      assert StoredAt(disk, cells, k);
      assert k != i - 1 ==> cells[k].ptr != c.ptr by { if k != i - 1 { DistinctAt(cells, k, i - 1); } }
    }
  }

  lemma DistinctAt(cells: seq<Cell>, i: nat, j: nat)
    requires Distinct(cells) && i < |cells| && j < |cells| && i != j
    ensures cells[i].ptr != cells[j].ptr
  {
  }

  /** Letting a tail lead to a new pair, which leads on. */
  lemma LinkChain(disk: Disk, cells: seq<Cell>, i: nat, c: Cell, d: Cell)
    requires IsChain(disk, cells) && i < |cells| && c.ptr == cells[i].ptr
    requires d.ptr in disk && disk[d.ptr] == Pair(d.nodes, d.split, TailAt(cells, i), d.stored)
    requires forall j :: 0 <= j < |cells| ==> cells[j].ptr != d.ptr
    ensures IsChain(disk[c.ptr := Pair(c.nodes, c.split, Some(d.ptr), c.stored)], Insert(cells, i + 1, d)[i := c])
  {
    hide Distinct;
    var disk' := disk[c.ptr := Pair(c.nodes, c.split, Some(d.ptr), c.stored)];
    var cells' := Insert(cells, i + 1, d)[i := c];
    InsertDistinct(cells, i + 1, d);
    UpdateDistinct(Insert(cells, i + 1, d), i, c);
    forall j | 0 <= j < |cells'| ensures StoredAt(disk', cells', j) {
      if j != i + 1 {
        var k := if j <= i then j else j - 1;
        assert StoredAt(disk, cells, k);
        assert k != i ==> cells[k].ptr != c.ptr by { if k != i { DistinctAt(cells, k, i); } }
      }
    }
  }

  // ----- the tree and the list -----

  /** The entries refer once to every directory on the list but the root and those in
      `extra`, which are empty. */
  ghost predicate Lacks(cells: seq<Cell>, extra: multiset<Ptr>) {
    var s := Scan(None, cells);
    s.own == None && s.refs + multiset{ROOT} + extra == s.heads &&
    forall i :: 0 <= i < |cells| && cells[i].ptr in extra ==> cells[i].nodes == [] && !cells[i].split
  }

  /** The entries refer once to every directory on the list but the root. Whether all can
      be reached is the matter of module `Tree`. */
  ghost predicate Tidy(cells: seq<Cell>) {
    Lacks(cells, multiset{})
  }

  /** The pair of a directory that may be removed. */
  ghost predicate EmptyDir(cells: seq<Cell>, ptr: Ptr) {
    forall i :: 0 <= i < |cells| && cells[i].ptr == ptr ==> cells[i].nodes == [] && !cells[i].split
  }

  lemma Cancels(a: multiset<Ptr>, b: multiset<Ptr>, x: multiset<Ptr>, y: multiset<Ptr>, e: multiset<Ptr>)
    requires a + x == b + y && y + e == x
    ensures a + e == b
  {
    assert a + e + y == b + y;
    forall p ensures (a + e)[p] == b[p] {
      assert (a + e + y)[p] == (b + y)[p];
    }
  }

  /** Deleting an entry leaves a directory it refers to behind. */
  lemma DeleteLacks(cells: seq<Cell>, extra: multiset<Ptr>, i: nat, k: nat)
    requires Lacks(cells, extra) && Distinct(cells) && i < |cells| && k < |cells[i].nodes|
    requires var c := cells[i].nodes[k].child; c.Some? ==> EmptyDir(cells, c.value)
    ensures Lacks(cells[i := cells[i].(nodes := Remove(cells[i].nodes, k))], extra + ChildOf(cells[i].nodes[k]))
  {
    hide Scan, Children, Remove, Put;
    var n, nodes := cells[i].nodes[k], Remove(cells[i].nodes, k);
    var cells' := cells[i := cells[i].(nodes := nodes)];
    UpdateScan(cells, i, nodes);
    ChildrenRemove(cells[i].nodes, k);
    Cancels(Scan(None, cells').refs, Scan(None, cells).refs, Children(cells[i].nodes), Children(nodes), ChildOf(n));
    assert Scan(None, cells').refs + multiset{ROOT} + (extra + ChildOf(n)) ==
      Scan(None, cells).refs + multiset{ROOT} + extra;
    forall j | 0 <= j < |cells'| && cells'[j].ptr in extra + ChildOf(n)
      ensures cells'[j].nodes == [] && !cells'[j].split
    {
      assert cells[j].ptr in extra || cells[j].ptr in ChildOf(n);
    }
  }

  /** Inserting an entry for a directory takes it in. */
  lemma InsertLacks(cells: seq<Cell>, extra: multiset<Ptr>, i: nat, k: nat, n: Node)
    requires Lacks(cells, extra + ChildOf(n)) && Distinct(cells) && i < |cells| && k <= |cells[i].nodes|
    requires cells[i].ptr !in extra
    ensures Lacks(cells[i := cells[i].(nodes := Insert(cells[i].nodes, k, n))], extra)
  {
    hide Scan, Children, Insert, Put;
    var nodes := Insert(cells[i].nodes, k, n);
    var cells' := cells[i := cells[i].(nodes := nodes)];
    UpdateScan(cells, i, nodes);
    ChildrenInsert(cells[i].nodes, k, n);
    Cancels(Scan(None, cells).refs, Scan(None, cells').refs, Children(nodes), Children(cells[i].nodes), ChildOf(n));
    assert Scan(None, cells').refs + multiset{ROOT} + extra ==
      Scan(None, cells).refs + multiset{ROOT} + (extra + ChildOf(n));
    forall j | 0 <= j < |cells'| && cells'[j].ptr in extra ensures cells'[j].nodes == [] && !cells'[j].split {
      assert cells[j].ptr in extra + ChildOf(n);
    }
  }

  /** Unlinking a pair with nothing in it. */
  lemma UnlinkLacks(cells: seq<Cell>, extra: multiset<Ptr>, i: nat)
    requires Lacks(cells, extra) && Distinct(cells) && 1 <= i < |cells| && cells[i].nodes == []
    requires !cells[i - 1].split ==> cells[i].ptr in extra
    ensures Lacks(Unlinked(cells, i), if cells[i - 1].split then extra else extra - multiset{cells[i].ptr})
  {
    hide Scan;
    UnlinkScan(cells, i);
    var cells', less := Unlinked(cells, i), if cells[i - 1].split then extra else extra - multiset{cells[i].ptr};
    if !cells[i - 1].split {
      Without(Scan(None, cells).refs + multiset{ROOT}, Scan(None, cells').heads, extra, cells[i].ptr);
    }
    forall j | 0 <= j < |cells'| && cells'[j].ptr in less ensures cells'[j].nodes == [] && !cells'[j].split {
      assert cells'[j].ptr in extra;
      assert cells'[j] == if j < i - 1 then cells[j]
                          else if j == i - 1 then cells[j].(split := cells[i].split)
                          else cells[j + 1];
    }
  }

  lemma Without(a: multiset<Ptr>, b: multiset<Ptr>, extra: multiset<Ptr>, ptr: Ptr)
    requires a + extra == b + multiset{ptr} && ptr in extra
    ensures a + (extra - multiset{ptr}) == b
  {
    assert extra == (extra - multiset{ptr}) + multiset{ptr};
    forall p ensures (a + (extra - multiset{ptr}))[p] == b[p] {
      assert (a + extra)[p] == (b + multiset{ptr})[p];
    }
  }

  /** Linking a new pair. */
  lemma LinkLacks(cells: seq<Cell>, extra: multiset<Ptr>, i: nat, d: Cell)
    requires Lacks(cells, extra) && i < |cells| && !cells[i].split && d.nodes == [] && !d.split
    requires forall j :: 0 <= j < |cells| ==> cells[j].ptr != d.ptr
    ensures Lacks(Insert(cells, i + 1, d), extra + multiset{d.ptr})
  {
    hide Scan;
    LinkScan(cells, i, d);
    var cells' := Insert(cells, i + 1, d);
    assert Scan(None, cells').refs + multiset{ROOT} + (extra + multiset{d.ptr}) ==
      Scan(None, cells).heads + multiset{d.ptr};
    forall j | 0 <= j < |cells'| && cells'[j].ptr in extra + multiset{d.ptr}
      ensures cells'[j].nodes == [] && !cells'[j].split
    {
      assert cells'[j] == if j < i + 1 then cells[j] else if j == i + 1 then d else cells[j - 1];
    }
  }

  /** What a deletion leaves: the list with fewer entries in the pair at i, or
      without that pair when it is empty and continues a directory. */
  ghost predicate Dropped(cells: seq<Cell>, cells': seq<Cell>, i: nat)
    requires i < |cells|
  {
    cells' == cells || (1 <= i && cells[i].nodes == [] && cells[i - 1].split && cells' == Unlinked(cells, i))
  }

  lemma DroppedMeans(cells: seq<Cell>, cells': seq<Cell>, i: nat, extra: multiset<Ptr>)
    requires i < |cells| && Dropped(cells, cells', i) && Lacks(cells, extra) && Distinct(cells)
    ensures Lacks(cells', extra) && Scan(None, cells').view == Scan(None, cells).view
  {
    hide Scan, Distinct;
    if cells' != cells {
      UnlinkLacks(cells, extra, i);
      UnlinkScan(cells, i);
    }
  }

  lemma {:induction false} OwnerIgnoresNodes(a: seq<Cell>, b: seq<Cell>)
    requires |a| == |b| && forall i :: 0 <= i < |a| ==> a[i].ptr == b[i].ptr && a[i].split == b[i].split
    ensures Scan(None, a).own == Scan(None, b).own
  {
    if a != [] {
      OwnerIgnoresNodes(a[..|a| - 1], b[..|b| - 1]);
    }
  }

  /** Moving an entry from the pair at i to the pair at j, where it may replace one
      that refers to an empty directory. */
  lemma MoveLacks(cells: seq<Cell>, i: nat, k: nat, j: nat, nodes: seq<Node>, replaced: multiset<Ptr>)
    requires Tidy(cells) && Distinct(cells) && i < |cells| && j < |cells| && i != j && k < |cells[i].nodes|
    requires Children(nodes) + replaced == Children(cells[j].nodes) + ChildOf(cells[i].nodes[k])
    requires forall p :: p in replaced ==> EmptyDir(cells, p)
    requires j < |cells| && forall p :: p in replaced ==> p != cells[j].ptr
    ensures var to' := cells[j := cells[j].(nodes := nodes)];
      var cells' := to'[i := cells[i].(nodes := Remove(cells[i].nodes, k))];
      Lacks(cells', replaced) &&
      Scan(None, cells').view ==
        Put(Put(Scan(None, cells).view, cells[j].ptr, OwnerAt(cells, j), nodes), cells[i].ptr, OwnerAt(cells, i),
          Remove(cells[i].nodes, k))
  {
    hide Scan, Children, Remove, Put, Distinct;
    var less := Remove(cells[i].nodes, k);
    var mid := cells[j := cells[j].(nodes := nodes)];
    var cells' := mid[i := cells[i].(nodes := less)];
    UpdateScan(cells, j, nodes);
    UpdateDistinct(cells, j, mid[j]);
    UpdateScan(mid, i, less);
    OwnerIgnoresNodes(mid[..i], cells[..i]);
    ChildrenRemove(cells[i].nodes, k);
    assert mid[i] == cells[i] && cells' == mid[i := mid[i].(nodes := less)];
    MovedRefs(Scan(None, cells).refs, Scan(None, mid).refs, Scan(None, cells').refs, Children(cells[j].nodes),
      Children(nodes), Children(cells[i].nodes), Children(less), ChildOf(cells[i].nodes[k]), replaced);
    assert Scan(None, cells').refs + multiset{ROOT} + replaced == Scan(None, cells).refs + multiset{ROOT} + multiset{};
    forall x | 0 <= x < |cells'| && cells'[x].ptr in replaced ensures cells'[x].nodes == [] && !cells'[x].split {
      assert EmptyDir(cells, cells'[x].ptr) && cells[x].ptr == cells'[x].ptr;
    }
  }

  lemma MovedRefs(r0: multiset<Ptr>, r1: multiset<Ptr>, r2: multiset<Ptr>, to0: multiset<Ptr>, to1: multiset<Ptr>,
                  from0: multiset<Ptr>, from1: multiset<Ptr>, e: multiset<Ptr>, replaced: multiset<Ptr>)
    requires r1 + to0 == r0 + to1 && r2 + from0 == r1 + from1 && from1 + e == from0 && to1 + replaced == to0 + e
    ensures r2 + replaced == r0
  {
    Cancels(r2, r1, from0, from1, e);
    forall p ensures (r2 + replaced)[p] == r0[p] {
      assert (r1 + to0)[p] == (r0 + to1)[p] && (r2 + e)[p] == r1[p] && (to1 + replaced)[p] == (to0 + e)[p];
    }
  }
}
