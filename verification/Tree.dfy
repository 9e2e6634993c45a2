/** The directory tree: which directories can be reached from the root, and what
    moving an entry does to that. */
module Tree {
  import opened Wrappers
  import opened Gstate
  import opened MetaLog
  import opened Chain

  /** Pairs of a directory and one that it has an entry for. */
  type Edges = set<(Ptr, Ptr)>

  ghost predicate Leads(edges: Edges, path: seq<Ptr>, a: Ptr, b: Ptr) {
    path != [] && path[0] == a && path[|path| - 1] == b &&
    forall k :: 0 < k < |path| ==> (path[k - 1], path[k]) in edges
  }

  /** Directory b is a or somewhere below it. */
  ghost predicate Below(edges: Edges, a: Ptr, b: Ptr) {
    exists path :: Leads(edges, path, a, b)
  }

  /** Every directory that has an entry can be reached from the root. */
  ghost predicate AllReached(edges: Edges) {
    forall e :: e in edges ==> Below(edges, ROOT, e.1)
  }

  ghost predicate OneParent(edges: Edges) {
    forall e, f :: e in edges && f in edges && e.1 == f.1 ==> e == f
  }

  ghost predicate Childless(edges: Edges, gone: multiset<Ptr>) {
    forall e :: e in edges ==> e.0 !in gone
  }

  lemma BelowSelf(edges: Edges, a: Ptr)
    ensures Below(edges, a, a)
  {
    assert Leads(edges, [a], a, a);
  }

  lemma BelowNext(edges: Edges, a: Ptr, b: Ptr, c: Ptr)
    requires Below(edges, a, b) && (b, c) in edges
    ensures Below(edges, a, c)
  {
    var path :| Leads(edges, path, a, b);
    assert Leads(edges, path + [c], a, c);
  }

  /** The last step of a path. */
  lemma LastStep(edges: Edges, path: seq<Ptr>, a: Ptr, b: Ptr)
    requires Leads(edges, path, a, b) && |path| > 1
    ensures Leads(edges, path[..|path| - 1], a, path[|path| - 2]) && (path[|path| - 2], b) in edges
  {
  }

  lemma FirstStep(edges: Edges, path: seq<Ptr>, a: Ptr, b: Ptr)
    requires Leads(edges, path, a, b) && |path| > 1
    ensures (a, path[1]) in edges
  {
  }

  lemma BelowFrom(edges: Edges, a: Ptr, b: Ptr) returns (c: Ptr)
    requires Below(edges, a, b) && a != b
    ensures Below(edges, a, c) && (c, b) in edges
  {
    var path :| Leads(edges, path, a, b);
    LastStep(edges, path, a, b);
    c := path[|path| - 2];
  }

  // ----- other edges -----

  /** The edges without those to x and to directories that go, and with one to x. */
  function Grafted(edges: Edges, x: Ptr, o: Ptr, gone: multiset<Ptr>): Edges {
    Pruned(edges, gone + multiset{x}) + {(o, x)}
  }

  function Pruned(edges: Edges, gone: multiset<Ptr>): Edges {
    set e | e in edges && e.1 !in gone
  }

  /** What is not below x stays where it is. */
  lemma {:induction false} KeptOutside(edges: Edges, after: Edges, x: Ptr, gone: multiset<Ptr>, path: seq<Ptr>, b: Ptr)
    requires Pruned(edges, gone + multiset{x}) <= after && Childless(edges, gone)
    requires Leads(edges, path, ROOT, b) && b !in gone && !Below(edges, x, b)
    ensures Below(after, ROOT, b)
  {
    if |path| == 1 {
      BelowSelf(after, ROOT);
    } else {
      var a := path[|path| - 2];
      LastStep(edges, path, ROOT, b);
      if Below(edges, x, a) {
        BelowNext(edges, x, a, b);
      }
      BelowSelf(edges, x);
      KeptOutside(edges, after, x, gone, path[..|path| - 1], a);
      BelowNext(after, ROOT, a, b);
    }
  }

  /** What is below x goes with it. */
  lemma {:induction false} KeptInside(edges: Edges, after: Edges, x: Ptr, gone: multiset<Ptr>, path: seq<Ptr>, b: Ptr)
    requires Pruned(edges, gone + multiset{x}) <= after && Childless(edges, gone)
    requires Leads(edges, path, x, b) && b !in gone && Below(after, ROOT, x)
    ensures Below(after, ROOT, b)
  {
    if |path| > 1 && b != x {
      var a := path[|path| - 2];
      LastStep(edges, path, x, b);
      KeptInside(edges, after, x, gone, path[..|path| - 1], a);
      BelowNext(after, ROOT, a, b);
    }
  }

  /** A directory that is put below itself cuts itself off. */
  lemma {:induction false} CutOff(edges: Edges, x: Ptr, o: Ptr, gone: multiset<Ptr>, path: seq<Ptr>, b: Ptr)
    requires OneParent(edges) && Below(edges, x, o) && x != ROOT && forall e :: e in edges ==> e.1 != ROOT
    requires Leads(Grafted(edges, x, o, gone), path, ROOT, b)
    ensures !Below(edges, x, b)
  {
    if Below(edges, x, b) {
      if |path| == 1 {
        var c := BelowFrom(edges, x, b);
        assert false;
      } else {
        var a := path[|path| - 2];
        LastStep(Grafted(edges, x, o, gone), path, ROOT, b);
        CutOff(edges, x, o, gone, path[..|path| - 1], a);
        if b != x {
          var c := BelowFrom(edges, x, b);
          assert false;
        }
      }
    }
  }

  /** Moving directory x to directory o, or making it there: everything can still be
      reached exactly when o is not x or below it. */
  lemma GraftedIff(edges: Edges, x: Ptr, o: Ptr, gone: multiset<Ptr>)
    requires AllReached(edges) && OneParent(edges) && Childless(edges, gone)
    requires x != ROOT && x !in gone && o !in gone && forall e :: e in edges ==> e.1 != ROOT
    requires Below(edges, ROOT, o)
    ensures AllReached(Grafted(edges, x, o, gone)) <==> !Below(edges, x, o)
    ensures Below(edges, x, o) ==> !Below(Grafted(edges, x, o, gone), ROOT, x)
  {
    hide Below, Leads;
    var after := Grafted(edges, x, o, gone);
    if Below(edges, x, o) {
      BelowSelf(edges, x);
      if Below(after, ROOT, x) {
        var path := PathTo(after, ROOT, x);
        CutOff(edges, x, o, gone, path, x);
      }
      assert (o, x) in after;
    } else {
      KeptOutside(edges, after, x, gone, PathTo(edges, ROOT, o), o);
      BelowNext(after, ROOT, o, x);
      forall e | e in after ensures Below(after, ROOT, e.1) {
        if e.1 != x {
          if Below(edges, x, e.1) {
            KeptInside(edges, after, x, gone, PathTo(edges, x, e.1), e.1);
          } else {
            KeptOutside(edges, after, x, gone, PathTo(edges, ROOT, e.1), e.1);
          }
        }
      }
    }
  }

  ghost function PathTo(edges: Edges, a: Ptr, b: Ptr): (path: seq<Ptr>)
    requires Below(edges, a, b)
    ensures Leads(edges, path, a, b)
  {
    var path :| Leads(edges, path, a, b); path
  }

  /** Taking out directories with nothing in them. */
  lemma PrunedReached(edges: Edges, gone: multiset<Ptr>)
    requires AllReached(edges) && Childless(edges, gone)
    ensures AllReached(Pruned(edges, gone))
  {
    hide Below, Leads;
    var after := Pruned(edges, gone);
    if gone == multiset{} {
      assert after == edges;
    } else {
      var x :| x in gone;
      assert Pruned(edges, gone + multiset{x}) == after;
      forall e | e in after ensures Below(after, ROOT, e.1) {
        if Below(edges, x, e.1) {
          ChildlessBelow(edges, x, e.1);
        }
        KeptOutside(edges, after, x, gone, PathTo(edges, ROOT, e.1), e.1);
      }
    }
  }

  lemma {:induction false} ChildlessBelow(edges: Edges, x: Ptr, b: Ptr)
    requires Below(edges, x, b) && forall e :: e in edges ==> e.0 != x
    ensures b == x
  {
    var path := PathTo(edges, x, b);
    if |path| > 1 {
      FirstStep(edges, path, x, b);
    }
  }

  // ----- the edges of a list -----

  /** The directories that the entries of a pair refer to. */
  function Refs(view: View, p: Ptr): multiset<Ptr> {
    if p in view then Children(view[p].1) else multiset{}
  }

  function EdgesOf(view: View): Edges {
    set p, c | p in view && c in Refs(view, p) :: (view[p].0, c)
  }

  /** All directories that have entries can be reached from the root. */
  ghost predicate Rooted(view: View) {
    AllReached(EdgesOf(view))
  }

  /** The directory has an entry in the tree, or is the root. */
  ghost predicate Reached(view: View, x: Ptr) {
    Below(EdgesOf(view), ROOT, x)
  }

  /** No directory has two entries. */
  ghost predicate OnceEach(view: View) {
    (forall p, c :: Refs(view, p)[c] <= 1) &&
    forall p, q, c :: c in Refs(view, p) && c in Refs(view, q) ==> p == q
  }

  lemma ViewAt(cells: seq<Cell>, i: nat)
    requires Distinct(cells) && i < |cells|
    ensures var s := Scan(None, cells);
      Refs(s.view, cells[i].ptr) == Children(cells[i].nodes) &&
      if cells[i].nodes == [] then cells[i].ptr !in s.view
      else cells[i].ptr in s.view && s.view[cells[i].ptr] == (OwnerAt(cells, i), cells[i].nodes)
  {
    hide Scan;
    assert cells[i := cells[i].(nodes := cells[i].nodes)] == cells;
    UpdateScan(cells, i, cells[i].nodes);
  }

  lemma CellOf(cells: seq<Cell>, p: Ptr) returns (i: nat)
    requires p in Scan(None, cells).view || p in Scan(None, cells).heads
    ensures i < |cells| && cells[i].ptr == p
  {
    hide Scan;
    if forall k :: 0 <= k < |cells| ==> cells[k].ptr != p {
      ViewInside(None, cells, p);
    }
    i :| 0 <= i < |cells| && cells[i].ptr == p;
  }

  /** The entries of two pairs together. */
  lemma TwoPairs(cells: seq<Cell>, i: nat, j: nat)
    requires Distinct(cells) && i < |cells| && j < |cells| && i != j
    ensures Children(cells[i].nodes) + Children(cells[j].nodes) <= Scan(None, cells).refs
  {
    hide Scan, Children;
    var less := cells[i := cells[i].(nodes := [])];
    UpdateScan(cells, i, []);
    UpdateDistinct(cells, i, less[i]);
    OnePair(less, j);
    NoRefs();
    Rest(Scan(None, less).refs, Scan(None, cells).refs, Children(cells[i].nodes));
  }

  lemma NoRefs()
    ensures Children([]) == multiset{}
  {
  }

  lemma OnePair(cells: seq<Cell>, i: nat)
    requires Distinct(cells) && i < |cells|
    ensures Children(cells[i].nodes) <= Scan(None, cells).refs
  {
    hide Scan, Children;
    UpdateScan(cells, i, []);
    NoRefs();
    Rest(Scan(None, cells[i := cells[i].(nodes := [])]).refs, Scan(None, cells).refs, Children(cells[i].nodes));
  }

  lemma Rest(less: multiset<Ptr>, all: multiset<Ptr>, part: multiset<Ptr>)
    requires less + part == all + multiset{}
    ensures all == less + part
  {
  }

  lemma {:induction false} RefFrom(cells: seq<Cell>, x: Ptr) returns (i: nat)
    requires x in Scan(None, cells).refs
    ensures i < |cells| && x in Children(cells[i].nodes)
  {
    hide Children;
    i := |cells| - 1;
    if x !in Children(cells[i].nodes) {
      i := RefFrom(cells[..|cells| - 1], x);
    }
  }

  lemma HeadOnce(cells: seq<Cell>, x: Ptr)
    requires Distinct(cells)
    ensures Scan(None, cells).heads[x] <= 1
  {
    hide Scan;
    if x in Scan(None, cells).heads {
      var i := CellOf(cells, x);
      HeadIff(cells, i);
    }
  }

  lemma TidyOnce(cells: seq<Cell>)
    requires Tidy(cells) && Distinct(cells)
    ensures OnceEach(Scan(None, cells).view)
  {
    hide Scan, Children;
    var s := Scan(None, cells);
    forall p, c ensures Refs(s.view, p)[c] <= 1 {
      if p in s.view {
        var i := CellOf(cells, p);
        ViewAt(cells, i);
        OnePair(cells, i);
        HeadOnce(cells, c);
      }
    }
    forall p, q, c | c in Refs(s.view, p) && c in Refs(s.view, q) ensures p == q {
      var i := CellOf(cells, p);
      var j := CellOf(cells, q);
      ViewAt(cells, i);
      ViewAt(cells, j);
      HeadOnce(cells, c);
      if i != j {
        TwoPairs(cells, i, j);
        TwoIsTwo(Children(cells[i].nodes), Children(cells[j].nodes), s.refs, c);
      }
    }
  }

  lemma TwoIsTwo(a: multiset<Ptr>, b: multiset<Ptr>, all: multiset<Ptr>, c: Ptr)
    requires a + b <= all && c in a && c in b
    ensures all[c] >= 2
  {
    assert (a + b)[c] >= 2;
  }

  // ----- owners -----

  /** A directory goes on in the next pair only if its first pair says so. */
  lemma {:induction false} OwnerSplit(cells: seq<Cell>)
    ensures var own := Scan(None, cells).own;
      own.Some? ==> own.value in Scan(None, cells).heads &&
                    exists i :: 0 <= i < |cells| && cells[i].ptr == own.value && cells[i].split
  {
    hide Children;
    if cells != [] {
      var less := cells[..|cells| - 1];
      OwnerSplit(less);
      var own := Scan(None, less).own;
      if own.Some? {
        var i :| 0 <= i < |less| && less[i].ptr == own.value && less[i].split;
        assert cells[i] == less[i];
      }
      assert cells[|cells| - 1] == cells[|cells| - 1];
    }
  }

  lemma OwnerIsHead(cells: seq<Cell>, i: nat)
    requires i < |cells|
    ensures OwnerAt(cells, i) in Scan(None, cells).heads
    ensures OwnerAt(cells, i) == cells[i].ptr ||
            exists j :: 0 <= j < |cells| && cells[j].ptr == OwnerAt(cells, i) && cells[j].split
  {
    hide Scan, Children;
    Around(cells, i);
    OwnerSplit(cells[..i]);
    var own := Scan(None, cells[..i]).own;
    if own.Some? {
      var j :| 0 <= j < i && cells[..i][j].ptr == own.value && cells[..i][j].split;
      assert cells[j].ptr == own.value && cells[j].split;
    }
  }

  /** An empty directory has no entries below it. */
  lemma EmptyChildless(cells: seq<Cell>, gone: multiset<Ptr>)
    requires Distinct(cells) && forall x :: x in gone ==> EmptyDir(cells, x)
    ensures Childless(EdgesOf(Scan(None, cells).view), gone)
  {
    hide Scan, Children;
    var view := Scan(None, cells).view;
    forall e | e in EdgesOf(view) ensures e.0 !in gone {
      var p, c :| p in view && c in Refs(view, p) && e == (view[p].0, c);
      var i := CellOf(cells, p);
      ViewAt(cells, i);
      OwnerIsHead(cells, i);
    }
  }

  /** What the list says about the edges when the tree refers once to each directory. */
  lemma TidyEdges(cells: seq<Cell>)
    requires Tidy(cells) && Distinct(cells)
    ensures var edges := EdgesOf(Scan(None, cells).view);
      OneParent(edges) && forall e :: e in edges ==> e.1 != ROOT && e.1 in Scan(None, cells).refs
  {
    hide Scan, Children;
    TidyOnce(cells);
    var s := Scan(None, cells);
    forall e | e in EdgesOf(s.view) ensures e.1 != ROOT && e.1 in s.refs {
      var p, c :| p in s.view && c in Refs(s.view, p) && e == (s.view[p].0, c);
      var i := CellOf(cells, p);
      ViewAt(cells, i);
      OnePair(cells, i);
      HeadOnce(cells, ROOT);
      assert (s.refs + multiset{ROOT} + multiset{})[ROOT] == s.heads[ROOT];
      assert c in s.refs;
    }
  }

  /** The directories on the list that are not in `extra` are those that can be
      reached from the root. */
  lemma ReachedIff(cells: seq<Cell>, extra: multiset<Ptr>, x: Ptr)
    requires Lacks(cells, extra) && Distinct(cells) && Rooted(Scan(None, cells).view)
    ensures Reached(Scan(None, cells).view, x) <==> x in Scan(None, cells).heads && x !in extra
  {
    hide Scan, Children, Below, Leads;
    var s := Scan(None, cells);
    var edges := EdgesOf(s.view);
    HeadOnce(cells, x);
    HeadOnce(cells, ROOT);
    assert (s.refs + multiset{ROOT} + extra)[x] == s.heads[x];
    assert (s.refs + multiset{ROOT} + extra)[ROOT] == s.heads[ROOT];
    if x in s.refs {
      var i := RefFrom(cells, x);
      ViewAt(cells, i);
      assert (s.view[cells[i].ptr].0, x) in edges;
    }
    BelowSelf(edges, ROOT);
    if Below(edges, ROOT, x) && x != ROOT {
      var c := BelowFrom(edges, ROOT, x);
      var p, d :| p in s.view && d in Refs(s.view, p) && (c, x) == (s.view[p].0, d);
      var i := CellOf(cells, p);
      ViewAt(cells, i);
      OnePair(cells, i);
      assert x in s.refs;
    }
  }

  // ----- changes of the entries -----

  lemma PutRefs(view: View, p: Ptr, owner: Ptr, nodes: seq<Node>, q: Ptr)
    ensures var now := Put(view, p, owner, nodes);
      Refs(now, q) == (if q == p then Children(nodes) else Refs(view, q)) &&
      (Refs(now, q) != multiset{} ==> now[q].0 == if q == p then owner else view[q].0)
  {
    NoRefs();
  }

  /** The owner of a pair, if it has entries. */
  ghost predicate Owns(view: View, p: Ptr, owner: Ptr) {
    p in view ==> view[p].0 == owner
  }

  lemma InEdges(view: View, p: Ptr, c: Ptr)
    requires c in Refs(view, p)
    ensures p in view && (view[p].0, c) in EdgesOf(view)
  {
  }

  lemma FromEdge(view: View, e: (Ptr, Ptr)) returns (p: Ptr)
    requires e in EdgesOf(view)
    ensures p in view && view[p].0 == e.0 && e.1 in Refs(view, p)
  {
    var q, c :| q in view && c in Refs(view, q) && e == (view[q].0, c);
    p := q;
  }

  /** A view in which x has its one entry in pair q, those in `gone` have none, and all
      others where they had it. */
  ghost predicate Moves(view: View, now: View, x: Ptr, q: Ptr, gone: multiset<Ptr>) {
    forall p, c :: c in Refs(now, p) <==> if c == x then p == q else c !in gone && c in Refs(view, p)
  }

  lemma MovesEdges(view: View, now: View, x: Ptr, q: Ptr, owner: Ptr, gone: multiset<Ptr>)
    requires Moves(view, now, x, q, gone) && x !in gone && Owns(now, q, owner)
    requires forall p :: p in view && p in now ==> view[p].0 == now[p].0
    ensures EdgesOf(now) == Grafted(EdgesOf(view), x, owner, gone)
  {
    hide Refs;
    var edges, after := EdgesOf(view), EdgesOf(now);
    forall e | e in after ensures e in Grafted(edges, x, owner, gone) {
      var p := FromEdge(now, e);
      if e.1 != x {
        assert e.1 !in gone && e.1 in Refs(view, p);
        InEdges(view, p, e.1);
      }
    }
    forall e | e in Grafted(edges, x, owner, gone) ensures e in after {
      if e == (owner, x) {
        InEdges(now, q, x);
      } else {
        var p := FromEdge(view, e);
        assert e.1 in Refs(now, p);
        InEdges(now, p, e.1);
      }
    }
  }

  /** A view in which those in `gone` have no entry, and all others where they had it. */
  ghost predicate Drops(view: View, now: View, gone: multiset<Ptr>) {
    forall p, c :: c in Refs(now, p) <==> (c !in gone && c in Refs(view, p))
  }

  lemma PrunesEdges(view: View, now: View, gone: multiset<Ptr>)
    requires Drops(view, now, gone)
    requires forall p :: p in view && p in now ==> view[p].0 == now[p].0
    ensures EdgesOf(now) == Pruned(EdgesOf(view), gone)
  {
    hide Refs;
    var edges, after := EdgesOf(view), EdgesOf(now);
    forall e | e in after ensures e in Pruned(edges, gone) {
      var p := FromEdge(now, e);
      assert e.1 !in gone && e.1 in Refs(view, p);
      InEdges(view, p, e.1);
    }
    forall e | e in Pruned(edges, gone) ensures e in after {
      var p := FromEdge(view, e);
      InEdges(now, p, e.1);
    }
  }

  /** The directories of which the pair has entries afterwards. */
  lemma OneFewer(was: multiset<Ptr>, now: multiset<Ptr>, gone: multiset<Ptr>, added: multiset<Ptr>)
    requires now + gone == was + added && forall c :: was[c] <= 1
    ensures forall c :: c !in added ==> (c in now <==> c !in gone && c in was) && (c in gone ==> c in was)
    ensures forall c :: c in now && added[c] == 1 && c !in was ==> c !in gone
  {
    forall c ensures now[c] + gone[c] == was[c] + added[c] {
      assert (now + gone)[c] == (was + added)[c];
    }
  }

  lemma OwnerReached(cells: seq<Cell>, i: nat)
    requires Tidy(cells) && Distinct(cells) && i < |cells| && Rooted(Scan(None, cells).view)
    ensures Reached(Scan(None, cells).view, OwnerAt(cells, i))
  {
    hide Scan, Below;
    OwnerIsHead(cells, i);
    ReachedIff(cells, multiset{}, OwnerAt(cells, i));
  }

  /** Other entries in one pair, where none is new. */
  lemma LessRooted(cells: seq<Cell>, i: nat, nodes: seq<Node>, gone: multiset<Ptr>)
    requires Tidy(cells) && Distinct(cells) && i < |cells| && Rooted(Scan(None, cells).view)
    requires Children(nodes) + gone == Children(cells[i].nodes) && forall x :: x in gone ==> EmptyDir(cells, x)
    ensures Rooted(Put(Scan(None, cells).view, cells[i].ptr, OwnerAt(cells, i), nodes))
  {
    hide Scan, Children, Below, Put, Refs, EmptyDir, OnceEach, Drops, Distinct, Tidy, AllReached;
    var view, p, owner := Scan(None, cells).view, cells[i].ptr, OwnerAt(cells, i);
    TidyOnce(cells);
    ViewAt(cells, i);
    DropsOne(view, p, owner, nodes, gone);
    EmptyChildless(cells, gone);
    PutOwners(view, p, owner, nodes);
    PrunesEdges(view, Put(view, p, owner, nodes), gone);
    PrunedReached(EdgesOf(view), gone);
  }

  lemma DropsOne(view: View, p: Ptr, owner: Ptr, nodes: seq<Node>, gone: multiset<Ptr>)
    requires OnceEach(view) && Children(nodes) + gone == Refs(view, p)
    ensures Drops(view, Put(view, p, owner, nodes), gone)
  {
    hide Children, Put, Refs;
    OneFewer(Refs(view, p), Children(nodes), gone, multiset{});
    forall q, c ensures c in Refs(Put(view, p, owner, nodes), q) <==> (c !in gone && c in Refs(view, q)) {
      PutRefs(view, p, owner, nodes, q);
    }
  }

  lemma PutOwners(view: View, p: Ptr, owner: Ptr, nodes: seq<Node>)
    requires Owns(view, p, owner)
    ensures var now := Put(view, p, owner, nodes);
      Owns(now, p, owner) && forall q :: q in view && q in now ==> view[q].0 == now[q].0
  {
  }

  lemma PutTwoOwners(view: View, p: Ptr, from: Ptr, less: seq<Node>, q: Ptr, into: Ptr, nodes: seq<Node>)
    requires p != q && Owns(view, p, from) && Owns(view, q, into)
    ensures var now := Put(Put(view, q, into, nodes), p, from, less);
      Owns(now, q, into) && forall r :: r in view && r in now ==> view[r].0 == now[r].0
  {
  }

  /** A new directory. */
  lemma MoreRooted(cells: seq<Cell>, i: nat, nodes: seq<Node>, d: Ptr)
    requires Tidy(cells) && Distinct(cells) && i < |cells| && Rooted(Scan(None, cells).view)
    requires Children(nodes) == Children(cells[i].nodes) + multiset{d}
    requires forall j :: 0 <= j < |cells| ==> cells[j].ptr != d
    ensures Rooted(Put(Scan(None, cells).view, cells[i].ptr, OwnerAt(cells, i), nodes))
  {
    hide Scan, Children, Below, Put, Refs, Moves, OnceEach, Distinct, AllReached;
    var view, p, owner := Scan(None, cells).view, cells[i].ptr, OwnerAt(cells, i);
    TidyEdges(cells);
    ViewAt(cells, i);
    NotListed(cells, d);
    MovesNew(view, p, owner, nodes, d);
    PutOwners(view, p, owner, nodes);
    MovesEdges(view, Put(view, p, owner, nodes), d, p, owner, multiset{});
    EmptyChildless(cells, multiset{d});
    OwnerReached(cells, i);
    OwnerIsHead(cells, i);
    if Below(EdgesOf(view), d, owner) {
      ChildlessBelow(EdgesOf(view), d, owner);
    }
    GraftedIff(EdgesOf(view), d, owner, multiset{});
  }

  lemma MovesNew(view: View, p: Ptr, owner: Ptr, nodes: seq<Node>, d: Ptr)
    requires Children(nodes) == Refs(view, p) + multiset{d} && forall e :: e in EdgesOf(view) ==> e.1 != d
    ensures Moves(view, Put(view, p, owner, nodes), d, p, multiset{})
  {
    hide Children, Put, Refs, EdgesOf;
    forall q, c ensures c in Refs(Put(view, p, owner, nodes), q) <==> if c == d then q == p else c in Refs(view, q) {
      PutRefs(view, p, owner, nodes, q);
      if c in Refs(view, q) {
        InEdges(view, q, c);
      }
    }
  }

  lemma NotListed(cells: seq<Cell>, d: Ptr)
    requires Tidy(cells) && forall j :: 0 <= j < |cells| ==> cells[j].ptr != d
    ensures d !in Scan(None, cells).refs && d !in Scan(None, cells).heads
  {
    hide Scan;
    ViewInside(None, cells, d);
    var s := Scan(None, cells);
    assert (s.refs + multiset{ROOT} + multiset{})[d] == s.heads[d];
  }

  /** The entry is a directory, and the other is it or below it. */
  ghost predicate Inside(view: View, n: Node, owner: Ptr) {
    n.child.Some? && Below(EdgesOf(view), n.child.value, owner)
  }

  /** Moving entry k of the pair at i to the pair at j: everything can still be reached
      exactly when it is not moved into itself. */
  lemma MoveRooted(cells: seq<Cell>, i: nat, k: nat, j: nat, nodes: seq<Node>, gone: multiset<Ptr>)
    requires Tidy(cells) && Distinct(cells) && i < |cells| && j < |cells| && i != j && k < |cells[i].nodes|
    requires Rooted(Scan(None, cells).view)
    requires Children(nodes) + gone == Children(cells[j].nodes) + ChildOf(cells[i].nodes[k]) &&
             ChildOf(cells[i].nodes[k]) <= Children(nodes)
    requires forall x :: x in gone ==> EmptyDir(cells, x) && x != cells[j].ptr
    ensures var view := Scan(None, cells).view;
      Rooted(Put(Put(view, cells[j].ptr, OwnerAt(cells, j), nodes), cells[i].ptr, OwnerAt(cells, i),
        Remove(cells[i].nodes, k)))
      <==> !Inside(view, cells[i].nodes[k], OwnerAt(cells, j))
  {
    hide Scan, Children, Below, Put, Refs, Remove, Moves, Drops, OnceEach, Distinct, Tidy, EmptyDir, AllReached;
    var view, n, less := Scan(None, cells).view, cells[i].nodes[k], Remove(cells[i].nodes, k);
    var p, q, from, into := cells[i].ptr, cells[j].ptr, OwnerAt(cells, i), OwnerAt(cells, j);
    var mid := Put(view, q, into, nodes);
    var now := Put(mid, p, from, less);
    TidyOnce(cells);
    MoveParts(cells, i, j);
    ChildrenRemove(cells[i].nodes, k);
    PutTwoOwners(view, p, from, less, q, into, nodes);
    EmptyChildless(cells, gone);
    if n.child.Some? {
      MovesPut(view, p, from, less, q, into, nodes, n.child.value, gone);
      MovesEdges(view, now, n.child.value, q, into, gone);
      GraftInto(cells, i, k, j, gone);
    } else {
      DropsPut(view, p, from, less, q, into, nodes, gone);
      PrunesEdges(view, now, gone);
      PrunedReached(EdgesOf(view), gone);
    }
  }

  lemma MoveParts(cells: seq<Cell>, i: nat, j: nat)
    requires Distinct(cells) && i < |cells| && j < |cells| && i != j
    ensures var view := Scan(None, cells).view;
      cells[i].ptr != cells[j].ptr &&
      Refs(view, cells[i].ptr) == Children(cells[i].nodes) && Refs(view, cells[j].ptr) == Children(cells[j].nodes) &&
      Owns(view, cells[i].ptr, OwnerAt(cells, i)) && Owns(view, cells[j].ptr, OwnerAt(cells, j))
  {
    hide Scan, Children, Refs;
    ViewAt(cells, i);
    ViewAt(cells, j);
  }

  lemma MovesPut(view: View, p: Ptr, from: Ptr, less: seq<Node>, q: Ptr, into: Ptr, nodes: seq<Node>, x: Ptr,
                 gone: multiset<Ptr>)
    requires OnceEach(view) && p != q && Children(less) + multiset{x} == Refs(view, p)
    requires Children(nodes) + gone == Refs(view, q) + multiset{x} && x in Children(nodes)
    ensures Moves(view, Put(Put(view, q, into, nodes), p, from, less), x, q, gone) && x !in gone
  {
    hide Children, Put, Refs;
    var mid := Put(view, q, into, nodes);
    OneFewer(Refs(view, p), Children(less), multiset{x}, multiset{});
    OneFewer(Refs(view, q), Children(nodes), gone, multiset{x});
    forall r, c
      ensures c in Refs(Put(mid, p, from, less), r) <==> if c == x then r == q else c !in gone && c in Refs(view, r)
    {
      PutRefs(view, q, into, nodes, r);
      PutRefs(mid, p, from, less, r);
      assert x in Refs(view, p);
    }
  }

  lemma DropsPut(view: View, p: Ptr, from: Ptr, less: seq<Node>, q: Ptr, into: Ptr, nodes: seq<Node>,
                 gone: multiset<Ptr>)
    requires OnceEach(view) && p != q && Children(less) == Refs(view, p)
    requires Children(nodes) + gone == Refs(view, q)
    ensures Drops(view, Put(Put(view, q, into, nodes), p, from, less), gone)
  {
    hide Children, Put, Refs;
    var mid := Put(view, q, into, nodes);
    OneFewer(Refs(view, q), Children(nodes), gone, multiset{});
    forall r, c ensures c in Refs(Put(mid, p, from, less), r) <==> (c !in gone && c in Refs(view, r)) {
      PutRefs(view, q, into, nodes, r);
      PutRefs(mid, p, from, less, r);
    }
  }

  lemma GraftInto(cells: seq<Cell>, i: nat, k: nat, j: nat, gone: multiset<Ptr>)
    requires Tidy(cells) && Distinct(cells) && i < |cells| && j < |cells| && k < |cells[i].nodes| &&
             cells[i].nodes[k].child.Some?
    requires Rooted(Scan(None, cells).view) && cells[i].nodes[k].child.value !in gone
    requires forall x :: x in gone ==> EmptyDir(cells, x) && x != cells[j].ptr
    ensures var edges, x, into := EdgesOf(Scan(None, cells).view), cells[i].nodes[k].child.value, OwnerAt(cells, j);
      (AllReached(Grafted(edges, x, into, gone)) <==> !Below(edges, x, into)) &&
      (Below(edges, x, into) ==> !Below(Grafted(edges, x, into, gone), ROOT, x))
  {
    hide Scan, Children, Below, Refs;
    var view, x := Scan(None, cells).view, cells[i].nodes[k].child.value;
    ViewAt(cells, i);
    ChildrenRemove(cells[i].nodes, k);
    InEdges(view, cells[i].ptr, x);
    TidyEdges(cells);
    EmptyChildless(cells, gone);
    OwnerReached(cells, j);
    OwnerIsHead(cells, j);
    GraftedIff(EdgesOf(view), x, OwnerAt(cells, j), gone);
  }

  /** No entry of a directory is above it. */
  lemma NotAbove(cells: seq<Cell>, i: nat, k: nat)
    requires Tidy(cells) && Distinct(cells) && i < |cells| && k < |cells[i].nodes|
    requires Rooted(Scan(None, cells).view)
    ensures !Inside(Scan(None, cells).view, cells[i].nodes[k], OwnerAt(cells, i))
  {
    hide Scan, Children, Below, Refs;
    var view, n, owner := Scan(None, cells).view, cells[i].nodes[k], OwnerAt(cells, i);
    if n.child.Some? {
      ViewAt(cells, i);
      ChildrenRemove(cells[i].nodes, k);
      InEdges(view, cells[i].ptr, n.child.value);
      TidyEdges(cells);
      assert Grafted(EdgesOf(view), n.child.value, owner, multiset{}) == EdgesOf(view);
      GraftInto(cells, i, k, i, multiset{});
    }
  }
}
