/** The directory operations on entries, and the logs that their commits write: a pair
    whose log says what its entries are goes on doing so. */
module RenameViews {
  import opened Wrappers
  import opened Bytes
  import opened MetaLog
  import opened Gstate
  import opened Traverse
  import opened Compaction
  import opened Renames
  import Chain
  import Fs

  /** What a log can say of the entries. */
  function AttrsOf(nodes: seq<Chain.Node>): (dir: seq<Attrs>)
    ensures |dir| == |nodes| && forall i :: 0 <= i < |nodes| ==> dir[i] == nodes[i].attrs
  {
    seq(|nodes|, i requires 0 <= i < |nodes| => nodes[i].attrs)
  }

  lemma RemoveAttrs(nodes: seq<Chain.Node>, k: nat)
    requires k < |nodes|
    ensures AttrsOf(Remove(nodes, k)) == Remove(AttrsOf(nodes), k)
  {
  }

  lemma OthersAttrs(nodes: seq<Chain.Node>, same: bool, k: nat, newid: nat, replace: bool)
    requires newid <= |nodes| && (same ==> k < |nodes|) && (replace ==> newid < |nodes| && (same ==> newid != k))
    ensures AttrsOf(Fs.Others(nodes, same, k, newid, replace)) == Fs.Others(AttrsOf(nodes), same, k, newid, replace)
  {
    hide Remove, AttrsOf;
    if same {
      RemoveAttrs(nodes, k);
    }
    if replace {
      RemoveAttrs(nodes, newid);
    }
    if same && replace && newid < k {
      RemoveAttrs(Remove(nodes, k), newid);
    } else if same && replace {
      RemoveAttrs(Remove(nodes, newid), k);
    }
  }

  /** Sequences with the same element in the same place and the same others. */
  lemma SameSequence<T>(a: seq<T>, b: seq<T>, at: nat)
    requires at < |a| && at < |b| && a[at] == b[at] && a[..at] + a[at + 1..] == b[..at] + b[at + 1..]
    ensures a == b
  {
    var rest := a[..at] + a[at + 1..];
    assert |rest| == |a| - 1 == |b| - 1;
    assert a[..at] == rest[..at] == b[..at] && a[at + 1..] == rest[at..] == b[at + 1..];
    assert a == a[..at] + [a[at]] + a[at + 1..] && b == b[..at] + [b[at]] + b[at + 1..];
  }

  /** What is seen of the pair after a rename is what the attribute list of the rename
      makes of its log, and so what the log replays to, appended or compacted. */
  lemma RenameIsLogged(cells: seq<Chain.Cell>, now: Chain.View, i: nat, k: nat, j: nat, newid: nat, replace: bool,
                       log: seq<Entry>, source: seq<Entry>, kind: Byte, name: seq<Byte>)
    requires i < |cells| && j < |cells| && k < |cells[i].nodes| && newid <= |cells[j].nodes| && k != DELETED_SIZE
    requires replace ==> newid < |cells[j].nodes| && (i == j ==> newid != k)
    requires Fs.Relocated(cells, now, i, k, j, newid, replace, Value(Name, kind, |name|, name))
    requires WellFormed(log) && AllNamed(Replay(log)) && AttrsOf(cells[j].nodes) == Replay(log)
    requires WellFormed(source) && AttrsOf(cells[i].nodes) == Replay(source) && (i == j ==> source == log)
    requires kind != 0 && |name| != DELETED_SIZE
    ensures var items := OnDisk(log) + RenameItems(source, k, newid, replace, i == j, kind, name);
      GoodList(items) && AttrsOf(Fs.NodesIn(now, cells[j].ptr)) == Meaning(items, |items|)
  {
    hide WellFormed, ReplayTo, Meaning, GoodList, Placed, PlacedWithin, AllNamed, RenameItems, Fs.Others, Fs.ViewOf,
      Fs.Relocated, Fs.SameButName, Fs.NodesIn, AttrsOf, NamedAs;
    PlaceOf(cells, now, i, k, j, newid, replace, Value(Name, kind, |name|, name));
    RenameMeans(log, source, k, newid, replace, i == j, kind, name);
    var dir, n, at := Replay(log), NamedAs(Replay(source)[k], kind, name), Fs.NewPlace(i == j, k, newid);
    var dir' := if i == j then PlacedWithin(dir, k, newid, replace, n) else Placed(dir, newid, replace, n);
    var nodes := Fs.NodesIn(now, cells[j].ptr);
    Fs.PlacedRest(dir, i == j, k, newid, replace, n);
    OthersAttrs(cells[j].nodes, i == j, k, newid, replace);
    AttrsAround(nodes, at);
    SameAttrs(nodes[at], cells[i].nodes[k], kind, name);
    SameSequence(AttrsOf(nodes), dir', at);
  }

  /** The pair that the entry is in then. */
  lemma PlaceOf(cells: seq<Chain.Cell>, now: Chain.View, i: nat, k: nat, j: nat, newid: nat, replace: bool, name: Value)
    requires i < |cells| && j < |cells| && k < |cells[i].nodes| && newid <= |cells[j].nodes|
    requires replace ==> newid < |cells[j].nodes| && (i == j ==> newid != k)
    requires Fs.Relocated(cells, now, i, k, j, newid, replace, name)
    ensures var nodes, at := Fs.NodesIn(now, cells[j].ptr), Fs.NewPlace(i == j, k, newid);
      at < |nodes| && Fs.SameButName(nodes[at], cells[i].nodes[k], name) &&
        nodes[..at] + nodes[at + 1..] == Fs.Others(cells[j].nodes, i == j, k, newid, replace)
  {
    hide Fs.ViewOf, Fs.SameButName, Fs.Others, Fs.NewPlace;
  }

  lemma AttrsAround(nodes: seq<Chain.Node>, at: nat)
    requires at < |nodes|
    ensures AttrsOf(nodes[..at] + nodes[at + 1..]) == AttrsOf(nodes)[..at] + AttrsOf(nodes)[at + 1..]
  {
  }

  /** The entry has the name that the list gives it. */
  lemma SameAttrs(n: Chain.Node, was: Chain.Node, kind: Byte, name: seq<Byte>)
    requires Fs.SameButName(n, was, Value(Name, kind, |name|, name))
    ensures n.attrs == NamedAs(was.attrs, kind, name)
  {
    var renamed := NamedAs(was.attrs, kind, name);
    assert n.attrs.Keys == renamed.Keys;
    assert forall key :: key in n.attrs ==> n.attrs[key] == renamed[key];
  }

  /** The same for the pair that an entry is removed or moved from. */
  lemma RemoveIsLogged(nodes: seq<Chain.Node>, k: nat, log: seq<Entry>)
    requires k < |nodes| && WellFormed(log) && AllNamed(Replay(log)) && AttrsOf(nodes) == Replay(log)
    ensures var items := OnDisk(log) + [DeleteItem(k)];
      GoodList(items) && AttrsOf(Remove(nodes, k)) == Meaning(items, |items|)
  {
    hide WellFormed, ReplayTo, Meaning, GoodList, AllNamed;
    DeleteMeans(log, k);
  }
}
