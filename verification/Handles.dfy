/** Open handles during a commit: the last part of `lfs_dir_relocatingcommit` moves
    them along with the entries they refer to. */
module Handles {
  import opened Wrappers
  import opened MetaLog
  import opened Gstate

  /** A metadata pair as it is kept in memory; none is the null pair. */
  datatype Mdir = Mdir(pair: Option<Ptr>, count: nat, split: bool, tail: Option<Ptr>)

  // ----- what a commit does to the entries -----

  /** Entries, known by labels, after the first k tags; new ones are given the mark. */
  function Spliced(labels: seq<int>, tags: seq<Tag>, k: nat, mark: int): (r: seq<int>)
    requires k <= |tags|
  {
    if k == 0 then labels
    else
      var before, t := Spliced(labels, tags, k - 1, mark), tags[k - 1];
      if IsCreate(t) && t.id <= |before| then Insert(before, t.id, mark)
      else if IsDelete(t) && t.id < |before| then Remove(before, t.id)
      else before
  }

  /** How many entries there are after the first k tags. */
  function CountAfter(count: int, tags: seq<Tag>, k: nat): (r: int)
    requires k <= |tags|
  {
    if k == 0 then count
    else CountAfter(count, tags, k - 1) + if IsCreate(tags[k - 1]) then 1 else if IsDelete(tags[k - 1]) then -1 else 0
  }

  /** Entries are created within the directory, and those deleted exist. */
  ghost predicate Fits(count: nat, tags: seq<Tag>) {
    forall k :: 0 <= k < |tags| ==>
      (IsCreate(tags[k]) ==> tags[k].id <= CountAfter(count, tags, k)) &&
        (IsDelete(tags[k]) ==> tags[k].id < CountAfter(count, tags, k))
  }

  /** Where an entry is after the first k tags, and whether it was deleted: the id is
      then counted on. */
  function Follow(id: nat, tags: seq<Tag>, k: nat): (r: (nat, bool))
    requires k <= |tags|
  {
    if k == 0 then (id, false)
    else
      var before, t := Follow(id, tags, k - 1), tags[k - 1];
      if IsDelete(t) && t.id == before.0 then (before.0, true)
      else if IsDelete(t) && t.id < before.0 then (before.0 - 1, before.1)
      else if IsCreate(t) && t.id <= before.0 then (before.0 + 1, before.1)
      else before
  }

  /** Following leads to the same entry, whatever the entries are. */
  lemma {:induction false} FollowsEntry(labels: seq<int>, tags: seq<Tag>, k: nat, mark: int, id: nat)
    requires k <= |tags| && id < |labels| && Fits(|labels|, tags)
    ensures |Spliced(labels, tags, k, mark)| == CountAfter(|labels|, tags, k)
    ensures !Follow(id, tags, k).1 ==>
      var j := Follow(id, tags, k).0;
      j < |Spliced(labels, tags, k, mark)| && Spliced(labels, tags, k, mark)[j] == labels[id]
  {
    if k > 0 {
      FollowsEntry(labels, tags, k - 1, mark, id);
    }
  }

  // ----- the pairs that the directory was split into -----

  /** The pairs along hard tails, as they are on disk. */
  ghost predicate Chained(chain: seq<Mdir>, disk: map<Ptr, Mdir>) {
    chain != [] && !chain[|chain| - 1].split &&
    forall k :: 0 <= k < |chain| - 1 ==> LeadsTo(chain[k], chain[k + 1], disk)
  }

  ghost predicate LeadsTo(m: Mdir, next: Mdir, disk: map<Ptr, Mdir>) {
    m.split && m.tail.Some? && m.tail == next.pair && m.tail.value in disk && disk[m.tail.value] == next
  }

  /** Where id j of the whole directory is along the chain from pair k on. */
  function Locate(chain: seq<Mdir>, k: nat, j: nat): (r: (nat, nat))
    requires k < |chain|
    ensures k <= r.0 < |chain| && (r.0 < |chain| - 1 ==> r.1 < chain[r.0].count)
    decreases |chain| - k
  {
    if k + 1 < |chain| && j >= chain[k].count then Locate(chain, k + 1, j - chain[k].count) else (k, j)
  }

  /** The entries of the pairs from k on, one after the other. */
  function Concat(pieces: seq<seq<int>>, k: nat): (r: seq<int>)
    requires k <= |pieces|
    decreases |pieces| - k
  {
    if k == |pieces| then [] else pieces[k] + Concat(pieces, k + 1)
  }

  lemma {:induction false} LocateFinds(chain: seq<Mdir>, pieces: seq<seq<int>>, k: nat, j: nat)
    requires |chain| == |pieces| && k < |chain| && forall i :: 0 <= i < |chain| ==> |pieces[i]| == chain[i].count
    requires j < |Concat(pieces, k)|
    ensures var r := Locate(chain, k, j); r.1 < |pieces[r.0]| && pieces[r.0][r.1] == Concat(pieces, k)[j]
    decreases |chain| - k
  {
    if k + 1 < |chain| && j >= chain[k].count {
      LocateFinds(chain, pieces, k + 1, j - chain[k].count);
    }
  }

  // ----- the handles -----

  /** An open file or directory. For a directory, `pos` moves with the id. */
  class Handle {
    var m: Mdir
    var id: nat
    var pos: int
    const isDir: bool

    constructor (m: Mdir, id: nat, pos: int, isDir: bool)
      ensures this.m == m && this.id == id && this.pos == pos && this.isDir == isDir
    {
      this.m := m;
      this.id := id;
      this.pos := pos;
      this.isDir := isDir;
    }

    /** Moves the handle with its entry, or to the null pair; for the handle that
        commits, `own`, the caller does this. */
    method FollowTags(dir: Mdir, own: bool, tags: seq<Tag>)
      modifies this
      ensures var j := Counted(old(id), own, tags);
        m == (if j.1 then dir.(pair := None) else dir) && id == j.0
      ensures isDir ==> pos - id == old(pos - id)
      ensures !isDir ==> pos == old(pos)
      ensures own ==> m == dir && id == old(id) && pos == old(pos)
    {
      m := dir;
      if own {
        return;
      }
      for k := 0 to |tags|
        invariant var j := Follow(old(id), tags, k);
          m == (if j.1 then dir.(pair := None) else dir) && id == j.0
        invariant isDir ==> pos - id == old(pos - id)
        invariant !isDir ==> pos == old(pos)
      {
        var t := tags[k];
        if IsDelete(t) && id == t.id {
          m := m.(pair := None);
        } else if IsDelete(t) && id > t.id {
          id := id - 1;
          if isDir {
            pos := pos - 1;
          }
        } else if IsCreate(t) && id >= t.id {
          id := id + 1;
          if isDir {
            pos := pos + 1;
          }
        }
      }
    }

    /** Goes on to the pair along the hard tails that has the id now. */
    method FollowSplit(disk: map<Ptr, Mdir>, ghost chain: seq<Mdir>)
      requires Chained(chain, disk) && m == chain[0].(pair := m.pair)
      modifies this
      ensures var r := Locate(chain, 0, old(id)); m == (if r.0 == 0 then old(m) else chain[r.0]) && id == r.1
      ensures pos == old(pos)
    {
      ghost var k := 0;
      while id >= m.count && m.split
        invariant 0 <= k < |chain| && m == (if k == 0 then old(m) else chain[k])
        invariant Locate(chain, k, id) == Locate(chain, 0, old(id))
        invariant pos == old(pos)
        decreases |chain| - k
      {
        assert k < |chain| - 1;
        assert LeadsTo(chain[k], chain[k + 1], disk);
        id := id - m.count;
        m := disk[m.tail.value];
        k := k + 1;
      }
      assert k < |chain| - 1 ==> LeadsTo(chain[k], chain[k + 1], disk);
    }
  }

  /** Where a handle is after the tags, and whether its entry is gone. */
  function Counted(id: nat, own: bool, tags: seq<Tag>): (r: (nat, bool)) {
    if own then (id, false) else Follow(id, tags, |tags|)
  }

  /** The list of open handles, all different. */
  ghost predicate Listed(handles: seq<Handle>) {
    forall i, j :: 0 <= i < j < |handles| ==> handles[i] != handles[j]
  }

  /** Where a handle in the pair ends up. The position in a directory moves by as
      much as the id did before the pairs were counted off. A handle of a deleted
      entry gets the null pair, unless its id lies behind the first pair now. */
  ghost predicate Fixed(id: nat, pos: int, isDir: bool, m': Mdir, id': nat, pos': int, own: bool, tags: seq<Tag>,
                        chain: seq<Mdir>)
    requires chain != []
  {
    var j := Counted(id, own, tags);
    var r := Locate(chain, 0, j.0);
    m' == (if j.1 && r.0 == 0 then chain[0].(pair := None) else chain[r.0]) && id' == r.1 &&
    pos' == if isDir then pos + j.0 - id else pos
  }

  /** The loop over all handles after a commit to `pair`, which has become `chain`. */
  method FixHandles(handles: seq<Handle>, pair: Ptr, committing: Option<Handle>, tags: seq<Tag>, dir: Mdir,
                    disk: map<Ptr, Mdir>, ghost chain: seq<Mdir>)
    requires Listed(handles) && Chained(chain, disk) && chain[0] == dir
    modifies handles
    ensures forall i :: 0 <= i < |handles| ==> var h := handles[i];
      if old(h.m.pair == Some(pair)) then
        Fixed(old(h.id), old(h.pos), h.isDir, h.m, h.id, h.pos, committing == Some(h), tags, chain)
      else h.m == old(h.m) && h.id == old(h.id) && h.pos == old(h.pos)
    ensures forall i :: 0 <= i < |handles| && committing == Some(handles[i]) && old(handles[i].m.pair) == Some(pair) ==>
      var h := handles[i];
      h.m == chain[Locate(chain, 0, old(h.id)).0] && h.id == Locate(chain, 0, old(h.id)).1 && h.pos == old(h.pos)
  {
    for i := 0 to |handles|
      invariant forall j :: 0 <= j < i ==> var h := handles[j];
        if old(h.m.pair == Some(pair)) then
          Fixed(old(h.id), old(h.pos), h.isDir, h.m, h.id, h.pos, committing == Some(h), tags, chain)
        else h.m == old(h.m) && h.id == old(h.id) && h.pos == old(h.pos)
      invariant forall j :: i <= j < |handles| ==> unchanged(handles[j])
    {
      var h := handles[i];
      if h.m.pair == Some(pair) {
        h.FollowTags(dir, committing == Some(h), tags);
        h.FollowSplit(disk, chain);
      }
    }
  }

  /** A handle that was fixed refers to the entry it referred to before, if that was
      not deleted. */
  lemma FixedIsSame(labels: seq<int>, tags: seq<Tag>, mark: int, pieces: seq<seq<int>>, chain: seq<Mdir>, id: nat,
                    pos: int, isDir: bool, m': Mdir, id': nat, pos': int)
    requires id < |labels| && Fits(|labels|, tags) && !Follow(id, tags, |tags|).1
    requires |chain| == |pieces| && chain != [] && forall i :: 0 <= i < |chain| ==> |pieces[i]| == chain[i].count
    requires Concat(pieces, 0) == Spliced(labels, tags, |tags|, mark)
    requires Fixed(id, pos, isDir, m', id', pos', false, tags, chain)
    ensures exists p :: 0 <= p < |chain| && m' == chain[p] && id' < |pieces[p]| && pieces[p][id'] == labels[id]
  {
    FollowsEntry(labels, tags, |tags|, mark, id);
    var j := Follow(id, tags, |tags|).0;
    LocateFinds(chain, pieces, 0, j);
    var p := Locate(chain, 0, j).0;
    assert m' == chain[p] && pieces[p][id'] == labels[id];
  }

  /** A handle of a deleted entry keeps the null pair exactly when its id is not behind
      the first pair of a directory that was split. */
  lemma DeletedHandle(tags: seq<Tag>, chain: seq<Mdir>, id: nat, pos: int, isDir: bool, m': Mdir, id': nat, pos': int)
    requires Follow(id, tags, |tags|).1 && chain != [] && forall k :: 0 <= k < |chain| ==> chain[k].pair.Some?
    requires Fixed(id, pos, isDir, m', id', pos', false, tags, chain)
    ensures m'.pair == None <==> |chain| == 1 || Follow(id, tags, |tags|).0 < chain[0].count
  {
  }

  /** An entry with a label of its own is there once, or not at all when it was
      deleted. */
  lemma {:induction false} OnlyOnce(labels: seq<int>, tags: seq<Tag>, k: nat, mark: int, id: nat)
    requires k <= |tags| && id < |labels| && Fits(|labels|, tags) && OwnLabel(labels, mark, id)
    ensures var r := Follow(id, tags, k);
      forall i :: 0 <= i < |Spliced(labels, tags, k, mark)| && Spliced(labels, tags, k, mark)[i] == labels[id] ==>
        !r.1 && i == r.0
  {
    if k > 0 {
      OnlyOnce(labels, tags, k - 1, mark, id);
      FollowsEntry(labels, tags, k - 1, mark, id);
    }
  }

  ghost predicate OwnLabel(labels: seq<int>, mark: int, id: nat)
    requires id < |labels|
  {
    mark != labels[id] && forall i :: 0 <= i < |labels| && labels[i] == labels[id] ==> i == id
  }

  /** A handle of a deleted entry refers, behind the first pair, to whatever entry has
      come to the id that was counted on, and never to its own. */
  lemma DeletedRefers(labels: seq<int>, tags: seq<Tag>, mark: int, pieces: seq<seq<int>>, chain: seq<Mdir>, id: nat,
                      pos: int, isDir: bool, m': Mdir, id': nat, pos': int)
    requires id < |labels| && Fits(|labels|, tags) && Follow(id, tags, |tags|).1
    requires |chain| == |pieces| > 1 && forall i :: 0 <= i < |chain| ==> |pieces[i]| == chain[i].count
    requires Concat(pieces, 0) == Spliced(labels, tags, |tags|, mark)
    requires chain[0].count <= Follow(id, tags, |tags|).0 < |Spliced(labels, tags, |tags|, mark)|
    requires Fixed(id, pos, isDir, m', id', pos', false, tags, chain)
    ensures exists p :: 0 < p < |chain| && m' == chain[p] && id' < |pieces[p]| &&
              pieces[p][id'] == Spliced(labels, tags, |tags|, mark)[Follow(id, tags, |tags|).0] &&
              (OwnLabel(labels, mark, id) ==> pieces[p][id'] != labels[id])
  {
    var j := Follow(id, tags, |tags|).0;
    LocateFinds(chain, pieces, 0, j);
    var p := Locate(chain, 0, j).0;
    if OwnLabel(labels, mark, id) {
      OnlyOnce(labels, tags, |tags|, mark, id);
    }
    assert m' == chain[p] && pieces[p][id'] == Spliced(labels, tags, |tags|, mark)[j];
  }

  /** Four entries, of which the third is open and replaced by a rename; the commit
      splits them in two. The handle then refers to the fourth, and not to the null
      pair, which is all that a sync looks at. */
  lemma ReplacedHandle(a: Ptr, b: Ptr)
    ensures var tags := [Tag(Splice, DELETE, 2, 0), Tag(Splice, CREATE, 2, 0)];
      var chain := [Mdir(Some(a), 2, true, Some(b)), Mdir(Some(b), 2, false, None)];
      Fits(4, tags) && Follow(2, tags, 2) == (3, true) && Spliced([10, 11, 12, 13], tags, 2, 99) == [10, 11, 99, 13] &&
      Fixed(2, 0, false, chain[1], 1, 0, false, tags, chain) &&
      Concat([[10, 11], [99, 13]], 0) == [10, 11, 99, 13] && chain[1].pair != None
  {
    var tags := [Tag(Splice, DELETE, 2, 0), Tag(Splice, CREATE, 2, 0)];
    var labels := [10, 11, 12, 13];
    assert Spliced(labels, tags, 0, 99) == labels && Spliced(labels, tags, 1, 99) == [10, 11, 13];
    assert Follow(2, tags, 0) == (2, false) && Follow(2, tags, 1) == (2, true);
    assert CountAfter(4, tags, 0) == 4 && CountAfter(4, tags, 1) == 3;
    var pieces := [[10, 11], [99, 13]];
    assert Concat(pieces, 2) == [] && Concat(pieces, 1) == [99, 13];
  }
}
