/** Looking a name up in the bytes of a metadata pair: `lfs_dir_fetchmatch` with the
    match of `lfs_dir_find`, over both blocks. */
module BlockSearch {
  import opened Wrappers
  import opened Bits
  import opened Bytes
  import opened MetaLog
  import opened CommitCodec
  import Search
  import Traverse
  import PairCrash

  /** What the scan of a block meets from a tag on, up to where it stops. */
  function ItemsFrom(block: seq<Byte>, begin: nat, off: nat, ptag: nat): (items: seq<Search.Scanned>)
    requires begin <= off
    decreases if off < |block| then |block| - off else 0
  {
    if off + 4 > |block| then []
    else
      var w := XorNat(BeAt(block, off), ptag);
      var t := OfWord(w);
      var next := off + Traverse.Space(Entry(t, []));
      if w >= TOP || next > |block| then []
      else if IsCrc(t) then
        if off + 8 > |block| then []
        else if CheckOf(block[begin..off + 4]) != block[off + 4..off + 8] then
          [Search.Checksum(Entry(t, block[off + 4..off + 8]), false)]
        else [Search.Checksum(Entry(t, block[off + 4..off + 8]), true)] + ItemsFrom(block, next, next, Carry(t))
      else [Search.Tagged(Entry(t, block[off + 4..next]))] + ItemsFrom(block, begin, next, w)
  }

  lemma {:induction false} ItemsAreScanned(block: seq<Byte>, begin: nat, off: nat, ptag: nat)
    requires begin <= off
    ensures Search.ChecksumsAreCrcs(ItemsFrom(block, begin, off, ptag))
    decreases if off < |block| then |block| - off else 0
  {
    hide XorNat, OfWord, BeAt, CheckOf, Carry;
    if off + 4 <= |block| {
      var w := XorNat(BeAt(block, off), ptag);
      var t := OfWord(w);
      var next := off + Traverse.Space(Entry(t, []));
      if w < TOP && next <= |block| {
        if IsCrc(t) {
          ItemsAreScanned(block, next, next, Carry(t));
        } else {
          ItemsAreScanned(block, begin, next, w);
        }
      }
    }
  }

  /** What was met so far, none of it damaged, and what the scan has made of it. */
  ghost predicate Met(done: seq<Search.Scanned>, pending: seq<Entry>, good: Fetched) {
    Search.TagsTo(done, |done|) == pending && (forall i :: 0 <= i < |done| ==> !Search.Damaged(done[i])) &&
    exists g :: Settles(done, g, good)
  }

  /** The last good commit is the one that a fetch settles for. */
  ghost predicate Settles(items: seq<Search.Scanned>, g: nat, good: Fetched) {
    Search.LastCommit(items, g) && (g == 0 <==> good.off == 0) && (g > 0 ==> Search.TagsTo(items, g) == good.log)
  }

  lemma {:induction false} TagsPrefix(a: seq<Search.Scanned>, b: seq<Search.Scanned>, k: nat)
    requires k <= |a|
    ensures Search.TagsTo(a + b, k) == Search.TagsTo(a, k)
  {
    if k > 0 {
      TagsPrefix(a, b, k - 1);
    }
  }

  lemma CommitsPrefix(done: seq<Search.Scanned>, item: Search.Scanned)
    ensures forall k :: 0 <= k <= |done| ==> (Search.CommitAt(done + [item], k) <==> Search.CommitAt(done, k))
  {
    forall k | 0 <= k <= |done| ensures Search.CommitAt(done + [item], k) <==> Search.CommitAt(done, k) {
      assert forall i :: 0 <= i < k ==> (done + [item])[i] == done[i];
    }
  }

  /** With one more that is not damaged. */
  lemma MetMore(done: seq<Search.Scanned>, pending: seq<Entry>, good: Fetched, item: Search.Scanned, next: nat,
                ptag: nat)
    requires Met(done, pending, good) && !Search.Damaged(item) && next > 0
    ensures var log := pending + [item.entry];
      Met(done + [item], log, if item.Checksum? then Fetched(log, next, ptag) else good)
  {
    var g :| Settles(done, g, good);
    var more, log := done + [item], pending + [item.entry];
    TagsPrefix(done, [item], |done|);
    TagsPrefix(done, [item], g);
    CommitsPrefix(done, item);
    assert more[|done|] == item;
    assert Settles(more, if item.Checksum? then |more| else g,
        if item.Checksum? then Fetched(log, next, ptag) else good);
  }

  lemma MetAll(done: seq<Search.Scanned>, pending: seq<Entry>, good: Fetched)
    requires Met(done, pending, good)
    ensures exists g :: Settles(done, g, good)
  {
  }

  /** A damaged checksum ends no commit. */
  lemma MetDamaged(done: seq<Search.Scanned>, pending: seq<Entry>, good: Fetched, item: Search.Scanned)
    requires Met(done, pending, good) && Search.Damaged(item)
    ensures exists g :: Settles(done + [item], g, good)
  {
    var g :| Settles(done, g, good);
    var more := done + [item];
    TagsPrefix(done, [item], g);
    CommitsPrefix(done, item);
    assert more[|done|] == item;
    assert Settles(more, g, good);
  }

  lemma {:induction false} ItemsFetched(block: seq<Byte>, begin: nat, off: nat, ptag: nat, done: seq<Search.Scanned>,
                                        pending: seq<Entry>, good: Fetched)
    requires begin <= off && Met(done, pending, good)
    ensures exists g ::
            Settles(done + ItemsFrom(block, begin, off, ptag), g, Scan(block, begin, off, ptag, pending, good))
    decreases if off < |block| then |block| - off else 0
  {
    hide XorNat, OfWord, BeAt, CheckOf, Carry, Met, Settles;
    MetAll(done, pending, good);
    assert done + [] == done;
    if off + 4 <= |block| {
      var w := XorNat(BeAt(block, off), ptag);
      var t := OfWord(w);
      var next := off + Traverse.Space(Entry(t, []));
      if w >= TOP || next > |block| || (IsCrc(t) && off + 8 > |block|) {
        assert ItemsFrom(block, begin, off, ptag) == [] && Scan(block, begin, off, ptag, pending, good) == good;
        assert done + ItemsFrom(block, begin, off, ptag) == done;
      } else if IsCrc(t) {
        var e := Entry(t, block[off + 4..off + 8]);
        if CheckOf(block[begin..off + 4]) == e.data {
          var rest := ItemsFrom(block, next, next, Carry(t));
          MetMore(done, pending, good, Search.Checksum(e, true), next, Carry(t));
          ItemsFetched(block, next, next, Carry(t), done + [Search.Checksum(e, true)], pending + [e],
            Fetched(pending + [e], next, Carry(t)));
          Joined(done, Search.Checksum(e, true), rest);
          assert ItemsFrom(block, begin, off, ptag) == [Search.Checksum(e, true)] + rest;
          assert Scan(block, begin, off, ptag, pending, good) ==
            Scan(block, next, next, Carry(t), pending + [e], Fetched(pending + [e], next, Carry(t)));
        } else {
          MetDamaged(done, pending, good, Search.Checksum(e, false));
          assert ItemsFrom(block, begin, off, ptag) == [Search.Checksum(e, false)];
          assert Scan(block, begin, off, ptag, pending, good) == good;
        }
      } else {
        var e, rest := Entry(t, block[off + 4..next]), ItemsFrom(block, begin, next, w);
        MetMore(done, pending, good, Search.Tagged(e), next, w);
        ItemsFetched(block, begin, next, w, done + [Search.Tagged(e)], pending + [e], good);
        Joined(done, Search.Tagged(e), rest);
        assert ItemsFrom(block, begin, off, ptag) == [Search.Tagged(e)] + rest;
        assert Scan(block, begin, off, ptag, pending, good) == Scan(block, begin, next, w, pending + [e], good);
      }
    } else {
      assert ItemsFrom(block, begin, off, ptag) == [] && Scan(block, begin, off, ptag, pending, good) == good;
      assert done + ItemsFrom(block, begin, off, ptag) == done;
    }
  }

  lemma Joined(done: seq<Search.Scanned>, item: Search.Scanned, rest: seq<Search.Scanned>)
    ensures done + [item] + rest == done + ([item] + rest)
  {
  }

  /** What a search of the block is about is the log that a fetch finds. */
  lemma SearchesFetched(block: seq<Byte>, k: nat)
    requires Search.LastCommit(ItemsFrom(block, 0, 4, START), k)
    ensures Settles(ItemsFrom(block, 0, 4, START), k, FetchLog(block))
  {
    hide Scan, ItemsFrom;
    var items := ItemsFrom(block, 0, 4, START);
    assert Settles([], 0, NOTHING);
    ItemsFetched(block, 0, 4, START, [], [], NOTHING);
    assert [] + items == items;
    var g :| Settles(items, g, FetchLog(block));
    SettlesLast(items, g, FetchLog(block));
    LastIsOne(items, g, k);
  }

  lemma SettlesLast(items: seq<Search.Scanned>, g: nat, good: Fetched)
    requires Settles(items, g, good)
    ensures Search.LastCommit(items, g)
  {
  }

  lemma LastIsOne(items: seq<Search.Scanned>, g: nat, k: nat)
    requires Search.LastCommit(items, g) && Search.LastCommit(items, k)
    ensures g == k
  {
    var a, b := Search.CommitAt(items, g), Search.CommitAt(items, k);
  }

  /** A log that can be searched, and whose pending move, if any, is of one of its
      entries. */
  ghost predicate CanSearch(f: Fetched, moved: Option<nat>) {
    f.off > 0 ==> Search.Orderly(f.log) && (moved.Some? ==> moved.value < |Replay(f.log)|)
  }

  /** The name is found in the directory that a fetch finds, or where it belongs. */
  ghost predicate FoundIn(f: Fetched, moved: Option<nat>, name: seq<Byte>, r: Search.FindResult) {
    Search.Finds(Hide(Replay(f.log), moved), |Replay(f.log)|, name, r)
  }

  /** One block: nothing when there is no good commit in it. */
  method FindInBlock(block: seq<Byte>, moved: Option<nat>, name: seq<Byte>) returns (r: Search.FindResult)
    requires CanSearch(FetchLog(block), moved)
    ensures var f := FetchLog(block); if f.off == 0 then r == Search.Corrupt else FoundIn(f, moved, name, r)
  {
    hide Scan, ItemsFrom, Search.Orderly, Search.Finds;
    var items := ItemsFrom(block, 0, 4, START);
    ItemsAreScanned(block, 0, 4, START);
    forall k | Search.LastCommit(items, k) ensures Settles(items, k, FetchLog(block)) {
      SearchesFetched(block, k);
    }
    assert forall k :: Search.LastCommit(items, k) && k == 0 ==> Search.TagsTo(items, k) == [];
    EmptyIsOrderly();
    var off;
    r, off := Search.FetchMatch(items, moved, name);
  }

  lemma EmptyIsOrderly()
    ensures Search.Orderly([])
  {
  }

  /** Both blocks, the one with the newer revision first. */
  method FindInPair(b0: seq<Byte>, b1: seq<Byte>, moved: Option<nat>, name: seq<Byte>) returns (r: Search.FindResult)
    requires |b0| >= 4 && |b1| >= 4 && CanSearch(FetchLog(b0), moved) && CanSearch(FetchLog(b1), moved)
    ensures match PairCrash.Fetched2(b0, b1)
            case Corrupt => r == Search.Corrupt
            case In(_, f) => FoundIn(f, moved, name, r)
  {
    hide Scan, Search.Orderly, ReplayTo, Hide;
    var second := Scmp(PairCrash.RevOf(b1), PairCrash.RevOf(b0)) > 0;
    r := FindInBlock(if second then b1 else b0, moved, name);
    if r == Search.Corrupt {
      r := FindInBlock(if second then b0 else b1, moved, name);
    }
  }
}
