/** The block allocator: a window of lookahead bits that moves around the device,
    and a count of how many blocks may still be looked at before the next ack. */
module Alloc {
  import opened Bits

  /** The window starts at block `off` and has `size` bits, of which `i` have been
      looked at; `ack` blocks remain. */
  datatype Free = Free(off: nat, size: nat, i: nat, ack: nat)

  /** What an allocator is judged by: the blocks in use; those handed out and those
      passed over since the last ack; and those in use at any time since the
      window was last dropped. */
  datatype History = History(used: set<nat>, handed: set<nat>, passed: set<nat>, ever: set<nat>)

  /** x modulo the number of blocks, for numbers below twice that. */
  function Wrap(x: nat, count: nat): (r: nat)
    requires count > 0
  {
    if x < count then x else x - count
  }

  lemma WrapIsMod(x: nat, count: nat)
    requires count > 0 && x < 2 * count
    ensures Wrap(x, count) == x % count
  {
  }

  /** The block k places from the next one to look at. */
  function Ahead(f: Free, count: nat, k: nat): (r: nat)
    requires count > 0
  {
    Wrap(Wrap(f.off + f.i, count) + k, count)
  }

  ghost predicate Shape(count: nat, bits: nat, f: Free) {
    0 < count && f.off < count && f.i <= f.size <= bits && f.size <= count && f.size - f.i <= f.ack <= count
  }

  /** A clear bit still to be looked at is a free block, a set one was in use. */
  ghost predicate Honest(count: nat, f: Free, buf: seq<bool>, h: History)
    requires Shape(count, |buf|, f)
  {
    forall k :: f.i <= k < f.size ==>
      (if buf[k] then Wrap(f.off + k, count) in h.ever else Wrap(f.off + k, count) !in h.used)
  }

  /** The blocks not looked at since the last ack are those ahead, one for every
      count of `ack`. */
  ghost predicate Accounted(count: nat, f: Free, h: History)
    requires count > 0
  {
    (forall k :: 0 <= k < f.ack ==> Ahead(f, count, k) !in h.handed && Ahead(f, count, k) !in h.passed) &&
    h.handed !! h.passed && (forall b :: b in h.handed || b in h.passed ==> b < count) &&
    |h.handed| + |h.passed| + f.ack == count && h.used <= h.ever && h.passed <= h.ever
  }

  ghost predicate Inv(count: nat, f: Free, buf: seq<bool>, h: History) {
    Shape(count, |buf|, f) && Honest(count, f, buf, h) && Accounted(count, f, h)
  }

  // ----- steps -----

  function Looked(f: Free): Free
    requires f.ack > 0
  {
    f.(i := f.i + 1, ack := f.ack - 1)
  }

  /** The history after looking at block b. */
  function Counted(h: History, b: nat, taken: bool): History {
    if taken then h.(passed := h.passed + {b}) else h.(handed := h.handed + {b})
  }

  /** Looking at the next bit. */
  lemma LookAt(count: nat, f: Free, buf: seq<bool>, h: History)
    requires Inv(count, f, buf, h) && f.i < f.size
    ensures var b := Wrap(f.off + f.i, count);
      b < count && b !in h.handed && b !in h.passed && (!buf[f.i] ==> b !in h.used) &&
      Inv(count, Looked(f), buf, Counted(h, b, buf[f.i]))
  {
    hide Accounted;
    LookAccounted(count, f, buf, h);
  }

  lemma LookAccounted(count: nat, f: Free, buf: seq<bool>, h: History)
    requires Shape(count, |buf|, f) && f.i < f.size && Accounted(count, f, h)
    requires buf[f.i] ==> Wrap(f.off + f.i, count) in h.ever
    ensures var b := Wrap(f.off + f.i, count);
      b !in h.handed && b !in h.passed && Accounted(count, Looked(f), Counted(h, b, buf[f.i]))
  {
    var b := Wrap(f.off + f.i, count);
    var next := Looked(f);
    assert Ahead(f, count, 0) == b;
    forall k | 0 <= k < next.ack ensures Ahead(next, count, k) == Ahead(f, count, k + 1) != b {
    }
  }

  /** A window that has been looked at moves on. */
  function Moved(count: nat, lookahead: nat, f: Free): Free
    requires count > 0
  {
    Free(Wrap(f.off + f.size, count), Min(lookahead, f.ack), 0, f.ack)
  }

  lemma MoveOn(count: nat, f: Free, buf: seq<bool>, h: History, buf': seq<bool>)
    requires Inv(count, f, buf, h) && f.i == f.size && |buf'| == |buf|
    requires forall k :: 0 <= k < Moved(count, |buf|, f).size ==>
      (buf'[k] <==> Wrap(Moved(count, |buf|, f).off + k, count) in h.used)
    ensures Inv(count, Moved(count, |buf|, f), buf', h)
  {
    var next := Moved(count, |buf|, f);
    forall k | 0 <= k < next.ack ensures Ahead(next, count, k) == Ahead(f, count, k) {
    }
  }

  /** Blocks that were handed out can be linked: none of them is ahead. */
  lemma LinkHanded(count: nat, f: Free, buf: seq<bool>, h: History, b: nat)
    requires Inv(count, f, buf, h) && b in h.handed
    ensures Inv(count, f, buf, h.(used := h.used + {b}, ever := h.ever + {b}))
  {
    var h' := h.(used := h.used + {b}, ever := h.ever + {b});
    forall k | f.i <= k < f.size
      ensures if buf[k] then Wrap(f.off + k, count) in h'.ever else Wrap(f.off + k, count) !in h'.used
    {
      assert Wrap(f.off + k, count) == Ahead(f, count, k - f.i);
    }
  }

  /** Once `ack` is used up, every block has been looked at, exactly once. */
  lemma AllLookedAt(count: nat, f: Free, buf: seq<bool>, h: History)
    requires Inv(count, f, buf, h) && f.ack == 0
    ensures forall b: nat :: b < count ==> (b in h.handed) != (b in h.passed)
    ensures forall b: nat :: b < count ==> b in h.handed || b in h.ever
  {
    var all := Blocks(count);
    assert |h.handed + h.passed| == count;
    SubsetOfSameSize(h.handed + h.passed, all);
  }

  function Blocks(count: nat): (r: set<nat>)
    ensures |r| == count && forall b: nat :: b in r <==> b < count
  {
    if count == 0 then {} else Blocks(count - 1) + {count - 1}
  }

  lemma SubsetOfSameSize(a: set<nat>, b: set<nat>)
    requires a <= b && |a| >= |b|
    ensures a == b
  {
    assert b == a + (b - a);
  }

  /** How many blocks so many full windows have. */
  function Windows(k: nat, bits: nat): nat {
    k * bits
  }

  lemma NoScans(bits: nat)
    ensures Windows(0, bits) == 0
  {
  }

  lemma OneMoreScan(k: nat, bits: nat)
    ensures Windows(k + 1, bits) == Windows(k, bits) + bits
  {
  }

  datatype Result = Block(block: nat) | NoSpace | Failed

  class Allocator {
    const count: nat
    const buffer: array<bool>
    var free: Free
    ghost var h: History

    ghost predicate Valid()
      reads this, buffer
    {
      buffer.Length > 0 && Inv(count, free, buffer[..], h)
    }

    /** `lfs_alloc_drop`, with which every mount starts; `off` is the seed's. */
    constructor (count: nat, lookahead: nat, off: nat, ghost used: set<nat>)
      requires 0 < lookahead && off < count
      ensures Valid() && fresh(buffer) && h == History(used, {}, {}, used)
    {
      this.count := count;
      buffer := new bool[lookahead];
      free := Free(off, 0, 0, count);
      h := History(used, {}, {}, used);
    }

    /** `lfs_alloc_ack`: what was handed out has been committed, or given up. */
    method Ack()
      requires Valid()
      modifies this
      ensures Valid() && h == old(h).(handed := {}, passed := {})
    {
      free := free.(ack := count);
      h := h.(handed := {}, passed := {});
    }

    /** `lfs_alloc_drop`. */
    method Drop()
      requires 0 < buffer.Length && free.off < count
      modifies this
      ensures Valid() && h == History(old(h).used, {}, {}, old(h).used)
    {
      free := free.(size := 0, i := 0, ack := count);
      h := History(h.used, {}, {}, h.used);
    }

    /** The rest of the file system starts to use a block it was given... */
    ghost method Link(b: nat)
      requires Valid() && b in h.handed
      modifies this`h
      ensures Valid() && h == old(h).(used := old(h).used + {b}, ever := old(h).ever + {b})
    {
      h := h.(used := h.used + {b}, ever := h.ever + {b});
      LinkHanded(count, free, buffer[..], old(h), b);
    }

    /** ...or stops using one. */
    ghost method Unlink(b: nat)
      requires Valid()
      modifies this`h
      ensures Valid() && h == old(h).(used := old(h).used - {b})
    {
      h := h.(used := h.used - {b});
    }

    /** `lfs_alloc_lookahead`: marks a block that is in use. */
    method Lookahead(block: nat)
      requires Shape(count, buffer.Length, free) && block < count
      modifies buffer
      ensures forall k :: 0 <= k < free.size ==> (buffer[k] <==> old(buffer[k]) || Wrap(free.off + k, count) == block)
    {
      WrapIsMod(block + count - free.off, count);
      var off := (block + count - free.off) % count;
      if off < free.size {
        buffer[off] := true;
      }
    }

    /** The scan for blocks in use that `lfs_fs_rawtraverse` reports, in whatever
        order and however often. */
    method Scan(tree: seq<nat>)
      requires Shape(count, buffer.Length, free) && forall j :: 0 <= j < |tree| ==> tree[j] < count
      modifies buffer
      ensures forall k :: 0 <= k < free.size ==> (buffer[k] <==> Wrap(free.off + k, count) in tree)
    {
      for k := 0 to buffer.Length
        invariant forall j :: 0 <= j < k ==> !buffer[j]
      {
        buffer[k] := false;
      }
      for j := 0 to |tree|
        invariant forall k :: 0 <= k < free.size ==> (buffer[k] <==> Wrap(free.off + k, count) in tree[..j])
      {
        Lookahead(tree[j]);
        assert tree[..j + 1] == tree[..j] + [tree[j]];
      }
      assert tree[..|tree|] == tree;
    }

    /** Looks at one bit. */
    method Look() returns (isFree: bool, block: nat)
      requires Valid() && free.i < free.size
      modifies this
      ensures Valid() && block < count && free == Looked(old(free))
      ensures block !in old(h).handed && block !in old(h).passed
      ensures isFree == !buffer[old(free.i)] && (isFree ==> block !in h.used)
      ensures h == Counted(old(h), block, !isFree)
    {
      hide Honest, Accounted;
      LookAt(count, free, buffer[..], h);
      WrapIsMod(free.off + free.i, count);
      isFree, block := !buffer[free.i], (free.off + free.i) % count;
      free := Looked(free);
      h := Counted(h, block, !isFree);
    }

    /** Looks for a free block in the rest of the window. */
    method FindFree() returns (found: bool, block: nat)
      requires Valid()
      modifies this
      ensures Valid() && old(h).passed <= h.passed
      ensures if found then
          block < count && block !in h.used && block !in old(h).handed &&
          h == old(h).(passed := h.passed, handed := old(h).handed + {block})
        else h == old(h).(passed := h.passed) && free.i == free.size
      ensures !found ==> free.ack == old(free.ack) - old(free.size - free.i) && old(free.i <= free.size)
    {
      hide Honest, Accounted;
      while free.i != free.size
        invariant Valid() && h == old(h).(passed := h.passed) && old(h).passed <= h.passed
        invariant free.ack + free.i == old(free.ack + free.i) && free.i >= old(free.i) && free.size == old(free.size)
        decreases free.size - free.i
      {
        found, block := Look();
        if found {
          return;
        }
      }
      found, block := false, 0;
    }

    /** Skips blocks in use, so that an ack does not count them again. */
    method SkipUsed()
      requires Valid()
      modifies this
      ensures Valid() && h == old(h).(passed := h.passed) && old(h).passed <= h.passed
      ensures free.i == free.size || !buffer[free.i]
    {
      hide Honest, Accounted;
      while free.i != free.size && buffer[free.i]
        invariant Valid() && h == old(h).(passed := h.passed) && old(h).passed <= h.passed
        decreases free.size - free.i
      {
        var _, _ := Look();
      }
    }

    /** Moves the window on and scans for the blocks in use. */
    method Refill(tree: seq<nat>, works: bool)
      requires Valid() && h.used == (set b | b in tree) && forall j :: 0 <= j < |tree| ==> tree[j] < count
      requires free.i == free.size
      modifies this, buffer
      ensures Valid() && h == if works then old(h) else History(h.used, {}, {}, h.used)
      ensures h.used == old(h).used
      ensures works && old(free).ack > 0 ==> free.ack == old(free).ack && free.i < free.size
      ensures works ==> free.i == 0 && free.size == Min(buffer.Length, free.ack)
    {
      ghost var was := buffer[..];
      WrapIsMod(free.off + free.size, count);
      free := Free((free.off + free.size) % count, Min(buffer.Length, free.ack), 0, free.ack);
      Scan(tree);
      if works {
        MoveOn(count, old(free), was, h, buffer[..]);
      } else {
        Drop();
      }
    }

    /** `lfs_alloc`. The tree is what a traversal would report; `scans` is how many
        traversals work before one fails. */
    method Alloc(tree: seq<nat>, scans: nat) returns (r: Result)
      requires Valid() && h.used == (set b | b in tree) && forall j :: 0 <= j < |tree| ==> tree[j] < count
      modifies this, buffer
      ensures Valid() && h.used == old(h).used
      ensures match r
        case Block(b) =>
          b < count && b !in h.used && b !in old(h).handed &&
          h.handed == old(h).handed + {b} && old(h).passed <= h.passed && h.ever == old(h).ever &&
          (free.i == free.size || !buffer[free.i])
        case NoSpace =>
          h == old(h).(passed := h.passed) &&
          forall b: nat :: b < count ==> (b in h.handed) != (b in h.passed) && (b in h.handed || b in h.ever)
        case Failed => h == History(h.used, {}, {}, h.used) && Windows(scans, buffer.Length) < old(free.ack)
    {
      hide Honest, Accounted, Windows;
      var left := scans;
      NoScans(buffer.Length);
      while true
        invariant 0 <= left <= scans
        invariant Valid() && h == old(h).(passed := h.passed) && old(h).passed <= h.passed
        invariant free.size - free.i < free.ack ==>
          Windows(scans - left, buffer.Length) + free.ack - (free.size - free.i) <= old(free.ack)
        decreases 2 * free.ack + if free.i == free.size then 1 else 0
      {
        var found, block := FindFree();
        if found {
          SkipUsed();
          return Block(block);
        }
        if free.ack == 0 {
          AllLookedAt(count, free, buffer[..], h);
          return NoSpace;
        }
        Refill(tree, left > 0);
        if left == 0 {
          return Failed;
        }
        OneMoreScan(scans - left, buffer.Length);
        left := left - 1;
      }
    }
  }
}
