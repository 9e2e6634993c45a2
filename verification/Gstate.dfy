/** Global state: a pending move and the number of orphans, stored as the XOR of
    deltas that are spread over all metadata pairs. */
module Gstate {
  import opened Bits

  /** A metadata pair, by its blocks. */
  datatype Ptr = Ptr(block0: nat, block1: nat)

  /** What is stored of `lfs_gstate_t`, by the fields of its tag: the top bit says
      that there are orphans, type and id tell a move out of the pair. */
  datatype Delta = Delta(bit: bool, kind: nat, id: nat, block0: nat, block1: nat)

  const ZERO := Delta(false, 0, 0, 0, 0)

  /** The state in memory counts orphans, in the size of the tag. */
  datatype GState = GState(delta: Delta, orphans: nat)

  const NO_ID := 0x3ff

  /** The pending move, out of which pair and of which id. */
  datatype Move = NoMove | Moving(pair: Ptr, id: nat)

  /** `lfs_gstate_xor`. */
  function Xor(a: Delta, b: Delta): Delta {
    Delta(a.bit != b.bit, XorNat(a.kind, b.kind), XorNat(a.id, b.id), XorNat(a.block0, b.block0),
      XorNat(a.block1, b.block1))
  }

  /** `lfs_gstate_hasmove`, with where from and of what. */
  function MoveOf(d: Delta): Move {
    if d.kind / 0x100 % 8 != 0 then Moving(Ptr(d.block0, d.block1), d.id) else NoMove
  }

  /** `lfs_fs_preporphans`: the bit follows the count. */
  function PrepOrphans(g: GState, n: int): GState
    requires g.orphans + n >= 0
  {
    GState(g.delta.(bit := g.orphans + n != 0), g.orphans + n)
  }

  /** `lfs_fs_prepmove`; without a move to prepare for, id 0x3ff. */
  function PrepMove(g: GState, move: Move): GState
    requires move.Moving? ==> move.id < NO_ID
  {
    match move
    case NoMove => g.(delta := Delta(g.delta.bit, 0, 0, 0, 0))
    case Moving(pair, id) => g.(delta := Delta(g.delta.bit, 0x4ff, id, pair.block0, pair.block1))
  }

  /** What a mount makes of the sum of all deltas: the bit stands for one orphan. */
  function Mounted(d: Delta): GState {
    GState(d, if d.bit then 1 else 0)
  }

  /** The bit agrees with the count. */
  predicate Agreed(g: GState) {
    g.delta.bit <==> g.orphans != 0
  }

  lemma XorAssociates(a: Delta, b: Delta, c: Delta)
    ensures Xor(Xor(a, b), c) == Xor(a, Xor(b, c))
  {
    hide XorNat;
    AssociatesNat(a.kind, b.kind, c.kind);
    AssociatesNat(a.id, b.id, c.id);
    AssociatesNat(a.block0, b.block0, c.block0);
    AssociatesNat(a.block1, b.block1, c.block1);
  }

  lemma XorCommutes(a: Delta, b: Delta)
    ensures Xor(a, b) == Xor(b, a)
  {
    hide XorNat;
    CommutesNat(a.kind, b.kind);
    CommutesNat(a.id, b.id);
    CommutesNat(a.block0, b.block0);
    CommutesNat(a.block1, b.block1);
  }

  lemma XorCancels(a: Delta)
    ensures Xor(a, a) == ZERO && Xor(a, ZERO) == a
  {
    hide XorNat;
    CancelsNat(a.kind);
    CancelsNat(a.id);
    CancelsNat(a.block0);
    CancelsNat(a.block1);
  }

  lemma PrepMoveMeans(g: GState, move: Move)
    requires move.Moving? ==> move.id < NO_ID
    ensures var r := PrepMove(g, move); MoveOf(r.delta) == move && r.delta.bit == g.delta.bit && r.orphans == g.orphans
    ensures PrepMove(g, move).delta.kind == if move.Moving? then 0x4ff else 0
  {
  }

  lemma PrepOrphansMeans(g: GState, n: int)
    requires g.orphans + n >= 0
    ensures var r := PrepOrphans(g, n); MoveOf(r.delta) == MoveOf(g.delta) && Agreed(r) && r.orphans == g.orphans + n
  {
  }

  /** Replacing one delta in a sum. */
  lemma XorReplaces(rest1: Delta, a: Delta, rest2: Delta, change: Delta)
    ensures Xor(Xor(rest1, Xor(a, change)), rest2) == Xor(Xor(Xor(rest1, a), rest2), change)
  {
    XorAssociates(rest1, a, change);
    XorAssociates(Xor(rest1, a), change, rest2);
    XorCommutes(change, rest2);
    XorAssociates(Xor(rest1, a), rest2, change);
  }
}
