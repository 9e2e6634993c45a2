/** Bytes and little-endian 32-bit words. */
module Bytes {
  import opened Bits

  type Byte = b: int | 0 <= b < 256

  function ToLe32(w: nat): (s: seq<Byte>)
    requires w < WORD
    ensures |s| == 4
  {
    [w % 256, w / 0x100 % 256, w / 0x1_0000 % 256, w / 0x100_0000]
  }

  /** The word stored at an offset. */
  function WordAt(s: seq<Byte>, off: nat): (w: nat)
    requires off + 4 <= |s|
    ensures w < WORD
  {
    var b0: int, b1: int, b2: int, b3: int := s[off], s[off + 1], s[off + 2], s[off + 3];
    b0 + 0x100 * b1 + 0x1_0000 * b2 + 0x100_0000 * b3
  }

  /** Writing `data` over the bytes from `off` on. */
  function Patch(s: seq<Byte>, off: nat, data: seq<Byte>): (r: seq<Byte>)
    requires off + |data| <= |s|
    ensures |r| == |s|
  {
    s[..off] + data + s[off + |data|..]
  }

  lemma WordRoundTrip(s: seq<Byte>, off: nat, w: nat)
    requires w < WORD && off + 4 <= |s|
    ensures WordAt(Patch(s, off, ToLe32(w)), off) == w
  {
    Digits(w);
    hide ToLe32;
    var bytes := ToLe32(w);
    assert forall i :: 0 <= i < 4 ==> Patch(s, off, bytes)[off + i] == bytes[i];
  }

  lemma Digits(w: nat)
    requires w < WORD
    ensures WordAt(ToLe32(w), 0) == w
  {
    var a, b := w / 0x100, w / 0x1_0000;
    assert w == w % 0x100 + 0x100 * a;
    assert a == a % 0x100 + 0x100 * b;
    assert b == b % 0x100 + 0x100 * (w / 0x100_0000);
  }

  lemma PatchKeepsOtherWords(s: seq<Byte>, off: nat, data: seq<Byte>, other: nat)
    requires off + |data| <= |s| && other + 4 <= |s|
    requires other + 4 <= off || off + |data| <= other
    ensures WordAt(Patch(s, off, data), other) == WordAt(s, other)
  {
  }

  function ToBe32(w: nat): (s: seq<Byte>)
    requires w < WORD
    ensures |s| == 4
  {
    [w / 0x100_0000, w / 0x1_0000 % 256, w / 0x100 % 256, w % 256]
  }

  /** The big-endian word stored at an offset. */
  function BeAt(s: seq<Byte>, off: nat): (w: nat)
    requires off + 4 <= |s|
    ensures w < WORD
  {
    var b0: int, b1: int, b2: int, b3: int := s[off], s[off + 1], s[off + 2], s[off + 3];
    b0 * 0x100_0000 + b1 * 0x1_0000 + b2 * 0x100 + b3
  }

  lemma BeRoundTrip(w: nat)
    requires w < WORD
    ensures BeAt(ToBe32(w), 0) == w
  {
    var a, b := w / 0x100, w / 0x1_0000;
    assert w == w % 0x100 + 0x100 * a;
    assert a == a % 0x100 + 0x100 * b;
    assert b == b % 0x100 + 0x100 * (w / 0x100_0000);
  }

  lemma SliceOfSlice(s: seq<Byte>, at: nat, size: nat, off: nat, n: nat)
    requires at + size <= |s| && off + n <= size
    ensures s[at..at + size][off..off + n] == s[at + off..at + off + n]
  {
    var a, b := s[at..at + size][off..off + n], s[at + off..at + off + n];
    assert |a| == |b| && forall i :: 0 <= i < n ==> a[i] == b[i];
  }

  // ----- comparing -----

  datatype Order = Less | Equal | Greater

  /** `memcmp`. */
  function MemCmp(a: seq<Byte>, b: seq<Byte>): (r: Order)
    requires |a| == |b|
  {
    if a == [] then Equal
    else if a[0] < b[0] then Less
    else if b[0] < a[0] then Greater
    else MemCmp(a[1..], b[1..])
  }

  lemma {:induction false} MemCmpAppend(a: seq<Byte>, b: seq<Byte>, c: seq<Byte>, d: seq<Byte>)
    requires |a| == |b| && |c| == |d|
    ensures MemCmp(a + c, b + d) == if MemCmp(a, b) != Equal then MemCmp(a, b) else MemCmp(c, d)
  {
    if a == [] {
      assert a + c == c && b + d == d;
    } else {
      assert (a + c)[1..] == a[1..] + c && (b + d)[1..] == b[1..] + d;
      MemCmpAppend(a[1..], b[1..], c, d);
    }
  }

  lemma MemCmpEqual(a: seq<Byte>, b: seq<Byte>)
    requires |a| == |b|
    ensures MemCmp(a, b) == Equal <==> a == b
  {
    if a != [] {
      MemCmpEqual(a[1..], b[1..]);
      assert a == [a[0]] + a[1..] && b == [b[0]] + b[1..];
    }
  }
}
