/** CRC-32 as `lfs_crc` computes it, four bits at a time. */
module Crc {

  /** The polynomial, bit-reversed. */
  const POLY: bv32 := 0xedb8_8320

  const TABLE: seq<bv32> := [
    0x0000_0000, 0x1db7_1064, 0x3b6e_20c8, 0x26d9_30ac,
    0x76dc_4190, 0x6b6b_51f4, 0x4db2_6158, 0x5005_713c,
    0xedb8_8320, 0xf00f_9344, 0xd6d6_a3e8, 0xcb61_b38c,
    0x9b64_c2b0, 0x86d3_d2d4, 0xa00a_e278, 0xbdbd_f21c
  ]

  /** Division by the polynomial, one bit at a time. */
  function Bit(c: bv32): bv32 {
    if Odd(c) then XorW(Half(c), POLY) else Half(c)
  }

  predicate Odd(c: bv32) { c & 1 == 1 }

  function Half(c: bv32): bv32 { c >> 1 }

  function XorW(a: bv32, b: bv32): bv32 { a ^ b }

  function Bits4(c: bv32): bv32 {
    Bit(Bit(Bit(Bit(c))))
  }

  /** The reference: a byte is added to the low end and divided out bit by bit. */
  function AddByte(c: bv32, b: bv8): bv32 {
    Bits4(Bits4(XorW(c, b as bv32)))
  }

  function AddBytes(c: bv32, data: seq<bv8>): bv32 {
    if data == [] then c else AddByte(AddBytes(c, data[..|data| - 1]), data[|data| - 1])
  }

  lemma BitLinear(a: bv32, b: bv32)
    ensures Bit(XorW(a, b)) == XorW(Bit(a), Bit(b))
  {
    hide Odd, Half, XorW;
    OddXor(a, b);
    HalfXor(a, b);
    BothWays(Half(a), Half(b));
    OneWay(Half(a), Half(b));
  }

  lemma OddXor(a: bv32, b: bv32)
    ensures Odd(XorW(a, b)) == (Odd(a) != Odd(b))
  {
  }

  lemma HalfXor(a: bv32, b: bv32)
    ensures Half(XorW(a, b)) == XorW(Half(a), Half(b))
  {
  }

  lemma BothWays(x: bv32, y: bv32)
    ensures XorW(XorW(x, POLY), XorW(y, POLY)) == XorW(x, y)
  {
  }

  lemma OneWay(x: bv32, y: bv32)
    ensures XorW(XorW(x, y), POLY) == XorW(XorW(x, POLY), y) == XorW(x, XorW(y, POLY))
  {
    hide XorW;
    XorSwaps(x, y, POLY);
    XorGroups(x, y, POLY);
  }

  lemma Bits4Linear(a: bv32, b: bv32)
    ensures Bits4(XorW(a, b)) == XorW(Bits4(a), Bits4(b))
  {
    hide Bit, XorW;
    BitLinear(a, b);
    BitLinear(Bit(a), Bit(b));
    BitLinear(Bit(Bit(a)), Bit(Bit(b)));
    BitLinear(Bit(Bit(Bit(a))), Bit(Bit(Bit(b))));
  }

  /** Without its low bits a number is only shifted. */
  lemma Bits4Shifts(c: bv32)
    ensures Bits4(c & 0xffff_fff0) == c >> 4
  {
    assert Bit(c & 0xffff_fff0) == (c >> 1) & 0x7fff_fff8;
    assert Bit((c >> 1) & 0x7fff_fff8) == (c >> 2) & 0x3fff_fffc;
    assert Bit((c >> 2) & 0x3fff_fffc) == (c >> 3) & 0x1fff_fffe;
    assert Bit((c >> 3) & 0x1fff_fffe) == c >> 4;
  }

  lemma SplitLow(c: bv32)
    ensures c == XorW(c & 0xffff_fff0, c & 0xf)
  {
  }

  /** The table holds the remainders of all four-bit numbers. */
  lemma TableHolds(i: bv32)
    requires i < 16
    ensures TABLE[i as int] == Bits4(i)
  {
    if i < 8 { TableLow(i); } else { TableHigh(i); }
  }

  lemma TableLow(i: bv32)
    requires i < 8
    ensures TABLE[i as int] == Bits4(i)
  {
    assert i == 0 || i == 1 || i == 2 || i == 3 || i == 4 || i == 5 || i == 6 || i == 7;
  }

  lemma TableHigh(i: bv32)
    requires 8 <= i < 16
    ensures TABLE[i as int] == Bits4(i)
  {
    assert i == 8 || i == 9 || i == 10 || i == 11 || i == 12 || i == 13 || i == 14 || i == 15;
  }

  function Shift(c: bv32): bv32 { c >> 4 }

  function Remainder(c: bv32): bv32 { TABLE[(c & 0xf) as int] }

  /** One look-up divides out four bits. */
  lemma LookUp(c: bv32)
    ensures XorW(Shift(c), Remainder(c)) == Bits4(c)
  {
    hide Bits4;
    TableHolds(c & 0xf);
    SplitLow(c);
    Bits4Linear(c & 0xffff_fff0, c & 0xf);
    Bits4Shifts(c);
  }

  /** Half a byte: one line of the loop. */
  function AddNibble(c: bv32, n: bv32): bv32 {
    XorW(Shift(c), Remainder(XorW(c, n)))
  }

  lemma FirstHalf(c: bv32, b: bv32)
    ensures XorW(AddNibble(c, b), Shift(b)) == Bits4(XorW(c, b))
  {
    hide Bits4, XorW, Shift, Remainder;
    LookUp(XorW(c, b));
    ShiftXor(c, b);
    XorSwaps(Shift(c), Remainder(XorW(c, b)), Shift(b));
  }

  lemma SecondHalf(c: bv32, b: bv32)
    requires b < 16
    ensures AddNibble(c, b) == Bits4(XorW(c, b))
  {
    hide Bits4, XorW, Shift, Remainder;
    LookUp(XorW(c, b));
    SmallShift(c, b);
  }

  lemma ShiftXor(c: bv32, b: bv32)
    ensures Shift(XorW(c, b)) == XorW(Shift(c), Shift(b))
  {
  }

  lemma XorSwaps(x: bv32, y: bv32, z: bv32)
    ensures XorW(XorW(x, y), z) == XorW(XorW(x, z), y)
  {
    hide XorW;
    XorGroups(x, y, z);
    XorTurns(y, z);
    XorGroups(x, z, y);
  }

  lemma XorGroups(x: bv32, y: bv32, z: bv32)
    ensures XorW(XorW(x, y), z) == XorW(x, XorW(y, z))
  {
  }

  lemma XorTurns(x: bv32, y: bv32)
    ensures XorW(x, y) == XorW(y, x)
  {
  }

  lemma SmallShift(c: bv32, b: bv32)
    requires b < 16
    ensures Shift(XorW(c, b)) == Shift(c)
  {
  }

  lemma ByteFits(b: bv8)
    ensures Shift(b as bv32) < 16
  {
  }

  lemma {:induction false} AddBytesAppend(c: bv32, a: seq<bv8>, b: seq<bv8>)
    ensures AddBytes(c, a + b) == AddBytes(AddBytes(c, a), b)
  {
    hide AddByte;
    if b == [] {
      assert a + b == a;
    } else {
      assert (a + b)[..|a + b| - 1] == a + b[..|b| - 1];
      AddBytesAppend(c, a, b[..|b| - 1]);
    }
  }

  /** `lfs_crc`. */
  method Crc(start: bv32, data: seq<bv8>) returns (crc: bv32)
    ensures crc == AddBytes(start, data)
  {
    hide AddByte, Bits4;
    crc := start;
    for i := 0 to |data|
      invariant crc == AddBytes(start, data[..i])
    {
      assert data[..i + 1][..i] == data[..i];
      crc := NextByte(crc, data[i]);
    }
    assert data[..|data|] == data;
  }

  method NextByte(was: bv32, d: bv8) returns (crc: bv32)
    ensures crc == AddByte(was, d)
  {
    hide Bits4, XorW, AddNibble, Shift;
    var b := d as bv32;
    ByteFits(d);
    FirstHalf(was, b);
    crc := AddNibble(was, b);
    SecondHalf(crc, Shift(b));
    crc := AddNibble(crc, Shift(b));
  }

  // ----- the check -----

  function LowByte(c: bv32): bv8 { (c & 0xff) as bv8 }

  function Shift8(c: bv32): bv32 { c >> 8 }

  function LeBytes(c: bv32): (r: seq<bv8>)
    ensures |r| == 4
  {
    [LowByte(c), LowByte(Shift8(c)), LowByte(Shift8(Shift8(c))), LowByte(Shift8(Shift8(Shift8(c))))]
  }

  lemma Cleared(c: bv32)
    ensures XorW(c, LowByte(c) as bv32) == c & 0xffff_ff00
  {
  }

  lemma ClearShifts(c: bv32)
    requires c & 0xf == 0
    ensures Bits4(c) == Shift(c)
  {
    hide Bits4;
    Bits4Shifts(c);
    assert c & 0xffff_fff0 == c;
  }

  lemma ClearNibbles(c: bv32)
    ensures (c & 0xffff_ff00) & 0xf == 0 && Shift(c & 0xffff_ff00) & 0xf == 0
    ensures Shift(Shift(c & 0xffff_ff00)) == Shift8(c)
  {
  }

  lemma LowByteShifts(c: bv32)
    ensures AddByte(c, LowByte(c)) == Shift8(c)
  {
    hide Bits4, XorW, Shift, Shift8, LowByte;
    Cleared(c);
    ClearNibbles(c);
    ClearShifts(c & 0xffff_ff00);
    ClearShifts(Shift(c & 0xffff_ff00));
  }

  lemma AddOne(c: bv32, data: seq<bv8>, b: bv8)
    ensures AddBytes(c, data + [b]) == AddByte(AddBytes(c, data), b)
  {
    hide AddByte;
    assert (data + [b])[..|data|] == data;
  }

  lemma Gone(c: bv32)
    ensures Shift8(Shift8(Shift8(Shift8(c)))) == 0
  {
  }

  /** A CRC followed by its own bytes comes out as zero: what a commit verifies. */
  lemma CheckIsZero(c: bv32)
    ensures AddBytes(c, LeBytes(c)) == 0
  {
    hide AddByte, LowByte, Shift8;
    var bytes := LeBytes(c);
    AddOne(c, [], bytes[0]);
    AddOne(c, [bytes[0]], bytes[1]);
    AddOne(c, [bytes[0], bytes[1]], bytes[2]);
    AddOne(c, [bytes[0], bytes[1], bytes[2]], bytes[3]);
    assert bytes == [bytes[0], bytes[1], bytes[2]] + [bytes[3]];
    assert [bytes[0], bytes[1], bytes[2]] == [bytes[0], bytes[1]] + [bytes[2]];
    LowByteShifts(c);
    LowByteShifts(Shift8(c));
    LowByteShifts(Shift8(Shift8(c)));
    LowByteShifts(Shift8(Shift8(Shift8(c))));
    Gone(c);
  }
}
