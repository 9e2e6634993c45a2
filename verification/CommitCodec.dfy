/** Metadata logs as bytes: tags chained by XOR, commits ended by CRC tags, the scan
    that finds the last good commit and the walk back through the tags. */
module CommitCodec {
  import opened Bits
  import opened Bytes
  import opened MetaLog
  import opened Traverse
  import Crc
  import BlockCache

  const TOP := 0x8000_0000
  const START := 0xffff_ffff

  // ----- tags as words -----

  function KindCode(k: Kind): (c: nat)
    ensures c < 8
  {
    match k
    case Name => 0
    case From => 1
    case Struct => 2
    case UserAttr => 3
    case Splice => 4
    case Crc => 5
    case Tail => 6
    case Globals => 7
  }

  function KindOf(c: nat): Kind
    requires c < 8
  {
    if c == 0 then Name else if c == 1 then From else if c == 2 then Struct else if c == 3 then UserAttr
    else if c == 4 then Splice else if c == 5 then Kind.Crc else if c == 6 then Tail else Globals
  }

  predicate ValidTag(t: Tag) {
    t.id < 0x400 && t.size < 0x400
  }

  /** `LFS_MKTAG`. */
  function ToWord(t: Tag): (w: nat)
    requires ValidTag(t)
    ensures w < TOP
  {
    var chunk: int := t.chunk;
    ((KindCode(t.kind) * 0x100 + chunk) * 0x400 + t.id) * 0x400 + t.size
  }

  /** The fields of a tag; the top bit is not one of them. */
  function OfWord(w: nat): (t: Tag)
    ensures ValidTag(t)
  {
    var upper := w / 0x400;
    var kind := upper / 0x400;
    Tag(KindOf(kind / 0x100 % 8), kind % 0x100, upper % 0x400, w % 0x400)
  }

  lemma FieldsApart(code: nat, chunk: nat, id: nat, size: nat)
    requires chunk < 0x100 && id < 0x400 && size < 0x400
    ensures var kind := code * 0x100 + chunk;
      var upper := kind * 0x400 + id;
      var w := upper * 0x400 + size;
      w / 0x400 == upper && w % 0x400 == size && upper / 0x400 == kind && upper % 0x400 == id &&
      kind / 0x100 == code && kind % 0x100 == chunk
  {
  }

  lemma KindRoundTrip(k: Kind)
    ensures KindOf(KindCode(k)) == k && KindCode(k) % 8 == (KindCode(k) + 8) % 8 == KindCode(k)
  {
  }

  lemma OfFields(code: nat, chunk: nat, id: nat, size: nat)
    requires chunk < 0x100 && id < 0x400 && size < 0x400
    ensures OfWord(((code * 0x100 + chunk) * 0x400 + id) * 0x400 + size) == Tag(KindOf(code % 8), chunk, id, size)
  {
    hide KindOf;
    FieldsApart(code, chunk, id, size);
  }

  lemma TagRoundTrip(t: Tag)
    requires ValidTag(t)
    ensures OfWord(ToWord(t)) == t && OfWord(ToWord(t) + TOP) == t
  {
    hide KindCode, KindOf, OfWord;
    KindRoundTrip(t.kind);
    OfFields(KindCode(t.kind), t.chunk, t.id, t.size);
    OfFields(KindCode(t.kind) + 8, t.chunk, t.id, t.size);
    Raised(KindCode(t.kind), t.chunk, t.id, t.size);
  }

  lemma Raised(code: nat, chunk: nat, id: nat, size: nat)
    ensures ((code * 0x100 + chunk) * 0x400 + id) * 0x400 + size + TOP ==
            (((code + 8) * 0x100 + chunk) * 0x400 + id) * 0x400 + size
  {
  }

  lemma WordOfFields(w: nat)
    requires w < TOP
    ensures ToWord(OfWord(w)) == w
  {
    var upper := w / 0x400;
    var kind := upper / 0x400;
    assert w == upper * 0x400 + w % 0x400 && upper == kind * 0x400 + upper % 0x400;
    assert kind == kind / 0x100 * 0x100 + kind % 0x100 && kind / 0x100 < 8;
  }

  /** The types as the format numbers them. */
  lemma TypeIs(t: Tag)
    requires ValidTag(t)
    ensures ToWord(t) / 0x10_0000 == t.chunk +
      match t.kind
      case Name => 0x000
      case From => 0x100
      case Struct => 0x200
      case UserAttr => 0x300
      case Splice => 0x400
      case Crc => 0x500
      case Tail => 0x600
      case Globals => 0x700
  {
    FieldsApart(KindCode(t.kind), t.chunk, t.id, t.size);
  }

  // ----- checksums -----

  function AsBits(data: seq<Byte>): (r: seq<bv8>)
    ensures |r| == |data|
  {
    seq(|data|, i requires 0 <= i < |data| => data[i] as bv8)
  }

  /** The bytes of the CRC over the data. */
  function CheckOf(data: seq<Byte>): (r: seq<Byte>)
    ensures |r| == 4
  {
    CheckBytes(Crc.AddBytes(0xffff_ffff, AsBits(data)))
  }

  /** The CRC starts with all bits set. */
  lemma CheckOfNothing()
    ensures CheckOf([]) == [0xff, 0xff, 0xff, 0xff]
  {
    assert AsBits([]) == [];
    var crc: bv32 := 0xffff_ffff;
    assert Crc.AddBytes(crc, []) == crc;
    assert Crc.LeBytes(crc) == [0xff, 0xff, 0xff, 0xff];
  }

  function CheckBytes(crc: bv32): (r: seq<Byte>)
    ensures |r| == 4
  {
    var bytes := Crc.LeBytes(crc);
    [bytes[0] as Byte, bytes[1] as Byte, bytes[2] as Byte, bytes[3] as Byte]
  }

  // ----- the layout of a block -----

  predicate IsCrc(t: Tag) {
    t.kind == Kind.Crc
  }

  /** What the next tag is XORed with. An odd CRC tag also flips the top bit. */
  function Carry(t: Tag): (w: nat)
    requires ValidTag(t)
    ensures w < WORD
  {
    ToWord(t) + if IsCrc(t) && t.chunk % 2 == 1 then TOP else 0
  }

  /** How much of what comes with a tag is read back: of a CRC tag the CRC, whatever
      the rest of its space is filled with. */
  function DataSize(t: Tag): (n: nat) {
    if IsCrc(t) then 4 else Space(Entry(t, [])) - 4
  }

  ghost predicate ValidEntry(e: Entry) {
    ValidTag(e.tag) && |e.data| == DataSize(e.tag) && |e.data| + 4 <= Space(e)
  }

  /** A log that fits the format. */
  ghost predicate ValidLog(log: seq<Entry>) {
    forall k :: 0 <= k < |log| ==> ValidEntry(log[k])
  }

  /** Where the tag of entry k is. */
  function OffAt(log: seq<Entry>, k: nat): (off: nat)
    requires k <= |log|
    ensures off >= 4 + 4 * k
  {
    if k == 0 then 4 else OffAt(log, k - 1) + Space(log[k - 1])
  }

  function PtagAt(log: seq<Entry>, k: nat): (w: nat)
    requires k <= |log| && ValidLog(log)
    ensures w < WORD
  {
    if k == 0 then START
    else
      assert ValidEntry(log[k - 1]);
      Carry(log[k - 1].tag)
  }

  /** Where the commit that entry k is part of begins; the first includes the
      revision count. */
  function BeginAt(log: seq<Entry>, k: nat): (off: nat)
    requires k <= |log|
    ensures off <= OffAt(log, k)
  {
    if k == 0 then 0 else if IsCrc(log[k - 1].tag) then OffAt(log, k) else BeginAt(log, k - 1)
  }

  /** An entry is in the block between two offsets, and a CRC fits what it ends. */
  ghost predicate StoredAt(block: seq<Byte>, e: Entry, begin: nat, off: nat, next: nat, ptag: nat) {
    ValidEntry(e) && next == off + Space(e) <= |block| && begin <= off &&
    BeAt(block, off) == XorNat(ToWord(e.tag), ptag) && block[off + 4..off + 4 + |e.data|] == e.data &&
    (IsCrc(e.tag) ==> e.data == CheckOf(block[begin..off + 4]))
  }

  /** Entry k of a log is in the block. */
  ghost predicate StoredEntry(block: seq<Byte>, log: seq<Entry>, k: nat)
    requires k < |log| && ValidLog(log)
  {
    StoredAt(block, log[k], BeginAt(log, k), OffAt(log, k), OffAt(log, k + 1), PtagAt(log, k))
  }

  /** What is stored depends on the bytes up to the end of its data. */
  lemma StoredStays(block: seq<Byte>, block': seq<Byte>, e: Entry, begin: nat, off: nat, next: nat, ptag: nat)
    requires StoredAt(block, e, begin, off, next, ptag) && |block'| == |block|
    requires block'[..off + 4 + |e.data|] == block[..off + 4 + |e.data|]
    ensures StoredAt(block', e, begin, off, next, ptag)
  {
    hide CheckOf, ToWord, XorNat;
    var end := off + 4 + |e.data|;
    assert forall i :: 0 <= i < end ==> block'[i] == block'[..end][i] == block[..end][i] == block[i];
    assert block'[off + 4..end] == block[off + 4..end];
    assert block'[begin..off + 4] == block[begin..off + 4];
  }

  ghost predicate Layout(block: seq<Byte>, log: seq<Entry>) {
    ValidLog(log) && forall k :: 0 <= k < |log| ==> StoredEntry(block, log, k)
  }

  // ----- the scan -----

  /** What a fetch settles for: the log up to the last good commit, where it ends,
      and what the tag after it is XORed with. Nothing was found when it ends at 0. */
  datatype Fetched = Fetched(log: seq<Entry>, off: nat, ptag: nat)

  const NOTHING := Fetched([], 0, START)

  /** `lfs_dir_fetchmatch` in one block from a tag on. */
  function Scan(block: seq<Byte>, begin: nat, off: nat, ptag: nat, pending: seq<Entry>, good: Fetched): (r: Fetched)
    requires begin <= off
    decreases if off < |block| then |block| - off else 0
  {
    if off + 4 > |block| then good
    else
      var w := XorNat(BeAt(block, off), ptag);
      var e := Entry(OfWord(w), []);
      var next := off + Space(e);
      if w >= TOP || next > |block| then good
      else if IsCrc(e.tag) then
        if off + 8 > |block| || CheckOf(block[begin..off + 4]) != block[off + 4..off + 8] then good
        else
          var log := pending + [Entry(e.tag, block[off + 4..off + 8])];
          Scan(block, next, next, Carry(e.tag), log, Fetched(log, next, Carry(e.tag)))
      else Scan(block, begin, next, w, pending + [Entry(e.tag, block[off + 4..next])], good)
  }

  function FetchLog(block: seq<Byte>): Fetched {
    Scan(block, 0, 4, START, [], NOTHING)
  }

  /** The last good commit within the first k entries. */
  function GoodAt(log: seq<Entry>, k: nat): Fetched
    requires k <= |log| && ValidLog(log)
  {
    if k == 0 then NOTHING
    else if IsCrc(log[k - 1].tag) then Fetched(log[..k], OffAt(log, k), PtagAt(log, k))
    else GoodAt(log, k - 1)
  }

  lemma XorBack(w: nat, p: nat)
    ensures XorNat(XorNat(w, p), p) == w
  {
    XorNatUndo(w, p);
  }

  /** The scan goes through a stored log entry by entry. */
  lemma ScanEntry(block: seq<Byte>, log: seq<Entry>, k: nat)
    requires ValidLog(log) && k < |log| && StoredEntry(block, log, k)
    ensures Scan(block, BeginAt(log, k), OffAt(log, k), PtagAt(log, k), log[..k], GoodAt(log, k))
      == Scan(block, BeginAt(log, k + 1), OffAt(log, k + 1), PtagAt(log, k + 1), log[..k + 1], GoodAt(log, k + 1))
  {
    hide XorNat, ToWord, OfWord, BeAt, CheckOf;
    var off, next, t := OffAt(log, k), OffAt(log, k + 1), log[k].tag;
    XorBack(ToWord(t), PtagAt(log, k));
    TagRoundTrip(t);
    assert log[k] == Entry(t, block[off + 4..off + 4 + DataSize(t)]);
    assert log[..k + 1] == log[..k] + [log[k]];
  }

  lemma {:induction false} ScanThrough(block: seq<Byte>, log: seq<Entry>, k: nat)
    requires Layout(block, log) && k <= |log|
    ensures FetchLog(block) == Scan(block, BeginAt(log, k), OffAt(log, k), PtagAt(log, k), log[..k], GoodAt(log, k))
  {
    hide Scan, StoredEntry;
    if k == 0 {
      assert log[..0] == [];
    } else {
      ScanThrough(block, log, k - 1);
      ScanEntry(block, log, k - 1);
    }
  }

  // ----- logs grow at the end -----

  lemma {:induction false} OffGrows(log: seq<Entry>, j: nat, k: nat)
    requires j <= k <= |log|
    ensures OffAt(log, j) + 4 * (k - j) <= OffAt(log, k)
  {
    if j < k {
      OffGrows(log, j, k - 1);
    }
  }

  lemma {:induction false} OffPrefix(log: seq<Entry>, more: seq<Entry>, k: nat)
    requires k <= |log|
    ensures OffAt(log + more, k) == OffAt(log, k) && BeginAt(log + more, k) == BeginAt(log, k)
  {
    if k > 0 {
      OffPrefix(log, more, k - 1);
    }
  }

  lemma PtagPrefix(log: seq<Entry>, more: seq<Entry>, k: nat)
    requires k <= |log| && ValidLog(log) && ValidLog(log + more)
    ensures PtagAt(log + more, k) == PtagAt(log, k)
  {
  }

  lemma ValidAppend(log: seq<Entry>, more: seq<Entry>)
    requires ValidLog(log) && ValidLog(more)
    ensures ValidLog(log + more)
  {
    hide ValidEntry;
  }

  lemma ValidPrefix(log: seq<Entry>, more: seq<Entry>)
    requires ValidLog(log + more)
    ensures ValidLog(log) && ValidLog(more)
  {
    hide ValidEntry;
    forall k | 0 <= k < |log| ensures ValidEntry(log[k]) {
      assert (log + more)[k] == log[k];
    }
    forall k | 0 <= k < |more| ensures ValidEntry(more[k]) {
      assert (log + more)[|log| + k] == more[k];
    }
  }

  /** Where the data of the last entry ends. */
  function UsedEnd(log: seq<Entry>): (end: nat) {
    if log == [] then 4 else OffAt(log, |log| - 1) + 4 + |log[|log| - 1].data|
  }

  lemma EndsWithin(log: seq<Entry>, k: nat)
    requires ValidLog(log) && k < |log|
    ensures OffAt(log, k) + 4 + |log[k].data| <= OffAt(log, k + 1)
  {
    hide DataSize;
    assert ValidEntry(log[k]);
  }

  lemma UsedWithin(log: seq<Entry>, k: nat)
    requires ValidLog(log) && k < |log|
    ensures OffAt(log, k) + 4 + |log[k].data| <= UsedEnd(log) <= OffAt(log, |log|)
  {
    hide OffAt, ValidLog;
    EndsWithin(log, k);
    EndsWithin(log, |log| - 1);
    if k < |log| - 1 {
      OffGrows(log, k + 1, |log| - 1);
    }
  }

  /** The first entries of a log are laid out, too, in any block that has the same bytes
      as far as they are used. */
  lemma LayoutPrefix(block: seq<Byte>, block': seq<Byte>, log: seq<Entry>, more: seq<Entry>)
    requires Layout(block, log + more) && |block'| == |block|
    requires UsedEnd(log) <= |block| && block'[..UsedEnd(log)] == block[..UsedEnd(log)]
    ensures Layout(block', log)
  {
    hide StoredEntry, ValidLog;
    ValidPrefix(log, more);
    forall k | 0 <= k < |log| ensures StoredEntry(block', log, k) {
      assert StoredEntry(block, log + more, k);
      PrefixStays(block, block', log, more, k);
    }
  }

  lemma PrefixStays(block: seq<Byte>, block': seq<Byte>, log: seq<Entry>, more: seq<Entry>, k: nat)
    requires ValidLog(log) && ValidLog(log + more) && k < |log| && StoredEntry(block, log + more, k)
    requires |block'| == |block| && UsedEnd(log) <= |block| && block'[..UsedEnd(log)] == block[..UsedEnd(log)]
    ensures StoredEntry(block', log, k)
  {
    hide StoredEntry, ValidLog, OffAt, UsedEnd;
    UsedWithin(log, k);
    SameStart(block, block', OffAt(log, k) + 4 + |log[k].data|, UsedEnd(log));
    EntryStays(block, block', log, more, k);
  }

  lemma SameStart(block: seq<Byte>, block': seq<Byte>, next: nat, end: nat)
    requires next <= end <= |block| && end <= |block'| && block'[..end] == block[..end]
    ensures block'[..next] == block[..next]
  {
    assert block'[..next] == block'[..end][..next];
  }

  lemma EntryStays(block: seq<Byte>, block': seq<Byte>, log: seq<Entry>, more: seq<Entry>, k: nat)
    requires ValidLog(log) && ValidLog(log + more) && k < |log| && |block'| == |block|
    requires var end := OffAt(log, k) + 4 + |log[k].data|; end <= |block| && block'[..end] == block[..end]
    ensures StoredEntry(block, log + more, k) ==> StoredEntry(block', log, k)
    ensures StoredEntry(block, log, k) ==> StoredEntry(block', log + more, k)
  {
    hide StoredAt, ValidEntry, OffAt, BeginAt, PtagAt;
    OffPrefix(log, more, k);
    OffPrefix(log, more, k + 1);
    PtagPrefix(log, more, k);
    assert (log + more)[k] == log[k];
    var begin, off, next, ptag := BeginAt(log, k), OffAt(log, k), OffAt(log, k + 1), PtagAt(log, k);
    if StoredAt(block, log[k], begin, off, next, ptag) {
      StoredStays(block, block', log[k], begin, off, next, ptag);
    }
  }

  /** Appending an entry. */
  lemma LayoutAppend(block: seq<Byte>, block': seq<Byte>, log: seq<Entry>, e: Entry)
    requires Layout(block, log) && ValidEntry(e) && |block'| == |block|
    requires UsedEnd(log) <= |block| && block'[..UsedEnd(log)] == block[..UsedEnd(log)]
    requires ValidLog(log + [e]) && StoredEntry(block', log + [e], |log|)
    ensures Layout(block', log + [e])
  {
    hide StoredEntry, ValidEntry, UsedEnd;
    forall k | 0 <= k < |log + [e]| ensures StoredEntry(block', log + [e], k) {
      if k < |log| {
        UsedWithin(log, k);
        SameStart(block, block', OffAt(log, k) + 4 + |log[k].data|, UsedEnd(log));
        EntryStays(block, block', log, [e], k);
      }
    }
  }

  // ----- where a scan stops -----

  /** Behind its last CRC the log is not continued. */
  ghost predicate Sealed(block: seq<Byte>, log: seq<Entry>)
    requires ValidLog(log)
  {
    var n := |log|;
    Scan(block, BeginAt(log, n), OffAt(log, n), PtagAt(log, n), log, GoodAt(log, n)) == GoodAt(log, n)
  }

  predicate EndsCommit(log: seq<Entry>) {
    log != [] && IsCrc(log[|log| - 1].tag)
  }

  /** A fetch finds a log that ends with a commit and is not continued. */
  lemma FetchFinds(block: seq<Byte>, log: seq<Entry>)
    requires Layout(block, log) && EndsCommit(log) && Sealed(block, log)
    ensures FetchLog(block) == Fetched(log, OffAt(log, |log|), PtagAt(log, |log|))
  {
    hide Scan, StoredEntry;
    ScanThrough(block, log, |log|);
    assert log[..|log|] == log;
  }

  /** Entry k of a log was read from the block: the word at its offset is its tag, XORed
      with the one before, and its bytes follow. A CRC tag is that over the commit it
      ends. */
  ghost predicate ReadFrom(block: seq<Byte>, log: seq<Entry>, k: nat)
    requires k < |log|
  {
    var e, off, next := log[k], OffAt(log, k), OffAt(log, k + 1);
    ValidTag(e.tag) && (k > 0 ==> ValidTag(log[k - 1].tag)) && off + 4 <= next <= |block| &&
    BeAt(block, off) == XorNat(ToWord(e.tag), if k == 0 then START else Carry(log[k - 1].tag)) &&
    if IsCrc(e.tag) then
      off + 8 <= |block| && e.data == block[off + 4..off + 8] == CheckOf(block[BeginAt(log, k)..off + 4])
    else e.data == block[off + 4..next]
  }

  /** What a fetch settles for was read, up to a CRC tag. */
  ghost predicate FetchedFrom(block: seq<Byte>, f: Fetched) {
    if f.off == 0 then f.log == []
    else EndsCommit(f.log) && f.off == OffAt(f.log, |f.log|) <= |block| &&
         forall k :: 0 <= k < |f.log| ==> ReadFrom(block, f.log, k)
  }

  /** Whatever the bytes are, a fetch takes no commit whose CRC does not fit. */
  lemma FetchChecks(block: seq<Byte>)
    ensures FetchedFrom(block, FetchLog(block))
    ensures var log := FetchLog(block).log;
      forall k :: 0 <= k < |log| && IsCrc(log[k].tag) ==>
        OffAt(log, k) + 8 <= |block| &&
        block[OffAt(log, k) + 4..OffAt(log, k) + 8] == CheckOf(block[BeginAt(log, k)..OffAt(log, k) + 4])
  {
    hide Scan, CheckOf, ReadFrom, ScanIsAt, OffAt, BeginAt;
    NothingRead(block);
    ScanChecks(block, 0, 4, START, [], NOTHING);
    var log := FetchLog(block).log;
    forall k | 0 <= k < |log| && IsCrc(log[k].tag)
      ensures OffAt(log, k) + 8 <= |block|
      ensures block[OffAt(log, k) + 4..OffAt(log, k) + 8] == CheckOf(block[BeginAt(log, k)..OffAt(log, k) + 4])
    {
      CrcRead(block, log, k);
    }
  }

  lemma NothingRead(block: seq<Byte>)
    ensures ScanIsAt(block, 0, 4, START, []) && FetchedFrom(block, NOTHING)
  {
  }

  lemma CrcRead(block: seq<Byte>, log: seq<Entry>, k: nat)
    requires k < |log| && ReadFrom(block, log, k) && IsCrc(log[k].tag)
    ensures OffAt(log, k) + 8 <= |block|
    ensures block[OffAt(log, k) + 4..OffAt(log, k) + 8] == CheckOf(block[BeginAt(log, k)..OffAt(log, k) + 4])
  {
    hide CheckOf, XorNat, ToWord, BeAt;
  }

  /** Where the scan is that has read so much. */
  ghost predicate ScanIsAt(block: seq<Byte>, begin: nat, off: nat, ptag: nat, pending: seq<Entry>) {
    off == OffAt(pending, |pending|) && begin == BeginAt(pending, |pending|) &&
    (forall k :: 0 <= k < |pending| ==> ReadFrom(block, pending, k)) &&
    (pending != [] ==> ValidTag(pending[|pending| - 1].tag)) &&
    ptag == if pending == [] then START else Carry(pending[|pending| - 1].tag)
  }

  lemma {:induction false} ScanChecks(block: seq<Byte>, begin: nat, off: nat, ptag: nat, pending: seq<Entry>,
                                      good: Fetched)
    requires begin <= off && ScanIsAt(block, begin, off, ptag, pending) && FetchedFrom(block, good)
    ensures FetchedFrom(block, Scan(block, begin, off, ptag, pending, good))
    decreases if off < |block| then |block| - off else 0
  {
    hide XorNat, OfWord, ToWord, CheckOf, BeAt, Carry, ScanIsAt, FetchedFrom;
    if off + 4 <= |block| {
      var w := XorNat(BeAt(block, off), ptag);
      var t := OfWord(w);
      var next := off + Space(Entry(t, []));
      if w < TOP && next <= |block| {
        if IsCrc(t) {
          if off + 8 <= |block| && CheckOf(block[begin..off + 4]) == block[off + 4..off + 8] {
            var e := Entry(t, block[off + 4..off + 8]);
            ScanReads(block, begin, off, ptag, pending, e, w);
            EndsFetched(block, pending + [e], next);
            ScanChecks(block, next, next, Carry(t), pending + [e], Fetched(pending + [e], next, Carry(t)));
          }
        } else {
          var e := Entry(t, block[off + 4..next]);
          ScanReads(block, begin, off, ptag, pending, e, w);
          ScanChecks(block, begin, next, w, pending + [e], good);
        }
      }
    }
  }

  lemma EndsFetched(block: seq<Byte>, log: seq<Entry>, next: nat)
    requires EndsCommit(log) && next == OffAt(log, |log|) <= |block|
    requires forall k :: 0 <= k < |log| ==> ReadFrom(block, log, k)
    ensures forall ptag :: FetchedFrom(block, Fetched(log, next, ptag))
  {
    hide ReadFrom;
  }

  /** One more entry read. */
  lemma ScanReads(block: seq<Byte>, begin: nat, off: nat, ptag: nat, pending: seq<Entry>, e: Entry, w: nat)
    requires ScanIsAt(block, begin, off, ptag, pending) && off + 4 <= |block| &&
             w == XorNat(BeAt(block, off), ptag) < TOP
    requires e.tag == OfWord(w) && off + Space(e) <= |block|
    requires if IsCrc(e.tag) then
               off + 8 <= |block| && begin <= off && e.data == block[off + 4..off + 8] == CheckOf(block[begin..off + 4])
             else e.data == block[off + 4..off + Space(e)]
    ensures var log, next := pending + [e], off + Space(e);
      next == OffAt(log, |log|) && ScanIsAt(block, if IsCrc(e.tag) then next else begin, next, Carry(e.tag), log) &&
      (!IsCrc(e.tag) ==> Carry(e.tag) == w) && forall k :: 0 <= k < |log| ==> ReadFrom(block, log, k)
  {
    hide XorNat, OfWord, ToWord, CheckOf, BeAt, ReadFrom;
    var log := pending + [e];
    WordOfFields(w);
    XorBack(BeAt(block, off), ptag);
    OffPrefix(pending, [e], |pending|);
    forall k | 0 <= k < |log| ensures ReadFrom(block, log, k) {
      if k < |pending| {
        ReadStays(block, pending, e, k);
      } else {
        ReadLast(block, pending, e, ptag, begin, off);
      }
    }
  }

  lemma ReadStays(block: seq<Byte>, log: seq<Entry>, e: Entry, k: nat)
    requires k < |log| && ReadFrom(block, log, k)
    ensures ReadFrom(block, log + [e], k)
  {
    hide XorNat, OfWord, ToWord, CheckOf, BeAt, OffAt, BeginAt;
    OffPrefix(log, [e], k);
    OffPrefix(log, [e], k + 1);
  }

  lemma ReadLast(block: seq<Byte>, log: seq<Entry>, e: Entry, ptag: nat, begin: nat, off: nat)
    requires ScanIsAt(block, begin, off, ptag, log) && ValidTag(e.tag) && off + Space(e) <= |block|
    requires BeAt(block, off) == XorNat(ToWord(e.tag), ptag) && begin <= off
    requires if IsCrc(e.tag) then
               off + 8 <= |block| && e.data == block[off + 4..off + 8] == CheckOf(block[begin..off + 4])
             else e.data == block[off + 4..off + Space(e)]
    ensures ReadFrom(block, log + [e], |log|)
  {
    hide XorNat, OfWord, ToWord, CheckOf, BeAt, ReadFrom;
    OffPrefix(log, [e], |log|);
    ReadEntry(block, log + [e], |log|, ptag, begin, off);
  }

  lemma ReadEntry(block: seq<Byte>, log: seq<Entry>, k: nat, ptag: nat, begin: nat, off: nat)
    requires k < |log| && off == OffAt(log, k) && begin == BeginAt(log, k) && off + Space(log[k]) <= |block|
    requires ValidTag(log[k].tag) && (k > 0 ==> ValidTag(log[k - 1].tag))
    requires ptag == if k == 0 then START else Carry(log[k - 1].tag)
    requires BeAt(block, off) == XorNat(ToWord(log[k].tag), ptag)
    requires if IsCrc(log[k].tag) then
               off + 8 <= |block| && log[k].data == block[off + 4..off + 8] == CheckOf(block[begin..off + 4])
             else log[k].data == block[off + 4..off + Space(log[k])]
    ensures ReadFrom(block, log, k)
  {
    hide XorNat, OfWord, ToWord, CheckOf, BeAt;
  }

  /** Whether the word at an offset, or what stands for one behind the block, has its
      top bit set. */
  predicate TopSet(block: seq<Byte>, off: nat) {
    off + 4 > |block| || BeAt(block, off) >= TOP
  }

  /** The CRC tag is odd exactly when the word behind it has its top bit clear: the
      scan then stops there, whatever that word is. */
  lemma FlippedBit(block: seq<Byte>, log: seq<Entry>)
    requires ValidLog(log) && EndsCommit(log)
    requires (log[|log| - 1].tag.chunk % 2 == 1) == !TopSet(block, OffAt(log, |log|))
    ensures Sealed(block, log)
  {
    hide XorNat, ToWord, Scan, BeAt;
    var n, off := |log|, OffAt(log, |log|);
    var last := log[n - 1];
    assert ValidEntry(last);
    if off + 4 <= |block| {
      Pow2Values();
      assert Pow2(31) == TOP;
      XorTop(BeAt(block, off), Carry(last.tag), 31);
    }
    ScanStops(block, BeginAt(log, n), off, PtagAt(log, n), log, GoodAt(log, n));
  }

  lemma ScanStops(block: seq<Byte>, begin: nat, off: nat, ptag: nat, log: seq<Entry>, good: Fetched)
    requires begin <= off && (off + 4 > |block| || XorNat(BeAt(block, off), ptag) >= TOP)
    ensures Scan(block, begin, off, ptag, log, good) == good
  {
  }

  /** That depends on the bytes behind it alone. */
  lemma SealedStays(block: seq<Byte>, block': seq<Byte>, log: seq<Entry>)
    requires ValidLog(log) && EndsCommit(log) && OffAt(log, |log|) <= |block| == |block'|
    requires block'[OffAt(log, |log|)..] == block[OffAt(log, |log|)..] && Sealed(block, log)
    ensures Sealed(block', log)
  {
    hide Scan;
    var off := OffAt(log, |log|);
    ScanSame(block, block', off, off, off, PtagAt(log, |log|), log, GoodAt(log, |log|));
  }

  lemma {:induction false} ScanSame(block: seq<Byte>, block': seq<Byte>, start: nat, begin: nat, off: nat, ptag: nat,
                                    pending: seq<Entry>, good: Fetched)
    requires start <= begin <= off && start <= |block| == |block'| && block'[start..] == block[start..]
    ensures Scan(block', begin, off, ptag, pending, good) == Scan(block, begin, off, ptag, pending, good)
    decreases if off < |block| then |block| - off else 0
  {
    hide XorNat, OfWord, CheckOf, Carry, BeAt;
    if off + 4 <= |block| {
      SamePart(block, block', start, begin, off + 4);
      SameWord(block, block', start, off);
      var w := XorNat(BeAt(block, off), ptag);
      var e := Entry(OfWord(w), []);
      var next := off + Space(e);
      if w < TOP && next <= |block| {
        if IsCrc(e.tag) {
          if off + 8 <= |block| && CheckOf(block[begin..off + 4]) == block[off + 4..off + 8] {
            SamePart(block, block', start, off + 4, off + 8);
            var log := pending + [Entry(e.tag, block[off + 4..off + 8])];
            ScanSame(block, block', start, next, next, Carry(e.tag), log, Fetched(log, next, Carry(e.tag)));
          } else if off + 8 <= |block| {
            SamePart(block, block', start, off + 4, off + 8);
          }
        } else {
          SamePart(block, block', start, off + 4, next);
          ScanSame(block, block', start, begin, next, w, pending + [Entry(e.tag, block[off + 4..next])], good);
        }
      }
    }
  }

  lemma SamePart(block: seq<Byte>, block': seq<Byte>, start: nat, i: nat, j: nat)
    requires start <= i <= j <= |block| == |block'| && block'[start..] == block[start..]
    ensures block'[i..j] == block[i..j]
  {
    assert block'[i..j] == block'[start..][i - start..j - start];
  }

  lemma SameWord(block: seq<Byte>, block': seq<Byte>, start: nat, off: nat)
    requires start <= off && off + 4 <= |block| == |block'| && block'[start..] == block[start..]
    ensures BeAt(block', off) == BeAt(block, off)
  {
    assert forall i :: start <= i < |block| ==>
      block'[i] == block'[start..][i - start] == block[start..][i - start] == block[i];
  }

  // ----- writing -----

  lemma XorFits(a: nat, b: nat)
    requires a < WORD && b < WORD
    ensures XorNat(a, b) < WORD
  {
    hide XorNat;
    Pow2Values();
    XorTop(a, b, 31);
  }

  lemma PatchedAt(block: seq<Byte>, off: nat, data: seq<Byte>)
    requires off + |data| <= |block|
    ensures Patch(block, off, data)[..off] == block[..off] && Patch(block, off, data)[off..off + |data|] == data
    ensures Patch(block, off, data)[off + |data|..] == block[off + |data|..]
  {
  }

  lemma BeAtPatched(block: seq<Byte>, off: nat, w: nat)
    requires w < WORD && off + 4 <= |block| && block[off..off + 4] == ToBe32(w)
    ensures BeAt(block, off) == w
  {
    hide ToBe32;
    BeRoundTrip(w);
    assert forall i :: 0 <= i < 4 ==> block[off + i] == block[off..off + 4][i] == ToBe32(w)[i];
  }

  /** A tag and its bytes where the log ends. */
  lemma WrittenEntry(block: seq<Byte>, block': seq<Byte>, log: seq<Entry>, e: Entry, word: nat)
    requires Layout(block, log) && ValidEntry(e) && |block'| == |block| && OffAt(log, |log|) + Space(e) <= |block|
    requires block'[..OffAt(log, |log|)] == block[..OffAt(log, |log|)]
    requires word == XorNat(ToWord(e.tag), PtagAt(log, |log|)) < WORD
    requires block'[OffAt(log, |log|)..OffAt(log, |log|) + 4] == ToBe32(word)
    requires block'[OffAt(log, |log|) + 4..OffAt(log, |log|) + 4 + |e.data|] == e.data
    requires IsCrc(e.tag) ==> e.data == CheckOf(block'[BeginAt(log, |log|)..OffAt(log, |log|) + 4])
    ensures Layout(block', log + [e])
  {
    hide StoredEntry, ValidEntry, XorNat, ToWord, CheckOf, ToBe32, UsedEnd, DataSize, OffAt, BeginAt, PtagAt;
    var n, off := |log|, OffAt(log, |log|);
    ValidAppend(log, [e]);
    OffPrefix(log, [e], n);
    PtagPrefix(log, [e], n);
    BeAtPatched(block', off, word);
    WrittenStored(block', log, e, word);
    UsedAtMost(log);
    SameStart(block, block', UsedEnd(log), off);
    LayoutAppend(block, block', log, e);
  }

  lemma UsedAtMost(log: seq<Entry>)
    requires ValidLog(log)
    ensures UsedEnd(log) <= OffAt(log, |log|)
  {
    if log != [] {
      UsedWithin(log, |log| - 1);
    }
  }

  lemma WrittenStored(block: seq<Byte>, log: seq<Entry>, e: Entry, word: nat)
    requires ValidLog(log) && ValidLog(log + [e]) && ValidEntry(e) && OffAt(log, |log|) + Space(e) <= |block|
    requires word == XorNat(ToWord(e.tag), PtagAt(log, |log|)) < WORD
    requires OffAt(log, |log|) + 4 <= |block| && BeAt(block, OffAt(log, |log|)) == word
    requires block[OffAt(log, |log|) + 4..OffAt(log, |log|) + 4 + |e.data|] == e.data
    requires IsCrc(e.tag) ==> e.data == CheckOf(block[BeginAt(log, |log|)..OffAt(log, |log|) + 4])
    ensures StoredEntry(block, log + [e], |log|)
  {
    hide XorNat, ToWord, CheckOf, BeAt, OffAt, BeginAt, PtagAt, ValidLog, Space;
    OffPrefix(log, [e], |log|);
    PtagPrefix(log, [e], |log|);
    OffLast(log, e);
    assert (log + [e])[|log|] == e;
  }

  lemma OffLast(log: seq<Entry>, e: Entry)
    ensures OffAt(log + [e], |log| + 1) == OffAt(log, |log|) + Space(e)
  {
    OffPrefix(log, [e], |log|);
  }

  lemma {:induction false} AsBitsAppend(a: seq<Byte>, b: seq<Byte>)
    ensures AsBits(a + b) == AsBits(a) + AsBits(b)
  {
  }

  lemma AddMore(a: seq<Byte>, b: seq<Byte>)
    ensures Crc.AddBytes(0xffff_ffff, AsBits(a + b)) == Crc.AddBytes(Crc.AddBytes(0xffff_ffff, AsBits(a)), AsBits(b))
  {
    AsBitsAppend(a, b);
    Crc.AddBytesAppend(0xffff_ffff, AsBits(a), AsBits(b));
  }

  /** `struct lfs_commit`. */
  datatype At = At(begin: nat, off: nat, ptag: nat, crc: bv32)

  /** Where a writer is that has written the log. */
  ghost predicate IsAt(block: seq<Byte>, log: seq<Entry>, at: At) {
    Layout(block, log) && at.off == OffAt(log, |log|) <= |block| && at.ptag == PtagAt(log, |log|) &&
    at.begin == BeginAt(log, |log|) && at.crc == Crc.AddBytes(0xffff_ffff, AsBits(block[at.begin..at.off]))
  }

  lemma LayoutValid(block: seq<Byte>, log: seq<Entry>)
    requires Layout(block, log)
    ensures ValidLog(log)
  {
  }

  lemma EndsAt(block: seq<Byte>, log: seq<Entry>, e: Entry)
    requires Layout(block, log + [e])
    ensures ValidLog(log + [e]) && OffAt(log + [e], |log| + 1) == OffAt(log, |log|) + Space(e)
    ensures BeginAt(log + [e], |log| + 1) == if IsCrc(e.tag) then OffAt(log, |log|) + Space(e) else BeginAt(log, |log|)
    ensures ValidTag(e.tag) && PtagAt(log + [e], |log| + 1) == Carry(e.tag)
  {
    hide StoredEntry;
    OffPrefix(log, [e], |log|);
    assert ValidEntry((log + [e])[|log|]);
  }

  /** After an entry that is no CRC. */
  lemma WrittenAttr(block: seq<Byte>, log: seq<Entry>, at: At, e: Entry, word: nat, crc: bv32)
    requires IsAt(block, log, at) && ValidEntry(e) && !IsCrc(e.tag) && at.off + Space(e) <= |block|
    requires word == XorNat(ToWord(e.tag), at.ptag) < WORD
    requires crc == Crc.AddBytes(at.crc, AsBits(ToBe32(word) + e.data))
    ensures IsAt(Patch(block, at.off, ToBe32(word) + e.data), log + [e],
            At(at.begin, at.off + Space(e), ToWord(e.tag), crc))
  {
    hide Layout, ValidLog, OffAt, BeginAt, PtagAt, XorNat, ToWord, CheckOf, ToBe32, AsBits, Patch;
    LayoutValid(block, log);
    var data := ToBe32(word) + e.data;
    var block' := Patch(block, at.off, data);
    PatchedAt(block, at.off, data);
    assert block'[at.off..at.off + 4] == block'[at.off..at.off + |data|][..4];
    assert block'[at.off + 4..at.off + Space(e)] == block'[at.off..at.off + |data|][4..];
    WrittenEntry(block, block', log, e, word);
    EndsAt(block', log, e);
    AddMore(block[at.begin..at.off], data);
    PatchedFrom(block, at.begin, at.off, data);
  }

  lemma PatchedFrom(block: seq<Byte>, begin: nat, off: nat, data: seq<Byte>)
    requires begin <= off && off + |data| <= |block|
    ensures Patch(block, off, data)[begin..off + |data|] == block[begin..off] + data
  {
  }

  lemma NothingYet(block: seq<Byte>, off: nat)
    requires off <= |block|
    ensures Crc.AddBytes(0xffff_ffff, AsBits(block[off..off])) == 0xffff_ffff
  {
  }

  lemma EightBytes(block: seq<Byte>, off: nat, a: seq<Byte>, b: seq<Byte>)
    requires |a| == 4 && |b| == 4 && off + 8 <= |block| && block[off..off + 8] == a + b
    ensures block[off..off + 4] == a && block[off + 4..off + 8] == b
  {
    assert block[off..off + 4] == block[off..off + 8][..4];
    assert block[off + 4..off + 8] == block[off..off + 8][4..];
  }

  /** After a CRC; its space behind the CRC may hold anything. */
  lemma WrittenCrc(block: seq<Byte>, log: seq<Entry>, at: At, tag: Tag, word: nat, check: seq<Byte>)
    requires IsAt(block, log, at) && ValidTag(tag) && IsCrc(tag) && 4 <= tag.size < DELETED_SIZE
    requires at.off + 4 + tag.size <= |block|
    requires word == XorNat(ToWord(tag), at.ptag) < WORD
    requires check == CheckBytes(Crc.AddBytes(at.crc, AsBits(ToBe32(word))))
    ensures var block' := Patch(block, at.off, ToBe32(word) + check);
      var next := at.off + 4 + tag.size;
      IsAt(block', log + [Entry(tag, check)], At(next, next, Carry(tag), 0xffff_ffff))
  {
    hide Layout, ValidLog, OffAt, BeginAt, PtagAt, XorNat, ToWord, CheckBytes, ToBe32, AsBits, Patch;
    LayoutValid(block, log);
    var data, off := ToBe32(word) + check, at.off;
    var block', next := Patch(block, off, data), off + 4 + tag.size;
    var e := Entry(tag, check);
    PatchedAt(block, off, data);
    EightBytes(block', off, ToBe32(word), check);
    AddMore(block[at.begin..off], ToBe32(word));
    assert block'[at.begin..off] == block'[..off][at.begin..] == block[..off][at.begin..] == block[at.begin..off];
    assert block'[at.begin..off + 4] == block[at.begin..off] + ToBe32(word);
    WrittenEntry(block, block', log, e, word);
    EndsAt(block', log, e);
    NothingYet(block', next);
  }

  /** What is written between the end of the data and where the writer is does not
      matter. */
  lemma GapStays(block: seq<Byte>, block': seq<Byte>, log: seq<Entry>, at: At)
    requires IsAt(block, log, at) && |block'| == |block| && UsedEnd(log) <= |block|
    requires block'[..UsedEnd(log)] == block[..UsedEnd(log)] && (UsedEnd(log) < at.off ==> at.begin == at.off)
    ensures IsAt(block', log, at)
  {
    hide StoredEntry, CheckOf;
    assert log + [] == log;
    LayoutPrefix(block, block', log, []);
    if at.begin == at.off {
      NothingYet(block, at.off);
      NothingYet(block', at.off);
    } else {
      assert block'[at.begin..at.off] == block'[..UsedEnd(log)][at.begin..at.off] == block[at.begin..at.off] by {
        if log != [] { UsedWithin(log, |log| - 1); }
      }
    }
  }

  /** How far a CRC tag at `off` pads a commit that ends at `end`: at most 0x3fe
      bytes, leaving room for another tag unless it reaches the end. */
  function PadTo(off: nat, end: nat): (noff: nat)
    requires off + 8 <= end
    ensures off + 8 <= noff <= end && (noff == end || noff + 8 <= end)
    ensures 4 <= noff - (off + 4) <= 0x3fe
    ensures if end - (off + 4) <= 0x3fe then noff == end else noff == Min(off + 4 + 0x3fe, end - 8)
  {
    var noff := Min(end - (off + 4), 0x3fe) + off + 4;
    if noff < end then Min(noff, end - 8) else noff
  }

  /** Where the CRC tags of a commit are. */
  function FootersAt(off: nat, end: nat): (r: seq<nat>)
    requires off == end || off + 8 <= end
    decreases end - off
  {
    if off == end then [] else [off] + FootersAt(PadTo(off, end), end)
  }

  /** Where the entries from the n-th on are. */
  function OffsetsFrom(log: seq<Entry>, n: nat): (r: seq<nat>)
    requires n <= |log|
    decreases |log| - n
  {
    if n == |log| then [] else [OffAt(log, n)] + OffsetsFrom(log, n + 1)
  }

  lemma {:induction false} OffsetsMore(log: seq<Entry>, log': seq<Entry>, n: nat)
    requires n <= |log| && |log'| == |log| + 1 && log'[..|log|] == log
    ensures OffsetsFrom(log', n) == OffsetsFrom(log, n) + [OffAt(log, |log|)]
    decreases |log| - n
  {
    assert log' == log + [log'[|log|]];
    OffPrefix(log, [log'[|log|]], n);
    if n < |log| {
      OffsetsMore(log, log', n + 1);
    }
  }

  /** The CRC over a part of a block. */
  function PartSum(block: seq<Byte>, start: nat, end: nat): (crc: bv32)
    requires start <= end <= |block|
  {
    Crc.AddBytes(0xffff_ffff, AsBits(block[start..end]))
  }

  lemma SumStays(block: seq<Byte>, block': seq<Byte>, start: nat, end: nat, upTo: nat)
    requires start <= end <= upTo <= |block| == |block'| && block'[..upTo] == block[..upTo]
    ensures PartSum(block', start, end) == PartSum(block, start, end)
  {
    assert block'[start..end] == block'[..upTo][start..end] == block[start..end];
  }

  /** What a commit adds up comes out as zero behind each of its CRCs. */
  lemma SumIsZero(block: seq<Byte>, log: seq<Entry>, k: nat)
    requires Layout(block, log) && k < |log| && IsCrc(log[k].tag)
    ensures OffAt(log, k) + 8 <= |block| && PartSum(block, BeginAt(log, k), OffAt(log, k) + 8) == 0
  {
    hide StoredAt, CheckOf, OffAt, BeginAt, PtagAt, AsBits, Crc.AddBytes;
    assert StoredEntry(block, log, k);
    var begin, off := BeginAt(log, k), OffAt(log, k);
    StoredCheck(block, log[k], begin, off, OffAt(log, k + 1), PtagAt(log, k));
    assert block[begin..off + 8] == block[begin..off + 4] + block[off + 4..off + 8];
    ChecksOut(block[begin..off + 4]);
  }

  lemma StoredCheck(block: seq<Byte>, e: Entry, begin: nat, off: nat, next: nat, ptag: nat)
    requires StoredAt(block, e, begin, off, next, ptag) && IsCrc(e.tag)
    ensures begin <= off && off + 8 <= |block| && block[off + 4..off + 8] == CheckOf(block[begin..off + 4])
  {
    hide CheckOf, ToWord, XorNat, BeAt;
  }

  lemma ChecksOut(data: seq<Byte>)
    ensures Crc.AddBytes(0xffff_ffff, AsBits(data + CheckOf(data))) == 0
  {
    hide Crc.AddBytes, Crc.LeBytes;
    var crc := Crc.AddBytes(0xffff_ffff, AsBits(data));
    AddMore(data, CheckBytes(crc));
    assert AsBits(CheckBytes(crc)) == Crc.LeBytes(crc);
    Crc.CheckIsZero(crc);
  }

  /** What `lfs_dir_commitcrc` reads back: from `off` to behind the CRC at `noff`, and so on
      to the end, the sums are zero; and that up to `off1` is the one that was written. */
  predicate Verified(block: seq<Byte>, off: nat, noff: nat, off1: nat, crc1: bv32, end: nat)
    requires off < end ==> 4 <= noff && off <= noff && noff + 4 <= end <= |block|
    decreases end - off
  {
    off >= end ||
    ((off <= off1 < noff + 4 ==> PartSum(block, off, off1) == crc1) && PartSum(block, off, noff + 4) == 0 &&
     Verified(block, CheckNext(noff, end), CheckNext(noff, end) + 4, off1, crc1, end))
  }

  /** What passes: the CRC that was written is that over the commit, and behind it and all
      CRC tags further on the sums are zero. */
  lemma VerifiedIff(block: seq<Byte>, begin: nat, off1: nat, crc1: bv32, end: nat)
    requires 4 <= off1 && begin <= off1 && off1 + 4 <= end <= |block|
    ensures Verified(block, begin, off1, off1, crc1, end) <==>
            PartSum(block, begin, off1) == crc1 && PartSum(block, begin, off1 + 4) == 0 &&
            TagsSum(block, FootersAt(PadTo(off1 - 4, end), end))
  {
    hide PartSum, PadTo;
    var next := PadTo(off1 - 4, end);
    FurtherVerified(block, next, off1, crc1, end);
  }

  /** Eight bytes from each of the offsets sum up to zero. */
  ghost predicate TagsSum(block: seq<Byte>, offs: seq<nat>) {
    forall i :: 0 <= i < |offs| ==> offs[i] + 8 <= |block| && PartSum(block, offs[i], offs[i] + 8) == 0
  }

  lemma {:induction false} FurtherVerified(block: seq<Byte>, off: nat, off1: nat, crc1: bv32, end: nat)
    requires off1 < off <= end <= |block| && (off == end || off + 8 <= end)
    ensures Verified(block, off, off + 4, off1, crc1, end) <==> TagsSum(block, FootersAt(off, end))
    decreases end - off
  {
    hide PartSum, PadTo, TagsSum;
    if off < end {
      FurtherVerified(block, PadTo(off, end), off1, crc1, end);
      TagsSumNext(block, off, FootersAt(PadTo(off, end), end));
    } else {
      NoTagsSum(block);
    }
  }

  lemma NoTagsSum(block: seq<Byte>)
    ensures TagsSum(block, [])
  {
  }

  lemma TagsSumNext(block: seq<Byte>, off: nat, rest: seq<nat>)
    ensures TagsSum(block, [off] + rest) <==>
            off + 8 <= |block| && PartSum(block, off, off + 8) == 0 && TagsSum(block, rest)
  {
    hide PartSum;
    var all := [off] + rest;
    if TagsSum(block, all) {
      assert all[0] == off;
      forall i | 0 <= i < |rest| ensures rest[i] + 8 <= |block| && PartSum(block, rest[i], rest[i] + 8) == 0 {
        assert all[i + 1] == rest[i];
      }
    }
  }

  /** What was written passes. */
  lemma {:induction false} WrittenVerifies(block: seq<Byte>, log: seq<Entry>, n: nat, k: nat, off1: nat, crc1: bv32,
                                           end: nat)
    requires Layout(block, log) && n <= k <= |log| && OffAt(log, |log|) == end <= |block|
    requires forall i :: n <= i < |log| ==> IsCrc(log[i].tag)
    requires off1 == OffAt(log, n) + 4 <= |block| && BeginAt(log, n) <= off1
    requires n < |log| ==> crc1 == PartSum(block, BeginAt(log, n), off1)
    requires OffAt(log, k) == end || OffAt(log, k) + 8 <= end
    requires OffsetsFrom(log, k) == FootersAt(OffAt(log, k), end) && (k == |log| ==> BeginAt(log, k) == end)
    ensures BeginAt(log, k) < end ==> OffAt(log, k) + 8 <= end
    ensures Verified(block, BeginAt(log, k), OffAt(log, k) + 4, off1, crc1, end)
    decreases |log| - k
  {
    hide Layout, OffAt, PartSum, StoredEntry, ValidEntry;
    if k < |log| {
      LayoutValid(block, log);
      assert OffAt(log, k) + 8 <= end;
      SumIsZero(block, log, k);
      SameTail(OffAt(log, k), OffsetsFrom(log, k + 1), FootersAt(PadTo(OffAt(log, k), end), end));
      NextOffset(log, k + 1, PadTo(OffAt(log, k), end), end);
      assert BeginAt(log, k + 1) == OffAt(log, k + 1);
      WrittenVerifies(block, log, n, k + 1, off1, crc1, end);
      if k > n {
        assert IsCrc(log[k - 1].tag) && BeginAt(log, k) == OffAt(log, k);
        assert ValidEntry(log[n]);
        OffStep(log, n, k);
      }
    }
  }

  lemma SameTail(x: nat, a: seq<nat>, b: seq<nat>)
    ensures [x] + a == [x] + b ==> a == b
  {
    assert ([x] + a)[1..] == a && ([x] + b)[1..] == b;
  }

  lemma NextOffset(log: seq<Entry>, k: nat, next: nat, end: nat)
    requires k <= |log| && (next == end || next + 8 <= end) && OffsetsFrom(log, k) == FootersAt(next, end)
    requires OffAt(log, |log|) == end
    ensures OffAt(log, k) == next
  {
    hide OffAt;
    if k < |log| {
      assert FootersAt(next, end)[0] == OffAt(log, k);
    } else {
      assert |FootersAt(next, end)| == 0;
    }
  }

  lemma OffStep(log: seq<Entry>, n: nat, k: nat)
    requires n < k <= |log| && IsCrc(log[n].tag) && ValidEntry(log[n])
    ensures OffAt(log, n) + 4 < OffAt(log, k)
  {
    OffGrows(log, n + 1, k);
  }

  /** `struct lfs_commit`, written through the caches. What has been programmed ends at
      `pos`, which is in front of `at.off` only behind a CRC tag. */
  class Writer {
    const caches: BlockCache.Caches
    const b: nat
    var at: At
    ghost var log: seq<Entry>
    ghost var pos: nat

    /** The caches: programming can go on at `pos`, and the read cache is right from
        `from` on. */
    ghost predicate Ready(pos: nat, from: nat)
      reads caches, caches.rbuf, caches.pbuf, caches.dev.buffer
    {
      caches.Valid() && b < caches.dev.c.block_count && caches.Continues(b, pos) && caches.AgreesFrom(b, from)
    }

    /** The block as it will be. */
    ghost function Block(): (block: seq<Byte>)
      reads caches, caches.rbuf, caches.pbuf, caches.dev.buffer
      ensures caches.Valid() && b < caches.dev.c.block_count ==>
              block == caches.Merged(b) && |block| == caches.dev.c.block_size
    {
      if caches.Valid() && b < caches.dev.c.block_count then caches.Merged(b) else []
    }

    ghost predicate Valid()
      reads this, caches, caches.rbuf, caches.pbuf, caches.dev.buffer
    {
      Ready(pos, at.off) && IsAt(Block(), log, at) && |Block()| == caches.dev.c.block_size && pos <= at.off &&
      (pos < at.off ==> at.begin == at.off && UsedEnd(log) <= pos)
    }

    /** With everything on the device. */
    ghost predicate Written()
      reads this, caches, caches.rbuf, caches.pbuf, caches.dev.buffer
    {
      Valid() && caches.Agrees() && caches.p == BlockCache.NoBlock && Block() == caches.dev.Block(b)
    }

    /** Programs bytes at the offset `off`. */
    method Program(off: nat, data: seq<Byte>, ghost end: nat) returns (ghost gap: seq<Byte>)
      requires Ready(pos, off) && pos <= off && off + |data| <= caches.dev.c.block_size && data != []
      requires pos == off ||
               (off < end < pos + caches.dev.c.prog_size && BlockCache.Multiple(end, caches.dev.c.prog_size))
      modifies caches, caches.rbuf, caches.pbuf, caches.dev.buffer
      ensures Ready(off + |data|, off + |data|) && pos + |gap| == off
      ensures |Block()| == |old(Block())| == caches.dev.c.block_size && Block() == Patch(old(Block()), pos, gap + data)
    {
      hide Patch, BlockCache.SameFrom, BlockCache.Multiple;
      if caches.p.Window? && pos != off {
        caches.CacheReaches(b, pos, off, end);
      }
      caches.AgreesBehind(b, off, off + |data|);
      gap := caches.Prog(false, b, pos, off, data);
    }

    /** Goes on where a fetch found the end of the log. */
    constructor (caches: BlockCache.Caches, b: nat, off: nat, ptag: nat, ghost log: seq<Entry>)
      requires caches.Valid() && caches.Agrees() && caches.p == BlockCache.NoBlock && b < caches.dev.c.block_count
      requires Layout(caches.dev.Block(b), log) && EndsCommit(log) &&
               off == OffAt(log, |log|) <= caches.dev.c.block_size
      requires ptag == PtagAt(log, |log|) && BlockCache.Multiple(off, caches.dev.c.prog_size)
      ensures Valid() && this.caches == caches && this.b == b && this.log == log && pos == at.off == off
    {
      NothingYet(caches.dev.Block(b), off);
      caches.AgreesMore(b, off);
      this.caches := caches;
      this.b := b;
      at := At(off, off, ptag, 0xffff_ffff);
      this.log := log;
      pos := off;
    }

    /** For a block that is written anew, as by a compaction. */
    constructor Empty(caches: BlockCache.Caches, b: nat)
      requires caches.Valid() && caches.Agrees() && caches.p == BlockCache.NoBlock && b < caches.dev.c.block_count
      requires 4 <= caches.dev.c.block_size
      ensures this.caches == caches && this.b == b && log == [] && at == At(0, 4, START, 0xffff_ffff)
    {
      this.caches := caches;
      this.b := b;
      at := At(0, 4, START, 0xffff_ffff);
      log := [];
      pos := 4;
    }

    /** Its revision count. */
    method Revision(rev: nat)
      requires caches.Valid() && caches.Agrees() && caches.p == BlockCache.NoBlock && b < caches.dev.c.block_count
      requires 4 <= caches.dev.c.block_size && rev < WORD && log == [] && at == At(0, 4, START, 0xffff_ffff)
      modifies this, caches, caches.rbuf, caches.pbuf, caches.dev.buffer
      ensures Valid() && log == [] && pos == at.off == 4
      ensures Block() == Patch(old(caches.dev.Block(b)), 0, ToLe32(rev))
    {
      hide IsAt, Ready, Block, UsedEnd, ToLe32, AsBits, Patch;
      ReadyToBegin();
      ghost var was := Block();
      pos := 0;
      ghost var gap := Program(0, ToLe32(rev), 0);
      assert gap + ToLe32(rev) == ToLe32(rev);
      var crc := Crc.Crc(0xffff_ffff, AsBits(ToLe32(rev)));
      at := At(0, 4, START, crc);
      pos := 4;
      RevisionWritten(was, rev, crc);
    }

    lemma ReadyToBegin()
      requires caches.Valid() && caches.Agrees() && caches.p == BlockCache.NoBlock && b < caches.dev.c.block_count
      ensures Ready(0, 0) && Block() == caches.dev.Block(b)
    {
      hide BlockCache.SameFrom, BlockCache.Multiple;
      caches.AgreesMore(b, 0);
      BlockCache.ZeroIsMultiple(caches.dev.c.prog_size);
    }

    /** `lfs_dir_commitattr`, with room up to `end`. */
    method Attr(e: Entry, end: nat) returns (fits: bool)
      requires Valid() && ValidEntry(e) && !IsCrc(e.tag) && end <= caches.dev.c.block_size && pos == at.off
      modifies this, caches, caches.rbuf, caches.pbuf, caches.dev.buffer
      ensures Valid() && pos == at.off && fits == (old(at.off) + Space(e) <= end)
      ensures log == if fits then old(log) + [e] else old(log)
      ensures at.off == if fits then old(at.off) + Space(e) else old(at.off)
      ensures Block()[..old(at.off)] == old(Block()[..at.off])
      ensures |Block()| == |old(Block())| && at.off <= |Block()| && Block()[at.off..] == old(Block())[at.off..]
    {
      hide IsAt, ToBe32, XorNat, ToWord, Patch, Ready, Block, UsedEnd;
      AtWord(Block(), log, at);
      if at.off + Space(e) > end {
        return false;
      }
      XorFits(ToWord(e.tag), at.ptag);
      var word := XorNat(ToWord(e.tag), at.ptag);
      var data := ToBe32(word) + e.data;
      var crc := Crc.Crc(at.crc, AsBits(data));
      AttrSize(e);
      WrittenAttr(Block(), log, at, e, word, crc);
      Put(data, At(at.begin, at.off + Space(e), ToWord(e.tag), crc), log + [e]);
      return true;
    }

    method Put(data: seq<Byte>, next: At, ghost log': seq<Entry>)
      requires Valid() && pos == at.off && data != [] && at.off + |data| == next.off <= caches.dev.c.block_size
      requires IsAt(Patch(Block(), at.off, data), log', next)
      modifies this, caches, caches.rbuf, caches.pbuf, caches.dev.buffer
      ensures Valid() && pos == at.off && at == next && log == log'
      ensures Block()[..old(at.off)] == old(Block()[..at.off])
      ensures |Block()| == |old(Block())| && at.off <= |Block()| && Block()[at.off..] == old(Block())[at.off..]
    {
      hide IsAt, Patch, Ready, Block, UsedEnd;
      ghost var block := Block();
      ghost var gap := Program(at.off, data, 0);
      assert gap + data == data;
      PatchedAt(block, at.off, data);
      at := next;
      log := log';
      pos := at.off;
    }

    /** The word behind a CRC tag, as the device has it. */
    method PeekTop(noff: nat) returns (top: bool)
      requires Valid() && at.off <= noff
      modifies caches`r, caches.rbuf
      ensures Valid() && Block() == old(Block()) && top == TopSet(Block(), noff)
    {
      hide IsAt, BeAt, BlockCache.SameFrom, BlockCache.IsPart, UsedEnd;
      caches.MergedBehind(b, pos);
      var ok, dat := caches.Read(false, 4, b, noff, 4, at.off);
      if ok {
        WordPart(dat, caches.dev.Block(b), caches.Merged(b), noff);
      }
      top := !ok || BeAt(dat, 0) >= TOP;
    }

    /** One CRC tag of a commit that ends at `end`. */
    method Footer(end: nat) returns (crc: bv32)
      requires Valid() && at.off + 8 <= end <= caches.dev.c.block_size &&
               BlockCache.Multiple(end, caches.dev.c.prog_size)
      requires pos == at.off || end < pos + caches.dev.c.prog_size
      modifies this, caches, caches.rbuf, caches.pbuf, caches.dev.buffer
      ensures Valid() && at.off == PadTo(old(at.off), end) && pos == old(at.off) + 8
      ensures |log| == |old(log)| + 1 && log[..|old(log)|] == old(log) && EndsCommit(log)
      ensures log[|log| - 1].tag ==
        Tag(Kind.Crc, if TopSet(Block(), at.off) then 0 else 1, 0x3ff, at.off - (old(at.off) + 4))
      ensures Block()[..old(pos)] == old(Block()[..pos]) && Block()[pos..] == old(Block())[pos..]
      ensures old(at.begin <= at.off) && pos <= |Block()| == |old(Block())|
      ensures crc == PartSum(Block(), old(at.begin), old(at.off) + 4)
    {
      hide IsAt, BlockCache.Multiple, TopSet, UsedEnd, Ready, Block, PartSum;
      var noff := PadTo(at.off, end);
      var top := PeekTop(noff);
      ghost var block := Block();
      crc := PutFooter(Tag(Kind.Crc, if top then 0 else 1, 0x3ff, noff - (at.off + 4)), end);
      TopStays(block, Block(), pos, noff);
    }

    /** Programs a CRC tag. */
    method PutFooter(tag: Tag, ghost end: nat) returns (crc: bv32)
      requires Valid() && ValidTag(tag) && IsCrc(tag) && 4 <= tag.size < DELETED_SIZE
      requires at.off + 4 + tag.size <= end <= caches.dev.c.block_size &&
               BlockCache.Multiple(end, caches.dev.c.prog_size)
      requires pos == at.off || end < pos + caches.dev.c.prog_size
      modifies this, caches, caches.rbuf, caches.pbuf, caches.dev.buffer
      ensures Valid() && at.off == old(at.off) + 4 + tag.size && pos == old(at.off) + 8
      ensures |log| == |old(log)| + 1 && log[..|old(log)|] == old(log) && log[|old(log)|].tag == tag
      ensures Block()[..old(pos)] == old(Block()[..pos]) && Block()[pos..] == old(Block())[pos..]
      ensures old(at.begin <= at.off) && pos <= |Block()| == |old(Block())|
      ensures crc == PartSum(Block(), old(at.begin), old(at.off) + 4)
    {
      hide IsAt, ToBe32, XorNat, ToWord, CheckBytes, Patch, BlockCache.Multiple, UsedEnd, Ready, Block, PartSum;
      ghost var block := Block();
      AtWord(block, log, at);
      XorFits(ToWord(tag), at.ptag);
      var word := XorNat(ToWord(tag), at.ptag);
      crc := Crc.Crc(at.crc, AsBits(ToBe32(word)));
      var data, next := ToBe32(word) + CheckBytes(crc), at.off + 4 + tag.size;
      ghost var gap := Program(at.off, data, end);
      FooterWritten(block, pos, gap, log, at, tag, word, CheckBytes(crc));
      FooterKeeps(block, pos, gap, data);
      FooterSum(block, pos, gap, log, at, ToBe32(word), CheckBytes(crc));
      FooterUsed(block, log, at, Entry(tag, CheckBytes(crc)));
      ReadyBehind(at.off + 8, next);
      log := log + [Entry(tag, CheckBytes(crc))];
      pos := at.off + 8;
      at := At(next, next, Carry(tag), 0xffff_ffff);
    }

    /** CRC tags as far as `end`. */
    method Footers(end: nat) returns (off1: nat, crc1: bv32)
      requires Valid() && pos == at.off && at.off + 8 <= end < at.off + 8 + caches.dev.c.prog_size
      requires end <= caches.dev.c.block_size && BlockCache.Multiple(end, caches.dev.c.prog_size)
      modifies this, caches, caches.rbuf, caches.pbuf, caches.dev.buffer
      ensures Valid() && old(at.off) <= pos <= at.off == end < pos + caches.dev.c.prog_size
      ensures |old(log)| < |log| && log[..|old(log)|] == old(log) && EndsCommit(log)
      ensures forall k :: |old(log)| <= k < |log| ==>
        IsCrc(log[k].tag) && log[k].tag.chunk < 2 && log[k].tag.id == 0x3ff
      ensures (log[|log| - 1].tag.chunk % 2 == 1) == !TopSet(Block(), at.off)
      ensures Block()[..old(at.off)] == old(Block()[..at.off]) && Block()[end..] == old(Block())[end..]
      ensures OffsetsFrom(log, |old(log)|) == FootersAt(old(at.off), end)
      ensures old(at.begin) <= off1 == old(at.off) + 4 <= pos <= |Block()| == |old(Block())|
      ensures crc1 == PartSum(Block(), old(at.begin), off1)
    {
      hide IsAt, BlockCache.Multiple, TopSet, UsedEnd, Ready, Block, PartSum, OffsetsFrom, FootersAt, Tagged;
      ghost var block, n := Block(), |log|;
      off1, crc1 := 0, 0;
      TaggedNot(log, at.off, end);
      while at.off < end
        invariant Valid() && (at.off == end || at.off + 8 <= end)
        invariant if |log| == n then pos == at.off == old(at.off)
                  else old(at.off) + 8 <= pos <= at.off && end < pos + caches.dev.c.prog_size
        invariant n <= |log| && Tagged(old(log), log, old(at.off), at.off, end)
        invariant n < |log| ==> EndsCommit(log) && (log[|log| - 1].tag.chunk % 2 == 1) == !TopSet(Block(), at.off)
        invariant |Block()| == |block| && Block()[..old(at.off)] == block[..old(at.off)] &&
                  Block()[end..] == block[end..]
        invariant if |log| == n then off1 == 0 && at.begin == old(at.begin)
                  else old(at.begin) <= off1 == old(at.off) + 4 <= pos <= |block| &&
                       crc1 == PartSum(Block(), old(at.begin), off1)
        decreases end - at.off
      {
        ghost var now, from, was := Block(), pos, log;
        var off := at.off;
        AtEnd(now, log, at);
        var crc := Footer(end);
        EndsKept(block, now, Block(), old(at.off), from, pos, end);
        if off1 == 0 {
          off1, crc1 := off + 4, crc;
        } else {
          SumStays(now, Block(), old(at.begin), off1, from);
        }
        TaggedNext(old(log), was, log, old(at.off), off, end);
      }
      TaggedAll(old(log), log, old(at.off), end);
    }

    /** `lfs_dir_commitcrc`: CRC tags up to the next program unit, all written out and
        verified. */
    method Finish() returns (ok: bool)
      requires Valid() && pos == at.off && AlignUp(at.off + 8, caches.dev.c.prog_size) <= caches.dev.c.block_size
      modifies this, caches, caches.rbuf, caches.pbuf, caches.dev.buffer
      ensures ok && pos == at.off == AlignUp(old(at.off) + 8, caches.dev.c.prog_size)
      ensures Written()
      ensures |old(log)| < |log| && log[..|old(log)|] == old(log) && EndsCommit(log)
      ensures forall k :: |old(log)| <= k < |log| ==>
        IsCrc(log[k].tag) && log[k].tag.chunk < 2 && log[k].tag.id == 0x3ff
      ensures OffsetsFrom(log, |old(log)|) == FootersAt(old(at.off), at.off)
      ensures Sealed(Block(), log)
      ensures Block()[..old(at.off)] == old(Block()[..at.off]) && Block()[at.off..] == old(Block())[at.off..]
    {
      hide IsAt, BlockCache.Multiple, BlockCache.SameFrom, TopSet, UsedEnd, AlignUp, AlignDown, Sealed, Ready, Block,
        PartSum, OffsetsFrom, FootersAt, Verified, OffAt, BeginAt, ValidLog, IsCrc;
      ghost var block, log0 := Block(), log;
      var start, begin := at.off, at.begin;
      AtEnd(block, log, at);
      var end := CommitEnd();
      var off1, crc1 := Footers(end);
      ghost var now, from := Block(), pos;
      WriteOut(end);
      Settled(now, Block(), log, at, from);
      EndsKept(block, now, Block(), start, from, end, end);
      SumStays(now, Block(), begin, off1, from);
      pos := end;
      CommitVerifies(Block(), log0, log, at, start, begin, off1, crc1);
      ok := Verify(begin, off1, crc1, end);
    }

    /** Its second loop: reads back what was written, and adds up the CRC. */
    method Verify(begin: nat, off1: nat, crc1: bv32, end: nat) returns (ok: bool)
      requires Written()
      requires 4 <= off1 && begin <= off1 && off1 + 4 <= end <= caches.dev.c.block_size
      modifies caches`r, caches.rbuf
      ensures Written() && Block() == old(Block())
      ensures ok == Verified(Block(), begin, off1, off1, crc1, end)
    {
      hide IsAt, BlockCache.SameFrom, UsedEnd, PartSum, Ready, Block;
      var off: nat, noff: nat := begin, off1;
      while off < end
        invariant Written() && Block() == old(Block())
        invariant off < end ==> 4 <= noff && off <= noff && noff + 4 <= end
        invariant Verified(Block(), begin, off1, off1, crc1, end) == Verified(Block(), off, noff, off1, crc1, end)
        decreases end - off
      {
        ok := VerifyPart(off, noff + 4, off1, crc1);
        if !ok {
          return;
        }
        off := CheckNext(noff, end);
        noff := off + 4;
      }
      ok := true;
    }

    /** A byte of what is on the device. */
    method ReadByte(i: nat, hint: nat) returns (dat: seq<Byte>)
      requires Written() && i < caches.dev.c.block_size && hint > 0
      modifies caches`r, caches.rbuf
      ensures Written() && Block() == old(Block())
      ensures |dat| == 1 && BlockCache.IsPart(dat, Block(), i)
    {
      hide IsAt, BlockCache.SameFrom, BlockCache.IsPart, UsedEnd;
      caches.AgreesMore(b, 0);
      var read;
      read, dat := caches.Read(false, hint, b, i, 1, 0);
      caches.AgreesAll(b);
      caches.AgreesMore(b, at.off);
    }

    /** One round of it, byte by byte. */
    method VerifyPart(off: nat, next: nat, off1: nat, crc1: bv32) returns (ok: bool)
      requires Written()
      requires off <= next <= caches.dev.c.block_size
      modifies caches`r, caches.rbuf
      ensures Written() && Block() == old(Block())
      ensures ok == ((off <= off1 < next ==> PartSum(Block(), off, off1) == crc1) && PartSum(Block(), off, next) == 0)
    {
      hide IsAt, BlockCache.SameFrom, BlockCache.IsPart, UsedEnd, PartSum, Ready, Block;
      var i, crc := off, 0xffff_ffff;
      NothingSummed(Block(), off);
      while i < next
        invariant Written() && Block() == old(Block())
        invariant off <= i <= next && crc == PartSum(Block(), off, i)
        invariant off <= off1 < i ==> PartSum(Block(), off, off1) == crc1
      {
        if i == off1 && crc != crc1 {
          return false;
        }
        var dat := ReadByte(i, next - i);
        SumByte(Block(), off, i, dat);
        crc := Crc.Crc(crc, AsBits(dat));
        i := i + 1;
      }
      ok := crc == 0;
    }

    /** Where a commit ends. */
    method CommitEnd() returns (end: nat)
      requires Valid()
      ensures end == AlignUp(at.off + 8, caches.dev.c.prog_size) &&
              at.off + 8 <= end < at.off + 8 + caches.dev.c.prog_size
      ensures BlockCache.Multiple(end, caches.dev.c.prog_size)
    {
      hide IsAt, BlockCache.Multiple, BlockCache.SameFrom, UsedEnd, AlignUp, AlignDown;
      caches.UnitPositive();
      end := AlignUp(at.off + 8, caches.dev.c.prog_size);
      BlockCache.Aligned(at.off + 8, caches.dev.c.prog_size);
    }

    /** Writes out what has been programmed. */
    method WriteOut(ghost end: nat)
      requires Ready(pos, end) && pos <= end < pos + caches.dev.c.prog_size && end <= caches.dev.c.block_size
      requires BlockCache.Multiple(end, caches.dev.c.prog_size)
      modifies caches, caches.rbuf, caches.pbuf, caches.dev.buffer
      ensures Ready(end, end) && caches.Valid() && b < caches.dev.c.block_count
      ensures caches.Agrees() && caches.p == BlockCache.NoBlock && Block() == caches.dev.Block(b)
      ensures |Block()| == |old(Block())| == caches.dev.c.block_size
      ensures Block()[..pos] == old(Block())[..pos] && Block()[end..] == old(Block())[end..]
    {
      hide BlockCache.Multiple, BlockCache.SameFrom;
      caches.SyncUnit(b, pos, end);
      caches.AgreesMore(b, end);
    }

    lemma ReadyBehind(pos: nat, from: nat)
      requires Ready(pos, pos) && pos <= from
      ensures Ready(pos, from)
    {
      hide BlockCache.SameFrom;
      caches.AgreesBehind(b, pos, from);
    }
  }

  lemma WordPart(dat: seq<Byte>, block: seq<Byte>, merged: seq<Byte>, off: nat)
    requires |dat| == 4 && BlockCache.IsPart(dat, block, off) && |merged| == |block|
    requires forall i :: off <= i < |block| ==> merged[i] == block[i]
    ensures BeAt(dat, 0) == BeAt(merged, off)
  {
    assert forall i :: 0 <= i < 4 ==> dat[i] == block[off..off + 4][i] == block[off + i];
  }

  /** A CRC tag behind a gap. */
  lemma FooterWritten(block: seq<Byte>, pos: nat, gap: seq<Byte>, log: seq<Entry>, at: At, tag: Tag, word: nat,
                      check: seq<Byte>)
    requires IsAt(block, log, at) && ValidTag(tag) && IsCrc(tag) && 4 <= tag.size < DELETED_SIZE
    requires at.off + 4 + tag.size <= |block| && pos + |gap| == at.off &&
             (pos < at.off ==> at.begin == at.off && UsedEnd(log) <= pos)
    requires word == XorNat(ToWord(tag), at.ptag) < WORD
    requires check == CheckBytes(Crc.AddBytes(at.crc, AsBits(ToBe32(word))))
    ensures var block' := Patch(block, pos, gap + (ToBe32(word) + check));
      var next := at.off + 4 + tag.size;
      IsAt(block', log + [Entry(tag, check)], At(next, next, Carry(tag), 0xffff_ffff))
  {
    hide IsAt, XorNat, ToWord, CheckBytes, ToBe32, AsBits, Patch, UsedEnd;
    var filled, data := Patch(block, pos, gap), ToBe32(word) + check;
    BlockCache.PatchJoins(block, pos, gap, data);
    if gap == [] {
      BlockCache.PatchNothing(block, pos);
    } else {
      PatchedAt(block, pos, gap);
      SameStart(block, filled, UsedEnd(log), pos);
      GapStays(block, filled, log, at);
    }
    WrittenCrc(filled, log, at, tag, word, check);
  }

  lemma FooterKeeps(block: seq<Byte>, pos: nat, gap: seq<Byte>, data: seq<Byte>)
    requires pos + |gap| + |data| <= |block|
    ensures var block' := Patch(block, pos, gap + data);
      block'[..pos] == block[..pos] && block'[pos + |gap| + |data|..] == block[pos + |gap| + |data|..]
  {
    hide Patch;
    PatchedAt(block, pos, gap + data);
  }

  /** The CRC that a CRC tag is written with. */
  lemma FooterSum(block: seq<Byte>, pos: nat, gap: seq<Byte>, log: seq<Entry>, at: At, word: seq<Byte>,
                  check: seq<Byte>)
    requires IsAt(block, log, at) && pos + |gap| == at.off && at.off + 8 <= |block| && |word| == |check| == 4
    requires pos < at.off ==> at.begin == at.off
    ensures at.begin <= at.off
    ensures PartSum(Patch(block, pos, gap + (word + check)), at.begin, at.off + 4) == Crc.AddBytes(at.crc, AsBits(word))
  {
    hide Layout, AsBits, Crc.AddBytes, Patch;
    var block', data := Patch(block, pos, gap + (word + check)), gap + (word + check);
    PatchedAt(block, pos, data);
    AddMore(block[at.begin..at.off], word);
    WordInside(block', pos, gap, word, check);
    if pos == at.off {
      PartOfStart(block, pos, at.begin);
      PartOfStart(block', pos, at.begin);
    }
    PartJoins(block', at.begin, at.off);
  }

  lemma WordInside(block: seq<Byte>, pos: nat, gap: seq<Byte>, word: seq<Byte>, check: seq<Byte>)
    requires |word| == 4 && pos + |gap + (word + check)| <= |block|
    requires block[pos..pos + |gap + (word + check)|] == gap + (word + check)
    ensures block[pos + |gap|..pos + |gap| + 4] == word
  {
    var data, n := gap + (word + check), |gap|;
    var part := block[pos..pos + |data|];
    assert part[n..n + 4] == word;
    assert block[pos + n..pos + n + 4] == part[n..n + 4];
  }

  lemma PartOfStart(block: seq<Byte>, pos: nat, begin: nat)
    requires begin <= pos <= |block|
    ensures block[begin..pos] == block[..pos][begin..]
  {
  }

  lemma PartJoins(block: seq<Byte>, begin: nat, off: nat)
    requires begin <= off && off + 4 <= |block|
    ensures block[begin..off + 4] == block[begin..off] + block[off..off + 4]
  {
  }

  lemma NothingSummed(block: seq<Byte>, off: nat)
    requires off <= |block|
    ensures PartSum(block, off, off) == 0xffff_ffff
  {
    NothingYet(block, off);
  }

  lemma SumByte(block: seq<Byte>, start: nat, i: nat, dat: seq<Byte>)
    requires start <= i < |block| && |dat| == 1 && BlockCache.IsPart(dat, block, i)
    ensures PartSum(block, start, i + 1) == Crc.AddBytes(PartSum(block, start, i), AsBits(dat))
  {
    AddMore(block[start..i], dat);
    assert block[start..i + 1] == block[start..i] + dat;
  }

  /** The log with CRC tags from `start` to `off`, of those as far as `end`. */
  ghost predicate Tagged(log0: seq<Entry>, log: seq<Entry>, start: nat, off: nat, end: nat)
    requires (start == end || start + 8 <= end) && (off == end || off + 8 <= end)
  {
    |log0| <= |log| && log[..|log0|] == log0 &&
    (forall k :: |log0| <= k < |log| ==> IsCrc(log[k].tag) && log[k].tag.chunk < 2 && log[k].tag.id == 0x3ff) &&
    OffsetsFrom(log, |log0|) + FootersAt(off, end) == FootersAt(start, end)
  }

  lemma TaggedNot(log: seq<Entry>, off: nat, end: nat)
    requires off == end || off + 8 <= end
    ensures Tagged(log, log, off, off, end)
  {
  }

  lemma TaggedNext(log0: seq<Entry>, log: seq<Entry>, log': seq<Entry>, start: nat, off: nat, end: nat)
    requires (start == end || start + 8 <= end) && off + 8 <= end && off == OffAt(log, |log|)
    requires Tagged(log0, log, start, off, end) && |log'| == |log| + 1 && log'[..|log|] == log && EndsCommit(log')
    requires log'[|log|].tag.chunk < 2 && log'[|log|].tag.id == 0x3ff
    ensures Tagged(log0, log', start, PadTo(off, end), end)
  {
    hide OffAt;
    OffsetsMore(log, log', |log0|);
    assert log'[..|log0|] == log'[..|log|][..|log0|];
    forall k | |log0| <= k < |log'|
      ensures IsCrc(log'[k].tag) && log'[k].tag.chunk < 2 && log'[k].tag.id == 0x3ff
    {
      assert k < |log| ==> log'[k] == log'[..|log|][k];
    }
    var rest := FootersAt(PadTo(off, end), end);
    assert (OffsetsFrom(log, |log0|) + [off]) + rest == OffsetsFrom(log, |log0|) + ([off] + rest);
  }

  lemma TaggedAll(log0: seq<Entry>, log: seq<Entry>, start: nat, end: nat)
    requires (start == end || start + 8 <= end) && Tagged(log0, log, start, end, end)
    ensures log[..|log0|] == log0
    ensures forall k :: |log0| <= k < |log| ==> IsCrc(log[k].tag) && log[k].tag.chunk < 2 && log[k].tag.id == 0x3ff
    ensures OffsetsFrom(log, |log0|) == FootersAt(start, end)
  {
  }

  lemma IsLaidOut(block: seq<Byte>, log: seq<Entry>, at: At)
    requires IsAt(block, log, at)
    ensures Layout(block, log) && at.off == OffAt(log, |log|) <= |block|
  {
  }

  lemma BeginsAtEnd(log: seq<Entry>)
    requires EndsCommit(log) && log != []
    ensures BeginAt(log, |log|) == OffAt(log, |log|)
  {
  }

  /** The whole commit passes. */
  lemma CommitVerifies(block: seq<Byte>, log0: seq<Entry>, log: seq<Entry>, at: At, start: nat, begin: nat, off1: nat,
                       crc1: bv32)
    requires IsAt(block, log, at) && |log0| < |log| && log[..|log0|] == log0 && EndsCommit(log)
    requires forall k :: |log0| <= k < |log| ==> IsCrc(log[k].tag)
    requires ValidLog(log0) && start == OffAt(log0, |log0|) && begin == BeginAt(log0, |log0|) <= off1 == start + 4
    requires start + 8 <= at.off && OffsetsFrom(log, |log0|) == FootersAt(start, at.off)
    requires off1 <= |block| && crc1 == PartSum(block, begin, off1)
    ensures Verified(block, begin, off1, off1, crc1, at.off)
  {
    hide IsAt, PartSum, OffsetsFrom, FootersAt, Verified, OffAt, BeginAt, ValidLog;
    assert log == log0 + log[|log0|..];
    OffPrefix(log0, log[|log0|..], |log0|);
    IsLaidOut(block, log, at);
    BeginsAtEnd(log);
    WrittenVerifies(block, log, |log0|, |log0|, off1, crc1, at.off);
  }

  lemma FooterUsed(block: seq<Byte>, log: seq<Entry>, at: At, e: Entry)
    requires IsAt(block, log, at) && |e.data| == 4
    ensures UsedEnd(log + [e]) == at.off + 8
  {
    OffPrefix(log, [e], |log|);
  }

  /** Bytes in front of a commit and behind it stay. */
  lemma EndsKept(block: seq<Byte>, now: seq<Byte>, now': seq<Byte>, start: nat, from: nat, upTo: nat, end: nat)
    requires |now| == |block| == |now'| && start <= from <= upTo <= end <= |block|
    requires now[..start] == block[..start] && now[end..] == block[end..] && now'[..from] == now[..from] &&
             now'[upTo..] == now[upTo..]
    ensures now'[..start] == block[..start] && now'[end..] == block[end..]
  {
    assert now'[..start] == now'[..from][..start] == now[..from][..start] == now[..start];
    assert now'[end..] == now'[upTo..][end - upTo..] == now[upTo..][end - upTo..] == now[end..];
  }

  /** After the flush. */
  lemma Settled(block: seq<Byte>, block': seq<Byte>, log: seq<Entry>, at: At, pos: nat)
    requires IsAt(block, log, at) && |block'| == |block| && pos <= at.off <= |block|
    requires block'[..pos] == block[..pos] && block'[at.off..] == block[at.off..]
    requires (pos < at.off ==> at.begin == at.off && UsedEnd(log) <= pos) && EndsCommit(log)
    requires (log[|log| - 1].tag.chunk % 2 == 1) == !TopSet(block, at.off)
    ensures IsAt(block', log, at) && Sealed(block', log)
  {
    hide IsAt, UsedEnd, Sealed, TopSet;
    AtEnd(block, log, at);
    if pos < at.off {
      SameStart(block, block', UsedEnd(log), pos);
      GapStays(block, block', log, at);
    } else {
      assert block' == block'[..pos] + block'[pos..] == block[..pos] + block[pos..] == block;
    }
    TopStays(block, block', at.off, at.off);
    FlippedBit(block', log);
  }

  lemma TopStays(block: seq<Byte>, block': seq<Byte>, pos: nat, off: nat)
    requires |block'| == |block| && pos <= off && pos <= |block| && block'[pos..] == block[pos..]
    ensures TopSet(block', off) == TopSet(block, off)
  {
    if off + 4 <= |block| {
      assert forall i :: off <= i < |block| ==>
        block'[i] == block'[pos..][i - pos] == block[pos..][i - pos] == block[i];
    }
  }

  lemma AttrSize(e: Entry)
    requires ValidEntry(e) && !IsCrc(e.tag)
    ensures |e.data| + 4 == Space(e)
  {
  }

  lemma RevisionWritten(was: seq<Byte>, rev: nat, crc: bv32)
    requires rev < WORD && 4 <= |was| && crc == Crc.AddBytes(0xffff_ffff, AsBits(ToLe32(rev)))
    ensures IsAt(Patch(was, 0, ToLe32(rev)), [], At(0, 4, START, crc))
  {
    hide ToLe32;
    assert Patch(was, 0, ToLe32(rev))[0..4] == ToLe32(rev);
  }

  lemma AtEnd(block: seq<Byte>, log: seq<Entry>, at: At)
    requires IsAt(block, log, at)
    ensures ValidLog(log) && at.off == OffAt(log, |log|) && at.begin == BeginAt(log, |log|)
  {
  }

  lemma AtWord(block: seq<Byte>, log: seq<Entry>, at: At)
    requires IsAt(block, log, at)
    ensures at.ptag < WORD && at.off <= |block| && at.begin <= at.off
  {
  }

  // ----- the loops of a commit and of a fetch -----

  /** The next boundary, from where a CRC is. */
  function CheckNext(noff: nat, end: nat): (off: nat)
    requires 4 <= noff && noff + 4 <= end
    ensures off == PadTo(noff - 4, end)
  {
    var off := Min(end - noff, 0x3fe) + noff;
    if off < end then Min(off, end - 8) else off
  }

  /** The loop of `lfs_dir_fetchmatch` over one block, adding up the CRC as it goes. */
  method FetchBlock(block: seq<Byte>) returns (r: Fetched)
    requires |block| >= 4
    ensures r == FetchLog(block)
  {
    hide XorNat, OfWord, BeAt, CheckBytes, Crc.AddBytes, AsBits;
    r := NOTHING;
    var off: nat, ptag: nat, log := 4, START, [];
    var crc := Crc.Crc(0xffff_ffff, AsBits(block[..4]));
    ghost var begin: nat := 0;
    while off + 4 <= |block|
      invariant begin <= off && (off <= |block| ==> crc == Crc.AddBytes(0xffff_ffff, AsBits(block[begin..off])))
      invariant FetchLog(block) == Scan(block, begin, off, ptag, log, r)
      decreases |block| - off
    {
      ghost var was := block[begin..off];
      AddMore(was, block[off..off + 4]);
      assert was + block[off..off + 4] == block[begin..off + 4];
      crc := Crc.Crc(crc, AsBits(block[off..off + 4]));
      var w := XorNat(BeAt(block, off), ptag);
      var tag := OfWord(w);
      var next := off + Space(Entry(tag, []));
      if w >= TOP || next > |block| {
        return;
      }
      if IsCrc(tag) {
        if off + 8 > |block| || CheckBytes(crc) != block[off + 4..off + 8] {
          return;
        }
        log := log + [Entry(tag, block[off + 4..off + 8])];
        ptag, crc, begin := Carry(tag), 0xffff_ffff, next;
        NothingYet(block, next);
        r := Fetched(log, next, ptag);
      } else {
        log := log + [Entry(tag, block[off + 4..next])];
        AddMore(block[begin..off + 4], block[off + 4..next]);
        assert block[begin..off + 4] + block[off + 4..next] == block[begin..next];
        crc := Crc.Crc(crc, AsBits(block[off + 4..next]));
        ptag := w;
      }
      off := next;
    }
  }

  // ----- walking back -----

  /** The tag before entry k, without the top bit. */
  function TagBefore(log: seq<Entry>, k: nat): (w: nat)
    requires k <= |log| && ValidLog(log)
    ensures w < TOP
  {
    if k == 0 then TOP - 1
    else
      assert ValidEntry(log[k - 1]);
      ToWord(log[k - 1].tag)
  }

  lemma TagBeforeIs(log: seq<Entry>, k: nat)
    requires k <= |log| && ValidLog(log)
    ensures PtagAt(log, k) % TOP == TagBefore(log, k)
  {
    hide ToWord;
  }

  lemma XorBelow(a: nat, b: nat)
    ensures XorNat(a, b) % TOP == XorNat(a % TOP, b % TOP)
  {
    hide XorNat;
    Pow2Values();
    XorLow(a, b, 31);
  }

  /** Taking the tag out of the word it was stored in gives the one before. */
  lemma UnchainTag(block: seq<Byte>, log: seq<Entry>, k: nat, w: nat)
    requires Layout(block, log) && k < |log| && w % TOP == ToWord(log[k].tag) && OffAt(log, k) + 4 <= |block|
    ensures XorNat(BeAt(block, OffAt(log, k)), w) % TOP == TagBefore(log, k)
  {
    hide XorNat, ToWord, BeAt, CheckOf, ValidLog, OffAt;
    assert StoredEntry(block, log, k);
    var t, p, be := ToWord(log[k].tag), PtagAt(log, k), BeAt(block, OffAt(log, k));
    TagBeforeIs(log, k);
    XorBelow(be, w);
    XorBelow(t, p);
    assert t % TOP == t;
    CommutesNat(t, p % TOP);
    XorNatUndo(p % TOP, t);
  }

  lemma TagSpace(log: seq<Entry>, k: nat, w: nat)
    requires k <= |log| && ValidLog(log) && w < WORD && w % TOP == TagBefore(log, k)
    ensures k > 0 ==> OfWord(w) == log[k - 1].tag && Space(Entry(OfWord(w), [])) == Space(log[k - 1])
    ensures k == 0 ==> Space(Entry(OfWord(w), [])) == 4
  {
    hide ToWord, OfWord;
    var low := TagBefore(log, k);
    assert w == low || w == low + TOP;
    if k > 0 {
      assert ValidEntry(log[k - 1]);
      TagRoundTrip(log[k - 1].tag);
    } else {
      StartTag();
    }
  }

  lemma StartTag()
    ensures IsDeleted(OfWord(TOP - 1)) && IsDeleted(OfWord(START))
  {
  }

  lemma StoredData(block: seq<Byte>, log: seq<Entry>, k: nat)
    requires Layout(block, log) && k < |log|
    ensures OffAt(log, k) + 4 + |log[k].data| <= OffAt(log, k + 1) <= |block| && |log[k].data| == DataSize(log[k].tag)
    ensures block[OffAt(log, k) + 4..OffAt(log, k) + 4 + |log[k].data|] == log[k].data
    ensures OffAt(log, k + 1) == OffAt(log, k) + Space(log[k])
  {
    assert StoredEntry(block, log, k);
  }

  /** The walk of `lfs_dir_getslice`, from where a fetch ended with the tag it ended
      with: all entries, the last one first. */
  method WalkBack(block: seq<Byte>, end: nat, etag: nat, ghost log: seq<Entry>) returns (visited: seq<Entry>)
    requires Layout(block, log) && end == OffAt(log, |log|) <= |block| && etag == PtagAt(log, |log|)
    ensures |visited| == |log| && forall k :: 0 <= k < |log| ==> visited[k] == log[|log| - 1 - k]
  {
    hide Layout, ToWord, OfWord, XorNat, BeAt, OffAt, StoredEntry, ValidLog, TagBefore;
    visited := [];
    var off: nat, ntag: nat := end, etag;
    ghost var k := |log|;
    LayoutValid(block, log);
    TagBeforeIs(log, k);
    while off >= 4 + Space(Entry(OfWord(ntag), []))
      invariant 0 <= k <= |log| && off == OffAt(log, k) <= |block| && ntag < WORD && ntag % TOP == TagBefore(log, k)
      invariant |visited| == |log| - k && forall j :: 0 <= j < |visited| ==> visited[j] == log[|log| - 1 - j]
      decreases k
    {
      TagSpace(log, k, ntag);
      StartAt(log);
      k := k - 1;
      StoredData(block, log, k);
      TagIs(log, k);
      var tag := OfWord(ntag);
      off := off - Space(Entry(tag, []));
      visited := visited + [Entry(tag, block[off + 4..off + 4 + DataSize(tag)])];
      UnchainTag(block, log, k, ntag);
      ntag := XorNat(BeAt(block, off), ntag) % TOP;
    }
    TagSpace(log, k, ntag);
    if k > 0 {
      StoredData(block, log, k - 1);
    }
  }

  lemma StartAt(log: seq<Entry>)
    ensures OffAt(log, 0) == 4
  {
  }

  lemma TagIs(log: seq<Entry>, k: nat)
    requires k < |log| && ValidLog(log)
    ensures ValidTag(log[k].tag) && TagBefore(log, k + 1) == ToWord(log[k].tag)
  {
    assert ValidEntry(log[k]);
  }
}
