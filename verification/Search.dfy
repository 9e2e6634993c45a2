/** Finding a name while a directory log is read once from front to back
    (`lfs_dir_fetchmatch` with `lfs_dir_find_match`), and why it keeps
    directories sorted. */
module Search {
  import opened Wrappers
  import opened Bits
  import opened Bytes
  import opened MetaLog

  // ----- the order of names -----

  /** `lfs_dir_find_match`: compares the common length bytewise, as memcmp does,
      then puts the longer name first. */
  function CompareNames(disk: seq<Byte>, name: seq<Byte>): (r: Order) {
    var n := Min(|name|, |disk|);
    var res := MemCmp(disk[..n], name[..n]);
    if res != Equal then res
    else if |name| != |disk| then (if |name| < |disk| then Less else Greater)
    else Equal
  }

  predicate Before(a: seq<Byte>, b: seq<Byte>) {
    CompareNames(a, b) == Less
  }

  lemma CompareStep(a: seq<Byte>, b: seq<Byte>)
    requires a != [] && b != []
    ensures CompareNames(a, b) ==
      if a[0] < b[0] then Less else if b[0] < a[0] then Greater else CompareNames(a[1..], b[1..])
  {
    var n := Min(|b|, |a|);
    assert a[..n][1..] == a[1..][..n - 1] && b[..n][1..] == b[1..][..n - 1];
  }

  lemma {:induction false} CompareEqual(a: seq<Byte>, b: seq<Byte>)
    ensures CompareNames(a, b) == Equal <==> a == b
  {
    if a != [] && b != [] {
      CompareStep(a, b);
      CompareEqual(a[1..], b[1..]);
      assert a == [a[0]] + a[1..] && b == [b[0]] + b[1..];
    }
  }

  /** The order, without the comparison: of two names of which one begins with the other
      the longer comes first; of others the one with the smaller byte where they
      differ. */
  ghost predicate ComesFirst(a: seq<Byte>, b: seq<Byte>) {
    (|b| < |a| && a[..|b|] == b) || exists k: nat :: DiffersAt(a, b, k)
  }

  /** The names are the same up to k, where the first has the smaller byte. */
  ghost predicate DiffersAt(a: seq<Byte>, b: seq<Byte>, k: nat) {
    k < |a| && k < |b| && a[..k] == b[..k] && a[k] < b[k]
  }

  lemma {:induction false} BeforeIff(a: seq<Byte>, b: seq<Byte>)
    ensures Before(a, b) <==> ComesFirst(a, b)
  {
    if a != [] && b != [] {
      CompareStep(a, b);
      BeforeIff(a[1..], b[1..]);
      FirstStep(a, b);
    } else if b == [] {
      assert a[..0] == b;
    }
  }

  /** The same for the rest of the names, if they begin with the same byte. */
  lemma FirstStep(a: seq<Byte>, b: seq<Byte>)
    requires a != [] && b != []
    ensures ComesFirst(a, b) <==> a[0] < b[0] || (a[0] == b[0] && ComesFirst(a[1..], b[1..]))
  {
    assert a == [a[0]] + a[1..] && b == [b[0]] + b[1..];
    if a[0] < b[0] {
      assert DiffersAt(a, b, 0);
    }
    if a[0] == b[0] && |b| < |a| {
      assert a[..|b|] == [a[0]] + a[1..][..|b[1..]|];
      assert a[1..][..|b[1..]|] == a[..|b|][1..];
    }
    if k: nat :| DiffersAt(a, b, k) {
      if k > 0 {
        assert a[0] == a[..k][0] == b[..k][0] == b[0];
        assert a[1..][..k - 1] == a[..k][1..] && b[1..][..k - 1] == b[..k][1..];
        assert DiffersAt(a[1..], b[1..], k - 1);
      }
    }
    if k: nat :| DiffersAt(a[1..], b[1..], k) {
      if a[0] == b[0] {
        assert a[..k + 1] == [a[0]] + a[1..][..k] && b[..k + 1] == [b[0]] + b[1..][..k];
        assert DiffersAt(a, b, k + 1);
      }
    }
  }

  lemma {:induction false} CompareSwaps(a: seq<Byte>, b: seq<Byte>)
    ensures CompareNames(a, b) == Greater <==> Before(b, a)
  {
    if a != [] && b != [] {
      CompareStep(a, b);
      CompareStep(b, a);
      CompareSwaps(a[1..], b[1..]);
    }
  }

  lemma {:induction false} BeforeTransitive(a: seq<Byte>, b: seq<Byte>, c: seq<Byte>)
    requires Before(a, b) && Before(b, c)
    ensures Before(a, c)
  {
    if a != [] && b != [] && c != [] {
      CompareStep(a, b);
      CompareStep(b, c);
      CompareStep(a, c);
      if a[0] == b[0] == c[0] {
        BeforeTransitive(a[1..], b[1..], c[1..]);
      }
    }
  }

  // ----- sorted directories -----

  /** A name the search looks at; the superblock entry is not one. */
  predicate Searchable(attrs: Attrs) {
    NameKey in attrs && attrs[NameKey].chunk < 128
  }

  function NameOf(attrs: Attrs): seq<Byte>
    requires Searchable(attrs)
  {
    attrs[NameKey].data
  }

  /** Names ascend strictly, and only the first entry may be a superblock. */
  ghost predicate Sorted(dir: seq<Attrs>) {
    (forall i, j :: 0 <= i < j < |dir| && Searchable(dir[i]) && Searchable(dir[j]) ==>
      Before(NameOf(dir[i]), NameOf(dir[j]))) &&
    forall i :: 0 < i < |dir| && Named(dir[i]) ==> Searchable(dir[i])
  }

  /** The directory was sorted after every tag of its log. */
  ghost predicate SortedThroughout(log: seq<Entry>) {
    forall k :: 0 <= k <= |log| ==> Sorted(ReplayTo(log, k))
  }

  // ----- the search -----

  /** The best tag so far: none, the tag of the name itself, or (with the
      invalid bit set) the one the name has to go before. */
  datatype Best = NoBest | Best(valid: bool, chunk: Byte, id: nat)

  function SpliceBest(best: Best, t: Tag): Best
    requires t.kind == Splice
  {
    if best.NoBest? then best
    else if IsDelete(t) && t.id == best.id then best.(valid := false)
    else if t.id <= best.id && best.id + SpliceBy(t) >= 0 then best.(id := best.id + SpliceBy(t))
    else best
  }

  function MatchBest(best: Best, e: Entry, name: seq<Byte>): Best {
    var t := e.tag;
    match CompareNames(e.data, name)
    case Equal => Best(true, t.chunk, t.id)
    case res =>
      if best.Best? && best.chunk == t.chunk && best.id == t.id then NoBest
      else if res == Greater && (best.NoBest? || t.id <= best.id) then Best(false, t.chunk, t.id)
      else best
  }

  function SearchTag(best: Best, e: Entry, name: seq<Byte>): Best {
    if e.tag.kind == Splice then SpliceBest(best, e.tag)
    else if e.tag.kind == Name && e.tag.chunk < 128 then MatchBest(best, e, name)
    else best
  }

  function SearchTo(log: seq<Entry>, k: nat, name: seq<Byte>): (best: Best)
    requires k <= |log|
  {
    if k == 0 then NoBest else SearchTag(SearchTo(log, k - 1, name), log[k - 1], name)
  }

  /** What the best tag says about the directory. */
  ghost predicate Means(dir: seq<Attrs>, best: Best, name: seq<Byte>) {
    match best
    case NoBest => forall i :: 0 <= i < |dir| && Searchable(dir[i]) ==> Before(NameOf(dir[i]), name)
    case Best(valid, _, id) =>
      id <= |dir| && (id < |dir| ==> Searchable(dir[id])) &&
      if valid then id < |dir| && NameOf(dir[id]) == name else SplitsAt(dir, id, name)
  }

  /** Names before position id are smaller, those from it on are greater. */
  ghost predicate SplitsAt(dir: seq<Attrs>, id: nat, name: seq<Byte>) {
    (forall i :: 0 <= i < |dir| && i < id && Searchable(dir[i]) ==> Before(NameOf(dir[i]), name)) &&
    (forall i :: 0 <= i < |dir| && id <= i && Searchable(dir[i]) ==> Before(name, NameOf(dir[i])))
  }

  lemma SpliceMeans(dir: seq<Attrs>, spliced: bool, e: Entry, best: Best, name: seq<Byte>)
    requires Applies(dir, spliced, e) && e.tag.kind == Splice
    requires Sorted(dir) && Means(dir, best, name)
    ensures Means(Apply(dir, e), SpliceBest(best, e.tag), name)
  {
    if IsCreate(e.tag) {
      CreateMeans(dir, e.tag.id, best, name);
    } else {
      DeleteMeans(dir, e.tag.id, best, name);
    }
  }

  lemma CreateMeans(dir: seq<Attrs>, at: nat, best: Best, name: seq<Byte>)
    requires at <= |dir| && Means(dir, best, name)
    ensures Means(Insert(dir, at, map[]), SpliceBest(best, Tag(Splice, CREATE, at, 0)), name)
  {
    var dir' := Insert(dir, at, map[]);
    forall i | 0 <= i < |dir'| ensures dir'[i] == if i < at then dir[i] else if i == at then map[] else dir[i - 1] {
    }
  }

  lemma DeleteMeans(dir: seq<Attrs>, at: nat, best: Best, name: seq<Byte>)
    requires at < |dir| && AllNamed(dir) && Sorted(dir) && Means(dir, best, name)
    ensures Means(Remove(dir, at), SpliceBest(best, Tag(Splice, DELETE, at, 0)), name)
  {
    var dir' := Remove(dir, at);
    forall i | 0 <= i < |dir'| ensures dir'[i] == if i < at then dir[i] else dir[i + 1] {
    }
  }

  /** Storing a name leaves all other entries alone. */
  lemma NameStored(dir: seq<Attrs>, spliced: bool, e: Entry)
    requires Applies(dir, spliced, e) && e.tag.kind == Name
    ensures var dir' := Apply(dir, e); var at := e.tag.id;
      at < |dir'| && (Searchable(dir'[at]) <==> e.tag.chunk < 128) && Named(dir'[at]) &&
      (Searchable(dir'[at]) ==> NameOf(dir'[at]) == e.data) &&
      |dir| <= |dir'| && (at < |dir| ==> !Named(dir[at]) && |dir'| == |dir|) &&
      forall i :: 0 <= i < |dir'| && i != at ==> dir'[i] == if i < |dir| then dir[i] else map[]
  {
  }

  /** What the search keeps true; before the first splice the best entry exists. */
  ghost predicate Keeps(dir: seq<Attrs>, spliced: bool, best: Best, name: seq<Byte>) {
    Means(dir, best, name) && (best.Best? && !spliced ==> best.id < |dir|)
  }

  lemma NameMeans(dir: seq<Attrs>, spliced: bool, e: Entry, best: Best, name: seq<Byte>)
    requires Applies(dir, spliced, e) && e.tag.kind == Name
    requires Sorted(dir) && Sorted(Apply(dir, e)) && Keeps(dir, spliced, best, name)
    ensures Keeps(Apply(dir, e), spliced, SearchTag(best, e, name), name)
  {
    NameStored(dir, spliced, e);
    var dir' := Apply(dir, e);
    var at := e.tag.id;
    if e.tag.chunk < 128 {
      CompareEqual(e.data, name);
      CompareSwaps(e.data, name);
      BeforeExclusive(e.data, name);
      if best.Best? && best.id < |dir| { BeforeExclusive(NameOf(dir[best.id]), name); }
      Around(dir', at, e.data, name);
    }
  }

  /** Everything on the far side of an entry is on the same side of the name. */
  lemma Around(dir: seq<Attrs>, at: nat, data: seq<Byte>, name: seq<Byte>)
    requires Sorted(dir) && at < |dir| && Searchable(dir[at]) && NameOf(dir[at]) == data
    ensures Before(name, data) ==> forall i :: at <= i < |dir| && Searchable(dir[i]) ==> Before(name, NameOf(dir[i]))
    ensures Before(data, name) ==> forall i :: 0 <= i <= at && Searchable(dir[i]) ==> Before(NameOf(dir[i]), name)
  {
    forall i | 0 <= i < |dir| && Searchable(dir[i])
      ensures at <= i && Before(name, data) ==> Before(name, NameOf(dir[i]))
      ensures i <= at && Before(data, name) ==> Before(NameOf(dir[i]), name)
    {
      if at < i && Before(name, data) { BeforeTransitive(name, data, NameOf(dir[i])); }
      if i < at && Before(data, name) { BeforeTransitive(NameOf(dir[i]), data, name); }
    }
  }

  lemma BeforeExclusive(a: seq<Byte>, b: seq<Byte>)
    ensures !(Before(a, b) && Before(b, a)) && (a != b ==> Before(a, b) || Before(b, a))
  {
    CompareEqual(a, b);
    CompareSwaps(a, b);
  }

  lemma OtherMeans(dir: seq<Attrs>, spliced: bool, e: Entry, best: Best, name: seq<Byte>)
    requires Applies(dir, spliced, e) && e.tag.kind != Name && e.tag.kind != Splice
    requires Means(dir, best, name)
    ensures Means(Apply(dir, e), best, name) && |Apply(dir, e)| == |dir|
  {
    forall i | 0 <= i < |dir| ensures SameName(dir[i], Apply(dir, e)[i]) {
    }
  }

  ghost predicate SameName(a: Attrs, b: Attrs) {
    (Searchable(a) <==> Searchable(b)) && (Searchable(a) ==> NameOf(a) == NameOf(b))
  }

  lemma TagMeans(dir: seq<Attrs>, spliced: bool, e: Entry, best: Best, name: seq<Byte>)
    requires Applies(dir, spliced, e) && Sorted(dir) && Sorted(Apply(dir, e)) && Keeps(dir, spliced, best, name)
    ensures Keeps(Apply(dir, e), spliced || e.tag.kind == Splice, SearchTag(best, e, name), name)
  {
    if e.tag.kind == Splice {
      SpliceMeans(dir, spliced, e, best, name);
    } else if e.tag.kind == Name {
      NameMeans(dir, spliced, e, best, name);
    } else {
      OtherMeans(dir, spliced, e, best, name);
    }
  }

  lemma SplicedNext(log: seq<Entry>, k: nat)
    requires k < |log|
    ensures SplicedBefore(log, k + 1) <==> SplicedBefore(log, k) || log[k].tag.kind == Splice
  {
  }

  /** The one-pass search finds out where the name is or belongs, whatever the
      history of the directory. */
  lemma {:induction false} SearchMeans(log: seq<Entry>, k: nat, name: seq<Byte>)
    requires WellFormed(log) && SortedThroughout(log) && k <= |log|
    ensures Keeps(ReplayTo(log, k), SplicedBefore(log, k), SearchTo(log, k, name), name)
  {
    hide Keeps, Sorted, Applies, Apply, SearchTag, SplicedBefore, ReplayTo, SearchTo, WellFormed;
    if k == 0 {
      SearchStart(log, name);
    } else {
      SearchMeans(log, k - 1, name);
      SplicedNext(log, k - 1);
      ReplayStep(log, k);
      AppliesAt(log, k - 1);
      SearchStep(log, k, name);
      assert Sorted(ReplayTo(log, k - 1)) && Sorted(ReplayTo(log, k));
      TagMeans(ReplayTo(log, k - 1), SplicedBefore(log, k - 1), log[k - 1], SearchTo(log, k - 1, name), name);
    }
  }

  lemma SearchStart(log: seq<Entry>, name: seq<Byte>)
    ensures Keeps(ReplayTo(log, 0), SplicedBefore(log, 0), SearchTo(log, 0, name), name)
  {
  }

  lemma SearchStep(log: seq<Entry>, k: nat, name: seq<Byte>)
    requires 0 < k <= |log|
    ensures SearchTo(log, k, name) == SearchTag(SearchTo(log, k - 1, name), log[k - 1], name)
  {
  }

  /** Creating the name where the search says keeps the directory sorted. */
  lemma InsertKeepsSorted(dir: seq<Attrs>, id: nat, name: seq<Byte>, attrs: Attrs)
    requires Sorted(dir) && id <= |dir| && SplitsAt(dir, id, name)
    requires id < |dir| && Named(dir[id]) ==> Searchable(dir[id])
    requires Searchable(attrs) && NameOf(attrs) == name
    ensures Sorted(Insert(dir, id, attrs))
  {
    var dir' := Insert(dir, id, attrs);
    forall i | 0 <= i < |dir'| ensures dir'[i] == if i < id then dir[i] else if i == id then attrs else dir[i - 1] {
    }
  }

  /** A log after whose tags the directory was always sorted, and whose entries
      all have names: what the search relies on, and what it keeps. */
  ghost predicate Orderly(log: seq<Entry>) {
    WellFormed(log) && SortedThroughout(log) && AllNamed(Replay(log))
  }

  /** Creating an entry where the search for its name says keeps a history
      orderly. */
  lemma CreateKeepsOrderly(log: seq<Entry>, id: nat, name: seq<Byte>, chunk: Byte)
    requires Orderly(log) && id <= |Replay(log)| && SplitsAt(Replay(log), id, name)
    requires id < |Replay(log)| ==> Searchable(Replay(log)[id])
    requires 0 < chunk < 128 && |name| != DELETED_SIZE
    ensures Orderly(log + [CreateTag(id)] + [NameTag(id, chunk, name)])
    ensures Replay(log + [CreateTag(id)] + [NameTag(id, chunk, name)]) ==
      Insert(Replay(log), id, map[NameKey := ValueOf(NameTag(id, chunk, name))])
  {
    var create, naming := CreateTag(id), NameTag(id, chunk, name);
    var attrs: Attrs := map[NameKey := ValueOf(naming)];
    AppendTag(log, create);
    InsertGap(Replay(log), id);
    SortedNext(log, create);
    NameTheGap(Replay(log), id, naming);
    AppendTag(log + [create], naming);
    InsertKeepsSorted(Replay(log), id, name, attrs);
    SortedNext(log + [create], naming);
  }

  function CreateTag(id: nat): Entry {
    Entry(Tag(Splice, CREATE, id, 0), [])
  }

  function NameTag(id: nat, chunk: Byte, name: seq<Byte>): Entry {
    Entry(Tag(Name, chunk, id, |name|), name)
  }

  lemma InsertGap(dir: seq<Attrs>, id: nat)
    requires Sorted(dir) && id <= |dir| && (id < |dir| ==> Searchable(dir[id]))
    ensures Apply(dir, CreateTag(id)) == Insert(dir, id, map[]) && Sorted(Insert(dir, id, map[]))
  {
    var dir' := Insert(dir, id, map[]);
    forall i | 0 <= i < |dir'| ensures dir'[i] == if i < id then dir[i] else if i == id then map[] else dir[i - 1] {
    }
  }

  lemma NameTheGap(dir: seq<Attrs>, id: nat, naming: Entry)
    requires AllNamed(dir) && id <= |dir| && naming.tag.id == id
    requires naming.tag.kind == Name && naming.tag.chunk != 0 && naming.tag.size == |naming.data| != DELETED_SIZE
    ensures Applies(Insert(dir, id, map[]), true, naming)
    ensures Apply(Insert(dir, id, map[]), naming) == Insert(dir, id, map[NameKey := ValueOf(naming)])
    ensures AllNamed(Insert(dir, id, map[NameKey := ValueOf(naming)]))
  {
  }

  lemma SortedNext(log: seq<Entry>, e: Entry)
    requires SortedThroughout(log) && Sorted(Replay(log + [e]))
    requires forall k :: 0 <= k <= |log| ==> ReplayTo(log + [e], k) == ReplayTo(log, k)
    ensures SortedThroughout(log + [e])
  {
    forall k | 0 <= k <= |log + [e]| ensures Sorted(ReplayTo(log + [e], k)) {
      assert k <= |log| ==> Sorted(ReplayTo(log, k));
    }
  }

  // ----- scanning a block -----

  /** What a scan meets: a tag with its data, or a CRC tag and whether it fits. */
  datatype Scanned = Tagged(entry: Entry) | Checksum(entry: Entry, ok: bool)

  predicate Damaged(item: Scanned) {
    item.Checksum? && !item.ok
  }

  ghost predicate ChecksumsAreCrcs(items: seq<Scanned>) {
    forall i :: 0 <= i < |items| && items[i].Checksum? ==> items[i].entry.tag.kind == Crc
  }

  /** The tags of the first k items. */
  ghost function TagsTo(items: seq<Scanned>, k: nat): (log: seq<Entry>)
    requires k <= |items|
  {
    if k == 0 then [] else TagsTo(items, k - 1) + [items[k - 1].entry]
  }

  /** The first k items end a commit, and no commit up to there is damaged. */
  ghost predicate CommitAt(items: seq<Scanned>, k: nat)
    requires k <= |items|
  {
    k > 0 && items[k - 1].Checksum? && forall i :: 0 <= i < k ==> !Damaged(items[i])
  }

  /** `off` is the end of the last good commit, or zero. */
  ghost predicate LastCommit(items: seq<Scanned>, off: nat) {
    off <= |items| && (off > 0 ==> CommitAt(items, off)) &&
    forall k :: off < k <= |items| ==> !CommitAt(items, k)
  }

  /** The number of entries as the scan counts them. */
  function CountTag(count: int, t: Tag): int {
    if t.kind == Name then (if t.id >= count then t.id + 1 else count)
    else if t.kind == Splice then count + SpliceBy(t)
    else count
  }

  function CountTo(log: seq<Entry>, k: nat): (count: int)
    requires k <= |log|
  {
    if k == 0 then 0 else CountTag(CountTo(log, k - 1), log[k - 1].tag)
  }

  ghost predicate LastOfKind(log: seq<Entry>, k: nat, i: nat, kind: Kind)
    requires i < k <= |log|
  {
    log[i].tag.kind == kind && forall j :: i < j < k ==> log[j].tag.kind != kind
  }

  /** The last tail tag. */
  function TailTo(log: seq<Entry>, k: nat): (tail: Option<Entry>)
    requires k <= |log|
  {
    if k == 0 then None
    else if log[k - 1].tag.kind == Tail then Some(log[k - 1])
    else TailTo(log, k - 1)
  }

  lemma {:induction false} TailIsLast(log: seq<Entry>, k: nat)
    requires k <= |log|
    ensures match TailTo(log, k)
      case None => forall i :: 0 <= i < k ==> log[i].tag.kind != Tail
      case Some(e) => exists i :: 0 <= i < k && log[i] == e && LastOfKind(log, k, i, Tail)
  {
    if k > 0 {
      TailIsLast(log, k - 1);
      if log[k - 1].tag.kind == Tail {
        assert LastOfKind(log, k, k - 1, Tail);
      } else if TailTo(log, k - 1).Some? {
        var i :| 0 <= i < k - 1 && log[i] == TailTo(log, k - 1).value && LastOfKind(log, k - 1, i, Tail);
        assert LastOfKind(log, k, i, Tail);
      }
    }
  }

  /** What a scan keeps track of. */
  datatype Summary = Summary(count: int, best: Best, tail: Option<Entry>)

  function Summarize(log: seq<Entry>, name: seq<Byte>): Summary {
    Summary(CountTo(log, |log|), SearchTo(log, |log|, name), TailTo(log, |log|))
  }

  function ScanTag(s: Summary, e: Entry, name: seq<Byte>): Summary {
    Summary(CountTag(s.count, e.tag), SearchTag(s.best, e, name), if e.tag.kind == Tail then Some(e) else s.tail)
  }

  lemma {:induction false} SummaryPrefix(log: seq<Entry>, e: Entry, k: nat, name: seq<Byte>)
    requires k <= |log|
    ensures CountTo(log + [e], k) == CountTo(log, k)
    ensures SearchTo(log + [e], k, name) == SearchTo(log, k, name)
    ensures TailTo(log + [e], k) == TailTo(log, k)
  {
    if k > 0 { SummaryPrefix(log, e, k - 1, name); }
  }

  lemma SummarizeNext(log: seq<Entry>, e: Entry, name: seq<Byte>)
    ensures Summarize(log + [e], name) == ScanTag(Summarize(log, name), e, name)
  {
    SummaryPrefix(log, e, |log|, name);
  }

  lemma CrcsIgnored(s: Summary, e: Entry, name: seq<Byte>)
    requires e.tag.kind == Crc
    ensures ScanTag(s, e, name) == s
  {
  }

  lemma CountedApply(dir: seq<Attrs>, spliced: bool, e: Entry)
    requires Applies(dir, spliced, e)
    ensures |Apply(dir, e)| == CountTag(|dir|, e.tag)
  {
  }

  lemma {:induction false} CountIsLength(log: seq<Entry>, k: nat)
    requires WellFormed(log) && k <= |log|
    ensures CountTo(log, k) == |ReplayTo(log, k)|
  {
    hide Apply, Applies, CountTag, WellFormed, SplicedBefore;
    if k > 0 {
      CountIsLength(log, k - 1);
      AppliesAt(log, k - 1);
      CountedApply(ReplayTo(log, k - 1), SplicedBefore(log, k - 1), log[k - 1]);
    }
  }

  /** The scan of one block in `lfs_dir_fetchmatch`: what it has seen counts only
      once a good checksum follows. */
  method Scan(items: seq<Scanned>, name: seq<Byte>) returns (off: nat, found: Summary)
    requires ChecksumsAreCrcs(items)
    ensures LastCommit(items, off) && found == Summarize(TagsTo(items, off), name)
  {
    off := 0;
    found := Summary(0, NoBest, None);
    var temp := found;
    var i := 0;
    while i < |items| && !Damaged(items[i])
      invariant i <= |items| && forall j :: 0 <= j < i ==> !Damaged(items[j])
      invariant off <= i && (off > 0 ==> CommitAt(items, off)) && forall k :: off < k <= i ==> !CommitAt(items, k)
      invariant temp == Summarize(TagsTo(items, i), name)
      invariant found == Summarize(TagsTo(items, off), name)
    {
      SummarizeNext(TagsTo(items, i), items[i].entry, name);
      if items[i].Checksum? {
        CrcsIgnored(temp, items[i].entry, name);
        found := temp;
        off := i + 1;
      } else {
        temp := ScanTag(temp, items[i].entry, name);
      }
      i := i + 1;
    }
  }

  // ----- the result -----

  datatype FindResult = Corrupt | Match(id: nat) | Absent(id: nat) | Past(id: nat)

  /** The names of a directory in which nothing is smaller left of id. */
  ghost predicate NowhereIn(dir: seq<Attrs>, name: seq<Byte>) {
    forall i :: 0 <= i < |dir| && Searchable(dir[i]) ==> NameOf(dir[i]) != name
  }

  ghost predicate Finds(dir: seq<Attrs>, count: nat, name: seq<Byte>, r: FindResult) {
    match r
    case Match(id) => id < |dir| && Searchable(dir[id]) && NameOf(dir[id]) == name
    case Absent(id) =>
      id < count && id <= |dir| && SplitsAt(dir, id, name) && NowhereIn(dir, name) &&
        (id < |dir| ==> Searchable(dir[id]))
    case Past(id) => id == count && SplitsAt(dir, id, name) && NowhereIn(dir, name)
    case Corrupt => false
  }

  /** Hiding an entry whose move is pending acts on the search like deleting it. */
  lemma HideMeans(dir: seq<Attrs>, best: Best, name: seq<Byte>, moved: nat)
    requires Sorted(dir) && Means(dir, best, name) && moved < |dir| && AllNamed(dir)
    ensures Means(Hide(dir, Some(moved)), SpliceBest(best, Tag(Splice, DELETE, moved, 0)), name)
  {
    SpliceMeans(dir, true, Entry(Tag(Splice, DELETE, moved, 0), []), best, name);
  }

  lemma MeansFinds(dir: seq<Attrs>, count: nat, best: Best, name: seq<Byte>)
    requires Means(dir, best, name) && |dir| <= count
    ensures Finds(dir, count, name, ResultOf(best, count))
  {
    forall i | 0 <= i < |dir| && Searchable(dir[i])
      ensures Before(NameOf(dir[i]), name) || Before(name, NameOf(dir[i])) ==> NameOf(dir[i]) != name
    {
      CompareEqual(NameOf(dir[i]), name);
    }
  }

  function ResultOf(best: Best, count: nat): FindResult {
    match best
    case NoBest => Past(count)
    case Best(valid, _, id) => if valid then Match(id) else if id < count then Absent(id) else Past(count)
  }

  /** `lfs_dir_fetchmatch` on the block it settles for, with the name match of
      `lfs_dir_find`. */
  method FetchMatch(items: seq<Scanned>, moved: Option<nat>, name: seq<Byte>) returns (r: FindResult, off: nat)
    requires ChecksumsAreCrcs(items)
    requires forall k :: LastCommit(items, k) ==> var log := TagsTo(items, k);
      Orderly(log) &&
      (moved.Some? ==> k > 0 ==> moved.value < |Replay(log)|)
    ensures LastCommit(items, off)
    ensures if off == 0 then r == Corrupt
      else var dir := Replay(TagsTo(items, off)); Finds(Hide(dir, moved), |dir|, name, r)
  {
    var found;
    off, found := Scan(items, name);
    if off == 0 {
      return Corrupt, 0;
    }
    ghost var log := TagsTo(items, off);
    SearchMeans(log, |log|, name);
    CountIsLength(log, |log|);
    var best := found.best;
    if moved.Some? {
      HideMeans(Replay(log), best, name, moved.value);
      best := SpliceBest(best, Tag(Splice, DELETE, moved.value, 0));
    }
    MeansFinds(Hide(Replay(log), moved), found.count, best, name);
    r := ResultOf(best, found.count);
  }
}
