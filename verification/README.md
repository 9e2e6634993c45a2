# littlefs, modelled and verified

This project models the file system engine of the repository, the vendored littlefs in
`src/lfs/lfs.c` with its helpers, the RAM device under it and the path normalization on top
of it, and proves what these promise each other. It is checked with
`dafny verify dfyconfig.toml`.

The model is in layers, each proved on its own and then used by the next.

| layer | modules | in short |
|---|---|---|
| arithmetic | `Bits`, `Bytes`, `Crc` | the bit tricks of the index formula, wrapping revisions, XOR, words in bytes, the CRC |
| device and caches | `BlockCache` | read and program caches in front of a flat RAM device refine that device |
| skip list and files | `CtzIndex`, `SkipList`, `File` | the index formula, find, extend and traverse; reading, writing, flushing and seeking refine a byte sequence |
| allocator | `Alloc` | a ring window, a bitmap and a count, against the set of blocks in use |
| metadata log | `MetaLog`, `Search`, `Ordering`, `BlockSearch` | forward replay as the meaning of a log; backward lookup and one-pass search agree with it, on every log that commits and compactions write and on the bytes of a pair |
| compaction | `Traverse`, `Compaction`, `Redundancy`, `Split`, `Renames` | the traversal with an explicit stack against its recursion; compacting, appending and splitting preserve the meaning, and what is compacted is the attributes of the directory, each once |
| commits as bytes | `CommitCodec`, `PairCrash` | XOR-chained tags and CRC padding, written through the program cache; and verified; a commit cut short at any byte leaves the old or the new directory, tail and global state |
| directories | `Gstate`, `Chain`, `Tree`, `Commit`, `Fs`, `RenameViews`, `Failures` | global state as XOR of deltas, the list of pairs, and what can be reached from the root; rename, mkdir, remove and the repairs at every point where power may be lost or a commit is refused |
| open handles, paths | `Handles`, `Path` | handles follow their entries; path lookup against a stack |

`Wrappers` holds the type of a value that may be missing.

`Replay` (module `MetaLog`) is the notion the metadata layers share: the directory that a log
of tags stands for, as a sequence of entries with one name, one structure and user attributes.
`Meaning` (module `Compaction`) extends it to pending attribute lists, with moves and lists of
user attributes; a pair commits such a list either by appending to its log or by rewriting it,
and both replay to the same.

In module `Fs` the disk is a map from metadata pairs to their contents. The ghost field `cells`
is the list of pairs that the tails thread, and the ghost field `trace` records that list after
every commit. An operation's contract speaks of the whole trace: each state in it can be
recovered from and shows the view before the operation or the view after it. Operations also take
the number of commits that succeed before one is refused, as when there is no room, and say
exactly when the state in memory is then one that the next operation can go on from. A view says for
each pair which directory it is part of and what entries it has, so it also says which
directories can be reached from the root (`Tree.Rooted`).

Nine things did not turn out as documented or intended; the model follows the code.

- The one-step correction of `lfs_ctz_index` is exact for files up to the largest size if and
  only if blocks have at least 112 bytes. The assertion in `lfs_init` admits 104
  (`CtzIndex.ExactIffBlockSize112`, `CtzIndex.AcceptedFrom104`); `CtzIndex.Wrong104` is a
  configuration that is accepted and a position for which the formula is wrong.
- The shortcut of `lfs_file_rawseek` leaves the wrong block current if and only if the last read
  ended exactly at the end of a block; `File.StaleSeekReadsWrongByte` shows a file where the next
  read returns a wrong byte.
- `lfs_dir_splittingcompact` leaves 36 bytes for what goes with the entries of a piece, but a
  tail and global state need 40. A piece that was accepted always fits if and only if the other
  limit, half of what metadata may take, is low enough (`Split.CapSuffices`): when a whole number
  of program units lies between that half and 40 bytes less than the whole
  (`Split.CapSufficesUnits`), which for whole units means more than one (`Split.CapSufficesWhole`).
  `Split.DoesNotFit` is a directory of two files that is accepted and does not fit.
- The scan for ".." in `lfs_dir_find` counts "." as a name. The lookups are those of the path's
  meaning if and only if no ".." takes back a "." where it should have left a directory, or the
  walk comes back to the root after the last that did (`Path.VisitedResolves`); "a/./.." is a path
  for which they are not (`Path.DotsMislead`).
- `lfs_rawrename` does not check whether a directory is moved into itself. All directories can
  still be reached after a rename if and only if the directory it moves to is not the moved one
  or below it (`Fs.RenameRooted`). Renaming "/a" to "/a/b" cuts a off, and as its entry still
  refers to it nothing has it repaired (`Failures.IntoItself`).
- The pair that `lfs_rawmkdir` writes before it is linked takes the pending change of the global
  state with it. If the next commit fails, the state that the code takes to be on disk is there
  if and only if nothing was pending (`Fs.Engine.Mkdir`). After a mount something is pending
  exactly when it repaired an orphan, for the orphan count is then cleared in memory only
  (`Fs.Recover`); `Failures.MkdirAfterRecover` puts the two together. In a directory of several pairs
  there is a third commit; if that fails, the new directory stays on the list as an orphan, and the
  count in memory is right if and only if orphans were counted before.
- `lfs_rawrename` prepares a move in memory and does not take it back when the first of its two
  commits is refused. The next commit, to whatever pair, then makes the move pending on disk: the entry
  is gone, and nowhere else (`Failures.RenameThenCommit`), and if it was a file the repair that
  follows deletes it (`Failures.LoseFile`). When the second commit is refused, a commit that comes
  before the repair shows the entry in both places (`Failures.RenameThenSync`).
- `lfs_dir_drop`, and the drop of a pair that a deletion empties, take over what the pair stores of
  the global state before their commit. If that is refused, the sum is right if and only if the
  pair stored nothing (`Commit.StolenConserved`).
- When the handle of a deleted entry lies behind the first pair of a directory that the same
  commit split, its null pair is overwritten, and only then (`Handles.DeletedHandle`). The handle
  then refers to whatever entry has come to the id that was counted on, never to its own
  (`Handles.DeletedRefers`); a sync looks only for the null pair and would commit to that entry.
  `Handles.ReplacedHandle` is an input: a rename onto an open file.

Simplifications that concern everything: numbers are unbounded where the code's 32-bit
arithmetic cannot overflow for files and blocks of the sizes the configuration allows, and
wrapping is written out where it can (revision counts). Block numbers of a metadata pair are
compared in one order. The engine is sequential, as all public entry points share a lock.

## Model

| member | source | states |
|---|---|---|
| Bits.Npw2IsLeast | src/lfs/lfs_util.h:120-142 | the exponent of the smallest power of two that is not below the argument |
| Bits.CtzIsLargest | src/lfs/lfs_util.h:144-152 | powers of two divide the argument exactly up to this exponent |
| Bits.PopcSuccessor | src/lfs/lfs_util.h:154-164 | how the number of one bits changes from a number to the next |
| Bits.AlignUpBounds | src/lfs/lfs_util.h:111-118 | the least multiple of the alignment that is not below the argument |
| Bits.ScmpSuccessor | src/lfs/lfs_util.h:166-169 | an incremented revision compares as newer, also across the 32-bit wrap-around |
| Bits.ScmpIsDifference | src/lfs/lfs_util.h:166-169 | the comparison is the difference of the words as a signed 32-bit number |
| Crc.Crc | src/lfs/lfs_util.c:14-30 | the table-driven loop divides by the polynomial as the bitwise reference does |
| Crc.TableHolds | src/lfs/lfs_util.c:15-20 | every entry of the table is the remainder of its index |
| Crc.AddBytesAppend | src/lfs/lfs_util.c:14-30 | the CRC of a concatenation continues from the CRC of the first part |
| Crc.CheckIsZero | src/lfs/lfs.c:1591-1612 | a CRC followed by its own little-endian bytes comes out as zero, which is what a commit verifies |
| BlockCache.RamDevice.Read | src/lfs-rambd/lfs_rambd.c:80-102 | returns the bytes of the block |
| BlockCache.RamDevice.Prog | src/lfs-rambd/lfs_rambd.c:104-133 | writes within one block and leaves all others alone |
| BlockCache.PatchedBlocks | src/lfs-rambd/lfs_rambd.c:104-133 | blocks of the flat buffer do not overlap |
| BlockCache.LoadFits | src/lfs/lfs.c:105-114 | the window loaded covers the wanted offset, is aligned, and fits in the cache and the block |
| BlockCache.Caches.ReadSome | src/lfs/lfs.c:53-123 | each turn gives bytes as programmed or as on the device, or loads the cache so that the next one does |
| BlockCache.Caches.Read | src/lfs/lfs.c:43-126 | corrupt exactly outside the device; otherwise program-cache bytes where cached and device bytes elsewhere; terminates and keeps the read cache in agreement |
| BlockCache.Caches.Compare | src/lfs/lfs.c:129-152 | how the bytes compare as `memcmp` has it, found eight at a time, or nothing for a block outside the device |
| BlockCache.Caches.Flush | src/lfs/lfs.c:155-189 | writes the program cache up to a whole program unit, changes no other block, and re-establishes agreement when validating |
| BlockCache.Caches.Sync | src/lfs/lfs.c:192-205 | the same with the read cache dropped, so that it agrees without validating |
| BlockCache.Caches.Prog | src/lfs/lfs.c:208-252 | these bytes become the contents as seen through the program cache; what lies between them and what was programmed before may become anything, everything else stays |
| BlockCache.WrittenMeans | src/lfs/lfs.c:155-189 | a flush leaves what was programmed and changes less than a program unit behind it |
| CtzIndex.Index | src/lfs/lfs.c:2724-2735 | the block and offset of a byte in the layout where each block starts with its pointers |
| CtzIndex.PlaceIsUnique | src/lfs/lfs.c:2724-2735 | that layout has one place for every byte |
| CtzIndex.FormulaCorrects | src/lfs/lfs.c:2724-2735 | the one-step popcount correction finds the place |
| CtzIndex.NothingUnderflows | src/lfs/lfs.c:2724-2735 | no subtraction of the formula goes below zero |
| CtzIndex.ExactIffBlockSize112 | src/lfs/lfs.c:2724-2735 | the formula is exact for all sizes up to the largest file exactly when blocks have at least 112 bytes |
| CtzIndex.AcceptedFrom104 | src/lfs/lfs.c:4031-4033 | the configuration check admits exactly the blocks from 104 bytes on, up to 2 GiB |
| CtzIndex.Wrong104 | src/lfs/lfs.c:4031-4033 | a configuration that it admits, and a position in its files for which the formula is wrong |
| CtzIndex.WrongBelow112 | src/lfs/lfs.c:2724-2735 | below 112 bytes there is a position for which it is wrong |
| SkipList.Find | src/lfs/lfs.c:2737-2765 | the block and offset of a position, in at most twice the bit length of the start index hops |
| SkipList.Walk | src/lfs/lfs.c:2749-2761 | the hops follow the longest pointer that does not overshoot |
| SkipList.FollowPointer | src/lfs/lfs.c:2749-2761 | pointer k of block i leads to block i - 2^k |
| SkipList.Extend | src/lfs/lfs.c:2769-2865 | the new last block: a chain with all old blocks untouched and the same bytes |
| SkipList.WritePointers | src/lfs/lfs.c:2826-2856 | all pointers of the new block, each to where the invariant wants it |
| SkipList.AppendedChain | src/lfs/lfs.c:2826-2856 | a block with these pointers keeps the invariant |
| SkipList.CopiedChain | src/lfs/lfs.c:2795-2824 | so does a copy of the last, incomplete block |
| SkipList.Traverse | src/lfs/lfs.c:2868-2908 | visits each block of the file exactly once |
| File.Handle.StartBlock | src/lfs/lfs.c:3418-3462 | a block with room at the position, its contents and those of the file unchanged |
| File.Handle.FlushedWrite | src/lfs/lfs.c:3415-3510 | the bytes replace those at the position, as far as there was space |
| File.Handle.FlushedRead | src/lfs/lfs.c:3334-3395 | the bytes of the file from the position on, up to its end |
| File.Handle.Flush | src/lfs/lfs.c:3197-3279 | the contents stay and become the stored version; on an error they stay as they were for the user |
| File.Handle.CopyRest | src/lfs/lfs.c:3213-3240 | the stored bytes behind the position are copied to the version being written |
| File.Handle.Read | src/lfs/lfs.c:3397-3412 | reading is taking bytes of the sequence at the position; no space only when what was being written had to be flushed and no block is free |
| File.Handle.Write | src/lfs/lfs.c:3512-3554 | writing is overwriting at the position, at the end when appending, behind zeros when the file is too short; too large exactly beyond the limit, no space only when no block is free and something is left to write; every block that is taken is used |
| File.WrittenCompletely | src/lfs/lfs.c:3527-3545 | all written is an overwrite of the zero-filled contents |
| File.Handle.Seek | src/lfs/lfs.c:3557-3617 | the new position, or invalid out of range; the contents and everything fixed about the file stay, and it can be used on exactly when the block is not stale; no space only when no block is free |
| File.Handle.PerformAll | src/lfs/lfs.c:3197-3617 | any run of reads, writes, seeks and flushes answers as the byte sequence does and leaves its bytes, up to the first for which no block is free or that seeks to a stale block; no operation wastes a block |
| File.CachedSeekExact | src/lfs/lfs.c:3581-3601 | the shortcut leaves a file that can be read on exactly when the last read did not end at the end of a block |
| File.StaleSeekReadsWrongByte | src/lfs/lfs.c:3581-3601 | a file for which the next read takes a wrong byte |
| File.SyncedVersionSurvives | src/lfs/lfs.c:3197-3279 | whatever runs after a sync, also when blocks become free again in between, the blocks of the synced version keep their bytes |
| Alloc.WrapIsMod | src/lfs/lfs.c:525-526 | the modulo of the ring is one subtraction |
| Alloc.LookAt | src/lfs/lfs.c:552-573 | the next block looked at was not looked at since the ack, and is not in use when its bit is clear |
| Alloc.MoveOn | src/lfs/lfs.c:583-590 | the window moves without skipping or repeating a block |
| Alloc.LinkHanded | src/lfs/lfs.c:535-539 | blocks that were handed out may come into use without making the window wrong |
| Alloc.AllLookedAt | src/lfs/lfs.c:576-581 | when the count is used up every block was looked at exactly once |
| Alloc.Allocator.Scan | src/lfs/lfs.c:523-533 | the bits of the window are those of the blocks the traversal reports |
| Alloc.Allocator.Ack | src/lfs/lfs.c:539 | starts a new count |
| Alloc.Allocator.Drop | src/lfs/lfs.c:543-547 | empties the window |
| Alloc.Allocator.Alloc | src/lfs/lfs.c:550-599 | a block that is neither in use nor handed out since the ack; no space only after every block was looked at exactly once and each was handed out or in use at some time since the window was last dropped; a failed traversal drops the window, and only a traversal that is needed can fail |
| MetaLog.AppendTag | src/lfs/lfs.c:1146-1165 | a tag that applies keeps a log well-formed and changes the directory by its effect |
| MetaLog.StepBack | src/lfs/lfs.c:630-660 | what a tag says about an attribute in terms of the directory before it |
| MetaLog.HideShifts | src/lfs/lfs.c:610-615 | the id offset for a pending move is a lookup in the directory without the moved entry |
| MetaLog.GetSlice | src/lfs/lfs.c:602-663 | the backward walk returns what replay gives for the entry, or that there is nothing, also with a move pending; with the mask of files and directories it passes over a superblock |
| MetaLog.WalkBack | src/lfs/lfs.c:618-662 | its loop, with the running id offset |
| Search.CompareEqual | src/lfs/lfs.c:1325-1346 | names compare as equal exactly when they are |
| Search.BeforeIff | src/lfs/lfs.c:1325-1346 | a name comes before another exactly when it goes on where the other ends, or has the smaller byte where they first differ |
| Search.CompareSwaps | src/lfs/lfs.c:1325-1346 | the comparison is antisymmetric |
| Search.BeforeTransitive | src/lfs/lfs.c:1325-1346 | the order of names, a common prefix bytewise and then the longer first, is transitive |
| Search.SearchMeans | src/lfs/lfs.c:1146-1212 | over any history the best tag is the live id of the name, or where it belongs |
| Search.HideMeans | src/lfs/lfs.c:1221-1231 | a pending move acts on the search like a deletion |
| Search.CountIsLength | src/lfs/lfs.c:1146-1154 | the count is the number of entries |
| Search.TailIsLast | src/lfs/lfs.c:1168-1186 | the tail of a log is the last one in it |
| Search.Scan | src/lfs/lfs.c:1033-1216 | what is kept is what was found up to the last good commit |
| Search.FetchMatch | src/lfs/lfs.c:998-1254 | over the tags of a block: the live id of the name, or the id at which inserting keeps the order, within or behind the pair |
| Search.InsertKeepsSorted | src/lfs/lfs.c:1325-1346 | inserting there keeps the directory ordered |
| Search.CreateKeepsOrderly | src/lfs/lfs.c:2553-2563 | creating an entry there keeps the whole history one that can be searched |
| BlockSearch.SearchesFetched | src/lfs/lfs.c:1033-1216 | the tags that a search settles for in the bytes of a block are the log that a fetch finds |
| BlockSearch.FindInPair | src/lfs/lfs.c:998-1254 | on the bytes of both blocks: the name, or its place, in the directory that a fetch of the pair finds; corrupt when neither block has a good commit |
| Ordering.PlainIsOrderly | src/lfs/lfs.c:1836-1843 | a log without splices can be searched if what it replays to is ordered, in whichever order it names the entries |
| Ordering.CompactIsOrderly | src/lfs/lfs.c:1836-1849 | so what compaction writes can be searched |
| Ordering.CommitIsOrderly | src/lfs/lfs.c:2103-2118 | what a commit appends keeps the log one that can be searched when the directory is ordered after each of its attributes |
| Ordering.FoundIsPlace | src/lfs/lfs.c:1237-1253 | what the search finds is a place for the name as the next members want it |
| Ordering.CreateIsOrderly | src/lfs/lfs.c:2960-2972 | a new entry there with structure and attributes: the appended and the compacted log can be searched |
| Ordering.DeleteIsOrderly | src/lfs/lfs.c:3762-3766 | so can they after a removal |
| Ordering.UpdateIsOrderly | src/lfs/lfs.c:3317-3325 | and with new structures and attributes of entries that are there |
| Ordering.RenameIsOrderly | src/lfs/lfs.c:3881-3894 | and after a rename, within a pair or from another |
| Traverse.FilterByFilters | src/lfs/lfs.c:738-765 | filtering changes nothing of a tag but its id, or makes it a no-op |
| Traverse.FetchKeeps | src/lfs/lfs.c:813-878 | taking the next tag, pushing a filter and popping do what the recursion does, with at most two traversals suspended |
| Traverse.HandleKeeps | src/lfs/lfs.c:880-968 | so do filtering, following a move and emitting |
| Traverse.StepLowers | src/lfs/lfs.c:813-995 | every step makes progress |
| Traverse.Traverse | src/lfs/lfs.c:797-995 | emits what the recursion emits, or stops without space exactly when that takes too much |
| Compaction.EmitsKept | src/lfs/lfs.c:813-968 | a filtering traversal emits the tags that no later item makes redundant, with the ids that later splices give them |
| Compaction.SieveMeans | src/lfs/lfs.c:738-765 | filtering by one item changes only what that item speaks of |
| Compaction.KeptMeans | src/lfs/lfs.c:738-995 | what is kept says what the directory holds, each name before its attributes |
| Compaction.AddMove | src/lfs/lfs.c:899-943 | following a move emits all attributes of the source entry but its name |
| Compaction.CompactKeepsMeaning | src/lfs/lfs.c:1836-1843 | what compaction writes for the entries in a range replays to exactly these entries, renumbered, and is well-formed |
| Compaction.CommitKeepsMeaning | src/lfs/lfs.c:2103-2118 | the log with what is appended replays to the log with the pending attributes |
| Compaction.Compact | src/lfs/lfs.c:1836-1849 | the traversal with the commit callback, to an empty block: fits exactly when what it writes takes no more than the room |
| Compaction.Append | src/lfs/lfs.c:2103-2118 | the traversal with the commit callback, behind the log |
| Redundancy.CompactDrops | src/lfs/lfs.c:738-765 | compacting a log with attributes behind it writes no attribute twice, and a removal only when that is the last that was said |
| Redundancy.CompactLists | src/lfs/lfs.c:1836-1843 | what it writes is one entry for each attribute of the directory in the range, with its value, and no other |
| Redundancy.RenameDrops | src/lfs/lfs.c:3881-3894 | no attribute twice when the list is that of a rename, with what the move takes from the source |
| Redundancy.CommitWrites | src/lfs/lfs.c:2103-2118 | a commit appends the tags of its list as they are |
| Split.CapSuffices | src/lfs/lfs.c:1977-1990 | every accepted piece fits beside a tail and global state exactly when the cap leaves 40 bytes |
| Split.CapSufficesUnits | src/lfs/lfs.c:1977-1990 | that is when a whole number of program units lies between half of what metadata may take and 40 bytes less than all of it |
| Split.CapSufficesWhole | src/lfs/lfs.c:1977-1990 | where metadata takes whole program units, when there is more than one |
| Split.FitsIff | src/lfs/lfs.c:1804-1896 | what fits is what takes, with the revision count, the tags of a tail and of global state, and a CRC tag, no more than metadata may |
| Split.DoesNotFit | src/lfs/lfs.c:1977-1990 | a well-formed directory in a block of one program unit that is accepted whole and does not fit beside a tail and global state |
| Split.JoinedIsWhole | src/lfs/lfs.c:1695-1727 | consecutive pieces make up the directory |
| Split.AlongIsJoined | src/lfs/lfs.c:1695-1727 | and so does following the hard tails from the first pair |
| Split.FindSplit | src/lfs/lfs.c:1965-1994 | halving until the rest is accepted, and not once more: twice as many entries were too many or took too much; no split exactly when everything is accepted |
| Split.SplittingCompact | src/lfs/lfs.c:1954-2015 | consecutive pieces in different pairs, each accepted or the first after an allocation failed, with tails that lead from one to the next and from the last to where the directory went on, that replay to the whole directory and fit beside their tails; those of several entries have less than 255 and leave room in the block, and behind the first none is smaller than halving makes it; one piece when the entries are neither too many nor take too much; success when blocks are there and single entries fit; a directory accepted whole succeeds exactly when it fits beside the tail and global state |
| Renames.RenameMeans | src/lfs/lfs.c:3881-3894 | the attribute list of a rename places the entry with all its attributes under the new name; within one pair it changes nothing but the name |
| Renames.DeleteMeans | src/lfs/lfs.c:3762-3766 | the attribute list of a removal takes out the entry |
| Renames.RenameCommits | src/lfs/lfs.c:2080-2175 | a rename replays to the same whether appended or compacted |
| RenameViews.RenameIsLogged | src/lfs/lfs.c:3877-3912 | the entries seen in a pair after `Fs.Engine.Rename` are what the attribute list makes of its log |
| RenameViews.RemoveIsLogged | src/lfs/lfs.c:3762-3766 | and those after an entry was removed |
| CommitCodec.TagRoundTrip | src/lfs/lfs.c:303-350 | the fields of a tag are read back from its word, whatever the top bit |
| CommitCodec.TypeIs | src/lfs/lfs.h:92-127 | the type in the word of a tag is the number that the format gives it |
| CommitCodec.CheckOfNothing | src/lfs/lfs.c:1046-1047 | the CRC over a commit starts with all bits set |
| CommitCodec.Writer.Revision | src/lfs/lfs.c:1824-1834 | a block that is begun with a revision count holds an empty log |
| CommitCodec.Writer.Attr | src/lfs/lfs.c:1478-1522 | programmed through the cache, the entry is in the block behind the log, or there was no room |
| CommitCodec.Writer.Footer | src/lfs/lfs.c:1536-1580 | one CRC tag, odd exactly when the word behind it has its top bit clear; the padding in front of it and behind it may become anything |
| CommitCodec.Writer.Footers | src/lfs/lfs.c:1534-1580 | CRC tags exactly where the padding rule wants them, and the sum in front of the first |
| CommitCodec.Writer.Finish | src/lfs/lfs.c:1526-1621 | after the flush the device has the log with CRC tags exactly up to the aligned end, nothing in front of it or behind the end has changed, a scan stops there, and the verification passes |
| CommitCodec.Writer.Verify | src/lfs/lfs.c:1588-1621 | the verify loop over the device, byte by byte: corrupt exactly when a sum is not zero, or the first is not the one that was written |
| CommitCodec.VerifiedIff | src/lfs/lfs.c:1588-1621 | it passes exactly when the first sum is the one written and the sums behind it and behind every further CRC tag are zero |
| CommitCodec.SumIsZero | src/lfs/lfs.c:1591-1612 | behind every CRC of a stored log the sum since the one before is zero |
| CommitCodec.WrittenVerifies | src/lfs/lfs.c:1588-1621 | what was written passes the verification, whose rounds are at the CRC tags |
| CommitCodec.ScanThrough | src/lfs/lfs.c:1033-1216 | the forward scan goes through a stored log entry by entry |
| CommitCodec.FetchFinds | src/lfs/lfs.c:1033-1216 | a fetch finds a stored log that ends with a commit and is not continued |
| CommitCodec.FetchChecks | src/lfs/lfs.c:1033-1126 | whatever the bytes are: all that a fetch finds was read at its place under the XOR chain, up to a CRC tag, and every CRC is that over its commit |
| CommitCodec.FetchBlock | src/lfs/lfs.c:1033-1216 | the loop, adding up the CRC as it goes |
| CommitCodec.FlippedBit | src/lfs/lfs.c:1543-1578 | the flipped bit stops the scan right behind the last commit whatever bytes follow |
| CommitCodec.WalkBack | src/lfs/lfs.c:617-662 | the backward walk visits the same entries in exact reverse |
| PairCrash.WriteCommit | src/lfs/lfs.c:2087-2175 | what the caches write to the device is a commit in the sense of the next members, whatever becomes of the padding; it gets there exactly when its entries fit before the end |
| PairCrash.StateIsLast | src/lfs/lfs.c:1265-1282 | the stored state of a log is the last one in it |
| PairCrash.CrcsMeanNothing | src/lfs/lfs.c:1078-1126 | CRC tags change neither the directory nor the tail nor the global state of a log |
| PairCrash.AppendIsAtomic | src/lfs/lfs.c:2087-2175 | an append cut short at any byte leaves exactly the old log, and that with the commit exactly from the first complete CRC on: entries, tail and stored global state change together; CRCs are idealised for cuts inside the commit only |
| PairCrash.FetchPair | src/lfs/lfs.c:1012-1250 | the block with the newer revision, the first when they are the same, or else the other one; corrupt exactly when neither ends in a commit |
| PairCrash.CompactIsAtomic | src/lfs/lfs.c:1770-1917 | the same for a compaction into the other block, also when the revision count wraps around |
| Gstate.XorAssociates | src/lfs/lfs.c:368-372 | the sum of deltas does not depend on grouping |
| Gstate.XorReplaces | src/lfs/lfs.c:368-372 | a change to one delta is a change to the sum |
| Gstate.PrepMoveMeans | src/lfs/lfs.c:4561-4569 | sets or clears the pending move and nothing else |
| Gstate.PrepOrphansMeans | src/lfs/lfs.c:4549-4557 | counts orphans, with the bit set exactly when there are any |
| Chain.UpdateScan | src/lfs/lfs.c:2055-2175 | other entries in one pair change the view of that pair only |
| Chain.UnlinkScan | src/lfs/lfs.c:1672-1691 | unlinking an empty pair changes nothing that is seen |
| Chain.LinkScan | src/lfs/lfs.c:2509-2563 | linking a new pair changes nothing that is seen |
| Chain.HeadIff | src/lfs/lfs.c:4621-4622 | directories start behind soft tails, each once |
| Chain.MoveLacks | src/lfs/lfs.c:3877-3912 | moving an entry keeps every directory referred to once, but for one that was replaced |
| Tree.GraftedIff | src/lfs/lfs.c:3796-3912 | moving a directory keeps all within reach of the root exactly when it is not moved to itself or below; else it cannot be reached |
| Tree.ReachedIff | src/lfs/lfs.c:4604-4650 | the directories on the list that entries refer to are those that can be reached, when all that have entries can |
| Commit.CommitUpdates | src/lfs/lfs.c:2120-2161 | a commit leaves as the sum over the list the global state as it should be |
| Commit.CommitUnlinks | src/lfs/lfs.c:1672-1691 | so does dropping a pair, whose delta is taken over |
| Commit.CommitLinks | src/lfs/lfs.c:2509-2563 | so does linking a new pair, whose delta counts from then on |
| Commit.StolenConserved | src/lfs/lfs.c:1672-1691 | after a refused drop the sum is the state on disk as the code knows it exactly when the pair stored nothing |
| Fs.SumOf | src/lfs/lfs.c:4214-4331 | a mount adds up what the pairs on the list store |
| Fs.Engine.constructor | src/lfs/lfs.c:4327-4348 | the state after a mount is that sum, with one orphan if the bit is set |
| Fs.Engine.Pred | src/lfs/lfs.c:4466-4491 | the pair whose tail leads to the given one; not found exactly when it is not on the list, and unset for the root |
| Fs.Engine.HasParent | src/lfs/lfs.c:4521-4545 | whether an entry on the list refers to the directory |
| Fs.Engine.DeleteEntry | src/lfs/lfs.c:2061-2090 | the entry goes; a pair that becomes empty and continues a directory is dropped instead; refused, all stays but that the state of a pair to be dropped is taken over |
| Fs.Engine.Demove | src/lfs/lfs.c:4572-4600 | completes an interrupted move without a change to what is seen; refused, the state can be gone on from exactly when no state was taken over that is not zero |
| Fs.Engine.Deorphan | src/lfs/lfs.c:4604-4747 | afterwards every directory on the list is referred to once, with the same to be seen at every point; the list is the tree if all directories with entries could be reached before; with room for fewer commits than orphans, exactly when the state taken over from the next was zero can it be gone on from |
| Fs.Engine.ForceConsistency | src/lfs/lfs.c:4751-4763 | both, with as many commits as there are moves and orphans |
| Fs.Recover | src/lfs/lfs.c:4208-4357 | from every state an operation goes through: mounting and repairing gives a consistent file system in which the same is seen and reached; a change of the global state is left pending exactly when there were orphans |
| Fs.TreeIff | src/lfs/lfs.c:4604-4650 | with nothing to repair, the directories on the list are those that can be reached exactly when all that have entries can |
| Fs.DetachedHasBit | src/lfs/lfs.c:4604-4607 | in a sound state a directory on the list that cannot be reached is there only when the orphan bit is set, when all that have entries can be reached |
| Failures.OrphanList | src/lfs/lfs.c:4604-4650 | a sound list with an orphan |
| Failures.MkdirAfterRecover | src/lfs/lfs.c:2500-2530 | after any recovery that found an orphan, a mkdir out of room at its second commit leaves the state on disk other than the code takes it for |
| Fs.Engine.RemoveEntry | src/lfs/lfs.c:3714-3792 | not empty exactly for directories with something in them; otherwise the entry goes at once, at every point it is there or not, a directory ends up neither in the tree nor on the list, and all others can be reached as before; refused its first commit, all is as before, and the state can be gone on from exactly when no state was taken over or a zero one; refused its second, exactly when orphans were counted before and the directory stored nothing |
| Fs.Engine.Mkdir | src/lfs/lfs.c:2471-2568 | at every point the directory is there or not, everything that could be reached still can, and a directory on the list without an entry has the bit on disk; a failing commit leaves the same to be seen, and a state to go on from exactly when it was the first, or the second with no change of the global state pending, or the third with orphans counted before |
| Fs.Engine.MoveAcross | src/lfs/lfs.c:3877-3912 | between the two commits, and after them, the entry is seen in its new place only |
| Fs.Engine.Rename | src/lfs/lfs.c:3796-3935 | the result codes, and at every point the old view or the one in which the entry is in its new place with the new name, its other attributes and its directory, what it replaced is gone and all else is as it was; all directories can still be reached exactly when none is moved into itself or below; refused a commit, exactly when the state can be gone on from: after none, within one pair; after the first of a move between pairs, when no state was taken over or a zero one; before the drop, when orphans were counted and the directory stored nothing |
| Fs.RenameRooted | src/lfs/lfs.c:3796-3912 | that condition, in terms of the list before the rename |
| Failures.RenameThenCommit | src/lfs/lfs.c:3876-3896 | after a rename between pairs that was refused its first commit, a next commit that changes no entries, to any pair, leaves all as it was without the entry |
| Failures.LoseFile | src/lfs/lfs.c:3876-3896 | a file system in which renaming "/f" to "/a/f" loses the file so |
| Failures.RenameThenSync | src/lfs/lfs.c:3898-3912 | after one that was refused its second commit, a next commit that changes no entries and is not the repair has the entry in both places |
| Failures.IntoItself | src/lfs/lfs.c:3796-3912 | the list for which renaming "/a" to "/a/b" cuts a off, with the orphan bit clear |
| Fs.FormattedIsSound | src/lfs/lfs.c:4141-4204 | a root without directories is a state the operations start from, with everything within reach |
| Handles.FollowsEntry | src/lfs/lfs.c:2190-2218 | counting an id through creates and deletes leads to the same entry |
| Handles.LocateFinds | src/lfs/lfs.c:2221-2227 | counting it off along hard tails finds the entry in the pieces of a split |
| Handles.Handle.FollowTags | src/lfs/lfs.c:2188-2219 | the loop over the attributes, with the position of an open directory |
| Handles.Handle.FollowSplit | src/lfs/lfs.c:2221-2227 | the loop along hard tails |
| Handles.FixHandles | src/lfs/lfs.c:2178-2230 | every handle in the pair is moved along, whether or not its entry or that of another was deleted, the one that commits keeps its id, all others stay |
| Handles.FixedIsSame | src/lfs/lfs.c:2178-2230 | a handle whose entry was not deleted refers to the same entry as before |
| Handles.DeletedHandle | src/lfs/lfs.c:2195-2227 | one whose entry was deleted has the null pair exactly when there was no split or its id is not behind the first pair |
| Handles.DeletedRefers | src/lfs/lfs.c:2195-2227 | else it refers to the entry that has come to the id it was counted to, and never to its own |
| Handles.ReplacedHandle | src/lfs/lfs.c:2195-2227 | an input: the open file that a rename replaces, in a pair that the commit splits |
| Path.VisitedIsStack | src/lfs/lfs.c:1366-1401 | the look-ahead for ".." is a stack on which "." is a name, left out in the end |
| Path.VisitedResolves | src/lfs/lfs.c:1366-1401 | that is the meaning of the path exactly when after every ".." that took back a "." and left a directory the stack is empty but for dots again; the lookups are never fewer |
| Path.DotsMislead | src/lfs/lfs.c:1391-1393 | with "." it may not be |
| Path.MatchedBy | src/lfs/lfs.c:1376-1397 | the scan of one name's suffix |
| Path.Find | src/lfs/lfs.c:1361-1447 | the names looked up, as long as they are found |
| Path.Normalize | src/fs/lfs.rs:1604-1628 | the path of the names left by a stack pass, absolute exactly when it was or nothing is left, with single slashes between the names |
| Path.NormalizedMeans | src/fs/lfs.rs:1604-1628 | means the same, has no ".", ".." or empty names, is stable, and is looked up as it means |

## Left out

- Inline files, truncation, user attributes of open files, opening and closing: `File` covers files stored in blocks without device errors. Shrinking a file to an exact block boundary stores a head that readers do not expect, so truncation would not meet the byte-sequence contract there.
- File.Handle.Flush: the metadata commit of a sync is not part of it; `File.SyncedVersionSurvives` concerns the data blocks.
- File.Handle: the fields of an open file are one record field that its methods reassign, and a free block is any of a set; `Alloc` is where blocks come from one by one.
- MetaLog.GetSlice: lookups from the start of an attribute (offset zero); from an offset on the code copies as many bytes as the attribute has, so also some behind it.
- Fs.Engine: looking up paths is not part of its operations; the ids it gets are those a search returns, and whether a name fits is checked before.
- Fs.Engine.DeleteEntry: the root is never dropped here; the code reads an unset flag then, but the root keeps its superblock entry, so no commit empties it.
- Fs.Engine: relocation of bad or worn blocks, superblock expansion and splitting in the middle of an operation; the RAM device never reports a bad block, and `Split` shows that splitting keeps a directory.
- PairCrash.AppendIsAtomic: CRCs are idealised: when a commit is cut inside, what was not written as a commit does not pass for one. The same holds for `CompactIsAtomic`.
- BlockCache.Caches.Prog: calls that go on in the window of the program cache, or behind it without a gap, which is how commits and files program a block; programming again over bytes that the cache holds is not covered, and what a gap becomes is left open. Erasing is a no-op of the RAM device.
- Alloc.Allocator.Alloc: what the traversal of the file system reports is an input; that it reports every block in use is assumed here. The window outlives an ack, so what no space says goes back to the last drop and not to the ack.
- CtzIndex.Index: 32-bit overflow is excluded by the sizes the configuration allows.
- The migration from version 1, byte order conversions, logging and locking of the engine.
- The layers around the engine: the key-value store, the bus, the JavaScript glue, and hard links, timestamps and descriptors in `src/fs/lfs.rs`.
