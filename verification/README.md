# Verified models of the kernel and userspace experiments

A Dafny project that models the algorithmic cores of this repository and proves what they
are for. It covers these components.

- **The packet-dedup chunk cache** (`model/kernel_hash/hash_table.c`, `nf_in.c`,
  `bitmap.c`). Chunks live in a hash table as items with five states. Lookups, a timer for
  each bucket and a write-back worker act on them. `CacheState` has one function for each
  section that runs under a lock, `CacheInv`, `CacheReaders`, `CacheTicks` and
  `CacheWriteBack` show what each section keeps, `CacheRuns`, `CacheTheorems`,
  `CacheLifetime`, `CacheMoves` and `CacheOrigins` draw the conclusions for every
  interleaving, `CacheMeaning` says in numbers what the sections do to each item, and
  `CacheTable` has the program itself: items updated in place, bucket lists, counters and
  bitmaps, each method proved to do what the function of `CacheState` says. `CachePasses`
  and `CacheRelease` take the write-back's first and third sections apart, with lookups and
  read-back between their moves. `Bitmap` is the allocator.
- **`list_sort`** (`model/kernel_hash/sort.c`): `MergeSeq` is the theory of merging and
  of stable sorting on sequences, `ListSort` is the program on linked nodes.
- **bstrlib** (`model/c-skeleton/src/lcthw/bstrlib.c`): `BstrSearch` (the two forward
  searchers), `BstrReplace` and `BstrExpand` (the three in-place rewriting algorithms and
  the memory management under them), `BstrSplit` and `BstrLists` (split and join).
- **Content-defined chunking and the sending side** (`model/kernel_hash/chunk.c`,
  `main.c`, `model/send_module/nf_out.c`, `hash_table.c`): `Chunk`, `ChunkCuts`, `Outbound`.
- **The MPTCP full-mesh path manager** (`test/kernel/mptcp/mptcp_fullmesh.c`):
  `FullmeshBits` (u8 bitfields), `FullmeshEvents` and `FullmeshTable` (the coalescing event
  queue and the tables of local addresses), `FullmeshSubflows` (the two subflow workers).
- **The reference-counted SHA-1 pool** (`model/kernel_hash/sha.c`): `Sha1Pool`; and the
  **word-level bitmaps** (`test/kernel/mmap/test.c`): `WordBitmap`. `Binary` has the bitwise
  operators that bstrlib and the chunking use on numbers.

Where a promise turned out to hold only under a condition, the condition is proved to be
exact:

- the fifo of 1024 cuts suffices for payloads of up to 32799 bytes and no longer
  (`ChunkCuts.FifoSuffices`);
- `bsplitstrcb` steps over the first byte behind each separator, so it splits as documented
  exactly when no separator directly follows another (`BstrSplit.SplitStrIsRight`,
  `BstrSplit.SecondSeparatorMissed`);
- with an empty separator it hands out single bytes, and so the whole string once, as its
  comment says, exactly for strings of one byte (`BstrSplit.EmptySeparator`,
  `BstrSplit.EmptySeparatorSplitsAll`);
- `bjoin` asks for the size of the joined string exactly when that is an int and the list is
  not empty, unless the separator is (`BstrLists.JoinSizeIsRight`). For an empty list and one
  byte of separator it asks for nothing and writes its terminator outside; for a longer
  separator the size is negative, and it gives up (`BstrLists.NothingToJoin`,
  `BstrLists.Bjoin`). The separators are not covered by its overflow test
  (`BstrLists.SeparatorsWrapAround`);
- a payload sent again is fully deduplicated exactly when its digests have outlived the ticks
  in between (`Outbound.SecondSendReplacesAll`): after five at the most, but after six not
  always (`Outbound.FiveTicksAreHarmless`, `Outbound.SixTicksForget`);
- where lookups fall between the passes of `wr_file`, file and bitmap stay in step exactly
  when no item was cited with its mark on (`CachePasses.WrittenIsPlaced`), and marks from
  before overrun the copy exactly when they outweigh the cited items
  (`CachePasses.CopyOverruns`); examples are `CachePasses.CitedBetweenPasses`,
  `LeftoverIsNotCounted` and `NextItemReadsZeros`;
- the third section of `wr_file` frees an item's memory rightly exactly when no reader has
  come to the allocation since state 1 was set (`CacheRelease.ReleaseIsSafe`,
  `CacheRelease.FreedUnderReader`);
- coalescing the address events of the path manager leaves the right table exactly when at
  most eight addresses of a family are involved (`FullmeshEvents.RightExactlyForFew`);
- the ids of local addresses are unique except that the last IPv4 slot and the first IPv6
  slot share one (`FullmeshTable.LocIdsClash`, `FullmeshTable.LocIdsDoClash`).

## Model

| member | source | states |
|---|---|---|
| CacheTheorems.DiskRoundTrip | model/kernel_hash/hash_table.c:517-649 | Over every run: an item in state 1 or 4 has the bytes it was made from at 32 * start in the file of its CPU; what a reader has fetched, and the item's memory when the reader is through, are those bytes. |
| CacheTheorems.StatesAreSafe | model/kernel_hash/hash_table.h:103-120 | Over every run: states 0, 2 and 3 have the original bytes in memory, state 1 has none and has a CPU, states 0 and 3 have no CPU, and a state 4 item without its bytes has a pending reader. |
| CacheTheorems.NothingFreedTwice | model/kernel_hash/hash_table.c:141-173 | Over every run, whatever the timer or the worker would free is allocated, so the branch of free_data_memory that reports an error is never reached; no item has a CPU that does not exist. |
| CacheTheorems.ReferencesAreCounted | model/kernel_hash/nf_in.c:75-124 | Over every run share_ref is one more than the references held, and what is referenced is in the table. |
| CacheTheorems.UnitsConserved | model/kernel_hash/hash_table.c:657-690 | Over every run a unit of a CPU's bitmap is marked exactly when a live item placed there owns it. |
| CacheTheorems.UnitsAreDisjoint | model/kernel_hash/hash_table.c:581-604 | Over every run two items on one CPU own disjoint units. |
| CacheTheorems.CountersConserved | model/kernel_hash/hash_table.c:93-173 | Over every run hash_count is the number of items, mm0 to mm3 are the total lengths by mem_style, and loff_file is 32 * bitmap_index whenever no run has bytes to write. |
| CacheOrigins.InsertedComesBack | model/kernel_hash/hash_table.c:175-226 | Over every run, as long as an inserted item is in the table: the bytes given to the insertion are in memory in states 0, 2 and 3 and when flag_mem is set, at 32 * start in the file of its CPU in states 1 and 4, and in the hands of every reader that has fetched them; digest and length are those given. |
| CacheOrigins.EverythingWasInserted | model/kernel_hash/hash_table.c:175-226 | Over every run each item of the table was inserted by an earlier step, with the bytes and the digest that it has. |
| CacheOrigins.InsertedStays | model/kernel_hash/hash_table.c:175-226 | What a step has inserted keeps its bytes and digest as long as it is in the table. |
| CacheOrigins.StepOfOrigin | model/kernel_hash/hash_table.c:517-720 | No step changes the bytes an item was made from or its digest, and only the insertion of an item brings it in. |
| CacheMeaning.TicksExactly | model/kernel_hash/hash_table.c:651-708 | In numbers, item by item: a tick drops the items of the bucket with share_ref 1 and a refcnt of at most 1, and counts the others down, 0 to 2 for a rest of 6 to 11, 0 or an unplaced 2 to 3 from 12 on; all others are unchanged. |
| CacheMeaning.TicksKeepOrder | model/kernel_hash/hash_table.c:655-708 | The items that stay keep their order in the chain. |
| CacheMeaning.SelectsExactly | model/kernel_hash/hash_table.c:530-604 | In numbers, item by item: exactly the items of the bucket with refcnt from 6 to 11, state 2, cpuid -1 and share_ref 1 get the CPU and a start from the old bitmap_index on, below the new one; all others are unchanged. |
| CacheMeaning.ReleasesExactly | model/kernel_hash/hash_table.c:641-648 | In numbers, item by item: exactly the items of the bucket with state 2, share_ref 1 and a CPU become state 1 without memory; all others are unchanged. |
| CacheMeaning.FirstIsAt | model/kernel_hash/hash_table.c:244-271 | What get_hash_item finds is the first item of the chain with the digest. |
| CacheLifetime.CountAccounts | model/kernel_hash/hash_table.c:238-277 | Along every run, while an item lives its refcnt is what it was plus 6 for each hit minus 1 for each tick of its bucket. |
| CacheLifetime.ReclaimedOnTime | model/kernel_hash/hash_table.c:651-700 | Along every run, an item that is not referenced and not hit is in the table exactly until the max(1, r)-th tick of its bucket, r being its count. |
| CacheLifetime.GoneForGood | model/kernel_hash/hash_table.c:651-690 | Along every run, an item that was in the table and is not any more never comes back. |
| CacheLifetime.GoneStaysGone | model/kernel_hash/hash_table.c:651-690 | One step makes no item that was made before and has gone. |
| CacheLifetime.StepOnItem | model/kernel_hash/hash_table.c:651-720 | What each kind of step does to one item: only an expiring tick removes it, a tick ages it, a hit cites it, nothing else changes its count or bucket. |
| CacheLifetime.TickAt | model/kernel_hash/hash_table.c:651-720 | A tick over a bucket treats each item of its list exactly once: expired ones go, the others age, items elsewhere stay. |
| CacheRuns.StepKeepsInv | model/kernel_hash/hash_table.c:517-720 | Each locked section of lookups, insertion, read-back, tick and write-back keeps the whole invariant. |
| CacheRuns.InvOnRun | model/kernel_hash/hash_table.c:517-720 | The invariant holds in every state of every run from the empty table. |
| CacheWriteBack.AllocatesAtIndex | model/kernel_hash/hash_table.c:581-604 | With room left, the search for a zero area always answers bitmap_index. |
| CacheWriteBack.BitsBelowIndex | model/kernel_hash/hash_table.c:581-604 | Every marked unit is below bitmap_index. |
| CacheWriteBack.SelectOneKeeps | model/kernel_hash/hash_table.c:565-613 | Placing one item and copying its bytes keeps the invariant and takes just the units it needs. |
| CacheWriteBack.SelectKeeps | model/kernel_hash/hash_table.c:530-615 | The selecting section of wr_file keeps the invariant. |
| CacheWriteBack.WriteKeeps | model/kernel_hash/hash_table.c:621-633 | The write, outside the lock, moves the copied bytes of every waiting item to the file and keeps the invariant. |
| CacheWriteBack.WrittenRunMeansFile | model/kernel_hash/hash_table.c:641-648 | After a bucket's write every item of the bucket with a place on disk is in its file. |
| CacheWriteBack.ReleaseKeeps | model/kernel_hash/hash_table.c:641-648 | Dropping the written items from memory keeps the invariant. |
| CacheTicks.InsertKeeps | model/kernel_hash/hash_table.c:175-226 | Insertion keeps the invariant. |
| CacheTicks.TickKeeps | model/kernel_hash/hash_table.c:651-720 | A tick of any bucket keeps the invariant. |
| CacheReaders.HitKeeps | model/kernel_hash/hash_table.c:238-277 | A hit keeps the invariant, although it turns state 1 into state 4. |
| CacheReaders.ClassifyKeeps | model/kernel_hash/nf_in.c:95-122 | Letting an item go, or queueing it for read-back, keeps the invariant. |
| CacheReaders.DropKeeps | model/kernel_hash/nf_in.c:319-320 | Giving a reference back keeps the invariant when the item is not in state 4 or has its bytes. |
| CacheReaders.AllocKeeps | model/kernel_hash/nf_in.c:273-277 | Making room for the bytes keeps the invariant, whoever else reads the item. |
| CacheReaders.ReadsOriginal | model/kernel_hash/nf_in.c:286-296 | What kernel_read returns for an item in state 1 or 4 is what was first inserted. |
| CacheReaders.ReadKeeps | model/kernel_hash/nf_in.c:286-296 | The file read keeps the invariant, and its CPU is one that exists. |
| CacheReaders.CopyKeeps | model/kernel_hash/nf_in.c:301-308 | Storing the bytes keeps the invariant. |
| CacheReaders.MarkKeeps | model/kernel_hash/nf_in.c:310-311 | Setting flag_mem keeps the invariant. |
| CacheMoves.StepMoves | model/kernel_hash/hash_table.h:103-110 | Each step moves an item by one of the documented transitions only, with its cause: 0 to 2 and 0 or 2 to 3 by a tick and the count, 2 to 1 by a release of a placed and unshared item, 1 to 4 by a hit; a tick leaves no item in a state that its count does not call for. |
| CacheMoves.StatesOnlyMoveOn | model/kernel_hash/hash_table.h:103-110 | Along every run an item never returns to an earlier state; states 3 and 4 are final. |
| CacheMoves.StepsAreReady | model/kernel_hash/nf_in.c:250-323 | Over every run each holder can take its next step, and each selection its write and release: no guard of the step system holds the program up. |
| CacheTable.HashTable.constructor | model/kernel_hash/hash_table.c:340-422 | The initial table is empty and valid. |
| CacheTable.HashTable.AllocDataMemory | model/kernel_hash/hash_table.c:93-139 | Allocates unless allocated, in the least of the slabs of 32, 64 and 96 bytes that will do or by kmalloc, and counts the length for the class. |
| CacheTable.HashTable.FreeDataMemory | model/kernel_hash/hash_table.c:141-173 | Frees, leaving mem_style -1, and uncounts the length; the error branch is dead. |
| CacheTable.HashTable.HashNewItem | model/kernel_hash/hash_table.c:175-226 | Refuses exactly when the count is above its limit; otherwise the table has one item more, at the head of its bucket, with the given bytes and digest, state 0, refcnt 6, share_ref 1 and no CPU. |
| CacheTable.HashTable.GetHashItem | model/kernel_hash/hash_table.c:238-277 | Returns the first item of the bucket with the digest, its refcnt up by 6, share_ref up by 1 and state 1 turned to 4, all else unchanged; or null when no item of the table has the digest. |
| CacheTable.HashTable.HandFound | model/kernel_hash/nf_in.c:101-122 | Lets go of an item that is not in state 4, queues the others for their CPU, which exists. |
| CacheTable.HashTable.PutItem | model/kernel_hash/nf_in.c:319-320 | Gives the reference back. |
| CacheTable.HashTable.CheckMem | model/kernel_hash/nf_in.c:273 | Sees whether the bytes are in memory. |
| CacheTable.HashTable.MakeRoom | model/kernel_hash/nf_in.c:274-277 | Allocates under the item's lock unless somebody has. |
| CacheTable.HashTable.LoadBytes | model/kernel_hash/nf_in.c:279-296 | Reads the item's original bytes from its CPU's file. |
| CacheTable.HashTable.StoreBytes | model/kernel_hash/nf_in.c:301-308 | Copies the bytes to the item. |
| CacheTable.HashTable.MarkInMemory | model/kernel_hash/nf_in.c:310-311 | Sets flag_mem. |
| CacheTable.HashTable.ReadEntry | model/kernel_hash/nf_in.c:270-321 | The body of read_data's loop, undisturbed: the item's original bytes are in memory and the reference is given back. |
| CacheTable.HashTable.ClearBits | model/kernel_hash/hash_table.c:677-679 | Clears exactly the units from start on that the length takes. |
| CacheTable.HashTable.SetBits | model/kernel_hash/hash_table.c:597-599 | Sets exactly the units from start on that the length takes. |
| CacheTable.HashTable.TickItem | model/kernel_hash/hash_table.c:658-708 | One item of a tick: reclaimed with memory and units, or aged by the state machine. |
| CacheTable.HashTable.BucketClearItem | model/kernel_hash/hash_table.c:651-733 | A tick of the bucket, item by item: gone, aged or unchanged, in the same order; a run of wr_file is asked for exactly when an item of the bucket is left with a count from 6 to 11. |
| CacheTable.HashTable.MarkEligible | model/kernel_hash/hash_table.c:530-553 | The first pass marks exactly the items to be written, and sums their sizes. |
| CacheTable.HashTable.PlaceItem | model/kernel_hash/hash_table.c:569-604 | The second pass places a marked item at the area found and marks its units, or unmarks it when it has been cited meanwhile, as CachePasses has it. |
| CacheTable.HashTable.SelectItem | model/kernel_hash/hash_table.c:565-613 | One item of the second pass, with its bytes copied, is one step of the specification. |
| CacheTable.HashTable.CopyEligible | model/kernel_hash/hash_table.c:555-614 | The second pass ends where the specification does, and the copied buffer is filled exactly. |
| CacheTable.HashTable.WrFileSelect | model/kernel_hash/hash_table.c:517-619 | The first section of wr_file does what Select says: exactly the items in state 2 with a count from 6 to 11, no place and no holder get a place behind bitmap_index, and the run goes on when there are bytes to write. |
| CacheTable.HashTable.WrFileWrite | model/kernel_hash/hash_table.c:621-633 | The second section writes the whole buffer at loff_file, behind what was there, and moves loff_file on. |
| CacheTable.HashTable.WrFileRelease | model/kernel_hash/hash_table.c:641-648 | The third section turns exactly the items of the bucket in state 2 with a place and no holder to state 1 and frees their memory; all others are unchanged. |
| CachePasses.CopiedAgainstCounted | model/kernel_hash/hash_table.c:530-634 | The two passes of wr_file with lookups anywhere between their moves, and any marks at the start: what is copied is what was counted, less the marked items that got no place (those cited with the mark on), and more the items placed by a mark from before. |
| CachePasses.CopyOverruns | model/kernel_hash/hash_table.c:557-613 | So more is copied than copy_mem has room for exactly when the items placed by old marks need more units than the cited ones have left. |
| CachePasses.WrittenIsPlaced | model/kernel_hash/hash_table.c:530-634 | From a start without marks: what is written is never less than the units taken, and loff_file is 32 * bitmap_index again after the write exactly when no item was cited with its mark on. |
| CachePasses.UncitedArePlaced | model/kernel_hash/hash_table.c:530-614 | From any start: marked items that were not cited have a place on the CPU, cited ones have none and keep state 2, those without any mark are where they were. |
| CachePasses.RunsStartUnmarked | model/kernel_hash/hash_table.c:517-549 | In every state that satisfies the invariant a run of wr_file starts without marks, and in step. |
| CachePasses.CitedBetweenPasses | model/kernel_hash/hash_table.c:559-580 | The failing run: an item found and let go of between the passes is counted and not placed, and keeps its mark; one tick later it may be fit to be placed. |
| CachePasses.LeftoverIsNotCounted | model/kernel_hash/hash_table.c:530-614 | A mark left over from such a run makes the next one copy more than it has counted, without any lookup. |
| CachePasses.NextItemReadsZeros | model/kernel_hash/hash_table.c:569-634 | Once the file position is ahead by the room of a lost item, the next item placed reads back as zeros. |
| CacheRelease.ReleaseIsSafe | model/kernel_hash/hash_table.c:641-648 | The third section of wr_file on one item, with lookups and read-back anywhere between its moves: when the memory is freed, flag_mem, the states and all holders are right afterwards exactly when no reader has come to alloc_data_memory since state 1 was set. |
| CacheRelease.StaysSafe | model/kernel_hash/nf_in.c:270-321 | In that case all stays right whatever comes later, and no reader copies to memory that the item does not have. |
| CacheRelease.FreeingIsSound | model/kernel_hash/hash_table.c:93-98 | Freeing after a reader has skipped the allocation leaves flag_mem set or a copy to come, and no memory. |
| CacheRelease.ReleasesStart | model/kernel_hash/hash_table.c:643-646 | In every state that satisfies the invariant an item in state 2 is fit for these lemmas, and undisturbed the moves are the release of the item. |
| CacheRelease.FreedUnderReader | model/kernel_hash/hash_table.c:643-646 | The failing run, from every start: a reader finds the item right after state 1 was set, and copies to memory that has been freed; flag_mem is set in the end and there are no bytes. |
| Bitmap.AlignUpIsLeast | model/kernel_hash/bitmap.c:63-65 | Aligning gives the least multiple that is not below. |
| Bitmap.FindNextZeroArea | model/kernel_hash/bitmap.c:55-77 | For nr >= 1: the least aligned area of clear bits from start on inside size, or a value above size exactly when there is none; it terminates. |
| Bitmap.FirstZeroAreaIsFirstFit | model/kernel_hash/bitmap.c:55-77 | The answer is unique, up to how a failure is reported. |
| Bitmap.FirstFitInFreeTail | model/kernel_hash/bitmap.c:55-77 | Where nothing is set from start on, the answer is start. |
| ListSort.ListSort | model/kernel_hash/sort.c:94-138 | A well-formed ring becomes a well-formed ring of the same nodes, in the order of the stable sort when the comparison is consistent on them, for any length. |
| ListSort.Merge | model/kernel_hash/sort.c:11-31 | Merges two chains into the chain of their merge. |
| ListSort.MergeAndRestoreBackLinks | model/kernel_hash/sort.c:40-78 | Merges two chains into a ring with its back links restored. |
| ListSort.Carry | model/kernel_hash/sort.c:117-120 | Carrying through the levels absorbs each earlier part in front of the current list. |
| ListSort.Place | model/kernel_hash/sort.c:121-130 | A carried list gets its level, or is stored at the top when the levels are used up. |
| ListSort.FillParts | model/kernel_hash/sort.c:107-131 | All elements of the ring are in the parts, earlier elements on higher levels, and the top level is not empty. |
| ListSort.DrainParts | model/kernel_hash/sort.c:133-135 | Merging up the levels below the top loses and reorders nothing. |
| MergeSeq.MergedAssociative | model/kernel_hash/sort.c:11-31 | Merging is associative for a consistent comparison, so the shape of the merge tree does not matter. |
| MergeSeq.SortOfConcat | model/kernel_hash/sort.c:80-93 | Merging the sorted halves sorts the whole. |
| MergeSeq.StableSortIsSorted | model/kernel_hash/sort.c:80-93 | The reference is sorted. |
| MergeSeq.StableSortPermutes | model/kernel_hash/sort.c:80-93 | The reference is a permutation, for any comparison. |
| MergeSeq.StableSortIsStable | model/kernel_hash/sort.c:80-93 | Elements that compare equal keep their order. |
| MergeSeq.MergedIsSorted | model/kernel_hash/sort.c:11-31 | The merge of sorted lists is sorted. |
| MergeSeq.MergedIsStable | model/kernel_hash/sort.c:11-31 | A merge keeps the equals of its first list before those of its second. |
| BstrSearch.Binstr | model/c-skeleton/src/lcthw/bstrlib.c:1029-1105 | The least position from pos on where the pattern occurs, or BSTR_ERR exactly when there is none or an argument is invalid. |
| BstrSearch.Subsequence | model/c-skeleton/src/lcthw/bstrlib.c:1062-1104 | The two-step loop, with its jump back into the loop, terminates with the first occurrence. |
| BstrSearch.Binstrcaseless | model/c-skeleton/src/lcthw/bstrlib.c:1163-1200 | The same up to case. |
| BstrSearch.FoldMeans | model/c-skeleton/src/lcthw/bstrlib.c:1163-1200 | Without case a byte equals itself and, if it is a letter, the letter 32 apart. |
| BstrSearch.FirstMatchIsFind | model/c-skeleton/src/lcthw/bstrlib.c:1029-1105 | There is one right answer. |
| BstrSearch.FindIsFirst | model/c-skeleton/src/lcthw/bstrlib.c:1029-1105 | The reference search finds the first occurrence. |
| Binary.SmearFillsTheBits | model/c-skeleton/src/lcthw/bstrlib.c:71-91 | For words of 32 bits the shifts and ors of snapUpSize fill every bit below the leading one, so adding one gives the least power of two above. |
| BstrReplace.SnapUpSize | model/c-skeleton/src/lcthw/bstrlib.c:71-91 | The snapped size is 8 below 8, the least power of two above the request where that is an int, and the request itself otherwise. |
| BstrReplace.Copy | model/c-skeleton/src/lcthw/bstrlib.c:417-451 | A copy in new memory, or null only when an allocation is refused. |
| BstrReplace.Balloc | model/c-skeleton/src/lcthw/bstrlib.c:99-152 | Room for olen bytes with the contents kept; fails exactly for a size that is not positive or when the last request is refused, and then changes nothing. |
| BstrReplace.ReplaceEqual | model/c-skeleton/src/lcthw/bstrlib.c:1591-1601 | Replacement of equal length leaves the simple rewriting. |
| BstrReplace.ShrinkMatches | model/c-skeleton/src/lcthw/bstrlib.c:1605-1614 | The shrinking loop: output and rest of the input together are the rewriting. |
| BstrReplace.ReplaceShrinking | model/c-skeleton/src/lcthw/bstrlib.c:1603-1627 | Shrinking replacement leaves the simple rewriting. |
| BstrReplace.Round | model/c-skeleton/src/lcthw/bstrlib.c:1607-1614 | One match of an in-place rewriting keeps what is done and what is still to do, whatever the gap between them. |
| BstrReplace.RewriteAtMatch | model/c-skeleton/src/lcthw/bstrlib.c:1591-1631 | The reference in terms of occurrences, for either search: up to the first occurrence the string stays, then comes the replacement, and what is behind is rewritten in turn; without an occurrence nothing changes. |
| BstrReplace.FindInSuffix | model/c-skeleton/src/lcthw/bstrlib.c:1029-1105 | The search sees only what is at pos and behind it. |
| BstrExpand.SpreadIsRewrite | model/c-skeleton/src/lcthw/bstrlib.c:1643-1690 | Spreading the pieces around the recorded matches is the simple rewriting. |
| BstrExpand.RewriteLength | model/c-skeleton/src/lcthw/bstrlib.c:1663-1675 | Each match makes the string longer by the same amount. |
| BstrExpand.MatchListSpaced | model/c-skeleton/src/lcthw/bstrlib.c:1647-1672 | Recorded matches are in order and do not overlap. |
| BstrExpand.GrowIndex | model/c-skeleton/src/lcthw/bstrlib.c:1648-1660 | The index doubles once, keeping its entries, or fails for want of memory or at its largest size. |
| BstrExpand.FindAll | model/c-skeleton/src/lcthw/bstrlib.c:1643-1672 | The index holds all matches in order and the end of the string; it gives up only for want of memory or range. |
| BstrExpand.SpreadPieces | model/c-skeleton/src/lcthw/bstrlib.c:1676-1688 | Moving the pieces from the last match back gives the rewriting. |
| BstrExpand.ReplaceGrowing | model/c-skeleton/src/lcthw/bstrlib.c:1629-1698 | Growing replacement leaves the simple rewriting, or fails with the contents unchanged. |
| BstrExpand.FindReplaceEngine | model/c-skeleton/src/lcthw/bstrlib.c:1560-1698 | Success leaves the string up to pos and the simple rewriting behind it, whether strings are shared or not; failure leaves the string alone; with memory granted and a result that is in range it succeeds. |
| BstrSplit.JoinOfSplit | model/c-skeleton/src/lcthw/bstrlib.c:2605-2636 | Joining what was split from a position on gives back the string from there on, for every separator, the empty one included. |
| BstrSplit.SplitOfSuffix | model/c-skeleton/src/lcthw/bstrlib.c:2605-2636 | Splitting from a position on is splitting what is there from it on. |
| BstrSplit.SplitOfJoin | model/c-skeleton/src/lcthw/bstrlib.c:2527-2543 | Splitting what was joined gives back a list exactly when its entries are clean of the separator. |
| BstrSplit.SplitOfJoinByChar | model/c-skeleton/src/lcthw/bstrlib.c:2527-2543 | For a split character: exactly the non-empty lists whose entries lack it. |
| BstrSplit.PiecesAreClean | model/c-skeleton/src/lcthw/bstrlib.c:2605-2636 | The pieces of any split are clean. |
| BstrSplit.SplitStrIsRight | model/c-skeleton/src/lcthw/bstrlib.c:2622-2635 | bsplitstrcb splits as it should exactly when no separator directly follows another. |
| BstrSplit.SecondSeparatorMissed | model/c-skeleton/src/lcthw/bstrlib.c:2622-2635 | A string of two separators shows that it does not always. |
| BstrSplit.EmptySeparator | model/c-skeleton/src/lcthw/bstrlib.c:2592-2616 | With an empty separator the split is the whole string once, as the comment promises, exactly for strings of one byte. |
| BstrSplit.EmptySeparatorSplitsAll | model/c-skeleton/src/lcthw/bstrlib.c:2612-2616 | Two bytes come out as two pieces, and of the empty string nothing comes out. |
| BstrSplit.ReplaceIsSplitAndJoin | model/c-skeleton/src/lcthw/bstrlib.c:1706-1714 | The rewriting of bfindreplace is the split at the pattern joined by the replacement. |
| BstrLists.BstrList.Bscb | model/c-skeleton/src/lcthw/bstrlib.c:2638-2660 | Appends the piece, growing the table when it is full; fails only when refused memory. |
| BstrLists.Bsplitcb | model/c-skeleton/src/lcthw/bstrlib.c:2527-2543 | The list gets exactly the pieces between split characters. |
| BstrLists.EachPiece | model/c-skeleton/src/lcthw/bstrlib.c:2622-2635 | The loop over whole patterns appends the pieces as the code finds them. |
| BstrLists.Bsplitstrcb | model/c-skeleton/src/lcthw/bstrlib.c:2605-2636 | All three forms: empty pattern, one byte, longer. |
| BstrLists.Bsplit | model/c-skeleton/src/lcthw/bstrlib.c:2666-2688 | The list of pieces, or null for an unreadable string or refused memory. |
| BstrLists.Bsplitstr | model/c-skeleton/src/lcthw/bstrlib.c:2694-2716 | The same for a separator string. |
| BstrLists.JoinLength | model/c-skeleton/src/lcthw/bstrlib.c:2263-2270 | The length of the joined string of a list that is not empty. |
| BstrLists.JoinSizeIsRight | model/c-skeleton/src/lcthw/bstrlib.c:2263-2270 | The size that bjoin asks for, as a 32-bit int, is that of the joined string and its terminator exactly when that is an int and the list is not empty, unless the separator is. |
| BstrLists.NothingToJoin | model/c-skeleton/src/lcthw/bstrlib.c:2263-2276 | bsplitstr makes the empty list, and with a separator of one byte bjoin then asks for nothing, with a longer one for a negative size. |
| BstrLists.SeparatorsWrapAround | model/c-skeleton/src/lcthw/bstrlib.c:2270 | Four separators of 2^30 bytes between empty entries come to a size of one byte. |
| BstrLists.Bjoin | model/c-skeleton/src/lcthw/bstrlib.c:2256-2294 | Over all lists and separators: the joined string in memory of exactly its size and a terminator; it comes back exactly when the arguments are readable, the lengths of the entries an int, both requests granted and the size large enough; with those granted, writes go outside the memory exactly when the size is too small but not negative, and a negative size gives no string. |
| Chunk.InitHashParameters | model/kernel_hash/main.c:29-43 | The parameters come out as 2^60, R^31 mod 2^60 and the mask 63. |
| Chunk.PackHash | model/kernel_hash/chunk.c:10-19 | The direct hash in wrapping words is the polynomial modulo 2^60. |
| Chunk.HashStepIsHorner | model/kernel_hash/chunk.c:14-17 | One wrapped step is one Horner step. |
| Chunk.DropOldestIsExact | model/kernel_hash/chunk.c:48 | Dropping the oldest byte in wrapping words is exact. |
| Chunk.RollIsExact | model/kernel_hash/chunk.c:47-49 | The rolled hash is the direct hash of the next window. |
| Binary.MaskIsModulus | model/kernel_hash/chunk.c:32-55 | Masking with n ones, which is how chunk.c tests the low bits of a hash, is the remainder by 2^n. |
| Chunk.CalculatePartition | model/kernel_hash/chunk.c:21-63 | The fifo gets the cuts, in order, up to the 1024th. |
| ChunkCuts.CutsAreTheGreedySelection | model/kernel_hash/chunk.c:21-63 | The cuts are the greedy selection of boundaries at least 32 apart, and the only one. |
| ChunkCuts.CutsResynchronise | model/kernel_hash/chunk.c:21-63 | Behind a cut the cuts are those of the remaining payload, shifted. |
| ChunkCuts.SharedSuffixSharesChunks | model/kernel_hash/chunk.c:21-63 | Two payloads with a common rest behind a cut in both have identical chunks from there on. |
| ChunkCuts.CutsAreFarOut | model/kernel_hash/chunk.c:51-61 | The k-th cut has at least 32 * (k + 1) bytes up to it. |
| ChunkCuts.CutsAreFew | model/kernel_hash/chunk.c:51-61 | There are at most length / 32 cuts. |
| ChunkCuts.FifoSuffices | model/kernel_hash/chunk.c:21-63 | The fifo holds all cuts of every payload of n bytes exactly when n <= 32799. |
| Outbound.TilesTile | model/send_module/nf_out.c:95-153 | The segments tile the payload in order. |
| Outbound.SegmentsAreLong | model/send_module/nf_out.c:95-153 | The segments of a payload are its chunks by position, as far as the fifo has room for their cuts, and all but the last have at least 32 bytes. |
| Outbound.PiecesRejoin | model/send_module/nf_out.c:95-153 | The chunks in order are the payload again. |
| Outbound.BuiltAllBalanced | model/send_module/nf_out.c:21-91 | The replacement list is in payload order, and new_len is the payload's length less what is saved, plus two bytes for each entry. |
| Outbound.SavedFits | model/send_module/nf_out.c:158-223 | The digests and the saved bytes fit in the payload. |
| Outbound.ReplacesAllKnown | model/send_module/nf_out.c:21-91 | Every segment longer than 22 bytes is replaced exactly when all their digests are known before the payload is sent. |
| Outbound.KnownAfterTicks | model/send_module/hash_table.c:296-317 | After any ticks of any buckets a digest is known exactly when it was and its count is above the ticks of its bucket, or there were none. |
| Outbound.SecondSendReplacesAll | model/send_module/hash_table.c:296-317 | A payload that is sent again after any ticks has every segment longer than 22 bytes replaced exactly when each of their digests was learned and has outlived the ticks of its bucket. |
| Outbound.FiveTicksAreHarmless | model/send_module/hash_table.c:53-117 | So with room in the table and at most five ticks of each bucket it has. |
| Outbound.SixTicksForget | model/send_module/hash_table.c:296-317 | After six ticks 33 bytes of zeros, new to the table, are forgotten, and sent again they are not replaced. |
| Outbound.Sender.BucketClearItem | model/send_module/hash_table.c:296-317 | A tick drops the digests of the bucket that have counted down and counts the others down. |
| Outbound.Sender.HandHash | model/send_module/nf_out.c:21-41 | A known digest shortens new_len; an unknown one is learned with a count of 6 unless the table is full, and a known one counts 6 more. |
| Outbound.Sender.BuildHash | model/send_module/nf_out.c:43-91 | One segment: up to 22 bytes nothing happens; a known digest is listed and new_len falls by all but 22 bytes; an unknown one is learned unless the table is full. |
| Outbound.Sender.GetPartition | model/send_module/nf_out.c:95-153 | Each segment is handled once, in order. |
| Outbound.Sender.ReplaceSkb | model/send_module/nf_out.c:158-223 | The error branch is not reached, and the final index with two bytes for each replaced segment is new_len. |
| Outbound.Sender.NfOut | model/send_module/nf_out.c:280-285 | The segments of the payload are handed on once, in order, and the two passes over the packet agree. |
| Sha1Pool.PoolSafety | model/kernel_hash/sha.c:39-64 | For any number of balanced threads: users counts holders and builders, at most one builds, there is a pool exactly while somebody holds it, and what is held has not been freed. |
| Sha1Pool.AlreadyAssignedUnreachable | model/kernel_hash/sha.c:135-143 | The branch for a pool that has already been assigned is never taken. |
| Sha1Pool.PoolsConserved | model/kernel_hash/sha.c:39-51 | No pool is freed twice and none is lost. |
| Sha1Pool.RetryMeansSomeoneBuilds | model/kernel_hash/sha.c:111-123 | A caller retries only while another thread builds. |
| Sha1Pool.CountedMayGoOn | model/kernel_hash/sha.c:39-51 | A thread that builds or holds a reference can always go on: the user count is positive. |
| Sha1Pool.InvOnRun | model/kernel_hash/sha.c:39-152 | The invariant of every interleaving. |
| Sha1Pool.Sha1SigPool.AllocEnter | model/kernel_hash/sha.c:111-123 | The first locked section of the allocation: the first user builds, others join the pool if there is one and retry without being counted if not. |
| Sha1Pool.Sha1SigPool.AllocPublish | model/kernel_hash/sha.c:126-144 | The second locked section: a pool that was built is published unless there is one, a failed build gives the count back. |
| Sha1Pool.Sha1SigPool.GetPool | model/kernel_hash/sha.c:53-64 | Returns the pool, and counts a user exactly when there is one. |
| Sha1Pool.Sha1SigPool.FreePool | model/kernel_hash/sha.c:39-51 | Uncounts a user; exactly the last one takes the pool out. |
| WordBitmap.FindFirstZeroBit | test/kernel/mmap/test.c:78-98 | The least clear bit below size, or size. |
| WordBitmap.FindFirstBit | test/kernel/mmap/test.c:103-122 | The least set bit below size, or size. |
| WordBitmap.BitmapSet | test/kernel/mmap/test.c:144-162 | Exactly the bits from start to start + nr become one, across word boundaries. |
| WordBitmap.BitmapClear | test/kernel/mmap/test.c:124-142 | Exactly the bits from start to start + nr become zero. |
| WordBitmap.FirstMaskBit | test/kernel/mmap/test.c:37 | The mask of the first word holds the bits from start on. |
| WordBitmap.LastMaskBit | test/kernel/mmap/test.c:38-42 | The mask of the last word holds the bits below its end. |
| WordBitmap.HeadMaskBit | test/kernel/mmap/test.c:115 | The mask of find_first_bit holds the bits below size. |
| WordBitmap.Ffs | test/kernel/mmap/test.c:53-59 | The least set bit of a word that is not zero. |
| WordBitmap.StoreStep | test/kernel/mmap/test.c:130-141 | One store moves the changed range on by exactly its bits. |
| FullmeshEvents.CoalescingPreservesMeaning | test/kernel/mptcp/mptcp_fullmesh.c:833-890 | Over every run with at most eight addresses a family: whenever the queue is drained the table is what the raw events make of it in order of arrival, and the queue never holds two events for an address. |
| FullmeshEvents.RightExactlyForFew | test/kernel/mptcp/mptcp_fullmesh.c:557-679 | That holds of every run over a set of addresses exactly when no family of it has more than eight. |
| FullmeshEvents.CoalescedFree | test/kernel/mptcp/mptcp_fullmesh.c:854-890 | A coalesced queue means what the queue meant, followed by the event. |
| FullmeshEvents.CoalescedKeepsOne | test/kernel/mptcp/mptcp_fullmesh.c:854-890 | Coalescing keeps at most one event for an address. |
| FullmeshEvents.StepKeepsMeaning | test/kernel/mptcp/mptcp_fullmesh.c:557-679 | What a step of either side keeps. |
| FullmeshEvents.TooManyGoWrong | test/kernel/mptcp/mptcp_fullmesh.c:557-679 | With nine addresses, one that goes and comes back is treated otherwise than its raw events would be. |
| FullmeshTable.FindAddress | test/kernel/mptcp/mptcp_fullmesh.c:525-555 | The first slot in use with the address, or -1. |
| FullmeshTable.RoomIsFreeBit | test/kernel/mptcp/mptcp_fullmesh.c:621-633 | A family has a free bit exactly when its part of the table has fewer than eight addresses. |
| FullmeshTable.UpdateLoc | test/kernel/mptcp/mptcp_fullmesh.c:593-677 | Slot by slot: a deletion frees the slot of the address, a known address changes its priority only, a new one goes to the next free slot from the index on, with the id of the slot, or nowhere when all are in use; the slots show the changed table; success says exactly that the table has changed, isNew that it has a new address. |
| FullmeshTable.StoreNew | test/kernel/mptcp/mptcp_fullmesh.c:607-661 | A new address goes to the first free slot from next_v4_index or next_v6_index on, else from 0 on, and the index moves behind it; nothing changes exactly when no slot is free. |
| FullmeshTable.FmNs.LookupSimilarEvent | test/kernel/mptcp/mptcp_fullmesh.c:833-851 | The queue's event for the address. |
| FullmeshTable.FmNs.AddPmEvent | test/kernel/mptcp/mptcp_fullmesh.c:854-890 | The new queue is the coalesced one. |
| FullmeshTable.FmNs.HandleEvent | test/kernel/mptcp/mptcp_fullmesh.c:569-686 | The first event is taken and applied to the table; an address that was not there is told as an addition. |
| FullmeshTable.FmNs.AddressWorker | test/kernel/mptcp/mptcp_fullmesh.c:557-679 | The queue is drained into the table. |
| FullmeshTable.LocIdsClash | test/kernel/mptcp/mptcp_fullmesh.c:655-663 | The ids of the two families are apart exactly when the last slot of the first and the first slot of the second are not both in use. |
| FullmeshTable.LocIdsDoClash | test/kernel/mptcp/mptcp_fullmesh.c:655-663 | There are such tables, with id 8 on both sides. |
| FullmeshSubflows.CreateSubflows | test/kernel/mptcp/mptcp_fullmesh.c:379-485 | Attempts are missing pairs, in order, IPv4 before IPv6, each once; without an early exit nothing is missing afterwards, and a retry is queued exactly when some attempt found no route; an early exit queues none and comes exactly at the first round at which the connection is not fit. |
| FullmeshSubflows.ProgressEnds | test/kernel/mptcp/mptcp_fullmesh.c:401-472 | When nothing is missing, the attempts were exactly the missing pairs, each once, and every live remote covers all local bits. |
| FullmeshSubflows.ProgressStep | test/kernel/mptcp/mptcp_fullmesh.c:420-447 | One attempt at the first missing pair keeps all that is known of the series. |
| FullmeshSubflows.RetrySubflows | test/kernel/mptcp/mptcp_fullmesh.c:284-370 | Retries are wanted pairs, in order, IPv4 before IPv6, each once; without an early exit no retry bit of a live remote is left, and an early exit comes exactly at the first round at which the connection is not fit. |
| FullmeshSubflows.RetryEnds | test/kernel/mptcp/mptcp_fullmesh.c:309-362 | When nothing is wanted, each retry bit was used exactly once and is clear. |
| FullmeshSubflows.Remotes.TryNext | test/kernel/mptcp/mptcp_fullmesh.c:420-447 | The scan picks the first missing pair, sets its bit, and its retry bit if there was no route. |
| FullmeshSubflows.Remotes.RetryNext | test/kernel/mptcp/mptcp_fullmesh.c:324-340 | The scan picks the first retry bit and moves it over. |
| FullmeshSubflows.Remotes.UpdateBitfields | test/kernel/mptcp/mptcp_fullmesh.c:499-523 | For every live remote, both bitfields are cut down to the local addresses; those of other slots stay. |
| FullmeshSubflows.RetryStaysWithin | test/kernel/mptcp/mptcp_fullmesh.c:284-523 | Over every interleaving a retry bit is set only where the bit of the attempt is. |
| FullmeshSubflows.TriedOnceRetriedOnce | test/kernel/mptcp/mptcp_fullmesh.c:284-523 | Over every interleaving, until it is forgotten, a pair is attempted at most once and retried at most as often. |
| FullmeshBits.FindFreeIndex | test/kernel/mptcp/mptcp_fullmesh.c:328 | The first clear bit from base on, else the first one from 0 on, or -1 exactly when all are set. |

## Left out

- Cache atomicity: get_hash_item and two sections of wr_file hold only the read side of the bucket lock, so two of them could interleave inside a section. CacheState and CacheTable take each section as one step; CachePasses shows what lookups between the passes of wr_file do, and when they do no harm. CacheRelease does the same for its third section. A lookup is one step in both.
- CacheTable.HashTable.PlaceItem: with sections as steps, the branch for an item cited between the two passes is never taken; in CachePasses it is.
- CacheRelease: one item at a time, and its file is taken to hold its bytes, which DiskRoundTrip proves for whole sections.
- CachePasses: the bytes that the second pass copies are counted, not modelled, and the search for a place is assumed to find one.
- CacheState.Enabled: a run of wr_file starts only with enough units left on its CPU, writes are complete and allocations in interrupt context succeed; the program stops the machine otherwise.
- CacheTable.HashTable: bucket lists, per-CPU records and item data are sequence-valued fields, and a bitmap is the set of its set bits, so list pointers and bitmap words are not modelled here; locks, timers and work queues appear only as the conditions on which step may run.
- CacheTable.HashTable.LoadBytes: the sorting of the read list by position, which casts its nodes to another struct, is not modelled; the list is handled one entry at a time.
- store_flag, the percpu counters, devote counters and print_memory_usage: statistics only.
- hash_del_item, hash_item_expire (not in use), hash_flush and the module teardown.
- The digest is opaque: SHA-1 is a parameter, and the bucket is any function of the digest.
- Bitmap.FindNextZeroArea: the alignment is given as a number, not as a mask; the program only ever passes the mask 0. find_next_bit and find_next_zero_bit are not in the repository and stand as contracts.
- Binary: words are natural numbers with C's operators digit by digit; the one wrap-around of snapUpSize, to a negative int, is in BstrReplace.
- ListSort: the progress callback for unbalanced lists and the warning about very long lists are left out, and the comparison is a pure function.
- BstrReplace.Balloc: arithmetic on sizes is unbounded except where the code tests for wrap-around; the terminator that balloc writes is not part of the contents.
- BstrExpand.FindReplaceEngine: strings that share memory are the same object; overlapping buffers of different headers are not modelled. Lengths are below the largest int.
- BstrExpand.GrowIndex: a pointer has 8 bytes.
- BstrLists.Bjoin: where the code goes outside its memory the model stops at that write, and nothing is said of the result. That a negative size, taken as a size_t, is always refused is an assumption about the allocator.
- BstrLists.BstrList.Bscb: the copy of a piece always succeeds, only the growth of the table may fail, and its size is unbounded.
- The rest of bstrlib: streams, formatting, trimming, insertion, reverse search, bsplitscb.
- FullmeshTable.FmNs.HandleEvent: the copy of the address table succeeds; telling the sockets of an event is left out.
- FullmeshBits.FindFreeIndex: mptcp_find_free_index and the loop over set bits are not in the repository and stand as contracts.
- FullmeshSubflows.CreateSubflows: the remote table does not change between the rounds of one worker; RetryStaysWithin and TriedOnceRetriedOnce cover any interleaving. Addresses and ports of remotes are left out, an attempt is a pair of indices.
- FullmeshTable.UpdateLoc: struct mptcp_loc_addr is copied before it is changed, so it is a value.
- WordBitmap.Ffs: the bsf instruction is a loop with its contract. Sizes are unbounded, and start and nr are not negative.
- Outbound.Sender: the table is a map from digests to counts, so the order and the pointers of its bucket lists are not modelled, nor that a digest could be entered twice by two CPUs; the allocation of an item succeeds.
- Outbound: socket buffers, checksums and headers; only payloads and lengths are modelled.
- Netfilter hooks, probes, tasklets, module setup, the userspace demos and clients, and the MPTCP socket and proc code: input, output and glue.
