# Verification of the page store, the row codec and the scan engine

This project models the transactional pager with its write-ahead log, the codecs and iterators of the CQL engine's
rows and clustering keys, its secondary indexes, and a few self-contained algorithms, and proves what they promise.
`dafny verify dfyconfig.toml` checks everything.

## Structure

- `storage`, `replay`, `pager_machine`, `pager_invariant`, `pager_refinement`, `pager_runs`: the pager as a machine of
  small steps over two files, so that a crash can fall between any two. A file is its current content, its content at
  the last sync, and the units written since. After a crash a unit that was written holds anything at all (its old or
  new block, or a torn one); only the 8-byte frame count is written atomically. Recovery, checkpoints and commits refine
  a transactional page store.
- `pager_creation`: runs from the creation of the database on, whose header no sync has made safe yet.
- `pager`: the pager as an object with the source's fields, from its creation on. Every method takes steps of that
  machine, so its theorems hold at every point inside every method.
- `page_allocation`, `page_allocator`, `page_history`, `allocation_failures`: the bitset allocator with its cascading
  trim, on top of the pager object, whole histories of both together, and runs into states where they fall short.
- `page_sharing`, `allocation_sharing`: interleaved coroutines that load, write and zero pages in one transaction, and
  that allocate pages.
- `wire`, `column_values`, `value_codec`, `value_codec_results`, `value_stream`: bytes, the generated codec of the basic
  types, and the recursive codec of all types, as functions on bytes and as readers, writers and skippers on streams.
- `value_equality`, `value_insertion`: what equality of nested values means, and what sets and maps keep of what is put
  into them. `wire_images`: what numbers, values, rows and types look like in bytes.
- `column_order`, `column_meaning`, `clustering`, `key_bounds`: the order of column values, what it is for each kind, the
  order of clustering keys, and the planner's bounds.
- `range_scan`, `range_scan_results`, `partition_tree`: the row iterator over clustering trees and partitions, and how
  partitions come and go.
- `rows`, `row_iterator`: row blobs of tables without a clustering key, written at once and read column by column.
- `index_keys`, `index_agreement`, `index_agreement_results`, `index_exactness`, `index_lookup`: secondary indexes against
  the rows they index, and what a search of one finds.
- `glob`, `decimal`, `murmur`, `murmur_values`, `key_combinations`, `type_codec`: the glob matcher, number comparison, the
  Murmur3 token and its values on known keys, IN-list combinations, and the schema's type serializer.

## Reading the model

- All units of the database file have one size: unit 0 is the header (frame key `MAX_U64` in the source), unit i is
  page i. Reading past the end of a file gives zeros, as resizing does in the source.
- A call that suspends is one or more steps; memory changes between suspension points are one step.
- Where the source asserts (a short buffer, a corrupt kind, advancing past the end) the model returns an error value, and
  the theorems say when that does not happen.
- Clustering keys inside the scan model are kept decoded; `Clustering.CompareClustering` and
  `Clustering.EncodeKeyInjective` tie them to the bytes the source compares. Keys are shorter than 64 KiB.
- Floating-point values are their bits. A set or map is its members in iteration order; reading inserts them one by one.

## Findings

Where the code does not do what its callers or comments expect, the model follows the code, gives a concrete input and
proves exactly when it does:

- `create` syncs the log but not the database file. A crash before the header has reached the disk, in the file or in a
  durable frame, can lose the database itself; at every other point of every run a crash leaves what it should
  (`PagerCreation.SurvivesExactlyWhenSaved`).
- `new_page` resizes the file to the page count in memory; after a trim in the same transaction that cuts committed
  pages. A rollback then restores the database if and only if each of them has a frame or was zero
  (`PagerRuns.RollbackAfterResize`), and every crash leaves it if and only if each of them has a frame
  (`PagerRuns.CrashAfterResize`). `AllocationFailures.ShrinkThenGrow` gets there with two deletions.
- A new bitset page is not zeroed; left-over bits make pages look in use (`PageAllocator.NewPage`,
  `PageAllocation.ClaimNewBlock`). `AllocationFailures.LeaveStaleBits` gets there with two commits: cut off behind the
  page count, a bitset page's cleared bits are not logged. A checkpoint in between cuts the old bits off, and in a
  transaction begun then no allocation meets any (`AllocationFailures.AllocateAfterCheckpoint`,
  `PageAllocator.NewPages`).
- A call of `new_page` that waits for the bitset page it added can lose the page behind it to another call, and return it
  all the same (`AllocationSharing.OnePageTwice`, `AllocationSharing.TwoFirstCalls`). No caller in the repository
  allocates while another allocation is under way.
- A star in the key is taken for a star of the pattern (`Glob.ExactlyForStarlessKeys`).
- Inverted full bounds put the end of a scan before its start, and the scan runs off the tree
  (`RangeScanResults.ScanShowsAll`, `RangeScanResults.InvertedRunsAway`). A partition without a row in bounds is always
  shown once, for its static page, even if it has no static values.
- The comment at cql/engine/planner.cpp:312-315 says that descending values are encoded inverted; they are not, the
  comparator flips the sign. The loop at cql/engine/it.cpp:297-303 for keys that extend a prefix never finds one, since
  the comparator calls them equal. The loops over empty partitions at cql/engine/it.cpp:363-371 and 422-442 pass over
  none, and the comment at cql/engine/schema.cppm:64 is out of date: every partition of a table with clustering columns
  has a static page.
- The write check on its own admits a 64-bit value for a narrower column, which then does not read back
  (`ColumnValues.BasicRoundTrip`). Literals are narrowed before (cql/engine/io.evaluator.cpp:34-39); a value taken from
  another column is not (cql/engine/engine.cpp:784-790).
- Collection indexes decide by value equality which keys change, but the tree decides by its comparator which keys are
  one. The two differ for float, double, decimal, varint and timeuuid (`IndexKeys.IdentityKinds`,
  `IndexKeys.OtherKindsDiffer`). Index and rows agree after every history if and only if the indexed elements, values or
  map keys are of none of these kinds; of the map values of an entries index only float and double are harmful, since a
  map has no key twice and so no two of its entries share an index key (`IndexExactness.AgreesExactlyWhenSafe`).

## Model

| member | source | states |
|---|---|---|
| PagerRuns.CrashAtomicity | core/pager/pager.cpp:117-165 | From any state that satisfies the invariant: crash at any step of any legal run of transactions, checkpoints and recoveries, with any subset of unsynced writes kept and any touched unit torn, then recover with any number of further crashes: header and pages are exactly those of the last transaction whose frame count reached the disk |
| PagerRuns.RunRefines | core/pager/pager.cpp:288-347 | Legal runs from any such state refine a transactional page store: the store, fed the run's begins, writes, commits, rollbacks and crashes, holds exactly what cache, log and file show |
| PagerRuns.RecoveryCompletes | core/pager/pager.cpp:117-165 | From every crash image there is an uninterrupted recovery that reaches an idle pager showing the committed database |
| PagerRuns.RecoveryKeepsView | core/pager/pager.cpp:135-164 | Recovery steps and further crashes, in any number and order, keep the committed database |
| PagerRuns.IdleHeaderIsCommitted | core/pager/pager.cpp:284-285 | Between transactions memory shows the committed database and the header in memory is the one recovery would load |
| PagerRuns.RollbackAfterResize | core/pager/pager.cpp:635-648 | After a resize in a transaction, rolling back restores the committed database if and only if every page the resize cut off has a frame in the log or was zero |
| PagerRuns.CrashAfterResize | core/pager/pager.cpp:632-648 | Every crash right after a resize in a transaction leaves the committed database if and only if every committed page the resize cut off has a frame in the log; that it was zero is not enough |
| PagerRuns.CheckpointsInTime | core/pager/pager.cpp:335-340 | No run leaves a transaction ended with a checkpoint overdue: outside a checkpoint fewer commits than the interval are in the log, or none |
| AllocationFailures.ShrinkThenGrow | core/pager/pager.cpp:657-716 | From a new database: four pages committed and checkpointed, then two deletions that take the page count from 4 to 1, where the next allocation resizes to 3; that resize loses the committed page 3 on rollback and in a crash |
| PagerCreation.SurvivesExactlyWhenSaved | core/pager/pager.cpp:47-63 | In every state of every legal run from `create` on, earlier crashes included: every crash leaves what should survive it if and only if the header is on the disk, that is not written since the file's last sync, or in a durable frame |
| PagerCreation.FirstSyncMakesInv | core/pager/pager.cpp:288-347 | The first synced commit count, or the first synced checkpoint, puts the header on the disk: from then on the full invariant holds |
| PagerCreation.CarefulRunIsIntact | core/pager/pager.cpp:47-63 | A run from `create` on whose crashes fall when the header is on the disk keeps the pager sound, before the first sync and after it |
| PagerCreation.CreatedRunRefines | core/pager/pager.cpp:288-347 | Such a run refines the transactional page store in which the created database is the first one committed |
| PagerCreation.CrashAtomicityFromCreation | core/pager/pager.cpp:117-165 | Crash such a run anywhere the header is on the disk, and recover with any number of further crashes: header and pages are exactly those of the last transaction whose frame count reached the disk |
| PagerRuns.RunKeepsInv | core/pager/pager.cpp:263-486 | Every reachable state keeps the pager's invariant |
| PagerRefinement.StepSimulates | core/pager/pager.cpp:263-486 | Every single step keeps the invariant and is the step of the page store it means |
| PagerRefinement.TransactionStep | core/pager/pager.cpp:272-359 | Begin, page access, header change, growth and rollback, as steps of the page store |
| PagerRefinement.CommitStep | core/pager/pager.wal.cpp:97-146 | Append, sync, publish, sync: the store's commit happens exactly when the published count is synced |
| PagerRefinement.CheckpointStep | core/pager/pager.cpp:417-486 | Each step of a checkpoint, in which some units are written from the cache and some from their frames, leaves the committed view as it is |
| PagerRefinement.RecoveryStep | core/pager/pager.cpp:135-165 | Each step of a recovery leaves the committed view as it is |
| PagerRefinement.CrashSimulates | core/pager/pager.cpp:301-335 | A crash leaves the committed database, or that of the commit in flight if and only if the image kept its count |
| PagerRefinement.RollbackSimulates | core/pager/pager.cpp:349-359 | Rollback shows the committed view again |
| PagerRefinement.ExtendedPages | core/pager/pager.cpp:632-636 | Raising the page count keeps the pages covered before and uncovers what cache, log or file hold beyond them |
| PagerRefinement.AppendIndex | core/pager/pager.cpp:323-328 | After an append `wal_index` again names the last frame of every unit, and reads give the appended blocks |
| PagerRefinement.FoldSimulates | core/pager/pager.cpp:417-470 | Overwriting one unit in the file with its newest block changes nothing a reader or a recovery sees |
| PagerRefinement.RecoverFrameSimulates | core/pager/pager.cpp:135-147 | Replaying one frame keeps the database recovery will end with |
| Replaying.ReplayEqualsLastFrames | core/pager/pager.cpp:135-147 | Replaying frames 0..n-1 in order equals writing, for each unit, only its last frame |
| Replaying.ReplayIdempotent | core/pager/pager.cpp:135-151 | A replay interrupted anywhere and started over ends with the same blocks |
| Replaying.LastFrameIsLast | core/pager/pager.cpp:326-328 | No later frame names the unit: the index entry is the newest frame |
| Replaying.LastFrameGrows | core/pager/pager.wal.cpp:97-132 | Appending frames keeps a unit's last frame or replaces it by an appended one |
| Replaying.LastFrameLocal | core/pager/pager.wal.cpp:97-132 | Frames at or past the count have no influence on what recovery makes |
| PagerObject.Pager.CrashAnywhere | core/pager/pager.cpp:117-165 | Whatever the object has done since the database was created, a crash at any point of its history (inside any method) where the header is on the disk, and a recovery, give the last commit on disk |
| PagerObject.Pager.BeginTransaction | core/pager/pager.cpp:272-286 | Starts from the committed database, which stays committed |
| PagerObject.Pager.CommitTransaction | core/pager/pager.cpp:288-347 | What the transaction saw becomes the committed database. With an empty log and nothing to write no page below the cache changes. Else, when a checkpoint is due with this commit, log and index are empty afterwards and every page past the page count reads as zero; when it is not, the commit is counted and a page that is not in the write set still reads as before below the cache |
| PagerObject.Pager.RollbackTransaction | core/pager/pager.cpp:349-359 | The committed database is seen again, unchanged |
| PagerObject.Pager.RPage | core/pager/pager.cpp:495-534 | Returns the page as the transaction sees it, cached or not, and changes no view |
| PagerObject.Pager.RWPage | core/pager/pager.cpp:536-588 | The same, and the page is dirty from then on |
| PagerObject.Pager.StorePage | core/pager/pager.cpp:576-588 | A store through the pointer changes that page of the transaction's view and nothing else |
| PagerObject.Pager.EnsurePageZeroed | core/pager/pager.cpp:606-614 | The page is zero in the transaction's view and dirty; nothing else changes |
| PagerObject.Pager.SetHeader | core/pager/pager.cpp:488-493 | The view takes the new header and keeps the pages it still covers |
| PagerObject.Pager.GrowTo | core/pager/pager.cpp:632-636 | Raises the page count and resizes the file, also below the committed page count as long as the pages cut off have frames; the committed database is kept |
| PagerObject.Pager.LoadPage | core/pager/pager.cpp:509-527 | A miss loads the page's last frame, or else the file |
| PagerObject.Pager.GatherWriteSet | core/pager/pager.cpp:301-321 | Lists exactly the dirty pages below the page count and the changed header, each once |
| PagerObject.Pager.AppendFrames | core/pager/pager.wal.cpp:97-132 | The write set stands in the log behind the frames already there, and the index names it |
| PagerObject.Pager.PublishFrames | core/pager/pager.wal.cpp:134-146 | Once the count is synced the transaction's view is the committed database |
| PagerObject.Pager.FoldLog | core/pager/pager.cpp:417-486 | The log is folded into the file, the file cut at the page count, the log emptied; the committed database is the same |
| PagerObject.Pager.SyncFoldedFile | core/pager/pager.cpp:477-478 | The file ends at the page count and is synced |
| PagerObject.Pager.StoreCommit | core/pager/pager.cpp:335-345 | With a frame in the log the commit is published and counted, and the checkpoint made that is due with it; without one no file changes |
| PagerObject.Pager.FoldUnits | core/pager/pager.cpp:442-470 | Every unit the index names is written, each once |
| PagerObject.Pager.Checkpoint | core/pager/pager.cpp:417-486 | A checkpoint between transactions changes no view, leaves log and index empty, and cuts the file: every page past the page count reads as zero |
| PagerObject.Pager.ReplayFrames | core/pager/pager.cpp:135-147 | All frames are replayed and the committed database is the same |
| PagerObject.Pager.Recover | core/pager/pager.cpp:117-165 | Opening what Destroy or a crash left ends idle and shows the committed database; if frames were replayed, the log is empty and every page past the page count reads as zero, and if not, the files are as they were |
| PagerObject.Pager.constructor | core/pager/pager.cpp:47-63 | `create` and `init` leave a database of one page without root, whose header no sync has yet made safe |
| PagerObject.Pager.AfterCrash | core/pager/pager.cpp:117-133 | A new process over the files of a crash image is closed, and what it has to recover is what survived that crash |
| PagerObject.Pager.Destroy | core/pager/pager.cpp:200-208 | An open transaction is rolled back; memory is gone and the committed database is the same |
| PageAllocator.NewPage | core/pager/pager.cpp:616-655 | As long as a resize it needs cuts off no committed page without a frame: hands out the lowest page not in use (never page 0 or a bitset page), zeroed, marks exactly that page and keeps the root page, if and only if not: every bitset is full and the page where the next bitset goes has stale bits |
| PageAllocator.BeginClean | core/pager/pager.cpp:477-481 | A transaction begun after a checkpoint, or after a recovery with a replay, finds nothing past the page count |
| PageAllocator.NewPages | core/pager/pager.cpp:616-655 | In such a transaction no allocation comes upon stale bits, however many there are: the pages handed out are all different, were free, are zeroed, and with those in use before are exactly the pages in use; contents of the latter are unchanged |
| PageAllocator.ReuseHole | core/pager/pager.cpp:622-643 | The scan claims the lowest free page; it finds none only if every bitset is full and the page count is where the next bitset page belongs, so the alignment assertion holds |
| PageAllocator.OpenBlock | core/pager/pager.cpp:643-655 | A new bitset page and the page behind it are added, the bitset page holding what lay there plus its first bit |
| PageAllocator.DeletePage | core/pager/pager.cpp:657-716 | Takes exactly its argument out of use, zeroes it, keeps the others, keeps the root page, and makes the page count one more than the last page in use, cascading over empty blocks |
| PageAllocator.Trim | core/pager/pager.cpp:690-714 | The trim loop ends, over any number of blocks, at the last page in use |
| PageAllocator.ScanBack | core/pager/pager.cpp:693-703 | The count one bitset page leads to is just past its last bit set, or the bitset page itself |
| PageHistory.AllocationHistory | core/pager/pager.cpp:616-716 | After any history of allocations, deletions, stores, root changes, commits and rollbacks the pages in use, seen and committed, are exactly those handed out and not given back, each holds what was last stored in it, none in use was handed out again, only pages in use were given back, the root page is the one last set, and the page count is one more than the largest (1 if none) |
| PageHistory.Perform | core/pager/pager.cpp:616-716 | Runs any list of operations on a pager, begins, commits, checkpoints and reopenings included, as such a history; operations whose check fails are passed over |
| PageHistory.Do | core/pager/pager.cpp:616-716 | One operation makes the change it stands for exactly when its check holds, and none otherwise: an allocation, when it is sound and a resize it needs cuts off no committed page without a frame |
| PageHistory.PerformOnNew | core/pager/pager.cpp:616-716 | Any list of operations on a new database ends with its pages, seen and committed, as the record has them |
| PageHistory.ReopenAfterCrash | core/pager/pager.cpp:117-165 | A crash between two operations and the opening of what it left is such a change, too: the open transaction is gone and nothing else |
| PageHistory.WouldGrow | core/pager/pager.cpp:622-643 | Says without claiming anything whether the next allocation raises the page count and whether it needs a new bitset page |
| PageHistory.ChangeIsRecorded | core/pager/pager.cpp:616-716 | Each change of the page views is the change a keeper of page contents without bitsets, caches and logs would record |
| PageAllocation.AllocatesKeepsTight | core/pager/pager.cpp:626-655 | A sound allocation keeps the page count one more than the last page in use |
| PageAllocation.ClaimNewBlock | core/pager/pager.cpp:643-655 | Opening a block is a sound allocation if and only if no bit but the first is set in the new bitset page |
| AllocationFailures.LeaveStaleBits | core/pager/pager.cpp:645-651 | From a new database: one full block and two pages of the next committed, the two deleted and that committed; the next allocation needs a bitset page and finds the old bits where it goes |
| AllocationFailures.AllocateOverStaleBits | core/pager/pager.cpp:643-655 | The allocation made there is not sound |
| AllocationFailures.AllocateAfterCheckpoint | core/pager/pager.cpp:477 | With a checkpoint in between, which cuts the old bits off the file, the same allocation is sound |
| PageAllocation.FullIsAligned | core/pager/pager.cpp:643 | With every bitset full the page count is where the next bitset page belongs |
| PageAllocation.ClaimInBlock | core/pager/pager.cpp:626-638 | Claiming the lowest free page of an existing block is a sound allocation |
| PageAllocation.TrimmedPages | core/pager/pager.cpp:690-714 | Cutting behind the last page in use frees nothing else and keeps the page count exact |
| PageAllocation.LowestClear | core/pager/pager.cpp:628-629 | The lowest clear bit of a word that is not full |
| PageAllocation.OccupiedBits | core/pager/pager.cpp:694-697 | The number of bits up to the highest one set |
| PageSharing.HoldersAgree | core/pager/pager.cpp:501-533 | In every interleaving of loads, stores, zeroings and finishes in one transaction, two coroutines given the same page hold the same live buffer, which has the last content stored; a writable page is dirty |
| PageSharing.BufferStays | core/pager/pager.cpp:542-575 | Once cached a page's buffer is never replaced, and once dirty it stays dirty |
| PageSharing.RunSound | core/pager/pager.cpp:495-588 | Every interleaving keeps the cache sound, and each page's content is that of a plain page map |
| PageSharing.StepContent | core/pager/pager.cpp:501-533 | One start, finish, store or zeroing changes the page contents as a plain map would |
| AllocationSharing.OnePageTwice | core/pager/pager.cpp:616-655 | However any number of `new_page` calls interleave at their page loads: once none waits for a bitset page it added, two were given one page if and only if at some point one took the first page of a block while the call that had added the block was still waiting for its bitset page |
| AllocationSharing.DifferentPages | core/pager/pager.cpp:643-655 | So all pages given are different if every added bitset page is in the cache already, or nobody allocates while one is loaded |
| AllocationSharing.TwoFirstCalls | core/pager/pager.cpp:643-655 | In a new database two first calls that interleave are both given page 2 |
| Glob.Match | keyvalue/glob/glob.cpp:8-32 | The one-loop matcher with last-star backtracking terminates and computes the scan's result |
| Glob.MatchSound | keyvalue/glob/glob.cpp:8-32 | A true result means that the pattern matches, for every key and pattern |
| Glob.MatchComplete | keyvalue/glob/glob.cpp:8-32 | For keys without a star every match is found |
| Glob.ExactlyForStarlessKeys | keyvalue/glob/glob.cpp:15 | The matcher gives every pattern its meaning on a key if and only if the key contains no star |
| Glob.StarInKeyMisleads | keyvalue/glob/glob.cpp:15 | For every key with a star, a pattern that matches it and is rejected |
| Glob.LaterStarSuffices | keyvalue/glob/glob.cpp:18-27 | Falling back to the last star only loses nothing |
| DecimalCompare.DecimalCompareExact | cql/engine/column_value.cpp:145-157 | The sign of the exact difference of two decimals, for any scales that can be subtracted and any representation |
| DecimalCompare.DecimalOrder | cql/engine/column_value.cpp:145-157 | Hence antisymmetric and transitive, with equal decimals interchangeable |
| DecimalCompare.VarIntCompareExact | cql/engine/column_value.cpp:97-114 | The sign of the exact difference of two big integers, leading zeros and negative zero included |
| DecimalCompare.MagnitudeCompareExact | cql/engine/column_value.cpp:80-91 | The sign of the difference of two base-256 magnitudes |
| DecimalCompare.MagnitudeMulPow10 | cql/engine/column_value.cpp:117-142 | The in-place loop multiplies by ten the given number of times, with a carry of at most nine |
| DecimalCompare.MulPow10Value | cql/engine/column_value.cpp:117-142 | That multiplies the value by the power of ten |
| DecimalCompare.MagnitudeBounds | cql/engine/column_value.cpp:73-79 | Finds the first byte that is not zero |
| Murmur.StreamedToken | cql/engine/token.cpp:163-193 | However the input is cut into pieces, feeding them one after the other gives the token of the whole |
| Murmur.Murmur3State.Update | cql/engine/token.cpp:163-187 | The state stands for the bytes fed so far and the new ones: whole blocks hashed, the tail carried |
| Murmur.Murmur3State.Finalize | cql/engine/token.cpp:189-193 | The token of all bytes fed |
| Murmur.Murmur3Token | cql/engine/token.cpp:144-161 | The one-shot loop computes the token |
| Murmur.SplitToken | cql/engine/token.cpp:144-156 | A token is determined by the fold over whole blocks, the tail and the length |
| MurmurValues.SmallInts | cql/engine/token.test.cpp:46-52 | The reference tokens of the int keys 0 to 4 |
| MurmurValues.MinusOne | cql/engine/token.cpp:65-67 | The token of the int key -1, all of whose bytes are negative |
| MurmurValues.FifteenBytes | cql/engine/token.cpp:63-128 | The token of a tail of 15 bytes, high ones among them, which fixes both words of the tail and their scrambling |
| MurmurValues.SixteenBytes | cql/engine/token.cpp:40-57 | The token of one whole block, which fixes the constants and rotations of a block |
| MurmurValues.ThirtyFiveBytes | cql/engine/token.cpp:40-156 | The token of two blocks and a tail: both halves of the hash are in use when the second block arrives |
| KeyCombinations.BuildCombos | cql/engine/planner.cpp:428-446 | Emits as many combinations as the product, and the idx-th has at each position the choice that dividing by the stride gives, if the product fits 64 bits |
| KeyCombinations.EveryChoiceOnce | cql/engine/planner.cpp:428-446 | Every choice of one value a position stands at its own number among the combinations |
| KeyCombinations.ChoiceOf | cql/engine/planner.cpp:436-443 | Every number below the product is the number of a choice |
| KeyCombinations.NumberIsInjective | cql/engine/planner.cpp:436-443 | Of one choice only |
| KeyCombinations.NumberIsLexicographic | cql/engine/planner.cpp:436-443 | Combinations come in lexicographic order |
| KeyCombinations.EmptyListEmptyResult | cql/engine/planner.cpp:431-436 | Nothing is emitted exactly when some list is empty |
| TypeCodec.DecodeEncoded | cql/engine/schema.types.cpp:120-198 | read_type inverts write_type wherever the encoding stands and ends exactly serialized_type_size bytes later; it fails if and only if a user-defined type in it does not resolve |
| TypeCodec.DecodeAllEncoded | cql/engine/schema.types.cpp:163-176 | Encodings one after the other read back in sequence |
| TypeCodec.SizeIsLength | cql/engine/schema.types.cpp:14-39 | serialized_type_size is the number of bytes written |
| TypeCodec.WriteType | cql/engine/schema.types.cpp:66-118 | Overwrites exactly the type's bytes at the offset, leaves all other bytes alone, and returns the offset behind |
| TypeCodec.WriteElements | cql/engine/schema.types.cpp:101-108 | The same for the elements of a tuple, one after the other |
| TypeCodec.ReadType | cql/engine/schema.types.cpp:120-198 | Reads what stands at the offset, with the errors and offsets of the decoding |
| TypeCodec.WriteThenRead | cql/engine/schema.types.cpp:66-198 | Two records written one behind the other into any blob read back in sequence |
| ColumnValues.BasicRoundTrip | cql/engine/generated/io_codec_wire.cppm:112-155 | A basic value the write check accepts reads back if and only if it is in its kind's own representation: the check on its own also lets a 64-bit value into a narrower column |
| ColumnValues.DecodeNative | cql/engine/generated/io_codec_wire.cpp:22-158 | Every native value reads back from wherever it stands |
| ColumnValues.SkipBasicMatchesRead | cql/engine/generated/io_codec_wire.cpp:161-275 | On any bytes, skipping a basic value ends where reading it would |
| ColumnOrder.ColumnPreorder | cql/engine/column_value.cpp:159-220 | compare_column_value is a total preorder on every kind that has an order |
| ColumnMeaning.IntegersInOrder | cql/engine/column_value.cpp:161-175 | Integer columns are in numerical order, a tinyint as its signed number, false before true |
| ColumnMeaning.BytesInOrder | cql/engine/column_value.cpp:180-201 | Text, blob and inet columns are in dictionary order: a proper prefix first, else the smaller byte at the first difference |
| ColumnMeaning.FloatsInOrder | cql/engine/column_value.cpp:29-42 | Float and double columns are in numerical order, infinities included, the negative zero before the positive one |
| ColumnMeaning.TimeUuidsInOrder | cql/engine/column_value.cpp:45-59 | Time UUIDs are in dictionary order of their bytes with the timestamp put together first, the version left out |
| ColumnMeaning.UuidsInOrder | cql/engine/column_value.cpp:60-70 | UUIDs are in dictionary order of their version, then of these bytes for version 1 and of their own for any other |
| ColumnMeaning.BigNumbersInOrder | cql/engine/column_value.cpp:204-207 | Big integers and decimals are in numerical order |
| ColumnOrder.RunsAreLexicographic | cql/engine/column_value.cpp:20-27 | compare_bytes is lexicographic order |
| ColumnOrder.DoubleKeysAreDistinct | cql/engine/column_value.cpp:29-34 | Different bits of a double are different places in the order, the two zeros included |
| Clustering.CompareClustering | cql/engine/clustering_compare.cpp:15-36 | On encoded keys the byte comparator decides by the first component that differs, each in its column's direction; a key that runs out is equal to all that extend it |
| Clustering.FirstDifferenceDecides | cql/engine/clustering_compare.cpp:22-36 | One key stands before another exactly if at some component, all before being equal, its value is smaller, or larger in a descending column |
| Clustering.DecodeClustering | cql/engine/key.cpp:146-156 | Decoding an encoded key or prefix gives its components |
| Clustering.EncodeKeyInjective | cql/engine/key.cpp:52-63 | One encoded key is a byte prefix of another only if its components are a prefix of the other's |
| Clustering.CompareMonotone | cql/engine/clustering_compare.cpp:15-36 | A larger key does not compare smaller against any bound, be it a whole key or a prefix |
| Clustering.CompareFlips | cql/engine/clustering_compare.cpp:15-36 | Exchanging the keys flips the sign |
| Clustering.KeyOrderTransitive | cql/engine/clustering_compare.cpp:15-36 | Transitive on whole keys in columns of any mixed directions |
| Clustering.PrefixIsEqual | cql/engine/clustering_compare.cpp:18-21 | A key compares equal to its own prefixes |
| Clustering.EqualKeysAreContiguous | cql/engine/clustering_compare.cpp:15-36 | In a sorted tree the keys equal to a prefix form one contiguous run |
| KeyBounds.RangeBoundAdmits | cql/engine/planner.cpp:316-363 | The bounds built for a range on leading columns of one direction admit exactly the keys in the relation (among those the other side admits), descending columns included |
| KeyBounds.PrefixBoundsAdmit | cql/engine/planner.cpp:906-936 | The bounds built for a prefix equality admit exactly the keys whose leading components compare equal |
| KeyBounds.BoundsAreMonotone | cql/engine/it.cpp:239-320 | Keys before the bounds are at the front of a tree, keys past them at its back |
| KeyBounds.InOrderLeavesNoGap | cql/engine/it.cpp:290-317 | No key lies outside bounds in order on both sides |
| RangeScan.RowIterator.Setup | cql/engine/it.cpp:239-320 | Stands at the first row of the scan in its direction, with the end position, and shows a partition without such a row for its static page |
| RangeScan.FindsLow | cql/engine/it.cpp:290-296 | The search that setup picks for the begin bound, by its inclusiveness, stops at the first key not before the bounds |
| RangeScan.FindsHigh | cql/engine/it.cpp:251-257 | The searches that setup picks for a full end bound stop at the last key not past the bounds, or right behind it |
| RangeScan.RowIterator.SetupReverse | cql/engine/it.cpp:245-288 | Stands at the last row within both bounds, or at none |
| RangeScan.RowIterator.SkipExtensions | cql/engine/it.cpp:297-303 | The loop over byte extensions of an exclusive partial bound never finds one |
| RangeScan.RowIterator.Advance | cql/engine/it.cpp:322-377 | Steps inside the partition, or to the start of the next one |
| RangeScan.RowIterator.PassEmpty | cql/engine/it.cpp:422-442 | The loop over partitions with nothing to show passes over none, since every partition has a static page |
| RangeScan.RowIterator.Collect | cql/engine/it.cpp:322-377 | A caller's loop over a range of partitions yields the items of the scan's specification, or reports the position that is no row |
| RangeScanResults.ShownRowsAreAdmitted | cql/engine/it.cpp:239-320 | A scan of a partition shows exactly the admitted rows once in its direction, except one row past a partial end bound when none is admitted and a row lies behind the begin bound |
| RangeScanResults.ScanThenFilter | cql/engine/it.cpp:339-362 | Filtering the rows scanned equals filtering every row, for every filter that implies the bounds |
| RangeScanResults.ScanShowsAll | cql/engine/it.cpp:322-377 | A scan over a range of partitions gets through if and only if no partition's end lies before its start; it then shows every partition's share in order |
| RangeScanResults.NoGap | cql/engine/it.cpp:319 | No partition has nothing to show, so none can stand behind a static-only one, which advance leaves without looking; each shows something unless its end lies before its start |
| RangeScanResults.InOrderIsNotInverted | cql/engine/it.cpp:290-317 | Bounds in order never put the end before the start |
| RangeScanResults.UnboundedShowsEverything | cql/engine/it.cpp:239-320 | Without bounds every partition shows all its rows, or its static page if it has none |
| RangeScanResults.InvertedRunsAway | cql/engine/it.cpp:290-317 | A concrete row and an inverted range with which the scan runs off the tree |
| PartitionTrees.PartitionTree.Insert | cql/engine/engine.cpp:3122-3204 | Every stored partition has a static page, and keeps it, after an insertion |
| PartitionTrees.PartitionTree.UpdateStatic | cql/engine/engine.cpp:2393-2434 | And after an update of static columns, which drops a partition left without values and rows |
| PartitionTrees.PartitionTree.UpdateRow | cql/engine/engine.cpp:2435-2487 | And after an update of a row |
| PartitionTrees.PartitionTree.DeleteRows | cql/engine/engine.cpp:2293-2391 | And after a deletion, which drops an emptied partition |
| PartitionTrees.PartitionTree.StoredAreScannable | cql/engine/engine.cpp:806-850 | So the partitions a scan finds in the tree are scannable |
| ValueCodecResults.DecodeEncoded | cql/engine/io.codec.cpp:185-255 | Reading under a type grown since (fields added to user-defined types at any depth) gives the value written, filled up with nulls, and ends right behind it |
| ValueCodecResults.RoundTrip | cql/engine/io.codec.cpp:185-424 | A value comes back as it was, with the reader right behind it, if and only if it fits its type: native components, no null directly inside a list, set, map or vector, a vector of its declared length, members and keys without equals, a value or null for every field |
| ValueCodecResults.DecodedFits | cql/engine/io.codec.cpp:185-255 | Whatever the reader makes of any bytes fits its type in that sense |
| ValueCodecResults.NullInsideIsLost | cql/engine/io.codec.cpp:359-424 | A list written with a null inside does not read back |
| ValueCodecResults.WrongLengthIsLost | cql/engine/io.codec.cpp:359-424 | Neither does a vector of another length than declared |
| ValueCodecResults.GrownUdtReadsNulls | cql/engine/io.codec.cpp:165-176 | A user-defined type written with k fields reads under the grown type as those k fields, then nulls |
| ValueCodecResults.DecodeFieldsEncoded | cql/engine/io.codec.cpp:108-120 | Each field is read if and only if its mask bit says it was written |
| ValueCodecResults.ExactFits | cql/engine/io.codec.cpp:185-255 | Distinct members, distinct keys and complete fields survive the containers' insertion |
| ValueEquality.ListsEqual | cql/engine/column_value.cpp:376-389 | Nested lists are equal if and only if they have one length and their elements are equal in pairs |
| ValueEquality.SetsEqual | cql/engine/column_value.cpp:390-404 | Nested sets are equal if and only if they have equally many members and each of one has an equal one in the other |
| ValueEquality.MapsEqual | cql/engine/column_value.cpp:405-420 | Nested maps likewise, by entries with equal keys and equal values |
| ValueEquality.PlainEqual | cql/engine/column_value.cpp:369-389 | On values without floating-point numbers, sets and maps, at any depth, equal values are the same |
| ValueEquality.FloatsEqual | cql/engine/column_value.cpp:373-375 | Floating-point values are equal if and only if neither is a NaN and they are the same number, the zeros being one |
| ValueEquality.EqualToItself | cql/engine/column_value.cpp:369-425 | A value without NaN is equal to itself |
| ValueEquality.EqualIsSymmetric | cql/engine/column_value.cpp:369-425 | A value without NaN whose sets have no equal members and whose maps have no equal keys is equal to what is equal to it |
| ValueEquality.EqualIsTransitive | cql/engine/column_value.cpp:369-425 | Equality is transitive on all values |
| ValueInsertion.InsertedMembers | cql/engine/io.codec.cpp:203-214 | A set read from bytes holds exactly the members read, up to equality |
| ValueInsertion.LastEntryCounts | cql/engine/io.codec.cpp:216-229 | In a map read from bytes a key has the value of the last entry read with an equal key |
| ValueCodec.AtMask | cql/engine/io.codec.cpp:94-106 | The bits read from the mask words are those written |
| ValueStream.SkipMatchesRead | cql/engine/io.codec.cpp:262-313 | On any bytes whatever, skipping a value ends where reading it would, or fails as reading it would |
| ValueStream.WriteMaskBits | cql/engine/io.codec.cpp:71-83 | The word-at-a-time loop writes one bit an index in words of 64 |
| ValueStream.WriteValue | cql/engine/io.codec.cpp:359-424 | Appends the value's encoding to the buffer |
| ValueStream.WriteMasked | cql/engine/io.codec.cpp:143-160 | The mask, then the payloads of the fields it names |
| ValueStream.BuildMask | cql/engine/io.codec.cpp:144-151 | The words hold exactly the presence bits |
| ValueStream.ReadValue | cql/engine/io.codec.cpp:185-255 | Reads what stands at the cursor and leaves the cursor behind it |
| ValueStream.ReadSet | cql/engine/io.codec.cpp:203-214 | Members are inserted as they are read |
| ValueStream.ReadMap | cql/engine/io.codec.cpp:216-229 | Entries are inserted as they are read |
| ValueStream.ReadUdt | cql/engine/io.codec.cpp:165-176 | As many fields as were written, then nulls |
| ValueStream.SkipValue | cql/engine/io.codec.cpp:262-313 | Moves the cursor over exactly the bytes reading would take |
| Rows.WriteRowBlob | cql/engine/engine.cpp:378-407 | Key values, row metadata, the two masks, and metadata and value of each active cell |
| Rows.WriteCellMeta | cql/engine/io.codec.cpp:36-44 | Flags, then the fields whose flag is set |
| Rows.ExpectedIsOriginal | cql/engine/it.cpp:137-173 | Under the types it was written with, a present value that fits its type is read as it was |
| Rows.MetadataIsOriginal | cql/engine/it.cpp:128-135 | A regular cell written with metadata has its flagged fields back; one written without has the row's time to live, if the row has one; key columns and absent cells have none |
| RowReading.ReadColumns | cql/engine/it.cpp:137-206 | Any mix of reading and passing over gives each column read its value and cell metadata as written, null where the row has none |
| RowReading.DrainColumns | cql/engine/engine.cpp:115-139 | All columns of the table as it is now: those of the row as written, later ones null; cell metadata without flags is dropped |
| RowReading.ColumnIterator.constructor | cql/engine/it.cpp:58-126 | Loads the key values, the metadata and the masks and stands at the first cell |
| RowReading.ColumnIterator.Deref | cql/engine/it.cpp:137-174 | The current column's value and metadata: the cell's own, or the row's time to live |
| RowReading.ColumnIterator.Advance | cql/engine/it.cpp:176-206 | A cell nobody read is skipped; the cursor stands at the next one |
| RowReading.ColumnIterator.ReadHeader | cql/engine/it.cpp:26-46 | Metadata, column count and both masks |
| WireImages.LastDigit | cql/engine/generated/io_codec_wire.cppm:17-86 | Numbers are stored as a little-endian machine holds them: the last byte counts most |
| WireImages.SignedImage | cql/engine/generated/io_codec_wire.cppm:17-86 | Negative numbers are stored wrapped around once |
| WireImages.NumberImages | cql/engine/generated/io_codec_wire.cppm:17-86 | The bytes of one number of each width |
| WireImages.CountedImages | cql/engine/generated/io_codec_wire.cppm:17-86 | The bytes of a text, a blob and an address |
| WireImages.ListImages | cql/engine/io.codec.cpp:359-424 | The bytes of a list, a set and a vector |
| WireImages.TupleImages | cql/engine/io.codec.cpp:143-160 | The bytes of a tuple and a user-defined type with a null field: field count, mask, payload |
| WireImages.RowImage | cql/engine/engine.cpp:378-407 | The bytes of a row: key, flags, expiry, column count, two masks, metadata with the flagged field only, value |
| WireImages.TypeImages | cql/engine/schema.types.cpp:66-118 | The bytes of list, set and map types |
| WireImages.CountedTypeImages | cql/engine/schema.types.cpp:66-118 | The bytes of vector, tuple and user-defined types |
| IndexAgreementResults.IndexAgrees | cql/engine/engine.cpp:1014-1093 | From an empty table on, after any writes and deletes of values the column can hold, a search in a safe index finds exactly the keys of the live rows, duplicate elements and equal map values included |
| IndexExactness.AgreesExactlyWhenSafe | cql/engine/engine.cpp:937-951 | For every basic, values, keys or entries index that can be created: it finds exactly the keys of the live rows after every history from an empty table if and only if it is safe, which CREATE INDEX could check: equality is key identity on the kind of its elements, values or map keys, and for entries the map values are no floating-point numbers |
| IndexLookup.SearchAfterHistory | cql/engine/engine.cpp:1014-1093 | After any writes and deletes, a search of a safe index for a value in a row succeeds if and only if such a row is live and its column compares equal to the value, or holds an element, a map key, a map value, or for an entries index a key with its value, that does |
| IndexLookup.SearchAfterBackfill | cql/engine/engine.cpp:1095-1178 | The same of an index backfilled from a listing of the rows, safe or not |
| IndexLookup.NoKeyTwice | cql/engine/engine.cpp:988-1009 | On any index, after any writes and deletes, no key is in it twice |
| IndexExactness.UnsafeFails | cql/engine/engine.cpp:1059-1084 | For every index that is not safe and every row, two writes of values the column can hold to that row of an empty table after which index and rows disagree |
| IndexAgreementResults.SafeIsFaithful | cql/engine/engine.cpp:937-951 | On a safe index every old and new value of a row meet that condition |
| IndexExactness.EqualKeepsOldKey | cql/engine/engine.cpp:1059-1084 | An entry replaced by an equal one with another key leaves the old key in the index |
| IndexExactness.UnequalLosesKey | cql/engine/engine.cpp:1059-1084 | Of two unequal entries with one key, taking one out takes out the key of both |
| IndexAgreementResults.ApplyAgrees | cql/engine/engine.cpp:1014-1093 | One write or delete keeps the agreement of a safe index |
| IndexAgreementResults.BackfillAgrees | cql/engine/engine.cpp:1095-1178 | Backfilling an empty index gives one in which a search finds the same keys |
| IndexAgreementResults.DiffTurnsOldIntoNew | cql/engine/engine.cpp:1059-1084 | The entries taken out and put in turn the old keys into the new ones, if equal entries have one key and no key that stays is taken out |
| IndexAgreementResults.Backfill | cql/engine/engine.cpp:1095-1178 | Inserts the entries of every row, row by row |
| IndexAgreement.IndexTree.Update | cql/engine/engine.cpp:1014-1093 | The tree after one row changed |
| IndexAgreement.IndexTree.ApplyDiff | cql/engine/engine.cpp:988-1009 | Takes out the removed keys, then puts in the added ones |
| IndexAgreement.Missing | cql/engine/engine.cpp:1059-1084 | The entries no entry of the other value is equal to |
| IndexKeys.IdentityKinds | cql/engine/column_value.cpp:369-427 | Kinds whose values are equal exactly when they have one key |
| IndexKeys.OtherKindsDiffer | cql/engine/column_value.cpp:369-427 | For every other kind that can be indexed, two values that tell equality and key identity apart |
| IndexKeys.SameSplits | cql/engine/key.cpp:103-112 | Two full index keys are one exactly when their value parts and their row parts are |
| IndexKeys.SameIsEquivalence | cql/engine/clustering_compare.cpp:15-36 | Being one key is an equivalence |

## Left out

- `commit_no_wal` and pagers without a log: it writes in place and promises no atomicity.
- The queue of waiting transactions, `set_root`'s callers, statistics and logging.
- The log header's magic, version, salt and page size checks, and frame checksums (they cover one word of the data).
- 64-bit overflow of page counts, frame counts and file offsets.
- Asynchronous I/O, sockets, threads and entry points: files are read and written by steps of the model.
- B-trees: a tree is a sorted sequence of keys with positions, or a set of keys up to the comparator; blobs are byte
  sequences, and their paging is not modelled.
- PagerObject.Pager.StorePage: the source hands out a pointer; here each store through it is a call.
- PagerObject.Pager.Checkpoint: only between transactions or inside a commit; a checkpoint inside an open transaction is
  not part of this model.
- PagerRuns.CrashAtomicity: legal runs, which leave out two things a caller can do. A commit while pages that a growing
  transaction uncovered have not been written (`new_page` zeroes every page it uncovers): the committed database would
  hold whatever lay there. A resize that cuts off committed pages without frames: what it loses is stated exactly by
  `PagerRuns.CrashAfterResize` and `PagerRuns.RollbackAfterResize`.
- PagerRuns.RunRefines: the same legal runs.
- PagerRuns.RunKeepsInv: the same legal runs, from a state whose header is on the disk; before that see
  `PagerCreation.CarefulRunIsIntact`.
- PagerObject.Pager.CrashAnywhere: the object's history has no crash while the header is on no disk; what such a crash
  leaves is the subject of `PagerCreation.SurvivesExactlyWhenSaved`.
- PageHistory.AllocationHistory: sound allocations only; when one is unsound is the subject of `PageAllocator.NewPage`.
- PageHistory.Perform: refuses allocations that would be unsound or would cut off committed pages without frames. Crashes
  between operations are `PageHistory.ReopenAfterCrash`, since a new object takes over.
- AllocationSharing.OnePageTwice: interleaved allocations alone, without deletions.
- PageAllocator.NewPage: a resize that cuts off committed pages without frames is excluded.
- PageAllocator.Trim: the header joins the write set at its last assignment rather than at each.
- RangeScan.RowIterator.Advance: token bounds on the partitions are the index range handed in; time-to-live filtering of
  rows is not modelled.
- KeyBounds.RangeBoundAdmits: says what the bounds built admit; which relations of a WHERE clause build bounds is not
  modelled (a range on a non-leading column goes to the filter alone).
- ValueCodecResults.RoundTrip: types whose user-defined types have fewer than 2^64 fields. Where the source asserts that a
  value suits its type before writing it, the model writes nothing.
- ValueEquality.SetsEqual: sets and maps are searched by equality; the hash tables under them, in which equal values
  share a bucket, are not modelled.
- ValueStream.ReadSet: members keep the order in which they were written; the source's hash order may differ.
- ColumnOrder.ColumnPreorder: decimals whose scales differ by less than 2^31; the source subtracts scales in 32 bits.
- Rows.WriteRowBlob: tables without a clustering key. Static pages and rows of clustered tables have the same header and
  cells and are not modelled separately.
- IndexExactness.AgreesExactlyWhenSafe: basic, values, keys and entries indexes on regular columns, with decimals whose
  scales lie in one window of 2^31 (`lowScale`); full indexes and indexes on static or clustering columns are left out,
  and so are the page numbers stored with each key.
- IndexAgreement.IndexTree.Update: the row is addressed by the key it is stored under.
- KeyCombinations.BuildCombos: lists whose product fits 64 bits; beyond that the total wraps around.
- TypeCodec.ReadType: user-defined types are names that resolve or do not; schema reload with dropped types is left out.
- SQL parsing and dispatch, virtual tables, formatting, wall-clock functions, plugins.
