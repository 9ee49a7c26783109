# Verified models of five kernel components

This project models five pieces of the kernel tree in Dafny and proves what each is for. The
models follow the code branch by branch. What the C code changes in place is a class or an array;
each method is proved against a value-level step, and the theorems are about all runs of those
steps. `dafny verify dfyconfig.toml` checks the whole project.

**unifdef** (`scripts/unifdef.c`): the expression evaluator, the line types and the table-driven
state machine. Main result: unless an error is reported, the C preprocessor selects the same text
from the output as from the input, under every completion of the symbols that were not given, also
if definitions in the file change them (`UnifdefPreservesMeaning`), and clean files are accepted exactly if they are well nested and not
too deep.

**Shared memory queue** (`drivers/char/rdbg.c`): block map, two rings and data blocks between a
producer and a consumer. Main results: what the consumer reads from the blocks is, over every run,
what was sent, in order and byte for byte (`DeliversInOrder`), every block has exactly one owner,
and the search for several blocks ends exactly in three stated cases (`SearchEndsExactlyWhen`).

**Fastmap DMA** (`dma-mapping-fast.c`, `io-pgtable-fast.c`, `qcom-dma-iommu-generic.c`): IOVA
allocation with deferred TLB invalidation, the flat page table, and scatterlists. Main results:
no device ever sees a stale translation of a mapped page (`DevicesSeeCurrentTranslations`), the
flat array is the table that the hardware walks (`FlatSlotIsWalkSlot`), and the DMA segments of a
mapped scatterlist reach its bytes in order, within the limits of the device (`MapSg` in
`FastMapping`).

**ARM LPAE page tables** (`drivers/iommu/qcom-io-pgtable-arm.c`): the tree of tables with entry
counts kept in descriptors, block mappings, splitting, mapping with a cached last-level table, and
the 64-bit words of the descriptors. Main results: each operation changes the translation of
exactly the addresses it reports, mapping succeeds only where nothing was in the way, no page of
memory is lost (`MapPages`, `UnmapPages`, `MapSg`), and the words in memory translate as the tree
does, after each of them (`MapPagesInMemory`, `UnmapPagesInMemory`, `MapSgInMemory`). A last-level table is freed when unmapping pages takes its last entry, unless
the pages asked for are miscounted; mapping never leaves one empty, and unmapping does exactly if
it splits a whole block away.

**zsmalloc** (`mm/zsmalloc.c`): size classes, zspages with free lists threaded through their
objects, handles, mapping across pages, migration of objects and of pages, fullness lists and
compaction. Main results: every run is a run of a plain map from handles to data
(`PoolRefinesMap`), the lists and counters always describe the zspages, and compaction ends, moves
nothing that a handle could notice, and leaves at most one partial zspage unless there is nothing
to gain (`Compact`).

Where the code does not do what one would expect, the model does as the code, and there is a lemma
with an input and one with the exact condition:

- the search for several blocks can run for ever (`SearchEndsExactlyWhen`, `FullQueueHangs`);
- invalidating a prepared scatterlist does not restore every empty segment (`PrepareInvalidateRestores`,
  `EmptySegmentNotRestored`);
- a message of more than 255 blocks does not fit into the cells of the block map (`SendKeeps`,
  `LongMessageLosesBlock`), and freeing a pointer that the consumer does not hold is not noticed
  (`ReturnKeeps`);
- a mapped scatterlist may cross a segment boundary that it could be kept from, unless the mapping
  starts at a boundary or lies between two (`BaseMustBeAligned`, `OneSegmentStays`,
  `TwoPagesCross`);
- unmapping a scatterlist stops at an empty DMA segment (`ExtentCovers`, `EmptySegmentEndsScan`);
- mapping a scatterlist that ends with certain empty entries succeeds without mapping the stretch
  before them (`MapSg`, `EmptyEntryLosesPage`);
- unmapping pages of which some are not mapped miscounts the entries of their table
  (`UnmapLastExact`, `UnmappedPageMiscounts`);
- unmapping all pages of a block at once splits it and leaves the new last-level table behind without
  entries, so that a block cannot be mapped there although nothing is (`UnmapPages`, `SplitEmpty`,
  `WholeSplitLeavesTable`);
- a table address with bits above 47 is not found again with the 64K granule (`TableRoundTrip`).

Units: LPAE addresses are counted in granules, zsmalloc memory in words of eight bytes; the size of
tables, pages and objects is a parameter. Page allocation, the order in which free pages are
taken, lock contention and failing trylocks are choices that the theorems leave open.

## Model

| member | source | states |
|---|---|---|
| `UnifdefEval.ParseTableSpells` | scripts/unifdef.c:912-944 | the tokens that the evaluator walks over spell one grammatical expression of the level, and the rest is what is left over |
| `UnifdefEval.ParsePrint` | scripts/unifdef.c:802-817 | every grammatical expression is read back from its own tokens, so precedence and left association are those of the table of operators |
| `UnifdefEval.EvalUnarySound` | scripts/unifdef.c:824-907 | the outcome for an operand agrees with the operand read from the same tokens: errors, rest, value, whether it is constant |
| `UnifdefEval.EvalTableSound` | scripts/unifdef.c:912-944 | the same for expressions of each level |
| `UnifdefEval.IfEvalSound` | scripts/unifdef.c:951-962 | an answer is the value of the expression under every completion of the unknown symbols; an expression without unknown symbols gets an answer unless it is constant and -k is off; under -K no other expression does |
| `UnifdefEval.StrictOnlyWithholds` | scripts/unifdef.c:765-777 | -K reads the same tokens, fails on the same conditions, and only turns answers into "unknown" |
| `UnifdefDriver.TableDiscipline` | scripts/unifdef.c:458-502 | for all states and line types: abort is never reached, groups are turned and closed only inside a group, the program ends only outside all groups |
| `UnifdefDriver.StepSane` | scripts/unifdef.c:418-502 | each line keeps the stack in order and within the depth limit |
| `UnifdefDriver.Run` | scripts/unifdef.c:583-596 | no run over any lines reaches abort |
| `UnifdefDriver.RunToEnd` | scripts/unifdef.c:583-596 | at the end of the file the program has stopped, normally only with every group closed |
| `UnifdefMeaning.LiveAgrees` | scripts/unifdef.c:418-502 | where lines are printed, the preprocessor selects input and output alike; where they are dropped, it does not select the input |
| `UnifdefMeaning.LineAgrees` | scripts/unifdef.c:458-502 | for every state, line and nesting, the transition keeps the nesting of the output and that of the input in agreement |
| `UnifdefMeaning.StepSimulates` | scripts/unifdef.c:418-502 | processing one line keeps the preprocessor on the output in step with the preprocessor on the input, and goes on past every well-nested clean line that is not nested too deeply |
| `UnifdefMeaning.RunSimulates` | scripts/unifdef.c:583-596 | the same over every prefix of every file |
| `UnifdefMeaning.OutputMeansTheSame` | scripts/unifdef.c:583-596 | if the program ends normally, the preprocessor selects the same text from the output as from the input, and finds both well nested, under every valuation, also one that changes with the text selected before |
| `UnifdefMeaning.AcceptsExactlyWellNested` | scripts/unifdef.c:526-547 | a file of clean directives is processed to its end if and only if it is well nested and no deeper than MAXDEPTH allows |
| `UnifdefProcess.Processor.IgnoreOff` | scripts/unifdef.c:507-513 | the group ignores comments as the enclosing one does |
| `UnifdefProcess.Processor.IgnoreOn` | scripts/unifdef.c:514-518 | the group ignores comments |
| `UnifdefProcess.Processor.Nest` | scripts/unifdef.c:526-535 | one level deeper, or an error at the limit, and nothing else |
| `UnifdefProcess.Processor.Unnest` | scripts/unifdef.c:536-542 | one level up, and nothing else |
| `UnifdefProcess.Processor.SetState` | scripts/unifdef.c:543-547 | the state of the innermost group, and no other, is set |
| `UnifdefProcess.Processor.Perform` | scripts/unifdef.c:418-456 | a transition function moves the stack as its effect says and writes the edited line unless it fails |
| `UnifdefProcess.Processor.ProcessLine` | scripts/unifdef.c:583-596 | the arrays indexed by depth go through the step of the state machine |
| `UnifdefProcess.Processor.Process` | scripts/unifdef.c:583-596 | the loop ends in the state that RunToEnd gives |
| `UnifdefWhole.VerdictHolds` | scripts/unifdef.c:951-962 | a verdict of true or false on a condition is borne out by every completion |
| `UnifdefWhole.TypesFit` | scripts/unifdef.c:676-717 | the line type of every directive is right under every completion, trailing garbage and comments included |
| `UnifdefWhole.UnifdefPreservesMeaning` | scripts/unifdef.c:583-740 | end to end: unless an error is reported, input and output leave the same text under every completion of the symbols not given on the command line, which may change with the text selected so far, as definitions in the file do |
| `UnifdefWhole.AcceptsWellNested` | scripts/unifdef.c:583-740 | end to end: without directives split by comments, no error is reported if and only if the file is well nested and not too deep |
| `UnifdefWhole.Unifdef` | scripts/unifdef.c:583-740 | the program itself: both of the above for the output it returns |
| `SmqBlockMap.MessagesDisjoint` | drivers/char/rdbg.c:162-227 | in a map whose cells count down, different messages occupy different blocks |
| `SmqBlockMap.MarkThenErase` | drivers/char/rdbg.c:162-227 | taking a run of blocks and giving it back restores the map |
| `SmqBlockMap.BytesAreMarks` | drivers/char/rdbg.c:196-204 | in cells of one byte the counts of a run come out right if and only if it has at most 255 blocks |
| `SmqBlockMap.SearchFindsFreeRun` | drivers/char/rdbg.c:184-217 | whatever the search for several blocks returns is free and long enough |
| `SmqBlockMap.LongRunIsFound` | drivers/char/rdbg.c:184-217 | if there is a long enough run of free blocks, the search finds one |
| `SmqBlockMap.GivesUpOnlyWithoutRun` | drivers/char/rdbg.c:184-217 | the search never reports a full map while there is a long enough run |
| `SmqBlockMap.SearchEndsExactlyWhen` | drivers/char/rdbg.c:184-217 | the search ends if and only if there is a long enough run, or there is exactly one run of free blocks, or there is none and the read index is at the border of a message |
| `SmqBlockMap.FullQueueHangs` | drivers/char/rdbg.c:184-217 | a queue filled with two-block messages from which the search for two blocks never ends |
| `SmqInvariant.SendKeeps` | drivers/char/rdbg.c:337-407 | into a run of free blocks, sending keeps the invariant that ties map, rings and bytes together if and only if the message has at most 255 blocks and the number of its first block fits into a node |
| `SmqInvariant.SendBreaks` | drivers/char/rdbg.c:337-407 | a message that does not fit into the cells or into a node is then not where its marks say |
| `SmqInvariant.LongMessageLosesBlock` | drivers/char/rdbg.c:337-407 | a message of 256 blocks in a new queue of 300: its first block counts as free while it is in flight, and the next message may be put over it |
| `SmqInvariant.ReceiveKeeps` | drivers/char/rdbg.c:296-335 | receiving keeps it: the blocks read through the node hold the oldest message in flight |
| `SmqInvariant.ReturnKeeps` | drivers/char/rdbg.c:261-294 | giving a block back keeps it if and only if it is the first block of a message that the consumer holds |
| `SmqInvariant.ReclaimKeeps` | drivers/char/rdbg.c:337-407 | taking returned blocks back keeps it, and the returned node does name a message |
| `SmqInvariant.NoRingFills` | drivers/char/rdbg.c:239-253 | since one block is never handed out, neither ring can overtake its reader |
| `SmqInvariant.DeliversInOrder` | drivers/char/rdbg.c:261-407 | over every run of calls that pass the checks of the code, for messages that can be represented and blocks freed by their holder, what the consumer read from the blocks is, in order and byte for byte, a prefix of what was sent, and the rest is in flight |
| `SmqInvariant.RunKeeps` | drivers/char/rdbg.c:261-407 | by induction over the calls: the invariant holds in every state of every such run, which logs exactly the messages sent |
| `SmqInvariant.StaysInMemory` | drivers/char/rdbg.c:261-407 | in such a run no call reads or writes outside the blocks and the rings |
| `SmqInvariant.TwoSendsFill` | drivers/char/rdbg.c:184-217 | the full state of FullQueueHangs is reached from a new queue by sending two messages of two blocks |
| `SmqInvariant.FirstSearches` | drivers/char/rdbg.c:184-217 | the search gives these two messages their blocks |
| `SmqInvariant.EveryBlockHasOnePlace` | drivers/char/rdbg.c:162-407 | in every state that satisfies the invariant, each block is free or in exactly one message, which is in flight, held or given back, and not two of these |
| `SmqInvariant.LayoutFits` | drivers/char/rdbg.c:645-727 | the blocks and both rings lie inside the shared region and do not overlap |
| `SmqQueue.BlockMap.constructor` | drivers/char/rdbg.c:239-253 | all blocks but the one that is withheld are free |
| `SmqQueue.BlockMap.FindFree` | drivers/char/rdbg.c:162-183 | the read index comes to a free block, or there is none |
| `SmqQueue.BlockMap.GetOne` | drivers/char/rdbg.c:162-183 | one free block is marked, or nothing is free and nothing has changed |
| `SmqQueue.BlockMap.Look` | drivers/char/rdbg.c:184-217 | the body of the search loop is one step of the search |
| `SmqQueue.BlockMap.GetMany` | drivers/char/rdbg.c:184-217 | a free run of the length asked for is marked; a refusal means that there is none; otherwise the search is still going on |
| `SmqQueue.BlockMap.Mark` | drivers/char/rdbg.c:196-204 | the cells of the run count down modulo 256, the others are as before |
| `SmqQueue.BlockMap.Get` | drivers/char/rdbg.c:162-217 | both cases together |
| `SmqQueue.BlockMap.Put` | drivers/char/rdbg.c:219-227 | exactly the blocks of the message become free |
| `SmqQueue.SharedQueue.constructor` | drivers/char/rdbg.c:645-727 | for every number of blocks from two on, the queue starts empty |
| `SmqQueue.SharedQueue.ReclaimOne` | drivers/char/rdbg.c:337-407 | one returned message is taken off the ring and its blocks become free |
| `SmqQueue.SharedQueue.Reclaim` | drivers/char/rdbg.c:337-407 | all returned messages are taken back |
| `SmqQueue.SharedQueue.Post` | drivers/char/rdbg.c:337-407 | the message is in blocks that were free and its node is published, or the queue is as before and the reason holds |
| `SmqQueue.SharedQueue.AllocSend` | drivers/char/rdbg.c:337-407 | a message is sent, or nothing in flight changes; what was given back is reclaimed; a refusal means there is no run of free blocks long enough; the invariant is kept if and only if nothing was sent or the size can be represented; a search that is not finished is still going on |
| `SmqQueue.SharedQueue.Receive` | drivers/char/rdbg.c:296-335 | the oldest message in flight is delivered unchanged, in whole blocks; underflow if and only if there is none; `more` says whether there is another |
| `SmqQueue.SharedQueue.Free` | drivers/char/rdbg.c:261-294 | for any pointer: one beyond the blocks is refused, any other is given back, and the invariant is kept if and only if it lies in the first block of a message that the consumer holds |
| `FastIova.FindNextZeroArea` | drivers/iommu/dma-mapping-fast.c:147-149 | the first aligned place with enough clear bits at or after the start, or no place exists |
| `FastIova.TakeKeeps` | drivers/iommu/dma-mapping-fast.c:190-195 | allocating pages that are clear in clean_bitmap keeps the invariant of the two bitmaps, the tables and the TLB |
| `FastIova.FlushKeeps` | drivers/iommu/dma-mapping-fast.c:163-175 | so does flushing the TLB and copying the bitmap |
| `FastIova.UnmapKeeps` | drivers/iommu/dma-mapping-fast.c:256-284 | so does unmapping without a flush |
| `FastIova.ReleaseKeeps` | drivers/iommu/dma-mapping-fast.c:200-213 | so does freeing |
| `FastIova.DevicesSeeCurrentTranslations` | drivers/iommu/dma-mapping-fast.c:139-284 | by induction over the calls, in every state of every run, what a device can see for a mapped page, by TLB or by walk, is its current translation |
| `FastIova.ReuseOnlyAfterFlush` | drivers/iommu/dma-mapping-fast.c:139-213 | no page is handed out again between its unmapping and the next flush, and no TLB entry for it is left |
| `FastIova.RunKeeps` | drivers/iommu/dma-mapping-fast.c:139-284 | every state of every run satisfies the invariant of the bitmaps, the tables and the TLB |
| `FastIova.FailsOnlyWithoutRoom` | drivers/iommu/dma-mapping-fast.c:139-198 | in every state that satisfies the invariant, an allocation fails only if no aligned run of free pages is long enough |
| `FastMapping.FastMapping.FindPlace` | drivers/iommu/dma-mapping-fast.c:147-188 | three searches with at most one flush between them find a place if and only if the true bitmap has one |
| `FastMapping.FastMapping.AllocIova` | drivers/iommu/dma-mapping-fast.c:139-198 | the pages were free, fit and are aligned; an error is returned if and only if no aligned free place exists |
| `FastMapping.FastMapping.MapPage` | drivers/iommu/dma-mapping-fast.c:215-254 | the device reaches exactly the bytes asked for from the address returned, no page outside the allocation changes; there is no address if and only if there is no room |
| `FastMapping.FastMapping.UnmapPage` | drivers/iommu/dma-mapping-fast.c:256-284 | exactly the pages of the mapping lose their entries in the page table and are freed, and the TLB is left alone |
| `FastMapping.FastMapping.FreeIova` | drivers/iommu/dma-mapping-fast.c:200-213 | the pages are clear in bitmap only, and the TLB is known to be stale |
| `FastMapping.FastMapping.constructor` | drivers/iommu/dma-mapping-fast.c:839-888 | all pages that are not reserved are free, and the page table translates none |
| `FastMapping.FastMapping.MapSg` | drivers/iommu/dma-mapping-fast.c:348-382 | prepare, allocate, map and finalise together: the DMA segments reach the bytes of the list in order, none is longer than the device allows if no segment is, and none crosses a boundary if no segment is wider than one and the base of the address range is aligned; without room, and only then, the list is invalidated and nothing is mapped |
| `FastMapping.FastMapping.UnmapSg` | drivers/iommu/dma-mapping-fast.c:384-419 | the pages of the extent are unmapped and freed; they are the whole allocation if and only if the scan covers it, and the pages after them stay mapped |
| `FastMapping.PlacementAvoids` | drivers/iommu/dma-mapping-fast.c:139-198 | an allocation that starts at a multiple of its rounded-up size, from an aligned base, lets every segment that fits be kept from the boundary |
| `FastBoundary.BaseMustBeAligned` | drivers/iommu/dma-mapping-fast.c:139-198 | for every list without too wide segments and every place that the allocator may give it, no DMA segment crosses a boundary, if and only if the mapping starts at a boundary or lies between two |
| `FastBoundary.OneSegment` | drivers/iommu/dma-mapping-fast.c:348-382 | a list of one segment becomes one DMA segment, at its offset in the first page of the allocation |
| `FastBoundary.OneSegmentStays` | drivers/iommu/dma-mapping-fast.c:139-198 | one segment crosses no boundary in any place that the allocator may give it, if and only if it fits between the remainder of the base and its alignment, or the one place where it does not lies beyond the mapping |
| `FastBoundary.TwoPagesCross` | drivers/iommu/dma-mapping-fast.c:139-198 | two pages at the start of a mapping that starts one page before a boundary cross it |
| `FastPgtable.FlatSlotIsWalkSlot` | drivers/iommu/io-pgtable-fast.c:132-139 | for every address the entry at the flat offset is the entry that a walk of the three levels reaches |
| `FastPgtable.PopulatePuds` | drivers/iommu/io-pgtable-fast.c:489-586 | one second-level page per gigabyte, each in its own first-level entry |
| `FastPgtable.PopulatePmds` | drivers/iommu/io-pgtable-fast.c:489-586 | one last-level page per two megabytes, each in its own second-level entry |
| `FastPgtable.Prepopulate` | drivers/iommu/io-pgtable-fast.c:489-586 | for every aperture the tables have the shape that the flat array needs |
| `FastPgtable.WalkAfterRewrite` | drivers/iommu/io-pgtable-fast.c:258-329 | rewriting a stretch of the array changes what a walk finds for exactly the pages of the stretch |
| `FastPgtable.MapThenTranslate` | drivers/iommu/io-pgtable-fast.c:374-408 | after mapping, the walk gives the mapped memory at the same distance from the start for exactly the pages of the range, and what it gave before for all others |
| `FastPgtable.FastTable.Fill` | drivers/iommu/io-pgtable-fast.c:258-329 | exactly the entries of the stretch are rewritten |
| `FastPgtable.FastTable.Map` | drivers/iommu/io-pgtable-fast.c:258-282 | exactly the pages of the range translate to the given memory; below the aperture nothing is done |
| `FastPgtable.FastTable.Unmap` | drivers/iommu/io-pgtable-fast.c:302-329 | exactly the pages of the range lose their entries; below the aperture nothing is done |
| `ScatterList.PrepareNextKeeps` | drivers/iommu/qcom-dma-iommu-generic.c:540-588 | saving, aligning and padding one more segment keeps all prepared segments recoverable and inside the boundary |
| `ScatterList.PrepareOne` | drivers/iommu/qcom-dma-iommu-generic.c:540-588 | one round of the loop on the list in place |
| `ScatterList.PrepareMapSg` | drivers/iommu/qcom-dma-iommu-generic.c:540-588 | the prepared list covers each segment by whole pages, its length is what is returned, and no segment that can be kept inside the boundary crosses it |
| `ScatterList.InvalidateSg` | drivers/iommu/qcom-dma-iommu-generic.c:650-663 | each segment is invalidated on its own |
| `ScatterList.InvalidateRestores` | drivers/iommu/qcom-dma-iommu-generic.c:650-663 | invalidating restores a prepared segment if and only if it was not empty or was left empty |
| `ScatterList.PrepareInvalidateRestores` | drivers/iommu/qcom-dma-iommu-generic.c:540-663 | preparing a list and invalidating it gives back the whole list if and only if no empty segment of it was given space |
| `ScatterList.EmptySegmentNotRestored` | drivers/iommu/qcom-dma-iommu-generic.c:650-663 | an empty segment at an odd offset comes back a page long |
| `ScatterList.FinalNextKeeps` | drivers/iommu/qcom-dma-iommu-generic.c:597-644 | each round puts the bytes of one more segment where the allocation has them and joins adjacent pieces only |
| `ScatterList.FinalNextWithinLimit` | drivers/iommu/qcom-dma-iommu-generic.c:597-644 | no DMA segment is longer than the device allows if no segment is |
| `ScatterList.FinalNextInside` | drivers/iommu/qcom-dma-iommu-generic.c:597-644 | joining never crosses the boundary |
| `ScatterList.FinaliseOne` | drivers/iommu/qcom-dma-iommu-generic.c:597-644 | one round of the loop on the list in place |
| `ScatterList.FinaliseSg` | drivers/iommu/qcom-dma-iommu-generic.c:597-644 | the DMA segments hold the bytes of the list in order, within length and boundary limits for every place from which the boundary can be avoided, and every segment has its own fields back |
| `FastSg.MapSegments` | drivers/iommu/io-pgtable-fast.c:345-359 | each segment is mapped after the one before it, and nothing else changes |
| `FastSg.PlacedReaches` | drivers/iommu/dma-mapping-fast.c:348-382 | through the tables, the addresses of the placed segments reach the bytes of the list in order |
| `FastSg.MapPrepared` | drivers/iommu/dma-mapping-fast.c:348-382 | using its DMA segments in order the device reaches the bytes of the list in order; nothing outside the allocation is affected |
| `FastSg.ScanEndAddress` | drivers/iommu/dma-mapping-fast.c:402-406 | the scan for the last DMA segment ends with the segment of the list before the first one that stops it: an empty one that starts a DMA segment of its own |
| `FastSg.ExtentCovers` | drivers/iommu/dma-mapping-fast.c:384-419 | the extent is the whole allocation if and only if nothing from there on takes IOVA space |
| `FastSg.EmptySegmentEndsScan` | drivers/iommu/dma-mapping-fast.c:402-406 | for every boundary and every address: of a list with an empty segment between two pages, laid out by the code, only the first page is unmapped |
| `FastSg.EmptySegmentBetween` | drivers/iommu/qcom-dma-iommu-generic.c:540-644 | the DMA segments of that list as the device gets them |
| `FastSg.LastDma` | drivers/iommu/dma-mapping-fast.c:402-406 | the loop stops at the last DMA segment before an empty one |
| `FastSg.Extent` | drivers/iommu/dma-mapping-fast.c:384-419 | for every mapped list: the extent worked out from the DMA fields alone starts where the allocation does and has the length given by the first segment that stops the scan |
| `FastSg.UnmapSg` | drivers/iommu/dma-mapping-fast.c:384-419 | exactly the extent is unmapped, which is what the mapping call allocated if and only if the scan covers it |
| `LpaeTree.WalkReaches` | drivers/iommu/qcom-io-pgtable-arm.c:1260-1299 | the walk for an address passes through every table that covers it |
| `LpaeTree.WalkSame` | drivers/iommu/qcom-io-pgtable-arm.c:1260-1299 | a change that leaves the entries on the way of an address alone leaves its translation alone |
| `LpaeUpdate.RewriteKeeps` | drivers/iommu/qcom-io-pgtable-arm.c:463-510 | rewriting plain entries with the right count keeps the tree in order |
| `LpaeUpdate.RewriteTranslates` | drivers/iommu/qcom-io-pgtable-arm.c:463-510 | it changes the translation of exactly the addresses of the entries that changed |
| `LpaeUpdate.InstallKeeps` | drivers/iommu/qcom-io-pgtable-arm.c:512-556 | installing a table below an entry keeps the tree in order |
| `LpaeUpdate.InstallTranslates` | drivers/iommu/qcom-io-pgtable-arm.c:512-556 | it changes the translation of exactly the addresses of the entry |
| `LpaeUpdate.PruneKeeps` | drivers/iommu/qcom-io-pgtable-arm.c:967-1004 | cutting off what is below an entry keeps the tree in order |
| `LpaeUpdate.PruneTranslates` | drivers/iommu/qcom-io-pgtable-arm.c:967-1004 | exactly the addresses of the entry lose their translation |
| `LpaeSpec.FillMaps` | drivers/iommu/qcom-io-pgtable-arm.c:488-510 | filling unused entries maps exactly their addresses |
| `LpaeSpec.EraseUnmaps` | drivers/iommu/qcom-io-pgtable-arm.c:1176-1211 | erasing entries unmaps exactly their addresses |
| `LpaeSpec.CountMore` | drivers/iommu/qcom-io-pgtable-arm.c:336-350 | the number of entries in use grows by the number of entries filled |
| `LpaeSpec.OutcomeAfterInstall` | drivers/iommu/qcom-io-pgtable-arm.c:569-703 | a new empty table on the way changes neither the outcome nor its reason, and a new last-level table is filled |
| `LpaeSpec.UnusedRun` | drivers/iommu/qcom-io-pgtable-arm.c:488-510 | nothing is in the way of a run of unused entries: no address of it is mapped and no table hangs below it |
| `LpaeSpec.NewIsFilled` | drivers/iommu/qcom-io-pgtable-arm.c:569-703 | mapping pages into a new last-level table succeeds, so it does not stay empty |
| `LpaeUnmap.SubtreeIs` | drivers/iommu/qcom-io-pgtable-arm.c:967-1004 | the tables that are freed are the table and the subtrees of its entries |
| `LpaeUnmap.PruneUnmaps` | drivers/iommu/qcom-io-pgtable-arm.c:1140-1175 | clearing an entry with all that is below it unmaps exactly the block |
| `LpaeUnmap.LastEntryGoes` | drivers/iommu/qcom-io-pgtable-arm.c:1176-1211 | the 13-bit count is zero if and only if the last entry is gone, although it has wrapped when 8192 entries are in use |
| `LpaeUnmap.FreeEmptyTable` | drivers/iommu/qcom-io-pgtable-arm.c:1176-1211 | freeing a table without entries changes no translation and frees only that table |
| `LpaeLast.UnmapLastStep` | drivers/iommu/qcom-io-pgtable-arm.c:1176-1211 | unmapping pages frees their table if and only if they were its last |
| `LpaeLast.UnmapLastExact` | drivers/iommu/qcom-io-pgtable-arm.c:1176-1211 | after unmapping pages of a last-level table, the tables are in order and exactly these pages are unmapped if and only if all of them were mapped, or 8192 were asked for and none was |
| `LpaeLast.SplitEmpty` | drivers/iommu/qcom-io-pgtable-arm.c:1049-1118 | splitting leaves a table without entries if and only if it is of the last level and nothing of the block is kept |
| `LpaeLast.WholeSplitLeavesTable` | drivers/iommu/qcom-io-pgtable-arm.c:1049-1118 | unmapping all pages of a block one level up at once leaves an empty table behind, so that the block cannot be mapped again although no address of it is mapped |
| `LpaeLast.WayMeansMapped` | drivers/iommu/qcom-io-pgtable-arm.c:488-510 | if no last-level table is empty, blocks one level up that cannot be mapped because something is in the way have a page that is mapped |
| `LpaeUnmap.SplitUnmaps` | drivers/iommu/qcom-io-pgtable-arm.c:1049-1118 | splitting a block unmaps exactly the parts left out and keeps the rest of it translated as before |
| `LpaeUnmap.SplitKeeps` | drivers/iommu/qcom-io-pgtable-arm.c:1049-1118 | splitting keeps the tree in order and loses no page |
| `LpaeLast.CountStaysRight` | drivers/iommu/qcom-io-pgtable-arm.c:1176-1211 | subtracting the pages asked for keeps the count right if and only if all of them were mapped, or 8192 were asked for and none was |
| `LpaeLast.UnmappedPageMiscounts` | drivers/iommu/qcom-io-pgtable-arm.c:1176-1211 | two pages of which one is mapped bring the count of a table in use to zero |
| `LpaePte.CountReadBack` | drivers/iommu/qcom-io-pgtable-arm.c:316-334 | the count read is the count set, modulo 8192 |
| `LpaePte.LeafRoundTrip` | drivers/iommu/qcom-io-pgtable-arm.c:361-486 | for each granule, a leaf entry gives back its address, attributes and type if and only if the address fits, with bits 51 to 48 packed for the 64K granule |
| `LpaePte.TableRoundTrip` | drivers/iommu/qcom-io-pgtable-arm.c:512-556 | a table descriptor gives back count and address if and only if the address has no bits above 47, for each granule |
| `LpaePte.CountAdds` | drivers/iommu/qcom-io-pgtable-arm.c:336-350 | adding to and subtracting from the count of a table descriptor is arithmetic modulo 8192 and changes nothing else of it |
| `LpaePte.WordsTranslate` | drivers/iommu/qcom-io-pgtable-arm.c:1260-1299 | walking the 64-bit words gives every address the translation that the tree of descriptors defines |
| `LpaePte.LeafRepresents` | drivers/iommu/qcom-io-pgtable-arm.c:466-486 | writing the word of a leaf is writing the leaf of the tree |
| `LpaePte.CountRepresents` | drivers/iommu/qcom-io-pgtable-arm.c:336-350 | counting in the word is the count of the tree changing modulo 8192 |
| `LpaePte.TableRepresents` | drivers/iommu/qcom-io-pgtable-arm.c:512-556 | writing the word of a table is installing the table in the tree |
| `LpaeWords.CountEncoded` | drivers/iommu/qcom-io-pgtable-arm.c:336-350 | the word written for a count is the word of the descriptor with the new count |
| `LpaeWords.PutEncoded` | drivers/iommu/qcom-io-pgtable-arm.c:466-486 | writing the word of a descriptor gives the memory of the tree with that descriptor |
| `LpaeWords.InstallEncoded` | drivers/iommu/qcom-io-pgtable-arm.c:512-556 | installing a table gives the memory of the tree with the table |
| `LpaeWords.FreeEncoded` | drivers/iommu/qcom-io-pgtable-arm.c:967-1004 | freeing tables gives the memory of the tree without them |
| `LpaeWords.TreeRepresented` | drivers/iommu/qcom-io-pgtable-arm.c:1260-1299 | the words of a tree in order, whose outputs and tables can be named, are those of the tree, and a walk of them translates every address as the tree does |
| `LpaeWords.MapPagesInMemory` | drivers/iommu/qcom-io-pgtable-arm.c:773-810 | after mapping pages, the walk of the words in memory gives the run for exactly its addresses and what it gave before for all others, if the whole run lies in the output range |
| `LpaeWords.UnmapPagesInMemory` | drivers/iommu/qcom-io-pgtable-arm.c:1231-1257 | after unmapping, splitting and freeing included, the walk of the words faults for exactly the addresses reported and gives what it gave before for all others |
| `LpaeWords.MapSgInMemory` | drivers/iommu/qcom-io-pgtable-arm.c:908-964 | after mapping a scatterlist, the walk of the words gives its pages in order as far as reported, and what it gave before for all others |
| `LpaePgsize.OrDivides` | drivers/iommu/qcom-io-pgtable-arm.c:813-843 | a power of two divides the or of two addresses if and only if it divides both |
| `LpaePgsize.Limit` | drivers/iommu/qcom-io-pgtable-arm.c:813-843 | the highest bit found is the largest usable size |
| `LpaePgsize.PgSize` | drivers/iommu/qcom-io-pgtable-arm.c:813-843 | the size chosen is supported, fits and is aligned, and no larger supported one is |
| `LpaePgtable.PageTable.constructor` | drivers/iommu/qcom-io-pgtable-arm.c:1395-1506 | a new tree translates nothing |
| `LpaePgtable.PageTable.IovaToPhys` | drivers/iommu/qcom-io-pgtable-arm.c:1260-1299 | the loop computes the translation that the tree defines |
| `LpaePgtable.PageTable.InitPte` | drivers/iommu/qcom-io-pgtable-arm.c:488-510 | the entries are filled and counted if and only if all are unused, otherwise nothing changes |
| `LpaePgtable.PageTable.MapHere` | drivers/iommu/qcom-io-pgtable-arm.c:585-600 | exactly the blocks of the entries are mapped if and only if nothing is in the way, otherwise nothing changes; no last-level table is left empty |
| `LpaePgtable.PageTable.InstallEmpty` | drivers/iommu/qcom-io-pgtable-arm.c:512-556 | a zeroed page from the allocator is installed, or there is none and nothing changes |
| `LpaePgtable.PageTable.NextTable` | drivers/iommu/qcom-io-pgtable-arm.c:640-679 | the step to the next level changes no translation, and fails only on a block in the way or without memory |
| `LpaePgtable.PageTable.MapAt` | drivers/iommu/qcom-io-pgtable-arm.c:569-703 | as much of the request as lies in one table is mapped, exactly, and nothing was in the way; or no translation changes and something is in the way or no page is left; no last-level table is left empty |
| `LpaePgtable.PageTable.MapPages` | drivers/iommu/qcom-io-pgtable-arm.c:773-810 | exactly the pages reported as mapped are, where nothing was in the way, with every error and its reason; with pages for tables it is refused as existing if and only if something is in the way; no last-level table is left empty |
| `LpaePgtable.PageTable.FreePgtable` | drivers/iommu/qcom-io-pgtable-arm.c:967-1004 | the recursion frees exactly the subtree, each table once |
| `LpaePgtable.PageTable.ClearEntry` | drivers/iommu/qcom-io-pgtable-arm.c:1140-1175 | exactly one block is unmapped, and what was below it is freed |
| `LpaePgtable.PageTable.UnmapHere` | drivers/iommu/qcom-io-pgtable-arm.c:1140-1175 | blocks are unmapped up to the first unused entry |
| `LpaePgtable.PageTable.UnmapLast` | drivers/iommu/qcom-io-pgtable-arm.c:1176-1211 | for any pages of a last-level table: the tables are in order and exactly these pages are unmapped if and only if they count out right, and then the table is freed if and only if they were its last |
| `LpaePgtable.PageTable.SplitBlock` | drivers/iommu/qcom-io-pgtable-arm.c:1049-1118 | the block becomes a table of its parts without those asked for, or there is no memory and nothing changes |
| `LpaePgtable.PageTable.UnmapSplit` | drivers/iommu/qcom-io-pgtable-arm.c:1212-1228 | a block larger than the request is split as often as needed, only the request is unmapped, and an empty last-level table is left if and only if the request takes the whole block page by page |
| `LpaePgtable.PageTable.UnmapAt` | drivers/iommu/qcom-io-pgtable-arm.c:1120-1229 | if and only if the pages of a last-level table count out right, exactly what is reported is unmapped and the tables are in order; then no page of memory is lost, less than asked for is unmapped only for one of the stated reasons, and an empty last-level table is left if and only if a whole block is split away |
| `LpaePgtable.PageTable.UnmapPages` | drivers/iommu/qcom-io-pgtable-arm.c:1231-1257 | the same from the root, for any request; if no last-level table was empty, none is afterwards if and only if the request did not split a whole block away, which with pages for tables is a condition on the state before |
| `LpaeSg.ChooseLevel` | drivers/iommu/qcom-io-pgtable-arm.c:813-843 | the size chosen is that of a level at which the request is aligned |
| `LpaeSg.MapOne` | drivers/iommu/qcom-io-pgtable-arm.c:845-906 | entering a page in the cached table comes to the same as mapping it from the root, errors included |
| `LpaeSg.MapPieces` | drivers/iommu/qcom-io-pgtable-arm.c:845-906 | exactly the first pages of the stretch are mapped, none of which was mapped before, all of them or up to a piece that could not be |
| `LpaeSg.MapByPgsize` | drivers/iommu/qcom-io-pgtable-arm.c:845-906 | the same with the checks of both ranges and of access: out of range if and only if the last address of the stretch is beyond the input or the output range |
| `LpaeSg.HeldAtEnd` | drivers/iommu/qcom-io-pgtable-arm.c:908-964 | after the last entry the stretch held back is lost if and only if the list ends with empty entries at its end |
| `LpaeSg.Round` | drivers/iommu/qcom-io-pgtable-arm.c:908-964 | one round of the loop joins the entry or maps the stretch held back |
| `LpaeSg.MapSg` | drivers/iommu/qcom-io-pgtable-arm.c:908-964 | the pages of the list are mapped in order as far as reported, none of which was mapped before; on success that is all of them if and only if the list does not end in such empty entries; every failure has its reason; no last-level table is left empty |
| `LpaeSg.EmptyEntryLosesPage` | drivers/iommu/qcom-io-pgtable-arm.c:908-964 | a page followed by an empty entry at its end: one page, and the tail is lost |
| `ZsSizes.IndexLargeEnough` | mm/zsmalloc.c:504-513 | the class for a size is large enough, up to the size of a page |
| `ZsSizes.ChainSize` | mm/zsmalloc.c:2130-2149 | one page for a power of two, otherwise the shortest chain with the least waste |
| `ZsSizes.MakeClass` | mm/zsmalloc.c:2186-2254 | a class of its own has the size, the shortest chain with the least waste and the object count of its index |
| `ZsSizes.CreateClasses` | mm/zsmalloc.c:2186-2254 | every index is served by a class at least as large whose zspages are as long, and hold as much, as the best ones for that index; neighbours share a class exactly if they have the same shape |
| `ZsSizes.MergedWhenAlike` | mm/zsmalloc.c:2186-2254 | two indices share a class if and only if the zspages of all indices between them have one shape |
| `ZsSizes.ChunkHolds` | mm/zsmalloc.c:1390-1444 | every request that zs_malloc accepts gets a chunk with room for it |
| `ZsSizes.ClassGeometry` | mm/zsmalloc.c:2186-2254 | the classes made are laid out as the allocator needs |
| `ZsMemory.ReadObject` | mm/zsmalloc.c:1062-1088 | the words read are those of the object, whether it straddles pages or not |
| `ZsMemory.WriteObject` | mm/zsmalloc.c:1090-1120 | exactly the words of the object behind its handle are written |
| `ZsMemory.ObjectCopy` | mm/zsmalloc.c:1509-1577 | the words of one object are copied to another and nothing else is written, whichever of the two straddle pages |
| `ZsZspage.LinkNext` | mm/zsmalloc.c:1337-1377 | free-list links fit in 32 bits, are even and are read back; the end marker stays an end marker |
| `ZsZspage.FirstFree` | mm/zsmalloc.c:1337-1377 | a zspage that is not full has a free object, and freeobj names one |
| `ZsZspage.MallocKeeps` | mm/zsmalloc.c:1337-1377 | allocating takes the first object off the free list and keeps headers, links and counts consistent |
| `ZsZspage.MallocElsewhere` | mm/zsmalloc.c:1337-1377 | it changes the header of that object only |
| `ZsZspage.FreeKeeps` | mm/zsmalloc.c:1447-1472 | freeing puts the object at the front of the list and keeps all consistent |
| `ZsZspage.FreeElsewhere` | mm/zsmalloc.c:1447-1472 | it changes the header of that object only |
| `ZsZspage.WriteElsewhere` | mm/zsmalloc.c:1284-1315 | writing a payload changes neither headers nor other payloads |
| `ZsInit.FreshConsistent` | mm/zsmalloc.c:886-928 | objects linked in order, the last one to the end marker, make a consistent zspage with all objects free |
| `ZsInit.InitPage` | mm/zsmalloc.c:886-928 | one round links the objects that start in the page |
| `ZsInit.InitZspage` | mm/zsmalloc.c:886-928 | the loop over pages makes such a zspage, and each page knows the offset of its first object |
| `ZsPool.MallocStepKeeps` | mm/zsmalloc.c:1337-1377 | allocating keeps the invariant of the pool and the content of all other handles |
| `ZsPool.FreeStepKeeps` | mm/zsmalloc.c:1474-1506 | freeing keeps them |
| `ZsPool.WriteStepKeeps` | mm/zsmalloc.c:1220-1315 | writing keeps them, and the handle leads to what was written |
| `ZsMoves.AddStepKeeps` | mm/zsmalloc.c:966-1025 | a new zspage changes no content |
| `ZsMoves.RemoveStepKeeps` | mm/zsmalloc.c:838-863 | removing an empty zspage changes no content |
| `ZsMoves.MigrateStepKeeps` | mm/zsmalloc.c:1802-1880 | moving a page changes no content: all handles of objects that start in it lead to the new page, the others stay |
| `ZsMoves.MoveStepKeeps` | mm/zsmalloc.c:1609-1642 | moving an object changes no content |
| `ZsMoves.MoveCarriedOut` | mm/zsmalloc.c:1609-1642 | obj_malloc, the copy and obj_free together are one such move |
| `ZsRun.StepRefines` | mm/zsmalloc.c:1337-1880 | every operation does to the content of the pool what it does to a plain map from handles to data |
| `ZsRun.RunKeeps` | mm/zsmalloc.c:1337-1880 | the invariant holds in every state of every run from an empty pool |
| `ZsRun.PoolRefinesMap` | mm/zsmalloc.c:1337-1880 | through every run of allocations, frees, writes, moves of objects and of pages the pool is in order in every state, and its contents run through the same events on a plain map |
| `ZsRun.WrittenStays` | mm/zsmalloc.c:1220-1315 | so what was last written through a handle is what is read through it |
| `ZsRun.ObjectsDisjoint` | mm/zsmalloc.c:755-780 | objects of different handles have no word of memory in common |
| `ZsScan.FindAlloced` | mm/zsmalloc.c:1583-1607 | the first allocated object of the page from the given one on, with its handle, or there is none |
| `ZsScan.NoneMeansEmpty` | mm/zsmalloc.c:1609-1642 | a scan that found no allocated object means that none is in use |
| `ZsScan.RedirectNext` | mm/zsmalloc.c:1849-1858 | one round of the loop redirects the handle of the object there, if it is allocated, and no other |
| `ZsClass.Objects.constructor` | mm/zsmalloc.c:2161-2272 | a new pool holds nothing |
| `ZsClass.Objects.ObjMalloc` | mm/zsmalloc.c:1337-1377 | the step of the model, in place |
| `ZsClass.Objects.ObjFree` | mm/zsmalloc.c:1447-1472 | the step of the model, in place |
| `ZsClass.Objects.Read` | mm/zsmalloc.c:1220-1281 | what is mapped for reading is the payload of the handle |
| `ZsClass.Objects.Write` | mm/zsmalloc.c:1284-1315 | the handle leads to the words written, and the invariant is kept |
| `ZsClass.Objects.MoveObject` | mm/zsmalloc.c:1609-1642 | one object moves to the other zspage and its handle follows |
| `ZsClass.Objects.MigrateZspage` | mm/zsmalloc.c:1609-1642 | objects move until the source is empty or the destination is full, and no handle notices |
| `ZsClass.Objects.RedirectHandles` | mm/zsmalloc.c:1849-1858 | exactly the handles that led to the old page lead to the new one |
| `ZsClass.Objects.MigratePage` | mm/zsmalloc.c:1768-1880 | the page moves and no handle notices |
| `ZsClass.Objects.ChainPages` | mm/zsmalloc.c:930-961 | each page of the chain knows its zspage and its place |
| `ZsClass.Objects.AddZspage` | mm/zsmalloc.c:966-1025 | a new zspage joins the pool with all objects free |
| `ZsClass.Objects.RemoveZspage` | mm/zsmalloc.c:838-863 | an empty zspage leaves the pool and its pages belong to none |
| `ZsLists.GroupRange` | mm/zsmalloc.c:658-677 | the group is the first or the last if and only if the zspage is empty or full |
| `ZsLists.InsertFits` | mm/zsmalloc.c:685-692 | inserting keeps every zspage on exactly the list of its group, and the counts of the lists right |
| `ZsLists.RemoveFits` | mm/zsmalloc.c:698-706 | removing keeps that for the others |
| `ZsLists.FixFits` | mm/zsmalloc.c:717-729 | after a change of one zspage, fix_fullness_group makes it hold again |
| `ZsLists.SpliceFits` | mm/zsmalloc.c:1897-1927 | taking the whole list of empty zspages keeps it |
| `ZsLists.LandFits` | mm/zsmalloc.c:1897-1927 | freeing one of them keeps it |
| `ZsAllocator.FixedFits` | mm/zsmalloc.c:717-729 | lists, fullness and the three counters stay the true sums over the zspages |
| `ZsAllocator.InsertedFits` | mm/zsmalloc.c:1390-1444 | so they do with a new zspage |
| `ZsAllocator.DroppedFits` | mm/zsmalloc.c:838-863 | so they do without one |
| `ZsAllocator.Allocator.constructor` | mm/zsmalloc.c:2161-2272 | an empty pool fits its empty lists |
| `ZsAllocator.Allocator.FindGetZspage` | mm/zsmalloc.c:1027-1040 | a zspage of the fullest group with room, or all are full |
| `ZsAllocator.Allocator.MallocFrom` | mm/zsmalloc.c:1390-1444 | from a zspage with room: one object more, everything else as before |
| `ZsAllocator.Allocator.MallocNew` | mm/zsmalloc.c:1390-1444 | from a new zspage: the same |
| `ZsAllocator.Allocator.Malloc` | mm/zsmalloc.c:1390-1444 | the new handle has an object and all others are as before; it fails only if every zspage is full and no pages are left, and then changes nothing |
| `ZsAllocator.Allocator.FreeZspage` | mm/zsmalloc.c:865-883 | the empty zspage is freed or left for the worker; no content changes |
| `ZsAllocator.Allocator.Free` | mm/zsmalloc.c:1474-1506 | the handle is gone and all others are as before |
| `ZsCompact.PartialFalls` | mm/zsmalloc.c:1978-2038 | each round leaves fewer partial zspages |
| `ZsCompact.MigratedTotal` | mm/zsmalloc.c:1609-1642 | the number of objects in use stays the same |
| `ZsCompact.IsolateDst` | mm/zsmalloc.c:1661-1676 | the first zspage of the fullest partial group is isolated, or no partial one is left |
| `ZsCompact.IsolateSrc` | mm/zsmalloc.c:1644-1659 | the first zspage of the emptiest partial group is isolated, or no partial one is left |
| `ZsCompact.PutBack` | mm/zsmalloc.c:1685-1693 | the zspage is back on the list of its group |
| `ZsCompact.MigrateIsolated` | mm/zsmalloc.c:1609-1642 | one of the two is no longer partial, no content changes, and busy zspages are counted exactly |
| `ZsCompact.SettleSrc` | mm/zsmalloc.c:1978-2038 | the source goes back to its list, or is freed and counted if nothing is left in it |
| `ZsCompact.CompactStep` | mm/zsmalloc.c:1978-2038 | one round makes progress, or stops with at most one partial zspage |
| `ZsCompact.Compact` | mm/zsmalloc.c:1978-2038 | it ends; no content changes; afterwards the unused objects would not fill a zspage or at most one zspage is partial; the result is exactly the pages of the zspages that were emptied |
| `ZsCompact.FreeTaken` | mm/zsmalloc.c:1897-1927 | one zspage taken off the list is freed, and no content changes |
| `ZsCompact.AsyncFree` | mm/zsmalloc.c:1897-1927 | no empty zspage is left, and no content changes |

## Left out

- unifdef: the comment and line-splicing scanner, reading and writing files, command-line options, blank-line compression, `#line` output and the complement mode; lines arrive as tokens with the remark whether a comment split them.
- UnifdefWhole.UnifdefPreservesMeaning: the symbols given on the command line are not redefined in the file; unifdef does not look at definitions.
- UnifdefEval.IfEvalSound: numbers are unbounded integers, as are the values of symbols; the cut to an int of larger ones is not modelled.
- UnifdefMeaning.AcceptsExactlyWellNested: for directives that a comment splits, only that a normal end preserves the meaning, since the code rejects most of them on purpose.
- rdbg: the reset handshake between the two sides, the character device, interrupts and the memory barriers; the model has one epoch and atomic calls.
- SmqQueue.SharedQueue.AllocSend: the unbounded search is observed for a given number of iterations; the wrap of a length of 2^32 bytes and more is not modelled.
- FastIova: reserved regions, the debugging of stale entries, coherency attributes and cache maintenance; the lock makes each call atomic.
- FastPgtable: attribute bits and the failure of page allocation while the tables are set up.
- ScatterList: 32-bit overflow of the length of a segment; the wrap of the remaining length is modelled.
- FastMapping.FastMapping.MapSg: a list that takes no IOVA space at all, for which the result of get_order is undefined; a boundary that is no power of two, which the code demands (drivers/iommu/qcom-dma-iommu-generic.c:574-576); and segments whose page is not aligned to a page.
- LpaeWords.MapPagesInMemory: for runs that end in the output range; the code compares only the first address of a run with it.
- LPAE tables: the contiguous hint, attributes and protection bits, cache maintenance, logging of tables, the upper address range of TTBR1, and a pgd of several concatenated tables that is larger than a table.
- LPAE tables: the lock is dropped while a table is allocated; a table installed by another processor meanwhile is not modelled.
- LpaeSg.MapByPgsize: the refusal of requests that are not aligned to the granule, since addresses and lengths are counted in granules.
- LpaePgtable.PageTable.MapPages: a request for blocks at the level of the pgd stays inside the pgd, as the IOMMU core cuts it.
- zsmalloc: the packing of page and index into one word, the zpool interface, statistics files, the shrinker and memory hotplug.
- zsmalloc: locks and the gap in which compaction lets others run; each call is atomic, and contention and failing trylocks are free choices.
- ZsAllocator.Allocator.Malloc: the checks of the requested size and the allocation of the handle come before it; one size class at a time.
- ZsCompact.Compact: the result counts the pages of emptied zspages, also of those whose freeing is left to the worker, as the code does.
