# Verified model of the conventional SSD core

This Dafny project models the parts of the NVMe device emulator in which several redundant
records must stay in step, and proves what those parts rely on.

* **The page-mapped translation layer** (`conv_ftl.c`, with the geometry of `ssd.c` and the
  indexed heap of `pqueue.c`). Host writes and deallocations move pages from free to valid to
  invalid; lines move between the free list, two write pointers, the full list and the victim
  heap; garbage collection empties and erases one line at a time. Five records (mapping table,
  reverse map, page status, block counters, line counters with list membership) agree after
  every command, and inside a pass they agree up to the pages already dealt with.
* **The free-space argument.** Write credits decide when a pass runs. As long as fewer than
  (lines - 4) x pages-per-line logical pages are mapped at any time, no run of writes and
  deallocations finds the device out of lines.
* **The isotonic fitter** (`fit_isotonic.py`), over the real numbers: pooling adjacent
  violators is optimal, the dynamic program finds the best coarsening for every number of
  steps, that coarsening is a best non-increasing step function on the points themselves, and the
  table read by the kernel gives every sampled age its group's score.
* **The channel bandwidth ring** (`channel_model.c`), which stands for an unbounded timeline
  of transfer intervals.
* **The I/O work queue** (`io.c`), two lists chained through one array.

## How it is laid out

The translation layer is proved in two layers. `FtlState.dfy` gives the state as a value and one
function per update; `FtlUpdates`, `FtlCollect`, `FtlPass`, `FtlSpace`, `FtlRuns` and `FtlFacts`
prove what the updates keep and what follows over whole runs. `Flash`, `MapTables`,
`WritePointer`, `PQueue`, `LineMgmt` and `ConvFtl` are classes that update arrays and lists in
place; each method is tied to one of the functions through `View()`. `Geometry` and `GcOrder`
hold the address arithmetic and the order of the nested loops, `Heap` the theory of sifting,
`VictimScore` the scoring arithmetic, `SsdParams` the derived sizes. `LineLists` is a coarser
view of the device, lines without pages, on which `StaleSlot` follows one run step by step.

The fitter is `Blocks`, `Pava`, `ReducedFit`, `Coarsening`, `StepFits` and `Export`; the other two
components are `ChannelModel`, and `IoQueue` with `IoRuns`. `Sets`, `MixedRadix` and `Wrappers` are
shared.

The geometry is symbolic: any number of channels, LUNs, blocks and pages within the bit fields
of a physical address, one plane per LUN, one partition. Methods return `ok == false` where the
source dereferences a null line or selects a line that is not a victim. Line ages, clocks and the
preferred number of steps are inputs.

## Where the code and its surroundings disagree

* `conv_write` checks logical pages only against the total number of pages
  (conv_ftl.c:1447). That is not enough for the free-space guarantee. `FillDistinct` shows it
  failing on every geometry with the exact number of pages a sequential fill can write, and
  `VictimExistsExactlyWhen` gives the exact condition for a victim. `Bounded` is the condition
  used for whole runs, command by command.
* The cost-benefit scan runs to `i <= pq->size` (conv_ftl.c:1070) although `size` is the number
  of elements plus one, so it looks one slot past the last element. That slot may never have been
  written, and after the line in the last slot was removed it still names that line. The model
  scans as the source does. `ScanIsRightExactly` says when the result is the best victim,
  `MisledDevice` reaches, by sixteen page writes and with the mapped pages within the bound, a device
  on which it is a free line, and the selection, the pass, the page write and the run carry the
  condition with them. Greedy, the default, does not scan; in a build that samples the candidates
  (`CONV_ISO_LOG_SAMPLES`) it reads the same slot, and `GreedyIsMisledExactly` says when that goes
  wrong. In the model a slot value equal to the number of lines is a null pointer and a larger
  one stands for memory that was never written; the selection fails where the source would follow
  such a pointer or remove a line that is not in the heap.
* During a pass the mapping table still names a copied page's old location in the victim until
  the copy is entered, and copied pages stay valid until their block is erased. The invariant
  carries the set of such pages and is exact again at the end of the pass.
* Removing the last element of the heap makes `pqueue_remove` sift the vacated slot, which has
  no children and no effect; the model returns at that point.
* The clock difference of `chmodel_request` is truncated to 32 bits. After 2^32 intervals or
  more the ring may show bookings that have passed; `ClockMoves` says exactly when it does not,
  that condition is what `Request` requires, and `ClockJumpFails` reaches a state without it.
* A slot of the credit ring is one byte wide, so the constructor asks for at most 255 credits
  in an interval, and for at least one, since the request divides by it.
* The comment in `io.c` says requests are sorted by target time. They are sorted by due time:
  target time, or the worker's latest time if that is later. `TargetOrderExactly` says when the
  two agree and `LateRequestGoesBehind` reaches a queue in which they do not.
* A worker that stands on an entry when the dispatcher reclaims it goes on along the free list, so
  its pass can end before the rest of the list in flight was visited. `Interleave` shows that it
  touches no free entry on the way.

## Model

| member | source | states |
|---|---|---|
| `Geometry.PgIdxBound` | nvmevirt_test/conv_ftl.c:54-68 | the flat page index of every valid address is below the number of pages, so the reverse map is never indexed past its end |
| `Geometry.PgIdxInjective` | nvmevirt_test/conv_ftl.c:54-68 | two valid addresses with one flat index are the same page |
| `Geometry.PgIdxOnto` | nvmevirt_test/conv_ftl.c:54-68 | every index below the number of pages is the index of some valid address; with the two rows above, a bijection |
| `Geometry.TtPgsProduct` | nvmevirt_test/ssd.c:140-158 | the page total is the same whether counted by channels, LUNs and blocks or by lines |
| `Geometry.PageAtRank` | nvmevirt_test/conv_ftl.c:236-302 | the closed mixed-radix formula finds a page again at its own rank: the write order repeats no page of a line |
| `Geometry.RankOfPageAt` | nvmevirt_test/conv_ftl.c:236-302 | every rank below the line size belongs to a valid page of the line: the write order misses none |
| `Geometry.RankSteps` | nvmevirt_test/conv_ftl.c:243-262 | stepping the page counter, or carrying it into the channel counter, raises the rank by exactly one |
| `Geometry.RankCarryLun` | nvmevirt_test/conv_ftl.c:262-300 | the carry into the next wordline keeps the rank, and it leaves the block exactly when the rank reaches the size of a line |
| `WritePointers.WritePointer.Step` | nvmevirt_test/conv_ftl.c:236-302 | the nested counters pass exactly one page, and report a used-up line exactly after its last page |
| `WritePointers.WritePointer.NewPage` | nvmevirt_test/conv_ftl.c:304-319 | the page handed out is a valid page of the pointer's line whose rank is the number of pages passed |
| `SsdParameters.PageIsWholeSectors` | nvmevirt_test/ssd.c:72-74 | a page is as many whole sectors as fit in 4096 bytes |
| `SsdParameters.DivRoundUpCovers` | nvmevirt_test/ssd.c:89-94 | the rounded-up quotient covers the dividend and one less would not |
| `SsdParameters.SsdParams.Init` | nvmevirt_test/ssd.c:68-158 | block size agrees in program and sensing units, the total is lines times pages per line, the sizes equal those of the geometry used by the translation layer, the partition has pages for its whole share of the capacity, and no smaller block, or smaller number of blocks or program units, would do |
| `SsdParameters.SsdParams.ChooseBlocks` | nvmevirt_test/ssd.c:84-96 | with the number of blocks configured their size is the least that holds the share, with the size configured their number is |
| `SsdParameters.SsdParams.GeometryIsOk` | nvmevirt_test/ssd.c:68-158 | within the bit fields of a physical address the derived sizes form a geometry the translation layer accepts |
| `SsdParameters.BlockUnits` | nvmevirt_test/ssd.c:98-107 | a block has the fewest program units that hold the requested bytes, and as many pages counted in program units as counted in sensing units |
| `Heap.UpRepairs` | nvmevirt_test/pqueue/pqueue.c:56-71 | moving a too-small element up restores heap order everywhere and keeps the elements with their multiplicity |
| `Heap.DownRepairs` | nvmevirt_test/pqueue/pqueue.c:87-102 | moving a too-large element down restores heap order everywhere and keeps the elements with their multiplicity |
| `Heap.RootIsLeast` | nvmevirt_test/pqueue/pqueue.c:170-178 | in heap order the root has the least priority of all live slots |
| `Heap.SubtreeCheck` | nvmevirt_test/pqueue/pqueue.c:225-242 | the recursive check accepts a subtree exactly when every parent-child pair inside it is in order |
| `Heap.IsValidExactlyWhenOrdered` | nvmevirt_test/pqueue/pqueue.c:225-247 | the whole check accepts exactly when heap order holds everywhere |
| `Heap.RoomForOneMore` | nvmevirt_test/pqueue/pqueue.c:104-129 | a queue of distinct lines that lacks one of them still has a slot, so the translation layer never makes the heap grow |
| `Heap.NewPriority` | nvmevirt_test/pqueue/pqueue.c:131-142 | after a priority changes, heap order is broken at most towards the root (lower) or towards the leaves (higher) |
| `Heap.Removed` | nvmevirt_test/pqueue/pqueue.c:144-154 | filling the vacated slot with the last element removes exactly that element and breaks order only at that slot; nothing moves when the last one goes |
| `PriorityQueue.PQueue.BubbleUp` | nvmevirt_test/pqueue/pqueue.c:56-71 | restores order and positions, keeps the elements, and writes no position of an element outside the queue |
| `PriorityQueue.PQueue.PercolateDown` | nvmevirt_test/pqueue/pqueue.c:87-102 | restores order and positions, keeps the elements, and writes no position of an element outside the queue |
| `PriorityQueue.PQueue.Insert` | nvmevirt_test/pqueue/pqueue.c:104-129 | the elements gain exactly the new one, order and position index hold again, slots not in use stay as they were |
| `PriorityQueue.PQueue.ChangePriority` | nvmevirt_test/pqueue/pqueue.c:131-142 | only the one priority changes, the elements and the slots not in use stay, order and position index hold again, whichever way it changes |
| `PriorityQueue.PQueue.Remove` | nvmevirt_test/pqueue/pqueue.c:144-154 | the elements lose exactly the one named, wherever it was; order and position index hold again; the slot that falls out of use keeps the line it held |
| `PriorityQueue.PQueue.Pop` | nvmevirt_test/pqueue/pqueue.c:156-168 | takes out the root, or reports an empty queue and changes nothing |
| `PriorityQueue.PQueue.Peek` | nvmevirt_test/pqueue/pqueue.c:170-178 | an element of least priority among all elements, or nothing exactly when the queue is empty |
| `PriorityQueue.PQueue.IsValid` | nvmevirt_test/pqueue/pqueue.c:244-247 | returns true exactly when heap order holds |
| `VictimScore.StepLookup` | nvmevirt_test/conv_ftl.c:848-864 | the value and level of the step an age has reached, by the number of boundaries at or below it |
| `VictimScore.SplitDivision` | nvmevirt_test/conv_ftl.c:985-1009 | dividing the age value first and adding the remainder's share loses nothing against the exact quotient |
| `VictimScore.TailFits` | nvmevirt_test/conv_ftl.c:1001-1004 | with 31-bit page counts the remainder term fits in 64 bits: its overflow branch is never taken |
| `VictimScore.CostBenefitScore` | nvmevirt_test/conv_ftl.c:985-1009 | the exact floor of age value times invalid pages over valid pages plus one, saturated to 64 bits, with no intermediate overflow |
| `VictimScore.BestIsUnique` | nvmevirt_test/conv_ftl.c:1089-1098 | a set of scanned lines has one winner, in whatever order the slots hold them: no line scores higher, none of equal score has fewer valid pages, none equal in both has a smaller number |
| `VictimScore.ScoreExactly` | nvmevirt_test/conv_ftl.c:866-1009 | under every profile the score is age value times invalid pages over valid pages plus one, rounded down, at most 2^64 - 1; a raw age counts as itself but at least 1, any other as the value of the step it has reached |
| `VictimScore.BestIsHighest` | nvmevirt_test/conv_ftl.c:1067-1100 | the winner in terms of those scores alone: highest score, then fewest valid pages, then smallest line |
| `VictimScore.ScanIsRightExactly` | nvmevirt_test/conv_ftl.c:1070-1100 | the scan, which looks one slot past the heap, picks the best victim exactly when that slot holds no line, a victim, or a line that loses to a victim |
| `VictimScore.FlatRefinesGreedy` | nvmevirt_test/conv_ftl.c:872-875 | with the FLAT profile the best victim has the same valid page count as the heap root, when page counts add up to a line |
| `ConvFtl.ConvFtl.ChosenIsHighest` | nvmevirt_test/conv_ftl.c:1044-1142 | the line a pass collects under cost-benefit is the victim its profile ranks first |
| `ConvFtl.ConvFtl.FlatChoosesLikeGreedy` | nvmevirt_test/conv_ftl.c:1044-1132 | between commands, a line the cost-benefit policy may choose under FLAT is one Greedy may choose |
| `VictimScore.FlatScoreMonotone` | nvmevirt_test/conv_ftl.c:985-1009 | with one age value for all, fewer valid pages never score less when the page counts add up to a line |
| `LineMgmt.Lines.SelectGreedy` | nvmevirt_test/conv_ftl.c:1014-1042 | takes a line of least valid page count out of the heap, or declines exactly when there is none or collecting is not worth it; only a build that samples the candidates can fail, exactly on a slot never written |
| `LineMgmt.Lines.BestVictim` | nvmevirt_test/conv_ftl.c:1067-1103 | the scan returns the line of highest score, fewest valid pages, smallest number among the lines in the heap and in the slot after it; it fails exactly when that slot was never written |
| `LineMgmt.Lines.SelectCostBenefit` | nvmevirt_test/conv_ftl.c:1044-1132 | takes the victim of highest score, fewest valid pages, smallest number out of the heap, or declines exactly when Greedy would; it fails exactly when the slot after the heap misleads the scan |
| `LineMgmt.Lines.SampleCandidates` | nvmevirt_test/conv_ftl.c:714-752 | sampling reads the slots the scan reads, and fails exactly when the slot after the heap was never written |
| `StaleSlot.MisledDevice` | nvmevirt_test/conv_ftl.c:1070-1127 | for every geometry of seven lines of four pages, sixteen page writes from the initial device on cleared heap memory, with fewer pages mapped than the bound allows and ages that a forward clock gives, end in a write that fails: the slot after the heap still names line 0, which is free, and the scan does not find the victim |
| `LineMgmt.Lines.SelectVictim` | nvmevirt_test/conv_ftl.c:1134-1142 | the selection of the compiled policy, with the exact condition under which it goes wrong |
| `LineMgmt.Lines.Invalidate` | nvmevirt_test/conv_ftl.c:566-588 | one valid page less and one invalid page more on the line; a full line becomes a victim, a victim keeps its place in heap order |
| `LineMgmt.Lines.Close` | nvmevirt_test/conv_ftl.c:269-284 | a used-up line goes to the full list exactly when all its pages are valid, otherwise to the victims |
| `LineMgmt.Lines.NextFree` | nvmevirt_test/conv_ftl.c:190-204 | the first free line, or nothing exactly when none is free |
| `LineMgmt.Lines.Release` | nvmevirt_test/conv_ftl.c:1217-1231 | an erased line has no pages counted and joins the free list at its end |
| `FlashArray.Flash.InvalidatePage` | nvmevirt_test/conv_ftl.c:551-564 | page status and the two block counters after a page becomes invalid, nothing else changed |
| `FlashArray.Flash.ValidatePage` | nvmevirt_test/conv_ftl.c:597-607 | page status and block counter after a page becomes valid, nothing else changed |
| `FlashArray.Flash.EraseBlock` | nvmevirt_test/conv_ftl.c:614-633 | every page of the block is free and its counters are zero, no other page changed |
| `MapTables.Tables.SetRmap` | nvmevirt_test/conv_ftl.c:78-83 | the reverse map changes for that page alone, since flat indices do not collide |
| `FtlUpdates.FreshInv` | nvmevirt_test/conv_ftl.c:353-413 | a device on which nothing was written meets the whole invariant |
| `FtlUpdates.MappedPageCanBeInvalidated` | nvmevirt_test/conv_ftl.c:543-589 | the page a logical page maps to is valid, and its block and line each count at least one valid page |
| `FtlFacts.InvalidateAssertionsHold` | nvmevirt_test/conv_ftl.c:551-576 | none of the bounds asserted in mark_page_invalid on page status, block counters and line counters can fail on a valid page |
| `FtlFacts.ValidateAssertionsHold` | nvmevirt_test/conv_ftl.c:597-611 | none of the bounds asserted in mark_page_valid can fail on the page at a write pointer, inside a pass as well |
| `FtlUpdates.UnmapKeepsInv` | nvmevirt_test/conv_ftl.c:1584-1602 | forgetting a mapped page keeps all five views in agreement |
| `FtlUpdates.NextPageIsFree` | nvmevirt_test/conv_ftl.c:591-612 | the page at a write pointer is free, lies outside the victim, and its line has room, inside a pass as well |
| `FtlUpdates.ProgramKeepsInv` | nvmevirt_test/conv_ftl.c:1475-1491 | writing a page at a write pointer, closing the line if it fills, keeps all five views in agreement, inside a pass as well |
| `FtlCollect.TakeKeepsInv` | nvmevirt_test/conv_ftl.c:1239-1247 | taking a victim out of the heap starts a pass in which the invariant holds with that line set apart |
| `FtlCollect.EraseKeepsInv` | nvmevirt_test/conv_ftl.c:614-633 | erasing a block of the victim whose pages have all been dealt with keeps the invariant of the pass |
| `FtlCollect.FreeKeepsInv` | nvmevirt_test/conv_ftl.c:1217-1231 | freeing the erased victim restores the invariant that holds between commands |
| `FtlPass.ProgressCopies` | nvmevirt_test/conv_ftl.c:654-672 | copying one valid page moves its logical page to a page that was free when the pass began, and its old page turns stale |
| `FtlPass.SpareSuffices` | nvmevirt_test/conv_ftl.c:190-204 | when the pass starts with more room than the victim has valid pages, every copy finds a page, even when the open line fills on the way |
| `FtlPass.PassEnds` | nvmevirt_test/conv_ftl.c:1233-1305 | with every page dealt with and every block erased, the pass has relocated exactly the victim's logical pages, freed the line, and accounted for each copy; counters, lists and pointers of all lines are those that copying its valid pages one by one leaves |
| `LineLists.RewriteIsExact` | nvmevirt_test/conv_ftl.c:1463-1505 | which line holds a page, the line counters, lists and pointers after a page write follow from the same facts before it, and the write lacks a line exactly when these say so |
| `LineLists.CollectInLine` | nvmevirt_test/conv_ftl.c:1233-1305 | a pass whose copies fit on the open line raises that line by the victim's valid pages and moves the victim to the end of the free list |
| `StaleSlot.PassInOpenLine` | nvmevirt_test/conv_ftl.c:1233-1305 | in such a pass all logical pages of the victim move to the open line and no other page changes its line |
| `GcOrder.VisitOne` | nvmevirt_test/conv_ftl.c:1177-1214 | each turn of the innermost loop reaches one page not reached before |
| `GcOrder.VisitStartsAndEnds` | nvmevirt_test/conv_ftl.c:1265-1299 | the loops start with nothing visited and end with every page visited and every block erased |
| `FtlSpace.LineCount` | nvmevirt_test/conv_ftl.c:127-168 | free, full, victim and the two open lines add up to all lines |
| `FtlSpace.ValidAreMapped` | nvmevirt_test/conv_ftl.c:543-612 | any set of lines holds as many valid pages as logical pages map into it |
| `FtlSpace.VictimExistsExactlyWhen` | nvmevirt_test/conv_ftl.c:1014-1030 | there is a victim exactly when the closed lines hold fewer mapped pages than they have pages |
| `FtlSpace.VictimExists` | nvmevirt_test/conv_ftl.c:1307-1314 | with at most two free lines and fewer than (lines - 4) * pages-per-line mapped pages there is a victim |
| `FtlSpace.SpaceMeansFreeLine` | nvmevirt_test/conv_ftl.c:285-290 | while the space invariant holds a free line remains, whichever pointer needs one next |
| `FtlSpace.RoomForVictim` | nvmevirt_test/conv_ftl.c:1262-1299 | when the credits are spent there is room to copy any victim, and the credits it grants are between one and a line |
| `FtlSpace.CollectionPaysItsCredits` | nvmevirt_test/conv_ftl.c:1262-1299 | a pass yields exactly the credits it grants and restores the space invariant |
| `FtlSpace.RefillWithoutCollection` | nvmevirt_test/conv_ftl.c:117-125 | with three free lines a refill needs no pass |
| `FtlRuns.FreshHasSpace` | nvmevirt_test/conv_ftl.c:176-183 | a fresh device of three lines or more meets the space invariant |
| `FtlRuns.WriteKeepsBalance` | nvmevirt_test/conv_ftl.c:1475-1505 | a host page write spends one clean page and one credit, and finds a line when it needs one |
| `FtlRuns.RelocatedKeepsMapped` | nvmevirt_test/conv_ftl.c:654-672 | a pass leaves the set of mapped logical pages as it was |
| `FtlRuns.FillingStep` | nvmevirt_test/conv_ftl.c:1475-1505 | in a sequential fill the write of page n needs a line that is not there exactly from one line less than the device on |
| `FtlFacts.MappingIsExact` | nvmevirt_test/conv_ftl.c:543-612 | a page is valid exactly when some logical page maps to it, the reverse map names that logical page, and no two share a page |
| `FtlFacts.LineCounters` | nvmevirt_test/conv_ftl.c:127-168 | every line is in exactly one of the five places, and its place fixes what its counters may be; they count page statuses |
| `FtlFacts.LineIsSumOfBlocks` | nvmevirt_test/conv_ftl.c:543-633 | line counters are the sums of the counters of the line's blocks over all channels and LUNs |
| `FtlFacts.Conservation` | nvmevirt_test/conv_ftl.c:1246-1247 | pages written by the host plus pages copied are the pages in use plus one line per pass, and the copies are the valid pages the victims held |
| `FtlFacts.FreePagesOfLine` | nvmevirt_test/conv_ftl.c:543-633 | the free pages of a line are what its counters leave |
| `FtlFacts.CleanCountsFreePages` | nvmevirt_test/conv_ftl.c:110-125 | the clean pages that credits are weighed against are exactly the free pages of the flash |
| `ConvFtl.ConvFtl.constructor` | nvmevirt_test/conv_ftl.c:353-413 | the initial device is fresh and meets the invariant, with a line's worth of credits |
| `ConvFtl.ConvFtl.MarkPageInvalid` | nvmevirt_test/conv_ftl.c:543-589 | the state change of mark_page_invalid on all views |
| `ConvFtl.ConvFtl.MarkPageValid` | nvmevirt_test/conv_ftl.c:591-612 | the state change of mark_page_valid on all views |
| `ConvFtl.ConvFtl.AdvanceWritePointer` | nvmevirt_test/conv_ftl.c:236-302 | the pointer passes one page; a used-up line is filed and the next free line opened; fails exactly when that line is missing |
| `ConvFtl.ConvFtl.ProgramPage` | nvmevirt_test/conv_ftl.c:1475-1491 | writes a logical page at a write pointer; fails exactly when a new line is needed and none is free |
| `ConvFtl.ConvFtl.GcWritePage` | nvmevirt_test/conv_ftl.c:654-692 | copies one valid page of the victim; cannot fail while there is spare room |
| `ConvFtl.ConvFtl.CleanOneFlashpg` | nvmevirt_test/conv_ftl.c:1168-1215 | deals with exactly the pages of one flash page; the assertion that none is free holds |
| `ConvFtl.ConvFtl.CollectLine` | nvmevirt_test/conv_ftl.c:1265-1299 | the nested loops deal with every page of the victim once and erase every block once |
| `ConvFtl.ConvFtl.DoGc` | nvmevirt_test/conv_ftl.c:1233-1305 | a forced pass finds a victim exactly when there is one and the scan is not misled, succeeds exactly when there is room for its valid pages, chooses as the policy demands, relocates, erases and frees it, and grants its invalid pages as credits |
| `ConvFtl.ConvFtl.ForegroundGc` | nvmevirt_test/conv_ftl.c:1307-1314 | succeeds exactly when more than two lines are free, or nothing is a victim, or the scan is right and there is room for the chosen line; with the credits spent, two lines clean and the mapped pages within the bound only a misled scan makes it fail, and success restores the space invariant |
| `ConvFtl.ConvFtl.CheckAndRefillWriteCredit` | nvmevirt_test/conv_ftl.c:117-125 | succeeds exactly when credits are left or the collection cannot fail; from a balanced state within the bound it restores the space invariant unless the scan is misled |
| `ConvFtl.ConvFtl.SpendCredit` | nvmevirt_test/conv_ftl.c:110-125 | the same for spending one 32-bit credit and then refilling |
| `ConvFtl.ConvFtl.GreedyIsMisledExactly` | nvmevirt_test/conv_ftl.c:714-752 | under Greedy a due pass goes wrong exactly when the build samples the candidates and the slot after the heap was never written |
| `ConvFtl.ConvFtl.GreedyIsNeverMisled` | nvmevirt_test/conv_ftl.c:1014-1040 | under Greedy without sampling no state misleads the selection |
| `ConvFtl.ConvFtl.WritePage` | nvmevirt_test/conv_ftl.c:1463-1505 | one page of a write maps exactly that page; it fails exactly when the open line fills up with no line free, or the last credit goes and the collection would fail, both told from the state before; while the space invariant holds and the mapped pages stay within the bound only a misled scan makes it fail; when no pass is due, or the scan of a due pass is misled, the state is the one with just that page written, else a chosen victim has been collected |
| `ConvFtl.ConvFtl.DiscardPage` | nvmevirt_test/conv_ftl.c:1584-1602 | one page of a deallocation unmaps exactly that page and counts it, or changes nothing when it was unmapped |
| `ConvFtl.ConvFtl.ConvWrite` | nvmevirt_test/conv_ftl.c:1417-1517 | a request that ends past the device is rejected and changes nothing, whatever is mapped; any other maps exactly the pages that hold one of its logical blocks and counts them, unless a scan is misled |
| `ConvFtl.ConvFtl.ConvDiscard` | nvmevirt_test/conv_ftl.c:1560-1606 | exactly the pages that hold a logical block of a range inside the device become unmapped; nothing counts as written |
| `ConvFtl.ConvFtl.Run` | nvmevirt_test/conv_ftl.c:1417-1606 | over every run of writes and deallocations whose mapped pages stay within the bound at every command, no command runs out of lines, all invariants hold after each, the host count is what the commands add up to, and a page is mapped exactly when the last command that reached it was a write, or none did and it was mapped before; under Greedy without sampling no run fails, otherwise only a misled scan makes one fail |
| `FtlRuns.AcceptedExactly` | nvmevirt_test/conv_ftl.c:1430-1451 | the check of the last page lets through exactly the ranges whose end is within the device |
| `FtlRuns.CoveredExactly` | nvmevirt_test/conv_ftl.c:1429-1463 | the pages from the first to the last are exactly those that hold a logical block of the range |
| `FtlRuns.CoveredByRanges` | nvmevirt_test/conv_ftl.c:1560-1584 | the same for all ranges of a deallocation together |
| `FtlRuns.LastCommandDecides` | nvmevirt_test/conv_ftl.c:1417-1606 | whether a page is mapped after a run is decided by the last command that reaches it |
| `FtlRuns.PagesWrittenExactly` | nvmevirt_test/conv_ftl.c:1463-1493 | a command counts as many host pages as hold one of its logical blocks |
| `FtlRuns.FootprintStaysBounded` | nvmevirt_test/conv_ftl.c:1417-1606 | a run that only writes pages of one bounded set stays within the bound throughout |
| `ConvFtl.ConvFtl.FillDistinct` | nvmevirt_test/conv_ftl.c:1447-1451 | without the bound the guarantee fails on every geometry: writing n distinct pages of a fresh device in order succeeds exactly when n is zero or below one line less than the device, although the range check admits more |
| `ConvFtl.ConvFtl.FreshIsReady` | nvmevirt_test/conv_ftl.c:176-183 | a fresh device of three lines or more is ready for commands, with nothing mapped |
| `ConvFtl.ConvFtl.CleanPagesAreFree` | nvmevirt_test/conv_ftl.c:110-125 | on the device itself, clean pages are the free pages |
| `Blocks.MergeTwo` | nvmevirt_test/fit_isotonic.py:44-55 | merging two merged blocks is merging everything they cover |
| `Blocks.PooledIsOptimal` | nvmevirt_test/fit_isotonic.py:112-119 | for a block no prefix of which averages more than the block, the mean is the best non-increasing fit |
| `Blocks.PooledDistance` | nvmevirt_test/fit_isotonic.py:112-119 | any non-increasing fit to such a block exceeds the error of the mean by at least its weighted squared distance from the mean |
| `Blocks.PoolingKeeps` | nvmevirt_test/fit_isotonic.py:116-118 | pooling a block with a following one of larger mean keeps every proper prefix strictly below the mean, which lies strictly between |
| `Pava.PavaDecreasing` | nvmevirt_test/fit_isotonic.py:112-119 | splits the points into runs, one pooled block each, covering every point once, with non-increasing means; no pooled block could be split again |
| `Pava.PavaIsUnique` | nvmevirt_test/fit_isotonic.py:112-119 | that split is the only one with these properties |
| `Pava.PavaIsOptimal` | nvmevirt_test/fit_isotonic.py:112-119 | no non-increasing assignment to the points has a smaller weighted squared error than the pooled means |
| `Pava.FitIsFeasible` | nvmevirt_test/fit_isotonic.py:112-119 | the pooled means are themselves a non-increasing assignment |
| `ReducedFit.SegmentCost` | nvmevirt_test/fit_isotonic.py:122-127 | the cost from prefix sums is the cost from the segment's own sums |
| `ReducedFit.SegCostIsSquaredError` | nvmevirt_test/fit_isotonic.py:122-127 | on data with non-negative spread that cost is the weighted squared error of the segment about its mean, the least any one value has |
| `ReducedFit.OptIsLowerBound` | nvmevirt_test/fit_isotonic.py:130-156 | the recurrence value is no more than the cost of any partition into that many non-empty segments |
| `ReducedFit.FillCell` | nvmevirt_test/fit_isotonic.py:149-156 | one cell holds the least cost, and its parent the first start that attains it |
| `ReducedFit.Walk` | nvmevirt_test/fit_isotonic.py:159-169 | the parent walk never fails and yields a partition whose cost is the optimum |
| `ReducedFit.ReducedFits` | nvmevirt_test/fit_isotonic.py:130-172 | for every K up to the smaller of the step limit and the number of blocks, a partition into K non-empty segments of least total cost, the one with the earliest cuts, with its groups merged; on consistent blocks the costs do not increase with K |
| `ReducedFit.TiesGoEarly` | nvmevirt_test/fit_isotonic.py:149-169 | of equally cheap partitions the walk yields the one whose last differing cut comes earlier |
| `ReducedFit.BestFitIsLeastSquares` | nvmevirt_test/fit_isotonic.py:130-172 | no assignment with K constant runs has a smaller weighted squared error over the blocks than the fit, and the means of its groups attain it |
| `ReducedFit.PathIsLeastSquares` | nvmevirt_test/fit_isotonic.py:122-172 | the cost of any partition is the least squared error of an assignment constant on its segments |
| `ReducedFit.SplitHelps` | nvmevirt_test/fit_isotonic.py:122-127 | splitting a segment never raises its cost |
| `ReducedFit.MoreStepsNeverCostMore` | nvmevirt_test/fit_isotonic.py:158-172 | the optimal cost does not increase with K |
| `ReducedFit.PointIsConsistent` | nvmevirt_test/fit_isotonic.py:84-95 | the point made of the positively weighted samples of one age has a non-negative spread |
| `StepFits.OneValueWillDo` | nvmevirt_test/fit_isotonic.py:112-119 | on a pooled block, one of the values of a non-increasing fit does no worse alone than the whole fit |
| `StepFits.MoveSteps` | nvmevirt_test/fit_isotonic.py:112-172 | the steps of any non-increasing fit to the points can be moved to the ends of pooled blocks without new values and without raising the error |
| `StepFits.BestStepFit` | nvmevirt_test/fit_isotonic.py:130-172 | no non-increasing assignment to the points with at most K values has a smaller squared error than the best coarsening of the pooled blocks into K groups |
| `StepFits.BestStepFitIsAttained` | nvmevirt_test/fit_isotonic.py:130-172 | the means of those groups are such an assignment and attain the cost |
| `StepFits.PoolThenCoarsen` | nvmevirt_test/fit_isotonic.py:276-290 | pooling first and coarsening afterwards loses nothing: the result is a best non-increasing K-step fit to the points themselves |
| `StepFits.PointError` | nvmevirt_test/fit_isotonic.py:84-95 | the error of a value against a point is the weighted squared error against the samples behind it |
| `Coarsening.Prebin` | nvmevirt_test/fit_isotonic.py:100-109 | few points are left as they are; of more, the first k of the bins hold k even shares of the points, rounded down, every bin a non-empty run |
| `Coarsening.BinSizes` | nvmevirt_test/fit_isotonic.py:103-108 | every bin holds an even share of the points, rounded down or up |
| `Coarsening.RunMean` | nvmevirt_test/fit_isotonic.py:34-36 | the mean of a run of falling blocks lies between its last and its first mean |
| `Coarsening.CoarseningFalls` | nvmevirt_test/fit_isotonic.py:158-172 | every coarsening of a non-increasing fit is non-increasing |
| `Coarsening.CoarseningKeepsSums` | nvmevirt_test/fit_isotonic.py:44-55 | coarsening conserves weight, sums and sample count |
| `Coarsening.CoarseningKeepsConsistency` | nvmevirt_test/fit_isotonic.py:44-55 | so do all binned, pooled and grouped blocks made from such points |
| `Coarsening.CoarseningKeepsAges` | nvmevirt_test/fit_isotonic.py:44-55 | coarsening keeps the age ranges ordered and loses no sampled age |
| `Export.RoundIsNearest` | nvmevirt_test/fit_isotonic.py:203-205 | the rounded value is within half a unit, and even when exactly half a unit away |
| `Export.RoundMonotone` | nvmevirt_test/fit_isotonic.py:203-205 | rounding to the nearest integer, halves to even, never reverses an order |
| `Export.ScoresFromFutureGain` | nvmevirt_test/fit_isotonic.py:197-209 | one value per group, each the largest score so far, a score being the integer from 1 to the limit nearest to the ratio of the mean gains, halves to even; the first is 1 |
| `Export.ScoreIsUnique` | nvmevirt_test/fit_isotonic.py:203-205 | there is only one such integer |
| `Export.OwnScoreExactly` | nvmevirt_test/fit_isotonic.py:203-205 | the clamped and rounded ratio is that integer |
| `Export.RunningMaxRises` | nvmevirt_test/fit_isotonic.py:197-209 | the values never fall and stay between 1 and the limit |
| `Export.FallingFitScoresItself` | nvmevirt_test/fit_isotonic.py:206-207 | for a non-increasing fit the running maximum never acts: each group gets its own score |
| `Export.MergeEqualScoreSteps` | nvmevirt_test/fit_isotonic.py:212-222 | the step function is unchanged at every age, values become strictly increasing, every group is in one merged group |
| `Export.KernelReadsSteps` | nvmevirt_test/conv_ftl.c:938-959 | the kernel's lookup in the exported table is the fitted step function, at every age |
| `Export.TablePasses` | nvmevirt_test/conv_ftl.h:112-138 | the exported table passes every preprocessor check |
| `Export.ExportIsFaithful` | nvmevirt_test/fit_isotonic.py:225-240 | the kernel reads for every sampled age the score of the group that holds it |
| `Export.PoolPoints` | nvmevirt_test/fit_isotonic.py:280-281 | even bins, then pooled blocks, together covering every sampled age, falling and ordered |
| `Export.FitTable` | nvmevirt_test/fit_isotonic.py:276-290 | the whole fitter, whichever K is chosen: an optimal coarsening that is a best non-increasing K-step fit to the binned points, scores that are the nearest integers to the ratios of mean gains, a table that passes the checks and gives every sampled age its group's score |
| `ChannelModel.BookFills` | nvmevirt_test/channel_model.c:86-106 | booking changes only the intervals from the first to the last, fills all but the last, and never exceeds an interval's credits |
| `ChannelModel.BookConserves` | nvmevirt_test/channel_model.c:86-106 | the free credits shrink by exactly the units booked |
| `ChannelModel.BookLeaves` | nvmevirt_test/channel_model.c:86-106 | units are left over exactly when the free credits up to the end of the ring do not suffice, and then exactly the difference |
| `ChannelModel.BookIsFirstFit` | nvmevirt_test/channel_model.c:86-106 | the booking ends in the first interval by which enough credits are free, or in the last of the ring |
| `ChannelModel.IdleHasNoExcess` | nvmevirt_test/channel_model.c:79-119 | with nothing booked ahead the intervals used never exceed the quotient the request is charged, also when the credits divide it |
| `ChannelModel.IdleFinish` | nvmevirt_test/channel_model.c:79-121 | on a channel free from the requested interval on, the answer is exactly the request time plus latency times units, that product taken in 32 bits as the source does |
| `ChannelModel.AnswersExactly` | nvmevirt_test/channel_model.c:65-121 | a request is answered with its own time plus one interval for each by which the first interval with enough free credits, or the ring's last, is later than on an empty channel; early if its time has passed or lies beyond the ring |
| `ChannelModel.BooksExactly` | nvmevirt_test/channel_model.c:65-106 | a request fills the intervals before that one, touches no other, and takes exactly its units or all there is |
| `ChannelModel.CreditsExactly` | nvmevirt_test/channel_model.c:16-29 | an interval's credits are the whole units the bandwidth moves in it |
| `ChannelModel.LatencyExactly` | nvmevirt_test/channel_model.c:16-29 | a unit's latency is the whole nanoseconds the bandwidth takes for it, and no bit is lost |
| `ChannelModel.MovedSlots` | nvmevirt_test/channel_model.c:42-57 | after the head moved, the rest of the window is where it was and every slot outside it is full |
| `ChannelModel.ClockMoves` | nvmevirt_test/channel_model.c:42-57 | the ring keeps representing the timeline exactly when the 32-bit interval difference is exact or leaves no passed booking in the window |
| `ChannelModel.ClockJumpFails` | nvmevirt_test/channel_model.c:42-57 | a channel with one transfer booked on which a jump of 2^32 intervals breaks the representation |
| `ChannelModel.RingStep` | nvmevirt_test/channel_model.c:87-91 | taking credits from one slot books exactly its interval and may extend the window |
| `ChannelModel.Channel.constructor` | nvmevirt_test/channel_model.c:16-29 | an empty timeline, all slots full, credits and latency those of the bandwidth |
| `ChannelModel.Channel.MoveClock` | nvmevirt_test/channel_model.c:42-63 | the ring represents the same timeline at the new time; the window assertion holds |
| `ChannelModel.Channel.Consume` | nvmevirt_test/channel_model.c:79-112 | the loop ends and books what first fit books, returning the intervals moved on |
| `ChannelModel.Channel.Request` | nvmevirt_test/channel_model.c:31-121 | early answers change nothing; any other request takes the free credits from its interval on and is answered with its own time plus the intervals these are late |
| `ChannelModel.Channel.Serve` | nvmevirt_test/channel_model.c:31-121 | over every run with a forward clock the ring books exactly what the unbounded timeline books, never more than an interval's credits, and answers every request with the finish time that the timeline's free credits give it |
| `ChannelModel.Timeline` | nvmevirt_test/channel_model.c:31-121 | no interval of the timeline of a run exceeds its credits |
| `IoQueue.EveryEntryIsPlaced` | nvmevirt_test/io.c:753-762 | every entry is on exactly one of the free list and the list in flight |
| `IoQueue.PutLinksNext` | nvmevirt_test/io.c:275-290 | linking an entry at any position makes the next fields represent the longer list |
| `IoQueue.PutLinksPrev` | nvmevirt_test/io.c:275-290 | linking an entry at any position makes the prev fields represent the longer list |
| `IoQueue.InsertKeepsSorted` | nvmevirt_test/io.c:262-273 | inserting where the scan stops keeps the order by due time, and the entries before are exactly those due no later |
| `IoQueue.SortedLater` | nvmevirt_test/io.c:619-620 | the order by due time survives the passing of the worker's time |
| `IoQueue.TargetOrderExactly` | nvmevirt_test/io.c:262-273 | insertion keeps the order of target times exactly when the new target is no earlier than any already due |
| `IoQueue.NotSortedByTarget` | nvmevirt_test/io.c:262-273 | a concrete insertion after which the target times are out of order |
| `IoQueue.LateRequestGoesBehind` | nvmevirt_test/io.c:248-292 | a queue reached by two requests and one visit of the worker whose list in flight is not in target order |
| `IoQueue.ReclaimLinks` | nvmevirt_test/io.c:420-436 | moving a prefix to the end of the free list leaves both lists well linked |
| `IoQueue.PrefixIsCompleted` | nvmevirt_test/io.c:405-418 | the reclaimer stops exactly at the first request that is not completed |
| `IoQueue.PassThenReclaimEmpties` | nvmevirt_test/io.c:615-675 | once a pass has seen every request due, reclaiming frees them all |
| `IoQueue.Worker.constructor` | nvmevirt_test/io.c:740-762 | all entries free in order, none in flight |
| `IoQueue.Worker.Allocate` | nvmevirt_test/io.c:294-315 | refuses exactly when one free entry remains, so the free list is never empty; otherwise hands out its first entry |
| `IoQueue.Worker.FindPlace` | nvmevirt_test/io.c:262-273 | the scan stops behind the last request that is due or has no later target |
| `IoQueue.Worker.Link` | nvmevirt_test/io.c:275-290 | the three cases of linking all amount to putting the entry at the scanned position |
| `IoQueue.Worker.InsertSorted` | nvmevirt_test/io.c:248-292 | the entry goes behind exactly the requests due no later, and all list invariants hold |
| `IoQueue.Worker.Enqueue` | nvmevirt_test/io.c:317-388 | a request takes the first free entry and its place in flight and changes the fields of no other entry, or is dropped, changing nothing, exactly when one free entry remains |
| `IoQueue.Worker.Reclaim` | nvmevirt_test/io.c:390-439 | exactly the longest finished prefix moves, in order, to the end of the free list |
| `IoQueue.Worker.Visit` | nvmevirt_test/io.c:617-675 | an entry in flight is copied, completed if due, and the worker goes on to the next in flight; an entry reclaimed since the last visit is left alone and the worker goes on along the free list, where it meets completed entries only |
| `IoQueue.Worker.WorkerPass` | nvmevirt_test/io.c:612-676 | a pass without reclaiming in between copies every request in flight and completes exactly those due when visited |
| `IoRuns.Interleave` | nvmevirt_test/io.c:317-439 | any interleaving of requests, reclaiming and single turns of the worker keeps both lists and the order, the worker always stands on a request in flight or a completed entry, and each step has exactly its stated effect |
| `IoRuns.StandingKept` | nvmevirt_test/io.c:390-439 | neither a new request nor reclaiming leaves the worker on an entry it might wrongly copy or complete |
| `IoRuns.FreedOnlyWhenDone` | nvmevirt_test/io.c:317-676 | over every interleaving a request is in flight with its target, or was freed at a step where it had been copied, completed and due |

## Left out

- Reads: `conv_read` changes no mapping state.
- Latencies: `ssd_advance_nand`, gc_read_page and the PCIe and write-buffer timing are no-ops here.
- Write-buffer byte accounting, including the early return of `conv_write` when the buffer is full.
- Striping over several partitions: one partition, so a logical page number is a local one.
- Statistics: candidate and age histograms, forced and zero-valid pass counts, minima and maxima, what isotonic sampling and censoring record, flush logging.
- `erase_cnt` and the last-modified time of a line; ages are inputs to victim selection.
- `clean_one_block`, which nothing calls.
- Several planes per LUN; the source marks this as unfinished.
- The lists of lines are sequences held in fields, not linked list nodes; their order and counters are modelled.
- Growing the heap: `RoomForOneMore` shows that the translation layer never triggers it.
- `choose_fit`: the number of steps is an arbitrary one of those fitted.
- Reading and grouping the CSV rows, argument parsing and printing: the fitter starts from one block per age, in increasing order of ages that fit in 64 bits.
- Floating-point rounding in the fitter.
- The bounds of `int` and `unsigned long` for derived sizes and for 64-bit times.
- Dispatcher and worker operations that overlap in time: every dispatcher operation and every visit of the worker to one entry is one step; the steps may come in any order.
- Data movement, submission and completion queues, interrupts, and the choice among several workers.
- The key-value and zoned translation layers.
