# Shogun-OS: a verified model of the kernel's stateful parts

Shogun-OS is a 32-bit hobby kernel in C. This project models, in Dafny 4.11, the parts of it
that keep state across calls, and proves what they keep over every run. `dafny verify
dfyconfig.toml` checks everything.

| files | what they model |
|---|---|
| `Words` | 32-bit wrap-around arithmetic; the alignment mask, bit by bit |
| `FreeList`, `HeapRuns`, `HeaderDrift` | the linked-list allocator as a function of its state, its runs, and what unequal header sizes do to it |
| `Allocator`, `HeapDriver` | the same allocator on words in memory, refining those functions |
| `Tasks`, `Chains`, `Executor`, `Sequences` | futures, one poll, one scan; the task queue and the wake-up list edited in place |
| `KernelRuns` | executor, clock interrupt and wake-up list as one transition system |
| `SpawnInScan` | the scan loop while tasks are spawned under it |
| `GuardedRead` | the guarded access to the clock registers |
| `Terminal`, `Decimal`, `Strings` | the scrolling text grid and the integer printers |
| `Format`, `Logger` | the bounded formatter and the log ring |
| `Ports` | the port registry and the clock driver's use of it |

## Main results

**Allocator.** Let `u` be the size of a block header and `F` = 8 that of a free header. With
`u == F`, every run of `allocate`, `deallocate` and client stores keeps free segments, live blocks
and the headers lost to exact fits an exact partition of the region, with a sorted, fully coalesced
free list. The free list depends only on which blocks are live and which headers are lost; once all
blocks are given back, in any order, the boot segment is restored if and only if no allocation was
an exact fit. At every `u`, in every run, each block given back adds exactly `F - u` bytes to what
the heap believes it has, less the length of every block whose pointer is handed out a second time
(`BytesAccounted`); with `u == F` there is no such block and bytes are conserved. `allocate` is sound and complete first fit. The
32-bit fit test agrees with the unbounded one on every segment if and only if size, header and
alignment together stay below 2^32, which a caller can check. The code on words in memory, where a
store destroys what it overlaps, refines all of this.

**The headers as built.** The padding of `UsedSegment` (src/memory.h:21-24) has length
`offsetof(next_segment) - sizeof(size_t)` = 0, so `u` is 4 and `deallocate` (src/memory.c:194)
over-counts by 4 each time. `FreeSafeExactlyWhenHeadersEqual` proves that from *any* sound heap,
giving *any* block back leaves a sound heap if and only if `u == F`; hence (`RunSoundExactly`) a run
is sound throughout if and only if `u == F` or it gives no block back. `RoundDrifts` and
`RoundsDrift` give the growth of one request repeated, `GrowthIsDriftExactly` that of any run, under
a condition on the pointers returned that is necessary and sufficient. In every region of at least
80 bytes, with the alignment that `malloc` passes: after four calls one client owns another live
block's header (`BuiltOverlap`), and after eleven the next call returns a pointer that another
client still owns (`BuiltTwoOwners`).

**Executor and clock.** Polls, the load of the poll flag and the halt are separate steps, and
interrupts and spawns fall between any two of them, scans included. In every run the processor is
halted only with an empty queue, and every turn of the loop keeps the promises of the in-place code
on nodes; a serial task writes its data once and in order and leaves when it is out; a wake-up entry fires exactly once, at its target; a sleep never
ends early, and the first scan that polls it at or after its target removes and releases it; a
task's parts are released exactly once, unless its future reads the clock, which is released twice
(src/rtc.c:392-395 and src/async_executor.c:111). The in-place deletion loops refine
order-preserving filters. A task spawned during a scan can be unlinked by the removal of another,
unpolled and unreleased: `RunLosesExactly` and `ScanWithSpawns` say exactly when. One spawned just
before a halt is stranded: `SpawnStrandsExactly` says exactly when.

**Clock registers, terminal, formatter, ring, ports.** An accepted guarded read is a time the
clock showed at one instant if and only if updates last at least as long as a pass; the 80 by 25
grid is always the bottom window of an unbounded layout; the formatter writes exactly the clipped
rendering; the ring is a queue that drops its oldest exactly when 64 are held; no port is granted twice and the clock driver
takes both ports or none.

## Assumptions

- List insertion, the list check, `malloc` and `free` are single steps: the code does not mask
  interrupts around them, and interrupts inside them are not modelled.
- In `KernelRuns` a task may be spawned between any two steps, but not between a flag load that
  decided to halt and the halt; `SpawnStrandsExactly` shows that this exclusion is exact.
- Every wake-up callback sets the poll flag, as those of the repository do
  (src/async_executor.c:184-187, src/rtc.c:341-344).
- Interrupts may come at any time. The executor masks them after its first halt
  (src/async_executor.c:127), so its real runs are among those considered.
- An access to a clock register is one step. The code selects the register and then fetches it
  (src/rtc.c:126-129), and the clock interrupt selects another in its handler (src/kernel.c:37): an
  interrupt between the two makes the fetch return the wrong register, which is not modelled.
- Port reads, the transmitter status, the outcome of memory requests and the clock hardware are
  inputs; port writes and releases are recorded in order.
- Signed 32-bit negation wraps around (in C, negating -2^31 is undefined).
- Where a theorem about ticks needs it, the counter does not reach 2^32.

## Model

| member | source | states |
|---|---|---|
| `Words.MaskAligns` | src/memory.c:132 | for every power-of-two alignment, `x & ~(alignment - 1)`, computed bit by bit, rounds `x` down to a multiple |
| `Words.AlignDownGreatest` | src/memory.c:132 | the rounded address is the greatest multiple that does not exceed `x` |
| `FreeList.FirstFit` | src/memory.c:126-165 | the chosen segment fits and no earlier one does |
| `FreeList.FitsExactlyWhenHolds` | src/memory.c:130-141 | the tail test accepts a segment if and only if some aligned placement of the block in it exists |
| `FreeList.AllocateFailsExactly` | src/memory.c:119-168 | NULL, with nothing changed, exactly when the size is 0 or no segment can hold an aligned block of it at all |
| `FreeList.AllocatePlacesBlock` | src/memory.c:126-165 | otherwise, in the lowest segment that can hold it, the block at the highest aligned address from which the requested size still fits; its length is the rest of the segment; no other block changes |
| `FreeList.AllocateFrame` | src/memory.c:145-159 | the other segments stay, and the chosen one shrinks to end where the block begins or, on an exact fit, leaves the list and loses its header |
| `FreeList.AllocateKeepsInv` | src/memory.c:119-168 | allocation keeps the region partitioned into free segments, live blocks and lost headers, sorted and coalesced |
| `FreeList.Below` | src/memory.c:197-203 | the insertion point separates lower from higher addresses |
| `FreeList.InsertCoalesces` | src/memory.c:205-220 | the two fusions close both gaps an insertion can open |
| `FreeList.DeallocateKeepsInv` | src/memory.c:184-221 | giving a live block back keeps the same invariant when u == F, the only header size for which it ever does (`FreeSafeExactlyWhenHeadersEqual`) |
| `HeapRuns.RunKeepsInv` | src/memory.c:119-221 | heap safety, for every u: a legal run, client stores included, keeps the invariant if u == F or it gives no block back; `RunSoundExactly` has the converse |
| `HeapRuns.LostHeadersAreExactFits` | src/memory.c:145-152 | for every u and every run, each exact-fit allocation loses one header and nothing else does; only a header lost again adds no new address |
| `HeapRuns.SafeRunsAreFresh` | src/memory.c:119-168 | in runs that keep the heap sound no live pointer is handed out again and no header is lost again |
| `HeapRuns.BytesAccounted` | src/memory.c:139-195 | for every u and every run: free bytes, live bytes, F bytes for each exact fit and the blocks whose pointer was handed out again add up to the region plus F - u bytes for each block given back |
| `HeapRuns.GrowthIsDriftExactly` | src/memory.c:139-195 | the growth is F - u for each block given back, and nothing else, if and only if no call returns a pointer that is owned at the time |
| `HeapRuns.BytesConserved` | src/memory.c:139-157 | conservation: after every run with u == F, or without a block given back, free bytes, live bytes and F bytes for each exact fit add up to the region |
| `HeapRuns.FreeIsTheRest` | src/memory.c:119-221 | a byte is free exactly when it is in the region and no block or lost header owns it |
| `HeapRuns.SameBytesSameList` | src/memory.c:200-220 | a sorted list of segments that do not touch is determined by the bytes it covers |
| `HeapRuns.FreeListIsCanonical` | src/memory.c:184-221 | two heaps with the same live blocks and lost headers have the same free list, whatever the order of calls |
| `HeapRuns.FreeingAllRestoresExactly` | src/memory.c:189-220 | with all blocks given back, in any order, the free list is the boot segment with its size if and only if no allocation was an exact fit |
| `HeaderDrift.RoundDrifts` | src/memory.c:191-220 | one `malloc` that is not an exact fit, then its `free`, leaves one segment that is F - u bytes larger |
| `HeaderDrift.RoundsDrift` | src/memory.c:194 | `k` such rounds add `Drift(u, k)` bytes |
| `HeaderDrift.DriftIsLinear` | src/memory.c:194 | that drift is `k * (F - u)` |
| `HeaderDrift.UnequalHeadersBreak` | src/memory.c:191-194 | for every unequal header size, two calls break the invariant |
| `HeaderDrift.SafeExactlyWhenHeadersEqual` | src/memory.h:16-24 | every run in every region is safe if and only if the two headers have the same size |
| `HeaderDrift.FreeAddsExactly` | src/memory.c:184-221 | at every u: giving a block back makes free exactly its bytes and the F - u behind it, and removes exactly that block |
| `HeaderDrift.FreeSafeExactlyWhenHeadersEqual` | src/memory.c:184-221 | from every sound heap, giving any live block back leaves a sound heap if and only if u == F |
| `HeaderDrift.RunSoundExactly` | src/memory.c:119-221 | every run from a sound heap is sound in all its states if and only if u == F or it gives no block back |
| `HeaderDrift.BuiltOverlap` | src/memory.c:194-224 | as built, in every region of 80 bytes or more, four calls with alignment 8 hand a client the header of another live block |
| `HeaderDrift.BuiltTwoOwners` | src/memory.c:184-229 | as built, in every such region, one `malloc(16)` and five rounds of `malloc(16)` and `free` make the next `malloc(16)` return the first pointer while it is owned |
| `Allocator.TestAgreesExactlyBelowLimit` | src/memory.c:130-141 | for every size and power-of-two alignment, the 32-bit test agrees with the unbounded one on all segments if and only if size + u + alignment - 1 is below 2^32 |
| `Allocator.WordFitExactly` | src/memory.c:130-141 | on one segment the two agree exactly when the header address does not wrap back into the segment |
| `Allocator.WordFitAgrees` | src/memory.c:130-141 | below that limit: same verdict, same header, same length |
| `Allocator.HugeRequestGranted` | src/memory.c:130-141 | beyond it: a request for 2^32 - 1 bytes is granted by any segment of at least u bytes that ends below 2^32 - 1, with a block of u - 1 bytes |
| `Allocator.BootSegmentFitsExactly` | src/memory.c:107-113 | for every region the code accepts, the boot segment runs from the first multiple of 8 to the end of the region if and only if a header fits there; otherwise a word has wrapped |
| `Allocator.InvGivesSeparate` | src/memory.c:119-221 | for every block header of at least a word the heap invariant provides what `allocate` relies on, and what `deallocate` relies on for every block with room for a free header |
| `Allocator.StoreReads` | src/memory.c:142-159 | a word store destroys exactly the words it overlaps, a client's byte store exactly the words that contain the byte |
| `Allocator.Heap.constructor` | src/memory.c:111-115 | memory holds the single boot segment |
| `Allocator.Heap.Allocate` | src/memory.c:119-168 | the search over header words in memory refines first fit, state and pointer |
| `Allocator.Heap.CarveTail` | src/memory.c:142-159 | the accepting branch turns memory from the old state into the carved one |
| `Allocator.Heap.ShrinkOrUnlink` | src/memory.c:145-157 | the segment's size word, its predecessor's link or the list head is rewritten, and nothing else |
| `Allocator.Heap.WriteFreeHeader` | src/memory.c:189-195 | the block header becomes a free header and no other header is disturbed |
| `Allocator.Heap.LinkBlock` | src/memory.c:205-210 | the chain in memory becomes the list with the block inserted |
| `Allocator.Heap.Absorb` | src/memory.c:212-220 | the adjacency test and the two stores fuse a segment with its successor exactly when they touch |
| `Allocator.Heap.LinkAndFuse` | src/memory.c:205-220 | insertion, fusion with the successor, fusion with the predecessor |
| `Allocator.Heap.Deallocate` | src/memory.c:184-221 | the whole of `deallocate` on memory refines the state function; NULL changes nothing |
| `Allocator.Heap.ClientWrite` | src/memory.c:159 | for every header size, a client that writes inside its block disturbs no header of a sound heap |
| `HeapDriver.Serve` | src/memory.c:119-229 | any legal run of calls and client stores on the boot heap that keeps the heap sound (u == F, or as built without a block given back): memory represents the state the run prescribes, and the invariant holds |
| `Chains.Chain.PushFront` | src/async_executor.c:46-48 | insertion at the front |
| `Chains.Chain.SetItem` | src/async_executor.c:66-69 | a poll updates one task in place and leaves the links alone |
| `Chains.Chain.Unlink` | src/async_executor.c:94-96 | removal through the word that points at the node keeps all others, in order |
| `Tasks.FutureFreedOnceUnlessClock` | src/async_executor.c:99-112 | cleanup, waker and task once each; the future once if and only if it is not a clock future, which is released twice |
| `Tasks.ReleasesInOrder` | src/async_executor.c:99-112 | cleanup first, task last; nothing but the task is released or touched after the future if and only if it is not a clock future |
| `Tasks.PollAdvances` | src/async_executor.c:60-74 | one poll, per kind of future: verdict, byte written, and the future remembered with exactly that progress |
| `Tasks.Staying` | src/async_executor.c:89-119 | the positions of exactly the tasks whose poll is not ready, increasing |
| `Tasks.ScanIsFilter` | src/async_executor.c:84-121 | a scan keeps exactly those tasks, as their polls left them, in their old order |
| `Tasks.ScanOfOne` | src/async_executor.c:89-119 | what a scan of one task keeps, writes and releases |
| `Tasks.ScanInOrder` | src/async_executor.c:84-121 | a scan of two parts of a queue keeps, writes and releases for the first part, then for the second |
| `Tasks.CheckIsFilter` | src/rtc.c:70-85 | exactly the entries with a later target stay and exactly the due callbacks run, each in list order |
| `Tasks.SerialWritesInOrder` | src/async_executor.c:220-243 | for any transmitter behaviour the polls of a serial task put out the first bytes of the data, it is completed exactly when all are out, and polls = bytes + busy polls |
| `Executor.WakeUpList.Add` | src/rtc.c:48-61 | the entry goes to the front, or nothing changes without memory; the count follows |
| `Executor.WakeUpList.CheckEntry` | src/rtc.c:70-85 | the loop body unlinks the current entry exactly when it is due |
| `Executor.WakeUpList.CheckAndExecute` | src/rtc.c:63-86 | the deletion loop refines the filter of later entries and runs exactly the due callbacks, in order; `entry_count` is the length |
| `Executor.Executor.Spawn` | src/async_executor.c:38-57 | the task, with its waker, goes to the front and sets the flag; nothing changes without memory |
| `Executor.Executor.ScanTask` | src/async_executor.c:89-119 | one poll: the task is unlinked and released, or updated and stepped over |
| `Executor.Executor.ScanQueue` | src/async_executor.c:84-121 | the scan refines `Scan`: queue, bytes written, releases; `task_count` is the length; the flag says whether a task is left |
| `Executor.Executor.RunOnce` | src/async_executor.c:80-132 | one turn does to queue, port and releases what `Scan` says, halts exactly when no task is left and the flag load saw no request; a later request survives exactly a halt |
| `KernelRuns.RunKeepsInv` | src/async_executor.c:77-133 | in every reachable state `task_count` is the length of the queue plus the tasks lost, `entry_count` is the length of its list, identities are unique, and each loop position implies its facts |
| `KernelRuns.SpawnAdds` | src/async_executor.c:38-57 | the new task is in front, to be polled, with its waker; without memory nothing changes |
| `KernelRuns.HaltsOnlyWhenIdle` | src/async_executor.c:123-131 | in every run from boot, with spawns during scans, the processor is halted only with an empty queue |
| `KernelRuns.TurnIsRunOnce` | src/async_executor.c:80-132 | one turn with interrupts at any points keeps the promises of `RunOnce`: queue, port, releases, when it halts, and what is left of the flag |
| `KernelRuns.IdleExecutorHalts` | src/async_executor.c:124-131 | left alone with an empty queue the executor halts, after one turn or, if the flag is set, after two |
| `KernelRuns.SpawnStrandsExactly` | src/async_executor.c:124-131 | a task spawned after the flag load is left behind a halted processor if and only if that load decided to halt; otherwise the next step keeps the invariant |
| `KernelRuns.RunLosesExactly` | src/async_executor.c:86-118 | over every run a task is lost if and only if some poll is ready while tasks spawned during its scan stand in front and the scan has stepped over none |
| `KernelRuns.CountIsLengthExactly` | src/async_executor.c:92-114 | after every run from boot `task_count` is the length of the queue if and only if that never happened |
| `SpawnInScan.KernelFollowsCursor` | src/async_executor.c:86-118 | the kernel's steps during a scan are those of the cursor with `prev_ptr` as a position of its own |
| `SpawnInScan.ScanWithSpawns` | src/async_executor.c:86-118 | with spawns at any points of a scan, the old tasks are polled, kept and removed as without them, the surviving new tasks stand in front, and `task_count` exceeds the length by the number lost |
| `SpawnInScan.CountRightExactly` | src/async_executor.c:87-114 | no spawned task is lost, and the count is right, if and only if no spawn precedes a ready poll while the scan has kept no task yet |
| `KernelRuns.PendingMeansAnotherScan` | src/async_executor.c:115-131 | after a scan that leaves a task, the executor's next three steps start another scan, without halting, whatever comes between |
| `KernelRuns.EntryFiresExactlyOnce` | src/rtc.c:48-86 | in every run an added entry's callback runs exactly once, in the interrupt that brings the counter to its target |
| `KernelRuns.TickLeavesLaterEntries` | src/kernel.c:31-44 | after every interrupt all remaining entries wait for a later tick |
| `KernelRuns.TickWakesExecutor` | src/kernel.c:31-44 | after a clock interrupt the flag is set if and only if it was or a callback was due; no interrupt leaves the processor halted or touches the queue |
| `KernelRuns.SerialInterruptWakes` | src/async_executor.c:271-274 | a serial interrupt sets the flag, ends a halt and does nothing else |
| `KernelRuns.TaskReleasedExactlyOnce` | src/async_executor.c:92-114 | in every run nothing of a task is released while it is queued or if it is lost, and exactly one removal's worth otherwise |
| `KernelRuns.PartsFreedExactlyOnce` | src/async_executor.c:92-114 | over every run: cleanup, task and waker released exactly once after the task was removed, the future exactly once if and only if it does not read the clock; nothing while it is queued or if it is lost |
| `KernelRuns.SleepNeverEndsEarly` | src/async_executor.c:155-204 | in every run a sleep of n ticks created at t is not removed while the counter is below t + n |
| `KernelRuns.ScanRemovesSleeper` | src/async_executor.c:60-74 | a scan that has not passed the sleeper when its target is reached, begun before or after, removes it, whatever interrupts and spawns come during it |
| `KernelRuns.SleepEndsAfterTarget` | src/async_executor.c:155-204 | from spawn to release: after any run, a scan that has not passed the sleep when the counter has reached t + n removes it and releases its parts |
| `KernelRuns.WholeScanRefines` | src/async_executor.c:84-121 | polls interleaved with any interrupts do to queue, port and releases what `Scan` says |
| `KernelRuns.SerialTaskWritesInOrder` | src/async_executor.c:60-74 | over every run: the bytes a serial task puts out are the first bytes of its data, one for each poll with the transmitter empty, and it is removed exactly when all are out |
| `KernelRuns.OthersWriteNothing` | src/async_executor.c:60-74 | over every run sleeps and clock reads put out nothing |
| `KernelRuns.OnlyPollsWrite` | src/async_executor.c:84-121 | over every run the port receives exactly what polls put out |
| `GuardedRead.UpdateGuardedOp` | src/rtc.c:190-205 | the nested loops accept exactly the first pass whose guards both find no update |
| `GuardedRead.AcceptedExactly` | src/rtc.c:195-204 | a pass is accepted if and only if the waits and retries get to it and both its guards find no update |
| `GuardedRead.ReadRtcTime` | src/rtc.c:207-221 | fails exactly without a driver; otherwise the three registers of the accepted pass |
| `GuardedRead.AcceptedPassIsQuiet` | src/rtc.c:159-205 | during an accepted pass no update is in progress and the registers do not change; this covers guarded reads and writes |
| `GuardedRead.ReadIsOneInstant` | src/rtc.c:174-221 | the time returned is one the clock showed at a single instant, however many retries came first |
| `GuardedRead.QuietClockIsRead` | src/rtc.c:195-204 | once no access finds an update, a pass is accepted within nine accesses |
| `GuardedRead.ShortUpdateTearsRead` | src/rtc.c:195-204 | for every length d of a pass, some clock with updates of d - 1 instants has a time accepted that it never showed |
| `GuardedRead.ConsistentExactlyWhenUpdatesLast` | src/rtc.c:190-221 | on all clocks and schedules accepted reads are consistent if and only if updates last at least as long as a pass may take |
| `Decimal.NumeralDenotes` | src/terminal.c:112-136 | a numeral reads back as its number, consists of digits and has no leading zero |
| `Decimal.SignedNumeralDenotes` | src/terminal.c:70-104 | the signed round trip; a minus sign in front exactly for negative numbers |
| `Decimal.NumeralsFit` | src/terminal.c:106-142 | with terminator, 11 bytes hold every unsigned and 12 every signed 32-bit numeral |
| `Decimal.WriteDigits` | src/terminal.c:85-88 | the digit loop leaves the digits, low end first, for numbers of either sign |
| `Decimal.ReverseInPlace` | src/terminal.c:127-135 | the swapping loop reverses the prefix and nothing else |
| `Decimal.UintToString` | src/terminal.c:112-136 | the buffer holds the numeral and a terminator; the rest is untouched |
| `Decimal.PrintedFits` | src/terminal.c:106-110 | what is printed for any 32-bit number fits 12 bytes, and no character of it ends the string early |
| `Decimal.IntToString` | src/terminal.c:70-104 | for every 32-bit number, -2^31 included: the printed characters, a terminator, the rest untouched |
| `Decimal.PrintsNumeralUnlessMin` | src/terminal.c:80-88 | with wrap-around negation, what is printed is the numeral if and only if the number is not -2^31 |
| `Terminal.PageTyped` | src/terminal.c:36-62 | the layout of a text with one more character is that character typed at the end of the page |
| `Terminal.CellReads` | src/terminal.c:9-12 | the low byte of a cell is its character and the high byte the colour (all ones for characters of 128 and more); different characters have different cells |
| `Terminal.PageHolds` | src/terminal.c:36-62 | every character other than a line break stands on the page where the cursor, 80 columns to a row, was when it was written |
| `Terminal.PageIsText` | src/terminal.c:36-68 | row after row the page reads as the text without its line breaks |
| `Terminal.Terminal.PutCharAt` | src/terminal.c:9-12 | one cell changes |
| `Terminal.Terminal.CopyRowUp` | src/terminal.c:16-18 | a row becomes a copy of the one below it |
| `Terminal.Terminal.Scroll` | src/terminal.c:14-24 | every row moves up one, in place; the last is blank |
| `Terminal.Terminal.Clear` | src/terminal.c:26-34 | the grid shows the empty page |
| `Terminal.Terminal.ScrollIfPast` | src/terminal.c:43-46 | scrolling keeps the grid the bottom window of a page grown by a row |
| `Terminal.Terminal.PutChar` | src/terminal.c:36-62 | the grid and the cursor go from a page to that page with the character typed |
| `Terminal.Terminal.WriteString` | src/terminal.c:64-68 | after any text in any number of calls the low byte of each of the 25 times 80 cells is the character of the bottom window of its unbounded layout, or a space; cursor at the end, in bounds |
| `Format.HexNumeralDenotes` | src/logger.c:117-149 | the hexadecimal round trip; only digits 0-9 and a-f, no leading zero |
| `Format.RenderReads` | src/logger.c:92-163 | what each directive and each plain character renders, with numbers as digits that read back |
| `Format.HexDigits` | src/logger.c:127-139 | the nibble loop leaves the digits, low end first, in bounds |
| `Format.EmitHex` | src/logger.c:117-149 | the hexadecimal numeral, clipped |
| `Format.EmitInt` | src/logger.c:106-116 | what `int_to_string` prints, clipped, for every 32-bit number |
| `Format.IntExpandsToNumeral` | src/logger.c:106-116 | that is the decimal numeral if and only if the number is not -2^31 |
| `Format.Emit` | src/logger.c:96-105 | the copy loop appends the string, clipped |
| `Strings.ClipReads` | src/logger.c:92 | clipping keeps the longest beginning that fits |
| `Format.FormatString` | src/logger.c:87-166 | for every format string, matching arguments and size: exactly the first size - 1 characters of the rendering of the text before the terminator, a terminator, nothing beyond |
| `Logger.HistoryIsGonePlusContents` | src/logger.c:19-42 | over every run the pushed history is the entries that left, in order, then the contents, at most 64 |
| `Logger.DropsExactlyWhenFull` | src/logger.c:19-42 | in every run an entry leaves without a pop, and it is the oldest, exactly on a push with 64 held; a pop returns the oldest |
| `Logger.KeepsLast64` | src/logger.c:19-29 | without pops the buffer holds the last 64 entries pushed, or all of them |
| `Logger.LineReads` | src/logger.c:77-86 | the line printed for each severity, letter by letter |
| `Logger.LinesInOrder` | src/logger.c:299-311 | the lines of a sequence of entries follow each other in its order |
| `Logger.LogBuffer.Push` | src/logger.c:19-29 | the ring refines a queue that drops its oldest when full; tail = (head + count) mod 64 |
| `Logger.LogBuffer.Pop` | src/logger.c:31-42 | the oldest entry, or failure on an empty buffer |
| `Logger.LogBuffer.Service` | src/logger.c:299-311 | terminates, empties the buffer, prints its contents in order |
| `Logger.Serve` | src/logger.c:19-42 | any run of pushes and pops on the ring itself: contents and popped entries are the queue's, and what was pushed is what left, in order, then the contents |
| `Logger.Logger.Log` | src/logger.c:168-193 | below the level nothing; otherwise the entry with name and message clipped to 63 and 255 characters is pushed |
| `Ports.RequestGrants` | src/port_manager.c:25-45 | a request fails exactly when the port is held or all slots are used; otherwise just that port is added; earlier grants stand |
| `Ports.RequestFailsExactly` | src/port_manager.c:25-45 | in every state a request fails exactly when the port or 64 ports are held; otherwise just that port is added |
| `Ports.ReleaseRemoves` | src/port_manager.c:47-57 | releasing a grant removes exactly its port; anything else is ignored |
| `Ports.RunKeepsInv` | src/port_manager.c:11-57 | over every run no two slots in use hold the same port |
| `Ports.GrantsStand` | src/port_manager.c:11-57 | over every run a grant stands until it is released, later initialisation included |
| `Ports.GrantedAgainOnlyAfterRelease` | src/port_manager.c:25-57 | whenever a port is granted again, its earlier grant was released in between |
| `Ports.PortManager.InitPortManager` | src/port_manager.c:11-23 | the first call clears, later calls change nothing |
| `Ports.PortManager.IsPortInUse` | src/port_manager.c:59-66 | true exactly for held ports |
| `Ports.PortManager.RequestPort` | src/port_manager.c:25-45 | the two loops refine the request function |
| `Ports.PortManager.ReleasePort` | src/port_manager.c:47-57 | the range and use checks refine the release function |
| `Ports.InitRtc` | src/rtc.c:88-117 | succeeds exactly when there is memory and both clock ports can be had; takes both or leaves the held ports unchanged |
| `Ports.AcknowledgeRtcInterrupt` | src/rtc.c:296-310 | always leaves the held ports unchanged; reaches the clock exactly when both ports can be had |

## Left out

- The Multiboot memory-map scan and the stack pointer read in `init_allocator`: raw memory; the model starts from the region they select.
- `merge_adjacent`, `debug_print_free_list`: never called, and printing only.
- Allocator.Heap.Allocate: accepts the requests within the limit that a caller can check (power-of-two alignment, size + u + alignment - 1 below 2^32); `TestAgreesExactlyBelowLimit` and `HugeRequestGranted` say what the test does beyond it. It asks that free extents be apart from each other and from block headers, which the heap invariant provides for every u and which fails, as built, after drift.
- Allocator.Heap.Deallocate: accepts live pointers and NULL only, as `deallocate` trusts its argument.
- Allocator.TestAgreesExactlyBelowLimit: takes block headers of at most 2^30 bytes; the two sizes that matter are 4 and 8.
- GuardedRead.UpdateGuardedOp: runs over a finite, arbitrarily long sequence of accesses, and reports that it is still retrying when they end, since the loop of the original need not end.
- GuardedRead.ReadIsOneInstant: takes each register access as one step; an interrupt between selecting and fetching a register is not modelled.
- The values that a guarded write leaves in the clock: the effect of register writes on the hardware is not modelled, only that they fall in a quiet window.
- Task, future and waker are one object in the model, since each task has exactly one future and one waker; aliasing between futures is not captured.
- The null checks on the wake-up list, the monotonic clock and the output arguments of `read_rtc_time`: the model starts after initialisation has succeeded.
- Wrap-around of the tick counter in the theorems about wake-ups and sleeps, and the older counter `system_tick_count`.
- `logger_debug`, `logger_info`, `logger_warning`, `logger_error`: the body of `logger_log` with a fixed level. The interrupt guard around them is not modelled.
- `put_u64`, `put_hex`, `output_string`: easy or, for values of 2^32 and more, printing digits that do not denote the value.
- `sleep_ticks`, `sleep_seconds`: busy loops that depend on hardware progress.
- Descriptor tables, interrupt stubs, interrupt controller, serial port setup, boot code, `panic`, `memset`, `memcpy` and the kernel's self-checks.
