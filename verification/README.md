# Inside-System, verified

A Dafny model of the concurrent and stateful core of the repository: the OpenSBI
library under `OS_Spring_2026/course_3/opensbi`, and two course programs, the
explicit-stack Hanoi programs and the RISC-V emulator with its round-robin
operating system. `dafny verify dfyconfig.toml` checks everything.

Concurrent protocols are state machines whose actions are single accesses to
shared memory, interleaved in any order, with any number of harts. Code that
updates arrays, lists and registers in place is a method or class proved equal
to a function of the old state, and the laws are proved of those functions.

| files | what they model |
|---|---|
| `Fifo`, `TlbMerge`, `Shootdown`, `ShootdownSafety`, `ShootdownOutcome`, `ShootdownProgress` | remote TLB fences: the queue, merging, the joint TLB and IPI protocol, its safety, outcome and progress |
| `Sse`, `SseNesting`, `SseEntry`, `SseFirmware` | supervisor software events: priorities, nesting, saved contexts, handlers |
| `Domain`, `RangeWalk`, `DomainRange`, `DomainMerge`, `RegionSort`, `RegionMerge`, `RegionSettle`, `RootTable`, `RootDomain`, `RootExamples` | memory regions: address and range checks, and the root table as regions are added, sorted and merged |
| `Pmp`, `PmpConfig` | the PMP table: encoding, and agreement with the domain check |
| `HeapTiling`, `Heap`, `HeapProofs`, `HeapJoin`, `HeapRuns`, `HeapControl`, `HeapExample` | the heap allocator |
| `HartStart`, `HartStartExact`, `TicketLock` | hart start and the ticket spin lock |
| `Hanoi`, `HanoiStages` | recursion turned into explicit stacks |
| `Rv32`, `Rv32Precise`, `Rv32Bits`, `Rv32Encoding`, `Rv32Meaning`, `Rv32Steps`, `Rv32Theorem`, `Emulator`, `RoundRobin`, `CrazyOs`, `CrazyCalls`, `CrazyProcess`, `CrazyKernel` | the emulator and the operating system over it |
| `Bitops`, `Pow2`, `Wrappers` | bit searches; powers of two; shared definitions |

Promises that turned out false of the code, each with a concrete input and the
exact condition under which the code keeps them; for added regions the exact
condition is per sort and merge, and for whole calls as far as stated there:

- A flush-all request written as start 0 and size 0 can be swallowed by a
  queued entry (`TlbMerge.ZeroAllSwallowed`, `TlbMerge.MergeExact`), and a range
  that starts off a page boundary may miss its last page
  (`TlbMerge.OffPageMissed`, `TlbMerge.OwnFencesExact`). A queued request inside a
  new one is not updated when both end together (`TlbMerge.WiderNotFolded`,
  `TlbMerge.FoldsExactly`).
- The range check refuses a good range, or goes round for ever, when the range
  ends in a region that reaches the top of the address space
  (`DomainRange.TopRegionRefused`, `DomainRange.HalvesNeverAnswered`), and accepts
  any range whose end wraps (`DomainRange.WrappedRangeAccepted`);
  `DomainRange.WalkExact` settles all cases.
- Adding a region can change the answer for an address outside it, by sorting
  (`RootExamples.AddElsewhereChangesAnswer`) or by merging
  (`RootExamples.MergingChangesAnswer`, `RootExamples.MergeExposes`). It never does
  if the regions do not clash, over any sequence of calls
  (`RegionSettle.AddKeepsFlags`, `RootTable.RunKeepsFlags`). With a clash the exact
  condition is given for one sort (`RegionSort.SortKeepsFlagsExactly`), for one merge
  and the sort after it (`RegionMerge.MergeKeepsFlagsExactly`), and for calls that
  merge nothing or once (`RegionSettle.AddExactly`, `RegionSettle.AddMergeExactly`).
- Skipping a covered region can lose it (`DomainMerge.SkipLosesRegion`,
  `RootExamples.CoveredRegionLost`, `DomainMerge.SkipExact`,
  `RegionSort.LeftOutExactly`).
- A region of order 0, as adding one byte makes it, is accepted unchecked and hides
  every region added later (`RootExamples.ByteHidesNext`, `RootTable.HiddenForever`,
  `RootTable.EnforcedExactly`).
- Freeing a block joins it to one neighbour only, so that a request granted before
  an allocation and its release may be refused after them (`HeapExample.SpaceLost`,
  `HeapJoin.FrontRestored`, `HeapJoin.FreeJoins`).
- An allocation whose rounding overflows is granted a block of no bytes
  (`HeapRuns.HugeRequestGranted`, `HeapRuns.MachineAllocExact`).
- Used space of a heap other than the global one is reported with the global
  heap's free space (`HeapRuns.SecondHeapMisreported`, `HeapRuns.ReportExact`).
- A hart start whose kick fails is taken back even when the target has moved on
  or another hart's start is pending (`HartStartExact.LateRollbackArises`,
  `HartStartExact.SafeExactly`).
- A process that writes 8 to mcause is served as if it had made a system call and
  resumed behind a stale address (`CrazyCalls.PretendedCall`,
  `CrazyCalls.ServesExactly`, `CrazyCalls.BehindExactly`).

The comment in `sanitize_domain` announces a loop that removes covered regions;
its guard is false whenever it is reached, and the model follows the code.

## Model

| member | source | states |
|---|---|---|
| Fifo.Ring.constructor | OS_Spring_2026/course_3/opensbi/lib/sbi/sbi_fifo.c:15-24 | a new ring over the given slots is valid and holds nothing |
| Fifo.Ring.Enqueue | OS_Spring_2026/course_3/opensbi/lib/sbi/sbi_fifo.c:209-229 | appends at the back; refuses when full, or with force drops the oldest entry first; contents and code in every case |
| Fifo.Ring.Dequeue | OS_Spring_2026/course_3/opensbi/lib/sbi/sbi_fifo.c:231-248 | hands out the oldest entry and keeps the rest in order; refuses when empty |
| Fifo.Ring.Update | OS_Spring_2026/course_3/opensbi/lib/sbi/sbi_fifo.c:176-207 | the index-wrapping loop over the ring equals a recursive scan of the queue contents |
| Fifo.InplaceUpdateSettles | OS_Spring_2026/course_3/opensbi/lib/sbi/sbi_fifo.c:176-207 | a scan that settles changes exactly one entry, by the callback, and no other |
| TlbMerge.LocalProcess | OS_Spring_2026/course_3/opensbi/lib/sbi/sbi_tlb.c:179-209 | the page loop of every fence kind issues exactly the specified fences |
| TlbMerge.OwnFences | OS_Spring_2026/course_3/opensbi/lib/sbi/sbi_tlb.c:32-177 | the fences run for an entry reach every page the entry asks for, for all seven kinds, also from a start off a page boundary as long as the last page is reached |
| TlbMerge.OwnFencesExact | OS_Spring_2026/course_3/opensbi/lib/sbi/sbi_tlb.c:54-164 | stepping by pages from the start fences every page of the range if and only if it reaches the last one |
| TlbMerge.OffPageMissed | OS_Spring_2026/course_3/opensbi/lib/sbi/sbi_tlb.c:54-164 | two bytes across a page boundary: the second page is asked for and never fenced |
| TlbMerge.PrepareCovers | OS_Spring_2026/course_3/opensbi/lib/sbi/sbi_tlb.c:395-413 | a request above the range limit is upgraded to an entry that still covers it |
| TlbMerge.LimitBounds | OS_Spring_2026/course_3/opensbi/lib/sbi/sbi_tlb.c:395-413 | a request within the limit is sent as it is, and none costs more fences than a range of the limit’s length |
| TlbMerge.MergeSubsumes | OS_Spring_2026/course_3/opensbi/lib/sbi/sbi_tlb.c:264-329 | folding one entry into another keeps every request either covered before, and joins the source masks |
| TlbMerge.MergeExact | OS_Spring_2026/course_3/opensbi/lib/sbi/sbi_tlb.c:264-329 | with flush-all written as start 0, size 0 the fold covers both sides if and only if both or neither are written that way, or the range reaches the last page |
| TlbMerge.ZeroAllSwallowed | OS_Spring_2026/course_3/opensbi/lib/sbi/sbi_tlb.c:264-329 | a concrete flush-all swallowed by a one-page entry, with a page that is then not fenced |
| TlbMerge.FoldsExactly | OS_Spring_2026/course_3/opensbi/lib/sbi/sbi_tlb.c:264-329 | a request inside the queued one is skipped and one around it takes its place, if and only if they are of one kind and address space and, in the second case, do not end together; all else is left alone |
| TlbMerge.WiderNotFolded | OS_Spring_2026/course_3/opensbi/lib/sbi/sbi_tlb.c:264-329 | a request around the queued one that is not folded |
| ShootdownSafety.KeepStep | OS_Spring_2026/course_3/opensbi/lib/sbi/sbi_tlb.c:211-374 | each atomic step of each hart keeps the joint invariant of queues, counters, phases and fence logs |
| ShootdownSafety.Completion | OS_Spring_2026/course_3/opensbi/lib/sbi/sbi_tlb.c:211-374 | in every interleaving, a request that returns success has had every target run, since the request began, fences of its kind on every requested page, merged or not |
| ShootdownOutcome.SuccessExact | OS_Spring_2026/course_3/opensbi/lib/sbi/sbi_ipi.c:110-155 | over every run, a request that returns has succeeded if and only if none of its raw sends failed, that is, there is an interrupt device or every target it signalled had an event pending |
| ShootdownOutcome.DeviceSucceeds | OS_Spring_2026/course_3/opensbi/lib/sbi/sbi_ipi.c:110-155 | with a device every request that returns has succeeded, and every page it asked for was fenced on every target |
| ShootdownSafety.RequestSpan | OS_Spring_2026/course_3/opensbi/lib/sbi/sbi_ipi.c:110-155 | while a hart is busy the request it works on, its targets and its starting point stay those it began with |
| ShootdownSafety.Conservation | OS_Spring_2026/course_3/opensbi/lib/sbi/sbi_tlb.c:219-226 | in every reachable state the sync counter, plus one owed increment, is the number of queued or in-process entries naming the source; masks in a queue are non-empty, disjoint and exclude the owner; an idle source has counter zero |
| ShootdownSafety.NeverFull | OS_Spring_2026/course_3/opensbi/lib/sbi/sbi_tlb.c:350-373 | with a slot per other hart no enqueue ever meets a full queue, so the retry branch is dead |
| ShootdownProgress.RunLive | OS_Spring_2026/course_3/opensbi/lib/sbi/sbi_ipi.c:39-88 | in every reachable state a set event bit has an interrupt pending, a sender about to raise it, or a receiver about to read it; and a queued entry has its bit set or about to be set, or is being drained |
| ShootdownProgress.BitTakenOnce | OS_Spring_2026/course_3/opensbi/lib/sbi/sbi_ipi.c:232-255 | a set event bit stays set until the owner exchanges the word, and that exchange takes it |
| ShootdownProgress.DeadlockFree | OS_Spring_2026/course_3/opensbi/lib/sbi/sbi_tlb.c:243-262 | some hart can always finish something until all are quiet, although waiting harts serve their own queues |
| ShootdownProgress.FinishingPays | OS_Spring_2026/course_3/opensbi/lib/sbi/sbi_tlb.c:211-374 | every action that carries work on lowers a bounded measure of outstanding work |
| ShootdownProgress.Quiescence | OS_Spring_2026/course_3/opensbi/lib/sbi/sbi_ipi.c:110-155 | once no new request starts, at most a computable number of actions remain and then every hart is idle, every queue empty, every counter zero: every request returns |
| Sse.SetStateWord | OS_Spring_2026/course_3/opensbi/lib/sbi/sbi_sse.c:287-292 | the mask-and-or on the status word changes the state field and nothing else |
| Sse.SetPendingWord | OS_Spring_2026/course_3/opensbi/lib/sbi/sbi_sse.c:694-703 | setting the pending bit leaves the state field alone |
| Sse.InjectedWord | OS_Spring_2026/course_3/opensbi/lib/sbi/sbi_sse.c:529-586 | the status after injection decodes to running and not pending |
| SseNesting.KeepStep | OS_Spring_2026/course_3/opensbi/lib/sbi/sbi_sse.c:781-875 | register, unregister, attribute writes, enable, disable, mask, inject, process and complete each keep the list, stack and context invariants of every hart |
| SseNesting.InjectedOutranks | OS_Spring_2026/course_3/opensbi/lib/sbi/sbi_sse.c:639-692 | the injected event is the first of all ready ones by (priority, id) and outranks everything running |
| SseNesting.InjectsIff | OS_Spring_2026/course_3/opensbi/lib/sbi/sbi_sse.c:650-692 | an unmasked hart injects if and only if some ready event outranks all it is running |
| SseNesting.CompletesTop | OS_Spring_2026/course_3/opensbi/lib/sbi/sbi_sse.c:798-840 | complete finds the most recently injected event |
| SseNesting.CompleteRestores | OS_Spring_2026/course_3/opensbi/lib/sbi/sbi_sse.c:588-637 | completion gives back the whole interrupted context, the mode included |
| SseNesting.Nesting | OS_Spring_2026/course_3/opensbi/lib/sbi/sbi_sse.c:350-379 | over every run the enabled list is exactly the enabled and running events, strictly sorted; injections push and completions pop a stack |
| SseNesting.RoundTrip | OS_Spring_2026/course_3/opensbi/lib/sbi/sbi_sse.c:509-637 | across any nested injections and completions in between, completion gives back all registers as they stood at injection |
| SseEntry.HandlerEntered | OS_Spring_2026/course_3/opensbi/lib/sbi/sbi_sse.c:529-590 | over every run, an injected handler starts at the address and with the argument of the last registration of its event, in S-mode with interrupts off and the hart in a6; SEPC, SPIE and SPP hold what it interrupted |
| SseEntry.StateMoves | OS_Spring_2026/course_3/opensbi/lib/sbi/sbi_sse.c:368-830 | an event changes state exactly along register, unregister, enable, disable, injection and completion, one-shot events to registered; it becomes pending and stops being so exactly as the code says |
| SseEntry.AttributesLast | OS_Spring_2026/course_3/opensbi/lib/sbi/sbi_sse.c:381-495 | over every run, entry, priority, one-shot flag and preferred hart of an event are the values last written while writing was allowed |
| SseEntry.MaskLast | OS_Spring_2026/course_3/opensbi/lib/sbi/sbi_sse.c:877-905 | a hart is masked exactly if its last mask call said so |
| SseFirmware.Firmware.AddToList | OS_Spring_2026/course_3/opensbi/lib/sbi/sbi_sse.c:350-363 | the list walk inserts at the specified position |
| SseFirmware.Firmware.Enable | OS_Spring_2026/course_3/opensbi/lib/sbi/sbi_sse.c:781-796 | equals the machine step, with the error for a wrong state |
| SseFirmware.Firmware.RemoveFromList | OS_Spring_2026/course_3/opensbi/lib/sbi/sbi_sse.c:342-345 | takes the event off its list and leaves the others in order |
| SseFirmware.Firmware.Disable | OS_Spring_2026/course_3/opensbi/lib/sbi/sbi_sse.c:368-379 | equals the machine step, with the error for a wrong state |
| SseFirmware.Firmware.ProcessPending | OS_Spring_2026/course_3/opensbi/lib/sbi/sbi_sse.c:672-692 | the scanning loop equals the machine step |
| SseFirmware.Firmware.Complete | OS_Spring_2026/course_3/opensbi/lib/sbi/sbi_sse.c:820-840 | the scanning loop equals the machine step; the error is returned exactly when the running event belongs to another hart |
| Domain.ValidEnds | OS_Spring_2026/course_3/opensbi/lib/sbi/sbi_domain.c:175-187 | a valid region is an aligned power-of-two interval that does not wrap |
| Domain.Nested | OS_Spring_2026/course_3/opensbi/lib/sbi/sbi_domain.c:190-205 | valid regions that share an address are nested, smaller in larger, and the subset test says so |
| Domain.FindRegion | OS_Spring_2026/course_3/opensbi/lib/sbi/sbi_domain.c:231-247 | the first region holding the address |
| Domain.CheckAddr | OS_Spring_2026/course_3/opensbi/lib/sbi/sbi_domain.c:125-172 | the loop answers as the first matching region decides; with none only M-mode passes |
| Domain.AllowedExactly | OS_Spring_2026/course_3/opensbi/lib/sbi/sbi_domain.c:125-172 | the first region that holds the address decides: reads, writes and executions each need their own bit of the region, those of M-mode or of S- and U-mode, and the MMIO bits must agree; without a region only M-mode passes |
| Domain.FindNextSubset | OS_Spring_2026/course_3/opensbi/lib/sbi/sbi_domain.c:249-267 | the inner region that starts soonest after the address |
| DomainRange.SameRegion | OS_Spring_2026/course_3/opensbi/lib/sbi/sbi_domain.c:401-430 | from an address to the next boundary one region decides |
| DomainRange.OneTurn | OS_Spring_2026/course_3/opensbi/lib/sbi/sbi_domain.c:409-427 | one turn of the loop, wrap-around of the address sum included |
| DomainRange.CheckAddrRange | OS_Spring_2026/course_3/opensbi/lib/sbi/sbi_domain.c:401-430 | unless it goes round for ever, the loop terminates and says yes exactly when the machine range is empty, or every address is in a region and passes and the range does not end below a region reaching the top of the address space |
| DomainRange.WalkExact | OS_Spring_2026/course_3/opensbi/lib/sbi/sbi_domain.c:401-430 | for every start and size, wrapping sums included: exactly when the check says yes, exactly when it says no, and so exactly when it never answers |
| DomainRange.TopRegionRefused | OS_Spring_2026/course_3/opensbi/lib/sbi/sbi_domain.c:401-430 | a concrete readable range at the top of the address space that is refused |
| DomainRange.HalvesNeverAnswered | OS_Spring_2026/course_3/opensbi/lib/sbi/sbi_domain.c:401-430 | a concrete table and range for which no number of turns brings an answer |
| DomainRange.WrappedRangeAccepted | OS_Spring_2026/course_3/opensbi/lib/sbi/sbi_domain.c:401-430 | a range whose end wraps is accepted unread |
| RangeWalk.Exact | OS_Spring_2026/course_3/opensbi/lib/sbi/sbi_domain.c:401-430 | any walk whose turns only skip good addresses accepts exactly when all are good and the end does not wrap, refuses exactly when one it comes by is bad, and otherwise goes round for ever |
| DomainMerge.MergeExact | OS_Spring_2026/course_3/opensbi/lib/sbi/sbi_domain.c:635-655 | merging two siblings leaves the deciding flags of every address unchanged if and only if no region of the parent’s extent with other flags decides an address afterwards |
| DomainMerge.MergeKeepsMeaning | OS_Spring_2026/course_3/opensbi/lib/sbi/sbi_domain.c:635-655 | so it does when no two regions of the same place disagree afterwards |
| DomainMerge.StaysConsistent | OS_Spring_2026/course_3/opensbi/lib/sbi/sbi_domain.c:635-655 | no chain of merges can create such a disagreement unless the original set tiles one place with two different flags |
| DomainMerge.StaysUnclashed | OS_Spring_2026/course_3/opensbi/lib/sbi/sbi_domain.c:635-655 | nor can it create a clash where the originals had none |
| DomainMerge.DerivedMerge | OS_Spring_2026/course_3/opensbi/lib/sbi/sbi_domain.c:635-655 | the meaning guarantee carries over one more merge |
| RegionSettle.SameFlags | OS_Spring_2026/course_3/opensbi/lib/sbi/sbi_domain.c:125-172 | in sorted tables with the same meaning the same flags decide every address |
| RegionSettle.SameAnswers | OS_Spring_2026/course_3/opensbi/lib/sbi/sbi_domain.c:125-172 | so they answer every address check alike |
| DomainMerge.SkipExact | OS_Spring_2026/course_3/opensbi/lib/sbi/sbi_domain.c:612-616 | leaving out a region covered by one with the same flags keeps the meaning of any set of regions, agreeing or not, if and only if at each of its addresses a region of its own size gives its flags already or the larger ones that decide carry them |
| DomainMerge.SkipLosesRegion | OS_Spring_2026/course_3/opensbi/lib/sbi/sbi_domain.c:612-616 | a concrete region whose loss changes an address |
| RegionSort.OuterSorts | OS_Spring_2026/course_3/opensbi/lib/sbi/sbi_domain.c:333-344 | the exchange sort yields a sorted permutation |
| RegionSort.SortCarries | OS_Spring_2026/course_3/opensbi/lib/sbi/sbi_domain.c:333-344 | on a sorted table with one region appended the two loops hand one region along, exchanging it where it goes before |
| RegionSort.AppendedDecider | OS_Spring_2026/course_3/opensbi/lib/sbi/sbi_domain.c:333-344 | which region decides an address outside the new one afterwards: the second of every group of equal extents behind the new region, the same as before elsewhere |
| RegionSort.SortKeepsFlagsExactly | OS_Spring_2026/course_3/opensbi/lib/sbi/sbi_domain.c:333-344 | one sort: the flags deciding an address outside the new region stay if and only if the new region does not go before a deciding one that is followed by a region of the same extent with other flags |
| RegionSort.LeftOutExactly | OS_Spring_2026/course_3/opensbi/lib/sbi/sbi_domain.c:612-616 | on any sorted table, leaving a region out answers one of its addresses as sorting it in would if and only if some region decides there and it goes before the new one or carries the same flags |
| RegionMerge.PassDerived | OS_Spring_2026/course_3/opensbi/lib/sbi/sbi_domain.c:635-655 | a pass keeps the meaning of a table without a clash |
| RegionMerge.PassComplete | OS_Spring_2026/course_3/opensbi/lib/sbi/sbi_domain.c:635-655 | a pass that merges nothing found no siblings next to each other |
| RegionMerge.SortAfterMerge | OS_Spring_2026/course_3/opensbi/lib/sbi/sbi_domain.c:333-344 | sorting again after one merge moves only the parent, behind the regions that go before it |
| RegionMerge.MergeKeepsFlagsExactly | OS_Spring_2026/course_3/opensbi/lib/sbi/sbi_domain.c:624-656 | one merge followed by the sort: the flags deciding an address stay if and only if it is not so that the right sibling decides it and is followed by a region of the same extent with other flags; otherwise that region’s flags decide |
| RegionSettle.SettleDerived | OS_Spring_2026/course_3/opensbi/lib/sbi/sbi_domain.c:624-656 | every outcome of sorting and merging in turn, refusals included, is merged from the regions it began with and keeps their meaning unless they clash |
| RegionSettle.SanitizedExactly | OS_Spring_2026/course_3/opensbi/lib/sbi/sbi_domain.c:284-399 | the checks succeed if and only if the hart mask names known harts, all regions are valid, there is a firmware region, and the boot address is first held by a region executable in S- or U-mode that is no device |
| RegionSettle.SettleOk | OS_Spring_2026/course_3/opensbi/lib/sbi/sbi_domain.c:624-656 | a table that passes is sorted, valid, bootable and without siblings next to each other |
| RegionSettle.AddKeepsFlags | OS_Spring_2026/course_3/opensbi/lib/sbi/sbi_domain.c:601-659 | if the regions do not clash, an added region changes the flags of no address outside it, whatever the outcome |
| RegionSettle.AddExactly | OS_Spring_2026/course_3/opensbi/lib/sbi/sbi_domain.c:601-659 | for a call that merges nothing: it changes the flags of an address outside the new region if and only if the first checks pass and the sort overtakes the deciding region |
| RegionSettle.AddMergeExactly | OS_Spring_2026/course_3/opensbi/lib/sbi/sbi_domain.c:601-659 | for a call that merges once: where the merge exposes a region its flags must be the old ones, elsewhere the sort must not overtake, and then and only then the flags stay |
| RootTable.AddedOk | OS_Spring_2026/course_3/opensbi/lib/sbi/sbi_domain.c:601-659 | a call that succeeds with a region it sees leaves a sorted, valid, bootable, fully merged table with the meaning of the old one and the new region, unless these clash |
| RootTable.SettlesOnce | OS_Spring_2026/course_3/opensbi/lib/sbi/sbi_domain.c:624-656 | sorting and merging such a table again change nothing |
| RootTable.HiddenForever | OS_Spring_2026/course_3/opensbi/include/sbi/sbi_domain.h:217-219 | once a region of order 0 has been added no later region is ever seen, over any sequence of calls, and every call succeeds until the count is full |
| RootTable.EnforcedExactly | OS_Spring_2026/course_3/opensbi/lib/sbi/sbi_domain.c:601-659 | after a call that succeeds a region with the new one’s flags covers it, if and only if one did before or the new region has an order above 0 and none of order 0 was added |
| RootTable.RunKeepsFlags | OS_Spring_2026/course_3/opensbi/lib/sbi/sbi_domain.c:601-659 | over every sequence of calls, whatever their outcomes, an address outside all added regions keeps its flags unless regions of the table and added ones clash |
| RootDomain.Root.Sort | OS_Spring_2026/course_3/opensbi/lib/sbi/sbi_domain.c:333-344 | the loops in place equal the sort as a function, and so yield a sorted permutation |
| RootDomain.Root.Sanitize | OS_Spring_2026/course_3/opensbi/lib/sbi/sbi_domain.c:284-399 | success exactly for a hart mask of known harts, valid regions, an initialised firmware region and a next stage that may execute; the table afterwards is the old one or the old one sorted, depending on how far the checks got |
| RootDomain.Root.MergePass | OS_Spring_2026/course_3/opensbi/lib/sbi/sbi_domain.c:635-655 | the pass in place, up to the first region of order 0, equals the pass as a function and reports whether it merged |
| RootDomain.Root.SortAndMerge | OS_Spring_2026/course_3/opensbi/lib/sbi/sbi_domain.c:624-656 | sorting and merging in turn terminate with exactly the code and table of the specification |
| RootDomain.Root.Add | OS_Spring_2026/course_3/opensbi/lib/sbi/sbi_domain.c:601-659 | code, table and hidden count for every outcome: full, already covered, refused, added and settled, or added behind a region of order 0 |
| RootExamples.AddElsewhereChangesAnswer | OS_Spring_2026/course_3/opensbi/lib/sbi/sbi_domain.c:601-659 | three calls that add regions, the last of which changes the answer for an address outside the region it adds, by sorting |
| RootExamples.MergingChangesAnswer | OS_Spring_2026/course_3/opensbi/lib/sbi/sbi_domain.c:601-659 | four calls, the last of which changes the answer for an address outside the region it adds, by merging |
| RootExamples.MergeExposes | OS_Spring_2026/course_3/opensbi/lib/sbi/sbi_domain.c:624-656 | one merge that changes the flags of an address whose flags the sort keeps |
| RootExamples.CoveredRegionLost | OS_Spring_2026/course_3/opensbi/lib/sbi/sbi_domain.c:612-616 | two calls and a third that is skipped: a read is refused that the sorted table with the third region allows |
| RootExamples.ByteHidesNext | OS_Spring_2026/course_3/opensbi/lib/sbi/sbi_domain.c:612-622 | a region of one byte is accepted unchecked, and the region added next is reported as added and never seen |
| Pmp.Ctz | OS_Spring_2026/course_3/opensbi/lib/sbi/riscv_asm.c:246-259 | the loop counts trailing zeros, all bits for zero |
| Pmp.AddressRoundTrip | OS_Spring_2026/course_3/opensbi/lib/sbi/riscv_asm.c:332-344 | decoding an encoded address register gives back the length and the base rounded down, for every length |
| PmpConfig.EntryRoundTrip | OS_Spring_2026/course_3/opensbi/lib/sbi/riscv_asm.c:304-405 | reading an entry after setting it gives back base, length, permissions and the right address mode; every other entry reads as before |
| PmpConfig.NapotExact | OS_Spring_2026/course_3/opensbi/lib/sbi/riscv_asm.c:332-344 | the hardware match of the encoded register is region containment |
| PmpConfig.PmpUnit.Set | OS_Spring_2026/course_3/opensbi/lib/sbi/riscv_asm.c:304-352 | writes exactly the specified table, with the error for a bad index or length |
| PmpConfig.PmpUnit.Get | OS_Spring_2026/course_3/opensbi/lib/sbi/riscv_asm.c:354-405 | reads exactly the specified entry |
| PmpConfig.PmpUnit.Configure | OS_Spring_2026/course_3/opensbi/lib/sbi/sbi_hart.c:448-491 | the loop programs, from an empty table, one entry per region that fits, in order, until entries run out |
| PmpConfig.TakenExactly | OS_Spring_2026/course_3/opensbi/lib/sbi/sbi_hart.c:448-497 | the regions that get an entry are among those the hardware can express, and with room enough all of those |
| PmpConfig.LockedExactly | OS_Spring_2026/course_3/opensbi/lib/sbi/sbi_hart.c:462-476 | an entry is locked if and only if its region enforces permissions, and its permission bits are those of S- and U-mode |
| PmpConfig.PmpRefinesCheck | OS_Spring_2026/course_3/opensbi/lib/sbi/sbi_hart.c:448-491 | when every region gets an entry, hardware grants an S- or U-mode access to any byte exactly when the software check does, the MMIO bit aside |
| HeapProofs.KeepAlloc | OS_Spring_2026/course_3/opensbi/lib/sbi/sbi_heap.c:40-123 | allocation keeps nodes on exactly one list and blocks tiling the area |
| HeapProofs.KeepFree | OS_Spring_2026/course_3/opensbi/lib/sbi/sbi_heap.c:156-202 | freeing, with its merging of neighbours, keeps the same |
| HeapProofs.AllocContract | OS_Spring_2026/course_3/opensbi/lib/sbi/sbi_heap.c:40-123 | with exact rounding a granted block is aligned, large enough, inside the area and apart from every live block; a refusal changes nothing |
| HeapJoin.GrantedExactly | OS_Spring_2026/course_3/opensbi/lib/sbi/sbi_heap.c:40-123 | a request is granted if and only if the first free block with room has nodes enough for its remainders, and then at the block’s least aligned address |
| HeapRuns.GrantHonoured | OS_Spring_2026/course_3/opensbi/lib/sbi/sbi_heap.c:125-145 | plain allocations are aligned to 64 bytes, aligned ones to the power of two asked for, with lengths that are multiples of it |
| HeapRuns.MachineAllocExact | OS_Spring_2026/course_3/opensbi/lib/sbi/sbi_heap.c:40-123 | with the machine’s rounding a refusal changes nothing and a grant is honoured, the tiling kept, if and only if size plus alignment minus one fits a machine word |
| HeapRuns.HugeRequestGranted | OS_Spring_2026/course_3/opensbi/lib/sbi/sbi_heap.c:48-52 | the largest request of all is granted by a fresh heap |
| HeapProofs.FreeContract | OS_Spring_2026/course_3/opensbi/lib/sbi/sbi_heap.c:156-202 | freeing removes exactly the block the pointer lies in and touches no other live block; an unknown pointer changes nothing |
| HeapJoin.FreeJoins | OS_Spring_2026/course_3/opensbi/lib/sbi/sbi_heap.c:156-202 | the freed block is joined to the first free block in list order that touches it or lies before it, if that one touches it, and a node goes back to the spares; otherwise it is a free block of its own |
| HeapJoin.FrontRestored | OS_Spring_2026/course_3/opensbi/lib/sbi/sbi_heap.c:156-202 | allocating the front of a free block and freeing it gives the same free blocks and as many spare nodes if and only if no free block listed earlier lies before it |
| HeapJoin.GrantedAgain | OS_Spring_2026/course_3/opensbi/lib/sbi/sbi_heap.c:40-202 | and then every request gets the answer it would have got before |
| HeapExample.SpaceLost | OS_Spring_2026/course_3/opensbi/lib/sbi/sbi_heap.c:40-202 | a fresh heap and nine calls: a request granted before is refused after an allocation and its release |
| HeapProofs.AllocFree | OS_Spring_2026/course_3/opensbi/lib/sbi/sbi_heap.c:40-202 | allocating and freeing again restores the live blocks and the amount of free space |
| HeapRuns.Partition | OS_Spring_2026/course_3/opensbi/lib/sbi/sbi_heap.c:227-261 | after any sequence of allocations whose rounding does not overflow and frees, from a fresh heap, free and used blocks tile the managed area and every node is on one list |
| HeapRuns.ReportExact | OS_Spring_2026/course_3/opensbi/lib/sbi/sbi_heap.c:217-220 | with two heaps in any states, the used space reported for one is the sum of its live blocks if and only if the global heap has as much free space as it has |
| HeapRuns.GlobalReport | OS_Spring_2026/course_3/opensbi/lib/sbi/sbi_heap.c:217-220 | the report is right for the global heap in every state of every run |
| HeapRuns.SecondHeapMisreported | OS_Spring_2026/course_3/opensbi/lib/sbi/sbi_heap.c:217-220 | two fresh heaps of different sizes and the wrong number reported for one of them |
| HeapRuns.RoundExact | OS_Spring_2026/course_3/opensbi/lib/sbi/sbi_heap.c:51-52 | machine rounding is exact unless the sum overflows, and then gives zero |
| HeapControl.Control.AllocWithAlign | OS_Spring_2026/course_3/opensbi/lib/sbi/sbi_heap.c:40-123 | the rounding, the list walk and the in-place splitting equal the specified allocation in machine words |
| HeapControl.Control.FreeBlock | OS_Spring_2026/course_3/opensbi/lib/sbi/sbi_heap.c:156-202 | the list walks and in-place merging equal the specified release |
| HeapControl.Control.FreeSpace | OS_Spring_2026/course_3/opensbi/lib/sbi/sbi_heap.c:204-215 | the loop sums the free blocks |
| HartStart.Keep | OS_Spring_2026/course_3/opensbi/lib/sbi/sbi_hsm.c:299-371 | every step of every starter and of the target keeps the ticket, state and scratch invariant |
| HartStart.WinnerOnly | OS_Spring_2026/course_3/opensbi/lib/sbi/sbi_hsm.c:139-158 | in every run whose failed kicks are taken back in time, with any number of starters, stops and restarts, at most one start wins per stopped period, each jump uses exactly the winner’s argument, address and mode, and no hart is told of a success that was taken back |
| HartStartExact.LateBreaks | OS_Spring_2026/course_3/opensbi/lib/sbi/sbi_hsm.c:362-370 | a rollback that finds the target awake, no start pending, or another hart’s start pending can always be followed by a mixed jump, a hang or a false report |
| HartStartExact.LateRollbackArises | OS_Spring_2026/course_3/opensbi/lib/sbi/sbi_hsm.c:355-370 | a run that leads to such a rollback: the kick reports failure, yet the target wakes and jumps |
| HartStartExact.SafeExactly | OS_Spring_2026/course_3/opensbi/lib/sbi/sbi_hsm.c:299-371 | in every state of every such run and for every action, the action is in time if and only if nothing can go wrong after it unless another kick fails |
| TicketLock.Keep | OS_Spring_2026/course_3/opensbi/lib/sbi/riscv_locks.c:22-77 | every access to the lock word keeps tickets and holders in step, wrapped or not |
| TicketLock.ExclusionAndOrder | OS_Spring_2026/course_3/opensbi/lib/sbi/riscv_locks.c:48-77 | one hart inside at a time, and harts enter in the order in which they drew tickets, through any number of wrap-arounds |
| TicketLock.TryOnlyWhenFree | OS_Spring_2026/course_3/opensbi/lib/sbi/riscv_locks.c:22-46 | a trylock that succeeds found nobody inside and nobody in line |
| TicketLock.TryExactly | OS_Spring_2026/course_3/opensbi/lib/sbi/riscv_locks.c:23-48 | a trylock goes on to its store if and only if nobody holds the lock or waits, and the store can then succeed and let this hart in alone |
| TicketLock.LockExactly | OS_Spring_2026/course_3/opensbi/lib/sbi/riscv_locks.c:50-76 | a lock call goes in at once if and only if nobody holds the lock or waits, and draws the next ticket |
| TicketLock.HeadCanEnter | OS_Spring_2026/course_3/opensbi/lib/sbi/riscv_locks.c:48-77 | the head of the line is inside or sees its number: nobody waits for nothing |
| TicketLock.ExclusiveExactly | OS_Spring_2026/course_3/opensbi/lib/sbi/riscv_locks.c:11-77 | mutual exclusion holds in all runs of n harts if and only if n is at most 2^16 |
| Hanoi.CountIs | OS_Spring_2026/course_2/hanoi-nr/hanoi-r.c:3-13 | the recursion prints and returns 2^n - 1 moves |
| Hanoi.Solves | OS_Spring_2026/course_2/hanoi-nr/hanoi-r.c:3-13 | from any position whose other disks are larger every move is legal and exactly the tower of n disks is carried over |
| Hanoi.CallRuns | OS_Spring_2026/course_2/hanoi-nr/hanoi-nr.c:40-75 | a call pushed on any stack runs to its return, leaves the stack below alone, prints and returns what the recursion does and needs at most n frames |
| Hanoi.Turn | OS_Spring_2026/course_2/hanoi-nr/hanoi-nr.c:40-75 | one turn on the frame array, the write to a popped frame included |
| Hanoi.RunFrames | OS_Spring_2026/course_2/hanoi-nr/hanoi-nr.c:22-78 | the program counter machine ends, stays in its array, prints the recursion’s moves and returns 2^n - 1 |
| HanoiStages.FrameRuns | OS_Spring_2026/course_2/hanoi-nr/hanoi_forloop.c:26-54 | a frame pushed on any stack runs until popped, with the recursion’s moves and count |
| HanoiStages.RunStages | OS_Spring_2026/course_2/hanoi-nr/hanoi_forloop.c:15-56 | the staged machine ends, stays in its array and agrees with the recursion; no disks, no moves |
| Rv32.FetchInBounds | OS_Spring_2026/course_5/crazy-os/mini-rv32ima.h:128-440 | for every state and instruction word a store stays in memory |
| Rv32Precise.ReadsOneWord | OS_Spring_2026/course_5/crazy-os/mini-rv32ima.h:182-211 | a load or atomic depends on no byte but the word at its address, and on that only inside memory |
| Rv32Precise.Precise | OS_Spring_2026/course_5/crazy-os/mini-rv32ima.h:84-472 | a step that traps, sleeps or leaves early changes no register and no memory; any other changes at most one register, never x0, and at most four consecutive bytes |
| Rv32Theorem.StepMeans | OS_Spring_2026/course_5/crazy-os/mini-rv32ima.h:84-472 | on the encoding of any RV32IMA or control-register instruction, in any state, the step does what the instruction means: sums modulo 2^32, shifts and products by their defining inequalities, logic bit by bit, quotient and remainder laws, branches on integer comparisons, sign extension, little-endian memory, atomics, devices and access faults |
| Rv32Encoding.EncodeDecodes | OS_Spring_2026/course_5/crazy-os/mini-rv32ima.h:136-257 | decoding finds the operands of every instruction, immediates included, in its encoding |
| Rv32Theorem.StepFaults | OS_Spring_2026/course_5/crazy-os/mini-rv32ima.h:124-136 | a program counter outside memory or off a word boundary traps with its cause |
| Rv32Theorem.UnknownOpcode | OS_Spring_2026/course_5/crazy-os/mini-rv32ima.h:429-436 | an opcode that does not exist traps as illegal |
| Rv32Theorem.StepKinds | OS_Spring_2026/course_5/crazy-os/mini-rv32ima.h:108-122 | a step sleeps, takes the timer interrupt or executes, exactly by the sleep flag and the pending and enable bits |
| Rv32Theorem.TimeAdvances | OS_Spring_2026/course_5/crazy-os/mini-rv32ima.h:84-92 | the 64-bit timer advances by the elapsed time |
| Rv32Theorem.TimerPends | OS_Spring_2026/course_5/crazy-os/mini-rv32ima.h:94-106 | the timer interrupt is pending exactly when the timer has passed a match value that is set, which also ends a sleep |
| Rv32Theorem.StepCounts | OS_Spring_2026/course_5/crazy-os/mini-rv32ima.h:444-472 | the 64-bit cycle counter counts the instructions that retire or trap |
| Rv32Precise.TrapSaves | OS_Spring_2026/course_5/crazy-os/mini-rv32ima.h:444-465 | a trap or interrupt saves the address, mode and interrupt bit and enters the handler in machine mode with interrupts off |
| Rv32Precise.TrapThenReturn | OS_Spring_2026/course_5/crazy-os/mini-rv32ima.h:359-364 | a trap followed by MRET resumes at the same address, mode and interrupt bit with registers and memory as they were |
| Rv32Precise.StoreLoad | OS_Spring_2026/course_5/crazy-os/mini-rv32ima.h:182-249 | a load reads back what a store of the same width wrote |
| Rv32Precise.ConditionalExact | OS_Spring_2026/course_5/crazy-os/mini-rv32ima.h:400-408 | a store-conditional under the reservation of a load-reserved stores and reports zero if and only if the two addresses agree modulo 2^29; otherwise it stores nothing |
| Emulator.Machine.Put | OS_Spring_2026/course_5/crazy-os/mini-rv32ima.h:239-247 | storing byte by byte changes the addressed bytes and no others |
| Emulator.Machine.Step | OS_Spring_2026/course_5/crazy-os/mini-rv32ima.h:84-472 | the in-place step on register and memory arrays equals the step as a function |
| CrazyOs.PutCharAppends | OS_Spring_2026/course_5/crazy-os/crazy-os.c:36-44 | flushed bytes followed by the buffer grow by exactly the character, and the buffer stays below its limit |
| CrazyOs.FlushesExactly | OS_Spring_2026/course_5/crazy-os/crazy-os.c:36-44 | output is written exactly at a newline or at 255 characters, and then the whole line |
| CrazyOs.EcallResumes | OS_Spring_2026/course_5/crazy-os/crazy-os.c:46-64 | a system call resumes behind the call in the same mode, changes only the result register, and call 42 alone prints, exactly one byte |
| CrazyCalls.ServesExactly | OS_Spring_2026/course_5/crazy-os/crazy-os.c:74-77 | with no call left over, a turn serves a call if and only if the process executes an ECALL in user mode or itself writes the cause of one |
| CrazyCalls.NoneLeft | OS_Spring_2026/course_5/crazy-os/crazy-os.c:74-77 | no call is ever left over between turns |
| CrazyCalls.CallResumes | OS_Spring_2026/course_5/crazy-os/crazy-os.c:46-77 | an ECALL executed in user mode is served in the same turn and resumed as above |
| CrazyCalls.BehindExactly | OS_Spring_2026/course_5/crazy-os/crazy-os.c:46-77 | a served process goes on behind its instruction if and only if that was a call, or mepc happened to hold its address |
| CrazyCalls.PretendedCall | OS_Spring_2026/course_5/crazy-os/crazy-os.c:46-77 | a program of one instruction that writes the cause is served and taken to address 4, outside its memory |
| CrazyOs.StreamGrows | OS_Spring_2026/course_5/crazy-os/crazy-os.c:36-64 | a process’s output stream only grows, by at most a character a turn |
| CrazyOs.SharedAsAlone | OS_Spring_2026/course_5/crazy-os/crazy-os.c:72-79 | after any number of turns each process’s machine, buffer and output are those of running alone for its own turns |
| CrazyProcess.Process.constructor | OS_Spring_2026/course_5/crazy-os/crazy-os.c:22-34 | a loaded process: program counter, stack pointer, memory image and an empty buffer |
| CrazyProcess.Process.Put | OS_Spring_2026/course_5/crazy-os/crazy-os.c:36-44 | the buffer array and its length in place equal the character call as a function |
| CrazyProcess.Process.Serve | OS_Spring_2026/course_5/crazy-os/crazy-os.c:46-64 | the system call in place, on registers, control registers and buffer, equals the call as a function |
| CrazyProcess.Process.TakeTurn | OS_Spring_2026/course_5/crazy-os/crazy-os.c:74-77 | a step of the machine in place and the system call equal one turn of the process the schedule is proved about |
| RoundRobin.Projection | OS_Spring_2026/course_5/crazy-os/crazy-os.c:72-79 | the same for any processes whose turns depend on nothing else, and the schedule is the turn number modulo n |
| RoundRobin.Fair | OS_Spring_2026/course_5/crazy-os/crazy-os.c:78-78 | turn counts of any two processes differ by at most one |
| CrazyKernel.Scheduler.Run | OS_Spring_2026/course_5/crazy-os/crazy-os.c:72-79 | the scheduling loop over process objects that share no memory, each updated in place, equals the loop over values; so each process and its output are those of running alone |
| Bitops.Ffs | OS_Spring_2026/course_3/opensbi/include/sbi/sbi_bitops.h:46-75 | the halving search finds the least set bit |
| Bitops.Fls | OS_Spring_2026/course_3/opensbi/include/sbi/sbi_bitops.h:91-120 | the halving search finds the greatest set bit |
| Bitops.FindFirst | OS_Spring_2026/course_3/opensbi/lib/sbi/sbi_bitops.c:22-73 | first set, or first zero, bit: where a scan bit by bit stops |
| Bitops.FindNext | OS_Spring_2026/course_3/opensbi/lib/sbi/sbi_bitops.c:117-200 | next set, or next zero, bit at or after any offset: where a scan bit by bit stops |
| Bitops.FindLast | OS_Spring_2026/course_3/opensbi/lib/sbi/sbi_bitops.c:82-109 | the last set bit, or the size |
| Bitops.ForEachSetBit | OS_Spring_2026/course_3/opensbi/include/sbi/sbi_bitops.h:138-141 | the iteration visits exactly the set bits, once each, in increasing order |

## Left out

- Inline assembly, barriers and weak memory: atomics and plain accesses are single steps in program order.
- Warm-boot initialisation and teardown of the TLB, IPI and SSE state, and hart suspend and resume.
- Order of targets: a sender visits its remaining targets in any order, which includes every order the hart mask loops can produce.
- IPI events other than TLB fences: their handlers are not modelled, only their effect on the event word and the raw interrupt.
- Fence requests that wrap or whose last page the fences do not reach: requests in the protocol machine do not wrap and have their last page reached, or ask for everything; the others are the subject of TlbMerge.OwnFencesExact, and flush-all written as start 0, size 0 of TlbMerge.MergeExact.
- ShootdownProgress.Quiescence: counts steps of harts that keep running; it says nothing about a hart that stops taking steps.
- SSE callbacks, and handlers that write the interrupted attributes or the saved registers: handlers leave them alone, as the round trip presupposes.
- Preferred hart: its identifier is kept in full and its index is the value modulo 2^32, as the attribute test truncates it; the domain's assignment of harts is not modelled.
- Hypervisor extension: neither hypervisor context in SSE nor the Smepmp flag tables of the PMP.
- DomainRange.CheckAddrRange: asks that the loop not go round for ever, which a method cannot do; DomainRange.WalkExact has no such condition.
- Domain.Nested: a region of order 64 has 2^64 bytes, where the code shifts by 64, which C leaves undefined; the range and merge results rest on the same reading.
- RootDomain.Root.Sort: leaves an empty table at once, where the unsigned bound of the code's outer loop counts to 2^32 without exchanging anything.
- RootDomain.Root.Add: the refusals for a missing region, a missing table and a finalised domain are not modelled.
- RegionSettle.AddMergeExactly: calls that merge more than once have the exact condition for each merge and sort, not one for the call; the condition without a clash holds for all calls.
- RegionSettle.AddKeepsFlags: sufficient only; a clash need not change an answer.
- PMP probing, locked entries and shadow CSR access by number: the table is a record of configuration words and address registers.
- Heap locking and zeroing.
- Rv32Theorem.StepMeans: MRET is the subject of Rv32Precise.TrapThenReturn; reads of the constant control registers and of encodings with unused bits set are not covered.
- Hart start arguments rejected before the ticket is taken (mode, domain, address), and the choice between interrupt and device start: a kick succeeds or fails.
- Fairness of spinning: that a waiting hart eventually takes its step is not modelled.
- Hanoi.RunFrames: counts are unbounded integers; a 32-bit count overflows from 32 disks on. Depths beyond the arrays are excluded, as the code has no check.
- HanoiStages.RunStages: counts are unbounded integers, as above.
- Emulator image loading: the initial memory is arbitrary; standard output is a sequence of bytes tagged with the writing process.
- CrazyKernel.Scheduler.Run: runs for a given number of turns, where the program runs for ever.
- Bitops.FindFirst and Bitops.FindNext: each stands for the set-bit and the zero-bit function, which differ by complementing the word; words are 64 bits.
- Population count, bit setters and field macros: easy members.
- PMU, debug triggers, MPXY, CPPC, FWFT, ecall dispatch, device trees, drivers, build scripts and the process demos: callbacks, hardware plumbing or illustration.
