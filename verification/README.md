# Jotunheim: a verified model of loader and kernel

Jotunheim is a small x86_64 kernel with its own UEFI loader. This project models the parts of it whose correctness
does not show in any single function, and proves what they promise.

* **Loader** (`Bits`, `PageWalk`, `PageTables`, `Hhdm`, `BootMap`, `ElfLoad`). The hardware walk of 4-level paging
  (sections 4.5 and 4.6 of the Intel SDM, Volume 3A) is a function from table memory and address to a translation and
  to access rights. The loader's
  in-place table building is proved to refine one piecewise map, for every layout, and the ELF copy loops are joined to
  it: what the running kernel reads is what the file says. Table pages form a tree, which a ghost map from tree nodes to
  pages records.
* **Scheduler** (`Context`, `RunQueue`, `SchedRuns`, `SchedFairness`). The run queue is a class; the operations under its
  lock are proved to be simple steps on a value, and runs of these steps are the subject of the invariant, of context
  preservation, of bounded waiting in switches and in ticks, and of the exact length of time slices.
* **Physical frames and virtual windows** (`Frames`, `BootMemory`, `Windows`). Allocators are specified by the set of
  pages that are still free, so that uniqueness of frames is conservation of that set.
* **Breakpoints** (`Breakpoints`). The patch table and the memory it patches, over whole debugging sessions.
* **Processor start-up** (`ApStartup`, `ApProgress`, `ApFailures`). Boot processor and started
  processors as interleaved steps over one shared record.
* **Codecs** (`Hex`, `Packets`, `PacketLaws`, `LittleEndian`, `Registers`, `Madt`, `MadtTables`). Remote-protocol packets
  (section E.1 of Debugging with GDB), register blocks, and the ACPI tables (sections 5.2.6 to 5.2.12 of the ACPI
  Specification).

Machine words are naturals; wrap-around is written out where the code can wrap. Bit operations are defined on naturals
and proved to be the arithmetic they stand for. The firmware's page allocator is the sequence of its answers, which may
end at any point.

## Where the code differs from what it is for

The model follows the code. Each difference has a lemma, with the exact condition where there is one.

* The kernel image is mapped where it was copied only if `min_vaddr` is page-aligned (`BootMap.ImageMappedIffAligned`).
* The reaper's search is inverted: it never removes the task it looks for (`RunQueue.ReapMissesItsTarget`). It also
  never finds one, since the switch away from a dead task makes it Ready (`SchedFairness.DeadIffNoSwitch`,
  `SchedFairness.KilledComesBack`, `RunQueue.SweepIsIdle`).
* The reserved table drops what does not fit, and the kernel image is recorded last (`Frames.KernelReservedIffRoom`,
  `BootMemory.KernelNotReserved`).
  The list of usable ranges drops what does not fit (`BootMemory.UsableCompleteIffFits`).
* `reserved::init` reserves page 0x8000 for the start-up trampoline, which `smp.rs` puts at 0x1000
  (`BootMemory.TrampolineReservedIff`), and it can reserve the early heap itself (`BootMemory.EarlyHeapYieldsNothingIff`,
  `BootMemory.EarlyHeapLost`).
* A breakpoint that is stepped over stays disarmed (`Breakpoints.StaysDisarmed`, `Breakpoints.ArmedNextIff`), and one
  that is removed while stopped at it comes back on continue (`Breakpoints.ContinueReplants`).
* When the wait for a started processor gives up too early, the shared record is reused under it
  (`ApStartup.LateTimeoutOverwritesIff`), and a processor can load a stack that is not its own
  (`ApFailures.WrongStackIffTwo`).
* `write_g` and `read_g` disagree on length and layout, so that flags are read from the place of ss
  (`Registers.RoundTripIffFlagsMatch`); a failing `read_g` has already replaced registers (`Registers.ReadG`).

## Model

| member | source | states |
|---|---|---|
| `Bits.AlignDownIsFloor` | jotunboot/src/main.rs:149-151 | on every 64-bit word and every power of two, the mask form of `align_down` is rounding down |
| `Bits.AlignUpIsCeil` | jotunboot/src/main.rs:144-147 | `align_up` gives the least multiple of a power of two that is not below its argument, whenever the sum does not wrap |
| `PageWalk.EntryFields` | jotunboot/src/main.rs:242-245 | masking an entry with P, PS and ADDR_MASK tests exactly the present bit, the page-size bit and bits 51..12, for every entry |
| `PageWalk.EntryPack` | jotunboot/src/main.rs:282-288 | an entry packed from a page address below 2^52 and the flags unpacks to that address and those flags, for tables and for large leaves |
| `PageTables.Indices` | jotunboot/src/main.rs:251-265 | the four index functions split the low 48 bits of any 64-bit address the way the hardware walk does |
| `PageTables.TargetPageBits` | jotunboot/src/main.rs:327-328 | the masked signed sum `va + delta` is a page address below 2^52 for every `va` and every, also negative, `delta` |
| `PageWalk.WalkThrough` | jotunboot/src/main.rs:281-316 | in a tree of tables, the hardware walk of an address passes through the table the tree has for it, at every level |
| `PageWalk.WalkTables` | jotunboot/src/main.rs:281-316 | a mapped address has all the tables down to the level that maps it |
| `PageWalk.LeafWrite` | jotunboot/src/main.rs:327-329 | writing one 4 KiB, 2 MiB or 1 GiB leaf into a slot without a table retranslates the addresses of that slot as intended, no other address, and keeps the tree |
| `PageWalk.LinkTable` | jotunboot/src/main.rs:281-289 | hanging a fresh zeroed table into an absent slot keeps the tree (no table gets two parents, every entry grants the kernel and only the kernel everything) and changes the translation of no address at all |
| `PageWalk.PackedRights` | jotunboot/src/main.rs:282-288 | a table entry and a large leaf, packed as the loader packs them, grant the kernel reading, writing and executing, and user mode nothing |
| `PageWalk.TreeRights` | jotunboot/src/main.rs:281-329 | the rights of an address, taken over all the entries of its walk, are those of the kernel wherever the tree maps it, for all three page sizes |
| `PageTables.Tables.constructor` | jotunboot/src/main.rs:410-413 | a zeroed PML4 is a tree of one table and maps nothing |
| `PageTables.Tables.AllocZeroPage` | jotunboot/src/main.rs:274-279 | hands out the next free page, zeroed, or fails with nothing changed when there is none |
| `PageTables.Tables.EnsurePdpt` | jotunboot/src/main.rs:281-290 | no translation changes; on success exactly the wanted table is in the tree (old or new); failure only when pages run out |
| `PageTables.Tables.EnsurePd` | jotunboot/src/main.rs:291-303 | as for `ensure_pdpt`; it also fails, with nothing changed, on a 1 GiB leaf and only there |
| `PageTables.Tables.EnsurePt` | jotunboot/src/main.rs:304-316 | as for `ensure_pdpt`; it also fails, with nothing changed, on a 2 MiB leaf and only there |
| `PageTables.Tables.EnsurePath` | jotunboot/src/main.rs:324-326 | the chain of three builds exactly the missing tables on the path of the address, changes no translation, and fails only without pages or below a large leaf |
| `PageTables.Tables.MapOver` | jotunboot/src/main.rs:323-329 | one round of the overwriting mapper changes the translation of exactly one 4 KiB page, whatever its entry held |
| `PageTables.Tables.Map4kibPage` | jotunboot/src/main.rs:338-348 | maps exactly one 4 KiB page if it was unmapped, and changes nothing if it was mapped |
| `PageTables.Tables.Map4kOffset` | jotunboot/src/main.rs:319-333 | on success every page of the rounded range maps to `va + delta` and all else is as before; failure only without pages or at a large leaf inside the range; new tables only on the paths of the range |
| `PageTables.Tables.Map4kIdent` | jotunboot/src/main.rs:334-336 | on success the rounded range is the identity and all else is as before |
| `PageTables.Tables.AccessOfMapped` | jotunboot/src/main.rs:242-348 | at any time, the kernel can read, write and execute every mapped address, and user mode none |
| `Hhdm.MapGiB` | jotunboot/src/main.rs:354-372 | a round of the first loop turns exactly one GiB from unmapped into the direct map, adding at most one PDPT |
| `Hhdm.MapTwoMiB` | jotunboot/src/main.rs:375-391 | a round of the second loop turns exactly 2 MiB from unmapped into the direct map, adding at most a PDPT and a page directory |
| `Hhdm.PageStep` | jotunboot/src/main.rs:394-398 | a round of the last loop takes the tables from exactly the first `phys` bytes mapped to exactly one page more, with exactly the tables these need |
| `Hhdm.MapHhdmHuge` | jotunboot/src/main.rs:350-401 | for every page-aligned `phys_max` in range and free slots: every p below it is reached at HHDM_BASE + p through the largest page that fits, nothing else changes, the tables added are exactly those needed, and it succeeds if and only if there are pages for them; the kernel can write every mapped address, at all three page sizes |
| `Hhdm.TablesCounted` | jotunboot/src/main.rs:350-401 | the exact table cost: one PDPT per 512 GiB begun, a page directory iff the size is no multiple of 1 GiB, a page table iff it is no multiple of 2 MiB |
| `Hhdm.LargestThatFits` | jotunboot/src/main.rs:354-398 | a 1 GiB page is used exactly where the whole GiB lies in memory, and a 2 MiB page where the whole 2 MiB do but not the GiB |
| `Hhdm.LeastSlots` | jotunboot/src/main.rs:354-398 | the number of PDPTs is the least that covers the memory |
| `Hhdm.PagesShort` | jotunboot/src/main.rs:274-398 | a direct map that could not be finished was given fewer pages than its table cost |
| `Hhdm.PagesUsed` | jotunboot/src/main.rs:274-398 | the number of pages taken from the firmware is the table cost: no page is taken and then not linked |
| `BootMap.KernelPhase` | jotunboot/src/main.rs:415-426 | after the two kernel ranges the address space is the kernel image and nothing else, with no table that is not needed; failure only when the pages run out before the needed tables are built |
| `BootMap.LowPhase` | jotunboot/src/main.rs:428-435 | the identity ranges around the image below 2 MiB are added; page 0 stays unmapped |
| `BootMap.IdentPhase` | jotunboot/src/main.rs:437-447 | the identity loop adds everything from 2 MiB to the end outside the image, and disturbs no earlier phase |
| `BootMap.BuildPagetablesExec` | jotunboot/src/main.rs:403-453 | the call succeeds if and only if the firmware has as many pages as the finished address space needs tables; then the tables are exactly these and translate every 48-bit address by one piecewise map, whatever the alignment of the image; every mapped address can be read, written and executed by the kernel and by nobody else; a failed call has used up all pages on needed tables |
| `BootMap.FinishedTables` | jotunboot/src/main.rs:403-453 | a finished set of tables without superfluous ones is exactly the root and the tables on the walk of some mapped address |
| `BootMap.OutOfPagesMeansTooFew` | jotunboot/src/main.rs:274-279 | needed tables of which one is missing are fewer than the address space needs |
| `BootMap.AlignedImageAsIntended` | jotunboot/src/main.rs:403-453 | for a page-aligned image that map is the intended one: image at a constant offset, identity around it without page 0, direct map, nothing else |
| `BootMap.UnalignedImageMisplaced` | jotunboot/src/main.rs:415-426 | an image that starts inside a page is reached at the wrong physical address |
| `BootMap.ImageMappedIffAligned` | jotunboot/src/main.rs:415-435 | every byte of the image is reached at its load address if and only if `min_vaddr` is page-aligned |
| `BootMap.TranslateAsIntended` | jotunboot/src/main.rs:403-453 | hardware translation of every 64-bit address, canonical or not, through the finished tables |
| `ElfLoad.LayoutSegments` | jotunboot/src/main.rs:547-567 | on any headers: an overflow exactly if the rounded end of a loadable segment does not fit into a word, no result exactly if no segment is loadable; otherwise the bounds enclose all loadable segments, and bounds and alignment are reached |
| `ElfLoad.AlignIsPower` | jotunboot/src/main.rs:547-567 | with power-of-two segment alignments the image alignment is a power of two |
| `ElfLoad.PlacementFits` | jotunboot/src/main.rs:583-594 | the image, rounded up to its alignment, stays inside the pages allocated for it |
| `ElfLoad.CopySegment` | jotunboot/src/main.rs:601-616 | file bytes, then zeros, and no other byte of memory changes |
| `ElfLoad.CopySegments` | jotunboot/src/main.rs:595-618 | every byte of the image is what the last segment covering it says, or zero; nothing outside the image changes |
| `ElfLoad.SegmentSurvives` | jotunboot/src/main.rs:597-618 | with disjoint segments every byte of every segment survives the copying of the others |
| `ElfLoad.LoadKernel` | jotunboot/src/main.rs:583-618 | end to end: reading `p_vaddr + k` through the finished page tables yields file byte `offset + k` for k < filesz and 0 up to memsz, for every segment of an aligned image with disjoint segments, and the kernel can write it; it fails if and only if there are too few pages for the tables, and the image is in place also then |
| `RunQueue.RunQueue.constructor` | jotunheimkernel/src/sched/mod.rs:353-358 | the queue made on first use satisfies the run-queue invariant |
| `RunQueue.RunQueue.PickNext` | jotunheimkernel/src/sched/mod.rs:57-86 | on any queue: the pick is Ready, it is the nearest Ready task ahead of the current one on the ring, and None means that no other task is Ready |
| `RunQueue.PickedIsNext` | jotunheimkernel/src/sched/mod.rs:57-86 | in a reachable state the pick is exactly the next task round the ring, never the current one, and None exactly if there is no other task |
| `RunQueue.RunQueue.SpawnKthread` | jotunheimkernel/src/sched/mod.rs:206-244 | the new task enters in front with a fresh id, and the current task is the same task as before at its shifted index |
| `RunQueue.RunQueue.InsertIdle` | jotunheimkernel/src/sched/mod.rs:127-150 | the idle task enters in front with a fresh id; unlike a spawn, the current index is not shifted |
| `RunQueue.IdleInvIffNothingCurrent` | jotunheimkernel/src/sched/mod.rs:127-150 | the insertion without the shift keeps the invariant if and only if nothing is current, and then it is a spawn |
| `RunQueue.RunQueue.KillCurrent` | jotunheimkernel/src/sched/mod.rs:325-333 | marks exactly the current task Dead with a double slice |
| `RunQueue.RunQueue.ChargeSlice` | jotunheimkernel/src/sched/mod.rs:251-261 | the current task pays one tick; at the last one its slice is refilled and a switch is due |
| `RunQueue.RunQueue.Tick` | jotunheimkernel/src/sched/mod.rs:248-314 | in every reachable state a tick is one of two simple steps: charge the current task, or park it with the given frame and resume the next one round the ring with the frame it holds |
| `RunQueue.RunQueue.Sweep` | jotunheimkernel/src/sched/mod.rs:156-175 | on any queue with distinct ids: ages the dead tasks, then applies the removals for the expired ones, including the case that the index runs off the end |
| `RunQueue.ReapOne` | jotunheimkernel/src/sched/mod.rs:168-174 | what the removal loop does for one id: it removes the first task that does not carry the id |
| `RunQueue.ReapMissesItsTarget` | jotunheimkernel/src/sched/mod.rs:168-174 | the task whose id is searched for is never the one removed |
| `RunQueue.ExpiredMembers` | jotunheimkernel/src/sched/mod.rs:156-167 | the first pass of the reaper lists exactly the dead tasks without time left |
| `RunQueue.AgedByAt` | jotunheimkernel/src/sched/mod.rs:156-167 | k passes take k units of time from every dead task, down to zero, and change nothing else |
| `RunQueue.ListedAfter` | jotunheimkernel/src/sched/mod.rs:156-167 | so a dead task is listed for removal after exactly as many passes as it had units left |
| `RunQueue.RemovalsCount` | jotunheimkernel/src/sched/mod.rs:168-174 | the removals take away as many tasks as ids were listed |
| `RunQueue.SweepIsIdle` | jotunheimkernel/src/sched/mod.rs:156-175 | in a reachable state a sweep by a running task finds nothing dead and changes nothing |
| `RunQueue.TickInv` | jotunheimkernel/src/sched/mod.rs:248-314 | a tick keeps the invariant, a full slice of five for every task but the current one included; a switch always goes to a task other than the current one |
| `RunQueue.SpawnInv` | jotunheimkernel/src/sched/mod.rs:206-244 | a spawn keeps the invariant: ids stay distinct and ordered, every task but the current one is Ready with a full slice |
| `SchedRuns.Step` | jotunheimkernel/src/sched/mod.rs:156-333 | every operation keeps the invariant, so it holds in every reachable state; a current task is never lost and only a spawn adds a task |
| `SchedRuns.SavedRun` | jotunheimkernel/src/sched/mod.rs:206-314 | over any run, every task but the current one holds the frame it was last switched out with, or its initial frame |
| `SchedRuns.ContextPreserved` | jotunheimkernel/src/sched/mod.rs:206-314 | in any run from boot, a switching tick returns the frame that the chosen task was last switched out with, or its initial one, despite the index shifts in between |
| `SchedFairness.CurrentMoves` | jotunheimkernel/src/sched/mod.rs:57-86 | a switch hands over to the next older task, from the oldest to the newest; no other operation changes which task is current |
| `SchedFairness.BoundedWait` | jotunheimkernel/src/sched/mod.rs:57-86 | while a task waits, fewer switches happen than there are tasks, counting those spawned meanwhile |
| `SchedFairness.TicksPerSwitch` | jotunheimkernel/src/sched/mod.rs:248-314 | over any run the ticks are bounded by ten for every switch and every kill |
| `SchedFairness.TimeLeftExact` | jotunheimkernel/src/sched/mod.rs:248-314 | with two tasks or more, only ticks take time, one unit each, a switch happens exactly at the last unit, and the next task then has five |
| `SchedFairness.SwitchesExact` | jotunheimkernel/src/sched/mod.rs:248-314 | over any run of ticks, spawns and sweeps the number of switches is exactly one for the first slice and one for every five ticks after it |
| `SchedFairness.CurrentAfter` | jotunheimkernel/src/sched/mod.rs:57-314 | over any run of ticks the processor has moved down the ring by exactly as many places as there were switches |
| `SchedFairness.FiveTicksEach` | jotunheimkernel/src/sched/mod.rs:248-314 | from a switch on, with two tasks or more, n ticks bring exactly n / 5 switches: none in the first four ticks, one at the fifth, and so on; and it says which task is then current |
| `SchedFairness.TenTicksOnceKilled` | jotunheimkernel/src/sched/mod.rs:294-333 | a killed task keeps the processor for exactly ten ticks, unless a switch was overdue, and the others then have five each |
| `SchedFairness.AloneOverdue` | jotunheimkernel/src/sched/mod.rs:248-314 | a task that is alone keeps the processor, but a switch is overdue once its slice has run out |
| `SchedFairness.SpawnAfterLongAlone` | jotunheimkernel/src/sched/mod.rs:206-314 | so a task that was alone for ten ticks loses the processor at the first tick after a spawn, to the new task |
| `SchedFairness.SameTaskSameFrame` | jotunheimkernel/src/sched/mod.rs:248-314 | a tick that leaves the processor with the same task returns the frame it was given |
| `SchedFairness.ResponseTime` | jotunheimkernel/src/sched/mod.rs:248-314 | a waiting task gets the processor within ten ticks for every task, every spawn and every kill |
| `SchedFairness.RoundRobin` | jotunheimkernel/src/sched/mod.rs:57-86 | without spawns, n consecutive switches visit each of n tasks exactly once, each at the position its distance says |
| `SchedFairness.RankStep` | jotunheimkernel/src/sched/mod.rs:57-86 | the measure (has the current task still to wrap, then distance) falls with every switch and is unchanged by every spawn, kill and sweep |
| `SchedFairness.NoStarvation` | jotunheimkernel/src/sched/mod.rs:57-86 | in every infinite run that keeps switching, whatever is spawned and killed, every waiting task gets the processor |
| `SchedFairness.TickingKeepsSwitching` | jotunheimkernel/src/sched/mod.rs:248-314 | once there are two tasks, a timer that ticks more than ten times for every kill, over and over, keeps switching |
| `SchedFairness.FairUnderTicks` | jotunheimkernel/src/sched/mod.rs:248-314 | under such a timer every task that waits gets the processor, in every infinite run of spawns, ticks, kills and sweeps |
| `SchedFairness.TimerTicks` | jotunheimkernel/src/sched/mod.rs:248-314 | a run of timer interrupts alone is such a timer |
| `SchedFairness.DeadStep` | jotunheimkernel/src/sched/mod.rs:248-333 | after any operation a task is dead exactly if it is the one killed, or was dead and no switch happened |
| `SchedFairness.DeadIffNoSwitch` | jotunheimkernel/src/sched/mod.rs:248-333 | over any run of spawns, ticks and sweeps a task is dead at the end if and only if it was dead at the start and no switch happened |
| `SchedFairness.DeadStaysDeadIffAlone` | jotunheimkernel/src/sched/mod.rs:294-333 | when more than ten ticks and nothing else follow a kill, the task is still dead if and only if it is the only task |
| `SchedFairness.KilledComesBack` | jotunheimkernel/src/sched/mod.rs:206-333 | in every state with a current task, also if that is the only one: killed, followed by a spawn and eleven ticks, it is dead no more |
| `SchedFairness.FirstTaskRuns` | jotunheimkernel/src/sched/mod.rs:206-314 | there is such a state: the first task, once it runs |
| `Frames.ReservedTable.ReserveRange` | jotunheimkernel/src/mem/reserved.rs:46-62 | the reserved set grows by exactly the pages of the range; false, with nothing changed, exactly if the table is full |
| `Frames.ReservedTable.IsReservedRange` | jotunheimkernel/src/mem/reserved.rs:65-78 | true exactly if some byte of the pages of the range is in the reserved set |
| `Frames.OverlapIsIntersection` | jotunheimkernel/src/mem/reserved.rs:72-76 | the two comparisons of the scan decide whether the two sets of addresses meet |
| `Frames.InitReserved` | jotunheimkernel/src/mem/reserved.rs:84-139 | after `init` an address is reserved exactly if one of the first 128 non-empty boot-time ranges has a page over it |
| `Frames.AllFit` | jotunheimkernel/src/mem/reserved.rs:84-139 | with at most 128 boot-time ranges none is lost: reserved is exactly what `init` set out to reserve |
| `Frames.KernelReservedIffRoom` | jotunheimkernel/src/mem/reserved.rs:126-139 | the kernel's own pages, which come last, end up reserved if and only if the table still has room or earlier ranges already cover them |
| `Frames.FramesAvoidReservations` | jotunheimkernel/src/mem/reserved.rs:80-139 | a frame that passes the reserved test has no byte in a page of any recorded boot-time range |
| `BootMemory.ReservedAddresses` | jotunheimkernel/src/mem/reserved.rs:84-139 | with at most 128 ranges, exactly which addresses are reserved: the pages of unusable regions clear of the low pool, of the framebuffer, of everything below the low pool, of the MiB behind the early heap, of the kernel, and three fixed pages |
| `Frames.TinyBump.AllocateFrame` | jotunheimkernel/src/mem/simple_alloc.rs:21-34 | returns the lowest free page and takes exactly that page out of the free set; None exactly if the set is empty |
| `Frames.UsableList.ScanRange` | jotunheimkernel/src/mem/mod.rs:431-441 | finds the first free page of a range and keeps exactly the free pages after it; none found exactly if there is none |
| `Frames.UsableList.TakeFrame` | jotunheimkernel/src/mem/mod.rs:428-445 | takes exactly one frame out of the set of unreserved pages of the free ranges; None exactly if that set is empty |
| `Frames.SeedUsable` | jotunheimkernel/src/mem/mod.rs:408-425 | the list is the page-clipped usable regions in order, cut off at 256 |
| `Frames.SeededPages` | jotunheimkernel/src/mem/mod.rs:408-425 | the pages of the uncut list are exactly the whole unreserved pages of the usable regions of the memory map |
| `Frames.SeededOk` | jotunheimkernel/src/mem/mod.rs:408-425 | disjoint regions, however many, give a list of page-aligned, non-empty, pairwise disjoint ranges |
| `Frames.FrameSources.AllocateFrame` | jotunheimkernel/src/mem/mod.rs:252-261 | hands out a frame that is free and was never handed out; None exactly if early heap and usable ranges have no free page |
| `Frames.FrameSources.AllocateLow32` | jotunheimkernel/src/mem/mod.rs:178-186 | the same for the low pool; the frame is zeroed, no other memory changes, and the address returned is its place in the direct map |
| `Frames.FrameSources.Serve` | jotunheimkernel/src/mem/mod.rs:178-261 | over any run of requests no frame is handed out twice, and the frames free at the start are at any time split exactly between the sources and the frames handed out; none has a byte in a page of the recorded boot-time ranges |
| `BootMemory.UsableCompleteIffFits` | jotunheimkernel/src/mem/mod.rs:405-425 | for disjoint regions, the seeded list holds every whole usable page if and only if there are at most 256 ranges |
| `BootMemory.FirstLost` | jotunheimkernel/src/mem/mod.rs:405-425 | otherwise the first page of the 257th range is usable and not in the list |
| `BootMemory.LostPage` | jotunheimkernel/src/mem/mod.rs:405-425 | a memory map of 257 separate usable pages that loses the last one |
| `BootMemory.TrampolineReservedIff` | jotunheimkernel/src/mem/reserved.rs:114-124 | the page that the start-up trampoline is copied to is reserved if and only if, each with room in the table when its turn comes, firmware or framebuffer lie over it, the low pool starts above it, the early heap ends before its end, or the kernel lies over it |
| `BootMemory.TrampolineNotReserved` | jotunheimkernel/src/mem/reserved.rs:114-124 | a machine on which it is not reserved, and lies in the low pool |
| `BootMemory.KernelNotReserved` | jotunheimkernel/src/mem/reserved.rs:84-139 | a machine with 128 firmware regions on which the kernel is not reserved |
| `BootMemory.EarlyHeapYieldsNothingIff` | jotunheimkernel/src/mem/reserved.rs:84-139 | the early allocator has no frame to hand out if and only if every page of the early heap is among the ranges that `init` found room for |
| `BootMemory.CoversRecorded` | jotunheimkernel/src/mem/reserved.rs:84-139 | what `init` leaves in the table is what the results about the early heap assume |
| `BootMemory.EarlyHeapLost` | jotunheimkernel/src/mem/reserved.rs:84-139 | a machine whose memory map lists the early heap, and on which that happens |
| `BootMemory.EarlyHeapReserved` | jotunheimkernel/src/mem/reserved.rs:93-106 | in particular it has none when a single region of the memory map that is not usable, apart from the low pool, covers the early heap, with room in the table |
| `Windows.KernelMap.MapTo` | jotunheimkernel/src/mem/mod.rs:108-124 | maps exactly one page, or fails with no page changed: because it was mapped, or because no frame is left; every frame taken is one new table on the walk of the address |
| `Windows.KernelMap.InitHeap` | jotunheimkernel/src/mem/mod.rs:188-211 | the whole heap window becomes mapped, on frames not in use before, and no page outside it, unless no frame is left; the frames taken are those of the new pages and tables, one more at most on failure; it never meets a mapped page |
| `Windows.KernelMap.VmapAllocPages` | jotunheimkernel/src/mem/mod.rs:215-237 | the pages returned were unmapped, become mapped on frames not in use before, and nothing else changes; it fails only if the size overflows, without effect, or if no frame is left; the frames taken are those of the new pages and tables, one more at most on failure; it never meets a mapped page |
| `Windows.KernelMap.EnsureMappedSpan` | jotunheimkernel/src/mem/mod.rs:308-352 | afterwards every page of the span is mapped, the ones that were keep their frames, the new ones are on frames not in use before; it fails only if no frame is left; the frames taken are those of the new pages and tables, one more at most on failure |
| `Windows.KernelMap.MapMmio` | jotunheimkernel/src/mem/mod.rs:133-160 | `map_mmio(pa, len) + k` translates to `pa + k` for every k < len, in pages that were unmapped before; it fails only if no frame is left for a table, and takes no frame for anything else |
| `Windows.WindowsFreeAtBoot` | jotunheimkernel/src/mem/mod.rs:32-44 | the loader leaves heap, MMIO and vmap windows empty if and only if the direct map ends below the heap window |
| `Breakpoints.Debugger.FindSlot` | jotunheimkernel/src/debug/breakpoint.rs:46-56 | finds the slot of the address, else the first free one |
| `Breakpoints.Debugger.Insert` | jotunheimkernel/src/debug/breakpoint.rs:58-89 | the new table and memory, including the verification read-back, for every outcome |
| `Breakpoints.InsertKeeps` | jotunheimkernel/src/debug/breakpoint.rs:58-89 | insert keeps table and memory consistent and the underlying program unchanged; when exactly it succeeds, and that it then records the original byte; other breakpoints are untouched |
| `Breakpoints.Debugger.Remove` | jotunheimkernel/src/debug/breakpoint.rs:91-107 | the new table and memory, and whether there was such a breakpoint |
| `Breakpoints.RemoveKeeps` | jotunheimkernel/src/debug/breakpoint.rs:91-107 | remove keeps the underlying program, succeeds exactly if the breakpoint exists, and leaves no entry for it |
| `Breakpoints.Debugger.OnBreakpointEnter` | jotunheimkernel/src/debug/breakpoint.rs:111-130 | the new table, memory, instruction pointer and reported address, also at address zero |
| `Breakpoints.TrapKeeps` | jotunheimkernel/src/debug/breakpoint.rs:111-130 | a hit is reported exactly at an armed site; the instruction pointer goes back to it, the original byte is there again, and the program is unchanged |
| `Breakpoints.TrapOnePast` | jotunheimkernel/src/debug/breakpoint.rs:111-130 | a trap with the instruction pointer one byte past an armed site, also where that wraps to zero, reports the site, goes back to it and finds the original byte there, where 0xCC was |
| `Breakpoints.HitIsOneBack` | jotunheimkernel/src/debug/breakpoint.rs:111-130 | a reported hit lies one byte before the instruction pointer, modulo 2^64; without a hit nothing changes |
| `Breakpoints.InsertNeedsSlot` | jotunheimkernel/src/debug/breakpoint.rs:46-89 | where stores take effect, an insert fails exactly if the address is not in the table and all 64 slots are taken |
| `Breakpoints.Debugger.OnResumeContinue` | jotunheimkernel/src/debug/breakpoint.rs:133-137 | continuing inserts the last hit again |
| `Breakpoints.Debugger.OnResumeStep` | jotunheimkernel/src/debug/breakpoint.rs:140-142 | stepping records the last hit and changes neither table nor memory |
| `Breakpoints.Transparent` | jotunheimkernel/src/debug/breakpoint.rs:46-142 | over any session of insert, remove, trap, continue and step: memory with every armed site replaced by its saved byte never changes, addresses stay unique, armed sites hold the trap byte, disarmed ones their original |
| `Breakpoints.NoTraceLeft` | jotunheimkernel/src/debug/breakpoint.rs:46-142 | a session that starts and ends without breakpoints leaves memory as it was |
| `Breakpoints.RemoveAll` | jotunheimkernel/src/debug/breakpoint.rs:91-107 | removing every address of the table empties it, from any consistent state |
| `Breakpoints.TrapThenContinue` | jotunheimkernel/src/debug/breakpoint.rs:111-137 | continuing after a hit restores exactly the state before the trap |
| `Breakpoints.StaysDisarmed` | jotunheimkernel/src/debug/breakpoint.rs:140-142 | a breakpoint that was hit and stepped over stays disarmed until it is inserted or continued at again |
| `Breakpoints.ArmedNextIff` | jotunheimkernel/src/debug/breakpoint.rs:58-142 | exactly when an address is armed after each command: the slot and store conditions for insert and continue, and for all others that it was armed, not removed and not hit |
| `Breakpoints.ContinueReplants` | jotunheimkernel/src/debug/breakpoint.rs:133-137 | whatever was asked for since a stop, removal included, continuing from it leaves the breakpoint armed if and only if the table has a slot for it |
| `ApStartup.BspKeeps` | jotunheimkernel/src/arch/x86_64/smp.rs:111-161 | every step of the boot processor keeps the protocol invariant |
| `ApStartup.ApKeeps` | jotunheimkernel/asm/x86_64/ap_trampoline.asm:84-119 | every read of the trampoline and every step of `ap_entry` keeps the protocol invariant |
| `ApStartup.Handshake` | jotunheimkernel/src/arch/x86_64/smp.rs:111-204 | in every interleaving in which no wait gives up on a processor that is still on its way while there is another one to start: each processor enters on the page tables, at the address and with the argument the boot processor set, its copy of the record has ready clear and every other field as the boot processor knows it, the stacks are 32 KiB each, one for each processor chosen, and no two overlap, and record and trampoline are never rewritten under a processor that has yet to copy them |
| `ApStartup.StackPerRoundRun` | jotunheimkernel/src/arch/x86_64/smp.rs:111-124 | in every run, timeouts included, the memory taken for stacks is 32 KiB for each processor chosen so far |
| `ApStartup.StacksAboveRun` | jotunheimkernel/src/arch/x86_64/smp.rs:111-124 | in every run, timeouts included, each stack lies with its 32 KiB inside the memory taken for stacks |
| `ApStartup.AllStarted` | jotunheimkernel/src/arch/x86_64/smp.rs:111-161 | when the loop is over without a wait having given up too early, every other enabled processor has entered, in table order and exactly once for each time it is listed |
| `ApStartup.LateTimeoutOverwritesIff` | jotunheimkernel/src/arch/x86_64/smp.rs:111-161 | after a wait gave up too early, some continuation has the record overwritten under the processor given up on if and only if the list has another processor to start, however many entries of the boot processor come first |
| `ApStartup.RetiredRun` | jotunheimkernel/src/arch/x86_64/smp.rs:158-161 | after such a wait in the last round, every continuation keeps the protocol invariant |
| `ApStartup.LateProcessorTakesWrongStack` | jotunheimkernel/src/arch/x86_64/smp.rs:127-160 | the processor given up on can then load the next one's stack |
| `ApFailures.GoesWrong` | jotunheimkernel/src/arch/x86_64/smp.rs:127-160 | when the wait gives up on a processor about to load its stack and another one is to be started, some continuation has it load a stack that is not its own |
| `ApFailures.WrongStackIffTwo` | jotunheimkernel/src/arch/x86_64/smp.rs:111-204 | over all runs from boot, some processor can load a stack that is not its own if and only if the list has two processors to start |
| `ApFailures.ThreeProcessors` | jotunheimkernel/src/arch/x86_64/smp.rs:111-204 | it can on a machine with a boot processor and two others |
| `ApProgress.LiveStep` | jotunheimkernel/src/arch/x86_64/smp.rs:111-204 | what every step keeps in every run, timeouts included: the current round has its own stack in record and stack slot, and its processor is on its way to announcing itself |
| `ApProgress.CanFinish` | jotunheimkernel/src/arch/x86_64/smp.rs:111-204 | however a run has gone so far, timeouts included, some continuation without a timeout finishes the loop |
| `Hex.PairRoundTrip` | jotunheimkernel/src/debug/rsp/core.rs:33-44 | the two digits of every byte read back as that byte |
| `Hex.DigitCharacters` | jotunheimkernel/src/debug/rsp/core.rs:33-35 | the digits written are 0 to 9 and lower-case a to f |
| `Hex.DigitValues` | jotunheimkernel/src/debug/rsp/core.rs:37-44 | digits are read in both cases with their usual values, and no other byte is a digit |
| `Hex.BothCases` | jotunheimkernel/src/debug/rsp/core.rs:37-44 | upper- and lower-case digits have the same value |
| `Hex.DigitAt` | jotunheimkernel/src/debug/rsp/core.rs:483-502 | each digit written is the hexadecimal place of the number it stands for, and there are no leading zeros |
| `Hex.DigitsRoundTrip` | jotunheimkernel/src/debug/rsp/core.rs:483-502 | the digits of every 64-bit number evaluate to that number |
| `Hex.ShiftIn` | jotunheimkernel/src/debug/rsp/core.rs:55-57 | the shift-and-or of the parser is multiplication and addition modulo 2^64 |
| `Packets.SendPkt` | jotunheimkernel/src/debug/rsp/core.rs:91-101 | sends exactly the frame of the payload, checksum included |
| `Packets.ReadBody` | jotunheimkernel/src/debug/rsp/core.rs:140-156 | consumes the body up to the hash mark, keeps as much as the buffer holds, with the checksum of what it keeps |
| `Packets.ReadFrame` | jotunheimkernel/src/debug/rsp/core.rs:140-174 | accepts exactly the frames whose two digits are the checksum, and answers plus or minus accordingly |
| `Packets.RecvPktLen` | jotunheimkernel/src/debug/rsp/core.rs:118-176 | refines the recursive reference receiver on every input: same packet, same rest of the line, same acknowledgements |
| `Packets.Resync` | jotunheimkernel/src/debug/rsp/core.rs:91-176 | after any stray bytes and any number of bad frames, exactly the payload that was framed is received, the rest of the line is untouched, with one minus per bad frame and then a plus, or silence without acknowledgements |
| `Packets.ParseHexUsize` | jotunheimkernel/src/debug/rsp/core.rs:49-62 | parses the maximal run of digits at the offset, and fails exactly if there is none |
| `Packets.NumberRoundTrip` | jotunheimkernel/src/debug/rsp/core.rs:49-62 | every 64-bit number, written anywhere in a packet, parses to itself with all its digits used |
| `Packets.ParseAddrLen` | jotunheimkernel/src/debug/rsp/core.rs:66-73 | parses a number, a comma and a number, and fails if one of them is missing |
| `Packets.AddrLenRoundTrip` | jotunheimkernel/src/debug/rsp/core.rs:66-73 | every address and length pair, written anywhere in a packet, parses to itself |
| `Packets.WriteHexU64Stream` | jotunheimkernel/src/debug/rsp/core.rs:483-502 | sends exactly the digits of the number without leading zeros and keeps the running checksum |
| `Packets.SendTStop` | jotunheimkernel/src/debug/rsp/core.rs:441-481 | the stop reply that is streamed piece by piece comes out as the frame of its payload |
| `PacketLaws.FrameShape` | jotunheimkernel/src/debug/rsp/core.rs:91-101 | a frame is a dollar sign, the payload, a hash mark, and the two digits of the plain sum of the payload modulo 256 |
| `PacketLaws.AcceptedIff` | jotunheimkernel/src/debug/rsp/core.rs:118-176 | a frame that fits is accepted, with a plus, exactly if its digits spell the plain sum of its body modulo 256; otherwise it is answered with a minus and receiving goes on behind it |
| `PacketLaws.OverlongFrame` | jotunheimkernel/src/debug/rsp/core.rs:140-174 | of a frame longer than the buffer the first 0x2000 bytes are received, if their checksum is the one sent |
| `PacketLaws.InterruptIsPacket` | jotunheimkernel/src/debug/rsp/core.rs:118-176 | after any noise, an interrupt byte between frames is a packet of its own, and is not acknowledged |
| `PacketLaws.NumberFoundIff` | jotunheimkernel/src/debug/rsp/core.rs:49-62 | a number is found exactly where a digit stands |
| `PacketLaws.PairFoundIff` | jotunheimkernel/src/debug/rsp/core.rs:66-73 | an address and length pair is found exactly where a run of digits is followed by a comma and another digit |
| `PacketLaws.StopReplyReads` | jotunheimkernel/src/debug/rsp/core.rs:441-481 | signal, thread id and program counter parse back out of every stop reply, each behind its label, and there is nothing else in it |
| `Bits.SumIsTotal` | jotunheimkernel/src/debug/rsp/core.rs:91-101 | the wrapping byte sum is the plain sum modulo 256 |
| `Registers.PutWord` | jotunheimkernel/src/debug/rsp/arch_x86_64.rs:12-34 | writes the little-endian digits of a word at the cursor and nothing else |
| `Registers.WriteG` | jotunheimkernel/src/debug/rsp/arch_x86_64.rs:37-107 | fills exactly the first 560 characters with the register block and leaves the rest of the buffer |
| `Registers.BlockLength` | jotunheimkernel/src/debug/rsp/arch_x86_64.rs:6-107 | the block is always 560 characters, shorter than the advertised 572 |
| `Registers.RegisterCharacters` | jotunheimkernel/src/debug/rsp/arch_x86_64.rs:57-74 | each of the 17 registers stands at its place in the order of the protocol, lowest byte first and high digit first |
| `Registers.SelectorCharacters` | jotunheimkernel/src/debug/rsp/arch_x86_64.rs:76-79 | flags, cs and ss follow in this order, eight characters each |
| `Registers.RestIsZero` | jotunheimkernel/src/debug/rsp/arch_x86_64.rs:80-104 | all that follows is the digit zero |
| `Registers.ReadWord` | jotunheimkernel/src/debug/rsp/arch_x86_64.rs:127-147 | succeeds exactly if all digits are there, with the little-endian value |
| `Registers.ReadG` | jotunheimkernel/src/debug/rsp/arch_x86_64.rs:110-207 | succeeds exactly on 572 characters of which the first 376 are digits; on any such length exactly the registers before the first bad digit are replaced |
| `Registers.WordRoundTrip` | jotunheimkernel/src/debug/rsp/arch_x86_64.rs:12-147 | every word written into a block reads back, wherever it stands |
| `Registers.WriteThenRead` | jotunheimkernel/src/debug/rsp/arch_x86_64.rs:37-207 | for every two frames, reading the padded block of one into the other succeeds, replaces all general registers and RIP, and sets the low half of the flags to that of ss |
| `Registers.RoundTripIffFlagsMatch` | jotunheimkernel/src/debug/rsp/arch_x86_64.rs:76-192 | the whole frame survives the round trip if and only if flags and ss agree in their low halves |
| `LittleEndian.LeRoundTrip` | jotunheimkernel/src/debug/rsp/arch_x86_64.rs:24-34 | decoding the low n bytes of a number gives the number modulo 256^n |
| `LittleEndian.LeByteAt` | jotunheimkernel/src/debug/rsp/arch_x86_64.rs:24-34 | byte k is the k-th place of the number to the base 256 |
| `Madt.FindSdtBySig` | jotunheimkernel/src/acpi/madt.rs:114-151 | returns the first table with a valid checksum and the signature; None exactly if there is none or the root table is invalid |
| `Madt.WalkEntries` | jotunheimkernel/src/acpi/madt.rs:218-271 | on the table at an address of memory: the address of the header, and the loop over the entries, which ends on every table and refines the recursive walk, including the out-of-bounds case |
| `Madt.WalkPanicsIff` | jotunheimkernel/src/acpi/madt.rs:225-271 | the walk panics if and only if it reaches an entry whose type and length promise more bytes than the table holds |
| `Madt.VisitEncoded` | jotunheimkernel/src/acpi/madt.rs:233-268 | every well-formed entry is decoded to what was encoded, wherever it stands and however long its tail is |
| `Madt.WalkInverts` | jotunheimkernel/src/acpi/madt.rs:225-271 | the walk inverts the encoding: every list of well-formed entries is read in order and in bounds |
| `Madt.Discover` | jotunheimkernel/src/acpi/madt.rs:188-271 | the table that the searches settle on, XSDT first and RSDT if that has none, is the one walked; nothing found exactly if there is none, and a panic exactly if the walk panics |
| `Madt.DiscoveryInverts` | jotunheimkernel/src/acpi/madt.rs:188-271 | if the table settled on is well formed, the result is what it says |
| `Madt.WholeTable` | jotunheimkernel/src/acpi/madt.rs:218-271 | a well-formed table in memory yields its processors and I/O APICs in table order, and the last address override, or the field of its header without one |
| `Bits.ChangedByte` | jotunheimkernel/src/acpi/madt.rs:77-79 | changing one byte changes the checksum |
| `MadtTables.ValidIffBalanced` | jotunheimkernel/src/acpi/madt.rs:85-111 | a table in memory with the right length is valid if and only if all its bytes sum to zero modulo 256, and then has its signature and length |
| `MadtTables.TooShort` | jotunheimkernel/src/acpi/madt.rs:104-106 | a table that states less than the 36 bytes of a header is not valid |
| `MadtTables.OneByteOff` | jotunheimkernel/src/acpi/madt.rs:85-111 | a valid table with any one byte outside the length field changed is not valid |
| `MadtTables.PointersFound` | jotunheimkernel/src/acpi/madt.rs:116-143 | the pointers of a root table are read from offset 36 on, eight bytes each in an XSDT and four in an RSDT |
| `MadtTables.SearchOrder` | jotunheimkernel/src/acpi/madt.rs:114-151 | a search returns the first valid table with the signature in the order of the pointers, skipping others and damaged ones |
| `MadtTables.EntryBytes` | jotunheimkernel/src/acpi/madt.rs:233-268 | what each kind of entry adds, byte by byte, and that other kinds and short entries add nothing |
| `MadtTables.DiscoveredThroughXsdt` | jotunheimkernel/src/acpi/madt.rs:188-271 | end to end: with an XSDT whose first valid "APIC" table holds well-formed entries, discovery returns what these say, whatever the RSDT holds |
| `MadtTables.DiscoveredThroughRsdt` | jotunheimkernel/src/acpi/madt.rs:188-271 | end to end through the RSDT when the XSDT is absent or leads to no such table |
| `MadtTables.NothingDiscovered` | jotunheimkernel/src/acpi/madt.rs:188-216 | nothing is found when neither leads to one |

## Left out

- Serial ports, APIC, MSR, TSC, CPUID and control-register access: hardware effects without a property over inputs.
- UEFI services: they appear only as assumptions, namely fresh page-aligned pages below 2^52. That `alloc_zero_page_low` asks for a page below 2^48 is not used.
- The mapper of the `x86_64` crate: `map_to` is a partial map that may take frames for tables and may fail; its page-table layout is not modelled.
- `linked_list_allocator` and the heap's `alloc` and `dealloc`: only the mapping of its pages is modelled.
- SIMD state of tasks: the saved area is not the task's own field, so context preservation is stated for the trap frame alone.
- GDT, IDT and TSS construction and the assembly stubs, apart from the trampoline's reads of the start-up record.
- The closure queue in `sched/exec.rs`, a thin layer over a library queue.
- Command dispatch of the remote protocol, including its `M` packet, which answers bad digits without rejecting the packet as a whole.
- Validation of the RSDP in `discover`: the addresses of the root tables are parameters.
- Lock ordering: every operation is atomic, so nothing is claimed about deadlock or about races between `map_mmio` and `vmap_alloc_pages`.
- That kernel frames avoid the boot page tables: the memory map is taken before these are allocated, and nothing is claimed.
- Overflow of task ids: `next_id` is unbounded.
- BootMap.BuildPagetablesExec: assumes that image and identity range end below the direct map and that the direct map does not wrap, because the phases of the loader assume it too.
- ElfLoad.LoadKernel: image pages and table pages are separate memories, so it says nothing about firmware that hands out a page twice. Well-formedness of program headers is assumed, where the code would panic or copy out of bounds.
- ElfLoad.LayoutSegments: a sum that overflows is the panic of a build with overflow checks; the wrapped sums of a build without them are not modelled.
- Frames.InitReserved: assumes that no range wraps past 2^64; the kind recorded with a range is dropped, since nothing reads it.
- Windows.KernelMap.EnsureMappedSpan: assumes that rounding up the end does not wrap. The branch for a page mapped by another thread in between cannot be taken when calls are atomic.
- Windows.KernelMap.VmapAllocPages: assumes that the window has room when the size does not overflow, and that the frame allocator has been set up.
- Windows.KernelMap.MapMmio: assumes that the window has room; cache flags of pages are not modelled.
- RunQueue.RunQueue.SpawnKthread: the new task's frame is a parameter; that it starts at the thread trampoline is not modelled.
- ApStartup.ApKeeps: the copy of the record in `ap_entry` is one step, and the start-up trampoline's other registers are not modelled.
- Breakpoints.Debugger.Insert: the address must be mapped, and write-protection toggling is part of the store; addresses where stores have no effect are modelled.
- Packets.RecvPktLen: a line that goes quiet is a result of the model, where the code waits for ever.
