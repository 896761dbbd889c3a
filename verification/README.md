# HydroxOS: a verified model of the kernel's stateful core

HydroxOS is a small x86-64 kernel. This project models its allocators, page tables, futures,
mutex, scheduler and terminal in Dafny and proves what holds of them for all inputs, in all runs
and all reachable states. `dafny verify dfyconfig.toml` checks everything.

| files | models |
|---|---|
| `Regions`, `Chunks`, `AllocPages`, `VirtualAlloc`, `VirtualRuns` | the virtual address allocator: a chain of sorted pages of regions that agrees with a plain set of free addresses |
| `VirtualAsWritten`, `VirtualCoded` | the same allocator exactly as coded: what its stale back link leads to, and that freeing is right until there is one |
| `PageTables`, `AddressSpaces`, `SpaceRuns` | four-level page tables (section 4.5 of the Intel SDM, Volume 3A), address spaces that share the upper half, and runs of mappings and new spaces |
| `FreeScan`, `KernelBoot` | the scan for free regions, and the start of the kernel's own space |
| `Futures`, `FutureCombinators` | the block shared by a future and its writer, and `all` and `any` over such a block, as step systems |
| `MutexProtocol`, `MutexProgress` | the blocking mutex as interleaved atomic operations: what never happens, and what always can |
| `IntrusiveQueues`, `Scheduling`, `Schedulers` | ready queue, wait lists and thread states, on sequences and on links in place |
| `Frames` | the stack of free frames that is stored inside the free frames |
| `MachineWords`, `BitVectors`, `Slabs` | the packed bit vector and the slab allocator on top of it |
| `PagedHeaps` | the page-based allocator, on the virtual allocator and the frame allocator |
| `EarlyAllocs` | the early bump allocator with its footers |
| `Ansi`, `Screens`, `ScreenEffects`, `Terminals` | the control-sequence parser and the ring-buffer terminal, against a plain grid, and what whole sequences do to the grid |
| `LineDisplay`, `LineEditors` | the line editor and the row of the terminal that it keeps in step |
| `Basics` | definitions that several of them share |

How the pieces fit. An operation that changes state is a method of a class; its `ensures` gives the
new state as a function of the old one, on a plain value (a set of addresses, a sequence, a grid),
and lemmas prove what the source promises of that function over whole runs. A panic of the source
is an outcome, and the contract says exactly when it occurs. A held lock is one atomic step.

A quantifier with the trigger `Look(k)` or `Peek(k)` around the body of an invariant only keeps
that body out of proofs that do not need it; `assert Look(0)` opens it.

## Where the code does not do what it promises

* `VirtualAllocPage::split` does not update the back link of the old successor when it adds a page
  (kernel/src/mem/virt.rs:154-161). `SplitAsWritten` is that code, with the exact condition under
  which the chain stays well linked. `VirtualAsWritten` is the whole of freeing as coded: 382 frees
  of single pages, from any base address, reach a stale link (`StaleBackLink`). On that heap a legal
  free is not merged, so that five free pages in a row cannot be allocated (`FreeRunNotFound`), and
  a free that overlaps a free region is accepted (`OverlapAccepted`). On a chain that is still well
  linked freeing as coded is right, and it leaves a stale link if and only if it puts a new page
  before a successor (`FreeCoded`). `RelinkSuccessor` is the missing step. The class
  `VirtualAllocator` is proved with it in place.
* The mutex can panic in two ways on two cores; on one core it cannot (`OneCoreNeverPanics`).
  Decoding the word clears one tag bit of two (kernel/src/sync/mutex.rs:29), so an owner read while
  the wait list is locked comes out two too large: a release then panics at line 213
  (`ReleasePanics`), and a woken thread can at line 138 (`WakePanicsByDecoder`). With an exact
  decoder the first is unreachable (`ReleaseNeverPanics`), but the second is not: the loop at line
  134 waits for the owner seen before sleeping, and a later owner may do the waking
  (`WakePanicsByOwner`, which is the only way left by `WakePanicsOnlyByOwner`).
* Initialising the kernel space fills unused upper entries only. An upper entry that is used but not
  present stays absent, and then a new space and the kernel can translate a page differently
  (`Disagree`, and from a boot state `HalfMadeWitness`); without one they never do (`SpaceRuns.Run`).
  The scan before it panics at most such entries; those that get past it are the last entry and
  entries with the huge bit (`InitKernelAddrspace`).
* `set_range` of a single index does nothing (kernel/src/util.rs:575); `SetRange` says so.
* Giving back a zero-sized block of the page-based allocator panics, because the dangling address 1
  is not page-aligned: `AllocateThenFree`.
* The slab allocator takes back a slot that is no object, the one after the last or that of the
  slab's own record: `Slabs.SlabAllocator.Free` keeps its invariant exactly when the address is none
  of those. The next allocation then hands that slot out: `ReservedIsHandedOut` from any state with
  a full slab, `HandsOutNoObject` from a new allocator; objects of 24 bytes are one such size
  (`SizesWithRemainder`).
* Erase-to-end on a terminal of one row with the cursor in column 0 clears nothing: `EraseIsExact`.
* The final bytes of a control sequence leave out 0x7E, and numbers may start with a plus sign.

## Model

| member | source | states |
|---|---|---|
| Regions.CoalescedIsCanonical | kernel/src/mem/virt.rs:297-318 | a fully coalesced region list is determined by the addresses it covers, so the contracts on free sets fix the stored list |
| Regions.RunInsideOneRegion | kernel/src/mem/virt.rs:419-456 | in a coalesced list every run of free addresses lies inside one region |
| Regions.NoLargeRun | kernel/src/mem/virt.rs:419-456 | if every region is smaller than a size, no run of that size is free anywhere |
| VirtualAlloc.BinarySearch | kernel/src/mem/virt.rs:186-219 | finds the key, or the one place where it would go |
| VirtualAlloc.VirtualAllocator.SplitAsWritten | kernel/src/mem/virt.rs:130-180 | splitting a full page (three targets) keeps the flattened list, the returned index names the same position, capacity holds; the back links are right if and only if no new page was put before a successor |
| VirtualAlloc.VirtualAllocator.RelinkSuccessor | kernel/src/mem/virt.rs:154-161 | the missing back-link step makes the chain well linked and changes no contents, and nothing at all when the chain was right |
| VirtualAlloc.VirtualAllocator.Split | kernel/src/mem/virt.rs:130-180 | the split with that step keeps the chain well linked and the list unchanged |
| VirtualAlloc.VirtualAllocator.CombinePages | kernel/src/mem/virt.rs:268-280 | joins two neighbouring pages: chain well linked, one page fewer, flattened list unchanged |
| VirtualAlloc.VirtualAllocator.CombineIfSmall | kernel/src/mem/virt.rs:254-295 | recursive combining terminates, keeps the flattened list and the chain |
| VirtualAlloc.VirtualAllocator.TryCoalesceAt | kernel/src/mem/virt.rs:297-318 | merges the regions that touch across a page boundary; afterwards the list is coalesced and covers the same addresses |
| VirtualAlloc.VirtualAllocator.FindIdxForRegionInsert | kernel/src/mem/virt.rs:186-219 | the position of a region among sorted regions, found by its end and checked against both neighbours |
| VirtualAlloc.VirtualAllocator.FreeRegion | kernel/src/mem/virt.rs:327-412 | adds exactly the region's addresses; fails exactly when the region is misaligned or overlaps the free set |
| VirtualAlloc.VirtualAllocator.Alloc | kernel/src/mem/virt.rs:419-456 | for a non-zero size returns nothing exactly when no run of that many free bytes exists; otherwise removes exactly the returned page-aligned region |
| VirtualAlloc.VirtualAllocator.Reserve | kernel/src/mem/virt.rs:458-544 | true exactly when all of the region is free, then removes exactly it; otherwise changes nothing |
| VirtualRuns.Run | kernel/src/mem/virt.rs:327-544 | every run of free, alloc and reserve from the empty allocator keeps the invariant and gives the answers of a set of free addresses |
| VirtualRuns.HandedOutOnce | kernel/src/mem/virt.rs:419-544 | in every run no address is handed out twice without being freed in between |
| VirtualAsWritten.SearchIsUnique | kernel/src/mem/virt.rs:186-187 | on ascending ends the search used there is what any binary search must come to |
| VirtualAsWritten.StaleBackLink | kernel/src/mem/virt.rs:154-161 | a run of frees from the empty allocator after which the last page of the chain points back past its neighbour |
| VirtualAsWritten.FreeRunNotFound | kernel/src/mem/virt.rs:400-411 | on that heap a legal free is not merged with the region it touches, and an allocation of five pages fails although five in a row are free |
| VirtualAsWritten.OverlapAccepted | kernel/src/mem/virt.rs:198-215 | on that heap freeing pages that are free already is accepted, and a page is listed twice |
| VirtualCoded.FreeCoded | kernel/src/mem/virt.rs:327-412 | freeing as coded, on a well linked chain and a coalesced list: succeeds exactly when the region is aligned and disjoint from the free set, adds exactly it, and leaves the chain well linked if and only if its split put no page before a successor |
| VirtualCoded.AscendingTakes | kernel/src/mem/virt.rs:130-180 | any separated regions freed in ascending order from the empty allocator, as coded, end up in that order on a well linked chain of exactly `PagesFor` pages, the frames that it takes |
| PageTables.NewTableKeepsWalks | kernel/src/arch/x86_64/page.rs:295-362 | hanging an empty table under an absent entry changes no translation |
| PageTables.LeafUpdateKeepsWalks | kernel/src/arch/x86_64/page.rs:245-293 | rewriting a last-level entry changes no walk that ends elsewhere |
| PageTables.IndexesMakePage | kernel/src/arch/x86_64/page.rs:245-293 | the four indexes of an address determine its page |
| PageTables.WalkIsTranslation | kernel/src/arch/x86_64/page.rs:245-293 | the walk is the translation of the manual written out: four fields of nine bits, pages of a gigabyte and of two megabytes on the way, flags from the bits of the entry |
| PageTables.WalkReads | kernel/src/arch/x86_64/page.rs:209-293 | a page translates exactly if the entry where its walk ends is present, to the address in that entry, with the flags in its user, writable and no-execute bits, huge pages included |
| PageTables.SameLastEntry | kernel/src/arch/x86_64/page.rs:295-362 | two walks that end in the same entry are of the same page, and of the same space unless in the shared half |
| AddressSpaces.UpperWalksAgree | kernel/src/arch/x86_64/page.rs:103-132 | spaces with the same upper entries translate every upper address alike |
| AddressSpaces.VerdictIs | kernel/src/arch/x86_64/page.rs:295-362 | mapping succeeds exactly if page and frame are aligned, the walk does not end at a huge page, and there is a frame for each level between the entry where it ends and the last one; and which failure means what |
| AddressSpaces.EntryPermits | kernel/src/arch/x86_64/page.rs:224-243 | with such an entry the processor (section 4.6 of the manual) permits exactly what the mapping says, as far as the entries above allow |
| AddressSpaces.Machine.FindLastTable | kernel/src/arch/x86_64/page.rs:295-345 | the three steps down, with up to three new tables, change no translation; out of memory and huge-page failures exactly when frames are short or the path meets a huge page; new tables take away no access |
| AddressSpaces.Machine.SetPageInternal | kernel/src/arch/x86_64/page.rs:295-362 | for any table tree: afterwards the page translates exactly as asked, its last-level entry holds frame and flags bit by bit, and the entries above permit what they did before, everything where tables are new; every other page of every space is as before; each failure (misaligned page or frame, huge page, no frames) occurs exactly when `Verdict` says, and then nothing translates differently |
| AddressSpaces.Machine.SetPageUser | kernel/src/arch/x86_64/page.rs:365-381 | refused exactly for the kernel space or an upper address, otherwise the outcome is the verdict and the entry holds frame and flags bit by bit; affects only the lower half of its own space, and nothing when it fails |
| AddressSpaces.Machine.SetPageKernel | kernel/src/arch/x86_64/page.rs:383-396 | refused exactly for a user space or a lower address, otherwise the outcome is the verdict and the entry holds frame and flags bit by bit; with a complete upper half it never changes a top-level entry, and every space sees the new mapping at once |
| AddressSpaces.Machine.NewSpace | kernel/src/arch/x86_64/page.rs:103-132 | a new space has an empty lower half and agrees with the kernel above; all others translate as before; it takes two frames, table and first page of its allocator, and fails exactly without them; what the processor permits is shared above and kept elsewhere |
| AddressSpaces.Machine.InitKernelSpace | kernel/src/arch/x86_64/page.rs:409-436 | upper translations are kept, the lower half is dropped; runs out of memory exactly when there are fewer frames than unused upper entries; otherwise the sharing invariant holds afterwards if and only if no upper entry was used without being present; the entries filled in are closed to user code |
| AddressSpaces.Machine.constructor | kernel/src/arch/x86_64/page.rs:87-97 | a boot state in which every table has one place and no free frame holds one |
| SpaceRuns.Run | kernel/src/arch/x86_64/page.rs:103-396 | in every run of mappings and new spaces each call comes out as the tables and free frames say, every page of every space translates as the last successful call for it said, and all spaces agree on the upper half; in the lower half of a user space the processor permits exactly the flags of the page |
| SpaceRuns.ToldOfNew | kernel/src/arch/x86_64/page.rs:103-132 | what a run says of a space before it exists: nothing of the lower half, the kernel's of the upper half |
| SpaceRuns.Untouched | kernel/src/arch/x86_64/page.rs:295-396 | a page for which no call succeeded translates as it did at first |
| FreeScan.UnusedIsUnmapped | kernel/src/arch/x86_64/page.rs:147-178 | an address under an unused entry does not translate, at any level |
| FreeScan.Scan | kernel/src/arch/x86_64/page.rs:135-185 | the recursive scan of any table tree, huge pages at any level, panics exactly at a used entry that is neither huge nor present, and otherwise hands over ascending separated runs whose union is the addresses under unused entries |
| FreeScan.ScanKernel | kernel/src/arch/x86_64/page.rs:134-194 | the whole scan gives maximal runs covering exactly the unused upper addresses |
| FreeScan.InitKernelVirtualAlloc | kernel/src/arch/x86_64/page.rs:134-194 | the kernel's allocator then holds exactly the addresses from the start of the upper half to 0xffff_ff80_0000_0000 whose walk ends at an unused entry, and takes `PagesFor` frames for its pages, by the number of runs |
| FreeScan.HalfMadeAfterScan | kernel/src/arch/x86_64/page.rs:165-182 | an upper entry that is used without being present gets past the scan only as the last one or with the huge bit |
| FreeScan.KernelFreeIs | kernel/src/arch/x86_64/page.rs:134-194 | an address is free exactly if it is from the start of the upper half to 0xffff_ff80_0000_0000, its top-level entry is not huge, and its walk from the root ends at an unused entry |
| FreeScan.UnmappedIsFree | kernel/src/arch/x86_64/page.rs:134-194 | in tables without half-made or huge top-level entries an address of that range is free exactly if it does not translate |
| FreeScan.ScannableIs | kernel/src/arch/x86_64/page.rs:147-178 | the scan comes through exactly if no walk for an address of its range ends above the last tables at an entry that is used, not huge and not present |
| KernelBoot.InitKernelAddrspace | kernel/src/arch/x86_64/page.rs:399-441 | scan and completion, which come through exactly when the scan meets no half-made entry and there are frames for the allocator's pages and for the unused entries; then the free addresses are exactly those of the scanned range whose walk ended at an unused entry, none is mapped, and spaces will share the upper half if and only if no upper entry was half made |
| KernelBoot.NewUserSpace | kernel/src/arch/x86_64/page.rs:103-132 | a new space with the shared upper half, an empty lower half and an allocator of exactly the lower half but for its first and last page; fails exactly without two free frames |
| KernelBoot.Disagree | kernel/src/arch/x86_64/page.rs:419-436 | whenever an upper entry of the kernel is absent, a new space and a later kernel mapping disagree about a page |
| KernelBoot.HalfMadeWitness | kernel/src/arch/x86_64/page.rs:399-441 | a boot state from which that happens |
| KernelBoot.StartHeap | kernel/src/mem/mod.rs:32-40 | the page-based allocator starts, exactly when the kernel's space does, with exactly those free addresses, none of which the boot mappings use |
| Futures.FinishKeeps | kernel/src/sync/future.rs:586-627 | finishing runs every registered action once, in order, and keeps the counts |
| Futures.ResolveKeeps | kernel/src/sync/future.rs:83-147 | resolving hands over the finished value and gives up exactly the holder's references |
| Futures.WhenResolvedKeeps | kernel/src/sync/future.rs:372-401 | registering an action, or running it at once, keeps the counts and never faults |
| Futures.DropKeeps | kernel/src/sync/future.rs:150-166 | dropping a holder keeps the counts; the last one frees the block |
| Futures.StepKeeps | kernel/src/sync/future.rs:83-227 | no step of clone, drop, without_val, try_resolve, when_resolved, as_future or finish faults, and each keeps the invariant; a holder without a value may always be cloned |
| Futures.BlockLifetime | kernel/src/sync/future.rs:372-435 | in every run the counts equal the holders, the block is freed once and never used after, every reader gets the finished value, every action runs once |
| Futures.ValueLeavesOnce | kernel/src/sync/future.rs:83-115 | the value is moved out or dropped at most once |
| Futures.StepDoes | kernel/src/sync/future.rs:83-227 | what each step does to the holders and to what is seen of it: clones, plain copies and futures from the writer add exactly the new holder, drops remove theirs, a resolved holder leaves with the finished value, a registration consumes its holder and registers the action, the finish runs all of them |
| Futures.RegisteredRuns | kernel/src/sync/future.rs:372-401 | in every run an action that was registered is registered once, has run exactly once as soon as the future is resolved and not before, and its consumed handle is never held again |
| FutureCombinators.AllStepKeeps | kernel/src/sync/future.rs:463-500 | at every step, also of the holders of the returned future, the block keeps its invariant and the countdown from the largest word is exact; it panics exactly for too many inputs |
| FutureCombinators.AllResolvesWithLast | kernel/src/sync/future.rs:463-500 | in every run `all` is resolved exactly when the loop is over and all inputs have resolved; until then no action on the returned future has run, from then on all have, in order; without underflow or use after free |
| FutureCombinators.AllCompletes | kernel/src/sync/future.rs:463-500 | from every state of a run loop, return and the remaining inputs can come to an end, and then `all` is resolved |
| FutureCombinators.ReturnsPlain | kernel/src/sync/future.rs:463-500 | `all` returns one future without the value, unless it is resolved by then |
| FutureCombinators.HolderOver | kernel/src/sync/future.rs:508-541 | to the holders of the future of `any` the references of its callbacks make no difference |
| FutureCombinators.AnyStepKeeps | kernel/src/sync/future.rs:508-541 | no step of `any` or of a holder faults, and each keeps the references exact |
| FutureCombinators.AnyKeepsFirst | kernel/src/sync/future.rs:508-541 | in every run `any` carries the index of the first input to fire, every value read is that index, actions on the returned future run exactly from then on, and the block is freed once |
| FutureCombinators.AnyCompletes | kernel/src/sync/future.rs:508-541 | from every state of a run loop, return and inputs can come to an end, and then `any` is resolved unless there were no inputs |
| FutureCombinators.ReturnsFirst | kernel/src/sync/future.rs:508-541 | `any` returns the one future that carries the value, and none without inputs |
| MutexProtocol.DecodeEncode | kernel/src/sync/mutex.rs:21-40 | decoding undoes encoding if and only if the wait list is not locked; a decoder that clears both tag bits always does |
| MutexProtocol.EncodeInjective | kernel/src/sync/mutex.rs:33-40 | comparing encoded words compares the words |
| MutexProtocol.StepKeeps | kernel/src/sync/mutex.rs:70-237 | every atomic operation of any thread keeps the invariant, and the panic at line 123 cannot happen |
| MutexProtocol.PanicsExactly | kernel/src/sync/mutex.rs:131-218 | the panic at 213 happens exactly with the code's decoder, after a release loaded a word with the wait list locked; the one at 138 exactly at a check made while the wait list is locked or, with an exact decoder, before the waker has stored the word |
| MutexProtocol.EntersDoomed | kernel/src/sync/mutex.rs:134-138 | with an exact decoder a thread goes on to a failing check exactly when it is being handed the lock by another thread than the owner it saw before it slept |
| MutexProtocol.MutualExclusion | kernel/src/sync/mutex.rs:70-237 | in every interleaving at most one thread is between acquire and release |
| MutexProtocol.NoLostSleeper | kernel/src/sync/mutex.rs:96-145 | a parked thread is on the list, the word says so, and its owner holds the lock or was handed it |
| MutexProtocol.HandOffIsFifo | kernel/src/sync/mutex.rs:173-204 | threads are handed the lock in the order in which they queued |
| MutexProtocol.OneCoreNeverPanics | kernel/src/sync/mutex.rs:83-221 | with interrupt-disabled sections atomic no panic is reachable |
| MutexProtocol.ReleaseNeverPanics | kernel/src/sync/mutex.rs:167-221 | with an exact decoder no release panics, in any interleaving |
| MutexProtocol.WakePanicsOnlyByOwner | kernel/src/sync/mutex.rs:131-139 | with an exact decoder, every run to a failing check passes through that entry, and the waker has not stored the word since |
| MutexProtocol.ReleasePanics | kernel/src/sync/mutex.rs:206-218 | a reachable state in which a release panics, with the code's decoder |
| MutexProtocol.WakePanicsByDecoder | kernel/src/sync/mutex.rs:131-139 | a reachable state in which a woken thread panics because of the decoder, woken by the very owner it queued behind |
| MutexProtocol.WakePanicsByOwner | kernel/src/sync/mutex.rs:131-139 | a reachable state in which a woken thread panics although words are decoded exactly |
| MutexProgress.ReleaseCompletes | kernel/src/sync/mutex.rs:167-237 | a holder that releases gets outside by its own moves; the lock is then free if nobody waited, otherwise the first waiter is its owner and awake |
| MutexProgress.WokenHolds | kernel/src/sync/mutex.rs:131-145 | the waiter that was woken holds the lock by its own moves |
| MutexProgress.TakesFree | kernel/src/sync/mutex.rs:70-145 | a thread that acquires, or tries to acquire, a free lock holds it by its own moves, at whatever point of its attempt it is |
| MutexProgress.QueuesUp | kernel/src/sync/mutex.rs:83-130 | one that acquires a lock that is held gets to sleep behind all other waiters by its own moves; one that tries to changes nothing |
| MutexProgress.NeverStuck | kernel/src/sync/mutex.rs:70-237 | from every state that any interleaving reaches with an exact decoder a run leads to where the lock is free and every thread outside |
| MutexProgress.NeverStuckOnOneCore | kernel/src/sync/mutex.rs:70-237 | the same with the decoder of the code, on one core |
| IntrusiveQueues.PushBack | kernel/src/sched/wait.rs:65-78 | linking a record at the tail appends it to the queue the links represent |
| IntrusiveQueues.PopFront | kernel/src/sched/wait.rs:41-63 | unlinking the head removes the first element |
| IntrusiveQueues.Unlink | kernel/src/sched/task.rs:260-294 | linking the neighbours to each other removes an element from the middle |
| Scheduling.StepKeeps | kernel/src/sched/task.rs:558-598 | every step keeps each thread where its state says, and the dead on no queue |
| Scheduling.RunKeeps | kernel/src/sched/mod.rs:100-141 | so in every reachable state |
| Scheduling.WakeOneTakesFirst | kernel/src/sched/wait.rs:199-214 | the thread that waited longest is woken |
| Scheduling.WakeAllTakesAll | kernel/src/sched/wait.rs:222-235 | the whole list becomes ready in the order of waiting, and the count is its length |
| Scheduling.QueuePosition | kernel/src/sched/task.rs:298-351 | from any state of a run on, a ready thread moves up by one place at each context switch and at no other step |
| Scheduling.BecomesCurrent | kernel/src/sched/mod.rs:100-141 | from any state of a run on, a thread at ready position k becomes current at exactly the (k+1)th switch |
| Scheduling.StepDoes | kernel/src/sched/mod.rs:100-141 | what each step does to threads, current thread and queues: after a yield the current thread and the ready queue together are the old queue and then the thread; waiting puts it at the back of exactly its list, killing leaves it dead and off the list of threads; and all others stay as they were but for the one that now runs |
| Scheduling.EffectIsExact | kernel/src/sched/mod.rs:100-141 | and that determines the whole state |
| Scheduling.YieldedReturns | kernel/src/sched/task.rs:558-567 | a thread that yields with k threads ready runs again right after the (k+1)th switch, its own included, and not before; at once if there is none |
| Schedulers.ThreadList.Add | kernel/src/sched/task.rs:432-465 | a new thread is linked at the end of the list of the process |
| Schedulers.ThreadList.Remove | kernel/src/sched/task.rs:260-294 | unlinks exactly the given thread |
| Schedulers.ReadyQueue.Enqueue | kernel/src/sched/task.rs:330-351 | appends a thread to the ready queue |
| Schedulers.ReadyQueue.Dequeue | kernel/src/sched/task.rs:298-322 | takes the first ready thread, or none |
| Schedulers.WaitLists.Enqueue | kernel/src/sched/wait.rs:65-78 | appends to one list, leaves all others alone; the flag check passes |
| Schedulers.WaitLists.Dequeue | kernel/src/sched/wait.rs:41-63 | takes the first thread of one list, leaves all others alone; the flag check passes |
| Schedulers.Scheduler.Wake | kernel/src/sched/task.rs:780-788 | makes a suspended thread ready; fails exactly in any other state |
| Schedulers.Scheduler.PerformContextSwitch | kernel/src/sched/mod.rs:100-141 | a thread that can still run is queued first, then the first ready thread runs |
| Schedulers.Scheduler.YieldCurrent | kernel/src/sched/task.rs:558-567 | the running thread goes to the back of the queue |
| Schedulers.Scheduler.WaitOn | kernel/src/sched/wait.rs:155-172 | the running thread goes to the back of the wait list |
| Schedulers.Scheduler.TryWake | kernel/src/sched/wait.rs:174-190 | a dead thread is passed over, a waiting one becomes ready |
| Schedulers.Scheduler.WakeOneOf | kernel/src/sched/wait.rs:199-214 | wakes the first thread of a list that is alive |
| Schedulers.Scheduler.WakeAllOf | kernel/src/sched/wait.rs:222-235 | wakes all that are alive and counts them |
| Schedulers.Scheduler.KillCurrent | kernel/src/sched/task.rs:581-598 | the running thread dies and leaves the list of the process |
| Schedulers.Scheduler.EndInterrupt | kernel/src/sched/mod.rs:52-62 | an idle core runs the first ready thread |
| Frames.FrameAllocator.FreeOne | kernel/src/mem/frame.rs:106-124 | pushes a frame; writes to free frames only |
| Frames.FrameAllocator.AllocOne | kernel/src/mem/frame.rs:126-149 | pops the frame freed last, without writing |
| Frames.FrameAllocator.ClientWrite | kernel/src/mem/frame.rs:16-33 | writes to an allocated frame leave the stack alone |
| Frames.FrameAllocator.FreeMany | kernel/src/mem/frame.rs:44-48 | pushes all frames in order |
| Frames.FrameAllocator.AllocMany | kernel/src/mem/frame.rs:59-69 | all or nothing: exactly when enough frames are free, the topmost first |
| Frames.TopArithmetic | kernel/src/mem/frame.rs:92-102 | where the page on top starts and how many frames it holds |
| Frames.Run | kernel/src/mem/frame.rs:92-153 | every run, with client writes anywhere, gives the results of a plain stack |
| Frames.NeverTwice | kernel/src/mem/frame.rs:92-153 | in every run no frame is handed out twice without being freed in between |
| MachineWords.WordOperations | kernel/src/util.rs:540-599 | or, and, complement of words are union, intersection, complement of their sets of bits |
| MachineWords.WordConstants | kernel/src/util.rs:579-591 | a one shifted up by `b` is the singleton of `b`, the mask below it is exactly the lower bits |
| MachineWords.WordZero | kernel/src/util.rs:634-643 | a word is zero exactly when no bit is set |
| MachineWords.WordTrailingZeros | kernel/src/util.rs:634-640 | the trailing zeros of a word are those of the set of its bits |
| MachineWords.WordOnes | kernel/src/util.rs:612-620 | the ones of a word are the members of that set |
| BitVectors.SetMembers | kernel/src/util.rs:541-553 | setting a bit adds or removes exactly that index |
| BitVectors.SetRange | kernel/src/util.rs:556-599 | exact for ranges of two or more indices; shorter ones are left alone, longer ones that do not fit are refused |
| BitVectors.FindNext | kernel/src/util.rs:626-646 | the least member at or after the start, or that there is none |
| BitVectors.Count | kernel/src/util.rs:612-620 | the number of members |
| Slabs.SlabArithmetic | kernel/src/mem/slab.rs:41-50 | for objects of 8 bytes and more a slab has 4 to 512 slots, as many as fit its bounds; how many pages and objects for which sizes |
| Slabs.NewSlab | kernel/src/mem/slab.rs:22-34 | a new record has exactly its slots free, but for the one reserved for itself |
| Slabs.LiveApart | kernel/src/mem/slab.rs:36-38 | live objects never overlap and stay inside their slab |
| Slabs.SlabAllocator.Alloc | kernel/src/mem/slab.rs:292-347 | hands out an object that was not live and makes exactly it live; fails exactly when a slab is needed and pages or record are missing, and gives pages back exactly when the record is |
| Slabs.SlabAllocator.Free | kernel/src/mem/slab.rs:349-380 | takes back exactly the object at the address; misaligned, doubly freed and foreign addresses told apart; the invariant is lost exactly when the address is a slot that holds no object |
| Slabs.SlabAllocator.FreeLive | kernel/src/mem/slab.rs:349-380 | a live object is always taken back |
| Slabs.SlabAllocator.Count | kernel/src/mem/slab.rs:382-398 | the used slots are the live objects and the reserved slots; and the total |
| Slabs.SlabAllocator.ReservedIsHandedOut | kernel/src/mem/slab.rs:349-380 | in any valid state, freeing the address of a slot that holds no object, in a full slab, is accepted, and the next allocation returns it |
| Slabs.HandsOutNoObject | kernel/src/mem/slab.rs:349-380 | the same from a new allocator whose one slab has been filled |
| Slabs.TakeKeeps | kernel/src/mem/slab.rs:335-346 | taking a slot keeps counts and chain: a slab is on the chain exactly while it has a free slot |
| Slabs.GiveKeeps | kernel/src/mem/slab.rs:363-371 | so does giving one back |
| PagedHeaps.Backing.Back | kernel/src/mem/mod.rs:41-82 | maps every page to a distinct free frame, or, when frames run out in any batch, restores mappings and free frames |
| PagedHeaps.Backing.RollBack | kernel/src/mem/mod.rs:47-69 | undoes the batches already mapped |
| PagedHeaps.UnmapUndoesMap | kernel/src/mem/mod.rs:62-69 | unmapping undoes mapping where nothing was mapped before |
| PagedHeaps.PagedHeap.Allocate | kernel/src/mem/mod.rs:21-88 | success gives a page-aligned block of at least the size and less than a page more, every page of which, not mapped before, is mapped writeable to a frame of its own that was free, and changes no other mapping; failure, with its exact condition, changes nothing; the check that pages are unmapped never fails |
| PagedHeaps.PagedHeap.Deallocate | kernel/src/mem/mod.rs:90-118 | unmaps the block and returns its frames and addresses; fails exactly on an unaligned address |
| PagedHeaps.AllocateThenFree | kernel/src/mem/mod.rs:21-118 | deallocating undoes allocating; a block of size zero is the one that cannot be given back |
| EarlyAllocs.FullSizeBounds | kernel/src/mem/early.rs:26-35 | a block is followed by its footer within one word |
| EarlyAllocs.LiveBlocksApart | kernel/src/mem/early.rs:37-69 | live blocks are aligned, they and their footers are at word addresses, below the mark and pairwise disjoint |
| EarlyAllocs.FooterOutOfReach | kernel/src/mem/early.rs:59-66 | bytes of a client never reach a footer |
| EarlyAllocs.FilledIs | kernel/src/mem/early.rs:59-66 | a write changes exactly the words that it shares a byte with |
| EarlyAllocs.EarlyAllocator.Alloc | kernel/src/mem/early.rs:37-69 | places an aligned block at the mark and writes nothing below it; fails exactly when a size is too large or the area too small |
| EarlyAllocs.EarlyAllocator.ClientWrite | kernel/src/mem/early.rs:59-66 | client writes keep every footer and every word outside |
| EarlyAllocs.EarlyAllocator.Free | kernel/src/mem/early.rs:71-82 | a block that ends at the mark rewinds it to before the block's padding; nothing outside the block is written |
| EarlyAllocs.EarlyAllocator.ReallocGrow | kernel/src/mem/early.rs:91-119 | grows in place exactly when the block ends at the mark and fits, and keeps what the block holds; panics exactly when the size is too large, or the block ends at the mark and the area is too small |
| EarlyAllocs.EarlyAllocator.ReallocShrink | kernel/src/mem/early.rs:121-141 | shrinks, keeps what the smaller block holds, and moves the mark back when the block ends at it |
| EarlyAllocs.AllocThenFree | kernel/src/mem/early.rs:37-82 | freeing at once puts the mark back, padding included |
| Ansi.NumberRoundTrip | kernel/src/io/ansi.rs:164-174 | a number of 32 bits that was written is read back |
| Ansi.SgrRoundTrip | kernel/src/io/ansi.rs:85-162 | a colour action that was written is read back |
| Ansi.ParseSgr | kernel/src/io/ansi.rs:112-162 | the actions of the first eight commands |
| Ansi.Parser.Write | kernel/src/io/ansi.rs:191-294 | the parser with its one buffer behaves as the one that remembers pending bytes |
| Screens.ApplyKeeps | kernel/src/io/vt.rs:145-181 | the cursor stays on the screen and rows keep their width |
| Screens.EraseIsExact | kernel/src/io/vt.rs:160-162 | erase-to-end clears the rest of the row if and only if there are two rows, or the cursor is not in column 0, or the row is blank |
| ScreenEffects.ValueConcat | kernel/src/io/ansi.rs:164-166 | digits are decimal: a number followed by digits is ten times as much for each of them, plus what they stand for |
| ScreenEffects.CommandsJoin | kernel/src/io/ansi.rs:112-138 | a number before a semicolon is one command, ahead of those that follow |
| ScreenEffects.CharacterFed | kernel/src/io/ansi.rs:191-231 | the two to four bytes of any Unicode scalar value beyond ASCII write that one character |
| ScreenEffects.Utf8RoundTrip | kernel/src/io/ansi.rs:215-231 | decoding undoes encoding |
| ScreenEffects.Utf8Exact | kernel/src/io/ansi.rs:215-231 | bytes that are no encoding give the replacement character, and only those and its own do |
| ScreenEffects.ByteFed | kernel/src/io/ansi.rs:191-213 | any other byte below 0xC0 is a character by itself |
| ScreenEffects.VisiblePut | kernel/src/io/vt.rs:117-143 | a visible character lands in the cell under the cursor with the current colours, no other cell changes, and the cursor moves on, or to the next row, which scrolls past the last |
| ScreenEffects.ControlsDo | kernel/src/io/vt.rs:117-143 | newline, backspace and the other control characters |
| ScreenEffects.MovesUp | kernel/src/io/vt.rs:150-152 | a whole up sequence moves the cursor up by its number, to the first row at most, and does nothing else |
| ScreenEffects.MovesDown | kernel/src/io/vt.rs:153-155 | a down sequence moves it down by its number, to the last row at most |
| ScreenEffects.MovesRight | kernel/src/io/vt.rs:156 | a right sequence moves it right by its number, to the last column at most |
| ScreenEffects.MovesLeft | kernel/src/io/vt.rs:157-159 | a left sequence moves it left by its number, to the first column at most |
| ScreenEffects.CursorSteps | kernel/src/io/ansi.rs:259-274 | without a number all four move by one |
| ScreenEffects.ErasesRest | kernel/src/io/ansi.rs:275-282 | the erase sequence blanks the cells from the cursor to the end of its row in the current colours, and no other |
| ScreenEffects.UnknownDoesNothing | kernel/src/io/ansi.rs:283-290 | a sequence with any other final byte does nothing |
| ScreenEffects.LongDoesNothing | kernel/src/io/ansi.rs:242-248 | nor does one with 64 bytes and more before the final byte |
| ScreenEffects.EscapeDoesNothing | kernel/src/io/ansi.rs:232-241 | nor does an escape without a bracket |
| ScreenEffects.ColorNumbers | kernel/src/io/ansi.rs:112-162 | which numbers reset, which set the foreground and which the background, to which colour |
| ScreenEffects.SelectsColor | kernel/src/io/vt.rs:163-178 | a whole colour sequence sets the colours that its number says and does nothing else |
| Terminals.Terminal.Offset | kernel/src/io/vt.rs:41-48 | the product of line and width that the code computes is where the line starts in the flat buffer |
| Terminals.OverwriteShows | kernel/src/io/vt.rs:41-48 | writing a stretch of the flat buffer changes exactly that stretch of one row |
| Terminals.ScrollShows | kernel/src/io/vt.rs:99-115 | moving the top line and blanking it drops the top row and appends a blank one |
| Terminals.Terminal.ClearRange | kernel/src/io/vt.rs:70-93 | blanks exactly the range, wrapping around |
| Terminals.Terminal.NewLine | kernel/src/io/vt.rs:61-68 | the next row, scrolling past the last |
| Terminals.Terminal.WriteChar | kernel/src/io/vt.rs:117-143 | as on the grid |
| Terminals.Terminal.EraseToLineEnd | kernel/src/io/vt.rs:160-162 | as on the grid, but for the one-row case |
| Terminals.Terminal.WriteByte | kernel/src/io/vt.rs:145-181 | for every byte the ring refines the grid |
| Terminals.Terminal.Write | kernel/src/io/vt.rs:198-207 | for every byte stream the ring refines the grid; all indexes in bounds |
| LineDisplay.TypeText | kernel/src/io/vt.rs:117-143 | text clear of the last column replaces what was there |
| LineDisplay.CsiDoes | kernel/src/io/ansi.rs:232-292 | a whole control sequence does what its final byte says |
| LineDisplay.EraseRest | kernel/src/io/ansi.rs:275-282 | the erase sequence blanks the rest of the row |
| LineEditors.NextKeeps | kernel/src/cmd.rs:53-94 | every key keeps an edit saved at each position below, so neither unwrap fails |
| LineEditors.UpThenDown | kernel/src/cmd.rs:55-94 | up then down restores the edited text |
| LineEditors.KeyBytes | kernel/src/cmd.rs:28-128 | the bytes of each key, in front of any input, are that key and then the keys of the rest |
| LineEditors.InsertPuts | kernel/src/cmd.rs:112-128 | a typed character goes where the cursor is |
| LineEditors.DeleteUndoes | kernel/src/cmd.rs:43-52 | delete takes away the character before the cursor, so it undoes an insert |
| LineEditors.SideKeysMove | kernel/src/cmd.rs:95-106 | left and right move the cursor by one, up to the ends of the line |
| LineEditors.UpRecalls | kernel/src/cmd.rs:55-76 | pressing up k times recalls the line that was entered k lines ago, with the cursor at its end |
| LineEditors.RememberIsLast | kernel/src/cmd.rs:34-38 | the history is the last 64 lines |
| LineEditors.TypedIsRead | kernel/src/cmd.rs:18-42 | text that is typed and ended by enter is the line that is read |
| LineEditors.KeyShown | kernel/src/cmd.rs:43-128 | after every key the row shows prompt, text and blanks with the cursor at the edit position |
| LineEditors.EnterShown | kernel/src/cmd.rs:29-42 | enter leaves the text as it is and takes the cursor to the next row |
| LineEditors.LineEditor.HandleKey | kernel/src/cmd.rs:43-128 | buffer, history and screen change together and stay in step |
| LineEditors.LineEditor.Readline | kernel/src/cmd.rs:18-134 | the line returned, the history afterwards and the whole screen: at the end of input the text as edited, after enter the same with the cursor on the next row; for every input whose line fits up to the first enter |

## Left out

- SplitIntoNewPage: allocation failure of a bookkeeping page, which panics in the source, is not modelled.
- Alloc: sizes and addresses are unbounded integers; the hole between the halves of the address space is not modelled.
- Scan: the tables are taken to be trees with one place for each table; tables shared between entries are not modelled.
- InitKernelAddrspace: the scan is modelled before the frees that it makes on the way, so when a half-made entry and a lack of frames both stand in the way, which of the two panics comes first is not.
- KillCurrent: finishing the join future of the thread before the switch is not modelled.
- EndInterrupt: the soft interrupts that run first are not modelled.
- Address spaces are only created: the code never takes one down.
- AllocFinds: of an allocation as coded only the search is modelled; reserving as coded would show nothing further.
- Allocate: frames used by page tables and by the virtual allocator are not counted.
- Readline: works on decoded characters; a line that wraps is not modelled, and the source does not support one. The history's `ArrayDeque` is a sequence.
- Pages of the virtual allocator, slab records and page tables are values in a map from address to
  record, not heap objects, and links are addresses: update in place is an update of the map.
- The check that the kernel runs in the upper half (kernel/src/arch/x86_64/page.rs:400-402) is left to the caller.
- Futures: each operation is one step on values, under the block's lock; blocking, `wait` and soft interrupts are not modelled.
- Mutex: sequentially consistent atomic operations and non-reentrant use; weak orderings are not modelled.
- Scheduler: one core; registers, stacks, join futures and user processes are not modelled.
- Bit vector: in the vector's methods a word is the set of its bits; `MachineWords` proves that 32-bit operations are those set operations. `invert`, `resize` and iteration would add easy members.
- `PageBasedAlloc::grow` would add nothing; `shrink` frees frames without unmapping them, so it does not keep the invariant.
- The early allocator's retry loops on compare-exchange are single steps.
- Hardware (port I/O, interrupt tables, TLB flushes, register save and restore, VGA, PS/2, serial ports), device tree, logging, commands other than reading a line, kernel options.
