# MeghaOS memory and process core

This project models the memory and process core of the MeghaOS kernel for x86 and proves what it is for:
no frame is lost or shared, every process sees the same kernel half, the heap never loses a byte, boot
leaves the three memory managers in agreement, the process tree and the scheduler queue stay whole, and
the early `printf` engine stays inside its buffer.

Values and objects go together. For each layer there is a model on values (functions such as `Alloc`,
`MapPage`, `AddSpace`, `Malloc`, `Exec`), the properties are lemmas about those functions, and a class
with the source's fields and loops whose methods are proved equal to them. The layers, bottom up:

- `Bitmap.dfy`, `FrameStates.dfy`, `Pmm.dfy`: a bit-packed array refines a sequence of states; the frame allocator on it, over
  whole runs of allocations and frees.
- `PageTables.dfy`, `Paging.dfy`: two-level page tables (section 4.3, "32-Bit Paging", of the Intel 64 and
  IA-32 Architectures Software Developer's Manual, Volume 3A) refine a map from virtual page to frame. The
  class reaches tables only through the two temporary-map slots; mapping into an occupied slot and
  unmapping an empty one are panics in the source and therefore preconditions here, so that every verified
  caller proves that they cannot happen and that both slots are empty again at its end.
- `AddressSpaces.dfy`, `Contexts.dfy`, `VirtualMemory.dfy`: the sorted list of address spaces with first-fit placement, lazy
  commit, release, the page-fault decision and the page-directory synchronisation.
- `Ownership.dfy`, `Lifecycle.dfy`, `Reclaim.dfy`, `Birth.dfy`, `Coherence.dfy`, `FrameChanges.dfy`,
  `KernelRuns.dfy`: the whole memory system as a state machine. `Structural(s, o)` says that the owner map
  `o` gives every USED frame exactly one owner, who reaches it: the boot map, the kernel through a page
  table or a page of its own, or a context through its directory, one of its page tables or one mapped page;
  and that a kernel page shows a frame that is not free and is the kernel's. `Coherent(s)` says that each
  process's directory equals the kernel's on entries 768 to 1022 or the kernel's dirty flag is set.
  `Sane(s, boot)` fixes the frames in use at boot. All of it holds in every reachable state.
- `Conservation.dfy`: what follows, with no owner map in the statements. Frame states are exactly the boot
  map plus what the page tables reach; no frame is reached twice; runs whose processes are gone give every
  frame back; guard pages are never backed.
- `Requests.dfy`, `Faults.dfy`: what kvmm_memmap, commits and page faults do for every input: exactly when
  they succeed, fail and halt, what they answer and what they leave.
- `LostFrames.dfy`, `LostCoherence.dfy`, `FreeInside.dfy`: the commits that fail halfway and the frees that
  release too much: exactly when they do, and requests that get there. `SmallSystem.dfy` holds the small
  sane system of the concrete inputs.
- `HeapModel.dfy`, `IntrusiveList.dfy`, `Heap.dfy`: the first-fit splitting and coalescing heap on values,
  circular intrusive lists, and the class that threads each header through three of them at once.
- `Boot.dfy`: the loop that makes page tables and address spaces say what the frame allocator says.
- `Processes.dfy`: the process tree, the recursive kill and the round-robin queue, on objects. Processes are
  told apart by object identity, never by PID.
- `Starvation.dfy`: exactly when a yield reaches a process, and a run after which one process never runs.
- `Joint.dfy`: the process table and the memory system together, over runs of both: every queued process
  has a live directory, and the synchronisation reaches every live one.
- `Formats.dfy`, `Conversions.dfy`, `Printf.dfy`: what a format means, what each conversion shows said without the
  functions of the engine, and the format engine on a buffer.

`heapOk` and `stale` in the operations stand for what the kernel heap answers and what freshly allocated
memory held. `k_assert` and panics are proof obligations, whatever the build.

Where a promise does not hold of the code, the code is kept, a lemma shows an input, and another says
exactly when the promise holds:

- The overlap test misses a request that strictly encloses an existing space (`EnclosingRequestIsAccepted`,
  `AcceptedIsSoundUnlessEnclosing`).
- `find_next_va` does not look at the size on an empty list (`FindNextOnEmptyList`).
- A commit over a page that is mapped already fails halfway: it leaves the pages in front of that one mapped
  and loses the frames taken for the others (`CommitLosesFramesExactlyWhenMapped`). An accepted enclosing
  request gets there (`EnclosingRequestLosesFrames`).
- In the kernel such a commit can leave a new page table behind a clean dirty flag, and lazy coherence is
  gone (`EnclosingKernelRequestBreaksCoherence`). `CommitKeepsCoherenceExactlyWhenSafe` and
  `KernelRequestKeepsCoherenceExactlyWhenSafe` say exactly when it survives: no frames to commit, a dirty
  flag, no process, no mapped page in the range, or the page tables in front of the first mapped page are
  all there.
- `kpg_deletePageDirectory` without KEEP_KERNEL_PAGES frees the directory as the last entry of its own loop and
  then refuses it: it goes through exactly on a directory that is none of its page tables (`DeletePdIsExact`,
  `SelfMappedIsNotDeletedWhole`). No caller asks for it.
- `kvmm_free` at an address inside a space releases as many pages as the space has, from that address on,
  kernel pages included (`FreeInsideLosesKernelPage`). `FreeIsExactOnlyOnCommonPages` says for every address
  when that is right.
- The loop of `kvmm_delete` repeats a `kvmm_free` that fails: it ends exactly on lists without a static
  space (`DeletionEndsUnlessStatic`); a list that begins with one is an input (`StaticHeadStays`).
- The range check of `kpmm_free` and `kpmm_allocAt` sums in 32 bits; it is right exactly when the range does
  not wrap back into usable memory (`RangeCheckIsRightUnlessItWrapsBack`, `WrappingRangePasses`). The bitmap's
  own checks then still grant nothing.
- Two live processes can share a PID, because the counter goes down with every kill (`SharePid`). Then the
  yield that reaches a process runs it exactly when the process in front of it in the queue has another PID
  (`PassRunsIffPidDiffersInFront`), and the process that `SharePid` leaves behind never runs.
- `kmalloc` of a size that does not fit with two headers into 32 bits: a granted request keeps the heap in
  order exactly when it does fit (`GrantIsSoundUnlessWrapped`), and every fresh heap grants one that does not
  (`WrappedRequestIsGranted`).
- `%%` is written without a size check and a `%` at the very end runs past the format (`PrintsExactly`,
  `UncheckedPercentOverflows`, `LonePercentOverruns`). The documentation above `kearly_vsnprintf` promises
  the bound for all formats.

## Model

| member | source | states |
|---|---|---|
| Bitmaps.GetSetSame | src/kernel/bitmap.c:101-145 | a slot that was written reads back |
| Bitmaps.GetSetOther | src/kernel/bitmap.c:125-145 | writing a slot leaves its neighbours in the same byte, for every width dividing 8 |
| Bitmaps.UnpackStore | src/kernel/bitmap.c:125-145 | a store into the packed bytes is an update of the state sequence at one index |
| Bitmaps.UnpackIsInjective | src/kernel/bitmap.c:101-113 | equal state sequences come from equal bytes |
| Bitmaps.FirstRunIsLeast | src/kernel/bitmap.c:74-91 | the search gives the least start of a run of the state, and none exactly when no such run exists |
| Bitmaps.AllowedPrefixIs | src/kernel/bitmap.c:125-145 | the prefix that gets written ends at the first refused index, or covers the range |
| Bitmaps.Bitmap.Get | src/kernel/bitmap.c:101-113 | reads the state of an index out of the packed byte |
| Bitmaps.Bitmap.SetContinous | src/kernel/bitmap.c:125-145 | writes exactly the range, or exactly the part before the first refused index, and says which |
| Bitmaps.Bitmap.FindContinousAt | src/kernel/bitmap.c:44-62 | true exactly when the whole range is inside and in the state |
| Bitmaps.Bitmap.FindContinous | src/kernel/bitmap.c:74-91 | the least index of a run of the length, -1 exactly when there is none |
| FrameStates.AllocTakesLowestRun | src/kernel/pmm.c:214-246 | an allocation succeeds exactly when a free run below the end of usable memory exists, takes the lowest one and nothing else, and otherwise changes nothing |
| FrameStates.AllocAtTakesRun | src/kernel/pmm.c:161-200 | an allocation at an address takes exactly that run, and only if all of it is free and usable |
| FrameStates.AllocAtIsExact | src/kernel/pmm.c:161-200 | it succeeds exactly on a run of whole, free, usable frames, never panics, and names the check that failed |
| FrameStates.FreeGivesBackRun | src/kernel/pmm.c:120-148 | a free of a used run makes exactly that run free |
| FrameStates.FreeIsExact | src/kernel/pmm.c:120-148 | the same for byte addresses: it succeeds exactly on whole, USED, usable frames, names the check that failed, and panics on a run in range that is not USED |
| FrameStates.FreePagesIsFreeRun | src/kernel/pmm.c:120-148 | the byte-address checks of kpmm_free, in frame numbers |
| FrameStates.ChangeIsExact | src/kernel/pmm.c:50-68 | a change of frame states goes through exactly if every frame goes from FREE to USED or back and lies at most one behind usable memory |
| FrameStates.FreeKeepsNoFreeBeyond | src/kernel/pmm.c:120-148 | freeing makes no frame past usable memory free |
| FrameStates.FreeUndoesAlloc | src/kernel/pmm.c:120-246 | alloc then free restores every frame state |
| FrameStates.RunKeepsAccounted | src/kernel/pmm.c:120-246 | over any run of allocations and frees the outstanding grants are pairwise disjoint, USED and inside usable memory |
| FrameStates.BootIsAccounted | src/kernel/pmm.c:90-107 | an initial map without free frames past usable memory satisfies that invariant |
| FrameStates.RangeCheckIsRightUnlessItWrapsBack | src/kernel/pmm.c:129-132 | the 32-bit range check is right exactly if the range does not wrap back; if it does, kpmm_allocAt is refused and kpmm_free is refused or fails an assertion |
| FrameStates.WrappingRangePasses | src/kernel/pmm.c:129-132 | such a range: two pages from the last frame on |
| PhysicalMemory.Pmm.Free | src/kernel/pmm.c:120-148 | on the packed bitmap, range check in 32 bits: the new frame states and the reply are those of the value model; the bitmap's index assertion is a precondition |
| PhysicalMemory.Pmm.AllocAt | src/kernel/pmm.c:161-200 | likewise, and no range is excluded |
| PhysicalMemory.Pmm.Alloc | src/kernel/pmm.c:214-246 | likewise, with the address of the run |
| PhysicalMemory.Pmm.GetPageStatus | src/kernel/pmm.c:311-327 | the state of the frame of an aligned address, INVALID for any other |
| PhysicalMemory.StatesAreNumbered | include/pmm.h:22-27 | the numbers of the frame states in the bitmap |
| PhysicalMemory.Pmm.GetFreeMemorySize | src/kernel/pmm.c:254-271 | 4096 times the number of free usable frames other than frame 0 |
| PhysicalMemory.FramesDetermineBytes | src/kernel/bitmap.c:101-113 | equal frame states come from equal bitmap bytes |
| PhysicalMemory.AllocThenFree | src/kernel/pmm.c:120-246 | after alloc and free the bitmap is as before, byte for byte |
| PageTables.SplitIsBijective | src/kernel/x86/paging.c:64-81 | splitting an address into indices and offset is a bijection |
| PageTables.AllocOneFrame | src/kernel/pmm.c:214-246 | a single-frame allocation gives a frame that was free, and fails exactly when none is |
| PageTables.EnsureTableIsFresh | src/kernel/x86/paging.c:340-384 | a page table made on demand is a zeroed frame that no entry pointed to |
| PageTables.MapChangesOnePage | src/kernel/x86/paging.c:340-384 | a successful map changes the translation of exactly one page; a double map fails with all translations unchanged |
| PageTables.UnmapChangesOnePage | src/kernel/x86/paging.c:260-293 | a successful unmap removes exactly one translation; a double unmap fails and changes nothing |
| PageTables.MapLookupUnmap | src/kernel/x86/paging.c:260-419 | after a map every offset of the page resolves to frame base plus offset, and unmap undoes it |
| PageTables.MapAddressIsExact | src/kernel/x86/paging.c:340-384 | for any two addresses: refused exactly if one is not page aligned or the page is mapped, and what a map changes of the translations and the frame states |
| PageTables.UnmapAddressIsExact | src/kernel/x86/paging.c:260-293 | refused exactly if the address is not page aligned or not mapped; otherwise the page is gone and nothing else |
| PageTables.DeletePdIsExact | src/kernel/x86/paging.c:481-515 | deletion goes through exactly if the page tables in question and the directory are distinct frames in use, and frees exactly these |
| PageTables.SelfMappedIsNotDeletedWhole | src/kernel/x86/paging.c:490-512 | without KEEP_KERNEL_PAGES a directory that maps itself is never deleted: its last entry is itself |
| PageTables.MapPagesIsMapRun | src/kernel/x86/paging.c:307-326 | the address loop of kpg_mapContinous is a loop over page numbers |
| PagingUnit.Paging.TemporaryMap | src/kernel/x86/paging.c:139-157 | fills an empty slot; an occupied one is a panic and excluded |
| PagingUnit.Paging.TemporaryUnmap | src/kernel/x86/paging.c:166-179 | empties an occupied slot; an empty one is a panic and excluded |
| PagingUnit.Paging.EnsurePageTable | src/kernel/x86/paging.c:350-369 | a missing page table comes zeroed from the frame allocator; no frame is the panic |
| PagingUnit.Paging.Map | src/kernel/x86/paging.c:340-384 | the tables and the reply are those of MapAddress; the slots are as they were |
| PagingUnit.Paging.Unmap | src/kernel/x86/paging.c:260-293 | likewise for UnmapAddress |
| PagingUnit.Paging.DoesMappingExist | src/kernel/x86/paging.c:395-419 | the physical address behind a virtual one, or none; nothing changes |
| PagingUnit.Paging.MapContinous | src/kernel/x86/paging.c:307-326 | page by page from the first, stopping at the first refusal |
| PagingUnit.Paging.SetupPageDirectory | src/kernel/x86/paging.c:428-473 | for every combination of flags: a directory, new or given, with or without the kernel's entries and the recursive entry; both slots are empty again |
| PagingUnit.Paging.DeletePageDirectory | src/kernel/x86/paging.c:481-515 | frees the page tables, with or without those of the kernel half, and the directory; the internal slot is empty again exactly if no kpmm_free in the loop was refused |
| AddressSpaces.DetectionIsExactUnlessEnclosing | src/kernel/vmm.c:98-104 | the two-ends overlap test sees every overlap but strict enclosure |
| AddressSpaces.AddSpaceIsExact | src/kernel/vmm.c:56-120 | a request that encloses nothing is accepted exactly when it overlaps nothing; the list stays sorted, disjoint, aligned and in bounds |
| AddressSpaces.AcceptedIsSoundUnlessEnclosing | src/kernel/vmm.c:98-104 | an accepted request spoils the list exactly when it encloses an existing space |
| AddressSpaces.AddSpaceAnswers | src/kernel/vmm.c:56-120 | for every request: which error it gets and exactly when, where the list takes it, and that it is accepted exactly if none of the spaces the search looks at is in its way |
| AddressSpaces.EnclosingRequestIsAccepted | src/kernel/vmm.c:98-104 | such a request: three pages around one reserved page |
| AddressSpaces.FindNextIsFirstFit | src/kernel/vmm.c:122-171 | on a non-empty list the lowest address whose range is free and in bounds, 0 exactly when there is none |
| AddressSpaces.FindNextOnEmptyList | src/kernel/vmm.c:127-129 | on an empty list the answer is right exactly when the range fits, with an input where it is not |
| AddressSpaces.FindVasIsUnique | src/kernel/vmm.c:173-189 | at most one space covers an address, and the search finds it |
| AddressSpaces.FoundPlaceIsAccepted | src/kernel/vmm.c:326-376 | a request put where the search said is accepted |
| AddressSpaces.StackHasGuards | src/kernel/x86/process.c:329-361 | the three reservations of a stack succeed exactly when there is room, on an empty list as well, and leave a never-backed space directly on both sides |
| Contexts.ReleasePagesIsReleaseRun | src/kernel/vmm.c:424-444 | the address loop of kvmm_free is a loop over page numbers |
| Contexts.DeletionEndsUnlessStatic | src/kernel/vmm.c:243-255 | the loop of kvmm_delete, if the kernel does not halt in it: empties the list in one round a space, or never ends, and that exactly if a space is static |
| Contexts.StaticHeadStays | src/kernel/vmm.c:243-255 | a list that begins with a static space: no number of rounds changes anything |
| Contexts.FreeSpaceRefuses | src/kernel/vmm.c:398-416 | an address in no space and a static space are refused, each with its error, and nothing changes |
| Requests.MapRunHaltsExactly | src/kernel/x86/paging.c:307-326 | a run of mappings halts exactly if its unmapped pages lack more page tables than there are free frames |
| Requests.CommitIsExact | src/kernel/vmm.c:191-229 | for every request, with or without a physical address: exactly when a commit halts, succeeds and lacks memory, and that a success translates the whole range from *outPA on and nothing else |
| Requests.MemmapAnswers | src/kernel/vmm.c:326-376 | the answer is the address asked for or the lowest with room, with exactly that range added to the list in order, and 0 on failure; without a commit it succeeds exactly on an acceptable request |
| Requests.MemmapBacks | src/kernel/vmm.c:365-375 | with an immediate commit: the outcome is that of the commit at the place, the space is in the list in any case, and a success backs the answered range |
| Faults.CommitPageIsExact | src/kernel/vmm.c:479-506 | kvmm_commitPage succeeds exactly on an address backed on demand, if there are frames; each refusal has its cause, changes nothing, and one new page is the only change otherwise |
| Faults.DirtyFaultOnlySynchronises | src/kernel/x86/interrupts.c:141-151 | a kernel address while the flag is set: the run returns, all processes are in step, the flag is reset, nothing else changes |
| Faults.PresentFaultIsFatal | src/kernel/x86/interrupts.c:156-164 | every other fault on a present page is fatal and changes nothing |
| Faults.KernelFaultIsExact | src/kernel/x86/interrupts.c:130-164 | a not-present fault on a kernel address is resolved exactly on an address backed on demand, if there are frames, with everybody in step; any other address is fatal and changes nothing |
| Faults.UserFaultIsExact | src/kernel/x86/interrupts.c:130-164 | the same in a process, where exactly one page is new, in a frame that was free |
| VirtualMemory.KvmmNew | src/kernel/vmm.c:262-299 | refused exactly for an empty range or without memory; else a context with its bounds and directory, an empty list and whatever dirty flag memory held |
| VirtualMemory.VMemoryManager.AddNewVirtualAddressSpace | src/kernel/vmm.c:56-120 | the list and the error are those of AddSpace; a refused request leaves the list |
| VirtualMemory.VMemoryManager.FindNextVa | src/kernel/vmm.c:122-171 | the address is that of FindNext |
| VirtualMemory.VMemoryManager.FindVasAt | src/kernel/vmm.c:173-189 | the first space that covers the address |
| VirtualMemory.VMemoryManager.CommitVirtualPages | src/kernel/vmm.c:191-229 | memory, dirty flag and outcome are those of Commit; no nested call meets an occupied slot, both are empty at the end |
| VirtualMemory.VMemoryManager.MemMap | src/kernel/vmm.c:326-376 | likewise for Memmap |
| VirtualMemory.VMemoryManager.ReleaseRange | src/kernel/vmm.c:424-444 | the page loop of kvmm_free with the directory in the external slot |
| VirtualMemory.VMemoryManager.Free | src/kernel/vmm.c:398-451 | memory, list and outcome are those of FreeSpace, slots empty again |
| VirtualMemory.VMemoryManager.DeleteSpaces | src/kernel/vmm.c:231-260 | the list is drained from its head, page by page |
| VirtualMemory.VMemoryManager.CommitOnePage | src/kernel/vmm.c:479-506 | the page of the address is backed, unless its space is committed, never backed or missing |
| VirtualMemory.VMemoryManager.IsPageDirectoryDirty | src/kernel/vmm.c:517-525 | reads the dirty flag and resets it |
| VirtualMemory.SyncAllDirectories | src/kernel/x86/process.c:836-858 | every queued directory receives the kernel's entries |
| VirtualMemory.PageFaultHandler | src/kernel/x86/interrupts.c:130-162 | sync, commit, or fatal, with memory and flags as the value model says |
| Ownership.MapUserPage | src/kernel/x86/paging.c:340-384 | mapping a loose frame for a user gives it, and the page table if one is new, to that context; all other owners stay |
| Ownership.TableForPage | src/kernel/x86/paging.c:340-384 | the table a user page needs comes from a frame that had no owner |
| Lifecycle.MapUserPages | src/kernel/vmm.c:191-229 | a run of user pages: ownership and coherence are kept, on success the run is mapped, on failure only a part of it |
| Lifecycle.MapKernelPages | src/kernel/vmm.c:191-229 | a run of kernel pages: each new frame is the page it was taken for or a table that the kernel directory holds |
| Birth.CommitUserPages | src/kernel/vmm.c:191-229 | committing for a user keeps one owner per frame; nothing is left unattached unless a page was mapped before |
| Birth.CommitKernelPages | src/kernel/vmm.c:191-229 | committing for the kernel adds only frames that it reaches as tables or pages, and raises the dirty flag |
| Reclaim.ReleaseUserPage | src/kernel/vmm.c:424-444 | the frame of a mapped user page becomes free and loses its owner; every other frame and owner stays |
| Reclaim.ReleaseUserRun | src/kernel/vmm.c:424-444 | the same over the whole range of a space, mapped or not |
| Reclaim.FreeUserSpace | src/kernel/vmm.c:398-451 | releasing a space returns its frames and removes it from the list; the loop cannot halt |
| FreeInside.ReleaseVisited | src/kernel/vmm.c:424-444 | the page loop from any page address, wrap-around included: if no kernel page is mapped where it comes by, it goes through and exactly the visited pages are gone |
| FreeInside.UnfreeableHalts | src/kernel/vmm.c:429-443 | the loop halts at a mapped page whose frame cannot be given back |
| FreeInside.FreeIsExactOnlyOnCommonPages | src/kernel/vmm.c:398-451 | kvmm_free at any address that a space covers removes exactly the space's pages if and only if the address is the first one, or no page is mapped that only one of the space and the loop has (and none at all for an address inside a page) |
| FreeInside.FreeInsideLosesKernelPage | src/kernel/vmm.c:398-451 | an address at which kvmm_free reports success and takes a committed kernel page away from everybody |
| Reclaim.DrainUser | src/kernel/vmm.c:231-260 | draining all spaces terminates with every page of the context released |
| Reclaim.FreeUserTables | src/kernel/x86/paging.c:496-508 | the loop over the user entries frees exactly the context's page tables, no shared kernel table |
| Reclaim.DeleteUserPd | src/kernel/x86/paging.c:481-515 | deleting the directory of a drained context cannot fail, neither in the loop over its tables nor behind it, and leaves nothing of it |
| Reclaim.DestroyUser | src/kernel/x86/process.c:491-505 | kvmm_delete then kpg_deletePageDirectory frees exactly the context's frames: no leak, no double free |
| Coherence.SyncOne | src/kernel/x86/paging.c:454-469 | a sync of one directory makes its kernel half equal and never touches its user half or any frame state |
| Coherence.SyncEveryone | src/kernel/x86/process.c:836-858 | syncing the queue brings every process in step |
| Coherence.InStepSeesKernel | src/kernel/x86/paging.c:454-469 | a directory in step translates every kernel page as the kernel does |
| Coherence.BehindSeesLess | src/kernel/x86/interrupts.c:142-162 | a directory that is behind translates a kernel page as the kernel does or not at all |
| Coherence.CreateUser | src/kernel/x86/process.c:204-235 | a new context owns exactly its directory and starts in step |
| KernelRuns.ReserveKeeps | src/kernel/vmm.c:326-376 | a reservation, lazy or committed at once, keeps ownership and coherence |
| KernelRuns.ReserveKernelKeeps | src/kernel/vmm.c:326-376 | the same for the kernel context |
| KernelRuns.FaultKeeps | src/kernel/x86/interrupts.c:130-162 | a handled fault keeps ownership and coherence |
| KernelRuns.CreateKeeps | src/kernel/x86/process.c:204-235 | so does creating a context; when its bookkeeping object cannot be allocated, every frame is back |
| KernelRuns.KillKeeps | src/kernel/x86/process.c:491-505 | so does destroying one |
| KernelRuns.StepKeeps | src/kernel/x86/interrupts.c:142-162 | every operation that returns keeps one owner per frame and lazy coherence |
| KernelRuns.ReachableStatesAreCoherent | src/kernel/x86/interrupts.c:142-162 | both hold in every reachable state |
| KernelRuns.CleanMeansSharedKernel | src/kernel/vmm.c:517-525 | in a reachable state with a clean flag every process translates every kernel page as the kernel does |
| KernelRuns.KillReturnsFrames | src/kernel/vmm.c:231-260 | a kill frees the frames its context owned and changes no other frame |
| KernelRuns.UserFaultIsResolved | src/kernel/x86/interrupts.c:130-162 | with frames available, one handler run backs a lazily reserved user page |
| KernelRuns.KernelFaultIsResolved | src/kernel/x86/interrupts.c:142-162 | with a clean flag, one run backs a lazily reserved kernel page in the kernel and in the faulting process alike |
| KernelRuns.DirtyFaultSynchronises | src/kernel/x86/interrupts.c:142-150 | with a dirty flag the handler only syncs: the faulting process then sees what the kernel has |
| KernelRuns.KernelFaultTakesAtMostTwoRuns | src/kernel/x86/interrupts.c:130-162 | a fault on a reserved or stale kernel page is resolved after at most two runs |
| KernelRuns.GuardFaultIsFatal | src/kernel/vmm.c:479-506 | a process's fault on a guard page is fatal and changes nothing |
| KernelRuns.KernelGuardFaultIsFatal | src/kernel/x86/interrupts.c:130-162 | so is anybody's on a guard page of the kernel; with a dirty flag the first run only synchronises and the second is fatal |
| Conservation.NullPagesAreNeverBacked | src/kernel/vmm.c:479-506 | in no reachable state is a guard page translated: not in its process, and for one of the kernel nowhere |
| Conservation.FramesAreBootAndReached | src/kernel/vmm.c:231-260 | no frame is lost: in a sane state a frame is USED exactly if it was at boot, or was free then and is reached now; every other frame is as at boot |
| Conservation.ReachedOnce | src/kernel/x86/paging.c:340-384 | no frame is shared: two uses of one frame are both the kernel's, of a frame that was not free at boot |
| Conservation.RunsConserveFrames | src/kernel/x86/process.c:491-505 | after any run whose processes are gone and that left the kernel half as it was, all frames are as they were |
| LostFrames.MapRunStops | src/kernel/x86/paging.c:307-326 | a run of mappings maps exactly the pages in front of the first mapped one |
| LostFrames.CommitLosesFramesExactlyWhenMapped | src/kernel/vmm.c:191-229 | a commit of any length that does not halt fails exactly if a page of its range was mapped; which pages stay mapped and which frames are lost |
| LostFrames.EnclosingRequestLosesFrames | src/kernel/vmm.c:326-376 | an accepted request that loses two frames |
| LostCoherence.MapRunEntries | src/kernel/x86/paging.c:307-326 | a run of mappings adds directory entries for the pages it maps, changes no other entry and no frame in use outside the directory and its tables |
| LostCoherence.CommitKeepsCoherenceExactlyWhenSafe | src/kernel/vmm.c:191-229 | a kernel commit that does not halt keeps lazy coherence if and only if it is safe, a condition on the state before the call |
| LostCoherence.KernelRequestKeepsCoherenceExactlyWhenSafe | src/kernel/vmm.c:326-376 | the same for every kvmm_memmap request in the kernel |
| LostCoherence.EnclosingKernelRequestBreaksCoherence | src/kernel/vmm.c:219-228 | an accepted kernel request, in a sane and coherent state, that ends in an incoherent one |
| FrameChanges.ChangeTakes | src/kernel/pmm.c:50-68 | frames only go back and forth between FREE and USED |
| KernelRuns.BootStateIsSane | src/kernel/x86/kernel.c:325-401 | without processes, and with only reserved pages mapped to frames that are not free, the invariants hold for the frames in use at that moment |
| KernelRuns.LiveContextHasDirectory | src/kernel/x86/process.c:394-396 | the directory of a live context is USED, as switching asserts |
| HeapModel.MallocKeeps | src/kernel/kmalloc.c:102-124 | the tiling and the lists stay right; NULL exactly when no free section holds the request and two headers; else one new live section of exactly the size |
| HeapModel.FreeKeeps | src/kernel/kmalloc.c:133-154 | the same for kfree, which succeeds exactly on the payload of a live section and gives back that section only |
| HeapModel.MallocTakesFirst | src/kernel/kmalloc.c:102-124 | the first section on the free list that is large enough is taken, its remainder takes its place there |
| HeapModel.FreedGoesFirst | src/kernel/kmalloc.c:133-221 | a freed section goes to the head of the free list, a free next one leaves it, a free previous one swallows it; the others keep their order |
| HeapModel.CmMallocKeeps | src/cm/malloc.c:84-107 | the twin keeps the heap in order, and returns NULL exactly for an empty request or without room |
| HeapModel.FirstFitIsExact | src/kernel/kmalloc.c:252-282 | the search fails exactly when every free section is too small |
| HeapModel.SplitKeeps | src/kernel/kmalloc.c:284-299 | a split turns one free section into a live one and a free one with room for its header |
| HeapModel.MergeKeeps | src/kernel/kmalloc.c:207-220 | merging two free neighbours keeps tiling, lists and live sections |
| HeapModel.CombineKeeps | src/kernel/kmalloc.c:184-221 | after a free, no two neighbouring sections are both free and the last one is free |
| HeapModel.RunKeeps | src/kernel/kmalloc.c:102-154 | over any run the invariant holds and a live section stays where and as it is until its payload is given back |
| HeapModel.LiveSectionsAreApart | src/kernel/kmalloc.c:102-124 | two live sections never overlap and lie in the buffer |
| HeapModel.ListsFillBuffer | docs/notes/kmalloc.md:41-44 | the sizes on the free and the allocated list add up to the buffer |
| HeapModel.FreeUndoesMalloc | src/kernel/kmalloc.c:102-154 | kfree after kmalloc restores the sections and the allocated list |
| HeapModel.GrantIsSoundUnlessWrapped | src/kernel/kmalloc.c:102-124 | with all sums modulo 2^32 a granted request keeps the heap in order exactly if its size and two headers fit |
| HeapModel.WrappedRequestIsGranted | src/kernel/kmalloc.c:102-124 | such a request on every fresh heap: granted, and the heap is out of order |
| HeapModel.EmptyIsInit | src/kernel/kmalloc.c:184-221 | without live sections one free section spans the buffer |
| HeapModel.FreeingAllRestoresBuffer | src/kernel/kmalloc.c:133-221 | freeing every live block in any order ends in the heap of kmalloc_init |
| IntrusiveList.ListNode.constructor | include/intrusive_list.h:14-18 | a node alone is an empty ring |
| IntrusiveList.ListIsEmpty | include/intrusive_list.h:20-23 | true exactly when the ring has no nodes |
| IntrusiveList.ListAddBefore | include/intrusive_list.h:25-31 | the ring gains the item in front of the node, all other links hold |
| IntrusiveList.ListAddAfter | include/intrusive_list.h:33-39 | the ring gains the item behind the node |
| IntrusiveList.ListRemove | include/intrusive_list.h:41-47 | the ring closes over the removed item, whose links are cleared |
| IntrusiveList.Enqueue | include/intrusive_queue.h:5-8 | the item becomes the last |
| IntrusiveList.Dequeue | include/intrusive_queue.h:10-18 | the first item leaves, null on an empty queue |
| KernelHeap.KMallocInit | src/kernel/kmalloc.c:48-72 | three circles, one free section |
| KernelHeap.FindFirst | src/kernel/kmalloc.c:252-282 | the first header of a list that meets the criteria, null exactly when none does |
| KernelHeap.KMalloc.SplitFreeNode | src/kernel/kmalloc.c:284-299 | the remainder takes the place of the front on the free list and follows it on the adjacent list; its asserts hold |
| KernelHeap.KMalloc.CombineAdjFreeNodes | src/kernel/kmalloc.c:184-221 | the pointers spell out what Combine says |
| KernelHeap.KMalloc.Malloc | src/kernel/kmalloc.c:102-124 | the pointers stay three circles and spell out what the value model of kmalloc says |
| KernelHeap.KMalloc.Free | src/kernel/kmalloc.c:133-154 | likewise for kfree |
| KernelHeap.KMalloc.GetUsedMemory | src/kernel/kmalloc.c:161-182 | the sizes on the allocated list, which with the free ones make the buffer; its assert holds |
| KernelHeap.KMalloc.CmMalloc | src/cm/malloc.c:84-107 | the twin: kmalloc but for empty requests, which it refuses |
| KernelHeap.KMalloc.OnOneList | src/kernel/kmalloc.c:284-299 | every header is on the free or the allocated list, as its flag says |
| Boot.GetPhysicalBlockPageCount | src/kernel/x86/kernel.c:294-309 | the longest run of one state from a frame, up to the end; with no INVALID frame up to and behind the end its panic cannot happen |
| Boot.FreeFrameDone | src/kernel/x86/kernel.c:372-376 | a free frame's page is unmapped, which cannot fail |
| Boot.RunDone | src/kernel/x86/kernel.c:377-383 | a run of frames that are not free becomes one address space, which cannot fail |
| Boot.InitializeMemoryManagers | src/kernel/x86/kernel.c:360-387 | with no INVALID frame in the window or directly behind it the loop meets neither its panic nor its unreachable branch and terminates with the whole window done |
| Boot.WindowAgrees | src/kernel/x86/kernel.c:317-319 | each frame of the window is free, unmapped and unreserved, or mapped and in exactly one space, a maximal run of one state |
| Boot.BootEndsSane | src/kernel/x86/kernel.c:325-401 | the state after boot satisfies the invariants of the state machine, with the boot map as the frames that are the kernel's |
| Processes.ProcessTable.Create | src/kernel/x86/process.c:566-659 | refused exactly at the limit, for a thread without parent and for a second root; else one process at the end of the queue under its creator; a refusal changes nothing |
| Processes.ProcessTable.ChangeParent | src/kernel/x86/process.c:547-559 | a process moves from one list of children to the end of another |
| Processes.ProcessTable.Kill | src/kernel/x86/process.c:425-544 | refused exactly for the root; else exactly the process and the threads whose parent it is leave, other children go to the root in order, its context is deleted with it, the tree stays whole |
| Processes.ProcessTable.SharersAre | src/kernel/x86/process.c:566-659 | who runs in the context of a process: itself and its threads |
| Processes.ProcessTable.ReleaseChildren | src/kernel/x86/process.c:463-486 | the loop that always restarts at the list head terminates with no children left |
| Processes.ProcessTable.Yield | src/kernel/x86/process.c:661-692 | terminates, never fails to queue again, runs the first process of another PID and rotates the queue up to it |
| Processes.ProcessTable.SwitchTo | src/kernel/x86/process.c:364-417 | a switch leaves one running process; the root is set by its first switch |
| Processes.ProcessTable.Exit | src/kernel/x86/process.c:694-771 | without destroyContext exactly the current process and its threads leave, and a thread's parent stays; with it exactly those who run in the current context, which is deleted; refused exactly for the root; the next process runs |
| Processes.ProcessTable.ThreadsAreChildless | src/kernel/x86/process.c:509 | a process with children is no thread |
| Processes.ProcessTable.ContextIsLive | src/kernel/x86/process.c:394-396 | no live process runs in a deleted context |
| Processes.ProcessTable.DescendsFromRoot | src/kernel/x86/process.c:547-559 | every live process descends from the root |
| Processes.ProcessTable.SomeoneElse | src/kernel/x86/process.c:678-687 | yield's loop always meets a process to stop at, because the root's PID is its own |
| Processes.RunsWithinItsPosition | src/kernel/x86/process.c:661-692 | while its PID is its own, a process at position i runs within i + 1 yields, whatever is created and killed meanwhile |
| Starvation.OneYieldRuns | src/kernel/x86/process.c:678-687 | one yield runs a process exactly if its PID is not the running one's and all in front of it have that |
| Starvation.PassRunsIffPidDiffersInFront | src/kernel/x86/process.c:678-687 | over yields the pass that reaches a process runs it exactly if the one in front has another PID, and no earlier yield does |
| Starvation.StuckForEver | src/kernel/x86/process.c:678-687 | behind a process with the same PID, with one other left, a process never runs |
| Starvation.SharePid | src/kernel/x86/process.c:134-541 | creating, ending and creating reaches that state |
| JointState.QueueReachesAll | src/kernel/x86/process.c:836-858 | the contexts of the queue are exactly the live ones |
| JointState.SwitchAssertionHolds | src/kernel/x86/process.c:394-396 | the directory of every queued process is USED |
| JointState.FaultKeepsJoined | src/kernel/x86/interrupts.c:130-162 | a fault with the real queue is a legal step and keeps the two halves together |
| JointState.CreateProcess | src/kernel/x86/process.c:566-659 | creating a process and its context keeps them together; when the queue refuses it, every frame is as before |
| JointState.EndProcess | src/kernel/x86/process.c:694-771 | so does ending one with its context |
| JointState.DeleteAgain | src/kernel/x86/process.c:656-658 | a context that is created and deleted again leaves contexts and frame states as they were |
| JointState.Perform | src/kernel/x86/process.c:566-771 | one action on the table, the memory system or both (create a process or a thread, yield, exit, fault, reserve, unreserve) keeps them together |
| JointState.RunTogether | src/kernel/x86/process.c:364-417 | over any run of such actions: they stay together, and the assertion of the process switch holds for every queued process |
| Formats.DigitsParseBack | src/kernel/printk.c:263-282 | the digits read back as the number, without a leading zero |
| Formats.DigitsFitOutput | src/kernel/printk.c:267-274 | never more than 64 digits |
| Conversions.ConversionMeans | src/kernel/printk.c:161-260 | for every format that begins with a conversion: which argument it reads, that what it shows is the numeral of the argument in the base of its letter, modulo 2^64 or 2^32 as the modifiers say, with the letter behind it (or the string, or %, or the text itself), and that the rest follows |
| Conversions.LiteralMeans | src/kernel/printk.c:147-154 | any other character stands for itself, and the rest follows |
| Conversions.DocumentedConversions | src/kernel/printk.c:112-120 | the table in the documentation, for a 32-bit argument |
| Formats.ExecCounts | src/kernel/printk.c:130-159 | size_left counts the full output, and only a cut-off conversion runs past the format |
| Formats.ExecIs | src/kernel/printk.c:130-159 | what is stored is the output truncated, exactly when no %% meets the last place |
| Formats.PrintsExactly | src/kernel/printk.c:130-159 | the promise of the function and its exact condition, for all formats, arguments and sizes |
| Formats.UncheckedPercentOverflows | src/kernel/printk.c:250-253 | a format whose %% pushes the terminator out of the buffer |
| Formats.LonePercentOverruns | src/kernel/printk.c:147-154 | a lone % at the end of a format |
| Printing.MakeDigits | src/kernel/printk.c:263-274 | the digit loop, last digit first, inside its 65 places |
| Printing.Output.Itoa | src/kernel/printk.c:263-282 | stores the digits behind the size check |
| Printing.Output.AddBaseIdentifier | src/kernel/printk.c:199-208 | stores the base letter behind the size check |
| Printing.Output.Convert | src/kernel/printk.c:210-260 | one conversion stores what its piece means, or reports a literal |
| Printing.ReadTypeAt | src/kernel/printk.c:161-174 | the modifiers and the conversion character after a % |
| Printing.Vsnprintf | src/kernel/printk.c:130-159 | the buffer holds what Exec stores and a terminator, the rest is untouched, the result is the length of the full output |

## Left out

- The global error number and the messages: an operation reports its error in its result.
- Permission and cache bits of page-table entries, TLB invalidation, CR3 loads, register state and stack switching.
- Mappings of a caller-supplied physical address and shared spaces (VMemoryShare): `Commit` takes such an address, the state machine does not offer it.
- Rounding of firmware memory maps (s_markFreeMemory): any initial bitmap without free frames past usable memory.
- kvmm_free on the kernel context is not a step of the state machine: its callers release spaces of process contexts only.
- VirtualMemory.VMemoryManager.DeleteSpaces: not for lists on which a kvmm_free fails, where the loop of the source never ends; `DeletionEndsUnlessStatic` says on the value model which those are, and process contexts never have one (`DrainUser`).
- AddressSpaces.StackHasGuards: the immediate commit of a kernel process's stack is not part of it.
- PhysicalMemory.Pmm.AllocAt: a page count so near 2^32 that its sum with the first frame number wraps as well is refused here, where the source can also fail an assertion of bitmap_get.
- KernelHeap.KMalloc.Malloc: not for sizes whose sum with two headers wraps around; `GrantIsSoundUnlessWrapped` says on the value model what happens then.
- KernelHeap.KMalloc.CmMalloc: the same.
- The entries of the temporary-map slots are fields of the class; the page table they live in is not part of simulated memory.
- Wrap-around of 32-bit sums: the heap methods exclude it by a stated bound, mappings end below 4 GiB by precondition, the wraps in the range check of the frame allocator and in the loop of kvmm_free are modelled, and everywhere else numbers are unbounded.
- Reading an argument of another type than the conversion asks for: the arguments fit the format (`ArgsFit`).
- Formats and strings are the characters before the terminator, and source and destination never overlap.
- Processes.ProcessTable.Create: allocation of memory succeeds, because the failure path of kprocess_create reads an uninitialised parent; the refusal at the queue limit is modelled.
- JointState.CreateProcess: the frame of the directory can be allocated, for the same reason.
- Processes.ProcessTable.Kill: events, exit codes and registers are left out, and freeing a thread's stack is not tied to the address-space list; the guard pages around a killed thread's stack stay reserved in the source.
- A process names its context; `JointState` ties the table to the memory system by these names, and program loading and stack set-up are not part of creating a process.
- Lists of spaces, children and processes are sequences, not rings: the ring discipline is proved once, for `IntrusiveList` and the heap that threads three of them.
- Process creation counts as one step: during it the kernel directory gains no entry, because a process that is not queued yet is not synchronised.
- KernelHeap.KMallocHeader: a header that a merge swallowed is dropped and a new one is a new object at its address; reuse of its bytes is not modelled.
- Loading of programs, data sections, the event queue, boot-file accounting before the boot loop, and the two reservations after it: easy members.
- cm_free and the twin format engine in the application library are the same code and share the models.
