# crepOS kernel: a verified model

This project models the stateful core of the crepOS x86-64 kernel in Dafny and proves what its
code keeps over every input and every run: the page-table manager, the multicore scheduler, the
NVMe queue pair, the physical and slab allocators, the ext2 block map with file reads and
writes, the size-class choice of `kmm::alloc` and the path tokenizer.

Each component has a layer of values (datatypes, functions, lemmas about whole runs) and, where
the kernel updates memory in place, classes and methods whose postconditions equate the new
state with the value-level function. Everything proved of the functions therefore holds of the
loops and pointer updates.

| files | component |
|---|---|
| `PageEntry`, `PageTable`, `FlatMap`, `AddressSpaces`, `FiveLevel`, `VirtualAddress`, `Vmm`, `ManualWalk`, `LeafCells`, `Boot` | page tables (`kernel/mm/vmm.cpp`, `kernel/mm/vmm.hpp`) |
| `Scheduler`, `SchedulerSafety`, `SchedulerRuns`, `SchedulerFairness`, `SchedulerStalls`, `SchedulerThreads`, `SchedulerBound`, `SchedulerCreation`, `SchedulerCore` | scheduler (`kernel/sched/scheduler.cpp`, `kernel/lib/map.hpp`) |
| `NvmeQueue` | NVMe queue pair (`kernel/drivers/nvme/nvme.cpp`) |
| `Pmm` | physical pages (`kernel/mm/pmm.cpp`) |
| `Slab`, `SlabLists`, `KernelHeap`, `Pow2`, `KmmAlloc` | slab caches and `kmm::alloc` (`kernel/mm/slab.cpp`, `kernel/lib/memutils.hpp`) |
| `BlockGroups`, `Ext2`, `BlockIo`, `Ext2Files`, `Ext2Growth`, `Ext2Inode` | ext2 block allocator, block map and file I/O (`kernel/fs/ext2/inode.cpp`, `block.cpp`, `ext2.cpp`) |
| `PathTokens` | path tokenizer (`kernel/fs/vfs.cpp`, `kernel/lib/string.cpp`) |
| `KernelMemory` | page tables, slabs and other pages over one page allocator |
| `Arithmetic`, `Wrappers` | shared division facts and the option type |

## How the parts are modelled

**Page tables.** Memory holds tables by page number and a pool of frames that `pmm::calloc(1)`
will return. A path is the list of indices from the top table, so four and five levels are one
recursion. The specification is the walk of section 4.5 of the Intel SDM, Volume 3A. The
invariant `Shaped` gives every table one position in one tree, which rules out aliasing; a
`View` is what the slots along a path hold, without saying where tables lie. The link to flat
translations goes through views: a `map` call changes the view of any path as `Fill` says, and
`Fill` means adding one leaf.

**Pages.** All bitmaps lie in one buffer, with the chunk nodes between them, as `pmm::init` lays
them out; the state is the set of bits of that buffer, so a scan or a marking that leaves its
bitmap meets the next one. The invariant speaks of page bits only, and a run may change every
other bit of the buffer at any time. Slabs (`KernelHeap`) and page tables (`KernelMemory`) take
their pages from this allocator.

**Scheduler.** A state is the task list in insertion order, the CPU records with FS, GS and the
swapped-out GS base, and the two counters. Steps are creating a task, creating a thread, a tick
on any CPU, and code running on a CPU between ticks. `core_local()` is taken to return the
record of the calling core, which is what the GS set-up at `kernel/sched/smp.cpp:26` and `:72`
is for; the index is in fact read from `gs:0` at `kernel/sched/smp.cpp:96`.

**NVMe.** Driver and controller take interleaved steps. The controller follows sections 4.1 and
4.6 of NVM Express 1.4: it fetches between its head and the doorbell, completes commands in any
order, never overruns the completion head doorbell, and inverts its phase on every lap.

**Results that differ from what a reader may expect.** Each is kept as the code has it, and the
exact condition is proved.

- `unmap` clears the present bit only, so the page can be mapped again just when the entry
  becomes zero (`FlatMap.RemapAfterUnmap`).
- After an error status `cq_head` stays, and every later `send_cmd` returns that same entry
  (`NvmeQueue.OwnCompletionUntilError`).
- `mem_chunk::alloc` bounds the first page of a run but not the last, so `pmm::alloc` hands out a
  run that lies in its chunk just when the first chunk with an aligned free run has one that ends
  inside it (`Pmm.ChoiceIff`, `Pmm.ListOverrunExample`); a longer overrun marks pages of the next
  chunk (`Pmm.OverrunMarksNext`).
- `free_obj` finds an object just when it lies in the open slab or in the first full slab
  (`Slab.FreeFindsIff`, `Slab.LostObjectReached`). It never raises `available_objects`, so a cache
  fills one slab for every 256 allocations whatever is freed (`Slab.FullSlabsCountAllocations`).
- `align_up` divides signed words towards zero, so a slab in the upper half of the address space
  has its buffer 16 bytes behind the first aligned byte (`Slab.BufferIs`).
- The block allocator of ext2 reads and writes descriptor `i / inodes_per_group` for group `i`. The
  block it hands out is the one whose bit it sets just when descriptor 0 has a block to give, no
  reached one has, or a group has one inode (`BlockGroups.HandsOutMarkedIff`); otherwise it can hand out a taken block
  (`BlockGroups.ForeignBlockExample`) or fail beside free groups
  (`BlockGroups.UnreachedGroupExample`).
- A task without a thread stops every task behind it (`SchedulerStalls.ChosenIffThreadsAhead`),
  and a task made in the place of an older placeholder can overtake a task that was made before it
  (`SchedulerStalls.PlaceholderOvertakes`).
- `set_block` on a singly indirect index reports success without storing the block number
  (`Ext2.SetBlockSets`, `Ext2.SingleInsertIsLost`), so a file that grows there writes its data to
  block 0 (`Ext2Growth.GrowOneOkIff`).
- `pow2_roundup` is exact just when the size less one has no 32 zero bits in a row below its
  highest bit, and `kmm::alloc` serves some requests above 2^63 from the 32-byte cache
  (`Pow2.RoundupIsLeastPower`, `KmmAlloc.LargeRequests`).

## Model

| member | source | states |
|---|---|---|
| `PageEntry.SetPaBits` | kernel/mm/vmm.hpp:73-89 | Setting the cache attributes of a leaf changes neither its frame nor the present bit nor, above 4 KiB, the page-size bit. |
| `LeafCells.SetPaIndex` | kernel/mm/vmm.hpp:73-89 | The PAT index that the processor reads off the leaf (4 PAT + 2 PCD + PWT) becomes the three low bits of the argument, and no other flag and no other frame bit changes. |
| `PageTable.MapKeepsShape` | kernel/mm/vmm.cpp:125-191 | A `map` call with zeroed fresh frames keeps every table at one position of one tree, never relabels a table, and writes only cells on its own path. |
| `PageTable.UnmapKeepsShape` | kernel/mm/vmm.cpp:193-209 | An `unmap` call keeps the same tree shape and writes only on its own path. |
| `PageTable.MapView` | kernel/mm/vmm.cpp:125-191 | After a `map` call every path sees exactly the old slots, with the prefix it shares with the mapped path replaced by the filled slots. |
| `PageTable.UnmapView` | kernel/mm/vmm.cpp:193-209 | The same for `unmap` and the hidden leaf. |
| `PageTable.WalkIsTranslation` | kernel/mm/vmm.cpp:28-123 | On a tree-shaped memory the processor's walk gives, for every address, the translation that the slots along its path describe. |
| `ManualWalk.PathIndices` | kernel/mm/vmm.hpp:227-232 | Each index of a path is the nine address bits that select the entry of its level. |
| `ManualWalk.WalkIsAddressWalk` | kernel/mm/vmm.cpp:28-123 | Walking the indices that the source computes gives what the manual's walk on the bits of the address gives, frames and offsets included. |
| `FlatMap.MapRawTranslates` | kernel/mm/vmm.cpp:399-413 | One `map_page_raw` call adds exactly the 4 KiB or 2 MiB translation of the entry made from address and flags, if the leaf slot was spare, and leaves the translation of every other address as it was. |
| `FlatMap.MapRawKeepsTranslations` | kernel/mm/vmm.cpp:399-413 | An address that already translates never changes its physical address by a `map_page_raw` call. |
| `FlatMap.UnmapTranslates` | kernel/mm/vmm.cpp:193-209 | `unmap` makes exactly the addresses of the leaf fault and changes no other translation. |
| `FlatMap.RemapAfterUnmap` | kernel/mm/vmm.cpp:193-209 | After `unmap` the page faults, and a new `map_page_raw` brings a translation back if and only if the old entry was frame 0 with only the present bit and the new leaf is 4 KiB. |
| `LeafCells.MapRawMakes` | kernel/mm/vmm.cpp:399-413 | On a spare slot the path ends in a leaf of 4 KiB or 2 MiB that holds exactly the frame, flags and PAT index asked for; new tables on the way have the table flags, old ones keep theirs. |
| `LeafCells.MapRawKeeps` | kernel/mm/vmm.cpp:399-413 | On a path that ends in a present leaf only the PAT index of that leaf changes, to the one asked for; with -1 nothing does. |
| `LeafCells.SmallPageTranslates` | kernel/mm/vmm.cpp:180-184 | After a 4 KiB mapping of an aligned frame `w` in that page translates to `paddr + w % 0x1000`. |
| `LeafCells.LargePageTranslates` | kernel/mm/vmm.cpp:163-167 | After a 2 MiB mapping it translates to `paddr + w % 0x20_0000`. |
| `LeafCells.SpacePageTranslates` | kernel/mm/vmm.cpp:399-413 | The same for a call through an address space, with the page given by addresses instead of indices. |
| `VirtualAddress.SamePageIff` | kernel/mm/vmm.hpp:227-232 | Two addresses go through the same leaf slot if and only if they agree above the leaf offset, within the bits the table decodes. |
| `AddressSpaces.RunKeepsValid` | kernel/mm/vmm.cpp:499-517 | In every run of `create_generic`, `map_page_raw` and `unmap` through any space, tables stay unaliased and every space holds the kernel's entries in slots 256 and 511. |
| `AddressSpaces.SharedSlotsTranslateAlike` | kernel/mm/vmm.cpp:499-517 | Any two spaces translate every address of slots 256 and 511 alike. |
| `AddressSpaces.CreateAcrossSpaces` | kernel/mm/vmm.cpp:499-507 | A new space translates slots 256 and 511 as the kernel does and nothing else; every old space translates as before. |
| `AddressSpaces.MapAcrossSpaces` | kernel/mm/vmm.cpp:399-413 | A mapping through one space shows in that space, in every space when its slot is shared, and changes nothing else in any space. |
| `AddressSpaces.UnmapAcrossSpaces` | kernel/mm/vmm.cpp:193-209 | The same for removing a mapping. |
| `FiveLevel.CanonicalPath` | kernel/mm/vmm.hpp:279-285 | On a 48-bit canonical address the five-level indices are the four-level ones under slot 0 or 511 of the top table. |
| `FiveLevel.RunKeepsShape` | kernel/mm/vmm.cpp:446-460 | Every run of map and unmap calls on a four- or five-level table keeps it tree shaped. |
| `FiveLevel.MappingsPersist` | kernel/mm/vmm.cpp:399-413 | In every run of `map_page_raw` calls, an address that translates keeps its physical address. |
| `FiveLevel.FourAndFiveLevelsAgree` | kernel/mm/vmm.cpp:211-288 | A four- and a five-level table driven by the same calls on canonical addresses translate every canonical address alike. |
| `Vmm.PhysicalMemory.SetAttributes` | kernel/mm/vmm.hpp:73-77 | Three single-bit updates in place make the entry with the requested attributes. |
| `Vmm.PhysicalMemory.MapLevel` | kernel/mm/vmm.cpp:125-145 | One level of `map`, in place, either finishes the call or leaves exactly the rest of it to the table below. |
| `Vmm.Pml4Table.Map` | kernel/mm/vmm.cpp:125-191 | The in-place four-level `map` makes the memory that the recursive `map` gives. |
| `Vmm.Pml4Table.MapPageRaw` | kernel/mm/vmm.cpp:399-413 | `map_page_raw` in place, for 4 KiB and 2 MiB leaves. |
| `FlatMap.ShapedTraversable` | kernel/mm/vmm.cpp:78-123 | In a tree-shaped memory the walking constructor reaches the leaf of every path that has one. |
| `Vmm.Pml4Table.Unmap` | kernel/mm/vmm.cpp:193-209 | `unmap` in place: hides the leaf and returns its frame address. |
| `Vmm.Pml4Table.CreateGeneric` | kernel/mm/vmm.cpp:499-507 | A fresh zeroed top table with the kernel's two entries. |
| `Vmm.Pml5Table.Map` | kernel/mm/vmm.cpp:211-288 | The in-place five-level `map` makes the memory that the recursive `map` gives. |
| `Vmm.Pml5Table.MapPageRaw` | kernel/mm/vmm.cpp:446-460 | `map_page_raw` in place on five levels. |
| `Boot.BootTranslates` | kernel/mm/vmm.cpp:530-540 | After the boot loops a proper address translates from `kernel_high_vma + p` below 1 GiB, from `high_vma + p` below the total memory rounded down to 2 MiB, to `p`, and every other address faults, for every memory size whose windows do not meet. |
| `Boot.BootMaps` | kernel/mm/vmm.cpp:530-540 | By the manual's walk and in plain addresses: 0xffffffff80000000 + p below 1 GiB, and 0xffff800000000000 + p (0xff00000000000000 + p on five levels) below the mapped memory, lead to p. |
| `Boot.BootFlags` | kernel/mm/vmm.cpp:530-540 | Every entry made at boot is present, writable and open to user code, and leaves are large and global besides, with no other flag. |
| `Boot.BootIsValid` | kernel/mm/vmm.cpp:519-540 | The booted kernel mapping satisfies the invariant that runs of address-space operations start from, with slots 256 and 511 in use. |
| `Boot.MapLoop` | kernel/mm/vmm.cpp:530-534 | A boot loop on a four-level table, in place, is the fold of `map_page_raw` over its large pages. |
| `Boot.MapLoop5` | kernel/mm/vmm.cpp:530-534 | The same on a five-level table. |
| `Boot.InitKernelMapping` | kernel/mm/vmm.cpp:530-540 | Both boot loops in place make the boot memory of a four-level kernel mapping. |
| `Boot.InitKernelMapping5` | kernel/mm/vmm.cpp:530-540 | The same for a five-level kernel mapping. |
| `Scheduler.BestIsOldest` | kernel/sched/scheduler.cpp:127-141 | The selection loop gives -1 if and only if nobody waits, and otherwise a waiting entry that is the oldest, the earliest among equals. |
| `SchedulerSafety.CreateTaskKeepsValid` | kernel/sched/scheduler.cpp:12-32 | Creating a task, with the placeholder for an unknown parent, keeps the scheduler invariant. |
| `SchedulerSafety.CreateThreadKeepsValid` | kernel/sched/scheduler.cpp:34-119 | Creating a thread, or failing to, keeps the scheduler invariant. |
| `SchedulerCreation.CreateTaskAdds` | kernel/sched/scheduler.cpp:12-32 | One entry becomes the new waiting task under the next pid, with its parent and page map; the parent tag is listed; all other entries are as they were or default ones. |
| `SchedulerCreation.CreateThreadAdds` | kernel/sched/scheduler.cpp:34-119 | The task gets one waiting thread more, under the next number, with the given registers and zero FS and GS; an unknown task gets only its placeholder. |
| `SchedulerCreation.UserIff` | kernel/sched/scheduler.cpp:124-125 | Saved code is user code if and only if one of the two low bits of its code segment is set. |
| `SchedulerSafety.RescheduleKeepsValid` | kernel/sched/scheduler.cpp:121-218 | `reschedule` on any CPU keeps the scheduler invariant. |
| `SchedulerRuns.ReachableValid` | kernel/sched/scheduler.cpp:121-218 | In every reachable state distinct CPUs hold distinct tasks, tags and thread ids are unique, and GS holds the CPU pointer exactly while kernel code runs. |
| `SchedulerRuns.RunningIffHeld` | kernel/sched/scheduler.cpp:183-206 | A task runs if and only if a CPU holds it; that CPU is unique, its thread is the only running one, its page map is the task's; a waiting task has only waiting threads. |
| `SchedulerRuns.NoSwitchNoChange` | kernel/sched/scheduler.cpp:145-179 | A tick that does not switch leaves every CPU, with FS and GS, as it was. |
| `SchedulerRuns.DispatchLoads` | kernel/sched/scheduler.cpp:195-217 | After a switch the CPU shows the registers, FS base and GS base saved in the chosen thread, in the right privilege mode. |
| `SchedulerRuns.RunRestoresContexts` | kernel/sched/scheduler.cpp:183-217 | In every run each resumed thread sees the registers, FS base and GS base of its last preemption, or those it was created with. |
| `SchedulerFairness.TickOvertakes` | kernel/sched/scheduler.cpp:127-141 | A tick chooses the waiting task itself, or one task ahead of it, which then leaves the set of tasks ahead. |
| `SchedulerFairness.CreationOvertakesNobody` | kernel/sched/scheduler.cpp:12-32 | New tasks and threads never get ahead of a task that waits. |
| `SchedulerFairness.BoundedOvertaking` | kernel/sched/scheduler.cpp:127-141 | While a ready task is not chosen, every tick of any run on any CPUs chooses a different task that was ahead at the start. |
| `SchedulerFairness.WaitingTaskIsChosen` | kernel/sched/scheduler.cpp:202-206 | A ready task is chosen within as many ticks as there are tasks. |
| `SchedulerStalls.ThreadlessBlocks` | kernel/sched/scheduler.cpp:174-179 | While a waiting task without a thread is ahead, no run that gives it none chooses the task behind it. |
| `SchedulerStalls.ChosenIffThreadsAhead` | kernel/sched/scheduler.cpp:127-179 | In every run without new threads and with as many ticks as tasks, a settled waiting task with a thread is chosen if and only if every task ahead of it has a thread. |
| `SchedulerStalls.ThreadlessStallsAll` | kernel/sched/scheduler.cpp:174-179 | While the oldest waiting task has no thread, no tick on any CPU switches. |
| `SchedulerStalls.PlaceholderOvertakes` | kernel/lib/map.hpp:52-62 | A reachable state in which a task made later, in the place of a placeholder, is chosen before a task that has not aged yet. |
| `SchedulerThreads.ThreadsBoundedOvertaking` | kernel/sched/scheduler.cpp:158-172 | While a waiting thread is not switched to, every selection of its task switches to a different thread that was ahead at the start. |
| `SchedulerThreads.WaitingThreadRuns` | kernel/sched/scheduler.cpp:158-172 | A waiting thread is switched to within as many selections of its task as the task has threads. |
| `SchedulerBound.WaitingThreadRunsWithin` | kernel/sched/scheduler.cpp:121-218 | When all tasks have threads, a waiting thread of a task with m threads among n entries is switched to within m (n + 1) ticks that could go to its task, on any number of CPUs. |
| `SchedulerBound.OneCpuThreadRuns` | kernel/sched/scheduler.cpp:121-218 | On one CPU that is within m (n + 1) ticks. |
| `SchedulerCore.Core.Lookup` | kernel/lib/map.hpp:52-62 | The linear search returns the first entry with the tag, appending a default one when there is none. |
| `SchedulerCore.Core.CreateTask` | kernel/sched/scheduler.cpp:12-32 | `create_task` in place makes the specified state and returns the new pid. |
| `SchedulerCore.Core.CreateThread` | kernel/sched/scheduler.cpp:34-119 | The bookkeeping of `create_thread` in place; -1 for an unknown task. |
| `SchedulerCore.Core.SelectTask` | kernel/sched/scheduler.cpp:127-141 | The loop ages every task and returns the pid of the oldest waiting one. |
| `SchedulerCore.Core.SelectThread` | kernel/sched/scheduler.cpp:158-172 | The same for the threads of the chosen task. |
| `SchedulerCore.Core.SaveCurrent` | kernel/sched/scheduler.cpp:183-193 | The outgoing thread and task wait again, with registers, FS and the user GS base saved. |
| `SchedulerCore.Core.LoadNext` | kernel/sched/scheduler.cpp:195-212 | The incoming thread is put on the CPU with its page map, FS and GS. |
| `SchedulerCore.Core.Reschedule` | kernel/sched/scheduler.cpp:121-218 | Every path takes the lock once and releases it once, and the state is the specified one. |
| `NvmeQueue.PhaseMeansPosted` | kernel/drivers/nvme/nvme.cpp:298-301 | The entry at `cq_head` carries the expected phase if and only if the current command was completed; an entry of an earlier lap never does. |
| `NvmeQueue.StepKeepsValid` | kernel/drivers/nvme/nvme.cpp:291-316 | Every driver or controller step keeps the ring invariant, before and after an error. |
| `NvmeQueue.RunRecords` | kernel/drivers/nvme/nvme.cpp:291-316 | What a run records as sent and as posted are the payloads of its submissions and the statuses of its completions, in order. |
| `NvmeQueue.OwnCompletionUntilError` | kernel/drivers/nvme/nvme.cpp:303-306 | In every interleaving a call returns on its own command's completion if and only if no earlier call saw an error, and then with the status the controller gave that command; otherwise it returns the first error's entry again. |
| `NvmeQueue.ExecutedOnceInOrder` | kernel/drivers/nvme/nvme.cpp:291-316 | Until an error, the submitted payloads are executed once each in order, and between calls `sq_tail` equals `cq_head`. |
| `NvmeQueue.NeverBlocks` | kernel/drivers/nvme/nvme.cpp:298-301 | Until an error a polling driver finds its completion, or the controller has a step to take. |
| `NvmeQueue.QueuePair.SendCmd` | kernel/drivers/nvme/nvme.cpp:291-316 | `send_cmd` in place, against any schedule of controller actions, is one run of the protocol that begins with its submission, and returns 0 if and only if the entry at `cq_head` has status 0, else that status above its phase bit; up to the first error it returns if and only if the controller has completed its command by the end of the schedule. |
| `Pmm.FindIsFirstFit` | kernel/mm/pmm.cpp:99-124 | The scan returns the first aligned position whose `cnt` bits are clear, and nothing if and only if there is none. |
| `Pmm.CandidateIff` | kernel/mm/pmm.cpp:102-105 | The positions that the scan looks at are exactly the pages of the chunk whose address is a multiple of the alignment. |
| `Pmm.AlignUpLeast` | kernel/lib/memutils.hpp:7-13 | `align_up` gives no more than any multiple at or above its argument. |
| `Pmm.InsideIffRoom` | kernel/mm/pmm.cpp:105-106 | The run found ends inside the chunk if and only if some aligned free run does. |
| `Pmm.OverrunExample` | kernel/mm/pmm.cpp:105-106 | A one-page chunk hands out two pages. |
| `Pmm.ChoiceIff` | kernel/mm/pmm.cpp:141-154 | `pmm::alloc` hands out a run inside its chunk if and only if the first chunk with an aligned free run has one that ends inside it, and fails if and only if no chunk has any. |
| `Pmm.ListOverrunExample` | kernel/mm/pmm.cpp:141-154 | With a one-page chunk in front, two pages overrun it although the next chunk has room. |
| `Pmm.OverrunMarksNext` | kernel/mm/pmm.cpp:112-116 | A longer overrun sets the bit of page 0 of the next chunk, whose bitmap lies right behind. |
| `Pmm.BitmapsApart` | kernel/mm/pmm.cpp:71-97 | The bitmaps that `pmm::init` lays out never overlap. |
| `Pmm.BitmapsTight` | kernel/mm/pmm.cpp:71-97 | They lie in list order with only the padding of the last byte and, behind all but the root, one chunk node in between. |
| `Pmm.AddressTracksBit` | kernel/mm/pmm.cpp:102-109 | The address carried along with the scan is that of the bit, and is aligned. |
| `Pmm.ChoiceIsFresh` | kernel/mm/pmm.cpp:141-154 | What `pmm::alloc` hands out is disjoint from every live run. |
| `Pmm.RunKeepsValid` | kernel/mm/pmm.cpp:99-133 | In every run whose allocations are refused or find room inside the first chunk with a free run, and in which memory between the bitmaps may change at any time, the page bits are those of the live runs, these are disjoint, and `total_used_mem` is page size times live pages. |
| `Pmm.LiveRunsApart` | kernel/mm/pmm.cpp:141-154 | Live runs occupy disjoint physical addresses, across chunks too. |
| `Pmm.FreeUndoesAlloc` | kernel/mm/pmm.cpp:162-170 | Freeing a run restores the state before its allocation. |
| `Pmm.InitIsValid` | kernel/mm/pmm.cpp:65-97 | After `pmm::init` the invariant holds, whatever the buffer holds between the bitmaps. |
| `Pmm.Allocator.ChunkAlloc` | kernel/mm/pmm.cpp:99-124 | The nested loops in place mark the first fit and return its address, or -1. |
| `Pmm.Allocator.Alloc` | kernel/mm/pmm.cpp:141-154 | `pmm::alloc` in place: the first chunk that succeeds. |
| `Pmm.Allocator.ChunkFree` | kernel/mm/pmm.cpp:126-133 | The clearing loop in place, with `total_used_mem` counted down. |
| `Pmm.Allocator.Free` | kernel/mm/pmm.cpp:162-170 | `pmm::free` in place: the first chunk that contains the range. |
| `Slab.BufferIs` | kernel/mm/slab.cpp:15 | The buffer starts 80 bytes into a slab in the lower half of the address space and 96 bytes into one in the upper half, because the signed rounding goes towards zero. |
| `Slab.SlabBytesLeast` | kernel/mm/slab.cpp:33 | A slab takes the least number of whole pages for 256 objects, header and bitmap. |
| `Slab.ObjectsFit` | kernel/mm/slab.cpp:11-38 | For every object size, header, bitmap and the descriptor of the root slab precede the buffer, and all 256 objects end inside the slab's pages, in the shifted root slab too. |
| `Slab.RoomMeansClearBit` | kernel/mm/slab.cpp:131-141 | A slab whose `available_objects` is positive has a clear bit. |
| `Slab.AllocKeepsValid` | kernel/mm/slab.cpp:54-77 | `alloc_obj` keeps the cache invariant and always finds a free object while pages remain. |
| `Slab.FreeKeepsValid` | kernel/mm/slab.cpp:79-102 | `free_obj` on any address keeps the invariant, including that `available_objects` never exceeds the clear bits. |
| `Slab.FreeFindsIff` | kernel/mm/slab.cpp:79-102 | `free_obj` clears the bit of a taken object if and only if it lies in the open slab or the first full one. |
| `Slab.ObjectsApart` | kernel/mm/slab.cpp:131-141 | Any two objects of a cache are the same or do not overlap. |
| `Slab.ObjectsAvoidHeaders` | kernel/mm/slab.cpp:11-30 | No object touches the header or bitmap of any slab. |
| `Slab.ObjectsAvoidDescriptor` | kernel/mm/slab.cpp:32-40 | No object touches the cache descriptor embedded in the root slab. |
| `Slab.RunKeepsTracked` | kernel/mm/slab.cpp:54-102 | In every run the invariant holds and each live object keeps its bit. |
| `Slab.LiveObjectsApart` | kernel/mm/slab.cpp:54-77 | Live objects of a cache never overlap. |
| `Slab.RunServes` | kernel/mm/slab.cpp:79-102 | In every run each allocation uses up one of the 256 objects of some slab, and no free gives one back. |
| `Slab.FullSlabsCountAllocations` | kernel/mm/slab.cpp:54-102 | A cache has one full slab for every 256 allocations, whatever was freed. |
| `Slab.FullStaysFull` | kernel/mm/slab.cpp:54-77 | No object of a full slab is handed out again. |
| `Slab.LostObjectReached` | kernel/mm/slab.cpp:79-102 | 512 allocations on any new cache reach a state with two full slabs in which `free_obj` does not find a live object. |
| `KernelHeap.CacheSupplied` | kernel/mm/slab.cpp:11-12 | The pages that `pmm::calloc` hands out for a slab are fresh for its cache. |
| `KernelHeap.NewPagesApart` | kernel/mm/slab.cpp:11-12 | They lie apart from every slab of every cache. |
| `KernelHeap.RunKeepsHeap` | kernel/mm/slab.cpp:11-77 | In every run over all caches and all other users of pages, every slab stands on a live run of its own and the slabs of different caches lie apart. |
| `KernelHeap.HeapObjectsApart` | kernel/mm/slab.cpp:54-77 | Live objects never overlap, within a cache or across caches. |
| `KernelMemory.FramesKeep` | kernel/mm/pmm.cpp:156-160 | The frames that calls of `pmm::calloc(1)` hand out one after the other are distinct, no table yet, and apart from every slab. |
| `KernelMemory.StockedValid` | kernel/mm/vmm.cpp:125-191 | These frames are as fresh as the invariant of the address spaces asks. |
| `KernelMemory.RunKeepsKernel` | kernel/mm/vmm.cpp:125-191 | In every run over address spaces, caches and all other users of pages, every page table and every slab keeps its own memory, and the invariants of all three parts hold. |
| `KernelMemory.ObjectsAvoidTables` | kernel/mm/slab.cpp:54-77 | No live object lies in a page table. |
| `KernelMemory.BootKernel` | kernel/mm/vmm.cpp:519-540 | Booted on frames of the page allocator, the kernel mapping starts such runs. |
| `SlabLists.Node.Alloc` | kernel/mm/slab.cpp:131-141 | `slab::alloc` in place takes the first clear bit. |
| `SlabLists.MoveSlab` | kernel/mm/slab.cpp:104-129 | `move_slab` relinks the nodes so that source and destination stay acyclic, doubly linked chains, and its walk ends. |
| `SlabLists.Cache.constructor` | kernel/mm/slab.cpp:32-52 | A new cache has one empty root slab whose buffer starts behind the descriptor. |
| `SlabLists.Cache.AllocObj` | kernel/mm/slab.cpp:54-77 | `alloc_obj` on the linked lists: the three lists stay disjoint chains, empty and partial hold at most one slab together, and state and result are the specified ones. |
| `SlabLists.Cache.FreeObj` | kernel/mm/slab.cpp:79-102 | `free_obj` on the linked lists, with the same invariant. |
| `Pow2.SmearReaches` | kernel/lib/memutils.hpp:33-37 | After the five lines a bit is set if and only if one of the 32 bits from it upwards was. |
| `Pow2.RoundupIsLeastPower` | kernel/lib/memutils.hpp:31-40 | For every 64-bit size the result is the least power of two if and only if there is no gap of 32 zero bits; above 2^63 it is 0 under the same condition. |
| `Pow2.RoundupExact` | kernel/lib/memutils.hpp:31-40 | From 1 to 2^32 the result is the least power of two not below the size, and less than twice it. |
| `Pow2.RoundupFailsAbove` | kernel/lib/memutils.hpp:31-40 | At 2^32 + 1 it is not. |
| `Pow2.RoundupInPlace` | kernel/lib/memutils.hpp:31-40 | The updates in place compute that function. |
| `KmmAlloc.Select` | kernel/mm/slab.cpp:150-173 | The cache loop returns the first cache of the wanted size, and NULL if and only if the size is 0 or there is none. |
| `KmmAlloc.SmallRequestsFit` | kernel/main.cpp:62-75 | Every request up to the largest class finds a boot cache that is large enough and, above 32 bytes, less than twice the request. |
| `KmmAlloc.TinyRequests` | kernel/mm/slab.cpp:154-156 | Requests of 1 to 32 bytes ask for the 32-byte class. |
| `KmmAlloc.LargeRequests` | kernel/mm/slab.cpp:154-156 | A larger request is refused unless it is above 2^63 without a gap, and then gets the 32-byte cache. |
| `KmmAlloc.ServedIffSmall` | kernel/mm/slab.cpp:150-173 | A boot cache serves a request with enough room if and only if the request is at most the largest class. |
| `BlockGroups.StopsAtLeast` | kernel/fs/ext2/ext2.cpp:28-39 | The loop of `alloc_block` stops at the first index of the least descriptor it reaches that has a block to give. |
| `BlockGroups.HandsOutMarkedIff` | kernel/fs/ext2/block.cpp:5-24 | The block handed out is the one whose bit is set if and only if descriptor 0 has a block to give, no reached descriptor has, or a group has one inode. |
| `BlockGroups.OwnForeverIff` | kernel/fs/ext2/ext2.cpp:28-39 | Over all sequences of allocations that stays so if and only if no reached descriptor behind the first has a block to give, or a group has one inode. |
| `BlockGroups.AllocFailsIff` | kernel/fs/ext2/ext2.cpp:28-39 | An allocation fails if and only if no descriptor that the loop reaches has a block to give. |
| `BlockGroups.ForeignBlockExample` | kernel/fs/ext2/block.cpp:7 | Three groups of two inodes each: a block of group 1 is marked and a taken block of group 2 is handed out. |
| `BlockGroups.UnreachedGroupExample` | kernel/fs/ext2/block.cpp:7 | Two groups of two inodes each: the allocation fails although group 1 is free. |
| `BlockGroups.AllocFresh` | kernel/fs/ext2/block.cpp:26-52 | While the block handed out is the one marked, it was free, is allocated from then on, and no other block changes state. |
| `BlockGroups.AllocCounts` | kernel/fs/ext2/block.cpp:26-52 | A successful allocation lowers the counter of one descriptor by one and sets its least clear bit; no other descriptor changes. |
| `BlockGroups.FirstGroupUsedUp` | kernel/fs/ext2/block.cpp:26-52 | When the counter of descriptor 0 is at least the number of its clear scanned bits, the next allocations hand out exactly these blocks, in ascending order. |
| `Ext2.PlacesDistinct` | kernel/fs/ext2/inode.cpp:99-133 | Different file blocks below the triple level have different pointer places, all within their pointer blocks. |
| `Ext2.LookupLayout` | kernel/fs/ext2/inode.cpp:99-133 | The on-disk layout: block `i` is `blocks[i]`, or the little-endian word `i - 12` of block `blocks[12]`, or word `o` of the block that is word `s` of `blocks[13]` for `i == 12 + n + s n + o`. |
| `Ext2.SetBlockSets` | kernel/fs/ext2/inode.cpp:135-213 | For every index below the triple level, a successful `set_block` makes `get_block` give that block for direct and doubly indirect indices and loses it for singly indirect ones; the map stays well formed and every other mapped index is unchanged, also when it fails. |
| `Ext2.SingleInsertIsLost` | kernel/fs/ext2/inode.cpp:201-210 | After a singly indirect insert `get_block` gives what it gave before, or 0 with a new pointer block. |
| `Ext2.FailsOnlyWithoutBlocks` | kernel/fs/ext2/inode.cpp:135-213 | `set_block` fails only where a pointer block is missing and the allocator has none left. |
| `Ext2.SucceedsWithBlocks` | kernel/fs/ext2/inode.cpp:135-213 | With two allocations at hand it succeeds and uses no more than these. |
| `BlockIo.WritesFile` | kernel/fs/ext2/inode.cpp:55-69 | The chunk loop over distinct blocks changes exactly the written bytes of the file. |
| `BlockIo.ReadsFile` | kernel/fs/ext2/inode.cpp:33-47 | The chunk loop returns the bytes of the file, position by position. |
| `Ext2Files.WriteUsesOneMap` | kernel/fs/ext2/inode.cpp:50-70 | Although each chunk looks its block up anew, a write never disturbs a pointer, so it equals a transfer over the blocks the file had at the start. |
| `Ext2Files.WriteThenRead` | kernel/fs/ext2/inode.cpp:30-70 | Writing and then reading any range gives the old contents overlaid with the written bytes. |
| `Ext2Files.ReadLayout` | kernel/fs/ext2/inode.cpp:30-48 | A read returns for position `x` the byte at offset `x % block_size` of the block that the map gives for `x / block_size`. |
| `Ext2Files.OtherFilesUnchanged` | kernel/fs/ext2/inode.cpp:50-70 | A write changes no byte of any block that is not a data block of the file. |
| `Ext2Files.OtherFileReadsSame` | kernel/fs/ext2/inode.cpp:50-70 | Reading any range of another file gives the same bytes before and after a write. |
| `Ext2Growth.GrowOneKeepsOk` | kernel/fs/ext2/inode.cpp:86-93 | One turn of `resize` at a direct or doubly indirect index gives the file one more disk block of its own, no pointer block and no block of the file, and leaves the others. |
| `Ext2Growth.GrowOneOkIff` | kernel/fs/ext2/inode.cpp:86-93 | With the next slot still 0, the file can use the added block if and only if the index is not singly indirect; there it gets block 0. |
| `Ext2Growth.GrowKeepsOk` | kernel/fs/ext2/inode.cpp:86-93 | The same for the whole loop of `resize`. |
| `Ext2Growth.GrowSucceeds` | kernel/fs/ext2/inode.cpp:86-93 | With three allocations at hand for each block, the loop adds every block and every `set_block` succeeds. |
| `Ext2Growth.GrowStopsWithoutBlocks` | kernel/fs/ext2/inode.cpp:86-93 | The loop stops early only when the allocator has no block left. |
| `Ext2Growth.GrowAddsZeros` | kernel/fs/ext2/inode.cpp:86-93 | Growing keeps every byte of the file and adds zeros. |
| `Ext2Growth.WriteKeepsOk` | kernel/fs/ext2/inode.cpp:50-70 | A write keeps the block map well formed and the file fit for the next write. |
| `Ext2Growth.GrowWriteRead` | kernel/fs/ext2/inode.cpp:30-97 | Growing, writing and reading any range gives the written bytes over the old contents over zeros. |
| `Ext2Growth.SectorsFollow` | kernel/fs/ext2/inode.cpp:72-97 | `sector_cnt` keeps saying how many blocks the file has. |
| `Ext2Growth.WriteCallReads` | kernel/fs/ext2/inode.cpp:50-97 | The same for a whole `write` call, whether `resize` returns early or adds blocks. |
| `Ext2Growth.WriteCallSparesOthers` | kernel/fs/ext2/inode.cpp:50-97 | A whole `write` call, with the blocks it adds, changes nothing that is read from another file. |
| `Ext2Inode.Inode.GetBlock` | kernel/fs/ext2/inode.cpp:99-133 | `get_block` in place follows the direct, single and double levels, with the result given byte by byte over the disk. |
| `Ext2Inode.Inode.Read` | kernel/fs/ext2/inode.cpp:30-48 | `read` as a loop over chunks, with each byte of the result given by block map and division. |
| `Ext2Inode.Inode.Write` | kernel/fs/ext2/inode.cpp:50-70 | `write` in place: `resize`, then the loop over chunks. |
| `Ext2Inode.Inode.Resize` | kernel/fs/ext2/inode.cpp:72-97 | `resize` in place: the early return, or the loop that adds blocks until one allocation fails. |
| `Ext2Inode.Inode.AllocBlock` | kernel/fs/ext2/ext2.cpp:28-39 | `alloc_block` in place, each turn on the descriptor that the group index gives. |
| `Ext2Inode.Inode.SetBlock` | kernel/fs/ext2/inode.cpp:135-213 | `set_block` in place with its on-demand pointer blocks and its error returns. |
| `PathTokens.TokensAreTheRuns` | kernel/fs/vfs.cpp:81-100 | The tokens are the texts of exactly the maximal slash-free runs of the path, in order. |
| `PathTokens.RunsUnique` | kernel/fs/vfs.cpp:81-100 | Only one list of spans lists the runs in order, so this determines the tokens. |
| `PathTokens.JoinThenTokens` | kernel/fs/vfs.cpp:81-100 | Tokenizing the slash-join of any list of non-empty slash-free names gives the list back. |
| `PathTokens.TokensThenJoin` | kernel/fs/vfs.cpp:81-100 | Joining the tokens of any path gives a path with the same tokens. |
| `PathTokens.LeadingSlash` | kernel/fs/vfs.cpp:78-79 | The leading slash that `search_absolute` cuts off makes no difference to the tokens. |
| `PathTokens.Find` | kernel/lib/string.cpp:128-134 | `find_first` as a loop. |
| `PathTokens.Tokenize` | kernel/fs/vfs.cpp:81-100 | The tokenizer loop pushes exactly the tokens. |

## Left out

Page tables

- An entry is a page number and the set of its low bits, so flags lie in the low twelve bits; the walk does not check reserved bits, access rights or the no-execute bit.
- Running out of frames: a `map` call needs a frame for each table that it adds, because the source goes on with the -1 of `pmm::alloc`.
- Vmm.Pml4Table.Unmap: takes an address whose path leads over present pointers to a leaf slot, because the source follows null entry pointers otherwise.
- `map_page`, `map_range`, `unmap_range` and the guard of `unmap_page`, which tests a field that the walking constructor never sets; they loop over the calls that are modelled.
- The five-level `unmap` and `create_generic` are modelled on values only, by the same recursion; the wrong index at `kernel/mm/vmm.cpp:230` builds an entry object that nothing uses.
- TLB flushes and the PAT register.

Scheduler

- `create_task` and `create_thread` are atomic steps, although the source does not take the scheduler lock there; the spin lock itself is a flag.
- `errno` is loaded on a switch and never saved, so it is not part of a context; stacks, argument strings, the kernel stack and the EOI write of a switch are not modelled.
- The page map of a new task and the first registers of a new thread are parameters, where the source takes the kernel mapping for NULL and fills in `rflags`, `ss` and the stack pointer.
- Age counters are unbounded, and code between ticks keeps the GS convention.

NVMe

- The completion memory starts with phase bits 0 and each queue has one sender; the ring has at least two entries.
- NvmeQueue.QueuePair.SendCmd: the polling loop runs over a given schedule and ends still polling when that ends before the completion.
- Queue creation, PRP lists, namespaces and reads and writes on top of `send_cmd`.

Allocators

- Pmm.RunKeepsValid: leaves out allocations that overrun their chunk; `Pmm.ChoiceIff` says when they do.
- The chunk list ends where it should: `next` of the last node is taken as null, which the source does not set, and an overrun that sets bits of a chunk node leaves the chunk list as it is in the model.
- Boot-time sizing of the bitmap buffer, the `pmm_lock` and the 64-bit wrap of `-1`.
- SlabLists.Cache.constructor: takes `slab_empty`, `slab_partial`, `slab_full` and `next` as null, which the source constructor does not set although the caches are built as temporaries on the stack.
- Slab operations are sequential, and no new slab is asked for when the page allocator has no room; `kmm::free`, `realloc` and `recalloc` are left out because their hit and miss conventions disagree.
- SlabLists.MoveSlab: a node that goes to a list that is not empty must be the last of its own list, because `next` is not cleared; the cache invariant guarantees it.
- KmmAlloc.Select: the cache list is a sequence of object sizes, and the object itself comes from the cache's `alloc_obj`.

ext2

- The triply indirect level, whose operands are swapped in the source, and directories, `free_block`, inode allocation and file sizes.
- Ext2.SetBlockSets: needs zero-filled free blocks, distinct pointer blocks in use, block 0 allocated, block numbers below 2^32 and the condition of `BlockGroups.OwnForeverIff`.
- Ext2Growth.WriteCallReads: needs every allocation and every `set_block` of the call to succeed, no singly indirect index among the added ones, and a sector count that matches the file.
- Ext2Inode.Inode.Write: ranges below the triply indirect level.
- A bit of a block bitmap stands for the block the source takes it for, without the first data block of file systems with 1 KiB blocks.
- The disk is byte addressed; the writes of bitmaps, group descriptors and the inode itself back to disk are not modelled, nor is sector rounding.

Elsewhere

- PathTokens.Tokenize: strings are sequences of characters; `lib::string` memory handling is not modelled.
- VFS node linking, `lib::vector`, `mm::mmap`, the ELF loader, other drivers, interrupts, TTY and serial output: hardware access or plumbing without further state properties.
