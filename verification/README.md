# pellOs in Dafny

A model of the parts of pellOs, a small AArch64 kernel, that keep state or structure worth a proof, and theorems about
it.

* **Page tables and fork** (`Bits`, `PageTables`, `FrameAllocator`, `AddressSpaces`, `Paging`, `Worlds`, `Fork`,
  `Kernels`). Four-level tables live in the same physical memory that they describe. A page is 512 words; a store to a
  table is an update of the page. The tables of a task refine a flat map from virtual pages to frames; the address
  spaces of all tasks together share no frame. The allocator is the bitmap build that include/config.h selects.
* **Kernel heap** (`LittleEndian`, `HeapMemory`, `HeapBlocks`, `HeapList`, `HeapAllocation`, `HeapRelease`,
  `KernelHeap`, `HeapRuns`). The heap is a sequence of bytes, and its free list is made of 24-byte headers in those
  bytes; requests are not aligned, so headers can start anywhere. The bytes represent a sequence of free and live
  blocks that tile the heap.
* **Scheduler and software timers** (`SchedulerModel`, `SchedulerInvariant`, `SchedulerRuns`, `SchedulerEffects`,
  `SchedulerForks`, `Scheduler`). The class has the source's loops; each method equals a step of a transition system,
  and the theorems speak of every run of it.
* **Ramdisk** (`RamDiskTrees`, `RamDiskImage`, `RamDiskWriter`, `RamDiskRecords`, `RamDiskPaths`, `RamDiskStrays`,
  `RamDiskReader`, `RamDiskRoundTrip`). The Python generator numbers a tree and writes bytes; the C reader resolves
  paths and reads data in those bytes. It reads every address in them, whether a record was written there or not.
* **Descriptors** (`ByteBits`, `FdTables`, `Vfs`) and **numbers** (`NumberFormat`).

`Wrappers` and `Collections` hold what several modules use.

Where the code does not do what one would expect, the model follows the code and the theorem says exactly when it goes
well:

* `map_table` does not check that it got a page. Without one it stores the descriptor 3, of a table at address 0, and
  goes on there, through whatever words are at that address. Then no tree whatever fits the fields of the task
  (`Paging.NullLink`, `AddressSpaces.NullNotSound`). `allocate_user_page` and a page fault leave a well-formed world
  exactly if no page is free, or enough for the page and all its tables (`Kernels.Kernel.AllocateUserPage`,
  `Kernels.Kernel.DoMemAbort`), and `copy_virtual_memory` exactly if the free pages last or run out at a user page
  (`Fork.RunsOutCleanly`, `Kernels.Kernel.CopyVirtualMemory`). It reports success whenever the last entry is reached,
  for a parent of one page already with one free page, though the copy takes five (`Fork.OnePageCopy`).
* `map_page` does not check its arrays. With enough pages it stores past the end of one exactly if there is no room
  for the page and its tables (`Paging.MapPage`): four pages always fit (`Kernels.FourPagesFit`), five far apart do
  not (`Kernels.FifthPageOverruns`).
* `kfree` keeps the free list in order exactly if two things hold (`HeapRelease.FreesWell`, `KernelHeap.Heap.Kfree`).
  The block has room for a header of 24 bytes, or is joined to the first free block and is more than a size word or
  finds that block the only free one. And a free block lies above it, or at least two lie below it and its second word
  happens to be the end mark (src/lib/kmalloc.c:171-178 never sets `next`). With one lower free block the list starts
  at the wrong end, and with none the block is lost. A few calls from the initial heap lead to each case
  (`KernelHeap.LowerFreeLost`, `KernelHeap.FullHeapLost`, `KernelHeap.ShortBlockLost`).
* `kmalloc` keeps it in order exactly if nothing fits, or the request with its size word does not wrap and leaves of
  the block nothing or the room for a header. Its walk leaves the heap exactly if there are free blocks and none fits
  (`KernelHeap.Heap.Kmalloc`).
* The merge tests in the middle of the list add 1 and never hold (`HeapRelease.NoMerge`).
* A failed `kernel_fork` leaves the task's preemption count one above what the hand-off gives it, in every later state
  of every run, and no tick takes the task off the processor again (`SchedulerForks.CountsOwed`,
  `SchedulerForks.NeverPreempted`).
* A sleep whose finish time is not ahead, or does not fit 32 bits, ends in the call that starts it
  (`SchedulerRuns.SleepHonoured`); with all timers taken it does nothing (`SchedulerRuns.SleepWithoutSlot`).
* Path resolution takes a file for a directory if more components follow: the words of the file are scanned as ids,
  and their records are read wherever in the image they would be, also in the data behind the records. For every tree
  and path it is stated over those words and the bytes of the image when the reader reads behind the image, and when
  it finds something that the tree has not (`RamDiskStrays.WalkOutcome`, `RamDiskStrays.AgreesIff`).
* A read of no bytes copies eight, because `memcpy` copies a word before it tests the size (`RamDiskReader.NodeRead`).
* A read through a descriptor advances the index of a copy, so every read through it starts at the same place. Reading
  a file in pieces works exactly if each later piece repeats the start (`Vfs.PiecesIff`).
* `init_fd_table` zeroes 8 bytes for each record of 24: bitmap and records agree exactly if the memory behind held no
  flags (`FdTables.InitAgreesIff`).
* `a2i` accepts the digit equal to the base (`NumberFormat.StopsIff`, `NumberFormat.TenIsADigit`).

A clause `var p := P(x); p` says no more than `P(x)`; written so, the verifier takes `P(x)` as one fact instead of its
parts. `dafny verify dfyconfig.toml` checks the project.

## Model

| member | source | states |
|---|---|---|
| PageTables.SameVpn | src/mm/paging.c:10-11 | two addresses select the same entries at all four levels exactly if bits 47 to 12 agree |
| PageTables.VpnNumber | src/mm/paging.c:10-11 | the four indices are the digits of the page number in base 512, the directory's first |
| PageTables.HardwareWalks | src/mm/paging.c:48-63 | the tables are indexed as the processor indexes them, level by level, by bits 47:39, 38:30, 29:21 and 20:12 of the address |
| PageTables.LeafBits | include/arm/mmu.h:26 | the flags of a mapped page, bit by bit: valid, normal memory, for EL0 to read and write, accessed |
| PageTables.TableFlagsAdd | src/mm/paging.c:19 | or-ing the table type into a page-aligned address adds it, and the mask gives the address back |
| PageTables.PageFlagsAdd | src/mm/paging.c:32 | the same for the flags of a last-level entry |
| PageTables.MaskIsBase | src/mm/paging.c:25 | the mask drops exactly the offset of any 64-bit word |
| PageTables.MaskIsIndex | src/mm/paging.c:10-11 | shift and mask pick the nine bits of the index |
| PageTables.NullTable | src/mm/paging.c:18-21 | a table that holds the descriptor of a table at address 0 belongs to no tree, for whatever map |
| PageTables.WalkIsFlatMap | src/mm/paging.c:45-63 | walking four tables in memory, as an access from EL0 does, gives the flat map's frame, and nothing for a page that is not mapped |
| PageTables.LinkTable | src/mm/paging.c:13-21 | a zeroed page stored at an empty entry adds one table to the tree and changes no mapping |
| PageTables.LinkPage | src/mm/paging.c:28-34 | a last-level store updates the flat map at one page and nowhere else |
| PageTables.NewDirectory | src/mm/paging.c:40-43 | a zeroed directory represents the empty map |
| PageTables.OtherPages | src/mm/paging.c:9-34 | a tree depends on no page outside its tables |
| FrameAllocator.LowestFree | src/mm/mm.c:15-19 | the first clear bit stands for the lowest free page; none means that no page is free |
| FrameAllocator.PhysicalMemory.constructor | src/mm/mm.c:11 | with the bitmap cleared every page is free |
| FrameAllocator.PhysicalMemory.Claim | src/mm/mm.c:24-33 | setting the bit and zeroing moves exactly that page from the free ones to the used ones |
| FrameAllocator.PhysicalMemory.GetNextFreePage | src/mm/mm.c:13-38 | the lowest free page, zeroed and now in use, or 0 exactly if there is none |
| AddressSpaces.ReplayFromList | src/mm/paging.c:64-65 | the map that `userpages` records has exactly the listed pages, each with a listed frame |
| AddressSpaces.AddTable | src/mm/paging.c:48-61 | linking and recording a fresh table keeps the tree: unshared, listed once, apart from user frames |
| AddressSpaces.AddDirectory | src/mm/paging.c:40-43 | the first directory makes a tree of one table |
| AddressSpaces.AddPage | src/mm/paging.c:63-65 | the last-level store and the entry in `userpages` keep tree and list in step |
| AddressSpaces.TranslateIsReplay | src/mm/paging.c:36-66 | the walk finds for every page the last frame that `userpages` records for it |
| AddressSpaces.TableBound | src/mm/paging.c:40-61 | at most one directory and three tables for each mapped page are needed |
| AddressSpaces.FarApartTables | src/mm/paging.c:40-61 | pages that share no table but the directory need exactly three more each |
| AddressSpaces.KernelPagesBound | include/scheduler/task.h:82-88 | `kernelpages_count` is at most 1 + 3 * `userpages_count`, so four pages stay inside the array |
| AddressSpaces.SpaceFrame | src/mm/paging.c:36-66 | a space whose frames keep their contents translates every page as before |
| AddressSpaces.NullNotSound | src/mm/paging.c:48-61 | with address 0 on record as a table no tree fits the fields of the task, whatever memory holds |
| Paging.AddressSpace.constructor | src/scheduler/scheduler.c:36-37 | a zeroed task has no tables and no pages |
| Paging.AddressSpace.RecordTable | src/mm/paging.c:42 | the count grows by one and the new entry is listed last, from index 1 on |
| Paging.AddressSpace.RecordPage | src/mm/paging.c:64-65 | the page is listed last |
| Paging.MapTable | src/mm/paging.c:9-26 | the table at the entry, or a fresh zeroed page stored there, or, with no page free, the descriptor 3 and address 0; nothing else changes |
| Paging.MapTableEntry | src/mm/paging.c:28-34 | one word of one table changes |
| Paging.MakeDirectory | src/mm/paging.c:40-43 | a directory is made exactly for a task without one; with no page free only a 0 is recorded |
| Paging.Step | src/mm/paging.c:48-61 | from any point of the way down, the next step reaches the next table of a tree, or the pages have run out at one and address 0 is on record |
| Paging.NullLink | src/mm/paging.c:13-21 | a step without a page stores 3, returns 0, and no tree of any shape has that page as a table any more |
| Paging.MapLevel | src/mm/paging.c:48-51 | one level of the walk, with the new table linked and recorded, also where the pages have run out; it stores past the end of `kernelpages` only if the arrays lack room |
| Paging.MapPage | src/mm/paging.c:36-66 | with pages for the missing tables and room in the arrays the task's tables stay a tree, its list gains the page, only its tables change, and the free pages shrink by the tables that were missing; with fewer pages, exactly, a null table is on record and no page is left; with enough pages it stores past the end of an array exactly if there is no room |
| Paging.FirstPageLost | src/mm/paging.c:36-66 | the first page of a task with fewer than four pages left for its tables: no tree fits the task afterwards |
| Worlds.PageAdded | src/mm/paging.c:74-87 | after taking a page and mapping it no frame belongs to two tasks or plays two parts, the page translates to a zeroed frame, and no other mapping of any task differs |
| Worlds.AddedAt | src/mm/paging.c:74-87 | at every 64-bit address the processor finds the page where bits 47 to 12 agree, and what it found before elsewhere |
| Worlds.StoreToFrame | src/mm/paging.c:96 | a store to a user frame disturbs no task's tables |
| Kernels.Kernel.NewTask | src/scheduler/scheduler.c:36-37 | a new task joins with an empty address space |
| Kernels.TookSound | src/mm/paging.c:79-85 | some tree for the task makes the world well formed afterwards exactly if there were pages for the tables too |
| Kernels.Kernel.MapFreshPage | src/mm/paging.c:79-85 | a zeroed page mapped at the address in a world that stays separate, or a null table on record, or 0 and no change exactly if no page is free; with enough pages a store runs past an array exactly if there is no room |
| Kernels.Kernel.AllocateUserPage | src/mm/paging.c:74-87 | the same, returned by its kernel address; with a page to be had and no store past an array the world is well formed afterwards exactly if there were enough for the tables, and then the processor finds the page at `virt_adr` and nothing else changes at any address |
| Kernels.ReadFaultStatus | src/mm/paging.c:102-103 | the test picks the four translation fault codes of ESR_EL1 and no others |
| Kernels.SamePage | src/mm/paging.c:110 | masking the low bits keeps the page |
| Kernels.Kernel.HandleFault | src/mm/paging.c:107-111 | the faulting page maps to a zeroed frame and nothing else changes for any task, or the pages ran out at a table, exactly if there were too few, or a store runs past an array, with enough pages exactly if there is no room |
| Kernels.Kernel.DoMemAbort | src/mm/paging.c:101-114 | 0 exactly for a translation fault with a page to be had; otherwise -1 and no change; without a store past an array the world is well formed afterwards exactly if there was no page, or enough for the tables, and then the processor finds the page at the faulting address |
| Kernels.Kernel.Memcpy | src/mm/paging.c:96 | the page that the processor finds at the user address is copied; it stops exactly if there is none |
| Kernels.Kernel.CopyEntry | src/mm/paging.c:91-97 | one round: the child gains a copy of one more of the parent's pages, or no page is left, or the pages ran out at a table |
| Kernels.Kernel.CopyVirtualMemory | src/mm/paging.c:89-99 | for every number of free pages: the world is well formed afterwards exactly if they do not run out at a table, and then the result is 0 exactly if they suffice, the child is a copy, and parent, other tasks and all pages in use are as before; success is reported exactly if the last entry is reached |
| Kernels.FourPagesFit | include/scheduler/task.h:82-88 | with fewer than four pages mapped, both arrays have room for another and its tables |
| Kernels.FifthPageOverruns | src/mm/paging.c:50 | a fifth page that shares no table but the directory with the four before, nor they with each other, has no room in `kernelpages` |
| Kernels.Kernel.constructor | src/mm/mm.c:11 | no task, no page in use, and memory of its own |
| Kernels.BootAndFork | src/mm/paging.c:74-99 | from boot, a task with one page and a fork: the child translates the page to a frame that the parent does not own |
| Fork.CopiedIsCopy | src/mm/paging.c:89-99 | a complete pass maps exactly the parent's pages, each to a frame the parent does not own with the same contents, even if the parent's list names a page twice |
| Fork.CopyAt | src/mm/paging.c:89-99 | a copy is one at every address of the processor |
| Fork.CopyCanGoOn | src/mm/paging.c:91-95 | between rounds no page is free exactly if the copy so far has cost them all, and the next page has its tables exactly if there were enough for them from the start |
| Fork.CopyStep | src/mm/paging.c:91-97 | one round keeps what the copy promises so far |
| Fork.CopyBreaksOff | src/mm/paging.c:92-95 | breaking off before the end: the world is well formed exactly if the pages did not run out at a table, and then nothing that was in use changes and no other task translates differently |
| Fork.CopyEnds | src/mm/paging.c:98 | reaching the end: the same, and then the child is a copy |
| Fork.BetweenCosts | src/mm/paging.c:13-21 | a number of free pages between the costs of two rounds runs out at a table, and success is reported exactly if it was the last round |
| Fork.OnePageCopy | src/mm/paging.c:13-21 | a parent of one page: the copy is clean exactly with no free page or at least five, and with one to four it reports success all the same |
| LittleEndian.RoundTrip | tools/fs/genRamDisk.py:87 | a number that fits n bytes is read back from its n bytes |
| HeapMemory.StoreLoad | src/lib/kmalloc.c:117 | a stored word is loaded back, and no other byte changes |
| HeapMemory.StoreElsewhere | src/lib/kmalloc.c:117 | words that share no byte are independent, aligned or not |
| HeapList.SetPrev | src/lib/kmalloc.c:63 | a store to `prev` changes that field and no header it does not overlap |
| HeapList.SetNext | src/lib/kmalloc.c:64 | the same for `next` |
| HeapList.SetSize | src/lib/kmalloc.c:65 | the same for `size` |
| HeapList.SpliceLinks | src/lib/kmalloc.c:53-115 | replacing consecutive free blocks by at most one keeps prev and next mutually inverse along the whole list |
| HeapList.Exchange | src/lib/kmalloc.c:27-132 | relinked free blocks and sized live ones that fill the same addresses represent the heap with those blocks exchanged, and no byte of any other live block changes |
| HeapBlocks.Conservation | src/lib/kmalloc.c:15-279 | free bytes and live bytes add up to the heap |
| HeapBlocks.BlocksApart | src/lib/kmalloc.c:15-279 | no two blocks share a byte |
| HeapBlocks.FreeApart | src/lib/kmalloc.c:149-163 | the free list is in address order and its blocks are apart |
| HeapBlocks.CarvedTilesIff | src/lib/kmalloc.c:59-69 | carving a block leaves blocks exactly if the request holds its size word, and what is left of the block, if anything, a header |
| HeapBlocks.FirstFit | src/lib/kmalloc.c:37-38 | the first free block of sufficient size |
| HeapBlocks.AllocatedTiles | src/lib/kmalloc.c:27-132 | the blocks tile the heap after an allocation exactly if the request holds its size word, and nothing or a header's worth was left |
| HeapBlocks.FreedTiles | src/lib/kmalloc.c:134-279 | the blocks tile the heap after a release exactly if the block has room for a header or is joined to the first free block |
| HeapAllocation.Walk | src/lib/kmalloc.c:37-38 | the walk along `next` stops at the first fit, and leaves the heap exactly if nothing fits |
| HeapAllocation.RelinkOnly | src/lib/kmalloc.c:58-70 | the rest of the only free block is the whole list |
| HeapAllocation.RelinkFirst | src/lib/kmalloc.c:73-89 | the first free block, used up or shortened, with its successor relinked |
| HeapAllocation.RelinkLast | src/lib/kmalloc.c:92-101 | the last free block, with its predecessor relinked |
| HeapAllocation.RelinkMiddle | src/lib/kmalloc.c:104-115 | a block between others, with both neighbours relinked |
| HeapAllocation.Relink | src/lib/kmalloc.c:57-115 | in each of the four cases the neighbours and the rest, if it holds a header, are linked to each other, and `first_free` follows |
| HeapAllocation.AllocStep | src/lib/kmalloc.c:53-117 | relinking and storing the size represents the blocks with the fit given out |
| HeapAllocation.FitAmongFree | src/lib/kmalloc.c:37-38 | the first fit among all blocks is the first fit along the free list, and there is none in one exactly if there is none in the other |
| HeapRelease.FindAbove | src/lib/kmalloc.c:149-163 | where the search ends, and that a list of one block counts as found |
| HeapRelease.NoMerge | src/lib/kmalloc.c:235-238 | neither merge test in the middle of the list can hold |
| HeapRelease.AtFront | src/lib/kmalloc.c:187-221 | a block that can be freed, inserted in front of or merged with the first free block: the heap represents the freed blocks exactly if a free block lies above |
| HeapRelease.Between | src/lib/kmalloc.c:224-278 | a block with room for a header, freed between free blocks, is inserted in address order |
| HeapRelease.PastLast | src/lib/kmalloc.c:166-184 | past the last of several free blocks the heap is in order, for a block with room for a header, exactly if the end mark already stands where `next` goes |
| HeapRelease.Release | src/lib/kmalloc.c:149-278 | all branches together, for every live block: the heap represents the freed blocks exactly if `FreesWell`; a header is stored behind the heap exactly if there is no room for it |
| KernelHeap.Heap.constructor | src/lib/kmalloc.c:15-25 | one free block, the whole heap |
| KernelHeap.Heap.Kmalloc | src/lib/kmalloc.c:27-132 | for every size, also one that wraps: null if nothing is free, out of the heap exactly if nothing that is free fits, or what is left of the last block cannot hold a header; otherwise the first fit is given out, and the bytes represent blocks again exactly if the request holds its size word and leaves nothing or a header's worth; then the bytes asked for end where the new block does, and no byte of a live block changes |
| KernelHeap.Heap.Take | src/lib/kmalloc.c:53-127 | the fit given out and its address returned behind the size word |
| KernelHeap.Heap.Kfree | src/lib/kmalloc.c:134-279 | for every live block: it joins the free ones, and the bytes represent that exactly if `FreesWell`; then no byte of a live block changes; with nothing free, nothing happens |
| KernelHeap.FullHeapLost | src/lib/kmalloc.c:143-146 | the initial heap given out whole and given back: the block is lost and nothing is free |
| KernelHeap.ShortBlockLost | src/lib/kmalloc.c:213-216 | two requests of 8 bytes, and the first given back: its 16 bytes do not hold a header |
| KernelHeap.LowerFreeLost | src/lib/kmalloc.c:149-150 | four calls from the initial heap, after which giving back one more block breaks the list |
| HeapRuns.LowerFreeRun | src/lib/kmalloc.c:27-279 | those four calls are a run, and leave one free block below two live ones |
| HeapRuns.GivenOutApart | src/lib/kmalloc.c:117-127 | what is given out overlaps no other block, before or after |
| HeapRuns.Ledger | src/lib/kmalloc.c:27-279 | each call adds or removes exactly one live block |
| HeapRuns.UndoneIff | src/lib/kmalloc.c:134-279 | giving back what was just given out restores the blocks exactly if nothing was left of the block and the next one does not join it, or something was left and the block was the first free one |
| HeapRuns.RunTiles | src/lib/kmalloc.c:15-279 | after every call of every run the blocks tile the heap and the byte totals add up |
| HeapRuns.StaysLive | src/lib/kmalloc.c:134-138 | a live block stays where it is, as large as it is, until the call that frees it |
| SchedulerModel.PickIsFirstMaximum | src/scheduler/scheduler.c:119-128 | the loop chooses the largest counter among RUNNING tasks, and of equals the nearest ahead of the current task |
| SchedulerModel.RechargeProgress | src/scheduler/scheduler.c:134-138 | a recharge of exhausted tasks brings some task closer to a positive counter, from any counters |
| SchedulerModel.Select | src/scheduler/scheduler.c:118-139 | the loop ends, in a RUNNING task, if some RUNNING task has a positive priority or counter |
| SchedulerModel.HopelessLoops | src/scheduler/scheduler.c:118-139 | without such a task no number of rounds ends it |
| SchedulerInvariant.RechargeEffect | src/scheduler/scheduler.c:134-138 | one recharge gives every task with a priority a positive counter of at most 2P - 1 |
| SchedulerInvariant.SelectEffect | src/scheduler/scheduler.c:118-139 | the loop changes nothing but counters, and those only if all ready ones are used up |
| SchedulerInvariant.CheckTimersKeeps | src/lib/software_timer.c:39-53 | firing timers keeps sleepers and slots in one-to-one correspondence |
| SchedulerInvariant.DecideKeeps | src/scheduler/scheduler.c:109-142 | a decision hands preemption over: 0 for the task that runs, 1 for every other |
| SchedulerInvariant.StepKeeps | src/scheduler/scheduler.c:31-205 | hand-off, timers and counter bounds after every step |
| SchedulerInvariant.InitialInv | src/scheduler/scheduler.c:11-14 | and at the start |
| SchedulerInvariant.DecideCounts | src/scheduler/scheduler.c:109-142 | a decision moves one disable from the task it takes off to the one it switches to, from any counts and counters |
| SchedulerInvariant.ForkHandOff | src/scheduler/scheduler.c:31-40 | `kernel_fork` keeps the hand-off exactly if a page was allocated |
| SchedulerForks.CountsOwed | src/scheduler/scheduler.c:31-40 | over every run with failed forks among its steps, each task's count is above the hand-off's by the number of its forks that failed |
| SchedulerForks.HandOffIff | src/scheduler/scheduler.c:31-40 | so the hand-off holds in a state exactly if none has failed before |
| SchedulerForks.NeverPreempted | src/scheduler/scheduler.c:150-157 | a tick never takes a task with a failed fork off the processor, however long the run |
| SchedulerRuns.RunInv | src/scheduler/scheduler.c:88-163 | the invariant in every state of every run |
| SchedulerRuns.NoStarvation | src/scheduler/scheduler.c:109-163 | a task that stays RUNNING with priority at least 1 is picked within 2 * N_TASKS - 1 decisions, in any run |
| SchedulerRuns.DecisionWait | src/scheduler/scheduler.c:118-158 | each decision that passes a waiting task over shortens its wait |
| SchedulerRuns.DecisionPicks | src/scheduler/scheduler.c:118-140 | a decision switches to the first maximum, with a positive counter |
| SchedulerRuns.CountersBounded | src/scheduler/scheduler.c:137 | priorities of at most P keep counters at most 2P - 1 over every run |
| SchedulerRuns.DecideTimers | src/lib/software_timer.c:39-53 | a decision wakes exactly the tasks whose timers have run out, and frees exactly those slots |
| SchedulerRuns.WakesOnTime | src/lib/software_timer.c:39-53 | a sleeper is BLOCKED until the first decision at or past its finish time, and RUNNING right after that |
| SchedulerRuns.NeverEarly | src/lib/software_timer.c:10-30 | in no run does a task wake before its registration tick plus delay / 100 |
| SchedulerRuns.SleepHonoured | src/lib/software_timer.c:14-27 | a sleep lasts until that tick exactly if it lies ahead and fits 32 bits; otherwise the task is RUNNING again after the call |
| SchedulerRuns.ShortSleep | src/lib/software_timer.c:16 | a delay of less than 100 does not sleep at all |
| SchedulerRuns.SleepWithoutSlot | src/lib/software_timer.c:14-30 | the call changes nothing exactly if all five slots are taken |
| SchedulerRuns.TicksGrow | src/lib/software_timer.c:32-37 | ticks never go back |
| SchedulerRuns.ZombieForever | src/scheduler/scheduler.c:191-205 | a task that has exited never runs again |
| Scheduler.Scheduler.CheckTimers | src/lib/software_timer.c:39-53 | the loop over the slots is the model's step |
| Scheduler.Scheduler.PickNext | src/scheduler/scheduler.c:119-128 | the selection loop is the model's choice |
| Scheduler.Scheduler.RechargeAll | src/scheduler/scheduler.c:134-138 | the recharge loop is the model's recharge: each counter becomes half of it, rounded down, and the priority |
| Scheduler.Scheduler.SelectNext | src/scheduler/scheduler.c:118-139 | the outer loop ends with the model's selection |
| Scheduler.Scheduler.Schedule_ | src/scheduler/scheduler.c:109-142 | `_schedule` is one decision of the model |
| Scheduler.Scheduler.SchedulerTick | src/scheduler/scheduler.c:150-163 | a tick is a step, counts one, and keeps the invariant |
| Scheduler.Scheduler.KernelFork | src/scheduler/scheduler.c:31-86 | with a page a fork is a step, its pid is the number of tasks before, and the new task is RUNNING with its creator's priority as priority and counter; without one the result is 255, and hand-off and invariant are lost |
| Scheduler.Scheduler.RegisterOneHit | src/lib/software_timer.c:10-30 | going to sleep is a step and keeps the invariant |
| Scheduler.Scheduler.ExitTask | src/scheduler/scheduler.c:191-205 | exiting is a step, makes the task a ZOMBIE, and keeps the invariant |
| Scheduler.Scheduler.SetTaskPriority | src/scheduler/scheduler.c:165-171 | setting a priority is a step, changes that priority only, and keeps the invariant |
| Scheduler.Scheduler.constructor | src/scheduler/scheduler.c:11-13 | the initial state, which meets the invariant, and timers of its own |
| Scheduler.BootAndRun | src/scheduler/scheduler.c:150-163 | from boot, a fork, a tick and a yield are a run of the transition system |
| SchedulerEffects.DecisionCharges | src/scheduler/scheduler.c:118-139 | a decision leaves every counter as it is, the outgoing task's at 0, unless all ready ones are used up; then, once, each becomes half of it and the priority |
| SchedulerEffects.YieldEffect | src/scheduler/scheduler.c:144-148 | a yield charges like that and goes on with the first maximum |
| SchedulerEffects.TickEffect | src/scheduler/scheduler.c:150-163 | a tick counts, and takes one from the counter of the current task and does nothing else, unless that was the last |
| SchedulerEffects.TimeSlice | src/scheduler/scheduler.c:150-163 | a task with c left keeps the processor for c - 1 ticks and no longer |
| SchedulerEffects.TicksCounted | src/lib/software_timer.c:32-37 | over every run the clock counts the ticks |
| SchedulerEffects.SleepEnds | src/lib/software_timer.c:10-53 | a sleeper is BLOCKED until the first decision that comes delay / 100 ticks or more later, and RUNNING right after it |
| SchedulerEffects.ForkEffect | src/scheduler/scheduler.c:56-81 | a fork adds one task, RUNNING, with its creator's priority as priority and counter, and changes no other |
| SchedulerEffects.ExitIsFinal | src/scheduler/scheduler.c:191-205 | a task that exits is a ZOMBIE in every later state of every run, and never current |
| SchedulerEffects.PriorityEffect | src/scheduler/scheduler.c:165-171 | a priority changes exactly when it is set, and then to what it is set to |
| SchedulerEffects.SetPriorityEffect | src/scheduler/scheduler.c:165-171 | setting a priority changes nothing else |
| SchedulerEffects.PriorityLasts | src/scheduler/scheduler.c:165-171 | over every run a priority lasts until it is set again |
| RamDiskTrees.SubtreeContiguous | tools/fs/genRamDisk.py:66-80 | the ids of every subtree follow each other without a gap |
| RamDiskTrees.ChildAt | tools/fs/genRamDisk.py:116-118 | the ids listed for a directory are the numbers of its children |
| RamDiskTrees.ResolveIff | src/fs/rdfs/rdfs.c:55-92 | names lead to node k exactly if they are the names on the way to it |
| RamDiskTrees.ResolveFails | src/fs/rdfs/rdfs.c:84 | resolution fails exactly where a component names no child of what the ones before it lead to |
| RamDiskImage.EntriesAt | tools/fs/genRamDisk.py:84-106 | the offset of record i is the sum of the sizes before it |
| RamDiskImage.RecordFields | tools/fs/genRamDisk.py:87-105 | every field is read back from the 96 bytes of a record, and the type byte is 1 for a directory and 2 for a file |
| RamDiskImage.RecordAt | tools/fs/genRamDisk.py:82-107 | record i lies at 96 * i |
| RamDiskImage.DataAt | tools/fs/genRamDisk.py:109-123 | the data of node i lies between the sums of the sizes before and up to it |
| RamDiskWriter.FlattenDir | tools/fs/genRamDisk.py:66-80 | lists the objects of the tree in preorder and numbers them from `start_id` on |
| RamDiskWriter.NodesMatch | tools/fs/genRamDisk.py:66-80 | position k of that list is node k of the tree's preorder |
| RamDiskWriter.ChildNode | tools/fs/genRamDisk.py:69-79 | a child of the object at position k is at the position its number says |
| RamDiskWriter.GenHeader | tools/fs/genRamDisk.py:8-23 | the 96 header bytes |
| RamDiskWriter.GenFileDirectories | tools/fs/genRamDisk.py:82-107 | the loop writes the records of all nodes in the order of their ids |
| RamDiskWriter.GenDataDirectories | tools/fs/genRamDisk.py:109-123 | the loop writes the data of all nodes, with the ids that the objects hold |
| RamDiskWriter.ById | tools/fs/genRamDisk.py:137-146 | filling `bin_list` at index `id` leaves no gap |
| RamDiskWriter.BuildImage | tools/fs/genRamDisk.py:134-157 | the whole program writes the image of the tree and leaves ids 0 to n - 1 on its objects |
| RamDiskPaths.SplitJoin | src/fs/rdfs/rdfs.c:61-76 | joining names with slashes and splitting gives them back |
| RamDiskPaths.JoinSplit | src/fs/rdfs/rdfs.c:61-76 | the components of any path have no slash, and joined they are the path but for one trailing slash |
| RamDiskPaths.CompareIff | src/asm/utils.S:66-84 | a NUL-terminated name is the same exactly if it stands there with its NUL, and the comparison reads behind the bytes exactly if all of them agree with the name |
| RamDiskPaths.NodeCompare | src/fs/rdfs/rdfs.c:39 | at a node's id the comparison tells whether the stored name is the component |
| RamDiskPaths.NodeListed | src/fs/rdfs/rdfs.c:25-35 | at a node's id, of a directory or not, the list is the words of its data |
| RamDiskPaths.DirStep | src/fs/rdfs/rdfs.c:79-84 | in a directory, list and stored names find the child that the tree has under a name |
| RamDiskPaths.WalkIsResolve | src/fs/rdfs/rdfs.c:61-88 | with no file in the way the walk over the bytes of the image finds what the names lead to in the tree |
| RamDiskPaths.WalkIff | src/fs/rdfs/rdfs.c:55-92 | then it finds node k exactly for the names on the way to it, and fails exactly where a name is missing |
| RamDiskPaths.PathFound | src/fs/rdfs/rdfs.c:55-92 | every node has a path that resolves to its id |
| RamDiskStrays.SameRecord | src/fs/rdfs/rdfs.c:26 | two ids address the same record exactly if they agree modulo 2 to the 59, because the address is computed in 64 bits |
| RamDiskStrays.SlotCompare | src/fs/rdfs/rdfs.c:39 | any word that addresses the record of a node is compared by the name of that node |
| RamDiskStrays.NothingBehindFile | src/fs/rdfs/rdfs.c:79-84 | behind a file the tree has nothing, but the walk goes on with the words of the file as ids |
| RamDiskStrays.WalkOutcome | src/fs/rdfs/rdfs.c:25-92 | for every image of a tree, every id and all names, over words and bytes of the image: the reader reads behind the image exactly if the first word whose record is not of another name has its name cut off by the end of the image, or leads to such a word or to a record or data that is not in the image; it finds something exactly if such words lead to a record by all the names |
| RamDiskStrays.AgreesIff | src/fs/rdfs/rdfs.c:79-84 | the reader's answer is the tree's exactly if the words of a file in the way lead neither behind the image nor to a record |
| RamDiskStrays.OneTooMany | src/fs/rdfs/rdfs.c:37-45 | for one name too many: right exactly if every word of the file addresses bytes that are another name |
| RamDiskStrays.FoundInsideFile | src/fs/rdfs/rdfs.c:79-84 | a tree and a path where the reader finds a node that is not there, for every word that addresses its record and whatever word follows |
| RamDiskStrays.OutsideFromFile | src/fs/rdfs/rdfs.c:79-84 | a tree and a path where the reader reads behind the image |
| RamDiskStrays.StrayAgrees | src/fs/rdfs/rdfs.c:79-84 | a file whose words number no node, and a path behind it that the reader rightly does not find |
| RamDiskStrays.StrayFound | src/fs/rdfs/rdfs.c:79-84 | a file that holds the bytes of a record of its own making, whose name the reader finds behind it |
| RamDiskRecords.ImageReadable | src/fs/rdfs/rdfs.c:15-21 | in the generator's image every record reads back and every extent is where `DATA_LOCATION` looks |
| RamDiskRecords.HeaderBytes | tools/fs/genRamDisk.py:8-17 | the first 80 bytes of the image one by one: magic number, partition size, name, zeros |
| RamDiskRecords.TypeByte | tools/fs/genRamDisk.py:88-93 | for every node the byte 8 of its record is 1 for a directory and 2 for a file |
| RamDiskReader.RamDisk.Init | src/fs/rdfs/rdfs.c:12-21 | 0 exactly for the magic number; then the number of files is the number of nodes |
| RamDiskReader.RamDisk.FileListFromDirId | src/fs/rdfs/rdfs.c:25-35 | the words that the record at the id's address points to, whatever was written there; outside exactly if the record or its data is not in the image |
| RamDiskReader.Strcmp | src/asm/utils.S:66-84 | up to the first NUL in either string, or the first difference |
| RamDiskReader.RamDisk.FileIdFromListAndName | src/fs/rdfs/rdfs.c:37-45 | the first listed id whose record has the name, or -1 if all have other names; outside exactly if a name cut off by the end of the image comes before |
| RamDiskReader.ScanComponent | src/fs/rdfs/rdfs.c:63-66 | the 16-bit counter finds the end of a component of less than 65536 characters |
| RamDiskReader.NextComponent | src/fs/rdfs/rdfs.c:63-76 | one component is split off, and parsing goes on behind it |
| RamDiskReader.LongComponent | src/fs/rdfs/rdfs.c:63-66 | in a component of 65536 characters or more the scan comes to its end in no number of rounds |
| RamDiskReader.RamDisk.FileGetIdFromPath | src/fs/rdfs/rdfs.c:55-92 | for any bytes: the loop returns the id that the walk finds, or -1 exactly if it finds none, and reads behind the image exactly if the walk does |
| RamDiskReader.RamDisk.OpenFile | src/fs/rdfs/rdfs.c:133-149 | the record filled in with index 0, or -1 and no change |
| RamDiskReader.RamDisk.ReadFile | src/fs/rdfs/rdfs.c:151-167 | for any bytes and any id: as many of the next bytes as asked for and left, copied and counted; a read of none copies 8; outside exactly if the record or what is copied is not in the image |
| RamDiskReader.NodeRead | src/fs/rdfs/rdfs.c:151-167 | at a node's id that is the next piece of its data; the subtraction never wraps |
| RamDiskReader.RamDisk.IdIsDir | src/fs/rdfs/rdfs.c:110-113 | the type byte at the id's address is 1 |
| RamDiskReader.NodeIsDir | src/fs/rdfs/rdfs.c:110-113 | at a node's id that holds exactly for a directory |
| RamDiskReader.RamDisk.Readdir | src/fs/rdfs/rdfs.c:115-123 | the list at the id that the path resolves to, or null if it is missing or the record is no directory's |
| RamDiskRoundTrip.RoundTrip | tools/fs/genRamDisk.py:127-160 | for every tree and node: the image is readable, the node's path resolves to its id, the record there says whether it is a directory, and a read at that id gives its content or its children's ids |
| RamDiskRoundTrip.ReaddirNode | src/fs/rdfs/rdfs.c:115-123 | for a node that is its children's ids in order exactly for a directory, and null for a file |
| RamDiskRoundTrip.FoundIff | src/fs/rdfs/rdfs.c:55-92 | which paths resolve to which node, and which fail |
| RamDiskRoundTrip.ExtentsTile | tools/fs/genRamDisk.py:84-106 | extents follow each other from 0 to the size of the data section |
| RamDiskRoundTrip.ReadsArePrefix | src/fs/rdfs/rdfs.c:151-167 | reads of any sizes return consecutive bytes from where they start |
| RamDiskRoundTrip.ZeroMeansAll | src/fs/rdfs/rdfs.c:158 | a read returns 0 exactly if the reads before it returned the whole file |
| ByteBits.SetBit | src/fs/fd.c:58 | the shifted or sets one bit of the byte and no other |
| ByteBits.ClearBit | src/fs/fd.c:75 | the shifted and clears one bit and no other |
| FdTables.Created | src/fs/fd.c:46-69 | the least closed descriptor, or -1 exactly if all 120 are open |
| FdTables.ChangeAgrees | src/fs/fd.c:58-61 | changing one bit and one record keeps every bit in agreement with its record |
| FdTables.ReadsBack | src/fs/fd.c:14-20 | in every run a created record reads back, with flags 1, until it is deleted |
| FdTables.StaysClosed | src/fs/fd.c:71-79 | in every run a deleted descriptor is closed until a create returns it |
| FdTables.ReusedIff | src/fs/fd.c:46-69 | a create right after a delete returns that descriptor exactly if all below are open |
| FdTables.FirstZero | src/fs/fd.c:55-65 | the shifting loop finds the lowest clear bit |
| FdTables.InitAgreesIff | src/fs/fd.c:30-34 | after the initialisation as written bitmap and records agree exactly if the memory behind the first 42 records held no flags, and then nothing is open |
| FdTables.FdTable.constructor | src/fs/fd.c:22-36 | the memory that was given, zeroed as far as the source zeroes it; valid exactly then |
| FdTables.FdTable.IsValidFd | src/fs/fd.c:7-12 | true exactly for an open descriptor, and never for one without a bit |
| FdTables.FdTable.GetFileFromFd | src/fs/fd.c:14-20 | a copy of the record, or -1 exactly if the descriptor is closed |
| FdTables.FdTable.CreateFd | src/fs/fd.c:46-69 | bitmap and records change together as `Created` says |
| FdTables.FdTable.DeleteFd | src/fs/fd.c:71-79 | the descriptor is closed in bitmap and records, and every other is as before |
| Vfs.VfsRead | src/fs/read.c:6-17 | what the reader copies from the index stored in the table, which stays what it was, or the timer's four bytes |
| Vfs.NodePiece | src/fs/read.c:16 | of a node, that is the piece that starts at the stored index |
| Vfs.PiecesOf | src/fs/read.c:6-17 | reads of any sizes through one descriptor return the pieces that all start at its index |
| Vfs.PiecesIff | src/fs/read.c:16 | they make up the file exactly if nothing is left to read, or each piece but the first is there in full and repeats the start |
| Vfs.TwoBytes | src/fs/read.c:16 | the file "ab" read byte by byte is "aa" |
| NumberFormat.NumeralMeaning | src/utils/printf.c:60-76 | the digits of a numeral are below the base, have its value, and do not start with 0 unless it is 0 |
| NumberFormat.SameDigits | src/utils/printf.c:60-76 | such digits are unique |
| NumberFormat.SpreadIsNumeral | src/utils/printf.c:66-74 | dividing by falling powers, from the highest that fits, gives exactly the numeral |
| NumberFormat.DigitTable | src/utils/printf.c:71 | the sixteen digits, in either case |
| NumberFormat.OnlyDigits | src/utils/printf.c:87-96 | those characters and no others are digits to `a2d` |
| NumberFormat.InOrder | src/utils/printf.c:66-74 | the most significant digit comes first |
| NumberFormat.DigitsFit | src/utils/printf.c:128 | a 32-bit number has at most 10 decimal and 8 hexadecimal digits |
| NumberFormat.FindPower | src/utils/printf.c:63-65 | `d` ends as the highest power not above the number, and never overflows 32 bits |
| NumberFormat.PutDigits | src/utils/printf.c:66-74 | one character for each power, none skipped |
| NumberFormat.Ui2a | src/utils/printf.c:60-76 | the numeral's text and a NUL, and nothing else in the buffer |
| NumberFormat.I2a | src/utils/printf.c:78-85 | sign, numeral and NUL fit `bf[12]` for every int, the least one included |
| NumberFormat.A2i | src/utils/printf.c:98-111 | the value of the characters it takes, the character it stopped at, and the place behind it |
| NumberFormat.ReadBack | src/utils/printf.c:98-111 | what `ui2a` writes `a2i` reads back, if the next character is not one it accepts |
| NumberFormat.StopsIff | src/utils/printf.c:104 | `a2i` stops where the digits of the base stop exactly if no digit equal to the base follows them |
| NumberFormat.TenIsADigit | src/utils/printf.c:104 | "1a" in base 10 is read as 20 |
| NumberFormat.Putchw | src/utils/printf.c:113-124 | the text preceded by exactly the padding that the width asks for |

## Left out

- KernelHeap.Heap.Kmalloc: what stands in the bytes when they represent no blocks any more; with `outside` the model stops at the first access outside the heap.
- KernelHeap.Heap.Kfree: takes null and pointers that `kmalloc` gave out and that were not freed since; the index of the block is a ghost argument.
- Kernels.Kernel.CopyVirtualMemory: into an empty address space, and for page-aligned user addresses. `stopped` stands for an access to an address without memory, which can follow only when the pages have run out at a table; what becomes of other tasks then is open, because the words at address 0 are.
- Paging.MapPage: with `overrun` the model stops at the store; what lies behind the arrays is not part of this model.
- Scheduler.Scheduler.KernelFork: requires room in `task_array`. The copied address space is in `Kernels`.
- Scheduler.Scheduler.ExitTask: the descriptor table and the stack page are not given back. Task 0 does not exit or sleep and keeps a positive priority, as in `main`.
- RamDiskReader.RamDisk.FileGetIdFromPath: requires components of less than 65536 characters; with a longer one the source does not return (`RamDiskReader.LongComponent`). What lies behind the image is not part of this model, nor that an empty component is copied as 8 bytes into a buffer of one.
- NumberFormat.A2i: requires that the number fits an int.
- FdTables.FdTable.DeleteFd: requires a descriptor with a bit.
- FdTables.FdTable.constructor: that `memzero_u8` also zeroes three bytes behind the bitmap.
- The current task is its index in `task_array`, and tasks are never removed from it, as in the source.
- `memcpy` and `memzero` are trusted for positive sizes.
- `free_page`: src/mm/mm.c:40-46 does not decode what the allocator of the same build encodes; the build without the bitmap is left out.
- Boot, exception entry, saved registers, `cpu_switch_to` beyond the change of the current task, and every device.
- Interrupts inside a scheduler, timer or allocator routine: each is one step.
- `uli2a`, `li2a` and the format loop of `tfp_format`.
- `rdfs_getattr`, `rdfs_filename_from_id` and `vfs_open`, which only pass on what is modelled.
- Failure of `kmalloc` inside path resolution, and the lists it leaks.
- Names with characters above 255 and sizes above 64 bits, for which the generator stops with an error, and images too large for 64-bit addresses.
- The scan of the directory on disk; the objects it makes form a tree, and the bytes of a file are a field of its object.
- System calls, the shell and the ELF loader.
