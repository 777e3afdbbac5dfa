# A model of the kernel's core, with proofs

This Dafny project models the parts of the kernel where memory, tasks, devices and text formats
are managed by hand, and proves what they are for:

* **Paging.** The directory, its tables and the table-info page as words in memory
  (`PageTables.dfy`, `Mmu.dfy`, `SpaceTables.dfy`, `Spaces.dfy`), over the page pool and the
  physical page bitmap (`Bitmaps.dfy`, `PagePool.dfy`, `PhysicalMemory.dfy`). The abstraction is
  `Lookup`, the mapping of every page of every space; each operation changes it on the pages named
  and nowhere else. `HardwareWalk.dfy` shows that the processor's own walk sees the same mapping,
  `SlotCounts.dfy` what becomes of pages that are not as the loops take them to be, and
  `PoolOverrun.dfy` what the page pool's search does with its bound as written.
  `UserCopy.dfy`, `Elf.dfy` and `ElfImage.dfy` build on it: copies across pages, loading an ELF
  file, and what that makes of a program laid out as the format has it.
* **The heap.** Block headers in memory against the list of blocks they spell (`HeapBlocks.dfy`,
  `HeapRealloc.dfy`, `Heap.dfy`, `HeapRuns.dfy`, `HeapOverlap.dfy`).
* **The scheduler.** The run queue as a state machine (`RunQueue.dfy`) and as linked structures
  (`Scheduler.dfy`).
* **Devices.** The RTL8139 transmit ring (`TransmitRing.dfy`) and the blocking terminal read
  (`TerminalRead.dfy`).
* **Text and formats.** Number printing and parsing, dotted addresses, `vsnprintf`, the tar
  archive against the ustar format of POSIX.1, the mount table (`Bits.dfy`, `CStrings.dfy`,
  `Numerals.dfy`, `Inet.dfy`, `Printf.dfy`, `Ustar.dfy`, `InitialRamdisk.dfy`, `MountTable.dfy`).

Objects the source updates in place are classes; each method is proved against functions or
predicates on values, and the lemmas beside it say what those keep over every run. Allocation
failures and failed assertions end in the outcome `Panicked`. Interrupt handlers are atomic steps.
`dafny verify dfyconfig.toml` checks everything.

## Where the code does not do what it promises

Each of these is stated in the model, as an equivalence where the code is right on some inputs.

* `mm_umap_range` returns -1 always; `doc/memory.rst` promises 0 on success
  (`Mapping.Mmu.UmapRange`). It is to unmap what is mapped, and counts absent pages as well: a
  page of a table is unmapped rightly exactly when it was mapped; otherwise the count falls
  short, or the table goes with the one page that is mapped (`SlotCounts.LeaveExact`). Mapping a
  page that is mapped counts it twice (`SlotCounts.EnterExact`). Freeing a 4 MiB page frees
  128 KiB of it (`Mapping.Mmu.UmapHugePages`).
* `mm_map_range` does not look whether it got a frame: the absent pages all have one that was
  free exactly when none of them comes after as many pages as there were free frames
  (`Mapping.FramesRunOutExact`); the others get the word 0xFFFFFFFF.
* A page made into a table is not cleared: the rest of the space keeps its mapping exactly when
  the page held no other live entry (`HardwareWalk.FreshTableMustBeClear`). The directory page
  `mm_destroy_space` gives back is such a page: made a table of another space, it maps pages
  there that nobody mapped (`HardwareWalk.DestroyedPageSpoils`). The tables of the space leak
  (`Mapping.Mmu.DestroySpace`).
* The page pool searches 1024 words of a 32-word bitmap. It stays in the bitmap exactly when a
  bit at or after its cursor is clear there (`PoolOverrun.InsideExact`); once out of it, every
  page handed out is the same one, whatever is given back (`PoolOverrun.OutForGood`). The first
  1026 pages of a fresh region are all different, and no more (`PoolOverrun.TwiceExact`).
* `elf_load` does not clear `.bss`: a byte of it reads what one of the frames free at the call
  held there, so zero if all of them held zeros and not if none did (`Elf.NotCleared`);
  `Elf.DirtyBss` is a program for which it is not.
* The first split in `heap_alloc_single` leaves the block behind with a stale back link: the list
  is right exactly when the last block was split (`HeapBlocks.SplitAsWrittenExact`), and a short
  run ends with a free block over a live one (`HeapOverlap.LiveBlockCovered`). The heap below
  sets the link, as the two sibling splits do.
* `heap_realloc` growing by a split is right exactly when the new header does not fall within
  reach of the old one (`HeapRealloc.GrowSplitExact`). A block of 28 bytes handed out for 20 and
  resized to 20 is a case that fails (`HeapRuns.SlackResizeGoesWrong`). Shrinking the last block
  loses the rest of the region: a resize costs more than a header exactly there
  (`HeapRuns.CostBound`).
* A task that waits for pid 0 waits on until a handled signal hits it, and for nothing else
  (`RunQueue.WaitForIdle`). A task that waits for another pid wakes in the exit's own switch if it
  is behind the task that exits, and otherwise only in the next one (`RunQueue.StepReleases`).
* A transmit-OK that arrives together with a receive-OK, or while a receive-OK or error is
  acknowledged, is acknowledged and not handled, and a transmit error is enabled and has no
  branch (`TransmitRing.Nic.Irq`). From then on the hardware raises no other and the ring hands
  over nothing more (`TransmitRing.StallsForGood`, `TransmitRing.ErrorStops`); it can go on
  exactly after the runs in which neither happens (`TransmitRing.KeepsGoingExactly`).
* `vfs_send_read_res` cuts a delivery to the length of the read and not to what is left of it
  (`TerminalRead.Overruns`, `TerminalRead.NeverEnds`). Its one caller delivers single bytes, so
  the overrun is latent.
* `atoi` takes back what `debug_ds` prints exactly for the numbers from 0 to 2^31 - 1: it knows
  no sign, and its result has 32 bits (`Numerals.AtoiOfSigned`).
* The tar walk steps from a header to the next exactly unless the entry has data and `tar_type`
  does not call it a file, or its size field has a space at its end; then it steps into the data
  (`InitialRamdisk.StepExact`). POSIX.1 allows both, for files of type 7 and pax headers the
  first. So a file of type 7 is not found and a header in its data is
  (`InitialRamdisk.TypeSevenMissed`, `InitialRamdisk.SpaceMisread`). `tar_oct2u32` reads back a
  field with a space at its end exactly if it holds 0xFFFFFFF0 (`InitialRamdisk.SizeRoundTrip`).
* The tar search looks at the name field alone, not at the prefix
  (`InitialRamdisk.PrefixIgnored`): in an archive it can walk, it finds the file with the
  pathname asked for, or that there is none, exactly if that file is reachable
  (`InitialRamdisk.FindExact`, `InitialRamdisk.ShortReachable`).
* `vfs_lookup_file` lets a partly matching mount point win, and takes one component off the path
  however many matched: it is right exactly when `Mounts.Favourable` holds
  (`Mounts.MountTable.Lookup`, `Mounts.FavourableIs`), which one-component mount points guarantee
  (`Mounts.OneComponentRight`).
  `Mounts.DeepMountTakesOver` is a table and a path that fail.

## Model

| member | source | states |
|---|---|---|
| PhysicalMemory.PhysicalPages.AllocatePage | src/arch/x86/mm/phys.c:19-57 | the two passes return the first free page at or after the start of the cursor's word, or else the first of all; MM_NADDR exactly when no page is free; only that page's bit changes |
| PhysicalMemory.PhysicalPages.FreePage | src/arch/x86/mm/phys.c:95-105 | a page in use becomes free, no other changes |
| PhysicalMemory.PhysicalPages.FreeHuge | src/arch/x86/mm/phys.c:95-99 | freeing a 4 MiB page whose first word is full frees the first 32 of its 1024 pages, no other changes |
| PhysicalMemory.PhysicalPages.AddPage | src/arch/x86/mm/phys.c:78-81 | exactly the page registered becomes free |
| Bitmaps.Scan | src/arch/x86/mm/phys.c:23-38 | one pass finds the first clear bit of its words or shows that there is none |
| PagePool.Pool.Allocate | src/arch/x86/mm/space.c:17-66 | a live page is never handed out twice, MM_NADDR exactly when all are live, and virtual minus physical is constant in a region |
| PagePool.Pool.Free | src/arch/x86/mm/space.c:68-83 | exactly the page given back stops being live |
| PagePool.PhysicalInjective | src/arch/x86/mm/space.c:38-43 | different pool pages lie on different physical pages |
| PoolOverrun.InsideExact | src/arch/x86/mm/space.c:31-46 | the search of a region, its bound of 1024 words as written, stops at a clear bit of the region's bitmap if and only if there is one at or after the cursor's word, whatever is free before it; otherwise at one of the six lowest bits of index_last |
| PoolOverrun.OutForGood | src/arch/x86/mm/space.c:31-46 | once such a stop has left the cursor behind the bitmap, every page handed out, over every run of requests and returns, is the one just behind the region |
| PoolOverrun.NthIs | src/arch/x86/mm/space.c:17-46 | a fresh region hands out its pages 0 to 1023 in order, then page 1029, and then page 1024 every time |
| PoolOverrun.TwiceExact | src/arch/x86/mm/space.c:17-46 | with nothing given back, n pages handed out are all different if and only if n is at most 1026, and all the region's own if and only if n is at most 1024 |
| PoolOverrun.NextRegion | src/arch/x86/mm/space.c:38-43 | the address formed for a bit behind the bitmap is a page of the next region |
| PageTables.SlotStepSound | src/arch/x86/mm/map.c:13-66 | rewriting one slot of one directory, if sound there, keeps the invariant of all paging structures and every other page's mapping in every space |
| PageTables.EnterSound | src/arch/x86/mm/map.c:93-103 | entering a page into the slot's table keeps the invariant, the count included, and changes the mapping of that page only |
| PageTables.EnterFreshSound | src/arch/x86/mm/map.c:105-118 | making a clear pool page the table of an empty slot, with the one entry in it, keeps the invariant and changes the mapping of that one page only |
| PageTables.LeaveSound | src/arch/x86/mm/map.c:190-195 | clearing an entry that is not the last unmaps that page only; the table stays |
| PageTables.LeaveLastSound | src/arch/x86/mm/map.c:195-202 | clearing the last entry unmaps that page only; the slot is empty and its table all zero, free to go |
| PageTables.CountIsMappings | src/arch/x86/mm/map.c:98-103 | a slot has a table exactly when some 4 KiB page of it is mapped, and the count in the info page is the number of those pages |
| PageTables.HugeSound | src/arch/x86/mm/map.c:72-78 | a 4 MiB page comes and goes with the directory word, changing that slot's pages only |
| SlotCounts.EnterExact | src/arch/x86/mm/map.c:93-103 | entering a page into a table keeps the slot's bookkeeping and changes that page alone if and only if the page was absent; otherwise the count is one too high |
| SlotCounts.LeaveExact | src/arch/x86/mm/map.c:185-203 | clearing an entry keeps the slot's bookkeeping and changes that page alone if and only if the page was mapped; otherwise the count is one too low, or the one mapped page of the slot loses its mapping |
| HardwareWalk.WalkAgrees | src/arch/x86/mm/map.c:210-237 | the two-level walk by physical addresses (Intel SDM volume 3A, section 4.3) finds for every page of every space what mm_translate finds through the info page |
| HardwareWalk.FreshTableMustBeClear | src/arch/x86/mm/map.c:48-61 | every other page keeps its mapping if and only if the page made a table had no other live entry |
| HardwareWalk.DestroyedPageSpoils | src/arch/x86/mm/space.c:113-116 | the directory page of a destroyed space that mapped anything, made a table of another space, changes the mapping of a page that was not being mapped |
| Mapping.Mmu.constructor | src/arch/x86/mm/mm.c:20-36 | the adopted boot directory meets the invariant and maps its 4 MiB pages |
| Mapping.Mmu.MapPage | src/arch/x86/mm/map.c:89-119 | one page gets its mapping and no other page of any space changes, or the pool is exhausted and nothing does |
| Mapping.Mmu.MapRangePages | src/arch/x86/mm/map.c:68-126 | over a range of absent pages the mapping becomes the frames given, in order, each word present, with exactly the MM_FLG_WR and MM_FLG_US bits of the flags and no PS bit; it is unchanged elsewhere in every space |
| Mapping.Mmu.MapRangeLinear | src/arch/x86/mm/map.c:142-152 | a range of absent pages comes to map consecutive frames from pstart on, each word present, with exactly the MM_FLG_WR and MM_FLG_US bits of the flags and no PS bit; nothing else changes in any space |
| Mapping.Mmu.MapRangeLinearHuge | src/arch/x86/mm/map.c:132-141 | with MM_FLG_PS, the directory slots from that of start on come to map consecutive 4 MiB frames, each word present, with the PS bit and exactly the MM_FLG_WR and MM_FLG_US bits of the flags; nothing else changes in any space |
| Mapping.Mmu.MapRange | src/arch/x86/mm/map.c:13-66 | absent pages get distinct frames that were free, in words with exactly the MM_FLG_WR and MM_FLG_US bits of the flags, present ones (with MM_FLG_MERGE) keep theirs; one frame is taken for every page, also where it is then not used; past the last free frame absent pages get the word 0xFFFFFFFF |
| Mapping.FramesRunOutExact | src/arch/x86/mm/map.c:31-43 | all absent pages of the range have got frames that were free if and only if none of them lies past as many pages as there were free frames |
| Mapping.Mmu.UmapRange | src/arch/x86/mm/map.c:157-208 | the range becomes unmapped and nothing else changes; the frames are freed, or kept with MM_FLG_NOPHYS; the result is -1 |
| Mapping.Mmu.UnmapPage | src/arch/x86/mm/map.c:187-202 | one page becomes unmapped, its frame freed unless MM_FLG_NOPHYS; the table goes back to the pool with its last entry |
| Mapping.Mmu.MapHugePages | src/arch/x86/mm/map.c:72-86 | exactly the directory slots named come to map the 4 MiB frames given, with the PS bit and exactly the MM_FLG_WR and MM_FLG_US bits of the flags |
| Mapping.Mmu.UmapHugePages | src/arch/x86/mm/map.c:160-176 | exactly the directory slots named become unmapped, in this space only; without MM_FLG_NOPHYS the first 128 KiB of each frame, and no more, become free; the result is -1 |
| Mapping.HugeFreedIs | src/arch/x86/mm/map.c:166-170 | the pages given back are the first 32 of the frame in each word, and no others |
| Mapping.Mmu.Translate | src/arch/x86/mm/map.c:210-237 | the address, and in the flags exactly the writable and user bits of the word and the PS bit of a 4 MiB page; for absent, 4 KiB and 4 MiB pages |
| Mapping.FlagBits | src/sys/mm.h:7-12 | the flags are single bits, no two the same: each test sees its own and no other |
| Mapping.EnteredReported | src/arch/x86/mm/map.c:210-237 | what mm_translate reports of an entered word has the bits of the flags it was entered with |
| Mapping.MapAndTranslate | src/arch/x86/mm/map.c:68-237 | a page mapped and then translated: the frame and the offset in it, and exactly the MM_FLG_WR and MM_FLG_US bits of the call come back |
| Mapping.Mmu.CreateSpace | src/arch/x86/mm/space.c:85-111 | a new space that maps nothing, all others as before; free pages that are not clear come to no more, and its two are none of them |
| Mapping.Mmu.DestroySpace | src/arch/x86/mm/space.c:113-116 | the space goes, its two pages are freed, its tables stay in use; its directory page is then a free page that is not clear, and its info page may be one, but no other page becomes one |
| Mapping.Mmu.CloneKernel | src/arch/x86/mm/space.c:120-149 | every kernel address translates alike in both spaces, through tables of the clone's own; the clone maps nothing else, whatever it mapped before, and no page of any other space changes |
| SpaceTables.ClearedSound | src/arch/x86/mm/space.c:121-126 | clearing a directory and its table information keeps the invariant: the space maps nothing, every other space maps what it did |
| SpaceTables.CloneTableSound | src/arch/x86/mm/space.c:137-145 | one table copied with its count keeps the invariant, the new slot mapping what the old one does |
| SpaceTables.AbandonedSound | src/arch/x86/mm/space.c:113-116 | destruction keeps the other spaces sound, orphans exactly the space's tables, and leaves its directory page not clear |
| SpaceTables.NewSpaceSound | src/arch/x86/mm/space.c:95-108 | creation keeps the invariant and every mapping |
| Spaces.MmSpaceFork | src/arch/x86/mm/space.c:152-190 | for every user page of the parent the child has one whose word is present, open to the user and writable exactly if the parent's is, with equal bytes, on distinct frames that were free; kernel addresses map alike; no other space and no memory in use before changes |
| Spaces.ForkStep | src/arch/x86/mm/space.c:174-185 | one more page copied keeps all that for the pages before it |
| UserCopy.Machine.MemcpyUserToKernel | src/arch/x86/mm/user.c:6-39 | exactly count bytes arrive for every alignment and any frames, the rest of the buffer and every space's mapping as before |
| UserCopy.Machine.MemcpyKernelToUser | src/arch/x86/mm/user.c:41-74 | every byte that no later one of the copy lies on reads back in the target space, also where pages share a frame; no other byte of memory changes, nor any mapping |
| UserCopy.StoredApart | src/arch/x86/mm/user.c:47-71 | where the pages have a frame each, every byte of such a copy reads back |
| UserCopy.ReadIsWalk | src/arch/x86/mm/user.c:6-39 | a byte read is the one at the physical address the processor's walk comes to |
| UserCopy.Machine.StrncpyUserToKernel | src/arch/x86/mm/user.c:76-113 | with room for a character it returns inside its loop with the prefix and a NUL, the length at most count, no page past the terminator looked at |
| UserCopy.CopyTurn | src/arch/x86/mm/user.c:13-19 | the pieces of the page loop are inside their pages and follow each other without gap |
| UserCopy.StoredExtend | src/arch/x86/mm/user.c:47-71 | pieces written one after the other, page by page, add up to the whole, the later ones over the earlier |
| Elf.ElfLoad | src/sys/elf.c:18-62 | every byte of an allocatable PROGBITS section reads back at sh_addr + i as file byte sh_offset + i; every page of an allocatable section is mapped, and where it was not before, with user access, writable, on a frame that was free; all other pages keep their mapping and all other memory its bytes; -1 for a wrong identification |
| Elf.NotCleared | src/sys/elf.c:41-56 | a byte of a page the load mapped, in no PROGBITS section, as those of .bss are, reads what one of the frames free at the call held there: zero if all of them held zeros, not zero if none did |
| Elf.DirtyBss | src/sys/elf.c:41-56 | four bytes of .bss, loaded with ones in every free frame, do not read zero |
| Elf.StoreStep | src/sys/elf.c:51-53 | filling one section keeps the bytes of those before it |
| ElfImage.HeaderReads | src/sys/linux/elf.h:203-218 | its ELF header reads as that of an ELF file, with the entry point, the number of sections and the place of their headers |
| ElfImage.SectionReads | src/sys/linux/elf.h:303-308 | in the file of a program, laid out byte by byte, section header i reads as section i, with its data at the offset it says |
| ElfImage.LoadProgram | src/sys/elf.c:18-62 | loading the file that a program encodes to: every byte of each allocatable PROGBITS section is at its address, as the processor's walk finds it; every page of each allocatable PROGBITS or NOBITS section is mapped, where it was not before for reading and writing by the user; every other page is as it was; the entry point comes back |
| HeapBlocks.SplitSpells | src/sys/heap.c:163-177 | with the back link set, the split's writes leave memory spelling the list with the two blocks |
| HeapBlocks.SplitAsWrittenExact | src/sys/heap.c:168-171 | as written they do if and only if the last block was split |
| HeapOverlap.LiveBlockCovered | src/sys/heap.c:163-219 | two allocations and two frees with the link missing leave a free block of 96 bytes over a live one |
| HeapBlocks.AllocKeeps | src/sys/heap.c:151-177 | handing out a block keeps the list laid out, disjoint and without free neighbours; space is constant, less the slack of a block taken whole |
| HeapBlocks.AllocUsed | src/sys/heap.c:151-187 | handing out puts a block of exactly count bytes into use, at the free one's address; the other blocks in use stay as they are |
| HeapBlocks.FreeSpells | src/sys/heap.c:190-220 | the writes of a free, in either order of its two merges, leave the merged list, writing header words only |
| HeapBlocks.FreeKeeps | src/sys/heap.c:199-219 | no two neighbours are free and all space is kept |
| HeapBlocks.FreeUsed | src/sys/heap.c:199-219 | a free takes that block out of use and no other |
| HeapBlocks.ConfinedKeeps | src/sys/heap.c:190-220 | writes confined to headers leave every payload as it was |
| HeapRealloc.ReallocKeeps | src/sys/heap.c:256-326 | on the list of blocks, every resize that does not panic keeps the invariants, and the space accounted for drops by exactly what Lost says; which of them the writes carry out is GrowSplitExact's matter |
| HeapRealloc.ReallocSucceeds | src/sys/heap.c:258-335 | a resize does not panic exactly when the block shrinks, or the next one is free and larger than the growth, or as large with the header, the growth being a header at least |
| HeapRealloc.ReallocUsed | src/sys/heap.c:256-326 | a resize leaves the block in use with count bytes, or with those it had where it would give back less than a header; the other blocks in use stay as they are |
| HeapRealloc.ReallocSpells | src/sys/heap.c:256-326 | the writes of a resize leave memory spelling the resized list, and touch header words and space no other used block has |
| HeapRealloc.ShrinkSpells | src/sys/heap.c:258-293 | the writes of a shrink (of the last block, before a used block, joined with a free one) leave memory spelling the shrunk list, the payload that stays untouched |
| HeapRealloc.GrowWholeSpells | src/sys/heap.c:300-309 | the writes of a growth that takes the next block whole leave memory spelling the list without it |
| HeapRealloc.GrowSplitExact | src/sys/heap.c:312-326 | a growth by a split, its writes in order, leaves the list if and only if the new header clears the old one |
| HeapRuns.RunKeeps | src/sys/heap.c:135-336 | over every run of allocations, frees and resizes, but those resizes that GrowSplitExact finds wrong, memory stays a doubly linked list of blocks in address order, disjoint, no two neighbours free; no byte outside the region changes, and its space is what it was less the costs of the operations; with everything given back it is one free block |
| HeapRuns.StepKeeps | src/sys/heap.c:135-336 | each operation's writes leave memory spelling the list with that operation done: exactly the block named comes into use, goes out of it or changes size; they keep the payload of every other used block, and of a resized one the common prefix, and take exactly the cost from the space |
| HeapRuns.SlackResizeGoesWrong | src/sys/heap.c:312-326 | one resize that is wrong: 28 bytes handed out for 20, before a free block, resized to 20 |
| HeapRuns.CostBound | src/sys/heap.c:258-293 | a resize costs more than a header exactly when it cuts more than that off the last block, and then the whole cut |
| Heap.Heap.AddRegion | src/sys/heap.c:31-52 | the region becomes one free block, the other regions keep theirs; it panics exactly when there are sixteen |
| Heap.Heap.AllocSingle | src/sys/heap.c:135-188 | 0 exactly when every free block of the region is smaller than count bytes, and then nothing changes; otherwise the first free block of at least count bytes is put into use, its header says so, and the other blocks in use stay as they are |
| Heap.Heap.Allocate | src/sys/heap.c:227-246 | 0 exactly when every free block of every region is smaller than count bytes; otherwise a free block of at least count bytes is put into use, every free block before it, in its region and in the earlier ones, being smaller; it has exactly count bytes, its header says so, and every other block in use stays as it is and keeps its bytes |
| Heap.Heap.FreeSingle | src/sys/heap.c:190-225 | frees exactly a pointer behind the header of a block in use, wherever it lies: that block goes out of use and no other |
| Heap.Heap.Release | src/sys/heap.c:338-360 | returns exactly for null and for pointers of blocks in use, that block going out of use and no other, its neighbours merged; panics otherwise |
| Heap.FreeStep | src/sys/heap.c:190-220 | a free leaves the merged list in memory and every payload as it was, that of the freed block too |
| Heap.FreedOnce | src/sys/heap.c:193-220 | a block freed once no longer passes the test, merged away or not |
| Heap.Heap.Reallocate | src/sys/heap.c:248-336 | in place, with the new size, the common prefix of the payload and every other block with its bytes kept, or it panics and changes nothing |
| Heap.Heap.HeapStat | src/sys/heap.c:362-394 | the sizes in use and free, and with the headers exactly the capacity of the regions less what was lost |
| Heap.AllFree | src/sys/heap.c:199-219 | when nothing is in use each region is one free block |
| Heap.RegionStep | src/sys/heap.c:227-246 | writes inside one region keep the other regions' lists and bytes |
| RunQueue.SwitchKeeps | src/arch/x86/task/task.c:279-418 | after a switch idle is at the head and can run, nothing stopped is listed, only the current task is marked running, pids increase; the choice is the first task that can run in cyclic order |
| RunQueue.SwitchEntry | src/arch/x86/task/task.c:349-371 | entry by entry: a sleep goes on over a switch exactly while the clock is short of its deadline, and pids, busy marks and wait types stay |
| RunQueue.RunKeeps | src/arch/x86/task/task.c:279-418 | the invariant of the queue (idle at the head and able to run, no stopped task, only the current one running, pids increasing) holds after every run of sleeps, waits, exits, reads, signals, new tasks and timer ticks |
| RunQueue.SweepIs | src/arch/x86/task/task.c:289-371 | the sweep drops the stopped task and visits each other one once, in order |
| RunQueue.PickIsFirst | src/arch/x86/task/task.c:377-391 | nothing that can run is passed over |
| RunQueue.NonePassedOver | src/arch/x86/task/task.c:377-391 | every entry between the old current one and the new, in cyclic order, waits or is busy |
| RunQueue.NeverReused | src/arch/x86/task/task.c:80-86 | a pid given out and no longer listed never comes back, over every run |
| RunQueue.SamePid | src/arch/x86/task/task.c:50-62 | a pid names one task at most |
| RunQueue.WaitExact | src/arch/x86/task/task.c:357-367 | a waiter stays waiting over a switch exactly when the pid is found at its visit |
| RunQueue.ExitWakes | src/arch/x86/task/task.c:295-367 | an exit wakes, in its own switch, exactly the waiters behind the task that exits |
| RunQueue.NextSwitchWakes | src/arch/x86/task/task.c:357-367 | a waiter whose pid is no longer listed wakes in the next switch, whatever that is for |
| RunQueue.WaitForIdle | src/arch/x86/syscall.c:239-250 | over every run after a task called to wait for pid 0, it goes on waiting, and is not chosen, if and only if no handled signal hits it |
| RunQueue.StepReleases | src/arch/x86/task/task.c:349-371 | a single step ends a sleep exactly if it is a handled signal to the task or a switch at or after its time; a wait for a pid exactly if it is a handled signal, or a switch with the pid not listed or whose exit is that of the pid, in front of the waiter; a block on a read exactly if it is its completion; and then the task neither waits nor, on completion, is busy |
| RunQueue.HeldExact | src/arch/x86/task/task.c:279-418 | over every run a task that sleeps, waits for a pid or is blocked is so in every state, and is not chosen, if and only if no step of the run is one of those |
| RunQueue.SleepExact | src/arch/x86/syscall.c:269-282 | over every run after a call to sleep for some ticks, the task sleeps on, and is not chosen, exactly as long as it gets no handled signal and no switch comes at or after the time of the call plus the ticks |
| RunQueue.SleepBegins | src/arch/x86/syscall.c:273-278 | the call leaves the task asleep until its time plus the ticks, unless they are none |
| RunQueue.WaitBegins | src/arch/x86/syscall.c:239-250 | the call leaves the task waiting for that pid exactly if it is listed, its own included, and otherwise not waiting; its other marks are cleared |
| RunQueue.BlockExact | src/arch/x86/syscall.c:44-46 | over every run after a read that completes later, the task is busy, and not chosen, until its completion |
| RunQueue.BoundedWaiting | src/arch/x86/task/task.c:373-417 | a task that can run all along is chosen within as many switches as the queue has entries, plus one for each task enabled meanwhile |
| RunQueue.SwitchNearer | src/arch/x86/task/task.c:373-417 | each switch that chooses another brings its turn nearer |
| Scheduling.Scheduler.SwitchTask | src/arch/x86/task/task.c:279-418 | the linked queue after a switch is the state machine's; it panics exactly when pid 1 is taken out |
| Scheduling.Scheduler.Sweep | src/arch/x86/task/task.c:287-371 | the linked queue after the sweep is the swept list; the task taken out is the current one and its link still leads to its successor |
| Scheduling.Scheduler.FindNext | src/arch/x86/task/task.c:373-400 | the search ends on the first task that can run; its way out for want of one is never taken |
| Scheduling.Scheduler.TaskByPid | src/arch/x86/task/task.c:50-62 | null exactly when the pid is not listed; idle for 0 |
| Scheduling.Scheduler.Enable | src/arch/x86/task/task.c:75-86 | the task becomes the last, with the next pid and no flags |
| Scheduling.Scheduler.Nanosleep | src/arch/x86/syscall.c:269-282 | the queue takes the step of a sleep of sec * 1000000 + nsec ticks, nanoseconds being counted as microseconds; a zero time does nothing |
| Scheduling.Scheduler.Waitpid | src/arch/x86/syscall.c:239-250 | the queue takes the step of a wait for the pid, all other flags of the task cleared |
| Scheduling.Scheduler.ExitTask | src/arch/x86/syscall.c:22-25 | the queue takes the step of an exit, the task gone from it; a panic exactly for pid 1 |
| Scheduling.Scheduler.BlockOnRead | src/arch/x86/syscall.c:44-46 | the queue takes the step of a blocking read, the task busy and another one current |
| Scheduling.Scheduler.Kill | src/arch/x86/syscall.c:284-299 | -1 exactly for a pid not listed; a handled signal ends a sleep or wait |
| Scheduling.Scheduler.NoBusy | src/sys/task.c:26-28 | the busy mark goes, nothing else changes |
| Scheduling.Scheduler.Timer | src/arch/x86/hw/irq0.S:67-75 | the clock advances by the ticks gone by, then the queue is switched, which wakes sleeps that are over |
| TransmitRing.RunOrderly | src/dev/pci/net/rtl8139.c:98-173 | over every run packets keep the order of acceptance, one at most is in flight, none waits while none is |
| TransmitRing.Drains | src/dev/pci/net/rtl8139.c:160-173 | as many transmit-OKs as packets on their way hand all of them over |
| TransmitRing.StallsForGood | src/dev/pci/net/rtl8139.c:153-173 | after an interrupt for a packet that has not completed it no other is raised, nothing more is handed over or completed, over every run |
| TransmitRing.SeenExactly | src/dev/pci/net/rtl8139.c:153-180 | over every run all interrupts for packets have completed them if and only if no transmit-OK was acknowledged unseen and no packet failed |
| TransmitRing.KeepsGoingExactly | src/dev/pci/net/rtl8139.c:114-180 | after a run some continuation hands over another packet if and only if the run had no such transmit-OK and no transmit error |
| TransmitRing.ErrorStops | src/dev/pci/net/rtl8139.c:177-180 | a packet, its transmit error, and the next send, which is accepted and handed over by no continuation |
| TransmitRing.Nic.AllocTxbuf | src/dev/pci/net/rtl8139.c:98-112 | the slot of the next packet in acceptance order, -1 exactly when four are on their way |
| TransmitRing.Nic.Tx | src/dev/pci/net/rtl8139.c:125-151 | a packet of more than 1024 bytes, or with four on their way, is refused and nothing changes; any other is the last of the queue, its bytes and those of the packets on their way intact in the ring, and it is handed to the hardware at once exactly if nothing is in flight |
| TransmitRing.Nic.TxSched | src/dev/pci/net/rtl8139.c:114-123 | the hardware is given the next packet of the queue, whole, unless one is in flight |
| TransmitRing.Nic.Irq | src/dev/pci/net/rtl8139.c:153-183 | a transmit-OK that no receive-OK comes with completes the packet in flight and hands over the next one accepted, if any; no other interrupt completes or hands over anything; bits that come up before the write-back are acknowledged as well, a transmit-OK among them unseen |
| TerminalRead.CompletesExactly | src/sys/vfs.c:393-421 | a read is pending until exactly its last key and has the keys typed so far; a read of nothing waits for one key |
| TerminalRead.Overruns | src/sys/vfs.c:402-412 | exactly when a delivery ends the read, and when it runs past the buffer |
| TerminalRead.NeverEnds | src/sys/vfs.c:402-412 | a read overrun is never completed |
| TerminalRead.StoredIs | src/sys/vfs.c:402-412 | byte k of a delivery goes to address k of where it is put, and nothing anywhere else |
| TerminalRead.File.SendReadRes | src/sys/vfs.c:393-421 | bytes, count, lock and busy mark after a delivery of any length |
| TerminalRead.Terminal.Read | src/sys/vfs.c:87-132 | the pending file, its lock and the busy mark are set together; a second reader panics |
| TerminalRead.Terminal.Type | src/dev/tty.c:84-99 | one key of the protocol: stored in order, and all three cleared exactly at the last one |
| Numerals.Signed | src/sys/debug.c:65-109 | digit loop, sign and in-place reversal leave the number's text and a NUL, the rest of the buffer untouched |
| Numerals.Unsigned | src/sys/debug.c:111-132 | digit loop and in-place reversal leave the text of an unsigned number in any digit set, and a NUL, the rest of the buffer untouched |
| Numerals.NumeralIs | src/sys/debug.c:111-132 | digit k from the right of a text is the one worth v / b^k mod b, and it has no more digits than the number needs |
| Numerals.ReverseInPlace | src/sys/debug.c:104-108 | the exclusive-or swaps reverse exactly the part named |
| Bits.XorSwap | src/sys/debug.c:105-107 | three exclusive-or assignments swap two values |
| Numerals.Atoi | src/sys/atoi.c:3-16 | the number of the leading digits, in the 32 bits of its result, wrapped at each step |
| Numerals.AtoiOfDecimal | src/sys/atoi.c:3-16 | it takes back a printed number, whatever non-digit follows, if and only if it is below 2^31 |
| Numerals.AtoiOfSigned | src/sys/atoi.c:3-16 | it takes back a printed signed number if and only if it is from 0 to 2^31 - 1 |
| Numerals.DigitsInjective | src/sys/debug.c:111-132 | different numbers have different texts, in any base |
| Inet.ParsedDotted | src/net/inet.c:7-32 | parsing the dotted text gives the address back, for all 32-bit addresses |
| Inet.DottedIs | src/net/inet.c:7-17 | the text of an address is its four octets in decimal, the low one first, with dots between |
| Inet.Ntoa | src/net/inet.c:7-17 | the dotted text and a NUL, within sixteen bytes |
| Inet.Aton | src/net/inet.c:19-32 | the four octets of any string, or a panic exactly where a dot is missing |
| Printf.FieldIs | usr/lib/posix/vsnprintf.c:116-158 | a field's width, where its text lies and what fills the rest |
| Printf.TextAndNumbers | usr/lib/posix/vsnprintf.c:163-231 | a directive of any flags and width, for s, d, i, u, x and X: the string, or the number in decimal with a minus sign, or in lower or upper case hexadecimal, at the left end with a minus flag and at the right one without, filled up with zeros with a zero flag and with spaces without |
| Printf.CharacterPointerOther | usr/lib/posix/vsnprintf.c:194-240 | for c the character alone; for p 0x and eight hexadecimal digits; any other character prints behind its percent sign |
| Printf.PlainText | usr/lib/posix/vsnprintf.c:243-246 | a format without percent signs is its own rendering |
| Printf.RenderInPieces | usr/lib/posix/vsnprintf.c:160-249 | formats that end between directives render piece by piece |
| Printf.ReadDirective | usr/lib/posix/vsnprintf.c:163-183 | pad character, width and conversion read off the format |
| Printf.PutConverted | usr/lib/posix/vsnprintf.c:185-240 | each conversion writes its text at the cursor and nothing else |
| Printf.Vsnprintf | usr/lib/posix/vsnprintf.c:95-257 | a rendering that fits is written exactly, with a NUL behind it, and its length returned, for every format and argument list |
| Ustar.EncodeIsArchive | src/dev/initrd.c:45-76 | every list of entries the ustar format can hold, if not too long for 32-bit addresses, has an archive as the walk expects it: headers with data behind them, and two empty blocks |
| InitialRamdisk.OctRoundTrip | src/dev/initrd.c:8-18 | reading octal digits gives back the number written, whatever follows being read on from there |
| InitialRamdisk.SizeRoundTrip | src/dev/initrd.c:8-18 | a size field of one to eleven digits and an ending of spaces and NULs gives its size back if and only if there is no space in the ending or the size is 0xFFFFFFF0 |
| InitialRamdisk.StepExact | src/dev/initrd.c:64-74 | the walk steps from a header to the next entry if and only if the entry has no data, or tar_type calls it a file and no space ends its size field; otherwise it steps into the data |
| InitialRamdisk.TypeSevenMissed | src/dev/initrd.c:24-43 | in an archive of one file of type 7 the search misses it, and finds the header in its data |
| InitialRamdisk.SpaceMisread | src/dev/initrd.c:8-18 | in an archive of one file whose size field ends in a space the search finds the header in its data |
| InitialRamdisk.PrefixIgnored | src/dev/initrd.c:66 | in an archive of one file d/a, stored with a prefix, the search misses it, and finds it for a |
| InitialRamdisk.WalkFinds | src/dev/initrd.c:49-76 | from entry to entry, none of them misread, the walk comes to the first file by tar_type whose name field is the name asked for, or to the end |
| InitialRamdisk.FindExact | src/dev/initrd.c:45-76 | in every archive with no misread entry before that, the answer is the first regular file with the pathname asked for, or that there is none, if and only if it is reachable |
| InitialRamdisk.ShortReachable | src/dev/initrd.c:66 | for names up to 100 characters: reachable if and only if the file is not of type 7 and has no prefix, and no file before it with a prefix has that name field |
| InitialRamdisk.FindFile | src/dev/initrd.c:45-76 | the answer of the walk over any image that it does not leave, block by block |
| InitialRamdisk.TypeIsFile | src/dev/initrd.c:24-43 | decides which headers are of regular files: by type flag with the magic, by a slash at the end of the name without it |
| InitialRamdisk.SameName | src/dev/initrd.c:66 | a name matches exactly by its first 100 characters |
| InitialRamdisk.OpenFile.constructor | src/dev/initrd.c:184-200 | what is left to read is the file's data if and only if no space ends its size field |
| InitialRamdisk.OpenFile.Read | src/dev/initrd.c:202-209 | a read takes its bytes off the front of what is left |
| InitialRamdisk.ReadAll | src/dev/initrd.c:184-209 | open and reads of any lengths put together are the data of the file found, whole when they suffice; it is the file asked for if and only if that is reachable |
| InitialRamdisk.ReadPlain | src/dev/initrd.c:45-209 | of an archive written byte by byte, of entries without prefixes and without spaces behind their sizes, only files of type 0 among those with data: search, open and reads give the data of the first regular file with the name, and nothing exactly when there is none |
| InitialRamdisk.ChunksAreData | src/dev/initrd.c:202-209 | chunks concatenate to the data's prefix, whatever their lengths |
| Mounts.ComponentsMatch | src/sys/vfs.c:277-306 | the number of components in common, 1 for the root |
| Mounts.MountTable.Lookup | src/sys/vfs.c:309-345 | the mount point that is the path itself, or else the first of highest rank, with the text left; right if and only if the path is a mount point or the table is favourable |
| Mounts.LookupExact | src/sys/vfs.c:309-345 | the answer is the longest mount point the path begins with and the rest of the path if and only if the table is favourable |
| Mounts.FavourableIs | src/sys/vfs.c:309-345 | a table is favourable if and only if, with no mount point to begin the path, none shares its first component; with the root as the longest that does, likewise; and with one of one component, no other shares two, nor does one before it share the first; a longer one never is |
| Mounts.OneComponentRight | src/sys/vfs.c:309-345 | with the root and mount points of one component, at any places in the table, every lookup, also of a mount point itself, gives the longest mount point the path begins with and the rest of the path |
| Mounts.SameInAnyOrder | src/sys/vfs.c:309-345 | two tables with the same one-component mount points, in any orders, give the same mount point and the same rest for every path |
| Mounts.OrderDoesNotMatter | src/sys/vfs.c:309-345 | right answers from tables with the same mount points are the same |
| Mounts.DeepMountTakesOver | src/sys/vfs.c:322-328 | a mount point two deep takes over a path that shares its first component only |
| Mounts.TextInjective | src/sys/vfs.c:315 | comparing texts compares paths |
| Mounts.TextIs | src/sys/vfs.c:315 | the text of a path is a slash and each component behind it |
| Mounts.MountTable.Mount | src/sys/vfs.c:347-388 | a new mount point goes to the end; one that is there, or a seventeenth, is refused |
| CStrings.SamePrefix | src/sys/string.c:11-22 | strncmp finds equal exactly strings whose first l characters are the same |
| CStrings.Strchr | src/sys/string.c:58-76 | the first occurrence, or the end |

## Left out

- PagePool.Pool.Allocate: scans the 32 words of a region's bitmap; what the source's bound of 1024 words does is PoolOverrun's subject. The regions' 4 MiB frames are given and disjoint from the 4 KiB pages, and mapping a region into the kernel space is not part of the step.
- Mapping.Mmu.MapPage: a pool region that is set up inside the call is also mapped into the kernel space (space.c:26), which the contract does not mention. As the code stands that happens for region 0 alone, inside mm_init, since the search never gets past it (PoolOverrun.InsideExact). The same goes for the callers of MapPage and for Mapping.Mmu.CreateSpace and CloneKernel.
- PoolOverrun.InsideExact: takes the words behind the bitmap to be the fields declared after it, in their order, as on x86.
- Bitmaps.Scan: a 32-bit word is the set of its one bits, and a bitmap a sequence of words replaced word by word.
- PhysicalMemory.PhysicalPages.FreePage: the panic on a page already free is a precondition; so it is for the pool.
- Allocation of huge physical pages (phys.c:59-76) and x86_physical_page_count: the first does not mark their bits, the second is not kept on allocation.
- Mapping.Mmu.MapRange: pages already present without MM_FLG_MERGE are a precondition, where the source asserts.
- Mapping.Mmu.MapRangePages: asks for absent pages, and with it Mapping.Mmu.MapRangeLinear, since the source counts every page it enters (SlotCounts.EnterExact).
- Mapping.Mmu.UmapRange: asks for present pages, and with it Mapping.Mmu.UnmapPage (SlotCounts.LeaveExact).
- Paging assumes user and kernel pages from 0x400000 up to the last directory slot, slots 0 and 1023 being bookkeeping. The TLB, CR3 loads and interrupts during an operation are not modelled, nor is memory behind 4 MiB pages in copies.
- Elf.ElfLoad: section names (debug output) and the image's length argument, which the source ignores; the section table and the sections' file bytes must be in the image, no byte in two PROGBITS sections, and their pages user pages the kernel space does not map.
- ElfImage.LoadProgram: the file has its section headers behind the ELF header and the sections' data behind them, in order; the source takes them in any places. What bytes of NOBITS sections read is Elf.NotCleared's subject.
- HeapRealloc.GrowSplitExact: takes the two headers to be a multiple of four bytes apart, since words that overlap in part are not modelled.
- HeapRealloc.ReallocKeeps: of the list alone, also for the resizes whose writes leave another list in memory (GrowSplitExact).
- Heap.Heap.Reallocate: asks for a resize whose writes are right (GrowSplitExact says which are not), and for a pointer that is of a block in use if its header has the magic; the source looks for the magic alone, which free blocks have as well.
- Heap.Heap.AllocSingle: sets the back link that the source leaves stale (SplitAsWrittenExact). Sizes are unbounded integers, so a count near 2 to the 32 does not wrap.
- Heap.Heap.Allocate: with that link set, too; so are the runs of HeapRuns.RunKeeps.
- heap_remove_region, HEAP_FLG_EXCLUDE, the statistics that are compiled out, and heap_dump.
- Scheduling.Scheduler.SwitchTask: what task_destroy frees (stacks, files, space) is not modelled; a destroyed task's link stays readable, as the source relies on and as Heap.FreeStep has it of the freed block. Register contexts, exit codes and signal numbers are left out, and so is the wrap of pids and of the 64-bit clock.
- Scheduling.Scheduler.Kill: whether the task has a handler is a field; the signal context is not built.
- TransmitRing.Nic.Irq: receiving, the kernel's packet handling and the register set-up; the hardware is the sequence of packets it was given, and raises one interrupt for each.
- TerminalRead.Terminal.Read: files on the terminal with a task, read by that task; a read into address 0 panics at its first key and is outside the invariant. User memory is a map of bytes per task, paging being treated apart.
- Numerals.Atoi: where its signed result overflows, it wraps, as compiled for x86; C leaves it undefined.
- Numerals.Signed: the minimum 64-bit and, for sz 0, the undefined negation of the minimum 32-bit integer are left out.
- Printf.Vsnprintf: renderings that do not fit the buffer, %l, and a format that ends in a percent sign.
- InitialRamdisk.FindFile: asks that the walk stays in the image and comes only to size fields of digits, spaces and NULs. Directory listing (initramfs_readdir) is left out.
- InitialRamdisk.ShortReachable: for names of more than 100 characters, which the name field cannot hold, FindExact has the condition.
- Ustar.EncodeIsArchive: mode, owner, time, checksum and link name are left empty, since nothing reads them.
- Mounts.MountTable.Lookup: paths without empty components, and, with mount points of several components, not ones that end inside a mount point, where the source reads past the path's end.
- Mounts.ComponentsMatch: not for a path that ends inside the mount point, for the same reason.
- Mounts.MountTable.Mount: source devices and the file system's own mount, after whose failure the source leaves the entry in place.
- Port I/O, interrupt set-up, PCI, IDE, timers, the console and VESA output, ACPI, network configuration and ARP, procfs, devfs, user programs, libc wrappers, mmalloc.c and the aarch64 port: hardware plumbing or members without hard properties.
