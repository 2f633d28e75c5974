# A verified model of the kernel's core

These Dafny modules model the stateful core of the kernel and prove properties of it over all
inputs, all runs and all interleavings. Code that changes state is modelled by classes and methods
over arrays, linked nodes and fields; what a method does is tied to functions on values, about which
the properties are proved. `dafny verify dfyconfig.toml` checks everything.

| module | models |
|---|---|
| `Bitmap`, `Pmm` | the page bitmap and the physical page allocator |
| `Paging`, `Cost`, `Descent`, `Vmm` | four-level page tables as a flat map from pages to entries (Intel SDM Volume 3A, section 4.5) |
| `Elf` | which pages a load maps (System V gABI, chapter 5, "Program Header") |
| `SlabList`, `Slabs`, `Malloc` | slabs as linked pages, kmalloc and the object pools |
| `Paths`, `FsTree`, `Vfs` | path strings, the file tree and mounting |
| `Tar`, `Ramdisk` | the ustar reader (POSIX.1-2017, pax, "ustar Interchange Format"), loading an archive into the tree, loading an object out of it |
| `Balance`, `RunQueue`, `Cpus`, `Sched` | distributing tasks over CPUs, each CPU's run list, and runs of all CPUs together |
| `Smp`, `Locks` | starting the application processors, and the spinlock discipline, as step systems |
| `HashMap`, `Memory`, `Number` | the filesystem registry's hash map, memmove, memcpy and memset, number printing and reading |

The parts fit together. Page tables and loaded segments take their frames from the page allocator, and
their proofs rest on its runs never handing out a page twice. The heap's payloads are disjoint over every
run because slabs issue no page twice, but for the thirteenth (`Malloc.KernelHeap.GiftsAreDisjoint`). The
ramdisk's files are found because mounting adds exactly one path to the tree, and they load with the right
bytes because the archive reader inverts the writer (`Ramdisk.InitAndLoad`); the tree's filesystems are kept
in the hash map. The scheduler's methods are steps of the machine whose runs `Cpus` is about.

## What turned out to hold only sometimes

Each of these has the exact condition as a theorem and, where useful, a concrete input that fails.

- A page from the allocator is usable memory exactly when the region its offset reaches is usable and
  holds it (`Pmm.PageIsUsable`, with `Pmm.SecondPageOfAOnePageRegion` and `Pmm.PageInAReservedRegion`
  as inputs where it is not): the walk over regions neither tests their kind nor subtracts what the
  earlier ones held.
- The allocator never returns an address from behind the memory map exactly when its last page number
  is on the map (`Pmm.RunsStayOnTheMap`, `Pmm.ThirdPageIsOffTheMap`).
- The code does not test for NULL. Mapping a page succeeds in every allocation exactly when the supply
  covers the missing tables, and then updates one page. One table too few still leaves a tree: page 0
  becomes a table like any other. With two too few page 0 is a table in two places
  (`Vmm.NullTablesCollide`), and with no table there before and an allocator that stays on the map that is
  exactly when the tables stop being a tree without sharing (`Vmm.PageTables.MapPage`,
  `Descent.MappedKeepsTree`).
- What each call takes is exact (`Cost.Takes`): a page at most three frames, a range one for each page and
  three for every 512 pages begun and two more, booting at most 25442, an executable one for each byte of
  its rounded segments.
- The kernel's heap starts in the middle of a page, so its last half page is not mapped
  (`Vmm.HeapIsMapped`).
- The loader asks for all of a segment's pages exactly when its size survives rounding up
  (`Elf.BytesAreTouched`).
- Masking an entry with `~0x1ff` recovers a table's address exactly when the flags fit in nine bits
  (`Paging.TargetsSurviveNineFlagBits`), although map_page lets twelve through to leaf entries.
- The "recursive mapping" in the top-level table's last slot has no present bit, and mapping the kernel
  image replaces it (`Vmm.LastSlotIsTaken`).
- A slab straight from slab_create counts thirteen pages but links twelve: its thirteenth pop repeats
  a page exactly when no resize came before, and no other pop ever does
  (`SlabList.ThirteenthIssueRepeats`). So the thirteenth request of each kmalloc class gets a block
  that an earlier one got (`Malloc.KernelHeap.Kmalloc`).
- A request is served exactly when the heap has the bytes it needs: 29112 for the first of all, a refill of
  twelve blocks for the fourteenth, twenty-sixth, ... of its class, none for the others
  (`Malloc.KernelHeap.NeedInNumbers`).
- krealloc compares the new size with the recorded size, which includes the 32-byte header: the block
  is large enough exactly when the request is not within 32 bytes above the old room
  (`Malloc.KernelHeap.Krealloc`).
- A ramdisk file is found under its own name exactly when its place was free: a file that comes after
  one stored below it is hidden by the directory made for that one (`Ramdisk.MemberIsFound`,
  `Ramdisk.DirectoryHidesFile`), and a name without a slash is mounted below a directory of its own
  name (`Paths.MountPathIsSegments`).
- A CPU that is given copies of tasks has exactly one task marked running, from its first tick on and in
  every run, exactly when the copies behind the second are suspended and the first two are not both
  running (`RunQueue.RunsOfAGivenList`); a copy made of a running task can break it
  (`RunQueue.RunningCopyIsSkipped`). At the distribution that is the CPU, and the only one, that is given
  the boot processor's current task as its third task or later (`Cpus.RunsFromBoot`, with a run where it
  happens in `Cpus.ThirdCopyIsRunning`).
- An application processor takes its own slot exactly when it comes after the boot processor in the
  list, and the boot processor's page table exactly when that lies below 4 GiB (`Smp.OwnSlot`).
- memset with fewer bytes than reach the next word boundary does not return (`Memory.MemSet`).
- hashmap_insert of a key already there never returns (`HashMap.InsertEndsForNewKeys`); vfs_register_fs
  looks the name up first (`Vfs.Vfs.RegisterFs`).
- atoi reads back what itoa printed for every 32-bit integer but the least
  (`Number.AtoiInvertsItoa`).

Where code and comments disagree the model follows the code: elf_load passes a length in bytes as a
number of pages (`Elf.OneSegmentInNumbers`); the comment on vfs_get_dir_name does not say that a name
without a separator is returned whole; the comment on assign_tasks_to_cpus speaks of n/m tasks where the
code takes the number of tasks created, not queued; pmm_free is said to free a page, but it clears the
flag of a bit numbered by a byte offset, so pages are never used again (`Pmm.RunsOnlyTake`).

## How to read it

- `good` in `Vmm.PageTables` is a ghost flag: no page allocation has failed so far. Every method says
  exactly when it stays set (`Cost.Takes`), from the pages the allocator has left and the tables there
  are.
- `spare`, `issued`, `pops` and `grown` in `Slabs.Slab` are ghost fields: the never-issued pages at the
  front of the list, the pages ever returned, how many returns there were, and whether the slab was
  resized.
- `where` in `Vfs.Vfs` is a ghost field: each node's path.
- `given` in `Malloc.KernelHeap` is a ghost field: every page ever given out, in order, with its slab.
- `homes` and `copies` in `Sched.Scheduler` are ghost fields: the CPU of each task, in queue order, and the
  tasks in the CPUs' lists.
- C strings are sequences without their terminator. vfs_canonicalise overwrites the terminator of its
  result; the model's strings carry their length.
- Nothing was executed; the claims are about the model, and the table says where each part comes from.

## Model

| member | source | states |
|---|---|---|
| `Bitmap.PutUpdatesOneFlag` | src/kernel/generic/memory/bitmap.c:26-34 | writing one bit with a mask changes exactly that flag of the whole bitmap, for every byte value and position |
| `Bitmap.FirstSet` | src/kernel/generic/memory/bitmap.c:43-51 | the least set flag in a range, or none: nothing smaller is set |
| `Bitmap.PageBitmap.constructor` | src/kernel/generic/memory/bitmap.c:19-24 | a new bitmap marks every page free |
| `Bitmap.PageBitmap.Set` | src/kernel/generic/memory/bitmap.c:26-34 | the array write is one update of the flag sequence |
| `Bitmap.PageBitmap.FindFree` | src/kernel/generic/memory/bitmap.c:43-51 | the scan returns the first free page among the first `size` bits (the buffer has eight times as many), or -1 |
| `Pmm.AddKeepsGaps` | src/kernel/arch/x86_64/pmm.c:55-68 | on a sorted map the region walk is strictly increasing and never shrinks the distance between two offsets, across region ends too |
| `Pmm.PagesAreSpaced` | src/kernel/arch/x86_64/pmm.c:74-130 | two page numbers give pages at least a page apart, and a later page existing means the earlier one does |
| `Pmm.InitIsAbove` | src/kernel/arch/x86_64/pmm.c:27-46 | after boot every page the allocator can hand out lies above the memory that became the bitmap |
| `Pmm.InitInNumbers` | src/kernel/arch/x86_64/pmm.c:27-46 | after boot every flag is set, eight for each byte of the first usable region, which is left without length behind its old end |
| `Pmm.AllocRaisesTheFloor` | src/kernel/arch/x86_64/pmm.c:74-130 | an allocation returns an aligned page at or above the floor, and every page still to come lies behind it |
| `Pmm.FreeKeepsTheFloor` | src/kernel/arch/x86_64/pmm.c:98-119 | a free never makes a lower page available |
| `Pmm.RunsNeverOverlap` | src/kernel/arch/x86_64/pmm.c:74-130 | over every run of allocations and in-range frees the pages handed out are 4096-aligned and pairwise non-overlapping |
| `Pmm.RunsOnlyTake` | src/kernel/arch/x86_64/pmm.c:74-130 | over every run of allocations and in-range frees, every page that could be had at the start is handed out once, or wasted by a free that clears its flag, or still there at the end; none ever comes back |
| `Pmm.FreeInNumbers` | src/kernel/arch/x86_64/pmm.c:98-119 | a free clears exactly the flag whose number is the distance in bytes of the address from the start of the last usable region that holds it, and no other |
| `Pmm.PageNumbersOnTheMap` | src/kernel/arch/x86_64/pmm.c:55-68 | a page number has a page if and only if its offset from the first usable region lies before the end of the map or in the page behind; otherwise the walk runs off the map |
| `Pmm.PageInNumbers` | src/kernel/arch/x86_64/pmm.c:55-90 | page number f is 4096 f bytes behind the start of a region, rounded up to 4096: of the first region, from the first usable one with room for a page on, whose end plus a page lies behind the same offset from there |
| `Pmm.AllocOutcome` | src/kernel/arch/x86_64/pmm.c:74-90 | what an allocation yields, from the first free page number: NULL, a page, or an address from behind the map |
| `Pmm.AllocSpends` | src/kernel/arch/x86_64/pmm.c:74-90 | an allocation yields a page if and only if a free page number with a page is left, and uses up exactly one of them |
| `Pmm.RunsStayOnTheMap` | src/kernel/arch/x86_64/pmm.c:27-90 | from boot, no run ever gets an address from behind the map if and only if the bitmap's last page number is on the map |
| `Pmm.ThirdPageIsOffTheMap` | src/kernel/arch/x86_64/pmm.c:55-90 | an input where one does: a first region of 16 bytes before one of a page |
| `Pmm.PagesAvoidTheBitmap` | src/kernel/arch/x86_64/pmm.c:27-46 | from boot, the pages of every run also avoid the bitmap's own storage |
| `Pmm.PageIsUsable` | src/kernel/arch/x86_64/pmm.c:55-90 | a page is usable memory if and only if the region reached by its offset from the start of the region it is charged to is usable, starts no later and is long enough |
| `Pmm.SecondPageOfAOnePageRegion` | src/kernel/arch/x86_64/pmm.c:55-90 | an input where it is not: a one-page region yields the page behind it as well |
| `Pmm.PageInAReservedRegion` | src/kernel/arch/x86_64/pmm.c:55-68 | an input where a page lies in a reserved region, whose kind the walk does not test |
| `Pmm.PageAllocator.constructor` | src/kernel/arch/x86_64/pmm.c:27-46 | pmm_init: the first usable region becomes the bitmap and gives up its whole length |
| `Pmm.FindUsable` | src/kernel/arch/x86_64/pmm.c:39-45 | the search for the first usable region |
| `Pmm.PageAllocator.PmmAdd` | src/kernel/arch/x86_64/pmm.c:55-68 | the retry loop computes the region walk of the specification, or runs off the map |
| `Pmm.PageAllocator.AllocRaw` | src/kernel/arch/x86_64/pmm.c:74-90 | the new state and the raw address are the specification's |
| `Pmm.PageAllocator.AllocPage` | src/kernel/arch/x86_64/pmm.c:125-130 | the rounded result is a page at or above the floor, NULL, or an address from beyond the map |
| `Pmm.PageAllocator.FindHolder` | src/kernel/arch/x86_64/pmm.c:98-113 | the last usable region that holds an address, its end included |
| `Pmm.PageAllocator.Free` | src/kernel/arch/x86_64/pmm.c:98-119 | clears the bit whose index is the byte offset into the region, or tells that this lies outside the bitmap |
| `Paging.IndicesNameThePage` | src/kernel/arch/x86_64/vmm.c:132-138 | two addresses take the same four indices if and only if they have the same 48-bit page number |
| `Paging.TargetsSurviveNineFlagBits` | src/kernel/arch/x86_64/vmm.c:28-36 | decoding an entry gives its table back if and only if the flags fit in nine bits |
| `Paging.NoSharing` | src/kernel/arch/x86_64/vmm.c:28-36 | in a tree state no two present non-leaf entries point at one table page |
| `Paging.TableAtFindsNodes` | src/kernel/arch/x86_64/vmm.c:132-143 | following indices through memory reaches a table exactly when the tree has that node, and reaches that node's page |
| `Paging.WalkOfTree` | src/kernel/arch/x86_64/vmm.c:132-147 | the four-level walk of an address in terms of the tree |
| `Paging.LinkKeepsTree` | src/kernel/arch/x86_64/vmm.c:28-36 | hanging a cleared fresh page below an absent entry keeps the no-sharing tree |
| `Paging.LinkKeepsWalks` | src/kernel/arch/x86_64/vmm.c:28-36 | and no address of any address space changes its translation |
| `Paging.LeafUpdatesOnePage` | src/kernel/arch/x86_64/vmm.c:145-147 | a leaf write is one update of the flat page map: that page of that space, nothing else |
| `Paging.NewRootIsEmpty` | src/kernel/arch/x86_64/vmm.c:96-115 | a new top-level table, whose last slot lacks the present bit, maps nothing and changes no other space |
| `Paging.HitsAreExact` | src/kernel/generic/malloc/mmu.c:80-85 | within a range no longer than the address space, every page is hit by its own index only |
| `Vmm.PageTables.NextLevelOrAlloc` | src/kernel/arch/x86_64/vmm.c:28-36 | returns the child table, allocated, cleared and entered with the flags if absent; the allocation succeeds if and only if a frame is left when one is needed, and then the tree grows by at most that table and no walk changes; with an allocator that stays on the map, memory and result are those of the specification also when it fails |
| `Vmm.PageTables.LeafTable` | src/kernel/arch/x86_64/vmm.c:132-143 | all allocations succeed if and only if the supply covers the missing levels; then the leaf table of an address exists and no walk has changed; failed or not, the three steps are the specified descent on the pages the allocator gave |
| `Vmm.PageTables.MapPage` | src/kernel/arch/x86_64/vmm.c:132-147 | all allocations succeed if and only if the supply covers the missing levels; it then takes exactly that many frames, refines one update of a flat map from pages to entries, over all address spaces at once, and keeps the tree; any physical address, the flags or-ed on. With no table at page 0 and an allocator that stays on the map, the tables stay a tree without sharing if and only if the missing levels exceed the supply by at most one |
| `Descent.MappedKeepsTree` | src/kernel/arch/x86_64/vmm.c:28-36 | mapping a page with a given list of pages to build tables from keeps some tree without sharing around the old tables if and only if the missing tables are at most one more than the pages |
| `Descent.DescendBuilds` | src/kernel/arch/x86_64/vmm.c:28-36 | with a page for every missing table the walk builds exactly those tables and ends at the leaf table |
| `Descent.DescendShares` | src/kernel/arch/x86_64/vmm.c:28-36 | two pages short, the walk passes through page 0, goes on there, and leaves page 0 with a link to itself |
| `Descent.NullIsPageZero` | src/kernel/arch/x86_64/vmm.c:28-36 | a failed allocation is the same as being given page 0 |
| `Vmm.PageTables.NewSpace` | src/kernel/arch/x86_64/vmm.c:96-101 | with one frame left, a new address space maps nothing and leaves the others alone |
| `Vmm.PageTables.MapFrames` | src/kernel/generic/malloc/mmu.c:80-85 | user_virt_map: all allocations succeed if and only if the supply covers its pages and the missing tables; then each page has a frame of its own, pairwise disjoint, no page table, newer than anything before; other pages are untouched |
| `Vmm.EachPageItsOwnFrame` | src/kernel/generic/malloc/mmu.c:80-85 | so page `i` of the range translates to frame `i` |
| `Vmm.PageTables.MapIdentity` | src/kernel/generic/malloc/mmu.c:47-68 | all allocations succeed if and only if the supply covers the missing tables; then the range maps to its own addresses, the flags or-ed on, and nothing else changes |
| `Vmm.PageTables.MapSpec` | src/kernel/arch/x86_64/vmm.c:57-67 | all allocations succeed if and only if the supply covers the tables; then the direct map, the identity map and the kernel image are there, page by page, with the order of overwriting, and nothing else changed |
| `Vmm.PageTables.VmmInit` | src/kernel/arch/x86_64/vmm.c:96-103 | all allocations succeed if and only if the supply covers the boot cost; then the kernel's address space is exactly the three regions with the heap on top, for every address |
| `Vmm.KernelSpaceInNumbers` | src/kernel/arch/x86_64/vmm.c:57-103 | that space in numbers, for every canonical address: the first 4 GiB and the heap, 4 GiB from 0xffff800000000000 and 2 GiB from 0xffffffff80000000 on, present and writable, and nothing else |
| `Vmm.BootCostBound` | src/kernel/arch/x86_64/vmm.c:57-103 | the boot cost is at most 25442 frames |
| `Vmm.HeapIsMapped` | src/kernel/generic/malloc/mmu.c:28-39 | an address of the heap is mapped if and only if it is not in its last half page: the heap does not start on a page boundary |
| `Cost.TakesMore` | src/kernel/arch/x86_64/vmm.c:28-36 | mapping in two steps succeeds if and only if the supply covers both together, tables counted once |
| `Cost.PageFits` | src/kernel/arch/x86_64/vmm.c:132-147 | three frames always suffice for mapping a page |
| `Cost.RangeNeedsFewTables` | src/kernel/generic/malloc/mmu.c:80-85 | a range needs at most three tables for every 512 pages begun and two more |
| `Cost.RangeFits` | src/kernel/generic/malloc/mmu.c:80-85 | so a supply of that many and a frame for each page suffices |
| `Vmm.LastSlotIsTaken` | src/kernel/arch/x86_64/vmm.c:96-103 | the self-reference in slot 511 does not survive: mapping the kernel image puts a table there |
| `Vmm.NullTablesCollide` | src/kernel/arch/x86_64/vmm.c:28-36 | after two failed allocations two entries, of one table or of two, page 0 among them, have page 0 for their table |
| `Elf.BytesAreTouched` | src/kernel/lib/elf.c:46-56 | the loader asks for the pages of all bytes of a segment if and only if its size survives rounding up in 64 bits |
| `Elf.LengthInNumbers` | src/kernel/lib/elf.c:50 | the length of a segment is its size from the page start on, rounded up to a multiple of 4096, in bytes |
| `Elf.OneSegmentInNumbers` | src/kernel/lib/elf.c:48-56 | loading one segment maps as many pages as that length has bytes, from the page of its address on, and takes as many frames beside those for tables |
| `Elf.IsolatedRange` | src/kernel/lib/elf.c:40-60 | adding a segment keeps every loaded page on a frame of its own, apart from all tables |
| `Elf.ShowsRange` | src/kernel/lib/elf.c:40-60 | a later segment wins on the pages it shares with earlier ones |
| `Elf.Load` | src/kernel/lib/elf.c:30-64 | loads if and only if the four magic bytes and the class are right; the pages of the PT_LOAD segments as asked for, and no others, are mapped to frames no two share; this succeeds if and only if the supply covers a frame for each byte of the rounded sizes (Elf.OneSegmentInNumbers says which pages and how many) and the missing tables |
| `Elf.LoadSegment` | src/kernel/lib/elf.c:40-60 | one program header adds exactly the pages it asks for and keeps all of that |
| `Elf.AskedBytesAreCovered` | src/kernel/lib/elf.c:40-60 | every byte of every non-empty PT_LOAD segment whose size survives rounding up is then mapped |
| `SlabList.FreeKeeps` | src/kernel/generic/malloc/malloc.c:137-144 | freeing an issued page, also one that is linked already, keeps the invariant |
| `SlabList.FreedIsLast` | src/kernel/generic/malloc/malloc.c:137-144 | a freed page becomes the last of the list, also when it was linked already, and what stood before it keeps its order |
| `SlabList.Credit` | src/kernel/generic/malloc/malloc.c:152-184 | the counter of a slab from slab_create that was never resized, from the number of its pops alone: it is 0 exactly after the thirteenth, twenty-fifth, ... pop |
| `SlabList.CreditStep` | src/kernel/generic/malloc/malloc.c:152-184 | each pop takes one off it, and one that refills leaves eleven |
| `SlabList.RunsIssueNewPages` | src/kernel/generic/malloc/malloc.c:121-184 | from a slab refilled or about to be, over every interleaving of pops, repeated frees and resizes: no page is issued twice and each has the size its slab had at its pop |
| `SlabList.OneIssueRepeats` | src/kernel/generic/malloc/malloc.c:121-184 | with a counter one ahead of n new pages, over every such run issue n is the only one that repeats a page, and does if and only if more than n pops come before the first resize |
| `SlabList.ThirteenthIssueRepeats` | src/kernel/generic/malloc/malloc.c:98-184 | so a slab straight from slab_create repeats a page if and only if its thirteenth pop comes before any resize, and never again |
| `SlabList.FirstIssuesDiffer` | src/kernel/generic/malloc/malloc.c:98-184 | its first twelve pages differ whatever happens in between |
| `SlabList.LastPageIsIssuedTwice` | src/kernel/generic/malloc/malloc.c:98-113 | the repeated page is the last one: it is never unlinked |
| `Slabs.Heap.Alloc` | src/kernel/generic/malloc/mmu.c:28-39 | the watermark allocator, which panics when the heap is full |
| `Slabs.Slab.AppendPages` | src/kernel/generic/malloc/malloc.c:54-65 | succeeds if and only if the heap has 48 bytes and the size for each page, takes exactly that, links new pages of the slab's size behind a page, pairwise apart in memory, and adds to the counter |
| `Slabs.Slab.Create` | src/kernel/generic/malloc/malloc.c:98-113 | twelve linked pages, a counter of thirteen, if and only if the heap has 40 bytes and thirteen pages with their records and headers left |
| `Slabs.Slab.RemovePage` | src/kernel/generic/malloc/malloc.c:121-129 | unlinks a page of the chain unless it is the last |
| `Slabs.Slab.PushPage` | src/kernel/generic/malloc/malloc.c:137-144 | links a page behind the last one and ends the chain there, also when the page was linked already |
| `Slabs.Slab.DropPages` | src/kernel/generic/malloc/malloc.c:156-164 | a pending resize drops the old chain to its last page |
| `Slabs.Slab.PopPage` | src/kernel/generic/malloc/malloc.c:152-184 | succeeds unless twelve new pages are needed and the heap has no room for them; the pointer code refines the list specification, writes the header of the page it returns, and returns a new page unless it is the thirteenth pop of a slab not resized before |
| `Slabs.Slab.FreePage` | src/kernel/generic/malloc/malloc.c:219-234 | refines freeing on the list specification: the page is linked last |
| `Slabs.Slab.Grow` | src/kernel/generic/malloc/malloc.c:286-288 | records the new size and the pending resize |
| `Malloc.PayloadsAreDisjoint` | src/kernel/generic/malloc/malloc.c:54-65 | a payload meets no other payload, no header and no page record |
| `Malloc.KernelHeap.CreateSlabs` | src/kernel/generic/malloc/malloc.c:328-337 | the first request creates the five classes, which takes 29112 bytes of heap, if and only if they are left |
| `Malloc.KernelHeap.Pick` | src/kernel/generic/malloc/malloc.c:192-212 | the search returns the smallest of the first four classes that fits |
| `Malloc.KernelHeap.Kmalloc` | src/kernel/generic/malloc/malloc.c:322-354 | serves a request if and only if the heap has the bytes it needs, and takes exactly those; from the least class of 64, 128, 256 and 512 bytes that fits, with a page no slab had issued if and only if it is not the thirteenth request of its class, writes a header naming slab and page, adds the page to what was given out and keeps everything given out before, in every slab |
| `Malloc.KernelHeap.NeedInNumbers` | src/kernel/generic/malloc/malloc.c:322-354 | what a request needs: the first of all 29112 bytes, the fourteenth, twenty-sixth, ... of its class twelve blocks with 48 bytes each, any other nothing |
| `Malloc.KernelHeap.GiftsAreDisjoint` | src/kernel/generic/malloc/malloc.c:259-403 | over every run of kmalloc, krealloc, pool calls and frees: a page given out was given out before if and only if it is the thirteenth of a slab not resized so far, and the payloads of different pages ever given out are disjoint |
| `Malloc.NextGift` | src/kernel/generic/malloc/malloc.c:152-184 | one more page keeps that account: it repeats an earlier one exactly when its slab had given twelve |
| `Malloc.KernelHeap.constructor` | src/kernel/generic/malloc/malloc.c:322-337 | a heap without slabs, blocks or headers |
| `Malloc.KernelHeap.PopFrom` | src/kernel/generic/malloc/malloc.c:259-267 | an allocation from a pool, which succeeds if and only if the heap has room for the refill, if one is due: a page of its size, new if and only if it is not the thirteenth without a resize before; every other slab stays as it was |
| `Malloc.KernelHeap.FreePtr` | src/kernel/generic/malloc/malloc.c:219-234 | the header of a returned pointer leads to the very slab and page that issued it; anything else changes nothing |
| `Malloc.KernelHeap.Krealloc` | src/kernel/generic/malloc/malloc.c:362-391 | succeeds if and only if a request it makes does; keeps the whole old payload, changes no other byte, and yields enough room if and only if the size is not within 32 bytes above the old room; a NULL pointer gets the block of a request; the old block is linked last in its slab when the data moves or the size is 0, and otherwise no slab changes; the result has a header of its own, and pages given out before stay so, one more being given out exactly when the block moves |
| `Malloc.KernelHeap.PoolRealloc` | src/kernel/generic/malloc/malloc.c:269-300 | succeeds if and only if the heap has the bytes for the pages it makes; a growing pool object moves to a page never issued before of exactly the new size, keeps its bytes, and no byte outside the new payload changes; the old page is freed when the object moves, and not when the size is 0; the result has a header, and pages given out before stay so |
| `Malloc.CopiedBytes` | src/kernel/generic/malloc/malloc.c:380-384 | the copy at the end of a reallocation moves the bytes and no others |
| `Paths.MatchIsEquality` | src/kernel/generic/fs/vfs.c:35-38 | strncmp on a component below 256 characters tells exactly equal names |
| `Paths.CanonicalSplits` | src/kernel/generic/fs/vfs.c:347-355 | the components of a canonicalised path are all segments of the name |
| `Paths.ScanCharacter` | src/kernel/generic/fs/vfs.c:114-134 | the buffer loop of vfs_mount closes a component at every slash but the first and never overruns its buffer |
| `Paths.MountPathIsSegments` | src/kernel/generic/fs/vfs.c:314-342 | directory plus base name is the name's own path if and only if it has a slash behind its first character; otherwise it is one level too deep |
| `Paths.SegmentsOfJoin` | src/kernel/generic/fs/vfs.c:314-342 | splitting at the last slash splits off the last segment |
| `Paths.GetBaseName` | src/kernel/generic/fs/vfs.c:314-325 | the text behind the last slash that is not the first character |
| `Paths.GetDirName` | src/kernel/generic/fs/vfs.c:330-342 | the text before it |
| `FsTree.InsertResolves` | src/kernel/lib/tree.c:37-43 | a new child answers to exactly one thing: its name below its parent if that was free; every other path leads where it led |
| `FsTree.ResolveFollowsNames` | src/kernel/lib/tree.c:27-35 | a node found by a path has that path as its place: names determine the way |
| `FsTree.InsertAddsPath` | src/kernel/lib/tree.c:37-43 | inserting is one update of the map from paths to nodes |
| `FsTree.PrefixesResolve` | src/kernel/generic/fs/vfs.c:110-124 | what resolves has all its directories |
| `FsTree.MountGrows` | src/kernel/generic/fs/vfs.c:110-149 | a creating walk and an insertion together add exactly the missing prefixes |
| `Vfs.Vfs.constructor` | src/kernel/generic/fs/vfs.c:190-203 | a bare root and an empty registry, both new |
| `Vfs.Vfs.MatchChild` | src/kernel/lib/tree.c:27-35 | the first child whose name matches, or NULL |
| `Vfs.Vfs.InsertChild` | src/kernel/lib/tree.c:37-43 | appends a node; its path is the only one added |
| `Vfs.Vfs.CreateOrTraverse` | src/kernel/generic/fs/vfs.c:48-66 | the child of that name; created as a directory if missing and wanted; without a node nothing changes |
| `Vfs.Vfs.Traverse` | src/kernel/generic/fs/vfs.c:110-124 | reaches the path's directory, creating exactly what is missing, or for a lookup stops without any change exactly when the path leads nowhere |
| `Vfs.Vfs.MountAtRoot` | src/kernel/generic/fs/vfs.c:103-108 | mounting at "/" hangs the node below the root |
| `Vfs.Vfs.MountBelow` | src/kernel/generic/fs/vfs.c:110-143 | directories, then the filesystem's mount callback, then the node |
| `Vfs.Vfs.Mount` | src/kernel/generic/fs/vfs.c:90-151 | every path that resolved before resolves to the same node; the mounted node is found at path plus name unless that was taken; nothing else appears but the directories on the way; a lookup changes nothing; a relative path is refused |
| `Vfs.Vfs.RegisterFs` | src/kernel/generic/fs/vfs.c:181-185 | on the hash map itself: a name not registered is added, a registered one keeps its filesystem, so the insertion that would not return is never made |
| `Vfs.Vfs.CallMount` | src/kernel/generic/fs/vfs.c:135-140 | the hash map's lookup decides the callbacks of a node of a registered filesystem |
| `Vfs.Vfs.KOpen` | src/kernel/generic/fs/vfs.c:292-299 | the node a path leads to, marked open unless it is a directory; NULL when it is open already or absent |
| `Vfs.Vfs.Open` | src/kernel/generic/fs/vfs.c:211-225 | busy, directory, opened, or opened without a callback |
| `Vfs.Vfs.KClose` | src/kernel/generic/fs/vfs.c:232-241 | closes an open ramfs node and refuses everything else |
| `Tar.ReadSize` | src/kernel/lib/tar.c:19-26 | the octal number of eleven digits in 64 bits, whatever the characters |
| `Tar.HeaderReads` | src/kernel/lib/tar.c:28-52 | a header reads back as its member's name and size |
| `Tar.ReadInvertsArchive` | src/kernel/lib/tar.c:28-52 | index `i` of an archive gives member `i`'s name, size and data, and every index past the end gives false |
| `Tar.TarRead` | src/kernel/lib/tar.c:28-52 | fills the caller's block with that, or leaves it alone |
| `Tar.SpanInNumbers` | src/kernel/lib/tar.c:36-39 | the next header is at the first multiple of 512 bytes behind the data |
| `Tar.ReadsUstar` | src/kernel/lib/tar.c:28-52 | on memory laid out as the format says, names first, eleven octal digits at 124, data at 512, headers at block boundaries: index i gives member i with its data, every later index false |
| `Tar.ArchiveIsUstar` | src/kernel/lib/tar.c:28-52 | and what the theorems here call an archive is laid out so |
| `Tar.OctalRoundTrip` | src/kernel/lib/tar.c:19-26 | reading written octal digits gives the number |
| `Tar.WrittenIsArchive` | src/kernel/lib/tar.c:28-52 | what a ustar writer writes for any member list reads back as that list |
| `Ramdisk.MountLoads` | src/kernel/modules/ramdisk.c:90-114 | mounting the next file keeps: of the paths that led nowhere exactly those needed by a file lead somewhere, and a file is found exactly when its place was free |
| `Ramdisk.MountMember` | src/kernel/modules/ramdisk.c:97-111 | a file gets its own node and keeps the block, a directory entry does neither and its block is used again |
| `Ramdisk.OnlyFilesHavePlaces` | src/kernel/modules/ramdisk.c:98-104 | an entry is taken for a directory if and only if its name ends with a slash behind its first character |
| `Ramdisk.RamdiskInit` | src/kernel/modules/ramdisk.c:90-114 | after loading: every old path is kept, only the files and their directories appear, all of them new and every ramfs node with a block, each file's node holds its own member's name, size and data, and is found at its place if and only if that was free |
| `Ramdisk.LoadObject` | src/kernel/generic/binfmt/binfmt.c:39-70 | loads if and only if the path leads to a closed ramfs node that is no directory; the result is all bytes of its block, and it is closed again, so that every object loads afterwards as before; a path that leads nowhere, a directory and an open file load nothing and change nothing; a node of another filesystem loads nothing and stays open; callbacks, kinds and blocks stay |
| `Ramdisk.LoadOpened` | src/kernel/generic/binfmt/binfmt.c:49-69 | stat, read, close; a file that cannot be read stays open |
| `Ramdisk.MemberIsFound` | src/kernel/modules/ramdisk.c:97-109 | looking up "/" + name + "/" finds the member's own node if and only if its place was free, and then loading it gives exactly the member's bytes |
| `Ramdisk.EveryMemberIsFound` | src/kernel/modules/ramdisk.c:90-114 | end to end: in a bare tree, every file of an archive in which no file has the path, or a directory on the path, of an earlier one loads with exactly its bytes |
| `Ramdisk.InitAndLoad` | src/kernel/main.c:188-199 | from vfs_init and ramdisk_init on a new tree to loading an object: for such an archive it returns exactly the member's bytes, and afterwards every file of the archive still loads with its own |
| `Ramdisk.DirectoryHidesFile` | src/kernel/modules/ramdisk.c:97-109 | an archive where it fails: a file that comes after one stored below it is never found |
| `Balance.SharesPartition` | src/kernel/generic/sched/task.c:105-129 | each task is in exactly one CPU's share, once, and shares keep queue order |
| `Balance.ShareSize` | src/kernel/generic/sched/task.c:106-109 | the share is the number of tasks created over the number of CPUs, rounded down, or with more CPUs than tasks the other way round |
| `Balance.LoadIsExact` | src/kernel/generic/sched/task.c:105-140 | the exact number of tasks on each CPU after any number of tasks |
| `Balance.FirstLoadBound` | src/kernel/generic/sched/task.c:99-129 | after the first distribution no CPU has more than share+1 tasks if and only if the leftover tasks do not outnumber the CPUs |
| `Balance.CountedTasksKeepTheBound` | src/kernel/generic/sched/task.c:105-129 | with no more tasks queued than created, no CPU gets more than one above that quotient |
| `Balance.LaterLoads` | src/kernel/generic/sched/task.c:136-140 | k later tasks add at most ceil(k/cpus) to any CPU, and the same to every CPU up to one |
| `Sched.Scheduler.CopyToCpu` | src/kernel/generic/sched/task.c:34-69 | the task names its CPU, whose list gains a new copy of it in its present state at the end and keeps its `running_task`; every CPU's list stays its share of the queue |
| `Sched.Scheduler.ShareOut` | src/kernel/generic/sched/task.c:105-118 | the nested loops with their early exits hand out a prefix of the queue in blocks; the prefix's exact length |
| `Sched.Scheduler.SpreadLeftovers` | src/kernel/generic/sched/task.c:120-129 | the second walk hands out exactly the rest, one by one |
| `Sched.Scheduler.Distribute` | src/kernel/generic/sched/task.c:90-135 | both rounds together follow the closed-form plan for every queue length and CPU count, with the quotient of tasks created and CPUs for the share |
| `Cpus.FiveOnFour` | src/kernel/generic/sched/task.c:105-129 | five tasks on four CPUs go to CPUs 0, 1, 2, 3 and 0 |
| `Sched.Scheduler.AssignLast` | src/kernel/generic/sched/task.c:136-140 | an added task goes to the next CPU in turn |
| `Sched.Scheduler.Queue` | src/kernel/generic/sched/task.c:167-184 | one step of the machine: the task joins the boot processor's list; the distribution happens once and puts the planned copies, in their present states, behind the CPUs' lists; afterwards exactly the next CPU's list gains the task; lists only grow at their ends, by new copies, no `running_task` moves and no task's CPU ever changes |
| `Sched.Scheduler.constructor` | src/kernel/generic/sched/task.c:202-211 | sched_init leaves the machine of the run theorems in its first state: the sleeping root task alone |
| `Sched.Scheduler.TimerOn` | src/kernel/generic/sched/task.c:219-276 | a tick on one CPU is one step of the machine and keeps the distribution: which task is where, and whose copy |
| `Sched.Scheduler.TimerOnBoot` | src/kernel/generic/sched/task.c:219-276 | so is a tick on the boot processor, which runs the queued tasks themselves |
| `Sched.Scheduler.CreateTask` | src/kernel/generic/sched/task.c:150-200 | a new suspended task on no CPU, numbered in 16 bits |
| `Sched.Scheduler.HasACopy` | src/kernel/generic/sched/task.c:50-69 | once distributed, each queue position has a copy, on the CPU the task's assigned_to_cpu names |
| `Sched.Scheduler.HasNoOtherCopy` | src/kernel/generic/sched/task.c:50-69 | and no second one on any CPU |
| `Sched.Scheduler.ListFollowsQueue` | src/kernel/generic/sched/task.c:50-69 | each CPU's list is a subsequence of the queue, of the planned length |
| `Sched.Processor.SwitchTask` | src/kernel/generic/sched/task.c:219-276 | the pointer code makes one step of the run-queue specification, touches only states and `running_task`, and loads the next task's registers exactly when it was suspended and is not the root task |
| `RunQueue.FirstTick` | src/kernel/generic/sched/task.c:219-276 | after a CPU's first tick exactly `running_task` is RUNNING and all others SUSPENDED, if and only if every task behind the second is SUSPENDED, and the second is SUSPENDED too, or RUNNING beside a SUSPENDED first; a single task must be one of the two |
| `RunQueue.RunningCopyIsSkipped` | src/kernel/generic/sched/task.c:34-45 | a list where it fails: a copy made of a running task stays marked and is passed over |
| `RunQueue.RunsStayClean` | src/kernel/generic/sched/task.c:167-276 | from a clean state, every run of ticks and newly queued tasks stays clean |
| `RunQueue.RunsStayCrowded` | src/kernel/generic/sched/task.c:167-276 | two tasks marked running stay two or more in every run |
| `RunQueue.RunsOfAGivenList` | src/kernel/generic/sched/task.c:90-276 | over every run of a CPU given copies of suspended and running tasks, and more as they are queued: from its first tick on always one running task, if and only if the copies behind the second are suspended and not both of the first two running |
| `RunQueue.RunsOfTheBootList` | src/kernel/generic/sched/task.c:167-276 | over every run of the boot processor, from the sleeping root task alone: one running task if and only if a tick has come after a task was queued |
| `RunQueue.TicksGoRound` | src/kernel/generic/sched/task.c:250-276 | `running_task`, unset ones included, goes round the list whatever the states are |
| `RunQueue.EachRunsOnce` | src/kernel/generic/sched/task.c:250-276 | in any L consecutive ticks over L tasks each task becomes `running_task` exactly once, and on a CPU with one running mark it is then the task marked |
| `Cpus.BootSees` | src/kernel/generic/sched/task.c:167-276 | in every run of creations, queued tasks and ticks on all CPUs the boot processor runs as it would on its own events alone |
| `Cpus.EachCpuSees` | src/kernel/generic/sched/task.c:136-276 | and so does every other CPU once the tasks are distributed: on the ticks that are its and the queued tasks whose turn it is |
| `Cpus.GivenListStartsClean` | src/kernel/generic/sched/task.c:105-129 | of the lists the distribution makes, the one that fails is the one with a copy of the boot processor's current task in third place or later, and only that |
| `Cpus.RunsFromBoot` | src/kernel/generic/sched/task.c:167-276 | from sched_init, over every run on all CPUs: from its first tick with a task on, a CPU has exactly its current task marked running, always, if and only if the distribution did not give it the boot processor's current task as its third or a later one; otherwise it never has |
| `Cpus.ThirdCopyIsRunning` | src/kernel/generic/sched/task.c:167-276 | a run on two CPUs where it does |
| `Smp.BootStepKeeps` | src/kernel/arch/x86_64/smp.c:179-279 | every step of the boot processor keeps the handshake invariant |
| `Smp.ApStepKeeps` | src/kernel/main.c:108-122 | every step of a starting processor keeps it, the 32-bit read of the page table included |
| `Smp.RunsKeepInv` | src/kernel/arch/x86_64/smp.c:236-279 | the invariant holds in every state of every interleaving, for any number of cores |
| `Smp.MailboxIsQuiet` | src/kernel/arch/x86_64/smp.asm:53-96 | while a started AP has not finished reading, the boot processor cannot step at all, and no other AP is reading |
| `Smp.ApsAreApart` | src/kernel/arch/x86_64/smp.c:236-279 | APs that are up have pairwise distinct slots and stacks |
| `Smp.OwnSlot` | src/kernel/main.c:110-112 | with one boot processor in the list an AP takes its own slot if and only if it comes after it, else the next one; the slot is in range, stack and entry are its own, and its page table is the boot processor's if and only if that lies below 4 GiB |
| `Smp.StepsComeNearer` | src/kernel/arch/x86_64/smp.c:236-279 | every step brings the end nearer |
| `Smp.SomeoneCanStep` | src/kernel/arch/x86_64/smp.c:274-279 | and until the end someone can step |
| `Smp.AllAreUp` | src/kernel/arch/x86_64/smp.c:236-279 | at the end of the loop every core but the boot processor is up |
| `Locks.CallsAreOrdered` | src/kernel/generic/binfmt/binfmt.c:79-129 | every path of every call takes its locks in one acyclic order: binfmt, exec, sched, vfs, the reallocation locks, the allocators, pmm, printk |
| `Locks.OrderedIsDisciplined` | src/kernel/lib/lock.c:19-34 | ordered code, taken apart into lock operations, acquires above what it holds, releases the last one first, and ends with nothing |
| `Locks.ProgramsAreDisciplined` | src/kernel/generic/malloc/malloc.c:243-403 | so does any sequence of calls |
| `Locks.StepKeeps` | src/kernel/lib/lock.c:19-34 | a successful compare-and-swap or a store of 0 keeps: a mutex reads 1 exactly while one CPU holds it |
| `Locks.RunsExclude` | src/kernel/lib/lock.c:19-34 | in every run of any number of CPUs at most one holds a lock |
| `Locks.HoldsItsLock` | src/kernel/lib/lock.c:19-34 | from its first step to its last a call holds its own lock, on every path that takes one around the whole call |
| `Locks.OneIsInside` | src/kernel/lib/lock.c:19-34 | so in every run no two CPUs are inside calls with the same lock |
| `Locks.OneMounts` | src/kernel/generic/fs/vfs.c:101-150 | and never two inside vfs_mount |
| `Locks.SomeoneCanStep` | src/kernel/lib/lock.c:23-25 | no deadlock: a CPU with work left can step or waits, through holders of ever higher locks, for one that can |
| `Locks.RunsEndReleased` | src/kernel/generic/fs/vfs.c:101-150 | where a run ends every call has finished and every lock is free |
| `Locks.RunsAreShort` | src/kernel/lib/lock.c:19-34 | and every run ends |
| `HashMap.Hash` | src/kernel/lib/hashmap.c:19-27 | the shifts and subtraction compute the base-65599 polynomial of the key in 32 bits, then the bucket |
| `HashMap.PolyInNumbers` | src/kernel/lib/hashmap.c:19-27 | that polynomial, character by character, characters being signed |
| `HashMap.InsertEndsForNewKeys` | src/kernel/lib/hashmap.c:48-57 | the walk of hashmap_insert ends if and only if the key is not in the chain |
| `HashMap.Map.constructor` | src/kernel/lib/hashmap.c:29-35 | an empty map in memory of its own |
| `HashMap.Map.Get` | src/kernel/lib/hashmap.c:67-82 | returns what the map holds for the key |
| `HashMap.Map.Insert` | src/kernel/lib/hashmap.c:37-65 | for a new key: one update of the map from keys to values, by a new entry; chains stay linked, finite and apart |
| `HashMap.Last` | src/kernel/lib/hashmap.c:48-58 | the walk ends at the last entry |
| `HashMap.FindAppends` | src/kernel/lib/hashmap.c:37-82 | appending to a chain adds one key and hides none |
| `Memory.MemMove` | src/kernel/lib/string.c:88-107 | for every overlap and every length, zero included, the destination holds the old source bytes and nothing else changes |
| `Memory.MemCpy` | src/kernel/lib/string.c:69-86 | the word path and the byte path both give that result unless the source is overwritten before it is read |
| `Memory.CopyLongs` | src/kernel/lib/string.c:76-79 | the word path |
| `Memory.CopyBytes` | src/kernel/lib/string.c:80-84 | the byte path |
| `Memory.MemSet` | src/kernel/lib/string.c:26-53 | fills exactly `sz` bytes and returns if and only if `sz` covers the distance to a word boundary; otherwise the count has wrapped and it runs off the memory |
| `Memory.FillToWord` | src/kernel/lib/string.c:34-35 | the first loop, and the count it leaves |
| `Memory.FillWords` | src/kernel/lib/string.c:36-46 | the word loop |
| `Memory.SpreadBytes` | src/kernel/lib/string.c:40-41 | the two shifts put the byte into all four places |
| `Number.DigitsHaveTheValue` | src/kernel/lib/stdlib.c:29-64 | the printed digits are a numeral of the number, without leading zeros |
| `Number.NumeralsAreUnique` | src/kernel/lib/stdlib.c:29-64 | and the only one, in base 10 and base 16 |
| `Number.StrLen` | src/kernel/lib/string.c:19-24 | the length of a NUL-terminated text |
| `Number.Reverse` | src/kernel/lib/stdlib.c:19-27 | the in-place swaps reverse the text |
| `Number.PutDigits` | src/kernel/lib/stdlib.c:33-36 | the do-while loop leaves the digits least significant first |
| `Number.Itoa` | src/kernel/lib/stdlib.c:29-43 | the array holds the decimal text of the number |
| `Number.UnsignedToText` | src/kernel/lib/stdlib.c:45-64 | the array holds the decimal or hexadecimal digits |
| `Number.Atoi` | src/kernel/lib/stdlib.c:66-81 | sign, plus and digits read with 32-bit wrap-around |
| `Number.AtoiInvertsItoa` | src/kernel/lib/stdlib.c:29-81 | reading what was printed gives the number if and only if it is not the least 32-bit integer |

## Left out

- Pmm.RunsNeverOverlap: runs whose frees stay inside the bitmap's storage; a free outside it is an outcome of `Pmm.PageAllocator.Free`, and what the code's write then destroys is not modelled.
- Pmm.PageAllocator.PmmAdd: running off the memory map is an outcome of its own (`OffMap`), because the address the code computes from the memory behind the map means nothing.
- Bitmap.PageBitmap.FindFree: the bitmap is below 2^31 bytes, because the result is an int.
- Paging.Load: memory that holds no page table reads as 0; payloads of mapped frames are not modelled.
- Paging.LinkKeepsTree: flags are at most 0x1ff with the present bit set, as all callers pass them.
- Vmm.PageTables.MapPage: when the tables stop being a tree is stated for a page mapped after no allocation has failed, with an allocator that stays on the map (`Pmm.AllOnMap`) and no table at page 0.
- Vmm.PageTables.NewSpace: vmalloc's copying of the kernel heap into a new space (copy_page) is not modelled; it indexes the top-level table with the leaf index.
- Effective permissions: intermediate entries keep the flags of their first creation.
- Elf.Load: the header's bytes are given as parsed fields; copying and clearing segment contents is not modelled, the code does not fix a clean intended meaning for it.
- Elf.Covered: segments whose size does not survive rounding up are not all mapped (`Elf.BytesAreTouched`).
- Malloc.KernelHeap.Kmalloc: requests up to 512 bytes, because only four classes are searched; above that the code falls back to a slab without pages.
- Malloc.KernelHeap.FreePtr: memory that was not handed out is taken not to hold the header's magic number.
- Malloc.KernelHeap.PoolRealloc: object constructors are not modelled; they run on the page record.
- Slabs.Slab.Create: the `next` links between slabs are kept as a sequence in creation order.
- Paths.StrNCmp: characters compare as unsigned; only equality matters to the callers.
- Vfs.Vfs.Mount: looking up "/" dereferences the NULL node in the code, so a lookup excludes it; components have fewer than 256 characters, the size of the buffer.
- Vfs.TreeNode: child lists (list.c) are sequences; `prev`, `parent` and list positions are not modelled, nor vfs_unmount, tree_free_node and the other list operations, which do not keep the list invariants.
- Vfs.FsNode: fields of a new node that the code leaves unset start as closed and without callbacks.
- Ramdisk.LoadObject: the read is bounded neither by the one-megabyte object buffer nor by the block, as in the code; what a larger file would overwrite is not modelled.
- Tar.Member: names have 1 to 99 characters, leaving room for a NUL; strncpy would leave a longer one unterminated. Checksums, type flags and the name prefix are not read by the code.
- Sched.Scheduler.Distribute: the branch for a single created task is not modelled; the only caller has more than four. `this_core` is the boot processor's own record, apart from `cpus`.
- Sched.Scheduler.constructor: the CPUs' `running_task` is taken to start unset, which smp_init leaves to the memory it gets.
- Sched.Scheduler.Queue: calls are taken one at a time; a tick on another CPU in the middle of a distribution is not modelled.
- Sched.Processor.SwitchTask: saved register contents are not modelled; arch_switch_to_user is taken not to return.
- Smp.OwnSlot: interrupts sent to a core that does not start, and the writes through cpu_id as an index, are not modelled.
- Smp.ApsAreApart: the stacks are taken to differ, which their pool ensures for the first twelve (`SlabList.FirstIssuesDiffer`); the processor array holds eight.
- Locks.Call: allocators are taken to return pages, and printk always to print; unlock enables interrupts before it clears the mutex, and interrupts are abstracted away.
- Cross-CPU races on shared data: pmm_alloc unlocks before it marks its page and kmalloc and kfree use different locks, so the allocator theorems are about sequential runs.
- HashMap.Map.constructor: new memory is taken to be zero, since the code sets neither the bucket array nor the first entry's `next`.
- Memory.MemCpy: regions that overlap with the source read after it was overwritten are excluded, as in C.
- Memory.MemSet: the memory is smaller than 2^63 bytes, so a wrapped count always runs off it.
- Number.Neg32: signed overflow wraps around; the C standard leaves it undefined, in itoa's negation and in atoi's sum.
- Number.UnsignedToText: uitoa and uitoh share one member, their loops differ only in the base and the digits above nine.
- Hardware access, the framebuffer and terminal, printk's formatting, the clock and the page contents: effects with no checkable state in the source.
