# Verified model of the KLoS kernel

KLoS is a small 32-bit x86 kernel. This project models five of its parts and proves what each of
them is for. Every part has a theory on values, with the theorems, and a class that works in place
as the kernel does (arrays of entries, linked headers, next pointers, stack tops, a screen buffer)
and is proved to compute the functions of that theory.

| files | part of the kernel |
|---|---|
| `PageEntries`, `CowModel`, `CowFault`, `CowRefinement`, `CowFailures`, `PageTables`, `Pager` | address spaces: mapping, fork by copy-on-write, resolution of page faults |
| `CowMemory` | address spaces and the frame allocator together |
| `FreeList`, `HeapModel`, `HeapRuns`, `HeapFailures`, `KernelHeap` | the kernel heap: coalescing free list, roving pointer, growth by pages, aligned pages |
| `FrameStacks` | the physical frame allocator |
| `RoundRobin`, `ProcessList` | the process list, the scheduler, fork and creation of processes |
| `Console` | the text screen |
| `Words`, `Lists`, `Paths` | 32-bit words, positions in lists, sequences of steps |

The main results, hardest first:

- **Copy-on-write is eager copying.** Over every run of process creation, fork, mapping, switching
  and writing (where a write that the hardware refuses first goes through the fault handler and is
  then retried), each process sees the memory of a machine whose fork copies every page at once
  (`CowRefinement.CopyOnWriteIsEagerCopy`, `RunRefines`). The kernel keeps no reference counts; the
  proof rests on a two-level ownership invariant (`CowModel.Inv`) which fork and both halves of the
  fault handler keep, and from which it follows that an effectively writable page has one owner. No run
  touches the kernel's part of a directory or closes a page to its user (`RunKeepsAccess`).
- **No frame is lost or shared** (`CowMemory.NoFrameIsLostOrShared`): from start-up on, with every
  frame that mapping and copying use taken from the two frame stacks and the kernel taking and
  returning frames in between, each process sees eager memory, and each frame of memory is on a stack,
  kept by the kernel or mapped by processes, and only one of these. That the frames are new is proved
  here, not assumed: the allocator's answer may be used if and only if it is a frame, or it is the 0
  of exhausted memory and nobody maps frame 0 yet (`AnswerIsFresh`).
- **What the fault handler does on every input** (`CowFault.FaultOutcome`): it never uses its
  variable `last` unassigned, it meets a NULL table pointer exactly in the three situations named
  there, and otherwise reports success exactly if the page needed a copy. The in-place handler
  `Pager.Kernel.ResolveFault` gives this outcome on the real directories, tables and pages.
- **The heap is tiled over whole runs** (`HeapRuns.RunsTileTheHeap`): the free list stays ordered
  and fully coalesced, free and owned regions are disjoint and fill the heap. `KernelHeap.Allocator`
  does this on linked headers, and every live header keeps its block's size.
- **How `kalloc` ends, on every input** (`HeapModel.KallocOutcome`): with a block, with NULL or past
  the heap's page table, each if and only if frames, room in the table and the growth that the
  request takes say so. It takes the first fit behind the rover and leaves the rover in front of it
  (`FitsWithoutGrowing`), so that the next request goes on there (`RestServesNext`).
- **Where the heap does not do what one expects.** `kalloc` can return NULL although a block fits
  (`HeapModel.WhenKallocMissesABlock`), `kalloc_page` relinks around the wrong block in two cases
  (`HeapModel.CarvingRightIffSafe`), `kbrk` dereferences NULL before the first use of the heap
  (`HeapRuns.BrkOutcome`), and growing past 1024 pages needs a page table that only a free page on
  the heap can provide (`HeapModel.NestedTableFails`). Each is an exact condition. `HeapFailures`
  has a run from boot to each; for `kbrk` that is boot itself (`HeapRuns.BootIsGood`).
- **Limits of the copy-on-write design**, each as an exact condition, with runs from boot to them in
  `CowFailures`: mapping any page, mapped before or not, changes other processes' entries unless the
  slot has no table or an unshared one, or the entry is there already (`MapLeaksIffShared`);
  terminating a process strands a sharer if and only if it was the last other one
  (`TerminationStrandsSharer`); creating a process breaks the next page copy at slots where it has no
  table (`CreateBreaksFaults`); a frame that is still in use, such as the frame 0 that stands for
  exhausted memory, breaks ownership (`FaultNeedsFreshFrame`, with the run `FrameReused`).
- **Frames** are conserved over runs and never handed out twice, from start-up on. Start-up works
  below 3 GB of memory: from there on its own stack needs a second page table
  (`FrameStacks.StackFitsItsTable`). **The scheduler** serves every running process within one turn,
  and its search ends if and only if the current process is listed or somebody is running; at start-up
  neither need be so (`RoundRobin.SearchMayNotEnd`). **The screen** is the last 25 rows of an unbounded layout of the text.

Conventions. A virtual page is a directory slot and a table index. A directory or table entry is a
record of the flags that matter and the physical address; `PageEntries` relates the records to the
kernel's words bit by bit. Heap addresses and sizes are in header units of 8 bytes. What
`mm_page_allocate` and `kalloc_page` return to the pager is passed in as a parameter. Hardware
effects (translation caches, CR3, interrupt flags, port output) do not appear. A function that can
fail returns the failure as a value, and where the kernel would run into undefined behaviour the
outcome names it. The heap's page table is the one that `setup_heap` puts in place; past it the model
stops, since the table that pg_map would add appears in the kernel's own directory only.

## Model

| member | source | states |
|---|---|---|
| PageEntries.ShareTableWord | src/kernel/paging.cpp:122-125 | fork's two word operations clear the write bit, set copy-on-write and leave presence, user bit and address alone |
| PageEntries.ReleaseTableWord | src/kernel/paging.cpp:363-366 | giving a table back to its last sharer clears copy-on-write and sets the write bit, nothing else |
| PageEntries.DemotePageWord | src/kernel/paging.cpp:375-384 | a writable table entry becomes read-only copy-on-write, nothing else; the word of an entry whose write bit is clear is stored as it is |
| PageEntries.DemotedFlags | src/kernel/paging.cpp:375-384 | what the copy leaves of each flag: presence, user bit and address stay, nobody may write, and copy-on-write is what was writable or copy-on-write |
| PageEntries.ReleasePageWord | src/kernel/paging.cpp:415-418 | giving a page back to its last sharer clears copy-on-write and sets the write bit, nothing else |
| PageEntries.MapWord | src/kernel/paging.cpp:271-272 | the word pg_map stores is present, writable, not copy-on-write, with the page-aligned address |
| PageEntries.SetupWord | src/kernel/paging.cpp:193-194 | the word pg_setup_pagetable stores is present, writable, not copy-on-write, with the table's address |
| PageTables.SplitIsBijection | src/kernel/paging.cpp:84-92 | slot and index are the upper ten and the next ten bits of an address; together they identify its page, and nothing less does |
| PageTables.SetEntriesUpdates | src/kernel/paging.cpp:270-272 | storing one entry updates or removes exactly one page in the finite map that an address space stands for |
| PageTables.EmptySlotRemoves | src/kernel/paging.cpp:233-250 | dropping a table removes exactly the 1024 pages of its slot from that map |
| PageTables.PageTable.GetPhysical | src/kernel/paging.cpp:97-100 | lookup in the finite map |
| PageTables.PageTable.SetupPageTable | src/kernel/paging.cpp:187-205 | creates the slot's table only if there is none, clears it either way, touches no other slot; dereferences NULL if and only if there is none and kalloc_page returns none |
| PageTables.PageTable.Map | src/kernel/paging.cpp:256-277 | update of the finite map at one page, every other translation unchanged even when a table is created; dereferences NULL if and only if a table is needed and kalloc_page returns none |
| PageTables.PageTable.Unmap | src/kernel/paging.cpp:284-296 | removal of one page from the finite map, a no-op without a table |
| PageTables.PageTable.RemovePageTable | src/kernel/paging.cpp:233-250 | removal of exactly the slot's pages, and the address of the table that served it |
| CowModel.WritableIsPrivate | src/kernel/paging.cpp:119-129 | a frame that a process may write at both levels is mapped by no other process, at any page |
| CowModel.ForkEntries | src/kernel/paging.cpp:119-129 | source and child end with the same directory: entries of user tables below slot 0x300 are read-only copy-on-write, all others, the kernel's among them, are what the source had; no table entry and no third process's entry changes; the child stands at its place in the list and sees what the parent does |
| CowModel.ForkKeepsInv | src/kernel/paging.cpp:102-134 | fork of any listed process keeps the two-level ownership invariant |
| CowModel.OthersMembers | src/kernel/paging.cpp:351-359 | a scan of the list collects exactly the other processes with the property, each once |
| CowFault.TableSharersExact | src/kernel/paging.cpp:351-359 | the first scan finds exactly the other users of the table |
| CowFault.PageSharersExact | src/kernel/paging.cpp:403-411 | the second scan finds exactly the other processes that map the frame |
| CowFault.CowTableHasSharer | src/kernel/paging.cpp:344-376 | a copy-on-write directory entry always has another listed user, so `last` is assigned when the table is copied |
| CowFault.CowPageHasSharer | src/kernel/paging.cpp:395-419 | a copy-on-write table entry always has another listed process on its frame |
| CowFault.BreakTableEntries | src/kernel/paging.cpp:346-384 | after the first half: the faulting process has a private writable table, the one remaining sharer and no other has write access back, of the old table's pages the writable ones are copy-on-write and no flag else changes for everyone on it, all other entries are as before |
| CowFault.BreakTableKeepsInv | src/kernel/paging.cpp:343-389 | the first half keeps the ownership invariant |
| CowFault.BreakTableKeepsView | src/kernel/paging.cpp:375-384 | the first half changes no process's readable memory and no page's user bit |
| CowFault.SolePageSharer | src/kernel/paging.cpp:414-419 | a single remaining sharer of a page holds it copy-on-write, in a table that nobody else uses |
| CowFault.BreakPageEntries | src/kernel/paging.cpp:397-437 | after the second half: the faulting process maps a private writable copy, the one remaining sharer and no other has write access back, all other entries are as before |
| CowFault.BreakPageKeepsInv | src/kernel/paging.cpp:394-441 | the second half keeps the ownership invariant |
| CowFault.BreakPageKeepsView | src/kernel/paging.cpp:421-437 | the second half changes no process's readable memory and no page's user bit |
| CowFault.FaultOutcome | src/kernel/paging.cpp:338-444 | for every state, page and answer of the allocators: `last` is never used unassigned; a NULL table is dereferenced if and only if the faulting process has no table at the slot, or needs a new one and gets none, or the page needs a copy and some listed process has no table; otherwise success is reported if and only if the page is mapped and not effectively writable |
| CowFault.FaultKeepsInv | src/kernel/paging.cpp:338-444 | a fault keeps the invariant, everyone's readable memory and every user bit, and after a resolved fault the retried write is permitted |
| CowFault.FaultNeedsFreshFrame | src/kernel/paging.cpp:421-437 | a resolved fault keeps the ownership invariant if and only if nobody maps the frame that the allocator returned |
| CowRefinement.StoreIsPrivate | src/kernel/paging.cpp:119-129 | a permitted store gives one word of the writer's page the value and leaves its other words, every other page of every process and every other frame |
| CowRefinement.WriteIsPrivate | src/kernel/paging.cpp:338-444 | a user write, with or without a fault, gives one word of the writer's page the value and leaves its other words, every other page of every process and every frame but the one that the writer maps then |
| CowRefinement.MapPageKeepsInv | src/kernel/paging.cpp:256-277 | mapping a new user page into an unshared slot keeps the ownership invariant |
| CowRefinement.CreateEntries | src/kernel/paging.cpp:164-177 | a new process has no user table and the kernel's entries from slot 0x300 on, stands at its place in the list, and nothing else changes |
| CowRefinement.StepKeepsInv | src/kernel/paging.cpp:102-444 | every step of a run keeps the ownership invariant |
| CowRefinement.StepRefines | src/kernel/paging.cpp:102-444 | every step agrees with the machine that copies eagerly |
| CowRefinement.RunRefines | src/kernel/paging.cpp:102-444 | from related states, every run keeps the invariant and ends in related states |
| CowRefinement.CopyOnWriteIsEagerCopy | src/kernel/paging.cpp:102-444 | from boot, after every run each process sees exactly eager memory, and no reachable copy-on-write table is without another sharer |
| CowRefinement.RunKeepsAccess | src/kernel/paging.cpp:102-444 | over every run the kernel's part of each directory stays as it was made, every mapped page stays mapped with its user bit, and from boot all pages are user pages |
| CowRefinement.MapLeaksIffShared | src/kernel/paging.cpp:256-277 | pg_map of any page, mapped before or not, leaves every entry of every other process alone if and only if the slot has no table, its table is not shared, or the entry is there already; of the process itself it changes that one entry |
| CowRefinement.CreateBreaksFaults | src/kernel/paging.cpp:403-404 | once a process without a table at the slot is listed, every fault there that has to copy a page dereferences NULL |
| CowRefinement.TerminationStrandsSharer | src/kernel/process.cpp:298-306 | after another process has gone, a fault uses `last` unassigned if and only if it needs a new table and gets one, and the other process was the only other user of the old one |
| CowMemory.AnswerIsFresh | src/kernel/memory.cpp:26-33 | what mm_page_allocate answers is mapped nowhere if and only if it is a frame, or it is 0 and nobody maps frame 0 yet |
| CowMemory.ActionFrames | src/kernel/paging.cpp:102-444 | fork, switching, creation and permitted writes leave the set of mapped frames alone; mapping and copying a page add exactly the new frame, the old one stays mapped by its other sharers |
| CowMemory.StepKeepsAccounted | src/kernel/memory.cpp:14-47 | every call keeps: ownership, all frames different, those handed out are exactly the kernel's and the mapped ones, and these differ; the frames in total stay the same |
| CowMemory.RunKeepsAccounted | src/kernel/memory.cpp:14-47 | so does every run |
| CowMemory.RunIsPagerRun | src/kernel/paging.cpp:102-444 | every run with the allocator is a run of the pager alone in which all new frames are fresh |
| CowMemory.NoFrameIsLostOrShared | src/kernel/paging.cpp:102-444 | from start-up, after every run, each process sees eager memory, and each frame above the stacks is on a stack, kept by the kernel or mapped, and only one of these |
| CowFailures.MapLeaks | src/kernel/paging.cpp:256-277 | a run from boot (create, map, fork) after which mapping a page for the parent maps it for the child |
| CowFailures.RemapLeaks | src/kernel/paging.cpp:256-277 | the same run, after which mapping a mapped page again swaps the child's frame |
| CowFailures.CreateBreaks | src/kernel/paging.cpp:403-404 | the same run, after which one more process makes the parent's next write dereference NULL |
| CowFailures.TerminationStrands | src/kernel/paging.cpp:351-376 | the same run, after which the child's end makes the parent's next write use `last` unassigned |
| CowFailures.FrameReused | src/kernel/paging.cpp:421-437 | a run from boot in which a page gets frame 0, after which a copy into frame 0 leaves the parent writing the frame that the child maps |
| Pager.CopyTable | src/kernel/paging.cpp:375-384 | the table copy loop: both tables end up with the source's entries, the writable ones read-only and copy-on-write and no flag else changed, all other tables as before |
| Pager.CopyPage | src/kernel/paging.cpp:421-433 | the word copy loop: the new frame holds the words that the old one held, all other frames as before, even if both are the same |
| Pager.PrivatiseTable | src/kernel/paging.cpp:361-384 | the first half's stores, in order, on directories and tables that other spaces share |
| Pager.PrivatisePage | src/kernel/paging.cpp:413-437 | the second half's stores, in order |
| Pager.CopyUserPageDirectory | src/kernel/paging.cpp:102-134 | the copy loop makes source and child directories equal, changes the entries of present user tables below slot 0x300 and no others, shares every table pointer and leaves tables alone |
| Pager.CreateUserPageDirectory | src/kernel/paging.cpp:151-182 | a new space has an empty user part, and the kernel's entries and tables from slot 0x300 on |
| Pager.Kernel.Fork | src/kernel/process.cpp:222-230 | the in-place listing and directory copy of a fork represent the model's fork, for every place in the list and every new pid |
| Pager.Kernel.Create | src/kernel/process.cpp:255-263 | the in-place listing and the new directory represent the model's creation, for every place in the list and every new pid; the user part is empty |
| Pager.Kernel.MapUser | src/kernel/paging.cpp:256-277 | the in-place pg_map of a user page represents the model's, with and without a table in place, or dereferences NULL if and only if a table is needed and kalloc_page returns none |
| Pager.Kernel.Resume | src/kernel/process.cpp:98-106 | switching changes the current process and no memory |
| Pager.Kernel.CountTableSharers | src/kernel/paging.cpp:351-359 | the first scan loop returns the number of other users of the table and the last of them |
| Pager.Kernel.CountPageSharers | src/kernel/paging.cpp:403-411 | the second scan loop finds a listed process without a table, or returns the number of other processes on the frame and the last of them |
| Pager.Kernel.BreakTable | src/kernel/paging.cpp:343-388 | the in-place first half reaches the model's state |
| Pager.Kernel.BreakPage | src/kernel/paging.cpp:394-440 | the in-place second half reaches the model's state, or meets a process without a table if and only if there is one |
| Pager.Kernel.ResolveFault | src/kernel/paging.cpp:338-444 | for every invariant state, with or without a page for a new table and with any frame for the copy, the in-place handler gives the model's answer, a NULL table included, and otherwise its objects represent the model's new state |
| FreeList.GapNeighbours | src/kernel/kalloc.cpp:98-100 | at the gap where the search ends, the region to be freed lies between its two neighbours |
| FreeList.CoalesceKeepsOrder | src/kernel/kalloc.cpp:97-114 | kfree keeps the list address-ordered with the base block first, and no two free blocks touch |
| FreeList.CoalesceCovers | src/kernel/kalloc.cpp:97-114 | kfree adds exactly the freed units to the free space |
| FreeList.CarveKeepsOrder | src/kernel/kalloc.cpp:68-79 | kalloc keeps the list ordered and coalesced, and what it hands out is inside the heap and clear of every free block |
| FreeList.CarveCovers | src/kernel/kalloc.cpp:68-79 | kalloc removes exactly the handed-out units from the free space |
| HeapModel.UnitsSuffice | src/kernel/kalloc.cpp:58 | the 32-bit rounding gives a block that holds the request if and only if the addition does not wrap |
| HeapModel.UnitsAreFewest | src/kernel/kalloc.cpp:58 | a number of units holds the request if and only if it is at least the rounded one |
| HeapModel.FreeBlockOk | src/kernel/kalloc.cpp:93-115 | after kfree the rover stands on a block of a well-formed list, at the gap |
| HeapModel.GrowShape | src/kernel/kalloc.cpp:29-47 | growing inside the page table extends the last block if it reaches the top of the heap and appends a page-sized one otherwise; the rover moves to the block before the new space |
| HeapModel.FitsWithoutGrowing | src/kernel/kalloc.cpp:66-87 | while some block fits, kalloc uses no frame: it cuts the request off the end of the first block, in cyclic order behind the rover, that holds it, the free space loses just that, and the rover is left at the block in front |
| HeapModel.RoverInFront | src/kernel/kalloc.cpp:79 | after every successful kalloc the rover stands in front of the units handed out, with at most the rest of their block between them |
| HeapModel.RestServesNext | src/kernel/kalloc.cpp:66-82 | a following request that fits what is left of that block is cut off right in front of the units handed out before |
| HeapModel.GrownServesFromTop | src/kernel/kalloc.cpp:84-86 | what kalloc had to grow the heap for lies at its very top, and the heap has grown by one page for each frame used |
| HeapModel.FailureGrowsOnly | src/kernel/kalloc.cpp:66-87 | a kalloc that fails leaves the heap as so many calls of kbrk do for which it has taken frames |
| HeapModel.WhenKallocMissesABlock | src/kernel/kalloc.cpp:66-87 | kalloc returns NULL with a fitting block on the list if and only if nothing fitted on entry, exactly one frame was left and the page table had room, the request fits a page, the rover was not at the last block and that block did not reach the top |
| HeapModel.KallocOutcome | src/kernel/kalloc.cpp:52-88 | how kalloc ends on every heap, with any frames, for every request: with a block if and only if frames and page table allow the growth it takes, with NULL if and only if frames run out before the table does, and past the table otherwise |
| HeapModel.SafeAtRover | src/kernel/kalloc.cpp:84-86 | if new space is always met before the rover, kalloc gives up only when nothing fits, and grows by exactly the pages that are missing at the top |
| HeapModel.PageBlockComplete | src/kernel/kalloc.cpp:135-181 | kalloc_page's search fails if and only if no free block holds an aligned page, and finds the first one in cyclic order behind the rover |
| HeapModel.NestedTableFails | src/kernel/paging.cpp:261-265 | behind the heap's page table, the recursion of pg_map and kalloc_page comes to a page for a table if and only if some free block holds one; otherwise it uses up every frame and ends with NULL |
| HeapModel.PageInside | src/kernel/kalloc.cpp:137-152 | the page taken is page-aligned and lies wholly inside one free block |
| HeapModel.SafeCarving | src/kernel/kalloc.cpp:154-174 | in the safe cases the new list is well-formed, keeps the rover, covers the old free space without the page, and is clear of the page |
| HeapModel.CarvingRightIffSafe | src/kernel/kalloc.cpp:154-174 | for every block that holds a page, kalloc_page's relinking is right if and only if the rover's block is not unlinked and a page that does not start its block does not end it |
| HeapModel.WhatIsLost | src/kernel/kalloc.cpp:154-174 | what a wrong relinking takes off the list: the next block, or the base block if there is none, or the rover's own |
| HeapRuns.TakeKeepsInv | src/kernel/kalloc.cpp:66-82 | an allocation turns free units into one owned region and keeps the tiling and its sum |
| HeapRuns.FreeKeepsInv | src/kernel/kalloc.cpp:93-115 | freeing an owned region keeps the tiling and its sum |
| HeapRuns.GrowKeepsInv | src/kernel/kalloc.cpp:29-47 | growing inside the page table keeps the tiling and adds one page to its sum |
| HeapRuns.ScanKeepsInv | src/kernel/kalloc.cpp:66-87 | whatever kalloc's loop goes through, it ends with one new owned region of the requested size or, with nothing new, when no frame is left or the page table is full |
| HeapRuns.PageKeepsInv | src/kernel/kalloc.cpp:135-174 | a page carved out safely is a new owned region and keeps the tiling and its sum |
| HeapRuns.ExtendKeepsInv | src/kernel/kalloc.cpp:183-192 | a page added at the top and handed out whole keeps the tiling |
| HeapRuns.BrkOutcome | src/kernel/kalloc.cpp:29-47 | kbrk dereferences NULL if and only if the list is uninitialised and there is a frame, and leaves the heap's page table if and only if that is full and there is a frame |
| HeapRuns.AllocOutcome | src/kernel/kalloc.cpp:52-88 | kalloc leaves the heap's page table if and only if both the pages it needs and the frames there are exceed the table's room; nothing else goes wrong |
| HeapRuns.AllocPageOutcome | src/kernel/kalloc.cpp:120-193 | kalloc_page breaks the list if and only if the first block with a page is an unsafe one, and leaves the page table if and only if no block holds a page, the table is full and there is a frame |
| HeapRuns.PageStepEffect | src/kernel/kalloc.cpp:120-193 | kalloc_page hands out the first aligned page of the first block behind the rover that holds one and uses no frame, or else the next page at the top; the rover stays where it is |
| HeapRuns.FreeOutcome | src/kernel/kalloc.cpp:93-115 | kfree of an owned region never fails: nothing is owned before the list is initialised |
| HeapRuns.StepKeepsGood | src/kernel/kalloc.cpp:29-209 | every call that does not fail keeps the tiling, a frame stack without frame 0, and what holds before the first use |
| HeapRuns.RunsTileTheHeap | src/kernel/kalloc.cpp:29-209 | after any run of kalloc, kfree, kbrk, kalloc_page and kfree_page calls that do not fail, the list is ordered and coalesced, free and owned regions are disjoint and exactly fill the heap, their sizes add up to it, and it lies inside its page table |
| HeapRuns.BootIsGood | src/kernel/kalloc.cpp:24-47 | runs may start at boot with kernel_heap_free NULL, but not with kbrk: it dereferences NULL there if and only if there is a frame |
| HeapFailures.KallocMissesABlock | src/kernel/kalloc.cpp:66-87 | from boot with two frames, 792 bytes and then 3992: NULL with a fitting block on the list |
| HeapFailures.PageAtTheEnd | src/kernel/kalloc.cpp:157-172 | a run from boot with two frames after which kalloc_page takes a page that ends its block without starting it, and loses a block |
| HeapFailures.PageFromTheRover | src/kernel/kalloc.cpp:160-172 | a run from boot with two frames after which kalloc_page unlinks the block that kernel_heap_free points to |
| HeapFailures.BootTableFills | src/kernel/kalloc.cpp:29-47 | with more frames than the table has pages, a run from boot after which kbrk leaves the heap's page table |
| HeapFailures.TableCannotGrow | src/kernel/paging.cpp:261-265 | with more frames than the table has pages, calls of kalloc_page alone lead from boot to a full table with no page for another, where the recursion ends with NULL |
| KernelHeap.StopsAtGap | src/kernel/kalloc.cpp:98-100 | kfree's loop condition holds at the gap and at no other block of the ring |
| KernelHeap.RelinkedRing | src/kernel/kalloc.cpp:66-192 | any stores that lead the block in front to a replacement, and the replacement past the stretch, leave the headers in one ring |
| KernelHeap.LinkedRing | src/kernel/kalloc.cpp:102-112 | kfree's two header stores leave the ring of the coalesced list, in all four cases of touching neighbours |
| KernelHeap.ExactFitRing | src/kernel/kalloc.cpp:70-71 | unlinking an exact fit leaves the ring of the remaining list |
| KernelHeap.TailRing | src/kernel/kalloc.cpp:72-77 | cutting a tail off leaves the ring of the shrunk list, whatever the new header's link |
| KernelHeap.CutRing | src/kernel/kalloc.cpp:155-172 | kalloc_page's stores leave one ring of headers in all cases; it is that of the list without the page exactly where CarvingRightIffSafe says so |
| KernelHeap.AllocationSound | src/kernel/kalloc.cpp:52-88 | after kalloc the tiling holds with the new region, every live header still holds its block's size, and a failure means no frame is left or a full page table |
| KernelHeap.Allocator.FindGap | src/kernel/kalloc.cpp:98-100 | the search ends, from any rover position, at the unique gap |
| KernelHeap.Allocator.StoreLinks | src/kernel/kalloc.cpp:102-112 | the four possible pairs of stores, in order |
| KernelHeap.Allocator.Kfree | src/kernel/kalloc.cpp:93-115 | memory holds the coalesced list, the rover is at the gap, and no header off the list but the freed one has changed |
| KernelHeap.Allocator.Brk | src/kernel/kalloc.cpp:29-47 | no frame, a full page table, or success, each exactly when it should be; on success memory holds the grown heap and headers off the list are unchanged, otherwise nothing but the frame stacks changes |
| KernelHeap.Allocator.Kbrk | src/kernel/kalloc.cpp:29-47 | from outside: the step of the theory of runs; the tiling holds, and everything handed out and all live headers are intact |
| KernelHeap.Allocator.FindFit | src/kernel/kalloc.cpp:66-87 | the loop ends, by fewer frames or fewer steps to the rover, at the block the model finds, or as the model fails |
| KernelHeap.Allocator.TakeUnits | src/kernel/kalloc.cpp:68-81 | the stores of an allocation, the header of the block handed out, and the rover |
| KernelHeap.Allocator.Kalloc | src/kernel/kalloc.cpp:52-88 | the step of the theory of runs, starting with or without an initialised list; the tiling holds, all live headers are intact, NULL only with no frame left or a full page table |
| KernelHeap.Allocator.FindPageBlock | src/kernel/kalloc.cpp:135-181 | the first block behind the rover that holds an aligned page, if any |
| KernelHeap.Allocator.KallocPage | src/kernel/kalloc.cpp:120-193 | on every heap the step of the theory of runs: where the carving is right, an aligned new owned region of one page with all live headers intact, or NULL with no frame left; where it is wrong, the ring of headers it leaves behind, which is not the right list |
| KernelHeap.Allocator.KfreePage | src/kernel/kalloc.cpp:198-209 | gives a page back: the list is coalesced, the tiling holds and all live headers are intact |
| KernelHeap.Allocator.Release | src/kernel/kalloc.cpp:93-115 | kfree of any live block needs nothing but its own header; the tiling holds and all other live headers are intact |
| KernelHeap.Allocator.MemoryInfo | src/kernel/kalloc.cpp:238-263 | the total is the heap's size, and the bytes in use are exactly those of all live blocks, headers included, and all live pages |
| KernelHeap.VisitedNext | src/kernel/kalloc.cpp:251-257 | the walk around the ring adds every block's size exactly once |
| FrameStacks.LowZeroIffEmpty | src/kernel/memory.cpp:14-21 | without frame 0 on the stacks, 0 means that low memory is exhausted, and anything else comes off the stack |
| FrameStacks.ZeroIffEmpty | src/kernel/memory.cpp:26-33 | without frame 0 on the stacks, 0 means that both stacks are empty |
| FrameStacks.StepConserves | src/kernel/memory.cpp:14-47 | one request keeps the multiset of stacked and issued frames |
| FrameStacks.RunConserves | src/kernel/memory.cpp:14-47 | every run of requests keeps the multiset of stacked and issued frames |
| FrameStacks.FreshAfterRun | src/kernel/memory.cpp:14-47 | after any run, the next frame is not in use and not stacked, and 0 means exhaustion |
| FrameStacks.LastReturnedFirst | src/kernel/memory.cpp:14-47 | a frame returned is the next one handed out on its side of the first megabyte, and low memory is touched only when no high memory is left |
| FrameStacks.RunKeepsSorted | src/kernel/memory.cpp:14-47 | over every run the low stack holds frames below the first megabyte only, and mm_page_allocate_lo answers with nothing else |
| FrameStacks.SetupFits | src/kernel/memory.cpp:59-73 | the frames pushed at start-up fit the mapped stack pages and are aligned frames of memory, once each |
| FrameStacks.StackKeepsItsFrames | src/kernel/memory.cpp:59-73 | the frames pushed are those right behind the last one mapped under the stack; the page table's frame and the mapped ones are not among them |
| FrameStacks.StackFitsItsTable | src/kernel/memory.cpp:59-67 | the start-up mapping loop stays inside the one page table set up for it if and only if there is less than 3 GB of memory |
| FrameStacks.StacksApart | src/kernel/memory.cpp:5-6 | for no 32-bit memory size does the mapped high stack reach the low one |
| FrameStacks.CounterSteps | src/kernel/memory.cpp:72 | the 32-bit counter starts at the first frame and takes one page at a time |
| FrameStacks.SetupEndsIff | src/kernel/memory.cpp:72-73 | the 32-bit counter of the start-up loop gets to the end if and only if the memory size is at most 0xFFFFF000 |
| FrameStacks.CounterOverflowsIff | src/kernel/memory.cpp:54-73 | the loop makes an increment that overflows its signed counter if and only if the memory size exceeds 0x7FFFF000 and the first frame does not, or the memory size exceeds 0xFFFFF000, so that the loop never ends and comes around |
| FrameStacks.FreshAfterBoot | src/kernel/memory.cpp:52-74 | from start-up on, after any run, no frame is handed out twice, none of the stack's own or its page table's ever, and 0 means that all are issued |
| FrameStacks.FrameAllocator.PageAllocateLo | src/kernel/memory.cpp:14-21 | the low stack's top, in place; no stored frame is touched |
| FrameStacks.FrameAllocator.PageAllocate | src/kernel/memory.cpp:26-33 | high memory first, in place; no stored frame is touched |
| FrameStacks.FrameAllocator.PageFree | src/kernel/memory.cpp:38-47 | the frame lands on the stack its address belongs to |
| FrameStacks.FrameAllocator.Setup | src/kernel/memory.cpp:52-74 | the first loop maps frames in one piece behind the page table's; the second pushes every frame of memory behind them once, in ascending order, and none of them; it never leaves the stack's pages, and its 32-bit counter does not wrap |
| RoundRobin.InsertKeepsOrder | src/kernel/process.cpp:151-175 | injecting into a pid-ordered list keeps the order |
| RoundRobin.RemoveUndoesInsert | src/kernel/process.cpp:180-200 | extracting what was injected gives back the old list, wherever it was put |
| RoundRobin.RemoveAt | src/kernel/process.cpp:192-199 | extraction removes exactly one node and keeps the rest in order |
| RoundRobin.SearchFindsNearest | src/kernel/process.cpp:66-74 | the search finds the nearest running process in cyclic order if there is one |
| RoundRobin.SearchEndsIff | src/kernel/process.cpp:66-74 | the scheduler's loop comes to an end if and only if the current process is listed or somebody is running |
| RoundRobin.SearchMayNotEnd | src/kernel/main.cpp:132-137 | with the two processes of start-up paused and none current, as between enabling interrupts and starting them, the loop never ends |
| RoundRobin.FirstFromIsRunning | src/kernel/process.cpp:57-74 | without a listed current process, and somebody running, the search ends at the first running process in cyclic order from where it starts: from the root, the first one in list order |
| RoundRobin.HaltsIffAlone | src/kernel/process.cpp:66-77 | the processor is halted if and only if no other process is running |
| RoundRobin.EveryoneIsServed | src/kernel/process.cpp:47-78 | with at least two running processes, from any position, each is resumed for the first time after exactly the running ones before it in the turn, within as many calls as there are running processes |
| ProcessList.ProcessTable.Inject | src/kernel/process.cpp:151-175 | for every list and pid: succeeds, adds the node once, before the first larger pid, and keeps the list acyclic |
| ProcessList.ProcessTable.Extract | src/kernel/process.cpp:180-200 | removes exactly the node, ignores NULL and unlisted processes, and keeps the list acyclic |
| ProcessList.ProcessTable.Schedule | src/kernel/process.cpp:47-78 | whenever its search ends: picks the next running process in cyclic order after the current one; without a current one, the first running process of the list; for a current process off the list, the first running one where its next pointers lead, through other unlisted ones and from there on the list, or from the root; halts if and only if that is the current process |
| ProcessList.ProcessTable.Suspend | src/kernel/process.cpp:205-211 | pauses one process; suspending the current one, listed or not, schedules likewise |
| ProcessList.ProcessTable.ForkProcess | src/kernel/process.cpp:218-246 | the child is listed by the pid found in its memory, gets the next pid and starts paused; its stack holds the parent's words and its pointer the parent's offset, so that pr_resume pops for it what it would for the parent |
| ProcessList.ProcessTable.CreateProcess | src/kernel/process.cpp:251-293 | the process is listed likewise; popping at its stack pointer as pr_resume does gives EIP 0 and ESP 0x800, code and stack segments 0x1B and 0x23 of privilege level 3, flags with interrupts enabled and kernel data segments, and ends at the top of the stack |
| Console.TabReachesNextStop | src/kernel/console.cpp:111-113 | a tab writes the fewest spaces that reach a multiple of 8 columns |
| Console.PlainTextWraps | src/kernel/console.cpp:115-123 | text without newlines and tabs fills rows of 80 from left to right |
| Console.LineRows | src/kernel/console.cpp:108-123 | a line and its newline take one row more than the line fills: a full row is followed by an empty one |
| Console.LinesOnRows | src/kernel/console.cpp:108-123 | lines shorter than a row are laid out one to a row, padded with empty cells |
| Console.LinesOnScreen | src/kernel/console.cpp:106-131 | the screen shows the last 24 lines, or all if there are fewer, in order from the top, and nothing below them |
| Console.LayoutGrows | src/kernel/console.cpp:106-131 | what has been written never changes in the layout |
| Console.ShowsScrolled | src/kernel/console.cpp:84-101 | scrolling moves the window down by exactly one row |
| Console.Screen.Clear | src/kernel/console.cpp:68-79 | the window on an empty layout |
| Console.Screen.Scroll | src/kernel/console.cpp:84-101 | every cell takes the one below it, character and attribute, and the last row is emptied |
| Console.Screen.WriteCharacter | src/kernel/console.cpp:106-131 | for every character, buffer and cursor stay the window on the last 25 rows of the layout, which the character extends; the recursion for tabs ends |
| Console.Screen.PrintString | src/kernel/console.cpp:184-190 | the window on the layout extended by the whole text |
| Console.DigitsParseBack | src/kernel/console.cpp:133-155 | the digits printed parse back to the number and have no leading zero |
| Console.FirstProductFits | src/kernel/console.cpp:144-145 | the signed product overflows if and only if the number is 3,000,000,000 or more |
| Console.Screen.PrintInteger | src/kernel/console.cpp:133-155 | for every 32-bit number exactly its digits are written, with the product in two's complement |

## Left out

- The hardware: translation caches, CR3, interrupt flags, `hlt`, the switch of stacks, the TSS, all assembly and all port output, including the hardware cursor.
- `pr_terminate` and `pg_free_user_page_directory`: freeing tables and frames is unfinished in the kernel. What extracting a process does to later faults is characterised by `TerminationStrandsSharer`.
- `mm_get_pages_free`: it divides an element count by the element size once more, so there is nothing it promises to state.
- The kernel half of address spaces in the fault theory (slots 0x300 to 0x3FF), `setup_heap` and `setup_paging`; the temporary window at 0xC03E0000 through which a page is copied is modelled as a loop between two frames.
- Other presence and address combinations of a directory entry: the kernel tests the address for zero where the model has a missing table, and these agree in every space that the modelled operations produce.
- ATA, PCI, PIC, IDT and GDT code, the boot loaders, debug printing, ELF and VFS stubs, the hexadecimal printer, `kc_printf`, and the ext2 and FAT experiments: device plumbing, or only easy members.
- Pager.Kernel.ResolveFault: the process list is a sequence of process identifiers here; the linked list itself is in `ProcessList`. After a NULL table has been met, the state is not described further.
- Pager.Kernel.Fork: the place of the child in the list and its pid are parameters here; `ProcessList.ProcessTable.ForkProcess` has the list, the pid and the kernel stack. Allocation of the structures is taken to succeed.
- Pager.Kernel.Create: as for fork, with `ProcessList.ProcessTable.CreateProcess`.
- Pager.Kernel.MapUser: supervisor mappings are modelled in `PageTables.PageTable.Map`. After a NULL table has been met, here and in `SetupPageTable`, the state is not described further.
- CowRefinement.RunRefines: in a run, writes that fault meet no NULL table and get a new table, and pages are mapped where nothing is mapped and no table is shared; `FaultOutcome` and `MapLeaksIffShared` say what happens otherwise. That new frames are fresh is proved in `CowMemory`, as long as frame 0 is used at most once; that new tables are is what the heap's theorems promise, and not connected.
- ProcessList.ProcessTable.Schedule: requires that its search ends, as it does not return otherwise (`SearchEndsIff`); `trail` are the unlisted processes on its way. `pr_resume` ends the loop, as it does not return.
- KernelHeap.Allocator.Brk: mapping is the loop-free effect on which addresses are accessible. What pg_map does when the page table is full is described by `NestedTableFails`; if it comes to a table, the kernel goes on in address spaces that see it, and the model does not.
- KernelHeap.Allocator.Kbrk: requires an initialised list or no frame, since the kernel dereferences NULL otherwise (`BrkOutcome`).
- KernelHeap.Allocator.Kfree: requires an initialised list, which the kernel does not check either, and a region that may be freed.
- HeapRuns.RunsTileTheHeap: callers free only regions that they own; what the calls that fail leave behind is not part of a run.
- FrameStacks.FrameAllocator.Setup: requires less than 3 GB of memory, a first free frame in 32 bits and above the first megabyte, because nothing maps the low stack at start-up. The mapping of the stack's own pages is represented by its capacity, and the counter, signed in the kernel, wraps around in two's complement.
- FrameStacks.RunConserves: callers return only frames that they were given.
