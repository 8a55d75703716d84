# Proofs about The Flopperating System

A Dafny 4.11 model of the algorithmic parts of the kernel, with proofs. `dafny verify dfyconfig.toml`
checks everything. Code that changes state step by step is a class or a method with loops, proved
against a specification over values; what the code is for is proved about that specification.

| files | what they model |
|---|---|
| `Blocks`, `BuddySpec`, `BuddySafety`, `BuddySplit`, `BuddyTop`, `BuddyLoss`, `BuddyAllocator` | the buddy page allocator of `mem/pmm.c` |
| `SchedSpec`, `SchedFairness`, `ThreadQueue`, `Scheduler` | the thread scheduler of `task/sched.c` |
| `BoxHash`, `Bitmap`, `Boxes`, `HeapSpec`, `Heap` | the box heap of `mem/alloc.c` |
| `VmmClass` | the address classes of `mem/vmm.c` |
| `PageTable`, `SysMemory`, `Shuffle`, `Permutation` | page tables, the memory calls over them, the frame shuffle |
| `EarlyAlloc` | the boot-time allocator of `mem/early.c` |
| `RefCount`, `PipeClose`, `Pipe` | reference counts, the close protocol and the byte stream of pipes |
| `Tmpfs` | file contents of tmpfs and `sys_copy_file_range` |
| `Line`, `Gauss`, `Decimal` | line drawing, the Gauss-Jordan solver, numbers as text |
| `Common` | what several of them share |

## How to read it

* Addresses are integers. Where a sum could leave 32 bits, the sum is written with its wrap-around
  (`VmmClass.Add`, `SysMemory.EndPage`, the pipe counters, the scheduler's wait counters) or the range
  is a stated precondition. Page frames and virtual pages are numbered.
* A section under a lock is one step. What a callee outside the model answers (the page allocator,
  `kmalloc` of a list node, the state of a process) is a parameter of the method.
* A linked list is a set of objects with `next` fields, and a ghost sequence that a `Valid()` predicate
  ties to them. Where a predicate would flood the verifier it is sealed: its body is a quantifier over
  a marker such as `Opened(..)`, and only a proof that mentions the marker looks inside. This changes
  nothing in what the predicate says.

## Main results

* **Buddy allocator.** Over every run of single-block allocations and matching frees, free and
  outstanding blocks stay apart, in range, aligned and listed once, although merging trusts flags that
  are left on absorbed pages (`RunIsSafe`); a mergeable buddy is either on its list or overlaps nothing.
  The one step a run may not take is a free that merges two blocks of the largest order, for which the
  code has no test and no list; some run comes to one if and only if an aligned block of twice the
  largest size has been added at start-up (`TopIff`). `pmm_determine_split` cuts a block exactly into
  itself and one buddy per order, and freeing climbs back through exactly those. As `pmm_alloc_block` is
  written it does not reach the splitter's loop: an allocation keeps all frames accounted for if and
  only if the block it finds has the order asked for, and two frames, five calls are enough to lose one
  (`BuddyLoss.FrameLost`).
* **Scheduler.** A normal thread with `p` threads ahead is selected within 1255 + p calls that find no
  realtime thread ready, whatever is appended or removed meanwhile and however many other calls come in
  between; while every call finds a realtime thread ready, it is never selected. A normal thread that
  has waited for more than 1000 calls gains five points in proportion of its wait to the longest one
  (`BoostProportional`). Of the threads put under yield, block, unblock and tick, each but the idle one
  stays in exactly one of running, ready, asleep, blocked. A tick splits the sleep queue by wake time and
  keeps both orders.
* **Heap.** The index refines a finite map through insertion, removal with rehash, and lookup; the list
  holds boxes of the index, all but those that are lost; the used bits of a box are exactly the blocks
  of its live objects; an object goes to the leftmost stretch of the first box with room, lies behind
  the box's structure and bitmap and inside its page, and shares no byte with another. Boxes are lost
  exactly when `heap_init` runs on a heap that has some: then every box on the list is, whatever the
  page allocator answers (`Heap.KernelHeap.Init`, `Kmalloc`). That happens after a call in which
  `heap_init` finds no page and the very next request for a page succeeds (`LoseBox`).
* **Address classes.** The search returns the next fit: the first position from the hint on that is on
  the grid, in range, accepted and disjoint from all areas, else the first of the class; 0 only if there
  is none. For the user, DMA and MMIO classes that holds for every size if and only if something fits
  from the hint on, or no sum wraps at the top of the search, the hint or the end of the last area, or
  the hint is so close to the end that the search begins at the start of the class and something fits
  there; otherwise the result does not fit (`FindFit`, `WrapUserClass`). In the kernel class, which ends with
  the address space, sums wrap: there the result fits if and only if something fits from the hint on.
  Once an allocation has taken the class to its end, the search returns an address that does not fit,
  even with the whole class free again (`FillKernelClass`, `EmptyKernelClass`). A failed mapping
  restores list and hint.
* **Page tables.** Writes through the recursive window change one page each and agree with the
  processor's walk. `sys_munmap` and `sys_mprotect` do all or nothing, and cover the range if and only
  if its end stays within 32 bits (`Covers`). A grow maps every page if and only if there are frames for
  the pages and for the missing tables; with exactly the table of the last page missing it reports
  success and leaves that page unmapped; otherwise it fails, restores every translation of an unmapped
  range, and hands back just the frames it drew for the pages, unless the flags bring address bits; one
  frame is lost when it was a page's table that could not be had. A shuffle is a permutation of frames
  under unmoved flags, undone by its key; the random numbers decide which, and every permutation is the
  one of just one sequence of places they can name (`EveryPermutation`, `OneWay`).
* **Early allocator.** The chunks tile the pool and no two neighbours are free. A request gets the first
  chunk that is large enough, cut down to size if it has more than 24 bytes to spare; freeing takes that
  chunk and no other out of use, and the chunks in use determine the whole list.
* **Pipes.** A counter's value is one plus increments less decrements under any interleaving of loads
  and swaps, zero is final, and one decrement is told of the last drop, the one from one to zero. Over
  any closes a pipe is freed when no reference is left, which takes one close more of each end than it
  was duplicated, and once more by each close that begins after that, so once if there is no surplus
  close. The bytes read are a prefix of the bytes written and the ring holds the difference, across
  counter wrap-around.
* **Files, lines, equations, text.** Reads and writes refine a flat byte sequence; a write stores
  through a null pointer exactly when the file grows and its page array or a page is not granted, which
  is always so for growth to 984 to 1024 pages, whose array fits no box (`Write`, `NoArray`). A line has
  as many steps as its longer side and ends at its end point; the pixel of each step is the nearest to
  the ideal line, and of two equally near ones that with fewer minor steps. A system is solved exactly
  if every round finds an entry of 1e-9 or more, and has the reported solution and no other. Printed
  numbers read back.

## Model

| member | source | states |
|---|---|---|
| Blocks.BuddyFlipsOneBit | mem/pmm.c:583-585 | the buddy address differs from the address in the bit of the order and in no other |
| Blocks.DisjointOrNested | mem/pmm.c:64-95 | two blocks aligned to their orders are disjoint or one lies inside the other |
| Blocks.AlignedMeans | mem/pmm.c:64-95 | a block is aligned exactly if its frame number is a multiple of its size |
| Blocks.BitMeans | mem/pmm.c:583-585 | bit j of a frame number in the usual arithmetic |
| Blocks.BuddyHalves | mem/pmm.c:64-95 | a block and its buddy are the two halves of an aligned block of the next order |
| BuddySafety.BuddyIsListedOrUnowned | mem/pmm.c:74-83 | a record flagged free with the order of its buddy is on its free list, or its flag is stale and the block overlaps no free or outstanding block |
| BuddySafety.NoMergeAtTop | mem/pmm.c:74-87 | at the maximal order no merge takes place, though the code does not test for it, where no aligned block of twice that size has been added |
| BuddySafety.TopMeansBigBlock | mem/pmm.c:74-87 | a merge that goes beyond the maximal order has found an aligned block of twice that size, all of whose frames have been added |
| BuddySafety.MergeStep | mem/pmm.c:74-87 | one merge step keeps the invariant with the doubled block in flight, and takes exactly the buddy off the lists |
| BuddySafety.MergeSafe | mem/pmm.c:64-95 | merging a block in flight that does not go beyond the maximal order ends in a safe state and returns all its frames to the free lists |
| BuddySafety.AllocSafe | mem/pmm.c:376-442 | an allocation fails exactly when every list from the order up is empty; otherwise it hands out the start of a listed block of the smallest such order, disjoint from all outstanding ones, and the state stays safe |
| BuddySafety.FreeSafe | mem/pmm.c:445-458 | freeing an outstanding block keeps the state safe, and every frame of it is free afterwards, unless the merge goes beyond the maximal order |
| BuddySplit.SplitLists | mem/pmm.c:394-424 | the split puts one upper half at the head of each list from the target order to below the block's order, and changes no other list |
| BuddySplit.SplitRecords | mem/pmm.c:411-422 | the records of the halves are written, the block's order is lowered, and no record outside the block changes |
| BuddySplit.SplitPartitions | mem/pmm.c:394-424 | the halves and the rest are aligned, disjoint and together exactly the block |
| BuddySplit.MergeClimbs | mem/pmm.c:64-95 | merging climbs back through exactly the halves a split gave away and restores their lists |
| BuddySplit.SplitThenFree | mem/pmm.c:394-458 | freeing the lowest part after a split restores every list and gives the whole block back, when the block's own buddy is not free |
| BuddySplit.RunIsSafe | mem/pmm.c:427-508 | at every point of every run from start-up whose frees do not merge beyond the maximal order, free and outstanding blocks are in range, aligned, listed once and pairwise disjoint |
| BuddySplit.AllocConservesIffExact | mem/pmm.c:427-442 | an allocation keeps every frame free or outstanding if and only if the smallest nonempty list is that of the requested order |
| BuddySplit.AllocDropsTail | mem/pmm.c:427-442 | an allocation out of a larger block leaves the frame behind the part it hands out, which was free, neither free nor outstanding |
| BuddyTop.TopNeedsBigBlock | mem/pmm.c:64-95 | a run that comes to a free which merges beyond the maximal order started with an aligned block of twice that size added |
| BuddyTop.BigBlockReachesTop | mem/pmm.c:64-95 | where such a block has been added, allocating every frame and freeing those of the block one by one comes to such a free |
| BuddyTop.TopIff | mem/pmm.c:64-95 | some run from start-up comes to a free that merges beyond the maximal order if and only if an aligned block of twice that size has been added |
| BuddyLoss.FrameLost | mem/pmm.c:427-508 | a run from start-up on any two buddy frames that loses one: both allocated, both freed, one allocated |
| BuddyAllocator.Allocator.PhysToPageIndex | mem/pmm.c:557-567 | the record index of an address in range, null otherwise |
| BuddyAllocator.Allocator.AddFree | mem/pmm.c:165-171 | adding a frame keeps the start-up state and puts the frame at the head of list 0 |
| BuddyAllocator.Allocator.FetchOrderBlock | mem/pmm.c:376-391 | takes the head of the smallest nonempty list at or above the order, or changes nothing |
| BuddyAllocator.Allocator.UnlinkFrom | mem/pmm.c:75-82 | takes one frame out of a linked list wherever it is, and leaves a list without it alone |
| BuddyAllocator.Allocator.BuddyMerge | mem/pmm.c:64-95 | the recursive merge on arrays and links performs the specified transition |
| BuddyAllocator.Allocator.DetermineSplit | mem/pmm.c:394-424 | the split loop on arrays and links performs the specified transition |
| BuddyAllocator.Allocator.AllocPages | mem/pmm.c:427-490 | a request for one block takes a step of a run: safe before and after, fails only without a large enough block |
| BuddyAllocator.Allocator.FreePages | mem/pmm.c:445-508 | a matching free that does not merge beyond the maximal order takes a step of a run |
| SchedSpec.Best | task/sched.c:414-446 | no thread is better by class and then priority, and every earlier one is strictly worse: ties go to the first |
| SchedFairness.BoostGains | task/sched.c:393-407 | a starved normal thread gains at least one priority point until it has 255 |
| SchedFairness.BoostProportional | task/sched.c:381-412 | when a normal thread has waited for more than 1000 calls, each normal one that has gains its share of five points, its wait over the longest wait, rounded down and at least one, up to 255; the longest waiter gains five; normal threads that have waited less gain nothing |
| SchedFairness.BoostLeaves | task/sched.c:381-412 | no realtime or idle thread changes, and nobody as long as no normal thread has waited for more than 1000 calls |
| SchedFairness.CatchesUp | task/sched.c:381-529 | priority 10 after 1001 calls overtakes priority 12: it is raised to 15 and selected |
| SchedFairness.SelectedMeans | task/sched.c:414-529 | the thread selected is of the best class present and the first of those of its class with the highest priority; the others stay in order |
| SchedFairness.PatienceSuffices | task/sched.c:381-529 | a waiting normal thread is selected before as many calls have found no realtime thread ready as it has patience: the way to the threshold, missing priority points, threads ahead, one selection |
| SchedFairness.BoundedWaiting | task/sched.c:381-529 | with p threads ahead a normal thread is selected within 1255 + p calls that find no realtime thread ready, whatever else is appended or removed, with no normal priority above 255 |
| SchedFairness.RealtimeFirst | task/sched.c:414-446 | while a realtime thread is ready, the thread selected is a realtime one |
| SchedFairness.RealtimeStarves | task/sched.c:414-446 | in a run of any length whose every call finds a realtime thread ready, no waiting normal thread is selected, on any queue |
| SchedFairness.OneRealtimeThread | task/sched.c:505-529 | one yielding realtime thread makes such runs with any number of calls, on any queue |
| ThreadQueue.ThreadList.Enqueue | task/sched.c:112-137 | appends at the tail; head, tail, count and links agree |
| ThreadQueue.ThreadList.Dequeue | task/sched.c:140-169 | removes and returns the head |
| ThreadQueue.ThreadList.Remove | task/sched.c:174-204 | removes the target if it is on the list, and nothing otherwise |
| ThreadQueue.ThreadList.Unlink | task/sched.c:465-485 | removes the thread behind the given predecessor and keeps head, tail, count and links in agreement |
| ThreadQueue.ThreadList.BoostStarvedThreads | task/sched.c:381-412 | ages every thread and boosts the starved ones, as `BoostProportional` and `BoostLeaves` describe |
| ThreadQueue.ThreadList.FindBest | task/sched.c:414-463 | finds the first thread of the best class and highest priority, and its predecessor |
| ThreadQueue.ThreadList.SelectNext | task/sched.c:505-529 | ages, boosts, removes the best thread and assigns its time slice; the others keep their slices and their order |
| Scheduler.TickSplits | task/sched.c:668-682 | the two parts of a tick's split together are the sleep queue, each with the threads that belong there |
| Scheduler.PickOrder | task/sched.c:668-682 | both parts keep the order of the queue |
| Scheduler.Sched.Schedule | task/sched.c:521-573 | the next thread is the specified choice, or the idle thread when none is ready; it gets its time slice, its wait starts again unless it was running before, and the others are left aged and boosted |
| Scheduler.Sched.Yield | task/sched.c:584-594 | a yield keeps every thread under the scheduler in exactly one place and hands over to the specified choice |
| Scheduler.Sched.Block | task/sched.c:596-605 | a block keeps every thread in exactly one place |
| Scheduler.Sched.Unblock | task/sched.c:607-614 | unblocking a blocked thread appends it to the ready queue and keeps every thread in exactly one place |
| Scheduler.Sched.Tick | task/sched.c:629-682 | sleepers with wake time up to the new tick are appended to the ready queue in order, the rest stay in order |
| BoxHash.HomesSpread | mem/alloc.c:35-37 | two identifiers have the same home slot exactly if they agree modulo 256 |
| BoxHash.StoredBeforeEmpty | mem/alloc.c:309-325 | a stored key is met before the first empty slot on the way from its home slot |
| BoxHash.InsertValid | mem/alloc.c:39-52 | filling the first empty slot keeps every key reachable through occupied slots |
| BoxHash.RehashStep | mem/alloc.c:77-91 | moving one entry of the cluster keeps all contents and the state between two rounds of the rehash |
| BoxHash.RehashEnds | mem/alloc.c:77-91 | when the rehash meets the empty slot every stored key is reachable from its home slot again |
| BoxHash.AnotherEmpty | mem/alloc.c:39-52 | fewer than 255 keys leave a second empty slot, so that the probe loops end |
| BoxHash.Index.Insert | mem/alloc.c:39-52 | the map gains the key |
| BoxHash.Index.Lookup | mem/alloc.c:309-325 | the value stored under the key, or null |
| BoxHash.Index.Remove | mem/alloc.c:54-92 | the map loses the key and nothing else, in place, across wrap-around |
| Bitmap.FindFree | mem/alloc.c:136-163 | the leftmost run of the length needed, or -1 exactly when there is none |
| Bitmap.MapSet | mem/alloc.c:165-175 | sets or clears the bits of the range and no other |
| Bitmap.IsEmpty | mem/alloc.c:207-216 | true exactly when no block is used |
| Boxes.RunAdded | mem/alloc.c:177-205 | marking a free stretch keeps runs disjoint and the used bits exactly their union |
| Boxes.RunRemoved | mem/alloc.c:391-398 | clearing a run's blocks keeps the used bits exactly the union of the others |
| Boxes.Box.Alloc | mem/alloc.c:177-192 | takes the leftmost stretch that fits, or none when the box is full for that size |
| Boxes.Box.BlockIndex | mem/alloc.c:250-270 | the block number of an address in the data region on a block boundary, else -1 |
| Boxes.BoxList.Unlink | mem/alloc.c:234-242 | takes the box off the list wherever it is |
| HeapSpec.AddressDetermines | mem/alloc.c:195-204 | an object address determines page and block |
| Heap.KernelHeap.ObjectsApart | mem/alloc.c:93-107 | an object and its header lie behind the box structure and bitmap and inside the page, and share no byte with any other live object |
| HeapSpec.ObjectAdded | mem/alloc.c:191-204 | a new run gives a live object at a fresh address; boxes, index, other objects and their headers stay right |
| HeapSpec.ObjectRemoved | mem/alloc.c:388-398 | removing a run removes that object and no other |
| HeapSpec.BoxAdded | mem/alloc.c:111-134 | a new empty box under the next identifier keeps list, index and objects in agreement |
| HeapSpec.BoxDropped | mem/alloc.c:218-248 | an empty box can leave list and index without touching an object |
| Heap.KernelHeap.UsedByLive | mem/alloc.c:165-205 | a block is used exactly when it belongs to a live object of its box |
| Heap.KernelHeap.NoneLost | mem/alloc.c:111-120 | no box is lost exactly when every box of the index is on the list |
| Heap.KernelHeap.Register | mem/alloc.c:111-120 | the box gets the next identifier, the front of the list and an index entry |
| Heap.KernelHeap.Iterate | mem/alloc.c:290-307 | allocates in the first box of the list that has room |
| Heap.KernelHeap.Init | mem/alloc.c:272-288 | on a heap that is not initialised every box on the list is lost, with or without a page; a page becomes the one box of the list; an initialised heap is left alone |
| Heap.KernelHeap.Kmalloc | mem/alloc.c:328-370 | first box with room, else a new box if a page is available; the object lies where `ObjectsApart` says; the boxes lost are exactly those on the list of a heap that is not initialised |
| Heap.FirstObject | mem/alloc.c:93-107 | the first small object of a heap whose one box is on page 0x5000 is at 0x5030 |
| Heap.KernelHeap.GrantedIff | mem/alloc.c:328-370 | an object of up to a page is granted if and only if a box has room, or a page is available and the object fits a box; one that fits no box is never granted |
| Heap.LoseBox | mem/alloc.c:272-370 | two calls that lose a box: the first with no page for heap_init and one for the request, the second with any answers |
| Heap.KernelHeap.BoxFree | mem/alloc.c:218-248 | an empty box leaves list and index and its page is returned, any other stays |
| Heap.KernelHeap.Kfree | mem/alloc.c:373-405 | the object is gone, all others stay; its box goes with it exactly when it was the last one there |
| VmmClass.Registered | mem/vmm.c:1023-1050 | the four registered classes are well formed; the validators of all but the kernel class accept whatever passes the fit test, and for sizes below 16 MiB no sum of their searches wraps |
| VmmClass.BehindTheEnd | mem/vmm.c:943-951 | in the kernel class an extent that reaches behind the end of the address space passes the fit test and the validator |
| VmmClass.WhereItFits | mem/vmm.c:1023-1050 | where an extent may go in each of the four classes while nothing is allocated: grid, first and last address |
| VmmClass.Exhausted | mem/vmm.c:1131-1139 | a candidate too close to the end of the class rules out everything from where the search began |
| VmmClass.AlignUpMeans | mem/vmm.c:1094-1100 | the aligned address is the next grid position |
| VmmClass.SkipArea | mem/vmm.c:1128-1130 | an area in the way rules out every position before its aligned end, and the search does not go back |
| VmmClass.SkipPosition | mem/vmm.c:1119-1124 | a rejected position rules out every position before the next grid position |
| VmmClass.SortedInserted | mem/vmm.c:953-989 | inserting a clear extent by its start keeps the areas in order and apart |
| VmmClass.ZeroPagesBreakOrder | mem/vmm.c:971-989 | an allocation of no pages at the start of an area puts the list out of order |
| VmmClass.TakenBack | mem/vmm.c:991-1014 | removing by start takes back just the area put in |
| VmmClass.AllocClass.FindFit | mem/vmm.c:1102-1141 | the search ends; if something fits from the hint on, or no sum wraps at its top, or it begins at the start of the class and something fits there, the result is the first position from the hint on that fits, else the first of the class, and 0 only if none fits; otherwise it does not fit; in the kernel class it fits exactly when something fits from the hint on |
| VmmClass.WrapUserClass | mem/vmm.c:1102-1141 | with the user class allocated up to 0x90000000 a search for 0x70000000 bytes returns an address, and nothing fits |
| VmmClass.NoneAtTables | mem/vmm.c:943-951 | no extent that ends behind the addresses the validator allows fits in the kernel class |
| VmmClass.FillKernelClass | mem/vmm.c:1102-1208 | after one allocation up to that end the search returns an address that does not fit |
| VmmClass.EmptyKernelClass | mem/vmm.c:1102-1141 | with the area taken out again the class's first page fits, and the search returns an address that does not |
| VmmClass.AllocClass.Insert | mem/vmm.c:953-989 | the list gains the area in its place, or nothing changes without memory |
| VmmClass.AllocClass.Remove | mem/vmm.c:991-1014 | the list loses the area with that start |
| VmmClass.AllocClass.Alloc | mem/vmm.c:1177-1208 | a result is the next fit from the hint on and on the list, which stays sorted, and the hint is behind it; on failure list and hint are as before |
| VmmClass.NextNotFirst | mem/vmm.c:1102-1208 | two pages allocated and the first taken out: the next search begins behind the second, although the first page is free |
| PageTable.FrameKept | mem/vmm.c:96-98 | a mapping resolves to the frame asked for exactly when the flags bring no address bit the frame lacks |
| PageTable.FlagsAsked | mem/vmm.c:96-98 | the flags of an entry written are those asked for, with presence, and no other |
| PageTable.TablePasses | mem/vmm.c:86-93 | the directory entry for a new table leads to it and is present, writable and open to user code |
| PageTable.SelfMap | mem/vmm.c:42-43 | the i-th page of the recursive window is the i-th page table |
| PageTable.StoreEntry | mem/vmm.c:96-98 | a store to a table entry changes that one page and no other |
| PageTable.WindowStore | mem/vmm.c:42-43 | a store through the recursive window changes the processor's walk of that one page, to the new entry's frame |
| PageTable.NewTable | mem/vmm.c:86-94 | hooking in a cleared table changes no page |
| PageTable.Region.Map | mem/vmm.c:82-100 | maps exactly one page, entering a table with those bits if there is none, or fails without a frame for the table and changes nothing |
| PageTable.Region.Unmap | mem/vmm.c:103-113 | clears exactly one page's entry, or fails without a table |
| PageTable.TranslatedMeans | mem/vmm.c:191-202 | joining frame and offset adds them; the result is 0 only without a mapping or for the first byte of frame 0 |
| PageTable.JoinedApart | mem/vmm.c:191-202 | two resolved addresses agree exactly if frame and offset do |
| PageTable.Region.Resolve | mem/vmm.c:191-202 | the frame of a present page joined with the offset in the page, 0 without a mapping |
| PageTable.Region.Protect | mem/vmm.c:460-473 | exchanges the flags of exactly one present page, or fails and changes nothing |
| SysMemory.Covers | sys/syscall.c:629-655 | the loops cover the range, unless its end leaves 32 bits, when they do nothing |
| SysMemory.FreePages | sys/syscall.c:638-646 | unmaps the range and nothing else, and hands back the frame of each mapped page, in order |
| SysMemory.FramesSplit | sys/syscall.c:638-646 | the frames handed back for a range are those of its parts, in order, one for each mapped page |
| SysMemory.Munmap | sys/syscall.c:619-701 | fails and changes nothing if the arguments are bad or a page is not mapped, else unmaps the whole range and hands back the frame of each page |
| SysMemory.MunmapNothing | sys/syscall.c:629-655 | unmapping 0xFFFFFFFF bytes from a mapped page at 0x400000 on reports success, hands back nothing and leaves the page mapped |
| SysMemory.Mprotect | sys/syscall.c:1346-1391 | fails and changes nothing if the arguments are bad or a page is not mapped, else every page of the range has the flags and no other changes |
| SysMemory.ProtectedMeans | sys/syscall.c:1346-1391 | a protected page has just the flags asked for and keeps its frame's address bits |
| SysMemory.NeedNext | sys/syscall.c:554-579 | mapping one page more takes one frame, and a second exactly if the page is the first of the range under a missing table |
| SysMemory.Expand | sys/syscall.c:554-579 | succeeds with every page mapped if and only if the frames suffice for pages and missing tables; succeeds with the last page unmapped if and only if just that page's table is missing; fails otherwise, and then restores every translation of a range that was not mapped, hands back the frames its entries referred to, and has drawn those, the tables, and one more exactly if a page's table could not be had |
| SysMemory.EnteredAsDrawn | sys/syscall.c:554-579 | the frames a failed grow hands back are those it drew for the pages if and only if the flags bring no address bit that one of them lacks |
| SysMemory.OneFrame | sys/syscall.c:554-579 | one frame is one short for a page of an empty directory |
| SysMemory.HoleExample | sys/syscall.c:554-579 | a grow by that page with that frame reports success, and the page does not resolve |
| Shuffle.FisherYates | mem/vmm.c:1565-1571 | puts the array into the permutation that the numbers drawn stand for |
| Permutation.DealtPermutes | mem/vmm.c:1565-1571 | whatever the numbers, that is a permutation |
| Permutation.EveryPermutation | mem/vmm.c:1565-1571 | every permutation is the one of some places named |
| Permutation.OneWay | mem/vmm.c:1565-1571 | other places named rearrange different members differently |
| Shuffle.Shuffle | mem/vmm.c:1534-1586 | the range is on the permutation of its frames that the numbers drawn stand for, each page with its own flags, nothing else changes; null and no change if a page does not resolve |
| Shuffle.Unshuffle | mem/vmm.c:1588-1601 | the range is on the frames of the key, each page with its own flags |
| Shuffle.RoundTrip | mem/vmm.c:1534-1601 | after both every page-table entry is the original one |
| EarlyAlloc.PoolConserved | mem/early.c:117-145 | sizes and headers add up to the pool |
| EarlyAlloc.AllFree | mem/early.c:185-214 | when everything is free one chunk is left |
| EarlyAlloc.TakenOk | mem/early.c:147-178 | an allocation keeps the chunks tiling the pool and no two neighbours free |
| EarlyAlloc.ReleasedOk | mem/early.c:185-214 | a release keeps the chunks tiling the pool and no two neighbours free |
| EarlyAlloc.TakeRelease | mem/early.c:147-214 | releasing a chunk just taken restores the list exactly |
| EarlyAlloc.ReleasedInUse | mem/early.c:185-214 | a release takes its chunk, and no other, out of use |
| EarlyAlloc.UseDetermines | mem/early.c:147-214 | the chunks in use determine the list: there is one way only to fill the rest with free chunks |
| EarlyAlloc.TookIsTaken | mem/early.c:147-178 | what an allocation does is the transition the lemmas are about, and its chunk is at most 24 bytes larger than asked for |
| EarlyAlloc.TwoRequests | mem/early.c:147-178 | two requests for 16 bytes on a fresh pool get 32 bytes of it each |
| EarlyAlloc.Allocator.Alloc | mem/early.c:147-178 | takes the first free chunk that is large enough, cut down to the size asked for with a free chunk of the rest behind it if it had more than 24 bytes to spare, and changes no other; null only if there is none |
| EarlyAlloc.Allocator.Absorb | mem/early.c:185-203 | headers and links agree after a merge |
| EarlyAlloc.Allocator.Free | mem/early.c:185-214 | releases the chunk with both merges; it and no other goes out of use |
| RefCount.RunCounted | lib/refcount.h:12-42 | over every interleaving of loads and swaps the counts agree with the value |
| RefCount.ZeroForever | lib/refcount.h:12-42 | from zero on no increment or decrement succeeds, and the last drop has been reported exactly once |
| RefCount.FromInit | lib/refcount.h:8-42 | the value is one plus successful increments less successful decrements |
| RefCount.StepAnswers | lib/refcount.h:12-42 | an increment returns true exactly with the step that adds one, a decrement exactly with the step from one to zero |
| RefCount.StepEnds | lib/refcount.h:12-42 | a call ends when its load finds zero or its swap finds the value loaded |
| RefCount.AnswersFromInit | lib/refcount.h:12-42 | over every run the increments that returned true are the value less one plus the steps that lowered it, and one decrement has returned true if the value is zero, none otherwise |
| RefCount.NoAnswerAfterZero | lib/refcount.h:12-42 | from zero on no call of either kind returns true |
| RefCount.OneAtATime | lib/refcount.h:12-42 | a call takes effect in one step, on a counter that is not zero |
| PipeClose.RunOk | task/ipc/pipe.c:37-68 | over every run without surplus closes the counts are what callers hold |
| PipeClose.FreedExactly | task/ipc/pipe.c:37-68 | over every run, with surplus closes or without, the pipe is freed only without references, then once, and once more by each close that begins after that |
| PipeClose.TwiceIffLate | task/ipc/pipe.c:37-68 | between closes, the pipe has been freed more than once if and only if a close began after it had been freed |
| PipeClose.FreedTwice | task/ipc/pipe.c:37-68 | a run that frees twice: both ends closed, and one of them again |
| PipeClose.HarmlessSurplus | task/ipc/pipe.c:37-68 | a run with a surplus close that frees nothing: the read end closed twice while the write end is open |
| PipeClose.FreedOnce | task/ipc/pipe.c:37-68 | without surplus closes the pipe is freed at most once, only without references, and for good when all are closed |
| PipeClose.StepOk | task/ipc/pipe.c:58-64 | only the close that dropped the last reference of both ends frees |
| PipeClose.DupAdds | task/ipc/pipe.c:141-147 | a duplication adds one reference to an end that has some, and nothing else |
| PipeClose.FreedNeedsCloses | task/ipc/pipe.c:37-68 | over every run the pipe is freed only when each end has been closed more often than duplicated |
| PipeClose.FreedIffClosed | task/ipc/pipe.c:37-68 | without surplus closes, and between closes, it has been freed exactly if each end has been closed once more often than duplicated |
| Pipe.RingIndex | task/ipc/pipe.c:77-78 | the ring index does not notice the wrap-around of a 32-bit counter |
| Pipe.Apart | task/ipc/pipe.c:81-81 | the empty and full tests on wrapped counters say what they should |
| Pipe.Pipe.WriteOne | task/ipc/pipe.c:74-99 | one iteration appends the byte unless 511 are unread; the ring holds the unread bytes |
| Pipe.Pipe.ReadOne | task/ipc/pipe.c:107-136 | one iteration delivers the next byte unless there is none |
| Tmpfs.OverlayReads | fs/tmpflopfs/tmpflopfs.c:132-166 | what a write put there is read back, what is around it is unchanged, a gap is zero |
| Tmpfs.PatchedBytes | fs/tmpflopfs/tmpflopfs.c:150-160 | patching a page changes the file at those offsets only |
| Tmpfs.Node.Read | fs/tmpflopfs/tmpflopfs.c:109-130 | delivers the bytes up to the end of the file and advances the offset by them |
| Tmpfs.ArrayFitsIff | fs/tmpflopfs/tmpflopfs.c:132-140 | a page array of 984 to 1024 entries is one kmalloc cannot grant, any other it can |
| Tmpfs.NoArray | mem/alloc.c:328-370 | the heap, in every state and whatever the page allocator answers, returns null for such an array |
| Tmpfs.Node.Write | fs/tmpflopfs/tmpflopfs.c:132-166 | overwrites and zero-extends at the offset across pages, unless the file grows and its page array or a page is not granted, when a null pointer is stored through |
| Tmpfs.LongestFile | fs/tmpflopfs/tmpflopfs.c:132-166 | with memory granted a file of 983 pages can be written and one byte more cannot |
| Tmpfs.Node.Seek | fs/tmpflopfs/tmpflopfs.c:168-178 | moves the offset only |
| Tmpfs.CopyFileRange | sys/syscall.c:222-267 | transfers exactly min(count, bytes left) bytes in order; -1 for a count of 0 or without a buffer; stores through a null pointer exactly when one of the page arrays it needs on the way, or a page, is not granted |
| Tmpfs.CopyIsWrite | sys/syscall.c:237-262 | a chunked copy is one write of those bytes |
| Line.NearEnd | drivers/vga/framebuffer.c:152-166 | after the steps of the longer side only the end point is within half a pixel |
| Line.TracksNear | drivers/vga/framebuffer.c:144-150 | the error term bounds the distance by half a pixel |
| Line.TracksNext | drivers/vga/framebuffer.c:157-165 | every round steps along the longer side, and the error stays within it |
| Line.MinorStepsIs | drivers/vga/framebuffer.c:144-166 | the minor steps of a pixel are the one number at most half a step off the line, and less than half on the far side: ties fall to the smaller |
| Line.Arrived | drivers/vga/framebuffer.c:154-156 | the end point is not met before all steps are made |
| Line.Framebuffer.DrawLine | drivers/vga/framebuffer.c:144-167 | the loop ends after the steps of the longer side, at the end point, and plots the pixel of each step; the pixels of the plotted points on the screen change and no others |
| Line.Tie | drivers/vga/framebuffer.c:144-167 | the line from (0, 0) to (2, 1) goes through (1, 0) |
| Gauss.SwappedSame | lib/flopmath.c:506-512 | swapping rows keeps the solutions |
| Gauss.DividedSame | lib/flopmath.c:518-520 | scaling a row keeps the solutions |
| Gauss.MinusSame | lib/flopmath.c:522-529 | subtracting a multiple of another row keeps the solutions |
| Gauss.ClearingNext | lib/flopmath.c:522-529 | eliminating one row keeps the unit columns and clears its entry |
| Gauss.UnitSolved | lib/flopmath.c:532-534 | a system in unit form is solved by its last column and nothing else |
| Gauss.FindPivot | lib/flopmath.c:499-504 | the pivot is the first of the largest entries of the column at or below the diagonal |
| Gauss.Eliminate | lib/flopmath.c:498-530 | exactly if not all entries at or below the diagonal lie strictly between -1e-9 and 1e-9, one round keeps the solutions, completes a unit column, and the pivot row, scaled, becomes the round's row |
| Gauss.SolveLinearSystem | lib/flopmath.c:497-536 | on 1, every round has found a usable entry and results is the unique solution of the system given; on 0, the rounds come to an equivalent system whose next column has all entries at or below the diagonal strictly between -1e-9 and 1e-9 |
| Decimal.OneDigit | lib/str.c:470-473 | splitting off the lowest digit keeps the number that digits and rest stand for |
| Decimal.ValLast | lib/str.c:134-137 | the last digit counts once, those before it as many times the base as alone |
| Decimal.Flopitoa | lib/str.c:451-491 | the text is a sign and digits of the value, padded with zeros to the width and not further |
| Decimal.Flopatoi | lib/str.c:115-140 | the signed value of the digits behind spaces and a sign |
| Decimal.SpacesAside | lib/str.c:123-125 | leading spaces, of any of the six kinds and any number, make no difference |
| Decimal.SignAside | lib/str.c:127-132 | a plus sign in front of digits makes no difference, a minus sign turns the number |
| Decimal.NoNumber | lib/str.c:115-140 | a string that starts with anything else reads as 0 |
| Decimal.RoundTrip | lib/str.c:115-140 | what is printed reads back as the same number |
| Decimal.Memflopitoa | lib/logging.c:10-40 | in every base from 2 to 16 the digits evaluate to the value, without a leading zero; empty for another base |
| Decimal.SixteenSuffice | lib/logging.c:42-57 | the 16 characters its callers provide hold every 32-bit number in bases 16 and 10 |
| Decimal.Reverse | lib/logging.c:33-37 | turns the digits round in place |

## Left out

Stated for fewer states or inputs than the code accepts:

- BuddySplit.RunIsSafe: requires that records never added are not free and have no address of their own, and a count of one; requests for several blocks return only the first one's address (mem/pmm.c:470-489). What a free does beyond the maximal order is not part of the model: it uses a list behind the last.
- BuddyAllocator.Allocator.FreePages: is stated for outstanding blocks, freed at the order they were allocated with, whose merge does not go beyond the maximal order.
- SchedFairness.BoundedWaiting: requires that the thread's wait counter does not reach 32 bits within the calls counted.
- Scheduler.Sched.Unblock: is stated for a blocked thread; unblocking a ready one sets its `next` to null, so that all behind it drop off the queue, and links the last one to itself.
- Scheduler.Sched.constructor: starts with the idle thread and threads that are blocked; a thread just created sits on a list of its own process, and the reaper is ready without being queued (task/sched.c:102).
- ThreadQueue.ThreadList.Enqueue: requires a thread that is not on the list, for the same reason as `Unblock`.
- BoxHash.Index.Insert: requires a new key and that one slot stays empty, as the probe loops have no other exit.
- Heap.KernelHeap.Kmalloc: covers sizes up to a page, one or two free slots of the index, and pages on which no box lives; larger requests go to the page allocator. Headers are kept beside the payload, which may overlap their second word (mem/alloc.h:30-41).
- Heap.KernelHeap.Kfree: is stated for null and live objects, whose headers are intact.
- VmmClass.AllocClass.Alloc: requires a positive number of pages, and a search whose result fits or is 0; `ZeroPagesBreakOrder` and `FindFit` show why.
- VmmClass.AllocClass.Insert: is stated for extents that meet no area, which is what the search finds.
- VmmClass.AllocClass.FindFit: covers every size for the user, DMA and MMIO classes, and for the kernel class sizes from a page to the size of the class.
- PageTable.Region.Map: covers pages below the recursive window, in the loaded region; translation caches are not modelled.
- SysMemory.Munmap: requires that the range ends below the recursive window. A region always exists.
- SysMemory.Mprotect: requires that the range ends below the recursive window.
- Shuffle.Unshuffle: is stated for a key, and for pages that are mapped.
- EarlyAlloc.Allocator.Free: is stated for null and chunks in use; the pool is contiguous.
- RefCount.RunCounted: counts are unbounded; the code's counter wraps after 2^32 - 1 references.
- Tmpfs.Node.Write: requires that the end of the write fits 32 bits. Pages are values here, so that sharing of a page between files is not captured. Above 1024 pages the array comes from several single pages, of which only the first one's address is returned; that the frames behind it are the array's own is part of its being granted.
- Tmpfs.CopyFileRange: is stated for two different nodes open for reading and writing and not for appending; file descriptors are not modelled.
- Line.Framebuffer.DrawLine: coordinates are unbounded; a pixel is one cell, whatever its depth in bits.
- Permutation.EveryPermutation: is about the places the loop can name; `vmm_rand` gives numbers below 32768 only, which do not name every place of a longer range.
- Gauss.SolveLinearSystem: is about exact arithmetic; rounding of `double` is not modelled.
- Decimal.Flopatoi: requires a terminator and a number that fits an `int`, beyond which the C code overflows.
- Decimal.RoundTrip: leaves out INT_MIN, which `flopitoa` prints from a constant and `flopatoi` cannot read.

Not modelled:

- Reading the Multiboot memory map and placing the page records (mem/pmm.c), and reserving pages for the early pool (mem/early.c).
- `sched_thread_sleep`, which links a thread into two queues by its one `next` field; thread creation, stacks, context switches.
- `krealloc`, `kcalloc` and guarded objects of mem/alloc.c; spinlocks and interrupt flags.
- `vmm_copy_pagemap`, `vmm_find_free_range`, the pager requests and region lists of mem/vmm.c.
- `tmpfs_op_truncate`, which does not keep pages and size in agreement, and the directory tree.
- The mutex, push lock and turnstile of task/sync, the virtual file system, processes and signals: mostly plumbing, or without an invariant over runs.
- Drivers, boot code, and the floating-point series of lib/flopmath.c.
