# Verified models of the MierOS kernel

MierOS is a small x86-64 kernel. This project restates the parts of it that are algorithms over
changing state, in Dafny, and proves what they are for. Nothing here executes the kernel; everything
is a proof about the models below, checked by `dafny verify dfyconfig.toml` (Dafny 4.11).

| files | part of the system | main results |
|---|---|---|
| `EagerMemory`, `CopyOnWrite`, `ProcessMemory` | private anonymous memory, `fork`, page faults, `munmap`, exit | every run looks to every process as if `fork` copied all pages at once (`Kernel.Run`) |
| `RecursiveMutex` | the recursive mutex over the spinning semaphore | for every interleaving of any number of threads: mutual exclusion, each call returns with what it promises, no wakeup lost or duplicated, assertions never fire, no deadlock |
| `HeapBlocks`, `HeapLinks`, `HeapHeaders`, `HeapList`, `LibAlloc`, `KernelHeap` | `malloc` and `free` and the page bitmap under them | the headers stay linked both ways through every store, live pointers never overlap, a block is requested only when no gap exists, free undoes malloc, every run agrees with a plain map, the used pages are exactly those of the listed blocks |
| `PageTables`, `Pagers` | four-level page tables | `map`, `flags`, `unmap` change the flat map on exactly the named pages, in every pager that shares them; lookups change nothing |
| `Division`, `Ext2Read` | ext2 block tree and buffered read | every sequence of reads returns a prefix of the flattened block trees |
| `PhysicalAllocator` | the physical page bitmap | `palloc` finds the lowest run in spite of its hint and skipping |
| `ModuleOrder` | dependency order in modprobe | succeeds exactly on satisfiable requests, with exactly the needed modules in dependency order |
| `Wildcard` | `strmatch` | remembering only the last star is complete |
| `HashChains`, `HashMap` | chained hash map with rehash and iterators | refines a finite map in which the first insert wins, through every store to `next`; exactly when `insert` divides by zero |
| `RangeNodes`, `RangeList` | merging range list | `add` is union, `remove` is difference, one merge pass reaches a fixpoint; what reversed ranges take away |
| `Crc32` | CRC-32 | equals section 8 of RFC 1952, incrementally too; any burst of up to 32 bits is detected |
| `PathLookup` | path lookup with symbolic links | ends on every graph, never answers a link when told to resolve, what every part of a path does, exact limit on link chains, what an absolute link leads to |
| `Printf`, `PrintfMeaning`, `PrintfDirectives` | `snprintf` (integers, `c`, `s`, `p`, `%`) and `atoi` | exact truncation; what each conversion letter, flag, width and precision prints, which argument it takes; exactly when `atoi` reads `%d` output back |
| `EventLoop` | the kernel event queue | ids without holes in queue order, every finished event given to its handlers in order until one consumes it, exactly one notice raised for each ordinary event, the loop comes to rest |

`Wrappers` holds the option type and the removal from a sequence that they share.

Objects that the source updates in place are classes whose methods are proved against functions of
their old and new state; linked structures are records keyed by address, together with the sequence
they stand for, and other lists and dictionaries are sequences and maps. Shared state
touched by several threads is a state machine over atomic steps. Addresses are numbers and integers
are unbounded unless a width is written out.

Found on the way, and kept as they are in the code:

- A lookup that begins with `/` starts from the node it is given and not from the root
  (`PathLookup.LeadingSeparator`), so an absolute symbolic link is taken from the link's own parent:
  `PathLookup.AbsoluteLink` says what it leads to, which is right in the root directory, and
  `PathLookup.AbsoluteLinkElsewhere` gives for every other parent a graph in which it is wrong.
- Two threads of a process that fault together on a copy-on-write page: the second finds the page
  present and writable and its fault is refused (`ProcessMemory.Kernel.TwoStores`).
- `map_page` over a page that already has a memory entry leaves the new mapping unmapped
  (`CopyOnWrite.MapPageStaysMapped` is the exact condition), and an anonymous fault fails if the
  frame found is frame 0 (`CopyOnWrite.ResolveAnonymousAtZero`).
- `operator[]` of the hash map does not count the entry it adds. Erased, such entries bring the size
  below zero, and an insert can then divide by zero: `HashMap.UnorderedMap.Insert` states exactly
  when, `HashMap.IndexAndEraseTwice` gives the input. A copied map is empty
  (`HashMap.UnorderedMap.Copy`).
- A zero-padded negative number wider than the digit buffer loses its sign (`Printf.SignLost`);
  `Printf.RoundTrip` is the exact condition. With the `#` flag a number that fills its field loses
  leading digits (`Printf.HashLosesDigits`); `Printf.HashKeepsValue` is the exact condition.
- `%b` prints the low 32 bits of its argument, whatever its length modifier
  (`PrintfMeaning.UnsignedMeaning`, with the input in `PrintfMeaning.BinaryCut`), and with the `-`
  flag the precision of a number adds no zeros (`PrintfMeaning.Least`).
- Adding or removing a range with its ends reversed takes points away
  (`RangeList.ReversedLosesPoints`); `RangeList.RangeList.Add` and `RangeList.RangeList.Remove` state
  which, and exactly when none. Removing an empty range from inside a stored one cuts it in two that
  touch.

## Model

| member | source | states |
|---|---|---|
| `ProcessMemory.Kernel.Run` | kernel/src/tasking/process.cpp:290-363 | Over every legal run of mapping, guard mapping, unmapping, reading, writing, fork and exit by any processes, the outcomes are exactly those of the specification in which fork copies all memory; every access is told what the operations before it make of it (the last store of its process or, before a fork, of its parent; zero in new memory; a fault in what was unmapped); the run stops early only at an access that takes a frame when none that will do is free, and not for operations that take none |
| `ProcessMemory.Kernel.HandlePageFault` | kernel/src/tasking/process.cpp:290-363 | Never changes what any process sees; for a fault that may be out of date the answer is yes exactly if it can be resolved, and then it is, or if the missing page has appeared since; no for an access the process is entitled to only if the fault says "present" and the page has become writable since |
| `ProcessMemory.Kernel.TwoStores` | kernel/src/tasking/process.cpp:290-363 | Of two threads that fault on one copy-on-write page together the second is refused although it is entitled to its store |
| `ProcessMemory.Kernel.Touch` | kernel/src/tasking/process.cpp:290-363 | Faulting and retrying ends, and succeeds exactly for accesses the process is entitled to; a frame is asked for only if one is needed |
| `ProcessMemory.Kernel.Fork` | kernel/src/tasking/syscalls/process.cpp:96-128 | The child sees a copy of everything the parent sees and nobody else sees a change, with the sharing invariant kept |
| `ProcessMemory.Kernel.UnmapPages` | kernel/src/tasking/process.cpp:488-518 | Exactly the named pages of exactly this process disappear, with the invariant kept |
| `ProcessMemory.Kernel.AllocPages` | kernel/src/tasking/process.cpp:230-257 | The range reads as zero pages with the given rights, whatever was there, and nothing else changes |
| `ProcessMemory.Kernel.NullPages` | kernel/src/tasking/process.cpp:259-273 | The range becomes inaccessible and nothing else changes |
| `ProcessMemory.Kernel.Exit` | kernel/src/tasking/process.cpp:55-140 | Everything of the process disappears and nobody else sees a change, although reference counts stay too high |
| `ProcessMemory.Kernel.WriteByte` | kernel/src/tasking/process.cpp:290-363 | A store changes one byte of one process or faults, exactly as in the specification |
| `ProcessMemory.Kernel.ReadByte` | kernel/src/tasking/process.cpp:290-363 | A load returns the byte of the specification or faults, and changes nothing that is seen |
| `ProcessMemory.AllowedIsEntitled` | kernel/src/tasking/process.cpp:290-363 | An access the page table allows is one the process is entitled to, and one that it refuses although no frame is missing is one the process is not entitled to |
| `ProcessMemory.ExecutableIsEntitled` | kernel/src/tasking/process.cpp:290-363 | A page in the page table is executable exactly if the process may run code there |
| `EagerMemory.Isolation` | kernel/src/tasking/syscalls/process.cpp:96-128 | In the specification an operation changes no page but those of its own process and of the child it makes |
| `EagerMemory.ReadAfterWrite` | kernel/src/tasking/syscalls/process.cpp:96-128 | In the specification a successful store is read back, and every other read by anyone anywhere gives what it gave before |
| `EagerMemory.ReadAfterWriteInRun` | kernel/src/tasking/syscalls/process.cpp:96-128 | The same after every run |
| `EagerMemory.ForkLaw` | kernel/src/tasking/syscalls/process.cpp:96-128 | After fork every load and store of the child has the outcome that the same access of the parent had before, and nobody else's outcome changes |
| `EagerMemory.MapLaw` | kernel/src/tasking/process.cpp:230-257 | In newly mapped memory loads give 0 and stores are done exactly if it was asked for writable; elsewhere nothing changes |
| `EagerMemory.GuardLaw` | kernel/src/tasking/process.cpp:259-273 | Accesses to guard pages fault; elsewhere nothing changes |
| `EagerMemory.UnmapLaw` | kernel/src/tasking/process.cpp:488-518 | Accesses to unmapped pages fault; elsewhere nothing changes |
| `EagerMemory.ExitLaw` | kernel/src/tasking/process.cpp:55-140 | Accesses by a process that is gone fault; for the others nothing changes |
| `EagerMemory.AccessLaw` | kernel/src/tasking/process.cpp:290-363 | A store that is done changes what its own process loads from its own address and no other outcome; a store that faults, and a load, change none |
| `EagerMemory.ExecuteLaw` | kernel/src/tasking/process.cpp:230-257 | Where a process may run code: in new memory asked for executable, in a child where its parent may, and elsewhere as before |
| `EagerMemory.Recalled` | kernel/src/tasking/syscalls/process.cpp:96-128 | After every run the outcome of every access follows from the operations of the run alone |
| `CopyOnWrite.UnmapPageCorrect` | kernel/src/tasking/process.cpp:488-518 | Unmapping keeps the reference-count invariant and removes one page from what is seen |
| `CopyOnWrite.CopyPageCorrect` | kernel/src/tasking/process.cpp:307-345 | Copying a shared frame on a write fault keeps the invariant and what everyone sees, and makes the page writable |
| `CopyOnWrite.ReusePageCorrect` | kernel/src/tasking/process.cpp:307-345 | Reusing a frame whose count is one keeps the invariant and what everyone sees |
| `CopyOnWrite.ResolveAnonymousCorrect` | kernel/src/memory/page/anonpage.cpp:11-29 | The first touch of an anonymous page gives a zeroed frame of its own and changes nothing that is seen |
| `CopyOnWrite.ResolveAnonymousAtZero` | kernel/src/memory/page/anonpage.cpp:11-29 | If the frame found is frame 0 the fault is not resolved |
| `CopyOnWrite.MapPageStaysMapped` | kernel/src/tasking/process.cpp:211-228 | After map_page the page is in the page table if and only if it had no memory entry before |
| `CopyOnWrite.SetPageMappingCorrect` | kernel/src/tasking/process.cpp:202-209 | Replaces whatever was mapped at one page by an entry without a frame, with the counts right |
| `CopyOnWrite.ForkPageCorrect` | kernel/src/tasking/syscalls/process.cpp:96-128 | One turn of the fork loop: the child gets the page, the parent keeps it, the frame is write-protected in both |
| `CopyOnWrite.DetachKeepsInv` | kernel/src/memory/ppage.cpp:15-64 | Dropping an entry keeps the count of handles and mappings above the number of live entries |
| `CopyOnWrite.StoreCorrect` | kernel/src/memory/ppage.cpp:15-64 | A store through a writable mapping reaches one process only, because a privately writable frame has one live entry |
| `RecursiveMutex.RunKeepsInv` | kernel/src/locking/recursive_mutex.cpp:16-55 | Every schedule of lock, try_lock and unlock steps by any number of threads keeps the invariant that says where the right to run is |
| `RecursiveMutex.MutualExclusion` | kernel/src/locking/recursive_mutex.cpp:16-55 | At most one thread is inside, f_owner names it, f_recursion is its depth, f_counter its levels plus the pending lockers |
| `RecursiveMutex.NoWakeupLostOrDuplicated` | kernel/src/locking/semaphore.cpp:21-34 | Holders, unlockers about to release and semaphore tokens (with add-backs owed) sum to one when f_counter is positive and to zero otherwise |
| `RecursiveMutex.CallEnds` | kernel/src/locking/recursive_mutex.cpp:16-55 | In every schedule: lock returns only to the one thread that holds the mutex, one level deeper than when it was called; unlock returns one level less deep; try_lock answers true with the mutex and one level more, or false with none, and that only if another thread holds the mutex or waits for it |
| `RecursiveMutex.CallBegins` | kernel/src/locking/recursive_mutex.cpp:16-55 | What is remembered of a call is the call asked for and the depth it began at; no step reads it |
| `RecursiveMutex.AssertionsHold` | kernel/src/locking/semaphore.cpp:28-34 | The assertion of release never fires; that of unlock fires exactly for a thread that does not hold the mutex |
| `RecursiveMutex.StepRefinesRecursiveLock` | kernel/src/locking/recursive_mutex.cpp:16-55 | Every step is a step of a plain recursive lock, whose levels are each thread's nesting depth |
| `RecursiveMutex.WaiterCanEnter` | kernel/src/locking/recursive_mutex.cpp:28-39 | When nobody is inside and somebody waits, a few steps of waiters and releasers let one in: no deadlock |
| `HeapBlocks.AlignRoundTrip` | kernel/src/memory/liballoc.c:18-36 | ALIGN gives a 16-byte aligned pointer inside its room and UNALIGN maps it back |
| `HeapBlocks.UserBytesInside` | kernel/src/memory/liballoc.c:18-36 | The requested bytes lie inside the minor, after its header |
| `HeapBlocks.GapScanComplete` | kernel/src/memory/liballoc.c:395-474 | If the bytes fit anywhere in a block, one of the gaps between neighbours is large enough |
| `HeapBlocks.GapWithinFree` | kernel/src/memory/liballoc.c:297-324 | A block with too little left in total has no gap of that size |
| `HeapBlocks.InsertKeepsMajor` | kernel/src/memory/liballoc.c:330-474 | A minor put at the start of a large enough gap keeps the block sorted, disjoint, inside, with exact usage |
| `HeapBlocks.RemoveKeepsMajor` | kernel/src/memory/liballoc.c:581-593 | Taking a minor out does too |
| `HeapLinks.StoreEmpty` | kernel/src/memory/liballoc.c:328-356 | Case 2: the stores one by one make the header of the only minor |
| `HeapLinks.StoreFront` | kernel/src/memory/liballoc.c:358-392 | Case 3: they splice a header in front of the first |
| `HeapLinks.StoreBack` | kernel/src/memory/liballoc.c:400-433 | Case 4.1: and behind the last |
| `HeapLinks.StoreBetween` | kernel/src/memory/liballoc.c:435-474 | Case 4.2: and between two |
| `HeapLinks.SpliceLinks` | kernel/src/memory/liballoc.c:330-474 | After a splice next, prev and block of every header of the block are those of the list with the minor inserted |
| `HeapLinks.UnspliceLinks` | kernel/src/memory/liballoc.c:581-593 | After the relinking of free they are those of the list without the minor |
| `HeapLinks.MinorsReached` | kernel/src/memory/liballoc.c:395-474 | In linked headers, following next from first gives the minors in order and following prev from the last gives them backwards, both to null |
| `HeapLinks.MajorsReached` | kernel/src/memory/liballoc.c:270-502 | The same for the list of blocks from l_memRoot |
| `HeapLinks.UnlinkLinks` | kernel/src/memory/liballoc.c:594-608 | Unlinking a block, the first one included, leaves the others linked |
| `HeapHeaders.PlaceKeepsLinks` | kernel/src/memory/liballoc.c:330-474 | The stores of an allocation, the alignment byte included, keep the headers and alignment bytes of every block right |
| `HeapHeaders.TakeKeepsLinks` | kernel/src/memory/liballoc.c:581-593 | So do those of free |
| `HeapList.LiveDisjoint` | kernel/src/memory/liballoc.c:207-516 | The bytes of two live pointers never overlap, and live pointers are aligned and not null |
| `HeapList.NewMajorOk` | kernel/src/memory/liballoc.c:159-205 | A new block is sound and has room for what it was made for |
| `HeapList.PagesLeast` | kernel/src/memory/liballoc.c:159-205 | The pages asked for are the fewest that hold the request with both headers, and at least sixteen |
| `LibAlloc.TryBlock` | kernel/src/memory/liballoc.c:330-474 | Finds the first gap that fits, and fails exactly when the bytes fit nowhere in the block |
| `LibAlloc.ScanMinors` | kernel/src/memory/liballoc.c:360-474 | The same for a block with minors, by looking before, between and after them |
| `LibAlloc.StoreMinor` | kernel/src/memory/liballoc.c:330-474 | In the case the scan ended in, the stores put the header where the gap was found and link it there |
| `LibAlloc.UnalignFinds` | kernel/src/memory/liballoc.c:30-36 | The byte before a live pointer leads UNALIGN back to the header of its minor |
| `LibAlloc.Heap.Search` | kernel/src/memory/liballoc.c:270-502 | The walk ends; it makes a block, or fails, exactly when no listed block has a gap, although it may start at the best bet |
| `LibAlloc.Heap.Malloc` | kernel/src/memory/liballoc.c:207-516 | Keeps the heap valid (headers linked both ways, sorted disjoint minors, exact sums, no empty block, best bet listed); a block is asked for exactly when there is no gap, and the answer is null exactly when it is asked for and not given; otherwise a new aligned pointer becomes live and no other changes |
| `LibAlloc.Heap.Free` | kernel/src/memory/liballoc.c:518-621 | Finds the minor by UNALIGN and keeps the heap valid; exactly the given pointer stops being live; a block left empty is unlinked and released |
| `LibAlloc.Heap.MallocThenFree` | kernel/src/memory/liballoc.c:207-621 | Freeing what was just allocated restores the list of blocks |
| `HeapList.FreeUndoesMalloc` | kernel/src/memory/liballoc.c:518-621 | Only one minor answers to the new pointer, and removing it gives the list before malloc |
| `KernelHeap.HeapPages.FindRun` | kernel/src/memory/liballoc_plugs.cpp:51-86 | The lowest run of free pages of the local heap whenever one exists, although the search starts at the hint and skips |
| `KernelHeap.FreeRunIsApart` | kernel/src/memory/liballoc_plugs.cpp:51-86 | A free run overlaps no listed block |
| `KernelHeap.MallocOwns` | kernel/src/memory/liballoc_plugs.cpp:51-86 | After malloc the used pages are again exactly those of the listed blocks |
| `KernelHeap.FreeOwns` | kernel/src/memory/liballoc_plugs.cpp:88-100 | And after free |
| `KernelHeap.SystemHeap.Malloc` | kernel/src/memory/liballoc_plugs.cpp:51-86 | malloc on its real page source: null exactly when no gap, no run of pages and no fallback block exist; pages are taken only when no gap exists; page marks and blocks stay in agreement |
| `KernelHeap.SystemHeap.Free` | kernel/src/memory/liballoc_plugs.cpp:88-100 | free on its real page source: exactly one pointer dies, and page marks and blocks stay in agreement |
| `KernelHeap.SystemHeap.Serve` | kernel/src/memory/liballoc.c:207-621 | Over every sequence of allocations and releases the heap is a plain map from live pointers to sizes, whose entries are aligned and never overlap |
| `KernelHeap.AllSeparate` | kernel/src/memory/liballoc.c:207-621 | A valid heap that agrees with a map keeps all of its entries apart |
| `Pagers.PagerSystem.Map` | kernel/src/memory/virtual.cpp:278-309 | Page virt + i leads to frame phys + i for every i below the length, present and with each flag as asked, through exactly the pagers that share it; all other pages stay; the pages named and compared are those below the work pages |
| `Pagers.PagerSystem.Flags` | kernel/src/memory/virtual.cpp:311-340 | Exactly the named pages get each flag as asked and keep their frames; again below the work pages |
| `Pagers.PagerSystem.Unmap` | kernel/src/memory/virtual.cpp:354-381 | Exactly the named pages are gone, their entries zero, and the answer is the first frame they had; again below the work pages |
| `Pagers.PagerSystem.GetPhysicalAddress` | kernel/src/memory/virtual.cpp:383-393 | The frame in the flat map; the map is unchanged although tables may be allocated |
| `Pagers.PagerSystem.GetFlags` | kernel/src/memory/virtual.cpp:395-415 | The flags in the flat map; the map is unchanged although tables may be allocated |
| `Pagers.PagerSystem.MapStructures` | kernel/src/memory/virtual.cpp:170-238 | Gives the page a page table and changes no address space |
| `Pagers.PagerSystem.NewPager` | kernel/src/memory/virtual.cpp:45-80 | A new address space is empty below the kernel and shows the kernel pages of all others above |
| `PageTables.WithTableKeepsWalks` | kernel/src/memory/virtual.cpp:170-238 | Linking a zeroed table changes no walk through the tree |
| `PageTables.WrittenLookup` | kernel/src/memory/virtual.cpp:278-309 | Writing one entry changes the lookup of one page, in one pager or in all when it is a kernel page |
| `PageTables.KernelIsShared` | kernel/src/memory/virtual.cpp:61-70 | Kernel pages look the same through every pager |
| `Ext2Read.InodeBlockIsLeaf` | kernel/modules/ext2/src/inode.cpp:60-83 | Block i of a file is element i of its direct, single, double and triple pointer trees flattened in order |
| `Ext2Read.BytesAreFileData` | kernel/modules/ext2/src/inode.cpp:60-83 | The bytes found through get_inode_block are those of the flattened trees, block after block |
| `Ext2Read.RunIsBlocks` | kernel/modules/ext2/src/rw.cpp:37-62 | One device read of a run of consecutive blocks is one read per block |
| `Ext2Read.FileStream.ReadBlocks` | kernel/modules/ext2/src/rw.cpp:37-62 | Coalesced reads return the bytes of the named blocks in order |
| `Ext2Read.FileStream.Read` | kernel/modules/ext2/src/rw.cpp:11-76 | Returns the next bytes of the flattened file, as many as asked for or left, and keeps the block buffer in step with the position |
| `Ext2Read.FileStream.ReadSequence` | kernel/modules/ext2/src/rw.cpp:11-76 | The results of any sequence of reads on a fresh stream make a prefix of the bytes of the flattened trees, cut at the size |
| `Ext2Read.ReadFile` | kernel/modules/ext2/src/rw.cpp:11-76 | The same for a file opened and read |
| `PhysicalAllocator.PhysicalMemory.FindRun` | kernel/src/memory/physical.cpp:128-154 | The lowest run of free pages whenever one exists |
| `PhysicalAllocator.PhysicalMemory.Palloc` | kernel/src/memory/physical.cpp:128-154 | Takes the lowest run and nothing else, keeps everything below the hint used, and counts the pages |
| `PhysicalAllocator.PhysicalMemory.Pfree` | kernel/src/memory/physical.cpp:167-174 | Exactly the named pages become free and the hint stays right; the page counter stays exact if and only if all of them were used |
| `PhysicalAllocator.PhysicalMemory.Init` | kernel/src/memory/physical.cpp:40-80 | Exactly the usable pages above the first megabyte are free |
| `PhysicalAllocator.PhysicalMemory.FreeAndReallocate` | kernel/src/tests/memory.cpp:8-16 | For every size, a run freed page by page in any order is found again at the same address |
| `PhysicalAllocator.UpdateBit` | kernel/src/memory/physical.cpp:23-34 | The two byte updates set the status of one page and of no other |
| `ModuleOrder.ModuleLoader.Order` | userspace/programs/system/modprobe/main.cpp:260-278 | Succeeds exactly when everything needed exists and no needed module is on a cycle; the list then has exactly the needed modules, once each, every dependency before its dependents |
| `ModuleOrder.ModuleLoader.HandleDependencies` | userspace/programs/system/modprobe/main.cpp:136-176 | The dependencies of a module come to stand before it in order, what follows it keeps its place, and it ends; an erasure hits the place of a module being handled, or a module depends on itself, only if there is a cycle |
| `ModuleOrder.StackCycle` | userspace/programs/system/modprobe/main.cpp:136-176 | Meeting a module that is being handled means that it is on a cycle |
| `ModuleOrder.PathDescends` | userspace/programs/system/modprobe/main.cpp:136-176 | Along any dependency path from a member of a sorted list the positions go down, so the list holds everything reachable and no cycle |
| `Wildcard.Strmatch` | kernel/src/stdlib.c:44-62 | Ends, and answers 1 exactly when the text matches the declarative meaning of the pattern |
| `Wildcard.NewStarSubsumesOld` | userspace/programs/system/modprobe/main.cpp:64-82 | A match that gives the old star more is also found by giving the new star more |
| `HashMap.UnorderedMap.Insert` | kernel/std/include/unordered_map.hpp:190-214 | Adds the pair unless the key is there; a counted map stays counted and below twice its capacity; the division by zero in rehash comes exactly for a new key that brings the size to twice the capacity and within 63 of wrapping |
| `HashMap.UnorderedMap.Lookup` | kernel/std/include/unordered_map.hpp:216-227 | The value of the finite map, for any hash |
| `HashMap.UnorderedMap.Find` | kernel/std/include/unordered_map.hpp:177-188 | An iterator at the entry of the key, or the end exactly when the key is missing |
| `HashMap.UnorderedMap.Erase` | kernel/std/include/unordered_map.hpp:247-265 | Removes one key and nothing else; the size goes down by one, below zero if the entries are not counted |
| `HashMap.UnorderedMap.Clear` | kernel/std/include/unordered_map.hpp:269-283 | The empty map at the initial capacity, without a node left |
| `HashMap.UnorderedMap.Rehash` | kernel/std/include/unordered_map.hpp:286-315 | Relinks every entry and changes no lookup; the capacity is the least multiple of 64 that holds the size |
| `HashChains.RehashingNext` | kernel/std/include/unordered_map.hpp:295-310 | One turn of the inner loop: the stores that append an entry to its new chain keep the chains made so far and the entries not yet reached |
| `HashChains.LinkWhole` | kernel/std/include/unordered_map.hpp:190-214 | The stores of insert keep every chain linked, every key in the bucket of its hash, and every node in a chain |
| `HashChains.UnlinkWhole` | kernel/std/include/unordered_map.hpp:247-265 | So do the stores of erase |
| `HashMap.UnorderedMap.Index` | kernel/std/include/unordered_map.hpp:229-245 | Adds the default unless the key is there, but the entry is not counted |
| `HashMap.UnorderedMap.Copy` | kernel/std/include/unordered_map.hpp:106-121 | The copy has the size of the original and none of its entries |
| `HashMap.IndexAndEraseTwice` | kernel/std/include/unordered_map.hpp:229-265 | After two entries were made by operator[] and erased, the next insert divides by zero |
| `HashMap.UnorderedMap.VisitAll` | kernel/std/include/unordered_map.hpp:64-75 | Iteration from begin to end visits every entry exactly once |
| `HashMap.FlatIsContents` | kernel/std/include/unordered_map.hpp:166-175 | The chains read in bucket order are the pairs of the map, each once |
| `RangeList.RangeList.Add` | kernel/std/include/range_list.hpp:87-127 | The points bound are the union, and the stored closed intervals stay pairwise disjoint after the one nested pass; a reversed range takes away exactly the points of the first stored range with one of its ends, unless that one has its start |
| `RangeList.RangeList.Remove` | kernel/std/include/range_list.hpp:129-159 | The points bound are the difference; the intervals stay disjoint if and only if the range is not empty or starts at an unbound point; a reversed range cuts the stored ranges with one of its ends, and does no harm exactly if each of them has both or begins with the end |
| `RangeList.RangeList.IsBound` | kernel/std/include/range_list.hpp:173-177 | Membership |
| `RangeList.MergeKeepsPoints` | kernel/std/include/range_list.hpp:87-127 | Merging two touching ranges into their hull neither adds nor loses a point |
| `RangeList.ReversedLosesPoints` | kernel/std/include/range_list.hpp:87-159 | With (5, 10) stored, adding (20, 7) loses all its points and removing (20, 7) loses two |
| `RangeNodes.DeletedLinked` | kernel/std/include/range_list.hpp:60-67 | The stores of delete_range leave the other nodes linked both ways |
| `RangeNodes.InsertedLinked` | kernel/std/include/range_list.hpp:87-94 | So do the stores that link a new node |
| `RangeNodes.Reached` | kernel/std/include/range_list.hpp:173-177 | In linked nodes, following next from the head gives them in order up to the tail |
| `Crc32.CalcCrc32` | kernel/src/util/crc.c:22-39 | Computes the checksum of section 8 of RFC 1952 |
| `Crc32.ChecksumIsRfc1952` | kernel/src/util/crc.c:22-39 | The reflected register of the kernel and the register of section 8 of RFC 1952 agree on every message |
| `Crc32.Incremental` | kernel/src/util/crc.c:41-64 | Over any split of the data the incremental interface gives the same checksum |
| `Crc32.Reflect` | kernel/src/util/crc.c:3-20 | The shifting loop reverses the bits |
| `Crc32.WindowDetected` | kernel/src/util/crc.c:22-39 | Two messages of one length that differ, and only inside four consecutive bytes, never share a checksum |
| `Crc32.BurstDetected` | kernel/src/util/crc.c:22-39 | Two messages of one length that differ, and only inside 32 consecutive bits at any bit offset, never share a checksum |
| `Crc32.PolynomialBytes` | kernel/src/util/crc.c:22-39 | The polynomial is the constant of the source |
| `PathLookup.GetFile` | kernel/src/fs/vfs.cpp:82-146 | Ends on every vnode graph and answers what the path means part by part |
| `PathLookup.PartInDirectory` | kernel/src/fs/vfs.cpp:102-134 | In a directory "." and the empty part stay, ".." goes to the parent if there is one, a name goes to the child of that name and any other name to what the filesystem answers |
| `PathLookup.PartInLink` | kernel/src/fs/vfs.cpp:82-100 | With parts to come a link is replaced by what it stands for if the caller follows links, and is ELOOP otherwise; it stands for its destination looked up from its parent, one level deeper |
| `PathLookup.AtTheEnd` | kernel/src/fs/vfs.cpp:134-146 | At the end of the path a link is replaced exactly if the caller asks for it |
| `PathLookup.Dots` | kernel/src/fs/vfs.cpp:112-119 | From a directory p the path "p/." gives p and "p/.." gives its parent, or p if it has none |
| `PathLookup.InAndOut` | kernel/src/fs/vfs.cpp:112-134 | "p/name/.." gives p if the child is a directory with p as its parent |
| `PathLookup.ResolveLink` | kernel/src/fs/vnodefs.cpp:42-50 | ENOLINK for what is not a link; otherwise the destination seen from the parent, or ELOOP at depth 128 |
| `PathLookup.AbsoluteLink` | kernel/src/fs/vnodefs.cpp:42-50 | A link to /q is taken as q seen from the link's parent, which is what it means if the parent is the root |
| `PathLookup.AbsoluteLinkElsewhere` | kernel/src/fs/vnodefs.cpp:42-50 | For every other parent there is a graph in which /q exists and the link to it is not found |
| `PathLookup.NeverLink` | kernel/src/fs/vfs.cpp:134-146 | With resolve_link set the answer is never a link |
| `PathLookup.Shallower` | kernel/src/fs/vnodefs.cpp:42-50 | The depth a lookup starts from changes its answer only to or from ELOOP |
| `PathLookup.Joined` | kernel/src/fs/vfs.cpp:82-146 | Looking up p/q is looking up q from what p is |
| `PathLookup.LeadingSeparator` | kernel/src/fs/vfs.cpp:85-103 | A leading separator is ignored: the lookup starts where it would without it |
| `PathLookup.ChainLimit` | kernel/src/fs/vnodefs.cpp:42-50 | A chain of links is followed to its end exactly when it is no longer than the depth left |
| `PathLookup.CycleLoops` | kernel/src/fs/vnodefs.cpp:42-50 | Links that only lead to each other give ELOOP |
| `Printf.Snprintf` | kernel/src/printf.c:577-857 | The buffer gets the unbounded output of the format cut at count - 1, a terminator and nothing beyond; the answer is the full length; a count of 0 writes nothing. What the output is, is the subject of the rows of PrintfDirectives and PrintfMeaning |
| `Printf.Sink.PutFormat` | kernel/src/printf.c:577-850 | The text offered to the buffer is the output of the format, whatever the limit |
| `PrintfDirectives.DirectiveRead` | kernel/src/printf.c:594-690 | Every directive of flags, width, precision, length modifier and letter, with stars or without, is read as what it asks for: a flag is set exactly if its character is there, a negative starred width is a "-" with its absolute value, a negative starred precision is 0 |
| `PrintfDirectives.PlainOutput` | kernel/src/printf.c:584-594 | Text without % is copied |
| `PrintfDirectives.DirectiveOutput` | kernel/src/printf.c:577-850 | A directive is replaced by its conversion, which takes the next argument after those of its stars exactly if its letter is one of d, i, u, x, X, o, b, c, s and p |
| `PrintfDirectives.TwoConversions` | kernel/src/printf.c:577-850 | Text, directive, text, directive, text come out in this order, the first conversion with the first argument and the second with the second |
| `PrintfMeaning.UnsignedMeaning` | kernel/src/printf.c:693-765 | x, X, o, u and b print the argument, as an unsigned number of the width its length modifier names, in base 16, 16, 8, 10 and 2, with small letters for x and capitals for X, in as few digits as precision and zero padding allow; b prints the low 32 bits |
| `PrintfMeaning.SignedMeaning` | kernel/src/printf.c:715-738 | d and i print the argument as a signed number of the width its length modifier names, in base 10 after a sign, which 32 digits leave no room for |
| `PrintfMeaning.HashedMeaning` | kernel/src/printf.c:199-274 | With the # flag 0x, 0X, 0b or 0 stands before the digits of a number that is not 0 and does not fill its field |
| `PrintfMeaning.HashedZero` | kernel/src/printf.c:284-289 | The # flag does nothing to 0 |
| `PrintfMeaning.BinaryCut` | kernel/src/printf.c:277-301 | %lb of 2 to the 32 prints nothing but zeros |
| `PrintfMeaning.InFieldAt` | kernel/src/printf.c:199-222 | The blanks make the field as wide as asked for and stand before the number, or behind it with "-" |
| `PrintfMeaning.OtherMeaning` | kernel/src/printf.c:770-850 | c prints its character and s its text cut at the precision, with the blanks before it, or behind it with "-", and % prints itself |
| `PrintfMeaning.PointerMeaning` | kernel/src/printf.c:820-838 | p prints sixteen capital hexadecimal digits that make the address |
| `PrintfDirectives.HexByte` | kernel/modules/pci/src/main.cpp:79 | %02x of a byte gives two small hexadecimal digits that make its value |
| `Printf.Sink.NtoaLong` | kernel/src/printf.c:199-301 | Writes the digits with padding, prefix, sign and field, for every flag combination |
| `Printf.DigitsValue` | kernel/src/printf.c:277-301 | In every base the digits written make the number |
| `Printf.PaddedDigits` | kernel/src/printf.c:222-274 | In every base the padded digits make the number, and there are as many as precision and width ask for |
| `Printf.HashKeepsValue` | kernel/src/printf.c:222-274 | The digits that the # flag leaves make the number if and only if it has no more digits than are left |
| `Printf.HashLosesDigits` | kernel/src/printf.c:222-274 | %#4x of 0x1234 loses two digits |
| `Printf.RoundTrip` | kernel/src/printf.c:222-274 | For every flag, width, precision and length, atoi of the %d output is the number converted if and only if it is 0, or no blank comes first and a minus sign fits |
| `Printf.PlainRoundTrip` | kernel/src/stdlib.c:3-13 | In particular for plain %d and for zero padding up to 32 |
| `Printf.SignLost` | kernel/src/printf.c:222-274 | %033d of -1 reads back as 1 |
| `Printf.Atoi` | kernel/src/stdlib.c:3-13 | The signed number the leading digits make, and whether the largest int was passed on the way |
| `PrintfDirectives.AtoiMeaning` | kernel/src/stdlib.c:3-13 | An optional sign, digits and anything that does not go on with a digit read as the number the digits make, negative after "-" |
| `Printf.PrintAndRead` | kernel/src/stdlib.c:3-13 | snprintf of "%d" and atoi give the number back, with an overflow for the smallest int alone |
| `EventLoop.EventManager.Raise` | kernel/src/event/event_manager.cpp:25-30 | The event gets the next id at the end of the queue; everything raised stays numbered in order |
| `EventLoop.EventManager.CallHandler` | kernel/src/event/event_manager.cpp:62-74 | A handler is called only when every event with a smaller id is finished, and calls stay in order of event and registration; the event counts as consumed from then on if the handler consumed it |
| `EventLoop.EventManager.Finish` | kernel/src/event/event_manager.cpp:76-82 | An ordinary event raises its one notice, with its identifier and id as arguments; a meta-event raises none |
| `EventLoop.EventManager.Step` | kernel/src/event/event_manager.cpp:42-88 | A step of the loop raises only meta-events that are owed and strictly lowers a rank, or halts at rest; what has happened stays as it was; events raised by others stay the same |
| `EventLoop.EventManager.Run` | kernel/src/event/event_manager.cpp:42-88 | Every interleaving of raising and loop steps keeps the ids contiguous in queue order above all finished ones; every finished event has had the handlers of its identifier called in order, each once, all of them or up to the first that consumed it; of all events ever raised exactly one that the loop raised tells of each finished ordinary event, and none of anything else; the events not raised by the loop are exactly those that were asked for, in order |
| `EventLoop.EventManager.Drain` | kernel/src/event/event_manager.cpp:42-88 | If nothing else is raised the loop comes to rest with every event finished and given to its handlers, having raised exactly the meta-events it owed |
| `EventLoop.OneNoticeEach` | kernel/src/event/event_manager.cpp:76-82 | Among all events raised, those of the loop that tell of an event are one if it is ordinary and finished, and none otherwise |

## Left out

- Process memory: file-backed pages and shared anonymous pages (entry types FILE and FILE_MEMORY, and SharedAnonymousPage); entries and page tables are keyed by process and page instead of being heap objects, each memory entry being stored under one key.
- Process memory: palloc is an arbitrary free frame other than 0, a run stops at an access that needs one when there is none that will do; TLB flushing and CR0.WP are not modelled.
- CopyOnWrite.SetPageMappingCorrect: entries that hold a frame, which map_page passes, are the subject of MapPageStaysMapped and AttachSharedView.
- ProcessMemory.Kernel.Exit: reference counts are only kept at least as large as the number of live entries, because minimize drops entries without unref.
- RecursiveMutex: sequentially consistent memory, unbounded counters, distinct non-zero thread ids; the use before the scheduler starts is not modelled.
- LibAlloc.Heap.Free: pointers that were never handed out (the magic number check) are excluded by the precondition, since what lies at such an address is user data.
- LibAlloc: calloc and realloc; the truncation of sizes to unsigned int; the stores of users are taken to stay in their own bytes, so the headers and the alignment bytes are written by malloc and free alone.
- HeapLinks: an address that is not in the map of headers reads as an arbitrary dead header.
- KernelHeap: the pager fallback of liballoc_alloc is a parameter, required to be away from the local heap and from listed blocks.
- KernelHeap.SystemHeap.Serve: every request is made with a pager fallback that answers nothing; with one, SystemHeap.Malloc gives the same for a single call.
- Pagers: the last 512 pages below 2^36, with the work pages in them, are not compared; CR3 and TLB instructions, locking, kmap, kalloc, getFreeRange; pages are named by the low 36 bits of their number; mapStructures always remaps because the cached indices are never set.
- Ext2Read: writing, seek, holes, device errors and 32-bit overflow in get_lba; pointer blocks are decoded numbers; the size of a file is at most that of its blocks; past the largest file get_inode_block answers 0.
- PhysicalAllocator.PhysicalMemory.Init: usable areas end within the status block; init_pmm sizes the blocks by the bases alone and would write past them.
- PhysicalAllocator: one status block of 4 GiB; where the source would read past the bitmap the answer is None.
- ModuleOrder.ModuleLoader.Order: alias resolution by probe and loading by insmod are not modelled; the requested modules are distinct (one named twice would be listed twice).
- HashMap: assignment from another map; allocation failure; that capacity times two may wrap.
- RangeList: clear, the destructor and iterators; the allocator is a parameter that gives an unused node.
- Crc32: words are sequences of bits, least significant first.
- PathLookup: filesystems other than the vnode filesystem appear only as an arbitrary answer for names that are not cached; their own resolve_link, mounting, and the creation of links and directories.
- Printf: floating point; a format that ends inside a conversion is taken to end there, a missing argument to be 0 or empty; width and precision are unbounded numbers.
- EventLoop: waiting threads, the contents of events, and registration of handlers while the loop runs.
- The scheduler queues, hardware drivers, boot code, ELF loading and module loading, serial and terminal input, pipes: device models or plumbing.
