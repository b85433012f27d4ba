# Verified models of Tilck kernel components

Dafny models of the parts of the Tilck kernel whose correctness spans whole runs or whole data
structures, with proofs for all inputs, all runs or all reachable states:

- **Buddy allocator** (`Arith`, `BuddyTree`, `BuddyNodes`, `BuddySteps`, `BuddyRows`, `BuddyExpand`,
  `BuddyHeap`, `BuddyClient`). `BuddyTree` is the allocator on an abstract tree; `BuddyHeap.Heap` is
  the allocator as written, on an array of `split`/`full` flags, and every method is tied to that
  tree. `BuddyClient` runs it: any mix of requests and releases. Heaps are linear-mapping ones
  (`alloc_block_size == 0`).
- **Intrusive AVL tree** (`AvlTree`, `AvlStore`, `Bintree`). `Bintree.Bintree` works on heap objects
  through a stack of pointers to links; the ghost field `st` mirrors all link fields as a value, and
  the proofs relate that value to a tree.
- **Memory map normaliser** (`Sort`, `Regions`, `MemMap`).
- **Locks** (`RwLock`, `RwLockRuns`, `RwLockEffects`): mutex with direct hand-off, condition variable and the
  writer-preferring read-write lock on top, as one state machine over any number of tasks.
- **Job hand-off** (`SafeRingbuf`, `WorkerThread`): the re-entrant ring buffer under nested
  interrupts and the worker-thread sleep/wake protocol, as state machines.
- **FAT** (`FatVolume`, `FatCompact`, `FatCursor`) and the **calendar** (`Calendar`).

The allocator, the tree, the memory map, the FAT code and the calendar are classes and methods with
loops, like the code they model. The locks and the ring buffer are step relations over values,
because what is proved there is about interleavings: a step is what one task or interrupt handler
does between two points where another can get in.

## What the code does differently from what its comments or names say

- The search of `internal_kmalloc` without marking is not free of side effects, although the comment
  at `kernel/kmalloc/kmalloc.c:501-505` says so: nodes above the block found stay split
  (`LookingSplits`). It leaves the flags alone if and only if it fails or all nodes above the block
  were split before (`LocatedSame` on the tree, `SearchOnly` on the array). The multi-step path fills
  that block next.
- The count of already-free bytes in `internal_kmalloc_coalesce_block` looks at the smallest level
  only. `InternalKfree` states exactly when the byte counter stays right. A block pre-split into
  larger leaves and released whole stays counted entirely (`LargeLeavesLeak`; `LeakExample` has the
  smallest such heap).
- `kmalloc_heap_dup_expanded` of an empty heap leaves split nodes above two free halves.
  `DupExpanded` states this as an if-and-only-if; `ExpandEmpty` has the smallest such heap.
- `fat_seek` with `SEEK_END` and a non-negative offset moves from the current position.
  `SeekIsPosix` says for which calls the result is the one POSIX describes.
- `timestamp_to_datetime` truncates the year to 16 bits. `TimestampRoundTrip` says which timestamps are
  converted and which of them come back; `YearWraps` has the first later one that does not.
- `align_mem_regions_to_page_boundary` wraps around for regions that end in the last page of the
  64-bit space. `AlignedIsHull` gives the exact condition; the region of `AlignedLoses` disappears.
- `handle_region_overlap` reports a change although it makes none when the second region is empty,
  stricter and starts with the first one. `HandleOverlap` shows that this is the only such case, and
  `SpinningRound` that a round of the loop around it then ends where it began.
- Comparing keys by subtracting two `long`s is right exactly when the difference fits
  (`KeyDiffSign`, `KeyDiffWraps`).
- A wake-up of a condition waiter that is not a `kcond` signal can strand the read-write lock: the
  pending writer rejoins the wait list behind a reader, the last reader's single signal goes to that
  reader, and everyone sleeps with the lock free (`StrayStrands`). `StepMisses` gives the guard of the
  release that does it, `StepStaysMissed` the only step that undoes it, and `StuckIffReleaseMissed`
  shows that nothing else gets the lock stuck. Without such wake-ups it cannot happen
  (`NeverStranded`).
- The recursion count `rc` of the read-write lock has 16 bits. `RunExcludes` holds in exactly the runs
  without a release at count one by an owner of more than one level; `ShallowRun` shows that nesting
  up to 65536 is safe, and `DeepNestingBreaks` is a run in which 65537 nested locks let a second task
  in.
- `rwlock_wp_init` does not set `rc`. The model starts from zeroed memory, as the one user of a
  recursive lock does (`kernel/fs/ramfs/inodes.c.h:8-12`); the count is not used in other locks.

## Model

| member | source | states |
|---|---|---|
| `BuddyTree.BlockBounds` | kernel/kmalloc/kmalloc.c:61-81 | every live block lies inside its subtree's range and is aligned to its size |
| `BuddyTree.BlocksDisjoint` | kernel/kmalloc/kmalloc.c:315-446 | two different live blocks never overlap |
| `BuddyTree.CanonicalUnique` | kernel/kmalloc/kmalloc.c:88-138 | a coalesced tree is determined by its set of live blocks |
| `BuddyTree.FreeBlocks` | kernel/kmalloc/kmalloc.c:88-138 | freeing a node removes exactly its blocks and bytes and keeps the tree coalesced |
| `BuddyTree.BlocksInRange` | kernel/kmalloc/kmalloc.c:224-313 | the live blocks that start in a node's range are exactly those of its subtree |
| `BuddyTree.FirstFit` | kernel/kmalloc/kmalloc.c:336-446 | the search fails iff no aligned range of that size is free of live blocks, and otherwise finds the lowest such range |
| `BuddyTree.AllocBlocks` | kernel/kmalloc/kmalloc.c:336-446 | a successful search adds one new live block, adds its size to the total and keeps the tree coalesced |
| `BuddyTree.AllocThenFree` | kernel/kmalloc/kmalloc.c:753-789 | allocating and freeing restores the tree exactly |
| `BuddyTree.LiveBytesCovered` | kernel/kmalloc/kmalloc.c:405-406 | the counted addresses are exactly those inside some live block |
| `BuddyTree.TotalCountsBytes` | kernel/kmalloc/kmalloc.c:405-406 | the total is the number of addresses inside live blocks |
| `BuddyTree.RunIsSafe` | kernel/kmalloc/kmalloc.c:315-446 | after any run of allocations and frees the live blocks are the client's ledger, disjoint, in range and size-aligned |
| `BuddyNodes.NodeOffsetInverse` | kernel/kmalloc/kmalloc.c:61-81 | node number to address inverts address to node number on aligned offsets |
| `BuddyNodes.IndexIsNode` | kernel/kmalloc/kmalloc.c:61-70 | every metadata index is the node of some aligned block |
| `BuddyNodes.RepUnique` | kernel/kmalloc/kmalloc.c:88-138 | the flags of all nodes are a function of the tree |
| `BuddyNodes.RepInjective` | kernel/kmalloc/kmalloc.c:88-138 | equal flags mean equal trees |
| `BuddyNodes.LocatedSame` | kernel/kmalloc/kmalloc.c:411-414 | looking for a block without taking it leaves the tree as it was iff all nodes above the block were split |
| `BuddyNodes.LookingSplits` | kernel/kmalloc/kmalloc.c:411-414 | a search of an empty two-block heap that takes nothing and leaves the root split |
| `BuddySteps.Coalesce` | kernel/kmalloc/kmalloc.c:100-124 | clearing a parent of two free nodes moves the free block one level up without changing the outcome |
| `BuddySteps.StopCoalescing` | kernel/kmalloc/kmalloc.c:105-112 | where coalescing stops, the tree above is the coalesced one |
| `BuddySteps.FoundRight` | kernel/kmalloc/kmalloc.c:408-446 | success in the right half gives the flags of the tree updated there, at the right half's offset |
| `BuddySteps.NotFound` | kernel/kmalloc/kmalloc.c:408-446 | a failed search below a node leaves the metadata as it was |
| `BuddyRows.LeafyBlocks` | kernel/kmalloc/kmalloc.c:224-267 | a pre-split block consists of exactly the leaves of the chosen size, side by side |
| `BuddyRows.CountBottom` | kernel/kmalloc/kmalloc.c:295-304 | the clear nodes in the bottom row are those not used by smallest blocks |
| `BuddyRows.MinBlocksExact` | kernel/kmalloc/kmalloc.c:295-304 | counting smallest blocks measures the allocated bytes iff there are no larger ones |
| `BuddyRows.PiecesFitIffMultiple` | kernel/kmalloc/kmalloc.c:529-540 | the bits of a size name only blocks of the heap iff the size is a multiple of the smallest block |
| `BuddyRows.PrefixSearch` | kernel/kmalloc/kmalloc.c:542-597 | searching the big block for the next smaller power of two lands right behind the bytes used so far |
| `BuddyRows.PrefixExtend` | kernel/kmalloc/kmalloc.c:548-606 | filling that place extends the used prefix by that piece |
| `BuddyRows.PrefixPiece` | kernel/kmalloc/kmalloc.c:804-813 | every piece of a multi-step allocation is a node at the sum of the larger pieces |
| `BuddyRows.PrefixCovers` | kernel/kmalloc/kmalloc.c:529-611 | the pieces cover exactly the first size bytes of the big block |
| `BuddyRows.PiecesStayReady` | kernel/kmalloc/kmalloc.c:804-813 | releasing one piece leaves the remaining pieces releasable |
| `BuddyRows.MultiStepReady` | kernel/kmalloc/kmalloc.c:791-815 | after a multi-step allocation all pieces named by the bits of the size are releasable |
| `BuddyRows.PreSplitRelease` | kernel/kmalloc/kmalloc.c:646-663 | a pre-split block with any proper subset of its smallest leaves released can be released as a whole, counting exactly the released ones |
| `BuddyRows.MultiStepWaste` | kernel/kmalloc/kmalloc.c:475-502 | a multi-step request is granted less than one smallest block more than it asks for, and exactly its size if that is a multiple of the smallest block |
| `BuddyRows.LookingKeeps` | kernel/kmalloc/kmalloc.c:501-515 | the same as an if-and-only-if on the flags of all nodes |
| `BuddyExpand.GrowKeeps` | kernel/kmalloc/kmalloc_heaps.c.h:193-207 | growing keeps every live block and the total, and keeps the tree coalesced iff the size is unchanged or the old heap is not empty |
| `BuddyExpand.GrowFrees` | kernel/kmalloc/kmalloc_heaps.c.h:193-207 | the added range is free |
| `BuddyExpand.GrowRep` | kernel/kmalloc/kmalloc_heaps.c.h:193-207 | the copied rows and the new spine are the flags of the grown tree |
| `BuddyHeap.Heap.constructor` | kernel/kmalloc/kmalloc_heaps.c.h:55-113 | a fresh heap is valid and all free |
| `BuddyHeap.Heap.DupExpanded` | kernel/kmalloc/kmalloc_heaps.c.h:150-210 | the new heap has the same live blocks; it is coalesced iff the size is unchanged or the old heap is not empty |
| `BuddyHeap.ExpandEmpty` | kernel/kmalloc/kmalloc_heaps.c.h:193-207 | an empty heap that grows and is then not coalesced |
| `BuddyHeap.Heap.InternalKmalloc` | kernel/kmalloc/kmalloc.c:315-446 | the array search does what first fit does on the tree, and changes flags only below its node |
| `BuddyHeap.Heap.SetFreeUplevels` | kernel/kmalloc/kmalloc.c:88-138 | afterwards the whole array describes the coalesced tree without the block, and the biggest free node is returned |
| `BuddyHeap.Heap.SplitBlock` | kernel/kmalloc/kmalloc.c:224-267 | the block becomes a full set of leaves of the given size; nothing outside changes |
| `BuddyHeap.Heap.CoalesceBlock` | kernel/kmalloc/kmalloc.c:269-313 | the block is one allocated block again; free bytes returned plus remaining smallest blocks make the block size |
| `BuddyHeap.Heap.InternalKfree` | kernel/kmalloc/kmalloc.c:629-671 | exactly the block's live blocks disappear; the byte counter stays exact iff the block is in one piece or only smallest blocks are left of it |
| `BuddyHeap.Heap.CalculateBlockSize` | kernel/kmalloc/kmalloc.c:717-740 | the size of a live block is recovered from the flags alone |
| `BuddyHeap.Heap.KmallocBlock` | kernel/kmalloc/kmalloc.c:464-494 | the lowest free block of the rounded size, optionally pre-split; a failure changes no flag |
| `BuddyHeap.Heap.SearchOnly` | kernel/kmalloc/kmalloc.c:508-515 | the search of the multi-step path leaves every flag alone iff it fails or all nodes above the block found were split; the counter never changes |
| `BuddyHeap.Heap.KmallocMultiStep` | kernel/kmalloc/kmalloc.c:508-611 | exactly size contiguous bytes at the start of the lowest free big block, or no change of any flag |
| `BuddyHeap.Heap.NextPiece` | kernel/kmalloc/kmalloc.c:529-607 | each piece lands at the big block plus the bytes allocated so far, without touching anything else |
| `BuddyHeap.Heap.FillBigBlock` | kernel/kmalloc/kmalloc.c:529-611 | the pieces add up to the size, and so does the counter |
| `BuddyHeap.Heap.PerHeapKmalloc` | kernel/kmalloc/kmalloc.c:448-612 | sizes over the heap fail; every failure leaves flags and live blocks alone; a success adds the blocks of the request and reports their bytes: the rounded size, or on the multi-step path less than one smallest block more than asked for |
| `BuddyHeap.Heap.KfreeBlock` | kernel/kmalloc/kmalloc.c:770-789 | with or without a size, exactly the live blocks inside the block's range disappear |
| `BuddyHeap.Heap.KfreeMultiStep` | kernel/kmalloc/kmalloc.c:791-815 | exactly the live blocks inside the range disappear |
| `BuddyHeap.AllocateThenFree` | kernel/kmalloc/kmalloc.c:753-789 | allocating and freeing a non-root block restores every node and the counter |
| `BuddyHeap.MultiStepThenFree` | kernel/kmalloc/kmalloc.c:791-815 | a multi-step allocation and the multi-step free of the same base and size cancel out, node by node |
| `BuddyHeap.PreSplitThenFree` | kernel/kmalloc/kmalloc.c:646-663 | a pre-split allocation, the release of any proper subset of its leaves in any order and the release of the whole restore every node and the counter |
| `BuddyHeap.LargeLeavesLeak` | kernel/kmalloc/kmalloc.c:295-304 | for every heap and size: pre-split into larger leaves and released whole, the block is gone and its bytes stay counted |
| `BuddyHeap.LeakExample` | kernel/kmalloc/kmalloc.c:295-304 | a heap of eight bytes that ends up empty with four counted |
| `BuddyHeap.Serve` | kernel/kmalloc/kmalloc.c:315-446 | for any run on the heap: live blocks are those handed out and not returned, disjoint, in range, aligned, and mem_allocated is the number of their bytes |
| `BuddyClient.AreaCovers` | kernel/kmalloc/kmalloc.c:448-612 | the blocks behind a request cover exactly the bytes granted |
| `BuddyClient.PiecesReleasable` | kernel/kmalloc/kmalloc.c:791-815 | as long as its blocks are live, every piece of a multi-step area can be released, whatever else happened |
| `BuddyClient.AreaCounted` | kernel/kmalloc/kmalloc.c:405-406 | a live area accounts for exactly its bytes in the counter |
| `BuddyClient.PutBack` | kernel/kmalloc/kmalloc.c:753-815 | giving an area back removes exactly its blocks and bytes |
| `BuddyClient.Ask` | kernel/kmalloc/kmalloc.c:448-612 | a request is refused, changing nothing, iff it exceeds the heap or no block of the rounded size is free; otherwise it gets the start of the lowest such block: the rounded size in one block or, multi-step, exactly its size, new, with exactly its blocks and bytes added |
| `BuddyClient.OneGet` | kernel/kmalloc/kmalloc.c:448-612 | a request puts exactly the area granted in front of those held |
| `BuddyClient.OnePut` | kernel/kmalloc/kmalloc.c:753-815 | a release takes exactly that area out of those held |
| `BuddyClient.MovedUnique` | kernel/kmalloc/kmalloc.c:448-815 | heap and areas held after a call are determined by those before it and the call |
| `BuddyClient.HeldApart` | kernel/kmalloc/kmalloc.c:448-612 | no two areas held share a byte |
| `BuddyClient.BaseApart` | kernel/kmalloc/kmalloc.c:448-612 | no area held shares a byte with a block that was live before |
| `BuddyClient.Run` | kernel/kmalloc/kmalloc.c:448-815 | for any run of requests (one block or multi-step, pre-split or not) and releases in any order: every call does what it says at every moment of the run, every live block belongs to exactly one holder, the counter grew by the bytes held, and once all is given back every node is as at the start |
| `AvlTree.BalKeeps` | kernel/bintree/avl_bintree.c:99-131 | rebalancing repairs an imbalance of two and changes nothing that is balanced |
| `AvlTree.BalOrder` | kernel/bintree/avl_bintree.c:41-93 | rotations keep the objects and their order |
| `AvlTree.RebalancedAvl` | kernel/bintree/avl_insert.c.h:48-49 | a subtree one higher or lower is repaired all the way up |
| `AvlTree.RebalancedShrink` | kernel/bintree/avl_bintree.c:173-176 | rebalancing the path to a removed object lowers the whole by at most one |
| `AvlTree.HeightBound` | kernel/bintree/avl_bintree.c:6 | an AVL tree of a given height holds at least the Fibonacci-like minimum of objects |
| `AvlStore.RotateLeftChild` | kernel/bintree/avl_bintree.c:51-66 | the pointer writes of a clockwise rotation give the rotated tree with right heights and touch nothing else |
| `AvlStore.RotateRightChild` | kernel/bintree/avl_bintree.c:78-93 | the same for the counterclockwise rotation |
| `AvlStore.ClimbStep` | kernel/bintree/avl_bintree.c:191-192 | one round of the rebalancing loop keeps where it will end |
| `AvlStore.SuccessorReady` | kernel/bintree/avl_bintree.c:164-171 | with the successor moved out, the subtree below the removed object's own right link is intact up to the path to rebalance |
| `AvlStore.SuccessorMoved` | kernel/bintree/avl_bintree.c:173-180 | with the links taken back from the removed object, the tree hangs in place of it again |
| `AvlStore.InnerDone` | kernel/bintree/avl_bintree.c:144-180 | removal of an object with two children yields an ordered, balanced tree of the other objects |
| `Bintree.KeyDiffSign` | kernel/bintree/avl_bintree.c:220-233 | comparing by wrapped subtraction is right iff the difference fits a long |
| `Bintree.KeyDiffWraps` | kernel/bintree/avl_bintree.c:220-233 | two keys for which it is wrong |
| `Bintree.StackFits` | include/tilck/kernel/bintree.h:6 | the 32-entry path stack suffices for every tree of fewer than 5702886 objects |
| `Bintree.Bintree.Balance` | kernel/bintree/avl_bintree.c:99-131 | the tree behind the link becomes its rebalanced form with right heights; only its objects and the link change |
| `Bintree.Bintree.RebalanceUp` | kernel/bintree/avl_bintree.c:173-176 | popping the stack rebalances every level up to the base link, touching only that part |
| `Bintree.Bintree.Find` | kernel/bintree/avl_find.c.h:16-35 | returns an object with the key, and nothing iff no object has it |
| `Bintree.Bintree.BuildPath` | kernel/bintree/avl_bintree.c:256-272 | the stack holds the links from the root to the place of the key |
| `Bintree.Bintree.Insert` | kernel/bintree/avl_insert.c.h:16-52 | succeeds iff the key is new; then exactly that object is added; order, stored heights and balance are kept |
| `Bintree.Bintree.Remove` | kernel/bintree/avl_remove.c.h:16-35 | exactly the object with the key goes, or nothing changes if there is none; order, stored heights and balance are kept |
| `Bintree.Apply` | kernel/bintree/avl_insert.c.h:16-52 | one operation whose key can be compared with those there answers as on a set of keys, and the tree holds the keys of the set afterwards |
| `Bintree.Replay` | kernel/bintree/avl_bintree.c:99-272 | any sequence of insertions, removals and lookups, of any length, answers like a set of keys and ends with its keys |
| `Sort.InsertionSort` | kernel/sort.c:32-52 | in place: ordered, a stable permutation, and the rest of the array untouched |
| `Regions.RefinesKeepsStrictest` | kernel/mm/system_mmap.c:190-394 | refinement keeps the covered addresses and the strictest type of each |
| `Regions.RemoveHidden` | kernel/mm/system_mmap.c:275-301 | dropping a region inside a stricter or equal one loses nothing and shrinks the total length |
| `Regions.TrimHidden` | kernel/mm/system_mmap.c:303-314 | trimming a region where a stricter one covers it loses nothing and shrinks the total length |
| `Regions.SplitHidden` | kernel/mm/system_mmap.c:316-328 | splitting around a stricter region loses nothing and shrinks the total length |
| `Regions.MergeProgress` | kernel/mm/system_mmap.c:169-188 | merging touching regions of one kind changes no address's type |
| `Regions.SplitTame` | kernel/mm/system_mmap.c:316-328 | splitting cuts at ends of regions only and uses up one of the points at which the region can be cut |
| `Regions.LoadBound` | kernel/mm/system_mmap.c:316-328 | n regions can be cut into at most n (2n - 1) pieces at their ends |
| `MemMap.AlignedIsHull` | kernel/mm/system_mmap.c:151-167 | page alignment gives the smallest page range around a region iff the 64-bit end does not wrap past it |
| `MemMap.AlignedLoses` | kernel/mm/system_mmap.c:161-165 | a region for which it does: its aligned length is zero |
| `MemMap.SortedStays` | kernel/mm/system_mmap.c:408-410 | sorting an ordered list stably changes nothing, so the last pass describes the final list |
| `MemMap.MemoryMap.constructor` | kernel/mm/system_mmap.c:19-20 | an empty table |
| `MemMap.MemoryMap.HandleOverlap` | kernel/mm/system_mmap.c:190-394 | returns whether the later region starts inside the other; if so the stricter one stays, the first on a tie, and of the other exactly the parts outside it; for non-empty regions the map refines the old one and its total length shrank, or the table was full; a reported change is none iff the second is empty, stricter and starts with the first |
| `MemMap.MemoryMap.MergeAdjacent` | kernel/mm/system_mmap.c:169-188 | afterwards no two neighbours of one kind touch; the map refines the old one, is still sorted and no longer than before, and stays free of overlaps |
| `MemMap.MemoryMap.HandleOverlapping` | kernel/mm/system_mmap.c:396-411 | terminates with a sorted map of disjoint neighbours that refines the old one, and is the old one if that was so already; it can only fail when the table has fewer than n (2n - 1) entries for n regions |
| `MemMap.SpinningRound` | kernel/mm/system_mmap.c:396-411 | for two such regions a round of the loop reports a change and leaves the table as it was |
| `MemMap.SpinningExample` | kernel/mm/system_mmap.c:396-411 | a table of that kind: a page and an empty region at its start |
| `MemMap.MemoryMap.FixMemRegions` | kernel/mm/system_mmap.c:413-419 | sorted, page-aligned, disjoint regions over the same addresses, each with the strictest type; it can only fail when the table has fewer than n (2n - 1) entries for n regions; without overlaps among the aligned regions it does not fail and no two neighbours of one kind touch |
| `RwLock.UnlockKeeps` | kernel/kmutex.c:141-181 | releasing makes the first waiter the owner, takes it off the queue and keeps owner and queue consistent |
| `RwLock.WaitKeeps` | kernel/kcond.c:27-62 | going to sleep queues the task on the condition and releases the mutex in one step |
| `RwLock.SignalKeeps` | kernel/kcond.c:105-148 | a signal takes exactly that sleeper off the list and wakes it, is lost on anyone else, and changes nothing of the lock |
| `RwLock.StepInv` | kernel/rwlock.c:79-199 | every step of every task, at any nesting depth, keeps the invariant of mutex, condition and lock |
| `RwLock.StepExcludes` | kernel/rwlock.c:165-190 | exclusion survives a step iff it is not a release at 16-bit count one by an owner of more than one level |
| `RwLockRuns.RunExcludes` | kernel/rwlock.c:79-199 | in every run, stray wake-ups included: one exclusive holder at most, none beside shared holders, r counts the shared holders, rc is the depth modulo 65536, throughout the run iff it has no such release |
| `RwLockRuns.ShallowRun` | include/tilck/kernel/rwlock.h:53 | there is none while nobody holds more than 65536 levels |
| `RwLockRuns.DeepNestingBreaks` | include/tilck/kernel/rwlock.h:53 | a run of 65537 nested locks, one unlock and a lock of another task after which both hold the lock |
| `RwLockRuns.WritersFirst` | kernel/rwlock.c:83-86 | while w is set no task becomes a shared holder |
| `RwLockRuns.NeverStranded` | kernel/rwlock.c:79-190 | in every run without stray wake-ups: sleepers only while w is set, the pending writer first in line while there are readers and awake once there are none, and if nobody can move someone holds the lock |
| `RwLockRuns.StepMisses` | kernel/rwlock.c:98-111 | a step makes the pending writer miss its wake-up iff it is the release of the last reader with the writer asleep and not first in line |
| `RwLockRuns.StepStaysMissed` | kernel/rwlock.c:132-141 | that state lasts through every step except another stray wake-up of the same writer |
| `RwLockRuns.StuckIffReleaseMissed` | kernel/kcond.c:129-137 | in every run: if nobody can move and someone sleeps, the lock is free iff such a release happened and no such wake-up since |
| `RwLockRuns.StrayStrands` | kernel/kcond.c:150-165 | a run with one stray wake-up that ends with the lock free and everyone asleep |
| `RwLockEffects.FirstComeFirstServed` | kernel/kmutex.c:39-181 | in every run the tasks handed the mutex, followed by those still waiting, are those that had to wait, in the order in which they began to |
| `RwLockEffects.ActEffect` | kernel/rwlock.c:79-190 | with the inner mutex a task waits iff a writer, or for a pending writer a shared holder, bars its way; otherwise it goes on, the owner of a recursive lock at once, and when done its own holds have changed by exactly what the operation promises |
| `RwLockEffects.StepEffect` | kernel/rwlock.c:79-199 | no other step changes anyone's holds or where a task will continue |
| `SafeRingbuf.WordUnique` | kernel/safe_ringbuf.cpp:19-23 | the packed state word determines the number of elements, so an unchanged word means unchanged contents |
| `SafeRingbuf.WordAdvanced` | kernel/safe_ringbuf.cpp:123-126 | advancing the write position gives the word of one more element, full exactly at capacity |
| `SafeRingbuf.SwapKeeps` | kernel/safe_ringbuf.cpp:112-132 | a won compare-and-swap reserves exactly the next slot although the two loads are separate |
| `SafeRingbuf.CopyKeeps` | kernel/safe_ringbuf.cpp:134-139 | filling a reserved slot overwrites no other unread element |
| `SafeRingbuf.TakeKeeps` | kernel/safe_ringbuf.cpp:160-182 | a won compare-and-swap of the reader takes exactly the oldest element |
| `SafeRingbuf.StepAccounted` | kernel/safe_ringbuf.cpp:100-144 | every reserved element belongs to one write that has succeeded or is bound to |
| `SafeRingbuf.ReadTakes` | kernel/safe_ringbuf.cpp:145-187 | an undisturbed read returns the oldest element and takes out just that, and fails iff there is none |
| `SafeRingbuf.WriteTakes` | kernel/safe_ringbuf.cpp:100-144 | an undisturbed write adds its element behind all others and says whether there were any, and is turned away iff the buffer is full |
| `SafeRingbuf.FirstInFirstOut` | kernel/safe_ringbuf.cpp:100-187 | in every run: reads return the written elements in reservation order, none lost or twice; reservations never overlap unread slots; writes are turned away only when full, reads fail only when they found the buffer empty; a write says that the buffer was empty iff its element is the first one in it |
| `WorkerThread.WriteStepFirst` | kernel/wth.c:82-86 | the write that makes an empty queue non-empty reports that it was empty |
| `WorkerThread.LeaveKeeps` | kernel/wth_aux.c:29-43 | an enqueue that returns without waking a sleeping worker leaves another one that will |
| `WorkerThread.WorkKeeps` | kernel/wth.c:154-187 | the worker goes to sleep only with an empty queue and the waiting flag set |
| `WorkerThread.NoJobLost` | kernel/wth.c:154-187 | in every run: a worker sleeping on jobs has an enqueue in flight that will wake it; with none in flight a sleeping worker has taken every job, in order |
| `WorkerThread.WorkerDrains` | kernel/wth.c:154-187 | from every state with no enqueue in flight the worker, left alone, runs every job in order and then sleeps with the waiting flag set |
| `WorkerThread.EnqueuesReturn` | kernel/wth.c:51-90 | from every state the enqueues in flight, left alone, all return |
| `WorkerThread.EveryJobRuns` | kernel/wth.c:154-187 | from every state of every run, letting the enqueues return and then the worker run ends with every job whose enqueue succeeded run exactly once, in the order of the queue |
| `FatVolume.StoreReadsBack` | common/fat32_base.c:397-430 | a stored entry reads back, and the top four bits of a 32-bit entry survive |
| `FatVolume.EntryBits` | common/fat32_base.c:397-430 | a 32-bit entry is the low 28 bits of its word, whatever the other four are, and storing keeps those |
| `FatVolume.EndMarks` | include/tilck/common/fat32_base.h:197-213 | the eight largest values end a chain, the bad-cluster mark does not, and neither does any cluster number |
| `FatVolume.FileUnique` | common/fat32_base.c:774-802 | a table and a head determine the chain |
| `FatVolume.MoveKeepsConsistent` | common/fat32_base.c:783-797 | moving one cluster keeps every chain well-formed and disjoint |
| `FatVolume.MoveKeepsFreeCount` | common/fat32_base.c:794-796 | moving one cluster keeps the number of free entries |
| `FatCompact.MoveKeepsContents` | common/fat32_base.c:785-797 | after moving one cluster every chain yields the same data |
| `FatCompact.Volume.constructor` | common/fat32_base.c:812-832 | a consistent table, clusters and directory entries make a volume that can be compacted |
| `FatCompact.Volume.MoveCluster` | common/fat32_base.c:785-797 | the writes of one move give the moved table, heads and data |
| `FatCompact.Volume.WalkChain` | common/fat32_base.c:774-802 | one entry: its chain ends up below the first free cluster, everything else keeps its contents |
| `FatCompact.Volume.CompactClusters` | common/fat32_base.c:812-832 | every chain yields the same data, chains stay disjoint, as many entries are free as before, all clusters below ffc are in use and all visited chains lie below it; without orphans the free clusters are exactly those from ffc on |
| `FatCursor.Handle.Read` | kernel/fs/fat32.c:35-106 | exactly the file's bytes from the position, cut at buffer or file end; errors for a foreign position and for directories |
| `FatCursor.Handle.SeekForward` | kernel/fs/fat32.c:118-168 | the position moves by the distance and the cached cluster is that of the new position |
| `FatCursor.Handle.Seek` | kernel/fs/fat32.c:219-277 | the new position or error is that of the position-only reader |
| `FatCursor.SeekIsPosix` | kernel/fs/fat32.c:232-276 | the seek is the POSIX one iff it is not SEEK_END with a non-negative offset from another position than the end; then it is the POSIX one from the current position |
| `FatCursor.SeekEndCounterexample` | kernel/fs/fat32.c:244-247 | a seek for which it is not |
| `FatCursor.Run` | kernel/fs/fat32.c:35-277 | any sequence of reads and seeks on the caching handle answers like a reader that keeps only the position |
| `Calendar.DaysToYearClosed` | common/3rd_party/datetime.c:131-201 | the closed leap-year count equals the year-by-year day count |
| `Calendar.YearToSecs` | common/3rd_party/datetime.c:131-201 | seconds to a year and its leap flag agree with the year-by-year count, in both branches and without int overflow in the short one |
| `Calendar.DatetimeToTimestamp` | common/3rd_party/datetime.c:219-243 | equals the day-by-day count, months outside 1 to 12 carried into the year |
| `Calendar.SplitCycle` | common/3rd_party/datetime.c:83-107 | the 400/100/4/1-year split of a day count, including the leap-day corner cases |
| `Calendar.TimestampToDatetime` | common/3rd_party/datetime.c:47-129 | the civil time whose day-by-day count is the timestamp, rejected exactly outside the accepted range, year truncated to 16 bits |
| `Calendar.EpochInjective` | common/3rd_party/datetime.c:47-129 | different valid civil times have different timestamps |
| `Calendar.TimestampRoundTrip` | common/3rd_party/datetime.c:47-243 | every timestamp in the years 0 to 65535 is converted, and of those converted exactly these come back; rejected are exactly those outside the coarse range or whose year since 1900 does not fit an int |
| `Calendar.YearWraps` | common/3rd_party/datetime.c:117-129 | the first second of year 65536 is converted to year 0 and does not come back |
| `Calendar.CivilRoundTrip` | common/3rd_party/datetime.c:47-243 | every valid civil time survives the round trip |

## Left out

- Heaps that map memory on demand (`valloc_and_map`, the roll-back of a failed multi-step allocation) and the flags that skip actual allocation or free: the byte counter is not an invariant there.
- InternalKfree: a block as large as the whole heap is excluded, because the code then reads the flags of the root's parent, before the first node.
- KfreeBlock: the same; `Run` keeps such a block.
- PutBack: the same.
- KfreeMultiStep: only ranges that are the pieces of an allocation, all of them live; other ranges break asserts of the code.
- KmallocMultiStep: sizes that are not a multiple of the smallest block are excluded, because the search would look below the leaf level; `PiecesFitIffMultiple` marks the boundary.
- PerHeapKmalloc: the same for multi-step requests.
- MultiStepThenFree: leaves larger than the smallest block are excluded; the blocks go, but the counter is then wrong as in `LargeLeavesLeak`.
- Ask: pre-split requests are for smallest leaves, for the same reason.
- DupExpanded: the failure to allocate the new heap and its metadata is not modelled.
- Small-heap lists, heap selection, statistics, leak detector and deferred frees around the allocator.
- The in-order visit and the resumable iterator of the binary tree, its first/last lookups, and comparison callbacks other than integer keys.
- Insert: the object's link fields must be initialised, as `bintree_node_init` does; the tree may be at most 30 levels high, so that the 32-entry stack does not overflow.
- Replay: an operation whose key differs from one in the tree by more than a `long` holds is excluded (`KeyDiffWraps` shows why), and so are insertions and removals while the tree has 5702886 objects or more.
- FixMemRegions: empty regions at a page boundary, for which the overlap loop need not settle (`SpinningRound`), and regions ending in the last page of the 64-bit space are excluded; the panic on a full table is the result false. With overlaps it is not stated which touching regions of one kind remain, because the code merges before it resolves overlaps.
- Wake-up timers, signals and kernel panic in the locks, except as stray wake-ups of condition waiters; recursive and try-lock use of the mutex; semaphores; multi-object waits.
- More than one reader of a ring buffer, and reads that interrupt a write, which the code forbids; multi-processor execution.
- Choosing a worker thread by priority, the completion condition of a worker and rescheduling.
- Sector arithmetic of the FAT, directory recursion, long names, the '.' and '..' entries and the chain of the root directory: directory entries are an array of chain heads in walk order.
- Seek: directories, which are seeked by entry count, are excluded.
- Memory-mapped files in the FAT driver, and overflow of the 32-bit file offset.
- Bad-cluster marks in chains.
- Everything else in the kernel: scheduler, paging, processes, signals, terminals, pipes, drivers, boot loaders and user space.
