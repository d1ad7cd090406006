# A verified model of a kernel memory manager

This project models the allocators and indexes of a C teaching port of the Linux 2.6.38 memory
manager, and proves the guarantees that they give over whole runs. Where the C code changes
things in place, the model does: nodes and regions are objects, arrays and fields that methods
overwrite, loops are loops with invariants, and each method is proved against a description of
the old and the new state.

| files | what they model |
|---|---|
| `rbtree_nodes`, `rbtree_steps`, `rbtree_order`, `rbtree_insert`, `rbtree_erase`, `rbtree` | the parent-linked red-black tree of lib/rbtree.c, on the heap |
| `rbtree_shape` | the red-black rules as a statement about paths, and the height they imply |
| `vmap_areas`, `vmap_scan` | address-ordered areas, and the first-fit scan over them in 32-bit arithmetic (mm/vmalloc.c) |
| `vmap` | virtual address areas on top of the tree: allocation, lazy free, purge (mm/vmalloc.c) |
| `vmap_limits` | runs in which allocation leaves its window |
| `pcpu_areas` | several areas at fixed mutual offsets, placed from the top (mm/percpu.c) |
| `slub_state`, `slub_steps`, `slub_shrink`, `slub` | a slab cache and its CPUs (mm/slub.c) |
| `buddy_blocks`, `zone_lists`, `list_order`, `page_alloc` | the buddy system, its free lists and the order on them (mm/page_alloc.c) |
| `pcp_lists`, `watermark` | the per-CPU page lists and the watermark check (mm/page_alloc.c) |
| `pcpu_map`, `pcpu_chunk`, `pcpu_walk`, `pcpu_slots` | the area map of percpu chunks, their hints and slots, and the walk through them (mm/percpu.c) |
| `pcpu_astray` | a run in which that walk leaves its list |
| `memblock_regions`, `memblock` | boot-time region arrays (mm/memblock.c) |
| `radix_state`, `radix_steps`, `radix_needs`, `radix_tree` | the radix tree (lib/radix-tree.c) |
| `bootmem` | the boot-time bitmap allocator (mm/bootmem.c) |
| `mempool` | the reserve pool (mm/mempool.c) |
| `align`, `basics` | rounding to an alignment, the word and the page |

## How to read it

* A class has a predicate `Valid` (with `Tracked`, `Counted` or `Safe` beside it), which the
  constructor establishes and every method that models an operation keeps. So it holds after any
  run of operations, in any order.
* Ghost fields record what the C code does not store: which ranges or objects are live, which
  node hangs where, what was freed and flushed when. Nothing that is not ghost depends on them.
* In the tree, the word that packs parent and colour is two fields. The loops climb by
  reassigning `node` and `parent`; their invariants speak of the subtree in focus and of the path
  from there to the root, which the methods for parts of a function take as ghost parameters.
* Some blocks of long C functions are methods of their own; their comments give the lines.
* BUG_ON only prints (include/linux/debug.h:18-23) and locks are empty
  (include/linux/spinlock.h:4-11). A BUG_ON condition is a precondition, is proved not to occur,
  or (mm/memblock.c:201) is passed by as in the code; a section under a lock, or with a CPU's
  interrupts off on its own data, is one atomic step. For the slab cache and the pool,
  interleavings are sequences of such steps by different CPUs or tasks.
* Whether memory can be had is a parameter of the operation that asks for it.

## Where the text departs from its intent

* mm/percpu.c:421 moves from `map[1 + 2]`; the model moves from `map[i + 2]`. Chunks are those of
  mm/percpu.c:564-587, without empty entries; the branch at mm/percpu.c:343-344 is then not
  reached.
* lib/radix-tree.c:17 has `MAP_SIZE` for the mask; the model uses `MAP_SIZE - 1`. An index has 32
  bits.
* lib/bitmap.c:116-146 may return -1; the model's search returns the first clear bit at or after
  an index, or a value from the size up.
* mm/memblock.c:520-523 drops a region when the array cannot grow, and mm/memblock.c:475 takes
  `cnt - 1` of an unsigned count: additions and removals ask for a region in the array and a
  free place beyond the next.
* mm/page_alloc.c:1445 compares as unsigned; `Watermark` follows the code and says exactly when
  that goes wrong. include/linux/vmstat.h:59-63 is taken to return its `x`.
* mm/page_alloc.c:1260 finds the page to ask from the block and not from its pair, so that the
  upper half of a pair is never added last; `LastIfLower` has the condition and `UpperHalfFirst`
  an example. The last column of the table at mm/page_alloc.c:179-192 is unset and reads as the
  unmovable type.
* mm/percpu.c:67 has sizes up to 31 share a slot; by mm/percpu.c:279-284 those up to 15 do.
* mm/bootmem.c:234-236 shifts the limit before looking at it, so that one below a page is none.
* mm/vmalloc.c:382-458: the overflow guard lets a range that ends at exactly 2^32 through, and
  the step at mm/vmalloc.c:419 may wrap unnoticed. `AllocVmapArea` says exactly when, and
  `VmapLimits` has runs. mm/vmalloc.c:435-437 and mm/vmalloc.c:572-573 loop for ever where a
  purge is meant; in the model the allocation fails and a purge is a separate operation.
* mm/mempool.c:126-183: the array may become shorter than the minimum when three resizes race;
  `RacingResizes` is such a run and `Pool.Swap` has the exact condition.
* mm/percpu.c:476-502: chunks with less than an int free are in a slot that the walk never
  visits; `SmallSkipped` has the exact condition. The walk reads the next link of a chunk after
  a failure may have moved that chunk to the first list, and then takes the head of that list
  for a chunk; the model stops there (`Astray`). `StraysExactly` has the condition and
  `GoesAstray` a run.
* mm/percpu.c:201-224 ends without a return value where it succeeds; the model takes it for 0.
* mm/memblock.c:552 rounds in 32 bits, so that a size near 2^32 becomes 0; `AllocBase` says what
  comes of it (an empty region, too, so that `Valid` is lost), and `GrantsNothing` is such a run.
  Sizes and limits are 32-bit values.
* mm/page_alloc.c:1296-1335 would go round for ever with fewer pages listed than it is to free;
  the callers never do that, since the batch is at most the high mark.

## Model

| member | source | states |
|---|---|---|
| `RbTree.RbRoot.RotateLeft` | lib/rbtree.c:4-25 | The rotation as one change of memory: which links of which five nodes change and to what, with the root if the node was the top; every other link and every colour stays. |
| `RbTree.RbRoot.RotateRight` | lib/rbtree.c:27-48 | The mirror image, for any node that is a proper child of its parent. |
| `RbSteps.RotateLeftHolds` | lib/rbtree.c:4-25 | What the rotation makes of a tree in its surroundings: memory holds the rotated tree with all parent links consistent, wherever in the tree the node stood. |
| `RbSteps.RotateRightHolds` | lib/rbtree.c:27-48 | The mirror image. |
| `RbTree.RbRoot.InsertStep` | lib/rbtree.c:56-109 | Any round of the insertion loop, in all six cases, keeps the nodes and their order, keeps everything red-black but for one red node with a red parent, and moves that node strictly up the tree. |
| `RbTree.RbRoot.InsertColor` | lib/rbtree.c:50-113 | From a red leaf in an otherwise valid tree the loop ends in a valid red-black tree with the same in-order sequence. |
| `RbTree.RbRoot.Link` | include/linux/rbtree.h:42-49 | The exact memory after linking: a red childless node in the given slot, all else as it was. |
| `RbTree.RbRoot.Insert` | lib/rbtree.c:50-113 | Linking a leaf and recolouring keeps the tree valid, adds just the node to the set, and puts it directly before or after its parent in the order, the rest of the order unchanged. |
| `RbTree.RbRoot.EraseStepLeft` | lib/rbtree.c:124-154 | Any round of the removal loop under a left child keeps nodes, order and the one-black-short invariant, and either finishes or strictly lowers a rank. |
| `RbTree.RbRoot.EraseStepRight` | lib/rbtree.c:158-188 | The mirror image. |
| `RbTree.RbRoot.EraseColor` | lib/rbtree.c:115-193 | From a tree whose focus is one black node short, the loop terminates in a valid red-black tree with the same in-order sequence. |
| `RbTree.RbRoot.TakePlace` | lib/rbtree.c:212-237 | The exact memory after the in-order successor has taken the place of a node with two children, with the child, parent and colour that the repair starts from, also when the successor is the node's own right child. |
| `RbTree.RbRoot.Bypass` | lib/rbtree.c:242-255 | The exact memory after a node with at most one child was bypassed. |
| `RbTree.RbRoot.Successor` | lib/rbtree.c:208-210 | The walk ends at the first node, in order, of the right subtree, with the way from there to the root. |
| `RbErase.SpliceHolds` | lib/rbtree.c:206-237 | After the splice memory holds a tree without the erased node in which the successor has its position and colour. |
| `RbErase.SpliceOrder` | lib/rbtree.c:206-237 | The in-order sequence after the splice is the old one without the erased node. |
| `RbErase.UnlinkHolds` | lib/rbtree.c:242-255 | After the bypass memory holds the tree in which the child stands where the node was. |
| `RbTree.RbRoot.Erase` | lib/rbtree.c:195-260 | From any valid tree, terminates in a valid red-black tree (black root, no red node with a red child, equal black counts, consistent parent links) whose in-order sequence is the old one without the node. |
| `RbTree.RbRoot.First` | lib/rbtree.c:265-275 | The first node of the in-order sequence, or null for an empty tree. |
| `RbTree.RbRoot.Last` | lib/rbtree.c:277-287 | The last node of the in-order sequence, or null for an empty tree. |
| `RbTree.RbRoot.Next` | lib/rbtree.c:289-315 | The node that follows in the in-order sequence, null after the last. |
| `RbTree.RbRoot.Prev` | lib/rbtree.c:317-339 | The node that precedes in the in-order sequence, null before the first. |
| `RbTree.RbRoot.NodesNoDup` | lib/rbtree.c:265-339 | The in-order sequence has each node of the tree exactly once. |
| `RbTree.RbRoot.Forward` | tools/TestCase_RB_tree.c:87 | The loop from rb_first by rb_next terminates and visits exactly the nodes of the tree, each once, in order. |
| `RbTree.RbRoot.Backward` | lib/rbtree.c:277-339 | The loop from rb_last by rb_prev visits the same nodes in the opposite order. |
| `RbOrder.NextPrevInverse` | lib/rbtree.c:289-339 | One node is next after another exactly when the other is previous before it. |
| `RbNodes.PlugBalanced` | lib/rbtree.c:115-193 | A tree is balanced as a whole exactly when the focus is and its surroundings expect its black height: the local conditions that the loops maintain are the global one. |
| `RbNodes.PlugNoRedRed` | lib/rbtree.c:50-113 | Likewise for the colour rules. |
| `RbShape.BalancedIsEqualPaths` | lib/rbtree.c:115-260 | The level-by-level balance that the code maintains holds exactly when all ways from the root down to a missing child meet equally many black nodes. |
| `RbShape.Shallow` | lib/rbtree.c:195-260 | A path of n nodes in a red-black tree means at least 2^(n/2) - 1 nodes in all, up to rounding: the logarithmic height that the rules are for. |
| `Vmap.VmapSpace.FindPlace` | mm/vmalloc.c:324-335 | The walk down ends at the one empty slot that keeps the tree in address order; an area that overlaps none never hits the BUG branch. |
| `Vmap.VmapSpace.InsertVmapArea` | mm/vmalloc.c:318-348 | Inserts the area into tree and list alike: the list stays the in-order sequence of the tree, sorted by address, with the area at its place and nothing else moved. |
| `Vmap.VmapSpace.FindHole` | mm/vmalloc.c:382-433 | What the search comes to, for every layout and request: the least aligned place from the aligned start that is not blocked (an area blocks what overlaps it or begins within a page after it), exactly if the window has such a place; otherwise a place that ends at 2^32, or one at the bottom after a step has wrapped, exactly if the scan comes there; otherwise none. |
| `Vmap.VmapSpace.AllocVmapArea` | mm/vmalloc.c:364-460 | The promise (aligned, inside the window, clear of all areas with the guard page; refusal only if every place is blocked) is kept if and only if the scan does not come to a place that ends at 2^32, no step wraps to a place it is content with, and rounding the start does not wrap past a place; a granted range is inserted and nothing else changes; every other outcome changes nothing. |
| `Vmap.VmapSpace.FindStart` | mm/vmalloc.c:390-416 | The walk down and the step after it end at the area from which the scan must start: all before it end below the first address. |
| `VmapLimits.UpperHalf` | mm/vmalloc.c:382-458 | A run on an empty space in which a range that ends at 2^32 is handed out, whatever the end of the window. |
| `VmapLimits.LastPages` | mm/vmalloc.c:407-433 | A run of two requests for a page near the top, of which the second is given the page at address 0. |
| `VmapScan.ScanStep` | mm/vmalloc.c:418-431 | Stepping over an area in the way skips no place that is not blocked. |
| `VmapScan.WrappedEnds` | mm/vmalloc.c:418-431 | Once a step has wrapped, the scan is content exactly where the description of the wrapped outcome says, and nowhere else. |
| `VmapScan.OverflowGuard` | mm/vmalloc.c:386-387 | The wrap-around guard rejects exactly the sums above 2^32; a sum of exactly 2^32 passes and reads as 0. |
| `VmapScan.RoundUpIs` | mm/vmalloc.c:383 | The rounding in 32 bits is the true one, or exactly 2^32 less. |
| `Vmap.VmapSpace.FreeVmapArea` | mm/vmalloc.c:139-156 | Removes just the area from tree and list; the percpu hole is afterwards neither below the old one nor, if the area ended inside the window, below its end, and is one of these two. |
| `Vmap.RaiseAllIs` | mm/vmalloc.c:152-153 | Raising the hole for several areas comes to the largest of the old hole and of their ends inside the window. |
| `Vmap.VmapSpace.FreeNoflush` | mm/vmalloc.c:567-570 | A lazily freed area stays in place, flagged, and the lazy count grows by its pages. |
| `Vmap.VmapSpace.PurgeCollect` | mm/vmalloc.c:199-217 | The walk collects exactly the lazily freed areas in address order, with their page total, and bounds that contain each of them and are no wider than that. |
| `Vmap.VmapSpace.PurgeFlush` | mm/vmalloc.c:219-220 | A flush whose bounds contain all collected areas is what permits their release. |
| `Vmap.VmapSpace.PurgeRelease` | mm/vmalloc.c:222-228 | Exactly the collected areas leave tree and list; the percpu hole is afterwards not below the old one nor below the end of any of them that ended inside the window, and is one of these values. |
| `Vmap.VmapSpace.PurgeVmapAreaLazy` | mm/vmalloc.c:176-230 | The exact areas and percpu hole after a purge: exactly the lazily freed areas are gone (or only flagged when they come to no page), the hole is raised for them and no further, one flush over just their bounds is done exactly if they come to a page or it is forced, and the lazy count is 0, in a state where the flush-before-reuse invariant still holds. |
| `Vmap.HandOut` | mm/vmalloc.c:139-156 | Over any run: if each freed range was flushed since or is still in the tree, handing out a range disjoint from the tree never reuses a range without a covering flush after its free. |
| `Vmap.VmapSpace.FindNextPrev` | mm/vmalloc.c:1059-1090 | The two neighbours in address order between which an end address falls; false just when there is no area. |
| `Vmap.VmapSpace.DetermineEnd` | mm/vmalloc.c:1036-1055 | The highest aligned end at or below the upper neighbour and the window, with the neighbours moved down to fit it. |
| `PcpuAreas.Round` | mm/percpu.c:667-723 | Each round finishes, strictly lowers the base, or has one more piece checked at the same base; throughout, no higher aligned base would fit. |
| `PcpuAreas.FindBase` | mm/percpu.c:655-723 | The search terminates; for offsets and sizes that are multiples of the alignment, as the source demands, it finds the highest aligned base, from the one below the percpu hole down, at which all pieces are clear of all areas, and fails exactly if there is none. |
| `PcpuAreas.HighestWanted` | mm/percpu.c:655-723 | The base found is the highest that is aligned, not below the window, and so low that the pieces are clear of all areas and end by the window and below every area that ends above the percpu hole. |
| `PcpuAreas.SomeWanted` | mm/percpu.c:655-723 | One is found exactly when there is such a base. |
| `PcpuAreas.StartIsHighest` | mm/percpu.c:655-666 | The base that the search starts from is the highest from which the pieces end there. |
| `PcpuAreas.MoveBelow` | mm/percpu.c:688-711 | Moving the base below an area in the way skips no aligned base that would fit. |
| `PcpuAreas.Underflow` | mm/percpu.c:672-686 | The test on the sum with the last end detects an unsigned base that went below zero. |
| `PcpuAreas.InsertPieces` | mm/percpu.c:726-733 | All pieces go in at their offsets; none of the areas already there changes. |
| `PcpuAreas.GetVmAreas` | mm/percpu.c:593-758 | With memory, and offsets and sizes that are multiples of the alignment, a base is found if and only if some aligned base fits before or after a purge, and it is the highest one; then every piece is an area at base plus its offset, inside the window and disjoint from all others, no area but those waiting for a flush is gone, and the percpu hole is where the highest piece starts. |
| `Slub.KmemCache.AllocFast` | mm/slub.c:1107-1118 | Hands out the head of the CPU's list, an object nobody else had, and moves on to the word it links to. |
| `Slub.KmemCache.Refill` | mm/slub.c:1019-1045 | An object is found exactly when objects were freed to the CPU's slab meanwhile, and it is the head of the slab's list, the CPU taking the rest; otherwise the CPU gives the slab up, which is no longer frozen. |
| `Slub.KmemCache.TakePartial` | mm/slub.c:944-965 | Takes the first slab of the partial list that is not locked, hands out the head of its list and gives the CPU the rest, the list keeping its order; fails exactly when all are locked. |
| `Slub.KmemCache.NewSlab` | mm/slub.c:1630-1670 | A fresh slab has all its objects on one list in order, none in use, and belongs to no CPU and no list yet. |
| `Slub.KmemCache.Install` | mm/slub.c:1064-1073 | A CPU that meanwhile came by another slab gives that back first; then the fresh slab is its own, its first object is handed out and the CPU has the others. |
| `Slub.KmemCache.SlabAlloc` | mm/slub.c:1097-1126 | From where an object comes: from the head of the CPU's list; if that is empty, from the head of the list of the CPU's slab; if that is empty, from the first slab of the partial list that is not locked; only if there is none from a new page, its first object. The slabs and lists that are not touched are said to stay; the object was not live before and is live after; NULL means no new page and every partial slab locked. |
| `Slub.KmemCache.SlabFree` | mm/slub.c:1812-1835 | Exactly this object stops being live; it heads the CPU's list if the CPU holds its slab and the slab's list if not, linked to the old head; its slab is discarded exactly when unfrozen and without a live object. |
| `Slub.KmemCache.SlowFree` | mm/slub.c:1743-1793 | What the slow path does to slab, link word and partial list, in each of its cases: the list gains the slab at its end, loses it, or stays, the others in their order. |
| `Slub.KmemCache.UnfreezeSlab` | mm/slub.c:630-667 | The slab is kept exactly if one of its objects is live or the partial list is short, and joins that list, at the right end, exactly if it has a free object. |
| `Slub.KmemCache.DeactiveSlab` | mm/slub.c:672-700 | All of the CPU's free objects go back to the slab, and the slab to where its state says. |
| `Slub.KmemCache.FlushCpu` | mm/slub.c:2287-2293 | The CPU ends without slab or list; no object becomes live or stops being live. |
| `Slub.KmemCache.FlushAll` | mm/slub.c:2305-2309 | The same for all CPUs. |
| `Slub.KmemCache.Shrink` | mm/slub.c:2459-2500 | Exactly the unlocked slabs without an object in use are given back; the partial list that remains is a permutation of the others, fullest first, equally full ones in the reverse of their old order. |
| `Slub.KmemCache.UserWrite` | mm/slub.c:1097-1126 | Whatever an owner writes into a live object, over the link word too, breaks nothing. |
| `SlubState.OnePlace` | mm/slub.c:1010-1126 | In every reachable state each object of a slab is in exactly one place, once: live, on the slab's list, or on the list of the one CPU that froze the slab. |
| `SlubState.WhenPartial` | mm/slub.c:630-667 | In every reachable state a slab is on the partial list exactly when no CPU holds it and not all of its objects are live. |
| `SlubState.NoneDangling` | mm/slub.c:1743-1793 | A live object's slab has not been discarded and counts it. |
| `SlubState.InuseBounded` | mm/slub.c:672-700 | The inuse count is the number of objects that are live or on a CPU's list, between 0 and the slab's size. |
| `SlubState.ChainUnique` | mm/slub.c:1655-1663 | The link words alone determine the list they stand for. |
| `SlubSteps.PushPop` | mm/slub.c:1097-1126 | On one CPU freeing and allocating undo each other: the object freed last is handed out first, and allocating and freeing at once restores the whole state. |
| `BuddyBlocks.FlipIsBuddy` | mm/page_alloc.c:1154-1158 | Turning over the bit of the order in a page index gives the other half of the block of the next order. |
| `BuddyBlocks.MaskedIndex` | mm/page_alloc.c:1206-1271 | Turning that bit in the masked index and moving by the difference leads to the same buddy. |
| `BuddyBlocks.BuddyFacts` | mm/page_alloc.c:1154-1158 | The buddy is aligned, its buddy is the block itself, and the two halves are adjacent in an aligned block of the next order. |
| `BuddyBlocks.Unique` | mm/page_alloc.c:1206-1271 | Aligned, disjoint and fully coalesced blocks are determined by the set of pages they cover. |
| `BuddyBlocks.FreeOrderIrrelevant` | mm/page_alloc.c:1206-1271 | Freeing the same blocks in any two orders ends in the same free blocks. |
| `BuddyBlocks.FreeUndoesAlloc` | mm/page_alloc.c:1206-1527 | Allocating a block and freeing it restores exactly the free blocks there were. |
| `PageAlloc.Zone.FreeOnePage` | mm/page_alloc.c:1206-1271 | Adds exactly the pages of the block to the free ones and leaves the free blocks aligned, disjoint, fully coalesced and correctly counted; the merged block goes on the list of its migratetype, first or last as said below; what it merged with leaves the lists, and all others stand where they stood. |
| `PageAlloc.LastIfLower` | mm/page_alloc.c:1243-1268 | A block is meant to be added last when the buddy of its pair is free; the code asks another page, so that this happens exactly for the lower half of a pair. |
| `PageAlloc.UpperHalfFirst` | mm/page_alloc.c:1243-1268 | Zone contents in which the buddy of the pair is free and the block is added first all the same. |
| `PageAlloc.Zone.FreeOne` | mm/page_alloc.c:1273-1283 | The same, with the free-page counter kept equal to the sum over the orders. |
| `PageAlloc.Zone.Expand` | mm/page_alloc.c:1484-1499 | Of the block cut up exactly the lowest part stays out; the rest becomes free, coalesced blocks, one of each order, each first on its list of the given type; no other list changes. |
| `PageAlloc.Zone.RmqueueSmallest` | mm/page_alloc.c:1505-1527 | Takes the head of the first non-empty list of the type, going up in order; the result was wholly free and is aligned, nothing else stops being free, and NULL means all these lists are empty; every list afterwards, in its order. |
| `PageAlloc.Zone.MoveFreepages` | mm/page_alloc.c:1534-1576 | Every free block of the range ends on the list of the new type, the highest first, before all others; none outside moves, and the result is the number of free pages in the range. |
| `PageAlloc.Zone.MoveFreepagesBlock` | mm/page_alloc.c:1578-1597 | Every free block of the pageblock, as far as that lies in the zone, ends on the list of the new type, and every other block stays on its list. |
| `PageAlloc.Zone.RmqueueFallback` | mm/page_alloc.c:1613-1675 | Takes the head of the largest-order list that another type offers, within an order for an unmovable request the reclaimable before the movable one, for a reclaimable request the unmovable before the movable one, for a movable request the reclaimable before the unmovable one; NULL exactly when no type but the reserve has a block; and what becomes of the lists and of the pageblock's type, as below. |
| `PageAlloc.Zone.TakeFallback` | mm/page_alloc.c:1634-1671 | When the remainder and the pageblock change type: exactly with 32 pages and more, reclaimable requests or disabled grouping, the pageblock only with 512 of its pages free, or always for a block of its size; then all free blocks of the pageblock go to the lists of the new type and those of others stay, and otherwise all blocks stay; every list afterwards, in its order. |
| `PageAlloc.Zone.Rmqueue` | mm/page_alloc.c:1681-1704 | Tries the type, then the others in the order said above, then the reserve; the block is aligned, was wholly free and is all that stops being free; every list and pageblock type afterwards; NULL exactly when no unmovable, reclaimable, movable or reserve list has a block of sufficient order. |
| `PageAlloc.Zone.RmqueueBulk` | mm/page_alloc.c:1711-1741 | The blocks taken are disjoint and were free, each being what a single request gets from what the one before left; fewer than asked for means exhaustion; the list has them in the order taken (reversed when cold), and the counter falls by their pages. |
| `PageAlloc.FallbackTypes` | mm/page_alloc.c:179-192 | A type and its fallbacks together are all the types but the reserve: the table offers nothing exactly when no other type has a block. |
| `ListOrder.DownFalls` | mm/page_alloc.c:1551-1573 | The blocks that move_freepages moves stand in the order of falling addresses. |
| `ListOrder.AmongIs` | mm/page_alloc.c:1206-1271 | What is left of a list has exactly the blocks of it that are still free. |
| `ListOrder.OnePlaceOnly` | mm/page_alloc.c:1206-1271 | A free block stands on one list only, and in one place of it. |
| `PcpLists.FreePcppagesBulk` | mm/page_alloc.c:1296-1335 | Terminates when at least that many pages are listed; exactly that many leave the tails of the lists, become free, and are added to the counter; which list gives how many is what one turn after the other gives, each list giving in its turn one page for every list passed on the way and for every page that was owed; each page, in that order, goes to the free list of the type it is tagged with, in the block it became part of, and blocks that it did not merge with stay. |
| `PcpLists.Evenly` | mm/page_alloc.c:1312-1318 | While no list runs out the lists give evenly, in turn: their shares differ by one page at most. |
| `PcpLists.TwiceAsMuch` | mm/page_alloc.c:1305-1331 | With one list empty, the one after it gives two pages for each that the third gives: the fuller lists give more. |
| `PcpLists.PageSets.TakeCached` | mm/page_alloc.c:1824-1874 | Hands out a page nobody had: the head of the CPU's list, or its tail when cold; an empty list first gets a batch from the zone, or fewer exactly on exhaustion, and the page handed out is then the first one taken, hot or cold; fails exactly when list and zone are exhausted; free plus cached pages fall by one. |
| `PcpLists.PageSets.TakeBlock` | mm/page_alloc.c:1824-1874 | The same for a larger block straight from the zone, chosen as said for a single request, with every list and pageblock type afterwards. |
| `PcpLists.PageSets.FreeHotColdPage` | mm/page_alloc.c:1341-1391 | The page goes to the right end of the right list, or past the lists if its pageblock is isolated, to the isolated free list; a list set that reaches its high mark loses exactly a batch, which goes where the bulk free says; no page is lost or doubled. |
| `PcpLists.PageSets.FreePages` | mm/page_alloc.c:1410-1418 | Frees a block of any order: a single page as above, a larger block to the free list of its pageblock's type, with the blocks that it does not merge with left where they were; free plus cached pages grow by exactly its pages. |
| `PcpLists.Step` | mm/page_alloc.c:1341-1391 | Over any run every managed page is in exactly one place: free in the zone, on one list of one CPU, or handed out. |
| `Watermark.ZoneWatermarkOk` | mm/page_alloc.c:1432-1463 | The loop with its early exits computes exactly the conjunction of the tests, the first one made on unsigned words, against a mark of which a half is taken off for ALLOC_HIGH and a quarter of what is left for ALLOC_HARDER. |
| `Watermark.HalvedIs` | mm/page_alloc.c:1448-1461 | The mark of the test for an order is the first one divided by the size of the blocks of that order, rounded down. |
| `Watermark.PassMeansBlock` | mm/page_alloc.c:1432-1463 | For order 1 and more a passing check means that a free block of at least that order exists. |
| `Watermark.FirstTestMeans` | mm/page_alloc.c:1445-1446 | The first test means what it should exactly when the free pages cover the request; below that the difference wraps and the test passes. |
| `Watermark.EmptyZonePasses` | mm/page_alloc.c:1432-1463 | For a single page the check passes in a zone without a free page. |
| `Watermark.PassMeansAboveMark` | mm/page_alloc.c:1432-1463 | Given a pass, the free pages are above the mark exactly if, for a single page, at least two are free; for higher orders always. |
| `PcpuChunk.Chunk.constructor` | mm/percpu.c:564-587 | A new chunk is one free block with a tight hint. |
| `PcpuChunk.Chunk.NeedToExtend` | mm/percpu.c:175-187 | 0 exactly if there is room for two more entries; otherwise enough room, and less than twice what is needed beyond the default. |
| `PcpuChunk.Chunk.ExtendAreaMap` | mm/percpu.c:201-224 | The map gets the new length if there is memory for it, and its entries stay. |
| `PcpuChunk.Chunk.SplitBlock` | mm/percpu.c:257-277 | The exact map: the block replaced by head, middle and tail, the empty ones left out. |
| `PcpuChunk.Chunk.AllocArea` | mm/percpu.c:315-391 | Finds the first block with room and returns its lowest aligned offset, not live before; the exact map and hint afterwards; at most six bytes beyond the request leave the free count; fails exactly when no block has room and then sets the hint to the largest free block. |
| `PcpuChunk.FitsMeans` | mm/percpu.c:325-337 | A block has room in the code's sense exactly when some aligned offset has the whole request inside the block. |
| `PcpuChunk.Chunk.Carve` | mm/percpu.c:342-383 | Cutting an area out of a block, a small head going to the used block before and a small tail staying with the area, keeps the map sound and moves no live area; the hint stays unless the whole map has been looked at. |
| `PcpuChunk.Chunk.MergeHead` | mm/percpu.c:342-352 | The block before is never free, and grows by the head; map, free count and hint stay sound. |
| `PcpuChunk.Chunk.FreeArea` | mm/percpu.c:395-427 | Exactly this area stops being live; the exact map, the block merged with free neighbours on both sides, and the exact hint. |
| `PcpuChunk.Chunk.TurnOver` | mm/percpu.c:406-423 | The exact map after freeing and merging. |
| `PcpuChunk.LiveApart` | mm/percpu.c:315-427 | In every reachable state live areas are disjoint and inside the unit. |
| `PcpuChunk.AllFreed` | mm/percpu.c:395-427 | Once every area is freed the map is a single free block again. |
| `PcpuMap.Carved` | mm/percpu.c:359-379 | Taking the middle of a free block keeps the sum of sizes, the separation of free blocks and all live areas where they are. |
| `PcpuMap.Freed` | mm/percpu.c:406-423 | Freeing a block and joining it with its free neighbours keeps them likewise, and the free bytes grow by the whole block. |
| `PcpuChunk.CarvedHint` | mm/percpu.c:371-376 | The hint rule after an allocation never leaves the hint below a free block. |
| `PcpuSlots.Allocator.Relocate` | mm/percpu.c:302-311 | Afterwards every chunk is on the list of its slot, once, and on no other; the chunk went to the head of a higher list or to the tail of a lower one, and all others stand as they stood. |
| `PcpuSlots.SlotBounds` | mm/percpu.c:279-284 | Which sizes share a slot: those below 16 the first, and each further one what is below twice as much, 16 to 31, 32 to 63 and so on. |
| `PcpuSlots.EndSlots` | mm/percpu.c:285-298 | The bottom slot is exactly for chunks with less than an int free, in all or by the hint, and the top slot exactly for chunks that are wholly free. |
| `PcpuSlots.NotSkipped` | mm/percpu.c:476-502 | For requests of at least an int, a chunk that could serve the request is in a slot the walk visits and is not turned away by its hint. |
| `PcpuSlots.SmallSkipped` | mm/percpu.c:476-502 | For smaller requests such a chunk is skipped exactly when it has less than an int free, in all or in one piece as far as the hint knows. |
| `PcpuSlots.SkippedExample` | mm/percpu.c:476-502 | A concrete chunk that is skipped although it has room. |
| `PcpuSlots.Allocator.AllocIn` | mm/percpu.c:315-391 | Allocating in a chunk keeps every chunk on the list of its slot, and moves this chunk as said above or not at all; a failure leaves all lists alone or moves it to the end of a lower one. |
| `PcpuSlots.Allocator.FreeIn` | mm/percpu.c:395-427 | Freeing in a chunk keeps every chunk on the list of its slot too, moving this one alike, and never brings blocks smaller than an int where there were none. |
| `PcpuSlots.Allocator.Search` | mm/percpu.c:474-502 | The outcome of the search for every state: the first chunk that the walk does not get past decides; with room it serves the request, without room it has been moved to the first list and the walk is astray; no memory exactly if more maps are to be enlarged on the way than can be; none left exactly if every chunk is got past, and then none of those (for an int or more, no chunk at all) has room; no other chunk's areas change. |
| `PcpuSlots.Allocator.WalkList` | mm/percpu.c:479-501 | The walk through one list by the links that the chunks have when it reads them: it gets past all of them or ends at the chunk that decides. |
| `PcpuWalk.StraysExactly` | mm/percpu.c:476-502 | The walk leaves its list if and only if the first chunk it does not get past has a hint no lower than the request, no room for it, and no free block of an int. |
| `PcpuWalk.IntSizedStays` | mm/percpu.c:476-502 | If no chunk on the way has a block smaller than an int, the walk never leaves its list. |
| `PcpuWalk.TriedStop` | mm/percpu.c:471-493 | Starting over after a map was enlarged changes neither the chunk that decides nor how many maps are still to be enlarged. |
| `PcpuAstray.GoesAstray` | mm/percpu.c:476-502 | A run of eight requests and frees, all legal, after which a request for four bytes makes the walk leave its list. |
| `PcpuSlots.Allocator.Create` | mm/percpu.c:506-513 | A new chunk is empty and in the top slot. |
| `PcpuSlots.Allocator.PcpuAlloc` | mm/percpu.c:433-516 | For every state and request exactly when it is illegal, served by an old chunk, served by a new one, refused for want of memory, or sent astray; never astray, and so served whenever there is memory, while no block is smaller than an int, which requests of at least an int keep so; the area is aligned, new and the only change to live areas. |
| `Memblock.MemblockType.RemoveRegion` | mm/memblock.c:263-273 | The exact array without the region. |
| `Memblock.MemblockType.CoalesceRegions` | mm/memblock.c:277-282 | The exact array with the two regions joined. |
| `Memblock.MemblockType.AddRegion` | mm/memblock.c:431-526 | For a range disjoint from all regions the set of addresses becomes the union, and for a range that is not empty the array stays sorted, disjoint and without adjacent regions; a range that is a region already changes nothing; the result counts the coalescings. |
| `Memblock.MemblockType.Join` | mm/memblock.c:459-487 | Growing a region that the range touches, and joining it with the next if they now touch, is the union too. |
| `Memblock.MemblockType.PutSorted` | mm/memblock.c:499-514 | The exact array after the shifting loop: the range at its sorted place. |
| `Memblock.MemblockType.Remove` | mm/memblock.c:286-333 | Fails exactly when no region contains the range; else the set of addresses loses exactly the range, and the array keeps its form. |
| `Memblock.MemblockType.Search` | mm/memblock.c:585-602 | Binary search agrees with membership in the set of addresses, and the region found contains the address. |
| `Memblock.MemblockType.OverlapsRegion` | mm/memblock.c:143-156 | A region that overlaps the range, or the knowledge that none does. |
| `Memblock.Memblock.FindRegion` | mm/memblock.c:161-192 | Terminates with the highest aligned place in the window that misses every reserved region, or with none exactly if there is none. |
| `Memblock.Memblock.FindBase` | mm/memblock.c:196-233 | The highest aligned address whose range lies in a memory region clipped to the limits and misses every reserved region; an error only if none exists. |
| `Memblock.Memblock.AllocBase` | mm/memblock.c:546-561 | The highest such address, with exactly the size as rounded in 32 bits added to the reserved set; all bytes asked for are reserved if and only if the size plus the alignment is at most 2^32; up to there the ranges returned over any run are pairwise disjoint. |
| `Memblock.GrantsNothing` | mm/memblock.c:546-561 | A run in which a request for 0xFFFFF001 bytes is granted and nothing is reserved. |
| `Memblock.RoundUp32Is` | mm/memblock.c:124-127 | The rounding in 32 bits is the true one exactly if size plus alignment is at most 2^32, and 0 above. |
| `RadixTrees.InRange` | lib/radix-tree.c:368-378 | An index is at most the maximum of a height exactly when the digits above that height are zero. |
| `RadixTrees.Maxima` | lib/radix-tree.c:368-386 | The maxima of all seven heights. |
| `RadixTrees.RadixTree.Extend` | lib/radix-tree.c:495-534 | The tree grows to the least height that has a place for the index and stands for the same map; it fails exactly if there are fewer nodes than levels to raise, and stops that many levels up. |
| `RadixTrees.RadixTree.Insert` | lib/radix-tree.c:544-603 | Refines insertion in a finite map: EEXIST exactly if the key is present; ENOMEM if and only if there are fewer nodes than the request needs, and then the map is unchanged; every node taken is in the tree; a failure leaves an empty node behind exactly if it had nodes beyond those for raising, and excess height exactly as stated; without failure no node is empty and the height is minimal. |
| `RadixNeeds.VacantUnder` | lib/radix-tree.c:561-586 | Under a root that leads to the index by an empty slot, as one just raised does, every lower level of the path lacks its node. |
| `RadixTrees.RadixTree.WalkDown` | lib/radix-tree.c:561-586 | The walk ends at the leaf of the index, making exactly the nodes the path lacks, and fails if and only if there are fewer; the slot it finds is empty exactly if the key is absent. |
| `RadixTrees.RadixTree.Shrink` | lib/radix-tree.c:311-366 | Lowers the tree as far as its root has only its first slot in use; the map stays, the height becomes minimal. |
| `RadixTrees.RadixTree.FindPath` | lib/radix-tree.c:244-263 | The slot found holds exactly what the map has for the key, at the end of the recorded path. |
| `RadixTrees.RadixTree.Delete` | lib/radix-tree.c:220-307 | Returns what the map has for the key and removes exactly that; every node left empty goes, and the height stays minimal. |
| `RadixTrees.RadixTree.ReleaseNode` | lib/radix-tree.c:274-303 | An empty node and the slot that led to it go together, and only the node above may now be empty. |
| `RadixTrees.MinimalHeight` | lib/radix-tree.c:311-366 | In runs without allocation failure the height is the least that has a place for the largest key. |
| `RadixTrees.EmptyNodeStays` | lib/radix-tree.c:544-603 | A run: inserting index 64 into an empty tree with memory for one node leaves an empty node and more height than needed. |
| `RadixState.UsedChanges` | lib/radix-tree.c:591-600 | Writing a slot changes the number of slots in use by what the count is changed by. |
| `RadixSteps.PruneSane` | lib/radix-tree.c:274-303 | Removing an empty node keeps counts, positions and the map in order. |
| `RadixSteps.LowerSane` | lib/radix-tree.c:311-366 | Putting the root's only child in its place keeps the map: every key's digit at that level was 0. |
| `RadixSteps.RaiseSane` | lib/radix-tree.c:495-534 | A new root above the old keeps the map. |
| `Bootmem.AlignIdx` | mm/bootmem.c:41-51 | The next index that is aligned as an absolute page number. |
| `Bootmem.FindRun` | mm/bootmem.c:261-279 | Terminates with the first aligned run of clear pages from a page on, or with none exactly if there is none. |
| `Bootmem.BootmemData.FreeBits` | mm/bootmem.c:62-78 | Exactly the bits of the range are cleared, and the hint does not point beyond them. |
| `Bootmem.BootmemData.ReserveBits` | mm/bootmem.c:80-103 | Exactly the bits of the range are set; the exclusive reserve never meets a set bit. |
| `Bootmem.BootmemData.FreeBootmem` | mm/bootmem.c:173-183 | Exactly this range stops being live, and exactly its whole pages are cleared, so that pages it shares with a live range stay marked; the hint comes back to the first of them, unless it was before. |
| `Bootmem.BootmemData.Release` | mm/bootmem.c:173-183 | Handing over memory that no allocation has used clears exactly its bits and disturbs no live range. |
| `Bootmem.BootmemData.AllocCore` | mm/bootmem.c:211-323 | The range is aligned, ends by the end of the node and by a limit of at least a page, does not begin in a page before the goal's if that is usable, and is disjoint from all live ranges even when it starts in the last one's page, as it does exactly if that one ended inside the page before the run; it uses the first fitting run from the hint, or if there is none from the goal; failing means no fitting run at or above the goal, or at all, exists. |
| `Bootmem.BootmemData.FindFrom` | mm/bootmem.c:252-279 | The hint is only a shortcut: it decides exactly when a run from there on exists, and otherwise the search is repeated from the start. |
| `Bootmem.BootmemData.Commit` | mm/bootmem.c:281-301 | Where the range starts: at the first aligned byte after the last one if that ended inside the page before the run, and otherwise with the run; that its bytes are nobody's, and exactly which pages are newly marked. |
| `Mempool.Pool.AddElement` | mm/mempool.c:14-18 | The element is on top, the rest as before. |
| `Mempool.Pool.RemoveElement` | mm/mempool.c:20-24 | The top element comes off, the rest as before. |
| `Mempool.FullPool` | mm/mempool.c:58-72 | A new pool is filled with distinct elements up to its minimum. |
| `Mempool.Pool.AllocBacking` | mm/mempool.c:213-215 | An element from the backing allocator is with the client and nowhere else. |
| `Mempool.Pool.AllocPool` | mm/mempool.c:217-223 | Takes an element from the pool to the client, and fails exactly when the pool is empty. |
| `Mempool.Pool.Free` | mm/mempool.c:254-273 | The element goes to the pool if there is room under the lock, whatever the unlocked look saw, and otherwise back to the backing allocator. |
| `Mempool.Pool.ResizeStart` | mm/mempool.c:134-145 | The first locked section of a resize: for each of its three cases what becomes of counts, elements and tasks; it keeps the pool safe. |
| `Mempool.Pool.ShrinkTurn` | mm/mempool.c:136-143 | One turn of the shrinking loop: the last element goes to the task's hand or the minimum is set, and nothing else changes; a target above the array's length leaves the minimum above it. |
| `Mempool.Pool.FreeHeld` | mm/mempool.c:139 | Between the locked sections the held element goes back to the backing allocator. |
| `Mempool.Pool.Swap` | mm/mempool.c:152-166 | The arrays are swapped with no element lost; the pool is safe afterwards exactly if the new array is no shorter than the target of every shrinking resize in a window. |
| `Mempool.Pool.RefillAlloc` | mm/mempool.c:167 | With the lock dropped, a fresh element is in the task's hand. |
| `Mempool.Pool.AddSection` | mm/mempool.c:170-178 | It joins the pool if that still has room, and otherwise goes back. |
| `Mempool.Pool.GrowFails` | mm/mempool.c:168-169 | A failed allocation ends the resize and harms nothing. |
| `Mempool.RacingResizes` | mm/mempool.c:126-183 | A run of three resizes after which the minimum is above the length of the array. |

## Left out

- Vmap.VmapSpace.AllocVmapArea: a range that ends at exactly 2^32, or one at the bottom after a wrap, is reported and not inserted, since the one ends at address 0 and the other may overlap areas, so that neither has a place in the order.
- PcpuSlots.Allocator.Search: the changes that others may make while the lock is dropped to enlarge a map are not modelled, nor is what the walk does once it is astray.
- PcpuChunk.Chunk.SplitBlock: the map is a sequence, so the in-place moves of its entries are not modelled, only what they result in.
- PcpuChunk.Chunk.ExtendAreaMap: the map is a sequence that keeps its entries, so the copy to the new array is not modelled, only its length.
- Memblock.MemblockType.AddRegion: enlarging a full array (memblock_double_array) is not part of this model.
- Mempool.Pool.Swap: kernel allocation and release of the arrays themselves are not modelled.
- rb_replace_node and the debugging aids of lib/rbtree.c.
- The vmap_block layer, page tables, and when a purge is triggered (lazy_max_pages) in mm/vmalloc.c.
- The retry of a slab allocation with other nodes, NUMA, debugging and cache creation in mm/slub.c.
- __alloc_pages_slowpath, zonelists, compound pages, page flags other than PageBuddy, and statistics other than the free-page counter in mm/page_alloc.c.
- Population and mapping of percpu chunks, the reserved chunk, and reclaiming empty chunks in mm/percpu.c.
- Tags, preloading and RCU in lib/radix-tree.c; none of them changes what insertion and deletion do to the map.
- Several nodes, reserve_bootmem and freeing memory that was never returned (other than as the boot code hands it over) in mm/bootmem.c.
- Destroying a pool and waiting for an element in mm/mempool.c.
- Boot code, command line, physical memory simulation, lib/sort.c, lib/vsprintf.c, mm/highmem.c and kernel/resource.c.
