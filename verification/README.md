# A verified model of the VA space allocator

The allocator hands out ranges of virtual addresses.  It comes in two forms.  The default
allocator serves every size from one reservation by best fit.  The arena allocator keeps eight
size classes, each with a list of reservations: slabs for small sizes, best-fit heaps for the
others.  Below both lie three intrusive structures that change pointers in place: a heap-ordered
radix tree, an AVL tree with parent links, and a bit vector packed in 64-bit words.

The model keeps that form.  Nodes, trees, blocks, slabs, reservations and allocators are classes
whose methods update their fields as the code does, branch by branch.  Ghost fields name what
the pointers stand for (the keys of a tree and their nodes, the layout of a range, the live
blocks), every method states its effect in those terms, and lemmas about them state what the
program is for.

| file | part of the program |
|---|---|
| `BitPaths`, `RadixShape` | positions and key paths of the radix tree, and its shape as a map |
| `RadixNodes`, `RadixPlan`, `RadixTree` | its nodes, pointer surgery, and the three operations |
| `AvlNodes`, `AvlPlan`, `AvlBalance` | nodes of the AVL tree, in-order positions, balance as a value |
| `AvlRebalance`, `AvlSplice`, `AvlSurgery`, `AvlTree` | rotations and the climb, splicing, the operations |
| `AddrTracker` | disjoint address ranges over the AVL tree |
| `BlockLayout`, `BlockRuns` | layouts of a reserved range as values, and whole runs of calls |
| `BlockHeap`, `DefaultAllocator` | block list and size tree in step, and the allocator over them |
| `Limits`, `BitWords`, `Bitvector`, `SlabAllocator` | machine sizes, words, the bit vector, and slabs |
| `Reservations`, `Arenas` | reservations with either strategy, and the arena allocator |

What the world decides is a parameter of each call: whether memory can be had (`callocOk`,
`blockOk`, `strategyOk`, `reservationOk`) and at which address a range is reserved (`base`, 0 if
it is not).  `container` and `value` of a node stand for what `container_of` and the `value`
pointer lead to.  A failing `assert` of the code is a state that the contracts exclude.

The code and its own remarks differ in one place.  The used size of the arena allocator is said
to be only approximate because blocks are rounded up (src/va_allocator_arenas.c:483-485).  In
fact each free takes off the size of the whole reservation (src/va_allocator_arenas.c:513).  The
model follows the code; `Arenas.Allocator.AllocThenFree` says exactly when the count comes back.

## Model

| member | source | states |
|---|---|---|
| `RadixTree.Tree.FindGEQ` | utils/radix.c:218-256 | for every valid tree and key in range, the primary node of the least stored key at or above `key`; null exactly when every stored key is smaller |
| `RadixTree.Tree.Insert` | utils/radix.c:156-216 | the tree stays valid (paths, heap order, all links agree), gains exactly the node, and the bucket of its key gets it at the end |
| `RadixTree.Tree.Descend` | utils/radix.c:173-208 | the push-down loop ends with the primary node of `key` if it is stored and nothing changed, or with a node in hand that belongs into the empty slot found |
| `RadixTree.Tree.Remove` | utils/radix.c:258-288 | the tree stays valid, loses exactly the node, and its bucket loses just that entry, whether lone, primary or listed |
| `RadixTree.Tree.RemoveListed` | utils/radix.c:278-286 | a primary node with others of its key hands its place on before it leaves the list; every bucket stays a ring behind its primary node |
| `RadixTree.Tree.InsertThenRemove` | utils/radix.c:166-288 | inserting a node and removing it again restores the buckets and the very shape of the tree |
| `RadixPlan.RemoveAlone` | utils/radix.c:258-277 | swapping with the smaller child down to a leaf and cutting it there leaves a valid tree over the other nodes |
| `RadixPlan.Exchange` | utils/radix.c:111-154 | swapping a parent and a child in place exchanges just the nodes and keys at the two positions, every other position keeps its node, and all links agree again |
| `RadixPlan.TakeOver` | utils/radix.c:87-108 | a blank node takes over a position with its own key, all links agree again, and the old node comes out blank |
| `RadixShape.WalkSteps` | utils/radix.c:226-250 | one step down keeps the search invariant: every key that could answer is below, is the one found, or is in the last right subtree skipped |
| `RadixShape.WalkEnds` | utils/radix.c:226-255 | at the end of the path the node found, or else the root of the last right subtree skipped, holds the least key at or above the one sought |
| `RadixShape.SinkKeepsValid` | utils/radix.c:258-277 | exchanging the removed node with its smaller child keeps path and heap order everywhere but at the removed node |
| `RadixShape.KeysDistinct` | utils/radix.c:156-216 | no key is stored at two positions |
| `RadixShape.ShapeFromKeys` | utils/radix.c:156-165 | position `i` is occupied exactly if some stored key leads there past the keys above, and then by the least of them |
| `RadixShape.Canonical` | utils/radix.c:156-288 | two valid trees over the same set of keys have the same shape |
| `AvlTree.Tree.InsertOrReturnExisting` | utils/avl.c:280-312 | an equal key leaves every pointer alone and its node is returned; otherwise the tree stays valid and gains exactly the node at its place in the order |
| `AvlTree.Tree.Remove` | utils/avl.c:322-386 | the tree stays valid, and its order is the old one without exactly the given node |
| `AvlRebalance.Rebalance` | utils/avl.c:192-227 | the climb ends with exact stored heights and every balance in -1..1, nodes and order unchanged |
| `AvlRebalance.Step` | utils/avl.c:197-226 | one pass of the climb keeps nodes and order and moves the only possible fault to a node that stands higher |
| `AvlBalance.StepTilted` | utils/avl.c:192-227 | rebuilding around one node with a height equal to the recorded one, or off by one as the mode allows, keeps the invariant of the climb |
| `AvlNodes.Rotate` | utils/avl.c:148-190 | a rotation moves just the three links concerned and recomputes the two heights, for both sides |
| `AvlSurgery.DetachInner` | utils/avl.c:336-368 | taking out a node with two children by way of its successor, direct or deep, leaves the other nodes in order, off balance at most where the climb is to start |
| `AvlTree.FibonacciSize` | utils/avl.c:121-227 | a subtree of stored height `h` holds at least Fib(h + 2) - 1 nodes |
| `AvlTree.Tree.HeightIsLogarithmic` | utils/avl.c:42-67 | Fib(height + 2) and 2^(height / 2) are at most the number of nodes plus one, where each find takes at most height steps |
| `AvlTree.Tree.FindWithNodeComparator` | utils/avl.c:42-54 | finds a node that compares equal, or null exactly when there is none, for any comparison that changes sign once along the order |
| `AvlTree.Tree.FindGEQ` | utils/avl.c:246-261 | the node with the least key at or above `key`, null if every key is smaller, wherever `key` compares rightly; null if it compares as larger than the root and all behind it, some node if as smaller than the root and all before it; in at most height steps |
| `AvlTree.Tree.FindLEQ` | utils/avl.c:263-278 | the node with the greatest key at or below `key`, null if every key is larger, wherever `key` compares rightly; the last node if it compares as larger than the root and all behind it, null if as smaller than the root and all before it; in at most height steps |
| `AvlTree.Tree.InOrderSuccessor` | utils/avl.c:414-437 | the next node in the order, null for the last |
| `AvlTree.Tree.InOrderPredecessor` | utils/avl.c:388-412 | the previous node in the order, null for the first |
| `AddrTracker.SignedCompareExact` | utils/addrtracker.c:3-16 | the sign of the 64-bit difference is that of the comparison exactly if the difference fits into 64 bits with its sign |
| `AddrTracker.SignedCompareFails` | utils/addrtracker.c:3-16 | 2^63 compares as less than 0 |
| `AddrTracker.Tracker.ComparableExact` | utils/addrtracker.c:3-16 | an address compares rightly with every tracked start exactly if none of them is 2^63 or more below it |
| `AddrTracker.Tracker.SteeredExact` | utils/addrtracker.c:3-16 | a search for an address sets out from the root on the right side and stays on it, unless the root starts 2^63 or more below the address; then it goes astray to the left |
| `AddrTracker.Tracker.RangeCompareSteers` | utils/addrtracker.c:18-27 | comparing with ranges leads the same way as the comparison of starts that built the tree |
| `AddrTracker.Tracker.FindNode` | utils/addrtracker.c:56-64 | the one tracked range that contains the address, null if none does |
| `AddrTracker.Tracker.FindFirstNodeInRange` | utils/addrtracker.c:66-78 | for all 64-bit bounds: the lowest tracked range within them, null exactly when none is, if the root does not start 2^63 or more below `lo`; otherwise, and only then, a range that is not within them |
| `AddrTracker.Tracker.IsEmptyForRange` | utils/addrtracker.c:80-91 | for all 64-bit bounds: true exactly when no tracked range meets them, if the root does not start 2^63 or more below the last address; otherwise true always |
| `AddrTracker.Tracker.NodeGetNextWithLimit` | utils/addrtracker.c:104-119 | the next tracked range if it starts below the limit and, on request, directly behind; null exactly otherwise |
| `AddrTracker.Tracker.RegisterNodeOrReturnExisting` | utils/addrtracker.c:121-151 | the range joins the tracked ones, which stay disjoint, or the node with the same start is returned and the new one wiped |
| `AddrTracker.Tracker.UnregisterNode` | utils/addrtracker.c:159-164 | exactly the node leaves |
| `BlockLayout.CarvedSound` | src/va_allocator_default.c:74-110 | carving the front of a fitting free extent keeps the exact tiling and leaves no two free neighbours |
| `BlockLayout.FreedSound` | src/va_allocator_default.c:113-150 | freeing an allocated extent with coalescing on both sides keeps the exact tiling and leaves no two free neighbours |
| `BlockLayout.FreeUndoesAlloc` | src/va_allocator_default.c:74-150 | freeing the extent just carved from a fitting free extent gives back the original layout |
| `BlockLayout.FitsExactlyWhenVacant` | src/va_allocator_default.c:75-110 | some free extent is large enough exactly if some window of that size meets no allocated extent |
| `BlockHeap.Heap.Alloc` | src/va_allocator_default.c:82-109 | list, tree and tiling stay in agreement; the front of a smallest fitting free block is carved, of those equally small the one filed first; or 0 and nothing changes because none fits or the split has no memory |
| `BlockHeap.Heap.Free` | src/va_allocator_default.c:120-149 | the block that starts at the address is freed and merged with free neighbours; without such an allocated block nothing changes |
| `BlockHeap.Heap.CoalescePrev` | src/va_allocator_default.c:130-142 | merging with a free block before gives the layout expected; its body asserts both address equations of the code where the code does |
| `BlockHeap.Heap.InsertAddrList` | src/va_allocator_default.c:40-58 | a block whose address lies between its neighbours is linked in just there |
| `BlockHeap.Heap.RemoveAddrList` | src/va_allocator_default.c:61-71 | exactly the block leaves the doubly linked list |
| `BlockHeap.Heap.Populate` | src/va_allocator_default.c:222-231 | the first block covers the whole range and is in the tree |
| `BlockRuns.RunKeeps` | src/va_allocator_default.c:74-150 | in every run from one free block each layout is sound, and its live blocks are those computed from the calls alone |
| `BlockRuns.RunEndsWhole` | src/va_allocator_default.c:74-150 | once everything has been freed, in whatever order, one free block covers the range |
| `BlockRuns.RunIsComplete` | src/va_allocator_default.c:75-110 | in a run, an allocation of a proper size without shortage of blocks fails exactly if every window of that size overlaps a live block |
| `BlockRuns.LiveApart` | src/va_allocator_default.c:74-150 | live blocks of a sound layout lie in the range and do not overlap |
| `BlockRuns.GapIsFree` | src/va_allocator_default.c:74-150 | a maximal window clear of live blocks is just a free extent of the layout |
| `BlockRuns.BestFitIsBestGap` | src/va_allocator_default.c:75-110 | a best-fitting extent starts a shortest of the maximal clear windows that are long enough, told from the live blocks alone; it needs no split exactly if some such window has the size asked for |
| `DefaultAllocator.Allocator.Alloc` | src/va_allocator_default.c:74-110 | a best-fit step of the layout, of equally small blocks the one filed first, or 0; 0 and nothing changes for the size 0 and for sizes above 4 GiB; the count of used bytes grows by the size handed out and is that of the allocated extents |
| `DefaultAllocator.Allocator.Free` | src/va_allocator_default.c:113-150 | a free step of the layout; the count of used bytes goes down by the size of the block and is that of the allocated extents |
| `DefaultAllocator.Allocator.AllocThenFree` | src/va_allocator_default.c:74-150 | freeing the address just returned restores layout and count |
| `DefaultAllocator.Allocator.ServeAll` | src/va_allocator_default.c:74-150 | serving any requests is a run in the sense above of just the calls asked for, and if nothing is live at the end the range is whole and the count 0 |
| `DefaultAllocator.Allocator.Init` | src/va_allocator_default.c:202-233 | one free block of 4 GiB from the reserved address on; null exactly if the range or memory is refused |
| `DefaultAllocator.Allocator.AllocOnNew` | src/va_allocator_default.c:74-110 | on a new allocator, with memory for a split, exactly the sizes from 1 byte to 4 GiB are served, from the start of the range |
| `BitWords.HasIsBit` | utils/bitvector.c:269-281 | bit `k` by repeated halving is the bit that shift and mask select |
| `BitWords.MasksAreShifts` | utils/bitvector.c:193-249 | the masks of single bits and of runs of bits are the shifts that the code computes |
| `Bitvector.Vector.Create` | utils/bitvector.c:31-65 | the empty set over `numBits` indices; null exactly if there is none, rounding up wraps around in 64 bits or memory is short |
| `Bitvector.Vector.CreateCopy` | utils/bitvector.c:84-106 | a copy of its own with the same set |
| `Bitvector.Vector.SetBit` | utils/bitvector.c:147-162 | the index joins the set; false and nothing changes if it is out of range |
| `Bitvector.Vector.ClearBit` | utils/bitvector.c:251-266 | the index leaves the set; false and nothing changes if it is out of range |
| `Bitvector.Vector.SetBitsInRange` | utils/bitvector.c:193-220 | exactly the indices of a proper range join the set |
| `Bitvector.Vector.ClearBitsInRange` | utils/bitvector.c:222-249 | exactly the indices of a proper range leave the set |
| `Bitvector.Vector.IsAnyBitSet` | utils/bitvector.c:283-303 | true exactly if the set is not empty |
| `Bitvector.Vector.FindLowestClearBitInRange` | utils/bitvector.c:348-389 | the lowest index of the range outside the set; fails exactly if there is none or the range is not proper |
| `Bitvector.Vector.FindLowestSetBitInRange` | utils/bitvector.c:348-394 | the lowest index of the range in the set; fails exactly if there is none or the range is not proper |
| `Bitvector.Vector.FindHighestClearBitInRange` | utils/bitvector.c:509-561 | the highest index of the range outside the set; fails exactly if there is none or the range is not proper |
| `Bitvector.Vector.FindHighestSetBitInRange` | utils/bitvector.c:509-555 | the highest index of the range in the set; fails exactly if there is none or the range is not proper |
| `Bitvector.Vector.AreAllBitsSetInRange` | utils/bitvector.c:397-428 | true exactly if the range is proper and within the set |
| `Bitvector.Vector.AreAllBitsClearInRange` | utils/bitvector.c:430-461 | true exactly if the range is proper and disjoint from the set |
| `Bitvector.Vector.SetLowestClearBit` | utils/bitvector.c:305-346 | the lowest index outside the set joins it; fails exactly if the set is full |
| `Bitvector.Vector.SetAllBits` | utils/bitvector.c:175-191 | the set becomes all indices below `numBits` |
| `Bitvector.Vector.Compare` | utils/bitvector.c:463-487 | true exactly if sizes and sets are equal |
| `Bitvector.Vector.Intersect` | utils/bitvector.c:489-507 | the set becomes the intersection; refused exactly if the sizes differ |
| `Bitvector.Vector.Grow` | utils/bitvector.c:108-145 | a larger size keeps the set; refused only if memory is short |
| `Bitvector.ChunksHold` | utils/bitvector.c:117-119 | the chunks computed for a size hold all its bits exactly if rounding up does not wrap around |
| `SlabAllocator.Slab.Initialize` | src/va_allocator_arenas.c:136-160 | an empty slab of as many blocks as fit; null exactly if there is none, their number rounded up wraps around in 64 bits or memory is short |
| `SlabAllocator.Slab.Alloc` | src/va_allocator_arenas.c:162-178 | the block of the lowest clear bit, new among the live ones; 0 exactly if the slab is full; free blocks and clear bits stay equal in number |
| `SlabAllocator.Slab.Free` | src/va_allocator_arenas.c:180-190 | the bit that the address falls on is cleared and one more block counted as free; the slab is sound afterwards exactly if that block was allocated, and then exactly that block leaves the live ones |
| `SlabAllocator.Slab.AllocThenFree` | src/va_allocator_arenas.c:162-190 | freeing the block just allocated restores set and count |
| `SlabAllocator.BlockOfBit` | src/va_allocator_arenas.c:177-188 | an address is that of a live block exactly if division leads to a set bit and back |
| `SlabAllocator.BlocksApart` | src/va_allocator_arenas.c:162-190 | blocks of a slab lie in the reservation and do not overlap |
| `Reservations.Reservation.Alloc` | src/va_allocator_arenas.c:417-433 | a block new among the live ones, of the slab's size or of the size asked for, or 0 and nothing changes.  Told from the live blocks alone: a slab hands out its lowest block that is not live; a heap the start of a shortest maximal clear window that is long enough, of those equally short the one filed first; 0 exactly if every block of the slab is live, or no window of the size is clear, or, if memory for a split is short, no maximal clear window has just that size |
| `Reservations.Reservation.Free` | src/va_allocator_arenas.c:503-512 | exactly the block that the address names leaves the live ones; the state is sound afterwards exactly if the address lies, for a slab, in a live block |
| `Reservations.Reservation.LiveIsSound` | src/va_allocator_arenas.c:162-305 | live blocks of a reservation lie in it and do not overlap |
| `Reservations.Reservation.UnusedIsWhole` | src/va_allocator_arenas.c:124-134 | without live blocks no bit of a slab is set, and one free block covers the range of a heap |
| `Arenas.GetArenaIdxForSize` | src/va_allocator_arenas.c:102-113 | the first size class whose limit is at least the size, for every 64-bit size |
| `Arenas.ArenaTable` | src/va_allocator_arenas.c:85-94 | the limits of the eight size classes and the sizes of their reservations, in bytes |
| `Arenas.SlabClasses` | src/va_allocator_arenas.c:96-100 | a size class is served by slabs exactly if its limit is at most 2 KB |
| `Arenas.RoundedIs` | src/va_allocator_arenas.c:85-178 | the first class that is large enough rounds sizes up to 2 KB up to 512, 1024 or 2048 bytes and keeps all others |
| `Arenas.Allocator.CreateReservation` | src/va_allocator_arenas.c:383-415 | the tracker, the total and the record of reservations gain exactly the new one, a slab exactly if the limit of its class is at most 2 KB, which is all that is missing from the lists, and the live blocks stay; null exactly if memory or range is refused, and then nothing changes |
| `Arenas.Allocator.AllocateFromReservation` | src/va_allocator_arenas.c:417-433 | a block joins the live blocks of the whole allocator, new among them and at the best place of its reservation, or nothing happens to them; no other reservation changes; it is refused exactly if there is no room in the reservation |
| `Arenas.Allocator.AllocateFromList` | src/va_allocator_arenas.c:445-452 | the first reservation of the list that has room serves, at its best place, and no other one changes; 0 and nothing changes exactly if none has |
| `Arenas.Allocator.Push` | src/va_allocator_arenas.c:460-461 | the new reservation becomes the head of the list of its class, and all invariants hold again |
| `Arenas.Allocator.AllocateFromArena` | src/va_allocator_arenas.c:440-465 | `Outcome`: if some reservation of the list has room, the first one that has serves at its best place, and no reservation is made; if none has and range and memory can be had, exactly one is made in the range offered, whatever the size, becomes the head of its list and starts with the block if that fits; else 0 and nothing changes |
| `Arenas.Allocator.Alloc` | src/va_allocator_arenas.c:470-489 | a block from the first size class that is large enough, and from the reservation of it that `Outcome` names; it has 512, 1024 or 2048 bytes for sizes up to these and just the size asked for above; if all that is asked for can be had, there is a block exactly for sizes up to 2 GiB; the count of used bytes grows by the size asked for, less 2^64 where it passes that |
| `Arenas.Allocator.Route` | src/va_allocator_arenas.c:499-505 | the tracker leads to the one reservation that contains the address |
| `Arenas.Allocator.Free` | src/va_allocator_arenas.c:491-515 | in the reservation that contains the address exactly the block it names leaves, no other reservation changes, and a live start takes just its own block away; the count of used bytes goes down by the size of that reservation, plus 2^64 where it would be negative; the state is sound afterwards exactly if no slab contains the address outside its live blocks |
| `Arenas.Allocator.AllocThenFree` | src/va_allocator_arenas.c:470-515 | the live blocks come back; the count of used bytes does exactly if nothing was allocated or the size is that of a whole reservation |
| `Arenas.CountBack` | src/va_allocator_arenas.c:486-513 | adding a size and taking off a reservation's cancel in 64 bits exactly if the two are equal |
| `Arenas.Allocator.LiveIsSound` | src/va_allocator_arenas.c:440-515 | live blocks of all arenas do not overlap, and each lies in a tracked range |
| `Arenas.Allocator.ListsPartition` | src/va_allocator_arenas.c:383-465 | the eight lists, without repetition, hold exactly the tracked reservations, and the total is the sum of all their sizes |
| `Arenas.Allocator.TotalFits` | src/va_allocator_arenas.c:383-415 | the total of all reservation sizes is at most 2^57, so that it never wraps around in 64 bits |
| `Arenas.CoveredSize` | src/va_allocator_arenas.c:383-415 | reservations that do not overlap cover as many addresses as their sizes add up to |
| `Arenas.Allocator.UnusedIsWhole` | src/va_allocator_arenas.c:491-515 | once nothing is live every reservation is as it was when it was made |
| `Arenas.Allocator.HomeOf` | src/va_allocator_arenas.c:499-505 | a live block belongs to the one reservation that contains its start |
| `Arenas.Allocator.ServeAll` | src/va_allocator_arenas.c:470-515 | in every run on a new allocator the live blocks are exactly those handed out and not given back; they have the sizes asked for, up to 2 KB rounded up to 512, 1024 or 2048 bytes, lie in tracked ranges and do not overlap; each request is served as far as the reservations made before it allow; if the world refuses nothing and offers disjoint ranges within 57 bits, exactly the requests up to 2 GiB are answered; once all is given back every reservation is whole |
| `Arenas.BountifulAnswers` | src/va_allocator_arenas.c:440-489 | in every run in which the world refuses nothing and offers ranges that meet neither each other nor the reservations of the start, a request for a block is answered exactly if its size is at most 2 GiB |
| `Arenas.TraceOrigin` | src/va_allocator_arenas.c:453-461 | every reservation of a run was there at the start or lies in the range that an earlier request offered |
| `Arenas.Allocator.Init` | src/va_allocator_arenas.c:588-611 | eight empty size classes, a tracker for 57-bit addresses, both counts 0; null exactly if memory is short |

## Left out

- Bitvector.Vector.Grow: requires a size that can be rounded up to whole words in 64 bits.  Past that the code computes zero words (`Bitvector.ChunksHold`, `Bitvector.ChunksLost`) and asks for zero bytes: a vector of several words passes them to `realloc` (utils/bitvector.c:123-131), an inline one to `calloc`, whose result it then writes to (utils/bitvector.c:133-140).  What these return is up to the C library and is not modelled.
- AddrTracker.Tracker.RegisterNodeOrReturnExisting: requires that the range meets no tracked one unless their starts are equal, as the commented-out check at utils/addrtracker.c:129-132 has it; the code inserts an overlapping range unchecked.
- Arenas.Allocator.Alloc: sizes of 2^63 and more, which the code does not refuse, lie outside the 63-bit keys of the size trees, where a search looks at the low 63 bits only, and are excluded.
- Arenas.Allocator.Free: an address that no reservation contains changes nothing, as in a build without assertions; what follows after a free that leaves a slab unsound is not modelled.
- The used size of the arena allocator is not conserved: each free takes off the size of a whole reservation.  Its exact change per call is stated, its meaning is not.
- Reserving, mapping and freeing memory: the outcomes are parameters, and the model frees nothing.  Where a run is driven by requests, a range that meets a tracked one or exceeds 57 bits counts as refused.
- A range that cannot be reserved is address 0 in the model, as the test at src/va_allocator_arenas.c:393 expects; the all-ones value that `mmap` returns in that case is not modelled.
- Destroying an allocator, a reservation, a slab or a tree.
- Null arguments, and the table of operations of src/va_allocator.c.
- Printing, the debug checks of the AVL tree, and locks, which the code comments out.
- Signed overflow in the comparison of addresses is modelled as wrap-around, which the language does not promise.
- The two copies of the best-fit heap (one in each allocator) are the same code and share one class; in the arena copy the count of used bytes is absent.
