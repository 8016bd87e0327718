# elib, modelled and proved

elib is a Go library of index-based, in-place data structures and of the run loop
and wire protocol built on them. This project models its cores in Dafny and proves
what the library's own debug validators check at run time, and more: over every
sequence of calls, for every input, not for the inputs of one run.

The parts, in the system's own terms:

- **Fibonacci heap** (`Fib*.dfy`): nodes in one vector, linked by index into circular
  lists, with cascading cuts and consolidation through a table of 32 degrees. Shape,
  heap order, the cached minimum, and the Fibonacci bound that keeps `deg[ns]` in
  range while fewer than F(34) = 5702887 nodes are live.
- **Timer queue** (`EventPool.dfy`): timed events in a pool, ordered by that heap, and
  exactly when a signed 64-bit difference orders two times.
- **Block allocator** (`Block*.dfy`): elements that tile `[0, len)`, segregated free
  lists with back-indices, coalescing, aligned allocation that trims both ends, and
  exactly when the rule "larger than `maxSize` goes to list 0" keeps the lists usable.
- **Ternary classifier** (`Ternary*.dfy`): search trees over masked keys, split and
  joined at random, cloned with reference-counted leaf vectors, edited in place, with
  the counts of the cost kept step by step; saving a tree's shape and restoring it.
- **Hash index** (`Caps.dfy`, `Hash*.dfy`): exclusive-or displacement inside aligned
  buckets, early exit, two tables, growth with a copy list.
- **Bit compress** (`BitCompress.dfy`): six rounds of prefix parity and moves.
- **Rank index** (`PopCount.dfy`, `SparseRank.dfy`): the parallel count of the set bits of
  a word, and sparse indices mapped to their ranks by counts per word.
- **Dependency order** (`DepOrder.dfy`), **stream framing** (`StreamFrames.dfy`,
  `StreamConn.dfy`) and the **poller handshake** of the run loop (`LoopHandshake.dfy`),
  the last as a state machine over all interleavings.
- **Pending frames** of the run loop (`LoopPending.dfy`): the worklist that calls the
  nodes behind outputs whose lengths were set.
- **Buffer pools** (`BufferPool.dfy`): references carved from regions, handed out, and taken
  back with whatever their buffers link to, four at a time.

Code that updates fields in place is modelled by classes with the same fields and by
methods that reassign them, each proved against a function or an invariant on values;
lemmas about those values carry the arguments. Ghost fields hold the abstract view: the
lists of a heap, the chain of blocks, the trees. Go slices that are appended to or
indexed are `seq` fields, buffers of fixed length are arrays. Words are the set of their
bits where only bits matter, and numbers where arithmetic matters. A panic is an
out-parameter or a result constructor. Random choices are arbitrary values or parameters,
so every contract holds whatever they are.

What the proofs brought to light about the code:

- The signed difference in `event/event.go` is not an order on all 64-bit times
  (`EventPools.DiffNotTransitive`); it is right for two times exactly when they are less
  than 2^63 apart (or the first is exactly 2^63 earlier). The pool is proved for events
  that lie within 2^63 of each other, wherever they are.
- The allocator's free lists become unusable exactly when the vector of lists grows past
  the size of a block already in list 0 (`BlockFree.FreeEltExact`,
  `BlockHeaps.StaleBlockExample`); `Get` and `GetAligned` therefore require that a request
  larger than all before finds no block of that size or less in list 0.
- A free block with room for a request may stay unused while the heap grows: only a block
  of exactly the size asked for, or one larger than any request so far, serves
  (`BlockHeaps.FitsBySize`, `BlockHeaps.RoomUnusedExample`).
- Adding a pair that is already in the classifier's table leaves all leaves right but
  counts the pair again (`TernaryMains.Main.AddDel`): the counts are right exactly when
  the pair was new.
- `Save` writes the tree that the trial slot names, which is the best tree before the
  first step. During a search it is the working copy, which has the shape of the best tree
  only if as many splits as joins were kept; once a search has ended, by an accepted step,
  a restart or an added or deleted pair, it is a root that was freed, so that a single leaf
  is written (`TernarySaves.SavesTheBest`, `TernarySaves.StaleSave`).
- A saved tree keeps one byte per split bit, so what is restored has the same keys as what
  was written exactly when all split bits are below 256 (`TernarySaves.SaveThenRestore`).
- `Put` of a block that was returned is refused exactly while its element is in the chain.
  Once it was merged away, `Put` lists a block of wrapped size that is not there, and the
  heap is broken for good (`BlockHeaps.Heap.Put`, `BlockHeaps.RecycledExample`).
- A frame header that announces 2^63 - 1 bytes or close to it makes the length wrap around,
  and `Input` runs off its buffer; no frame that a writer can send does
  (`StreamFrames.WrapExample`, `StreamConns.Server.Input`).
- A frame whose length is set to 0 after it became pending is still called, with 256
  vectors (`LoopPending.ReadBack`: lengths are read back as they were set iff 1 to 256).
- `Sparse.Set` gives 0, not the rank, for an index that is present already
  (`SparseRank.Sparse.Set`).
- A buffer pool can meet every request exactly when a buffer takes at most 2^19 bytes,
  half of the largest region; for any larger size some request allocates no buffer at a
  time, without end (`BufferPools.SizesThatServe`).
- `Unset` on a hash index that never had room is a panic (`HashIndices.Hash.Unset`).
- The comment in `fibheap.go` that roots are never marked holds of `Add` and `Min` but
  not of `Del`: if no root is marked, none is after `Del(i)` exactly when no child of i is
  marked and i is a root or its parent is neither marked nor a root
  (`FibMarks.DelMarks`, `FibHeaps.FibHeap.MarkedRootExample`). The degree bound does not
  need it.

## Model

| member | source | states |
|---|---|---|
| FibLinks.RingUnlink | fibheap.go:73-79 | taking a node out of a circular list leaves the circular list of the others, in order |
| FibLinks.RingLinkAfter | fibheap.go:59-67 | linking after a node puts the new one right behind it in the circular list |
| FibShape.Detach | fibheap.go:73-79 | unlinking keeps all other root and child lists, parent links and places as they were |
| FibShape.AttachRoot | fibheap.go:69-71 | a loose node joins the root list and no other list changes |
| FibShape.Shatter | fibheap.go:98-115 | removing a loose node leaves its children loose, each in no list |
| FibDegree.SpreadSum | fibheap.go:118-151 | if at most d children were linked before the parent had d, the least sizes of the children's subtrees sum to F(k+2) - 1 at least |
| FibDegree.SubtreeBound | fibheap.go:118-151 | a node with k children heads a subtree of at least F(k+2) nodes, since the cut takes at most one child since linking |
| FibDegree.DegreeBound | fibheap.go:159-209 | with fewer than F(34) live nodes every degree is below the 32 entries of the table |
| FibDegree.FibAt34 | fibheap.go:159-169 | F(34) is 5702887 |
| FibInvariant.CutInv | fibheap.go:145-149 | a cascading cut of one node keeps shape, ranks and the degree bookkeeping, except that the parent now owes one child |
| FibInvariant.RemovedInv | fibheap.go:118-128 | removing a node whose children became roots keeps the whole invariant, with a debt at its parent if it had one |
| FibInvariant.LinkedInv | fibheap.go:192-207 | linking a root under one of equal degree keeps the whole invariant |
| FibScan.ScanLink | fibheap.go:187-208 | during consolidation the table still names one scanned root per degree after two roots were linked |
| FibScan.ScanEnd | fibheap.go:175-219 | when the root list has been walked, the table names every root, by its degree |
| FibHeaps.RootNoGreater | fibheap.go:159-227 | every live node has a root above it that is no greater |
| FibHeaps.LeastRootIsLeast | fibheap.go:211-224 | a least root is a least element of the heap |
| FibHeaps.FibHeap.Add | fibheap.go:82-96 | adds one index, keeps heap order for every order it held for, and drops the cached minimum |
| FibHeaps.FibHeap.CutChildren | fibheap.go:98-115 | all children of a loose node become roots, nothing else is relinked, and the walk around them ends |
| FibHeaps.FibHeap.AdjustParents | fibheap.go:130-150 | the cascade ends, restores the invariant and only removes parent links |
| FibHeaps.FibHeap.Del | fibheap.go:118-151 | removes one index, keeps the cached minimum unless it is that index, and needs heap order only away from the deleted node; says exactly when roots stay unmarked |
| FibHeaps.FibHeap.TakeOut | fibheap.go:118-128 | unlinks the node and makes its children roots; its parent, if any, still counts it |
| FibMarks.DelMarks | fibheap.go:118-151 | if no root is marked, none is after the deletion iff no child of the node is marked and its parent, if any, is neither marked nor a root |
| FibMarks.AddMarks | fibheap.go:82-96 | adding a root leaves the roots unmarked iff they were |
| FibMarks.LinkMarks | fibheap.go:192-207 | linking two roots marks none |
| FibHeaps.FibHeap.MarkedRootExample | fibheap.go:24-26 | a run that leaves a marked root: two nodes are added, Min puts one below the other, the lower one is deleted |
| FibHeaps.FibHeap.Update | fibheap.go:154-157 | repairs heap order after any change of that node's key, and marks roots exactly as its deletion does |
| FibHeaps.FibHeap.LinkUnder | fibheap.go:192-207 | one root becomes a child of another of the same degree and the invariant holds |
| FibHeaps.FibHeap.Consolidate | fibheap.go:166-209 | terminates, every index into the degree table is in range, and in the end the table names each root by its degree |
| FibHeaps.FibHeap.LeastRoot | fibheap.go:211-224 | the least of the roots in the table is least of all live elements, and there is one iff the heap is not empty |
| FibHeaps.FibHeap.Min | fibheap.go:159-227 | returns a live index of least key, valid iff the heap is not empty, keeps the live set and heap order, and caches what it found; after a consolidation no two roots have as many children |
| EventPools.DiffOrders | event/event.go:24-27 | the sign of the 64-bit difference orders two times rightly iff their true difference is at least -2^63 and below 2^63 |
| EventPools.DiffNotTransitive | event/event.go:24-27 | three times whose differences go round in a circle |
| EventPools.NearTimesOrdered | event/event.go:24-27 | for times that lie in a window of less than 2^63 the comparison is the true difference and a total preorder |
| EventPools.Pool.Add | event/event.go:39-44 | a new event gets a slot that no queued event has, the one freed last if there is one; the others keep theirs |
| EventPools.Pool.Del | event/event.go:46-49 | takes exactly one event off the queue and frees its slot once, for the next Add to take |
| EventPools.Pool.Advance | event/event.go:51-68 | terminates; hands out exactly the queued events of time at most t, each once, earliest first, and leaves exactly the later ones |
| EventPools.Pool.NextTime | event/event.go:70-76 | the earliest queued time, valid iff an event is queued |
| BlockChain.BlocksDisjoint | heap_debug.go:27-132 | two blocks of the chain never overlap and lie below len |
| BlockChain.EveryAddressCovered | heap_debug.go:27-132 | every address below len is in a block of the chain |
| BlockChain.SplitAfterOk | heap.go:286-298 | a new upper part keeps the chain a tiling |
| BlockChain.SplitBeforeOk | heap.go:272-284 | a new lower part keeps the chain a tiling |
| BlockChain.MergePrevOk | heap.go:343-359 | taking in the block before keeps the chain a tiling |
| BlockChain.MergeNextOk | heap.go:361-376 | taking in the block after keeps the chain a tiling |
| BlockFree.UnlistOk | heap.go:142-148 | moving the last entry into the gap keeps every other free block at its noted place |
| BlockFree.PushOk | heap.go:120-127 | a block pushed on the list of its class is where its mark says |
| BlockFree.RaiseThreshold | heap.go:120-127 | classes stay right under a larger bound iff list 0 holds no block below it |
| BlockFree.RemovalFinds | heap.go:136-154 | while classes are right, removal looks in the right list and does not panic |
| BlockFree.FreeEltExact | heap.go:120-154 | after a free, removal finds every free block of the chain iff the block went to list 0 or an existing list, or list 0 held only larger blocks |
| BlockHeaps.StaleBlockExample | heap.go:120-154 | a state with a right chain and right lists where one free makes the removal of another block panic |
| BlockHeaps.AllocatedDisjoint | heap.go:300-334 | two blocks handed out never overlap |
| BlockHeaps.AllReturned | heap.go:336-380 | with nothing handed out the chain is one free block over all of [0, len) |
| BlockHeaps.Heap.NewElt | heap.go:176-186 | a recycled or new element, poisoned, that is not in the chain |
| BlockHeaps.Heap.FreeElt | heap.go:120-127 | the block moves to the free list of its class and no other block changes |
| BlockHeaps.Heap.RemoveFreeElt | heap.go:136-154 | finds the element at its mark or panics, fills the gap with the last entry, poisons and recycles it |
| BlockHeaps.Heap.MergeWithPrev | heap.go:343-359 | the block takes in the free one before it and all invariants hold |
| BlockHeaps.Heap.MergeWithNext | heap.go:361-376 | the block takes in the free one after it and all invariants hold |
| BlockHeaps.Heap.Put | heap.go:336-380 | a block handed out stops being so and no other changes; refused iff it is a free block of the chain; the heap stays valid iff the element is in the chain |
| BlockHeaps.RecycledListed | heap.go:120-127 | with a recycled element on a free list no chain makes the heap valid |
| BlockHeaps.RecycledExample | heap.go:336-341 | a valid heap with nothing handed out and a recycled element that `Put` does not refuse |
| BlockHeaps.EmptyBlock | heap.go:300-334 | cutting a block off at its start leaves an empty block, which no chain may have |
| BlockHeaps.FitsBySize | heap.go:201-236 | a request is served from free blocks iff one has exactly its size, or is larger than any request so far and large enough; one of exactly its size goes before any other |
| BlockHeaps.RoomUnusedExample | heap.go:201-236 | a run after which the heap has grown although a free block had room |
| BlockHeaps.Heap.FreeAfter | heap.go:82-99 | the upper part of a block is freed, the rest keeps its id and offset |
| BlockHeaps.Heap.Get | heap.go:190-270 | a new id with a block of exactly this size, or the size or overflow panic, exactly when; no other block handed out changes; if a free block serves, the block lies in it and `len` stays, else it is appended |
| BlockHeaps.Heap.GetAligned | heap.go:300-334 | a block of exactly sizeArg at the first offset divisible by 2^log2Alignment of a free block with room for any alignment, and `len` stays; if none serves, of `len` bytes that are appended; or the overflow panic, exactly when; no other block handed out changes |
| TernaryKeys.BranchIsCompatible | mctree/mctree.go:417-425 | a pair goes to a side iff it can still match under the key of that side |
| TernarySteps.SideExact | mctree/mctree.go:446-459 | each side of a distributed leaf lists exactly the pairs compatible with its key, once |
| TernarySteps.JoinExact | mctree/mctree.go:513-545 | the first leaf and the masked part of the second are exactly the pairs of the joined key, once |
| TernarySteps.AddExact | mctree/mctree.go:717-747 | a new compatible pair appended keeps the leaf exact |
| TernarySteps.DelExact | mctree/mctree.go:730-737 | a deleted pair was in the leaf, and the leaf without it is exact |
| TernaryTree.ReplaceGood | mctree/mctree.go:427-591 | exchanging one subtree keeps the tree right and changes its counts by those of the subtree |
| TernaryInvariant.SplitInv | mctree/mctree.go:427-497 | a split keeps both trees right, all reference counts and the counts of the cost |
| TernaryInvariant.JoinInv | mctree/mctree.go:499-591 | a join keeps both trees right, all reference counts and the counts of the cost |
| TernaryCosts.AcceptedSplitHasNoEmptyHalf | mctree/mctree.go:459-481 | no split that is kept has an empty half, whatever the random number |
| TernaryCosts.StepCostIsRecount | mctree/mctree.go:461-475 | the incremental counts of a split and of a join are those of a recount |
| TernaryCosts.EmptyLeavesAlwaysJoin | mctree/mctree.go:554-581 | two empty leaves are always joined, so the missing vector is never put back |
| TernaryCosts.KeptByCost | mctree/mctree.go:473-482 | by the counts alone: with luck a split is kept iff it leaves no empty half, without luck iff moreover it does not raise their product |
| TernaryCosts.JoinedByCost | mctree/mctree.go:554-573 | with luck any join is kept, without luck iff it does not raise the product of the counts |
| TernaryTables.OccupancyIsRecount | mctree/mctree.go:315-332 | the running counts of one leaf change as a recount would |
| TernaryTables.EditedInv | mctree/mctree.go:766-790 | after an edit of all leaves the tree is right for the new table, and the counts are right iff the pair was not there already |
| TernaryTables.DescentFindsAll | mctree/mctree.go:417-425 | going down by the bits of a fully masked key ends at a leaf that lists every pair matching it |
| TernaryCopies.CopyIsGood | mctree/mctree.go:607-624 | a copy over other nodes is right, names the same vectors and has the same counts |
| TernaryMains.Main.constructor | mctree/mctree.go:852-877 | one empty leaf, right for the empty table |
| TernaryMains.Main.AllocSubs | mctree/mctree.go:226-245 | two new sub nodes whose keys add the bit as 0 and as 1 |
| TernaryMains.Main.FreeTreeNode | mctree/mctree.go:593-600 | frees exactly the nodes of a tree and gives up each of its references once; vectors of the other tree stay |
| TernaryMains.Main.CloneTreeNode | mctree/mctree.go:607-624 | a copy of the same shape, keys and vectors over new nodes, one more reference to each vector |
| TernaryMains.Main.Restart | mctree/mctree.go:792-798 | only the working copy goes |
| TernaryMains.Main.CloneTree | mctree/mctree.go:626-633 | the working copy equals the best tree and both are right |
| TernaryMains.Main.Distribute | mctree/mctree.go:446-459 | always writing and moving on only sometimes computes the two sides |
| TernaryMains.Main.SplitLeaf | mctree/mctree.go:427-497 | exactly when the split is kept, which adds one leaf; a rejected one changes nothing at all; both trees stay right |
| TernaryMains.Main.JoinLeaves | mctree/mctree.go:499-591 | exactly when the join is kept, which takes one leaf; a rejected one changes nothing at all; both trees stay right |
| TernaryMains.Main.RandomLeaf | mctree/mctree.go:681-693 | ends at the leaf of the working copy that the random bits lead to, with the node above it |
| TernaryMains.EveryLeafDrawn | mctree/mctree.go:681-693 | there are random bits that lead to any given leaf |
| TernaryMains.CanJoinExact | mctree/mctree.go:695-701 | the node above the leaf is joined only if it is above two leaves, and may be then |
| TernaryMains.Main.TryStep | mctree/mctree.go:817-830 | what is tried, and whether its change is kept, for every random choice; a split only below the bound on leaves, of a leaf with enough pairs, on a bit some pair of it masks |
| TernaryMains.LeafsBounded | mctree/mctree.go:808-829 | the number of non-empty leaves grows only up to the bound, and no leaf with too few pairs is split |
| TernaryMains.Main.RandomMaskedBit | mctree/mctree.go:635-679 | a bit masked by a pair of the leaf and not in its key, so a split on it is well formed |
| TernaryMains.Main.AcceptTree | mctree/mctree.go:836-842 | the working copy becomes the best tree and the old one is given up |
| TernaryMains.Main.EndStep | mctree/mctree.go:833-847 | accepts a cheaper copy exactly when the change was kept and is cheaper, and restarts on time |
| TernaryMains.Main.Step | mctree/mctree.go:800-850 | keeps everything right; takes the first random choice with something to do; the non-empty leaves of either tree become more only up to the lesser of Max_leafs and the number of pairs; never raises the cost of the best tree, lowers it exactly when it says so, restarts on time, and leaves the trial slot naming another root than the best tree's |
| TernaryMains.Main.EditVec | mctree/mctree.go:717-747 | only a vector with one reference is edited in place |
| TernaryMains.Main.AddDelHelper | mctree/mctree.go:749-764 | edits exactly the leaves the pair can match under |
| TernaryMains.Main.AddDel | mctree/mctree.go:766-790 | the new table, all leaves exact for it, a panic iff an absent pair is deleted, and counts right iff no present pair was added |
| TernarySaves.ParseSaved | mctree/save.go:21-50 | each recursive read consumes exactly what the matching write produced |
| TernarySaves.RoundTrip | mctree/save.go:21-50 | reading back gives the shape itself iff all split bits fit a byte |
| TernarySaves.SaveHelper | mctree/save.go:21-34 | appends one flag per node in preorder, one byte per split, and sets no other flag |
| TernarySaves.LeftChainSaved | mctree/save.go:21-34 | the layout by words and bits, for a chain of any number of splits to the left |
| TernarySaves.RestoreHelper | mctree/save.go:36-50 | builds the shape the data encode, with keys from the root on, or fails exactly when bytes run out |
| TernarySaves.Restore | mctree/save.go:65-92 | a fresh classifier is valid after restoring a shape that splits on no bit twice |
| TernarySaves.Save | mctree/save.go:52-84 | writes the tree of the trial slot |
| TernarySaves.SavesTheBest | mctree/save.go:80-84 | that tree has the shape of the best tree iff: no step was taken yet or the best tree is a leaf, or, during a search, the working copy has it, for which as many splits as joins must have been kept |
| TernarySaves.CopySameShape | mctree/mctree.go:607-624 | right after it was made, the working copy has the shape of the best tree |
| TernarySaves.StaleSave | mctree/save.go:80-84 | a run after which a single leaf is saved and the best tree is a split: restore it, join its two empty leaves in one step, add a pair |
| TernarySaves.SaveThenRestore | mctree/save.go:52-92 | what comes back is the saved tree with split bits cut to bytes; it is the best tree, node for node, iff that was saved with all split bits below 256 |
| Caps.NLeadingZeros | bits.go:37-73 | 64 minus the position of the highest set bit, for every word |
| Caps.RoundIsCap | cap.go:19-49 | rounding never goes down and gives 2^i or 2^i + 2^j of at least 8, with these exponents read back |
| Caps.RoundIsLeast | cap.go:19-49 | no smaller capacity in units of 8 has room |
| Caps.NextUnitGrows | cap.go:51-69 | a next capacity is always larger |
| Caps.NextUnitIsClose | cap.go:51-69 | how much larger: the least capacity above 1.41, 1.09 or 1.044 times the old one |
| HashSlots.XorStays | hash.go:235-256 | displacement stays in the aligned bucket |
| HashSlots.XorReaches | hash.go:265-276 | every slot of the bucket is some displacement of the base index |
| HashSlots.SlotInRange | hash.go:213-219 | base indices of both tables and their displacements are in range |
| HashTables.EarlyExit | hash.go:247-252 | from the largest difference of the bucket on there is no key to find |
| HashTables.TakePlaced | hash.go:181-188 | a key in a free slot of its bucket keeps all slots right |
| HashTables.AllProbed | hash.go:265-276 | a search for a free slot fails only if the whole bucket is taken |
| HashTables.RaisedIsCap | hash.go:440-446 | the second table is made at least a bucket large and the capacity keeps its form |
| HashTables.MovedAll | hash.go:465-491 | the copy list takes along every key |
| HashIndices.Hash.SearchBase | hash.go:235-256 | finds the slot of a key iff it is there, with the early exit |
| HashIndices.Hash.SearchFreeIndex | hash.go:265-276 | the free slot of least difference, or none iff the bucket is full |
| HashIndices.Hash.Get | hash.go:323-335 | agrees with the owner's map of keys |
| HashIndices.Hash.Set | hash.go:337-376 | the slot of the key, new iff it was not there, all other keys kept; it grows only if the key's bucket is full, and succeeds iff the key was there, its bucket had room, or one of the seeds is lucky for all keys and the new one |
| HashIndices.Hash.Unset | hash.go:378-390 | removes exactly this key |
| HashIndices.Hash.Clear | hash.go:392-401 | removes all keys and keeps the room |
| HashIndices.Hash.Alloc | hash.go:421-463 | two tables of whole buckets of at most 2^7 slots, all free |
| HashLuck.LayoutShares | hash.go:421-447 | table 0 gets its share in the capacity of the 32-bit limits, or all; buckets are as large as table 0 and a byte for the difference allow |
| HashIndices.Hash.HashResize | mctree/pair.go:66-76 | the owner's table after the copies |
| HashIndices.Hash.CopyKeys | hash.go:465-491 | succeeds iff no bucket gets more keys than it has slots; then every key has a slot and the copy list pairs old and new slots one to one, else the owner was told nothing; writes to the list stay in range |
| HashIndices.Hash.GrowAndCopy | hash.go:364-373 | a larger index with the same keys, with the first of the seeds that is lucky for them, whatever number of attempts it takes |
| HashLuck.PlacedLucky | hash.go:265-276 | keys that all have a slot do not overfill any bucket |
| HashLuck.FullUnlucky | hash.go:265-276 | a key that finds its bucket full overfills it together with those there |
| BitCompress.RoundMoves | bits.go:151-153 | one round moves exactly the bits with an odd number of remaining steps, and no two bits meet |
| BitCompress.RoundFinds | bits.go:143-150 | prefix parity of the marked zeros finds exactly those bits |
| BitCompress.RoundKeeps | bits.go:151 | every second marked zero is kept for the next round |
| BitCompress.PackedFillsLowEnd | bits.go:159-174 | packing leaves no gap at the low end |
| BitCompress.BitCompressUint64.SetMask | bits.go:137-155 | the seven words that any later Compress needs, for every mask |
| BitCompress.BitCompressUint64.Compress | bits.go:159-174 | for every mask and word, each masked bit goes to the number of mask bits below it |
| BitCompress.SlowCompress | bits_test.go:12-24 | the bit by bit reference computes the same packing |
| PopCount.Constants | bits.go:29-31 | the masks of the source are every other field of 1, 2 and 4 bits |
| PopCount.PairsKeepSum | bits.go:29-31 | adding neighbouring fields into fields twice as wide keeps the sum of all fields and loses no carry |
| PopCount.Multiply | bits.go:32-33 | the top byte of the product, cut to 64 bits, is the sum of the eight bytes |
| PopCount.NSetBits | bits.go:27-34 | the number of set bits, for every 64-bit word |
| SparseRank.RankByWord | sparse.go:17-18 | the rank of an index is the set bits of the words before plus those below it in its word |
| SparseRank.RankOrder | sparse.go:21-33 | present indices and their ranks are in the same order |
| SparseRank.RankOnto | sparse.go:21-33 | every number below the number of present indices is the rank of one |
| SparseRank.Sparse.Get | sparse.go:21-33 | present iff marked, and then the rank |
| SparseRank.Sparse.Extend | sparse.go:53-63 | growing marks nothing and leaves every count the number of bits in the words before |
| SparseRank.Sparse.Set | sparse.go:50-74 | exactly this index is marked in addition, all counts stay right, and a new index gets its rank |
| SparseRank.Sparse.Unset | sparse.go:76-85 | exactly this index is unmarked, all counts stay right, and the result says whether it was there |
| DepOrder.RespectsMeansAcyclic | dep/dep.go:83-118 | only a graph without cycles has such an order |
| DepOrder.OrderIsRight | dep/dep.go:83-118 | dependencies come before their owner, anti-dependencies after it |
| DepOrder.Deps.OrderHelper | dep/dep.go:49-59 | terminates even on cycles, appends each hook once, after what it depends on if there are no cycles, and what it depends on in the turn of its list |
| DepOrder.Deps.Combine | dep/dep.go:84-105 | the combined lists hold exactly what either side named |
| DepOrder.Deps.Sort | dep/dep.go:83-118 | whatever the sort by user order gives, a permutation of all hooks that respects all dependencies iff they have no cycle; what comes before a hook is reached through dependencies from it or from one sorted before it |
| DepOrder.UserOrderKept | dep/dep.go:39-46 | if hooks are sorted by user order, whatever comes before a hook is reached from one of no higher user order |
| DepOrder.NoDepsNoMoves | dep/dep.go:107-117 | without dependencies the order is the sorted one |
| DepOrder.Deps.Index | dep/dep.go:61-75 | the place in the order or from its end, computed once |
| StreamFrames.UvarintOfPut | srpc/srpc.go:141-160 | reading back a length, whatever follows, and never a value from a part of it |
| StreamFrames.FrameBytes | srpc/srpc.go:141-153 | the bytes of a header: odd first for a client, the length in groups of seven bits, lowest first |
| StreamFrames.ParseMore | srpc/srpc.go:162-217 | reading on with more bytes continues where whole frames ended |
| StreamFrames.ParsePrefix | srpc/srpc.go:162-199 | of any part of a stream exactly the complete frames are read and no byte of the next, and no length wraps around |
| StreamFrames.WrapExample | srpc/srpc.go:174-177 | ten bytes whose frame length wraps around |
| StreamConns.Writer.Write | srpc/srpc.go:98-123 | one write is one frame |
| StreamConns.Server.Input | srpc/srpc.go:162-199 | hands side 0, the server, exactly the payloads of the client's whole frames, and side 1 those of the server's, in order, and says how many bytes they took; a panic iff the header after them announces a length that wraps around |
| StreamConns.Server.Serve | srpc/srpc.go:201-217 | any piece of the stream keeps read, pending and fed bytes in agreement, unless a length wraps around, which is a panic |
| StreamConns.Server.Read | srpc/srpc.go:69-96 | any read size takes the next bytes of that side, as many as fit and are at hand, and loses none |
| StreamConns.Delivery | srpc/srpc.go:69-217 | over all writes, pieces and reads: side 0 has read the start of what the client wrote, side 1 of what the server wrote, and all of it is there once the stream has come in |
| LoopHandshake.NextKeeps | loop/loop.go:225-348 | every step of the main loop, of a poller and of Resume or Activate keeps the protocol's invariant |
| LoopHandshake.RunIsSafe | loop/loop.go:225-348 | over every run a poller is polling iff exactly one holds: token out, goroutine running, token back |
| LoopHandshake.SendsNeverBlock | loop/loop.go:242-243 | no send on either channel ever blocks |
| LoopHandshake.StartsOnlyWaiting | loop/loop.go:302-314 | only a waiting goroutine is started, never one marked suspended, and one inside Suspend only after a Resume |
| LoopHandshake.SuspendedStays | loop/loop.go:225-273 | a suspended goroutine stays so until someone resumes it |
| LoopHandshake.EveryRoundRuns | loop/loop.go:302-330 | in every round of every run, each poller that is active and not suspended runs |
| LoopHandshake.ResumeRuns | loop/loop.go:253-273 | a poller inside Suspend that is resumed, and stays active, runs before the end of the next round |
| LoopHandshake.ActivateRuns | loop/loop.go:136-161 | so does a waiting poller that is switched on |
| LoopHandshake.InactiveRests | loop/loop.go:302-306 | over any number of rounds a poller that is not active does not run |
| LoopHandshake.ReadyStarts | loop/loop.go:304-312 | at its next check a resumed poller is started |
| LoopHandshake.ResumeNotLost | loop/loop.go:225-251 | after a Resume that came first Suspend returns without giving up control; without one it takes effect |
| LoopHandshake.SuspendAgain | loop/loop.go:248-250 | one Resume ends one Suspend |
| LoopHandshake.NoDeadlock | loop/loop.go:316-330 | the main loop never waits for a token that cannot come |
| LoopHandshake.RoundEndsQuiet | loop/loop.go:316-348 | between rounds no poller runs and no token is on the way |
| LoopPending.ReadBack | loop/call.go:367-373 | a length is read back as it was set iff it is 1 to 256 |
| LoopPending.SendKeeps | loop/call.go:349-361 | an output's mark is set iff it is on the worklist, where it is only once, and its length is the one last set |
| LoopPending.TakeKeeps | loop/call.go:410-424 | the same after an edge was taken off and its output reset |
| LoopPending.CallsInOrder | loop/call.go:399-436 | edges are called first in, first out, whatever the called nodes send |
| LoopPending.AllInOrder | loop/call.go:399-436 | the edges called are, in order, those pending and then all that become so |
| LoopPending.CallAt | loop/call.go:406-420 | each call is to the node behind the first edge of the queue at that time, with the length it then has |
| LoopPending.LastSet | loop/call.go:349-351 | that length is the one set last, or the one before if none was set |
| LoopPending.Poller.SetLen | loop/call.go:349-361 | queues the edge iff it is not queued and the length is above 0, and notes the length either way |
| LoopPending.Poller.TotalVectors | loop/call.go:375-381 | the lengths of all queued edges, all of the current node, as they will be read back; 0 iff nothing is queued |
| LoopPending.Poller.CallPending | loop/call.go:392-440 | the calls are to the edges pending and then to all that become so, in order, each to the next node that its output names and with the length last set; then no edge is pending, and none has a length if only pending ones had |
| BufferPools.SizesThatServe | hw/buf.go:427-435 | every request allocates some buffers at a time iff a buffer has at most 2^19 bytes |
| BufferPools.StillFollows | hw/buf.go:565-587 | what follows a buffer is unchanged by resetting others of the same free |
| BufferPools.FlatKnown | hw/buf.go:507-523 | all that follows freed buffers is memory of the pool |
| BufferPools.CarvedValid | hw/buf.go:439-459 | buffers carved from a free region overlap no other and are as new |
| BufferPools.FreedValid | hw/buf.go:606-637 | a pool is valid with returned references that were not in it |
| BufferPools.CopyRefs | hw/buf.go:481-500 | every stride-th place gets its reference and no other place changes; four at a time equals one at a time |
| BufferPools.BufferPool.AllocRefsStride | hw/buf.go:421-471 | hands out exactly the wanted number of distinct free buffers, those free before or new ones that overlap none; the others stay free |
| BufferPools.BufferPool.Free4 | hw/buf.go:526-545 | four buffers reset but for their saved words, also if some are the same |
| BufferPools.BufferPool.AddNext | hw/buf.go:507-523 | notes all references that follow, in order, and ends |
| BufferPools.BufferPool.FreeRefsNext | hw/buf.go:565-587 | all are reset, and what follows each was noted before it was lost |
| BufferPools.BufferPool.FreeRefsNoNext | hw/buf.go:589-602 | the same without following |
| BufferPools.BufferPool.FreeRefs | hw/buf.go:606-637 | exactly the freed references and all that follow them come back, each once, reset, with saved words kept |

## Left out

- FibHeap.Merge: re-adding each root clears its children and relinks it before the next root is read, so it does not keep a heap.
- FibHeaps.FibHeap.Min: required below F(34) live nodes, the range in which the fixed degree table is large enough.
- FibHeaps.FibHeap.Add: indices are below the two reserved values of a 32-bit index, and not in the heap already, as the source asks of its callers.
- Heap.GetUsage, which also counts recycled elements; conservation is stated over the chain.
- Heap.freeBefore, which nothing calls.
- BlockHeaps.Heap.Get: required that sizes stay below the reserved 32-bit value, and, when a request is the largest so far, that list 0 holds only blocks larger than it.
- BlockHeaps.Heap.Put: the id is one of an element, whether handed out or not; any other is an index panic.
- BlockHeaps.Heap.GetAligned: the same, and a size above 0 (`BlockHeaps.EmptyBlock`).
- EventPools.Pool.Advance: actions that run while the queue is advanced and change it are not modelled, nor that `advance` never recycles slots of expired events; membership of the heap is what counts.
- EventPools.Pool.Add: the new time is less than 2^63 from every queued one, where the comparison is an order.
- The hash inside a leaf's offset vector and the places its entries have in the vector; the model keeps the listed offsets in insertion order.
- The two tree slots picked by the parity of the sequence number; the model names the best tree and the trial slot, whose roots change places when a step is accepted.
- TernaryMains.Main.Step: the floating-point cost is compared exactly, as a product of counts; the temperature is positive, and whether a costlier change passes is a random choice of its own. The source tries without end, the model a given number of times.
- TernaryMains.Main.AddDel: key values are sets of bit numbers of any size, so word boundaries are not modelled; the panic for an absent pair is raised before the first leaf instead of in it.
- TernaryMains.Main.constructor: the least number of pairs for a split is above 0; with 0 the source panics over a random number below 0 choices when it meets an empty leaf.
- Bit numbers and node indices of the classifier are not cut to 32 bits; only the saved split bits are cut to bytes.
- TernarySaves.Restore: required to start from a classifier that has only its first leaf and took no step, the only use that does not leak the old tree; files and their encoding are not modelled.
- HashIndices.Hash.Set: the loop over random seeds gets a list of them and stops when it is used up, since nothing makes a lucky seed certain; it succeeds exactly when one of them is lucky; the owner stores the key in the same step.
- Hash mixing and the limits it yields: a hash is any function of seed and key. How evenly keys spread, and how often the index grows, is not stated.
- Caps.NextUnitGrows: the factors are their decimal constants as fractions, not floating point, and capacities are not cut to 32 bits.
- HashIndices.Hash.HashResize: models the owner in `mctree/pair.go`; the one in `mctree/mctree.go` differs in where the vector comes from.
- Iterating the hash index (`ForeachIndex`, `NextIndex`, `RandIndex`) and its statistics.
- DepOrder.Deps.Sort: a second sort after further adds is not modelled, since positions then no longer match the saved indices; nor is the order among hooks of equal user order, which the comparison does not define.
- StreamConns.Server.Serve: channels have room for everything, recycled buffers are new ones, and closing is left out; a buffer is more than ten bytes shorter than 2^63.
- StreamConns.Server.Input: the same bound on the buffer.
- StreamFrames.ParsePrefix: a frame with its header is shorter than 2^63 bytes, as any that a writer can hold.
- LoopHandshake.NextKeeps: pollers only; nodes that also take events, timers, statistics and elog are left out, and a compare-and-swap loop is the one step in which it succeeds.
- SparseRank.Sparse.Set: gives 0 for an index that is present already, as the code does; counts are not cut to 32 bits.
- SparseRank.Sparse.Unset: required that the index lies within the vector, since the code reads it unchecked.
- LoopPending.Poller.TotalVectors: the pending edges are those of the current node, as they are at the only call.
- LoopPending.Poller.CallPending: what nodes send is any function of the call's number and the node that sends nothing from some call on; the run does not end otherwise. Statistics and times are left out.
- BufferPools.BufferPool.AllocRefsStride: buffers have at most 2^19 bytes, exactly the sizes for which no request runs without end; the memory allocator is any choice of a free region. `InitRefs`, which users may override, and initial data are left out.
- BufferPools.BufferPool.FreeRefs: packets are finite and share no buffer, as the source's debug states demand; the flags and the opaque part of a reference are one number. Locks and those debug states are left out.
- Bitmap pools (`bitmap.go`), which the dependency order and the worklist use as sets.
- Devices, sockets, parsing, tables, code generation and everything that talks to the operating system.
