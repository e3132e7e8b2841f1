# Allocators, red-black trees, buffered reading and a proxy cache, verified

A Dafny model of the C programs of the repository whose state is hardest to get right: the
heap allocators of the malloc lab, the two red-black trees of the rbtree lab, Rio's buffered
reading and the response cache of the web proxy, and an iterative tree traversal.

Code that changes memory step by step is modelled as code that changes memory step by step:
fields of linked objects, or words of one array that is the whole heap. Each method is proved
against a mathematical picture of the structure, and the promises are stated on the picture.

- **Trees as pictures.** `Trees` has the coloured tree, the tree with a hole (`Ctx`, `Plug`), and
  the red-black rules on both sides of the hole. `Links` ties a picture to a store of parent and
  child links. `Rebalance` has every colour and rotation step of the fixup loops, on pictures. The
  same three modules serve linked objects (`RbTrees`, `RbTrees2`) and the tree whose links are
  words inside free heap blocks (`HeapTree`).
- **The tag-compressed allocator** (mm_tree_rbtree.c). `Blocks` is the layout, a map from block
  pointers to sizes and states that tiles the heap; `FreeList` the circular list of small free
  blocks; `HeapIndex` list and tree together; `TreeAllocators` the allocator. During a call a block
  can be `Loose` (free, in no index) or `Limbo` (what mm_realloc leaves behind while it looks for
  another place). `TreeRuns` states what a program sees over a whole run.
- **The header-and-footer allocators.** `ImplicitLists` writes the heap out as the list of its
  blocks; it has first fit and next fit with the rover. `SegLists` has the twenty size classes, and
  `SegHeaps` the heap indexed by them, with LIFO or with descending lists. A `Grant` is a live block
  as the program sees it: address, size, words. `Layouts` forgets what blocks hold: sizes, which
  blocks are live, and how many free neighbours touch. `GrantRuns` has the whole runs.
- **The rest.** `Rio`, `Cache`, `PostOrder` and `Traversal` stand alone.

Sizes are in double words (8 bytes) and addresses are word indices, so a pointer that the C code
moves by 4 bytes moves by one here. What read hands out, and the response a cache miss fetches,
are parameters: the results hold for all of them.

## Findings

Places where the code does not do what its text suggests; each has its witness and its exact
condition.

| code | what happens | proved in |
|---|---|---|
| rbtree-lab-main/src/rbtree.c:342-361 | rbtree_to_array checks its bound on entry to a subtree only. With three keys and room for one it writes two. It stays in bounds if and only if n is 0, the tree has at most n keys, or the n-th node in order lies on the right spine; it never writes more than about 2*log2(keys + 1) too many. | `Traversal.Overrun`, `Traversal.VisitedFits`, `Traversal.ExcessBound` |
| webproxy-lab-main/cache.c:41-95 | write_cache stores into an empty list whatever the budget says. With ten hits in flight, an eleventh copy of a 102399-byte response brings cache_left below zero. From a positive budget it stays positive if and only if the list is not empty or the response is shorter than cache_left; with nothing in flight that cannot fail. | `Cache.OverBudget`, `Cache.BudgetKept`, `Cache.BudgetAlone` |
| webproxy-lab-main/cache.c:54-71 | write_cache that has just evicted the last entry returns without storing, even when there is now room: ten copies of a 102399-byte response stored and nine taken out by hits, an eleventh write evicts the last, has 127409 bytes, and stores nothing. It stores if and only if the list was empty or the response is shorter than cache_left with all entries but the newest evicted; with nothing in flight it always stores. | `Cache.RefusedWithRoom`, `Cache.StoredIff`, `Cache.StoredWhenNoneCarried` |
| malloc-lab-main/mm_tree_rbtree.c:524 | SPLIT_BACK, described as taking the free part from the back, is the condition under which the new block goes to the front and the back stays free. | `TreeAllocators.TreeAllocator.Place` |
| malloc-lab-main/mm_seg_bestfit.c:212-218 | The reserved block is released without coalescing. Until then no two free blocks touch; the release makes a touching pair if and only if the block behind the reserved one is free, and from then on there is at most one. malloc(16), malloc(4064), freeing the first and malloc(4092) make one. That the lists hold exactly the free blocks does survive. | `SegHeaps.TouchingRun`, `SegHeaps.SegHeap.ReleaseReserved`, `SegHeaps.SegHeap.Malloc` |
| webproxy-lab-main/csapp.c:853-893 | After a read that fails, the bytes already transferred by the call are gone from the stream and the caller is not told how many. A call fails if and only if a failing read is ahead and the bytes before it fall short of the request (for a line: hold no newline and do not reach the limit); exactly those bytes are lost, so none are if and only if the buffer is empty and the failure precedes every piece. With one byte and then a failure, a request for two loses the byte. | `Rio.LostByte`, `Rio.Buffer.ReadBlock`, `Rio.Buffer.ReadLine`, `Rio.NothingLost` |

## Model

| member | source | states |
|---|---|---|
| Trees.RotateLeftKeeps | rbtree-lab-main/src/rbtree.c:129-150 | a left rotation keeps the visiting order and the node set, and a right rotation undoes it |
| Trees.RotateRightKeeps | rbtree-lab-main/src/rbtree.c:151-172 | the mirror image |
| Trees.PlugRB | rbtree-lab-main/src/rbtree.c:66-127 | a tree with a hole obeys the red-black rules exactly when the part in the hole does and its surroundings accept its colour and black height; every fixup step rests on it |
| Trees.HeightBound | rbtree-lab-main/src/rbtree.c:175-192 | a red-black tree of n keys has height at most 2*log2(n + 1) |
| Rebalance.RecolorStepOk | rbtree-lab-main/src/rbtree.c:78-84 | with a red uncle, recolouring moves the one possible violation two levels up and changes nothing else |
| Rebalance.LiftRightOk | rbtree-lab-main/src/rbtree.c:93-96 | with a black uncle, recolouring and one right rotation at the grandparent end the violation and keep the order |
| Rebalance.LiftLeftOk | rbtree-lab-main/src/rbtree.c:118-121 | the mirror image |
| Rebalance.Case1LeftOk | rbtree-lab-main/src/rbtree.c:279-285 | a red sibling is rotated away: the missing black stays at the node, now one level lower and with a black sibling; order kept |
| Rebalance.Case1RightOk | rbtree-lab-main/src/rbtree.c:309-315 | the mirror image |
| Rebalance.Case2Ok | rbtree-lab-main/src/rbtree.c:287-290 | two black nephews: recolouring the sibling hands the missing black to the parent |
| Rebalance.Case3LeftOk | rbtree-lab-main/src/rbtree.c:292-298 | a red inner nephew becomes a red outer one; the missing black stays; order kept |
| Rebalance.Case3RightOk | rbtree-lab-main/src/rbtree.c:322-328 | the mirror image |
| Rebalance.Case4LeftOk | rbtree-lab-main/src/rbtree.c:299-304 | a red outer nephew: recolouring and one rotation repay the missing black |
| Rebalance.Case4RightOk | rbtree-lab-main/src/rbtree.c:329-334 | the mirror image |
| RbTrees.RbTree.LeftRotate | rbtree-lab-main/src/rbtree.c:129-150 | the linked nodes afterwards are exactly the rotated tree, and nothing happens without a right child |
| RbTrees.RbTree.RightRotate | rbtree-lab-main/src/rbtree.c:151-172 | the mirror image |
| RbTrees.RbTree.InsertFixup | rbtree-lab-main/src/rbtree.c:66-127 | from a tree whose only fault is one red node under a red parent or at the root, a red-black tree with the same visiting order |
| RbTrees.RbTree.Insert | rbtree-lab-main/src/rbtree.c:38-65 | one new node, behind all keys not greater and before all greater ones; all invariants kept; the descent takes at most 2*log2(n + 1) steps |
| RbTrees.RbTree.Transplant | rbtree-lab-main/src/rbtree.c:263-271 | the parent of u now has v where u was, and v, which may be the shared sentinel, has u's parent |
| RbTrees.RbTree.EraseFixup | rbtree-lab-main/src/rbtree.c:272-340 | from a tree short of one black at the start node, which may be the sentinel, a red-black tree with the same visiting order; the loop ends |
| RbTrees.RbTree.EraseNode | rbtree-lab-main/src/rbtree.c:214-261 | the node set loses p and the visiting order loses its position, in all three cases of erase |
| RbTrees.RbTree.Erase | rbtree-lab-main/src/rbtree.c:214-340 | exactly node p leaves; all other nodes keep identity, key and order; all red-black and parent-pointer invariants hold again |
| RbTrees.RbTree.Find | rbtree-lab-main/src/rbtree.c:175-192 | finds a node with the key exactly when there is one, in at most 2*log2(n + 1) steps |
| RbTrees.RbTree.Min | rbtree-lab-main/src/rbtree.c:194-202 | the first node in order, or the sentinel |
| RbTrees.RbTree.Max | rbtree-lab-main/src/rbtree.c:204-212 | the last node in order, or the sentinel |
| RbTrees.RbTree.ToArray | rbtree-lab-main/src/rbtree.c:342-361 | what is written: first the smallest keys in order; no more than n exactly under the stated condition |
| Traversal.VisitedPrefix | rbtree-lab-main/src/rbtree.c:355-361 | the first keys written are the smallest ones in order, as many as there are or as there is room for |
| Traversal.VisitedFits | rbtree-lab-main/src/rbtree.c:355-361 | the walk stays within its bound if and only if it ends there or stops on the right spine |
| Traversal.Overrun | rbtree-lab-main/src/rbtree.c:342-361 | three keys and a bound of one: two writes |
| Traversal.VisitedExcess | rbtree-lab-main/src/rbtree.c:355-361 | the walk goes past its bound by less than the height of the tree |
| Traversal.ExcessBound | rbtree-lab-main/src/rbtree.c:342-361 | keys past the bound number at most about 2*log2(keys + 1), so a room that is always enough is known |
| RbTrees2.Insert | rbtree-lab-main/src/rbtree2.c:112-208 | one new node behind all keys not greater; the colour loop restores the red-black rules |
| RbTrees2.SwapDown | rbtree-lab-main/src/rbtree2.c:377-415 | exchanging keys with neighbours in order ends at a leaf, and the key sequence without the travelling key never changes |
| RbTrees2.EraseNode | rbtree-lab-main/src/rbtree2.c:266-375 | rebalancing with the leaf still attached, then unlinking it, gives a red-black tree with the same order less the leaf; a node with a child is refused |
| RbTrees2.Erase | rbtree-lab-main/src/rbtree2.c:377-415 | the key sequence loses exactly the key p held, at p's position; the node that leaves may be another |
| Words.OfValue | malloc-lab-main/mm_tree_rbtree.c:124-145 | every unsigned value has its split into size, colour, tag and allocation bit |
| Words.SplitIsExact | malloc-lab-main/mm_tree_rbtree.c:124-145 | and the split loses nothing: a word is determined by its value |
| Words.PackValue | malloc-lab-main/mm_tree_rbtree.c:124-145 | PACK combines size and bit without overlap |
| Memlib.Sbrk | malloc-lab-main/memlib.c:58-69 | the break moves up by the request, or nothing changes and the call fails |
| HeapTree.LeftRotate | malloc-lab-main/mm_tree_rbtree.c:232-252 | the words of the free blocks now spell the rotated tree, and only link words and colour bits of tree blocks were written |
| HeapTree.RightRotate | malloc-lab-main/mm_tree_rbtree.c:255-275 | the mirror image |
| HeapTree.InsertFixup | malloc-lab-main/mm_tree_rbtree.c:278-321 | red-black rules restored, order kept, no word written through NIL |
| HeapTree.LowerBound | malloc-lab-main/mm_tree_rbtree.c:323-339 | a smallest block that is big enough, NIL exactly when no block is |
| HeapTree.Insert | malloc-lab-main/mm_tree_rbtree.c:341-371 | the tree gains exactly the block, before all blocks not smaller; red-black and size order kept; only links and colours of tree blocks written |
| HeapTree.EraseFixup | malloc-lab-main/mm_tree_rbtree.c:374-455 | the missing black, under a node that may be NIL, is repaid; order kept; NIL's words, which are list head and prologue, untouched |
| HeapTree.Transplant | malloc-lab-main/mm_tree_rbtree.c:218-229 | memory changes in exactly the one link to u and, unless v is NIL, in v's parent word |
| HeapTree.Erase | malloc-lab-main/mm_tree_rbtree.c:457-500 | the tree loses exactly block z and no other moves in the order; red-black rules hold |
| FreeList.PushFront | malloc-lab-main/mm_tree_rbtree.c:195-200 | the block becomes the first of the circular list |
| FreeList.Unlink | malloc-lab-main/mm_tree_rbtree.c:192-193 | the circular list loses exactly the block |
| Blocks.Cover | malloc-lab-main/mm_tree_rbtree.c:529-556 | every word between prologue and epilogue is in exactly one block |
| Blocks.TagPrev | malloc-lab-main/mm_tree_rbtree.c:697-725 | a clear tag leads through the footer to a free block right before |
| Blocks.Reshape | malloc-lab-main/mm_tree_rbtree.c:645-725 | rewriting one stretch of the heap, headers and all, keeps the layout of everything around it |
| HeapIndex.EraseFromIndex | malloc-lab-main/mm_tree_rbtree.c:507-513 | a free block leaves list or tree, whichever its size says; layout and contents stay |
| HeapIndex.InsertIntoIndex | malloc-lab-main/mm_tree_rbtree.c:507-725 | a block between allocated neighbours enters list or tree, and the whole invariant holds |
| TreeAllocators.SizeInNeed | malloc-lab-main/mm_tree_rbtree.c:558-561 | the least legal block that holds the request besides its header |
| TreeAllocators.TreeAllocator.Coalesce | malloc-lab-main/mm_tree_rbtree.c:697-725 | the block and the free blocks around it become one, their index entries go, and its neighbours are allocated |
| TreeAllocators.TreeAllocator.ExtendHeap | malloc-lab-main/mm_tree_rbtree.c:563-582 | fails exactly when memlib has no more; else one block reaches from the last free block to the new end |
| TreeAllocators.TreeAllocator.Place | malloc-lab-main/mm_tree_rbtree.c:645-677 | takes the whole block when less than 16 bytes would be left; else its front when the block needed is under 96 bytes or the rest under 48, or a plain split is asked for, and else its back; the new block map exactly, with the rest indexed |
| TreeAllocators.TreeAllocator.FindFit | malloc-lab-main/mm_tree_rbtree.c:629-638 | takes a listed block that is big enough, null exactly when none is |
| TreeAllocators.TreeAllocator.MallocWrapped | malloc-lab-main/mm_tree_rbtree.c:584-618 | null exactly when nothing is asked for, or nothing fits and memlib cannot give max(request, 4096) bytes counted from the free block at the end, or, inside mm_realloc, from the end; then nothing changes; the break afterwards; the new block map: the cut of a smallest free block that is big enough, or of the last free block joined with the new memory |
| TreeAllocators.TreeAllocator.Malloc | malloc-lab-main/mm_tree_rbtree.c:624-624 | the same for a program: a block in use nowhere before, at most 8 bytes bigger than the least legal one, cut from a best fit or from the grown end; every other block in use stays where it is with its contents; the heap invariant holds |
| TreeAllocators.TreeAllocator.Release | malloc-lab-main/mm_tree_rbtree.c:682-695 | the block and exactly its free neighbours become one indexed free block; all other blocks and contents kept |
| TreeAllocators.TreeAllocator.Init | malloc-lab-main/mm_tree_rbtree.c:529-556 | succeeds exactly when memory suffices for one chunk, which is then the one free block |
| TreeAllocators.TreeAllocator.Realloc | malloc-lab-main/mm_tree_rbtree.c:730-818 | which branch answers, on the old block map: in place if the block suffices; else joined with the free block behind it; else slid down over the free block before it; else both; else, at the end of the heap, cut to exactly the request with only what is missing taken from memlib; else moved to what mm_malloc gives, the old run freed. The new map, break and pointer in each case; null exactly if all fail; the first words are those of the old payload and no other payload changes; out of memory, some block in use still begins with the old payload |
| TreeAllocators.TreeAllocator.Resize | malloc-lab-main/mm_tree_rbtree.c:745-818 | the same from the guards of the code, which read header and tag words: the answer is the one the block map dictates |
| TreeAllocators.AnswerNull | malloc-lab-main/mm_tree_rbtree.c:745-818 | mm_realloc of a live block has to fail exactly when the block with its free neighbours is too small and memlib cannot extend it at the end, or nothing fits and memlib cannot extend the heap for it elsewhere |
| TreeAllocators.TreeAllocator.Payloads | malloc-lab-main/mm_tree_rbtree.c:529-725 | between calls payloads are aligned, inside the heap and pairwise disjoint, and no two free blocks touch |
| TreeAllocators.TreeAllocator.IndexedOnce | malloc-lab-main/mm_tree_rbtree.c:507-725 | each free block under 24 bytes is once in the list, each other free block once in the tree, and no allocated block is in either |
| TreeAllocators.TreeAllocator.TagsAgree | malloc-lab-main/mm_tree_rbtree.c:529-725 | headers, tag bits and free footers say what the blocks are |
| TreeRuns.Program.Run | malloc-lab-main/mm_tree_rbtree.c:529-818 | over any run of malloc, free, realloc and writes, a program sees independent handles that hold what it put there; an allocation fails exactly when nothing fits and memlib cannot give the extension; the run stops early exactly at a mm_realloc that has to fail, and then all contents are still there |
| ImplicitLists.AdjustedSize | malloc-lab-main/mm_linkedlist_firstfit.c:122-148 | the least block with room for the request, header and footer |
| ImplicitLists.ImplicitHeap.FirstFit | malloc-lab-main/mm_linkedlist_firstfit.c:286-298 | the first free block that is big enough, null exactly when none is |
| ImplicitLists.ImplicitHeap.NextFit | malloc-lab-main/mm_linkedlist_nextfit.c:223-242 | the first fit from the rover on, then from the start; null exactly when no free block fits; the rover is at a block boundary |
| ImplicitLists.ImplicitHeap.Place | malloc-lab-main/mm_linkedlist_firstfit.c:266-283 | splits when the rest is a block; what the block held in front stays; the rover is right behind the placed block |
| ImplicitLists.ImplicitHeap.Coalesce | malloc-lab-main/mm_linkedlist_firstfit.c:302-334 | the recursion ends, and the maximal run of free blocks around the block is one block with allocated neighbours |
| ImplicitLists.ImplicitHeap.ExtendHeap | malloc-lab-main/mm_linkedlist_firstfit.c:247-263 | fails exactly when memlib has no more; else the new memory and the free blocks before it are one block |
| ImplicitLists.GrewEnough | malloc-lab-main/mm_linkedlist_firstfit.c:122-148 | a chunk or the request, less a last free block that is too small, makes a block that is big enough |
| ImplicitLists.ImplicitHeap.Malloc | malloc-lab-main/mm_linkedlist_firstfit.c:122-148 | null exactly when nothing fits and memlib cannot give max(request, 4096) bytes less the last block if that is free; then nothing changes, the rover included; else one new grant, at most 8 bytes bigger than the least, and no other change; the chosen block is the one the search from the rover finds, and the block list is the old one with it cut; on growth, exactly that extension, and the grant right behind the last live block; the rover is right behind the grant; free space drops by exactly its size |
| ImplicitLists.ImplicitHeap.Release | malloc-lab-main/mm_linkedlist_firstfit.c:153-160 | exactly one grant disappears and free space grows by exactly its size; the rover is at the merged free block, which the freed one is part of |
| ImplicitLists.ImplicitHeap.Realloc | malloc-lab-main/mm_linkedlist_firstfit.c:163-239 | the grant is replaced by one that is big enough, by at most 8 bytes, and agrees with it as far as both reach; the pointer stays exactly when the block suffices, with a free block behind it, or at the end with memlib able to give the rest, a chunk at least; else the block the search finds; the break and the rover in each case; null exactly when neither is possible, and then nothing changes |
| ImplicitLists.ImplicitHeap.Init | malloc-lab-main/mm_linkedlist_firstfit.c:98-116 | succeeds exactly when memory suffices; one free chunk |
| GrantRuns.ListProgram.Run | malloc-lab-main/mm_linkedlist_nextfit.c:67-273 | over any run of malloc, free, realloc and writes, with either search, no operation disturbs another handle; an allocation fails exactly when memory is exhausted, a resize exactly when it can neither stay nor move, changing nothing; with next fit, every search starts right behind the block placed last or at the block merged last |
| SegLists.SegMonotone | malloc-lab-main/mm_seg_bestfit.c:120-141 | size classes grow with the size |
| SegLists.ClassLimits | malloc-lab-main/mm_seg_bestfit.c:120-141 | a size is in one of the first i + 1 classes exactly when it is at most the i-th limit of the table |
| SegLists.Insert | malloc-lab-main/mm_seg_bestfit.c:342-360 | the list of the block's class gains it in front, predecessor and successor links inverse; only links of free blocks written |
| SegLists.Remove | malloc-lab-main/mm_seg_bestfit.c:362-384 | the list of the block's class loses exactly it |
| SegLists.FindBestFit | malloc-lab-main/mm_seg_bestfit.c:413-439 | a smallest fit among all free blocks of the heap, null exactly when there is none |
| SegLists.ClassBest | malloc-lab-main/mm_seg_bestfit.c:413-439 | the best block of the first class that has a fit is the best of all |
| SegLists.SortedPlace | malloc-lab-main/mm_seg_descend.c:364-402 | the search ends behind the last block not smaller, with the links around that place |
| SegLists.SortedInsert | malloc-lab-main/mm_seg_descend.c:364-402 | insertion there keeps every list descending |
| SegLists.KeepsDescending | malloc-lab-main/mm_seg_descend.c:364-402 | why: the place is between blocks not smaller and blocks smaller |
| SegLists.StaysDescending | malloc-lab-main/mm_seg_descend.c:404-426 | removal keeps every list descending |
| SegLists.FindSortedFit | malloc-lab-main/mm_seg_descend.c:456-492 | leaving a descending list at the first block that is too small loses nothing: still a smallest fit of the heap |
| SegHeaps.SegHeap.Place | malloc-lab-main/mm_seg_bestfit.c:387-411 | the block leaves its list, the rest of a split enters its own; all else keeps its shape |
| SegHeaps.SegHeap.Coalesce | malloc-lab-main/mm_seg_bestfit.c:443-479 | all four cases: free neighbours leave their lists, the merged block enters its own, and list i again holds exactly the free blocks of class i |
| SegHeaps.SegHeap.ExtendHeap | malloc-lab-main/mm_seg_bestfit.c:324-340 | as above for the new end, down to an extension of 8 bytes |
| SegHeaps.SegHeap.Malloc | malloc-lab-main/mm_seg_bestfit.c:178-224 | null exactly when nothing fits and memlib cannot give max(request, 4096) bytes less the last block if that is free; else one new grant, whose block is at most 8 bytes bigger than the least that serves; a globally smallest fit, or an extension by exactly that, so that the block it is cut from has exactly max(request, 4096) bytes; the new layout; when the reserved block is released |
| SegHeaps.ServedBlock | malloc-lab-main/mm_seg_bestfit.c:187-194 | the least block with room for the request, header and footer, except for requests of 112 and 448 bytes, which get 136 and 520 |
| SegHeaps.SegHeap.ReleaseReserved | malloc-lab-main/mm_seg_bestfit.c:212-218 | the reserved block becomes a listed free block and no grant changes; it touches a free block if and only if the block behind it is free |
| SegHeaps.TouchingRun | malloc-lab-main/mm_seg_bestfit.c:178-237 | four calls after which two free blocks touch |
| Layouts.TouchingPlaced | malloc-lab-main/mm_seg_bestfit.c:387-411 | placing makes no new pair of free neighbours |
| Layouts.TouchingCoalesced | malloc-lab-main/mm_seg_bestfit.c:443-479 | a merged block adds no pair of free neighbours, and no old pair is lost |
| Layouts.TouchingUnmerged | malloc-lab-main/mm_seg_bestfit.c:212-218 | freeing without merging adds one pair for each free neighbour |
| SegHeaps.SegHeap.Release | malloc-lab-main/mm_seg_bestfit.c:226-237 | exactly one grant disappears, its size is free again, the lists are right, and the layout is the old one with that block merged into its free neighbours |
| SegHeaps.SegHeap.Init | malloc-lab-main/mm_seg_bestfit.c:143-176 | succeeds exactly when memory suffices; no grants; prologue, reserved block and one free chunk |
| GrantRuns.SegProgram.Run | malloc-lab-main/mm_seg_bestfit.c:143-479 | over any run of malloc, free and writes, LIFO or descending, no operation disturbs another handle; an allocation fails exactly when memory is exhausted |
| Rio.LineLengthIs | webproxy-lab-main/csapp.c:866-893 | a line ends at the first newline, the limit or the end of the stream, whichever comes first, and nowhere else |
| Rio.Buffer.constructor | webproxy-lab-main/csapp.c:836-841 | a fresh buffer holds nothing and the whole stream is still to come |
| Rio.Buffer.Read | webproxy-lab-main/csapp.c:805-830 | hands over the next bytes of the stream, at least one unless at its end, whatever pieces read returned |
| Rio.Buffer.ReadBlock | webproxy-lab-main/csapp.c:847-864 | the next n bytes, fewer only at the end; fails exactly when a failing read comes before n bytes have, and then loses exactly the bytes before it |
| Rio.Buffer.ReadLine | webproxy-lab-main/csapp.c:870-893 | the next line, NUL-terminated, and nothing else of the caller's buffer changed; fails exactly when a failing read comes before the line is complete, and then loses exactly the bytes before it |
| Rio.NothingLost | webproxy-lab-main/csapp.c:805-893 | no byte comes before the failure if and only if the buffer is empty and the failing read precedes every piece |
| Rio.LostByte | webproxy-lab-main/csapp.c:847-864 | one byte, then a failure: a request for two fails and the byte is gone |
| Rio.Buffer.Serve | webproxy-lab-main/csapp.c:805-893 | any interleaving of line and block reads: results depend on the stream only, not on how read cuts or interrupts it |
| Rio.Consecutive | webproxy-lab-main/csapp.c:847-893 | those results are consecutive slices: nothing lost, repeated or reordered |
| Cache.CacheList.Pop | webproxy-lab-main/cache.c:129-133 | the doubly linked list loses exactly the entry, which keeps its own links |
| Cache.CacheList.Push | webproxy-lab-main/cache.c:139-145 | the entry becomes the most recently used |
| Cache.CacheList.ReadCache | webproxy-lab-main/cache.c:104-123 | takes out the most recently used entry for the request, null exactly when there is none |
| Cache.CacheList.PushCache | webproxy-lab-main/proxy.c:155-157 | an entry in flight returns to the front, and the budget still adds up |
| Cache.CacheList.WriteCache | webproxy-lab-main/cache.c:41-95 | evicts from the old end and stores, as the functions say, and the budget still adds up |
| Cache.FewestEvicted | webproxy-lab-main/cache.c:50-71 | the number evicted is the least that makes room, or all when no proper part does |
| Cache.WriteConserves | webproxy-lab-main/cache.c:41-95 | bytes free plus bytes listed are unchanged by write_cache |
| Cache.BudgetKept | webproxy-lab-main/cache.c:50-90 | the budget stays positive if and only if the list is not empty or there is room |
| Cache.BudgetAlone | webproxy-lab-main/cache.c:50-90 | with no entry in flight the budget stays positive |
| Cache.StoredIff | webproxy-lab-main/cache.c:54-71 | a response is stored if and only if the list was empty or there would be room with the newest entry kept |
| Cache.StoredAlone | webproxy-lab-main/cache.c:54-71 | with no entry in flight every cacheable response is stored |
| Cache.StoredWhenNoneCarried | webproxy-lab-main/proxy.c:142-189 | under every interleaving, a response written while no thread carries an entry is stored within the budget |
| Cache.RefusedWithRoom | webproxy-lab-main/proxy.c:142-189 | a schedule of 21 connections after which a write finds room and stores nothing |
| Cache.OverBudget | webproxy-lab-main/proxy.c:142-189 | a schedule of 21 connections that ends below zero |
| Cache.StepSafe | webproxy-lab-main/proxy.c:142-189 | every step of every thread keeps mutual exclusion and conservation |
| Cache.Reachable | webproxy-lab-main/proxy.c:142-189 | in every reachable state, under every interleaving, at most one thread is between P and V, budget, listed and carried bytes add up to MAX_CACHE_SIZE, and no entry is too big to cache |
| Cache.StoreSteps | webproxy-lab-main/proxy.c:142-189 | a step changes the cache only in the states that look up, push and write, and there exactly as `CacheList.ReadCache`, `PushCache` and `WriteCache` ensure; no other thread changes |
| Cache.LookupStep | webproxy-lab-main/cache.c:104-123 | a lookup takes out the most recently used entry with the key asked for, and misses exactly when no entry has it |
| Cache.PushStep | webproxy-lab-main/proxy.c:155-157 | an entry that has been sent becomes the first of the list |
| Cache.AlwaysHonest | webproxy-lab-main/proxy.c:142-189 | under every interleaving a thread carries only entries with the key it was asked for, and every response listed, carried or sent under a key was fetched by a miss on that key |
| Cache.Answered | webproxy-lab-main/proxy.c:142-189 | a client that has been served was sent a response that the server gave for what this client asked |
| Cache.MissSaw | webproxy-lab-main/proxy.c:142-165 | a thread visits the server only if, at its own lookup, no listed entry had its key |
| Cache.NoDeadlock | webproxy-lab-main/proxy.c:142-189 | while a connection is not served, some thread can take a step |
| Cache.AllServed | webproxy-lab-main/proxy.c:142-189 | from every safe state on, all connections can still be served, in at most six steps each |
| PostOrder.PostOrderIterative | Data-Structures-master/Binary_Search_Tree/Q4_F_BST.c:92-117 | prints the item of the i-th node of the recursive post-order in i-th place, for every finite tree, nothing else, and ends |

## Left out

- malloc-lab-main/mm_tree_bst.c: the same allocator over a plain binary tree; its tree operations are those modelled here without colours and fixups.
- malloc-lab-main/mm_seg_bestfit.c:239-316 and the mm_realloc of mm_seg_descend.c: they unlink a neighbour before the fit is known; the heaps of `SegHeaps` serve malloc, free and writes only.
- SegHeaps.SegHeap.Init: the list heads of mm_seg_descend.c lie in the first words of its heap; the model keeps them in an array of their own, as mm_seg_bestfit.c does, so its heap starts 20 words earlier.
- TreeAllocators.TreeAllocator.Realloc: when memory runs out inside a move, the model promises that all contents survive, the block's own among them, but not that the old pointer is still good, because the block may already have merged with its neighbours (malloc-lab-main/mm_tree_rbtree.c:792-816).
- TreeRuns.Program.Run: stops at such a failure, for the same reason.
- Words.OfValue: the size part of a word is unbounded, where the C word has 29 bits for it; heaps of 4 GiB and more, and wrap-around of size_t sums, are not modelled.
- Memlib.Sbrk: negative increments, which mem_sbrk refuses and no caller means to ask for, are not modelled; an increment of 2 GiB or more turns negative in C's int parameter, which is not modelled either.
- Links in the heap are 4-byte words, as the block layouts of the malloc lab assume; builds with 8-byte pointers are not modelled.
- memcpy in mm_realloc is modelled in whole words, so a size that is no multiple of 4 copies up to 3 bytes more.
- Rio.Buffer.ReadLine: C counts the line in an int; lengths of 2^31 and more are not modelled.
- Cache.CacheList.WriteCache: freeing is not modelled, and malloc is taken to succeed. webproxy-lab-main/cache.c:70 frees lru->next after lru has stepped back; by then that is the tail sentinel, still in use, and not the evicted entry, which is never freed. In the model the sentinel stays.
- Cache.StoreSteps: sending, and fetching from the server, touch nothing shared and are no steps of their own: a miss fetches and sends in the step that then passes P, a hit sends in the step that pushes.
- Cache.Reachable: keys need not be unique, since two threads can miss on the same key; no uniqueness is claimed.
- RbTrees2.Erase: the array and print helpers of rbtree2.c are left out; its rbtree_to_array writes without any bound.
- mm_default.c, mm_seg_inheap.c, mm_linkedlist_bestfit.c and mm_seg_no_footer.c: never reuse memory, near duplicates, or with blocks too small for their own links.
- Sockets, header forwarding, CGI, name lookup, the drivers and the remaining exercises.
