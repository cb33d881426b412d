# malloc-lab allocators, modelled and verified in Dafny

This project models the three boundary-tag heap allocators of the CS:APP
malloc lab found in this repository:

- `mm.c`: twelve segregated free lists, with their roots inside the prologue.
- `mm_Implicit.c`: an implicit list searched next-fit from the `prev_bp` cursor.
- `mm_Explicit.c`: one explicit LIFO free list whose tail sentinel is the
  allocated prologue.

All three manage one growable region of 4-byte words. Each block has a header
and a footer word holding `PACK(size, alloc)`. Free blocks of the two
list-based allocators keep their predecessor and successor links in their
first two payload words.

## How the model is built

- **The region** is the field `mem: seq<nat>` of the class `Memory.MemLib`.
  - A word index is a byte address divided by 4, and the region starts at word 0.
  - NULL is word 0, the alignment padding word, which is never a payload.
  - `mem_sbrk` is the method `MemLib.Sbrk`. It fails when the region would
    outgrow a capacity fixed at construction. Otherwise it appends words whose
    contents are left unconstrained.
- **Each allocator** is a class: `ImplicitHeap`, `ExplicitHeap` or
  `SegregatedHeap`.
  - Fields: the memory system, the source's globals (`heap_listp`, `prev_bp`,
    `free_listp`, `class_listp`) and ghost state.
  - The ghost `view: seq<Blk>` is the blocks in address order, prologue first.
    `Blk(bp, size, free)` gives a block's payload word, its size in bytes and
    its flag.
  - The ghost free lists are `free` (explicit) and `lists` (segregated, one
    sequence per class).
  - The public operations are methods that `PUT` words one at a time, as the
    C code does.
- **`HeapLayout.Layout`** ties the words to the view:
  - every block's header and footer hold its tag;
  - sizes are multiples of 8, at least 16, and the blocks tile the region;
  - the prologue comes first and the epilogue `PACK(0, 1)` is the last word.
- **The list invariants** say the link words spell out each ghost list:
  - `FreeLinks.Linked` spells out a list, and each allocator's `HeapOk` adds the
    rest.
  - The lists repeat no block.
  - Their blocks are exactly the free blocks. In `mm.c` each list holds exactly
    the free blocks of its class, as `get_class` chooses it.
  - No two adjacent blocks are free (`FreeBlocks.NoAdjacentFree`).
- **The outcome predicates** (module `Outcomes`) describe the effect of each
  public operation:
  - `Granted`: the set of allocated blocks gains exactly one new block, at the
    returned payload, of at least the adjusted size.
  - `Released`: the set loses exactly the freed block.
  - `Untouched`: every other allocated block keeps its header, payload and
    footer word for word.
  - `Preserved`: realloc's new block starts with the old payload.

Modules, in dependency order:
1. `BoundaryTags`: constants, `PACK`/`GET_SIZE`/`GET_ALLOC`, the navigation macros and the request rounding.
2. `SizeClasses`: `get_class`.
3. `Memory`: the region and `mem_sbrk`.
4. `HeapLayout`: the tiling invariant.
5. `HeapEdits`: how tag writes reshape the view.
6. `FreeBlocks`: `place`, `coalesce` and the no-adjacent-free discipline.
7. `FreeLinks`: doubly linked lists in link words.
8. `Outcomes`.
9. `ImplicitAllocator`.
10. `ExplicitAllocator`.
11. `SegLists`: the twelve lists of `mm.c`.
12. `SegregatedAllocator`.

## Model

| member | source | states |
|---|---|---|
| BoundaryTags.SizeOf | mm.c:34 | GET_SIZE gives a multiple of 8 that differs from the word only in its three low bits |
| BoundaryTags.AllocOf | mm.c:35 | GET_ALLOC is 0 or 1, and it is 1 exactly when the word's low bit is set |
| BoundaryTags.Pack | mm.c:27 | for a size that is a multiple of 8 and a flag of 0 or 1, GET_SIZE and GET_ALLOC read back exactly the size and flag PACK stored |
| BoundaryTags.AdjustSize | mm.c:101-104 | the block size malloc asks for is a multiple of 8, at least 16, and leaves room for header and footer (at least size + 8); unless it is the 16-byte minimum, it is less than size + 16 |
| BoundaryTags.Max | mm_Implicit.c:35 | MAX(x, y) is at least both arguments and is one of them |
| BoundaryTags.Min | mm_Implicit.c:284-286 | realloc's cut of the old size to the request is at most both and is one of them |
| SizeClasses.ClassFrom | mm.c:303-308 | the class search started at class `from` ends in a class between `from` and 11 |
| SizeClasses.ClassFromIsLeast | mm.c:303-308 | that search stops at the first class whose ceiling 16·2^i holds the size, or at the last class |
| SizeClasses.ClassOfIsLeast | mm.c:301-309 | get_class returns a value in [0, 11]; below 11, that class's ceiling holds the size; every lower class's ceiling is smaller than the size |
| SizeClasses.ClassOfMonotone | mm.c:301-309 | a larger size never gets a lower class |
| SizeClasses.GetClass | mm.c:301-309 | the counting loop over the doubling ceilings returns exactly the least class characterised above |
| Memory.MemLib.Sbrk | mm.c:73-75 | mem_sbrk fails with -1 and nothing changed when the region would exceed its capacity; otherwise it returns the old break and grows the region by incr/4 words, keeping every old word |
| Memory.MemLib.Put | mm.c:31 | PUT changes exactly one word |
| Memory.MemLib.Copy | mm.c:162 | memcpy gives each of the n destination words its source word and changes nothing else |
| HeapLayout.TagOf | mm.c:34-35 | the tag of a block decodes to its size and its flag |
| HeapLayout.Navigate | mm.c:38-43 | on a well-formed heap, HDRP reads block i's size and flag; FTRP finds its last word; NEXT_BLKP finds the next payload (the region's end after the last block); PREV_BLKP finds the previous payload |
| HeapLayout.NavigateEpilogue | mm.c:83 | the last word of the region reads as a zero-size allocated header, the epilogue |
| HeapLayout.WalkReachesEpilogue | mm.c:42 | walking NEXT_BLKP from the prologue visits every block in address order and, after exactly as many steps as there are blocks, lands on the epilogue PACK(0, 1) |
| HeapLayout.TotalSize | mm.c:42 | the block sizes add up to the whole region between the padding word and the epilogue: no byte is lost or counted twice |
| HeapLayout.OrderedAll | mm.c:42-43 | blocks never overlap, and payloads strictly increase along the heap |
| HeapLayout.Payloads | mm.c:38-39 | every payload is above NULL and has its header and footer inside the region; payloads strictly increase |
| HeapLayout.ScratchEdit | mm.c:46-47 | writing only list links and roots (words inside free blocks and the prologue) keeps the layout and every allocated block |
| HeapLayout.PayloadEdit | mm.c:162 | writing only inside one allocated block's payload keeps the layout and every other allocated block |
| HeapEdits.TagReads | mm.c:38-43 | of a tagged block, the macros read its size and flag at both ends, FTRP and NEXT_BLKP find its footer and successor, and PREV_BLKP from the successor comes back to it |
| HeapEdits.WriteTags | mm.c:130-131 | a header PUT followed by a footer PUT (FTRP reading the fresh header) writes exactly the block's two tags, after which NEXT_BLKP finds the block's end |
| HeapEdits.Retag | mm.c:130-131 | rewriting a block's two tags with a new flag yields a well-formed layout of the retagged view; every other allocated block is unchanged |
| HeapEdits.Split | mm.c:217-223 | place's four split writes yield a well-formed layout with an allocated front of asize bytes and a free remainder that ends where the old block ended; other allocated blocks are unchanged |
| HeapEdits.Merge | mm.c:242-266 | rewriting the first header and the last footer of a run of blocks makes one block spanning the run with a well-formed layout; allocated blocks outside the run are unchanged |
| HeapEdits.MergedSize | mm.c:244 | the merged block is exactly as large as the blocks it absorbs together |
| HeapEdits.FooterFirst | mm.c:245-246 | coalesce's footer-then-header writes leave the same words as header then footer |
| HeapEdits.WriteExtension | mm.c:184-186 | extend_heap's three PUTs after sbrk write the new block's header over the old epilogue, its footer, and a new epilogue found by NEXT_BLKP |
| HeapEdits.Extend | mm.c:184-186 | those writes leave a well-formed layout with a free block over the granted words appended, the new epilogue in the last word, and every old allocated block unchanged |
| FreeBlocks.PlacedAllocs | mm.c:212-231 | place adds exactly one allocated block: it is new, at the chosen payload, and at least asize bytes; the other allocated blocks stay |
| FreeBlocks.PlaceTags | mm.c:213-230 | place's PUTs write the front and remainder tags when bsize - asize >= 16, otherwise both tags of the whole block as allocated |
| FreeBlocks.PlaceLayout | mm.c:212-231 | place's writes produce the placed view (split exactly when the remainder could be a block of its own) with a well-formed layout and no allocated block changed; by TotalSize the sizes still add up to the region |
| FreeBlocks.PlacedFrees | mm.c:217-230 | the free blocks lose the chosen block and, only on a split, gain the remainder, which was not free before |
| FreeBlocks.CoalescedAllocs | mm.c:236-270 | coalescing merges only free blocks, so the set of allocated blocks is unchanged |
| FreeBlocks.CoalesceLayout | mm.c:236-266 | coalesce's tag writes (none when both neighbours are allocated) produce the coalesced view with a well-formed layout and no allocated block changed |
| FreeBlocks.CoalescedFrees | mm.c:236-266 | the merged block replaces the run it absorbed among the free blocks and is none of the other free blocks |
| FreeBlocks.CoalescedBlock | mm.c:236-269 | the block coalesce returns is free, sits at the first merged payload, and is exactly as large as the merged blocks together |
| FreeBlocks.NeighbourTags | mm.c:237-239 | coalesce's three reads give the previous block's flag, the next block's flag (the epilogue reads allocated) and the block's size; both flags are 1 exactly when nothing merges |
| FreeBlocks.FreeTags | mm.c:127-131 | mm_free rewrites the header and footer with the size read from the header and the flag 0 |
| FreeBlocks.MergeNext | mm.c:242-247 | the previous-allocated, next-free case writes the tags of one free block spanning the block and its successor |
| FreeBlocks.MergePrev | mm.c:250-256 | the previous-free, next-allocated case writes the tags of one free block spanning the predecessor and the block, and moves bp to the predecessor |
| FreeBlocks.MergeBoth | mm.c:259-266 | the both-free case writes the tags of one free block spanning all three, and moves bp to the predecessor |
| FreeBlocks.MergeAround | mm.c:242-266 | dispatching on the two flags writes exactly the tags of the merged run and returns its payload |
| FreeBlocks.NoAdjacentAfterFree | mm.c:127-132 | freeing a block in a heap with no two adjacent free blocks leaves only the pairs around that block in question |
| FreeBlocks.NoAdjacentAfterExtend | mm.c:184-189 | appending extend_heap's free block leaves only the pairs around that block in question |
| FreeBlocks.NoAdjacentAfterCoalesce | mm.c:236-269 | coalescing around the only block in question leaves no two adjacent free blocks |
| FreeBlocks.NoAdjacentAfterAllocate | mm.c:228-229 | allocating a whole free block keeps the discipline |
| FreeBlocks.NoAdjacentAfterSplit | mm.c:217-223 | splitting a free block into an allocated front and a free remainder keeps the discipline |
| FreeBlocks.NoAdjacentAfterGrow | mm.c:152-156 | growing an allocated block over its free right neighbour keeps the discipline |
| FreeLinks.LinkedPush | mm.c:275-282 | putFreeBlock's link writes make b the head, with a NULL predecessor and the old head as successor, and the old head's predecessor becomes b; the rest of the list keeps its order |
| FreeLinks.LinkedPop | mm.c:289-290 | moving the root to the head's successor leaves the rest of the list as it was; the new head's stale predecessor word is allowed |
| FreeLinks.LinkedPopClear | mm_Explicit.c:206-208 | clearing the successor's predecessor word and advancing the head leaves the rest of the list as it was |
| FreeLinks.LinkedBypass | mm.c:291-295 | the two link writes splice node t out; every other node keeps its place and order |
| FreeLinks.NodeFacts | mm.c:200-201 | each node of a list of free blocks is a free block of the heap, with its tags in place and its link words inside its payload, beyond the prologue |
| FreeLinks.NodesApart | mm.c:46-47 | distinct nodes have disjoint link words, all beyond the prologue |
| FreeLinks.WithoutElems | mm.c:287-296 | filtering a list by a set leaves exactly the blocks outside the set |
| FreeLinks.WithoutNone | mm.c:287-296 | filtering by a set that no node belongs to changes nothing |
| FreeLinks.RemoveIsWithout | mm_Explicit.c:204-214 | in a list without repeats, removing node t is filtering out its block |
| FreeLinks.WithoutTwice | mm_Explicit.c:233-252 | filtering by one set and then another is filtering by their union, so successive removeBlock calls compose |
| FreeLinks.FitFromIsFirst | mm.c:200-204 | the reference search returns the first node of at least asize bytes from index i on, or the list's length when there is none |
| Outcomes.AllocsUnique | mm.c:38 | two allocated blocks with the same payload are the same block |
| Outcomes.CopyPayload | mm_Implicit.c:283-287 | realloc's copy takes n = min(size, old block size) bytes, rounded up to whole words, from the old payload into the new block's payload, and changes no other allocated block |
| Outcomes.Moved | mm_Implicit.c:279-289 | malloc, copy and then free trade the old block for the new one: the new block is granted, starts with the old payload's first min(size, payload) bytes, and every other allocated block is unchanged |
| ImplicitAllocator.FirstFitFromIsFirst | mm_Implicit.c:163-169 | the reference search returns the first free block of at least asize bytes from index i on, or the heap's length when there is none |
| ImplicitAllocator.NextFitCorrect | mm_Implicit.c:161-179 | next fit returns a free block of at least asize bytes: the first one from the cursor on, or else the first one in the heap; it finds nothing exactly when no block fits |
| ImplicitAllocator.ExtendOk | mm_Implicit.c:101-103 | extend_heap's writes keep the heap invariant with the new free block as the only one that may have a free neighbour; allocated blocks are unchanged |
| ImplicitAllocator.PlaceOk | mm_Implicit.c:202-217 | place keeps the heap invariant and every allocated block |
| ImplicitAllocator.FreeOk | mm_Implicit.c:222-227 | mm_free's retag removes exactly that block from the allocated set, leaving only its pairs in question |
| ImplicitAllocator.CoalesceOk | mm_Implicit.c:231-265 | coalesce restores the invariant; the cursor moves to the merged block exactly when something merged, so within one `mm_init` it never dangles |
| ImplicitAllocator.WalkFit | mm_Implicit.c:163-169 | one walk along NEXT_BLKP from block i0 to the epilogue returns the first free block of at least asize bytes, or NULL |
| ImplicitAllocator.GrowHeap | mm_Implicit.c:89-103 | sbrk then extend_heap's writes: NULL with nothing changed when sbrk fails, otherwise a free block of words·4 bytes appended to the heap |
| ImplicitAllocator.ImplicitHeap.constructor | mm_Implicit.c:59 | a fresh region of the given capacity and a NULL cursor |
| ImplicitAllocator.ImplicitHeap.Init | mm_Implicit.c:70-87 | mm_init succeeds exactly when both sbrk calls fit, leaving the (8,1) prologue, heap_listp at its payload and one 4096-byte free block; otherwise it returns -1 |
| ImplicitAllocator.ImplicitHeap.ExtendHeap | mm_Implicit.c:89-107 | on failure NULL and nothing changed; otherwise the heap grows by words words, the appended block is coalesced, the returned block is free and at least words·4 bytes, and prev_bp moves to it exactly when it merged |
| ImplicitAllocator.ImplicitHeap.FindFit | mm_Implicit.c:161-179 | the result is the next-fit block and prev_bp moves to it; NULL and prev_bp unchanged when no free block fits |
| ImplicitAllocator.ImplicitHeap.Place | mm_Implicit.c:202-217 | the view becomes the placed view; the invariant, the cursor and every allocated block are kept |
| ImplicitAllocator.ImplicitHeap.Coalesce | mm_Implicit.c:231-266 | the view becomes the coalesced view; the returned block is free and as large as the merged blocks together; prev_bp moves to it exactly when something merged |
| ImplicitAllocator.ImplicitHeap.Malloc | mm_Implicit.c:113-145 | size 0 gives NULL and nothing changed; otherwise the next-fit block is placed (the view is the placed view and prev_bp is the result) or, on a miss, the heap grows by MAX(asize, 4096) bytes, is coalesced and the merged block placed, with prev_bp as coalescing left it; NULL only when no block fits and the heap cannot grow, with nothing changed |
| ImplicitAllocator.ImplicitHeap.Free | mm_Implicit.c:222-228 | exactly the freed block leaves the allocated set; the view is the retagged view coalesced around it; prev_bp moves to the merged block exactly when something merged |
| ImplicitAllocator.ImplicitHeap.Realloc | mm_Implicit.c:271-290 | size 0 frees, with the view and prev_bp exactly as mm_free leaves them; NULL acts as malloc, with mm_malloc's view and prev_bp; otherwise the block moves as `ImplicitAllocator.ImplicitHeap.Relocate` says; on success the old block is traded for a granted block that starts with the old payload; NULL only when no block fits and the heap cannot grow, and then nothing changes |
| ImplicitAllocator.ImplicitHeap.Relocate | mm_Implicit.c:279-289 | malloc, copy of min(size, old size) bytes and free: the view and prev_bp are mm_malloc's outcome followed by mm_free's, and the old block is traded for the next-fit block (when there is one), which starts with the old payload; NULL only when no block fits and the heap cannot grow, and then nothing changes |
| ExplicitAllocator.PushBlock | mm_Explicit.c:196-201 | putFreeBlock makes b the head of the list, writing only link words |
| ExplicitAllocator.PushWrites | mm_Explicit.c:197-200 | the three writes, including the unconditional one to the old head's (possibly the sentinel's) predecessor word, make b the head |
| ExplicitAllocator.UnlinkBlock | mm_Explicit.c:204-214 | removeBlock takes node t off the list; the other nodes keep their order and the sentinel stays last |
| ExplicitAllocator.UnlinkFirst | mm_Explicit.c:206-208 | removing the head leaves the rest of the list linked, with the new head read from the old head's successor word |
| ExplicitAllocator.UnlinkInner | mm_Explicit.c:210-212 | removing an inner node without NULL checks leaves the list without node t |
| ExplicitAllocator.BypassWrites | mm_Explicit.c:211-212 | the two writes past the head keep the layout and spell out the list without node t |
| ExplicitAllocator.SentinelWrite | mm_Explicit.c:212 | unlinking the last node writes the sentinel's predecessor word, which is no node's link word |
| ExplicitAllocator.FirstFitInList | mm_Explicit.c:159-170 | the first block of the list with at least asize bytes is a free block that big, and the scan comes up empty exactly when no free block is that big |
| ExplicitAllocator.NodeHeader | mm_Explicit.c:164-165 | every node's header reads free with the node's size, so the walk stops only at the sentinel |
| ExplicitAllocator.ExtendOk | mm_Explicit.c:112-114 | extend_heap's writes keep the invariant, with the new block off the list and the only one that may have a free neighbour |
| ExplicitAllocator.PlaceOk | mm_Explicit.c:179-192 | place's tag writes keep the list, which holds every free block except the remainder of a split |
| ExplicitAllocator.FreeOk | mm_Explicit.c:218-222 | mm_free's retag makes the block free, not yet on the list, and no longer allocated |
| ExplicitAllocator.CoalesceOk | mm_Explicit.c:227-257 | once the merged run is off the list, the merged block is the one free block not on it, and the invariant otherwise holds |
| ExplicitAllocator.UnlinkNeighbours | mm_Explicit.c:233-252 | coalesce's removeBlock calls take exactly the free neighbours off the list before any tag changes; the list left is the old one filtered of the merged run |
| ExplicitAllocator.CoalesceBlock | mm_Explicit.c:227-261 | the result is free, as large as the merged blocks together, and at the head of the list; the list is the old one without the merged run, with the merged block pushed |
| ExplicitAllocator.PlaceBlock | mm_Explicit.c:174-193 | the chosen block leaves the list; on a split the remainder is pushed at the head; the new list is the placed list; the invariant holds for the placed view |
| ExplicitAllocator.SplitBlock | mm_Explicit.c:179-192 | on a split the remainder is pushed at the head, otherwise the list is unchanged |
| ExplicitAllocator.SbrkBlock | mm_Explicit.c:105-114 | words·DSIZE bytes are obtained from sbrk and tagged as a free block, or NULL with nothing changed |
| ExplicitAllocator.ExtendBlock | mm_Explicit.c:100-118 | on failure NULL and nothing changed; otherwise the heap grows by words·DSIZE bytes, the coalesced block is free, at least that large, and at the head of a list that is the old one coalesced around the new block |
| ExplicitAllocator.CopyOk | mm_Explicit.c:282 | writing only the new allocated block's payload keeps the whole heap invariant |
| ExplicitAllocator.ExplicitHeap.Init | mm_Explicit.c:74-98 | mm_init succeeds exactly when both sbrk calls fit, leaving the (16,1) prologue with NULL links as sentinel and free_listp at one 4096-byte free block; otherwise -1 |
| ExplicitAllocator.ExplicitHeap.ExtendHeap | mm_Explicit.c:100-118 | on failure NULL and nothing changed; otherwise the heap grows by 2·words words, the returned block is free, at least words·8 bytes, and the list's head, and the list is the old one coalesced around the new block |
| ExplicitAllocator.ExplicitHeap.FindFit | mm_Explicit.c:159-170 | the result is the first block of the list with at least asize bytes, or NULL when there is none |
| ExplicitAllocator.ExplicitHeap.Place | mm_Explicit.c:174-193 | the view becomes the placed view; the chosen block leaves the list and the remainder of a split goes to its head, exactly the placed list |
| ExplicitAllocator.ExplicitHeap.Coalesce | mm_Explicit.c:227-261 | the view becomes the coalesced view; the merged block is as large as the blocks it absorbed and heads the list, which otherwise is the old list without the merged run |
| ExplicitAllocator.ExplicitHeap.Malloc | mm_Explicit.c:124-156 | size 0 gives NULL; otherwise the first fit on the list is placed (the view and list are the placed ones) or, on a miss, the heap grows by 2·MAX(asize, 4096) bytes, is coalesced and the merged block placed; NULL only when no block fits and the heap cannot grow, with nothing changed |
| ExplicitAllocator.ExplicitHeap.Free | mm_Explicit.c:218-224 | exactly the freed block leaves the allocated set; the view is the retagged view coalesced around it and the merged block heads the list, which is otherwise the old list without the absorbed neighbours |
| ExplicitAllocator.ExplicitHeap.Realloc | mm_Explicit.c:266-285 | size 0 frees, with the view and list exactly as mm_free leaves them; NULL acts as malloc, with mm_malloc's view and list; a move is mm_malloc's outcome followed by mm_free's; the new block is the list's first fit when there is one; on success the old block is traded for a granted block that starts with the old payload; NULL only when no block fits and the heap cannot grow, and then nothing changes |
| ExplicitAllocator.ExplicitHeap.Relocate | mm_Explicit.c:276-284 | malloc, copy of min(size, old size) bytes and free: the view and list are mm_malloc's outcome followed by mm_free's, and the old block is traded for the list's first fit (when there is one), which starts with the old payload; NULL only when no block fits and the heap cannot grow, and then nothing changes |
| SegLists.PushWrites | mm.c:277-281 | putFreeBlock's writes make b the head of the list of its class: NULL predecessor, the old root as successor, the old root's predecessor set to b when there was one |
| SegLists.PushBlock | mm.c:275-282 | b joins the list chosen by get_class of its size, at the front; every other list is unchanged |
| SegLists.OthersWrite | mm.c:50 | a write to root c, or to a link word of a block of class c, leaves every other class's list as it was |
| SegLists.UnlinkBlock | mm.c:287-296 | removeBlock takes node t off list c, which is the class of its size; every other node and list keeps its order |
| SegLists.UnlinkFirst | mm.c:289-290 | removal of the root moves the root to the successor; the rest of the list stands, the stale predecessor word included |
| SegLists.PopWrites | mm.c:290 | the single root write removes the head of list c |
| SegLists.UnlinkInner | mm.c:291-295 | removal past the root splices node t out of list c |
| SegLists.BypassWrites | mm.c:292-294 | those two writes keep the layout and spell out list c without node t |
| SegLists.BypassOthers | mm.c:292-294 | those writes leave every other list intact |
| SegLists.FitClass | mm.c:199-205 | a class the search settles on really has a block of at least asize bytes |
| SegLists.FitClassIsFirst | mm.c:199-205 | it is the first such class from the one it starts at |
| SegLists.SegFitMeaning | mm.c:195-207 | find_fit's block is a free block of at least asize bytes in a class no lower than get_class(asize), and every block it passed over is smaller; it comes up empty exactly when no free block anywhere holds asize bytes |
| SegregatedAllocator.WithoutAllNone | mm.c:287-296 | filtering every class list by a set none of their nodes belongs to changes nothing |
| SegregatedAllocator.WithoutAllTwice | mm.c:242-261 | filtering every class list by one set and then another is filtering by the union |
| SegregatedAllocator.UnlinkIsWithout | mm.c:287-296 | removeBlock of node t of list c is filtering its block out of every class list, because a free block is on one list only |
| SegregatedAllocator.OnItsList | mm.c:276 | every free block sits on the list get_class chooses for its size |
| SegregatedAllocator.AdjustSizeWithin | mm.c:150-151 | a block of at least size + 8 bytes already holds the rounded request |
| SegregatedAllocator.AdjustSizeAbove | mm.c:159 | a block smaller than size + 8 is at least 8 bytes smaller than the rounded request |
| SegregatedAllocator.ExtendOk | mm.c:184-186 | extend_heap's writes keep the invariant, with the new block off the lists and the only one that may have a free neighbour |
| SegregatedAllocator.PlaceOk | mm.c:217-230 | place's tag writes keep the lists, which hold every free block except the remainder of a split |
| SegregatedAllocator.FreeOk | mm.c:127-131 | mm_free's retag makes the block free, not yet on a list, and no longer allocated |
| SegregatedAllocator.CoalesceOk | mm.c:242-266 | once the merged run is off the lists, the merged block is the one free block not on them |
| SegregatedAllocator.CopyOk | mm.c:162 | writing only the new allocated block's payload keeps the whole invariant |
| SegregatedAllocator.GrowOk | mm.c:152-156 | once the next block is off its list, the merged tags (old + next, allocated) keep the invariant, trade block k for the merged block and keep block k's payload |
| SegregatedAllocator.GrownGranted | mm.c:153-156 | the grown block is new, at the old payload, and at least the rounded request |
| SegregatedAllocator.MovedWhole | mm.c:159-164 | malloc, memcpy of the whole old block and free trade the old block for a granted one that starts with the old payload; other allocated blocks are unchanged |
| SegregatedAllocator.UnlinkNeighbours | mm.c:242-261 | coalesce's removeBlock calls take exactly the free neighbours off their lists before any tag changes; the lists left are the old ones filtered of the merged run |
| SegregatedAllocator.CoalesceBlock | mm.c:236-270 | the result is free, as large as the merged blocks together, and at the head of the list of its class; the lists are the old ones without the merged run, with the merged block pushed |
| SegregatedAllocator.PlaceBlock | mm.c:212-231 | the chosen block leaves its list; on a split the remainder is pushed on the list of its own class; the new lists are the placed lists |
| SegregatedAllocator.SplitBlock | mm.c:217-229 | on a split the remainder is pushed on its class's list, otherwise the lists are unchanged |
| SegregatedAllocator.Release | mm.c:268 | putFreeBlock on the one free block off the lists restores the invariant with that block pushed |
| SegregatedAllocator.ExtendBlock | mm.c:172-190 | on failure NULL and nothing changed; otherwise the heap grows by words words, the coalesced block is free and at least words·4 bytes, and the lists are the old ones coalesced around the new block |
| SegregatedAllocator.NextTags | mm.c:146-148 | realloc's reads give the old size, and the next block's size and flag (the epilogue's 0 and allocated after the last block) |
| SegregatedAllocator.GrowBlock | mm.c:152-156 | the next block leaves its list, which is filtering it out of every list; one allocated block of old + next bytes replaces both, with the old payload kept |
| SegregatedAllocator.CopyBlock | mm.c:162 | memcpy of old_size bytes puts the old block's words at the start of the new block's payload, changing nothing outside that payload |
| SegregatedAllocator.WalkStep | mm.c:200-201 | at node i, find_fit reads the node's size from its header and the next node (or NULL) from its successor word |
| SegregatedAllocator.SegregatedHeap.Init | mm.c:70-88 | mm_init succeeds exactly when its one sbrk fits, leaving the (56,1) prologue around twelve NULL roots, the epilogue, empty lists and no free block; otherwise -1 and nothing written |
| SegregatedAllocator.SegregatedHeap.ExtendHeap | mm.c:172-190 | on failure NULL and nothing changed; otherwise a coalesced free block of at least words·4 bytes, with the lists the old ones coalesced around the new block |
| SegregatedAllocator.SegregatedHeap.FindFit | mm.c:195-207 | the result is the first fitting block of the first class, from get_class(asize) up, that has one; NULL when none has |
| SegregatedAllocator.SegregatedHeap.Place | mm.c:212-231 | the view becomes the placed view; the chosen block leaves its list and the remainder of a split is pushed on its own class's list, exactly the placed lists |
| SegregatedAllocator.SegregatedHeap.Coalesce | mm.c:236-270 | the view becomes the coalesced view; the merged block is as large as the blocks it absorbed and heads the list get_class picks for its size; the other lists lose only the absorbed neighbours |
| SegregatedAllocator.SegregatedHeap.Malloc | mm.c:93-122 | size 0 gives NULL and nothing changed; otherwise find_fit's block is placed (the view and lists are the placed ones) or, on a miss, the heap grows by asize bytes, is coalesced and the merged block placed; NULL only when no block fits and the heap cannot grow, with nothing changed |
| SegregatedAllocator.SegregatedHeap.Free | mm.c:127-133 | exactly the freed block leaves the allocated set; the view is the retagged view coalesced around it and the merged block heads its class list, the lists otherwise losing only the absorbed neighbours |
| SegregatedAllocator.SegregatedHeap.GrowInPlace | mm.c:152-157 | the next block leaves its list, and no other list changes; blocks k and k + 1 become one allocated block at the same payload, granted and keeping the old payload |
| SegregatedAllocator.SegregatedHeap.Relocate | mm.c:159-164 | malloc, copy and free: the view and lists are mm_malloc's outcome followed by mm_free's, and the old block is traded for find_fit's block (when there is one), which starts with the old payload; NULL only when no block fits and the heap cannot grow, and then nothing changes |
| SegregatedAllocator.SegregatedHeap.Resize | mm.c:145-164 | for an allocated block: one already holding size + 8 bytes is returned with nothing changed; a free next block making up the rest is absorbed in place, leaving only its own list; otherwise the block moves to find_fit's block when there is one, the view and lists being mm_malloc's outcome followed by mm_free's; every success keeps the old payload; NULL only when no block fits and the heap cannot grow, and then nothing changes |
| SegregatedAllocator.SegregatedHeap.Realloc | mm.c:138-165 | the cases in source order: size 0 frees, with mm_free's view and lists; NULL mallocs, with mm_malloc's view and lists; a block already holding size + 8 bytes is returned with nothing changed; a free next block making up the rest is absorbed in place, leaving only its own list; otherwise the block moves to find_fit's block when there is one, the view and lists being mm_malloc's outcome followed by mm_free's; every success keeps the old payload; NULL only when no block fits and the heap cannot grow, and then nothing changes |

## Left out

- The memory system (`memlib`) is modelled only as `Memory.MemLib`: a region
  that either grows by whole words up to a fixed capacity or fails. The
  contents of fresh words are unconstrained, and `mem_init` and
  `mem_deinit` are not modelled.
- Integers are unbounded. `size_t` wrap-around is not modelled.
  - `BoundaryTags.AdjustSize` does not wrap for a request within 15 bytes of
    `SIZE_MAX`, because `size_t` arithmetic is not modelled.
  - Header words are `nat`, so a block of 4 GiB or more does not truncate in
    its 32-bit tag, because the region's capacity is unbounded.
- Pointers are word indices held in one word. This is the 32-bit build the
  code assumes (`GET_ROOT`'s `WSIZE` stride, and links at `bp` and
  `bp + WSIZE`). The overlap of 8-byte pointers in a 64-bit build is not
  modelled.
- `memcpy` is a word copy inside the region (`Memory.MemLib.Copy`).
  - In `mm_Implicit.c` and `mm_Explicit.c` the byte count is rounded up to
    whole words, because the model has no bytes.
  - In `mm.c` the copy reads `old_size` bytes, which is the old payload plus
    the old footer and the next block's header. It is modelled as written.
    The contracts promise only the old payload.
- `ImplicitAllocator.ImplicitHeap.Realloc`, `ImplicitAllocator.ImplicitHeap.Relocate`,
  `ExplicitAllocator.ExplicitHeap.Realloc` and
  `ExplicitAllocator.ExplicitHeap.Relocate` state `Preserved` for
  min(⌈size/4⌉, payload words) words, not for the footer and header words
  the copy also moves, because those are overwritten or irrelevant once the
  block is allocated.
- `SegregatedAllocator.SegregatedHeap.Realloc`, `SegregatedAllocator.SegregatedHeap.Resize`,
  `SegregatedAllocator.SegregatedHeap.Relocate` and
  `SegregatedAllocator.SegregatedHeap.GrowInPlace` state `Preserved` for the
  old payload words only, for the same reason.
- The first-fit and best-fit searches in `mm_Implicit.c` are commented out.
  They are dead code and not modelled.
- The `team` struct, `ALIGN`, `SIZE_T_SIZE`, `MAX_HEAP` and the includes are
  unused and not modelled.
- `mm_Simple Segregated.c` is not part of this model.
- Caller misuse is excluded by preconditions, because none of it is defended
  against:
  - `free` or `realloc` of a pointer that is not an allocated payload, which
    covers double free;
  - `realloc(NULL, 0)`;
  - `mm_init` on a region that is not empty.
- `ImplicitAllocator.ImplicitHeap.Init` requires a NULL cursor. `mm_init`
  does not reset `prev_bp` (mm_Implicit.c:59 sets it only once, at program
  start). So after the region is reset, a second `mm_init` leaves `find_fit`
  starting from a stale address in the new heap. The model covers one
  `mm_init` per process, which the constructor sets up.
- `extend_heap` is called only with the word counts the code passes. The
  model requires them:
  - in `mm.c` and `mm_Implicit.c`, an even count of at least 4 words;
  - in `mm_Explicit.c`, at least 2 double words.
- Coalesce's four-way `if` is restructured. The model reads both flags and
  dispatches the three merging cases to one method (`FreeBlocks.MergeAround`).
  The words written and their order (footer first) are those of the source.
  - In `mm_Implicit.c` the model returns at once when both flags are set, as
    the source does.
  - In `mm.c` and `mm_Explicit.c` the model skips the tag writes when both
    flags are set and still pushes the block on its list, as the source does.
- The explicit allocator's `extend_heap` multiplies its argument by `DSIZE`
  while `mm_malloc` passes a count of words, so a miss grows the heap by
  2·MAX(asize, 4096) bytes. The model keeps this as written. It is harmless:
  the block is still a multiple of 8 and large enough.
- After removing a list root, `mm.c` leaves the new root's predecessor word
  stale. The model allows a head's predecessor word to hold anything,
  because the code never reads it.
