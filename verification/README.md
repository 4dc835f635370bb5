# Proofs about the lab solutions

This project models the hard cores of the lab solutions and proves what they are for. `dafny verify dfyconfig.toml`
checks it.

**The allocator** (`Common`, `Memlib`, `FreeLists`, `Blocks`, `Coalescing`, `Placing`, `Resizing`, `HeapFacts`, `Mm`, `Client`).
The heap is an array of bytes. `Mm.Allocator` reads and writes it as little-endian four-byte words, the way the
32-bit build of `mm.c` does, and keeps two ghost readings of it: the layout of boundary-tagged blocks, and the ten
doubly linked lists inside the free payloads. Each C function is a method whose contract ties both readings before
and after. `Client` puts runs of requests and client stores on top and proves that they refine a plain table from
block index to bytes, that each request is served exactly when the heap of that moment allows it, and that the heap
is accounted for to the last byte. Blocks are named by double-word numbers, so block `b` has its payload at address
`8 * b`; ghost parameters name the block or word that a pointer stands for and have no influence on what is computed.

**The cache simulator** (`Lru`, `CacheSim`). `Lru` is the textbook LRU queue with its classical theorems: stack
property, reuse distance, inclusion. `CacheSim` proves that the time-stamp scan of `csim.c` refines it, set by set and
over whole traces, together with the address split and the accounting of the counters.

**The shell** (`JobTable`, `Shell`, `ParseLine`). `JobTable` is the job array with its helper routines. `Shell` is the
transition system of main loop, SIGCHLD handler and children in which the handler may run between any two steps
unless the signal is blocked; the theorems hold for all its runs, and say what more holds, and what fails, with
respect to 16 unreaped children at a time. `ParseLine` is
`parseline`, in place on the buffer, against a functional parser that is proved to invert printing.

**Smaller cores.** `Rio`: the buffered reader over a kernel that may give short counts, be interrupted, report end of
file and fail in any order. `FloatConversion`: `float_i2f` rounds correctly (sections 3.4, 4.3.1 and 5.4.1 of
IEEE 754-2008), proved for any width and precision and then instantiated. `Transpose`: the blocked transpose with its
deferred diagonal writes against the row-wise one. `Fcyc`: the K-best sampler.

Where code and comments differ, the model follows the code:

- `tsh.c` lists four job state changes (lines 35-41). The code also lets a background job be stopped
  (`Shell.BackgroundJobStops`), and this is the only other change (`Shell.StateChanges`).
- `addjob` drops a child when sixteen jobs are listed, and the handler then reads through NULL when that child is stopped
  or ends by a signal (`tsh.c:410-427`); `Shell.SeventeenChildrenCrash` gives such a run and `Shell.CrashesExactly` the
  exact condition.
- `mm_realloc` of the last block returns NULL when the heap cannot be extended, although another free block may fit
  (`mm.c:283-284`, `Mm.Allocator.RefusedThoughFits`).
- `transpose_submit` is described as a transpose for any M and N. When N is 32 or 64 it works as if M were N:
  with M greater than N the columns past N are not written, and B is the transpose exactly if they already were right
  (`Transpose.TransposeSubmit`, `Transpose.WideMatrixMissed`); with M less than N, and only then, it leaves the
  matrices (`Transpose.InsideIff`).
- `mm.c` says that `mm_free` does nothing (line 208) and that `mm_malloc` moves the break (line 167). The code frees
  and coalesces, and moves the break only when nothing fits.
- A block at the end of the heap that is extended to exactly the size needed is moved nevertheless (`mm.c:287`);
  the contents survive.
- `parseline` reports a blank line as a background job (`tsh.c:269-270`).

## Model

| member | source | states |
|---|---|---|
| `Memlib.Memory.constructor` | malloc-lab/malloclab/memlib.c:25-35 | The heap starts empty: the break is at the start address, which is non-null and double-word aligned, and MAX_HEAP bytes lie behind it. |
| `Memlib.Memory.ResetBrk` | malloc-lab/malloclab/memlib.c:48-51 | The break is back at the start and the bytes are untouched. |
| `Memlib.Memory.Sbrk` | malloc-lab/malloclab/memlib.c:58-69 | Fails with -1 and changes nothing exactly when the increment is negative or passes the largest legal address; otherwise returns the old break and moves it. |
| `Memlib.StoreThenLoad` | malloc-lab/malloclab/mm.c:62-64 | Storing the four bytes of a word and loading them back gives the word, for every 32-bit value. |
| `Memlib.LoadThenByte` | malloc-lab/malloclab/mm.c:62-64 | Each byte of a loaded word is the byte in memory, the first one the lowest eight bits: the word view and the byte view are the same heap. |
| `Memlib.Memory.GetWord` | malloc-lab/malloclab/mm.c:63 | Loading four bytes gives the word that the invariants speak about. |
| `Memlib.Memory.PutWord` | malloc-lab/malloclab/mm.c:64 | Storing four bytes changes exactly one word of that view. |
| `Memlib.Memory.GetByte` | malloc-lab/malloclab/mm.c:62 | Loading one byte gives the byte of the word view at that address. |
| `Memlib.Memory.PutByte` | malloc-lab/malloclab/mm.c:62 | A one-byte store changes that byte and no other, although it changes a word of the view. |
| `Memlib.Memory.Memcpy` | malloc-lab/malloclab/mm.c:311 | Copying bytes copies every whole word in the range and leaves every word outside it. |
| `FreeLists.UnlinkChain` | malloc-lab/malloclab/mm.c:431-456 | After the pointer writes of delete_node the list is the old one without that node, still acyclic and with PRED the inverse of SUCC; for first, middle, last and only nodes. |
| `FreeLists.PushChain` | malloc-lab/malloclab/mm.c:458-503 | After the pointer writes of insert_node the list is the new node followed by the old list, again doubly linked and acyclic. |
| `FreeLists.ListIndexMonotone` | malloc-lab/malloclab/mm.c:421-429 | get_free_list_idx never decreases with the size, and from 16 bytes on it is one of the ten lists: so a larger block is never on an earlier list. |
| `FreeLists.ListIndexIs` | malloc-lab/malloclab/mm.c:421-429 | The list of a block of n > 0 bytes, counted from -3, is the exponent of the largest power of two up to n less three, but at most 6. |
| `FreeLists.UnlinkLists` | malloc-lab/malloclab/mm.c:431-456 | Deleting a node from the list of its size leaves all ten lists consistent, listing the same blocks but that one. |
| `FreeLists.PushLists` | malloc-lab/malloclab/mm.c:458-503 | Inserting a block into the list of its size leaves all ten lists consistent, listing that block as well. |
| `Blocks.SplitTiled` | malloc-lab/malloclab/mm.c:391-396 | Cutting a block in two keeps the blocks tiling the heap exactly; no block started at the cut before. |
| `Blocks.MergeTiled` | malloc-lab/malloclab/mm.c:351-376 | Joining a block with its successor keeps the tiling. |
| `Blocks.GrowTiled` | malloc-lab/malloclab/mm.c:326-333 | Turning the old epilogue into the header of a new last block keeps the tiling. |
| `Blocks.Neighbours` | malloc-lab/malloclab/mm.c:342-344 | The words before and after a block are the tags of its neighbours, with prologue and epilogue as the outermost ones; each neighbour is free exactly when its tag says so. |
| `Blocks.TagVersusBlock` | malloc-lab/malloclab/mm.c:71-72 | Header and footer words of a block never coincide with the payload or the link words of any block. |
| `Blocks.Rewritten` | malloc-lab/malloclab/mm.c:330-403 | If only tags of the changed blocks are written, and written as the new layout says, then every tag, every free list and every other live payload of the new layout is right. |
| `Blocks.GrownHeap` | malloc-lab/malloclab/mm.c:330-333 | The three writes of extend_heap establish all tags of the grown heap and disturb no list and no payload. |
| `Blocks.EmptyHeap` | malloc-lab/malloclab/mm.c:141-153 | The words mm_init writes describe a heap without blocks and with ten empty lists. |
| `Blocks.KeptTwice` | malloc-lab/malloclab/mm.c:321-405 | What two steps each keep of the live blocks, both together keep. |
| `Coalescing.JoinedTiled` | malloc-lab/malloclab/mm.c:341-383 | In all four cases of coalesce the blocks still tile the heap. |
| `Coalescing.JoinedShape` | malloc-lab/malloclab/mm.c:346-376 | The resulting block reaches from the free predecessor, if any, to the end of the free successor, if any; every other block is as it was. |
| `Coalescing.JoinedAllocated` | malloc-lab/malloclab/mm.c:341-383 | Coalescing changes neither the set nor the sizes of allocated blocks. |
| `Coalescing.JoinedCoalesced` | malloc-lab/malloclab/mm.c:341-383 | Afterwards no two neighbouring blocks are both free, in all four cases. |
| `Coalescing.JoinRewritten` | malloc-lab/malloclab/mm.c:354-375 | Once free neighbours are off their lists, writing one header and one footer completes the join. |
| `Placing.CarvedAlone` | malloc-lab/malloclab/mm.c:394-397 | The rest that place splits off has no free neighbour, so its call of coalesce joins nothing. |
| `Placing.FreedCoalesced` | malloc-lab/malloclab/mm.c:220-226 | Marking a block free can break the no-two-free-neighbours rule only at that block. |
| `Placing.TakenCoalesced` | malloc-lab/malloclab/mm.c:399-402 | Marking a free block allocated cannot break it at all. |
| `Placing.PlacedAllocated` | malloc-lab/malloclab/mm.c:385-405 | place turns one free block into one allocated block of the requested size or one double word more. |
| `Placing.ExtendedShape` | malloc-lab/malloclab/mm.c:321-339 | The grown heap ends in a free block of at least the requested size, whether or not it was joined with a free predecessor. |
| `Resizing.ShrunkLayout` | malloc-lab/malloclab/mm.c:268-272 | Splitting an allocated block makes two allocated blocks and keeps the heap tiled and coalesced. |
| `Resizing.SplitPayload` | malloc-lab/malloclab/mm.c:268-272 | The tags written by the shrinking path lie outside the payload that is kept. |
| `Resizing.AbsorbedLayout` | malloc-lab/malloclab/mm.c:287-291 | Taking over the free next block keeps the heap tiled and coalesced and the allocated blocks the same. |
| `Resizing.ResizedAfter` | malloc-lab/malloclab/mm.c:283-317 | A heap extension followed by a resize is a resize: growing the heap and then moving the block still preserves its contents. |
| `Mm.PackUnpack` | malloc-lab/malloclab/mm.c:59-68 | For sizes that are multiples of 8, unpacking a packed tag gives back size and allocated bit. |
| `Mm.AdjustedBounds` | malloc-lab/malloclab/mm.c:185-189 | The adjusted size is a multiple of 8, leaves room for the request and both tags, and exceeds the request by at most 15 bytes. |
| `Mm.AdjustedLeast` | malloc-lab/malloclab/mm.c:185-189 | No multiple of 8 that is at least 16 and has room for the request and both tags is smaller. |
| `Mm.Allocator.constructor` | malloc-lab/malloclab/mm.c:94-95 | Before the first mm_init heap_listp is NULL and there are no blocks; this is the state from which mm_malloc calls mm_init itself. |
| `Mm.Allocator.GetFreeListIdx` | malloc-lab/malloclab/mm.c:421-429 | For n > 0 bytes the loop returns the r from -3 to 6 with 2^(r + 3) <= n, and n < 2^(r + 4) if r < 6; from 16 bytes on r is at least 1. |
| `Mm.Allocator.Unlink` | malloc-lab/malloclab/mm.c:436-455 | The four branches of delete_node perform exactly the writes that unlink the node, on the word at that address and no other. |
| `Mm.Allocator.Push` | malloc-lab/malloclab/mm.c:463-471 | insert_node performs exactly the writes that put the node in front. |
| `Mm.Allocator.DeleteNode` | malloc-lab/malloclab/mm.c:431-456 | Afterwards the ten lists hold exactly the blocks they held but this one; tags, blocks and live payloads are kept. |
| `Mm.Allocator.InsertNode` | malloc-lab/malloclab/mm.c:458-503 | Afterwards the ten lists also hold this free block, in front of the list of its current size; everything else is kept. |
| `Mm.Allocator.PutTags` | malloc-lab/malloclab/mm.c:330-331 | Header and footer of one block are written as the layout says; the footer is found through the header just written. |
| `Mm.Allocator.JoinNextBlock` | malloc-lab/malloclab/mm.c:351-356 | Case 2 of coalesce yields the joined layout, with the joined block on no list. |
| `Mm.Allocator.JoinPrevBlock` | malloc-lab/malloclab/mm.c:358-364 | Case 3, likewise; the result starts at the predecessor. |
| `Mm.Allocator.JoinBothBlocks` | malloc-lab/malloclab/mm.c:366-376 | Case 4, likewise. |
| `Mm.Allocator.PutOuterTags` | malloc-lab/malloclab/mm.c:373-375 | In case 4 the second write finds the right footer although the first write has changed a header already: exactly the outermost header and footer receive the joint size. |
| `Mm.Allocator.Join` | malloc-lab/malloclab/mm.c:342-376 | The tests of coalesce choose the case that matches the neighbours. |
| `Mm.Allocator.Coalesce` | malloc-lab/malloclab/mm.c:341-383 | From one possibly uncoalesced, unlisted free block to the full invariant; returns the start of the joined block and keeps every live payload. |
| `Mm.Allocator.Place` | malloc-lab/malloclab/mm.c:385-405 | A listed free block of sufficient size becomes allocated, split when 16 bytes or more remain; full invariant, and every live payload kept. |
| `Mm.Allocator.FindFit` | malloc-lab/malloclab/mm.c:407-419 | Returns NULL exactly when no free block in the whole heap is long enough; otherwise the first long enough block, in list order, from the list of the size on; so no block that is long enough lies in a lower class, the classes being separated by the powers of two from 32 to 512. |
| `Mm.Allocator.NoFit` | malloc-lab/malloclab/mm.c:407-419 | If no block from the list of the size on fits, no block on an earlier list does. |
| `Mm.Allocator.ExtendHeap` | malloc-lab/malloclab/mm.c:321-339 | Fails exactly when mem_sbrk does, changing nothing; otherwise the heap has grown by the size rounded up to a double word, its last block is free and at least that long, with the invariant and all live payloads kept. |
| `Mm.Allocator.Init` | malloc-lab/malloclab/mm.c:134-164 | Succeeds exactly when the initial 4152 bytes fit; then the invariant holds and the heap is one free block of 4096 bytes. |
| `Mm.Allocator.Malloc` | malloc-lab/malloclab/mm.c:170-205 | Full invariant; a non-NULL result is a new block with room for the request and at most 8 bytes more than needed, and every live payload is kept. NULL exactly for size 0 or when nothing fits and the heap cannot grow, and then, once mm_init has run, blocks, lists and words are unchanged; otherwise exactly one free block was cut, after an extension only if nothing fitted, and of those that fitted one of the lowest class. The break moves only when nothing fits, then by the larger of block and chunk. The list array and the prologue stay where mm_init put them, and mm_init is run on the first call only. |
| `Mm.Allocator.FirstMalloc` | malloc-lab/malloclab/mm.c:170-205 | mm_malloc as the very first call: it runs mm_init, the invariant holds, and it succeeds exactly when the initial heap fits the request or can be extended. |
| `Mm.Allocator.Free` | malloc-lab/malloclab/mm.c:210-230 | Full invariant; exactly this block stops being allocated, it is joined with its free neighbours, and every other live payload is kept. NULL changes nothing. |
| `Mm.Allocator.Shrink` | malloc-lab/malloclab/mm.c:268-274 | The block is cut to the request, the first part of the payload is preserved, and the tail lies in a free block right behind it. |
| `Mm.Allocator.Absorb` | malloc-lab/malloclab/mm.c:276-296 | The block is as long as it and its free successor were together, and its payload is preserved. |
| `Mm.Allocator.EnlargeAtEnd` | malloc-lab/malloclab/mm.c:280-317 | The last block: preserved on every path, also when the extension makes it exactly long enough and the code moves it; the pointer stays exactly when less than a chunk was missing; NULL exactly when the extension or the move that follows fails. |
| `Mm.Allocator.EnlargeInside` | malloc-lab/malloclab/mm.c:276-316 | A block that is not last: it stays exactly if its free successor leaves more than enough, and otherwise succeeds exactly if mm_malloc does; payload preserved, the new length stated for both cases, and on NULL nothing has changed. |
| `Mm.Allocator.Enlarge` | malloc-lab/malloclab/mm.c:276-317 | Both cases together: same pointer, success and break exactly as the heap before the call decides, payload preserved. |
| `Mm.Allocator.Move` | malloc-lab/malloclab/mm.c:302-316 | Allocate, copy, free: the old payload is in the new block; NULL exactly when mm_malloc fails, and then the old block and its contents are intact. |
| `Mm.Allocator.Realloc` | malloc-lab/malloclab/mm.c:235-317 | On success the old payload up to the new length is preserved, the result has room for the request and all other live payloads are kept. NULL exactly for size 0 or when no path succeeds, which includes a last block whose extension fails although another block fits; the break is stated for success and for NULL: a refused extension leaves it, an extension whose move then fails stays, and if the break is unchanged so are blocks and words. The same pointer is returned exactly when the block is long enough, or is last with less than a chunk missing, or has a free successor that leaves more than enough. On NULL every block, this one included, is as it was. The length of the resulting block is stated on every path. Size 0 frees, a NULL pointer allocates. |
| `Mm.Allocator.Resize` | malloc-lab/malloclab/mm.c:261-317 | The length of the resulting block on every path: cut to the request, with a free block right behind it, if 16 bytes or more remain; unchanged if less remain; the old length and 4096 bytes, or the whole next block, if it grows in place; the size for the request or 8 bytes more if it moves. |
| `Mm.Allocator.RefusedThoughFits` | malloc-lab/malloclab/mm.c:280-284 | A run on every heap that can grow by more than a chunk and less than 2^31 bytes after mm_init: mm_init, mm_malloc of all that is left but one chunk, mm_malloc of that chunk, mm_free of the first block. Then a free block would hold one byte more than the last block holds, and mm_realloc of the last block to that size returns NULL. |
| `Mm.GrownFits` | malloc-lab/malloclab/mm.c:280-302 | A new last block that is shorter than the request does not change whether something fits. |
| `Mm.Allocator.ClientStore` | malloc-lab/malloclab/mm.c:62-64 | A byte stored by the client inside a live payload breaks nothing and changes no other byte of any live payload. |
| `Mm.Allocator.Conservation` | malloc-lab/malloclab/mm.c:134-164 | The heap size is what lies below the list array, 56 bytes, and the block sizes that the walk reads from the headers; with the list array at the start of the heap, 56 bytes and the blocks. The walk meets exactly the blocks. |
| `Mm.Allocator.FullRecovery` | malloc-lab/malloclab/mm.c:210-230 | With nothing allocated there is one free block and exactly one list is not empty; with the list array at the start of the heap the block has all but 56 bytes. |
| `HeapFacts.WalkTiles` | malloc-lab/malloclab/mm.c:529-550 | The header walk from any block meets every block from there on, once, in address order, and ends at the epilogue. |
| `HeapFacts.WalkTotal` | malloc-lab/malloclab/mm.c:529-550 | The sizes it reads add up to all bytes between prologue and epilogue. |
| `HeapFacts.ListsAreFreeBlocks` | malloc-lab/malloclab/mm.c:407-471 | Following SUCC from the ten heads, with at least as many steps as the longest list has nodes, reaches exactly the free blocks, each once, in the list of its size. |
| `HeapFacts.PredUndoesSucc` | malloc-lab/malloclab/mm.c:78-82 | The PRED word of a node's successor points back at the node. |
| `HeapFacts.LivePayloads` | malloc-lab/malloclab/mm.c:170-317 | Live payloads are 8-aligned, inside the heap and pairwise disjoint. |
| `HeapFacts.AllFreeIsOneBlock` | malloc-lab/malloclab/mm.c:341-383 | A coalesced heap without allocated blocks is a single block. |
| `HeapFacts.OneListHoldsIt` | malloc-lab/malloclab/mm.c:421-471 | ... and exactly one of the ten lists holds it. |
| `HeapFacts.LiveBlocksDecide` | malloc-lab/malloclab/mm.c:321-405 | Two tiled and coalesced heaps of the same extent with the same allocated blocks are equal: the live blocks decide every free block. |
| `Client.RefinesAlloc` | malloc-lab/malloclab/mdriver.c:603-628 | A new block refines a new table entry and disturbs no other. |
| `Client.RefinesResize` | malloc-lab/malloclab/mdriver.c:630-667 | A resized block refines the entry cut to the new size, and disturbs no other. |
| `Client.RefinesWithout` | malloc-lab/malloclab/mdriver.c:669-675 | After a block is gone the other blocks refine the other entries. |
| `Client.RefinesStore` | malloc-lab/malloclab/mdriver.c:662 | A stored byte shows in that entry only. |
| `Client.AllAnswered` | malloc-lab/malloclab/mdriver.c:593-681 | The step-by-step record of requests and answers yields the table after the whole run. |
| `Client.LastStoreStays` | malloc-lab/malloclab/mdriver.c:655-662 | After any run the table holds the byte last stored, if the block was not released or cut below it since. |
| `Client.LastSizeStays` | malloc-lab/malloclab/mdriver.c:603-667 | ... and the size of the last request that was served for the block. |
| `Client.ReleasedStaysGone` | malloc-lab/malloclab/mdriver.c:669-675 | ... and nothing for a block that was released, until a request for its index is served. |
| `Client.HeapDecided` | malloc-lab/malloclab/mdriver.c:593-681 | The client's blocks and the break decide the whole heap, so a run's answers decide it down to the last free block. |
| `Client.Driver.constructor` | malloc-lab/malloclab/mdriver.c:577-578 | The client works on this allocator. |
| `Client.Driver.Start` | malloc-lab/malloclab/mdriver.c:583-591 | After mem_reset_brk and mm_init, whatever was in the heap before, the client holds nothing and the heap refines the empty table; it fails exactly when the initial heap does not fit. |
| `Client.HeldAdd` | malloc-lab/malloclab/mdriver.c:603-628 | A call that takes one block more: the client, with the new index, again holds exactly the allocated blocks, the others where they were and as long. |
| `Client.HeldMove` | malloc-lab/malloclab/mdriver.c:630-667 | The same for a call that resizes or moves one block. |
| `Client.HeldDrop` | malloc-lab/malloclab/mdriver.c:669-675 | The same for a call that gives one block back. |
| `Client.HeldStore` | malloc-lab/malloclab/mdriver.c:662 | The same for a stored byte. |
| `Client.Driver.DoAlloc` | malloc-lab/malloclab/mdriver.c:603-628 | mm_malloc refines adding an entry; NULL comes exactly when the allocator cannot serve the size from this heap; break, and all other blocks' places and lengths, as stated. |
| `Client.Driver.DoResize` | malloc-lab/malloclab/mdriver.c:630-667 | mm_realloc refines cutting the entry to the new size; NULL comes exactly when no path of mm_realloc succeeds, and then the table and every block of the client are as before. |
| `Client.Driver.DoResizeNull` | malloc-lab/malloclab/mdriver.c:630-667 | mm_realloc of NULL refines adding an entry, granted exactly when mm_malloc would grant it. |
| `Client.Driver.DoRelease` | malloc-lab/malloclab/mdriver.c:669-675 | mm_free, and mm_realloc to size 0, refine removing the entry; the break and all other blocks of the client stay. |
| `Client.Driver.DoReleaseNull` | malloc-lab/malloclab/mdriver.c:669-675 | mm_free of NULL, and mm_realloc of NULL to size 0, leave table, break and the client's blocks as they were. |
| `Client.Driver.DoStore` | malloc-lab/malloclab/mdriver.c:662 | A client store refines updating one byte of the entry. |
| `Client.Driver.Step` | malloc-lab/malloclab/mdriver.c:600-679 | Every legal request refines its effect on the table, and returns a block exactly when the allocator can serve it from the heap before it; the break and the length of the block afterwards are stated, and no other block of the client moves or changes its length. |
| `Client.Driver.Attempt` | malloc-lab/malloclab/mdriver.c:600-679 | The same for any request, the ones that are not legal being left out; the heap afterwards is tiled up to the break and coalesced, and its allocated blocks are the client's. |
| `Client.Driver.Run` | malloc-lab/malloclab/mdriver.c:593-681 | Any sequence of requests and stores, refused ones included: each is served exactly when the allocator can serve it from the heap of that moment, every heap on the way is tiled, coalesced and holds exactly the client's blocks, and the last refines the plain table that the requests and their answers describe. |
| `Client.Driver.EvalTrace` | malloc-lab/malloclab/mdriver.c:577-685 | The same from a reset and mm_init, so from a known first heap; and mem_heapsize() is then 56 plus the sizes of the blocks; and whenever the table is empty, the heap is one free block of all but those 56 bytes, on the only list that is not empty. |
| `Client.Driver.HeapAccounts` | malloc-lab/malloclab/mdriver.c:577-685 | That accounting holds in every heap a client can reach. |
| `Client.Driver.Load` | malloc-lab/malloclab/mdriver.c:655-661 | A byte read back through the client's pointer is the byte last stored there, whatever happened to other blocks. |
| `Lru.StackProperty` | cache-lab/cachelab-handout/csim.c:132-153 | One access to the cache of E lines is one access to the unbounded LRU stack, cut to E. |
| `Lru.QueueIsTopOfStack` | cache-lab/cachelab-handout/csim.c:124-163 | Over any history the LRU queue is the top of that stack. |
| `Lru.StackTags` | cache-lab/cachelab-handout/csim.c:124-163 | The stack holds exactly the tags used, each once. |
| `Lru.Inclusion` | cache-lab/cachelab-handout/csim.c:124-163 | Inclusion: with fewer lines the set holds a prefix of what it holds with more. |
| `Lru.ReuseDistance` | cache-lab/cachelab-handout/csim.c:132-153 | A tag is held exactly when it was used and fewer than E other tags have been used since. |
| `Lru.AboveLastUse` | cache-lab/cachelab-handout/csim.c:132-153 | Above a tag in the stack are exactly the distinct tags used since its last use. |
| `CacheSim.SplitField` | cache-lab/cachelab-handout/csim.c:188-195 | Cutting out the field of s bits above the low b bits can be done in either order. |
| `CacheSim.ShiftsAreDivisions` | cache-lab/cachelab-handout/csim.c:188-195 | Shifting and masking by n bits are quotient and remainder by 2^n. |
| `CacheSim.AddressSplit` | cache-lab/cachelab-handout/csim.c:188-195 | The set index is the block number modulo 2^s and the tag the quotient, where the block number is the address divided by 2^b. |
| `CacheSim.SetIdxInRange` | cache-lab/cachelab-handout/csim.c:192-195 | The set index is below the number of sets. |
| `CacheSim.SameLineIffSameBlock` | cache-lab/cachelab-handout/csim.c:188-195 | Two addresses share tag and set index exactly when they agree above the block offset. |
| `CacheSim.SetsAreQueues` | cache-lab/cachelab-handout/csim.c:124-163 | Every set of the abstract cache holds the LRU queue of its own history. |
| `CacheSim.HitsByReuseDistance` | cache-lab/cachelab-handout/csim.c:132-159 | An access hits exactly when its tag was used before in its set and fewer than E other tags of that set were used since. |
| `CacheSim.MoreLinesMoreHits` | cache-lab/cachelab-handout/csim.c:124-168 | On the same trace and address split, the tags held with fewer lines are among those held with more, and hits do not decrease. |
| `CacheSim.Accounting` | cache-lab/cachelab-handout/csim.c:155-168 | Over any trace hits and misses add up to accesses plus 'M' operations, and evictions are misses less lines held. |
| `CacheSim.Counters` | cache-lab/cachelab-handout/csim.c:132-168 | For every trace: hits are the accesses whose tag was used before in its set with fewer than E other tags since, and one for each 'M'; misses are the other accesses; evictions are the misses in sets in which at least E tags have been used. |
| `CacheSim.FullByHistory` | cache-lab/cachelab-handout/csim.c:142-149 | A set is full exactly when at least E tags have been used in it. |
| `CacheSim.ValidLines` | cache-lab/cachelab-handout/csim.c:132-153 | The number of valid lines of a row is the length of the abstract queue. |
| `CacheSim.HitStep` | cache-lab/cachelab-handout/csim.c:150-153 | Stamping the line that was hit turns the row's order into the touched queue. |
| `CacheSim.MissStep` | cache-lab/cachelab-handout/csim.c:145-149 | Replacing the line with the oldest time stamp turns it into the touched queue, and is an eviction exactly when the queue was full. |
| `CacheSim.LruCache.constructor` | cache-lab/cachelab-handout/csim.c:197-205 | The zeroed lines represent the empty cache. |
| `CacheSim.LruCache.Scan` | cache-lab/cachelab-handout/csim.c:129-140 | A hit is reported exactly when a valid line has the tag; otherwise the first line with the smallest time stamp is found. |
| `CacheSim.LruCache.UseTag` | cache-lab/cachelab-handout/csim.c:124-153 | The time-stamp scan and update refine touching the LRU queue of the set, for hit, fill and eviction. |
| `CacheSim.LruCache.Count` | cache-lab/cachelab-handout/csim.c:155-168 | A hit adds one to hits, a miss to misses, an eviction to evictions and an 'M' to hits, modulo 2^32. |
| `CacheSim.LruCache.LRUCacheAccess` | cache-lab/cachelab-handout/csim.c:124-168 | One access refines one access of the abstract cache, contents and counters. |
| `CacheSim.LruCache.Run` | cache-lab/cachelab-handout/csim.c:111-115 | The loop over a trace refines the fold of the abstract cache over its operations, for fewer than 2^32 of them. |
| `CacheSim.LruCache.Simulate` | cache-lab/cachelab-handout/csim.c:93-119 | The numbers reported for a whole trace of fewer than 2^32 accesses are those of Counters, the hits modulo 2^32. |
| `JobTable.JobList.constructor` | sh-lab/shlab-handout/tsh.c:486-492 | Sixteen cleared slots, next job id 1. |
| `JobTable.JobList.ClearJob` | sh-lab/shlab-handout/tsh.c:479-484 | One slot is cleared, the others are untouched. |
| `JobTable.JobList.InitJobs` | sh-lab/shlab-handout/tsh.c:486-492 | Every slot is cleared. |
| `JobTable.JobList.MaxJid` | sh-lab/shlab-handout/tsh.c:495-503 | The largest job id of the list: it bounds every id and is attained, or is 0. |
| `JobTable.JobList.AddJob` | sh-lab/shlab-handout/tsh.c:506-529 | The job takes the first free slot with the next id, which then advances and wraps; 0 is returned, and nothing changed, exactly for a pid below 1 or a full table. |
| `JobTable.JobList.DeleteJob` | sh-lab/shlab-handout/tsh.c:532-547 | The slot of that pid is cleared and the next id is one more than the largest left, or 1; success exactly when there is such a slot. |
| `JobTable.DeletedJid` | sh-lab/shlab-handout/tsh.c:538-543 | After deletejob the next job id is above every id left, and by one above some id or 1. |
| `JobTable.JobList.FgPid` | sh-lab/shlab-handout/tsh.c:550-557 | The pid of the first foreground job, 0 if there is none. |
| `JobTable.JobList.GetJobPid` | sh-lab/shlab-handout/tsh.c:560-569 | The first slot with that pid, NULL if there is none. |
| `JobTable.JobList.GetJobJid` | sh-lab/shlab-handout/tsh.c:572-582 | The first slot with that job id, NULL if there is none. |
| `Shell.NextOk` | sh-lab/shlab-handout/tsh.c:180-434 | Every step of main loop, handler or child, in any interleaving, keeps the invariant, with the set of children that addjob had no room for carried along. |
| `Shell.AddedOk` | sh-lab/shlab-handout/tsh.c:506-529 | addjob keeps pids distinct and adds exactly this one when there is room. |
| `Shell.DeletedOk` | sh-lab/shlab-handout/tsh.c:532-547 | deletejob removes exactly this pid. |
| `Shell.RoomIff` | sh-lab/shlab-handout/tsh.c:513-514 | There is a free slot exactly when fewer than 16 jobs are listed. |
| `Shell.RunOk` | sh-lab/shlab-handout/tsh.c:180-434 | The invariant holds in every state of every run, without a bound on children. |
| `Shell.NothingDropped` | sh-lab/shlab-handout/tsh.c:506-529 | With at most MAXJOBS unreaped children at a time addjob never drops one. |
| `Shell.TableTracksChildren` | sh-lab/shlab-handout/tsh.c:187-217 | Whenever SIGCHLD is unblocked the nonzero pids of the table are distinct and are exactly the unreaped children that addjob did not drop; with at most MAXJOBS children at a time, exactly the unreaped children. |
| `Shell.HandlerFindsJob` | sh-lab/shlab-handout/tsh.c:406-427 | The handler finds the job of a child exactly if addjob did not drop it, so always with at most MAXJOBS children at a time; and it never runs between fork and addjob. |
| `Shell.CrashesExactly` | sh-lab/shlab-handout/tsh.c:410-427 | In any run, the handler reads through NULL exactly when it reaps a dropped child that was stopped or ended by a signal. |
| `Shell.NeverCrashes` | sh-lab/shlab-handout/tsh.c:406-434 | With at most MAXJOBS unreaped children at a time it never does. |
| `Shell.SeventeenChildrenCrash` | sh-lab/shlab-handout/tsh.c:410-427 | A run with seventeen background commands, of which the last is stopped, in which the handler reads through NULL. |
| `Shell.ListedIffRoom` | sh-lab/shlab-handout/tsh.c:506-529 | addjob lists a new child exactly when fewer than MAXJOBS jobs are listed. |
| `Shell.OneForegroundJob` | sh-lab/shlab-handout/tsh.c:35-41 | In every reachable state at most one job is in the foreground, none while the shell is at its prompt, and fgpid returns that job or 0; with any number of children. |
| `Shell.ListedAs` | sh-lab/shlab-handout/tsh.c:208 | With room in the table addjob puts the child into a free slot, as FG for a foreground command and as BG otherwise, and leaves all other slots alone. |
| `Shell.ForegroundCommand` | sh-lab/shlab-handout/tsh.c:208-217 | A foreground command becomes the foreground job: from then on fgpid returns its pid and the shell is not back at its prompt, until the handler has reported that it ended or stopped. |
| `Shell.BackAtPrompt` | sh-lab/shlab-handout/tsh.c:180-220 | When the shell is back at its prompt after a foreground command, then fork failed, or sixteen jobs were listed, or the handler has reported that the command ended or stopped. |
| `Shell.FgBgSets` | sh-lab/shlab-handout/tsh.c:333-387 | fg and bg find the first job with that job id, or pid, make it FG or BG and leave all others alone; without such a job nothing changes. |
| `Shell.FgWaits` | sh-lab/shlab-handout/tsh.c:345-379 | A job that fg has put into the foreground is what fgpid returns, and the shell is not back at its prompt, until the handler has reported it. |
| `Shell.HandlerMarks` | sh-lab/shlab-handout/tsh.c:410-427 | The handler clears the slot of a child that ended, with the next job id following the largest left, and marks the job of one that stopped; every other slot stays. |
| `Shell.HandlerReapsAll` | sh-lab/shlab-handout/tsh.c:408-429 | The handler returns only when every ended child is reaped and every stopped one reported. |
| `Shell.MainCanStep` | sh-lab/shlab-handout/tsh.c:180-403 | The main loop can take a step whenever the handler is not running; waitfg returns once the job is not FG. |
| `Shell.StateChanges` | sh-lab/shlab-handout/tsh.c:35-41 | In one step a listed job keeps its state, is removed, or makes one of the four documented changes, exactly unless it is a background job whose child is reaped as stopped; a slot changes its pid only by being cleared. |
| `Shell.BackgroundJobStops` | sh-lab/shlab-handout/tsh.c:35-41 | A run in which a background job becomes stopped. |
| `ParseLine.RoundTrip` | sh-lab/shlab-handout/tsh.c:229-277 | Printing any typable arguments, quoted or bare, of which the last does not start with '&', and parsing the line gives the same arguments, in the foreground. |
| `ParseLine.RoundTripBackground` | sh-lab/shlab-handout/tsh.c:272-276 | With one more argument that starts with '&', quoted or not, it gives the arguments without that one, in the background. |
| `ParseLine.AnySpacing` | sh-lab/shlab-handout/tsh.c:237-276 | Any number of spaces in front of, between and behind the arguments makes no difference; a line without arguments is reported as background. |
| `ParseLine.UnclosedQuote` | sh-lab/shlab-handout/tsh.c:244-265 | What follows a quote that is not closed is no argument. |
| `ParseLine.TokensOfBuffer` | sh-lab/shlab-handout/tsh.c:242-266 | A buffer in which every argument is followed by a space splits into those arguments. |
| `ParseLine.SkipBlanks` | sh-lab/shlab-handout/tsh.c:239-240 | Stops behind the leading spaces. |
| `ParseLine.StrChr` | sh-lab/shlab-handout/tsh.c:244-250 | The first occurrence of the delimiter, NULL if there is none. |
| `ParseLine.NextDelim` | sh-lab/shlab-handout/tsh.c:256-265 | Start and delimiter enclose the next argument, quoted or bare, or there is none. |
| `ParseLine.ScansTokens` | sh-lab/shlab-handout/tsh.c:242-266 | Where the scans begin one after another, and that they find exactly the arguments. |
| `ParseLine.NextArg` | sh-lab/shlab-handout/tsh.c:256-265 | The next scan finds the next argument, or none after the last. |
| `ParseLine.SplitLine` | sh-lab/shlab-handout/tsh.c:243-267 | argv holds the addresses of all arguments, in order, followed by NULL, each terminated in place. |
| `ParseLine.ParseLine` | sh-lab/shlab-handout/tsh.c:229-277 | The C strings argv points to are the arguments that the line denotes; the result is true exactly when there are none or the last one starts with '&', which is then dropped. |
| `Rio.IsFirstLine` | proxy-lab/proxylab-handout/csapp.c:771-793 | A newline-free piece that is followed by a newline, or is as long as allowed, is the line in front. |
| `Rio.RioT.constructor` | proxy-lab/proxylab-handout/csapp.c:739-743 | Nothing is buffered; all that is ahead is the kernel's stream. |
| `Rio.RioT.Refill` | proxy-lab/proxylab-handout/csapp.c:713-722 | Interruptions lose nothing; ends with bytes in the buffer, at an end of file just reported, or on an error just reported. |
| `Rio.RioT.Read` | proxy-lab/proxylab-handout/csapp.c:710-732 | The bytes delivered, followed by buffer and stream, are what was ahead before; at most n are delivered and nothing else is written. |
| `Rio.RioT.ReadNb` | proxy-lab/proxylab-handout/csapp.c:750-764 | n bytes, fewer exactly when an end of file was reported during this call; -1 exactly when a read failed during it; delivered bytes followed by what is ahead are what was ahead, also after an error. |
| `Rio.RioT.ReadLineB` | proxy-lab/proxylab-handout/csapp.c:771-793 | Unless an end of file is reported during this call, exactly the bytes up to and including the first newline, or maxlen - 1 of them, with no newline (the character 10) before the end; otherwise what was left; then a terminating 0. -1 exactly when a read failed during the call; nothing is lost. |
| `Rio.RioT.ReadAll` | proxy-lab/proxylab-handout/csapp.c:710-793 | Over any mix of the two calls and any kernel script the delivered bytes followed by what is ahead are the original stream; it stops early exactly when the kernel failed. |
| `Rio.WriteN` | proxy-lab/proxylab-handout/csapp.c:682-698 | All n bytes in order, or, exactly when the kernel failed, a proper prefix of them and -1. |
| `FloatConversion.ValueAt` | data-lab/datalab-handout/bits.c:351-354 | A fraction that overflowed, added to the exponent field, denotes the next power of two: the carry is right. |
| `FloatConversion.ValueOrder` | data-lab/datalab-handout/bits.c:354 | Larger magnitudes of the encoding denote larger values. |
| `FloatConversion.RoundsBetween` | data-lab/datalab-handout/bits.c:351-353 | Between two neighbouring encodings the closer one, or the even one if neither is closer, is the correctly rounded one among all. |
| `FloatConversion.RoundsUnique` | data-lab/datalab-handout/bits.c:335-355 | There is only one correctly rounded magnitude. |
| `FloatConversion.CutRounds` | data-lab/datalab-handout/bits.c:351-353 | Cutting off the low bits of a normalised integer, and adding one when they exceed half or equal half with an odd result, rounds to nearest even. |
| `FloatConversion.ConvertedRounds` | data-lab/datalab-handout/bits.c:335-355 | Normalising and rounding is correct for every width up to the scale and every smaller precision. |
| `FloatConversion.RoundFraction` | data-lab/datalab-handout/bits.c:351-353 | The tests on bit 7, the seven bits below and the lowest fraction bit compute that rounding. |
| `FloatConversion.Decoding` | data-lab/datalab-handout/bits.c:335-355 | Sign, exponent field and fraction of an encoding, with the widths and the bias of binary32, and the number that they stand for. |
| `FloatConversion.FloatI2F` | data-lab/datalab-handout/bits.c:335-355 | For every 32-bit integer the result is the encoding of the nearest binary32 value, ties to even, with the sign of x; including 0, the smallest integer and fractions that carry into the exponent. |
| `Transpose.Trans` | cache-lab/cachelab-handout/trans.c:84-95 | The row-wise scan transposes. |
| `Transpose.Row` | cache-lab/cachelab-handout/trans.c:36-49 | One row of a block: every entry off the diagonal is right, and the deferred write stores A[diag][diag] at [diag][diag], also when diag is stale. |
| `Transpose.Block` | cache-lab/cachelab-handout/trans.c:36-49 | One block is transposed and no entry outside it is made wrong. |
| `Transpose.BlocksApart` | cache-lab/cachelab-handout/trans.c:34-35 | Blocks of the grid coincide or do not overlap. |
| `Transpose.BlocksFill` | cache-lab/cachelab-handout/trans.c:34-37 | With N 32 or 64 the blocks fill the N by N area exactly. |
| `Transpose.Column` | cache-lab/cachelab-handout/trans.c:55-70 | One column of blocks is transposed. |
| `Transpose.Sweep` | cache-lab/cachelab-handout/trans.c:54-71 | All blocks together transpose the swept columns, for every step, M and N. |
| `Transpose.TransposeSubmit` | cache-lab/cachelab-handout/trans.c:24-73 | All columns visited are transposed and the others are left alone; so B is the transpose exactly when the columns past N, if N is 32 or 64, already were. |
| `Transpose.VisitedExactly` | cache-lab/cachelab-handout/trans.c:31-71 | The block loops come to the entry at row i and column j exactly if i < N and j < N, for N 32 or 64, or else if i < N and j < M. |
| `Transpose.InsideIff` | cache-lab/cachelab-handout/trans.c:31-71 | All entries visited are inside the matrices exactly if N is neither 32 nor 64, or M is at least N. |
| `Transpose.WideMatrixMissed` | cache-lab/cachelab-handout/trans.c:31-51 | A 32 by 33 matrix for which the call does not give the transpose. |
| `Transpose.SubmitEqualsTrans` | cache-lab/cachelab-handout/trans.c:24-95 | The blocked form gives the same B as the simple one for all contents, if N is neither 32 nor 64, or M equals N. |
| `Fcyc.SortSorts` | malloc-lab/malloclab/fcyc.c:82-87 | The reference: insertion sort yields a sorted permutation of the samples. |
| `Fcyc.BestIsSmallest` | malloc-lab/malloclab/fcyc.c:67-88 | The reference list holds the K smallest samples, as a multiset, in order. |
| `Fcyc.BestStep` | malloc-lab/malloclab/fcyc.c:70-76 | Dropping what is not among the K best loses nothing: the next K best follow from the last K best and the new sample. |
| `Fcyc.Sampler.constructor` | malloc-lab/malloclab/fcyc.c:50-62 | No samples yet. |
| `Fcyc.Sampler.InitSampler` | malloc-lab/malloclab/fcyc.c:50-62 | Sampling starts afresh. |
| `Fcyc.Sampler.Sink` | malloc-lab/malloclab/fcyc.c:82-87 | The swapping loop inserts the last value among the sorted ones before it and touches nothing behind. |
| `Fcyc.Sampler.AddSample` | malloc-lab/malloclab/fcyc.c:67-88 | After any sequence of samples values[0..min(kbest, samplecount)) is sorted and holds the kbest smallest of them. |
| `Fcyc.ConvergedIff` | malloc-lab/malloclab/fcyc.c:93-98 | The test on the first and the last of the kept values decides whether kbest samples lie within that factor of the smallest. |
| `Fcyc.Sampler.HasConverged` | malloc-lab/malloclab/fcyc.c:93-98 | True exactly when at least kbest samples are at most 1 + epsilon times the smallest one. |
| `Fcyc.Sampler.Run` | malloc-lab/malloclab/fcyc.c:129-168 | Stops at the first measurement where the K best have converged or the budget is spent, so within maxsamples if that is positive; returns the minimum of the measurements taken. |

## Left out

- Mm.Allocator.Malloc: sizes for which size + 15 wraps around 32 bits are excluded; the conversions between size_t and int on the way to mem_sbrk are modelled.
- Mm.Allocator.Realloc: the same bound on sizes; the memcpy of a block onto itself (`mm.c:293`) is not executed, because it has no effect.
- Mm.Allocator.Free: the lazy mm_init for a non-NULL pointer is not modelled, because a live pointer exists only after initialisation.
- Mm.Allocator.Init: the state after a failed mm_init is not described, and a first mm_malloc is assumed to find room for the initial heap.
- Memlib.Memory.Sbrk: the pointer comparison is taken without wrap-around at the top of the address space; the message and errno are not modelled.
- The bit operations on tags (`& ~0x7`, `& 0x1`, `|`) are written arithmetically.
- Pointers passed to mm_free and mm_realloc are live; double frees and foreign pointers are outside the model.
- Client.Driver.Run: the driver's own checks, timing and utilization scores are not modelled; where the driver gives up at the first refused request, this client goes on.
- CacheSim.LruCache.LRUCacheAccess: the time stamp is taken before it wraps at 2^32; the counters do wrap.
- CacheSim.LruCache.Run: option parsing, file reading, lines that sscanf cannot parse and all printing are not modelled; s and b are at least 1 with a sum of at most 30, and E is below 2^31.
- Job ids: nothing is claimed about them being unique, since the wrap in addjob can hand out an id in use.
- The SIGINT and SIGTSTP handlers only send signals; what they cause appears as steps of the children. Printing, execve and process groups are not modelled.
- Commands of the shell: quit and jobs, and the messages for wrong arguments, do not change the table and are left out.
- ParseLine.ParseLine: lines without room in the buffer and lines with more than 127 arguments are excluded, since the code does not check for them; the line holds no NUL.
- Rio.RioT.ReadLineB: the count n is unbounded, where the code has an int.
- Rio.WriteN: a write that takes nothing may report any errno.
- rio_readn reads without the buffer that the other calls share, and the wrappers of csapp.c only report errors and exit; neither takes part in the stream property.
- Transpose.TransposeSubmit: N 32 or 64 with M less than N is excluded, since the code then reads and writes outside the matrices.
- Transpose.Sweep: it serves both branches; in the first branch of the source the blocks fill the area exactly, so cutting them at its border changes nothing.
- Fcyc.Sampler.AddSample: measurements are real numbers, without rounding or NaN.
- Fcyc.Sampler.Run: clearing the cache, timer compensation and freeing the array afterwards are left out.
- The other puzzles of bits.c, the proxy and its cache, the Tiny server, the bomb and attack labs, and the debug printers of mm.c are not part of this model.
