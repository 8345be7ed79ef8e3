# ps2sdk core algorithms in Dafny

A model of the parts of ps2sdk that carry real invariants, and proofs about it: the libc heap, `qsort`, the ERL
linker with its hash table and item recycler, the SIF RPC client protocol, the kernel's top-thread request ring, the
BCD clock, and the DMA chain of a texture transfer. `dafny verify dfyconfig.toml` checks the whole project.

Code that changes things in place is a class or a method over an array with its loops; the protocols, where threads and
interrupts interleave, are state machines with one step per statement; everything else is functions and lemmas.

## How it is organised

**Heap.** `Heap` is `alloc.c` over `sbrk.c` on an array of bytes. Headers are four little-endian words in the same
array as the payloads (`ByteMemory`; `Basics` has the types all models share). A ghost list of blocks gives the list its meaning: `BlockList` says what it is for
memory to hold an address-sorted list with mutually inverse links, `FirstFitSpec` where a request goes, `HeapView` what a
client sees (live pointers and the bytes behind each), and `HeapRun` follows whole runs of calls mixed with the client's
own stores. `Valid` is the invariant that every call keeps: sorted headers, inverse links ending at head and tail,
payload right behind its header, everything a multiple of 16 and inside the heap base and the break.

**qsort.** `Qsort` runs on an array with one slot per element. A permutation is stated by counting occurrences and
then shown to be one in the usual sense. `QsortBytes` has the swaps on the bytes of the elements.

**Tables.** `Recycler` hands out items and keeps the memory they lie in. `Buckets` is the bucket array as a value and `HashTable` the table with
its cursor, built on the recycler; `Map` is the finite map it stands for and `Order` the order in which the cursor moves.

**Linker.** `Relocation` has the instruction arithmetic and the section layout. `LinkerSpec` is the linker's state with
every step as a function and the invariant the steps keep, `LinkerUnload` the recursive unload, `LinkerRun` arbitrary runs,
`LinkerDeferred` deferred relocations, `LinkerImage` the bytes a load leaves, `LinkerEffect` what definitions, relocations
and unloads achieve, `LinkerStale` what modules leave behind, and `Linker` the object whose methods have those functions as specification. Memory is bytes by
address (`SparseMemory`); a load copies its sections there, and the memory of an unloaded module may be used again. The
state remembers, as history, which module holds a relocation into which other module (`uses`), and numbers the loads, so
that a record and a pending entry know the load they come from although record addresses are handed out again.

**Protocols.** `RpcClient` interleaves any number of client structures with the answers of the other processor.
`TopThread` interleaves interrupt handlers with the five statements of the consumer loop.

**Clock and drawing.** `Clock` numbers the minutes of the 100-year cycle. `TextureChain` builds the chain down to the bits of
its tags; `TextureMeaning` gives a DMA channel and a GIF to walk and decode it.

## What turned out not to hold

Each has its exact condition and an input or a run at which it fails.

- Aligning the heap base adds the break's residue to itself, so the base is aligned exactly when the break starts at 0
  or 8 modulo 16 (`BaseAligned`, `BaseMisaligned`).
- First fit goes at or below a free run exactly when the run is not one that the request fills exactly below the first
  block (`FirstFitLowest`, `ExactFitPassedOver`).
- `recycle.h` calls a new item cleared. It is exactly when it comes from the trash or its bytes were zero already
  (`Recycler.Renew`, `FirstItemUncleared`).
- `align` in `erl.c` reaches a multiple from everywhere exactly for powers of two (`AlignExact`, `AlignOddAlignment`), and
  the size of an image is right exactly when its sections end below 2^32 (`LayOutSections`, `ImageTooLarge`).
- A HI16/LO16 pair moves by the symbol's address exactly when the signed low halves add up without overflow
  (`HiLoExact`, `HiLoCarryLost`); a jump exactly when the address is word aligned (`JumpExact`, `JumpHalfWord`).
- A deferred relocation leaves the word that relocating at once would have left exactly when the word has not changed in
  between (`DeferredExact`). It has not while the module stays loaded (`DeferredIsImmediate`); after an unload the word may be
  another module's, which is then patched (`PatchesAnother`). The word patched for a pending entry lies in the image of the
  load that deferred it exactly when the record that the entry names is listed and still the one of that load
  (`DefinitionWritesExact`); that some loaded record has the address is not enough (`AddressReused`).
- An edge's depender may be a module that is gone. Defining a name records such an edge exactly when an entry pending under
  it belongs to an unloaded module (`DependersLoadedExact`, `StaleDepender`); a failed load from a file leaves one exactly when
  an entry before the failing one was resolved (`FailedLoadExact`, `FailedLoadLeavesEdge`).
- A declared dependency that the unloaded module is itself linked to stays loaded, because the module's edges are dropped
  last (`DependencyGoesExact`, `LinkedDependencyStays`).
- A packet stays allocated that no request occupies exactly when a send or a semaphore creation failed (`LeakExact`), a
  semaphore that no client owns exactly when a send failed after creating it (`SemaLeakExact`), and the client of a failed
  call is reported busy (`StatusExact`, `FailedCallStaysBusy`).
- The top-thread ring executes everything exactly when no handler posts with 255 signals pending (`AllExecutedExact`,
  `SignalLost`); requests stay in their slots exactly while fewer than 512 wait or the oldest is the same as the new one
  (`OverwriteExact`, `RequestOverwritten`); and a number is executed as asked exactly when it is not negative
  (`ExecutedAsAsked`, `NegativePriority`).
- A BCD byte survives conversion and back exactly when its low digit is decimal (`BcdRoundTripExact`, `BcdDigitLost`), and a time moves by
  the offset exactly when offset plus minutes does not overflow an `int` (`AdjustTime`, `LargestOffset`). So an adjustment is
  undone by the opposite one exactly when neither of the two sums overflows (`AdjustInverse`, `LargestOffsetBack`).
- A texture transfer sends the bits of the pixels it announces exactly when the sides are below 4096 (or there is nothing to
  send) and the pixels fill whole quadwords (`SizeExact`, `OnePixelUnsent`, `WideUnannounced`).

## Model

| member | source | states |
|---|---|---|
| `Heap.Heap.Sbrk` | ee/libc/src/sbrk.c:22-38 | the break moves by the 32-bit increment, also downwards, and the old break is returned, unless the new one would pass the end of the heap; then -1 and no change |
| `FirstFitSpec.BaseAligned` | ee/libc/src/alloc.c:136-140 | adding the break's residue to the break gives a multiple of 16 if and only if the break is a multiple of 8 |
| `FirstFitSpec.MemSize` | ee/libc/src/alloc.c:125-128 | a request becomes the least multiple of 16 that holds it and a header |
| `Heap.Heap.HeapMemFit` | ee/libc/src/alloc.c:99-116 | the walk over headers in memory finds the block before the lowest gap of the size, or NULL exactly when there is none |
| `Heap.Heap.InitBase` | ee/libc/src/alloc.c:134-140 | the heap base is set once and the empty heap stays valid |
| `Heap.Heap.LinkBlock` | ee/libc/src/alloc.c:209-221 | the header stores enter a block at its place in the sorted, doubly linked list; no payload byte of another block changes |
| `Heap.Heap.MallocFirst` | ee/libc/src/alloc.c:142-161 | on an empty list the block goes at the break, which moves by its size |
| `Heap.Heap.MallocBottom` | ee/libc/src/alloc.c:163-180 | a block that fits below the first one becomes the head |
| `Heap.Heap.MallocGap` | ee/libc/src/alloc.c:183-200 | the block goes at the end of the block before the gap, between it and its successor |
| `Heap.Heap.MallocTop` | ee/libc/src/alloc.c:202-224 | the block goes at the break and becomes the tail; NULL exactly when the heap would pass its end |
| `Heap.Heap.Malloc` | ee/libc/src/alloc.c:119-225 | keeps the invariant; the block is placed by first fit and NULL is returned if and only if neither a gap nor the top has room |
| `FirstFitSpec.FirstFitLowest` | ee/libc/src/alloc.c:163-200 | the block is at or below a given free run that is large enough if and only if the run is not one the request fills exactly below the first block |
| `FirstFitSpec.ExactFitPassedOver` | ee/libc/src/alloc.c:164-164 | two blocks above a run of exactly the size: the request goes to the break |
| `FirstFitSpec.FirstFitFails` | ee/libc/src/alloc.c:142-208 | malloc fails if and only if the request fits neither below the first block, nor in a gap, nor above the break |
| `Heap.Heap.MallocView` | ee/libc/src/alloc.c:119-225 | NULL if and only if there is no room; otherwise the client gets a fresh 16-aligned pointer to at least the bytes asked for; every other live block keeps its bytes |
| `Heap.Heap.FindBlock` | ee/libc/src/alloc.c:434-443 | the walk finds the block with that payload address, or the end of the list exactly when no live block has it |
| `Heap.Heap.FreeHead` | ee/libc/src/alloc.c:415-432 | the head goes; the break comes down only when it was the last block |
| `Heap.Heap.FreeMiddle` | ee/libc/src/alloc.c:445-459 | the neighbours are joined and the break stays |
| `Heap.Heap.FreeLast` | ee/libc/src/alloc.c:448-459 | the predecessor becomes the tail and the break comes down to its end |
| `Heap.Heap.Free` | ee/libc/src/alloc.c:389-462 | removes exactly the block with that pointer and keeps the invariant; NULL and unknown pointers change nothing |
| `Heap.Heap.FreeView` | ee/libc/src/alloc.c:389-462 | the pointer stops being live and no other block's bytes change |
| `FirstFitSpec.AlignedPart` | ee/libc/src/alloc.c:345-359 | the aligned payload, its header and the shortened size lie inside the block malloc gave |
| `Heap.Heap.MoveUp` | ee/libc/src/alloc.c:354-380 | the header moves up inside its block with links, head and tail following, and the list stays valid |
| `Heap.Heap.Memalign` | ee/libc/src/alloc.c:335-384 | NULL if and only if there is no room for the size, plus the alignment when that is above 16; otherwise the pointer is aligned, has at least the size asked for and is fresh; other blocks keep their bytes |
| `FirstFitSpec.GapCompare` | ee/libc/src/alloc.c:284-284 | comparing with the next payload succeeds if and only if the grown block ends at or below the next header |
| `FirstFitSpec.RequestSize` | ee/libc/src/alloc.c:242-243 | the size is rounded up to the alignment and is a multiple of 16 |
| `Heap.Heap.ShrinkLast` | ee/libc/src/alloc.c:257-267 | the last block is shortened, keeps its first bytes, and the break comes down to its end |
| `Heap.Heap.GrowTop` | ee/libc/src/alloc.c:272-281 | the last block grows by exactly what the break moves and keeps its bytes; NULL and no change exactly when the heap would pass its end |
| `Heap.Heap.ResizeInPlace` | ee/libc/src/alloc.c:257-289 | the block stays if and only if it is big enough, last, or has room behind it; it then has exactly the new size, keeps its surviving bytes and the break follows it; NULL exactly when the last block cannot grow |
| `Heap.Heap.CopyBlock` | ee/libc/src/alloc.c:297-298 | the bytes of the old block become the first bytes of the new one, the rest of which and all other blocks stay |
| `Heap.Heap.MoveBlock` | ee/libc/src/alloc.c:293-301 | NULL if and only if there is no room for the copy; otherwise the moved block keeps its bytes, the old pointer is dead and other blocks are untouched |
| `Heap.Heap.ReallocLive` | ee/libc/src/alloc.c:242-301 | the same for the whole of do_realloc on a live block: when it returns NULL, when the block stays, its new size, its bytes and the break |
| `Heap.Heap.DoRealloc` | ee/libc/src/alloc.c:229-314 | for realloc and realloc64: NULL if and only if the last block cannot grow, or the block has no room behind it and there is none for a copy; the block stays exactly when it can; the first min(old, new) bytes survive, all other blocks keep theirs, size 0 frees, NULL allocates |
| `Heap.Heap.Calloc` | ee/libc/src/alloc.c:319-330 | like malloc of the 32-bit product, NULL exactly when that has no room, with that many bytes zero |
| `HeapRun.Do` | ee/libc/src/alloc.c:119-462 | any call, or client store into a live block, keeps the heap valid, acts on the client's view as specified, and returns NULL exactly when there is no room |
| `HeapRun.Play` | ee/libc/src/alloc.c:119-462 | any sequence of calls and stores, calls on dead pointers refused, ends on a valid heap and is a run of the specified steps |
| `HeapRun.InspectBlock` | ee/libc/src/alloc.c:74-95 | on a valid heap the header words in memory hold the payload right behind the header, 16-multiples, mutually inverse links, head and tail at the ends, and no overlap with the next header |
| `HeapRun.RunKeepsBlock` | ee/libc/src/alloc.c:119-462 | over every run of calls and stores, a block neither freed nor reallocated stays live and holds exactly what its owner wrote |
| `HeapRun.ExtentsDisjoint` | ee/libc/src/alloc.c:119-225 | live blocks, headers included, are disjoint between heap base and break, and memory holds their bytes |
| `Qsort.InsertionSort` | ee/libc/src/qsort.c:94-99 | sorts the range in place, a permutation that moves nothing outside it |
| `Qsort.Med3IsMedian` | ee/libc/src/qsort.c:75-83 | the element chosen lies between the other two under any total preorder |
| `Qsort.PivotOfSeven` | ee/libc/src/qsort.c:101-102 | the pivot of 7 elements is the middle one |
| `Qsort.PivotOfThree` | ee/libc/src/qsort.c:101-111 | of up to 40 elements it is the median of the first, the middle and the last |
| `Qsort.PivotOfNine` | ee/libc/src/qsort.c:101-111 | of more it is the median of three medians, each of three elements an eighth of the range apart |
| `Qsort.Partition` | ee/libc/src/qsort.c:113-140 | leaves equal, smaller, greater, equal runs with nothing unread, keeps the pivot in front and permutes the range; its flag is clear only if nothing was moved |
| `Qsort.VecSwap` | ee/libc/src/qsort.c:41-72 | exchanges two non-overlapping blocks element by element |
| `QsortBytes.MovedExact` | ee/libc/src/qsort.c:41-50 | the copy loop exchanges exactly the bytes asked for if and only if they are a positive number of copy units |
| `QsortBytes.SwapCode` | ee/libc/src/qsort.c:41-50 | the loop exchanges the two blocks, whole units and at least one |
| `QsortBytes.UnitExact` | ee/libc/src/qsort.c:52-62 | with the unit that the array's address and the element size select, exactly the bytes of the elements are exchanged |
| `QsortBytes.SwapFunc` | ee/libc/src/qsort.c:55-72 | the bytes of the elements of two blocks, apart or the same, change places and no others |
| `QsortBytes.SwapElement` | ee/libc/src/qsort.c:64-70 | the same for one element, also by the direct exchange of two longs |
| `QsortBytes.ElementsExchanged` | ee/libc/src/qsort.c:64-72 | exchanging the bytes of two blocks of elements is exchanging the elements, as `VecSwap` does |
| `Qsort.VecSwapsThreeWay` | ee/libc/src/qsort.c:149-153 | after the two vector swaps the range reads less, equal, greater, with every pivot-equal element in the middle |
| `Qsort.Round` | ee/libc/src/qsort.c:92-153 | one round around the pivot splits the range three ways into parts of at most n-1 elements together, or finds it split already and sorts it |
| `Qsort.Qsort` | ee/libc/src/qsort.c:86-162 | for every length and every total preorder the range ends sorted and permuted, through all paths, and the loop and recursion terminate |
| `Qsort.ShuffledIsPermutation` | ee/libc/src/qsort.c:86-162 | equal counts inside the range and identity outside make the usual permutation |
| `Recycler.Recycler.constructor` | ee/erl/src/recycle.c:25-35 | an empty root, the item size rounded up to a pointer multiple |
| `Recycler.Recycler.Renew` | ee/erl/include/recycle.h:53-54 | hands out the last uncarved slot, else the item deleted last, else the last of a new block; it was not live, the partition of slots is kept, and it is cleared if and only if it comes from the trash or its bytes were zero already; the next block is twice as long while a new one is below 32000 bytes |
| `Recycler.Recycler.Renewx` | ee/erl/src/recycle.c:52-73 | clears and reuses the head of the trash when there is any and otherwise mallocs a block of 2^logsize items and carves its last one as malloc left it |
| `Recycler.FirstItemUncleared` | ee/erl/src/recycle.c:62-70 | a new root on memory that is not zero hands out an item that is not cleared |
| `Recycler.Recycler.OthersKept` | ee/erl/src/recycle.c:57-61 | clearing an item or storing a link in it changes no byte of another live item |
| `Recycler.Recycler.Redel` | ee/erl/include/recycle.h:60-63 | a live item becomes the head of the trash and holds the link to the rest of it |
| `Recycler.LinkReads` | ee/erl/include/recycle.h:60-62 | the link stored in a deleted item or a new block is read back |
| `Recycler.Recycler.LiveItem` | ee/erl/src/recycle.c:52-73 | every live item lies inside an allocated block, behind its link |
| `Recycler.Recycler.LiveItemsApart` | ee/erl/src/recycle.c:52-73 | two live items never overlap |
| `Recycler.Recycler.SlotsConserved` | ee/erl/src/recycle.c:62-70 | slots malloced = live + trash + bytes left over item size, and no block exceeds the larger of one item and twice REMAX |
| `Recycler.Recycler.Refree` | ee/erl/src/recycle.c:37-49 | frees every block exactly once |
| `HashTable.HashTable.constructor` | ee/erl/src/hashtab.c:122-139 | the empty table of 2^logsize buckets |
| `HashTable.HashTable.Hfind` | ee/erl/src/hashtab.c:156-176 | found exactly when the key is in the map; the cursor then stands on its item, otherwise it does not move |
| `HashTable.HashTable.Hadd` | ee/erl/src/hashtab.c:182-230 | the map gains the key exactly when it was new, the table doubles exactly when it was new and every bucket's worth was used, and the cursor stands on the key's item |
| `HashTable.HashTable.Hgrow` | ee/erl/src/hashtab.c:85-119 | twice the buckets, the same items, each in the bucket of its hash; the cursor is on the first |
| `HashTable.HashTable.Rehash` | ee/erl/src/hashtab.c:99-111 | the new bucket array holds exactly the items of the old one |
| `HashTable.HashTable.Hnbucket` | ee/erl/src/hashtab.c:276-306 | the cursor goes to the first item of the next non-empty bucket, cyclically; TRUE exactly when it did not wrap |
| `HashTable.HashTable.Hfirst` | ee/erl/src/hashtab.c:262-268 | TRUE exactly when the table is not empty; the cursor is then first in the traversal order |
| `HashTable.HashTable.Hnext` | ee/erl/include/hashtab.h:184-186 | the cursor moves one place on in the traversal order; FALSE exactly when it wraps to the first |
| `HashTable.HashTable.Hdel` | ee/erl/src/hashtab.c:233-259 | the current item leaves map, order and recycler; the cursor moves to its cyclic successor and is NULL exactly when nothing is left |
| `HashTable.HashTable.VisitAll` | ee/erl/include/hashtab.h:176-181 | hfirst and then hnext until FALSE sees every item exactly once |
| `HashTable.HashTable.Flush` | ee/erl/src/erl.c:1145-1158 | deleting until the count is 0 terminates, deletes the items in traversal order, and leaves table and recycler empty |
| `HashTable.HashTable.MaskedHome` | ee/erl/src/hashtab.c:219-221 | an item with hash v is in bucket v & mask |
| `BitMask.MaskIsRemainder` | ee/erl/src/hashtab.c:164-164 | masking with 2^k - 1, bit by bit, is the remainder by 2^k |
| `Buckets.OrderLists` | ee/erl/src/hashtab.c:276-306 | the traversal order lists every item of the table once |
| `Buckets.FlatDrop` | ee/erl/src/hashtab.c:242-245 | unlinking an item from its chain removes exactly that place from the traversal order |
| `Relocation.PatchExact` | ee/erl/src/erl.c:404-420 | the ELF types 2, 4, 5 and 6 are patched and no others; a whole word moves by the address, and a jump and both halves of a pair keep their opcode bits |
| `Relocation.LuiPatched` | ee/erl/src/erl.c:411-413 | lui $2, 0 relocated to 0x00123456 becomes lui $2, 0x12 |
| `Relocation.HiLoExact` | ee/erl/src/erl.c:411-416 | a relocated HI16/LO16 pair moves its effective address by the symbol address modulo 2^32 if and only if the signed low halves add up inside 16 bits |
| `Relocation.HiLoExactForSymbols` | ee/erl/src/erl.c:411-416 | with a zero low addend the pair is always exact |
| `Relocation.HiLoCarryLost` | ee/erl/src/erl.c:411-416 | a family of addends and addresses for which the pair misses the symbol |
| `Relocation.JumpExact` | ee/erl/src/erl.c:408-410 | a relocated jump keeps its opcode and adds the address inside its segment if and only if the address is word aligned |
| `Relocation.JumpHalfWord` | ee/erl/src/erl.c:408-410 | an address of 2 does not move a jump |
| `Relocation.RaisePower` | ee/erl/src/erl.c:286-300 | for a power of two the masks give the least multiple not below the argument |
| `Relocation.AlignExact` | ee/erl/src/erl.c:286-300 | the masks give a multiple for every argument if and only if the alignment is a power of two |
| `Relocation.AlignOddAlignment` | ee/erl/src/erl.c:286-300 | 8 is not raised to a multiple of 24 |
| `Relocation.LayOutSections` | ee/erl/src/erl.c:687-701 | the 32-bit total is the sections' end if and only if that is below 2^32, and then the PROGBITS and NOBITS sections are in order, disjoint, inside it, at multiples of 16 and of their own power of two below 2^31 |
| `Relocation.SectionsTight` | ee/erl/src/erl.c:286-300 | each section that occupies memory follows the one before as closely as its alignment allows, and the others take no room |
| `Relocation.ImageTooLarge` | ee/erl/src/erl.c:687-701 | two sections of 2^31 bytes end at 2^32 |
| `LinkerSpec.BindKeeps` | ee/erl/src/erl.c:450-469 | resolving a relocation to a loaded provider or a global keeps the invariant: the use is covered by an edge |
| `LinkerSpec.KnownKindExact` | ee/erl/src/erl.c:404-420 | the types that do not end a load are those apply_reloc can patch: 2, 4, 5 and 6 |
| `SparseMemory.LittleEndian` | ee/erl/src/erl.c:402-403 | a word is its four bytes, least significant at the lowest address |
| `LinkerSpec.DeferKeeps` | ee/erl/src/erl.c:499-513 | deferring a relocation to a name that cannot be found keeps the invariant |
| `LinkerSpec.FixKeeps` | ee/erl/src/erl.c:515-534 | patching and forgetting what waits for a name keeps every invariant of the linker and takes exactly that name off the pending table |
| `LinkerSpec.DefineKeeps` | ee/erl/src/erl.c:546-572 | a definition, accepted or refused, keeps the invariant: nothing both pending and defined, unique non-local names, providers loaded, uses covered by edges |
| `LinkerSpec.RelocateAllKeeps` | ee/erl/src/erl.c:837-890 | the relocation loop keeps the invariant at every entry, also when it stops at an error |
| `LinkerSpec.RemoveAllKeeps` | ee/erl/src/erl.c:1109-1116 | removing modules that only one another depend on keeps the invariant |
| `LinkerSpec.KeepEdgesHas` | ee/erl/src/erl.c:483-497 | exactly the edges whose depender is removed go |
| `LinkerUnload.UnloadRemoves` | ee/erl/src/erl.c:1073-1119 | an unload removes the module and lower-ranked, unsticky modules used only from among themselves, exactly their records and edges; none of them was linked by the module itself |
| `LinkerUnload.UnloadKeeps` | ee/erl/src/erl.c:1073-1119 | unloading, recursion included, keeps the invariant |
| `LinkerRun.RunKeepsInv` | ee/erl/src/erl.c:578-1119 | every run of loads, failed loads, global definitions, flag changes and unloads keeps the invariant |
| `LinkerRun.NoDanglingRelocation` | ee/erl/src/erl.c:450-572 | after any run: no name is both pending and defined, every edge's provider is NULL or loaded, and no loaded module holds a relocation into an unloaded one |
| `LinkerRun.UsedModuleStays` | ee/erl/src/erl.c:1095-1100 | after any run, unloading a module another loaded module was relocated to is refused |
| `LinkerDeferred.BindAllOnce` | ee/erl/src/erl.c:523-527 | a word that one pending entry touches is patched once, by that entry, wherever it stands in the list |
| `LinkerDeferred.HousedAvoids` | ee/erl/src/erl.c:748-779 | a load into memory that no loaded image occupies writes and relocates no word of a loaded image |
| `LinkerDeferred.DeferredIsImmediate` | ee/erl/src/erl.c:848-858 | after the rest of a successful load and any run in which the module stays loaded and the name is not defined, defining the name leaves the word that relocating at once would have left, and nothing pending |
| `LinkerDeferred.DeferredExact` | ee/erl/src/erl.c:515-534 | whatever happened in between, the definition leaves that word if and only if the word has not changed |
| `LinkerStale.DependersLoadedExact` | ee/erl/src/erl.c:515-534 | a definition keeps every edge's depender loaded if and only if every pending entry that adds an edge belongs to a loaded module |
| `LinkerStale.DefinitionWritesExact` | ee/erl/src/erl.c:515-534 | after any run of loads that relocate inside their images, the word patched for a pending entry lies in the image of the load that deferred it if and only if the record the entry names is listed and still the one of that load; no byte outside the entries' words changes |
| `LinkerStale.PatchesAnother` | ee/erl/src/erl.c:515-534 | a run in which the waiting module is unloaded and another loaded over it: the definition moves the other module's word by the address, which changes it unless the address is 0 and is what relocating at once leaves only if the two words were equal |
| `LinkerStale.AddressReused` | ee/erl/src/erl.c:515-534 | a run in which the record address of the unloaded waiter is used again: the entry names a loaded record, but its word is in no image of the load that deferred it |
| `LinkerStale.PatchedAtOnce` | ee/erl/src/erl.c:846-858 | what relocating the waiting module at once leaves |
| `LinkerStale.LoadSucceedsExact` | ee/erl/src/erl.c:845-889 | a load gets through if and only if no entry has an unknown symbol type or, when it is patched at once, an unknown relocation type |
| `LinkerStale.FailedLoadExact` | ee/erl/src/erl.c:594-600 | a failed load from a file keeps every depender loaded if and only if no entry before the failing one names a symbol that can be found |
| `LinkerStale.FailedLoadLeavesEdge` | ee/erl/src/erl.c:594-600 | an image that fails after one resolved entry leaves an edge of a module that is gone |
| `LinkerStale.UnloadDependers` | ee/erl/src/erl.c:1084-1119 | unloading leaves no edge of a removed module behind |
| `LinkerStale.StaleDepender` | ee/erl/src/erl.c:1084-1119 | a run of three steps that ends with an edge from an unloaded module, which then blocks an unload |
| `LinkerEffect.DefineFinds` | ee/erl/src/erl.c:546-572 | a name that could not be found is found afterwards, at the address and with the owner it was defined with |
| `LinkerEffect.DefineLocal` | ee/erl/src/erl.c:546-570 | a module's own table gets a name it does not have if and only if the name is one of the seven that every module may define or cannot be found; a name it has stays |
| `LinkerEffect.DefineGlobal` | ee/erl/src/erl.c:546-576 | the same for the global table |
| `LinkerEffect.FindFirst` | ee/erl/src/erl.c:435-448 | the global table wins, and among the modules the newest that has the name |
| `LinkerEffect.FindErlFirst` | ee/erl/src/erl.c:1133-1145 | a record is found by name, the newest first |
| `LinkerEffect.DefineKeepsFound` | ee/erl/src/erl.c:557-558 | no definition moves a name that is already found, local names apart |
| `LinkerEffect.ExportsFound` | ee/erl/src/erl.c:896-905 | every exported non-local name is found after the loop, at its old address if it had one and else at its first export |
| `LinkerEffect.RelocatedWords` | ee/erl/src/erl.c:837-890 | after the loop a word named by one entry holds the patched value for the address the entry stands for, or is unchanged if that is not known yet |
| `LinkerEffect.SameResolution` | ee/erl/src/erl.c:845-889 | a name that can be found is resolved alike whether or not the image defines it itself; otherwise the image's own address counts |
| `LinkerEffect.RelocationsAccounted` | ee/erl/src/erl.c:846-858 | every entry for an external name is recorded as a use of its provider or waits under the name |
| `LinkerEffect.LoadedRecord` | ee/erl/src/erl.c:940-980 | a load that succeeds lists its record with the declared name and dependencies; one that fails leaves the record listed if and only if the image came from memory |
| `LinkerEffect.StickyExact` | ee/erl/src/erl.c:1084-1105 | a module can be unloaded if and only if its sticky flag is clear and no edge leads to it |
| `LinkerEffect.UnloadTakesDependency` | ee/erl/src/erl.c:1073-1116 | a successful unload also removes every declared dependency that is not sticky and that no edge leads to |
| `LinkerEffect.DependencyGoesExact` | ee/erl/src/erl.c:1073-1116 | a declared dependency linked to only by the module or by modules not below it goes with the module if and only if it could have been unloaded by itself |
| `LinkerEffect.LinkedPairGoes` | ee/erl/src/erl.c:1073-1082 | of two declared dependencies the later one goes first, so that the one it is linked to can go as well |
| `LinkerEffect.LinkedPairStays` | ee/erl/src/erl.c:1073-1082 | declared in the other order, the one that is linked to is refused and stays |
| `LinkerStale.LinkedDependencyStays` | ee/erl/src/erl.c:1109-1116 | a run in which a module is unloaded and the declared dependency it is linked to stays |
| `Linker.Linker.FindSymbol` | ee/erl/src/erl.c:435-448 | the global table decides first, then the first record in the list that has the name |
| `Linker.Linker.FixLoosy` | ee/erl/src/erl.c:515-534 | every waiting entry is patched and gets its edge, the name is forgotten, and the count returned is how many there were |
| `Linker.Linker.AddSymbol` | ee/erl/src/erl.c:546-572 | -1 exactly for a non-local name that can be found; otherwise the state of the specified definition; the invariant holds |
| `Linker.Linker.RelocateOne` | ee/erl/src/erl.c:845-889 | one relocation entry has the specified effect, or fails exactly for an unknown type and then changes nothing |
| `Linker.Linker.RelocateImage` | ee/erl/src/erl.c:837-890 | the loop over entries has the effect of the specified fold and stops at the first error |
| `Linker.Linker.ExportSymbols` | ee/erl/src/erl.c:896-905 | every export is defined in order, refused ones ignored |
| `Linker.Linker.CopySections` | ee/erl/src/erl.c:762-779 | every byte of a section is at the section's offset in the image unless a later section covers it, and no byte outside the sections changes |
| `LinkerImage.ChunkPlaced` | ee/erl/src/erl.c:762-779 | byte k of a section ends at base + offset + k unless a later section covers it |
| `LinkerImage.ChunksElsewhere` | ee/erl/src/erl.c:762-779 | no byte outside the sections changes |
| `LinkerImage.LoadPlaces` | ee/erl/src/erl.c:762-905 | after the whole load, relocations and exports included, the bytes that no relocation touches are as the sections made them |
| `Linker.Linker.LoadErl` | ee/erl/src/erl.c:940-980 | a load has the specified effect on records, symbols, section bytes, relocated words and edges, including the two ways to fail, and keeps the invariant; of the bytes that no relocation touches, those of the sections are at their offsets and no others change |
| `Linker.Linker.DestroyDependancies` | ee/erl/src/erl.c:471-497 | the edges the module depends by are dropped, the others stay in order |
| `Linker.Linker.FindRecord` | ee/erl/src/erl.c:1133-1143 | the first record with the name, or none |
| `Linker.Linker.UnloadErl` | ee/erl/src/erl.c:1084-1119 | done exactly when the record is not sticky and provides for no edge; terminates for acyclic declared dependencies; refused, it changes nothing |
| `Linker.Linker.UnloadDependancies` | ee/erl/src/erl.c:1073-1082 | declared dependencies are tried from last to first, each by name in the state the earlier ones left |
| `RpcClient.RpcData.GetPacket` | ee/kernel/src/sifrpc.c:51-87 | takes the first free packet and stamps it with its slot number and the next id; NULL and no change exactly when every packet is allocated |
| `RpcClient.FreeKeeps` | ee/kernel/src/sifrpc.c:271-298 | freeing the packet of an answered request keeps the protocol invariant and retires the request's id |
| `RpcClient.LeakKeeps` | ee/kernel/src/sifrpc.c:190-198 | an error return after a packet was taken keeps the invariant, with the packet nobody's |
| `RpcClient.StepKeeps` | ee/kernel/src/sifrpc.c:51-298 | every statement of a caller, failing sends and semaphore creations included, and every answer keeps the protocol invariant |
| `RpcClient.OwnPackets` | ee/kernel/src/sifrpc.c:103-204 | after any run, outstanding clients own distinct allocated packets that carry their own distinct ids |
| `RpcClient.StatusExact` | ee/kernel/src/sifrpc.c:660-674 | after any run, a client is reported busy if and only if its own request is outstanding or its last call failed, also when its slot was cleared and reused |
| `RpcClient.FailedCallStaysBusy` | ee/kernel/src/sifrpc.c:179-188 | a call whose send fails leaves its client busy with nothing outstanding |
| `RpcClient.BlockedExact` | ee/kernel/src/sifrpc.c:129-141 | after any run, a blocked caller can go on if and only if its END came, which until then can still come; then its structure names no packet and no packet carries its id |
| `RpcClient.ReleasedByOwnEnd` | ee/kernel/src/sifrpc.c:280-298 | the only step that releases a blocked caller is the END of its own request |
| `RpcClient.PoolConserved` | ee/kernel/src/sifrpc.c:51-87 | a packet is allocated if and only if some request in progress holds it or a failed call left it |
| `RpcClient.LeakExact` | ee/kernel/src/sifrpc.c:179-198 | after any run a packet is allocated that no client's request occupies if and only if some send or semaphore creation failed |
| `RpcClient.SemaLeakExact` | ee/kernel/src/sifrpc.c:190-205 | after any run a semaphore exists that no client owns if and only if some send failed after its semaphore was created |
| `RpcClient.CallGivesBack` | ee/kernel/src/sifrpc.c:153-203 | a blocking call that nothing comes between runs to its end: its packet is free, its semaphore gone, the client idle with a fresh id, everything else as it was |
| `RpcClient.AsyncCallGivesBack` | ee/kernel/src/sifrpc.c:153-188 | an asynchronous call is busy until its answer; after it the packet is free, the client not busy and everything else as it was, for both kinds of answer |
| `TopThread.MaskIsAnd` | ee/kernel/src/thread.c:55-56 | the ring index is the counter and 0x1FF |
| `TopThread.PostKeeps` | ee/kernel/src/thread.c:118-123 | below 255 pending signals a post uses a slot no waiting request occupies and keeps the invariant |
| `TopThread.FirstInFirstOut` | ee/kernel/src/thread.c:48-73 | without a lost signal, what was executed is what was posted, once each and in order, whatever interrupts came between the consumer's statements |
| `TopThread.AllExecutedExact` | ee/kernel/src/thread.c:48-73 | when the thread sleeps with no signal left, everything posted has been executed if and only if no post met 255 pending signals |
| `TopThread.SignalLost` | ee/kernel/src/thread.c:80-83 | 256 posts before the thread runs: one request without a signal |
| `TopThread.LostForever` | ee/kernel/src/thread.c:80-83 | over every run the number of unsignalled requests never drops, and stays the same exactly when no signal is lost |
| `TopThread.OrderKept` | ee/kernel/src/thread.c:48-73 | also after lost signals, what was executed is what was posted, in order, as long as no post meets 512 waiting requests |
| `TopThread.OverwriteExact` | ee/kernel/src/thread.c:118-121 | a post leaves every waiting request in its slot if and only if fewer than 512 wait or the oldest one is the same |
| `TopThread.RequestOverwritten` | ee/kernel/src/thread.c:118-121 | 513 posts before the thread runs: the last request is executed in the place of the first |
| `TopThread.ExecutedAsAsked` | ee/kernel/src/thread.c:135-150 | as long as no request is overwritten, one is executed with the number asked for if and only if the number is not negative |
| `TopThread.NegativePriority` | ee/kernel/src/thread.c:135-150 | a posted priority of -1 is executed as 255 |
| `TopThread.TopArg.WakeOrSuspend` | ee/kernel/src/thread.c:110-175 | for the running thread with an id below 256 and an existing top thread the request goes to the next of the 512 slots as its mode and a byte, with one more signal up to 255; otherwise nothing changes and the result is -1 or the kernel's own |
| `TopThread.TopArg.RotateReadyQueue` | ee/kernel/src/thread.c:135-150 | the same for a priority below 128 |
| `TopThread.TopArg.Turn` | ee/kernel/src/thread.c:52-72 | an uninterrupted turn executes the oldest waiting request |
| `Clock.BcdMeaning` | ee/kernel/src/osd_config.c:321-328 | two decimal digits are read as their number and written back |
| `Clock.BcdRoundTripExact` | ee/kernel/src/osd_config.c:321-328 | a byte survives the round trip if and only if its low digit is decimal |
| `Clock.FieldsExact` | ee/kernel/src/osd_config.c:330-347 | every field is converted from and to its own byte, two decimal digits each |
| `Clock.MonthsByFormula` | ee/kernel/src/osd_config.c:349-360 | the days before each month are those of the 153-day formula, which does not use the table of month lengths |
| `Clock.CalendarExact` | ee/kernel/src/osd_config.c:349-360 | minute numbers are those of the formula |
| `Clock.ValidTimeExact` | ee/kernel/src/osd_config.c:349-360 | the valid times are those between the starts of months in the formula |
| `Clock.ClockRegister.AddDate` | ee/kernel/src/osd_config.c:353-381 | the day number goes up by one modulo 36525 and the date stays valid |
| `Clock.ClockRegister.SubDate` | ee/kernel/src/osd_config.c:382-409 | the day number goes down by one modulo 36525 and the date stays valid |
| `Clock.ClockRegister.AddHour` | ee/kernel/src/osd_config.c:411-419 | the hour number goes up by one modulo the cycle |
| `Clock.ClockRegister.SubHour` | ee/kernel/src/osd_config.c:420-429 | the hour number goes down by one modulo the cycle |
| `Clock.ClockRegister.AdjustTime` | ee/kernel/src/osd_config.c:431-456 | for every valid BCD time and every `int` offset all fields stay valid BCD and seconds stay; the minute number moves by the offset modulo 52596000 if and only if offset plus minutes does not overflow |
| `Clock.AdjustedByFormula` | ee/kernel/src/osd_config.c:431-456 | an adjusted time is moved by the offset on the calendar of the formula |
| `Clock.LargestOffset` | ee/kernel/src/osd_config.c:434-434 | the largest `int` offset moves a time by itself if and only if the minutes are 0 |
| `Clock.MinuteInjective` | ee/kernel/src/osd_config.c:349-381 | valid times with the same minute number and seconds are the same |
| `Clock.AdjustedUnique` | ee/kernel/src/osd_config.c:431-456 | the adjusted time is determined by the time and the offset |
| `Clock.AdjustInverse` | ee/kernel/src/osd_config.c:431-456 | what the adjustments by a and then by -a make of a time is, byte for byte, that time if and only if neither minute sum overflows |
| `Clock.AdjustBothWays` | ee/kernel/src/osd_config.c:431-456 | the two calls in a row restore the register if and only if neither minute sum overflows |
| `Clock.LargestOffsetBack` | ee/kernel/src/osd_config.c:434-434 | there and back by the largest offset restores the register if and only if the minutes are 0 |
| `TextureChain.QwordsExact` | ee/draw/src/draw.c:230-291 | the size is the image's bits in whole quadwords, covering every pixel if and only if they fill the last one |
| `TextureChain.SizeExact` | ee/draw/src/draw.c:230-309 | the quadwords sent are the bits of the pixels that TRXREG announces if and only if the sides fit its fields and the pixels fill whole quadwords |
| `TextureChain.OnePixelUnsent` | ee/draw/src/draw.c:230-291 | a single 32-bit pixel is announced and no quadword sent |
| `TextureChain.WideUnannounced` | common/include/gs_gp.h:317-318 | a width of 4096 is announced as 0 while the image is sent |
| `TextureChain.DrawTextureTransfer` | ee/draw/src/draw.c:223-346 | writes exactly the specified chain at the pointer and nothing else, and returns the pointer behind it |
| `TextureChain.PutPieces` | ee/draw/src/draw.c:293-342 | the quotient loop and the remainder write the image cut into pieces of at most 0x7FFF quadwords |
| `TextureChain.DrawTextureFlush` | ee/draw/src/draw.c:208-221 | writes exactly the flush packet |
| `TextureMeaning.DmaReadBack` | ee/dma/include/dma_tags.h:48-51 | a packed DMA tag is read back field by field |
| `TextureMeaning.GifReadBack` | common/include/gif_tags.h:80-83 | a packed GIF tag is read back field by field |
| `TextureMeaning.BitsFaithful` | ee/dma/include/dma_tags.h:48-95 | the bit layout of every word of a chain loses no field |
| `TextureMeaning.CutWhole` | ee/draw/src/draw.c:293-342 | the pieces put together are the source from first to last quadword, each of 1 to 0x7FFF quadwords |
| `TextureMeaning.WalkPieces` | ee/draw/src/draw.c:315-342 | walking the image part sends each IMAGE tag followed by exactly the quadwords it counts |
| `TextureMeaning.ChainMeaning` | ee/draw/src/draw.c:208-346 | a channel walking transfer and flush reaches END, and the GIF sets the transfer registers, receives the whole quadwords of the image in order, flushes, and sees the end of packet; these are the pixels announced if and only if the size fits |
| `TextureMeaning.BufferMeaning` | ee/draw/src/draw.c:208-346 | the same for the chain as the two calls leave it in a buffer |
| `TextureMeaning.RegisterFields` | common/include/gs_gp.h:175-178 | the transfer registers carry what their fields hold of the destination page, its width, the format and the image size |

## Left out

- The heap's lock: lines 143-144 and 275-276 of `alloc.c` return without releasing it, so no claim is made about it.
- Requests whose sums wrap 32 bits (`Requestable`), the DEBUG_ALLOC build, and `__mem_walk_*`.
- Heap.Heap.constructor: asks for a break of 0 or 8 modulo 16, because `BaseAligned` shows the allocator needs it.
- Heap.Heap.Memalign: alignments above 16 must be powers of two, as the masks in `ALIGN` need; the masks are written as arithmetic.
- Elements of size 0 in `qsort`; the sort itself moves array slots, which the byte copies are related to one swap at a time.
- The `next` pointers of hash chains and of the recycler's lists: chains are sequences and the cursor is a place in one.
- Failure of `malloc` in `remalloc` and `hgrow`, tables of more than 2^31 buckets, `hstat`, `hsanity` and the quality of `lookup`.
- ELF parsing, file reading, `_init`, `_start` and `_fini` of a loaded module, `ERL_FLAG_CLEAR` and `ERL_FLAG_STATIC`; a declared dependency's load is a load of its own in a run.
- Symbol and pending tables of the linker are maps, which is what `HashTable` refines; failing allocations in the linker.
- RpcClient.StepKeeps: each client has one request at a time, and fewer than 2^31 requests are made, the range of the id counter.
- RPC servers and their queues, end functions that start a new call, and the resending of packets; the other processor answers a request once.
- Caches, DMA and GS registers, and `draw_setup_environment`, whose fixed packet would only add easy members.
- TextureMeaning.ChainMeaning: the source is 16-byte aligned and lies below 2^31, as the tag's address field needs.
- RPC wrappers, pads, fonts, video modes, kernel patches, `graph_vram.c` and floating-point drawing.
