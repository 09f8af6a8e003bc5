# Verification models

Dafny models of the stateful cores of the three projects, and proofs of what they keep.

**The allocator (`prj3/prj3-malloc`).** `MemLib` is the bounded break. `Allocator` is `mm.c` over an
array of words, routine by routine, with every header, footer and link written in place. Its meaning is
a value: a table of blocks, the free list in list order, and the end of the heap (`HeapTable`).
`HeapState.State` says what the words say about that value. Each routine has a specification on the
value (`HeapSpec`, `SpecMalloc`, `SpecFree`, `SpecRealloc`), is proved to carry it out on the words
(`Merging`, `Carving`, `Regrowing`, `Allocator`), and the specification is proved to do what an
allocator is for. What `mm_malloc`, `mm_free` and `mm_realloc` make of a heap is also said without them,
with nothing but blocks, sizes and the list (`Grants`, `Frees`, `Regrants`), and that leaves them no choice
(`GrantsDetermines`, `FreesDetermines`, `RegrantsDetermines`). `HeapWalk` reads the invariant off the words. `Ranges`, `Traces`, `Filling` and
`Driver` are the checks of `mdriver.c` over whole traces.

`mm_realloc` tests for a free neighbour in two places where it does not look at the right bit. It is
modelled three times, each time for every live block and every size. `AsWritten.MmRealloc` is the routine
as it stands. Where it does not go wrong (`SafeToRealloc`, a condition on the words before the call) it
does what it should; where it does, every write is executed, whatever payload words it follows, until an
access leaves the heap. `Unguarded` proves that then no heap with the other blocks is left, and when the
damage of the branch that returns null is none. `Mm.MmReallocGuarded` drops the branch of mm.c:391-404 and
counts a predecessor only when its tag bit says that it is free; the drivers run on it.
`AsMeant.MmRealloc` has that branch with its test read as `next_size != 0`: a heap is there afterwards if
and only if the branch is not taken in an exhausted arena, for it erases the free neighbour before it
asks. `Examples` has calls that get to all of these.

Addresses are byte offsets from the start of the arena, which is 8-aligned. A word is a number below
2^32; size, alloc bit and tag bit are read arithmetically, and `Packing` proves for the number of any
32-bit vector that these readings and updates are what the masks of `mm.c` select and store.

**The threaded servers (`prj2`).** Every P, V, load and store is one step of one thread, there are any
number of threads, and a schedule is any sequence of thread numbers. `BoundedBuffer` is the buffer of
connections (`Sbuf` is the same in place, with the semaphores as objects), `ReadersWriters` the lock of
each stock, `NestedShow` the variant that keeps the locks of the whole path. `TreeWalk` turns the
recursion of a show into steps. The theorems hold in every reachable state; each system is also proved
free of deadlock and able to finish from there, and its runs without wasted turns are finite.

**Smaller cores.** `StockTree` and `StockBook` are the stock table as a value and as linked nodes;
`Rio` the buffered reader over short, interrupted or failing reads; `SelectPool` the pool of the select
server; `JobList` the shell's jobs; `Sampler` the K-best measurement loop.

Where the code does not do what it seems to promise, the code is modelled as it is and the exact
condition is proved: the two branches of `mm_realloc` above; the last payload word of a block that moves
back (`LastWordLost`), and with it the comparison of `eval_mm_valid` (`BytesSurvive`), which also rejects
every reallocated id whose low byte is no positive `char`; the range overlaps that `add_range` misses
(`HitsIsAlmostOverlap`); descriptor 0 in `CheckClients`; and `read_cnt`, which `insert_stock` never sets
(`GarbageReadCount`).

For that comparison a trace is `AllSettled` when every block that moves back in it has a smaller
predecessor, or is compared only up to before its last word; then the trace alone decides the answer of
`eval_mm_valid`. For the other reallocations the answer depends on the words left over in a free block
(`SettledIsExact`, `LeftoverDecides`).

Run `dafny verify dfyconfig.toml`.

## Model

| member | source | states |
|---|---|---|
| `MemLib.Arena.ResetBrk` | prj3/prj3-malloc/memlib.c:48-51 | the break is back at the start of the region |
| `MemLib.Arena.Sbrk` | prj3/prj3-malloc/memlib.c:58-69 | -1 exactly for a negative increment or an exhausted region, and then nothing changes; otherwise the old break is returned and the break moves up by the increment, so it never leaves the region |
| `Packing.AllocUpdate` | prj3/prj3-malloc/mm.c:54-56 | setting or clearing the alloc bit leaves size and tag bit alone |
| `Packing.TagUpdate` | prj3/prj3-malloc/mm.c:57-59 | setting or clearing the tag bit leaves size and alloc bit alone |
| `Packing.SizeUpdate` | prj3/prj3-malloc/mm.c:60 | storing a size leaves both flag bits alone and can be read back |
| `Packing.MasksSelectFields` | prj3/prj3-malloc/mm.c:53-58 | for the number of any 32-bit vector, the arithmetic size, alloc bit and tag bit are what the masks of GET_SIZE, GET_ALLOC and GET_TAG select |
| `Packing.MasksSetFlags` | prj3/prj3-malloc/mm.c:55-59 | the arithmetic updates of the two bits give the number of the vector that SET_ALLOC, CLR_ALLOC, SET_TAG and CLR_TAG store |
| `Packing.MasksSetSize` | prj3/prj3-malloc/mm.c:60 | the arithmetic update of the size gives the number of the vector that SET_SIZE stores |
| `FreeRing.EraseKeepsRing` | prj3/prj3-malloc/mm.c:79-86 | one CONNECT around an entry of a circular list leaves the ring of all other entries, in order |
| `FreeRing.InsertKeepsRing` | prj3/prj3-malloc/mm.c:79-85 | the two CONNECTs of INSERT_LIST put a new entry right behind the sentinel and keep the ring |
| `HeapState.ConnectTagged` | prj3/prj3-malloc/mm.c:79-81 | link writes never touch a header or a footer |
| `Allocator.Mm.Erase` | prj3/prj3-malloc/mm.c:86 | exactly the given block leaves the list; it is still free and now pending; no payload and no block interior changes |
| `Allocator.Mm.InsertList` | prj3/prj3-malloc/mm.c:83-85 | the block becomes the first entry; no payload changes |
| `HeapShape.FuseTiles` | prj3/prj3-malloc/mm.c:282-308 | fusing a run of adjacent blocks keeps the tiling of the heap |
| `HeapShape.SplitTiles` | prj3/prj3-malloc/mm.c:202-231 | cutting a block in two keeps the tiling |
| `HeapShape.ExtendTiles` | prj3/prj3-malloc/mm.c:248-261 | a new block in place of the epilogue and a new epilogue keep the tiling |
| `HeapState.FuseState` | prj3/prj3-malloc/mm.c:282-308 | the two header writes of a merge represent the fused table: tags of all neighbours, footers and the list included |
| `HeapState.SplitState` | prj3/prj3-malloc/mm.c:202-231 | the header and footer writes of a cut represent the split table |
| `HeapState.ExtendTagged` | prj3/prj3-malloc/mm.c:257-261 | the writes of extend_heap represent the grown table |
| `HeapWalk.WordsLeadAlong` | prj3/prj3-malloc/mm.c:66 | following NEXT_BLOCK through the header words from any block meets exactly the blocks of the table from there on, and the sizes in the words add up to theirs |
| `HeapWalk.HeapTiled` | prj3/prj3-malloc/mm.c:97-343 | in every consistent heap the walk through the header words from the first block ends, meets every block between prologue and epilogue once and in address order, and the sizes it reads sum to the break minus 24 |
| `HeapWalk.BlocksTagged` | prj3/prj3-malloc/mm.c:53-67 | for every block on that walk: 8-aligned, at least 16 bytes, the tag bit of the next header equals its alloc bit, a free block has its size in the footer, has no free neighbour behind it, and is on the list; an allocated one is not |
| `HeapWalk.WordsDetermineHeap` | prj3/prj3-malloc/mm.c:53-86 | the words represent one heap only: break, every block with its size and its neighbours, and the free list in order; only the entry before the prologue is arbitrary |
| `FreeRing.RingIsUnique` | prj3/prj3-malloc/mm.c:72-74 | following SUCC from the sentinel, the words of a ring lead along one list only |
| `HeapSpec.CoalesceSound` | prj3/prj3-malloc/mm.c:271-314 | merging a pending block with its free neighbours keeps the heap sound and every other live block |
| `HeapSpec.LiveBlocksDetermineTable` | prj3/prj3-malloc/mm.c:271-343 | in a sound heap the free blocks are the gaps between the live ones: two sound heaps with the same live blocks, break and list are the same |
| `HeapSpec.CoalesceSeparates` | prj3/prj3-malloc/mm.c:271-314 | after coalesce both neighbours of the result are allocated |
| `Merging.MergeNextDone` | prj3/prj3-malloc/mm.c:285-291 | case 2 leaves the words of the merged heap |
| `Merging.MergePrevDone` | prj3/prj3-malloc/mm.c:292-299 | case 3, whose footer is written before the header of the previous block changes |
| `Merging.MergeBothDone` | prj3/prj3-malloc/mm.c:300-308 | case 4, with both erasures before the sizes are read |
| `Allocator.Mm.MergeNext` | prj3/prj3-malloc/mm.c:285-291 | case 2 in place |
| `Allocator.Mm.MergePrev` | prj3/prj3-malloc/mm.c:292-299 | case 3 in place |
| `Allocator.Mm.MergeBoth` | prj3/prj3-malloc/mm.c:300-308 | case 4 in place |
| `Allocator.Mm.Coalesce` | prj3/prj3-malloc/mm.c:271-314 | the block table becomes the merged one, no live payload changes, and nothing happens when tag bit and alloc bit say that both neighbours are allocated |
| `SpecMalloc.PlaceSound` | prj3/prj3-malloc/mm.c:194-238 | place hands out a block of the requested size or 8 more inside the held block; every other live block stays, the heap is sound; the whole block if less than 16 bytes would be left, its front for requests below 96 bytes or rests below 32, its back otherwise, and the rest is the first free block of the list |
| `Carving.PartTaken` | prj3/prj3-malloc/mm.c:202-231 | whichever side is cut off, and whatever bits the new header word held before, the rest is a free block between allocated ones |
| `Carving.WholeTaken` | prj3/prj3-malloc/mm.c:201-233 | without a cut only the alloc bit and the tag behind it change |
| `Allocator.Mm.CarveLow` | prj3/prj3-malloc/mm.c:206-213 | the low cut: sizes and flags of both parts, and the footer of the free one |
| `Allocator.Mm.CarveHigh` | prj3/prj3-malloc/mm.c:214-224 | the high cut: the same parts, whatever word was where the new header goes |
| `Allocator.Mm.TagFreePart` | prj3/prj3-malloc/mm.c:225-229 | the tags around the free part; the coalesce in between does nothing |
| `Allocator.Mm.PlacePart` | prj3/prj3-malloc/mm.c:202-232 | place with a cut: the new heap is that of the specification |
| `Allocator.Mm.Place` | prj3/prj3-malloc/mm.c:194-238 | place: heap and returned address are those of the specification and no live payload changes |
| `SpecMalloc.AllocSizeIsLeast` | prj3/prj3-malloc/mm.c:140 | the block size is the least multiple of 8 that is at least 16 and leaves 4 bytes for the header |
| `SpecMalloc.BestFitAmong` | prj3/prj3-malloc/mm.c:165-187 | the search returns null only if nothing fits, else a block that fits and is no larger than any other that does |
| `SpecMalloc.BestFitIsEarliest` | prj3/prj3-malloc/mm.c:173-186 | among equals the first in list order wins |
| `SpecMalloc.FitIsBest` | prj3/prj3-malloc/mm.c:165-192 | both together, on the free list of a sound heap |
| `Allocator.Mm.FindFitAtList` | prj3/prj3-malloc/mm.c:165-192 | the walk over the ring terminates, returns the best fit and takes exactly that block off the list, or changes nothing |
| `SpecMalloc.EnlargedSound` | prj3/prj3-malloc/mm.c:240-269 | the grown heap is sound with its tail block pending; a free tail is absorbed; no live block changes |
| `SpecMalloc.GrowthHeld` | prj3/prj3-malloc/mm.c:149-158 | the growth that is computed is a positive multiple of 8, and the end of the heap that grew by it serves the request |
| `Allocator.Mm.ExtendHeap` | prj3/prj3-malloc/mm.c:240-269 | null exactly when the arena is exhausted, and then nothing changes; else the enlarged heap |
| `SpecMalloc.MallocSound` | prj3/prj3-malloc/mm.c:130-164 | null exactly for size 0, or when nothing fits and the heap, grown by the rounded size, at least 4096, less a free last block, would pass 20 MB, and then nothing changes; otherwise the smallest block that fits, the first of those in the list, or else the end of the heap grown by exactly that is carved up (`Grants`), and all other live blocks are as they were |
| `SpecMalloc.GrantsDetermines` | prj3/prj3-malloc/mm.c:130-164 | there is one heap and one address that meet all this: those of mm_malloc |
| `Allocator.Mm.MmMalloc` | prj3/prj3-malloc/mm.c:130-164 | the words after the call represent the heap that `Grants` describes, and the address is the one it gives; no word of any other live payload changed; a failing call changed no word at all |
| `Allocator.Mm.MmInit` | prj3/prj3-malloc/mm.c:97-124 | on a reset arena: success, and one free block of 4096 bytes between prologue and epilogue |
| `SpecFree.FreeSound` | prj3/prj3-malloc/mm.c:318-343 | the heap stays sound, the block is no longer live, every other live block stays and none appears; the block and its free neighbours are one free block of their sizes together, the first one of the list |
| `SpecFree.FreesDetermines` | prj3/prj3-malloc/mm.c:318-343 | there is one sound heap that meets all this: that of mm_free |
| `SpecFree.PlaceRoundTrip` | prj3/prj3-malloc/mm.c:194-343 | freeing what place handed out restores the held block, low cut, high cut and whole alike |
| `SpecFree.FreeUndoesMalloc` | prj3/prj3-malloc/mm.c:130-343 | free after malloc gives back the block table and the break; only the list order differs, and growth remains as one free tail block |
| `Allocator.Mm.MmFree` | prj3/prj3-malloc/mm.c:318-343 | the words after the call represent the heap that `Frees` describes and no other live payload changed |
| `Regrowing.PayloadWrites` | prj3/prj3-malloc/mm.c:318-343 | whatever a client writes into its payload keeps the heap consistent |
| `SpecRealloc.GatheredHeld` | prj3/prj3-malloc/mm.c:417-423 | the block merged with its free neighbours holds the room that was computed |
| `SpecRealloc.ResettledSound` | prj3/prj3-malloc/mm.c:426-446 | regrown in place, with or without a rest: sound, large enough, every other live block as it was |
| `SpecRealloc.StretchedSound` | prj3/prj3-malloc/mm.c:377-387 | a last block grown in place: sound, as large as asked for, every other live block as it was |
| `SpecRealloc.MoveSound` | prj3/prj3-malloc/mm.c:448-461 | a fresh block and a free: sound, large enough, the old address no longer live, every other live block as it was |
| `SpecRealloc.ReallocSound` | prj3/prj3-malloc/mm.c:348-467 | mm_realloc without the branch of mm.c:391-404 and with a predecessor counted only when it is free, all other paths together: null for a positive size means that nothing changed; otherwise a block at the result that is large enough, and every other live block as it was; and where: a block that is large enough stays, the last one grows in place if the arena has room, one that is large enough with its free neighbours takes them over and starts where the first of them did, and only if it is not does a fresh block take its place |
| `SpecRealloc.ResettledMerges` | prj3/prj3-malloc/mm.c:412-446 | the block taken over with its free neighbours has exactly the size asked for, or all of the room if less than 16 bytes would be left; the heap does not grow |
| `SpecRealloc.RegrantsDetermines` | prj3/prj3-malloc/mm.c:348-467 | there is one sound heap and one address that meet all this: those of mm_realloc |
| `Allocator.Mm.Memcpy` | prj3/prj3-malloc/mm.c:424 | a forward word copy to a lower or disjoint place copies the bytes and writes nothing else |
| `Allocator.Mm.ReallocTail` | prj3/prj3-malloc/mm.c:377-387 | the last block: words, other payloads and its own payload |
| `Allocator.Mm.ReallocInPlace` | prj3/prj3-malloc/mm.c:416-446 | the merge with free neighbours, when the sum is the room around the block: words, other payloads, and which bytes of its own survive (any other sum: `AsWritten.GrowOverPhantom`) |
| `Allocator.Mm.ReallocMove` | prj3/prj3-malloc/mm.c:448-461 | the move: words, other payloads, and the whole old payload at the new place |
| `Regrowing.RoomsAddUp` | prj3/prj3-malloc/mm.c:389-414 | the sizes of the block and of its free neighbours add up to the room that the merge gathers |
| `Allocator.Mm.MmReallocGuarded` | prj3/prj3-malloc/mm.c:348-467 | for every live block and every size, without the branch of mm.c:391-404 and with a predecessor counted only when its tag bit says that it is free: the words represent the heap that `Regrants` describes, and the address is the one it gives, on every path; a failing call changed no word; no other live payload changed; the whole payload survives unless the block moves back onto its predecessor, and then it does if and only if its last word equals the word that was at the new place |
| `AsMeant.TakenOverSound` | prj3/prj3-malloc/mm.c:391-404 | the last block of the heap taken over and grown by what is missing: the heap is sound, the block is as large as asked for, every other live block as it was |
| `AsMeant.MergeErased` | prj3/prj3-malloc/mm.c:271-314 | coalesce next to a block that was erased before: the tests lead to case 3, the second ERASE changes no word, and one header and one footer are written for both |
| `AsMeant.GrowOverFree` | prj3/prj3-malloc/mm.c:391-404 | the branch with its test read as next_size != 0, executed: null exactly when the arena is exhausted, and then the free block is off the list; otherwise the words represent the heap with the block taken over, and no payload changed |
| `AsMeant.LostBlock` | prj3/prj3-malloc/mm.c:396-400 | words with a free block that is off the list represent no heap at all |
| `AsMeant.MmRealloc` | prj3/prj3-malloc/mm.c:348-467 | for every live block and every size, with both guards as they are meant: afterwards the words represent some heap if and only if the call did not erase a free last neighbour in an arena that was exhausted; on every path what the block and all other payloads hold; the block that takes over ends where the heap does and has the size asked for |
| `AsWritten.MmRealloc` | prj3/prj3-malloc/mm.c:348-467 | the code as written, for every live block and every size: outside the two faulty branches all of the above; inside them, unless an access leaves the heap, either no heap is left in which the block has grown and every other block is live, or the result is null and the old heap is still there exactly when the two words that ERASE wrote did not matter |
| `Regrowing.LastWordLost` | prj3/prj3-malloc/mm.c:423-424 | the exact condition for the last word of a payload to survive a merge with the predecessor |
| `Regrowing.SumIsRoom` | prj3/prj3-malloc/mm.c:389-415 | outside the two faulty branches the computed sum is the room around the block, or too small either way |
| `AsWritten.BranchFacts` | prj3/prj3-malloc/mm.c:412-415 | past the test of line 391 a call is safe if and only if the header that PREV_BLOCK leads to can be read and no phantom room is taken; the tag bit tells a phantom from a free predecessor |
| `AsWritten.EraseAny` | prj3/prj3-malloc/mm.c:86 | ERASE of any address: the second write follows the links as the first one left them |
| `AsWritten.GrowOverLast` | prj3/prj3-malloc/mm.c:391-404 | the branch for an allocated last neighbour, executed: null leaves exactly the words after ERASE, otherwise the heap is ruined |
| `AsWritten.SplitAny` | prj3/prj3-malloc/mm.c:427-438 | the cut of a phantom room, executed with the coalesce and the list insertion through whatever words they meet: the words claim the phantom room or deny that the block is allocated |
| `AsWritten.GrowOverPhantom` | prj3/prj3-malloc/mm.c:412-446 | the merge with a predecessor that is not free, executed on both of its paths: the heap is ruined |
| `Unguarded.LastTwoLoses` | prj3/prj3-malloc/mm.c:401-404 | a header of the size that the branch stores leaves no heap with every other live block |
| `Unguarded.EraseSpares` | prj3/prj3-malloc/mm.c:396-400 | when that branch returns null: the heap is as it was if and only if neither of the two written words is a header, and a link of the list or a footer that was hit got what it held |
| `Unguarded.ZeroLinksLoseList` | prj3/prj3-malloc/mm.c:396-400 | if the neighbour starts with two zero words, that is exactly when the free list is empty |
| `Unguarded.PhantomLoses` | prj3/prj3-malloc/mm.c:414-446 | words that claim the phantom room leave no heap of the same extent with every other live block |
| `Unguarded.OverrunLoses` | prj3/prj3-malloc/mm.c:391-446 | a block that claims more than its room, itself or with a free block behind it, swallows the block that starts there |
| `Examples.LastTwoHappens` | prj3/prj3-malloc/mm.c:391 | mm_malloc(4000), mm_malloc(80) on the initial heap, then growing the second block to 200 bytes, takes that branch |
| `Examples.StrandingHappens` | prj3/prj3-malloc/mm.c:391-400 | after mm_malloc(50) on the initial heap, growing the block to 8000 bytes takes over the free last neighbour, and asking for 21000000 loses it |
| `Examples.PhantomHappens` | prj3/prj3-malloc/mm.c:412-415 | two words in the payload of a live predecessor make a request for as many bytes as the block has unsafe |
| `Examples.MoveBackHappens` | prj3/prj3-malloc/mm.c:415-424 | after three calls of mm_malloc(100) on the initial heap, growing the last block to 200 bytes moves it back |
| `Examples.LastWordLossHappens` | prj3/prj3-malloc/mm.c:424 | whenever a block is going to move back, there is a last word that its owner can write and that is lost |
| `Examples.GrowingIsOpen` | prj3/prj3-malloc/mdriver.c:644-683 | the trace of three allocations of 100 bytes, the last grown to 200, is not settled |
| `Examples.LeftoverDecides` | prj3/prj3-malloc/mdriver.c:666-677 | before its last request one word of the free block may hold 0, and then the comparison fails, or four fill bytes, and then it succeeds |
| `Ranges.HitsIsAlmostOverlap` | prj3/prj3-malloc/mdriver.c:410-413 | the overlap test accepts all disjoint ranges, and misses exactly the new ranges that reach beyond an old one on both sides |
| `Ranges.RangeList.AddRange` | prj3/prj3-malloc/mdriver.c:381-431 | accepts a payload if and only if it is aligned, inside the heap and not hit by the test, and records it at the front |
| `Ranges.RangeList.RemoveRange` | prj3/prj3-malloc/mdriver.c:438-455 | removes the first record with the address |
| `Traces.PointerIsExclusive` | prj3/prj3-malloc/mm.c:130-164 | the returned pointer is 8-aligned and inside the heap, and its bytes overlap no other block, header, links and footer included |
| `Traces.FreshPasses` | prj3/prj3-malloc/mdriver.c:381-431 | a block from a successful mm_malloc passes every check of add_range against the records of all live blocks |
| `Traces.AmpleArenaServes` | prj3/prj3-malloc/mdriver.c:597-697 | a well-formed trace of allocations, reallocations and frees whose demand fits into the arena is served to its end |
| `Traces.NeedIsTight` | prj3/prj3-malloc/mm.c:130-164 | what that demand counts for a request is exactly what the heap grows by when nothing fits and the last block is allocated |
| `Traces.ReallocGrowth` | prj3/prj3-malloc/mm.c:348-467 | mm_realloc grows the heap by no more than the request needs and fails only when that would exceed the arena |
| `Traces.ReallocOwned` | prj3/prj3-malloc/mdriver.c:644-682 | after a reallocation every id still owns a block of its own with room for its payload |
| `Traces.ApartPasses` | prj3/prj3-malloc/mdriver.c:658 | the reallocated block passes every check of add_range against the records of all other ids |
| `Traces.PayloadsPacked` | prj3/prj3-malloc/mdriver.c:713-791 | the sizes of all live payloads together fit between the first block and the break |
| `Traces.PeakIsHighest` | prj3/prj3-malloc/mdriver.c:746-770 | the recorded maximum is reached after some prefix of the trace and exceeded after none |
| `Filling.FillReplaces` | prj3/prj3-malloc/mdriver.c:637 | memset of part of a word replaces its low bytes and keeps the others |
| `Filling.FilledByBytes` | prj3/prj3-malloc/mdriver.c:669-677 | comparing n bytes one by one is comparing whole words and the low bytes of the last one |
| `Filling.BytesSurvive` | prj3/prj3-malloc/mdriver.c:666-677 | the compared bytes survive mm_realloc if and only if the block does not move back, or they do not reach its last word, or what was already at the new place agrees |
| `Filling.SmallerIsSafe` | prj3/prj3-malloc/mdriver.c:666-677 | a free predecessor that is smaller than the block never fails the comparison |
| `Filling.SettledIsExact` | prj3/prj3-malloc/mdriver.c:666-677 | the comparison succeeds whatever the words of the free blocks are if and only if the block does not move back, or its predecessor is smaller, or the compared bytes end before its last word |
| `Driver.SettledAlong` | prj3/prj3-malloc/mdriver.c:597-697 | what is asked of the rest of a trace holds of the rest behind every request that is reached |
| `Driver.Decides` | prj3/prj3-malloc/mdriver.c:585-700 | on a settled trace the memory that the requests find has no say in the answer |
| `Driver.EvalDriver.Memset` | prj3/prj3-malloc/mdriver.c:637 | the bytes of the payload become the fill byte and no word beyond the payload is written |
| `Driver.EvalDriver.CheckAlloc` | prj3/prj3-malloc/mdriver.c:615-642 | the ALLOC case fails only if mm_malloc does; afterwards every live payload is recorded and holds its fill byte |
| `Driver.EvalDriver.SameBytes` | prj3/prj3-malloc/mdriver.c:669-677 | the comparison succeeds if and only if every byte is the fill byte and that is a positive char |
| `Driver.EvalDriver.CheckRealloc` | prj3/prj3-malloc/mdriver.c:644-683 | the REALLOC case passes if and only if mm_realloc does not return null and, in the memory that it leaves, every byte that both the old and the new size cover is the fill byte, which is a positive char; afterwards every live payload is recorded and holds its fill byte |
| `Driver.EvalDriver.CheckFree` | prj3/prj3-malloc/mdriver.c:685-691 | the FREE case keeps every remaining payload recorded and filled, and frees exactly the named block |
| `Driver.EvalDriver.EvalMmValid` | prj3/prj3-malloc/mdriver.c:585-700 | on a well-formed trace in which every reallocation is settled the answer is 1 if and only if no request finds the arena exhausted and every reallocated id has a low byte below 128, both conditions on the trace alone; on any trace an id with a low byte of 128 or more that is reallocated makes it 0, and a demand that fits into the arena with no reallocation, or with settled ones of such ids, makes it 1; for other reallocations it depends on the words left over in a free block, which the log holds; an answer of 1 leaves every payload recorded and intact in the heap that the trace leads to |
| `Driver.EvalDriver.EvalMmUtil` | prj3/prj3-malloc/mdriver.c:713-792 | on a well-formed trace that is served the result is the high-water mark of the trace, reallocations included, divided by the end of the heap that the trace leads to, and it is below 1; what counts as live is the number of bytes of the live payloads |
| `BoundedBuffer.StepAccounts` | prj2/task2_new/stockserver.c:125-144 | slots, items, mutex, rear and front account for occupied slots and for every thread in mid-operation, across every P, V, load and store |
| `BoundedBuffer.InsertKeepsContents` | prj2/task2_new/stockserver.c:129 | an insertion writes to no slot with an unread item |
| `BoundedBuffer.RemoveKeepsContents` | prj2/task2_new/stockserver.c:139-140 | a removal reads the oldest unread item |
| `BoundedBuffer.StepKeepsInv` | prj2/task2_new/stockserver.c:125-144 | all invariants across every step of any thread |
| `BoundedBuffer.BufferIsFifo` | prj2/task2_new/stockserver.c:110-144 | after any schedule: rear - front is between 0 and n, the removed items are the first inserted ones in order, and the rest are in their slots |
| `BoundedBuffer.EachItemOnce` | prj2/task2_new/stockserver.c:125-144 | per producer, what it inserted and what it has left is its plan; per consumer, what was removed is what it returned |
| `BoundedBuffer.StuckMeansDone` | prj2/task2_new/stockserver.c:125-144 | with a consumer present, nothing can run only if all plans are carried out and the buffer is empty |
| `BoundedBuffer.StuckRunDelivered` | prj2/task2_new/stockserver.c:72-81 | when nothing can run any more, every item of every plan has been taken, in insertion order |
| `BoundedBuffer.StepIsWork` | prj2/task2_new/stockserver.c:125-144 | every step of any thread is exactly one unit of the work that is left: 14 steps for an item that is not inserted yet, 7 to take one out |
| `BoundedBuffer.RunsAreFinite` | prj2/task2_new/stockserver.c:72-81 | a run that gives no turn to a blocked thread is exactly as long as the work that it does, so it ends |
| `BoundedBuffer.EverythingIsDelivered` | prj2/task2_new/stockserver.c:72-81 | with a consumer present, from every reachable state there is a run without wasted turns after which every plan is carried out and the buffer is empty |
| `Sbuf.Server.InsertStep` | prj2/task2_new/stockserver.c:125-132 | each P, V, load and store of sbuf_insert, on the semaphore objects and in place, is the step of the specification |
| `Sbuf.Server.RemoveStep` | prj2/task2_new/stockserver.c:134-144 | each P, V, load and store of sbuf_remove, on the semaphore objects and in place, is the step of the specification |
| `Sbuf.Server.Serve` | prj2/task2_new/stockserver.c:125-144 | any schedule of in-place steps gives the state of the specified run |
| `Sbuf.Server.constructor` | prj2/task2_new/stockserver.c:110-118 | sbuf_init establishes the initial state |
| `ReadersWriters.StepStock` | prj2/task2_new/stock_endpoint.c:114-129 | read_cnt, mutex and mutex_read account for the threads at a stock, across every load, store, P and V |
| `ReadersWriters.AtMostOne` | prj2/task2_new/stock_endpoint.c:114-176 | at most one thread in an entry or exit section, at most one writer, at most one reader waiting for mutex |
| `ReadersWriters.Exclusion` | prj2/task2_new/stock_endpoint.c:109-177 | in every reachable state a writer in its section excludes other writers and printing readers |
| `ReadersWriters.MutexMeans` | prj2/task2_new/stock_endpoint.c:109-177 | read_cnt is the number of readers between entry and exit; mutex is 0 exactly when one writer or the group of readers holds it, never both |
| `ReadersWriters.CountsAddUp` | prj2/task2_new/stock_endpoint.c:159-177 | no lost update: every count is its initial value plus the deltas of the updates that succeeded, and never negative |
| `ReadersWriters.UpdateDecides` | prj2/task2_new/stock_endpoint.c:159-177 | every update that is done read its count at a time when it held the lock, and it succeeded if and only if that count plus its delta was not negative; before it let go the count was that sum, or as it was if it was refused |
| `ReadersWriters.ShowPrintsAll` | prj2/task2_new/stock_endpoint.c:109-136 | what a show prints are, in path order and at increasing times, counts that its stocks have at those times; a finished show printed one per stock; each is printed in a turn of the show while it is in its reading section |
| `ReadersWriters.NeverStuck` | prj2/task2_new/stock_endpoint.c:109-177 | while a request is unfinished some thread can step |
| `ReadersWriters.EveryoneFinishes` | prj2/task2_new/stock_endpoint.c:109-177 | from every reachable state all requests can be finished |
| `ReadersWriters.RunsAreFinite` | prj2/task2_new/stock_endpoint.c:109-177 | a run without idle turns is no longer than the work there is |
| `ReadersWriters.GarbageReadCount` | prj2/task2_new/stock_endpoint.c:25-33 | whatever malloc leaves in read_cnt, in a system of any stocks and any requests: an update can write a stock while a show prints it if and only if that stock's read_cnt is not 0, some show comes to it and some update names it |
| `TreeWalk.PrintStep` | prj2/task2/stock_endpoint.c:97-98 | the printing step emits the node and leaves the rest of the preorder |
| `TreeWalk.CallStep` | prj2/task2/stock_endpoint.c:100-101 | a recursive call takes up the traversal where the caller was |
| `TreeWalk.ReturnStep` | prj2/task2/stock_endpoint.c:95-105 | a return, or a call on a missing child, resumes the caller |
| `TreeWalk.PreorderIs` | prj2/task2/stock_endpoint.c:90-105 | the printing order of a traversal: exactly the nodes of the tree, each before its descendants, left subtrees before right ones |
| `NestedShow.StepNode` | prj2/task2/stock_endpoint.c:90-135 | semaphores and counts account for the threads, across every step |
| `NestedShow.StepKeepsInv` | prj2/task2/stock_endpoint.c:90-135 | all invariants across every step of any thread |
| `NestedShow.ShowsTakeTurns` | prj2/task2/stock_endpoint.c:96-102 | two shows are never under way at once |
| `NestedShow.PrintedCountStays` | prj2/task2/stock_endpoint.c:96-102 | from the printing of a node to the end of its subtree its count is the printed one |
| `NestedShow.ShowIsPreorder` | prj2/task2/stock_endpoint.c:90-105 | a finished show printed every node once, in preorder |
| `NestedShow.CountsAddUp` | prj2/task2/stock_endpoint.c:117-135 | counts are initial values plus successful deltas, never negative |
| `NestedShow.UpdateDecides` | prj2/task2/stock_endpoint.c:117-135 | every update that is done read its count while it held the lock, succeeded if and only if that count plus its delta was not negative, and left that sum, or the count as it was |
| `NestedShow.NeverStuck` | prj2/task2/stock_endpoint.c:90-135 | deadlock freedom: while a request is unfinished some thread can step |
| `NestedShow.EveryoneFinishes` | prj2/task2/stock_endpoint.c:90-135 | from every reachable state all requests can be finished |
| `NestedShow.RunsAreFinite` | prj2/task2/stock_endpoint.c:90-135 | a run without idle turns is no longer than the work that it does |
| `StockTree.InsertAllOrdered` | prj2/task1/stock_endpoint.c:28-63 | after any insertions left < node <= right everywhere, and the tree holds exactly the inserted records |
| `StockTree.LookupIsFirstInserted` | prj2/task1/stock_endpoint.c:70-99 | get_stock finds the record inserted first among those with the id, and nothing if and only if there is none |
| `StockTree.ReloadRebuilds` | prj2/task1/stock_endpoint.c:107-135 | inserting the preorder listing of a search tree rebuilds it: shape, ids, counts, prices, duplicates |
| `StockTree.SaveReload` | prj2/task1/stock_endpoint.c:28-63 | inserting the preorder listing rebuilds the tree if and only if it is a search tree |
| `StockTree.UpdateKeeps` | prj2/task1/stock_endpoint.c:143-157 | update_stock: success exactly if the id exists and the count stays non-negative, NOT_FOUND exactly if it does not exist, NOT_ENOUGH exactly if it does and the count would be negative; the shape stays, and in the listing every record does but the first one with the id, which only gets its new count |
| `StockTree.AddCntRecounts` | prj2/task1/stock_endpoint.c:143-157 | the node that get_stock finds is the first of its id in the listing, and no other record changes, hidden duplicates included |
| `StockBook.HungIsPlugged` | prj2/task1/stock_endpoint.c:42-61 | one pointer write where the search ends turns the linked structure into the inserted tree |
| `StockBook.RecountedIsAddCnt` | prj2/task1/stock_endpoint.c:154 | one write to the found node updates the tree there and nowhere else |
| `StockBook.Book.InsertStock` | prj2/task1/stock_endpoint.c:28-63 | the linked nodes represent the tree with the record inserted |
| `StockBook.Book.HangInTree` | prj2/task1/stock_endpoint.c:42-61 | the loop of insert_stock |
| `StockBook.Book.GetStock` | prj2/task1/stock_endpoint.c:70-99 | null or the node that the lookup of the represented tree finds |
| `StockBook.Book.UpdateStock` | prj2/task1/stock_endpoint.c:143-157 | tree and reply are those of the specification |
| `StockBook.Book.SetStocksInfo` | prj2/task1/stock_endpoint.c:107-124 | the listing restarts at the root and grows by the preorder of every subtree |
| `StockBook.Book.WriteToFile` | prj2/task1/stock_endpoint.c:129-135 | the file is the preorder listing and the tree is unchanged |
| `StockBook.Book.InitStock` | prj2/task1/stock_endpoint.c:228-239 | the records of the file are inserted one after the other |
| `Rio.Descriptor.Read` | prj2/task1/csapp.c:798-799 | what read() promises: short counts, EINTR, failure, end of file |
| `Rio.LineLengthIs` | prj2/task1/csapp.c:857-878 | a line ends at the first newline, the size limit or the end of the stream |
| `Rio.AnswersAreAPrefix` | prj2/task1/csapp.c:791-879 | the answers of a session are consecutive pieces of the stream |
| `Rio.Reader.Refill` | prj2/task1/csapp.c:795-806 | nothing of the stream is lost or repeated by a refill, interruptions included; it returns -1 if and only if the last read() that it made failed, and no earlier one did; a buffer that is not empty is not refilled |
| `Rio.Reader.RioRead` | prj2/task1/csapp.c:791-816 | delivers a non-empty front piece of what is ahead unless the stream is at its end or read() failed; -1 if and only if the last read() that it made failed, and no earlier one did |
| `Rio.Reader.ReadNb` | prj2/task1/csapp.c:835-850 | exactly n bytes or all that is left; on failure a front piece was delivered and the rest is still ahead; -1 if and only if its last read() failed, and no earlier one did; nothing behind the bytes is written |
| `Rio.Reader.ReadLineb` | prj2/task1/csapp.c:857-879 | exactly one line within the limit, terminated; on failure a front piece was delivered and the rest is still ahead; -1 if and only if its last read() failed, and no earlier one did; nothing behind the terminator is written, and at the end of the stream nothing at all |
| `Rio.Perform` | prj2/task1/csapp.c:835-879 | one call of either kind: the answer is the front of what is ahead; a call that fails loses less than the room that was offered, and it fails if and only if its last read() did, which is the first one that failed |
| `Rio.Session` | prj2/task1/csapp.c:791-879 | any mix of calls up to the first failure gives the answers of the unsplit stream; delivered plus ahead is the original, but for what a failing call lost; it stops if and only if a read() failed, and at the first one that did |
| `SelectPool.ServedOnce` | prj2/task1/stockserver.c:115-119 | no ready client is served twice |
| `SelectPool.ServedInOrder` | prj2/task1/stockserver.c:115-119 | the served clients are those of rising slots |
| `SelectPool.WholePass` | prj2/task1/stockserver.c:115-119 | a pass misses nobody but a client with descriptor 0 |
| `SelectPool.Pool.constructor` | prj2/task1/stockserver.c:70-76 | init_pool watches only the listening descriptor |
| `SelectPool.Pool.AddClient` | prj2/task1/stockserver.c:84-103 | the first free slot gets the client and the invariant is kept; failure exactly when all slots are taken, and then some watched descriptor is FD_SETSIZE or more |
| `SelectPool.SlotIsFree` | prj2/task1/stockserver.c:84-103 | as long as every watched descriptor is below FD_SETSIZE some slot is free, so the clients cannot fill them |
| `SelectPool.Pool.CheckClients` | prj2/task1/stockserver.c:110-145 | every ready client is served once, closed ones lose slot and watch bit, and nready ends at 0, or at 1 if descriptor 0 was ready; every other client keeps its slot, and the clients are served in the order of their slots (`ServedInOrder`) |
| `SelectPool.ZeroIsNeverServed` | prj2/task1/stockserver.c:115-119 | a client that was accepted with descriptor 0 and is ready is not served, and stays counted |
| `SelectPool.Pool.Turn` | prj2/task1/stockserver.c:45-60 | one turn of the server loop: a new connection is watched and takes the first free slot; the ready clients that close are not watched any more and leave their slots, all but descriptor 0; every other descriptor stays watched and in its slot |
| `SelectPool.Pool.Serve` | prj2/task1/stockserver.c:45-60 | any number of turns of the server loop: each one leads on from the one before in that way, and the loop stops early only at a new connection for which no slot is free |
| `JobList.AppendKeepsChain` | prj1/20191630/phase3/myshell.c:481-490 | links and order of ids after appending |
| `JobList.CutKeepsChain` | prj1/20191630/phase3/myshell.c:586-603 | links and order of ids after bypassing any member |
| `JobList.EndsAfterCut` | prj1/20191630/phase3/myshell.c:587-599 | first job, last job and next id after a removal |
| `JobList.IdsAreUnique` | prj1/20191630/phase3/myshell.c:240-249 | at most one member has a given id |
| `JobList.Shell.CreateBgProcess` | prj1/20191630/phase3/myshell.c:465-490 | the new job goes last, with the id of the last one plus 1, or 1, which is above all live ones; no other job changes but for its links |
| `JobList.Shell.RemoveJobNode` | prj1/20191630/phase3/myshell.c:580-607 | exactly the given member goes; the next id is the last id plus 1, or 1; no other job changes but for its links |
| `JobList.Shell.FindJob` | prj1/20191630/phase3/myshell.c:268-299 | null if and only if no job has the id, otherwise the only one |
| `JobList.Shell.WalkBack` | prj1/20191630/phase3/myshell.c:586-603 | the backward links meet the jobs of the forward walk in reverse |
| `Sampler.KeepIsSmallest` | prj3/prj3-malloc/fcyc.c:67-88 | keeping or dropping a new sample leaves the k smallest, in order |
| `Sampler.BestIsSmallest` | prj3/prj3-malloc/fcyc.c:67-88 | after any samples the kept values are sorted and are the k smallest, as a multiset |
| `Sampler.LeastIsFirst` | prj3/prj3-malloc/fcyc.c:162 | the first kept value is the least sample |
| `Sampler.ConvergedMeans` | prj3/prj3-malloc/fcyc.c:93-98 | the test for convergence holds exactly when at least k of all samples are no more than epsilon above the least one |
| `Sampler.Sampling.AddSample` | prj3/prj3-malloc/fcyc.c:67-88 | the array holds the kept values of the specification |
| `Sampler.Sampling.SiftDown` | prj3/prj3-malloc/fcyc.c:81-87 | the insertion sort of one value |
| `Sampler.Sampling.HasConverged` | prj3/prj3-malloc/fcyc.c:93-98 | at least k samples, and the k-th smallest within epsilon of the smallest |
| `Sampler.Sampling.Fcyc` | prj3/prj3-malloc/fcyc.c:129-168 | returns the least sample after at least one and at most max(1, maxsamples) rounds, and stops no later than the first round that converges; the result has k samples within epsilon of it, or there are maxsamples |

## Left out

- AsWritten.MmRealloc: a run that follows a payload word out of the heap, to an address that is no multiple of 4, or to a size beyond the arena stops, and nothing is claimed after that; so nothing is said of a call whose PREV_BLOCK leads below the arena. The null pointer, whose header mm.c:357 reads before it is tested, is not modelled.
- SpecRealloc.ReallocSound: the branch of mm.c:391-404 is dropped; `AsMeant.MmRealloc` has it as it is meant, `AsWritten.MmRealloc` as it stands.
- Allocator.Mm.MmReallocGuarded: the same; a free last neighbour that is too small is left alone and the block moves.
- Allocator.Mm.ReallocInPlace: a sum that counts a phantom predecessor is `AsWritten.GrowOverPhantom`.
- Traces.ReallocGrowth: the reallocation of `MmReallocGuarded`, as in all of `Traces` and `Driver`.
- Driver.EvalDriver.EvalMmValid: runs on `MmReallocGuarded`. The words of the log are those that the requests found; for a reallocation that is not settled the contract leaves the leftover words of the free block open, and the low three bits of its footer with them. `char` is signed.
- Driver.EvalDriver.EvalMmUtil: runs on `MmReallocGuarded`; the call of app_error is a failing result.
- Allocator.Mm.MmInit: its two failure returns cannot happen on a reset arena of 20 MB.
- Rio.Descriptor.Read: the outcomes of read() are an input, a finite script of chunks, interruptions and failures, after which it returns all it can; endless interruption is not modelled.
- ReadersWriters.CountsAddUp: an unknown id makes update_stock lock through a null pointer (stock_endpoint.c:162), so updates name existing stocks; the same in `NestedShow`.
- SelectPool.Pool.CheckClients: slots and descriptors only; which clients close is an input. The Rio buffer that check_clients copies by value, and with it pipelined requests, is not modelled.
- SelectPool.Pool.AddClient: FD_SET of a descriptor of FD_SETSIZE or more writes outside the set in C; the set of the model just holds it. Only then can the slots run out (`SlotIsFree`).
- JobList.Shell.CreateBgProcess: the command text and its printing are not modelled, and setpgid, signals and masks are left out.
- Sampler.Sampling.Fcyc: samples are reals, measured values are an input, cache clearing is left out.
- Sizes and indices are unbounded: no 32-bit wrap-around of requests beyond the arena, of `sbuf` indices or of counts.
- mm_check, all printing, and eval_mm_speed, which only times what eval_mm_valid checks.
- A show of the threaded servers is not an atomic snapshot, so no such claim is made.
- Text buffers and number formats: a listing is a sequence of records, and a line of stock.txt is read whole.
- Sockets, accept, fork, exec, pipes, signal delivery, history expansion and the reaping handler of the shell.
