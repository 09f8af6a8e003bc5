/** mm_realloc as it is written, on any live block, branch by branch and write by write. */
module AsWritten {
  // Here nothing is known about the words that are followed: a payload word may be taken for
  // a link, a footer or a size.  Every access is checked, and the run stops when one leaves
  // the heap, is not at a multiple of 4, or would store a size beyond the arena; what the C
  // program does then is undefined.

  import opened MemLib
  import opened Packing
  import opened HeapShape
  import opened FreeRing
  import opened HeapTable
  import opened HeapState
  import opened SpecMalloc
  import opened SpecFree
  import opened SpecRealloc
  import opened Merging
  import opened Regrowing
  import opened Unguarded
  import opened Allocator
  import Spec = HeapSpec

  datatype Reached<T> = Inside(value: T) | Outside {
    predicate IsFailure() {
      Outside?
    }

    function PropagateFailure<U>(): Reached<U>
      requires IsFailure()
    {
      Outside
    }

    function Extract(): T
      requires !IsFailure()
    {
      value
    }
  }

  predicate Accessible(a: int, brk: nat) {
    0 <= a && a + 4 <= brk && WordAddress(a)
  }

  /** The arena and the sentinel are in place; the rest may be anything. */
  ghost predicate Rooted(mm: Mm)
    reads mm, mm.arena
  {
    mm.arena.Valid() && mm.freeHead == HEAD
  }

  method Load(mm: Mm, a: int) returns (o: Reached<Word>)
    requires Rooted(mm)
    ensures o.Inside? <==> Accessible(a, mm.arena.brk)
    ensures o.Inside? ==> o.value == mm.Words()[a]
  {
    if !Accessible(a, mm.arena.brk) {
      return Outside;
    }
    return Inside(mm.Get(a));
  }

  method Store(mm: Mm, a: int, w: Word) returns (o: Reached<()>)
    requires Rooted(mm)
    modifies mm.arena.mem
    ensures o.Inside? <==> Accessible(a, mm.arena.brk)
    ensures mm.Words() == if o.Inside? then old(mm.Words())[a := w] else old(mm.Words())
  {
    if !Accessible(a, mm.arena.brk) {
      return Outside;
    }
    mm.Put(a, w);
    return Inside(());
  }

  /** BLOCK_SIZE */
  method SizeAt(mm: Mm, b: int) returns (o: Reached<nat>)
    requires Rooted(mm)
    ensures o.Inside? <==> Accessible(b - 4, mm.arena.brk)
    ensures o.Inside? ==> o.value == SizeOf(mm.Words()[b - 4]) && o.value % 8 == 0
  {
    var w :- Load(mm, b - 4);
    SizeAligned(w);
    return Inside(SizeOf(w));
  }

  method StoreSize(mm: Mm, a: int, size: nat) returns (o: Reached<()>)
    requires Rooted(mm) && size % 8 == 0
    modifies mm.arena.mem
    ensures o.Inside? ==> Accessible(a, mm.arena.brk) && size <= MAX_HEAP
    ensures o.Inside? ==>
      mm.Words() == old(mm.Words())[a := WithSize(old(mm.Words())[a], size)] && SizeOf(mm.Words()[a]) == size
  {
    if size > MAX_HEAP {
      return Outside;
    }
    var w :- Load(mm, a);
    SizeUpdate(w, size);
    o := Store(mm, a, WithSize(w, size));
  }

  /** PUT of PACK(size, 0) */
  method StorePlain(mm: Mm, a: int, size: nat) returns (o: Reached<()>)
    requires Rooted(mm) && size % 8 == 0
    modifies mm.arena.mem
    ensures o.Inside? ==> Accessible(a, mm.arena.brk) && size <= MAX_HEAP
    ensures o.Inside? ==> mm.Words() == old(mm.Words())[a := size]
  {
    if size > MAX_HEAP {
      return Outside;
    }
    o := Store(mm, a, size);
  }

  method StoreTag(mm: Mm, a: int, on: bool) returns (o: Reached<()>)
    requires Rooted(mm)
    modifies mm.arena.mem
    ensures o.Inside? ==> Accessible(a, mm.arena.brk)
    ensures o.Inside? ==> mm.Words() == old(mm.Words())[a := WithTag(old(mm.Words())[a], on)]
  {
    var w :- Load(mm, a);
    o := Store(mm, a, WithTag(w, on));
  }

  method StoreAlloc(mm: Mm, a: int, on: bool) returns (o: Reached<()>)
    requires Rooted(mm)
    modifies mm.arena.mem
    ensures o.Inside? ==> Accessible(a, mm.arena.brk)
    ensures o.Inside? ==> mm.Words() == old(mm.Words())[a := WithAlloc(old(mm.Words())[a], on)]
  {
    var w :- Load(mm, a);
    o := Store(mm, a, WithAlloc(w, on));
  }

  /** PRED and SUCC: where the link at a leads. */
  method Follow(mm: Mm, a: int) returns (o: Reached<nat>)
    requires Rooted(mm)
    ensures o.Inside? <==> Accessible(a, mm.arena.brk)
    ensures o.Inside? ==> o.value == HEAD + mm.Words()[a]
  {
    var w :- Load(mm, a);
    return Inside(mm.freeHead + w);
  }

  /** ERASE */
  method EraseAny(mm: Mm, n: int) returns (o: Reached<()>)
    requires Rooted(mm)
    modifies mm.arena.mem
    ensures o.Inside? ==> n >= 0 && LinksInside(old(mm.Words()), n, mm.arena.brk)
    ensures o.Inside? ==> mm.Words() == EraseWords(old(mm.Words()), n)
  {
    var pred :- Follow(mm, n);
    var succ :- Follow(mm, n + 4);
    var _ :- Store(mm, pred + 4, succ - mm.freeHead);
    succ :- Follow(mm, n + 4);
    pred :- Follow(mm, n);
    o := Store(mm, succ, pred - mm.freeHead);
  }

  /** PREV_BLOCK */
  method PrevAny(mm: Mm, bp: int) returns (o: Reached<int>)
    requires Rooted(mm)
    ensures o.Inside? <==> Accessible(bp - 8, mm.arena.brk)
    ensures o.Inside? ==> o.value == bp - SizeOf(mm.Words()[bp - 8])
  {
    var w :- Load(mm, bp - 8);
    return Inside(bp - SizeOf(w));
  }

  /** ERASE keeps the claim. */
  lemma EraseKeepsClaim(M: seq<Word>, n: nat, brk: nat, p: nat, x: nat, e: nat)
    requires LinksInside(M, n, brk)
    ensures LinksInside(M, n, |M|)
    ensures Overclaims(M, p, x, e) ==> Overclaims(EraseWords(M, n), p, x, e)
  {
    hide SizeOf, AllocOf, TagOf, LowBits, Overclaims;
    var M1 := M[HEAD + M[n] + 4 := M[n + 4]];
    if Overclaims(M, p, x, e) {
      PlainStoreKeeps(M, p, x, e, HEAD + M[n] + 4, M[n + 4]);
      PlainStoreKeeps(M1, p, x, e, HEAD + M[n + 4], M1[n]);
    }
  }

  lemma OffsetHasNoTag(w: Word)
    ensures WordAddress(HEAD + w) || WordAddress(HEAD + w + 4) ==> !TagOf(w)
  {
  }

  /** A word that still has its tag bit after ERASE was not written. */
  lemma EraseClearsTag(M: seq<Word>, n: nat, brk: nat, y: nat)
    requires LinksInside(M, n, brk) && y < |M|
    ensures LinksInside(M, n, |M|)
    ensures TagOf(EraseWords(M, n)[y]) ==> EraseWords(M, n)[y] == M[y]
  {
    OffsetHasNoTag(M[n]);
    OffsetHasNoTag(M[n + 4]);
  }

  lemma MultipleOfEight(n: nat)
    requires n % 8 == 0
    ensures n % 4 == 0
  {
  }

  /** So does a size for x that is no smaller, and a footer. */
  lemma LargerKeeps(M: seq<Word>, p: nat, x: nat, e: nat, size: nat, a: nat)
    requires 4 <= x <= |M| && a < |M| && size <= MAX_HEAP && size % 8 == 0
    requires TagOf(M[x - 4]) ==> size >= SizeOf(M[x - 4])
    ensures Overclaims(M, p, x, e) ==> Overclaims(M[x - 4 := WithSize(M[x - 4], size)][a := size], p, x, e)
  {
    hide SizeOf, AllocOf, TagOf, LowBits, WithSize;
    SizeUpdate(M[x - 4], size);
    MultipleOfEight(size);
    if Overclaims(M, p, x, e) {
      PlainStoreKeeps(M[x - 4 := WithSize(M[x - 4], size)], p, x, e, a, size);
    }
  }

  /** coalesce, the new size in the header and the footer of bp. */
  method EnlargeAny(mm: Mm, bp: nat, size: nat, ghost p: nat, ghost e: nat) returns (o: Reached<()>)
    requires Rooted(mm) && 4 <= bp <= mm.arena.brk && WordAddress(bp - 4) && size % 8 == 0
    requires TagOf(mm.Words()[bp - 4]) ==> size >= SizeOf(mm.Words()[bp - 4])
    modifies mm.arena.mem
    ensures o.Inside? && Overclaims(old(mm.Words()), p, bp, e) ==> Overclaims(mm.Words(), p, bp, e)
  {
    hide WordAddress, LowBits, SizeOf, AllocOf, TagOf, Overclaims;
    ghost var M := mm.Words();
    var _ :- StoreSize(mm, bp - 4, size);
    var footer := mm.Ftrp(bp);
    o := StorePlain(mm, footer, size);
    if o.Inside? {
      LargerKeeps(M, p, bp, e, size, footer);
    }
  }

  /** coalesce, case 2. */
  method MergeNextAny(mm: Mm, bp: nat, ghost p: nat, ghost e: nat) returns (o: Reached<int>)
    requires Rooted(mm) && 4 <= bp <= mm.arena.brk && WordAddress(bp - 4)
    modifies mm.arena.mem
    ensures o.Inside? ==> o.value == bp
    ensures o.Inside? && Overclaims(old(mm.Words()), p, bp, e) ==> Overclaims(mm.Words(), p, bp, e)
  {
    hide WordAddress, LowBits, SizeOf, AllocOf, TagOf, Overclaims, LinksInside, EraseWords;
    ghost var M := mm.Words();
    SizeAligned(mm.Get(bp - 4));
    var size := mm.BlockSize(bp);
    var next := mm.NextBlock(bp);
    var _ :- EraseAny(mm, next);
    EraseKeepsClaim(M, next, mm.arena.brk, p, bp, e);
    EraseClearsTag(M, next, mm.arena.brk, bp - 4);
    var nextSize :- SizeAt(mm, mm.NextBlock(bp));
    var _ :- EnlargeAny(mm, bp, size + nextSize, p, e);
    return Inside(bp);
  }

  /** coalesce, case 3. */
  method MergePrevAny(mm: Mm, bp: nat) returns (o: Reached<int>)
    requires Rooted(mm) && 4 <= bp <= mm.arena.brk && WordAddress(bp - 4)
    modifies mm.arena.mem
  {
    hide WordAddress, LowBits, SizeOf, LinksInside, EraseWords;
    SizeAligned(mm.Get(bp - 4));
    var size := mm.BlockSize(bp);
    var prev :- PrevAny(mm, bp);
    var _ :- EraseAny(mm, prev);
    prev :- PrevAny(mm, bp);
    var prevSize :- SizeAt(mm, prev);
    size := size + prevSize;
    var _ :- StorePlain(mm, mm.Ftrp(bp), size);
    prev :- PrevAny(mm, bp);
    var _ :- StoreSize(mm, prev - 4, size);
    o := PrevAny(mm, bp);
  }

  /** coalesce, next to a block that the tag bit or the next header calls allocated. */
  method CoalesceAny(mm: Mm, bp: nat, ghost p: nat, ghost e: nat) returns (o: Reached<int>)
    requires Rooted(mm) && 4 <= bp <= mm.arena.brk && WordAddress(bp - 4)
    requires var n := bp + SizeOf(mm.Words()[bp - 4]);
      TagOf(mm.Words()[bp - 4]) || (Accessible(n - 4, mm.arena.brk) && AllocOf(mm.Words()[n - 4]))
    modifies mm.arena.mem
    ensures o.Inside? && TagOf(old(mm.Words()[bp - 4])) ==> o.value == bp
    ensures o.Inside? && TagOf(old(mm.Words()[bp - 4])) && Overclaims(old(mm.Words()), p, bp, e) ==>
      Overclaims(mm.Words(), p, bp, e)
  {
    hide WordAddress, LowBits, SizeOf, AllocOf, TagOf, Overclaims;
    var prevAlloc := TagOf(mm.Get(bp - 4));
    var next :- Load(mm, mm.NextBlock(bp) - 4);
    if prevAlloc && AllocOf(next) {
      return Inside(bp);
    } else if prevAlloc {
      o := MergeNextAny(mm, bp, p, e);
    } else {
      o := MergePrevAny(mm, bp);
    }
  }

  /** extend_heap, the new block and the new epilogue. */
  method WriteFreeAny(mm: Mm, bp: nat, size: nat) returns (o: Reached<()>)
    requires Rooted(mm) && 24 <= bp <= mm.arena.brk && WordAddress(bp - 4) && size % 8 == 0
    modifies mm`heapTail, mm.arena.mem
    ensures o.Inside? ==> var n := bp + SizeOf(mm.Words()[bp - 4]);
      Accessible(n - 4, mm.arena.brk) && AllocOf(mm.Words()[n - 4])
  {
    hide WordAddress, LowBits, SizeOf, AllocOf, TagOf;
    var _ :- StoreSize(mm, bp - 4, size);
    var _ :- StoreAlloc(mm, bp - 4, false);
    var _ :- StorePlain(mm, mm.Ftrp(bp), size);
    var tail := mm.NextBlock(bp) - 4;
    var _ :- Store(mm, tail, 1);
    tail := mm.NextBlock(bp) - 4;
    mm.heapTail := tail;
    PlainWords(0);
    return Inside(());
  }

  /** extend_heap: false when the arena is exhausted.  What coalesce returns is never null. */
  method ExtendAny(mm: Mm, size: int) returns (o: Reached<bool>)
    requires Rooted(mm) && mm.arena.brk >= FIRST && size % 8 == 0 && mm.arena.brk % 8 == 0
    modifies mm`heapTail, mm.arena, mm.arena.mem
    ensures Rooted(mm) && mm.arena.brk >= old(mm.arena.brk)
    ensures o.Inside? && !o.value ==> mm.Words() == old(mm.Words()) && mm.arena.brk == old(mm.arena.brk)
  {
    hide LowBits, SizeOf, AllocOf, TagOf;
    var bp := mm.arena.Sbrk(size);
    if bp == -1 {
      return Inside(false);
    }
    WordAligned(bp);
    WordAligned(bp + size);
    var _ :- WriteFreeAny(mm, bp, size);
    var _ :- CoalesceAny(mm, bp, 0, 0);
    return Inside(true);
  }

  /** The size of the grown block, and the tag behind it. */
  method StretchAny(mm: Mm, ptr: nat, asize: nat) returns (o: Reached<()>)
    requires Rooted(mm) && 4 <= ptr <= mm.arena.brk && WordAddress(ptr - 4) && asize % 8 == 0 && asize >= 16
    modifies mm.arena.mem
    ensures o.Inside? ==> SizeOf(mm.Words()[ptr - 4]) == asize
  {
    hide WordAddress, LowBits, SizeOf;
    var _ :- StoreSize(mm, ptr - 4, asize);
    var _ :- StoreSize(mm, mm.Ftrp(ptr), asize);
    o := StoreTag(mm, mm.NextBlock(ptr) - 4, true);
  }

  lemma BreakAligned(h: Heap)
    requires Sound(h, {})
    ensures h.epi % 8 == 0 && FIRST <= h.epi
  {
    assert Fits(h.bs, h.epi, h.epi) && Apart(h.bs, PROLOGUE, h.epi);
  }

  /** mm.c:391-404, the next block is allocated and the last one: null once the block is off
      the list that it is not on, or a heap that has lost it.  The test at line 394 always holds. */
  method GrowOverLast(mm: Mm, ptr: nat, asize: nat, ghost size: nat) returns (o: Reached<nat>)
    requires mm.Valid() && Spec.LiveBlock(mm.h, ptr) && LastTwo(mm.h, ptr) && Spec.NextOf(mm.h.bs, ptr) != mm.h.epi
    requires asize == AllocSize(size) > mm.h.bs[ptr].size
    modifies mm`heapTail, mm.arena, mm.arena.mem
    ensures o.Inside? && o.value == NULL ==>
      && LinksInside(old(mm.Words()), Spec.NextOf(mm.h.bs, ptr), mm.arena.brk) && mm.arena.brk == old(mm.arena.brk)
      && mm.Words() == EraseWords(old(mm.Words()), Spec.NextOf(mm.h.bs, ptr))
    ensures o.Inside? && o.value != NULL ==> o.value == ptr && Ruined(mm.Words(), mm.h, ptr, asize, mm.arena.brk)
  {
    hide WordAddress, LowBits, State, Ruined, EraseWords, LinksInside;
    StateIsSound(mm.Words(), mm.h, {}, {});
    ReallocFacts(mm.Words(), mm.h, ptr, size);
    BreakAligned(mm.h);
    var _ :- EraseAny(mm, mm.NextBlock(ptr));
    SizeAligned(mm.Get(ptr - 4));
    DifferenceAligns(asize, mm.BlockSize(ptr));
    var grown :- ExtendAny(mm, asize - mm.BlockSize(ptr));
    if !grown {
      return Inside(NULL);
    }
    var _ :- StretchAny(mm, ptr, asize);
    LastTwoLoses(mm.Words(), mm.h, ptr, size, mm.arena.brk);
    return Inside(ptr);
  }

  lemma StaysPut(h: Heap, p: nat)
    requires Sound(h, {}) && Spec.LiveBlock(h, p) && !Spec.IsFree(h.bs, Spec.PrevOf(h.bs, p))
    ensures Spec.NextOf(h.bs, p) in h.bs && p < Spec.NextOf(h.bs, p) && p in Released(h, p).bs
    ensures Spec.MergeStart(Released(h, p).bs, p) == p
  {
    ReleasedSound(h, p);
    assert Fits(h.bs, h.epi, p);
  }

  /** mm.c:418-424 next to an allocated predecessor: the block stays where it is. */
  method GatherAlone(mm: Mm, ptr: nat, copySize: nat)
    requires mm.Valid() && Spec.LiveBlock(mm.h, ptr) && !Spec.IsFree(mm.h.bs, Spec.PrevOf(mm.h.bs, ptr))
    requires copySize == mm.h.bs[ptr].size - 8
    modifies mm`h, mm.arena.mem
  {
    hide WordAddress, LowBits, SizeOf, Tagged, Threaded, Sound, PayloadsKept, FuseWords;
    ghost var M, h0, q := mm.Words(), mm.h, Spec.NextOf(mm.h.bs, ptr);
    StateIsSound(M, h0, {}, {});
    LiveFacts(M, h0, ptr);
    mm.Unmark(ptr, q);
    UnmarkedState(M, mm.Words(), h0, ptr);
    ReleasedSound(h0, ptr);
    mm.h := Released(h0, ptr);
    StaysPut(h0, ptr);
    RoomFacts(h0, ptr, 16);
    var newptr := mm.Coalesce(ptr, {ptr});
    mm.Memcpy(newptr, ptr, copySize);
  }

  /** mm.c:441-444 with any sum. */
  method TakeAny(mm: Mm, ptr: nat, sum: nat) returns (o: Reached<()>)
    requires Rooted(mm) && 4 <= ptr <= mm.arena.brk && WordAddress(ptr - 4) && sum % 8 == 0 && sum >= 16
    modifies mm.arena.mem
    ensures o.Inside? ==> SizeOf(mm.Words()[ptr - 4]) == sum
  {
    hide WordAddress, LowBits, SizeOf, AllocOf;
    var _ :- StoreSize(mm, ptr - 4, sum);
    var _ :- StoreSize(mm, mm.Ftrp(ptr), sum);
    AllocUpdate(mm.Get(ptr - 4), true);
    var _ :- StoreAlloc(mm, ptr - 4, true);
    o := StoreTag(mm, mm.NextBlock(ptr) - 4, true);
  }

  /** INSERT_LIST(x, free_head) */
  method InsertAny(mm: Mm, x: nat, ghost p: nat, ghost e: nat) returns (o: Reached<()>)
    requires Rooted(mm) && HEAD < x <= mm.arena.brk && WordAddress(x)
    modifies mm.arena.mem
    ensures o.Inside? && Overclaims(old(mm.Words()), p, x, e) ==> Overclaims(mm.Words(), p, x, e)
  {
    hide SizeOf, AllocOf, TagOf, LowBits, Overclaims;
    ghost var M := mm.Words();
    var succ :- Follow(mm, mm.freeHead + 4);
    var _ :- Store(mm, x + 4, succ - mm.freeHead);
    ghost var M1 := mm.Words();
    succ :- Follow(mm, mm.freeHead + 4);
    var _ :- Store(mm, succ, x - mm.freeHead);
    ghost var M2 := mm.Words();
    var _ :- Store(mm, mm.freeHead + 4, x - mm.freeHead);
    ghost var M3 := mm.Words();
    o := Store(mm, x, mm.freeHead - mm.freeHead);
    if o.Inside? && Overclaims(M, p, x, e) {
      PlainStoreKeeps(M, p, x, e, x + 4, succ - HEAD);
      PlainStoreKeeps(M1, p, x, e, succ, x - HEAD);
      PlainStoreKeeps(M2, p, x, e, HEAD + 4, x - HEAD);
      PlainStoreKeeps(M3, p, x, e, x, 0);
    }
  }

  lemma ClearTagKeeps(M: seq<Word>, p: nat, x: nat, e: nat, a: nat)
    requires Overclaims(M, p, x, e) && a < |M|
    ensures Overclaims(M[a := WithTag(M[a], false)], p, x, e)
  {
    hide LowBits, SizeOf, AllocOf, TagOf;
    TagUpdate(M[a], false);
  }

  /** mm.c:429-434: the sizes after a cut at asize, with any sum. */
  method CutAny(mm: Mm, ptr: nat, asize: nat, sum: nat) returns (o: Reached<int>)
    requires Rooted(mm) && 4 <= ptr <= mm.arena.brk && WordAddress(ptr - 4) && asize % 8 == 0 && sum % 8 == 0
    requires 16 <= asize && asize + 16 <= sum
    modifies mm.arena.mem
    ensures o.Inside? ==>
      o.value == ptr + asize && Accessible(o.value - 4, mm.arena.brk) && TagOf(mm.Words()[o.value - 4])
    ensures o.Inside? ==> Overclaims(mm.Words(), ptr, o.value, ptr + sum)
  {
    hide WordAddress, LowBits, SizeOf, AllocOf, TagOf;
    var _ :- StoreSize(mm, ptr - 4, asize);
    var _ :- StoreSize(mm, mm.Ftrp(ptr), asize);
    AllocUpdate(mm.Get(ptr - 4), true);
    var _ :- StoreAlloc(mm, ptr - 4, true);
    var x := mm.NextBlock(ptr);
    DifferenceAligns(sum, asize);
    var _ :- StorePlain(mm, x - 4, sum - asize);
    PlainWords(sum - asize);
    var _ :- StorePlain(mm, mm.Ftrp(x), sum - asize);
    TagUpdate(mm.Get(x - 4), true);
    var _ :- StoreTag(mm, x - 4, true);
    return Inside(x);
  }

  /** mm.c:427-438: the rest of the phantom room goes on the list. */
  method SplitAny(mm: Mm, ptr: nat, asize: nat, sum: nat) returns (o: Reached<()>)
    requires Rooted(mm) && HEAD < ptr <= mm.arena.brk && ptr % 8 == 0 && asize % 8 == 0 && sum % 8 == 0
    requires 16 <= asize && asize + 16 <= sum
    modifies mm.arena.mem
    ensures o.Inside? ==> Overclaims(mm.Words(), ptr, ptr + asize, ptr + sum)
  {
    hide WordAddress, LowBits, SizeOf, AllocOf, TagOf, Overclaims;
    WordAligned(ptr);
    WordAligned(ptr + asize);
    var x :- CutAny(mm, ptr, asize, sum);
    var next :- CoalesceAny(mm, x, ptr, ptr + sum);
    var _ :- InsertAny(mm, next, ptr, ptr + sum);
    ghost var M := mm.Words();
    var behind := mm.NextBlock(next) - 4;
    o := StoreTag(mm, behind, false);
    if o.Inside? {
      ClearTagKeeps(M, ptr, x, ptr + sum, behind);
    }
  }

  lemma BlockAligned(M: seq<Word>, h: Heap, p: nat)
    requires State(M, h, {}, {}) && p in h.bs
    ensures p % 8 == 0
  {
  }

  /** mm.c:416-446 when the predecessor is not free: a heap that has lost a block. */
  method GrowOverPhantom(mm: Mm, ptr: nat, asize: nat, sum: nat, copySize: nat, ghost size: nat)
    returns (o: Reached<nat>)
    requires mm.Valid() && Spec.LiveBlock(mm.h, ptr) && !Spec.IsFree(mm.h.bs, Spec.PrevOf(mm.h.bs, ptr))
    requires PrevReadable(mm.Words(), mm.h, ptr) && Phantom(mm.Words(), ptr) > 0
    requires sum == mm.h.bs[ptr].size + Phantom(mm.Words(), ptr) + NextRoom(mm.h, ptr) && sum % 8 == 0
    requires mm.h.bs[ptr].size < asize <= sum && asize == AllocSize(size) && copySize == mm.h.bs[ptr].size - 8
    modifies mm`h, mm.arena.mem
    ensures o.Inside? ==> o.value == ptr && Ruined(mm.Words(), old(mm.h), ptr, asize, mm.arena.brk)
  {
    hide WordAddress, LowBits, SizeOf, State, Ruined, Phantom, PrevReadable;
    ghost var M, h0 := mm.Words(), mm.h;
    ReallocFacts(M, h0, ptr, size);
    LiveFacts(M, h0, ptr);
    BlockAligned(M, h0, ptr);
    GatherAlone(mm, ptr, copySize);
    if sum >= asize + 16 {
      var _ :- SplitAny(mm, ptr, asize, sum);
      PhantomLoses(M, mm.Words(), h0, ptr, ptr + asize, size);
    } else {
      var _ :- TakeAny(mm, ptr, sum);
      assert Overclaims(mm.Words(), ptr, ptr + 8, ptr + sum);
      PhantomLoses(M, mm.Words(), h0, ptr, ptr + 8, size);
    }
    return Inside(ptr);
  }

  /** BLOCK_SIZE of the block that PREV_BLOCK finds, when its header says it is free. */
  method PrevSizeAny(mm: Mm, ptr: nat) returns (o: Reached<nat>)
    requires mm.Valid() && Spec.LiveBlock(mm.h, ptr)
    ensures o.Inside? <==> PrevReadable(mm.Words(), mm.h, ptr)
    ensures o.Inside? ==> o.value == Phantom(mm.Words(), ptr) && o.value % 8 == 0
  {
    hide LowBits, SizeOf, AllocOf, Tagged, Threaded;
    LiveFacts(mm.Words(), mm.h, ptr);
    if PrevReadable(mm.Words(), mm.h, ptr) {
      PrevAddress(mm.Words(), mm.h, ptr);
    }
    var prev := mm.PrevBlock(ptr);
    var w :- Load(mm, prev - 4);
    SizeAligned(w);
    return Inside(if !AllocOf(w) then SizeOf(w) else 0);
  }

  lemma PhantomAligned(M: seq<Word>, p: nat)
    requires 8 <= p <= |M|
    ensures Phantom(M, p) % 8 == 0
  {
    hide SizeOf;
    var s := SizeOf(M[p - 8]);
    if s + 4 <= p { SizeAligned(M[p - s - 4]); }
  }

  lemma NextRoomAligned(M: seq<Word>, h: Heap, p: nat)
    requires State(M, h, {}, {}) && p in h.bs
    ensures NextRoom(h, p) % 8 == 0
  {
  }

  /** Which way mm_realloc goes from mm.c:412 on: the call is safe exactly when it can read
      a size there and does not take a phantom for room. */
  lemma BranchFacts(M: seq<Word>, h: Heap, p: nat, size: nat)
    requires State(M, h, {}, {}) && Spec.LiveBlock(h, p) && Spec.NextOf(h.bs, p) != h.epi && !LastTwo(h, p)
    requires size > 0 && AllocSize(size) > h.bs[p].size
    ensures 8 <= p <= h.epi <= |M| && WordAddress(p - 4)
    ensures var sum := h.bs[p].size + Phantom(M, p) + NextRoom(h, p);
      var phantom := TagOf(M[p - 4]) && Phantom(M, p) > 0 && AllocSize(size) <= sum;
      && (SafeToRealloc(M, h, p, size) <==> PrevReadable(M, h, p) && !phantom)
      && (PrevReadable(M, h, p) && !phantom ==>
            sum == RoomAround(h, p) || (AllocSize(size) > sum && AllocSize(size) > RoomAround(h, p)))
      && (phantom ==> !Spec.IsFree(h.bs, Spec.PrevOf(h.bs, p)) && sum % 8 == 0)
  {
    hide AllocSize, RoomAround;
    FreePrevFacts(M, h, p);
    PhantomAligned(M, p);
    NextRoomAligned(M, h, p);
    if SafeToRealloc(M, h, p, size) {
      SumIsRoom(M, h, p, size);
    }
  }

  /** mm_realloc from mm.c:412 on.  The two calls at the end run the same statements: in the
      first one the room at the front is a phantom. */
  method GrowAny(mm: Mm, ptr: nat, size: nat, nextSize: nat, copySize: nat) returns (o: Reached<nat>)
    requires mm.Valid() && Spec.LiveBlock(mm.h, ptr) && Spec.NextOf(mm.h.bs, ptr) != mm.h.epi && !LastTwo(mm.h, ptr)
    requires size > 0 && AllocSize(size) > mm.h.bs[ptr].size && copySize == mm.h.bs[ptr].size - 8
    requires nextSize == NextRoom(mm.h, ptr)
    modifies mm`h, mm`heapTail, mm.arena, mm.arena.mem
    ensures SafeToRealloc(old(mm.Words()), old(mm.h), ptr, size) ==>
      && o.Inside? && mm.Valid() && Sound(old(mm.h), {}) && (mm.h, o.value) == Realloc(old(mm.h), ptr, size)
      && (o.value == NULL ==> mm.Words() == old(mm.Words()) && mm.arena.brk == old(mm.arena.brk))
      && GrownOrMoved(old(mm.Words()), mm.Words(), old(mm.h), ptr, o.value, size)
    ensures !SafeToRealloc(old(mm.Words()), old(mm.h), ptr, size) && o.Inside? ==>
      o.value == ptr && Ruined(mm.Words(), old(mm.h), ptr, AllocSize(size), mm.arena.brk)
  {
    hide WordAddress, LowBits, SizeOf, TagOf, State, Sound, Malloc, Free, Realloc, Phantom, Ruined, GrownOrMoved;
    hide PrevReadable, SafeToRealloc;
    ghost var M, h0 := mm.Words(), mm.h;
    StateIsSound(M, h0, {}, {});
    ReallocFacts(M, h0, ptr, size);
    NextFacts(M, h0, ptr);
    BranchFacts(M, h0, ptr, size);
    var prevSize :- PrevSizeAny(mm, ptr);
    var sum := mm.BlockSize(ptr) + prevSize + nextSize;
    if TagOf(mm.Get(ptr - 4)) && prevSize > 0 && AllocSize(size) <= sum {
      o := GrowOverPhantom(mm, ptr, AllocSize(size), sum, copySize, size);
    } else {
      var r := mm.GrowOrMove(ptr, size, sum, copySize);
      o := Inside(r);
    }
  }

  /** mm_realloc, for any live block and any size.  When the call takes neither faulty branch it
      does what the guarded one does.  When it takes one and the run does not leave the heap,
      no heap is left in which the block has grown and the others are still there; or the
      result is null, and then the old heap is still there exactly if ERASE of the allocated
      last block hit nothing that matters. */
  method MmRealloc(mm: Mm, ptr: nat, size: nat) returns (o: Reached<nat>)
    requires mm.Valid() && Spec.LiveBlock(mm.h, ptr)
    modifies mm`h, mm`heapTail, mm.arena, mm.arena.mem
    ensures SafeToRealloc(old(mm.Words()), old(mm.h), ptr, size) ==>
      && o.Inside? && mm.Valid() && Sound(old(mm.h), {}) && (mm.h, o.value) == Realloc(old(mm.h), ptr, size)
      && Regrants(old(mm.h), ptr, size, mm.h, o.value)
      && (o.value == NULL && size > 0 ==> mm.Words() == old(mm.Words()) && mm.arena.brk == old(mm.arena.brk))
      && GrownOrMoved(old(mm.Words()), mm.Words(), old(mm.h), ptr, o.value, size)
    ensures !SafeToRealloc(old(mm.Words()), old(mm.h), ptr, size) && o.Inside? && o.value != NULL ==>
      o.value == ptr && Ruined(mm.Words(), old(mm.h), ptr, AllocSize(size), mm.arena.brk)
    ensures !SafeToRealloc(old(mm.Words()), old(mm.h), ptr, size) && o.Inside? && o.value == NULL ==>
      && mm.arena.brk == old(mm.arena.brk)
      && LinksInside(old(mm.Words()), Spec.NextOf(old(mm.h).bs, ptr), |old(mm.Words())|)
      && mm.Words() == EraseWords(old(mm.Words()), Spec.NextOf(old(mm.h).bs, ptr))
      && (State(mm.Words(), old(mm.h), {}, {}) <==>
           HarmlessErase(old(mm.Words()), old(mm.h), Spec.NextOf(old(mm.h).bs, ptr)))
  {
    hide WordAddress, LowBits, SizeOf, AllocOf, TagOf, State, Sound, Malloc, Free, Resettled, Stretched, Phantom;
    hide Ruined, LinksInside, Regrants, Frees;
    hide EraseWords, HarmlessErase, PayloadsKept, SameData;
    ghost var M, h0 := mm.Words(), mm.h;
    StateIsSound(M, h0, {}, {});
    ReallocRegrants(h0, ptr, size);
    ReallocFacts(M, h0, ptr, size);
    RoomsAddUp(h0, ptr);
    KeptAsIs(M, h0, ptr, size);
    var copySize := mm.BlockSize(ptr) - 8;
    if size == 0 {
      mm.MmFree(ptr);
      return Inside(NULL);
    }
    var allocSize := AllocSize(size);
    if allocSize <= mm.BlockSize(ptr) {
      return Inside(ptr);
    }
    if mm.Ftrp(ptr) + 4 == mm.heapTail {
      var r := mm.ReallocTail(ptr, allocSize);
      return Inside(r);
    }
    var nextSize := mm.NextSize(ptr);
    NextFacts(M, h0, ptr);
    if nextSize == 0 && mm.NextBlock(mm.NextBlock(ptr)) - 4 == mm.heapTail {
      o := GrowOverLast(mm, ptr, allocSize, size);
      if o.Inside? && o.value == NULL {
        EraseSpares(M, h0, Spec.NextOf(h0.bs, ptr));
      }
      return;
    }
    o := GrowAny(mm, ptr, size, nextSize, copySize);
  }
}
