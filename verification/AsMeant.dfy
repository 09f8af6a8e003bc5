/** mm_realloc with the tests of its two faulty branches as they are meant. */
module AsMeant {
  // The test of mm.c:391 read as next_size != 0: a free last neighbour is taken over and the
  // arena grows by what is still missing.  The free block is erased before the arena is asked,
  // and erased once more by coalesce.

  import opened MemLib
  import opened Packing
  import opened HeapShape
  import opened FreeRing
  import opened HeapTable
  import opened HeapState
  import opened HeapWalk
  import opened SpecMalloc
  import opened SpecFree
  import opened SpecRealloc
  import opened Merging
  import opened Regrowing
  import opened Allocator
  import Spec = HeapSpec

  /** The call takes that branch: the next block is free and the last one, and too small. */
  predicate TakesOverLast(h: Heap, p: nat, size: nat)
    requires p in h.bs
  {
    var n := Spec.NextOf(h.bs, p);
    && size > 0 && n != h.epi && Spec.IsFree(h.bs, n) && Spec.NextOf(h.bs, n) == h.epi
    && AllocSize(size) > h.bs[p].size + h.bs[n].size
  }

  /** By how much the arena has to grow then. */
  function Missing(h: Heap, p: nat, size: nat): int
    requires p in h.bs
  {
    AllocSize(size) - h.bs[p].size - NextRoom(h, p)
  }

  /** Block p takes over the last block and ext bytes behind it. */
  function TakenOver(h: Heap, p: nat, ext: nat): Heap
    requires p in h.bs && h.epi in h.bs && p < h.epi
  {
    var g := Grown(h.(fl := Without(h.fl, Spec.NextOf(h.bs, p))), ext);
    g.(bs := Fuse(g.bs, p, g.epi, false))
  }

  /** The table once the arena has grown: the old last block and the new one are pending. */
  lemma GrownPending(h: Heap, p: nat, size: nat, ext: nat)
    requires Sound(h, {}) && Spec.LiveBlock(h, p) && TakesOverLast(h, p, size) && ext >= 8 && ext % 8 == 0
    ensures var n := Spec.NextOf(h.bs, p);
      && n in h.fl && p < n && n + 16 <= h.epi && n in h.bs && h.epi in h.bs && h.bs[h.epi].prev == n
      && var g := Grown(h.(fl := Without(h.fl, n)), ext);
      && Sound(g, {h.epi} + {n}) && g.epi == h.epi + ext && p in g.bs && g.epi in g.bs
      && g.bs[p] == h.bs[p] && g.bs[n] == h.bs[n] && g.bs[h.epi] == Block(ext, true, n)
      && !g.bs[g.epi].free && forall b {:trigger b in g.fl} :: b in g.bs && p <= b < g.epi ==> b !in g.fl
  {
    var n := Spec.NextOf(h.bs, p);
    LiveBlockBounds(h, p);
    assert Listed(h, {}, p) && Listed(h, {}, n) && Fits(h.bs, h.epi, n);
    ExtendTiles(h.bs, h.epi, ext);
    ExtendAligns(h.bs, h.epi, ext);
    ExtendAccounted(h, ext);
    EraseAccounted(Grown(h, ext), {h.epi}, n);
    var g := Grown(h.(fl := Without(h.fl, n)), ext);
    assert g == Grown(h, ext).(fl := Without(h.fl, n));
    forall b | b in g.bs && p <= b < g.epi ensures b !in g.fl {
      assert Apart(g.bs, p, b) && Apart(g.bs, n, b) && Apart(g.bs, h.epi, b);
      assert Listed(g, {h.epi} + {n}, b);
    }
  }

  lemma MissingIsEights(h: Heap, p: nat, size: nat)
    requires Sound(h, {}) && Spec.LiveBlock(h, p) && TakesOverLast(h, p, size)
    ensures Missing(h, p, size) >= 8 && Missing(h, p, size) % 8 == 0
    ensures p + AllocSize(size) == h.epi + Missing(h, p, size) && AllocSize(size) % 8 == 0 && AllocSize(size) >= 16
  {
    var n := Spec.NextOf(h.bs, p);
    AllocSizeAligned(size);
    DifferenceAligns(AllocSize(size), h.bs[p].size);
    DifferenceAligns(AllocSize(size) - h.bs[p].size, h.bs[n].size);
    StepOfEight(Missing(h, p, size), 0);
  }

  lemma TakenOverLive(h: Heap, p: nat, size: nat, ext: nat)
    requires Sound(h, {}) && Spec.LiveBlock(h, p) && TakesOverLast(h, p, size) && ext >= 8 && p < h.epi
    ensures var h' := TakenOver(h, p, ext);
      Spec.LiveBlock(h', p) && Spec.LiveKept(h, h', {p}) && Spec.LiveKept(h', h, {p})
  {
    var h' := TakenOver(h, p, ext);
    var n := Spec.NextOf(h.bs, p);
    forall b | Spec.LiveBlock(h, b) && b != p ensures Spec.LiveBlock(h', b) && h'.bs[b].size == h.bs[b].size {
      assert Fits(h.bs, h.epi, b) && Apart(h.bs, p, b) && Apart(h.bs, n, b);
    }
  }

  /** Taking over the last block keeps the heap sound, p gets what it asked for, and every
      other live block is as it was. */
  lemma TakenOverSound(h: Heap, p: nat, size: nat)
    requires Sound(h, {}) && Spec.LiveBlock(h, p) && TakesOverLast(h, p, size)
    ensures Missing(h, p, size) >= 8 && Missing(h, p, size) % 8 == 0 && p < h.epi && h.epi in h.bs
    ensures Reallocated(h, TakenOver(h, p, Missing(h, p, size)), p, p, AllocSize(size))
    ensures var h' := TakenOver(h, p, Missing(h, p, size));
      h'.epi == p + AllocSize(size) && h'.bs[p].size == AllocSize(size) && h'.fl == Without(h.fl, p + h.bs[p].size)
    ensures TakenOver(h, p, Missing(h, p, size)).epi == h.epi + Missing(h, p, size)
  {
    var ext, n := Missing(h, p, size), Spec.NextOf(h.bs, p);
    MissingIsEights(h, p, size);
    GrownPending(h, p, size, ext);
    var g := Grown(h.(fl := Without(h.fl, n)), ext);
    FuseAccounted(g, {h.epi} + {n}, p, g.epi, false);
    assert FusePending({h.epi} + {n}, p, g.epi, false) == {};
    FuseTiles(g.bs, g.epi, p, g.epi, false);
    FuseAligns(g.bs, p, g.epi, false);
    TakenOverLive(h, p, size, ext);
  }

  lemma UnlistedStays(M: seq<Word>, h: Heap, h': Heap, n: nat)
    requires State(M, h, {n}, {}) && SameTable(h, h')
    ensures !State(M, h', {}, {})
  {
    assert Listed(h, {n}, n);
    assert n in h'.bs && h'.bs[n].free && n !in h'.fl;
    assert !Listed(h', {}, n);
  }

  /** A free block that is not on the list: no heap has these words. */
  lemma LostBlock(M: seq<Word>, h: Heap, n: nat)
    requires State(M, h, {n}, {})
    ensures forall h': Heap {:trigger State(M, h', {}, {})} :: !State(M, h', {}, {})
  {
    hide State, SameTable;
    forall h': Heap ensures !State(M, h', {}, {}) {
      if State(M, h', {}, {}) {
        WordsDetermineHeap(M, h, h', {n}, {}, {}, {});
        UnlistedStays(M, h, h', n);
      }
    }
  }

  // The words

  /** The words after the first erasure and the growth. */
  lemma GrownWords(M1: seq<Word>, M2: seq<Word>, h: Heap, p: nat, size: nat, ext: nat)
    requires Sound(h, {}) && Spec.LiveBlock(h, p) && TakesOverLast(h, p, size) && ext >= 8 && ext % 8 == 0
    requires var n := Spec.NextOf(h.bs, p); State(M1, h.(fl := Without(h.fl, n)), {n}, {})
    requires ExtendWords(M1, M2, h.epi, ext) && h.epi in h.bs
    ensures var n := Spec.NextOf(h.bs, p); State(M2, Grown(h.(fl := Without(h.fl, n)), ext), {h.epi} + {n}, {})
  {
    hide SizeOf, AllocOf, TagOf, ExtendWords, Ring;
    var n := Spec.NextOf(h.bs, p);
    GrownPending(h, p, size, ext);
    ExtendTagged(M1, M2, h.(fl := Without(h.fl, n)), ext);
    ExtendRing(M1, M2, h.(fl := Without(h.fl, n)), {n}, ext);
  }

  /** What coalesce reads around the new block at bp, when the block n before it is pending too. */
  lemma TailPairFacts(M: seq<Word>, g: Heap, n: nat, bp: nat)
    requires State(M, g, {bp} + {n}, {}) && n in g.bs && bp in g.bs && g.bs[n].free && g.bs[bp].free
    requires n + g.bs[n].size == bp && bp + g.bs[bp].size == g.epi && g.bs[n].size >= 16
    ensures FIRST <= n && n + 16 <= bp && bp + 8 <= g.epi <= MAX_HEAP == |M| && (g.epi - n) % 8 == 0
    ensures WordAddresses(n) && WordAddresses(bp) && WordAddresses(g.epi)
    ensures SizeOf(M[bp - 4]) == g.epi - bp && !TagOf(M[bp - 4]) && AllocOf(M[g.epi - 4])
    ensures SizeOf(M[bp - 8]) == bp - n && SizeOf(M[n - 4]) == bp - n
  {
    Around(M, g, {bp} + {n}, {}, n);
    Around(M, g, {bp} + {n}, {}, bp);
    WordAligned(n);
    WordAligned(bp);
    WordAligned(g.epi);
    DifferenceAligns(g.epi, n);
  }

  /** The words after coalesce: one header and one footer for the two last blocks. */
  ghost predicate TailMerged(M: seq<Word>, M': seq<Word>, n: nat, epi: nat) {
    && 4 <= n && n + 16 <= epi <= |M| && (epi - n) % 8 == 0 && epi <= MAX_HEAP
    && M' == M[epi - 8 := epi - n][n - 4 := WithSize(M[n - 4], epi - n)]
  }

  /** coalesce, case 3, the writes: the block at bp, the last one, is joined to n. */
  method WriteJoined(mm: Mm, bp: nat, size: nat, ghost n: nat) returns (r: nat)
    requires mm.arena.Valid() && 4 <= n && n + 16 <= bp && bp + 8 <= mm.arena.brk && (mm.arena.brk - n) % 8 == 0
    requires WordAddresses(n) && WordAddresses(bp) && WordAddresses(mm.arena.brk) && size == mm.arena.brk - n
    requires SizeOf(mm.Words()[bp - 4]) == mm.arena.brk - bp && SizeOf(mm.Words()[bp - 8]) == bp - n
    modifies mm.arena.mem
    ensures r == n && TailMerged(old(mm.Words()), mm.Words(), n, mm.arena.brk)
  {
    hide WordAddress, LowBits, SizeOf;
    mm.Put(mm.Ftrp(bp), size);
    mm.SetSize(mm.PrevBlock(bp) - 4, size);
    r := mm.PrevBlock(bp);
  }

  /** coalesce, case 3, which is the one that applies: ERASE of a block that was erased before
      changes nothing. */
  method MergeErased(mm: Mm, bp: nat, ghost n: nat) returns (r: nat)
    requires mm.Ready() && State(mm.Words(), mm.h, {bp} + {n}, {}) && n in mm.h.bs && bp in mm.h.bs
    requires mm.h.bs[n].free && mm.h.bs[bp].free && mm.h.bs[n].size >= 16
    requires n + mm.h.bs[n].size == bp && bp + mm.h.bs[bp].size == mm.h.epi && Detached(mm.Words(), bp, n)
    modifies mm.arena.mem
    ensures r == n && n + 16 <= bp <= |old(mm.Words())| && bp <= mm.h.epi <= |old(mm.Words())| && 4 <= bp
    ensures !TagOf(old(mm.Words())[bp - 4]) && AllocOf(old(mm.Words())[mm.h.epi - 4])
    ensures TailMerged(old(mm.Words()), mm.Words(), n, mm.h.epi)
  {
    hide WordAddress, LowBits, SizeOf, AllocOf, TagOf, State;
    ghost var M := mm.Words();
    TailPairFacts(M, mm.h, n, bp);
    var size := mm.BlockSize(bp);
    mm.Unlink(mm.PrevBlock(bp), HEAD + M[n], HEAD + M[n + 4]);
    assert mm.Words() == M;
    size := size + mm.BlockSize(mm.PrevBlock(bp));
    r := WriteJoined(mm, bp, size, n);
  }

  lemma LastBlockFacts(M: seq<Word>, h: Heap, n: nat)
    requires State(M, h, {n}, {})
    ensures h.epi in h.bs && FIRST <= h.epi <= MAX_HEAP && WordAddresses(h.epi) && h.epi % 8 == 0
  {
    assert Apart(h.bs, PROLOGUE, h.epi);
    WordAligned(h.epi);
  }

  lemma StillDetached(M1: seq<Word>, M2: seq<Word>, epi: nat, size: nat, n: nat)
    requires Detached(M1, epi, n) && ExtendWords(M1, M2, epi, size)
    ensures Detached(M2, epi, n)
  {
    hide WordAddress, SizeOf, AllocOf, TagOf;
    assert M2[n] == M1[n] && M2[n + 4] == M1[n + 4];
    assert M2[HEAD + M1[n] + 4] == M1[HEAD + M1[n] + 4] && M2[HEAD + M1[n + 4]] == M1[HEAD + M1[n + 4]];
  }

  /** extend_heap, behind a last block n that was erased before. */
  method ExtendOver(mm: Mm, words: nat, ghost h: Heap, ghost p: nat, ghost size: nat)
    returns (r: nat, ghost M2: seq<Word>)
    requires Sound(h, {}) && Spec.LiveBlock(h, p) && TakesOverLast(h, p, size) && words > 0
    requires mm.Ready() && mm.h == h.(fl := Without(h.fl, Spec.NextOf(h.bs, p)))
    requires State(mm.Words(), mm.h, {Spec.NextOf(h.bs, p)}, {}) && Detached(mm.Words(), h.epi, Spec.NextOf(h.bs, p))
    modifies mm`h, mm`heapTail, mm.arena, mm.arena.mem
    ensures r == NULL <==> h.epi + ExtendSize(words) > MAX_HEAP
    ensures r == NULL ==> mm.h == old(mm.h) && mm.Words() == old(mm.Words()) && mm.Ready()
    ensures r != NULL ==> mm.Ready() && h.epi in h.bs && mm.h == Grown(old(mm.h), ExtendSize(words))
    ensures r != NULL ==> ExtendWords(old(mm.Words()), M2, h.epi, ExtendSize(words))
    ensures r != NULL ==> TailMerged(M2, mm.Words(), Spec.NextOf(h.bs, p), mm.h.epi)
  {
    hide WordAddress, LowBits, SizeOf, AllocOf, TagOf, State;
    ghost var M1, n := mm.Words(), Spec.NextOf(h.bs, p);
    M2 := M1;
    LastBlockFacts(M1, mm.h, n);
    ExtendSizeAligned(words, h.epi);
    var bytes := ExtendSize(words);
    var bp := mm.arena.Sbrk(bytes);
    if bp == -1 {
      return NULL, M2;
    }
    mm.WriteFree(bp, bytes, M1);
    M2 := mm.Words();
    GrownPending(h, p, size, bytes);
    GrownWords(M1, M2, h, p, size, bytes);
    StillDetached(M1, M2, h.epi, bytes, n);
    mm.h := Grown(mm.h, bytes);
    r := MergeErased(mm, bp, n);
  }

  /** The header, footer and tag writes after extend_heap make one block of the run from p on. */
  lemma TakenOverState(M2: seq<Word>, M3: seq<Word>, M': seq<Word>, h: Heap, p: nat, size: nat, ext: nat)
    requires Sound(h, {}) && Spec.LiveBlock(h, p) && TakesOverLast(h, p, size)
    requires ext == Missing(h, p, size) >= 8 && ext % 8 == 0 && h.epi in h.bs && p < h.epi
    requires var n := Spec.NextOf(h.bs, p);
      && State(M2, Grown(h.(fl := Without(h.fl, n)), ext), {h.epi} + {n}, {})
      && TailMerged(M2, M3, n, h.epi + ext)
    requires FuseWords(M3, M', p, h.epi + ext, false)
    ensures State(M', TakenOver(h, p, ext), {}, {})
  {
    hide SizeOf, AllocOf, TagOf, State;
    var n := Spec.NextOf(h.bs, p);
    var g := Grown(h.(fl := Without(h.fl, n)), ext);
    GrownPending(h, p, size, ext);
    LiveBlockBounds(h, p);
    MissingIsEights(h, p, size);
    assert FuseWords(M2, M', p, g.epi, false);
    FuseState(M2, M', g, {h.epi} + {n}, {}, p, g.epi, false, {});
    assert FusePending({h.epi} + {n}, p, g.epi, false) == {};
  }

  lemma TakenOverPayloads(M: seq<Word>, M1: seq<Word>, M2: seq<Word>, M3: seq<Word>, M': seq<Word>, h: Heap, p: nat,
        size: nat, ext: nat)
    requires Sound(h, {}) && Spec.LiveBlock(h, p) && TakesOverLast(h, p, size) && ext >= 8
    requires PayloadsKept(M, M1, h.bs, Live(h.bs)) && ExtendWords(M1, M2, h.epi, ext)
    requires TailMerged(M2, M3, Spec.NextOf(h.bs, p), h.epi + ext) && 4 <= p && Within(M3, M', p - 4, h.epi + ext - 4)
    requires forall x {:trigger M'[x]} :: p <= x < h.epi + ext - 8 && x < |M'| ==> M'[x] == M3[x]
    ensures PayloadsKept(M, M', h.bs, Live(h.bs) - {p}) && SameData(M, M', p, p, h.bs[p].size - 4)
  {
    hide SizeOf, AllocOf, TagOf;
    var n := Spec.NextOf(h.bs, p);
    LiveBlockBounds(h, p);
    assert Fits(h.bs, h.epi, n);
    forall x | 0 <= x < |M| && (x < p - 4 || p <= x < n - 4) ensures M'[x] == M1[x] {
      assert M3[x] == M2[x] == M1[x];
    }
    forall b | b in h.bs && b in Live(h.bs) - {p} ensures PayloadKept(M, M', h.bs, b) {
      assert Apart(h.bs, b, p) && Apart(h.bs, p, b) && Apart(h.bs, n, b) && Fits(h.bs, h.epi, b);
      assert PayloadKept(M, M1, h.bs, b);
    }
    assert PayloadKept(M, M1, h.bs, p);
    forall i: nat | 4 * i < h.bs[p].size - 4 ensures WordAt(M', p, i) == WordAt(M, p, i) {
      assert p + 4 * i < |M| ==> M'[p + 4 * i] == M1[p + 4 * i];
    }
  }

  /** Before the branch: where the next block is and what it needs to be erased. */
  lemma BranchReady(M: seq<Word>, h: Heap, p: nat, size: nat)
    requires State(M, h, {}, {}) && Spec.LiveBlock(h, p) && TakesOverLast(h, p, size)
    ensures var n, ext := Spec.NextOf(h.bs, p), Missing(h, p, size);
      && n in h.fl && FIRST <= p < n < h.epi && 4 <= p && WordAddresses(p) && SizeOf(M[p - 4]) == h.bs[p].size
      && ext >= 8 && ext % 8 == 0 && p + AllocSize(size) == h.epi + ext && AllocSize(size) % 8 == 0
      && AllocSize(size) >= 16 && WordAddresses(h.epi + ext) && h.epi in h.bs && h.epi <= |M|
  {
    StateIsSound(M, h, {}, {});
    LiveFacts(M, h, p);
    MissingIsEights(h, p, size);
    GrownPending(h, p, size, Missing(h, p, size));
    DifferenceAligns(h.epi, Missing(h, p, size));
    WordAligned(h.epi + Missing(h, p, size));
  }

  /** The header of p is the same in all the words up to the last writes. */
  lemma HeaderStays(M: seq<Word>, M1: seq<Word>, M2: seq<Word>, M3: seq<Word>, h: Heap, p: nat, n: nat, ext: nat)
    requires State(M, h, {}, {}) && Spec.LiveBlock(h, p) && n == Spec.NextOf(h.bs, p)
    requires State(M1, h.(fl := Without(h.fl, n)), {n}, {}) && h.epi in h.bs && n < h.epi && p < n
    ensures 4 <= p <= |M1| && SizeOf(M1[p - 4]) == h.bs[p].size && AllocOf(M1[p - 4])
    ensures ExtendWords(M1, M2, h.epi, ext) && TailMerged(M2, M3, n, h.epi + ext) ==>
      |M3| == |M1| && M3[p - 4] == M1[p - 4]
  {
    LiveFacts(M, h, p);
    assert Header(M1, h.bs, p);
  }

  /** mm.c:391-404 with next_size != 0: null once the free block is off the list, or the block
      grown over it. */
  method GrowOverFree(mm: Mm, ptr: nat, asize: nat, nextSize: nat, ghost size: nat) returns (r: nat)
    requires mm.Valid() && Spec.LiveBlock(mm.h, ptr) && TakesOverLast(mm.h, ptr, size)
    requires asize == AllocSize(size) && nextSize == NextRoom(mm.h, ptr)
    modifies mm`h, mm`heapTail, mm.arena, mm.arena.mem
    ensures Sound(old(mm.h), {}) && mm.Ready()
    ensures r == NULL <==> old(mm.h).epi + Missing(old(mm.h), ptr, size) > MAX_HEAP
    ensures r == NULL ==> var n := Spec.NextOf(old(mm.h).bs, ptr);
      State(mm.Words(), old(mm.h).(fl := Without(old(mm.h).fl, n)), {n}, {}) && mm.arena.brk == old(mm.arena.brk)
    ensures r == NULL ==> PayloadsKept(old(mm.Words()), mm.Words(), old(mm.h).bs, Live(old(mm.h).bs))
    ensures r != NULL ==> r == ptr && mm.Valid() && ptr < old(mm.h).epi && old(mm.h).epi in old(mm.h).bs
    ensures r != NULL ==> mm.h == TakenOver(old(mm.h), ptr, Missing(old(mm.h), ptr, size))
    ensures r != NULL ==> PayloadsKept(old(mm.Words()), mm.Words(), old(mm.h).bs, Live(old(mm.h).bs) - {ptr})
    ensures r != NULL ==> SameData(old(mm.Words()), mm.Words(), ptr, ptr, old(mm.h).bs[ptr].size - 4)
  {
    hide WordAddress, LowBits, SizeOf, AllocOf, TagOf, State, Sound, PayloadsKept, SameData, ExtendWords, TailMerged;
    hide BodiesKept, Detached;
    ghost var M, h0, n := mm.Words(), mm.h, Spec.NextOf(mm.h.bs, ptr);
    StateIsSound(M, h0, {}, {});
    BranchReady(M, h0, ptr, size);
    mm.Erase(mm.NextBlock(ptr), {}, {});
    assert {} + {n} == {n};
    ghost var M1 := mm.Words();
    KeptLive(M, M1, h0, {});
    HeaderStays(M, M1, M1, M1, h0, ptr, n, 0);
    var ext := asize - mm.BlockSize(ptr) - nextSize;
    GrowthInWords(ext);
    ghost var M2;
    r, M2 := ExtendOver(mm, ext / 4, h0, ptr, size);
    if r == NULL {
      return;
    }
    ghost var M3 := mm.Words();
    HeaderStays(M, M1, M2, M3, h0, ptr, n, ext);
    mm.WriteStretched(ptr, asize);
    GrownWords(M1, M2, h0, ptr, size, ext);
    TakenOverState(M2, M3, mm.Words(), h0, ptr, size, ext);
    TakenOverPayloads(M, M1, M2, M3, mm.Words(), h0, ptr, size, ext);
    mm.h := TakenOver(h0, ptr, ext);
    r := ptr;
  }

  /** The branch is taken and the arena is exhausted. */
  predicate Strands(h: Heap, p: nat, size: nat)
    requires p in h.bs
  {
    TakesOverLast(h, p, size) && h.epi + Missing(h, p, size) > MAX_HEAP
  }

  /** mm_realloc of any live block.  Some heap is there afterwards, except when a free last
      neighbour was erased and the arena turned out to be exhausted: then the result is null and
      the free block is lost, though no payload is. */
  method MmRealloc(mm: Mm, ptr: nat, size: nat) returns (r: nat)
    requires mm.Valid() && Spec.LiveBlock(mm.h, ptr)
    modifies mm`h, mm`heapTail, mm.arena, mm.arena.mem
    ensures Sound(old(mm.h), {})
    ensures !TakesOverLast(old(mm.h), ptr, size) ==>
      && mm.Valid() && (mm.h, r) == Realloc(old(mm.h), ptr, size) && Regrants(old(mm.h), ptr, size, mm.h, r)
      && (r == NULL && size > 0 ==> mm.Words() == old(mm.Words()) && mm.arena.brk == old(mm.arena.brk))
      && GrownOrMoved(old(mm.Words()), mm.Words(), old(mm.h), ptr, r, size)
    ensures TakesOverLast(old(mm.h), ptr, size) && !Strands(old(mm.h), ptr, size) ==>
      && r == ptr && mm.Valid() && Reallocated(old(mm.h), mm.h, ptr, ptr, AllocSize(size))
      && mm.h.epi == ptr + AllocSize(size) && mm.h.bs[ptr].size == AllocSize(size)
      && mm.h.fl == Without(old(mm.h).fl, ptr + old(mm.h).bs[ptr].size)
      && PayloadsKept(old(mm.Words()), mm.Words(), old(mm.h).bs, Live(old(mm.h).bs) - {ptr})
      && SameData(old(mm.Words()), mm.Words(), ptr, ptr, old(mm.h).bs[ptr].size - 4)
    ensures Strands(old(mm.h), ptr, size) ==>
      && r == NULL && mm.arena.brk == old(mm.arena.brk)
      && PayloadsKept(old(mm.Words()), mm.Words(), old(mm.h).bs, Live(old(mm.h).bs))
    ensures (exists h': Heap :: State(mm.Words(), h', {}, {})) <==> !Strands(old(mm.h), ptr, size)
  {
    hide WordAddress, LowBits, SizeOf, AllocOf, TagOf, State, Sound, PayloadsKept, SameData, Malloc, Free;
    hide Resettled, Stretched, TakenOver, Regrants, Frees;
    ghost var M, h0 := mm.Words(), mm.h;
    StateIsSound(M, h0, {}, {});
    ReallocRegrants(h0, ptr, size);
    ReallocFacts(M, h0, ptr, size);
    RoomsAddUp(h0, ptr);
    KeptAsIs(M, h0, ptr, size);
    var copySize := mm.BlockSize(ptr) - 8;
    if size == 0 {
      mm.MmFree(ptr);
      return NULL;
    }
    var allocSize := AllocSize(size);
    if allocSize <= mm.BlockSize(ptr) {
      return ptr;
    }
    if mm.Ftrp(ptr) + 4 == mm.heapTail {
      r := mm.ReallocTail(ptr, allocSize);
      return;
    }
    var nextSize := mm.NextSize(ptr);
    NextFacts(M, h0, ptr);
    if nextSize != 0 && mm.NextBlock(mm.NextBlock(ptr)) - 4 == mm.heapTail {
      if allocSize > nextSize + mm.BlockSize(ptr) {
        r := GrowOverFree(mm, ptr, allocSize, nextSize, size);
        TakenOverSound(h0, ptr, size);
        if r == NULL {
          LostBlock(mm.Words(), h0.(fl := Without(h0.fl, Spec.NextOf(h0.bs, ptr))), Spec.NextOf(h0.bs, ptr));
        }
        return;
      }
    }
    var prevSize := mm.FreePrevSize(ptr);
    r := mm.GrowOrMove(ptr, size, mm.BlockSize(ptr) + prevSize + nextSize, copySize);
  }
}
