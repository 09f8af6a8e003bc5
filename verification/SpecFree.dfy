/** mm_free, and how it undoes mm_malloc. */
module SpecFree {
  import opened MemLib
  import opened HeapShape
  import opened FreeRing
  import opened HeapTable
  import opened HeapSpec
  import opened SpecMalloc

  /** mm_free before it coalesces: the block is free but not listed. */
  function Released(h: Heap, p: nat): Heap
    requires p in h.bs && NextOf(h.bs, p) in h.bs && p < NextOf(h.bs, p)
  {
    h.(bs := Fuse(h.bs, p, NextOf(h.bs, p), true))
  }

  lemma ReleasedSound(h: Heap, p: nat)
    requires Sound(h, {}) && LiveBlock(h, p)
    ensures NextOf(h.bs, p) in h.bs && p + 16 <= NextOf(h.bs, p) && p !in h.fl
    ensures var h1 := Released(h, p);
      && Sound(h1, {p}) && h1.bs.Keys == h.bs.Keys && h1.bs[p] == h.bs[p].(free := true)
      && (forall b {:trigger b in h.bs} :: b in h.bs && b != p ==> h1.bs[b] == h.bs[b])
  {
    var q := NextOf(h.bs, p);
    assert Fits(h.bs, h.epi, p) && Listed(h, {}, p);
    forall b | b in h.bs && p <= b < q ensures b == p {
      assert Apart(h.bs, p, b);
    }
    FuseTiles(h.bs, h.epi, p, q, true);
    FuseAligns(h.bs, p, q, true);
    FuseAccounted(h, {}, p, q, true);
    assert FusePending({}, p, q, true) == {p};
  }

  /** The end of mm_free: pending block x is coalesced and goes to the front of the list. */
  function Filed(h: Heap, x: nat): Heap
    requires Tiling(h.bs, h.epi) && x in h.bs && PROLOGUE < x && x != h.epi
  {
    var h' := Coalesce(h, x);
    h'.(fl := [MergeStart(h.bs, x)] + h'.fl)
  }

  /** mm_free */
  function Free(h: Heap, p: nat): Heap
    requires Sound(h, {}) && LiveBlock(h, p)
  {
    ReleasedSound(h, p);
    Filed(Released(h, p), p)
  }

  lemma FreeLive(h: Heap, p: nat)
    requires Sound(h, {}) && LiveBlock(h, p)
    ensures var h' := Free(h, p);
      !LiveBlock(h', p) && LiveKept(h, h', {p}) && LiveKept(h', h, {})
  {
    ReleasedSound(h, p);
    var h1 := Released(h, p);
    MergeBounds(h1.bs, h1.epi, p);
    CoalesceSound(h1, p);
    assert Listed(h1, {p}, p);
    forall b | LiveBlock(h, b) && b != p ensures LiveBlock(Free(h, p), b) && Free(h, p).bs[b].size == h.bs[b].size {
      assert LiveBlock(h1, b);
    }
  }

  /** What mm_free of block p makes of heap h, said with its blocks and their sizes: p and its free
      neighbours are one free block, the first one of the list. */
  ghost predicate Frees(h: Heap, p: nat, h': Heap) {
    && p in h.bs && h'.epi == h.epi && !LiveBlock(h', p) && LiveKept(h, h', {p}) && LiveKept(h', h, {})
    && var b, n := h.bs[p].prev, p + h.bs[p].size;
      var before, behind := b in h.bs && h.bs[b].free, n in h.bs && h.bs[n].free;
      var start := if before then b else p;
      && h'.fl == [start] + Without(Without(h.fl, b), n) && start in h'.bs && h'.bs[start].free
      && h'.bs[start].size ==
           h.bs[p].size + (if before then h.bs[b].size else 0) + (if behind then h.bs[n].size else 0)
  }

  lemma {:induction false} WithoutMissing(fl: seq<nat>, x: nat)
    requires x !in fl
    ensures Without(fl, x) == fl
  {
    if fl != [] {
      WithoutMissing(fl[1..], x);
      assert fl == [fl[0]] + fl[1..];
    }
  }

  /** Taking a block that is not free off the list changes nothing. */
  lemma NeighboursLeave(h: Heap, p: nat)
    requires Sound(h, {}) && LiveBlock(h, p)
    ensures p < NextOf(h.bs, p) && NextOf(h.bs, p) in h.bs && p in Released(h, p).bs
    ensures Tiling(Released(h, p).bs, h.epi)
    ensures Coalesce(Released(h, p), p).fl == Without(Without(h.fl, PrevOf(h.bs, p)), NextOf(h.bs, p))
  {
    ReleasedSound(h, p);
    var b, n := PrevOf(h.bs, p), NextOf(h.bs, p);
    assert Fits(h.bs, h.epi, p) && Listed(h, {}, b) && Listed(h, {}, n);
    WithoutFilters(h.fl, b);
    if !IsFree(h.bs, b) { WithoutMissing(h.fl, b); }
    if !IsFree(h.bs, n) { WithoutMissing(Without(h.fl, b), n); }
  }

  lemma FreeFrees(h: Heap, p: nat)
    requires Sound(h, {}) && LiveBlock(h, p)
    ensures Frees(h, p, Free(h, p))
  {
    hide Accounted, Without, Aligned;
    ReleasedSound(h, p);
    NeighboursLeave(h, p);
    FreeLive(h, p);
    MergeBounds(h.bs, h.epi, p);
    assert Fits(h.bs, h.epi, p) && Fits(h.bs, h.epi, NextOf(h.bs, p));
  }

  /** mm_free keeps the heap sound, ends the life of p, and touches no other live block. */
  lemma FreeSound(h: Heap, p: nat)
    requires Sound(h, {}) && LiveBlock(h, p)
    ensures var h' := Free(h, p);
      && Sound(h', {}) && h'.epi == h.epi && !LiveBlock(h', p) && LiveKept(h, h', {p}) && LiveKept(h', h, {})
      && Frees(h, p, h')
  {
    FreeFrees(h, p);
    ReleasedSound(h, p);
    var h1 := Released(h, p);
    var r := MergeStart(h1.bs, p);
    CoalesceSound(h1, p);
    CoalesceSeparates(h1, p);
    InsertAccounted(Coalesce(h1, p), {r}, r);
    assert {r} - {r} == {};
    FreeLive(h, p);
  }

  // Freeing a fresh block

  /** Any table that only differs from bs inside the free block [p, q) fuses back to bs. */
  lemma FuseRestores(bs: Blocks, bs': Blocks, epi: nat, p: nat, q: nat)
    requires Tiling(bs, epi) && p in bs && p != epi && bs[p].free && q == NextOf(bs, p)
    requires q in bs && p in bs' && q in bs' && p < q && bs'[p].prev == bs[p].prev && bs'[q].(prev := p) == bs[q]
    requires forall b {:trigger b in bs'} :: b < p || q <= b ==> (b in bs' <==> b in bs)
    requires forall b {:trigger bs'[b]} :: b in bs' && (b < p || q < b) ==> b in bs && bs'[b] == bs[b]
    ensures Fuse(bs', p, q, true) == bs
  {
    assert Fits(bs, epi, p);
    var fs := Fuse(bs', p, q, true);
    forall b ensures b in fs <==> b in bs {
      assert b in bs ==> Apart(bs, p, b);
    }
  }

  lemma WholeRoundTrip(h: Heap, p: nat, asize: nat)
    requires Held(h, p, asize) && h.bs[p].size - asize < 16
    requires var (h1, r) := Place(h, p, asize); Sound(h1, {}) && LiveBlock(h1, r)
    ensures var (h1, r) := Place(h, p, asize); Free(h1, r) == h.(fl := [p] + h.fl)
  {
    var q := NextOf(h.bs, p);
    HeldBlock(h, p);
    assert Fits(h.bs, h.epi, p);
    var (h1, r) := Place(h, p, asize);
    var h2 := Released(h1, p);
    FuseRestores(h.bs, h1.bs, h.epi, p, q);
    assert h2.bs == h.bs;
    FuseOfOneIsNothing(h.bs, h.epi, p);
    assert Coalesce(h2, p) == h;
  }

  lemma LowRoundTrip(h: Heap, p: nat, asize: nat)
    requires Held(h, p, asize) && h.bs[p].size - asize >= 16
    requires var m := p + asize; m !in h.bs
    requires var h1 := h.(bs := Split(h.bs, p, p + asize, NextOf(h.bs, p), false, true), fl := [p + asize] + h.fl);
      Sound(h1, {}) && LiveBlock(h1, p)
    ensures var h1 := h.(bs := Split(h.bs, p, p + asize, NextOf(h.bs, p), false, true), fl := [p + asize] + h.fl);
      Free(h1, p) == h.(fl := [p] + h.fl)
  {
    var m, q := p + asize, NextOf(h.bs, p);
    HeldBlock(h, p);
    assert Fits(h.bs, h.epi, p);
    var h1 := h.(bs := Split(h.bs, p, m, q, false, true), fl := [m] + h.fl);
    ReleasedSound(h1, p);
    var h2 := Released(h1, p);
    assert h2.bs[m].free && MergeEnd(h2.bs, p) == q && MergeStart(h2.bs, p) == p;
    FuseRestores(h.bs, h2.bs, h.epi, p, q);
    assert Without([m] + h.fl, m) == h.fl;
    assert Coalesce(h2, p) == h;
  }

  lemma HighRoundTrip(h: Heap, p: nat, asize: nat)
    requires Held(h, p, asize) && h.bs[p].size - asize >= 16
    requires var m := NextOf(h.bs, p) - asize; m !in h.bs
    requires var m := NextOf(h.bs, p) - asize;
      var h1 := h.(bs := Split(h.bs, p, m, NextOf(h.bs, p), true, false), fl := [p] + h.fl);
      Sound(h1, {}) && LiveBlock(h1, m)
    ensures var m := NextOf(h.bs, p) - asize;
      var h1 := h.(bs := Split(h.bs, p, m, NextOf(h.bs, p), true, false), fl := [p] + h.fl);
      Free(h1, m) == h.(fl := [p] + h.fl)
  {
    var q := NextOf(h.bs, p);
    var m := q - asize;
    HeldBlock(h, p);
    assert Fits(h.bs, h.epi, p);
    var h1 := h.(bs := Split(h.bs, p, m, q, true, false), fl := [p] + h.fl);
    ReleasedSound(h1, m);
    var h2 := Released(h1, m);
    assert h2.bs[p].free && MergeEnd(h2.bs, m) == q && MergeStart(h2.bs, m) == p;
    FuseRestores(h.bs, h2.bs, h.epi, p, q);
    assert Without([p] + h.fl, p) == h.fl;
    assert Coalesce(h2, m) == h;
  }

  /** Freeing what place handed out puts the held block back, whole, at the front of the list. */
  lemma PlaceRoundTrip(h: Heap, p: nat, asize: nat)
    requires Held(h, p, asize)
    ensures var (h1, r) := Place(h, p, asize);
      Sound(h1, {}) && LiveBlock(h1, r) && Free(h1, r) == h.(fl := [p] + h.fl)
  {
    PlaceSound(h, p, asize);
    var size, q := h.bs[p].size, NextOf(h.bs, p);
    HeldBlock(h, p);
    if size - asize < 16 {
      WholeRoundTrip(h, p, asize);
    } else {
      InsideIsFresh(h.bs, h.epi, p, p + asize);
      InsideIsFresh(h.bs, h.epi, p, q - asize);
      if asize < 96 || size - asize < 32 {
        LowRoundTrip(h, p, asize);
      } else {
        HighRoundTrip(h, p, asize);
      }
    }
  }

  /** mm_free undoes mm_malloc.  If a listed block served the request, the block table and
      the break are what they were and that block has moved to the front of the list; if the
      heap grew, what remains is the grown heap with its tail block free. */
  lemma FreeUndoesMalloc(h: Heap, size: nat)
    requires Sound(h, {}) && Malloc(h, size).1 != NULL
    ensures var (h1, r) := Malloc(h, size); var a := AllocSize(size);
      && Sound(h1, {}) && LiveBlock(h1, r)
      && (Fit(h, a) != NULL ==> Free(h1, r) == h.(fl := [Fit(h, a)] + Without(h.fl, Fit(h, a))))
      && (Fit(h, a) == NULL ==> (Growth(h, a) >= 8
            && Free(h1, r) == Enlarged(h, Growth(h, a)).(fl := [TailStart(h)] + Enlarged(h, Growth(h, a)).fl)))
  {
    var a := AllocSize(size);
    AllocSizeAligned(size);
    if Fit(h, a) != NULL {
      FitHeld(h, a);
      PlaceRoundTrip(Taken(h, Fit(h, a)), Fit(h, a), a);
    } else {
      GrowthHeld(h, a);
      PlaceRoundTrip(Enlarged(h, Growth(h, a)), TailStart(h), a);
    }
  }

  /** What is said of mm_free leaves it no choice. */
  lemma FreesDetermines(h: Heap, p: nat, h': Heap)
    requires Sound(h, {}) && LiveBlock(h, p) && Frees(h, p, h') && Sound(h', {})
    ensures SameTable(Free(h, p), h')
  {
    hide Free, Sound;
    FreeSound(h, p);
    var f := Free(h, p);
    forall b | LiveBlock(f, b) ensures LiveBlock(h', b) && h'.bs[b].size == f.bs[b].size {
      assert LiveBlock(h, b);
    }
    forall b | LiveBlock(h', b) ensures LiveBlock(f, b) && h'.bs[b].size == f.bs[b].size {
      assert LiveBlock(h, b);
    }
    LiveBlocksDetermineTable(f, h');
  }
}
