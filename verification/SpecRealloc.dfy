/** mm_realloc on block tables. */
module SpecRealloc {
  import opened MemLib
  import opened HeapShape
  import opened FreeRing
  import opened HeapTable
  import opened HeapSpec
  import opened SpecMalloc
  import opened SpecFree

  /** A last block grows in place by ext bytes. */
  function Stretched(h: Heap, p: nat, ext: nat): Heap
    requires p in h.bs && h.epi in h.bs && p < h.epi
  {
    var g := Grown(h, ext);
    g.(bs := Fuse(g.bs, p, g.epi, false))
  }

  /** What p could grow to by absorbing its free neighbours. */
  function RoomAround(h: Heap, p: nat): int
    requires p in h.bs
  {
    MergeEnd(h.bs, p) - MergeStart(h.bs, p)
  }

  /** Block p merged with its free neighbours, still free and pending. */
  function Gathered(h: Heap, p: nat): Heap
    requires Sound(h, {}) && LiveBlock(h, p)
  {
    ReleasedSound(h, p);
    Coalesce(Released(h, p), p)
  }

  lemma FreeLiveBefore(h: Heap, p: nat)
    requires Sound(h, {}) && LiveBlock(h, p)
    ensures LiveKept(h, Gathered(h, p), {p}) && LiveKept(Gathered(h, p), h, {})
  {
    FreeLive(h, p);
    var h', f := Gathered(h, p), Free(h, p);
    forall b ensures LiveBlock(h', b) <==> LiveBlock(f, b) {}
    forall b | LiveBlock(h, b) && b != p ensures LiveBlock(h', b) && h'.bs[b].size == h.bs[b].size {
      assert LiveBlock(f, b);
    }
    forall b | LiveBlock(h', b) ensures LiveBlock(h, b) && h.bs[b].size == h'.bs[b].size {
      assert LiveBlock(f, b);
    }
  }

  lemma GatheredHeld(h: Heap, p: nat, asize: nat)
    requires Sound(h, {}) && LiveBlock(h, p) && 16 <= asize <= RoomAround(h, p) && asize % 8 == 0
    ensures Held(Gathered(h, p), MergeStart(h.bs, p), asize)
    ensures Gathered(h, p).bs[MergeStart(h.bs, p)].size == RoomAround(h, p) && Gathered(h, p).epi == h.epi
    ensures NextOf(Gathered(h, p).bs, MergeStart(h.bs, p)) == MergeEnd(h.bs, p)
    ensures LiveKept(h, Gathered(h, p), {p}) && LiveKept(Gathered(h, p), h, {})
  {
    ReleasedSound(h, p);
    var h1 := Released(h, p);
    assert Fits(h.bs, h.epi, p);
    assert MergeStart(h1.bs, p) == MergeStart(h.bs, p) && MergeEnd(h1.bs, p) == MergeEnd(h.bs, p);
    MergeBounds(h1.bs, h1.epi, p);
    CoalesceSound(h1, p);
    CoalesceSeparates(h1, p);
    FreeLiveBefore(h, p);
  }

  /** asize bytes at the front of the gathered block are handed out again. */
  function Resettled(h: Heap, p: nat, asize: nat): Heap
    requires Sound(h, {}) && LiveBlock(h, p) && 16 <= asize <= RoomAround(h, p) && asize % 8 == 0
  {
    GatheredHeld(h, p, asize);
    var g, r := Gathered(h, p), MergeStart(h.bs, p);
    var q := NextOf(g.bs, r);
    if RoomAround(h, p) - asize >= 16 then g.(bs := Split(g.bs, r, r + asize, q, false, true), fl := [r + asize] + g.fl)
    else g.(bs := Fuse(g.bs, r, q, false))
  }

  /** h' is h after block p of h became block r of size at least asize. */
  ghost predicate Reallocated(h: Heap, h': Heap, p: nat, r: nat, asize: nat) {
    && Sound(h', {}) && LiveBlock(h', r) && h'.bs[r].size >= asize
    && LiveKept(h, h', {p}) && LiveKept(h', h, {r}) && (r != p ==> !LiveBlock(h', p) && !LiveBlock(h, r))
  }

  lemma ResettledPlaces(h: Heap, p: nat, asize: nat)
    requires Sound(h, {}) && LiveBlock(h, p) && 16 <= asize <= RoomAround(h, p) && asize % 8 == 0
    ensures Placed(Gathered(h, p), Resettled(h, p, asize), MergeStart(h.bs, p), asize, MergeStart(h.bs, p))
  {
    GatheredHeld(h, p, asize);
    var g, r := Gathered(h, p), MergeStart(h.bs, p);
    if RoomAround(h, p) - asize >= 16 {
      PlacePartSound(g, r, asize, r + asize, true);
    } else {
      PlaceWholeSound(g, r, asize);
    }
  }

  lemma StartIsFree(h: Heap, p: nat)
    requires p in h.bs
    ensures MergeStart(h.bs, p) != p ==> !LiveBlock(h, MergeStart(h.bs, p))
  {
  }

  /** A placement in g, which has the live blocks of h but for p, as seen from h. */
  lemma ThroughPlaced(h: Heap, g: Heap, h': Heap, p: nat, asize: nat, r: nat)
    requires Placed(g, h', r, asize, r) && !LiveBlock(g, p)
    requires LiveKept(h, g, {p}) && LiveKept(g, h, {})
    ensures LiveKept(h, h', {p}) && LiveKept(h', h, {r}) && (r != p ==> !LiveBlock(h', p))
  {
    LiveKeptTwice(h, g, h', {p}, {});
    forall b | LiveBlock(h', b) && b != r ensures LiveBlock(h, b) && h.bs[b].size == h'.bs[b].size {
      assert LiveBlock(g, b);
    }
    assert LiveBlock(h', p) && p !in {r} ==> LiveBlock(g, p);
  }

  lemma GatheredSwallows(h: Heap, p: nat)
    requires Sound(h, {}) && LiveBlock(h, p)
    ensures !LiveBlock(Gathered(h, p), p)
  {
    FreeLive(h, p);
    var h', f := Gathered(h, p), Free(h, p);
    assert LiveBlock(h', p) == LiveBlock(f, p);
  }

  lemma ResettledSound(h: Heap, p: nat, asize: nat)
    requires Sound(h, {}) && LiveBlock(h, p) && 16 <= asize <= RoomAround(h, p) && asize % 8 == 0
    ensures Reallocated(h, Resettled(h, p, asize), p, MergeStart(h.bs, p), asize)
    ensures Resettled(h, p, asize).epi == h.epi
  {
    hide Sound, Resettled, Gathered;
    GatheredHeld(h, p, asize);
    ResettledPlaces(h, p, asize);
    GatheredSwallows(h, p);
    ThroughPlaced(h, Gathered(h, p), Resettled(h, p, asize), p, asize, MergeStart(h.bs, p));
    StartIsFree(h, p);
  }

  lemma StretchedLive(h: Heap, p: nat, ext: nat)
    requires Sound(h, {}) && LiveBlock(h, p) && NextOf(h.bs, p) == h.epi && ext >= 8 && p < h.epi
    ensures var h' := Stretched(h, p, ext); LiveBlock(h', p) && LiveKept(h, h', {p}) && LiveKept(h', h, {p})
  {
    var h' := Stretched(h, p, ext);
    forall b | LiveBlock(h, b) && b != p ensures LiveBlock(h', b) && h'.bs[b].size == h.bs[b].size {
      assert Fits(h.bs, h.epi, b) && Apart(h.bs, p, b);
    }
  }

  lemma StretchedSound(h: Heap, p: nat, ext: nat)
    requires Sound(h, {}) && LiveBlock(h, p) && NextOf(h.bs, p) == h.epi && ext >= 8 && ext % 8 == 0
    ensures p < h.epi && Reallocated(h, Stretched(h, p, ext), p, p, h.bs[p].size + ext)
    ensures Stretched(h, p, ext).epi == h.epi + ext && Stretched(h, p, ext).fl == h.fl
  {
    var g := Grown(h, ext);
    assert Fits(h.bs, h.epi, p) && Fits(h.bs, h.epi, h.epi);
    ExtendTiles(h.bs, h.epi, ext);
    ExtendAligns(h.bs, h.epi, ext);
    ExtendAccounted(h, ext);
    GrownKeepsLive(h, ext);
    assert Listed(g, {h.epi}, p) && Listed(g, {h.epi}, h.epi) && Listed(h, {}, p);
    forall b | b in g.bs && p <= b < g.epi ensures b !in g.fl {
      assert Apart(g.bs, p, b) && Apart(g.bs, h.epi, b);
    }
    FuseAccounted(g, {h.epi}, p, g.epi, false);
    assert FusePending({h.epi}, p, g.epi, false) == {};
    FuseTiles(g.bs, g.epi, p, g.epi, false);
    FuseAligns(g.bs, p, g.epi, false);
    StretchedLive(h, p, ext);
  }

  lemma LiveBlockBounds(h: Heap, p: nat)
    requires Sound(h, {}) && LiveBlock(h, p)
    ensures FIRST <= p < h.epi && p + 16 <= NextOf(h.bs, p) <= h.epi && NextOf(h.bs, p) in h.bs && h.bs[p].size % 8 == 0
  {
    assert Fits(h.bs, h.epi, p) && Listed(h, {}, p) && Apart(h.bs, PROLOGUE, p) && Apart(h.bs, p, h.epi);
  }

  /** mm_realloc of live block p: the heap afterwards and the address returned. */
  function Realloc(h: Heap, p: nat, size: nat): (Heap, nat)
    requires Sound(h, {}) && LiveBlock(h, p)
  {
    AllocSizeAligned(size);
    LiveBlockBounds(h, p);
    var asize := AllocSize(size);
    if size == 0 then (Free(h, p), NULL)
    else if asize <= h.bs[p].size then (h, p)
    else if NextOf(h.bs, p) == h.epi then
      if h.epi + (asize - h.bs[p].size) > MAX_HEAP then (h, NULL) else (Stretched(h, p, asize - h.bs[p].size), p)
    else if asize <= RoomAround(h, p) then (Resettled(h, p, asize), MergeStart(h.bs, p))
    else
      MallocSound(h, size);
      var (h1, r) := Malloc(h, size);
      if r == NULL then (h, NULL) else (Free(h1, p), r)
  }

  lemma MoveSound(h: Heap, p: nat, size: nat)
    requires Sound(h, {}) && LiveBlock(h, p) && size > 0 && Malloc(h, size).1 != NULL
    ensures var (h1, r) := Malloc(h, size);
      Sound(h1, {}) && LiveBlock(h1, p) && r != p && Reallocated(h, Free(h1, p), p, r, AllocSize(size))
  {
    hide Malloc, Free, Grants, Frees, Sound;
    MallocSound(h, size);
    var (h1, r) := Malloc(h, size);
    FreeSound(h1, p);
    var h' := Free(h1, p);
    LiveKeptTwice(h, h1, h', {p}, {p});
    forall b | LiveBlock(h', b) && b != r ensures LiveBlock(h, b) && h.bs[b].size == h'.bs[b].size {
      assert LiveBlock(h1, b);
    }
  }

  /** Block p and its free neighbours, together roomy enough, are one block of asize bytes, or of
      all there is if less than 16 bytes would be left. */
  ghost predicate Merges(h: Heap, p: nat, asize: nat, h': Heap, r: nat) {
    && p in h.bs && h'.epi == h.epi && LiveBlock(h', r)
    && var b, n := h.bs[p].prev, p + h.bs[p].size;
      var before, behind := b in h.bs && h.bs[b].free, n in h.bs && h.bs[n].free;
      var room := h.bs[p].size + (if before then h.bs[b].size else 0) + (if behind then h.bs[n].size else 0);
      var fl := Without(Without(h.fl, b), n);
      && asize <= room && r == (if before then b else p)
      && if room - asize < 16 then h'.bs[r].size == room && h'.fl == fl
         else h'.bs[r].size == asize && IsFree(h'.bs, r + asize) && h'.fl == [r + asize] + fl
  }

  /** A fresh block is granted, and p is freed. */
  ghost predicate Moves(h: Heap, p: nat, size: nat, h': Heap, r: nat) {
    exists h1: Heap {:trigger Grants(h, size, h1, r)} :: Grants(h, size, h1, r)
      && if r == NULL then h' == h else Allocated(h, h1, size, r) && LiveBlock(h1, p) && Frees(h1, p, h')
  }

  /** What mm_realloc of block p makes of heap h, said with its blocks and their sizes: a block that
      is large enough stays; the last one grows in place, if the arena has room; a block that is
      large enough with its free neighbours takes them over, and is where the first of them was;
      only if it is not does it move. */
  ghost predicate Regrants(h: Heap, p: nat, size: nat, h': Heap, r: nat)
    requires p in h.bs
  {
    var a, b, n := AllocSize(size), h.bs[p].prev, p + h.bs[p].size;
    if size == 0 then r == NULL && Frees(h, p, h')
    else if a <= h.bs[p].size then h' == h && r == p
    else if n == h.epi then
      if p + a > 20 * 0x10_0000 then h' == h && r == NULL
      else r == p && h'.epi == p + a && LiveBlock(h', p) && h'.bs[p].size == a && h'.fl == h.fl
    else if a <= h.bs[p].size + (if b in h.bs && h.bs[b].free then h.bs[b].size else 0)
                              + (if n in h.bs && h.bs[n].free then h.bs[n].size else 0) then
      Merges(h, p, a, h', r)
    else Moves(h, p, size, h', r)
  }

  lemma RoomIs(h: Heap, p: nat)
    requires Sound(h, {}) && LiveBlock(h, p)
    ensures var b, n := PrevOf(h.bs, p), NextOf(h.bs, p);
      RoomAround(h, p) ==
        h.bs[p].size + (if IsFree(h.bs, b) then h.bs[b].size else 0) + (if IsFree(h.bs, n) then h.bs[n].size else 0)
  {
    assert Fits(h.bs, h.epi, p) && Fits(h.bs, h.epi, NextOf(h.bs, p));
  }

  lemma ResettledMerges(h: Heap, p: nat, asize: nat)
    requires Sound(h, {}) && LiveBlock(h, p) && 16 <= asize <= RoomAround(h, p) && asize % 8 == 0
    ensures Merges(h, p, asize, Resettled(h, p, asize), MergeStart(h.bs, p))
  {
    hide Sound, Without, AllocSize;
    GatheredHeld(h, p, asize);
    ResettledSound(h, p, asize);
    RoomIs(h, p);
    NeighboursLeave(h, p);
    assert Gathered(h, p).fl == Without(Without(h.fl, PrevOf(h.bs, p)), NextOf(h.bs, p));
  }

  lemma MoveMoves(h: Heap, p: nat, size: nat)
    requires Sound(h, {}) && LiveBlock(h, p) && size > 0
    ensures Sound(Malloc(h, size).0, {})
    ensures Malloc(h, size).1 != NULL ==> LiveBlock(Malloc(h, size).0, p)
    ensures var (h1, r) := Malloc(h, size); Moves(h, p, size, if r == NULL then h else Free(h1, p), r)
  {
    hide Malloc, Grants, Frees, Allocated, Sound;
    MallocSound(h, size);
    var (h1, r) := Malloc(h, size);
    if r != NULL {
      MoveSound(h, p, size);
      FreeSound(h1, p);
    }
  }

  lemma StretchedSize(h: Heap, p: nat, ext: nat)
    requires p in h.bs && h.epi in h.bs && p < h.epi && NextOf(h.bs, p) == h.epi && ext > 0
    ensures p in Stretched(h, p, ext).bs && Stretched(h, p, ext).bs[p].size == h.bs[p].size + ext
  {
  }

  lemma ReallocRegrants(h: Heap, p: nat, size: nat)
    requires Sound(h, {}) && LiveBlock(h, p)
    ensures Regrants(h, p, size, Realloc(h, p, size).0, Realloc(h, p, size).1)
  {
    hide Sound, Malloc, Resettled, Stretched, RoomAround, Moves, Merges, Frees, Free;
    AllocSizeAligned(size);
    LiveBlockBounds(h, p);
    RoomIs(h, p);
    var asize := AllocSize(size);
    if size == 0 {
      FreeSound(h, p);
    } else if asize <= h.bs[p].size {
    } else if NextOf(h.bs, p) == h.epi {
      DifferenceAligns(asize, h.bs[p].size);
      PositiveEight(asize - h.bs[p].size);
      StretchedSound(h, p, asize - h.bs[p].size);
      StretchedSize(h, p, asize - h.bs[p].size);
    } else if asize <= RoomAround(h, p) {
      ResettledMerges(h, p, asize);
    } else {
      MoveMoves(h, p, size);
    }
  }

  lemma StartIsPayload(h: Heap, p: nat)
    requires Sound(h, {}) && LiveBlock(h, p)
    ensures MergeStart(h.bs, p) != NULL && PROLOGUE < MergeStart(h.bs, p) <= p
  {
    ReleasedSound(h, p);
    MergeBounds(h.bs, h.epi, p);
  }

  lemma ReallocKeeps(h: Heap, p: nat, size: nat)
    requires Sound(h, {}) && LiveBlock(h, p)
    ensures var (h', r) := Realloc(h, p, size);
      && (size == 0 ==> r == NULL && h' == Free(h, p))
      && (size > 0 && r == NULL ==> h' == h)
      && (size > 0 && r != NULL ==>
           Reallocated(h, h', p, r, if AllocSize(size) <= h.bs[p].size then h.bs[p].size else AllocSize(size)))
  {
    hide Sound, Malloc, Resettled, Stretched, RoomAround;
    AllocSizeAligned(size);
    LiveBlockBounds(h, p);
    var asize := AllocSize(size);
    if size == 0 || asize <= h.bs[p].size {
    } else if NextOf(h.bs, p) == h.epi {
      DifferenceAligns(asize, h.bs[p].size);
      PositiveEight(asize - h.bs[p].size);
      StretchedSound(h, p, asize - h.bs[p].size);
    } else if asize <= RoomAround(h, p) {
      ResettledSound(h, p, asize);
      StartIsPayload(h, p);
    } else {
      MallocSound(h, size);
      if Malloc(h, size).1 != NULL { MoveSound(h, p, size); }
    }
  }

  /** mm_realloc: null with a size means that nothing changed; otherwise p is now a block
      at r that is large enough, and every other live block is as it was.  Which block it is. */
  lemma ReallocSound(h: Heap, p: nat, size: nat)
    requires Sound(h, {}) && LiveBlock(h, p)
    ensures var (h', r) := Realloc(h, p, size);
      && (size == 0 ==> r == NULL && h' == Free(h, p))
      && (size > 0 && r == NULL ==> h' == h)
      && (size > 0 && r != NULL ==>
           Reallocated(h, h', p, r, if AllocSize(size) <= h.bs[p].size then h.bs[p].size else AllocSize(size)))
      && Regrants(h, p, size, h', r)
  {
    hide Realloc, Regrants, Reallocated, Sound, Free;
    ReallocKeeps(h, p, size);
    ReallocRegrants(h, p, size);
  }

  /** mm_free does not see the difference between two heaps with the same table. */
  lemma FreesAlike(h1: Heap, h2: Heap, p: nat, h': Heap)
    requires SameTable(h1, h2) && Sound(h1, {}) && LiveBlock(h1, p) && Frees(h2, p, h')
    ensures Frees(h1, p, h')
  {
    hide Without;
    assert Fits(h1.bs, h1.epi, p);
    forall b | LiveBlock(h1, b) && b != p ensures LiveBlock(h', b) && h'.bs[b].size == h1.bs[b].size {
      assert LiveBlock(h2, b);
    }
    forall b | LiveBlock(h', b) ensures LiveBlock(h1, b) && h1.bs[b].size == h'.bs[b].size {
      assert LiveBlock(h2, b);
    }
  }

  lemma MovesDetermines(h: Heap, p: nat, size: nat, h': Heap, r: nat)
    requires Sound(h, {}) && LiveBlock(h, p) && size > 0 && Moves(h, p, size, h', r) && (r != NULL ==> Sound(h', {}))
    ensures r == Malloc(h, size).1 && (r == NULL ==> h' == h)
    ensures r != NULL ==> Sound(Malloc(h, size).0, {}) && LiveBlock(Malloc(h, size).0, p)
    ensures r != NULL ==> SameTable(Free(Malloc(h, size).0, p), h')
  {
    hide Malloc, Free, Sound, Grants, Frees, SameTable, Allocated, LiveBlock;
    var h2: Heap :| Grants(h, size, h2, r)
      && if r == NULL then h' == h else Allocated(h, h2, size, r) && LiveBlock(h2, p) && Frees(h2, p, h');
    GrantsDetermines(h, size, h2, r);
    if r != NULL {
      MoveMoves(h, p, size);
      FreesAlike(Malloc(h, size).0, h2, p, h');
      FreesDetermines(Malloc(h, size).0, p, h');
    }
  }

  /** Two heaps with the live blocks of h, but with r of the same size in place of p. */
  lemma ReplacedAlike(h: Heap, h1: Heap, h2: Heap, p: nat, r: nat)
    requires LiveKept(h1, h, {r}) && LiveKept(h, h2, {p}) && (r != p ==> !LiveBlock(h1, p))
    requires LiveBlock(h1, r) && LiveBlock(h2, r) && h1.bs[r].size == h2.bs[r].size
    ensures LiveKept(h1, h2, {})
  {
    forall b | LiveBlock(h1, b) ensures LiveBlock(h2, b) && h2.bs[b].size == h1.bs[b].size {
      assert b != r ==> LiveBlock(h, b);
    }
  }

  lemma ReplacedDetermines(h: Heap, h1: Heap, h2: Heap, p: nat, r: nat, a1: nat, a2: nat)
    requires Reallocated(h, h1, p, r, a1) && Reallocated(h, h2, p, r, a2) && h1.bs[r].size == h2.bs[r].size
    requires h1.epi == h2.epi && h1.fl == h2.fl
    ensures SameTable(h1, h2)
  {
    hide Sound;
    ReplacedAlike(h, h1, h2, p, r);
    ReplacedAlike(h, h2, h1, p, r);
    LiveBlocksDetermineTable(h1, h2);
  }

  lemma SameTableTwice(h: Heap, h1: Heap, h2: Heap)
    requires SameTable(h, h1) && SameTable(h, h2)
    ensures SameTable(h1, h2)
  {
  }

  /** The heap that mm_realloc leaves is sound. */
  lemma ReallocStays(h: Heap, p: nat, size: nat)
    requires Sound(h, {}) && LiveBlock(h, p) && size > 0
    ensures Sound(Realloc(h, p, size).0, {})
  {
    hide Sound, Realloc;
    ReallocSound(h, p, size);
  }

  /** What is said of mm_realloc leaves it no choice: any result that meets it is this one. */
  lemma RegrantsDetermines(h: Heap, p: nat, size: nat, h': Heap, r: nat)
    requires Sound(h, {}) && LiveBlock(h, p) && Regrants(h, p, size, h', r)
    requires Sound(h', {}) && (size > 0 && r != NULL ==> Reallocated(h, h', p, r, 0))
    ensures r == Realloc(h, p, size).1 && SameTable(Realloc(h, p, size).0, h')
  {
    hide Realloc, Sound, Moves, Frees, Reallocated, Free, Malloc, Without;
    ReallocSound(h, p, size);
    var (h1, r1) := Realloc(h, p, size);
    var a1 := if AllocSize(size) <= h.bs[p].size then h.bs[p].size else AllocSize(size);
    if size == 0 {
      FreesDetermines(h, p, h');
    } else if Moves(h, p, size, h', r) && Moves(h, p, size, h1, r1) {
      ReallocStays(h, p, size);
      MovesDetermines(h, p, size, h', r);
      MovesDetermines(h, p, size, h1, r1);
      if r != NULL { SameTableTwice(Free(Malloc(h, size).0, p), h1, h'); }
    } else if r != NULL && r1 != NULL && AllocSize(size) > h.bs[p].size {
      assert r1 == r && h1.bs[r].size == h'.bs[r].size && h1.epi == h'.epi && h1.fl == h'.fl by { hide SameTable; }
      ReplacedDetermines(h, h1, h', p, r, a1, 0);
    }
  }
}
