/** mm_malloc on block tables. */
module SpecMalloc {
  import opened MemLib
  import opened HeapShape
  import opened FreeRing
  import opened HeapTable
  import opened HeapSpec

  const NULL: nat := 0
  const CHUNKSIZE: nat := 4096

  // The size of the block that serves a request

  function Align(size: nat): nat {
    (size + 7) / 8 * 8
  }

  function AllocSize(size: nat): nat {
    var a := if Align(size) - size >= 4 then Align(size) else Align(size) + 8;
    if a > 16 then a else 16
  }

  /** The least block size that is a multiple of 8, at least 16, and leaves room for a header. */
  lemma AllocSizeIsLeast(size: nat)
    ensures AllocSize(size) % 8 == 0 && AllocSize(size) >= 16 && AllocSize(size) >= size + 4
    ensures forall a: nat :: a % 8 == 0 && a >= 16 && a >= size + 4 ==> AllocSize(size) <= a
  {
    var q := (size + 7) / 8;
    assert Align(size) == 8 * q && 8 * q - 7 <= size <= 8 * q;
    forall a: nat | a % 8 == 0 && a >= 16 && a >= size + 4 ensures AllocSize(size) <= a {
      assert a == 8 * (a / 8);
    }
  }

  // Best fit

  function Better(bs: Blocks, asize: nat, best: nat, x: nat): nat
    requires x in bs && (best == NULL || best in bs)
  {
    if bs[x].size >= asize && (best == NULL || bs[x].size < bs[best].size) then x else best
  }

  /** The search of find_fit_at_list over the entries fl, starting from the candidate best. */
  function BestFit(bs: Blocks, fl: seq<nat>, asize: nat, best: nat): nat
    requires forall i {:trigger fl[i]} :: 0 <= i < |fl| ==> fl[i] in bs
    requires best == NULL || best in bs
  {
    if fl == [] then best else BestFit(bs, fl[1..], asize, Better(bs, asize, best, fl[0]))
  }

  lemma BestFitStep(bs: Blocks, fl: seq<nat>, asize: nat, best: nat, i: nat)
    requires forall i {:trigger fl[i]} :: 0 <= i < |fl| ==> fl[i] in bs
    requires best == NULL || best in bs
    requires i < |fl|
    ensures BestFit(bs, fl[i..], asize, best) == BestFit(bs, fl[i + 1..], asize, Better(bs, asize, best, fl[i]))
  {
    assert fl[i..][1..] == fl[i + 1..];
  }

  lemma BestFitOfNone(bs: Blocks, asize: nat, best: nat)
    requires best == NULL || best in bs
    ensures BestFit(bs, [], asize, best) == best
  {
  }

  ghost predicate Beats(bs: Blocks, asize: nat, r: nat, x: nat)
    requires r in bs && x in bs
  {
    bs[x].size >= asize ==> bs[r].size <= bs[x].size
  }

  lemma {:induction false} BestFitAmong(bs: Blocks, fl: seq<nat>, asize: nat, best: nat)
    requires forall i {:trigger fl[i]} :: 0 <= i < |fl| ==> fl[i] in bs
    requires best == NULL || (best in bs && bs[best].size >= asize)
    requires forall i {:trigger fl[i]} :: 0 <= i < |fl| ==> fl[i] != NULL
    ensures var r := BestFit(bs, fl, asize, best);
      && (r == NULL <==> best == NULL && forall i {:trigger fl[i]} :: 0 <= i < |fl| ==> bs[fl[i]].size < asize)
      && (r != NULL ==> r in bs && bs[r].size >= asize && (r == best || r in fl))
      && (r != NULL ==> forall i {:trigger fl[i]} :: 0 <= i < |fl| ==> Beats(bs, asize, r, fl[i]))
      && (r != NULL && best != NULL ==> bs[r].size <= bs[best].size && (r != best ==> bs[r].size < bs[best].size))
  {
    if fl != [] {
      var rest := fl[1..];
      assert forall i {:trigger rest[i]} :: 0 <= i < |rest| ==> rest[i] == fl[i + 1];
      BestFitAmong(bs, rest, asize, Better(bs, asize, best, fl[0]));
      assert fl == [fl[0]] + rest;
      forall i | 0 <= i < |fl| && BestFit(bs, fl, asize, best) == NULL ensures bs[fl[i]].size < asize {
        assert i > 0 ==> fl[i] == rest[i - 1];
      }
      forall i | 0 <= i < |fl| && BestFit(bs, fl, asize, best) != NULL
        ensures Beats(bs, asize, BestFit(bs, fl, asize, best), fl[i])
      {
        assert i > 0 ==> fl[i] == rest[i - 1];
      }
    }
  }

  /** Among equally good blocks the first one in list order is chosen. */
  lemma {:induction false} BestFitIsEarliest(bs: Blocks, fl: seq<nat>, asize: nat, best: nat, k: nat)
    requires forall i {:trigger fl[i]} :: 0 <= i < |fl| ==> fl[i] in bs && fl[i] != NULL
    requires best == NULL || (best in bs && bs[best].size >= asize)
    requires Distinct(fl) && best !in fl
    requires k < |fl| && BestFit(bs, fl, asize, best) == fl[k]
    ensures best != NULL ==> bs[fl[k]].size < bs[best].size
    ensures forall i {:trigger fl[i]} :: 0 <= i < k && bs[fl[i]].size >= asize ==> bs[fl[k]].size < bs[fl[i]].size
  {
    var rest := fl[1..];
    assert forall i {:trigger rest[i]} :: 0 <= i < |rest| ==> rest[i] == fl[i + 1];
    TailDistinct(fl);
    var b1 := Better(bs, asize, best, fl[0]);
    if k > 0 {
      assert rest[k - 1] == fl[k];
      BestFitIsEarliest(bs, rest, asize, b1, k - 1);
      forall i | 0 <= i < k && bs[fl[i]].size >= asize ensures bs[fl[k]].size < bs[fl[i]].size {
        assert i > 0 ==> fl[i] == rest[i - 1];
      }
    } else {
      BestFitAmong(bs, rest, asize, b1);
    }
  }

  // Placement

  /** p is a free block that its holder may hand out, in whole or in part. */
  ghost predicate Held(h: Heap, p: nat, asize: nat) {
    && Sound(h, {p}) && p in h.bs && PROLOGUE < p && p != h.epi
    && NextOf(h.bs, p) in h.bs && BetweenAllocated(h.bs, p)
    && 16 <= asize <= h.bs[p].size && asize % 8 == 0
  }

  lemma HeldBlock(h: Heap, p: nat)
    requires Sound(h, {p}) && PROLOGUE < p && p != h.epi
    ensures h.bs[p].free && p !in h.fl && p + 8 <= NextOf(h.bs, p) && NextOf(h.bs, p) in h.bs
    ensures forall b {:trigger b in h.bs} :: b in h.bs && p <= b < NextOf(h.bs, p) ==> b == p
  {
    assert Listed(h, {p}, p) && Fits(h.bs, h.epi, p);
    forall b | b in h.bs && p <= b < NextOf(h.bs, p) ensures b == p {
      assert Apart(h.bs, p, b);
    }
  }

  /** h' is h after asize bytes of pending block p were handed out at r. */
  ghost predicate Placed(h: Heap, h': Heap, p: nat, asize: nat, r: nat) {
    && p in h.bs && Sound(h', {}) && h'.epi == h.epi
    && LiveBlock(h', r) && (h'.bs[r].size == asize || h'.bs[r].size == asize + 8)
    && p <= r && r + h'.bs[r].size <= NextOf(h.bs, p)
    && LiveKept(h, h', {}) && LiveKept(h', h, {r})
  }

  /** asize bytes of a free block of the given size at p, which is off the list fl, were handed out
      at r: the whole block if less than 16 bytes would be left; its front if the request is below
      96 bytes or less than 32 are left; otherwise its back.  What is left is a free block, and
      the first one of the list. */
  ghost predicate Carved(fl: seq<nat>, p: nat, size: nat, asize: nat, h': Heap, r: nat) {
    && asize <= size && LiveBlock(h', r)
    && var rest := size - asize;
      if rest < 16 then r == p && h'.bs[r].size == size && h'.fl == fl
      else
        && var free := if asize < 96 || rest < 32 then p + asize else p;
          r == (if free == p then p + rest else p) && h'.bs[r].size == asize
          && IsFree(h'.bs, free) && h'.bs[free].size == rest && h'.fl == [free] + fl
  }

  lemma RestOfEight(size: nat, asize: nat)
    requires size % 8 == 0 && asize % 8 == 0 && asize <= size < asize + 16
    ensures size == asize || size == asize + 8
  {
  }

  lemma PlaceWholeSound(h: Heap, p: nat, asize: nat)
    requires Held(h, p, asize) && h.bs[p].size - asize < 16
    ensures Placed(h, Place(h, p, asize).0, p, asize, Place(h, p, asize).1)
  {
    var q := NextOf(h.bs, p);
    HeldBlock(h, p);
    FuseTiles(h.bs, h.epi, p, q, false);
    FuseAligns(h.bs, p, q, false);
    FuseAccounted(h, {p}, p, q, false);
    assert FusePending({p}, p, q, false) == {};
    RestOfEight(h.bs[p].size, asize);
  }

  lemma PlacePartSound(h: Heap, p: nat, asize: nat, m: nat, low: bool)
    requires Held(h, p, asize) && m == (if low then p + asize else NextOf(h.bs, p) - asize)
    requires h.bs[p].size - asize >= 16
    ensures var bs' := Split(h.bs, p, m, NextOf(h.bs, p), !low, low);
      Placed(h, h.(bs := bs', fl := [if low then m else p] + h.fl), p, asize, if low then p else m)
  {
    var q, f := NextOf(h.bs, p), if low then m else p;
    HeldBlock(h, p);
    DifferenceAligns(p, asize);
    DifferenceAligns(q, asize);
    assert Fits(h.bs, h.epi, p) && Fits(h.bs, h.epi, q);
    SplitTiles(h.bs, h.epi, p, m, q, !low, low);
    SplitAligns(h.bs, p, m, q, !low, low);
    SplitAccounted(h, {p}, p, m, q, !low, low);
    assert SplitPending({p}, p, m, !low, low) == {f};
    var h1 := h.(bs := Split(h.bs, p, m, q, !low, low));
    InsertAccounted(h1, {f}, f);
    assert {f} - {f} == {};
  }

  lemma PlaceSound(h: Heap, p: nat, asize: nat)
    requires Held(h, p, asize)
    ensures Placed(h, Place(h, p, asize).0, p, asize, Place(h, p, asize).1)
    ensures Carved(h.fl, p, h.bs[p].size, asize, Place(h, p, asize).0, Place(h, p, asize).1)
  {
    if h.bs[p].size - asize < 16 {
      PlaceWholeSound(h, p, asize);
    } else if asize < 96 || h.bs[p].size - asize < 32 {
      PlacePartSound(h, p, asize, p + asize, true);
    } else {
      PlacePartSound(h, p, asize, NextOf(h.bs, p) - asize, false);
    }
  }

  // mm_malloc

  function Fit(h: Heap, asize: nat): nat
    requires Accounted(h, {})
  {
    BestFit(h.bs, h.fl, asize, NULL)
  }

  function TailSize(h: Heap): nat
    requires h.epi in h.bs
  {
    if IsFree(h.bs, PrevOf(h.bs, h.epi)) then h.bs[PrevOf(h.bs, h.epi)].size else 0
  }

  /** How much the heap grows when nothing fits: a free tail block counts. */
  function Growth(h: Heap, asize: nat): int
    requires h.epi in h.bs
  {
    (if asize > CHUNKSIZE then asize else CHUNKSIZE) - TailSize(h)
  }

  lemma ListedFacts(h: Heap)
    requires Sound(h, {})
    ensures forall i {:trigger h.fl[i]} :: 0 <= i < |h.fl| ==> h.fl[i] in h.bs && h.fl[i] != NULL
    ensures forall b {:trigger b in h.fl} :: b in h.fl ==> b in h.bs && h.bs[b].free && FIRST <= b && b != h.epi
  {
    forall b | b in h.fl ensures b in h.bs && h.bs[b].free && FIRST <= b && b != h.epi {
      assert Listed(h, {}, b) && Fits(h.bs, h.epi, b) && Apart(h.bs, PROLOGUE, b);
    }
    forall i | 0 <= i < |h.fl| ensures h.fl[i] in h.bs && h.fl[i] != NULL {
      assert h.fl[i] in h.fl;
    }
  }

  /** find_fit_at_list: null exactly when nothing fits, otherwise the smallest block that
      fits, the first in list order among equals. */
  lemma FitIsBest(h: Heap, asize: nat)
    requires Sound(h, {})
    ensures Fit(h, asize) == NULL <==> forall b {:trigger b in h.fl} :: b in h.fl ==> h.bs[b].size < asize
    ensures Fit(h, asize) != NULL ==> exists k ::
      && 0 <= k < |h.fl| && h.fl[k] == Fit(h, asize) && h.bs[h.fl[k]].size >= asize
      && (forall i :: 0 <= i < |h.fl| && h.bs[h.fl[i]].size >= asize ==> h.bs[h.fl[k]].size <= h.bs[h.fl[i]].size)
      && (forall i :: 0 <= i < k && h.bs[h.fl[i]].size >= asize ==> h.bs[h.fl[k]].size < h.bs[h.fl[i]].size)
  {
    ListedFacts(h);
    BestFitAmong(h.bs, h.fl, asize, NULL);
    if Fit(h, asize) == NULL {
      forall b | b in h.fl ensures h.bs[b].size < asize {
        var i :| 0 <= i < |h.fl| && h.fl[i] == b;
      }
    } else {
      var k :| 0 <= k < |h.fl| && h.fl[k] == Fit(h, asize);
      BestFitIsEarliest(h.bs, h.fl, asize, NULL, k);
      forall i | 0 <= i < |h.fl| && h.bs[h.fl[i]].size >= asize ensures h.bs[h.fl[k]].size <= h.bs[h.fl[i]].size {
        assert Beats(h.bs, asize, h.fl[k], h.fl[i]);
      }
    }
  }

  function Taken(h: Heap, t: nat): Heap {
    h.(fl := Without(h.fl, t))
  }

  /** Entry k of the list is the smallest block of at least asize bytes, and the first of those. */
  ghost predicate FitsBest(h: Heap, asize: nat, k: nat) {
    && k < |h.fl| && h.fl[k] in h.bs && h.bs[h.fl[k]].size >= asize
    && (forall i {:trigger h.fl[i]} :: 0 <= i < |h.fl| && h.fl[i] in h.bs && h.bs[h.fl[i]].size >= asize ==>
         h.bs[h.fl[k]].size <= h.bs[h.fl[i]].size)
    && (forall i {:trigger h.fl[i]} :: 0 <= i < k && h.fl[i] in h.bs && h.bs[h.fl[i]].size >= asize ==>
         h.bs[h.fl[k]].size < h.bs[h.fl[i]].size)
  }

  lemma FitHeld(h: Heap, asize: nat)
    requires Sound(h, {}) && Fit(h, asize) != NULL && asize >= 16 && asize % 8 == 0
    ensures Fit(h, asize) in h.fl && Held(Taken(h, Fit(h, asize)), Fit(h, asize), asize)
  {
    var t := Fit(h, asize);
    ListedFacts(h);
    BestFitAmong(h.bs, h.fl, asize, NULL);
    EraseAccounted(h, {}, t);
    assert {} + {t} == {t};
    assert Fits(h.bs, h.epi, t) && Coalesced(h, {}, t) && Coalesced(h, {}, PrevOf(h.bs, t)) && Apart(h.bs, PROLOGUE, t);
  }

  /** The heap after extend_heap: grown by size bytes, and the tail coalesced. */
  function Enlarged(h: Heap, size: nat): Heap
    requires Tiling(h.bs, h.epi) && size >= 8
  {
    ExtendTiles(h.bs, h.epi, size);
    Coalesce(Grown(h, size), h.epi)
  }

  function TailStart(h: Heap): nat
    requires h.epi in h.bs
  {
    if IsFree(h.bs, PrevOf(h.bs, h.epi)) then PrevOf(h.bs, h.epi) else h.epi
  }

  lemma GrownKeepsLive(h: Heap, size: nat)
    requires Tiling(h.bs, h.epi) && size >= 8
    ensures LiveKept(h, Grown(h, size), {}) && !LiveBlock(h, h.epi)
  {
    var g := Grown(h, size);
    forall b | LiveBlock(h, b) ensures LiveBlock(g, b) && g.bs[b].size == h.bs[b].size {
      assert Fits(h.bs, h.epi, b);
    }
  }

  lemma LiveKeptTwice(h: Heap, h1: Heap, h': Heap, ex: set<nat>, ex1: set<nat>)
    requires LiveKept(h, h1, ex) && LiveKept(h1, h', ex1)
    requires forall b {:trigger LiveBlock(h, b)} :: LiveBlock(h, b) && b in ex1 ==> b in ex
    ensures LiveKept(h, h', ex)
  {
    forall b | LiveBlock(h, b) && b !in ex ensures LiveBlock(h', b) && h'.bs[b].size == h.bs[b].size {
      assert LiveBlock(h1, b);
    }
  }

  lemma EnlargedSound(h: Heap, size: nat)
    requires Sound(h, {}) && size >= 8 && size % 8 == 0
    ensures var h', r := Enlarged(h, size), TailStart(h);
      && Sound(h', {r}) && r in h'.bs && PROLOGUE < r && r != h'.epi && h'.epi == h.epi + size
      && NextOf(h'.bs, r) in h'.bs && BetweenAllocated(h'.bs, r) && h'.bs[r].size == TailSize(h) + size
      && LiveKept(h, h', {})
  {
    var g := Grown(h, size);
    ExtendTiles(h.bs, h.epi, size);
    ExtendAligns(h.bs, h.epi, size);
    ExtendAccounted(h, size);
    assert Fits(h.bs, h.epi, h.epi) && Apart(h.bs, PROLOGUE, h.epi);
    CoalesceSound(g, h.epi);
    CoalesceSeparates(g, h.epi);
    GrownKeepsLive(h, size);
    LiveKeptTwice(h, g, Enlarged(h, size), {}, {h.epi});
  }

  lemma GrownTail(h: Heap, size: nat)
    requires Tiling(h.bs, h.epi) && size >= 8
    ensures MergeStart(Grown(h, size).bs, h.epi) == TailStart(h)
  {
    assert Fits(h.bs, h.epi, h.epi);
  }

  lemma PositiveEight(x: int)
    requires x > 0 && x % 8 == 0
    ensures x >= 8
  {
  }

  lemma GrowthHeld(h: Heap, asize: nat)
    requires Sound(h, {}) && Fit(h, asize) == NULL && asize >= 16 && asize % 8 == 0
    ensures Growth(h, asize) >= 8 && Growth(h, asize) % 8 == 0
    ensures Held(Enlarged(h, Growth(h, asize)), TailStart(h), asize)
  {
    FitIsBest(h, asize);
    assert Fits(h.bs, h.epi, h.epi);
    assert Listed(h, {}, PrevOf(h.bs, h.epi));
    assert CHUNKSIZE % 8 == 0;
    DifferenceAligns(if asize > CHUNKSIZE then asize else CHUNKSIZE, TailSize(h));
    PositiveEight(Growth(h, asize));
    EnlargedSound(h, Growth(h, asize));
  }

  lemma AllocSizeAligned(size: nat)
    ensures AllocSize(size) % 8 == 0 && AllocSize(size) >= 16 && AllocSize(size) >= size + 4
  {
    AllocSizeIsLeast(size);
  }

  /** mm_malloc: the heap afterwards and the address returned. */
  function Malloc(h: Heap, size: nat): (Heap, nat)
    requires Sound(h, {})
  {
    if size == 0 then (h, NULL)
    else
      var asize := AllocSize(size);
      AllocSizeAligned(size);
      if Fit(h, asize) != NULL then
        FitHeld(h, asize);
        Place(Taken(h, Fit(h, asize)), Fit(h, asize), asize)
      else
        GrowthHeld(h, asize);
        if h.epi + Growth(h, asize) > MAX_HEAP then (h, NULL)
        else Place(Enlarged(h, Growth(h, asize)), TailStart(h), asize)
  }

  /** What a successful mm_malloc promises. */
  ghost predicate Allocated(h: Heap, h': Heap, size: nat, r: nat) {
    && Sound(h', {}) && LiveBlock(h', r) && !LiveBlock(h, r)
    && (h'.bs[r].size == AllocSize(size) || h'.bs[r].size == AllocSize(size) + 8)
    && LiveKept(h, h', {}) && LiveKept(h', h, {r})
    && h.epi <= h'.epi && (h.epi <= MAX_HEAP ==> h'.epi <= MAX_HEAP)
  }

  /** No listed block has asize bytes. */
  ghost predicate NothingFits(h: Heap, asize: nat) {
    forall b {:trigger b in h.fl} :: b in h.fl && b in h.bs ==> h.bs[b].size < asize
  }

  /** Entry k of the list is carved up. */
  ghost predicate CarvedEntry(h: Heap, k: nat, asize: nat, h': Heap, r: nat) {
    k < |h.fl| && h.fl[k] in h.bs && Carved(Without(h.fl, h.fl[k]), h.fl[k], h.bs[h.fl[k]].size, asize, h', r)
  }

  /** What mm_malloc makes of heap h, said with its blocks and their sizes: the best fit is carved
      up; if nothing fits, the heap grows by the request, at least 4096 bytes, less what a free
      last block already has, and the end of the heap is carved up; null for size 0 or when that
      exceeds 20 MB, and then nothing changes. */
  ghost predicate Grants(h: Heap, size: nat, h': Heap, r: nat) {
    var a := AllocSize(size);
    if size == 0 then h' == h && r == NULL
    else if !NothingFits(h, a) then
      h'.epi == h.epi && (exists k: nat :: FitsBest(h, a, k) && CarvedEntry(h, k, a, h', r))
    else
      && h.epi in h.bs
      && var chunk, tail := if a > 4096 then a else 4096, h.bs[h.epi].prev;
        if tail in h.bs && h.bs[tail].free then
          if h.epi + chunk - h.bs[tail].size > 20 * 0x10_0000 then h' == h && r == NULL
          else h'.epi == h.epi + chunk - h.bs[tail].size && Carved(Without(h.fl, tail), tail, chunk, a, h', r)
        else if h.epi + chunk > 20 * 0x10_0000 then h' == h && r == NULL
        else h'.epi == h.epi + chunk && Carved(h.fl, h.epi, chunk, a, h', r)
  }

  lemma PlaceEnds(h: Heap, p: nat, asize: nat)
    requires p in h.bs && NextOf(h.bs, p) in h.bs && 16 <= asize <= h.bs[p].size
    ensures Place(h, p, asize).0.epi == h.epi
  {
  }

  lemma GrantsFit(h: Heap, size: nat)
    requires Sound(h, {}) && size > 0 && Fit(h, AllocSize(size)) != NULL
    ensures Grants(h, size, Malloc(h, size).0, Malloc(h, size).1)
  {
    hide Place, Placed, Carved, Enlarged, Tiling, Aligned;
    var a := AllocSize(size);
    AllocSizeAligned(size);
    FitIsBest(h, a);
    FitHeld(h, a);
    ListedFacts(h);
    var t := Fit(h, a);
    var k: nat :| k < |h.fl| && h.fl[k] == t && FitsBest(h, a, k);
    PlaceSound(Taken(h, t), t, a);
    assert CarvedEntry(h, k, a, Place(Taken(h, t), t, a).0, Place(Taken(h, t), t, a).1);
    assert Place(Taken(h, t), t, a).0.epi == h.epi by { PlaceEnds(Taken(h, t), t, a); }
  }

  lemma EnlargedList(h: Heap, size: nat)
    requires Sound(h, {}) && size >= 8 && size % 8 == 0
    ensures Enlarged(h, size).fl == if TailStart(h) != h.epi then Without(h.fl, TailStart(h)) else h.fl
    ensures Enlarged(h, size).epi == h.epi + size && TailStart(h) in Enlarged(h, size).bs
    ensures Enlarged(h, size).bs[TailStart(h)].size == TailSize(h) + size
  {
    EnlargedSound(h, size);
    ExtendTiles(h.bs, h.epi, size);
    assert Fits(h.bs, h.epi, h.epi);
  }

  lemma GrantsGrown(h: Heap, size: nat)
    requires Sound(h, {}) && size > 0 && Fit(h, AllocSize(size)) == NULL
    ensures Grants(h, size, Malloc(h, size).0, Malloc(h, size).1)
  {
    hide Fit, Place, Placed, Carved, Enlarged;
    var a := AllocSize(size);
    AllocSizeAligned(size);
    FitIsBest(h, a);
    GrowthHeld(h, a);
    assert Fits(h.bs, h.epi, h.epi);
    var g := Growth(h, a);
    EnlargedList(h, g);
    if h.epi + g <= MAX_HEAP {
      PlaceSound(Enlarged(h, g), TailStart(h), a);
      PlaceEnds(Enlarged(h, g), TailStart(h), a);
    }
  }

  lemma HeldIsNotLive(h: Heap, h': Heap, p: nat, asize: nat, r: nat, b: nat)
    requires Held(h, p, asize) && Placed(h, h', p, asize, r) && LiveBlock(h, b)
    ensures b != r
  {
    HeldBlock(h, p);
    assert Fits(h'.bs, h'.epi, r);
  }

  /** A placement in h1, which has the live blocks of h, as seen from h. */
  lemma FromPlaced(h: Heap, h1: Heap, p: nat, asize: nat)
    requires Tiling(h.bs, h.epi) && Held(h1, p, asize)
    requires Placed(h1, Place(h1, p, asize).0, p, asize, Place(h1, p, asize).1)
    requires LiveKept(h, h1, {}) && LiveKept(h1, h, {})
    ensures var (h', r) := Place(h1, p, asize);
      r != NULL && LiveKept(h, h', {}) && LiveKept(h', h, {r}) && !LiveBlock(h, r)
  {
    var (h', r) := Place(h1, p, asize);
    LiveKeptTwice(h, h1, h', {}, {});
    forall b | LiveBlock(h', b) && b !in {r} ensures LiveBlock(h, b) && h.bs[b].size == h'.bs[b].size {
      assert LiveBlock(h1, b);
    }
    if LiveBlock(h, r) {
      HeldIsNotLive(h1, h', p, asize, r, r);
    }
  }

  lemma EnlargedAddsNoLive(h: Heap, size: nat)
    requires Sound(h, {}) && size >= 8 && size % 8 == 0
    ensures LiveKept(Enlarged(h, size), h, {})
  {
    var g, h' := Grown(h, size), Enlarged(h, size);
    ExtendTiles(h.bs, h.epi, size);
    MergeBounds(g.bs, g.epi, h.epi);
    forall b | LiveBlock(h', b) ensures LiveBlock(h, b) && h.bs[b].size == h'.bs[b].size {
      assert Fits(g.bs, g.epi, b);
    }
  }

  lemma MallocGrants(h: Heap, size: nat)
    requires Sound(h, {})
    ensures Grants(h, size, Malloc(h, size).0, Malloc(h, size).1)
  {
    hide Fit, Place, Enlarged, Growth, Carved, NothingFits, FitsBest;
    if size == 0 {
    } else if Fit(h, AllocSize(size)) != NULL {
      GrantsFit(h, size);
    } else {
      GrantsGrown(h, size);
    }
  }

  /** mm_malloc on a sound heap: null exactly for size 0 or an exhausted arena, and then
      nothing changes; otherwise a new block of the rounded size, at most 8 larger. */
  lemma MallocSound(h: Heap, size: nat)
    requires Sound(h, {})
    ensures var (h', r) := Malloc(h, size);
      && (r == NULL <==>
           size == 0 || (Fit(h, AllocSize(size)) == NULL && h.epi + Growth(h, AllocSize(size)) > MAX_HEAP))
      && (r == NULL ==> h' == h)
      && (r != NULL ==> Allocated(h, h', size, r))
      && Grants(h, size, h', r)
      && (r != NULL && Fit(h, AllocSize(size)) != NULL ==> h'.epi == h.epi)
      && (r != NULL && Fit(h, AllocSize(size)) == NULL ==> h'.epi == h.epi + Growth(h, AllocSize(size)))
  {
    hide Grants;
    var a := AllocSize(size);
    AllocSizeAligned(size);
    MallocGrants(h, size);
    if size != 0 && Fit(h, a) != NULL {
      var t := Fit(h, a);
      FitHeld(h, a);
      PlaceSound(Taken(h, t), t, a);
      FromPlaced(h, Taken(h, t), t, a);
    } else if size != 0 {
      GrowthHeld(h, a);
      EnlargedSound(h, Growth(h, a));
      EnlargedAddsNoLive(h, Growth(h, a));
      PlaceSound(Enlarged(h, Growth(h, a)), TailStart(h), a);
      FromPlaced(h, Enlarged(h, Growth(h, a)), TailStart(h), a);
    }
  }

  /** The same block is carved up in the same way. */
  lemma CarvedAlike(fl: seq<nat>, p: nat, size: nat, asize: nat, h1: Heap, r1: nat, h2: Heap, r2: nat)
    requires Carved(fl, p, size, asize, h1, r1) && Carved(fl, p, size, asize, h2, r2)
    ensures r1 == r2 && r1 in h1.bs && r2 in h2.bs && h1.bs[r1].size == h2.bs[r2].size && h1.fl == h2.fl
  {
  }

  lemma OneFitsBest(h: Heap, asize: nat, j: nat, k: nat)
    requires FitsBest(h, asize, j) && FitsBest(h, asize, k)
    ensures j == k
  {
  }

  lemma GrantsAgree(h: Heap, size: nat, h1: Heap, r1: nat, h2: Heap, r2: nat)
    requires Grants(h, size, h1, r1) && Grants(h, size, h2, r2)
    ensures (r1 == NULL && h1 == h && r2 == NULL && h2 == h)
            || ( && r1 == r2 && h1.epi == h2.epi && h1.fl == h2.fl && r1 in h1.bs && r2 in h2.bs
                 && h1.bs[r1].size == h2.bs[r2].size && LiveBlock(h1, r1) && LiveBlock(h2, r2))
  {
    hide NothingFits, FitsBest, AllocSize, Without;
    var a := AllocSize(size);
    if size > 0 && !NothingFits(h, a) {
      var j: nat :| FitsBest(h, a, j) && CarvedEntry(h, j, a, h1, r1);
      var k: nat :| FitsBest(h, a, k) && CarvedEntry(h, k, a, h2, r2);
      OneFitsBest(h, a, j, k);
    }
  }

  /** Two heaps with the live blocks of h and one more, r. */
  lemma LiveAlike(h: Heap, h1: Heap, h2: Heap, r: nat)
    requires LiveKept(h1, h, {r}) && LiveKept(h, h2, {})
    requires LiveBlock(h1, r) && LiveBlock(h2, r) && h1.bs[r].size == h2.bs[r].size
    ensures LiveKept(h1, h2, {})
  {
    forall b | LiveBlock(h1, b) ensures LiveBlock(h2, b) && h2.bs[b].size == h1.bs[b].size {
      assert b != r ==> LiveBlock(h, b);
    }
  }

  /** What is said of mm_malloc leaves it no choice: any result that meets it is this one. */
  lemma GrantsDetermines(h: Heap, size: nat, h': Heap, r: nat)
    requires Sound(h, {}) && Grants(h, size, h', r) && (r != NULL ==> Allocated(h, h', size, r))
    ensures r == Malloc(h, size).1 && SameTable(Malloc(h, size).0, h')
  {
    hide Malloc, Sound, Grants, Fit, LiveKept;
    MallocSound(h, size);
    var (h1, r1) := Malloc(h, size);
    GrantsAgree(h, size, h1, r1, h', r);
    if r != NULL {
      LiveAlike(h, h1, h', r);
      LiveAlike(h, h', h1, r);
      LiveBlocksDetermineTable(h1, h');
    }
  }
}
