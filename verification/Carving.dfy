/** How place cuts a block in two: the words after each stage, whichever side is handed
    out and whatever the new header word held before. */
module Carving {
  import opened MemLib
  import opened Packing
  import opened HeapShape
  import opened FreeRing
  import opened HeapTable
  import opened HeapState
  import opened HeapSpec
  import opened SpecMalloc

  /** An allocated header at p spans up to q, and m is a place to cut. */
  ghost predicate Carvable(M: seq<Word>, brk: nat, p: nat, m: nat, q: nat) {
    && FIRST <= p && p + 16 <= m && m + 16 <= q <= brk <= |M| == MAX_HEAP
    && (m - p) % 8 == 0 && (q - m) % 8 == 0
    && WordAddresses(p) && WordAddresses(m) && WordAddresses(q)
    && SizeOf(M[p - 4]) == q - p && AllocOf(M[p - 4])
  }

  /** The sizes are cut at m and both headers say what place made of them, but the free
      part (the high one if low is set) is not tagged yet. */
  ghost predicate HalfSplit(M: seq<Word>, W: seq<Word>, p: nat, m: nat, q: nat, low: bool) {
    && 8 <= p && p + 8 <= m && m + 8 <= q <= |M|
    && Within(M, W, p - 4, q - 8)
    && SizeOf(W[p - 4]) == m - p && AllocOf(W[p - 4]) && TagOf(W[p - 4]) == TagOf(M[p - 4])
    && SizeOf(W[m - 4]) == q - m && AllocOf(W[m - 4]) == !low
    && SizeOf(W[if low then q - 8 else m - 8]) == if low then q - m else m - p
  }

  /** Block r up to rn and free part x up to xn lie side by side, x after r or before it. */
  ghost predicate Taggable(W: seq<Word>, brk: nat, r: nat, x: nat, rn: nat, xn: nat) {
    && FIRST <= r && r + 8 <= rn <= brk <= |W| && FIRST <= x && x + 8 <= xn <= brk
    && (rn == x || xn == r)
    && WordAddress(rn - 4) && WordAddress(x - 4) && WordAddress(xn - 4) && WordAddress(r - 4)
    && SizeOf(W[r - 4]) == rn - r && SizeOf(W[x - 4]) == xn - x
    && (rn == x || TagOf(W[x - 4])) && AllocOf(W[xn - 4])
  }

  ghost predicate Retagged(W: seq<Word>, W': seq<Word>, x: nat, rn: nat, xn: nat)
    requires 4 <= x <= |W| && 4 <= rn <= |W| && 4 <= xn <= |W|
  {
    && |W'| == |W|
    && (forall i {:trigger W'[i]} :: 0 <= i < |W| && i != rn - 4 && i != x - 4 && i != xn - 4 ==> W'[i] == W[i])
    && SizeOf(W'[x - 4]) == SizeOf(W[x - 4]) && !AllocOf(W'[x - 4]) && TagOf(W'[x - 4])
    && SizeOf(W'[xn - 4]) == SizeOf(W[xn - 4]) && AllocOf(W'[xn - 4]) == AllocOf(W[xn - 4]) && !TagOf(W'[xn - 4])
    && (rn != x ==>
         SizeOf(W'[rn - 4]) == SizeOf(W[rn - 4]) && AllocOf(W'[rn - 4]) == AllocOf(W[rn - 4]) && TagOf(W'[rn - 4]))
  }

  lemma HalfSplitIsTaggable(M: seq<Word>, W: seq<Word>, brk: nat, p: nat, m: nat, q: nat, low: bool)
    requires Carvable(M, brk, p, m, q) && HalfSplit(M, W, p, m, q, low) && TagOf(M[p - 4]) && AllocOf(M[q - 4])
    ensures if low then Taggable(W, brk, p, m, m, q) else Taggable(W, brk, m, p, q, m)
  {
    assert W[q - 4] == M[q - 4];
  }

  lemma RetaggedIsSplit(M: seq<Word>, W: seq<Word>, W': seq<Word>, brk: nat, p: nat, m: nat, q: nat, low: bool)
    requires Carvable(M, brk, p, m, q) && HalfSplit(M, W, p, m, q, low) && TagOf(M[p - 4]) && AllocOf(M[q - 4])
    requires if low then Retagged(W, W', m, m, q) else Retagged(W, W', p, q, m)
    ensures SplitWords(M, W', p, m, q, !low, low)
  {
    assert W[q - 4] == M[q - 4];
    assert low ==> W'[p - 4] == W[p - 4] && W'[q - 8] == W[q - 8];
    assert !low ==> W'[m - 8] == W[m - 8];
    forall x | 0 <= x < |M| && (x < p - 4 || q - 4 < x) ensures W'[x] == M[x] {
      assert W'[x] == W[x];
    }
  }

  /** A free block that place may use: held by the caller, between allocated neighbours. */
  ghost predicate Usable(M: seq<Word>, h: Heap, p: nat, asize: nat) {
    State(M, h, {p}, {}) && Held(h, p, asize)
  }

  lemma HeldFacts(M: seq<Word>, h: Heap, p: nat)
    requires State(M, h, {p}, {}) && p in h.bs && BetweenAllocated(h.bs, p) && PROLOGUE < p && p != h.epi
    ensures var q := NextOf(h.bs, p);
      && FIRST <= p && p + 8 <= q <= h.epi <= MAX_HEAP && |M| == MAX_HEAP && p % 8 == 0 && q % 8 == 0
      && SizeOf(M[p - 4]) == q - p && TagOf(M[p - 4]) && AllocOf(M[q - 4])
  {
    Around(M, h, {p}, {}, p);
    Before(M, h, {p}, {}, p);
    assert Listed(h, {p}, p);
  }

  lemma UsableFacts(M: seq<Word>, h: Heap, p: nat, asize: nat)
    requires Usable(M, h, p, asize)
    ensures var q := NextOf(h.bs, p);
      && FIRST <= p && p + asize <= q <= h.epi <= MAX_HEAP && |M| == MAX_HEAP && q - p <= MAX_HEAP
      && SizeOf(M[p - 4]) == q - p && TagOf(M[p - 4]) && AllocOf(M[q - 4])
      && (q - p) % 8 == 0 && (q - p - asize) % 8 == 0
      && WordAddresses(p) && WordAddresses(q) && WordAddresses(p + asize) && WordAddresses(q - asize)
      && (p + asize) % 8 == 0 && (q - asize) % 8 == 0
  {
    var q := NextOf(h.bs, p);
    HeldFacts(M, h, p);
    DifferenceAligns(q, p);
    DifferenceAligns(q - p, asize);
    DifferenceAligns(p, asize);
    DifferenceAligns(q, asize);
    WordAligned(p);
    WordAligned(q);
    WordAligned(p + asize);
    WordAligned(q - asize);
  }

  /** Setting the flag of p first makes no difference to where the split ends up. */
  lemma SplitFromMarked(M: seq<Word>, M1: seq<Word>, M': seq<Word>, p: nat, m: nat, q: nat, freeLow: bool,
        freeHigh: bool)
    requires 4 <= p <= |M| == |M1| && M1 == M[p - 4 := M1[p - 4]] && TagOf(M1[p - 4]) == TagOf(M[p - 4])
    requires SplitWords(M1, M', p, m, q, freeLow, freeHigh)
    ensures SplitWords(M, M', p, m, q, freeLow, freeHigh)
  {
    assert M1[q - 4] == M[q - 4];
    forall x | 0 <= x < |M| && (x < p - 4 || q - 4 < x) ensures M'[x] == M[x] {
      assert M1[x] == M[x];
    }
  }

  lemma NoneListedInside(M: seq<Word>, h: Heap, p: nat)
    requires State(M, h, {p}, {}) && p in h.bs && p != h.epi
    ensures h.bs[p].free && p !in h.fl
    ensures forall b {:trigger b in h.bs} :: b in h.bs && p <= b < NextOf(h.bs, p) ==> b == p
  {
    assert Listed(h, {p}, p);
    forall b | b in h.bs && p <= b < NextOf(h.bs, p) ensures b == p {
      assert Apart(h.bs, p, b);
    }
  }

  /** place without a split: the whole block is handed out. */
  lemma TakeWhole(M: seq<Word>, M': seq<Word>, h: Heap, p: nat, asize: nat)
    requires Usable(M, h, p, asize) && h.bs[p].size - asize < 16
    requires FuseWords(M, M', p, NextOf(h.bs, p), false)
    ensures State(M', Place(h, p, asize).0, {}, {}) && PayloadsKept(M, M', h.bs, Live(h.bs))
  {
    var q := NextOf(h.bs, p);
    NoneListedInside(M, h, p);
    FuseState(M, M', h, {p}, {}, p, q, false, {});
    assert FusePending({p}, p, q, false) == {};
    KeptOutside(M, M', h.bs, h.epi, p, q, Live(h.bs));
  }

  /** place with a split, before the free part goes on the list. */
  lemma TakePart(M: seq<Word>, M': seq<Word>, h: Heap, p: nat, m: nat, low: bool)
    requires State(M, h, {p}, {}) && p in h.bs && PROLOGUE < p && p != h.epi && NextOf(h.bs, p) in h.bs
    requires p + 16 <= m && m + 16 <= NextOf(h.bs, p) && m % 8 == 0
    requires SplitWords(M, M', p, m, NextOf(h.bs, p), !low, low)
    ensures m !in h.bs
    ensures State(M', h.(bs := Split(h.bs, p, m, NextOf(h.bs, p), !low, low)), {if low then m else p}, {})
    ensures PayloadsKept(M, M', h.bs, Live(h.bs))
  {
    var q := NextOf(h.bs, p);
    NoneListedInside(M, h, p);
    SplitState(M, M', h, {p}, {}, p, m, q, !low, low);
    assert SplitPending({p}, p, m, !low, low) == {if low then m else p};
    KeptOutside(M, M', h.bs, h.epi, p, q, Live(h.bs));
  }

  /** The free part lies between allocated blocks and everything live stays live. */
  lemma PartIsApart(h: Heap, p: nat, m: nat, q: nat, low: bool)
    requires Tiling(h.bs, h.epi) && BetweenAllocated(h.bs, p) && h.bs[p].free
    requires PROLOGUE < p < m < q && q == NextOf(h.bs, p) && q in h.bs && m !in h.bs
    ensures var bs' := Split(h.bs, p, m, q, !low, low); var f := if low then m else p;
      && BetweenAllocated(bs', f) && m in bs' && bs'[p].size == m - p && bs'[m].size == q - m
      && forall b {:trigger b in Live(h.bs)} :: b in Live(h.bs) ==>
         b in bs' && b in Live(bs') && bs'[b].size == h.bs[b].size
  {
    assert Fits(h.bs, h.epi, p) && Fits(h.bs, h.epi, q);
  }

  /** M1 is M with the header flag of block p set. */
  ghost predicate Marked(M: seq<Word>, M1: seq<Word>, p: nat) {
    && 4 <= p <= |M| == |M1| && M1 == M[p - 4 := M1[p - 4]]
    && SizeOf(M1[p - 4]) == SizeOf(M[p - 4]) && AllocOf(M1[p - 4]) && TagOf(M1[p - 4]) == TagOf(M[p - 4])
  }

  lemma MarkedIsCarvable(M: seq<Word>, M1: seq<Word>, h: Heap, p: nat, asize: nat)
    requires Usable(M, h, p, asize) && Marked(M, M1, p) && h.bs[p].size - asize >= 16
    ensures var q := NextOf(h.bs, p);
      && asize <= q && Carvable(M1, h.epi, p, p + asize, q) && Carvable(M1, h.epi, p, q - asize, q)
      && TagOf(M1[p - 4]) && AllocOf(M1[q - 4])
  {
    UsableFacts(M, h, p, asize);
  }

  ghost function CutHeap(h: Heap, p: nat, m: nat, low: bool): Heap
    requires p in h.bs && NextOf(h.bs, p) in h.bs && p < m < NextOf(h.bs, p)
  {
    h.(bs := Split(h.bs, p, m, NextOf(h.bs, p), !low, low))
  }

  /** The free part of a split is ready for the list. */
  lemma PartTaken(M: seq<Word>, M1: seq<Word>, M2: seq<Word>, h: Heap, p: nat, asize: nat, m: nat, low: bool)
    requires Usable(M, h, p, asize) && Marked(M, M1, p)
    requires m == (if low then p + asize else NextOf(h.bs, p) - asize) && p + 16 <= m && m + 16 <= NextOf(h.bs, p)
    requires SplitWords(M1, M2, p, m, NextOf(h.bs, p), !low, low)
    ensures var h1, f := CutHeap(h, p, m, low), if low then m else p;
      && State(M2, h1, {f}, {}) && f in h1.bs && PROLOGUE < f && h1.bs[f].size >= 16 && BetweenAllocated(h1.bs, f)
      && PayloadsKept(M, M2, h.bs, Live(h.bs))
      && forall b {:trigger b in Live(h.bs)} :: b in Live(h.bs) ==>
         b in h1.bs && b in Live(h1.bs) && h1.bs[b].size == h.bs[b].size
  {
    var q := NextOf(h.bs, p);
    UsableFacts(M, h, p, asize);
    SplitFromMarked(M, M1, M2, p, m, q, !low, low);
    NoneListedInside(M, h, p);
    TakePart(M, M2, h, p, m, low);
    PartIsApart(h, p, m, q, low);
  }

  /** The last SET_TAG of place repeats what the split already wrote. */
  lemma TagAlreadySet(M: seq<Word>, h: Heap, r: nat)
    requires State(M, h, {}, {}) && r in h.bs && r != h.epi && !h.bs[r].free
    ensures 16 <= r <= |M|
    ensures var n := r + SizeOf(M[r - 4]);
      && r + 8 <= n <= h.epi && WordAddress(r - 4) && WordAddress(n - 4) && n <= |M|
      && M[n - 4 := WithTag(M[n - 4], true)] == M
  {
    Around(M, h, {}, {}, r);
    WordAligned(r);
    WordAligned(r + h.bs[r].size);
  }

  lemma WholeTaken(M: seq<Word>, M1: seq<Word>, M2: seq<Word>, h: Heap, p: nat, asize: nat)
    requires Usable(M, h, p, asize) && Marked(M, M1, p) && h.bs[p].size - asize < 16
    requires var q := NextOf(h.bs, p);
      && 4 <= q <= |M1| == |M2| && M2 == M1[q - 4 := WithTag(M1[q - 4], true)]
    ensures State(M2, Place(h, p, asize).0, {}, {}) && PayloadsKept(M, M2, h.bs, Live(h.bs))
    ensures Place(h, p, asize).0.epi == h.epi && Place(h, p, asize).1 == p
  {
    UsableFacts(M, h, p, asize);
    TagUpdate(M1[NextOf(h.bs, p) - 4], true);
    TakeWhole(M, M2, h, p, asize);
  }
}
