/** The four cases of coalesce, after their writes: the words represent the heap that
    HeapSpec.Coalesce describes. */
module Merging {
  import opened MemLib
  import opened Packing
  import opened HeapShape
  import opened FreeRing
  import opened HeapTable
  import opened HeapState
  import opened HeapSpec
  import opened SpecMalloc
  import opened SpecFree

  /** The words of x that no merge touches: all but its last word, and that one too
      when the next block is absorbed. */
  ghost predicate InteriorKept(M: seq<Word>, M': seq<Word>, bs: Blocks, x: nat)
    requires x in bs
  {
    && (forall i {:trigger M'[i]} :: x <= i < NextOf(bs, x) - 8 && i < |M| && i < |M'| ==> M'[i] == M[i])
    && (x + 8 <= NextOf(bs, x) <= |M| && |M'| == |M| && (IsFree(bs, NextOf(bs, x)) || !IsFree(bs, PrevOf(bs, x)))
        ==> M'[NextOf(bs, x) - 8] == M[NextOf(bs, x) - 8])
    && (IsFree(bs, PrevOf(bs, x)) ==> BodyKept(M, M', bs, PrevOf(bs, x)))
  }

  /** Pending block x can be merged. */
  ghost predicate Mergeable(M: seq<Word>, h: Heap, nf: set<nat>, x: nat) {
    State(M, h, {x}, nf) && nf <= {x} && Tiling(h.bs, h.epi) && x in h.bs && PROLOGUE < x && x != h.epi
  }

  /** M' and h' are M and h with pending block x merged into block r, still pending. */
  ghost predicate MergedTo(M: seq<Word>, M': seq<Word>, h: Heap, h': Heap, x: nat, r: nat)
    requires Tiling(h.bs, h.epi) && x in h.bs && PROLOGUE < x && x != h.epi
  {
    && r == MergeStart(h.bs, x) && h' == Coalesce(h, x)
    && State(M', h', {r}, {})
    && PayloadsKept(M, M', h.bs, Live(h.bs))
    && InteriorKept(M, M', h.bs, x)
  }

  /** What ERASE of entry k leaves behind. */
  lemma Erased(M: seq<Word>, M': seq<Word>, h: Heap, pend: set<nat>, nf: set<nat>, k: nat)
    requires State(M, h, pend, nf) && k < |h.fl|
    requires Connected(M, M', At(h.fl, k), At(h.fl, k + 2))
    ensures State(M', h.(fl := Without(h.fl, h.fl[k])), pend + {h.fl[k]}, nf)
    ensures PayloadsKept(M, M', h.bs, Unlisted(h)) && BodiesKept(M, M', h.bs)
  {
    hide Tagged, Threaded, Connected, PayloadsKept, BodiesKept;
    StateIsSound(M, h, pend, nf);
    EraseState(M, M', h, pend, nf, k);
    AtIsLinkNode(M, h, pend, nf, k);
    AtIsLinkNode(M, h, pend, nf, k + 2);
    KeptByConnect(M, M', h.bs, h.epi, At(h.fl, k), At(h.fl, k + 2), Unlisted(h));
    BodiesByConnect(M, M', h, At(h.fl, k), At(h.fl, k + 2));
  }

  lemma FreeNeighbour(M: seq<Word>, h: Heap, pend: set<nat>, nf: set<nat>, n: nat)
    requires State(M, h, pend, nf) && n !in pend && IsFree(h.bs, n)
    ensures n in h.fl && h.bs[n].size >= 16 && FIRST <= n && n != h.epi
  {
    assert Listed(h, pend, n);
    ListedNodesAreRoomy(M, h, pend, nf, n);
  }

  /** The writes after the erasures, from M1 to M', given what the erasures left. */
  lemma MergeDone(M: seq<Word>, M1: seq<Word>, M': seq<Word>, h: Heap, fl: seq<nat>, pend: set<nat>, nf: set<nat>,
        x: nat)
    requires Mergeable(M, h, nf, x)
    requires Coalesce(h, x).fl == fl && State(M1, h.(fl := fl), pend, nf) && PayloadsKept(M, M1, h.bs, Live(h.bs) + {x})
    requires forall b {:trigger b in pend} :: b in h.bs && MergeStart(h.bs, x) <= b < MergeEnd(h.bs, x) ==> b in pend
    requires forall b :: b in pend ==> MergeStart(h.bs, x) <= b < MergeEnd(h.bs, x)
    requires var p, q := MergeStart(h.bs, x), MergeEnd(h.bs, x);
      && 4 <= p && p + 8 <= q && FuseWords(M1, M', p, q, true) && SizeOf(M'[q - 8]) == q - p
    requires InteriorKept(M, M', h.bs, x)
    ensures MergedTo(M, M', h, Coalesce(h, x), x, MergeStart(h.bs, x))
  {
    var p, q := MergeStart(h.bs, x), MergeEnd(h.bs, x);
    var h1 := h.(fl := fl);
    MergeBounds(h.bs, h.epi, x);
    assert Listed(h, {x}, x);
    forall b | b in h.bs && p <= b < q ensures b !in fl {
      assert b in pend;
      assert Listed(h1, pend, b);
    }
    FuseState(M1, M', h1, pend, nf, p, q, true, {});
    assert FusePending(pend, p, q, true) == {p};
    assert h1.(bs := Fuse(h1.bs, p, q, true)) == Coalesce(h, x);
    KeptOutside(M1, M', h.bs, h.epi, p, q, Live(h.bs));
    KeptTwice(M, M1, M', h.bs, h.bs, Live(h.bs), Live(h.bs));
  }

  lemma OneErased(M: seq<Word>, M1: seq<Word>, h: Heap, nf: set<nat>, x: nat, n: nat)
    requires Mergeable(M, h, nf, x) && n in h.fl && n != x
    requires PayloadsKept(M, M1, h.bs, Unlisted(h))
    ensures PayloadsKept(M, M1, h.bs, Live(h.bs) + {x})
    ensures |M1| == |M| && PayloadKept(M, M1, h.bs, x)
  {
    assert Listed(h, {x}, x);
    forall b | b in h.bs && b in Live(h.bs) + {x} ensures PayloadKept(M, M1, h.bs, b) && b in Unlisted(h) {
      assert Listed(h, {x}, b);
      assert b in Unlisted(h);
      assert PayloadKept(M, M1, h.bs, b);
    }
  }

  /** Case 2: only the next block is free. */
  lemma MergeNextDone(M: seq<Word>, M1: seq<Word>, M': seq<Word>, h: Heap, nf: set<nat>, x: nat)
    requires Mergeable(M, h, nf, x)
    requires !IsFree(h.bs, PrevOf(h.bs, x)) && IsFree(h.bs, NextOf(h.bs, x))
    requires var n := NextOf(h.bs, x);
      State(M1, h.(fl := Without(h.fl, n)), {x} + {n}, nf) && PayloadsKept(M, M1, h.bs, Unlisted(h))
    requires var q := MergeEnd(h.bs, x);
      && 4 <= x && x + 8 <= q <= MAX_HEAP && (q - x) % 8 == 0
      && M' == M1[x - 4 := WithSize(M1[x - 4], q - x)][q - 8 := q - x]
    ensures MergedTo(M, M', h, Coalesce(h, x), x, x)
  {
    var n, q := NextOf(h.bs, x), MergeEnd(h.bs, x);
    var h1 := h.(fl := Without(h.fl, n));
    MergeBounds(h.bs, h.epi, x);
    assert Listed(h, {x}, x);
    FreeNeighbour(M, h, {x}, nf, n);
    OneErased(M, M1, h, nf, x, n);
    assert Fits(h.bs, h.epi, n) && Fits(h.bs, h.epi, x);
    MergedWords(M1, M', h1, {x} + {n}, nf, x, q);
    MergeDone(M, M1, M', h, h1.fl, {x} + {n}, nf, x);
  }

  /** Case 3: only the previous block is free. */
  lemma MergePrevDone(M: seq<Word>, M1: seq<Word>, M': seq<Word>, h: Heap, nf: set<nat>, x: nat)
    requires Mergeable(M, h, nf, x)
    requires IsFree(h.bs, PrevOf(h.bs, x)) && !IsFree(h.bs, NextOf(h.bs, x))
    requires var p := PrevOf(h.bs, x);
      && State(M1, h.(fl := Without(h.fl, p)), {x} + {p}, nf) && PayloadsKept(M, M1, h.bs, Unlisted(h))
      && BodiesKept(M, M1, h.bs)
    requires var p, q := PrevOf(h.bs, x), MergeEnd(h.bs, x);
      && 4 <= p && p + 8 <= q <= MAX_HEAP && (q - p) % 8 == 0
      && M' == M1[q - 8 := q - p][p - 4 := WithSize(M1[p - 4], q - p)]
    ensures MergedTo(M, M', h, Coalesce(h, x), x, PrevOf(h.bs, x))
  {
    var p, q := PrevOf(h.bs, x), MergeEnd(h.bs, x);
    var h1 := h.(fl := Without(h.fl, p));
    MergeBounds(h.bs, h.epi, x);
    assert Fits(h.bs, h.epi, p) && Fits(h.bs, h.epi, x);
    assert Listed(h, {x}, x);
    FreeNeighbour(M, h, {x}, nf, p);
    OneErased(M, M1, h, nf, x, p);
    assert BodyKept(M, M1, h.bs, p);
    MergedWords(M1, M', h1, {x} + {p}, nf, p, q);
    MergeDone(M, M1, M', h, h1.fl, {x} + {p}, nf, x);
  }

  lemma KeptBodyOf(M: seq<Word>, M': seq<Word>, bs: Blocks, p: nat, x: nat)
    requires BodiesKept(M, M', bs) && PayloadsKept(M, M', bs, Live(bs) + {x}) && x in bs
    ensures |M'| == |M| && PayloadKept(M, M', bs, x)
    ensures p in bs && PROLOGUE < p ==> BodyKept(M, M', bs, p)
  {
  }

  /** Case 4: both neighbours are free. */
  lemma MergeBothDone(M: seq<Word>, M2: seq<Word>, M': seq<Word>, h: Heap, nf: set<nat>, x: nat)
    requires Mergeable(M, h, nf, x)
    requires IsFree(h.bs, PrevOf(h.bs, x)) && IsFree(h.bs, NextOf(h.bs, x))
    requires PayloadsKept(M, M2, h.bs, Live(h.bs) + {x}) && BodiesKept(M, M2, h.bs)
    requires var p, n := PrevOf(h.bs, x), NextOf(h.bs, x);
      State(M2, h.(fl := Without(Without(h.fl, p), n)), {x} + {p} + {n}, nf)
    requires var p, q := PrevOf(h.bs, x), MergeEnd(h.bs, x);
      && 4 <= p && p + 8 <= q <= MAX_HEAP && (q - p) % 8 == 0
      && M' == M2[p - 4 := WithSize(M2[p - 4], q - p)][q - 8 := q - p]
    ensures MergedTo(M, M', h, Coalesce(h, x), x, PrevOf(h.bs, x))
  {
    hide SizeOf, Aligned, LowBits, PayloadsKept;
    KeptBodyOf(M, M2, h.bs, PrevOf(h.bs, x), x);
    var p, n, q := PrevOf(h.bs, x), NextOf(h.bs, x), MergeEnd(h.bs, x);
    var h2 := h.(fl := Without(Without(h.fl, p), n));
    MergeBounds(h.bs, h.epi, x);
    assert Fits(h.bs, h.epi, p) && Fits(h.bs, h.epi, x) && Fits(h.bs, h.epi, n);
    assert Listed(h, {x}, x);
    MergedWords(M2, M', h2, {x} + {p} + {n}, nf, p, q);
    MergeDone(M, M2, M', h, h2.fl, {x} + {p} + {n}, nf, x);
  }

  lemma {:induction false} WithoutShrinks(fl: seq<nat>, x: nat)
    ensures forall b {:trigger b in Without(fl, x)} :: b in Without(fl, x) ==> b in fl
  {
    if fl != [] && fl[0] != x {
      WithoutShrinks(fl[1..], x);
    }
  }

  lemma BothErased(M: seq<Word>, M1: seq<Word>, M2: seq<Word>, h: Heap, nf: set<nat>, x: nat, p: nat, n: nat)
    requires Mergeable(M, h, nf, x) && p in h.fl && p != x
    requires State(M2, h.(fl := Without(Without(h.fl, p), n)), {x} + {p} + {n}, nf)
    requires PayloadsKept(M, M1, h.bs, Unlisted(h))
    requires PayloadsKept(M1, M2, h.bs, Unlisted(h.(fl := Without(h.fl, p))))
    ensures PayloadsKept(M, M2, h.bs, Live(h.bs) + {x})
    ensures |M2| == |M| && PayloadKept(M, M2, h.bs, x)
  {
    OneErased(M, M1, h, nf, x, p);
    forall b | b in Live(h.bs) + {x} ensures b in Unlisted(h.(fl := Without(h.fl, p))) {
      assert Listed(h, {x}, b);
      WithoutShrinks(h.fl, p);
    }
    KeptTwice(M, M1, M2, h.bs, h.bs, Live(h.bs) + {x}, Unlisted(h.(fl := Without(h.fl, p))));
    assert PayloadKept(M, M2, h.bs, x);
  }

  /** What coalesce reads around block x before and after its erasures. */
  lemma MergeFacts(M: seq<Word>, h: Heap, pend: set<nat>, nf: set<nat>, x: nat)
    requires State(M, h, pend, nf) && nf <= {x}
    requires x in pend && PROLOGUE < x && x != h.epi
    ensures var n := NextOf(h.bs, x);
      && FIRST <= x && x % 8 == 0 && x + 8 <= n <= h.epi <= MAX_HEAP && n % 8 == 0 && n in h.bs
      && SizeOf(M[x - 4]) == h.bs[x].size && (TagOf(M[x - 4]) <==> !IsFree(h.bs, PrevOf(h.bs, x)))
      && SizeOf(M[n - 4]) == h.bs[n].size && (AllocOf(M[n - 4]) <==> !IsFree(h.bs, n))
      && WordAddresses(x) && WordAddresses(n)
      && (IsFree(h.bs, n) && n !in pend ==> n in h.fl)
      && (IsFree(h.bs, n) ==>
           var q := NextOf(h.bs, n);
           n + 8 <= q <= h.epi && q in h.bs && q % 8 == 0 && (q - x) % 8 == 0 && WordAddresses(q))
    ensures IsFree(h.bs, PrevOf(h.bs, x)) ==> var p, q := PrevOf(h.bs, x), MergeEnd(h.bs, x);
      && FIRST <= p && p % 8 == 0 && p + 8 <= x && SizeOf(M[x - 8]) == x - p && SizeOf(M[p - 4]) == x - p
      && (p !in pend ==> p in h.fl) && (q - p) % 8 == 0 && WordAddresses(p)
  {
    var n, p := NextOf(h.bs, x), PrevOf(h.bs, x);
    Around(M, h, pend, nf, x);
    Before(M, h, pend, nf, x);
    WordAligned(x);
    WordAligned(n);
    WordAligned(p);
    assert Listed(h, pend, n) && Listed(h, pend, p) && Listed(h, pend, x);
    if IsFree(h.bs, n) {
      Around(M, h, pend, nf, n);
      DifferenceAligns(NextOf(h.bs, n), x);
      WordAligned(NextOf(h.bs, n));
    }
    if IsFree(h.bs, p) {
      Around(M, h, pend, nf, p);
      DifferenceAligns(MergeEnd(h.bs, x), p);
    }
  }

  /** Case 1: both neighbours are allocated, and the merged heap is the heap itself. */
  lemma NothingMerged(M: seq<Word>, h: Heap, x: nat)
    requires Mergeable(M, h, {}, x)
    requires !IsFree(h.bs, PrevOf(h.bs, x)) && !IsFree(h.bs, NextOf(h.bs, x))
    ensures MergedTo(M, M, h, h, x, x)
  {
    assert Listed(h, {x}, x);
    FuseOfOneIsNothing(h.bs, h.epi, x);
    assert PayloadsKept(M, M, h.bs, Live(h.bs));
  }

  lemma KeptLive(M: seq<Word>, M': seq<Word>, h: Heap, pend: set<nat>)
    requires Accounted(h, pend) && PayloadsKept(M, M', h.bs, Unlisted(h))
    ensures PayloadsKept(M, M', h.bs, Live(h.bs))
  {
    forall b | b in h.bs && b in Live(h.bs) ensures PayloadKept(M, M', h.bs, b) {
      assert Listed(h, pend, b) && b in Unlisted(h);
    }
  }

  /** What the search of the list reads at position i. */
  lemma WalkFacts(M: seq<Word>, h: Heap, i: nat)
    requires State(M, h, {}, {}) && i <= |h.fl|
    ensures var a := At(h.fl, i);
      && a + 8 <= h.epi <= |M| && WordAddress(a + 4) && M[a + 4] == At(h.fl, i + 1) - HEAD && HEAD <= At(h.fl, i + 1)
      && (i > 0 ==> a == h.fl[i - 1] && HEAD < a && a in h.bs && WordAddress(a - 4) && SizeOf(M[a - 4]) == h.bs[a].size)
  {
    assert LinkAt(M, h.fl, i);
    AtIsLinkNode(M, h, {}, {}, i);
    AtIsLinkNode(M, h, {}, {}, i + 1);
    NodeAddress(M, h, {}, {}, At(h.fl, i));
    NodeAddress(M, h, {}, {}, At(h.fl, i + 1));
    if i > 0 {
      AtGap(M, h.fl, i, i);
      assert Header(M, h.bs, At(h.fl, i));
      WordAligned(At(h.fl, i));
    }
  }

  /** Block a's header can be read and has its size. */
  ghost predicate Readable(M: seq<Word>, h: Heap, a: nat) {
    a in h.bs && 4 <= a <= h.epi <= |M| && WordAddress(a - 4) && SizeOf(M[a - 4]) == h.bs[a].size
  }

  /** After i entries of the list the search holds temp, and the rest will decide. */
  ghost predicate BestSoFar(M: seq<Word>, h: Heap, size: nat, i: nat, temp: nat) {
    && Accounted(h, {}) && i <= |h.fl| && (temp == NULL || Readable(M, h, temp))
    && Fit(h, size) == BestFit(h.bs, h.fl[i..], size, temp)
  }

  lemma WalkStarts(M: seq<Word>, h: Heap, size: nat)
    requires State(M, h, {}, {})
    ensures HEAD + 8 <= h.epi <= |M| && WordAddress(HEAD + 4) && M[HEAD + 4] == At(h.fl, 1) - HEAD
    ensures BestSoFar(M, h, size, 0, NULL)
  {
    WalkFacts(M, h, 0);
    assert h.fl[0..] == h.fl;
  }

  /** One entry of the list: what the search reads there, and which block it holds then. */
  lemma WalkStep(M: seq<Word>, h: Heap, size: nat, i: nat, temp: nat)
    requires State(M, h, {}, {}) && BestSoFar(M, h, size, i, temp) && At(h.fl, i + 1) != HEAD
    ensures i < |h.fl| && HEAD <= At(h.fl, i + 2) && (temp != NULL ==> Readable(M, h, temp))
    ensures var cur := At(h.fl, i + 1);
      && Readable(M, h, cur) && cur + 8 <= h.epi && WordAddress(cur + 4) && M[cur + 4] == At(h.fl, i + 2) - HEAD
      && BestSoFar(M, h, size, i + 1,
           if SizeOf(M[cur - 4]) >= size && (temp == NULL || SizeOf(M[cur - 4]) < SizeOf(M[temp - 4]))
           then cur else temp)
  {
    hide SizeOf, BestFit, Tagged, Threaded;
    StateIsSound(M, h, {}, {});
    WalkFacts(M, h, i + 1);
    ListedFacts(h);
    BestFitStep(h.bs, h.fl, size, temp, i);
  }

  lemma WalkEnds(M: seq<Word>, h: Heap, size: nat, i: nat, temp: nat)
    requires State(M, h, {}, {}) && BestSoFar(M, h, size, i, temp) && At(h.fl, i + 1) == HEAD
    ensures Accounted(h, {}) && temp == Fit(h, size) && (temp != NULL ==> temp in h.fl)
  {
    hide BestFit, SizeOf;
    StateIsSound(M, h, {}, {});
    AtGap(M, h.fl, i + 1, 0);
    assert h.fl[i..] == [];
    BestFitOfNone(h.bs, size, temp);
    FitIsBest(h, size);
  }

  ghost predicate GrownLive(h: Heap, size: nat)
    requires h.epi in h.bs
  {
    var g := Grown(h, size);
    forall b {:trigger b in Live(h.bs)} :: b in Live(h.bs) && b in h.bs && h.bs[b].size > 0 ==>
      b in Live(g.bs) && b in g.bs && g.bs[b].size == h.bs[b].size
  }

  /** The heap right after extend_heap has written the new block and the new epilogue. */
  lemma GrownState(M: seq<Word>, M': seq<Word>, h: Heap, size: nat)
    requires State(M, h, {}, {}) && ExtendWords(M, M', h.epi, size) && size % 8 == 0 && h.epi in h.bs
    ensures Mergeable(M', Grown(h, size), {}, h.epi) && h.epi + size <= MAX_HEAP
    ensures PayloadsKept(M, M', h.bs, Live(h.bs)) && GrownLive(h, size)
  {
    ExtendTagged(M, M', h, size);
    ExtendThreaded(M, M', h, size);
    assert Fits(h.bs, h.epi, h.epi) && Apart(h.bs, PROLOGUE, h.epi);
    forall b | b in h.bs && b in Live(h.bs) ensures PayloadKept(M, M', h.bs, b) {
      assert Apart(h.bs, b, h.epi) && Fits(h.bs, h.epi, b);
    }
    forall b | b in Live(h.bs) && h.bs[b].size > 0 ensures b in Live(Grown(h, size).bs) {
      assert Fits(h.bs, h.epi, b);
    }
  }

  /** What the epilogue and the word before it say about the last block. */
  lemma TailFacts(M: seq<Word>, h: Heap)
    requires State(M, h, {}, {})
    ensures h.epi in h.bs && FIRST <= h.epi <= MAX_HEAP && WordAddresses(h.epi) && |M| == MAX_HEAP && h.epi % 8 == 0
    ensures TagOf(M[h.epi - 4]) <==> TailSize(h) == 0
    ensures TailSize(h) > 0 ==> SizeOf(M[h.epi - 8]) == TailSize(h)
  {
    assert Fits(h.bs, h.epi, h.epi) && Apart(h.bs, PROLOGUE, h.epi);
    Before(M, h, {}, {}, h.epi);
    Around(M, h, {}, {}, PrevOf(h.bs, h.epi));
    WordAligned(h.epi);
  }

  /** The heap right after mm_free has rewritten the tags around p. */
  lemma ReleasedState(M: seq<Word>, M': seq<Word>, h: Heap, p: nat)
    requires State(M, h, {}, {}) && LiveBlock(h, p)
    requires var q := NextOf(h.bs, p); FuseWords(M, M', p, q, true) && q >= 8 && SizeOf(M'[q - 8]) == q - p
    ensures NextOf(h.bs, p) in h.bs && p < NextOf(h.bs, p) && Mergeable(M', Released(h, p), {}, p)
    ensures PayloadsKept(M, M', h.bs, Live(h.bs) - {p})
  {
    var q := NextOf(h.bs, p);
    ReleasedSound(h, p);
    FuseTagged(M, M', h, {}, p, q, true, {});
    forall b | b in h.bs && p <= b < q ensures b == p {
      assert Apart(h.bs, p, b);
    }
    RingOutside(M, M', h, {}, {}, p, q);
    KeptOutside(M, M', h.bs, h.epi, p, q, Live(h.bs) - {p});
  }

  lemma PrologueStays(h: Heap, size: nat)
    requires Sound(h, {}) && size >= 8 && size % 8 == 0
    ensures PROLOGUE in Enlarged(h, size).bs && Enlarged(h, size).bs[PROLOGUE] == h.bs[PROLOGUE]
  {
    ExtendTiles(h.bs, h.epi, size);
    MergeBounds(Grown(h, size).bs, Grown(h, size).epi, h.epi);
  }

  lemma EnlargedPayloads(M: seq<Word>, M1: seq<Word>, M': seq<Word>, h: Heap, size: nat)
    requires Sound(h, {}) && size >= 8 && size % 8 == 0
    requires PayloadsKept(M, M1, h.bs, Live(h.bs))
    requires PayloadsKept(M1, M', Enlarged(h, size).bs, Live(Enlarged(h, size).bs))
    ensures PayloadsKept(M, M', h.bs, Live(h.bs))
  {
    EnlargedSound(h, size);
    var h1 := Enlarged(h, size);
    forall b | b in Live(h.bs) && b in h.bs && h.bs[b].size > 0
      ensures b in Live(h1.bs) && b in h1.bs && h1.bs[b].size == h.bs[b].size
    {
      assert Fits(h.bs, h.epi, b);
      assert b != PROLOGUE ==> LiveBlock(h, b);
      if b == PROLOGUE { PrologueStays(h, size); }
    }
    KeptTwice(M, M1, M', h.bs, h1.bs, Live(h.bs), Live(h1.bs));
  }

  /** What the words around a live block say. */
  lemma LiveFacts(M: seq<Word>, h: Heap, p: nat)
    requires State(M, h, {}, {}) && LiveBlock(h, p)
    ensures var q := NextOf(h.bs, p);
      && FIRST <= p && p + 16 <= q <= h.epi <= MAX_HEAP && q in h.bs && |M| == MAX_HEAP
      && WordAddresses(p) && WordAddresses(q) && h.bs[p].size % 8 == 0
      && SizeOf(M[p - 4]) == q - p && AllocOf(M[p - 4])
      && SizeOf(M[q - 4]) == h.bs[q].size && AllocOf(M[q - 4]) == !h.bs[q].free && TagOf(M[q - 4])
  {
    Around(M, h, {}, {}, p);
    assert Listed(h, {}, p) && Apart(h.bs, PROLOGUE, p);
    WordAligned(p);
    WordAligned(NextOf(h.bs, p));
  }

  /** The block that coalesce leaves is ready for the list, and its tag is already clear. */
  lemma ReadyToList(M: seq<Word>, h: Heap, x: nat)
    requires Sound(h, {x}) && PROLOGUE < x && x != h.epi && h.bs[x].size >= 16
    requires State(M, Coalesce(h, x), {MergeStart(h.bs, x)}, {})
    ensures var h', r := Coalesce(h, x), MergeStart(h.bs, x);
      && r in h'.bs && PROLOGUE < r && h'.bs[r].size >= 16 && BetweenAllocated(h'.bs, r) && r != h'.epi
      && FIRST <= r <= |M| && WordAddresses(r)
      && var n := r + SizeOf(M[r - 4]);
         && r + 8 <= n <= h'.epi && n <= |M| && WordAddresses(n) && M[n - 4 := WithTag(M[n - 4], false)] == M
  {
    var h', r := Coalesce(h, x), MergeStart(h.bs, x);
    CoalesceSound(h, x);
    CoalesceSeparates(h, x);
    Around(M, h', {r}, {}, r);
    assert Listed(h', {r}, r);
    WordAligned(r);
    WordAligned(NextOf(h'.bs, r));
  }

  /** What coalesce leaves for mm_free to do. */
  lemma MergedIsReady(M: seq<Word>, M1: seq<Word>, h: Heap, h': Heap, x: nat, r: nat)
    requires Mergeable(M, h, {}, x) && h.bs[x].size >= 16 && MergedTo(M, M1, h, h', x, r)
    ensures Sound(h, {x}) && PROLOGUE < x && x != h.epi && h' == Coalesce(h, x) && r == MergeStart(h.bs, x)
    ensures State(M1, h', {r}, {}) && PayloadsKept(M, M1, h.bs, Live(h.bs))
    ensures r in h'.bs && PROLOGUE < r && h'.bs[r].size >= 16 && BetweenAllocated(h'.bs, r) && r != h'.epi
    ensures FIRST <= r <= |M1| && WordAddresses(r)
    ensures var n := r + SizeOf(M1[r - 4]);
      r + 8 <= n <= h'.epi && n <= |M1| && WordAddresses(n) && M1[n - 4 := WithTag(M1[n - 4], false)] == M1
  {
    hide InteriorKept, SizeOf, WordAddress;
    StateIsSound(M, h, {x}, {});
    ReadyToList(M1, h, x);
  }

  lemma FiledPayloads(M: seq<Word>, M1: seq<Word>, M': seq<Word>, h: Heap, x: nat)
    requires Sound(h, {x}) && PROLOGUE < x && x != h.epi
    requires PayloadsKept(M, M1, h.bs, Live(h.bs)) && PayloadsKept(M1, M', Coalesce(h, x).bs, Live(Coalesce(h, x).bs))
    ensures PayloadsKept(M, M', h.bs, Live(h.bs))
  {
    MergeBounds(h.bs, h.epi, x);
    assert Listed(h, {x}, x);
    KeptTwice(M, M1, M', h.bs, Coalesce(h, x).bs, Live(h.bs), Live(Coalesce(h, x).bs));
  }

  lemma FreedPayloads(M: seq<Word>, M1: seq<Word>, M': seq<Word>, h: Heap, p: nat)
    requires Sound(h, {}) && LiveBlock(h, p) && NextOf(h.bs, p) in h.bs && p < NextOf(h.bs, p)
    requires PayloadsKept(M, M1, h.bs, Live(h.bs) - {p})
    requires PayloadsKept(M1, M', Released(h, p).bs, Live(Released(h, p).bs))
    ensures PayloadsKept(M, M', h.bs, Live(h.bs) - {p})
  {
    ReleasedSound(h, p);
    KeptTwice(M, M1, M', h.bs, Released(h, p).bs, Live(h.bs) - {p}, Live(Released(h, p).bs));
  }

  /** The heap after mm_init: one free block of CHUNKSIZE bytes. */
  const INITIAL_HEAP: Heap :=
    Heap(map[PROLOGUE := Block(8, false, 0), FIRST := Block(CHUNKSIZE, true, PROLOGUE),
             FIRST + CHUNKSIZE := Block(0, false, FIRST)],
         [FIRST], FIRST + CHUNKSIZE)

  lemma InitialAccounted(h: Heap)
    requires h.bs.Keys == {PROLOGUE, FIRST, 4120} && h.fl == [FIRST] && h.epi == 4120
    requires h.bs[FIRST] == Block(4096, true, PROLOGUE) && h.bs[4120] == Block(0, false, FIRST)
    requires h.bs[PROLOGUE] == Block(8, false, 0)
    ensures Aligned(h.bs) && Accounted(h, {})
    ensures forall b, c {:trigger Apart(h.bs, b, c)} :: b in h.bs && c in h.bs ==> Apart(h.bs, b, c)
  {
    assert Listed(h, {}, PROLOGUE) && Listed(h, {}, FIRST) && Listed(h, {}, 4120);
    assert Coalesced(h, {}, PROLOGUE) && Coalesced(h, {}, FIRST) && Coalesced(h, {}, 4120);
  }

  lemma InitialIsSound()
    ensures Sound(INITIAL_HEAP, {})
  {
    var h := INITIAL_HEAP;
    assert h.bs.Keys == {PROLOGUE, FIRST, 4120};
    assert h.bs[FIRST] == Block(4096, true, PROLOGUE) && h.bs[4120] == Block(0, false, FIRST);
    assert h.bs[PROLOGUE] == Block(8, false, 0);
    assert Fits(h.bs, h.epi, PROLOGUE) && Fits(h.bs, h.epi, FIRST) && Fits(h.bs, h.epi, 4120);
    InitialAccounted(h);
  }

  lemma FirstGrowth(M: seq<Word>)
    requires Tiling(EMPTY_HEAP.bs, FIRST) && State(M, Enlarged(EMPTY_HEAP, CHUNKSIZE), {FIRST}, {})
    ensures var h := Enlarged(EMPTY_HEAP, CHUNKSIZE);
      && h.(fl := [FIRST]) == INITIAL_HEAP && h.fl == [] && h.epi == FIRST + CHUNKSIZE && TailStart(EMPTY_HEAP) == FIRST
      && FIRST in h.bs && BetweenAllocated(h.bs, FIRST) && h.bs[FIRST].size >= 16
      && |M| == MAX_HEAP && WordAddresses(FIRST) && WordAddresses(PROLOGUE)
      && PROLOGUE + SizeOf(M[PROLOGUE - 4]) == FIRST && M[FIRST - 4 := WithTag(M[FIRST - 4], true)] == M
  {
    var g, h := Grown(EMPTY_HEAP, CHUNKSIZE), Enlarged(EMPTY_HEAP, CHUNKSIZE);
    ExtendTiles(EMPTY_HEAP.bs, FIRST, CHUNKSIZE);
    FuseOfOneIsNothing(g.bs, g.epi, FIRST);
    assert h == g;
    assert h.(fl := [FIRST]) == INITIAL_HEAP;
    assert Header(M, h.bs, PROLOGUE) && Header(M, h.bs, FIRST);
  }
}
