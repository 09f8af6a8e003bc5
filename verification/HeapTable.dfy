/** The heap as the allocator accounts for it: blocks, free list and break, without
    words.  A block that a routine holds in its hands is pending. */
module HeapTable {
  import opened HeapShape
  import opened FreeRing

  /** The block table, the free list in list order, and the epilogue (equal to the break). */
  datatype Heap = Heap(bs: Blocks, fl: seq<nat>, epi: nat)

  /** A block is free exactly when it is on the list or pending, that is, held by a
      routine that took it off the list or has not inserted it yet. */
  ghost predicate Listed(h: Heap, pend: set<nat>, b: nat)
    requires b in h.bs
  {
    && (h.bs[b].free <==> b in h.fl || b in pend)
    && (b in pend ==> b !in h.fl)
    && (b != PROLOGUE && b != h.epi && b !in pend ==> h.bs[b].size >= 16)
  }

  /** No two neighbouring blocks are both free. */
  ghost predicate Coalesced(h: Heap, pend: set<nat>, b: nat)
    requires b in h.bs
  {
    h.bs[b].free && b !in pend && b + h.bs[b].size !in pend && b + h.bs[b].size in h.bs
    ==> !h.bs[b + h.bs[b].size].free
  }

  ghost predicate Distinct(fl: seq<nat>) {
    forall i, j {:trigger fl[i], fl[j]} :: 0 <= i < j < |fl| ==> fl[i] != fl[j]
  }

  /** The list holds every free block exactly once, except for those in pend. */
  ghost predicate Accounted(h: Heap, pend: set<nat>) {
    && Distinct(h.fl)
    && (forall i {:trigger h.fl[i]} :: 0 <= i < |h.fl| ==> h.fl[i] in h.bs)
    && pend <= h.bs.Keys
    && (forall b {:trigger Listed(h, pend, b)} :: b in h.bs ==> Listed(h, pend, b))
    && (forall b {:trigger Coalesced(h, pend, b)} :: b in h.bs ==> Coalesced(h, pend, b))
  }

  /** The heap invariant, as far as it does not mention words. */
  ghost predicate Sound(h: Heap, pend: set<nat>) {
    Tiling(h.bs, h.epi) && Aligned(h.bs) && Accounted(h, pend)
  }

  /** The same heap, but for the predecessor that the prologue does not have. */
  ghost predicate SameTable(h: Heap, h': Heap) {
    && h'.epi == h.epi && h'.fl == h.fl && h'.bs.Keys == h.bs.Keys
    && forall b {:trigger h'.bs[b]} :: b in h.bs && b in h'.bs ==>
         h'.bs[b] == if b == PROLOGUE then h.bs[b].(prev := h'.bs[b].prev) else h.bs[b]
  }

  function FusePending(pend: set<nat>, p: nat, q: nat, free: bool): set<nat> {
    (set b | b in pend && !(p <= b < q)) + if free then {p} else {}
  }

  lemma FuseListed(h: Heap, pend: set<nat>, p: nat, q: nat, free: bool, b: nat)
    requires Tiling(h.bs, h.epi)
    requires p in h.bs && q in h.bs && PROLOGUE < p < q
    requires forall x :: x in h.bs && p <= x < q ==> x !in h.fl
    requires free || q - p >= 16
    requires b in Fuse(h.bs, p, q, free) && Listed(h, pend, b)
    ensures Listed(h.(bs := Fuse(h.bs, p, q, free)), FusePending(pend, p, q, free), b)
  {
  }

  lemma FuseCoalesced(h: Heap, pend: set<nat>, p: nat, q: nat, free: bool, b: nat)
    requires Tiling(h.bs, h.epi)
    requires p in h.bs && q in h.bs && PROLOGUE < p < q
    requires b in Fuse(h.bs, p, q, free)
    requires Coalesced(h, pend, b)
    requires q in pend || !h.bs[q].free || free
    ensures Coalesced(h.(bs := Fuse(h.bs, p, q, free)), FusePending(pend, p, q, free), b)
  {
    assert Fits(h.bs, h.epi, b) && Apart(h.bs, b, p);
  }

  lemma FuseAccounted(h: Heap, pend: set<nat>, p: nat, q: nat, free: bool)
    requires Tiling(h.bs, h.epi) && Accounted(h, pend)
    requires p in h.bs && q in h.bs && PROLOGUE < p < q
    requires forall b :: b in h.bs && p <= b < q ==> b !in h.fl
    requires free || (q - p >= 16 && !h.bs[q].free)
    ensures Accounted(h.(bs := Fuse(h.bs, p, q, free)), FusePending(pend, p, q, free))
  {
    var bs', pend' := Fuse(h.bs, p, q, free), FusePending(pend, p, q, free);
    var h' := h.(bs := bs');
    forall b | b in bs' ensures Listed(h', pend', b) && Coalesced(h', pend', b) {
      assert Listed(h, pend, b) && Coalesced(h, pend, b);
      FuseListed(h, pend, p, q, free, b);
      FuseCoalesced(h, pend, p, q, free, b);
    }
  }

  function SplitPending(pend: set<nat>, p: nat, m: nat, freeLow: bool, freeHigh: bool): set<nat> {
    (set b | b in pend && b != p) + (if freeLow then {p} else {}) + (if freeHigh then {m} else {})
  }

  lemma SplitListed(h: Heap, pend: set<nat>, p: nat, m: nat, q: nat, freeLow: bool, freeHigh: bool, b: nat)
    requires p in h.bs && q in h.bs && p < m < q && m !in h.bs
    requires p !in h.fl && m !in h.fl && m !in pend
    requires (freeLow || m - p >= 16) && (freeHigh || q - m >= 16)
    requires b in Split(h.bs, p, m, q, freeLow, freeHigh) && (b in h.bs ==> Listed(h, pend, b))
    ensures Listed(h.(bs := Split(h.bs, p, m, q, freeLow, freeHigh)), SplitPending(pend, p, m, freeLow, freeHigh), b)
  {
  }

  lemma SplitCoalesced(h: Heap, pend: set<nat>, p: nat, m: nat, q: nat, freeLow: bool, freeHigh: bool, b: nat)
    requires Tiling(h.bs, h.epi)
    requires p in h.bs && q in h.bs && p < m < q && m !in h.bs && q == p + h.bs[p].size
    requires b in Split(h.bs, p, m, q, freeLow, freeHigh) && (b in h.bs ==> Coalesced(h, pend, b))
    ensures Coalesced(h.(bs := Split(h.bs, p, m, q, freeLow, freeHigh)), SplitPending(pend, p, m, freeLow, freeHigh), b)
  {
    assert b in h.bs ==> Fits(h.bs, h.epi, b);
  }

  lemma SplitAccounted(h: Heap, pend: set<nat>, p: nat, m: nat, q: nat, freeLow: bool, freeHigh: bool)
    requires Tiling(h.bs, h.epi) && Accounted(h, pend)
    requires p in h.bs && q in h.bs && PROLOGUE < p < m < q && q == p + h.bs[p].size && m !in h.bs && p !in h.fl
    requires (freeLow || m - p >= 16) && (freeHigh || q - m >= 16)
    ensures Accounted(h.(bs := Split(h.bs, p, m, q, freeLow, freeHigh)), SplitPending(pend, p, m, freeLow, freeHigh))
  {
    var bs', pend' := Split(h.bs, p, m, q, freeLow, freeHigh), SplitPending(pend, p, m, freeLow, freeHigh);
    var h' := h.(bs := bs');
    forall b | b in bs' ensures Listed(h', pend', b) && Coalesced(h', pend', b) {
      assert b in h.bs ==> Listed(h, pend, b) && Coalesced(h, pend, b);
      SplitListed(h, pend, p, m, q, freeLow, freeHigh, b);
      SplitCoalesced(h, pend, p, m, q, freeLow, freeHigh, b);
    }
  }

  function Grown(h: Heap, size: nat): Heap
    requires h.epi in h.bs
  {
    h.(bs := Extend(h.bs, h.epi, size), epi := h.epi + size)
  }

  lemma ExtendAccounted(h: Heap, size: nat)
    requires Tiling(h.bs, h.epi) && Accounted(h, {}) && h.epi + size !in h.bs && size > 0
    ensures Accounted(Grown(h, size), {h.epi})
  {
    var h' := Grown(h, size);
    assert Fits(h.bs, h.epi, h.epi) && Listed(h, {}, h.epi);
    forall b | b in h'.bs ensures Listed(h', {h.epi}, b) && Coalesced(h', {h.epi}, b) {
      assert b in h.bs ==> Listed(h, {}, b) && Coalesced(h, {}, b) && Fits(h.bs, h.epi, b);
    }
  }

  lemma TailDistinct(fl: seq<nat>)
    requires Distinct(fl) && fl != []
    ensures Distinct(fl[1..]) && fl[0] !in fl[1..]
    ensures forall b {:trigger b in fl[1..]} :: b in fl <==> b == fl[0] || b in fl[1..]
  {
    assert fl == [fl[0]] + fl[1..];
  }

  lemma {:induction false} WithoutMembers(fl: seq<nat>, x: nat, b: nat)
    requires Distinct(fl)
    ensures b in Without(fl, x) <==> b in fl && b != x
  {
    if fl != [] {
      TailDistinct(fl);
      WithoutMembers(fl[1..], x, b);
    }
  }

  lemma {:induction false} WithoutDistinct(fl: seq<nat>, x: nat)
    requires Distinct(fl)
    ensures Distinct(Without(fl, x))
  {
    if fl != [] {
      TailDistinct(fl);
      WithoutDistinct(fl[1..], x);
      WithoutMembers(fl[1..], x, fl[0]);
    }
  }

  lemma WithoutFilters(fl: seq<nat>, x: nat)
    requires Distinct(fl)
    ensures Distinct(Without(fl, x))
    ensures forall b {:trigger b in Without(fl, x)} :: b in Without(fl, x) <==> b in fl && b != x
  {
    WithoutDistinct(fl, x);
    forall b ensures b in Without(fl, x) <==> b in fl && b != x {
      WithoutMembers(fl, x, b);
    }
  }

  lemma EraseAccounted(h: Heap, pend: set<nat>, x: nat)
    requires Accounted(h, pend) && x in h.fl
    ensures Accounted(h.(fl := Without(h.fl, x)), pend + {x})
  {
    var h', pend' := h.(fl := Without(h.fl, x)), pend + {x};
    WithoutFilters(h.fl, x);
    forall i | 0 <= i < |h'.fl| ensures h'.fl[i] in h.bs {
      assert h'.fl[i] in h'.fl;
    }
    forall b | b in h.bs ensures Listed(h', pend', b) && Coalesced(h', pend', b) {
      assert Listed(h, pend, b) && Coalesced(h, pend, b);
    }
  }

  ghost predicate BetweenAllocated(bs: Blocks, p: nat) {
    p in bs && bs[p].prev in bs && !bs[bs[p].prev].free && p + bs[p].size in bs && !bs[p + bs[p].size].free
  }

  lemma InsertAccounted(h: Heap, pend: set<nat>, p: nat)
    requires Tiling(h.bs, h.epi) && Accounted(h, pend)
    requires p in pend && PROLOGUE < p && h.bs[p].size >= 16 && BetweenAllocated(h.bs, p)
    ensures Accounted(h.(fl := [p] + h.fl), pend - {p})
  {
    var h', pend' := h.(fl := [p] + h.fl), pend - {p};
    assert Listed(h, pend, p);
    forall b | b in h.bs ensures Listed(h', pend', b) && Coalesced(h', pend', b) {
      assert Listed(h, pend, b) && Coalesced(h, pend, b) && Fits(h.bs, h.epi, b);
    }
  }
}
