/** The faulty branches of mm_realloc. */
module Unguarded {
  // No reading of the memory that they leave behind is a heap in which the other blocks
  // are still there.

  import opened MemLib
  import opened Packing
  import opened HeapShape
  import opened FreeRing
  import opened HeapTable
  import opened HeapState
  import opened HeapSpec
  import opened SpecMalloc
  import opened SpecRealloc
  import opened Merging
  import opened Regrowing

  /** The words say that p is free, or that it reaches up to e, or that behind p comes a block
      x that is free and reaches up to e or denies that p is allocated. */
  ghost predicate Overclaims(M: seq<Word>, p: nat, x: nat, e: nat) {
    && 4 <= p < x <= |M|
    && ( || !AllocOf(M[p - 4])
         || p + SizeOf(M[p - 4]) >= e
         || (p + SizeOf(M[p - 4]) == x && !AllocOf(M[x - 4]) && (!TagOf(M[x - 4]) || x + SizeOf(M[x - 4]) >= e)))
  }

  lemma MiddleEnds(M': seq<Word>, h': Heap, m: nat)
    requires State(M', h', {}, {}) && m in h'.bs && PROLOGUE < m <= |M'| && !AllocOf(M'[m - 4])
    ensures h'.bs[m].free && m != h'.epi && m + SizeOf(M'[m - 4]) <= h'.epi && SizeOf(M'[m - 4]) == h'.bs[m].size
  {
    assert Header(M', h'.bs, m);
    Around(M', h', {}, {}, m);
  }

  /** If p is live nevertheless, a block that starts inside the claimed range is not allocated
      any more, and the epilogue is not inside it. */
  lemma OverrunLoses(M': seq<Word>, h': Heap, p: nat, x: nat, e: nat, q: nat)
    requires State(M', h', {}, {}) && LiveBlock(h', p) && Overclaims(M', p, x, e)
    requires p < q < e
    ensures !LiveBlock(h', q) && q != h'.epi
  {
    LiveFacts(M', h', p);
    assert q in h'.bs ==> Apart(h'.bs, p, q);
    if p + SizeOf(M'[p - 4]) < e {
      MiddleEnds(M', h', x);
      assert q in h'.bs ==> Apart(h'.bs, x, q);
    }
  }

  /** Storing an offset or a plain size anywhere keeps the claim. */
  lemma PlainStoreKeeps(M: seq<Word>, p: nat, x: nat, e: nat, a: nat, w: Word)
    requires Overclaims(M, p, x, e) && a < |M| && w % 4 == 0
    ensures Overclaims(M[a := w], p, x, e)
  {
  }

  /** No heap up to brk that the words represent is h with p grown in place. */
  ghost predicate Ruined(M': seq<Word>, h: Heap, p: nat, asize: nat, brk: nat) {
    forall h': Heap {:trigger State(M', h', {}, {})} :: State(M', h', {}, {}) && h'.epi == brk ==>
      !Reallocated(h, h', p, p, asize)
  }

  /** mm.c:391-404: the next block is allocated and the last one.  The branch ends by giving
      ptr a size that reaches into it; after that no heap still has that block. */
  lemma LastTwoLoses(M': seq<Word>, h: Heap, p: nat, size: nat, brk: nat)
    requires Sound(h, {}) && LiveBlock(h, p) && LastTwo(h, p) && NextOf(h.bs, p) != h.epi
    requires AllocSize(size) > h.bs[p].size
    requires 4 <= p <= |M'| && SizeOf(M'[p - 4]) == AllocSize(size)
    ensures Ruined(M', h, p, AllocSize(size), brk)
  {
    LiveBlockBounds(h, p);
    var n := NextOf(h.bs, p);
    assert LiveBlock(h, n);
    forall h': Heap | State(M', h', {}, {}) && h'.epi == brk ensures !Reallocated(h, h', p, p, AllocSize(size)) {
      if Reallocated(h, h', p, p, AllocSize(size)) {
        LiveFacts(M', h', p);
        OverrunLoses(M', h', p, p + 8, p + AllocSize(size), n);
      }
    }
  }

  lemma EndOfRoom(M: seq<Word>, h: Heap, p: nat)
    requires State(M, h, {}, {}) && LiveBlock(h, p)
    ensures var q := MergeEnd(h.bs, p);
      && q == p + h.bs[p].size + NextRoom(h, p) && p < q && q in h.bs && PROLOGUE < q && !h.bs[q].free
  {
    var n := NextOf(h.bs, p);
    LiveFacts(M, h, p);
    if IsFree(h.bs, n) {
      Around(M, h, {}, {}, n);
      assert Coalesced(h, {}, n);
    }
  }

  /** mm.c:412-446: the predecessor is allocated, but a payload word of it leads to a word
      whose flag is clear and whose size is taken for room.  The branch ends by claiming the
      phantom room behind the real one; after that no heap of the same extent still has
      every other block. */
  lemma PhantomLoses(M: seq<Word>, M': seq<Word>, h: Heap, p: nat, x: nat, size: nat)
    requires State(M, h, {}, {}) && LiveBlock(h, p) && PrevReadable(M, h, p)
    requires !IsFree(h.bs, PrevOf(h.bs, p)) && Phantom(M, p) > 0
    requires Overclaims(M', p, x, p + h.bs[p].size + Phantom(M, p) + NextRoom(h, p))
    ensures Ruined(M', h, p, AllocSize(size), h.epi)
  {
    var q := MergeEnd(h.bs, p);
    EndOfRoom(M, h, p);
    forall h': Heap | State(M', h', {}, {}) && h'.epi == h.epi ensures !Reallocated(h, h', p, p, AllocSize(size)) {
      if Reallocated(h, h', p, p, AllocSize(size)) {
        OverrunLoses(M', h', p, x, p + h.bs[p].size + Phantom(M, p) + NextRoom(h, p), q);
        assert q != h.epi ==> LiveBlock(h, q);
      }
    }
  }

  // mm.c:396 on a block that is not on the list

  /** Both links that ERASE follows from n lead to words below the break. */
  ghost predicate LinksInside(M: seq<Word>, n: nat, brk: nat) {
    && n + 8 <= brk <= |M|
    && HEAD + M[n] + 8 <= brk && WordAddress(HEAD + M[n] + 4)
    && HEAD + M[n + 4] + 4 <= brk && WordAddress(HEAD + M[n + 4])
  }

  /** The words after ERASE(n), whatever the words at n are: the second write follows the
      links as the first one left them. */
  ghost function EraseWords(M: seq<Word>, n: nat): seq<Word>
    requires LinksInside(M, n, |M|)
  {
    var M1 := M[HEAD + M[n] + 4 := M[n + 4]];
    M1[HEAD + M[n + 4] := M1[n]]
  }

  /** Link cells of the free list, the sentinel's included. */
  ghost predicate ListCell(h: Heap, x: nat) {
    x == HEAD || x == HEAD + 4 || x in h.fl || (x >= 4 && x - 4 in h.fl)
  }

  ghost predicate FooterCell(h: Heap, b: nat, x: nat) {
    b in h.bs && h.bs[b].free && b + h.bs[b].size == x + 8
  }

  /** Word x may become w without harm: it is no header, no link cell of the list unless w
      is what it holds, and no footer unless w has the size that it holds. */
  ghost predicate Harmless(M: seq<Word>, h: Heap, x: nat, w: Word) {
    && x < |M| && x + 4 !in h.bs
    && (ListCell(h, x) ==> w == M[x])
    && (forall b {:trigger FooterCell(h, b, x)} :: FooterCell(h, b, x) ==> SizeOf(w) == SizeOf(M[x]))
  }

  /** An offset has neither flag set, but every header has one. */
  lemma HeaderLost(M: seq<Word>, M': seq<Word>, h: Heap, b: nat)
    requires State(M, h, {}, {}) && State(M', h, {}, {}) && b in h.bs
    ensures 4 <= b <= |M'| && M'[b - 4] % 4 != 0
  {
    assert Header(M', h.bs, b) && Fits(h.bs, h.epi, b) && Listed(h, {}, b);
    if h.bs[b].free {
      Before(M', h, {}, {}, b);
      assert Coalesced(h, {}, h.bs[b].prev);
    }
  }

  lemma CellKept(M: seq<Word>, M': seq<Word>, h: Heap, x: nat)
    requires Ring(M, h.fl) && Ring(M', h.fl) && ListCell(h, x)
    ensures x < |M| && x < |M'| && M'[x] == M[x]
  {
    if x == HEAD + 4 {
      assert LinkAt(M, h.fl, 0) && LinkAt(M', h.fl, 0);
    } else if x == HEAD {
      assert LinkAt(M, h.fl, |h.fl|) && LinkAt(M', h.fl, |h.fl|);
    } else if x in h.fl {
      var i :| 0 <= i < |h.fl| && h.fl[i] == x;
      assert LinkAt(M, h.fl, i) && LinkAt(M', h.fl, i);
    } else {
      var i :| 0 <= i < |h.fl| && h.fl[i] == x - 4;
      assert LinkAt(M, h.fl, i + 1) && LinkAt(M', h.fl, i + 1);
    }
  }

  lemma HarmlessWhenKept(M: seq<Word>, M': seq<Word>, h: Heap, x: nat)
    requires State(M, h, {}, {}) && State(M', h, {}, {}) && x < |M| && M'[x] % 4 == 0
    ensures Harmless(M, h, x, M'[x])
  {
    hide Tiling, Aligned, Header, SizeOf, Accounted;
    if x + 4 in h.bs { HeaderLost(M, M', h, x + 4); }
    if ListCell(h, x) { CellKept(M, M', h, x); }
    forall b | FooterCell(h, b, x) ensures SizeOf(M'[x]) == SizeOf(M[x]) {
      assert Footer(M, h.bs, b) && Footer(M', h.bs, b);
    }
  }

  lemma KeptWhenHarmless(M: seq<Word>, M': seq<Word>, h: Heap)
    requires State(M, h, {}, {}) && |M'| == |M|
    requires forall x: nat {:trigger M'[x]} :: x < |M| && M'[x] != M[x] ==> Harmless(M, h, x, M'[x])
    ensures State(M', h, {}, {})
  {
    hide SizeOf, AllocOf, TagOf, LowBits, Accounted;
    forall b | b in h.bs ensures Header(M', h.bs, b) && Footer(M', h.bs, b) {
      assert Header(M, h.bs, b) && Footer(M, h.bs, b);
      assert M'[b - 4] == M[b - 4];
      if h.bs[b].free { assert FooterCell(h, b, b + h.bs[b].size - 8); }
    }
    forall i | 0 <= i <= |h.fl| ensures LinkAt(M', h.fl, i) {
      assert LinkAt(M, h.fl, i);
      assert ListCell(h, At(h.fl, i) + 4) && ListCell(h, At(h.fl, i + 1));
    }
  }

  /** Neither of the two words that ERASE(n) writes matters, or both keep what matters. */
  ghost predicate HarmlessErase(M: seq<Word>, h: Heap, n: nat)
    requires LinksInside(M, n, |M|)
  {
    var M', a, c := EraseWords(M, n), HEAD + M[n] + 4, HEAD + M[n + 4];
    Harmless(M, h, a, M'[a]) && Harmless(M, h, c, M'[c])
  }

  /** Exactly when ERASE of a block that is not on the list does no harm. */
  lemma EraseSpares(M: seq<Word>, h: Heap, n: nat)
    requires State(M, h, {}, {}) && LinksInside(M, n, h.epi)
    ensures LinksInside(M, n, |M|)
    ensures State(EraseWords(M, n), h, {}, {}) <==> HarmlessErase(M, h, n)
  {
    hide State, Harmless;
    var M', a, c := EraseWords(M, n), HEAD + M[n] + 4, HEAD + M[n + 4];
    if State(M', h, {}, {}) {
      HarmlessWhenKept(M, M', h, a);
      HarmlessWhenKept(M, M', h, c);
    } else if Harmless(M, h, a, M'[a]) && Harmless(M, h, c, M'[c]) {
      KeptWhenHarmless(M, M', h);
    }
  }

  lemma EmptyListCells(M: seq<Word>, h: Heap)
    requires State(M, h, {}, {})
    ensures HEAD + 4 < |M| && (h.fl == [] <==> M[HEAD] == 0 && M[HEAD + 4] == 0)
    ensures Harmless(M, h, HEAD, M[HEAD]) && Harmless(M, h, HEAD + 4, M[HEAD + 4])
  {
    assert LinkAt(M, h.fl, 0) && LinkAt(M, h.fl, |h.fl|);
    assert HEAD + 4 in h.bs ==> Fits(h.bs, h.epi, HEAD + 4);
    assert HEAD + 8 in h.bs ==> Fits(h.bs, h.epi, HEAD + 8);
    if h.fl != [] { ListedNodesAreRoomy(M, h, {}, {}, h.fl[0]); }
  }

  /** For example, if the block starts with two zero words, ERASE empties the list. */
  lemma ZeroLinksLoseList(M: seq<Word>, h: Heap, n: nat)
    requires State(M, h, {}, {}) && LiveBlock(h, n)
    requires n + 4 < |M| && M[n] == 0 && M[n + 4] == 0
    ensures LinksInside(M, n, h.epi) && h.epi <= |M|
    ensures State(EraseWords(M, n), h, {}, {}) <==> h.fl == []
  {
    hide State;
    LiveFacts(M, h, n);
    EraseSpares(M, h, n);
    EmptyListCells(M, h);
  }
}
