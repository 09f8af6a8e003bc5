/** coalesce and place on block tables. */
module HeapSpec {
  // The allocator on tables and lists alone: no words, no links.  Each function is the
  // meaning of one routine.

  import opened MemLib
  import opened HeapShape
  import opened FreeRing
  import opened HeapTable

  function PrevOf(bs: Blocks, x: nat): nat
    requires x in bs
  {
    bs[x].prev
  }

  function NextOf(bs: Blocks, x: nat): nat
    requires x in bs
  {
    x + bs[x].size
  }

  predicate IsFree(bs: Blocks, x: nat) {
    x in bs && bs[x].free
  }

  /** Where the block that coalesce forms around x starts and ends. */
  function MergeStart(bs: Blocks, x: nat): nat
    requires x in bs
  {
    if IsFree(bs, PrevOf(bs, x)) then PrevOf(bs, x) else x
  }

  function MergeEnd(bs: Blocks, x: nat): nat
    requires x in bs
  {
    var n := NextOf(bs, x);
    if IsFree(bs, n) then NextOf(bs, n) else n
  }

  lemma MergeBounds(bs: Blocks, epi: nat, x: nat)
    requires Tiling(bs, epi) && x in bs && PROLOGUE < x && x != epi
    ensures var p, q := MergeStart(bs, x), MergeEnd(bs, x);
      && p in bs && q in bs && PROLOGUE < p <= x && p + 8 <= q && x + 8 <= q
      && forall b {:trigger b in bs} :: b in bs && p <= b < q ==>
         b == x || (bs[b].free && (b == PrevOf(bs, x) || b == NextOf(bs, x)))
  {
    var p, n, q := MergeStart(bs, x), NextOf(bs, x), MergeEnd(bs, x);
    assert Fits(bs, epi, x) && Fits(bs, epi, n) && Fits(bs, epi, p);
    forall b | b in bs && p <= b < q
      ensures b == x || (bs[b].free && (b == PrevOf(bs, x) || b == NextOf(bs, x)))
    {
      assert Apart(bs, p, b) && Apart(bs, x, b) && Apart(bs, n, b);
    }
  }

  /** coalesce: the free neighbours of x leave the list and become one block with x. */
  function Coalesce(h: Heap, x: nat): Heap
    requires Tiling(h.bs, h.epi) && x in h.bs && PROLOGUE < x && x != h.epi
  {
    MergeBounds(h.bs, h.epi, x);
    var fl1 := if IsFree(h.bs, PrevOf(h.bs, x)) then Without(h.fl, PrevOf(h.bs, x)) else h.fl;
    var fl2 := if IsFree(h.bs, NextOf(h.bs, x)) then Without(fl1, NextOf(h.bs, x)) else fl1;
    h.(bs := Fuse(h.bs, MergeStart(h.bs, x), MergeEnd(h.bs, x), true), fl := fl2)
  }

  lemma FuseOfOneIsNothing(bs: Blocks, epi: nat, x: nat)
    requires Tiling(bs, epi) && x in bs && x != epi
    ensures NextOf(bs, x) in bs && x < NextOf(bs, x)
    ensures Fuse(bs, x, NextOf(bs, x), bs[x].free) == bs
  {
    assert Fits(bs, epi, x);
    forall b | b in bs ensures b in Fuse(bs, x, NextOf(bs, x), bs[x].free) {
      assert Apart(bs, x, b);
    }
  }

  /** place: what becomes of pending block p when asize bytes of it are handed out, and
      the address handed out.  Large requests are taken from the back. */
  function Place(h: Heap, p: nat, asize: nat): (Heap, nat)
    requires p in h.bs && NextOf(h.bs, p) in h.bs && 16 <= asize <= h.bs[p].size
  {
    var size, q := h.bs[p].size, NextOf(h.bs, p);
    if size - asize < 16 then
      (h.(bs := Fuse(h.bs, p, q, false)), p)
    else if asize < 96 || size - asize < 32 then
      (h.(bs := Split(h.bs, p, p + asize, q, false, true), fl := [p + asize] + h.fl), p)
    else
      (h.(bs := Split(h.bs, p, q - asize, q, true, false), fl := [p] + h.fl), q - asize)
  }

  ghost predicate LiveBlock(h: Heap, p: nat) {
    p in h.bs && !h.bs[p].free && PROLOGUE < p && p != h.epi
  }

  /** Every live block of h is still there, unchanged, in h'; ex aside. */
  ghost predicate LiveKept(h: Heap, h': Heap, ex: set<nat>) {
    forall b {:trigger LiveBlock(h, b)} :: LiveBlock(h, b) && b !in ex ==>
      LiveBlock(h', b) && h'.bs[b].size == h.bs[b].size
  }

  /** The pending blocks of a merge: x and its free neighbours. */
  function MergeSet(bs: Blocks, x: nat): set<nat>
    requires x in bs
  {
    {x} + (if IsFree(bs, PrevOf(bs, x)) then {PrevOf(bs, x)} else {})
        + (if IsFree(bs, NextOf(bs, x)) then {NextOf(bs, x)} else {})
  }

  lemma MergeErases(h: Heap, x: nat)
    requires Sound(h, {x}) && PROLOGUE < x && x != h.epi
    ensures Accounted(h.(fl := Coalesce(h, x).fl), MergeSet(h.bs, x))
  {
    var p, n := PrevOf(h.bs, x), NextOf(h.bs, x);
    assert Fits(h.bs, h.epi, x);
    assert Listed(h, {x}, p) && Listed(h, {x}, n);
    var h1 := h;
    if IsFree(h.bs, p) {
      EraseAccounted(h, {x}, p);
      h1 := h.(fl := Without(h.fl, p));
      assert {x} + {p} == {x} + {p} + {};
      assert Listed(h1, {x} + {p}, n);
    }
    if IsFree(h.bs, n) {
      EraseAccounted(h1, if IsFree(h.bs, p) then {x} + {p} else {x}, n);
      assert {x} + {n} == {x} + {} + {n};
    } else {
      assert {x} == {x} + {} + {};
    }
  }

  /** After coalesce the block is alone among allocated neighbours, and nothing live moved. */
  lemma CoalesceSound(h: Heap, x: nat)
    requires Sound(h, {x}) && PROLOGUE < x && x != h.epi
    ensures var h', r := Coalesce(h, x), MergeStart(h.bs, x);
      && Sound(h', {r}) && r in h'.bs && PROLOGUE < r < h'.epi == h.epi && h'.bs[r].size >= h.bs[x].size
      && LiveKept(h, h', {x})
  {
    var p, q := MergeStart(h.bs, x), MergeEnd(h.bs, x);
    var h1 := h.(fl := Coalesce(h, x).fl);
    MergeBounds(h.bs, h.epi, x);
    MergeErases(h, x);
    var pend := MergeSet(h.bs, x);
    forall b | b in h.bs && p <= b < q ensures b !in h1.fl {
      assert Listed(h1, pend, b);
    }
    FuseAccounted(h1, pend, p, q, true);
    assert Fits(h.bs, h.epi, x) && Fits(h.bs, h.epi, q) && Fits(h.bs, h.epi, NextOf(h.bs, x));
    assert FusePending(pend, p, q, true) == {p};
    FuseTiles(h.bs, h.epi, p, q, true);
    FuseAligns(h.bs, p, q, true);
  }

  lemma CoalesceSeparates(h: Heap, x: nat)
    requires Sound(h, {x}) && PROLOGUE < x && x != h.epi
    ensures BetweenAllocated(Coalesce(h, x).bs, MergeStart(h.bs, x))
  {
    var p, n := PrevOf(h.bs, x), NextOf(h.bs, x);
    MergeBounds(h.bs, h.epi, x);
    assert Fits(h.bs, h.epi, x) && Fits(h.bs, h.epi, n) && Fits(h.bs, h.epi, p);
    assert Coalesced(h, {x}, n);
    assert Apart(h.bs, p, x);
    if IsFree(h.bs, p) {
      assert Coalesced(h, {x}, PrevOf(h.bs, p));
      assert Fits(h.bs, h.epi, PrevOf(h.bs, p));
    }
  }

  lemma PrologueFirst(h: Heap, b: nat)
    requires Tiling(h.bs, h.epi) && b in h.bs && b != PROLOGUE
    ensures PROLOGUE < b
  {
    assert Fits(h.bs, h.epi, b);
  }

  /** A free block ends where an allocated one starts. */
  lemma NoLonger(h: Heap, h': Heap, b: nat)
    requires Sound(h, {}) && Sound(h', {}) && h'.epi == h.epi && b in h.bs && b in h'.bs && PROLOGUE < b && b != h.epi
    requires LiveKept(h, h', {}) && h.bs[b].free && h'.bs[b].free
    ensures h'.bs[b].size <= h.bs[b].size
  {
    var c := NextOf(h.bs, b);
    assert Fits(h.bs, h.epi, b) && Coalesced(h, {}, b);
    assert Fits(h'.bs, h.epi, b) && Fits(h'.bs, h.epi, NextOf(h'.bs, b));
    if c != h.epi {
      assert LiveBlock(h, c) && LiveBlock(h', c);
      assert Apart(h'.bs, b, c);
    }
  }

  lemma SameKind(h: Heap, h': Heap, b: nat)
    requires Sound(h, {}) && Sound(h', {}) && h'.epi == h.epi && b in h.bs && b in h'.bs && PROLOGUE < b && b != h.epi
    requires LiveKept(h, h', {}) && LiveKept(h', h, {})
    ensures h'.bs[b].size == h.bs[b].size && h'.bs[b].free == h.bs[b].free
  {
    assert LiveBlock(h, b) <==> LiveBlock(h', b);
    if h.bs[b].free {
      NoLonger(h, h', b);
      NoLonger(h', h, b);
    }
  }

  lemma {:induction false} SameEntry(h: Heap, h': Heap, b: nat)
    requires Sound(h, {}) && Sound(h', {}) && h'.epi == h.epi && b in h.bs
    requires LiveKept(h, h', {}) && LiveKept(h', h, {})
    ensures b in h'.bs && h'.bs[b].size == h.bs[b].size && (b != PROLOGUE ==> h'.bs[b] == h.bs[b])
    decreases b
  {
    hide Aligned;
    if b != PROLOGUE {
      var p := h.bs[b].prev;
      assert Fits(h.bs, h.epi, b);
      SameEntry(h, h', p);
      assert Fits(h'.bs, h.epi, p);
      if b != h.epi {
        PrologueFirst(h, b);
        SameKind(h, h', b);
      }
    }
  }

  /** In a sound heap the free blocks are the gaps between the live ones, so those and the break
      determine the table. */
  lemma LiveBlocksDetermineTable(h: Heap, h': Heap)
    requires Sound(h, {}) && Sound(h', {}) && h'.epi == h.epi && h'.fl == h.fl
    requires LiveKept(h, h', {}) && LiveKept(h', h, {})
    ensures SameTable(h, h')
  {
    forall b: nat ensures (b in h.bs <==> b in h'.bs) && (b in h.bs && b != PROLOGUE ==> h'.bs[b] == h.bs[b]) {
      if b in h.bs { SameEntry(h, h', b); }
      if b in h'.bs { SameEntry(h', h, b); }
    }
  }
}
