/** The heap invariant read off the words. */
module HeapWalk {
  import opened MemLib
  import opened Packing
  import opened HeapShape
  import opened FreeRing
  import opened HeapTable
  import opened HeapState
  import opened HeapSpec

  /** The blocks that a walk by sizes visits, from b up to the epilogue. */
  ghost function Walk(bs: Blocks, epi: nat, b: nat): seq<nat>
    requires Tiling(bs, epi) && b in bs
    decreases epi - b
  {
    assert Fits(bs, epi, b);
    if b == epi then [] else [b] + Walk(bs, epi, NextOf(bs, b))
  }

  function SizeSum(bs: Blocks, walk: seq<nat>): nat {
    if walk == [] then 0 else (if walk[0] in bs then bs[walk[0]].size else 0) + SizeSum(bs, walk[1..])
  }

  ghost predicate Rising(walk: seq<nat>) {
    forall i, j {:trigger walk[i], walk[j]} :: 0 <= i < j < |walk| ==> walk[i] < walk[j]
  }

  lemma StepRises(b: nat, v: seq<nat>, n: nat)
    requires Rising(v) && b < n && forall c: nat {:trigger c in v} :: c in v ==> n <= c
    ensures Rising([b] + v)
  {
    var w := [b] + v;
    forall i, j | 0 <= i < j < |w| ensures w[i] < w[j] {
      assert w[j] == v[j - 1] && v[j - 1] in v;
    }
  }

  lemma NoneBetween(bs: Blocks, epi: nat, b: nat, c: nat)
    requires Tiling(bs, epi) && b in bs && b != epi
    ensures NextOf(bs, b) in bs && b < NextOf(bs, b) <= epi && (c in bs && b < c ==> NextOf(bs, b) <= c)
  {
    assert Fits(bs, epi, b) && Apart(bs, b, epi);
    assert c in bs ==> Apart(bs, b, c);
  }

  lemma WalkStep(bs: Blocks, epi: nat, b: nat)
    requires Tiling(bs, epi) && b in bs && b != epi && NextOf(bs, b) in bs
    requires Rising(Walk(bs, epi, NextOf(bs, b))) && SizeSum(bs, Walk(bs, epi, NextOf(bs, b))) == epi - NextOf(bs, b)
    requires forall c: nat {:trigger c in Walk(bs, epi, NextOf(bs, b))} :: c in Walk(bs, epi, NextOf(bs, b)) <==>
      c in bs && NextOf(bs, b) <= c < epi
    ensures Rising(Walk(bs, epi, b)) && SizeSum(bs, Walk(bs, epi, b)) == epi - b
    ensures forall c: nat {:trigger c in Walk(bs, epi, b)} :: c in Walk(bs, epi, b) <==> c in bs && b <= c < epi
  {
    hide Tiling, Rising;
    var v := Walk(bs, epi, NextOf(bs, b));
    NoneBetween(bs, epi, b, b);
    assert ([b] + v)[1..] == v;
    StepRises(b, v, NextOf(bs, b));
    forall c: nat ensures c in Walk(bs, epi, b) <==> c in bs && b <= c < epi {
      NoneBetween(bs, epi, b, c);
      assert c in [b] + v <==> c == b || c in v;
    }
  }

  lemma {:induction false} WalkVisits(bs: Blocks, epi: nat, b: nat)
    requires Tiling(bs, epi) && b in bs
    ensures Rising(Walk(bs, epi, b)) && SizeSum(bs, Walk(bs, epi, b)) == epi - b
    ensures forall c: nat {:trigger c in Walk(bs, epi, b)} :: c in Walk(bs, epi, b) <==> c in bs && b <= c < epi
    decreases epi - b
  {
    hide Tiling;
    if b != epi {
      NoneBetween(bs, epi, b, b);
      WalkVisits(bs, epi, NextOf(bs, b));
      WalkStep(bs, epi, b);
    } else {
      forall c: nat ensures c in Walk(bs, epi, b) <==> c in bs && b <= c < epi {}
    }
  }

  /** Walking by NEXT_BLOCK through the words, from b up to the first size 0. */
  function WordWalk(M: seq<Word>, b: nat): seq<nat>
    decreases |M| - b
  {
    if b < 4 || b > |M| || SizeOf(M[b - 4]) == 0 then [] else [b] + WordWalk(M, b + SizeOf(M[b - 4]))
  }

  function WordSum(M: seq<Word>, walk: seq<nat>): nat {
    if walk == [] then 0 else (if 4 <= walk[0] <= |M| then SizeOf(M[walk[0] - 4]) else 0) + WordSum(M, walk[1..])
  }

  lemma HeaderOf(M: seq<Word>, h: Heap, b: nat)
    requires State(M, h, {}, {}) && b in h.bs
    ensures 4 <= b <= |M| && SizeOf(M[b - 4]) == h.bs[b].size && (h.bs[b].size == 0 <==> b == h.epi)
    ensures Tiling(h.bs, h.epi)
  {
    assert Header(M, h.bs, b) && Fits(h.bs, h.epi, b);
  }

  /** The headers lead along the blocks of the table. */
  lemma {:induction false} WordsLeadAlong(M: seq<Word>, h: Heap, b: nat)
    requires State(M, h, {}, {}) && b in h.bs
    ensures WordWalk(M, b) == Walk(h.bs, h.epi, b) && WordSum(M, WordWalk(M, b)) == SizeSum(h.bs, Walk(h.bs, h.epi, b))
    decreases h.epi - b
  {
    hide SizeOf, Tiling, Aligned, Threaded;
    HeaderOf(M, h, b);
    if b != h.epi {
      NoneBetween(h.bs, h.epi, b, b);
      var n := NextOf(h.bs, b);
      WordsLeadAlong(M, h, n);
      assert ([b] + WordWalk(M, n))[1..] == WordWalk(M, n);
    }
  }

  lemma FirstIsLow(bs: Blocks, epi: nat, b: nat)
    requires Tiling(bs, epi) && b in bs && b != PROLOGUE && b != epi
    ensures FIRST <= b < epi
  {
    assert Fits(bs, epi, b) && Apart(bs, PROLOGUE, b);
  }

  lemma FirstBlock(M: seq<Word>, h: Heap)
    requires State(M, h, {}, {})
    ensures FIRST in h.bs && FIRST <= h.epi && FIRST != PROLOGUE
  {
    Around(M, h, {}, {}, PROLOGUE);
    assert Apart(h.bs, PROLOGUE, h.epi);
  }

  /** The invariant of the allocator, read off the words: walking the headers from the
      first block visits every block once, in address order, and the sizes add up to the
      whole region between the prologue and the epilogue. */
  lemma HeapTiled(M: seq<Word>, h: Heap)
    requires State(M, h, {}, {})
    ensures var w := WordWalk(M, FIRST);
      && Rising(w) && FIRST <= h.epi && WordSum(M, w) == h.epi - FIRST
      && forall b {:trigger b in w} :: b in w <==> b in h.bs && b != PROLOGUE && b != h.epi
  {
    FirstBlock(M, h);
    WordsLeadAlong(M, h, FIRST);
    WalkVisits(h.bs, h.epi, FIRST);
    forall b | b in h.bs && b != PROLOGUE && b != h.epi ensures FIRST <= b < h.epi {
      FirstIsLow(h.bs, h.epi, b);
    }
  }

  /** What every block of a consistent heap looks like in the words. */
  lemma BlocksTagged(M: seq<Word>, h: Heap, b: nat)
    requires State(M, h, {}, {}) && b in WordWalk(M, FIRST)
    ensures FIRST <= b && b + 8 <= |M| && b in h.bs && b % 8 == 0 && h.bs[b].size % 8 == 0 && h.bs[b].size >= 16
    ensures var n := b + SizeOf(M[b - 4]);
      && n in h.bs && n <= |M|
      && SizeOf(M[b - 4]) == h.bs[b].size && (AllocOf(M[b - 4]) <==> !h.bs[b].free)
      && (TagOf(M[n - 4]) <==> AllocOf(M[b - 4]))
      && (!AllocOf(M[b - 4]) ==> SizeOf(M[n - 8]) == SizeOf(M[b - 4]))
      && (!AllocOf(M[b - 4]) ==> AllocOf(M[n - 4]))
      && (AllocOf(M[b - 4]) <==> b !in h.fl)
  {
    hide Walk, WordWalk;
    FirstBlock(M, h);
    WordsLeadAlong(M, h, FIRST);
    WalkVisits(h.bs, h.epi, FIRST);
    Around(M, h, {}, {}, b);
    assert Listed(h, {}, b) && Coalesced(h, {}, b);
  }

  lemma {:induction false} SameBlock(M: seq<Word>, h: Heap, h': Heap, pend: set<nat>, pend': set<nat>, nf: set<nat>,
        nf': set<nat>, b: nat)
    requires State(M, h, pend, nf) && State(M, h', pend', nf') && b in h.bs
    ensures b in h'.bs && h'.bs[b].size == h.bs[b].size && (b != PROLOGUE ==> h'.bs[b] == h.bs[b])
    decreases b
  {
    hide SizeOf, AllocOf, TagOf, Ring, Accounted, Aligned;
    if b != PROLOGUE {
      var p := h.bs[b].prev;
      assert Fits(h.bs, h.epi, b);
      SameBlock(M, h, h', pend, pend', nf, nf', p);
      assert Fits(h'.bs, h'.epi, p);
    }
    assert Header(M, h.bs, b) && Header(M, h'.bs, b);
  }

  /** The words determine the heap that they represent: break, blocks and free list. */
  lemma WordsDetermineHeap(M: seq<Word>, h: Heap, h': Heap, pend: set<nat>, pend': set<nat>, nf: set<nat>,
        nf': set<nat>)
    requires State(M, h, pend, nf) && State(M, h', pend', nf')
    ensures SameTable(h, h')
  {
    forall b: nat ensures (b in h.bs <==> b in h'.bs) && (b in h.bs && b != PROLOGUE ==> h'.bs[b] == h.bs[b]) {
      if b in h.bs { SameBlock(M, h, h', pend, pend', nf, nf', b); }
      if b in h'.bs { SameBlock(M, h', h, pend', pend, nf', nf, b); }
    }
    SameBlock(M, h, h', pend, pend', nf, nf', h.epi);
    assert Fits(h'.bs, h'.epi, h.epi);
    RingIsUnique(M, h.fl, h'.fl);
  }
}
