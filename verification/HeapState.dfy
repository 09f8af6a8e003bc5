/** What the words of the heap say about the block table and the free list, and how
    that survives the three ways in which mm.c reshapes the table. */
module HeapState {
  import opened MemLib
  import opened Packing
  import opened HeapShape
  import opened FreeRing
  import opened HeapTable

  ghost predicate Header(M: seq<Word>, bs: Blocks, b: nat)
    requires b in bs
  {
    && 4 <= b <= |M|
    && SizeOf(M[b - 4]) == bs[b].size
    && (AllocOf(M[b - 4]) <==> !bs[b].free)
    && (b != PROLOGUE && bs[b].prev in bs ==> (TagOf(M[b - 4]) <==> !bs[bs[b].prev].free))
  }

  /** Only free blocks have a footer; its low three bits are arbitrary. */
  ghost predicate Footer(M: seq<Word>, bs: Blocks, b: nat)
    requires b in bs
  {
    bs[b].free ==> 8 <= b + bs[b].size < |M| + 8 && SizeOf(M[b + bs[b].size - 8]) == bs[b].size
  }

  /** The boundary tags in M describe the blocks of h; those in nf still lack a footer. */
  ghost predicate Tagged(M: seq<Word>, h: Heap, nf: set<nat>) {
    && |M| == MAX_HEAP && h.epi <= MAX_HEAP
    && Tiling(h.bs, h.epi) && Aligned(h.bs)
    && (forall b {:trigger Header(M, h.bs, b)} :: b in h.bs ==> Header(M, h.bs, b))
    && (forall b {:trigger Footer(M, h.bs, b)} :: b in h.bs && b !in nf ==> Footer(M, h.bs, b))
  }

  /** The list in M is h.fl. */
  ghost predicate Threaded(M: seq<Word>, h: Heap, pend: set<nat>) {
    Ring(M, h.fl) && Accounted(h, pend)
  }

  /** The words M represent the heap h, up to the blocks in pend and nf. */
  ghost predicate State(M: seq<Word>, h: Heap, pend: set<nat>, nf: set<nat>) {
    Tagged(M, h, nf) && Threaded(M, h, pend)
  }

  lemma StateIsSound(M: seq<Word>, h: Heap, pend: set<nat>, nf: set<nat>)
    requires State(M, h, pend, nf)
    ensures Sound(h, pend)
  {
  }

  /** Only words from lo to hi differ. */
  ghost predicate Within(M: seq<Word>, M': seq<Word>, lo: int, hi: int) {
    |M'| == |M| && forall x {:trigger M'[x]} :: 0 <= x < |M| && (x < lo || hi < x) ==> M'[x] == M[x]
  }

  /** The header words at the two ends of a run [p, q) that becomes one block. */
  ghost predicate FuseWords(M: seq<Word>, M': seq<Word>, p: nat, q: nat, free: bool) {
    && 4 <= p < q <= |M|
    && Within(M, M', p - 4, q - 4)
    && SizeOf(M'[p - 4]) == q - p && AllocOf(M'[p - 4]) == !free && TagOf(M'[p - 4]) == TagOf(M[p - 4])
    && SizeOf(M'[q - 4]) == SizeOf(M[q - 4]) && AllocOf(M'[q - 4]) == AllocOf(M[q - 4]) && TagOf(M'[q - 4]) == !free
  }

  lemma FuseHeader(M: seq<Word>, M': seq<Word>, bs: Blocks, epi: nat, p: nat, q: nat, free: bool, b: nat)
    requires Tiling(bs, epi)
    requires p in bs && q in bs && PROLOGUE < p < q
    requires FuseWords(M, M', p, q, free)
    requires b in Fuse(bs, p, q, free) && Header(M, bs, b)
    ensures Header(M', Fuse(bs, p, q, free), b)
  {
    assert Fits(bs, epi, b) && Fits(bs, epi, p) && Fits(bs, epi, q);
    assert Apart(bs, b, p) && Apart(bs, p, q);
    FuseFits(bs, epi, p, q, free, b);
    if b != p && b != q {
      assert M'[b - 4] == M[b - 4];
    }
  }

  lemma FuseFooter(M: seq<Word>, M': seq<Word>, bs: Blocks, epi: nat, p: nat, q: nat, free: bool, b: nat)
    requires Tiling(bs, epi)
    requires p in bs && q in bs && PROLOGUE < p < q
    requires FuseWords(M, M', p, q, free)
    requires b in Fuse(bs, p, q, free) && b != p && Footer(M, bs, b)
    ensures Footer(M', Fuse(bs, p, q, free), b)
  {
    assert Fits(bs, epi, b) && Apart(bs, b, p);
    if bs[b].free {
      assert M'[b + bs[b].size - 8] == M[b + bs[b].size - 8];
    }
  }

  lemma ListedNodesAreRoomy(M: seq<Word>, h: Heap, pend: set<nat>, nf: set<nat>, b: nat)
    requires State(M, h, pend, nf)
    requires b in h.fl
    ensures b in h.bs && h.bs[b].free && b !in pend && h.bs[b].size >= 16
    ensures FIRST <= b && b + 16 <= h.epi
  {
    assert Listed(h, pend, b) && Fits(h.bs, h.epi, b) && Apart(h.bs, PROLOGUE, b) && Apart(h.bs, b, h.epi);
  }

  /** Writes inside a run of unlisted blocks keep the ring. */
  lemma RingOutside(M: seq<Word>, M': seq<Word>, h: Heap, pend: set<nat>, nf: set<nat>, p: nat, q: nat)
    requires State(M, h, pend, nf)
    requires p in h.bs && q in h.bs && PROLOGUE < p < q
    requires Within(M, M', p - 4, q - 4)
    requires forall b :: b in h.bs && p <= b < q ==> b !in h.fl
    ensures Ring(M', h.fl)
  {
    assert Apart(h.bs, PROLOGUE, p);
    forall i | 0 <= i < |h.fl| && h.fl[i] + 4 < |M|
      ensures M'[h.fl[i]] == M[h.fl[i]] && M'[h.fl[i] + 4] == M[h.fl[i] + 4]
    {
      var x := h.fl[i];
      ListedNodesAreRoomy(M, h, pend, nf, x);
      assert Apart(h.bs, x, p);
    }
    RingFrame(M, M', h.fl);
  }

  lemma FuseTagged(M: seq<Word>, M': seq<Word>, h: Heap, nf: set<nat>, p: nat, q: nat, free: bool, nf': set<nat>)
    requires Tagged(M, h, nf)
    requires p in h.bs && q in h.bs && PROLOGUE < p < q
    requires FuseWords(M, M', p, q, free)
    requires forall b :: b in nf ==> p <= b < q || b in nf'
    requires free && p !in nf' ==> q >= 8 && SizeOf(M'[q - 8]) == q - p
    ensures Tagged(M', h.(bs := Fuse(h.bs, p, q, free)), nf')
  {
    var bs' := Fuse(h.bs, p, q, free);
    FuseTiles(h.bs, h.epi, p, q, free);
    FuseAligns(h.bs, p, q, free);
    forall b | b in bs' ensures Header(M', bs', b) {
      assert Header(M, h.bs, b);
      FuseHeader(M, M', h.bs, h.epi, p, q, free, b);
    }
    forall b | b in bs' && b !in nf' ensures Footer(M', bs', b) {
      if b != p {
        assert Footer(M, h.bs, b);
        FuseFooter(M, M', h.bs, h.epi, p, q, free, b);
      }
    }
  }

  lemma FuseThreaded(M: seq<Word>, M': seq<Word>, h: Heap, pend: set<nat>, nf: set<nat>, p: nat, q: nat, free: bool)
    requires State(M, h, pend, nf)
    requires p in h.bs && q in h.bs && PROLOGUE < p < q
    requires Within(M, M', p - 4, q - 4)
    requires forall b :: b in h.bs && p <= b < q ==> b !in h.fl
    requires free || (q - p >= 16 && !h.bs[q].free)
    ensures Threaded(M', h.(bs := Fuse(h.bs, p, q, free)), FusePending(pend, p, q, free))
  {
    RingOutside(M, M', h, pend, nf, p, q);
    FuseAccounted(h, pend, p, q, free);
  }

  /** A run of blocks that are not on the list becomes one block. */
  lemma FuseState(M: seq<Word>, M': seq<Word>, h: Heap, pend: set<nat>, nf: set<nat>, p: nat, q: nat, free: bool,
        nf': set<nat>)
    requires State(M, h, pend, nf)
    requires p in h.bs && q in h.bs && PROLOGUE < p < q
    requires FuseWords(M, M', p, q, free)
    requires forall b :: b in h.bs && p <= b < q ==> b !in h.fl
    requires forall b :: b in nf ==> p <= b < q || b in nf'
    requires free || (q - p >= 16 && !h.bs[q].free)
    requires free && p !in nf' ==> q >= 8 && SizeOf(M'[q - 8]) == q - p
    ensures State(M', h.(bs := Fuse(h.bs, p, q, free)), FusePending(pend, p, q, free), nf')
  {
    FuseTagged(M, M', h, nf, p, q, free, nf');
    FuseThreaded(M, M', h, pend, nf, p, q, free);
  }

  /** The header words and footers after block p, up to q, is cut at m. */
  ghost predicate SplitWords(M: seq<Word>, M': seq<Word>, p: nat, m: nat, q: nat, freeLow: bool, freeHigh: bool) {
    && 4 <= p && p + 8 <= m && m + 8 <= q <= |M|
    && Within(M, M', p - 4, q - 4)
    && SizeOf(M'[p - 4]) == m - p && AllocOf(M'[p - 4]) == !freeLow && TagOf(M'[p - 4]) == TagOf(M[p - 4])
    && SizeOf(M'[m - 4]) == q - m && AllocOf(M'[m - 4]) == !freeHigh && TagOf(M'[m - 4]) == !freeLow
    && SizeOf(M'[q - 4]) == SizeOf(M[q - 4]) && AllocOf(M'[q - 4]) == AllocOf(M[q - 4]) && TagOf(M'[q - 4]) == !freeHigh
    && (freeLow ==> SizeOf(M'[m - 8]) == m - p)
    && (freeHigh ==> SizeOf(M'[q - 8]) == q - m)
  }

  lemma SplitHeader(M: seq<Word>, M': seq<Word>, bs: Blocks, epi: nat, p: nat, m: nat, q: nat, freeLow: bool,
        freeHigh: bool, b: nat)
    requires Tiling(bs, epi)
    requires p in bs && q in bs && PROLOGUE < p && q == p + bs[p].size && m !in bs
    requires SplitWords(M, M', p, m, q, freeLow, freeHigh)
    requires Header(M, bs, p) && Header(M, bs, q)
    requires b in Split(bs, p, m, q, freeLow, freeHigh) && (b in bs ==> Header(M, bs, b))
    ensures Header(M', Split(bs, p, m, q, freeLow, freeHigh), b)
  {
    assert Fits(bs, epi, p) && Fits(bs, epi, q);
    if b in bs && b != p && b != q {
      assert Fits(bs, epi, b);
      assert Apart(bs, b, p) && Apart(bs, p, b);
      assert M'[b - 4] == M[b - 4];
    }
  }

  lemma SplitFooter(M: seq<Word>, M': seq<Word>, bs: Blocks, epi: nat, p: nat, m: nat, q: nat, freeLow: bool,
        freeHigh: bool, b: nat)
    requires Tiling(bs, epi)
    requires p in bs && q in bs && PROLOGUE < p && q == p + bs[p].size && m !in bs
    requires SplitWords(M, M', p, m, q, freeLow, freeHigh)
    requires b in Split(bs, p, m, q, freeLow, freeHigh) && (b in bs && b != p ==> Footer(M, bs, b))
    ensures Footer(M', Split(bs, p, m, q, freeLow, freeHigh), b)
  {
    if b in bs && b != p && bs[b].free {
      assert Fits(bs, epi, b) && Apart(bs, b, p) && Apart(bs, p, b);
      assert M'[b + bs[b].size - 8] == M[b + bs[b].size - 8];
    }
  }

  lemma SplitTagged(M: seq<Word>, M': seq<Word>, h: Heap, nf: set<nat>, p: nat, m: nat, q: nat, freeLow: bool,
        freeHigh: bool)
    requires Tagged(M, h, nf) && nf <= {p}
    requires p in h.bs && q in h.bs && PROLOGUE < p && q == p + h.bs[p].size
    requires SplitWords(M, M', p, m, q, freeLow, freeHigh) && m % 8 == 0
    ensures m !in h.bs
    ensures Tagged(M', h.(bs := Split(h.bs, p, m, q, freeLow, freeHigh)), {})
  {
    var bs' := Split(h.bs, p, m, q, freeLow, freeHigh);
    SplitTiles(h.bs, h.epi, p, m, q, freeLow, freeHigh);
    SplitAligns(h.bs, p, m, q, freeLow, freeHigh);
    assert Header(M, h.bs, p) && Header(M, h.bs, q);
    forall b | b in bs' ensures Header(M', bs', b) {
      assert b in h.bs ==> Header(M, h.bs, b);
      SplitHeader(M, M', h.bs, h.epi, p, m, q, freeLow, freeHigh, b);
    }
    forall b | b in bs' ensures Footer(M', bs', b) {
      assert b in h.bs && b != p ==> Footer(M, h.bs, b);
      SplitFooter(M, M', h.bs, h.epi, p, m, q, freeLow, freeHigh, b);
    }
  }

  lemma SplitThreaded(M: seq<Word>, M': seq<Word>, h: Heap, pend: set<nat>, nf: set<nat>, p: nat, m: nat, q: nat,
        freeLow: bool, freeHigh: bool)
    requires State(M, h, pend, nf)
    requires p in h.bs && q in h.bs && PROLOGUE < p < m < q && q == p + h.bs[p].size && m !in h.bs && p !in h.fl
    requires Within(M, M', p - 4, q - 4)
    requires (freeLow || m - p >= 16) && (freeHigh || q - m >= 16)
    ensures Threaded(M', h.(bs := Split(h.bs, p, m, q, freeLow, freeHigh)), SplitPending(pend, p, m, freeLow, freeHigh))
  {
    forall b | b in h.bs && p <= b < q ensures b !in h.fl {
      assert Apart(h.bs, p, b);
    }
    RingOutside(M, M', h, pend, nf, p, q);
    SplitAccounted(h, pend, p, m, q, freeLow, freeHigh);
  }

  /** An unlisted block is cut in two; at least one part may be free and pending. */
  lemma SplitState(M: seq<Word>, M': seq<Word>, h: Heap, pend: set<nat>, nf: set<nat>, p: nat, m: nat, q: nat,
        freeLow: bool, freeHigh: bool)
    requires State(M, h, pend, nf) && nf <= {p}
    requires p in h.bs && q in h.bs && PROLOGUE < p && q == p + h.bs[p].size && p !in h.fl
    requires SplitWords(M, M', p, m, q, freeLow, freeHigh) && m % 8 == 0
    requires (freeLow || m - p >= 16) && (freeHigh || q - m >= 16)
    ensures m !in h.bs
    ensures State(M', h.(bs := Split(h.bs, p, m, q, freeLow, freeHigh)),
                  SplitPending(pend, p, m, freeLow, freeHigh), {})
  {
    SplitTagged(M, M', h, nf, p, m, q, freeLow, freeHigh);
    SplitThreaded(M, M', h, pend, nf, p, m, q, freeLow, freeHigh);
  }

  ghost predicate IsAfterFree(bs: Blocks, q: nat) {
    q in bs && q > PROLOGUE && bs[q].prev in bs && bs[bs[q].prev].free
  }

  /** One new size in the first header and one in the last footer fuse a run of free blocks. */
  lemma MergedWords(M: seq<Word>, M': seq<Word>, h: Heap, pend: set<nat>, nf: set<nat>, p: nat, q: nat)
    requires State(M, h, pend, nf)
    requires p in h.bs && q in h.bs && PROLOGUE < p && p + 8 <= q && h.bs[p].free && IsAfterFree(h.bs, q)
    requires q <= MAX_HEAP && (q - p) % 8 == 0
    requires Within(M, M', p - 4, q - 8)
    requires M'[p - 4] == WithSize(M[p - 4], q - p) && M'[q - 8] == q - p
    ensures FuseWords(M, M', p, q, true) && SizeOf(M'[q - 8]) == q - p
  {
    assert Header(M, h.bs, p) && Header(M, h.bs, q);
    SizeUpdate(M[p - 4], q - p);
    PlainWords(q - p);
    assert M'[q - 4] == M[q - 4];
  }

  /** The words of a heap that grew by one free block of the given size. */
  ghost predicate ExtendWords(M: seq<Word>, M': seq<Word>, epi: nat, size: nat) {
    && 4 <= epi && size >= 8 && epi + size <= |M|
    && Within(M, M', epi - 4, epi + size - 4)
    && SizeOf(M'[epi - 4]) == size && !AllocOf(M'[epi - 4]) && TagOf(M'[epi - 4]) == TagOf(M[epi - 4])
    && SizeOf(M'[epi + size - 8]) == size
    && SizeOf(M'[epi + size - 4]) == 0 && AllocOf(M'[epi + size - 4]) && !TagOf(M'[epi + size - 4])
  }

  lemma ExtendTagged(M: seq<Word>, M': seq<Word>, h: Heap, size: nat)
    requires Tagged(M, h, {}) && ExtendWords(M, M', h.epi, size) && size % 8 == 0
    ensures h.epi + size !in h.bs
    ensures Tagged(M', h.(bs := Extend(h.bs, h.epi, size), epi := h.epi + size), {})
  {
    var bs' := Extend(h.bs, h.epi, size);
    ExtendTiles(h.bs, h.epi, size);
    ExtendAligns(h.bs, h.epi, size);
    assert Header(M, h.bs, h.epi) && Fits(h.bs, h.epi, h.epi);
    forall b | b in bs' ensures Header(M', bs', b) && Footer(M', bs', b) {
      if b in h.bs && b != h.epi {
        assert Header(M, h.bs, b) && Footer(M, h.bs, b) && Fits(h.bs, h.epi, b) && Apart(h.bs, b, h.epi);
        assert M'[b - 4] == M[b - 4];
        assert h.bs[b].free ==> M'[b + h.bs[b].size - 8] == M[b + h.bs[b].size - 8];
      }
    }
  }

  lemma ExtendRing(M: seq<Word>, M': seq<Word>, h: Heap, pend: set<nat>, size: nat)
    requires State(M, h, pend, {}) && ExtendWords(M, M', h.epi, size)
    ensures Ring(M', h.fl)
  {
    forall i | 0 <= i < |h.fl| && h.fl[i] + 4 < |M|
      ensures M'[h.fl[i]] == M[h.fl[i]] && M'[h.fl[i] + 4] == M[h.fl[i] + 4]
    {
      ListedNodesAreRoomy(M, h, pend, {}, h.fl[i]);
    }
    assert Apart(h.bs, PROLOGUE, h.epi);
    RingFrame(M, M', h.fl);
  }

  lemma ExtendThreaded(M: seq<Word>, M': seq<Word>, h: Heap, size: nat)
    requires State(M, h, {}, {}) && ExtendWords(M, M', h.epi, size) && h.epi + size !in h.bs
    ensures Threaded(M', h.(bs := Extend(h.bs, h.epi, size), epi := h.epi + size), {h.epi})
  {
    assert Apart(h.bs, PROLOGUE, h.epi);
    ExtendRing(M, M', h, {}, size);
    ExtendAccounted(h, size);
  }

  /** A node of the free list: the sentinel, or a block with room for two links. */
  ghost predicate LinkNode(h: Heap, a: nat) {
    a == HEAD || (a in h.bs && PROLOGUE < a && h.bs[a].size >= 16)
  }

  lemma ConnectTagged(M: seq<Word>, M': seq<Word>, h: Heap, nf: set<nat>, a: nat, c: nat)
    requires Tagged(M, h, nf) && Connected(M, M', a, c)
    requires LinkNode(h, a) && LinkNode(h, c)
    ensures Tagged(M', h, nf)
  {
    forall b | b in h.bs ensures Header(M', h.bs, b) {
      assert Header(M, h.bs, b) && Fits(h.bs, h.epi, b);
      assert a in h.bs ==> Apart(h.bs, a, b);
      assert c in h.bs ==> Apart(h.bs, c, b);
      assert M'[b - 4] == M[b - 4];
    }
    forall b | b in h.bs && b !in nf ensures Footer(M', h.bs, b) {
      assert Footer(M, h.bs, b) && Fits(h.bs, h.epi, b);
      if h.bs[b].free {
        assert a in h.bs ==> Apart(h.bs, a, b) && Apart(h.bs, b, a);
        assert c in h.bs ==> Apart(h.bs, c, b) && Apart(h.bs, b, c);
        assert M'[b + h.bs[b].size - 8] == M[b + h.bs[b].size - 8];
      }
    }
  }

  /** The words in and before a block start at multiples of 4. */
  ghost predicate WordAddresses(a: int) {
    WordAddress(a) && WordAddress(a + 4) && WordAddress(a - 4) && WordAddress(a - 8)
  }

  lemma WordAligned(a: nat)
    requires a % 8 == 0
    ensures WordAddresses(a)
  {
    var k := a / 8;
    assert a == 4 * (2 * k) && a + 4 == 4 * (2 * k + 1) && a - 4 == 4 * (2 * k - 1) && a - 8 == 4 * (2 * k - 2);
  }

  /** What the routines need to know before they follow a link. */
  lemma NodeAddress(M: seq<Word>, h: Heap, pend: set<nat>, nf: set<nat>, a: nat)
    requires State(M, h, pend, nf)
    requires LinkNode(h, a)
    ensures HEAD <= a && a + 12 <= h.epi && WordAddress(a) && WordAddress(a + 4)
  {
    assert WordAddress(HEAD) && WordAddress(HEAD + 4);
    if a != HEAD {
      WordAligned(a);
      assert Fits(h.bs, h.epi, a) && Apart(h.bs, a, h.epi);
    }
    assert Apart(h.bs, PROLOGUE, h.epi);
  }

  lemma AtIsLinkNode(M: seq<Word>, h: Heap, pend: set<nat>, nf: set<nat>, i: nat)
    requires State(M, h, pend, nf) && i <= |h.fl| + 1
    ensures LinkNode(h, At(h.fl, i))
    ensures At(h.fl, i) == HEAD || (At(h.fl, i) in h.fl && h.bs[At(h.fl, i)].free)
  {
    if 0 < i <= |h.fl| {
      ListedNodesAreRoomy(M, h, pend, nf, h.fl[i - 1]);
    }
  }

  /** ERASE takes block p off the list and leaves it pending. */
  lemma EraseState(M: seq<Word>, M': seq<Word>, h: Heap, pend: set<nat>, nf: set<nat>, k: nat)
    requires State(M, h, pend, nf) && k < |h.fl|
    requires Connected(M, M', At(h.fl, k), At(h.fl, k + 2))
    ensures State(M', h.(fl := Without(h.fl, h.fl[k])), pend + {h.fl[k]}, nf)
  {
    WithoutDrops(h.fl, k);
    EraseKeepsRing(M, M', h.fl, k);
    AtIsLinkNode(M, h, pend, nf, k);
    AtIsLinkNode(M, h, pend, nf, k + 2);
    ConnectTagged(M, M', h, nf, At(h.fl, k), At(h.fl, k + 2));
    EraseAccounted(h, pend, h.fl[k]);
  }

  /** INSERT_LIST puts pending block p at the front of the list. */
  lemma InsertState(M: seq<Word>, M1: seq<Word>, M': seq<Word>, h: Heap, pend: set<nat>, p: nat)
    requires State(M, h, pend, {})
    requires p in pend && PROLOGUE < p && h.bs[p].size >= 16 && BetweenAllocated(h.bs, p)
    requires Connected(M, M1, p, At(h.fl, 1)) && Connected(M1, M', HEAD, p)
    ensures State(M', h.(fl := [p] + h.fl), pend - {p}, {})
  {
    AtIsLinkNode(M, h, pend, {}, 1);
    ConnectTagged(M, M1, h, {}, p, At(h.fl, 1));
    ConnectTagged(M1, M', h, {}, HEAD, p);
    assert Listed(h, pend, p) && Apart(h.bs, PROLOGUE, p);
    forall i | 0 <= i < |h.fl| ensures p + 8 <= h.fl[i] || h.fl[i] + 8 <= p {
      ListedNodesAreRoomy(M, h, pend, {}, h.fl[i]);
      assert Apart(h.bs, p, h.fl[i]) && Apart(h.bs, h.fl[i], p);
    }
    InsertKeepsRing(M, M1, M', h.fl, p);
    InsertAccounted(h, pend, p);
  }

  /** The payload words of block b are the same in both memories. */
  ghost predicate PayloadKept(M: seq<Word>, M': seq<Word>, bs: Blocks, b: nat)
    requires b in bs
  {
    forall x {:trigger M'[x]} :: b <= x < b + bs[b].size - 4 && x < |M| && x < |M'| ==> M'[x] == M[x]
  }

  /** The payloads of the blocks in keep are the same in both memories. */
  ghost predicate PayloadsKept(M: seq<Word>, M': seq<Word>, bs: Blocks, keep: set<nat>) {
    |M'| == |M| && forall b {:trigger PayloadKept(M, M', bs, b)} :: b in bs && b in keep ==> PayloadKept(M, M', bs, b)
  }

  ghost function Live(bs: Blocks): set<nat> {
    set b | b in bs && !bs[b].free
  }

  ghost function Unlisted(h: Heap): set<nat> {
    set b | b in h.bs && b !in h.fl
  }

  lemma KeptBlock(M: seq<Word>, M': seq<Word>, bs: Blocks, b: nat)
    requires PayloadsKept(M, M', bs, Live(bs)) && b in bs && !bs[b].free
    ensures |M'| == |M| && PayloadKept(M, M', bs, b)
  {
  }

  lemma KeptTwice(M: seq<Word>, M1: seq<Word>, M': seq<Word>, bs: Blocks, bs1: Blocks, keep: set<nat>, keep1: set<nat>)
    requires PayloadsKept(M, M1, bs, keep) && PayloadsKept(M1, M', bs1, keep1)
    requires forall b {:trigger b in keep} :: b in keep && b in bs && bs[b].size > 0 ==>
      b in keep1 && b in bs1 && bs1[b].size == bs[b].size
    ensures PayloadsKept(M, M', bs, keep)
  {
    forall b | b in bs && b in keep ensures PayloadKept(M, M', bs, b) {
      assert PayloadKept(M, M1, bs, b);
      if bs[b].size > 0 {
        assert PayloadKept(M1, M', bs1, b);
        forall x | b <= x < b + bs[b].size - 4 && x < |M| && x < |M'| ensures M'[x] == M[x] {
          assert M1[x] == M[x];
        }
      }
    }
  }

  lemma KeptOutside(M: seq<Word>, M': seq<Word>, bs: Blocks, epi: nat, p: nat, q: nat, keep: set<nat>)
    requires Tiling(bs, epi) && p in bs && q in bs && p < q
    requires Within(M, M', p - 4, q - 4)
    requires forall b :: b in keep && b in bs ==> b < p || q <= b
    ensures PayloadsKept(M, M', bs, keep)
  {
    forall b | b in bs && b in keep ensures PayloadKept(M, M', bs, b) {
      assert Apart(bs, b, p);
    }
  }

  lemma KeptByConnect(M: seq<Word>, M': seq<Word>, bs: Blocks, epi: nat, a: nat, c: nat, keep: set<nat>)
    requires Tiling(bs, epi) && Connected(M, M', a, c)
    requires a == HEAD || (a in bs && bs[a].size >= 16 && a !in keep)
    requires c == HEAD || (c in bs && bs[c].size >= 16 && c !in keep)
    ensures PayloadsKept(M, M', bs, keep)
  {
    forall b | b in bs && b in keep ensures PayloadKept(M, M', bs, b) {
      assert Fits(bs, epi, b);
      assert a in bs ==> Apart(bs, a, b) && Apart(bs, b, a);
      assert c in bs ==> Apart(bs, c, b) && Apart(bs, b, c);
    }
  }

  /** Between its two link words and the next header, block b is the same in both memories. */
  ghost predicate BodyKept(M: seq<Word>, M': seq<Word>, bs: Blocks, b: nat)
    requires b in bs
  {
    forall x {:trigger M'[x]} :: b + 8 <= x < b + bs[b].size - 4 && x < |M| && x < |M'| ==> M'[x] == M[x]
  }

  ghost predicate BodiesKept(M: seq<Word>, M': seq<Word>, bs: Blocks) {
    |M'| == |M| && forall b {:trigger BodyKept(M, M', bs, b)} :: b in bs && PROLOGUE < b ==> BodyKept(M, M', bs, b)
  }

  lemma BodiesByConnect(M: seq<Word>, M': seq<Word>, h: Heap, a: nat, c: nat)
    requires Tiling(h.bs, h.epi) && Connected(M, M', a, c) && LinkNode(h, a) && LinkNode(h, c)
    ensures BodiesKept(M, M', h.bs)
  {
    forall b | b in h.bs && PROLOGUE < b ensures BodyKept(M, M', h.bs, b) {
      assert Apart(h.bs, PROLOGUE, b);
      assert a in h.bs ==> Apart(h.bs, a, b) && Apart(h.bs, b, a);
      assert c in h.bs ==> Apart(h.bs, c, b) && Apart(h.bs, b, c);
    }
  }

  lemma BodiesTwice(M: seq<Word>, M1: seq<Word>, M': seq<Word>, bs: Blocks)
    requires BodiesKept(M, M1, bs) && BodiesKept(M1, M', bs)
    ensures BodiesKept(M, M', bs)
  {
    forall b | b in bs && PROLOGUE < b ensures BodyKept(M, M', bs, b) {
      assert BodyKept(M, M1, bs, b) && BodyKept(M1, M', bs, b);
      forall x | b + 8 <= x < b + bs[b].size - 4 && x < |M| ensures M'[x] == M[x] {
        assert M1[x] == M[x];
      }
    }
  }

  /** What the words around an inner block b say. */
  lemma Around(M: seq<Word>, h: Heap, pend: set<nat>, nf: set<nat>, b: nat)
    requires State(M, h, pend, nf)
    requires b in h.bs && b != h.epi
    ensures var n := b + h.bs[b].size;
      && 16 <= b < n <= h.epi <= MAX_HEAP && b + 8 <= n && b % 8 == 0 && n % 8 == 0 && n in h.bs && PROLOGUE < n
      && SizeOf(M[b - 4]) == h.bs[b].size && (AllocOf(M[b - 4]) <==> !h.bs[b].free)
      && SizeOf(M[n - 4]) == h.bs[n].size && (AllocOf(M[n - 4]) <==> !h.bs[n].free)
      && (TagOf(M[n - 4]) <==> !h.bs[b].free)
      && h.bs[n].prev == b
      && (h.bs[b].free && b !in nf ==> SizeOf(M[n - 8]) == h.bs[b].size)
      && (h.bs[b].free ==> FIRST <= b)
  {
    assert Fits(h.bs, h.epi, b);
    assert Header(M, h.bs, b) && Header(M, h.bs, b + h.bs[b].size) && Fits(h.bs, h.epi, b + h.bs[b].size);
    assert b !in nf ==> Footer(M, h.bs, b);
    assert Apart(h.bs, PROLOGUE, b);
  }

  lemma Before(M: seq<Word>, h: Heap, pend: set<nat>, nf: set<nat>, b: nat)
    requires State(M, h, pend, nf)
    requires b in h.bs && PROLOGUE < b
    ensures var p := h.bs[b].prev;
      p in h.bs && p != h.epi && p + h.bs[p].size == b && p % 8 == 0 && 16 <= p < b <= h.epi
    ensures TagOf(M[b - 4]) <==> !h.bs[h.bs[b].prev].free
  {
    assert Fits(h.bs, h.epi, b) && Header(M, h.bs, b) && Fits(h.bs, h.epi, h.bs[b].prev);
  }

  /** The links around entry k of the list. */
  lemma LinksOf(M: seq<Word>, h: Heap, pend: set<nat>, nf: set<nat>, k: nat)
    requires State(M, h, pend, nf) && k < |h.fl|
    ensures var a, p, c := At(h.fl, k), h.fl[k], At(h.fl, k + 2);
      && HEAD <= a && a + 12 <= h.epi && WordAddress(a) && WordAddress(a + 4)
      && HEAD <= p && p + 12 <= h.epi && WordAddress(p) && WordAddress(p + 4)
      && HEAD <= c && c + 12 <= h.epi && WordAddress(c) && WordAddress(c + 4)
      && M[p] == a - HEAD && M[p + 4] == c - HEAD
      && (a + 8 <= p || p + 8 <= a) && (c + 8 <= p || p + 8 <= c) && a + 4 != c
      && (a == HEAD || (a in h.fl && a in h.bs && h.bs[a].size >= 16))
      && (c == HEAD || (c in h.fl && c in h.bs && h.bs[c].size >= 16))
  {
    assert LinkAt(M, h.fl, k) && LinkAt(M, h.fl, k + 1);
    AtGap(M, h.fl, k, k + 1);
    AtGap(M, h.fl, k + 2, k + 1);
    AtGap(M, h.fl, k, k + 2);
    AtIsLinkNode(M, h, pend, nf, k);
    AtIsLinkNode(M, h, pend, nf, k + 1);
    AtIsLinkNode(M, h, pend, nf, k + 2);
    NodeAddress(M, h, pend, nf, At(h.fl, k));
    NodeAddress(M, h, pend, nf, At(h.fl, k + 1));
    NodeAddress(M, h, pend, nf, At(h.fl, k + 2));
  }

  /** The nodes that the links of p lead to are connected with each other. */
  ghost predicate Detached(M: seq<Word>, epi: nat, p: nat) {
    && p + 12 <= epi <= |M| && WordAddress(p) && WordAddress(p + 4)
    && var a, c := HEAD + M[p], HEAD + M[p + 4];
      && a + 12 <= epi && c + 12 <= epi && WordAddress(a + 4) && WordAddress(c) && Link(M, a, c)
      && (a + 8 <= p || p + 8 <= a) && a + 4 != c
  }

  lemma NowDetached(M: seq<Word>, M': seq<Word>, h: Heap, pend: set<nat>, nf: set<nat>, k: nat)
    requires State(M, h, pend, nf) && k < |h.fl| && Connected(M, M', At(h.fl, k), At(h.fl, k + 2))
    ensures Detached(M', h.epi, h.fl[k])
  {
    hide WordAddress, Threaded;
    LinksOf(M, h, pend, nf, k);
    assert M'[h.fl[k]] == M[h.fl[k]] && M'[h.fl[k] + 4] == M[h.fl[k] + 4];
  }

  /** The sentinel's successor, and where p stands relative to it. */
  lemma FrontOf(M: seq<Word>, h: Heap, pend: set<nat>, p: nat)
    requires State(M, h, pend, {}) && p in pend && PROLOGUE < p && h.bs[p].size >= 16
    ensures var s := At(h.fl, 1);
      && h.bs[p].free && p + 8 <= h.epi <= MAX_HEAP && WordAddress(p) && WordAddress(p + 4) && HEAD + 8 <= p
      && HEAD <= s && s + 8 <= h.epi && WordAddress(s) && WordAddress(s + 4) && M[HEAD + 4] == s - HEAD
      && WordAddress(HEAD) && WordAddress(HEAD + 4)
      && (s + 8 <= p || p + 8 <= s)
      && (s == HEAD || (s in h.bs && h.bs[s].free && h.bs[s].size >= 16))
  {
    assert LinkAt(M, h.fl, 0);
    AtIsLinkNode(M, h, pend, {}, 1);
    NodeAddress(M, h, pend, {}, p);
    NodeAddress(M, h, pend, {}, At(h.fl, 1));
    var s := At(h.fl, 1);
    assert Listed(h, pend, p);
    assert s in h.bs ==> Apart(h.bs, p, s) && Apart(h.bs, s, p);
  }

  // mm_init

  /** The heap after the first sbrk of mm_init: a prologue, an epilogue and an empty list. */
  const EMPTY_HEAP: Heap := Heap(map[PROLOGUE := Block(8, false, 0), FIRST := Block(0, false, PROLOGUE)], [], FIRST)

  lemma EmptyHeapTiles()
    ensures Tiling(EMPTY_HEAP.bs, FIRST) && Aligned(EMPTY_HEAP.bs) && Accounted(EMPTY_HEAP, {})
  {
    var bs := EMPTY_HEAP.bs;
    forall b | b in bs ensures Fits(bs, FIRST, b) {}
    forall b, c | b in bs && c in bs ensures Apart(bs, b, c) {}
    forall b | b in bs ensures Listed(EMPTY_HEAP, {}, b) && Coalesced(EMPTY_HEAP, {}, b) {}
  }

  lemma EmptyHeapState(M: seq<Word>)
    requires |M| == MAX_HEAP
    requires M[HEAD] == 0 && M[HEAD + 4] == 0 && M[PROLOGUE - 4] == 9 && M[FIRST - 4] == 3
    ensures State(M, EMPTY_HEAP, {}, {})
  {
    var bs := EMPTY_HEAP.bs;
    assert SizeOf(9) == 8 && AllocOf(9) && SizeOf(3) == 0 && AllocOf(3) && TagOf(3);
    assert Header(M, bs, PROLOGUE) && Header(M, bs, FIRST);
    assert Fits(bs, FIRST, PROLOGUE) && Fits(bs, FIRST, FIRST);
    forall i | 0 <= i <= 0 ensures LinkAt(M, [], i) {
      assert Link(M, HEAD, HEAD);
    }
    EmptyHeapTiles();
  }
}
