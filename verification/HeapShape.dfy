/** The heap as a table of blocks: every block is keyed by the address of its
    payload.  The prologue and the epilogue of mm_init are entries too; the epilogue
    has size 0.  A size counts the header, so block b covers [b - 4, b - 4 + size). */
module HeapShape {

  datatype Block = Block(size: nat, free: bool, prev: nat)

  type Blocks = map<nat, Block>

  const HEAD: nat := 4        // free_head, the sentinel of the free list
  const PROLOGUE: nat := 16   // heap_head
  const FIRST: nat := 24      // payload of the first real block

  /** What one entry says about its two neighbours. */
  ghost predicate Fits(bs: Blocks, epi: nat, b: nat)
    requires b in bs
  {
    && PROLOGUE <= b <= epi
    && (b != epi ==> bs[b].size >= 8 && b + bs[b].size in bs && bs[b + bs[b].size].prev == b)
    && (b != PROLOGUE ==> bs[b].prev in bs && bs[b].prev < b && bs[b].prev + bs[bs[b].prev].size == b)
  }

  /** Block b ends before any block that starts after it. */
  ghost predicate Apart(bs: Blocks, b: nat, c: nat)
    requires b in bs
  {
    b < c ==> b + bs[b].size <= c
  }

  /** The blocks cover the heap from the prologue to the epilogue without gap or overlap. */
  ghost predicate Tiling(bs: Blocks, epi: nat) {
    && PROLOGUE in bs && epi in bs && PROLOGUE < epi
    && bs[PROLOGUE].size == 8 && !bs[PROLOGUE].free
    && bs[epi].size == 0 && !bs[epi].free
    && (forall b {:trigger Fits(bs, epi, b)} :: b in bs ==> Fits(bs, epi, b))
    && (forall b, c {:trigger Apart(bs, b, c)} :: b in bs && c in bs ==> Apart(bs, b, c))
  }

  /** Every address and every size is a multiple of 8. */
  ghost predicate Aligned(bs: Blocks) {
    forall b {:trigger b in bs} :: b in bs ==> b % 8 == 0 && bs[b].size % 8 == 0
  }

  /** The run of blocks from p up to q becomes one block. */
  function Fuse(bs: Blocks, p: nat, q: nat, free: bool): Blocks
    requires p in bs && q in bs && p < q
  {
    map b | b in bs && (b <= p || q <= b) ::
      if b == p then Block(q - p, free, bs[p].prev)
      else if b == q then bs[q].(prev := p)
      else bs[b]
  }

  /** Block p, which ends at q, becomes a block up to m and another from m. */
  function Split(bs: Blocks, p: nat, m: nat, q: nat, freeLow: bool, freeHigh: bool): Blocks
    requires p in bs && q in bs && p < m < q
  {
    bs[p := Block(m - p, freeLow, bs[p].prev)][m := Block(q - m, freeHigh, p)][q := bs[q].(prev := m)]
  }

  /** The epilogue becomes a free block of the given size, followed by a new epilogue. */
  function Extend(bs: Blocks, epi: nat, size: nat): Blocks
    requires epi in bs
  {
    bs[epi := Block(size, true, bs[epi].prev)][epi + size := Block(0, false, epi)]
  }

  lemma FuseFits(bs: Blocks, epi: nat, p: nat, q: nat, free: bool, b: nat)
    requires Tiling(bs, epi)
    requires p in bs && q in bs && PROLOGUE < p < q
    requires b in Fuse(bs, p, q, free)
    ensures Fits(Fuse(bs, p, q, free), epi, b)
  {
    assert Fits(bs, epi, b) && Fits(bs, epi, p) && Fits(bs, epi, q);
    assert Apart(bs, b, p) && Apart(bs, b, q);
    if b > q {
      assert Apart(bs, bs[b].prev, q);
    }
  }

  lemma FuseApart(bs: Blocks, epi: nat, p: nat, q: nat, free: bool, b: nat, c: nat)
    requires Tiling(bs, epi)
    requires p in bs && q in bs && PROLOGUE < p < q
    requires b in Fuse(bs, p, q, free) && c in Fuse(bs, p, q, free)
    ensures Apart(Fuse(bs, p, q, free), b, c)
  {
    assert Apart(bs, b, c);
  }

  lemma FuseTiles(bs: Blocks, epi: nat, p: nat, q: nat, free: bool)
    requires Tiling(bs, epi)
    requires p in bs && q in bs && PROLOGUE < p < q
    ensures Tiling(Fuse(bs, p, q, free), epi)
  {
    var fs := Fuse(bs, p, q, free);
    assert Fits(bs, epi, p) && Fits(bs, epi, q);
    forall b | b in fs ensures Fits(fs, epi, b) {
      FuseFits(bs, epi, p, q, free, b);
    }
    forall b, c | b in fs && c in fs ensures Apart(fs, b, c) {
      FuseApart(bs, epi, p, q, free, b, c);
    }
  }

  lemma SplitFits(bs: Blocks, epi: nat, p: nat, m: nat, q: nat, freeLow: bool, freeHigh: bool, b: nat)
    requires Tiling(bs, epi)
    requires p in bs && q in bs && PROLOGUE < p && p + 8 <= m && m + 8 <= q && q == p + bs[p].size
    requires m !in bs && b in Split(bs, p, m, q, freeLow, freeHigh)
    ensures Fits(Split(bs, p, m, q, freeLow, freeHigh), epi, b)
  {
    assert Fits(bs, epi, p) && Fits(bs, epi, q);
    if b in bs {
      assert Fits(bs, epi, b);
    }
  }

  lemma SplitApart(bs: Blocks, epi: nat, p: nat, m: nat, q: nat, freeLow: bool, freeHigh: bool, b: nat, c: nat)
    requires Tiling(bs, epi)
    requires p in bs && q in bs && PROLOGUE < p && p + 8 <= m && m + 8 <= q && q == p + bs[p].size
    requires b in Split(bs, p, m, q, freeLow, freeHigh) && c in Split(bs, p, m, q, freeLow, freeHigh)
    ensures Apart(Split(bs, p, m, q, freeLow, freeHigh), b, c)
  {
    assert Fits(bs, epi, p);
    assert c in bs ==> Apart(bs, p, c);
    assert b in bs ==> Apart(bs, b, p) && Apart(bs, p, b);
    assert b in bs && c in bs ==> Apart(bs, b, c);
  }

  /** Nothing starts strictly inside a block. */
  lemma InsideIsFresh(bs: Blocks, epi: nat, p: nat, m: nat)
    requires Tiling(bs, epi)
    requires p in bs && p < m < p + bs[p].size
    ensures m !in bs
  {
    assert m in bs ==> Apart(bs, p, m);
  }

  lemma SplitTiles(bs: Blocks, epi: nat, p: nat, m: nat, q: nat, freeLow: bool, freeHigh: bool)
    requires Tiling(bs, epi)
    requires p in bs && q in bs && PROLOGUE < p && p + 8 <= m && m + 8 <= q && q == p + bs[p].size
    ensures m !in bs
    ensures Tiling(Split(bs, p, m, q, freeLow, freeHigh), epi)
  {
    InsideIsFresh(bs, epi, p, m);
    var ss := Split(bs, p, m, q, freeLow, freeHigh);
    assert Fits(bs, epi, p) && Fits(bs, epi, q);
    forall b | b in ss ensures Fits(ss, epi, b) {
      SplitFits(bs, epi, p, m, q, freeLow, freeHigh, b);
    }
    forall b, c | b in ss && c in ss ensures Apart(ss, b, c) {
      SplitApart(bs, epi, p, m, q, freeLow, freeHigh, b, c);
    }
  }

  lemma ExtendFits(bs: Blocks, epi: nat, size: nat, b: nat)
    requires Tiling(bs, epi) && size >= 8
    requires b in Extend(bs, epi, size)
    ensures Fits(Extend(bs, epi, size), epi + size, b)
  {
    assert Fits(bs, epi, epi);
    assert epi + size in bs ==> Fits(bs, epi, epi + size);
    assert b in bs ==> Fits(bs, epi, b);
  }

  lemma ExtendApart(bs: Blocks, epi: nat, size: nat, b: nat, c: nat)
    requires Tiling(bs, epi) && size >= 8
    requires b in Extend(bs, epi, size) && c in Extend(bs, epi, size)
    ensures Apart(Extend(bs, epi, size), b, c)
  {
    assert b in bs ==> Fits(bs, epi, b) && Apart(bs, b, epi);
    assert c in bs ==> Fits(bs, epi, c);
    assert b in bs && c in bs ==> Apart(bs, b, c);
  }

  lemma ExtendTiles(bs: Blocks, epi: nat, size: nat)
    requires Tiling(bs, epi) && size >= 8
    ensures epi + size !in bs
    ensures Tiling(Extend(bs, epi, size), epi + size)
  {
    var es := Extend(bs, epi, size);
    assert epi + size in bs ==> Fits(bs, epi, epi + size);
    forall b | b in es ensures Fits(es, epi + size, b) {
      ExtendFits(bs, epi, size, b);
    }
    forall b, c | b in es && c in es ensures Apart(es, b, c) {
      ExtendApart(bs, epi, size, b, c);
    }
  }

  lemma DifferenceAligns(a: nat, b: nat)
    requires a % 8 == 0 && b % 8 == 0
    ensures (a - b) % 8 == 0 && (a + b) % 8 == 0
  {
    var k, l := a / 8, b / 8;
    assert a - b == 8 * (k - l) && a + b == 8 * (k + l);
  }

  lemma FuseAligns(bs: Blocks, p: nat, q: nat, free: bool)
    requires Aligned(bs)
    requires p in bs && q in bs && p < q
    ensures Aligned(Fuse(bs, p, q, free))
  {
    DifferenceAligns(q, p);
  }

  lemma SplitAligns(bs: Blocks, p: nat, m: nat, q: nat, freeLow: bool, freeHigh: bool)
    requires Aligned(bs)
    requires p in bs && q in bs && p < m < q && m % 8 == 0
    ensures Aligned(Split(bs, p, m, q, freeLow, freeHigh))
  {
    DifferenceAligns(m, p);
    DifferenceAligns(q, m);
  }

  lemma ExtendAligns(bs: Blocks, epi: nat, size: nat)
    requires Aligned(bs) && epi in bs && size % 8 == 0
    ensures Aligned(Extend(bs, epi, size))
  {
    DifferenceAligns(epi, size);
  }
}
