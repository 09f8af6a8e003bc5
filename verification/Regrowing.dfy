/** The words behind mm_realloc: what its three ways of growing a block write, which of
    the old bytes survive, and that all other payloads do. */
module Regrowing {
  import opened MemLib
  import opened Packing
  import opened HeapShape
  import opened FreeRing
  import opened HeapTable
  import opened HeapState
  import opened HeapSpec
  import opened SpecMalloc
  import opened SpecFree
  import opened SpecRealloc
  import opened Merging
  import opened Carving

  /** The i-th word at base. */
  function WordAt(M: seq<Word>, base: nat, i: nat): int {
    if base + 4 * i < |M| then M[base + 4 * i] else -1
  }

  /** The first n bytes at src in M are the first n bytes at dst in M'. */
  ghost predicate SameData(M: seq<Word>, M': seq<Word>, src: nat, dst: nat, n: int) {
    forall i: nat {:trigger WordAt(M', dst, i)} :: 4 * i < n ==> WordAt(M', dst, i) == WordAt(M, src, i)
  }

  lemma SameDataSteps(M: seq<Word>, M1: seq<Word>, M2: seq<Word>, M': seq<Word>, src: nat, dst: nat, n: int)
    requires SameData(M1, M2, src, dst, n)
    requires |M| == |M1| == |M2| == |M'|
    requires forall x {:trigger M1[x]} :: src <= x < src + n && x < |M| ==> M1[x] == M[x]
    requires forall x {:trigger M'[x]} :: dst <= x < dst + n && x < |M| ==> M'[x] == M2[x]
    ensures SameData(M, M', src, dst, n)
  {
    forall i: nat | 4 * i < n ensures WordAt(M', dst, i) == WordAt(M, src, i) {
      assert WordAt(M2, dst, i) == WordAt(M1, src, i);
    }
  }

  /** Writes between the header of a free pending block and its last word do not show. */
  ghost predicate InteriorOnly(M: seq<Word>, M': seq<Word>, p: nat, q: nat) {
    |M'| == |M| && forall x {:trigger M'[x]} :: 0 <= x < |M| && (x < p || q - 8 <= x) ==> M'[x] == M[x]
  }

  /** mm_realloc before it coalesces: p counts as free but has no footer. */
  lemma UnmarkedState(M: seq<Word>, M1: seq<Word>, h: Heap, p: nat)
    requires State(M, h, {}, {}) && LiveBlock(h, p)
    requires FuseWords(M, M1, p, NextOf(h.bs, p), true)
    ensures NextOf(h.bs, p) in h.bs && p < NextOf(h.bs, p) && Mergeable(M1, Released(h, p), {p}, p)
    ensures PayloadsKept(M, M1, h.bs, Live(h.bs) - {p})
  {
    var q := NextOf(h.bs, p);
    ReleasedSound(h, p);
    FuseTagged(M, M1, h, {}, p, q, true, {p});
    forall b | b in h.bs && p <= b < q ensures b == p {
      assert Apart(h.bs, p, b);
    }
    RingOutside(M, M1, h, {}, {}, p, q);
    KeptOutside(M, M1, h.bs, h.epi, p, q, Live(h.bs) - {p});
  }

  /** With room around p, coalesce has something to merge. */
  lemma SomethingToMerge(M: seq<Word>, h: Heap, p: nat)
    requires Mergeable(M, h, {p}, p) && MergeEnd(h.bs, p) - MergeStart(h.bs, p) > h.bs[p].size
    ensures FIRST <= p <= |M| && NextOf(h.bs, p) in h.bs && NextOf(h.bs, p) <= |M| && SizeOf(M[p - 4]) == h.bs[p].size
    ensures !(TagOf(M[p - 4]) && AllocOf(M[NextOf(h.bs, p) - 4]))
  {
    MergeFacts(M, h, {p}, {p}, p);
  }

  lemma InteriorThenSplit(M: seq<Word>, M1: seq<Word>, M': seq<Word>, p: nat, m: nat, q: nat, freeLow: bool,
        freeHigh: bool)
    requires 4 <= p && p + 8 <= q <= |M| && InteriorOnly(M, M1, p, q) && SplitWords(M1, M', p, m, q, freeLow, freeHigh)
    ensures SplitWords(M, M', p, m, q, freeLow, freeHigh)
  {
    assert M1[p - 4] == M[p - 4] && M1[q - 4] == M[q - 4];
    forall x | 0 <= x < |M| && (x < p - 4 || q - 4 < x) ensures M'[x] == M[x] {
      assert M1[x] == M[x];
    }
  }

  lemma InteriorThenFuse(M: seq<Word>, M1: seq<Word>, M': seq<Word>, p: nat, q: nat, free: bool)
    requires 4 <= p && p + 8 <= q <= |M| && InteriorOnly(M, M1, p, q) && FuseWords(M1, M', p, q, free)
    ensures FuseWords(M, M', p, q, free)
  {
    assert M1[p - 4] == M[p - 4] && M1[q - 4] == M[q - 4];
    forall x | 0 <= x < |M| && (x < p - 4 || q - 4 < x) ensures M'[x] == M[x] {
      assert M1[x] == M[x];
    }
  }

  /** Writes into the payload of a live block keep the heap consistent. */
  lemma PayloadWrites(M: seq<Word>, M': seq<Word>, h: Heap, p: nat)
    requires State(M, h, {}, {}) && LiveBlock(h, p)
    requires Within(M, M', p, NextOf(h.bs, p) - 8)
    ensures State(M', h, {}, {}) && PayloadsKept(M, M', h.bs, Live(h.bs) - {p})
  {
    var q := NextOf(h.bs, p);
    LiveFacts(M, h, p);
    assert Listed(h, {}, p);
    forall b | b in h.bs && p <= b < q ensures b == p {
      assert Apart(h.bs, p, b);
    }
    assert M'[p - 4] == M[p - 4] && M'[q - 4] == M[q - 4];
    assert FuseWords(M, M', p, q, false);
    FuseTagged(M, M', h, {}, p, q, false, {});
    RingOutside(M, M', h, {}, {}, p, q);
    FuseOfOneIsNothing(h.bs, h.epi, p);
    assert h.(bs := Fuse(h.bs, p, q, false)) == h;
    KeptOutside(M, M', h.bs, h.epi, p, q, Live(h.bs) - {p});
  }

  /** After the cut of mm_realloc the rest is ready for the list. */
  lemma RestTaken(M: seq<Word>, M1: seq<Word>, M': seq<Word>, h: Heap, p: nat, asize: nat)
    requires Usable(M, h, p, asize) && h.bs[p].size - asize >= 16
    requires InteriorOnly(M, M1, p, NextOf(h.bs, p)) && SplitWords(M1, M', p, p + asize, NextOf(h.bs, p), false, true)
    ensures var h1, f := CutHeap(h, p, p + asize, true), p + asize;
      && State(M', h1, {f}, {}) && f in h1.bs && PROLOGUE < f && f != h1.epi && h1.bs[f].size >= 16
      && BetweenAllocated(h1.bs, f)
      && PayloadsKept(M, M', h.bs, Live(h.bs))
      && p in Unlisted(h1) && p in h1.bs && h1.bs[p].size == asize
      && forall b {:trigger b in Live(h.bs)} :: b in Live(h.bs) ==>
         b in h1.bs && b in Live(h1.bs) && h1.bs[b].size == h.bs[b].size
  {
    var q := NextOf(h.bs, p);
    UsableFacts(M, h, p, asize);
    InteriorThenSplit(M, M1, M', p, p + asize, q, false, true);
    NoneListedInside(M, h, p);
    TakePart(M, M', h, p, p + asize, true);
    PartIsApart(h, p, p + asize, q, true);
    assert Fits(h.bs, h.epi, q) && Fits(h.bs, h.epi, p);
  }

  /** What follows the rest: its tag is already clear. */
  lemma RestTagClear(M: seq<Word>, h: Heap, f: nat)
    requires State(M, h, {}, {}) && f in h.bs && f != h.epi && h.bs[f].free
    ensures FIRST <= f <= |M| && WordAddress(f - 4)
    ensures var n := f + SizeOf(M[f - 4]);
      && f + 8 <= n <= h.epi && n <= |M| && WordAddress(n - 4) && M[n - 4 := WithTag(M[n - 4], false)] == M
  {
    Around(M, h, {}, {}, f);
    WordAligned(f);
    WordAligned(f + h.bs[f].size);
  }

  lemma RestAlone(M: seq<Word>, h: Heap, f: nat)
    requires State(M, h, {f}, {}) && PROLOGUE < f && f != h.epi && BetweenAllocated(h.bs, f)
    ensures FIRST <= f <= |M| && WordAddress(f - 4)
    ensures var n := f + SizeOf(M[f - 4]);
      f + 8 <= n <= h.epi && n <= |M| && WordAddress(n - 4) && TagOf(M[f - 4]) && AllocOf(M[n - 4])
  {
    assert Listed(h, {f}, f);
    Around(M, h, {f}, {}, f);
    Before(M, h, {f}, {}, f);
    WordAligned(f);
    WordAligned(f + h.bs[f].size);
  }

  lemma RoomFacts(h: Heap, p: nat, asize: nat)
    requires Sound(h, {}) && LiveBlock(h, p)
    ensures FIRST <= p && PROLOGUE < MergeStart(h.bs, p) <= p && p + h.bs[p].size <= MergeEnd(h.bs, p)
    ensures WordAddresses(p) && h.bs[p].size % 8 == 0 && WordAddress(h.bs[p].size - 8) && WordAddress(h.bs[p].size - 4)
    ensures h.bs[p].size >= 16
  {
    LiveBlockBounds(h, p);
    WordAligned(p);
    WordAligned(h.bs[p].size);
    ReleasedSound(h, p);
    MergeBounds(h.bs, h.epi, p);
    var n := NextOf(h.bs, p);
    assert Fits(h.bs, h.epi, p);
    assert IsFree(h.bs, n) ==> Fits(h.bs, h.epi, n);
  }

  lemma PendingIsFree(h: Heap, r: nat)
    requires Sound(h, {r})
    ensures r in h.bs && h.bs[r].free
  {
    assert Listed(h, {r}, r);
  }

  /** The block that coalesce gathered around p, before mm_realloc hands it out again. */
  lemma GatheredFacts(M2: seq<Word>, h: Heap, p: nat, asize: nat)
    requires LiveBlock(h, p) && Sound(h, {})
    requires 16 <= asize <= RoomAround(h, p) && asize % 8 == 0
    requires State(M2, Gathered(h, p), {MergeStart(h.bs, p)}, {})
    ensures var g, r := Gathered(h, p), MergeStart(h.bs, p); var sum := RoomAround(h, p);
      && Usable(M2, g, r, asize) && g.bs[r].size == sum && g.epi == h.epi && NextOf(g.bs, r) == r + sum
      && FIRST <= r && r + sum <= h.epi && |M2| == MAX_HEAP && sum <= MAX_HEAP
      && WordAddresses(r) && WordAddresses(r + sum) && WordAddresses(r + asize)
      && sum % 8 == 0 && (sum - asize) % 8 == 0
      && !TagOf(M2[r + sum - 4])
  {
    hide Sound, Tagged, Threaded, Gathered, WordAddress;
    var g, r := Gathered(h, p), MergeStart(h.bs, p);
    GatheredHeld(h, p, asize);
    UsableFacts(M2, g, r, asize);
    StateIsSound(M2, g, {r}, {});
    PendingIsFree(g, r);
    Around(M2, g, {r}, {}, r);
  }

  /** How much of the old payload survives in place: all of it, or all but its last word
      when the block moved back onto its free predecessor. */
  function KeptBytes(h: Heap, p: nat): int
    requires p in h.bs
  {
    if MergeStart(h.bs, p) == p then h.bs[p].size - 4 else h.bs[p].size - 8
  }

  /** The words of p that survive gathering are where they were. */
  ghost predicate KeptInPlace(M: seq<Word>, M2: seq<Word>, h: Heap, p: nat)
    requires p in h.bs
  {
    && |M2| == |M| && (forall x {:trigger M2[x]} :: p <= x <= p + KeptBytes(h, p) - 4 && x < |M| ==> M2[x] == M[x])
    && (MergeStart(h.bs, p) != p ==> BodyKept(M, M2, h.bs, MergeStart(h.bs, p)))
  }

  /** The word where the payload of a block of the given size at base ends. */
  function LastWord(M: seq<Word>, base: nat, size: nat): int {
    if size >= 8 then WordAt(M, base, size / 4 - 2) else -1
  }

  lemma LastWordAt(M: seq<Word>, base: nat, size: nat) returns (last: nat)
    requires size % 8 == 0 && size >= 8
    ensures 4 * last == size - 8 && LastWord(M, base, size) == WordAt(M, base, last)
  {
    var k := size / 8;
    last := 2 * k - 2;
    assert size / 4 == 2 * k;
  }

  /** When the block moves back, the word behind the copied ones is what was there before:
      mm_realloc copies all but the last word of the old payload. */
  ghost predicate LastWordLeft(M: seq<Word>, M': seq<Word>, h: Heap, p: nat)
    requires p in h.bs
  {
    var r := MergeStart(h.bs, p);
    r != p ==> h.bs[p].size >= 16 && LastWord(M', r, h.bs[p].size) == LastWord(M, r, h.bs[p].size)
  }

  /** Exactly when all of the old payload survives a merge with the predecessor. */
  lemma LastWordLost(M: seq<Word>, M': seq<Word>, h: Heap, p: nat, r: nat)
    requires p in h.bs && r == MergeStart(h.bs, p) && r != p && h.bs[p].size % 8 == 0
    requires SameData(M, M', p, r, KeptBytes(h, p)) && LastWordLeft(M, M', h, p)
    ensures SameData(M, M', p, r, h.bs[p].size - 4) <==> LastWord(M, r, h.bs[p].size) == LastWord(M, p, h.bs[p].size)
  {
    hide LastWord, WordAt, MergeStart;
    var last := LastWordAt(M, p, h.bs[p].size);
    var l2 := LastWordAt(M, r, h.bs[p].size);
    var l3 := LastWordAt(M', r, h.bs[p].size);
    forall i: nat | 4 * i < h.bs[p].size - 4 && i != last ensures WordAt(M', r, i) == WordAt(M, p, i) {
      assert 4 * i < KeptBytes(h, p);
    }
    assert SameData(M, M', p, r, h.bs[p].size - 4) ==> WordAt(M', r, last) == WordAt(M, p, last);
  }

  lemma GatheredInPlace(M: seq<Word>, M1: seq<Word>, M2: seq<Word>, h: Heap, h1: Heap, p: nat)
    requires p in h.bs && MergeEnd(h.bs, p) - MergeStart(h.bs, p) > h.bs[p].size && p + 8 <= NextOf(h.bs, p) <= |M|
    requires |M| == |M1| == |M2|
    requires Within(M, M1, p - 4, NextOf(h.bs, p) - 4)
    requires forall x {:trigger M1[x]} :: p <= x < NextOf(h.bs, p) - 4 ==> M1[x] == M[x]
    requires Sound(h, {}) && LiveBlock(h, p) && NextOf(h.bs, p) in h.bs && h1 == Released(h, p)
    requires p in h1.bs && InteriorKept(M1, M2, h1.bs, p)
    ensures KeptInPlace(M, M2, h, p)
  {
    ReleasedSound(h, p);
    var r := MergeStart(h.bs, p);
    assert Fits(h.bs, h.epi, p);
    if r != p {
      assert BodyKept(M1, M2, h1.bs, r);
      forall x | r + 8 <= x < r + h.bs[r].size - 4 && x < |M| ensures M2[x] == M[x] {
        assert M1[x] == M[x];
      }
    }
  }

  lemma PredecessorEnds(h: Heap, p: nat, r: nat)
    requires Sound(h, {}) && LiveBlock(h, p) && r == MergeStart(h.bs, p) && r != p
    ensures r in h.bs && r + h.bs[r].size == p && r < p && p % 8 == 0 && r % 8 == 0 && h.bs[p].size % 8 == 0
    ensures h.bs[p].size >= 16
  {
    assert Fits(h.bs, h.epi, p) && Listed(h, {}, p);
  }

  lemma BehindCopy(p: nat, r: nat, n: nat)
    requires p % 8 == 0 && r % 8 == 0 && n % 8 == 0 && r < p && n >= 8
    ensures r + n + 8 <= p + n && r + n >= r + 8 && (r + n < p ==> r + n + 8 <= p)
  {
  }

  lemma LastWordStays(M: seq<Word>, M2: seq<Word>, M3: seq<Word>, h: Heap, p: nat, r: nat, n: nat)
    requires p in h.bs && r == MergeStart(h.bs, p) && n == h.bs[p].size - 8
    requires KeptInPlace(M, M2, h, p) && Within(M2, M3, r, r + n - 4)
    requires Sound(h, {}) && LiveBlock(h, p)
    ensures LastWordLeft(M, M3, h, p)
  {
    hide LastWord, Sound;
    if r != p {
      PredecessorEnds(h, p, r);
      BehindCopy(p, r, n);
      var last := LastWordAt(M3, r, h.bs[p].size);
      var l2 := LastWordAt(M, r, h.bs[p].size);
      assert r + n < |M| ==> M3[r + n] == M2[r + n] == M[r + n];
    }
  }

  lemma CopiedWords(M: seq<Word>, M2: seq<Word>, M3: seq<Word>, h: Heap, p: nat, r: nat, n: nat)
    requires p in h.bs && r == MergeStart(h.bs, p) && n == h.bs[p].size - 8 && WordAddress(n)
    requires KeptInPlace(M, M2, h, p) && |M3| == |M2|
    requires Within(M2, M3, r, r + n - 4) && SameData(M2, M3, p, r, n)
    ensures SameData(M, M3, p, r, KeptBytes(h, p))
  {
    hide MergeStart;
    forall i: nat | 4 * i < KeptBytes(h, p) ensures WordAt(M3, r, i) == WordAt(M, p, i) {
      if 4 * i < n {
        assert WordAt(M3, r, i) == WordAt(M2, p, i);
      } else {
        assert 4 * i == n;
      }
    }
  }

  /** Copying the surviving words from p to r. */
  lemma CopiedData(M: seq<Word>, M2: seq<Word>, M3: seq<Word>, h: Heap, p: nat, r: nat, n: nat)
    requires p in h.bs && r == MergeStart(h.bs, p) && n == h.bs[p].size - 8 && WordAddress(n)
    requires KeptInPlace(M, M2, h, p) && |M3| == |M2|
    requires Within(M2, M3, r, r + n - 4) && SameData(M2, M3, p, r, n)
    requires Sound(h, {}) && LiveBlock(h, p)
    ensures SameData(M, M3, p, r, KeptBytes(h, p)) && LastWordLeft(M, M3, h, p)
  {
    hide Sound, LiveBlock, KeptInPlace, SameData, LastWordLeft;
    LastWordStays(M, M2, M3, h, p, r, n);
    CopiedWords(M, M2, M3, h, p, r, n);
  }

  lemma GatheredPayloads(M: seq<Word>, M1: seq<Word>, M2: seq<Word>, h: Heap, p: nat)
    requires Sound(h, {}) && LiveBlock(h, p)
    requires NextOf(h.bs, p) in h.bs && p < NextOf(h.bs, p)
    requires PayloadsKept(M, M1, h.bs, Live(h.bs) - {p})
    requires PayloadsKept(M1, M2, Released(h, p).bs, Live(Released(h, p).bs))
    ensures PayloadsKept(M, M2, h.bs, Live(h.bs) - {p})
  {
    ReleasedSound(h, p);
    KeptTwice(M, M1, M2, h.bs, Released(h, p).bs, Live(h.bs) - {p}, Live(Released(h, p).bs));
  }

  lemma ResettledPayloads(M: seq<Word>, M2: seq<Word>, M': seq<Word>, h: Heap, p: nat)
    requires Sound(h, {}) && LiveBlock(h, p)
    requires PayloadsKept(M, M2, h.bs, Live(h.bs) - {p})
    requires PayloadsKept(M2, M', Gathered(h, p).bs, Live(Gathered(h, p).bs))
    ensures PayloadsKept(M, M', h.bs, Live(h.bs) - {p})
  {
    var g := Gathered(h, p);
    FreeLiveBefore(h, p);
    ReleasedSound(h, p);
    MergeBounds(h.bs, h.epi, p);
    MergeBounds(Released(h, p).bs, h.epi, p);
    forall b | b in Live(h.bs) - {p} && b in h.bs && h.bs[b].size > 0
      ensures b in Live(g.bs) && b in g.bs && g.bs[b].size == h.bs[b].size
    {
      assert Fits(h.bs, h.epi, b);
      assert b != PROLOGUE ==> LiveBlock(h, b);
    }
    KeptTwice(M, M2, M', h.bs, g.bs, Live(h.bs) - {p}, Live(g.bs));
  }

  // The tail case

  /** Behind a live last block the new space has nothing to merge with. */
  lemma TailOfLive(h: Heap, p: nat, ext: nat)
    requires Sound(h, {}) && LiveBlock(h, p) && NextOf(h.bs, p) == h.epi && ext >= 8
    ensures TailStart(h) == h.epi && Enlarged(h, ext) == Grown(h, ext)
    ensures Grown(h, ext).bs[p] == h.bs[p] && p < h.epi
  {
    var g := Grown(h, ext);
    ExtendTiles(h.bs, h.epi, ext);
    assert Fits(h.bs, h.epi, p) && Fits(h.bs, h.epi, h.epi);
    FuseOfOneIsNothing(g.bs, g.epi, h.epi);
  }

  lemma StretchedState(M1: seq<Word>, M': seq<Word>, h: Heap, p: nat, ext: nat)
    requires Sound(h, {}) && LiveBlock(h, p) && NextOf(h.bs, p) == h.epi && ext >= 8 && ext % 8 == 0
    requires State(M1, Enlarged(h, ext), {TailStart(h)}, {})
    requires FuseWords(M1, M', p, h.epi + ext, false)
    ensures p < h.epi && State(M', Stretched(h, p, ext), {}, {}) && TailStart(h) == h.epi
  {
    var g := Grown(h, ext);
    TailOfLive(h, p, ext);
    assert Listed(g, {h.epi}, p) && Listed(g, {h.epi}, h.epi);
    LiveBlockBounds(h, p);
    assert Fits(g.bs, g.epi, p) && Fits(g.bs, g.epi, h.epi);
    forall b | b in g.bs && p <= b < g.epi ensures b !in g.fl {
      assert Apart(g.bs, p, b) && Apart(g.bs, h.epi, b);
    }
    FuseState(M1, M', g, {h.epi}, {}, p, g.epi, false, {});
    assert FusePending({h.epi}, p, g.epi, false) == {};
  }

  /** The words around the last block after the arena grew behind it. */
  lemma StretchReady(M: seq<Word>, M1: seq<Word>, h: Heap, p: nat, asize: nat, ext: nat)
    requires Sound(h, {}) && LiveBlock(h, p) && NextOf(h.bs, p) == h.epi && FIRST <= p
    requires ext >= 8 && ext % 8 == 0 && asize == h.bs[p].size + ext
    requires State(M1, Enlarged(h, ext), {TailStart(h)}, {})
    ensures TailStart(h) == h.epi && p + asize == h.epi + ext == Enlarged(h, ext).epi && FIRST <= h.epi
    ensures WordAddresses(p) && WordAddresses(p + asize) && |M1| == MAX_HEAP && p + asize <= MAX_HEAP
    ensures AllocOf(M1[p - 4]) && 16 <= asize
  {
    hide WordAddress, WordAddresses, SizeOf, AllocOf, TagOf;
    TailOfLive(h, p, ext);
    LiveBlockBounds(h, p);
    var g := Grown(h, ext);
    Around(M1, g, {h.epi}, {}, p);
    DifferenceAligns(p, asize);
    WordAligned(p);
    WordAligned(p + asize);
  }

  lemma StretchedPayloads(M: seq<Word>, M1: seq<Word>, M': seq<Word>, h: Heap, p: nat, ext: nat)
    requires Sound(h, {}) && LiveBlock(h, p) && NextOf(h.bs, p) == h.epi && ext >= 8
    requires PayloadsKept(M, M1, h.bs, Live(h.bs)) && |M'| == |M| && 4 <= p
    requires Within(M1, M', p - 4, h.epi + ext - 4)
    requires forall x {:trigger M'[x]} :: p <= x < p + h.bs[p].size - 4 && x < |M'| ==> M'[x] == M1[x]
    ensures PayloadsKept(M, M', h.bs, Live(h.bs) - {p}) && SameData(M, M', p, p, h.bs[p].size - 4)
  {
    forall b | b in h.bs && b in Live(h.bs) - {p} ensures PayloadKept(M, M', h.bs, b) {
      assert Apart(h.bs, b, p) && Apart(h.bs, p, b) && Fits(h.bs, h.epi, b);
      assert PayloadKept(M, M1, h.bs, b);
      forall x | b <= x < b + h.bs[b].size - 4 && x < |M| && x < |M'| ensures M'[x] == M[x] {
        assert M1[x] == M[x];
      }
    }
    assert PayloadKept(M, M1, h.bs, p);
    forall i: nat | 4 * i < h.bs[p].size - 4 ensures WordAt(M', p, i) == WordAt(M, p, i) {
      assert p + 4 * i < |M| ==> M'[p + 4 * i] == M1[p + 4 * i] == M[p + 4 * i];
    }
  }

  // The copy to a fresh block

  /** h' is h after a fresh block was taken for size bytes and p was freed. */
  ghost predicate MovedTo(h: Heap, p: nat, size: nat, h': Heap)
    requires Sound(h, {})
  {
    var h1 := Malloc(h, size).0;
    Sound(h1, {}) && LiveBlock(h1, p) && h' == Free(h1, p)
  }

  lemma StepOfEight(a: nat, b: nat)
    requires a % 8 == 0 && b % 8 == 0 && a > b
    ensures a >= b + 8
  {
  }

  /** The old block and the fresh one lie apart, and the old payload fits. */
  lemma MoveReady(M: seq<Word>, M1: seq<Word>, h: Heap, h1: Heap, p: nat, r: nat, size: nat)
    requires State(M, h, {}, {}) && State(M1, h1, {}, {}) && LiveBlock(h, p) && AllocSize(size) > h.bs[p].size
    requires Allocated(h, h1, size, r)
    ensures p != r && LiveBlock(h1, p) && h1.bs[p].size == h.bs[p].size >= 16 && h1.bs[p].size + 8 <= h1.bs[r].size
    ensures WordAddress(p) && WordAddress(r) && WordAddress(h.bs[p].size - 4) && NextOf(h1.bs, r) <= h1.epi
    ensures NextOf(h1.bs, p) <= h1.epi
    ensures r <= p || p + h.bs[p].size <= r
    ensures r + h1.bs[r].size <= p || p + h.bs[p].size <= r
    ensures !h.bs[p].free && !h1.bs[r].free
  {
    AllocSizeAligned(size);
    LiveFacts(M, h, p);
    LiveFacts(M1, h1, p);
    LiveFacts(M1, h1, r);
    WordAligned(h.bs[p].size);
    StepOfEight(AllocSize(size), h.bs[p].size);
    assert Apart(h1.bs, p, r) && Apart(h1.bs, r, p);
  }

  lemma MovedData(M: seq<Word>, M1: seq<Word>, M2: seq<Word>, M': seq<Word>, h: Heap, h1: Heap, p: nat, r: nat)
    requires p in h.bs && r in h1.bs && p in h1.bs && h1.bs[p].size == h.bs[p].size >= 8
    requires h.bs[p].size <= h1.bs[r].size && p != r
    requires PayloadsKept(M, M1, h.bs, Live(h.bs)) && !h.bs[p].free && !h1.bs[r].free
    requires SameData(M1, M2, p, r, h.bs[p].size - 4) && |M2| == |M1|
    requires PayloadsKept(M2, M', h1.bs, Live(h1.bs) - {p})
    ensures SameData(M, M', p, r, h.bs[p].size - 4)
  {
    assert PayloadKept(M, M1, h.bs, p) && PayloadKept(M2, M', h1.bs, r);
    SameDataSteps(M, M1, M2, M', p, r, h.bs[p].size - 4);
  }

  lemma MovedPayloads(M: seq<Word>, M1: seq<Word>, M2: seq<Word>, M': seq<Word>, h: Heap, h1: Heap, p: nat, r: nat)
    requires Sound(h, {}) && Sound(h1, {}) && LiveBlock(h1, r) && !LiveBlock(h, r) && LiveKept(h, h1, {})
    requires h.epi <= h1.epi
    requires PayloadsKept(M, M1, h.bs, Live(h.bs)) && PayloadsKept(M1, M2, h1.bs, Live(h1.bs) - {r})
    requires PayloadsKept(M2, M', h1.bs, Live(h1.bs) - {p})
    ensures PayloadsKept(M, M', h.bs, Live(h.bs) - {p})
  {
    forall b | b in h.bs && b in Live(h.bs) - {p} ensures PayloadKept(M, M', h.bs, b) {
      assert PayloadKept(M, M1, h.bs, b) && Fits(h.bs, h.epi, b);
      if b != PROLOGUE && b != h.epi {
        assert LiveBlock(h, b);
        assert PayloadKept(M1, M2, h1.bs, b) && PayloadKept(M2, M', h1.bs, b);
        forall x | b <= x < b + h.bs[b].size - 4 && x < |M| && x < |M'| ensures M'[x] == M[x] {
          assert M1[x] == M[x] && M2[x] == M1[x];
        }
      } else if b == PROLOGUE {
        assert PayloadKept(M1, M2, h1.bs, b) && PayloadKept(M2, M', h1.bs, b);
        forall x | b <= x < b + h.bs[b].size - 4 && x < |M| && x < |M'| ensures M'[x] == M[x] {
          assert M1[x] == M[x] && M2[x] == M1[x];
        }
      }
    }
  }

  // The whole of mm_realloc

  /** What mm_realloc takes for the size of a free predecessor: the size in a header that it
      finds by reading the word before ptr as a footer, even when there is none. */
  function Phantom(M: seq<Word>, p: nat): nat
    requires 8 <= p <= |M|
  {
    var s := SizeOf(M[p - 8]);
    if s + 4 <= p && !AllocOf(M[p - s - 4]) then SizeOf(M[p - s - 4]) else 0
  }

  /** The header that PREV_BLOCK leads to lies inside the arena. */
  ghost predicate PrevReadable(M: seq<Word>, h: Heap, p: nat)
    requires p in h.bs
  {
    8 <= p <= |M| && SizeOf(M[p - 8]) + 4 <= p
  }

  /** The size of the next block if it is free. */
  function NextRoom(h: Heap, p: nat): nat
    requires p in h.bs
  {
    if IsFree(h.bs, NextOf(h.bs, p)) then h.bs[NextOf(h.bs, p)].size else 0
  }

  /** The size of the previous block if it is free. */
  function PrevRoom(h: Heap, p: nat): nat
    requires p in h.bs
  {
    if IsFree(h.bs, PrevOf(h.bs, p)) then h.bs[PrevOf(h.bs, p)].size else 0
  }

  /** What the guarded mm_realloc adds up is the room around the block. */
  lemma RoomsAddUp(h: Heap, p: nat)
    requires Sound(h, {}) && LiveBlock(h, p)
    ensures h.bs[p].size + PrevRoom(h, p) + NextRoom(h, p) == RoomAround(h, p) && MergeStart(h.bs, p) != NULL
  {
    StartIsPayload(h, p);
    assert Fits(h.bs, h.epi, p) && Fits(h.bs, h.epi, NextOf(h.bs, p));
  }

  /** Where the size of a free predecessor is found. */
  lemma FreePrevFacts(M: seq<Word>, h: Heap, p: nat)
    requires State(M, h, {}, {}) && LiveBlock(h, p)
    ensures FIRST <= p <= h.epi <= |M| && WordAddress(p - 4) && WordAddress(p - 8)
    ensures TagOf(M[p - 4]) <==> !IsFree(h.bs, PrevOf(h.bs, p))
    ensures IsFree(h.bs, PrevOf(h.bs, p)) ==> var b := PrevOf(h.bs, p);
      4 <= b < p && SizeOf(M[p - 8]) == p - b && WordAddress(b - 4) && SizeOf(M[b - 4]) == h.bs[b].size
  {
    LiveFacts(M, h, p);
    Before(M, h, {}, {}, p);
    Around(M, h, {}, {}, p);
    WordAligned(p);
    if IsFree(h.bs, PrevOf(h.bs, p)) {
      Around(M, h, {}, {}, PrevOf(h.bs, p));
      WordAligned(PrevOf(h.bs, p));
    }
  }

  /** The next block is allocated and the last one. */
  ghost predicate LastTwo(h: Heap, p: nat)
    requires p in h.bs
  {
    var n := NextOf(h.bs, p);
    n in h.bs && !h.bs[n].free && NextOf(h.bs, n) == h.epi
  }

  /** The call takes neither of the two branches of mm_realloc that break the heap: the one
      that treats an allocated next block, last in the heap, as free (mm.c:391), and the one
      that merges with a predecessor that is not free (mm.c:412-415). */
  ghost predicate SafeToRealloc(M: seq<Word>, h: Heap, p: nat, size: nat)
    requires p in h.bs
  {
    || size == 0 || AllocSize(size) <= h.bs[p].size || NextOf(h.bs, p) == h.epi
    || ( && !LastTwo(h, p)
         && (IsFree(h.bs, PrevOf(h.bs, p))
             || (PrevReadable(M, h, p)
                 && (Phantom(M, p) == 0 || AllocSize(size) > h.bs[p].size + Phantom(M, p) + NextRoom(h, p)))))
  }

  /** The block grows over its free neighbours. */
  predicate MergesAround(h: Heap, p: nat, size: nat)
    requires p in h.bs
  {
    size > 0 && h.bs[p].size < AllocSize(size) <= RoomAround(h, p) && NextOf(h.bs, p) != h.epi
  }

  /** It does, and its predecessor is one of them. */
  predicate MovesBack(h: Heap, p: nat, size: nat)
    requires p in h.bs
  {
    MergesAround(h, p, size) && MergeStart(h.bs, p) != p
  }

  /** How many bytes of the old payload mm_realloc preserves. */
  function SurvivingBytes(h: Heap, p: nat, size: nat): int
    requires p in h.bs
  {
    if MergesAround(h, p, size) then KeptBytes(h, p) else h.bs[p].size - 4
  }

  /** What a call of mm_realloc does to the payloads: those of all other live blocks stay, and
      so does the block's own, at r.  Only when the block moves back onto its predecessor, its
      last word survives exactly when the same word is already there. */
  ghost predicate GrownOrMoved(M: seq<Word>, M': seq<Word>, h: Heap, p: nat, r: nat, size: nat)
    requires p in h.bs
  {
    && PayloadsKept(M, M', h.bs, Live(h.bs) - {p})
    && (r != NULL ==> SameData(M, M', p, r, SurvivingBytes(h, p, size)))
    && (r != NULL && MovesBack(h, p, size) ==>
        && LastWordLeft(M, M', h, p)
        && (SameData(M, M', p, r, h.bs[p].size - 4) <==> LastWord(M, r, h.bs[p].size) == LastWord(M, p, h.bs[p].size)))
  }

  lemma SizeAligned(w: Word)
    ensures SizeOf(w) % 8 == 0
  {
  }

  lemma PrevAddress(M: seq<Word>, h: Heap, p: nat)
    requires State(M, h, {}, {}) && LiveBlock(h, p) && PrevReadable(M, h, p)
    ensures FIRST <= p <= h.epi && WordAddress(p - 8) && WordAddress(p - SizeOf(M[p - 8]) - 4)
  {
    LiveFacts(M, h, p);
    SizeAligned(M[p - 8]);
    assert p % 8 == 0 by { Around(M, h, {}, {}, p); }
  }

  lemma NextFacts(M: seq<Word>, h: Heap, p: nat)
    requires State(M, h, {}, {}) && LiveBlock(h, p) && NextOf(h.bs, p) != h.epi
    ensures var n := NextOf(h.bs, p);
      && FIRST <= p < n && n in h.bs && n + 8 <= NextOf(h.bs, n) <= h.epi <= MAX_HEAP == |M|
      && WordAddress(p - 4) && WordAddress(n - 4) && SizeOf(M[p - 4]) == h.bs[p].size
      && SizeOf(M[n - 4]) == h.bs[n].size && (AllocOf(M[n - 4]) <==> !h.bs[n].free)
  {
    LiveFacts(M, h, p);
    Around(M, h, {}, {}, NextOf(h.bs, p));
  }

  lemma ReallocFacts(M: seq<Word>, h: Heap, p: nat, size: nat)
    requires State(M, h, {}, {}) && LiveBlock(h, p)
    ensures FIRST <= p < h.epi && WordAddress(p - 4) && SizeOf(M[p - 4]) == h.bs[p].size >= 16 && h.bs[p].size % 8 == 0
    ensures AllocSize(size) % 8 == 0 && AllocSize(size) >= 16
    ensures AllocSize(size) > h.bs[p].size ==> AllocSize(size) >= h.bs[p].size + 8
    ensures p + h.bs[p].size == NextOf(h.bs, p)
  {
    LiveFacts(M, h, p);
    AllocSizeAligned(size);
    if AllocSize(size) > h.bs[p].size { StepOfEight(AllocSize(size), h.bs[p].size); }
  }

  lemma KeptAsIs(M: seq<Word>, h: Heap, p: nat, size: nat)
    requires State(M, h, {}, {}) && p in h.bs
    ensures PayloadsKept(M, M, h.bs, Live(h.bs) - {p}) && SameData(M, M, p, p, h.bs[p].size - 4)
  {
  }

  /** Without a phantom, mm_realloc computes the room around the block. */
  lemma SumIsRoom(M: seq<Word>, h: Heap, p: nat, size: nat)
    requires State(M, h, {}, {}) && LiveBlock(h, p) && SafeToRealloc(M, h, p, size)
    requires size > 0 && AllocSize(size) > h.bs[p].size && NextOf(h.bs, p) != h.epi
    ensures PrevReadable(M, h, p) && MergeStart(h.bs, p) != NULL
    ensures var sum := h.bs[p].size + Phantom(M, p) + NextRoom(h, p);
      sum == RoomAround(h, p) || (AllocSize(size) > sum && AllocSize(size) > RoomAround(h, p))
  {
    LiveFacts(M, h, p);
    NextFacts(M, h, p);
    StartIsPayload(h, p);
    if IsFree(h.bs, PrevOf(h.bs, p)) {
      Before(M, h, {}, {}, p);
      Around(M, h, {}, {}, PrevOf(h.bs, p));
    }
  }
}
