/** mm.c: an explicit-free-list allocator over the words of an arena. */
module Allocator {
  import opened MemLib
  import opened Packing
  import opened HeapShape
  import opened FreeRing
  import opened HeapTable
  import opened HeapState
  import opened Merging
  import opened Carving
  import opened SpecMalloc
  import opened SpecFree
  import opened SpecRealloc
  import opened Regrowing
  import Spec = HeapSpec

  /** What coalesce tests before it leaves the block at bp alone. */
  ghost predicate NothingToMerge(M: seq<Word>, brk: nat, bp: nat) {
    && 8 <= bp && bp <= brk <= |M|
    && bp + SizeOf(M[bp - 4]) <= brk && WordAddress(bp - 4) && WordAddress(bp + SizeOf(M[bp - 4]) - 4)
    && TagOf(M[bp - 4]) && AllocOf(M[bp + SizeOf(M[bp - 4]) - 4])
  }

  /** One more word of memcpy. */
  lemma OneWordCopied(M: seq<Word>, M1: seq<Word>, M': seq<Word>, src: nat, dst: nat, n: nat, i: nat)
    requires |M1| == |M| && Within(M, M1, dst, dst + 4 * i - 4) && SameData(M, M1, src, dst, 4 * i)
    requires 4 * i < n && src + 4 * i < |M| && dst + 4 * i < |M| && (dst <= src || src + n <= dst)
    requires M' == M1[dst + 4 * i := M1[src + 4 * i]]
    ensures Within(M, M', dst, dst + 4 * i) && SameData(M, M', src, dst, 4 * i + 4)
  {
    assert M1[src + 4 * i] == M[src + 4 * i];
    forall j: nat | 4 * j < 4 * i + 4 ensures WordAt(M', dst, j) == WordAt(M, src, j) {
      assert j < i ==> WordAt(M1, dst, j) == WordAt(M, src, j);
    }
  }

  /** Later writes beyond the copied bytes keep them. */
  lemma RestSame(M: seq<Word>, M3: seq<Word>, M': seq<Word>, h: Heap, p: nat, r: nat)
    requires p in h.bs && SameData(M, M3, p, r, KeptBytes(h, p)) && |M3| == |M'| == |M|
    requires forall x {:trigger M'[x]} :: r <= x < r + h.bs[p].size && x < |M'| ==> M'[x] == M3[x]
    requires r == Spec.MergeStart(h.bs, p) && LastWordLeft(M, M3, h, p)
    ensures SameData(M, M', p, r, KeptBytes(h, p)) && LastWordLeft(M, M', h, p)
  {
    forall i: nat | 4 * i < KeptBytes(h, p) ensures WordAt(M', r, i) == WordAt(M, p, i) {
      assert WordAt(M3, r, i) == WordAt(M, p, i);
    }
  }

  /** The bytes that extend_heap asks for: an even number of words. */
  function ExtendSize(words: nat): nat {
    if words % 2 != 0 then (words + 1) * 4 else words * 4
  }

  /** A multiple of 8 survives the detour through words in extend_heap. */
  lemma GrowthInWords(size: nat)
    requires size % 8 == 0 && size >= 8
    ensures size / 4 > 0 && ExtendSize(size / 4) == size
  {
    var k := size / 8;
    assert size / 4 == 2 * k;
  }

  lemma ExtendSizeAligned(words: nat, epi: nat)
    requires epi % 8 == 0
    ensures ExtendSize(words) % 8 == 0 && (words > 0 ==> ExtendSize(words) >= 8)
    ensures 4 * words <= ExtendSize(words) < 4 * words + 8
    ensures WordAddresses(epi + ExtendSize(words))
  {
    var k := (words + 1) / 2;
    assert ExtendSize(words) == 8 * k;
    DifferenceAligns(epi, ExtendSize(words));
    WordAligned(epi + ExtendSize(words));
  }

  class Mm {
    const arena: Arena
    var heapHead: nat
    var heapTail: nat
    var freeHead: nat
    ghost var h: Heap

    /** The globals describe the arena, except that heapTail may not be set yet. */
    ghost predicate Based()
      reads this, arena
    {
      arena.Valid() && freeHead == HEAD && heapHead == PROLOGUE && arena.brk == h.epi && h.epi >= FIRST
    }

    ghost predicate Ready()
      reads this, arena
    {
      Based() && heapTail == h.epi - 4
    }

    ghost function Words(): seq<Word>
      reads arena, arena.mem
    {
      arena.mem[..]
    }

    ghost predicate Holds(pend: set<nat>, nf: set<nat>)
      reads this, arena, arena.mem
    {
      Ready() && State(Words(), h, pend, nf)
    }

    /** The invariant between calls. */
    ghost predicate Valid()
      reads this, arena, arena.mem
    {
      Holds({}, {})
    }

    constructor (arena: Arena)
      ensures this.arena == arena && heapHead == 0 && heapTail == 0 && freeHead == 0
    {
      this.arena := arena;
      heapHead, heapTail, freeHead := 0, 0, 0;
      h := Heap(map[], [], 0);
    }

    // Word access

    function Get(a: int): Word
      requires arena.Valid() && 0 <= a && a + 4 <= arena.brk && WordAddress(a)
      reads arena, arena.mem
    {
      arena.mem[a]
    }

    method Put(a: int, w: Word)
      requires arena.Valid() && 0 <= a && a + 4 <= arena.brk && WordAddress(a)
      modifies arena.mem
      ensures Words() == old(Words())[a := w]
    {
      arena.mem[a] := w;
    }

    /** SET_ALLOC and CLR_ALLOC */
    method SetAlloc(a: int, on: bool)
      requires arena.Valid() && 0 <= a && a + 4 <= arena.brk && WordAddress(a)
      modifies arena.mem
      ensures Words() == old(Words())[a := WithAlloc(old(Words())[a], on)]
      ensures SizeOf(Words()[a]) == SizeOf(old(Words())[a]) && AllocOf(Words()[a]) == on
      ensures TagOf(Words()[a]) == TagOf(old(Words())[a])
    {
      AllocUpdate(Get(a), on);
      Put(a, WithAlloc(Get(a), on));
    }

    /** SET_TAG and CLR_TAG */
    method SetTag(a: int, on: bool)
      requires arena.Valid() && 0 <= a && a + 4 <= arena.brk && WordAddress(a)
      modifies arena.mem
      ensures Words() == old(Words())[a := WithTag(old(Words())[a], on)]
      ensures SizeOf(Words()[a]) == SizeOf(old(Words())[a]) && AllocOf(Words()[a]) == AllocOf(old(Words())[a])
      ensures TagOf(Words()[a]) == on
    {
      TagUpdate(Get(a), on);
      Put(a, WithTag(Get(a), on));
    }

    /** SET_SIZE */
    method SetSize(a: int, size: nat)
      requires arena.Valid() && 0 <= a && a + 4 <= arena.brk && WordAddress(a)
      requires size <= MAX_HEAP && size % 8 == 0
      modifies arena.mem
      ensures Words() == old(Words())[a := WithSize(old(Words())[a], size)]
      ensures SizeOf(Words()[a]) == size && AllocOf(Words()[a]) == AllocOf(old(Words())[a])
      ensures TagOf(Words()[a]) == TagOf(old(Words())[a])
    {
      SizeUpdate(Get(a), size);
      Put(a, WithSize(Get(a), size));
    }

    function NextBlock(bp: int): int
      requires arena.Valid() && 4 <= bp <= arena.brk && WordAddress(bp - 4)
      reads arena, arena.mem
    {
      bp + SizeOf(Get(bp - 4))
    }

    function PrevBlock(bp: int): int
      requires arena.Valid() && 8 <= bp && bp - 4 <= arena.brk && WordAddress(bp - 8)
      reads arena, arena.mem
    {
      bp - SizeOf(Get(bp - 8))
    }

    function Ftrp(bp: int): int
      requires arena.Valid() && 4 <= bp <= arena.brk && WordAddress(bp - 4)
      reads arena, arena.mem
    {
      bp + SizeOf(Get(bp - 4)) - 8
    }

    function Pred(ptr: nat): nat
      requires arena.Valid() && ptr + 4 <= arena.brk && WordAddress(ptr)
      reads this, arena, arena.mem
    {
      freeHead + Get(ptr)
    }

    function Succ(ptr: nat): nat
      requires arena.Valid() && ptr + 8 <= arena.brk && WordAddress(ptr + 4)
      reads this, arena, arena.mem
    {
      freeHead + Get(ptr + 4)
    }

    method SetPred(self: nat, ptr: nat)
      requires arena.Valid() && self + 4 <= arena.brk && WordAddress(self)
      requires freeHead <= ptr <= MAX_HEAP
      modifies arena.mem
      ensures Words() == old(Words())[self := ptr - freeHead]
    {
      Put(self, ptr - freeHead);
    }

    method SetSucc(self: nat, ptr: nat)
      requires arena.Valid() && self + 8 <= arena.brk && WordAddress(self + 4)
      requires freeHead <= ptr <= MAX_HEAP
      modifies arena.mem
      ensures Words() == old(Words())[self + 4 := ptr - freeHead]
    {
      Put(self + 4, ptr - freeHead);
    }

    /** ERASE, the two writes, for an entry between a and c. */
    method Unlink(p: nat, ghost a: nat, ghost c: nat)
      requires arena.Valid() && freeHead == HEAD && HEAD <= a && HEAD <= c
      requires a + 8 <= arena.brk && c + 8 <= arena.brk && p + 8 <= arena.brk
      requires WordAddress(a + 4) && WordAddress(c) && WordAddress(p) && WordAddress(p + 4)
      requires Words()[p] == a - HEAD && Words()[p + 4] == c - HEAD
      requires (a + 8 <= p || p + 8 <= a) && a + 4 != c
      modifies arena.mem
      ensures Connected(old(Words()), Words(), a, c)
    {
      hide WordAddress;
      SetSucc(Pred(p), Succ(p));
      SetPred(Succ(p), Pred(p));
    }

    /** ERASE */
    method Erase(p: nat, ghost pend: set<nat>, ghost nf: set<nat>)
      requires Holds(pend, nf) && p in h.fl
      modifies this`h, arena.mem
      ensures Holds(pend + {p}, nf)
      ensures h == old(h).(fl := Without(old(h.fl), p))
      ensures PayloadsKept(old(Words()), Words(), h.bs, Unlisted(old(h))) && BodiesKept(old(Words()), Words(), h.bs)
      ensures Detached(Words(), h.epi, p)
    {
      hide WordAddress, LowBits, State, BodiesKept, PayloadsKept, LinkAt, Detached;
      ghost var M := Words();
      ghost var k :| 0 <= k < |h.fl| && h.fl[k] == p;
      LinksOf(M, h, pend, nf, k);
      Unlink(p, At(h.fl, k), At(h.fl, k + 2));
      Erased(M, Words(), h, pend, nf, k);
      NowDetached(M, Words(), h, pend, nf, k);
      h := h.(fl := Without(h.fl, p));
    }

    /** INSERT_LIST(p, free_head) */
    method InsertList(p: nat, ghost pend: set<nat>)
      requires Holds(pend, {}) && p in pend && PROLOGUE < p
      requires h.bs[p].size >= 16 && BetweenAllocated(h.bs, p)
      modifies this`h, arena.mem
      ensures Holds(pend - {p}, {})
      ensures h == old(h).(fl := [p] + old(h.fl))
      ensures PayloadsKept(old(Words()), Words(), h.bs, Live(h.bs))
    {
      hide WordAddress, LowBits, Tagged, Threaded, Aligned, Accounted, PayloadsKept;
      StateIsSound(Words(), h, pend, {});
      ghost var M := Words();
      ghost var s := At(h.fl, 1);
      FrontOf(M, h, pend, p);
      SetSucc(p, Succ(freeHead));
      SetPred(Succ(freeHead), p);
      ghost var M1 := Words();
      assert Connected(M, M1, p, s);
      SetSucc(freeHead, p);
      SetPred(p, freeHead);
      assert Connected(M1, Words(), HEAD, p);
      InsertState(M, M1, Words(), h, pend, p);
      KeptByConnect(M, M1, h.bs, h.epi, p, s, Live(h.bs));
      KeptByConnect(M1, Words(), h.bs, h.epi, HEAD, p, Live(h.bs));
      KeptTwice(M, M1, Words(), h.bs, h.bs, Live(h.bs), Live(h.bs));
      h := h.(fl := [p] + h.fl);
    }

    /** coalesce, case 2: only the next block is free. */
    method MergeNext(bp: nat, ghost nf: set<nat>) returns (r: nat)
      requires Holds({bp}, nf) && Mergeable(Words(), h, nf, bp)
      requires !Spec.IsFree(h.bs, Spec.PrevOf(h.bs, bp)) && Spec.IsFree(h.bs, Spec.NextOf(h.bs, bp))
      modifies this`h, arena.mem
      ensures Ready() && MergedTo(old(Words()), Words(), old(h), h, bp, r)
    {
      hide WordAddress, LowBits, SizeOf, Tagged, Threaded, PayloadsKept, BodiesKept, InteriorKept, Detached;
      ghost var M, h0, n := Words(), h, Spec.NextOf(h.bs, bp);
      MergeFacts(M, h, {bp}, nf, bp);
      var size := SizeOf(Get(bp - 4));
      Erase(NextBlock(bp), {bp}, nf);
      ghost var M1 := Words();
      MergeFacts(M1, h, {bp} + {n}, nf, bp);
      size := size + SizeOf(Get(NextBlock(bp) - 4));
      SetSize(bp - 4, size);
      Put(Ftrp(bp), size);
      MergeNextDone(M, M1, Words(), h0, nf, bp);
      h := Spec.Coalesce(h0, bp);
      r := bp;
    }

    /** coalesce, case 3: only the previous block is free. */
    method MergePrev(bp: nat, ghost nf: set<nat>) returns (r: nat)
      requires Holds({bp}, nf) && Mergeable(Words(), h, nf, bp)
      requires Spec.IsFree(h.bs, Spec.PrevOf(h.bs, bp)) && !Spec.IsFree(h.bs, Spec.NextOf(h.bs, bp))
      modifies this`h, arena.mem
      ensures Ready() && MergedTo(old(Words()), Words(), old(h), h, bp, r)
    {
      hide WordAddress, LowBits, SizeOf, Tagged, Threaded, PayloadsKept, BodiesKept, InteriorKept, Detached;
      ghost var M, h0, p := Words(), h, Spec.PrevOf(h.bs, bp);
      MergeFacts(M, h, {bp}, nf, bp);
      var size := SizeOf(Get(bp - 4));
      Erase(PrevBlock(bp), {bp}, nf);
      ghost var M1 := Words();
      MergeFacts(M1, h, {bp} + {p}, nf, bp);
      size := size + SizeOf(Get(PrevBlock(bp) - 4));
      Put(Ftrp(bp), size);
      SetSize(PrevBlock(bp) - 4, size);
      MergePrevDone(M, M1, Words(), h0, nf, bp);
      h := Spec.Coalesce(h0, bp);
      r := PrevBlock(bp);
    }

    /** ERASE(PREV_BLOCK(bp)); ERASE(NEXT_BLOCK(bp)) */
    method EraseBoth(bp: nat, ghost nf: set<nat>)
      requires Holds({bp}, nf) && Mergeable(Words(), h, nf, bp)
      requires Spec.IsFree(h.bs, Spec.PrevOf(h.bs, bp)) && Spec.IsFree(h.bs, Spec.NextOf(h.bs, bp))
      modifies this`h, arena.mem
      ensures var p, n := Spec.PrevOf(old(h.bs), bp), Spec.NextOf(old(h.bs), bp);
        && Holds({bp} + {p} + {n}, nf)
        && h == old(h).(fl := Without(Without(old(h.fl), p), n))
      ensures PayloadsKept(old(Words()), Words(), h.bs, Live(h.bs) + {bp}) && BodiesKept(old(Words()), Words(), h.bs)
    {
      hide WordAddress, LowBits, Tagged, Threaded, BodiesKept, Detached;
      ghost var M, h0, p, n := Words(), h, Spec.PrevOf(h.bs, bp), Spec.NextOf(h.bs, bp);
      MergeFacts(M, h, {bp}, nf, bp);
      Erase(PrevBlock(bp), {bp}, nf);
      ghost var M1 := Words();
      MergeFacts(M1, h, {bp} + {p}, nf, bp);
      Erase(NextBlock(bp), {bp} + {p}, nf);
      BothErased(M, M1, Words(), h0, nf, bp, p, n);
      BodiesTwice(M, M1, Words(), h.bs);
    }

    /** coalesce, case 4, the writes: bp, which ends at n, lies between p and q. */
    method WriteBoth(bp: nat, ghost p: nat, ghost n: nat, ghost q: nat)
      requires arena.Valid() && 8 <= p && p + 8 <= bp && bp + 8 <= n && n + 8 <= q <= arena.brk && (q - p) % 8 == 0
      requires WordAddresses(p) && WordAddresses(bp) && WordAddresses(n) && WordAddresses(q)
      requires SizeOf(Words()[bp - 8]) == bp - p && SizeOf(Words()[p - 4]) == bp - p
      requires SizeOf(Words()[bp - 4]) == n - bp && SizeOf(Words()[n - 4]) == q - n
      modifies arena.mem
      ensures Words() == old(Words())[p - 4 := WithSize(old(Words())[p - 4], q - p)][q - 8 := q - p]
    {
      hide WordAddress, LowBits, SizeOf;
      var size := SizeOf(Get(bp - 4)) + SizeOf(Get(PrevBlock(bp) - 4)) + SizeOf(Get(NextBlock(bp) - 4));
      SetSize(PrevBlock(bp) - 4, size);
      Put(Ftrp(NextBlock(bp)), size);
    }

    /** coalesce, case 4: both neighbours are free. */
    method MergeBoth(bp: nat, ghost nf: set<nat>) returns (r: nat)
      requires Holds({bp}, nf) && Mergeable(Words(), h, nf, bp)
      requires Spec.IsFree(h.bs, Spec.PrevOf(h.bs, bp)) && Spec.IsFree(h.bs, Spec.NextOf(h.bs, bp))
      modifies this`h, arena.mem
      ensures Ready() && MergedTo(old(Words()), Words(), old(h), h, bp, r)
    {
      hide WordAddress, LowBits, SizeOf, Tagged, Threaded, PayloadsKept, BodiesKept, InteriorKept, Detached;
      ghost var M, h0, p, n := Words(), h, Spec.PrevOf(h.bs, bp), Spec.NextOf(h.bs, bp);
      EraseBoth(bp, nf);
      ghost var M2 := Words();
      MergeFacts(M2, h, {bp} + {p} + {n}, nf, bp);
      WriteBoth(bp, p, n, Spec.MergeEnd(h.bs, bp));
      MergeBothDone(M, M2, Words(), h0, nf, bp);
      h := Spec.Coalesce(h0, bp);
      r := PrevBlock(bp);
    }

    /** coalesce: returns the block that bp becomes.  When the tag of bp and the flag of
        the next block say that both neighbours are allocated, nothing changes. */
    method Coalesce(bp: nat, ghost nf: set<nat>) returns (r: nat)
      requires Ready()
      requires NothingToMerge(Words(), arena.brk, bp) || (Holds({bp}, nf) && Mergeable(Words(), h, nf, bp))
      modifies this`h, arena.mem
      ensures Ready()
      ensures old(NothingToMerge(Words(), arena.brk, bp)) ==> r == bp && Words() == old(Words()) && h == old(h)
      ensures old(Mergeable(Words(), h, nf, bp)) && (nf == {} || !old(NothingToMerge(Words(), arena.brk, bp)))
              ==> MergedTo(old(Words()), Words(), old(h), h, bp, r)
    {
      hide WordAddress, LowBits, Tagged, Threaded;
      ghost var M := Words();
      if Mergeable(M, h, nf, bp) {
        MergeFacts(M, h, {bp}, nf, bp);
      }
      var prevAlloc := TagOf(Get(bp - 4));
      var nextAlloc := AllocOf(Get(NextBlock(bp) - 4));
      if prevAlloc && nextAlloc {
        r := bp;
        if nf == {} && Mergeable(M, h, nf, bp) {
          NothingMerged(M, h, bp);
        }
      } else if prevAlloc && !nextAlloc {
        r := MergeNext(bp, nf);
      } else if !prevAlloc && nextAlloc {
        r := MergePrev(bp, nf);
      } else {
        r := MergeBoth(bp, nf);
      }
    }

    /** place, "alloc current block": the front of the block is handed out. */
    method CarveLow(bp: nat, asize: nat, ghost q: nat) returns (next: nat)
      requires Ready() && Carvable(Words(), arena.brk, bp, bp + asize, q)
      modifies arena.mem
      ensures next == bp + asize && HalfSplit(old(Words()), Words(), bp, next, q, true)
    {
      hide WordAddress, LowBits;
      var nextSize := SizeOf(Get(bp - 4)) - asize;
      PlainWords(nextSize);
      SetSize(bp - 4, asize);
      next := NextBlock(bp);
      Put(next - 4, nextSize);
      Put(Ftrp(next), nextSize);
    }

    /** place, "alloc next to next block": the back of the block is handed out.  Its new
        header keeps the low bits of whatever word was there. */
    method CarveHigh(bp: nat, asize: nat, ghost q: nat) returns (r: nat)
      requires Ready() && asize <= q && Carvable(Words(), arena.brk, bp, q - asize, q)
      modifies arena.mem
      ensures r == q - asize && HalfSplit(old(Words()), Words(), bp, r, q, false)
    {
      hide WordAddress, LowBits;
      var nextSize := SizeOf(Get(bp - 4)) - asize;
      PlainWords(nextSize);
      SetSize(bp - 4, nextSize);
      Put(Ftrp(bp), nextSize);
      r := NextBlock(bp);
      SetAlloc(r - 4, true);
      SetSize(r - 4, asize);
    }

    /** place, after the cut: tag the block after r (at rn), offer the free part x (up to
        xn) to coalesce, and mark it. */
    method TagFreePart(r: nat, x: nat, ghost rn: nat, ghost xn: nat) returns (next: nat)
      requires Ready() && Taggable(Words(), arena.brk, r, x, rn, xn)
      modifies this`h, arena.mem
      ensures Ready() && h == old(h) && next == x
      ensures Retagged(old(Words()), Words(), x, rn, xn)
    {
      hide WordAddress, LowBits, SizeOf, AllocOf, TagOf, State, MergedTo, Mergeable;
      SetTag(NextBlock(r) - 4, true);
      next := Coalesce(x, {});
      SetTag(next - 4, true);
      SetAlloc(next - 4, false);
      SetTag(NextBlock(next) - 4, false);
    }

    /** place, the two ways of cutting: small requests and small rests are cut low. */
    method Carve(bp: nat, asize: nat, size: nat) returns (r: nat, next: nat)
      requires Ready() && 16 <= asize && asize + 16 <= size
      requires Carvable(Words(), arena.brk, bp, bp + asize, bp + size)
      requires Carvable(Words(), arena.brk, bp, bp + size - asize, bp + size)
      modifies arena.mem
      ensures if asize < 96 || size - asize < 32 then r == bp && next == bp + asize
        else next == bp && r == bp + size - asize
      ensures HalfSplit(old(Words()), Words(), bp, if r == bp then next else r, bp + size, r == bp)
    {
      if asize < 96 || size - asize < 32 {
        r := bp;
        next := CarveLow(bp, asize, bp + size);
      } else {
        next := bp;
        r := CarveHigh(bp, asize, bp + size);
      }
    }

    /** place, when the rest is large enough for a block of its own. */
    method PlacePart(bp: nat, asize: nat, size: nat, ghost M: seq<Word>) returns (r: nat)
      requires Ready() && Usable(M, h, bp, asize) && size == h.bs[bp].size && size - asize >= 16
      requires Marked(M, Words(), bp)
      modifies this`h, arena.mem
      ensures Valid() && (h, r) == Spec.Place(old(h), bp, asize)
      ensures r in h.bs && r != h.epi && !h.bs[r].free && r >= bp
      ensures PayloadsKept(M, Words(), old(h.bs), Live(old(h.bs)))
    {
      hide WordAddress, LowBits, SizeOf, AllocOf, TagOf, Tagged, Threaded, Sound, Carvable, HalfSplit, SplitWords;
      hide Taggable, Retagged;
      ghost var h0, M1, q := h, Words(), bp + size;
      MarkedIsCarvable(M, M1, h, bp, asize);
      var next: nat;
      r, next := Carve(bp, asize, size);
      ghost var m := if r == bp then next else r;
      ghost var W := Words();
      HalfSplitIsTaggable(M1, W, arena.brk, bp, m, q, r == bp);
      next := TagFreePart(r, next, if r == bp then m else q, if r == bp then q else m);
      ghost var M2 := Words();
      RetaggedIsSplit(M1, W, M2, arena.brk, bp, m, q, r == bp);
      PartTaken(M, M1, M2, h, bp, asize, m, r == bp);
      h := CutHeap(h, bp, m, r == bp);
      ghost var h1 := h;
      InsertList(next, {next});
      assert {next} - {next} == {};
      KeptTwice(M, M2, Words(), h0.bs, h1.bs, Live(h0.bs), Live(h1.bs));
    }

    /** place: hands out asize bytes of the free block bp, which the caller holds. */
    method Place(bp: nat, asize: nat) returns (r: nat)
      requires Ready() && Usable(Words(), h, bp, asize)
      modifies this`h, arena.mem
      ensures Valid() && (h, r) == Spec.Place(old(h), bp, asize) && r != NULL
      ensures PayloadsKept(old(Words()), Words(), old(h.bs), Live(old(h.bs)))
    {
      hide WordAddress, LowBits, Spec.Place;
      ghost var M, h0 := Words(), h;
      UsableFacts(M, h, bp, asize);
      var size := SizeOf(Get(bp - 4));
      SetAlloc(bp - 4, true);
      ghost var M1 := Words();
      if size != asize && size - asize >= 16 {
        r := PlacePart(bp, asize, size, M);
        TagAlreadySet(Words(), h, r);
        SetTag(NextBlock(r) - 4, true);
      } else {
        r := bp;
        SetTag(NextBlock(r) - 4, true);
        WholeTaken(M, M1, Words(), h, bp, asize);
        h := Spec.Place(h, bp, asize).0;
      }
    }

    function BlockSize(p: nat): nat
      requires arena.Valid() && 4 <= p <= arena.brk && WordAddress(p - 4)
      reads arena, arena.mem
    {
      SizeOf(Get(p - 4))
    }

    /** find_fit_at_list: walks the ring once and takes the best block off it. */
    method FindFitAtList(size: nat) returns (temp: nat)
      requires Valid()
      modifies this`h, arena.mem
      ensures Accounted(old(h), {}) && temp == Fit(old(h), size)
      ensures temp == NULL ==> h == old(h) && Words() == old(Words())
      ensures temp != NULL ==> h == Taken(old(h), temp) && Holds({temp}, {})
      ensures PayloadsKept(old(Words()), Words(), old(h.bs), Live(old(h.bs)))
    {
      hide WordAddress, LowBits, BestFit, SizeOf, Tagged, Threaded, BodiesKept, BestSoFar, Fit, Detached;
      StateIsSound(Words(), h, {}, {});
      temp := NULL;
      WalkStarts(Words(), h, size);
      var cur := Succ(freeHead);
      ghost var i := 0;
      ghost var M, h0 := Words(), h;
      while cur != freeHead
        invariant Valid() && h == h0 && Words() == M
        invariant i <= |h.fl| && cur == At(h.fl, i + 1)
        invariant BestSoFar(M, h, size, i, temp)
        decreases |h.fl| - i
      {
        WalkStep(M, h, size, i, temp);
        if BlockSize(cur) >= size {
          if temp == NULL {
            temp := cur;
          } else if BlockSize(cur) < BlockSize(temp) {
            temp := cur;
          }
        }
        cur := Succ(cur);
        i := i + 1;
      }
      WalkEnds(M, h, size, i, temp);
      if temp != NULL {
        Erase(temp, {}, {});
        assert {} + {temp} == {temp};
        KeptLive(M, Words(), h0, {});
      }
    }

    /** extend_heap: grows the arena by an even number of words and returns the free block
        at its end, off the list, or null when the arena is exhausted. */
    method ExtendHeap(words: nat) returns (r: nat)
      requires Based() && State(Words(), h, {}, {}) && words > 0
      modifies this`h, this`heapTail, arena, arena.mem
      ensures r == NULL <==> old(h.epi) + ExtendSize(words) > MAX_HEAP
      ensures r == NULL ==> h == old(h) && Words() == old(Words()) && Based() && heapTail == old(heapTail)
      ensures r != NULL ==> Holds({r}, {}) && Tiling(old(h.bs), old(h.epi)) && ExtendSize(words) >= 8
                            && h == Enlarged(old(h), ExtendSize(words)) && r == TailStart(old(h))
      ensures PayloadsKept(old(Words()), Words(), old(h.bs), Live(old(h.bs)))
    {
      hide WordAddress, LowBits;
      ghost var M, h0 := Words(), h;
      TailFacts(M, h);
      var size := ExtendSize(words);
      ExtendSizeAligned(words, h.epi);
      var bp := arena.Sbrk(size);
      if bp == -1 {
        return NULL;
      }
      WriteFree(bp, size, M);
      ghost var M1 := Words();
      GrownState(M, M1, h0, size);
      GrownTail(h0, size);
      h := Grown(h0, size);
      r := Coalesce(bp, {});
      assert MergedTo(M1, Words(), Grown(h0, size), h, bp, r);
      KeptTwice(M, M1, Words(), h0.bs, Grown(h0, size).bs, Live(h0.bs), Live(Grown(h0, size).bs));
    }

    /** extend_heap, the new block and the new epilogue. */
    method WriteFree(bp: nat, size: nat, ghost M: seq<Word>)
      requires arena.Valid() && M == Words() && 8 <= size && size % 8 == 0 && FIRST <= bp && bp + size == arena.brk
      requires WordAddresses(bp) && WordAddresses(bp + size)
      modifies this`heapTail, arena.mem
      ensures ExtendWords(M, Words(), bp, size) && heapTail == bp + size - 4
    {
      hide WordAddress, LowBits, SizeOf, AllocOf, TagOf;
      PlainWords(size);
      SetSize(bp - 4, size);
      SetAlloc(bp - 4, false);
      Put(Ftrp(bp), size);
      Put(NextBlock(bp) - 4, 1);
      heapTail := NextBlock(bp) - 4;
    }

    /** mm_init, on an arena that was just reset. */
    method MmInit() returns (r: int)
      requires arena.Valid() && arena.brk == 0
      modifies this, arena, arena.mem
      ensures r == 0 && Valid() && h == INITIAL_HEAP
    {
      hide LowBits;
      var lo := arena.Sbrk(24);
      if lo == -1 {
        return -1;
      }
      heapHead := lo;
      freeHead := heapHead + 4;
      WriteSkeleton();
      heapHead := heapHead + 16;
      h := EMPTY_HEAP;
      EmptyHeapState(Words());
      r := FirstChunk();
    }

    /** mm_init: the padding, the sentinel, the prologue and the epilogue. */
    method WriteSkeleton()
      requires arena.Valid() && arena.brk == 24 && heapHead == 0
      modifies arena.mem
      ensures Words()[HEAD] == 0 && Words()[HEAD + 4] == 0 && Words()[PROLOGUE - 4] == 9 && Words()[FIRST - 4] == 3
    {
      Put(heapHead, 0);
      Put(heapHead + 4, 0);
      Put(heapHead + 8, 0);
      Put(heapHead + 12, 9);
      Put(heapHead + 16, 9);
      Put(heapHead + 20, 3);
    }

    /** mm_init: the first free block. */
    method FirstChunk() returns (r: int)
      requires Based() && h == EMPTY_HEAP && State(Words(), h, {}, {})
      modifies this`h, this`heapTail, arena, arena.mem
      ensures r == 0 && Valid() && h == INITIAL_HEAP
    {
      hide WordAddress, LowBits, Tagged, Threaded, Enlarged, SizeOf, Tiling;
      var bp := ExtendHeap(CHUNKSIZE / 4);
      if bp == NULL {
        return -1;
      }
      FirstGrowth(Words());
      SetTag(NextBlock(heapHead) - 4, true);
      InsertList(NextBlock(heapHead), {FIRST});
      assert {FIRST} - {FIRST} == {};
      return 0;
    }

    /** mm_malloc: a block for size bytes, or null and no change at all. */
    method MmMalloc(size: nat) returns (r: nat)
      requires Valid()
      modifies this`h, this`heapTail, arena, arena.mem
      ensures Valid() && Sound(old(h), {}) && (h, r) == Malloc(old(h), size)
      ensures Grants(old(h), size, h, r) && (r != NULL ==> Allocated(old(h), h, size, r))
      ensures PayloadsKept(old(Words()), Words(), old(h.bs), Live(old(h.bs)))
      ensures r == NULL ==> Words() == old(Words()) && arena.brk == old(arena.brk)
    {
      hide WordAddress, LowBits, Tagged, Threaded, Sound, Held, Spec.Place, Enlarged, Fit, SizeOf, TagOf;
      hide Grants, Allocated;
      StateIsSound(Words(), h, {}, {});
      MallocSound(h, size);
      if size == 0 {
        return NULL;
      }
      ghost var M, h0 := Words(), h;
      var allocSize := AllocSize(size);
      AllocSizeAligned(size);
      var new' := FindFitAtList(allocSize);
      if new' != NULL {
        FitHeld(h0, allocSize);
        ghost var M1, h1 := Words(), h;
        r := Place(new', allocSize);
        KeptTwice(M, M1, Words(), h0.bs, h1.bs, Live(h0.bs), Live(h1.bs));
        return;
      }
      var extendSize := if allocSize > CHUNKSIZE then allocSize else CHUNKSIZE;
      TailFacts(M, h);
      GrowthHeld(h, allocSize);
      if !TagOf(Get(heapTail)) {
        extendSize := extendSize - SizeOf(Get(heapTail - 4));
      }
      GrowthInWords(extendSize);
      new' := ExtendHeap(extendSize / 4);
      if new' == NULL {
        return NULL;
      }
      ghost var M1, h1 := Words(), h;
      r := Place(new', allocSize);
      EnlargedPayloads(M, M1, Words(), h0, extendSize);
    }

    /** mm_free: ends the life of the block at ptr. */
    method MmFree(ptr: nat)
      requires Valid() && Spec.LiveBlock(h, ptr)
      modifies this`h, arena.mem
      ensures Valid() && Sound(old(h), {}) && h == Free(old(h), ptr) && Frees(old(h), ptr, h)
      ensures PayloadsKept(old(Words()), Words(), old(h.bs), Live(old(h.bs)) - {ptr})
    {
      hide WordAddress, LowBits, Tagged, Threaded, Sound, Frees;
      ghost var M, h0 := Words(), h;
      StateIsSound(M, h, {}, {});
      FreeSound(h0, ptr);
      LiveFacts(M, h, ptr);
      MarkFree(ptr, Spec.NextOf(h.bs, ptr));
      ghost var M1 := Words();
      ReleasedState(M, M1, h0, ptr);
      h := Released(h0, ptr);
      StateIsSound(M1, h, {ptr}, {});
      ReleasedSound(h0, ptr);
      FileAway(ptr);
      FreedPayloads(M, M1, Words(), h0, ptr);
    }

    /** mm_free, the rest: coalesce the pending block, clear the tag behind it, list it. */
    method FileAway(ptr: nat)
      requires Holds({ptr}, {}) && Mergeable(Words(), h, {}, ptr) && h.bs[ptr].size >= 16
      modifies this`h, arena.mem
      ensures Valid() && h == Filed(old(h), ptr)
      ensures PayloadsKept(old(Words()), Words(), old(h.bs), Live(old(h.bs)))
    {
      hide WordAddress, LowBits, State, Sound, PayloadsKept, SizeOf, TagOf, AllocOf, MergedTo, Mergeable;
      hide BetweenAllocated, NothingToMerge;
      ghost var M, h0 := Words(), h;
      var r := Coalesce(ptr, {});
      ghost var M1 := Words();
      MergedIsReady(M, M1, h0, h, ptr, r);
      SetTag(NextBlock(r) - 4, false);
      InsertList(r, {r});
      assert {r} - {r} == {};
      FiledPayloads(M, M1, Words(), h0, ptr);
    }

    /** mm_free, before it coalesces: the tags of the block and of its successor. */
    method MarkFree(ptr: nat, ghost q: nat)
      requires Ready() && FIRST <= ptr && ptr + 16 <= q <= arena.brk && WordAddresses(ptr) && WordAddresses(q)
      requires SizeOf(Words()[ptr - 4]) == q - ptr && (q - ptr) % 8 == 0
      modifies arena.mem
      ensures FuseWords(old(Words()), Words(), ptr, q, true) && SizeOf(Words()[q - 8]) == q - ptr
    {
      hide WordAddress, LowBits;
      var blockSize := SizeOf(Get(ptr - 4));
      SetAlloc(ptr - 4, false);
      SetSize(Ftrp(ptr), blockSize);
      SetTag(NextBlock(ptr) - 4, false);
    }

    /** memcpy of whole words, front to back. */
    method Memcpy(dst: nat, src: nat, n: nat)
      requires arena.Valid() && dst + n <= arena.brk && src + n <= arena.brk
      requires WordAddress(dst) && WordAddress(src) && WordAddress(n)
      requires dst <= src || src + n <= dst
      modifies arena.mem
      ensures Within(old(Words()), Words(), dst, dst + n - 4)
      ensures SameData(old(Words()), Words(), src, dst, n)
    {
      ghost var M := Words();
      var i := 0;
      while 4 * i < n
        invariant 4 * i <= n
        invariant Within(M, Words(), dst, dst + 4 * i - 4)
        invariant SameData(M, Words(), src, dst, 4 * i)
      {
        ghost var M1 := Words();
        Put(dst + 4 * i, Get(src + 4 * i));
        OneWordCopied(M, M1, Words(), src, dst, n, i);
        i := i + 1;
      }
    }

    /** mm_realloc, "CLR_ALLOC; CLR_TAG": the block counts as free from here on. */
    method Unmark(ptr: nat, ghost q: nat)
      requires Ready() && FIRST <= ptr && ptr + 16 <= q <= arena.brk && WordAddresses(ptr) && WordAddresses(q)
      requires SizeOf(Words()[ptr - 4]) == q - ptr
      modifies arena.mem
      ensures FuseWords(old(Words()), Words(), ptr, q, true)
      ensures forall x {:trigger Words()[x]} :: ptr <= x < q - 4 ==> Words()[x] == old(Words())[x]
    {
      hide WordAddress, LowBits;
      SetAlloc(ptr - 4, false);
      SetTag(NextBlock(ptr) - 4, false);
    }

    /** mm_realloc, the tags after a cut at asize: the front allocated, the rest free. */
    method WriteRegrown(r: nat, asize: nat, sum: nat)
      requires Ready() && FIRST <= r && 16 <= asize && asize + 16 <= sum && r + sum <= arena.brk
      requires WordAddresses(r) && WordAddresses(r + asize) && WordAddresses(r + sum) && asize % 8 == 0
      requires (sum - asize) % 8 == 0
      requires !TagOf(Words()[r + sum - 4])
      modifies arena.mem
      ensures SplitWords(old(Words()), Words(), r, r + asize, r + sum, false, true) && SizeOf(Words()[r - 4]) == asize
      ensures forall x {:trigger Words()[x]} :: r <= x < r + asize - 8 ==> Words()[x] == old(Words())[x]
    {
      hide WordAddress, LowBits, SizeOf, AllocOf, TagOf;
      SetSize(r - 4, asize);
      SetSize(Ftrp(r), asize);
      SetAlloc(r - 4, true);
      WriteRest(NextBlock(r), sum - asize);
    }

    /** A free block right behind an allocated one. */
    method WriteRest(m: nat, size: nat)
      requires arena.Valid() && FIRST <= m && 16 <= size && size % 8 == 0 && m + size <= arena.brk
      requires WordAddresses(m) && WordAddresses(m + size)
      modifies arena.mem
      ensures Within(old(Words()), Words(), m - 4, m + size - 8)
      ensures SizeOf(Words()[m - 4]) == size && !AllocOf(Words()[m - 4]) && TagOf(Words()[m - 4])
      ensures SizeOf(Words()[m + size - 8]) == size
    {
      hide WordAddress, LowBits, SizeOf, AllocOf, TagOf;
      PlainWords(size);
      Put(m - 4, size);
      Put(Ftrp(m), size);
      SetTag(m - 4, true);
    }

    /** mm_realloc, when nothing is cut off. */
    method WriteWhole(r: nat, sum: nat)
      requires Ready() && FIRST <= r && 16 <= sum && r + sum <= arena.brk && sum % 8 == 0
      requires WordAddresses(r) && WordAddresses(r + sum)
      modifies arena.mem
      ensures FuseWords(old(Words()), Words(), r, r + sum, false)
      ensures forall x {:trigger Words()[x]} :: r <= x < r + sum - 8 ==> Words()[x] == old(Words())[x]
    {
      hide WordAddress, LowBits;
      SetSize(r - 4, sum);
      SetSize(Ftrp(r), sum);
      SetAlloc(r - 4, true);
      SetTag(NextBlock(r) - 4, true);
    }

    /** mm_realloc, the block f cut off behind r: it has allocated neighbours and goes on the list. */
    method FileRest(r: nat, ghost f: nat)
      requires Holds({f}, {}) && PROLOGUE < f && f != h.epi && BetweenAllocated(h.bs, f) && h.bs[f].size >= 16
      requires 4 <= r <= arena.brk && WordAddress(r - 4) && r + SizeOf(Words()[r - 4]) == f
      modifies this`h, arena.mem
      ensures Valid() && h == old(h).(fl := [f] + old(h.fl))
      ensures PayloadsKept(old(Words()), Words(), h.bs, Live(h.bs))
    {
      hide WordAddress, LowBits, SizeOf, AllocOf, TagOf, Tagged, Threaded, MergedTo, Mergeable, PayloadsKept;
      RestAlone(Words(), h, f);
      StateIsSound(Words(), h, {f}, {});
      PendingIsFree(h, f);
      var next := Coalesce(NextBlock(r), {});
      InsertList(next, {next});
      assert {next} - {next} == {};
      RestTagClear(Words(), h, next);
      SetTag(NextBlock(next) - 4, false);
    }

    /** mm_realloc, "sum_size >= alloc_size + 2 * DSIZE": the rest goes back on the list. */
    method RegrowPart(r: nat, asize: nat, sum: nat, ghost M2: seq<Word>)
      requires Ready() && Usable(M2, h, r, asize) && sum == h.bs[r].size && sum - asize >= 16
      requires FIRST <= r && r + sum <= arena.brk && (sum - asize) % 8 == 0 && |M2| == MAX_HEAP
      requires WordAddresses(r) && WordAddresses(r + asize) && WordAddresses(r + sum) && !TagOf(M2[r + sum - 4])
      requires InteriorOnly(M2, Words(), r, r + sum)
      modifies this`h, arena.mem
      ensures Valid() && Spec.NextOf(old(h.bs), r) in old(h.bs)
      ensures h == CutHeap(old(h), r, r + asize, true).(fl := [r + asize] + old(h.fl))
      ensures PayloadsKept(M2, Words(), old(h.bs), Live(old(h.bs)))
      ensures forall x {:trigger Words()[x]} :: r <= x < r + asize - 8 ==> Words()[x] == old(Words())[x]
    {
      hide WordAddress, LowBits, SizeOf, AllocOf, TagOf, Tagged, Threaded, Sound, SplitWords, MergedTo, Mergeable;
      hide PayloadsKept, State;
      ghost var M3, h0, f := Words(), h, r + asize;
      WriteRegrown(r, asize, sum);
      ghost var M4 := Words();
      RestTaken(M2, M3, M4, h, r, asize);
      h := CutHeap(h, r, f, true);
      ghost var h1 := h;
      FileRest(r, f);
      KeptTwice(M2, M4, Words(), h0.bs, h1.bs, Live(h0.bs), Live(h1.bs));
      KeptBlock(M4, Words(), h1.bs, r);
    }

    /** mm_realloc, the merge: the block gathered around ptr, still free. */
    method Gather(ptr: nat) returns (newptr: nat)
      requires Valid() && Spec.LiveBlock(h, ptr) && h.bs[ptr].size < RoomAround(h, ptr)
      modifies this`h, arena.mem
      ensures Ready() && Sound(old(h), {}) && h == Gathered(old(h), ptr) && newptr == Spec.MergeStart(old(h.bs), ptr)
      ensures State(Words(), h, {newptr}, {})
      ensures PayloadsKept(old(Words()), Words(), old(h.bs), Live(old(h.bs)) - {ptr})
      ensures KeptInPlace(old(Words()), Words(), old(h), ptr)
    {
      hide WordAddress, LowBits, SizeOf, AllocOf, TagOf, Tagged, Threaded, Sound, PayloadsKept, KeptInPlace;
      ghost var M, h0, q := Words(), h, Spec.NextOf(h.bs, ptr);
      StateIsSound(M, h, {}, {});
      LiveFacts(M, h, ptr);
      Unmark(ptr, q);
      ghost var M1 := Words();
      UnmarkedState(M, M1, h0, ptr);
      ReleasedSound(h0, ptr);
      h := Released(h0, ptr);
      SomethingToMerge(M1, h, ptr);
      newptr := Coalesce(ptr, {ptr});
      GatheredPayloads(M, M1, Words(), h0, ptr);
      GatheredInPlace(M, M1, Words(), h0, Released(h0, ptr), ptr);
    }

    /** mm_realloc, the copy: what survived the merge moves to the front of the block. */
    method GatherAndCopy(ptr: nat, ghost asize: nat, copySize: nat) returns (newptr: nat, ghost M2: seq<Word>)
      requires Valid() && Spec.LiveBlock(h, ptr) && 16 <= asize && asize % 8 == 0
      requires h.bs[ptr].size < asize <= RoomAround(h, ptr) && copySize == h.bs[ptr].size - 8
      modifies this`h, arena.mem
      ensures Ready() && Sound(old(h), {}) && h == Gathered(old(h), ptr) && newptr == Spec.MergeStart(old(h.bs), ptr)
      ensures State(M2, h, {newptr}, {}) && InteriorOnly(M2, Words(), newptr, newptr + RoomAround(old(h), ptr))
      ensures PayloadsKept(old(Words()), M2, old(h.bs), Live(old(h.bs)) - {ptr})
      ensures SameData(old(Words()), Words(), ptr, newptr, KeptBytes(old(h), ptr))
      ensures LastWordLeft(old(Words()), Words(), old(h), ptr)
    {
      hide WordAddress, LowBits, Tagged, Threaded, Sound, Gathered, PayloadsKept, KeptInPlace, SameData, LastWordLeft;
      ghost var M, h0 := Words(), h;
      StateIsSound(M, h, {}, {});
      RoomFacts(h, ptr, asize);
      newptr := Gather(ptr);
      M2 := Words();
      GatheredFacts(M2, h0, ptr, asize);
      Memcpy(newptr, ptr, copySize);
      CopiedData(M, M2, Words(), h0, ptr, newptr, copySize);
    }

    /** mm_realloc, "alloc_size <= sum_size": the block grows over its free neighbours. */
    method ReallocInPlace(ptr: nat, asize: nat, sum: nat, copySize: nat) returns (newptr: nat)
      requires Valid() && Spec.LiveBlock(h, ptr) && sum == RoomAround(h, ptr)
      requires h.bs[ptr].size + 8 <= asize <= sum && asize % 8 == 0 && asize >= 16 && copySize == h.bs[ptr].size - 8
      modifies this`h, arena.mem
      ensures Valid() && Sound(old(h), {}) && h == Resettled(old(h), ptr, asize)
      ensures newptr == Spec.MergeStart(old(h.bs), ptr)
      ensures PayloadsKept(old(Words()), Words(), old(h.bs), Live(old(h.bs)) - {ptr})
      ensures SameData(old(Words()), Words(), ptr, newptr, KeptBytes(old(h), ptr))
      ensures LastWordLeft(old(Words()), Words(), old(h), ptr)
    {
      hide WordAddress, LowBits, SizeOf, AllocOf, TagOf, Tagged, Threaded, Sound, Gathered;
      ghost var M, h0 := Words(), h;
      StateIsSound(M, h, {}, {});
      ghost var M2;
      newptr, M2 := GatherAndCopy(ptr, asize, copySize);
      ghost var M3 := Words();
      GatheredFacts(M2, h0, ptr, asize);
      if sum >= asize + 16 {
        RegrowPart(newptr, asize, sum, M2);
      } else {
        WriteWhole(newptr, sum);
        InteriorThenFuse(M2, M3, Words(), newptr, newptr + sum, false);
        TakeWhole(M2, Words(), h, newptr, asize);
        h := Spec.Place(h, newptr, asize).0;
      }
      ResettledPayloads(M, M2, Words(), h0, ptr);
      RestSame(M, M3, Words(), h0, ptr, newptr);
    }

    /** mm_realloc, the last block: its header and the epilogue behind it, once the arena grew. */
    method WriteStretched(ptr: nat, asize: nat)
      requires Ready() && FIRST <= ptr && 16 <= asize && ptr + asize <= arena.brk && asize % 8 == 0
      requires WordAddresses(ptr) && WordAddresses(ptr + asize) && AllocOf(Words()[ptr - 4])
      modifies arena.mem
      ensures FuseWords(old(Words()), Words(), ptr, ptr + asize, false)
      ensures forall x {:trigger Words()[x]} :: ptr <= x < ptr + asize - 8 ==> Words()[x] == old(Words())[x]
    {
      hide WordAddress, LowBits;
      SetSize(ptr - 4, asize);
      SetSize(Ftrp(ptr), asize);
      SetTag(NextBlock(ptr) - 4, true);
    }

    /** mm_realloc, "FTRP(oldptr) + WSIZE == heap_tail": the last block grows in place. */
    method ReallocTail(ptr: nat, asize: nat) returns (r: nat)
      requires Valid() && Spec.LiveBlock(h, ptr) && Spec.NextOf(h.bs, ptr) == h.epi
      requires h.bs[ptr].size + 8 <= asize && asize % 8 == 0
      modifies this`h, this`heapTail, arena, arena.mem
      ensures Valid() && Sound(old(h), {})
      ensures r == NULL <==> old(h.epi) + (asize - old(h.bs[ptr].size)) > MAX_HEAP
      ensures r == NULL ==> h == old(h) && Words() == old(Words()) && arena.brk == old(arena.brk)
      ensures r != NULL ==> r == ptr && ptr < old(h.epi) && h == Stretched(old(h), ptr, asize - old(h.bs[ptr].size))
      ensures r != NULL ==> PayloadsKept(old(Words()), Words(), old(h.bs), Live(old(h.bs)) - {ptr})
      ensures r != NULL ==> SameData(old(Words()), Words(), ptr, ptr, old(h.bs[ptr].size) - 4)
    {
      hide WordAddress, LowBits, SizeOf, AllocOf, TagOf, Tagged, Threaded, Sound, Enlarged, Stretched, PayloadsKept;
      hide SameData;
      ghost var M, h0 := Words(), h;
      StateIsSound(M, h, {}, {});
      LiveFacts(M, h, ptr);
      TagAlreadySet(M, h, ptr);
      SetTag(NextBlock(ptr) - 4, true);
      var ext := asize - BlockSize(ptr);
      DifferenceAligns(asize, h.bs[ptr].size);
      GrowthInWords(ext);
      var bp := ExtendHeap(ext / 4);
      if bp == NULL {
        return NULL;
      }
      ghost var M1 := Words();
      StretchReady(M, M1, h0, ptr, asize, ext);
      WriteStretched(ptr, asize);
      StretchedState(M1, Words(), h0, ptr, ext);
      StretchedPayloads(M, M1, Words(), h0, ptr, ext);
      h := Stretched(h0, ptr, ext);
      StretchedSound(h0, ptr, ext);
      r := ptr;
    }

    /** mm_realloc, the last resort: a fresh block, a copy of the old payload, and a free. */
    method ReallocMove(ptr: nat, size: nat, copySize: nat) returns (r: nat)
      requires Valid() && Spec.LiveBlock(h, ptr) && size > 0 && AllocSize(size) > h.bs[ptr].size
      requires copySize == h.bs[ptr].size - 8
      modifies this`h, this`heapTail, arena, arena.mem
      ensures Valid() && Sound(old(h), {}) && r == Malloc(old(h), size).1
      ensures r == NULL ==> h == old(h) && Words() == old(Words()) && arena.brk == old(arena.brk)
      ensures r != NULL ==> MovedTo(old(h), ptr, size, h)
      ensures r != NULL ==> PayloadsKept(old(Words()), Words(), old(h.bs), Live(old(h.bs)) - {ptr})
      ensures r != NULL ==> SameData(old(Words()), Words(), ptr, r, old(h.bs[ptr].size) - 4)
    {
      hide WordAddress, LowBits, SizeOf, AllocOf, TagOf, State, Sound, PayloadsKept, SameData, Malloc, Free;
      ghost var M, h0 := Words(), h;
      StateIsSound(M, h, {}, {});
      MallocSound(h0, size);
      r := MmMalloc(size);
      if r == NULL {
        return;
      }
      ghost var M1, h1 := Words(), h;
      MoveReady(M, M1, h0, h1, ptr, r, size);
      Memcpy(r, ptr, copySize + 4);
      ghost var M2 := Words();
      PayloadWrites(M1, M2, h1, r);
      MmFree(ptr);
      MovedData(M, M1, M2, Words(), h0, h1, ptr, r);
      MovedPayloads(M, M1, M2, Words(), h0, h1, ptr, r);
    }

    /** BLOCK_SIZE of the next block when it is free. */
    method NextSize(ptr: nat) returns (size: nat)
      requires Valid() && Spec.LiveBlock(h, ptr) && Spec.NextOf(h.bs, ptr) != h.epi
      ensures size == NextRoom(h, ptr)
    {
      hide WordAddress, LowBits, SizeOf, AllocOf, Tagged, Threaded;
      NextFacts(Words(), h, ptr);
      size := 0;
      if !AllocOf(Get(NextBlock(ptr) - 4)) {
        size := BlockSize(NextBlock(ptr));
      }
    }

    /** BLOCK_SIZE of the previous block when the tag says that it is free. */
    method FreePrevSize(ptr: nat) returns (size: nat)
      requires Valid() && Spec.LiveBlock(h, ptr)
      ensures size == PrevRoom(h, ptr)
    {
      hide WordAddress, LowBits, SizeOf, TagOf, Tagged, Threaded;
      FreePrevFacts(Words(), h, ptr);
      size := 0;
      if !TagOf(Get(ptr - 4)) {
        size := BlockSize(PrevBlock(ptr));
      }
    }

    /** mm_realloc, once the sum of the sizes around the block is known. */
    method GrowOrMove(ptr: nat, size: nat, sum: nat, copySize: nat) returns (r: nat)
      requires Valid() && Spec.LiveBlock(h, ptr) && Spec.NextOf(h.bs, ptr) != h.epi
      requires size > 0 && AllocSize(size) > h.bs[ptr].size && copySize == h.bs[ptr].size - 8
      requires sum == RoomAround(h, ptr) || (AllocSize(size) > sum && AllocSize(size) > RoomAround(h, ptr))
      modifies this`h, this`heapTail, arena, arena.mem
      ensures Valid() && Sound(old(h), {}) && (h, r) == Realloc(old(h), ptr, size)
      ensures GrownOrMoved(old(Words()), Words(), old(h), ptr, r, size)
      ensures r == NULL ==> Words() == old(Words()) && arena.brk == old(arena.brk)
    {
      hide WordAddress, LowBits, SizeOf, AllocOf, TagOf, State, Sound, PayloadsKept, SameData, Malloc, Free;
      hide Resettled, LastWordLeft;
      ghost var M, h0 := Words(), h;
      StateIsSound(M, h, {}, {});
      ReallocFacts(M, h, ptr, size);
      RoomsAddUp(h, ptr);
      var allocSize := AllocSize(size);
      if allocSize <= sum {
        r := ReallocInPlace(ptr, allocSize, sum, copySize);
        if r != ptr { LastWordLost(M, Words(), h0, ptr, r); }
      } else {
        r := ReallocMove(ptr, size, copySize);
        if r == NULL { KeptAsIs(M, h0, ptr, size); }
      }
    }

    /** mm_realloc of any live block, without the branch of mm.c:391-404, and with the size of the
        predecessor only when the tag bit says that it is free. */
    method MmReallocGuarded(ptr: nat, size: nat) returns (r: nat)
      requires Valid() && Spec.LiveBlock(h, ptr)
      modifies this`h, this`heapTail, arena, arena.mem
      ensures Valid() && Sound(old(h), {}) && (h, r) == Realloc(old(h), ptr, size)
      ensures Regrants(old(h), ptr, size, h, r)
      ensures r == NULL && size > 0 ==> Words() == old(Words()) && arena.brk == old(arena.brk)
      ensures GrownOrMoved(old(Words()), Words(), old(h), ptr, r, size)
    {
      hide WordAddress, LowBits, SizeOf, AllocOf, TagOf, State, Sound, PayloadsKept, SameData, Malloc, Free;
      hide Resettled, Stretched, Regrants, Frees;
      ghost var M, h0 := Words(), h;
      StateIsSound(M, h, {}, {});
      ReallocRegrants(h, ptr, size);
      ReallocFacts(M, h, ptr, size);
      RoomsAddUp(h, ptr);
      KeptAsIs(M, h, ptr, size);
      var copySize := BlockSize(ptr) - 8;
      if size == 0 {
        MmFree(ptr);
        return NULL;
      }
      var allocSize := AllocSize(size);
      if allocSize <= BlockSize(ptr) {
        return ptr;
      }
      if Ftrp(ptr) + 4 == heapTail {
        r := ReallocTail(ptr, allocSize);
        return;
      }
      var nextSize := NextSize(ptr);
      var prevSize := FreePrevSize(ptr);
      r := GrowOrMove(ptr, size, BlockSize(ptr) + prevSize + nextSize, copySize);
    }
  }
}
