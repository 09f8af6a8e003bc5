/** Calls that reach the faults of mm_realloc. */
module Examples {
  // Each from the initial heap or from any consistent one, mostly of mm_realloc.

  import opened MemLib
  import opened Packing
  import opened HeapShape
  import opened FreeRing
  import opened HeapTable
  import opened HeapState
  import opened HeapSpec
  import opened SpecMalloc
  import opened SpecRealloc
  import opened Merging
  import opened Regrowing
  import opened Unguarded
  import opened Traces
  import opened Filling
  import opened Driver
  import opened AsMeant

  /** What malloc(4000) and malloc(80) make of the initial heap: two live blocks, side by
      side, that fill it. */
  const TWO_BLOCKS: Heap :=
    Heap(map[PROLOGUE := Block(8, false, 0), 24 := Block(88, false, PROLOGUE), 112 := Block(4008, false, 24),
             4120 := Block(0, false, 112)],
         [], 4120)

  const ONE_BLOCK: Heap :=
    Heap(map[PROLOGUE := Block(8, false, 0), 24 := Block(88, true, PROLOGUE), 112 := Block(4008, false, 24),
             4120 := Block(0, false, 112)],
         [24], 4120)

  lemma FirstMalloc()
    ensures Sound(INITIAL_HEAP, {}) && Malloc(INITIAL_HEAP, 4000) == (ONE_BLOCK, 112)
  {
    InitialIsSound();
    var h := INITIAL_HEAP;
    assert AllocSize(4000) == 4008;
    assert Fit(h, 4008) == BestFit(h.bs, h.fl[1..], 4008, 24) == 24;
    var t := Taken(h, 24);
    assert t.fl == [];
    assert NextOf(t.bs, 24) == 4120;
    assert Place(t, 24, 4008).1 == 112;
    assert Place(t, 24, 4008).0.bs == ONE_BLOCK.bs;
    assert Place(t, 24, 4008).0.fl == [24];
    assert Malloc(h, 4000) == Place(t, 24, 4008);
  }

  lemma SecondMalloc()
    requires Sound(ONE_BLOCK, {})
    ensures Malloc(ONE_BLOCK, 80) == (TWO_BLOCKS, 24)
  {
    var h := ONE_BLOCK;
    assert AllocSize(80) == 88;
    assert Fit(h, 88) == BestFit(h.bs, h.fl[1..], 88, 24) == 24;
    var t := Taken(h, 24);
    assert t.fl == [];
    assert NextOf(t.bs, 24) == 112;
    assert Place(t, 24, 88).0.bs == TWO_BLOCKS.bs;
  }

  /** mm_init, mm_malloc(4000), mm_malloc(80): growing the second block to 200 bytes takes
      the branch at mm.c:391. */
  lemma LastTwoHappens()
    ensures Sound(INITIAL_HEAP, {})
    ensures var (h1, q) := Malloc(INITIAL_HEAP, 4000); Sound(h1, {}) && h1 == ONE_BLOCK
    ensures var (h2, p) := Malloc(ONE_BLOCK, 80);
      && p == 24 && Sound(h2, {}) && LiveBlock(h2, p) && LastTwo(h2, p)
      && NextOf(h2.bs, p) != h2.epi && AllocSize(200) > h2.bs[p].size
  {
    FirstMalloc();
    MallocSound(INITIAL_HEAP, 4000);
    SecondMalloc();
    MallocSound(ONE_BLOCK, 80);
  }

  /** What malloc(50) makes of the initial heap: one live block before one free block. */
  const TAIL_FREE: Heap :=
    Heap(map[PROLOGUE := Block(8, false, 0), 24 := Block(56, false, PROLOGUE), 80 := Block(4040, true, 24),
             4120 := Block(0, false, 80)],
         [80], 4120)

  /** mm_init and mm_malloc(50): growing that block to 8000 bytes takes over the free one, and
      asking for 21000000 bytes loses it. */
  lemma StrandingHappens()
    ensures Sound(INITIAL_HEAP, {}) && Malloc(INITIAL_HEAP, 50) == (TAIL_FREE, 24)
    ensures Sound(TAIL_FREE, {}) && LiveBlock(TAIL_FREE, 24)
    ensures TakesOverLast(TAIL_FREE, 24, 8000) && !Strands(TAIL_FREE, 24, 8000) && Strands(TAIL_FREE, 24, 21000000)
  {
    InitialIsSound();
    MallocSound(INITIAL_HEAP, 50);
    var h := INITIAL_HEAP;
    assert AllocSize(50) == 56;
    assert Fit(h, 56) == BestFit(h.bs, h.fl[1..], 56, 24) == 24;
    var t := Taken(h, 24);
    assert t.fl == [] && NextOf(t.bs, 24) == 4120;
    assert Place(t, 24, 56).0.bs == TAIL_FREE.bs && Place(t, 24, 56).0.fl == [80];
    assert Malloc(h, 50) == Place(t, 24, 56);
    assert AllocSize(8000) == 8008 && AllocSize(21000000) == 21000008;
  }

  /** Asking for as many bytes as the block has takes a block that is 8 bytes larger. */
  lemma OneStepLarger(h: Heap, p: nat)
    requires Sound(h, {}) && LiveBlock(h, p)
    ensures AllocSize(h.bs[p].size) == h.bs[p].size + 8
  {
    LiveBlockBounds(h, p);
    var k := h.bs[p].size / 8;
    assert Align(h.bs[p].size) == h.bs[p].size;
  }

  /** Whoever owns the block before p can make mm_realloc see a phantom there: two words
      written into that block's payload are enough. */
  lemma PhantomHappens(M: seq<Word>, h: Heap, p: nat)
    requires State(M, h, {}, {}) && LiveBlock(h, p)
    requires LiveBlock(h, PrevOf(h.bs, p)) && h.bs[PrevOf(h.bs, p)].size >= 24
    ensures 20 <= p <= |M| && var M' := M[p - 8 := 16][p - 20 := 24];
      && Within(M, M', PrevOf(h.bs, p), p - 8)
      && State(M', h, {}, {}) && PrevReadable(M', h, p) && Phantom(M', p) == 24
      && (NextOf(h.bs, p) != h.epi ==> !SafeToRealloc(M', h, p, h.bs[p].size))
  {
    var b := PrevOf(h.bs, p);
    assert Fits(h.bs, h.epi, p);
    LiveFacts(M, h, b);
    var M' := M[p - 8 := 16][p - 20 := 24];
    assert SizeOf(16) == 16 && SizeOf(24) == 24 && !AllocOf(24);
    PayloadWrites(M, M', h, b);
    OneStepLarger(h, p);
  }

  // The last word of a payload

  /** What one, two and three calls of malloc(100) make of the initial heap: live blocks at
      its end, behind a free one. */
  const ONE_LIVE: Heap :=
    Heap(map[PROLOGUE := Block(8, false, 0), 24 := Block(3992, true, PROLOGUE), 4016 := Block(104, false, 24),
             4120 := Block(0, false, 4016)],
         [24], 4120)

  const TWO_LIVE: Heap :=
    Heap(map[PROLOGUE := Block(8, false, 0), 24 := Block(3888, true, PROLOGUE), 3912 := Block(104, false, 24),
             4016 := Block(104, false, 3912), 4120 := Block(0, false, 4016)],
         [24], 4120)

  const THREE_LIVE: Heap :=
    Heap(map[PROLOGUE := Block(8, false, 0), 24 := Block(3784, true, PROLOGUE), 3808 := Block(104, false, 24),
             3912 := Block(104, false, 3808), 4016 := Block(104, false, 3912), 4120 := Block(0, false, 4016)],
         [24], 4120)

  /** malloc(100) takes the end of the only free block. */
  lemma TakesTheEnd(h: Heap, q: nat)
    requires Sound(h, {}) && h.fl == [24] && 24 in h.bs && h.bs[24].size >= 136 && q == NextOf(h.bs, 24) && q in h.bs
    ensures Malloc(h, 100) == (h.(bs := Split(h.bs, 24, q - 104, q, true, false)), q - 104)
    ensures Sound(Malloc(h, 100).0, {})
  {
    MallocSound(h, 100);
    assert AllocSize(100) == 104;
    assert Fit(h, 104) == BestFit(h.bs, h.fl[1..], 104, 24) == 24;
    var t := Taken(h, 24);
    assert t.fl == [] && NextOf(t.bs, 24) == q;
    assert Place(t, 24, 104).0.fl == [24];
    assert Place(t, 24, 104) == (h.(bs := Split(h.bs, 24, q - 104, q, true, false)), q - 104);
    assert Malloc(h, 100) == Place(t, 24, 104);
  }

  lemma FirstLive()
    ensures Sound(INITIAL_HEAP, {}) && Malloc(INITIAL_HEAP, 100) == (ONE_LIVE, 4016) && Sound(ONE_LIVE, {})
  {
    InitialIsSound();
    TakesTheEnd(INITIAL_HEAP, 4120);
    assert Split(INITIAL_HEAP.bs, 24, 4016, 4120, true, false) == ONE_LIVE.bs;
  }

  lemma SecondLive()
    requires Sound(ONE_LIVE, {})
    ensures Malloc(ONE_LIVE, 100) == (TWO_LIVE, 3912) && Sound(TWO_LIVE, {})
  {
    TakesTheEnd(ONE_LIVE, 4016);
    assert Split(ONE_LIVE.bs, 24, 3912, 4016, true, false) == TWO_LIVE.bs;
  }

  lemma ThirdLive()
    requires Sound(TWO_LIVE, {})
    ensures Malloc(TWO_LIVE, 100) == (THREE_LIVE, 3808) && Sound(THREE_LIVE, {})
  {
    TakesTheEnd(TWO_LIVE, 3912);
    assert Split(TWO_LIVE.bs, 24, 3808, 3912, true, false) == THREE_LIVE.bs;
  }

  /** mm_init and three times mm_malloc(100): when the last block grows to 200 bytes, it moves
      back onto its predecessor. */
  lemma MoveBackHappens()
    ensures Sound(INITIAL_HEAP, {}) && Malloc(INITIAL_HEAP, 100) == (ONE_LIVE, 4016)
    ensures Sound(ONE_LIVE, {}) && Malloc(ONE_LIVE, 100) == (TWO_LIVE, 3912)
    ensures Sound(TWO_LIVE, {}) && Malloc(TWO_LIVE, 100) == (THREE_LIVE, 3808)
    ensures Sound(THREE_LIVE, {}) && LiveBlock(THREE_LIVE, 3808) && MovesBack(THREE_LIVE, 3808, 200)
    ensures !LastTwo(THREE_LIVE, 3808) && IsFree(THREE_LIVE.bs, PrevOf(THREE_LIVE.bs, 3808))
  {
    FirstLive();
    SecondLive();
    ThirdLive();
    assert AllocSize(200) == 208;
  }

  /** Whenever a block is going to move back, its owner can write a last word that is lost. */
  lemma LastWordLossHappens(M: seq<Word>, h: Heap, p: nat, size: nat) returns (w: Word)
    requires State(M, h, {}, {}) && LiveBlock(h, p) && MovesBack(h, p, size)
    ensures var r, n := MergeStart(h.bs, p), h.bs[p].size;
      && 0 <= p + n - 8 < |M| && State(M[p + n - 8 := w], h, {}, {})
      && LastWord(M[p + n - 8 := w], r, n) != LastWord(M[p + n - 8 := w], p, n)
  {
    hide State, LastWord;
    var r, n := MergeStart(h.bs, p), h.bs[p].size;
    LiveFacts(M, h, p);
    StateIsSound(M, h, {}, {});
    PredecessorEnds(h, p, r);
    w := if LastWord(M, r, n) == 0 then 8 else 0;
    var M' := M[p + n - 8 := w];
    PayloadWrites(M, M', h, p);
    var last := LastWordAt(M', p, n);
    var l2 := LastWordAt(M', r, n);
    var l3 := LastWordAt(M, r, n);
  }

  /** Three ids of 100 bytes, and the last one grows to 200. */
  const GROWING: seq<Op> := [AllocOp(0, 100), AllocOp(1, 100), AllocOp(2, 100), ReallocOp(2, 200)]

  lemma OpenStep(h: Heap, blocks: seq<nat>, sizes: seq<nat>, ops: seq<Op>, i: nat, h': Heap, r: nat)
    requires ops != [] && ops[0] == AllocOp(i, 100) && i < |blocks| == |sizes| && Sound(h, {})
    requires Malloc(h, 100) == (h', r) && r != NULL && !AllSettled(h', blocks[i := r], sizes[i := 100], ops[1..])
    ensures !AllSettled(h, blocks, sizes, ops)
  {
    hide Malloc, Sound;
  }

  lemma LastIsOpen(ops: seq<Op>)
    requires ops != [] && ops[0] == ReallocOp(2, 200) && MovesBack(THREE_LIVE, 3808, 200)
    ensures !AllSettled(THREE_LIVE, [4016, 3912, 3808], [100, 100, 100], ops)
  {
  }

  /** No look at that trace tells the answer: its last request is not settled. */
  lemma GrowingIsOpen()
    ensures !AllSettled(INITIAL_HEAP, [0, 0, 0], [0, 0, 0], GROWING)
  {
    hide Malloc, Sound, AllSettled;
    MoveBackHappens();
    var ops1, ops2, ops3 := GROWING[1..], GROWING[2..], GROWING[3..];
    assert ops1[1..] == ops2 && ops2[1..] == ops3;
    assert !AllSettled(THREE_LIVE, [4016, 3912, 3808], [100, 100, 100], ops3) by {
      LastIsOpen(ops3);
    }
    assert [4016, 3912, 0][2 := 3808] == [4016, 3912, 3808] && [100, 100, 0][2 := 100] == [100, 100, 100];
    OpenStep(TWO_LIVE, [4016, 3912, 0], [100, 100, 0], ops2, 2, THREE_LIVE, 3808);
    assert [4016, 0, 0][1 := 3912] == [4016, 3912, 0] && [100, 0, 0][1 := 100] == [100, 100, 0];
    OpenStep(ONE_LIVE, [4016, 0, 0], [100, 0, 0], ops1, 1, TWO_LIVE, 3912);
    assert [0, 0, 0][0 := 4016] == [4016, 0, 0] && [0, 0, 0][0 := 100] == [100, 0, 0];
    OpenStep(INITIAL_HEAP, [0, 0, 0], [0, 0, 0], GROWING, 0, ONE_LIVE, 4016);
  }

  /** Before that request word 120 lies in the free block and may be anything. */
  lemma AnyLeftover(M: seq<Word>, w: Word)
    requires State(M, THREE_LIVE, {}, {}) && Filled(M, 3808, 100, 2)
    ensures |M| > 120 && State(M[120 := w], THREE_LIVE, {}, {}) && Filled(M[120 := w], 3808, 100, 2)
  {
    hide State, Filled, Harmless, SizeOf;
    MoveBackHappens();
    FreePredecessor(M, THREE_LIVE, 3808);
    LeftoverIsHarmless(M, THREE_LIVE, 3808, 120, w);
    KeptWhenHarmless(M, M[120 := w], THREE_LIVE);
    FilledBeyond(M, M[120 := w], 3808, 100, 2, 120);
  }

  /** If it holds 0, the comparison fails, and if it holds four fill bytes, it succeeds. */
  lemma LeftoverDecides(M: seq<Word>)
    requires State(M, THREE_LIVE, {}, {}) && Filled(M, 3808, 100, 2)
    ensures |M| > 120
    ensures var M' := M[120 := 0];
      State(M', THREE_LIVE, {}, {}) && Filled(M', 3808, 100, 2) && !Agrees(M', THREE_LIVE, 3808, 200, 100, 2)
    ensures var M' := M[120 := 0x202_0202];
      State(M', THREE_LIVE, {}, {}) && Filled(M', 3808, 100, 2) && Agrees(M', THREE_LIVE, 3808, 200, 100, 2)
  {
    hide State, Filled, SizeOf, RoomAround;
    AnyLeftover(M, 0);
    AnyLeftover(M, 0x202_0202);
    MoveBackHappens();
    LeftoverFails(M[120 := 0], THREE_LIVE, 3808, 200, 100, 2, 120);
  }
}
