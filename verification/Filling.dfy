/** memset and the comparison, byte by byte. */
module Filling {
  // What memset leaves in the words of the arena: whole words and the low bytes of the last
  // one; and which of those bytes survive mm_realloc.

  import opened MemLib
  import opened Packing
  import opened HeapShape
  import opened FreeRing
  import opened HeapTable
  import opened HeapState
  import opened HeapSpec
  import opened SpecMalloc
  import opened SpecRealloc
  import opened Merging
  import opened Regrowing
  import opened Unguarded
  import opened Traces

  /** The k-th power of 0x100, up to a whole word. */
  function Power(k: nat): (r: nat)
    ensures r > 0
  {
    if k == 0 then 1
    else if k == 1 then 0x100
    else if k == 2 then 0x1_0000
    else if k == 3 then 0x100_0000
    else WORD_LIMIT
  }

  /** The number whose low k bytes, up to a whole word, are all b. */
  function Bytes(b: nat, k: nat): nat {
    if k == 0 then 0
    else if k == 1 then b
    else if k == 2 then 0x101 * b
    else if k == 3 then 0x1_0101 * b
    else 0x101_0101 * b
  }

  /** How many of the n bytes fall into word i. */
  function Part(n: nat, i: nat): nat
    requires 4 * i < n
  {
    if n - 4 * i < 4 then n - 4 * i else 4
  }

  lemma FillFits(w: Word, b: nat, k: nat)
    requires b < 0x100 && 1 <= k <= 4
    ensures Bytes(b, k) < Power(k) && w / Power(k) * Power(k) + Bytes(b, k) < WORD_LIMIT
  {
    if k == 1 { assert w / 0x100 <= 0xff_ffff; }
    else if k == 2 { assert w / 0x1_0000 <= 0xffff; }
    else if k == 3 { assert w / 0x100_0000 <= 0xff; }
  }

  /** Word w with its first k bytes replaced by b. */
  function FillWord(w: Word, b: nat, k: nat): Word
    requires b < 0x100 && 1 <= k <= 4
  {
    FillFits(w, b, k);
    w / Power(k) * Power(k) + Bytes(b, k)
  }

  lemma OneByte(x: nat, q: nat, r: nat)
    requires x == q * 0x100 + r && r < 0x100
    ensures x / 0x100 == q && x % 0x100 == r
  {
  }

  lemma TwoBytes(x: nat, q: nat, r: nat)
    requires x == q * 0x1_0000 + r && r < 0x1_0000
    ensures x / 0x1_0000 == q && x % 0x1_0000 == r
  {
  }

  lemma ThreeBytes(x: nat, q: nat, r: nat)
    requires x == q * 0x100_0000 + r && r < 0x100_0000
    ensures x / 0x100_0000 == q && x % 0x100_0000 == r
  {
  }

  lemma FillReplaces(w: Word, b: nat, k: nat)
    requires b < 0x100 && 1 <= k <= 4
    ensures FillWord(w, b, k) % Power(k) == Bytes(b, k) && FillWord(w, b, k) / Power(k) == w / Power(k)
  {
    FillFits(w, b, k);
    var x := FillWord(w, b, k);
    if k == 1 {
      OneByte(x, w / 0x100, b);
    } else if k == 2 {
      TwoBytes(x, w / 0x1_0000, 0x101 * b);
    } else if k == 3 {
      ThreeBytes(x, w / 0x100_0000, 0x1_0101 * b);
    }
  }

  ghost predicate FilledAt(M: seq<Word>, p: nat, n: nat, b: nat, i: nat)
    requires b < 0x100 && 4 * i < n
  {
    WordAt(M, p, i) >= 0 && WordAt(M, p, i) % Power(Part(n, i)) == Bytes(b, Part(n, i))
  }

  /** The n bytes from p on are all b. */
  ghost predicate Filled(M: seq<Word>, p: nat, n: nat, b: nat)
    requires b < 0x100
  {
    forall i: nat {:trigger FilledAt(M, p, n, b, i)} :: 4 * i < n ==> FilledAt(M, p, n, b, i)
  }

  /** Byte j of a word, the lowest first. */
  function ByteOf(w: Word, j: nat): nat {
    if j == 0 then w % 0x100
    else if j == 1 then w / 0x100 % 0x100
    else if j == 2 then w / 0x1_0000 % 0x100
    else w / 0x100_0000
  }

  /** The j-th byte from p on. */
  function ByteAt(M: seq<Word>, p: nat, j: nat): int {
    if p + j / 4 * 4 < |M| then ByteOf(M[p + j / 4 * 4], j % 4) else -1
  }

  lemma Digits(w: Word)
    ensures w == ByteOf(w, 0) + 0x100 * ByteOf(w, 1) + 0x1_0000 * ByteOf(w, 2) + 0x100_0000 * ByteOf(w, 3)
    ensures ByteOf(w, 0) < 0x100 && ByteOf(w, 1) < 0x100 && ByteOf(w, 2) < 0x100 && ByteOf(w, 3) < 0x100
  {
    var a, b, c := w / 0x100, w / 0x1_0000, w / 0x100_0000;
    assert w == 0x100 * a + w % 0x100;
    assert a == 0x100 * (a / 0x100) + a % 0x100 && a / 0x100 == b;
    assert b == 0x100 * (b / 0x100) + b % 0x100 && b / 0x100 == c;
  }

  /** The number that the low k of four bytes make. */
  function LowPart(b0: nat, b1: nat, b2: nat, b3: nat, k: nat): nat {
    b0 + (if k >= 2 then 0x100 * b1 else 0) + (if k >= 3 then 0x1_0000 * b2 else 0)
    + if k >= 4 then 0x100_0000 * b3 else 0
  }

  lemma LowPartIs(w: Word, k: nat)
    requires 1 <= k <= 4
    ensures w % Power(k) == LowPart(ByteOf(w, 0), ByteOf(w, 1), ByteOf(w, 2), ByteOf(w, 3), k)
  {
    hide ByteOf;
    var b0, b1, b2, b3 := ByteOf(w, 0), ByteOf(w, 1), ByteOf(w, 2), ByteOf(w, 3);
    Digits(w);
    if k == 1 {
      OneByte(w, b1 + 0x100 * b2 + 0x1_0000 * b3, b0);
    } else if k == 2 {
      TwoBytes(w, b2 + 0x100 * b3, b0 + 0x100 * b1);
    } else if k == 3 {
      ThreeBytes(w, b3, b0 + 0x100 * b1 + 0x1_0000 * b2);
    }
  }

  lemma LowDigit(x: nat, y: nat, b: nat, c: nat)
    requires x < 0x100 && b < 0x100
    ensures x + 0x100 * y == b + 0x100 * c <==> x == b && y == c
  {
  }

  lemma LowPartAgrees(b0: nat, b1: nat, b2: nat, b3: nat, b: nat, k: nat)
    requires 1 <= k <= 4 && b0 < 0x100 && b1 < 0x100 && b2 < 0x100 && b3 < 0x100 && b < 0x100
    ensures LowPart(b0, b1, b2, b3, k) == Bytes(b, k) <==>
      b0 == b && (k >= 2 ==> b1 == b) && (k >= 3 ==> b2 == b) && (k >= 4 ==> b3 == b)
  {
    if k == 2 {
      LowDigit(b0, b1, b, b);
    } else if k == 3 {
      LowDigit(b0, b1 + 0x100 * b2, b, b + 0x100 * b);
      LowDigit(b1, b2, b, b);
    } else if k == 4 {
      LowDigit(b0, b1 + 0x100 * (b2 + 0x100 * b3), b, b + 0x100 * (b + 0x100 * b));
      LowDigit(b1, b2 + 0x100 * b3, b, b + 0x100 * b);
      LowDigit(b2, b3, b, b);
    }
  }

  /** The low k bytes of a word are all b. */
  lemma LowBytes(w: Word, b: nat, k: nat)
    requires b < 0x100 && 1 <= k <= 4
    ensures w % Power(k) == Bytes(b, k) <==> forall j: nat {:trigger ByteOf(w, j)} :: j < k ==> ByteOf(w, j) == b
  {
    hide ByteOf, Bytes, Power, LowPart;
    Digits(w);
    LowPartIs(w, k);
    LowPartAgrees(ByteOf(w, 0), ByteOf(w, 1), ByteOf(w, 2), ByteOf(w, 3), b, k);
  }

  lemma WordByBytes(M: seq<Word>, p: nat, n: nat, b: nat, i: nat)
    requires b < 0x100 && p + n + 3 < |M| && 4 * i < n
    ensures FilledAt(M, p, n, b, i) <==>
      forall j: nat {:trigger ByteAt(M, p, j)} :: j < n && j / 4 == i ==> ByteAt(M, p, j) == b
  {
    hide ByteOf, Bytes, Power;
    var w, k := M[p + 4 * i], Part(n, i);
    LowBytes(w, b, k);
    if forall j: nat {:trigger ByteOf(w, j)} :: j < k ==> ByteOf(w, j) == b {
      forall j: nat | j < n && j / 4 == i ensures ByteAt(M, p, j) == b {
        assert j % 4 < k && j == 4 * i + j % 4;
      }
    }
    if forall j: nat {:trigger ByteAt(M, p, j)} :: j < n && j / 4 == i ==> ByteAt(M, p, j) == b {
      forall j: nat | j < k ensures ByteOf(w, j) == b {
        assert (4 * i + j) / 4 == i && (4 * i + j) % 4 == j;
        assert ByteAt(M, p, 4 * i + j) == b;
      }
    }
  }

  /** Comparing byte by byte is comparing whole words and the low bytes of the last one. */
  lemma FilledByBytes(M: seq<Word>, p: nat, n: nat, b: nat)
    requires b < 0x100 && p + n + 3 < |M|
    ensures Filled(M, p, n, b) <==> forall j: nat {:trigger ByteAt(M, p, j)} :: j < n ==> ByteAt(M, p, j) == b
  {
    hide ByteOf, Bytes, Power;
    forall i: nat | 4 * i < n
      ensures FilledAt(M, p, n, b, i) <==>
        forall j: nat {:trigger ByteAt(M, p, j)} :: j < n && j / 4 == i ==> ByteAt(M, p, j) == b
    {
      WordByBytes(M, p, n, b, i);
    }
    if forall j: nat {:trigger ByteAt(M, p, j)} :: j < n ==> ByteAt(M, p, j) == b {
      assert Filled(M, p, n, b);
    }
    if Filled(M, p, n, b) {
      forall j: nat | j < n ensures ByteAt(M, p, j) == b {
        assert FilledAt(M, p, n, b, j / 4);
      }
    }
  }

  lemma StillFilled(M: seq<Word>, M': seq<Word>, h: Heap, keep: set<nat>, p: nat, n: nat, b: nat)
    requires PayloadsKept(M, M', h.bs, keep) && p in keep && p in h.bs && n + 4 <= h.bs[p].size
    requires b < 0x100 && Filled(M, p, n, b)
    ensures Filled(M', p, n, b)
  {
    assert PayloadKept(M, M', h.bs, p);
    forall i: nat | 4 * i < n ensures FilledAt(M', p, n, b, i) {
      assert FilledAt(M, p, n, b, i);
    }
  }

  ghost predicate IntactAt(M: seq<Word>, blocks: seq<nat>, sizes: seq<nat>, i: nat) {
    i < |blocks| && i < |sizes| && Filled(M, blocks[i], sizes[i], i % 0x100)
  }

  /** The payload of every live id still holds the byte that memset put there. */
  ghost predicate Intact(M: seq<Word>, blocks: seq<nat>, sizes: seq<nat>, ids: seq<nat>) {
    forall k {:trigger ids[k]} :: 0 <= k < |ids| ==> IntactAt(M, blocks, sizes, ids[k])
  }

  lemma IntactAfter(M: seq<Word>, M': seq<Word>, h: Heap, keep: set<nat>, blocks: seq<nat>, sizes: seq<nat>, i: nat)
    requires PayloadsKept(M, M', h.bs, keep) && Slot(h, blocks, sizes, i) && blocks[i] in keep
    requires IntactAt(M, blocks, sizes, i)
    ensures IntactAt(M', blocks, sizes, i)
  {
    StillFilled(M, M', h, keep, blocks[i], sizes[i], i % 0x100);
  }

  lemma FilledLess(M: seq<Word>, p: nat, m: nat, n: nat, b: nat)
    requires b < 0x100 && Filled(M, p, m, b) && n <= m
    ensures Filled(M, p, n, b)
  {
    hide Power, Bytes, ByteOf;
    forall i: nat | 4 * i < n ensures FilledAt(M, p, n, b, i) {
      assert FilledAt(M, p, m, b, i);
      LowBytes(WordAt(M, p, i), b, Part(m, i));
      LowBytes(WordAt(M, p, i), b, Part(n, i));
    }
  }

  // mm_realloc

  /** The first n bytes of p end in its last payload word. */
  predicate ReachesLast(h: Heap, p: nat, n: nat)
    requires p in h.bs
  {
    h.bs[p].size < n + 8 <= h.bs[p].size + 4
  }

  /** If growing p to size bytes moves it back, and n bytes reach into its last payload word,
      then what is already there at the new place are bytes b. */
  predicate Agrees(M: seq<Word>, h: Heap, p: nat, size: nat, n: nat, b: nat)
    requires p in h.bs && b < 0x100
  {
    MovesBack(h, p, size) && ReachesLast(h, p, n) ==>
      var w, k := LastWord(M, MergeStart(h.bs, p), h.bs[p].size), n + 8 - h.bs[p].size;
      w >= 0 && w % Power(k) == Bytes(b, k)
  }

  lemma NewPlace(h: Heap, p: nat, size: nat)
    requires Sound(h, {}) && LiveBlock(h, p) && MovesBack(h, p, size)
    ensures Realloc(h, p, size).1 == MergeStart(h.bs, p) != p
  {
  }

  /** Exactly when the first n of the bytes b survive a call of mm_realloc. */
  lemma BytesSurvive(M: seq<Word>, M': seq<Word>, h: Heap, p: nat, r: nat, size: nat, m: nat, n: nat, b: nat)
    requires Sound(h, {}) && LiveBlock(h, p) && r == Realloc(h, p, size).1 != NULL && GrownOrMoved(M, M', h, p, r, size)
    requires b < 0x100 && Filled(M, p, m, b) && n <= m && m + 4 <= h.bs[p].size
    ensures Filled(M', r, n, b) <==> Agrees(M, h, p, size, n, b)
  {
    hide Sound, Realloc, PayloadsKept, LastWord, MergeStart, RoomAround, Power, Bytes;
    FilledLess(M, p, m, n, b);
    assert SameData(M, M', p, r, SurvivingBytes(h, p, size));
    forall i: nat | 4 * i < n && 4 * i < SurvivingBytes(h, p, size) ensures FilledAt(M', r, n, b, i) {
      assert FilledAt(M, p, n, b, i);
      assert WordAt(M', r, i) == WordAt(M, p, i);
    }
    if MovesBack(h, p, size) && ReachesLast(h, p, n) {
      NewPlace(h, p, size);
      PredecessorEnds(h, p, r);
      var last := LastWordAt(M', r, h.bs[p].size);
      assert Part(n, last) == n + 8 - h.bs[p].size;
      assert FilledAt(M', r, n, b, last) <==> Agrees(M, h, p, size, n, b);
      forall i: nat | 4 * i < n && i != last ensures FilledAt(M', r, n, b, i) {}
    }
  }

  lemma EightsApart(a: nat, b: nat)
    requires a % 8 == 0 && b % 8 == 0 && b < a
    ensures b + 8 <= a && 4 * ((a - 8 - b) / 4) == a - 8 - b
  {
    var k, l := a / 8, b / 8;
    assert a - 8 - b == 4 * (2 * (k - 1 - l));
  }

  /** A free predecessor that is smaller than the block is no danger: the last word of the new
      place lies inside the old payload, which holds the same byte everywhere. */
  lemma SmallerIsSafe(M: seq<Word>, h: Heap, p: nat, size: nat, m: nat, n: nat, b: nat)
    requires State(M, h, {}, {}) && LiveBlock(h, p) && b < 0x100 && Filled(M, p, m, b) && n <= m
    requires m + 4 <= h.bs[p].size
    requires IsFree(h.bs, PrevOf(h.bs, p)) ==> h.bs[PrevOf(h.bs, p)].size < h.bs[p].size
    ensures Agrees(M, h, p, size, n, b)
  {
    hide State, Power, Bytes, LastWord, RoomAround;
    if MovesBack(h, p, size) && ReachesLast(h, p, n) {
      StateIsSound(M, h, {}, {});
      var r := MergeStart(h.bs, p);
      PredecessorEnds(h, p, r);
      LiveBlockBounds(h, p);
      var last := LastWordAt(M, r, h.bs[p].size);
      var j := (h.bs[p].size - 8 - (p - r)) / 4;
      EightsApart(h.bs[p].size, p - r);
      assert 4 * j == h.bs[p].size - 8 - (p - r) && r + 4 * last == p + 4 * j;
      FilledLess(M, p, m, n - (p - r), b);
      assert FilledAt(M, p, n - (p - r), b, j);
      assert WordAt(M, p, j) == WordAt(M, r, last);
    }
  }

  /** Nothing that a free block may hold decides the comparison of n bytes: the block stays, or
      moves back onto a predecessor that is smaller, or the bytes do not reach its last word. */
  predicate Settled(h: Heap, p: nat, size: nat, n: nat)
    requires p in h.bs
  {
    MovesBack(h, p, size) && ReachesLast(h, p, n) ==> PrevRoom(h, p) < h.bs[p].size
  }

  lemma SettledAgrees(M: seq<Word>, h: Heap, p: nat, size: nat, m: nat, n: nat, b: nat)
    requires State(M, h, {}, {}) && LiveBlock(h, p) && b < 0x100 && Filled(M, p, m, b)
    requires n <= m && m + 4 <= h.bs[p].size
    requires Settled(h, p, size, n)
    ensures Agrees(M, h, p, size, n, b)
  {
    hide State, Filled, LastWord, RoomAround, Power, Bytes;
    if MovesBack(h, p, size) && ReachesLast(h, p, n) {
      SmallerIsSafe(M, h, p, size, m, n, b);
    }
  }

  /** A write before the payload leaves it filled. */
  lemma FilledBeyond(M: seq<Word>, M': seq<Word>, p: nat, m: nat, b: nat, x: nat)
    requires b < 0x100 && Filled(M, p, m, b) && x < |M| && x < p && |M'| == |M|
    requires forall y :: 0 <= y < |M| && y != x ==> M'[y] == M[y]
    ensures Filled(M', p, m, b)
  {
    forall i: nat | 4 * i < m ensures FilledAt(M', p, m, b, i) {
      assert FilledAt(M, p, m, b, i);
    }
  }

  lemma LowBitToSpare(n: nat)
    requires n % 8 == 0 && n + 1 < WORD_LIMIT
    ensures SizeOf(n) == n && SizeOf(n + 1) == n && (n + 1) % 0x100 != n % 0x100
  {
  }

  /** Where the free predecessor of a block is. */
  lemma FreePredecessor(M: seq<Word>, h: Heap, p: nat)
    requires State(M, h, {}, {}) && LiveBlock(h, p) && PrevRoom(h, p) >= h.bs[p].size
    ensures var r := PrevOf(h.bs, p);
      && r in h.bs && h.bs[r].free && FIRST <= r < p && r + h.bs[r].size == p && h.bs[r].size == PrevRoom(h, p)
      && p <= h.epi <= |M| && SizeOf(M[p - 8]) == h.bs[r].size && h.bs[p].size >= 16 && h.bs[p].size % 8 == 0
      && p < MAX_HEAP
  {
    LiveFacts(M, h, p);
    Before(M, h, {}, {}, p);
    Around(M, h, {}, {}, PrevOf(h.bs, p));
  }

  lemma LeftoverIsHarmless(M: seq<Word>, h: Heap, p: nat, x: nat, w: Word)
    requires State(M, h, {}, {}) && LiveBlock(h, p) && PrevRoom(h, p) >= h.bs[p].size
    requires x + 8 == PrevOf(h.bs, p) + h.bs[p].size && (PrevRoom(h, p) == h.bs[p].size ==> SizeOf(w) == h.bs[p].size)
    ensures Harmless(M, h, x, w)
  {
    hide SizeOf, Ring;
    var r := PrevOf(h.bs, p);
    FreePredecessor(M, h, p);
    InsideIsFresh(h.bs, h.epi, r, x + 4);
    InsideIsFresh(h.bs, h.epi, r, x);
    InsideIsFresh(h.bs, h.epi, r, x - 4);
    forall b | FooterCell(h, b, x) ensures SizeOf(w) == SizeOf(M[x]) {
      assert Fits(h.bs, h.epi, b) && Fits(h.bs, h.epi, p);
      if x + 8 < p { InsideIsFresh(h.bs, h.epi, r, x + 8); }
    }
  }

  /** A word of a free predecessor that is not smaller: the one that becomes the last word of
      the payload.  It may be anything, or has three bits to spare if it is the footer. */
  lemma Leftover(M: seq<Word>, h: Heap, p: nat, b: nat) returns (x: nat, w: Word)
    requires State(M, h, {}, {}) && LiveBlock(h, p) && PrevRoom(h, p) >= h.bs[p].size
    ensures x + 8 == PrevOf(h.bs, p) + h.bs[p].size && x < p && x < |M| && w % 0x100 != b
    ensures State(M[x := w], h, {}, {})
  {
    hide SizeOf, Tiling, Aligned, Accounted, Ring;
    var r, n := PrevOf(h.bs, p), h.bs[p].size;
    StateIsSound(M, h, {}, {});
    FreePredecessor(M, h, p);
    x := r + n - 8;
    if PrevRoom(h, p) == n {
      w := if n % 0x100 == b then n + 1 else n;
      LowBitToSpare(n);
    } else {
      w := if b == 0 then 1 else 0;
    }
    LeftoverIsHarmless(M, h, p, x, w);
    KeptWhenHarmless(M, M[x := w], h);
  }

  lemma LeftoverFails(M: seq<Word>, h: Heap, p: nat, size: nat, n: nat, b: nat, x: nat)
    requires State(M, h, {}, {}) && LiveBlock(h, p) && b < 0x100 && MovesBack(h, p, size) && ReachesLast(h, p, n)
    requires x + 8 == PrevOf(h.bs, p) + h.bs[p].size && x < |M| && M[x] % 0x100 != b
    ensures !Agrees(M, h, p, size, n, b)
  {
    hide State, Power, Bytes, RoomAround, LastWord;
    StateIsSound(M, h, {}, {});
    var r := MergeStart(h.bs, p);
    PredecessorEnds(h, p, r);
    var last := LastWordAt(M, r, h.bs[p].size);
    LowBytes(M[x], b, n + 8 - h.bs[p].size);
    assert ByteOf(M[x], 0) == M[x] % 0x100;
  }

  /** Exactly then the comparison succeeds in every memory that represents the heap and holds
      the payload. */
  lemma SettledIsExact(M: seq<Word>, h: Heap, p: nat, size: nat, m: nat, n: nat, b: nat)
    requires State(M, h, {}, {}) && LiveBlock(h, p) && b < 0x100 && Filled(M, p, m, b)
    requires n <= m && m + 4 <= h.bs[p].size
    ensures Settled(h, p, size, n) <==>
      forall M': seq<Word> {:trigger State(M', h, {}, {})} ::
        State(M', h, {}, {}) && Filled(M', p, m, b) ==> Agrees(M', h, p, size, n, b)
  {
    hide State, Agrees, Filled, RoomAround;
    if Settled(h, p, size, n) {
      forall M': seq<Word> | State(M', h, {}, {}) && Filled(M', p, m, b) ensures Agrees(M', h, p, size, n, b) {
        SettledAgrees(M', h, p, size, m, n, b);
      }
    } else {
      var x, w := Leftover(M, h, p, b);
      var M' := M[x := w];
      FilledBeyond(M, M', p, m, b, x);
      LeftoverFails(M', h, p, size, n, b, x);
      assert State(M', h, {}, {}) && Filled(M', p, m, b) && !Agrees(M', h, p, size, n, b);
    }
  }
}
