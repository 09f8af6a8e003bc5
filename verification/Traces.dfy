/** Allocation traces on block tables: ids, owners, demand. */
module Traces {
  import opened MemLib
  import opened HeapShape
  import opened FreeRing
  import opened HeapTable
  import opened HeapSpec
  import opened SpecMalloc
  import opened SpecFree
  import opened SpecRealloc
  import opened Ranges

  datatype Op = AllocOp(index: nat, size: nat) | ReallocOp(index: nat, size: nat) | FreeOp(index: nat)

  /** Sizes are positive, an id is allocated only while it is free, and reallocated or freed
      only while it is live.  ids are the live ids, the latest first. */
  ghost predicate Fitting(ids: seq<nat>, n: nat, op: Op) {
    match op
    case AllocOp(i, size) => i < n && size > 0 && i !in ids
    case ReallocOp(i, size) => size > 0 && i in ids
    case FreeOp(i) => i in ids
  }

  function IdsAfter(ids: seq<nat>, op: Op): seq<nat> {
    match op
    case AllocOp(i, _) => [i] + ids
    case ReallocOp(i, _) => [i] + Without(ids, i)
    case FreeOp(i) => Without(ids, i)
  }

  ghost predicate WellFormed(ids: seq<nat>, n: nat, ops: seq<Op>)
    decreases |ops|
  {
    ops == [] || (Fitting(ids, n, ops[0]) && WellFormed(IdsAfter(ids, ops[0]), n, ops[1..]))
  }

  /** The allocator can serve the request: it names a live block, and the arena is not
      exhausted. */
  ghost predicate Granted(h: Heap, blocks: seq<nat>, op: Op) {
    && Sound(h, {}) && op.index < |blocks|
    && match op
       case AllocOp(i, size) => Malloc(h, size).1 != NULL
       case ReallocOp(i, size) => LiveBlock(h, blocks[i]) && Realloc(h, blocks[i], size).1 != NULL
       case FreeOp(i) => LiveBlock(h, blocks[i])
  }

  /** The heap and the blocks of the ids after the request. */
  ghost function After(h: Heap, blocks: seq<nat>, op: Op): (Heap, seq<nat>)
    requires Granted(h, blocks, op)
  {
    match op
    case AllocOp(i, size) => (Malloc(h, size).0, blocks[i := Malloc(h, size).1])
    case ReallocOp(i, size) => (Realloc(h, blocks[i], size).0, blocks[i := Realloc(h, blocks[i], size).1])
    case FreeOp(i) => (Free(h, blocks[i]), blocks)
  }

  function SizesAfter(sizes: seq<nat>, op: Op): seq<nat>
    requires op.index < |sizes|
  {
    if op.FreeOp? then sizes else sizes[op.index := op.size]
  }

  /** The whole trace can be served from h on. */
  ghost predicate Served(h: Heap, blocks: seq<nat>, ops: seq<Op>)
    decreases |ops|
  {
    || ops == []
    || ( && Granted(h, blocks, ops[0])
         && Served(After(h, blocks, ops[0]).0, After(h, blocks, ops[0]).1, ops[1..]))
  }

  /** The heap after the trace, or after the requests before the first one that is not granted. */
  ghost function HeapAfter(h: Heap, blocks: seq<nat>, ops: seq<Op>): Heap
    decreases |ops|
  {
    if ops == [] || !Granted(h, blocks, ops[0]) then h
    else HeapAfter(After(h, blocks, ops[0]).0, After(h, blocks, ops[0]).1, ops[1..])
  }

  lemma ServedNone(h: Heap, blocks: seq<nat>)
    ensures Served(h, blocks, []) && HeapAfter(h, blocks, []) == h
  {
  }

  /** The most that one request can make the heap grow. */
  function Need(op: Op): nat {
    if op.FreeOp? then 0 else if AllocSize(op.size) > CHUNKSIZE then AllocSize(op.size) else CHUNKSIZE
  }

  /** And no less than that is needed when nothing fits and the last block is not free. */
  lemma NeedIsTight(h: Heap, i: nat, size: nat)
    requires Sound(h, {}) && size > 0 && NothingFits(h, AllocSize(size)) && !IsFree(h.bs, PrevOf(h.bs, h.epi))
    ensures Malloc(h, size).1 != NULL ==> Malloc(h, size).0.epi == h.epi + Need(AllocOp(i, size))
    ensures Malloc(h, size).1 == NULL ==> h.epi + Need(AllocOp(i, size)) > MAX_HEAP
  {
    hide Malloc, Carved, NothingFits, AllocSize;
    MallocGrants(h, size);
    MallocSound(h, size);
  }

  /** The most that the trace can make the heap grow. */
  function Demand(ops: seq<Op>): nat {
    if ops == [] then 0 else Need(ops[0]) + Demand(ops[1..])
  }

  /** mm_realloc fails only when it would have to grow the heap beyond the arena. */
  lemma ReallocGrowth(h: Heap, p: nat, size: nat)
    requires Sound(h, {}) && LiveBlock(h, p) && size > 0
    ensures var (h', r) := Realloc(h, p, size);
      && Sound(h', {}) && h.epi <= h'.epi <= h.epi + Need(ReallocOp(0, size))
      && (h.epi + Need(ReallocOp(0, size)) <= MAX_HEAP ==> r != NULL)
  {
    hide Sound, Malloc, Resettled, Stretched, RoomAround, Fit;
    AllocSizeAligned(size);
    LiveBlockBounds(h, p);
    ReallocSound(h, p, size);
    var asize := AllocSize(size);
    if asize > h.bs[p].size && NextOf(h.bs, p) == h.epi {
      DifferenceAligns(asize, h.bs[p].size);
      PositiveEight(asize - h.bs[p].size);
      StretchedSound(h, p, asize - h.bs[p].size);
    } else if h.bs[p].size < asize <= RoomAround(h, p) {
      ResettledSound(h, p, asize);
    } else if asize > h.bs[p].size {
      MallocSound(h, size);
      if Malloc(h, size).1 != NULL { MoveSound(h, p, size); FreeSound(Malloc(h, size).0, p); }
    }
  }

  /** Id i holds a live block with room for its payload. */
  ghost predicate Slot(h: Heap, blocks: seq<nat>, sizes: seq<nat>, i: nat) {
    i < |blocks| && i < |sizes| && LiveBlock(h, blocks[i]) && sizes[i] > 0 && sizes[i] + 4 <= h.bs[blocks[i]].size
  }

  ghost predicate Different(blocks: seq<nat>, ids: seq<nat>, j: nat, k: nat)
    requires j < |ids| && k < |ids|
  {
    ids[j] < |blocks| && ids[k] < |blocks| && blocks[ids[j]] != blocks[ids[k]]
  }

  /** Different ids hold different blocks. */
  ghost predicate Owned(h: Heap, blocks: seq<nat>, sizes: seq<nat>, ids: seq<nat>) {
    && |blocks| == |sizes| && Distinct(ids)
    && (forall k {:trigger Slot(h, blocks, sizes, ids[k])} :: 0 <= k < |ids| ==> Slot(h, blocks, sizes, ids[k]))
    && (forall j, k {:trigger Different(blocks, ids, j, k)} :: 0 <= j < |ids| && 0 <= k < |ids| && j != k ==>
         Different(blocks, ids, j, k))
  }

  lemma OwnedSizes(h: Heap, blocks: seq<nat>, sizes: seq<nat>, ids: seq<nat>)
    requires Owned(h, blocks, sizes, ids)
    ensures |blocks| == |sizes|
  {
  }

  lemma SlotIsLive(h: Heap, blocks: seq<nat>, sizes: seq<nat>, ids: seq<nat>, k: nat)
    requires Owned(h, blocks, sizes, ids) && k < |ids|
    ensures Slot(h, blocks, sizes, ids[k]) && ids[k] < |blocks| == |sizes|
  {
    assert Slot(h, blocks, sizes, ids[k]);
  }

  /** A request whose need fits into the rest of the arena is granted. */
  lemma AmpleGrants(h: Heap, blocks: seq<nat>, sizes: seq<nat>, ids: seq<nat>, op: Op)
    requires Sound(h, {}) && Owned(h, blocks, sizes, ids) && Fitting(ids, |blocks|, op)
    requires h.epi + Need(op) <= MAX_HEAP
    ensures Granted(h, blocks, op) && After(h, blocks, op).0.epi <= h.epi + Need(op)
  {
    hide Sound, Malloc, Realloc, Free, Owned, Fit;
    OwnedSizes(h, blocks, sizes, ids);
    match op
    case AllocOp(i, size) =>
      MallocSound(h, size);
    case ReallocOp(i, size) =>
      var k :| 0 <= k < |ids| && ids[k] == i;
      SlotIsLive(h, blocks, sizes, ids, k);
      ReallocGrowth(h, blocks[i], size);
    case FreeOp(i) =>
      var k :| 0 <= k < |ids| && ids[k] == i;
      SlotIsLive(h, blocks, sizes, ids, k);
      FreeSound(h, blocks[i]);
  }

  lemma AllocOwned(h: Heap, h': Heap, size: nat, r: nat, i: nat, blocks: seq<nat>, sizes: seq<nat>, ids: seq<nat>)
    requires Sound(h, {}) && size > 0 && Allocated(h, h', size, r) && i !in ids && i < |blocks|
    requires Owned(h, blocks, sizes, ids)
    ensures Owned(h', blocks[i := r], sizes[i := size], [i] + ids)
  {
    AllocSizeAligned(size);
    var bs', ss', js := blocks[i := r], sizes[i := size], [i] + ids;
    forall k | 0 <= k < |js| ensures Slot(h', bs', ss', js[k]) {
      assert k > 0 ==> Slot(h, blocks, sizes, ids[k - 1]) && js[k] == ids[k - 1] && ids[k - 1] in ids;
    }
    forall j, k | 0 <= j < |js| && 0 <= k < |js| && j != k ensures Different(bs', js, j, k) {
      assert j > 0 ==> Slot(h, blocks, sizes, ids[j - 1]) && ids[j - 1] in ids;
      assert k > 0 ==> Slot(h, blocks, sizes, ids[k - 1]) && ids[k - 1] in ids;
      assert j > 0 && k > 0 ==> Different(blocks, ids, j - 1, k - 1);
    }
  }

  lemma {:induction false} WithoutAt(ids: seq<nat>, k: nat)
    requires Distinct(ids) && k < |ids|
    ensures Without(ids, ids[k]) == ids[..k] + ids[k + 1..]
  {
    WithoutDrops(ids, k);
  }

  /** Where entry j of the list without entry k comes from. */
  lemma Shifted(ids: seq<nat>, k: nat, j: nat) returns (j0: nat)
    requires Distinct(ids) && k < |ids| && j < |Without(ids, ids[k])|
    ensures j0 == (if j < k then j else j + 1) && j0 < |ids| && j0 != k && Without(ids, ids[k])[j] == ids[j0]
  {
    WithoutAt(ids, k);
    j0 := if j < k then j else j + 1;
  }

  lemma StillDifferent(blocks: seq<nat>, ids: seq<nat>, k: nat, j: nat, l: nat)
    requires Distinct(ids) && k < |ids| && j < |Without(ids, ids[k])| && l < |Without(ids, ids[k])| && j != l
    requires forall j, k {:trigger Different(blocks, ids, j, k)} :: 0 <= j < |ids| && 0 <= k < |ids| && j != k ==>
      Different(blocks, ids, j, k)
    ensures Different(blocks, Without(ids, ids[k]), j, l)
  {
    hide Without;
    var j0 := Shifted(ids, k, j);
    var l0 := Shifted(ids, k, l);
    assert Different(blocks, ids, j0, l0);
  }

  lemma OtherSlot(h: Heap, h': Heap, k: nat, blocks: seq<nat>, sizes: seq<nat>, ids: seq<nat>, j: nat)
    requires Owned(h, blocks, sizes, ids) && k < |ids| && Slot(h, blocks, sizes, ids[k])
    requires LiveKept(h, h', {blocks[ids[k]]})
    requires j < |ids| && j != k
    ensures Slot(h', blocks, sizes, ids[j])
  {
    assert Slot(h, blocks, sizes, ids[j]) && Different(blocks, ids, j, k);
  }

  lemma StillOwned(h: Heap, h': Heap, k: nat, blocks: seq<nat>, sizes: seq<nat>, ids: seq<nat>)
    requires Owned(h, blocks, sizes, ids) && k < |ids| && Slot(h, blocks, sizes, ids[k])
    requires LiveKept(h, h', {blocks[ids[k]]})
    ensures Owned(h', blocks, sizes, Without(ids, ids[k]))
  {
    hide LiveBlock, LiveKept, Without, Slot, Different;
    var js := Without(ids, ids[k]);
    WithoutDistinct(ids, ids[k]);
    forall j | 0 <= j < |js| ensures Slot(h', blocks, sizes, js[j]) {
      var j0 := Shifted(ids, k, j);
      OtherSlot(h, h', k, blocks, sizes, ids, j0);
    }
    forall j, l | 0 <= j < |js| && 0 <= l < |js| && j != l ensures Different(blocks, js, j, l) {
      StillDifferent(blocks, ids, k, j, l);
    }
  }

  lemma FreeOwned(h: Heap, k: nat, blocks: seq<nat>, sizes: seq<nat>, ids: seq<nat>)
    requires Sound(h, {}) && Owned(h, blocks, sizes, ids) && k < |ids|
    ensures Slot(h, blocks, sizes, ids[k])
    ensures Owned(Free(h, blocks[ids[k]]), blocks, sizes, Without(ids, ids[k]))
  {
    hide Sound, Free;
    assert Slot(h, blocks, sizes, ids[k]);
    FreeLive(h, blocks[ids[k]]);
    StillOwned(h, Free(h, blocks[ids[k]]), k, blocks, sizes, ids);
  }

  /** A block that no other id holds joins the owned ones. */
  lemma OneMoreOwned(h: Heap, size: nat, r: nat, i: nat, blocks: seq<nat>, sizes: seq<nat>, ids: seq<nat>)
    requires Owned(h, blocks, sizes, ids) && i !in ids && i < |blocks|
    requires LiveBlock(h, r) && size > 0 && size + 4 <= h.bs[r].size
    requires forall k {:trigger ids[k]} :: 0 <= k < |ids| ==> ids[k] < |blocks| && blocks[ids[k]] != r
    ensures Owned(h, blocks[i := r], sizes[i := size], [i] + ids)
  {
    hide LiveBlock;
    var bs', ss', js := blocks[i := r], sizes[i := size], [i] + ids;
    forall k | 0 <= k < |js| ensures Slot(h, bs', ss', js[k]) {
      assert k > 0 ==> Slot(h, blocks, sizes, ids[k - 1]) && js[k] == ids[k - 1] && ids[k - 1] in ids;
    }
    forall j, k | 0 <= j < |js| && 0 <= k < |js| && j != k ensures Different(bs', js, j, k) {
      assert j > 0 ==> ids[j - 1] in ids;
      assert k > 0 ==> ids[k - 1] in ids;
      assert j > 0 && k > 0 ==> Different(blocks, ids, j - 1, k - 1);
    }
  }

  lemma SelfKept(h: Heap, p: nat)
    ensures LiveKept(h, h, {p})
  {
  }

  lemma OwnedDistinct(h: Heap, blocks: seq<nat>, sizes: seq<nat>, ids: seq<nat>)
    requires Owned(h, blocks, sizes, ids)
    ensures Distinct(ids)
  {
  }

  ghost predicate OthersElsewhere(r: nat, blocks: seq<nat>, ids: seq<nat>) {
    forall k {:trigger ids[k]} :: 0 <= k < |ids| ==> ids[k] < |blocks| && blocks[ids[k]] != r
  }

  lemma ElsewhereAfter(h: Heap, r: nat, k: nat, blocks: seq<nat>, sizes: seq<nat>, ids: seq<nat>)
    requires Owned(h, blocks, sizes, ids) && k < |ids| && ids[k] < |blocks|
    requires r == blocks[ids[k]] || !LiveBlock(h, r)
    ensures OthersElsewhere(r, blocks, Without(ids, ids[k]))
  {
    hide LiveBlock, Without;
    var js := Without(ids, ids[k]);
    forall j | 0 <= j < |js| ensures js[j] < |blocks| && blocks[js[j]] != r {
      var j0 := Shifted(ids, k, j);
      assert Slot(h, blocks, sizes, ids[j0]) && Different(blocks, ids, j0, k);
    }
  }

  /** mm_realloc as the owner of the blocks sees it. */
  lemma ReallocOwned(h: Heap, k: nat, size: nat, blocks: seq<nat>, sizes: seq<nat>, ids: seq<nat>)
    requires Sound(h, {}) && Owned(h, blocks, sizes, ids) && k < |ids| && size > 0
    requires ids[k] < |blocks| && LiveBlock(h, blocks[ids[k]]) && Realloc(h, blocks[ids[k]], size).1 != NULL
    ensures var (h', r) := Realloc(h, blocks[ids[k]], size);
      && Sound(h', {}) && LiveBlock(h', r) && size + 4 <= h'.bs[r].size
      && Owned(h', blocks, sizes, Without(ids, ids[k])) && OthersElsewhere(r, blocks, Without(ids, ids[k]))
      && Owned(h', blocks[ids[k] := r], sizes[ids[k] := size], [ids[k]] + Without(ids, ids[k]))
  {
    hide Sound, Realloc, Owned, Without, LiveKept;
    var i, p := ids[k], blocks[ids[k]];
    var (h', r) := Realloc(h, p, size);
    SlotIsLive(h, blocks, sizes, ids, k);
    ReallocSound(h, p, size);
    AllocSizeAligned(size);
    assert LiveKept(h, h', {p}) && LiveBlock(h', r) && (r != p ==> !LiveBlock(h, r)) by {
      SelfKept(h, p);
    }
    OwnedDistinct(h, blocks, sizes, ids);
    StillOwned(h, h', k, blocks, sizes, ids);
    WithoutMembers(ids, i, i);
    ElsewhereAfter(h, r, k, blocks, sizes, ids);
    OneMoreOwned(h', size, r, i, blocks, sizes, Without(ids, i));
  }

  /** The ids own their blocks after every granted request. */
  lemma GrantedOwned(h: Heap, blocks: seq<nat>, sizes: seq<nat>, ids: seq<nat>, op: Op)
    requires Sound(h, {}) && Owned(h, blocks, sizes, ids) && Fitting(ids, |blocks|, op) && Granted(h, blocks, op)
    ensures op.index < |sizes| && Sound(After(h, blocks, op).0, {}) && |After(h, blocks, op).1| == |blocks|
    ensures Owned(After(h, blocks, op).0, After(h, blocks, op).1, SizesAfter(sizes, op), IdsAfter(ids, op))
  {
    hide Sound, Malloc, Realloc, Free, Owned, Fit;
    OwnedSizes(h, blocks, sizes, ids);
    match op
    case AllocOp(i, size) =>
      MallocSound(h, size);
      var (h', r) := Malloc(h, size);
      AllocOwned(h, h', size, r, i, blocks, sizes, ids);
    case ReallocOp(i, size) =>
      var k :| 0 <= k < |ids| && ids[k] == i;
      ReallocOwned(h, k, size, blocks, sizes, ids);
    case FreeOp(i) =>
      var k :| 0 <= k < |ids| && ids[k] == i;
      FreeOwned(h, k, blocks, sizes, ids);
      FreeSound(h, blocks[i]);
  }

  /** A trace whose demand fits into the rest of the arena is served to the end. */
  lemma {:induction false} AmpleArenaServes(h: Heap, blocks: seq<nat>, sizes: seq<nat>, ids: seq<nat>, ops: seq<Op>)
    requires Sound(h, {}) && Owned(h, blocks, sizes, ids) && WellFormed(ids, |blocks|, ops)
    requires h.epi + Demand(ops) <= MAX_HEAP
    ensures Served(h, blocks, ops)
    decreases |ops|
  {
    hide Sound, Granted, After, Owned, Fitting;
    if ops != [] {
      OwnedSizes(h, blocks, sizes, ids);
      AmpleGrants(h, blocks, sizes, ids, ops[0]);
      GrantedOwned(h, blocks, sizes, ids, ops[0]);
      var (h', blocks') := After(h, blocks, ops[0]);
      AmpleArenaServes(h', blocks', SizesAfter(sizes, ops[0]), IdsAfter(ids, ops[0]), ops[1..]);
    }
  }

  ghost predicate TrackedAt(ranges: seq<Range>, blocks: seq<nat>, sizes: seq<nat>, ids: seq<nat>, k: nat)
    requires k < |ids| && k < |ranges|
  {
    ids[k] < |blocks| && ids[k] < |sizes| && ranges[k] == Extent(blocks[ids[k]], sizes[ids[k]])
  }

  /** The range list records the payloads of the live ids, in order. */
  ghost predicate Tracked(ranges: seq<Range>, blocks: seq<nat>, sizes: seq<nat>, ids: seq<nat>) {
    && |ranges| == |ids|
    && forall k {:trigger TrackedAt(ranges, blocks, sizes, ids, k)} :: 0 <= k < |ids| ==>
         TrackedAt(ranges, blocks, sizes, ids, k)
  }

  // The checks of add_range

  lemma PayloadFits(h: Heap, r: nat, size: nat)
    requires Sound(h, {}) && LiveBlock(h, r) && size + 4 <= h.bs[r].size
    ensures r % 8 == 0 && FIRST <= r && r + size + 4 <= h.epi
  {
    assert Fits(h.bs, h.epi, r) && Apart(h.bs, PROLOGUE, r) && Apart(h.bs, r, h.epi);
  }

  /** The pointer that mm_malloc returns: aligned, inside the heap, and its size bytes
      overlap no other block at all, header, links and footer included. */
  lemma PointerIsExclusive(h: Heap, h': Heap, size: nat, r: nat)
    requires Sound(h, {}) && Allocated(h, h', size, r)
    ensures r % 8 == 0 && FIRST <= r && r + size + 4 <= h'.epi
    ensures forall b {:trigger b in h'.bs} :: b in h'.bs && b != r ==> b + h'.bs[b].size <= r || r + size <= b - 4
  {
    AllocSizeAligned(size);
    PayloadFits(h', r, size);
    forall b | b in h'.bs && b != r ensures b + h'.bs[b].size <= r || r + size <= b - 4 {
      assert Apart(h'.bs, b, r) && Apart(h'.bs, r, b);
    }
  }

  lemma PayloadsApart(h: Heap, p: nat, m: nat, q: nat, n: nat)
    requires Sound(h, {}) && LiveBlock(h, p) && LiveBlock(h, q) && p != q
    requires 0 < m && m + 4 <= h.bs[p].size && 0 < n && n + 4 <= h.bs[q].size
    ensures p + m <= q || q + n <= p
    ensures !Overlap(Extent(p, m), q, q + n - 1)
  {
    assert Apart(h.bs, p, q) && Apart(h.bs, q, p);
  }

  /** A new block passes every check of add_range. */
  lemma FreshPasses(h: Heap, h': Heap, size: nat, r: nat, ranges: seq<Range>, blocks: seq<nat>, sizes: seq<nat>,
        ids: seq<nat>)
    requires Sound(h, {}) && size > 0 && Allocated(h, h', size, r)
    requires Owned(h, blocks, sizes, ids) && Tracked(ranges, blocks, sizes, ids)
    ensures r % 8 == 0 && r + size - 1 <= h'.epi - 1
    ensures forall k :: 0 <= k < |ranges| ==> !Hits(ranges[k], r, r + size - 1)
  {
    AllocSizeAligned(size);
    PayloadFits(h', r, size);
    forall k | 0 <= k < |ranges| ensures !Hits(ranges[k], r, r + size - 1) {
      assert TrackedAt(ranges, blocks, sizes, ids, k) && Slot(h, blocks, sizes, ids[k]);
      PayloadsApart(h', blocks[ids[k]], sizes[ids[k]], r, size);
      HitsIsAlmostOverlap(ranges[k], r, r + size - 1);
    }
  }

  lemma AllocTracked(r: nat, size: nat, i: nat, ranges: seq<Range>, blocks: seq<nat>, sizes: seq<nat>, ids: seq<nat>)
    requires Tracked(ranges, blocks, sizes, ids) && i !in ids && i < |blocks| == |sizes|
    ensures Tracked([Extent(r, size)] + ranges, blocks[i := r], sizes[i := size], [i] + ids)
  {
    var rs', bs', ss', js := [Extent(r, size)] + ranges, blocks[i := r], sizes[i := size], [i] + ids;
    forall k | 0 <= k < |js| ensures TrackedAt(rs', bs', ss', js, k) {
      assert k > 0 ==> TrackedAt(ranges, blocks, sizes, ids, k - 1) && ids[k - 1] in ids;
    }
  }

  lemma FreeTracked(h: Heap, k: nat, ranges: seq<Range>, blocks: seq<nat>, sizes: seq<nat>, ids: seq<nat>)
    requires Owned(h, blocks, sizes, ids) && Tracked(ranges, blocks, sizes, ids) && k < |ids| && ids[k] < |blocks|
    ensures Tracked(WithoutLo(ranges, blocks[ids[k]]), blocks, sizes, Without(ids, ids[k]))
  {
    WithoutAt(ids, k);
    assert TrackedAt(ranges, blocks, sizes, ids, k);
    forall j | 0 <= j < k ensures ranges[j].lo != blocks[ids[k]] {
      assert TrackedAt(ranges, blocks, sizes, ids, j) && Different(blocks, ids, j, k);
    }
    WithoutLoAt(ranges, blocks[ids[k]], k);
    var rs', js := ranges[..k] + ranges[k + 1..], ids[..k] + ids[k + 1..];
    forall j | 0 <= j < |js| ensures TrackedAt(rs', blocks, sizes, js, j) {
      assert TrackedAt(ranges, blocks, sizes, ids, if j < k then j else j + 1);
    }
  }

  /** A block apart from all recorded ones passes every check of add_range. */
  lemma ApartPasses(h: Heap, size: nat, r: nat, ranges: seq<Range>, blocks: seq<nat>, sizes: seq<nat>, ids: seq<nat>)
    requires Sound(h, {}) && LiveBlock(h, r) && size > 0 && size + 4 <= h.bs[r].size
    requires Owned(h, blocks, sizes, ids) && Tracked(ranges, blocks, sizes, ids) && OthersElsewhere(r, blocks, ids)
    ensures r % 8 == 0 && r + size - 1 <= h.epi - 1
    ensures forall k :: 0 <= k < |ranges| ==> !Hits(ranges[k], r, r + size - 1)
  {
    PayloadFits(h, r, size);
    forall k | 0 <= k < |ranges| ensures !Hits(ranges[k], r, r + size - 1) {
      assert TrackedAt(ranges, blocks, sizes, ids, k) && Slot(h, blocks, sizes, ids[k]);
      PayloadsApart(h, blocks[ids[k]], sizes[ids[k]], r, size);
      HitsIsAlmostOverlap(ranges[k], r, r + size - 1);
    }
  }

  // Utilisation

  /** The sum of the live payload sizes. */
  function LiveTotal(sizes: seq<nat>, ids: seq<nat>): nat {
    if ids == [] then 0 else (if ids[0] < |sizes| then sizes[ids[0]] else 0) + LiveTotal(sizes, ids[1..])
  }

  lemma {:induction false} LiveTotalSkips(sizes: seq<nat>, ids: seq<nat>, i: nat, size: nat)
    requires i !in ids && i < |sizes|
    ensures LiveTotal(sizes[i := size], ids) == LiveTotal(sizes, ids)
  {
    if ids != [] {
      LiveTotalSkips(sizes, ids[1..], i, size);
    }
  }

  lemma AllocTotal(sizes: seq<nat>, ids: seq<nat>, i: nat, size: nat)
    requires i !in ids && i < |sizes|
    ensures LiveTotal(sizes[i := size], [i] + ids) == LiveTotal(sizes, ids) + size
  {
    LiveTotalSkips(sizes, ids, i, size);
    assert ([i] + ids)[1..] == ids;
  }

  lemma {:induction false} FreeTotal(sizes: seq<nat>, ids: seq<nat>, i: nat)
    requires i in ids && i < |sizes|
    ensures LiveTotal(sizes, Without(ids, i)) == LiveTotal(sizes, ids) - sizes[i]
  {
    if ids[0] != i {
      FreeTotal(sizes, ids[1..], i);
      assert ([ids[0]] + Without(ids[1..], i))[1..] == Without(ids[1..], i);
    }
  }

  /** By how much a request changes the live bytes. */
  function Change(sizes: seq<nat>, op: Op): int
    requires op.index < |sizes|
  {
    (if op.FreeOp? then 0 else op.size) - if op.AllocOp? then 0 else sizes[op.index]
  }

  lemma OpTotal(sizes: seq<nat>, ids: seq<nat>, n: nat, op: Op)
    requires Distinct(ids) && Fitting(ids, n, op) && op.index < |sizes|
    ensures LiveTotal(SizesAfter(sizes, op), IdsAfter(ids, op)) == LiveTotal(sizes, ids) + Change(sizes, op)
  {
    hide LiveTotal;
    match op
    case AllocOp(i, size) =>
      AllocTotal(sizes, ids, i, size);
    case ReallocOp(i, size) =>
      FreeTotal(sizes, ids, i);
      WithoutMembers(ids, i, i);
      AllocTotal(sizes, Without(ids, i), i, size);
    case FreeOp(i) =>
      FreeTotal(sizes, ids, i);
  }

  ghost function Span(a: int, n: nat): (s: set<int>)
    ensures |s| == n && forall x {:trigger x in s} :: x in s <==> a <= x < a + n
  {
    if n == 0 then {} else Span(a, n - 1) + {a + n - 1}
  }

  /** The bytes of the live payloads. */
  ghost function Cells(blocks: seq<nat>, sizes: seq<nat>, ids: seq<nat>): set<int>
    requires |blocks| == |sizes| && forall k {:trigger ids[k]} :: 0 <= k < |ids| ==> ids[k] < |blocks|
  {
    if ids == [] then {} else Span(blocks[ids[0]], sizes[ids[0]]) + Cells(blocks, sizes, ids[1..])
  }

  lemma OwnedTail(h: Heap, blocks: seq<nat>, sizes: seq<nat>, ids: seq<nat>)
    requires Owned(h, blocks, sizes, ids) && ids != []
    ensures Owned(h, blocks, sizes, ids[1..]) && Slot(h, blocks, sizes, ids[0])
    ensures forall k {:trigger ids[1..][k]} :: 0 <= k < |ids| - 1 ==>
      Slot(h, blocks, sizes, ids[1..][k]) && blocks[ids[1..][k]] != blocks[ids[0]]
  {
    var js := ids[1..];
    assert Slot(h, blocks, sizes, ids[0]);
    forall k | 0 <= k < |js| ensures Slot(h, blocks, sizes, js[k]) && blocks[js[k]] != blocks[ids[0]] {
      assert js[k] == ids[k + 1] && Slot(h, blocks, sizes, ids[k + 1]) && Different(blocks, ids, k + 1, 0);
    }
    forall j, k | 0 <= j < |js| && 0 <= k < |js| && j != k ensures Different(blocks, js, j, k) {
      assert Different(blocks, ids, j + 1, k + 1);
    }
  }

  lemma {:induction false} CellsWhere(blocks: seq<nat>, sizes: seq<nat>, ids: seq<nat>, x: int) returns (k: nat)
    requires |blocks| == |sizes| && forall k {:trigger ids[k]} :: 0 <= k < |ids| ==> ids[k] < |blocks|
    requires x in Cells(blocks, sizes, ids)
    ensures k < |ids| && blocks[ids[k]] <= x < blocks[ids[k]] + sizes[ids[k]]
  {
    if x in Span(blocks[ids[0]], sizes[ids[0]]) {
      k := 0;
    } else {
      k := CellsWhere(blocks, sizes, ids[1..], x);
      k := k + 1;
    }
  }

  lemma IdsInRange(h: Heap, blocks: seq<nat>, sizes: seq<nat>, ids: seq<nat>)
    requires Owned(h, blocks, sizes, ids)
    ensures forall k {:trigger ids[k]} :: 0 <= k < |ids| ==> ids[k] < |blocks|
  {
    forall k | 0 <= k < |ids| ensures ids[k] < |blocks| {
      assert Slot(h, blocks, sizes, ids[k]);
    }
  }

  lemma HeadIsApart(h: Heap, blocks: seq<nat>, sizes: seq<nat>, ids: seq<nat>)
    requires Sound(h, {}) && Owned(h, blocks, sizes, ids) && ids != []
    requires forall k {:trigger ids[k]} :: 0 <= k < |ids| ==> ids[k] < |blocks|
    ensures Span(blocks[ids[0]], sizes[ids[0]]) !! Cells(blocks, sizes, ids[1..])
  {
    hide Sound, Cells, Owned;
    var js := ids[1..];
    OwnedTail(h, blocks, sizes, ids);
    forall x | x in Cells(blocks, sizes, js) ensures x !in Span(blocks[ids[0]], sizes[ids[0]]) {
      var k := CellsWhere(blocks, sizes, js, x);
      assert Slot(h, blocks, sizes, js[k]);
      PayloadsApart(h, blocks[ids[0]], sizes[ids[0]], blocks[js[k]], sizes[js[k]]);
    }
  }

  lemma {:induction false} CellsCounted(h: Heap, blocks: seq<nat>, sizes: seq<nat>, ids: seq<nat>)
    requires Sound(h, {}) && Owned(h, blocks, sizes, ids)
    ensures forall k {:trigger ids[k]} :: 0 <= k < |ids| ==> ids[k] < |blocks|
    ensures |Cells(blocks, sizes, ids)| == LiveTotal(sizes, ids)
  {
    hide Sound;
    IdsInRange(h, blocks, sizes, ids);
    if ids != [] {
      OwnedTail(h, blocks, sizes, ids);
      CellsCounted(h, blocks, sizes, ids[1..]);
      HeadIsApart(h, blocks, sizes, ids);
    }
  }

  lemma EpilogueBound(h: Heap)
    requires Sound(h, {})
    ensures FIRST <= h.epi
  {
    assert Fits(h.bs, h.epi, h.epi) && Apart(h.bs, PROLOGUE, h.epi);
  }

  lemma SubsetSize(a: set<int>, b: set<int>)
    requires a <= b
    ensures |a| <= |b|
  {
    assert b == a + (b - a);
  }

  /** The live payloads together fit between the first block and the break. */
  lemma PayloadsPacked(h: Heap, blocks: seq<nat>, sizes: seq<nat>, ids: seq<nat>)
    requires Sound(h, {}) && Owned(h, blocks, sizes, ids)
    ensures FIRST <= h.epi && LiveTotal(sizes, ids) <= h.epi - FIRST
  {
    hide Sound, Cells;
    CellsCounted(h, blocks, sizes, ids);
    EpilogueBound(h);
    var all := Span(FIRST, h.epi - FIRST);
    forall x | x in Cells(blocks, sizes, ids) ensures x in all {
      var k := CellsWhere(blocks, sizes, ids, x);
      assert Slot(h, blocks, sizes, ids[k]);
      PayloadFits(h, blocks[ids[k]], sizes[ids[k]]);
    }
    SubsetSize(Cells(blocks, sizes, ids), all);
  }

  // The high-water mark of a trace, from the trace alone

  /** The size that id i was last allocated or reallocated with. */
  function LastSize(ops: seq<Op>, i: nat): nat {
    if ops == [] then 0
    else
      var op := ops[|ops| - 1];
      if !op.FreeOp? && op.index == i then op.size else LastSize(ops[..|ops| - 1], i)
  }

  /** The live bytes after the whole trace. */
  function Total(ops: seq<Op>): int {
    if ops == [] then 0
    else
      var rest := ops[..|ops| - 1];
      match ops[|ops| - 1]
      case AllocOp(i, size) => Total(rest) + size
      case ReallocOp(i, size) => Total(rest) + (size - LastSize(rest, i))
      case FreeOp(i) => Total(rest) - LastSize(rest, i)
  }

  function Peak(ops: seq<Op>): int {
    if ops == [] then 0
    else
      var p := Peak(ops[..|ops| - 1]);
      if Total(ops) > p then Total(ops) else p
  }

  lemma {:induction false} PeakIsHighest(ops: seq<Op>)
    ensures exists k :: 0 <= k <= |ops| && Peak(ops) == Total(ops[..k])
    ensures forall k :: 0 <= k <= |ops| ==> Total(ops[..k]) <= Peak(ops)
  {
    if ops == [] {
      assert Total(ops[..0]) == 0;
    } else {
      var rest := ops[..|ops| - 1];
      PeakIsHighest(rest);
      assert ops[..|ops|] == ops;
      forall k | 0 <= k <= |ops| ensures Total(ops[..k]) <= Peak(ops) {
        assert k < |ops| ==> rest[..k] == ops[..k];
      }
      var j :| 0 <= j <= |rest| && Peak(rest) == Total(rest[..j]);
      assert rest[..j] == ops[..j];
    }
  }
}
