/** mdriver.c's checks over whole traces of requests. */
module Driver {
  import opened MemLib
  import opened HeapShape
  import opened FreeRing
  import opened HeapTable
  import opened HeapState
  import opened SpecMalloc
  import opened SpecFree
  import opened SpecRealloc
  import opened Merging
  import opened Regrowing
  import opened Ranges
  import opened Traces
  import opened Filling
  import opened Allocator
  import Spec = HeapSpec

  /** A payload of n bytes in block r: its last word starts no later than where the last
      word of the block does. */
  lemma PayloadWords(M: seq<Word>, h: Heap, r: nat, n: nat)
    requires State(M, h, {}, {}) && Spec.LiveBlock(h, r) && n + 4 <= h.bs[r].size
    ensures Spec.NextOf(h.bs, r) >= 8 && WordAddress(r) && WordAddress(Spec.NextOf(h.bs, r) - 8)
    ensures Spec.NextOf(h.bs, r) <= h.epi
    ensures r + n + 4 <= Spec.NextOf(h.bs, r)
  {
    hide State, WordAddress;
    LiveFacts(M, h, r);
  }

  lemma RatioBelowOne(a: int, b: int)
    requires 0 <= a < b
    ensures 0.0 <= a as real / b as real < 1.0
  {
  }

  lemma FreshBlock(h: Heap, h': Heap, size: nat, r: nat)
    requires Allocated(h, h', size, r)
    ensures Spec.LiveBlock(h', r) && size + 4 <= h'.bs[r].size
  {
    AllocSizeAligned(size);
  }

  /** One step of the walk through a trace. */
  lemma TraceStep(h: Heap, blocks: seq<nat>, ids: seq<nat>, ops: seq<Op>)
    requires WellFormed(ids, |blocks|, ops) && ops != []
    ensures Fitting(ids, |blocks|, ops[0]) && WellFormed(IdsAfter(ids, ops[0]), |blocks|, ops[1..])
    ensures Served(h, blocks, ops) ==> Granted(h, blocks, ops[0])
    ensures Granted(h, blocks, ops[0]) ==>
      && |After(h, blocks, ops[0]).1| == |blocks|
      && (Served(h, blocks, ops) <==> Served(After(h, blocks, ops[0]).0, After(h, blocks, ops[0]).1, ops[1..]))
      && HeapAfter(h, blocks, ops) == HeapAfter(After(h, blocks, ops[0]).0, After(h, blocks, ops[0]).1, ops[1..])
  {
    hide Sound, Malloc, Realloc, Free, Fitting;
  }

  /** What a request of a trace finds. */
  datatype Moment = Moment(words: seq<Word>, heap: Heap, blocks: seq<nat>, sizes: seq<nat>)

  /** The log leads to the given heap, blocks and sizes. */
  ghost predicate Leads(ops: seq<Op>, log: seq<Moment>, h0: Heap, blocks0: seq<nat>, sizes0: seq<nat>,
                        h: Heap, blocks: seq<nat>, sizes: seq<nat>)
    requires |log| <= |ops|
  {
    if log == [] then (h, blocks, sizes) == (h0, blocks0, sizes0)
    else
      var m, op := log[|log| - 1], ops[|log| - 1];
      && Granted(m.heap, m.blocks, op) && (h, blocks) == After(m.heap, m.blocks, op)
      && op.index < |m.sizes| && sizes == SizesAfter(m.sizes, op)
  }

  /** Entry k is a state of memory that represents what the entries before lead to, and in
      which the payload that a reallocation is about to move is as it was filled. */
  ghost predicate RecordedAt(ops: seq<Op>, log: seq<Moment>, h0: Heap, blocks0: seq<nat>, sizes0: seq<nat>, k: nat)
    requires k < |log| <= |ops|
  {
    var m := log[k];
    && Leads(ops, log[..k], h0, blocks0, sizes0, m.heap, m.blocks, m.sizes) && State(m.words, m.heap, {}, {})
    && ops[k].index < |m.blocks| == |m.sizes|
    && (!ops[k].AllocOp? ==>
        && Slot(m.heap, m.blocks, m.sizes, ops[k].index)
        && Filled(m.words, m.blocks[ops[k].index], m.sizes[ops[k].index], ops[k].index % 0x100))
  }

  ghost predicate Recorded(ops: seq<Op>, log: seq<Moment>, h0: Heap, blocks0: seq<nat>, sizes0: seq<nat>)
    requires |log| <= |ops|
  {
    forall k {:trigger RecordedAt(ops, log, h0, blocks0, sizes0, k)} :: 0 <= k < |log| ==>
      RecordedAt(ops, log, h0, blocks0, sizes0, k)
  }

  /** What case REALLOC compares is what it should be. */
  predicate Preserves(M: seq<Word>, h: Heap, p: nat, size: nat, oldsize: nat, b: nat)
    requires p in h.bs && b < 0x100
  {
    b < 0x80 && Agrees(M, h, p, size, if size < oldsize then size else oldsize, b)
  }

  /** If op is a reallocation, it keeps the bytes that are compared. */
  predicate Passes(op: Op, m: Moment) {
    op.ReallocOp? ==>
      && op.index < |m.blocks| == |m.sizes| && m.blocks[op.index] in m.heap.bs
      && Preserves(m.words, m.heap, m.blocks[op.index], op.size, m.sizes[op.index], op.index % 0x100)
  }

  ghost predicate AllPassed(ops: seq<Op>, log: seq<Moment>)
    requires |log| <= |ops|
  {
    forall k {:trigger Passes(ops[k], log[k])} :: 0 <= k < |log| ==> Passes(ops[k], log[k])
  }

  /** Every reallocation concerns an id whose fill byte is a positive char. */
  ghost predicate AllPositive(ops: seq<Op>) {
    forall k {:trigger ops[k]} :: 0 <= k < |ops| && ops[k].ReallocOp? ==> ops[k].index % 0x100 < 0x80
  }

  predicate NoReallocs(ops: seq<Op>) {
    forall k :: 0 <= k < |ops| ==> !ops[k].ReallocOp?
  }

  /** If op is a reallocation, nothing left over in a free block decides its comparison. */
  predicate SettledOp(h: Heap, blocks: seq<nat>, sizes: seq<nat>, op: Op) {
    op.ReallocOp? ==>
      && op.index < |blocks| && op.index < |sizes| && blocks[op.index] in h.bs
      && Settled(h, blocks[op.index], op.size, if op.size < sizes[op.index] then op.size else sizes[op.index])
  }

  /** That holds of every request of the trace that is reached. */
  ghost predicate AllSettled(h: Heap, blocks: seq<nat>, sizes: seq<nat>, ops: seq<Op>)
    decreases |ops|
  {
    || ops == []
    || ( && SettledOp(h, blocks, sizes, ops[0])
         && (Granted(h, blocks, ops[0]) && ops[0].index < |sizes| ==>
           AllSettled(After(h, blocks, ops[0]).0, After(h, blocks, ops[0]).1, SizesAfter(sizes, ops[0]), ops[1..])))
  }

  /** What is asked of the rest of the trace holds of the rest behind every entry of the log. */
  lemma {:induction false} SettledAlong(ops: seq<Op>, log: seq<Moment>, h0: Heap, blocks0: seq<nat>, sizes0: seq<nat>,
        k: nat)
    requires k < |log| <= |ops| && Recorded(ops, log, h0, blocks0, sizes0) && AllSettled(h0, blocks0, sizes0, ops)
    ensures AllSettled(log[k].heap, log[k].blocks, log[k].sizes, ops[k..])
  {
    hide Granted, After, SettledOp, State, Slot, Filled;
    assert RecordedAt(ops, log, h0, blocks0, sizes0, k);
    if k == 0 {
      assert ops[0..] == ops;
    } else {
      SettledAlong(ops, log, h0, blocks0, sizes0, k - 1);
      assert log[..k][k - 1] == log[k - 1];
      assert ops[k - 1..][1..] == ops[k..] && ops[k - 1..][0] == ops[k - 1];
    }
  }

  /** A settled reallocation of an id with a positive fill byte passes. */
  lemma SettledPasses(op: Op, m: Moment)
    requires op.ReallocOp? ==> op.index % 0x100 < 0x80 && State(m.words, m.heap, {}, {})
    requires SettledOp(m.heap, m.blocks, m.sizes, op) && |m.blocks| == |m.sizes|
    requires op.ReallocOp? ==>
      && Slot(m.heap, m.blocks, m.sizes, op.index)
      && Filled(m.words, m.blocks[op.index], m.sizes[op.index], op.index % 0x100)
    ensures Passes(op, m)
  {
    hide State, Filled, Settled, Agrees;
    if op.ReallocOp? {
      var n := m.sizes[op.index];
      SettledAgrees(m.words, m.heap, m.blocks[op.index], op.size, n, if op.size < n then op.size else n,
                    op.index % 0x100);
    }
  }

  lemma LogPasses(ops: seq<Op>, log: seq<Moment>, h0: Heap, blocks0: seq<nat>, sizes0: seq<nat>)
    requires |log| <= |ops| && Recorded(ops, log, h0, blocks0, sizes0) && AllSettled(h0, blocks0, sizes0, ops)
    requires AllPositive(ops)
    ensures AllPassed(ops, log)
  {
    hide Granted, After, SettledOp, State, Slot, Filled, Passes, Leads;
    forall k | 0 <= k < |log| ensures Passes(ops[k], log[k]) {
      SettledAlong(ops, log, h0, blocks0, sizes0, k);
      assert RecordedAt(ops, log, h0, blocks0, sizes0, k);
      SettledPasses(ops[k], log[k]);
    }
  }

  lemma NothingOwned(M: seq<Word>, h: Heap, ranges: seq<Range>, blocks: seq<nat>, sizes: seq<nat>)
    requires |blocks| == |sizes|
    ensures Owned(h, blocks, sizes, []) && Intact(M, blocks, sizes, [])
    ensures ranges == [] ==> Tracked(ranges, blocks, sizes, [])
  {
  }

  /** Then the log has no say in the answer. */
  lemma Decides(ops: seq<Op>, log: seq<Moment>, blocks: seq<nat>, sizes: seq<nat>, ok: bool)
    requires |log| <= |ops| && Recorded(ops, log, INITIAL_HEAP, blocks, sizes)
    requires (ok <==> Served(INITIAL_HEAP, blocks, ops) && AllPassed(ops, log)) && (ok ==> |log| == |ops|)
    requires |blocks| == |sizes| && WellFormed([], |blocks|, ops)
    ensures ok ==> AllPositive(ops)
    ensures AllSettled(INITIAL_HEAP, blocks, sizes, ops) ==>
      (ok <==> Served(INITIAL_HEAP, blocks, ops) && AllPositive(ops))
    ensures INITIAL_HEAP.epi + Demand(ops) <= MAX_HEAP ==>
      (NoReallocs(ops) || (AllSettled(INITIAL_HEAP, blocks, sizes, ops) && AllPositive(ops)) ==> ok)
  {
    hide Served, Granted, After, WellFormed, State, Slot, Filled, Leads;
    if AllSettled(INITIAL_HEAP, blocks, sizes, ops) && AllPositive(ops) {
      LogPasses(ops, log, INITIAL_HEAP, blocks, sizes);
    }
    if ok {
      forall k | 0 <= k < |ops| && ops[k].ReallocOp? ensures ops[k].index % 0x100 < 0x80 {
        assert Passes(ops[k], log[k]);
      }
    }
    if INITIAL_HEAP.epi + Demand(ops) <= MAX_HEAP {
      InitialIsSound();
      NothingOwned([], INITIAL_HEAP, [], blocks, sizes);
      AmpleArenaServes(INITIAL_HEAP, blocks, sizes, [], ops);
      assert NoReallocs(ops) ==> AllPassed(ops, log);
    }
  }

  /** The requests so far were granted and passed, and they led from start to now. */
  ghost predicate Following(ops: seq<Op>, log: seq<Moment>, start: Moment, now: Moment, ids: seq<nat>) {
    && |log| <= |ops| && WellFormed(ids, |now.blocks|, ops[|log|..])
    && (Served(start.heap, start.blocks, ops) <==> Served(now.heap, now.blocks, ops[|log|..]))
    && AllPassed(ops, log) && Recorded(ops, log, start.heap, start.blocks, start.sizes)
    && Leads(ops, log, start.heap, start.blocks, start.sizes, now.heap, now.blocks, now.sizes)
  }

  lemma FoundIntact(now: Moment, ids: seq<nat>, op: Op)
    requires Owned(now.heap, now.blocks, now.sizes, ids) && Intact(now.words, now.blocks, now.sizes, ids)
    requires Fitting(ids, |now.blocks|, op)
    ensures op.index < |now.blocks| == |now.sizes|
    ensures !op.AllocOp? ==>
      && Slot(now.heap, now.blocks, now.sizes, op.index)
      && Filled(now.words, now.blocks[op.index], now.sizes[op.index], op.index % 0x100)
  {
    if !op.AllocOp? {
      var j :| 0 <= j < |ids| && ids[j] == op.index;
      assert Slot(now.heap, now.blocks, now.sizes, ids[j]) && IntactAt(now.words, now.blocks, now.sizes, ids[j]);
    }
  }

  lemma RecordNow(ops: seq<Op>, log: seq<Moment>, h0: Heap, blocks0: seq<nat>, sizes0: seq<nat>, now: Moment,
        ids: seq<nat>)
    requires |log| < |ops| && Recorded(ops, log, h0, blocks0, sizes0)
    requires Leads(ops, log, h0, blocks0, sizes0, now.heap, now.blocks, now.sizes) && State(now.words, now.heap, {}, {})
    requires Owned(now.heap, now.blocks, now.sizes, ids) && Intact(now.words, now.blocks, now.sizes, ids)
    requires Fitting(ids, |now.blocks|, ops[|log|])
    ensures Recorded(ops, log + [now], h0, blocks0, sizes0)
    ensures AllPassed(ops, log) ==> (AllPassed(ops, log + [now]) <==> Passes(ops[|log|], now))
    ensures forall h, blocks, sizes {:trigger Leads(ops, log + [now], h0, blocks0, sizes0, h, blocks, sizes)} ::
      Leads(ops, log + [now], h0, blocks0, sizes0, h, blocks, sizes) <==>
        && Granted(now.heap, now.blocks, ops[|log|]) && (h, blocks) == After(now.heap, now.blocks, ops[|log|])
        && ops[|log|].index < |now.sizes| && sizes == SizesAfter(now.sizes, ops[|log|])
  {
    hide Granted, After, State, Slot, Filled, Different, Passes;
    var log', n := log + [now], |log|;
    assert log'[n] == now;
    forall k | 0 <= k < |log'| ensures RecordedAt(ops, log', h0, blocks0, sizes0, k) {
      assert log'[..k] == log[..k];
      if k < n {
        assert RecordedAt(ops, log, h0, blocks0, sizes0, k);
      } else {
        assert log[..k] == log;
        FoundIntact(now, ids, ops[n]);
      }
    }
    forall k | 0 <= k < |log'| && AllPassed(ops, log) && Passes(ops[n], now) ensures Passes(ops[k], log'[k]) {
      assert k < n ==> Passes(ops[k], log[k]);
    }
    assert AllPassed(ops, log') ==> Passes(ops[n], log'[n]);
  }

  lemma FollowStep(ops: seq<Op>, log: seq<Moment>, start: Moment, now: Moment, ids: seq<nat>)
    requires |log| < |ops| && Following(ops, log, start, now, ids) && State(now.words, now.heap, {}, {})
    requires Owned(now.heap, now.blocks, now.sizes, ids) && Intact(now.words, now.blocks, now.sizes, ids)
    ensures Fitting(ids, |now.blocks|, ops[|log|]) && Recorded(ops, log + [now], start.heap, start.blocks, start.sizes)
    ensures AllPassed(ops, log + [now]) <==> Passes(ops[|log|], now)
    ensures Served(start.heap, start.blocks, ops) ==> Granted(now.heap, now.blocks, ops[|log|])
    ensures forall next: Moment {:trigger Following(ops, log + [now], start, next, IdsAfter(ids, ops[|log|]))} ::
      && Granted(now.heap, now.blocks, ops[|log|]) && Passes(ops[|log|], now) && ops[|log|].index < |now.sizes|
      && (next.heap, next.blocks) == After(now.heap, now.blocks, ops[|log|])
      && next.sizes == SizesAfter(now.sizes, ops[|log|])
      ==> Following(ops, log + [now], start, next, IdsAfter(ids, ops[|log|]))
  {
    hide Served, WellFormed, Fitting, Granted, After, Passes, Recorded, AllPassed, State, Owned, Intact, Leads;
    hide SizesAfter, IdsAfter;
    var n := |log|;
    assert ops[n..][1..] == ops[n + 1..] && ops[n..][0] == ops[n];
    TraceStep(now.heap, now.blocks, ids, ops[n..]);
    RecordNow(ops, log, start.heap, start.blocks, start.sizes, now, ids);
  }

  lemma Followed(ops: seq<Op>, log: seq<Moment>, start: Moment, now: Moment, ids: seq<nat>)
    requires |log| == |ops| && Following(ops, log, start, now, ids)
    ensures Served(start.heap, start.blocks, ops) && AllPassed(ops, log)
    ensures Recorded(ops, log, start.heap, start.blocks, start.sizes)
    ensures Leads(ops, log, start.heap, start.blocks, start.sizes, now.heap, now.blocks, now.sizes)
  {
    assert ops[|log|..] == [];
    ServedNone(now.heap, now.blocks);
  }

  lemma NothingLogged(ops: seq<Op>, h: Heap, blocks: seq<nat>, sizes: seq<nat>)
    requires WellFormed([], |blocks|, ops)
    ensures forall M: seq<Word> {:trigger Moment(M, h, blocks, sizes)} ::
      var m := Moment(M, h, blocks, sizes); Following(ops, [], m, m, [])
    ensures Recorded(ops, [], h, blocks, sizes)
  {
    assert ops[0..] == ops;
  }

  /** A byte read as a signed char. */
  function Char(byte: nat): int {
    if byte < 0x80 then byte else byte - 0x100
  }

  lemma ByteRange(w: Word, j: nat)
    ensures ByteOf(w, j) < 0x100
  {
    Digits(w);
  }

  lemma IntactOf(M: seq<Word>, blocks: seq<nat>, sizes: seq<nat>, ids: seq<nat>, k: nat)
    requires Intact(M, blocks, sizes, ids) && k < |ids|
    ensures ids[k] < |blocks| && ids[k] < |sizes| && Filled(M, blocks[ids[k]], sizes[ids[k]], ids[k] % 0x100)
  {
    assert IntactAt(M, blocks, sizes, ids[k]);
  }

  lemma FreeIntact(M: seq<Word>, M': seq<Word>, h: Heap, k: nat, blocks: seq<nat>, sizes: seq<nat>, ids: seq<nat>)
    requires Owned(h, blocks, sizes, ids) && Intact(M, blocks, sizes, ids) && k < |ids| && ids[k] < |blocks|
    requires PayloadsKept(M, M', h.bs, Live(h.bs) - {blocks[ids[k]]})
    ensures Intact(M', blocks, sizes, Without(ids, ids[k]))
  {
    hide PayloadsKept, Filled, Without;
    var js := Without(ids, ids[k]);
    forall j | 0 <= j < |js| ensures IntactAt(M', blocks, sizes, js[j]) {
      var j0 := Shifted(ids, k, j);
      assert Slot(h, blocks, sizes, ids[j0]) && Different(blocks, ids, j0, k) && IntactAt(M, blocks, sizes, ids[j0]);
      IntactAfter(M, M', h, Live(h.bs) - {blocks[ids[k]]}, blocks, sizes, ids[j0]);
    }
  }

  lemma ReallocIntact(M: seq<Word>, M': seq<Word>, h: Heap, k: nat, r: nat, size: nat, blocks: seq<nat>,
        sizes: seq<nat>, ids: seq<nat>)
    requires Owned(h, blocks, sizes, ids) && Intact(M, blocks, sizes, ids) && k < |ids| && ids[k] < |blocks|
    requires blocks[ids[k]] in h.bs && GrownOrMoved(M, M', h, blocks[ids[k]], r, size)
    ensures Intact(M', blocks, sizes, Without(ids, ids[k]))
  {
    hide PayloadsKept, SameData, Owned, Intact;
    FreeIntact(M, M', h, k, blocks, sizes, ids);
  }

  /** Filling the block at its new place leaves the other payloads as they were. */
  lemma RefillIntact(M1: seq<Word>, M2: seq<Word>, h: Heap, i: nat, size: nat, r: nat, blocks: seq<nat>,
        sizes: seq<nat>, ids: seq<nat>)
    requires Owned(h, blocks, sizes, ids) && Intact(M1, blocks, sizes, ids) && i !in ids && i < |blocks| == |sizes|
    requires OthersElsewhere(r, blocks, ids) && PayloadsKept(M1, M2, h.bs, Live(h.bs) - {r})
    requires Filled(M2, r, size, i % 0x100)
    ensures Intact(M2, blocks[i := r], sizes[i := size], [i] + ids)
  {
    hide PayloadsKept, Filled;
    var bs', ss', js := blocks[i := r], sizes[i := size], [i] + ids;
    forall k | 0 <= k < |js| ensures IntactAt(M2, bs', ss', js[k]) {
      if k > 0 {
        var j := ids[k - 1];
        assert j in ids && js[k] == j;
        assert Slot(h, blocks, sizes, ids[k - 1]) && IntactAt(M1, blocks, sizes, ids[k - 1]);
        IntactAfter(M1, M2, h, Live(h.bs) - {r}, blocks, sizes, j);
      }
    }
  }

  /** Filling a new block leaves the older payloads as they were. */
  lemma AllocIntact(M: seq<Word>, M1: seq<Word>, M2: seq<Word>, h: Heap, h1: Heap, i: nat, size: nat, r: nat,
        blocks: seq<nat>, sizes: seq<nat>, ids: seq<nat>)
    requires Owned(h, blocks, sizes, ids) && Intact(M, blocks, sizes, ids) && i !in ids && i < |blocks| == |sizes|
    requires Allocated(h, h1, size, r)
    requires PayloadsKept(M, M1, h.bs, Live(h.bs)) && PayloadsKept(M1, M2, h1.bs, Live(h1.bs) - {r})
    requires Filled(M2, r, size, i % 0x100)
    ensures Intact(M2, blocks[i := r], sizes[i := size], [i] + ids)
  {
    hide PayloadsKept, Filled;
    var bs', ss', js := blocks[i := r], sizes[i := size], [i] + ids;
    forall k | 0 <= k < |js| ensures IntactAt(M2, bs', ss', js[k]) {
      if k > 0 {
        var j := ids[k - 1];
        assert j in ids && js[k] == j;
        assert Slot(h, blocks, sizes, ids[k - 1]) && IntactAt(M, blocks, sizes, ids[k - 1]);
        IntactAfter(M, M1, h, Live(h.bs), blocks, sizes, j);
        IntactAfter(M1, M2, h1, Live(h1.bs) - {r}, blocks, sizes, j);
      }
    }
  }

  /** The remembered sizes are those of the trace. */
  ghost predicate Sized(ops: seq<Op>, sizes: seq<nat>, ids: seq<nat>) {
    forall k {:trigger ids[k]} :: 0 <= k < |ids| ==> ids[k] < |sizes| && sizes[ids[k]] == LastSize(ops, ids[k])
  }

  lemma NoTotal(sizes: seq<nat>)
    ensures LiveTotal(sizes, []) == 0 && Total([]) == 0 && Peak([]) == 0 && Sized([], sizes, [])
  {
  }

  lemma PeakStep(ops: seq<Op>, p: seq<Op>)
    requires p != [] && p[..|p| - 1] == ops
    ensures Peak(p) == if Total(p) > Peak(ops) then Total(p) else Peak(ops)
  {
    hide Total;
  }

  lemma OlderId(ids: seq<nat>, op: Op, k: nat)
    requires k < |IdsAfter(ids, op)| && (IdsAfter(ids, op)[k] != op.index || op.FreeOp?)
    ensures IdsAfter(ids, op)[k] in ids
  {
    WithoutShrinks(ids, op.index);
    var js := IdsAfter(ids, op);
    if op.FreeOp? {
      assert js[k] in Without(ids, op.index);
    } else if op.ReallocOp? {
      assert js[k] == Without(ids, op.index)[k - 1] && js[k] in Without(ids, op.index);
    }
  }

  lemma SizedOp(ops: seq<Op>, p: seq<Op>, op: Op, sizes: seq<nat>, ids: seq<nat>)
    requires Sized(ops, sizes, ids) && Fitting(ids, |sizes|, op)
    requires p != [] && p[..|p| - 1] == ops && p[|p| - 1] == op
    ensures op.index < |sizes| && Sized(p, SizesAfter(sizes, op), IdsAfter(ids, op))
    ensures Total(p) == Total(ops) + Change(sizes, op)
  {
    if !op.AllocOp? {
      var k :| 0 <= k < |ids| && ids[k] == op.index;
      assert sizes[ids[k]] == LastSize(ops, ids[k]);
      WithoutShrinks(ids, op.index);
    }
    var ss', js := SizesAfter(sizes, op), IdsAfter(ids, op);
    forall k | 0 <= k < |js| ensures js[k] < |ss'| && ss'[js[k]] == LastSize(p, js[k]) {
      if js[k] != op.index || op.FreeOp? {
        OlderId(ids, op, k);
        var j :| 0 <= j < |ids| && ids[j] == js[k];
        assert sizes[ids[j]] == LastSize(ops, ids[j]);
      }
    }
  }

  lemma TotalStep(ops: seq<Op>, i: nat, sizes: seq<nat>, ids: seq<nat>, n: nat, h: Heap, blocks: seq<nat>)
    requires i < |ops| && Sized(ops[..i], sizes, ids) && Fitting(ids, n, ops[i]) && n == |sizes|
    requires Owned(h, blocks, sizes, ids)
    ensures ops[i].index < |sizes|
    ensures var p, op := ops[..i + 1], ops[i];
      && Total(p) == Total(ops[..i]) + Change(sizes, op) && Sized(p, SizesAfter(sizes, op), IdsAfter(ids, op))
      && LiveTotal(SizesAfter(sizes, op), IdsAfter(ids, op)) == LiveTotal(sizes, ids) + Change(sizes, op)
      && Peak(p) == (if Total(p) > Peak(ops[..i]) then Total(p) else Peak(ops[..i]))
      && (op.FreeOp? ==> Change(sizes, op) <= 0)
  {
    hide LiveTotal, Peak, Slot, Different;
    var p, op := ops[..i + 1], ops[i];
    assert p[..|p| - 1] == ops[..i] && p[|p| - 1] == op;
    SizedOp(ops[..i], p, op, sizes, ids);
    OwnedDistinct(h, blocks, sizes, ids);
    OpTotal(sizes, ids, n, op);
    PeakStep(ops[..i], p);
  }

  class EvalDriver {
    const mm: Mm
    const list: RangeList
    var blocks: seq<nat>
    var blockSizes: seq<nat>
    ghost var ids: seq<nat>

    ghost predicate Serving()
      reads this, mm, mm.arena, mm.arena.mem
    {
      mm.Valid() && Owned(mm.h, blocks, blockSizes, ids)
    }

    /** Every live id owns a block, is on the range list, and its payload is as it was filled. */
    ghost predicate Checked()
      reads this, mm, mm.arena, mm.arena.mem, list
    {
      Serving() && Tracked(list.ranges, blocks, blockSizes, ids) && Intact(mm.Words(), blocks, blockSizes, ids)
    }

    constructor (mm: Mm, list: RangeList, numIds: nat)
      ensures this.mm == mm && this.list == list && |blocks| == |blockSizes| == numIds
    {
      this.mm, this.list := mm, list;
      blocks := seq(numIds, i => 0);
      blockSizes := seq(numIds, i => 0);
      ids := [];
    }

    /** memset: the n bytes from p on become b; no word behind last is written. */
    method Memset(p: nat, b: nat, n: nat, ghost last: nat)
      requires mm.arena.Valid() && b < 0x100 && last + 4 <= mm.arena.brk && p + n <= last + 4 && WordAddress(p)
      requires WordAddress(last)
      modifies mm.arena.mem
      ensures Within(old(mm.Words()), mm.Words(), p, last)
      ensures Filled(mm.Words(), p, n, b)
    {
      ghost var M := mm.Words();
      var i := 0;
      while 4 * i < n
        invariant Within(M, mm.Words(), p, last)
        invariant forall j: nat {:trigger FilledAt(mm.Words(), p, n, b, j)} :: j < i && 4 * j < n ==>
          FilledAt(mm.Words(), p, n, b, j)
      {
        ghost var M1 := mm.Words();
        FillReplaces(mm.Get(p + 4 * i), b, Part(n, i));
        mm.Put(p + 4 * i, FillWord(mm.Get(p + 4 * i), b, Part(n, i)));
        forall j: nat | j < i + 1 && 4 * j < n ensures FilledAt(mm.Words(), p, n, b, j) {
          assert j < i ==> FilledAt(M1, p, n, b, j);
        }
        i := i + 1;
      }
    }

    /** eval_mm_valid, the tail of case ALLOC: the payload is filled and remembered. */
    method FillAndRemember(index: nat, p: nat, size: nat)
      requires mm.Valid() && index < |blocks| == |blockSizes|
      requires Spec.LiveBlock(mm.h, p) && size + 4 <= mm.h.bs[p].size
      modifies `blocks, `blockSizes, mm.arena.mem
      ensures mm.Valid() && Filled(mm.Words(), p, size, index % 0x100)
      ensures blocks == old(blocks)[index := p] && blockSizes == old(blockSizes)[index := size]
      ensures PayloadsKept(old(mm.Words()), mm.Words(), mm.h.bs, Live(mm.h.bs) - {p})
    {
      hide State, Filled, WordAddress, PayloadsKept;
      ghost var M := mm.Words();
      PayloadWords(M, mm.h, p, size);
      Memset(p, index % 0x100, size, Spec.NextOf(mm.h.bs, p) - 8);
      PayloadWrites(M, mm.Words(), mm.h, p);
      blocks := blocks[index := p];
      blockSizes := blockSizes[index := size];
    }

    /** eval_mm_valid, case ALLOC: fails only if mm_malloc does. */
    method CheckAlloc(index: nat, size: nat) returns (ok: bool)
      requires Checked() && index < |blocks| && index !in ids && size > 0
      modifies this, mm`h, mm`heapTail, mm.arena, mm.arena.mem, list
      ensures Sound(old(mm.h), {}) && (ok <==> Malloc(old(mm.h), size).1 != NULL)
      ensures ok ==> Checked() && mm.h == Malloc(old(mm.h), size).0 && ids == [index] + old(ids)
      ensures ok ==>
        blocks == old(blocks)[index := Malloc(old(mm.h), size).1] && blockSizes == old(blockSizes)[index := size]
    {
      hide State, Sound, Malloc, Owned, Tracked, Intact, PayloadsKept, Filled, Allocated;
      ghost var M, h0 := mm.Words(), mm.h;
      var p := mm.MmMalloc(size);
      MallocSound(h0, size);
      if p == NULL {
        return false;
      }
      ghost var M1 := mm.Words();
      FreshPasses(h0, mm.h, size, p, list.ranges, blocks, blockSizes, ids);
      FreshBlock(h0, mm.h, size, p);
      OwnedSizes(h0, blocks, blockSizes, ids);
      AllocTracked(p, size, index, list.ranges, blocks, blockSizes, ids);
      var added := list.AddRange(p, size, mm.arena.HeapLo(), mm.arena.HeapHi());
      if !added {
        return false;
      }
      AllocOwned(h0, mm.h, size, p, index, blocks, blockSizes, ids);
      FillAndRemember(index, p, size);
      AllocIntact(M, M1, mm.Words(), h0, mm.h, index, size, p, old(blocks), old(blockSizes), ids);
      ids := [index] + ids;
      return true;
    }

    /** The comparison loop of case REALLOC.  A char is signed on this target, the fill byte
        that it is compared with is not. */
    method SameBytes(p: nat, n: nat, b: nat) returns (same: bool)
      requires mm.arena.Valid() && WordAddress(p) && p + n + 4 <= mm.arena.brk && n > 0 && b < 0x100
      ensures same <==> b < 0x80 && Filled(mm.Words(), p, n, b)
    {
      FilledByBytes(mm.Words(), p, n, b);
      var j := 0;
      while j < n
        invariant j <= n && (j > 0 ==> b < 0x80)
        invariant forall i: nat {:trigger ByteAt(mm.Words(), p, i)} :: i < j ==> ByteAt(mm.Words(), p, i) == b
      {
        ByteRange(mm.Get(p + j / 4 * 4), j % 4);
        var byte := ByteOf(mm.Get(p + j / 4 * 4), j % 4);
        if Char(byte) != b {
          assert b >= 0x80 || ByteAt(mm.Words(), p, j) != b;
          return false;
        }
        j := j + 1;
      }
      return true;
    }

    /** eval_mm_valid, case REALLOC: fails if mm_realloc does, and exactly if the bytes that
        it should have kept are not all there, or the fill byte is no positive char.  moved is
        the memory that mm_realloc leaves. */
    method CheckRealloc(index: nat, size: nat) returns (ok: bool, ghost moved: seq<Word>)
      requires Checked() && index in ids && size > 0
      modifies this, mm`h, mm`heapTail, mm.arena, mm.arena.mem, list
      ensures Sound(old(mm.h), {}) && index < |old(blocks)| == |old(blockSizes)|
      ensures Spec.LiveBlock(old(mm.h), old(blocks)[index])
      ensures ok <==> Realloc(old(mm.h), old(blocks)[index], size).1 != NULL
                      && Preserves(old(mm.Words()), old(mm.h), old(blocks)[index], size,
                                   old(blockSizes)[index], index % 0x100)
      ensures var r := Realloc(old(mm.h), old(blocks)[index], size).1;
        r != NULL ==>
          && GrownOrMoved(old(mm.Words()), moved, old(mm.h), old(blocks)[index], r, size)
          && (ok <==> index % 0x100 < 0x80
                      && forall j: nat {:trigger ByteAt(moved, r, j)} :: j < size && j < old(blockSizes)[index] ==>
                           ByteAt(moved, r, j) == index % 0x100)
      ensures ok ==>
        Checked() && mm.h == Realloc(old(mm.h), old(blocks)[index], size).0 && ids == [index] + Without(old(ids), index)
      ensures ok ==> blocks == old(blocks)[index := Realloc(old(mm.h), old(blocks)[index], size).1]
      ensures ok ==> blockSizes == old(blockSizes)[index := size]
    {
      hide State, Sound, Realloc, Owned, Tracked, Intact, PayloadsKept, Filled, Without, Agrees, GrownOrMoved;
      hide OthersElsewhere, ByteAt, Regrants, Settled, MovesBack;
      ghost var M, h0 := mm.Words(), mm.h;
      ghost var k :| 0 <= k < |ids| && ids[k] == index;
      StateIsSound(M, h0, {}, {});
      SlotIsLive(h0, blocks, blockSizes, ids, k);
      var oldp, oldsize := blocks[index], blockSizes[index];
      var newp := mm.MmReallocGuarded(oldp, size);
      ghost var M1 := mm.Words();
      moved := M1;
      if newp == NULL {
        return false, moved;
      }
      ReallocOwned(h0, k, size, blocks, blockSizes, ids);
      ReallocIntact(M, M1, h0, k, newp, size, blocks, blockSizes, ids);
      OwnedDistinct(h0, blocks, blockSizes, ids);
      var added := MovedRecord(index, oldp, newp, size, h0, k);
      if !added {
        return false, moved;
      }
      var kept := if size < oldsize then size else oldsize;
      IntactOf(M, blocks, blockSizes, ids, k);
      BytesSurvive(M, M1, h0, oldp, newp, size, oldsize, kept, index % 0x100);
      PayloadWords(M1, mm.h, newp, size);
      FilledByBytes(M1, newp, kept, index % 0x100);
      var same := SameBytes(newp, kept, index % 0x100);
      if !same {
        return false, moved;
      }
      WithoutMembers(ids, index, index);
      FillAndRemember(index, newp, size);
      RefillIntact(M1, mm.Words(), mm.h, index, size, newp, old(blocks), old(blockSizes), Without(ids, index));
      ids := [index] + Without(ids, index);
      return true, moved;
    }

    /** eval_mm_valid, case REALLOC: the record of the old place goes and that of the new one
        passes every check. */
    method MovedRecord(index: nat, oldp: nat, newp: nat, size: nat, ghost h0: Heap, ghost k: nat) returns (added: bool)
      requires mm.Valid() && Owned(h0, blocks, blockSizes, ids) && Tracked(list.ranges, blocks, blockSizes, ids)
      requires k < |ids| && ids[k] == index < |blocks| == |blockSizes| && blocks[index] == oldp && size > 0
      requires Spec.LiveBlock(mm.h, newp) && size + 4 <= mm.h.bs[newp].size
      requires Owned(mm.h, blocks, blockSizes, Without(ids, index))
      requires OthersElsewhere(newp, blocks, Without(ids, index))
      modifies list
      ensures added
      ensures Tracked(list.ranges, blocks[index := newp], blockSizes[index := size], [index] + Without(ids, index))
    {
      hide Sound, State, Owned, Tracked, Without, OthersElsewhere;
      ghost var js := Without(ids, index);
      StateIsSound(mm.Words(), mm.h, {}, {});
      OwnedDistinct(h0, blocks, blockSizes, ids);
      FreeTracked(h0, k, list.ranges, blocks, blockSizes, ids);
      list.RemoveRange(oldp);
      ghost var ranges := list.ranges;
      ApartPasses(mm.h, size, newp, ranges, blocks, blockSizes, js);
      added := list.AddRange(newp, size, mm.arena.HeapLo(), mm.arena.HeapHi());
      WithoutMembers(ids, index, index);
      AllocTracked(newp, size, index, ranges, blocks, blockSizes, js);
    }

    /** eval_mm_valid, case FREE. */
    method CheckFree(index: nat)
      requires Checked() && index in ids
      modifies this, mm`h, mm.arena.mem, list
      ensures Checked() && ids == Without(old(ids), index) && blocks == old(blocks) && blockSizes == old(blockSizes)
      ensures Sound(old(mm.h), {}) && index < |blocks| && Spec.LiveBlock(old(mm.h), blocks[index])
      ensures mm.h == Free(old(mm.h), blocks[index])
    {
      hide State, Sound, Free, Owned, Tracked, Intact, PayloadsKept, Filled;
      ghost var M, h0 := mm.Words(), mm.h;
      ghost var k :| 0 <= k < |ids| && ids[k] == index;
      StateIsSound(M, h0, {}, {});
      FreeOwned(h0, k, blocks, blockSizes, ids);
      FreeTracked(h0, k, list.ranges, blocks, blockSizes, ids);
      var p := blocks[index];
      list.RemoveRange(p);
      mm.MmFree(p);
      FreeIntact(M, mm.Words(), h0, k, blocks, blockSizes, ids);
      ids := Without(ids, index);
    }

    ghost function Now(): Moment
      reads this, mm, mm.arena, mm.arena.mem
    {
      Moment(mm.Words(), mm.h, blocks, blockSizes)
    }

    /** eval_mm_valid, one request. */
    method CheckOp(op: Op) returns (ok: bool)
      requires Checked() && Fitting(ids, |blocks|, op)
      modifies this, mm`h, mm`heapTail, mm.arena, mm.arena.mem, list
      ensures ok <==> Granted(old(mm.h), old(blocks), op) && Passes(op, old(Now()))
      ensures ok ==> Checked() && ids == IdsAfter(old(ids), op) && op.index < |old(blockSizes)|
      ensures ok ==>
        (mm.h, blocks) == After(old(mm.h), old(blocks), op) && blockSizes == SizesAfter(old(blockSizes), op)
    {
      hide State, Sound, Owned, Tracked, Intact, Malloc, Realloc, Free, AllocSize, Preserves;
      OwnedSizes(mm.h, blocks, blockSizes, ids);
      match op {
        case AllocOp(index, size) =>
          ok := CheckAlloc(index, size);
        case ReallocOp(index, size) =>
          ghost var moved;
          ok, moved := CheckRealloc(index, size);
        case FreeOp(index) =>
          CheckFree(index);
          ok := true;
      }
    }

    /** eval_mm_valid: it answers 1 exactly when no request finds the arena exhausted and no
        reallocation loses bytes that it compares; then every check still holds.  The log
        holds what each request found. */
    method EvalMmValid(ops: seq<Op>) returns (ok: bool, ghost log: seq<Moment>)
      requires mm.arena.Valid() && |blocks| == |blockSizes| && WellFormed([], |blocks|, ops)
      modifies this, mm, mm.arena, mm.arena.mem, list
      ensures |log| <= |ops| && Recorded(ops, log, INITIAL_HEAP, old(blocks), old(blockSizes))
      ensures ok <==> Served(INITIAL_HEAP, old(blocks), ops) && AllPassed(ops, log)
      ensures ok ==> Checked() && |log| == |ops| && AllPositive(ops)
      ensures ok ==> Leads(ops, log, INITIAL_HEAP, old(blocks), old(blockSizes), mm.h, blocks, blockSizes)
      ensures AllSettled(INITIAL_HEAP, old(blocks), old(blockSizes), ops) ==>
        (ok <==> Served(INITIAL_HEAP, old(blocks), ops) && AllPositive(ops))
      ensures INITIAL_HEAP.epi + Demand(ops) <= MAX_HEAP ==>
        (NoReallocs(ops) || (AllSettled(INITIAL_HEAP, old(blocks), old(blockSizes), ops) && AllPositive(ops)) ==> ok)
    {
      hide State, Sound, Served, Owned, Tracked, Intact, Fitting, Granted, After, Passes, Recorded, AllPassed;
      hide Following, AllPositive, AllSettled, NoReallocs;
      ghost var start := Moment(mm.Words(), INITIAL_HEAP, blocks, blockSizes);
      log := [];
      mm.arena.ResetBrk();
      list.ClearRanges();
      ids := [];
      var r := mm.MmInit();
      if r < 0 {
        return false, log;
      }
      NothingOwned(mm.Words(), mm.h, list.ranges, blocks, blockSizes);
      NothingLogged(ops, INITIAL_HEAP, blocks, blockSizes);
      start := Now();
      var i := 0;
      while i < |ops|
        invariant i <= |ops| && |log| == i && Checked() && Following(ops, log, start, Now(), ids)
      {
        ghost var now := Now();
        FollowStep(ops, log, start, now, ids);
        log := log + [now];
        var served := CheckOp(ops[i]);
        if !served {
          Decides(ops, log, start.blocks, start.sizes, false);
          return false, log;
        }
        i := i + 1;
      }
      Followed(ops, log, start, Now(), ids);
      Decides(ops, log, start.blocks, start.sizes, true);
      return true, log;
    }

    /** eval_mm_util, case ALLOC, without the bookkeeping. */
    method UseAlloc(index: nat, size: nat) returns (ok: bool)
      requires Serving() && index < |blocks| && index !in ids && size > 0
      modifies this, mm`h, mm`heapTail, mm.arena, mm.arena.mem
      ensures Sound(old(mm.h), {}) && (ok <==> Malloc(old(mm.h), size).1 != NULL)
      ensures ok ==>
        Serving() && mm.h == Malloc(old(mm.h), size).0 && ids == [index] + old(ids) && old(mm.h).epi <= mm.h.epi
      ensures ok ==>
        blocks == old(blocks)[index := Malloc(old(mm.h), size).1] && blockSizes == old(blockSizes)[index := size]
    {
      hide State, Sound, Malloc, Owned, PayloadsKept;
      ghost var h0 := mm.h;
      var p := mm.MmMalloc(size);
      MallocSound(h0, size);
      if p == NULL {
        return false;
      }
      OwnedSizes(h0, blocks, blockSizes, ids);
      AllocOwned(h0, mm.h, size, p, index, blocks, blockSizes, ids);
      blocks := blocks[index := p];
      blockSizes := blockSizes[index := size];
      ids := [index] + ids;
      return true;
    }

    /** eval_mm_util, case FREE, without the bookkeeping. */
    method UseFree(index: nat)
      requires Serving() && index in ids
      modifies this, mm`h, mm.arena.mem
      ensures Serving() && ids == Without(old(ids), index) && blocks == old(blocks) && blockSizes == old(blockSizes)
      ensures Sound(old(mm.h), {}) && index < |blocks| && Spec.LiveBlock(old(mm.h), blocks[index])
      ensures mm.h == Free(old(mm.h), blocks[index])
      ensures mm.h.epi == old(mm.h).epi
    {
      hide State, Sound, Free, Owned, PayloadsKept;
      ghost var h0 := mm.h;
      ghost var k :| 0 <= k < |ids| && ids[k] == index;
      StateIsSound(mm.Words(), h0, {}, {});
      FreeOwned(h0, k, blocks, blockSizes, ids);
      FreeSound(h0, blocks[index]);
      mm.MmFree(blocks[index]);
      ids := Without(ids, index);
    }

    /** eval_mm_util, case REALLOC, without the bookkeeping. */
    method UseRealloc(index: nat, size: nat) returns (ok: bool)
      requires Serving() && index in ids && size > 0
      modifies this, mm`h, mm`heapTail, mm.arena, mm.arena.mem
      ensures Sound(old(mm.h), {}) && index < |old(blocks)| == |old(blockSizes)|
      ensures Spec.LiveBlock(old(mm.h), old(blocks)[index])
      ensures ok <==> Realloc(old(mm.h), old(blocks)[index], size).1 != NULL
      ensures ok ==>
        Serving() && mm.h == Realloc(old(mm.h), old(blocks)[index], size).0 && ids == [index] + Without(old(ids), index)
      ensures ok ==> blocks == old(blocks)[index := Realloc(old(mm.h), old(blocks)[index], size).1]
      ensures ok ==> blockSizes == old(blockSizes)[index := size]
      ensures ok ==> old(mm.h).epi <= mm.h.epi
    {
      hide State, Sound, Realloc, Owned, GrownOrMoved, Without;
      ghost var h0 := mm.h;
      ghost var k :| 0 <= k < |ids| && ids[k] == index;
      StateIsSound(mm.Words(), h0, {}, {});
      SlotIsLive(h0, blocks, blockSizes, ids, k);
      var newp := mm.MmReallocGuarded(blocks[index], size);
      if newp == NULL {
        return false;
      }
      ReallocOwned(h0, k, size, blocks, blockSizes, ids);
      ReallocGrowth(h0, blocks[index], size);
      blocks := blocks[index := newp];
      blockSizes := blockSizes[index := size];
      ids := [index] + Without(ids, index);
      return true;
    }

    /** eval_mm_util, one request, without the bookkeeping. */
    method UseOp(op: Op) returns (ok: bool)
      requires Serving() && Fitting(ids, |blocks|, op)
      modifies this, mm`h, mm`heapTail, mm.arena, mm.arena.mem
      ensures ok <==> Granted(old(mm.h), old(blocks), op)
      ensures ok ==>
        Serving() && ids == IdsAfter(old(ids), op) && op.index < |old(blockSizes)| && old(mm.h).epi <= mm.h.epi
      ensures ok ==>
        (mm.h, blocks) == After(old(mm.h), old(blocks), op) && blockSizes == SizesAfter(old(blockSizes), op)
    {
      hide State, Sound, Owned, Malloc, Realloc, Free, AllocSize;
      OwnedSizes(mm.h, blocks, blockSizes, ids);
      match op {
        case AllocOp(index, size) =>
          ok := UseAlloc(index, size);
        case ReallocOp(index, size) =>
          ok := UseRealloc(index, size);
        case FreeOp(index) =>
          UseFree(index);
          ok := true;
      }
    }

    /** eval_mm_util: the high-water mark of the trace, divided by where the heap that the trace
        leads to ends, which it never reaches.  What counts as live are the bytes of the payloads. */
    method EvalMmUtil(ops: seq<Op>) returns (ok: bool, util: real)
      requires mm.arena.Valid() && |blocks| == |blockSizes| && WellFormed([], |blocks|, ops)
      modifies this, mm, mm.arena, mm.arena.mem
      ensures ok <==> Served(INITIAL_HEAP, old(blocks), ops)
      ensures ok ==> Serving() && mm.h == HeapAfter(INITIAL_HEAP, old(blocks), ops)
      ensures ok ==> mm.h.epi > 0 && util == Peak(ops) as real / mm.h.epi as real && 0.0 <= util < 1.0
      ensures ok ==> (forall k {:trigger ids[k]} :: 0 <= k < |ids| ==> ids[k] < |blocks|)
      ensures ok ==> Total(ops) == |Cells(blocks, blockSizes, ids)|
    {
      hide State, Sound, Served, Owned, WellFormed, Fitting, Granted, After, SizesAfter, IdsAfter, Peak, Total;
      hide LiveTotal, Sized, HeapAfter, Cells;
      util := 0.0;
      mm.arena.ResetBrk();
      ids := [];
      var r := mm.MmInit();
      if r < 0 {
        return false, 0.0;
      }
      NothingOwned(mm.Words(), mm.h, [], blocks, blockSizes);
      NoTotal(blockSizes);
      var totalSize, maxTotalSize := 0, 0;
      var i := 0;
      assert ops[0..] == ops && ops[..0] == [];
      while i < |ops|
        invariant i <= |ops| && Serving() && |blocks| == |old(blocks)| && |blockSizes| == |blocks|
        invariant WellFormed(ids, |blocks|, ops[i..])
        invariant Served(INITIAL_HEAP, old(blocks), ops) <==> Served(mm.h, blocks, ops[i..])
        invariant HeapAfter(INITIAL_HEAP, old(blocks), ops) == HeapAfter(mm.h, blocks, ops[i..])
        invariant totalSize == LiveTotal(blockSizes, ids) == Total(ops[..i]) && Sized(ops[..i], blockSizes, ids)
        invariant maxTotalSize == Peak(ops[..i]) && totalSize <= maxTotalSize <= mm.h.epi - FIRST
      {
        assert ops[i..][1..] == ops[i + 1..];
        TraceStep(mm.h, blocks, ids, ops[i..]);
        TotalStep(ops, i, blockSizes, ids, |blocks|, mm.h, blocks);
        var change := Change(blockSizes, ops[i]);
        var served := UseOp(ops[i]);
        if !served {
          return false, 0.0;
        }
        OwnedSizes(mm.h, blocks, blockSizes, ids);
        StateIsSound(mm.Words(), mm.h, {}, {});
        PayloadsPacked(mm.h, blocks, blockSizes, ids);
        totalSize := totalSize + change;
        if !ops[i].FreeOp? {
          maxTotalSize := if totalSize > maxTotalSize then totalSize else maxTotalSize;
        }
        i := i + 1;
      }
      assert ops[i..] == [] && ops[..i] == ops;
      ServedNone(mm.h, blocks);
      StateIsSound(mm.Words(), mm.h, {}, {});
      EpilogueBound(mm.h);
      CellsCounted(mm.h, blocks, blockSizes, ids);
      var heapSize := mm.arena.HeapSize();
      RatioBelowOne(maxTotalSize, heapSize);
      return true, maxTotalSize as real / heapSize as real;
    }
  }
}
