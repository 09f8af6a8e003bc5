/** The lock of a stock in task2_new. */
module ReadersWriters {
  // set_stocks_info reads the stocks along a preorder path, update_stock writes one stock,
  // and every P, V, load and store is one step of some thread.

  import opened Counting

  datatype Stock = Stock(mutex: int, mutexRead: int, readCnt: int, cnt: int)

  /** reg is the thread's private copy of read_cnt or cnt; a show appends what it prints. */
  datatype Thread =
    | Show(path: seq<nat>, pos: nat, pc: nat, reg: int, out: seq<int>)
    | Update(node: nat, delta: int, pc: nat, reg: int, ok: bool)

  datatype System = System(stocks: seq<Stock>, threads: seq<Thread>)

  predicate Finished(t: Thread) {
    match t
    case Show(path, pos, _, _, _) => pos >= |path|
    case Update(_, _, pc, _, _) => pc >= 4
  }

  /** The stock that the thread is at. */
  function Node(t: Thread): nat
    requires !Finished(t)
  {
    match t
    case Show(path, pos, _, _, _) => path[pos]
    case Update(node, _, _, _, _) => node
  }

  /** The thread's next step is not a P on a semaphore that is 0. */
  predicate Enabled(s: System, k: nat) {
    && k < |s.threads| && !Finished(s.threads[k]) && Node(s.threads[k]) < |s.stocks|
    && var t, x := s.threads[k], s.stocks[Node(s.threads[k])];
       if t.Show? then (t.pc == 0 || t.pc == 7 ==> x.mutexRead > 0) && (t.pc == 4 ==> x.mutex > 0)
       else t.pc == 0 ==> x.mutex > 0
  }

  /** set_stocks_info at one stock. */
  function ShowStep(t: Thread, x: Stock): (Thread, Stock)
    requires t.Show?
  {
    var Show(path, pos, pc, reg, out) := t;
    var u := Show(path, pos, pc + 1, reg, out);
    if pc == 0 then (u, x.(mutexRead := x.mutexRead - 1))
    else if pc == 1 then (Show(path, pos, 2, x.readCnt, out), x)
    else if pc == 2 then (Show(path, pos, 3, reg + 1, out), x.(readCnt := reg + 1))
    else if pc == 3 then (Show(path, pos, if reg == 1 then 4 else 5, reg, out), x)
    else if pc == 4 then (u, x.(mutex := x.mutex - 1))
    else if pc == 5 then (u, x.(mutexRead := x.mutexRead + 1))
    else if pc == 6 then (Show(path, pos, 7, reg, out + [x.cnt]), x)
    else if pc == 7 then (u, x.(mutexRead := x.mutexRead - 1))
    else if pc == 8 then (Show(path, pos, 9, x.readCnt, out), x)
    else if pc == 9 then (Show(path, pos, 10, reg - 1, out), x.(readCnt := reg - 1))
    else if pc == 10 then (Show(path, pos, if reg == 0 then 11 else 12, reg, out), x)
    else if pc == 11 then (u, x.(mutex := x.mutex + 1))
    else (Show(path, pos + 1, 0, reg, out), x.(mutexRead := x.mutexRead + 1))
  }

  /** update_stock of an existing stock. */
  function UpdateStep(t: Thread, x: Stock): (Thread, Stock)
    requires t.Update?
  {
    var Update(node, delta, pc, reg, ok) := t;
    if pc == 0 then (Update(node, delta, 1, reg, ok), x.(mutex := x.mutex - 1))
    else if pc == 1 then
      if x.cnt + delta < 0 then (Update(node, delta, 3, x.cnt, false), x)
      else (Update(node, delta, 2, x.cnt, ok), x)
    else if pc == 2 then (Update(node, delta, 3, reg, true), x.(cnt := reg + delta))
    else (Update(node, delta, 4, reg, ok), x.(mutex := x.mutex + 1))
  }

  function StepOf(t: Thread, x: Stock): (Thread, Stock) {
    if t.Show? then ShowStep(t, x) else UpdateStep(t, x)
  }

  function Next(s: System, k: nat): System
    requires Enabled(s, k)
  {
    var n: int := Node(s.threads[k]);
    var (t, x) := StepOf(s.threads[k], s.stocks[n]);
    System(s.stocks[n := x], s.threads[k := t])
  }

  // Where a thread is

  predicate On(n: int, t: Thread) { t.Show? && t.pos < |t.path| && t.path[t.pos] == n }
  predicate Holding(n: int, t: Thread) { On(n, t) && (1 <= t.pc <= 5 || 8 <= t.pc) }
  predicate Inside(n: int, t: Thread) { On(n, t) && 3 <= t.pc <= 9 }
  predicate Entering(n: int, t: Thread) { On(n, t) && (t.pc == 4 || (t.pc == 3 && t.reg == 1)) }
  predicate Leaving(n: int, t: Thread) { On(n, t) && (t.pc == 11 || (t.pc == 10 && t.reg == 0)) }
  predicate Writing(n: int, t: Thread) { t.Update? && t.node == n && 1 <= t.pc <= 3 }
  predicate Printing(n: int, t: Thread) { On(n, t) && t.pc == 6 }

  /** The delta of an update that succeeded. */
  function Gain(n: int, t: Thread): int {
    if t.Update? && t.node == n && t.pc >= 3 && t.ok then t.delta else 0
  }

  function Gains(ts: seq<Thread>, n: int): int {
    if ts == [] then 0 else Gain(n, ts[0]) + Gains(ts[1..], n)
  }

  lemma {:induction false} GainsUpdate(ts: seq<Thread>, n: int, k: nat, t: Thread)
    requires k < |ts|
    ensures Gains(ts[k := t], n) == Gains(ts, n) - Gain(n, ts[k]) + Gain(n, t)
  {
    if k == 0 {
      assert ts[0 := t][1..] == ts[1..];
    } else {
      assert ts[k := t][1..] == ts[1..][k - 1 := t];
      GainsUpdate(ts[1..], n, k - 1, t);
    }
  }

  // The invariant

  /** The semaphores and counters of stock n account for the threads at n. */
  ghost predicate StockInv(s: System, init: seq<int>, n: int)
    requires 0 <= n < |s.stocks| == |init|
  {
    var x, ts := s.stocks[n], s.threads;
    && x.mutexRead == 1 - Count(ts, n, Holding) && x.mutexRead >= 0
    && x.readCnt == Count(ts, n, Inside)
    && x.mutex == 1 - Count(ts, n, Writing) - One(x.readCnt > 0) + Count(ts, n, Entering) - Count(ts, n, Leaving)
    && x.mutex >= 0
    && x.cnt >= 0 && x.cnt == init[n] + Gains(ts, n)
  }

  /** A private copy is up to date while it matters. */
  predicate Fresh(t: Thread, x: Stock) {
    if t.Show? then
      && t.pc <= 12
      && (t.pc in {2, 3, 9, 10} ==> t.reg == x.readCnt)
      && (t.pc == 4 ==> x.readCnt == 1) && (t.pc == 11 ==> x.readCnt == 0)
    else
      t.pc == 2 ==> t.reg == x.cnt && t.reg + t.delta >= 0
  }

  ghost predicate ThreadInv(s: System, k: nat)
    requires k < |s.threads|
  {
    var t := s.threads[k];
    && (t.Show? ==> forall i {:trigger t.path[i]} :: 0 <= i < |t.path| ==> t.path[i] < |s.stocks|)
    && (t.Show? ==> t.pos <= |t.path| && |t.out| == t.pos + (if t.pos < |t.path| && t.pc >= 7 then 1 else 0))
    && (t.Show? ==> forall i {:trigger t.out[i]} :: 0 <= i < |t.out| ==> t.out[i] >= 0)
    && (!Finished(t) ==> Node(t) < |s.stocks| && Fresh(t, s.stocks[Node(t)]))
  }

  ghost predicate Inv(s: System, init: seq<int>) {
    && |s.stocks| == |init|
    && (forall n {:trigger StockInv(s, init, n)} :: 0 <= n < |init| ==> StockInv(s, init, n))
    && (forall k {:trigger ThreadInv(s, k)} :: 0 <= k < |s.threads| ==> ThreadInv(s, k))
  }

  /** What stock n needs of thread k. */
  ghost predicate FreshAt(s: System, n: int, k: nat)
    requires k < |s.threads| && 0 <= n < |s.stocks|
  {
    !Finished(s.threads[k]) && Node(s.threads[k]) == n ==> Fresh(s.threads[k], s.stocks[n])
  }

  /** The invariant of one stock, whatever is the matter with the others. */
  ghost predicate LocalInv(s: System, init: seq<int>, n: int) {
    && 0 <= n < |s.stocks| == |init| && StockInv(s, init, n)
    && (forall k {:trigger FreshAt(s, n, k)} :: 0 <= k < |s.threads| ==> FreshAt(s, n, k))
  }

  lemma InvIsLocal(s: System, init: seq<int>, n: int)
    requires Inv(s, init) && 0 <= n < |init|
    ensures LocalInv(s, init, n)
  {
    assert StockInv(s, init, n);
    forall k | 0 <= k < |s.threads| ensures FreshAt(s, n, k) {
      assert ThreadInv(s, k);
    }
  }

  // Steps

  lemma CountsMove(ts: seq<Thread>, n: int, k: nat, t: Thread)
    requires k < |ts|
    ensures Count(ts[k := t], n, Holding) == Count(ts, n, Holding) - One(Holding(n, ts[k])) + One(Holding(n, t))
    ensures Count(ts[k := t], n, Inside) == Count(ts, n, Inside) - One(Inside(n, ts[k])) + One(Inside(n, t))
    ensures Count(ts[k := t], n, Entering) == Count(ts, n, Entering) - One(Entering(n, ts[k])) + One(Entering(n, t))
    ensures Count(ts[k := t], n, Leaving) == Count(ts, n, Leaving) - One(Leaving(n, ts[k])) + One(Leaving(n, t))
    ensures Count(ts[k := t], n, Writing) == Count(ts, n, Writing) - One(Writing(n, ts[k])) + One(Writing(n, t))
    ensures Gains(ts[k := t], n) == Gains(ts, n) - Gain(n, ts[k]) + Gain(n, t)
  {
    CountUpdate(ts, n, Holding, k, t);
    CountUpdate(ts, n, Inside, k, t);
    CountUpdate(ts, n, Entering, k, t);
    CountUpdate(ts, n, Leaving, k, t);
    CountUpdate(ts, n, Writing, k, t);
    GainsUpdate(ts, n, k, t);
  }

  lemma StepStock(s: System, init: seq<int>, k: nat)
    requires Enabled(s, k) && LocalInv(s, init, Node(s.threads[k]))
    ensures StockInv(Next(s, k), init, Node(s.threads[k]))
  {
    hide Count, Gains;
    var n: int := Node(s.threads[k]);
    assert StockInv(s, init, n) && FreshAt(s, n, k);
    CountsMove(s.threads, n, k, Next(s, k).threads[k]);
    if Inside(n, s.threads[k]) {
      Counted(s.threads, n, Inside, k);
    }
    if Leaving(n, s.threads[k]) {
      Counted(s.threads, n, Leaving, k);
    }
  }

  /** A thread only shows at the stock it is at. */
  lemma OtherStock(s: System, init: seq<int>, k: nat, n: int)
    requires LocalInv(s, init, n) && Enabled(s, k) && n != Node(s.threads[k])
    ensures StockInv(Next(s, k), init, n)
  {
    hide Count, Gains;
    CountsMove(s.threads, n, k, Next(s, k).threads[k]);
  }

  /** At most one thread holds mutex_read, at most one writes, and a reader that waits for
      mutex is the only one inside. */
  lemma AtMostOne(s: System, init: seq<int>, n: int)
    requires LocalInv(s, init, n)
    ensures Count(s.threads, n, Holding) <= 1 && Count(s.threads, n, Entering) <= 1 && Count(s.threads, n, Writing) <= 1
    ensures Count(s.threads, n, Entering) > 0 ==> s.stocks[n].readCnt == 1
    ensures Count(s.threads, n, Leaving) > 0 ==> s.stocks[n].readCnt == 0
  {
    CountMonotone(s.threads, n, Entering, Holding);
    if Count(s.threads, n, Entering) > 0 {
      var k := Witness(s.threads, n, Entering);
      assert FreshAt(s, n, k);
    }
    if Count(s.threads, n, Leaving) > 0 {
      var k := Witness(s.threads, n, Leaving);
      assert FreshAt(s, n, k);
    }
  }

  lemma NotBoth(s: System, init: seq<int>, n: int, j: nat, k: nat)
    requires LocalInv(s, init, n) && j < |s.threads| && k < |s.threads| && j != k
    ensures !(Holding(n, s.threads[j]) && Holding(n, s.threads[k]))
    ensures !(Writing(n, s.threads[j]) && Writing(n, s.threads[k]))
  {
    AtMostOne(s, init, n);
    var lo, hi := if j < k then j else k, if j < k then k else j;
    if Holding(n, s.threads[j]) && Holding(n, s.threads[k]) {
      CountedTwice(s.threads, n, Holding, lo, hi);
    }
    if Writing(n, s.threads[j]) && Writing(n, s.threads[k]) {
      CountedTwice(s.threads, n, Writing, lo, hi);
    }
  }

  lemma OwnFresh(s: System, init: seq<int>, k: nat, n: int)
    requires LocalInv(s, init, n) && Enabled(s, k)
    ensures FreshAt(Next(s, k), n, k)
  {
    hide Gains;
    assert FreshAt(s, n, k);
  }

  lemma StepFresh(s: System, init: seq<int>, k: nat, n: int, j: nat)
    requires LocalInv(s, init, n) && Enabled(s, k) && j < |s.threads|
    ensures FreshAt(Next(s, k), n, j)
  {
    hide Count, Gains, StockInv;
    assert FreshAt(s, n, k) && FreshAt(s, n, j);
    if j != k {
      NotBoth(s, init, n, j, k);
    } else {
      OwnFresh(s, init, k, n);
    }
  }

  /** Any step of any thread keeps the invariant of any stock. */
  lemma StepKeepsLocal(s: System, init: seq<int>, k: nat, n: int)
    requires LocalInv(s, init, n) && Enabled(s, k)
    ensures LocalInv(Next(s, k), init, n)
  {
    hide StockInv, FreshAt;
    if n == Node(s.threads[k]) {
      StepStock(s, init, k);
    } else {
      OtherStock(s, init, k, n);
    }
    forall j | 0 <= j < |s.threads| ensures FreshAt(Next(s, k), n, j) {
      StepFresh(s, init, k, n, j);
    }
  }

  lemma OwnStep(s: System, init: seq<int>, k: nat)
    requires Inv(s, init) && Enabled(s, k)
    ensures ThreadInv(Next(s, k), k)
  {
    assert ThreadInv(s, k) && StockInv(s, init, Node(s.threads[k]));
  }

  lemma StepThread(s: System, init: seq<int>, k: nat, j: nat)
    requires Inv(s, init) && Enabled(s, k) && j < |s.threads|
    ensures ThreadInv(Next(s, k), j)
  {
    hide Count, Gains, StockInv;
    var s' := Next(s, k);
    var n: int := Node(s.threads[k]);
    assert ThreadInv(s, k) && ThreadInv(s, j);
    InvIsLocal(s, init, n);
    if j != k {
      NotBoth(s, init, n, j, k);
    } else {
      OwnStep(s, init, k);
    }
  }

  lemma StepKeepsInv(s: System, init: seq<int>, k: nat)
    requires Inv(s, init) && Enabled(s, k)
    ensures Inv(Next(s, k), init)
  {
    hide StockInv, ThreadInv;
    var s' := Next(s, k);
    forall n | 0 <= n < |init| ensures StockInv(s', init, n) {
      InvIsLocal(s, init, n);
      StepKeepsLocal(s, init, k, n);
    }
    forall j | 0 <= j < |s'.threads| ensures ThreadInv(s', j) {
      StepThread(s, init, k, j);
    }
  }

  // Runs

  ghost predicate Unstarted(t: Thread, stocks: nat) {
    && t.pc == 0
    && (t.Show? ==> t.pos == 0 && t.out == [])
    && (t.Show? ==> forall i {:trigger t.path[i]} :: 0 <= i < |t.path| ==> t.path[i] < stocks)
    && (t.Update? ==> t.node < stocks)
  }

  /** Stocks as insert_stock should leave them, with read_cnt 0, and threads that have not started. */
  ghost predicate Initial(s: System, init: seq<int>) {
    && |s.stocks| == |init|
    && (forall n {:trigger s.stocks[n]} :: 0 <= n < |init| ==> init[n] >= 0 && s.stocks[n] == Stock(1, 1, 0, init[n]))
    && (forall k {:trigger s.threads[k]} :: 0 <= k < |s.threads| ==> Unstarted(s.threads[k], |init|))
  }

  lemma {:induction false} NoGains(ts: seq<Thread>, n: int)
    requires forall k {:trigger ts[k]} :: 0 <= k < |ts| ==> ts[k].pc == 0
    ensures Gains(ts, n) == 0
  {
    if ts != [] {
      assert ts[0].pc == 0;
      forall k | 0 <= k < |ts[1..]| ensures ts[1..][k].pc == 0 {
        assert ts[1..][k] == ts[k + 1];
      }
      NoGains(ts[1..], n);
    }
  }

  lemma InitialInv(s: System, init: seq<int>)
    requires Initial(s, init)
    ensures Inv(s, init)
  {
    forall k | 0 <= k < |s.threads| ensures ThreadInv(s, k) {
      assert Unstarted(s.threads[k], |init|);
    }
    forall k | 0 <= k < |s.threads| ensures s.threads[k].pc == 0 {
      assert Unstarted(s.threads[k], |init|);
    }
    forall n | 0 <= n < |init| ensures StockInv(s, init, n) {
      NoneCounted(s.threads, n, Holding);
      NoneCounted(s.threads, n, Inside);
      NoneCounted(s.threads, n, Entering);
      NoneCounted(s.threads, n, Leaving);
      NoneCounted(s.threads, n, Writing);
      NoGains(s.threads, n);
      assert s.stocks[n] == Stock(1, 1, 0, init[n]);
    }
  }

  function Run(s: System, schedule: seq<nat>): System
    decreases |schedule|
  {
    if schedule == [] then s
    else if Enabled(s, schedule[0]) then Run(Next(s, schedule[0]), schedule[1..])
    else Run(s, schedule[1..])
  }

  lemma {:induction false} RunKeepsInv(s: System, init: seq<int>, schedule: seq<nat>)
    requires Inv(s, init)
    ensures Inv(Run(s, schedule), init)
    decreases |schedule|
  {
    hide Inv, Enabled, Next;
    if schedule != [] {
      if Enabled(s, schedule[0]) {
        StepKeepsInv(s, init, schedule[0]);
        RunKeepsInv(Next(s, schedule[0]), init, schedule[1..]);
      } else {
        RunKeepsInv(s, init, schedule[1..]);
      }
    }
  }

  lemma {:induction false} RunKeepsLocal(s: System, init: seq<int>, schedule: seq<nat>, n: int)
    requires LocalInv(s, init, n)
    ensures LocalInv(Run(s, schedule), init, n)
    decreases |schedule|
  {
    hide LocalInv, Enabled, Next;
    if schedule != [] {
      if Enabled(s, schedule[0]) {
        StepKeepsLocal(s, init, schedule[0], n);
        RunKeepsLocal(Next(s, schedule[0]), init, schedule[1..], n);
      } else {
        RunKeepsLocal(s, init, schedule[1..], n);
      }
    }
  }

  lemma Apart(s: System, init: seq<int>, n: int, j: nat, k: nat)
    requires LocalInv(s, init, n) && j < |s.threads| && k < |s.threads| && j != k && Writing(n, s.threads[j])
    ensures !Writing(n, s.threads[k]) && !Printing(n, s.threads[k])
  {
    hide Gains;
    NotBoth(s, init, n, j, k);
    AtMostOne(s, init, n);
    Counted(s.threads, n, Writing, j);
    if Printing(n, s.threads[k]) {
      Counted(s.threads, n, Inside, k);
      if Count(s.threads, n, Entering) > 0 {
        var i := Witness(s.threads, n, Entering);
        CountedTwice(s.threads, n, Inside, if i < k then i else k, if i < k then k else i);
      }
    }
  }

  /** A thread in its write section excludes every other writer and every printing reader. */
  lemma Exclusion(s: System, init: seq<int>, schedule: seq<nat>, n: int, j: nat, k: nat)
    requires Initial(s, init) && 0 <= n < |init|
    requires var ts := Run(s, schedule).threads; j < |ts| && k < |ts| && j != k && Writing(n, ts[j])
    ensures var ts := Run(s, schedule).threads; !Writing(n, ts[k]) && !Printing(n, ts[k])
  {
    hide Run;
    InitialInv(s, init);
    RunKeepsInv(s, init, schedule);
    InvIsLocal(Run(s, schedule), init, n);
    Apart(Run(s, schedule), init, n, j, k);
  }

  /** mutex is 0 exactly when a writer holds it or the readers, as a group, do; read_cnt is
      the number of readers between entry and exit. */
  lemma MutexMeans(s: System, init: seq<int>, schedule: seq<nat>, n: int)
    requires Initial(s, init) && 0 <= n < |init|
    ensures var r := Run(s, schedule); var ts := r.threads;
      && |r.stocks| == |init| && r.stocks[n].readCnt == Count(ts, n, Inside)
      && (r.stocks[n].mutex == 0 || r.stocks[n].mutex == 1)
      && (r.stocks[n].mutex == 0 <==>
            || Count(ts, n, Writing) == 1
            || (Count(ts, n, Inside) > 0 && Count(ts, n, Entering) == 0)
            || Count(ts, n, Leaving) == 1)
      && (Count(ts, n, Writing) == 1 ==>
           !(Count(ts, n, Inside) > 0 && Count(ts, n, Entering) == 0) && Count(ts, n, Leaving) == 0)
  {
    hide Run;
    InitialInv(s, init);
    RunKeepsInv(s, init, schedule);
    var r := Run(s, schedule);
    InvIsLocal(r, init, n);
    AtMostOne(r, init, n);
    CountMonotone(r.threads, n, Leaving, Holding);
  }

  /** No update is lost: every count is what it was plus the deltas of the updates that
      succeeded, and it never becomes negative. */
  lemma CountsAddUp(s: System, init: seq<int>, schedule: seq<nat>, n: int)
    requires Initial(s, init) && 0 <= n < |init|
    ensures var r := Run(s, schedule);
      |r.stocks| == |init| && r.stocks[n].cnt >= 0 && r.stocks[n].cnt == init[n] + Gains(r.threads, n)
  {
    InitialInv(s, init);
    RunKeepsInv(s, init, schedule);
    assert StockInv(Run(s, schedule), init, n);
  }

  lemma {:induction false} RunOneMore(s: System, schedule: seq<nat>, j: nat)
    ensures Run(s, schedule + [j]) == if Enabled(Run(s, schedule), j) then Next(Run(s, schedule), j)
      else Run(s, schedule)
    decreases |schedule|
  {
    hide Enabled, Next;
    if schedule == [] {
      assert ([] + [j])[1..] == [];
      assert Run(s, [j]) == if Enabled(s, j) then Run(Next(s, j), []) else Run(s, []);
    } else {
      assert (schedule + [j])[1..] == schedule[1..] + [j];
      RunOneMore(if Enabled(s, schedule[0]) then Next(s, schedule[0]) else s, schedule[1..], j);
    }
  }

  /** What thread k printed i-th is the count that the i-th stock of its path had after
      times[i] turns. */
  ghost predicate PrintedAt(s: System, schedule: seq<nat>, k: nat, path: seq<nat>, out: seq<int>, times: seq<nat>,
                            i: nat)
    requires i < |times| && i < |out| && i < |path|
  {
    && times[i] < |schedule| && (i > 0 ==> times[i - 1] < times[i])
    && var r := Run(s, schedule[..times[i]]);
    && path[i] < |r.stocks| && out[i] == r.stocks[path[i]].cnt
    && k < |r.threads| && Printing(path[i], r.threads[k]) && schedule[times[i]] == k
  }

  lemma NothingPrinted(s: System, k: nat)
    requires k < |s.threads| && s.threads[k].Show? && s.threads[k].pos == 0 && s.threads[k].out == []
    ensures Finished(s.threads[k]) ==> s.threads[k].path == []
  {
  }

  /** What a turn of thread j does to show k. */
  lemma TurnOf(r: System, init: seq<int>, j: nat, k: nat)
    requires Inv(r, init) && k < |r.threads| && r.threads[k].Show?
    ensures var r' := if Enabled(r, j) then Next(r, j) else r;
      && |r'.threads| == |r.threads| && r'.threads[k].Show? && r'.threads[k].path == r.threads[k].path
      && |r'.threads[k].out| <= |r.threads[k].path|
      && (Finished(r'.threads[k]) ==> |r'.threads[k].out| == |r.threads[k].path|)
      && (if Enabled(r, j) && j == k && r.threads[k].pc == 6 then
            && |r.threads[k].out| < |r.threads[k].path| && r.threads[k].path[|r.threads[k].out|] < |r.stocks|
            && Printing(r.threads[k].path[|r.threads[k].out|], r.threads[k])
            && r'.threads[k].out == r.threads[k].out + [r.stocks[r.threads[k].path[|r.threads[k].out|]].cnt]
          else r'.threads[k].out == r.threads[k].out)
  {
    hide StockInv;
    if Enabled(r, j) { StepKeepsInv(r, init, j); }
    var r' := if Enabled(r, j) then Next(r, j) else r;
    assert ThreadInv(r, k) && ThreadInv(r', k);
  }

  /** The last turn of a schedule: if it is one in which k prints, its time is now. */
  lemma OneMoreTurn(s: System, init: seq<int>, schedule: seq<nat>, k: nat, times: seq<nat>) returns (times': seq<nat>)
    requires schedule != []
    requires var n := |schedule| - 1; var r := Run(s, schedule[..n]);
      && Inv(r, init) && k < |r.threads| && r.threads[k].Show? && |times| == |r.threads[k].out| <= |r.threads[k].path|
      && (forall i {:trigger PrintedAt(s, schedule[..n], k, r.threads[k].path, r.threads[k].out, times, i)} ::
            0 <= i < |times| ==> PrintedAt(s, schedule[..n], k, r.threads[k].path, r.threads[k].out, times, i))
      && Run(s, schedule) == if Enabled(r, schedule[n]) then Next(r, schedule[n]) else r
    ensures var ts := Run(s, schedule).threads;
      && |ts| == |Run(s, schedule[..|schedule| - 1]).threads| && ts[k].Show?
      && ts[k].path == Run(s, schedule[..|schedule| - 1]).threads[k].path
      && |times'| == |ts[k].out| <= |ts[k].path| && (Finished(ts[k]) ==> |ts[k].out| == |ts[k].path|)
      && forall i {:trigger PrintedAt(s, schedule, k, ts[k].path, ts[k].out, times', i)} ::
           0 <= i < |times'| ==> PrintedAt(s, schedule, k, ts[k].path, ts[k].out, times', i)
  {
    hide Run, StockInv;
    var n := |schedule| - 1;
    var j, prev, r, r' := schedule[n], schedule[..n], Run(s, schedule[..n]), Run(s, schedule);
    TurnOf(r, init, j, k);
    var t, t' := r.threads[k], r'.threads[k];
    times' := if Enabled(r, j) && j == k && t.pc == 6 then times + [n] else times;
    forall i | 0 <= i < |times'| ensures PrintedAt(s, schedule, k, t'.path, t'.out, times', i) {
      if i < |times| {
        assert PrintedAt(s, prev, k, t.path, t.out, times, i);
        assert schedule[..times[i]] == prev[..times[i]];
      } else if i > 0 {
        assert PrintedAt(s, prev, k, t.path, t.out, times, i - 1);
      }
    }
  }

  /** A show prints, in path order and at increasing times, counts that its stocks have at
      those times; when it is done, one for every stock. */
  lemma {:induction false} ShowPrintsAll(s: System, init: seq<int>, schedule: seq<nat>, k: nat)
    returns (times: seq<nat>)
    requires Initial(s, init) && k < |s.threads| && s.threads[k].Show?
    ensures var ts := Run(s, schedule).threads;
      && |ts| == |s.threads| && ts[k].Show? && ts[k].path == s.threads[k].path
      && |times| == |ts[k].out| <= |ts[k].path| && (Finished(ts[k]) ==> |ts[k].out| == |ts[k].path|)
      && forall i {:trigger PrintedAt(s, schedule, k, ts[k].path, ts[k].out, times, i)} ::
           0 <= i < |times| ==> PrintedAt(s, schedule, k, ts[k].path, ts[k].out, times, i)
    decreases |schedule|
  {
    hide Enabled, Next, Finished;
    InitialInv(s, init);
    if schedule == [] {
      assert Unstarted(s.threads[k], |init|);
      NothingPrinted(s, k);
      times := [];
    } else {
      var n := |schedule| - 1;
      var j, prev := schedule[n], schedule[..n];
      times := ShowPrintsAll(s, init, prev, k);
      RunKeepsInv(s, init, prev);
      assert schedule == prev + [j];
      RunOneMore(s, prev, j);
      times := OneMoreTurn(s, init, schedule, k, times);
    }
  }

  /** Update t, which is thread k, read its count after seen turns, holding the lock, and held it
      still after done turns, when the count was what it leaves: changed by delta, if the read
      count allows that, or not at all. */
  ghost predicate Weighed(s: System, schedule: seq<nat>, k: nat, t: Thread, seen: nat, done: nat)
    requires t.Update?
  {
    && seen < |schedule| && var r := Run(s, schedule[..seen]);
    && k < |r.threads| && t.node < |r.stocks| && Writing(t.node, r.threads[k])
    && var c := r.stocks[t.node].cnt;
    && (t.pc == 2 ==> t.reg == c && c + t.delta >= 0)
    && (t.pc >= 3 ==>
         && (t.ok <==> c + t.delta >= 0) && seen < done <= |schedule| && var r' := Run(s, schedule[..done]);
         && k < |r'.threads| && t.node < |r'.stocks| && Writing(t.node, r'.threads[k])
         && r'.stocks[t.node].cnt == if t.ok then c + t.delta else c)
  }

  /** What a turn of thread j does to update k. */
  lemma UpdateTurn(r: System, init: seq<int>, j: nat, k: nat)
    requires Inv(r, init) && k < |r.threads| && r.threads[k].Update?
    ensures var r' := if Enabled(r, j) then Next(r, j) else r; var t, t' := r.threads[k], r'.threads[k];
      && |r'.threads| == |r.threads| && |r'.stocks| == |r.stocks| && t'.Update? && t'.node == t.node
      && t'.delta == t.delta
      && (t' == t || (j == k && t.pc < 4 && t.node < |r.stocks|))
      && (t' != t && t.pc == 0 ==> t'.pc == 1)
      && (t' != t && t.pc == 1 ==> r'.stocks == r.stocks && (t'.pc == 2 || t'.pc == 3))
      && (t' != t && t.pc == 1 && t'.pc == 2 ==> t'.reg == r.stocks[t.node].cnt && t'.reg + t.delta >= 0)
      && (t' != t && t.pc == 1 && t'.pc == 3 ==> !t'.ok && r.stocks[t.node].cnt + t.delta < 0)
      && (t' != t && t.pc == 2 ==> t'.pc == 3 && t'.ok && r'.stocks[t.node].cnt == t.reg + t.delta)
      && (t' != t && t.pc == 3 ==> t'.pc == 4 && t'.ok == t.ok)
  {
    hide StockInv;
    assert ThreadInv(r, k);
  }

  lemma WeighTurn(s: System, init: seq<int>, schedule: seq<nat>, k: nat, seen: nat, done: nat)
    returns (seen': nat, done': nat)
    requires schedule != []
    requires var n := |schedule| - 1; var r := Run(s, schedule[..n]);
      && Inv(r, init) && k < |r.threads| && r.threads[k].Update?
      && (r.threads[k].pc >= 2 ==> Weighed(s, schedule[..n], k, r.threads[k], seen, done))
      && Run(s, schedule) == if Enabled(r, schedule[n]) then Next(r, schedule[n]) else r
    ensures var ts := Run(s, schedule).threads;
      && |ts| == |Run(s, schedule[..|schedule| - 1]).threads| && ts[k].Update?
      && ts[k].node == Run(s, schedule[..|schedule| - 1]).threads[k].node
      && ts[k].delta == Run(s, schedule[..|schedule| - 1]).threads[k].delta
      && (ts[k].pc >= 2 ==> Weighed(s, schedule, k, ts[k], seen', done'))
  {
    hide Run, StockInv, Enabled, Next, Inv;
    var n := |schedule| - 1;
    var prev, r, r' := schedule[..n], Run(s, schedule[..n]), Run(s, schedule);
    UpdateTurn(r, init, schedule[n], k);
    var t, t' := r.threads[k], r'.threads[k];
    assert schedule[..n + 1] == schedule;
    seen' := if t' != t && t.pc == 1 then n else seen;
    done' := if t' != t && (t.pc == 1 || t.pc == 2) then n + 1 else done;
    if t.pc >= 2 {
      assert schedule[..seen] == prev[..seen];
      assert done <= n ==> schedule[..done] == prev[..done];
    }
  }

  lemma {:induction false} WeighedSoFar(s: System, init: seq<int>, schedule: seq<nat>, k: nat)
    returns (seen: nat, done: nat)
    requires Initial(s, init) && k < |s.threads| && s.threads[k].Update?
    ensures var ts := Run(s, schedule).threads;
      && |ts| == |s.threads| && ts[k].Update? && ts[k].node == s.threads[k].node && ts[k].delta == s.threads[k].delta
      && (ts[k].pc >= 2 ==> Weighed(s, schedule, k, ts[k], seen, done))
    decreases |schedule|
  {
    hide Enabled, Next, Weighed;
    InitialInv(s, init);
    if schedule == [] {
      assert Unstarted(s.threads[k], |init|);
      seen, done := 0, 0;
    } else {
      var n := |schedule| - 1;
      seen, done := WeighedSoFar(s, init, schedule[..n], k);
      RunKeepsInv(s, init, schedule[..n]);
      assert schedule == schedule[..n] + [schedule[n]];
      RunOneMore(s, schedule[..n], schedule[n]);
      seen, done := WeighTurn(s, init, schedule, k, seen, done);
    }
  }

  /** Every update that is done was decided at some time when it held the lock: it succeeded if and
      only if the count of its stock was then enough, and it left that count changed by its delta,
      or, if it was refused, as it was. */
  lemma UpdateDecides(s: System, init: seq<int>, schedule: seq<nat>, k: nat) returns (seen: nat, done: nat)
    requires Initial(s, init) && k < |s.threads| && s.threads[k].Update?
    requires k < |Run(s, schedule).threads| && Finished(Run(s, schedule).threads[k])
    ensures Run(s, schedule).threads[k].Update? && seen < done <= |schedule|
    ensures var u, r, r' := s.threads[k], Run(s, schedule[..seen]), Run(s, schedule[..done]);
      && k < |r.threads| && k < |r'.threads| && u.node < |r.stocks| && u.node < |r'.stocks|
      && Writing(u.node, r.threads[k]) && Writing(u.node, r'.threads[k])
      && (Run(s, schedule).threads[k].ok <==> r.stocks[u.node].cnt + u.delta >= 0)
      && r'.stocks[u.node].cnt ==
           r.stocks[u.node].cnt + if r.stocks[u.node].cnt + u.delta >= 0 then u.delta else 0
  {
    hide Run;
    seen, done := WeighedSoFar(s, init, schedule, k);
  }

  // Progress

  /** Someone waits for mutex in the entry of the readers: its holder can go on. */
  lemma MutexHolderRuns(s: System, init: seq<int>, n: int, i: nat) returns (j: nat)
    requires Inv(s, init) && 0 <= n < |init| && i < |s.threads| && On(n, s.threads[i]) && s.threads[i].pc == 4
    requires s.stocks[n].mutex == 0
    ensures Enabled(s, j)
  {
    hide Count, Gains;
    InvIsLocal(s, init, n);
    AtMostOne(s, init, n);
    Counted(s.threads, n, Entering, i);
    j := Witness(s.threads, n, Writing);
  }

  /** mutex_read is free and mutex is not: a writer or a reader inside can go on. */
  lemma FreeReadMutex(s: System, init: seq<int>, n: int) returns (j: nat)
    requires Inv(s, init) && 0 <= n < |init| && s.stocks[n].mutexRead > 0 && s.stocks[n].mutex == 0
    ensures Enabled(s, j)
  {
    hide Count, Gains;
    InvIsLocal(s, init, n);
    AtMostOne(s, init, n);
    CountMonotone(s.threads, n, Entering, Holding);
    CountMonotone(s.threads, n, Leaving, Holding);
    if Count(s.threads, n, Writing) > 0 {
      j := Witness(s.threads, n, Writing);
    } else {
      j := Witness(s.threads, n, Inside);
      if Holding(n, s.threads[j]) {
        Counted(s.threads, n, Holding, j);
      }
    }
  }

  /** While some request is unfinished, some thread can step. */
  lemma NeverStuck(s: System, init: seq<int>, k: nat) returns (j: nat)
    requires Inv(s, init) && k < |s.threads| && !Finished(s.threads[k])
    ensures Enabled(s, j)
  {
    hide Count, Gains;
    assert ThreadInv(s, k);
    var n: int := Node(s.threads[k]);
    assert StockInv(s, init, n);
    if Enabled(s, k) {
      j := k;
    } else if s.stocks[n].mutexRead == 0 {
      var i := Witness(s.threads, n, Holding);
      assert ThreadInv(s, i);
      if s.threads[i].pc == 4 && s.stocks[n].mutex == 0 {
        j := MutexHolderRuns(s, init, n, i);
      } else {
        j := i;
      }
    } else {
      j := FreeReadMutex(s, init, n);
    }
  }

  /** The steps that a thread still takes, at most. */
  function Left(t: Thread): nat {
    match t
    case Show(path, pos, pc, _, _) => if pos < |path| && pc <= 12 then 13 * (|path| - pos) - pc else 0
    case Update(_, _, pc, _, _) => if pc <= 4 then 4 - pc else 0
  }

  function Work(ts: seq<Thread>): nat {
    if ts == [] then 0 else Left(ts[0]) + Work(ts[1..])
  }

  lemma {:induction false} WorkUpdate(ts: seq<Thread>, k: nat, t: Thread)
    requires k < |ts|
    ensures Work(ts[k := t]) == Work(ts) - Left(ts[k]) + Left(t)
  {
    if k == 0 {
      assert ts[0 := t][1..] == ts[1..];
    } else {
      assert ts[k := t][1..] == ts[1..][k - 1 := t];
      WorkUpdate(ts[1..], k - 1, t);
    }
  }

  lemma StepShortensWork(s: System, init: seq<int>, k: nat)
    requires Inv(s, init) && Enabled(s, k)
    ensures Work(Next(s, k).threads) < Work(s.threads)
  {
    hide Work, StockInv;
    assert ThreadInv(s, k);
    WorkUpdate(s.threads, k, Next(s, k).threads[k]);
  }

  /** Whatever was scheduled so far, everybody can still finish. */
  lemma {:induction false} EveryoneFinishes(s: System, init: seq<int>) returns (schedule: seq<nat>)
    requires Inv(s, init)
    ensures forall k {:trigger Run(s, schedule).threads[k]} :: 0 <= k < |Run(s, schedule).threads| ==>
      Finished(Run(s, schedule).threads[k])
    ensures |schedule| <= Work(s.threads)
    decreases Work(s.threads)
  {
    hide Inv, Enabled, Next, Finished, Work;
    if k :| 0 <= k < |s.threads| && !Finished(s.threads[k]) {
      var j := NeverStuck(s, init, k);
      StepKeepsInv(s, init, j);
      StepShortensWork(s, init, j);
      var rest := EveryoneFinishes(Next(s, j), init);
      schedule := [j] + rest;
      assert schedule[1..] == rest;
    } else {
      schedule := [];
    }
  }

  /** A schedule that never gives a turn to a blocked thread is no longer than the work there is. */
  ghost predicate Productive(s: System, schedule: seq<nat>)
    decreases |schedule|
  {
    schedule == [] || (Enabled(s, schedule[0]) && Productive(Next(s, schedule[0]), schedule[1..]))
  }

  lemma {:induction false} RunsAreFinite(s: System, init: seq<int>, schedule: seq<nat>)
    requires Inv(s, init) && Productive(s, schedule)
    ensures |schedule| <= Work(s.threads)
    decreases |schedule|
  {
    hide Inv, Enabled, Next, Work;
    if schedule != [] {
      StepKeepsInv(s, init, schedule[0]);
      StepShortensWork(s, init, schedule[0]);
      RunsAreFinite(Next(s, schedule[0]), init, schedule[1..]);
    }
  }

  // read_cnt is never initialised (insert_stock)

  predicate Unlocked(x: Stock) {
    x.mutex == 1 && x.mutexRead == 1 && x.cnt >= 0
  }

  /** The locks as insert_stock leaves them, with whatever malloc left in read_cnt. */
  ghost predicate Uninitialised(s: System) {
    && (forall n {:trigger s.stocks[n]} :: 0 <= n < |s.stocks| ==> Unlocked(s.stocks[n]))
    && (forall k {:trigger s.threads[k]} :: 0 <= k < |s.threads| ==> Unstarted(s.threads[k], |s.stocks|))
  }

  predicate Meet(ts: seq<Thread>, n: int, j: nat, k: nat) {
    j < |ts| && k < |ts| && Writing(n, ts[j]) && Printing(n, ts[k])
  }

  /** In some run an update writes stock n while a show prints it. */
  ghost predicate Collides(s: System, n: int) {
    exists schedule: seq<nat>, j: nat, k: nat :: Meet(Run(s, schedule).threads, n, j, k)
  }

  /** Thread k is a show that will come to stock n. */
  ghost predicate Visits(t: Thread, n: int) {
    t.Show? && n in t.path
  }

  predicate Names(t: Thread, n: int) {
    t.Update? && t.node == n
  }

  // Nobody meets where read_cnt is 0 or a reader or a writer is missing

  lemma {:induction false} RunKeepsPlans(s: System, schedule: seq<nat>, k: nat, n: int)
    ensures |Run(s, schedule).threads| == |s.threads|
    ensures k < |s.threads| ==> (Visits(Run(s, schedule).threads[k], n) <==> Visits(s.threads[k], n))
    ensures k < |s.threads| ==> (Names(Run(s, schedule).threads[k], n) <==> Names(s.threads[k], n))
    decreases |schedule|
  {
    if schedule != [] {
      RunKeepsPlans(if Enabled(s, schedule[0]) then Next(s, schedule[0]) else s, schedule[1..], k, n);
    }
  }

  lemma CleanIsLocal(s: System, n: int) returns (init: seq<int>)
    requires Uninitialised(s) && 0 <= n < |s.stocks| && s.stocks[n].readCnt == 0
    ensures LocalInv(s, init, n)
  {
    init := seq(|s.stocks|, i requires 0 <= i < |s.stocks| => s.stocks[i].cnt);
    forall k | 0 <= k < |s.threads| ensures s.threads[k].pc == 0 && FreshAt(s, n, k) {
      assert Unstarted(s.threads[k], |s.stocks|);
    }
    assert Unlocked(s.stocks[n]);
    NoneCounted(s.threads, n, Holding);
    NoneCounted(s.threads, n, Inside);
    NoneCounted(s.threads, n, Entering);
    NoneCounted(s.threads, n, Leaving);
    NoneCounted(s.threads, n, Writing);
    NoGains(s.threads, n);
  }

  lemma MeetingNeeds(s: System, n: int, schedule: seq<nat>, j: nat, k: nat)
    requires Uninitialised(s) && 0 <= n < |s.stocks| && Meet(Run(s, schedule).threads, n, j, k)
    ensures s.stocks[n].readCnt != 0
    ensures j < |s.threads| && k < |s.threads| && Visits(s.threads[k], n) && Names(s.threads[j], n)
  {
    hide Run, Uninitialised;
    RunKeepsPlans(s, schedule, k, n);
    RunKeepsPlans(s, schedule, j, n);
    if s.stocks[n].readCnt == 0 {
      var init := CleanIsLocal(s, n);
      RunKeepsLocal(s, init, schedule, n);
      Apart(Run(s, schedule), init, n, j, k);
    }
  }

  // A show runs alone to any stock of its path

  ghost predicate Reaches(s: System, s': System) {
    exists schedule: seq<nat> :: Run(s, schedule) == s'
  }

  lemma {:induction false} RunTwice(s: System, a: seq<nat>, b: seq<nat>)
    ensures Run(s, a + b) == Run(Run(s, a), b)
    decreases |a|
  {
    hide Enabled, Next;
    if a == [] {
      assert a + b == b;
    } else {
      assert (a + b)[1..] == a[1..] + b;
      RunTwice(if Enabled(s, a[0]) then Next(s, a[0]) else s, a[1..], b);
    }
  }

  lemma ReachesItself(s: System)
    ensures Reaches(s, s)
  {
    assert Run(s, []) == s;
  }

  lemma ReachesFurther(s: System, s': System, k: nat)
    requires Reaches(s, s') && Enabled(s', k)
    ensures Reaches(s, Next(s', k))
  {
    hide Enabled, Next;
    var schedule: seq<nat> :| Run(s, schedule) == s';
    RunOneMore(s, schedule, k);
    assert Run(s, schedule + [k]) == Next(s', k);
  }

  /** s with thread k at t and stock m at x. */
  function With(s: System, k: nat, m: nat, t: Thread, x: Stock): System
    requires k < |s.threads| && m < |s.stocks|
  {
    System(s.stocks[m := x], s.threads[k := t])
  }

  /** The next step of t at stock x is not a P that has to wait. */
  predicate Unblocked(t: Thread, x: Stock) {
    if t.Show? then (t.pc == 0 || t.pc == 7 ==> x.mutexRead > 0) && (t.pc == 4 ==> x.mutex > 0)
    else t.pc == 0 ==> x.mutex > 0
  }

  lemma Goes(s0: System, s: System, k: nat, m: nat, t: Thread, x: Stock)
    requires k < |s.threads| && m < |s.stocks| && !Finished(t) && Node(t) == m && Unblocked(t, x)
    requires Reaches(s0, With(s, k, m, t, x))
    ensures Reaches(s0, With(s, k, m, StepOf(t, x).0, StepOf(t, x).1))
  {
    hide Reaches, StepOf;
    var s1, y := With(s, k, m, t, x), StepOf(t, x);
    assert Enabled(s1, k);
    ReachesFurther(s0, s1, k);
    assert Next(s1, k) == With(s, k, m, y.0, y.1);
  }

  /** The entry section of a reader that is alone, up to the printing. */
  lemma Enters(s0: System, s: System, k: nat, m: nat, path: seq<nat>, pos: nat, reg: int, out: seq<int>, x: Stock)
    requires k < |s.threads| && m < |s.stocks| && pos < |path| && path[pos] == m && Unlocked(x)
    requires Reaches(s0, With(s, k, m, Show(path, pos, 0, reg, out), x))
    ensures Reaches(s0, With(s, k, m, Show(path, pos, 6, x.readCnt + 1, out),
                             Stock(if x.readCnt == 0 then 0 else 1, 1, x.readCnt + 1, x.cnt)))
  {
    hide Reaches, With;
    var g, c := x.readCnt, x.cnt;
    Goes(s0, s, k, m, Show(path, pos, 0, reg, out), Stock(1, 1, g, c));
    Goes(s0, s, k, m, Show(path, pos, 1, reg, out), Stock(1, 0, g, c));
    Goes(s0, s, k, m, Show(path, pos, 2, g, out), Stock(1, 0, g, c));
    Goes(s0, s, k, m, Show(path, pos, 3, g + 1, out), Stock(1, 0, g + 1, c));
    if g == 0 {
      Goes(s0, s, k, m, Show(path, pos, 4, 1, out), Stock(1, 0, 1, c));
      Goes(s0, s, k, m, Show(path, pos, 5, 1, out), Stock(0, 0, 1, c));
    } else {
      Goes(s0, s, k, m, Show(path, pos, 5, g + 1, out), Stock(1, 0, g + 1, c));
    }
  }

  /** The printing and the exit section: the stock is as it was before the entry. */
  lemma Leaves(s0: System, s: System, k: nat, m: nat, path: seq<nat>, pos: nat, out: seq<int>, x: Stock)
    requires k < |s.threads| && m < |s.stocks| && pos < |path| && path[pos] == m && Unlocked(x)
    requires Reaches(s0, With(s, k, m, Show(path, pos, 6, x.readCnt + 1, out),
                              Stock(if x.readCnt == 0 then 0 else 1, 1, x.readCnt + 1, x.cnt)))
    ensures Reaches(s0, With(s, k, m, Show(path, pos + 1, 0, x.readCnt, out + [x.cnt]), x))
  {
    hide Reaches, With;
    var g, c, o := x.readCnt, x.cnt, out + [x.cnt];
    var b := if g == 0 then 0 else 1;
    Goes(s0, s, k, m, Show(path, pos, 6, g + 1, out), Stock(b, 1, g + 1, c));
    Goes(s0, s, k, m, Show(path, pos, 7, g + 1, o), Stock(b, 1, g + 1, c));
    Goes(s0, s, k, m, Show(path, pos, 8, g + 1, o), Stock(b, 0, g + 1, c));
    Goes(s0, s, k, m, Show(path, pos, 9, g + 1, o), Stock(b, 0, g + 1, c));
    Goes(s0, s, k, m, Show(path, pos, 10, g, o), Stock(b, 0, g, c));
    if g == 0 {
      Goes(s0, s, k, m, Show(path, pos, 11, 0, o), Stock(0, 0, 0, c));
    }
    Goes(s0, s, k, m, Show(path, pos, 12, g, o), Stock(1, 0, g, c));
  }

  /** Whatever the read counts are, show k can come to position i of its path and leave all
      stocks as they are. */
  lemma {:induction false} Arrives(s: System, k: nat, i: nat) returns (reg: int, out: seq<int>)
    requires Uninitialised(s) && k < |s.threads| && s.threads[k].Show? && i <= |s.threads[k].path|
    ensures Reaches(s, System(s.stocks, s.threads[k := Show(s.threads[k].path, i, 0, reg, out)]))
  {
    hide Reaches;
    var path := s.threads[k].path;
    assert Unstarted(s.threads[k], |s.stocks|);
    if i == 0 {
      reg, out := s.threads[k].reg, [];
      ReachesItself(s);
      assert System(s.stocks, s.threads[k := Show(path, 0, 0, reg, out)]) == s;
    } else {
      reg, out := Arrives(s, k, i - 1);
      var m := path[i - 1];
      assert m < |s.stocks| && Unlocked(s.stocks[m]);
      assert With(s, k, m, Show(path, i - 1, 0, reg, out), s.stocks[m]) ==
             System(s.stocks, s.threads[k := Show(path, i - 1, 0, reg, out)]);
      Enters(s, s, k, m, path, i - 1, reg, out, s.stocks[m]);
      Leaves(s, s, k, m, path, i - 1, out, s.stocks[m]);
      reg, out := s.stocks[m].readCnt, out + [s.stocks[m].cnt];
      assert With(s, k, m, Show(path, i, 0, reg, out), s.stocks[m]) ==
             System(s.stocks, s.threads[k := Show(path, i, 0, reg, out)]);
    }
  }

  lemma Met(s: System, s': System, n: int, j: nat, k: nat)
    requires Reaches(s, s') && Meet(s'.threads, n, j, k)
    ensures Collides(s, n)
  {
  }

  /** A reader that did not take mutex prints, and a writer takes it. */
  lemma WriterSlipsIn(s: System, n: nat, j: nat, k: nat)
    requires Uninitialised(s) && n < |s.stocks| && s.stocks[n].readCnt != 0
    requires j < |s.threads| && k < |s.threads| && Visits(s.threads[k], n) && Names(s.threads[j], n)
    ensures Collides(s, n)
  {
    hide Reaches;
    var t, x := s.threads[k], s.stocks[n];
    var i :| 0 <= i < |t.path| && t.path[i] == n;
    var reg, out := Arrives(s, k, i);
    assert Unlocked(x) && Unstarted(s.threads[j], |s.stocks|);
    var t' := Show(t.path, i, 0, reg, out);
    assert With(s, k, n, t', x) == System(s.stocks, s.threads[k := t']);
    Enters(s, s, k, n, t.path, i, reg, out, x);
    var s1 := With(s, k, n, Show(t.path, i, 6, x.readCnt + 1, out), Stock(1, 1, x.readCnt + 1, x.cnt));
    assert Enabled(s1, j);
    ReachesFurther(s, s1, j);
    Met(s, Next(s1, j), n, j, k);
  }

  /** In any system, whatever malloc left in the read counts: an update can write a stock while
      a show prints it if and only if that stock's read_cnt is not 0, some show comes to it and
      some update names it. */
  lemma GarbageReadCount(s: System, n: int)
    requires Uninitialised(s) && 0 <= n < |s.stocks|
    ensures Collides(s, n) <==>
            && s.stocks[n].readCnt != 0
            && (exists k :: 0 <= k < |s.threads| && Visits(s.threads[k], n))
            && (exists j :: 0 <= j < |s.threads| && Names(s.threads[j], n))
  {
    hide Uninitialised, Visits, Names, Meet;
    if Collides(s, n) {
      var schedule: seq<nat>, j: nat, k: nat :| Meet(Run(s, schedule).threads, n, j, k);
      MeetingNeeds(s, n, schedule, j, k);
    }
    if s.stocks[n].readCnt != 0
       && (exists k :: 0 <= k < |s.threads| && Visits(s.threads[k], n))
       && (exists j :: 0 <= j < |s.threads| && Names(s.threads[j], n))
    {
      var k :| 0 <= k < |s.threads| && Visits(s.threads[k], n);
      var j :| 0 <= j < |s.threads| && Names(s.threads[j], n);
      WriterSlipsIn(s, n, j, k);
    }
  }
}
