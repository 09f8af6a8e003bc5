/** The bounded buffer, step by step. */
module BoundedBuffer {
  // The bounded buffer of stockserver.c as a system of threads: both calls cut into their
  // atomic steps, under any interleaving.

  import opened Counting

  /** A producer inserts the items of todo, one call of sbuf_insert each; a consumer calls
      sbuf_remove for ever.  pc is the next step of the call, 0 for its first P; reg is the
      thread's private copy of rear or front. */
  datatype Thread =
    | Producer(pc: nat, reg: nat, todo: seq<int>)
    | Consumer(pc: nat, reg: nat, item: int, got: seq<int>)

  datatype Entry = Entry(who: nat, item: int)

  /** The fields of sbuf_t, the threads, and the history of insertions and removals. */
  datatype System = System(buf: seq<int>, front: nat, rear: nat, mutex: int, slots: int, items: int,
                           threads: seq<Thread>, inserted: seq<Entry>, consumed: seq<Entry>)

  /** Thread k can take its next step: no P on a semaphore that is 0. */
  predicate Enabled(s: System, k: nat) {
    && k < |s.threads|
    && match s.threads[k]
       case Producer(pc, _, todo) => (pc == 0 ==> todo != [] && s.slots > 0) && (pc == 1 ==> s.mutex > 0)
       case Consumer(pc, _, _, _) => (pc == 0 ==> s.items > 0) && (pc == 1 ==> s.mutex > 0)
  }

  /** The slot of an index: the buffer is used round and round. */
  function Place(s: System, index: nat): (p: nat)
    requires |s.buf| > 0
    ensures p < |s.buf|
  {
    index % |s.buf|
  }

  function Moved(s: System, k: nat, t: Thread): System
    requires k < |s.threads|
  {
    s.(threads := s.threads[k := t])
  }

  function Next(s: System, k: nat): System
    requires Enabled(s, k) && |s.buf| > 0
  {
    match s.threads[k]
    case Producer(pc, reg, todo) =>
      if pc == 0 then Moved(s, k, Producer(1, reg, todo)).(slots := s.slots - 1)
      else if pc == 1 then Moved(s, k, Producer(2, reg, todo)).(mutex := s.mutex - 1)
      else if pc == 2 then Moved(s, k, Producer(3, s.rear, todo))
      else if pc == 3 then Moved(s, k, Producer(4, reg, todo)).(rear := reg + 1)
      else if pc == 4 && todo != [] then
        var s' := s.(buf := s.buf[Place(s, reg + 1) := todo[0]], inserted := s.inserted + [Entry(k, todo[0])]);
        Moved(s', k, Producer(5, reg, todo[1..]))
      else if pc == 5 then Moved(s, k, Producer(6, reg, todo)).(mutex := s.mutex + 1)
      else Moved(s, k, Producer(0, reg, todo)).(items := s.items + 1)
    case Consumer(pc, reg, item, got) =>
      if pc == 0 then Moved(s, k, Consumer(1, reg, item, got)).(items := s.items - 1)
      else if pc == 1 then Moved(s, k, Consumer(2, reg, item, got)).(mutex := s.mutex - 1)
      else if pc == 2 then Moved(s, k, Consumer(3, s.front, item, got))
      else if pc == 3 then Moved(s, k, Consumer(4, reg, item, got)).(front := reg + 1)
      else if pc == 4 then
        var x := s.buf[Place(s, reg + 1)];
        Moved(s, k, Consumer(5, reg, x, got)).(consumed := s.consumed + [Entry(k, x)])
      else if pc == 5 then Moved(s, k, Consumer(6, reg, item, got)).(mutex := s.mutex + 1)
      else Moved(s, k, Consumer(0, reg, item, got + [item])).(slots := s.slots + 1)
  }

  // Where a thread is in its call

  predicate InSection(n: int, t: Thread) { 2 <= t.pc <= 5 }
  predicate Reserved(n: int, t: Thread) { t.Producer? && 1 <= t.pc <= 4 }
  predicate Unannounced(n: int, t: Thread) { t.Producer? && 5 <= t.pc }
  predicate Claiming(n: int, t: Thread) { t.Consumer? && 1 <= t.pc <= 4 }
  predicate Unreleased(n: int, t: Thread) { t.Consumer? && 5 <= t.pc }
  predicate Advancing(n: int, t: Thread) { t.Producer? && t.pc == 4 }
  predicate Fetching(n: int, t: Thread) { t.Consumer? && t.pc == 4 }

  /** Inserted and not yet removed. */
  function Unread(s: System): int {
    |s.inserted| - |s.consumed|
  }

  /** mutex, slots and items account for every thread in mid-operation. */
  ghost predicate Accounts(s: System) {
    && |s.buf| > 0 && Unread(s) >= 0
    && s.mutex == 1 - Count(s.threads, 0, InSection) && s.mutex >= 0
    && s.slots == |s.buf| - Unread(s) - Count(s.threads, 0, Reserved) - Count(s.threads, 0, Unreleased) && s.slots >= 0
    && s.items == Unread(s) - Count(s.threads, 0, Claiming) - Count(s.threads, 0, Unannounced) && s.items >= 0
    && s.rear == |s.inserted| + Count(s.threads, 0, Advancing)
    && s.front == |s.consumed| + Count(s.threads, 0, Fetching)
  }

  /** The j-th inserted item is still in its slot. */
  ghost predicate Stored(s: System, j: nat)
    requires j < |s.inserted| && |s.buf| > 0
  {
    s.buf[Place(s, j + 1)] == s.inserted[j].item
  }

  ghost predicate InOrder(s: System, j: nat)
    requires j < |s.consumed| <= |s.inserted|
  {
    s.consumed[j].item == s.inserted[j].item
  }

  ghost predicate Contents(s: System) {
    && |s.buf| > 0 && |s.consumed| <= |s.inserted|
    && (forall j {:trigger Stored(s, j)} :: |s.consumed| <= j < |s.inserted| ==> Stored(s, j))
    && (forall j {:trigger InOrder(s, j)} :: 0 <= j < |s.consumed| ==> InOrder(s, j))
  }

  /** The items that thread k handled, in order. */
  function By(es: seq<Entry>, k: nat): seq<int> {
    if es == [] then []
    else
      var e := es[|es| - 1];
      By(es[..|es| - 1], k) + if e.who == k then [e.item] else []
  }

  lemma ByStep(es: seq<Entry>, e: Entry, k: nat)
    ensures By(es + [e], k) == By(es, k) + if e.who == k then [e.item] else []
  {
    assert (es + [e])[..|es|] == es;
  }

  /** A private copy is up to date while it matters. */
  predicate UpToDate(t: Thread, index: nat) {
    (t.pc == 3 ==> t.reg == index) && (t.pc == 4 ==> t.reg + 1 == index)
  }

  /** What thread k inserted and has yet to insert is its plan; what it removed it has, or
      is about to return. */
  ghost predicate Delivers(s: System, plans: seq<seq<int>>, k: nat)
    requires k < |s.threads| == |plans|
  {
    match s.threads[k]
    case Producer(pc, _, todo) =>
      pc <= 6 && (1 <= pc <= 4 ==> todo != []) && By(s.inserted, k) + todo == plans[k] && UpToDate(s.threads[k], s.rear)
    case Consumer(pc, _, item, got) =>
      pc <= 6 && By(s.consumed, k) == got + (if pc >= 5 then [item] else []) && UpToDate(s.threads[k], s.front)
  }

  ghost predicate Deliveries(s: System, plans: seq<seq<int>>) {
    |s.threads| == |plans| && forall k {:trigger Delivers(s, plans, k)} :: 0 <= k < |plans| ==> Delivers(s, plans, k)
  }

  ghost predicate Inv(s: System, plans: seq<seq<int>>) {
    Accounts(s) && Contents(s) && Deliveries(s, plans)
  }

  // Steps

  /** Moving thread k to t changes each count by what k contributes. */
  lemma CountsMove(ts: seq<Thread>, k: nat, t: Thread)
    requires k < |ts|
    ensures Count(ts[k := t], 0, InSection) == Count(ts, 0, InSection) - One(InSection(0, ts[k])) + One(InSection(0, t))
    ensures Count(ts[k := t], 0, Reserved) == Count(ts, 0, Reserved) - One(Reserved(0, ts[k])) + One(Reserved(0, t))
    ensures Count(ts[k := t], 0, Unannounced) ==
            Count(ts, 0, Unannounced) - One(Unannounced(0, ts[k])) + One(Unannounced(0, t))
    ensures Count(ts[k := t], 0, Claiming) == Count(ts, 0, Claiming) - One(Claiming(0, ts[k])) + One(Claiming(0, t))
    ensures Count(ts[k := t], 0, Unreleased) ==
            Count(ts, 0, Unreleased) - One(Unreleased(0, ts[k])) + One(Unreleased(0, t))
    ensures Count(ts[k := t], 0, Advancing) == Count(ts, 0, Advancing) - One(Advancing(0, ts[k])) + One(Advancing(0, t))
    ensures Count(ts[k := t], 0, Fetching) == Count(ts, 0, Fetching) - One(Fetching(0, ts[k])) + One(Fetching(0, t))
  {
    CountUpdate(ts, 0, InSection, k, t);
    CountUpdate(ts, 0, Reserved, k, t);
    CountUpdate(ts, 0, Unannounced, k, t);
    CountUpdate(ts, 0, Claiming, k, t);
    CountUpdate(ts, 0, Unreleased, k, t);
    CountUpdate(ts, 0, Advancing, k, t);
    CountUpdate(ts, 0, Fetching, k, t);
  }

  /** A thread in the critical section is alone there. */
  lemma Alone(s: System, k: nat)
    requires Accounts(s) && k < |s.threads| && InSection(0, s.threads[k])
    ensures s.mutex == 0 && Count(s.threads, 0, InSection) == 1
    ensures Advancing(0, s.threads[k]) ==> Count(s.threads, 0, Advancing) == 1 && Count(s.threads, 0, Fetching) == 0
    ensures Fetching(0, s.threads[k]) ==> Count(s.threads, 0, Fetching) == 1 && Count(s.threads, 0, Advancing) == 0
  {
    Counted(s.threads, 0, InSection, k);
    CountMonotone(s.threads, 0, Advancing, InSection);
    CountMonotone(s.threads, 0, Fetching, InSection);
    if Advancing(0, s.threads[k]) {
      Counted(s.threads, 0, Advancing, k);
      if Count(s.threads, 0, Fetching) > 0 {
        var j := Witness(s.threads, 0, Fetching);
        CountedTwice(s.threads, 0, InSection, if j < k then j else k, if j < k then k else j);
      }
    }
    if Fetching(0, s.threads[k]) {
      Counted(s.threads, 0, Fetching, k);
      if Count(s.threads, 0, Advancing) > 0 {
        var j := Witness(s.threads, 0, Advancing);
        CountedTwice(s.threads, 0, InSection, if j < k then j else k, if j < k then k else j);
      }
    }
  }

  /** Two threads are never in the critical section at once. */
  lemma NotBoth(s: System, j: nat, k: nat)
    requires Accounts(s) && j < |s.threads| && k < |s.threads| && j != k
    ensures !(InSection(0, s.threads[j]) && InSection(0, s.threads[k]))
  {
    if InSection(0, s.threads[j]) && InSection(0, s.threads[k]) {
      CountedTwice(s.threads, 0, InSection, if j < k then j else k, if j < k then k else j);
    }
  }

  lemma StepAccounts(s: System, plans: seq<seq<int>>, k: nat)
    requires Inv(s, plans) && Enabled(s, k)
    ensures Accounts(Next(s, k))
  {
    hide Count, Contents, By;
    assert Delivers(s, plans, k);
    CountsMove(s.threads, k, Next(s, k).threads[k]);
    if Claiming(0, s.threads[k]) {
      Counted(s.threads, 0, Claiming, k);
    }
    if Reserved(0, s.threads[k]) {
      Counted(s.threads, 0, Reserved, k);
    }
  }

  lemma Quotients(i: nat, n: nat)
    requires n > 0
    ensures i == n * (i / n) + i % n
  {
  }

  lemma {:induction false} MultiplesStep(n: nat, a: nat, b: nat)
    requires a > b
    ensures n * a >= n * b + n
  {
    assert n * a == n * (a - 1) + n;
    if a - 1 > b {
      MultiplesStep(n, a - 1, b);
    }
  }

  lemma NoMultipleBetween(n: nat, a: nat, b: nat)
    ensures n * a - n * b <= 0 || n * a - n * b >= n
  {
    if a > b {
      MultiplesStep(n, a, b);
    } else if a < b {
      MultiplesStep(n, b, a);
    }
  }

  /** Two indices less than n apart are in different slots. */
  lemma PlacesDiffer(s: System, i: nat, j: nat)
    requires |s.buf| > 0 && i < j < i + |s.buf|
    ensures Place(s, i) != Place(s, j)
  {
    var n := |s.buf|;
    if i % n == j % n {
      Quotients(i, n);
      Quotients(j, n);
      NoMultipleBetween(n, j / n, i / n);
    }
  }

  /** The slot of the j-th item is not the one that is written next. */
  ghost predicate Spared(s: System, j: nat)
    requires |s.buf| > 0
  {
    Place(s, s.rear) != Place(s, j + 1)
  }

  lemma SamePlace(s: System, s': System, j: nat)
    requires |s.buf| == |s'.buf| > 0
    ensures Place(s, j) == Place(s', j)
  {
  }

  /** An insertion overwrites no unread slot. */
  lemma InsertKeepsContents(s: System, plans: seq<seq<int>>, k: nat)
    requires Inv(s, plans) && Enabled(s, k) && Advancing(0, s.threads[k])
    ensures Contents(Next(s, k))
    ensures forall j {:trigger Spared(s, j)} :: |s.consumed| <= j < |s.inserted| ==> Spared(s, j)
  {
    hide Count, By, Place;
    assert Delivers(s, plans, k);
    Alone(s, k);
    Counted(s.threads, 0, Reserved, k);
    var s' := Next(s, k);
    forall j | |s.consumed| <= j < |s.inserted| ensures Spared(s, j) {
      PlacesDiffer(s, j + 1, s.rear);
    }
    forall j | |s'.consumed| <= j < |s'.inserted| ensures Stored(s', j) {
      SamePlace(s, s', j + 1);
      assert j < |s.inserted| ==> Stored(s, j) && Spared(s, j);
    }
    forall j | 0 <= j < |s'.consumed| ensures InOrder(s', j) {
      assert InOrder(s, j);
    }
  }

  /** A removal takes the oldest unread item. */
  lemma RemoveKeepsContents(s: System, plans: seq<seq<int>>, k: nat)
    requires Inv(s, plans) && Enabled(s, k) && Fetching(0, s.threads[k])
    ensures Contents(Next(s, k))
    ensures |s.consumed| < |s.inserted| && s.buf[Place(s, s.threads[k].reg + 1)] == s.inserted[|s.consumed|].item
  {
    hide Count, By, Place;
    assert Delivers(s, plans, k);
    Alone(s, k);
    Counted(s.threads, 0, Claiming, k);
    var s' := Next(s, k);
    assert Stored(s, |s.consumed|);
    forall j | |s'.consumed| <= j < |s'.inserted| ensures Stored(s', j) {
      SamePlace(s, s', j + 1);
      assert Stored(s, j);
    }
    forall j | 0 <= j < |s'.consumed| ensures InOrder(s', j) {
      assert j < |s.consumed| ==> InOrder(s, j);
    }
  }

  lemma StepContents(s: System, plans: seq<seq<int>>, k: nat)
    requires Inv(s, plans) && Enabled(s, k)
    ensures Contents(Next(s, k))
  {
    hide Count, By, Place;
    var s' := Next(s, k);
    assert Delivers(s, plans, k);
    if Advancing(0, s.threads[k]) {
      InsertKeepsContents(s, plans, k);
    } else if Fetching(0, s.threads[k]) {
      RemoveKeepsContents(s, plans, k);
    } else {
      forall j | |s'.consumed| <= j < |s'.inserted| ensures Stored(s', j) {
        SamePlace(s, s', j + 1);
        assert Stored(s, j);
      }
      forall j | 0 <= j < |s'.consumed| ensures InOrder(s', j) {
        assert InOrder(s, j);
      }
    }
  }

  lemma BufferStays(s: System, plans: seq<seq<int>>)
    requires Inv(s, plans)
    ensures |s.buf| > 0
  {
  }

  lemma StepDelivers(s: System, plans: seq<seq<int>>, k: nat, i: nat)
    requires Inv(s, plans) && Enabled(s, k) && i < |plans|
    ensures Delivers(Next(s, k), plans, i)
  {
    hide By, Place, Count, Contents, Accounts;
    BufferStays(s, plans);
    assert Delivers(s, plans, k) && Delivers(s, plans, i);
    if i != k { NotBoth(s, i, k); }
    var t := s.threads[k];
    if t.pc == 4 {
      if t.Producer? {
        ByStep(s.inserted, Entry(k, t.todo[0]), i);
      } else {
        ByStep(s.consumed, Entry(k, s.buf[Place(s, t.reg + 1)]), i);
      }
    }
  }

  lemma StepKeepsInv(s: System, plans: seq<seq<int>>, k: nat)
    requires Inv(s, plans) && Enabled(s, k)
    ensures Inv(Next(s, k), plans)
  {
    StepAccounts(s, plans, k);
    StepContents(s, plans, k);
    forall i | 0 <= i < |plans| ensures Delivers(Next(s, k), plans, i) {
      StepDelivers(s, plans, k, i);
    }
  }

  // Runs

  /** sbuf_init with n slots, and threads that have not started. */
  ghost predicate Initial(s: System, plans: seq<seq<int>>) {
    && |s.buf| > 0 && s.front == s.rear == 0 && s.mutex == 1 && s.slots == |s.buf| && s.items == 0
    && s.inserted == [] && s.consumed == [] && |s.threads| == |plans|
    && forall k {:trigger s.threads[k]} :: 0 <= k < |plans| ==>
         && s.threads[k].pc == 0
         && if s.threads[k].Producer? then s.threads[k].todo == plans[k] else s.threads[k].got == []
  }

  lemma InitialInv(s: System, plans: seq<seq<int>>)
    requires Initial(s, plans)
    ensures Inv(s, plans)
  {
    NoneCounted(s.threads, 0, InSection);
    NoneCounted(s.threads, 0, Reserved);
    NoneCounted(s.threads, 0, Unannounced);
    NoneCounted(s.threads, 0, Claiming);
    NoneCounted(s.threads, 0, Unreleased);
    NoneCounted(s.threads, 0, Advancing);
    NoneCounted(s.threads, 0, Fetching);
    forall k | 0 <= k < |plans| ensures Delivers(s, plans, k) {
      assert s.threads[k].pc == 0;
    }
  }

  /** A schedule names the thread that runs next; a blocked thread loses its turn. */
  function Run(s: System, schedule: seq<nat>): System
    requires |s.buf| > 0
    decreases |schedule|
  {
    if schedule == [] then s
    else if Enabled(s, schedule[0]) then Run(Next(s, schedule[0]), schedule[1..])
    else Run(s, schedule[1..])
  }

  lemma {:induction false} RunKeepsInv(s: System, plans: seq<seq<int>>, schedule: seq<nat>)
    requires Inv(s, plans)
    ensures Inv(Run(s, schedule), plans)
    decreases |schedule|
  {
    hide Inv, Enabled, Next;
    BufferStays(s, plans);
    if schedule != [] {
      if Enabled(s, schedule[0]) {
        StepKeepsInv(s, plans, schedule[0]);
        BufferStays(Next(s, schedule[0]), plans);
        RunKeepsInv(Next(s, schedule[0]), plans, schedule[1..]);
      } else {
        RunKeepsInv(s, plans, schedule[1..]);
      }
    }
  }

  lemma RearBounds(s: System, plans: seq<seq<int>>)
    requires Inv(s, plans)
    ensures 0 <= s.rear - s.front <= |s.buf|
  {
    hide Count;
    CountMonotone(s.threads, 0, Advancing, Reserved);
    CountMonotone(s.threads, 0, Fetching, Claiming);
    CountMonotone(s.threads, 0, Fetching, InSection);
  }

  /** In every reachable state: the buffer is never over- or underfull, and the items that
      came out are the first ones that went in, in the same order, each once. */
  lemma BufferIsFifo(s: System, plans: seq<seq<int>>, schedule: seq<nat>)
    requires Initial(s, plans)
    ensures var r := Run(s, schedule);
      && 0 <= r.rear - r.front <= |r.buf| && |r.buf| > 0
      && |r.consumed| <= |r.inserted|
      && (forall j :: 0 <= j < |r.consumed| ==> r.consumed[j].item == r.inserted[j].item)
      && (forall j {:trigger r.inserted[j]} :: |r.consumed| <= j < |r.inserted| ==>
           r.buf[(j + 1) % |r.buf|] == r.inserted[j].item)
  {
    InitialInv(s, plans);
    RunKeepsInv(s, plans, schedule);
    var r := Run(s, schedule);
    RearBounds(r, plans);
    forall j | 0 <= j < |r.consumed| ensures r.consumed[j].item == r.inserted[j].item {
      assert InOrder(r, j);
    }
    forall j | |r.consumed| <= j < |r.inserted| ensures r.buf[(j + 1) % |r.buf|] == r.inserted[j].item {
      assert Stored(r, j);
    }
  }

  /** Per thread: what a producer has inserted followed by what is left is its plan, and a
      consumer between calls has returned exactly what it took out. */
  lemma EachItemOnce(s: System, plans: seq<seq<int>>, schedule: seq<nat>, k: nat)
    requires Initial(s, plans) && k < |plans|
    ensures |Run(s, schedule).threads| == |plans|
    ensures var r := Run(s, schedule); r.threads[k].Producer? ==> By(r.inserted, k) + r.threads[k].todo == plans[k]
    ensures var r := Run(s, schedule); r.threads[k].Consumer? && r.threads[k].pc == 0 ==>
      By(r.consumed, k) == r.threads[k].got
  {
    InitialInv(s, plans);
    RunKeepsInv(s, plans, schedule);
    assert Delivers(Run(s, schedule), plans, k);
  }

  lemma SectionRuns(s: System, j: nat)
    requires j < |s.threads| && InSection(0, s.threads[j])
    ensures Enabled(s, j)
  {
  }

  lemma AllAtStart(s: System, plans: seq<seq<int>>)
    requires Inv(s, plans)
    requires forall k {:trigger Enabled(s, k)} :: 0 <= k < |s.threads| ==> !Enabled(s, k)
    ensures forall k {:trigger s.threads[k]} :: 0 <= k < |plans| ==> s.threads[k].pc == 0
  {
    hide Count, Contents, By;
    if s.mutex == 0 {
      var j := Witness(s.threads, 0, InSection);
      SectionRuns(s, j);
    }
    forall k | 0 <= k < |plans| ensures s.threads[k].pc == 0 {
      assert !Enabled(s, k) && Delivers(s, plans, k);
    }
  }

  /** Nothing can run only when every plan is carried out and the buffer is drained, as
      long as there is a consumer at all. */
  lemma StuckMeansDone(s: System, plans: seq<seq<int>>, c: nat)
    requires Inv(s, plans) && c < |plans| && s.threads[c].Consumer?
    requires forall k {:trigger Enabled(s, k)} :: 0 <= k < |s.threads| ==> !Enabled(s, k)
    ensures Unread(s) == 0
    ensures forall k {:trigger s.threads[k]} :: 0 <= k < |plans| ==>
      s.threads[k].pc == 0 && (s.threads[k].Producer? ==> s.threads[k].todo == [])
  {
    hide Count, Contents, By;
    AllAtStart(s, plans);
    NoneCounted(s.threads, 0, Claiming);
    NoneCounted(s.threads, 0, Unannounced);
    NoneCounted(s.threads, 0, Reserved);
    NoneCounted(s.threads, 0, Unreleased);
    assert !Enabled(s, c);
    forall k | 0 <= k < |plans| && s.threads[k].Producer? ensures s.threads[k].todo == [] {
      assert !Enabled(s, k);
    }
  }

  lemma {:induction false} RunKeepsKind(s: System, plans: seq<seq<int>>, schedule: seq<nat>, c: nat)
    requires Inv(s, plans) && c < |plans|
    ensures |Run(s, schedule).threads| == |plans|
    ensures Run(s, schedule).threads[c].Consumer? == s.threads[c].Consumer?
    decreases |schedule|
  {
    if schedule != [] {
      if Enabled(s, schedule[0]) {
        StepKeepsInv(s, plans, schedule[0]);
        RunKeepsKind(Next(s, schedule[0]), plans, schedule[1..], c);
      } else {
        RunKeepsKind(s, plans, schedule[1..], c);
      }
    }
  }

  /** When nothing can run any more, every consumer has what it took and every item of
      every plan has been taken, in insertion order. */
  lemma StuckRunDelivered(s: System, plans: seq<seq<int>>, schedule: seq<nat>, c: nat)
    requires Initial(s, plans) && c < |plans| && s.threads[c].Consumer?
    requires forall k {:trigger Enabled(Run(s, schedule), k)} :: 0 <= k < |plans| ==> !Enabled(Run(s, schedule), k)
    ensures var r := Run(s, schedule);
      && |r.consumed| == |r.inserted| && |r.threads| == |plans|
      && (forall j :: 0 <= j < |r.consumed| ==> r.consumed[j].item == r.inserted[j].item)
      && (forall k {:trigger r.threads[k]} :: 0 <= k < |plans| ==>
            if r.threads[k].Producer? then By(r.inserted, k) == plans[k] else By(r.consumed, k) == r.threads[k].got)
  {
    hide Run;
    InitialInv(s, plans);
    RunKeepsInv(s, plans, schedule);
    var r := Run(s, schedule);
    RunKeepsKind(s, plans, schedule, c);
    StuckMeansDone(r, plans, c);
    BufferIsFifo(s, plans, schedule);
    forall k | 0 <= k < |plans|
      ensures if r.threads[k].Producer? then By(r.inserted, k) == plans[k] else By(r.consumed, k) == r.threads[k].got
    {
      assert Delivers(r, plans, k);
    }
  }

  // Progress

  /** What thread t adds to the work that is left: 14 steps for an item that is not yet
      inserted, 7 of them to take it out again. */
  function Weight(t: Thread): int {
    (if t.Producer? then 14 * |t.todo| else 0) + (if t.pc <= 4 then 0 else 7) - t.pc
  }

  function Weights(ts: seq<Thread>): int {
    if ts == [] then 0 else Weight(ts[0]) + Weights(ts[1..])
  }

  /** The steps that all threads together have left. */
  function Work(s: System): int {
    7 * Unread(s) + Weights(s.threads)
  }

  lemma {:induction false} WeightsUpdate(ts: seq<Thread>, k: nat, t: Thread)
    requires k < |ts|
    ensures Weights(ts[k := t]) == Weights(ts) - Weight(ts[k]) + Weight(t)
  {
    if k == 0 {
      assert ts[0 := t][1..] == ts[1..];
    } else {
      assert ts[k := t][1..] == ts[1..][k - 1 := t];
      WeightsUpdate(ts[1..], k - 1, t);
    }
  }

  /** Every step of any thread is exactly one unit of work. */
  lemma StepIsWork(s: System, plans: seq<seq<int>>, k: nat)
    requires Inv(s, plans) && Enabled(s, k)
    ensures |s.buf| > 0 && Work(Next(s, k)) == Work(s) - 1
  {
    hide Count, Contents, By, Weights, Place;
    assert Delivers(s, plans, k);
    WeightsUpdate(s.threads, k, Next(s, k).threads[k]);
  }

  /** pc is a step of the call, and a producer that has begun one has an item. */
  predicate AtAStep(t: Thread) {
    t.pc <= 6 && (t.Producer? && 1 <= t.pc <= 4 ==> t.todo != [])
  }

  lemma {:induction false} WeightsBound(ts: seq<Thread>)
    requires forall k {:trigger ts[k]} :: 0 <= k < |ts| ==> AtAStep(ts[k])
    ensures Weights(ts) >= -4 * Count(ts, 0, Claiming)
  {
    if ts != [] {
      var rest := ts[1..];
      forall k | 0 <= k < |rest| ensures AtAStep(rest[k]) {
        assert rest[k] == ts[k + 1];
      }
      WeightsBound(rest);
    }
  }

  lemma WorkIsLeft(s: System, plans: seq<seq<int>>)
    requires Inv(s, plans)
    ensures Work(s) >= 0
  {
    hide Contents, By, Weights, Count;
    forall k | 0 <= k < |s.threads| ensures AtAStep(s.threads[k]) {
      assert Delivers(s, plans, k);
    }
    WeightsBound(s.threads);
  }

  /** A schedule that never gives a turn to a blocked thread. */
  ghost predicate Productive(s: System, schedule: seq<nat>)
    requires |s.buf| > 0
    decreases |schedule|
  {
    schedule == [] || (Enabled(s, schedule[0]) && Productive(Next(s, schedule[0]), schedule[1..]))
  }

  /** It is as long as the work that it does, and so never longer than the work there is. */
  lemma {:induction false} RunsAreFinite(s: System, plans: seq<seq<int>>, schedule: seq<nat>)
    requires Inv(s, plans) && |s.buf| > 0 && Productive(s, schedule)
    ensures |schedule| == Work(s) - Work(Run(s, schedule)) && Work(Run(s, schedule)) >= 0
    decreases |schedule|
  {
    hide Inv, Enabled, Next, Work;
    if schedule == [] {
      WorkIsLeft(s, plans);
    } else {
      StepKeepsInv(s, plans, schedule[0]);
      StepIsWork(s, plans, schedule[0]);
      BufferStays(Next(s, schedule[0]), plans);
      RunsAreFinite(Next(s, schedule[0]), plans, schedule[1..]);
    }
  }

  lemma KindStays(s: System, k: nat, c: nat)
    requires |s.buf| > 0 && Enabled(s, k) && c < |s.threads|
    ensures |Next(s, k).buf| == |s.buf| && |Next(s, k).threads| == |s.threads|
    ensures Next(s, k).threads[c].Consumer? == s.threads[c].Consumer?
  {
  }

  /** Whatever was scheduled so far, as long as there is a consumer every item of every plan
      can still be inserted and taken out. */
  lemma {:induction false} EverythingIsDelivered(s: System, plans: seq<seq<int>>, c: nat) returns (schedule: seq<nat>)
    requires Inv(s, plans) && |s.buf| > 0 && c < |plans| == |s.threads| && s.threads[c].Consumer?
    ensures |schedule| <= Work(s) && Productive(s, schedule)
    ensures var r := Run(s, schedule);
      && Unread(r) == 0 && |r.threads| == |plans|
      && forall k {:trigger r.threads[k]} :: 0 <= k < |plans| ==>
         r.threads[k].pc == 0 && (r.threads[k].Producer? ==> r.threads[k].todo == [])
    decreases Work(s)
  {
    hide Inv, Enabled, Next, Work;
    WorkIsLeft(s, plans);
    if k :| 0 <= k < |s.threads| && Enabled(s, k) {
      StepKeepsInv(s, plans, k);
      StepIsWork(s, plans, k);
      WorkIsLeft(Next(s, k), plans);
      KindStays(s, k, c);
      var rest := EverythingIsDelivered(Next(s, k), plans, c);
      schedule := [k] + rest;
      assert schedule[1..] == rest;
    } else {
      StuckMeansDone(s, plans, c);
      schedule := [];
    }
  }
}
