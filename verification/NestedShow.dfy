/** task2: locks held down the tree path. */
module NestedShow {
  // A show keeps the semaphore of every node on the path from the root to where it is;
  // updates lock a single node.

  import opened Counting
  import opened TreeWalk

  datatype Record = Record(at: Path, cnt: int)

  /** The phases of a show are those of TreeWalk, and 5 when it is done. */
  datatype Thread =
    | Show(path: Path, phase: nat, out: seq<Record>)
    | Update(node: Path, delta: int, pc: nat, reg: int, ok: bool)

  datatype System = System(tree: Tree, mutex: map<Path, int>, cnt: map<Path, int>, threads: seq<Thread>)

  predicate Finished(t: Thread) {
    if t.Show? then t.phase >= 5 else t.pc >= 4
  }

  /** The node whose semaphore the thread is about to take. */
  predicate Wants(s: System, t: Thread) {
    if t.Show? then t.phase == 0 && InTree(s.tree, t.path) else t.pc == 0
  }

  function Target(t: Thread): Path {
    if t.Show? then t.path else t.node
  }

  predicate Shaped(s: System, p: Path) {
    InTree(s.tree, p) ==> p in s.mutex && p in s.cnt
  }

  predicate ThreadOk(s: System, t: Thread) {
    if t.Show? then
      && t.phase <= 5 && Reached(s.tree, t.path) && (1 <= t.phase <= 4 ==> InTree(s.tree, t.path))
      && (t.phase == 5 ==> t.path == [])
    else InTree(s.tree, t.node)
  }

  predicate Enabled(s: System, k: nat) {
    && k < |s.threads| && !Finished(s.threads[k]) && ThreadOk(s, s.threads[k]) && Shaped(s, Target(s.threads[k]))
    && (Wants(s, s.threads[k]) ==> s.mutex[Target(s.threads[k])] > 0)
  }

  /** The call on path is over. */
  function Return(path: Path, out: seq<Record>): Thread {
    if path == [] then Show([], 5, out) else Show(path[..|path| - 1], if path[|path| - 1] then 4 else 3, out)
  }

  function Next(s: System, k: nat): System
    requires Enabled(s, k)
  {
    match s.threads[k]
    case Show(path, phase, out) =>
      if phase == 0 && !InTree(s.tree, path) then s.(threads := s.threads[k := Return(path, out)])
      else if phase == 0 then
        s.(mutex := s.mutex[path := s.mutex[path] - 1], threads := s.threads[k := Show(path, 1, out)])
      else if phase == 1 then s.(threads := s.threads[k := Show(path, 2, out + [Record(path, s.cnt[path])])])
      else if phase == 2 then s.(threads := s.threads[k := Show(path + [false], 0, out)])
      else if phase == 3 then s.(threads := s.threads[k := Show(path + [true], 0, out)])
      else s.(mutex := s.mutex[path := s.mutex[path] + 1], threads := s.threads[k := Return(path, out)])
    case Update(p, delta, pc, reg, ok) =>
      if pc == 0 then s.(mutex := s.mutex[p := s.mutex[p] - 1], threads := s.threads[k := Update(p, delta, 1, reg, ok)])
      else if pc == 1 then
        if s.cnt[p] + delta < 0 then s.(threads := s.threads[k := Update(p, delta, 3, s.cnt[p], false)])
        else s.(threads := s.threads[k := Update(p, delta, 2, s.cnt[p], ok)])
      else if pc == 2 then s.(cnt := s.cnt[p := reg + delta], threads := s.threads[k := Update(p, delta, 3, reg, true)])
      else s.(mutex := s.mutex[p := s.mutex[p] + 1], threads := s.threads[k := Update(p, delta, 4, reg, ok)])
  }

  /** A show holds every proper prefix of its path, and the node itself between P and V. */
  predicate Holds(p: Path, t: Thread) {
    if t.Show? then t.phase <= 4 && p <= t.path && (p == t.path ==> 1 <= t.phase)
    else t.node == p && 1 <= t.pc <= 3
  }

  function Gain(p: Path, t: Thread): int {
    if t.Update? && t.node == p && t.pc >= 3 && t.ok then t.delta else 0
  }

  function Gains(ts: seq<Thread>, p: Path): int {
    if ts == [] then 0 else Gain(p, ts[0]) + Gains(ts[1..], p)
  }

  lemma {:induction false} GainsUpdate(ts: seq<Thread>, p: Path, k: nat, t: Thread)
    requires k < |ts|
    ensures Gains(ts[k := t], p) == Gains(ts, p) - Gain(p, ts[k]) + Gain(p, t)
  {
    if k == 0 {
      assert ts[0 := t][1..] == ts[1..];
    } else {
      assert ts[k := t][1..] == ts[1..][k - 1 := t];
      GainsUpdate(ts[1..], p, k - 1, t);
    }
  }

  // The invariant

  /** The semaphore and the count of node p account for the threads. */
  ghost predicate NodeInv(s: System, init: map<Path, int>, p: Path) {
    InTree(s.tree, p) ==>
      && p in s.mutex && p in s.cnt && p in init
      && s.mutex[p] == 1 - Count(s.threads, p, Holds) && s.mutex[p] >= 0
      && s.cnt[p] >= 0 && s.cnt[p] == init[p] + Gains(s.threads, p)
  }

  /** The count that a show printed for p, last time. */
  function Printed(out: seq<Record>, p: Path): int {
    if out == [] then -1
    else if out[|out| - 1].at == p then out[|out| - 1].cnt
    else Printed(out[..|out| - 1], p)
  }

  lemma PrintedStep(out: seq<Record>, r: Record, p: Path)
    ensures Printed(out + [r], p) == if r.at == p then r.cnt else Printed(out, p)
  {
    assert (out + [r])[..|out|] == out;
  }

  function Places(out: seq<Record>): seq<Path> {
    seq(|out|, i requires 0 <= i < |out| => out[i].at)
  }

  /** p is printed and its subtree is not. */
  predicate Pending(p: Path, t: Thread) {
    t.Show? && Holds(p, t) && (p == t.path ==> 2 <= t.phase)
  }

  ghost predicate Steady(s: System, t: Thread, p: Path) {
    Pending(p, t) && p in s.cnt ==> Printed(t.out, p) == s.cnt[p]
  }

  /** What thread k remembers is right: the printed counts that it still guards, and its
      position in the traversal. */
  ghost predicate ThreadInv(s: System, k: nat)
    requires k < |s.threads|
  {
    var t := s.threads[k];
    && ThreadOk(s, t)
    && (t.Show? ==> forall p {:trigger Steady(s, t, p)} :: Steady(s, t, p))
    && (t.Show? ==> Places(t.out) + Rest(s.tree, [], t.path, t.phase) == Preorder(s.tree, []))
    && (t.Update? && t.pc == 2 ==> t.node in s.cnt && t.reg == s.cnt[t.node] && t.reg + t.delta >= 0)
  }

  ghost predicate Inv(s: System, init: map<Path, int>) {
    && (forall p {:trigger NodeInv(s, init, p)} :: NodeInv(s, init, p))
    && (forall k {:trigger ThreadInv(s, k)} :: 0 <= k < |s.threads| ==> ThreadInv(s, k))
  }

  // What one step changes

  lemma PrefixOfChild(p: Path, q: Path, b: bool)
    ensures p <= q + [b] <==> p <= q || p == q + [b]
  {
    if p <= q + [b] && |p| <= |q| {
      assert p == (q + [b])[..|p|] == q[..|p|];
    }
    if p <= q {
      assert (q + [b])[..|p|] == q[..|p|];
    }
  }

  lemma ReturnHolds(p: Path, path: Path, out: seq<Record>, t: Thread)
    requires t.Show? && t.path == path && t.phase <= 4
    ensures p != path ==> Holds(p, Return(path, out)) == Holds(p, t)
    ensures p != path ==> Pending(p, Return(path, out)) == Pending(p, t)
    ensures !Holds(path, Return(path, out))
  {
    if path != [] {
      assert path == path[..|path| - 1] + [path[|path| - 1]];
      PrefixOfChild(p, path[..|path| - 1], path[|path| - 1]);
    }
  }

  /** Only the node that is locked or unlocked changes hands. */
  lemma HoldsAfter(s: System, k: nat, p: Path)
    requires Enabled(s, k)
    ensures var t, t' := s.threads[k], Next(s, k).threads[k];
      && (p != Target(t) ==> Holds(p, t') == Holds(p, t))
      && (p == Target(t) && InTree(s.tree, p) ==>
            Holds(p, t') == (if Wants(s, t) then true
              else if (t.Show? && t.phase == 4) || (t.Update? && t.pc == 3) then false else Holds(p, t)))
      && (Wants(s, t) ==> !Holds(Target(t), t))
  {
    var t := s.threads[k];
    if t.Show? {
      PrefixOfChild(p, t.path, false);
      PrefixOfChild(p, t.path, true);
      ReturnHolds(p, t.path, t.out, t);
    }
  }

  lemma StepNode(s: System, init: map<Path, int>, k: nat, p: Path)
    requires Inv(s, init) && Enabled(s, k)
    ensures NodeInv(Next(s, k), init, p)
  {
    hide Count, Gains, Rest, InTree, Reached;
    assert NodeInv(s, init, p) && ThreadInv(s, k);
    HoldsAfter(s, k, p);
    var t := s.threads[k];
    CountUpdate(s.threads, p, Holds, k, Next(s, k).threads[k]);
    GainsUpdate(s.threads, p, k, Next(s, k).threads[k]);
    if Holds(p, t) {
      Counted(s.threads, p, Holds, k);
    }
  }

  lemma NotBoth(s: System, init: map<Path, int>, p: Path, j: nat, k: nat)
    requires Inv(s, init) && InTree(s.tree, p) && j < |s.threads| && k < |s.threads| && j != k
    ensures !(Holds(p, s.threads[j]) && Holds(p, s.threads[k]))
  {
    assert NodeInv(s, init, p);
    if Holds(p, s.threads[j]) && Holds(p, s.threads[k]) {
      CountedTwice(s.threads, p, Holds, if j < k then j else k, if j < k then k else j);
    }
  }

  lemma RootReturns(tree: Tree, phase: nat)
    requires if tree.Leaf? then phase == 0 else phase == 4
    ensures Rest(tree, [], [], phase) == [] && Rest(tree, [], [], 5) == []
    ensures Steps(tree, [], 5) < Steps(tree, [], phase)
  {
  }

  /** A return resumes the caller, or ends the show. */
  lemma Returned(tree: Tree, path: Path, phase: nat, out: seq<Record>)
    requires Reached(tree, path) && (if InTree(tree, path) then phase == 4 else phase == 0)
    ensures var t := Return(path, out);
      && t.Show? && t.out == out && 3 <= t.phase <= 5 && Reached(tree, t.path)
      && (t.phase <= 4 ==> InTree(tree, t.path)) && (t.phase == 5 ==> t.path == [])
      && Rest(tree, [], t.path, t.phase) == Rest(tree, [], path, phase)
      && Steps(tree, t.path, t.phase) < Steps(tree, path, phase)
  {
    hide Rest, Preorder, Steps, Reached;
    if path != [] {
      ReturnStep(tree, [], path, phase);
      ParentInTree(tree, path);
      InTreeReached(tree, path[..|path| - 1]);
    } else {
      RootReturns(tree, phase);
    }
  }

  lemma OwnRest(s: System, k: nat)
    requires Enabled(s, k) && s.threads[k].Show?
    ensures var t, s' := s.threads[k], Next(s, k); var t' := s'.threads[k];
      && t'.Show? && ThreadOk(s', t')
      && (Places(t.out) + Rest(s.tree, [], t.path, t.phase) == Preorder(s.tree, [])
          ==> Places(t'.out) + Rest(s'.tree, [], t'.path, t'.phase) == Preorder(s'.tree, []))
      && Steps(s'.tree, t'.path, t'.phase) < Steps(s.tree, t.path, t.phase)
  {
    hide Rest, Preorder, Steps, Return, Reached, InTree;
    var t := s.threads[k];
    if t.phase == 0 && InTree(s.tree, t.path) {
      EnterStep(s.tree, [], t.path);
    } else if t.phase == 1 {
      PrintStep(s.tree, [], t.path);
      var r := Record(t.path, s.cnt[t.path]);
      assert Places(t.out + [r]) == Places(t.out) + [t.path];
      assert [] + t.path == t.path;
    } else if t.phase == 2 || t.phase == 3 {
      CallStep(s.tree, [], t.path, t.phase == 3);
      ChildReached(s.tree, t.path, t.phase == 3);
    } else {
      Returned(s.tree, t.path, t.phase, t.out);
    }
  }

  lemma OwnSteady(s: System, k: nat, p: Path)
    requires Enabled(s, k) && s.threads[k].Show? && Steady(s, s.threads[k], p)
    ensures Steady(Next(s, k), Next(s, k).threads[k], p)
  {
    var t := s.threads[k];
    PrefixOfChild(p, t.path, false);
    PrefixOfChild(p, t.path, true);
    ReturnHolds(p, t.path, t.out, t);
    if t.phase == 1 {
      PrintedStep(t.out, Record(t.path, s.cnt[t.path]), p);
    }
  }

  /** The stepping thread's own position and printed counts. */
  lemma OwnStep(s: System, init: map<Path, int>, k: nat)
    requires Inv(s, init) && Enabled(s, k)
    ensures ThreadInv(Next(s, k), k)
  {
    hide Count, Gains, Rest, Reached, Preorder;
    assert ThreadInv(s, k);
    var s', t := Next(s, k), s.threads[k];
    if t.Show? {
      OwnRest(s, k);
      forall p ensures Steady(s', s'.threads[k], p) {
        assert Steady(s, t, p);
        OwnSteady(s, k, p);
      }
    } else {
      assert NodeInv(s, init, t.node);
    }
  }

  lemma NotBothAt(s: System, init: map<Path, int>, p: Path, j: nat, k: nat)
    requires Inv(s, init) && j < |s.threads| && k < |s.threads| && j != k
    ensures InTree(s.tree, p) ==> !(Holds(p, s.threads[j]) && Holds(p, s.threads[k]))
  {
    if InTree(s.tree, p) {
      NotBoth(s, init, p, j, k);
    }
  }

  lemma OtherThread(s: System, init: map<Path, int>, k: nat, j: nat)
    requires Inv(s, init) && Enabled(s, k) && j < |s.threads| && j != k
    ensures ThreadInv(Next(s, k), j)
  {
    hide Count, Gains, Rest, Reached, Preorder, InTree, Printed;
    assert ThreadInv(s, j) && ThreadInv(s, k);
    var s', t, u := Next(s, k), s.threads[j], s.threads[k];
    NotBothAt(s, init, Target(u), j, k);
    forall p | t.Show? ensures Steady(s', t, p) {
      assert Steady(s, t, p);
    }
  }

  lemma StepKeepsInv(s: System, init: map<Path, int>, k: nat)
    requires Inv(s, init) && Enabled(s, k)
    ensures Inv(Next(s, k), init)
  {
    hide NodeInv, ThreadInv;
    var s' := Next(s, k);
    forall p ensures NodeInv(s', init, p) {
      StepNode(s, init, k, p);
    }
    forall j | 0 <= j < |s'.threads| ensures ThreadInv(s', j) {
      if j == k {
        OwnStep(s, init, k);
      } else {
        OtherThread(s, init, k, j);
      }
    }
  }

  // Runs

  predicate Unstarted(s: System, t: Thread) {
    if t.Show? then t == Show([], 0, []) else t.pc == 0 && InTree(s.tree, t.node)
  }

  ghost predicate Initial(s: System, init: map<Path, int>) {
    && (forall p {:trigger InTree(s.tree, p)} :: InTree(s.tree, p) ==>
          p in s.mutex && p in s.cnt && p in init && s.mutex[p] == 1 && s.cnt[p] == init[p] >= 0)
    && forall k {:trigger s.threads[k]} :: 0 <= k < |s.threads| ==> Unstarted(s, s.threads[k])
  }

  lemma {:induction false} NoGains(s: System, ts: seq<Thread>, p: Path)
    requires forall k {:trigger ts[k]} :: 0 <= k < |ts| ==> Unstarted(s, ts[k])
    ensures Gains(ts, p) == 0
  {
    if ts != [] {
      assert Unstarted(s, ts[0]);
      forall k | 0 <= k < |ts[1..]| ensures Unstarted(s, ts[1..][k]) {
        assert ts[1..][k] == ts[k + 1];
      }
      NoGains(s, ts[1..], p);
    }
  }

  lemma InitialInv(s: System, init: map<Path, int>)
    requires Initial(s, init)
    ensures Inv(s, init)
  {
    forall k, p | 0 <= k < |s.threads| ensures !Holds(p, s.threads[k]) {
      assert Unstarted(s, s.threads[k]);
    }
    forall p ensures NodeInv(s, init, p) {
      NoneCounted(s.threads, p, Holds);
      NoGains(s, s.threads, p);
    }
    forall k | 0 <= k < |s.threads| ensures ThreadInv(s, k) {
      assert Unstarted(s, s.threads[k]);
    }
  }

  function Run(s: System, schedule: seq<nat>): System
    decreases |schedule|
  {
    if schedule == [] then s
    else if Enabled(s, schedule[0]) then Run(Next(s, schedule[0]), schedule[1..])
    else Run(s, schedule[1..])
  }

  lemma {:induction false} RunKeepsInv(s: System, init: map<Path, int>, schedule: seq<nat>)
    requires Inv(s, init)
    ensures Inv(Run(s, schedule), init)
    decreases |schedule|
  {
    hide Inv, Enabled, Next;
    if schedule != [] {
      if Enabled(s, schedule[0]) {
        StepKeepsInv(s, init, schedule[0]);
        RunKeepsInv(Next(s, schedule[0]), init, schedule[1..]);
      } else {
        RunKeepsInv(s, init, schedule[1..]);
      }
    }
  }

  /** A show that holds the root is past its first lock and not done. */
  predicate UnderWay(t: Thread) {
    t.Show? && t.phase <= 4 && (t.path != [] || t.phase >= 1)
  }

  /** Two shows are never under way at once: they take turns at the root. */
  lemma ShowsTakeTurns(s: System, init: map<Path, int>, schedule: seq<nat>, j: nat, k: nat)
    requires Initial(s, init)
    requires var ts := Run(s, schedule).threads; j < |ts| && k < |ts| && j != k && UnderWay(ts[j])
    ensures var ts := Run(s, schedule).threads; !UnderWay(ts[k])
  {
    hide Run;
    InitialInv(s, init);
    RunKeepsInv(s, init, schedule);
    var r := Run(s, schedule);
    assert ThreadInv(r, j) && ThreadInv(r, k);
    NotBothAt(r, init, [], j, k);
  }

  /** From the moment a show has printed node p until it is done with p's subtree, the
      count of p is the printed one. */
  lemma PrintedCountStays(s: System, init: map<Path, int>, schedule: seq<nat>, k: nat, p: Path)
    requires Initial(s, init)
    requires var r := Run(s, schedule); k < |r.threads| && Pending(p, r.threads[k]) && InTree(r.tree, p)
    ensures var r := Run(s, schedule); p in r.cnt && Printed(r.threads[k].out, p) == r.cnt[p]
  {
    hide Run;
    InitialInv(s, init);
    RunKeepsInv(s, init, schedule);
    var r := Run(s, schedule);
    assert ThreadInv(r, k) && NodeInv(r, init, p);
    assert Steady(r, r.threads[k], p);
  }

  /** A show that is done has printed every node once, in preorder. */
  lemma ShowIsPreorder(s: System, init: map<Path, int>, schedule: seq<nat>, k: nat)
    requires Initial(s, init)
    requires var r := Run(s, schedule); k < |r.threads| && r.threads[k].Show? && Finished(r.threads[k])
    ensures var r := Run(s, schedule); Places(r.threads[k].out) == Preorder(r.tree, [])
  {
    hide Run;
    InitialInv(s, init);
    RunKeepsInv(s, init, schedule);
    var r := Run(s, schedule);
    assert ThreadInv(r, k);
    assert Rest(r.tree, [], [], 5) == [];
  }

  lemma CountsAddUp(s: System, init: map<Path, int>, schedule: seq<nat>, p: Path)
    requires Initial(s, init) && InTree(Run(s, schedule).tree, p)
    ensures var r := Run(s, schedule);
      p in r.cnt && p in init && r.cnt[p] >= 0 && r.cnt[p] == init[p] + Gains(r.threads, p)
  {
    hide Run;
    InitialInv(s, init);
    RunKeepsInv(s, init, schedule);
    assert NodeInv(Run(s, schedule), init, p);
  }

  lemma {:induction false} RunOneMore(s: System, schedule: seq<nat>, j: nat)
    ensures var r := Run(s, schedule); Run(s, schedule + [j]) == if Enabled(r, j) then Next(r, j) else r
    decreases |schedule|
  {
    hide Enabled, Next;
    if schedule == [] {
      assert ([] + [j])[1..] == [];
      assert Run(s, [j]) == if Enabled(s, j) then Run(Next(s, j), []) else Run(s, []);
    } else {
      assert (schedule + [j])[1..] == schedule[1..] + [j];
      RunOneMore(if Enabled(s, schedule[0]) then Next(s, schedule[0]) else s, schedule[1..], j);
    }
  }

  /** Update t, which is thread k, read its count after seen turns, holding the lock, and held it
      still after done turns, when the count was what it leaves: changed by delta, if the read
      count allows that, or not at all. */
  ghost predicate Weighed(s: System, schedule: seq<nat>, k: nat, t: Thread, seen: nat, done: nat)
    requires t.Update?
  {
    && seen < |schedule| && var r := Run(s, schedule[..seen]);
    && k < |r.threads| && t.node in r.cnt && Holds(t.node, r.threads[k])
    && var c := r.cnt[t.node];
    && (t.pc == 2 ==> t.reg == c && c + t.delta >= 0)
    && (t.pc >= 3 ==>
         && (t.ok <==> c + t.delta >= 0) && seen < done <= |schedule| && var r' := Run(s, schedule[..done]);
         && k < |r'.threads| && t.node in r'.cnt && Holds(t.node, r'.threads[k])
         && r'.cnt[t.node] == if t.ok then c + t.delta else c)
  }

  /** What a turn of thread j does to update k. */
  lemma UpdateTurn(r: System, init: map<Path, int>, j: nat, k: nat)
    requires Inv(r, init) && k < |r.threads| && r.threads[k].Update?
    ensures var r' := if Enabled(r, j) then Next(r, j) else r; var t, t' := r.threads[k], r'.threads[k];
      && |r'.threads| == |r.threads| && t'.Update? && t'.node == t.node && t'.delta == t.delta
      && (t' == t || (j == k && t.pc < 4 && t.node in r.cnt && t.node in r'.cnt))
      && (t' != t && t.pc == 0 ==> t'.pc == 1)
      && (t' != t && t.pc == 1 ==> r'.cnt == r.cnt && (t'.pc == 2 || t'.pc == 3))
      && (t' != t && t.pc == 1 && t'.pc == 2 ==> t'.reg == r.cnt[t.node] && t'.reg + t.delta >= 0)
      && (t' != t && t.pc == 1 && t'.pc == 3 ==> !t'.ok && r.cnt[t.node] + t.delta < 0)
      && (t' != t && t.pc == 2 ==> t'.pc == 3 && t'.ok && r'.cnt[t.node] == t.reg + t.delta)
      && (t' != t && t.pc == 3 ==> t'.pc == 4 && t'.ok == t.ok)
  {
    hide Rest, Preorder, Reached, Steady, Return;
    assert ThreadInv(r, k) && NodeInv(r, init, r.threads[k].node);
  }

  lemma WeighTurn(s: System, init: map<Path, int>, schedule: seq<nat>, k: nat, seen: nat, done: nat)
    returns (seen': nat, done': nat)
    requires schedule != []
    requires var n := |schedule| - 1; var r := Run(s, schedule[..n]);
      && Inv(r, init) && k < |r.threads| && r.threads[k].Update?
      && (r.threads[k].pc >= 2 ==> Weighed(s, schedule[..n], k, r.threads[k], seen, done))
      && Run(s, schedule) == if Enabled(r, schedule[n]) then Next(r, schedule[n]) else r
    ensures var ts := Run(s, schedule).threads;
      && |ts| == |Run(s, schedule[..|schedule| - 1]).threads| && ts[k].Update?
      && ts[k].node == Run(s, schedule[..|schedule| - 1]).threads[k].node
      && ts[k].delta == Run(s, schedule[..|schedule| - 1]).threads[k].delta
      && (ts[k].pc >= 2 ==> Weighed(s, schedule, k, ts[k], seen', done'))
  {
    hide Run, Enabled, Next, Inv;
    var n := |schedule| - 1;
    var prev, r, r' := schedule[..n], Run(s, schedule[..n]), Run(s, schedule);
    UpdateTurn(r, init, schedule[n], k);
    var t, t' := r.threads[k], r'.threads[k];
    assert schedule[..n + 1] == schedule;
    seen' := if t' != t && t.pc == 1 then n else seen;
    done' := if t' != t && (t.pc == 1 || t.pc == 2) then n + 1 else done;
    if t.pc >= 2 {
      assert schedule[..seen] == prev[..seen];
      assert done <= n ==> schedule[..done] == prev[..done];
    }
  }

  lemma {:induction false} WeighedSoFar(s: System, init: map<Path, int>, schedule: seq<nat>, k: nat)
    returns (seen: nat, done: nat)
    requires Initial(s, init) && k < |s.threads| && s.threads[k].Update?
    ensures var ts := Run(s, schedule).threads;
      && |ts| == |s.threads| && ts[k].Update? && ts[k].node == s.threads[k].node && ts[k].delta == s.threads[k].delta
      && (ts[k].pc >= 2 ==> Weighed(s, schedule, k, ts[k], seen, done))
    decreases |schedule|
  {
    hide Enabled, Next, Weighed;
    InitialInv(s, init);
    if schedule == [] {
      assert Unstarted(s, s.threads[k]);
      seen, done := 0, 0;
    } else {
      var n := |schedule| - 1;
      seen, done := WeighedSoFar(s, init, schedule[..n], k);
      RunKeepsInv(s, init, schedule[..n]);
      assert schedule == schedule[..n] + [schedule[n]];
      RunOneMore(s, schedule[..n], schedule[n]);
      seen, done := WeighTurn(s, init, schedule, k, seen, done);
    }
  }

  /** Every update that is done was decided at some time when it held the lock: it succeeded if and
      only if the count of its node was then enough, and it left that count changed by its delta,
      or, if it was refused, as it was. */
  lemma UpdateDecides(s: System, init: map<Path, int>, schedule: seq<nat>, k: nat) returns (seen: nat, done: nat)
    requires Initial(s, init) && k < |s.threads| && s.threads[k].Update?
    requires k < |Run(s, schedule).threads| && Finished(Run(s, schedule).threads[k])
    ensures Run(s, schedule).threads[k].Update? && seen < done <= |schedule|
    ensures var u, r, r' := s.threads[k], Run(s, schedule[..seen]), Run(s, schedule[..done]);
      && k < |r.threads| && k < |r'.threads| && u.node in r.cnt && u.node in r'.cnt
      && Holds(u.node, r.threads[k]) && Holds(u.node, r'.threads[k])
      && (Run(s, schedule).threads[k].ok <==> r.cnt[u.node] + u.delta >= 0)
      && r'.cnt[u.node] == r.cnt[u.node] + if r.cnt[u.node] + u.delta >= 0 then u.delta else 0
  {
    hide Run;
    seen, done := WeighedSoFar(s, init, schedule, k);
  }

  // Deadlock freedom

  /** Whoever waits for a node holds only proper ancestors of it. */
  lemma WaitsBelow(s: System, t: Thread, p: Path)
    requires Wants(s, t) && Holds(p, t)
    ensures p < Target(t)
  {
  }

  /** Follow the threads from holder to holder: each waits further down, so one can run. */
  lemma {:induction false} NeverStuck(s: System, init: map<Path, int>, k: nat) returns (j: nat)
    requires Inv(s, init) && k < |s.threads| && !Finished(s.threads[k])
    ensures Enabled(s, j)
    decreases Height(s.tree) - |Target(s.threads[k])|, if s.threads[k].Show? then 0 else 1
  {
    hide Count, Gains, Rest, Preorder, InTree, Reached, Height, Printed;
    var p := Target(s.threads[k]);
    assert ThreadInv(s, k) && NodeInv(s, init, p);
    if Enabled(s, k) {
      j := k;
    } else {
      PathIsShort(s.tree, p);
      var i := Witness(s.threads, p, Holds);
      var q := Target(s.threads[i]);
      assert ThreadInv(s, i) && NodeInv(s, init, q);
      if Enabled(s, i) {
        j := i;
      } else {
        WaitsBelow(s, s.threads[i], p);
        PathIsShort(s.tree, q);
        j := NeverStuck(s, init, i);
      }
    }
  }

  /** The steps that a thread still takes. */
  function Left(tree: Tree, t: Thread): nat {
    match t
    case Show(path, phase, _) => Steps(tree, path, phase)
    case Update(_, _, pc, _, _) => if pc <= 4 then 4 - pc else 0
  }

  function Work(tree: Tree, ts: seq<Thread>): nat {
    if ts == [] then 0 else Left(tree, ts[0]) + Work(tree, ts[1..])
  }

  lemma {:induction false} WorkUpdate(tree: Tree, ts: seq<Thread>, k: nat, t: Thread)
    requires k < |ts|
    ensures Work(tree, ts[k := t]) == Work(tree, ts) - Left(tree, ts[k]) + Left(tree, t)
  {
    if k == 0 {
      assert ts[0 := t][1..] == ts[1..];
    } else {
      assert ts[k := t][1..] == ts[1..][k - 1 := t];
      WorkUpdate(tree, ts[1..], k - 1, t);
    }
  }

  lemma StepShortensWork(s: System, k: nat)
    requires Enabled(s, k)
    ensures Next(s, k).tree == s.tree && Work(s.tree, Next(s, k).threads) < Work(s.tree, s.threads)
  {
    hide Work, Steps;
    WorkUpdate(s.tree, s.threads, k, Next(s, k).threads[k]);
    if s.threads[k].Show? {
      OwnRest(s, k);
    }
  }

  /** Whatever was scheduled so far, every show and every update can still finish. */
  lemma {:induction false} EveryoneFinishes(s: System, init: map<Path, int>) returns (schedule: seq<nat>)
    requires Inv(s, init)
    ensures forall k {:trigger Run(s, schedule).threads[k]} :: 0 <= k < |Run(s, schedule).threads| ==>
      Finished(Run(s, schedule).threads[k])
    decreases Work(s.tree, s.threads)
  {
    hide Inv, Enabled, Next, Finished, Work;
    if k :| 0 <= k < |s.threads| && !Finished(s.threads[k]) {
      var j := NeverStuck(s, init, k);
      StepKeepsInv(s, init, j);
      StepShortensWork(s, j);
      var rest := EveryoneFinishes(Next(s, j), init);
      schedule := [j] + rest;
      assert schedule[1..] == rest;
    } else {
      schedule := [];
    }
  }

  /** A schedule that never gives a turn to a blocked thread is no longer than the work there is. */
  ghost predicate Productive(s: System, schedule: seq<nat>)
    decreases |schedule|
  {
    schedule == [] || (Enabled(s, schedule[0]) && Productive(Next(s, schedule[0]), schedule[1..]))
  }

  lemma {:induction false} RunsAreFinite(s: System, schedule: seq<nat>)
    requires Productive(s, schedule)
    ensures |schedule| + Work(s.tree, Run(s, schedule).threads) <= Work(s.tree, s.threads)
    decreases |schedule|
  {
    hide Enabled, Next, Work;
    if schedule != [] {
      StepShortensWork(s, schedule[0]);
      RunsAreFinite(Next(s, schedule[0]), schedule[1..]);
    }
  }
}
