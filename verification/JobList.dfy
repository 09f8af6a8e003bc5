/** The job list of myshell.c. */
module JobList {
  // A doubly linked list whose ids grow from first to last.

  datatype Status = Running | Stopped

  class Job {
    var prev: Job?
    var next: Job?
    var id: int
    var status: Status
    var pid: int

    constructor (pid: int, id: int, status: Status)
      ensures this.pid == pid && this.id == id && this.status == status && prev == null && next == null
    {
      this.pid, this.id, this.status := pid, id, status;
      prev, next := null, null;
    }
  }

  /** The fields of the jobs of a list, job by job. */
  datatype Fields = Fields(prev: seq<Job?>, next: seq<Job?>, id: seq<int>, pid: seq<int>)

  ghost function Snap(jobs: seq<Job>): (f: Fields)
    reads jobs
    ensures |f.prev| == |f.next| == |f.id| == |f.pid| == |jobs|
  {
    Fields(seq(|jobs|, i requires 0 <= i < |jobs| reads jobs => jobs[i].prev),
           seq(|jobs|, i requires 0 <= i < |jobs| reads jobs => jobs[i].next),
           seq(|jobs|, i requires 0 <= i < |jobs| reads jobs => jobs[i].id),
           seq(|jobs|, i requires 0 <= i < |jobs| reads jobs => jobs[i].pid))
  }

  /** Entry i, or null beyond either end. */
  function Nth(jobs: seq<Job>, i: int): Job? {
    if 0 <= i < |jobs| then jobs[i] else null
  }

  ghost predicate LinkedAt(jobs: seq<Job>, f: Fields, i: nat)
    requires i < |jobs| == |f.prev| == |f.next| == |f.id|
  {
    f.prev[i] == Nth(jobs, i - 1) && f.next[i] == Nth(jobs, i + 1) && f.id[i] >= 1
  }

  ghost predicate Ordered(jobs: seq<Job>, f: Fields, i: nat, j: nat)
    requires i < |jobs| == |f.id| && j < |jobs|
  {
    i < j ==> jobs[i] != jobs[j] && f.id[i] < f.id[j]
  }

  /** Forward and backward links run through the same jobs, whose ids strictly increase. */
  ghost predicate Chain(jobs: seq<Job>, f: Fields) {
    && |jobs| == |f.prev| == |f.next| == |f.id| == |f.pid|
    && (forall i {:trigger LinkedAt(jobs, f, i)} :: 0 <= i < |jobs| ==> LinkedAt(jobs, f, i))
    && (forall i, j {:trigger Ordered(jobs, f, i, j)} :: 0 <= i < |jobs| && 0 <= j < |jobs| ==> Ordered(jobs, f, i, j))
  }

  /** The id that the next job gets. */
  function NextId(ids: seq<int>): int {
    if ids == [] then 1 else ids[|ids| - 1] + 1
  }

  function Cut<T>(s: seq<T>, k: nat): seq<T>
    requires k < |s|
  {
    s[..k] + s[k + 1..]
  }

  lemma ChainFacts(jobs: seq<Job>, f: Fields)
    requires Chain(jobs, f)
    ensures forall i, j {:trigger jobs[i], jobs[j]} :: 0 <= i < |jobs| && 0 <= j < |jobs| && i != j ==>
      jobs[i] != jobs[j]
    ensures forall i {:trigger f.id[i]} :: 0 <= i < |jobs| ==> 1 <= f.id[i] < NextId(f.id)
  {
    forall i, j | 0 <= i < |jobs| && 0 <= j < |jobs| && i != j ensures jobs[i] != jobs[j] {
      assert Ordered(jobs, f, i, j) && Ordered(jobs, f, j, i);
    }
    forall i | 0 <= i < |jobs| ensures 1 <= f.id[i] < NextId(f.id) {
      assert LinkedAt(jobs, f, i) && Ordered(jobs, f, i, |jobs| - 1);
    }
  }

  /** Appending x with the next id. */
  lemma AppendKeepsChain(jobs: seq<Job>, f: Fields, x: Job, f': Fields)
    requires Chain(jobs, f) && x !in jobs
    requires var n := |jobs|;
      && f'.prev == f.prev + [Nth(jobs, n - 1)] && f'.id == f.id + [NextId(f.id)] && |f'.pid| == n + 1
      && f'.next == (if n > 0 then f.next[n - 1 := x] else []) + [null]
    ensures Chain(jobs + [x], f')
  {
    ChainFacts(jobs, f);
    var jobs' := jobs + [x];
    forall i | 0 <= i < |jobs'| ensures LinkedAt(jobs', f', i) {
      assert i < |jobs| ==> LinkedAt(jobs, f, i);
      assert |jobs| > 0 ==> LinkedAt(jobs, f, |jobs| - 1);
    }
    forall i, j | 0 <= i < |jobs'| && 0 <= j < |jobs'| ensures Ordered(jobs', f', i, j) {
      assert i < |jobs| && j < |jobs| ==> Ordered(jobs, f, i, j);
    }
  }

  /** Where entry i of a list without entry k comes from. */
  function From(k: nat, i: nat): nat {
    if i < k then i else i + 1
  }

  /** The links of the neighbours of job k now bypass it. */
  ghost predicate Bypassed(jobs: seq<Job>, f: Fields, k: nat, f': Fields)
    requires k < |jobs| == |f.prev| == |f.next| == |f.id| == |f.pid|
  {
    && |f'.prev| == |f'.next| == |jobs| && f'.id == f.id && f'.pid == f.pid
    && (forall i {:trigger f'.prev[i]} :: 0 <= i < |jobs| ==> f'.prev[i] == if i == k + 1 then f.prev[k] else f.prev[i])
    && (forall i {:trigger f'.next[i]} :: 0 <= i < |jobs| ==> f'.next[i] == if i + 1 == k then f.next[k] else f.next[i])
  }

  function CutFields(f: Fields, k: nat): Fields
    requires k < |f.prev| == |f.next| == |f.id| == |f.pid|
  {
    Fields(Cut(f.prev, k), Cut(f.next, k), Cut(f.id, k), Cut(f.pid, k))
  }

  lemma CutKeepsChain(jobs: seq<Job>, f: Fields, k: nat, f': Fields)
    requires Chain(jobs, f) && k < |jobs| && Bypassed(jobs, f, k, f')
    ensures Chain(Cut(jobs, k), CutFields(f', k))
  {
    var jobs', g := Cut(jobs, k), CutFields(f', k);
    assert LinkedAt(jobs, f, k);
    forall i | 0 <= i < |jobs'| ensures LinkedAt(jobs', g, i) {
      var i0 := From(k, i);
      assert LinkedAt(jobs, f, i0);
      assert g.prev[i] == f'.prev[i0] && g.next[i] == f'.next[i0] && g.id[i] == f.id[i0];
    }
    forall i, j | 0 <= i < |jobs'| && 0 <= j < |jobs'| ensures Ordered(jobs', g, i, j) {
      assert Ordered(jobs, f, From(k, i), From(k, j));
    }
  }

  /** First job, last job and next id once job k is gone. */
  lemma EndsAfterCut(jobs: seq<Job>, f: Fields, k: nat)
    requires Chain(jobs, f) && k < |jobs|
    ensures var cut := Cut(jobs, k); var last := |jobs| - 1;
      && (jobs[k] == jobs[0] <==> k == 0) && (jobs[k] == jobs[last] <==> k == last)
      && Nth(cut, 0) == (if k == 0 then f.next[k] else jobs[0])
      && Nth(cut, |cut| - 1) == (if k == last then f.prev[k] else jobs[last])
      && (f.prev[k] == null <==> k == 0) && (k > 0 ==> f.prev[k] == jobs[k - 1])
      && NextId(Cut(f.id, k)) == (if k < last then NextId(f.id) else if k == 0 then 1 else f.id[k - 1] + 1)
  {
    ChainFacts(jobs, f);
    assert LinkedAt(jobs, f, k);
  }

  lemma SnapOfCut(jobs: seq<Job>, k: nat)
    requires k < |jobs|
    ensures Snap(Cut(jobs, k)) == CutFields(Snap(jobs), k)
  {
    var c := Cut(jobs, k);
    assert forall i :: 0 <= i < |c| ==> c[i] == jobs[From(k, i)];
  }

  /** In a chain at most one job has a given id. */
  lemma IdsAreUnique(jobs: seq<Job>, f: Fields, i: nat, j: nat)
    requires Chain(jobs, f) && i < |jobs| && j < |jobs| && f.id[i] == f.id[j]
    ensures i == j
  {
    assert Ordered(jobs, f, i, j) && Ordered(jobs, f, j, i);
  }

  /** node->prev->next and node->next->prev bypass the job. */
  method Bypass(job: Job, ghost jobs: seq<Job>, ghost k: nat)
    requires Chain(jobs, Snap(jobs)) && k < |jobs| && jobs[k] == job
    modifies jobs`prev, jobs`next
    ensures Bypassed(jobs, old(Snap(jobs)), k, Snap(jobs))
    ensures forall j {:trigger j.status} :: j in jobs ==> j.status == old(j.status)
  {
    ghost var f := Snap(jobs);
    ChainFacts(jobs, f);
    assert LinkedAt(jobs, f, k);
    if job.next != null {
      job.next.prev := job.prev;
    }
    if job.prev != null {
      job.prev.next := job.next;
    }
    assert Snap(jobs).id == f.id && Snap(jobs).pid == f.pid;
  }

  /** The next id, read off the last job. */
  lemma NextIdIs(jobs: seq<Job>)
    ensures NextId(Snap(jobs).id) == if jobs == [] then 1 else jobs[|jobs| - 1].id + 1
  {
  }

  class Shell {
    var firstJob: Job?
    var lastJob: Job?
    var currentJobId: int
    ghost var jobs: seq<Job>

    ghost predicate Valid()
      reads this, jobs
    {
      && Chain(jobs, Snap(jobs)) && firstJob == Nth(jobs, 0) && lastJob == Nth(jobs, |jobs| - 1)
      && currentJobId == NextId(Snap(jobs).id)
    }

    constructor ()
      ensures Valid() && jobs == []
    {
      firstJob, lastJob, currentJobId, jobs := null, null, 1, [];
    }

    /** create_bg_process: the new job goes last, with an id larger than every live one. */
    method CreateBgProcess(pid: int, isStop: bool) returns (job: Job)
      requires Valid()
      modifies this, jobs`prev, jobs`next
      ensures Valid() && fresh(job) && jobs == old(jobs) + [job] && job.status == (if isStop then Stopped else Running)
      ensures Snap(jobs).id == old(Snap(jobs).id) + [old(currentJobId)] && Snap(jobs).pid == old(Snap(jobs).pid) + [pid]
      ensures forall i {:trigger old(Snap(jobs).id)[i]} :: 0 <= i < |old(jobs)| ==>
        old(Snap(jobs).id)[i] < old(currentJobId)
      ensures job.id == (if old(jobs) == [] then 1 else old(jobs)[|old(jobs)| - 1].id + 1)
      ensures currentJobId == job.id + 1 && job.pid == pid
      ensures forall j {:trigger j.status} :: j in old(jobs) ==> j.status == old(j.status)
    {
      ghost var was, f := jobs, Snap(jobs);
      NextIdIs(jobs);
      ChainFacts(was, f);
      job := new Job(pid, currentJobId, if isStop then Stopped else Running);
      assert job !in was;
      currentJobId := currentJobId + 1;
      if firstJob == null {
        firstJob := job;
      }
      if lastJob != null {
        lastJob.next := job;
        job.prev := lastJob;
      }
      lastJob := job;
      jobs := was + [job];
      AppendKeepsChain(was, f, job, Snap(jobs));
    }

    /** remove_job_node: takes a member out; the next id is computed anew if it was the last. */
    method RemoveJobNode(job: Job, ghost k: nat)
      requires Valid() && k < |jobs| && jobs[k] == job
      modifies this, jobs`prev, jobs`next
      ensures Valid() && jobs == Cut(old(jobs), k)
      ensures Snap(jobs).id == Cut(old(Snap(jobs).id), k) && Snap(jobs).pid == Cut(old(Snap(jobs).pid), k)
      ensures currentJobId == if jobs == [] then 1 else jobs[|jobs| - 1].id + 1
      ensures forall j {:trigger j.status} :: j in old(jobs) ==> j.status == old(j.status)
    {
      hide Chain, Bypassed, Cut, NextId;
      ghost var was, f := jobs, Snap(jobs);
      EndsAfterCut(was, f, k);
      if job == firstJob {
        firstJob := job.next;
      }
      if job == lastJob {
        lastJob := job.prev;
        if lastJob == null {
          currentJobId := 1;
        } else {
          currentJobId := lastJob.id + 1;
        }
      }
      Bypass(job, was, k);
      CutKeepsChain(was, f, k, Snap(was));
      SnapOfCut(was, k);
      jobs := Cut(was, k);
      NextIdIs(jobs);
    }

    /** The lookups of kill, fg and bg: the job with the id, or null if there is none. */
    method FindJob(id: int) returns (job: Job?, ghost k: int)
      requires Valid()
      ensures job == null <==> forall i :: 0 <= i < |jobs| ==> jobs[i].id != id
      ensures job != null ==>
        0 <= k < |jobs| && job == jobs[k] && job.id == id && forall i :: 0 <= i < |jobs| && i != k ==> jobs[i].id != id
    {
      job := firstJob;
      k := 0;
      while job != null
        invariant 0 <= k <= |jobs| && job == Nth(jobs, k)
        invariant forall i :: 0 <= i < k ==> jobs[i].id != id
        decreases |jobs| - k
      {
        assert LinkedAt(jobs, Snap(jobs), k);
        if job.id == id {
          forall i | 0 <= i < |jobs| && jobs[i].id == id ensures i == k {
            IdsAreUnique(jobs, Snap(jobs), i, k);
          }
          return;
        }
        job := job.next;
        k := k + 1;
      }
    }

    /** Walking back from the last job meets the jobs of the forward walk, in reverse. */
    method WalkBack() returns (seen: seq<Job>)
      requires Valid()
      ensures |seen| == |jobs| && forall i :: 0 <= i < |jobs| ==> seen[i] == jobs[|jobs| - 1 - i]
    {
      seen := [];
      var job := lastJob;
      ghost var k := |jobs| - 1;
      while job != null
        invariant -1 <= k < |jobs| && job == Nth(jobs, k) && |seen| == |jobs| - 1 - k
        invariant forall i :: 0 <= i < |seen| ==> seen[i] == jobs[|jobs| - 1 - i]
        decreases k + 1
      {
        assert LinkedAt(jobs, Snap(jobs), k);
        seen := seen + [job];
        job := job.prev;
        k := k - 1;
      }
    }
  }
}
