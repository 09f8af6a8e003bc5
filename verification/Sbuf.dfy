/** stockserver.c's sbuf_t, in place. */
module Sbuf {
  // Every step of a call writes one field or one slot.

  import opened BoundedBuffer

  /** sem_t */
  class Semaphore {
    var value: int

    constructor (value: int)
      ensures this.value == value
    {
      this.value := value;
    }

    /** P, once it can succeed. */
    method P()
      requires value > 0
      modifies this
      ensures value == old(value) - 1
    {
      value := value - 1;
    }

    method V()
      modifies this
      ensures value == old(value) + 1
    {
      value := value + 1;
    }
  }

  lemma HasItem(s: System, plans: seq<seq<int>>, k: nat)
    requires Inv(s, plans) && k < |s.threads|
    ensures s.threads[k].Producer? && s.threads[k].pc == 4 ==> s.threads[k].todo != []
  {
    assert Delivers(s, plans, k);
  }

  class Server {
    const buf: array<int>
    var front: nat
    var rear: nat
    const mutex: Semaphore
    const slots: Semaphore
    const items: Semaphore
    var threads: seq<Thread>
    ghost var inserted: seq<Entry>
    ghost var consumed: seq<Entry>

    /** The three semaphores are different objects. */
    ghost predicate Valid() {
      buf.Length > 0 && mutex != slots && mutex != items && slots != items
    }

    ghost function Repr(): set<object> {
      {this, buf, mutex, slots, items}
    }

    ghost function View(): System
      reads Repr()
    {
      System(buf[..], front, rear, mutex.value, slots.value, items.value, threads, inserted, consumed)
    }

    /** sbuf_init, and one thread per plan: a producer where isProducer says so. */
    constructor (n: nat, plans: seq<seq<int>>, isProducer: seq<bool>)
      requires n > 0 && |isProducer| == |plans|
      ensures Valid() && fresh(Repr()) && buf.Length == n && Initial(View(), plans)
      ensures forall k {:trigger threads[k]} :: 0 <= k < |plans| ==> threads[k].Producer? == isProducer[k]
    {
      buf := new int[n](_ => 0);
      front, rear := 0, 0;
      mutex := new Semaphore(1);
      slots := new Semaphore(n);
      items := new Semaphore(0);
      threads := seq(|plans|, i requires 0 <= i < |plans| =>
        if isProducer[i] then Producer(0, 0, plans[i]) else Consumer(0, 0, 0, []));
      inserted, consumed := [], [];
    }

    /** P succeeds at once or the caller has to wait. */
    predicate Ready(k: nat)
      reads Repr()
    {
      && k < |threads|
      && match threads[k]
         case Producer(pc, _, todo) => (pc == 0 ==> todo != [] && slots.value > 0) && (pc == 1 ==> mutex.value > 0)
         case Consumer(pc, _, _, _) => (pc == 0 ==> items.value > 0) && (pc == 1 ==> mutex.value > 0)
    }

    /** One step of sbuf_insert by thread k. */
    method InsertStep(k: nat)
      requires Valid() && Ready(k) && threads[k].Producer? && (threads[k].pc == 4 ==> threads[k].todo != [])
      modifies Repr()
      ensures View() == Next(old(View()), k)
    {
      var pc, reg, todo := threads[k].pc, threads[k].reg, threads[k].todo;
      if pc == 0 {
        slots.P();
        threads := threads[k := Producer(1, reg, todo)];
      } else if pc == 1 {
        mutex.P();
        threads := threads[k := Producer(2, reg, todo)];
      } else if pc == 2 {
        threads := threads[k := Producer(3, rear, todo)];
      } else if pc == 3 {
        rear := reg + 1;
        threads := threads[k := Producer(4, reg, todo)];
      } else if pc == 4 {
        buf[(reg + 1) % buf.Length] := todo[0];
        inserted := inserted + [Entry(k, todo[0])];
        threads := threads[k := Producer(5, reg, todo[1..])];
      } else if pc == 5 {
        mutex.V();
        threads := threads[k := Producer(6, reg, todo)];
      } else {
        items.V();
        threads := threads[k := Producer(0, reg, todo)];
      }
    }

    /** One step of sbuf_remove by thread k. */
    method RemoveStep(k: nat)
      requires Valid() && Ready(k) && threads[k].Consumer?
      modifies Repr()
      ensures View() == Next(old(View()), k)
    {
      var pc, reg, item, got := threads[k].pc, threads[k].reg, threads[k].item, threads[k].got;
      if pc == 0 {
        items.P();
        threads := threads[k := Consumer(1, reg, item, got)];
      } else if pc == 1 {
        mutex.P();
        threads := threads[k := Consumer(2, reg, item, got)];
      } else if pc == 2 {
        threads := threads[k := Consumer(3, front, item, got)];
      } else if pc == 3 {
        front := reg + 1;
        threads := threads[k := Consumer(4, reg, item, got)];
      } else if pc == 4 {
        item := buf[(reg + 1) % buf.Length];
        consumed := consumed + [Entry(k, item)];
        threads := threads[k := Consumer(5, reg, item, got)];
      } else if pc == 5 {
        mutex.V();
        threads := threads[k := Consumer(6, reg, item, got)];
      } else {
        slots.V();
        threads := threads[k := Consumer(0, reg, item, got + [item])];
      }
    }

    /** The threads take turns as the schedule says. */
    method Serve(schedule: seq<nat>, ghost plans: seq<seq<int>>)
      requires Valid() && Inv(View(), plans)
      modifies Repr()
      ensures View() == Run(old(View()), schedule) && Inv(View(), plans)
    {
      hide Inv, Next, Enabled;
      BufferStays(View(), plans);
      assert schedule[0..] == schedule;
      var i := 0;
      while i < |schedule|
        invariant i <= |schedule| && Inv(View(), plans)
        invariant Run(View(), schedule[i..]) == Run(old(View()), schedule)
      {
        var k := schedule[i];
        assert schedule[i..][1..] == schedule[i + 1..];
        ghost var s := View();
        ReadyMeansEnabled(k);
        if Ready(k) {
          HasItem(s, plans, k);
          StepKeepsInv(s, plans, k);
          if threads[k].Producer? {
            InsertStep(k);
          } else {
            RemoveStep(k);
          }
        }
        i := i + 1;
      }
      assert schedule[i..] == [];
    }

    lemma ReadyMeansEnabled(k: nat)
      ensures Ready(k) <==> Enabled(View(), k)
    {
    }
  }
}
