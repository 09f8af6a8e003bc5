/** The client pool of the select server. */
module SelectPool {
  // Which descriptors are watched, which slot each client has, and what one round of the
  // server loop does.

  const FD_SETSIZE: nat := 1024

  ghost predicate SlotOk(slots: seq<int>, readSet: set<int>, listenfd: int, j: nat)
    requires j < |slots|
  {
    slots[j] >= -1 && (slots[j] >= 0 ==> slots[j] in readSet && slots[j] != listenfd)
  }

  ghost predicate Apart(slots: seq<int>, j: nat, k: nat)
    requires j < |slots| && k < |slots|
  {
    slots[j] >= 0 ==> slots[j] != slots[k]
  }

  /** The listening descriptor and exactly the occupied slots are watched; maxi and maxfd
      bound the slots in use and the watched descriptors. */
  ghost predicate PoolOk(listenfd: int, maxfd: int, maxi: int, readSet: set<int>, slots: seq<int>) {
    && |slots| == FD_SETSIZE && -1 <= maxi < FD_SETSIZE && listenfd in readSet
    && (forall j {:trigger SlotOk(slots, readSet, listenfd, j)} :: 0 <= j < |slots| ==>
         SlotOk(slots, readSet, listenfd, j))
    && (forall j, k {:trigger Apart(slots, j, k)} :: 0 <= j < |slots| && 0 <= k < |slots| && j != k ==>
         Apart(slots, j, k))
    && (forall j {:trigger slots[j]} :: maxi < j < |slots| ==> slots[j] == -1)
    && (forall fd {:trigger fd in readSet} :: fd in readSet ==> 0 <= fd <= maxfd && (fd == listenfd || fd in slots))
  }

  /** The clients that a pass over these slots serves: ready ones, but never descriptor 0. */
  function Served(slots: seq<int>, ready: set<int>): seq<int> {
    if slots == [] then []
    else
      var fd := slots[|slots| - 1];
      Served(slots[..|slots| - 1], ready) + if fd > 0 && fd in ready then [fd] else []
  }

  function Members(s: seq<int>): set<int> {
    set x | x in s
  }

  ghost predicate Distinct(slots: seq<int>) {
    forall j, k {:trigger Apart(slots, j, k)} :: 0 <= j < |slots| && 0 <= k < |slots| && j != k ==> Apart(slots, j, k)
  }

  ghost predicate NoRepeats(s: seq<int>) {
    forall j, k {:trigger s[j], s[k]} :: 0 <= j < k < |s| ==> s[j] != s[k]
  }

  lemma LastIsNew(slots: seq<int>)
    requires Distinct(slots) && slots != [] && slots[|slots| - 1] >= 0
    ensures slots[|slots| - 1] !in slots[..|slots| - 1]
  {
    var n := |slots| - 1;
    forall j | 0 <= j < n ensures slots[..n][j] != slots[n] {
      assert Apart(slots, n, j);
    }
  }

  lemma {:induction false} Cardinality(slots: seq<int>)
    requires Distinct(slots) && forall j {:trigger slots[j]} :: 0 <= j < |slots| ==> slots[j] >= 0
    ensures |Members(slots)| == |slots|
  {
    if slots != [] {
      var n := |slots| - 1;
      var init := slots[..n];
      forall j, k | 0 <= j < n && 0 <= k < n && j != k ensures Apart(init, j, k) {
        assert Apart(slots, j, k);
      }
      Cardinality(init);
      LastIsNew(slots);
      assert slots == init + [slots[n]];
      assert Members(slots) == Members(init) + {slots[n]};
    }
  }

  function Below(n: nat): (s: set<int>)
    ensures |s| == n && forall x :: x in s <==> 0 <= x < n
  {
    if n == 0 then {} else Below(n - 1) + {n - 1}
  }

  lemma SubsetCount(a: set<int>, b: set<int>)
    requires a <= b
    ensures |a| <= |b| && (|a| == |b| ==> a == b)
  {
    assert b == a + (b - a);
    if |a| == |b| {
      assert |b - a| == 0;
    }
  }

  lemma DropCount(a: set<int>, x: int)
    ensures |a| - |a - {x}| == if x in a then 1 else 0
  {
    if x in a {
      assert a == (a - {x}) + {x};
    } else {
      assert a == a - {x};
    }
  }

  /** Different numbers below n other than x are fewer than n. */
  lemma FewerThan(slots: seq<int>, n: nat, x: int)
    requires Distinct(slots) && 0 <= x < n
    requires forall j {:trigger slots[j]} :: 0 <= j < |slots| ==> 0 <= slots[j] < n && slots[j] != x
    ensures |slots| < n
  {
    hide Distinct;
    Cardinality(slots);
    SubsetCount(Members(slots), Below(n) - {x});
    DropCount(Below(n), x);
  }

  /** As long as every watched descriptor fits into an fd_set, some slot is free: the listening
      descriptor takes one of the FD_SETSIZE numbers, so the clients cannot fill the slots. */
  lemma SlotIsFree(listenfd: int, maxfd: int, maxi: int, readSet: set<int>, slots: seq<int>) returns (i: nat)
    requires PoolOk(listenfd, maxfd, maxi, readSet, slots)
    requires forall fd {:trigger fd in readSet} :: fd in readSet ==> fd < FD_SETSIZE
    ensures i < |slots| && slots[i] < 0
  {
    if j :| 0 <= j < |slots| && slots[j] < 0 {
      i := j;
    } else {
      i := 0;
      forall j | 0 <= j < |slots| ensures 0 <= slots[j] < |slots| && slots[j] != listenfd {
        assert SlotOk(slots, readSet, listenfd, j);
      }
      FewerThan(slots, |slots|, listenfd);
    }
  }

  lemma ServedStep(slots: seq<int>, ready: set<int>, i: nat)
    requires i < |slots|
    ensures var s := Served(slots[..i], ready);
      Served(slots[..i + 1], ready) == if slots[i] > 0 && slots[i] in ready then s + [slots[i]] else s
  {
    assert slots[..i + 1][..i] == slots[..i];
    assert Served(slots[..i], ready) + [] == Served(slots[..i], ready);
  }

  lemma {:induction false} ServedMembers(slots: seq<int>, ready: set<int>)
    ensures forall fd {:trigger fd in Served(slots, ready)} :: fd in Served(slots, ready) <==>
      fd in slots && fd > 0 && fd in ready
  {
    if slots != [] {
      var init := slots[..|slots| - 1];
      ServedMembers(init, ready);
      assert slots == init + [slots[|slots| - 1]];
    }
  }

  /** Every ready client is served once. */
  lemma {:induction false} ServedOnce(slots: seq<int>, ready: set<int>)
    requires Distinct(slots)
    ensures NoRepeats(Served(slots, ready)) && |Members(Served(slots, ready))| == |Served(slots, ready)|
    ensures Members(Served(slots, ready)) <= ready
  {
    if slots != [] {
      var init, fd := slots[..|slots| - 1], slots[|slots| - 1];
      forall j, k | 0 <= j < |init| && 0 <= k < |init| && j != k ensures Apart(init, j, k) {
        assert Apart(slots, j, k);
      }
      ServedOnce(init, ready);
      ServedMembers(init, ready);
      var s := Served(init, ready);
      assert s + [] == s;
      if fd > 0 && fd in ready {
        LastIsNew(slots);
        assert Served(slots, ready) == s + [fd];
        assert Members(s + [fd]) == Members(s) + {fd};
      } else {
        assert Served(slots, ready) == s;
      }
    }
  }

  lemma {:induction false} ServedFront(slots: seq<int>, ready: set<int>, i: nat)
    requires i <= |slots|
    ensures |Served(slots[..i], ready)| <= |Served(slots, ready)|
    ensures |Served(slots[..i], ready)| == |Served(slots, ready)| ==> Served(slots[..i], ready) == Served(slots, ready)
  {
    if i == |slots| {
      assert slots[..i] == slots;
    } else {
      var n := |slots| - 1;
      ServedFront(slots[..n], ready, i);
      assert slots[..n][..i] == slots[..i];
    }
  }

  /** Once as many were served as are ready, the rest of the slots holds no ready client. */
  /** The clients are served in the order of their slots. */
  lemma {:induction false} ServedInOrder(slots: seq<int>, clients: set<int>) returns (at: seq<nat>)
    ensures |at| == |Served(slots, clients)|
    ensures forall i {:trigger at[i]} :: 0 <= i < |at| ==> at[i] < |slots| && slots[at[i]] == Served(slots, clients)[i]
    ensures forall i, j {:trigger at[i], at[j]} :: 0 <= i < j < |at| ==> at[i] < at[j]
  {
    at := [];
    if slots != [] {
      var n := |slots| - 1;
      at := ServedInOrder(slots[..n], clients);
      if slots[n] > 0 && slots[n] in clients {
        at := at + [n];
      }
    }
  }

  lemma NothingLeft(slots: seq<int>, clients: set<int>, i: nat)
    requires Distinct(slots) && i <= |slots| && |Served(slots[..i], clients)| >= |clients|
    ensures Served(slots[..i], clients) == Served(slots, clients) && |Served(slots, clients)| == |clients|
  {
    ServedOnce(slots, clients);
    SubsetCount(Members(Served(slots, clients)), clients);
    ServedFront(slots, clients, i);
  }

  lemma PassMembers(slots: seq<int>, clients: set<int>)
    requires forall fd {:trigger fd in clients} :: fd in clients ==> fd >= 0 && fd in slots
    ensures Members(Served(slots, clients)) == clients - {0}
  {
    ServedMembers(slots, clients);
    forall x ensures x in Members(Served(slots, clients)) <==> x in clients - {0} {
      assert x in Members(Served(slots, clients)) <==> x in Served(slots, clients);
    }
  }

  /** A whole pass misses nobody but a client with descriptor 0. */
  lemma WholePass(slots: seq<int>, clients: set<int>)
    requires Distinct(slots) && forall fd {:trigger fd in clients} :: fd in clients ==> fd >= 0 && fd in slots
    ensures Members(Served(slots, clients)) == clients - {0}
    ensures |clients| - |Served(slots, clients)| == if 0 in clients then 1 else 0
  {
    hide Served, Members, Distinct;
    ServedOnce(slots, clients);
    PassMembers(slots, clients);
    DropCount(clients, 0);
  }

  lemma {:induction false} EmptyTail(slots: seq<int>, ready: set<int>, i: nat)
    requires i <= |slots| && forall j {:trigger slots[j]} :: i <= j < |slots| ==> slots[j] == -1
    ensures Served(slots[..i], ready) == Served(slots, ready)
  {
    if i == |slots| {
      assert slots[..i] == slots;
    } else {
      var n := |slots| - 1;
      EmptyTail(slots[..n], ready, i);
      assert slots[..n][..i] == slots[..i] && slots[n] == -1;
    }
  }

  /** The slots after a pass over the first i of them that closed some of the served clients. */
  function Cleared(slots: seq<int>, ready: set<int>, closing: set<int>, i: nat): seq<int>
    requires i <= |slots|
  {
    seq(|slots|, j requires 0 <= j < |slots| =>
      if j < i && slots[j] > 0 && slots[j] in ready && slots[j] in closing then -1 else slots[j])
  }

  /** What one round of the server loop sees: the descriptors that select reports (of those
      that are watched), what accept would return, and which clients close. */
  datatype Round = Round(wanted: set<int>, connfd: int, closing: set<int>)

  /** What the server remembers between turns. */
  datatype Watch = Watch(watched: set<int>, maxfd: int, slots: seq<int>)

  /** The descriptor of a new connection: one that is not in use. */
  function Accepted(r: Round, w: Watch): int {
    if r.connfd >= 0 && r.connfd !in w.watched then r.connfd else w.maxfd + 1
  }

  ghost predicate FirstFree(slots: seq<int>, i: nat) {
    i < |slots| && slots[i] < 0 && forall j {:trigger slots[j]} :: 0 <= j < i ==> slots[j] >= 0
  }

  ghost predicate NoneFree(slots: seq<int>) {
    forall j {:trigger slots[j]} :: 0 <= j < |slots| ==> slots[j] >= 0
  }

  /** The clients in gone have left their slots, and the others have kept them. */
  ghost predicate Emptied(slots: seq<int>, slots': seq<int>, gone: set<int>) {
    && |slots'| == |slots|
    && forall j {:trigger slots'[j]} :: 0 <= j < |slots| ==> slots'[j] == if slots[j] in gone then -1 else slots[j]
  }

  /** What one turn of the server loop does: a new connection, if one is waiting, is watched and
      takes the first free slot; the ready clients that close are not watched any more and leave
      their slots, all but descriptor 0. */
  ghost predicate TurnLeads(listenfd: int, r: Round, w: Watch, w': Watch) {
    var ready := r.wanted * w.watched;
    var gone := (ready - {listenfd} - {0}) * r.closing;
    if listenfd in ready then
      && w'.watched == w.watched + {Accepted(r, w)} - gone
      && w'.maxfd == (if Accepted(r, w) > w.maxfd then Accepted(r, w) else w.maxfd)
      && exists i: nat {:trigger FirstFree(w.slots, i)} ::
           FirstFree(w.slots, i) && Emptied(w.slots[i := Accepted(r, w)], w'.slots, gone)
    else w'.watched == w.watched - gone && w'.maxfd == w.maxfd && Emptied(w.slots, w'.slots, gone)
  }

  lemma ClearedEmptied(slots: seq<int>, clients: set<int>, closing: set<int>)
    requires forall fd {:trigger fd in clients} :: fd in clients ==> fd >= 0
    ensures Emptied(slots, Cleared(slots, clients, closing, |slots|), (clients - {0}) * closing)
  {
  }

  lemma SlotTaken(listenfd: int, maxfd: int, maxfd': int, maxi: int, maxi': int, readSet: set<int>, slots: seq<int>,
        i: nat, connfd: int)
    requires PoolOk(listenfd, maxfd, maxi, readSet, slots) && connfd >= 0 && connfd !in readSet
    requires i < |slots| && slots[i] < 0
    requires maxfd' == (if connfd > maxfd then connfd else maxfd) && maxi' == if i > maxi then i else maxi
    ensures PoolOk(listenfd, maxfd', maxi', readSet + {connfd}, slots[i := connfd])
  {
    var slots', rs' := slots[i := connfd], readSet + {connfd};
    forall j | 0 <= j < |slots| ensures SlotOk(slots', rs', listenfd, j) {
      assert SlotOk(slots, readSet, listenfd, j);
    }
    forall j, k | 0 <= j < |slots| && 0 <= k < |slots| && j != k ensures Apart(slots', j, k) {
      assert Apart(slots, j, k) && SlotOk(slots, readSet, listenfd, j) && SlotOk(slots, readSet, listenfd, k);
    }
    forall fd | fd in rs' ensures 0 <= fd <= maxfd' && (fd == listenfd || fd in slots') {
      if fd != listenfd && fd in slots {
        var j :| 0 <= j < |slots| && slots[j] == fd;
        assert j != i;
        assert slots'[j] == fd;
      }
      assert fd == connfd ==> slots'[i] == fd;
    }
  }

  lemma PassStarts(listenfd: int, maxfd: int, maxi: int, readSet: set<int>, slots: seq<int>, clients: set<int>,
        closing: set<int>)
    requires PoolOk(listenfd, maxfd, maxi, readSet, slots)
    ensures |slots| == FD_SETSIZE && -1 <= maxi < FD_SETSIZE
    ensures Served(slots[..0], clients) == [] && Cleared(slots, clients, closing, 0) == slots
    ensures forall j {:trigger slots[j]} :: 0 <= j < |slots| && slots[j] >= 0 ==> slots[j] != listenfd
  {
    forall j | 0 <= j < |slots| && slots[j] >= 0 ensures slots[j] != listenfd {
      assert SlotOk(slots, readSet, listenfd, j);
    }
  }

  lemma ClearedStep(slots: seq<int>, clients: set<int>, closing: set<int>, i: nat, listenfd: int)
    requires i < |slots|
    ensures var c := Cleared(slots, clients, closing, i);
      && |c| == |slots| && c[i] == slots[i]
      && Cleared(slots, clients, closing, i + 1) ==
           if slots[i] > 0 && slots[i] in clients && slots[i] in closing then c[i := -1] else c
  {
  }

  lemma ServedOne(visited: seq<int>, fd: int, closing: set<int>)
    ensures Members(visited + [fd]) * closing == Members(visited) * closing + (if fd in closing then {fd} else {})
  {
    assert Members(visited + [fd]) == Members(visited) + {fd};
  }

  lemma PassEnds(listenfd: int, maxfd: int, maxi: int, readSet: set<int>, slots: seq<int>, clients: set<int>, i: nat,
        nready: int)
    requires PoolOk(listenfd, maxfd, maxi, readSet, slots)
    requires forall fd {:trigger fd in clients} :: fd in clients ==> fd in readSet && fd in slots
    requires i <= |slots| && (i > maxi || nready <= 0) && nready == |clients| - |Served(slots[..i], clients)|
    ensures var v := Served(slots[..i], clients); NoRepeats(v) && Members(v) == clients - {0}
    ensures Served(slots[..i], clients) == Served(slots, clients)
    ensures nready == if 0 in clients then 1 else 0
  {
    if i > maxi {
      EmptyTail(slots, clients, i);
    } else {
      NothingLeft(slots, clients, i);
    }
    WholePass(slots, clients);
    ServedOnce(slots, clients);
  }

  lemma GoneMeansCleared(slots: seq<int>, clients: set<int>, closing: set<int>, i: nat, j: nat)
    requires Distinct(slots) && i <= |slots| && j < |slots| && slots[j] >= 0
    ensures slots[j] in Members(Served(slots[..i], clients)) * closing <==> Cleared(slots, clients, closing, i)[j] == -1
  {
    ServedMembers(slots[..i], clients);
    if j < i {
      assert slots[..i][j] == slots[j];
    }
    if slots[j] in slots[..i] {
      var k :| 0 <= k < i && slots[..i][k] == slots[j];
      assert k != j ==> Apart(slots, j, k);
    }
  }

  lemma PassKeeps(listenfd: int, maxfd: int, maxi: int, readSet: set<int>, slots: seq<int>, clients: set<int>,
        closing: set<int>, i: nat)
    requires PoolOk(listenfd, maxfd, maxi, readSet, slots) && i <= |slots|
    requires clients <= readSet - {listenfd}
    ensures PoolOk(listenfd, maxfd, maxi, readSet - (Members(Served(slots[..i], clients)) * closing),
                   Cleared(slots, clients, closing, i))
  {
    var c, gone := Cleared(slots, clients, closing, i), Members(Served(slots[..i], clients)) * closing;
    ServedMembers(slots[..i], clients);
    forall j | 0 <= j < |slots| && slots[j] >= 0 ensures slots[j] in gone <==> c[j] == -1 {
      GoneMeansCleared(slots, clients, closing, i, j);
    }
    forall j | 0 <= j < |slots| ensures SlotOk(c, readSet - gone, listenfd, j) {
      assert SlotOk(slots, readSet, listenfd, j);
    }
    forall j, k | 0 <= j < |slots| && 0 <= k < |slots| && j != k ensures Apart(c, j, k) {
      assert Apart(slots, j, k) && SlotOk(slots, readSet, listenfd, j);
    }
    forall fd | fd in readSet - gone && fd != listenfd ensures fd in c {
      var j :| 0 <= j < |slots| && slots[j] == fd;
      assert c[j] == fd;
    }
  }

  /** Stopping early makes no difference: behind slot i nobody is ready. */
  lemma PassIsWhole(listenfd: int, maxfd: int, maxi: int, readSet: set<int>, slots: seq<int>, clients: set<int>,
        closing: set<int>, i: nat)
    requires PoolOk(listenfd, maxfd, maxi, readSet, slots) && i <= |slots|
    requires Members(Served(slots[..i], clients)) == clients - {0}
    ensures Cleared(slots, clients, closing, i) == Cleared(slots, clients, closing, |slots|)
  {
    ServedMembers(slots[..i], clients);
    forall j | i <= j < |slots| ensures !(slots[j] > 0 && slots[j] in clients) {
      forall k | 0 <= k < i ensures slots[j] >= 0 ==> slots[k] != slots[j] {
        assert Apart(slots, j, k);
      }
      assert slots[j] in clients - {0} <==> slots[j] in Members(Served(slots[..i], clients));
    }
  }

  lemma WatchedAreDescriptors(listenfd: int, maxfd: int, maxi: int, readSet: set<int>, slots: seq<int>)
    requires PoolOk(listenfd, maxfd, maxi, readSet, slots)
    ensures forall fd {:trigger fd in readSet} :: fd in readSet ==> fd >= 0
  {
  }

  lemma ReadyAreClients(listenfd: int, maxfd: int, maxi: int, readSet: set<int>, slots: seq<int>, ready: set<int>)
    requires PoolOk(listenfd, maxfd, maxi, readSet, slots) && ready <= readSet
    ensures forall fd {:trigger fd in ready} :: fd in ready - {listenfd} ==> fd in slots
    ensures |ready| == |ready - {listenfd}| + if listenfd in ready then 1 else 0
  {
    if listenfd in ready {
      assert ready == (ready - {listenfd}) + {listenfd};
    } else {
      assert ready == ready - {listenfd};
    }
  }

  class Pool {
    const listenfd: int
    var maxfd: int
    var readSet: set<int>
    var readySet: set<int>
    var nready: int
    var maxi: int
    const clientfd: array<int>

    ghost predicate Valid()
      reads this, clientfd
    {
      PoolOk(listenfd, maxfd, maxi, readSet, clientfd[..])
    }

    /** init_pool */
    constructor (listenfd: int)
      requires listenfd >= 0
      ensures Valid() && this.listenfd == listenfd && readSet == {listenfd} && fresh(clientfd)
      ensures forall j :: 0 <= j < clientfd.Length ==> clientfd[j] == -1
    {
      this.listenfd := listenfd;
      maxi := -1;
      clientfd := new int[FD_SETSIZE](_ => -1);
      maxfd := listenfd;
      readSet := {listenfd};
      readySet := {};
      nready := 0;
    }

    /** add_client: the first free slot, or failure when there is none, which is only so when
        a descriptor is watched for which FD_SET has no bit. */
    method AddClient(connfd: int) returns (ok: bool)
      requires Valid() && connfd >= 0 && connfd !in readSet
      modifies this`nready, this`readSet, this`maxfd, this`maxi, clientfd
      ensures nready == old(nready) - 1
      ensures ok ==> maxfd == if connfd > old(maxfd) then connfd else old(maxfd)
      ensures ok <==> exists j :: 0 <= j < FD_SETSIZE && old(clientfd[..])[j] < 0
      ensures ok ==> Valid() && readSet == old(readSet) + {connfd}
      ensures ok ==> exists i: nat {:trigger FirstFree(old(clientfd[..]), i)} ::
        FirstFree(old(clientfd[..]), i) && clientfd[..] == old(clientfd[..])[i := connfd]
      ensures !ok ==> Valid() && readSet == old(readSet) && clientfd[..] == old(clientfd[..])
      ensures !ok ==> exists fd :: fd in readSet && fd >= FD_SETSIZE
    {
      nready := nready - 1;
      var i := 0;
      while i < FD_SETSIZE
        invariant i <= FD_SETSIZE && Valid() && clientfd[..] == old(clientfd[..])
        invariant readSet == old(readSet) && maxfd == old(maxfd) && maxi == old(maxi) && nready == old(nready) - 1
        invariant forall j :: 0 <= j < i ==> clientfd[j] >= 0
      {
        if clientfd[i] < 0 {
          ghost var slots := clientfd[..];
          clientfd[i] := connfd;
          readSet := readSet + {connfd};
          if connfd > maxfd {
            maxfd := connfd;
          }
          if i > maxi {
            maxi := i;
          }
          SlotTaken(listenfd, old(maxfd), maxfd, old(maxi), maxi, old(readSet), slots, i, connfd);
          assert clientfd[..] == slots[i := connfd] && FirstFree(slots, i);
          return true;
        }
        i := i + 1;
      }
      if forall fd {:trigger fd in readSet} :: fd in readSet ==> fd < FD_SETSIZE {
        ghost var free := SlotIsFree(listenfd, maxfd, maxi, readSet, clientfd[..]);
      }
      return false;
    }

    /** check_clients: serves the ready clients in slot order until all are served. */
    method CheckClients(closing: set<int>) returns (ghost visited: seq<int>)
      requires Valid() && readySet <= readSet && nready == |readySet - {listenfd}|
      requires forall fd {:trigger fd in readySet} :: fd in readySet - {listenfd} ==> fd in clientfd[..]
      modifies this`nready, this`readSet, clientfd
      ensures Valid() && NoRepeats(visited) && Members(visited) == readySet - {listenfd} - {0}
      ensures visited == Served(old(clientfd[..]), readySet - {listenfd})
      ensures nready == if 0 in readySet - {listenfd} then 1 else 0
      ensures readSet == old(readSet) - (Members(visited) * closing)
      ensures |old(clientfd[..])| == FD_SETSIZE
      ensures clientfd[..] == Cleared(old(clientfd[..]), readySet - {listenfd}, closing, FD_SETSIZE)
      ensures Emptied(old(clientfd[..]), clientfd[..], (readySet - {listenfd} - {0}) * closing)
    {
      hide PoolOk, Served, Cleared;
      ghost var slots, clients := clientfd[..], readySet - {listenfd};
      visited := [];
      PassStarts(listenfd, maxfd, maxi, readSet, slots, clients, closing);
      var i := 0;
      while i <= maxi && nready > 0
        invariant 0 <= i <= maxi + 1 && i <= |slots| && clientfd.Length == |slots|
        invariant visited == Served(slots[..i], clients)
        invariant clientfd[..] == Cleared(slots, clients, closing, i)
        invariant nready == |clients| - |visited| && readSet == old(readSet) - (Members(visited) * closing)
        decreases maxi + 1 - i
      {
        ClearedStep(slots, clients, closing, i, listenfd);
        ServedStep(slots, clients, i);
        var connfd := clientfd[i];
        if connfd > 0 && connfd in readySet {
          nready := nready - 1;
          if connfd in closing {
            readSet := readSet - {connfd};
            clientfd[i] := -1;
          }
          ServedOne(visited, connfd, closing);
          visited := visited + [connfd];
        }
        i := i + 1;
      }
      PassEnds(listenfd, maxfd, maxi, old(readSet), slots, clients, i, nready);
      PassKeeps(listenfd, maxfd, maxi, old(readSet), slots, clients, closing, i);
      PassIsWhole(listenfd, maxfd, maxi, old(readSet), slots, clients, closing, i);
      WatchedAreDescriptors(listenfd, maxfd, maxi, old(readSet), slots);
      ClearedEmptied(slots, clients, closing);
    }

    ghost function Now(): Watch
      reads this, clientfd
    {
      Watch(readSet, maxfd, clientfd[..])
    }

    /** One turn of the server loop. */
    method Turn(r: Round) returns (ok: bool, ghost visited: seq<int>)
      requires Valid()
      modifies this, clientfd
      ensures Valid()
      ensures ok ==> TurnLeads(listenfd, r, old(Now()), Now())
      ensures ok ==> NoRepeats(visited) && Members(visited) == r.wanted * old(readSet) - {listenfd} - {0}
      ensures ok ==> nready == if 0 in r.wanted * old(readSet) - {listenfd} then 1 else 0
      ensures !ok ==> listenfd in r.wanted && NoneFree(old(clientfd[..]))
    {
      visited := [];
      readySet := r.wanted * readSet;
      nready := |readySet|;
      ReadyAreClients(listenfd, maxfd, maxi, readSet, clientfd[..], readySet);
      if listenfd in readySet {
        ok := AddClient(Accepted(r, Watch(readSet, maxfd, clientfd[..])));
        if !ok {
          return;
        }
      }
      visited := CheckClients(r.closing);
      ok := true;
    }

    /** The server loop over any number of turns: each one leads on from the one before, and the
        loop stops early only at a new connection for which no slot is free. */
    method Serve(rounds: seq<Round>) returns (ok: bool, ghost log: seq<Watch>)
      requires Valid()
      modifies this, clientfd
      ensures Valid() && 0 < |log| <= |rounds| + 1 && log[0] == old(Now())
      ensures forall i {:trigger log[i]} :: 0 <= i < |log| - 1 ==> TurnLeads(listenfd, rounds[i], log[i], log[i + 1])
      ensures ok ==> |log| == |rounds| + 1 && log[|rounds|] == Now()
      ensures !ok ==> |log| <= |rounds| && listenfd in rounds[|log| - 1].wanted
      ensures !ok ==> NoneFree(log[|log| - 1].slots)
    {
      hide TurnLeads;
      ok := true;
      log := [Now()];
      var i := 0;
      while i < |rounds|
        invariant i <= |rounds| && Valid() && |log| == i + 1 && log[0] == old(Now()) && log[i] == Now() && ok
        invariant forall j {:trigger log[j]} :: 0 <= j < i ==> TurnLeads(listenfd, rounds[j], log[j], log[j + 1])
      {
        ghost var visited;
        ok, visited := Turn(rounds[i]);
        if !ok {
          return;
        }
        log := log + [Now()];
        i := i + 1;
      }
    }
  }

  /** A client with descriptor 0 is accepted and watched, and when it is ready a round serves
      nobody and leaves it counted. */
  method ZeroIsNeverServed() returns (left: int, ghost visited: seq<int>)
    ensures left == 1 && Members(visited) == {}
  {
    var pool := new Pool(3);
    assert pool.clientfd[..][0] < 0;
    var added := pool.AddClient(0);
    assert added;
    var ok;
    ok, visited := pool.Turn(Round({0}, -1, {}));
    left := pool.nready;
  }
}
