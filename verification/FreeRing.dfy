/** The explicit free list of mm.c: a circular doubly linked list through a sentinel
    at HEAD.  Word x holds the predecessor of x and word x + 4 its successor, both
    stored as byte offsets from the sentinel. */
module FreeRing {
  import opened MemLib
  import opened HeapShape

  /** Position i on the closed walk: the sentinel, the list, and the sentinel again. */
  function At(fl: seq<nat>, i: nat): nat
    requires i <= |fl| + 1
  {
    if i == 0 || i == |fl| + 1 then HEAD else fl[i - 1]
  }

  ghost predicate Link(M: seq<Word>, a: nat, b: nat) {
    a + 4 < |M| && b < |M| && M[a + 4] == b - HEAD && M[b] == a - HEAD
  }

  ghost predicate LinkAt(M: seq<Word>, fl: seq<nat>, i: nat)
    requires i <= |fl|
  {
    Link(M, At(fl, i), At(fl, i + 1))
  }

  /** Nodes are disjoint 8-byte cells beyond the sentinel. */
  ghost predicate Spaced(fl: seq<nat>, i: nat, j: nat)
    requires i < |fl| && j < |fl|
  {
    && HEAD + 8 <= fl[i]
    && (i != j ==> fl[i] + 8 <= fl[j] || fl[j] + 8 <= fl[i])
  }

  ghost predicate Ring(M: seq<Word>, fl: seq<nat>) {
    && (forall i, j {:trigger Spaced(fl, i, j)} :: 0 <= i < |fl| && 0 <= j < |fl| ==> Spaced(fl, i, j))
    && (forall i {:trigger LinkAt(M, fl, i)} :: 0 <= i <= |fl| ==> LinkAt(M, fl, i))
  }

  /** The list without its entry x. */
  function Without(fl: seq<nat>, x: nat): seq<nat> {
    if fl == [] then []
    else if fl[0] == x then fl[1..]
    else [fl[0]] + Without(fl[1..], x)
  }

  function DropAt(fl: seq<nat>, k: nat): seq<nat>
    requires k < |fl|
  {
    fl[..k] + fl[k + 1..]
  }

  lemma {:induction false} WithoutDrops(fl: seq<nat>, k: nat)
    requires k < |fl|
    requires forall j :: 0 <= j < k ==> fl[j] != fl[k]
    ensures Without(fl, fl[k]) == DropAt(fl, k)
  {
    if k > 0 {
      WithoutDrops(fl[1..], k - 1);
      assert fl[1..][k - 1] == fl[k];
      assert DropAt(fl, k) == [fl[0]] + DropAt(fl[1..], k - 1);
    }
  }

  /** Two positions hold the same node only when both are the sentinel. */
  lemma AtGap(M: seq<Word>, fl: seq<nat>, i: nat, j: nat)
    requires Ring(M, fl) && i <= |fl| + 1 && j <= |fl| + 1
    ensures At(fl, i) == HEAD || HEAD + 8 <= At(fl, i)
    ensures i != j ==> (At(fl, i) == HEAD == At(fl, j)) || At(fl, i) + 8 <= At(fl, j) || At(fl, j) + 8 <= At(fl, i)
    ensures 0 < i <= |fl| ==> HEAD < At(fl, i)
    ensures 0 < j <= |fl| ==> HEAD < At(fl, j)
  {
    assert 0 < i <= |fl| ==> Spaced(fl, i - 1, i - 1);
    assert 0 < j <= |fl| ==> Spaced(fl, j - 1, j - 1);
    assert 0 < i <= |fl| && 0 < j <= |fl| ==> Spaced(fl, i - 1, j - 1);
  }

  /** M' is M except that a points forward to b and b points back to a: the macro CONNECT. */
  ghost predicate Connected(M: seq<Word>, M': seq<Word>, a: nat, b: nat) {
    && |M'| == |M|
    && Link(M', a, b)
    && (forall x {:trigger M'[x]} :: 0 <= x < |M| && x != a + 4 && x != b ==> M'[x] == M[x])
  }

  lemma LinkSurvives(M: seq<Word>, M': seq<Word>, a: nat, b: nat, u: nat, v: nat)
    requires Connected(M, M', a, b) && Link(M, u, v)
    requires u != a && u + 4 != b && v != b && v != a + 4
    ensures Link(M', u, v)
  {
    assert M'[u + 4] == M[u + 4] && M'[v] == M[v];
  }

  lemma DropAtShifts(fl: seq<nat>, k: nat, i: nat)
    requires k < |fl| && i <= |fl|
    ensures At(DropAt(fl, k), i) == At(fl, if i <= k then i else i + 1)
  {
  }

  lemma EraseLink(M: seq<Word>, M': seq<Word>, fl: seq<nat>, k: nat, i: nat)
    requires Ring(M, fl) && k < |fl| && i < |fl|
    requires Connected(M, M', At(fl, k), At(fl, k + 2))
    ensures LinkAt(M', DropAt(fl, k), i)
  {
    DropAtShifts(fl, k, i);
    DropAtShifts(fl, k, i + 1);
    if i != k {
      var j := if i < k then i else i + 1;
      assert LinkAt(M, fl, j);
      AtGap(M, fl, j, k);
      AtGap(M, fl, j + 1, k + 2);
      AtGap(M, fl, j, k + 2);
      AtGap(M, fl, j + 1, k);
      LinkSurvives(M, M', At(fl, k), At(fl, k + 2), At(fl, j), At(fl, j + 1));
    }
  }

  /** ERASE of entry k leaves the ring of the remaining entries, in the same order. */
  lemma EraseKeepsRing(M: seq<Word>, M': seq<Word>, fl: seq<nat>, k: nat)
    requires Ring(M, fl) && k < |fl|
    requires Connected(M, M', At(fl, k), At(fl, k + 2))
    ensures Ring(M', DropAt(fl, k))
  {
    var ds := DropAt(fl, k);
    forall i | 0 <= i <= |ds| ensures LinkAt(M', ds, i) {
      EraseLink(M, M', fl, k, i);
    }
    forall i, j | 0 <= i < |ds| && 0 <= j < |ds| ensures Spaced(ds, i, j) {
      assert Spaced(fl, if i < k then i else i + 1, if j < k then j else j + 1);
    }
  }

  lemma InsertLink(M: seq<Word>, M1: seq<Word>, M': seq<Word>, fl: seq<nat>, x: nat, i: nat)
    requires Ring(M, fl)
    requires HEAD + 8 <= x
    requires forall i {:trigger fl[i]} :: 0 <= i < |fl| ==> x + 8 <= fl[i] || fl[i] + 8 <= x
    requires Connected(M, M1, x, At(fl, 1)) && Connected(M1, M', HEAD, x)
    requires i <= |fl| + 1
    ensures LinkAt(M', [x] + fl, i)
  {
    var xs := [x] + fl;
    if i > 0 {
      assert At(xs, i + 1) == At(fl, i);
      assert At(xs, i) == if i == 1 then x else At(fl, i - 1);
      AtGap(M, fl, i, 1);
      AtGap(M, fl, i, 0);
      if i == 1 {
        LinkSurvives(M1, M', HEAD, x, x, At(fl, 1));
      } else {
        assert LinkAt(M, fl, i - 1);
        AtGap(M, fl, i - 1, 1);
        AtGap(M, fl, i - 1, 0);
        AtGap(M, fl, 1, 0);
        LinkSurvives(M, M1, x, At(fl, 1), At(fl, i - 1), At(fl, i));
        LinkSurvives(M1, M', HEAD, x, At(fl, i - 1), At(fl, i));
      }
    }
  }

  /** INSERT_LIST puts x right behind the sentinel: two CONNECTs, through M1. */
  lemma InsertKeepsRing(M: seq<Word>, M1: seq<Word>, M': seq<Word>, fl: seq<nat>, x: nat)
    requires Ring(M, fl)
    requires HEAD + 8 <= x
    requires forall i {:trigger fl[i]} :: 0 <= i < |fl| ==> x + 8 <= fl[i] || fl[i] + 8 <= x
    requires Connected(M, M1, x, At(fl, 1)) && Connected(M1, M', HEAD, x)
    ensures Ring(M', [x] + fl)
  {
    var xs := [x] + fl;
    forall i | 0 <= i <= |xs| ensures LinkAt(M', xs, i) {
      InsertLink(M, M1, M', fl, x, i);
    }
    forall i, j | 0 <= i < |xs| && 0 <= j < |xs| ensures Spaced(xs, i, j) {
      assert i > 0 && j > 0 ==> Spaced(fl, i - 1, j - 1);
      assert i > 0 ==> Spaced(fl, i - 1, i - 1);
    }
  }

  /** Writes that avoid the sentinel and the cells of the listed nodes keep the ring. */
  lemma RingFrame(M: seq<Word>, M': seq<Word>, fl: seq<nat>)
    requires Ring(M, fl) && |M'| == |M|
    requires HEAD + 4 < |M| && M'[HEAD] == M[HEAD] && M'[HEAD + 4] == M[HEAD + 4]
    requires forall i {:trigger fl[i]} :: 0 <= i < |fl| && fl[i] + 4 < |M| ==>
      M'[fl[i]] == M[fl[i]] && M'[fl[i] + 4] == M[fl[i] + 4]
    ensures Ring(M', fl)
  {
    forall i | 0 <= i <= |fl| ensures LinkAt(M', fl, i) {
      assert LinkAt(M, fl, i);
      assert i < |fl| ==> LinkAt(M, fl, i + 1);
      assert i > 0 ==> LinkAt(M, fl, i - 1);
    }
  }

  /** From the sentinel on, both lists meet the same nodes, and neither ends first. */
  lemma {:induction false} RingsAgree(M: seq<Word>, fl: seq<nat>, gl: seq<nat>, k: nat)
    requires Ring(M, fl) && Ring(M, gl) && k <= |fl| && k <= |gl|
    ensures fl[..k] == gl[..k] && At(fl, k + 1) == At(gl, k + 1) && (k == |fl| ==> k == |gl|)
  {
    if k > 0 {
      RingsAgree(M, fl, gl, k - 1);
      assert fl[..k] == fl[..k - 1] + [At(fl, k)] && gl[..k] == gl[..k - 1] + [At(gl, k)];
    }
    assert LinkAt(M, fl, k) && LinkAt(M, gl, k);
    assert k < |gl| ==> Spaced(gl, k, k);
  }

  /** The words of a ring lead along one list only. */
  lemma RingIsUnique(M: seq<Word>, fl: seq<nat>, gl: seq<nat>)
    requires Ring(M, fl) && Ring(M, gl)
    ensures fl == gl
  {
    RingsAgree(M, fl, gl, if |fl| < |gl| then |fl| else |gl|);
    RingsAgree(M, gl, fl, if |fl| < |gl| then |fl| else |gl|);
  }
}
