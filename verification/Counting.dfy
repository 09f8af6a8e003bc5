/** How many threads of a system are somewhere, and how that number changes when one of
    them moves. */
module Counting {

  function One(b: bool): nat {
    if b then 1 else 0
  }

  /** How many entries of ts satisfy p, which may depend on a place n. */
  function Count<N, T>(ts: seq<T>, n: N, p: (N, T) -> bool): nat {
    if ts == [] then 0 else One(p(n, ts[0])) + Count(ts[1..], n, p)
  }

  /** One thread moves: the count changes by what that thread contributes. */
  lemma {:induction false} CountUpdate<N, T>(ts: seq<T>, n: N, p: (N, T) -> bool, k: nat, t: T)
    requires k < |ts|
    ensures Count(ts[k := t], n, p) == Count(ts, n, p) - One(p(n, ts[k])) + One(p(n, t))
  {
    if k == 0 {
      assert ts[0 := t][1..] == ts[1..];
    } else {
      assert ts[k := t][1..] == ts[1..][k - 1 := t];
      CountUpdate(ts[1..], n, p, k - 1, t);
    }
  }

  /** A positive count has a witness. */
  lemma {:induction false} Witness<N, T>(ts: seq<T>, n: N, p: (N, T) -> bool) returns (k: nat)
    requires Count(ts, n, p) > 0
    ensures k < |ts| && p(n, ts[k])
  {
    if p(n, ts[0]) {
      k := 0;
    } else {
      k := Witness(ts[1..], n, p);
      k := k + 1;
    }
  }

  lemma {:induction false} Counted<N, T>(ts: seq<T>, n: N, p: (N, T) -> bool, k: nat)
    requires k < |ts| && p(n, ts[k])
    ensures Count(ts, n, p) > 0
  {
    if k > 0 {
      Counted(ts[1..], n, p, k - 1);
    }
  }

  /** Two threads at once make the count at least 2. */
  lemma {:induction false} CountedTwice<N, T>(ts: seq<T>, n: N, p: (N, T) -> bool, j: nat, k: nat)
    requires j < k < |ts| && p(n, ts[j]) && p(n, ts[k])
    ensures Count(ts, n, p) >= 2
  {
    if j == 0 {
      Counted(ts[1..], n, p, k - 1);
    } else {
      CountedTwice(ts[1..], n, p, j - 1, k - 1);
    }
  }

  lemma {:induction false} NoneCounted<N, T>(ts: seq<T>, n: N, p: (N, T) -> bool)
    requires forall k {:trigger ts[k]} :: 0 <= k < |ts| ==> !p(n, ts[k])
    ensures Count(ts, n, p) == 0
  {
    if ts != [] {
      forall k | 0 <= k < |ts[1..]| ensures !p(n, ts[1..][k]) {
        assert ts[1..][k] == ts[k + 1];
      }
      NoneCounted(ts[1..], n, p);
    }
  }

  lemma {:induction false} CountMonotone<N, T>(ts: seq<T>, n: N, p: (N, T) -> bool, q: (N, T) -> bool)
    requires forall k {:trigger ts[k]} :: 0 <= k < |ts| && p(n, ts[k]) ==> q(n, ts[k])
    ensures Count(ts, n, p) <= Count(ts, n, q)
  {
    if ts != [] {
      forall k | 0 <= k < |ts[1..]| && p(n, ts[1..][k]) ensures q(n, ts[1..][k]) {
        assert ts[1..][k] == ts[k + 1];
      }
      CountMonotone(ts[1..], n, p, q);
    }
  }
}
