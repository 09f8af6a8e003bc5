/** The K-best sampler of fcyc.c. */
module Sampler {
  // The k smallest samples so far, kept sorted in place.

  ghost predicate Sorted(s: seq<real>) {
    forall i, j {:trigger s[i], s[j]} :: 0 <= i < j < |s| ==> s[i] <= s[j]
  }

  /** v among the entries of s, from the right past everything larger. */
  function Insert(s: seq<real>, v: real): seq<real> {
    if s == [] then [v]
    else if s[|s| - 1] > v then Insert(s[..|s| - 1], v) + [s[|s| - 1]]
    else s + [v]
  }

  /** add_sample on the kept samples s, at most k of them. */
  function Keep(s: seq<real>, k: nat, v: real): seq<real>
    requires |s| <= k && k > 0
  {
    if |s| < k then Insert(s, v) else if v < s[k - 1] then Insert(s[..k - 1], v) else s
  }

  lemma {:induction false} InsertLength(s: seq<real>, v: real)
    ensures |Insert(s, v)| == |s| + 1
  {
    if s != [] && s[|s| - 1] > v {
      InsertLength(s[..|s| - 1], v);
    }
  }

  /** What is kept after these samples. */
  function Best(samples: seq<real>, k: nat): (b: seq<real>)
    requires k > 0
    ensures |b| == if |samples| < k then |samples| else k
  {
    if samples == [] then []
    else
      var b := Best(samples[..|samples| - 1], k);
      InsertLength(b, samples[|samples| - 1]);
      if |b| == k then InsertLength(b[..k - 1], samples[|samples| - 1]); Keep(b, k, samples[|samples| - 1])
      else Keep(b, k, samples[|samples| - 1])
  }

  lemma {:induction false} InsertAdds(s: seq<real>, v: real)
    ensures multiset(Insert(s, v)) == multiset(s) + multiset{v}
  {
    if s != [] {
      var n := |s| - 1;
      assert s == s[..n] + [s[n]];
      if s[n] > v {
        InsertAdds(s[..n], v);
      }
    }
  }

  lemma SortedLonger(s: seq<real>, x: real)
    requires Sorted(s) && (s != [] ==> s[|s| - 1] <= x)
    ensures Sorted(s + [x])
  {
  }

  lemma {:induction false} InsertSorts(s: seq<real>, v: real)
    requires Sorted(s)
    ensures Sorted(Insert(s, v))
    ensures |Insert(s, v)| == |s| + 1 && Insert(s, v)[|s|] == if s != [] && s[|s| - 1] > v then s[|s| - 1] else v
  {
    if s != [] && s[|s| - 1] > v {
      var n := |s| - 1;
      InsertSorts(s[..n], v);
      SortedLonger(Insert(s[..n], v), s[n]);
    }
  }

  /** Everything in rest is at least as large as the last entry of b. */
  ghost predicate NotBelow(rest: multiset<real>, b: seq<real>) {
    forall x {:trigger rest[x]} :: x in rest ==> b != [] && b[|b| - 1] <= x
  }

  /** b are the k smallest of the samples, in order. */
  ghost predicate KSmallest(b: seq<real>, samples: seq<real>, k: nat) {
    && Sorted(b) && |b| == (if |samples| < k then |samples| else k)
    && multiset(b) <= multiset(samples)
    && NotBelow(multiset(samples) - multiset(b), b)
  }

  lemma SameSize(a: multiset<real>, b: multiset<real>)
    requires a <= b && |a| == |b|
    ensures a == b
  {
    assert b == a + (b - a);
    assert |b - a| == 0;
  }

  lemma KeepAll(b: seq<real>, samples: seq<real>, k: nat, v: real)
    requires KSmallest(b, samples, k) && |b| < k && multiset(samples + [v]) == multiset(samples) + multiset{v}
    ensures KSmallest(Insert(b, v), samples + [v], k)
  {
    InsertSorts(b, v);
    InsertAdds(b, v);
    SameSize(multiset(b), multiset(samples));
  }

  lemma RestIsLarger(rest: multiset<real>, b: seq<real>, i: seq<real>, y: real)
    requires NotBelow(rest, b) && b != [] && b[|b| - 1] == y && i != [] && i[|i| - 1] <= y
    ensures NotBelow(rest + multiset{y}, i)
  {
    forall x | x in rest + multiset{y} ensures i[|i| - 1] <= x {
      assert x == y || rest[x] > 0;
    }
  }

  lemma InsertEnds(b: seq<real>, c: seq<real>, y: real, v: real)
    requires Sorted(b) && b == c + [y] && v < y
    ensures var i := Insert(c, v); Sorted(i) && |i| == |b| && i[|i| - 1] <= y
  {
    assert forall i {:trigger c[i]} :: 0 <= i < |c| ==> c[i] == b[i];
    assert c != [] ==> c[|c| - 1] <= b[|c|];
    InsertSorts(c, v);
  }

  /** y leaves the kept ones and v joins them. */
  lemma Exchange(s: multiset<real>, c: multiset<real>, y: real, v: real)
    requires c + multiset{y} <= s
    ensures c + multiset{v} <= s + multiset{v}
    ensures s + multiset{v} - (c + multiset{v}) == s - (c + multiset{y}) + multiset{y}
  {
  }

  lemma KeepInstead(b: seq<real>, samples: seq<real>, k: nat, v: real)
    requires KSmallest(b, samples, k) && k > 0 && |b| == k && v < b[k - 1]
    requires multiset(samples + [v]) == multiset(samples) + multiset{v}
    ensures KSmallest(Insert(b[..k - 1], v), samples + [v], k)
  {
    hide Insert, Sorted, NotBelow;
    var c, y := b[..k - 1], b[k - 1];
    assert b == c + [y] && multiset(b) == multiset(c) + multiset{y};
    InsertAdds(c, v);
    Exchange(multiset(samples), multiset(c), y, v);
    InsertEnds(b, c, y, v);
    RestIsLarger(multiset(samples) - multiset(b), b, Insert(c, v), y);
  }

  lemma KeepOut(b: seq<real>, samples: seq<real>, k: nat, v: real)
    requires KSmallest(b, samples, k) && k > 0 && |b| == k && v >= b[k - 1]
    requires multiset(samples + [v]) == multiset(samples) + multiset{v}
    ensures KSmallest(b, samples + [v], k)
  {
    var rest := multiset(samples) - multiset(b);
    assert multiset(samples + [v]) - multiset(b) == rest + multiset{v};
    forall x | x in rest + multiset{v} ensures b[|b| - 1] <= x {
      assert x == v || rest[x] > 0;
    }
  }

  lemma KeepIsSmallest(b: seq<real>, samples: seq<real>, k: nat, v: real)
    requires KSmallest(b, samples, k) && k > 0
    ensures |b| <= k && KSmallest(Keep(b, k, v), samples + [v], k)
  {
    hide Sorted;
    assert multiset(samples + [v]) == multiset(samples) + multiset{v};
    if |b| < k {
      KeepAll(b, samples, k, v);
    } else if v < b[k - 1] {
      KeepInstead(b, samples, k, v);
    } else {
      KeepOut(b, samples, k, v);
    }
  }

  lemma {:induction false} BestIsSmallest(samples: seq<real>, k: nat)
    requires k > 0
    ensures KSmallest(Best(samples, k), samples, k)
  {
    if samples != [] {
      var n := |samples| - 1;
      BestIsSmallest(samples[..n], k);
      KeepIsSmallest(Best(samples[..n], k), samples[..n], k, samples[n]);
      assert samples == samples[..n] + [samples[n]];
    }
  }

  /** The first kept sample is the least sample. */
  lemma LeastIsFirst(samples: seq<real>, k: nat)
    requires k > 0 && samples != []
    ensures Best(samples, k)[0] in samples
    ensures forall x {:trigger x in samples} :: x in samples ==> Best(samples, k)[0] <= x
  {
    BestIsSmallest(samples, k);
    var b := Best(samples, k);
    assert b[0] in multiset(b);
    forall x | x in samples ensures b[0] <= x {
      assert x in multiset(samples);
      if x in multiset(b) {
        var i :| 0 <= i < |b| && b[i] == x;
      } else {
        assert (multiset(samples) - multiset(b))[x] > 0;
      }
    }
  }

  /** has_converged */
  ghost predicate Converged(samples: seq<real>, k: nat, epsilon: real)
    requires k > 0
  {
    |samples| >= k && (1.0 + epsilon) * Best(samples, k)[0] >= Best(samples, k)[k - 1]
  }

  /** How many of the samples are at most c. */
  function AtMost(samples: seq<real>, c: real): (n: nat)
    ensures n <= |samples|
  {
    if samples == [] then 0
    else AtMost(samples[..|samples| - 1], c) + if samples[|samples| - 1] <= c then 1 else 0
  }

  lemma {:induction false} InsertCounts(s: seq<real>, v: real, c: real)
    ensures AtMost(Insert(s, v), c) == AtMost(s, c) + if v <= c then 1 else 0
  {
    if s != [] && s[|s| - 1] > v {
      var t := Insert(s[..|s| - 1], v);
      InsertCounts(s[..|s| - 1], v, c);
      assert (t + [s[|s| - 1]])[..|t|] == t;
    } else {
      assert (s + [v])[..|s|] == s;
    }
  }

  lemma {:induction false} SortedCounts(s: seq<real>, c: real)
    requires Sorted(s)
    ensures AtMost(s, c) == |s| <==> s == [] || s[|s| - 1] <= c
  {
    if |s| > 1 {
      SortedCounts(s[..|s| - 1], c);
    }
  }

  lemma KeepCounts(b: seq<real>, k: nat, v: real, c: real)
    requires Sorted(b) && |b| == k > 0
    ensures AtMost(Keep(b, k, v), c) ==
            if AtMost(b, c) == k then k else AtMost(b, c) + if v <= c then 1 else 0
  {
    SortedCounts(b, c);
    if v < b[k - 1] {
      InsertCounts(b[..k - 1], v, c);
      SortedCounts(b[..k - 1], c);
    }
  }

  lemma BestIsSorted(samples: seq<real>, k: nat)
    requires k > 0
    ensures Sorted(Best(samples, k))
  {
    BestIsSmallest(samples, k);
  }

  /** Of the samples that are at most c, as many are kept as there are, up to k. */
  lemma {:induction false} BestCounts(samples: seq<real>, k: nat, c: real)
    requires k > 0
    ensures AtMost(Best(samples, k), c) == if AtMost(samples, c) < k then AtMost(samples, c) else k
  {
    if samples != [] {
      hide Insert, Sorted;
      var n := |samples| - 1;
      var b := Best(samples[..n], k);
      BestCounts(samples[..n], k, c);
      BestIsSorted(samples[..n], k);
      if |b| < k {
        InsertCounts(b, samples[n], c);
      } else {
        KeepCounts(b, k, samples[n], c);
      }
    }
  }

  ghost predicate IsLeast(least: real, samples: seq<real>) {
    least in samples && forall x {:trigger x in samples} :: x in samples ==> least <= x
  }

  /** The samples have converged when at least k of them are no more than epsilon above the least. */
  lemma ConvergedMeans(samples: seq<real>, k: nat, epsilon: real, least: real)
    requires k > 0 && IsLeast(least, samples)
    ensures Converged(samples, k, epsilon) <==> AtMost(samples, (1.0 + epsilon) * least) >= k
  {
    hide Best, AtMost;
    LeastIsFirst(samples, k);
    BestIsSmallest(samples, k);
    var b, c := Best(samples, k), (1.0 + epsilon) * least;
    assert b[0] == least;
    BestCounts(samples, k, c);
    SortedCounts(b, c);
  }

  lemma Swapped(s: seq<real>, val: real, pos: nat, start: nat, v: seq<real>, v': seq<real>)
    requires 0 < pos <= start < |v| && v' == v[pos - 1 := v[pos]][pos := v[pos - 1]]
    ensures v'[start + 1..] == v[start + 1..]
    ensures start == |s| && v[pos] == val && v[..pos] == s[..pos] && v[pos + 1..start + 1] == s[pos..]
            && v[pos - 1] > val && Insert(s, val) == Insert(s[..pos], val) + s[pos..] ==>
      v'[pos - 1] == val && v'[..pos - 1] == s[..pos - 1] && v'[pos..start + 1] == s[pos - 1..]
      && Insert(s, val) == Insert(s[..pos - 1], val) + s[pos - 1..]
  {
    if start == |s| && v[..pos] == s[..pos] && v[pos + 1..start + 1] == s[pos..] && v[pos - 1] > val {
      assert s[..pos][pos - 1] == s[pos - 1] == v[..pos][pos - 1] && s[..pos][..pos - 1] == s[..pos - 1];
      assert Insert(s[..pos], val) == Insert(s[..pos - 1], val) + [s[pos - 1]];
      assert [s[pos - 1]] + s[pos..] == s[pos - 1..];
      assert v'[pos..start + 1] == [v[pos - 1]] + v[pos + 1..start + 1];
      assert v'[..pos - 1] == v[..pos][..pos - 1];
    }
  }

  lemma Settled(s: seq<real>, val: real, pos: nat, start: nat, v: seq<real>, placed: bool)
    requires pos <= start < |v|
    requires placed ==> start == |s| && v[pos] == val && v[..pos] == s[..pos] && v[pos + 1..start + 1] == s[pos..]
    requires placed ==> Insert(s, val) == Insert(s[..pos], val) + s[pos..]
    requires pos == 0 || v[pos - 1] <= v[pos]
    ensures placed ==> v[..start + 1] == Insert(s, val)
  {
    if placed {
      assert pos > 0 ==> s[..pos][pos - 1] == v[..pos][pos - 1] == v[pos - 1];
      assert Insert(s[..pos], val) == s[..pos] + [val];
      assert v[..start + 1] == v[..pos] + [v[pos]] + v[pos + 1..start + 1];
    }
  }

  class Sampling {
    const kbest: nat
    const maxsamples: int
    const epsilon: real
    const values: array<real>
    var samplecount: nat
    ghost var samples: seq<real>

    /** How many entries of values are in use. */
    function Used(): nat
      reads this
    {
      if samplecount < kbest then samplecount else kbest
    }

    ghost predicate Valid()
      reads this, values
    {
      kbest > 0 && values.Length == kbest && samplecount == |samples| && values[..Used()] == Best(samples, kbest)
    }

    /** init_sampler */
    constructor (kbest: nat, maxsamples: int, epsilon: real)
      requires kbest > 0
      ensures Valid() && samples == [] && fresh(values)
      ensures this.kbest == kbest && this.maxsamples == maxsamples && this.epsilon == epsilon
    {
      this.kbest, this.maxsamples, this.epsilon := kbest, maxsamples, epsilon;
      values := new real[kbest](_ => 0.0);
      samplecount := 0;
      samples := [];
    }

    /** add_sample */
    method AddSample(val: real)
      requires Valid()
      modifies this, values
      ensures Valid() && samples == old(samples) + [val]
    {
      ghost var b := Best(samples, kbest);
      ghost var s := if samplecount < kbest then b else b[..kbest - 1];
      assert (samples + [val])[..|samples|] == samples;
      var pos := 0;
      var placed := false;
      if samplecount < kbest {
        pos := samplecount;
        values[pos] := val;
        placed := true;
      } else if val < values[kbest - 1] {
        pos := kbest - 1;
        values[pos] := val;
        placed := true;
      }
      samplecount := samplecount + 1;
      samples := samples + [val];
      SiftDown(pos, val, placed, s);
    }

    /** add_sample's insertion sort, from pos down; nothing moves if nothing was placed. */
    method SiftDown(start: nat, val: real, ghost placed: bool, ghost s: seq<real>)
      requires start < values.Length
      requires placed ==> start == |s| && values[..start] == s && values[start] == val
      requires !placed ==> start == 0
      modifies values
      ensures placed ==> values[..start + 1] == Insert(s, val)
      ensures values[start + 1..] == old(values[start + 1..])
      ensures !placed ==> values[..] == old(values[..])
    {
      var pos: nat := start;
      assert s[..|s|] == s;
      while pos > 0 && values[pos - 1] > values[pos]
        invariant pos <= start && values[start + 1..] == old(values[start + 1..])
        invariant placed ==> values[pos] == val && values[..pos] == s[..pos] && values[pos + 1..start + 1] == s[pos..]
        invariant placed ==> Insert(s, val) == Insert(s[..pos], val) + s[pos..]
        invariant !placed ==> pos == 0 && values[..] == old(values[..])
      {
        ghost var v := values[..];
        var temp := values[pos - 1];
        values[pos - 1] := values[pos];
        values[pos] := temp;
        Swapped(s, val, pos, start, v, values[..]);
        pos := pos - 1;
      }
      Settled(s, val, pos, start, values[..], placed);
    }

    /** has_converged */
    predicate HasConverged()
      requires Valid()
      reads this, values
      ensures HasConverged() <==> Converged(samples, kbest, epsilon)
    {
      samplecount >= kbest && (1.0 + epsilon) * values[0] >= values[kbest - 1]
    }

    /** fcyc: samples until they converge or there are maxsamples of them, at least once. */
    method Fcyc(measure: nat -> real) returns (result: real)
      requires Valid() && samples == []
      modifies this, values
      ensures Valid() && 1 <= |samples| && (|samples| <= maxsamples || |samples| == 1)
      ensures forall i :: 0 <= i < |samples| ==> samples[i] == measure(i)
      ensures IsLeast(result, samples)
      ensures AtMost(samples, (1.0 + epsilon) * result) >= kbest || |samples| >= maxsamples
      ensures forall n :: 1 <= n < |samples| ==> !Converged(samples[..n], kbest, epsilon) && n < maxsamples
    {
      hide Best, Converged;
      AddSample(measure(0));
      while !HasConverged() && samplecount < maxsamples
        invariant Valid() && 1 <= |samples| && (|samples| <= maxsamples || |samples| == 1)
        invariant forall i :: 0 <= i < |samples| ==> samples[i] == measure(i)
        invariant forall n :: 1 <= n < |samples| ==> !Converged(samples[..n], kbest, epsilon) && n < maxsamples
        decreases maxsamples - samplecount
      {
        ghost var was := samples;
        AddSample(measure(samplecount));
        forall n | 1 <= n <= |was| ensures !Converged(samples[..n], kbest, epsilon) && n < maxsamples {
          assert samples[..n] == was[..n] && was[..|was|] == was;
        }
      }
      LeastIsFirst(samples, kbest);
      result := values[0];
      ConvergedMeans(samples, kbest, epsilon, result);
    }
  }
}
