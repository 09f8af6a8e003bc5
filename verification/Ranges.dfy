/** The range list of mdriver.c. */
module Ranges {

  /** First and last byte of a payload. */
  datatype Range = Range(lo: int, hi: int)

  function Extent(lo: int, size: int): Range {
    Range(lo, lo + size - 1)
  }

  /** The overlap test of add_range: is an end of the new range inside p? */
  predicate Hits(p: Range, lo: int, hi: int) {
    p.lo <= lo <= p.hi || p.lo <= hi <= p.hi
  }

  predicate Overlap(p: Range, lo: int, hi: int) {
    lo <= p.hi && p.lo <= hi
  }

  /** The test never rejects disjoint ranges, and the overlaps it misses are exactly the
      new ranges that reach beyond an old one on both sides. */
  lemma HitsIsAlmostOverlap(p: Range, lo: int, hi: int)
    requires p.lo <= p.hi && lo <= hi
    ensures Hits(p, lo, hi) ==> Overlap(p, lo, hi)
    ensures Overlap(p, lo, hi) && !Hits(p, lo, hi) <==> lo < p.lo && p.hi < hi
  {
  }

  /** The list without the first range that starts at lo. */
  function WithoutLo(ranges: seq<Range>, lo: int): seq<Range> {
    if ranges == [] then []
    else if ranges[0].lo == lo then ranges[1..]
    else [ranges[0]] + WithoutLo(ranges[1..], lo)
  }

  lemma {:induction false} WithoutLoAt(ranges: seq<Range>, lo: int, k: nat)
    requires k < |ranges| && ranges[k].lo == lo && forall j :: 0 <= j < k ==> ranges[j].lo != lo
    ensures WithoutLo(ranges, lo) == ranges[..k] + ranges[k + 1..]
  {
    if k > 0 {
      WithoutLoAt(ranges[1..], lo, k - 1);
      assert ranges[..k] == [ranges[0]] + ranges[1..][..k - 1];
    }
  }

  lemma {:induction false} WithoutLoNone(ranges: seq<Range>, lo: int)
    requires forall j :: 0 <= j < |ranges| ==> ranges[j].lo != lo
    ensures WithoutLo(ranges, lo) == ranges
  {
    if ranges != [] {
      WithoutLoNone(ranges[1..], lo);
    }
  }

  class RangeList {
    var ranges: seq<Range>

    constructor ()
      ensures ranges == []
    {
      ranges := [];
    }

    method ClearRanges()
      modifies this
      ensures ranges == []
    {
      ranges := [];
    }

    /** Checks the payload of size bytes at lo against the heap, from heapLo to heapHi, and
        against every recorded range, and records it if it passes. */
    method AddRange(lo: int, size: int, heapLo: int, heapHi: int) returns (ok: bool)
      requires size > 0
      modifies this
      ensures ok <==> lo % 8 == 0 && heapLo <= lo && lo + size - 1 <= heapHi
                      && forall k :: 0 <= k < |old(ranges)| ==> !Hits(old(ranges)[k], lo, lo + size - 1)
      ensures ranges == if ok then [Extent(lo, size)] + old(ranges) else old(ranges)
    {
      var hi := lo + size - 1;
      if lo % 8 != 0 {
        return false;
      }
      if lo < heapLo || lo > heapHi || hi < heapLo || hi > heapHi {
        return false;
      }
      var i := 0;
      while i < |ranges|
        invariant i <= |ranges| && ranges == old(ranges)
        invariant forall k :: 0 <= k < i ==> !Hits(ranges[k], lo, hi)
      {
        if Hits(ranges[i], lo, hi) {
          return false;
        }
        i := i + 1;
      }
      ranges := [Range(lo, hi)] + ranges;
      return true;
    }

    method RemoveRange(lo: int)
      modifies this
      ensures ranges == WithoutLo(old(ranges), lo)
    {
      var i := 0;
      while i < |ranges| && ranges[i].lo != lo
        invariant i <= |ranges| && ranges == old(ranges)
        invariant forall k :: 0 <= k < i ==> ranges[k].lo != lo
      {
        i := i + 1;
      }
      if i < |ranges| {
        WithoutLoAt(ranges, lo, i);
        ranges := ranges[..i] + ranges[i + 1..];
      } else {
        WithoutLoNone(ranges, lo);
      }
    }
  }
}
