/**
 * Quick sort of a list of integers in place. The pivot of a range is its
 * first entry; every partition of a range [left, right] counts right - left
 * comparisons. The specification functions work on the whole list and the
 * range's bounds, as the methods do.
 */
module QuickSort {
  import opened MergeSort

  // ---------------------------------------------------------------------------
  // partitionArray
  // ---------------------------------------------------------------------------

  /**
   * partitionArray from scanner k up to hi, with the boundary at b and the
   * pivot taken from entry left: an entry below the pivot is swapped to the
   * boundary, which moves up one; at the end entry left gets entry b - 1, the
   * pivot goes there, and that position is returned with the list.
   */
  function Scan(s: seq<int>, pivot: int, left: int, b: int, k: int, hi: int): (r: (seq<int>, int))
    requires 0 <= left < b <= k <= hi <= |s|
    ensures |r.0| == |s| && left <= r.1 < hi
    decreases hi - k
  {
    if k == hi then (s[left := s[b - 1]][b - 1 := pivot], b - 1)
    else if s[k] < pivot then Scan(s[b := s[k]][k := s[b]], pivot, left, b + 1, k + 1, hi)
    else Scan(s, pivot, left, b, k + 1, hi)
  }

  /** partitionArray(A, left, right): the list it leaves and the pivot's final position. */
  function Partition(s: seq<int>, left: int, right: int): (r: (seq<int>, int))
    requires 0 <= left <= right < |s|
    ensures |r.0| == |s| && left <= r.1 <= right
  {
    Scan(s, s[left], left, left + 1, left + 1, right + 1)
  }

  /** t is s with its entries lo .. hi-1 rearranged and nothing else changed. */
  ghost predicate Rearranged(s: seq<int>, t: seq<int>, lo: int, hi: int) {
    && 0 <= lo <= hi <= |s| && |t| == |s|
    && (forall i :: 0 <= i < |s| && !(lo <= i < hi) ==> t[i] == s[i])
    && multiset(t) == multiset(s)
  }

  lemma SwapRearranges(s: seq<int>, i: int, j: int, lo: int, hi: int)
    requires 0 <= lo <= i < hi <= |s| && lo <= j < hi
    ensures Rearranged(s, s[i := s[j]][j := s[i]], lo, hi)
  {
  }

  lemma RearrangedWiden(s: seq<int>, t: seq<int>, lo: int, hi: int, lo': int, hi': int)
    requires Rearranged(s, t, lo, hi) && 0 <= lo' <= lo && hi <= hi' <= |s|
    ensures Rearranged(s, t, lo', hi')
  {
  }

  lemma RearrangedTrans(s: seq<int>, t: seq<int>, u: seq<int>, lo: int, hi: int)
    requires Rearranged(s, t, lo, hi) && Rearranged(t, u, lo, hi)
    ensures Rearranged(s, u, lo, hi)
  {
  }

  /** The entries of a list are those of its three parts around lo and hi. */
  lemma ThreeParts(s: seq<int>, lo: int, hi: int)
    requires 0 <= lo <= hi <= |s|
    ensures multiset(s) == multiset(s[..lo]) + multiset(s[lo..hi]) + multiset(s[hi..])
  {
    assert s == s[..lo] + s[lo..hi] + s[hi..];
  }

  /** A rearranged range holds the entries it held. */
  lemma RangeEntries(s: seq<int>, t: seq<int>, lo: int, hi: int)
    requires Rearranged(s, t, lo, hi)
    ensures multiset(t[lo..hi]) == multiset(s[lo..hi])
  {
    assert t[..lo] == s[..lo];
    assert t[hi..] == s[hi..];
    ThreeParts(s, lo, hi);
    ThreeParts(t, lo, hi);
    forall x ensures multiset(t[lo..hi])[x] == multiset(s[lo..hi])[x] {
      assert multiset(t)[x] == multiset(s)[x];
    }
  }

  /** Entries lo .. hi-1 all below v stay below v when rearranged. */
  lemma BelowKept(s: seq<int>, t: seq<int>, lo: int, hi: int, v: int)
    requires Rearranged(s, t, lo, hi) && forall i :: lo <= i < hi ==> s[i] < v
    ensures forall i :: lo <= i < hi ==> t[i] < v
  {
    RangeEntries(s, t, lo, hi);
    var x := s[lo..hi];
    forall i | lo <= i < hi ensures t[i] < v {
      assert t[i] == t[lo..hi][i - lo];
      assert t[i] in multiset(x);
      var j :| 0 <= j < |x| && x[j] == t[i];
      assert x[j] == s[lo + j];
    }
  }

  /** Entries lo .. hi-1 all at or above v stay so when rearranged. */
  lemma AboveKept(s: seq<int>, t: seq<int>, lo: int, hi: int, v: int)
    requires Rearranged(s, t, lo, hi) && forall i :: lo <= i < hi ==> s[i] >= v
    ensures forall i :: lo <= i < hi ==> t[i] >= v
  {
    RangeEntries(s, t, lo, hi);
    var x := s[lo..hi];
    forall i | lo <= i < hi ensures t[i] >= v {
      assert t[i] == t[lo..hi][i - lo];
      assert t[i] in multiset(x);
      var j :| 0 <= j < |x| && x[j] == t[i];
      assert x[j] == s[lo + j];
    }
  }

  /** During the scan: the pivot at left, entries left+1 .. b-1 below it, entries b .. k-1 at or above it. */
  ghost predicate Scanned(s: seq<int>, pivot: int, left: int, b: int, k: int) {
    && 0 <= left < b <= k <= |s| && s[left] == pivot
    && (forall i :: left < i < b ==> s[i] < pivot)
    && (forall i :: b <= i < k ==> s[i] >= pivot)
  }

  /** In the range [left, right] of t, the entries before p are below t[p] and those after it are not. */
  ghost predicate SplitAt(t: seq<int>, left: int, p: int, right: int) {
    && 0 <= left <= p <= right < |t|
    && (forall i :: left <= i < p ==> t[i] < t[p])
    && (forall i :: p < i <= right ==> t[i] >= t[p])
  }

  /** The scan ends with the pivot at the returned position and the range [left, hi - 1] split there. */
  lemma {:induction false} ScanSplits(s: seq<int>, pivot: int, left: int, b: int, k: int, hi: int)
    requires Scanned(s, pivot, left, b, k) && k <= hi <= |s|
    ensures Scan(s, pivot, left, b, k, hi).0[Scan(s, pivot, left, b, k, hi).1] == pivot
    ensures SplitAt(Scan(s, pivot, left, b, k, hi).0, left, Scan(s, pivot, left, b, k, hi).1, hi - 1)
    decreases hi - k
  {
    if k == hi {
      var t := s[left := s[b - 1]][b - 1 := pivot];
      assert Scan(s, pivot, left, b, k, hi) == (t, b - 1);
      assert forall i :: left < i < b - 1 ==> t[i] == s[i];
      assert forall i :: b - 1 < i < hi ==> t[i] == s[i];
    } else if s[k] < pivot {
      var t := s[b := s[k]][k := s[b]];
      assert Scanned(t, pivot, left, b + 1, k + 1);
      ScanSplits(t, pivot, left, b + 1, k + 1, hi);
    } else {
      ScanSplits(s, pivot, left, b, k + 1, hi);
    }
  }

  /** The scan only swaps entries left .. hi-1 among themselves. */
  lemma {:induction false} ScanRearranges(s: seq<int>, pivot: int, left: int, b: int, k: int, hi: int)
    requires 0 <= left < b <= k <= hi <= |s| && s[left] == pivot
    ensures Rearranged(s, Scan(s, pivot, left, b, k, hi).0, left, hi)
    decreases hi - k
  {
    if k == hi {
      SwapRearranges(s, left, b - 1, left, hi);
    } else if s[k] < pivot {
      var t := s[b := s[k]][k := s[b]];
      SwapRearranges(s, b, k, left, hi);
      ScanRearranges(t, pivot, left, b + 1, k + 1, hi);
      RearrangedTrans(s, t, Scan(t, pivot, left, b + 1, k + 1, hi).0, left, hi);
    } else {
      ScanRearranges(s, pivot, left, b, k + 1, hi);
    }
  }

  /** After partition the pivot s[left] stands at the returned position and the range is split there. */
  lemma PartitionSplits(s: seq<int>, left: int, right: int)
    requires 0 <= left <= right < |s|
    ensures Partition(s, left, right).0[Partition(s, left, right).1] == s[left]
    ensures SplitAt(Partition(s, left, right).0, left, Partition(s, left, right).1, right)
  {
    ScanSplits(s, s[left], left, left + 1, left + 1, right + 1);
  }

  /** Partition rearranges the range [left, right] and nothing else. */
  lemma PartitionRearranges(s: seq<int>, left: int, right: int)
    requires 0 <= left <= right < |s|
    ensures Rearranged(s, Partition(s, left, right).0, left, right + 1)
  {
    ScanRearranges(s, s[left], left, left + 1, left + 1, right + 1);
  }

  // ---------------------------------------------------------------------------
  // sortArray
  // ---------------------------------------------------------------------------

  /** sortArray(A, left, right): the list it leaves and the comparisons it counts. */
  function SortOf(s: seq<int>, left: int, right: int): (r: (seq<int>, int))
    requires left < right ==> 0 <= left && right < |s|
    ensures |r.0| == |s|
    decreases right - left
  {
    if left >= right then (s, 0)
    else
      var split := Partition(s, left, right);
      var low := SortOf(split.0, left, split.1 - 1);
      var high := SortOf(low.0, split.1 + 1, right);
      (high.0, right - left + low.1 + high.1)
  }

  /** Entries lo .. hi-1 of t are in ascending order. */
  ghost predicate SortedRange(t: seq<int>, lo: int, hi: int) {
    0 <= lo <= hi <= |t| && forall i, j :: lo <= i < j < hi ==> t[i] <= t[j]
  }

  /**
   * The step of SortOfSorts: s1 is partitioned around s1[p], s2 sorts its
   * left side and s3 then its right side; the whole range of s3 is sorted.
   */
  lemma SortedAround(s1: seq<int>, s2: seq<int>, s3: seq<int>, left: int, p: int, right: int)
    requires SplitAt(s1, left, p, right)
    requires Rearranged(s1, s2, left, p) && SortedRange(s2, left, p)
    requires Rearranged(s2, s3, p + 1, right + 1) && SortedRange(s3, p + 1, right + 1)
    ensures SortedRange(s3, left, right + 1)
  {
    var v := s1[p];
    BelowKept(s1, s2, left, p, v);
    assert forall i :: p + 1 <= i < right + 1 ==> s2[i] == s1[i];
    AboveKept(s2, s3, p + 1, right + 1, v);
    assert forall i :: left <= i <= p ==> s3[i] == s2[i];
    assert s3[p] == v;
  }

  /** The step of SortOfRearranges: partition and the two sorts of its sides rearrange the range. */
  lemma RearrangesStep(s: seq<int>, left: int, right: int)
    requires 0 <= left < right < |s|
    requires Rearranged(Partition(s, left, right).0,
                        SortOf(Partition(s, left, right).0, left, Partition(s, left, right).1 - 1).0,
                        left, Partition(s, left, right).1)
    requires Rearranged(SortOf(Partition(s, left, right).0, left, Partition(s, left, right).1 - 1).0,
                        SortOf(SortOf(Partition(s, left, right).0, left, Partition(s, left, right).1 - 1).0,
                               Partition(s, left, right).1 + 1, right).0,
                        Partition(s, left, right).1 + 1, right + 1)
    ensures Rearranged(s, SortOf(s, left, right).0, left, right + 1)
  {
    var s1, p := Partition(s, left, right).0, Partition(s, left, right).1;
    var s2 := SortOf(s1, left, p - 1).0;
    var s3 := SortOf(s2, p + 1, right).0;
    assert SortOf(s, left, right).0 == s3;
    PartitionRearranges(s, left, right);
    RearrangedWiden(s1, s2, left, p, left, right + 1);
    RearrangedWiden(s2, s3, p + 1, right + 1, left, right + 1);
    RearrangedTrans(s, s1, s2, left, right + 1);
    RearrangedTrans(s, s2, s3, left, right + 1);
  }

  /** sortArray rearranges the range [left, right] and nothing else. */
  lemma {:induction false} SortOfRearranges(s: seq<int>, left: int, right: int)
    requires 0 <= left <= right + 1 <= |s|
    ensures Rearranged(s, SortOf(s, left, right).0, left, right + 1)
    decreases right - left
  {
    if left < right {
      var s1, p := Partition(s, left, right).0, Partition(s, left, right).1;
      SortOfRearranges(s1, left, p - 1);
      SortOfRearranges(SortOf(s1, left, p - 1).0, p + 1, right);
      RearrangesStep(s, left, right);
    } else {
      assert SortOf(s, left, right).0 == s;
    }
  }

  /** SortOf over a range of at least two entries: partition, then sort the left side, then the right side. */
  lemma SortOfStep(s: seq<int>, left: int, right: int)
    requires 0 <= left < right < |s|
    ensures var split := Partition(s, left, right);
      SortOf(s, left, right).0 == SortOf(SortOf(split.0, left, split.1 - 1).0, split.1 + 1, right).0
  {
  }

  /** Sorting both sides of a range split at p sorts the range. */
  lemma SortedSides(s1: seq<int>, left: int, p: int, right: int)
    requires SplitAt(s1, left, p, right)
    requires SortedRange(SortOf(s1, left, p - 1).0, left, p)
    requires SortedRange(SortOf(SortOf(s1, left, p - 1).0, p + 1, right).0, p + 1, right + 1)
    ensures SortedRange(SortOf(SortOf(s1, left, p - 1).0, p + 1, right).0, left, right + 1)
  {
    var s2 := SortOf(s1, left, p - 1).0;
    SortOfRearranges(s1, left, p - 1);
    SortOfRearranges(s2, p + 1, right);
    SortedAround(s1, s2, SortOf(s2, p + 1, right).0, left, p, right);
  }

  /** The step of SortOfSorts: sorted sides around the partition make a sorted range. */
  lemma SortsStep(s: seq<int>, left: int, right: int)
    requires 0 <= left < right < |s|
    requires var split := Partition(s, left, right);
      && SortedRange(SortOf(split.0, left, split.1 - 1).0, left, split.1)
      && SortedRange(SortOf(SortOf(split.0, left, split.1 - 1).0, split.1 + 1, right).0, split.1 + 1, right + 1)
    ensures var split := Partition(s, left, right);
      SortedRange(SortOf(SortOf(split.0, left, split.1 - 1).0, split.1 + 1, right).0, left, right + 1)
  {
    PartitionSplits(s, left, right);
    SortedSides(Partition(s, left, right).0, left, Partition(s, left, right).1, right);
  }

  /** sortArray leaves the range [left, right] sorted. */
  lemma {:induction false} SortOfSorts(s: seq<int>, left: int, right: int)
    requires 0 <= left <= right + 1 <= |s|
    ensures SortedRange(SortOf(s, left, right).0, left, right + 1)
    decreases right - left
  {
    if left < right {
      var s1, p := Partition(s, left, right).0, Partition(s, left, right).1;
      SortOfSorts(s1, left, p - 1);
      SortOfSorts(SortOf(s1, left, p - 1).0, p + 1, right);
      SortsStep(s, left, right);
      SortOfStep(s, left, right);
    }
  }

  /** sortArray(list, 0, size - 1), as main calls it, leaves the list merge sort produces. */
  lemma SortOfWhole(s: seq<int>)
    ensures SortOf(s, 0, |s| - 1).0 == MergeSorted(s)
  {
    var t := SortOf(s, 0, |s| - 1).0;
    SortOfRearranges(s, 0, |s| - 1);
    SortOfSorts(s, 0, |s| - 1);
    assert multiset(t) == multiset(s);
    MergeSortedCorrect(s);
    SortedPermutationUnique(t, MergeSorted(s));
  }

  /** The number of pairs among n entries, 0 + 1 + ... + (n - 1). */
  function Pairs(n: int): (c: int)
    ensures c >= 0
  {
    if n <= 1 then 0 else n - 1 + Pairs(n - 1)
  }

  lemma {:induction false} PairsClosed(n: nat)
    ensures 2 * Pairs(n) == n * (n - 1)
  {
    if n > 1 {
      PairsClosed(n - 1);
      assert (n - 1) * (n - 2) == (n - 1) * n - 2 * (n - 1);
      assert (n - 1) * n == n * (n - 1);
    }
  }

  /** Splitting p + q + 1 entries into p and q around a pivot loses pairs. */
  lemma {:induction false} PairsSplit(p: nat, q: nat)
    ensures Pairs(p) + Pairs(q) + p + q <= Pairs(p + q + 1)
  {
    if q > 0 {
      PairsSplit(p, q - 1);
    }
  }

  /**
   * sortArray counts no comparison for a range of at most one entry, and for
   * a range of n entries at least n - 1 and at most n * (n - 1) / 2.
   */
  lemma {:induction false} SortOfCount(s: seq<int>, left: int, right: int)
    requires left < right ==> 0 <= left && right < |s|
    ensures left >= right ==> SortOf(s, left, right).1 == 0
    ensures left <= right ==> right - left <= SortOf(s, left, right).1 <= Pairs(right - left + 1)
    decreases right - left
  {
    if left < right {
      var s1, p := Partition(s, left, right).0, Partition(s, left, right).1;
      SortOfCount(s1, left, p - 1);
      SortOfCount(SortOf(s1, left, p - 1).0, p + 1, right);
      PairsSplit(p - left, right - p);
    }
  }

  // ---------------------------------------------------------------------------
  // The object
  // ---------------------------------------------------------------------------

  class QuickSort {
    var comparisons: int

    constructor()
      ensures comparisons == 0
    {
      comparisons := 0;
    }

    /** partitionArray(A, left, right) */
    static method PartitionArray(a: array<int>, left: int, right: int) returns (p: int)
      requires 0 <= left <= right < a.Length
      modifies a
      ensures (a[..], p) == Partition(old(a[..]), left, right)
    {
      ghost var s0 := a[..];
      var pivot := a[left];
      var boundary := left + 1;
      for scanner := left + 1 to right + 1
        invariant left + 1 <= boundary <= scanner
        invariant Scan(s0, pivot, left, left + 1, left + 1, right + 1) == Scan(a[..], pivot, left, boundary, scanner, right + 1)
      {
        if a[scanner] < pivot {
          var temp := a[boundary];
          a[boundary] := a[scanner];
          a[scanner] := temp;
          boundary := boundary + 1;
        }
      }
      a[left] := a[boundary - 1];
      a[boundary - 1] := pivot;
      p := boundary - 1;
    }

    /** sortArray(A, left, right) */
    method SortArray(a: array<int>, left: int, right: int)
      requires left < right ==> 0 <= left && right < a.Length
      modifies this, a
      ensures a[..] == SortOf(old(a[..]), left, right).0
      ensures comparisons == old(comparisons) + SortOf(old(a[..]), left, right).1
      decreases right - left
    {
      if left >= right {
        return;
      }
      var pivot := PartitionArray(a, left, right);
      comparisons := comparisons + right - left;
      SortArray(a, left, pivot - 1);
      SortArray(a, pivot + 1, right);
    }
  }
}
