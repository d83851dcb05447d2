/**
 * Randomized selection of the i-th order statistic of a list of integers, in
 * place. Each partition swaps a randomly chosen entry of the range to its
 * left end and then partitions as quick sort does. The random choice is a
 * parameter: Pick(draw, left, right) is the pivot index drawn for the range
 * [left, right]. A run never visits the same range twice, so every sequence of
 * draws is some such function.
 */
module RSelect {
  import QuickSort
  import Median

  /**
   * The pivot index drawn for the range [left, right]: nextInt(left, right + 1)
   * gives some index of the range, and draw(left, right) says which one (a
   * value outside the range stands for its nearer end).
   */
  function Pick(draw: (int, int) -> int, left: int, right: int): (i: int)
    requires left <= right
    ensures left <= i <= right
    ensures left <= draw(left, right) <= right ==> i == draw(left, right)
  {
    var d := draw(left, right);
    if d < left then left else if d > right then right else d
  }

  /** partitionArray(A, left, right) with the pivot drawn at pivotIndex: swapped to left, then partitioned. */
  function Partition(s: seq<int>, left: int, right: int, pivotIndex: int): (r: (seq<int>, int))
    requires 0 <= left <= pivotIndex <= right < |s|
    ensures |r.0| == |s| && left <= r.1 <= right
  {
    QuickSort.Partition(s[left := s[pivotIndex]][pivotIndex := s[left]], left, right)
  }

  /** The drawn pivot ends at the returned position and the range is split there. */
  lemma PartitionSplits(s: seq<int>, left: int, right: int, pivotIndex: int)
    requires 0 <= left <= pivotIndex <= right < |s|
    ensures Partition(s, left, right, pivotIndex).0[Partition(s, left, right, pivotIndex).1] == s[pivotIndex]
    ensures QuickSort.SplitAt(Partition(s, left, right, pivotIndex).0, left, Partition(s, left, right, pivotIndex).1, right)
  {
    QuickSort.PartitionSplits(s[left := s[pivotIndex]][pivotIndex := s[left]], left, right);
  }

  /** The partition rearranges the range [left, right] and nothing else. */
  lemma PartitionRearranges(s: seq<int>, left: int, right: int, pivotIndex: int)
    requires 0 <= left <= pivotIndex <= right < |s|
    ensures QuickSort.Rearranged(s, Partition(s, left, right, pivotIndex).0, left, right + 1)
  {
    var s0 := s[left := s[pivotIndex]][pivotIndex := s[left]];
    QuickSort.SwapRearranges(s, left, pivotIndex, left, right + 1);
    QuickSort.PartitionRearranges(s0, left, right);
    QuickSort.RearrangedTrans(s, s0, QuickSort.Partition(s0, left, right).0, left, right + 1);
  }

  /**
   * findOrderedStatistic(A, left, right, statistic): the list it leaves and
   * the index it returns.
   */
  function Select(s: seq<int>, left: int, right: int, statistic: int, draw: (int, int) -> int): (r: (seq<int>, int))
    requires left < right ==> 0 <= left && right < |s|
    ensures |r.0| == |s|
    decreases right - left
  {
    if left >= right then (s, left)
    else
      var split := Partition(s, left, right, Pick(draw, left, right));
      if split.1 == statistic then split
      else if split.1 > statistic then Select(split.0, left, split.1 - 1, statistic, draw)
      else Select(split.0, split.1 + 1, right, statistic, draw)
  }

  /** findOrderedStatistic returns the partition's pivot position when it is the statistic. */
  lemma SelectHere(s: seq<int>, left: int, right: int, statistic: int, draw: (int, int) -> int)
    requires 0 <= left < right < |s|
    requires Partition(s, left, right, Pick(draw, left, right)).1 == statistic
    ensures Select(s, left, right, statistic, draw) == Partition(s, left, right, Pick(draw, left, right))
  {
  }

  /** findOrderedStatistic goes on left of a pivot position above the statistic. */
  lemma SelectLeft(s: seq<int>, left: int, right: int, statistic: int, draw: (int, int) -> int)
    requires 0 <= left < right < |s|
    requires Partition(s, left, right, Pick(draw, left, right)).1 > statistic
    ensures Select(s, left, right, statistic, draw)
         == Select(Partition(s, left, right, Pick(draw, left, right)).0, left,
                   Partition(s, left, right, Pick(draw, left, right)).1 - 1, statistic, draw)
  {
  }

  /** findOrderedStatistic goes on right of a pivot position below the statistic. */
  lemma SelectRight(s: seq<int>, left: int, right: int, statistic: int, draw: (int, int) -> int)
    requires 0 <= left < right < |s|
    requires Partition(s, left, right, Pick(draw, left, right)).1 < statistic
    ensures Select(s, left, right, statistic, draw)
         == Select(Partition(s, left, right, Pick(draw, left, right)).0,
                   Partition(s, left, right, Pick(draw, left, right)).1 + 1, right, statistic, draw)
  {
  }

  /** The returned index lies in [left, right + 1], and is the statistic itself when that lies in [left, right]. */
  lemma {:induction false} SelectIndex(s: seq<int>, left: int, right: int, statistic: int, draw: (int, int) -> int)
    requires 0 <= left <= right + 1 <= |s|
    ensures left <= Select(s, left, right, statistic, draw).1 <= right + 1
    ensures left <= statistic <= right ==> Select(s, left, right, statistic, draw).1 == statistic
    decreases right - left
  {
    if left < right {
      var split := Partition(s, left, right, Pick(draw, left, right));
      if split.1 > statistic {
        SelectIndex(split.0, left, split.1 - 1, statistic, draw);
      } else if split.1 < statistic {
        SelectIndex(split.0, split.1 + 1, right, statistic, draw);
      }
    }
  }

  /** Rearranging part of a range already rearranged leaves the range rearranged. */
  lemma RearrangedWithin(s: seq<int>, s1: seq<int>, t: seq<int>, left: int, right: int, lo: int, hi: int)
    requires QuickSort.Rearranged(s, s1, left, right) && QuickSort.Rearranged(s1, t, lo, hi)
    requires left <= lo && hi <= right
    ensures QuickSort.Rearranged(s, t, left, right)
  {
    QuickSort.RearrangedWiden(s1, t, lo, hi, left, right);
    QuickSort.RearrangedTrans(s, s1, t, left, right);
  }

  /** A partition followed by a rearrangement of its left side rearranges the range. */
  lemma RearrangedLeft(s: seq<int>, left: int, right: int, statistic: int, draw: (int, int) -> int)
    requires 0 <= left < right < |s|
    requires var split := Partition(s, left, right, Pick(draw, left, right));
      QuickSort.Rearranged(split.0, Select(split.0, left, split.1 - 1, statistic, draw).0, left, split.1)
    ensures var split := Partition(s, left, right, Pick(draw, left, right));
      QuickSort.Rearranged(s, Select(split.0, left, split.1 - 1, statistic, draw).0, left, right + 1)
  {
    var split := Partition(s, left, right, Pick(draw, left, right));
    PartitionRearranges(s, left, right, Pick(draw, left, right));
    RearrangedWithin(s, split.0, Select(split.0, left, split.1 - 1, statistic, draw).0, left, right + 1, left, split.1);
  }

  /** A partition followed by a rearrangement of its right side rearranges the range. */
  lemma RearrangedRight(s: seq<int>, left: int, right: int, statistic: int, draw: (int, int) -> int)
    requires 0 <= left < right < |s|
    requires var split := Partition(s, left, right, Pick(draw, left, right));
      QuickSort.Rearranged(split.0, Select(split.0, split.1 + 1, right, statistic, draw).0, split.1 + 1, right + 1)
    ensures var split := Partition(s, left, right, Pick(draw, left, right));
      QuickSort.Rearranged(s, Select(split.0, split.1 + 1, right, statistic, draw).0, left, right + 1)
  {
    var split := Partition(s, left, right, Pick(draw, left, right));
    PartitionRearranges(s, left, right, Pick(draw, left, right));
    RearrangedWithin(s, split.0, Select(split.0, split.1 + 1, right, statistic, draw).0, left, right + 1, split.1 + 1, right + 1);
  }

  /** findOrderedStatistic rearranges the range [left, right] and nothing else. */
  lemma {:induction false} SelectRearranges(s: seq<int>, left: int, right: int, statistic: int, draw: (int, int) -> int)
    requires 0 <= left <= right + 1 <= |s|
    ensures QuickSort.Rearranged(s, Select(s, left, right, statistic, draw).0, left, right + 1)
    decreases right - left
  {
    if left < right {
      var split := Partition(s, left, right, Pick(draw, left, right));
      if split.1 == statistic {
        PartitionRearranges(s, left, right, Pick(draw, left, right));
        SelectHere(s, left, right, statistic, draw);
      } else if split.1 > statistic {
        SelectRearranges(split.0, left, split.1 - 1, statistic, draw);
        RearrangedLeft(s, left, right, statistic, draw);
        SelectLeft(s, left, right, statistic, draw);
      } else {
        SelectRearranges(split.0, split.1 + 1, right, statistic, draw);
        RearrangedRight(s, left, right, statistic, draw);
        SelectRight(s, left, right, statistic, draw);
      }
    } else {
      assert Select(s, left, right, statistic, draw).0 == s;
    }
  }

  /** Entry k of t is at least every entry of [left, k) and at most every entry of (k, right]. */
  ghost predicate Selected(t: seq<int>, left: int, k: int, right: int) {
    && 0 <= left <= k <= right < |t|
    && (forall i :: left <= i < k ==> t[i] <= t[k])
    && (forall i :: k < i <= right ==> t[k] <= t[i])
  }

  /**
   * The step of SelectSplits when the search goes to the left side [left, p - 1]
   * of a range split at p: entries p .. right stay and are above the found one.
   */
  lemma SelectedLeft(s1: seq<int>, left: int, p: int, right: int, statistic: int, draw: (int, int) -> int)
    requires QuickSort.SplitAt(s1, left, p, right) && statistic < p
    requires Selected(Select(s1, left, p - 1, statistic, draw).0, left, statistic, p - 1)
    ensures Selected(Select(s1, left, p - 1, statistic, draw).0, left, statistic, right)
  {
    var t := Select(s1, left, p - 1, statistic, draw).0;
    SelectRearranges(s1, left, p - 1, statistic, draw);
    QuickSort.BelowKept(s1, t, left, p, s1[p]);
    assert forall i :: p <= i <= right ==> t[i] == s1[i];
  }

  /** The same step when the search goes to the right side [p + 1, right]. */
  lemma SelectedRight(s1: seq<int>, left: int, p: int, right: int, statistic: int, draw: (int, int) -> int)
    requires QuickSort.SplitAt(s1, left, p, right) && p < statistic
    requires Selected(Select(s1, p + 1, right, statistic, draw).0, p + 1, statistic, right)
    ensures Selected(Select(s1, p + 1, right, statistic, draw).0, left, statistic, right)
  {
    var t := Select(s1, p + 1, right, statistic, draw).0;
    SelectRearranges(s1, p + 1, right, statistic, draw);
    QuickSort.AboveKept(s1, t, p + 1, right + 1, s1[p]);
    assert forall i :: left <= i <= p ==> t[i] == s1[i];
  }

  /** The left-side step of SelectSplits, from the list findOrderedStatistic is given. */
  lemma SplitsLeft(s: seq<int>, left: int, right: int, statistic: int, draw: (int, int) -> int)
    requires 0 <= left < right < |s|
    requires var split := Partition(s, left, right, Pick(draw, left, right));
      statistic < split.1 && Selected(Select(split.0, left, split.1 - 1, statistic, draw).0, left, statistic, split.1 - 1)
    ensures var split := Partition(s, left, right, Pick(draw, left, right));
      Selected(Select(split.0, left, split.1 - 1, statistic, draw).0, left, statistic, right)
  {
    var split := Partition(s, left, right, Pick(draw, left, right));
    PartitionSplits(s, left, right, Pick(draw, left, right));
    SelectedLeft(split.0, left, split.1, right, statistic, draw);
  }

  /** The right-side step of SelectSplits, from the list findOrderedStatistic is given. */
  lemma SplitsRight(s: seq<int>, left: int, right: int, statistic: int, draw: (int, int) -> int)
    requires 0 <= left < right < |s|
    requires var split := Partition(s, left, right, Pick(draw, left, right));
      split.1 < statistic && Selected(Select(split.0, split.1 + 1, right, statistic, draw).0, split.1 + 1, statistic, right)
    ensures var split := Partition(s, left, right, Pick(draw, left, right));
      Selected(Select(split.0, split.1 + 1, right, statistic, draw).0, left, statistic, right)
  {
    var split := Partition(s, left, right, Pick(draw, left, right));
    PartitionSplits(s, left, right, Pick(draw, left, right));
    SelectedRight(split.0, left, split.1, right, statistic, draw);
  }

  /** The step of SelectSplits where the pivot lands on the statistic. */
  lemma SplitsHere(s: seq<int>, left: int, right: int, statistic: int, draw: (int, int) -> int)
    requires 0 <= left < right < |s|
    requires Partition(s, left, right, Pick(draw, left, right)).1 == statistic
    ensures Selected(Select(s, left, right, statistic, draw).0, left, statistic, right)
  {
    PartitionSplits(s, left, right, Pick(draw, left, right));
    SelectHere(s, left, right, statistic, draw);
  }

  /**
   * When the statistic lies in [left, right], the list is left with no larger
   * entry before it and no smaller one after it within the range.
   */
  lemma {:induction false} SelectSplits(s: seq<int>, left: int, right: int, statistic: int, draw: (int, int) -> int)
    requires 0 <= left <= statistic <= right < |s|
    ensures Selected(Select(s, left, right, statistic, draw).0, left, statistic, right)
    decreases right - left
  {
    if left < right {
      var split := Partition(s, left, right, Pick(draw, left, right));
      if split.1 == statistic {
        SplitsHere(s, left, right, statistic, draw);
      } else if split.1 > statistic {
        SelectSplits(split.0, left, split.1 - 1, statistic, draw);
        SplitsLeft(s, left, right, statistic, draw);
        SelectLeft(s, left, right, statistic, draw);
      } else {
        SelectSplits(split.0, split.1 + 1, right, statistic, draw);
        SplitsRight(s, left, right, statistic, draw);
        SelectRight(s, left, right, statistic, draw);
      }
    } else {
      assert Select(s, left, right, statistic, draw).0 == s;
    }
  }

  /** An entry no smaller than those before it and no larger than those after it splits the range's entries. */
  lemma SelectedSplit(t: seq<int>, left: int, k: int, right: int)
    requires Selected(t, left, k, right)
    ensures Median.SplitAt(multiset(t[left..right + 1]), t[k], multiset(t[left..k]), multiset(t[k + 1..right + 1]))
  {
    var lo, hi := t[left..k], t[k + 1..right + 1];
    assert t[left..right + 1] == lo + [t[k]] + hi;
    forall y | y in multiset(lo) ensures y <= t[k] {
      var i :| 0 <= i < |lo| && lo[i] == y;
      assert lo[i] == t[left + i];
    }
    forall y | y in multiset(hi) ensures t[k] <= y {
      var i :| 0 <= i < |hi| && hi[i] == y;
      assert hi[i] == t[k + 1 + i];
    }
  }

  /** Such an entry has its rank in the range: it is the (k - left + 1)-th smallest. */
  lemma SelectedRank(t: seq<int>, left: int, k: int, right: int)
    requires Selected(t, left, k, right)
    ensures t[k] == Median.KthSmallest(multiset(t[left..right + 1]), k - left + 1)
  {
    var a, lo, hi := multiset(t[left..right + 1]), multiset(t[left..k]), multiset(t[k + 1..right + 1]);
    SelectedSplit(t, left, k, right);
    Median.RankWitness(a, t[k], lo, hi);
    assert |lo| == k - left;
    assert |a| == right + 1 - left;
    Median.RankUnique(a, t[k], k - left + 1);
  }

  /**
   * findOrderedStatistic(A, left, right, statistic) with the statistic in
   * [left, right] returns the statistic's index, and the entry there is the
   * (statistic - left + 1)-th smallest of the range's entries as given,
   * whatever pivots are drawn.
   */
  lemma SelectFinds(s: seq<int>, left: int, right: int, statistic: int, draw: (int, int) -> int)
    requires 0 <= left <= statistic <= right < |s|
    ensures Select(s, left, right, statistic, draw).1 == statistic
    ensures Select(s, left, right, statistic, draw).0[statistic]
         == Median.KthSmallest(multiset(s[left..right + 1]), statistic - left + 1)
  {
    var t := Select(s, left, right, statistic, draw).0;
    SelectIndex(s, left, right, statistic, draw);
    SelectSplits(s, left, right, statistic, draw);
    SelectRearranges(s, left, right, statistic, draw);
    QuickSort.RangeEntries(s, t, left, right + 1);
    SelectedRank(t, left, statistic, right);
  }

  /** partitionArray(A, left, right), with the random draw given as pivotIndex. */
  method PartitionArray(a: array<int>, left: int, right: int, pivotIndex: int) returns (p: int)
    requires 0 <= left <= pivotIndex <= right < a.Length
    modifies a
    ensures (a[..], p) == Partition(old(a[..]), left, right, pivotIndex)
  {
    var pivot := a[pivotIndex];
    var temp := a[left];
    a[left] := pivot;
    a[pivotIndex] := temp;
    // From here on the partition is that of quick sort's partitionArray.
    p := QuickSort.QuickSort.PartitionArray(a, left, right);
  }

  /** findOrderedStatistic(A, left, right, statistic), with the draws given by pick. */
  method FindOrderedStatistic(a: array<int>, left: int, right: int, statistic: int, draw: (int, int) -> int)
    returns (index: int)
    requires left < right ==> 0 <= left && right < a.Length
    modifies a
    ensures (a[..], index) == Select(old(a[..]), left, right, statistic, draw)
    decreases right - left
  {
    if left >= right {
      return left;
    }
    var pivot := PartitionArray(a, left, right, Pick(draw, left, right));
    if pivot == statistic {
      return pivot;
    } else if pivot > statistic {
      index := FindOrderedStatistic(a, left, pivot - 1, statistic, draw);
    } else {
      index := FindOrderedStatistic(a, pivot + 1, right, statistic, draw);
    }
  }
}
