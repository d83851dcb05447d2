/**
 * Median maintenance: the integers of a stream are split between a max-heap
 * on the left and a min-heap on the right, each seeded with a sentinel
 * (Integer.MIN_VALUE on the left, Integer.MAX_VALUE on the right), so that
 * the median is always at the top of one of them. The heaps are modelled by
 * the multisets of keys they hold.
 */
module Median {
  import opened Wrappers
  import JavaInt

  // ---------------------------------------------------------------------------
  // Order statistics of a multiset
  // ---------------------------------------------------------------------------

  /** x is a smallest key of m. */
  predicate IsMin(m: multiset<int>, x: int) {
    x in m && forall y :: y in m ==> x <= y
  }

  /** x is a largest key of m. */
  predicate IsMax(m: multiset<int>, x: int) {
    x in m && forall y :: y in m ==> y <= x
  }

  /** Some key of a non-empty multiset. */
  lemma Pick<T>(m: multiset<T>) returns (x: T)
    requires |m| > 0
    ensures x in m
  {
    x :| x in m;
  }

  /** Every non-empty multiset has a smallest key. */
  lemma {:induction false} MinWitness(m: multiset<int>) returns (x: int)
    requires |m| > 0
    ensures IsMin(m, x)
  {
    var k := Pick(m);
    var rest := m - multiset{k};
    assert m == rest + multiset{k};
    if |rest| > 0 {
      var z := MinWitness(rest);
      x := if k < z then k else z;
    } else {
      x := k;
    }
  }

  /** Every non-empty multiset has a largest key. */
  lemma {:induction false} MaxWitness(m: multiset<int>) returns (x: int)
    requires |m| > 0
    ensures IsMax(m, x)
  {
    var k := Pick(m);
    var rest := m - multiset{k};
    assert m == rest + multiset{k};
    if |rest| > 0 {
      var z := MaxWitness(rest);
      x := if z < k then k else z;
    } else {
      x := k;
    }
  }

  lemma MinExists(m: multiset<int>)
    requires |m| > 0
    ensures exists x :: IsMin(m, x)
  {
    var x := MinWitness(m);
  }

  lemma MaxExists(m: multiset<int>)
    requires |m| > 0
    ensures exists x :: IsMax(m, x)
  {
    var x := MaxWitness(m);
  }

  /** The smallest key, what a min-heap's peekMin returns. */
  function Min(m: multiset<int>): (r: int)
    requires |m| > 0
    ensures r in m && forall y :: y in m ==> r <= y
  {
    MinExists(m);
    var x :| IsMin(m, x); x
  }

  /** The largest key, what a max-heap's peekMax returns. */
  function Max(m: multiset<int>): (r: int)
    requires |m| > 0
    ensures r in m && forall y :: y in m ==> y <= r
  {
    MaxExists(m);
    var x :| IsMax(m, x); x
  }

  /** a splits into lo, one copy of x and hi, with every key of lo at most x and every key of hi at least x. */
  ghost predicate SplitAt(a: multiset<int>, x: int, lo: multiset<int>, hi: multiset<int>) {
    a == lo + multiset{x} + hi && (forall y :: y in lo ==> y <= x) && (forall y :: y in hi ==> x <= y)
  }

  /** x is the j-th smallest key of a (counting from 1): a splits around one copy of x with j - 1 keys below it. */
  ghost predicate IsRank(a: multiset<int>, x: int, j: int) {
    exists lo: multiset<int>, hi: multiset<int> :: SplitAt(a, x, lo, hi) && |lo| == j - 1
  }

  /** The j-th smallest key of a, found by removing the minimum j - 1 times. */
  function KthSmallest(a: multiset<int>, j: int): (r: int)
    requires 1 <= j <= |a|
    ensures r in a
    decreases j
  {
    if j == 1 then Min(a) else KthSmallest(a - multiset{Min(a)}, j - 1)
  }

  /** The lower median of the keys seen so far. */
  function LowerMedian(a: multiset<int>): int
    requires |a| > 0
  {
    KthSmallest(a, (|a| + 1) / 2)
  }

  /** A split of a around x gives x its rank. */
  lemma RankWitness(a: multiset<int>, x: int, lo: multiset<int>, hi: multiset<int>)
    requires SplitAt(a, x, lo, hi)
    ensures IsRank(a, x, |lo| + 1)
  {
  }

  /** The minimum goes below any split of what remains once it is taken away. */
  lemma SplitAfterMin(a: multiset<int>, x: int, lo: multiset<int>, hi: multiset<int>)
    requires |a| > 0 && SplitAt(a - multiset{Min(a)}, x, lo, hi)
    ensures SplitAt(a, x, multiset{Min(a)} + lo, hi)
  {
    var m := Min(a);
    assert m <= x by {
      assert x in a - multiset{m};
    }
    assert a == multiset{m} + (a - multiset{m});
  }

  /** The minimum splits a with nothing below it. */
  lemma MinSplit(a: multiset<int>)
    requires |a| > 0
    ensures SplitAt(a, Min(a), multiset{}, a - multiset{Min(a)})
  {
    var m := Min(a);
    assert forall y :: y in a - multiset{m} ==> y in a;
    assert a == multiset{} + multiset{m} + (a - multiset{m});
  }

  /** KthSmallest finds a key with j - 1 keys of a below it. */
  lemma {:induction false} KthSplit(a: multiset<int>, j: int) returns (lo: multiset<int>, hi: multiset<int>)
    requires 1 <= j <= |a|
    ensures SplitAt(a, KthSmallest(a, j), lo, hi) && |lo| == j - 1
    decreases j
  {
    var m := Min(a);
    var rest := a - multiset{m};
    if j == 1 {
      MinSplit(a);
      lo, hi := multiset{}, rest;
    } else {
      assert |rest| == |a| - 1;
      var lo', hi' := KthSplit(rest, j - 1);
      SplitAfterMin(a, KthSmallest(rest, j - 1), lo', hi');
      lo, hi := multiset{m} + lo', hi';
    }
  }

  /** KthSmallest finds a key whose rank is j. */
  lemma KthIsRank(a: multiset<int>, j: int)
    requires 1 <= j <= |a|
    ensures IsRank(a, KthSmallest(a, j), j)
  {
    var lo, hi := KthSplit(a, j);
  }

  /** A sub-multiset is no larger. */
  lemma SubCard(p: multiset<int>, q: multiset<int>)
    requires p <= q
    ensures |p| <= |q|
  {
    assert q == p + (q - p);
  }

  /** Below a smaller key of rank j sit fewer keys than below a larger one of the same rank, had there been one. */
  lemma BelowSmaller(a: multiset<int>, x: int, lo1: multiset<int>, hi1: multiset<int>, y: int, lo2: multiset<int>, hi2: multiset<int>)
    requires x < y
    requires a == lo1 + multiset{x} + hi1 && forall v :: v in lo1 ==> v <= x
    requires a == lo2 + multiset{y} + hi2 && forall v :: v in hi2 ==> y <= v
    ensures lo1 + multiset{x} <= lo2
  {
    var below := lo1 + multiset{x};
    forall v ensures below[v] <= lo2[v] {
      if v < y {
        assert (multiset{y} + hi2)[v] == 0;
        assert a[v] == lo2[v] + (multiset{y} + hi2)[v];
        assert a[v] == below[v] + hi1[v];
      } else {
        assert v !in below;
      }
    }
  }

  /** Two keys of the same rank: the first is not smaller. */
  lemma RankBelow(a: multiset<int>, x: int, y: int, j: int)
    requires IsRank(a, x, j) && IsRank(a, y, j)
    ensures y <= x
  {
    var lo1, hi1 :| a == lo1 + multiset{x} + hi1 && |lo1| == j - 1 &&
      (forall v :: v in lo1 ==> v <= x) && (forall v :: v in hi1 ==> x <= v);
    var lo2, hi2 :| a == lo2 + multiset{y} + hi2 && |lo2| == j - 1 &&
      (forall v :: v in lo2 ==> v <= y) && (forall v :: v in hi2 ==> y <= v);
    if x < y {
      BelowSmaller(a, x, lo1, hi1, y, lo2, hi2);
      SubCard(lo1 + multiset{x}, lo2);
      assert false;
    }
  }

  /** Every key of rank j is the one KthSmallest finds. */
  lemma RankUnique(a: multiset<int>, x: int, j: int)
    requires 1 <= j <= |a| && IsRank(a, x, j)
    ensures x == KthSmallest(a, j)
  {
    KthIsRank(a, j);
    RankBelow(a, x, KthSmallest(a, j), j);
    RankBelow(a, KthSmallest(a, j), x, j);
  }

  // ---------------------------------------------------------------------------
  // The two heaps
  // ---------------------------------------------------------------------------

  /** Every key on the left is at most every key on the right. */
  ghost predicate Separated(left: multiset<int>, right: multiset<int>) {
    forall l, r :: l in left && r in right ==> l <= r
  }

  /** As in the source: the sizes differ by at most one. */
  predicate Balanced(left: multiset<int>, right: multiset<int>) {
    -1 <= |right| - |left| <= 1
  }

  /** Every key of the stream is an int. */
  ghost predicate Ints(a: multiset<int>) {
    forall y :: y in a ==> JavaInt.InRange(y)
  }

  /** insertAndReturnMedian's first step: left when below the right heap's minimum, right otherwise. */
  function Place(left: multiset<int>, right: multiset<int>, number: int): (multiset<int>, multiset<int>)
    requires |right| > 0
  {
    if number < Min(right) then (left + multiset{number}, right) else (left, right + multiset{number})
  }

  /** balanceHeaps: when the sizes differ by more than one, the larger heap's top moves across. */
  function Balance(left: multiset<int>, right: multiset<int>): (multiset<int>, multiset<int>) {
    if Balanced(left, right) then (left, right)
    else if |right| > |left| then (left + multiset{Min(right)}, right - multiset{Min(right)})
    else (left - multiset{Max(left)}, right + multiset{Max(left)})
  }

  /** currentMedian: the right heap's minimum when it is the larger one, the left heap's maximum otherwise. */
  function MedianOf(left: multiset<int>, right: multiset<int>): int
    requires |left| > 0 && |right| > 0
  {
    if |left| < |right| then Min(right) else Max(left)
  }

  /** Placing a key keeps the heaps separated, keeps every key, adds the new one and moves the size gap by one. */
  lemma PlaceKeeps(left: multiset<int>, right: multiset<int>, number: int)
    requires |left| > 0 && |right| > 0 && Separated(left, right)
    ensures var (l, r) := Place(left, right, number);
            Separated(l, r) && |l| > 0 && |r| > 0 && l + r == left + right + multiset{number} &&
            |r| - |l| == |right| - |left| + (if number < Min(right) then -1 else 1)
  {
  }

  /** Balancing keeps the heaps separated and the keys the same, and brings a gap of two down to zero. */
  lemma BalanceKeeps(left: multiset<int>, right: multiset<int>)
    requires |left| > 0 && |right| > 0 && Separated(left, right) && -2 <= |right| - |left| <= 2
    ensures var (l, r) := Balance(left, right);
            Separated(l, r) && |l| > 0 && |r| > 0 && l + r == left + right && Balanced(l, r)
  {
    if !Balanced(left, right) {
      var (l, r) := Balance(left, right);
      if |right| > |left| {
        var m := Min(right);
        forall x, y | x in l && y in r ensures x <= y {
          if x != m { assert x in left; }
          assert y in right;
        }
        assert l + r == left + right;
      } else {
        var m := Max(left);
        forall x, y | x in l && y in r ensures x <= y {
          if y != m { assert y in right; }
          assert x in left;
        }
        assert l + r == left + right;
      }
    }
  }

  /** The median the heaps report has rank |left| of all their keys, or |left| + 1 when the right heap is larger. */
  lemma MedianRank(left: multiset<int>, right: multiset<int>)
    requires |left| > 0 && |right| > 0 && Separated(left, right) && Balanced(left, right)
    ensures IsRank(left + right, MedianOf(left, right), if |left| < |right| then |left| + 1 else |left|)
  {
    if |left| < |right| {
      var m := Min(right);
      var hi := right - multiset{m};
      assert left + right == left + multiset{m} + hi;
      assert forall y :: y in hi ==> y in right;
      RankWitness(left + right, m, left, hi);
    } else {
      var m := Max(left);
      var lo := left - multiset{m};
      assert left + right == lo + multiset{m} + right;
      assert forall y :: y in lo ==> y in left;
      RankWitness(left + right, m, lo, right);
    }
  }

  /** Every key lies between the two sentinels. */
  ghost predicate Bounded(all: multiset<int>) {
    forall z :: z in all ==> JavaInt.INT_MIN <= z <= JavaInt.INT_MAX
  }

  /** When there is a key below x, a split of keys bounded by the sentinels puts the low sentinel below x. */
  lemma LowSentinelBelow(all: multiset<int>, x: int, lo: multiset<int>, hi: multiset<int>)
    requires all == lo + multiset{x} + hi && Bounded(all) && JavaInt.INT_MIN in all && |lo| > 0
    requires forall y :: y in lo ==> y <= x
    requires forall y :: y in hi ==> x <= y
    ensures JavaInt.INT_MIN in lo
  {
    var low := Min(lo);
    assert low in all;
  }

  /** When there is a key above x, a split of keys bounded by the sentinels puts the high sentinel above x. */
  lemma HighSentinelAbove(all: multiset<int>, x: int, lo: multiset<int>, hi: multiset<int>)
    requires all == lo + multiset{x} + hi && Bounded(all) && JavaInt.INT_MAX in all && |hi| > 0
    requires forall y :: y in lo ==> y <= x
    requires forall y :: y in hi ==> x <= y
    ensures JavaInt.INT_MAX in hi
  {
    var high := Max(hi);
    assert high in all;
  }

  lemma Cancel(p: multiset<int>, q: multiset<int>, c: multiset<int>)
    requires p + c == q + c
    ensures p == q
  {
    assert forall v :: p[v] == (p + c)[v] - c[v];
    assert forall v :: q[v] == (q + c)[v] - c[v];
  }

  /** With the low sentinel below x and the high one above it, removing both keeps the split. */
  lemma PeelSentinels(a: multiset<int>, x: int, lo: multiset<int>, hi: multiset<int>)
    requires a + multiset{JavaInt.INT_MIN, JavaInt.INT_MAX} == lo + multiset{x} + hi
    requires JavaInt.INT_MIN in lo && JavaInt.INT_MAX in hi
    requires forall y :: y in lo ==> y <= x
    requires forall y :: y in hi ==> x <= y
    ensures IsRank(a, x, |lo|)
  {
    var lo' := lo - multiset{JavaInt.INT_MIN};
    var hi' := hi - multiset{JavaInt.INT_MAX};
    assert a + multiset{JavaInt.INT_MIN, JavaInt.INT_MAX} == (lo' + multiset{x} + hi') + multiset{JavaInt.INT_MIN, JavaInt.INT_MAX} by {
      assert lo == lo' + multiset{JavaInt.INT_MIN};
      assert hi == hi' + multiset{JavaInt.INT_MAX};
    }
    Cancel(a, lo' + multiset{x} + hi', multiset{JavaInt.INT_MIN, JavaInt.INT_MAX});
    assert forall y :: y in lo' ==> y in lo;
    assert forall y :: y in hi' ==> y in hi;
    assert |lo'| == |lo| - 1;
    RankWitness(a, x, lo', hi');
  }

  /** Taking the two sentinels away lowers a rank strictly between them by one. */
  lemma DropSentinels(a: multiset<int>, x: int, j: int)
    requires Ints(a) && 2 <= j <= |a| + 1
    requires IsRank(a + multiset{JavaInt.INT_MIN, JavaInt.INT_MAX}, x, j)
    ensures IsRank(a, x, j - 1)
  {
    var all := a + multiset{JavaInt.INT_MIN, JavaInt.INT_MAX};
    var lo, hi :| all == lo + multiset{x} + hi && |lo| == j - 1 &&
      (forall y :: y in lo ==> y <= x) && (forall y :: y in hi ==> x <= y);
    assert Bounded(all) && JavaInt.INT_MIN in all && JavaInt.INT_MAX in all;
    assert |hi| > 0 by {
      assert |all| == |lo| + 1 + |hi|;
    }
    LowSentinelBelow(all, x, lo, hi);
    HighSentinelAbove(all, x, lo, hi);
    PeelSentinels(a, x, lo, hi);
  }

  // ---------------------------------------------------------------------------
  // The running median of a stream
  // ---------------------------------------------------------------------------

  /** The lower median after each key of the stream. */
  function Medians(numbers: seq<int>): (r: seq<int>)
    ensures |r| == |numbers|
  {
    if |numbers| == 0 then []
    else Medians(numbers[..|numbers| - 1]) + [LowerMedian(multiset(numbers))]
  }

  /** The sum of a sequence of keys, unbounded (the source keeps it in a long). */
  function Sum(s: seq<int>): int {
    if |s| == 0 then 0 else Sum(s[..|s| - 1]) + s[|s| - 1]
  }

  lemma MediansAppend(numbers: seq<int>, x: int)
    ensures Medians(numbers + [x]) == Medians(numbers) + [LowerMedian(multiset(numbers + [x]))]
  {
    assert (numbers + [x])[..|numbers|] == numbers;
  }

  lemma SumAppend(s: seq<int>, x: int)
    ensures Sum(s + [x]) == Sum(s) + x
  {
    assert (s + [x])[..|s|] == s;
  }

  /** The heaps hold the stream and the two sentinels, separated and balanced. */
  ghost predicate Holds(left: multiset<int>, right: multiset<int>, stream: seq<int>) {
    |left| > 0 && |right| > 0 && Separated(left, right) && Balanced(left, right) &&
    Ints(multiset(stream)) &&
    left + right == multiset(stream) + multiset{JavaInt.INT_MIN, JavaInt.INT_MAX}
  }

  /** Placing a key and balancing keeps the heaps' invariant, with the key appended to the stream. */
  lemma InsertHolds(left: multiset<int>, right: multiset<int>, stream: seq<int>, number: int)
    requires Holds(left, right, stream) && JavaInt.InRange(number)
    ensures var (l, r) := Place(left, right, number);
            Holds(Balance(l, r).0, Balance(l, r).1, stream + [number])
  {
    PlaceKeeps(left, right, number);
    var (l, r) := Place(left, right, number);
    BalanceKeeps(l, r);
    assert multiset(stream + [number]) == multiset(stream) + multiset{number};
  }

  /** Once a key has been seen, the heaps report the lower median of the stream. */
  lemma MedianIsLower(left: multiset<int>, right: multiset<int>, stream: seq<int>)
    requires Holds(left, right, stream) && |stream| > 0
    ensures MedianOf(left, right) == LowerMedian(multiset(stream))
  {
    var a := multiset(stream);
    StreamRank(left, right, a);
    RankUnique(a, MedianOf(left, right), (|a| + 1) / 2);
  }

  /** The median the heaps report has the lower median's rank among the keys of the stream. */
  lemma StreamRank(left: multiset<int>, right: multiset<int>, a: multiset<int>)
    requires |left| > 0 && |right| > 0 && Separated(left, right) && Balanced(left, right)
    requires Ints(a) && |a| > 0 && left + right == a + multiset{JavaInt.INT_MIN, JavaInt.INT_MAX}
    ensures IsRank(a, MedianOf(left, right), (|a| + 1) / 2)
  {
    var j := if |left| < |right| then |left| + 1 else |left|;
    MedianRank(left, right);
    assert |left| + |right| == |a| + 2 by {
      assert |left + right| == |left| + |right|;
      assert |a + multiset{JavaInt.INT_MIN, JavaInt.INT_MAX}| == |a| + 2;
    }
    MedianIndex(|left|, |right|, |a|);
    DropSentinels(a, MedianOf(left, right), j);
  }

  /** The rank the heaps report, once the two sentinels are counted, is one past the lower median's. */
  lemma MedianIndex(l: int, r: int, k: int)
    requires l > 0 && r > 0 && k > 0 && l + r == k + 2 && -1 <= r - l <= 1
    ensures var j := if l < r then l + 1 else l;
            j == (k + 1) / 2 + 1 && 2 <= j <= k + 1
  {
  }

  /** The heaps of MedianMaintenance, with the keys inserted so far. */
  class MedianMaintenance {
    var leftHeap: multiset<int>
    var rightHeap: multiset<int>
    ghost var stream: seq<int>

    ghost predicate Valid()
      reads this
    {
      Holds(leftHeap, rightHeap, stream)
    }

    constructor()
      ensures Valid() && stream == []
      ensures leftHeap == multiset{JavaInt.INT_MIN} && rightHeap == multiset{JavaInt.INT_MAX}
    {
      rightHeap := multiset{JavaInt.INT_MAX};
      leftHeap := multiset{JavaInt.INT_MIN};
      stream := [];
    }

    method BalanceHeaps()
      modifies this
      ensures (leftHeap, rightHeap) == Balance(old(leftHeap), old(rightHeap)) && stream == old(stream)
    {
      var rightSize := |rightHeap|;
      var leftSize := |leftHeap|;
      if -1 <= rightSize - leftSize <= 1 {
        return;
      } else if rightSize > leftSize {
        var m := Min(rightHeap);
        rightHeap := rightHeap - multiset{m};
        leftHeap := leftHeap + multiset{m};
      } else {
        var m := Max(leftHeap);
        leftHeap := leftHeap - multiset{m};
        rightHeap := rightHeap + multiset{m};
      }
    }

    /** The lower median of the keys inserted so far. */
    method CurrentMedian() returns (median: int)
      requires Valid()
      ensures median == MedianOf(leftHeap, rightHeap)
      ensures |stream| > 0 ==> median == LowerMedian(multiset(stream))
    {
      if |leftHeap| < |rightHeap| {
        median := Min(rightHeap);
      } else {
        median := Max(leftHeap);
      }
      if |stream| > 0 {
        MedianIsLower(leftHeap, rightHeap, stream);
      }
    }

    /** Insert one key of the stream and report the lower median of all the keys so far. */
    method InsertAndReturnMedian(number: int) returns (median: int)
      requires Valid() && JavaInt.InRange(number)
      modifies this
      ensures (leftHeap, rightHeap) == Balance(Place(old(leftHeap), old(rightHeap), number).0, Place(old(leftHeap), old(rightHeap), number).1)
      ensures Valid() && stream == old(stream) + [number]
      ensures median == LowerMedian(multiset(stream))
    {
      InsertHolds(leftHeap, rightHeap, stream, number);
      if number < Min(rightHeap) {
        leftHeap := leftHeap + multiset{number};
      } else {
        rightHeap := rightHeap + multiset{number};
      }
      stream := stream + [number];
      BalanceHeaps();
      median := CurrentMedian();
    }
  }

  /** One more key: the running sum of medians grows by the new lower median. */
  lemma SumStep(numbers: seq<int>, count: nat, median: int)
    requires count < |numbers| && median == LowerMedian(multiset(numbers[..count] + [numbers[count]]))
    ensures numbers[..count + 1] == numbers[..count] + [numbers[count]]
    ensures Sum(Medians(numbers[..count + 1])) == Sum(Medians(numbers[..count])) + median
  {
    assert numbers[..count + 1] == numbers[..count] + [numbers[count]];
    MediansAppend(numbers[..count], numbers[count]);
    SumAppend(Medians(numbers[..count]), median);
  }

  /** One turn of the driver's loop: the next key goes in and its median is added to the running sum. */
  method Feed(obj: MedianMaintenance, numbers: seq<int>, count: nat, medianSum: int) returns (newSum: int)
    requires count < |numbers| && JavaInt.InRange(numbers[count])
    requires obj.Valid() && obj.stream == numbers[..count] && medianSum == Sum(Medians(numbers[..count]))
    modifies obj
    ensures obj.Valid() && obj.stream == numbers[..count + 1] && newSum == Sum(Medians(numbers[..count + 1]))
  {
    var median := obj.InsertAndReturnMedian(numbers[count]);
    SumStep(numbers, count, median);
    newSum := medianSum + median;
  }

  /**
   * The driver: feed the stream in, add up the medians and report the sum
   * modulo the number of keys (Java's remainder); None for an empty stream,
   * where the source divides by zero.
   */
  method Run(numbers: seq<int>) returns (result: Option<int>)
    requires forall i :: 0 <= i < |numbers| ==> JavaInt.InRange(numbers[i])
    ensures result.None? <==> |numbers| == 0
    ensures result.Some? ==> result.value == JavaInt.Rem(Sum(Medians(numbers)), |numbers|)
  {
    var obj := new MedianMaintenance();
    var medianSum := 0;
    var count := 0;
    while count < |numbers|
      invariant 0 <= count <= |numbers|
      invariant obj.Valid() && obj.stream == numbers[..count]
      invariant medianSum == Sum(Medians(numbers[..count]))
    {
      medianSum := Feed(obj, numbers, count, medianSum);
      count := count + 1;
    }
    assert numbers[..count] == numbers;
    if count == 0 {
      return None;
    }
    return Some(JavaInt.Rem(medianSum, count));
  }
}
