/**
 * Inversion counting by merge sort: the merge of two sorted halves adds, each
 * time it takes the second half's head, the number of elements still waiting
 * in the first half. The count is the number of pairs i < j with A[i] > A[j].
 */
module CountInversions {
  import opened MergeSort

  /** How many elements of t are below x. */
  function Below(x: int, t: seq<int>): nat
    decreases |t|
  {
    if |t| == 0 then 0 else (if t[0] < x then 1 else 0) + Below(x, t[1..])
  }

  /** The number of pairs i < j with s[i] > s[j]. */
  function Inversions(s: seq<int>): nat
    decreases |s|
  {
    if |s| == 0 then 0 else Below(s[0], s[1..]) + Inversions(s[1..])
  }

  /** The number of pairs (x in a, y in b) with x > y. */
  function Cross(a: seq<int>, b: seq<int>): nat
    decreases |a|
  {
    if |a| == 0 then 0 else Below(a[0], b) + Cross(a[1..], b)
  }

  /** What the merge loop counts: the first half's remaining length each time the second half's head is taken. */
  function Split(a: seq<int>, b: seq<int>): nat
    decreases |a| + |b|
  {
    if |a| == 0 || |b| == 0 then 0
    else if a[0] > b[0] then |a| + Split(a, b[1..])
    else Split(a[1..], b)
  }

  // ---------------------------------------------------------------------------
  // Counting lemmas
  // ---------------------------------------------------------------------------

  lemma {:induction false} BelowAppend(x: int, s: seq<int>, t: seq<int>)
    ensures Below(x, s + t) == Below(x, s) + Below(x, t)
    decreases |s|
  {
    if |s| > 0 {
      assert (s + t)[1..] == s[1..] + t;
      BelowAppend(x, s[1..], t);
    } else {
      assert s + t == t;
    }
  }

  /** Below counted with one element taken out. */
  lemma BelowRemove(x: int, u: seq<int>, k: nat)
    requires k < |u|
    ensures Below(x, u) == (if u[k] < x then 1 else 0) + Below(x, u[..k] + u[k + 1..])
  {
    assert u == u[..k] + ([u[k]] + u[k + 1..]);
    BelowAppend(x, u[..k], [u[k]] + u[k + 1..]);
    BelowAppend(x, u[..k], u[k + 1..]);
    assert ([u[k]] + u[k + 1..])[1..] == u[k + 1..];
  }

  /** The multiset of the tail of t, given that of t. */
  lemma TailMultiset(t: seq<int>, u: seq<int>, k: nat)
    requires 0 < |t| && k < |u| && multiset(t) == multiset(u) && u[k] == t[0]
    ensures multiset(t[1..]) == multiset(u[..k] + u[k + 1..])
  {
    assert t == [t[0]] + t[1..];
    assert multiset(t[1..]) == multiset(t) - multiset{t[0]};
    RemoveAt(u, k);
  }

  /** Below only depends on the multiset of t. */
  lemma {:induction false} BelowPermutation(x: int, t: seq<int>, u: seq<int>)
    requires multiset(t) == multiset(u)
    ensures Below(x, t) == Below(x, u)
    decreases |t|
  {
    if |t| == 0 {
      assert |u| == |multiset(u)| == 0;
    } else {
      assert t[0] in multiset(u);
      var k :| 0 <= k < |u| && u[k] == t[0];
      BelowRemove(x, u, k);
      TailMultiset(t, u, k);
      BelowPermutation(x, t[1..], u[..k] + u[k + 1..]);
    }
  }

  /** Removing the element at k removes one copy of it from the multiset. */
  lemma RemoveAt(u: seq<int>, k: nat)
    requires k < |u|
    ensures multiset(u[..k] + u[k + 1..]) == multiset(u) - multiset{u[k]}
  {
    assert u == u[..k] + [u[k]] + u[k + 1..];
  }

  lemma {:induction false} CrossAppend(s: seq<int>, t: seq<int>, b: seq<int>)
    ensures Cross(s + t, b) == Cross(s, b) + Cross(t, b)
    decreases |s|
  {
    if |s| > 0 {
      assert (s + t)[1..] == s[1..] + t;
      CrossAppend(s[1..], t, b);
    } else {
      assert s + t == t;
    }
  }

  /** Cross only depends on the multiset of its second argument. */
  lemma {:induction false} CrossPermutationRight(a: seq<int>, b: seq<int>, c: seq<int>)
    requires multiset(b) == multiset(c)
    ensures Cross(a, b) == Cross(a, c)
    decreases |a|
  {
    if |a| > 0 {
      BelowPermutation(a[0], b, c);
      CrossPermutationRight(a[1..], b, c);
    }
  }

  /** Cross counted with one element of its first argument taken out. */
  lemma CrossRemove(c: seq<int>, k: nat, b: seq<int>)
    requires k < |c|
    ensures Cross(c, b) == Below(c[k], b) + Cross(c[..k] + c[k + 1..], b)
  {
    assert c == c[..k] + ([c[k]] + c[k + 1..]);
    CrossAppend(c[..k], [c[k]] + c[k + 1..], b);
    CrossAppend(c[..k], c[k + 1..], b);
    assert ([c[k]] + c[k + 1..])[1..] == c[k + 1..];
  }

  /** Cross only depends on the multiset of its first argument. */
  lemma {:induction false} CrossPermutationLeft(a: seq<int>, c: seq<int>, b: seq<int>)
    requires multiset(a) == multiset(c)
    ensures Cross(a, b) == Cross(c, b)
    decreases |a|
  {
    if |a| == 0 {
      assert |c| == |multiset(c)| == 0;
    } else {
      assert a[0] in multiset(c);
      var k :| 0 <= k < |c| && c[k] == a[0];
      CrossRemove(c, k, b);
      TailMultiset(a, c, k);
      CrossPermutationLeft(a[1..], c[..k] + c[k + 1..], b);
    }
  }

  /** The inversions of a + b are those inside a, those inside b and the pairs across. */
  lemma {:induction false} InversionsAppend(a: seq<int>, b: seq<int>)
    ensures Inversions(a + b) == Inversions(a) + Inversions(b) + Cross(a, b)
    decreases |a|
  {
    if |a| > 0 {
      assert (a + b)[1..] == a[1..] + b;
      BelowAppend(a[0], a[1..], b);
      InversionsAppend(a[1..], b);
    } else {
      assert a + b == b;
    }
  }

  /** Every element of a above y. */
  lemma {:induction false} CrossAllAbove(a: seq<int>, y: int, t: seq<int>)
    requires forall i :: 0 <= i < |a| ==> a[i] > y
    ensures Cross(a, [y] + t) == |a| + Cross(a, t)
    decreases |a|
  {
    if |a| > 0 {
      assert ([y] + t)[1..] == t;
      CrossAllAbove(a[1..], y, t);
    }
  }

  /** Nothing in a sorted list is below a value at most its head. */
  lemma {:induction false} BelowNone(x: int, b: seq<int>)
    requires Sorted(b) && (|b| > 0 ==> x <= b[0])
    ensures Below(x, b) == 0
    decreases |b|
  {
    if |b| > 0 {
      BelowNone(x, b[1..]);
    }
  }

  lemma {:induction false} CrossEmpty(a: seq<int>)
    ensures Cross(a, []) == 0
    decreases |a|
  {
    if |a| > 0 {
      CrossEmpty(a[1..]);
    }
  }

  /** On sorted halves the merge loop counts exactly the pairs across the halves that are inverted. */
  lemma {:induction false} SplitCountsCross(a: seq<int>, b: seq<int>)
    requires Sorted(a) && Sorted(b)
    ensures Split(a, b) == Cross(a, b)
    decreases |a| + |b|
  {
    if |a| == 0 {
    } else if |b| == 0 {
      CrossEmpty(a);
    } else if a[0] > b[0] {
      SplitCountsCross(a, b[1..]);
      assert b == [b[0]] + b[1..];
      CrossAllAbove(a, b[0], b[1..]);
    } else {
      SplitCountsCross(a[1..], b);
      BelowNone(a[0], b);
    }
  }

  /** Merge sort counts the inversions of its input. */
  lemma {:induction false} SortCountsInversions(s: seq<int>)
    requires |s| > 1
    ensures var a, b := MergeSorted(s[..|s| / 2]), MergeSorted(s[|s| / 2..]);
            Inversions(s) == Inversions(s[..|s| / 2]) + Inversions(s[|s| / 2..]) + Split(a, b)
  {
    var a, b := s[..|s| / 2], s[|s| / 2..];
    assert s == a + b;
    InversionsAppend(a, b);
    MergeSortedCorrect(a);
    MergeSortedCorrect(b);
    SplitCountsCross(MergeSorted(a), MergeSorted(b));
    CrossPermutationLeft(a, MergeSorted(a), b);
    CrossPermutationRight(MergeSorted(a), b, MergeSorted(b));
  }

  // ---------------------------------------------------------------------------
  // The Java methods
  // ---------------------------------------------------------------------------

  lemma SplitSecond(a: seq<int>, b: seq<int>, i: nat, j: nat)
    requires i <= |a| && j < |b| && (i == |a| || a[i] > b[j])
    ensures Split(a[i..], b[j..]) == (if i < |a| then |a| - i else 0) + Split(a[i..], b[j + 1..])
  {
    assert b[j..][1..] == b[j + 1..];
  }

  lemma SplitFirst(a: seq<int>, b: seq<int>, i: nat, j: nat)
    requires i < |a| && j <= |b| && (j == |b| || a[i] <= b[j])
    ensures Split(a[i..], b[j..]) == Split(a[i + 1..], b[j..])
  {
    assert a[i..][1..] == a[i + 1..];
  }

  /** countSplitInversions: the merge loop, counting first - i each time the second half's head is taken. */
  method CountSplitInversions(firstHalf: seq<int>, secondHalf: seq<int>) returns (splitInversions: nat, sorted: seq<int>)
    ensures sorted == Merged(firstHalf, secondHalf) && splitInversions == Split(firstHalf, secondHalf)
    ensures multiset(sorted) == multiset(firstHalf) + multiset(secondHalf)
    ensures Sorted(firstHalf) && Sorted(secondHalf) ==> Sorted(sorted) && splitInversions == Cross(firstHalf, secondHalf)
  {
    var first, second := |firstHalf|, |secondHalf|;
    var length := first + second;
    sorted := [];
    splitInversions := 0;
    var i, j := 0, 0;
    var k := 0;
    assert firstHalf[i..] == firstHalf && secondHalf[j..] == secondHalf;
    while k < length
      invariant 0 <= i <= first && 0 <= j <= second && k == i + j <= length
      invariant sorted + Merged(firstHalf[i..], secondHalf[j..]) == Merged(firstHalf, secondHalf)
      invariant splitInversions + Split(firstHalf[i..], secondHalf[j..]) == Split(firstHalf, secondHalf)
      decreases length - k
    {
      var x;
      if i >= first {
        TakeSecond(firstHalf, secondHalf, i, j);
        SplitSecond(firstHalf, secondHalf, i, j);
        x := secondHalf[j];
        j := j + 1;
      } else if j >= second {
        TakeFirst(firstHalf, secondHalf, i, j);
        SplitFirst(firstHalf, secondHalf, i, j);
        x := firstHalf[i];
        i := i + 1;
      } else if firstHalf[i] > secondHalf[j] {
        TakeSecond(firstHalf, secondHalf, i, j);
        SplitSecond(firstHalf, secondHalf, i, j);
        x := secondHalf[j];
        splitInversions := splitInversions + (first - i);
        j := j + 1;
      } else {
        TakeFirst(firstHalf, secondHalf, i, j);
        SplitFirst(firstHalf, secondHalf, i, j);
        x := firstHalf[i];
        i := i + 1;
      }
      Regroup(sorted, x, Merged(firstHalf[i..], secondHalf[j..]), Merged(firstHalf, secondHalf));
      sorted := sorted + [x];
      k := k + 1;
    }
    MergedPermutes(firstHalf, secondHalf);
    if Sorted(firstHalf) && Sorted(secondHalf) {
      MergedSorted(firstHalf, secondHalf);
      SplitCountsCross(firstHalf, secondHalf);
    }
  }

  /** countArrayInversions: the inversions of both halves plus the split inversions, with the sorted list. */
  method CountArrayInversions(inputArray: seq<int>) returns (inversions: nat, sorted: seq<int>)
    ensures inversions == Inversions(inputArray)
    ensures sorted == MergeSorted(inputArray) && Sorted(sorted) && multiset(sorted) == multiset(inputArray)
    ensures |inputArray| <= 1 ==> inversions == 0 && sorted == inputArray
    decreases |inputArray|
  {
    var len := |inputArray|;
    if len <= 1 {
      inversions, sorted := 0, inputArray;
    } else {
      var firstCount, firstSorted := CountArrayInversions(inputArray[..len / 2]);
      var secondCount, secondSorted := CountArrayInversions(inputArray[len / 2..]);
      var splitCount;
      splitCount, sorted := CountSplitInversions(firstSorted, secondSorted);
      inversions := firstCount + secondCount + splitCount;
      SortCountsInversions(inputArray);
    }
    MergeSortedCorrect(inputArray);
  }
}
