/**
 * Top-down merge sort on lists of integers: merge appends the smaller head of
 * the two halves (the first half's on a tie) until both are used up, and the
 * sort splits at len / 2, sorts both halves and merges them.
 */
module MergeSort {

  predicate Sorted(s: seq<int>) {
    forall i, j :: 0 <= i < j < |s| ==> s[i] <= s[j]
  }

  /** The list merge builds from a and b, written as a recursion on the two heads. */
  function Merged(a: seq<int>, b: seq<int>): seq<int>
    decreases |a| + |b|
  {
    if |a| == 0 then b
    else if |b| == 0 then a
    else if a[0] > b[0] then [b[0]] + Merged(a, b[1..])
    else [a[0]] + Merged(a[1..], b)
  }

  /** The list the sort returns. */
  function MergeSorted(s: seq<int>): seq<int>
    decreases |s|
  {
    if |s| <= 1 then s else Merged(MergeSorted(s[..|s| / 2]), MergeSorted(s[|s| / 2..]))
  }

  // ---------------------------------------------------------------------------
  // What merging and sorting achieve
  // ---------------------------------------------------------------------------

  /** Merging keeps every element of both halves, with its multiplicity. */
  lemma {:induction false} MergedPermutes(a: seq<int>, b: seq<int>)
    ensures multiset(Merged(a, b)) == multiset(a) + multiset(b)
    decreases |a| + |b|
  {
    if |a| == 0 || |b| == 0 {
    } else if a[0] > b[0] {
      MergedPermutes(a, b[1..]);
      assert Merged(a, b) == [b[0]] + Merged(a, b[1..]);
      assert b == [b[0]] + b[1..];
      assert multiset(b) == multiset{b[0]} + multiset(b[1..]);
    } else {
      MergedPermutes(a[1..], b);
      assert Merged(a, b) == [a[0]] + Merged(a[1..], b);
      assert a == [a[0]] + a[1..];
      assert multiset(a) == multiset{a[0]} + multiset(a[1..]);
    }
  }

  /** Every element of a sorted list is at least its head. */
  lemma SortedHead(s: seq<int>, x: int)
    requires Sorted(s) && |s| > 0 && x in multiset(s)
    ensures s[0] <= x
  {
    var i :| 0 <= i < |s| && s[i] == x;
  }

  /** x is at most every element of s. */
  predicate LowerBound(x: int, s: seq<int>) {
    forall k :: 0 <= k < |s| ==> x <= s[k]
  }

  /** A lower bound of both halves bounds their merge. */
  lemma MergedLower(x: int, a: seq<int>, b: seq<int>)
    requires LowerBound(x, a) && LowerBound(x, b)
    ensures LowerBound(x, Merged(a, b))
  {
    var r := Merged(a, b);
    MergedPermutes(a, b);
    forall k | 0 <= k < |r| ensures x <= r[k] {
      assert r[k] in multiset(r);
      if r[k] in multiset(a) {
        assert r[k] in a;
      } else {
        assert r[k] in b;
      }
    }
  }

  lemma ConsSorted(x: int, r: seq<int>)
    requires Sorted(r) && LowerBound(x, r)
    ensures Sorted([x] + r)
  {
  }

  /** Merging two sorted lists gives a sorted list. */
  lemma {:induction false} MergedSorted(a: seq<int>, b: seq<int>)
    requires Sorted(a) && Sorted(b)
    ensures Sorted(Merged(a, b))
    decreases |a| + |b|
  {
    if |a| == 0 || |b| == 0 {
    } else if a[0] > b[0] {
      MergedSorted(a, b[1..]);
      assert LowerBound(b[0], a) && LowerBound(b[0], b[1..]);
      MergedLower(b[0], a, b[1..]);
      ConsSorted(b[0], Merged(a, b[1..]));
    } else {
      MergedSorted(a[1..], b);
      assert LowerBound(a[0], a[1..]) && LowerBound(a[0], b);
      MergedLower(a[0], a[1..], b);
      ConsSorted(a[0], Merged(a[1..], b));
    }
  }

  /** The sort returns a sorted permutation of its input. */
  lemma {:induction false} MergeSortedCorrect(s: seq<int>)
    ensures Sorted(MergeSorted(s)) && multiset(MergeSorted(s)) == multiset(s)
    decreases |s|
  {
    if |s| > 1 {
      var a, b := s[..|s| / 2], s[|s| / 2..];
      var sa, sb := MergeSorted(a), MergeSorted(b);
      assert MergeSorted(s) == Merged(sa, sb);
      MergeSortedCorrect(a);
      MergeSortedCorrect(b);
      MergedSorted(sa, sb);
      MergedPermutes(sa, sb);
      assert s == a + b;
      assert multiset(s) == multiset(a) + multiset(b);
    }
  }

  /** A sorted permutation is unique, so the sort agrees with any other correct sort. */
  lemma {:induction false} SortedPermutationUnique(s: seq<int>, t: seq<int>)
    requires Sorted(s) && Sorted(t) && multiset(s) == multiset(t)
    ensures s == t
    decreases |s|
  {
    if s != [] {
      assert s[0] in multiset(t);
      assert t[0] in multiset(s);
      SortedHead(t, s[0]);
      SortedHead(s, t[0]);
      assert s[0] == t[0];
      assert s == [s[0]] + s[1..] && t == [t[0]] + t[1..];
      assert multiset(s) == multiset{s[0]} + multiset(s[1..]);
      assert multiset(t) == multiset{t[0]} + multiset(t[1..]);
      assert multiset(s[1..]) == multiset(s) - multiset{s[0]};
      assert multiset(t[1..]) == multiset(t) - multiset{t[0]};
      SortedPermutationUnique(s[1..], t[1..]);
    } else {
      assert |t| == |multiset(t)|;
    }
  }

  // ---------------------------------------------------------------------------
  // The Java methods
  // ---------------------------------------------------------------------------

  /** The next element merge appends is the second half's head. */
  lemma TakeSecond(a: seq<int>, b: seq<int>, i: nat, j: nat)
    requires i <= |a| && j < |b| && (i == |a| || a[i] > b[j])
    ensures Merged(a[i..], b[j..]) == [b[j]] + Merged(a[i..], b[j + 1..])
  {
    assert b[j..][1..] == b[j + 1..];
  }

  /** The next element merge appends is the first half's head. */
  lemma TakeFirst(a: seq<int>, b: seq<int>, i: nat, j: nat)
    requires i < |a| && j <= |b| && (j == |b| || a[i] <= b[j])
    ensures Merged(a[i..], b[j..]) == [a[i]] + Merged(a[i + 1..], b[j..])
  {
    assert a[i..][1..] == a[i + 1..];
  }

  lemma Regroup(s: seq<int>, x: int, m: seq<int>, t: seq<int>)
    requires s + ([x] + m) == t
    ensures (s + [x]) + m == t
  {
  }

  /** merge: the indexed loop over the two halves. */
  method Merge(firstHalf: seq<int>, secondHalf: seq<int>) returns (sorted: seq<int>)
    ensures sorted == Merged(firstHalf, secondHalf)
    ensures multiset(sorted) == multiset(firstHalf) + multiset(secondHalf)
    ensures Sorted(firstHalf) && Sorted(secondHalf) ==> Sorted(sorted)
  {
    var first, second := |firstHalf|, |secondHalf|;
    var length := first + second;
    sorted := [];
    var i, j := 0, 0;
    var k := 0;
    assert firstHalf[i..] == firstHalf && secondHalf[j..] == secondHalf;
    while k < length
      invariant 0 <= i <= first && 0 <= j <= second && k == i + j <= length
      invariant sorted + Merged(firstHalf[i..], secondHalf[j..]) == Merged(firstHalf, secondHalf)
      decreases length - k
    {
      var x;
      if i >= first {
        TakeSecond(firstHalf, secondHalf, i, j);
        x := secondHalf[j];
        j := j + 1;
      } else if j >= second {
        TakeFirst(firstHalf, secondHalf, i, j);
        x := firstHalf[i];
        i := i + 1;
      } else if firstHalf[i] > secondHalf[j] {
        TakeSecond(firstHalf, secondHalf, i, j);
        x := secondHalf[j];
        j := j + 1;
      } else {
        TakeFirst(firstHalf, secondHalf, i, j);
        x := firstHalf[i];
        i := i + 1;
      }
      Regroup(sorted, x, Merged(firstHalf[i..], secondHalf[j..]), Merged(firstHalf, secondHalf));
      sorted := sorted + [x];
      k := k + 1;
    }
    MergedPermutes(firstHalf, secondHalf);
    if Sorted(firstHalf) && Sorted(secondHalf) {
      MergedSorted(firstHalf, secondHalf);
    }
  }

  /** sortArray (mSort in the second copy): sort both halves, then merge them. The input is only read. */
  method SortArray(inputList: seq<int>) returns (r: seq<int>)
    ensures r == MergeSorted(inputList)
    ensures Sorted(r) && multiset(r) == multiset(inputList)
    ensures |inputList| <= 1 ==> r == inputList
    decreases |inputList|
  {
    var len := |inputList|;
    if len <= 1 {
      r := inputList;
    } else {
      var firstHalf := SortArray(inputList[..len / 2]);
      var secondHalf := SortArray(inputList[len / 2..]);
      r := Merge(firstHalf, secondHalf);
    }
    MergeSortedCorrect(inputList);
  }
}
