/**
 * The binary min-heap of DataStructures/GenericMinHeap.java: a one-based
 * list of keys with slot 0 a sentinel (null in Java, never compared) and a
 * size counter. Keys are modelled as ints, ordered as Integer.compareTo
 * orders them.
 *
 * Its sift-up is the one of IndexedHeap.SiftUp; its sift-down, Sink
 * below, differs from the other heaps of the repository: it also compares a
 * lone left child, takes the left child on a tie, and swaps unless the
 * parent is strictly smaller, so it restores the full heap order.
 */
module GenericHeap {
  import opened Wrappers
  import opened IndexedHeap

  /** The smaller child of slot i, the left one on a tie. */
  function SmallerChild(keys: seq<int>, i: int): (c: int)
    requires 1 <= i && 2 * i < |keys|
    ensures (c == 2 * i || c == 2 * i + 1) && c < |keys|
    ensures keys[c] <= keys[2 * i] && (2 * i + 1 < |keys| ==> keys[c] <= keys[2 * i + 1])
    ensures 2 * i + 1 < |keys| && keys[2 * i + 1] == keys[2 * i] ==> c == 2 * i
  {
    if 2 * i + 1 < |keys| && keys[2 * i + 1] < keys[2 * i] then 2 * i + 1 else 2 * i
  }

  /** heapifyDown on the keys: swap with the smaller child until the parent is strictly less than it. */
  function Sink(keys: seq<int>, i: int): (r: seq<int>)
    requires 1 <= i
    ensures |r| == |keys|
    decreases |keys| - i
  {
    if 2 * i >= |keys| then keys
    else
      var c := SmallerChild(keys, i);
      if keys[i] < keys[c] then keys else Sink(Swapped(keys, i, c), c)
  }

  /** One swap with the smaller child keeps the sift-down precondition one level lower. */
  lemma SinkStep(keys: seq<int>, i: int)
    requires 1 <= i && 2 * i < |keys| && DownReady(keys, i)
    requires keys[SmallerChild(keys, i)] <= keys[i]
    ensures DownReady(Swapped(keys, i, SmallerChild(keys, i)), SmallerChild(keys, i))
  {
    var c0 := SmallerChild(keys, i);
    var k2 := Swapped(keys, i, c0);
    forall c | 2 <= c < |k2| && c / 2 != c0
      ensures k2[c / 2] <= k2[c]
    {
      if c == i {
      } else if c == c0 {
      } else if c / 2 == i {
        assert c == 2 * i || c == 2 * i + 1;
      } else {
        assert keys[c / 2] <= keys[c];
      }
    }
    forall c | 2 <= c < |k2| && c / 2 == c0
      ensures k2[c0 / 2] <= k2[c]
    {
      assert keys[c0] <= keys[c];
    }
  }

  /** heapifyDown restores the full heap order below a slot that was the only one out of place. */
  lemma {:induction false} SinkRestores(keys: seq<int>, i: int)
    requires 1 <= i && DownReady(keys, i)
    ensures FullHeap(Sink(keys, i))
    decreases |keys| - i
  {
    if 2 * i >= |keys| {
      forall c | 2 <= c < |keys|
        ensures keys[c / 2] <= keys[c]
      {
        assert c / 2 != i;
      }
    } else {
      var c0 := SmallerChild(keys, i);
      if keys[i] < keys[c0] {
        forall c | 2 <= c < |keys|
          ensures keys[c / 2] <= keys[c]
        {
          if c / 2 == i {
            assert c == 2 * i || c == 2 * i + 1;
          }
        }
      } else {
        SinkStep(keys, i);
        SinkRestores(Swapped(keys, i, c0), c0);
      }
    }
  }

  /** heapifyDown only swaps live slots, so the live keys stay the same. */
  lemma {:induction false} SinkPerm(keys: seq<int>, i: int)
    requires 1 <= i && i < |keys|
    ensures multiset(Sink(keys, i)[1..]) == multiset(keys[1..])
    decreases |keys| - i
  {
    if 2 * i < |keys| {
      var c := SmallerChild(keys, i);
      if keys[c] <= keys[i] {
        SwappedPerm(keys, i, c);
        SinkPerm(Swapped(keys, i, c), c);
      }
    }
  }

  /** bubbling up only swaps live slots, so the live keys stay the same. */
  lemma {:induction false} SiftUpPerm(keys: seq<int>, i: int)
    requires 1 <= i < |keys|
    ensures multiset(SiftUp(keys, i)[1..]) == multiset(keys[1..])
    decreases i
  {
    if i > 1 && keys[i / 2] > keys[i] {
      SwappedPerm(keys, i, i / 2);
      SiftUpPerm(Swapped(keys, i, i / 2), i / 2);
    }
  }

  /** The keys after extractMin: the last key moved to the root, the last slot dropped, then heapifyDown(1). */
  function AfterExtract(keys: seq<int>): (r: seq<int>)
    requires |keys| >= 2
    ensures |r| == |keys| - 1
  {
    Sink(LastToRoot(keys), 1)
  }

  /** The keys after insert(k): k appended, then bubbled up. */
  function AfterInsert(keys: seq<int>, k: int): (r: seq<int>)
    requires |keys| >= 1
    ensures |r| == |keys| + 1
  {
    SiftUp(keys + [k], |keys|)
  }

  /** The keys extractMin returns when called until the heap is empty. */
  function Drain(keys: seq<int>): seq<int>
    decreases |keys|
  {
    if |keys| <= 1 then [] else [keys[1]] + Drain(AfterExtract(keys))
  }

  predicate Sorted(s: seq<int>) {
    forall i, j :: 0 <= i < j < |s| ==> s[i] <= s[j]
  }

  /** extractMin keeps the full heap order and removes the root's key. */
  lemma ExtractKeepsHeap(keys: seq<int>)
    requires |keys| >= 2 && FullHeap(keys)
    ensures FullHeap(AfterExtract(keys))
    ensures multiset(AfterExtract(keys)[1..]) == multiset(keys[1..]) - multiset{keys[1]}
    ensures forall x :: x in multiset(keys[1..]) ==> keys[1] <= x
  {
    assert AlmostHeap(keys);
    LastToRootReady(keys);
    SinkRestores(LastToRoot(keys), 1);
    LastToRootPerm(keys);
    if |keys| > 2 {
      SinkPerm(LastToRoot(keys), 1);
    }
    forall x | x in multiset(keys[1..])
      ensures keys[1] <= x
    {
      var j :| 0 <= j < |keys[1..]| && keys[1..][j] == x;
      RootIsMin(keys, j + 1);
    }
  }

  /** insert keeps the full heap order and adds the key. */
  lemma InsertKeepsHeap(keys: seq<int>, k: int)
    requires |keys| >= 1 && FullHeap(keys)
    ensures FullHeap(AfterInsert(keys, k))
    ensures multiset(AfterInsert(keys, k)[1..]) == multiset(keys[1..]) + multiset{k}
  {
    var k2 := keys + [k];
    forall c | 2 <= c < |k2| && c != |keys|
      ensures k2[c / 2] <= k2[c]
    {
      assert keys[c / 2] <= keys[c];
    }
    if |keys| > 1 {
      SiftUpRestores(k2, |keys|, 0);
    }
    SiftUpPerm(k2, |keys|);
    assert k2[1..] == keys[1..] + [k];
  }

  /** A key at most every key of a sorted list can go in front of it. */
  lemma ConsSorted(h: int, t: seq<int>)
    requires Sorted(t) && forall x :: x in multiset(t) ==> h <= x
    ensures Sorted([h] + t)
  {
    forall j | 0 <= j < |t|
      ensures h <= t[j]
    {
      assert t[j] in multiset(t);
    }
  }

  /** Extracting until empty from a heap returns its keys in ascending order, each once. */
  lemma {:induction false} DrainSorted(keys: seq<int>)
    requires |keys| >= 1 && FullHeap(keys)
    ensures multiset(Drain(keys)) == multiset(keys[1..])
    ensures Sorted(Drain(keys))
    decreases |keys|
  {
    if |keys| > 1 {
      var rest := AfterExtract(keys);
      ExtractKeepsHeap(keys);
      DrainSorted(rest);
      var t := Drain(rest);
      assert forall x :: x in multiset(t) ==> x in multiset(keys[1..]);
      ConsSorted(keys[1], t);
    }
  }

  /** The run of the source's main: 4, 9, 12, 11, 20 inserted, then five extractions. */
  lemma ExampleRun()
    ensures AfterInsert(AfterInsert(AfterInsert(AfterInsert(AfterInsert([0], 4), 9), 12), 11), 20) == [0, 4, 9, 12, 11, 20]
    ensures Drain([0, 4, 9, 12, 11, 20]) == [4, 9, 11, 12, 20]
  {
    assert AfterInsert([0], 4) == [0, 4];
    assert AfterInsert([0, 4], 9) == [0, 4, 9];
    assert AfterInsert([0, 4, 9], 12) == [0, 4, 9, 12];
    assert AfterInsert([0, 4, 9, 12], 11) == [0, 4, 9, 12, 11];
    assert AfterInsert([0, 4, 9, 12, 11], 20) == [0, 4, 9, 12, 11, 20];
    assert AfterExtract([0, 4, 9, 12, 11, 20]) == [0, 9, 11, 12, 20];
    assert AfterExtract([0, 9, 11, 12, 20]) == [0, 11, 20, 12];
    assert AfterExtract([0, 11, 20, 12]) == [0, 12, 20];
    assert AfterExtract([0, 12, 20]) == [0, 20];
    assert AfterExtract([0, 20]) == [0];
  }

  class GenericMinHeap {
    var heap: seq<int>
    var size: int

    /** size counts the slots after the sentinel. */
    ghost predicate Valid()
      reads this
    {
      size >= 0 && |heap| == size + 1
    }

    /** The keys in the heap. */
    ghost function Contents(): multiset<int>
      reads this
      requires Valid()
    {
      multiset(heap[1..])
    }

    /** GenericMinHeap(size): only the sentinel; the capacity is a hint to the list. */
    constructor (capacity: int)
      requires capacity + 1 >= 0
      ensures Valid() && size == 0 && |heap| == 1 && FullHeap(heap) && Contents() == multiset{}
    {
      heap, size := [0], 0;
    }

    method IsEmpty() returns (r: bool)
      requires Valid()
      ensures r <==> size == 0
      ensures r <==> Contents() == multiset{}
    {
      r := size == 0;
      if !r {
        assert heap[1] in Contents();
      }
    }

    method Size() returns (r: int)
      requires Valid()
      ensures r == size && r == |Contents()|
    {
      r := size;
    }

    /** less(index1, index2): the key at index1 is strictly smaller. */
    predicate Less(index1: int, index2: int): (b: bool)
      reads this
      requires Valid() && 1 <= index1 < |heap| && 1 <= index2 < |heap|
      ensures b ==> heap[index1] != heap[index2] && !(heap[index2] < heap[index1])
      ensures !b ==> heap[index2] <= heap[index1]
    {
      heap[index1] < heap[index2]
    }

    /** swap: the two slots exchanged. */
    method Swap(index1: int, index2: int)
      requires Valid() && 0 <= index1 < |heap| && 0 <= index2 < |heap|
      modifies this
      ensures Valid() && size == old(size) && heap == Swapped(old(heap), index1, index2)
      ensures 1 <= index1 && 1 <= index2 ==> Contents() == old(Contents())
    {
      var temp := heap[index1];
      heap := heap[index1 := heap[index2]];
      heap := heap[index2 := temp];
      if 1 <= index1 && 1 <= index2 {
        SwappedPerm(old(heap), index1, index2);
      }
    }

    /** heapifyUp: swap with the parent while strictly smaller than it. */
    method HeapifyUp(index: int)
      requires Valid() && (index <= 1 || index < |heap|)
      modifies this
      ensures Valid() && size == old(size) && Contents() == old(Contents())
      ensures heap == SiftUp(old(heap), index)
    {
      var i := index;
      while i > 1 && Less(i, i / 2)
        invariant Valid() && size == old(size) && Contents() == old(Contents())
        invariant i <= 1 || i < |heap|
        invariant SiftUp(heap, i) == SiftUp(old(heap), index)
        decreases i
      {
        Swap(i, i / 2);
        i := i / 2;
      }
    }

    /** heapifyDown: swap with the smaller child until strictly smaller than it. */
    method HeapifyDown(index: int)
      requires Valid() && 1 <= index
      modifies this
      ensures Valid() && size == old(size) && Contents() == old(Contents())
      ensures heap == Sink(old(heap), index)
    {
      var i := index;
      while 2 * i <= size
        invariant Valid() && size == old(size) && Contents() == old(Contents()) && 1 <= i
        invariant Sink(heap, i) == Sink(old(heap), index)
        decreases |heap| - i
      {
        var childIndex := 2 * i;
        if childIndex < size && Less(childIndex + 1, childIndex) {
          childIndex := childIndex + 1;
        }
        assert childIndex == SmallerChild(heap, i);
        if Less(i, childIndex) {
          break;
        }
        Swap(i, childIndex);
        i := childIndex;
      }
    }

    /** insert: append the key, count it, bubble it up. */
    method Insert(k: int)
      requires Valid()
      modifies this
      ensures Valid() && size == old(size) + 1
      ensures heap == AfterInsert(old(heap), k)
      ensures Contents() == old(Contents()) + multiset{k}
      ensures old(FullHeap(heap)) ==> FullHeap(heap)
    {
      heap := heap + [k];
      size := size + 1;
      assert heap[1..] == old(heap[1..]) + [k];
      HeapifyUp(size);
      if old(FullHeap(heap)) {
        InsertKeepsHeap(old(heap), k);
      }
    }

    /**
     * extractMin: the root's key, with the last key moved to the root and
     * sifted down. None stands for the exception heap.get(1) raises on an
     * empty heap, which changes nothing.
     */
    method ExtractMin() returns (r: Option<int>)
      requires Valid()
      modifies this
      ensures Valid()
      ensures old(size) == 0 <==> r.None?
      ensures r.None? ==> heap == old(heap) && size == old(size)
      ensures r.Some? ==> r.value == old(heap[1]) && size == old(size) - 1 && heap == AfterExtract(old(heap))
      ensures r.Some? ==> Contents() == old(Contents()) - multiset{r.value}
      ensures r.Some? ==> old(Drain(heap)) == [r.value] + Drain(heap)
      ensures r.Some? && old(FullHeap(heap)) ==> FullHeap(heap) && forall x :: x in old(Contents()) ==> r.value <= x
    {
      if size == 0 {
        return None;
      }
      var min := heap[1];
      SwapDropIsLastToRoot(heap);
      Swap(1, size);
      heap := heap[..size];
      size := size - 1;
      LastToRootPerm(old(heap));
      HeapifyDown(1);
      if old(FullHeap(heap)) {
        ExtractKeepsHeap(old(heap));
      }
      return Some(min);
    }
  }
}
