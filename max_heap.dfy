/**
 * The binary max-heap of DataStructures/MaxHeap.java: a one-based list of
 * int keys with a 0 sentinel in slot 0.
 *
 * Its sift-down has the shape of the one in Graphs/Literals/CustomHeap.java,
 * mirrored: it only runs while slot i has a right child, so a lone left
 * child is never compared with its parent (what it keeps is AlmostMaxOrder),
 * and on a tie between the children it takes the right one. Sink is the
 * corrected sift-down, which keeps MaxOrder.
 */
module MaxKeyHeap {
  import opened Wrappers
  import IndexedHeap

  // ---------------------------------------------------------------------------
  // The max order on the key sequence
  // ---------------------------------------------------------------------------

  /** Every parent/child pair (c / 2, c) is in max order, except the pair whose child is x. */
  ghost predicate OrderedExcept(keys: seq<int>, x: int) {
    forall c :: 2 <= c < |keys| && c != x ==> keys[c / 2] >= keys[c]
  }

  /** The max-heap order on slots 1..|keys|-1. */
  ghost predicate MaxOrder(keys: seq<int>) {
    OrderedExcept(keys, 0)
  }

  /** The order the as-written sift-down maintains: all pairs but the lone-left-child one. */
  ghost predicate AlmostMaxOrder(keys: seq<int>) {
    OrderedExcept(keys, IndexedHeap.LoneLeft(|keys|))
  }

  /** Ready to bubble up from i: only i's own pair may be out of order, and i's parent is at least i's children. */
  ghost predicate UpReady(keys: seq<int>, i: int) {
    OrderedExcept(keys, i) &&
    (i >= 2 ==> forall c :: 2 <= c < |keys| && c / 2 == i ==> keys[i / 2] >= keys[c])
  }

  /** Ready to sift down from i: only the pairs below i may be out of order, and i's parent is at least i's children. */
  ghost predicate DownReady(keys: seq<int>, i: int) {
    (forall c :: 2 <= c < |keys| && c / 2 != i ==> keys[c / 2] >= keys[c]) &&
    (i >= 2 ==> forall c :: 2 <= c < |keys| && c / 2 == i ==> keys[i / 2] >= keys[c])
  }

  /** heapifyUp on the keys: swap with the parent while the parent is smaller. */
  function BubbleUp(keys: seq<int>, i: int): (r: seq<int>)
    requires i <= 1 || i < |keys|
    ensures |r| == |keys|
    decreases if i > 1 then i else 0
  {
    if i <= 1 || keys[i / 2] >= keys[i] then keys
    else BubbleUp(IndexedHeap.Swapped(keys, i, i / 2), i / 2)
  }

  /** heapifyDown as written: it only looks at slot i while i has a right child; ties go right. */
  function SinkAsWritten(keys: seq<int>, i: int): (r: seq<int>)
    ensures |r| == |keys|
    decreases |keys| - i
  {
    if 2 * i + 1 >= |keys| || i < 1 then keys
    else if keys[i] >= keys[2 * i] && keys[i] >= keys[2 * i + 1] then keys
    else if keys[2 * i] > keys[2 * i + 1] then SinkAsWritten(IndexedHeap.Swapped(keys, i, 2 * i), 2 * i)
    else SinkAsWritten(IndexedHeap.Swapped(keys, i, 2 * i + 1), 2 * i + 1)
  }

  /** The corrected sift-down: as written, plus the comparison with a lone left child. */
  function Sink(keys: seq<int>, i: int): (r: seq<int>)
    ensures |r| == |keys|
    decreases |keys| - i
  {
    if i < 1 then keys
    else if 2 * i + 1 >= |keys| then
      (if 2 * i < |keys| && keys[2 * i] > keys[i] then IndexedHeap.Swapped(keys, i, 2 * i) else keys)
    else if keys[i] >= keys[2 * i] && keys[i] >= keys[2 * i + 1] then keys
    else if keys[2 * i] > keys[2 * i + 1] then Sink(IndexedHeap.Swapped(keys, i, 2 * i), 2 * i)
    else Sink(IndexedHeap.Swapped(keys, i, 2 * i + 1), 2 * i + 1)
  }

  // ---------------------------------------------------------------------------
  // parent, leftChild, rightChild
  // ---------------------------------------------------------------------------

  /** parent(pos): None stands for the ArithmeticException thrown for the root and below. */
  function Parent(pos: int): (r: Option<int>)
    ensures r.Some? <==> pos >= 2
    ensures r.Some? ==> 1 <= r.value < pos && (2 * r.value == pos || 2 * r.value + 1 == pos)
  {
    if pos <= 1 then None else Some(pos / 2)
  }

  /** leftChild(pos) as written, for a list of len entries (keys.size()): it accepts 2 * pos == len, one past the last slot. */
  function LeftChildAsWritten(len: int, pos: int): (r: Option<int>)
    ensures r.Some? ==> 2 <= r.value <= len && r.value / 2 == pos && r.value % 2 == 0
    ensures r.None? ==> forall c :: 2 <= c <= len && c % 2 == 0 ==> c / 2 != pos
  {
    if pos < 1 || pos * 2 > len then None else Some(pos * 2)
  }

  /** rightChild(pos) as written: it accepts 2 * pos + 1 == len, one past the last slot. */
  function RightChildAsWritten(len: int, pos: int): (r: Option<int>)
    ensures r.Some? ==> 3 <= r.value <= len && r.value / 2 == pos && r.value % 2 == 1
    ensures r.None? ==> forall c :: 3 <= c <= len && c % 2 == 1 ==> c / 2 != pos
  {
    if pos < 1 || pos * 2 + 1 > len then None else Some(pos * 2 + 1)
  }

  /** leftChild with the bound the exception message implies: a slot exists for the child. */
  function LeftChild(len: int, pos: int): (r: Option<int>)
    ensures r.Some? ==> 1 <= r.value < len && r.value / 2 == pos && r.value % 2 == 0
    ensures r.None? ==> forall c :: 2 <= c < len && c % 2 == 0 ==> c / 2 != pos
  {
    if pos < 1 || pos * 2 >= len then None else Some(pos * 2)
  }

  /** rightChild with the corrected bound. */
  function RightChild(len: int, pos: int): (r: Option<int>)
    ensures r.Some? ==> 1 <= r.value < len && r.value / 2 == pos && r.value % 2 == 1
    ensures r.None? ==> forall c :: 2 <= c < len && c % 2 == 1 ==> c / 2 != pos
  {
    if pos < 1 || pos * 2 + 1 >= len then None else Some(pos * 2 + 1)
  }

  /** The off-by-one: with one key leftChild(1) returns 2, with two keys rightChild(1) returns 3; neither slot exists. */
  lemma ChildPastEnd()
    ensures LeftChildAsWritten(2, 1) == Some(2) && LeftChild(2, 1) == None
    ensures RightChildAsWritten(3, 1) == Some(3) && RightChild(3, 1) == None
  {
  }

  /** Inside heapifyDown's loop both versions agree, so the loop does what it would with the corrected bound. */
  lemma ChildrenInLoop(len: int, pos: int)
    requires 1 <= pos && 2 * pos + 1 < len
    ensures LeftChildAsWritten(len, pos) == LeftChild(len, pos) == Some(2 * pos)
    ensures RightChildAsWritten(len, pos) == RightChild(len, pos) == Some(2 * pos + 1)
  {
  }

  // ---------------------------------------------------------------------------
  // What the sifts do to the order
  // ---------------------------------------------------------------------------

  /** In a max-ordered heap slot 1 holds a maximum. */
  lemma {:induction false} RootIsMax(keys: seq<int>, j: int)
    requires MaxOrder(keys) && 1 <= j < |keys|
    ensures keys[1] >= keys[j]
    decreases j
  {
    if j > 1 {
      RootIsMax(keys, j / 2);
    }
  }

  /** One bubble-up step keeps the bubble-up precondition one level higher. */
  lemma UpStep(keys: seq<int>, i: int)
    requires 2 <= i < |keys| && UpReady(keys, i) && keys[i / 2] < keys[i]
    ensures UpReady(IndexedHeap.Swapped(keys, i, i / 2), i / 2)
  {
    var p := i / 2;
    var k2 := IndexedHeap.Swapped(keys, i, p);
    forall c | 2 <= c < |k2| && c != p
      ensures k2[c / 2] >= k2[c]
    {
      if c == i {
      } else if c / 2 == p {
        assert keys[p] >= keys[c];
      } else if c / 2 == i {
        assert keys[p] >= keys[c];
      } else {
        assert keys[c / 2] >= keys[c];
      }
    }
    if p >= 2 {
      forall c | 2 <= c < |k2| && c / 2 == p
        ensures k2[p / 2] >= k2[c]
      {
        assert keys[p / 2] >= keys[p];
        if c != i {
          assert keys[p] >= keys[c];
        }
      }
    }
  }

  /** heapifyUp restores the max order when started ready. */
  lemma {:induction false} BubbleUpRestores(keys: seq<int>, i: int)
    requires 1 <= i < |keys| && UpReady(keys, i)
    ensures MaxOrder(BubbleUp(keys, i))
    decreases i
  {
    if i > 1 && keys[i / 2] < keys[i] {
      UpStep(keys, i);
      BubbleUpRestores(IndexedHeap.Swapped(keys, i, i / 2), i / 2);
    }
  }

  /** One swap with the larger child keeps the sift-down precondition one level lower. */
  lemma DownStep(keys: seq<int>, i: int, c0: int)
    requires 1 <= i && 2 * i + 1 < |keys| && DownReady(keys, i)
    requires c0 == 2 * i || c0 == 2 * i + 1
    requires keys[c0] > keys[i] && keys[c0] >= keys[2 * i] && keys[c0] >= keys[2 * i + 1]
    ensures DownReady(IndexedHeap.Swapped(keys, i, c0), c0)
  {
    var k2 := IndexedHeap.Swapped(keys, i, c0);
    forall c | 2 <= c < |k2| && c / 2 != c0
      ensures k2[c / 2] >= k2[c]
    {
      if c == i {
      } else if c == c0 {
      } else if c / 2 == i {
      } else {
        assert keys[c / 2] >= keys[c];
      }
    }
    forall c | 2 <= c < |k2| && c / 2 == c0
      ensures k2[c0 / 2] >= k2[c]
    {
      assert keys[c0] >= keys[c];
    }
  }

  /** Ready to sift down from i, and i is at least its two children: max-ordered. */
  lemma DownReadyOrdered(keys: seq<int>, i: int)
    requires 1 <= i && 2 * i + 1 < |keys| && DownReady(keys, i)
    requires keys[i] >= keys[2 * i] && keys[i] >= keys[2 * i + 1]
    ensures MaxOrder(keys)
  {
    forall c | 2 <= c < |keys|
      ensures keys[c / 2] >= keys[c]
    {
      if c / 2 == i {
        assert c == 2 * i || c == 2 * i + 1;
      }
    }
  }

  /** Where the as-written sift-down stops for want of a right child, only a lone left child's pair may be out of order. */
  lemma NoRightChildAlmost(keys: seq<int>, i: int)
    requires 1 <= i && 2 * i + 1 >= |keys| && DownReady(keys, i)
    ensures AlmostMaxOrder(keys)
  {
    forall c | 2 <= c < |keys| && c != IndexedHeap.LoneLeft(|keys|)
      ensures keys[c / 2] >= keys[c]
    {
      assert c / 2 != i;
    }
  }

  /** The corrected sift-down's last step, at a slot without a right child, leaves the max order. */
  lemma NoRightChildFull(keys: seq<int>, i: int)
    requires 1 <= i && 2 * i + 1 >= |keys| && DownReady(keys, i)
    ensures MaxOrder(if 2 * i < |keys| && keys[2 * i] > keys[i] then IndexedHeap.Swapped(keys, i, 2 * i) else keys)
  {
    if 2 * i < |keys| && keys[2 * i] > keys[i] {
      var k2 := IndexedHeap.Swapped(keys, i, 2 * i);
      forall c | 2 <= c < |k2|
        ensures k2[c / 2] >= k2[c]
      {
        if c == i {
          assert keys[i / 2] >= keys[2 * i];
        } else if c == 2 * i {
        } else {
          assert c / 2 != i;
          assert keys[c / 2] >= keys[c];
        }
      }
    } else {
      forall c | 2 <= c < |keys|
        ensures keys[c / 2] >= keys[c]
      {
        if c / 2 == i {
          assert c == 2 * i;
        }
      }
    }
  }

  /** The as-written sift-down leaves every pair in order except the lone-left-child pair. */
  lemma {:induction false} SinkAsWrittenResult(keys: seq<int>, i: int)
    requires 1 <= i && DownReady(keys, i)
    ensures AlmostMaxOrder(SinkAsWritten(keys, i))
    decreases |keys| - i
  {
    if 2 * i + 1 >= |keys| {
      NoRightChildAlmost(keys, i);
    } else if keys[i] >= keys[2 * i] && keys[i] >= keys[2 * i + 1] {
      DownReadyOrdered(keys, i);
    } else if keys[2 * i] > keys[2 * i + 1] {
      DownStep(keys, i, 2 * i);
      SinkAsWrittenResult(IndexedHeap.Swapped(keys, i, 2 * i), 2 * i);
    } else {
      DownStep(keys, i, 2 * i + 1);
      SinkAsWrittenResult(IndexedHeap.Swapped(keys, i, 2 * i + 1), 2 * i + 1);
    }
  }

  /** The corrected sift-down restores the max order. */
  lemma {:induction false} SinkRestores(keys: seq<int>, i: int)
    requires 1 <= i && DownReady(keys, i)
    ensures MaxOrder(Sink(keys, i))
    decreases |keys| - i
  {
    if 2 * i + 1 >= |keys| {
      NoRightChildFull(keys, i);
    } else if keys[i] >= keys[2 * i] && keys[i] >= keys[2 * i + 1] {
      DownReadyOrdered(keys, i);
    } else if keys[2 * i] > keys[2 * i + 1] {
      DownStep(keys, i, 2 * i);
      SinkRestores(IndexedHeap.Swapped(keys, i, 2 * i), 2 * i);
    } else {
      DownStep(keys, i, 2 * i + 1);
      SinkRestores(IndexedHeap.Swapped(keys, i, 2 * i + 1), 2 * i + 1);
    }
  }

  /** Moving the last key to the root of an almost-ordered heap leaves it ready to sift down from 1. */
  lemma LastToRootReady(keys: seq<int>)
    requires |keys| >= 2 && AlmostMaxOrder(keys)
    ensures DownReady(IndexedHeap.LastToRoot(keys), 1)
  {
    var r := IndexedHeap.LastToRoot(keys);
    forall c | 2 <= c < |r| && c / 2 != 1
      ensures r[c / 2] >= r[c]
    {
      assert keys[c / 2] >= keys[c];
    }
  }

  /** In a max-ordered heap no key exceeds the root's. */
  lemma RootIsLargest(keys: seq<int>)
    requires |keys| >= 2 && MaxOrder(keys)
    ensures forall x :: x in multiset(keys[1..]) ==> x <= keys[1]
  {
    forall x | x in multiset(keys[1..])
      ensures x <= keys[1]
    {
      var j :| 0 <= j < |keys[1..]| && keys[1..][j] == x;
      RootIsMax(keys, j + 1);
    }
  }

  /** What extractMaxKey does to the order, with either sift-down. */
  lemma ExtractOrder(keys: seq<int>)
    requires |keys| >= 2
    ensures AlmostMaxOrder(keys) ==> AlmostMaxOrder(SinkAsWritten(IndexedHeap.LastToRoot(keys), 1))
    ensures MaxOrder(keys) ==> MaxOrder(Sink(IndexedHeap.LastToRoot(keys), 1))
    ensures MaxOrder(keys) ==> forall x :: x in multiset(keys[1..]) ==> x <= keys[1]
  {
    if AlmostMaxOrder(keys) {
      LastToRootReady(keys);
      SinkAsWrittenResult(IndexedHeap.LastToRoot(keys), 1);
    }
    if MaxOrder(keys) {
      assert AlmostMaxOrder(keys);
      LastToRootReady(keys);
      SinkRestores(IndexedHeap.LastToRoot(keys), 1);
      RootIsLargest(keys);
    }
  }

  /** Appending to a max-ordered heap leaves it ready to bubble up from the new slot. */
  lemma AppendReady(keys: seq<int>, key: int)
    requires |keys| >= 1 && MaxOrder(keys)
    ensures UpReady(keys + [key], |keys|)
  {
    var k2 := keys + [key];
    forall c | 2 <= c < |k2| && c != |keys|
      ensures k2[c / 2] >= k2[c]
    {
      assert keys[c / 2] >= keys[c];
    }
  }

  /** The lone left child: extracting 10 from the heap 10, 9, 1 moves 1 to the root above 9, which
      the as-written sift-down leaves there, so the next extraction returns 1 while 9 remains. */
  lemma LoneLeftChildSkipped()
    ensures MaxOrder([0, 10, 9, 1])
    ensures IndexedHeap.LastToRoot([0, 10, 9, 1]) == [0, 1, 9]
    ensures SinkAsWritten([0, 1, 9], 1) == [0, 1, 9] && !MaxOrder([0, 1, 9])
    ensures Sink([0, 1, 9], 1) == [0, 9, 1] && MaxOrder([0, 9, 1])
  {
    var k := [0, 1, 9];
    assert k[2 / 2] < k[2];
  }

  // ---------------------------------------------------------------------------
  // The heap object
  // ---------------------------------------------------------------------------

  class MaxHeap {
    var keys: seq<int>

    ghost predicate Valid()
      reads this
    {
      |keys| >= 1
    }

    /** The keys in the heap (slots 1 onwards). */
    ghost function Contents(): multiset<int>
      reads this
      requires Valid()
    {
      multiset(keys[1..])
    }

    /** MaxHeap(): only the 0 sentinel. */
    constructor ()
      ensures Valid() && keys == [0] && MaxOrder(keys) && Contents() == multiset{}
    {
      keys := [0];
    }

    /** MaxHeap(N): the same; N only sizes the list, and N + 1 < 0 throws. */
    constructor WithCapacity(N: int)
      requires N + 1 >= 0
      ensures Valid() && keys == [0] && MaxOrder(keys) && Contents() == multiset{}
    {
      keys := [0];
    }

    method Size() returns (r: int)
      requires Valid()
      ensures r == |keys| - 1 && r == |Contents()|
    {
      r := |keys| - 1;
    }

    method IsEmpty() returns (r: bool)
      requires Valid()
      ensures r <==> |keys| == 1
      ensures r <==> Contents() == multiset{}
    {
      r := |keys| == 1;
      if !r {
        assert keys[1] in Contents();
      }
    }

    /** swap: exchanges two keys. */
    method Swap(indexA: int, indexB: int)
      requires Valid() && 0 <= indexA < |keys| && 0 <= indexB < |keys|
      modifies this
      ensures Valid() && keys == IndexedHeap.Swapped(old(keys), indexA, indexB)
      ensures 1 <= indexA && 1 <= indexB ==> Contents() == old(Contents())
    {
      var temp := keys[indexA];
      keys := keys[indexA := keys[indexB]];
      keys := keys[indexB := temp];
      if 1 <= indexA && 1 <= indexB {
        IndexedHeap.SwappedPerm(old(keys), indexA, indexB);
      }
    }

    /** heapifyUp: swap with the parent while the parent is smaller. */
    method HeapifyUp(index: int)
      requires Valid() && (index <= 1 || index < |keys|)
      modifies this
      ensures Valid() && Contents() == old(Contents())
      ensures keys == BubbleUp(old(keys), index)
    {
      var i := index;
      while i > 1
        invariant Valid() && Contents() == old(Contents()) && |keys| == |old(keys)|
        invariant i <= 1 || i < |keys|
        invariant BubbleUp(keys, i) == BubbleUp(old(keys), index)
        decreases i
      {
        var child := keys[i];
        var parentIndex := Parent(i).value;
        var parent := keys[parentIndex];
        if parent >= child {
          return;
        }
        Swap(i, parentIndex);
        i := i / 2;
      }
    }

    /** heapifyDown as written: the loop runs only while slot index has a right child. */
    method HeapifyDown(index: int)
      requires Valid() && 0 <= index
      modifies this
      ensures Valid() && Contents() == old(Contents())
      ensures keys == SinkAsWritten(old(keys), index)
    {
      var i := index;
      while 2 * i + 1 < |keys|
        invariant Valid() && Contents() == old(Contents()) && |keys| == |old(keys)| && 0 <= i
        invariant SinkAsWritten(keys, i) == SinkAsWritten(old(keys), index)
        decreases |keys| - i
      {
        // inside the loop leftChild(i) throws only for i < 1, and the handler
        // returns; rightChild(i) never throws (ChildrenInLoop)
        if i < 1 {
          return;
        }
        var done;
        i, done := SinkOnce(i);
        if done {
          return;
        }
      }
    }

    /**
     * One pass of heapifyDown's loop at a slot with two children: stop when
     * the parent is at least both, else swap with the larger child (the right
     * one on a tie) and go there.
     */
    method SinkOnce(i: int) returns (next: int, done: bool)
      requires Valid() && 1 <= i && 2 * i + 1 < |keys|
      modifies this
      ensures Valid() && Contents() == old(Contents()) && |keys| == |old(keys)|
      ensures done ==> keys == old(keys) && SinkAsWritten(keys, i) == keys && Sink(keys, i) == keys
      ensures !done ==> i < next && SinkAsWritten(keys, next) == SinkAsWritten(old(keys), i)
      ensures !done ==> Sink(keys, next) == Sink(old(keys), i)
    {
      var parent := keys[i];
      var leftChild := keys[2 * i];
      var rightChild := keys[2 * i + 1];
      if parent >= leftChild && parent >= rightChild {
        return i, true;
      } else if leftChild > rightChild {
        Swap(i, 2 * i);
        return 2 * i, false;
      } else {
        Swap(i, 2 * i + 1);
        return 2 * i + 1, false;
      }
    }

    /** heapifyDown with the lone left child compared after the loop. */
    method HeapifyDownRepaired(index: int)
      requires Valid() && 0 <= index
      modifies this
      ensures Valid() && Contents() == old(Contents())
      ensures keys == Sink(old(keys), index)
    {
      var i := index;
      while 2 * i + 1 < |keys|
        invariant Valid() && Contents() == old(Contents()) && |keys| == |old(keys)| && 0 <= i
        invariant Sink(keys, i) == Sink(old(keys), index)
        decreases |keys| - i
      {
        if i < 1 {
          return;
        }
        var done;
        i, done := SinkOnce(i);
        if done {
          return;
        }
      }
      if 1 <= i && 2 * i < |keys| && keys[2 * i] > keys[i] {
        Swap(i, 2 * i);
      }
    }

    /** In a max-ordered heap slot 1 holds a largest key. */
    lemma RootKeyIsMax()
      requires Valid() && |keys| >= 2 && MaxOrder(keys)
      ensures forall x :: x in Contents() ==> x <= keys[1]
    {
      RootIsLargest(keys);
    }

    /** peekMax: the key in slot 1, a largest one when the heap is max-ordered; None stands
        for the exception keys.get(1) raises on an empty heap. */
    method PeekMax() returns (r: Option<int>)
      requires Valid()
      ensures r.None? <==> Contents() == multiset{}
      ensures r.Some? ==> r.value in Contents() && r.value == keys[1]
      ensures r.Some? && MaxOrder(keys) ==> forall x :: x in Contents() ==> x <= r.value
    {
      if |keys| < 2 {
        return None;
      }
      assert keys[1] in Contents();
      if MaxOrder(keys) {
        RootKeyIsMax();
      }
      return Some(keys[1]);
    }

    /** keys.remove(lastIndex) after the root was swapped into the last slot. */
    method RemoveLast()
      requires Valid() && |keys| >= 2
      modifies this
      ensures Valid() && keys == old(keys[..|keys| - 1])
      ensures Contents() == old(Contents()) - multiset{old(keys[|keys| - 1])}
    {
      assert keys[1..] == keys[1..|keys| - 1] + [keys[|keys| - 1]];
      keys := keys[..|keys| - 1];
      assert keys[1..] == old(keys[1..|keys| - 1]);
    }

    /** The first half of extractMaxKey: slot 1's key is kept, the last key swapped into slot 1, the last slot removed. */
    method MoveLastToRoot() returns (maxKey: int)
      requires Valid() && |keys| >= 2
      modifies this
      ensures Valid() && maxKey == old(keys[1]) && keys == IndexedHeap.LastToRoot(old(keys))
      ensures Contents() == old(Contents()) - multiset{maxKey}
    {
      var lastIndex := |keys| - 1;
      maxKey := keys[1];
      IndexedHeap.SwapDropIsLastToRoot(keys);
      Swap(1, lastIndex);
      RemoveLast();
    }

    /** extractMaxKey as written: slot 1's key, the last key moved to the root, the sift-down as written.
        None stands for the exception keys.get(1) raises on an empty heap, which changes nothing. */
    method ExtractMaxKey() returns (r: Option<int>)
      requires Valid()
      modifies this
      ensures Valid()
      ensures r.None? <==> old(|keys|) == 1
      ensures r.None? ==> keys == old(keys)
      ensures r.Some? ==> r.value == old(keys[1]) && keys == SinkAsWritten(IndexedHeap.LastToRoot(old(keys)), 1)
      ensures r.Some? ==> Contents() == old(Contents()) - multiset{r.value}
      ensures r.Some? && old(AlmostMaxOrder(keys)) ==> AlmostMaxOrder(keys)
      ensures r.Some? && old(MaxOrder(keys)) ==> forall x :: x in old(Contents()) ==> x <= r.value
    {
      if |keys| == 1 {
        return None;
      }
      ExtractOrder(keys);
      var maxKey := MoveLastToRoot();
      HeapifyDown(1);
      return Some(maxKey);
    }

    /** extractMaxKey with the corrected sift-down: a max-ordered heap stays max-ordered. */
    method ExtractMaxKeyRepaired() returns (r: Option<int>)
      requires Valid()
      modifies this
      ensures Valid()
      ensures r.None? <==> old(|keys|) == 1
      ensures r.None? ==> keys == old(keys)
      ensures r.Some? ==> r.value == old(keys[1]) && keys == Sink(IndexedHeap.LastToRoot(old(keys)), 1)
      ensures r.Some? ==> Contents() == old(Contents()) - multiset{r.value}
      ensures r.Some? && old(MaxOrder(keys)) ==> MaxOrder(keys) && forall x :: x in old(Contents()) ==> x <= r.value
    {
      if |keys| == 1 {
        return None;
      }
      ExtractOrder(keys);
      var maxKey := MoveLastToRoot();
      HeapifyDownRepaired(1);
      return Some(maxKey);
    }

    /** insert: append the key and bubble it up. */
    method Insert(key: int)
      requires Valid()
      modifies this
      ensures Valid() && Contents() == old(Contents()) + multiset{key}
      ensures keys == BubbleUp(old(keys) + [key], |old(keys)|)
      ensures old(MaxOrder(keys)) ==> MaxOrder(keys)
    {
      if MaxOrder(keys) {
        AppendReady(keys, key);
        if |keys| > 1 {
          BubbleUpRestores(keys + [key], |keys|);
        }
      }
      keys := keys + [key];
      assert keys[1..] == old(keys[1..]) + [key];
      var nodeIndex := |keys| - 1;
      HeapifyUp(nodeIndex);
    }
  }
}
