/**
 * The indexed binary min-heap of Graphs/Literals/CustomHeap.java: a one-based
 * array of keys (slot 0 is a sentinel) with a slot-to-node map and a
 * node-to-slot map, supporting extract-min and decrease-key.
 *
 * The key sequence is specified by pure functions (SiftUp, SiftDownAsWritten,
 * SiftDown); lemmas state what each sift does to the heap order.  The sift-down
 * as written only runs while a right child exists, so a node whose only child
 * is a left child is never compared with it: what it keeps is AlmostHeap (every
 * parent/child pair in order except possibly the last slot when it is such a
 * lone left child).  SiftDown is the corrected version, which keeps FullHeap.
 */
module IndexedHeap {
  import JavaInt

  // ---------------------------------------------------------------------------
  // The key sequence
  // ---------------------------------------------------------------------------

  /** Keys with slots a and b exchanged. */
  function Swapped(keys: seq<int>, a: int, b: int): (r: seq<int>)
    requires 0 <= a < |keys| && 0 <= b < |keys|
    ensures |r| == |keys| && r[a] == keys[b] && r[b] == keys[a]
    ensures forall k :: 0 <= k < |keys| && k != a && k != b ==> r[k] == keys[k]
  {
    keys[a := keys[b]][b := keys[a]]
  }

  /** Every parent/child pair (c / 2, c) is in order, except the pairs whose child is x or y. */
  ghost predicate HeapExcept(keys: seq<int>, x: int, y: int) {
    forall c :: 2 <= c < |keys| && c != x && c != y ==> keys[c / 2] <= keys[c]
  }

  /** The min-heap order on slots 1..|keys|-1. */
  ghost predicate FullHeap(keys: seq<int>) {
    HeapExcept(keys, 0, 0)
  }

  /** The last slot of a heap of this length when it is a left child without a sibling, else 0. */
  function LoneLeft(len: int): (r: int)
    ensures r == 0 || (r == len - 1 && r >= 2 && r % 2 == 0)
  {
    if len >= 3 && (len - 1) % 2 == 0 then len - 1 else 0
  }

  /** The order the sift-down as written maintains: all pairs but the lone-left-child one. */
  ghost predicate AlmostHeap(keys: seq<int>) {
    HeapExcept(keys, LoneLeft(|keys|), 0)
  }

  /** Ready to bubble up from slot i: only the pair above i (and y's pair) may be out of order,
      and i's parent is already at most i's children. */
  ghost predicate UpReady(keys: seq<int>, i: int, y: int) {
    HeapExcept(keys, i, y) &&
    (i >= 2 ==> forall c :: 2 <= c < |keys| && c / 2 == i && c != y ==> keys[i / 2] <= keys[c])
  }

  /** Ready to sift down from slot i: only the pairs below i may be out of order,
      and i's parent is already at most i's children. */
  ghost predicate DownReady(keys: seq<int>, i: int) {
    (forall c :: 2 <= c < |keys| && c / 2 != i ==> keys[c / 2] <= keys[c]) &&
    (i >= 2 ==> forall c :: 2 <= c < |keys| && c / 2 == i ==> keys[i / 2] <= keys[c])
  }

  /** heapifyUp on the keys: swap with the parent while the parent is larger. */
  function SiftUp(keys: seq<int>, i: int): (r: seq<int>)
    requires i <= 1 || i < |keys|
    ensures |r| == |keys|
    decreases if i > 1 then i else 0
  {
    if i <= 1 || keys[i / 2] <= keys[i] then keys
    else SiftUp(Swapped(keys, i, i / 2), i / 2)
  }

  /** heapifyDown as written: it only looks at slot i while i has a right child. */
  function SiftDownAsWritten(keys: seq<int>, i: nat): (r: seq<int>)
    ensures |r| == |keys|
    decreases |keys| - i
  {
    if 2 * i + 1 >= |keys| || i < 1 then keys
    else if keys[i] <= keys[2 * i] && keys[i] <= keys[2 * i + 1] then keys
    else if keys[2 * i] < keys[2 * i + 1] then SiftDownAsWritten(Swapped(keys, i, 2 * i), 2 * i)
    else SiftDownAsWritten(Swapped(keys, i, 2 * i + 1), 2 * i + 1)
  }

  /** The corrected sift-down: as written, plus a final comparison with a lone left child. */
  function SiftDown(keys: seq<int>, i: nat): (r: seq<int>)
    ensures |r| == |keys|
    decreases |keys| - i
  {
    if i < 1 then keys
    else if 2 * i + 1 >= |keys| then
      (if 2 * i < |keys| && keys[2 * i] < keys[i] then Swapped(keys, i, 2 * i) else keys)
    else if keys[i] <= keys[2 * i] && keys[i] <= keys[2 * i + 1] then keys
    else if keys[2 * i] < keys[2 * i + 1] then SiftDown(Swapped(keys, i, 2 * i), 2 * i)
    else SiftDown(Swapped(keys, i, 2 * i + 1), 2 * i + 1)
  }

  /** The keys extractMinKey hands to the sift-down: the last entry moved to slot 1, the last slot dropped. */
  function LastToRoot(keys: seq<int>): (r: seq<int>)
    requires |keys| >= 2
    ensures |r| == |keys| - 1
    ensures |r| >= 2 ==> r[1] == keys[|keys| - 1]
    ensures forall k :: 2 <= k < |r| ==> r[k] == keys[k]
  {
    keys[1 := keys[|keys| - 1]][..|keys| - 1]
  }

  // ---------------------------------------------------------------------------
  // What the sifts do to the order
  // ---------------------------------------------------------------------------

  /** In a full heap slot 1 holds a minimum. */
  lemma {:induction false} RootIsMin(keys: seq<int>, j: int)
    requires FullHeap(keys) && 1 <= j < |keys|
    ensures keys[1] <= keys[j]
    decreases j
  {
    if j > 1 {
      RootIsMin(keys, j / 2);
    }
  }

  /** One bubble-up step keeps the bubble-up precondition one level higher. */
  lemma SwapUpStep(keys: seq<int>, i: int, y: int)
    requires 2 <= i < |keys| && UpReady(keys, i, y) && (y == 0 || 2 * y >= |keys|)
    requires keys[i / 2] > keys[i]
    ensures UpReady(Swapped(keys, i, i / 2), i / 2, y)
  {
    var p := i / 2;
    var k2 := Swapped(keys, i, p);
    forall c | 2 <= c < |k2| && c != p && c != y
      ensures k2[c / 2] <= k2[c]
    {
      if c == i {
      } else if c / 2 == p {
        assert keys[p] <= keys[c];
      } else if c / 2 == i {
        assert keys[p] <= keys[c];
      } else {
        assert keys[c / 2] <= keys[c];
      }
    }
    if p >= 2 {
      forall c | 2 <= c < |k2| && c / 2 == p && c != y
        ensures k2[p / 2] <= k2[c]
      {
        assert keys[p / 2] <= keys[p];
        if c != i {
          assert keys[p] <= keys[c];
        }
      }
    }
  }

  /** heapifyUp ends with every pair in order except y's, when started ready. */
  lemma {:induction false} SiftUpRestores(keys: seq<int>, i: int, y: int)
    requires 1 <= i < |keys| && UpReady(keys, i, y) && (y == 0 || 2 * y >= |keys|)
    ensures HeapExcept(SiftUp(keys, i), y, y)
    decreases i
  {
    if i > 1 && keys[i / 2] > keys[i] {
      SwapUpStep(keys, i, y);
      SiftUpRestores(Swapped(keys, i, i / 2), i / 2, y);
    }
  }

  /** Lowering one key of a heap (apart from pair y) leaves it ready to bubble up from there. */
  lemma LowerKeyReady(keys: seq<int>, i: int, key: int, y: int)
    requires 1 <= i < |keys| && HeapExcept(keys, y, y) && key <= keys[i] && (y == 0 || 2 * y >= |keys|)
    ensures UpReady(keys[i := key], i, y)
  {
    var k2 := keys[i := key];
    if i >= 2 && i != y {
      forall c | 2 <= c < |k2| && c / 2 == i && c != y
        ensures k2[i / 2] <= k2[c]
      {
        assert keys[i / 2] <= keys[i];
        assert keys[i] <= keys[c];
      }
    }
  }

  /** The as-written sift-down's loop step keeps the sift-down precondition one level lower. */
  lemma SwapDownStep(keys: seq<int>, i: int, c0: int)
    requires 1 <= i && 2 * i + 1 < |keys| && DownReady(keys, i)
    requires c0 == 2 * i || c0 == 2 * i + 1
    requires keys[c0] < keys[i] && keys[c0] <= keys[2 * i] && keys[c0] <= keys[2 * i + 1]
    ensures DownReady(Swapped(keys, i, c0), c0)
  {
    var k2 := Swapped(keys, i, c0);
    forall c | 2 <= c < |k2| && c / 2 != c0
      ensures k2[c / 2] <= k2[c]
    {
      if c == i {
      } else if c == c0 {
      } else if c / 2 == i {
      } else {
        assert keys[c / 2] <= keys[c];
      }
    }
    forall c | 2 <= c < |k2| && c / 2 == c0
      ensures k2[c0 / 2] <= k2[c]
    {
      assert keys[c0] <= keys[c];
    }
  }

  /** The as-written sift-down leaves every pair in order except the lone-left-child pair. */
  lemma {:induction false} SiftDownAsWrittenResult(keys: seq<int>, i: nat)
    requires 1 <= i && DownReady(keys, i)
    ensures AlmostHeap(SiftDownAsWritten(keys, i))
    decreases |keys| - i
  {
    if 2 * i + 1 >= |keys| {
      NoRightChildAlmost(keys, i);
    } else if keys[i] <= keys[2 * i] && keys[i] <= keys[2 * i + 1] {
      DownReadyOrdered(keys, i);
    } else if keys[2 * i] < keys[2 * i + 1] {
      SwapDownStep(keys, i, 2 * i);
      SiftDownAsWrittenResult(Swapped(keys, i, 2 * i), 2 * i);
    } else {
      SwapDownStep(keys, i, 2 * i + 1);
      SiftDownAsWrittenResult(Swapped(keys, i, 2 * i + 1), 2 * i + 1);
    }
  }

  /** Where the as-written sift-down stops for want of a right child, only a lone left child's pair may be out of order. */
  lemma NoRightChildAlmost(keys: seq<int>, i: int)
    requires 1 <= i && 2 * i + 1 >= |keys| && DownReady(keys, i)
    ensures AlmostHeap(keys)
  {
    forall c | 2 <= c < |keys| && c != LoneLeft(|keys|)
      ensures keys[c / 2] <= keys[c]
    {
      assert c / 2 != i;
    }
  }

  /** The corrected sift-down's last step, at a slot without a right child, leaves a full heap. */
  lemma NoRightChildFull(keys: seq<int>, i: int)
    requires 1 <= i && 2 * i + 1 >= |keys| && DownReady(keys, i)
    ensures FullHeap(if 2 * i < |keys| && keys[2 * i] < keys[i] then Swapped(keys, i, 2 * i) else keys)
  {
    if 2 * i < |keys| && keys[2 * i] < keys[i] {
      var k2 := Swapped(keys, i, 2 * i);
      forall c | 2 <= c < |k2|
        ensures k2[c / 2] <= k2[c]
      {
        if c == i {
          assert keys[i / 2] <= keys[2 * i];
        } else if c == 2 * i {
        } else {
          assert c / 2 != i;
          assert keys[c / 2] <= keys[c];
        }
      }
    } else {
      forall c | 2 <= c < |keys|
        ensures keys[c / 2] <= keys[c]
      {
        if c / 2 == i {
          assert c == 2 * i;
        }
      }
    }
  }

  /** Ready to sift down from i, and i is at most its two children: a full heap. */
  lemma DownReadyOrdered(keys: seq<int>, i: int)
    requires 1 <= i && 2 * i + 1 < |keys| && DownReady(keys, i)
    requires keys[i] <= keys[2 * i] && keys[i] <= keys[2 * i + 1]
    ensures FullHeap(keys)
  {
    forall c | 2 <= c < |keys|
      ensures keys[c / 2] <= keys[c]
    {
      if c / 2 == i {
        assert c == 2 * i || c == 2 * i + 1;
      }
    }
  }

  /** The corrected sift-down restores the full heap order. */
  lemma {:induction false} SiftDownRestores(keys: seq<int>, i: nat)
    requires 1 <= i && DownReady(keys, i)
    ensures FullHeap(SiftDown(keys, i))
    decreases |keys| - i
  {
    if 2 * i + 1 >= |keys| {
      NoRightChildFull(keys, i);
    } else if keys[i] <= keys[2 * i] && keys[i] <= keys[2 * i + 1] {
      DownReadyOrdered(keys, i);
    } else if keys[2 * i] < keys[2 * i + 1] {
      SwapDownStep(keys, i, 2 * i);
      SiftDownRestores(Swapped(keys, i, 2 * i), 2 * i);
    } else {
      SwapDownStep(keys, i, 2 * i + 1);
      SiftDownRestores(Swapped(keys, i, 2 * i + 1), 2 * i + 1);
    }
  }

  /** Swapping the root with the last slot and dropping the last slot moves the last key to the root. */
  lemma SwapDropIsLastToRoot(keys: seq<int>)
    requires |keys| >= 2
    ensures Swapped(keys, 1, |keys| - 1)[..|keys| - 1] == LastToRoot(keys)
  {
  }

  /** Swapping two live slots keeps the multiset of live keys. */
  lemma SwappedPerm(keys: seq<int>, a: int, b: int)
    requires 1 <= a < |keys| && 1 <= b < |keys|
    ensures multiset(Swapped(keys, a, b)[1..]) == multiset(keys[1..])
  {
    var t := keys[1..];
    assert Swapped(keys, a, b)[1..] == t[a - 1 := t[b - 1]][b - 1 := t[a - 1]];
  }

  /** Moving the last entry to the root removes the root's key from the live keys. */
  lemma LastToRootPerm(keys: seq<int>)
    requires |keys| >= 2
    ensures multiset(LastToRoot(keys)[1..]) == multiset(keys[1..]) - multiset{keys[1]}
  {
    var n := |keys| - 1;
    if n == 1 {
      assert keys[1..] == [keys[1]];
    } else {
      assert keys[1..] == [keys[1]] + keys[2..n] + [keys[n]];
      assert LastToRoot(keys)[1..] == [keys[n]] + keys[2..n];
    }
  }

  /** Moving the last entry to the root of an almost-heap leaves it ready to sift down from 1. */
  lemma LastToRootReady(keys: seq<int>)
    requires |keys| >= 2 && AlmostHeap(keys)
    ensures DownReady(LastToRoot(keys), 1)
  {
    var r := LastToRoot(keys);
    forall c | 2 <= c < |r| && c / 2 != 1
      ensures r[c / 2] <= r[c]
    {
      assert keys[c / 2] <= keys[c];
    }
  }

  /** The lone left child: an almost-heap whose root is larger than its only child, which the
      as-written sift-down leaves in place, so the next extraction returns 10 while 2 remains. */
  lemma LoneLeftChildSkipped()
    ensures FullHeap([JavaInt.INT_MAX, 1, 2, 10])
    ensures LastToRoot([JavaInt.INT_MAX, 1, 2, 10]) == [JavaInt.INT_MAX, 10, 2]
    ensures SiftDownAsWritten([JavaInt.INT_MAX, 10, 2], 1) == [JavaInt.INT_MAX, 10, 2]
    ensures !FullHeap([JavaInt.INT_MAX, 10, 2])
    ensures SiftDown([JavaInt.INT_MAX, 10, 2], 1) == [JavaInt.INT_MAX, 2, 10]
  {
    var k := [JavaInt.INT_MAX, 10, 2];
    assert k[2 / 2] > k[2];
  }

  // ---------------------------------------------------------------------------
  // The heap object
  // ---------------------------------------------------------------------------

  class CustomHeap {
    var keys: seq<int>
    var indexToNode: map<int, int>
    var nodeToIndex: map<int, int>

    /** Slot 0 exists, every slot names a node, and that node's entry in the node-to-slot map
        points back to the slot (entries of nodes no longer in a slot may be stale). */
    static ghost predicate Linked(k: seq<int>, m: map<int, int>, n: map<int, int>) {
      |k| >= 1 &&
      (forall i :: 0 <= i < |k| ==> i in m) &&
      (forall i :: 0 <= i < |k| ==> m[i] in n && n[m[i]] == i)
    }

    /** The nodes whose slot is live (1..|k|-1) and points back to them, with their keys. */
    static ghost function Abs(k: seq<int>, m: map<int, int>, n: map<int, int>): map<int, int> {
      map v | v in n && 1 <= n[v] < |k| && n[v] in m && m[n[v]] == v :: k[n[v]]
    }

    ghost predicate Valid()
      reads this
    {
      Linked(keys, indexToNode, nodeToIndex)
    }

    /** The nodes in the heap and their keys. */
    ghost function Contents(): map<int, int>
      reads this
    {
      Abs(keys, indexToNode, nodeToIndex)
    }

    /** Swapping two live slots keeps the contents. */
    static lemma SwapKeepsContents(k: seq<int>, m: map<int, int>, n: map<int, int>, a: int, b: int)
      requires Linked(k, m, n) && 1 <= a < |k| && 1 <= b < |k|
      ensures Abs(Swapped(k, a, b), m[a := m[b]][b := m[a]], n[m[a] := b][m[b] := a]) == Abs(k, m, n)
    {
      var k2 := Swapped(k, a, b);
      var m2 := m[a := m[b]][b := m[a]];
      var n2 := n[m[a] := b][m[b] := a];
      var left := Abs(k2, m2, n2);
      var right := Abs(k, m, n);
      forall v | v in right
        ensures v in left && left[v] == right[v]
      {
        if v != m[a] && v != m[b] {
          assert n[v] != a && n[v] != b;
        }
      }
      forall v | v in left
        ensures v in right
      {
        if v != m[a] && v != m[b] {
          assert n2[v] == n[v];
          assert n[v] != a && n[v] != b;
        }
      }
    }

    /** Dropping the last slot removes its node from the contents. */
    static lemma DropLastContents(k: seq<int>, m: map<int, int>, n: map<int, int>)
      requires Linked(k, m, n) && |k| >= 2
      ensures Abs(k[..|k| - 1], m, n) == Abs(k, m, n) - {m[|k| - 1]}
    {
      var last := |k| - 1;
      var left := Abs(k[..last], m, n);
      var right := Abs(k, m, n) - {m[last]};
      forall v | v in right
        ensures v in left
      {
        assert n[v] != last;
      }
    }

    /** Storing a key in a live slot changes that slot's node only. */
    static lemma SetKeyContents(k: seq<int>, m: map<int, int>, n: map<int, int>, i: int, key: int)
      requires Linked(k, m, n) && 1 <= i < |k|
      ensures Abs(k[i := key], m, n) == Abs(k, m, n)[m[i] := key]
    {
      var left := Abs(k[i := key], m, n);
      var right := Abs(k, m, n)[m[i] := key];
      forall v | v in left
        ensures v in right && left[v] == right[v]
      {
        if v != m[i] {
          assert n[v] != i;
        }
      }
    }

    /** A new last slot for a node held by no slot adds that node. */
    static lemma AppendContents(k: seq<int>, m: map<int, int>, n: map<int, int>, node: int, key: int)
      requires Linked(k, m, n) && forall i :: 0 <= i < |k| ==> m[i] != node
      ensures Linked(k + [key], m[|k| := node], n[node := |k|])
      ensures Abs(k + [key], m[|k| := node], n[node := |k|]) == Abs(k, m, n)[node := key]
    {
      var k2 := k + [key];
      var m2 := m[|k| := node];
      var n2 := n[node := |k|];
      var left := Abs(k2, m2, n2);
      var right := Abs(k, m, n)[node := key];
      forall v | v in left
        ensures v in right && left[v] == right[v]
      {
        if v != node {
          assert n[v] != |k|;
        }
      }
      forall v | v in right
        ensures v in left
      {
        if v != node {
          assert n2[v] == n[v] && m2[n[v]] == v;
        }
      }
    }

    /** The node of a live slot is in the heap with that slot's key. */
    lemma ContentsAt(i: int)
      requires Valid() && 1 <= i < |keys|
      ensures indexToNode[i] in Contents() && Contents()[indexToNode[i]] == keys[i]
    {
    }

    constructor (N: nat)
      ensures Valid() && FullHeap(keys)
      ensures keys == seq(N + 1, _ => JavaInt.INT_MAX)
      ensures forall i :: i in indexToNode <==> 0 <= i <= N
      ensures forall i :: i in nodeToIndex <==> 0 <= i <= N
      ensures forall i :: 0 <= i <= N ==> indexToNode[i] == i && nodeToIndex[i] == i
      ensures forall v :: v in Contents() <==> 1 <= v <= N
      ensures forall v :: v in Contents() ==> Contents()[v] == JavaInt.INT_MAX
    {
      var k: seq<int> := [];
      var m: map<int, int> := map[];
      var i := 0;
      while i <= N
        invariant 0 <= i <= N + 1
        invariant k == seq(i, _ => JavaInt.INT_MAX)
        invariant forall j :: j in m <==> 0 <= j < i
        invariant forall j :: 0 <= j < i ==> m[j] == j
      {
        k := k + [JavaInt.INT_MAX];
        m := m[i := i];
        i := i + 1;
      }
      keys := k;
      indexToNode := m;
      nodeToIndex := m;
    }

    /** The number of slots, counting the sentinel slot 0. */
    method Size() returns (r: int)
      requires Valid()
      ensures r == |keys| && r >= 1
    {
      r := |keys|;
    }

    /** Empty when only slot 0 remains. */
    method IsEmpty() returns (r: bool)
      requires Valid()
      ensures r <==> |keys| == 1
      ensures r <==> Contents() == map[]
    {
      r := |keys| == 1;
      if !r {
        ContentsAt(1);
      }
    }

    /** Exchanges two slots: keys and both maps. */
    method Swap(a: int, b: int)
      requires Valid() && 0 <= a < |keys| && 0 <= b < |keys|
      modifies this
      ensures Valid()
      ensures keys == Swapped(old(keys), a, b)
      ensures indexToNode == old(indexToNode)[a := old(indexToNode[b])][b := old(indexToNode[a])]
      ensures nodeToIndex == old(nodeToIndex)[old(indexToNode[a]) := b][old(indexToNode[b]) := a]
      ensures 1 <= a && 1 <= b ==> Contents() == old(Contents())
    {
      var nodeA := indexToNode[a];
      var nodeB := indexToNode[b];
      var temp := keys[a];
      keys := keys[a := keys[b]];
      keys := keys[b := temp];
      nodeToIndex := nodeToIndex[nodeA := b];
      nodeToIndex := nodeToIndex[nodeB := a];
      indexToNode := indexToNode[a := nodeB];
      indexToNode := indexToNode[b := nodeA];
      if 1 <= a && 1 <= b {
        SwapKeepsContents(old(keys), old(indexToNode), old(nodeToIndex), a, b);
      }
    }

    /** heapifyUp: bubble slot index up while its parent is larger. */
    method HeapifyUp(index: int)
      requires Valid() && (index <= 1 || index < |keys|)
      modifies this
      ensures Valid() && Contents() == old(Contents())
      ensures keys == SiftUp(old(keys), index)
    {
      var i := index;
      while i > 1
        invariant Valid() && Contents() == old(Contents()) && |keys| == |old(keys)|
        invariant i <= 1 || i < |keys|
        invariant SiftUp(keys, i) == SiftUp(old(keys), index)
        decreases i
      {
        var child := keys[i];
        var parentIndex := i / 2;
        var parent := keys[parentIndex];
        if parent <= child {
          return;
        }
        Swap(i, parentIndex);
        i := i / 2;
      }
    }

    /** heapifyDown as written: the loop runs only while slot index has a right child. */
    method HeapifyDown(index: int)
      requires Valid() && 0 <= index
      modifies this
      ensures Valid() && Contents() == old(Contents())
      ensures keys == SiftDownAsWritten(old(keys), index)
    {
      var i := index;
      while 2 * i + 1 < |keys|
        invariant Valid() && Contents() == old(Contents()) && |keys| == |old(keys)| && 0 <= i
        invariant SiftDownAsWritten(keys, i) == SiftDownAsWritten(old(keys), index)
        decreases |keys| - i
      {
        var parent := keys[i];
        // leftChild(i) throws only for i < 1 here, and the handler returns
        if i < 1 {
          return;
        }
        var leftChild := keys[2 * i];
        var rightChild := keys[2 * i + 1];
        if parent <= leftChild && parent <= rightChild {
          return;
        } else if leftChild < rightChild {
          Swap(i, 2 * i);
          i := 2 * i;
        } else {
          Swap(i, 2 * i + 1);
          i := 2 * i + 1;
        }
      }
    }

    /** heapifyDown with the lone left child compared after the loop. */
    method HeapifyDownRepaired(index: int)
      requires Valid() && 0 <= index
      modifies this
      ensures Valid() && Contents() == old(Contents())
      ensures keys == SiftDown(old(keys), index)
    {
      var i := index;
      while 2 * i + 1 < |keys|
        invariant Valid() && Contents() == old(Contents()) && |keys| == |old(keys)| && 0 <= i
        invariant SiftDown(keys, i) == SiftDown(old(keys), index)
        decreases |keys| - i
      {
        var parent := keys[i];
        if i < 1 {
          return;
        }
        var leftChild := keys[2 * i];
        var rightChild := keys[2 * i + 1];
        if parent <= leftChild && parent <= rightChild {
          return;
        } else if leftChild < rightChild {
          Swap(i, 2 * i);
          i := 2 * i;
        } else {
          Swap(i, 2 * i + 1);
          i := 2 * i + 1;
        }
      }
      if 1 <= i && 2 * i < |keys| && keys[2 * i] < keys[i] {
        Swap(i, 2 * i);
      }
    }

    /** In a full heap the node in slot 1 has the least key. */
    lemma RootKeyIsMin()
      requires Valid() && |keys| >= 2 && FullHeap(keys)
      ensures forall v :: v in Contents() ==> keys[1] <= Contents()[v]
    {
      forall v | v in Contents()
        ensures keys[1] <= Contents()[v]
      {
        RootIsMin(keys, nodeToIndex[v]);
      }
    }

    /** keys.remove(lastIndex): the last slot and its node leave the heap. */
    method RemoveLast()
      requires Valid() && |keys| >= 2
      modifies this
      ensures Valid() && keys == old(keys[..|keys| - 1])
      ensures indexToNode == old(indexToNode) && nodeToIndex == old(nodeToIndex)
      ensures Contents() == old(Contents()) - {old(indexToNode[|keys| - 1])}
    {
      DropLastContents(keys, indexToNode, nodeToIndex);
      keys := keys[..|keys| - 1];
    }

    /** A key at most every key of c0 is at most every key left once top is removed. */
    static lemma MinOfRest(c0: map<int, int>, top: int, r: int)
      requires forall v :: v in c0 ==> r <= c0[v]
      ensures forall v :: v in c0 - {top} ==> r <= (c0 - {top})[v]
    {
    }

    /** The node in slot 1. */
    method PeekMinNode() returns (r: int)
      requires Valid() && 1 in indexToNode
      ensures r == indexToNode[1]
      ensures |keys| >= 2 ==> r in Contents() && Contents()[r] == keys[1]
      ensures |keys| >= 2 && FullHeap(keys) ==> forall v :: v in Contents() ==> Contents()[r] <= Contents()[v]
    {
      r := indexToNode[1];
      if |keys| >= 2 {
        ContentsAt(1);
        if FullHeap(keys) {
          RootKeyIsMin();
        }
      }
    }

    /** extractMinKey as written: returns slot 1's key, moves the last slot to the root,
        drops the last slot and sifts down with heapifyDown. */
    method ExtractMinKey() returns (r: int)
      requires Valid() && |keys| >= 2
      modifies this
      ensures Valid()
      ensures r == old(keys[1]) && r == old(Contents())[old(indexToNode[1])]
      ensures Contents() == old(Contents()) - {old(indexToNode[1])}
      ensures keys == SiftDownAsWritten(LastToRoot(old(keys)), 1)
      ensures old(AlmostHeap(keys)) ==> AlmostHeap(keys)
      ensures old(FullHeap(keys)) ==> forall v :: v in Contents() ==> r <= Contents()[v]
    {
      ghost var c0, top := Contents(), indexToNode[1];
      ContentsAt(1);
      if FullHeap(keys) {
        RootKeyIsMin();
      }
      var lastIndex := |keys| - 1;
      var minKey := keys[1];
      SwapDropIsLastToRoot(keys);
      Swap(1, lastIndex);
      assert indexToNode[lastIndex] == top && Contents() == c0;
      RemoveLast();
      assert Contents() == c0 - {top};
      HeapifyDown(1);
      if old(AlmostHeap(keys)) {
        LastToRootReady(old(keys));
        SiftDownAsWrittenResult(LastToRoot(old(keys)), 1);
      }
      r := minKey;
      if old(FullHeap(keys)) {
        MinOfRest(c0, top, r);
      }
    }

    /** extractMinKey with the corrected sift-down: a full heap stays a full heap. */
    method ExtractMinKeyRepaired() returns (r: int)
      requires Valid() && |keys| >= 2
      modifies this
      ensures Valid()
      ensures r == old(keys[1]) && r == old(Contents())[old(indexToNode[1])]
      ensures Contents() == old(Contents()) - {old(indexToNode[1])}
      ensures keys == SiftDown(LastToRoot(old(keys)), 1)
      ensures old(FullHeap(keys)) ==> FullHeap(keys)
      ensures old(FullHeap(keys)) ==> forall v :: v in Contents() ==> r <= Contents()[v]
    {
      ghost var c0, top := Contents(), indexToNode[1];
      ContentsAt(1);
      if FullHeap(keys) {
        RootKeyIsMin();
      }
      var lastIndex := |keys| - 1;
      var minKey := keys[1];
      SwapDropIsLastToRoot(keys);
      Swap(1, lastIndex);
      assert indexToNode[lastIndex] == top && Contents() == c0;
      RemoveLast();
      assert Contents() == c0 - {top};
      HeapifyDownRepaired(1);
      if old(FullHeap(keys)) {
        LastToRootReady(old(keys));
        SiftDownRestores(LastToRoot(old(keys)), 1);
      }
      r := minKey;
      if old(FullHeap(keys)) {
        MinOfRest(c0, top, r);
      }
    }

    /** The key of a node in the heap. */
    method PeekNode(node: int) returns (r: int)
      requires Valid() && node in Contents()
      ensures r == Contents()[node]
    {
      r := keys[nodeToIndex[node]];
    }

    /** decreaseKey: only a strictly smaller key is stored, then bubbled up. */
    method DecreaseKey(node: int, key: int)
      requires Valid() && node in Contents()
      modifies this
      ensures Valid()
      ensures key < old(Contents()[node]) ==> Contents() == old(Contents())[node := key]
      ensures key >= old(Contents()[node]) ==> keys == old(keys) && Contents() == old(Contents())
      ensures key < old(Contents()[node]) ==>
                keys == SiftUp(old(keys)[old(nodeToIndex[node]) := key], old(nodeToIndex[node]))
      ensures old(FullHeap(keys)) ==> FullHeap(keys)
      ensures old(AlmostHeap(keys)) ==> AlmostHeap(keys)
    {
      var nodeIndex := nodeToIndex[node];
      if key < keys[nodeIndex] {
        SetKeyContents(keys, indexToNode, nodeToIndex, nodeIndex, key);
        if FullHeap(keys) {
          LowerKeyReady(keys, nodeIndex, key, 0);
          SiftUpRestores(keys[nodeIndex := key], nodeIndex, 0);
        }
        if AlmostHeap(keys) {
          LowerKeyReady(keys, nodeIndex, key, LoneLeft(|keys|));
          SiftUpRestores(keys[nodeIndex := key], nodeIndex, LoneLeft(|keys|));
        }
        keys := keys[nodeIndex := key];
        HeapifyUp(nodeIndex);
      }
    }

    /** insertNode: appends a new slot for a node no slot holds, then bubbles it up. */
    method InsertNode(node: int, key: int)
      requires Valid() && forall i :: 0 <= i < |keys| ==> indexToNode[i] != node
      modifies this
      ensures Valid()
      ensures Contents() == old(Contents())[node := key]
      ensures keys == SiftUp(old(keys) + [key], |old(keys)|)
      ensures old(FullHeap(keys)) ==> FullHeap(keys)
    {
      AppendContents(keys, indexToNode, nodeToIndex, node, key);
      if FullHeap(keys) {
        var k2 := keys + [key];
        forall c | 2 <= c < |k2| && c != |keys|
          ensures k2[c / 2] <= k2[c]
        {
          assert keys[c / 2] <= keys[c];
        }
        SiftUpRestores(k2, |keys|, 0);
      }
      keys := keys + [key];
      var nodeIndex := |keys| - 1;
      nodeToIndex := nodeToIndex[node := nodeIndex];
      indexToNode := indexToNode[nodeIndex := node];
      HeapifyUp(nodeIndex);
    }

    /** deleteNode: swaps the node's slot with the last one and drops it, without re-sifting. */
    method DeleteNode(node: int)
      requires Valid() && node in Contents()
      modifies this
      ensures Valid()
      ensures Contents() == old(Contents()) - {node}
      ensures keys == Swapped(old(keys), old(nodeToIndex[node]), |old(keys)| - 1)[..|old(keys)| - 1]
    {
      var index := nodeToIndex[node];
      var lastIndex := |keys| - 1;
      Swap(index, lastIndex);
      RemoveLast();
    }
  }
}
