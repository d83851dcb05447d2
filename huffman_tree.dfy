/**
 * The binary tree of Huffman coding: symbols sit at the leaves, internal
 * nodes carry the ID -1 and the int sum of their children's weights.  Trees
 * are values here (nothing in the source changes a node once built); the
 * list of codes that generateEncodes fills in place is an array of strings.
 */
module HuffmanTree {
  import JavaInt

  /** A node of Tree.java, or Null for Java's null. */
  datatype Node = Null | Node(id: int, weight: int, left: Node, right: Node)

  /** A Tree: a root node. The two constructors of Tree.java always give it one. */
  datatype Tree = Tree(root: Node)

  // ---------------------------------------------------------------------------
  // Construction
  // ---------------------------------------------------------------------------

  /** What generateEncodes takes for a leaf: a node with a missing child. */
  predicate IsLeaf(n: Node)
    requires n.Node?
  {
    n.left.Null? || n.right.Null?
  }

  /** The (ID, weight) pairs at the leaves of a subtree, left to right. */
  function LeafList(n: Node): seq<(int, int)>
    decreases n
  {
    match n
    case Null => []
    case Node(id, w, l, r) => if IsLeaf(n) then [(id, w)] else LeafList(l) + LeafList(r)
  }

  /** The exact sum of the leaf weights of a subtree. */
  function LeafSum(n: Node): int
    decreases n
  {
    match n
    case Null => 0
    case Node(_, w, l, r) => if IsLeaf(n) then w else LeafSum(l) + LeafSum(r)
  }

  /** The internal nodes of a subtree: one per Merge that built it. */
  function Internal(n: Node): nat
    decreases n
  {
    match n
    case Null => 0
    case Node(_, _, l, r) => if IsLeaf(n) then 0 else 1 + Internal(l) + Internal(r)
  }

  /**
   * The subtrees the two constructors can build: a symbol with an int weight and no
   * children, or a node with ID -1 above two such subtrees whose weight is the int sum
   * of theirs.
   */
  predicate Built(n: Node)
    decreases n
  {
    match n
    case Null => false
    case Node(id, w, l, r) =>
      if l.Null? && r.Null? then JavaInt.InRange(w)
      else l.Node? && r.Node? && id == -1 && Built(l) && Built(r) && w == JavaInt.Wrap(l.weight + r.weight)
  }

  /** new Tree(ID, weight): a single symbol. */
  function Symbol(id: int, weight: int): (t: Tree)
    requires JavaInt.InRange(weight)
    ensures Built(t.root) && IsLeaf(t.root)
    ensures LeafList(t.root) == [(id, weight)] && Internal(t.root) == 0
  {
    Tree(Node(id, weight, Null, Null))
  }

  /** Tree.Merge(a, b): a new root with ID -1, a's root on the left, b's on the right. */
  function Merge(a: Tree, b: Tree): (t: Tree)
    requires Built(a.root) && Built(b.root)
    ensures Built(t.root) && t.root.id == -1 && t.root.left == a.root && t.root.right == b.root
    ensures LeafList(t.root) == LeafList(a.root) + LeafList(b.root)
    ensures LeafSum(t.root) == LeafSum(a.root) + LeafSum(b.root)
    ensures Internal(t.root) == Internal(a.root) + Internal(b.root) + 1
  {
    Tree(Node(-1, JavaInt.Wrap(a.root.weight + b.root.weight), a.root, b.root))
  }

  /** Weight(): the weight at the root. */
  function Weight(t: Tree): (w: int)
    requires t.root.Node?
    ensures Built(t.root) ==> JavaInt.InRange(w) && w == JavaInt.Wrap(LeafSum(t.root))
  {
    if Built(t.root) then WeightIsSum(t.root); t.root.weight else t.root.weight
  }

  /** The root weight of a built tree is the int that the sum of its leaf weights wraps to. */
  lemma {:induction false} WeightIsSum(n: Node)
    requires Built(n)
    ensures n.weight == JavaInt.Wrap(LeafSum(n))
    decreases n
  {
    if !(n.left.Null? && n.right.Null?) {
      WeightIsSum(n.left);
      WeightIsSum(n.right);
      JavaInt.WrapAdd(LeafSum(n.left), n.right.weight);
      JavaInt.WrapAdd(LeafSum(n.right), LeafSum(n.left));
    }
  }

  /** A built tree with n leaves was put together by n - 1 merges. */
  lemma {:induction false} LeavesAndMerges(n: Node)
    requires Built(n)
    ensures |LeafList(n)| == Internal(n) + 1
    decreases n
  {
    if !(n.left.Null? && n.right.Null?) {
      LeavesAndMerges(n.left);
      LeavesAndMerges(n.right);
    }
  }

  // ---------------------------------------------------------------------------
  // Order
  // ---------------------------------------------------------------------------

  /** compareTo: -1, 0 or +1 as the first root weight is below, equal to or above the second. */
  function CompareTo(a: Tree, b: Tree): (r: int)
    requires a.root.Node? && b.root.Node?
    ensures r == 0 <==> Weight(a) == Weight(b)
    ensures r < 0 <==> Weight(a) < Weight(b)
    ensures r > 0 <==> Weight(a) > Weight(b)
    ensures -1 <= r <= 1
  {
    if a.root.weight < b.root.weight then -1
    else if a.root.weight > b.root.weight then 1
    else 0
  }

  /** compareTo is a total order as Comparable demands: antisymmetric and transitive. */
  lemma CompareOrder(a: Tree, b: Tree, c: Tree)
    requires a.root.Node? && b.root.Node? && c.root.Node?
    ensures CompareTo(a, b) == -CompareTo(b, a)
    ensures CompareTo(a, b) <= 0 && CompareTo(b, c) <= 0 ==> CompareTo(a, c) <= 0
  {
  }

  // ---------------------------------------------------------------------------
  // Codes
  // ---------------------------------------------------------------------------

  /**
   * The (ID, code) pairs that generateEncodes(node, _, code) writes, in the order it
   * writes them: left appends '0', right appends '1', a node with a missing child ends
   * the path.
   */
  function Codes(n: Node, code: string): (r: seq<(int, string)>)
    requires n.Node?
    ensures |r| >= 1
    decreases n
  {
    if IsLeaf(n) then [(n.id, code)]
    else Codes(n.left, code + "0") + Codes(n.right, code + "1")
  }

  /** The (ID, depth) pairs of the leaves, in the same order. */
  function Depths(n: Node, depth: nat): seq<(int, nat)>
    requires n.Node?
    decreases n
  {
    if IsLeaf(n) then [(n.id, depth)]
    else Depths(n.left, depth + 1) + Depths(n.right, depth + 1)
  }

  /** No code on the list is a prefix of another, so in particular all codes differ. */
  predicate PrefixFree(cs: seq<(int, string)>) {
    forall i, j :: 0 <= i < |cs| && 0 <= j < |cs| && i != j ==> !(cs[i].1 <= cs[j].1)
  }

  /** Every code below a node extends the code of the path to it. */
  lemma {:induction false} CodesExtend(n: Node, code: string)
    requires n.Node?
    ensures forall k :: 0 <= k < |Codes(n, code)| ==> code <= Codes(n, code)[k].1
    decreases n
  {
    if !IsLeaf(n) {
      CodesExtend(n.left, code + "0");
      CodesExtend(n.right, code + "1");
    }
  }

  /** The codes are prefix-free. */
  lemma {:induction false} CodesPrefixFree(n: Node, code: string)
    requires n.Node?
    ensures PrefixFree(Codes(n, code))
    decreases n
  {
    if !IsLeaf(n) {
      var a: seq<(int, string)>, b: seq<(int, string)> := Codes(n.left, code + "0"), Codes(n.right, code + "1");
      CodesPrefixFree(n.left, code + "0");
      CodesPrefixFree(n.right, code + "1");
      CodesExtend(n.left, code + "0");
      CodesExtend(n.right, code + "1");
      forall i, j | 0 <= i < |a + b| && 0 <= j < |a + b| && i != j
        ensures !((a + b)[i].1 <= (a + b)[j].1)
      {
        if i < |a| && |a| <= j {
          Apart(code, a[i].1, b[j - |a|].1, '0', '1');
        } else if |a| <= i && j < |a| {
          Apart(code, b[i - |a|].1, a[j].1, '1', '0');
        }
      }
    }
  }

  /** Two strings that extend code by different next characters are not prefixes of each other. */
  lemma Apart(code: string, x: string, y: string, c: char, d: char)
    requires code + [c] <= x && code + [d] <= y && c != d
    ensures !(x <= y)
  {
    assert x[|code|] == c && y[|code|] == d;
  }

  /** Each code is as long as its leaf is deep: the two lists agree leaf by leaf. */
  lemma {:induction false} CodesDepths(n: Node, code: string)
    requires n.Node?
    ensures |Codes(n, code)| == |Depths(n, |code|)|
    ensures forall k :: 0 <= k < |Codes(n, code)| ==>
              Codes(n, code)[k].0 == Depths(n, |code|)[k].0 && |Codes(n, code)[k].1| == Depths(n, |code|)[k].1
    decreases n
  {
    if !IsLeaf(n) {
      CodesDepths(n.left, code + "0");
      CodesDepths(n.right, code + "1");
    }
  }

  /** The IDs of the leaves, from the code list. */
  function Ids<T>(cs: seq<(int, T)>): set<int> {
    set k | 0 <= k < |cs| :: cs[k].0
  }

  /** No ID occurs at two leaves. */
  predicate DistinctIds<T>(cs: seq<(int, T)>) {
    forall i, j :: 0 <= i < |cs| && 0 <= j < |cs| && i != j ==> cs[i].0 != cs[j].0
  }

  /** Every ID on the list indexes a list of the given size. */
  predicate IdsBelow<T>(cs: seq<(int, T)>, size: int) {
    forall k :: 0 <= k < |cs| ==> 0 <= cs[k].0 < size
  }

  /**
   * The list that generateEncodes(node, encodes, code) leaves behind: each leaf's ID
   * overwritten by its code, in left-to-right order.
   */
  function Encoded(e: seq<string>, cs: seq<(int, string)>): (r: seq<string>)
    requires IdsBelow(cs, |e|)
    ensures |r| == |e|
    decreases |cs|
  {
    if cs == [] then e
    else Encoded(e[cs[0].0 := cs[0].1], cs[1..])
  }

  /** Writing a list of codes one after another writes each part in turn. */
  lemma {:induction false} EncodedAppend(e: seq<string>, a: seq<(int, string)>, b: seq<(int, string)>)
    requires IdsBelow(a, |e|) && IdsBelow(b, |e|)
    ensures IdsBelow(a + b, |e|)
    ensures Encoded(e, a + b) == Encoded(Encoded(e, a), b)
    decreases |a|
  {
    IdsBelowSplit(a, b, |e|);
    if a == [] {
      assert a + b == b;
    } else {
      assert (a + b)[1..] == a[1..] + b;
      EncodedAppend(e[a[0].0 := a[0].1], a[1..], b);
    }
  }

  /** The IDs of a list are those of its head and of its tail, which with distinct IDs are apart. */
  lemma IdsCons(cs: seq<(int, string)>)
    requires cs != []
    ensures Ids(cs) == {cs[0].0} + Ids(cs[1..])
    ensures DistinctIds(cs) ==> DistinctIds(cs[1..]) && cs[0].0 !in Ids(cs[1..])
  {
    forall i | i in Ids(cs)
      ensures i in {cs[0].0} + Ids(cs[1..])
    {
      var k :| 0 <= k < |cs| && cs[k].0 == i;
      if k > 0 {
        assert cs[1..][k - 1].0 == i;
      }
    }
    forall i | i in Ids(cs[1..])
      ensures i in Ids(cs) && (DistinctIds(cs) ==> i != cs[0].0)
    {
      var k :| 0 <= k < |cs[1..]| && cs[1..][k].0 == i;
      assert cs[k + 1].0 == i;
    }
    assert cs[0].0 in Ids(cs);
  }

  /** With distinct IDs, every leaf's entry holds its code and every other entry is untouched. */
  lemma {:induction false} EncodedMeaning(e: seq<string>, cs: seq<(int, string)>)
    requires IdsBelow(cs, |e|) && DistinctIds(cs)
    ensures forall k :: 0 <= k < |cs| ==> Encoded(e, cs)[cs[k].0] == cs[k].1
    ensures forall i :: 0 <= i < |e| && i !in Ids(cs) ==> Encoded(e, cs)[i] == e[i]
    decreases |cs|
  {
    if cs != [] {
      var e1 := e[cs[0].0 := cs[0].1];
      IdsCons(cs);
      EncodedMeaning(e1, cs[1..]);
      forall k | 0 < k < |cs|
        ensures Encoded(e, cs)[cs[k].0] == cs[k].1
      {
        assert cs[k] == cs[1..][k - 1];
      }
    }
  }

  /** Two lists with the same IDs position by position have the same IDs in every sense. */
  lemma SameFirsts<T, U>(a: seq<(int, T)>, b: seq<(int, U)>)
    requires |a| == |b| && forall k :: 0 <= k < |a| ==> a[k].0 == b[k].0
    ensures Ids(a) == Ids(b) && (DistinctIds(a) <==> DistinctIds(b))
    ensures forall size :: IdsBelow(a, size) <==> IdsBelow(b, size)
  {
    forall i | i in Ids(a)
      ensures i in Ids(b)
    {
      var k :| 0 <= k < |a| && a[k].0 == i;
      assert b[k].0 == i;
    }
    forall i | i in Ids(b)
      ensures i in Ids(a)
    {
      var k :| 0 <= k < |b| && b[k].0 == i;
      assert a[k].0 == i;
    }
  }

  /** The code list names the leaves in the order LeafList has them. */
  lemma {:induction false} CodesLeaves(n: Node, code: string)
    requires n.Node?
    ensures |Codes(n, code)| == |LeafList(n)|
    ensures forall k :: 0 <= k < |Codes(n, code)| ==> Codes(n, code)[k].0 == LeafList(n)[k].0
    decreases n
  {
    if !IsLeaf(n) {
      CodesLeaves(n.left, code + "0");
      CodesLeaves(n.right, code + "1");
      var a: seq<(int, string)>, b: seq<(int, string)> := Codes(n.left, code + "0"), Codes(n.right, code + "1");
      var p: seq<(int, int)>, q: seq<(int, int)> := LeafList(n.left), LeafList(n.right);
      forall k | 0 <= k < |a + b|
        ensures (a + b)[k].0 == (p + q)[k].0
      {
        if k >= |a| {
          assert (a + b)[k] == b[k - |a|] && (p + q)[k] == q[k - |a|];
        }
      }
    }
  }

  /** Below a node whose IDs fit, the IDs of either side fit. */
  lemma SidesFit(n: Node, code: string, size: int)
    requires n.Node? && !IsLeaf(n) && IdsBelow(Codes(n, code), size)
    ensures IdsBelow(Codes(n.left, code + "0"), size) && IdsBelow(Codes(n.right, code + "1"), size)
  {
    IdsBelowSplit(Codes(n.left, code + "0"), Codes(n.right, code + "1"), size);
  }

  /** The IDs of two joined lists fit exactly when those of each list fit. */
  lemma IdsBelowSplit(a: seq<(int, string)>, b: seq<(int, string)>, size: int)
    ensures IdsBelow(a + b, size) <==> IdsBelow(a, size) && IdsBelow(b, size)
  {
    if IdsBelow(a + b, size) {
      forall k | 0 <= k < |a|
        ensures 0 <= a[k].0 < size
      {
        assert a[k] == (a + b)[k];
      }
      forall k | 0 <= k < |b|
        ensures 0 <= b[k].0 < size
      {
        assert b[k] == (a + b)[|a| + k];
      }
    }
    if IdsBelow(a, size) && IdsBelow(b, size) {
      forall k | 0 <= k < |a + b|
        ensures 0 <= (a + b)[k].0 < size
      {
        if k >= |a| {
          assert (a + b)[k] == b[k - |a|];
        }
      }
    }
  }

  /**
   * generateEncodes(node, encodes, currentCode): writes each leaf's code at its ID, going
   * left before right. Java's IndexOutOfBoundsException for an ID outside the list is
   * excluded by the precondition.
   */
  method GenerateEncodes(node: Node, encodes: array<string>, currentCode: string)
    requires node.Node? && IdsBelow(Codes(node, currentCode), encodes.Length)
    modifies encodes
    ensures encodes[..] == Encoded(old(encodes[..]), Codes(node, currentCode))
    decreases node
  {
    if node.left.Null? || node.right.Null? {
      assert Codes(node, currentCode)[0].0 == node.id;
      encodes[node.id] := currentCode;
      return;
    }
    SidesFit(node, currentCode, encodes.Length);
    EncodedAppend(encodes[..], Codes(node.left, currentCode + "0"), Codes(node.right, currentCode + "1"));
    GenerateEncodes(node.left, encodes, currentCode + "0");
    GenerateEncodes(node.right, encodes, currentCode + "1");
  }

  /** A list of n empty strings. */
  function Blank(n: nat): (r: seq<string>)
    ensures |r| == n && forall i :: 0 <= i < n ==> r[i] == ""
  {
    seq(n, _ => "")
  }

  /**
   * getEncodingList(nodes): nodes + 1 empty strings, then every leaf's code at its ID.
   * A leaf ID outside 0..nodes is Java's IndexOutOfBoundsException and is excluded.
   */
  method GetEncodingList(t: Tree, nodes: int) returns (encodes: array<string>)
    requires t.root.Node? && IdsBelow(Codes(t.root, ""), nodes + 1)
    ensures fresh(encodes) && encodes.Length == nodes + 1
    ensures encodes[..] == Encoded(Blank(nodes + 1), Codes(t.root, ""))
  {
    assert Codes(t.root, "")[0].0 < nodes + 1;
    encodes := new string[nodes + 1];
    var i := 0;
    while i <= nodes
      invariant 0 <= i <= nodes + 1
      invariant forall k :: 0 <= k < i ==> encodes[k] == ""
    {
      encodes[i] := "";
      i := i + 1;
    }
    assert encodes[..] == Blank(nodes + 1);
    GenerateEncodes(t.root, encodes, "");
  }

  /**
   * The list getEncodingList returns for a tree with distinct leaf IDs: a leaf's entry is
   * its code, every other entry (ID 0 and the IDs of no leaf) stays empty.
   */
  lemma EncodingList(t: Tree, nodes: int)
    requires 0 <= nodes && t.root.Node? && IdsBelow(Codes(t.root, ""), nodes + 1) && DistinctIds(Codes(t.root, ""))
    ensures forall k :: 0 <= k < |Codes(t.root, "")| ==>
              Encoded(Blank(nodes + 1), Codes(t.root, ""))[Codes(t.root, "")[k].0] == Codes(t.root, "")[k].1
    ensures forall i :: 0 <= i <= nodes && i !in Ids(Codes(t.root, "")) ==>
              Encoded(Blank(nodes + 1), Codes(t.root, ""))[i] == ""
  {
    EncodedMeaning(Blank(nodes + 1), Codes(t.root, ""));
  }

  /** A tree of one symbol codes it as the empty string. */
  lemma SingleSymbol(id: int, weight: int)
    requires JavaInt.InRange(weight)
    ensures Codes(Symbol(id, weight).root, "") == [(id, "")]
  {
  }
}
