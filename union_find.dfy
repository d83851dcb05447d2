/**
 * Union-find over the nodes 0..N with union by rank and path compression.
 * The parent and rank arrays form a ranked forest: every node that is not
 * a root has a strictly smaller rank than its parent, which is what makes
 * the parent chains finite.
 */
module DisjointSets {

  // ---------------------------------------------------------------------------
  // Ranked forests
  // ---------------------------------------------------------------------------

  /** An upper bound on every rank (0 when there are no nodes). */
  function MaxRank(r: seq<int>): (m: int)
    ensures forall i :: 0 <= i < |r| ==> r[i] <= m
  {
    if |r| == 0 then 0
    else
      var m := MaxRank(r[..|r| - 1]);
      if r[|r| - 1] > m then r[|r| - 1] else m
  }

  /** Every parent is a node, ranks are non-negative and strictly increase from a node to its parent. */
  ghost predicate Ranked(p: seq<int>, r: seq<int>) {
    |p| == |r| &&
    forall i :: 0 <= i < |p| ==> 0 <= p[i] < |p| && 0 <= r[i] && (p[i] != i ==> r[i] < r[p[i]])
  }

  /** The root reached from x by following parents. */
  ghost function Root(p: seq<int>, r: seq<int>, x: int): (y: int)
    requires Ranked(p, r) && 0 <= x < |p|
    ensures 0 <= y < |p| && p[y] == y
    ensures y == x || r[x] < r[y]
    decreases MaxRank(r) - r[x]
  {
    if p[x] == x then x else Root(p, r, p[x])
  }

  /** y lies on the parent chain from x to its root. */
  ghost predicate OnPath(p: seq<int>, r: seq<int>, x: int, y: int)
    requires Ranked(p, r) && 0 <= x < |p|
    decreases MaxRank(r) - r[x]
  {
    y == x || (p[x] != x && OnPath(p, r, p[x], y))
  }

  /** The nodes 0..n-1. */
  function Range(n: int): (s: set<int>)
    ensures forall i :: i in s <==> 0 <= i < n
    ensures n >= 0 ==> |s| == n
    decreases n
  {
    if n <= 0 then {} else Range(n - 1) + {n - 1}
  }

  /** The nodes that are their own parent. */
  ghost function Roots(p: seq<int>): set<int> {
    set i | 0 <= i < |p| && p[i] == i
  }

  /** The root of every node, node by node. */
  ghost function RootMap(p: seq<int>, r: seq<int>): (m: seq<int>)
    requires Ranked(p, r)
    ensures |m| == |p| && forall i :: 0 <= i < |p| ==> m[i] == Root(p, r, i)
  {
    seq(|p|, i requires 0 <= i < |p| => Root(p, r, i))
  }

  /** find's effect on the parents: every node on the path from x is pointed straight at the root. */
  ghost function Compress(p: seq<int>, r: seq<int>, x: int): (q: seq<int>)
    requires Ranked(p, r) && 0 <= x < |p|
    ensures |q| == |p|
    decreases MaxRank(r) - r[x]
  {
    if p[x] == x then p else Compress(p, r, p[x])[x := Root(p, r, x)]
  }

  /** Every node on the path from x has x's root. */
  lemma {:induction false} OnPathRoot(p: seq<int>, r: seq<int>, x: int, y: int)
    requires Ranked(p, r) && 0 <= x < |p| && 0 <= y < |p| && OnPath(p, r, x, y)
    ensures Root(p, r, y) == Root(p, r, x)
    decreases MaxRank(r) - r[x]
  {
    if y != x {
      OnPathRoot(p, r, p[x], y);
    }
  }

  /** Compressing the path from x redirects exactly the nodes on that path, to x's root. */
  lemma {:induction false} CompressPath(p: seq<int>, r: seq<int>, x: int)
    requires Ranked(p, r) && 0 <= x < |p|
    ensures forall y :: 0 <= y < |p| ==>
      Compress(p, r, x)[y] == if OnPath(p, r, x, y) then Root(p, r, x) else p[y]
    decreases MaxRank(r) - r[x]
  {
    if p[x] != x {
      CompressPath(p, r, p[x]);
    }
  }

  /** Pointing some nodes at their own roots keeps the forest ranked. */
  lemma RedirectRanked(p: seq<int>, q: seq<int>, r: seq<int>)
    requires Ranked(p, r) && |q| == |p|
    requires forall y :: 0 <= y < |p| ==> q[y] == p[y] || q[y] == Root(p, r, y)
    ensures Ranked(q, r)
  {
  }

  /** ... and changes no node's root. */
  lemma {:induction false} RedirectRoot(p: seq<int>, q: seq<int>, r: seq<int>, x: int)
    requires Ranked(p, r) && Ranked(q, r) && 0 <= x < |p| && |q| == |p|
    requires forall y :: 0 <= y < |p| ==> q[y] == p[y] || q[y] == Root(p, r, y)
    ensures Root(q, r, x) == Root(p, r, x)
    decreases MaxRank(r) - r[x]
  {
    if q[x] != x {
      RedirectRoot(p, q, r, q[x]);
      if q[x] != p[x] {
        assert Root(p, r, q[x]) == q[x];
      }
    }
  }

  /** ... nor which nodes are roots. */
  lemma RedirectRoots(p: seq<int>, q: seq<int>, r: seq<int>)
    requires Ranked(p, r) && |q| == |p|
    requires forall y :: 0 <= y < |p| ==> q[y] == p[y] || q[y] == Root(p, r, y)
    ensures Roots(q) == Roots(p)
  {
    forall y | 0 <= y < |p| ensures (q[y] == y) == (p[y] == y) {
      if p[y] != y {
        assert Root(p, r, y) != y;
      }
    }
  }

  /** Path compression keeps the forest ranked and keeps every node's root and the set of roots. */
  lemma CompressKeeps(p: seq<int>, r: seq<int>, x: int)
    requires Ranked(p, r) && 0 <= x < |p|
    ensures Ranked(Compress(p, r, x), r)
    ensures RootMap(Compress(p, r, x), r) == RootMap(p, r)
    ensures Roots(Compress(p, r, x)) == Roots(p)
  {
    var q := Compress(p, r, x);
    CompressPath(p, r, x);
    forall y | 0 <= y < |p| ensures q[y] == p[y] || q[y] == Root(p, r, y) {
      if OnPath(p, r, x, y) {
        OnPathRoot(p, r, x, y);
      }
    }
    RedirectRanked(p, q, r);
    forall y | 0 <= y < |p| ensures Root(q, r, y) == Root(p, r, y) {
      RedirectRoot(p, q, r, y);
    }
    RedirectRoots(p, q, r);
  }

  // ---------------------------------------------------------------------------
  // Linking two roots
  // ---------------------------------------------------------------------------

  /** The root that stays a root: the one of higher rank, the second on a tie. */
  function Winner(r: seq<int>, ra: int, rb: int): int
    requires 0 <= ra < |r| && 0 <= rb < |r|
  {
    if r[rb] < r[ra] then ra else rb
  }

  /** The root that is linked under the other. */
  function Loser(r: seq<int>, ra: int, rb: int): int
    requires 0 <= ra < |r| && 0 <= rb < |r|
  {
    if r[rb] < r[ra] then rb else ra
  }

  /** union's parents once both roots are known. */
  function LinkParents(p: seq<int>, r: seq<int>, ra: int, rb: int): (q: seq<int>)
    requires |p| == |r| && 0 <= ra < |r| && 0 <= rb < |r|
  {
    p[Loser(r, ra, rb) := Winner(r, ra, rb)]
  }

  /** union's ranks: the surviving root gains one exactly when the ranks tie. */
  function LinkRanks(r: seq<int>, ra: int, rb: int): (s: seq<int>)
    requires 0 <= ra < |r| && 0 <= rb < |r|
  {
    if r[ra] == r[rb] then r[rb := r[rb] + 1] else r
  }

  /** Every root of a set keeps being one except the loser, whose set joins the winner's. */
  ghost function Relabel(m: seq<int>, loser: int, winner: int): (m': seq<int>)
    ensures |m'| == |m|
  {
    seq(|m|, i requires 0 <= i < |m| => if m[i] == loser then winner else m[i])
  }

  /** Linking two distinct roots keeps the forest ranked and ranks never drop. */
  lemma LinkRanked(p: seq<int>, r: seq<int>, ra: int, rb: int)
    requires Ranked(p, r) && 0 <= ra < |p| && 0 <= rb < |p| && p[ra] == ra && p[rb] == rb && ra != rb
    ensures Ranked(LinkParents(p, r, ra, rb), LinkRanks(r, ra, rb))
    ensures forall i :: 0 <= i < |r| ==> r[i] <= LinkRanks(r, ra, rb)[i]
  {
  }

  lemma {:induction false} LinkRoot(p: seq<int>, r: seq<int>, ra: int, rb: int, x: int)
    requires Ranked(p, r) && 0 <= ra < |p| && 0 <= rb < |p| && p[ra] == ra && p[rb] == rb && ra != rb
    requires Ranked(LinkParents(p, r, ra, rb), LinkRanks(r, ra, rb)) && 0 <= x < |p|
    ensures Root(LinkParents(p, r, ra, rb), LinkRanks(r, ra, rb), x) ==
            if Root(p, r, x) == Loser(r, ra, rb) then Winner(r, ra, rb) else Root(p, r, x)
    decreases MaxRank(r) - r[x]
  {
    if p[x] != x {
      LinkRoot(p, r, ra, rb, p[x]);
    }
  }

  /** Linking joins the loser's set to the winner's and removes exactly one root. */
  lemma LinkKeeps(p: seq<int>, r: seq<int>, ra: int, rb: int)
    requires Ranked(p, r) && 0 <= ra < |p| && 0 <= rb < |p| && p[ra] == ra && p[rb] == rb && ra != rb
    ensures Ranked(LinkParents(p, r, ra, rb), LinkRanks(r, ra, rb))
    ensures RootMap(LinkParents(p, r, ra, rb), LinkRanks(r, ra, rb)) == Relabel(RootMap(p, r), Loser(r, ra, rb), Winner(r, ra, rb))
    ensures Roots(LinkParents(p, r, ra, rb)) == Roots(p) - {Loser(r, ra, rb)}
    ensures |Roots(LinkParents(p, r, ra, rb))| == |Roots(p)| - 1
  {
    LinkRanked(p, r, ra, rb);
    var q, s := LinkParents(p, r, ra, rb), LinkRanks(r, ra, rb);
    forall x | 0 <= x < |p|
      ensures RootMap(q, s)[x] == Relabel(RootMap(p, r), Loser(r, ra, rb), Winner(r, ra, rb))[x]
    {
      LinkRoot(p, r, ra, rb, x);
    }
    assert Loser(r, ra, rb) in Roots(p);
  }

  /**
   * What union(a, b) does to a ranked forest (p, r), giving (p', r'): it
   * reports whether a and b had different roots; if not, no set and no rank
   * changes; if so, the loser's set joins the winner's, the ranks are those
   * of the link and exactly one root is gone.
   */
  ghost predicate UnionSpec(p: seq<int>, r: seq<int>, p': seq<int>, r': seq<int>, a: int, b: int, merged: bool)
    requires Ranked(p, r) && Ranked(p', r') && 0 <= a < |p| && 0 <= b < |p| && |p'| == |p|
  {
    var roots := RootMap(p, r);
    var ra, rb := roots[a], roots[b];
    && merged == (ra != rb)
    && (!merged ==> RootMap(p', r') == roots && r' == r && Roots(p') == Roots(p))
    && (merged ==> RootMap(p', r') == Relabel(roots, Loser(r, ra, rb), Winner(r, ra, rb)) &&
                   r' == LinkRanks(r, ra, rb) &&
                   Roots(p') == Roots(p) - {Loser(r, ra, rb)} && |Roots(p')| == |Roots(p)| - 1)
  }

  /** union(a, b) on a ranked forest: find a, find b, then link the two roots when they differ. */
  ghost function UnionOf(p: seq<int>, r: seq<int>, a: int, b: int): (u: (seq<int>, seq<int>, bool))
    requires Ranked(p, r) && 0 <= a < |p| && 0 <= b < |p|
    ensures |u.0| == |p| && Ranked(u.0, u.1)
  {
    CompressKeeps(p, r, a);
    var p1 := Compress(p, r, a);
    CompressKeeps(p1, r, b);
    var p2 := Compress(p1, r, b);
    var ra, rb := Root(p, r, a), Root(p1, r, b);
    if ra == rb then (p2, r, false)
    else
      LinkKeeps(p2, r, ra, rb);
      (LinkParents(p2, r, ra, rb), LinkRanks(r, ra, rb), true)
  }

  /** union meets its specification, and afterwards a and b are in the same set. */
  lemma UnionOfMeetsSpec(p: seq<int>, r: seq<int>, a: int, b: int)
    requires Ranked(p, r) && 0 <= a < |p| && 0 <= b < |p|
    ensures var u := UnionOf(p, r, a, b);
            UnionSpec(p, r, u.0, u.1, a, b, u.2) && RootMap(u.0, u.1)[a] == RootMap(u.0, u.1)[b]
  {
    CompressKeeps(p, r, a);
    var p1 := Compress(p, r, a);
    CompressKeeps(p1, r, b);
    var p2 := Compress(p1, r, b);
    var ra, rb := Root(p, r, a), Root(p1, r, b);
    assert rb == RootMap(p, r)[b];
    if ra != rb {
      LinkKeeps(p2, r, ra, rb);
    }
  }

  /** x and y are in the same set of the forest (p, r). */
  ghost predicate SameSet(p: seq<int>, r: seq<int>, x: int, y: int)
    requires Ranked(p, r) && 0 <= x < |p| && 0 <= y < |p|
  {
    RootMap(p, r)[x] == RootMap(p, r)[y]
  }

  /**
   * After union(a, b), x and y are in the same set exactly when they were
   * before, or one was with a and the other with b.
   */
  lemma UnionSameSet(p: seq<int>, r: seq<int>, a: int, b: int, x: int, y: int)
    requires Ranked(p, r) && 0 <= a < |p| && 0 <= b < |p| && 0 <= x < |p| && 0 <= y < |p|
    ensures var u := UnionOf(p, r, a, b);
            SameSet(u.0, u.1, x, y) <==>
              SameSet(p, r, x, y) || (SameSet(p, r, x, a) && SameSet(p, r, y, b)) || (SameSet(p, r, x, b) && SameSet(p, r, y, a))
  {
    UnionOfMeetsSpec(p, r, a, b);
  }

  // ---------------------------------------------------------------------------
  // The union-find object
  // ---------------------------------------------------------------------------

  class UnionFind {
    var parent: array<int>
    var rank: array<int>

    ghost predicate Valid()
      reads this, parent, rank
    {
      parent != rank && Ranked(parent[..], rank[..])
    }

    /** Nodes 0..N, each in a set of its own with rank 0. */
    constructor(N: int)
      requires N + 1 >= 0
      ensures Valid() && parent.Length == N + 1 && fresh(parent) && fresh(rank)
      ensures forall i :: 0 <= i <= N ==> parent[i] == i && rank[i] == 0
      ensures Roots(parent[..]) == Range(N + 1)
    {
      var p := new int[N + 1];
      var r := new int[N + 1];
      var i := 0;
      while i <= N
        invariant 0 <= i <= N + 1
        invariant forall k :: 0 <= k < i ==> p[k] == k && r[k] == 0
      {
        p[i] := i;
        r[i] := 0;
        i := i + 1;
      }
      parent, rank := p, r;
      assert forall k :: k in Roots(p[..]) <==> 0 <= k < N + 1;
    }

    /** The root of node's set; every node on the way is pointed straight at it. */
    method Find(node: int) returns (root: int)
      requires Valid() && 0 <= node < parent.Length
      modifies parent
      ensures Valid()
      ensures root == old(Root(parent[..], rank[..], node))
      ensures parent[..] == Compress(old(parent[..]), rank[..], node)
      ensures RootMap(parent[..], rank[..]) == old(RootMap(parent[..], rank[..]))
      ensures Roots(parent[..]) == old(Roots(parent[..]))
      decreases MaxRank(rank[..]) - rank[node]
    {
      ghost var p := parent[..];
      CompressKeeps(p, rank[..], node);
      if parent[node] == node {
        return node;
      }
      root := Find(parent[node]);
      parent[node] := root;
    }

    /**
     * Join the sets of nodeA and nodeB: false, with nothing linked, when
     * they already share a root; otherwise the lower-rank root goes under
     * the other (the first under the second on a tie, which raises the
     * second's rank) and the result is true.
     */
    method Union(nodeA: int, nodeB: int) returns (merged: bool)
      requires Valid() && 0 <= nodeA < parent.Length && 0 <= nodeB < parent.Length
      modifies parent, rank
      ensures Valid()
      ensures (parent[..], rank[..], merged) == UnionOf(old(parent[..]), old(rank[..]), nodeA, nodeB)
      ensures UnionSpec(old(parent[..]), old(rank[..]), parent[..], rank[..], nodeA, nodeB, merged)
      ensures RootMap(parent[..], rank[..])[nodeA] == RootMap(parent[..], rank[..])[nodeB]
    {
      UnionOfMeetsSpec(parent[..], rank[..], nodeA, nodeB);
      var parentA := Find(nodeA);
      var parentB := Find(nodeB);
      if parentA == parentB {
        return false;
      }
      Link(parentA, parentB);
      return true;
    }

    /** The second half of union: link two distinct roots. */
    method Link(parentA: int, parentB: int)
      requires Valid() && 0 <= parentA < parent.Length && 0 <= parentB < parent.Length
      requires parent[parentA] == parentA && parent[parentB] == parentB && parentA != parentB
      modifies parent, rank
      ensures Valid()
      ensures parent[..] == LinkParents(old(parent[..]), old(rank[..]), parentA, parentB)
      ensures rank[..] == LinkRanks(old(rank[..]), parentA, parentB)
      ensures RootMap(parent[..], rank[..]) ==
              Relabel(old(RootMap(parent[..], rank[..])), Loser(old(rank[..]), parentA, parentB), Winner(old(rank[..]), parentA, parentB))
      ensures Roots(parent[..]) == old(Roots(parent[..])) - {Loser(old(rank[..]), parentA, parentB)}
      ensures |Roots(parent[..])| == old(|Roots(parent[..])|) - 1
    {
      LinkKeeps(parent[..], rank[..], parentA, parentB);
      if rank[parentA] < rank[parentB] {
        parent[parentA] := parentB;
      } else if rank[parentB] < rank[parentA] {
        parent[parentB] := parentA;
      } else {
        parent[parentA] := parentB;
        rank[parentB] := rank[parentB] + 1;
      }
    }
  }
}
