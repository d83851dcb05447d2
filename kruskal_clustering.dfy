/**
 * Single-link clustering with Kruskal's algorithm: edges are taken in the
 * order given, each one that joins two different sets of the union-find
 * merges them, and once the number of clusters is down to the target the
 * next such edge is the spacing.
 */
module Kruskal {
  import opened DisjointSets
  import opened EdgeComparator

  /** Every edge of list has both endpoints among the nodes 0..n-1. */
  ghost predicate Endpoints(list: seq<Edge>, n: int) {
    forall i :: 0 <= i < |list| ==> 0 <= list[i].nodeA < n && 0 <= list[i].nodeB < n
  }

  function Min(a: int, b: int): int {
    if a <= b then a else b
  }

  /**
   * Where the scan of computeMaxClusterDistance ends: the forest, the cluster
   * count, the value returned, how many edges were looked at and whether the
   * scan stopped at a merging edge.
   */
  datatype Scan = Scan(parent: seq<int>, rank: seq<int>, clusters: int, spacing: int, used: nat, stopped: bool)

  /**
   * The scan over list from the forest (p, r) with the count clusters: an edge
   * whose union succeeds either ends the scan, when the count is already at
   * most k, or takes one off the count.
   */
  ghost function Cluster(p: seq<int>, r: seq<int>, clusters: int, list: seq<Edge>, k: int): (s: Scan)
    requires Ranked(p, r) && Endpoints(list, |p|)
    ensures |s.parent| == |p| && Ranked(s.parent, s.rank) && s.used <= |list|
    decreases |list|
  {
    if |list| == 0 then Scan(p, r, clusters, -1, 0, false)
    else
      var u := UnionOf(p, r, list[0].nodeA, list[0].nodeB);
      if u.2 && clusters <= k then Scan(u.0, u.1, clusters, list[0].cost, 1, true)
      else
        var rest := Cluster(u.0, u.1, if u.2 then clusters - 1 else clusters, list[1..], k);
        rest.(used := rest.used + 1)
  }

  /** Two nodes in the same set stay in the same set through union. */
  lemma UnionKeepsSame(p: seq<int>, r: seq<int>, a: int, b: int, x: int, y: int)
    requires Ranked(p, r) && 0 <= a < |p| && 0 <= b < |p| && 0 <= x < |p| && 0 <= y < |p|
    requires SameSet(p, r, x, y)
    ensures var u := UnionOf(p, r, a, b); SameSet(u.0, u.1, x, y)
  {
    UnionOfMeetsSpec(p, r, a, b);
  }

  /** After union(a, b), a and b are in the same set. */
  lemma UnionJoins(p: seq<int>, r: seq<int>, a: int, b: int)
    requires Ranked(p, r) && 0 <= a < |p| && 0 <= b < |p|
    ensures var u := UnionOf(p, r, a, b); SameSet(u.0, u.1, a, b)
  {
    UnionOfMeetsSpec(p, r, a, b);
  }

  /** Two nodes in the same set stay in the same set through the scan. */
  lemma {:induction false} ClusterKeepsSame(p: seq<int>, r: seq<int>, c: int, list: seq<Edge>, k: int, x: int, y: int)
    requires Ranked(p, r) && Endpoints(list, |p|) && 0 <= x < |p| && 0 <= y < |p|
    requires SameSet(p, r, x, y)
    ensures var s := Cluster(p, r, c, list, k); SameSet(s.parent, s.rank, x, y)
    decreases |list|
  {
    if |list| > 0 {
      var u := UnionOf(p, r, list[0].nodeA, list[0].nodeB);
      UnionKeepsSame(p, r, list[0].nodeA, list[0].nodeB, x, y);
      if !(u.2 && c <= k) {
        ClusterKeepsSame(u.0, u.1, if u.2 then c - 1 else c, list[1..], k, x, y);
      }
    }
  }

  /** The first n edges of list each lie inside one set of the forest (q, s). */
  ghost predicate Joined(q: seq<int>, s: seq<int>, list: seq<Edge>, n: int)
    requires Ranked(q, s) && Endpoints(list, |q|) && n <= |list|
  {
    forall i :: 0 <= i < n ==> SameSet(q, s, list[i].nodeA, list[i].nodeB)
  }

  lemma JoinedCons(q: seq<int>, s: seq<int>, list: seq<Edge>, n: int)
    requires Ranked(q, s) && Endpoints(list, |q|) && 1 <= n <= |list|
    requires SameSet(q, s, list[0].nodeA, list[0].nodeB) && Joined(q, s, list[1..], n - 1)
    ensures Joined(q, s, list, n)
  {
    forall i | 1 <= i < n ensures SameSet(q, s, list[i].nodeA, list[i].nodeB) {
      assert list[i] == list[1..][i - 1];
    }
  }

  /** Every edge the scan looked at, the last one included, ends inside one cluster. */
  lemma {:induction false} ClusterJoins(p: seq<int>, r: seq<int>, c: int, list: seq<Edge>, k: int)
    requires Ranked(p, r) && Endpoints(list, |p|)
    ensures var s := Cluster(p, r, c, list, k); Joined(s.parent, s.rank, list, s.used)
    decreases |list|
  {
    if |list| > 0 {
      var u := UnionOf(p, r, list[0].nodeA, list[0].nodeB);
      UnionJoins(p, r, list[0].nodeA, list[0].nodeB);
      if u.2 && c <= k {
        JoinedCons(u.0, u.1, list, 1);
      } else {
        var c' := if u.2 then c - 1 else c;
        var s := Cluster(u.0, u.1, c', list[1..], k);
        ClusterJoins(u.0, u.1, c', list[1..], k);
        ClusterKeepsSame(u.0, u.1, c', list[1..], k, list[0].nodeA, list[0].nodeB);
        JoinedCons(s.parent, s.rank, list, s.used + 1);
      }
    }
  }

  /**
   * The count goes down by one for every set that disappears, except the
   * merge that ends the scan, which is not counted.
   */
  lemma {:induction false} ClusterCount(p: seq<int>, r: seq<int>, c: int, list: seq<Edge>, k: int)
    requires Ranked(p, r) && Endpoints(list, |p|)
    ensures var s := Cluster(p, r, c, list, k);
            s.clusters - |Roots(s.parent)| == c - |Roots(p)| + (if s.stopped then 1 else 0)
    decreases |list|
  {
    if |list| > 0 {
      var u := UnionOf(p, r, list[0].nodeA, list[0].nodeB);
      UnionOfMeetsSpec(p, r, list[0].nodeA, list[0].nodeB);
      if !(u.2 && c <= k) {
        ClusterCount(u.0, u.1, if u.2 then c - 1 else c, list[1..], k);
      }
    }
  }

  /**
   * The value returned: -1 when the whole list was scanned without stopping,
   * otherwise the cost of the edge it stopped at, by which time the count has
   * come down to the smaller of its start and k. The count never rises and
   * never falls below that.
   */
  lemma {:induction false} ClusterSpacing(p: seq<int>, r: seq<int>, c: int, list: seq<Edge>, k: int)
    requires Ranked(p, r) && Endpoints(list, |p|)
    ensures Ends(Cluster(p, r, c, list, k), c, list, k)
    decreases |list|
  {
    if |list| > 0 {
      var u := UnionOf(p, r, list[0].nodeA, list[0].nodeB);
      if !(u.2 && c <= k) {
        var c' := if u.2 then c - 1 else c;
        ClusterSpacing(u.0, u.1, c', list[1..], k);
        EndsCons(Cluster(u.0, u.1, c', list[1..], k), c, c', list, k);
      }
    }
  }

  /** What ClusterSpacing states of the scan s that started from the count c. */
  ghost predicate Ends(s: Scan, c: int, list: seq<Edge>, k: int) {
    && s.used <= |list|
    && (!s.stopped ==> s.spacing == -1 && s.used == |list|)
    && (s.stopped ==> 1 <= s.used && s.spacing == list[s.used - 1].cost && s.clusters == Min(c, k))
    && Min(c, k) <= s.clusters <= c
  }

  lemma EndsCons(s: Scan, c: int, c': int, list: seq<Edge>, k: int)
    requires |list| > 0 && Ends(s, c', list[1..], k)
    requires c' == c || (c' == c - 1 && c > k)
    ensures Ends(s.(used := s.used + 1), c, list, k)
  {
    if s.stopped {
      assert list[1..][s.used - 1] == list[s.used];
    }
  }

  /** With the list sorted by the comparator, no edge looked at costs more than the spacing. */
  lemma SpacingIsLargest(p: seq<int>, r: seq<int>, c: int, list: seq<Edge>, k: int)
    requires Ranked(p, r) && Endpoints(list, |p|) && InOrder(list)
    ensures var s := Cluster(p, r, c, list, k);
            s.stopped ==> forall i :: 0 <= i < s.used ==> list[i].cost <= s.spacing
  {
    ClusterSpacing(p, r, c, list, k);
    var s := Cluster(p, r, c, list, k);
    if s.stopped {
      forall i | 0 <= i < s.used ensures list[i].cost <= s.spacing {
        InOrderNonDecreasing(list, i, s.used - 1);
      }
    }
  }

  /** The part of a scan the object keeps: the forest, the count and the value returned. */
  function Outcome(s: Scan): (seq<int>, seq<int>, int, int) {
    (s.parent, s.rank, s.clusters, s.spacing)
  }

  /** Scanning list[i..] is one step on list[i] followed by the scan of list[i + 1..]. */
  lemma ClusterStep(p: seq<int>, r: seq<int>, c: int, list: seq<Edge>, k: int, i: int, q: seq<int>, s: seq<int>, merged: bool)
    requires Ranked(p, r) && Endpoints(list, |p|) && 0 <= i < |list|
    requires (q, s, merged) == UnionOf(p, r, list[i].nodeA, list[i].nodeB)
    ensures Ranked(q, s) && Endpoints(list[i + 1..], |q|)
    ensures Outcome(Cluster(p, r, c, list[i..], k)) ==
              if merged && c <= k then (q, s, c, list[i].cost)
              else Outcome(Cluster(q, s, if merged then c - 1 else c, list[i + 1..], k))
  {
    assert list[i..][0] == list[i];
    assert list[i..][1..] == list[i + 1..];
  }

  class KruskalClustering {
    var edgeSet: UnionFind
    var edgeList: seq<Edge>
    var nodes: int
    var clusters: int

    ghost predicate Valid()
      reads this, edgeSet, edgeSet.parent, edgeSet.rank
    {
      edgeSet.Valid()
    }

    /**
     * The object for a graph of the given number of nodes and its edges, as
     * read from the file: every node a cluster of its own, and a union-find
     * over the nodes 0..nodes.
     */
    constructor(nodes: int, edgeList: seq<Edge>)
      requires nodes + 1 >= 0
      ensures Valid() && this.nodes == nodes && clusters == nodes && this.edgeList == edgeList
      ensures edgeSet.parent.Length == nodes + 1 && Roots(edgeSet.parent[..]) == Range(nodes + 1)
      ensures clusters + 1 == |Roots(edgeSet.parent[..])|
    {
      this.nodes := nodes;
      clusters := nodes;
      edgeSet := new UnionFind(nodes);
      this.edgeList := edgeList;
    }

    /** The union call in the loop body of computeMaxClusterDistance: one step of the scan. */
    method Join(list: seq<Edge>, i: int, clusterSize: int) returns (merged: bool)
      requires Valid() && Endpoints(list, edgeSet.parent.Length) && 0 <= i < |list|
      modifies edgeSet.parent, edgeSet.rank
      ensures Valid() && Endpoints(list[i + 1..], edgeSet.parent.Length)
      ensures Outcome(Cluster(old(edgeSet.parent[..]), old(edgeSet.rank[..]), clusters, list[i..], clusterSize)) ==
              if merged && clusters <= clusterSize then (edgeSet.parent[..], edgeSet.rank[..], clusters, list[i].cost)
              else Outcome(Cluster(edgeSet.parent[..], edgeSet.rank[..], if merged then clusters - 1 else clusters, list[i + 1..], clusterSize))
    {
      ghost var p, r := edgeSet.parent[..], edgeSet.rank[..];
      merged := edgeSet.Union(list[i].nodeA, list[i].nodeB);
      ClusterStep(p, r, clusters, list, clusterSize, i, edgeSet.parent[..], edgeSet.rank[..], merged);
    }

    /** computeMaxClusterDistance(list, clusterSize): the scan above, run on the object's own forest and count. */
    method ComputeMaxClusterDistance(list: seq<Edge>, clusterSize: int) returns (spacing: int)
      requires Valid() && Endpoints(list, edgeSet.parent.Length)
      modifies this, edgeSet.parent, edgeSet.rank
      ensures Valid() && edgeSet == old(edgeSet) && nodes == old(nodes) && edgeList == old(edgeList)
      ensures (edgeSet.parent[..], edgeSet.rank[..], clusters, spacing) ==
              Outcome(Cluster(old(edgeSet.parent[..]), old(edgeSet.rank[..]), old(clusters), list, clusterSize))
    {
      ghost var goal := Outcome(Cluster(edgeSet.parent[..], edgeSet.rank[..], clusters, list, clusterSize));
      assert list[0..] == list;
      spacing := -1;
      var i := 0;
      while i < |list|
        invariant 0 <= i <= |list| && Valid() && edgeSet == old(edgeSet)
        invariant nodes == old(nodes) && edgeList == old(edgeList) && spacing == -1
        invariant Endpoints(list[i..], edgeSet.parent.Length)
        invariant goal == Outcome(Cluster(edgeSet.parent[..], edgeSet.rank[..], clusters, list[i..], clusterSize))
      {
        var merged := Join(list, i, clusterSize);
        if merged {
          if clusters <= clusterSize {
            spacing := list[i].cost;
            return;
          }
          clusters := clusters - 1;
        }
        i := i + 1;
      }
    }
  }
}
