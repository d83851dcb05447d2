/**
 * Johnson's all-pairs shortest paths (Graphs/JohnsonAPSP.java).
 *
 * computeWeights adds a virtual vertex nodes + 1 with a 0-weight edge to every
 * vertex and runs Bellman-Ford from it; generateReweightedGraph turns every edge
 * (u, v, w) into (u, v, w + h[u] - h[v]); computeAllPaths runs Dijkstra from
 * every vertex of the reweighted graph and processPaths undoes the reweighting
 * (d - h[s] + h[t]) and keeps the smallest entry in shortest.
 *
 * As written, the potentials h are the zero-filled weights array, which is never
 * assigned from the Bellman-Ford result: the reweighting is the identity and
 * Dijkstra runs on the original, possibly negative, weights (ComputeAllPaths).
 * The corrected ComputeAllPathsRepaired stores the Bellman-Ford distances in
 * weights and runs the corrected Dijkstra; then every reweighted edge is
 * non-negative, Dijkstra is exact on it, and processPaths yields exactly the
 * shortest distances of the original graph (AllPairsRepaired).
 */
module Johnson {
  import opened Walks
  import opened Wrappers
  import opened BellmanFord
  import Dijkstra
  import JavaInt

  // ---------------------------------------------------------------------------
  // The graph computeWeights builds
  // ---------------------------------------------------------------------------

  /** The edge list of the virtual source: a 0-weight edge to each of 1..n, in order. */
  function SourceEdges(n: nat): (r: seq<Edge>)
    ensures |r| == n
  {
    seq(n, i => Edge(i + 1, 0))
  }

  /** The graph on vertices 1..n + 1: slot 0 empty, slots 1..n the original lists, slot n + 1 the virtual source. */
  function Augmented(graph: AdjList, n: nat): (r: AdjList)
    requires HeadsIn(graph, n)
    ensures HeadsIn(r, n + 1) && r[0] == [] && r[n + 1] == SourceEdges(n)
    ensures forall u :: 1 <= u <= n ==> r[u] == graph[u]
    ensures forall u, i :: 0 <= u < |r| && 0 <= i < |r[u]| ==> 1 <= r[u][i].node <= n
  {
    [[]] + graph[1..] + [SourceEdges(n)]
  }

  /** Some vertex of the graph lies on a closed walk of negative weight. */
  ghost predicate HasNegativeCycle(graph: AdjList, n: nat)
    requires |graph| == n + 1
  {
    exists C, x :: IsWalk(graph, n, C, x, x) && Weight(C) < 0
  }

  /** Some bound b on the absolute edge weights keeps every sum Johnson forms (a distance of the
      original graph, and one of the reweighted graph) below Integer.MAX_VALUE. */
  ghost predicate Bounded(graph: AdjList, n: nat) {
    exists b: nat :: WeightsWithin(graph, b) && 3 * (n + 1) * b < INF
  }

  lemma AugmentedWithin(graph: AdjList, n: nat, b: nat)
    requires HeadsIn(graph, n) && WeightsWithin(graph, b)
    ensures WeightsWithin(Augmented(graph, n), b)
  {
  }

  /** Bellman-Ford on the augmented graph runs within its no-overflow hypothesis. */
  lemma AugmentedFits(graph: AdjList, n: nat) returns (b: nat)
    requires HeadsIn(graph, n) && Bounded(graph, n)
    ensures WeightsWithin(graph, b) && 3 * (n + 1) * b < INF
    ensures Fits(Augmented(graph, n), n + 1)
  {
    b :| WeightsWithin(graph, b) && 3 * (n + 1) * b < INF;
    AugmentedWithin(graph, n, b);
  }

  /** Arcs of the original graph are arcs of the augmented one. */
  lemma LiftWalk(graph: AdjList, n: nat, W: seq<Arc>, s: int, t: int)
    requires HeadsIn(graph, n) && IsWalk(graph, n, W, s, t)
    ensures IsWalk(Augmented(graph, n), n + 1, W, s, t)
  {
    var aug := Augmented(graph, n);
    forall i | 0 <= i < |W| ensures IsArc(aug, n + 1, W[i]) {
      assert aug[W[i].from] == graph[W[i].from];
    }
  }

  /** A closed walk of the augmented graph never passes through the virtual source, which has no
      incoming edge, so it is a closed walk of the original graph. */
  lemma LowerCycle(graph: AdjList, n: nat, C: seq<Arc>, x: int)
    requires HeadsIn(graph, n) && IsWalk(Augmented(graph, n), n + 1, C, x, x) && |C| > 0
    ensures IsWalk(graph, n, C, x, x)
  {
    var aug := Augmented(graph, n);
    forall i | 0 <= i < |C| ensures 1 <= C[i].to <= n {
      var j :| 0 <= j < |aug[C[i].from]| && aug[C[i].from][j] == Edge(C[i].to, C[i].w);
    }
    forall i | 0 <= i < |C| ensures IsArc(graph, n, C[i]) {
      var p := if i == 0 then |C| - 1 else i - 1;
      assert C[i].from == C[p].to;
      assert aug[C[i].from] == graph[C[i].from];
    }
  }

  /** A negative cycle is reachable from the virtual source exactly when the original graph has one. */
  lemma AugmentedCycle(graph: AdjList, n: nat)
    requires HeadsIn(graph, n)
    ensures NegativeCycleReachable(Augmented(graph, n), n + 1, n + 1) <==> HasNegativeCycle(graph, n)
  {
    var aug := Augmented(graph, n);
    if HasNegativeCycle(graph, n) {
      var C, x :| IsWalk(graph, n, C, x, x) && Weight(C) < 0;
      assert |C| > 0;
      assert IsArc(graph, n, C[0]);
      var W := [Arc(n + 1, x, 0)];
      assert aug[n + 1][x - 1] == Edge(x, 0);
      assert IsWalk(aug, n + 1, W, n + 1, x);
      LiftWalk(graph, n, C, x, x);
    }
    if NegativeCycleReachable(aug, n + 1, n + 1) {
      var W, C, x :| IsWalk(aug, n + 1, W, n + 1, x) && IsWalk(aug, n + 1, C, x, x) && Weight(C) < 0;
      assert |C| > 0;
      LowerCycle(graph, n, C, x);
    }
  }

  /** A negative cycle reachable from s is a negative cycle of the graph. */
  lemma ReachableCycleIsCycle(graph: AdjList, n: nat, s: int)
    requires |graph| == n + 1
    ensures NegativeCycleReachable(graph, n, s) ==> HasNegativeCycle(graph, n)
  {
  }

  /** Without a reachable negative cycle, round n holds the shortest-walk distances. */
  lemma NoCycleShortest(adj: AdjList, n: nat, s: int)
    requires HeadsIn(adj, n) && 1 <= n && 0 <= s <= n && !NegativeCycleReachable(adj, n, s)
    ensures IsShortest(adj, n, s, Best(adj, n, s, n))
  {
    CycleIff(adj, n, s);
    StableIsShortest(adj, n, s, n - 1);
  }

  /** The shortest-walk distances are unique. */
  lemma ShortestUnique(adj: AdjList, n: nat, s: int, D: seq<Dist>, E: seq<Dist>)
    requires |adj| == n + 1 && IsShortest(adj, n, s, D) && IsShortest(adj, n, s, E)
    ensures D == E
  {
    forall v | 0 <= v <= n ensures D[v] == E[v] {
      if D[v].Fin? {
        var W :| IsWalk(adj, n, W, s, v) && Weight(W) == D[v].d;
        assert Le(E[v], Fin(Weight(W)));
      }
      if E[v].Fin? {
        var W :| IsWalk(adj, n, W, s, v) && Weight(W) == E[v].d;
        assert Le(D[v], Fin(Weight(W)));
      }
    }
  }

  /** Shortest distances obey the triangle inequality along every arc. */
  lemma ShortestTriangle(adj: AdjList, n: nat, s: int, D: seq<Dist>, a: Arc)
    requires HeadsIn(adj, n) && IsShortest(adj, n, s, D) && IsArc(adj, n, a) && D[a.from].Fin?
    ensures D[a.to].Fin? && D[a.to].d <= D[a.from].d + a.w
  {
    var W :| IsWalk(adj, n, W, s, a.from) && Weight(W) == D[a.from].d;
    WalkExtend(adj, n, W, s, a);
  }

  /** The virtual source reaches every vertex with a 0-weight edge, so its distances are finite and at most 0. */
  lemma SourceReachesAll(graph: AdjList, n: nat, D: seq<Dist>, v: int)
    requires HeadsIn(graph, n) && IsShortest(Augmented(graph, n), n + 1, n + 1, D) && 1 <= v <= n
    ensures D[v].Fin? && D[v].d <= 0
  {
    var aug := Augmented(graph, n);
    var W := [Arc(n + 1, v, 0)];
    assert aug[n + 1][v - 1] == Edge(v, 0);
    assert IsWalk(aug, n + 1, W, n + 1, v);
    assert Weight(W) == Weight([]) + 0;
  }

  // ---------------------------------------------------------------------------
  // Reweighting
  // ---------------------------------------------------------------------------

  /** h[v], and 0 outside the array (never used: heads and tails lie in 1..n). */
  function H(h: seq<int>, v: int): int {
    if 0 <= v < |h| then h[v] else 0
  }

  function Neg(h: seq<int>): (r: seq<int>)
    ensures |r| == |h| && forall v :: 0 <= v < |h| ==> H(r, v) == -H(h, v)
  {
    seq(|h|, i requires 0 <= i < |h| => -h[i])
  }

  function ReweightEdge(e: Edge, hu: int, h: seq<int>): Edge {
    Edge(e.node, e.weight + hu - H(h, e.node))
  }

  /** The graph generateReweightedGraph builds: slot 0 empty and every edge (u, v, w) of 1..n
      turned into (u, v, w + h[u] - h[v]), in the original order. */
  function Reweighted(graph: AdjList, n: nat, h: seq<int>): (r: AdjList)
    requires HeadsIn(graph, n)
    ensures HeadsIn(r, n) && r[0] == []
    ensures forall u :: 1 <= u <= n ==> |r[u]| == |graph[u]|
  {
    seq(n + 1, u requires 0 <= u <= n =>
      if u == 0 then [] else seq(|graph[u]|, i requires 0 <= i < |graph[u]| => ReweightEdge(graph[u][i], H(h, u), h)))
  }

  /** The arcs of W with each weight w of an arc (u, v) turned into w + h[u] - h[v]. */
  function ReweightWalk(W: seq<Arc>, h: seq<int>): (r: seq<Arc>)
    ensures |r| == |W|
  {
    seq(|W|, i requires 0 <= i < |W| => Arc(W[i].from, W[i].to, W[i].w + H(h, W[i].from) - H(h, W[i].to)))
  }

  /** The arcs of W join up from s to t. */
  predicate Chain(W: seq<Arc>, s: int, t: int) {
    (|W| == 0 ==> s == t) &&
    (|W| > 0 ==> W[0].from == s && W[|W| - 1].to == t) &&
    (forall i :: 0 <= i < |W| - 1 ==> W[i].to == W[i + 1].from)
  }

  /** Reweighting telescopes: along a chain from s to t it adds exactly h[s] - h[t]. */
  lemma {:induction false} WeightTelescopes(W: seq<Arc>, h: seq<int>, s: int, t: int)
    requires Chain(W, s, t)
    ensures Weight(ReweightWalk(W, h)) == Weight(W) + H(h, s) - H(h, t)
    decreases |W|
  {
    if |W| > 0 {
      var W0 := W[..|W| - 1];
      var a := W[|W| - 1];
      assert Chain(W0, s, a.from);
      WeightTelescopes(W0, h, s, a.from);
      assert ReweightWalk(W, h)[..|W| - 1] == ReweightWalk(W0, h);
    }
  }

  /** Every walk of the original graph is, reweighted, a walk of the reweighted graph. */
  lemma WalkReweighted(graph: AdjList, n: nat, h: seq<int>, W: seq<Arc>, s: int, t: int)
    requires HeadsIn(graph, n) && IsWalk(graph, n, W, s, t)
    ensures IsWalk(Reweighted(graph, n, h), n, ReweightWalk(W, h), s, t)
    ensures Weight(ReweightWalk(W, h)) == Weight(W) + H(h, s) - H(h, t)
  {
    var g: AdjList := Reweighted(graph, n, h);
    var V := ReweightWalk(W, h);
    forall i | 0 <= i < |W| ensures IsArc(g, n, V[i]) {
      var j :| 0 <= j < |graph[W[i].from]| && graph[W[i].from][j] == Edge(W[i].to, W[i].w);
      assert g[W[i].from][j] == Edge(V[i].to, V[i].w);
    }
    assert Chain(W, s, t);
    WeightTelescopes(W, h, s, t);
  }

  /** Every walk of the reweighted graph comes from a walk of the original graph, by the opposite reweighting. */
  lemma WalkRestored(graph: AdjList, n: nat, h: seq<int>, V: seq<Arc>, s: int, t: int)
    requires HeadsIn(graph, n) && |h| == n + 1 && IsWalk(Reweighted(graph, n, h), n, V, s, t)
    ensures IsWalk(graph, n, ReweightWalk(V, Neg(h)), s, t)
    ensures Weight(ReweightWalk(V, Neg(h))) == Weight(V) - H(h, s) + H(h, t)
  {
    var g: AdjList := Reweighted(graph, n, h);
    var W := ReweightWalk(V, Neg(h));
    forall i | 0 <= i < |V| ensures IsArc(graph, n, W[i]) {
      var j :| 0 <= j < |g[V[i].from]| && g[V[i].from][j] == Edge(V[i].to, V[i].w);
      assert graph[V[i].from][j] == Edge(W[i].to, W[i].w);
    }
    assert Chain(V, s, t);
    WeightTelescopes(V, Neg(h), s, t);
  }

  /** The distances of the original graph recovered from distances E from s in the reweighted one. */
  function Restore(E: seq<Dist>, h: seq<int>, s: int): (r: seq<Dist>)
    ensures |r| == |E| && forall v :: 0 <= v < |E| ==> r[v] == Add(E[v], H(h, v) - H(h, s))
  {
    seq(|E|, v requires 0 <= v < |E| => Add(E[v], H(h, v) - H(h, s)))
  }

  /** No walk of the original graph is lighter than the restored distance. */
  lemma RestoredLower(graph: AdjList, n: nat, h: seq<int>, s: int, E: seq<Dist>, v: int, W: seq<Arc>)
    requires HeadsIn(graph, n) && |h| == n + 1 && 0 <= s <= n && IsShortest(Reweighted(graph, n, h), n, s, E)
    requires IsWalk(graph, n, W, s, v)
    ensures Le(Restore(E, h, s)[v], Fin(Weight(W)))
  {
    WalkReweighted(graph, n, h, W, s, v);
    var x := Weight(ReweightWalk(W, h));
    ShortestLower(Reweighted(graph, n, h), n, s, E, v, ReweightWalk(W, h));
    ShiftLe(E[v], H(h, v) - H(h, s), x);
  }

  lemma ShortestLower(adj: AdjList, n: nat, s: int, D: seq<Dist>, v: int, W: seq<Arc>)
    requires |adj| == n + 1 && IsShortest(adj, n, s, D) && IsWalk(adj, n, W, s, v)
    ensures Le(D[v], Fin(Weight(W)))
  {
  }

  lemma ShiftLe(e: Dist, k: int, x: int)
    requires Le(e, Fin(x))
    ensures Le(Add(e, k), Fin(x + k))
  {
  }

  /** Every finite restored distance is the weight of a walk of the original graph. */
  lemma RestoredAttained(graph: AdjList, n: nat, h: seq<int>, s: int, E: seq<Dist>, v: int) returns (W: seq<Arc>)
    requires HeadsIn(graph, n) && |h| == n + 1 && 0 <= s <= n && IsShortest(Reweighted(graph, n, h), n, s, E)
    requires 0 <= v <= n && Restore(E, h, s)[v].Fin?
    ensures IsWalk(graph, n, W, s, v) && Weight(W) == Restore(E, h, s)[v].d
  {
    var g := Reweighted(graph, n, h);
    var V :| IsWalk(g, n, V, s, v) && Weight(V) == E[v].d;
    WalkRestored(graph, n, h, V, s, v);
    W := ReweightWalk(V, Neg(h));
    assert Restore(E, h, s)[v] == Add(E[v], H(h, v) - H(h, s));
  }

  /** Reweighting shifts every shortest distance from s to t by h[s] - h[t] and nothing else. */
  lemma ShortestRestored(graph: AdjList, n: nat, h: seq<int>, s: int, E: seq<Dist>)
    requires HeadsIn(graph, n) && |h| == n + 1 && 0 <= s <= n && IsShortest(Reweighted(graph, n, h), n, s, E)
    ensures IsShortest(graph, n, s, Restore(E, h, s))
  {
    var D := Restore(E, h, s);
    forall v, W | IsWalk(graph, n, W, s, v) ensures Le(D[v], Fin(Weight(W))) {
      RestoredLower(graph, n, h, s, E, v, W);
    }
    forall v | 0 <= v <= n && D[v].Fin? ensures exists W :: IsWalk(graph, n, W, s, v) && Weight(W) == D[v].d {
      var W := RestoredAttained(graph, n, h, s, E, v);
    }
  }

  // ---------------------------------------------------------------------------
  // The Bellman-Ford potentials
  // ---------------------------------------------------------------------------

  /** The potentials of the corrected computeWeights: the virtual source's distances at 0..n. */
  ghost function Potentials(graph: AdjList, n: nat): (r: seq<int>)
    requires HeadsIn(graph, n)
    ensures |r| == n + 1
  {
    Enc(Best(Augmented(graph, n), n + 1, n + 1, n + 1))[..n + 1]
  }

  /** Without a negative cycle the potentials are the virtual source's distances, between -(n + 1) b and 0. */
  lemma PotentialValues(graph: AdjList, n: nat, b: nat, v: int)
    requires HeadsIn(graph, n) && !HasNegativeCycle(graph, n) && WeightsWithin(graph, b) && 1 <= v <= n
    ensures var D := Best(Augmented(graph, n), n + 1, n + 1, n + 1);
            D[v].Fin? && Potentials(graph, n)[v] == D[v].d && -((n + 1) * b) <= D[v].d <= 0
  {
    var aug := Augmented(graph, n);
    AugmentedCycle(graph, n);
    NoCycleShortest(aug, n + 1, n + 1);
    SourceReachesAll(graph, n, Best(aug, n + 1, n + 1, n + 1), v);
    AugmentedWithin(graph, n, b);
    BestBounded(aug, n + 1, n + 1, n + 1, b, v);
  }

  /** With the Bellman-Ford potentials every reweighted edge is non-negative (triangle inequality). */
  lemma PotentialsFeasible(graph: AdjList, n: nat)
    requires HeadsIn(graph, n) && !HasNegativeCycle(graph, n)
    ensures NonNegative(Reweighted(graph, n, Potentials(graph, n)))
  {
    var aug := Augmented(graph, n);
    var D := Best(aug, n + 1, n + 1, n + 1);
    var h := Potentials(graph, n);
    var g: AdjList := Reweighted(graph, n, h);
    AugmentedCycle(graph, n);
    NoCycleShortest(aug, n + 1, n + 1);
    forall u, i | 0 <= u < |g| && 0 <= i < |g[u]| ensures g[u][i].weight >= 0 {
      var e := graph[u][i];
      var a := Arc(u, e.node, e.weight);
      assert aug[u] == graph[u];
      assert IsArc(aug, n + 1, a);
      SourceReachesAll(graph, n, D, u);
      SourceReachesAll(graph, n, D, e.node);
      ShortestTriangle(aug, n + 1, n + 1, D, a);
    }
  }

  // ---------------------------------------------------------------------------
  // Undoing the reweighting
  // ---------------------------------------------------------------------------

  /** Line 76: an entry other than Integer.MAX_VALUE becomes d - h[s] + h[t]. */
  function ProcessedEntry(d: int, hs: int, ht: int): (r: int)
    ensures d == INF ==> r == INF
    ensures d != INF ==> r + hs - ht == d
  {
    if d != INF then d - hs + ht else d
  }

  /** An entry of the corrected algorithm: the reweighted distance e, once processed, is the distance
      Add(e, h[t] - h[s]) of the original graph, both stored as Java ints, when the distance lies in -c..c,
      the potentials in -p..0 and c + p stays below Integer.MAX_VALUE. */
  lemma EntryRestored(e: Dist, hs: int, ht: int, c: int, p: int)
    requires var d := Add(e, ht - hs); d.Fin? ==> -c <= d.d <= c
    requires -p <= hs <= 0 && -p <= ht <= 0 && 0 <= c && c + p < INF
    ensures ProcessedEntry(Cap(e), hs, ht) == Cap(Add(e, ht - hs))
  {
  }

  /** Without a negative cycle, the distances of the original graph are those of the graph reweighted with the
      potentials, restored. */
  lemma RestoredIsBest(graph: AdjList, n: nat, s: int)
    requires HeadsIn(graph, n) && !HasNegativeCycle(graph, n) && 1 <= s <= n
    ensures var h := Potentials(graph, n);
            Best(graph, n, s, n) == Restore(Best(Reweighted(graph, n, h), n, s, n), h, s)
  {
    var h := Potentials(graph, n);
    var g := Reweighted(graph, n, h);
    PotentialsFeasible(graph, n);
    NonNegativeShortest(g, n, s);
    ShortestRestored(graph, n, h, s, Best(g, n, s, n));
    ReachableCycleIsCycle(graph, n, s);
    NoCycleShortest(graph, n, s);
    ShortestUnique(graph, n, s, Best(graph, n, s, n), Restore(Best(g, n, s, n), h, s));
  }

  lemma BoundSum(n: nat, b: nat)
    requires 3 * (n + 1) * b < INF
    ensures 0 <= n * b && n * b + (n + 1) * b < INF
  {
    assert n * b <= (n + 1) * b;
  }

  /** The processed entry of the corrected algorithm is the Java-int shortest distance of the original graph. */
  lemma JohnsonEntry(graph: AdjList, n: nat, s: int, t: int)
    requires HeadsIn(graph, n) && Bounded(graph, n) && !HasNegativeCycle(graph, n) && 1 <= s <= n && 1 <= t <= n
    ensures var h := Potentials(graph, n);
            ProcessedEntry(Cap(Best(Reweighted(graph, n, h), n, s, n)[t]), h[s], h[t]) == Cap(Best(graph, n, s, n)[t])
  {
    var h := Potentials(graph, n);
    var e := Best(Reweighted(graph, n, h), n, s, n)[t];
    var b := AugmentedFits(graph, n);
    PotentialValues(graph, n, b, s);
    PotentialValues(graph, n, b, t);
    RestoredIsBest(graph, n, s);
    var d := Best(graph, n, s, n)[t];
    assert d == Add(e, h[t] - h[s]);
    if d.Fin? {
      BestBounded(graph, n, s, n, b, t);
    }
    BoundSum(n, b);
    EntryRestored(e, h[s], h[t], n * b, (n + 1) * b);
  }

  // ---------------------------------------------------------------------------
  // processPaths
  // ---------------------------------------------------------------------------

  /** (s, t) comes before (src, dst) in the row-by-row scan of processPaths over 1..n x 1..n. */
  predicate Before(n: nat, src: int, dst: int, s: int, t: int) {
    1 <= s && 1 <= t <= n && (s < src || (s == src && t < dst))
  }

  /** Every row has n + 1 entries. */
  predicate Square(paths: seq<seq<int>>, n: nat) {
    |paths| == n + 1 && forall s :: 0 <= s <= n ==> |paths[s]| == n + 1
  }

  /** The matrix once processPaths has reached (src, dst): earlier entries processed, the rest untouched. */
  function ProcessedBefore(paths: seq<seq<int>>, h: seq<int>, n: nat, src: int, dst: int): (r: seq<seq<int>>)
    requires Square(paths, n) && |h| == n + 1
    ensures Square(r, n)
  {
    seq(n + 1, s requires 0 <= s <= n =>
      seq(n + 1, t requires 0 <= t <= n => if Before(n, src, dst, s, t) then ProcessedEntry(paths[s][t], h[s], h[t]) else paths[s][t]))
  }

  /** The matrix processPaths leaves. */
  function Processed(paths: seq<seq<int>>, h: seq<int>, n: nat): (r: seq<seq<int>>)
    requires Square(paths, n) && |h| == n + 1
    ensures Square(r, n)
  {
    ProcessedBefore(paths, h, n, n + 1, 1)
  }

  /** m is the least of m0 and the entries of paths before (src, dst). */
  ghost predicate MinBefore(m: int, m0: int, paths: seq<seq<int>>, n: nat, src: int, dst: int)
    requires Square(paths, n)
  {
    m <= m0 &&
    (forall s, t :: Before(n, src, dst, s, t) && s <= n ==> m <= paths[s][t]) &&
    (m == m0 || exists s, t :: Before(n, src, dst, s, t) && s <= n && m == paths[s][t])
  }

  /** Nothing comes before (1, 1). */
  lemma ProcessNothing(paths: seq<seq<int>>, h: seq<int>, n: nat)
    requires Square(paths, n) && |h| == n + 1
    ensures ProcessedBefore(paths, h, n, 1, 1) == paths
  {
    var P := ProcessedBefore(paths, h, n, 1, 1);
    forall s | 0 <= s <= n ensures P[s] == paths[s] {
      assert |P[s]| == |paths[s]|;
    }
  }

  /** The state of processPaths at (src, dst), started on the matrix P0 with minimum m0: the entries before
      (src, dst) processed and m their minimum with m0. */
  ghost predicate ScanState(P: seq<seq<int>>, m: int, P0: seq<seq<int>>, m0: int, h: seq<int>, n: nat, src: int, dst: int)
  {
    Square(P0, n) && |h| == n + 1 && P == ProcessedBefore(P0, h, n, src, dst) && MinBefore(m, m0, P, n, src, dst)
  }

  /** The nested loops of processPaths on the matrix P0 and the running minimum m0. */
  method ProcessMatrix(P0: seq<seq<int>>, h: seq<int>, n: nat, m0: int) returns (P: seq<seq<int>>, m: int)
    requires Square(P0, n) && |h| == n + 1
    ensures P == Processed(P0, h, n) && MinBefore(m, m0, P, n, n + 1, 1)
  {
    P, m := P0, m0;
    ScanStart(P0, m0, h, n);
    var source := 1;
    while source <= n
      invariant 1 <= source <= n + 1 && ScanState(P, m, P0, m0, h, n, source, 1)
    {
      var row, m' := ProcessRowAt(P[source], m, h, n, source);
      ScanRow(P, m, P0, m0, h, n, source, row, m');
      P, m := P[source := row], m';
      source := source + 1;
    }
    ScanEnd(P, m, P0, m0, h, n);
  }

  lemma ScanStart(P0: seq<seq<int>>, m0: int, h: seq<int>, n: nat)
    requires Square(P0, n) && |h| == n + 1
    ensures ScanState(P0, m0, P0, m0, h, n, 1, 1)
  {
    ProcessNothing(P0, h, n);
  }

  lemma ScanEnd(P: seq<seq<int>>, m: int, P0: seq<seq<int>>, m0: int, h: seq<int>, n: nat)
    requires ScanState(P, m, P0, m0, h, n, n + 1, 1)
    ensures P == Processed(P0, h, n) && MinBefore(m, m0, P, n, n + 1, 1)
  {
  }

  /** Replacing row src by its processed version advances the scan to the start of row src + 1. */
  lemma ScanRow(P: seq<seq<int>>, m: int, P0: seq<seq<int>>, m0: int, h: seq<int>, n: nat, src: int,
                row: seq<int>, m': int)
    requires 1 <= src <= n && ScanState(P, m, P0, m0, h, n, src, 1)
    requires RowState(row, m', P[src], m, h, n, src, n + 1)
    ensures ScanState(P[src := row], m', P0, m0, h, n, src + 1, 1)
  {
    var P' := P[src := row];
    var Q := ProcessedBefore(P0, h, n, src + 1, 1);
    forall s | 0 <= s <= n ensures Q[s] == P'[s] {
      assert |Q[s]| == |P'[s]|;
    }
    if m' == m && m != m0 {
      var s, t :| Before(n, src, 1, s, t) && s <= n && m == P[s][t];
      assert Before(n, src + 1, 1, s, t) && m' == P'[s][t];
    } else if m' != m {
      var t :| 1 <= t < n + 1 && m' == row[t];
      assert Before(n, src + 1, 1, src, t) && m' == P'[src][t];
    }
  }

  /** Row src once the inner loop of processPaths has reached dst: entries 1..dst-1 processed, the rest untouched. */
  function RowBefore(row: seq<int>, h: seq<int>, n: nat, src: int, dst: int): (r: seq<int>)
    requires |row| == n + 1 && |h| == n + 1 && 0 <= src <= n
    ensures |r| == n + 1
    ensures forall t :: 0 <= t <= n ==> r[t] == if 1 <= t < dst then ProcessedEntry(row[t], h[src], h[t]) else row[t]
  {
    seq(n + 1, t requires 0 <= t <= n => if 1 <= t < dst then ProcessedEntry(row[t], h[src], h[t]) else row[t])
  }

  /** m is the least of m0 and the entries 1..dst-1 of row. */
  ghost predicate RowMin(m: int, m0: int, row: seq<int>, n: nat, dst: int)
    requires |row| == n + 1
  {
    m <= m0 &&
    (forall t :: 1 <= t < dst && t <= n ==> m <= row[t]) &&
    (m == m0 || exists t :: 1 <= t < dst && t <= n && m == row[t])
  }

  /** The state of the inner loop of processPaths at dst, started on row0 with minimum m0. */
  ghost predicate RowState(row: seq<int>, m: int, row0: seq<int>, m0: int, h: seq<int>, n: nat, src: int, dst: int)
  {
    |row0| == n + 1 && |h| == n + 1 && 1 <= src <= n && row == RowBefore(row0, h, n, src, dst) && RowMin(m, m0, row, n, dst)
  }

  /** The inner loop of processPaths over the destinations of one source. */
  method ProcessRowAt(row0: seq<int>, m0: int, h: seq<int>, n: nat, source: int) returns (row: seq<int>, m: int)
    requires |row0| == n + 1 && |h| == n + 1 && 1 <= source <= n
    ensures RowState(row, m, row0, m0, h, n, source, n + 1)
  {
    row, m := row0, m0;
    assert row0 == RowBefore(row0, h, n, source, 1);
    var dest := 1;
    while dest <= n
      invariant 1 <= dest <= n + 1 && RowState(row, m, row0, m0, h, n, source, dest)
    {
      row, m := ProcessEntryAt(row, m, h, n, source, dest, row0, m0);
      dest := dest + 1;
    }
  }

  /** One pass of the inner loop: convert entry dest unless it is Integer.MAX_VALUE, then compare it with the
      running minimum. */
  method ProcessEntryAt(row: seq<int>, m: int, h: seq<int>, n: nat, source: int, dest: int,
                        ghost row0: seq<int>, ghost m0: int) returns (row': seq<int>, m': int)
    requires 1 <= dest <= n && RowState(row, m, row0, m0, h, n, source, dest)
    ensures RowState(row', m', row0, m0, h, n, source, dest + 1)
  {
    row' := row;
    if row'[dest] != INF {
      row' := row'[dest := row'[dest] - h[source] + h[dest]];
    }
    assert row' == RowBefore(row0, h, n, source, dest + 1);
    m' := m;
    if row'[dest] < m' {
      m' := row'[dest];
    }
    if m' == m && m != m0 {
      var t :| 1 <= t < dest && t <= n && m == row[t];
      assert m' == row'[t];
    }
  }

  // ---------------------------------------------------------------------------
  // One Dijkstra run per source
  // ---------------------------------------------------------------------------

  /** What Dijkstra as written guarantees for the row of source i: -1 in slot 0, 0 for the source, and Java ints. */
  ghost predicate RowAsWritten(row: seq<int>, n: nat, i: int) {
    |row| == n + 1 && 1 <= i <= n && row[0] == -1 && row[i] == 0 && (forall v :: 0 <= v <= n ==> JavaInt.InRange(row[v]))
  }

  /** What Dijkstra on the corrected heap guarantees for the row of source i. */
  ghost predicate RowExact(row: seq<int>, g: AdjList, n: nat, i: int)
    requires HeadsIn(g, n)
  {
    |row| == n + 1 && 1 <= i <= n && row[0] == -1 && row[i] == 0 &&
    (NonNegative(g) ==> forall v :: 1 <= v <= n ==> row[v] == Cap(Best(g, n, i, n)[v]))
  }

  /** new Dijkstra(g).computeShortestPaths(i), on the heap as written. */
  method DijkstraRow(g: AdjList, n: nat, i: int) returns (row: seq<int>)
    requires HeadsIn(g, n) && 1 <= i <= n
    ensures RowAsWritten(row, n, i)
  {
    var dijkstra := new Dijkstra.Dijkstra(n, g);
    var r, order := dijkstra.ComputeShortestPaths(i);
    row := r[..];
  }

  /** new Dijkstra(g).computeShortestPaths(i), on the corrected heap. */
  method DijkstraRowRepaired(g: AdjList, n: nat, i: int) returns (row: seq<int>)
    requires HeadsIn(g, n) && 1 <= i <= n
    ensures RowExact(row, g, n, i)
  {
    var dijkstra := new Dijkstra.Dijkstra(n, g);
    var r, order := dijkstra.ComputeShortestPathsRepaired(i);
    row := r[..];
  }

  /** The graph 1 -> 2 (weight 2), 1 -> 3 (weight 1), 2 -> 3 (weight -2) on the vertices 1..3. */
  const SampleGraph: AdjList := [[], [Edge(2, 2), Edge(3, 1)], [Edge(3, -2)], []]

  /** On SampleGraph, reweighting with the zero-filled weights that computeAllPaths as written keeps leaves the
      negative edge 2 -> 3 in place, so its Dijkstra runs are outside the non-negative setting they are correct
      in; the walk 1 -> 2 -> 3 of weight 0 beats the edge 1 -> 3 of weight 1 that Dijkstra settles vertex 3 by. */
  lemma ZeroWeightsKeepNegativeEdge()
    ensures var g := Reweighted(SampleGraph, 3, seq(4, _ => 0));
            g == SampleGraph && !NonNegative(g) && Bounded(SampleGraph, 3) &&
            Le(Best(SampleGraph, 3, 1, 3)[3], Fin(0)) && Edge(3, 1) in SampleGraph[1]
  {
    ZeroReweightIsIdentity();
    SampleBounded();
    SampleZeroWalk();
  }

  /** Zero weights change no edge of SampleGraph. */
  lemma ZeroReweightIsIdentity()
    ensures Reweighted(SampleGraph, 3, seq(4, _ => 0)) == SampleGraph
  {
    var g := Reweighted(SampleGraph, 3, seq(4, _ => 0));
    forall u | 0 <= u <= 3 ensures g[u] == SampleGraph[u] {
      assert |g[u]| == |SampleGraph[u]|;
    }
  }

  /** SampleGraph has a negative edge and weights small enough for the path bounds. */
  lemma SampleBounded()
    ensures !NonNegative(SampleGraph) && Bounded(SampleGraph, 3)
  {
    assert SampleGraph[2][0].weight < 0;
    assert WeightsWithin(SampleGraph, 2) && 3 * 4 * 2 < INF;
  }

  /** The walk 1 -> 2 -> 3 of weight 0 bounds the best distance from 1 to 3. */
  lemma SampleZeroWalk()
    ensures Le(Best(SampleGraph, 3, 1, 3)[3], Fin(0))
  {
    SampleBounded();
    var W := [Arc(1, 2, 2), Arc(2, 3, -2)];
    assert IsArc(SampleGraph, 3, W[0]) && IsArc(SampleGraph, 3, W[1]);
    assert Weight(W) == 0;
    BestLowerBound(SampleGraph, 3, 1, 3, W, 3);
  }

  // ---------------------------------------------------------------------------
  // The class
  // ---------------------------------------------------------------------------

  class JohnsonAPSP {
    const graph: AdjList
    const nodes: nat
    var weights: seq<int>
    var paths: seq<seq<int>>
    var shortest: int

    ghost predicate Shape()
      reads this
    {
      HeadsIn(graph, nodes) && |weights| == nodes + 1 && Square(paths, nodes)
    }

    /** The in-memory part of the constructor: the graph is given rather than read from a file. */
    constructor (graph: AdjList, nodes: nat)
      requires HeadsIn(graph, nodes)
      ensures this.graph == graph && this.nodes == nodes && Shape()
      ensures shortest == INF && weights == seq(nodes + 1, _ => 0)
      ensures paths == seq(nodes + 1, _ => seq(nodes + 1, _ => 0))
    {
      this.graph := graph;
      this.nodes := nodes;
      shortest := INF;
      paths := seq(nodes + 1, _ => seq(nodes + 1, _ => 0));
      weights := seq(nodes + 1, _ => 0);
    }

    /** computeWeights: Bellman-Ford from the virtual vertex nodes + 1 of the augmented graph. */
    method ComputeWeights() returns (r: Result)
      requires Shape()
      ensures r.cycle <==> r.paths.None?
      ensures !r.cycle ==> |r.paths.value| == nodes + 2
      ensures Bounded(graph, nodes) ==> (r.cycle <==> HasNegativeCycle(graph, nodes))
      ensures Bounded(graph, nodes) && !r.cycle ==> r.paths == Some(Enc(Best(Augmented(graph, nodes), nodes + 1, nodes + 1, nodes + 1)))
    {
      var newGraph: AdjList := seq(nodes + 2, _ => []);
      var newSource: seq<Edge> := [];
      var i := 1;
      while i <= nodes
        invariant 1 <= i <= nodes + 1 && |newGraph| == nodes + 2
        invariant newSource == SourceEdges(i - 1)
        invariant newGraph[0] == [] && newGraph[nodes + 1] == []
        invariant forall u :: 1 <= u <= nodes ==> newGraph[u] == if u < i then graph[u] else []
      {
        newSource := newSource + [Edge(i, 0)];
        newGraph := newGraph[i := graph[i]];
        i := i + 1;
      }
      newGraph := newGraph[nodes + 1 := newSource];
      assert newGraph == Augmented(graph, nodes);
      ghost var rounds: nat;
      r, rounds := ComputeShortestPath(newGraph, nodes + 1, nodes + 1);
      if Bounded(graph, nodes) {
        var b := AugmentedFits(graph, nodes);
        AugmentedCycle(graph, nodes);
      }
    }

    /** generateReweightedGraph(h): a new graph; the original is only read. */
    method GenerateReweightedGraph(h: seq<int>) returns (g: AdjList)
      requires Shape() && |h| == nodes + 1
      ensures g == Reweighted(graph, nodes, h)
    {
      g := seq(nodes + 1, _ => []);
      var i := 1;
      while i <= nodes
        invariant 1 <= i <= nodes + 1 && |g| == nodes + 1
        invariant forall u :: 0 <= u <= nodes ==> g[u] == if 1 <= u < i then Reweighted(graph, nodes, h)[u] else []
      {
        var newEdges: seq<Edge> := [];
        var k := 0;
        while k < |graph[i]|
          invariant 0 <= k <= |graph[i]|
          invariant newEdges == Reweighted(graph, nodes, h)[i][..k]
        {
          var edge := graph[i][k];
          var weight := edge.weight + h[i] - h[edge.node];
          newEdges := newEdges + [Edge(edge.node, weight)];
          k := k + 1;
        }
        g := g[i := newEdges];
        i := i + 1;
      }
    }

    /** computeAllPaths as written: weights is never assigned, so Dijkstra runs on the graph reweighted
        with the zero-filled array, i.e. on the original weights. */
    method ComputeAllPaths() returns (ok: bool)
      requires Shape()
      modifies this
      ensures Shape() && weights == old(weights) && shortest == old(shortest)
      ensures Bounded(graph, nodes) ==> (ok <==> !HasNegativeCycle(graph, nodes))
      ensures !ok ==> paths == old(paths)
      ensures ok ==> paths[0] == old(paths[0]) &&
                     forall i :: 1 <= i <= nodes ==> RowAsWritten(paths[i], nodes, i)
    {
      var firstPass := ComputeWeights();
      if firstPass.cycle {
        return false;
      }
      var newGraph := GenerateReweightedGraph(weights);
      var i := 1;
      while i <= nodes
        invariant 1 <= i <= nodes + 1 && Shape() && weights == old(weights) && shortest == old(shortest)
        invariant paths[0] == old(paths[0])
        invariant forall k :: 1 <= k < i ==> RowAsWritten(paths[k], nodes, k)
      {
        var row := DijkstraRow(newGraph, nodes, i);
        paths := paths[i := row];
        i := i + 1;
      }
      ok := true;
    }

    /** computeAllPaths with the Bellman-Ford distances stored in weights before reweighting. */
    method ComputeAllPathsRepaired() returns (ok: bool)
      requires Shape()
      modifies this
      ensures Shape() && shortest == old(shortest)
      ensures Bounded(graph, nodes) ==> (ok <==> !HasNegativeCycle(graph, nodes))
      ensures !ok ==> paths == old(paths) && weights == old(weights)
      ensures ok ==> paths[0] == old(paths[0]) &&
                     forall i :: 1 <= i <= nodes ==> RowExact(paths[i], Reweighted(graph, nodes, weights), nodes, i)
      ensures ok && Bounded(graph, nodes) ==> weights == Potentials(graph, nodes) && NonNegative(Reweighted(graph, nodes, weights))
    {
      var firstPass := ComputeWeights();
      if firstPass.cycle {
        return false;
      }
      weights := firstPass.paths.value[..nodes + 1];
      if Bounded(graph, nodes) {
        PotentialsFeasible(graph, nodes);
      }
      var newGraph := GenerateReweightedGraph(weights);
      var i := 1;
      while i <= nodes
        invariant 1 <= i <= nodes + 1 && Shape() && shortest == old(shortest)
        invariant paths[0] == old(paths[0]) && newGraph == Reweighted(graph, nodes, weights)
        invariant Bounded(graph, nodes) ==> weights == Potentials(graph, nodes)
        invariant forall k :: 1 <= k < i ==> RowExact(paths[k], newGraph, nodes, k)
      {
        var row := DijkstraRowRepaired(newGraph, nodes, i);
        paths := paths[i := row];
        i := i + 1;
      }
      ok := true;
    }

    /** processPaths: undo the reweighting of every entry below Integer.MAX_VALUE and keep the least entry. */
    method ProcessPaths()
      requires Shape()
      modifies this
      ensures Shape() && weights == old(weights)
      ensures paths == Processed(old(paths), weights, nodes)
      ensures MinBefore(shortest, old(shortest), paths, nodes, nodes + 1, 1)
    {
      paths, shortest := ProcessMatrix(paths, weights, nodes, shortest);
    }

    /** The corrected computeAllPaths followed by processPaths, as main runs them: without a negative
        cycle every processed entry is the shortest distance of the original graph as a Java int. */
    method AllPairsRepaired() returns (ok: bool)
      requires Shape()
      modifies this
      ensures Shape()
      ensures Bounded(graph, nodes) ==> (ok <==> !HasNegativeCycle(graph, nodes))
      ensures ok && Bounded(graph, nodes) ==>
                forall s, t :: 1 <= s <= nodes && 1 <= t <= nodes ==> paths[s][t] == Cap(Best(graph, nodes, s, nodes)[t])
      ensures ok ==> MinBefore(shortest, old(shortest), paths, nodes, nodes + 1, 1)
    {
      ok := ComputeAllPathsRepaired();
      if ok {
        ghost var P := paths;
        ProcessPaths();
        if Bounded(graph, nodes) {
          forall s, t | 1 <= s <= nodes && 1 <= t <= nodes
            ensures paths[s][t] == Cap(Best(graph, nodes, s, nodes)[t])
          {
            assert RowExact(P[s], Reweighted(graph, nodes, weights), nodes, s);
            JohnsonEntry(graph, nodes, s, t);
          }
        }
      }
    }
  }

}
