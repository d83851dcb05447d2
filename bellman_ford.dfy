/**
 * Bellman-Ford single-source shortest paths (Graphs/BellmanFord.java).
 *
 * computeShortestPath fills paths with Integer.MAX_VALUE, sets the source to 0
 * and runs at most `nodes` rounds; each round clones paths into nextPaths and
 * relaxes every edge of the tails 1..nodes reading tail values from paths only
 * (a Jacobi round), skipping tails still at Integer.MAX_VALUE.  The first round
 * that changes nothing returns Result(false, nextPaths); if every round changes
 * something the result is Result(true, null).
 *
 * RoundsInt is that computation on Java ints, sums wrapping as in the code;
 * RoundsMatch shows that, as long as no sum can leave the int range or reach
 * Integer.MAX_VALUE, it is the round-by-round relaxation Best of
 * module Walks, whose meaning (least walk weights, negative cycles) is proved
 * there.
 */
module BellmanFord {
  import opened Walks
  import opened Wrappers
  import JavaInt

  /** The record returned by computeShortestPath; paths is None where the Java code returns null. */
  datatype Result = Result(cycle: bool, paths: Option<seq<int>>)

  // ---------------------------------------------------------------------------
  // The rounds on Java ints
  // ---------------------------------------------------------------------------

  /** Math.min(current, proposal) for the head of every edge of es, in list order; the proposal
      paths[tail] + edge.weight() is a Java int sum. */
  function RelaxListInt(next: seq<int>, du: int, es: seq<Edge>): (r: seq<int>)
    requires HeadsBelow(es, |next|)
    ensures |r| == |next|
    decreases |es|
  {
    if es == [] then next
    else
      var r := RelaxListInt(next, du, es[..|es| - 1]);
      var e := es[|es| - 1];
      var p := JavaInt.Plus(du, e.weight);
      r[e.node := if p < r[e.node] then p else r[e.node]]
  }

  /** The edge lists of tails 1..j, each skipped when the tail's previous value is Integer.MAX_VALUE. */
  function RelaxTailsInt(adj: AdjList, n: nat, prev: seq<int>, j: nat): (r: seq<int>)
    requires HeadsIn(adj, n) && |prev| == n + 1 && j <= n
    ensures |r| == n + 1
  {
    if j == 0 then prev
    else if prev[j] == INF then RelaxTailsInt(adj, n, prev, j - 1)
    else
      assert HeadsBelow(adj[j], n + 1);
      RelaxListInt(RelaxTailsInt(adj, n, prev, j - 1), prev[j], adj[j])
  }

  function RoundInt(adj: AdjList, n: nat, prev: seq<int>): (r: seq<int>)
    requires HeadsIn(adj, n) && |prev| == n + 1
    ensures |r| == n + 1
  {
    RelaxTailsInt(adj, n, prev, n)
  }

  /** Arrays.fill(paths, Integer.MAX_VALUE) followed by paths[source] = 0. */
  function InitInt(n: nat, s: int): (r: seq<int>)
    ensures |r| == n + 1
  {
    seq(n + 1, v => if v == s then 0 else INF)
  }

  /** paths after k rounds. */
  function RoundsInt(adj: AdjList, n: nat, s: int, k: nat): (r: seq<int>)
    requires HeadsIn(adj, n)
    ensures |r| == n + 1
  {
    if k == 0 then InitInt(n, s) else RoundInt(adj, n, RoundsInt(adj, n, s, k - 1))
  }

  // ---------------------------------------------------------------------------
  // Rounds never raise an entry
  // ---------------------------------------------------------------------------

  lemma {:induction false} RelaxListIntBelow(next: seq<int>, du: int, es: seq<Edge>, v: int)
    requires HeadsBelow(es, |next|) && 0 <= v < |next|
    ensures RelaxListInt(next, du, es)[v] <= next[v]
    decreases |es|
  {
    if es != [] {
      RelaxListIntBelow(next, du, es[..|es| - 1], v);
    }
  }

  lemma {:induction false} RelaxTailsIntBelow(adj: AdjList, n: nat, prev: seq<int>, j: nat, v: int)
    requires HeadsIn(adj, n) && |prev| == n + 1 && j <= n && 0 <= v <= n
    ensures RelaxTailsInt(adj, n, prev, j)[v] <= prev[v]
  {
    if j > 0 {
      RelaxTailsIntBelow(adj, n, prev, j - 1, v);
      if prev[j] != INF {
        assert HeadsBelow(adj[j], n + 1);
        RelaxListIntBelow(RelaxTailsInt(adj, n, prev, j - 1), prev[j], adj[j], v);
      }
    }
  }

  /** Entries never increase from one round to the next. */
  lemma RoundIntDecreasing(adj: AdjList, n: nat, s: int, k: nat, v: int)
    requires HeadsIn(adj, n) && 0 <= v <= n
    ensures RoundsInt(adj, n, s, k + 1)[v] <= RoundsInt(adj, n, s, k)[v]
  {
    RelaxTailsIntBelow(adj, n, RoundsInt(adj, n, s, k), n, v);
  }

  /** A tail at Integer.MAX_VALUE proposes nothing, so a vertex no round reached keeps Integer.MAX_VALUE:
      an entry below it in round k + 1 was proposed from a tail below it in round k. */
  lemma {:induction false} RelaxListIntSource(next: seq<int>, du: int, es: seq<Edge>, v: int) returns (i: int)
    requires HeadsBelow(es, |next|) && 0 <= v < |next|
    ensures -1 <= i < |es|
    ensures i == -1 ==> RelaxListInt(next, du, es)[v] == next[v]
    ensures i >= 0 ==> es[i].node == v && RelaxListInt(next, du, es)[v] == JavaInt.Plus(du, es[i].weight)
    decreases |es|
  {
    if es == [] {
      i := -1;
    } else {
      var r := RelaxListInt(next, du, es[..|es| - 1]);
      var e := es[|es| - 1];
      if e.node == v && JavaInt.Plus(du, e.weight) < r[v] {
        i := |es| - 1;
      } else {
        i := RelaxListIntSource(next, du, es[..|es| - 1], v);
      }
    }
  }

  // ---------------------------------------------------------------------------
  // The Java-int rounds are the distance rounds while no value reaches Integer.MAX_VALUE
  // ---------------------------------------------------------------------------

  /** Every distance is stored as its Java int: infinity as Integer.MAX_VALUE. */
  function Enc(D: seq<Dist>): (r: seq<int>)
    ensures |r| == |D|
  {
    seq(|D|, i requires 0 <= i < |D| => Cap(D[i]))
  }

  /** Every finite value lies in -c..c. */
  ghost predicate Small(D: seq<Dist>, c: int) {
    forall v :: 0 <= v < |D| && D[v].Fin? ==> -c <= D[v].d <= c
  }

  /** Some bound b on the absolute edge weights keeps n * b below Integer.MAX_VALUE, so that no sum the
      algorithm forms overflows a Java int. */
  ghost predicate Fits(adj: AdjList, n: nat) {
    exists b: nat :: WeightsWithin(adj, b) && n * b < INF
  }

  lemma RelaxListInf(next: seq<Dist>, es: seq<Edge>)
    requires HeadsBelow(es, |next|)
    ensures RelaxList(next, Inf, es) == next
    decreases |es|
  {
    if es != [] {
      RelaxListInf(next, es[..|es| - 1]);
    }
  }

  lemma {:induction false} RelaxListMatch(next: seq<Dist>, du: int, es: seq<Edge>, c: nat, b: nat)
    requires HeadsBelow(es, |next|) && Small(next, c + b) && -(c as int) <= du <= c && c + b < INF
    requires forall i :: 0 <= i < |es| ==> -(b as int) <= es[i].weight <= b
    ensures RelaxListInt(Enc(next), du, es) == Enc(RelaxList(next, Fin(du), es))
    ensures Small(RelaxList(next, Fin(du), es), c + b)
    decreases |es|
  {
    if es != [] {
      var es0 := es[..|es| - 1];
      RelaxListMatch(next, du, es0, c, b);
      var e := es[|es| - 1];
      var r := RelaxList(next, Fin(du), es0);
      assert JavaInt.Plus(du, e.weight) == du + e.weight;
      assert Enc(RelaxList(next, Fin(du), es)) == Enc(r)[e.node := Cap(Min(r[e.node], Fin(du + e.weight)))];
    }
  }

  lemma {:induction false} RelaxTailsMatch(adj: AdjList, n: nat, prev: seq<Dist>, j: nat, c: nat, b: nat)
    requires HeadsIn(adj, n) && |prev| == n + 1 && j <= n && WeightsWithin(adj, b)
    requires Small(prev, c) && c + b < INF
    ensures RelaxTailsInt(adj, n, Enc(prev), j) == Enc(RelaxTails(adj, n, prev, j))
    ensures Small(RelaxTails(adj, n, prev, j), c + b)
  {
    if j > 0 {
      RelaxTailsMatch(adj, n, prev, j - 1, c, b);
      var r := RelaxTails(adj, n, prev, j - 1);
      assert HeadsBelow(adj[j], n + 1);
      if prev[j].Inf? {
        RelaxListInf(r, adj[j]);
      } else {
        assert forall i :: 0 <= i < |adj[j]| ==> -(b as int) <= adj[j][i].weight <= b;
        RelaxListMatch(r, prev[j].d, adj[j], c, b);
      }
    }
  }

  /** Round k of the Java code stores Best(k) as Java ints. */
  lemma {:induction false} RoundsMatch(adj: AdjList, n: nat, s: int, k: nat, b: nat)
    requires HeadsIn(adj, n) && WeightsWithin(adj, b) && k * b < INF
    ensures RoundsInt(adj, n, s, k) == Enc(Best(adj, n, s, k))
    ensures Small(Best(adj, n, s, k), k * b)
  {
    if k == 0 {
      assert Enc(Init(n, s)) == InitInt(n, s);
    } else {
      assert (k - 1) * b + b == k * b;
      RoundsMatch(adj, n, s, k - 1, b);
      RelaxTailsMatch(adj, n, Best(adj, n, s, k - 1), n, (k - 1) * b, b);
    }
  }

  /** Storing small distances as Java ints loses nothing. */
  lemma EncInjective(D: seq<Dist>, E: seq<Dist>, c: nat)
    requires |D| == |E| && Small(D, c) && Small(E, c) && c < INF && Enc(D) == Enc(E)
    ensures D == E
  {
    forall v | 0 <= v < |D|
      ensures D[v] == E[v]
    {
      assert Enc(D)[v] == Enc(E)[v];
    }
  }

  lemma SmallWeaken(D: seq<Dist>, c: int, c2: int)
    requires Small(D, c) && c <= c2
    ensures Small(D, c2)
  {
  }

  /** A round that changes nothing has reached the shortest distances, and no negative cycle is reachable. */
  lemma StableMeaning(adj: AdjList, n: nat, s: int, k: nat)
    requires HeadsIn(adj, n) && 0 <= s <= n && 1 <= k <= n && Fits(adj, n)
    requires RoundsInt(adj, n, s, k) == RoundsInt(adj, n, s, k - 1)
    ensures RoundsInt(adj, n, s, k) == Enc(Best(adj, n, s, n))
    ensures IsShortest(adj, n, s, Best(adj, n, s, n))
    ensures !NegativeCycleReachable(adj, n, s)
  {
    var b: nat :| WeightsWithin(adj, b) && n * b < INF;
    assert k * b <= n * b && (k - 1) * b <= k * b;
    RoundsMatch(adj, n, s, k, b);
    RoundsMatch(adj, n, s, k - 1, b);
    SmallWeaken(Best(adj, n, s, k - 1), (k - 1) * b, k * b);
    EncInjective(Best(adj, n, s, k), Best(adj, n, s, k - 1), k * b);
    StableForever(adj, n, s, k - 1, n);
    StableForever(adj, n, s, k - 1, n - 1);
    StableIsShortest(adj, n, s, k - 1);
    CycleIff(adj, n, s);
  }

  /** A change in round n means a negative cycle is reachable. */
  lemma UnstableMeaning(adj: AdjList, n: nat, s: int)
    requires HeadsIn(adj, n) && 0 <= s <= n && 1 <= n && Fits(adj, n)
    requires RoundsInt(adj, n, s, n) != RoundsInt(adj, n, s, n - 1)
    ensures NegativeCycleReachable(adj, n, s)
  {
    var b: nat :| WeightsWithin(adj, b) && n * b < INF;
    assert (n - 1) * b <= n * b;
    RoundsMatch(adj, n, s, n, b);
    RoundsMatch(adj, n, s, n - 1, b);
    CycleIff(adj, n, s);
  }

  // ---------------------------------------------------------------------------
  // computeShortestPath
  // ---------------------------------------------------------------------------

  /** One pass of the outer loop body: clone paths and relax every edge of tails 1..nodes against paths. */
  method RelaxRound(graph: AdjList, nodes: nat, paths: array<int>) returns (nextPaths: array<int>, stable: bool)
    requires HeadsIn(graph, nodes) && paths.Length == nodes + 1
    ensures fresh(nextPaths) && nextPaths[..] == RoundInt(graph, nodes, paths[..])
    ensures stable <==> nextPaths[..] == paths[..]
  {
    var prev := paths[..];
    stable := true;
    nextPaths := new int[nodes + 1](v requires 0 <= v < nodes + 1 => prev[v]);
    assert nextPaths[..] == prev;
    var j := 1;
    while j <= nodes
      invariant 1 <= j <= nodes + 1 && paths[..] == prev
      invariant nextPaths[..] == RelaxTailsInt(graph, nodes, prev, j - 1)
      invariant forall v :: 0 <= v <= nodes ==> nextPaths[v] <= prev[v]
      invariant stable <==> nextPaths[..] == prev
    {
      stable := RelaxTail(graph, nodes, paths, nextPaths, j, stable);
      j := j + 1;
    }
  }

  /** Relaxing edge e of a tail: the entries stay below the previous round's, and the round is still
      unchanged exactly when it was before and the head keeps its previous value. */
  lemma EdgeStep(prev: seq<int>, base: seq<int>, du: int, es: seq<Edge>, e: nat, cur: seq<int>, stable: bool)
    requires HeadsBelow(es, |base|) && e < |es| && |prev| == |base|
    requires cur == RelaxListInt(base, du, es[..e])
    requires forall v :: 0 <= v < |cur| ==> cur[v] <= prev[v]
    requires stable <==> cur == prev
    ensures var h := es[e].node;
            var p := JavaInt.Plus(du, es[e].weight);
            var nxt := cur[h := if p < cur[h] then p else cur[h]];
            nxt == RelaxListInt(base, du, es[..e + 1]) &&
            (forall v :: 0 <= v < |nxt| ==> nxt[v] <= prev[v]) &&
            (stable && nxt[h] == prev[h] <==> nxt == prev)
  {
    assert es[..e + 1][..e] == es[..e];
    var h := es[e].node;
    var p := JavaInt.Plus(du, es[e].weight);
    var nxt := cur[h := if p < cur[h] then p else cur[h]];
    if nxt[h] == prev[h] {
      assert nxt == cur;
    }
  }

  /** The state of the edge loop of tail j after e edges: the round so far, each entry still at most the
      previous round's, and stable recording whether the round has changed anything yet. */
  ghost predicate EdgeLoop(prev: seq<int>, next: seq<int>, base: seq<int>, j: nat, es: seq<Edge>, e: nat, stable: bool)
  {
    j < |prev| && e <= |es| && HeadsBelow(es, |base|) &&
    next == (if prev[j] == INF then base else RelaxListInt(base, prev[j], es[..e])) &&
    |prev| == |next| && (forall v :: 0 <= v < |next| ==> next[v] <= prev[v]) &&
    (stable <==> next == prev)
  }

  /** One pass of the edge loop: relax edge e of tail j when the tail has been reached. */
  method RelaxEdge(nodes: nat, paths: array<int>, nextPaths: array<int>, j: int, edges: seq<Edge>, e: nat,
                   ghost base: seq<int>, stable0: bool) returns (stable: bool)
    requires paths.Length == nodes + 1 && nextPaths.Length == nodes + 1 && paths != nextPaths
    requires 0 <= j <= nodes && e < |edges|
    requires EdgeLoop(paths[..], nextPaths[..], base, j, edges, e, stable0)
    modifies nextPaths
    ensures EdgeLoop(paths[..], nextPaths[..], base, j, edges, e + 1, stable)
  {
    stable := stable0;
    var edge := edges[e];
    var tail, head := j, edge.node;
    if paths[tail] != INF {
      ghost var cur := nextPaths[..];
      EdgeStep(paths[..], base, paths[tail], edges, e, cur, stable);
      var proposal := JavaInt.Plus(paths[tail], edge.weight);
      nextPaths[head] := if proposal < nextPaths[head] then proposal else nextPaths[head];
      assert nextPaths[..] == cur[head := nextPaths[head]];
      if nextPaths[head] != paths[head] {
        stable := false;
      }
    }
  }

  /** The inner loop over graph.getEdgeList(j). */
  method RelaxTail(graph: AdjList, nodes: nat, paths: array<int>, nextPaths: array<int>, j: int, stable0: bool)
      returns (stable: bool)
    requires HeadsIn(graph, nodes) && paths.Length == nodes + 1 && nextPaths.Length == nodes + 1
    requires paths != nextPaths && 1 <= j <= nodes
    requires nextPaths[..] == RelaxTailsInt(graph, nodes, paths[..], j - 1)
    requires forall v :: 0 <= v <= nodes ==> nextPaths[v] <= paths[v]
    requires stable0 <==> nextPaths[..] == paths[..]
    modifies nextPaths
    ensures nextPaths[..] == RelaxTailsInt(graph, nodes, paths[..], j)
    ensures forall v :: 0 <= v <= nodes ==> nextPaths[v] <= paths[v]
    ensures stable <==> nextPaths[..] == paths[..]
  {
    stable := stable0;
    var edges := graph[j];
    ghost var base := nextPaths[..];
    assert HeadsBelow(edges, nodes + 1);
    var e := 0;
    while e < |edges|
      invariant EdgeLoop(paths[..], nextPaths[..], base, j, edges, e, stable)
    {
      stable := RelaxEdge(nodes, paths, nextPaths, j, edges, e, base, stable);
      e := e + 1;
    }
    assert edges[..|edges|] == edges;
  }

  /** computeShortestPath(source) on the graph's adjacency lists; rounds is the number of the round that
      returned, or nodes + 1 when the loop ran out. */
  method ComputeShortestPath(graph: AdjList, nodes: nat, source: int) returns (r: Result, ghost rounds: nat)
    requires HeadsIn(graph, nodes) && 0 <= source <= nodes
    ensures 1 <= rounds <= nodes + 1
    ensures forall i :: 1 <= i < rounds ==> RoundsInt(graph, nodes, source, i) != RoundsInt(graph, nodes, source, i - 1)
    ensures rounds <= nodes ==> RoundsInt(graph, nodes, source, rounds) == RoundsInt(graph, nodes, source, rounds - 1)
    ensures rounds <= nodes ==> r == Result(false, Some(RoundsInt(graph, nodes, source, rounds)))
    ensures rounds == nodes + 1 ==> r == Result(true, None)
    ensures r.cycle <==> r.paths.None?
    ensures Fits(graph, nodes) && 1 <= nodes ==> (r.cycle <==> NegativeCycleReachable(graph, nodes, source))
    ensures Fits(graph, nodes) && !r.cycle ==>
              r.paths == Some(Enc(Best(graph, nodes, source, nodes))) && IsShortest(graph, nodes, source, Best(graph, nodes, source, nodes))
  {
    var paths := new int[nodes + 1](_ => INF);
    paths[source] := 0;
    assert paths[..] == InitInt(nodes, source);
    var i := 1;
    while i <= nodes
      invariant 1 <= i <= nodes + 1 && paths.Length == nodes + 1
      invariant paths[..] == RoundsInt(graph, nodes, source, i - 1)
      invariant forall k :: 1 <= k < i ==> RoundsInt(graph, nodes, source, k) != RoundsInt(graph, nodes, source, k - 1)
    {
      var nextPaths, stable := RelaxRound(graph, nodes, paths);
      if stable {
        r, rounds := Result(false, Some(nextPaths[..])), i;
        if Fits(graph, nodes) {
          StableMeaning(graph, nodes, source, i);
        }
        return;
      }
      paths := nextPaths;
      i := i + 1;
    }
    r, rounds := Result(true, None), nodes + 1;
    if Fits(graph, nodes) && 1 <= nodes {
      UnstableMeaning(graph, nodes, source);
    }
  }
}
