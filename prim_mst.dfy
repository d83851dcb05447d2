/**
 * Prim's minimum spanning tree cost (GreedyAlgorithms/PrimMST.java) on the
 * indexed heap: every node 1..N starts in the heap at Integer.MAX_VALUE, the
 * source is lowered to 0, and each iteration takes the heap's slot-1 node, adds
 * its key to the running tree cost, marks it and offers every unmarked
 * neighbour the weight of the connecting edge.
 *
 * The loop is followed with two ghost records: order, the nodes in the order
 * they leave the heap, and taken, the key each had when it left.  The tree
 * cost is the sum of taken; the source leaves first with key 0; every later
 * finite key is the weight of an edge from a node that left earlier (the tree
 * edge that attaches it).  On the corrected extraction each such key is also
 * at most the weight of every edge leaving the nodes taken before it (the
 * lightest edge across that cut), and on a connected graph every key is finite.
 */
module Prim {
  import opened Walks
  import opened IndexedHeap
  import Dijkstra
  import JavaInt

  /** The running tree cost: the keys added so far. */
  function Sum(xs: seq<int>): int
  {
    if xs == [] then 0 else Sum(xs[..|xs| - 1]) + xs[|xs| - 1]
  }

  /** treeCost += key on a Java int keeps treeCost the running sum wrapped to an int. */
  lemma CostStep(cost: int, taken: seq<int>, key: int)
    requires cost == JavaInt.Wrap(Sum(taken))
    ensures JavaInt.Plus(cost, key) == JavaInt.Wrap(Sum(taken + [key]))
  {
    SumAppend(taken, key);
    JavaInt.WrapAdd(Sum(taken), key);
  }

  lemma SumAppend(xs: seq<int>, x: int)
    ensures Sum(xs + [x]) == Sum(xs) + x
  {
    assert (xs + [x])[..|xs|] == xs;
  }

  /** The bookkeeping of the loop: the heap holds exactly the unmarked nodes 1..n with keys at most
      Integer.MAX_VALUE, order lists the marked nodes once each with their keys in taken, and until the
      first extraction the source alone has key 0. */
  ghost predicate Tracked(n: nat, s: int, live: map<int, int>, m: seq<bool>, order: seq<int>, taken: seq<int>) {
    |m| == n + 1 && 1 <= s <= n && |taken| == |order| &&
    (forall v :: v in live <==> 1 <= v <= n && !m[v]) &&
    (forall v :: v in live ==> live[v] <= INF) &&
    !m[0] &&
    (forall i :: 0 <= i < |order| ==> 1 <= order[i] <= n && m[order[i]] && taken[i] <= INF) &&
    (forall v :: 1 <= v <= n && m[v] ==> v in order) &&
    (forall i, j :: 0 <= i < j < |order| ==> order[i] != order[j]) &&
    (|order| == 0 ==> s in live && live[s] == 0 && forall v :: v in live && v != s ==> live[v] == INF) &&
    (|order| > 0 ==> order[0] == s && taken[0] == 0)
  }

  /** Every edge from a marked node to an unmarked one has offered its weight: the head's key is at most it. */
  ghost predicate KeysRelaxed(adj: AdjList, live: map<int, int>, m: seq<bool>) {
    forall x, j :: 0 <= x < |adj| && x < |m| && 0 <= j < |adj[x]| && m[x] &&
                   0 <= adj[x][j].node < |m| && !m[adj[x][j].node] ==>
      adj[x][j].node in live && live[adj[x][j].node] <= adj[x][j].weight
  }

  /** Every finite key is the weight of an edge into its node from a marked node. */
  ghost predicate Attained(adj: AdjList, live: map<int, int>, m: seq<bool>) {
    forall v :: v in live && live[v] < INF ==>
      exists x, j :: 0 <= x < |adj| && x < |m| && m[x] && 0 <= j < |adj[x]| && adj[x][j] == Edge(v, live[v])
  }

  /** Every node after the first that left with a finite key is attached by an edge of that weight
      from a node that left before it. */
  ghost predicate Parents(adj: AdjList, order: seq<int>, taken: seq<int>) {
    |taken| == |order| &&
    forall i :: 1 <= i < |order| && taken[i] < INF ==>
      exists j, k :: 0 <= j < i && 0 <= order[j] < |adj| && 0 <= k < |adj[order[j]]| &&
                     adj[order[j]][k] == Edge(order[i], taken[i])
  }

  /** Every node after the first left with a key at most the weight of any edge from the nodes taken
      before it to a node not yet taken. */
  ghost predicate Lightest(adj: AdjList, order: seq<int>, taken: seq<int>) {
    |taken| == |order| &&
    forall i, j, k :: 1 <= i < |order| && 0 <= j < i && 0 <= order[j] < |adj| && 0 <= k < |adj[order[j]]| &&
                      adj[order[j]][k].node !in order[..i] ==>
      taken[i] <= adj[order[j]][k].weight
  }

  /** Some walk leads from s to v. */
  ghost predicate Reachable(adj: AdjList, n: nat, s: int, v: int)
    requires |adj| == n + 1
  {
    exists W :: IsWalk(adj, n, W, s, v)
  }

  /** Every node 1..n is reached by a walk from s. */
  ghost predicate Connected(adj: AdjList, n: nat, s: int)
    requires |adj| == n + 1
  {
    forall v :: 1 <= v <= n ==> Reachable(adj, n, s, v)
  }

  /** No edge weighs Integer.MAX_VALUE or more, so an offered weight always lowers an untouched key. */
  predicate BelowInf(adj: AdjList) {
    forall x, j :: 0 <= x < |adj| && 0 <= j < |adj[x]| ==> adj[x][j].weight < INF
  }

  /** One iteration keeps the bookkeeping. */
  lemma TrackedStep(n: nat, s: int, live: map<int, int>, m: seq<bool>, order: seq<int>, taken: seq<int>,
                    u: int, live2: map<int, int>)
    requires Tracked(n, s, live, m, order, taken) && u in live && (|order| == 0 ==> u == s)
    requires forall v :: v in live2 <==> v in live - {u}
    requires forall v :: v in live2 ==> live2[v] <= (live - {u})[v]
    ensures Tracked(n, s, live2, m[u := true], order + [u], taken + [live[u]])
  {
    var order2 := order + [u];
    var m2 := m[u := true];
    forall v | 1 <= v <= n && m2[v]
      ensures v in order2
    {
      if v != u {
        assert v in order;
      }
    }
  }

  /** Relaxing the extracted node's edges with their bare weights keeps every edge out of the marked set relaxed. */
  lemma RelaxedStep(adj: AdjList, n: nat, live: map<int, int>, m: seq<bool>, u: int, live2: map<int, int>)
    requires HeadsIn(adj, n) && |m| == n + 1
    requires forall v :: v in live <==> 1 <= v <= n && !m[v]
    requires KeysRelaxed(adj, live, m) && u in live
    requires forall v :: v in live2 <==> 1 <= v <= n && !m[u := true][v]
    requires Dijkstra.RelaxedBy(adj[u], 0, m[u := true], live - {u}, live2)
    ensures KeysRelaxed(adj, live2, m[u := true])
  {
    var m2 := m[u := true];
    forall x, j | 0 <= x < |adj| && x < |m2| && 0 <= j < |adj[x]| && m2[x] &&
                  0 <= adj[x][j].node < |m2| && !m2[adj[x][j].node]
      ensures adj[x][j].node in live2 && live2[adj[x][j].node] <= adj[x][j].weight
    {
      if x != u {
        assert live[adj[x][j].node] <= adj[x][j].weight;
      }
    }
  }

  /** After relaxing, every finite key is still the weight of an edge from a marked node: either the
      key was just offered by the extracted node, or it was attained before (on the first iteration no
      key but the source's is finite). */
  lemma AttainedStep(adj: AdjList, live: map<int, int>, m: seq<bool>, u: int, live2: map<int, int>)
    requires 0 <= u < |adj| && u < |m| && u in live
    requires Attained(adj, live, m) || forall v :: v in live && v != u ==> live[v] == INF
    requires Dijkstra.RelaxedBy(adj[u], 0, m[u := true], live - {u}, live2)
    ensures Attained(adj, live2, m[u := true])
  {
    var m2 := m[u := true];
    forall v | v in live2 && live2[v] < INF
      ensures exists x, j :: 0 <= x < |adj| && x < |m2| && m2[x] && 0 <= j < |adj[x]| && adj[x][j] == Edge(v, live2[v])
    {
      if live2[v] != (live - {u})[v] {
        var e :| e in adj[u] && e.node == v && live2[v] == e.weight + 0;
        var j :| 0 <= j < |adj[u]| && adj[u][j] == e;
        assert adj[u][j] == Edge(v, live2[v]);
      } else {
        assert live[v] < INF;
        var x, j :| 0 <= x < |adj| && x < |m| && m[x] && 0 <= j < |adj[x]| && adj[x][j] == Edge(v, live[v]);
        assert m2[x];
      }
    }
  }

  /** An earlier node keeps the attaching edge it had. */
  lemma ParentKept(adj: AdjList, order: seq<int>, taken: seq<int>, u: int, key: int, i: int)
    requires Parents(adj, order, taken) && 1 <= i < |order| && taken[i] < INF
    ensures exists j, k :: 0 <= j < i && 0 <= (order + [u])[j] < |adj| && 0 <= k < |adj[(order + [u])[j]]| &&
                           adj[(order + [u])[j]][k] == Edge((order + [u])[i], (taken + [key])[i])
  {
    var j, k :| 0 <= j < i && 0 <= order[j] < |adj| && 0 <= k < |adj[order[j]]| && adj[order[j]][k] == Edge(order[i], taken[i]);
    assert (order + [u])[j] == order[j] && (order + [u])[i] == order[i] && (taken + [key])[i] == taken[i];
  }

  /** The extracted node, with a finite key after the first iteration, is attached by an edge of that
      weight from a marked node, which is one taken before. */
  lemma ParentNew(adj: AdjList, n: nat, live: map<int, int>, m: seq<bool>, order: seq<int>, taken: seq<int>, u: int)
    requires |m| == n + 1 && |adj| == n + 1 && !m[0] && (forall v :: 1 <= v <= n && m[v] ==> v in order)
    requires |order| > 0 && |taken| == |order| && Attained(adj, live, m) && u in live && live[u] < INF
    ensures exists j, k :: 0 <= j < |order| && 0 <= (order + [u])[j] < |adj| && 0 <= k < |adj[(order + [u])[j]]| &&
                           adj[(order + [u])[j]][k] == Edge((order + [u])[|order|], (taken + [live[u]])[|order|])
  {
    var x, k :| 0 <= x < |adj| && x < |m| && m[x] && 0 <= k < |adj[x]| && adj[x][k] == Edge(u, live[u]);
    assert 1 <= x <= n;
    var j :| 0 <= j < |order| && order[j] == x;
    assert (order + [u])[j] == x && (order + [u])[|order|] == u;
  }

  /** The extracted node is attached by an edge from an earlier node whenever its key is finite. */
  lemma ParentsStep(adj: AdjList, n: nat, live: map<int, int>, m: seq<bool>, order: seq<int>, taken: seq<int>, u: int)
    requires |m| == n + 1 && |adj| == n + 1 && !m[0] && (forall v :: 1 <= v <= n && m[v] ==> v in order)
    requires Parents(adj, order, taken) && u in live
    requires |order| > 0 ==> Attained(adj, live, m)
    ensures Parents(adj, order + [u], taken + [live[u]])
  {
    var order2, taken2 := order + [u], taken + [live[u]];
    forall i | 1 <= i < |order2| && taken2[i] < INF
      ensures exists j, k :: 0 <= j < i && 0 <= order2[j] < |adj| && 0 <= k < |adj[order2[j]]| &&
                             adj[order2[j]][k] == Edge(order2[i], taken2[i])
    {
      if i < |order| {
        ParentKept(adj, order, taken, u, live[u], i);
      } else {
        ParentNew(adj, n, live, m, order, taken, u);
      }
    }
  }

  /** Extracting a least key extends Lightest: every edge from the taken nodes to an untaken one has
      offered its weight, and the extracted key is below every key still in the heap. */
  lemma LightestStep(adj: AdjList, n: nat, s: int, live: map<int, int>, m: seq<bool>, order: seq<int>, taken: seq<int>, u: int)
    requires HeadsIn(adj, n) && Tracked(n, s, live, m, order, taken) && KeysRelaxed(adj, live, m)
    requires Lightest(adj, order, taken)
    requires u in live && forall v :: v in live ==> live[u] <= live[v]
    ensures Lightest(adj, order + [u], taken + [live[u]])
  {
    var order2, taken2 := order + [u], taken + [live[u]];
    forall i, j, k | 1 <= i < |order2| && 0 <= j < i && 0 <= order2[j] < |adj| && 0 <= k < |adj[order2[j]]| &&
                     adj[order2[j]][k].node !in order2[..i]
      ensures taken2[i] <= adj[order2[j]][k].weight
    {
      assert order2[..i] == order[..i];
      assert order2[j] == order[j];
      var y := adj[order[j]][k].node;
      if i == |order| {
        assert order[..i] == order;
        assert 1 <= y <= n && !m[y];
      } else {
        assert taken2[i] == taken[i] && order[..i] == order[..i];
      }
    }
  }

  /** On a connected graph with weights below Integer.MAX_VALUE, a least key is finite: a walk from the
      marked source to the extracted node leaves the marked set along an edge that has offered its weight. */
  lemma FiniteStep(adj: AdjList, n: nat, s: int, live: map<int, int>, m: seq<bool>, order: seq<int>, taken: seq<int>, u: int)
    requires HeadsIn(adj, n) && Tracked(n, s, live, m, order, taken) && KeysRelaxed(adj, live, m)
    requires Connected(adj, n, s) && BelowInf(adj)
    requires u in live && forall v :: v in live ==> live[u] <= live[v]
    ensures live[u] < INF
  {
    if |order| == 0 {
      assert live[s] == 0;
    } else {
      assert m[s];
      assert Reachable(adj, n, s, u);
      var W: seq<Arc> :| IsWalk(adj, n, W, s, u);
      var i := Dijkstra.ExitArc(adj, n, W, s, u, m);
      var x, y := W[i].from, W[i].to;
      assert IsArc(adj, n, W[i]);
      assert Edge(y, W[i].w) in adj[x];
      var j :| 0 <= j < |adj[x]| && adj[x][j] == Edge(y, W[i].w);
      assert live[u] <= live[y] <= adj[x][j].weight;
    }
  }

  /** Before the first extraction the source alone has key 0, so the first least key is the source's. */
  lemma FirstIsSource(n: nat, s: int, live: map<int, int>, m: seq<bool>, order: seq<int>, taken: seq<int>, u: int)
    requires Tracked(n, s, live, m, order, taken) && |order| == 0
    requires u in live && forall v :: v in live ==> live[u] <= live[v]
    ensures u == s
  {
    assert live[u] <= live[s];
  }

  /** What holds between iterations whichever node the heap hands out. */
  ghost predicate State(adj: AdjList, n: nat, s: int, live: map<int, int>, m: seq<bool>, order: seq<int>, taken: seq<int>) {
    HeadsIn(adj, n) && Tracked(n, s, live, m, order, taken) && KeysRelaxed(adj, live, m) &&
    (|order| > 0 ==> Attained(adj, live, m)) && Parents(adj, order, taken)
  }

  /** What holds in addition when the heap always hands out a least key. */
  ghost predicate StateRepaired(adj: AdjList, n: nat, s: int, live: map<int, int>, m: seq<bool>, order: seq<int>, taken: seq<int>) {
    State(adj, n, s, live, m, order, taken) && Lightest(adj, order, taken) &&
    (Connected(adj, n, s) && BelowInf(adj) ==> forall i :: 0 <= i < |taken| ==> taken[i] < INF)
  }

  /** Distinct nodes of 1..n number at most n. */
  lemma TrackedBound(n: nat, s: int, live: map<int, int>, m: seq<bool>, order: seq<int>, taken: seq<int>)
    requires Tracked(n, s, live, m, order, taken)
    ensures |order| <= n
  {
    DistinctBound(order, n);
  }

  /** One iteration: extract u (on the first iteration a least key), mark it and relax its edges. */
  lemma StateStep(adj: AdjList, n: nat, s: int, live: map<int, int>, m: seq<bool>, order: seq<int>, taken: seq<int>,
                  u: int, live2: map<int, int>)
    requires State(adj, n, s, live, m, order, taken) && u in live
    requires |order| == 0 ==> forall v :: v in live ==> live[u] <= live[v]
    requires forall v :: v in live2 <==> v in live - {u}
    requires Dijkstra.RelaxedBy(adj[u], 0, m[u := true], live - {u}, live2)
    ensures State(adj, n, s, live2, m[u := true], order + [u], taken + [live[u]])
  {
    if |order| == 0 {
      FirstIsSource(n, s, live, m, order, taken, u);
    }
    TrackedStep(n, s, live, m, order, taken, u, live2);
    RelaxedStep(adj, n, live, m, u, live2);
    AttainedStep(adj, live, m, u, live2);
    ParentsStep(adj, n, live, m, order, taken, u);
  }

  /** One iteration that extracts a least key. */
  lemma StateRepairedStep(adj: AdjList, n: nat, s: int, live: map<int, int>, m: seq<bool>, order: seq<int>, taken: seq<int>,
                          u: int, live2: map<int, int>)
    requires StateRepaired(adj, n, s, live, m, order, taken) && u in live
    requires forall v :: v in live ==> live[u] <= live[v]
    requires forall v :: v in live2 <==> v in live - {u}
    requires Dijkstra.RelaxedBy(adj[u], 0, m[u := true], live - {u}, live2)
    ensures StateRepaired(adj, n, s, live2, m[u := true], order + [u], taken + [live[u]])
  {
    StateStep(adj, n, s, live, m, order, taken, u, live2);
    LightestStep(adj, n, s, live, m, order, taken, u);
    if Connected(adj, n, s) && BelowInf(adj) {
      FiniteStep(adj, n, s, live, m, order, taken, u);
    }
  }

  /** Once the heap is empty every node 1..n has left it exactly once, the source first with key 0. */
  lemma TrackedAtEnd(n: nat, s: int, live: map<int, int>, m: seq<bool>, order: seq<int>, taken: seq<int>)
    requires Tracked(n, s, live, m, order, taken) && live == map[]
    ensures forall v :: 1 <= v <= n ==> m[v]
    ensures forall v :: v in order <==> 1 <= v <= n
    ensures |order| > 0 && order[0] == s && taken[0] == 0
  {
    assert s !in live;
  }

  class PrimMST {
    const nodes: nat
    const graph: AdjList
    const heap: CustomHeap
    const marked: array<bool>

    ghost predicate Shape()
      reads this
    {
      HeadsIn(graph, nodes) && marked.Length == nodes + 1
    }

    /** The state the constructor leaves: every node in the heap at Integer.MAX_VALUE, nothing marked. */
    ghost predicate Fresh()
      reads this, heap, marked
    {
      Shape() && heap.Valid() && FullHeap(heap.keys) &&
      (forall v :: v in heap.Contents() <==> 1 <= v <= nodes) &&
      (forall v :: v in heap.Contents() ==> heap.Contents()[v] == INF) &&
      (forall v :: 0 <= v <= nodes ==> !marked[v])
    }

    /** The in-memory part of the constructor; the graph is given rather than read from a file. */
    constructor (nodes: nat, graph: AdjList)
      requires HeadsIn(graph, nodes)
      ensures this.nodes == nodes && this.graph == graph
      ensures Fresh() && fresh(heap) && fresh(marked)
    {
      this.nodes := nodes;
      this.graph := graph;
      heap := new CustomHeap(nodes);
      marked := new bool[nodes + 1](_ => false);
    }

    /** The body of the edge loop for one edge: an unmarked head gets decreaseKey with the edge's weight. */
    method Offer(edges: seq<Edge>, j: int, ghost before: map<int, int>)
      requires Shape() && heap.Valid() && 0 <= j < |edges| && 1 <= edges[j].node <= nodes
      requires !marked[edges[j].node] ==> edges[j].node in heap.Contents()
      requires Dijkstra.RelaxedUpTo(edges, j, 0, marked[..], before, heap.Contents())
      modifies heap
      ensures heap.Valid()
      ensures Dijkstra.RelaxedUpTo(edges, j + 1, 0, marked[..], before, heap.Contents())
      ensures old(FullHeap(heap.keys)) ==> FullHeap(heap.keys)
      ensures old(AlmostHeap(heap.keys)) ==> AlmostHeap(heap.keys)
    {
      ghost var mid := heap.Contents();
      var node := edges[j].node;
      if !marked[node] {
        heap.DecreaseKey(node, edges[j].weight);
      }
      Dijkstra.RelaxedUpToStep(edges, j, 0, marked[..], before, mid, heap.Contents());
    }

    /** The loop over graph.getEdgeList(u): every unmarked head is offered the edge's weight. */
    method RelaxEdges(u: int)
      requires Shape() && 1 <= u <= nodes && heap.Valid()
      requires forall v :: 1 <= v <= nodes && !marked[v] ==> v in heap.Contents()
      modifies heap
      ensures heap.Valid()
      ensures Dijkstra.RelaxedBy(graph[u], 0, marked[..], old(heap.Contents()), heap.Contents())
      ensures old(FullHeap(heap.keys)) ==> FullHeap(heap.keys)
      ensures old(AlmostHeap(heap.keys)) ==> AlmostHeap(heap.keys)
    {
      var edges := graph[u];
      ghost var before := heap.Contents();
      var j := 0;
      while j < |edges|
        invariant 0 <= j <= |edges| && heap.Valid()
        invariant Dijkstra.RelaxedUpTo(edges, j, 0, marked[..], before, heap.Contents())
        invariant old(FullHeap(heap.keys)) ==> FullHeap(heap.keys)
        invariant old(AlmostHeap(heap.keys)) ==> AlmostHeap(heap.keys)
      {
        assert 1 <= edges[j].node <= nodes;
        Offer(edges, j, before);
        j := j + 1;
      }
    }

    /** One pass of the loop on the heap as written: take the slot-1 node and its key, mark the node
        and relax its edges. */
    method Visit() returns (node: int, key: int)
      requires Shape() && heap.Valid() && |heap.keys| >= 2 && AlmostHeap(heap.keys)
      requires forall v :: v in heap.Contents() <==> 1 <= v <= nodes && !marked[v]
      modifies heap, marked
      ensures heap.Valid() && AlmostHeap(heap.keys)
      ensures node in old(heap.Contents()) && key == old(heap.Contents())[node]
      ensures old(FullHeap(heap.keys)) ==> forall v :: v in old(heap.Contents()) ==> key <= old(heap.Contents())[v]
      ensures marked[..] == old(marked[..])[node := true]
      ensures Dijkstra.RelaxedBy(graph[node], 0, marked[..], old(heap.Contents()) - {node}, heap.Contents())
    {
      node := heap.PeekMinNode();
      key := heap.ExtractMinKey();
      marked[node] := true;
      RelaxEdges(node);
    }

    /** The same pass on the corrected extraction: the node taken always has a least key. */
    method VisitRepaired() returns (node: int, key: int)
      requires Shape() && heap.Valid() && |heap.keys| >= 2 && FullHeap(heap.keys)
      requires forall v :: v in heap.Contents() <==> 1 <= v <= nodes && !marked[v]
      modifies heap, marked
      ensures heap.Valid() && FullHeap(heap.keys)
      ensures node in old(heap.Contents()) && key == old(heap.Contents())[node]
      ensures forall v :: v in old(heap.Contents()) ==> key <= old(heap.Contents())[v]
      ensures marked[..] == old(marked[..])[node := true]
      ensures Dijkstra.RelaxedBy(graph[node], 0, marked[..], old(heap.Contents()) - {node}, heap.Contents())
    {
      node := heap.PeekMinNode();
      key := heap.ExtractMinKeyRepaired();
      marked[node] := true;
      RelaxEdges(node);
    }

    /** What holds between iterations of computeMSTCost on the heap as written. */
    ghost predicate Loop(source: int, order: seq<int>, taken: seq<int>, cost: int)
      reads this, heap, marked
    {
      Shape() && heap.Valid() && AlmostHeap(heap.keys) && (|order| == 0 ==> FullHeap(heap.keys)) &&
      State(graph, nodes, source, heap.Contents(), marked[..], order, taken) && cost == JavaInt.Wrap(Sum(taken))
    }

    /** What holds between iterations on the corrected extraction. */
    ghost predicate LoopRepaired(source: int, order: seq<int>, taken: seq<int>, cost: int)
      reads this, heap, marked
    {
      Shape() && heap.Valid() && FullHeap(heap.keys) &&
      StateRepaired(graph, nodes, source, heap.Contents(), marked[..], order, taken) && cost == JavaInt.Wrap(Sum(taken))
    }

    /** heap.decreaseKey(sourceNode, 0) on the fresh state, with treeCost = 0, starts the loop. */
    method Start(source: int) returns (treeCost: int)
      requires Fresh() && 1 <= source <= nodes
      modifies heap
      ensures treeCost == 0
      ensures Loop(source, [], [], treeCost) && LoopRepaired(source, [], [], treeCost)
    {
      heap.DecreaseKey(source, 0);
      assert marked[..] == seq(nodes + 1, _ => false);
      treeCost := 0;
    }

    /** One iteration on the heap as written. */
    method Step(source: int, treeCost: int, ghost order: seq<int>, ghost taken: seq<int>)
        returns (cost: int, ghost order2: seq<int>, ghost taken2: seq<int>)
      requires Loop(source, order, taken, treeCost) && |heap.keys| >= 2
      modifies heap, marked
      ensures Loop(source, order2, taken2, cost) && |order2| == |order| + 1 && |order2| <= nodes
    {
      ghost var live, m0 := heap.Contents(), marked[..];
      var node, key := Visit();
      cost := JavaInt.Plus(treeCost, key);
      order2, taken2 := order + [node], taken + [key];
      CostStep(treeCost, taken, key);
      StateStep(graph, nodes, source, live, m0, order, taken, node, heap.Contents());
      TrackedBound(nodes, source, heap.Contents(), marked[..], order2, taken2);
    }

    /** One iteration on the corrected extraction. */
    method StepRepaired(source: int, treeCost: int, ghost order: seq<int>, ghost taken: seq<int>)
        returns (cost: int, ghost order2: seq<int>, ghost taken2: seq<int>)
      requires LoopRepaired(source, order, taken, treeCost) && |heap.keys| >= 2
      modifies heap, marked
      ensures LoopRepaired(source, order2, taken2, cost) && |order2| == |order| + 1 && |order2| <= nodes
    {
      ghost var live, m0 := heap.Contents(), marked[..];
      var node, key := VisitRepaired();
      cost := JavaInt.Plus(treeCost, key);
      order2, taken2 := order + [node], taken + [key];
      CostStep(treeCost, taken, key);
      StateRepairedStep(graph, nodes, source, live, m0, order, taken, node, heap.Contents());
      TrackedBound(nodes, source, heap.Contents(), marked[..], order2, taken2);
    }

    /** The while loop of computeMSTCost on the heap as written. */
    method Run(source: int, start: int) returns (treeCost: int, ghost order: seq<int>, ghost taken: seq<int>)
      requires Loop(source, [], [], start)
      modifies heap, marked
      ensures Loop(source, order, taken, treeCost) && heap.Contents() == map[]
    {
      treeCost, order, taken := start, [], [];
      var empty := heap.IsEmpty();
      while !empty
        invariant Loop(source, order, taken, treeCost) && |order| <= nodes
        invariant empty <==> heap.Contents() == map[]
        decreases nodes - |order|
      {
        treeCost, order, taken := Step(source, treeCost, order, taken);
        empty := heap.IsEmpty();
      }
    }

    /** The while loop of computeMSTCost on the corrected extraction. */
    method RunRepaired(source: int, start: int) returns (treeCost: int, ghost order: seq<int>, ghost taken: seq<int>)
      requires LoopRepaired(source, [], [], start)
      modifies heap, marked
      ensures LoopRepaired(source, order, taken, treeCost) && heap.Contents() == map[]
    {
      treeCost, order, taken := start, [], [];
      var empty := heap.IsEmpty();
      while !empty
        invariant LoopRepaired(source, order, taken, treeCost) && |order| <= nodes
        invariant empty <==> heap.Contents() == map[]
        decreases nodes - |order|
      {
        treeCost, order, taken := StepRepaired(source, treeCost, order, taken);
        empty := heap.IsEmpty();
      }
    }

    /** computeMSTCost on the heap as written: the sum, as a Java int, of the keys the nodes left the heap with, every
        node leaving once, the source first at 0, every later finite key the weight of an edge from an
        earlier node. */
    method ComputeMSTCost(source: int) returns (treeCost: int, ghost order: seq<int>, ghost taken: seq<int>)
      requires Fresh() && 1 <= source <= nodes
      modifies heap, marked
      ensures heap.Contents() == map[] && forall v :: 1 <= v <= nodes ==> marked[v]
      ensures treeCost == JavaInt.Wrap(Sum(taken)) && |taken| == |order|
      ensures forall v :: v in order <==> 1 <= v <= nodes
      ensures forall i, j :: 0 <= i < j < |order| ==> order[i] != order[j]
      ensures |order| > 0 && order[0] == source && taken[0] == 0
      ensures forall i :: 0 <= i < |taken| ==> taken[i] <= INF
      ensures Parents(graph, order, taken)
    {
      var start := Start(source);
      treeCost, order, taken := Run(source, start);
      TrackedAtEnd(nodes, source, heap.Contents(), marked[..], order, taken);
    }

    /** computeMSTCost on the corrected extraction: in addition every node is attached by a lightest edge
        leaving the nodes taken before it, and on a connected graph every key is finite, so the result is
        the weight of the spanning tree those edges form. */
    method ComputeMSTCostRepaired(source: int) returns (treeCost: int, ghost order: seq<int>, ghost taken: seq<int>)
      requires Fresh() && 1 <= source <= nodes
      modifies heap, marked
      ensures heap.Contents() == map[] && forall v :: 1 <= v <= nodes ==> marked[v]
      ensures treeCost == JavaInt.Wrap(Sum(taken)) && |taken| == |order|
      ensures forall v :: v in order <==> 1 <= v <= nodes
      ensures forall i, j :: 0 <= i < j < |order| ==> order[i] != order[j]
      ensures |order| > 0 && order[0] == source && taken[0] == 0
      ensures forall i :: 0 <= i < |taken| ==> taken[i] <= INF
      ensures Parents(graph, order, taken) && Lightest(graph, order, taken)
      ensures Connected(graph, nodes, source) && BelowInf(graph) ==> forall i :: 0 <= i < |taken| ==> taken[i] < INF
    {
      var start := Start(source);
      treeCost, order, taken := RunRepaired(source, start);
      TrackedAtEnd(nodes, source, heap.Contents(), marked[..], order, taken);
    }
  }
}
