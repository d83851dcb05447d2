/**
 * Dijkstra's single-source shortest paths (Graphs/Dijkstra.java) on the indexed
 * heap: every node 1..N starts in the heap at Integer.MAX_VALUE, the source is
 * lowered to 0, and each iteration extracts the heap's slot-1 node, records its
 * key in paths and relaxes its unmarked neighbours with decreaseKey.
 *
 * ComputeShortestPaths is the code as written: its heap's sift-down can leave
 * a smaller key below the root (see IndexedHeap), and the offer
 * edge.weight() + currentDistance is a Java int sum, which wraps to a negative
 * key when a node the source does not reach is extracted at Integer.MAX_VALUE
 * (UnreachableOfferWraps).  It still writes every node once, gives the source
 * 0 and leaves Java ints in paths.  ComputeShortestPathsRepaired runs on the
 * corrected extraction with the sum taken exactly and reports the shortest
 * distance Cap(D[v]), D being Best(graph, nodes, source, nodes) from Walks:
 * Integer.MAX_VALUE for the nodes the source does not reach.
 */
module Dijkstra {
  import opened Walks
  import opened IndexedHeap
  import JavaInt

  /** A marked tail and an unmarked head: the arc on which a walk from a marked vertex first leaves the marked set. */
  lemma ExitArc(adj: AdjList, n: nat, W: seq<Arc>, s: int, t: int, m: seq<bool>) returns (i: nat)
    requires HeadsIn(adj, n) && IsWalk(adj, n, W, s, t) && |m| == n + 1 && m[s] && !m[t]
    ensures i < |W| && 1 <= W[i].from <= n && 1 <= W[i].to <= n
    ensures m[W[i].from] && !m[W[i].to]
  {
    assert |W| > 0;
    i := 0;
    ArcHeadIn(adj, n, W[0]);
    while m[W[i].to]
      invariant 0 <= i < |W| && 1 <= W[i].to <= n && m[W[i].from]
      decreases |W| - i
    {
      i := i + 1;
      ArcHeadIn(adj, n, W[i]);
    }
  }

  /** D is the shortest-walk distance from s, with D[s] = 0, and satisfies the triangle inequality on every edge. */
  ghost predicate Distances(adj: AdjList, n: nat, s: int, D: seq<Dist>)
    requires HeadsIn(adj, n)
  {
    IsShortest(adj, n, s, D) && 0 <= s <= n && D[s] == Fin(0) &&
    forall x, j :: 1 <= x <= n && 0 <= j < |adj[x]| ==> Le(D[adj[x][j].node], Add(D[x], adj[x][j].weight))
  }

  /** With non-negative weights the round-n values are such distances. */
  lemma DistancesOfBest(adj: AdjList, n: nat, s: int)
    requires HeadsIn(adj, n) && NonNegative(adj) && 1 <= s <= n
    ensures Distances(adj, n, s, Best(adj, n, s, n))
  {
    NonNegativeShortest(adj, n, s);
    var D := Best(adj, n, s, n);
    forall x, j | 1 <= x <= n && 0 <= j < |adj[x]|
      ensures Le(D[adj[x][j].node], Add(D[x], adj[x][j].weight))
    {
      RoundBounds(adj, n, D, adj[x][j].node);
      assert IsArc(adj, n, Arc(x, adj[x][j].node, adj[x][j].weight));
    }
  }

  /** A key proposed from a node whose value is at least its capped distance is at least the head's capped distance. */
  lemma ProposalBound(dx: Dist, dy: Dist, w: int, p: int)
    requires w >= 0 && Le(dy, Add(dx, w)) && p >= Cap(dx)
    ensures p + w >= Cap(dy)
  {
  }

  /** The key of the node the repaired loop extracts (a least key) is its exact capped distance. */
  lemma ExtractedIsExact(adj: AdjList, n: nat, s: int, D: seq<Dist>, live: map<int, int>, m: seq<bool>, p: seq<int>, u: int)
    requires HeadsIn(adj, n) && NonNegative(adj) && 1 <= s <= n && |m| == n + 1 && |p| == n + 1
    requires Distances(adj, n, s, D)
    requires forall v :: v in live <==> 1 <= v <= n && !m[v]
    requires u in live && forall v :: v in live ==> live[u] <= live[v]
    requires forall v :: v in live ==> Cap(D[v]) <= live[v] <= INF
    requires forall x :: 1 <= x <= n && m[x] ==> p[x] == Cap(D[x])
    requires forall x, j :: 1 <= x <= n && 0 <= j < |adj[x]| && m[x] && !m[adj[x][j].node] ==>
               live[adj[x][j].node] <= p[x] + adj[x][j].weight
    requires !m[s] ==> live[s] == 0
    ensures live[u] == Cap(D[u])
  {
    if D[u].Fin? && D[u].d < INF {
      var W: seq<Arc> :| IsWalk(adj, n, W, s, u) && Weight(W) == D[u].d;
      WeightNonNegative(adj, n, W, s, u);
      if m[s] {
        var y := ExitBound(adj, n, s, D, live, m, p, u, W);
      }
    }
  }

  /** A walk from the marked source to an unmarked node leaves the marked set along a relaxed arc,
      so some key in the heap is at most the walk's weight. */
  lemma ExitBound(adj: AdjList, n: nat, s: int, D: seq<Dist>, live: map<int, int>, m: seq<bool>, p: seq<int>, u: int, W: seq<Arc>)
      returns (y: int)
    requires HeadsIn(adj, n) && NonNegative(adj) && |m| == n + 1 && |p| == n + 1
    requires IsShortest(adj, n, s, D)
    requires forall v :: v in live <==> 1 <= v <= n && !m[v]
    requires forall x :: 1 <= x <= n && m[x] ==> p[x] == Cap(D[x])
    requires forall x, j :: 1 <= x <= n && 0 <= j < |adj[x]| && m[x] && !m[adj[x][j].node] ==>
               live[adj[x][j].node] <= p[x] + adj[x][j].weight
    requires IsWalk(adj, n, W, s, u) && m[s] && !m[u]
    ensures y in live && live[y] <= Weight(W)
  {
    var i := ExitArc(adj, n, W, s, u, m);
    var x := W[i].from;
    y := W[i].to;
    PrefixThroughArc(adj, n, W, s, u, i);
    assert Le(D[x], Fin(Weight(W[..i])));
    var j :| 0 <= j < |adj[x]| && adj[x][j] == Edge(y, W[i].w);
    assert live[y] <= p[x] + W[i].w;
  }

  /** With non-negative weights, the part of a walk before an arc weighs at most the whole minus that arc. */
  lemma PrefixThroughArc(adj: AdjList, n: nat, W: seq<Arc>, s: int, t: int, i: nat)
    requires HeadsIn(adj, n) && NonNegative(adj) && IsWalk(adj, n, W, s, t) && i < |W|
    ensures IsWalk(adj, n, W[..i], s, W[i].from)
    ensures 0 <= Weight(W[..i]) && Weight(W[..i]) + W[i].w <= Weight(W)
  {
    PrefixWalk(adj, n, W, s, t, i);
    assert VertAt(W, s, i) == W[i].from;
    WeightNonNegative(adj, n, W[..i], s, W[i].from);
    ArcWithinWeight(adj, n, W, s, t, i);
  }

  lemma ArcWithinWeight(adj: AdjList, n: nat, W: seq<Arc>, s: int, t: int, i: nat)
    requires HeadsIn(adj, n) && NonNegative(adj) && IsWalk(adj, n, W, s, t) && i < |W|
    ensures Weight(W[..i]) + W[i].w <= Weight(W)
  {
    SuffixWalk(adj, n, W, s, t, i + 1);
    WeightNonNegative(adj, n, W[i + 1..], W[i].to, t);
    WeightAroundArc(W, i);
  }

  /** A walk's weight is the weight before arc i, plus that arc, plus the weight after it. */
  lemma WeightAroundArc(W: seq<Arc>, i: nat)
    requires i < |W|
    ensures Weight(W) == Weight(W[..i]) + W[i].w + Weight(W[i + 1..])
  {
    assert W[..i + 1][..i] == W[..i];
    assert W == W[..i + 1] + W[i + 1..];
    WeightConcat(W[..i + 1], W[i + 1..]);
  }

  /** The overflow: a node extracted at Integer.MAX_VALUE (one the source does not reach) offers every
      positive-weight edge's head a negative key, which decreaseKey accepts. */
  lemma UnreachableOfferWraps(w: int)
    requires 1 <= w <= INF
    ensures JavaInt.Plus(w, INF) == JavaInt.INT_MIN + w - 1
    ensures JavaInt.Plus(w, INF) < 0
  {
    assert w + INF - JavaInt.INT_MIN == JavaInt.MODULUS + (w - 1);
  }

  /** The heap keys after: the same nodes, and no key raised. */
  ghost predicate Lowered(before: map<int, int>, after: map<int, int>) {
    (forall v :: v in after <==> v in before) &&
    (forall v :: v in after ==> after[v] <= before[v])
  }

  /** Heap keys after relaxing the edges es of a node whose recorded value is d: the same nodes, no key
      raised, every changed key one of the proposals, and every unmarked head at most its proposal. */
  ghost predicate RelaxedBy(es: seq<Edge>, d: int, m: seq<bool>, before: map<int, int>, after: map<int, int>) {
    RelaxedUpTo(es, |es|, d, m, before, after)
  }

  /** The same for the first j edges of es. */
  ghost predicate RelaxedUpTo(es: seq<Edge>, j: int, d: int, m: seq<bool>, before: map<int, int>, after: map<int, int>) {
    (forall v :: v in after <==> v in before) &&
    (forall v :: v in after ==> after[v] <= before[v]) &&
    (forall v :: v in after && after[v] != before[v] ==> exists e :: e in es && e.node == v && after[v] == e.weight + d) &&
    (forall i :: 0 <= i < j && i < |es| && 0 <= es[i].node < |m| && !m[es[i].node] ==>
       es[i].node in after && after[es[i].node] <= es[i].weight + d)
  }

  /** Offering edge j (decreaseKey when the head is unmarked and the offer is smaller) extends the relaxed prefix. */
  lemma RelaxedUpToStep(es: seq<Edge>, j: int, d: int, m: seq<bool>, before: map<int, int>, mid: map<int, int>, after: map<int, int>)
    requires 0 <= j < |es| && RelaxedUpTo(es, j, d, m, before, mid)
    requires 0 <= es[j].node < |m| && (!m[es[j].node] ==> es[j].node in mid)
    requires !m[es[j].node] && es[j].weight + d < mid[es[j].node] ==> after == mid[es[j].node := es[j].weight + d]
    requires !(!m[es[j].node] && es[j].weight + d < mid[es[j].node]) ==> after == mid
    ensures RelaxedUpTo(es, j + 1, d, m, before, after)
  {
    var e := es[j];
    forall v | v in after && after[v] != before[v]
      ensures exists e' :: e' in es && e'.node == v && after[v] == e'.weight + d
    {
      if v == e.node && after != mid {
        assert e in es;
      }
    }
  }

  /** The bookkeeping of the main loop: the heap holds exactly the unmarked nodes 1..n, keys never exceed
      Integer.MAX_VALUE, paths is -1 until a node is marked, order lists the marked nodes once each, and
      until the first extraction the source alone has key 0. */
  ghost predicate Tracked(n: nat, s: int, live: map<int, int>, m: seq<bool>, p: seq<int>, order: seq<int>) {
    |m| == n + 1 && |p| == n + 1 && 1 <= s <= n &&
    (forall v :: v in live <==> 1 <= v <= n && !m[v]) &&
    (forall v :: v in live ==> live[v] <= INF) &&
    !m[0] && p[0] == -1 &&
    (forall v :: 1 <= v <= n ==> if m[v] then p[v] <= INF else p[v] == -1) &&
    (forall i :: 0 <= i < |order| ==> 1 <= order[i] <= n && m[order[i]]) &&
    (forall v :: 1 <= v <= n && m[v] ==> v in order) &&
    (forall i, j :: 0 <= i < j < |order| ==> order[i] != order[j]) &&
    (|order| == 0 ==> s in live && live[s] == 0 && forall v :: v in live && v != s ==> live[v] == INF) &&
    (|order| > 0 ==> m[s] && p[s] == 0)
  }

  /** No key and no recorded value is below the capped shortest distance. */
  ghost predicate LowerBounds(D: seq<Dist>, n: nat, live: map<int, int>, m: seq<bool>, p: seq<int>)
    requires |D| == n + 1 && |m| == n + 1 && |p| == n + 1
  {
    (forall v :: v in live && 0 <= v <= n ==> Cap(D[v]) <= live[v]) &&
    (forall v :: 1 <= v <= n && m[v] ==> Cap(D[v]) <= p[v])
  }

  /** Every edge out of a marked node into an unmarked one has been relaxed. */
  ghost predicate ArcsRelaxed(adj: AdjList, n: nat, live: map<int, int>, m: seq<bool>, p: seq<int>)
    requires HeadsIn(adj, n) && |m| == n + 1 && |p| == n + 1
    requires forall v :: v in live <==> 1 <= v <= n && !m[v]
  {
    forall x, j :: 1 <= x <= n && 0 <= j < |adj[x]| && m[x] && !m[adj[x][j].node] ==>
      live[adj[x][j].node] <= p[x] + adj[x][j].weight
  }

  /** Marked nodes hold their exact capped distances. */
  ghost predicate MarkedExact(n: nat, D: seq<Dist>, m: seq<bool>, p: seq<int>)
    requires |D| == n + 1 && |m| == n + 1 && |p| == n + 1
  {
    forall x :: 1 <= x <= n && m[x] ==> p[x] == Cap(D[x])
  }

  /** Values are recorded in non-decreasing order, and none exceeds a key still in the heap. */
  ghost predicate Ordered(live: map<int, int>, p: seq<int>, order: seq<int>)
    requires forall i :: 0 <= i < |order| ==> 0 <= order[i] < |p|
  {
    (forall i, j :: 0 <= i < j < |order| ==> p[order[i]] <= p[order[j]]) &&
    (forall i, v :: 0 <= i < |order| && v in live ==> p[order[i]] <= live[v])
  }

  /** What the corrected loop adds to the bookkeeping. */
  ghost predicate Exact(adj: AdjList, n: nat, s: int, D: seq<Dist>, live: map<int, int>, m: seq<bool>, p: seq<int>, order: seq<int>)
    requires HeadsIn(adj, n) && |D| == n + 1 && Tracked(n, s, live, m, p, order)
  {
    ArcsRelaxed(adj, n, live, m, p) && MarkedExact(n, D, m, p) && Ordered(live, p, order)
  }

  /** One iteration keeps the bookkeeping. */
  lemma TrackedStep(n: nat, s: int, live: map<int, int>, m: seq<bool>, p: seq<int>, order: seq<int>,
                    u: int, live2: map<int, int>)
    requires Tracked(n, s, live, m, p, order) && u in live && (|order| == 0 ==> u == s)
    requires forall v :: v in live2 <==> v in live - {u}
    requires forall v :: v in live2 ==> live2[v] <= (live - {u})[v]
    ensures Tracked(n, s, live2, m[u := true], p[u := live[u]], order + [u])
  {
    var order2 := order + [u];
    var m2 := m[u := true];
    forall v | 1 <= v <= n && m2[v]
      ensures v in order2
    {
      if v != u {
        assert v in order;
      }
    }
  }

  /** One iteration keeps the lower bounds, whichever node was extracted. */
  lemma LowerStep(adj: AdjList, n: nat, s: int, D: seq<Dist>, live: map<int, int>, m: seq<bool>, p: seq<int>, u: int, live2: map<int, int>)
    requires HeadsIn(adj, n) && NonNegative(adj) && Distances(adj, n, s, D) && |m| == n + 1 && |p| == n + 1
    requires 1 <= u <= n && u in live && LowerBounds(D, n, live, m, p)
    requires RelaxedBy(adj[u], live[u], m[u := true], live - {u}, live2)
    ensures LowerBounds(D, n, live2, m[u := true], p[u := live[u]])
  {
    forall v | v in live2 && 0 <= v <= n
      ensures Cap(D[v]) <= live2[v]
    {
      if live2[v] != (live - {u})[v] {
        var e :| e in adj[u] && e.node == v && live2[v] == e.weight + live[u];
        var j :| 0 <= j < |adj[u]| && adj[u][j] == e;
        ProposalBound(D[u], D[v], e.weight, live[u]);
      }
    }
  }

  /** One iteration of the corrected loop, which extracts a least key, keeps Exact. */
  lemma ExactStep(adj: AdjList, n: nat, s: int, D: seq<Dist>, live: map<int, int>, m: seq<bool>, p: seq<int>, order: seq<int>,
                  u: int, live2: map<int, int>)
    requires HeadsIn(adj, n) && NonNegative(adj) && Distances(adj, n, s, D)
    requires Tracked(n, s, live, m, p, order) && LowerBounds(D, n, live, m, p) && Exact(adj, n, s, D, live, m, p, order)
    requires u in live && (|order| == 0 ==> u == s) && forall v :: v in live ==> live[u] <= live[v]
    requires forall v :: v in live2 <==> v in live - {u}
    requires RelaxedBy(adj[u], live[u], m[u := true], live - {u}, live2)
    ensures Tracked(n, s, live2, m[u := true], p[u := live[u]], order + [u])
    ensures Exact(adj, n, s, D, live2, m[u := true], p[u := live[u]], order + [u])
  {
    ExtractedIsExact(adj, n, s, D, live, m, p, u);
    TrackedStep(n, s, live, m, p, order, u, live2);
    RelaxedStep(adj, n, live, m, p, u, live2);
    OrderedStep(adj[u], live, m[u := true], p, order, u, live2);
  }

  /** Relaxing the extracted node's edges keeps every edge out of the marked set relaxed. */
  lemma RelaxedStep(adj: AdjList, n: nat, live: map<int, int>, m: seq<bool>, p: seq<int>, u: int, live2: map<int, int>)
    requires HeadsIn(adj, n) && |m| == n + 1 && |p| == n + 1
    requires forall v :: v in live <==> 1 <= v <= n && !m[v]
    requires ArcsRelaxed(adj, n, live, m, p) && u in live
    requires forall v :: v in live2 <==> 1 <= v <= n && !m[u := true][v]
    requires RelaxedBy(adj[u], live[u], m[u := true], live - {u}, live2)
    ensures ArcsRelaxed(adj, n, live2, m[u := true], p[u := live[u]])
  {
    var m2, p2 := m[u := true], p[u := live[u]];
    forall x, j | 1 <= x <= n && 0 <= j < |adj[x]| && m2[x] && !m2[adj[x][j].node]
      ensures live2[adj[x][j].node] <= p2[x] + adj[x][j].weight
    {
      if x != u {
        assert live[adj[x][j].node] <= p[x] + adj[x][j].weight;
      }
    }
  }

  /** Recording a least key and relaxing non-negative edges from it keeps the order monotone and below the heap. */
  lemma OrderedStep(es: seq<Edge>, live: map<int, int>, m: seq<bool>, p: seq<int>, order: seq<int>, u: int, live2: map<int, int>)
    requires forall e :: e in es ==> e.weight >= 0
    requires 0 <= u < |p| && forall i :: 0 <= i < |order| ==> 0 <= order[i] < |p| && order[i] != u
    requires Ordered(live, p, order)
    requires u in live && forall v :: v in live ==> live[u] <= live[v]
    requires RelaxedBy(es, live[u], m, live - {u}, live2)
    ensures Ordered(live2, p[u := live[u]], order + [u])
  {
    var k := live[u];
    var p2, order2 := p[u := k], order + [u];
    forall i, v | 0 <= i < |order2| && v in live2
      ensures p2[order2[i]] <= live2[v]
    {
      if live2[v] != (live - {u})[v] {
        var e :| e in es && e.node == v && live2[v] == e.weight + k;
      }
      if i < |order| {
        assert p2[order2[i]] == p[order[i]];
      }
    }
    forall i, j | 0 <= i < j < |order2|
      ensures p2[order2[i]] <= p2[order2[j]]
    {
      if j < |order| {
        assert p2[order2[i]] == p[order[i]] && p2[order2[j]] == p[order[j]];
      } else {
        assert p2[order2[i]] == p[order[i]];
      }
    }
  }

  /** Before the first extraction the source alone has key 0, so the first least key is the source's. */
  lemma FirstIsSource(n: nat, s: int, live: map<int, int>, m: seq<bool>, p: seq<int>, order: seq<int>, u: int)
    requires Tracked(n, s, live, m, p, order) && |order| == 0
    requires u in live && forall v :: v in live ==> live[u] <= live[v]
    ensures u == s
  {
    assert live[u] <= live[s];
  }

  /** Once the heap is empty every node 1..n is marked, and order lists each exactly once. */
  lemma TrackedAtEnd(n: nat, s: int, live: map<int, int>, m: seq<bool>, p: seq<int>, order: seq<int>)
    requires Tracked(n, s, live, m, p, order) && live == map[]
    ensures p[0] == -1 && p[s] == 0
    ensures forall v :: 1 <= v <= n ==> m[v] && p[v] <= INF
    ensures forall v :: v in order <==> 1 <= v <= n
  {
    assert s !in live;
  }

  /** Once the heap is empty the corrected loop has recorded every exact capped distance, in order. */
  lemma ExactAtEnd(adj: AdjList, n: nat, s: int, D: seq<Dist>, live: map<int, int>, m: seq<bool>, p: seq<int>, order: seq<int>)
    requires HeadsIn(adj, n) && |D| == n + 1 && Tracked(n, s, live, m, p, order) && live == map[]
    requires Exact(adj, n, s, D, live, m, p, order)
    ensures forall v :: 1 <= v <= n ==> p[v] == Cap(D[v])
    ensures forall i, j :: 0 <= i < j < |order| ==> p[order[i]] <= p[order[j]]
  {
    TrackedAtEnd(n, s, live, m, p, order);
  }


  class Dijkstra {
    const nodes: nat
    const graph: AdjList
    const heap: CustomHeap
    const marked: array<bool>
    const paths: array<int>

    ghost predicate Shape()
      reads this
    {
      HeadsIn(graph, nodes) && marked.Length == nodes + 1 && paths.Length == nodes + 1
    }

    /** The state the constructor leaves: every node in the heap at Integer.MAX_VALUE, nothing marked, paths -1. */
    ghost predicate Fresh()
      reads this, heap, marked, paths
    {
      Shape() && heap.Valid() && FullHeap(heap.keys) &&
      (forall v :: v in heap.Contents() <==> 1 <= v <= nodes) &&
      (forall v :: v in heap.Contents() ==> heap.Contents()[v] == INF) &&
      (forall v :: 0 <= v <= nodes ==> !marked[v] && paths[v] == -1)
    }

    /** The in-memory part of the constructor; the graph is given rather than read from a file. */
    constructor (nodes: nat, graph: AdjList)
      requires HeadsIn(graph, nodes)
      ensures this.nodes == nodes && this.graph == graph
      ensures Fresh() && fresh(heap) && fresh(marked) && fresh(paths)
    {
      var p := new int[nodes + 1];
      var i := 0;
      while i <= nodes
        invariant 0 <= i <= nodes + 1
        invariant forall v :: 0 <= v < i ==> p[v] == -1
      {
        p[i] := -1;
        i := i + 1;
      }
      this.nodes := nodes;
      this.graph := graph;
      heap := new CustomHeap(nodes);
      marked := new bool[nodes + 1](_ => false);
      paths := p;
    }

    /** The body of that loop for one edge with the sum taken exactly: an unmarked head gets decreaseKey with the offer. */
    method OfferRepaired(edges: seq<Edge>, j: int, d: int, ghost before: map<int, int>)
      requires Shape() && heap.Valid() && 0 <= j < |edges| && 1 <= edges[j].node <= nodes
      requires !marked[edges[j].node] ==> edges[j].node in heap.Contents()
      requires RelaxedUpTo(edges, j, d, marked[..], before, heap.Contents())
      modifies heap
      ensures heap.Valid()
      ensures RelaxedUpTo(edges, j + 1, d, marked[..], before, heap.Contents())
      ensures old(FullHeap(heap.keys)) ==> FullHeap(heap.keys)
      ensures old(AlmostHeap(heap.keys)) ==> AlmostHeap(heap.keys)
    {
      ghost var mid := heap.Contents();
      var node := edges[j].node;
      if !marked[node] {
        heap.DecreaseKey(node, edges[j].weight + d);
      }
      RelaxedUpToStep(edges, j, d, marked[..], before, mid, heap.Contents());
    }

    /** The loop over graph.getEdgeList(u) with exact sums: every unmarked head is offered weight + d. */
    method RelaxEdgesRepaired(u: int, d: int)
      requires Shape() && 1 <= u <= nodes && heap.Valid()
      requires forall v :: 1 <= v <= nodes && !marked[v] ==> v in heap.Contents()
      modifies heap
      ensures heap.Valid()
      ensures RelaxedBy(graph[u], d, marked[..], old(heap.Contents()), heap.Contents())
      ensures old(FullHeap(heap.keys)) ==> FullHeap(heap.keys)
      ensures old(AlmostHeap(heap.keys)) ==> AlmostHeap(heap.keys)
    {
      var edges := graph[u];
      ghost var before := heap.Contents();
      var j := 0;
      while j < |edges|
        invariant 0 <= j <= |edges| && heap.Valid()
        invariant RelaxedUpTo(edges, j, d, marked[..], before, heap.Contents())
        invariant old(FullHeap(heap.keys)) ==> FullHeap(heap.keys)
        invariant old(AlmostHeap(heap.keys)) ==> AlmostHeap(heap.keys)
      {
        assert 1 <= edges[j].node <= nodes;
        OfferRepaired(edges, j, d, before);
        j := j + 1;
      }
    }

    /** The body of the edge loop as written for one edge: an unmarked head gets decreaseKey with
        edge.weight() + currentDistance as a Java int, which wraps when currentDistance is Integer.MAX_VALUE. */
    method Offer(edges: seq<Edge>, j: int, d: int)
      requires Shape() && heap.Valid() && 0 <= j < |edges| && 1 <= edges[j].node <= nodes
      requires !marked[edges[j].node] ==> edges[j].node in heap.Contents()
      modifies heap
      ensures heap.Valid()
      ensures var v, o := edges[j].node, JavaInt.Plus(edges[j].weight, d);
              heap.Contents() == if !marked[v] && o < old(heap.Contents())[v] then old(heap.Contents())[v := o] else old(heap.Contents())
      ensures old(AlmostHeap(heap.keys)) ==> AlmostHeap(heap.keys)
    {
      var node := edges[j].node;
      if !marked[node] {
        heap.DecreaseKey(node, JavaInt.Plus(edges[j].weight, d));
      }
    }

    /** The loop over graph.getEdgeList(u) as written: the heap keeps its nodes, no key rises, and every key stays a Java int. */
    method RelaxEdges(u: int, d: int)
      requires Shape() && 1 <= u <= nodes && heap.Valid()
      requires forall v :: 1 <= v <= nodes && !marked[v] ==> v in heap.Contents()
      modifies heap
      ensures heap.Valid()
      ensures Lowered(old(heap.Contents()), heap.Contents())
      ensures (forall v :: v in old(heap.Contents()) ==> JavaInt.InRange(old(heap.Contents())[v])) ==>
                forall v :: v in heap.Contents() ==> JavaInt.InRange(heap.Contents()[v])
      ensures old(AlmostHeap(heap.keys)) ==> AlmostHeap(heap.keys)
    {
      var edges := graph[u];
      ghost var before := heap.Contents();
      ghost var ints := forall v :: v in before ==> JavaInt.InRange(before[v]);
      var j := 0;
      while j < |edges|
        invariant 0 <= j <= |edges| && heap.Valid()
        invariant Lowered(before, heap.Contents())
        invariant ints ==> forall v :: v in heap.Contents() ==> JavaInt.InRange(heap.Contents()[v])
        invariant old(AlmostHeap(heap.keys)) ==> AlmostHeap(heap.keys)
      {
        assert 1 <= edges[j].node <= nodes;
        Offer(edges, j, d);
        j := j + 1;
      }
    }

    /** One pass of the loop on the heap as written: take the slot-1 node, record its key in paths, mark
        it and relax its edges. */
    method Visit() returns (node: int, d: int)
      requires Shape() && heap.Valid() && |heap.keys| >= 2 && AlmostHeap(heap.keys)
      requires forall v :: v in heap.Contents() <==> 1 <= v <= nodes && !marked[v]
      modifies heap, marked, paths
      ensures heap.Valid() && AlmostHeap(heap.keys)
      ensures node in old(heap.Contents()) && d == old(heap.Contents())[node]
      ensures old(FullHeap(heap.keys)) ==> forall v :: v in old(heap.Contents()) ==> d <= old(heap.Contents())[v]
      ensures marked[..] == old(marked[..])[node := true] && paths[..] == old(paths[..])[node := d]
      ensures Lowered(old(heap.Contents()) - {node}, heap.Contents())
      ensures (forall v :: v in old(heap.Contents()) ==> JavaInt.InRange(old(heap.Contents())[v])) ==>
                forall v :: v in heap.Contents() ==> JavaInt.InRange(heap.Contents()[v])
    {
      node := heap.PeekMinNode();
      d := heap.ExtractMinKey();
      paths[node] := d;
      marked[node] := true;
      RelaxEdges(node, d);
    }

    /** The same pass on the corrected extraction: the node taken always has a least key. */
    method VisitRepaired() returns (node: int, d: int)
      requires Shape() && heap.Valid() && |heap.keys| >= 2 && FullHeap(heap.keys)
      requires forall v :: v in heap.Contents() <==> 1 <= v <= nodes && !marked[v]
      modifies heap, marked, paths
      ensures heap.Valid() && FullHeap(heap.keys)
      ensures node in old(heap.Contents()) && d == old(heap.Contents())[node]
      ensures forall v :: v in old(heap.Contents()) ==> d <= old(heap.Contents())[v]
      ensures marked[..] == old(marked[..])[node := true] && paths[..] == old(paths[..])[node := d]
      ensures RelaxedBy(graph[node], d, marked[..], old(heap.Contents()) - {node}, heap.Contents())
    {
      node := heap.PeekMinNode();
      d := heap.ExtractMinKeyRepaired();
      paths[node] := d;
      marked[node] := true;
      RelaxEdgesRepaired(node, d);
    }

    /** What holds between iterations of computeShortestPaths on the heap as written: the bookkeeping,
        and every key and every entry of paths a Java int. */
    ghost predicate Loop(source: int, order: seq<int>)
      reads this, heap, marked, paths
    {
      Shape() && heap.Valid() && AlmostHeap(heap.keys) &&
      Tracked(nodes, source, heap.Contents(), marked[..], paths[..], order) &&
      (|order| == 0 ==> FullHeap(heap.keys)) &&
      (forall v :: v in heap.Contents() ==> JavaInt.InRange(heap.Contents()[v])) &&
      (forall v :: 0 <= v <= nodes ==> JavaInt.InRange(paths[v]))
    }

    /** What holds between iterations on the corrected extraction. */
    ghost predicate LoopRepaired(source: int, D: seq<Dist>, order: seq<int>)
      reads this, heap, marked, paths
    {
      Shape() && heap.Valid() && FullHeap(heap.keys) && |D| == nodes + 1 &&
      Tracked(nodes, source, heap.Contents(), marked[..], paths[..], order) &&
      (NonNegative(graph) ==> Distances(graph, nodes, source, D) && LowerBounds(D, nodes, heap.Contents(), marked[..], paths[..]) &&
                              Exact(graph, nodes, source, D, heap.Contents(), marked[..], paths[..], order))
    }

    /** The state after heap.decreaseKey(sourceNode, 0) on the fresh state. */
    ghost predicate Started(source: int)
      reads this, heap, marked, paths
    {
      Shape() && heap.Valid() && FullHeap(heap.keys) && 1 <= source <= nodes &&
      (forall v :: v in heap.Contents() <==> 1 <= v <= nodes) &&
      (forall v :: v in heap.Contents() ==> heap.Contents()[v] == if v == source then 0 else INF) &&
      marked[..] == seq(nodes + 1, _ => false) &&
      (forall v :: 0 <= v <= nodes ==> paths[v] == -1)
    }

    /** Lowering the source to 0 in the fresh state. */
    method Start(source: int)
      requires Fresh() && 1 <= source <= nodes
      modifies heap
      ensures Started(source)
    {
      ghost var c0 := heap.Contents();
      heap.DecreaseKey(source, 0);
      assert heap.Contents() == c0[source := 0];
      assert marked[..] == seq(nodes + 1, _ => false);
    }

    /** Lowering the source to 0, as the corrected loop starts. */
    method StartRepaired(source: int, ghost D: seq<Dist>)
      requires Fresh() && 1 <= source <= nodes && |D| == nodes + 1
      requires NonNegative(graph) ==> Distances(graph, nodes, source, D)
      modifies heap
      ensures LoopRepaired(source, D, [])
    {
      Start(source);
      StartLoopRepaired(source, D);
    }

    /** The started state begins the loop as written. */
    lemma StartLoop(source: int)
      requires Started(source)
      ensures Loop(source, [])
    {
    }

    /** The started state begins the corrected loop, D being the shortest distances when the weights are non-negative. */
    lemma StartLoopRepaired(source: int, D: seq<Dist>)
      requires Started(source) && |D| == nodes + 1
      requires NonNegative(graph) ==> Distances(graph, nodes, source, D)
      ensures LoopRepaired(source, D, [])
    {
      if NonNegative(graph) {
        forall v | v in heap.Contents() && 0 <= v <= nodes
          ensures Cap(D[v]) <= heap.Contents()[v]
        {
          if v == source {
            assert D[v] == Fin(0);
          }
        }
      }
    }

    /** One iteration on the heap as written. */
    method Step(source: int, ghost order: seq<int>) returns (ghost order2: seq<int>)
      requires Loop(source, order) && |heap.keys| >= 2
      modifies heap, marked, paths
      ensures Loop(source, order2) && |order2| == |order| + 1 && |order2| <= nodes
    {
      ghost var live, m0, p0 := heap.Contents(), marked[..], paths[..];
      var node, currentDistance := Visit();
      assert JavaInt.InRange(currentDistance);
      forall v | 0 <= v <= nodes ensures JavaInt.InRange(paths[v]) {
        assert paths[v] == p0[node := currentDistance][v];
      }
      order2 := order + [node];
      if |order| == 0 {
        FirstIsSource(nodes, source, live, m0, p0, order, node);
      }
      TrackedStep(nodes, source, live, m0, p0, order, node, heap.Contents());
      DistinctBound(order2, nodes);
    }

    /** One iteration on the corrected extraction. */
    method StepRepaired(source: int, ghost D: seq<Dist>, ghost order: seq<int>) returns (ghost order2: seq<int>)
      requires LoopRepaired(source, D, order) && |heap.keys| >= 2
      modifies heap, marked, paths
      ensures LoopRepaired(source, D, order2) && |order2| == |order| + 1 && |order2| <= nodes
    {
      ghost var live, m0, p0 := heap.Contents(), marked[..], paths[..];
      var node, currentDistance := VisitRepaired();
      order2 := order + [node];
      if |order| == 0 {
        FirstIsSource(nodes, source, live, m0, p0, order, node);
      }
      TrackedStep(nodes, source, live, m0, p0, order, node, heap.Contents());
      if NonNegative(graph) {
        LowerStep(graph, nodes, source, D, live, m0, p0, node, heap.Contents());
        ExactStep(graph, nodes, source, D, live, m0, p0, order, node, heap.Contents());
      }
      DistinctBound(order2, nodes);
    }

    /** The while loop of computeShortestPaths: iterate until the heap is empty. */
    method Run(source: int) returns (ghost order: seq<int>)
      requires Loop(source, [])
      modifies heap, marked, paths
      ensures Loop(source, order) && heap.Contents() == map[]
    {
      order := [];
      var empty := heap.IsEmpty();
      while !empty
        invariant Loop(source, order) && |order| <= nodes
        invariant empty <==> heap.Contents() == map[]
        decreases nodes - |order|
      {
        order := Step(source, order);
        empty := heap.IsEmpty();
      }
    }

    /** The while loop of computeShortestPaths (corrected extraction): iterate until the heap is empty. */
    method RunRepaired(source: int, ghost D: seq<Dist>) returns (ghost order: seq<int>)
      requires LoopRepaired(source, D, [])
      modifies heap, marked, paths
      ensures LoopRepaired(source, D, order) && heap.Contents() == map[]
    {
      order := [];
      var empty := heap.IsEmpty();
      while !empty
        invariant LoopRepaired(source, D, order) && |order| <= nodes
        invariant empty <==> heap.Contents() == map[]
        decreases nodes - |order|
      {
        order := StepRepaired(source, D, order);
        empty := heap.IsEmpty();
      }
    }

    /** computeShortestPaths on the heap as written. */
    method ComputeShortestPaths(source: int) returns (r: array<int>, ghost order: seq<int>)
      requires Fresh() && 1 <= source <= nodes
      modifies heap, marked, paths
      ensures r == paths && heap.Contents() == map[]
      ensures paths[0] == -1 && paths[source] == 0
      ensures forall v :: 1 <= v <= nodes ==> marked[v] && paths[v] <= INF
      ensures forall i :: 0 <= i < |order| ==> 1 <= order[i] <= nodes
      ensures forall v :: v in order <==> 1 <= v <= nodes
      ensures forall i, j :: 0 <= i < j < |order| ==> order[i] != order[j]
      ensures forall v :: 0 <= v <= nodes ==> JavaInt.InRange(paths[v])
    {
      Start(source);
      StartLoop(source);
      order := Run(source);
      TrackedAtEnd(nodes, source, heap.Contents(), marked[..], paths[..], order);
      r := paths;
    }

    /** computeShortestPaths on the corrected extraction: the exact capped distances. */
    method ComputeShortestPathsRepaired(source: int) returns (r: array<int>, ghost order: seq<int>)
      requires Fresh() && 1 <= source <= nodes
      modifies heap, marked, paths
      ensures r == paths && heap.Contents() == map[]
      ensures paths[0] == -1 && paths[source] == 0
      ensures forall v :: 1 <= v <= nodes ==> marked[v] && paths[v] <= INF
      ensures forall i :: 0 <= i < |order| ==> 1 <= order[i] <= nodes
      ensures forall v :: v in order <==> 1 <= v <= nodes
      ensures forall i, j :: 0 <= i < j < |order| ==> order[i] != order[j]
      ensures NonNegative(graph) ==> forall v :: 1 <= v <= nodes ==> paths[v] == Cap(Best(graph, nodes, source, nodes)[v])
      ensures NonNegative(graph) ==> forall i, j :: 0 <= i < j < |order| ==> paths[order[i]] <= paths[order[j]]
    {
      ghost var D := Best(graph, nodes, source, nodes);
      if NonNegative(graph) {
        DistancesOfBest(graph, nodes, source);
      }
      StartRepaired(source, D);
      order := RunRepaired(source, D);
      TrackedAtEnd(nodes, source, heap.Contents(), marked[..], paths[..], order);
      if NonNegative(graph) {
        ExactAtEnd(graph, nodes, source, D, heap.Contents(), marked[..], paths[..], order);
      }
      r := paths;
    }
  }
}
