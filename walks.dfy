/**
 * Weighted directed graphs on the vertices 1..n, stored as adjacency lists indexed
 * 0..n (slot 0 unused), walks through them, and the round-by-round relaxation
 * that Bellman-Ford performs and that Dijkstra and Johnson are measured against.
 *
 * Round k of the relaxation (Best(k)) is the least weight of a walk from the
 * source with at most k edges; once a round changes nothing, the values are the
 * shortest-walk distances; a change in round n happens exactly when a negative
 * cycle is reachable.
 */
module Walks {
  import JavaInt

  /** Integer.MAX_VALUE, the "no path known" sentinel of the Java code. */
  const INF: int := JavaInt.INT_MAX

  /** One entry of an adjacency list: the head of an edge and its weight. */
  datatype Edge = Edge(node: int, weight: int)

  type AdjList = seq<seq<Edge>>

  /** A distance, with an explicit infinity. */
  datatype Dist = Inf | Fin(d: int)

  /** An edge named by both endpoints, as it occurs on a walk. */
  datatype Arc = Arc(from: int, to: int, w: int)

  predicate Le(a: Dist, b: Dist) { b.Inf? || (a.Fin? && a.d <= b.d) }

  function Min(a: Dist, b: Dist): Dist { if Le(a, b) then a else b }

  function Add(a: Dist, w: int): Dist { if a.Inf? then Inf else Fin(a.d + w) }

  /** The Java int that a distance is stored as: infinity and anything at or above it become INF. */
  function Cap(a: Dist): int { if a.Fin? && a.d < INF then a.d else INF }

  /** Every head lies in 1..n and there is one list per vertex 0..n. */
  predicate HeadsIn(adj: AdjList, n: nat) {
    |adj| == n + 1 &&
    forall u, i :: 0 <= u < |adj| && 0 <= i < |adj[u]| ==> 1 <= adj[u][i].node <= n
  }

  predicate NonNegative(adj: AdjList) {
    forall u, i :: 0 <= u < |adj| && 0 <= i < |adj[u]| ==> adj[u][i].weight >= 0
  }

  predicate WeightsWithin(adj: AdjList, b: nat) {
    forall u, i :: 0 <= u < |adj| && 0 <= i < |adj[u]| ==> -(b as int) <= adj[u][i].weight <= b
  }

  // ---------------------------------------------------------------------------
  // One relaxation round, in the order Bellman-Ford visits the edges
  // ---------------------------------------------------------------------------

  predicate HeadsBelow(es: seq<Edge>, len: nat) {
    forall i :: 0 <= i < |es| ==> 0 <= es[i].node < len
  }

  function RelaxOne(next: seq<Dist>, du: Dist, e: Edge): seq<Dist>
    requires 0 <= e.node < |next|
  {
    next[e.node := Min(next[e.node], Add(du, e.weight))]
  }

  /** Relaxes the edges es, all leaving a tail whose previous-round distance is du. */
  function RelaxList(next: seq<Dist>, du: Dist, es: seq<Edge>): (r: seq<Dist>)
    requires HeadsBelow(es, |next|)
    ensures |r| == |next|
    decreases |es|
  {
    if es == [] then next
    else RelaxOne(RelaxList(next, du, es[..|es| - 1]), du, es[|es| - 1])
  }

  /** Relaxes the edge lists of the tails 1..j, reading tail distances from prev only. */
  function RelaxTails(adj: AdjList, n: nat, prev: seq<Dist>, j: nat): (r: seq<Dist>)
    requires HeadsIn(adj, n) && |prev| == n + 1 && j <= n
    ensures |r| == n + 1
  {
    if j == 0 then prev
    else
      assert HeadsBelow(adj[j], n + 1);
      RelaxList(RelaxTails(adj, n, prev, j - 1), prev[j], adj[j])
  }

  function Round(adj: AdjList, n: nat, prev: seq<Dist>): (r: seq<Dist>)
    requires HeadsIn(adj, n) && |prev| == n + 1
    ensures |r| == n + 1
  {
    RelaxTails(adj, n, prev, n)
  }

  function Init(n: nat, s: int): (r: seq<Dist>)
    ensures |r| == n + 1
  {
    seq(n + 1, v => if v == s then Fin(0) else Inf)
  }

  /** The distances after k rounds started from s. */
  function Best(adj: AdjList, n: nat, s: int, k: nat): (r: seq<Dist>)
    requires HeadsIn(adj, n)
    ensures |r| == n + 1
  {
    if k == 0 then Init(n, s) else Round(adj, n, Best(adj, n, s, k - 1))
  }

  // ---------------------------------------------------------------------------
  // Walks
  // ---------------------------------------------------------------------------

  predicate IsArc(adj: AdjList, n: nat, a: Arc)
    requires |adj| == n + 1
  {
    1 <= a.from <= n && Edge(a.to, a.w) in adj[a.from]
  }

  /** W is a walk from s to t along edges whose tails are among 1..n. */
  predicate IsWalk(adj: AdjList, n: nat, W: seq<Arc>, s: int, t: int)
    requires |adj| == n + 1
  {
    0 <= s <= n && 0 <= t <= n &&
    (forall i :: 0 <= i < |W| ==> IsArc(adj, n, W[i])) &&
    (|W| == 0 ==> s == t) &&
    (|W| > 0 ==> W[0].from == s && W[|W| - 1].to == t) &&
    (forall i :: 0 <= i < |W| - 1 ==> W[i].to == W[i + 1].from)
  }

  function Weight(W: seq<Arc>): int
  {
    if W == [] then 0 else Weight(W[..|W| - 1]) + W[|W| - 1].w
  }

  /** The vertex reached after the first i arcs of a walk from s. */
  function VertAt(W: seq<Arc>, s: int, i: nat): int
    requires i <= |W|
  {
    if i == 0 then s else W[i - 1].to
  }

  function Repeat(C: seq<Arc>, t: nat): seq<Arc>
  {
    if t == 0 then [] else Repeat(C, t - 1) + C
  }

  /** The shortest-walk distances from s: every walk is at least as heavy, and every finite value is attained. */
  ghost predicate IsShortest(adj: AdjList, n: nat, s: int, D: seq<Dist>)
    requires |adj| == n + 1
  {
    |D| == n + 1 &&
    (forall v, W :: IsWalk(adj, n, W, s, v) ==> Le(D[v], Fin(Weight(W)))) &&
    (forall v :: 0 <= v <= n && D[v].Fin? ==> exists W :: IsWalk(adj, n, W, s, v) && Weight(W) == D[v].d)
  }

  /** The head of an arc lies in 1..n. */
  lemma ArcHeadIn(adj: AdjList, n: nat, a: Arc)
    requires HeadsIn(adj, n) && IsArc(adj, n, a)
    ensures 1 <= a.to <= n
  {
    var j :| 0 <= j < |adj[a.from]| && adj[a.from][j] == Edge(a.to, a.w);
  }

  /** Some vertex reachable from s lies on a closed walk of negative weight. */
  ghost predicate NegativeCycleReachable(adj: AdjList, n: nat, s: int)
    requires |adj| == n + 1
  {
    exists W, C, x :: IsWalk(adj, n, W, s, x) && IsWalk(adj, n, C, x, x) && Weight(C) < 0
  }

  // ---------------------------------------------------------------------------
  // Lemmas about walks
  // ---------------------------------------------------------------------------

  lemma {:induction false} WeightConcat(A: seq<Arc>, B: seq<Arc>)
    ensures Weight(A + B) == Weight(A) + Weight(B)
    decreases |B|
  {
    if B == [] {
      assert A + B == A;
    } else {
      var B0 := B[..|B| - 1];
      assert (A + B)[..|A + B| - 1] == A + B0;
      WeightConcat(A, B0);
    }
  }

  lemma WalkExtend(adj: AdjList, n: nat, W: seq<Arc>, s: int, a: Arc)
    requires HeadsIn(adj, n) && IsArc(adj, n, a) && IsWalk(adj, n, W, s, a.from)
    ensures IsWalk(adj, n, W + [a], s, a.to) && Weight(W + [a]) == Weight(W) + a.w
  {
    var i :| 0 <= i < |adj[a.from]| && adj[a.from][i] == Edge(a.to, a.w);
    assert (W + [a])[..|W|] == W;
  }

  lemma WalkConcat(adj: AdjList, n: nat, A: seq<Arc>, B: seq<Arc>, s: int, x: int, t: int)
    requires |adj| == n + 1 && IsWalk(adj, n, A, s, x) && IsWalk(adj, n, B, x, t)
    ensures IsWalk(adj, n, A + B, s, t) && Weight(A + B) == Weight(A) + Weight(B)
  {
    WeightConcat(A, B);
    var AB := A + B;
    forall i | 0 <= i < |AB| - 1 ensures AB[i].to == AB[i + 1].from {
      if i < |A| - 1 {
      } else if i == |A| - 1 {
      } else {
        assert AB[i] == B[i - |A|] && AB[i + 1] == B[i + 1 - |A|];
      }
    }
  }

  lemma WalkSplit(adj: AdjList, n: nat, W: seq<Arc>, s: int, t: int, i: nat)
    requires HeadsIn(adj, n) && IsWalk(adj, n, W, s, t) && i <= |W|
    ensures IsWalk(adj, n, W[..i], s, VertAt(W, s, i))
    ensures IsWalk(adj, n, W[i..], VertAt(W, s, i), t)
    ensures Weight(W) == Weight(W[..i]) + Weight(W[i..])
  {
    PrefixWalk(adj, n, W, s, t, i);
    SuffixWalk(adj, n, W, s, t, i);
    assert W == W[..i] + W[i..];
    WeightConcat(W[..i], W[i..]);
  }

  lemma PrefixWalk(adj: AdjList, n: nat, W: seq<Arc>, s: int, t: int, i: nat)
    requires HeadsIn(adj, n) && IsWalk(adj, n, W, s, t) && i <= |W|
    ensures IsWalk(adj, n, W[..i], s, VertAt(W, s, i))
  {
    if i > 0 {
      ArcHeadIn(adj, n, W[i - 1]);
    }
  }

  lemma SuffixWalk(adj: AdjList, n: nat, W: seq<Arc>, s: int, t: int, i: nat)
    requires HeadsIn(adj, n) && IsWalk(adj, n, W, s, t) && i <= |W|
    ensures IsWalk(adj, n, W[i..], VertAt(W, s, i), t)
  {
    if i > 0 {
      ArcHeadIn(adj, n, W[i - 1]);
    }
  }

  /** The vertices met by a walk from s, in order, are all among 1..n when s is. */
  lemma VertsInRange(adj: AdjList, n: nat, W: seq<Arc>, s: int, t: int, i: nat)
    requires HeadsIn(adj, n) && IsWalk(adj, n, W, s, t) && 1 <= s <= n && i <= |W|
    ensures 1 <= VertAt(W, s, i) <= n
  {
    if i > 0 {
      var a := W[i - 1];
      assert IsArc(adj, n, a);
      var k :| 0 <= k < |adj[a.from]| && adj[a.from][k] == Edge(a.to, a.w);
    }
  }

  lemma {:induction false} RepeatWalk(adj: AdjList, n: nat, C: seq<Arc>, x: int, t: nat)
    requires |adj| == n + 1 && IsWalk(adj, n, C, x, x) && Weight(C) < 0
    ensures IsWalk(adj, n, Repeat(C, t), x, x) && Weight(Repeat(C, t)) <= -(t as int)
  {
    if t > 0 {
      RepeatWalk(adj, n, C, x, t - 1);
      WalkConcat(adj, n, Repeat(C, t - 1), C, x, x, x);
    }
  }

  lemma {:induction false} WeightNonNegative(adj: AdjList, n: nat, W: seq<Arc>, s: int, t: int)
    requires HeadsIn(adj, n) && NonNegative(adj) && IsWalk(adj, n, W, s, t)
    ensures Weight(W) >= 0
    decreases |W|
  {
    if W != [] {
      var a := W[|W| - 1];
      WalkSplit(adj, n, W, s, t, |W| - 1);
      WeightNonNegative(adj, n, W[..|W| - 1], s, VertAt(W, s, |W| - 1));
      assert IsArc(adj, n, a);
      var k :| 0 <= k < |adj[a.from]| && adj[a.from][k] == Edge(a.to, a.w);
    }
  }

  lemma {:induction false} WeightBounded(adj: AdjList, n: nat, W: seq<Arc>, s: int, t: int, b: nat)
    requires HeadsIn(adj, n) && WeightsWithin(adj, b) && IsWalk(adj, n, W, s, t)
    ensures -(|W| * b) <= Weight(W) <= |W| * b
    decreases |W|
  {
    if W != [] {
      var a := W[|W| - 1];
      WalkSplit(adj, n, W, s, t, |W| - 1);
      WeightBounded(adj, n, W[..|W| - 1], s, VertAt(W, s, |W| - 1), b);
      assert IsArc(adj, n, a);
      var k :| 0 <= k < |adj[a.from]| && adj[a.from][k] == Edge(a.to, a.w);
      assert |W| * b == (|W| - 1) * b + b;
    }
  }

  // ---------------------------------------------------------------------------
  // What one round does at a single vertex
  // ---------------------------------------------------------------------------

  lemma {:induction false} RelaxListBounds(next: seq<Dist>, du: Dist, es: seq<Edge>, v: int)
    requires HeadsBelow(es, |next|) && 0 <= v < |next|
    ensures Le(RelaxList(next, du, es)[v], next[v])
    ensures forall i :: 0 <= i < |es| && es[i].node == v ==> Le(RelaxList(next, du, es)[v], Add(du, es[i].weight))
    decreases |es|
  {
    if es != [] {
      var es0 := es[..|es| - 1];
      RelaxListBounds(next, du, es0, v);
      forall i | 0 <= i < |es| - 1 ensures es[i] == es0[i] { }
    }
  }

  /** A value a list relaxation produces is either the old one or offered by one of the edges. */
  lemma {:induction false} RelaxListSource(next: seq<Dist>, du: Dist, es: seq<Edge>, v: int) returns (i: int)
    requires HeadsBelow(es, |next|) && 0 <= v < |next|
    ensures -1 <= i < |es|
    ensures i == -1 ==> RelaxList(next, du, es)[v] == next[v]
    ensures i >= 0 ==> es[i].node == v && RelaxList(next, du, es)[v] == Add(du, es[i].weight)
    decreases |es|
  {
    if es == [] {
      i := -1;
    } else {
      var es0 := es[..|es| - 1];
      var r0 := RelaxList(next, du, es0);
      var last := es[|es| - 1];
      if last.node == v && !Le(r0[v], Add(du, last.weight)) {
        i := |es| - 1;
      } else {
        i := RelaxListSource(next, du, es0, v);
      }
    }
  }

  lemma {:induction false} RelaxTailsBounds(adj: AdjList, n: nat, prev: seq<Dist>, j: nat, v: int)
    requires HeadsIn(adj, n) && |prev| == n + 1 && j <= n && 0 <= v <= n
    ensures Le(RelaxTails(adj, n, prev, j)[v], prev[v])
    ensures forall a :: IsArc(adj, n, a) && a.from <= j && a.to == v ==> Le(RelaxTails(adj, n, prev, j)[v], Add(prev[a.from], a.w))
  {
    if j > 0 {
      RelaxTailsBounds(adj, n, prev, j - 1, v);
      var r0 := RelaxTails(adj, n, prev, j - 1);
      assert HeadsBelow(adj[j], n + 1);
      RelaxListBounds(r0, prev[j], adj[j], v);
      forall a | IsArc(adj, n, a) && a.from <= j && a.to == v
        ensures Le(RelaxTails(adj, n, prev, j)[v], Add(prev[a.from], a.w))
      {
        if a.from == j {
          var k :| 0 <= k < |adj[j]| && adj[j][k] == Edge(a.to, a.w);
        }
      }
    }
  }

  lemma {:induction false} RelaxTailsSource(adj: AdjList, n: nat, prev: seq<Dist>, j: nat, v: int) returns (changed: bool, a: Arc)
    requires HeadsIn(adj, n) && |prev| == n + 1 && j <= n && 0 <= v <= n
    ensures !changed ==> RelaxTails(adj, n, prev, j)[v] == prev[v]
    ensures changed ==> IsArc(adj, n, a) && a.to == v && RelaxTails(adj, n, prev, j)[v] == Add(prev[a.from], a.w)
  {
    if j == 0 {
      changed, a := false, Arc(0, 0, 0);
    } else {
      var r0 := RelaxTails(adj, n, prev, j - 1);
      assert HeadsBelow(adj[j], n + 1);
      var i := RelaxListSource(r0, prev[j], adj[j], v);
      if i == -1 {
        changed, a := RelaxTailsSource(adj, n, prev, j - 1, v);
      } else {
        changed, a := true, Arc(j, v, adj[j][i].weight);
        assert adj[j][i] == Edge(a.to, a.w);
      }
    }
  }

  /** Round(prev)[v] lies below prev[v] and below every offer prev[u] + w along an edge u -> v. */
  lemma RoundBounds(adj: AdjList, n: nat, prev: seq<Dist>, v: int)
    requires HeadsIn(adj, n) && |prev| == n + 1 && 0 <= v <= n
    ensures Le(Round(adj, n, prev)[v], prev[v])
    ensures forall a :: IsArc(adj, n, a) && a.to == v ==> Le(Round(adj, n, prev)[v], Add(prev[a.from], a.w))
  {
    RelaxTailsBounds(adj, n, prev, n, v);
  }

  /** ... and it equals prev[v] or one of those offers. */
  lemma RoundSource(adj: AdjList, n: nat, prev: seq<Dist>, v: int) returns (changed: bool, a: Arc)
    requires HeadsIn(adj, n) && |prev| == n + 1 && 0 <= v <= n
    ensures !changed ==> Round(adj, n, prev)[v] == prev[v]
    ensures changed ==> IsArc(adj, n, a) && a.to == v && Round(adj, n, prev)[v] == Add(prev[a.from], a.w)
  {
    changed, a := RelaxTailsSource(adj, n, prev, n, v);
  }

  /** A round never raises a value. */
  lemma BestDecreasing(adj: AdjList, n: nat, s: int, k: nat, v: int)
    requires HeadsIn(adj, n) && 0 <= v <= n
    ensures Le(Best(adj, n, s, k + 1)[v], Best(adj, n, s, k)[v])
  {
    RoundBounds(adj, n, Best(adj, n, s, k), v);
  }

  lemma {:induction false} BestDecreasingFrom(adj: AdjList, n: nat, s: int, k: nat, m: nat, v: int)
    requires HeadsIn(adj, n) && 0 <= v <= n && k <= m
    ensures Le(Best(adj, n, s, m)[v], Best(adj, n, s, k)[v])
    decreases m - k
  {
    if k < m {
      BestDecreasingFrom(adj, n, s, k + 1, m, v);
      BestDecreasing(adj, n, s, k, v);
    }
  }

  // ---------------------------------------------------------------------------
  // Round k is the least weight of a walk with at most k edges
  // ---------------------------------------------------------------------------

  /** Every finite value of round k is the weight of a walk from s with at most k edges. */
  lemma {:induction false} BestWitness(adj: AdjList, n: nat, s: int, k: nat, v: int) returns (W: seq<Arc>)
    requires HeadsIn(adj, n) && 0 <= v <= n && Best(adj, n, s, k)[v].Fin?
    ensures IsWalk(adj, n, W, s, v) && |W| <= k && Weight(W) == Best(adj, n, s, k)[v].d
  {
    if k == 0 {
      W := [];
    } else {
      var prev := Best(adj, n, s, k - 1);
      var changed, a := RoundSource(adj, n, prev, v);
      if !changed {
        W := BestWitness(adj, n, s, k - 1, v);
      } else {
        var W0 := BestWitness(adj, n, s, k - 1, a.from);
        WalkExtend(adj, n, W0, s, a);
        W := W0 + [a];
      }
    }
  }

  /** Every walk from s with at most k edges weighs at least round k's value. */
  lemma {:induction false} BestLowerBound(adj: AdjList, n: nat, s: int, k: nat, W: seq<Arc>, v: int)
    requires HeadsIn(adj, n) && IsWalk(adj, n, W, s, v) && |W| <= k
    ensures Le(Best(adj, n, s, k)[v], Fin(Weight(W)))
  {
    if k == 0 {
    } else if W == [] {
      BestLowerBound(adj, n, s, k - 1, W, v);
      BestDecreasing(adj, n, s, k - 1, v);
    } else {
      var a := W[|W| - 1];
      WalkSplit(adj, n, W, s, v, |W| - 1);
      var W0 := W[..|W| - 1];
      assert VertAt(W, s, |W| - 1) == a.from;
      BestLowerBound(adj, n, s, k - 1, W0, a.from);
      RoundBounds(adj, n, Best(adj, n, s, k - 1), v);
      assert IsArc(adj, n, W[|W| - 1]);
    }
  }

  lemma {:induction false} StableForever(adj: AdjList, n: nat, s: int, k: nat, m: nat)
    requires HeadsIn(adj, n) && Best(adj, n, s, k + 1) == Best(adj, n, s, k) && k <= m
    ensures Best(adj, n, s, m) == Best(adj, n, s, k)
    decreases m - k
  {
    if m > k {
      StableForever(adj, n, s, k, m - 1);
    }
  }

  /** Once a round changes nothing, its values are the shortest-walk distances. */
  lemma StableIsShortest(adj: AdjList, n: nat, s: int, k: nat)
    requires HeadsIn(adj, n) && Best(adj, n, s, k + 1) == Best(adj, n, s, k)
    ensures IsShortest(adj, n, s, Best(adj, n, s, k))
  {
    var D := Best(adj, n, s, k);
    forall v, W | IsWalk(adj, n, W, s, v) ensures Le(D[v], Fin(Weight(W))) {
      var m := if |W| < k then k else |W|;
      StableForever(adj, n, s, k, m);
      BestLowerBound(adj, n, s, m, W, v);
    }
    forall v | 0 <= v <= n && D[v].Fin?
      ensures exists W :: IsWalk(adj, n, W, s, v) && Weight(W) == D[v].d
    {
      var W := BestWitness(adj, n, s, k, v);
    }
  }

  /** The finite values of round k are within k times the weight bound. */
  lemma BestBounded(adj: AdjList, n: nat, s: int, k: nat, b: nat, v: int)
    requires HeadsIn(adj, n) && WeightsWithin(adj, b) && 0 <= v <= n && Best(adj, n, s, k)[v].Fin?
    ensures -(k * b) <= Best(adj, n, s, k)[v].d <= k * b
  {
    var W := BestWitness(adj, n, s, k, v);
    WeightBounded(adj, n, W, s, v, b);
    assert |W| * b <= k * b by {
      assert (k - |W|) * b >= 0;
    }
  }

  // ---------------------------------------------------------------------------
  // Stability and negative cycles
  // ---------------------------------------------------------------------------

  /** n + 1 values drawn from 1..n cannot all be distinct. */
  lemma {:induction false} DistinctBound(xs: seq<int>, n: nat)
    requires forall k :: 0 <= k < |xs| ==> 1 <= xs[k] <= n
    requires forall i, j :: 0 <= i < j < |xs| ==> xs[i] != xs[j]
    ensures |xs| <= n
    decreases |xs|
  {
    if xs != [] {
      var x := xs[|xs| - 1];
      var rest := xs[..|xs| - 1];
      var squeezed := seq(|rest|, i requires 0 <= i < |rest| => if rest[i] > x then rest[i] - 1 else rest[i]);
      forall i, j | 0 <= i < j < |squeezed| ensures squeezed[i] != squeezed[j] {
        assert rest[i] != rest[j] && rest[i] != x && rest[j] != x;
      }
      forall i | 0 <= i < |squeezed| ensures 1 <= squeezed[i] <= n - 1 {
        assert rest[i] != x;
      }
      DistinctBound(squeezed, n - 1);
    }
  }

  lemma Pigeonhole(xs: seq<int>, n: nat) returns (i: nat, j: nat)
    requires |xs| > n
    requires forall k :: 0 <= k < |xs| ==> 1 <= xs[k] <= n
    ensures i < j < |xs| && xs[i] == xs[j]
  {
    if forall i, j :: 0 <= i < j < |xs| ==> xs[i] != xs[j] {
      DistinctBound(xs, n);
    }
    i, j :| 0 <= i < j < |xs| && xs[i] == xs[j];
  }

  /** A walk from s in 1..n with at least n edges repeats a vertex: it splits into A, a closed walk C, and B. */
  lemma CycleInLongWalk(adj: AdjList, n: nat, W: seq<Arc>, s: int, v: int) returns (A: seq<Arc>, C: seq<Arc>, B: seq<Arc>, x: int)
    requires HeadsIn(adj, n) && 1 <= s <= n && IsWalk(adj, n, W, s, v) && |W| >= n
    ensures IsWalk(adj, n, A, s, x) && IsWalk(adj, n, C, x, x) && IsWalk(adj, n, A + B, s, v)
    ensures |A + B| < |W| && Weight(W) == Weight(A + B) + Weight(C)
  {
    var verts := seq(n + 1, i requires 0 <= i <= n => VertAt(W, s, i));
    forall i | 0 <= i < |verts| ensures 1 <= verts[i] <= n {
      VertsInRange(adj, n, W, s, v, i);
    }
    var i, j := Pigeonhole(verts, n);
    x := VertAt(W, s, i);
    assert VertAt(W, s, j) == x;
    WalkSplit(adj, n, W, s, v, i);
    A := W[..i];
    var Rest := W[i..];
    WalkSplit(adj, n, Rest, x, v, j - i);
    C, B := Rest[..j - i], Rest[j - i..];
    assert VertAt(Rest, x, j - i) == x;
    WalkConcat(adj, n, A, B, s, x, v);
  }

  /** If round k + 1 (k + 1 >= n) still improves something, a negative cycle is reachable. */
  lemma UnstableWitness(adj: AdjList, n: nat, s: int, k: nat)
    requires HeadsIn(adj, n) && 1 <= s <= n && k + 1 >= n
    requires Best(adj, n, s, k + 1) != Best(adj, n, s, k)
    ensures NegativeCycleReachable(adj, n, s)
  {
    var cur, prev := Best(adj, n, s, k + 1), Best(adj, n, s, k);
    var v :| 0 <= v <= n && cur[v] != prev[v];
    BestDecreasing(adj, n, s, k, v);
    var W := BestWitness(adj, n, s, k + 1, v);
    if |W| <= k {
      BestLowerBound(adj, n, s, k, W, v);
      assert false;
    }
    var A, C, B, x := CycleInLongWalk(adj, n, W, s, v);
    if Weight(C) >= 0 {
      BestLowerBound(adj, n, s, k, A + B, v);
      assert false;
    }
  }

  /** A reachable negative cycle keeps every round improving. */
  lemma NegativeCycleUnstable(adj: AdjList, n: nat, s: int, k: nat, W: seq<Arc>, C: seq<Arc>, x: int)
    requires HeadsIn(adj, n) && IsWalk(adj, n, W, s, x) && IsWalk(adj, n, C, x, x) && Weight(C) < 0
    ensures Best(adj, n, s, k + 1) != Best(adj, n, s, k)
  {
    if Best(adj, n, s, k + 1) == Best(adj, n, s, k) {
      var m0 := if |W| < k then k else |W|;
      StableForever(adj, n, s, k, m0);
      BestLowerBound(adj, n, s, m0, W, x);
      var d := Best(adj, n, s, k)[x].d;
      var t: nat := Weight(W) - d + 1;
      RepeatWalk(adj, n, C, x, t);
      var P := W + Repeat(C, t);
      WalkConcat(adj, n, W, Repeat(C, t), s, x, x);
      var m1 := if |P| < k then k else |P|;
      StableForever(adj, n, s, k, m1);
      BestLowerBound(adj, n, s, m1, P, x);
      assert false;
    }
  }

  /** Every edge on a walk has its tail in 1..n, so nothing leaves vertex 0. */
  lemma NoWalkFromZero(adj: AdjList, n: nat, W: seq<Arc>, x: int)
    requires |adj| == n + 1 && IsWalk(adj, n, W, 0, x)
    ensures W == [] && x == 0
  {
    assert W != [] ==> IsArc(adj, n, W[0]);
  }

  /** From the source 0, no edge is ever relaxed, so the first round is already stable. */
  lemma SourceZeroStable(adj: AdjList, n: nat)
    requires HeadsIn(adj, n)
    ensures Best(adj, n, 0, 1) == Best(adj, n, 0, 0)
    ensures !NegativeCycleReachable(adj, n, 0)
  {
    var I := Init(n, 0);
    forall v | 0 <= v <= n ensures Round(adj, n, I)[v] == I[v] {
      var changed, a := RoundSource(adj, n, I, v);
    }
    forall W, C, x | IsWalk(adj, n, W, 0, x) && IsWalk(adj, n, C, x, x) ensures Weight(C) >= 0 {
      NoWalkFromZero(adj, n, W, x);
      NoWalkFromZero(adj, n, C, x);
    }
  }

  /**
   * For n >= 1 vertices, round n changes something exactly when a negative cycle
   * is reachable from s.
   */
  lemma CycleIff(adj: AdjList, n: nat, s: int)
    requires HeadsIn(adj, n) && 1 <= n && 0 <= s <= n
    ensures Best(adj, n, s, n) != Best(adj, n, s, n - 1) <==> NegativeCycleReachable(adj, n, s)
  {
    if s == 0 {
      SourceZeroStable(adj, n);
      StableForever(adj, n, 0, 0, n);
      StableForever(adj, n, 0, 0, n - 1);
    } else {
      if Best(adj, n, s, n) != Best(adj, n, s, n - 1) {
        UnstableWitness(adj, n, s, n - 1);
      }
      if NegativeCycleReachable(adj, n, s) {
        var W, C, x :| IsWalk(adj, n, W, s, x) && IsWalk(adj, n, C, x, x) && Weight(C) < 0;
        NegativeCycleUnstable(adj, n, s, n - 1, W, C, x);
      }
    }
  }

  /** With non-negative weights round n is stable, and it gives the shortest distances, 0 at the source. */
  lemma NonNegativeShortest(adj: AdjList, n: nat, s: int)
    requires HeadsIn(adj, n) && NonNegative(adj) && 1 <= s <= n
    ensures Best(adj, n, s, n + 1) == Best(adj, n, s, n)
    ensures IsShortest(adj, n, s, Best(adj, n, s, n))
    ensures Best(adj, n, s, n)[s] == Fin(0)
  {
    if Best(adj, n, s, n + 1) != Best(adj, n, s, n) {
      UnstableWitness(adj, n, s, n);
      var W, C, x :| IsWalk(adj, n, W, s, x) && IsWalk(adj, n, C, x, x) && Weight(C) < 0;
      WeightNonNegative(adj, n, C, x, x);
      assert false;
    }
    StableIsShortest(adj, n, s, n);
    var D := Best(adj, n, s, n);
    BestLowerBound(adj, n, s, n, [], s);
    var W := BestWitness(adj, n, s, n, s);
    WeightNonNegative(adj, n, W, s, s);
  }
}
