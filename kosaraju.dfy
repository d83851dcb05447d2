/**
 * Kosaraju's two passes over a directed graph whose vertices are 1..N-1
 * (vertex 0 is unused): the first pass runs on the reversed graph and lists
 * the vertices in the order of StackSearch.FirstPass; the second pass takes
 * that list from the end, runs a search on the original graph from every
 * vertex still unexplored, and offers each search's size to a priority queue
 * meant to keep the five largest.  The queue is modelled by the multiset of
 * sizes it holds.  As written it polls before it offers, so it ends holding a
 * sixth size, which may be smaller than the five largest (SixLeaders); none of
 * the five largest is lost (NeverDropsTop).  SecondPassRepaired offers first
 * and keeps exactly the five largest.
 */
module Kosaraju {
  import opened Directed
  import opened StackSearch
  import Median

  /** topSCCNum. */
  const TopCount := 5

  function MinInt(a: int, b: int): int {
    if a <= b then a else b
  }

  // ---------------------------------------------------------------------------
  // The priority queue of sizes
  // ---------------------------------------------------------------------------

  /** poll: one copy of a smallest size removed. */
  function Poll(q: multiset<int>): (r: multiset<int>)
    requires |q| > 0
    ensures |r| == |q| - 1 && r <= q
    ensures forall a, b :: a in r && b in q - r ==> b <= a
  {
    var m := Median.Min(q);
    q - multiset{m}
  }

  /** The queue of secondPass after the sizes were offered in order: it is polled when it holds more than
      five sizes, and then the next size is offered. */
  function Leaders(sizes: seq<int>): multiset<int> {
    if sizes == [] then multiset{}
    else
      var q := Leaders(sizes[..|sizes| - 1]);
      (if |q| > TopCount then Poll(q) else q) + multiset{sizes[|sizes| - 1]}
  }

  /** The queue when each size is offered first and the queue is polled whenever it then holds more than
      five. */
  function Largest(sizes: seq<int>): multiset<int> {
    if sizes == [] then multiset{}
    else
      var q := Largest(sizes[..|sizes| - 1]) + multiset{sizes[|sizes| - 1]};
      if |q| > TopCount then Poll(q) else q
  }

  /** q holds the k largest entries of s: min(k, |s|) of them, and each entry left out is at most each
      entry kept. */
  predicate TopOf(q: multiset<int>, s: seq<int>, k: nat) {
    q <= multiset(s) && |q| == MinInt(k, |s|) &&
    forall a, b :: a in q && b in multiset(s) - q ==> b <= a
  }

  /** A sub-multiset as large as the whole is the whole. */
  lemma SubsetFull(q: multiset<int>, m: multiset<int>)
    requires q <= m && |q| == |m|
    ensures q == m
  {
    var d := m - q;
    assert m == q + d;
    assert |d| == 0;
  }

  /** Offering first and polling after keeps the five largest sizes. */
  lemma {:induction false} LargestTop(s: seq<int>)
    ensures TopOf(Largest(s), s, TopCount)
  {
    if s != [] {
      var front := s[..|s| - 1];
      var x := s[|s| - 1];
      assert s == front + [x];
      LargestTop(front);
      var q0 := Largest(front);
      var q := q0 + multiset{x};
      if |q| > TopCount {
        PollTop(front, x, q0);
      } else {
        SubsetFull(q0, multiset(front));
      }
    }
  }

  /** The step of LargestTop when the queue overflows. */
  lemma PollTop(front: seq<int>, x: int, q0: multiset<int>)
    requires TopOf(q0, front, TopCount) && |q0| + 1 > TopCount
    ensures TopOf(Poll(q0 + multiset{x}), front + [x], TopCount)
  {
    var q := q0 + multiset{x};
    var r := Poll(q);
    var s := front + [x];
    assert multiset(s) == multiset(front) + multiset{x};
    forall a, b | a in r && b in multiset(s) - r
      ensures b <= a
    {
      if b !in q - r {
        assert b in multiset(front) - q0;
        if a !in q0 {
          var m := Median.Min(q);
          assert q - r == multiset{m};
        }
      }
    }
  }

  /** What the queue holds as written: the five largest sizes before the last, and the last size. */
  lemma {:induction false} LeadersLast(s: seq<int>)
    requires s != []
    ensures Leaders(s) == Largest(s[..|s| - 1]) + multiset{s[|s| - 1]}
  {
    var front := s[..|s| - 1];
    if front != [] {
      LeadersLast(front);
      var q := Largest(front[..|front| - 1]) + multiset{front[|front| - 1]};
      assert Leaders(front) == q;
      assert Largest(front) == if |q| > TopCount then Poll(q) else q;
    }
  }

  /** The queue as written holds six sizes once six were offered. */
  lemma LeadersSize(s: seq<int>)
    ensures |Leaders(s)| == MinInt(TopCount + 1, |s|)
  {
    if s != [] {
      LeadersLast(s);
      LargestTop(s[..|s| - 1]);
    }
  }

  /** Polling before offering only ever removes the smallest of six sizes, so the queue as written
      still holds the five largest sizes of the stream, next to its one extra size. */
  lemma NeverDropsTop(s: seq<int>)
    requires s != []
    ensures Largest(s) <= Leaders(s)
    ensures TopOf(Largest(s), s, TopCount)
  {
    LeadersLast(s);
    LargestTop(s);
    var q := Largest(s[..|s| - 1]) + multiset{s[|s| - 1]};
    assert Largest(s) == if |q| > TopCount then Poll(q) else q;
  }

  /** Seven components of sizes 2, 3, 4, 5, 6, 7, 1 in that order: the queue as written ends with six sizes,
      among them 1, while 2 is gone; the corrected queue holds neither. */
  lemma SixLeaders(s: seq<int>)
    requires s == [2, 3, 4, 5, 6, 7, 1]
    ensures |Leaders(s)| == 6
    ensures 1 in Leaders(s) && 2 !in Leaders(s)
    ensures 1 !in Largest(s) && 2 !in Largest(s)
  {
    var front := s[..6];
    LeadersSize(s);
    LeadersLast(s);
    var kept := Largest(front);
    LargestTop(front);
    TwoDropped(kept, front);
    AboveOne(front);
    var q := kept + multiset{1};
    assert Largest(s) == Poll(q);
    MinIsNew(kept, multiset(front), 1);
  }

  lemma AboveOne(s: seq<int>)
    requires s == [2, 3, 4, 5, 6, 7]
    ensures forall y :: y in multiset(s) ==> 1 < y
  {
    forall y | y in multiset(s)
      ensures 1 < y
    {
      assert y in s;
    }
  }

  /** Offering a size below every size kept makes it the next to be polled. */
  lemma MinIsNew(kept: multiset<int>, from: multiset<int>, x: int)
    requires kept <= from && forall y :: y in from ==> x < y
    ensures |kept + multiset{x}| > 0 && Median.Min(kept + multiset{x}) == x
  {
    var q := kept + multiset{x};
    assert x in q;
    var m := Median.Min(q);
    assert m <= x;
  }

  /** The five largest of 2..7 leave out 2. */
  lemma TwoDropped(q: multiset<int>, s: seq<int>)
    requires s == [2, 3, 4, 5, 6, 7] && TopOf(q, s, TopCount)
    ensures 2 !in q && 1 !in q
  {
    var m := multiset(s);
    assert m == multiset{2, 3, 4, 5, 6, 7};
    assert m == q + (m - q);
    var b := Median.Min(m - q);
  }

  // ---------------------------------------------------------------------------
  // secondPass
  // ---------------------------------------------------------------------------

  /** The sizes of the searches of the second pass over finishingTimes[1..], from the last entry down. */
  function SecondSizes(adj: Lists, times: seq<int>): seq<int>
    requires HeadsIn(adj) && Within(times, 0, |adj|)
  {
    Sizes(Searches(adj, times, 1, |times|, Unmarked(|adj|)).1)
  }

  /** The sizes of the searches still to run from starts j-1 down to 1, after those already offered. */
  ghost predicate SizesPending(adj: Lists, times: seq<int>, j: int, ex: seq<bool>, offered: seq<int>, goal: seq<int>)
    requires HeadsIn(adj) && Within(times, 0, |adj|)
  {
    |ex| == |adj| && j <= |times| && goal == offered + Sizes(Searches(adj, times, 1, j, ex).1)
  }

  /**
   * secondPass: a search from every unexplored entry of finishingTimes, from the
   * last down to index 1, counting the vertices it explores; each count is
   * offered to the queue, which is polled first when it holds more than five.
   */
  method SecondPass(times: array<int>, adj: Lists) returns (leaders: multiset<int>)
    requires HeadsIn(adj) && Within(times[..], 0, |adj|)
    ensures leaders == Leaders(SecondSizes(adj, times[..]))
  {
    ghost var order := times[..];
    ghost var goal := SecondSizes(adj, order);
    var explored := new bool[|adj|](_ => false);
    assert explored[..] == Unmarked(|adj|);
    leaders := multiset{};
    ghost var offered: seq<int> := [];
    // j - 1 is the loop's index i, from finishingTimes.length - 1 down to 1
    var j := times.Length;
    while j > 1
      invariant j <= times.Length && explored.Length == |adj| && times[..] == order
      invariant SizesPending(adj, order, j, explored[..], offered, goal)
      invariant leaders == Leaders(offered)
      decreases j
    {
      leaders, offered, j := Turn(times, adj, explored, j, leaders, offered, goal);
    }
    assert Searches(adj, order, 1, j, explored[..]).1 == [];
    assert offered + [] == offered;
  }

  /** One turn of secondPass's for loop, for index j - 1. */
  method Turn(times: array<int>, adj: Lists, explored: array<bool>, j: int, leaders: multiset<int>,
              ghost offered: seq<int>, ghost goal: seq<int>) returns (leaders2: multiset<int>, ghost offered2: seq<int>, j2: int)
    requires HeadsIn(adj) && Within(times[..], 0, |adj|) && 1 < j <= times.Length && explored.Length == |adj|
    requires SizesPending(adj, times[..], j, explored[..], offered, goal) && leaders == Leaders(offered)
    modifies explored
    ensures j2 == j - 1 && SizesPending(adj, times[..], j2, explored[..], offered2, goal)
    ensures leaders2 == Leaders(offered2)
  {
    j2 := j - 1;
    var start := times[j2];
    if !explored[start] {
      ghost var ex := explored[..];
      var found := Search(adj, explored, start);
      var currentSize := |found|;
      SearchStep(adj, times[..], 1, j, ex, explored[..], found);
      Assoc(offered, [currentSize], Sizes(Searches(adj, times[..], 1, j2, explored[..]).1));
      leaders2 := leaders;
      if |leaders2| > TopCount {
        leaders2 := leaders2 - multiset{Median.Min(leaders2)};
      }
      leaders2 := leaders2 + multiset{currentSize};
      offered2 := offered + [currentSize];
      assert offered2[..|offered2| - 1] == offered;
    } else {
      leaders2, offered2 := leaders, offered;
    }
  }

  /** secondPass with the offer made before the poll, so that the queue keeps the five largest sizes. */
  method SecondPassRepaired(times: array<int>, adj: Lists) returns (leaders: multiset<int>)
    requires HeadsIn(adj) && Within(times[..], 0, |adj|)
    ensures leaders == Largest(SecondSizes(adj, times[..]))
    ensures TopOf(leaders, SecondSizes(adj, times[..]), TopCount)
  {
    ghost var order := times[..];
    ghost var goal := SecondSizes(adj, order);
    var explored := new bool[|adj|](_ => false);
    assert explored[..] == Unmarked(|adj|);
    leaders := multiset{};
    ghost var offered: seq<int> := [];
    var j := times.Length;
    while j > 1
      invariant j <= times.Length && explored.Length == |adj| && times[..] == order
      invariant SizesPending(adj, order, j, explored[..], offered, goal)
      invariant leaders == Largest(offered)
      decreases j
    {
      leaders, offered, j := TurnRepaired(times, adj, explored, j, leaders, offered, goal);
    }
    assert Searches(adj, order, 1, j, explored[..]).1 == [];
    assert offered + [] == offered;
    LargestTop(offered);
  }

  /** One turn of SecondPassRepaired: the size is offered, then the queue is polled if it holds more than five. */
  method TurnRepaired(times: array<int>, adj: Lists, explored: array<bool>, j: int, leaders: multiset<int>,
                      ghost offered: seq<int>, ghost goal: seq<int>) returns (leaders2: multiset<int>, ghost offered2: seq<int>, j2: int)
    requires HeadsIn(adj) && Within(times[..], 0, |adj|) && 1 < j <= times.Length && explored.Length == |adj|
    requires SizesPending(adj, times[..], j, explored[..], offered, goal) && leaders == Largest(offered)
    modifies explored
    ensures j2 == j - 1 && SizesPending(adj, times[..], j2, explored[..], offered2, goal)
    ensures leaders2 == Largest(offered2)
  {
    j2 := j - 1;
    var start := times[j2];
    if !explored[start] {
      ghost var ex := explored[..];
      var found := Search(adj, explored, start);
      var currentSize := |found|;
      SearchStep(adj, times[..], 1, j, ex, explored[..], found);
      Assoc(offered, [currentSize], Sizes(Searches(adj, times[..], 1, j2, explored[..]).1));
      leaders2 := leaders + multiset{currentSize};
      if |leaders2| > TopCount {
        leaders2 := leaders2 - multiset{Median.Min(leaders2)};
      }
      offered2 := offered + [currentSize];
      assert offered2[..|offered2| - 1] == offered;
    } else {
      leaders2, offered2 := leaders, offered;
    }
  }

  // ---------------------------------------------------------------------------
  // main
  // ---------------------------------------------------------------------------

  /** No edge leaves vertex 0 and no edge enters it. */
  predicate ZeroUnused(adj: Lists) {
    |adj| > 0 && adj[0] == [] && HeadsFrom(adj, 1)
  }

  /** The reversed graph of a graph without edges out of 0 has no edge into 0. */
  lemma ReversedFromOne(adj: Lists)
    requires HeadsIn(adj) && |adj| > 0 && adj[0] == []
    ensures HeadsIn(Reversed(adj)) && HeadsFrom(Reversed(adj), 1)
  {
    var r := Reversed(adj);
    RevRowsHeads(adj, |adj|);
    forall v, t | 0 <= v < |r| && 0 <= t < |r[v]|
      ensures 1 <= r[v][t]
    {
      if r[v][t] == 0 {
        assert 0 in multiset(r[v]);
        ReversedCount(adj, 0, v);
      }
    }
  }

  /** Every vertex 1..N-1 is explored by exactly one search of the second pass, when no edge touches 0
      and finishingTimes lists 1..N-1 from index 1. */
  lemma SizesCover(adj: Lists, times: seq<int>)
    requires HeadsIn(adj) && HeadsFrom(adj, 1) && |times| == |adj| > 0 && Within(times, 0, |adj|)
    requires multiset(times[1..]) == multiset(Range(1, |adj|))
    ensures SizeSum(SecondSizes(adj, times)) == |adj| - 1
  {
    var ts := Searches(adj, times, 1, |adj|, Unmarked(|adj|)).1;
    PassCovers(adj, times, 1);
    TotalSizes(ts);
    assert |multiset(Members(ts))| == |multiset(Range(1, |adj|))|;
  }

  /** finishingTimes as main hands it to the second pass: 0, then the first pass over the reversed graph from vertex 1. */
  function FinishingTimes(adj: Lists): (times: seq<int>)
    requires HeadsIn(adj) && |adj| > 0 && adj[0] == []
    ensures |times| == |adj| && Within(times, 0, |adj|)
  {
    ReversedFromOne(adj);
    FirstOrderPerm(Reversed(adj), 1);
    var times := [0] + FirstOrder(Reversed(adj), 1);
    assert times[1..] == FirstOrder(Reversed(adj), 1);
    StartsCover(times, 1, |adj|);
    times
  }

  /**
   * main, after the graph is loaded: the graph is reversed, the first pass runs
   * on the reversed graph and the second on the original.  sizes are the sizes
   * of the second pass's searches in the order they ran; with no edge touching
   * vertex 0 they add up to N-1.
   */
  method TopComponents(graph: DirectedGraph) returns (leaders: multiset<int>, ghost sizes: seq<int>)
    requires graph.nodes == |graph.adjList| > 0 && HeadsIn(graph.adjList) && graph.adjList[0] == []
    ensures sizes == SecondSizes(graph.adjList, FinishingTimes(graph.adjList))
    ensures leaders == Leaders(sizes) && |leaders| == MinInt(TopCount + 1, |sizes|)
    ensures ZeroUnused(graph.adjList) ==> SizeSum(sizes) == graph.nodes - 1
  {
    var adj := graph.adjList;
    ReversedFromOne(adj);
    var reversedGraph := graph.ReverseGraph();
    var finishingTimes := FirstPass(reversedGraph.adjList, 1);
    assert finishingTimes[..] == [0] + finishingTimes[1..] == FinishingTimes(adj);
    leaders := SecondPass(finishingTimes, adj);
    sizes := SecondSizes(adj, finishingTimes[..]);
    LeadersSize(sizes);
    if ZeroUnused(adj) {
      assert finishingTimes[1..] == finishingTimes[..][1..];
      SizesCover(adj, finishingTimes[..]);
    }
  }

  /** main with the corrected second pass: the queue holds the five largest component sizes. */
  method TopComponentsRepaired(graph: DirectedGraph) returns (leaders: multiset<int>, ghost sizes: seq<int>)
    requires graph.nodes == |graph.adjList| > 0 && HeadsIn(graph.adjList) && graph.adjList[0] == []
    ensures sizes == SecondSizes(graph.adjList, FinishingTimes(graph.adjList))
    ensures TopOf(leaders, sizes, TopCount)
    ensures ZeroUnused(graph.adjList) ==> SizeSum(sizes) == graph.nodes - 1
  {
    var adj := graph.adjList;
    ReversedFromOne(adj);
    var reversedGraph := graph.ReverseGraph();
    var finishingTimes := FirstPass(reversedGraph.adjList, 1);
    assert finishingTimes[..] == [0] + finishingTimes[1..] == FinishingTimes(adj);
    leaders := SecondPassRepaired(finishingTimes, adj);
    sizes := SecondSizes(adj, finishingTimes[..]);
    if ZeroUnused(adj) {
      assert finishingTimes[1..] == finishingTimes[..][1..];
      SizesCover(adj, finishingTimes[..]);
    }
  }
}
