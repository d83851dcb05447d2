/**
 * The stack search that Graphs/Kosaraju.java and DynamicProgramming/TwoSAT.java
 * both write out, and the first pass they share.
 *
 * One search pops a vertex; if it is unexplored it is marked, recorded, and its
 * whole list is pushed in list order.  The vertices are recorded in the order
 * they are marked.  A pass runs one search from each listed start that is still
 * unexplored, taking the list from the top down.  The first pass takes the
 * vertices themselves as starts, from N-1 down to lo (lo is 1 in Kosaraju and 2
 * in TwoSAT, whose vertices 0 and 1 are unused), and writes each search's
 * vertices in reverse marking order into finishingTimes[lo..].
 *
 * Reverse marking order is not the order in which a depth-first search
 * finishes its vertices, so the model states what the passes compute and
 * not that they find the strongly connected components.
 */
module StackSearch {
  import opened Directed

  // ---------------------------------------------------------------------------
  // Sequences
  // ---------------------------------------------------------------------------

  /** Every element lies in lo..hi-1. */
  predicate Within(xs: seq<int>, lo: int, hi: int) {
    forall i :: 0 <= i < |xs| ==> lo <= xs[i] < hi
  }

  /** Every head lies in lo..N-1: no edge touches a vertex below lo. */
  predicate HeadsFrom(adj: Lists, lo: int) {
    forall u, i :: 0 <= u < |adj| && 0 <= i < |adj[u]| ==> lo <= adj[u][i] < |adj|
  }

  predicate Distinct(xs: seq<int>) {
    forall i, j :: 0 <= i < j < |xs| ==> xs[i] != xs[j]
  }

  /** lo, lo+1, ..., hi-1. */
  function Range(lo: int, hi: int): (r: seq<int>)
    ensures |r| == if lo <= hi then hi - lo else 0
    ensures forall i :: 0 <= i < |r| ==> r[i] == lo + i
    decreases hi - lo
  {
    if lo >= hi then [] else [lo] + Range(lo + 1, hi)
  }

  /** The sequence read from the end: what popping a stack of xs (top last) yields. */
  function Backwards(xs: seq<int>): (r: seq<int>)
    ensures |r| == |xs| && forall i :: 0 <= i < |xs| ==> r[i] == xs[|xs| - 1 - i]
  {
    if xs == [] then [] else [xs[|xs| - 1]] + Backwards(xs[..|xs| - 1])
  }

  lemma BackwardsPerm(xs: seq<int>)
    ensures multiset(Backwards(xs)) == multiset(xs)
  {
    if xs != [] {
      var front := xs[..|xs| - 1];
      BackwardsPerm(front);
      assert xs == front + [xs[|xs| - 1]];
      assert multiset(Backwards(xs)) == multiset([xs[|xs| - 1]]) + multiset(Backwards(front));
    }
  }

  lemma Assoc(a: seq<int>, b: seq<int>, c: seq<int>)
    ensures a + (b + c) == (a + b) + c
  {
  }

  /** A distinct sequence holds each element once. */
  lemma {:induction false} DistinctCount(xs: seq<int>, v: int)
    requires Distinct(xs)
    ensures multiset(xs)[v] == if v in xs then 1 else 0
  {
    if xs != [] {
      var last := xs[|xs| - 1];
      var front := xs[..|xs| - 1];
      assert xs == front + [last];
      assert last !in front;
      DistinctCount(front, v);
    }
  }

  /** Two distinct sequences with the same elements are permutations of each other. */
  lemma DistinctPerm(xs: seq<int>, ys: seq<int>)
    requires Distinct(xs) && Distinct(ys) && forall v :: v in xs <==> v in ys
    ensures multiset(xs) == multiset(ys)
  {
    forall v
      ensures multiset(xs)[v] == multiset(ys)[v]
    {
      DistinctCount(xs, v);
      DistinctCount(ys, v);
    }
  }

  lemma RangeDistinct(lo: int, hi: int)
    ensures Distinct(Range(lo, hi)) && forall v :: v in Range(lo, hi) <==> lo <= v < hi
  {
    var r := Range(lo, hi);
    forall v | lo <= v < hi
      ensures v in r
    {
      assert r[v - lo] == v;
    }
  }

  // ---------------------------------------------------------------------------
  // One search
  // ---------------------------------------------------------------------------

  /** The number of unexplored vertices. */
  function Unexplored(ex: seq<bool>): nat {
    if ex == [] then 0 else Unexplored(ex[..|ex| - 1]) + (if ex[|ex| - 1] then 0 else 1)
  }

  lemma {:induction false} UnexploredMark(ex: seq<bool>, v: int)
    requires 0 <= v < |ex| && !ex[v]
    ensures Unexplored(ex[v := true]) + 1 == Unexplored(ex)
    decreases |ex|
  {
    var n := |ex| - 1;
    if v == n {
      assert ex[v := true][..n] == ex[..n];
    } else {
      assert ex[v := true][..n] == ex[..n][v := true];
      UnexploredMark(ex[..n], v);
    }
  }

  /**
   * The while loop of one search on the stack (top last): the explored flags
   * afterwards and the vertices in the order they were marked.
   */
  function Explore(adj: Lists, ex: seq<bool>, stack: seq<int>): (r: (seq<bool>, seq<int>))
    requires HeadsIn(adj) && |ex| == |adj| && Within(stack, 0, |adj|)
    ensures |r.0| == |ex|
    decreases Unexplored(ex), |stack|
  {
    if stack == [] then (ex, [])
    else
      var node := stack[|stack| - 1];
      var rest := stack[..|stack| - 1];
      if ex[node] then Explore(adj, ex, rest)
      else
        UnexploredMark(ex, node);
        var r := Explore(adj, ex[node := true], rest + adj[node]);
        (r.0, [node] + r.1)
  }

  /** A search marks exactly the vertices it records, each one unexplored before and recorded once. */
  lemma {:induction false} ExploreMarks(adj: Lists, ex: seq<bool>, stack: seq<int>)
    requires HeadsIn(adj) && |ex| == |adj| && Within(stack, 0, |adj|)
    ensures Within(Explore(adj, ex, stack).1, 0, |adj|) && Distinct(Explore(adj, ex, stack).1)
    ensures forall i :: 0 <= i < |Explore(adj, ex, stack).1| ==> !ex[Explore(adj, ex, stack).1[i]]
    ensures forall v :: 0 <= v < |ex| ==> (Explore(adj, ex, stack).0[v] <==> ex[v] || v in Explore(adj, ex, stack).1)
    decreases Unexplored(ex), |stack|
  {
    if stack != [] {
      var node := stack[|stack| - 1];
      var rest := stack[..|stack| - 1];
      if ex[node] {
        ExploreMarks(adj, ex, rest);
      } else {
        UnexploredMark(ex, node);
        var ex2 := ex[node := true];
        ExploreMarks(adj, ex2, rest + adj[node]);
        var r := Explore(adj, ex2, rest + adj[node]);
        assert Explore(adj, ex, stack) == (r.0, [node] + r.1);
      }
    }
  }

  /** Everything on the stack ends explored, and so does every head of a recorded vertex: the marked set is
      closed under the edges of what the search recorded. */
  lemma {:induction false} ExploreClosed(adj: Lists, ex: seq<bool>, stack: seq<int>)
    requires HeadsIn(adj) && |ex| == |adj| && Within(stack, 0, |adj|)
    ensures Within(Explore(adj, ex, stack).1, 0, |adj|)
    ensures forall i :: 0 <= i < |stack| ==> Explore(adj, ex, stack).0[stack[i]]
    ensures forall i, j :: 0 <= i < |Explore(adj, ex, stack).1| && 0 <= j < |adj[Explore(adj, ex, stack).1[i]]| ==>
              Explore(adj, ex, stack).0[adj[Explore(adj, ex, stack).1[i]][j]]
    decreases Unexplored(ex), |stack|
  {
    if stack != [] {
      var node := stack[|stack| - 1];
      var rest := stack[..|stack| - 1];
      ExploreMarks(adj, ex, stack);
      if ex[node] {
        ExploreClosed(adj, ex, rest);
      } else {
        UnexploredMark(ex, node);
        var ex2 := ex[node := true];
        var next := rest + adj[node];
        ExploreClosed(adj, ex2, next);
        ExploreMarks(adj, ex2, next);
        var r := Explore(adj, ex2, next);
        assert Explore(adj, ex, stack) == (r.0, [node] + r.1);
        forall j | 0 <= j < |adj[node]|
          ensures r.0[adj[node][j]]
        {
          assert next[|rest| + j] == adj[node][j];
        }
        forall i | 0 <= i < |rest|
          ensures r.0[rest[i]]
        {
          assert next[i] == rest[i];
        }
      }
    }
  }

  /** With starts and heads among lo..N-1, so is every recorded vertex. */
  lemma {:induction false} ExploreFrom(adj: Lists, lo: nat, ex: seq<bool>, stack: seq<int>)
    requires HeadsIn(adj) && HeadsFrom(adj, lo) && |ex| == |adj| && Within(stack, lo, |adj|)
    ensures Within(Explore(adj, ex, stack).1, lo, |adj|)
    decreases Unexplored(ex), |stack|
  {
    if stack != [] {
      var node := stack[|stack| - 1];
      var rest := stack[..|stack| - 1];
      if ex[node] {
        ExploreFrom(adj, lo, ex, rest);
      } else {
        UnexploredMark(ex, node);
        ExploreFrom(adj, lo, ex[node := true], rest + adj[node]);
      }
    }
  }

  // ---------------------------------------------------------------------------
  // A pass of searches
  // ---------------------------------------------------------------------------

  /** One search of a pass: the vertex it started from and the vertices it marked, in marking order. */
  datatype Tree = Tree(leader: int, members: seq<int>)

  /**
   * A pass over the starts order[i-1], order[i-2], ..., order[lo]: a search from
   * every start still unexplored.  The explored flags afterwards and the searches
   * in the order they ran.
   */
  function Searches(adj: Lists, order: seq<int>, lo: int, i: int, ex: seq<bool>): (r: (seq<bool>, seq<Tree>))
    requires HeadsIn(adj) && |ex| == |adj| && i <= |order| && Within(order, 0, |adj|)
    ensures |r.0| == |ex|
    decreases i
  {
    if i <= lo || i <= 0 then (ex, [])
    else if ex[order[i - 1]] then Searches(adj, order, lo, i - 1, ex)
    else
      var s := Explore(adj, ex, [order[i - 1]]);
      var r := Searches(adj, order, lo, i - 1, s.0);
      (r.0, [Tree(order[i - 1], s.1)] + r.1)
  }

  /** The vertices of all searches, in marking order. */
  function Members(ts: seq<Tree>): seq<int> {
    if ts == [] then [] else ts[0].members + Members(ts[1..])
  }

  /** What the first pass writes: each search's vertices popped off the ordering stack. */
  function FinishOrder(ts: seq<Tree>): seq<int> {
    if ts == [] then [] else Backwards(ts[0].members) + FinishOrder(ts[1..])
  }

  /** The tree sizes. */
  function Sizes(ts: seq<Tree>): (r: seq<int>)
    ensures |r| == |ts| && forall k :: 0 <= k < |ts| ==> r[k] == |ts[k].members|
  {
    if ts == [] then [] else [|ts[0].members|] + Sizes(ts[1..])
  }

  function SizeSum(xs: seq<int>): int {
    if xs == [] then 0 else xs[0] + SizeSum(xs[1..])
  }

  /** No vertex is explored. */
  function Unmarked(n: nat): (r: seq<bool>)
    ensures |r| == n && forall v :: 0 <= v < n ==> !r[v]
  {
    seq(n, _ => false)
  }

  /** What firstPass writes into finishingTimes[lo..N-1]. */
  function FirstOrder(adj: Lists, lo: int): seq<int>
    requires HeadsIn(adj)
  {
    FinishOrder(Searches(adj, Range(0, |adj|), lo, |adj|, Unmarked(|adj|)).1)
  }

  lemma FinishOrderPerm(ts: seq<Tree>)
    ensures multiset(FinishOrder(ts)) == multiset(Members(ts))
  {
    if ts != [] {
      BackwardsPerm(ts[0].members);
      FinishOrderPerm(ts[1..]);
    }
  }

  lemma TotalSizes(ts: seq<Tree>)
    ensures SizeSum(Sizes(ts)) == |Members(ts)|
  {
    if ts != [] {
      TotalSizes(ts[1..]);
      assert Sizes(ts)[1..] == Sizes(ts[1..]);
    }
  }

  /** A pass marks exactly the vertices of its searches, each one unexplored before and in one search
      only; every start in order[lo..i-1] ends explored, and each search starts at an unexplored start
      and records it first. */
  lemma {:induction false} SearchesMarks(adj: Lists, order: seq<int>, lo: int, i: int, ex: seq<bool>)
    requires HeadsIn(adj) && |ex| == |adj| && i <= |order| && Within(order, 0, |adj|)
    ensures Within(Members(Searches(adj, order, lo, i, ex).1), 0, |adj|)
    ensures Distinct(Members(Searches(adj, order, lo, i, ex).1))
    ensures forall k :: 0 <= k < |Members(Searches(adj, order, lo, i, ex).1)| ==> !ex[Members(Searches(adj, order, lo, i, ex).1)[k]]
    ensures forall v :: 0 <= v < |ex| ==>
              (Searches(adj, order, lo, i, ex).0[v] <==> ex[v] || v in Members(Searches(adj, order, lo, i, ex).1))
    ensures forall k :: 0 <= lo <= k < i ==> Searches(adj, order, lo, i, ex).0[order[k]]
    decreases i
  {
    if !(i <= lo || i <= 0) {
      var start := order[i - 1];
      if ex[start] {
        SearchesMarks(adj, order, lo, i - 1, ex);
      } else {
        var s := Explore(adj, ex, [start]);
        ExploreMarks(adj, ex, [start]);
        ExploreClosed(adj, ex, [start]);
        SearchesMarks(adj, order, lo, i - 1, s.0);
        var r := Searches(adj, order, lo, i - 1, s.0);
        assert Searches(adj, order, lo, i, ex) == (r.0, [Tree(start, s.1)] + r.1);
        var ts := [Tree(start, s.1)] + r.1;
        assert ts[1..] == r.1;
        assert Members(ts) == s.1 + Members(r.1);
        MarksJoin(ex, s.0, r.0, s.1, Members(r.1));
      }
    }
  }

  /** Two searches in a row: their records are disjoint, and together they mark what each marks. */
  lemma MarksJoin(ex: seq<bool>, ex1: seq<bool>, ex2: seq<bool>, a: seq<int>, b: seq<int>)
    requires |ex1| == |ex| && |ex2| == |ex| && Within(a, 0, |ex|) && Within(b, 0, |ex|)
    requires Distinct(a) && Distinct(b)
    requires forall k :: 0 <= k < |a| ==> !ex[a[k]]
    requires forall k :: 0 <= k < |b| ==> !ex1[b[k]]
    requires forall v :: 0 <= v < |ex| ==> (ex1[v] <==> ex[v] || v in a)
    requires forall v :: 0 <= v < |ex| ==> (ex2[v] <==> ex1[v] || v in b)
    ensures Within(a + b, 0, |ex|) && Distinct(a + b)
    ensures forall k :: 0 <= k < |a + b| ==> !ex[(a + b)[k]]
    ensures forall v :: 0 <= v < |ex| ==> (ex2[v] <==> ex[v] || v in a + b)
  {
    var c := a + b;
    forall i, j | 0 <= i < j < |c|
      ensures c[i] != c[j]
    {
      if i < |a| && j >= |a| {
        assert c[j] == b[j - |a|] && !ex1[c[j]];
        assert ex1[c[i]];
      }
    }
  }

  /** With starts and heads among lo..N-1, so is every vertex of a pass. */
  lemma {:induction false} SearchesFrom(adj: Lists, order: seq<int>, lo: nat, i: int, ex: seq<bool>)
    requires HeadsIn(adj) && HeadsFrom(adj, lo) && |ex| == |adj| && i <= |order| && Within(order, 0, |adj|)
    requires forall k :: 0 <= lo <= k < i ==> lo <= order[k]
    ensures Within(Members(Searches(adj, order, lo, i, ex).1), lo, |adj|)
    decreases i
  {
    if !(i <= lo || i <= 0) {
      var start := order[i - 1];
      if ex[start] {
        SearchesFrom(adj, order, lo, i - 1, ex);
      } else {
        var s := Explore(adj, ex, [start]);
        ExploreFrom(adj, lo, ex, [start]);
        SearchesFrom(adj, order, lo, i - 1, s.0);
        var r := Searches(adj, order, lo, i - 1, s.0);
        var ts := [Tree(start, s.1)] + r.1;
        assert ts[1..] == r.1;
        assert Members(ts) == s.1 + Members(r.1);
      }
    }
  }

  /**
   * From nothing explored, a pass whose starts order[lo..N-1] are a permutation
   * of lo..N-1, on a graph with no edge into a vertex below lo, explores every
   * vertex lo..N-1 exactly once: its vertices are a permutation of lo..N-1.
   */
  lemma PassCovers(adj: Lists, order: seq<int>, lo: nat)
    requires HeadsIn(adj) && HeadsFrom(adj, lo) && |order| == |adj| && Within(order, 0, |adj|)
    requires lo <= |adj| && multiset(order[lo..]) == multiset(Range(lo, |adj|))
    ensures multiset(Members(Searches(adj, order, lo, |adj|, Unmarked(|adj|)).1)) == multiset(Range(lo, |adj|))
  {
    var n := |adj|;
    var r := Searches(adj, order, lo, n, Unmarked(n));
    StartsCover(order, lo, n);
    SearchesMarks(adj, order, lo, n, Unmarked(n));
    SearchesFrom(adj, order, lo, n, Unmarked(n));
    RangeDistinct(lo, n);
    assert forall v :: 0 <= v < n ==> (r.0[v] <==> v in Members(r.1));
    MembersCover(order, lo, n, r.0, Members(r.1));
    DistinctPerm(Members(r.1), Range(lo, n));
  }

  /** A permutation of lo..n-1 lists only those vertices, and lists each of them somewhere. */
  lemma StartsCover(order: seq<int>, lo: nat, n: int)
    requires lo <= n == |order| && multiset(order[lo..]) == multiset(Range(lo, n))
    ensures forall k :: lo <= k < n ==> lo <= order[k] < n
    ensures forall v :: lo <= v < n ==> v in order[lo..]
  {
    RangeDistinct(lo, n);
    var tail := order[lo..];
    forall k: int | lo <= k < n
      ensures lo <= order[k] < n
    {
      assert tail[k - lo] == order[k];
      assert order[k] in multiset(tail);
      assert order[k] in Range(lo, n);
    }
    forall v: int | lo <= v < n
      ensures v in tail
    {
      assert Range(lo, n)[v - lo] == v;
      assert v in multiset(Range(lo, n));
    }
  }

  /** When every start is explored afterwards, and only the members are newly explored, the members are
      exactly the vertices lo..n-1. */
  lemma MembersCover(order: seq<int>, lo: nat, n: int, ex: seq<bool>, ms: seq<int>)
    requires lo <= n == |order| == |ex| && Within(ms, lo, n)
    requires forall k :: lo <= k < n ==> lo <= order[k] < n
    requires forall v :: lo <= v < n ==> v in order[lo..]
    requires forall k :: lo <= k < n ==> ex[order[k]]
    requires forall v :: 0 <= v < n ==> (ex[v] <==> v in ms)
    ensures forall v :: v in ms <==> v in Range(lo, n)
  {
    RangeDistinct(lo, n);
    forall v: int | lo <= v < n
      ensures v in ms
    {
      assert v in order[lo..];
      var j :| 0 <= j < |order[lo..]| && order[lo..][j] == v;
      assert ex[order[lo + j]];
    }
  }

  /** The first pass writes each vertex lo..N-1 exactly once, when no edge touches a vertex below lo. */
  lemma FirstOrderPerm(adj: Lists, lo: nat)
    requires HeadsIn(adj) && HeadsFrom(adj, lo) && lo <= |adj|
    ensures multiset(FirstOrder(adj, lo)) == multiset(Range(lo, |adj|))
    ensures |FirstOrder(adj, lo)| == |adj| - lo
  {
    var n := |adj|;
    var ids := Range(0, n);
    assert ids[lo..] == Range(lo, n);
    PassCovers(adj, ids, lo);
    FinishOrderPerm(Searches(adj, ids, lo, n, Unmarked(n)).1);
    assert |multiset(FirstOrder(adj, lo))| == |multiset(Range(lo, n))|;
  }

  // ---------------------------------------------------------------------------
  // The imperative code
  // ---------------------------------------------------------------------------

  /** pushEdgesIntoStack: every entry of the list pushed in list order. */
  method PushEdges(stack: seq<int>, list: seq<int>) returns (s: seq<int>)
    ensures s == stack + list
  {
    s := stack;
    var i := 0;
    while i < |list|
      invariant 0 <= i <= |list| && s == stack + list[..i]
    {
      s := s + [list[i]];
      i := i + 1;
    }
  }

  /** The inner while loop of every pass: search from start, marking explored in place; found is the
      ordering stack (top last), the vertices in marking order. */
  method Search(adj: Lists, explored: array<bool>, start: int) returns (found: seq<int>)
    requires HeadsIn(adj) && explored.Length == |adj| && 0 <= start < |adj|
    modifies explored
    ensures (explored[..], found) == Explore(adj, old(explored[..]), [start])
  {
    ghost var goal := Explore(adj, explored[..], [start]);
    var stack := [start];
    found := [];
    while stack != []
      invariant Within(stack, 0, |adj|)
      invariant goal.0 == Explore(adj, explored[..], stack).0
      invariant goal.1 == found + Explore(adj, explored[..], stack).1
      decreases Unexplored(explored[..]), |stack|
    {
      ghost var ex := explored[..];
      ghost var before := stack;
      var node := stack[|stack| - 1];
      stack := stack[..|stack| - 1];
      if !explored[node] {
        UnexploredMark(ex, node);
        explored[node] := true;
        assert explored[..] == ex[node := true];
        found := found + [node];
        stack := PushEdges(stack, adj[node]);
        ghost var r := Explore(adj, explored[..], stack);
        assert Explore(adj, ex, before) == (r.0, [node] + r.1);
      } else {
        assert Explore(adj, ex, before) == Explore(adj, ex, stack);
      }
    }
    assert Explore(adj, explored[..], stack) == (explored[..], []);
    assert found + [] == found;
  }

  /** The ordering-stack loop of the first pass: pop every vertex into times[time], times[time + 1], .... */
  method Drain(times: array<int>, ordering: seq<int>, time: int) returns (next: int)
    requires 0 <= time && time + |ordering| <= times.Length
    modifies times
    ensures next == time + |ordering|
    ensures times[time..next] == Backwards(ordering)
    ensures forall k :: 0 <= k < times.Length && !(time <= k < next) ==> times[k] == old(times[k])
  {
    var stack := ordering;
    next := time;
    while stack != []
      invariant 0 <= |stack| <= |ordering| && stack == ordering[..|stack|]
      invariant next == time + |ordering| - |stack|
      invariant times[time..next] == Backwards(ordering)[..next - time]
      invariant forall k :: 0 <= k < times.Length && !(time <= k < next) ==> times[k] == old(times[k])
    {
      var node := stack[|stack| - 1];
      assert node == Backwards(ordering)[next - time];
      stack := stack[..|stack| - 1];
      times[next] := node;
      assert Backwards(ordering)[..next + 1 - time] == Backwards(ordering)[..next - time] + [node];
      next := next + 1;
    }
  }

  /**
   * firstPass: a search from every unexplored vertex N-1 down to lo, each one's
   * vertices written in reverse marking order from finishingTimes[lo] on; every
   * vertex lo..N-1 is written exactly once, and entries below lo stay 0.
   */
  method FirstPass(adj: Lists, lo: nat) returns (times: array<int>)
    requires HeadsIn(adj) && HeadsFrom(adj, lo) && lo <= |adj|
    ensures fresh(times) && times.Length == |adj|
    ensures (forall k :: 0 <= k < lo ==> times[k] == 0) && times[lo..] == FirstOrder(adj, lo)
    ensures multiset(times[lo..]) == multiset(Range(lo, |adj|)) && Within(times[..], 0, |adj|)
  {
    var n := |adj|;
    ghost var goal := FirstOrder(adj, lo);
    FirstOrderPerm(adj, lo);
    var currentTime := lo;
    times := new int[n](_ => 0);
    var explored := new bool[n](_ => false);
    assert explored[..] == Unmarked(n);
    ghost var written: seq<int> := [];
    // j - 1 is the loop's start i, from N-1 down to lo
    var j := n;
    while j > lo
      invariant lo <= j <= n && explored.Length == n && times.Length == n
      invariant Pending(adj, lo, j, explored[..], written, goal)
      invariant Written(times[..], lo, currentTime, written)
      decreases j
    {
      currentTime, written, j := Round(adj, lo, explored, times, j, currentTime, written, goal);
    }
    FirstPassEnd(adj, lo, explored[..], written, goal, times[..], currentTime);
    StartsCover(times[..], lo, n);
  }

  /** One turn of the first pass's for loop, for start j - 1. */
  method Round(adj: Lists, lo: nat, explored: array<bool>, times: array<int>, j: int, time: int,
               ghost written: seq<int>, ghost goal: seq<int>) returns (next: int, ghost written2: seq<int>, j2: int)
    requires HeadsIn(adj) && lo < j <= |adj| && explored.Length == |adj| && times.Length == |adj|
    requires Pending(adj, lo, j, explored[..], written, goal) && |goal| == |adj| - lo
    requires Written(times[..], lo, time, written)
    modifies explored, times
    ensures j2 == j - 1 && Pending(adj, lo, j2, explored[..], written2, goal)
    ensures Written(times[..], lo, next, written2)
  {
    j2 := j - 1;
    var i := j2;
    if !explored[i] {
      ghost var ex := explored[..];
      var found := Search(adj, explored, i);
      PassStep(adj, lo, j, ex, explored[..], found, written, goal);
      next := Emit(times, found, time, lo, written);
      written2 := written + Backwards(found);
    } else {
      SkipStep(adj, lo, j, explored[..], written, goal);
      next, written2 := time, written;
    }
  }

  /** What is written so far, followed by what the remaining starts i-1 down to lo will write, is the
      first pass's whole output. */
  ghost predicate Pending(adj: Lists, lo: nat, i: int, ex: seq<bool>, written: seq<int>, goal: seq<int>)
    requires HeadsIn(adj)
  {
    |ex| == |adj| && i <= |adj| && goal == written + FinishOrder(Searches(adj, Range(0, |adj|), lo, i, ex).1)
  }

  /** finishingTimes holds written from lo on, up to time, and zeros elsewhere. */
  ghost predicate Written(t: seq<int>, lo: nat, time: int, written: seq<int>) {
    time == lo + |written| <= |t| && t[lo..time] == written &&
    forall k :: 0 <= k < |t| && !(lo <= k < time) ==> t[k] == 0
  }

  /** One search of the first pass: what remains to be written shrinks by the search's vertices. */
  lemma PassStep(adj: Lists, lo: nat, j: int, ex: seq<bool>, ex2: seq<bool>, found: seq<int>, written: seq<int>,
                 goal: seq<int>)
    requires HeadsIn(adj) && lo < j <= |adj| && Pending(adj, lo, j, ex, written, goal)
    requires !ex[j - 1] && (ex2, found) == Explore(adj, ex, [j - 1])
    requires |goal| == |adj| - lo
    ensures Pending(adj, lo, j - 1, ex2, written + Backwards(found), goal)
    ensures lo + |written| + |found| <= |adj|
  {
    var later := FinishOrder(Searches(adj, Range(0, |adj|), lo, j - 1, ex2).1);
    SearchStep(adj, Range(0, |adj|), lo, j, ex, ex2, found);
    Assoc(written, Backwards(found), later);
    assert |goal| == |written| + |found| + |later|;
  }

  /** A start that is already explored writes nothing. */
  lemma SkipStep(adj: Lists, lo: nat, j: int, ex: seq<bool>, written: seq<int>, goal: seq<int>)
    requires HeadsIn(adj) && lo < j <= |adj| && Pending(adj, lo, j, ex, written, goal) && ex[j - 1]
    ensures Pending(adj, lo, j - 1, ex, written, goal)
  {
    assert Range(0, |adj|)[j - 1] == j - 1;
  }

  /** The ordering-stack loop of the first pass, after what is already written. */
  method Emit(times: array<int>, found: seq<int>, time: int, ghost lo: nat, ghost written: seq<int>) returns (next: int)
    requires Written(times[..], lo, time, written) && time + |found| <= times.Length
    modifies times
    ensures Written(times[..], lo, next, written + Backwards(found))
  {
    ghost var before := times[..];
    next := Drain(times, found, time);
    WriteStep(before, times[..], lo, written, Backwards(found));
  }

  /** Writing a block right after what is already written. */
  lemma WriteStep(before: seq<int>, after: seq<int>, lo: nat, written: seq<int>, block: seq<int>)
    requires Written(before, lo, lo + |written|, written)
    requires |after| == |before| && lo + |written| + |block| <= |after|
    requires after[lo + |written|..lo + |written| + |block|] == block
    requires forall k :: 0 <= k < |after| && !(lo + |written| <= k < lo + |written| + |block|) ==> after[k] == before[k]
    ensures Written(after, lo, lo + |written| + |block|, written + block)
  {
    var t := lo + |written|;
    assert forall k :: lo <= k < t ==> after[k] == written[k - lo];
    assert forall k :: t <= k < t + |block| ==> after[k] == block[k - t];
  }

  /** After the last start, everything is written. */
  lemma FirstPassEnd(adj: Lists, lo: nat, ex: seq<bool>, written: seq<int>, goal: seq<int>, t: seq<int>, time: int)
    requires HeadsIn(adj) && lo <= |adj| && Pending(adj, lo, lo, ex, written, goal) && Written(t, lo, time, written)
    requires |t| == |adj| && |goal| == |adj| - lo
    ensures (forall k :: 0 <= k < lo ==> t[k] == 0) && t[lo..] == goal
  {
  }

  /** Unfolding one start of a pass: a start that is already explored is skipped, and one that is not
      contributes its search. */
  lemma SearchStep(adj: Lists, order: seq<int>, lo: int, i: int, ex: seq<bool>, ex2: seq<bool>, found: seq<int>)
    requires HeadsIn(adj) && |ex| == |adj| && 0 <= lo < i <= |order| && Within(order, 0, |adj|)
    requires !ex[order[i - 1]] && (ex2, found) == Explore(adj, ex, [order[i - 1]])
    ensures Searches(adj, order, lo, i, ex).1 == [Tree(order[i - 1], found)] + Searches(adj, order, lo, i - 1, ex2).1
    ensures FinishOrder(Searches(adj, order, lo, i, ex).1) == Backwards(found) + FinishOrder(Searches(adj, order, lo, i - 1, ex2).1)
  {
    var ts := Searches(adj, order, lo, i, ex).1;
    assert ts[1..] == Searches(adj, order, lo, i - 1, ex2).1;
  }
}
