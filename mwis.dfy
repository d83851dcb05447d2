/**
 * Maximum-weight independent set on a path graph with vertices 1..n, where
 * vertex i has weight pathGraph[i - 1]. processGraph fills the table of best
 * values of the prefixes; reconstructSolutions walks it back from vertex n.
 */
module MWISGraph {

  /** Entry i of the table processGraph fills: the recurrence of MWISGraph.java:39-46. */
  function Sol(w: seq<int>, i: nat): int
    requires 1 <= i <= |w| || i == 0
  {
    if i == 0 then 0
    else if i == 1 then w[0]
    else Max(Sol(w, i - 1), Sol(w, i - 2) + w[i - 1])
  }

  /** Math.max: the first argument when it is at least the second. */
  function Max(a: int, b: int): int { if a >= b then a else b }

  /**
   * The array reconstructSolutions returns for the table s when it starts at
   * vertex i: entry v says whether vertex v is in the set; entry 0 is unused.
   */
  function Picks(s: seq<int>, w: seq<int>, i: nat): (p: seq<bool>)
    requires i <= |w| && (i < 2 || i <= |s|)
    ensures |p| == i + 1
  {
    if i == 0 then [false]
    else if i == 1 then [false, true]
    else if s[i - 1] < s[i - 2] + w[i - 1] then Picks(s, w, i - 2) + [false, true]
    else Picks(s, w, i - 1) + [false]
  }

  /** No two neighbouring vertices are both in the set, and index 0 is not used. */
  predicate Independent(p: seq<bool>) {
    |p| >= 1 && !p[0] && forall v :: 1 <= v < |p| - 1 ==> !(p[v] && p[v + 1])
  }

  /** The total weight of the vertices the array marks. */
  function Value(p: seq<bool>, w: seq<int>): int
    requires 1 <= |p| <= |w| + 1
  {
    if |p| == 1 then 0
    else Value(p[..|p| - 1], w) + (if p[|p| - 1] then w[|p| - 2] else 0)
  }

  predicate NonNegative(w: seq<int>) {
    forall k :: 0 <= k < |w| ==> w[k] >= 0
  }

  // ---------------------------------------------------------------------------
  // What the reconstruction gives
  // ---------------------------------------------------------------------------

  /** The reconstructed vertices are independent, whatever table is given. */
  lemma {:induction false} PicksIndependent(s: seq<int>, w: seq<int>, i: nat)
    requires i <= |w| && (i < 2 || i <= |s|)
    ensures Independent(Picks(s, w, i))
  {
    if i >= 2 {
      if s[i - 1] < s[i - 2] + w[i - 1] {
        PicksIndependent(s, w, i - 2);
      } else {
        PicksIndependent(s, w, i - 1);
      }
    }
  }

  /** Appending one entry adds that vertex's weight when it is marked. */
  lemma ValueAppend(p: seq<bool>, b: bool, w: seq<int>)
    requires 1 <= |p| <= |w|
    ensures Value(p + [b], w) == Value(p, w) + (if b then w[|p| - 1] else 0)
  {
    assert (p + [b])[..|p|] == p;
  }

  /** The entries of s below i are those of the table processGraph fills. */
  ghost predicate TableBelow(s: seq<int>, w: seq<int>, i: nat) {
    i <= |s| && i <= |w| + 1 && forall k :: 0 <= k < i ==> s[k] == Sol(w, k)
  }

  /** A table correct below i is correct below any smaller bound. */
  lemma TableShrink(s: seq<int>, w: seq<int>, i: nat, j: nat)
    requires TableBelow(s, w, i) && j <= i
    ensures TableBelow(s, w, j)
  {
  }

  /** Appending an unmarked and a marked vertex adds the weight of the marked one. */
  lemma ValueAppendPair(q: seq<bool>, w: seq<int>)
    requires 1 <= |q| && |q| + 1 <= |w|
    ensures Value(q + [false, true], w) == Value(q, w) + w[|q|]
  {
    ValueAppend(q, false, w);
    ValueAppend(q + [false], true, w);
    assert q + [false, true] == (q + [false]) + [true];
  }

  /** On the table processGraph fills, the marked weights add up to its last entry. */
  lemma {:induction false} PicksValue(s: seq<int>, w: seq<int>, i: nat)
    requires i <= |w| && (i < 2 || TableBelow(s, w, i))
    ensures Value(Picks(s, w, i), w) == Sol(w, i)
  {
    if i == 1 {
      assert [false, true][..1] == [false];
    } else if i >= 2 {
      TableShrink(s, w, i, i - 1);
      TableShrink(s, w, i, i - 2);
      PicksValue(s, w, i - 1);
      PicksValue(s, w, i - 2);
      PicksStep(s, w, i);
    }
  }

  /** One step of the recurrence: whichever branch Picks takes, its weight is Sol's maximum. */
  lemma PicksStep(s: seq<int>, w: seq<int>, i: nat)
    requires 2 <= i <= |w| && TableBelow(s, w, i)
    requires Value(Picks(s, w, i - 1), w) == Sol(w, i - 1)
    requires Value(Picks(s, w, i - 2), w) == Sol(w, i - 2)
    ensures Value(Picks(s, w, i), w) == Sol(w, i)
  {
    var taken := s[i - 1] < s[i - 2] + w[i - 1];
    assert s[i - 1] == Sol(w, i - 1) && s[i - 2] == Sol(w, i - 2);
    assert Sol(w, i) == if taken then Sol(w, i - 2) + w[i - 1] else Sol(w, i - 1);
    if taken {
      var q := Picks(s, w, i - 2);
      assert Picks(s, w, i) == q + [false, true];
      ValueAppendPair(q, w);
    } else {
      var q := Picks(s, w, i - 1);
      assert Picks(s, w, i) == q + [false];
      ValueAppend(q, false, w);
    }
  }

  /** With non-negative weights, no independent set of vertices 1..i weighs more than Sol(w, i). */
  lemma {:induction false} SolOptimal(w: seq<int>, p: seq<bool>)
    requires NonNegative(w) && Independent(p) && |p| <= |w| + 1
    ensures Value(p, w) <= Sol(w, |p| - 1)
    decreases |p|
  {
    var i := |p| - 1;
    if i == 1 {
      assert p[..1] == [false];
    } else if i >= 2 {
      var q := p[..i];
      assert Independent(q);
      if p[i] {
        assert !p[i - 1];
        var r := p[..i - 1];
        assert Independent(r);
        assert q == r + [false];
        ValueAppend(r, false, w);
        SolOptimal(w, r);
      } else {
        SolOptimal(w, q);
      }
    }
  }

  /** The reconstruction of processGraph's table is a maximum-weight independent set. */
  lemma ReconstructionOptimal(s: seq<int>, w: seq<int>, n: nat, p: seq<bool>)
    requires NonNegative(w) && n <= |w| && TableBelow(s, w, n + 1)
    requires Independent(p) && |p| == n + 1
    ensures Independent(Picks(s, w, n))
    ensures Value(p, w) <= Value(Picks(s, w, n), w) == Sol(w, n)
  {
    PicksIndependent(s, w, n);
    PicksValue(s, w, n);
    SolOptimal(w, p);
  }

  // ---------------------------------------------------------------------------
  // The Java methods
  // ---------------------------------------------------------------------------

  /** processGraph: solutions[i] is the best weight of an independent set of vertices 1..i. */
  method ProcessGraph(pathGraph: seq<int>, nodes: nat) returns (solutions: array<int>)
    requires 1 <= nodes <= |pathGraph|
    ensures fresh(solutions) && solutions.Length == nodes + 1
    ensures forall i :: 0 <= i <= nodes ==> solutions[i] == Sol(pathGraph, i)
  {
    solutions := new int[nodes + 1];
    solutions[0] := 0;
    solutions[1] := pathGraph[0];
    for i := 2 to nodes + 1
      invariant TableBelow(solutions[..], pathGraph, i)
    {
      var previous, beforePrevious := solutions[i - 1], solutions[i - 2];
      assert previous == Sol(pathGraph, i - 1) && beforePrevious == Sol(pathGraph, i - 2);
      solutions[i] := Max(previous, beforePrevious + pathGraph[i - 1]);
    }
    assert TableBelow(solutions[..], pathGraph, nodes + 1);
  }

  /** One step of the walk back: the prefix still to decide and the decided suffix make up the answer. */
  lemma StepBack(s: seq<int>, w: seq<int>, n: nat, i: nat, v: seq<bool>, marked: bool)
    requires 2 <= i <= n <= |w| && n <= |s| && |v| == n + 1
    requires marked == (s[i - 1] < s[i - 2] + w[i - 1])
    requires Picks(s, w, n) == Picks(s, w, i) + v[i + 1..]
    requires forall k :: 0 <= k <= i ==> !v[k]
    ensures marked ==> Picks(s, w, n) == Picks(s, w, i - 2) + v[i := true][i - 1..]
    ensures !marked ==> Picks(s, w, n) == Picks(s, w, i - 1) + v[i..]
  {
    if marked {
      assert v[i := true][i - 1..] == [false, true] + v[i + 1..];
    } else {
      assert v[i..] == [false] + v[i + 1..];
    }
  }

  /** reconstructSolutions: the marked vertices, read off the table from vertex n down. */
  method ReconstructSolutions(pathGraph: seq<int>, nodes: nat, solutions: array<int>) returns (vertices: array<bool>)
    requires nodes <= |pathGraph| && (nodes < 2 || nodes <= solutions.Length)
    ensures fresh(vertices) && vertices[..] == Picks(solutions[..], pathGraph, nodes)
  {
    ghost var s := solutions[..];
    vertices := new bool[nodes + 1](_ => false);
    var i := nodes;
    while i >= 2
      invariant 0 <= i <= nodes && vertices.Length == nodes + 1
      invariant Picks(s, pathGraph, nodes) == Picks(s, pathGraph, i) + vertices[i + 1..]
      invariant forall k :: 0 <= k <= i ==> !vertices[k]
    {
      ghost var v := vertices[..];
      var marked := solutions[i - 1] < solutions[i - 2] + pathGraph[i - 1];
      StepBack(s, pathGraph, nodes, i, v, marked);
      if marked {
        vertices[i] := true;
        assert vertices[i - 1..] == v[i := true][i - 1..];
        i := i - 2;
      } else {
        assert vertices[i..] == v[i..];
        i := i - 1;
      }
    }
    if i == 1 {
      vertices[i] := true;
      assert vertices[..] == [false, true] + vertices[2..];
    } else {
      assert vertices[..] == [false] + vertices[1..];
    }
  }
}
