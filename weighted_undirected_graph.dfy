/**
 * The weighted undirected graph of the DataStructures and Literals packages
 * (the two classes are the same code): one adjacency list per vertex 0..N,
 * and every edge "a b w" stored twice, as Edge(b, w) in a's list and as
 * Edge(a, w) in b's. The file starts with a header whose first field is read
 * both as the vertex count and as the edge count.
 */
module WeightedUndirected {
  import opened Walks
  import opened Wrappers
  import opened JavaText
  import opened Adjacency
  import JavaInt

  // ---------------------------------------------------------------------------
  // The file format
  // ---------------------------------------------------------------------------

  /** The lists after one "a b w" line: Edge(b, w) appended to a's list, then Edge(a, w) to b's. */
  function AddBoth(adj: AdjList, line: string): Option<AdjList> {
    match Triple(line)
    case None => None
    case Some(v) => Link(adj, v[0], v[1], v[2])
  }

  /** The two appends of one edge; None when either end has no list. */
  function Link(adj: AdjList, a: int, b: int, w: int): (r: Option<AdjList>)
    ensures r.Some? <==> 0 <= a < |adj| && 0 <= b < |adj|
  {
    if 0 <= a < |adj| then
      var once := adj[a := adj[a] + [Edge(b, w)]];
      if 0 <= b < |once| then Some(once[b := once[b] + [Edge(a, w)]]) else None
    else None
  }

  function AddAll(adj: AdjList, lines: seq<string>): Option<AdjList> {
    if |lines| == 0 then Some(adj)
    else match AddAll(adj, lines[..|lines| - 1])
      case None => None
      case Some(a) => AddBoth(a, lines[|lines| - 1])
  }

  /**
   * What the file constructor builds: nodes and edges both from the first
   * header field, and the lists of the edge lines. An empty file makes
   * line.split throw, so it yields None like a malformed line.
   */
  function UndirectedFile(lines: seq<string>): Option<(int, int, AdjList)> {
    if |lines| == 0 then None
    else match ParseFields(Split(lines[0], {' '}), 1)
      case None => None
      case Some(h) =>
        if h[0] < 0 then None
        else match AddAll(Blank(h[0] + 1), lines[1..])
          case None => None
          case Some(adj) => Some((h[0], h[0], adj))
  }

  // ---------------------------------------------------------------------------
  // Symmetry
  // ---------------------------------------------------------------------------

  /** How often e occurs in u's list. */
  function Count(adj: AdjList, u: int, e: Edge): nat
    requires 0 <= u < |adj|
  {
    multiset(adj[u])[e]
  }

  /** Every entry Edge(v, w) in u's list is matched by as many entries Edge(u, w) in v's list. */
  ghost predicate Symmetric(adj: AdjList) {
    forall u, v, w :: 0 <= u < |adj| && 0 <= v < |adj| ==> Count(adj, u, Edge(v, w)) == Count(adj, v, Edge(u, w))
  }

  /** Every head has a list. */
  predicate Closed(adj: AdjList) {
    forall u, i :: 0 <= u < |adj| && 0 <= i < |adj[u]| ==> 0 <= adj[u][i].node < |adj|
  }

  /** The count after one link: one more for each of the two new entries that e is. */
  lemma CountAfterLink(adj: AdjList, a: int, b: int, w: int, u: int, e: Edge)
    requires 0 <= a < |adj| && 0 <= b < |adj| && 0 <= u < |adj|
    ensures Count(Link(adj, a, b, w).value, u, e) ==
            Count(adj, u, e) + (if u == a && e == Edge(b, w) then 1 else 0) + (if u == b && e == Edge(a, w) then 1 else 0)
  {
    var once := adj[a := adj[a] + [Edge(b, w)]];
    assert multiset(once[u]) == if u == a then multiset(adj[u]) + multiset{Edge(b, w)} else multiset(adj[u]);
    var twice := once[b := once[b] + [Edge(a, w)]];
    assert multiset(twice[u]) == if u == b then multiset(once[u]) + multiset{Edge(a, w)} else multiset(once[u]);
  }

  /** Linking an edge keeps the lists symmetric, self-loops included. */
  lemma LinkSymmetric(adj: AdjList, a: int, b: int, w: int)
    requires Symmetric(adj) && 0 <= a < |adj| && 0 <= b < |adj|
    ensures Symmetric(Link(adj, a, b, w).value)
  {
    var r := Link(adj, a, b, w).value;
    forall u, v, x | 0 <= u < |r| && 0 <= v < |r| ensures Count(r, u, Edge(v, x)) == Count(r, v, Edge(u, x)) {
      CountAfterLink(adj, a, b, w, u, Edge(v, x));
      CountAfterLink(adj, a, b, w, v, Edge(u, x));
    }
  }

  /** Linking an edge keeps every head inside the lists. */
  lemma LinkClosed(adj: AdjList, a: int, b: int, w: int)
    requires Closed(adj) && 0 <= a < |adj| && 0 <= b < |adj|
    ensures Closed(Link(adj, a, b, w).value)
  {
  }

  /** Linking an edge adds exactly two entries. */
  lemma LinkEntries(adj: AdjList, a: int, b: int, w: int)
    requires 0 <= a < |adj| && 0 <= b < |adj|
    ensures |Link(adj, a, b, w).value| == |adj|
    ensures Entries(Link(adj, a, b, w).value) == Entries(adj) + 2
  {
    var once := adj[a := adj[a] + [Edge(b, w)]];
    EntriesUpdate(adj, a, adj[a] + [Edge(b, w)]);
    EntriesUpdate(once, b, once[b] + [Edge(a, w)]);
  }

  /** A self-loop "a a w" puts two entries Edge(a, w) into a's list. */
  lemma SelfLoop(adj: AdjList, a: int, w: int)
    requires 0 <= a < |adj|
    ensures Link(adj, a, a, w) == Some(adj[a := adj[a] + [Edge(a, w), Edge(a, w)]])
  {
    var once := adj[a := adj[a] + [Edge(a, w)]];
    assert once[a] + [Edge(a, w)] == adj[a] + [Edge(a, w), Edge(a, w)];
    assert once[a := once[a] + [Edge(a, w)]] == adj[a := adj[a] + [Edge(a, w), Edge(a, w)]];
  }

  /** Blank lists are symmetric and closed. */
  lemma BlankSymmetric(n: nat)
    ensures Symmetric(Blank(n)) && Closed(Blank(n))
  {
  }

  /** Reading edge lines keeps the lists symmetric and closed, adding two entries per line. */
  lemma {:induction false} AddAllSymmetric(adj: AdjList, lines: seq<string>)
    requires Symmetric(adj) && Closed(adj) && AddAll(adj, lines).Some?
    ensures var r := AddAll(adj, lines).value;
            |r| == |adj| && Symmetric(r) && Closed(r) && Entries(r) == Entries(adj) + 2 * |lines|
  {
    if |lines| > 0 {
      AddAllSymmetric(adj, lines[..|lines| - 1]);
      var a := AddAll(adj, lines[..|lines| - 1]).value;
      var v := Triple(lines[|lines| - 1]).value;
      LinkSymmetric(a, v[0], v[1], v[2]);
      LinkClosed(a, v[0], v[1], v[2]);
      LinkEntries(a, v[0], v[1], v[2]);
    }
  }

  /**
   * What the file constructor builds: vertex and edge counters both equal to
   * the first header field, symmetric lists, and two entries per edge line.
   */
  lemma UndirectedFileShape(lines: seq<string>)
    requires UndirectedFile(lines).Some?
    ensures var (n, e, adj) := UndirectedFile(lines).value;
            e == n && ParseFields(Split(lines[0], {' '}), 1) == Some([n])
    ensures var (n, e, adj) := UndirectedFile(lines).value;
            |adj| == n + 1 && Symmetric(adj) && Closed(adj) && Entries(adj) == 2 * (|lines| - 1)
  {
    var h := ParseFields(Split(lines[0], {' '}), 1).value;
    assert h == [h[0]];
    BlankSymmetric(h[0] + 1);
    EntriesBlank(h[0] + 1);
    AddAllSymmetric(Blank(h[0] + 1), lines[1..]);
  }

  /** An edge line written for two vertices with lists stores the edge both ways. */
  lemma EdgeLineAdds(adj: AdjList, a: int, b: int, w: int)
    requires 0 <= a < |adj| && 0 <= b < |adj| && JavaInt.InRange(a) && JavaInt.InRange(b) && JavaInt.InRange(w)
    ensures AddBoth(adj, TripleText(a, b, w)) == Link(adj, a, b, w)
  {
    TripleRoundTrip(a, b, w);
  }

  /** The outcome of a file whose header is well formed. */
  lemma FileOutcome(lines: seq<string>, n: nat)
    requires |lines| > 0 && ParseFields(Split(lines[0], {' '}), 1) == Some([n])
    ensures UndirectedFile(lines) == match AddAll(Blank(n + 1), lines[1..])
                                       case None => None
                                       case Some(adj) => Some((n, n, adj))
  {
  }

  /** Once an edge line fails, the whole file fails. */
  lemma {:induction false} AddAllFails(adj: AdjList, lines: seq<string>, i: nat)
    requires i <= |lines| && AddAll(adj, lines[..i]).None?
    ensures AddAll(adj, lines).None?
    decreases |lines| - i
  {
    if i < |lines| {
      assert lines[..i + 1][..i] == lines[..i];
      AddAllFails(adj, lines, i + 1);
    } else {
      assert lines[..i] == lines;
    }
  }

  // ---------------------------------------------------------------------------
  // The class
  // ---------------------------------------------------------------------------

  class WeightedUndirectedGraph {
    var nodes: int
    var edges: int
    var adjList: AdjList

    /** WeightedUndirectedGraph(N): N + 1 empty lists, for the vertices 0..N. */
    constructor (N: nat)
      ensures nodes == N && edges == 0 && adjList == Blank(N + 1)
    {
      var blank: AdjList := [];
      for i := 0 to N + 1
        invariant blank == Blank(i)
      {
        blank := blank + [[]];
      }
      nodes, edges, adjList := N, 0, blank;
    }

    /** getEdgeList: the list stored for the vertex. */
    function GetEdgeList(node: int): (r: seq<Edge>)
      reads this
      requires 0 <= node < |adjList|
      ensures r == adjList[node]
    {
      adjList[node]
    }

    /** One "a b w" line: the edge appended to both ends' lists; false for the exception a bad line raises. */
    method ReadEdgeLine(line: string) returns (ok: bool)
      modifies this
      ensures nodes == old(nodes) && edges == old(edges)
      ensures ok == AddBoth(old(adjList), line).Some?
      ensures ok ==> adjList == AddBoth(old(adjList), line).value
    {
      var pairs := Split(line, {' '});
      var v := ParseFields(pairs, 3);
      if v.None? {
        return false;
      }
      var node1, node2, weight := v.value[0], v.value[1], v.value[2];
      if !(0 <= node1 < |adjList|) {
        return false;
      }
      adjList := adjList[node1 := adjList[node1] + [Edge(node2, weight)]];
      if !(0 <= node2 < |adjList|) {
        return false;
      }
      adjList := adjList[node2 := adjList[node2] + [Edge(node1, weight)]];
      return true;
    }

    /** The loop over the edge lines after the header. */
    method ReadEdgeLines(lines: seq<string>) returns (ok: bool)
      modifies this
      ensures nodes == old(nodes) && edges == old(edges)
      ensures ok == AddAll(old(adjList), lines).Some?
      ensures ok ==> adjList == AddAll(old(adjList), lines).value
    {
      var i := 0;
      while i < |lines|
        invariant 0 <= i <= |lines| && nodes == old(nodes) && edges == old(edges)
        invariant AddAll(old(adjList), lines[..i]) == Some(adjList)
      {
        assert lines[..i + 1][..i] == lines[..i];
        ok := ReadEdgeLine(lines[i]);
        if !ok {
          AddAllFails(old(adjList), lines, i + 1);
          return false;
        }
        i := i + 1;
      }
      assert lines[..i] == lines;
      return true;
    }

    /**
     * WeightedUndirectedGraph(filename). None stands for the exception an
     * empty file or a malformed line raises out of the constructor.
     */
    static method FromFile(lines: seq<string>) returns (g: Option<WeightedUndirectedGraph>)
      ensures g.Some? == UndirectedFile(lines).Some?
      ensures g.Some? ==> fresh(g.value) &&
                          (g.value.nodes, g.value.edges, g.value.adjList) == UndirectedFile(lines).value
    {
      if |lines| == 0 {
        return None;
      }
      var header := ParseFields(Split(lines[0], {' '}), 1);
      if header.None? || header.value[0] < 0 {
        return None;
      }
      var n := header.value[0];
      var graph := new WeightedUndirectedGraph(n);
      graph.edges := n;
      assert header.value == [n];
      FileOutcome(lines, n);
      var ok := graph.ReadEdgeLines(lines[1..]);
      if !ok {
        return None;
      }
      return Some(graph);
    }
  }
}
