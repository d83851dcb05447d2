/**
 * The weighted directed graph of the DataStructures and Literals packages:
 * one adjacency list per vertex 0..N and an edge counter. Besides the
 * empty-graph constructor there are two file formats: a line per vertex,
 * "u<TAB>v,w<TAB>v,w...", and a header "N E" followed by a line "t h w" per
 * edge. A file is given here as its sequence of lines.
 */
module WeightedDirected {
  import opened Walks
  import opened Wrappers
  import opened JavaText
  import opened Adjacency
  import JavaInt

  // ---------------------------------------------------------------------------
  // The "u<TAB>v,w..." format
  // ---------------------------------------------------------------------------

  /** One "v,w" field: the head and the weight of an edge. */
  function ParsePair(text: string): Option<Edge> {
    match ParseFields(Split(text, {','}), 2)
    case Some(v) => Some(Edge(v[0], v[1]))
    case None => None
  }

  /** All the "v,w" fields of a line, in order, when every one of them is well formed. */
  function ParsePairs(ts: seq<string>): (r: Option<seq<Edge>>)
    ensures r.Some? ==> |r.value| == |ts|
  {
    if |ts| == 0 then Some([])
    else match (ParsePairs(ts[..|ts| - 1]), ParsePair(ts[|ts| - 1]))
      case (Some(front), Some(e)) => Some(front + [e])
      case _ => None
  }

  /** Once a field fails, the whole line fails. */
  lemma {:induction false} PairsFail(ts: seq<string>, i: nat)
    requires i <= |ts| && ParsePairs(ts[..i]).None?
    ensures ParsePairs(ts).None?
    decreases |ts| - i
  {
    if i < |ts| {
      assert ts[..i + 1][..i] == ts[..i];
      PairsFail(ts, i + 1);
    } else {
      assert ts[..i] == ts;
    }
  }

  /** Reading one more field extends the edges read so far, or fails. */
  lemma PairsStep(ts: seq<string>, i: nat, front: seq<Edge>)
    requires i < |ts| && ParsePairs(ts[..i]) == Some(front)
    ensures ParsePairs(ts[..i + 1]) == if ParsePair(ts[i]).Some? then Some(front + [ParsePair(ts[i]).value]) else None
  {
    assert ts[..i + 1][..i] == ts[..i];
  }

  /** Appending one more edge to the list of b. */
  lemma AppendStep(start: AdjList, adj: AdjList, b: int, added: seq<Edge>, e: Edge)
    requires 0 <= b < |start|
    requires |added| == 0 ==> adj == start
    requires |added| > 0 ==> adj == start[b := start[b] + added]
    ensures adj[b := adj[b] + [e]] == start[b := start[b] + (added + [e])]
  {
    if |added| == 0 {
      assert added + [e] == [e];
    } else {
      assert start[b] + (added + [e]) == (start[b] + added) + [e];
    }
  }

  /** A line of the format: its base vertex and its edges. */
  function AdjacencyLine(line: string): Option<(int, seq<Edge>)> {
    var tokens := Split(line, {'\t'});
    if |tokens| == 0 then None
    else match (ParseInt(tokens[0]), ParsePairs(tokens[1..]))
      case (Some(b), Some(es)) => Some((b, es))
      case _ => None
  }

  /**
   * The lists after reading one line: the edges appended to the base
   * vertex's list. The list is looked up only when there is an edge to add,
   * so a line with no edge may name any vertex.
   */
  function AddLine(adj: AdjList, line: string): Option<AdjList> {
    match AdjacencyLine(line)
    case None => None
    case Some((b, es)) =>
      if |es| == 0 then Some(adj)
      else if 0 <= b < |adj| then Some(adj[b := adj[b] + es])
      else None
  }

  /** The lists after reading the lines in order. */
  function AddLines(adj: AdjList, lines: seq<string>): Option<AdjList> {
    if |lines| == 0 then Some(adj)
    else match AddLines(adj, lines[..|lines| - 1])
      case None => None
      case Some(a) => AddLine(a, lines[|lines| - 1])
  }

  /** The text of one "v,w" field. */
  function PairText(e: Edge): string {
    IntToString(e.node) + [','] + IntToString(e.weight)
  }

  /** The line a file of this format holds for vertex b with the edges es. */
  function AdjacencyText(b: int, es: seq<Edge>): string {
    Join([IntToString(b)] + PairTexts(es), '\t')
  }

  predicate EdgesInRange(es: seq<Edge>) {
    forall k :: 0 <= k < |es| ==> JavaInt.InRange(es[k].node) && JavaInt.InRange(es[k].weight)
  }

  // ---------------------------------------------------------------------------
  // What reading a line does
  // ---------------------------------------------------------------------------

  /** A line adds exactly its edges to the lists, and keeps their number. */
  lemma AddLineEntries(adj: AdjList, line: string)
    requires AddLine(adj, line).Some?
    ensures |AddLine(adj, line).value| == |adj|
    ensures Entries(AddLine(adj, line).value) == Entries(adj) + |AdjacencyLine(line).value.1|
  {
    var (b, es) := AdjacencyLine(line).value;
    if |es| > 0 {
      EntriesUpdate(adj, b, adj[b] + es);
    }
  }

  /** Reading several lines adds the edges of each. */
  lemma {:induction false} AddLinesKeepsLength(adj: AdjList, lines: seq<string>)
    requires AddLines(adj, lines).Some?
    ensures |AddLines(adj, lines).value| == |adj|
    ensures Entries(AddLines(adj, lines).value) >= Entries(adj)
  {
    if |lines| > 0 {
      AddLinesKeepsLength(adj, lines[..|lines| - 1]);
      AddLineEntries(AddLines(adj, lines[..|lines| - 1]).value, lines[|lines| - 1]);
    }
  }

  /** Once a line fails, the whole file fails. */
  lemma {:induction false} AddLinesFails(adj: AdjList, lines: seq<string>, i: nat)
    requires i <= |lines| && AddLines(adj, lines[..i]).None?
    ensures AddLines(adj, lines).None?
    decreases |lines| - i
  {
    if i < |lines| {
      assert lines[..i + 1][..i] == lines[..i];
      AddLinesFails(adj, lines, i + 1);
    } else {
      assert lines[..i] == lines;
    }
  }

  /** The text of a field is read back as the same edge. */
  lemma PairRoundTrip(e: Edge)
    requires JavaInt.InRange(e.node) && JavaInt.InRange(e.weight)
    ensures ParsePair(PairText(e)) == Some(e)
  {
    var pieces := [IntToString(e.node), IntToString(e.weight)];
    IntToStringClean(e.node, {','});
    IntToStringClean(e.weight, {','});
    assert Join(pieces, ',') == PairText(e);
    SplitJoin(pieces, ',');
    ParseIntToString(e.node);
    ParseIntToString(e.weight);
    assert ParseFields(pieces, 0) == Some([]);
    assert [] + [e.node] == [e.node] && [e.node] + [e.weight] == [e.node, e.weight];
    assert ParseFields(pieces, 1) == Some([e.node]);
  }

  /** The fields written for the edges, in order. */
  function PairTexts(es: seq<Edge>): (ts: seq<string>)
    ensures |ts| == |es|
  {
    if |es| == 0 then [] else PairTexts(es[..|es| - 1]) + [PairText(es[|es| - 1])]
  }

  /** The text of a field holds no tab and is never empty. */
  lemma PairTextClean(e: Edge)
    ensures Clean(PairText(e), {'\t'}) && |PairText(e)| > 0
  {
    IntToStringClean(e.node, {'\t'});
    IntToStringClean(e.weight, {'\t'});
  }

  /** Fields that each read back as an edge read back as those edges, in order. */
  lemma {:induction false} PairsOf(ts: seq<string>, es: seq<Edge>)
    requires |ts| == |es| && forall k :: 0 <= k < |ts| ==> ParsePair(ts[k]) == Some(es[k])
    ensures ParsePairs(ts) == Some(es)
  {
    if |ts| > 0 {
      var n := |ts| - 1;
      PairsOf(ts[..n], es[..n]);
      assert es[..n] + [es[n]] == es;
    }
  }

  /** The fields of the edges read back as the same edges, in order. */
  lemma PairsRoundTrip(es: seq<Edge>)
    requires EdgesInRange(es)
    ensures ParsePairs(PairTexts(es)) == Some(es)
  {
    var ts := PairTexts(es);
    forall k | 0 <= k < |ts| ensures ParsePair(ts[k]) == Some(es[k]) {
      PairTextsAt(es, k);
      PairRoundTrip(es[k]);
    }
    PairsOf(ts, es);
  }

  /** The line written for the vertex is its number followed by the fields, all clean of tabs. */
  lemma AdjacencyPieces(b: int, es: seq<Edge>) returns (pieces: seq<string>)
    ensures pieces == [IntToString(b)] + PairTexts(es)
    ensures forall k :: 0 <= k < |pieces| ==> Clean(pieces[k], {'\t'}) && |pieces[k]| > 0
  {
    var ts := PairTexts(es);
    pieces := [IntToString(b)] + ts;
    IntToStringClean(b, {'\t'});
    forall k | 0 <= k < |ts| ensures Clean(ts[k], {'\t'}) && |ts[k]| > 0 {
      PairTextsAt(es, k);
      PairTextClean(es[k]);
    }
    assert forall k :: 1 <= k < |pieces| ==> pieces[k] == ts[k - 1];
  }

  lemma {:induction false} PairTextsAt(es: seq<Edge>, k: nat)
    requires k < |es|
    ensures PairTexts(es)[k] == PairText(es[k])
  {
    if k < |es| - 1 {
      PairTextsAt(es[..|es| - 1], k);
    }
  }

  /** A line of the format is read back as its base vertex and its edges. */
  lemma AdjacencyRoundTrip(b: int, es: seq<Edge>)
    requires JavaInt.InRange(b) && EdgesInRange(es)
    ensures AdjacencyLine(AdjacencyText(b, es)) == Some((b, es))
  {
    var pieces := AdjacencyPieces(b, es);
    SplitJoin(pieces, '\t');
    ParseIntToString(b);
    assert pieces[1..] == PairTexts(es);
    PairsRoundTrip(es);
  }

  // ---------------------------------------------------------------------------
  // The "N E" header format
  // ---------------------------------------------------------------------------

  /** The lists after one "t h w" line: Edge(h, w) appended to t's list. */
  function AddTriple(adj: AdjList, line: string): Option<AdjList> {
    match Triple(line)
    case None => None
    case Some(v) => if 0 <= v[0] < |adj| then Some(adj[v[0] := adj[v[0]] + [Edge(v[1], v[2])]]) else None
  }

  function AddTriples(adj: AdjList, lines: seq<string>): Option<AdjList> {
    if |lines| == 0 then Some(adj)
    else match AddTriples(adj, lines[..|lines| - 1])
      case None => None
      case Some(a) => AddTriple(a, lines[|lines| - 1])
  }

  /**
   * What the header constructor builds: nodes and edges from the header and
   * the lists of the edge lines. An empty file raises the IOException the
   * constructor catches, which leaves both counters 0 and no lists.
   */
  function EdgeFile(lines: seq<string>): Option<(int, int, AdjList)> {
    if |lines| == 0 then Some((0, 0, []))
    else match ParseFields(Split(lines[0], {' '}), 2)
      case None => None
      case Some(h) =>
        if h[0] < 0 then None
        else match AddTriples(Blank(h[0] + 1), lines[1..])
          case None => None
          case Some(adj) => Some((h[0], h[1], adj))
  }

  /** Each edge line adds exactly one entry. */
  lemma {:induction false} AddTriplesEntries(adj: AdjList, lines: seq<string>)
    requires AddTriples(adj, lines).Some?
    ensures |AddTriples(adj, lines).value| == |adj|
    ensures Entries(AddTriples(adj, lines).value) == Entries(adj) + |lines|
  {
    if |lines| > 0 {
      AddTriplesEntries(adj, lines[..|lines| - 1]);
      var a := AddTriples(adj, lines[..|lines| - 1]).value;
      var v := Triple(lines[|lines| - 1]).value;
      EntriesUpdate(a, v[0], a[v[0]] + [Edge(v[1], v[2])]);
    }
  }

  /** The counters are the header's, and each edge line adds one entry: the edge count is never checked against the lines. */
  lemma EdgeFileCounts(lines: seq<string>)
    requires |lines| > 0 && EdgeFile(lines).Some?
    ensures var (n, e, adj) := EdgeFile(lines).value;
            ParseFields(Split(lines[0], {' '}), 2) == Some([n, e])
    ensures var (n, e, adj) := EdgeFile(lines).value;
            |adj| == n + 1 && Entries(adj) == |lines| - 1
  {
    var h := ParseFields(Split(lines[0], {' '}), 2).value;
    assert h == [h[0], h[1]];
    AddTriplesEntries(Blank(h[0] + 1), lines[1..]);
    EntriesBlank(h[0] + 1);
  }

  /** An edge line written for an edge within the lists adds that edge. */
  lemma TripleLineAdds(adj: AdjList, t: int, h: int, w: int)
    requires 0 <= t < |adj| && JavaInt.InRange(t) && JavaInt.InRange(h) && JavaInt.InRange(w)
    ensures AddTriple(adj, TripleText(t, h, w)) == Some(adj[t := adj[t] + [Edge(h, w)]])
  {
    TripleRoundTrip(t, h, w);
  }

  // ---------------------------------------------------------------------------
  // The class
  // ---------------------------------------------------------------------------

  class WeightedDirectedGraph {
    var nodes: int
    var edges: int
    var adjList: AdjList

    /** WeightedDirectedGraph(N): N + 1 empty lists, for the vertices 0..N. */
    constructor (N: nat)
      ensures nodes == N && edges == 0 && adjList == Blank(N + 1)
    {
      var blank: AdjList := [];
      for i := 0 to N + 1
        invariant blank == Blank(i)
      {
        blank := blank + [[]];
      }
      nodes, edges, adjList := N, 0, blank;
    }

    /** getEdgeList: the list stored for the vertex. */
    function GetEdgeList(node: int): (r: seq<Edge>)
      reads this
      requires 0 <= node < |adjList|
      ensures r == adjList[node]
    {
      adjList[node]
    }

    /** addEdgeList: replace one vertex's list, and nothing else. */
    method AddEdgeList(list: seq<Edge>, index: int)
      requires 0 <= index < |adjList|
      modifies this
      ensures adjList == old(adjList)[index := list]
      ensures nodes == old(nodes) && edges == old(edges)
    {
      adjList := adjList[index := list];
    }

    /**
     * One line of the "u<TAB>v,w..." file: each edge is appended to the base
     * vertex's list and counted, in order. false stands for the exception a
     * malformed line or a base vertex out of range raises; the constructor
     * does not catch it, so the partly updated graph is never seen.
     */
    method ReadAdjacencyLine(line: string) returns (ok: bool)
      modifies this
      ensures nodes == old(nodes)
      ensures ok == AddLine(old(adjList), line).Some?
      ensures ok ==> adjList == AddLine(old(adjList), line).value
      ensures ok ==> edges - Entries(adjList) == old(edges - Entries(adjList))
    {
      var nodePairs := Split(line, {'\t'});
      if |nodePairs| == 0 {
        return false;
      }
      var baseNode := ParseInt(nodePairs[0]);
      if baseNode.None? {
        return false;
      }
      var b := baseNode.value;
      ghost var start := adjList;
      ok := ReadFields(b, nodePairs[1..]);
      if ok && |nodePairs| > 1 {
        EntriesUpdate(start, b, start[b] + ParsePairs(nodePairs[1..]).value);
      }
    }

    /** The loop over a line's "v,w" fields: each edge appended to b's list and counted. */
    method ReadFields(b: int, fields: seq<string>) returns (ok: bool)
      modifies this
      ensures nodes == old(nodes)
      ensures ok == (ParsePairs(fields).Some? && (|fields| == 0 || 0 <= b < |old(adjList)|))
      ensures ok && |fields| == 0 ==> adjList == old(adjList) && edges == old(edges)
      ensures ok && |fields| > 0 ==> adjList == old(adjList)[b := old(adjList)[b] + ParsePairs(fields).value]
      ensures ok ==> edges == old(edges) + |fields|
    {
      if |fields| == 0 {
        return true;
      }
      ghost var added: seq<Edge> := [];
      var i := 0;
      while i < |fields|
        invariant 0 <= i <= |fields| && ParsePairs(fields[..i]) == Some(added)
        invariant nodes == old(nodes) && edges == old(edges) + i
        invariant |added| == i
        invariant i == 0 ==> adjList == old(adjList)
        invariant i > 0 ==> 0 <= b < |old(adjList)| && adjList == old(adjList)[b := old(adjList)[b] + added]
      {
        PairsStep(fields, i, added);
        var edge := ParsePair(fields[i]);
        if edge.None? {
          PairsFail(fields, i + 1);
          return false;
        }
        if !(0 <= b < |adjList|) {
          return false;
        }
        AppendStep(old(adjList), adjList, b, added, edge.value);
        adjList := adjList[b := adjList[b] + [edge.value]];
        edges := edges + 1;
        added := added + [edge.value];
        i := i + 1;
      }
      assert fields[..i] == fields;
      return true;
    }

    /** WeightedDirectedGraph(N, filename) after the blank lists: every line read in turn. */
    method ReadAdjacencyLines(lines: seq<string>) returns (ok: bool)
      modifies this
      ensures nodes == old(nodes)
      ensures ok == AddLines(old(adjList), lines).Some?
      ensures ok ==> adjList == AddLines(old(adjList), lines).value
      ensures ok ==> edges - Entries(adjList) == old(edges - Entries(adjList))
    {
      var i := 0;
      while i < |lines|
        invariant 0 <= i <= |lines| && nodes == old(nodes)
        invariant AddLines(old(adjList), lines[..i]) == Some(adjList)
        invariant edges - Entries(adjList) == old(edges - Entries(adjList))
      {
        assert lines[..i + 1][..i] == lines[..i];
        ok := ReadAdjacencyLine(lines[i]);
        if !ok {
          AddLinesFails(old(adjList), lines, i + 1);
          return false;
        }
        i := i + 1;
      }
      assert lines[..i] == lines;
      return true;
    }

    /** One "t h w" line: Edge(h, w) appended to t's list; false for the exception a bad line raises. */
    method ReadEdgeLine(line: string) returns (ok: bool)
      modifies this
      ensures nodes == old(nodes) && edges == old(edges)
      ensures ok == AddTriple(old(adjList), line).Some?
      ensures ok ==> adjList == AddTriple(old(adjList), line).value
    {
      var data := Split(line, {' '});
      var v := ParseFields(data, 3);
      if v.None? {
        return false;
      }
      var tail, head, weight := v.value[0], v.value[1], v.value[2];
      if !(0 <= tail < |adjList|) {
        return false;
      }
      adjList := adjList[tail := adjList[tail] + [Edge(head, weight)]];
      return true;
    }

    /** The loop over the edge lines after the header. */
    method ReadEdgeLines(lines: seq<string>) returns (ok: bool)
      modifies this
      ensures nodes == old(nodes) && edges == old(edges)
      ensures ok == AddTriples(old(adjList), lines).Some?
      ensures ok ==> adjList == AddTriples(old(adjList), lines).value
    {
      var i := 0;
      while i < |lines|
        invariant 0 <= i <= |lines| && nodes == old(nodes) && edges == old(edges)
        invariant AddTriples(old(adjList), lines[..i]) == Some(adjList)
      {
        assert lines[..i + 1][..i] == lines[..i];
        ok := ReadEdgeLine(lines[i]);
        if !ok {
          AddTriplesFails(old(adjList), lines, i + 1);
          return false;
        }
        i := i + 1;
      }
      assert lines[..i] == lines;
      return true;
    }

    /**
     * WeightedDirectedGraph(filename): the header's counts, the blank lists
     * and an entry per edge line. None stands for the exception a malformed
     * line raises out of the constructor.
     */
    static method FromEdgeFile(lines: seq<string>) returns (g: Option<WeightedDirectedGraph>)
      ensures g.Some? == EdgeFile(lines).Some?
      ensures g.Some? ==> fresh(g.value) &&
                          (g.value.nodes, g.value.edges, g.value.adjList) == EdgeFile(lines).value
    {
      var graph := new WeightedDirectedGraph(0);
      if |lines| == 0 {
        graph.adjList := [];
        return Some(graph);
      }
      var header := ParseFields(Split(lines[0], {' '}), 2);
      if header.None? || header.value[0] < 0 {
        return None;
      }
      var n := header.value[0];
      graph.nodes, graph.edges, graph.adjList := n, header.value[1], Blank(n + 1);
      var ok := graph.ReadEdgeLines(lines[1..]);
      if !ok {
        return None;
      }
      return Some(graph);
    }
  }

  /** Once an edge line fails, the whole file fails. */
  lemma {:induction false} AddTriplesFails(adj: AdjList, lines: seq<string>, i: nat)
    requires i <= |lines| && AddTriples(adj, lines[..i]).None?
    ensures AddTriples(adj, lines).None?
    decreases |lines| - i
  {
    if i < |lines| {
      assert lines[..i + 1][..i] == lines[..i];
      AddTriplesFails(adj, lines, i + 1);
    } else {
      assert lines[..i] == lines;
    }
  }
}
