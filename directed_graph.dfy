/**
 * The unweighted directed graph of the Literals and Graphs.Literals packages:
 * an array of N lists of heads, for the vertices 0..N-1, and an edge counter.
 * Both classes share the empty-graph constructor, addEdge, getEdges and
 * reverseGraph; they differ in how a file is read. The Literals class scans
 * the whole text character by character ("a b \n" per edge), the
 * Graphs.Literals class splits each line at whitespace.
 */
module Directed {
  import opened Wrappers
  import opened JavaText
  import JavaInt

  type Lists = seq<seq<int>>

  /** n empty lists. */
  function Empty(n: nat): (adj: Lists)
    ensures |adj| == n && forall i :: 0 <= i < n ==> adj[i] == []
  {
    seq(n, _ => [])
  }

  /** The number of entries over all lists. */
  function Total(adj: Lists): nat {
    if |adj| == 0 then 0 else Total(adj[..|adj| - 1]) + |adj[|adj| - 1]|
  }

  /** Every head names one of the lists. */
  predicate HeadsIn(adj: Lists) {
    forall u, i :: 0 <= u < |adj| && 0 <= i < |adj[u]| ==> 0 <= adj[u][i] < |adj|
  }

  /** Replacing one list changes the count by the difference in length. */
  lemma {:induction false} TotalUpdate(adj: Lists, i: int, l: seq<int>)
    requires 0 <= i < |adj|
    ensures Total(adj[i := l]) == Total(adj) - |adj[i]| + |l|
    decreases |adj|
  {
    var n := |adj| - 1;
    assert adj[i := l][..n] == if i == n then adj[..n] else adj[..n][i := l];
    if i < n {
      TotalUpdate(adj[..n], i, l);
    }
  }

  lemma {:induction false} TotalEmpty(n: nat)
    ensures Total(Empty(n)) == 0
  {
    if n > 0 {
      assert Empty(n)[..n - 1] == Empty(n - 1);
      TotalEmpty(n - 1);
    }
  }

  // ---------------------------------------------------------------------------
  // reverseGraph
  // ---------------------------------------------------------------------------

  /** Tail u appended to the list of each head in row, in the row's order. */
  function AppendEach(r: Lists, row: seq<int>, u: int): (s: Lists)
    requires forall i :: 0 <= i < |row| ==> 0 <= row[i] < |r|
    ensures |s| == |r|
  {
    if |row| == 0 then r
    else var front := AppendEach(r, row[..|row| - 1], u);
      var v := row[|row| - 1];
      front[v := front[v] + [u]]
  }

  /** The reversed lists after the rows 0..i-1, in the order reverseGraph visits the entries. */
  function RevRows(adj: Lists, i: nat): (r: Lists)
    requires HeadsIn(adj) && i <= |adj|
    ensures |r| == |adj|
  {
    if i == 0 then Empty(|adj|) else AppendEach(RevRows(adj, i - 1), adj[i - 1], i - 1)
  }

  /** The lists of reverseGraph's result. */
  function Reversed(adj: Lists): (r: Lists)
    requires HeadsIn(adj)
    ensures |r| == |adj|
  {
    RevRows(adj, |adj|)
  }

  /** Appending u for each entry of row adds to list v one u per occurrence of v in row. */
  lemma {:induction false} AppendEachCount(r: Lists, row: seq<int>, u: int, v: int, x: int)
    requires forall i :: 0 <= i < |row| ==> 0 <= row[i] < |r|
    requires 0 <= v < |r|
    ensures multiset(AppendEach(r, row, u)[v])[x] == multiset(r[v])[x] + (if x == u then multiset(row)[v] else 0)
  {
    if |row| > 0 {
      var n := |row| - 1;
      AppendEachCount(r, row[..n], u, v, x);
      assert row == row[..n] + [row[n]];
      assert multiset(row) == multiset(row[..n]) + multiset{row[n]};
    }
  }

  /** Appending adds one entry per entry of the row. */
  lemma {:induction false} AppendEachTotal(r: Lists, row: seq<int>, u: int)
    requires forall i :: 0 <= i < |row| ==> 0 <= row[i] < |r|
    ensures Total(AppendEach(r, row, u)) == Total(r) + |row|
  {
    if |row| > 0 {
      var front := AppendEach(r, row[..|row| - 1], u);
      AppendEachTotal(r, row[..|row| - 1], u);
      TotalUpdate(front, row[|row| - 1], front[row[|row| - 1]] + [u]);
    }
  }

  /** After the rows below i, list v holds u once per occurrence of v in u's list, for each u < i. */
  lemma {:induction false} RevRowsCount(adj: Lists, i: nat, v: int, u: int)
    requires HeadsIn(adj) && i <= |adj| && 0 <= v < |adj|
    ensures multiset(RevRows(adj, i)[v])[u] == if 0 <= u < i then multiset(adj[u])[v] else 0
  {
    if i > 0 {
      RevRowsCount(adj, i - 1, v, u);
      AppendEachCount(RevRows(adj, i - 1), adj[i - 1], i - 1, v, u);
    }
  }

  /** reverseGraph: v's list holds u exactly as often as u's list holds v. */
  lemma ReversedCount(adj: Lists, u: int, v: int)
    requires HeadsIn(adj) && 0 <= u < |adj| && 0 <= v < |adj|
    ensures multiset(Reversed(adj)[v])[u] == multiset(adj[u])[v]
  {
    RevRowsCount(adj, |adj|, v, u);
  }

  /** Every entry of a reversed list is a vertex. */
  lemma {:induction false} RevRowsHeads(adj: Lists, i: nat)
    requires HeadsIn(adj) && i <= |adj|
    ensures HeadsIn(RevRows(adj, i))
  {
    if i > 0 {
      RevRowsHeads(adj, i - 1);
      var r := RevRows(adj, i);
      forall v, t | 0 <= v < |r| && 0 <= t < |r[v]| ensures 0 <= r[v][t] < |r| {
        var x := r[v][t];
        assert x in multiset(r[v]);
        RevRowsCount(adj, i, v, x);
      }
    }
  }

  /** The reversed graph has as many entries as the original. */
  lemma {:induction false} RevRowsTotal(adj: Lists, i: nat)
    requires HeadsIn(adj) && i <= |adj|
    ensures Total(RevRows(adj, i)) == Total(adj[..i])
  {
    if i == 0 {
      TotalEmpty(|adj|);
    } else {
      RevRowsTotal(adj, i - 1);
      AppendEachTotal(RevRows(adj, i - 1), adj[i - 1], i - 1);
      assert adj[..i][..i - 1] == adj[..i - 1];
    }
  }

  /** Reversing twice gives every list back up to order. */
  lemma ReverseTwice(adj: Lists, u: int)
    requires HeadsIn(adj) && 0 <= u < |adj|
    ensures HeadsIn(Reversed(adj))
    ensures multiset(Reversed(Reversed(adj))[u]) == multiset(adj[u])
  {
    var r := Reversed(adj);
    RevRowsHeads(adj, |adj|);
    forall x ensures multiset(Reversed(r)[u])[x] == multiset(adj[u])[x] {
      if 0 <= x < |adj| {
        ReversedCount(r, x, u);
        ReversedCount(adj, u, x);
      } else {
        RevRowsCount(r, |r|, u, x);
        assert x !in adj[u];
      }
    }
  }

  // ---------------------------------------------------------------------------
  // The Literals text format: "a b \n" per edge, scanned character by character
  // ---------------------------------------------------------------------------

  /**
   * The state of the scan: the lists, the two-slot array node, the slot k the
   * next number goes to, and the characters since the last ' ' or '\n'.
   * Failed stands for an exception (a malformed number, a third number on a
   * line, a tail without a list).
   */
  datatype Scan = Failed | Scan(adj: Lists, node0: int, node1: int, k: nat, pending: string)

  /** One character of the scan loop. */
  function Step(s: Scan, c: char): Scan {
    match s
    case Failed => Failed
    case Scan(adj, n0, n1, k, p) =>
      if c == ' ' then
        if k >= 2 then Failed
        else match ParseInt(p)
          case None => Failed
          case Some(v) => if k == 0 then Scan(adj, v, n1, 1, "") else Scan(adj, n0, v, 2, "")
      else if c == '\n' then
        if 0 <= n0 < |adj| then Scan(adj[n0 := adj[n0] + [n1]], n0, n1, 0, "") else Failed
      else Scan(adj, n0, n1, k, p + [c])
  }

  /** The scan over a whole text. */
  function ScanAll(s: Scan, text: string): Scan {
    if |text| == 0 then s else Step(ScanAll(s, text[..|text| - 1]), text[|text| - 1])
  }

  /** After the loop, the pair in node is added once more. */
  function Finish(s: Scan): Option<Lists> {
    match s
    case Failed => None
    case Scan(adj, n0, n1, _, _) => if 0 <= n0 < |adj| then Some(adj[n0 := adj[n0] + [n1]]) else None
  }

  /** The lists DirectedGraph(filename, N) builds from the text of the file. */
  function TextGraph(text: string, n: nat): Option<Lists> {
    Finish(ScanAll(Scan(Empty(n), 0, 0, 0, ""), text))
  }

  /** Scanning a + b is scanning a, then b. */
  lemma {:induction false} ScanAllAppend(s: Scan, a: string, b: string)
    ensures ScanAll(s, a + b) == ScanAll(ScanAll(s, a), b)
    decreases |b|
  {
    if |b| > 0 {
      var n := |b| - 1;
      assert (a + b)[..|a + b| - 1] == a + b[..n];
      ScanAllAppend(s, a, b[..n]);
    } else {
      assert a + b == a;
    }
  }

  /** A failed scan stays failed. */
  lemma {:induction false} ScanAllFailed(text: string)
    ensures ScanAll(Failed, text) == Failed
  {
    if |text| > 0 {
      ScanAllFailed(text[..|text| - 1]);
    }
  }

  /** A word with no ' ' and no '\n' is gathered into the pending characters. */
  lemma {:induction false} ScanWord(adj: Lists, n0: int, n1: int, k: nat, p: string, w: string)
    requires Clean(w, {' ', '\n'})
    ensures ScanAll(Scan(adj, n0, n1, k, p), w) == Scan(adj, n0, n1, k, p + w)
  {
    if |w| > 0 {
      var n := |w| - 1;
      assert Clean(w[..n], {' ', '\n'});
      ScanWord(adj, n0, n1, k, p, w[..n]);
      assert p + w[..n] + [w[n]] == p + w;
    }
  }

  /** The text the format holds for one edge. */
  function EdgeText(a: int, b: int): string {
    IntToString(a) + " " + IntToString(b) + " \n"
  }

  /** A number followed by ' ' goes into slot k of node. */
  lemma ScanNumber(adj: Lists, n0: int, n1: int, k: nat, v: int)
    requires k < 2 && JavaInt.InRange(v)
    ensures ScanAll(Scan(adj, n0, n1, k, ""), IntToString(v) + " ") ==
            if k == 0 then Scan(adj, v, n1, 1, "") else Scan(adj, n0, v, 2, "")
  {
    var w := IntToString(v);
    IntToStringClean(v, {' ', '\n'});
    ParseIntToString(v);
    var s0 := Scan(adj, n0, n1, k, "");
    ScanWord(adj, n0, n1, k, "", w);
    assert "" + w == w;
    ScanAllAppend(s0, w, " ");
  }

  /** Scanning one edge line appends its head to its tail's list and leaves the pair in node. */
  lemma ScanEdge(adj: Lists, n0: int, n1: int, a: int, b: int)
    requires JavaInt.InRange(a) && JavaInt.InRange(b) && 0 <= a < |adj|
    ensures ScanAll(Scan(adj, n0, n1, 0, ""), EdgeText(a, b)) == Scan(adj[a := adj[a] + [b]], a, b, 0, "")
  {
    var sa, sb := IntToString(a) + " ", IntToString(b) + " ";
    var s0 := Scan(adj, n0, n1, 0, "");
    var s1 := Scan(adj, a, n1, 1, "");
    var s2 := Scan(adj, a, b, 2, "");
    ScanNumber(adj, n0, n1, 0, a);
    ScanNumber(adj, a, n1, 1, b);
    assert ScanAll(s2, "\n") == Scan(adj[a := adj[a] + [b]], a, b, 0, "");
    assert EdgeText(a, b) == sa + (sb + "\n");
    ScanAllAppend(s0, sa, sb + "\n");
    ScanAllAppend(s1, sb, "\n");
  }

  /** The text of a list of edges, one line each. */
  function EdgesText(es: seq<(int, int)>): string {
    if |es| == 0 then "" else EdgesText(es[..|es| - 1]) + EdgeText(es[|es| - 1].0, es[|es| - 1].1)
  }

  /** The lists with each edge's head appended to its tail's list, in order. */
  function AddEdges(adj: Lists, es: seq<(int, int)>): (r: Lists)
    requires forall i :: 0 <= i < |es| ==> 0 <= es[i].0 < |adj|
    ensures |r| == |adj|
  {
    if |es| == 0 then adj
    else var front := AddEdges(adj, es[..|es| - 1]);
      var (a, b) := es[|es| - 1];
      front[a := front[a] + [b]]
  }

  predicate EdgesFit(es: seq<(int, int)>, n: nat) {
    forall i :: 0 <= i < |es| ==> 0 <= es[i].0 < n && JavaInt.InRange(es[i].0) && JavaInt.InRange(es[i].1)
  }

  /** The edge text, the lists and the fit of a list of edges, split before its last edge. */
  lemma {:induction false} EdgesLast(adj: Lists, es: seq<(int, int)>)
    requires |es| > 1 && EdgesFit(es, |adj|)
    ensures var n := |es| - 1; EdgesFit(es[..n], |adj|) && es[..n][n - 1] == es[n - 1]
    ensures var n := |es| - 1; EdgesText(es) == EdgesText(es[..n]) + EdgeText(es[n].0, es[n].1)
    ensures var n := |es| - 1; var front := AddEdges(adj, es[..n]);
            AddEdges(adj, es) == front[es[n].0 := front[es[n].0] + [es[n].1]]
  {
    var n := |es| - 1;
    var front := es[..n];
    assert forall i :: 0 <= i < |front| ==> front[i] == es[i];
    assert EdgesFit(front, |adj|);
    var (a, b) := es[n];
    assert EdgesText(es) == EdgesText(front) + EdgeText(a, b);
    var lists := AddEdges(adj, front);
    assert AddEdges(adj, es) == lists[a := lists[a] + [b]];
  }

  /** Scanning the lines of several edges adds them in order and leaves the last one in node. */
  lemma {:induction false} ScanEdges(adj: Lists, es: seq<(int, int)>)
    requires |es| > 0 && EdgesFit(es, |adj|)
    ensures ScanAll(Scan(adj, 0, 0, 0, ""), EdgesText(es)) ==
            Scan(AddEdges(adj, es), es[|es| - 1].0, es[|es| - 1].1, 0, "")
  {
    var n := |es| - 1;
    var (a, b) := es[n];
    if n == 0 {
      assert EdgesText(es) == "" + EdgeText(a, b) == EdgeText(a, b);
      ScanEdge(adj, 0, 0, a, b);
    } else {
      EdgesLast(adj, es);
      ScanEdges(adj, es[..n]);
      ScanAllAppend(Scan(adj, 0, 0, 0, ""), EdgesText(es[..n]), EdgeText(a, b));
      ScanEdge(AddEdges(adj, es[..n]), es[n - 1].0, es[n - 1].1, a, b);
    }
  }

  /**
   * A file of edge lines each ending in '\n' gives every edge in order, and
   * the last one a second time: the add after the loop repeats the pair of
   * the last line.
   */
  lemma TextGraphOfEdges(es: seq<(int, int)>, n: nat)
    requires |es| > 0 && EdgesFit(es, n)
    ensures var (a, b) := es[|es| - 1];
            TextGraph(EdgesText(es), n) == Some(AddEdges(Empty(n), es + [(a, b)]))
  {
    ScanEdges(Empty(n), es);
    var (a, b) := es[|es| - 1];
    assert (es + [(a, b)])[..|es|] == es;
  }

  /** An empty file still adds the pair 0 -> 0 after the loop, and fails when there is no vertex 0. */
  lemma TextGraphOfEmpty(n: nat)
    ensures TextGraph("", n) == if n > 0 then Some(Empty(n)[0 := [0]]) else None
  {
    if n > 0 {
      assert Empty(n)[0] + [0] == [0];
    }
  }

  /** Scanning one more character is one more step. */
  lemma ScanAllNext(s: Scan, text: string, i: nat)
    requires i < |text|
    ensures ScanAll(s, text[..i + 1]) == Step(ScanAll(s, text[..i]), text[i])
  {
    assert text[..i + 1][..i] == text[..i];
  }

  /** The pending characters after text[i]: none after a separator, otherwise one more. */
  lemma {:induction false} PendingNext(text: string, i: nat, j: nat)
    requires j <= i < |text|
    ensures var sep := text[i] == ' ' || text[i] == '\n';
            text[(if sep then i + 1 else j)..i + 1] == if sep then "" else text[j..i] + [text[i]]
  {
  }

  /** Once the scan fails, the whole text fails. */
  lemma ScanFails(s: Scan, text: string, i: nat)
    requires i <= |text| && ScanAll(s, text[..i]) == Failed
    ensures ScanAll(s, text) == Failed
  {
    assert text == text[..i] + text[i..];
    ScanAllAppend(s, text[..i], text[i..]);
    ScanAllFailed(text[i..]);
  }

  // ---------------------------------------------------------------------------
  // The Graphs.Literals line format: "a<whitespace>b" per line
  // ---------------------------------------------------------------------------

  /** The characters the pattern "\\s" matches. */
  const Whitespace: set<char> := {' ', '\t', '\n', '\U{B}', '\U{C}', '\r'}

  /** The tail and head of one line: the first two fields of split("\\s"). */
  function LineEdge(line: string): Option<(int, int)> {
    match ParseFields(Split(line, Whitespace), 2)
    case None => None
    case Some(v) => Some((v[0], v[1]))
  }

  /** The lists after the lines; each line's head appended to its tail's list. */
  function AddLines(adj: Lists, lines: seq<string>): Option<Lists> {
    if |lines| == 0 then Some(adj)
    else match AddLines(adj, lines[..|lines| - 1])
      case None => None
      case Some(a) =>
        match LineEdge(lines[|lines| - 1])
        case None => None
        case Some((t, h)) => if 0 <= t < |a| then Some(a[t := a[t] + [h]]) else None
  }

  /** Reading lines keeps the number of lists and adds one entry per line. */
  lemma {:induction false} AddLinesTotal(adj: Lists, lines: seq<string>)
    requires AddLines(adj, lines).Some?
    ensures |AddLines(adj, lines).value| == |adj|
    ensures Total(AddLines(adj, lines).value) == Total(adj) + |lines|
  {
    if |lines| > 0 {
      AddLinesTotal(adj, lines[..|lines| - 1]);
      var a := AddLines(adj, lines[..|lines| - 1]).value;
      var (t, h) := LineEdge(lines[|lines| - 1]).value;
      TotalUpdate(a, t, a[t] + [h]);
    }
  }

  /** Once a line fails, the whole file fails. */
  lemma {:induction false} AddLinesFails(adj: Lists, lines: seq<string>, i: nat)
    requires i <= |lines| && AddLines(adj, lines[..i]).None?
    ensures AddLines(adj, lines).None?
    decreases |lines| - i
  {
    if i < |lines| {
      assert lines[..i + 1][..i] == lines[..i];
      AddLinesFails(adj, lines, i + 1);
    } else {
      assert lines[..i] == lines;
    }
  }

  /** A line "a b" holds the edge a -> b. */
  lemma LineEdgeRoundTrip(a: int, b: int)
    requires JavaInt.InRange(a) && JavaInt.InRange(b)
    ensures LineEdge(IntToString(a) + " " + IntToString(b)) == Some((a, b))
  {
    var pieces := [IntToString(a), IntToString(b)];
    SplitPair(a, b);
    ParseIntToString(a);
    ParseIntToString(b);
    assert ParseFields(pieces, 0) == Some([]);
    assert [] + [a] == [a] && [a] + [b] == [a, b];
    assert ParseFields(pieces, 1) == Some([a]);
  }

  /** Splitting "a b" at whitespace gives the two numbers' texts. */
  lemma SplitPair(a: int, b: int)
    ensures Split(IntToString(a) + " " + IntToString(b), Whitespace) == [IntToString(a), IntToString(b)]
  {
    var pieces := [IntToString(a), IntToString(b)];
    IntToStringClean(a, Whitespace);
    IntToStringClean(b, Whitespace);
    IntToStringClean(a, {' '});
    IntToStringClean(b, {' '});
    assert Join(pieces, ' ') == IntToString(a) + " " + IntToString(b);
    SplitJoin(pieces, ' ');
    SplitOtherSeparators(Join(pieces, ' '), pieces);
  }

  /** The only whitespace in s is ' '. */
  predicate SpacesOnly(s: string) {
    forall i :: 0 <= i < |s| ==> s[i] == ' ' || s[i] !in Whitespace
  }

  /** Splitting at all of Whitespace is splitting at ' ' when ' ' is the only whitespace present. */
  lemma {:induction false} FieldsOtherSeparators(s: string)
    requires SpacesOnly(s)
    ensures Fields(s, Whitespace) == Fields(s, {' '})
    decreases |s|
  {
    if |s| > 0 {
      FieldsOtherSeparators(s[1..]);
    }
  }

  lemma SplitOtherSeparators(s: string, pieces: seq<string>)
    requires |pieces| >= 1 && forall k :: 0 <= k < |pieces| ==> Clean(pieces[k], Whitespace)
    requires s == Join(pieces, ' ')
    ensures Split(s, Whitespace) == Split(s, {' '})
  {
    JoinChars(pieces);
    FieldsOtherSeparators(s);
  }

  lemma {:induction false} JoinChars(pieces: seq<string>)
    requires |pieces| >= 1 && forall k :: 0 <= k < |pieces| ==> Clean(pieces[k], Whitespace)
    ensures SpacesOnly(Join(pieces, ' '))
  {
    if |pieces| > 1 {
      JoinChars(pieces[1..]);
      var s := Join(pieces, ' ');
      var p, rest := pieces[0], Join(pieces[1..], ' ');
      assert s == p + [' '] + rest;
      assert Clean(p, Whitespace) && SpacesOnly(rest);
      forall i | 0 <= i < |s| ensures s[i] == ' ' || s[i] !in Whitespace {
        if i < |p| {
          assert s[i] == p[i] && p[i] !in Whitespace;
        } else if i == |p| {
          assert s[i] == ' ';
        } else {
          var t := i - |p| - 1;
          assert s[i] == rest[t];
        }
      }
    }
  }

  // ---------------------------------------------------------------------------
  // The class
  // ---------------------------------------------------------------------------

  class DirectedGraph {
    var nodes: int
    var edges: int
    var adjList: Lists

    /** DirectedGraph(N): N empty lists, for the vertices 0..N-1. */
    constructor (N: nat)
      ensures nodes == N && edges == 0 && adjList == Empty(N)
    {
      var blank: Lists := [];
      for i := 0 to N
        invariant blank == Empty(i)
      {
        blank := blank + [[]];
      }
      nodes, edges, adjList := N, 0, blank;
    }

    /** getEdges: the list stored for the vertex. */
    function GetEdges(node: int): (r: seq<int>)
      reads this
      requires 0 <= node < |adjList|
      ensures r == adjList[node]
    {
      adjList[node]
    }

    /** addEdge: node2 appended to node1's list, and one more edge counted. */
    method AddEdge(node1: int, node2: int)
      requires 0 <= node1 < |adjList|
      modifies this
      ensures adjList == old(adjList)[node1 := old(adjList)[node1] + [node2]]
      ensures edges == old(edges) + 1 && nodes == old(nodes)
    {
      adjList := adjList[node1 := adjList[node1] + [node2]];
      edges := edges + 1;
    }

    /**
     * reverseGraph: a new graph with u in v's list for every v in u's list,
     * in the order the lists are visited, and one edge counted per entry.
     * This graph is only read.
     */
    method ReverseGraph() returns (reverse: DirectedGraph)
      requires nodes == |adjList| && HeadsIn(adjList)
      ensures fresh(reverse) && reverse.nodes == nodes
      ensures reverse.adjList == Reversed(adjList) && reverse.edges == Total(adjList)
    {
      reverse := new DirectedGraph(nodes);
      for i := 0 to nodes
        invariant reverse.nodes == nodes && reverse.adjList == RevRows(adjList, i)
        invariant reverse.edges == Total(adjList[..i])
      {
        reverse.AppendRow(adjList[i], i);
        assert adjList[..i + 1][..i] == adjList[..i];
      }
      assert adjList[..nodes] == adjList;
    }

    /** The inner loop of reverseGraph: u appended to the list of each head of row. */
    method AppendRow(row: seq<int>, u: int)
      requires forall i :: 0 <= i < |row| ==> 0 <= row[i] < |adjList|
      modifies this
      ensures nodes == old(nodes) && adjList == AppendEach(old(adjList), row, u)
      ensures edges == old(edges) + |row|
    {
      for t := 0 to |row|
        invariant nodes == old(nodes) && edges == old(edges) + t
        invariant adjList == AppendEach(old(adjList), row[..t], u)
      {
        assert row[..t + 1][..t] == row[..t];
        AddEdge(row[t], u);
      }
      assert row[..|row|] == row;
    }

    /**
     * DirectedGraph(filename, N) of the Literals package, on the text of the
     * file. The edge counter is never touched. None stands for the exception
     * a malformed text raises.
     */
    static method FromText(text: string, N: nat) returns (g: Option<DirectedGraph>)
      ensures g.Some? == TextGraph(text, N).Some?
      ensures g.Some? ==> fresh(g.value) && g.value.nodes == N && g.value.edges == 0 &&
                          g.value.adjList == TextGraph(text, N).value
    {
      var graph := new DirectedGraph(N);
      var ok, node0, node1 := graph.ScanText(text);
      if !ok || !(0 <= node0 < |graph.adjList|) {
        return None;
      }
      graph.adjList := graph.adjList[node0 := graph.adjList[node0] + [node1]];
      return Some(graph);
    }

    /** The loop of DirectedGraph(filename, N) over the characters of the text; ok is false where Java throws. */
    method ScanText(text: string) returns (ok: bool, node0: int, node1: int)
      modifies this
      ensures nodes == old(nodes) && edges == old(edges)
      ensures ok <==> ScanAll(Scan(old(adjList), 0, 0, 0, ""), text).Scan?
      ensures ok ==> var s := ScanAll(Scan(old(adjList), 0, 0, 0, ""), text);
                     s.adj == adjList && s.node0 == node0 && s.node1 == node1
    {
      node0, node1 := 0, 0;
      var i, j, k := 0, 0, 0;
      ghost var start := Scan(adjList, 0, 0, 0, "");
      while i < |text|
        invariant 0 <= j <= i <= |text|
        invariant nodes == old(nodes) && edges == old(edges)
        invariant ScanAll(start, text[..i]) == Scan(adjList, node0, node1, k, text[j..i])
      {
        ok, node0, node1, k, j := Advance(start, text, i, j, node0, node1, k);
        if !ok {
          ScanFails(start, text, i + 1);
          return;
        }
        i := i + 1;
      }
      assert text[..i] == text;
      return true, node0, node1;
    }

    /** One pass of the loop of ScanText: the scan of text[..i + 1], and the start of the pending text. */
    method Advance(ghost start: Scan, text: string, i: nat, j: nat, n0: int, n1: int, k: nat)
      returns (ok: bool, m0: int, m1: int, m: nat, j': nat)
      requires j <= i < |text| && ScanAll(start, text[..i]) == Scan(adjList, n0, n1, k, text[j..i])
      modifies this
      ensures nodes == old(nodes) && edges == old(edges)
      ensures ok ==> j' <= i + 1 && ScanAll(start, text[..i + 1]) == Scan(adjList, m0, m1, m, text[j'..i + 1])
      ensures !ok ==> ScanAll(start, text[..i + 1]) == Failed
    {
      ScanAllNext(start, text, i);
      ok, m0, m1, m := ScanChar(text[i], text[j..i], n0, n1, k);
      j' := if text[i] == ' ' || text[i] == '\n' then i + 1 else j;
      PendingNext(text, i, j);
    }

    /**
     * One character of the scan loop of DirectedGraph(filename, N): a ' '
     * parses the pending text into slot k of node, a '\n' adds the pair in
     * node. The result mirrors Step; ok is false where Java throws.
     */
    method ScanChar(c: char, p: string, n0: int, n1: int, k: nat) returns (ok: bool, m0: int, m1: int, m: nat)
      modifies this
      ensures nodes == old(nodes) && edges == old(edges)
      ensures ok ==> Step(Scan(old(adjList), n0, n1, k, p), c) ==
                     Scan(adjList, m0, m1, m, if c == ' ' || c == '\n' then "" else p + [c])
      ensures !ok <==> Step(Scan(old(adjList), n0, n1, k, p), c) == Failed
    {
      m0, m1, m := n0, n1, k;
      if c == ' ' {
        var number := ParseInt(p);
        if k >= 2 || number.None? {
          return false, m0, m1, m;
        }
        if k == 0 {
          m0 := number.value;
        } else {
          m1 := number.value;
        }
        m := k + 1;
      } else if c == '\n' {
        m := 0;
        if !(0 <= n0 < |adjList|) {
          return false, m0, m1, m;
        }
        adjList := adjList[n0 := adjList[n0] + [n1]];
      }
      return true, m0, m1, m;
    }

    /** One line of the Graphs.Literals file: addEdge on its two fields, then edges++ once more. */
    method ReadLine(line: string) returns (ok: bool)
      modifies this
      ensures nodes == old(nodes)
      ensures ok == (LineEdge(line).Some? && 0 <= LineEdge(line).value.0 < |old(adjList)|)
      ensures ok ==> adjList == old(adjList)[LineEdge(line).value.0 := old(adjList)[LineEdge(line).value.0] + [LineEdge(line).value.1]]
      ensures ok ==> edges == old(edges) + 2
    {
      var fileNodes := Split(line, Whitespace);
      var v := ParseFields(fileNodes, 2);
      if v.None? || !(0 <= v.value[0] < |adjList|) {
        return false;
      }
      AddEdge(v.value[0], v.value[1]);
      edges := edges + 1;
      return true;
    }

    /**
     * DirectedGraph(filename, N) of the Graphs.Literals package, on the lines
     * of the file: one entry per line and the edge counter at twice the
     * number of lines. None stands for the exception a malformed line raises.
     */
    static method FromLines(lines: seq<string>, N: nat) returns (g: Option<DirectedGraph>)
      ensures g.Some? == AddLines(Empty(N), lines).Some?
      ensures g.Some? ==> fresh(g.value) && g.value.nodes == N &&
                          g.value.adjList == AddLines(Empty(N), lines).value && g.value.edges == 2 * |lines|
    {
      var graph := new DirectedGraph(N);
      var i := 0;
      while i < |lines|
        invariant 0 <= i <= |lines| && graph.nodes == N && graph.edges == 2 * i
        invariant AddLines(Empty(N), lines[..i]) == Some(graph.adjList)
      {
        assert lines[..i + 1][..i] == lines[..i];
        var ok := graph.ReadLine(lines[i]);
        if !ok {
          AddLinesFails(Empty(N), lines, i + 1);
          return None;
        }
        i := i + 1;
      }
      assert lines[..i] == lines;
      return Some(graph);
    }
  }
}
