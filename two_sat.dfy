/**
 * A 2-SAT instance decided with Kosaraju's two passes over its implication
 * graph.  Symbol k is vertex 2k and its negation -k is vertex 2k+1, so with
 * n symbols the vertices in use are 2..2n+1 and nodes is 2n+2.  A clause
 * (a or b) adds the implications (not a -> b) and (not b -> a) to the
 * outgoing lists and their reversals to the incoming lists.  The first pass
 * (StackSearch.FirstPass) runs on the incoming lists, the second on the
 * outgoing lists; the instance is reported feasible when no symbol shares
 * its search leader with its negation.  A file is given as its sequence of
 * lines.
 */
module TwoSat {
  import opened Wrappers
  import opened JavaText
  import opened Directed
  import opened StackSearch
  import JavaInt

  // ---------------------------------------------------------------------------
  // Symbols and vertices
  // ---------------------------------------------------------------------------

  /** negate: the other vertex of the pair, 2k <-> 2k+1.  Java's symbol % 2 == 0 holds exactly for the even
      values, negative ones included, which is what Dafny's x % 2 == 0 says too. */
  function Negate(symbol: int): (r: int)
    ensures (r == symbol + 1 || r == symbol - 1) && r / 2 == symbol / 2
    ensures (r % 2 == 0) != (symbol % 2 == 0)
  {
    if symbol % 2 == 0 then symbol + 1 else symbol - 1
  }

  /** Java's remainder by 2 is zero exactly when Dafny's is. */
  lemma EvenTest(x: int)
    ensures (JavaInt.Rem(x, 2) == 0) == (x % 2 == 0)
  {
  }

  /** Negation pairs the vertices: it is an involution without fixed points that keeps each pair {2k, 2k+1}. */
  lemma NegatePairs(v: int)
    ensures Negate(Negate(v)) == v && Negate(v) != v
    ensures v >= 0 ==> Negate(v) / 2 == v / 2
  {
  }

  /** Math.abs on an int: Integer.MIN_VALUE is its own absolute value. */
  function Abs(x: int): int {
    if x >= 0 then x else if x == JavaInt.INT_MIN then x else -x
  }

  /** The vertex of a symbol as read from the file, TwoSAT.java:41-45: the doubled value, wrapped to an int, and for a
      negative one its absolute value plus one, wrapped again. */
  function Vertex(symbol: int): (r: int)
    ensures JavaInt.InRange(r)
    ensures r < 0 <==> JavaInt.Wrap(symbol * 2) == JavaInt.INT_MIN
    ensures r < 0 ==> r == JavaInt.INT_MIN + 1
    ensures r >= 0 ==> (r % 2 == 1 <==> JavaInt.Wrap(symbol * 2) < 0)
  {
    var doubled := JavaInt.Wrap(symbol * 2);
    if doubled < 0 then JavaInt.Wrap(Abs(doubled) + 1) else doubled
  }

  /** The vertex the representation intends for symbol k: 2k, and 2|k|+1 for a negation. */
  function Literal(k: int): int {
    if k >= 0 then 2 * k else -2 * k + 1
  }

  /** Below 2^30 in absolute value no arithmetic wraps, and the vertex is the intended one. */
  lemma VertexOfSymbol(k: int)
    requires -0x4000_0000 < k < 0x4000_0000
    ensures Vertex(k) == Literal(k)
  {
  }

  /** The negation of a literal's vertex is the vertex of the negated literal, for every symbol but 0. */
  lemma NegateLiteral(k: int)
    requires k != 0
    ensures Negate(Literal(k)) == Literal(-k)
  {
  }

  /** Distinct literals have distinct vertices, and the literals of symbols 1..n are the vertices 2..2n+1. */
  lemma LiteralRange(k: int, j: int, n: int)
    ensures Literal(k) == Literal(j) ==> k == j
    ensures (1 <= k <= n || -n <= k <= -1) <==> 2 <= Literal(k) < 2 * n + 2
  {
  }

  // ---------------------------------------------------------------------------
  // The lines of the file
  // ---------------------------------------------------------------------------

  /** A clause line "a b": the vertices of its first two space-separated fields; None where Java throws. */
  function ClauseLine(line: string): (r: Option<(int, int)>)
    ensures r.Some? <==> ParseFields(Split(line, {' '}), 2).Some?
  {
    match ParseFields(Split(line, {' '}), 2)
      case None => None
      case Some(f) => Some((Vertex(f[0]), Vertex(f[1])))
  }

  /** The line "a b" for two ints. */
  function ClauseText(a: int, b: int): string {
    Join([IntToString(a), IntToString(b)], ' ')
  }

  /** ClauseLine reads back the vertices of the symbols ClauseText writes. */
  lemma ClauseRoundTrip(a: int, b: int)
    requires JavaInt.InRange(a) && JavaInt.InRange(b)
    ensures ClauseLine(ClauseText(a, b)) == Some((Vertex(a), Vertex(b)))
  {
    var pieces := [IntToString(a), IntToString(b)];
    IntToStringClean(a, {' '});
    IntToStringClean(b, {' '});
    SplitJoin(pieces, ' ');
    ParseIntToString(a);
    ParseIntToString(b);
    assert ParseFields(pieces, 0) == Some([]);
    assert [] + [a] == [a] && [a] + [b] == [a, b];
    assert ParseFields(pieces, 1) == Some([a]);
  }

  /** Every vertex a clause touches, and every negation of one, is a list index. */
  predicate Fits(c: (int, int), count: int) {
    0 <= c.0 < count && 0 <= c.1 < count && 0 <= Negate(c.0) < count && 0 <= Negate(c.1) < count
  }

  predicate AllFit(cs: seq<(int, int)>, count: int) {
    forall i :: 0 <= i < |cs| ==> Fits(cs[i], count)
  }

  /** The clauses of the lines after the first, in order; None where Java throws: a malformed line, or a
      vertex or negation beyond the lists. */
  function Clauses(lines: seq<string>, count: int): (r: Option<seq<(int, int)>>)
    ensures r.Some? ==> |r.value| == |lines| && AllFit(r.value, count)
  {
    if lines == [] then Some([])
    else match (Clauses(lines[..|lines| - 1], count), Accepted(lines[|lines| - 1], count))
      case (Some(cs), Some(c)) => Some(cs + [c])
      case _ => None
  }

  /** The clause of one line, if it parses and fits the lists. */
  function Accepted(line: string, count: int): (r: Option<(int, int)>)
    ensures r.Some? ==> Fits(r.value, count)
  {
    match ClauseLine(line)
      case None => None
      case Some(c) => if Fits(c, count) then Some(c) else None
  }

  /** The number of lists of TwoSAT(filename): the loop i = 0..nodes runs nodes + 1 times, or not at all. */
  function ListCount(nodes: int): nat {
    if nodes >= 0 then nodes + 1 else 0
  }

  // ---------------------------------------------------------------------------
  // The implication graph
  // ---------------------------------------------------------------------------

  /** list.add(y) on the list of x. */
  function Append(g: Lists, x: int, y: int): (r: Lists)
    requires 0 <= x < |g|
    ensures |r| == |g|
  {
    g[x := g[x] + [y]]
  }

  /** Each clause (a, b) appends b to the list of not a, then a to the list of not b. */
  function Outgoing(count: nat, cs: seq<(int, int)>): (r: Lists)
    requires AllFit(cs, count)
    ensures |r| == count
  {
    if cs == [] then Empty(count)
    else
      var g := Outgoing(count, cs[..|cs| - 1]);
      var c := cs[|cs| - 1];
      Append(Append(g, Negate(c.0), c.1), Negate(c.1), c.0)
  }

  /** Each clause (a, b) appends not a to the list of b, then not b to the list of a. */
  function Incoming(count: nat, cs: seq<(int, int)>): (r: Lists)
    requires AllFit(cs, count)
    ensures |r| == count
  {
    if cs == [] then Empty(count)
    else
      var g := Incoming(count, cs[..|cs| - 1]);
      var c := cs[|cs| - 1];
      Append(Append(g, c.1, Negate(c.0)), c.0, Negate(c.1))
  }

  /** The state of a TwoSAT object that has read the clauses cs. */
  predicate Consistent(nodes: int, cs: seq<(int, int)>, outgoing: Lists, incoming: Lists, edges: int) {
    AllFit(cs, ListCount(nodes)) &&
    outgoing == Outgoing(ListCount(nodes), cs) &&
    incoming == Incoming(ListCount(nodes), cs) &&
    edges == JavaInt.Wrap(2 * |cs|)
  }

  /** Reading one more clause appends to four lists and counts two edges. */
  lemma ClauseStep(nodes: int, cs: seq<(int, int)>, outgoing: Lists, incoming: Lists, edges: int, c: (int, int))
    requires Consistent(nodes, cs, outgoing, incoming, edges) && Fits(c, ListCount(nodes))
    ensures Consistent(nodes, cs + [c],
                       Append(Append(outgoing, Negate(c.0), c.1), Negate(c.1), c.0),
                       Append(Append(incoming, c.1, Negate(c.0)), c.0, Negate(c.1)),
                       JavaInt.Wrap(edges + 2))
  {
    assert (cs + [c])[..|cs|] == cs;
    JavaInt.WrapAdd(2 * |cs|, 2);
  }

  /** How often u -> v is among the implications of the clauses. */
  function Implied(cs: seq<(int, int)>, u: int, v: int): nat {
    if cs == [] then 0
    else
      var c := cs[|cs| - 1];
      Implied(cs[..|cs| - 1], u, v) + (if Negate(c.0) == u && c.1 == v then 1 else 0)
                                     + (if Negate(c.1) == u && c.0 == v then 1 else 0)
  }

  /** Appending y to list x adds one y to list x and nothing else. */
  lemma AppendCount(g: Lists, x: int, y: int, u: int, v: int)
    requires 0 <= x < |g| && 0 <= u < |g|
    ensures multiset(Append(g, x, y)[u])[v] == multiset(g[u])[v] + (if x == u && y == v then 1 else 0)
  {
  }

  /** The outgoing lists hold each implication of the clauses as often as the clauses imply it. */
  lemma {:induction false} OutgoingCount(count: nat, cs: seq<(int, int)>, u: int, v: int)
    requires AllFit(cs, count) && 0 <= u < count
    ensures multiset(Outgoing(count, cs)[u])[v] == Implied(cs, u, v)
  {
    if cs != [] {
      var front := cs[..|cs| - 1];
      assert AllFit(front, count);
      OutgoingCount(count, front, u, v);
      var g := Outgoing(count, front);
      var c := cs[|cs| - 1];
      AppendCount(g, Negate(c.0), c.1, u, v);
      AppendCount(Append(g, Negate(c.0), c.1), Negate(c.1), c.0, u, v);
    }
  }

  /** The incoming lists are the outgoing lists reversed: v's incoming list holds u as often as u's outgoing
      list holds v. */
  lemma {:induction false} IncomingCount(count: nat, cs: seq<(int, int)>, u: int, v: int)
    requires AllFit(cs, count) && 0 <= u < count && 0 <= v < count
    ensures multiset(Incoming(count, cs)[v])[u] == Implied(cs, u, v)
  {
    if cs != [] {
      var front := cs[..|cs| - 1];
      assert AllFit(front, count);
      IncomingCount(count, front, u, v);
      var g := Incoming(count, front);
      var c := cs[|cs| - 1];
      AppendCount(g, c.1, Negate(c.0), v, u);
      AppendCount(Append(g, c.1, Negate(c.0)), c.0, Negate(c.1), v, u);
    }
  }

  /** The implications are symmetric under contraposition: u -> v as often as not v -> not u. */
  lemma {:induction false} Contraposition(cs: seq<(int, int)>, u: int, v: int)
    ensures Implied(cs, u, v) == Implied(cs, Negate(v), Negate(u))
  {
    if cs != [] {
      Contraposition(cs[..|cs| - 1], u, v);
      var c := cs[|cs| - 1];
      NegatePairs(u);
      NegatePairs(v);
      NegatePairs(c.0);
      NegatePairs(c.1);
    }
  }

  /** Two entries per clause, over all lists. */
  lemma {:induction false} OutgoingTotal(count: nat, cs: seq<(int, int)>)
    requires AllFit(cs, count)
    ensures Total(Outgoing(count, cs)) == 2 * |cs|
  {
    if cs == [] {
      TotalEmpty(count);
    } else {
      var front := cs[..|cs| - 1];
      assert AllFit(front, count);
      OutgoingTotal(count, front);
      var g := Outgoing(count, front);
      var c := cs[|cs| - 1];
      TotalUpdate(g, Negate(c.0), g[Negate(c.0)] + [c.1]);
      TotalUpdate(Append(g, Negate(c.0), c.1), Negate(c.1), Append(g, Negate(c.0), c.1)[Negate(c.1)] + [c.0]);
    }
  }

  /** Every clause touches vertices 2..nodes-1 only: the symbols are 1..n. */
  predicate InUse(cs: seq<(int, int)>, nodes: int) {
    forall i :: 0 <= i < |cs| ==> 2 <= cs[i].0 < nodes && 2 <= cs[i].1 < nodes
  }

  /** With an even nodes, negation keeps 2..nodes-1. */
  lemma NegateInUse(x: int, nodes: int)
    requires 2 <= x < nodes && nodes % 2 == 0
    ensures 2 <= Negate(x) < nodes
  {
  }

  /** Every head of every list lies in lo..bound-1. */
  predicate HeadsBetween(g: Lists, lo: int, bound: int) {
    forall u, i :: 0 <= u < |g| && 0 <= i < |g[u]| ==> lo <= g[u][i] < bound
  }

  /** Appending keeps the heads of a list within lo..bound-1 when the appended head is. */
  lemma AppendHeads(g: Lists, x: int, y: int, lo: nat, bound: nat)
    requires 0 <= x < |g| && lo <= y < bound && HeadsBetween(g, lo, bound)
    ensures HeadsBetween(Append(g, x, y), lo, bound)
  {
    var h := Append(g, x, y);
    forall u, i | 0 <= u < |h| && 0 <= i < |h[u]|
      ensures lo <= h[u][i] < bound
    {
      if u == x && i == |g[x]| {
      } else {
        assert h[u][i] == g[u][i];
      }
    }
  }

  /** The lists below nodes of a graph of clauses in use point only into 2..nodes-1. */
  lemma {:induction false} HeadsInUse(count: nat, cs: seq<(int, int)>, nodes: nat)
    requires AllFit(cs, count) && InUse(cs, nodes) && nodes < count && nodes % 2 == 0
    ensures HeadsBetween(Outgoing(count, cs), 2, nodes) && HeadsBetween(Incoming(count, cs), 2, nodes)
  {
    if cs != [] {
      var front := cs[..|cs| - 1];
      assert AllFit(front, count) && InUse(front, nodes);
      HeadsInUse(count, front, nodes);
      var c := cs[|cs| - 1];
      NegateInUse(c.0, nodes);
      NegateInUse(c.1, nodes);
      var g := Outgoing(count, front);
      AppendHeads(g, Negate(c.0), c.1, 2, nodes);
      AppendHeads(Append(g, Negate(c.0), c.1), Negate(c.1), c.0, 2, nodes);
      var h := Incoming(count, front);
      AppendHeads(h, c.1, Negate(c.0), 2, nodes);
      AppendHeads(Append(h, c.1, Negate(c.0)), c.0, Negate(c.1), 2, nodes);
    }
  }

  /** The first nodes lists, the ones the passes read, form a graph on 0..nodes-1 with no edge into 0 or 1. */
  lemma PassGraph(count: nat, cs: seq<(int, int)>, nodes: nat)
    requires AllFit(cs, count) && InUse(cs, nodes) && nodes < count && nodes % 2 == 0
    ensures HeadsIn(Outgoing(count, cs)[..nodes]) && HeadsFrom(Outgoing(count, cs)[..nodes], 2)
    ensures HeadsIn(Incoming(count, cs)[..nodes]) && HeadsFrom(Incoming(count, cs)[..nodes], 2)
  {
    HeadsInUse(count, cs, nodes);
    HeadsPrefix(Outgoing(count, cs), nodes);
    HeadsPrefix(Incoming(count, cs), nodes);
  }

  lemma HeadsPrefix(g: Lists, nodes: nat)
    requires nodes <= |g| && HeadsBetween(g, 2, nodes)
    ensures HeadsIn(g[..nodes]) && HeadsFrom(g[..nodes], 2)
  {
    forall u, i | 0 <= u < nodes && 0 <= i < |g[..nodes][u]|
      ensures 2 <= g[..nodes][u][i] < nodes
    {
      assert g[..nodes][u] == g[u];
    }
  }

  // ---------------------------------------------------------------------------
  // Leaders
  // ---------------------------------------------------------------------------

  /** leaders after the searches: each member of a search gets its leader, everything else stays 0. */
  function LeaderTable(n: nat, ts: seq<Tree>): (r: seq<int>)
    ensures |r| == n
  {
    if ts == [] then seq(n, _ => 0) else Assign(LeaderTable(n, ts[..|ts| - 1]), ts[|ts| - 1].members, ts[|ts| - 1].leader)
  }

  /** leaders[v] = x for the vertices v of vs within the table. */
  function Assign(t: seq<int>, vs: seq<int>, x: int): (r: seq<int>)
    ensures |r| == |t|
  {
    if vs == [] then t
    else
      var r := Assign(t, vs[..|vs| - 1], x);
      var v := vs[|vs| - 1];
      if 0 <= v < |r| then r[v := x] else r
  }

  lemma {:induction false} AssignAt(t: seq<int>, vs: seq<int>, x: int, v: int)
    requires 0 <= v < |t|
    ensures Assign(t, vs, x)[v] == if v in vs then x else t[v]
  {
    if vs != [] {
      AssignAt(t, vs[..|vs| - 1], x, v);
      assert vs == vs[..|vs| - 1] + [vs[|vs| - 1]];
    }
  }

  /** The vertices of all searches are those before search k, then search k's, then those after. */
  lemma {:induction false} MembersSplit(ts: seq<Tree>, k: int)
    requires 0 <= k < |ts|
    ensures Members(ts) == Members(ts[..k]) + ts[k].members + Members(ts[k + 1..])
  {
    if k > 0 {
      MembersSplit(ts[1..], k - 1);
      assert ts[1..][..k - 1] == ts[1..k];
      assert ts[..k][1..] == ts[1..k];
      assert ts[1..][k - 1 + 1..] == ts[k + 1..];
    } else {
      assert ts[1..] == ts[k + 1..];
    }
  }

  lemma {:induction false} MembersLast(ts: seq<Tree>)
    requires ts != []
    ensures Members(ts) == Members(ts[..|ts| - 1]) + ts[|ts| - 1].members
  {
    var n := |ts| - 1;
    MembersSplit(ts, n);
    assert ts[n + 1..] == [];
  }

  /** When no vertex is in two searches, each member of search k has leader k's, and every other vertex 0. */
  lemma {:induction false} LeaderOf(n: nat, ts: seq<Tree>, v: int)
    requires Distinct(Members(ts)) && 0 <= v < n
    ensures v !in Members(ts) ==> LeaderTable(n, ts)[v] == 0
    ensures forall k :: 0 <= k < |ts| && v in ts[k].members ==> LeaderTable(n, ts)[v] == ts[k].leader
  {
    if ts != [] {
      var front := ts[..|ts| - 1];
      var last := ts[|ts| - 1];
      MembersLast(ts);
      DistinctFront(Members(front), last.members);
      LeaderOf(n, front, v);
      AssignAt(LeaderTable(n, front), last.members, last.leader, v);
      forall k | 0 <= k < |ts| && v in ts[k].members
        ensures LeaderTable(n, ts)[v] == ts[k].leader
      {
        if k < |ts| - 1 {
          assert front[k] == ts[k];
          MembersIn(front, k, v);
          DistinctApart(Members(front), last.members, v);
        }
      }
    }
  }

  lemma DistinctFront(a: seq<int>, b: seq<int>)
    requires Distinct(a + b)
    ensures Distinct(a)
  {
    assert forall i :: 0 <= i < |a| ==> a[i] == (a + b)[i];
  }

  /** In a distinct concatenation, no element is on both sides. */
  lemma DistinctApart(a: seq<int>, b: seq<int>, v: int)
    requires Distinct(a + b) && v in a
    ensures v !in b
  {
    var i :| 0 <= i < |a| && a[i] == v;
    assert (a + b)[i] == v;
    assert forall j :: 0 <= j < |b| ==> (a + b)[|a| + j] == b[j];
  }

  lemma MembersIn(ts: seq<Tree>, k: int, v: int)
    requires 0 <= k < |ts| && v in ts[k].members
    ensures v in Members(ts)
  {
    MembersSplit(ts, k);
  }

  /** No symbol of 1..(nodes-2)/2 has the same entry as its negation, which is what the final loop checks. */
  predicate Separated(leaders: seq<int>) {
    forall i :: 1 <= i < |leaders| && 2 * i + 1 < |leaders| ==> leaders[2 * i] != leaders[2 * i + 1]
  }

  /** The searches of the second pass, over finishingTime[2..] from the last entry down. */
  function SecondTrees(adj: Lists, times: seq<int>): seq<Tree>
    requires HeadsIn(adj) && Within(times, 0, |adj|)
  {
    Searches(adj, times, 2, |times|, Unmarked(|adj|)).1
  }

  /**
   * When the second pass explores every vertex 2..nodes-1 exactly once, the
   * instance is reported feasible exactly when no search holds both a
   * symbol's vertex and its negation's.
   */
  lemma SeparatedMeaning(adj: Lists, times: seq<int>)
    requires HeadsIn(adj) && HeadsFrom(adj, 2) && |times| == |adj| >= 2 && Within(times, 0, |adj|)
    requires multiset(times[2..]) == multiset(Range(2, |adj|))
    ensures Separated(LeaderTable(|adj|, SecondTrees(adj, times))) <==>
            forall k, i :: 0 <= k < |SecondTrees(adj, times)| && 1 <= i && 2 * i + 1 < |adj| ==>
              !(2 * i in SecondTrees(adj, times)[k].members && 2 * i + 1 in SecondTrees(adj, times)[k].members)
  {
    var n := |adj|;
    var ts := SecondTrees(adj, times);
    var table := LeaderTable(n, ts);
    SecondCovers(adj, times);
    if Separated(table) {
      forall k, i | 0 <= k < |ts| && 1 <= i && 2 * i + 1 < n
        ensures !(2 * i in ts[k].members && 2 * i + 1 in ts[k].members)
      {
        PairLeaders(n, ts, 2 * i, 2 * i + 1);
      }
    } else {
      var i :| 1 <= i < n && 2 * i + 1 < n && table[2 * i] == table[2 * i + 1];
      PairLeaders(n, ts, 2 * i, 2 * i + 1);
    }
  }

  /** The second pass explores every vertex 2..N-1 once, and each search starts with its leader. */
  lemma SecondCovers(adj: Lists, times: seq<int>)
    requires HeadsIn(adj) && HeadsFrom(adj, 2) && |times| == |adj| >= 2 && Within(times, 0, |adj|)
    requires multiset(times[2..]) == multiset(Range(2, |adj|))
    ensures Distinct(Members(SecondTrees(adj, times)))
    ensures forall v :: 2 <= v < |adj| ==> v in Members(SecondTrees(adj, times))
    ensures forall k :: 0 <= k < |SecondTrees(adj, times)| ==>
              |SecondTrees(adj, times)[k].members| > 0 &&
              SecondTrees(adj, times)[k].members[0] == SecondTrees(adj, times)[k].leader
  {
    var n := |adj|;
    SearchesMarks(adj, times, 2, n, Unmarked(n));
    PassCovers(adj, times, 2);
    SearchesLeaders(adj, times, 2, n, Unmarked(n));
    CoveredRange(Members(SecondTrees(adj, times)), 2, n);
  }

  lemma RangeWithin(ms: seq<int>, lo: int, hi: int)
    requires multiset(ms) == multiset(Range(lo, hi))
    ensures Within(ms, lo, hi)
  {
    RangeDistinct(lo, hi);
    forall k | 0 <= k < |ms|
      ensures lo <= ms[k] < hi
    {
      assert ms[k] in multiset(Range(lo, hi));
    }
  }

  lemma WithinJoin(a: seq<int>, b: seq<int>, lo: int, hi: int)
    requires Within(a, lo, hi) && Within(b, lo, hi)
    ensures Within(a + b, lo, hi)
  {
    assert forall k :: |a| <= k < |a + b| ==> (a + b)[k] == b[k - |a|];
  }

  lemma CoveredRange(ms: seq<int>, lo: int, hi: int)
    requires multiset(ms) == multiset(Range(lo, hi))
    ensures forall v :: lo <= v < hi ==> v in ms
  {
    RangeDistinct(lo, hi);
    forall v | lo <= v < hi
      ensures v in ms
    {
      assert v in Range(lo, hi);
      assert v in multiset(ms);
    }
  }

  /** Two covered vertices share an entry exactly when they are in the same search, since the leaders of
      different searches differ. */
  lemma PairLeaders(n: nat, ts: seq<Tree>, x: int, y: int)
    requires Distinct(Members(ts)) && 0 <= x < n && 0 <= y < n && x in Members(ts) && y in Members(ts)
    requires forall k :: 0 <= k < |ts| ==> |ts[k].members| > 0 && ts[k].members[0] == ts[k].leader
    ensures LeaderTable(n, ts)[x] == LeaderTable(n, ts)[y] <==>
            exists k :: 0 <= k < |ts| && x in ts[k].members && y in ts[k].members
  {
    var kx := TreeOf(ts, x);
    var ky := TreeOf(ts, y);
    LeaderOf(n, ts, x);
    LeaderOf(n, ts, y);
    if kx != ky {
      LeadersDiffer(ts, kx, ky);
    }
  }

  /** The search whose members hold v. */
  lemma {:induction false} TreeOf(ts: seq<Tree>, v: int) returns (k: int)
    requires v in Members(ts)
    ensures 0 <= k < |ts| && v in ts[k].members
  {
    if v in ts[0].members {
      k := 0;
    } else {
      var j := TreeOf(ts[1..], v);
      k := j + 1;
    }
  }

  /** A vertex lies in at most one search. */
  lemma OneTree(ts: seq<Tree>, j: int, k: int, v: int)
    requires Distinct(Members(ts)) && 0 <= j < |ts| && 0 <= k < |ts| && v in ts[j].members && v in ts[k].members
    ensures j == k
  {
    if j < k {
      MembersSplit(ts, k);
      MembersIn(ts[..k], j, v);
      assert ts[..k][j] == ts[j];
      DistinctFront(Members(ts[..k]) + ts[k].members, Members(ts[k + 1..]));
      DistinctApart(Members(ts[..k]), ts[k].members, v);
    } else if k < j {
      OneTree(ts, k, j, v);
    }
  }

  /** The leaders of two distinct searches differ, as each leader is its search's first member. */
  lemma LeadersDiffer(ts: seq<Tree>, j: int, k: int)
    requires Distinct(Members(ts)) && 0 <= j < |ts| && 0 <= k < |ts| && j != k
    requires forall i :: 0 <= i < |ts| ==> |ts[i].members| > 0 && ts[i].members[0] == ts[i].leader
    ensures ts[j].leader != ts[k].leader
  {
    if ts[j].leader == ts[k].leader {
      assert ts[j].leader in ts[j].members && ts[j].leader in ts[k].members;
      OneTree(ts, j, k, ts[j].leader);
    }
  }

  /** Each search of a pass records its start first. */
  lemma {:induction false} SearchesLeaders(adj: Lists, order: seq<int>, lo: int, i: int, ex: seq<bool>)
    requires HeadsIn(adj) && |ex| == |adj| && i <= |order| && Within(order, 0, |adj|)
    ensures forall k :: 0 <= k < |Searches(adj, order, lo, i, ex).1| ==>
              |Searches(adj, order, lo, i, ex).1[k].members| > 0 &&
              Searches(adj, order, lo, i, ex).1[k].members[0] == Searches(adj, order, lo, i, ex).1[k].leader
    decreases i
  {
    if !(i <= lo || i <= 0) {
      var start := order[i - 1];
      if ex[start] {
        SearchesLeaders(adj, order, lo, i - 1, ex);
      } else {
        var s := Explore(adj, ex, [start]);
        SearchesLeaders(adj, order, lo, i - 1, s.0);
        var r := Searches(adj, order, lo, i - 1, s.0);
        assert Searches(adj, order, lo, i, ex).1 == [Tree(start, s.1)] + r.1;
        UnexploredMark(ex, start);
        assert [start][..0] == [];
        var r2 := Explore(adj, ex[start := true], [] + adj[start]);
        assert s.1 == [start] + r2.1;
      }
    }
  }


  // ---------------------------------------------------------------------------
  // The verdict
  // ---------------------------------------------------------------------------

  /** The conditions under which both passes stay within their arrays: nodes is even and at least 2, and
      every clause touches only the vertices 2..nodes-1 of symbols 1..n. */
  predicate Usable(nodes: int, cs: seq<(int, int)>) {
    2 <= nodes && nodes % 2 == 0 && AllFit(cs, ListCount(nodes)) && InUse(cs, nodes)
  }

  /** The first pass's array: two unused entries, then the first pass's order of 2..N-1. */
  lemma OrderWithin(adj: Lists)
    requires HeadsIn(adj) && HeadsFrom(adj, 2) && 2 <= |adj|
    ensures |[0, 0] + FirstOrder(adj, 2)| == |adj| && Within([0, 0] + FirstOrder(adj, 2), 0, |adj|)
    ensures multiset(([0, 0] + FirstOrder(adj, 2))[2..]) == multiset(Range(2, |adj|))
  {
    var order := FirstOrder(adj, 2);
    FirstOrderPerm(adj, 2);
    RangeWithin(order, 2, |adj|);
    WithinJoin([0, 0], order, 0, |adj|);
    assert ([0, 0] + order)[2..] == order;
  }

  /** The searches of the second pass when main runs on the instance: over the first pass's order. */
  ghost function PassTrees(nodes: int, cs: seq<(int, int)>): seq<Tree>
    requires Usable(nodes, cs)
  {
    var count := ListCount(nodes);
    PassGraph(count, cs, nodes);
    OrderWithin(Incoming(count, cs)[..nodes]);
    SecondTrees(Outgoing(count, cs)[..nodes], [0, 0] + FirstOrder(Incoming(count, cs)[..nodes], 2))
  }

  /** What main prints for the instance. */
  ghost function Verdict(nodes: int, cs: seq<(int, int)>): bool
    requires Usable(nodes, cs)
  {
    Separated(LeaderTable(nodes, PassTrees(nodes, cs)))
  }

  /**
   * The verdict is "feasible" exactly when no search of the second pass holds
   * both vertices 2k and 2k+1 of a symbol k.
   */
  lemma VerdictMeaning(nodes: int, cs: seq<(int, int)>)
    requires Usable(nodes, cs)
    ensures Verdict(nodes, cs) <==>
              forall k, i :: 0 <= k < |PassTrees(nodes, cs)| && 1 <= i && 2 * i + 1 < nodes ==>
                !(2 * i in PassTrees(nodes, cs)[k].members && 2 * i + 1 in PassTrees(nodes, cs)[k].members)
  {
    var count := ListCount(nodes);
    PassGraph(count, cs, nodes);
    OrderWithin(Incoming(count, cs)[..nodes]);
    SeparatedMeaning(Outgoing(count, cs)[..nodes], [0, 0] + FirstOrder(Incoming(count, cs)[..nodes], 2));
  }

  /** The instance a file describes: nodes and the clauses; None where TwoSAT(filename) throws. */
  function Instance(lines: seq<string>): Option<(int, seq<(int, int)>)> {
    if |lines| == 0 then None
    else match ParseInt(lines[0])
      case None => None
      case Some(n) => Loaded(n, lines[1..])
  }

  /** The instance once the first line has given n: n symbols make 2n + 2 vertices, as a Java int. */
  function Loaded(n: int, rest: seq<string>): Option<(int, seq<(int, int)>)> {
    Read(JavaInt.Wrap(n * 2 + 2), rest)
  }

  lemma InstanceRead(lines: seq<string>, n: int)
    requires |lines| > 0 && ParseInt(lines[0]) == Some(n)
    ensures Instance(lines) == Loaded(n, lines[1..])
  {
  }

  /** The instance with nodes vertices and the clause lines rest. */
  function Read(nodes: int, rest: seq<string>): (r: Option<(int, seq<(int, int)>)>)
    ensures r.Some? <==> Clauses(rest, ListCount(nodes)).Some?
    ensures r.Some? ==> r.value.0 == nodes && r.value.1 == Clauses(rest, ListCount(nodes)).value
  {
    match Clauses(rest, ListCount(nodes))
      case None => None
      case Some(cs) => Some((nodes, cs))
  }

  // ---------------------------------------------------------------------------
  // The class
  // ---------------------------------------------------------------------------

  class TwoSAT {
    var outgoingList: Lists
    var incomingList: Lists
    var nodes: int
    var edges: int
    /** The clauses read so far, as vertex pairs. */
    ghost var clauses: seq<(int, int)>

    /** The lists are those of the clauses read, two edges counted per clause. */
    ghost predicate Valid()
      reads this
    {
      Consistent(nodes, clauses, outgoingList, incomingList, edges)
    }

    /** The first lines of TwoSAT(filename) for n symbols: nodes = (n * 2) + 2 in int arithmetic, and
        nodes + 1 empty lists of each kind. */
    constructor (n: int)
      requires JavaInt.InRange(n)
      ensures nodes == JavaInt.Wrap(n * 2 + 2) && clauses == [] && Valid()
    {
      JavaInt.WrapAdd(n * 2, 2);
      var size := JavaInt.Wrap(JavaInt.Wrap(n * 2) + 2);
      nodes := size;
      edges := 0;
      var blank: Lists := [];
      var i := 0;
      while i <= size
        invariant 0 <= i <= ListCount(size) && blank == Empty(i)
      {
        blank := blank + [[]];
        i := i + 1;
      }
      outgoingList := blank;
      incomingList := blank;
      clauses := [];
    }

    /** One clause line of TwoSAT(filename): false where Java throws, and then nothing is changed, since the
        object never reaches the caller. */
    method ReadClause(line: string) returns (ok: bool)
      requires Valid()
      modifies this
      ensures nodes == old(nodes) && Valid()
      ensures ok == Accepted(line, ListCount(nodes)).Some?
      ensures clauses == if ok then old(clauses) + [Accepted(line, ListCount(nodes)).value] else old(clauses)
    {
      var symbols := ClauseLine(line);
      if symbols.None? {
        return false;
      }
      var c := symbols.value;
      if !Fits(c, |outgoingList|) {
        return false;
      }
      AddClause(c);
      return true;
    }

    /** The four list.add calls and edges += 2 of a clause whose vertices fit. */
    method AddClause(c: (int, int))
      requires Valid() && Fits(c, ListCount(nodes))
      modifies this
      ensures nodes == old(nodes) && clauses == old(clauses) + [c] && Valid()
    {
      ClauseStep(nodes, clauses, outgoingList, incomingList, edges, c);
      outgoingList := Append(Append(outgoingList, Negate(c.0), c.1), Negate(c.1), c.0);
      incomingList := Append(Append(incomingList, c.1, Negate(c.0)), c.0, Negate(c.1));
      edges := JavaInt.Wrap(edges + 2);
      clauses := clauses + [c];
    }

    /**
     * TwoSAT(filename) on the lines of the file: the first holds the number of
     * symbols, each further line a clause.  None where Java throws: an empty
     * file, a malformed number, a malformed clause or one beyond the lists.
     */
    static method Load(lines: seq<string>) returns (r: Option<TwoSAT>)
      ensures r.Some? <==> Instance(lines).Some?
      ensures r.Some? ==> fresh(r.value) && r.value.Valid() &&
                          r.value.nodes == Instance(lines).value.0 && r.value.clauses == Instance(lines).value.1
    {
      if |lines| == 0 {
        return None;
      }
      var n := ParseInt(lines[0]);
      if n.None? {
        return None;
      }
      InstanceRead(lines, n.value);
      r := Build(n.value, lines[1..]);
    }

    /** TwoSAT(filename) once the first line has given n. */
    static method Build(n: int, rest: seq<string>) returns (r: Option<TwoSAT>)
      requires JavaInt.InRange(n)
      ensures r.Some? <==> Loaded(n, rest).Some?
      ensures r.Some? ==> fresh(r.value) && r.value.Valid() &&
                          r.value.nodes == Loaded(n, rest).value.0 && r.value.clauses == Loaded(n, rest).value.1
    {
      var t := new TwoSAT(n);
      var ok := t.ReadClauses(rest);
      if ok {
        r := Some(t);
      } else {
        r := None;
      }
    }

    /** The while loop of TwoSAT(filename) over the clause lines. */
    method ReadClauses(rest: seq<string>) returns (ok: bool)
      requires Valid() && clauses == []
      modifies this
      ensures nodes == old(nodes) && Valid()
      ensures ok == Clauses(rest, ListCount(nodes)).Some?
      ensures ok ==> clauses == Clauses(rest, ListCount(nodes)).value
    {
      var i := 0;
      ClausesNext(rest, 0, ListCount(nodes));
      while i < |rest|
        invariant 0 <= i <= |rest| && Valid() && nodes == old(nodes)
        invariant Clauses(rest[..i], ListCount(nodes)) == Some(clauses)
      {
        ok := ReadLine(rest, i);
        if !ok {
          return false;
        }
        i := i + 1;
      }
      ClausesNext(rest, i, ListCount(nodes));
      return true;
    }

    /** One turn of the loop of ReadClauses: the clause on line i, or the failure of the whole file. */
    method ReadLine(rest: seq<string>, i: nat) returns (ok: bool)
      requires i < |rest| && Valid() && Clauses(rest[..i], ListCount(nodes)) == Some(clauses)
      modifies this
      ensures nodes == old(nodes) && Valid()
      ensures ok ==> Clauses(rest[..i + 1], ListCount(nodes)) == Some(clauses)
      ensures !ok ==> Clauses(rest, ListCount(nodes)).None?
    {
      ClausesNext(rest, i + 1, ListCount(nodes));
      ok := ReadClause(rest[i]);
      if !ok {
        ClausesFail(rest, ListCount(nodes), i + 1);
      }
    }

    /** The lists the first pass reads, 0..nodes-1. */
    ghost function Reverse(): (r: Lists)
      reads this
      requires Valid() && Usable(nodes, clauses)
      ensures HeadsIn(r) && HeadsFrom(r, 2) && |r| == nodes
    {
      PassGraph(ListCount(nodes), clauses, nodes);
      incomingList[..nodes]
    }

    /** The lists the second pass reads, 0..nodes-1. */
    ghost function Forward(): (r: Lists)
      reads this
      requires Valid() && Usable(nodes, clauses)
      ensures HeadsIn(r) && HeadsFrom(r, 2) && |r| == nodes
    {
      PassGraph(ListCount(nodes), clauses, nodes);
      outgoingList[..nodes]
    }

    /** firstPass: the first pass on the incoming lists from vertex 2 on; entries 0 and 1 stay 0 and every
        vertex 2..nodes-1 is written exactly once. */
    method FirstPass() returns (finishingTime: array<int>)
      requires Valid() && Usable(nodes, clauses)
      ensures fresh(finishingTime) && finishingTime[..] == [0, 0] + FirstOrder(Reverse(), 2)
      ensures multiset(finishingTime[2..]) == multiset(Range(2, nodes))
    {
      PassGraph(ListCount(nodes), clauses, nodes);
      finishingTime := StackSearch.FirstPass(incomingList[..nodes], 2);
      TwoZeros(finishingTime[..]);
    }

    /**
     * secondPass: a search on the outgoing lists from every unexplored entry of
     * finishingTime, from the last down to index 2, giving each vertex it
     * explores the start as leader; then the check of every pair 2k, 2k+1.
     */
    method SecondPass(finishingTime: array<int>) returns (feasible: bool)
      requires Valid() && Usable(nodes, clauses) && Within(finishingTime[..], 0, nodes)
      ensures feasible == Separated(LeaderTable(nodes, SecondTrees(Forward(), finishingTime[..])))
    {
      PassGraph(ListCount(nodes), clauses, nodes);
      var leaders := Leaders(outgoingList[..nodes], finishingTime);
      feasible := Check(leaders);
    }
  }

  lemma TwoZeros(a: seq<int>)
    requires |a| >= 2 && a[0] == 0 && a[1] == 0
    ensures a == [0, 0] + a[2..]
  {
  }

  /** The search loop of secondPass: the vertices explored from start get start as their leader. */
  method LeaderSearch(adj: Lists, explored: array<bool>, leaders: array<int>, start: int) returns (ghost found: seq<int>)
    requires HeadsIn(adj) && explored.Length == leaders.Length == |adj| && 0 <= start < |adj|
    modifies explored, leaders
    ensures (explored[..], found) == Explore(adj, old(explored[..]), [start])
    ensures leaders[..] == Assign(old(leaders[..]), found, start)
  {
    ghost var goal := Explore(adj, explored[..], [start]);
    ghost var table := leaders[..];
    var stack := [start];
    found := [];
    while stack != []
      invariant Searching(adj, explored[..], stack, found, goal, leaders[..], table, start)
      decreases Unexplored(explored[..]), |stack|
    {
      stack, found := Expand(adj, explored, leaders, start, stack, found, goal, table);
    }
    assert Explore(adj, explored[..], stack) == (explored[..], []);
    assert found + [] == found;
  }

  /** The state of the search loop: what is found and what the stack will still find make up the search. */
  ghost predicate Searching(adj: Lists, ex: seq<bool>, stack: seq<int>, found: seq<int>, goal: (seq<bool>, seq<int>),
                            leaders: seq<int>, table: seq<int>, start: int)
    requires HeadsIn(adj)
  {
    Within(stack, 0, |adj|) && |ex| == |adj| && |leaders| == |adj| &&
    goal.0 == Explore(adj, ex, stack).0 && goal.1 == found + Explore(adj, ex, stack).1 &&
    leaders == Assign(table, found, start)
  }

  /** One turn of the search loop: pop a vertex and, if it is unexplored, mark it, give it its leader and push
      its list. */
  method Expand(adj: Lists, explored: array<bool>, leaders: array<int>, start: int, stack: seq<int>,
                ghost found: seq<int>, ghost goal: (seq<bool>, seq<int>), ghost table: seq<int>)
    returns (stack2: seq<int>, ghost found2: seq<int>)
    requires HeadsIn(adj) && explored.Length == |adj| && stack != []
    requires Searching(adj, explored[..], stack, found, goal, leaders[..], table, start)
    modifies explored, leaders
    ensures Searching(adj, explored[..], stack2, found2, goal, leaders[..], table, start)
    ensures Unexplored(explored[..]) < old(Unexplored(explored[..])) ||
            (Unexplored(explored[..]) == old(Unexplored(explored[..])) && |stack2| < |stack|)
  {
    ghost var ex := explored[..];
    var node := stack[|stack| - 1];
    stack2 := stack[..|stack| - 1];
    if !explored[node] {
      UnexploredMark(ex, node);
      explored[node] := true;
      assert explored[..] == ex[node := true];
      leaders[node] := start;
      AssignLast(table, found, node, start);
      found2 := found + [node];
      stack2 := PushEdges(stack2, adj[node]);
      ghost var r := Explore(adj, explored[..], stack2);
      assert Explore(adj, ex, stack) == (r.0, [node] + r.1);
    } else {
      found2 := found;
      assert Explore(adj, ex, stack) == Explore(adj, ex, stack2);
    }
  }

  lemma AssignLast(t: seq<int>, vs: seq<int>, v: int, x: int)
    requires 0 <= v < |t|
    ensures Assign(t, vs + [v], x) == Assign(t, vs, x)[v := x]
  {
    assert (vs + [v])[..|vs|] == vs;
  }

  /** The tail of the second pass still to run: goal is what is done and what is pending. */
  ghost predicate TreesPending(adj: Lists, times: seq<int>, j: int, ex: seq<bool>, done: seq<Tree>, goal: seq<Tree>)
    requires HeadsIn(adj) && Within(times, 0, |adj|)
  {
    |ex| == |adj| && j <= |times| && goal == done + Searches(adj, times, 2, j, ex).1
  }

  /** The for loop of secondPass up to the check: leaders after all the searches. */
  method Leaders(adj: Lists, times: array<int>) returns (leaders: array<int>)
    requires HeadsIn(adj) && Within(times[..], 0, |adj|)
    ensures fresh(leaders) && leaders[..] == LeaderTable(|adj|, SecondTrees(adj, times[..]))
  {
    ghost var order := times[..];
    ghost var goal := SecondTrees(adj, order);
    var explored := new bool[|adj|](_ => false);
    leaders := new int[|adj|](_ => 0);
    assert explored[..] == Unmarked(|adj|);
    ghost var done: seq<Tree> := [];
    // j - 1 is the loop's index i, from finishingTime.length - 1 down to 2
    var j := times.Length;
    while j > 2
      invariant j <= times.Length && explored.Length == leaders.Length == |adj| && times[..] == order
      invariant fresh(explored) && fresh(leaders)
      invariant TreesPending(adj, order, j, explored[..], done, goal)
      invariant leaders[..] == LeaderTable(|adj|, done)
      decreases j
    {
      done, j := Visit(adj, times, explored, leaders, j, done, goal);
    }
    assert Searches(adj, order, 2, j, explored[..]).1 == [];
    assert done + [] == done;
  }

  /** One turn of secondPass's for loop, for index j - 1. */
  method Visit(adj: Lists, times: array<int>, explored: array<bool>, leaders: array<int>, j: int,
               ghost done: seq<Tree>, ghost goal: seq<Tree>) returns (ghost done2: seq<Tree>, j2: int)
    requires HeadsIn(adj) && Within(times[..], 0, |adj|) && 2 < j <= times.Length
    requires explored.Length == leaders.Length == |adj| && times != leaders
    requires TreesPending(adj, times[..], j, explored[..], done, goal) && leaders[..] == LeaderTable(|adj|, done)
    modifies explored, leaders
    ensures j2 == j - 1 && TreesPending(adj, times[..], j2, explored[..], done2, goal)
    ensures leaders[..] == LeaderTable(|adj|, done2)
  {
    j2 := j - 1;
    var start := times[j2];
    if !explored[start] {
      ghost var ex := explored[..];
      ghost var found := LeaderSearch(adj, explored, leaders, start);
      SearchStep(adj, times[..], 2, j, ex, explored[..], found);
      TreesAssoc(done, Tree(start, found), Searches(adj, times[..], 2, j2, explored[..]).1);
      done2 := done + [Tree(start, found)];
      assert done2[..|done2| - 1] == done;
    } else {
      done2 := done;
    }
  }

  lemma TreesAssoc(a: seq<Tree>, t: Tree, c: seq<Tree>)
    ensures a + ([t] + c) == (a + [t]) + c
  {
  }

  /** The check loop of secondPass: i = 2, 4, ... below nodes, leaders[i] against leaders[i + 1]. */
  method Check(leaders: array<int>) returns (feasible: bool)
    requires leaders.Length % 2 == 0
    ensures feasible == Separated(leaders[..])
  {
    var i := 2;
    while i < leaders.Length
      invariant 2 <= i && i % 2 == 0 && (i <= leaders.Length || leaders.Length < 2)
      invariant forall k :: 1 <= k && 2 * k < i && 2 * k + 1 < leaders.Length ==> leaders[2 * k] != leaders[2 * k + 1]
    {
      if leaders[i] == leaders[i + 1] {
        assert 2 * (i / 2) == i;
        return false;
      }
      i := i + 2;
    }
    return true;
  }

  /** main: read the file, run both passes and report the verdict; None where TwoSAT(filename) throws. */
  method Solve(lines: seq<string>) returns (feasibility: Option<bool>)
    requires Instance(lines).Some? ==> Usable(Instance(lines).value.0, Instance(lines).value.1)
    ensures feasibility.Some? <==> Instance(lines).Some?
    ensures feasibility.Some? ==> feasibility.value == Verdict(Instance(lines).value.0, Instance(lines).value.1)
  {
    var obj := TwoSAT.Load(lines);
    if obj.None? {
      return None;
    }
    var finishingTime := obj.value.FirstPass();
    PassGraph(ListCount(obj.value.nodes), obj.value.clauses, obj.value.nodes);
    OrderWithin(obj.value.Reverse());
    var verdict := obj.value.SecondPass(finishingTime);
    return Some(verdict);
  }

  /** The clauses of the first i lines, one line at a time; the empty prefix has none and the whole is the
      whole. */
  lemma ClausesNext(lines: seq<string>, i: nat, count: int)
    requires i <= |lines|
    ensures i == 0 ==> Clauses(lines[..i], count) == Some([])
    ensures i == |lines| ==> lines[..i] == lines
    ensures 0 < i ==>
              Clauses(lines[..i], count) == match (Clauses(lines[..i - 1], count), Accepted(lines[i - 1], count))
                case (Some(cs), Some(c)) => Some(cs + [c])
                case _ => None
  {
    if 0 < i {
      assert lines[..i][..i - 1] == lines[..i - 1];
    }
  }

  /** A failed line fails every longer read. */
  lemma {:induction false} ClausesFail(lines: seq<string>, count: int, i: nat)
    requires i <= |lines| && Clauses(lines[..i], count).None?
    ensures Clauses(lines, count).None?
    decreases |lines| - i
  {
    if i < |lines| {
      assert lines[..i + 1][..i] == lines[..i];
      ClausesFail(lines, count, i + 1);
    } else {
      assert lines[..i] == lines;
    }
  }
}
