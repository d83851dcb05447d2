/**
 * What the graph classes share: counting the entries of adjacency lists, and
 * the "a b c" lines, split at single spaces, of their edge files.
 */
module Adjacency {
  import opened Walks
  import opened Wrappers
  import opened JavaText
  import JavaInt

  /** The number of entries over all lists. */
  function Entries(adj: AdjList): nat {
    if |adj| == 0 then 0 else Entries(adj[..|adj| - 1]) + |adj[|adj| - 1]|
  }

  /** Replacing one list changes the count by the difference in length. */
  lemma {:induction false} EntriesUpdate(adj: AdjList, i: int, l: seq<Edge>)
    requires 0 <= i < |adj|
    ensures Entries(adj[i := l]) == Entries(adj) - |adj[i]| + |l|
    decreases |adj|
  {
    var n := |adj| - 1;
    var a := adj[i := l];
    assert a[..n] == if i == n then adj[..n] else adj[..n][i := l];
    if i < n {
      EntriesUpdate(adj[..n], i, l);
    }
  }

  /** n empty lists, as the constructors create them. */
  function Blank(n: nat): (adj: AdjList)
    ensures |adj| == n && forall i :: 0 <= i < n ==> adj[i] == []
  {
    seq(n, _ => [])
  }

  /** Empty lists have no entries. */
  lemma {:induction false} EntriesBlank(n: nat)
    ensures Entries(Blank(n)) == 0
  {
    if n > 0 {
      assert Blank(n)[..n - 1] == Blank(n - 1);
      EntriesBlank(n - 1);
    }
  }

  /** The first three space-separated fields of a line, read as ints. */
  function Triple(line: string): (r: Option<seq<int>>)
    ensures r.Some? ==> |r.value| == 3
  {
    ParseFields(Split(line, {' '}), 3)
  }

  /** The line "a b c" for three ints. */
  function TripleText(a: int, b: int, c: int): string {
    Join([IntToString(a), IntToString(b), IntToString(c)], ' ')
  }

  /** Triple reads back what TripleText writes. */
  lemma TripleRoundTrip(a: int, b: int, c: int)
    requires JavaInt.InRange(a) && JavaInt.InRange(b) && JavaInt.InRange(c)
    ensures Triple(TripleText(a, b, c)) == Some([a, b, c])
  {
    var pieces := [IntToString(a), IntToString(b), IntToString(c)];
    IntToStringClean(a, {' '});
    IntToStringClean(b, {' '});
    IntToStringClean(c, {' '});
    SplitJoin(pieces, ' ');
    ParseIntToString(a);
    ParseIntToString(b);
    ParseIntToString(c);
    assert ParseInt(pieces[0]) == Some(a) && ParseInt(pieces[1]) == Some(b) && ParseInt(pieces[2]) == Some(c);
    assert ParseFields(pieces, 0) == Some([]);
    assert [] + [a] == [a] && [a] + [b] == [a, b] && [a, b] + [c] == [a, b, c];
    assert ParseFields(pieces, 1) == Some([a]);
    assert ParseFields(pieces, 2) == Some([a, b]);
  }
}
