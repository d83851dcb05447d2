/**
 * Huffman's greedy merging: the symbols read from a file, each a one-leaf
 * tree with IDs 1, 2, ... in line order, go into a priority queue ordered by
 * weight; the two lightest trees are merged until at most one remains. The
 * priority queue is modelled by the sequence of trees it holds, and poll by
 * removing some lightest tree (Java leaves the choice among equal weights
 * unspecified).
 */
module Huffman {
  import opened Wrappers
  import JavaInt
  import opened JavaText
  import opened HuffmanTree

  // ---------------------------------------------------------------------------
  // Forests
  // ---------------------------------------------------------------------------

  /** Every tree of the list is one the constructors of Tree.java can build. */
  predicate Forest(ts: seq<Tree>) {
    forall k :: 0 <= k < |ts| ==> Built(ts[k].root)
  }

  /** The leaves of all trees of the list, tree after tree. */
  function ForestLeaves(ts: seq<Tree>): seq<(int, int)>
    decreases |ts|
  {
    if ts == [] then [] else LeafList(ts[0].root) + ForestLeaves(ts[1..])
  }

  /** The exact sum of all leaf weights of the list. */
  function ForestSum(ts: seq<Tree>): int
    decreases |ts|
  {
    if ts == [] then 0 else LeafSum(ts[0].root) + ForestSum(ts[1..])
  }

  /** Leaves and weights of two lists side by side add up. */
  lemma {:induction false} ForestAppend(a: seq<Tree>, b: seq<Tree>)
    ensures ForestLeaves(a + b) == ForestLeaves(a) + ForestLeaves(b)
    ensures ForestSum(a + b) == ForestSum(a) + ForestSum(b)
    decreases |a|
  {
    if a == [] {
      assert a + b == b;
    } else {
      assert (a + b)[1..] == a[1..] + b;
      ForestAppend(a[1..], b);
    }
  }

  /** Taking tree k out of the list takes out its leaves and its weight. */
  lemma ForestRemove(ts: seq<Tree>, k: nat)
    requires k < |ts|
    ensures multiset(ForestLeaves(ts)) == multiset(ForestLeaves(ts[..k] + ts[k + 1..])) + multiset(LeafList(ts[k].root))
    ensures ForestSum(ts) == ForestSum(ts[..k] + ts[k + 1..]) + LeafSum(ts[k].root)
  {
    var p, t, q := ts[..k], ts[k], ts[k + 1..];
    assert ts == p + ([t] + q);
    ForestAppend(p, [t] + q);
    ForestAppend([t], q);
    ForestAppend(p, q);
    ForestSingle(t);
    assert ForestLeaves(ts) == ForestLeaves(p) + (LeafList(t.root) + ForestLeaves(q));
  }

  /** A list of one tree has its leaves and its weight. */
  lemma ForestSingle(t: Tree)
    ensures ForestLeaves([t]) == LeafList(t.root) && ForestSum([t]) == LeafSum(t.root)
  {
    assert [t][1..] == [];
  }

  /** Adding a tree to the list adds its leaves and its weight. */
  lemma ForestAdd(ts: seq<Tree>, t: Tree)
    ensures ForestLeaves(ts + [t]) == ForestLeaves(ts) + LeafList(t.root)
    ensures ForestSum(ts + [t]) == ForestSum(ts) + LeafSum(t.root)
  {
    ForestAppend(ts, [t]);
    ForestSingle(t);
  }

  // ---------------------------------------------------------------------------
  // The priority queue
  // ---------------------------------------------------------------------------

  /** Tree k of the queue is one that poll may return: no tree compares below it. */
  predicate Lightest(heap: seq<Tree>, k: nat)
    requires Forest(heap) && k < |heap|
  {
    forall j :: 0 <= j < |heap| ==> CompareTo(heap[k], heap[j]) <= 0
  }

  /** A non-empty queue has a lightest tree. */
  lemma {:induction false} LightestExists(heap: seq<Tree>) returns (k: nat)
    requires Forest(heap) && |heap| > 0
    ensures k < |heap| && Lightest(heap, k)
    decreases |heap|
  {
    if |heap| == 1 {
      k := 0;
    } else {
      var front := heap[..|heap| - 1];
      assert Forest(front);
      var m := LightestExists(front);
      k := if Weight(heap[|heap| - 1]) < Weight(heap[m]) then |heap| - 1 else m;
      assert forall j :: 0 <= j < |heap| - 1 ==> heap[j] == front[j];
    }
  }

  /** heap.poll() on a non-empty queue: some lightest tree, and the queue without it. */
  method Poll(heap: seq<Tree>) returns (rest: seq<Tree>, t: Tree, ghost k: nat)
    requires Forest(heap) && |heap| > 0
    ensures k < |heap| && Lightest(heap, k) && t == heap[k] && rest == heap[..k] + heap[k + 1..]
    ensures Forest(rest) && Built(t.root) && |rest| == |heap| - 1
  {
    var w := LightestExists(heap);
    var i :| 0 <= i < |heap| && Lightest(heap, i);
    k := i;
    t := heap[i];
    rest := heap[..i] + heap[i + 1..];
    forall j | 0 <= j < |rest|
      ensures Built(rest[j].root)
    {
      if j >= i {
        assert rest[j] == heap[j + 1];
      }
    }
  }

  // ---------------------------------------------------------------------------
  // Reading the symbols
  // ---------------------------------------------------------------------------

  /** The trees the constructor adds: symbol k + 1 weighs what line k says. */
  predicate Numbered(ts: seq<Tree>) {
    forall k :: 0 <= k < |ts| ==>
      ts[k].root.Node? && ts[k].root.left.Null? && ts[k].root.right.Null? && ts[k].root.id == k + 1 &&
      JavaInt.InRange(ts[k].root.weight)
  }

  /** The symbols of the weight lines, or None where Integer.parseInt throws. */
  function SymbolsOf(lines: seq<string>): (r: Option<seq<Tree>>)
    ensures r.Some? <==> forall k :: 0 <= k < |lines| ==> ParseInt(lines[k]).Some?
    ensures r.Some? ==> |r.value| == |lines|
    ensures r.Some? ==> forall k :: 0 <= k < |lines| ==> r.value[k] == Symbol(k + 1, ParseInt(lines[k]).value)
    decreases |lines|
  {
    if lines == [] then Some([])
    else
      var front := lines[..|lines| - 1];
      assert forall k :: 0 <= k < |front| ==> front[k] == lines[k];
      match (SymbolsOf(front), ParseInt(lines[|lines| - 1]))
      case (Some(ts), Some(w)) => Some(ts + [Symbol(|lines|, w)])
      case _ => None
  }

  /**
   * What the constructor leaves for a file: symbolCount and the symbols. An empty file is
   * the caught IOException (no symbols, count 0); None is an uncaught NumberFormatException.
   */
  function Input(lines: seq<string>): (r: Option<(int, seq<Tree>)>)
    ensures r.Some? <==> |lines| == 0 || (ParseInt(lines[0]).Some? && SymbolsOf(lines[1..]).Some?)
    ensures |lines| == 0 ==> r == Some((0, []))
    ensures r.Some? && |lines| > 0 ==> r.value.0 == ParseInt(lines[0]).value && r.value.1 == SymbolsOf(lines[1..]).value
  {
    if |lines| == 0 then Some((0, []))
    else match (ParseInt(lines[0]), SymbolsOf(lines[1..]))
      case (Some(n), Some(ts)) => Some((n, ts))
      case _ => None
  }

  /** The symbols read from a file are numbered 1, 2, ... */
  lemma InputNumbered(lines: seq<string>)
    requires Input(lines).Some?
    ensures Numbered(Input(lines).value.1)
  {
  }

  /** The leaves of the symbols are the (ID, weight) pairs, one per symbol, in order. */
  lemma {:induction false} SymbolLeaves(ts: seq<Tree>)
    requires Numbered(ts)
    ensures |ForestLeaves(ts)| == |ts|
    ensures forall k :: 0 <= k < |ts| ==> ForestLeaves(ts)[k] == (k + 1, ts[k].root.weight)
    decreases |ts|
  {
    if ts != [] {
      var front := ts[..|ts| - 1];
      assert Numbered(front);
      SymbolLeaves(front);
      assert ts == front + [ts[|ts| - 1]];
      ForestAdd(front, ts[|ts| - 1]);
    }
  }

  /** The IDs 1..n of n symbols. */
  function SymbolIds(n: nat): (r: set<int>)
    ensures forall id :: id in r <==> 1 <= id <= n
  {
    if n == 0 then {} else SymbolIds(n - 1) + {n}
  }

  /** No (ID, weight) pair occurs twice in a list whose IDs all differ. */
  lemma {:induction false} AtMostOnce(s: seq<(int, int)>)
    requires forall i, j :: 0 <= i < |s| && 0 <= j < |s| && i != j ==> s[i].0 != s[j].0
    ensures forall y :: multiset(s)[y] <= 1
    decreases |s|
  {
    if s != [] {
      var front := s[..|s| - 1];
      AtMostOnce(front);
      assert s == front + [s[|s| - 1]];
      forall i | 0 <= i < |front|
        ensures front[i] != s[|s| - 1]
      {
        assert front[i].0 == s[i].0 != s[|s| - 1].0;
      }
      assert s[|s| - 1] !in multiset(front);
    }
  }

  /** An entry at two positions of a list occurs at least twice in it. */
  lemma TwoPositions(s: seq<(int, int)>, i: nat, j: nat)
    requires i < j < |s|
    ensures s[i] == s[j] ==> multiset(s)[s[i]] >= 2
  {
    assert s == s[..j] + s[j..];
    assert s[i] == s[..j][i] && s[j] == s[j..][0];
  }

  /**
   * A list with the same entries as the symbol leaves 1..n: its IDs are exactly 1..n and
   * no two entries share one.
   */
  lemma SameIds(s: seq<(int, int)>, l: seq<(int, int)>, n: nat)
    requires |s| == n && (forall k :: 0 <= k < n ==> s[k].0 == k + 1) && multiset(l) == multiset(s)
    ensures DistinctIds(l) && Ids(l) == SymbolIds(n)
  {
    AtMostOnce(s);
    forall k | 0 <= k < |l|
      ensures 1 <= l[k].0 <= n && s[l[k].0 - 1] == l[k]
    {
      assert l[k] in multiset(s);
      var a :| 0 <= a < |s| && s[a] == l[k];
    }
    forall i, j | 0 <= i < |l| && 0 <= j < |l| && i != j
      ensures l[i].0 != l[j].0
    {
      if i < j {
        TwoPositions(l, i, j);
      } else {
        TwoPositions(l, j, i);
      }
    }
    forall id | 1 <= id <= n
      ensures id in Ids(l)
    {
      assert s[id - 1] in multiset(l);
      var k :| 0 <= k < |l| && l[k] == s[id - 1];
    }
  }

  /**
   * In a tree whose leaves are the symbols 1..n, the IDs of the leaves are exactly 1..n and
   * no two leaves share one: each symbol is exactly one leaf.
   */
  lemma TreeIds(ts: seq<Tree>, t: Tree)
    requires Numbered(ts) && t.root.Node? && multiset(LeafList(t.root)) == multiset(ForestLeaves(ts))
    ensures DistinctIds(Codes(t.root, "")) && Ids(Codes(t.root, "")) == SymbolIds(|ts|)
  {
    SymbolLeaves(ts);
    CodesLeaves(t.root, "");
    SameIds(ForestLeaves(ts), LeafList(t.root), |ts|);
    SameFirsts(Codes(t.root, ""), LeafList(t.root));
  }

  /**
   * getEncodingList(symbolCount) on the tree processSymbols returns, when the count covers
   * the symbols: the codes are prefix-free, entry i of the list is the code of symbol i,
   * and the entries of no symbol (0 and those past the last symbol) stay empty.
   */
  lemma Encodings(ts: seq<Tree>, t: Tree, nodes: int)
    requires Numbered(ts) && t.root.Node? && multiset(LeafList(t.root)) == multiset(ForestLeaves(ts))
    requires |ts| <= nodes
    ensures Ids(Codes(t.root, "")) == SymbolIds(|ts|)
    ensures IdsBelow(Codes(t.root, ""), nodes + 1) && PrefixFree(Codes(t.root, ""))
    ensures forall k :: 0 <= k < |Codes(t.root, "")| ==>
              Encoded(Blank(nodes + 1), Codes(t.root, ""))[Codes(t.root, "")[k].0] == Codes(t.root, "")[k].1
    ensures forall i :: 0 <= i <= nodes && i !in Ids(Codes(t.root, "")) ==> Encoded(Blank(nodes + 1), Codes(t.root, ""))[i] == ""
  {
    TreeIds(ts, t);
    CodesPrefixFree(t.root, "");
    forall k | 0 <= k < |Codes(t.root, "")|
      ensures 0 <= Codes(t.root, "")[k].0 < nodes + 1
    {
      assert Codes(t.root, "")[k].0 in Ids(Codes(t.root, ""));
    }
    EncodingList(t, nodes);
  }

  class Huffman {
    var symbols: seq<Tree>
    var symbolCount: int

    /** symbols = new ArrayList, and symbolCount at Java's default 0. */
    constructor ()
      ensures symbols == [] && symbolCount == 0
    {
      symbols := [];
      symbolCount := 0;
    }

    /**
     * Huffman(filename) on the lines of the file: the first line is symbolCount, each
     * further line a weight.
     */
    static method Load(lines: seq<string>) returns (r: Option<Huffman>)
      ensures r.Some? <==> Input(lines).Some?
      ensures r.Some? ==> fresh(r.value) &&
                          r.value.symbolCount == Input(lines).value.0 && r.value.symbols == Input(lines).value.1
    {
      var h := new Huffman();
      if |lines| == 0 {
        return Some(h);
      }
      var n := ParseInt(lines[0]);
      if n.None? {
        return None;
      }
      h.symbolCount := n.value;
      var ok := h.ReadSymbols(lines[1..]);
      if ok {
        r := Some(h);
      } else {
        r := None;
      }
    }

    /** The while loop of the constructor: symbols.add(new Tree(counter++, parseInt(line))). */
    method ReadSymbols(rest: seq<string>) returns (ok: bool)
      requires symbols == []
      modifies this
      ensures symbolCount == old(symbolCount)
      ensures ok == SymbolsOf(rest).Some?
      ensures ok ==> symbols == SymbolsOf(rest).value
    {
      var counter := 1;
      var i := 0;
      while i < |rest|
        invariant 0 <= i <= |rest| && counter == i + 1 && symbolCount == old(symbolCount)
        invariant forall k :: 0 <= k < i ==> ParseInt(rest[k]).Some?
        invariant |symbols| == i && forall k :: 0 <= k < i ==> symbols[k] == Symbol(k + 1, ParseInt(rest[k]).value)
      {
        var weight := ParseInt(rest[i]);
        if weight.None? {
          return false;
        }
        symbols := symbols + [Symbol(counter, weight.value)];
        counter := counter + 1;
        i := i + 1;
      }
      return true;
    }

    /**
     * processSymbols(): merge the two lightest trees until at most one is left, then poll
     * it; None is Java's null from polling an empty queue. The leaves of the result are
     * the symbols, its weight their int sum, and it took one merge fewer than there are
     * symbols.
     */
    method ProcessSymbols() returns (r: Option<Tree>, ghost merges: nat)
      requires Numbered(symbols)
      ensures r.None? <==> symbols == []
      ensures r.Some? ==> Built(r.value.root) && multiset(LeafList(r.value.root)) == multiset(ForestLeaves(symbols))
      ensures r.Some? ==> LeafSum(r.value.root) == ForestSum(symbols) && Weight(r.value) == JavaInt.Wrap(ForestSum(symbols))
      ensures r.Some? ==> merges == |symbols| - 1 == Internal(r.value.root)
    {
      var heap: seq<Tree> := [];
      for i := 0 to |symbols|
        invariant heap == symbols[..i]
      {
        heap := heap + [symbols[i]];
      }
      assert heap == symbols;
      merges := 0;
      while |heap| > 1
        invariant Forest(heap) && (|heap| == 0 <==> symbols == [])
        invariant multiset(ForestLeaves(heap)) == multiset(ForestLeaves(symbols))
        invariant ForestSum(heap) == ForestSum(symbols)
        invariant |heap| + merges == |symbols|
      {
        heap, merges := Combine(heap, merges);
      }
      if |heap| == 0 {
        return None, merges;
      }
      var t;
      ghost var k;
      heap, t, k := Poll(heap);
      assert heap == [];
      ForestRemove([t], 0);
      WeightIsSum(t.root);
      LeavesAndMerges(t.root);
      SymbolLeaves(symbols);
      return Some(t), merges;
    }
  }

  /** One turn of the loop of processSymbols: poll two trees and add their merge. */
  method Combine(heap: seq<Tree>, ghost merges: nat) returns (next: seq<Tree>, ghost merges2: nat)
    requires Forest(heap) && |heap| > 1
    ensures Forest(next) && |next| == |heap| - 1 && merges2 == merges + 1
    ensures multiset(ForestLeaves(next)) == multiset(ForestLeaves(heap))
    ensures ForestSum(next) == ForestSum(heap)
  {
    var rest1, a, i := Poll(heap);
    ForestRemove(heap, i);
    var rest2, b, j := Poll(rest1);
    ForestRemove(rest1, j);
    var merged := Merge(a, b);
    next := rest2 + [merged];
    ForestGrow(rest2, merged);
    MergeKeeps(heap, rest1, LeafList(a.root), LeafSum(a.root), rest2, LeafList(b.root), LeafSum(b.root), merged);
    merges2 := merges + 1;
  }

  /** Polling trees with leaves la and lb and adding a tree with both keeps the leaves and the weight of the queue. */
  lemma MergeKeeps(heap: seq<Tree>, rest1: seq<Tree>, la: seq<(int, int)>, sa: int,
                   rest2: seq<Tree>, lb: seq<(int, int)>, sb: int, merged: Tree)
    requires multiset(ForestLeaves(heap)) == multiset(ForestLeaves(rest1)) + multiset(la)
    requires multiset(ForestLeaves(rest1)) == multiset(ForestLeaves(rest2)) + multiset(lb)
    requires ForestSum(heap) == ForestSum(rest1) + sa && ForestSum(rest1) == ForestSum(rest2) + sb
    requires LeafList(merged.root) == la + lb && LeafSum(merged.root) == sa + sb
    ensures multiset(ForestLeaves(rest2 + [merged])) == multiset(ForestLeaves(heap))
    ensures ForestSum(rest2 + [merged]) == ForestSum(heap)
  {
    ForestAdd(rest2, merged);
  }

  /** Adding a built tree to a forest gives a forest. */
  lemma ForestGrow(ts: seq<Tree>, t: Tree)
    requires Forest(ts) && Built(t.root)
    ensures Forest(ts + [t])
  {
    assert forall k :: 0 <= k < |ts| ==> (ts + [t])[k] == ts[k];
  }
}
