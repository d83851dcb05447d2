/**
 * Clustering of bit labels by Hamming distance: BigClustering merges every
 * two nodes whose labels differ in at most two bits, by first merging equal
 * labels and then looking up, for every label, each of its variants at
 * distance one or two in a table indexed by label value.
 */
module HammingClustering {
  import opened DisjointSets

  // ---------------------------------------------------------------------------
  // Labels as bit strings
  // ---------------------------------------------------------------------------

  /** A label made of the characters '0' and '1' only. */
  predicate Binary(s: string) {
    forall k :: 0 <= k < |s| ==> s[k] == '0' || s[k] == '1'
  }

  function Pow2(n: nat): (p: nat)
    ensures p >= 1
  {
    if n == 0 then 1 else 2 * Pow2(n - 1)
  }

  function Bit(c: char): nat {
    if c == '1' then 1 else 0
  }

  /** Integer.parseInt(s, 2) on a label: the most significant bit first. */
  function Value(s: string): (v: nat)
    ensures v < Pow2(|s|)
  {
    if |s| == 0 then 0 else 2 * Value(s[..|s| - 1]) + Bit(s[|s| - 1])
  }

  /** Two labels of one length with the same value are the same label. */
  lemma {:induction false} ValueInjective(s: string, t: string)
    requires Binary(s) && Binary(t) && |s| == |t| && Value(s) == Value(t)
    ensures s == t
  {
    if |s| > 0 {
      var n := |s| - 1;
      assert Value(s) == 2 * Value(s[..n]) + Bit(s[n]) && Value(t) == 2 * Value(t[..n]) + Bit(t[n]);
      assert Bit(s[n]) == Bit(t[n]);
      assert s[n] == t[n];
      assert Binary(s[..n]) && Binary(t[..n]);
      ValueInjective(s[..n], t[..n]);
      assert s == s[..n] + [s[n]] && t == t[..n] + [t[n]];
    }
  }

  /** The positions at which two labels of one length differ. */
  function Diff(s: string, t: string): (d: set<int>)
    requires |s| == |t|
    ensures forall k :: k in d <==> 0 <= k < |s| && s[k] != t[k]
  {
    set k | 0 <= k < |s| && s[k] != t[k]
  }

  /** The Hamming distance between two labels of one length. */
  function Distance(s: string, t: string): nat
    requires |s| == |t|
  {
    |Diff(s, t)|
  }

  function Flip(c: char): char {
    if c == '0' then '1' else '0'
  }

  /** The label with bit k flipped ('0' becomes '1', anything else '0'). */
  function FlipAt(s: string, k: int): string {
    if 0 <= k < |s| then s[k := Flip(s[k])] else s
  }

  /** The variant for the pair (a, b): bit a flipped, and bit b too when b differs from a. */
  function FlipPair(s: string, q: (int, int)): string {
    if q.0 == q.1 then FlipAt(s, q.0) else FlipAt(FlipAt(s, q.0), q.1)
  }

  /** The variant for (a, b), a <= b, differs from the label at a and b and nowhere else. */
  lemma FlipPairDiff(s: string, a: int, b: int)
    requires 0 <= a <= b < |s|
    ensures |FlipPair(s, (a, b))| == |s|
    ensures Diff(s, FlipPair(s, (a, b))) == {a, b}
    ensures Distance(s, FlipPair(s, (a, b))) == if a == b then 1 else 2
  {
    var t := FlipPair(s, (a, b));
    assert Diff(s, t) == {a, b};
  }

  // ---------------------------------------------------------------------------
  // The order in which generateLabelVariants visits the pairs
  // ---------------------------------------------------------------------------

  /** The pairs (i, lo), (i, lo + 1), .., (i, j - 1). */
  function RowTail(i: int, lo: int, j: int): seq<(int, int)> {
    if j <= lo then [] else seq(j - lo, k => (i, lo + k))
  }

  /** Row i of n bits: the single flip at i, then (i, j) for every j > i. */
  function Row(i: int, n: int): seq<(int, int)> {
    [(i, i)] + RowTail(i, i + 1, n)
  }

  /** Rows 0 .. i-1 of n bits, in order. */
  function PairsBefore(i: int, n: int): seq<(int, int)>
    decreases i
  {
    if i <= 0 then [] else PairsBefore(i - 1, n) + Row(i - 1, n)
  }

  function Pairs(n: int): seq<(int, int)> {
    PairsBefore(n, n)
  }

  lemma {:induction false} PairsBeforeLength(i: int, n: int)
    requires 0 <= i <= n
    ensures 2 * |PairsBefore(i, n)| == 2 * i * n - i * (i - 1)
  {
    if i > 0 {
      PairsBeforeLength(i - 1, n);
      assert |Row(i - 1, n)| == n - i + 1;
      assert 2 * (i - 1) * n - (i - 1) * (i - 2) + 2 * (n - i + 1) == 2 * i * n - i * (i - 1);
    }
  }

  lemma {:induction false} PairsBeforePrefix(i: int, j: int, n: int)
    requires 0 <= i <= j
    ensures PairsBefore(i, n) <= PairsBefore(j, n)
    decreases j
  {
    if i < j {
      PairsBeforePrefix(i, j - 1, n);
    }
  }

  /** The pair q stands at position k as a pair of the first i rows of n bits. */
  predicate Placed(q: (int, int), k: int, i: int, n: int) {
    0 <= q.0 < i && q.0 <= q.1 < n && k == |PairsBefore(q.0, n)| + q.1 - q.0
  }

  /**
   * Every pair (a, b) of rows 0 .. i-1 has 0 <= a < i and a <= b < n, and
   * stands at position |PairsBefore(a, n)| + b - a, so no pair comes twice.
   */
  lemma {:induction false} PairsBeforeIndexed(i: int, n: int)
    requires 0 <= i <= n
    ensures forall k :: 0 <= k < |PairsBefore(i, n)| ==> Placed(PairsBefore(i, n)[k], k, i, n)
  {
    if i > 0 {
      PairsBeforeIndexed(i - 1, n);
      var ps, row := PairsBefore(i - 1, n), Row(i - 1, n);
      forall k | 0 <= k < |ps + row| ensures Placed((ps + row)[k], k, i, n) {
        if k < |ps| {
          assert (ps + row)[k] == ps[k];
        } else {
          assert (ps + row)[k] == row[k - |ps|];
        }
      }
    }
  }

  /** The pair (a, b) with 0 <= a <= b < n stands at position |PairsBefore(a, n)| + b - a of Pairs(n). */
  lemma PairAt(a: int, b: int, n: int)
    requires 0 <= a <= b < n
    ensures 0 <= |PairsBefore(a, n)| + b - a < |Pairs(n)|
    ensures Pairs(n)[|PairsBefore(a, n)| + b - a] == (a, b)
  {
    PairsBeforePrefix(a + 1, n, n);
    var ps, row := PairsBefore(a, n), Row(a, n);
    assert PairsBefore(a + 1, n) == ps + row;
    assert row[b - a] == (a, b) by {
      if b > a {
        assert row[b - a] == RowTail(a, a + 1, n)[b - a - 1];
      }
    }
    assert (ps + row)[|ps| + b - a] == row[b - a];
  }

  lemma PairsDistinct(n: nat)
    ensures forall k, l :: 0 <= k < l < |Pairs(n)| ==> Pairs(n)[k] != Pairs(n)[l]
  {
    PairsBeforeIndexed(n, n);
  }

  // ---------------------------------------------------------------------------
  // The variants of a label
  // ---------------------------------------------------------------------------

  /** The variants of s for the pairs ps, in order. */
  function Flips(s: string, ps: seq<(int, int)>): (v: seq<string>)
    ensures |v| == |ps| && forall k :: 0 <= k < |ps| ==> v[k] == FlipPair(s, ps[k])
  {
    seq(|ps|, k requires 0 <= k < |ps| => FlipPair(s, ps[k]))
  }

  lemma FlipsAppend(s: string, ps: seq<(int, int)>, q: (int, int))
    ensures Flips(s, ps + [q]) == Flips(s, ps) + [FlipPair(s, q)]
  {
    assert Flips(s, ps + [q])[|ps|] == FlipPair(s, q);
  }

  lemma FlipsConcat(s: string, ps: seq<(int, int)>, qs: seq<(int, int)>)
    ensures Flips(s, ps + qs) == Flips(s, ps) + Flips(s, qs)
  {
  }

  lemma RowTailStep(i: int, lo: int, j: int)
    requires lo <= j
    ensures RowTail(i, lo, j + 1) == RowTail(i, lo, j) + [(i, j)]
  {
  }

  lemma RowDone(i: int, n: int)
    requires 0 <= i
    ensures PairsBefore(i + 1, n) == PairsBefore(i, n) + [(i, i)] + RowTail(i, i + 1, n)
  {
  }

  /** What generateLabelVariants(s) returns. */
  function Variants(s: string): seq<string> {
    Flips(s, Pairs(|s|))
  }

  lemma {:induction false} EvenProduct(n: int)
    requires n >= 0
    ensures (n * (n - 1)) % 2 == 0
  {
    if n > 0 {
      EvenProduct(n - 1);
      assert n * (n - 1) == (n - 1) * (n - 2) + 2 * (n - 1);
    }
  }

  /** combinations = bits + bits * (bits - 1) / 2, the size of the array generateLabelVariants fills. */
  function Combinations(bits: int): int {
    bits + (bits * (bits - 1)) / 2
  }

  /** There are exactly as many variants as the array has entries. */
  lemma VariantsCount(s: string)
    ensures |Variants(s)| == Combinations(|s|)
  {
    PairsBeforeLength(|s|, |s|);
    EvenProduct(|s|);
  }

  /** Every variant has the label's length and lies at distance 1 or 2 from it. */
  lemma VariantsNear(s: string)
    ensures forall k :: 0 <= k < |Variants(s)| ==>
              |Variants(s)[k]| == |s| && 1 <= Distance(s, Variants(s)[k]) <= 2
  {
    PairsBeforeIndexed(|s|, |s|);
    forall k | 0 <= k < |Variants(s)|
      ensures |Variants(s)[k]| == |s| && 1 <= Distance(s, Variants(s)[k]) <= 2
    {
      var q := Pairs(|s|)[k];
      FlipPairDiff(s, q.0, q.1);
    }
  }

  /** No variant comes twice. */
  lemma VariantsDistinct(s: string)
    ensures forall k, l :: 0 <= k < l < |Variants(s)| ==> Variants(s)[k] != Variants(s)[l]
  {
    PairsBeforeIndexed(|s|, |s|);
    PairsDistinct(|s|);
    forall k, l | 0 <= k < l < |Variants(s)|
      ensures Variants(s)[k] != Variants(s)[l]
    {
      var q, q' := Pairs(|s|)[k], Pairs(|s|)[l];
      FlipPairDiff(s, q.0, q.1);
      FlipPairDiff(s, q'.0, q'.1);
    }
  }

  lemma Member<T>(d: set<T>) returns (x: T)
    requires |d| > 0
    ensures x in d
  {
    x :| x in d;
  }

  /** A set of one or two positions, as an ordered pair. */
  lemma PairOf(d: set<int>) returns (a: int, b: int)
    requires 1 <= |d| <= 2
    ensures a <= b && d == {a, b}
  {
    a := Member(d);
    b := a;
    if |d| == 2 {
      assert |d - {a}| == 1;
      b := Member(d - {a});
      assert |d - {a} - {b}| == 0;
    } else {
      assert |d - {a}| == 0;
    }
    if b < a {
      a, b := b, a;
    }
  }

  /** A binary label t that differs from the binary label s exactly at a and b is their variant. */
  lemma FlipPairIs(s: string, t: string, a: int, b: int)
    requires Binary(s) && Binary(t) && |s| == |t| && 0 <= a <= b < |s| && Diff(s, t) == {a, b}
    ensures FlipPair(s, (a, b)) == t
  {
    var u := FlipPair(s, (a, b));
    forall m | 0 <= m < |s| ensures u[m] == t[m] {
      if m == a || m == b {
        assert u[m] == Flip(s[m]) && t[m] != s[m];
      } else {
        assert u[m] == s[m] && m !in Diff(s, t);
      }
    }
  }

  /** Every binary label at distance 1 or 2 from a binary label s is one of its variants. */
  lemma VariantsComplete(s: string, t: string) returns (k: int)
    requires Binary(s) && Binary(t) && |s| == |t| && 1 <= Distance(s, t) <= 2
    ensures 0 <= k < |Variants(s)| && Variants(s)[k] == t
  {
    var a, b := PairOf(Diff(s, t));
    PairAt(a, b, |s|);
    k := |PairsBefore(a, |s|)| + b - a;
    FlipPairIs(s, t, a, b);
  }

  // ---------------------------------------------------------------------------
  // The table of label values and the merging of equal labels
  // ---------------------------------------------------------------------------

  /** Every label is a binary string of the given number of bits. */
  predicate WellFormed(labels: seq<string>, bits: int) {
    forall k :: 0 <= k < |labels| ==> Binary(labels[k]) && |labels[k]| == bits
  }

  /** The value of every label. */
  function Values(labels: seq<string>): (v: seq<nat>)
    ensures |v| == |labels| && forall k :: 0 <= k < |labels| ==> v[k] == Value(labels[k])
  {
    seq(|labels|, k requires 0 <= k < |labels| => Value(labels[k]))
  }

  /** The last position of v in vals, or -1 when v does not occur. */
  function LastIndex(vals: seq<nat>, v: int): (r: int)
    ensures -1 <= r < |vals|
    ensures r >= 0 ==> vals[r] == v && forall k :: r < k < |vals| ==> vals[k] != v
    ensures r == -1 ==> forall k :: 0 <= k < |vals| ==> vals[k] != v
  {
    if |vals| == 0 then -1
    else if vals[|vals| - 1] == v then |vals| - 1
    else LastIndex(vals[..|vals| - 1], v)
  }

  /** How many labels repeat a value met earlier in the list. */
  function Duplicates(vals: seq<nat>): nat {
    if |vals| == 0 then 0
    else Duplicates(vals[..|vals| - 1]) + (if LastIndex(vals[..|vals| - 1], vals[|vals| - 1]) >= 0 then 1 else 0)
  }

  function ValueSet(vals: seq<nat>): set<nat> {
    set k | 0 <= k < |vals| :: vals[k]
  }

  /** Taking the duplicates away leaves one label per distinct value. */
  lemma {:induction false} DuplicatesCount(vals: seq<nat>)
    ensures |vals| - Duplicates(vals) == |ValueSet(vals)|
  {
    if |vals| > 0 {
      var n := |vals| - 1;
      var pre := vals[..n];
      DuplicatesCount(pre);
      assert ValueSet(vals) == ValueSet(pre) + {vals[n]} by {
        forall v ensures v in ValueSet(vals) <==> v in ValueSet(pre) + {vals[n]} {
          if v in ValueSet(vals) && v != vals[n] {
            var k :| 0 <= k < |vals| && vals[k] == v;
            assert pre[k] == v;
          }
          if v in ValueSet(pre) {
            var k :| 0 <= k < |pre| && pre[k] == v;
            assert vals[k] == v;
          }
        }
      }
      if LastIndex(pre, vals[n]) >= 0 {
        var l := LastIndex(pre, vals[n]);
        assert pre[l] == vals[n];
        assert vals[n] in ValueSet(pre);
      } else {
        assert vals[n] !in ValueSet(pre);
      }
    }
  }

  /** Two well-formed labels have one value exactly when they are the same label. */
  lemma SameValue(labels: seq<string>, bits: int, x: int, y: int)
    requires WellFormed(labels, bits) && 0 <= x < |labels| && 0 <= y < |labels|
    ensures Values(labels)[x] == Values(labels)[y] <==> labels[x] == labels[y]
  {
    if Values(labels)[x] == Values(labels)[y] {
      ValueInjective(labels[x], labels[y]);
    }
  }

  /** table[v] is the position of the last label of value v, or -1. */
  ghost predicate Tabled(table: seq<int>, vals: seq<nat>) {
    forall v :: 0 <= v < |table| ==> table[v] == LastIndex(vals, v)
  }

  /**
   * Nodes 0 .. n-1 of the forest: two of them share a set exactly when they
   * are one node or two of the first i labels with the same value.
   */
  ghost predicate Partition(p: seq<int>, r: seq<int>, vals: seq<nat>, i: int)
    requires Ranked(p, r) && 0 <= i <= |vals|
  {
    forall x, y :: 0 <= x < |p| && 0 <= y < |p| ==>
      (SameSet(p, r, x, y) <==> x == y || (x < i && y < i && vals[x] == vals[y]))
  }

  /** Labels of one value are in one set. */
  ghost predicate Coarse(p: seq<int>, r: seq<int>, vals: seq<nat>)
    requires Ranked(p, r) && |vals| <= |p|
  {
    forall x, y :: 0 <= x < |vals| && 0 <= y < |vals| && vals[x] == vals[y] ==> SameSet(p, r, x, y)
  }

  /** Every set of (p, r) lies inside a set of (q, s). */
  ghost predicate Coarser(p: seq<int>, r: seq<int>, q: seq<int>, s: seq<int>)
    requires Ranked(p, r) && Ranked(q, s) && |q| == |p|
  {
    forall x, y :: 0 <= x < |p| && 0 <= y < |p| && SameSet(p, r, x, y) ==> SameSet(q, s, x, y)
  }

  lemma UnionCoarser(p: seq<int>, r: seq<int>, a: int, b: int)
    requires Ranked(p, r) && 0 <= a < |p| && 0 <= b < |p|
    ensures var u := UnionOf(p, r, a, b); Coarser(p, r, u.0, u.1)
  {
    var u := UnionOf(p, r, a, b);
    forall x, y | 0 <= x < |p| && 0 <= y < |p| && SameSet(p, r, x, y) ensures SameSet(u.0, u.1, x, y) {
      UnionSameSet(p, r, a, b, x, y);
    }
  }

  /** In the forest of nodes 0..n with every node its own parent, each node is a set of its own. */
  lemma InitialPartition(p: seq<int>, r: seq<int>, vals: seq<nat>)
    requires Ranked(p, r) && forall x :: 0 <= x < |p| ==> p[x] == x
    ensures Partition(p, r, vals, 0)
  {
    forall x | 0 <= x < |p| ensures RootMap(p, r)[x] == x {
      assert Root(p, r, x) == x;
    }
  }

  /** A label whose value is new stays in a set of its own. */
  lemma PartitionSkip(p: seq<int>, r: seq<int>, vals: seq<nat>, i: int)
    requires Ranked(p, r) && 0 <= i < |vals| && Partition(p, r, vals, i)
    requires LastIndex(vals[..i], vals[i]) == -1
    ensures Partition(p, r, vals, i + 1)
  {
    forall y | 0 <= y < i ensures vals[y] != vals[i] {
      assert vals[..i][y] == vals[y];
    }
  }

  /** A label whose value occurred before at l joins l's set, and the union succeeds. */
  lemma PartitionJoin(p: seq<int>, r: seq<int>, vals: seq<nat>, i: int, l: int)
    requires Ranked(p, r) && 0 <= i < |vals| < |p| && Partition(p, r, vals, i)
    requires l == LastIndex(vals[..i], vals[i]) && l >= 0
    ensures var u := UnionOf(p, r, l, i); u.2 && Partition(u.0, u.1, vals, i + 1)
  {
    assert vals[..i][l] == vals[l];
    UnionOfMeetsSpec(p, r, l, i);
    var u := UnionOf(p, r, l, i);
    forall x, y | 0 <= x < |p| && 0 <= y < |p|
      ensures SameSet(u.0, u.1, x, y) <==> x == y || (x < i + 1 && y < i + 1 && vals[x] == vals[y])
    {
      UnionSameSet(p, r, l, i, x, y);
    }
  }

  lemma PartitionCoarse(p: seq<int>, r: seq<int>, vals: seq<nat>)
    requires Ranked(p, r) && |vals| <= |p| && Partition(p, r, vals, |vals|)
    ensures Coarse(p, r, vals)
  {
  }

  lemma PrefixStep(vals: seq<nat>, i: int)
    requires 0 <= i < |vals|
    ensures vals[..i + 1][..i] == vals[..i] && vals[..i + 1][i] == vals[i]
    ensures forall v :: LastIndex(vals[..i + 1], v) == if v == vals[i] then i else LastIndex(vals[..i], v)
    ensures Duplicates(vals[..i + 1]) == Duplicates(vals[..i]) + (if LastIndex(vals[..i], vals[i]) >= 0 then 1 else 0)
  {
    assert vals[..i + 1][..i] == vals[..i];
    var w := vals[..i + 1];
    assert w[..|w| - 1] == vals[..i];
    forall v ensures LastIndex(w, v) == if v == vals[i] then i else LastIndex(vals[..i], v) {
      assert w[|w| - 1] == vals[i];
    }
  }

  /**
   * The loop of the constructor over the labels: a label whose value is
   * already in the table is merged with the node found there and takes one
   * off the count; either way the table then names it for its value.
   */
  method Deduplicate(labels: seq<string>, bits: nat, table: array<int>, sets: UnionFind) returns (clusters: int)
    requires sets.Valid() && table != sets.parent && table != sets.rank
    requires WellFormed(labels, bits) && table.Length == Pow2(bits) + 1
    requires sets.parent.Length == |labels| + 1 && |Roots(sets.parent[..])| == |labels| + 1
    requires forall v :: 0 <= v < table.Length ==> table[v] == -1
    requires Partition(sets.parent[..], sets.rank[..], Values(labels), 0)
    modifies table, sets.parent, sets.rank
    ensures sets.Valid() && Tabled(table[..], Values(labels))
    ensures Partition(sets.parent[..], sets.rank[..], Values(labels), |labels|)
    ensures clusters == |labels| - Duplicates(Values(labels)) && clusters + 1 == |Roots(sets.parent[..])|
  {
    ghost var vals := Values(labels);
    clusters := |labels|;
    for i := 0 to |labels|
      invariant sets.Valid() && sets.parent.Length == |labels| + 1
      invariant Tabled(table[..], vals[..i])
      invariant Partition(sets.parent[..], sets.rank[..], vals, i)
      invariant clusters == |labels| - Duplicates(vals[..i]) && clusters + 1 == |Roots(sets.parent[..])|
    {
      clusters := DeduplicateStep(labels, bits, table, sets, i, clusters);
    }
    assert vals[..|labels|] == vals;
  }

  /** One turn of the constructor's loop, for label i. */
  method DeduplicateStep(labels: seq<string>, bits: nat, table: array<int>, sets: UnionFind, i: int, clusters: int)
    returns (clusters': int)
    requires sets.Valid() && table != sets.parent && table != sets.rank
    requires WellFormed(labels, bits) && table.Length == Pow2(bits) + 1
    requires sets.parent.Length == |labels| + 1 && 0 <= i < |labels|
    requires Tabled(table[..], Values(labels)[..i])
    requires Partition(sets.parent[..], sets.rank[..], Values(labels), i)
    requires clusters == |labels| - Duplicates(Values(labels)[..i]) && clusters + 1 == |Roots(sets.parent[..])|
    modifies table, sets.parent, sets.rank
    ensures sets.Valid() && Tabled(table[..], Values(labels)[..i + 1])
    ensures Partition(sets.parent[..], sets.rank[..], Values(labels), i + 1)
    ensures clusters' == |labels| - Duplicates(Values(labels)[..i + 1]) && clusters' + 1 == |Roots(sets.parent[..])|
  {
    ghost var vals := Values(labels);
    var index := Value(labels[i]);
    PrefixStep(vals, i);
    clusters' := clusters;
    if table[index] >= 0 {
      ghost var p, r := sets.parent[..], sets.rank[..];
      PartitionJoin(p, r, vals, i, table[index]);
      var merged := sets.Union(table[index], i);
      clusters' := clusters - 1;
    } else {
      PartitionSkip(sets.parent[..], sets.rank[..], vals, i);
    }
    ghost var t := table[..];
    table[index] := i;
    TabledStep(t, vals, i);
    assert table[..] == t[vals[i] := i];
  }

  lemma TabledStep(t: seq<int>, vals: seq<nat>, i: int)
    requires 0 <= i < |vals| && vals[i] < |t| && Tabled(t, vals[..i])
    ensures Tabled(t[vals[i] := i], vals[..i + 1])
  {
    PrefixStep(vals, i);
  }

  // ---------------------------------------------------------------------------
  // Merging labels at distance one or two
  // ---------------------------------------------------------------------------

  /** Every one of the first i labels shares a set with every label at distance at most 2. */
  ghost predicate Close(p: seq<int>, r: seq<int>, labels: seq<string>, i: int)
    requires Ranked(p, r) && |labels| <= |p| && 0 <= i <= |labels|
  {
    forall x, y :: 0 <= x < i && 0 <= y < |labels| && |labels[x]| == |labels[y]| && Distance(labels[x], labels[y]) <= 2 ==>
      SameSet(p, r, x, y)
  }

  /** Every one of the first k variants whose value is in the table shares a set with the node there. */
  ghost predicate Hits(p: seq<int>, r: seq<int>, table: seq<int>, variants: seq<string>, i: int, k: int)
    requires Ranked(p, r) && 0 <= i < |p| && 0 <= k <= |variants|
  {
    forall m :: 0 <= m < k && Value(variants[m]) < |table| && 0 <= table[Value(variants[m])] < |p| ==>
      SameSet(p, r, table[Value(variants[m])], i)
  }

  lemma CloseKept(p: seq<int>, r: seq<int>, q: seq<int>, s: seq<int>, labels: seq<string>, i: int)
    requires Ranked(p, r) && Ranked(q, s) && |q| == |p| && |labels| <= |p| && 0 <= i <= |labels|
    requires Close(p, r, labels, i) && Coarser(p, r, q, s)
    ensures Close(q, s, labels, i)
  {
  }

  lemma CoarseKept(p: seq<int>, r: seq<int>, q: seq<int>, s: seq<int>, vals: seq<nat>)
    requires Ranked(p, r) && Ranked(q, s) && |q| == |p| && |vals| <= |p|
    requires Coarse(p, r, vals) && Coarser(p, r, q, s)
    ensures Coarse(q, s, vals)
  {
  }

  lemma HitsKept(p: seq<int>, r: seq<int>, q: seq<int>, s: seq<int>, table: seq<int>, variants: seq<string>, i: int, k: int)
    requires Ranked(p, r) && Ranked(q, s) && |q| == |p| && 0 <= i < |p| && 0 <= k <= |variants|
    requires Hits(p, r, table, variants, i, k) && Coarser(p, r, q, s)
    ensures Hits(q, s, table, variants, i, k)
  {
  }

  lemma HitsStep(p: seq<int>, r: seq<int>, table: seq<int>, variants: seq<string>, i: int, k: int)
    requires Ranked(p, r) && 0 <= i < |p| && 0 <= k < |variants| && Hits(p, r, table, variants, i, k)
    requires Value(variants[k]) < |table| && 0 <= table[Value(variants[k])] < |p| ==>
               SameSet(p, r, table[Value(variants[k])], i)
    ensures Hits(p, r, table, variants, i, k + 1)
  {
  }

  /** Two labels of one length at distance 0 are the same label. */
  lemma DistanceZero(s: string, t: string)
    requires |s| == |t| && Distance(s, t) == 0
    ensures s == t
  {
    forall k | 0 <= k < |s| ensures s[k] == t[k] {
      assert k !in Diff(s, t);
    }
  }

  /** Once every variant of label i has been looked up, label i shares a set with every label near it. */
  lemma NearJoined(p: seq<int>, r: seq<int>, labels: seq<string>, bits: nat, table: seq<int>, i: int, y: int)
    requires Ranked(p, r) && |labels| < |p| && 0 <= i < |labels| && 0 <= y < |labels|
    requires WellFormed(labels, bits) && |table| == Pow2(bits) + 1
    requires Tabled(table, Values(labels)) && Coarse(p, r, Values(labels))
    requires Hits(p, r, table, Variants(labels[i]), i, |Variants(labels[i])|)
    requires Distance(labels[i], labels[y]) <= 2
    ensures SameSet(p, r, i, y)
  {
    var vals := Values(labels);
    if Distance(labels[i], labels[y]) == 0 {
      DistanceZero(labels[i], labels[y]);
    } else {
      var m := VariantsComplete(labels[i], labels[y]);
      var v := Value(labels[y]);
      assert vals[y] == v;
      var j := table[v];
      assert 0 <= j && vals[j] == v;
      assert SameSet(p, r, j, y);
      assert SameSet(p, r, j, i);
    }
  }

  /** One successful lookup of JoinVariant: the union with the table's node keeps Holds and extends Hits. */
  lemma JoinStep(p: seq<int>, r: seq<int>, q: seq<int>, s: seq<int>, merged: bool, labels: seq<string>, bits: int,
                 clusters: int, clusters': int, table: seq<int>, variants: seq<string>, i: int, k: int)
    requires Ranked(p, r) && Holds(labels, bits, clusters, table, p, r) && 0 <= i < |labels|
    requires 0 <= k < |variants| && |variants[k]| == bits && 0 <= table[Value(variants[k])] < |p|
    requires Hits(p, r, table, variants, i, k)
    requires Ranked(q, s) && |q| == |p| && Coarser(p, r, q, s) && SameSet(q, s, table[Value(variants[k])], i)
    requires |Roots(q)| == |Roots(p)| - (if merged then 1 else 0)
    requires clusters' == if merged then clusters - 1 else clusters
    ensures Holds(labels, bits, clusters', table, q, s)
    ensures Hits(q, s, table, variants, i, k + 1)
  {
    CoarseKept(p, r, q, s, Values(labels));
    HitsKept(p, r, q, s, table, variants, i, k);
    HitsStep(q, s, table, variants, i, k);
  }

  /** union(a, b) as the clustering uses it: the sets only grow, a and b end up together, and a merge removes one root. */
  method JoinSets(u: UnionFind, a: int, b: int) returns (merged: bool)
    requires u.Valid() && 0 <= a < u.parent.Length && 0 <= b < u.parent.Length
    modifies u.parent, u.rank
    ensures u.Valid()
    ensures Coarser(old(u.parent[..]), old(u.rank[..]), u.parent[..], u.rank[..])
    ensures SameSet(u.parent[..], u.rank[..], a, b)
    ensures |Roots(u.parent[..])| == |Roots(old(u.parent[..]))| - (if merged then 1 else 0)
  {
    UnionCoarser(u.parent[..], u.rank[..], a, b);
    merged := u.Union(a, b);
  }

  lemma CloseStep(p: seq<int>, r: seq<int>, labels: seq<string>, bits: nat, table: seq<int>, i: int)
    requires Ranked(p, r) && |labels| < |p| && 0 <= i < |labels|
    requires WellFormed(labels, bits) && |table| == Pow2(bits) + 1
    requires Tabled(table, Values(labels)) && Coarse(p, r, Values(labels)) && Close(p, r, labels, i)
    requires Hits(p, r, table, Variants(labels[i]), i, |Variants(labels[i])|)
    ensures Close(p, r, labels, i + 1)
  {
    RowJoined(p, r, labels, bits, table, i);
    CloseExtend(p, r, labels, i);
  }

  /** Every label within distance 2 of label i shares its set, once all of label i's variants are merged. */
  lemma RowJoined(p: seq<int>, r: seq<int>, labels: seq<string>, bits: nat, table: seq<int>, i: int)
    requires Ranked(p, r) && |labels| < |p| && 0 <= i < |labels|
    requires WellFormed(labels, bits) && |table| == Pow2(bits) + 1
    requires Tabled(table, Values(labels)) && Coarse(p, r, Values(labels))
    requires Hits(p, r, table, Variants(labels[i]), i, |Variants(labels[i])|)
    ensures forall y :: 0 <= y < |labels| && |labels[i]| == |labels[y]| && Distance(labels[i], labels[y]) <= 2 ==> SameSet(p, r, i, y)
  {
    forall y | 0 <= y < |labels| && Distance(labels[i], labels[y]) <= 2 ensures SameSet(p, r, i, y) {
      NearJoined(p, r, labels, bits, table, i, y);
    }
  }

  lemma CloseExtend(p: seq<int>, r: seq<int>, labels: seq<string>, i: int)
    requires Ranked(p, r) && |labels| < |p| && 0 <= i < |labels| && Close(p, r, labels, i)
    requires forall y :: 0 <= y < |labels| && |labels[i]| == |labels[y]| && Distance(labels[i], labels[y]) <= 2 ==> SameSet(p, r, i, y)
    ensures Close(p, r, labels, i + 1)
  {
  }

  // ---------------------------------------------------------------------------
  // The object
  // ---------------------------------------------------------------------------

  /**
   * What the object keeps true: binary labels of 1..30 bits, a table of
   * 2^bits + 1 entries naming the last label of each value, one set for the
   * labels of each value, and clusters one less than the number of sets of
   * nodes 0..nodes.
   */
  ghost predicate Holds(labels: seq<string>, bits: int, clusters: int, table: seq<int>, p: seq<int>, r: seq<int>)
    requires Ranked(p, r)
  {
    && 1 <= bits <= 30 && |table| == Pow2(bits) + 1
    && |p| == |labels| + 1
    && WellFormed(labels, bits)
    && Tabled(table, Values(labels))
    && Coarse(p, r, Values(labels))
    && clusters + 1 == |Roots(p)|
  }

  /** The work of the constructor: the table filled with -1, the union-find, then the loop over the labels. */
  method Load(nodes: int, bits: int, labels: seq<string>) returns (table: array<int>, sets: UnionFind, clusters: int)
    requires 0 <= nodes == |labels| && 1 <= bits <= 30 && WellFormed(labels, bits)
    ensures fresh(table) && fresh(sets) && fresh(sets.parent) && fresh(sets.rank)
    ensures sets.Valid() && table != sets.parent && table != sets.rank
    ensures Holds(labels, bits, clusters, table[..], sets.parent[..], sets.rank[..])
    ensures Partition(sets.parent[..], sets.rank[..], Values(labels), nodes)
    ensures clusters == nodes - Duplicates(Values(labels)) && clusters == |ValueSet(Values(labels))|
  {
    table := new int[Pow2(bits) + 1](_ => -1);
    sets := new UnionFind(nodes);
    InitialPartition(sets.parent[..], sets.rank[..], Values(labels));
    clusters := Deduplicate(labels, bits, table, sets);
    PartitionCoarse(sets.parent[..], sets.rank[..], Values(labels));
    DuplicatesCount(Values(labels));
  }

  class BigClustering {
    var labels: seq<string>
    var table: array<int>
    var nodes: int
    var bits: int
    var clusters: int
    /** The union-find over nodes 0..nodes (the field set of the source). */
    var sets: UnionFind

    ghost predicate Valid()
      reads this, table, sets, sets.parent, sets.rank
    {
      && sets.Valid() && table != sets.parent && table != sets.rank && nodes == |labels|
      && Holds(labels, bits, clusters, table[..], sets.parent[..], sets.rank[..])
    }

    /**
     * The object for the given labels, already read from the file with their
     * spaces removed: a table of 2^bits + 1 entries, and every label merged
     * with the earlier labels of the same value.
     */
    constructor(nodes: int, bits: int, labels: seq<string>)
      requires 0 <= nodes == |labels| && 1 <= bits <= 30 && WellFormed(labels, bits)
      ensures Valid() && this.nodes == nodes && this.bits == bits && this.labels == labels
      ensures Partition(sets.parent[..], sets.rank[..], Values(labels), nodes)
      ensures clusters == nodes - Duplicates(Values(labels)) && clusters == |ValueSet(Values(labels))|
    {
      var t, u, c := Load(nodes, bits, labels);
      this.nodes, this.bits, this.labels := nodes, bits, labels;
      table, sets, clusters := t, u, c;
    }

    /** generateLabelVariants(label): the variants at distance 1 and 2, in the order of the two loops. */
    method GenerateLabelVariants(bitLabel: string) returns (variants: seq<string>)
      requires |bitLabel| == bits
      ensures variants == Variants(bitLabel) && |variants| == Combinations(bits)
    {
      var n := |bitLabel|;
      variants := [];
      for i := 0 to n
        invariant variants == Flips(bitLabel, PairsBefore(i, n))
      {
        var dummy := FlipAt(bitLabel, i);
        FlipsAppend(bitLabel, PairsBefore(i, n), (i, i));
        variants := variants + [dummy];
        variants := DoubleFlips(bitLabel, i, dummy, variants);
        FlipsConcat(bitLabel, PairsBefore(i, n) + [(i, i)], RowTail(i, i + 1, n));
        RowDone(i, n);
      }
      VariantsCount(bitLabel);
    }

    /** The inner loop of generateLabelVariants: dummy, the single flip at i, flipped again at each j > i. */
    static method DoubleFlips(bitLabel: string, i: int, dummy: string, variants: seq<string>) returns (result: seq<string>)
      requires 0 <= i < |bitLabel| && dummy == FlipAt(bitLabel, i)
      ensures result == variants + Flips(bitLabel, RowTail(i, i + 1, |bitLabel|))
    {
      result := variants;
      for j := i + 1 to |bitLabel|
        invariant result == variants + Flips(bitLabel, RowTail(i, i + 1, j))
      {
        var dummy2 := FlipAt(dummy, j);
        RowTailStep(i, i + 1, j);
        FlipsAppend(bitLabel, RowTail(i, i + 1, j), (i, j));
        result := result + [dummy2];
      }
    }

    /**
     * processLabels(): every label is merged with the table's node for each
     * of its variants, and each union that succeeds takes one off the count.
     */
    method ProcessLabels()
      requires Valid()
      modifies this`clusters, sets.parent, sets.rank
      ensures Valid()
      ensures Coarser(old(sets.parent[..]), old(sets.rank[..]), sets.parent[..], sets.rank[..])
      ensures Close(sets.parent[..], sets.rank[..], labels, nodes)
    {
      for i := 0 to |labels|
        invariant Valid()
        invariant Coarser(old(sets.parent[..]), old(sets.rank[..]), sets.parent[..], sets.rank[..])
        invariant Close(sets.parent[..], sets.rank[..], labels, i)
      {
        var variants := GenerateLabelVariants(labels[i]);
        JoinVariants(i, variants);
        CloseStep(sets.parent[..], sets.rank[..], labels, bits, table[..], i);
      }
    }

    /** The inner loop of processLabels for label i. */
    method JoinVariants(i: int, variants: seq<string>)
      requires Valid() && 0 <= i < nodes && variants == Variants(labels[i])
      requires Close(sets.parent[..], sets.rank[..], labels, i)
      modifies this`clusters, sets.parent, sets.rank
      ensures Valid()
      ensures Coarser(old(sets.parent[..]), old(sets.rank[..]), sets.parent[..], sets.rank[..])
      ensures Close(sets.parent[..], sets.rank[..], labels, i)
      ensures Hits(sets.parent[..], sets.rank[..], table[..], variants, i, |variants|)
    {
      VariantsNear(labels[i]);
      for k := 0 to |variants|
        invariant Valid()
        invariant Coarser(old(sets.parent[..]), old(sets.rank[..]), sets.parent[..], sets.rank[..])
        invariant Close(sets.parent[..], sets.rank[..], labels, i)
        invariant Hits(sets.parent[..], sets.rank[..], table[..], variants, i, k)
      {
        ghost var p, r := sets.parent[..], sets.rank[..];
        JoinVariant(i, variants, k);
        CloseKept(p, r, sets.parent[..], sets.rank[..], labels, i);
      }
    }

    /** One variant of label i: merge with the table's node for its value, if any. */
    method JoinVariant(i: int, variants: seq<string>, k: int)
      requires Valid() && 0 <= i < nodes && 0 <= k < |variants| && |variants[k]| == bits
      requires Hits(sets.parent[..], sets.rank[..], table[..], variants, i, k)
      modifies this`clusters, sets.parent, sets.rank
      ensures Valid()
      ensures Coarser(old(sets.parent[..]), old(sets.rank[..]), sets.parent[..], sets.rank[..])
      ensures Hits(sets.parent[..], sets.rank[..], table[..], variants, i, k + 1)
    {
      var index := table[Value(variants[k])];
      if index >= 0 {
        ghost var p, r := sets.parent[..], sets.rank[..];
        ghost var before := clusters;
        var merged := JoinSets(sets, index, i);
        clusters := if merged then clusters - 1 else clusters;
        JoinStep(p, r, sets.parent[..], sets.rank[..], merged, labels, bits, before, clusters, table[..], variants, i, k);
      } else {
        HitsStep(sets.parent[..], sets.rank[..], table[..], variants, i, k);
      }
    }
  }
}
