/**
 * Two sums in a range: how many distinct values t in [leftRange, rightRange]
 * are x + y for values x, y of the input. The TreeMap of distinct values with
 * their "done" flags is a map from value to bool, its subMap a set of keys,
 * and the HashSet of sums a set of ints. Values are Java longs; the bounds of
 * the submap are long differences and each sum is cast to int, so both wrap
 * as Java's arithmetic does.
 */
module TwoSum {
  import opened Wrappers
  import JavaInt
  import Median

  /** Every value of the list is a Java long. */
  predicate Longs(values: seq<int>) {
    forall k :: 0 <= k < |values| ==> JavaInt.InLongRange(values[k])
  }

  /** The distinct values of a list: the keys of the TreeMap. */
  function Keys(values: seq<int>): set<int> {
    set x | x in values
  }

  /** (int) (number + key): the long sum cast to int, which is the exact sum wrapped to an int. */
  function SumOf(x: int, y: int): (r: int)
    ensures JavaInt.InRange(r) && r == JavaInt.Wrap(x + y)
  {
    JavaInt.WrapOfLong(x + y);
    JavaInt.Wrap(JavaInt.WrapLong(x + y))
  }

  /** For x, subMap(left, true, right, true) is legal: left = leftRange - x is not above right = rightRange - x. */
  predicate Ordered(x: int, leftRange: int, rightRange: int) {
    JavaInt.WrapLong(leftRange - x) <= JavaInt.WrapLong(rightRange - x)
  }

  /** The keys of the submap for x: every key between the two long bounds, both included. */
  function Window(keys: set<int>, x: int, leftRange: int, rightRange: int): set<int> {
    set y | y in keys && JavaInt.WrapLong(leftRange - x) <= y <= JavaInt.WrapLong(rightRange - x)
  }

  /** The sums the inner loop adds for x and the given keys. */
  function SumsWith(x: int, ys: set<int>): set<int> {
    set y | y in ys :: SumOf(x, y)
  }

  /** The sums of every value of xs with the keys of its window. */
  function Sums(xs: set<int>, keys: set<int>, leftRange: int, rightRange: int): set<int> {
    set x, y | x in xs && y in Window(keys, x, leftRange, rightRange) :: SumOf(x, y)
  }

  /**
   * What countTwoSumsInRange returns: None for the IllegalArgumentException of a submap
   * whose bounds are out of order, otherwise the number of distinct sums.
   */
  function Count(values: seq<int>, leftRange: int, rightRange: int): Option<int> {
    if forall k :: 0 <= k < |values| ==> Ordered(values[k], leftRange, rightRange)
    then Some(|Sums(Keys(values), Keys(values), leftRange, rightRange)|)
    else None
  }

  // ---------------------------------------------------------------------------
  // Set algebra for the loops
  // ---------------------------------------------------------------------------

  lemma SumsWithAdd(x: int, ys: set<int>, y: int)
    ensures SumsWith(x, ys + {y}) == SumsWith(x, ys) + {SumOf(x, y)}
  {
  }

  lemma SumsAdd(xs: set<int>, x: int, keys: set<int>, leftRange: int, rightRange: int)
    ensures Sums(xs + {x}, keys, leftRange, rightRange) ==
            Sums(xs, keys, leftRange, rightRange) + SumsWith(x, Window(keys, x, leftRange, rightRange))
  {
    var w := Window(keys, x, leftRange, rightRange);
    forall s | s in SumsWith(x, w)
      ensures s in Sums(xs + {x}, keys, leftRange, rightRange)
    {
      var y :| y in w && s == SumOf(x, y);
    }
  }

  lemma KeysAdd(values: seq<int>, i: nat)
    requires i < |values|
    ensures Keys(values[..i + 1]) == Keys(values[..i]) + {values[i]}
  {
    assert values[..i + 1] == values[..i] + [values[i]];
  }

  // ---------------------------------------------------------------------------
  // What the count means
  // ---------------------------------------------------------------------------

  /** Values small enough that neither leftRange - x nor rightRange - x wraps as a long. */
  predicate Moderate(values: seq<int>) {
    forall k :: 0 <= k < |values| ==> -0x4000_0000_0000_0000 <= values[k] <= 0x4000_0000_0000_0000
  }

  /** Reference definition: the distinct targets t in [leftRange, rightRange] that are x + y for keys x, y. */
  function RangeSums(keys: set<int>, leftRange: int, rightRange: int): set<int> {
    set x, y | x in keys && y in keys && leftRange <= x + y <= rightRange :: x + y
  }

  /** A value small enough that the long bounds of its submap do not wrap. */
  predicate ModerateValue(x: int) {
    -0x4000_0000_0000_0000 <= x <= 0x4000_0000_0000_0000
  }

  /** Without wrap-around, the submap of x holds the keys y with leftRange <= x + y <= rightRange. */
  lemma ExactWindow(keys: set<int>, x: int, y: int, leftRange: int, rightRange: int)
    requires ModerateValue(x) && JavaInt.InRange(leftRange) && JavaInt.InRange(rightRange)
    ensures y in Window(keys, x, leftRange, rightRange) <==> y in keys && leftRange <= x + y <= rightRange
    ensures leftRange <= x + y <= rightRange ==> SumOf(x, y) == x + y
    ensures Ordered(x, leftRange, rightRange) <==> leftRange <= rightRange
  {
    assert JavaInt.WrapLong(leftRange - x) == leftRange - x;
    assert JavaInt.WrapLong(rightRange - x) == rightRange - x;
  }

  /** Without wrap-around, the sums collected are exactly the reference targets. */
  lemma ExactSums(keys: set<int>, leftRange: int, rightRange: int)
    requires forall x :: x in keys ==> ModerateValue(x)
    requires JavaInt.InRange(leftRange) && JavaInt.InRange(rightRange)
    ensures Sums(keys, keys, leftRange, rightRange) == RangeSums(keys, leftRange, rightRange)
  {
    forall s | s in Sums(keys, keys, leftRange, rightRange)
      ensures s in RangeSums(keys, leftRange, rightRange)
    {
      ExactSum(keys, s, leftRange, rightRange);
    }
    forall s | s in RangeSums(keys, leftRange, rightRange)
      ensures s in Sums(keys, keys, leftRange, rightRange)
    {
      ExactTarget(keys, s, leftRange, rightRange);
    }
  }

  lemma ExactSum(keys: set<int>, s: int, leftRange: int, rightRange: int)
    requires forall x :: x in keys ==> ModerateValue(x)
    requires JavaInt.InRange(leftRange) && JavaInt.InRange(rightRange)
    requires s in Sums(keys, keys, leftRange, rightRange)
    ensures s in RangeSums(keys, leftRange, rightRange)
  {
    var x, y :| x in keys && y in Window(keys, x, leftRange, rightRange) && s == SumOf(x, y);
    ExactWindow(keys, x, y, leftRange, rightRange);
  }

  lemma ExactTarget(keys: set<int>, s: int, leftRange: int, rightRange: int)
    requires forall x :: x in keys ==> ModerateValue(x)
    requires JavaInt.InRange(leftRange) && JavaInt.InRange(rightRange)
    requires s in RangeSums(keys, leftRange, rightRange)
    ensures s in Sums(keys, keys, leftRange, rightRange)
  {
    var x, y :| x in keys && y in keys && leftRange <= x + y <= rightRange && s == x + y;
    ExactWindow(keys, x, y, leftRange, rightRange);
  }

  /**
   * Without wrap-around the method counts what it promises: an exception only for an
   * inverted range over a non-empty input, otherwise every target of the range that is
   * the sum of two (not necessarily distinct) values of the input.
   */
  lemma CountMeaning(values: seq<int>, leftRange: int, rightRange: int)
    requires Moderate(values) && JavaInt.InRange(leftRange) && JavaInt.InRange(rightRange)
    ensures Count(values, leftRange, rightRange).Some? <==> (|values| == 0 || leftRange <= rightRange)
    ensures Count(values, leftRange, rightRange).Some? ==>
              Count(values, leftRange, rightRange).value == |RangeSums(Keys(values), leftRange, rightRange)|
  {
    if |values| > 0 {
      ExactWindow({}, values[0], 0, leftRange, rightRange);
    }
    if leftRange <= rightRange {
      forall k | 0 <= k < |values| ensures Ordered(values[k], leftRange, rightRange) {
        ExactWindow({}, values[k], 0, leftRange, rightRange);
      }
    }
    forall x | x in Keys(values) ensures ModerateValue(x) {
      var k :| 0 <= k < |values| && values[k] == x;
    }
    ExactSums(Keys(values), leftRange, rightRange);
  }

  /** The count depends on the values read, not on their order or how often each repeats. */
  lemma CountOfKeys(a: seq<int>, b: seq<int>, leftRange: int, rightRange: int)
    requires Keys(a) == Keys(b)
    ensures Count(a, leftRange, rightRange) == Count(b, leftRange, rightRange)
  {
    if forall k :: 0 <= k < |a| ==> Ordered(a[k], leftRange, rightRange) {
      forall k | 0 <= k < |b| ensures Ordered(b[k], leftRange, rightRange) {
        assert b[k] in Keys(a);
      }
    }
    if forall k :: 0 <= k < |b| ==> Ordered(b[k], leftRange, rightRange) {
      forall k | 0 <= k < |a| ensures Ordered(a[k], leftRange, rightRange) {
        assert a[k] in Keys(b);
      }
    }
  }

  // ---------------------------------------------------------------------------
  // The methods
  // ---------------------------------------------------------------------------

  /** returnTreeMap(values): every distinct value as a key, each mapped to false. */
  method ReturnTreeMap(values: seq<int>) returns (tree: map<int, bool>)
    ensures tree.Keys == Keys(values)
    ensures forall k :: k in tree ==> !tree[k]
  {
    tree := map[];
    for i := 0 to |values|
      invariant tree.Keys == Keys(values[..i])
      invariant forall k :: k in tree ==> !tree[k]
    {
      KeysAdd(values, i);
      tree := tree[values[i] := false];
    }
    assert values[..|values|] == values;
  }

  /** The loop over subTree.keySet(), in ascending order: adds (int) (number + key) for each key. */
  method AddSums(tSet: set<int>, number: int, keys: set<int>) returns (r: set<int>)
    ensures r == tSet + SumsWith(number, keys)
  {
    r := tSet;
    var rest := keys;
    while rest != {}
      invariant rest <= keys
      invariant r == tSet + SumsWith(number, keys - rest)
      decreases |rest|
    {
      var key := Median.Min(multiset(rest));
      SumsWithAdd(number, keys - rest, key);
      assert keys - (rest - {key}) == (keys - rest) + {key};
      r := r + {SumOf(number, key)};
      rest := rest - {key};
    }
    assert keys - rest == keys;
  }

  /**
   * countTwoSumsInRange(values, leftRange, rightRange): each distinct value is processed at
   * its first occurrence (its flag is false), adds its sums with the keys of its submap, and
   * has its flag set, so later occurrences are skipped.
   */
  method CountTwoSumsInRange(values: seq<int>, leftRange: int, rightRange: int) returns (r: Option<int>)
    requires Longs(values) && JavaInt.InRange(leftRange) && JavaInt.InRange(rightRange)
    ensures r == Count(values, leftRange, rightRange)
  {
    var tSet: set<int> := {};
    var tree := ReturnTreeMap(values);
    ghost var keys := tree.Keys;
    var i := 0;
    while i < |values|
      invariant 0 <= i <= |values| && tree.Keys == keys == Keys(values)
      invariant forall k :: k in tree ==> (tree[k] <==> k in Keys(values[..i]))
      invariant forall k :: 0 <= k < i ==> Ordered(values[k], leftRange, rightRange)
      invariant tSet == Sums(Keys(values[..i]), keys, leftRange, rightRange)
    {
      var ok;
      ok, tSet, tree := Step(values, i, tSet, tree, leftRange, rightRange);
      if !ok {
        return None;
      }
      i := i + 1;
    }
    assert values[..i] == values;
    return Some(|tSet|);
  }

  /** One turn of the loop for values[i]; ok is false for the exception of subMap. */
  method Step(values: seq<int>, i: nat, tSet: set<int>, tree: map<int, bool>, leftRange: int, rightRange: int)
    returns (ok: bool, tSet2: set<int>, tree2: map<int, bool>)
    requires i < |values| && tree.Keys == Keys(values)
    requires forall k :: k in tree ==> (tree[k] <==> k in Keys(values[..i]))
    requires forall k :: 0 <= k < i ==> Ordered(values[k], leftRange, rightRange)
    requires tSet == Sums(Keys(values[..i]), Keys(values), leftRange, rightRange)
    ensures ok <==> Ordered(values[i], leftRange, rightRange)
    ensures ok ==> tree2.Keys == Keys(values)
    ensures ok ==> forall k :: k in tree2 ==> (tree2[k] <==> k in Keys(values[..i + 1]))
    ensures ok ==> tSet2 == Sums(Keys(values[..i + 1]), Keys(values), leftRange, rightRange)
  {
    KeysAdd(values, i);
    var number := values[i];
    assert number in Keys(values);
    if tree[number] {
      // a value seen before: its submap bounds were legal then
      var k :| 0 <= k < i && values[k] == number;
      return true, tSet, tree;
    }
    if !Ordered(number, leftRange, rightRange) {
      return false, tSet, tree;
    }
    tSet2 := Visit(tSet, number, tree.Keys, leftRange, rightRange);
    SumsAdd(Keys(values[..i]), number, Keys(values), leftRange, rightRange);
    return true, tSet2, tree[number := true];
  }

  /** The sums of one value with the keys of its submap, added to tSet. */
  method Visit(tSet: set<int>, number: int, keys: set<int>, leftRange: int, rightRange: int) returns (r: set<int>)
    requires Ordered(number, leftRange, rightRange)
    ensures r == tSet + SumsWith(number, Window(keys, number, leftRange, rightRange))
  {
    var left := JavaInt.WrapLong(leftRange - number);
    var right := JavaInt.WrapLong(rightRange - number);
    var subTree := set y | y in keys && left <= y <= right;
    assert subTree == Window(keys, number, leftRange, rightRange);
    r := tSet;
    if |subTree| > 0 {
      r := AddSums(tSet, number, subTree);
    }
  }
}
