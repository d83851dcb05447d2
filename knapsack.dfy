/**
 * The 0/1 knapsack: items 1..n, each with a weight and a value, and a
 * capacity. Entry (i, c) of the table is the best value of a choice among
 * items 1..i whose weights add up to at most c.
 */
module Knapsack {

  datatype Item = Item(weight: int, value: int)

  /** The items the table handles: itemList[i] of the Java array is items[i - 1]. */
  predicate WeightsNonNegative(items: seq<Item>) {
    forall k :: 0 <= k < |items| ==> items[k].weight >= 0
  }

  /** Entry (i, c) of the table, as the recurrence of processSmallKnapsack defines it. */
  function Table(items: seq<Item>, i: nat, c: nat): int
    requires i <= |items| && WeightsNonNegative(items)
  {
    if i == 0 then 0
    else if items[i - 1].weight > c then Table(items, i - 1, c)
    else Max(Table(items, i - 1, c), Table(items, i - 1, c - items[i - 1].weight) + items[i - 1].value)
  }

  function Max(a: int, b: int): int { if a >= b then a else b }

  // ---------------------------------------------------------------------------
  // The optimisation problem the table solves
  // ---------------------------------------------------------------------------

  /** The total weight of the items picked among the first |pick|. */
  function PickedWeight(items: seq<Item>, pick: seq<bool>): int
    requires |pick| <= |items|
  {
    if |pick| == 0 then 0
    else PickedWeight(items, pick[..|pick| - 1]) + (if pick[|pick| - 1] then items[|pick| - 1].weight else 0)
  }

  /** The total value of the items picked among the first |pick|. */
  function PickedValue(items: seq<Item>, pick: seq<bool>): int
    requires |pick| <= |items|
  {
    if |pick| == 0 then 0
    else PickedValue(items, pick[..|pick| - 1]) + (if pick[|pick| - 1] then items[|pick| - 1].value else 0)
  }

  lemma {:induction false} PickedWeightNonNegative(items: seq<Item>, pick: seq<bool>)
    requires |pick| <= |items| && WeightsNonNegative(items)
    ensures PickedWeight(items, pick) >= 0
  {
    if |pick| > 0 {
      PickedWeightNonNegative(items, pick[..|pick| - 1]);
    }
  }

  /** Some choice among items 1..i of weight at most c has value Table(i, c). */
  lemma {:induction false} TableAttained(items: seq<Item>, i: nat, c: nat) returns (pick: seq<bool>)
    requires i <= |items| && WeightsNonNegative(items)
    ensures |pick| == i && PickedWeight(items, pick) <= c && PickedValue(items, pick) == Table(items, i, c)
  {
    if i == 0 {
      pick := [];
    } else {
      var w := items[i - 1].weight;
      var skip := TableAttained(items, i - 1, c);
      if w > c || Table(items, i - 1, c) >= Table(items, i - 1, c - w) + items[i - 1].value {
        pick := skip + [false];
        assert pick[..|pick| - 1] == skip;
      } else {
        var take := TableAttained(items, i - 1, c - w);
        pick := take + [true];
        assert pick[..|pick| - 1] == take;
      }
    }
  }

  /** No choice among items 1..i of weight at most c is worth more than Table(i, c). */
  lemma {:induction false} TableOptimal(items: seq<Item>, i: nat, c: nat, pick: seq<bool>)
    requires i <= |items| && WeightsNonNegative(items)
    requires |pick| == i && PickedWeight(items, pick) <= c
    ensures PickedValue(items, pick) <= Table(items, i, c)
  {
    if i > 0 {
      var rest := pick[..i - 1];
      var w := items[i - 1].weight;
      if pick[i - 1] {
        PickedWeightNonNegative(items, rest);
        TableOptimal(items, i - 1, c - w, rest);
      } else {
        TableOptimal(items, i - 1, c, rest);
      }
    }
  }

  /** Each row of the table is at least the one above it: item i can always be skipped. */
  lemma TableGrows(items: seq<Item>, i: nat, c: nat)
    requires 1 <= i <= |items| && WeightsNonNegative(items)
    ensures Table(items, i, c) >= Table(items, i - 1, c)
  {
  }

  // ---------------------------------------------------------------------------
  // The Java methods
  // ---------------------------------------------------------------------------

  /** processSmallKnapsack: the full (items + 1) x (capacity + 1) table, filled row by row. */
  method ProcessSmallKnapsack(items: seq<Item>, capacity: nat) returns (r: int)
    requires WeightsNonNegative(items)
    ensures r == Table(items, |items|, capacity)
  {
    var n := |items|;
    var knapsack := new int[n + 1, capacity + 1];
    for i := 0 to capacity + 1
      invariant forall c :: 0 <= c < i ==> knapsack[0, c] == 0
    {
      knapsack[0, i] := 0;
    }
    for i := 1 to n + 1
      invariant forall i', c :: 0 <= i' < i && 0 <= c <= capacity ==> knapsack[i', c] == Table(items, i', c)
    {
      for c := 0 to capacity + 1
        invariant forall i', c' :: 0 <= i' < i && 0 <= c' <= capacity ==> knapsack[i', c'] == Table(items, i', c')
        invariant forall c' :: 0 <= c' < c ==> knapsack[i, c'] == Table(items, i, c')
      {
        var item := items[i - 1];
        if item.weight > c {
          knapsack[i, c] := knapsack[i - 1, c];
        } else {
          knapsack[i, c] := Max(knapsack[i - 1, c], knapsack[i - 1, c - item.weight] + item.value);
        }
      }
    }
    r := knapsack[n, capacity];
  }

  /** processBigKnapsack: only the previous row is kept. */
  method ProcessBigKnapsack(items: seq<Item>, capacity: nat) returns (r: int)
    requires WeightsNonNegative(items)
    ensures r == Table(items, |items|, capacity)
  {
    var n := |items|;
    var cache := new int[capacity + 1](_ => 0);
    for i := 1 to n + 1
      invariant cache.Length == capacity + 1
      invariant forall c :: 0 <= c <= capacity ==> cache[c] == Table(items, i - 1, c)
    {
      var current := new int[capacity + 1](_ => 0);
      for c := 0 to capacity + 1
        invariant forall c' :: 0 <= c' <= capacity ==> cache[c'] == Table(items, i - 1, c')
        invariant forall c' :: 0 <= c' < c ==> current[c'] == Table(items, i, c')
      {
        var item := items[i - 1];
        if item.weight > c {
          current[c] := cache[c];
        } else {
          current[c] := Max(cache[c], cache[c - item.weight] + item.value);
        }
      }
      cache := current;
    }
    r := cache[capacity];
  }

  /** Both methods return the value of a best choice: attained by some choice and beaten by none. */
  lemma KnapsackOptimal(items: seq<Item>, capacity: nat, pick: seq<bool>)
    requires WeightsNonNegative(items) && |pick| == |items| && PickedWeight(items, pick) <= capacity
    ensures PickedValue(items, pick) <= Table(items, |items|, capacity)
    ensures exists best: seq<bool> :: |best| == |items| && PickedWeight(items, best) <= capacity &&
                                      PickedValue(items, best) == Table(items, |items|, capacity)
  {
    TableOptimal(items, |items|, capacity, pick);
    var best := TableAttained(items, |items|, capacity);
  }
}
