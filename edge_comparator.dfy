/**
 * The Kruskal edge (two endpoints and a cost) and EdgeComparator, which
 * orders edges by cost alone.
 */
module EdgeComparator {

  datatype Edge = Edge(nodeA: int, nodeB: int, cost: int)

  /** compare(A, B): +1, -1 or 0 as A costs more than, less than or the same as B. */
  function Compare(a: Edge, b: Edge): (r: int)
    ensures r == 1 <==> a.cost > b.cost
    ensures r == -1 <==> a.cost < b.cost
    ensures r == 0 <==> a.cost == b.cost
  {
    if a.cost > b.cost then 1
    else if b.cost > a.cost then -1
    else 0
  }

  lemma Antisymmetric(a: Edge, b: Edge)
    ensures Compare(a, b) == -Compare(b, a)
  {
  }

  lemma Transitive(a: Edge, b: Edge, c: Edge)
    requires Compare(a, b) <= 0 && Compare(b, c) <= 0
    ensures Compare(a, c) <= 0
  {
  }

  /** The endpoints play no part. */
  lemma CostOnly(a: Edge, b: Edge, a': Edge, b': Edge)
    requires a.cost == a'.cost && b.cost == b'.cost
    ensures Compare(a, b) == Compare(a', b')
  {
  }

  /** A list every neighbouring pair of which is in order, as Collections.sort leaves it. */
  predicate InOrder(es: seq<Edge>) {
    forall i :: 0 <= i < |es| - 1 ==> Compare(es[i], es[i + 1]) <= 0
  }

  /** A list sorted with the comparator has non-decreasing costs throughout. */
  lemma {:induction false} InOrderNonDecreasing(es: seq<Edge>, i: int, j: int)
    requires InOrder(es) && 0 <= i <= j < |es|
    ensures es[i].cost <= es[j].cost
    decreases j - i
  {
    if i < j {
      InOrderNonDecreasing(es, i + 1, j);
      assert Compare(es[i], es[i + 1]) <= 0;
    }
  }
}
