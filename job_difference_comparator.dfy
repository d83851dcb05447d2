/**
 * JobDifferenceComparator: the job with the larger weight - length comes
 * first, and on equal differences the heavier job. The difference is an int
 * subtraction and wraps around like one.
 */
module JobDifferenceComparator {
  import opened JavaInt
  import opened ScheduleJobs

  function Difference(j: Job): int {
    Wrap(j.weight - j.length)
  }

  /** compare(j1, j2): -1 when j1 sorts first, +1 when j2 does, 0 only on a tie in both keys. */
  function Compare(j1: Job, j2: Job): (r: int)
    ensures r == -1 <==> Difference(j1) > Difference(j2) || (Difference(j1) == Difference(j2) && j1.weight > j2.weight)
    ensures r == 1 <==> Difference(j1) < Difference(j2) || (Difference(j1) == Difference(j2) && j1.weight < j2.weight)
    ensures r == 0 <==> Difference(j1) == Difference(j2) && j1.weight == j2.weight
  {
    var job1 := Difference(j1);
    var job2 := Difference(j2);
    if job1 < job2 then 1
    else if job2 < job1 then -1
    else if j1.weight < j2.weight then 1
    else if j2.weight < j1.weight then -1
    else 0
  }

  lemma Antisymmetric(a: Job, b: Job)
    ensures Compare(a, b) == -Compare(b, a)
  {
  }

  lemma Transitive(a: Job, b: Job, c: Job)
    requires Compare(a, b) <= 0 && Compare(b, c) <= 0
    ensures Compare(a, c) <= 0
  {
  }

  lemma MultipleOfModulus(d: int)
    requires -MODULUS < d < MODULUS && d % MODULUS == 0
    ensures d == 0
  {
  }

  /** Two values that wrap to the same int differ by a multiple of 2^32. */
  lemma WrapCongruent(x: int, y: int)
    requires Wrap(x) == Wrap(y)
    ensures (x - y) % MODULUS == 0
  {
    var r := Wrap(x);
    var p, q := (x - r) / MODULUS, (y - r) / MODULUS;
    assert x - r == MODULUS * p;
    assert y - r == MODULUS * q;
    assert x - y == MODULUS * (p - q);
  }

  /** For jobs whose fields are ints, compare returns 0 only for equal jobs. */
  lemma ZeroOnlyWhenEqual(a: Job, b: Job)
    requires InRange(a.weight) && InRange(a.length) && InRange(b.weight) && InRange(b.length)
    ensures Compare(a, b) == 0 <==> a == b
  {
    if Compare(a, b) == 0 {
      WrapCongruent(a.weight - a.length, b.weight - b.length);
      assert (a.weight - a.length) - (b.weight - b.length) == b.length - a.length;
      MultipleOfModulus(b.length - a.length);
    }
  }
}
