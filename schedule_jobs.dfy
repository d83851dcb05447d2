/**
 * The job scheduler: jobs with a weight and a length run back to back in list
 * order, and computeCompletionTime sums each job's weight times the time at
 * which it completes.
 */
module ScheduleJobs {

  datatype Job = Job(weight: int, length: int)

  function TotalLength(jobs: seq<Job>): int
    decreases |jobs|
  {
    if |jobs| == 0 then 0 else jobs[0].length + TotalLength(jobs[1..])
  }

  /** The weighted sum of completion times of jobs run in order from time start. */
  function Weighted(jobs: seq<Job>, start: int): int
    decreases |jobs|
  {
    if |jobs| == 0 then 0
    else jobs[0].weight * (start + jobs[0].length) + Weighted(jobs[1..], start + jobs[0].length)
  }

  /** Running L and then M: M starts once L is done. */
  lemma {:induction false} WeightedAppend(L: seq<Job>, M: seq<Job>, start: int)
    ensures Weighted(L + M, start) == Weighted(L, start) + Weighted(M, start + TotalLength(L))
    ensures TotalLength(L + M) == TotalLength(L) + TotalLength(M)
    decreases |L|
  {
    if |L| == 0 {
      assert L + M == M;
    } else {
      assert (L + M)[1..] == L[1..] + M;
      WeightedAppend(L[1..], M, start + L[0].length);
    }
  }

  /** Appending job j to L adds j's weight times the total length with j. */
  lemma AppendJob(L: seq<Job>, j: Job)
    ensures Weighted(L + [j], 0) == Weighted(L, 0) + j.weight * (TotalLength(L) + j.length)
  {
    WeightedAppend(L, [j], 0);
    assert [j][1..] == [];
  }

  lemma {:induction false} ExchangePair(x: Job, y: Job, s: int)
    ensures Weighted([x, y], s) - Weighted([y, x], s) == y.weight * x.length - x.weight * y.length
    ensures TotalLength([x, y]) == TotalLength([y, x])
  {
    assert [x, y][1..] == [y] && [y, x][1..] == [x] && [x][1..] == [] && [y][1..] == [];
    assert Weighted([y], s + x.length) == y.weight * (s + x.length + y.length);
    assert Weighted([x], s + y.length) == x.weight * (s + y.length + x.length);
    assert Weighted([x, y], s) == x.weight * (s + x.length) + y.weight * (s + x.length + y.length);
    assert Weighted([y, x], s) == y.weight * (s + y.length) + x.weight * (s + y.length + x.length);
    assert x.weight * (s + y.length + x.length) == x.weight * (s + x.length) + x.weight * y.length;
    assert y.weight * (s + x.length + y.length) == y.weight * (s + y.length) + y.weight * x.length;
  }

  /** Exchanging two neighbouring jobs x, y changes the sum by y.weight * x.length - x.weight * y.length,
      which is why ordering by a greedy criterion matters. */
  lemma Exchange(A: seq<Job>, x: Job, y: Job, B: seq<Job>)
    ensures Weighted(A + [x, y] + B, 0) - Weighted(A + [y, x] + B, 0) == y.weight * x.length - x.weight * y.length
  {
    WeightedAppend(A + [x, y], B, 0);
    WeightedAppend(A + [y, x], B, 0);
    WeightedAppend(A, [x, y], 0);
    WeightedAppend(A, [y, x], 0);
    ExchangePair(x, y, TotalLength(A));
  }

  /** computeCompletionTime: one pass, accumulating the running length and the weighted sum. */
  method ComputeCompletionTime(jobList: seq<Job>) returns (completionTime: int)
    ensures completionTime == Weighted(jobList, 0)
    ensures |jobList| == 0 ==> completionTime == 0
  {
    var currentLength := 0;
    completionTime := 0;
    var k := 0;
    while k < |jobList|
      invariant 0 <= k <= |jobList|
      invariant currentLength == TotalLength(jobList[..k])
      invariant completionTime + Weighted(jobList[k..], currentLength) == Weighted(jobList, 0)
    {
      var j := jobList[k];
      assert jobList[k..][1..] == jobList[k + 1..];
      WeightedAppend(jobList[..k], [j], 0);
      assert jobList[..k + 1] == jobList[..k] + [j];
      completionTime := completionTime + j.weight * (currentLength + j.length);
      currentLength := currentLength + j.length;
      k := k + 1;
    }
  }
}
