/**
 * gosperHack's promise, counted: from (1 << k) - 1 on, Gosper's step visits,
 * in increasing order, every value below 1 << bits with k bits set, and there
 * are C(bits, k) of them, so the array computeNumberOfSubsets sizes holds
 * exactly these masks.
 */
module TSPWalk {
  import opened Wrappers
  import opened TSP
  import opened TSPBits
  import opened TSPSubsets
  import opened TSPOrder

  // ---------------------------------------------------------------------------
  // 1 << n
  // ---------------------------------------------------------------------------

  lemma OneShiftedBit(k: nat)
    requires k <= 30
    ensures OneBit(OneShifted(k))
  {
    OneShiftedBounds(k);
  }

  lemma OneShiftedDouble(b: nat)
    requires 1 <= b <= 30
    ensures OneShifted(b) == OneShifted(b - 1) + OneShifted(b - 1) && OneShifted(b - 1) <= 0x2000_0000
  {
    OneShiftedBounds(b - 1);
  }

  /** The first mask of size k has k cities. */
  lemma {:induction false} FirstSize(k: nat)
    requires k <= 30
    ensures Pop(OneShifted(k) - 1) == k
  {
    if k > 0 {
      OneShiftedDouble(k);
      OneShiftedBit(k - 1);
      DoubleOnes(OneShifted(k - 1), OneShifted(k));
      FirstSize(k - 1);
    }
  }

  /** A mask below the first mask of size k has fewer than k cities. */
  lemma FirstLeast(k: nat, x: bv32)
    requires 1 <= k <= 30
    ensures x < FirstSubset(k) ==> Pop(x) < k
  {
    if x < FirstSubset(k) {
      FirstSize(k);
      OneShiftedBit(k);
      OnesBelow(OneShifted(k));
      PopInside(x, FirstSubset(k));
    }
  }

  /** (1 << j) <= (1 << k) - 1 for j < k. */
  lemma {:induction false} ShiftedAbove(j: nat, k: nat)
    requires j < k <= 30
    ensures OneShifted(j) <= OneShifted(k) - 1
    decreases k
  {
    OneShiftedDouble(k);
    OneShiftedBounds(k - 1);
    DoubleAbove(OneShifted(k - 1), OneShifted(k));
    if j < k - 1 {
      ShiftedAbove(j, k - 1);
    }
  }

  // ---------------------------------------------------------------------------
  // All masks below 1 << b with k bits set
  // ---------------------------------------------------------------------------

  /** Every mask of s with the bit t added. */
  function Lift(s: seq<bv32>, t: bv32): (r: seq<bv32>)
    ensures |r| == |s| && forall i :: 0 <= i < |s| ==> r[i] == s[i] | t
  {
    seq(|s|, i requires 0 <= i < |s| => s[i] | t)
  }

  /**
   * The masks below 1 << b with k bits set, by Pascal's rule: those without
   * bit b - 1, then those with it.
   */
  function KSubsets(b: nat, k: nat): seq<bv32>
    requires b <= 30
    decreases b
  {
    if k == 0 then [0]
    else if b == 0 then []
    else KSubsets(b - 1, k) + Lift(KSubsets(b - 1, k - 1), OneShifted(b - 1))
  }

  /** There are C(b, k) of them: Pascal's rule is the recursion of both. */
  lemma {:induction false} KCount(b: nat, k: nat)
    requires b <= 30
    ensures |KSubsets(b, k)| == Binomial(b, k)
    decreases b
  {
    if k > 0 && b > 0 {
      KCount(b - 1, k);
      KCount(b - 1, k - 1);
    }
  }

  /** Every mask of s lies below u and has k bits set. */
  predicate AllSized(s: seq<bv32>, u: bv32, k: nat) {
    forall x :: x in s ==> x < u && Pop(x) == k
  }

  /** Masks below t are below t + t. */
  lemma LowSized(low: seq<bv32>, t: bv32, u: bv32, k: nat)
    requires t <= 0x2000_0000 && u == t + t && AllSized(low, t, k)
    ensures AllSized(low, u, k)
  {
    forall x | x in low
      ensures x < u
    {
      BelowDouble(x, t, u);
    }
  }

  /** Adding the bit t to masks below it gives masks below t + t with one more bit. */
  lemma LiftSized(high: seq<bv32>, t: bv32, u: bv32, k: nat)
    requires OneBit(t) && t <= 0x2000_0000 && u == t + t && AllSized(high, t, k)
    ensures AllSized(Lift(high, t), u, k + 1)
  {
    var lifted := Lift(high, t);
    forall x | x in lifted
      ensures x < u && Pop(x) == k + 1
    {
      var i :| 0 <= i < |lifted| && lifted[i] == x;
      assert high[i] in high;
      LiftSound(high[i], t, u);
    }
  }

  lemma JoinSized(a: seq<bv32>, b: seq<bv32>, u: bv32, k: nat)
    requires AllSized(a, u, k) && AllSized(b, u, k)
    ensures AllSized(a + b, u, k)
  {
  }

  /** Every listed mask lies below 1 << b and has k bits set. */
  lemma KSound(b: nat, k: nat)
    requires b <= 30
    ensures forall x :: x in KSubsets(b, k) ==> x < OneShifted(b) && Pop(x) == k
  {
    KSized(b, k);
  }

  lemma {:induction false} KSized(b: nat, k: nat)
    requires b <= 30
    ensures AllSized(KSubsets(b, k), OneShifted(b), k)
    decreases b
  {
    if k == 0 {
      assert KSubsets(b, k) == [0];
      OneShiftedBit(b);
    } else if b > 0 {
      KSized(b - 1, k);
      KSized(b - 1, k - 1);
      OneShiftedDouble(b);
      OneShiftedBit(b - 1);
      LowSized(KSubsets(b - 1, k), OneShifted(b - 1), OneShifted(b), k);
      LiftSized(KSubsets(b - 1, k - 1), OneShifted(b - 1), OneShifted(b), k - 1);
      JoinSized(KSubsets(b - 1, k), Lift(KSubsets(b - 1, k - 1), OneShifted(b - 1)), OneShifted(b), k);
    }
  }

  lemma InLow(x: bv32, low: seq<bv32>, lifted: seq<bv32>)
    requires x in low
    ensures x in low + lifted
  {
  }

  /** z | t is listed once z is, and t is the bit KSubsets adds. */
  lemma InLifted(x: bv32, z: bv32, low: seq<bv32>, high: seq<bv32>, t: bv32)
    requires z in high && z | t == x
    ensures x in low + Lift(high, t)
  {
    var i :| 0 <= i < |high| && high[i] == z;
    assert Lift(high, t)[i] == x;
  }

  /** Every mask below 1 << b with k bits set is listed. */
  lemma {:induction false} KComplete(b: nat, k: nat, x: bv32)
    requires b <= 30 && x < OneShifted(b) && Pop(x) == k
    ensures x in KSubsets(b, k)
    decreases b, 3
  {
    if k == 0 {
      NoCities(x);
    } else if b == 0 {
      assert false;
    } else {
      KCompleteSplit(b, k, x);
    }
  }

  /** Pascal's rule read backwards: a mask below 1 << b is listed without bit b - 1, or with it. */
  lemma {:induction false} KCompleteSplit(b: nat, k: nat, x: bv32)
    requires 1 <= b <= 30 && 1 <= k && x < OneShifted(b) && Pop(x) == k
    ensures x in KSubsets(b - 1, k) + Lift(KSubsets(b - 1, k - 1), OneShifted(b - 1))
    decreases b, 2
  {
    KCompleteLow(b, k, x);
    KCompleteHigh(b, k, x);
  }

  /** A mask without bit b - 1 is listed among the masks below 1 << (b - 1). */
  lemma {:induction false} KCompleteLow(b: nat, k: nat, x: bv32)
    requires 1 <= b <= 30 && 1 <= k && Pop(x) == k
    ensures x < OneShifted(b - 1) ==> x in KSubsets(b - 1, k) + Lift(KSubsets(b - 1, k - 1), OneShifted(b - 1))
    decreases b, 1
  {
    if x < OneShifted(b - 1) {
      KComplete(b - 1, k, x);
      InLow(x, KSubsets(b - 1, k), Lift(KSubsets(b - 1, k - 1), OneShifted(b - 1)));
    }
  }

  /** A mask of [1 << (b - 1), 1 << b) is bit b - 1 added to a mask below it. */
  lemma HighPart(b: nat, x: bv32) returns (z: bv32)
    requires 1 <= b <= 30 && OneShifted(b - 1) <= x < OneShifted(b)
    ensures z < OneShifted(b - 1) && z | OneShifted(b - 1) == x && Pop(z) + 1 == Pop(x)
  {
    OneShiftedDouble(b);
    OneShiftedBit(b - 1);
    z := TopPart(x, OneShifted(b - 1), OneShifted(b));
  }

  /** A mask with bit b - 1 is that bit added to a listed mask of one city fewer. */
  lemma {:induction false} KCompleteHigh(b: nat, k: nat, x: bv32)
    requires 1 <= b <= 30 && 1 <= k && x < OneShifted(b) && Pop(x) == k
    ensures OneShifted(b - 1) <= x ==> x in KSubsets(b - 1, k) + Lift(KSubsets(b - 1, k - 1), OneShifted(b - 1))
    decreases b, 1
  {
    if OneShifted(b - 1) <= x {
      var z := HighPart(b, x);
      KCompleteBelow(b, k, z);
      InLifted(x, z, KSubsets(b - 1, k), KSubsets(b - 1, k - 1), OneShifted(b - 1));
    }
  }

  lemma {:induction false} KCompleteBelow(b: nat, k: nat, z: bv32)
    requires 1 <= b <= 30 && 1 <= k && z < OneShifted(b - 1) && Pop(z) == k - 1
    ensures z in KSubsets(b - 1, k - 1)
    decreases b, 0
  {
    KComplete(b - 1, k - 1, z);
  }

  /** No mask is listed twice. */
  predicate Distinct(s: seq<bv32>) {
    forall i, j :: 0 <= i < j < |s| ==> s[i] != s[j]
  }

  lemma DistinctJoin(a: seq<bv32>, b: seq<bv32>)
    requires Distinct(a) && Distinct(b)
    requires forall i, j :: 0 <= i < |a| && 0 <= j < |b| ==> a[i] != b[j]
    ensures Distinct(a + b)
  {
  }

  lemma {:induction false} KDistinct(b: nat, k: nat)
    requires b <= 30
    ensures Distinct(KSubsets(b, k))
    decreases b
  {
    if k > 0 && b > 0 {
      KDistinct(b - 1, k);
      KDistinct(b - 1, k - 1);
      KSound(b - 1, k);
      KSound(b - 1, k - 1);
      OneShiftedBit(b - 1);
      OneShiftedDouble(b);
      var low := KSubsets(b - 1, k);
      var high := KSubsets(b - 1, k - 1);
      var lifted := Lift(high, OneShifted(b - 1));
      forall i, j | 0 <= i < j < |lifted|
        ensures lifted[i] != lifted[j]
      {
        assert high[i] in high && high[j] in high;
        LiftInjective(high[i], high[j], OneShifted(b - 1));
      }
      forall i, j | 0 <= i < |low| && 0 <= j < |lifted|
        ensures low[i] != lifted[j]
      {
        assert low[i] in low && high[j] in high;
        LiftAbove(high[j], OneShifted(b - 1));
      }
      DistinctJoin(low, lifted);
    }
  }

  // ---------------------------------------------------------------------------
  // Counting
  // ---------------------------------------------------------------------------

  /** The masks a list holds. */
  ghost function Members(s: seq<bv32>): set<bv32> {
    set x | x in s
  }

  lemma {:induction false} DistinctCard(s: seq<bv32>)
    requires Distinct(s)
    ensures |Members(s)| == |s|
  {
    if |s| > 0 {
      assert Distinct(s[1..]) by {
        forall i, j | 0 <= i < j < |s[1..]|
          ensures s[1..][i] != s[1..][j]
        {
          assert s[1..][i] == s[i + 1] && s[1..][j] == s[j + 1];
        }
      }
      DistinctCard(s[1..]);
      assert Members(s) == {s[0]} + Members(s[1..]);
    }
  }

  lemma {:induction false} CardAtMost(s: seq<bv32>)
    ensures |Members(s)| <= |s|
  {
    if |s| > 0 {
      CardAtMost(s[1..]);
      assert Members(s) == {s[0]} + Members(s[1..]);
    }
  }

  /** A list without repeats, drawn from t, is no longer than t. */
  lemma Pigeon(s: seq<bv32>, t: seq<bv32>)
    requires |Members(s)| == |s| && forall x :: x in s ==> x in t
    ensures |s| <= |t|
  {
    CardAtMost(t);
    assert Members(s) <= Members(t) by {
      forall x | x in Members(s)
        ensures x in Members(t)
      {
        assert x in s;
      }
    }
    assert Members(t) == Members(s) + (Members(t) - Members(s));
  }

  // ---------------------------------------------------------------------------
  // The walk of Gosper's steps
  // ---------------------------------------------------------------------------

  /**
   * One step of the walk, with the next mask named and what the walk needs of
   * it: it is larger, it has as many cities, and it skips no mask x with as
   * many cities. Order facts are stated on values, where the solver combines
   * them cheaply.
   */
  lemma Step(mask: bv32, limit: bv32, n: nat, x: bv32) returns (next: bv32)
    requires 0 < mask < limit <= 0x4000_0000 && n > 0
    ensures 0 < next < 0x8000_0000 && Val(mask) < Val(next) && Pop(next) == Pop(mask)
    ensures Val(mask) < Val(x) && Pop(x) == Pop(mask) ==> Val(next) <= Val(x)
    ensures Masks(mask, limit, n) == [mask] + Masks(next, limit, n - 1)
  {
    next := Next(mask);
    MasksStep(mask, limit, n);
    NextGreater(mask);
    LessVal(mask, next);
    NextSize(mask);
    if Val(mask) < Val(x) < Val(next) {
      NextLeast(mask, x);
    }
  }

  /** The stored masks have as many cities as the first, start at it and stay below the limit. */
  lemma {:induction false} MasksShape(mask: bv32, limit: bv32, n: nat)
    requires 0 < mask < 0x8000_0000 && limit <= 0x4000_0000
    ensures forall x :: x in Masks(mask, limit, n) ==> Pop(x) == Pop(mask) && Val(mask) <= Val(x) < Val(limit)
    decreases n
  {
    if n > 0 && mask < limit {
      LessVal(mask, limit);
      var next := Step(mask, limit, n, mask);
      MasksShape(next, limit, n - 1);
      ShapeCons(mask, next, limit, Masks(next, limit, n - 1));
    }
  }

  lemma ShapeCons(mask: bv32, next: bv32, limit: bv32, rest: seq<bv32>)
    requires Val(mask) < Val(next) && Val(mask) < Val(limit) && Pop(next) == Pop(mask)
    requires forall x :: x in rest ==> Pop(x) == Pop(next) && Val(next) <= Val(x) < Val(limit)
    ensures forall x :: x in [mask] + rest ==> Pop(x) == Pop(mask) && Val(mask) <= Val(x) < Val(limit)
  {
    forall x | x in [mask] + rest
      ensures Pop(x) == Pop(mask) && Val(mask) <= Val(x) < Val(limit)
    {
      InCons(mask, rest, x);
    }
  }

  lemma InCons(mask: bv32, rest: seq<bv32>, x: bv32)
    ensures x in [mask] + rest <==> x == mask || x in rest
  {
  }

  lemma InTail(mask: bv32, rest: seq<bv32>, x: bv32)
    requires x in rest
    ensures x in [mask] + rest
  {
  }

  lemma InHead(mask: bv32, rest: seq<bv32>)
    ensures mask in [mask] + rest
  {
  }

  /** Java's `<` on masks read through their values, for any two masks at once. */
  lemma ValOrder()
    ensures forall a: bv32, b: bv32 :: Val(a) < Val(b) ==> a < b
  {
    forall a: bv32, b: bv32 | Val(a) < Val(b)
      ensures a < b
    {
      ValLess(a, b);
    }
  }

  /** In a list where each mask is below the next, values grow from any position to any later one. */
  lemma {:induction false} IncreasingVal(v: seq<bv32>, i: nat, j: nat)
    requires Increasing(v) && i < j < |v|
    ensures Val(v[i]) < Val(v[j])
    decreases |v|
  {
    if i > 0 {
      IncreasingVal(v[1..], i - 1, j - 1);
      assert v[i] == v[1..][i - 1] && v[j] == v[1..][j - 1];
    } else {
      LessVal(v[0], v[1]);
      if j > 1 {
        IncreasingVal(v[1..], 0, j - 1);
        assert v[1] == v[1..][0] && v[j] == v[1..][j - 1];
      }
    }
  }

  /** So each mask is below every later one. */
  lemma IncreasingAll(v: seq<bv32>)
    requires Increasing(v)
    ensures forall i, j :: 0 <= i < j < |v| ==> v[i] < v[j]
  {
    ValOrder();
    forall i, j | 0 <= i < j < |v|
      ensures v[i] < v[j]
    {
      IncreasingVal(v, i, j);
    }
  }

  /** No mask is listed twice, said one head at a time. */
  predicate Fresh(s: seq<bv32>) {
    |s| == 0 || (s[0] !in s[1..] && Fresh(s[1..]))
  }

  /** The stored masks are all different. */
  lemma {:induction false} MasksFresh(mask: bv32, limit: bv32, n: nat)
    requires 0 < mask < 0x8000_0000 && limit <= 0x4000_0000
    ensures Fresh(Masks(mask, limit, n))
    decreases n
  {
    if n > 0 && mask < limit {
      var next := Step(mask, limit, n, mask);
      MasksFresh(next, limit, n - 1);
      MasksShape(next, limit, n - 1);
      FreshCons(mask, next, Masks(next, limit, n - 1));
    }
  }

  lemma FreshCons(mask: bv32, next: bv32, rest: seq<bv32>)
    requires Val(mask) < Val(next) && Fresh(rest) && forall x :: x in rest ==> Val(next) <= Val(x)
    ensures Fresh([mask] + rest)
  {
    assert ([mask] + rest)[1..] == rest;
  }

  lemma {:induction false} FreshCard(s: seq<bv32>)
    requires Fresh(s)
    ensures |Members(s)| == |s|
  {
    if |s| > 0 {
      FreshCard(s[1..]);
      assert Members(s) == {s[0]} + Members(s[1..]);
    }
  }

  /**
   * While the array has room, the walk misses no mask: every mask from the
   * first up to the limit with as many cities is stored.
   */
  lemma {:induction false} MasksComplete(mask: bv32, limit: bv32, n: nat, x: bv32)
    requires 0 < mask < 0x8000_0000 && limit <= 0x4000_0000
    requires |Masks(mask, limit, n)| < n && Val(mask) <= Val(x) < Val(limit) && Pop(x) == Pop(mask)
    ensures x in Masks(mask, limit, n)
    decreases n
  {
    ValLess(mask, limit);
    var next := Step(mask, limit, n, x);
    if x == mask {
      InHead(mask, Masks(next, limit, n - 1));
    } else {
      if Val(x) == Val(mask) {
        ValInjective(x, mask);
      }
      MasksComplete(next, limit, n - 1, x);
      InTail(mask, Masks(next, limit, n - 1), x);
    }
  }

  lemma FirstCities(k: nat)
    requires 1 <= k <= 30
    ensures Pop(FirstSubset(k)) == k
  {
    FirstSize(k);
  }

  /** A mask whose value is below the first mask of size k has fewer than k cities. */
  lemma FirstLeastVal(k: nat, x: bv32)
    requires 1 <= k <= 30
    ensures Val(x) < Val(FirstSubset(k)) ==> Pop(x) < k
  {
    FirstLeastAt(k, x, FirstSubset(k));
  }

  lemma FirstLeastAt(k: nat, x: bv32, f: bv32)
    requires 1 <= k <= 30 && f == FirstSubset(k)
    ensures Val(x) < Val(f) ==> Pop(x) < k
  {
    if Val(x) < Val(f) {
      ValLess(x, f);
      FirstBelow(k, x, f);
    }
  }

  lemma FirstBelow(k: nat, x: bv32, f: bv32)
    requires 1 <= k <= 30 && f == FirstSubset(k) && x < f
    ensures Pop(x) < k
  {
    FirstLeast(k, x);
  }

  /** Below 1 << bits, as a bit pattern and as a value. */
  lemma LimitVal(bits: nat, x: bv32)
    requires bits <= 30
    ensures x < Limit(bits) <==> Val(x) < Val(Limit(bits))
  {
    LimitAt(x, Limit(bits));
  }

  lemma LimitAt(x: bv32, l: bv32)
    ensures x < l <==> Val(x) < Val(l)
  {
    if x < l {
      LessVal(x, l);
    }
    if Val(x) < Val(l) {
      ValLess(x, l);
    }
  }

  lemma ShiftVal(bits: nat, x: bv32)
    requires bits <= 30 && Val(x) < Val(Limit(bits))
    ensures x < OneShifted(bits)
  {
    ShiftAt(bits, x, Limit(bits));
  }

  lemma ShiftAt(bits: nat, x: bv32, l: bv32)
    requires bits <= 30 && l == Limit(bits) && Val(x) < Val(l)
    ensures x < OneShifted(bits)
  {
    ValLess(x, l);
    LimitShifted(bits, x, l);
  }

  lemma LimitShifted(bits: nat, x: bv32, l: bv32)
    requires bits <= 30 && l == Limit(bits) && x < l
    ensures x < OneShifted(bits)
  {
  }

  /**
   * The masks gosperHack's loop visits from (1 << k) - 1 below 1 << bits when
   * the array has C(bits, k) entries, one more than it could store.
   */
  function SubsetWalk(bits: nat, k: nat): seq<bv32>
    requires 1 <= k <= bits <= 30
  {
    Masks(FirstSubset(k), Limit(bits), Binomial(bits, k) + 1)
  }

  /** Every visited mask is one of the masks KSubsets lists. */
  lemma WalkInside(bits: nat, k: nat)
    requires 1 <= k <= bits <= 30
    ensures forall x :: x in SubsetWalk(bits, k) ==> Chosen(x, bits, k) && x in KSubsets(bits, k)
  {
    FirstCities(k);
    MasksShape(FirstSubset(k), Limit(bits), Binomial(bits, k) + 1);
    forall x | x in SubsetWalk(bits, k)
      ensures Chosen(x, bits, k) && x in KSubsets(bits, k)
    {
      LimitVal(bits, x);
      ShiftVal(bits, x);
      KComplete(bits, k, x);
    }
  }

  /** The walk visits at most C(bits, k) masks: they are different, and all listed. */
  lemma WalkShort(bits: nat, k: nat)
    requires 1 <= k <= bits <= 30
    ensures |SubsetWalk(bits, k)| <= Binomial(bits, k)
  {
    WalkInside(bits, k);
    MasksFresh(FirstSubset(k), Limit(bits), Binomial(bits, k) + 1);
    FreshCard(SubsetWalk(bits, k));
    Pigeon(SubsetWalk(bits, k), KSubsets(bits, k));
    KCount(bits, k);
  }

  /** So the loop stops at the limit, and every mask of k cities below it is visited. */
  lemma WalkComplete(bits: nat, k: nat, x: bv32)
    requires 1 <= k <= bits <= 30
    ensures Chosen(x, bits, k) ==> x in SubsetWalk(bits, k)
  {
    LimitVal(bits, x);
    FirstLeastVal(k, x);
    if Val(x) < Val(Limit(bits)) && Pop(x) == k {
      WalkFrom(bits, k, x);
    }
  }

  lemma WalkFrom(bits: nat, k: nat, x: bv32)
    requires 1 <= k <= bits <= 30
    requires Val(FirstSubset(k)) <= Val(x) < Val(Limit(bits)) && Pop(x) == k
    ensures x in SubsetWalk(bits, k)
  {
    WalkShort(bits, k);
    FirstCities(k);
    MasksComplete(FirstSubset(k), Limit(bits), Binomial(bits, k) + 1, x);
  }

  /** The walk visits at least C(bits, k) masks: every listed mask is visited. */
  lemma WalkLong(bits: nat, k: nat)
    requires 1 <= k <= bits <= 30
    ensures Binomial(bits, k) <= |SubsetWalk(bits, k)|
  {
    KSound(bits, k);
    KDistinct(bits, k);
    DistinctCard(KSubsets(bits, k));
    KCount(bits, k);
    forall x | x in KSubsets(bits, k)
      ensures x in SubsetWalk(bits, k)
    {
      WalkComplete(bits, k, x);
    }
    Pigeon(KSubsets(bits, k), SubsetWalk(bits, k));
  }

  /**
   * From (1 << k) - 1, the walk below 1 << bits with room for C(bits, k) + 1
   * masks visits C(bits, k) of them, exactly those with k bits set.
   */
  lemma SubsetsCounted(bits: nat, k: nat)
    requires 1 <= k <= bits <= 30
    ensures |SubsetWalk(bits, k)| == Binomial(bits, k)
    ensures forall x :: x in SubsetWalk(bits, k) <==> Chosen(x, bits, k)
  {
    WalkShort(bits, k);
    WalkLong(bits, k);
    WalkInside(bits, k);
    forall x | Chosen(x, bits, k)
      ensures x in SubsetWalk(bits, k)
    {
      WalkComplete(bits, k, x);
    }
  }

  /** With C(bits, k) entries, the array takes the whole walk. */
  lemma StoredSubsets(bits: nat, k: nat)
    requires 1 <= k <= bits <= 30
    ensures Stored(FirstSubset(k), Limit(bits), Binomial(bits, k)) == Some(SubsetWalk(bits, k))
  {
    var n := Binomial(bits, k);
    SubsetsCounted(bits, k);
    MasksPrefix(FirstSubset(k), Limit(bits), n);
    StoredWhole(FirstSubset(k), Limit(bits), n);
  }

  /** A walk that stops within the array's room is stored whole, with no zeros after it. */
  lemma StoredWhole(first: bv32, limit: bv32, n: nat)
    requires 0 < first < 0x8000_0000 && limit <= 0x4000_0000
    requires |Masks(first, limit, n + 1)| == n
    requires Masks(first, limit, n) == Masks(first, limit, n + 1)[..|Masks(first, limit, n)|]
    requires |Masks(first, limit, n)| < n ==> Masks(first, limit, n + 1) == Masks(first, limit, n)
    ensures Stored(first, limit, n) == Some(Masks(first, limit, n + 1))
  {
    var v := Masks(first, limit, n + 1);
    assert Masks(first, limit, n) == v;
    assert Padded(v, n) == v;
  }

  /** With more cities asked for than there are, the first mask is past the limit. */
  lemma StoredEmpty(bits: nat, k: nat)
    requires bits < k <= 30
    ensures Stored(FirstSubset(k), Limit(bits), 1) == Some([0])
  {
    ShiftedAbove(bits, k);
    assert Padded([], 1) == [0];
  }

  /**
   * gosperHack(cities, subsetSize) for 1 <= subsetSize: with subsetSize <=
   * cities - 1 it returns an array of C(cities - 1, subsetSize) masks that
   * strictly increase and are exactly the values below 1 << (cities - 1) with
   * subsetSize bits set; with more cities asked for than there are, it
   * returns {0}.
   */
  lemma GosperHackSubsets(cities: int, subsetSize: int)
    requires 1 <= cities <= 31 && 1 <= subsetSize <= 30
    ensures subsetSize <= cities - 1 ==>
              SubsetArray(Stored(FirstSubset(subsetSize), Limit(cities - 1), Binomial(cities - 1, subsetSize)),
                          cities - 1, subsetSize)
    ensures subsetSize > cities - 1 ==> Stored(FirstSubset(subsetSize), Limit(cities - 1), 1) == Some([0])
  {
    if subsetSize <= cities - 1 {
      StoredSubsets(cities - 1, subsetSize);
      WalkSorted(cities - 1, subsetSize, SubsetWalk(cities - 1, subsetSize));
    } else {
      StoredEmpty(cities - 1, subsetSize);
    }
  }

  /** The mask x picks k of the first bits cities: it is below 1 << bits and has k bits set. */
  predicate Chosen(x: bv32, bits: nat, k: nat)
    requires bits <= 30
  {
    x < Limit(bits) && Pop(x) == k
  }

  /**
   * r is an array of C(bits, k) masks that strictly increase and are exactly
   * the masks that choose k of the bits cities.
   */
  ghost predicate SubsetArray(r: Option<seq<bv32>>, bits: nat, k: nat)
    requires bits <= 30
  {
    r.Some? && |r.value| == Binomial(bits, k) &&
    (forall i, j :: 0 <= i < j < |r.value| ==> r.value[i] < r.value[j]) &&
    (forall x :: x in r.value <==> Chosen(x, bits, k))
  }

  /** The walk, counted, in increasing order, and with exactly the masks of k cities below 1 << bits. */
  lemma WalkSorted(bits: nat, k: nat, v: seq<bv32>)
    requires 1 <= k <= bits <= 30 && v == SubsetWalk(bits, k)
    ensures SubsetArray(Some(v), bits, k)
  {
    SubsetsCounted(bits, k);
    MasksIncreasing(FirstSubset(k), Limit(bits), Binomial(bits, k) + 1);
    IncreasingAll(v);
  }
}
