/**
 * The integer helpers of the travelling-salesman solver. Subsets of the
 * cities other than the source are bit masks held in a Java int, written
 * here as bv32: bit i stands for city i + 1. gosperHack lists the masks of
 * one size, and computeNumberOfSubsets sizes the array that holds them.
 */
module TSP {
  import opened Wrappers
  import opened TSPBits

  /** Java masks a shift distance to its low five bits. */
  function ShiftAmount(index: int): bv5 {
    (index % 32) as bv5
  }

  /** Bit b of the mask, as a test against the mask with only bit b set. */
  predicate BitAt(mask: bv32, b: bv5) {
    mask & (1 << b) != 0
  }

  /** bitIsSet: shift bit `index` down to position 0 and test it. */
  function BitIsSet(mask: bv32, index: int): (r: bool)
    ensures r == BitAt(mask, ShiftAmount(index))
  {
    var b := ShiftAmount(index);
    BitMeaning(mask, b);
    (mask >> b) & 1 == 1
  }

  lemma BitMeaning(mask: bv32, b: bv5)
    ensures ((mask >> b) & 1 == 1) == BitAt(mask, b)
  {
  }

  /** setBitAt: bit `index` is set afterwards and every other bit is as before. */
  function SetBitAt(mask: bv32, index: int): (r: bv32)
    ensures forall b: bv5 :: BitAt(r, b) <==> b == ShiftAmount(index) || BitAt(mask, b)
  {
    SetOneBit(mask, ShiftAmount(index));
    mask | (1 << ShiftAmount(index))
  }

  lemma SetOneBit(mask: bv32, a: bv5)
    ensures forall b: bv5 :: BitAt(mask | (1 << a), b) <==> b == a || BitAt(mask, b)
  {
    forall b: bv5 ensures BitAt(mask | (1 << a), b) <==> b == a || BitAt(mask, b) {
      SetOneBitAt(mask, a, b);
    }
  }

  lemma SetOneBitAt(mask: bv32, a: bv5, b: bv5)
    ensures BitAt(mask | (1 << a), b) <==> b == a || BitAt(mask, b)
  {
  }

  // ---------------------------------------------------------------------------
  // computeNumberOfSubsets
  // ---------------------------------------------------------------------------

  /** The binomial coefficient, by Pascal's rule. */
  function Binomial(n: nat, k: nat): nat {
    if k == 0 then 1
    else if n == 0 then 0
    else Binomial(n - 1, k - 1) + Binomial(n - 1, k)
  }

  lemma {:induction false} BinomialAbove(n: nat, k: nat)
    requires k > n
    ensures Binomial(n, k) == 0
  {
    if n > 0 {
      BinomialAbove(n - 1, k - 1);
      BinomialAbove(n - 1, k);
    }
  }

  /** C(n, 1) == n. */
  lemma {:induction false} BinomialOne(n: nat)
    ensures Binomial(n, 1) == n
  {
    if n > 0 {
      BinomialOne(n - 1);
    }
  }

  /** One step of the loop: C(n, i) * (n - i) == C(n, i + 1) * (i + 1), so the division is exact. */
  lemma {:induction false} BinomialStep(n: nat, i: nat)
    requires i < n
    ensures Binomial(n, i + 1) * (i + 1) == Binomial(n, i) * (n - i)
  {
    if i == 0 {
      BinomialOne(n);
    } else {
      var m := n - 1;
      if i < m {
        BinomialStep(m, i);
      } else {
        BinomialAbove(m, i + 1);
      }
      BinomialStep(m, i - 1);
      PascalStep(Binomial(m, i - 1), Binomial(m, i), Binomial(m, i + 1), i, n);
    }
  }

  /**
   * The arithmetic of the inductive step, with a, b, c standing for
   * C(n - 1, i - 1), C(n - 1, i) and C(n - 1, i + 1).
   */
  lemma PascalStep(a: int, b: int, c: int, i: int, n: int)
    requires c * (i + 1) == b * (n - 1 - i)
    requires b * i == a * (n - i)
    ensures (b + c) * (i + 1) == (a + b) * (n - i)
  {
    calc {
      (b + c) * (i + 1);
      b * (i + 1) + c * (i + 1);
      b * (i + 1) + b * (n - 1 - i);
      b * i + b * (n - i);
      a * (n - i) + b * (n - i);
      (a + b) * (n - i);
    }
  }

  /** C(n, k) == C(n, n - k): the loop may stop at the smaller of k and n - k. */
  lemma {:induction false} BinomialSymmetric(n: nat, k: nat)
    requires k <= n
    ensures Binomial(n, k) == Binomial(n, n - k)
  {
    if k == 0 || k == n {
      BinomialAll(n);
    } else {
      BinomialSymmetric(n - 1, k - 1);
      BinomialSymmetric(n - 1, k);
      assert Binomial(n, n - k) == Binomial(n - 1, n - k - 1) + Binomial(n - 1, n - k);
    }
  }

  /** C(n, n) == 1. */
  lemma {:induction false} BinomialAll(n: nat)
    ensures Binomial(n, n) == 1
  {
    if n > 0 {
      BinomialAll(n - 1);
      BinomialAbove(n - 1, n);
    }
  }

  /** computeNumberOfSubsets: C(N, k) by the multiplicative formula, or 1 when k is out of 0..N. */
  method ComputeNumberOfSubsets(n: int, subsetSize: int) returns (subsets: int)
    ensures 0 <= subsetSize <= n ==> subsets == Binomial(n, subsetSize)
    ensures subsetSize < 0 || subsetSize > n ==> subsets == 1
  {
    var stop := if subsetSize <= n - subsetSize then subsetSize else n - subsetSize;
    subsets := 1;
    var i := 0;
    while i < stop
      invariant 0 <= i && (stop >= 0 ==> i <= stop) && (stop < 0 ==> i == 0)
      invariant stop >= 0 ==> subsets == Binomial(n, i)
      invariant stop < 0 ==> subsets == 1
    {
      BinomialStep(n, i);
      ExactDivision(Binomial(n, i + 1), i + 1);
      subsets := (subsets * (n - i)) / (i + 1);
      i := i + 1;
    }
    if 0 <= subsetSize <= n {
      BinomialSymmetric(n, subsetSize);
    }
  }

  lemma ExactDivision(x: int, d: int)
    requires d > 0
    ensures (x * d) / d == x
  {
    var q, r := (x * d) / d, (x * d) % d;
    assert (q - x) * d == -r by {
      assert q * d + r == x * d;
    }
    MultipleOfDivisor(q - x, d);
  }

  lemma MultipleOfDivisor(k: int, d: int)
    requires d > 0
    ensures k >= 1 ==> k * d >= d
    ensures k <= -1 ==> k * d <= -d
  {
  }

  // ---------------------------------------------------------------------------
  // gosperHack
  // ---------------------------------------------------------------------------

  /** `int c = set & - set`: the lowest set bit of the mask. */
  function Lowest(mask: bv32): bv32 {
    mask & -mask
  }

  /** `int r = set + c`: the lowest run of ones carried one place past its top. */
  function Carried(mask: bv32): bv32 {
    mask + Lowest(mask)
  }

  /** `r ^ set`: the bits the carry changed. */
  function Changed(mask: bv32): bv32 {
    Carried(mask) ^ mask
  }

  /**
   * Gosper's step `(((r ^ set) >> 2) / c) | r`: the changed bits, shifted
   * right by two and divided by c, refill the bottom. The division by the
   * single bit c is written as the shift Down; RefillIsQuotient states that it
   * is Java's `/`.
   */
  function Next(mask: bv32): (next: bv32)
    requires 0 < mask < 0x4000_0000
    ensures 0 < next < 0x8000_0000
  {
    Carry(mask);
    Spread(mask);
    Join(Down(Changed(mask) >> 2, Lowest(mask)), Carried(mask));
    Down(Changed(mask) >> 2, Lowest(mask)) | Carried(mask)
  }

  /**
   * The refill in Next is Java's `((r ^ set) >> 2) / c`: c is a single bit,
   * and dividing by it is Down.
   */
  lemma RefillIsQuotient(mask: bv32)
    ensures 0 < mask < 0x4000_0000 ==>
      Lowest(mask) != 0 && Quot(Changed(mask) >> 2, Lowest(mask)) == Down(Changed(mask) >> 2, Lowest(mask))
  {
    if 0 < mask < 0x4000_0000 {
      LowestSingle(mask);
      QuotDown(Changed(mask) >> 2, Lowest(mask));
    }
  }

  lemma LowestSingle(mask: bv32)
    requires 0 < mask < 0x4000_0000
    ensures OneBit(Lowest(mask)) && Lowest(mask) < 0x4000_0000
  {
  }

  lemma Carry(mask: bv32)
    requires 0 < mask < 0x4000_0000
    ensures Lowest(mask) != 0 && 0 < Carried(mask) < 0x8000_0000
  {
  }

  /** The refill stays below 1 << 30. */
  lemma Spread(mask: bv32)
    requires 0 < mask < 0x4000_0000
    ensures Down(Changed(mask) >> 2, Lowest(mask)) < 0x4000_0000
  {
    ShiftedBelow(Changed(mask), Changed(mask) >> 2);
    DownBelow(Changed(mask) >> 2, Lowest(mask), 0x4000_0000);
    BelowLimit(Down(Changed(mask) >> 2, Lowest(mask)));
  }

  lemma ShiftedBelow(x: bv32, y: bv32)
    requires y == x >> 2
    ensures y & -0x4000_0000 == 0
  {
  }

  lemma BelowLimit(z: bv32)
    requires z & -0x4000_0000 == 0
    ensures z < 0x4000_0000
  {
  }

  lemma Join(x: bv32, r: bv32)
    requires x < 0x4000_0000 && 0 < r < 0x8000_0000
    ensures 0 < x | r < 0x8000_0000
  {
  }

  /**
   * The first n masks the loop stores, starting from `mask`, while they stay
   * below `limit`. Both are non-negative Java ints, so Java's signed `<` is
   * the unsigned comparison of bv32.
   */
  function Masks(mask: bv32, limit: bv32, n: nat): (v: seq<bv32>)
    requires 0 < mask < 0x8000_0000 && limit <= 0x4000_0000
    ensures |v| <= n
    decreases n, 1
  {
    if n == 0 || mask >= limit then [] else MasksFrom(mask, limit, n)
  }

  /** Masks once the loop test has let `mask` through: store it and take Gosper's step. */
  function MasksFrom(mask: bv32, limit: bv32, n: nat): (v: seq<bv32>)
    requires 0 < mask < limit <= 0x4000_0000 && n > 0
    ensures |v| <= n
    decreases n, 0
  {
    [mask] + Masks(Next(mask), limit, n - 1)
  }

  /** Allowing more masks only extends the list. */
  lemma {:induction false} MasksPrefix(mask: bv32, limit: bv32, n: nat)
    requires 0 < mask < 0x8000_0000 && limit <= 0x4000_0000
    ensures |Masks(mask, limit, n)| <= |Masks(mask, limit, n + 1)|
    ensures Masks(mask, limit, n) == Masks(mask, limit, n + 1)[..|Masks(mask, limit, n)|]
    ensures |Masks(mask, limit, n)| < n ==> Masks(mask, limit, n + 1) == Masks(mask, limit, n)
    decreases n
  {
    if n > 0 && mask < limit {
      MasksPrefix(Next(mask), limit, n - 1);
      assert Masks(mask, limit, n) == MasksFrom(mask, limit, n) == [mask] + Masks(Next(mask), limit, n - 1);
      assert Masks(mask, limit, n + 1) == MasksFrom(mask, limit, n + 1) == [mask] + Masks(Next(mask), limit, n);
    }
  }

  /** Java's 1 << n for 0 <= n <= 30, so that the shift distance needs no conversion from int. */
  function OneShifted(n: nat): bv32
    requires n <= 30
  {
    PowerOfTwo(n)
  }

  /** n doublings of 1. */
  function PowerOfTwo(n: nat): bv32
    requires n <= 30
  {
    if n == 0 then 1 else PowerOfTwo(n - 1) + PowerOfTwo(n - 1)
  }

  /** The values of 1 << n for n = 0 .. 30: the powers of two, none wrapping. */
  lemma OneShiftedValues()
    ensures
      OneShifted(0) == 0x1 &&
      OneShifted(1) == 0x2 &&
      OneShifted(2) == 0x4 &&
      OneShifted(3) == 0x8 &&
      OneShifted(4) == 0x10 &&
      OneShifted(5) == 0x20 &&
      OneShifted(6) == 0x40 &&
      OneShifted(7) == 0x80 &&
      OneShifted(8) == 0x100 &&
      OneShifted(9) == 0x200 &&
      OneShifted(10) == 0x400 &&
      OneShifted(11) == 0x800 &&
      OneShifted(12) == 0x1000 &&
      OneShifted(13) == 0x2000 &&
      OneShifted(14) == 0x4000 &&
      OneShifted(15) == 0x8000 &&
      OneShifted(16) == 0x10000 &&
      OneShifted(17) == 0x20000 &&
      OneShifted(18) == 0x40000 &&
      OneShifted(19) == 0x80000 &&
      OneShifted(20) == 0x100000 &&
      OneShifted(21) == 0x200000 &&
      OneShifted(22) == 0x400000 &&
      OneShifted(23) == 0x800000 &&
      OneShifted(24) == 0x1000000 &&
      OneShifted(25) == 0x2000000 &&
      OneShifted(26) == 0x4000000 &&
      OneShifted(27) == 0x8000000 &&
      OneShifted(28) == 0x10000000 &&
      OneShifted(29) == 0x20000000 &&
      OneShifted(30) == 0x40000000
  {
    assert OneShifted(1) == 0x2;
    assert OneShifted(2) == 0x4;
    assert OneShifted(3) == 0x8;
    assert OneShifted(4) == 0x10;
    assert OneShifted(5) == 0x20;
    assert OneShifted(6) == 0x40;
    assert OneShifted(7) == 0x80;
    assert OneShifted(8) == 0x100;
    assert OneShifted(9) == 0x200;
    assert OneShifted(10) == 0x400;
    assert OneShifted(11) == 0x800;
    assert OneShifted(12) == 0x1000;
    assert OneShifted(13) == 0x2000;
    assert OneShifted(14) == 0x4000;
    assert OneShifted(15) == 0x8000;
    assert OneShifted(16) == 0x10000;
    assert OneShifted(17) == 0x20000;
    assert OneShifted(18) == 0x40000;
    assert OneShifted(19) == 0x80000;
    assert OneShifted(20) == 0x100000;
    assert OneShifted(21) == 0x200000;
    assert OneShifted(22) == 0x400000;
    assert OneShifted(23) == 0x800000;
    assert OneShifted(24) == 0x1000000;
    assert OneShifted(25) == 0x2000000;
    assert OneShifted(26) == 0x4000000;
    assert OneShifted(27) == 0x8000000;
    assert OneShifted(28) == 0x10000000;
    assert OneShifted(29) == 0x20000000;
    assert OneShifted(30) == 0x40000000;
  }

  /** 1 << n lies in 1 .. 1 << 30, and below 1 << 29 when n <= 29. */
  lemma OneShiftedRange(n: nat)
    requires n <= 30
    ensures 0 < OneShifted(n) <= 0x4000_0000 && (n <= 29 ==> OneShifted(n) <= 0x2000_0000)
  {
    OneShiftedValues();
    match n
    case 0 =>
    case 1 =>
    case 2 =>
    case 3 =>
    case 4 =>
    case 5 =>
    case 6 =>
    case 7 =>
    case 8 =>
    case 9 =>
    case 10 =>
    case 11 =>
    case 12 =>
    case 13 =>
    case 14 =>
    case 15 =>
    case 16 =>
    case 17 =>
    case 18 =>
    case 19 =>
    case 20 =>
    case 21 =>
    case 22 =>
    case 23 =>
    case 24 =>
    case 25 =>
    case 26 =>
    case 27 =>
    case 28 =>
    case 29 =>
    case 30 =>
  }

  /** Doubling a single bit below the sign bit moves it up by one. */
  lemma DoubleBit(x: bv32)
    requires OneBit(x) && x <= 0x2000_0000
    ensures OneBit(x + x)
  {
  }

  /** 1 << n sets exactly one bit, lies in 1 .. 1 << 30, and below 1 << 29 when n <= 29. */
  lemma {:induction false} OneShiftedBounds(n: nat)
    requires n <= 30
    ensures OneBit(OneShifted(n)) && 0 < OneShifted(n) <= 0x4000_0000
    ensures n <= 29 ==> OneShifted(n) <= 0x2000_0000
  {
    OneShiftedRange(n);
    if n > 0 {
      OneShiftedBounds(n - 1);
      DoubleBit(OneShifted(n - 1));
    }
  }

  /** The first mask of size k: (1 << k) - 1. */
  function FirstSubset(k: int): (m: bv32)
    requires 1 <= k <= 30
    ensures 0 < m < 0x4000_0000
  {
    OneShiftedBounds(k);
    OneShifted(k) - 1
  }

  /** 1 << bits, the first mask with a bit outside the cities. */
  function Limit(bits: int): (r: bv32)
    requires 0 <= bits <= 30
    ensures r <= 0x4000_0000
  {
    OneShiftedBounds(bits);
    OneShifted(bits)
  }

  /** The array gosperHack returns: the stored masks, then zeros up to the array's size. */
  function Padded(values: seq<bv32>, size: nat): (r: seq<bv32>)
    requires |values| <= size
    ensures |r| == size && r[..|values|] == values
    ensures forall i :: |values| <= i < size ==> r[i] == 0
  {
    values + seq(size - |values|, _ => 0)
  }

  lemma MasksStep(mask: bv32, limit: bv32, n: nat)
    requires 0 < mask < limit <= 0x4000_0000 && n > 0
    ensures Masks(mask, limit, n) == [mask] + Masks(Next(mask), limit, n - 1)
  {
    assert Masks(mask, limit, n) == MasksFrom(mask, limit, n);
  }

  lemma PaddedArray(a: seq<bv32>, values: seq<bv32>)
    requires |values| <= |a| && a[..|values|] == values
    requires forall i :: |values| <= i < |a| ==> a[i] == 0
    ensures a == Padded(values, |a|)
  {
  }

  /**
   * What gosperHack returns for masks starting at `first` below `limit` in an
   * array of `count` entries: the masks padded with zeros, or None when the
   * loop would produce more masks than the array holds.
   */
  function Stored(first: bv32, limit: bv32, count: nat): (r: Option<seq<bv32>>)
    requires 0 < first < 0x8000_0000 && limit <= 0x4000_0000
    ensures r.Some? ==> |r.value| == count && r.value[..|Masks(first, limit, count)|] == Masks(first, limit, count)
  {
    if |Masks(first, limit, count + 1)| <= count then Some(Padded(Masks(first, limit, count), count)) else None
  }

  /**
   * gosperHack: the masks of subsetSize bits among cities - 1, in the order
   * Gosper's step produces them, in an array of
   * computeNumberOfSubsets(cities - 1, subsetSize) entries. None stands for
   * the ArrayIndexOutOfBoundsException the loop would raise if it produced
   * more masks than that.
   */
  method GosperHack(cities: int, subsetSize: int) returns (r: Option<seq<bv32>>)
    requires subsetSize <= 0 || (1 <= cities <= 31 && subsetSize <= 30)
    ensures subsetSize <= 0 ==> r == Some([0])
    ensures subsetSize > 0 ==>
              r == Stored(FirstSubset(subsetSize), Limit(cities - 1),
                          if subsetSize <= cities - 1 then Binomial(cities - 1, subsetSize) else 1)
  {
    if subsetSize <= 0 {
      return Some([0]);
    }
    var bits := cities - 1;
    var subsetCount := ComputeNumberOfSubsets(bits, subsetSize);
    var subset := new bv32[subsetCount](_ => 0);
    var overflow := StoreMasks(subset, FirstSubset(subsetSize), Limit(bits));
    if overflow {
      return None;
    }
    return Some(subset[..]);
  }

  /** The loop of gosperHack: store the masks from `mask` on while they stay below `limit`. */
  method StoreMasks(subset: array<bv32>, mask: bv32, limit: bv32) returns (overflow: bool)
    requires 0 < mask < 0x8000_0000 && limit <= 0x4000_0000
    requires forall i :: 0 <= i < subset.Length ==> subset[i] == 0
    modifies subset
    ensures (if overflow then None else Some(subset[..])) == Stored(mask, limit, subset.Length)
  {
    ghost var first := mask;
    var mask := mask;
    var index := 0;
    assert subset[..0] == [];
    while mask < limit
      invariant Filling(first, limit, mask, subset[..], index)
      decreases subset.Length - index
    {
      if index >= subset.Length {
        FinishNone(first, mask, limit, subset[..]);
        return true;
      }
      ghost var before := subset[..];
      subset[index] := mask;
      StoreStep(first, mask, limit, before, subset[..], index);
      index := index + 1;
      mask := Next(mask);
    }
    FinishSome(first, mask, limit, subset[..], index);
    return false;
  }

  /**
   * The loop's invariant: the masks stored so far, followed by the walk from
   * the current mask, are the walk from the first mask, and the entries not
   * yet written are still zero.
   */
  ghost predicate Filling(first: bv32, limit: bv32, mask: bv32, a: seq<bv32>, index: nat)
    requires 0 < first < 0x8000_0000 && limit <= 0x4000_0000
  {
    0 < mask < 0x8000_0000 && index <= |a|
    && Masks(first, limit, |a| + 1) == a[..index] + Masks(mask, limit, |a| + 1 - index)
    && forall i :: index <= i < |a| ==> a[i] == 0
  }

  /** One pass of the loop: storing the mask below the limit keeps the loop's invariant. */
  lemma StoreStep(first: bv32, mask: bv32, limit: bv32, before: seq<bv32>, after: seq<bv32>, index: nat)
    requires 0 < first < 0x8000_0000 && 0 < mask < limit <= 0x4000_0000
    requires index < |before| && after == before[index := mask]
    requires Filling(first, limit, mask, before, index)
    ensures Filling(first, limit, Next(mask), after, index + 1)
  {
    var n := |before| + 1 - index;
    MasksStep(mask, limit, n);
    StoreShift(before, after, index, mask, Masks(mask, limit, n), Masks(Next(mask), limit, n - 1));
  }

  /** Writing the head of the walk into the array moves it from the walk to the stored prefix. */
  lemma StoreShift(before: seq<bv32>, after: seq<bv32>, index: nat, mask: bv32, walk: seq<bv32>, rest: seq<bv32>)
    requires index < |before| && after == before[index := mask] && walk == [mask] + rest
    requires forall i :: index <= i < |before| ==> before[i] == 0
    ensures before[..index] + walk == after[..index + 1] + rest
    ensures forall i :: index + 1 <= i < |after| ==> after[i] == 0
  {
    assert after[..index + 1] == before[..index] + [mask];
  }

  /** The loop ends with the array, the list of masks and the zero tail in agreement. */
  lemma FinishSome(first: bv32, mask: bv32, limit: bv32, a: seq<bv32>, index: nat)
    requires 0 < first < 0x8000_0000 && limit <= 0x4000_0000 && mask >= limit
    requires Filling(first, limit, mask, a, index)
    ensures Stored(first, limit, |a|) == Some(a)
  {
    var n := |a|;
    assert Masks(first, limit, n + 1) == a[..index];
    MasksPrefix(first, limit, n);
    PaddedArray(a, Masks(first, limit, n));
  }

  /** A mask still below the limit when the array is full means one mask too many. */
  lemma FinishNone(first: bv32, mask: bv32, limit: bv32, a: seq<bv32>)
    requires 0 < first < 0x8000_0000 && mask < limit <= 0x4000_0000
    requires Filling(first, limit, mask, a, |a|)
    ensures Stored(first, limit, |a|) == None
  {
    assert a[..|a|] == a;
    MasksStep(mask, limit, 1);
  }
}

/** What the masks gosperHack stores satisfy, kept apart from the bit arithmetic that produces them. */
module TSPOrder {
  import opened TSP

  /** Gosper's step moves to a larger mask. */
  lemma NextGreater(mask: bv32)
    requires 0 < mask < 0x4000_0000
    ensures Next(mask) > mask
  {
  }

  /**
   * One step of the list, with the next mask named but its computation out of
   * sight: what the lemmas below need of Gosper's step is only that it grows.
   */
  lemma Advance(mask: bv32, limit: bv32, n: nat) returns (next: bv32)
    requires 0 < mask < limit <= 0x4000_0000 && n > 0
    ensures mask < next < 0x8000_0000
    ensures Masks(mask, limit, n) == [mask] + Masks(next, limit, n - 1)
  {
    next := Next(mask);
    MasksStep(mask, limit, n);
    NextGreater(mask);
  }

  /** Each mask is smaller than the one after it. */
  predicate Increasing(v: seq<bv32>) {
    |v| <= 1 || (v[0] < v[1] && Increasing(v[1..]))
  }

  /** Every mask is below the limit. */
  predicate Below(v: seq<bv32>, limit: bv32) {
    |v| == 0 || (v[0] < limit && Below(v[1..], limit))
  }

  lemma IncreasingCons(x: bv32, y: bv32, v: seq<bv32>)
    requires Increasing(v) && (|v| > 0 ==> v[0] == y) && x < y
    ensures Increasing([x] + v)
  {
    assert ([x] + v)[1..] == v;
  }

  lemma BelowCons(x: bv32, v: seq<bv32>, limit: bv32)
    requires Below(v, limit) && x < limit
    ensures Below([x] + v, limit)
  {
    assert ([x] + v)[1..] == v;
  }

  /** The masks start at the first one. */
  lemma MasksHead(mask: bv32, limit: bv32, n: nat)
    requires 0 < mask < 0x8000_0000 && limit <= 0x4000_0000
    ensures |Masks(mask, limit, n)| > 0 ==> Masks(mask, limit, n)[0] == mask
  {
    if n > 0 && mask < limit {
      MasksStep(mask, limit, n);
    }
  }

  /** The masks increase. */
  lemma {:induction false} MasksIncreasing(mask: bv32, limit: bv32, n: nat)
    requires 0 < mask < 0x8000_0000 && limit <= 0x4000_0000
    ensures Increasing(Masks(mask, limit, n))
    decreases n
  {
    if n > 0 && mask < limit {
      var next := Advance(mask, limit, n);
      MasksIncreasing(next, limit, n - 1);
      MasksHead(next, limit, n - 1);
      IncreasingCons(mask, next, Masks(next, limit, n - 1));
    }
  }

  /** The masks stay below the limit. */
  lemma {:induction false} MasksBelow(mask: bv32, limit: bv32, n: nat)
    requires 0 < mask < 0x8000_0000 && limit <= 0x4000_0000
    ensures Below(Masks(mask, limit, n), limit)
    decreases n
  {
    if n > 0 && mask < limit {
      var next := Advance(mask, limit, n);
      MasksBelow(next, limit, n - 1);
      BelowCons(mask, Masks(next, limit, n - 1), limit);
    }
  }

  /** When gosperHack returns an array, its stored masks start at the first, increase and stay below the limit. */
  lemma StoredOrdered(first: bv32, limit: bv32, count: nat)
    requires 0 < first < 0x8000_0000 && limit <= 0x4000_0000
    ensures var m := Masks(first, limit, count);
            Increasing(m) && Below(m, limit) && (|m| > 0 ==> m[0] == first)
  {
    MasksIncreasing(first, limit, count);
    MasksBelow(first, limit, count);
    MasksHead(first, limit, count);
  }
}
