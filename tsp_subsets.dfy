/**
 * What gosperHack promises: the masks it stores are, in increasing order,
 * exactly the subsets of the cities other than the source with the given
 * number of cities, and the array computeNumberOfSubsets sizes holds them
 * all. The bit facts about one Gosper step come first, then the walk of
 * steps, then the count.
 */
module TSPSubsets {
  import opened Wrappers
  import opened TSP
  import opened TSPBits

  // ---------------------------------------------------------------------------
  // One Gosper step, bit by bit. Lowest, Carried and Changed are c, r and
  // r ^ set of Next; NewBit is the single bit the carry stops at, Run the
  // lowest run of ones of the mask and Kept the bits above it.
  // ---------------------------------------------------------------------------

  function NewBit(m: bv32): bv32 {
    Carried(m) & Changed(m)
  }

  function Run(m: bv32): bv32 {
    m & Changed(m)
  }

  function Kept(m: bv32): bv32 {
    m & Carried(m)
  }

  /** The lowest set bit is a single bit. */
  lemma LowestBit(m: bv32)
    requires 0 < m < 0x4000_0000
    ensures OneBit(Lowest(m))
  {
  }

  /** Nothing of m lies below its lowest bit. */
  lemma BelowLowest(m: bv32)
    requires 0 < m < 0x4000_0000
    ensures m & (Lowest(m) - 1) == 0
  {
  }

  lemma LowestBound(m: bv32)
    requires 0 < m < 0x4000_0000
    ensures Lowest(m) <= 0x2000_0000
  {
  }

  /** The carry stops at a single bit. */
  lemma NewBitSingle(m: bv32)
    requires 0 < m < 0x4000_0000
    ensures OneBit(NewBit(m))
  {
  }

  /** The sum has nothing below the bit the carry stops at. */
  lemma CarriedAbove(m: bv32)
    requires 0 < m < 0x4000_0000
    ensures Carried(m) & (NewBit(m) - 1) == 0
  {
  }

  lemma KeptRun(m: bv32)
    requires 0 < m < 0x4000_0000
    ensures Kept(m) & Run(m) == 0
  {
  }

  /** m is its lowest run of ones and the bits above it. */
  lemma KeptRunJoin(m: bv32)
    requires 0 < m < 0x4000_0000
    ensures m == Kept(m) | Run(m)
  {
  }

  /** The sum is the bits above the run and the new bit. */
  lemma KeptNew(m: bv32)
    requires 0 < m < 0x4000_0000
    ensures Carried(m) == Kept(m) | NewBit(m)
  {
  }

  lemma KeptNewApart(m: bv32)
    requires 0 < m < 0x4000_0000
    ensures Kept(m) & NewBit(m) == 0
  {
  }

  lemma RunAbove(m: bv32)
    requires 0 < m < 0x4000_0000
    ensures Run(m) & (Lowest(m) - 1) == 0
  {
  }

  /** The run fills the bits from the lowest bit up to the new bit. */
  lemma RunBelowNew(m: bv32)
    requires 0 < m < 0x4000_0000
    ensures NewBit(m) - 1 == Run(m) | (Lowest(m) - 1)
  {
  }

  /** The carry changed the run and the new bit. */
  lemma ChangedJoin(m: bv32)
    requires 0 < m < 0x4000_0000
    ensures Changed(m) == Run(m) | NewBit(m)
  {
  }

  lemma ChangedApart(m: bv32)
    requires 0 < m < 0x4000_0000
    ensures Run(m) & NewBit(m) == 0
  {
  }

  lemma ChangedOnes(m: bv32)
    requires 0 < m < 0x4000_0000
    ensures LowOnes(Changed(m) | (4 * Lowest(m) - 1))
  {
  }

  /** The two lowest changed bits are the lowest bit and the one above it. */
  lemma ChangedLow(m: bv32)
    requires 0 < m < 0x4000_0000
    ensures Changed(m) & (4 * Lowest(m) - 1) == Lowest(m) | (Lowest(m) + Lowest(m))
  {
  }

  lemma LowTwoApart(m: bv32)
    requires 0 < m < 0x4000_0000
    ensures Lowest(m) & (Lowest(m) + Lowest(m)) == 0
  {
  }

  lemma ChangedBelow(m: bv32)
    requires 0 < m < 0x4000_0000
    ensures Changed(m) & -(NewBit(m) + NewBit(m)) == 0
  {
  }

  /** Next is the refill joined to the sum. */
  lemma NextSplit(m: bv32)
    requires 0 < m < 0x4000_0000
    ensures Next(m) == Down(Changed(m) >> 2, Lowest(m)) | Carried(m)
  {
  }

  lemma KeptRunVal(m: bv32)
    requires 0 < m < 0x4000_0000
    ensures Val(m) == Val(Kept(m)) + Val(Run(m)) && Pop(m) == Pop(Kept(m)) + Pop(Run(m))
  {
    KeptRun(m);
    KeptRunJoin(m);
    JoinVal(Kept(m), Run(m), m);
  }

  lemma KeptNewVal(m: bv32)
    requires 0 < m < 0x4000_0000
    ensures Val(Carried(m)) == Val(Kept(m)) + Val(NewBit(m))
    ensures Pop(Carried(m)) == Pop(Kept(m)) + Pop(NewBit(m))
  {
    KeptNew(m);
    KeptNewApart(m);
    JoinVal(Kept(m), NewBit(m), Carried(m));
  }

  lemma BelowNewVal(m: bv32)
    requires 0 < m < 0x4000_0000
    ensures Val(NewBit(m) - 1) == Val(Run(m)) + Val(Lowest(m) - 1)
  {
    RunBelowNew(m);
    RunAbove(m);
    JoinVal(Run(m), Lowest(m) - 1, NewBit(m) - 1);
  }

  lemma ChangedPop(m: bv32)
    requires 0 < m < 0x4000_0000
    ensures Pop(Changed(m)) == Pop(Run(m)) + Pop(NewBit(m))
  {
    ChangedJoin(m);
    ChangedApart(m);
    JoinVal(Run(m), NewBit(m), Changed(m));
  }

  /** The shift by two drops exactly two changed bits. */
  lemma LowTwoPop(m: bv32)
    requires 0 < m < 0x4000_0000
    ensures Pop(Changed(m) & (4 * Lowest(m) - 1)) == 2
  {
    LowestBit(m);
    LowestBound(m);
    Quadruple(Lowest(m));
    ChangedLow(m);
    LowTwoApart(m);
    JoinVal(Lowest(m), Lowest(m) + Lowest(m), Changed(m) & (4 * Lowest(m) - 1));
    BitValue(Lowest(m));
    BitValue(Lowest(m) + Lowest(m));
  }

  lemma RefillDown(m: bv32)
    requires 0 < m < 0x4000_0000
    ensures OneBit(4 * Lowest(m)) && Down(Changed(m), 4 * Lowest(m)) == Down(Changed(m) >> 2, Lowest(m))
  {
    LowestBit(m);
    LowestBound(m);
    Down4(Changed(m), Lowest(m));
  }

  lemma RefillPop(m: bv32)
    requires 0 < m < 0x4000_0000
    ensures Pop(Down(Changed(m) >> 2, Lowest(m))) + Pop(Changed(m) & (4 * Lowest(m) - 1)) == Pop(Changed(m))
  {
    RefillDown(m);
    PopDown(Changed(m), 4 * Lowest(m));
  }

  lemma NewBitVal(m: bv32)
    requires 0 < m < 0x4000_0000
    ensures Val(NewBit(m) - 1) + 1 == Val(NewBit(m)) && Pop(NewBit(m)) == 1
  {
    NewBitSingle(m);
    BitValue(NewBit(m));
  }

  lemma LowestVal(m: bv32)
    requires 0 < m < 0x4000_0000
    ensures Val(Lowest(m) - 1) + 1 == Val(Lowest(m))
  {
    LowestBit(m);
    BitValue(Lowest(m));
  }

  /** The carry adds the lowest bit: the sum's value is the mask's plus c. */
  lemma GosperVal(m: bv32)
    requires 0 < m < 0x4000_0000
    ensures Val(Carried(m)) == Val(m) + Val(Lowest(m))
  {
    KeptRunVal(m);
    KeptNewVal(m);
    BelowNewVal(m);
    NewBitVal(m);
    LowestVal(m);
  }

  /** The refill is a run of ones at the bottom. */
  lemma RefillOnes(m: bv32)
    requires 0 < m < 0x4000_0000
    ensures LowOnes(Down(Changed(m) >> 2, Lowest(m)))
  {
    ChangedOnes(m);
    RefillDown(m);
    RunDown(Changed(m), 4 * Lowest(m));
  }

  lemma ChangedUnder(m: bv32)
    requires 0 < m < 0x4000_0000
    ensures (Changed(m) >> 2) & -NewBit(m) == 0
  {
    NewBitSingle(m);
    ChangedBelow(m);
    ShiftUnder(Changed(m), NewBit(m));
  }

  lemma RefillBelow(m: bv32)
    requires 0 < m < 0x4000_0000
    ensures Down(Changed(m) >> 2, Lowest(m)) & -NewBit(m) == 0
  {
    NewBitSingle(m);
    ChangedUnder(m);
    DownBelow(Changed(m) >> 2, Lowest(m), NewBit(m));
  }

  /** The refill lies below the new bit, apart from the sum. */
  lemma RefillApart(m: bv32)
    requires 0 < m < 0x4000_0000
    ensures Down(Changed(m) >> 2, Lowest(m)) & Carried(m) == 0 && Down(Changed(m) >> 2, Lowest(m)) < NewBit(m)
  {
    RefillBelow(m);
    NewBitAbove(m);
    BelowBit(Down(Changed(m) >> 2, Lowest(m)), Carried(m), NewBit(m));
  }

  lemma RefillVal(m: bv32)
    requires 0 < m < 0x4000_0000
    ensures Val(Down(Changed(m) >> 2, Lowest(m))) < Val(NewBit(m))
  {
    RefillApart(m);
    LessVal(Down(Changed(m) >> 2, Lowest(m)), NewBit(m));
  }

  /** The run loses its top bit to the carry and one more to the shift by two. */
  lemma GosperPop(m: bv32)
    requires 0 < m < 0x4000_0000
    ensures Pop(m) == Pop(Carried(m)) + Pop(Down(Changed(m) >> 2, Lowest(m)))
  {
    KeptRunVal(m);
    KeptNewVal(m);
    ChangedPop(m);
    LowTwoPop(m);
    RefillPop(m);
    NewBitVal(m);
  }

  lemma NextJoin(m: bv32)
    requires 0 < m < 0x4000_0000
    ensures Val(Next(m)) == Val(Down(Changed(m) >> 2, Lowest(m)) | Carried(m)) && Pop(Next(m)) == Pop(Down(Changed(m) >> 2, Lowest(m)) | Carried(m))
  {
    NextSplit(m);
  }

  lemma RefillJoin(m: bv32)
    requires 0 < m < 0x4000_0000
    ensures Val(Down(Changed(m) >> 2, Lowest(m)) | Carried(m)) == Val(Down(Changed(m) >> 2, Lowest(m))) + Val(Carried(m))
    ensures Pop(Down(Changed(m) >> 2, Lowest(m)) | Carried(m)) == Pop(Down(Changed(m) >> 2, Lowest(m))) + Pop(Carried(m))
  {
    RefillApart(m);
    Disjoint(Down(Changed(m) >> 2, Lowest(m)), Carried(m));
  }

  /** Gosper's step as a union of the refill and the sum. */
  lemma NextVal(m: bv32)
    requires 0 < m < 0x4000_0000
    ensures Val(Next(m)) == Val(Down(Changed(m) >> 2, Lowest(m))) + Val(Carried(m))
    ensures Pop(Next(m)) == Pop(Down(Changed(m) >> 2, Lowest(m))) + Pop(Carried(m))
  {
    NextJoin(m);
    RefillJoin(m);
  }

  lemma NewBitAbove(m: bv32)
    requires 0 < m < 0x4000_0000
    ensures OneBit(NewBit(m)) && Carried(m) & (NewBit(m) - 1) == 0
  {
    NewBitSingle(m);
    CarriedAbove(m);
  }

  lemma LowestBelow(m: bv32)
    requires 0 < m < 0x4000_0000
    ensures OneBit(Lowest(m)) && m & (Lowest(m) - 1) == 0
  {
    LowestBit(m);
    BelowLowest(m);
  }

  lemma ShiftUnder(d: bv32, l: bv32)
    requires OneBit(l) && d & -(l + l) == 0
    ensures (d >> 2) & -l == 0
  {
  }

  lemma BelowBit(s: bv32, r: bv32, l: bv32)
    requires OneBit(l) && s & -l == 0 && r & (l - 1) == 0
    ensures s & r == 0 && s < l
  {
  }

  /** Gosper's step keeps the number of cities. */
  lemma NextSize(m: bv32)
    requires 0 < m < 0x4000_0000
    ensures Pop(Next(m)) == Pop(m)
  {
    NextVal(m);
    GosperPop(m);
  }

  /** A value less than the lowest bit above m: m and some bits below its lowest bit. */
  lemma AboveMask(m: bv32, x: bv32) returns (z: bv32)
    requires 0 < m < 0x4000_0000 && Val(m) <= Val(x) < Val(m) + Val(Lowest(m))
    ensures Val(x) == Val(m) + Val(z) && Pop(x) == Pop(m) + Pop(z)
  {
    LowestBelow(m);
    z := HighLow(x, m, Lowest(m));
  }

  /** A value less than the new bit above the sum: the sum and some bits below the new bit. */
  lemma AboveCarried(m: bv32, x: bv32) returns (z: bv32)
    requires 0 < m < 0x4000_0000 && Val(Carried(m)) <= Val(x) < Val(Carried(m)) + Val(NewBit(m))
    ensures Val(x) == Val(Carried(m)) + Val(z) && Pop(x) == Pop(Carried(m)) + Pop(z)
  {
    NewBitAbove(m);
    z := HighLow(x, Carried(m), NewBit(m));
  }

  /** Below the sum, a mask above m has more cities than m. */
  lemma BelowCarried(m: bv32, x: bv32)
    requires 0 < m < 0x4000_0000 && Val(m) < Val(x) < Val(Carried(m))
    ensures Pop(x) > Pop(m)
  {
    GosperVal(m);
    var z := AboveMask(m, x);
    Positive(z);
  }

  /** From the sum up to Gosper's step, a mask has fewer cities than m. */
  lemma FromCarried(m: bv32, x: bv32)
    requires 0 < m < 0x4000_0000 && Val(Carried(m)) <= Val(x) < Val(Next(m))
    ensures Pop(x) < Pop(m)
  {
    NextVal(m);
    GosperPop(m);
    RefillVal(m);
    RefillOnes(m);
    var z := AboveCarried(m, x);
    SmallerInside(z, Down(Changed(m) >> 2, Lowest(m)));
  }

  /** No mask strictly between m and Gosper's step from m has as many cities as m. */
  lemma NextLeast(m: bv32, x: bv32)
    requires 0 < m < 0x4000_0000 && Val(m) < Val(x) < Val(Next(m))
    ensures Pop(x) != Pop(m)
  {
    if Val(x) < Val(Carried(m)) {
      BelowCarried(m, x);
    } else {
      FromCarried(m, x);
    }
  }
}
