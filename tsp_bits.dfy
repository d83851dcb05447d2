/**
 * Masks as numbers and as sets of cities: the value and the number of set
 * bits of a bv32, both defined by halving, so that the order of masks and
 * the size of a subset can be reasoned about one bit at a time.
 */
module TSPBits {
  /** Exactly one bit of m is set. */
  predicate OneBit(m: bv32) {
    m != 0 && m & (m - 1) == 0
  }

  /** m is a run of ones from bit 0 up (possibly empty). */
  predicate LowOnes(m: bv32) {
    m & (m + 1) == 0
  }

  /** 1 when x and m share a bit, else 0. */
  function Bit(x: bv32, m: bv32): nat {
    if x & m != 0 then 1 else 0
  }

  /** The value of x as a natural number. */
  function Val(x: bv32): nat
    decreases x
  {
    if x == 0 then 0 else 2 * Val(x >> 1) + Bit(x, 1)
  }

  /** The number of set bits of x: the size of the subset it stands for. */
  function Pop(x: bv32): nat
    decreases x
  {
    if x == 0 then 0 else Pop(x >> 1) + Bit(x, 1)
  }

  /** One halving step, with the half named: its value and size give those of x. */
  lemma Halve(x: bv32) returns (h: bv32, b: nat)
    ensures h == x >> 1 && b == Bit(x, 1) && b <= 1
    ensures Val(x) == 2 * Val(h) + b && Pop(x) == Pop(h) + b
    ensures x != 0 ==> h < x
    ensures x == 0 ==> h == 0 && b == 0
  {
    h := x >> 1;
    b := Bit(x, 1);
  }

  lemma Halves(x: bv32, y: bv32, hx: bv32, hy: bv32)
    requires hx == x >> 1 && hy == y >> 1
    ensures hx == hy && Bit(x, 1) == Bit(y, 1) ==> x == y
  {
  }

  /** Halving with a remainder of 0 or 1 is unique. */
  lemma Parity(a: int, b: int, c: int, d: int)
    requires 0 <= b <= 1 && 0 <= d <= 1
    ensures 2 * a + b == 2 * c + d ==> a == c && b == d
  {
  }

  /** Only the zero mask has value 0 or size 0. */
  lemma {:induction false} Nonzero(x: bv32)
    requires x != 0
    ensures Val(x) > 0 && Pop(x) > 0
    decreases x
  {
    var h, b := Halve(x);
    if b == 0 {
      NonzeroHalf(x, h);
      Nonzero(h);
    }
  }

  /** The only mask without cities is 0. */
  lemma NoCities(x: bv32)
    ensures Pop(x) == 0 ==> x == 0
  {
    if x != 0 {
      Nonzero(x);
    }
  }

  lemma NonzeroHalf(x: bv32, h: bv32)
    requires x != 0 && h == x >> 1 && Bit(x, 1) == 0
    ensures h != 0
  {
  }

  /** Different masks have different values. */
  lemma {:induction false} ValInjective(x: bv32, y: bv32)
    requires Val(x) == Val(y)
    ensures x == y
    decreases x
  {
    var hx, bx := Halve(x);
    var hy, b2 := Halve(y);
    Parity(Val(hx), bx, Val(hy), b2);
    if x != 0 {
      ValInjective(hx, hy);
    } else if y != 0 {
      Nonzero(y);
    }
    Halves(x, y, hx, hy);
  }

  lemma Parity2(a: int, b: int, c: int, d: int)
    requires 0 <= b <= 1 && 0 <= d <= 1 && 2 * a + b < 2 * c + d && !(a < c)
    ensures a == c && b < d
  {
  }

  lemma ShiftLess(x: bv32, y: bv32, hx: bv32, hy: bv32)
    requires hx == x >> 1 && hy == y >> 1 && hx < hy
    ensures x < y
  {
  }

  lemma BitLess(x: bv32, y: bv32, hx: bv32, hy: bv32)
    requires hx == x >> 1 && hy == y >> 1 && hx == hy && Bit(x, 1) < Bit(y, 1)
    ensures x < y
  {
  }

  /** A smaller value is a smaller mask (Java's `<` on non-negative ints). */
  lemma {:induction false} ValLess(x: bv32, y: bv32)
    requires Val(x) < Val(y)
    ensures x < y
    decreases y
  {
    var hx, bx := Halve(x);
    var hy, b2 := Halve(y);
    if Val(hx) < Val(hy) {
      ValLess(hx, hy);
      ShiftLess(x, y, hx, hy);
    } else {
      Parity2(Val(hx), bx, Val(hy), b2);
      ValInjective(hx, hy);
      BitLess(x, y, hx, hy);
    }
  }

  lemma Asymmetric(x: bv32, y: bv32)
    requires y < x
    ensures !(x < y)
  {
  }

  /** A smaller mask has a smaller value: together with ValLess, the two orders agree. */
  lemma LessVal(x: bv32, y: bv32)
    requires x < y
    ensures Val(x) < Val(y)
  {
    if Val(y) < Val(x) {
      ValLess(y, x);
      Asymmetric(x, y);
    } else if Val(y) == Val(x) {
      ValInjective(x, y);
    }
  }

  lemma OrHalf(x: bv32, y: bv32, hx: bv32, hy: bv32) returns (h: bv32)
    requires x & y == 0 && hx == x >> 1 && hy == y >> 1
    ensures h == (x | y) >> 1 && h == hx | hy && hx & hy == 0
    ensures Bit(x | y, 1) == Bit(x, 1) + Bit(y, 1)
  {
    h := hx | hy;
    OrShift(x, y, hx, hy);
    OrLow(x, y);
  }

  lemma OrShift(x: bv32, y: bv32, hx: bv32, hy: bv32)
    requires x & y == 0 && hx == x >> 1 && hy == y >> 1
    ensures hx | hy == (x | y) >> 1 && hx & hy == 0
  {
  }

  lemma OrLow(x: bv32, y: bv32)
    requires x & y == 0
    ensures Bit(x | y, 1) == Bit(x, 1) + Bit(y, 1)
  {
  }

  lemma {:induction false} DisjointVal(x: bv32, y: bv32)
    requires x & y == 0
    ensures Val(x | y) == Val(x) + Val(y)
    decreases x
  {
    if x == 0 {
      assert x | y == y;
    } else {
      var hx, bx := Halve(x);
      var hy, b2 := Halve(y);
      var h := OrHalf(x, y, hx, hy);
      var h2, b3 := Halve(x | y);
      DisjointVal(hx, hy);
    }
  }

  lemma {:induction false} DisjointPop(x: bv32, y: bv32)
    requires x & y == 0
    ensures Pop(x | y) == Pop(x) + Pop(y)
    decreases x
  {
    if x == 0 {
      assert x | y == y;
    } else {
      var hx, bx := Halve(x);
      var hy, b2 := Halve(y);
      var h := OrHalf(x, y, hx, hy);
      var h2, b3 := Halve(x | y);
      DisjointPop(hx, hy);
    }
  }

  /** Masks with no common bit: the union's value and size are the sums. */
  lemma Disjoint(x: bv32, y: bv32)
    requires x & y == 0
    ensures Val(x | y) == Val(x) + Val(y) && Pop(x | y) == Pop(x) + Pop(y)
  {
    DisjointVal(x, y);
    DisjointPop(x, y);
  }

  /** Disjoint, for a mask already known to be the union. */
  lemma JoinVal(x: bv32, y: bv32, z: bv32)
    requires z == x | y && x & y == 0
    ensures Val(z) == Val(x) + Val(y) && Pop(z) == Pop(x) + Pop(y)
  {
    Disjoint(x, y);
  }

  lemma OnesHalf(l: bv32, h: bv32, g: bv32)
    requires OneBit(l) && l > 1 && h == l >> 1 && g == (l - 1) >> 1
    ensures g == h - 1 && Bit(l - 1, 1) == 1 && Bit(l, 1) == 0 && OneBit(h)
  {
  }

  /** The ones below a single bit l: one less than l, and a single bit is a subset of size 1. */
  lemma {:induction false} BitValue(l: bv32)
    requires OneBit(l)
    ensures Val(l - 1) + 1 == Val(l) && Pop(l) == 1
    decreases l
  {
    var h, b := Halve(l);
    var g, b1 := Halve(l - 1);
    var z, b0 := Halve(0);
    if l != 1 {
      OnesHalf(l, h, g);
      BitValue(h);
    }
  }

  lemma HighHalf(u: bv32, c: bv32, hu: bv32, hc: bv32)
    requires OneBit(c) && c > 1 && u & (c - 1) == 0 && hu == u >> 1 && hc == c >> 1
    ensures hu & (hc - 1) == 0 && Bit(u, 1) == 0 && OneBit(hc) && Bit(c, 1) == 0
  {
  }

  lemma HighJoin(x: bv32, u: bv32, c: bv32, hx: bv32, hu: bv32, hc: bv32)
    requires OneBit(c) && c > 1 && u & (c - 1) == 0 && hx == x >> 1 && hu == u >> 1 && hc == c >> 1
    requires hx & -hc == hu
    ensures x & -c == u
  {
  }

  lemma HalfBounds(a: int, b: int, g: int, k: int)
    requires 0 <= b <= 1 && 2 * g <= 2 * a + b < 2 * g + 2 * k
    ensures g <= a < g + k
  {
  }

  /**
   * A mask u with no bits below the single bit c, and a value x at most c
   * above it: x keeps the bits of u from c up.
   */
  lemma {:induction false} SameHigh(x: bv32, u: bv32, c: bv32)
    requires OneBit(c) && u & (c - 1) == 0 && Val(u) <= Val(x) < Val(u) + Val(c)
    ensures x & -c == u
    decreases c
  {
    var hc, b3 := Halve(c);
    var z, b0 := Halve(0);
    if c == 1 {
      ValInjective(x, u);
    } else {
      var hx, bx := Halve(x);
      var hu, b2 := Halve(u);
      HighHalf(u, c, hu, hc);
      HalfBounds(Val(hx), bx, Val(hu), Val(hc));
      SameHigh(hx, hu, hc);
      HighJoin(x, u, c, hx, hu, hc);
    }
  }

  lemma SplitLow(x: bv32, u: bv32, c: bv32) returns (z: bv32)
    requires OneBit(c) && x & -c == u
    ensures Val(x) == Val(u) + Val(z) && Pop(x) == Pop(u) + Pop(z)
  {
    z := x & (c - 1);
    JoinVal(u, z, x);
  }

  /**
   * A value at most c above a mask u with nothing below the single bit c:
   * u and some bits z below c.
   */
  lemma HighLow(x: bv32, u: bv32, c: bv32) returns (z: bv32)
    requires OneBit(c) && u & (c - 1) == 0 && Val(u) <= Val(x) < Val(u) + Val(c)
    ensures Val(x) == Val(u) + Val(z) && Pop(x) == Pop(u) + Pop(z)
  {
    SameHigh(x, u, c);
    z := SplitLow(x, u, c);
  }

  lemma OnesOdd(e: bv32, h: bv32)
    requires LowOnes(e) && e != 0 && h == e >> 1
    ensures Bit(e, 1) == 1 && LowOnes(h)
  {
  }

  lemma ShiftTwo(e: bv32, h: bv32, g: bv32)
    requires h == e >> 1 && g == h >> 1
    ensures g == e >> 2
  {
  }

  lemma InsideOnes(z: bv32, s: bv32) returns (w: bv32)
    requires LowOnes(s) && z < s
    ensures w == s ^ z && z & w == 0
  {
    w := s ^ z;
  }

  lemma InsideOnesJoin(z: bv32, s: bv32, w: bv32)
    requires LowOnes(s) && z < s && w == s ^ z
    ensures z | w == s && w != 0
  {
  }

  /** A smaller mask than a run of ones from bit 0 is a smaller subset. */
  lemma PopInside(z: bv32, s: bv32)
    requires LowOnes(s) && z < s
    ensures Pop(z) < Pop(s)
  {
    var w := InsideOnes(z, s);
    InsideOnesJoin(z, s, w);
    Disjoint(z, w);
    Nonzero(w);
  }

  /** A mask of positive value has a city. */
  lemma Positive(x: bv32)
    requires Val(x) > 0
    ensures Pop(x) > 0
  {
    Nonzero(x);
  }

  /** PopInside, stated on values. */
  lemma SmallerInside(z: bv32, s: bv32)
    requires LowOnes(s) && Val(z) < Val(s)
    ensures Pop(z) < Pop(s)
  {
    ValLess(z, s);
    PopInside(z, s);
  }

  // ---------------------------------------------------------------------------
  // Masks below a single bit t joined with t
  // ---------------------------------------------------------------------------

  lemma LiftApart(z: bv32, t: bv32)
    requires OneBit(t) && t <= 0x2000_0000 && z < t
    ensures z & t == 0
  {
  }

  lemma LiftBelow(z: bv32, t: bv32)
    requires OneBit(t) && t <= 0x2000_0000 && z < t
    ensures z | t < t + t
  {
  }

  lemma LiftAbove(z: bv32, t: bv32)
    requires OneBit(t) && t <= 0x2000_0000 && z < t
    ensures t <= z | t
  {
  }

  lemma LiftInjective(y: bv32, z: bv32, t: bv32)
    requires OneBit(t) && t <= 0x2000_0000 && y < t && z < t
    ensures y | t == z | t ==> y == z
  {
  }

  lemma TopBit(x: bv32, t: bv32)
    requires OneBit(t) && t <= 0x2000_0000 && t <= x < t + t
    ensures x & -t == t
  {
  }

  lemma TopRest(x: bv32, t: bv32)
    requires OneBit(t) && x & -t == t
    ensures (x & (t - 1)) | t == x
  {
  }

  /** A mask from t up to 2t is t and the bits of x below t. */
  lemma TopJoin(x: bv32, t: bv32)
    requires OneBit(t) && t <= 0x2000_0000 && t <= x < t + t
    ensures (x & (t - 1)) | t == x
  {
    TopBit(x, t);
    TopRest(x, t);
  }

  lemma TopBelow(x: bv32, t: bv32)
    requires OneBit(t) && t <= 0x2000_0000 && t <= x < t + t
    ensures x & (t - 1) < t
  {
  }

  /** The bits below a single bit form a run of ones from bit 0. */
  lemma OnesBelow(t: bv32)
    requires OneBit(t)
    ensures LowOnes(t - 1)
  {
  }

  lemma OnesJoin(t: bv32)
    requires OneBit(t) && t <= 0x2000_0000
    ensures (t + t) - 1 == (t - 1) | t && (t - 1) & t == 0
  {
  }

  /** A mask x from t up to u == 2t: the bit t and the bits of x below t. */
  lemma TopSplit(x: bv32, t: bv32, u: bv32)
    requires OneBit(t) && t <= 0x2000_0000 && u == t + t && t <= x < u
    ensures (x & (t - 1)) | t == x && x & (t - 1) < t
  {
    TopJoin(x, t);
    TopBelow(x, t);
  }

  lemma TopSize(x: bv32, t: bv32, u: bv32)
    requires OneBit(t) && t <= 0x2000_0000 && u == t + t && t <= x < u
    ensures Pop(x & (t - 1)) + 1 == Pop(x)
  {
    TopSplit(x, t, u);
    LiftApart(x & (t - 1), t);
    JoinVal(x & (t - 1), t, x);
    BitValue(t);
  }

  /** A mask z below t, with t added: below u == 2t, at least t, one bit more. */
  /** A mask of [t, t + t) is its part below t with the bit t added, one city more. */
  lemma TopPart(x: bv32, t: bv32, u: bv32) returns (z: bv32)
    requires OneBit(t) && t <= 0x2000_0000 && u == t + t && t <= x < u
    ensures z < t && z | t == x && Pop(z) + 1 == Pop(x)
  {
    z := x & (t - 1);
    TopSplit(x, t, u);
    TopSize(x, t, u);
  }

  lemma LiftSound(z: bv32, t: bv32, u: bv32)
    requires OneBit(t) && t <= 0x2000_0000 && u == t + t && z < t
    ensures t <= z | t < u && Pop(z | t) == Pop(z) + 1
  {
    LiftBelow(z, t);
    LiftAbove(z, t);
    LiftApart(z, t);
    Disjoint(z, t);
    BitValue(t);
  }

  lemma BelowDouble(x: bv32, t: bv32, u: bv32)
    requires t <= 0x2000_0000 && u == t + t && x < t
    ensures x < u
  {
  }

  lemma DoubleAbove(t: bv32, u: bv32)
    requires 0 < t <= 0x2000_0000 && u == t + t
    ensures t <= u - 1
  {
  }

  /** 2t - 1 is the ones below t and t itself. */
  lemma DoubleOnes(t: bv32, u: bv32)
    requires OneBit(t) && t <= 0x2000_0000 && u == t + t
    ensures Pop(u - 1) == Pop(t - 1) + 1
  {
    OnesJoin(t);
    JoinVal(t - 1, t, u - 1);
    BitValue(t);
  }

  // ---------------------------------------------------------------------------
  // Division by a single bit, as halving
  // ---------------------------------------------------------------------------

  /** y shifted down as far as the single bit c stands above bit 0, halving both. */
  function Down(y: bv32, c: bv32): bv32
    decreases c
  {
    if c <= 1 then y else Down(y >> 1, c >> 1)
  }

  lemma DownStep(y: bv32, c: bv32) returns (hy: bv32, hc: bv32)
    requires c > 1
    ensures hy == y >> 1 && hc == c >> 1 && hc < c && Down(y, c) == Down(hy, hc)
  {
    hy, hc := y >> 1, c >> 1;
  }

  lemma LowHalf(y: bv32, c: bv32, hy: bv32, hc: bv32) returns (z: bv32)
    requires OneBit(c) && c > 1 && hy == y >> 1 && hc == c >> 1
    ensures OneBit(hc) && z == (y & (c - 1)) >> 1 && z == hy & (hc - 1) && Bit(y & (c - 1), 1) == Bit(y, 1)
  {
    z := hy & (hc - 1);
  }

  /** Down drops the bits of y below c and keeps the others. */
  lemma {:induction false} PopDown(y: bv32, c: bv32)
    requires OneBit(c)
    ensures Pop(Down(y, c)) + Pop(y & (c - 1)) == Pop(y)
    decreases c
  {
    if c == 1 {
      assert y & (c - 1) == 0;
    } else {
      var hy, hc := DownStep(y, c);
      var z := LowHalf(y, c, hy, hc);
      var h1, b1 := Halve(y);
      var h2, b2 := Halve(y & (c - 1));
      PopDown(hy, hc);
    }
  }

  lemma RunHalf(y: bv32, c: bv32, hy: bv32, hc: bv32)
    requires OneBit(c) && c > 1 && hy == y >> 1 && hc == c >> 1 && LowOnes(y | (c - 1))
    ensures OneBit(hc) && LowOnes(hy | (hc - 1))
  {
  }

  /** Ones from bit c up, brought down to bit 0, are a run of ones from bit 0. */
  lemma {:induction false} RunDown(y: bv32, c: bv32)
    requires OneBit(c) && LowOnes(y | (c - 1))
    ensures LowOnes(Down(y, c))
    decreases c
  {
    if c == 1 {
      assert y | (c - 1) == y;
    } else {
      var hy, hc := DownStep(y, c);
      RunHalf(y, c, hy, hc);
      RunDown(hy, hc);
    }
  }

  lemma BelowHalf(y: bv32, u: bv32, hy: bv32)
    requires OneBit(u) && y & -u == 0 && hy == y >> 1
    ensures hy & -u == 0
  {
  }

  /** Down keeps a mask below a single bit u. */
  lemma {:induction false} DownBelow(y: bv32, c: bv32, u: bv32)
    requires OneBit(u) && y & -u == 0
    ensures Down(y, c) & -u == 0
    decreases c
  {
    if c > 1 {
      var hy, hc := DownStep(y, c);
      BelowHalf(y, u, hy);
      DownBelow(hy, hc, u);
    }
  }

  lemma Quadruple(c: bv32)
    requires OneBit(c) && c <= 0x2000_0000
    ensures OneBit(4 * c) && 4 * c > 1 && (4 * c) >> 1 == c + c && c + c > 1 && (c + c) >> 1 == c && OneBit(c + c)
  {
  }

  /** Down by four times c is Down by c after a shift by two. */
  lemma Down4(y: bv32, c: bv32)
    requires OneBit(c) && c <= 0x2000_0000
    ensures OneBit(4 * c) && OneBit(c + c) && Down(y, 4 * c) == Down(y >> 2, c)
  {
    Quadruple(c);
    var h, c2 := DownStep(y, 4 * c);
    var q, c1 := DownStep(h, c2);
    ShiftTwo(y, h, q);
  }

  /** Java's `/` on two non-negative ints, which is the quotient of bv32. */
  function Quot(y: bv32, c: bv32): bv32
    requires c != 0
  {
    y / c
  }

  /*
   * Java's y / c for a single bit c is Down(y, c). The solver handles a
   * division only by a constant, so the proof goes through the thirty
   * single bits a mask below 1 << 30 can have as its lowest, one lemma each.
   */

  lemma DownQuot0(y: bv32)
    ensures Quot(y, 0x1) == y >> 0 && Down(y, 0x1) == y >> 0
  {
    assert Quot(y, 0x1) == y / 0x1;
  }

  lemma DownQuot1(y: bv32)
    ensures Quot(y, 0x2) == y >> 1 && Down(y, 0x2) == y >> 1
  {
    assert Quot(y, 0x2) == y / 0x2;
    DownQuot0(y >> 1);
  }

  lemma DownQuot2(y: bv32)
    ensures Quot(y, 0x4) == y >> 2 && Down(y, 0x4) == y >> 2
  {
    assert Quot(y, 0x4) == y / 0x4;
    DownQuot1(y >> 1);
  }

  lemma DownQuot3(y: bv32)
    ensures Quot(y, 0x8) == y >> 3 && Down(y, 0x8) == y >> 3
  {
    assert Quot(y, 0x8) == y / 0x8;
    DownQuot2(y >> 1);
  }

  lemma DownQuot4(y: bv32)
    ensures Quot(y, 0x10) == y >> 4 && Down(y, 0x10) == y >> 4
  {
    assert Quot(y, 0x10) == y / 0x10;
    DownQuot3(y >> 1);
  }

  lemma DownQuot5(y: bv32)
    ensures Quot(y, 0x20) == y >> 5 && Down(y, 0x20) == y >> 5
  {
    assert Quot(y, 0x20) == y / 0x20;
    DownQuot4(y >> 1);
  }

  lemma DownQuot6(y: bv32)
    ensures Quot(y, 0x40) == y >> 6 && Down(y, 0x40) == y >> 6
  {
    assert Quot(y, 0x40) == y / 0x40;
    DownQuot5(y >> 1);
  }

  lemma DownQuot7(y: bv32)
    ensures Quot(y, 0x80) == y >> 7 && Down(y, 0x80) == y >> 7
  {
    assert Quot(y, 0x80) == y / 0x80;
    DownQuot6(y >> 1);
  }

  lemma DownQuot8(y: bv32)
    ensures Quot(y, 0x100) == y >> 8 && Down(y, 0x100) == y >> 8
  {
    assert Quot(y, 0x100) == y / 0x100;
    DownQuot7(y >> 1);
  }

  lemma DownQuot9(y: bv32)
    ensures Quot(y, 0x200) == y >> 9 && Down(y, 0x200) == y >> 9
  {
    assert Quot(y, 0x200) == y / 0x200;
    DownQuot8(y >> 1);
  }

  lemma DownQuot10(y: bv32)
    ensures Quot(y, 0x400) == y >> 10 && Down(y, 0x400) == y >> 10
  {
    assert Quot(y, 0x400) == y / 0x400;
    DownQuot9(y >> 1);
  }

  lemma DownQuot11(y: bv32)
    ensures Quot(y, 0x800) == y >> 11 && Down(y, 0x800) == y >> 11
  {
    assert Quot(y, 0x800) == y / 0x800;
    DownQuot10(y >> 1);
  }

  lemma DownQuot12(y: bv32)
    ensures Quot(y, 0x1000) == y >> 12 && Down(y, 0x1000) == y >> 12
  {
    assert Quot(y, 0x1000) == y / 0x1000;
    DownQuot11(y >> 1);
  }

  lemma DownQuot13(y: bv32)
    ensures Quot(y, 0x2000) == y >> 13 && Down(y, 0x2000) == y >> 13
  {
    assert Quot(y, 0x2000) == y / 0x2000;
    DownQuot12(y >> 1);
  }

  lemma DownQuot14(y: bv32)
    ensures Quot(y, 0x4000) == y >> 14 && Down(y, 0x4000) == y >> 14
  {
    assert Quot(y, 0x4000) == y / 0x4000;
    DownQuot13(y >> 1);
  }

  lemma DownQuot15(y: bv32)
    ensures Quot(y, 0x8000) == y >> 15 && Down(y, 0x8000) == y >> 15
  {
    assert Quot(y, 0x8000) == y / 0x8000;
    DownQuot14(y >> 1);
  }

  lemma DownQuot16(y: bv32)
    ensures Quot(y, 0x10000) == y >> 16 && Down(y, 0x10000) == y >> 16
  {
    assert Quot(y, 0x10000) == y / 0x10000;
    DownQuot15(y >> 1);
  }

  lemma DownQuot17(y: bv32)
    ensures Quot(y, 0x20000) == y >> 17 && Down(y, 0x20000) == y >> 17
  {
    assert Quot(y, 0x20000) == y / 0x20000;
    DownQuot16(y >> 1);
  }

  lemma DownQuot18(y: bv32)
    ensures Quot(y, 0x40000) == y >> 18 && Down(y, 0x40000) == y >> 18
  {
    assert Quot(y, 0x40000) == y / 0x40000;
    DownQuot17(y >> 1);
  }

  lemma DownQuot19(y: bv32)
    ensures Quot(y, 0x80000) == y >> 19 && Down(y, 0x80000) == y >> 19
  {
    assert Quot(y, 0x80000) == y / 0x80000;
    DownQuot18(y >> 1);
  }

  lemma DownQuot20(y: bv32)
    ensures Quot(y, 0x100000) == y >> 20 && Down(y, 0x100000) == y >> 20
  {
    assert Quot(y, 0x100000) == y / 0x100000;
    DownQuot19(y >> 1);
  }

  lemma DownQuot21(y: bv32)
    ensures Quot(y, 0x200000) == y >> 21 && Down(y, 0x200000) == y >> 21
  {
    assert Quot(y, 0x200000) == y / 0x200000;
    DownQuot20(y >> 1);
  }

  lemma DownQuot22(y: bv32)
    ensures Quot(y, 0x400000) == y >> 22 && Down(y, 0x400000) == y >> 22
  {
    assert Quot(y, 0x400000) == y / 0x400000;
    DownQuot21(y >> 1);
  }

  lemma DownQuot23(y: bv32)
    ensures Quot(y, 0x800000) == y >> 23 && Down(y, 0x800000) == y >> 23
  {
    assert Quot(y, 0x800000) == y / 0x800000;
    DownQuot22(y >> 1);
  }

  lemma DownQuot24(y: bv32)
    ensures Quot(y, 0x1000000) == y >> 24 && Down(y, 0x1000000) == y >> 24
  {
    assert Quot(y, 0x1000000) == y / 0x1000000;
    DownQuot23(y >> 1);
  }

  lemma DownQuot25(y: bv32)
    ensures Quot(y, 0x2000000) == y >> 25 && Down(y, 0x2000000) == y >> 25
  {
    assert Quot(y, 0x2000000) == y / 0x2000000;
    DownQuot24(y >> 1);
  }

  lemma DownQuot26(y: bv32)
    ensures Quot(y, 0x4000000) == y >> 26 && Down(y, 0x4000000) == y >> 26
  {
    assert Quot(y, 0x4000000) == y / 0x4000000;
    DownQuot25(y >> 1);
  }

  lemma DownQuot27(y: bv32)
    ensures Quot(y, 0x8000000) == y >> 27 && Down(y, 0x8000000) == y >> 27
  {
    assert Quot(y, 0x8000000) == y / 0x8000000;
    DownQuot26(y >> 1);
  }

  lemma DownQuot28(y: bv32)
    ensures Quot(y, 0x10000000) == y >> 28 && Down(y, 0x10000000) == y >> 28
  {
    assert Quot(y, 0x10000000) == y / 0x10000000;
    DownQuot27(y >> 1);
  }

  lemma DownQuot29(y: bv32)
    ensures Quot(y, 0x20000000) == y >> 29 && Down(y, 0x20000000) == y >> 29
  {
    assert Quot(y, 0x20000000) == y / 0x20000000;
    DownQuot28(y >> 1);
  }

  lemma Powers(c: bv32)
    requires OneBit(c) && c < 0x4000_0000
    ensures c == 0x1 || c == 0x2 || c == 0x4 || c == 0x8 || c == 0x10
            || c == 0x20 || c == 0x40 || c == 0x80 || c == 0x100 || c == 0x200
            || c == 0x400 || c == 0x800 || c == 0x1000 || c == 0x2000 || c == 0x4000
            || c == 0x8000 || c == 0x10000 || c == 0x20000 || c == 0x40000 || c == 0x80000
            || c == 0x100000 || c == 0x200000 || c == 0x400000 || c == 0x800000 || c == 0x1000000
            || c == 0x2000000 || c == 0x4000000 || c == 0x8000000 || c == 0x10000000 || c == 0x20000000
  {
  }

  /** Java's division of y by the single bit c below 1 << 30. */
  lemma QuotDown(y: bv32, c: bv32)
    requires OneBit(c) && c < 0x4000_0000
    ensures Quot(y, c) == Down(y, c)
  {
    Powers(c);
    if c == 0x1 {
      DownQuot0(y);
    } else if c == 0x2 {
      DownQuot1(y);
    } else if c == 0x4 {
      DownQuot2(y);
    } else if c == 0x8 {
      DownQuot3(y);
    } else if c == 0x10 {
      DownQuot4(y);
    } else if c == 0x20 {
      DownQuot5(y);
    } else if c == 0x40 {
      DownQuot6(y);
    } else if c == 0x80 {
      DownQuot7(y);
    } else if c == 0x100 {
      DownQuot8(y);
    } else if c == 0x200 {
      DownQuot9(y);
    } else if c == 0x400 {
      DownQuot10(y);
    } else if c == 0x800 {
      DownQuot11(y);
    } else if c == 0x1000 {
      DownQuot12(y);
    } else if c == 0x2000 {
      DownQuot13(y);
    } else if c == 0x4000 {
      DownQuot14(y);
    } else if c == 0x8000 {
      DownQuot15(y);
    } else if c == 0x10000 {
      DownQuot16(y);
    } else if c == 0x20000 {
      DownQuot17(y);
    } else if c == 0x40000 {
      DownQuot18(y);
    } else if c == 0x80000 {
      DownQuot19(y);
    } else if c == 0x100000 {
      DownQuot20(y);
    } else if c == 0x200000 {
      DownQuot21(y);
    } else if c == 0x400000 {
      DownQuot22(y);
    } else if c == 0x800000 {
      DownQuot23(y);
    } else if c == 0x1000000 {
      DownQuot24(y);
    } else if c == 0x2000000 {
      DownQuot25(y);
    } else if c == 0x4000000 {
      DownQuot26(y);
    } else if c == 0x8000000 {
      DownQuot27(y);
    } else if c == 0x10000000 {
      DownQuot28(y);
    } else if c == 0x20000000 {
      DownQuot29(y);
    }
  }
}
