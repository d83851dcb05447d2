/** The bounds of Java's 32-bit int, which the code uses as sentinels, its wrap-around arithmetic and its remainder;
    and the same wrap-around for the 64-bit long. */
module JavaInt {
  const INT_MAX: int := 2147483647
  const INT_MIN: int := -2147483648

  /** 2^32, the modulus of int arithmetic. */
  const MODULUS: int := 0x1_0000_0000

  predicate InRange(x: int) {
    INT_MIN <= x <= INT_MAX
  }

  /** The int that the exact value x becomes in Java: x reduced modulo 2^32 into INT_MIN..INT_MAX. */
  function Wrap(x: int): (r: int)
    ensures InRange(r) && (x - r) % MODULUS == 0
    ensures InRange(x) ==> r == x
  {
    (x - INT_MIN) % MODULUS + INT_MIN
  }

  /** Java's a + b on two ints: the exact sum wrapped, equal to it when it fits. */
  function Plus(a: int, b: int): (r: int)
    ensures InRange(r)
    ensures InRange(a + b) ==> r == a + b
  {
    Wrap(a + b)
  }

  /** Java's a / b for b > 0: the quotient truncated toward zero. */
  function Quot(a: int, b: int): int
    requires b > 0
  {
    if a >= 0 then a / b else -((-a) / b)
  }

  /** Java's a % b for b > 0: what truncated division leaves, which takes a's sign. */
  function Rem(a: int, b: int): (r: int)
    requires b > 0
    ensures a == b * Quot(a, b) + r && -b < r < b
    ensures a >= 0 ==> r >= 0
    ensures a < 0 ==> r <= 0
  {
    if a >= 0 then a % b else -((-a) % b)
  }

  /** Wrapping first and then adding d wraps to the same int as adding first: Java's x += d on an int. */
  lemma WrapAdd(x: int, d: int)
    ensures Wrap(Wrap(x) + d) == Wrap(x + d)
  {
    var r := Wrap(x);
    var q := (x - r) / MODULUS;
    assert x - r == MODULUS * q;
    ModShift(r + d - INT_MIN, q);
  }

  lemma ModShift(a: int, q: int)
    ensures (a + MODULUS * q) % MODULUS == a % MODULUS
  {
  }

  const LONG_MIN: int := -0x8000_0000_0000_0000
  const LONG_MAX: int := 0x7FFF_FFFF_FFFF_FFFF

  /** 2^64, the modulus of long arithmetic. */
  const LONG_MODULUS: int := 0x1_0000_0000_0000_0000

  predicate InLongRange(x: int) {
    LONG_MIN <= x <= LONG_MAX
  }

  /** The long that the exact value x becomes in Java. */
  function WrapLong(x: int): (r: int)
    ensures InLongRange(r) && (x - r) % LONG_MODULUS == 0
    ensures InLongRange(x) ==> r == x
  {
    (x - LONG_MIN) % LONG_MODULUS + LONG_MIN
  }

  /** Adding a multiple of 2^32 does not change the int a value wraps to. */
  lemma WrapShift(x: int, q: int)
    ensures Wrap(x + MODULUS * q) == Wrap(x)
  {
    ModShift(x - INT_MIN, q);
  }

  /** Java's (int) cast of a long keeps the low 32 bits: casting the wrapped long is wrapping the exact value. */
  lemma WrapOfLong(x: int)
    ensures Wrap(WrapLong(x)) == Wrap(x)
  {
    var r := WrapLong(x);
    var q := (x - r) / LONG_MODULUS;
    assert x - r == LONG_MODULUS * q;
    assert x == r + MODULUS * (MODULUS * q);
    WrapShift(r, MODULUS * q);
  }
}
