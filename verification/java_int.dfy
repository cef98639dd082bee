/** Java's 32-bit two's-complement `int`, written out over Dafny's unbounded
    integers. */
module JavaInt {

  const TWO_32: int := 0x1_0000_0000
  const INT_MIN: int := -0x8000_0000
  const INT_MAX: int := 0x7fff_ffff

  /** The values a Java `int` can hold. */
  type int32 = x: int | -0x8000_0000 <= x <= 0x7fff_ffff

  predicate InRange(x: int) {
    INT_MIN <= x <= INT_MAX
  }

  /** The `int` that Java arithmetic produces for the mathematical value `x`:
      the unique 32-bit value congruent to `x` modulo 2^32. */
  function Wrap(x: int): (r: int32)
    ensures (r - x) % TWO_32 == 0
    ensures InRange(x) ==> r == x
  {
    var m := x % TWO_32;
    if m <= INT_MAX then m else m - TWO_32
  }

  /** Java's `a * b` on two `int`s. */
  function Mul(a: int32, b: int32): (r: int32)
    ensures InRange(a * b) ==> r == a * b
    ensures ((r as int) - a * b) % TWO_32 == 0
  {
    Wrap(a * b)
  }

  /** Java's `a - b` on two `int`s. */
  function Sub(a: int32, b: int32): (r: int32)
    ensures InRange(a - b) ==> r == a - b
    ensures ((r as int) - (a - b)) % TWO_32 == 0
  {
    Wrap(a - b)
  }
}
