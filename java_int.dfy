/** Java's 32-bit `int` arithmetic, written out over Dafny's unbounded integers. */
module JavaInt {

  const MinInt: int := -0x8000_0000
  const MaxInt: int := 0x7fff_ffff

  /** The values of a Java `int`. */
  type Int32 = x: int | MinInt <= x <= MaxInt

  /** Two's-complement wrap-around of an exact result into the `int` range. */
  function Wrap(x: int): (r: Int32)
    ensures MinInt <= x <= MaxInt ==> r == x
    ensures x > MaxInt && x <= MaxInt - MinInt + MaxInt ==> r == x - 0x1_0000_0000
    ensures x < MinInt && x >= MinInt - MaxInt + MinInt - 1 ==> r == x + 0x1_0000_0000
    ensures (x - r) % 0x1_0000_0000 == 0
  {
    (x - MinInt) % 0x1_0000_0000 + MinInt
  }

  /** `Math.min` */
  function Min(a: int, b: int): (r: int)
    ensures r <= a && r <= b && (r == a || r == b)
  {
    if a <= b then a else b
  }

  /** `Math.max` */
  function Max(a: int, b: int): (r: int)
    ensures r >= a && r >= b && (r == a || r == b)
  {
    if a >= b then a else b
  }
}
