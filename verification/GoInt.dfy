/** Go's `int` on a 64-bit platform. */
module GoInt {
  const LIMIT := 0x8000_0000_0000_0000

  type Int64 = x: int | -LIMIT <= x < LIMIT

  /** Two's complement wrap-around. */
  function Wrap(x: int): (r: Int64)
    ensures -LIMIT <= x < LIMIT ==> r == x
    ensures LIMIT <= x < 3 * LIMIT ==> r == x - 2 * LIMIT
    ensures -3 * LIMIT <= x < -LIMIT ==> r == x + 2 * LIMIT
  {
    (x + LIMIT) % (2 * LIMIT) - LIMIT
  }

  function Add(x: Int64, y: Int64): Int64 {
    Wrap(x + y)
  }

  /** Wrapping sums may be taken in any order. */
  lemma AddSwaps(x: Int64, y: Int64, z: Int64)
    ensures Add(Add(x, y), z) == Add(Add(x, z), y)
  {
  }
}
