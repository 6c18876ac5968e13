/** Fixed-width conversions of the C++ sources, written out over unbounded integers. */
module MachineInts {

  type byte = x: int | 0 <= x < 0x100

  /** Reduction to `uint32_t`. */
  function WrapU32(x: int): (r: nat)
    ensures r < 0x1_0000_0000
  {
    x % 0x1_0000_0000
  }

  /** The cast `(int16_t) x`: the representative of `x` modulo 2^16 in [-2^15, 2^15). */
  function ToInt16(x: int): (r: int)
    ensures -0x8000 <= r < 0x8000
    ensures -0x8000 <= x < 0x8000 ==> r == x
  {
    (x + 0x8000) % 0x1_0000 - 0x8000
  }

  /** The cast `(int32_t) x`. */
  function ToInt32(x: int): (r: int)
    ensures -0x8000_0000 <= r < 0x8000_0000
    ensures -0x8000_0000 <= x < 0x8000_0000 ==> r == x
  {
    (x + 0x8000_0000) % 0x1_0000_0000 - 0x8000_0000
  }

  /** The cast `(int) x` of a floating-point value: rounds toward zero. */
  function Trunc(x: real): int {
    if x >= 0.0 then x.Floor else -((-x).Floor)
  }

  function Max(a: int, b: int): int { if a < b then b else a }

  function Min(a: int, b: int): int { if a < b then a else b }

  function Pow2(n: nat): (r: nat)
    ensures r > 0
  {
    if n == 0 then 1 else 2 * Pow2(n - 1)
  }
}
