/** Helpers for the C++ numeric conversions the curve code relies on:
    the `(int)` cast (truncation toward zero), `ceil`, and the 32-bit
    range of `int`. */
module Numeric {

  const MinInt32: int := -0x8000_0000
  const MaxInt32: int := 0x7fff_ffff

  /** `n` is representable as a C++ `int` (32 bits, two's complement). */
  predicate FitsInt32(n: int) {
    MinInt32 <= n <= MaxInt32
  }

  /** The `(int)` cast of a real: truncation toward zero. */
  function Trunc(r: real): (n: int)
    ensures 0.0 <= r ==> 0 <= n && n as real <= r < n as real + 1.0
    ensures r < 0.0 ==> n <= 0 && n as real - 1.0 < r <= n as real
  {
    if 0.0 <= r then r.Floor else -((-r).Floor)
  }

  /** `ceil`: the least integer not below `r`. */
  function Ceil(r: real): (n: int)
    ensures n as real - 1.0 < r <= n as real
  {
    -((-r).Floor)
  }

  /** Negation of a 32-bit `int`. `-INT_MIN` overflows, which C++ leaves
      undefined; the model takes the two's-complement result, `INT_MIN`. */
  function Neg32(n: int): (m: int)
    requires FitsInt32(n)
    ensures FitsInt32(m)
    ensures n != MinInt32 ==> m == -n
    ensures n == MinInt32 ==> m < 0
  {
    if n == MinInt32 then MinInt32 else -n
  }

  /** Truncation and `ceil` agree on integral values, and for a
      non-positive real both round toward zero, so they agree there too. */
  lemma TruncCeilAgree(r: real)
    requires r <= 0.0 || r == r.Floor as real
    ensures Trunc(r) == Ceil(r)
  {
  }
}
