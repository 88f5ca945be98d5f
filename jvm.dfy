/** Kotlin's fixed-width integers on the JVM, as far as the circuit breaker
    uses them: `Int` counters incremented with `++`, `Long` millisecond
    timestamps subtracted with `-`, and `Long` division by a positive
    constant. Overflow wraps around (two's complement) and division
    truncates toward zero; both are written out here because Dafny's
    integers are unbounded and its `/` is Euclidean. */
module Jvm {

  const INT_MIN: int := -0x8000_0000
  const INT_MAX: int := 0x7FFF_FFFF
  const LONG_MIN: int := -0x8000_0000_0000_0000
  const LONG_MAX: int := 0x7FFF_FFFF_FFFF_FFFF

  /** Kotlin `Int` */
  newtype int32 = x: int | -0x8000_0000 <= x < 0x8000_0000

  /** Kotlin `Long` */
  newtype int64 = x: int | -0x8000_0000_0000_0000 <= x < 0x8000_0000_0000_0000

  /** The `Long` that a mathematical integer becomes after two's-complement
      wrap-around. */
  function WrapLong(x: int): (r: int64)
    ensures (r as int - x) % 0x1_0000_0000_0000_0000 == 0
    ensures LONG_MIN <= x <= LONG_MAX ==> r as int == x
  {
    var m := x % 0x1_0000_0000_0000_0000;
    if m <= LONG_MAX then m as int64 else (m - 0x1_0000_0000_0000_0000) as int64
  }

  /** Kotlin `x++` on an `Int`: the successor, except that `Int.MAX_VALUE`
      wraps to `Int.MIN_VALUE`. */
  function Inc(x: int32): (r: int32)
    ensures (r as int - x as int - 1) % 0x1_0000_0000 == 0
    ensures x as int < INT_MAX ==> r as int == x as int + 1
    ensures x as int == INT_MAX ==> r as int == INT_MIN
  {
    if x as int == INT_MAX then INT_MIN as int32 else x + 1
  }

  /** Kotlin `a - b` on two `Long`s. */
  function SubLong(a: int64, b: int64): (r: int64)
    ensures (r as int - (a as int - b as int)) % 0x1_0000_0000_0000_0000 == 0
    ensures LONG_MIN <= a as int - b as int <= LONG_MAX ==> r as int == a as int - b as int
  {
    WrapLong(a as int - b as int)
  }

  /** Kotlin `ms / 1000` on a `Long`: whole seconds, truncated toward zero. */
  function MillisToSeconds(ms: int64): (r: int64)
    ensures 0 <= ms ==> 0 <= r && r as int * 1000 <= ms as int < r as int * 1000 + 1000
    ensures ms < 0 ==> r <= 0 && r as int * 1000 - 1000 < ms as int <= r as int * 1000
  {
    if ms >= 0 then ms / 1000 else (-((-(ms as int)) / 1000)) as int64
  }
}
