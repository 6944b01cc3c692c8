/** Go's fixed-width integers and the conversions the modelled code relies on.
    Dafny integers are unbounded, so every truncation, wrap-around and
    saturation of the Go code is written out here. */
module Ints {

  const TwoTo63: int := 0x8000_0000_0000_0000
  const TwoTo64: int := 0x1_0000_0000_0000_0000
  const MinInt64: int := -TwoTo63
  const MaxInt64: int := TwoTo63 - 1

  type byte = b: int | 0 <= b < 256
  type Int64 = x: int | MinInt64 <= x <= MaxInt64
  type Uint64 = x: int | 0 <= x < TwoTo64

  /** Go's conversion `uint64(x)` of an `int64`: two's-complement reinterpretation. */
  function Int64ToUint64(x: Int64): (u: Uint64)
    ensures (u - x) % TwoTo64 == 0
    ensures 0 <= x ==> u == x
  {
    if x < 0 then x + TwoTo64 else x
  }

  /** Go's conversion `int64(u)` of a `uint64`: two's-complement reinterpretation. */
  function Uint64ToInt64(u: Uint64): (x: Int64)
    ensures (u - x) % TwoTo64 == 0
    ensures u <= MaxInt64 ==> x == u
  {
    if u > MaxInt64 then u - TwoTo64 else u
  }

  /** Go's wrapping `int64` arithmetic: the unique `int64` congruent to `x` modulo 2^64. */
  function WrapInt64(x: int): (r: Int64)
    ensures (x - r) % TwoTo64 == 0
    ensures MinInt64 <= x <= MaxInt64 ==> r == x
  {
    (x + TwoTo63) % TwoTo64 - TwoTo63
  }

  /** Clamps `x` into the `int64` range, as `time.Time.Sub` does on overflow. */
  function SaturateInt64(x: int): (r: Int64)
    ensures MinInt64 <= x <= MaxInt64 ==> r == x
    ensures x > MaxInt64 ==> r == MaxInt64
    ensures x < MinInt64 ==> r == MinInt64
  {
    if x > MaxInt64 then MaxInt64 else if x < MinInt64 then MinInt64 else x
  }

  /** The two conversions between `int64` and `uint64` undo each other. */
  lemma Int64Uint64RoundTrip(x: Int64, u: Uint64)
    ensures Uint64ToInt64(Int64ToUint64(x)) == x
    ensures Int64ToUint64(Uint64ToInt64(u)) == u
  {
  }
}
