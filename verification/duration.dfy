/**
 Go's `time.Duration`: a signed 64-bit count of nanoseconds, with the
 two's-complement wrap-around of Go's integer arithmetic written out.
 */
module Duration {

  const TWO_63: int := 0x8000_0000_0000_0000
  const TWO_64: int := 0x1_0000_0000_0000_0000

  /** Go's `int64` (and `int` on 64-bit platforms). */
  newtype int64 = x: int | -0x8000_0000_0000_0000 <= x < 0x8000_0000_0000_0000

  /** `time.Second`, in nanoseconds. */
  const Second: int64 := 1_000_000_000

  /** The largest whole number of seconds whose duration fits in an `int64`. */
  const MaxSeconds: int := 9_223_372_036

  /** Reduce a mathematical integer to the `int64` Go's arithmetic yields. */
  function Wrap(x: int): (r: int64)
    ensures (r as int - x) % TWO_64 == 0
    ensures -TWO_63 <= x < TWO_63 ==> r as int == x
  {
    ((x + TWO_63) % TWO_64 - TWO_63) as int64
  }

  /**
   The submit interval built from the `-interval` flag:
   `time.Duration(seconds) * time.Second`, an `int64` product that wraps.
   */
  function SubmitInterval(seconds: int64): (d: int64)
    ensures -MaxSeconds <= seconds as int <= MaxSeconds ==> d as int == seconds as int * Second as int
    ensures (d as int - seconds as int * Second as int) % TWO_64 == 0
  {
    Wrap(seconds as int * Second as int)
  }

  /** The default flag value of 30 seconds is thirty billion nanoseconds. */
  lemma DefaultInterval()
    ensures SubmitInterval(30) == 30_000_000_000
  {
  }

  /**
   One second past `MaxSeconds` the product wraps to a negative duration,
   so a very large `-interval` flag yields an interval below zero.
   */
  lemma HugeIntervalWraps()
    ensures SubmitInterval((MaxSeconds + 1) as int64) < 0
  {
  }
}
