/**
 Instants and durations as whole nanoseconds.

 A `java.time.LocalDateTime` reading becomes an integer instant and a
 `java.time.Duration` becomes the signed integer number of nanoseconds it
 spans. Integers are unbounded; the ranges of the Java types are wide enough
 that the differences taken here never overflow.
 */
module Time {

  const NanosPerMilli: int := 1_000_000
  const NanosPerSecond: int := 1_000_000_000

  /** `Duration.ofSeconds(s)` */
  function OfSeconds(s: int): int
  {
    s * NanosPerSecond
  }

  /** `Duration.between(start, end)`: negative when `end` lies before `start`. */
  function Between(start: int, end: int): int
  {
    end - start
  }

  /** `Duration.compareTo`: only the sign of the result is meaningful. */
  function Compare(a: int, b: int): (c: int)
    ensures c < 0 <==> a < b
    ensures c == 0 <==> a == b
    ensures c > 0 <==> a > b
  {
    if a < b then -1 else if a == b then 0 else 1
  }

  /**
   `Duration.toMillis`: the number of whole milliseconds, truncated toward
   zero (so that a negative duration rounds up, unlike Dafny's `/`).
   */
  function ToMillis(d: int): (m: int)
    ensures 0 <= d ==> 0 <= m && m * NanosPerMilli <= d < (m + 1) * NanosPerMilli
    ensures d < 0 ==> m <= 0 && (m - 1) * NanosPerMilli < d <= m * NanosPerMilli
  {
    if 0 <= d then d / NanosPerMilli else -((-d) / NanosPerMilli)
  }
}
