/**
 * Timestamps and the integer conversions the tracker applies to time differences.
 *
 * Python datetimes have microsecond resolution, so a time is an integer number of
 * microseconds on a common epoch. Dafny's `/` is Euclidean; the conversions below
 * spell out Python's `int(...)` (truncation toward zero), SQL `round` (half away
 * from zero) and `floor`.
 */
module Clock {
  /** Microseconds since an arbitrary common epoch. */
  type Time = int

  /** The contracts below write this factor out as a literal, which keeps the arithmetic linear. */
  const TicksPerSecond: int := 1_000_000

  /** `int(delta.total_seconds())`: whole seconds, rounded toward zero. */
  function TruncSeconds(d: int): (s: int)
    ensures d >= 0 ==> 0 <= s * 1_000_000 <= d < s * 1_000_000 + 1_000_000
    ensures d < 0 ==> s * 1_000_000 - 1_000_000 < d <= s * 1_000_000 <= 0
  {
    if d >= 0 then d / 1_000_000 else -((-d) / 1_000_000)
  }

  /** `int(delta.total_seconds() / 60)`: whole minutes, rounded toward zero. */
  function TruncMinutes(d: int): (m: int)
    ensures d >= 0 ==> 0 <= m * 60_000_000 <= d < m * 60_000_000 + 60_000_000
    ensures d < 0 ==> m * 60_000_000 - 60_000_000 < d <= m * 60_000_000 <= 0
  {
    if d >= 0 then d / 60_000_000 else -((-d) / 60_000_000)
  }

  /** SQL `round(x)` of the difference in seconds: nearest whole second, halves away from zero. */
  function RoundSeconds(d: int): (s: int)
    ensures -1_000_000 <= 2 * (d - s * 1_000_000) <= 1_000_000
    ensures 2 * (d - s * 1_000_000) == 1_000_000 ==> d < 0
    ensures 2 * (d - s * 1_000_000) == -1_000_000 ==> d > 0
  {
    if d >= 0 then (2 * d + 1_000_000) / (2 * 1_000_000)
    else -((-2 * d + 1_000_000) / (2 * 1_000_000))
  }

  /** SQL `floor(delta.total_seconds())`: the greatest whole second not above `d`. */
  function FloorSeconds(d: int): (s: int)
    ensures s * 1_000_000 <= d < s * 1_000_000 + 1_000_000
  {
    d / 1_000_000
  }
}
