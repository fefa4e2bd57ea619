/** `std::time::Duration` and the subtitle `TimeRange`. */
module Times {

  const NANOS_PER_SEC: nat := 1_000_000_000
  const NANOS_PER_MILLI: nat := 1_000_000

  /** The largest whole-second count a `Duration` can hold (`u64::MAX`). */
  const MAX_SECS: nat := 0xFFFF_FFFF_FFFF_FFFF

  /** `Duration::MAX`: `u64::MAX` seconds and 999 999 999 nanoseconds. */
  const DURATION_MAX: nat := MAX_SECS * NANOS_PER_SEC + (NANOS_PER_SEC - 1)

  /** A duration, counted in nanoseconds. `Duration::default()` is 0. */
  type Duration = d: int | 0 <= d <= DURATION_MAX

  /** `Duration::as_secs`: the whole seconds. */
  function AsSecs(d: Duration): (s: nat)
    ensures s <= MAX_SECS
    ensures s * NANOS_PER_SEC <= d < (s + 1) * NANOS_PER_SEC
  {
    d / NANOS_PER_SEC
  }

  /** `Duration::subsec_millis`: the whole milliseconds past the last second. */
  function SubsecMillis(d: Duration): (ms: nat)
    ensures ms < 1000
    ensures AsSecs(d) * NANOS_PER_SEC + ms * NANOS_PER_MILLI <= d
    ensures d < AsSecs(d) * NANOS_PER_SEC + (ms + 1) * NANOS_PER_MILLI
  {
    (d % NANOS_PER_SEC) / NANOS_PER_MILLI
  }

  datatype TimeRange = TimeRange(begin: Duration, end: Duration)
}
