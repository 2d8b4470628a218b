/**
 * The store's timestamps: an integer count of nanosecond ticks since
 * 2001-01-01T00:00:00Z.  The loader turns them into Unix time by dividing by
 * `10e8` (that is 10^9) and adding the Unix time of the 2001 epoch; the
 * renderer only ever looks at the UTC calendar day of the result.
 *
 * The arithmetic here is exact (Dafny `real`); the rounding of Python floats
 * and of `datetime.utcfromtimestamp` to microseconds is not modelled.
 */
module TimeCodec {

  /** Unix time of 2001-01-01T00:00:00Z, the store's reference epoch. */
  const Epoch2001: int := 978307200

  /** The divisor `10e8` (= 10^9): ticks per second. */
  const TicksPerSecond: real := 1000000000.0

  const SecondsPerDay: int := 86400

  /** `978307200 + ticks / 10e8`: seconds since 1970-01-01T00:00:00Z. */
  function UnixSeconds(ticks: int): real {
    Epoch2001 as real + ticks as real / TicksPerSecond
  }

  /** `utcfromtimestamp(...).date()` as a day number counted from 1970-01-01 (day 0). */
  function UtcDay(ticks: int): (day: int)
    ensures (day * SecondsPerDay) as real <= UnixSeconds(ticks) < ((day + 1) * SecondsPerDay) as real
  {
    (UnixSeconds(ticks) / SecondsPerDay as real).Floor
  }

  /** More ticks is a later instant: decoding is strictly monotone. */
  lemma UnixSecondsMonotone(a: int, b: int)
    requires a < b
    ensures UnixSeconds(a) < UnixSeconds(b)
  {
  }

  /** A later instant never falls on an earlier calendar day. */
  lemma UtcDayMonotone(a: int, b: int)
    requires a <= b
    ensures UtcDay(a) <= UtcDay(b)
  {
    if a < b {
      UnixSecondsMonotone(a, b);
    }
  }

  /** Tick 0 is midnight at the start of 2001-01-01, day 11323 of the Unix calendar. */
  lemma EpochDay()
    ensures UnixSeconds(0) == 978307200.0
    ensures UtcDay(0) == 11323
  {
    assert 11323 * SecondsPerDay == Epoch2001;
  }
}
