/**
 * Wall-clock instants and the `timedelta.seconds` component that the recorder
 * compares against its thresholds.
 */
module Clock {
  const MicrosPerSecond: int := 1000000
  const SecondsPerDay: int := 86400

  /** Days from 0001-01-01 to 10000-01-01 in the proleptic Gregorian calendar. */
  const DaysInRange: int := 3652059

  /**
   * An instant of `datetime.datetime`, counted in microseconds since
   * 0001-01-01T00:00:00 (naive local time). Python's datetime cannot go past
   * the last microsecond of year 9999.
   */
  type Instant = t: int | 0 <= t < DaysInRange * SecondsPerDay * MicrosPerSecond

  /**
   * `(later - earlier).seconds`: a timedelta keeps days, seconds in [0, 86400)
   * and microseconds; `.seconds` is only the middle part, so whole days are
   * dropped and a negative difference wraps around to the previous day.
   */
  function SecondsComponent(later: int, earlier: int): (s: int)
    ensures 0 <= s < SecondsPerDay
  {
    ((later - earlier) / MicrosPerSecond) % SecondsPerDay
  }

  /** Within one day the component is the number of whole seconds elapsed. */
  lemma SecondsComponentWithinDay(later: int, earlier: int)
    requires 0 <= later - earlier < SecondsPerDay * MicrosPerSecond
    ensures SecondsComponent(later, earlier) == (later - earlier) / MicrosPerSecond
    ensures SecondsComponent(later, earlier) < 1 <==> later - earlier < MicrosPerSecond
  {
    var q := (later - earlier) / MicrosPerSecond;
    assert 0 <= q < SecondsPerDay;
  }

  /** Whole days are invisible: a gap of one day and `d` looks exactly like `d`. */
  lemma SecondsComponentDropsDays(later: int, earlier: int, days: int)
    ensures SecondsComponent(later + days * SecondsPerDay * MicrosPerSecond, earlier)
         == SecondsComponent(later, earlier)
  {
    var d := later - earlier;
    var q := d / MicrosPerSecond;
    assert d == q * MicrosPerSecond + d % MicrosPerSecond;
    var d' := d + days * SecondsPerDay * MicrosPerSecond;
    assert d' == (q + days * SecondsPerDay) * MicrosPerSecond + d % MicrosPerSecond;
    assert d' / MicrosPerSecond == q + days * SecondsPerDay;
    assert (q + days * SecondsPerDay) % SecondsPerDay == q % SecondsPerDay;
  }

  /** A clock that went back by less than a second reads as 86399 seconds. */
  lemma SecondsComponentOfNegative(later: int, earlier: int)
    requires -MicrosPerSecond <= later - earlier < 0
    ensures SecondsComponent(later, earlier) == SecondsPerDay - 1
  {
  }
}
