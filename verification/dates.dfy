/**
 * Instants as whole Unix seconds, and the "days ago" measure that
 * `ImportRider` (zp/zp.go) uses to place an event in a trailing window.
 */
module Dates {

  const SecondsPerDay: int := 86400

  /** Go's zero `time.Time` (January 1, year 1, UTC) in Unix seconds. */
  const ZeroTime: int := -62135596800

  const MinInt64: int := -0x8000_0000_0000_0000
  const MaxInt64: int := 0x7FFF_FFFF_FFFF_FFFF

  type Int64 = v: int | MinInt64 <= v <= MaxInt64

  /**
   * The instant of `time.Unix(secs, 0)`, in Unix seconds. Go keeps a
   * `time.Time` as an int64 count of seconds since the zero time, so
   * `secs - ZeroTime` wraps around 2^64 for the largest inputs, and the
   * instant lands before year 1.
   */
  function UnixTime(secs: Int64): (t: int)
    ensures MinInt64 <= t - ZeroTime <= MaxInt64
    ensures secs <= MaxInt64 + ZeroTime ==> t == secs
    ensures secs > MaxInt64 + ZeroTime ==> t == secs - 0x1_0000_0000_0000_0000 && t < ZeroTime
  {
    var sinceZero := secs - ZeroTime;
    var wrapped := if sinceZero > MaxInt64 then sinceZero - 0x1_0000_0000_0000_0000 else sinceZero;
    wrapped + ZeroTime
  }

  /**
   * Whole 24-hour periods from `date` to `now`, truncated toward zero:
   * an event less than a day in the future is 0 days ago, one at least
   * a day in the future is a negative number of days ago.
   */
  function DaysAgo(now: int, date: int): (d: int)
    ensures now >= date ==> 0 <= d && d * SecondsPerDay <= now - date < (d + 1) * SecondsPerDay
    ensures now < date ==> d <= 0 && -d * SecondsPerDay <= date - now < (-d + 1) * SecondsPerDay
  {
    var elapsed := now - date;
    if elapsed >= 0 then elapsed / SecondsPerDay else -((-elapsed) / SecondsPerDay)
  }

  /**
   * The window test `daysAgo <= n` is inclusive: it admits exactly the
   * events less than n + 1 whole days old, future events included.
   */
  lemma WithinDays(now: int, date: int, n: nat)
    ensures DaysAgo(now, date) <= n <==> now - date < (n + 1) * SecondsPerDay
  {
    var d := DaysAgo(now, date);
    if now >= date {
      if d <= n {
        assert (d + 1) * SecondsPerDay <= (n + 1) * SecondsPerDay;
      } else {
        assert (n + 1) * SecondsPerDay <= d * SecondsPerDay;
      }
    }
  }

  /** An event exactly n days old is inside the n-day window; one n + 1 days old is not. */
  lemma WindowBoundary(now: int, n: nat)
    ensures DaysAgo(now, now - n * SecondsPerDay) <= n
    ensures !(DaysAgo(now, now - (n + 1) * SecondsPerDay) <= n)
  {
    WithinDays(now, now - n * SecondsPerDay, n);
    WithinDays(now, now - (n + 1) * SecondsPerDay, n);
  }

  /** An event dated after `now` lies in every window; one a full day or more ahead has negative age. */
  lemma FutureInEveryWindow(now: int, date: int, n: nat)
    requires date > now
    ensures DaysAgo(now, date) <= 0 <= n
    ensures date >= now + SecondsPerDay ==> DaysAgo(now, date) < 0
  {
  }

  /**
   * An `event_date` whose instant wraps lies more than a year in the past
   * of any clock reading after year 1, so no window admits it.
   */
  lemma WrappedDateInNoWindow(now: int, secs: Int64, n: nat)
    requires now >= ZeroTime && n <= 365
    requires secs > MaxInt64 + ZeroTime
    ensures UnixTime(secs) < ZeroTime
    ensures DaysAgo(now, UnixTime(secs)) > n
  {
    var t := UnixTime(secs);
    assert now - t >= 366 * SecondsPerDay;
    WithinDays(now, t, n);
  }
}
