/**
 * `Rider.MonthsAgo` (zp/zp.go): a phrase saying how long ago the rider's
 * latest event was.
 */
module Recency {
  import opened Wrappers
  import opened Dates
  import Aggregate

  function DigitChar(d: nat): char
    requires d < 10
  {
    "0123456789"[d]
  }

  /** The decimal digits of `n`, as `%d` prints a non-negative number: no leading zero. */
  function Decimal(n: nat): (s: string)
    ensures |s| > 0
    ensures forall i :: 0 <= i < |s| ==> '0' <= s[i] <= '9'
    ensures s[0] == '0' ==> n == 0 && s == "0"
  {
    if n < 10 then [DigitChar(n)] else Decimal(n / 10) + [DigitChar(n % 10)]
  }

  /** The number a string of decimal digits denotes. */
  function DecimalValue(s: string): nat
    decreases |s|
  {
    if s == [] then 0
    else
      var last := s[|s| - 1];
      DecimalValue(s[..|s| - 1]) * 10 + (if '0' <= last <= '9' then (last - '0') as nat else 0)
  }

  /** Printing a number in decimal and reading it back gives the number. */
  lemma {:induction false} DecimalRoundTrip(n: nat)
    ensures DecimalValue(Decimal(n)) == n
  {
    if n >= 10 {
      DecimalRoundTrip(n / 10);
      var s := Decimal(n);
      assert s[..|s| - 1] == Decimal(n / 10);
    }
  }

  const ThisMonth := "This month"
  const LastMonth := "Last month"
  const MonthsAgoSuffix := " months ago"

  /**
   * The phrase for the rider's latest event. Go reads the clock and the
   * calendar months of the two dates; here `now` and the two months
   * (1 for January through 12 for December) are given.
   */
  function MonthsAgo(rider: Aggregate.Rider, now: int, nowMonth: int, eventMonth: int): (phrase: string)
    requires 1 <= nowMonth <= 12 && 1 <= eventMonth <= 12
    ensures rider.latestEventDate == ZeroTime ==> phrase == "No latest event"
    ensures rider.latestEventDate != ZeroTime && now - rider.latestEventDate > 365 * SecondsPerDay ==>
      phrase == "Over a year ago"
    ensures rider.latestEventDate != ZeroTime && now - rider.latestEventDate <= 365 * SecondsPerDay ==>
      var k := (nowMonth - eventMonth) % 12;
      && (k == 0 ==> phrase == ThisMonth)
      && (k == 1 ==> phrase == LastMonth)
      && (k >= 2 ==> phrase == Decimal(k) + MonthsAgoSuffix)
  {
    if rider.latestEventDate == ZeroTime then "No latest event"
    else if now - rider.latestEventDate > 365 * SecondsPerDay then "Over a year ago"
    else
      var monthDiff := nowMonth - eventMonth;
      var monthDiff := if monthDiff < 0 then monthDiff + 12 else monthDiff;
      assert monthDiff == (nowMonth - eventMonth) % 12;
      if monthDiff == 0 then ThisMonth
      else if monthDiff == 1 then LastMonth
      else Decimal(monthDiff) + MonthsAgoSuffix
  }

  /** Reads a month count back from a phrase of the third kind. */
  function MonthsFromPhrase(phrase: string): Option<nat> {
    if phrase == ThisMonth then Some(0)
    else if phrase == LastMonth then Some(1)
    else if |phrase| > |MonthsAgoSuffix| && phrase[|phrase| - |MonthsAgoSuffix|..] == MonthsAgoSuffix
    then Some(DecimalValue(phrase[..|phrase| - |MonthsAgoSuffix|]))
    else None
  }

  /** A phrase "k months ago" reads back as k. */
  lemma CountPhraseIsReadable(k: nat)
    requires k >= 2
    ensures MonthsFromPhrase(Decimal(k) + MonthsAgoSuffix) == Some(k)
  {
    DecimalRoundTrip(k);
    var digits := Decimal(k);
    var phrase := digits + MonthsAgoSuffix;
    assert phrase[..|phrase| - |MonthsAgoSuffix|] == digits;
    assert phrase[|phrase| - |MonthsAgoSuffix|..] == MonthsAgoSuffix;
    assert phrase != ThisMonth by {
      assert phrase[0] == digits[0];
      assert '0' <= digits[0] <= '9';
    }
    assert phrase != LastMonth by {
      assert phrase[0] == digits[0];
      assert '0' <= digits[0] <= '9';
    }
  }

  /**
   * Within the year, the phrase tells the calendar-month difference back
   * exactly, so distinct differences give distinct phrases.
   */
  lemma MonthsAgoIsReadable(rider: Aggregate.Rider, now: int, nowMonth: int, eventMonth: int)
    requires 1 <= nowMonth <= 12 && 1 <= eventMonth <= 12
    requires rider.latestEventDate != ZeroTime && now - rider.latestEventDate <= 365 * SecondsPerDay
    ensures MonthsFromPhrase(MonthsAgo(rider, now, nowMonth, eventMonth)) == Some((nowMonth - eventMonth) % 12)
  {
    var k := (nowMonth - eventMonth) % 12;
    if k >= 2 {
      CountPhraseIsReadable(k);
    }
  }

  // ---------------------------------------------------------------------
  // The month difference wraps at twelve
  // ---------------------------------------------------------------------

  /** 2023-03-01 00:00 UTC and 2022-03-31 00:00 UTC in Unix seconds. */
  const FirstOfMarch2023 := 1677628800
  const LastOfMarch2022 := 1648684800

  /**
   * As written, an event 335 days old that fell in the same calendar
   * month a year earlier reads "This month".
   */
  lemma ElevenMonthsOldReadsThisMonth(rider: Aggregate.Rider)
    requires rider.latestEventDate == LastOfMarch2022
    ensures FirstOfMarch2023 - rider.latestEventDate == 335 * SecondsPerDay
    ensures MonthsAgo(rider, FirstOfMarch2023, 3, 3) == ThisMonth
    ensures MonthsAgoCalendar(rider, FirstOfMarch2023, 2023, 3, 2022, 3) == Decimal(12) + MonthsAgoSuffix
  {
  }

  /** Calendar months from (eventYear, eventMonth) to (nowYear, nowMonth), without wrapping. */
  function MonthsBetween(nowYear: int, nowMonth: int, eventYear: int, eventMonth: int): int {
    (nowYear - eventYear) * 12 + nowMonth - eventMonth
  }

  /**
   * `MonthsAgo` with the years taken into account: the month count is the
   * calendar-month difference itself, and an event dated in a later month
   * than `now` reads "This month".
   */
  function MonthsAgoCalendar(rider: Aggregate.Rider, now: int, nowYear: int, nowMonth: int, eventYear: int, eventMonth: int)
    : (phrase: string)
    requires 1 <= nowMonth <= 12 && 1 <= eventMonth <= 12
    ensures rider.latestEventDate == ZeroTime ==> phrase == "No latest event"
    ensures rider.latestEventDate != ZeroTime && now - rider.latestEventDate > 365 * SecondsPerDay ==>
      phrase == "Over a year ago"
    ensures rider.latestEventDate != ZeroTime && now - rider.latestEventDate <= 365 * SecondsPerDay ==>
      var k := MonthsBetween(nowYear, nowMonth, eventYear, eventMonth);
      && (k <= 0 ==> phrase == ThisMonth)
      && (k == 1 ==> phrase == LastMonth)
      && (k >= 2 ==> phrase == Decimal(k) + MonthsAgoSuffix)
  {
    if rider.latestEventDate == ZeroTime then "No latest event"
    else if now - rider.latestEventDate > 365 * SecondsPerDay then "Over a year ago"
    else
      var monthDiff := MonthsBetween(nowYear, nowMonth, eventYear, eventMonth);
      if monthDiff <= 0 then ThisMonth
      else if monthDiff == 1 then LastMonth
      else Decimal(monthDiff) + MonthsAgoSuffix
  }

  /**
   * Within the year, the corrected phrase tells the calendar-month
   * difference back exactly, however many years it spans.
   */
  lemma MonthsAgoCalendarIsReadable(rider: Aggregate.Rider, now: int, nowYear: int, nowMonth: int, eventYear: int, eventMonth: int)
    requires 1 <= nowMonth <= 12 && 1 <= eventMonth <= 12
    requires rider.latestEventDate != ZeroTime && now - rider.latestEventDate <= 365 * SecondsPerDay
    requires MonthsBetween(nowYear, nowMonth, eventYear, eventMonth) >= 0
    ensures MonthsFromPhrase(MonthsAgoCalendar(rider, now, nowYear, nowMonth, eventYear, eventMonth))
         == Some(MonthsBetween(nowYear, nowMonth, eventYear, eventMonth))
  {
    var k := MonthsBetween(nowYear, nowMonth, eventYear, eventMonth);
    if k >= 2 {
      CountPhraseIsReadable(k);
    }
  }

  /** The two agree whenever the event is zero to eleven calendar months old. */
  lemma CalendarAgreesBelowTwelveMonths(rider: Aggregate.Rider, now: int, nowYear: int, nowMonth: int, eventYear: int, eventMonth: int)
    requires 1 <= nowMonth <= 12 && 1 <= eventMonth <= 12
    requires 0 <= MonthsBetween(nowYear, nowMonth, eventYear, eventMonth) < 12
    ensures MonthsAgoCalendar(rider, now, nowYear, nowMonth, eventYear, eventMonth)
         == MonthsAgo(rider, now, nowMonth, eventMonth)
  {
    assert (nowMonth - eventMonth) % 12 == MonthsBetween(nowYear, nowMonth, eventYear, eventMonth);
  }
}
