/**
 * Time of day, the exact Duration between two times, date-time arithmetic by
 * hours, and the calendar Period between two dates.
 */
module Spans {
  import opened TimeErrors
  import opened JavaMath
  import opened LocalDates

  // ---------------------------------------------------------------------------
  // LocalTime
  // ---------------------------------------------------------------------------

  // The nanosecond counts below are written as literals (one second is
  // 1_000_000_000 ns, a minute 60_000_000_000, an hour 3_600_000_000_000 and a
  // day 86_400_000_000_000) so that the arithmetic stays linear for the prover.

  datatype Time = Time(hour: int, minute: int, second: int, nano: int)

  predicate ValidTime(t: Time) {
    0 <= t.hour < 24 && 0 <= t.minute < 60 && 0 <= t.second < 60 && 0 <= t.nano < 1_000_000_000
  }

  /** A java.time.LocalTime: a time of day to the nanosecond. */
  type LocalTime = t: Time | ValidTime(t) witness Time(0, 0, 0, 0)

  /** LocalTime.of(hour, minute): seconds and nanoseconds are zero. */
  function LocalTimeOf(hour: int, minute: int): (r: Result<LocalTime>)
    ensures r.Ok? <==> 0 <= hour < 24 && 0 <= minute < 60
    ensures r.Ok? ==> r.value == Time(hour, minute, 0, 0)
  {
    if !(0 <= hour < 24) then Err(HourOutOfRange)
    else if !(0 <= minute < 60) then Err(MinuteOutOfRange)
    else var t: LocalTime := Time(hour, minute, 0, 0); Ok(t)
  }

  /** LocalTime.toNanoOfDay: nanoseconds since midnight. */
  function ToNanoOfDay(t: LocalTime): (n: int)
    ensures 0 <= n < 86_400_000_000_000
  {
    t.hour * 3_600_000_000_000 + t.minute * 60_000_000_000 + t.second * 1_000_000_000 + t.nano
  }

  /** LocalTime.ofNanoOfDay: splits a count of nanoseconds since midnight into fields. */
  function FromNanoOfDay(nanoOfDay: int): (t: LocalTime)
    requires 0 <= nanoOfDay < 86_400_000_000_000
    ensures ToNanoOfDay(t) == nanoOfDay
  {
    var hours := nanoOfDay / 3_600_000_000_000;
    var rest := nanoOfDay - hours * 3_600_000_000_000;
    var minutes := rest / 60_000_000_000;
    var rest' := rest - minutes * 60_000_000_000;
    var seconds := rest' / 1_000_000_000;
    Time(hours, minutes, seconds, rest' - seconds * 1_000_000_000)
  }

  lemma NanoOfDayInjective(a: LocalTime, b: LocalTime)
    requires ToNanoOfDay(a) == ToNanoOfDay(b)
    ensures a == b
  {
    var ra := a.minute * 60_000_000_000 + a.second * 1_000_000_000 + a.nano;
    var rb := b.minute * 60_000_000_000 + b.second * 1_000_000_000 + b.nano;
    assert (a.hour - b.hour) * 3_600_000_000_000 == rb - ra;
    assert a.hour == b.hour;
    assert (a.minute - b.minute) * 60_000_000_000 == (b.second - a.second) * 1_000_000_000 + b.nano - a.nano;
    assert a.minute == b.minute;
    assert (a.second - b.second) * 1_000_000_000 == b.nano - a.nano;
  }

  // ---------------------------------------------------------------------------
  // Duration
  // ---------------------------------------------------------------------------

  datatype DurationValue = DurationValue(seconds: int, nanos: int)

  /** A java.time.Duration: whole seconds (of either sign) and a nanosecond part in 0..999,999,999. */
  type Duration = d: DurationValue | 0 <= d.nanos < 1_000_000_000 witness DurationValue(0, 0)

  /** The exact length of a duration in nanoseconds. */
  function TotalNanos(d: Duration): int {
    d.seconds * 1_000_000_000 + d.nanos
  }

  /** Two durations of the same length are the same duration. */
  lemma TotalNanosInjective(a: Duration, b: Duration)
    requires TotalNanos(a) == TotalNanos(b)
    ensures a == b
  {
  }

  /** Duration.ofNanos: the truncated quotient, fixed up so that the nanosecond part is not negative. */
  function OfNanos(nanos: int): (d: Duration)
    ensures TotalNanos(d) == nanos
  {
    var secs := JavaDiv(nanos, 1_000_000_000);
    var nos := JavaRem(nanos, 1_000_000_000);
    if nos < 0 then DurationValue(secs - 1, nos + 1_000_000_000) else DurationValue(secs, nos)
  }

  /** Duration.ofSeconds(seconds, nanoAdjustment): the adjustment may be any number of nanoseconds. */
  function OfSeconds(seconds: int, nanoAdjustment: int): (d: Duration)
    ensures TotalNanos(d) == seconds * 1_000_000_000 + nanoAdjustment
  {
    DurationValue(seconds + nanoAdjustment / 1_000_000_000, nanoAdjustment % 1_000_000_000)
  }

  /** Duration.between(start, end) for two times of day: end minus start, negative if end is earlier. */
  function Between(start: LocalTime, end: LocalTime): (d: Duration)
    ensures TotalNanos(d) == ToNanoOfDay(end) - ToNanoOfDay(start)
  {
    OfNanos(ToNanoOfDay(end) - ToNanoOfDay(start))
  }

  /**
   * Duration.plus(duration): the lengths add up. (The library returns the
   * receiver itself when the argument is zero; that is the same value as the
   * general case computes, so the shortcut is not written out.)
   */
  function Plus(a: Duration, b: Duration): (r: Duration)
    ensures TotalNanos(r) == TotalNanos(a) + TotalNanos(b)
  {
    var epochSec := a.seconds + b.seconds + JavaDiv(b.nanos, 1_000_000_000);
    var nanosToAdd := JavaRem(b.nanos, 1_000_000_000);
    assert JavaDiv(b.nanos, 1_000_000_000) == 0 && nanosToAdd == b.nanos;
    OfSeconds(epochSec, a.nanos + nanosToAdd)
  }

  /** Spans between consecutive times add up to the span from the first to the last. */
  lemma BetweenAdditive(a: LocalTime, b: LocalTime, c: LocalTime)
    ensures Plus(Between(a, b), Between(b, c)) == Between(a, c)
  {
    TotalNanosInjective(Plus(Between(a, b), Between(b, c)), Between(a, c));
  }

  /** Duration.toHours: whole hours of the seconds part, truncated toward zero. */
  function ToHours(d: Duration): (h: int)
    ensures d.seconds >= 0 ==> h * 3600 <= d.seconds < h * 3600 + 3600
    ensures d.seconds < 0 ==> h * 3600 - 3600 < d.seconds <= h * 3600
  {
    JavaDiv(d.seconds, 3600)
  }

  /** Duration.toMinutes: whole minutes of the seconds part, truncated toward zero. */
  function ToMinutes(d: Duration): (m: int)
    ensures d.seconds >= 0 ==> m * 60 <= d.seconds < m * 60 + 60
    ensures d.seconds < 0 ==> m * 60 - 60 < d.seconds <= m * 60
  {
    JavaDiv(d.seconds, 60)
  }

  // ---------------------------------------------------------------------------
  // LocalDateTime
  // ---------------------------------------------------------------------------

  /** A java.time.LocalDateTime: a date and a time of day, with no time zone. */
  datatype LocalDateTime = LocalDateTime(date: LocalDate, time: LocalTime)

  /**
   * LocalDateTime.of(year, month, dayOfMonth, hour, minute): the date is
   * checked first, so an invalid date reports its own error whatever the time.
   */
  function LocalDateTimeOf(year: int, month: int, dayOfMonth: int, hour: int, minute: int): (r: Result<LocalDateTime>)
    ensures r.Ok? <==> Valid(Date(year, month, dayOfMonth)) && 0 <= hour < 24 && 0 <= minute < 60
    ensures r.Ok? ==> r.value == LocalDateTime(Date(year, month, dayOfMonth), Time(hour, minute, 0, 0))
    ensures !Valid(Date(year, month, dayOfMonth)) ==> r == Err(Of(year, month, dayOfMonth).error)
    ensures Valid(Date(year, month, dayOfMonth)) && r.Err? ==> r == Err(LocalTimeOf(hour, minute).error)
  {
    match Of(year, month, dayOfMonth)
    case Err(e) => Err(e)
    case Ok(date) =>
      match LocalTimeOf(hour, minute)
      case Err(e) => Err(e)
      case Ok(time) => Ok(LocalDateTime(date, time))
  }

  /** Nanoseconds since 1970-01-01T00:00, counting every day as 24 hours. */
  function EpochNanos(dt: LocalDateTime): int {
    ToEpochDay(dt.date) * 86_400_000_000_000 + ToNanoOfDay(dt.time)
  }

  lemma EpochNanosInjective(a: LocalDateTime, b: LocalDateTime)
    requires EpochNanos(a) == EpochNanos(b)
    ensures a == b
  {
    EpochDayInjective(a.date, b.date);
    NanoOfDayInjective(a.time, b.time);
  }

  /** LocalDateTime.plusHours: the time moves on and full days carry into the date. */
  function PlusHours(dt: LocalDateTime, hours: int): (r: LocalDateTime)
    ensures EpochNanos(r) == EpochNanos(dt) + hours * 3_600_000_000_000
  {
    if hours == 0 then dt
    else
      var curNoD := ToNanoOfDay(dt.time);
      var totNanos := curNoD + hours * 3_600_000_000_000;
      var newNoD := totNanos % 86_400_000_000_000;
      var newTime := if newNoD == curNoD then dt.time else FromNanoOfDay(newNoD);
      var newDate := PlusDays(dt.date, totNanos / 86_400_000_000_000);
      LocalDateTime(newDate, newTime)
  }

  /** Local date-time arithmetic knows nothing of time zones: 24 hours are always one day. */
  lemma TwentyFourHoursIsOneDay(dt: LocalDateTime)
    ensures PlusHours(dt, 24) == LocalDateTime(PlusDays(dt.date, 1), dt.time)
  {
    EpochNanosInjective(PlusHours(dt, 24), LocalDateTime(PlusDays(dt.date, 1), dt.time));
  }

  // ---------------------------------------------------------------------------
  // Period
  // ---------------------------------------------------------------------------

  /** A java.time.Period: years, months and days, each with its own sign, never normalised. */
  datatype Period = Period(years: int, months: int, days: int)

  /** Period.toTotalMonths. */
  function TotalMonths(p: Period): (n: int)
    ensures p.years >= 0 && 0 <= p.months < 12 ==> JavaDiv(n, 12) == p.years && JavaRem(n, 12) == p.months
    ensures p.years <= 0 && -12 < p.months <= 0 ==> JavaDiv(n, 12) == p.years && JavaRem(n, 12) == p.months
  {
    p.years * 12 + p.months
  }

  /** Period.between(start, end), that is start.until(end). */
  function PeriodBetween(start: LocalDate, end: LocalDate): (p: Period)
    ensures -12 < p.months < 12
    ensures !IsBefore(end, start) ==> p.years >= 0 && p.months >= 0 && p.days >= 0
  {
    var totalMonths := ProlepticMonth(end) - ProlepticMonth(start);
    var days := end.day - start.day;
    var m: int := if totalMonths > 0 && days < 0 then totalMonths - 1
      else if totalMonths < 0 && days > 0 then totalMonths + 1
      else totalMonths;
    var d: int := if totalMonths > 0 && days < 0 then ToEpochDay(end) - ToEpochDay(PlusMonths(start, m))
      else if totalMonths < 0 && days > 0 then days - LengthOfMonth(end.year, end.month)
      else days;
    PeriodSigns(start, end, m, d);
    Period(JavaDiv(m, 12), JavaRem(m, 12), d)
  }

  lemma PeriodSigns(start: LocalDate, end: LocalDate, m: int, d: int)
    requires var totalMonths := ProlepticMonth(end) - ProlepticMonth(start);
      var days := end.day - start.day;
      m == (if totalMonths > 0 && days < 0 then totalMonths - 1
        else if totalMonths < 0 && days > 0 then totalMonths + 1
        else totalMonths) &&
      d == (if totalMonths > 0 && days < 0 then ToEpochDay(end) - ToEpochDay(PlusMonths(start, m))
        else if totalMonths < 0 && days > 0 then days - LengthOfMonth(end.year, end.month)
        else days)
    ensures !IsBefore(end, start) ==> m >= 0 && d >= 0
  {
    var totalMonths := ProlepticMonth(end) - ProlepticMonth(start);
    ProlepticMonthOrder(end, start);
    if totalMonths > 0 && end.day < start.day {
      ProlepticMonthOrder(PlusMonths(start, m), end);
      EpochDayOrder(PlusMonths(start, m), end);
    } else if totalMonths == 0 {
      ProlepticMonthInjective(end, start);
    }
  }

  /** Period.addTo for a date: whole months first (with clamping), then days. */
  function AddTo(p: Period, d: LocalDate): (r: LocalDate)
    ensures r == PlusDays(PlusMonths(d, TotalMonths(p)), p.days)
  {
    var withMonths :=
      if p.years != 0 && p.months != 0 then PlusMonths(d, TotalMonths(p))
      else if p.years != 0 then PlusYears(d, p.years)
      else if p.months != 0 then PlusMonths(d, p.months)
      else d;
    PlusYearsIsTwelveMonths(d, p.years);
    assert withMonths == PlusMonths(d, TotalMonths(p));
    if p.days != 0 then PlusDays(withMonths, p.days) else withMonths
  }

  /** Adding the period between two ordered dates to the first one gives the second. */
  lemma PeriodBetweenRoundTrip(start: LocalDate, end: LocalDate)
    requires !IsBefore(end, start)
    ensures AddTo(PeriodBetween(start, end), start) == end
  {
    var p := PeriodBetween(start, end);
    var totalMonths := ProlepticMonth(end) - ProlepticMonth(start);
    assert TotalMonths(p) == (if totalMonths > 0 && end.day < start.day then totalMonths - 1 else totalMonths);
    var shifted := PlusMonths(start, TotalMonths(p));
    if totalMonths > 0 && end.day < start.day {
      EpochDayInjective(PlusDays(shifted, p.days), end);
    } else {
      ProlepticMonthOrder(end, start);
      ProlepticMonthInjective(shifted, end);
      assert shifted == Date(end.year, end.month, start.day);
      EpochDayInjective(PlusDays(shifted, p.days), end);
    }
  }
  /**
   * For dates in reverse order the round trip fails: from 2017-03-31 back to
   * 2017-02-28 the period is minus one month and three days, and adding it to
   * 2017-03-31 clamps to 2017-02-28 first and then lands on 2017-02-25.
   */
  lemma ReversedPeriodMissesEnd(start: LocalDate, end: LocalDate)
    requires start == Date(2017, 3, 31) && end == Date(2017, 2, 28)
    ensures PeriodBetween(start, end) == Period(0, -1, -3)
    ensures AddTo(PeriodBetween(start, end), start) == Date(2017, 2, 25) != end
  {
    assert PlusMonths(start, -1) == end;
    var landed: LocalDate := Date(2017, 2, 25);
    EpochDayInjective(PlusDays(end, -3), landed);
  }

}
