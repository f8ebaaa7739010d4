/**
 * The facts the test class asserts, stated on the model. A lemma may gather
 * several assertions of one test method, and a few helper lemmas at the top
 * state no assertion of their own.
 */
module Examples {
  import opened TimeErrors
  import opened LocalDates
  import opened Adjusters
  import opened Payday
  import opened Spans
  import opened DateText
  import opened Decimal

  // Many lemmas take the test's local variables as parameters fixed by their
  // requires clause, so that the prover reasons from the dates' epoch days
  // instead of evaluating the calendar search on constants; the others state
  // their facts on constants directly.

  /** Adding days lands on the date whose epoch day is that many days later. */
  lemma PlusDaysIs(d: LocalDate, days: int, expected: LocalDate)
    requires ToEpochDay(d) + days == ToEpochDay(expected)
    ensures PlusDays(d, days) == expected
  {
    EpochDayInjective(PlusDays(d, days), expected);
  }

  /** Adding weeks lands on the date whose epoch day is seven days a week later. */
  lemma PlusWeeksIs(d: LocalDate, weeks: int, expected: LocalDate)
    requires ToEpochDay(d) + 7 * weeks == ToEpochDay(expected)
    ensures PlusWeeks(d, weeks) == expected
  {
    EpochDayInjective(PlusWeeks(d, weeks), expected);
  }

  /** A date prints as the text that parses to it (the round trip of DateText). */
  lemma PrintsAs(d: LocalDate, s: string)
    requires Parse(s) == Ok(d)
    ensures ToString(d) == s
  {
    ToStringParse(s);
  }

  /** A date-time prints as its date's text, the letter T and its time's text. */
  lemma PrintsAsDateTime(dt: LocalDateTime, dateText: string, timeText: string)
    requires Parse(dateText) == Ok(dt.date) && TimeText(dt.time) == timeText
    ensures DateTimeText(dt) == dateText + "T" + timeText
  {
    ToStringParse(dateText);
  }

  /** A time on a whole minute prints as its two-digit hour and minute and ":00". */
  lemma PrintsAsWholeMinute(t: LocalTime, text: string)
    requires t.second == 0 && t.nano == 0
    requires text == Digits2(t.hour) + ":" + Digits2(t.minute) + ":00"
    ensures TimeText(t) == text
  {
  }

  /** testDate: LocalDate.of(2017, FEBRUARY, 17) prints as "2017-02-17"; February 31st does not exist. */
  lemma TestDate(customDate: LocalDate)
    requires customDate == Date(2017, 2, 17)
    ensures Of(2017, 2, 17) == Ok(customDate)
    ensures ToString(customDate) == "2017-02-17"
    ensures customDate.month == 2
    ensures Of(2017, 2, 31) == Err(DayBeyondMonthLength)
  {
    PrintsAs(customDate, "2017-02-17");
  }

  /** testDateMath: plusYears from February 29th clamps to February 28th of the next year. */
  lemma TestDateMathPlusYears(customDate: LocalDate)
    requires customDate == Date(2016, 2, 29)
    ensures ToString(PlusYears(customDate, 1)) == "2017-02-28"
  {
    PrintsAs(PlusYears(customDate, 1), "2017-02-28");
  }

  /** testDateMath: 366 days after 2016-02-29 is 2017-03-01, counted exactly. */
  lemma TestDateMathPlusDays(customDate: LocalDate)
    requires customDate == Date(2016, 2, 29)
    ensures PlusDays(customDate, 366) == Date(2017, 3, 1)
  {
    PlusDaysIs(customDate, 366, Date(2017, 3, 1));
  }

  /** testDateMath: the result of plusDays(366) as text. */
  lemma TestDateMathPlusDaysText(march1st: LocalDate)
    requires march1st == Date(2017, 3, 1)
    ensures ToString(march1st) == "2017-03-01"
  {
    PrintsAs(march1st, "2017-03-01");
  }

  /** testDateMath: a month after January 31st 2016 is the last day of February, the 29th. */
  lemma TestDateMathPlusMonths(lastDateInJanuary: LocalDate)
    requires lastDateInJanuary == Date(2016, 1, 31)
    ensures Parse("2016-02-29") == Ok(PlusMonths(lastDateInJanuary, 1))
  {
  }

  /** testDateMath: a year and then a month after January 31st 2016 is February 28th 2017. */
  lemma TestDateMathPlusYearsPlusMonths(lastDateInJanuary: LocalDate)
    requires lastDateInJanuary == Date(2016, 1, 31)
    ensures Parse("2017-02-28") == Ok(PlusMonths(PlusYears(lastDateInJanuary, 1), 1))
  {
  }

  /** Local date-time arithmetic knows no time zone: 24 hours later is the next day at the same time. */
  lemma NextDaySameTime(dt: LocalDateTime, next: LocalDate)
    requires ToEpochDay(dt.date) + 1 == ToEpochDay(next)
    ensures PlusHours(dt, 24) == LocalDateTime(next, dt.time)
  {
    TwentyFourHoursIsOneDay(dt);
    PlusDaysIs(dt.date, 1, next);
  }

  /** testTimeMath: a local date-time is printed as ISO_LOCAL_DATE_TIME. */
  lemma TestTimeMathText(customDateTime: LocalDateTime)
    requires customDateTime == LocalDateTime(Date(2017, 7, 25), Time(21, 39, 0, 0))
    ensures DateTimeText(customDateTime) == "2017-07-25T21:39:00"
  {
    PrintsAsWholeMinute(customDateTime.time, "21:39:00");
    PrintsAsDateTime(customDateTime, "2017-07-25", "21:39:00");
  }

  /** testTimeMath: 24 hours after 2017-07-25T21:39 is the same time the next day. */
  lemma TestTimeMathPlusHours(customDateTime: LocalDateTime)
    requires customDateTime == LocalDateTime(Date(2017, 7, 25), Time(21, 39, 0, 0))
    ensures LocalDateTimeOf(2017, 7, 25, 21, 39) == Ok(customDateTime)
    ensures PlusHours(customDateTime, 24) == LocalDateTime(Date(2017, 7, 26), Time(21, 39, 0, 0))
  {
    NextDaySameTime(customDateTime, Date(2017, 7, 26));
  }

  /**
   * testTimeMath: a local date-time has no time zone, so 24 hours after noon on
   * the eve of a daylight-saving change is still noon the next day.
   */
  lemma TestTimeMathAcrossDstStart(dstStart: LocalDateTime)
    requires dstStart == LocalDateTime(Date(2017, 3, 25), Time(12, 0, 0, 0))
    ensures LocalDateTimeOf(2017, 3, 25, 12, 0) == Ok(dstStart)
    ensures PlusHours(dstStart, 24) == LocalDateTime(Date(2017, 3, 26), Time(12, 0, 0, 0))
  {
    NextDaySameTime(dstStart, Date(2017, 3, 26));
  }

  /** testTimeMath: the result of plusHours(24) as ISO_LOCAL_DATE_TIME text. */
  lemma TestTimeMathPlusHoursText(later: LocalDateTime)
    requires later == LocalDateTime(Date(2017, 7, 26), Time(21, 39, 0, 0))
    ensures DateTimeText(later) == "2017-07-26T21:39:00"
  {
    PrintsAsWholeMinute(later.time, "21:39:00");
    PrintsAsDateTime(later, "2017-07-26", "21:39:00");
  }

  /** testTimeMath: the result of plusHours(24) across the daylight-saving change, as text. */
  lemma TestTimeMathAcrossDstStartText(later: LocalDateTime)
    requires later == LocalDateTime(Date(2017, 3, 26), Time(12, 0, 0, 0))
    ensures DateTimeText(later) == "2017-03-26T12:00:00"
  {
    PrintsAsWholeMinute(later.time, "12:00:00");
    PrintsAsDateTime(later, "2017-03-26", "12:00:00");
  }

  /** testWithTemporalAdjusters: two weeks after 2017-07-25 is 2017-08-08. */
  lemma TestWithTemporalAdjustersPlusWeeks(startDate: LocalDate)
    requires startDate == Date(2017, 7, 25)
    ensures PlusWeeks(startDate, 2) == Date(2017, 8, 8)
  {
    PlusWeeksIs(startDate, 2, Date(2017, 8, 8));
  }

  /** testWithTemporalAdjusters: the next Friday after Tuesday 2017-08-08 is 2017-08-11. */
  lemma TestWithTemporalAdjustersNextFriday(endDate: LocalDate)
    requires endDate == Date(2017, 8, 8)
    ensures Next(endDate, Friday) == Date(2017, 8, 11)
  {
    assert Value(DayOfWeekOf(endDate)) == 2;
    PlusDaysIs(endDate, 3, Date(2017, 8, 11));
  }

  /** testWithTemporalAdjusters: the expected texts parse to those two dates. */
  lemma TestWithTemporalAdjustersTexts()
    ensures Parse("2017-08-08") == Of(2017, 8, 8)
    ensures Parse("2017-08-11") == Of(2017, 8, 11)
  {
  }

  /** testMonthDay: February 29th is a valid month-day, valid in 2016 and not in 2017. */
  lemma TestMonthDay()
    ensures MonthDayOf(2, 29).Ok?
    ensures !IsValidYear(MonthDayOf(2, 29).value, 2017)
    ensures IsValidYear(MonthDayOf(2, 29).value, 2016)
  {
  }

  /** testCustomTemporalAdjuster: the payday adjuster on three June 2017 dates. */
  lemma TestCustomTemporalAdjuster(date: LocalDate, earlier: LocalDate, later: LocalDate)
    requires date == Date(2017, 6, 9) && earlier == Date(2017, 6, 3) && later == Date(2017, 6, 10)
    ensures AdjustInto(date) == date
    ensures AdjustInto(earlier) == date
    ensures AdjustInto(later) == Date(2017, 7, 11)
  {
    JuneAndJulyPaydays(Date(2017, 6, 11), Date(2017, 7, 11));
    MonthPlusOne(6);
  }

  /** The 11th of June 2017 is a Sunday, so June's payday is Friday the 9th; July's 11th is a Tuesday. */
  lemma JuneAndJulyPaydays(june11th: LocalDate, july11th: LocalDate)
    requires june11th == Date(2017, 6, 11) && july11th == Date(2017, 7, 11)
    ensures PaydayOf(2017, 6) == Date(2017, 6, 9)
    ensures PaydayOf(2017, 7) == Date(2017, 7, 11)
  {
    assert DayOfWeekOf(june11th) == Sunday;
    assert DayOfWeekOf(july11th) == Tuesday;
  }

  /** testCustomTemporalQuery: 2017-06-09 is a Friday and a workday, the day after is not. */
  lemma TestCustomTemporalQuery()
    ensures DayOfWeekOf(Of(2017, 6, 9).value) == Friday
    ensures WorkDaysQuery(Of(2017, 6, 9).value)
    ensures !WorkDaysQuery(Of(2017, 6, 10).value)
  {
  }

  /** testDuration, the LocalTime part: 09:05 to 10:17 and 11:05 to 13:05. */
  lemma TestDuration()
    ensures var gap := Between(LocalTimeOf(9, 5).value, LocalTimeOf(10, 17).value);
      var gap2 := Between(LocalTimeOf(11, 5).value, LocalTimeOf(13, 5).value);
      ToHours(gap) == 1 && ToMinutes(gap) == 72 &&
      ToHours(gap2) == 2 &&
      ToHours(Plus(gap, gap2)) == 3 && ToMinutes(Plus(gap, gap2)) == 192
  {
    var gap := Between(LocalTimeOf(9, 5).value, LocalTimeOf(10, 17).value);
    var gap2 := Between(LocalTimeOf(11, 5).value, LocalTimeOf(13, 5).value);
    TotalNanosInjective(gap, DurationValue(4320, 0));
    TotalNanosInjective(gap2, DurationValue(7200, 0));
    TotalNanosInjective(Plus(gap, gap2), DurationValue(11520, 0));
  }

  /** testPeriods: from 2017-08-11 to 2017-09-21 is one month and ten days. */
  lemma TestPeriods()
    ensures var gap := PeriodBetween(Of(2017, 8, 11).value, Of(2017, 9, 21).value);
      gap.days == 10 && gap.months == 1
  {
  }

  /**
   * The adjuster as written sends 2017-12-12, the day after December's payday
   * (Monday the 11th), back to Wednesday 2017-01-11.
   */
  lemma DecemberCounterexample(date: LocalDate)
    requires date == Date(2017, 12, 12)
    ensures AdjustInto(date) == Date(2017, 1, 11)
  {
    var december11th: LocalDate := Date(2017, 12, 11);
    assert DayOfWeekOf(december11th) == Monday;
    var january11th: LocalDate := Date(2017, 1, 11);
    assert DayOfWeekOf(january11th) == Wednesday;
    MonthPlusOne(12);
  }

  /** The corrected adjuster sends 2017-12-12 to Thursday 2018-01-11. */
  lemma DecemberCorrected(date: LocalDate)
    requires date == Date(2017, 12, 12)
    ensures NextPayday(date) == Date(2018, 1, 11)
  {
    DecemberAndJanuaryPaydays(Date(2017, 12, 11), Date(2018, 1, 11));
    assert IsBefore(PaydayOf(2017, 12), date);
    var nextMonth := PlusMonths(Of(date.year, date.month, 11).value, 1);
    assert nextMonth.year == 2018 && nextMonth.month == 1;
  }

  /** December 11th 2017 is a Monday and January 11th 2018 a Thursday: both are paydays. */
  lemma DecemberAndJanuaryPaydays(december11th: LocalDate, january11th: LocalDate)
    requires december11th == Date(2017, 12, 11) && january11th == Date(2018, 1, 11)
    ensures PaydayOf(2017, 12) == december11th
    ensures PaydayOf(2018, 1) == january11th
  {
    assert DayOfWeekOf(december11th) == Monday;
    assert DayOfWeekOf(january11th) == Thursday;
  }
}
