# java.time learning tests — a Dafny model

The repository is a set of JUnit learning tests for the `java.time` API. Its
main class, `JavaDateTimeTest`, defines two calendar rules of its own:

- `NextPaydayAdjuster`. Payday is the 11th of the month, moved back to the
  Friday before when the 11th falls on a Saturday or Sunday. A date is sent to
  this month's payday when it is on or before it, and to the next month's
  payday otherwise.
- `WorkDays`. A date is a workday unless it is a Saturday or a Sunday.

The class also asserts facts about the library: leap-year clamping in
`plusYears`/`plusMonths`, `plusDays`, `plusWeeks` with
`TemporalAdjusters.next`, `MonthDay.isValidYear`, `Duration.between` on
`LocalTime`, `Period.between`, and the ISO text of `LocalDate` and
`LocalDateTime`.

This project models the parts of the library that those assertions depend
on, as pure functions on values. It then models the two rules on top of
them, and restates each assertion as a lemma. All the source code involved
is pure, so the model has only datatypes, functions and lemmas.

The files are:

- **Foundations.dfy** holds Java's truncating `/` and `%` (`JavaMath`), the
  `DateTimeException` cases, and a `Result` type (`TimeErrors`).
- **LocalDates.dfy** holds `LocalDate`:
  - the proleptic Gregorian calendar, and `LocalDate.of` with its error cases;
  - the epoch-day count and its inverse;
  - the ordering, `DayOfWeek`;
  - `plusDays`, `plusWeeks`, `plusMonths` and `plusYears`, with
    end-of-month clamping;
  - `Month.plus`, and `MonthDay`.
- **Adjusters.dfy** holds `TemporalAdjusters.next` and
  `TemporalAdjusters.previous`.
- **Payday.dfy** holds `WorkDays`, `NextPaydayAdjuster` with its
  `adjustForWeekends`, and a corrected adjuster (see Findings).
- **Spans.dfy** holds `LocalTime`, `Duration`, `LocalDateTime.of`, `LocalDateTime.plusHours` and
  `Period.between`.
- **Decimal.dfy** holds decimal text, as `StringBuilder.append(int)` prints
  an int (`Decimal`).
- **DateText.dfy** holds `LocalDate.toString`, ISO `LocalDate.parse` and the
  `ISO_LOCAL_DATE_TIME` text (`DateText`).
- **Examples.dfy** restates the assertions of the test class as lemmas. A
  lemma may gather several assertions of one test method. Many lemmas take
  the test's local variables as parameters, with their values fixed by
  `requires`.

In AssertJ, `assertThat(localDate).isEqualTo("2016-02-29")` parses the
string as an ISO date and compares the results. The model states these
assertions as `Parse(text) == Ok(date)`.

## Model

`JavaDateTimeTest.java` stands for
`src/test/java/hr/analemma/learning/java/time/JavaDateTimeTest.java` in the
prose below. The source cells give the full path, relative to the repository
root.

| member | source | states |
|---|---|---|
| LocalDates.LeapYearRule | src/test/java/hr/analemma/learning/java/time/JavaDateTimeTest.java:52-57 | the Gregorian leap-year rule: the rule repeats every 400 years, a year has 366 days exactly when it is a leap year, and 2016 and 2000 are leap years while 2017 and 1900 are not |
| LocalDates.LengthOfMonth | src/test/java/hr/analemma/learning/java/time/JavaDateTimeTest.java:52-62 | a month has 28 to 31 days; it has 29 exactly when it is February of a leap year, and 28 exactly when it is February of a common year |
| LocalDates.Of | src/test/java/hr/analemma/learning/java/time/JavaDateTimeTest.java:39-47 | LocalDate.of succeeds exactly when month and day form a real date, and then yields that date; a day past the month's end (Feb 31) is the DayBeyondMonthLength error |
| LocalDates.ToEpochDay | src/test/java/hr/analemma/learning/java/time/JavaDateTimeTest.java:58 | the epoch day of a date lies within its year's span of days |
| LocalDates.FromEpochDay | src/test/java/hr/analemma/learning/java/time/JavaDateTimeTest.java:58 | the date rebuilt from an epoch day has exactly that epoch day |
| LocalDates.EpochDayRoundTrip | src/test/java/hr/analemma/learning/java/time/JavaDateTimeTest.java:58 | converting a date to its epoch day and back gives the same date, and the other way round |
| LocalDates.EpochDayInjective | src/test/java/hr/analemma/learning/java/time/JavaDateTimeTest.java:58 | two dates with the same epoch day are equal |
| LocalDates.Epoch | src/test/java/hr/analemma/learning/java/time/JavaDateTimeTest.java:58 | 1970-01-01 is epoch day 0, the day before is -1, and 1970-01-01 is a Thursday |
| LocalDates.CompareIsTotalOrder | src/test/java/hr/analemma/learning/java/time/JavaDateTimeTest.java:175 | isEqual is equality; isBefore is irreflexive, asymmetric, transitive and total together with isEqual |
| LocalDates.EpochDayOrder | src/test/java/hr/analemma/learning/java/time/JavaDateTimeTest.java:175 | isBefore holds exactly when the epoch day is smaller |
| LocalDates.CompareTo | src/test/java/hr/analemma/learning/java/time/JavaDateTimeTest.java:175 | compareTo is zero exactly for equal dates, and negative exactly when the first date is in an earlier month, or in the same month on an earlier day |
| LocalDates.IsBefore | src/test/java/hr/analemma/learning/java/time/JavaDateTimeTest.java:175 | isBefore holds exactly when the first date is in an earlier month, or in the same month on an earlier day |
| LocalDates.IsEqual | src/test/java/hr/analemma/learning/java/time/JavaDateTimeTest.java:175 | isEqual holds exactly for equal dates |
| LocalDates.Value | src/test/java/hr/analemma/learning/java/time/JavaDateTimeTest.java:186 | getValue numbers the days of the week 1 to 7 |
| LocalDates.DayOfWeekFromValue | src/test/java/hr/analemma/learning/java/time/JavaDateTimeTest.java:186 | DayOfWeek.of(v) is the day whose getValue is v (Monday 1 to Sunday 7) |
| LocalDates.DayOfWeekOfEpochDay | src/test/java/hr/analemma/learning/java/time/JavaDateTimeTest.java:186 | the day-of-week value of an epoch day is (epochDay + 3) mod 7 + 1; 1970-01-01 is a Thursday |
| LocalDates.DayOfWeekOf | src/test/java/hr/analemma/learning/java/time/JavaDateTimeTest.java:186 | getDayOfWeek of a date has value (epochDay + 3) mod 7 + 1 |
| LocalDates.DayOfWeekSucceeds | src/test/java/hr/analemma/learning/java/time/JavaDateTimeTest.java:186 | the next day's day of week is the next value, with Sunday followed by Monday |
| LocalDates.DayOfWeekPeriodic | src/test/java/hr/analemma/learning/java/time/JavaDateTimeTest.java:91 | any whole number of weeks later is the same day of week |
| LocalDates.PlusDays | src/test/java/hr/analemma/learning/java/time/JavaDateTimeTest.java:58 | plusDays(n) is the date whose epoch day is n larger |
| LocalDates.MinusDays | src/test/java/hr/analemma/learning/java/time/JavaDateTimeTest.java:187 | minusDays(n) is the date whose epoch day is n smaller |
| LocalDates.PlusDaysAdditive | src/test/java/hr/analemma/learning/java/time/JavaDateTimeTest.java:58 | adding a days and then b days equals adding a + b days |
| LocalDates.PlusDaysMovesForward | src/test/java/hr/analemma/learning/java/time/JavaDateTimeTest.java:58 | adding a positive number of days gives a later date |
| LocalDates.PlusWeeks | src/test/java/hr/analemma/learning/java/time/JavaDateTimeTest.java:91 | plusWeeks(n) is 7n days later, on the same day of week |
| LocalDates.ResolvePreviousValid | src/test/java/hr/analemma/learning/java/time/JavaDateTimeTest.java:55-62 | the result is the latest valid day of the same month not after the given day: the day is kept when it exists, otherwise every later day up to it is invalid and the month's last day is taken |
| LocalDates.PlusMonths | src/test/java/hr/analemma/learning/java/time/JavaDateTimeTest.java:61 | plusMonths(n) moves the proleptic month by exactly n and keeps the day, clamped to the new month's length |
| LocalDates.PlusYears | src/test/java/hr/analemma/learning/java/time/JavaDateTimeTest.java:57 | plusYears(n) keeps the month, moves the year by n and clamps Feb 29 to Feb 28 in a common year |
| LocalDates.PlusYearsIsTwelveMonths | src/test/java/hr/analemma/learning/java/time/JavaDateTimeTest.java:57 | plusYears(n) equals plusMonths(12 n) |
| LocalDates.PlusMonthsAdditive | src/test/java/hr/analemma/learning/java/time/JavaDateTimeTest.java:62 | for a day of 28 or less, successive plusMonths add up; no clamping occurs |
| LocalDates.ProlepticMonth | src/test/java/hr/analemma/learning/java/time/JavaDateTimeTest.java:179 | the proleptic month count divides back into the year and the zero-based month |
| LocalDates.ProlepticMonthOrder | src/test/java/hr/analemma/learning/java/time/JavaDateTimeTest.java:175 | a date in an earlier month is before a date in a later month |
| LocalDates.ProlepticMonthInjective | src/test/java/hr/analemma/learning/java/time/JavaDateTimeTest.java:179 | two dates with the same proleptic month share year and month |
| LocalDates.MonthPlus | src/test/java/hr/analemma/learning/java/time/JavaDateTimeTest.java:179 | Month.plus(n) wraps around the 12 months: the result is congruent to month + n modulo 12 |
| LocalDates.MonthPlusOne | src/test/java/hr/analemma/learning/java/time/JavaDateTimeTest.java:179 | Month.plus(1) is the next month, and December is followed by January |
| LocalDates.MaxLength | src/test/java/hr/analemma/learning/java/time/JavaDateTimeTest.java:122-123 | the maximum length of a month bounds its length in every year and is reached in a leap year |
| LocalDates.MonthDayOf | src/test/java/hr/analemma/learning/java/time/JavaDateTimeTest.java:122-123 | MonthDay.of succeeds exactly when the day fits the month's maximum length |
| LocalDates.IsValidYear | src/test/java/hr/analemma/learning/java/time/JavaDateTimeTest.java:122-123 | for a valid month-day, MonthDay.isValidYear(y) holds exactly when the month and day form a valid date in year y |
| Adjusters.Next | src/test/java/hr/analemma/learning/java/time/JavaDateTimeTest.java:95 | next(dow) is the first date strictly after the given one falling on dow: 1 to 7 days later, with no dow in between |
| Adjusters.Previous | src/test/java/hr/analemma/learning/java/time/JavaDateTimeTest.java:187 | previous(dow) is the last date strictly before the given one falling on dow: 1 to 7 days earlier, with no dow in between |
| Adjusters.StrictOnSameDay | src/test/java/hr/analemma/learning/java/time/JavaDateTimeTest.java:95 | on a date that already is dow, next and previous move a whole week |
| Payday.WorkDaysQuery | src/test/java/hr/analemma/learning/java/time/JavaDateTimeTest.java:204-216 | WorkDays is true exactly on Monday to Friday and false on Saturday and Sunday |
| Payday.WorkDaysWeekly | src/test/java/hr/analemma/learning/java/time/JavaDateTimeTest.java:204-216 | the answer repeats every week |
| Payday.AdjustForWeekends | src/test/java/hr/analemma/learning/java/time/JavaDateTimeTest.java:185-191 | the result is a workday; a weekday is kept; a Saturday or Sunday becomes the Friday 1 or 2 days before; the result is never later than the input |
| Payday.WorkDaysAreFixedPoints | src/test/java/hr/analemma/learning/java/time/JavaDateTimeTest.java:185-191 | a date is a workday exactly when adjustForWeekends leaves it unchanged |
| Payday.PaydayOf | src/test/java/hr/analemma/learning/java/time/JavaDateTimeTest.java:172-173 | a month's payday is a workday in that month: the 11th if that is a weekday, Friday the 10th if the 11th is a Saturday, Friday the 9th if it is a Sunday |
| Payday.WeekendEleventh | src/test/java/hr/analemma/learning/java/time/JavaDateTimeTest.java:185-191 | a Saturday 11th becomes the 10th and a Sunday 11th the 9th of the same month |
| Payday.AdjustInto | src/test/java/hr/analemma/learning/java/time/JavaDateTimeTest.java:166-193 | the result is the payday of its month, always in the date's year; it is this month's payday exactly when the date is not after that payday, otherwise the payday of Month.plus(1); before December it is never earlier than the date |
| Payday.AdjustIntoShape | src/test/java/hr/analemma/learning/java/time/JavaDateTimeTest.java:166-193 | every result is a workday with day of month 9, 10 or 11 |
| Payday.DecemberGoesBack | src/test/java/hr/analemma/learning/java/time/JavaDateTimeTest.java:179-182 | a December date after December's payday is sent to January's payday of the same year, which lies before the date |
| Payday.NextPayday | src/test/java/hr/analemma/learning/java/time/JavaDateTimeTest.java:179-182 | the corrected adjuster returns a payday that is never before the date |
| Payday.NextPaydayIsEarliest | src/test/java/hr/analemma/learning/java/time/JavaDateTimeTest.java:166-193 | no payday on or after the date comes earlier than the corrected adjuster's result |
| Payday.AgreesOutsideDecember | src/test/java/hr/analemma/learning/java/time/JavaDateTimeTest.java:175-182 | the adjuster as written and the corrected one agree unless the date is in December after payday |
| Spans.LocalTimeOf | src/test/java/hr/analemma/learning/java/time/JavaDateTimeTest.java:237-238 | LocalTime.of(h, m) succeeds exactly for hour 0..23 and minute 0..59, giving h:m:00 |
| Spans.ToNanoOfDay | src/test/java/hr/analemma/learning/java/time/JavaDateTimeTest.java:239 | a time of day is a nanosecond count within one day |
| Spans.FromNanoOfDay | src/test/java/hr/analemma/learning/java/time/JavaDateTimeTest.java:239 | LocalTime.ofNanoOfDay inverts toNanoOfDay |
| Spans.NanoOfDayInjective | src/test/java/hr/analemma/learning/java/time/JavaDateTimeTest.java:239 | two times with the same nano-of-day are equal |
| Spans.TotalNanosInjective | src/test/java/hr/analemma/learning/java/time/JavaDateTimeTest.java:239 | a normalised Duration is determined by its length in nanoseconds |
| Spans.OfNanos | src/test/java/hr/analemma/learning/java/time/JavaDateTimeTest.java:239 | Duration.ofNanos(n) is n nanoseconds long |
| Spans.OfSeconds | src/test/java/hr/analemma/learning/java/time/JavaDateTimeTest.java:249 | Duration.ofSeconds(s, adj) is s seconds plus adj nanoseconds long, with nanos normalised to 0..999,999,999 |
| Spans.Between | src/test/java/hr/analemma/learning/java/time/JavaDateTimeTest.java:239 | Duration.between two times is the signed difference of their nano-of-day |
| Spans.Plus | src/test/java/hr/analemma/learning/java/time/JavaDateTimeTest.java:249 | Duration.plus adds the lengths |
| Spans.BetweenAdditive | src/test/java/hr/analemma/learning/java/time/JavaDateTimeTest.java:249 | between(a, b) plus between(b, c) is between(a, c) |
| Spans.ToHours | src/test/java/hr/analemma/learning/java/time/JavaDateTimeTest.java:241 | toHours is the seconds divided by 3600, truncated toward zero |
| Spans.ToMinutes | src/test/java/hr/analemma/learning/java/time/JavaDateTimeTest.java:242 | toMinutes is the seconds divided by 60, truncated toward zero |
| Spans.LocalDateTimeOf | src/test/java/hr/analemma/learning/java/time/JavaDateTimeTest.java:67 | LocalDateTime.of(y, mo, d, h, mi) succeeds exactly when the date and the time are valid, giving that date at h:mi:00; an invalid date reports LocalDate.of's error, otherwise an invalid time reports LocalTime.of's |
| Spans.EpochNanosInjective | src/test/java/hr/analemma/learning/java/time/JavaDateTimeTest.java:71 | a date-time is determined by its nanosecond count from the epoch |
| Spans.PlusHours | src/test/java/hr/analemma/learning/java/time/JavaDateTimeTest.java:71 | plusHours(n) on a LocalDateTime moves the time line by exactly n hours, with no time zone involved |
| Spans.TwentyFourHoursIsOneDay | src/test/java/hr/analemma/learning/java/time/JavaDateTimeTest.java:71-76 | plusHours(24) is the next day at the same time of day, on every date including a DST-change date |
| Spans.PeriodBetween | src/test/java/hr/analemma/learning/java/time/JavaDateTimeTest.java:259 | Period.between has months within -11..11, and all fields are non-negative when the end is not before the start |
| Spans.PeriodSigns | src/test/java/hr/analemma/learning/java/time/JavaDateTimeTest.java:259 | the whole months and leftover days Period.between computes are non-negative when end is not before start |
| Spans.TotalMonths | src/test/java/hr/analemma/learning/java/time/JavaDateTimeTest.java:259 | toTotalMonths splits back, by Java's truncating division by 12, into the years and months of a period whose fields have the same sign and whose months are within one year |
| Spans.AddTo | src/test/java/hr/analemma/learning/java/time/JavaDateTimeTest.java:259 | adding a period adds its months (with clamping), then its days |
| Spans.PeriodBetweenRoundTrip | src/test/java/hr/analemma/learning/java/time/JavaDateTimeTest.java:259-261 | when end is not before start, adding Period.between(start, end) to start gives end |
| Spans.ReversedPeriodMissesEnd | src/test/java/hr/analemma/learning/java/time/JavaDateTimeTest.java:259 | for dates in reverse order the round trip can fail: from 2017-03-31 to 2017-02-28 the period is -1 month -3 days, and adding it to 2017-03-31 gives 2017-02-25 |
| Decimal.DigitValue | src/test/java/hr/analemma/learning/java/time/JavaDateTimeTest.java:40 | reading a digit character inverts writing it |
| Decimal.NatTextValue | src/test/java/hr/analemma/learning/java/time/JavaDateTimeTest.java:40 | the decimal text of a number is all digits, reads back as the number and has no leading zero unless the number is zero |
| Decimal.NatTextOfFourDigits | src/test/java/hr/analemma/learning/java/time/JavaDateTimeTest.java:40 | a four-digit number prints as its four digits in order |
| Decimal.YearField | src/test/java/hr/analemma/learning/java/time/JavaDateTimeTest.java:40 | a year 0..9999 prints as exactly four digits: a year under 1000 is zero-padded |
| Decimal.TwoDigitField | src/test/java/hr/analemma/learning/java/time/JavaDateTimeTest.java:40 | month and day print as a dash and exactly two digits |
| DateText.YearText | src/test/java/hr/analemma/learning/java/time/JavaDateTimeTest.java:40 | the year field is the four digits of a year 0..9999, starts with a minus sign for a negative year and with a plus sign above 9999 |
| DateText.FieldText | src/test/java/hr/analemma/learning/java/time/JavaDateTimeTest.java:40 | a month or day 1..31 prints as a dash and its two digits |
| DateText.ToString | src/test/java/hr/analemma/learning/java/time/JavaDateTimeTest.java:40 | for a year 0..9999, toString is the ten characters yyyy-MM-dd; a negative year starts with '-', a year above 9999 with '+' |
| DateText.Parse | src/test/java/hr/analemma/learning/java/time/JavaDateTimeTest.java:61 | text that is not ten characters of the form dddd-dd-dd is unparseable; other text goes through LocalDate.of |
| DateText.ParseToString | src/test/java/hr/analemma/learning/java/time/JavaDateTimeTest.java:40 | parsing the toString of a date with a year 0..9999 gives the date back |
| DateText.ToStringParse | src/test/java/hr/analemma/learning/java/time/JavaDateTimeTest.java:61 | a text that parses is exactly the toString of the parsed date |
| DateText.PaddedDigits | src/test/java/hr/analemma/learning/java/time/JavaDateTimeTest.java:69 | a zero-padded field has exactly the given width and only digits, and for a number below 10^width it reads back as that number |
| DateText.StripTrailingZeros | src/test/java/hr/analemma/learning/java/time/JavaDateTimeTest.java:69 | removes exactly the trailing zeros: the result is a prefix, it does not end in 0, and only zeros were removed |
| DateText.StripTrailingZerosValue | src/test/java/hr/analemma/learning/java/time/JavaDateTimeTest.java:69 | the digits left after removing trailing zeros, scaled back by the removed powers of ten, read as the original digits |
| DateText.PaddedDigitsOfNonZero | src/test/java/hr/analemma/learning/java/time/JavaDateTimeTest.java:69 | a non-zero fraction keeps at least one digit after its trailing zeros are removed |
| DateText.FractionDigits | src/test/java/hr/analemma/learning/java/time/JavaDateTimeTest.java:69 | the fraction of a non-zero nano-of-second has 1 to 9 digits, does not end in 0, and scaled to nine places reads as the nanoseconds |
| DateText.TimeText | src/test/java/hr/analemma/learning/java/time/JavaDateTimeTest.java:69 | the time part of ISO_LOCAL_TIME is HH:mm:ss, each two-digit field reading back as the hour, minute and second; it has a '.' and the fraction exactly when the nanoseconds are not zero |
| DateText.DateTimeText | src/test/java/hr/analemma/learning/java/time/JavaDateTimeTest.java:69 | for a year 0..9999, ISO_LOCAL_DATE_TIME is ten characters that parse back to the date, then 'T', then the time text |
| Examples.TestDate | src/test/java/hr/analemma/learning/java/time/JavaDateTimeTest.java:39-47 | 2017-02-17 is created, prints as "2017-02-17" and has month 2; Feb 31 2017 raises DayBeyondMonthLength |
| Examples.TestDateMathPlusYears | src/test/java/hr/analemma/learning/java/time/JavaDateTimeTest.java:52-57 | 2016-02-29 plus one year prints as "2017-02-28" |
| Examples.TestDateMathPlusDays | src/test/java/hr/analemma/learning/java/time/JavaDateTimeTest.java:58 | 2016-02-29 plus 366 days is 2017-03-01 |
| Examples.TestDateMathPlusDaysText | src/test/java/hr/analemma/learning/java/time/JavaDateTimeTest.java:58 | 2017-03-01 prints as "2017-03-01" |
| Examples.TestDateMathPlusMonths | src/test/java/hr/analemma/learning/java/time/JavaDateTimeTest.java:60-61 | 2016-01-31 plus one month is "2016-02-29" |
| Examples.TestDateMathPlusYearsPlusMonths | src/test/java/hr/analemma/learning/java/time/JavaDateTimeTest.java:62 | 2016-01-31 plus one year plus one month is "2017-02-28" |
| Examples.TestTimeMathText | src/test/java/hr/analemma/learning/java/time/JavaDateTimeTest.java:67-69 | 2017-07-25 21:39 formats as "2017-07-25T21:39:00" |
| Examples.TestTimeMathPlusHours | src/test/java/hr/analemma/learning/java/time/JavaDateTimeTest.java:67-72 | LocalDateTime.of(2017, 7, 25, 21, 39) is 2017-07-25 21:39, and that date-time plus 24 hours is 2017-07-26 21:39 |
| Examples.TestTimeMathPlusHoursText | src/test/java/hr/analemma/learning/java/time/JavaDateTimeTest.java:71-72 | 2017-07-26 21:39 formats as "2017-07-26T21:39:00" |
| Examples.TestTimeMathAcrossDstStart | src/test/java/hr/analemma/learning/java/time/JavaDateTimeTest.java:74-76 | LocalDateTime.of(2017, 3, 25, 12, 0) is 2017-03-25 12:00, and plus 24 hours it is 2017-03-26 12:00 for a LocalDateTime |
| Examples.TestTimeMathAcrossDstStartText | src/test/java/hr/analemma/learning/java/time/JavaDateTimeTest.java:75-76 | 2017-03-26 12:00 formats as "2017-03-26T12:00:00" |
| Examples.TestWithTemporalAdjustersPlusWeeks | src/test/java/hr/analemma/learning/java/time/JavaDateTimeTest.java:89-92 | 2017-07-25 plus two weeks is 2017-08-08 |
| Examples.TestWithTemporalAdjustersNextFriday | src/test/java/hr/analemma/learning/java/time/JavaDateTimeTest.java:95-96 | the next Friday after 2017-08-08 is 2017-08-11 |
| Examples.TestWithTemporalAdjustersTexts | src/test/java/hr/analemma/learning/java/time/JavaDateTimeTest.java:92-96 | "2017-08-08" and "2017-08-11" parse to those dates |
| Examples.TestMonthDay | src/test/java/hr/analemma/learning/java/time/JavaDateTimeTest.java:121-124 | Feb 29 is a valid MonthDay, invalid in 2017 and valid in 2016 |
| Examples.TestCustomTemporalAdjuster | src/test/java/hr/analemma/learning/java/time/JavaDateTimeTest.java:196-202 | the adjuster keeps 2017-06-09, sends 2017-06-03 to 2017-06-09 and 2017-06-10 to 2017-07-11 |
| Examples.JuneAndJulyPaydays | src/test/java/hr/analemma/learning/java/time/JavaDateTimeTest.java:196-202 | June 2017's payday is Friday the 9th (the 11th is a Sunday); July 2017's is the 11th |
| Examples.TestCustomTemporalQuery | src/test/java/hr/analemma/learning/java/time/JavaDateTimeTest.java:219-223 | 2017-06-09 is a Friday and a workday; 2017-06-10 is not a workday |
| Examples.TestDuration | src/test/java/hr/analemma/learning/java/time/JavaDateTimeTest.java:237-251 | 09:05 to 10:17 is 1 hour and 72 minutes; 11:05 to 13:05 is 2 hours; their sum is 3 hours and 192 minutes |
| Examples.TestPeriods | src/test/java/hr/analemma/learning/java/time/JavaDateTimeTest.java:255-262 | from 2017-08-11 to 2017-09-21 is 1 month and 10 days |
| Examples.DecemberCounterexample | src/test/java/hr/analemma/learning/java/time/JavaDateTimeTest.java:179-182 | the adjuster as written sends 2017-12-12 to 2017-01-11 |
| Examples.DecemberCorrected | src/test/java/hr/analemma/learning/java/time/JavaDateTimeTest.java:179-182 | the corrected adjuster sends 2017-12-12 to 2018-01-11 |
| Examples.DecemberAndJanuaryPaydays | src/test/java/hr/analemma/learning/java/time/JavaDateTimeTest.java:179-182 | December 2017's payday is Monday the 11th; January 2018's is Thursday the 11th |

## Left out

- The system clock is left out, and so is everything built on it:
  `LocalDate.now`, `LocalDateTime.now`, `Instant.now`,
  `System.currentTimeMillis`, `Thread.sleep`. That is the first half of
  testDuration (lines 227-235), testOffset, testInstant, testUnixTimestamp
  and testCreateLocalDateFromUnixEpoch. They read the wall clock, and no
  value-level statement describes what they assert.
- Time zones are left out. This covers `ZonedDateTime` and the Europe/Paris
  DST arithmetic (lines 78-84), `ZoneId.systemDefault` and conversion to
  `java.util.Date` and `GregorianCalendar` (lines 100-107), and the zone
  listing. All of these depend on the tz database and the host's settings.
- Locale-dependent display names are left out (lines 110-118): they come
  from the JDK's locale data.
- `DateTimeFormatter.ofPattern` is left out (lines 265-270). The pattern
  language is outside this model; only the fixed ISO formats are modelled.
- `WeekFieldsTest.java` and `DateTimestampTest.java` are not part of this
  model.
- `LocalDate.from(temporal)` is not modelled: the adjuster and the query take
  a `LocalDate` directly. Other `TemporalAccessor` kinds, and the exception
  for one without a date, are left out.
- LocalDates.Of does not enforce the library's year range of ±999,999,999
  (`YearOutOfRange`). Integers are unbounded, so `long` overflow in the epoch
  arithmetic is not modelled either.
- LocalDates.ToEpochDay uses a closed-form day count from 0000-01-01, not
  the library's own formula text. It counts the same days but is written
  differently.
- DateText.Parse covers only ISO dates with a four-digit year (0000 to 9999),
  which is what the test texts use. Signed and longer years, and the exact
  exception messages, are left out.
- DateText.ParseToString holds only for years 0 to 9999. Other years print
  with a sign or more digits, which Parse does not read.
- Spans.Plus leaves out the library's shortcut of returning the receiver for
  a zero argument. It produces the same value.
- Spans.PeriodBetween states in its own contract only the signs and the
  range of the months field. Spans.PeriodBetweenRoundTrip does not fix the
  split into months and days either: from 2017-01-31 to 2017-03-01 the
  library gives one month and one day, yet 29 days also round-trip. Only the
  concrete Examples.TestPeriods pins a split.
- LocalDates.DayOfWeekFromValue requires a value 1..7. The DateTimeException
  that DayOfWeek.of throws for other values is not modelled; the test class
  only passes fixed days of the week.
- Spans.FromNanoOfDay requires a nano-of-day within one day. The exception
  LocalTime.ofNanoOfDay throws outside that range is not modelled.
- DateText.PaddedDigits states its value only for a number below 10^width,
  not the value n mod 10^width of a wider number. ISO_LOCAL_TIME only pads
  numbers that fit their field.
- Adjusters.Next and Adjusters.Previous are modelled only for `LocalDate`,
  the only temporal type the test class adjusts.

## Findings

| source | as written | input that shows it | evidently intended | confidence | as-written member | corrected member |
|---|---|---|---|---|---|---|
| src/test/java/hr/analemma/learning/java/time/JavaDateTimeTest.java:179 | the next month's payday is built with the date's year and `date.getMonth().plus(1)`; Month.plus wraps December to January but the year is kept | 2017-12-12, the day after December 2017's payday, is adjusted to 2017-01-11, eleven months earlier | the payday of the following month, 2018-01-11, as `plusMonths(1)` gives | not executed | Payday.DecemberGoesBack, Examples.DecemberCounterexample | Payday.NextPayday, Payday.NextPaydayIsEarliest, Examples.DecemberCorrected |
