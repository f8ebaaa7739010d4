/**
 * The proleptic Gregorian date that the test class builds with LocalDate.of
 * and then adds days, weeks, months and years to: validity, the epoch-day
 * count, ordering, day of week and the clamped month arithmetic.
 */
module LocalDates {
  import opened TimeErrors
  import opened JavaMath

  // ---------------------------------------------------------------------------
  // Calendar rules
  // ---------------------------------------------------------------------------

  /** The Gregorian leap-year rule, extended to every year. */
  predicate IsLeapYear(year: int) {
    year % 4 == 0 && (year % 100 != 0 || year % 400 == 0)
  }

  function LengthOfYear(year: int): int {
    if IsLeapYear(year) then 366 else 365
  }

  /**
   * The leap-year rule repeats every 400 years, a leap year has 366 days, and
   * the years the test class uses fall as expected (2016 and 2000 leap, 2017
   * and 1900 not).
   */
  lemma LeapYearRule(year: int)
    ensures IsLeapYear(year + 400) == IsLeapYear(year)
    ensures LengthOfYear(year) == 366 <==> IsLeapYear(year)
    ensures IsLeapYear(2016) && IsLeapYear(2000) && !IsLeapYear(2017) && !IsLeapYear(1900)
  {
    assert (year + 400) % 4 == year % 4 && (year + 400) % 100 == year % 100 && (year + 400) % 400 == year % 400;
  }

  /** The number of days of `month` (1 = January) in `year`. */
  function LengthOfMonth(year: int, month: int): (n: int)
    requires 1 <= month <= 12
    ensures 28 <= n <= 31
    ensures n == 29 <==> month == 2 && IsLeapYear(year)
    ensures n == 28 <==> month == 2 && !IsLeapYear(year)
  {
    if month == 2 then (if IsLeapYear(year) then 29 else 28)
    else if month == 4 || month == 6 || month == 9 || month == 11 then 30
    else 31
  }

  // ---------------------------------------------------------------------------
  // Dates
  // ---------------------------------------------------------------------------

  datatype Date = Date(year: int, month: int, day: int)

  predicate Valid(d: Date) {
    1 <= d.month <= 12 && 1 <= d.day <= LengthOfMonth(d.year, d.month)
  }

  /** A java.time.LocalDate: a year, month and day that exist together. */
  type LocalDate = d: Date | Valid(d) witness Date(1970, 1, 1)

  /** LocalDate.of(year, month, day): fails on a month or a day that does not exist. */
  function Of(year: int, month: int, day: int): (r: Result<LocalDate>)
    ensures r.Ok? <==> Valid(Date(year, month, day))
    ensures r.Ok? ==> r.value == Date(year, month, day)
    ensures r.Err? && 1 <= month <= 12 && 1 <= day <= 31 ==> r.error == DayBeyondMonthLength
  {
    if !(1 <= month <= 12) then Err(MonthOutOfRange)
    else if !(1 <= day <= 31) then Err(DayOutOfRange)
    else if day > LengthOfMonth(year, month) then Err(DayBeyondMonthLength)
    else var d: LocalDate := Date(year, month, day); Ok(d)
  }

  // ---------------------------------------------------------------------------
  // Epoch days
  // ---------------------------------------------------------------------------

  // A 400-year cycle of the calendar holds 146097 days (written as a literal
  // below), and 0000-01-01 lies 719528 days before 1970-01-01.
  const Days0000To1970 := 719528

  /** The number of days from 0000-01-01 to January 1st of `year` (negative before year 0). */
  function DaysBeforeYear(year: int): int {
    365 * year + (year + 3) / 4 - (year + 99) / 100 + (year + 399) / 400
  }

  lemma DaysBeforeNextYear(year: int)
    ensures DaysBeforeYear(year + 1) == DaysBeforeYear(year) + LengthOfYear(year)
  {
    DivisionStep4(year);
    DivisionStep100(year);
    DivisionStep400(year);
  }

  lemma DivisionStep4(year: int)
    ensures (year + 4) / 4 == (year + 3) / 4 + (if year % 4 == 0 then 1 else 0)
  {
  }

  lemma DivisionStep100(year: int)
    ensures (year + 100) / 100 == (year + 99) / 100 + (if year % 100 == 0 then 1 else 0)
  {
  }

  lemma DivisionStep400(year: int)
    ensures (year + 400) / 400 == (year + 399) / 400 + (if year % 400 == 0 then 1 else 0)
  {
  }

  /** Every 400 years the calendar repeats, and the 400 years hold 146097 days. */
  lemma CycleShift(cycles: int, year: int)
    ensures DaysBeforeYear(400 * cycles + year) == 146097 * cycles + DaysBeforeYear(year)
  {
    assert (400 * cycles + year + 3) / 4 == 100 * cycles + (year + 3) / 4;
    assert (400 * cycles + year + 99) / 100 == 4 * cycles + (year + 99) / 100;
    assert (400 * cycles + year + 399) / 400 == cycles + (year + 399) / 400;
  }

  lemma {:induction false} YearsOrdered(y1: int, y2: int)
    requires y1 < y2
    ensures DaysBeforeYear(y1 + 1) <= DaysBeforeYear(y2)
    decreases y2 - y1
  {
    if y1 + 1 < y2 {
      YearsOrdered(y1 + 1, y2);
      DaysBeforeNextYear(y1 + 1);
    }
  }

  /** The number of days of `year` before the first of `month`. */
  function DaysBeforeMonth(year: int, month: int): int
    requires 1 <= month <= 12
  {
    var cumulative := [0, 31, 59, 90, 120, 151, 181, 212, 243, 273, 304, 334];
    cumulative[month - 1] + (if month > 2 && IsLeapYear(year) then 1 else 0)
  }

  /** The months of a year follow each other without gap or overlap. */
  lemma MonthsTile(year: int, month: int)
    requires 1 <= month <= 12
    ensures month < 12 ==> DaysBeforeMonth(year, month + 1) == DaysBeforeMonth(year, month) + LengthOfMonth(year, month)
    ensures month == 12 ==> DaysBeforeMonth(year, month) + LengthOfMonth(year, month) == LengthOfYear(year)
  {
  }

  lemma {:induction false} MonthsOrdered(year: int, m1: int, m2: int)
    requires 1 <= m1 < m2 <= 12
    ensures DaysBeforeMonth(year, m1) + LengthOfMonth(year, m1) <= DaysBeforeMonth(year, m2)
    decreases m2 - m1
  {
    MonthsTile(year, m1);
    if m1 + 1 < m2 {
      MonthsOrdered(year, m1 + 1, m2);
    }
  }

  lemma MonthEndsWithinYear(year: int, month: int)
    requires 1 <= month <= 12
    ensures DaysBeforeMonth(year, month) + LengthOfMonth(year, month) <= LengthOfYear(year)
  {
    MonthsTile(year, 12);
    if month < 12 {
      MonthsOrdered(year, month, 12);
    }
  }

  /** Zero-based day of the year: 0 for January 1st. */
  function DayOfYear0(d: LocalDate): (n: int)
    ensures 0 <= n < LengthOfYear(d.year)
  {
    MonthEndsWithinYear(d.year, d.month);
    DaysBeforeMonth(d.year, d.month) + d.day - 1
  }

  /** LocalDate.toEpochDay: days since 1970-01-01. */
  function ToEpochDay(d: LocalDate): (e: int)
    ensures DaysBeforeYear(d.year) <= e + Days0000To1970 < DaysBeforeYear(d.year + 1)
  {
    DaysBeforeNextYear(d.year);
    DaysBeforeYear(d.year) + DayOfYear0(d) - Days0000To1970
  }

  /** The year, counted from the start of its 400-year cycle, in which day `dayOfCycle` falls. */
  function YearOfCycle(dayOfCycle: int, guess: int): (y: int)
    requires 0 <= dayOfCycle && 0 <= guess && dayOfCycle < DaysBeforeYear(guess + 1)
    ensures 0 <= y <= guess && DaysBeforeYear(y) <= dayOfCycle < DaysBeforeYear(y + 1)
    decreases guess
  {
    if DaysBeforeYear(guess) <= dayOfCycle then guess else YearOfCycle(dayOfCycle, guess - 1)
  }

  /** The month of `year`, at most `upTo`, in which zero-based day `dayOfYear` falls. */
  function MonthOfYear(year: int, dayOfYear: int, upTo: int): (m: int)
    requires 1 <= upTo <= 12 && 0 <= dayOfYear
    ensures 1 <= m <= upTo && DaysBeforeMonth(year, m) <= dayOfYear
    ensures m < upTo ==> dayOfYear < DaysBeforeMonth(year, m + 1)
    decreases upTo
  {
    if DaysBeforeMonth(year, upTo) <= dayOfYear then upTo else MonthOfYear(year, dayOfYear, upTo - 1)
  }

  lemma GuessBound(dayOfCycle: int)
    requires 0 <= dayOfCycle
    ensures dayOfCycle < DaysBeforeYear(dayOfCycle / 365 + 1)
  {
    var y := dayOfCycle / 365 + 1;
    assert (y + 3) / 4 >= (y + 99) / 100;
  }

  /** LocalDate.ofEpochDay: the date `epochDay` days after 1970-01-01. */
  function FromEpochDay(epochDay: int): (d: LocalDate)
    ensures ToEpochDay(d) == epochDay
  {
    var zeroDay := epochDay + Days0000To1970;
    var cycles := zeroDay / 146097;
    var dayOfCycle := zeroDay % 146097;
    GuessBound(dayOfCycle);
    var yearOfCycle := YearOfCycle(dayOfCycle, dayOfCycle / 365);
    var year := 400 * cycles + yearOfCycle;
    CycleShift(cycles, yearOfCycle);
    CycleShift(cycles, yearOfCycle + 1);
    DaysBeforeNextYear(year);
    DateOfDayOfYear(year, zeroDay - DaysBeforeYear(year))
  }

  /** The date of `year` with zero-based day of year `dayOfYear`. */
  function DateOfDayOfYear(year: int, dayOfYear: int): (d: LocalDate)
    requires 0 <= dayOfYear < LengthOfYear(year)
    ensures d.year == year && DayOfYear0(d) == dayOfYear
  {
    var month := MonthOfYear(year, dayOfYear, 12);
    MonthsTile(year, month);
    Date(year, month, dayOfYear - DaysBeforeMonth(year, month) + 1)
  }

  // ---------------------------------------------------------------------------
  // Ordering
  // ---------------------------------------------------------------------------

  /** LocalDate.compareTo: by year, then month, then day. */
  function CompareTo(a: Date, b: Date): (c: int)
    ensures c == 0 <==> a == b
    ensures 1 <= a.month <= 12 && 1 <= b.month <= 12 ==>
      (c < 0 <==> ProlepticMonth(a) < ProlepticMonth(b) || (ProlepticMonth(a) == ProlepticMonth(b) && a.day < b.day))
  {
    if a.year != b.year then a.year - b.year
    else if a.month != b.month then a.month - b.month
    else a.day - b.day
  }

  /** LocalDate.isBefore. */
  predicate IsBefore(a: Date, b: Date)
    ensures 1 <= a.month <= 12 && 1 <= b.month <= 12 ==>
      (IsBefore(a, b) <==> ProlepticMonth(a) < ProlepticMonth(b) || (ProlepticMonth(a) == ProlepticMonth(b) && a.day < b.day))
  {
    CompareTo(a, b) < 0
  }

  /** LocalDate.isEqual. */
  predicate IsEqual(a: Date, b: Date)
    ensures IsEqual(a, b) <==> a == b
  {
    CompareTo(a, b) == 0
  }

  /** isEqual is equality of dates, and isBefore is a strict total order. */
  lemma CompareIsTotalOrder(a: Date, b: Date, c: Date)
    ensures IsEqual(a, b) <==> a == b
    ensures !IsBefore(a, a)
    ensures 1 <= a.month <= 12 && 1 <= b.month <= 12 ==>
      (IsBefore(a, b) <==> ProlepticMonth(a) < ProlepticMonth(b) || (ProlepticMonth(a) == ProlepticMonth(b) && a.day < b.day))
    ensures IsBefore(a, b) && IsBefore(b, c) ==> IsBefore(a, c)
    ensures IsBefore(a, b) || IsEqual(a, b) || IsBefore(b, a)
  {
  }

  /** The epoch-day count preserves and reflects the order of dates. */
  lemma EpochDayOrder(a: LocalDate, b: LocalDate)
    ensures IsBefore(a, b) <==> ToEpochDay(a) < ToEpochDay(b)
  {
    if a.year < b.year {
      YearsOrdered(a.year, b.year);
    } else if b.year < a.year {
      YearsOrdered(b.year, a.year);
    } else if a.month < b.month {
      MonthsOrdered(a.year, a.month, b.month);
    } else if b.month < a.month {
      MonthsOrdered(a.year, b.month, a.month);
    }
  }

  lemma EpochDayInjective(a: LocalDate, b: LocalDate)
    requires ToEpochDay(a) == ToEpochDay(b)
    ensures a == b
  {
    EpochDayOrder(a, b);
    EpochDayOrder(b, a);
  }

  /** The epoch: 1970-01-01 is day 0, a Thursday, and the day before it is day -1. */
  lemma Epoch()
    ensures ToEpochDay(Date(1970, 1, 1)) == 0 && ToEpochDay(Date(1969, 12, 31)) == -1
    ensures DayOfWeekOf(Date(1970, 1, 1)) == Thursday
  {
  }

  /** toEpochDay and ofEpochDay are mutual inverses. */
  lemma EpochDayRoundTrip(d: LocalDate, n: int)
    ensures FromEpochDay(ToEpochDay(d)) == d
    ensures ToEpochDay(FromEpochDay(n)) == n
  {
    EpochDayInjective(FromEpochDay(ToEpochDay(d)), d);
  }

  // ---------------------------------------------------------------------------
  // Day of week
  // ---------------------------------------------------------------------------

  /** java.time.DayOfWeek; its value runs from 1 (Monday) to 7 (Sunday). */
  datatype DayOfWeek = Monday | Tuesday | Wednesday | Thursday | Friday | Saturday | Sunday

  function Value(w: DayOfWeek): (v: int)
    ensures 1 <= v <= 7
  {
    match w
    case Monday => 1
    case Tuesday => 2
    case Wednesday => 3
    case Thursday => 4
    case Friday => 5
    case Saturday => 6
    case Sunday => 7
  }

  /** DayOfWeek.of(value). */
  function DayOfWeekFromValue(v: int): (w: DayOfWeek)
    requires 1 <= v <= 7
    ensures Value(w) == v
  {
    if v == 1 then Monday
    else if v == 2 then Tuesday
    else if v == 3 then Wednesday
    else if v == 4 then Thursday
    else if v == 5 then Friday
    else if v == 6 then Saturday
    else Sunday
  }

  /** The day of week of an epoch day; 1970-01-01 was a Thursday. */
  function DayOfWeekOfEpochDay(epochDay: int): (w: DayOfWeek)
    ensures Value(w) == (epochDay + 3) % 7 + 1
  {
    DayOfWeekFromValue((epochDay + 3) % 7 + 1)
  }

  /** LocalDate.getDayOfWeek. */
  function DayOfWeekOf(d: LocalDate): (w: DayOfWeek)
    ensures Value(w) == (ToEpochDay(d) + 3) % 7 + 1
  {
    DayOfWeekOfEpochDay(ToEpochDay(d))
  }

  /** Each day is followed by the next day of the week, Sunday by Monday. */
  lemma DayOfWeekSucceeds(epochDay: int)
    ensures Value(DayOfWeekOfEpochDay(epochDay + 1)) == Value(DayOfWeekOfEpochDay(epochDay)) % 7 + 1
  {
  }

  /** The day of week repeats every seven days, forwards and backwards. */
  lemma DayOfWeekPeriodic(epochDay: int, weeks: int)
    ensures DayOfWeekOfEpochDay(epochDay + 7 * weeks) == DayOfWeekOfEpochDay(epochDay)
  {
    var x := epochDay + 3;
    assert x + 7 * weeks == 7 * (x / 7 + weeks) + x % 7;
    assert (x + 7 * weeks) % 7 == x % 7;
    assert Value(DayOfWeekOfEpochDay(epochDay + 7 * weeks)) == Value(DayOfWeekOfEpochDay(epochDay));
  }

  // ---------------------------------------------------------------------------
  // Arithmetic
  // ---------------------------------------------------------------------------

  /** LocalDate.plusDays: exact day counting, never clamped. */
  function PlusDays(d: LocalDate, days: int): (r: LocalDate)
    ensures ToEpochDay(r) == ToEpochDay(d) + days
  {
    if days == 0 then d else FromEpochDay(ToEpochDay(d) + days)
  }

  /** LocalDate.minusDays (and minus(n, DAYS)). */
  function MinusDays(d: LocalDate, days: int): (r: LocalDate)
    ensures ToEpochDay(r) == ToEpochDay(d) - days
  {
    PlusDays(d, -days)
  }

  /** LocalDate.plusWeeks: seven days per week, so the day of week is kept. */
  function PlusWeeks(d: LocalDate, weeks: int): (r: LocalDate)
    ensures ToEpochDay(r) == ToEpochDay(d) + 7 * weeks
    ensures DayOfWeekOf(r) == DayOfWeekOf(d)
  {
    DayOfWeekPeriodic(ToEpochDay(d), weeks);
    PlusDays(d, 7 * weeks)
  }

  lemma {:induction false} PlusDaysAdditive(d: LocalDate, a: int, b: int)
    ensures PlusDays(PlusDays(d, a), b) == PlusDays(d, a + b)
  {
    EpochDayInjective(PlusDays(PlusDays(d, a), b), PlusDays(d, a + b));
  }

  lemma PlusDaysMovesForward(d: LocalDate, days: int)
    requires days > 0
    ensures IsBefore(d, PlusDays(d, days))
  {
    EpochDayOrder(d, PlusDays(d, days));
  }

  /** LocalDate.getProlepticMonth: months since January of year 0. */
  function ProlepticMonth(d: Date): (m: int)
    ensures 1 <= d.month <= 12 ==> m / 12 == d.year && m % 12 == d.month - 1
  {
    d.year * 12 + d.month - 1
  }

  /** A date of an earlier month is an earlier date. */
  lemma ProlepticMonthOrder(a: LocalDate, b: LocalDate)
    ensures ProlepticMonth(a) < ProlepticMonth(b) ==> IsBefore(a, b)
  {
  }

  lemma ProlepticMonthInjective(a: LocalDate, b: LocalDate)
    requires ProlepticMonth(a) == ProlepticMonth(b)
    ensures a.year == b.year && a.month == b.month
  {
  }

  /**
   * LocalDate.resolvePreviousValid: the latest valid date of the month that is
   * not after the given day, so a day past the month's end becomes its last day.
   */
  function ResolvePreviousValid(year: int, month: int, day: int): (r: LocalDate)
    requires 1 <= month <= 12 && 1 <= day
    ensures r.year == year && r.month == month
    ensures r.day == if day <= LengthOfMonth(year, month) then day else LengthOfMonth(year, month)
    ensures r.day <= day && forall k :: r.day < k <= day ==> !Valid(Date(year, month, k))
  {
    var last := LengthOfMonth(year, month);
    Date(year, month, if day < last then day else last)
  }

  /** LocalDate.plusMonths: moves the proleptic month, then clamps the day to the month's end. */
  function PlusMonths(d: LocalDate, months: int): (r: LocalDate)
    ensures ProlepticMonth(r) == ProlepticMonth(d) + months
    ensures r.day == if d.day <= LengthOfMonth(r.year, r.month) then d.day else LengthOfMonth(r.year, r.month)
  {
    if months == 0 then d
    else
      var calcMonths := ProlepticMonth(d) + months;
      ResolvePreviousValid(calcMonths / 12, calcMonths % 12 + 1, d.day)
  }

  /** LocalDate.plusYears: moves the year, then clamps February 29th to the 28th. */
  function PlusYears(d: LocalDate, years: int): (r: LocalDate)
    ensures r.year == d.year + years && r.month == d.month
    ensures r.day == if d.day <= LengthOfMonth(r.year, r.month) then d.day else LengthOfMonth(r.year, r.month)
  {
    if years == 0 then d else ResolvePreviousValid(d.year + years, d.month, d.day)
  }

  /** Adding years is adding twelve months per year. */
  lemma PlusYearsIsTwelveMonths(d: LocalDate, years: int)
    ensures PlusYears(d, years) == PlusMonths(d, 12 * years)
  {
    ProlepticMonthInjective(PlusYears(d, years), PlusMonths(d, 12 * years));
  }

  /** Month steps compose when no clamping happens, that is up to the 28th. */
  lemma PlusMonthsAdditive(d: LocalDate, a: int, b: int)
    requires d.day <= 28
    ensures PlusMonths(PlusMonths(d, a), b) == PlusMonths(d, a + b)
  {
    ProlepticMonthInjective(PlusMonths(PlusMonths(d, a), b), PlusMonths(d, a + b));
  }

  /** Month.plus(months): the month `months` later, going round past December. */
  function MonthPlus(month: int, months: int): (r: int)
    requires 1 <= month <= 12
    ensures 1 <= r <= 12
    ensures (r - month - months) % 12 == 0
  {
    var amount := JavaRem(months, 12);
    (month - 1 + (amount + 12)) % 12 + 1
  }

  /** One month on: the following month, and January after December. */
  lemma MonthPlusOne(month: int)
    requires 1 <= month <= 12
    ensures MonthPlus(month, 1) == if month < 12 then month + 1 else 1
  {
  }

  // ---------------------------------------------------------------------------
  // MonthDay
  // ---------------------------------------------------------------------------

  /** java.time.MonthDay: a month and day without a year. */
  datatype MonthDay = MonthDay(month: int, day: int)

  /** Month.maxLength: the longest the month can be in any year. */
  function MaxLength(month: int): (n: int)
    requires 1 <= month <= 12
    ensures forall year :: LengthOfMonth(year, month) <= n
    ensures LengthOfMonth(2000, month) == n
  {
    if month == 2 then 29
    else if month == 4 || month == 6 || month == 9 || month == 11 then 30
    else 31
  }

  predicate ValidMonthDay(md: MonthDay) {
    1 <= md.month <= 12 && 1 <= md.day <= MaxLength(md.month)
  }

  /** MonthDay.of(month, day): fails on a day that no year has in that month. */
  function MonthDayOf(month: int, day: int): (r: Result<MonthDay>)
    ensures r.Ok? <==> ValidMonthDay(MonthDay(month, day))
    ensures r.Ok? ==> r.value == MonthDay(month, day)
  {
    if !(1 <= month <= 12) then Err(MonthOutOfRange)
    else if !(1 <= day <= 31) then Err(DayOutOfRange)
    else if day > MaxLength(month) then Err(DayBeyondMonthLength)
    else Ok(MonthDay(month, day))
  }

  /** MonthDay.isValidYear: only February 29th is ever missing, in years that are not leap years. */
  predicate IsValidYear(md: MonthDay, year: int)
    ensures ValidMonthDay(md) ==> (IsValidYear(md, year) <==> Valid(Date(year, md.month, md.day)))
  {
    !(md.day == 29 && md.month == 2 && !IsLeapYear(year))
  }
}
