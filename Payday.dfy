/**
 * The two calendar rules the test class defines itself: the WorkDays query and
 * the NextPaydayAdjuster (payday is the 11th, moved back to Friday when the 11th
 * falls on a weekend).
 */
module Payday {
  import opened LocalDates
  import opened Adjusters

  /** WorkDays.queryFrom: false on Saturdays and Sundays, true Monday to Friday. */
  function WorkDaysQuery(d: LocalDate): (r: bool)
    ensures r <==> Value(DayOfWeekOf(d)) <= 5
  {
    if DayOfWeekOf(d) == Sunday || DayOfWeekOf(d) == Saturday then false else true
  }

  /** The query only looks at the day of week, so it repeats every week. */
  lemma WorkDaysWeekly(d: LocalDate, weeks: int)
    ensures WorkDaysQuery(PlusWeeks(d, weeks)) == WorkDaysQuery(d)
  {
  }

  /**
   * NextPaydayAdjuster.adjustForWeekends: a weekday is kept, a Saturday or
   * Sunday becomes the Friday just before it.
   */
  function AdjustForWeekends(payday: LocalDate): (r: LocalDate)
    ensures WorkDaysQuery(r)
    ensures WorkDaysQuery(payday) ==> r == payday
    ensures !WorkDaysQuery(payday) ==> DayOfWeekOf(r) == Friday
    ensures !WorkDaysQuery(payday) ==>
      ToEpochDay(payday) - ToEpochDay(r) == (if DayOfWeekOf(payday) == Saturday then 1 else 2)
    ensures !IsBefore(payday, r)
  {
    if DayOfWeekOf(payday) == Sunday || DayOfWeekOf(payday) == Saturday then
      var r := Previous(payday, Friday);
      assert Value(DayOfWeekOfEpochDay(ToEpochDay(payday) - 1)) == (ToEpochDay(payday) + 2) % 7 + 1;
      assert DayOfWeekOf(payday) == Sunday ==>
        Value(DayOfWeekOfEpochDay(ToEpochDay(payday) - 2)) == (ToEpochDay(payday) + 1) % 7 + 1;
      EpochDayOrder(payday, r);
      r
    else
      payday
  }

  /** A date is a workday exactly when adjustForWeekends leaves it alone. */
  lemma WorkDaysAreFixedPoints(d: LocalDate)
    ensures WorkDaysQuery(d) <==> AdjustForWeekends(d) == d
  {
  }

  /**
   * The payday of a month: LocalDate.of(year, month, 11) passed through
   * adjustForWeekends. It is the 11th, or Friday the 10th or 9th.
   */
  function PaydayOf(year: int, month: int): (r: LocalDate)
    requires 1 <= month <= 12
    ensures r.year == year && r.month == month && 9 <= r.day <= 11
    ensures WorkDaysQuery(r)
    ensures r.day == 11 <==> WorkDaysQuery(Date(year, month, 11))
    ensures r.day == 10 <==> DayOfWeekOf(Date(year, month, 11)) == Saturday
    ensures r.day == 9 <==> DayOfWeekOf(Date(year, month, 11)) == Sunday
  {
    var eleventh := Of(year, month, 11).value;
    WeekendEleventh(eleventh);
    AdjustForWeekends(eleventh)
  }

  /** A Saturday 11th becomes Friday the 10th, a Sunday 11th Friday the 9th, both in the same month. */
  lemma WeekendEleventh(eleventh: LocalDate)
    requires eleventh.day == 11
    ensures DayOfWeekOf(eleventh) == Saturday ==> AdjustForWeekends(eleventh) == Date(eleventh.year, eleventh.month, 10)
    ensures DayOfWeekOf(eleventh) == Sunday ==> AdjustForWeekends(eleventh) == Date(eleventh.year, eleventh.month, 9)
  {
    var r := AdjustForWeekends(eleventh);
    if DayOfWeekOf(eleventh) == Saturday {
      EpochDayInjective(r, Date(eleventh.year, eleventh.month, 10));
    } else if DayOfWeekOf(eleventh) == Sunday {
      EpochDayInjective(r, Date(eleventh.year, eleventh.month, 9));
    }
  }

  /**
   * NextPaydayAdjuster.adjustInto: this month's payday when the date is on or
   * before it, otherwise the payday of Month.plus(1) in the SAME year.
   */
  function AdjustInto(date: LocalDate): (r: LocalDate)
    ensures r == PaydayOf(r.year, r.month) && r.year == date.year
    ensures r.month == date.month <==> !IsBefore(PaydayOf(date.year, date.month), date)
    ensures r.month != date.month ==> r.month == MonthPlus(date.month, 1)
    ensures date.month < 12 ==> !IsBefore(r, date)
  {
    var thisMonthPayday := PaydayOf(date.year, date.month);
    if IsBefore(date, thisMonthPayday) || IsEqual(date, thisMonthPayday) then
      thisMonthPayday
    else
      var nextMonthPayday := PaydayOf(date.year, MonthPlus(date.month, 1));
      MonthPlusOne(date.month);
      ProlepticMonthOrder(date, nextMonthPayday);
      nextMonthPayday
  }

  /** Every result of the adjuster is a workday between the 9th and the 11th. */
  lemma AdjustIntoShape(date: LocalDate)
    ensures WorkDaysQuery(AdjustInto(date))
    ensures 9 <= AdjustInto(date).day <= 11
  {
  }

  /**
   * As written, a December date after December's payday is sent back to
   * January of the same year: the "next" payday lies before the date.
   */
  lemma DecemberGoesBack(date: LocalDate)
    requires date.month == 12 && IsBefore(PaydayOf(date.year, 12), date)
    ensures AdjustInto(date) == PaydayOf(date.year, 1)
    ensures IsBefore(AdjustInto(date), date)
  {
    MonthPlusOne(12);
  }

  /**
   * The evident intent of the adjuster: the payday of the month after, counted
   * with LocalDate.plusMonths so that December rolls over into the next year.
   */
  function NextPayday(date: LocalDate): (r: LocalDate)
    ensures r == PaydayOf(r.year, r.month)
    ensures !IsBefore(r, date)
    ensures !IsBefore(PaydayOf(date.year, date.month), date) ==> r == PaydayOf(date.year, date.month)
    ensures IsBefore(PaydayOf(date.year, date.month), date) ==> ProlepticMonth(r) == ProlepticMonth(date) + 1
  {
    var thisMonthPayday := PaydayOf(date.year, date.month);
    if IsBefore(date, thisMonthPayday) || IsEqual(date, thisMonthPayday) then
      thisMonthPayday
    else
      var nextMonth := PlusMonths(Of(date.year, date.month, 11).value, 1);
      var nextMonthPayday := PaydayOf(nextMonth.year, nextMonth.month);
      assert ProlepticMonth(nextMonthPayday) == ProlepticMonth(date) + 1;
      ProlepticMonthOrder(date, nextMonthPayday);
      nextMonthPayday
  }

  /** The corrected adjuster returns the earliest payday on or after the date. */
  lemma NextPaydayIsEarliest(date: LocalDate, year: int, month: int)
    requires 1 <= month <= 12 && !IsBefore(PaydayOf(year, month), date)
    ensures !IsBefore(PaydayOf(year, month), NextPayday(date))
  {
    var p := PaydayOf(year, month);
    var r := NextPayday(date);
    if ProlepticMonth(p) < ProlepticMonth(date) {
      ProlepticMonthOrder(p, date);
    } else if ProlepticMonth(p) == ProlepticMonth(date) {
      ProlepticMonthInjective(p, date);
    } else if ProlepticMonth(r) == ProlepticMonth(p) {
      ProlepticMonthInjective(p, r);
    }
  }

  /** The adjuster as written and the corrected one differ only on December dates after payday. */
  lemma AgreesOutsideDecember(date: LocalDate)
    requires date.month < 12 || !IsBefore(PaydayOf(date.year, date.month), date)
    ensures AdjustInto(date) == NextPayday(date)
  {
    if IsBefore(PaydayOf(date.year, date.month), date) {
      var nextMonth := PlusMonths(Of(date.year, date.month, 11).value, 1);
      assert nextMonth.year == date.year && nextMonth.month == date.month + 1;
      MonthPlusOne(date.month);
    }
  }
}
