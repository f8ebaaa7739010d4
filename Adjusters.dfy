/**
 * The two library adjusters the test class uses: TemporalAdjusters.next and
 * TemporalAdjusters.previous, both strict (the date itself is never the answer).
 */
module Adjusters {
  import opened LocalDates

  /** The forward distance used by `next` reaches `dayOfWeek`, and no day before it does. */
  lemma ForwardDistance(epochDay: int, dayOfWeek: DayOfWeek, gap: int)
    requires var diff := Value(DayOfWeekOfEpochDay(epochDay)) - Value(dayOfWeek);
      gap == if diff >= 0 then 7 - diff else -diff
    ensures 1 <= gap <= 7 && DayOfWeekOfEpochDay(epochDay + gap) == dayOfWeek
    ensures forall e :: epochDay < e < epochDay + gap ==> DayOfWeekOfEpochDay(e) != dayOfWeek
  {
    ForwardValues(epochDay, Value(dayOfWeek));
    ValueInjective(DayOfWeekOfEpochDay(epochDay + gap), dayOfWeek);
  }

  /** The forward distance on day-of-week values. */
  lemma ForwardValues(epochDay: int, t: int)
    requires 1 <= t <= 7
    ensures var diff := Value(DayOfWeekOfEpochDay(epochDay)) - t;
      var gap := if diff >= 0 then 7 - diff else -diff;
      1 <= gap <= 7 && Value(DayOfWeekOfEpochDay(epochDay + gap)) == t &&
      forall e :: epochDay < e < epochDay + gap ==> Value(DayOfWeekOfEpochDay(e)) != t
  {
    var x := (epochDay + 3) % 7;
    var q := (epochDay + 3) / 7;
    forall e | epochDay < e <= epochDay + 7
      ensures Value(DayOfWeekOfEpochDay(e)) == if x + (e - epochDay) < 7 then x + (e - epochDay) + 1 else x + (e - epochDay) - 6
    {
      var k := e - epochDay;
      if x + k < 7 {
        assert epochDay + k + 3 == 7 * q + (x + k);
      } else {
        assert epochDay + k + 3 == 7 * (q + 1) + (x + k - 7);
      }
    }
  }

  /** The backward distance used by `previous` reaches `dayOfWeek`, and no day after it does. */
  lemma BackwardDistance(epochDay: int, dayOfWeek: DayOfWeek, gap: int)
    requires var diff := Value(dayOfWeek) - Value(DayOfWeekOfEpochDay(epochDay));
      gap == if diff >= 0 then 7 - diff else -diff
    ensures 1 <= gap <= 7 && DayOfWeekOfEpochDay(epochDay - gap) == dayOfWeek
    ensures forall e :: epochDay - gap < e < epochDay ==> DayOfWeekOfEpochDay(e) != dayOfWeek
  {
    BackwardValues(epochDay, Value(dayOfWeek));
    ValueInjective(DayOfWeekOfEpochDay(epochDay - gap), dayOfWeek);
  }

  /** The backward distance on day-of-week values. */
  lemma BackwardValues(epochDay: int, t: int)
    requires 1 <= t <= 7
    ensures var diff := t - Value(DayOfWeekOfEpochDay(epochDay));
      var gap := if diff >= 0 then 7 - diff else -diff;
      1 <= gap <= 7 && Value(DayOfWeekOfEpochDay(epochDay - gap)) == t &&
      forall e :: epochDay - gap < e < epochDay ==> Value(DayOfWeekOfEpochDay(e)) != t
  {
    var x := (epochDay + 3) % 7;
    var q := (epochDay + 3) / 7;
    forall e | epochDay - 7 <= e < epochDay
      ensures Value(DayOfWeekOfEpochDay(e)) == if x - (epochDay - e) >= 0 then x - (epochDay - e) + 1 else x - (epochDay - e) + 8
    {
      var k := epochDay - e;
      if x - k >= 0 {
        assert epochDay - k + 3 == 7 * q + (x - k);
      } else {
        assert epochDay - k + 3 == 7 * (q - 1) + (x - k + 7);
      }
    }
  }

  lemma ValueInjective(a: DayOfWeek, b: DayOfWeek)
    requires Value(a) == Value(b)
    ensures a == b
  {
  }

  /** TemporalAdjusters.next(dayOfWeek): the first later date that falls on `dayOfWeek`. */
  function Next(d: LocalDate, dayOfWeek: DayOfWeek): (r: LocalDate)
    ensures DayOfWeekOf(r) == dayOfWeek
    ensures 1 <= ToEpochDay(r) - ToEpochDay(d) <= 7
    ensures forall e :: ToEpochDay(d) < e < ToEpochDay(r) ==> DayOfWeekOfEpochDay(e) != dayOfWeek
  {
    var calDow := Value(DayOfWeekOf(d));
    var daysDiff := calDow - Value(dayOfWeek);
    var gap := if daysDiff >= 0 then 7 - daysDiff else -daysDiff;
    var r := PlusDays(d, gap);
    ForwardStep(d, dayOfWeek, gap, r);
    r
  }

  /** A date `gap` days after `d`, with `gap` the forward distance, is the first one on `dayOfWeek`. */
  lemma ForwardStep(d: LocalDate, dayOfWeek: DayOfWeek, gap: int, r: LocalDate)
    requires var diff := Value(DayOfWeekOf(d)) - Value(dayOfWeek);
      gap == if diff >= 0 then 7 - diff else -diff
    requires ToEpochDay(r) == ToEpochDay(d) + gap
    ensures DayOfWeekOf(r) == dayOfWeek
    ensures 1 <= ToEpochDay(r) - ToEpochDay(d) <= 7
    ensures forall e :: ToEpochDay(d) < e < ToEpochDay(r) ==> DayOfWeekOfEpochDay(e) != dayOfWeek
  {
    ForwardDistance(ToEpochDay(d), dayOfWeek, gap);
  }

  /** TemporalAdjusters.previous(dayOfWeek): the last earlier date that falls on `dayOfWeek`. */
  function Previous(d: LocalDate, dayOfWeek: DayOfWeek): (r: LocalDate)
    ensures DayOfWeekOf(r) == dayOfWeek
    ensures 1 <= ToEpochDay(d) - ToEpochDay(r) <= 7
    ensures forall e :: ToEpochDay(r) < e < ToEpochDay(d) ==> DayOfWeekOfEpochDay(e) != dayOfWeek
  {
    var calDow := Value(DayOfWeekOf(d));
    var daysDiff := Value(dayOfWeek) - calDow;
    var gap := if daysDiff >= 0 then 7 - daysDiff else -daysDiff;
    var r := MinusDays(d, gap);
    BackwardStep(d, dayOfWeek, gap, r);
    r
  }

  /** A date `gap` days before `d`, with `gap` the backward distance, is the last one on `dayOfWeek`. */
  lemma BackwardStep(d: LocalDate, dayOfWeek: DayOfWeek, gap: int, r: LocalDate)
    requires var diff := Value(dayOfWeek) - Value(DayOfWeekOf(d));
      gap == if diff >= 0 then 7 - diff else -diff
    requires ToEpochDay(r) == ToEpochDay(d) - gap
    ensures DayOfWeekOf(r) == dayOfWeek
    ensures 1 <= ToEpochDay(d) - ToEpochDay(r) <= 7
    ensures forall e :: ToEpochDay(r) < e < ToEpochDay(d) ==> DayOfWeekOfEpochDay(e) != dayOfWeek
  {
    BackwardDistance(ToEpochDay(d), dayOfWeek, gap);
  }

  /** Both adjusters are strict: applied to a date already on `dayOfWeek` they move a whole week. */
  lemma StrictOnSameDay(d: LocalDate)
    ensures Next(d, DayOfWeekOf(d)) == PlusWeeks(d, 1)
    ensures Previous(d, DayOfWeekOf(d)) == PlusWeeks(d, -1)
  {
    EpochDayInjective(Next(d, DayOfWeekOf(d)), PlusWeeks(d, 1));
    EpochDayInjective(Previous(d, DayOfWeekOf(d)), PlusWeeks(d, -1));
  }
}
