/**
 * The whole-calendar tests of `security.js` and `security.php`, by month counts and day
 * differences, against the calendar addition of `period.ts`. Both servers compute the day
 * difference with a library that reads some small years as years of another century.
 */
module ServerCalendar {
  import opened Calendar
  import opened CalendarTiling
  import opened DateTimes
  import opened Periods
  import opened ReferenceServer
  import opened Wrappers

  /** The year that `Date.UTC` reads a year as. */
  function JsYear(year: int): int {
    if 0 <= year <= 99 then 1900 + year else year
  }

  /** The year that `gmmktime` reads a year as. */
  function PhpYear(year: int): int {
    if 0 <= year < 70 then 2000 + year else if 70 <= year <= 100 then 1900 + year else year
  }

  /** The day of a date once its year is read as another; a February 29 may run over. */
  function DayIn(read: int -> int, d: Date): int {
    MakeDay(read(d.year), d.month - 1, d.day)
  }

  /** The test of a server that reads years so: by fields for months and years, by the day difference for a day. */
  predicate ServerWholeDates(read: int -> int, first: Date, next: Date, unit: Granularity) {
    match unit
    case Yearly => first.month == 1 && first.day == 1 && next.month == 1 && next.day == 1 && next.year == first.year + 1
    case Monthly => first.day == 1 && next.day == 1 && (next.year - first.year) * 12 + next.month - first.month == 1
    case Daily => DayIn(read, next) - DayIn(read, first) == 1
  }

  predicate ServerIsWhole(read: int -> int, p: Period, unit: Granularity)
    requires JsParse(p.start).Some? && JsParse(p.end).Some?
  {
    var start, end := JsParse(p.start).value, JsParse(p.end).value;
    start.midnight && end.midnight && ServerWholeDates(read, start.date, end.date, unit)
  }

  /** A moment as `gmmktime` gives it, with the year it reads; none for a year before 0001, which `checkdate` refuses. */
  function PhpParse(value: string): Option<Moment> {
    var m := JsParse(value);
    if m.None? || m.value.date.year < 1 then None else
    var d := m.value.date;
    Some(m.value.(seconds := m.value.seconds + SECONDS_PER_DAY * (DayIn(PhpYear, d) - MakeDay(d.year, d.month - 1, d.day))))
  }

  predicate PhpIsWhole(p: Period, unit: Granularity)
    requires PhpParse(p.start).Some? && PhpParse(p.end).Some?
  {
    var start, end := PhpParse(p.start).value, PhpParse(p.end).value;
    start.midnight && end.midnight && ServerWholeDates(PhpYear, start.date, end.date, unit)
  }

  // ---- Months and years ----

  lemma MonthsAndYearsAgree(read: int -> int, first: Date, next: Date, unit: Granularity)
    requires IsDate(first) && IsDate(next) && unit != Daily
    ensures ServerWholeDates(read, first, next, unit) <==> WholeDates(first, next, unit)
  {
    if unit == Monthly && first.day == 1 {
      var count := 12 * first.year + first.month;
      assert count == 12 * (count / 12) + count % 12;
    }
  }

  // ---- Days ----

  lemma DayInYear(read: int -> int, d: Date)
    requires IsDate(d)
    ensures var year := read(d.year);
      && DayIn(read, d) == DaysBeforeYear(year) + DaysBeforeMonth(year, d.month) + d.day - 1
      && DaysBeforeYear(year) <= DayIn(read, d) < DaysBeforeYear(year + 1)
      && (DayIn(read, d) == DaysBeforeYear(year) <==> d.month == 1 && d.day == 1)
      && (DayIn(read, d) == DaysBeforeYear(year + 1) - 1 <==> d.month == 12 && d.day == 31)
  {
    hide DaysBeforeYear;
    hide IsLeapYear;
    assert (d.month - 1) / 12 == 0 && (d.month - 1) % 12 == d.month - 1;
    YearLength(read(d.year));
  }

  /** Whether the two years keep their days apart when read: equal years stay equal and as long, neighbours stay neighbours, others neither. */
  predicate KeepsDays(read: int -> int, y1: int, y2: int) {
    && (y1 == y2 <==> read(y1) == read(y2))
    && (y2 == y1 + 1 <==> read(y2) == read(y1) + 1)
    && (y1 == y2 ==> IsLeapYear(y1) == IsLeapYear(read(y1)))
  }

  function Identity(year: int): int {
    year
  }

  lemma NextByDayNumber(first: Date, next: Date)
    requires IsDate(first) && IsDate(next)
    ensures AddDays(first, 1) == next <==> DayIn(Identity, next) - DayIn(Identity, first) == 1
  {
    hide DaysBeforeYear;
    hide DaysBeforeMonth;
    hide DaysInMonth;
    hide FromDayNumber;
    MakeDayOfDate(first);
    MakeDayOfDate(next);
    if DayNumber(next) == DayNumber(first) + 1 {
      FromDayNumberInverse(next);
    }
  }

  /** A difference of one day, in the years as read, is within one year or over the end of one. */
  lemma OneDayApart(read: int -> int, first: Date, next: Date)
    requires IsDate(first) && IsDate(next)
    ensures DayIn(read, next) - DayIn(read, first) == 1 <==>
      var y1, y2 := read(first.year), read(next.year);
      || (y1 == y2 && DaysBeforeMonth(y2, next.month) + next.day == DaysBeforeMonth(y1, first.month) + first.day + 1)
      || (y2 == y1 + 1 && first.month == 12 && first.day == 31 && next.month == 1 && next.day == 1)
  {
    hide DaysBeforeYear;
    hide DaysBeforeMonth;
    hide DayIn;
    hide IsDate;
    DayInYear(read, first);
    DayInYear(read, next);
    var y1, y2 := read(first.year), read(next.year);
    if y1 < y2 {
      YearsAscend(y1 + 1, y2);
      if y1 + 1 < y2 {
        YearsAscend(y1 + 2, y2);
        YearLength(y1 + 1);
      }
    } else if y2 < y1 {
      YearsAscend(y2 + 1, y1);
    }
  }

  lemma SameLengthSameMonths(a: int, b: int, month: int)
    requires IsLeapYear(a) == IsLeapYear(b)
    ensures DaysBeforeMonth(a, month) == DaysBeforeMonth(b, month)
  {
  }

  lemma KeptDaysAgree(read: int -> int, first: Date, next: Date)
    requires IsDate(first) && IsDate(next) && KeepsDays(read, first.year, next.year)
    ensures ServerWholeDates(read, first, next, Daily) <==> WholeDates(first, next, Daily)
  {
    hide DaysBeforeMonth;
    hide DayIn;
    hide IsDate;
    hide IsLeapYear;
    hide AddDays;
    NextByDayNumber(first, next);
    OneDayApart(read, first, next);
    OneDayApart(Identity, first, next);
    if first.year == next.year {
      SameLengthSameMonths(first.year, read(first.year), first.month);
      SameLengthSameMonths(first.year, read(first.year), next.month);
    }
  }

  lemma LostDays(read: int -> int, y1: int, y2: int) returns (first: Date, next: Date)
    requires !KeepsDays(read, y1, y2)
    ensures IsDate(first) && IsDate(next) && first.year == y1 && next.year == y2
    ensures ServerWholeDates(read, first, next, Daily) != WholeDates(first, next, Daily)
  {
    hide DayIn;
    hide AddDays;
    if y1 == y2 && IsLeapYear(y1) != IsLeapYear(read(y1)) {
      first, next := Date(y1, 2, 28), Date(y2, 3, 1);
    } else if (y1 == y2) != (read(y1) == read(y2)) {
      first, next := Date(y1, 1, 1), Date(y2, 1, 2);
    } else {
      first, next := Date(y1, 12, 31), Date(y2, 1, 1);
    }
    NextByDayNumber(first, next);
    OneDayApart(read, first, next);
    OneDayApart(Identity, first, next);
  }

  /** Two years are read without harm exactly when the daily test agrees with the calendar on every two dates of them. */
  lemma DailyTestAgreesIff(read: int -> int, y1: int, y2: int)
    ensures (forall first, next :: IsDate(first) && IsDate(next) && first.year == y1 && next.year == y2 ==>
               (ServerWholeDates(read, first, next, Daily) <==> WholeDates(first, next, Daily)))
            <==> KeepsDays(read, y1, y2)
  {
    hide WholeDates;
    hide ServerWholeDates;
    hide IsDate;
    hide KeepsDays;
    if KeepsDays(read, y1, y2) {
      forall first, next | IsDate(first) && IsDate(next) && first.year == y1 && next.year == y2
        ensures ServerWholeDates(read, first, next, Daily) <==> WholeDates(first, next, Daily)
      {
        KeptDaysAgree(read, first, next);
      }
    } else {
      var first, next := LostDays(read, y1, y2);
    }
  }

  // ---- What the reference scripts promise ----

  lemma YearsKept(y1: int, y2: int)
    ensures y1 >= 100 && y2 >= 100 ==> KeepsDays(JsYear, y1, y2)
    ensures y1 >= 101 && y2 >= 101 ==> KeepsDays(PhpYear, y1, y2)
  {
    hide IsLeapYear;
  }

  lemma DatesDecideWhole(read: int -> int, p: Period, unit: Granularity)
    requires HasBounds(p)
    requires unit == Daily ==> KeepsDays(read, Parse(p.start).value.date.year, Parse(p.end).value.date.year)
    ensures JsParse(p.start).Some? && JsParse(p.end).Some?
    ensures ServerIsWhole(read, p, unit) <==> IsWholeCalendarPeriod(p, unit)
  {
    hide Parse;
    hide JsParse;
    hide WholeDates;
    hide ServerWholeDates;
    hide KeepsDays;
    hide Instant;
    ServerReadsAsConsumer(p.start);
    ServerReadsAsConsumer(p.end);
    var first, next := Parse(p.start).value.date, Parse(p.end).value.date;
    ParsedFields(p.start);
    ParsedFields(p.end);
    if unit == Daily {
      KeptDaysAgree(read, first, next);
    } else {
      MonthsAndYearsAgree(read, first, next, unit);
    }
  }

  /** The PHP script reads a date-time exactly from year 0001 on, and shows the date and midnight that are written. */
  lemma PhpReads(value: string)
    requires IsDateTime(value)
    ensures JsParse(value).Some? && (PhpParse(value).Some? <==> Parse(value).value.date.year >= 1)
    ensures PhpParse(value).Some? ==>
      PhpParse(value).value.date == Parse(value).value.date && PhpParse(value).value.midnight == JsParse(value).value.midnight
  {
    hide Parse;
    hide JsParse;
    hide DayIn;
    hide MakeDay;
    ServerReadsAsConsumer(value);
  }

  lemma PhpIsWholeIff(p: Period, unit: Granularity)
    requires HasBounds(p) && PhpParse(p.start).Some? && PhpParse(p.end).Some?
    ensures JsParse(p.start).Some? && JsParse(p.end).Some?
    ensures PhpIsWhole(p, unit) <==> ServerIsWhole(PhpYear, p, unit)
  {
    hide Parse;
    hide JsParse;
    hide DayIn;
    hide MakeDay;
    hide ServerWholeDates;
  }

  /** On bounds in years 0100 to 9999, in any two offsets, the JavaScript test decides what the consumer's does. */
  lemma JsAgreesOnWholePeriods(p: Period, unit: Granularity)
    requires HasBounds(p)
    requires unit == Daily ==> Parse(p.start).value.date.year >= 100 && Parse(p.end).value.date.year >= 100
    ensures JsParse(p.start).Some? && JsParse(p.end).Some?
    ensures ServerIsWhole(JsYear, p, unit) <==> IsWholeCalendarPeriod(p, unit)
  {
    hide Parse;
    hide JsParse;
    hide IsWholeCalendarPeriod;
    hide ServerIsWhole;
    hide KeepsDays;
    YearsKept(Parse(p.start).value.date.year, Parse(p.end).value.date.year);
    DatesDecideWhole(JsYear, p, unit);
  }

  /**
   * The PHP script reads the bounds from year 0001 on, and then its test decides what the consumer's does: months and
   * years in all of them, days from year 0101 on, because it reads 100 as 2000.
   */
  lemma PhpAgreesOnWholePeriods(p: Period, unit: Granularity)
    requires HasBounds(p)
    ensures var y1, y2 := Parse(p.start).value.date.year, Parse(p.end).value.date.year;
      && (PhpParse(p.start).Some? <==> y1 >= 1) && (PhpParse(p.end).Some? <==> y2 >= 1)
      && (y1 >= 1 && y2 >= 1 && (unit == Daily ==> y1 >= 101 && y2 >= 101) ==> (PhpIsWhole(p, unit) <==> IsWholeCalendarPeriod(p, unit)))
  {
    hide Parse;
    hide JsParse;
    hide PhpParse;
    hide IsWholeCalendarPeriod;
    hide ServerIsWhole;
    hide PhpIsWhole;
    hide KeepsDays;
    PhpReads(p.start);
    PhpReads(p.end);
    var y1, y2 := Parse(p.start).value.date.year, Parse(p.end).value.date.year;
    YearsKept(y1, y2);
    if y1 >= 1 && y2 >= 1 && (unit == Daily ==> y1 >= 101 && y2 >= 101) {
      PhpIsWholeIff(p, unit);
      DatesDecideWhole(PhpYear, p, unit);
    }
  }

  // ---- Where they differ ----

  /** The period between the midnights in UTC of two dates. */
  function Midnights(first: Date, next: Date): Period
    requires IsDate(first) && IsDate(next)
  {
    Period(Bound(first, 0), Bound(next, 0))
  }

  lemma MidnightsDecide(first: Date, next: Date, unit: Granularity)
    requires IsDate(first) && IsDate(next) && 0 <= first.year <= 9999 && 0 <= next.year <= 9999
    ensures var p := Midnights(first, next);
      && HasBounds(p) && JsParse(p.start).Some? && JsParse(p.end).Some?
      && (IsWholeCalendarPeriod(p, unit) <==> WholeDates(first, next, unit))
      && (ServerIsWhole(JsYear, p, unit) <==> ServerWholeDates(JsYear, first, next, unit))
      && (ServerIsWhole(PhpYear, p, unit) <==> ServerWholeDates(PhpYear, first, next, unit))
      && (PhpParse(p.start).Some? <==> first.year >= 1) && (PhpParse(p.end).Some? <==> next.year >= 1)
  {
    hide Parse;
    hide JsParse;
    hide PhpParse;
    hide WholeDates;
    hide ServerWholeDates;
    hide Bound;
    hide Instant;
    var p := Midnights(first, next);
    BoundReadsBack(first, 0);
    BoundReadsBack(next, 0);
    ServerReadsAsConsumer(p.start);
    ServerReadsAsConsumer(p.end);
    PhpReads(p.start);
    PhpReads(p.end);
  }

  /** Year 0000 is whole for the consumer and for JavaScript; the PHP script refuses its start. */
  lemma PhpRefusesYearZero()
    ensures var p := Midnights(Date(0, 1, 1), Date(1, 1, 1));
      HasBounds(p) && IsWholeCalendarPeriod(p, Yearly) && PhpParse(p.start).None?
  {
    hide Midnights;
    hide IsWholeCalendarPeriod;
    hide PhpParse;
    hide JsParse;
    hide HasBounds;
    MidnightsDecide(Date(0, 1, 1), Date(1, 1, 1), Yearly);
  }

  /** In year 0100 the PHP test takes the day from February 28 to March 1 for two. */
  lemma PhpMissesADay()
    ensures var p := Midnights(Date(100, 2, 28), Date(100, 3, 1));
      && HasBounds(p) && JsParse(p.start).Some? && JsParse(p.end).Some? && PhpParse(p.start).Some? && PhpParse(p.end).Some?
      && IsWholeCalendarPeriod(p, Daily) && ServerIsWhole(JsYear, p, Daily) && !PhpIsWhole(p, Daily)
  {
    hide DayIn;
    hide AddDays;
    hide Midnights;
    hide HasBounds;
    hide IsWholeCalendarPeriod;
    hide ServerIsWhole;
    hide PhpIsWhole;
    hide JsParse;
    hide PhpParse;
    var first, next := Date(100, 2, 28), Date(100, 3, 1);
    NextByDayNumber(first, next);
    OneDayApart(Identity, first, next);
    OneDayApart(PhpYear, first, next);
    OneDayApart(JsYear, first, next);
    MidnightsDecide(first, next, Daily);
    PhpIsWholeIff(Midnights(first, next), Daily);
  }

  /** The JavaScript test takes the last day of 0099 to end in 2000, and not in 0100. */
  lemma JsMovesACentury()
    ensures var near, far := Midnights(Date(99, 12, 31), Date(100, 1, 1)), Midnights(Date(99, 12, 31), Date(2000, 1, 1));
      && HasBounds(near) && JsParse(near.start).Some? && JsParse(near.end).Some?
      && HasBounds(far) && JsParse(far.start).Some? && JsParse(far.end).Some?
      && IsWholeCalendarPeriod(near, Daily) && !ServerIsWhole(JsYear, near, Daily)
      && !IsWholeCalendarPeriod(far, Daily) && ServerIsWhole(JsYear, far, Daily)
  {
    hide DayIn;
    hide AddDays;
    hide Midnights;
    hide HasBounds;
    hide IsWholeCalendarPeriod;
    hide ServerIsWhole;
    hide JsParse;
    var first, near, far := Date(99, 12, 31), Date(100, 1, 1), Date(2000, 1, 1);
    NextByDayNumber(first, near);
    NextByDayNumber(first, far);
    OneDayApart(Identity, first, near);
    OneDayApart(Identity, first, far);
    OneDayApart(JsYear, first, near);
    OneDayApart(JsYear, first, far);
    MidnightsDecide(first, near, Daily);
    MidnightsDecide(first, far, Daily);
  }
}
