/**
 * The periods of calendar years, quarters, months and days fit together: which of them
 * exist, that each is whole in its own unit, and that the smaller ones tile the larger.
 */
module CalendarTiling {
  import opened Calendar
  import opened Digits
  import opened DateTimes
  import opened Periods
  import opened Wrappers

  // ---- Bounds ----

  lemma OffsetReadsBack(zone: Zone)
    ensures ZoneForm(OffsetText(zone)) && ReadZone(OffsetText(zone)) == Some(zone)
  {
    hide Pad;
    hide Number;
    var minutes := if zone < 0 then -zone else zone;
    var h, m := minutes / 60, minutes % 60;
    NumberOfTwoDigits(h);
    NumberOfTwoDigits(m);
    var text := OffsetText(zone);
    if zone != 0 {
      assert text == (if zone < 0 then "-" else "+") + Pad(h, 2) + ":" + Pad(m, 2);
      assert text[1..3] == Pad(h, 2) && text[4..6] == Pad(m, 2);
    }
  }

  lemma ZeroesReadAsZero()
    ensures IsDigits("00") && Number("00") == 0
  {
    assert "00"[..1] == "0" && Number("0") == 0;
  }

  /** Midnight of a date, in a zone that reads as `offset`. */
  lemma MidnightReadsBack(date: Date, month: string, day: string, zone: string, offset: int)
    requires IsDate(date) && 0 <= date.year <= 9999 && ZoneForm(zone) && ReadZone(zone) == Some(offset)
    requires |month| == |day| == 2 && IsDigits(month) && IsDigits(day)
    requires Number(month) == date.month && Number(day) == date.day
    ensures Parse(Pad(date.year, 4) + Layout(month, day, "00", "00", "00", zone)) == Ok(DateTime(date, 0, 0, 0, 0, offset))
  {
    hide Layout;
    hide RestForm;
    hide ReadRest;
    hide HasDateTimeForm;
    hide Parse;
    hide ZoneForm;
    hide ReadZone;
    hide IsDate;
    ZeroesReadAsZero();
    assert zone == "" + zone;
    ReadLayout(date.year, month, day, "00", "00", "00", "", zone);
    ReadFourDigitYear(date.year, Layout(month, day, "00", "00", "00", zone));
  }

  /** A bound is the midnight of its date in its zone. */
  lemma BoundReadsBack(date: Date, zone: Zone)
    requires IsDate(date) && 0 <= date.year <= 9999
    ensures Parse(Bound(date, zone)) == Ok(DateTime(date, 0, 0, 0, 0, zone))
  {
    hide Parse;
    hide OffsetText;
    hide Layout;
    OffsetReadsBack(zone);
    NumberOfTwoDigits(date.month);
    NumberOfTwoDigits(date.day);
    MidnightReadsBack(date, Pad(date.month, 2), Pad(date.day, 2), OffsetText(zone), zone);
  }

  lemma BoundPastTheLastYear(date: Date, zone: Zone)
    requires IsDate(date) && date.year > 9999
    ensures Parse(Bound(date, zone)) == Err(BadForm)
  {
    var text := Bound(date, zone);
    assert text[0] == '+';
    if |text| >= 4 {
      assert text[..4][0] == '+';
    }
  }

  lemma BoundsInOrder(first: Date, next: Date, zone: Zone)
    requires IsDate(first) && IsDate(next) && 0 <= first.year <= next.year <= 9999 && Before(first, next)
    ensures var p := Period(Bound(first, zone), Bound(next, zone)); IsPeriod(p) && Between(first, next, zone) == Ok(p)
  {
    hide Parse;
    hide DayNumber;
    hide Bound;
    BoundReadsBack(first, zone);
    BoundReadsBack(next, zone);
    DayNumberOrder(first, next);
  }

  /** The range between two dates is a period exactly when both bounds can be written and are in order. */
  lemma BetweenIsPeriod(first: Date, next: Date, zone: Zone)
    requires IsDate(first) && IsDate(next) && 0 <= first.year <= 9999 && Before(first, next)
    ensures Between(first, next, zone).Ok? <==> next.year <= 9999
    ensures next.year <= 9999 ==> Between(first, next, zone) == Ok(Period(Bound(first, zone), Bound(next, zone)))
  {
    if next.year <= 9999 {
      BoundsInOrder(first, next, zone);
    } else {
      BoundPastTheLastYear(next, zone);
    }
  }

  // ---- The periods that exist ----

  /** The first day of a month; month 13 is the first month of the next year. */
  function MonthStart(year: int, month: int): (d: Date)
    ensures 1 <= month <= 13 ==> IsDate(d)
  {
    if month == 13 then Date(year + 1, 1, 1) else Date(year, month, 1)
  }

  function DateText(d: Date): string
    requires IsDate(d) && 0 <= d.year <= 9999
  {
    Pad(d.year, 4) + "-" + Pad(d.month, 2) + "-" + Pad(d.day, 2)
  }

  lemma DateTextReadsBack(d: Date)
    requires IsDate(d) && 0 <= d.year <= 9999
    ensures var s := DateText(d);
      IsFullDate(s) && Date(Number(s[..4]), Number(s[5..7]), Number(s[8..])) == d
  {
    var s := DateText(d);
    NumberOfYear(d.year, 4);
    NumberOfTwoDigits(d.month);
    NumberOfTwoDigits(d.day);
    assert s[..4] == Pad(d.year, 4) && s[5..7] == Pad(d.month, 2) && s[8..] == Pad(d.day, 2);
  }

  /** An input that shows it: the instant between two days, against the period of both. */
  lemma TheRangeBetweenTwoDays()
    ensures var p, between := Period(Bound(Date(2025, 1, 1), 0), Bound(Date(2025, 1, 3), 0)), Bound(Date(2025, 1, 2), 0);
      && IsPeriod(p) && IsDateTime(between)
      && var range := Range(Some(between), Some(between));
         OverlapsRange(p, range) && !exists t :: Covers(p, t) && InRange(range, t)
  {
    hide Bound;
    hide Parse;
    hide OverlapsRange;
    hide InRange;
    BoundReadsBack(Date(2025, 1, 1), 0);
    BoundReadsBack(Date(2025, 1, 2), 0);
    BoundReadsBack(Date(2025, 1, 3), 0);
    AnEmptyRangeOverlaps(Period(Bound(Date(2025, 1, 1), 0), Bound(Date(2025, 1, 3), 0)), Bound(Date(2025, 1, 2), 0));
  }

  /** The period between two dates, and that it is whole in a unit. */
  ghost predicate IsWhole(p: Period, unit: Granularity) {
    IsPeriod(p) && IsWholeCalendarPeriod(p, unit)
  }

  lemma DatesMakeWhole(first: Date, next: Date, zone: Zone, unit: Granularity)
    requires IsDate(first) && IsDate(next) && 0 <= first.year <= next.year <= 9999 && Before(first, next)
    requires WholeDates(first, next, unit)
    ensures IsWhole(Period(Bound(first, zone), Bound(next, zone)), unit)
  {
    hide Parse;
    hide Bound;
    hide WholeDates;
    hide DayNumber;
    BoundsInOrder(first, next, zone);
    BoundReadsBack(first, zone);
    BoundReadsBack(next, zone);
  }

  /** A year has a period exactly for 1 to 9998: the bound after 9999-12-31 cannot be written. */
  lemma YearPeriodExists(year: int, zone: Zone)
    ensures YearPeriod(year, zone).Ok? <==> 1 <= year <= 9998
    ensures 1 <= year <= 9998 ==>
      var p := Period(Bound(Date(year, 1, 1), zone), Bound(Date(year + 1, 1, 1), zone));
      YearPeriod(year, zone) == Ok(p) && IsWhole(p, Yearly)
  {
    hide Bound;
    hide Between;
    hide IsWhole;
    if 1 <= year <= 9999 {
      BetweenIsPeriod(Date(year, 1, 1), Date(year + 1, 1, 1), zone);
    }
    if 1 <= year <= 9998 {
      DatesMakeWhole(Date(year, 1, 1), Date(year + 1, 1, 1), zone, Yearly);
    }
  }

  lemma NextMonthStart(year: int, month: int)
    requires 1 <= month <= 12
    ensures AddMonths(Date(year, month, 1), 1) == MonthStart(year, month + 1)
    ensures month <= 10 ==> AddMonths(Date(year, month, 1), 3) == MonthStart(year, month + 3)
    ensures IsDate(MonthStart(year, month + 1)) && Before(Date(year, month, 1), MonthStart(year, month + 1))
  {
    assert 12 * (year + 1) == 12 * year + 12;
  }

  predicate IsMonth(year: int, month: int) {
    1 <= year <= 9999 && 1 <= month <= 12
  }

  /** A month has a period exactly when it is real and its end can be written. */
  lemma MonthPeriodExists(year: int, month: int, zone: Zone)
    ensures IsMonth(year, month) && (year < 9999 || month < 12) ==>
      var p := Period(Bound(Date(year, month, 1), zone), Bound(MonthStart(year, month + 1), zone));
      MonthPeriod(year, month, zone) == Ok(p) && IsWhole(p, Monthly)
    ensures MonthPeriod(year, month, zone).Ok? <==> IsMonth(year, month) && (year < 9999 || month < 12)
  {
    hide Bound;
    hide Between;
    hide AddMonths;
    hide IsWhole;
    if IsMonth(year, month) {
      var first, next := Date(year, month, 1), MonthStart(year, month + 1);
      NextMonthStart(year, month);
      BetweenIsPeriod(first, next, zone);
      if next.year <= 9999 {
        DatesMakeWhole(first, next, zone, Monthly);
      }
    }
  }

  lemma DayPeriodOf(d: Date, zone: Zone)
    requires IsDate(d) && 0 <= d.year <= 9999
    ensures IsDate(NextDay(d))
    ensures DayPeriod(DateText(d), zone) == if d.year >= 1 then Between(d, NextDay(d), zone) else Err(CalendarLabel)
  {
    hide DateText;
    hide IsFullDate;
    hide Between;
    hide AddDays;
    hide NextDay;
    hide DayNumber;
    hide IsLeapYear;
    DateTextReadsBack(d);
    NextDayIsSuccessor(d);
  }

  /** A day has a period exactly when its year is 1 or later and the day after it can be written. */
  lemma DayPeriodExists(d: Date, zone: Zone)
    requires IsDate(d) && 0 <= d.year <= 9999
    ensures DayPeriod(DateText(d), zone).Ok? <==> d.year >= 1 && NextDay(d).year <= 9999
    ensures d.year >= 1 && NextDay(d).year <= 9999 ==>
      var p := Period(Bound(d, zone), Bound(NextDay(d), zone));
      DayPeriod(DateText(d), zone) == Ok(p) && IsWhole(p, Daily)
  {
    hide DateText;
    hide DayPeriod;
    hide Bound;
    hide Between;
    hide AddDays;
    hide IsWhole;
    hide DayNumber;
    hide IsLeapYear;
    DayPeriodOf(d, zone);
    NextDayIsSuccessor(d);
    if d.year >= 1 {
      BetweenIsPeriod(d, NextDay(d), zone);
      if NextDay(d).year <= 9999 {
        DatesMakeWhole(d, NextDay(d), zone, Daily);
      }
    }
  }

  // ---- Tiling ----

  /** Each part ends, as written, where the next one starts, from the start of the whole to its end. */
  ghost predicate Tiles(parts: seq<Period>, whole: Period) {
    && parts != []
    && (forall i :: 0 <= i < |parts| ==> IsPeriod(parts[i]))
    && parts[0].start == whole.start
    && (forall i :: 0 < i < |parts| ==> parts[i - 1].end == parts[i].start)
    && parts[|parts| - 1].end == whole.end
  }

  lemma {:induction false} TilesAscend(parts: seq<Period>, whole: Period, i: nat, j: nat)
    requires Tiles(parts, whole) && i < j < |parts|
    ensures Instant(parts[i].end) <= Instant(parts[j].start)
    decreases j
  {
    hide Instant;
    hide IsDateTime;
    if i + 1 < j {
      TilesAscend(parts, whole, i, j - 1);
    }
  }

  lemma {:induction false} PartCovering(parts: seq<Period>, whole: Period, t: int) returns (i: nat)
    requires Tiles(parts, whole) && HasBounds(whole) && Covers(whole, t)
    ensures i < |parts| && Covers(parts[i], t)
    decreases |parts|
  {
    hide Instant;
    hide IsDateTime;
    var last := |parts| - 1;
    if Instant(parts[last].start) <= t {
      i := last;
    } else {
      assert last > 0;
      i := PartCovering(parts[..last], Period(whole.start, parts[last].start), t);
    }
  }

  /** Tiles partition the whole: an instant lies in it exactly when it lies in one part, and then in one only. */
  lemma TilesPartition(parts: seq<Period>, whole: Period)
    requires Tiles(parts, whole) && HasBounds(whole)
    ensures forall t :: Covers(whole, t) <==> exists i :: 0 <= i < |parts| && Covers(parts[i], t)
    ensures forall t, i, j :: 0 <= i < j < |parts| && Covers(parts[i], t) ==> !Covers(parts[j], t)
  {
    hide Instant;
    hide IsDateTime;
    forall t ensures Covers(whole, t) <==> exists i :: 0 <= i < |parts| && Covers(parts[i], t) {
      if Covers(whole, t) {
        var i := PartCovering(parts, whole, t);
      }
      forall i | 0 <= i < |parts| && Covers(parts[i], t) ensures Covers(whole, t) {
        if 0 < i { TilesAscend(parts, whole, 0, i); }
        if i < |parts| - 1 { TilesAscend(parts, whole, i, |parts| - 1); }
      }
    }
    forall t, i, j | 0 <= i < j < |parts| && Covers(parts[i], t) ensures !Covers(parts[j], t) {
      TilesAscend(parts, whole, i, j);
    }
  }

  /** The periods of consecutive months, as `MonthPeriod` gives them. */
  ghost predicate AreMonths(parts: seq<Period>, year: int, from: int, zone: Zone) {
    forall i :: 0 <= i < |parts| ==> MonthPeriod(year, from + i, zone) == Ok(parts[i])
  }

  /** The periods of the first days of a month, as `DayPeriod` gives them. */
  ghost predicate AreDays(parts: seq<Period>, year: int, month: int, zone: Zone)
    requires 0 <= year <= 9999 && 1 <= month <= 12 && |parts| <= DaysInMonth(year, month)
  {
    forall i :: 0 <= i < |parts| ==> DayPeriod(DateText(Date(year, month, i + 1)), zone) == Ok(parts[i])
  }

  lemma MonthsTile(parts: seq<Period>, year: int, from: int, zone: Zone)
    requires 1 <= year <= 9998 && 1 <= from && from + |parts| <= 13 && parts != [] && AreMonths(parts, year, from, zone)
    ensures Tiles(parts, Period(Bound(Date(year, from, 1), zone), Bound(MonthStart(year, from + |parts|), zone)))
  {
    hide Bound;
    hide MonthPeriod;
    hide IsPeriod;
    hide IsWholeCalendarPeriod;
    forall i | 0 <= i < |parts|
      ensures parts[i] == Period(Bound(Date(year, from + i, 1), zone), Bound(MonthStart(year, from + i + 1), zone))
      ensures IsPeriod(parts[i])
    {
      MonthPeriodExists(year, from + i, zone);
    }
  }

  /** The twelve months tile the year. */
  lemma YearIsItsMonths(parts: seq<Period>, year: int, zone: Zone)
    requires 1 <= year <= 9998 && |parts| == 12 && AreMonths(parts, year, 1, zone)
    ensures YearPeriod(year, zone).Ok? && Tiles(parts, YearPeriod(year, zone).value)
  {
    hide YearPeriod;
    hide Tiles;
    hide Bound;
    hide AreMonths;
    YearPeriodExists(year, zone);
    MonthsTile(parts, year, 1, zone);
  }

  lemma MonthStartOrder(year: int, a: int, b: int)
    requires 1 <= a < b <= 13
    ensures Before(MonthStart(year, a), MonthStart(year, b))
  {
  }

  lemma QuarterPeriodExists(year: int, quarter: int, zone: Zone)
    requires 1 <= year <= 9998 && 1 <= quarter <= 4
    ensures QuarterPeriod(year, quarter, zone) ==
      Ok(Period(Bound(MonthStart(year, 3 * quarter - 2), zone), Bound(MonthStart(year, 3 * quarter + 1), zone)))
  {
    hide Bound;
    hide Between;
    hide AddMonths;
    var first, next := MonthStart(year, 3 * quarter - 2), MonthStart(year, 3 * quarter + 1);
    NextMonthStart(year, 3 * quarter - 2);
    MonthStartOrder(year, 3 * quarter - 2, 3 * quarter + 1);
    BetweenIsPeriod(first, next, zone);
  }

  /** Each quarter is tiled by its three months. */
  lemma QuarterIsItsMonths(parts: seq<Period>, year: int, quarter: int, zone: Zone)
    requires 1 <= year <= 9998 && 1 <= quarter <= 4 && |parts| == 3 && AreMonths(parts, year, 3 * quarter - 2, zone)
    ensures QuarterPeriod(year, quarter, zone).Ok? && Tiles(parts, QuarterPeriod(year, quarter, zone).value)
  {
    hide Tiles;
    hide Bound;
    hide AreMonths;
    hide QuarterPeriod;
    QuarterPeriodExists(year, quarter, zone);
    MonthsTile(parts, year, 3 * quarter - 2, zone);
  }

  /** The days tile the month. */
  lemma MonthIsItsDays(parts: seq<Period>, year: int, month: int, zone: Zone)
    requires 1 <= year <= 9998 && 1 <= month <= 12 && |parts| == DaysInMonth(year, month) && AreDays(parts, year, month, zone)
    ensures MonthPeriod(year, month, zone).Ok? && Tiles(parts, MonthPeriod(year, month, zone).value)
  {
    hide Bound;
    hide MonthPeriod;
    hide DayPeriod;
    hide IsPeriod;
    hide IsWholeCalendarPeriod;
    hide DateText;
    forall i | 0 <= i < |parts|
      ensures parts[i] == Period(Bound(Date(year, month, i + 1), zone), Bound(NextDay(Date(year, month, i + 1)), zone))
      ensures IsPeriod(parts[i])
    {
      DayPeriodExists(Date(year, month, i + 1), zone);
    }
    MonthPeriodExists(year, month, zone);
  }
}
