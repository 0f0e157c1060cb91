/**
 * The periods of `period.ts`: half-open ranges between two date-times, whole calendar
 * units, and the periods built from calendar years, quarters, months and days. A zone
 * is a fixed offset in minutes east of UTC.
 */
module Periods {
  import opened Calendar
  import opened Digits
  import opened DateTimes
  import opened Wrappers

  datatype Period = Period(start: string, end: string)

  datatype PeriodError = BoundError(error: DateTimeError) | PeriodOrder | CalendarLabel

  datatype Granularity = Yearly | Monthly | Daily

  /** What a query asks for: on a side without a bound it reaches without limit. */
  datatype Range = Range(start: Option<string>, end: Option<string>)

  /** Two date-times, `start` before `end` as instants. */
  predicate IsPeriod(p: Period) {
    IsDateTime(p.start) && IsDateTime(p.end) && CompareDateTimes(p.start, p.end) < 0
  }

  function ParsePeriod(p: Period): Result<Period, PeriodError> {
    if Parse(p.start).Err? then Err(BoundError(Parse(p.start).error))
    else if Parse(p.end).Err? then Err(BoundError(Parse(p.end).error))
    else if CompareDateTimes(p.start, p.end) >= 0 then Err(PeriodOrder)
    else Ok(p)
  }

  predicate HasBounds(p: Period) {
    IsDateTime(p.start) && IsDateTime(p.end)
  }

  /** Whether the instant lies in the period: `start` included, `end` excluded. */
  predicate Covers(p: Period, instant: int)
    requires HasBounds(p)
  {
    Instant(p.start) <= instant < Instant(p.end)
  }

  predicate SamePeriod(p: Period, q: Period)
    requires HasBounds(p) && HasBounds(q)
  {
    Instant(p.start) == Instant(q.start) && Instant(p.end) == Instant(q.end)
  }

  /** Earlier starts come first; of periods that start together, earlier ends. */
  function ComparePeriodStart(p: Period, q: Period): int
    requires HasBounds(p) && HasBounds(q)
  {
    var byStart := CompareDateTimes(p.start, q.start);
    if byStart != 0 then byStart else CompareDateTimes(p.end, q.end)
  }

  function CanonicalKey(p: Period): string
    requires HasBounds(p)
  {
    ToUtcQueryValue(p.start) + "/" + ToUtcQueryValue(p.end)
  }

  // ---- Keys ----

  predicate NoSlash(s: string) {
    forall i :: 0 <= i < |s| ==> s[i] != '/'
  }

  lemma RestHasNoSlash(d: DateTime)
    requires IsUtcFields(d)
    ensures NoSlash(RestOf(d))
  {
    var month, day := Pad(d.date.month, 2), Pad(d.date.day, 2);
    var hour, minute, second := Pad(d.hour, 2), Pad(d.minute, 2), Pad(d.second, 2);
    assert NoSlash(month) && NoSlash(day) && NoSlash(hour) && NoSlash(minute) && NoSlash(second);
    assert NoSlash(FractionText(d.nano));
    LayoutHasNoSlash(month, day, hour, minute, second, FractionText(d.nano) + "Z");
  }

  lemma LayoutHasNoSlash(month: string, day: string, hour: string, minute: string, second: string, tail: string)
    requires NoSlash(month) && NoSlash(day) && NoSlash(hour) && NoSlash(minute) && NoSlash(second) && NoSlash(tail)
    ensures NoSlash(Layout(month, day, hour, minute, second, tail))
  {
    assert NoSlash("-" + month + "-" + day + "T" + hour + ":");
    assert NoSlash(minute + ":" + second + tail);
    assert Layout(month, day, hour, minute, second, tail)
        == ("-" + month + "-" + day + "T" + hour + ":") + (minute + ":" + second + tail);
  }

  lemma QueryValueHasNoSlash(value: string)
    requires IsDateTime(value)
    ensures NoSlash(ToUtcQueryValue(value))
  {
    hide Parse;
    hide Instant;
    hide IsDateTime;
    hide RestOf;
    hide UtcFields;
    var d := UtcFields(Instant(value));
    RestHasNoSlash(d);
    assert NoSlash(YearText(d.date.year));
  }

  lemma SplitAtSlash(a: string, b: string, c: string, d: string)
    requires NoSlash(a) && NoSlash(c) && a + "/" + b == c + "/" + d
    ensures a == c && b == d
  {
    var text := a + "/" + b;
    assert text[|a|] == '/';
    assert text[|c|] == (c + "/" + d)[|c|] == '/';
    assert |a| == |c|;
    assert a == text[..|a|] && c == text[..|c|];
    assert b == text[|a| + 1..] && d == text[|c| + 1..];
  }

  /** Two periods share a key exactly when both bounds are the same instants, however they are spelled. */
  lemma CanonicalKeyIffSamePeriod(p: Period, q: Period)
    requires HasBounds(p) && HasBounds(q)
    ensures CanonicalKey(p) == CanonicalKey(q) <==> SamePeriod(p, q)
  {
    PrintEquallyIffSameInstant(p.start, q.start);
    PrintEquallyIffSameInstant(p.end, q.end);
    if CanonicalKey(p) == CanonicalKey(q) {
      QueryValueHasNoSlash(p.start);
      QueryValueHasNoSlash(q.start);
      SplitAtSlash(ToUtcQueryValue(p.start), ToUtcQueryValue(p.end), ToUtcQueryValue(q.start), ToUtcQueryValue(q.end));
    }
  }

  // ---- Overlap ----

  /** Both of: the start precedes the range's end, and the range's start precedes the end. */
  predicate OverlapsRange(p: Period, range: Range)
    requires HasBounds(p)
    requires range.start.Some? ==> IsDateTime(range.start.value)
    requires range.end.Some? ==> IsDateTime(range.end.value)
  {
    && (range.end.None? || CompareDateTimes(p.start, range.end.value) < 0)
    && (range.start.None? || CompareDateTimes(p.end, range.start.value) > 0)
  }

  predicate PeriodsOverlap(p: Period, q: Period)
    requires HasBounds(p) && HasBounds(q)
  {
    OverlapsRange(p, Range(Some(q.start), Some(q.end)))
  }

  predicate InRange(range: Range, instant: int)
    requires range.start.Some? ==> IsDateTime(range.start.value)
    requires range.end.Some? ==> IsDateTime(range.end.value)
  {
    && (range.start.None? || Instant(range.start.value) <= instant)
    && (range.end.None? || instant < Instant(range.end.value))
  }

  /** A range with both bounds, whose `start` is not before its `end`. */
  predicate IsEmptyRange(range: Range)
    requires range.start.Some? ==> IsDateTime(range.start.value)
    requires range.end.Some? ==> IsDateTime(range.end.value)
  {
    range.start.Some? && range.end.Some? && CompareDateTimes(range.start.value, range.end.value) >= 0
  }

  lemma SharedInstantOverlaps(p: Period, range: Range, t: int)
    requires IsPeriod(p)
    requires range.start.Some? ==> IsDateTime(range.start.value)
    requires range.end.Some? ==> IsDateTime(range.end.value)
    requires Covers(p, t) && InRange(range, t)
    ensures OverlapsRange(p, range) && !IsEmptyRange(range)
  {
    hide Instant;
    hide IsDateTime;
  }

  lemma OverlapSharesInstant(p: Period, range: Range) returns (t: int)
    requires IsPeriod(p)
    requires range.start.Some? ==> IsDateTime(range.start.value)
    requires range.end.Some? ==> IsDateTime(range.end.value)
    requires OverlapsRange(p, range) && !IsEmptyRange(range)
    ensures Covers(p, t) && InRange(range, t)
  {
    hide Instant;
    hide IsDateTime;
    t := if range.start.Some? && Instant(range.start.value) > Instant(p.start)
         then Instant(range.start.value) else Instant(p.start);
  }

  /**
   * A period shares an instant with a range exactly when the comparison says it overlaps and the range
   * is not empty: against an empty or reversed range the comparison alone does not decide.
   */
  lemma OverlapsIffSharedInstant(p: Period, range: Range)
    requires IsPeriod(p)
    requires range.start.Some? ==> IsDateTime(range.start.value)
    requires range.end.Some? ==> IsDateTime(range.end.value)
    ensures (exists t :: Covers(p, t) && InRange(range, t)) <==> OverlapsRange(p, range) && !IsEmptyRange(range)
  {
    if OverlapsRange(p, range) && !IsEmptyRange(range) {
      var t := OverlapSharesInstant(p, range);
    }
    forall t | Covers(p, t) && InRange(range, t)
      ensures OverlapsRange(p, range) && !IsEmptyRange(range)
    {
      SharedInstantOverlaps(p, range, t);
    }
  }

  /** A range that ends where it starts, inside a period: the comparison takes it for one that overlaps. */
  lemma AnEmptyRangeOverlaps(p: Period, inside: string)
    requires IsPeriod(p) && IsDateTime(inside) && Instant(p.start) < Instant(inside) < Instant(p.end)
    ensures var range := Range(Some(inside), Some(inside));
      OverlapsRange(p, range) && !exists t :: Covers(p, t) && InRange(range, t)
  {
    hide Instant;
    hide IsDateTime;
  }

  // ---- Whole calendar units ----

  predicate IsMidnight(d: DateTime) {
    d.hour == 0 && d.minute == 0 && d.second == 0 && d.nano == 0
  }

  /** `start` is the first instant of a year, month or day and `end` of the next, each in its own offset. */
  predicate IsWholeCalendarPeriod(p: Period, unit: Granularity)
    requires HasBounds(p)
  {
    var start, end := Parse(p.start).value, Parse(p.end).value;
    IsMidnight(start) && IsMidnight(end) && WholeDates(start.date, end.date, unit)
  }

  predicate WholeDates(first: Date, next: Date, unit: Granularity) {
    match unit
    case Daily => AddDays(first, 1) == next
    case Monthly => first.day == 1 && AddMonths(first, 1) == next
    case Yearly => first.month == 1 && first.day == 1 && AddYears(first, 1) == next
  }

  /** The calendar unit the period is whole in, if any. */
  function WholeCalendarUnit(p: Period): Option<Granularity>
    requires HasBounds(p)
  {
    if IsWholeCalendarPeriod(p, Daily) then Some(Daily)
    else if IsWholeCalendarPeriod(p, Monthly) then Some(Monthly)
    else if IsWholeCalendarPeriod(p, Yearly) then Some(Yearly)
    else None
  }

  lemma DatesInOneUnit(first: Date, next: Date)
    requires IsDate(first)
    ensures !(WholeDates(first, next, Daily) && WholeDates(first, next, Monthly))
    ensures !(WholeDates(first, next, Daily) && WholeDates(first, next, Yearly))
    ensures !(WholeDates(first, next, Monthly) && WholeDates(first, next, Yearly))
  {
    NextDayIsSuccessor(first);
    hide AddDays;
  }

  /** No period is whole in two units, so the order in which the units are tried does not matter. */
  lemma WholeInAtMostOneUnit(p: Period, unit: Granularity)
    requires HasBounds(p)
    ensures IsWholeCalendarPeriod(p, unit) <==> WholeCalendarUnit(p) == Some(unit)
  {
    hide WholeDates;
    ParsedFields(p.start);
    hide Parse;
    DatesInOneUnit(Parse(p.start).value.date, Parse(p.end).value.date);
  }

  // ---- Periods of calendar units ----

  /** `Z`, or the sign, hours and minutes of an offset. */
  function OffsetText(offset: int): string {
    if offset == 0 then "Z"
    else if offset > 0 then "+" + Pad(offset / 60, 2) + ":" + Pad(offset % 60, 2)
    else "-" + Pad((-offset) / 60, 2) + ":" + Pad((-offset) % 60, 2)
  }

  /** A zone: a fixed offset of less than a day. */
  type Zone = offset: int | -1439 <= offset <= 1439

  /** Midnight of the date in the zone. */
  function Bound(date: Date, zone: Zone): string
    requires IsDate(date)
  {
    YearText(date.year) + Layout(Pad(date.month, 2), Pad(date.day, 2), "00", "00", "00", OffsetText(zone))
  }

  function Between(first: Date, next: Date, zone: Zone): Result<Period, PeriodError>
    requires IsDate(first) && IsDate(next)
  {
    ParsePeriod(Period(Bound(first, zone), Bound(next, zone)))
  }

  function CalendarDate(year: int, month: int, day: int): Result<Date, PeriodError> {
    if 1 <= year <= 9999 && IsDate(Date(year, month, day)) then Ok(Date(year, month, day)) else Err(CalendarLabel)
  }

  function YearPeriod(year: int, zone: Zone): Result<Period, PeriodError> {
    var first := CalendarDate(year, 1, 1);
    if first.Err? then Err(first.error) else Between(first.value, AddYears(first.value, 1), zone)
  }

  function MonthPeriod(year: int, month: int, zone: Zone): Result<Period, PeriodError> {
    var first := CalendarDate(year, month, 1);
    if first.Err? then Err(first.error) else Between(first.value, AddMonths(first.value, 1), zone)
  }

  function QuarterPeriod(year: int, quarter: int, zone: Zone): Result<Period, PeriodError> {
    if quarter !in {1, 2, 3, 4} then Err(CalendarLabel) else
    var first := CalendarDate(year, quarter * 3 - 2, 1);
    if first.Err? then Err(first.error) else Between(first.value, AddMonths(first.value, 3), zone)
  }

  /** The form `YYYY-MM-DD`. */
  predicate IsFullDate(s: string) {
    |s| == 10 && IsDigits(s[..4]) && s[4] == '-' && IsDigits(s[5..7]) && s[7] == '-' && IsDigits(s[8..])
  }

  function DayPeriod(date: string, zone: Zone): Result<Period, PeriodError> {
    if !IsFullDate(date) then Err(CalendarLabel) else
    var first := CalendarDate(Number(date[..4]), Number(date[5..7]), Number(date[8..]));
    if first.Err? then Err(first.error) else Between(first.value, AddDays(first.value, 1), zone)
  }

  predicate IsYearLabel(s: string) {
    |s| == 4 && IsDigits(s)
  }

  predicate IsMonthLabel(s: string) {
    |s| == 7 && IsDigits(s[..4]) && s[4] == '-' && IsDigits(s[5..])
  }

  /** What a year, month or day label stands for. */
  function PeriodFromReportingPeriod(text: string, zone: Zone): Result<Period, PeriodError> {
    if IsYearLabel(text) then YearPeriod(Number(text), zone)
    else if IsMonthLabel(text) then MonthPeriod(Number(text[..4]), Number(text[5..]), zone)
    else DayPeriod(text, zone)
  }

  /** The period of a pair of inclusive full-dates. */
  function PeriodFromFullDates(first: string, last: string, zone: Zone): Result<Period, PeriodError> {
    if !IsFullDate(first) || !IsFullDate(last) then Err(CalendarLabel) else
    var from, to := DayPeriod(first, zone), DayPeriod(last, zone);
    if from.Err? then from else if to.Err? then to else ParsePeriod(Period(from.value.start, to.value.end))
  }
}
