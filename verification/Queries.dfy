/**
 * The bounds a request carries, `queryBound` of `fetch.ts`: date-times and calendar
 * labels, sent as `utc-date-time`s or refused.
 */
module Queries {
  import opened Calendar
  import opened CalendarTiling
  import opened DateTimes
  import opened Digits
  import opened Periods
  import opened Wrappers

  datatype Side = Start | End

  datatype BoundError = LeapSecond | NotABound | EndsAfterLastYear | OutsideYears

  /** The form of a year, a month or a day. */
  predicate IsLabel(value: string) {
    IsYearLabel(value) || IsMonthLabel(value) || IsFullDate(value)
  }

  /** The first instant of a label as text, before it is known to be a real one. */
  function FirstInstant(value: string): string
    requires IsLabel(value)
  {
    value[..4] + "-" + (if |value| >= 7 then value[5..7] else "01") + "-" + (if |value| == 10 then value[8..] else "01")
    + "T00:00:00Z"
  }

  /** The bound a label gives: where its period begins or, for an end, where it is over. */
  function CalendarBound(side: Side, value: string): Result<string, BoundError> {
    if !IsLabel(value) || !IsDateTime(FirstInstant(value)) then Err(NotABound)
    else if side == Start then Ok(FirstInstant(value))
    else
      match PeriodFromReportingPeriod(value, 0)
      case Ok(period) => Ok(period.end)
      case Err(_) => Err(EndsAfterLastYear)
  }

  function QueryBound(side: Side, value: string): Result<string, BoundError> {
    if IsDateTime(value) && HasLeapSecond(value) then Err(LeapSecond) else
    var sent := if IsDateTime(value) then Ok(ToUtcQueryValue(value)) else CalendarBound(side, value);
    if sent.Ok? && !HasUtcForm(sent.value) then Err(OutsideYears) else sent
  }

  // ---- What goes on the wire ----

  lemma LabelIsNoDateTime(value: string)
    requires IsLabel(value)
    ensures !IsDateTime(value)
  {
  }

  /** What a label means: the date its first instant falls on. */
  function LabelDate(value: string): Date
    requires IsLabel(value)
  {
    Date(Number(value[..4]), if |value| >= 7 then Number(value[5..7]) else 1, if |value| == 10 then Number(value[8..]) else 1)
  }

  lemma NumberOfOne()
    ensures IsDigits("01") && Number("01") == 1
  {
    assert "01"[..1] == "0" && Number("0") == 0;
  }

  lemma YearOfText(value: string)
    requires |value| >= 4 && IsDigits(value[..4])
    ensures Number(value[..4]) <= 9999 && Pad(Number(value[..4]), 4) == value[..4]
  {
    PadOfNumber(value[..4]);
    PowersOfTen();
  }

  /** Midnight in UTC of a year, month and day as written. */
  lemma MidnightText(year: string, month: string, day: string)
    requires |year| == 4 && |month| == |day| == 2 && IsDigits(year) && IsDigits(month) && IsDigits(day)
    ensures var text := year + Layout(month, day, "00", "00", "00", "Z");
      Parse(text) == ReadFields(Date(Number(year), Number(month), Number(day)), 0, 0, 0, Some(0), Some(0))
  {
    hide Layout;
    hide RestForm;
    hide ReadRest;
    hide HasDateTimeForm;
    hide ReadFields;
    hide Parse;
    ZeroesReadAsZero();
    assert year[..4] == year;
    YearOfText(year);
    assert "Z" == "" + "Z";
    ReadLayout(Number(year), month, day, "00", "00", "00", "", "Z");
    ReadFourDigitYear(Number(year), Layout(month, day, "00", "00", "00", "Z"));
  }

  lemma MidnightTextIsBound(year: string, month: string, day: string)
    requires |year| == 4 && |month| == |day| == 2 && IsDigits(year) && IsDigits(month) && IsDigits(day)
    requires IsDate(Date(Number(year), Number(month), Number(day)))
    ensures year + Layout(month, day, "00", "00", "00", "Z") == Bound(Date(Number(year), Number(month), Number(day)), 0)
  {
    hide IsDate;
    hide Layout;
    assert year[..4] == year;
    YearOfText(year);
    PadOfNumber(month);
    PadOfNumber(day);
  }

  /** The first instant of a label is real exactly when the label names a date, and then it is that date's midnight in UTC. */
  lemma FirstInstantOfLabel(value: string)
    requires IsLabel(value)
    ensures IsDateTime(FirstInstant(value)) <==> IsDate(LabelDate(value))
    ensures IsDate(LabelDate(value)) ==> FirstInstant(value) == Bound(LabelDate(value), 0)
  {
    hide IsDate;
    hide Parse;
    hide Bound;
    var month := if |value| >= 7 then value[5..7] else "01";
    var day := if |value| == 10 then value[8..] else "01";
    NumberOfOne();
    assert FirstInstant(value) == value[..4] + Layout(month, day, "00", "00", "00", "Z");
    MidnightText(value[..4], month, day);
    if IsDate(LabelDate(value)) {
      MidnightTextIsBound(value[..4], month, day);
    }
  }

  // ---- What `queryBound` promises ----

  /** The date after the last day of a label. */
  function AfterLabel(value: string): (after: Date)
    requires IsLabel(value)
    ensures IsDate(LabelDate(value)) ==> IsDate(after)
  {
    var d := LabelDate(value);
    if |value| == 4 then Date(d.year + 1, 1, 1) else if |value| == 7 then MonthStart(d.year, d.month + 1) else NextDay(d)
  }

  /** Every year and month, written out, is a label, of the first day of it. */
  lemma LabelsAreWritten(year: int, month: int)
    requires 0 <= year <= 9999 && 1 <= month <= 12
    ensures var ofYear, ofMonth := Pad(year, 4), Pad(year, 4) + "-" + Pad(month, 2);
      && IsLabel(ofYear) && |ofYear| == 4 && LabelDate(ofYear) == Date(year, 1, 1)
      && IsLabel(ofMonth) && |ofMonth| == 7 && LabelDate(ofMonth) == Date(year, month, 1)
  {
    NumberOfYear(year, 4);
    NumberOfTwoDigits(month);
    hide Pad;
    hide Number;
    var text := Pad(year, 4) + "-" + Pad(month, 2);
    assert text[..4] == Pad(year, 4) && text[5..] == Pad(month, 2) && text[5..7] == Pad(month, 2);
    assert Pad(year, 4)[..4] == Pad(year, 4);
  }

  lemma DateTextOfLabel(value: string)
    requires IsFullDate(value) && IsDate(LabelDate(value))
    ensures 0 <= LabelDate(value).year <= 9999 && DateText(LabelDate(value)) == value
  {
    YearOfText(value);
    PadOfNumber(value[5..7]);
    PadOfNumber(value[8..]);
    assert value == value[..4] + "-" + value[5..7] + "-" + value[8..];
  }

  /** The period of a label runs from its first instant to the first instant after it; it exists for every real date of years 1 to 9998. */
  lemma PeriodOfLabel(value: string)
    requires IsLabel(value) && IsDate(LabelDate(value)) && LabelDate(value).year >= 1
    ensures PeriodFromReportingPeriod(value, 0).Ok? <==> AfterLabel(value).year <= 9999
    ensures AfterLabel(value).year <= 9999 ==>
      PeriodFromReportingPeriod(value, 0) == Ok(Period(Bound(LabelDate(value), 0), Bound(AfterLabel(value), 0)))
  {
    hide IsLeapYear;
    hide Bound;
    hide YearPeriod;
    hide MonthPeriod;
    hide DayPeriod;
    hide IsWhole;
    YearOfText(value);
    var d := LabelDate(value);
    if |value| == 4 {
      assert value[..4] == value;
      YearPeriodExists(d.year, 0);
    } else if |value| == 7 {
      assert value[5..] == value[5..7];
      MonthPeriodExists(d.year, d.month, 0);
    } else {
      DateTextOfLabel(value);
      DayPeriodExists(d, 0);
    }
  }

  /**
   * Every bound a request carries is a `utc-date-time` that a server honors: never a leap second and never
   * outside years 0000 to 9999. It is the instant of a date-time, and it is its own bound.
   */
  lemma SentBoundIsHonored(side: Side, value: string)
    requires QueryBound(side, value).Ok?
    ensures var sent := QueryBound(side, value).value;
      && IsUtcDateTime(sent)
      && (IsDateTime(value) ==> Instant(sent) == Instant(value))
      && QueryBound(Start, sent) == QueryBound(End, sent) == Ok(sent)
  {
    hide HasUtcForm;
    hide HasLeapSecond;
    hide IsUtcDateTime;
    hide IsDateTime;
    hide Instant;
    hide CalendarBound;
    hide ToUtcQueryValue;
    hide UtcYear;
    var sent := QueryBound(side, value).value;
    if IsDateTime(value) {
      QueryValueNamesTheInstant(value);
    } else {
      CalendarBoundIsUtc(side, value);
    }
    UtcBoundIsItself(sent);
  }

  lemma UtcBoundIsItself(sent: string)
    requires IsUtcDateTime(sent) && ToUtcQueryValue(sent) == sent
    ensures QueryBound(Start, sent) == QueryBound(End, sent) == Ok(sent)
  {
    hide Parse;
    hide ToUtcQueryValue;
    hide HasDateTimeForm;
  }

  lemma ZeroText()
    ensures Pad(0, 2) == "00" && FractionText(0) == ""
  {
    assert Pad(0, 1) == "0";
    assert TrimZeros(Pad(0, 9)) == "" by {
      TrimOfZeros(0, 9);
    }
  }

  lemma {:induction false} TrimOfZeros(n: nat, width: nat)
    requires n == 0
    ensures TrimZeros(Pad(n, width)) == ""
  {
    if width > 0 {
      TrimOfZeros(n / 10, width - 1);
      assert [DigitOf(n % 10)] == "0";
      assert Pad(n, width) == Pad(n / 10, width - 1) + "0";
      TrimOneZero(Pad(n / 10, width - 1));
    }
  }

  lemma TrimOneZero(s: string)
    ensures TrimZeros(s + "0") == TrimZeros(s)
  {
    assert (s + "0")[..|s|] == s;
  }

  lemma MidnightFormat(date: Date)
    requires IsDate(date) && 0 <= date.year <= 9999
    ensures Format(DateTime(date, 0, 0, 0, 0, 0)) == Bound(date, 0)
  {
    hide IsDate;
    hide Layout;
    ZeroText();
    assert "" + "Z" == "Z";
  }

  lemma MidnightIsItsOwnQueryValue(date: Date)
    requires IsDate(date) && 0 <= date.year <= 9999
    ensures IsUtcDateTime(Bound(date, 0)) && ToUtcQueryValue(Bound(date, 0)) == Bound(date, 0)
  {
    hide IsDate;
    hide Bound;
    hide Format;
    hide UtcFields;
    hide Parse;
    hide IsUtcDateTime;
    var d := DateTime(date, 0, 0, 0, 0, 0);
    MidnightFormat(date);
    UtcFieldsUnique(d);
    UtcFormReadsBack(InstantOf(d));
  }

  lemma CalendarBoundIsUtc(side: Side, value: string)
    requires CalendarBound(side, value).Ok?
    ensures IsUtcDateTime(CalendarBound(side, value).value)
    ensures ToUtcQueryValue(CalendarBound(side, value).value) == CalendarBound(side, value).value
  {
    hide Bound;
    hide IsDate;
    hide Parse;
    hide IsUtcDateTime;
    hide ToUtcQueryValue;
    hide PeriodFromReportingPeriod;
    FirstInstantOfLabel(value);
    YearOfText(value);
    if side == Start {
      MidnightIsItsOwnQueryValue(LabelDate(value));
    } else {
      YearZeroHasNoPeriod(value);
      PeriodOfLabel(value);
      AfterLabelYear(value);
      MidnightIsItsOwnQueryValue(AfterLabel(value));
    }
  }

  lemma AfterLabelYear(value: string)
    requires IsLabel(value)
    ensures LabelDate(value).year <= AfterLabel(value).year
  {
  }

  lemma YearZeroHasNoPeriod(value: string)
    requires IsLabel(value) && PeriodFromReportingPeriod(value, 0).Ok?
    ensures LabelDate(value).year >= 1
  {
    hide Between;
    hide IsDate;
    if |value| == 4 {
      assert value[..4] == value;
    }
  }

  lemma AcceptedLabel(text: string)
    requires PeriodFromReportingPeriod(text, 0).Ok?
    ensures IsLabel(text) && IsDate(LabelDate(text)) && 0 <= LabelDate(text).year <= AfterLabel(text).year <= 9999
  {
    hide IsLeapYear;
    hide Between;
    hide IsWhole;
    hide Bound;
    if IsYearLabel(text) {
      hide YearPeriod;
      assert text[..4] == text;
      YearPeriodExists(Number(text), 0);
    } else if IsMonthLabel(text) {
      hide MonthPeriod;
      assert text[5..] == text[5..7];
      MonthPeriodExists(Number(text[..4]), Number(text[5..]), 0);
    } else {
      AcceptedDay(text);
      AcceptedDayPeriod(text);
    }
  }

  lemma AcceptedDay(date: string)
    requires DayPeriod(date, 0).Ok?
    ensures IsFullDate(date) && IsDate(LabelDate(date)) && 1 <= LabelDate(date).year <= 9999
  {
    hide Between;
    hide IsLeapYear;
  }

  lemma AcceptedDayPeriod(date: string)
    requires IsFullDate(date) && IsDate(LabelDate(date)) && DayPeriod(date, 0).Ok?
    ensures NextDay(LabelDate(date)).year <= 9999 && IsDate(NextDay(LabelDate(date)))
    ensures DayPeriod(date, 0) == Ok(Period(Bound(LabelDate(date), 0), Bound(NextDay(LabelDate(date)), 0)))
  {
    hide IsLeapYear;
    hide IsWhole;
    hide Bound;
    hide DayPeriod;
    DateTextOfLabel(date);
    DayPeriodExists(LabelDate(date), 0);
    NextDayIsSuccessor(LabelDate(date));
  }

  lemma BoundMayBeSent(side: Side, value: string, sent: string)
    requires CalendarBound(side, value) == Ok(sent) && IsLabel(value)
    ensures QueryBound(side, value) == Ok(sent)
  {
    hide CalendarBound;
    hide IsLabel;
    LabelIsNoDateTime(value);
    CalendarBoundIsUtc(side, value);
  }

  /** One label as `start` and as `end` asks for the period of the label. */
  lemma BoundsOfALabelAreItsPeriod(value: string)
    requires PeriodFromReportingPeriod(value, 0).Ok?
    ensures var period := PeriodFromReportingPeriod(value, 0).value;
      QueryBound(Start, value) == Ok(period.start) && QueryBound(End, value) == Ok(period.end)
  {
    hide Parse;
    hide IsDate;
    hide Bound;
    hide QueryBound;
    hide IsLabel;
    hide PeriodFromReportingPeriod;
    AcceptedLabel(value);
    YearZeroHasNoPeriod(value);
    PeriodOfLabel(value);
    FirstInstantOfLabel(value);
    var period := PeriodFromReportingPeriod(value, 0).value;
    BoundMayBeSent(Start, value, period.start);
    BoundMayBeSent(End, value, period.end);
  }

  // ---- When a bound can be sent ----

  /** A date-time can be sent unless it has a leap second or its instant is outside years 0000 to 9999 of UTC. */
  lemma DateTimeBoundIs(side: Side, value: string)
    requires IsDateTime(value)
    ensures var inYears := 0 <= UtcYear(Instant(value)) <= 9999;
      && (QueryBound(side, value) == Err(LeapSecond) <==> HasLeapSecond(value))
      && (QueryBound(side, value) == Err(OutsideYears) <==> !HasLeapSecond(value) && !inYears)
      && (QueryBound(side, value).Ok? <==> !HasLeapSecond(value) && inYears)
      && (QueryBound(side, value).Ok? ==> IsDateTime(QueryBound(side, value).value) && Instant(QueryBound(side, value).value) == Instant(value))
  {
    hide HasLeapSecond;
    hide HasUtcForm;
    hide ToUtcQueryValue;
    hide UtcYear;
    hide Instant;
    hide Parse;
    QueryValueNamesTheInstant(value);
  }

  lemma EndOfLabel(value: string)
    requires IsLabel(value) && IsDate(LabelDate(value))
    ensures PeriodFromReportingPeriod(value, 0).Ok? <==> LabelDate(value).year >= 1 && AfterLabel(value).year <= 9999
    ensures PeriodFromReportingPeriod(value, 0).Ok? ==> PeriodFromReportingPeriod(value, 0).value.end == Bound(AfterLabel(value), 0)
  {
    hide PeriodFromReportingPeriod;
    hide IsLabel;
    hide IsDate;
    hide Bound;
    hide LabelDate;
    hide AfterLabel;
    if PeriodFromReportingPeriod(value, 0).Ok? {
      YearZeroHasNoPeriod(value);
    }
    if LabelDate(value).year >= 1 {
      PeriodOfLabel(value);
    }
  }

  /**
   * A label can be sent as `start` where it names a date, as the first midnight of it, and as `end` where it is of year 1 or
   * later and what comes after it can be written, as that midnight. Any other text is no bound.
   */
  lemma OtherBoundIs(side: Side, value: string)
    requires !IsDateTime(value)
    ensures !IsLabel(value) || !IsDate(LabelDate(value)) ==> QueryBound(side, value) == Err(NotABound)
    ensures IsLabel(value) && IsDate(LabelDate(value)) ==>
      && IsDate(AfterLabel(value))
      && (side == Start ==> QueryBound(side, value) == Ok(Bound(LabelDate(value), 0)))
      && (side == End && LabelDate(value).year >= 1 && AfterLabel(value).year <= 9999 ==> QueryBound(side, value) == Ok(Bound(AfterLabel(value), 0)))
      && (side == End && !(LabelDate(value).year >= 1 && AfterLabel(value).year <= 9999) ==> QueryBound(side, value) == Err(EndsAfterLastYear))
  {
    hide IsDate;
    hide Parse;
    hide Bound;
    hide PeriodFromReportingPeriod;
    hide FirstInstant;
    hide HasUtcForm;
    hide LabelDate;
    hide AfterLabel;
    hide IsUtcDateTime;
    hide ToUtcQueryValue;
    if IsLabel(value) {
      FirstInstantOfLabel(value);
      if IsDate(LabelDate(value)) {
        EndOfLabel(value);
      }
      hide IsLabel;
      if CalendarBound(side, value).Ok? {
        BoundMayBeSent(side, value, CalendarBound(side, value).value);
      }
    }
  }
}
