/**
 * The order of `security.php` against that of `security.js`: the seconds of `gmmktime`,
 * which reads some small years as others, and the bytes of the target. The pairs of years
 * in which the two agree are given exactly.
 */
module PhpOrder {
  import opened Answers
  import opened Calendar
  import opened CalendarTiling
  import opened CodePointOrder
  import opened DateTimes
  import opened Digits
  import opened Periods
  import opened ReferenceServer
  import opened ServerCalendar
  import opened Sorting
  import opened Wrappers

  // ---- Moments ----

  function PhpCompareMoments(x: Moment, y: Moment): int {
    if x.seconds != y.seconds then Sign(x.seconds - y.seconds)
    else if IsDigits(x.fraction) && IsDigits(y.fraction) then Sign(Number(x.fraction) - Number(y.fraction)) else 0
  }

  function PhpCompareValues(a: string, b: string): int
    requires PhpParse(a).Some? && PhpParse(b).Some?
  {
    PhpCompareMoments(PhpParse(a).value, PhpParse(b).value)
  }

  /** The seconds of a date-time past the midnight, in UTC, of the date it shows: less than three days either way. */
  function RestOfDay(d: DateTime): int {
    3600 * d.hour + 60 * d.minute + d.second - 60 * d.offset
  }

  /** The seconds each server gives a date-time, on its own scale of days. */
  lemma SecondsOf(value: string)
    requires IsDateTime(value) && Parse(value).value.date.year >= 1
    ensures JsParse(value).Some? && PhpParse(value).Some?
    ensures var d, js, php := Parse(value).value, JsParse(value).value, PhpParse(value).value;
      && js.seconds == SECONDS_PER_DAY * (DayNumber(d.date) - EPOCH_DAY) + RestOfDay(d)
      && php.seconds == SECONDS_PER_DAY * (DayIn(PhpYear, d.date) - EPOCH_DAY) + RestOfDay(d)
      && php.fraction == js.fraction && |js.fraction| == 9 && IsDigits(js.fraction)
      && IsDate(d.date) && -86_340 <= RestOfDay(d) <= 172_739
  {
    hide JsParse;
    hide Parse;
    hide MakeDay;
    hide DayIn;
    hide DayNumber;
    hide Number;
    ServerReadsAsConsumer(value);
    PhpReads(value);
    ParsedFields(value);
    var d, js := Parse(value).value, JsParse(value).value;
    MakeDayOfDate(d.date);
    PowersOfTen();
    PadOfNumber(js.fraction);
    SplitUnique(js.seconds + SECONDS_PER_DAY * EPOCH_DAY, Number(js.fraction), SECONDS_PER_DAY * DayNumber(d.date) + RestOfDay(d), d.nano);
  }

  // ---- Pairs of years ----

  /** The distance of two years, where three or more count as two. */
  function Gap(y1: int, y2: int): int {
    if y2 - y1 > 2 then 2 else if y2 - y1 < -2 then -2 else y2 - y1
  }

  /** Whether two years keep their order when read: neighbours stay neighbours, others stay apart, and a year keeps its length. */
  predicate KeepsOrder(read: int -> int, y1: int, y2: int) {
    Gap(y1, y2) == Gap(read(y1), read(y2)) && (y1 == y2 ==> IsLeapYear(y1) == IsLeapYear(read(y1)))
  }

  /** Two differences of days that are the same, or both more than three days one way. */
  predicate AlikeApart(d: int, e: int) {
    d == e || (d > 3 && e > 3) || (d < -3 && e < -3)
  }

  /** The days from a date of one year to a date of the next, counted from both sides of the year's end. */
  lemma OverTheYear(year: int, d: Date, e: Date)
    requires 1 <= d.month <= 12 && 1 <= d.day <= DaysInMonth(d.year, d.month) && IsDate(e)
    ensures var apart := DaysBeforeYear(year + 1) + DaysBeforeMonth(year + 1, e.month) + e.day - (DaysBeforeYear(year) + DaysBeforeMonth(year, d.month) + d.day);
      if d.month == 12 && e.month == 1 then apart == 31 - d.day + e.day else apart > 3
  {
    hide DaysBeforeYear;
    hide IsLeapYear;
    YearLength(year);
  }

  lemma DaysOfYearKept(read: int -> int, d: Date)
    requires IsDate(d)
    ensures DayIn(read, d) == DaysBeforeYear(read(d.year)) + DaysBeforeMonth(read(d.year), d.month) + d.day - 1
  {
    DayInYear(read, d);
  }

  lemma FarApart(read: int -> int, d: Date, e: Date)
    requires IsDate(d) && IsDate(e) && read(e.year) >= read(d.year) + 2
    ensures DayIn(read, e) - DayIn(read, d) > 3
  {
    hide DaysBeforeYear;
    hide DaysBeforeMonth;
    hide DayIn;
    DayInYear(read, d);
    DayInYear(read, e);
    YearsAscend(read(d.year) + 1, read(e.year));
  }

  lemma NextYears(read: int -> int, d: Date, e: Date)
    requires IsDate(d) && IsDate(e) && read(e.year) == read(d.year) + 1
    ensures if d.month == 12 && e.month == 1 then DayIn(read, e) - DayIn(read, d) == 31 - d.day + e.day
            else DayIn(read, e) - DayIn(read, d) > 3
  {
    hide DaysBeforeYear;
    hide DaysBeforeMonth;
    hide DayIn;
    DaysOfYearKept(read, d);
    DaysOfYearKept(read, e);
    OverTheYear(read(d.year), d, e);
  }

  lemma OrderedApart(read: int -> int, d: Date, e: Date)
    requires IsDate(d) && IsDate(e) && KeepsOrder(read, d.year, e.year) && d.year <= e.year
    ensures AlikeApart(DayIn(Identity, e) - DayIn(Identity, d), DayIn(read, e) - DayIn(read, d))
  {
    hide DaysBeforeYear;
    hide DaysBeforeMonth;
    hide DayIn;
    hide IsLeapYear;
    if d.year == e.year {
      DaysOfYearKept(read, d);
      DaysOfYearKept(read, e);
      DaysOfYearKept(Identity, d);
      DaysOfYearKept(Identity, e);
      SameLengthSameMonths(d.year, read(d.year), d.month);
      SameLengthSameMonths(d.year, read(d.year), e.month);
    } else if e.year == d.year + 1 {
      NextYears(read, d, e);
      NextYears(Identity, d, e);
    } else {
      FarApart(read, d, e);
      FarApart(Identity, d, e);
    }
  }

  lemma KeptApart(read: int -> int, d: Date, e: Date)
    requires IsDate(d) && IsDate(e) && KeepsOrder(read, d.year, e.year)
    ensures AlikeApart(DayNumber(e) - DayNumber(d), DayIn(read, e) - DayIn(read, d))
  {
    hide DayIn;
    hide DayNumber;
    hide IsLeapYear;
    if d.year <= e.year {
      OrderedApart(read, d, e);
    } else {
      OrderedApart(read, e, d);
    }
    IdentityIsDayNumber(d);
    IdentityIsDayNumber(e);
  }

  lemma IdentityIsDayNumber(d: Date)
    requires IsDate(d)
    ensures DayIn(Identity, d) == DayNumber(d)
  {
    hide DaysBeforeYear;
    hide DaysBeforeMonth;
    MakeDayOfDate(d);
  }

  // ---- The order of two date-times ----

  /** Seconds on two scales of days are ordered alike where the days are apart alike. */
  lemma SecondsOrderedAlike(days: int, read: int, rest: int)
    requires AlikeApart(days, read) && -259_200 < rest < 259_200
    ensures Sign(SECONDS_PER_DAY * days + rest) == Sign(SECONDS_PER_DAY * read + rest)
    ensures SECONDS_PER_DAY * days + rest == 0 <==> SECONDS_PER_DAY * read + rest == 0
  {
  }

  lemma FractionsOrderedAlike(x: Moment, y: Moment)
    requires |x.fraction| == |y.fraction| == 9 && IsDigits(x.fraction) && IsDigits(y.fraction) && x.seconds == y.seconds
    ensures PhpCompareMoments(x, y) == Sign(CompareInstants(x, y))
  {
    hide StringLess;
    DigitsOrder(x.fraction, y.fraction);
    DigitsOrder(y.fraction, x.fraction);
  }

  lemma PhpOrdersInstants(a: string, b: string)
    requires IsDateTime(a) && IsDateTime(b) && Parse(a).value.date.year >= 1 && Parse(b).value.date.year >= 1
    requires KeepsOrder(PhpYear, Parse(a).value.date.year, Parse(b).value.date.year)
    ensures JsParse(a).Some? && JsParse(b).Some? && PhpParse(a).Some? && PhpParse(b).Some?
    ensures PhpCompareValues(a, b) == Sign(CompareValues(a, b))
  {
    hide Parse;
    hide JsParse;
    hide PhpParse;
    hide StringLess;
    hide DayIn;
    hide DayNumber;
    hide KeepsOrder;
    hide Number;
    hide RestOfDay;
    hide AlikeApart;
    SecondsOf(a);
    SecondsOf(b);
    var d, e := Parse(a).value, Parse(b).value;
    KeptApart(PhpYear, e.date, d.date) by {
      KeepsOrderBackwards(PhpYear, d.date.year, e.date.year);
    }
    SecondsOrderedAlike(DayNumber(d.date) - DayNumber(e.date), DayIn(PhpYear, d.date) - DayIn(PhpYear, e.date), RestOfDay(d) - RestOfDay(e));
    if JsParse(a).value.seconds == JsParse(b).value.seconds {
      FractionsOrderedAlike(JsParse(a).value, JsParse(b).value);
    }
  }

  lemma KeepsOrderBackwards(read: int -> int, y1: int, y2: int)
    requires KeepsOrder(read, y1, y2)
    ensures KeepsOrder(read, y2, y1)
  {
    hide IsLeapYear;
  }

  // ---- Where the order is lost ----

  /** The last minute of a date, in the offset that puts it furthest ahead: nearly two days past its midnight in UTC. */
  function LastMinute(d: Date): string
    requires IsDate(d) && 0 <= d.year <= 9999
  {
    Pad(d.year, 4) + Layout(Pad(d.month, 2), Pad(d.day, 2), "23", "59", "00", "-23:59")
  }

  lemma TwoDigitNumber(text: string)
    requires |text| == 2 && IsDigits(text)
    ensures Number(text) == 10 * (text[0] - '0') as int + (text[1] - '0') as int
  {
    assert text[..1] == [text[0]] && text[..1][..0] == "";
    assert Number(text[..1]) == (text[0] - '0') as int;
  }

  lemma LastZone()
    ensures ZoneForm("-23:59") && ReadZone("-23:59") == Some(-1439)
  {
    var zone := "-23:59";
    assert zone[1..3] == "23" && zone[4..6] == "59";
    TwoDigitNumber("23");
    TwoDigitNumber("59");
  }

  lemma LastMinuteReads(d: Date)
    requires IsDate(d) && 0 <= d.year <= 9999
    ensures Parse(LastMinute(d)) == Ok(DateTime(d, 23, 59, 0, 0, -1439))
  {
    hide Layout;
    hide RestForm;
    hide ReadRest;
    hide HasDateTimeForm;
    hide Parse;
    hide ZoneForm;
    hide ReadZone;
    hide IsDate;
    hide Number;
    MonthAndDayAreTwoDigits(d);
    var month, day := Pad(d.month, 2), Pad(d.day, 2);
    NumberOfTwoDigits(d.month);
    NumberOfTwoDigits(d.day);
    TwoDigitNumber("23");
    TwoDigitNumber("59");
    TwoDigitNumber("00");
    LastZone();
    assert "-23:59" == "" + "-23:59";
    ReadLayout(d.year, month, day, "23", "59", "00", "", "-23:59");
    ReadFourDigitYear(d.year, Layout(month, day, "23", "59", "00", "-23:59"));
  }

  lemma MonthAndDayAreTwoDigits(d: Date)
    requires IsDate(d)
    ensures 1 <= d.month <= 12 && 1 <= d.day <= 31
  {
  }

  predicate InYear(value: string, year: int) {
    IsDateTime(value) && Parse(value).value.date.year == year
  }

  /** The two servers order two date-times differently. */
  predicate OrderedOtherwise(a: string, b: string) {
    PhpParse(a).Some? && PhpParse(b).Some? && PhpCompareValues(a, b) != Sign(CompareValues(a, b))
  }

  /** The servers differ where the seconds past their midnights lie between the two differences of days. */
  lemma DifferBetween(a: string, b: string, days: int, read: int)
    requires IsDateTime(a) && IsDateTime(b) && Parse(a).value.date.year >= 1 && Parse(b).value.date.year >= 1
    requires days == DayNumber(Parse(b).value.date) - DayNumber(Parse(a).value.date)
    requires read == DayIn(PhpYear, Parse(b).value.date) - DayIn(PhpYear, Parse(a).value.date)
    requires Sign(SECONDS_PER_DAY * days + RestOfDay(Parse(b).value) - RestOfDay(Parse(a).value))
          != Sign(SECONDS_PER_DAY * read + RestOfDay(Parse(b).value) - RestOfDay(Parse(a).value))
    requires SECONDS_PER_DAY * days + RestOfDay(Parse(b).value) - RestOfDay(Parse(a).value) != 0
    requires SECONDS_PER_DAY * read + RestOfDay(Parse(b).value) - RestOfDay(Parse(a).value) != 0
    ensures OrderedOtherwise(a, b)
  {
    hide Parse;
    hide JsParse;
    hide PhpParse;
    hide StringLess;
    hide DayIn;
    hide DayNumber;
    hide Number;
    hide RestOfDay;
    SecondsOf(a);
    SecondsOf(b);
  }

  /** Midnights of two dates whose days are apart one way and, as read, not that way. */
  lemma MidnightsDiffer(d: Date, e: Date) returns (a: string, b: string)
    requires IsDate(d) && IsDate(e) && 1 <= d.year <= 9999 && 1 <= e.year <= 9999
    requires DayNumber(e) - DayNumber(d) != 0 && DayIn(PhpYear, e) - DayIn(PhpYear, d) != 0
    requires Sign(DayNumber(e) - DayNumber(d)) != Sign(DayIn(PhpYear, e) - DayIn(PhpYear, d))
    ensures InYear(a, d.year) && InYear(b, e.year) && OrderedOtherwise(a, b)
  {
    hide Parse;
    hide Bound;
    hide DayIn;
    hide DayNumber;
    hide OrderedOtherwise;
    a, b := Bound(d, 0), Bound(e, 0);
    BoundReadsBack(d, 0);
    BoundReadsBack(e, 0);
    DifferBetween(a, b, DayNumber(e) - DayNumber(d), DayIn(PhpYear, e) - DayIn(PhpYear, d));
  }

  /** The last minute of a date and the midnight of another, one day apart on one scale and two or more on the other. */
  lemma LastMinuteDiffers(d: Date, e: Date) returns (a: string, b: string)
    requires IsDate(d) && IsDate(e) && 1 <= d.year <= 9999 && 1 <= e.year <= 9999
    requires var days, read := DayNumber(e) - DayNumber(d), DayIn(PhpYear, e) - DayIn(PhpYear, d);
      (days == 1 && read >= 2) || (read == 1 && days >= 2)
    ensures InYear(a, d.year) && InYear(b, e.year) && OrderedOtherwise(a, b) && OrderedOtherwise(b, a)
  {
    hide Parse;
    hide Bound;
    hide LastMinute;
    hide DayIn;
    hide DayNumber;
    hide OrderedOtherwise;
    a, b := LastMinute(d), Bound(e, 0);
    LastMinuteReads(d);
    BoundReadsBack(e, 0);
    DifferBetween(a, b, DayNumber(e) - DayNumber(d), DayIn(PhpYear, e) - DayIn(PhpYear, d));
    DifferBetween(b, a, DayNumber(d) - DayNumber(e), DayIn(PhpYear, d) - DayIn(PhpYear, e));
  }

  /** A year that is read as one of another length: its end of February. */
  lemma FebruaryDiffers(year: int)
    requires IsLeapYear(year) != IsLeapYear(PhpYear(year))
    ensures var d, e := Date(year, 2, 28), Date(year, 3, 1); var days, read := DayNumber(e) - DayNumber(d), DayIn(PhpYear, e) - DayIn(PhpYear, d);
      IsDate(d) && IsDate(e) && ((days == 1 && read == 2) || (days == 2 && read == 1))
  {
    hide IsLeapYear;
    hide DaysBeforeYear;
    DaysOfYearKept(PhpYear, Date(year, 2, 28));
    DaysOfYearKept(PhpYear, Date(year, 3, 1));
  }

  /** Two years apart one way and, as read, not that way: the second of January of the one and the first of the other. */
  lemma JanuaryDiffers(y1: int, y2: int)
    requires y1 < y2 && PhpYear(y1) >= PhpYear(y2)
    ensures var d, e := Date(y1, 1, 2), Date(y2, 1, 1); DayNumber(e) > DayNumber(d) && DayIn(PhpYear, e) < DayIn(PhpYear, d)
  {
    hide IsLeapYear;
    hide DaysBeforeYear;
    hide PhpYear;
    DaysOfYearKept(PhpYear, Date(y1, 1, 2));
    DaysOfYearKept(PhpYear, Date(y2, 1, 1));
    YearsAscend(y1, y2);
    YearsAscend(PhpYear(y2), PhpYear(y1));
  }

  lemma YearEndDiffers(y1: int, y2: int)
    requires y1 < y2 && PhpYear(y1) < PhpYear(y2) && Gap(y1, y2) != Gap(PhpYear(y1), PhpYear(y2))
    ensures var d, e := Date(y1, 12, 31), Date(y2, 1, 1); var days, read := DayNumber(e) - DayNumber(d), DayIn(PhpYear, e) - DayIn(PhpYear, d);
      (days == 1 && read >= 2) || (read == 1 && days >= 2)
  {
    hide IsLeapYear;
    hide DayIn;
    hide DayNumber;
    hide PhpYear;
    var d, e := Date(y1, 12, 31), Date(y2, 1, 1);
    IdentityIsDayNumber(d);
    IdentityIsDayNumber(e);
    if y2 == y1 + 1 {
      NextYears(Identity, d, e);
      FarApart(PhpYear, d, e);
    } else {
      FarApart(Identity, d, e);
      NextYears(PhpYear, d, e);
    }
  }

  lemma LostOrderAscending(y1: int, y2: int) returns (a: string, b: string)
    requires 1 <= y1 <= y2 <= 9999 && !KeepsOrder(PhpYear, y1, y2)
    ensures InYear(a, y1) && InYear(b, y2) && OrderedOtherwise(a, b) && OrderedOtherwise(b, a)
  {
    hide Parse;
    hide OrderedOtherwise;
    hide DayIn;
    hide DayNumber;
    hide IsLeapYear;
    hide PhpYear;
    if y1 == y2 {
      FebruaryDiffers(y1);
      a, b := LastMinuteDiffers(Date(y1, 2, 28), Date(y2, 3, 1));
    } else if PhpYear(y1) >= PhpYear(y2) {
      JanuaryDiffers(y1, y2);
      a, b := MidnightsDiffer(Date(y1, 1, 2), Date(y2, 1, 1));
      OtherwiseBackwards(a, b);
    } else {
      YearEndDiffers(y1, y2);
      a, b := LastMinuteDiffers(Date(y1, 12, 31), Date(y2, 1, 1));
    }
  }

  lemma OtherwiseBackwards(a: string, b: string)
    requires IsDateTime(a) && IsDateTime(b) && OrderedOtherwise(a, b)
    ensures OrderedOtherwise(b, a)
  {
    hide Parse;
    hide JsParse;
    hide PhpParse;
    hide StringLess;
    PhpReads(a);
    PhpReads(b);
    SecondsOf(a);
    SecondsOf(b);
    DigitsOrder(JsParse(a).value.fraction, JsParse(b).value.fraction);
    DigitsOrder(JsParse(b).value.fraction, JsParse(a).value.fraction);
  }

  /**
   * The PHP server orders the date-times of two years, in any offsets, as the JavaScript server and the consumer do,
   * exactly when the two years keep their order as `gmmktime` reads them.
   */
  lemma PhpOrdersAlikeIff(y1: int, y2: int)
    requires 1 <= y1 <= 9999 && 1 <= y2 <= 9999
    ensures (forall a, b :: InYear(a, y1) && InYear(b, y2) ==> !OrderedOtherwise(a, b)) <==> KeepsOrder(PhpYear, y1, y2)
  {
    hide OrderedOtherwise;
    hide Parse;
    hide IsLeapYear;
    hide PhpYear;
    if KeepsOrder(PhpYear, y1, y2) {
      hide KeepsOrder;
      forall a, b | InYear(a, y1) && InYear(b, y2) ensures !OrderedOtherwise(a, b) {
        OrderedAlike(a, b);
      }
    } else if y1 <= y2 {
      var a, b := LostOrderAscending(y1, y2);
    } else {
      var b, a := LostOrderAscending(y2, y1);
    }
  }

  lemma OrderedAlike(a: string, b: string)
    requires IsDateTime(a) && IsDateTime(b) && Parse(a).value.date.year >= 1 && Parse(b).value.date.year >= 1
    requires KeepsOrder(PhpYear, Parse(a).value.date.year, Parse(b).value.date.year)
    ensures !OrderedOtherwise(a, b)
  {
    hide Parse;
    hide JsParse;
    hide PhpParse;
    hide PhpCompareValues;
    hide CompareValues;
    hide KeepsOrder;
    PhpOrdersInstants(a, b);
  }

  lemma YearsFrom101KeepOrder(y1: int, y2: int)
    requires y1 >= 101 && y2 >= 101
    ensures KeepsOrder(PhpYear, y1, y2)
  {
    hide IsLeapYear;
  }

  // ---- The order of two objects, and of arrays ----

  /** The PHP server can read the bounds of an object, and its target is text that it can be sent. */
  predicate IsPhpHeld(o: Held) {
    IsHeld(o) && PhpParse(o.period.start).Some? && PhpParse(o.period.end).Some? && IsWellFormed(o.target)
  }

  /** By `start`, then by `end`, then by the bytes of the target. */
  function PhpCompareObjects(a: Held, b: Held): int {
    if !IsPhpHeld(a) || !IsPhpHeld(b) then 0 else
    ServersOrderTargetsAlike(a.target, b.target);
    var byStart, byEnd := PhpCompareValues(a.period.start, b.period.start), PhpCompareValues(a.period.end, b.period.end);
    if byStart != 0 then byStart else if byEnd != 0 then byEnd
    else Strcmp(Encode(CodePoints(a.target)), Encode(CodePoints(b.target)))
  }

  predicate PhpHeldLe(a: Held, b: Held) {
    PhpCompareObjects(a, b) <= 0
  }

  /** The years of the bounds of two objects, start with start and end with end, keep their order. */
  predicate YearsKeepOrder(a: Held, b: Held) {
    && IsHeld(a) && IsHeld(b)
    && KeepsOrder(PhpYear, Parse(a.period.start).value.date.year, Parse(b.period.start).value.date.year)
    && KeepsOrder(PhpYear, Parse(a.period.end).value.date.year, Parse(b.period.end).value.date.year)
  }

  /** The two servers order every two objects alike whose years keep their order. */
  lemma ServersOrderObjectsAlike(a: Held, b: Held)
    requires IsPhpHeld(a) && IsPhpHeld(b) && YearsKeepOrder(a, b)
    ensures Sign(PhpCompareObjects(a, b)) == Sign(CompareObjects(a, b))
  {
    hide Parse;
    hide JsParse;
    hide PhpParse;
    hide PhpCompareValues;
    hide CompareValues;
    hide KeepsOrder;
    hide IsWellFormed;
    hide Strcmp;
    hide CodePoints;
    PhpReads(a.period.start);
    PhpReads(a.period.end);
    PhpReads(b.period.start);
    PhpReads(b.period.end);
    PhpOrdersInstants(a.period.start, b.period.start);
    PhpOrdersInstants(a.period.end, b.period.end);
    ServersOrderTargetsAlike(a.target, b.target);
  }

  predicate ArePhpHeld(objects: seq<Held>) {
    forall i :: 0 <= i < |objects| ==> IsPhpHeld(objects[i])
  }

  predicate AllYearsKeepOrder(objects: seq<Held>) {
    forall i, j :: 0 <= i < |objects| && 0 <= j < |objects| ==> YearsKeepOrder(objects[i], objects[j])
  }

  /** So the two servers answer with the same array, whatever they hold of such objects. */
  lemma ServersSortAlike(objects: seq<Held>)
    requires ArePhpHeld(objects) && AllYearsKeepOrder(objects)
    ensures Sort(PhpHeldLe, objects) == Sort(HeldLe, objects)
  {
    hide IsPhpHeld;
    hide YearsKeepOrder;
    hide PhpCompareObjects;
    hide CompareObjects;
    forall x, y | x in objects && y in objects ensures PhpHeldLe(x, y) == HeldLe(x, y) {
      ServersOrderObjectsAlike(x, y);
    }
    SortsAlike(PhpHeldLe, HeldLe, objects);
  }

  predicate FromYear101(o: Held) {
    IsHeld(o) && Parse(o.period.start).value.date.year >= 101 && Parse(o.period.end).value.date.year >= 101
  }

  /** In particular they do for objects of the years from 0101 on. */
  lemma ServersSortAlikeFrom101(objects: seq<Held>)
    requires ArePhpHeld(objects) && forall i :: 0 <= i < |objects| ==> FromYear101(objects[i])
    ensures Sort(PhpHeldLe, objects) == Sort(HeldLe, objects)
  {
    hide Parse;
    hide IsPhpHeld;
    hide IsHeld;
    hide PhpHeldLe;
    hide HeldLe;
    hide KeepsOrder;
    forall i, j | 0 <= i < |objects| && 0 <= j < |objects| ensures YearsKeepOrder(objects[i], objects[j]) {
      YearsFrom101(objects[i], objects[j]);
    }
    ServersSortAlike(objects);
  }

  lemma YearsFrom101(a: Held, b: Held)
    requires FromYear101(a) && FromYear101(b)
    ensures YearsKeepOrder(a, b)
  {
    hide Parse;
    hide KeepsOrder;
    YearsFrom101KeepOrder(Parse(a.period.start).value.date.year, Parse(b.period.start).value.date.year);
    YearsFrom101KeepOrder(Parse(a.period.end).value.date.year, Parse(b.period.end).value.date.year);
  }
}
