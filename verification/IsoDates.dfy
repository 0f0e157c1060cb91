/**
 * `date.fromisoformat` of Python, from version 3.11 on, for texts of ten characters: it
 * reads week dates as well as calendar dates, and either kind without separators too,
 * then with two characters after it that it does not look at.
 */
module IsoDates {
  import opened Calendar
  import opened Digits
  import opened Periods
  import opened Wrappers

  // ---- Week dates ----

  /** The day of the week of a day number, counted from Monday as 0. */
  function WeekdayOf(n: int): int {
    (n + 5) % 7
  }

  function YearStart(year: int): int {
    DayNumber(Date(year, 1, 1))
  }

  /** The Monday of week one, the first week with most of its days in the year. */
  function FirstMonday(year: int): int {
    var weekday := WeekdayOf(YearStart(year));
    YearStart(year) - weekday + (if weekday > 3 then 7 else 0)
  }

  /** Whether the year has a week of that number, as the library decides it. */
  predicate HasWeek(year: int, week: int) {
    var weekday := WeekdayOf(YearStart(year));
    1 <= week <= 52 || (week == 53 && (weekday == 3 || (weekday == 2 && IsLeapYear(year))))
  }

  function InYears(d: Date): Option<Date> {
    if 1 <= d.year <= 9999 then Some(d) else None
  }

  function CalendarForm(year: int, month: int, day: int): (d: Option<Date>)
    ensures d.Some? ==> IsDate(d.value) && 1 <= d.value.year <= 9999
  {
    if IsDate(Date(year, month, day)) then InYears(Date(year, month, day)) else None
  }

  function WeekForm(year: int, week: int, day: int): (d: Option<Date>)
    ensures d.Some? ==> IsDate(d.value) && 1 <= d.value.year <= 9999
  {
    if HasWeek(year, week) && 1 <= day <= 7 then InYears(FromDayNumber(FirstMonday(year) + 7 * (week - 1) + day - 1)) else None
  }

  /** A year has exactly the weeks whose Thursdays fall in it, and each begins on a Monday. */
  lemma WeeksOfTheYear(year: int, week: int)
    requires week >= 1
    ensures var thursday := FirstMonday(year) + 7 * (week - 1) + 3;
      && (HasWeek(year, week) <==> YearStart(year) <= thursday < YearStart(year + 1))
      && WeekdayOf(thursday) == 3 && (thursday - YearStart(year)) / 7 == week - 1
  {
    hide IsLeapYear;
    hide DaysBeforeYear;
    YearLength(year);
    var weekday := WeekdayOf(YearStart(year));
    var r := if weekday > 3 then 10 - weekday else 3 - weekday;
    assert FirstMonday(year) + 3 == YearStart(year) + r && 0 <= r <= 6;
  }

  /** A week date names the day of that number, from Monday as one, in that week. */
  lemma WeekDayOf(year: int, week: int, day: int)
    ensures WeekForm(year, week, day).Some? ==> HasWeek(year, week) && 1 <= day <= 7
    ensures WeekForm(year, week, day).Some? ==>
      var n := DayNumber(WeekForm(year, week, day).value); WeekdayOf(n) == day - 1 && n - WeekdayOf(n) == FirstMonday(year) + 7 * (week - 1)
    ensures HasWeek(year, week) && 1 <= day <= 7 ==>
      (WeekForm(year, week, day).Some? <==> 1 <= FromDayNumber(FirstMonday(year) + 7 * (week - 1) + day - 1).year <= 9999)
  {
    hide DayNumber;
    hide FromDayNumber;
    hide IsLeapYear;
    if HasWeek(year, week) {
      WeeksOfTheYear(year, week);
    }
  }

  lemma LastDay()
    ensures DayNumber(Date(9999, 12, 31)) == YearStart(9999) + 364
    ensures WeekdayOf(YearStart(9999)) == 4 && FirstMonday(9999) == YearStart(9999) + 3
  {
  }

  /** One week date alone names the last date there is. */
  lemma WeekOfLastDate(year: int, week: int, day: int)
    requires year <= 9999
    ensures WeekForm(year, week, day) == Some(Date(9999, 12, 31)) <==> year == 9999 && week == 52 && day == 5
  {
    hide DayNumber;
    hide IsLeapYear;
    hide FromDayNumber;
    LastDay();
    FromDayNumberInverse(Date(9999, 12, 31));
    if year < 9999 {
      YearsApart(year);
    }
  }

  lemma YearsApart(year: int)
    requires year < 9999
    ensures YearStart(year) + 365 <= YearStart(9999)
  {
    hide DaysBeforeYear;
    YearLength(year);
    if year + 1 < 9999 {
      YearsAscend(year + 1, 9999);
    }
  }

  // ---- The texts ----

  predicate IsWeekText(text: string) {
    && |text| == 10 && IsDigits(text[..4]) && text[4] == '-' && text[5] == 'W' && IsDigits(text[6..8]) && text[8] == '-'
    && IsDigits(text[9..])
  }

  predicate IsCompactText(text: string) {
    |text| == 10 && IsDigits(text[..8])
  }

  predicate IsCompactWeekText(text: string) {
    |text| == 10 && IsDigits(text[..4]) && text[4] == 'W' && IsDigits(text[5..7]) && IsDigits(text[7..8])
  }

  /** The date that a text of ten characters is read as; `takesRest` tells of which compact texts the last two are passed over. */
  function FromIsoFormat(takesRest: string -> bool, text: string): (d: Option<Date>)
    ensures d.Some? ==> IsDate(d.value) && 1 <= d.value.year <= 9999
  {
    if IsFullDate(text) then CalendarForm(Number(text[..4]), Number(text[5..7]), Number(text[8..]))
    else if IsWeekText(text) then WeekForm(Number(text[..4]), Number(text[6..8]), Number(text[9..]))
    else if IsCompactText(text) && takesRest(text) then CalendarForm(Number(text[..4]), Number(text[4..6]), Number(text[6..8]))
    else if IsCompactWeekText(text) && takesRest(text) then WeekForm(Number(text[..4]), Number(text[5..7]), Number(text[7..8]))
    else None
  }

  /** The texts that are read as the last date there is. */
  predicate SpellsLastDate(takesRest: string -> bool, text: string) {
    || text == "9999-12-31" || text == "9999-W52-5"
    || (|text| == 10 && (text[..8] == "99991231" || text[..8] == "9999W525") && takesRest(text))
  }

  lemma DigitsNameIt(digits: string, text: string)
    requires IsDigits(digits) && IsDigits(text) && |digits| == |text|
    ensures Number(digits) == Number(text) <==> digits == text
  {
    PadOfNumber(digits);
    PadOfNumber(text);
  }

  lemma LastYearNumber()
    ensures Number("9999") == 9999
  {
    PowersOfTen();
    NumberOfPad(9999, 4);
    assert Pad(99, 2) == "99" && Pad(999, 3) == "999";
    assert Pad(9999, 4) == "9999";
  }

  lemma SmallNumber(n: nat)
    requires n == 12 || n == 31 || n == 52
    ensures Number(Pad(n, 2)) == n && Pad(n, 2) == [DigitOf(n / 10), DigitOf(n % 10)]
  {
    PowersOfTen();
    NumberOfPad(n, 2);
  }

  lemma LastNumbers()
    ensures Number("9999") == 9999 && Number("12") == 12 && Number("31") == 31 && Number("52") == 52 && Number("5") == 5
  {
    LastYearNumber();
    SmallNumber(12);
    SmallNumber(31);
    SmallNumber(52);
    assert "5"[..0] == "";
    hide Pad;
    assert Pad(12, 2) == "12" && Pad(31, 2) == "31" && Pad(52, 2) == "52";
  }

  lemma SliceOfSlice(text: string, n: nat, i: nat, j: nat)
    requires i <= j <= n <= |text|
    ensures text[..n][i..j] == text[i..j]
  {
  }

  lemma SpelledHasForm(takesRest: string -> bool, text: string)
    requires SpellsLastDate(takesRest, text)
    ensures IsFullDate(text) || IsWeekText(text) || IsCompactText(text) || IsCompactWeekText(text)
  {
    if |text| == 10 && text[..8] == "9999W525" {
      SliceOfSlice(text, 8, 0, 4);
      SliceOfSlice(text, 8, 5, 7);
      SliceOfSlice(text, 8, 7, 8);
      assert text[..8][4] == text[4] && text[0..4] == text[..4];
    }
  }

  lemma ReadAsLastDateIff(takesRest: string -> bool, text: string)
    ensures FromIsoFormat(takesRest, text) == Some(Date(9999, 12, 31)) <==> SpellsLastDate(takesRest, text)
  {
    hide Number;
    hide WeekForm;
    if SpellsLastDate(takesRest, text) {
      SpelledHasForm(takesRest, text);
    }
    if IsFullDate(text) {
      FullDateIsLast(text);
    } else if IsWeekText(text) {
      WeekTextIsLast(text);
    } else if IsCompactText(text) {
      CompactIsLast(text);
    } else if IsCompactWeekText(text) {
      CompactWeekIsLast(text);
    }
  }

  lemma FullDateIsLast(text: string)
    requires IsFullDate(text)
    ensures CalendarForm(Number(text[..4]), Number(text[5..7]), Number(text[8..])) == Some(Date(9999, 12, 31)) <==> text == "9999-12-31"
    ensures text[4] == '-'
  {
    hide Number;
    LastNumbers();
    DigitsNameIt(text[..4], "9999");
    DigitsNameIt(text[5..7], "12");
    DigitsNameIt(text[8..], "31");
    assert text == text[..4] + "-" + text[5..7] + "-" + text[8..];
  }

  lemma WeekTextIsLast(text: string)
    requires IsWeekText(text)
    ensures WeekForm(Number(text[..4]), Number(text[6..8]), Number(text[9..])) == Some(Date(9999, 12, 31)) <==> text == "9999-W52-5"
  {
    hide Number;
    hide WeekForm;
    LastNumbers();
    YearOfDigits(text[..4]);
    WeekOfLastDate(Number(text[..4]), Number(text[6..8]), Number(text[9..]));
    DigitsNameIt(text[..4], "9999");
    DigitsNameIt(text[6..8], "52");
    DigitsNameIt(text[9..], "5");
    assert text == text[..4] + "-W" + text[6..8] + "-" + text[9..];
  }

  lemma YearOfDigits(digits: string)
    requires IsDigits(digits) && |digits| == 4
    ensures Number(digits) <= 9999
  {
    PowersOfTen();
    PadOfNumber(digits);
  }

  lemma CompactIsLast(text: string)
    requires IsCompactText(text)
    ensures CalendarForm(Number(text[..4]), Number(text[4..6]), Number(text[6..8])) == Some(Date(9999, 12, 31)) <==> text[..8] == "99991231"
  {
    hide Number;
    LastNumbers();
    DigitsNameIt(text[..4], "9999");
    DigitsNameIt(text[4..6], "12");
    DigitsNameIt(text[6..8], "31");
    assert text[..8] == text[..4] + text[4..6] + text[6..8];
    assert "99991231"[..4] == "9999" && "99991231"[4..6] == "12" && "99991231"[6..8] == "31";
    assert text[..8][..4] == text[..4] && text[..8][4..6] == text[4..6] && text[..8][6..8] == text[6..8];
  }

  lemma CompactWeekIsLast(text: string)
    requires IsCompactWeekText(text)
    ensures WeekForm(Number(text[..4]), Number(text[5..7]), Number(text[7..8])) == Some(Date(9999, 12, 31)) <==> text[..8] == "9999W525"
  {
    hide Number;
    hide WeekForm;
    LastNumbers();
    YearOfDigits(text[..4]);
    WeekOfLastDate(Number(text[..4]), Number(text[5..7]), Number(text[7..8]));
    DigitsNameIt(text[..4], "9999");
    DigitsNameIt(text[5..7], "52");
    DigitsNameIt(text[7..8], "5");
    assert text[..8] == text[..4] + "W" + text[5..7] + text[7..8];
    assert "9999W525"[..4] == "9999" && "9999W525"[5..7] == "52" && "9999W525"[7..8] == "5";
    assert text[..8][..4] == text[..4] && text[..8][5..7] == text[5..7] && text[..8][7..8] == text[7..8];
  }
}
