/**
 * `convert_legacy` of `check-live.py`: its own calendar rollover for the labels and the
 * date pairs of earlier revisions, against `periodFromReportingPeriod` and
 * `periodFromFullDates` of the consumer.
 */
module LegacyCheck {
  import opened Calendar
  import opened CalendarTiling
  import opened DateTimes
  import opened Digits
  import opened IsoDates
  import opened Periods
  import opened Queries
  import opened Strings
  import opened Wrappers

  /** `Crashed` is an exception that the function does not catch. */
  datatype Conversion = Converted(period: Period) | Unchanged | Crashed

  /** A number of decimal digits; any other text raises. */
  function ReadInt(text: string): Option<nat> {
    if text != "" && IsDigits(text) then Some(Number(text)) else None
  }

  function ReadInts(parts: seq<string>): Option<seq<nat>> {
    if parts == [] then Some([]) else
    var first, rest := ReadInt(parts[0]), ReadInts(parts[1..]);
    if first.None? || rest.None? then None else Some([first.value] + rest.value)
  }

  function Decimal(n: nat): string {
    if n < 10 then [DigitOf(n)] else Decimal(n / 10) + [DigitOf(n % 10)]
  }

  /** A number with zeros before it up to the width, and wider where it needs to be. */
  function Zeroed(n: nat, width: nat): string {
    if n < Pow10(width) then Pad(n, width) else Decimal(n)
  }

  function MidnightOf(year: nat, month: nat, day: nat): string {
    Zeroed(year, 4) + "-" + Zeroed(month, 2) + "-" + Zeroed(day, 2) + "T00:00:00Z"
  }

  /** The first day of the month after, by the arithmetic of the script. */
  function MonthAfter(year: nat, month: nat): (nat, nat) {
    (year + (if month == 12 then 1 else 0), month % 12 + 1)
  }

  function ConvertLabel(text: string): Conversion {
    var read := ReadInts(Split(text, '-'));
    if read.None? then Unchanged else
    var parts := read.value;
    if |parts| == 1 then
      Converted(Period(MidnightOf(parts[0], 1, 1), MidnightOf(parts[0] + 1, 1, 1)))
    else if |parts| == 2 then
      var (year, month) := MonthAfter(parts[0], parts[1]);
      Converted(Period(MidnightOf(parts[0], parts[1], 1), MidnightOf(year, month, 1)))
    else if |parts| == 3 && 1 <= parts[1] <= 12 then
      var (year, month) := MonthAfter(parts[0], parts[1]);
      Converted(Period(MidnightOf(parts[0], parts[1], parts[2]),
                       if parts[2] < DaysInMonth(parts[0], parts[1]) then MidnightOf(parts[0], parts[1], parts[2] + 1)
                       else MidnightOf(year, month, 1)))
    else Unchanged
  }

  /** A pair of date-only bounds: the end is read and moved to the next day, the start is taken as it stands. */
  function ConvertDates(takesRest: string -> bool, start: string, end: string): Conversion {
    if |start| != 10 || |end| != 10 then Unchanged else
    var read := FromIsoFormat(takesRest, end);
    if read.None? then Unchanged
    else if read.value == Date(9999, 12, 31) then Crashed
    else
      var next := FromDayNumber(DayNumber(read.value) + 1);
      Converted(Period(start + "T00:00:00Z",
        (if 0 <= next.year <= 9999 then DateText(next) else "") + "T00:00:00Z"))
  }

  // ---- Agreement with the consumer ----

  lemma ReadIntsOf(a: string, b: string, c: string)
    requires IsDigits(a) && IsDigits(b) && IsDigits(c) && a != "" && b != "" && c != ""
    ensures ReadInts(Split(a, '-')) == Some([Number(a)])
    ensures ReadInts(Split(a + "-" + b, '-')) == Some([Number(a), Number(b)])
    ensures ReadInts(Split(a + "-" + b + "-" + c, '-')) == Some([Number(a), Number(b), Number(c)])
  {
    hide Split;
    hide Number;
    SplitFirst(a, '-', b);
    SplitFirst(a, '-', b + "-" + c);
    SplitFirst(b, '-', c);
    SplitFirst(c, '-', "");
    assert a + "-" + b + "-" + c == a + "-" + (b + "-" + c);
    assert [a] + ([b] + [c]) == [a, b, c] && [a] + [b] == [a, b];
    ReadThree(a, b, c);
  }

  lemma ReadCons(a: string, rest: seq<string>)
    requires IsDigits(a) && a != "" && ReadInts(rest).Some?
    ensures ReadInts([a] + rest) == Some([Number(a)] + ReadInts(rest).value)
  {
    assert ([a] + rest)[1..] == rest;
  }

  lemma ReadThree(a: string, b: string, c: string)
    requires IsDigits(a) && IsDigits(b) && IsDigits(c) && a != "" && b != "" && c != ""
    ensures ReadInts([a]) == Some([Number(a)])
    ensures ReadInts([a, b]) == Some([Number(a), Number(b)])
    ensures ReadInts([a, b, c]) == Some([Number(a), Number(b), Number(c)])
  {
    hide Number;
    var x, y, z := Number(a), Number(b), Number(c);
    assert ReadInts([]) == Some([]);
    ReadCons(a, []);
    ReadCons(b, []);
    ReadCons(c, []);
    hide ReadInts;
    assert [a] + [] == [a] && [b] + [] == [b] && [c] + [] == [c];
    assert [x] + [] == [x] && [y] + [] == [y] && [z] + [] == [z];
    ReadCons(b, [c]);
    ReadCons(a, [b]);
    assert [b] + [c] == [b, c] && [a] + [b] == [a, b];
    assert [y] + [z] == [y, z] && [x] + [y] == [x, y];
    ReadCons(a, [b, c]);
    assert [a] + [b, c] == [a, b, c] && [x] + [y, z] == [x, y, z];
  }

  lemma MidnightOfDate(d: Date)
    requires IsDate(d) && 0 <= d.year <= 9999
    ensures MidnightOf(d.year, d.month, d.day) == Bound(d, 0)
  {
    PowersOfTen();
    assert Zeroed(d.year, 4) == Pad(d.year, 4) && Zeroed(d.month, 2) == Pad(d.month, 2) && Zeroed(d.day, 2) == Pad(d.day, 2);
  }

  lemma LabelParts(text: string)
    requires IsLabel(text)
    ensures |text| == 4 ==> text == text[..4]
    ensures |text| == 7 ==> text == text[..4] + "-" + text[5..7]
    ensures |text| == 10 ==> text == text[..4] + "-" + text[5..7] + "-" + text[8..]
  {
  }

  /** The numbers that the script reads from a label. */
  function LabelNumbers(text: string): seq<nat>
    requires IsLabel(text)
  {
    var year := Number(text[..4]);
    if |text| == 4 then [year]
    else if |text| == 7 then [year, Number(text[5..7])]
    else [year, Number(text[5..7]), Number(text[8..])]
  }

  lemma LabelRead(text: string)
    requires IsLabel(text)
    ensures ReadInts(Split(text, '-')) == Some(LabelNumbers(text))
  {
    hide ReadInts;
    hide Split;
    hide Number;
    LabelParts(text);
    var a := text[..4];
    if |text| == 4 {
      ReadIntsOf(a, a, a);
    } else if |text| == 7 {
      ReadIntsOf(a, text[5..7], text[5..7]);
    } else {
      ReadIntsOf(a, text[5..7], text[8..]);
    }
  }

  /** For every label that the consumer reads as a period, the script gives that same period, character for character. */
  lemma LabelsAreConvertedAlike(text: string)
    requires PeriodFromReportingPeriod(text, 0).Ok?
    ensures ConvertLabel(text) == Converted(PeriodFromReportingPeriod(text, 0).value)
  {
    hide Bound;
    hide MidnightOf;
    hide PeriodFromReportingPeriod;
    hide ReadInts;
    hide Split;
    hide IsLeapYear;
    AcceptedLabel(text);
    YearZeroHasNoPeriod(text);
    LabelRead(text);
    PeriodOfLabel(text);
    MidnightOfDate(LabelDate(text));
    MidnightOfDate(AfterLabel(text));
  }

  lemma DateIsMidnight(date: string)
    requires IsFullDate(date) && IsDate(LabelDate(date))
    ensures date + "T00:00:00Z" == Bound(LabelDate(date), 0)
  {
    hide IsDate;
    hide Bound;
    FirstInstantOfLabel(date);
    LabelParts(date);
  }

  lemma DateTextIsMidnight(d: Date)
    requires IsDate(d) && 0 <= d.year <= 9999
    ensures DateText(d) + "T00:00:00Z" == Bound(d, 0)
  {
    hide IsLeapYear;
    var month, day := Pad(d.month, 2), Pad(d.day, 2);
    assert DateText(d) + "T00:00:00Z" == Pad(d.year, 4) + Layout(month, day, "00", "00", "00", "Z");
  }

  lemma FullDateReads(takesRest: string -> bool, date: string)
    requires IsFullDate(date) && IsDate(LabelDate(date)) && LabelDate(date).year >= 1
    ensures FromIsoFormat(takesRest, date) == Some(LabelDate(date))
  {
    hide IsDate;
    hide WeekForm;
    DateTextOfLabel(date);
  }

  /** For every ordered pair of real full-dates that the consumer reads, the script gives the same period. */
  lemma DatesAreConvertedAlike(takesRest: string -> bool, start: string, end: string)
    requires PeriodFromFullDates(start, end, 0).Ok?
    ensures ConvertDates(takesRest, start, end) == Converted(PeriodFromFullDates(start, end, 0).value)
  {
    hide IsLeapYear;
    hide Bound;
    hide DayPeriod;
    hide DateText;
    hide Parse;
    hide CompareDateTimes;
    hide FromDayNumber;
    hide FromIsoFormat;
    hide DayNumber;
    AcceptedDay(start);
    AcceptedDay(end);
    AcceptedDayPeriod(start);
    AcceptedDayPeriod(end);
    DateIsMidnight(start);
    FullDateReads(takesRest, end);
    NextDayIsSuccessor(LabelDate(end));
    DateTextIsMidnight(NextDay(LabelDate(end)));
  }

  // ---- The last date ----

  lemma TextOfLastDate()
    ensures IsFullDate("9999-12-31") && LabelDate("9999-12-31") == Date(9999, 12, 31) && DateText(Date(9999, 12, 31)) == "9999-12-31"
  {
    hide Pad;
    hide Number;
    NinesAndTwelves();
    var text := DateText(Date(9999, 12, 31));
    assert text == "9999-12-31";
    DateTextReadsBack(Date(9999, 12, 31));
  }

  lemma NinesAndTwelves()
    ensures Pad(9999, 4) == "9999" && Pad(12, 2) == "12" && Pad(31, 2) == "31"
  {
    assert Pad(99, 2) == "99" && Pad(999, 3) == "999";
  }

  /** The conversion of a date pair raises what it does not catch exactly where the end reads as the last date there is. */
  lemma CrashesIffLastDate(takesRest: string -> bool, start: string, end: string)
    ensures ConvertDates(takesRest, start, end) == Crashed <==> |start| == 10 && SpellsLastDate(takesRest, end)
    ensures SpellsLastDate(takesRest, "9999-12-31") && SpellsLastDate(takesRest, "9999-W52-5")
  {
    hide FromIsoFormat;
    hide FromDayNumber;
    hide DayNumber;
    hide DateText;
    ReadAsLastDateIff(takesRest, end);
  }

  lemma YearTenThousand()
    ensures Zeroed(10_000, 4) == "10000" && Zeroed(1, 2) == "01"
  {
    PowersOfTen();
    assert Decimal(1) == "1" && Decimal(10) == "10" && Decimal(100) == "100" && Decimal(1_000) == "1000";
  }

  /** The last day of a December, as the script rolls it over. */
  lemma YearEndLabel(text: string)
    requires IsFullDate(text) && LabelDate(text).month == 12 && LabelDate(text).day == 31
    ensures var year := LabelDate(text).year;
      0 <= year && ConvertLabel(text) == Converted(Period(MidnightOf(year, 12, 31), MidnightOf(year + 1, 1, 1)))
  {
    hide Number;
    hide ReadInts;
    hide Split;
    hide MidnightOf;
    LabelRead(text);
  }

  /** The label of that date is converted, to a period whose end no date-time can write; the consumer refuses the label. */
  lemma LastLabelIsConverted()
    ensures ConvertLabel("9999-12-31") == Converted(Period("9999-12-31T00:00:00Z", "10000-01-01T00:00:00Z"))
    ensures PeriodFromReportingPeriod("9999-12-31", 0).Err?
  {
    hide Number;
    hide ConvertLabel;
    hide Zeroed;
    hide PeriodFromReportingPeriod;
    hide IsFullDate;
    hide DateText;
    TextOfLastDate();
    YearEndLabel("9999-12-31");
    PeriodOfLabel("9999-12-31");
    YearTenThousand();
    ZeroedLastDate();
  }

  lemma ZeroedLastDate()
    ensures Zeroed(9999, 4) == "9999" && Zeroed(12, 2) == "12" && Zeroed(31, 2) == "31"
  {
    hide Pad;
    PowersOfTen();
    NinesAndTwelves();
  }
}
