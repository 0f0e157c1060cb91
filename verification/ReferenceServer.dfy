/**
 * The reference servers `security.js` and `security.php`: their own reading of a
 * date-time and their own test for a whole calendar day, month or year, compared with
 * the consumer's `period.ts`.
 */
module ReferenceServer {
  import opened Calendar
  import opened DateTimes
  import opened Digits
  import opened Periods
  import opened Wrappers

  /** The day number of 1970-01-01, from which the servers count seconds. */
  const EPOCH_DAY := 719528

  // ---- Reading a date-time ----

  /** A moment as the servers hold it: whole seconds, nine digits of fraction, and the date as written. */
  datatype Moment = Moment(seconds: int, fraction: string, date: Date, midnight: bool)

  function TailOf(value: string): string
    requires HasDateTimeForm(value)
  {
    value[19..]
  }

  function ZoneOf(value: string): string
    requires HasDateTimeForm(value)
    ensures ZoneForm(ZoneOf(value))
  {
    var tail := TailOf(value);
    assert value[4..][15..] == tail;
    tail[|tail| - ZoneLength(tail)..]
  }

  function FractionOf(value: string): string
    requires HasDateTimeForm(value)
    ensures FractionForm(FractionOf(value))
  {
    var tail := TailOf(value);
    assert value[4..][15..] == tail;
    tail[..|tail| - ZoneLength(tail)]
  }

  function FieldOf(value: string, from: nat): (n: nat)
    requires HasDateTimeForm(value) && from in {5, 8, 11, 14, 17}
  {
    var rest := value[4..];
    assert value[from..from + 2] == rest[from - 4..from - 2];
    Number(value[from..from + 2])
  }

  function YearOfValue(value: string): nat
    requires HasDateTimeForm(value)
  {
    Number(value[..4])
  }

  /** Nine digits of fraction: zeros are added, digits past the ninth are dropped. */
  function NineDigits(fraction: string): (digits: string)
    requires FractionForm(fraction)
    ensures |digits| == 9 && IsDigits(digits)
  {
    PadRight(if fraction == "" then "" else fraction[1..], 9)[..9]
  }

  predicate AllZeros(digits: string) {
    forall i :: 0 <= i < |digits| ==> digits[i] == '0'
  }

  /** The day of a year, month counted from 0 and day, each of which may run over: the arithmetic of `Date`. */
  function MakeDay(year: int, month0: int, day: int): int {
    var y, m := year + month0 / 12, month0 % 12 + 1;
    DaysBeforeYear(y) + DaysBeforeMonth(y, m) + day - 1
  }

  /** Real when the date that comes of setting the fields still shows the month and the day that were set. */
  function JsFields(date: Date, hour: int, minute: int, written: int, digits: string, zone: Option<int>): Option<Moment> {
    var second := if written < 59 then written else 59;
    var ofDay := 3600 * hour + 60 * minute + second;
    var day := MakeDay(date.year, date.month - 1, date.day);
    var shown := FromDayNumber(day + ofDay / SECONDS_PER_DAY);
    if shown.month != date.month || shown.day != date.day || hour > 23 || minute > 59 || written > 60 || zone.None? then None
    else Some(Moment(SECONDS_PER_DAY * (day - EPOCH_DAY) + ofDay - 60 * zone.value, digits, date,
                     hour == 0 && minute == 0 && written == 0 && AllZeros(digits)))
  }

  function JsParse(value: string): Option<Moment> {
    if !HasDateTimeForm(value) then None
    else JsFields(Date(YearOfValue(value), FieldOf(value, 5), FieldOf(value, 8)), FieldOf(value, 11), FieldOf(value, 14),
                  FieldOf(value, 17), NineDigits(FractionOf(value)), ReadZone(ZoneOf(value)))
  }

  /** The moment on the scale of `DateTimes`. */
  function MomentInstant(m: Moment): int
    requires IsDigits(m.fraction)
  {
    NANOS_PER_SECOND * (m.seconds + SECONDS_PER_DAY * EPOCH_DAY) + Number(m.fraction)
  }

  lemma FieldsOfParse(value: string)
    requires HasDateTimeForm(value)
    ensures Parse(value) ==
      ReadFields(Date(YearOfValue(value), FieldOf(value, 5), FieldOf(value, 8)), FieldOf(value, 11), FieldOf(value, 14),
                 FieldOf(value, 17), ReadFraction(FractionOf(value)), ReadZone(ZoneOf(value)))
  {
    hide ReadFields;
    hide ReadZone;
    hide ReadFraction;
    var rest := value[4..];
    assert value[5..7] == rest[1..3] && value[8..10] == rest[4..6];
    assert value[11..13] == rest[7..9] && value[14..16] == rest[10..12] && value[17..19] == rest[13..15];
    assert rest[15..] == TailOf(value);
  }

  lemma SliceOfRest(value: string, from: nat)
    requires |value| >= 4 && 4 <= from && from + 2 <= |value|
    ensures value[from..from + 2] == value[4..][from - 4..from - 2]
  {
    var a, b := value[from..from + 2], value[4..][from - 4..from - 2];
    assert a[0] == b[0] && a[1] == b[1];
  }

  lemma TwoDigitBound(value: string, from: nat)
    requires HasDateTimeForm(value) && from in {5, 8, 11, 14, 17}
    ensures FieldOf(value, from) < 100
  {
    SliceOfRest(value, from);
    PowersOfTen();
    PadOfNumber(value[from..from + 2]);
  }

  /** The date shown is the one set exactly when the numbers name a date. */
  lemma ShownIffReal(year: int, month: int, day: int)
    requires 0 <= month < 100 && 0 <= day < 100
    ensures var shown := FromDayNumber(MakeDay(year, month - 1, day));
      shown.month == month && shown.day == day <==> IsDate(Date(year, month, day))
  {
    var d := Date(year, month, day);
    if 1 <= month <= 12 {
      assert (month - 1) / 12 == 0 && (month - 1) % 12 == month - 1;
      assert MakeDay(year, month - 1, day) == DayNumber(d);
      if IsDate(d) {
        FromDayNumberInverse(d);
      } else {
        RunOverShows(year, month, day);
      }
    }
  }

  lemma RunOverShows(year: int, month: int, day: int)
    requires 1 <= month <= 12 && 0 <= day < 100 && !IsDate(Date(year, month, day))
    ensures var shown := FromDayNumber(DayNumber(Date(year, month, day))); shown.month != month || shown.day != day
  {
    hide DaysBeforeYear;
    hide FromDayNumber;
    var shown := FromDayNumber(DayNumber(Date(year, month, day)));
    var first := Date(year, month, 1);
    if shown.month == month && shown.day == day {
      var there := Date(shown.year, month, 1);
      assert DayNumber(shown) - DayNumber(there) == DayNumber(Date(year, month, day)) - DayNumber(first);
      DayNumberOrder(there, first);
    }
  }

  lemma NineDigitsRead(fraction: string)
    requires FractionForm(fraction) && ReadFraction(fraction).Some?
    ensures Number(NineDigits(fraction)) == ReadFraction(fraction).value
  {
    if fraction == "" {
      ZerosNameZero("", 9);
      assert NineDigits(fraction) == PadRight("", 9);
    } else {
      assert NineDigits(fraction) == PadRight(fraction[1..], 9);
    }
  }

  lemma {:induction false} ZeroIffAllZeros(digits: string)
    requires IsDigits(digits)
    ensures Number(digits) == 0 <==> AllZeros(digits)
  {
    if digits != "" {
      ZeroIffAllZeros(digits[..|digits| - 1]);
      assert digits == digits[..|digits| - 1] + [digits[|digits| - 1]];
    }
  }

  lemma MakeDayOfDate(d: Date)
    requires IsDate(d)
    ensures MakeDay(d.year, d.month - 1, d.day) == DayNumber(d)
  {
    assert (d.month - 1) / 12 == 0 && (d.month - 1) % 12 == d.month - 1;
  }

  lemma FieldsAreRealAlike(date: Date, hour: nat, minute: nat, written: nat, digits: string, nano: int, zone: Option<int>)
    requires 0 <= date.month < 100 && 0 <= date.day < 100
    ensures JsFields(date, hour, minute, written, digits, zone).Some? <==>
            ReadFields(date, hour, minute, written, Some(nano), zone).Ok?
  {
    hide MakeDay;
    hide FromDayNumber;
    hide IsDate;
    if hour <= 23 && minute <= 59 && written <= 60 {
      var second := if written < 59 then written else 59;
      assert (3600 * hour + 60 * minute + second) / SECONDS_PER_DAY == 0;
      ShownIffReal(date.year, date.month, date.day);
    }
  }

  lemma FieldsAgree(date: Date, hour: nat, minute: nat, written: nat, digits: string, nano: int, zone: Option<int>)
    requires 0 <= date.month < 100 && 0 <= date.day < 100
    requires IsDigits(digits) && Number(digits) == nano
    requires ReadFields(date, hour, minute, written, Some(nano), zone).Ok?
    ensures JsFields(date, hour, minute, written, digits, zone).Some?
    ensures var m, d := JsFields(date, hour, minute, written, digits, zone).value,
                        ReadFields(date, hour, minute, written, Some(nano), zone).value;
      m.fraction == digits && MomentInstant(m) == InstantOf(d) && m.date == d.date && m.midnight == IsMidnight(d)
  {
    hide MakeDay;
    hide FromDayNumber;
    hide DayNumber;
    FieldsAreRealAlike(date, hour, minute, written, digits, nano, zone);
    MakeDayOfDate(date);
    ZeroIffAllZeros(digits);
  }

  /**
   * The consumer accepts exactly what the server accepts with no more than nine digits of fraction; further
   * digits the server drops and the consumer refuses.
   */
  lemma ConsumerAcceptsIff(value: string)
    ensures IsDateTime(value) <==> JsParse(value).Some? && |FractionOf(value)| <= 10
  {
    hide JsFields;
    hide ReadFields;
    hide NineDigits;
    hide HasDateTimeForm;
    hide ReadZone;
    hide FieldOf;
    hide FractionOf;
    hide ZoneOf;
    hide Parse;
    if HasDateTimeForm(value) {
      FieldsOfParse(value);
      TwoDigitBound(value, 5);
      TwoDigitBound(value, 8);
      var nano := ReadFraction(FractionOf(value));
      FieldsAreRealAlike(Date(YearOfValue(value), FieldOf(value, 5), FieldOf(value, 8)), FieldOf(value, 11), FieldOf(value, 14),
                         FieldOf(value, 17), NineDigits(FractionOf(value)), nano.GetOr(0), ReadZone(ZoneOf(value)));
      if nano.None? {
        NoFractionNoDateTime(Date(YearOfValue(value), FieldOf(value, 5), FieldOf(value, 8)), FieldOf(value, 11),
                             FieldOf(value, 14), FieldOf(value, 17), ReadZone(ZoneOf(value)));
      }
    } else {
      FormIsNeeded(value);
    }
  }

  lemma NoFractionNoDateTime(date: Date, hour: int, minute: int, second: int, zone: Option<int>)
    ensures ReadFields(date, hour, minute, second, None, zone).Err?
  {
  }

  lemma FormIsNeeded(value: string)
    requires !HasDateTimeForm(value)
    ensures !IsDateTime(value)
  {
  }

  /** What both accept, both read as the same instant, the same date and the same midnight. */
  lemma ServerReadsAsConsumer(value: string)
    requires IsDateTime(value)
    ensures JsParse(value).Some?
    ensures var m, d := JsParse(value).value, Parse(value).value;
      && |m.fraction| == 9 && IsDigits(m.fraction)
      && MomentInstant(m) == Instant(value) && m.date == d.date && m.midnight == IsMidnight(d)
  {
    hide JsFields;
    hide ReadFields;
    hide NineDigits;
    hide ReadZone;
    hide FieldOf;
    hide FractionOf;
    hide ZoneOf;
    hide InstantOf;
    hide MomentInstant;
    hide IsMidnight;
    hide Parse;
    FormOfDateTime(value);
    FieldsOfParse(value);
    TwoDigitBound(value, 5);
    TwoDigitBound(value, 8);
    var nano := ReadFraction(FractionOf(value));
    if nano.None? {
      NoFractionNoDateTime(Date(YearOfValue(value), FieldOf(value, 5), FieldOf(value, 8)), FieldOf(value, 11),
                           FieldOf(value, 14), FieldOf(value, 17), ReadZone(ZoneOf(value)));
    }
    NineDigitsRead(FractionOf(value));
    FieldsAgree(Date(YearOfValue(value), FieldOf(value, 5), FieldOf(value, 8)), FieldOf(value, 11), FieldOf(value, 14),
                FieldOf(value, 17), NineDigits(FractionOf(value)), nano.value, ReadZone(ZoneOf(value)));
  }

  lemma FormOfDateTime(value: string)
    requires IsDateTime(value)
    ensures HasDateTimeForm(value)
  {
  }
}
