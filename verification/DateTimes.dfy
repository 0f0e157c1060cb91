/**
 * The date-times of `period.ts`: the grammar of section 5.6 of RFC 3339 with upper
 * case `T` and `Z`, the instant each one names, and the UTC form of an instant.
 * An instant is a number of nanoseconds counted from 0000-01-01T00:00:00Z.
 */
module DateTimes {
  import opened Calendar
  import opened Digits
  import opened Wrappers

  const NANOS_PER_SECOND := 1_000_000_000
  const SECONDS_PER_DAY := 86400

  /** A bound in the offset it is written in; second 60 is held as 59. */
  datatype DateTime = DateTime(date: Date, hour: int, minute: int, second: int, nano: int, offset: int)

  datatype DateTimeError = BadForm | BadValue

  // ---- The grammar ----

  function ZoneLength(tail: string): nat {
    if tail != "" && tail[|tail| - 1] == 'Z' then 1 else 6
  }

  predicate ZoneForm(zone: string) {
    || zone == "Z"
    || (|zone| == 6 && (zone[0] == '+' || zone[0] == '-') && IsDigits(zone[1..3]) && zone[3] == ':' && IsDigits(zone[4..6]))
  }

  predicate FractionForm(fraction: string) {
    fraction == "" || (|fraction| >= 2 && fraction[0] == '.' && IsDigits(fraction[1..]))
  }

  /** An optional fraction, then `Z` or a numeric offset. */
  predicate TailForm(tail: string) {
    var zone := ZoneLength(tail);
    zone <= |tail| && ZoneForm(tail[|tail| - zone..]) && FractionForm(tail[..|tail| - zone])
  }

  /** What follows the year: `-MM-DDTHH:MM:SS` and the tail. */
  predicate RestForm(rest: string) {
    && |rest| >= 15
    && rest[0] == '-' && IsDigits(rest[1..3])
    && rest[3] == '-' && IsDigits(rest[4..6])
    && rest[6] == 'T' && IsDigits(rest[7..9])
    && rest[9] == ':' && IsDigits(rest[10..12])
    && rest[12] == ':' && IsDigits(rest[13..15])
    && TailForm(rest[15..])
  }

  predicate HasDateTimeForm(value: string) {
    |value| >= 4 && IsDigits(value[..4]) && RestForm(value[4..])
  }

  predicate HasUtcForm(value: string) {
    HasDateTimeForm(value) && value[|value| - 1] == 'Z'
  }

  // ---- Reading ----

  /** The zone's minutes east of UTC; none when it is not a real offset. */
  function ReadZone(zone: string): Option<int>
    requires ZoneForm(zone)
  {
    if zone == "Z" then Some(0) else
    var hours, minutes := Number(zone[1..3]), Number(zone[4..6]);
    if hours > 23 || minutes > 59 then None
    else Some((if zone[0] == '-' then -1 else 1) * (60 * hours + minutes))
  }

  /** The nanoseconds of a fraction; none past the nine digits an instant holds. */
  function ReadFraction(fraction: string): Option<int>
    requires FractionForm(fraction)
  {
    if fraction == "" then Some(0)
    else if |fraction| > 10 then None
    else Some(Number(PadRight(fraction[1..], 9)))
  }

  /** The date-time of its numbers, when it is a real date, time and offset. */
  function ReadFields(date: Date, hour: int, minute: int, second: int, nano: Option<int>, zone: Option<int>):
    Result<DateTime, DateTimeError>
  {
    if zone.None? || nano.None? || !IsDate(date) || hour > 23 || minute > 59 || second > 60 then
      Err(BadValue)
    else
      Ok(DateTime(date, hour, minute, if second == 60 then 59 else second, nano.value, zone.value))
  }

  function ReadRest(year: int, rest: string): Result<DateTime, DateTimeError>
    requires RestForm(rest)
  {
    var tail := rest[15..];
    ReadFields(Date(year, Number(rest[1..3]), Number(rest[4..6])),
               Number(rest[7..9]), Number(rest[10..12]), Number(rest[13..15]),
               ReadFraction(tail[..|tail| - ZoneLength(tail)]),
               ReadZone(tail[|tail| - ZoneLength(tail)..]))
  }

  function Parse(value: string): Result<DateTime, DateTimeError> {
    if !HasDateTimeForm(value) then Err(BadForm) else ReadRest(Number(value[..4]), value[4..])
  }

  predicate IsDateTime(value: string) {
    Parse(value).Ok?
  }

  /** Whether the seconds are written `60`, which is read as 59. */
  predicate HasLeapSecond(value: string) {
    |value| >= 19 && value[17..19] == "60"
  }

  predicate IsUtcDateTime(value: string) {
    IsDateTime(value) && HasUtcForm(value) && !HasLeapSecond(value)
  }

  function InstantOf(d: DateTime): int {
    NANOS_PER_SECOND * (SECONDS_PER_DAY * DayNumber(d.date) + 3600 * d.hour + 60 * d.minute + d.second - 60 * d.offset) + d.nano
  }

  function Instant(value: string): int
    requires IsDateTime(value)
  {
    InstantOf(Parse(value).value)
  }

  function CompareDateTimes(a: string, b: string): int
    requires IsDateTime(a) && IsDateTime(b)
  {
    if Instant(a) < Instant(b) then -1 else if Instant(a) > Instant(b) then 1 else 0
  }

  // ---- Writing ----

  /** Four digits, or a sign and six for a year outside 0000 to 9999. */
  function YearText(year: int): string {
    if 0 <= year <= 9999 then Pad(year, 4)
    else if year < 0 then "-" + Pad(-year, 6)
    else "+" + Pad(year, 6)
  }

  function FractionText(nano: nat): string {
    var digits := TrimZeros(Pad(nano, 9));
    if digits == "" then "" else "." + digits
  }

  /** A date-time of the Gregorian calendar in UTC, every field in its range. */
  predicate IsUtcFields(d: DateTime) {
    && IsDate(d.date) && 0 <= d.hour <= 23 && 0 <= d.minute <= 59 && 0 <= d.second <= 59
    && 0 <= d.nano < NANOS_PER_SECOND && d.offset == 0
  }

  /** A UTC date-time without its year. */
  function RestOf(d: DateTime): string
    requires IsUtcFields(d)
  {
    Layout(Pad(d.date.month, 2), Pad(d.date.day, 2), Pad(d.hour, 2), Pad(d.minute, 2), Pad(d.second, 2),
           FractionText(d.nano) + "Z")
  }

  /** The fixed places of everything after the year. */
  function Layout(month: string, day: string, hour: string, minute: string, second: string, tail: string): string {
    "-" + month + "-" + day + "T" + hour + ":" + minute + ":" + second + tail
  }

  lemma SplitOfDay(ofDay: int)
    requires 0 <= ofDay < SECONDS_PER_DAY
    ensures 0 <= ofDay / 3600 <= 23 && 0 <= ofDay % 3600 / 60 <= 59
    ensures ofDay == 3600 * (ofDay / 3600) + 60 * (ofDay % 3600 / 60) + ofDay % 60
  {
  }

  /** The UTC date and time of an instant. */
  function UtcFields(instant: int): (d: DateTime)
    ensures IsUtcFields(d) && InstantOf(d) == instant
  {
    var seconds, nano := instant / NANOS_PER_SECOND, instant % NANOS_PER_SECOND;
    var days, ofDay := seconds / SECONDS_PER_DAY, seconds % SECONDS_PER_DAY;
    SplitOfDay(ofDay);
    DateTime(FromDayNumber(days), ofDay / 3600, ofDay % 3600 / 60, ofDay % 60, nano, 0)
  }

  function Format(d: DateTime): string
    requires IsUtcFields(d)
  {
    YearText(d.date.year) + RestOf(d)
  }

  /** The UTC text of an instant. */
  function FormatInstant(instant: int): string {
    Format(UtcFields(instant))
  }

  function ToUtcQueryValue(value: string): string
    requires IsDateTime(value)
  {
    FormatInstant(Instant(value))
  }

  /** The UTC year of an instant. */
  function UtcYear(instant: int): int {
    UtcFields(instant).date.year
  }

  // ---- Writing and reading are inverse ----

  lemma NumberOfTwoDigits(n: nat)
    requires n < 100
    ensures Number(Pad(n, 2)) == n
  {
    PowersOfTen();
    NumberOfPad(n, 2);
  }

  lemma FractionRoundTrip(nano: nat)
    requires nano < NANOS_PER_SECOND
    ensures FractionForm(FractionText(nano))
    ensures ReadFraction(FractionText(nano)) == Some(nano)
  {
    var digits := TrimZeros(Pad(nano, 9));
    PadRightOfTrim(Pad(nano, 9));
    PowersOfTen();
    NumberOfPad(nano, 9);
    if digits != "" {
      assert FractionText(nano)[1..] == digits;
    } else {
      assert PadRight("", 9) == Pad(nano, 9);
      ZerosNameZero("", 9);
    }
  }

  lemma {:induction false} ZerosNameZero(s: string, width: nat)
    requires IsDigits(s) && Number(s) == 0
    ensures IsDigits(PadRight(s, width)) && Number(PadRight(s, width)) == 0
    decreases width - |s|
  {
    if |s| < width {
      assert (s + "0")[..|s|] == s;
      ZerosNameZero(s + "0", width);
    }
  }

  lemma LayoutPlaces(month: string, day: string, hour: string, minute: string, second: string, tail: string)
    requires |month| == |day| == |hour| == |minute| == |second| == 2
    ensures var rest := Layout(month, day, hour, minute, second, tail);
      && |rest| == 15 + |tail|
      && rest[0] == '-' && rest[3] == '-' && rest[6] == 'T' && rest[9] == ':' && rest[12] == ':'
      && rest[1..3] == month && rest[4..6] == day
      && rest[7..9] == hour && rest[10..12] == minute && rest[13..15] == second && rest[15..] == tail
      && (tail != "" ==> rest[|rest| - 1] == tail[|tail| - 1])
  {
  }

  lemma TailParts(fraction: string, zone: string)
    requires ZoneForm(zone)
    ensures var tail := fraction + zone;
      && ZoneLength(tail) == |zone| && tail[|tail| - |zone|..] == zone && tail[..|tail| - |zone|] == fraction
  {
  }

  lemma ReadLayout(year: int, month: string, day: string, hour: string, minute: string, second: string,
                   fraction: string, zone: string)
    requires |month| == |day| == |hour| == |minute| == |second| == 2
    requires IsDigits(month) && IsDigits(day) && IsDigits(hour) && IsDigits(minute) && IsDigits(second)
    requires FractionForm(fraction) && ZoneForm(zone)
    ensures var rest := Layout(month, day, hour, minute, second, fraction + zone);
      && RestForm(rest)
      && ReadRest(year, rest) == ReadFields(Date(year, Number(month), Number(day)), Number(hour), Number(minute), Number(second),
                                            ReadFraction(fraction), ReadZone(zone))
      && rest[13..15] == second && rest[|rest| - 1] == zone[|zone| - 1]
  {
    LayoutPlaces(month, day, hour, minute, second, fraction + zone);
    TailParts(fraction, zone);
  }

  lemma SixtyIsNotASecond(second: string)
    requires IsDigits(second) && Number(second) <= 59
    ensures second != "60"
  {
    assert "60"[..1] == "6" && Number("6") == 6;
    assert Number("60") == 60;
  }

  /** The layout of five two-digit numbers reads back as them. */
  lemma ReadNumbers(d: DateTime, month: string, day: string, hour: string, minute: string, second: string, fraction: string)
    requires IsUtcFields(d) && FractionForm(fraction) && ReadFraction(fraction) == Some(d.nano)
    requires |month| == |day| == |hour| == |minute| == |second| == 2
    requires IsDigits(month) && IsDigits(day) && IsDigits(hour) && IsDigits(minute) && IsDigits(second)
    requires Number(month) == d.date.month && Number(day) == d.date.day
    requires Number(hour) == d.hour && Number(minute) == d.minute && Number(second) == d.second
    ensures var rest := Layout(month, day, hour, minute, second, fraction + "Z");
      RestForm(rest) && ReadRest(d.date.year, rest) == Ok(d) && rest[|rest| - 1] == 'Z' && rest[13..15] != "60"
  {
    SixtyIsNotASecond(second);
    assert ReadFields(d.date, d.hour, d.minute, d.second, Some(d.nano), Some(0)) == Ok(d);
    ReadLayout(d.date.year, month, day, hour, minute, second, fraction, "Z");
  }

  lemma RestRoundTrip(d: DateTime)
    requires IsUtcFields(d)
    ensures RestForm(RestOf(d)) && ReadRest(d.date.year, RestOf(d)) == Ok(d)
    ensures RestOf(d)[|RestOf(d)| - 1] == 'Z' && RestOf(d)[13..15] != "60"
  {
    FractionRoundTrip(d.nano);
    NumberOfTwoDigits(d.date.month);
    NumberOfTwoDigits(d.date.day);
    NumberOfTwoDigits(d.hour);
    NumberOfTwoDigits(d.minute);
    NumberOfTwoDigits(d.second);
    ReadNumbers(d, Pad(d.date.month, 2), Pad(d.date.day, 2), Pad(d.hour, 2), Pad(d.minute, 2), Pad(d.second, 2),
                FractionText(d.nano));
  }

  lemma NumberOfYear(year: nat, width: nat)
    requires (width == 4 && year <= 9999) || (width == 6 && year <= 999_999)
    ensures Number(Pad(year, width)) == year
  {
    PowersOfTen();
    NumberOfPad(year, width);
  }

  lemma ReadFourDigitYear(year: nat, rest: string)
    requires year <= 9999 && RestForm(rest)
    ensures var text := Pad(year, 4) + rest;
      && HasDateTimeForm(text) && text[|text| - 1] == rest[|rest| - 1] && Parse(text) == ReadRest(year, rest) && text[17..19] == rest[13..15]
  {
    NumberOfYear(year, 4);
    var text := Pad(year, 4) + rest;
    assert text[..4] == Pad(year, 4) && text[4..] == rest;
  }

  lemma UtcFormOf(d: DateTime)
    requires IsUtcFields(d) && 0 <= d.date.year <= 9999
    ensures IsUtcDateTime(Format(d)) && Parse(Format(d)) == Ok(d)
  {
    hide IsUtcFields;
    hide RestOf;
    hide RestForm;
    hide ReadRest;
    hide HasDateTimeForm;
    hide Parse;
    RestRoundTrip(d);
    ReadFourDigitYear(d.date.year, RestOf(d));
  }

  /** The UTC form of an instant in years 0000 to 9999 is a `utc-date-time` that reads back as that instant. */
  lemma UtcFormReadsBack(instant: int)
    requires 0 <= UtcYear(instant) <= 9999
    ensures IsUtcDateTime(FormatInstant(instant))
    ensures Parse(FormatInstant(instant)) == Ok(UtcFields(instant))
    ensures Instant(FormatInstant(instant)) == instant
  {
    hide UtcFields;
    hide Format;
    hide Parse;
    hide IsUtcDateTime;
    UtcFormOf(UtcFields(instant));
  }

  /** Outside those years the sign of the year makes it a value the wire cannot carry. */
  lemma ExpandedYearHasNoForm(instant: int)
    requires !(0 <= UtcYear(instant) <= 9999)
    ensures !HasDateTimeForm(FormatInstant(instant))
  {
    var text := FormatInstant(instant);
    assert text[0] == '-' || text[0] == '+';
    if |text| >= 4 {
      assert text[..4][0] == text[0];
    }
  }

  /** The UTC date and time that a UTC form, in four or in six digits of year, was written from. */
  ghost function ReadBack(text: string): Result<DateTime, DateTimeError> {
    if |text| >= 7 && (text[0] == '+' || text[0] == '-') && IsDigits(text[1..7]) && RestForm(text[7..]) then
      ReadRest(Signed(text[0], Number(text[1..7])), text[7..])
    else Parse(text)
  }

  function Signed(sign: char, n: int): int {
    if sign == '-' then -n else n
  }

  lemma ReadSixDigitYear(sign: char, year: nat, rest: string)
    requires (sign == '-' || sign == '+') && year <= 999_999 && RestForm(rest)
    ensures ReadBack([sign] + Pad(year, 6) + rest) == ReadRest(Signed(sign, year), rest)
  {
    NumberOfYear(year, 6);
    var text := [sign] + Pad(year, 6) + rest;
    assert text[1..7] == Pad(year, 6) && text[7..] == rest;
  }

  lemma FormatReadsBack(instant: int)
    requires -999_999 <= UtcYear(instant) <= 999_999
    ensures ReadBack(FormatInstant(instant)) == Ok(UtcFields(instant))
  {
    hide UtcFields;
    hide IsDate;
    hide Parse;
    hide HasDateTimeForm;
    hide RestOf;
    var d := UtcFields(instant);
    if 0 <= d.date.year <= 9999 {
      UtcFormReadsBack(instant);
      assert IsDigit(FormatInstant(instant)[..4][0]);
    } else {
      RestRoundTrip(d);
      ReadSixDigitYear(if d.date.year < 0 then '-' else '+', if d.date.year < 0 then -d.date.year else d.date.year, RestOf(d));
    }
  }

  lemma FormatInjective(a: int, b: int)
    requires -999_999 <= UtcYear(a) <= 999_999 && -999_999 <= UtcYear(b) <= 999_999
    requires FormatInstant(a) == FormatInstant(b)
    ensures a == b
  {
    FormatReadsBack(a);
    FormatReadsBack(b);
    assert InstantOf(UtcFields(a)) == InstantOf(UtcFields(b));
  }

  lemma YearWithin(n: int, low: int, high: int)
    requires DaysBeforeYear(low) <= n < DaysBeforeYear(high)
    ensures low <= YearOf(n) < high
  {
    var year := YearOf(n);
    if year < low {
      YearsAscend(year + 1, low);
    } else if high <= year {
      YearsAscend(high, year);
    }
  }

  lemma YearOfDate(n: int)
    ensures FromDayNumber(n).year == YearOf(n)
  {
  }

  /** An offset moves a date-time by less than a day, so its UTC year is its own or a neighbour. */
  lemma UtcYearOfDateTime(value: string)
    requires IsDateTime(value)
    ensures var year := Parse(value).value.date.year;
      0 <= year <= 9999 && year - 1 <= UtcYear(Instant(value)) <= year + 1
  {
    hide DaysBeforeYear;
    hide DaysBeforeMonth;
    var d := Parse(value).value;
    var year := d.date.year;
    ParsedFields(value);
    InsideYear(d.date);
    YearLength(year - 1);
    YearLength(year + 1);
    var seconds := SECONDS_PER_DAY * DayNumber(d.date) + 3600 * d.hour + 60 * d.minute + d.second - 60 * d.offset;
    assert Instant(value) / NANOS_PER_SECOND == seconds;
    var days := seconds / SECONDS_PER_DAY;
    assert DayNumber(d.date) - 1 <= days <= DayNumber(d.date) + 1;
    YearOfDate(days);
    YearWithin(days, year - 1, year + 2);
  }

  lemma ParsedFields(value: string)
    requires IsDateTime(value)
    ensures var d := Parse(value).value;
      && IsDate(d.date) && 0 <= d.date.year <= 9999
      && 0 <= d.hour <= 23 && 0 <= d.minute <= 59 && 0 <= d.second <= 59
      && 0 <= d.nano < NANOS_PER_SECOND && -1439 <= d.offset <= 1439
  {
    var rest := value[4..];
    var tail := rest[15..];
    PowersOfTen();
    PadOfNumber(value[..4]);
    ZoneBounds(tail[|tail| - ZoneLength(tail)..]);
    FractionBounds(tail[..|tail| - ZoneLength(tail)]);
  }

  lemma ZoneBounds(zone: string)
    requires ZoneForm(zone) && ReadZone(zone).Some?
    ensures -1439 <= ReadZone(zone).value <= 1439
  {
  }

  lemma FractionBounds(fraction: string)
    requires FractionForm(fraction) && ReadFraction(fraction).Some?
    ensures 0 <= ReadFraction(fraction).value < NANOS_PER_SECOND
  {
    PowersOfTen();
    if fraction != "" {
      PadOfNumber(PadRight(fraction[1..], 9));
    }
  }

  lemma SameTextSameInstant(a: string, b: string)
    requires IsDateTime(a) && IsDateTime(b) && ToUtcQueryValue(a) == ToUtcQueryValue(b)
    ensures Instant(a) == Instant(b)
  {
    UtcYearOfDateTime(a);
    UtcYearOfDateTime(b);
    FormatInjective(Instant(a), Instant(b));
  }

  /** A UTC date-time is the only one of its instant. */
  lemma UtcFieldsUnique(d: DateTime)
    requires IsUtcFields(d)
    ensures UtcFields(InstantOf(d)) == d
  {
    hide UtcFields;
    hide IsDate;
    hide DayNumber;
    var e := UtcFields(InstantOf(d));
    var mine, theirs := 3600 * d.hour + 60 * d.minute + d.second, 3600 * e.hour + 60 * e.minute + e.second;
    SplitUnique(SECONDS_PER_DAY * DayNumber(d.date) + mine, d.nano, SECONDS_PER_DAY * DayNumber(e.date) + theirs, e.nano);
    DayNumberOrder(d.date, e.date);
  }

  lemma SplitUnique(a: int, x: int, b: int, y: int)
    requires 0 <= x < NANOS_PER_SECOND && 0 <= y < NANOS_PER_SECOND
    requires NANOS_PER_SECOND * a + x == NANOS_PER_SECOND * b + y
    ensures a == b && x == y
  {
  }

  // ---- What `period.ts` promises of date-times ----

  /**
   * The query value of a date-time is a `utc-date-time` exactly when its instant lies in years 0000 to
   * 9999 of UTC, and then it names the same instant and is its own query value.
   */
  lemma QueryValueNamesTheInstant(value: string)
    requires IsDateTime(value)
    ensures var sent := ToUtcQueryValue(value);
      && (HasUtcForm(sent) <==> 0 <= UtcYear(Instant(value)) <= 9999)
      && (HasUtcForm(sent) ==>
            IsUtcDateTime(sent) && Instant(sent) == Instant(value) && ToUtcQueryValue(sent) == sent)
  {
    if 0 <= UtcYear(Instant(value)) <= 9999 {
      UtcFormReadsBack(Instant(value));
    } else {
      ExpandedYearHasNoForm(Instant(value));
    }
  }

  /** Two date-times print equally exactly when they are one instant, whatever their offsets and fractions. */
  lemma PrintEquallyIffSameInstant(a: string, b: string)
    requires IsDateTime(a) && IsDateTime(b)
    ensures ToUtcQueryValue(a) == ToUtcQueryValue(b) <==> CompareDateTimes(a, b) == 0
  {
    if ToUtcQueryValue(a) == ToUtcQueryValue(b) {
      SameTextSameInstant(a, b);
    } else {
      assert Instant(a) != Instant(b);
    }
  }
}
