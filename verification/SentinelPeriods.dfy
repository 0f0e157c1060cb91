/**
 * Which period the compatibility reading gives an object of an earlier form, told from the
 * members served: two full-dates, a label, or a label beside a fiscal year. Whatever names
 * no period in these ways is left as served.
 */
module SentinelPeriods {
  import opened Calendar
  import opened CalendarTiling
  import opened DateTimes
  import Digits
  import opened JsonRecords
  import opened JsonValues
  import opened Periods
  import opened Queries
  import opened Sentinel
  import opened SentinelProofs
  import opened Texts
  import opened Tokens
  import opened Wrappers

  // ---- What a member says ----

  /** The member is the string. */
  predicate Says(v: Option<Json>, s: string) {
    IsAscii(s) && v == Some(String(TextOf(s)))
  }

  lemma StringOfText(s: string)
    requires IsAscii(s)
    ensures StringOf(TextOf(s)) == Some(s)
  {
    var t := TextOf(s);
    assert forall i :: 0 <= i < |t| ==> t[i] == s[i] as int;
    assert StringOf(t).Some? && StringOf(t).value == s;
  }

  lemma TextOfString(t: Text)
    requires StringOf(t).Some?
    ensures TextOf(StringOf(t).value) == t
  {
    var s := StringOf(t).value;
    assert forall i :: 0 <= i < |t| ==> TextOf(s)[i] == s[i] as int == t[i];
  }

  lemma FullDateIsAscii(s: string)
    requires IsFullDate(s)
    ensures IsAscii(s)
  {
    forall i | 0 <= i < 10 ensures s[i] as int < 0x80 {
      if i < 4 {
        assert s[i] == s[..4][i];
      } else if 5 <= i < 7 {
        assert s[i] == s[5..7][i - 5];
      } else if i >= 8 {
        assert s[i] == s[8..][i - 8];
      }
    }
  }

  /** A full-date is found in a member exactly when the member is that string. */
  lemma FullDateInIff(v: Option<Json>, date: string)
    ensures FullDateIn(v) == Some(date) <==> IsFullDate(date) && Says(v, date)
  {
    hide IsFullDate;
    if IsFullDate(date) && Says(v, date) {
      StringOfText(date);
    }
    if FullDateIn(v) == Some(date) {
      FullDateIsAscii(date);
      TextOfString(v.value.s);
    }
  }

  // ---- Two full-dates ----

  /** Two real dates in order, from year 1 on, after the second of which there is a day that can be written. */
  predicate IsRange(first: Date, last: Date) {
    IsDate(first) && IsDate(last) && first.year >= 1 && (first == last || Before(first, last)) && NextDay(last).year <= 9999
  }

  /** The period from the midnight of one date to the midnight of another, both in UTC. */
  predicate IsFromTo(v: Option<Json>, from: Date, to: Date)
    requires IsDate(from) && IsDate(to)
  {
    && v.Some? && v.value.Object? && |v.value.members| == 2
    && Own(v.value.members, START) == Some(String(TextOf(Bound(from, 0))))
    && Own(v.value.members, END) == Some(String(TextOf(Bound(to, 0))))
  }

  lemma ValueIsFromTo(p: Periods.Period, from: Date, to: Date)
    requires IsDate(from) && IsDate(to) && p == Periods.Period(Bound(from, 0), Bound(to, 0))
    ensures IsFromTo(Some(PeriodValue(p)), from, to)
  {
    hide Bound;
    hide TextOf;
    NamesDiffer();
    var members := PeriodValue(p).members;
    assert members == [members[0]] + [members[1]];
    OwnOfCons(members[0], [members[1]], START);
    OwnOfCons(members[0], [members[1]], END);
    OwnOfCons(members[1], [], END);
  }

  lemma BoundsCompare(d: Date, e: Date)
    requires IsDate(d) && IsDate(e) && 0 <= d.year <= 9999 && 0 <= e.year <= 9999
    ensures IsDateTime(Bound(d, 0)) && IsDateTime(Bound(e, 0))
    ensures CompareDateTimes(Bound(d, 0), Bound(e, 0)) < 0 <==> DayNumber(d) < DayNumber(e)
  {
    hide Parse;
    hide DayNumber;
    hide Bound;
    BoundReadsBack(d, 0);
    BoundReadsBack(e, 0);
  }

  lemma RangeInOrder(d: Date, e: Date)
    requires IsDate(d) && IsDate(e) && 1 <= d.year <= 9999 && 1 <= e.year <= 9999 && IsDate(NextDay(e)) && NextDay(e).year <= 9999
    ensures var p := Periods.Period(Bound(d, 0), Bound(NextDay(e), 0));
      ParsePeriod(p) == if d == e || Before(d, e) then Ok(p) else Err(PeriodOrder)
  {
    hide Bound;
    hide DayNumber;
    hide Parse;
    hide CompareDateTimes;
    NextDayIsSuccessor(e);
    DayNumberOrder(d, e);
    DayNumberOrder(e, d);
    hide IsDate;
    NextYearIsLater(e);
    BoundsCompare(d, NextDay(e));
  }

  lemma NextYearIsLater(d: Date)
    ensures NextDay(d).year >= d.year
  {
    hide DaysInMonth;
  }

  lemma FullDatesIff(first: string, last: string)
    requires IsFullDate(first) && IsFullDate(last)
    ensures PeriodFromFullDates(first, last, 0).Ok? <==> IsRange(LabelDate(first), LabelDate(last))
    ensures IsRange(LabelDate(first), LabelDate(last)) ==>
      IsDate(NextDay(LabelDate(last)))
      && PeriodFromFullDates(first, last, 0).value == Periods.Period(Bound(LabelDate(first), 0), Bound(NextDay(LabelDate(last)), 0))
  {
    hide DayPeriod;
    hide Bound;
    hide IsDate;
    hide NextDay;
    hide IsFullDate;
    hide Parse;
    hide CompareDateTimes;
    var d, e := LabelDate(first), LabelDate(last);
    DayPeriodIff(first);
    DayPeriodIff(last);
    if DayPeriod(first, 0).Ok? && DayPeriod(last, 0).Ok? {
      AcceptedDay(first);
      AcceptedDay(last);
      AcceptedDayPeriod(first);
      AcceptedDayPeriod(last);
      RangeInOrder(d, e);
    } else if IsRange(d, e) && d != e {
      NextDayKeepsOrder(d, e);
    }
  }

  // ---- The whole reading, as to the period ----

  lemma FirstReaderReads(rec: seq<Member>)
    ensures FirstReaders(rec, 1) == ReadPeriod(rec)
  {
    hide ReadPeriod;
    assert FirstReaders(rec, 0) == Outcome(rec, [], []);
    assert ReadBy(0, rec) == ReadPeriod(rec);
    hide ReadBy;
  }

  lemma {:induction false} LaterReadersKeep(rec: seq<Member>, n: nat, name: Text)
    requires 1 <= n <= 6 && name in Concerns(0)
    ensures Own(FirstReaders(rec, n).rec, name) == Own(ReadPeriod(rec).rec, name)
    ensures Reported.Period in FirstReaders(rec, n).converted <==> Reported.Period in ReadPeriod(rec).converted
  {
    hide ReadPeriod;
    hide ReadBy;
    hide Own;
    hide Concerns;
    hide Chief;
    if n == 1 {
      hide FirstReaders;
      FirstReaderReads(rec);
    } else {
      var last: Reader := n - 1;
      var before := FirstReaders(rec, n - 1);
      LaterReadersKeep(rec, n - 1, name);
      EachReader(last, before.rec);
      OthersReadNoPeriod(last, before.rec);
      ConcernsAreApart(0, last, name);
    }
  }

  lemma OthersReadNoPeriod(k: Reader, rec: seq<Member>)
    requires k > 0
    ensures Reported.Period !in ReadBy(k, rec).converted
  {
    hide Own;
    hide StringIn;
    hide LegacyFunctionalUnit;
    hide IsFunctionalUnit;
    hide IsMeasurementMethod;
    hide LegacyCarbonUnit;
    hide OldRoles;
    hide ReadEntries;
    hide IsTargetType;
    hide Put;
    hide Remove;
    hide TextOf;
  }

  lemma ReadAsToPeriod(rec: seq<Member>)
    ensures forall name :: name in Concerns(0) ==> Own(Read(rec).rec, name) == Own(ReadPeriod(rec).rec, name)
    ensures Reported.Period in Read(rec).converted <==> Reported.Period in ReadPeriod(rec).converted
  {
    hide Read;
    hide ReadPeriod;
    hide FirstReaders;
    hide Own;
    ReadIsSixReaders(rec);
    forall name | name in Concerns(0) ensures Own(Read(rec).rec, name) == Own(ReadPeriod(rec).rec, name) {
      LaterReadersKeep(rec, 6, name);
    }
    LaterReadersKeep(rec, 6, PERIOD);
  }

  /** The member holds two full-dates that make a range. */
  predicate HoldsRange(v: Json, first: string, last: string) {
    && v.Object? && IsFullDate(first) && IsFullDate(last)
    && Says(Own(v.members, START), first) && Says(Own(v.members, END), last)
    && IsRange(LabelDate(first), LabelDate(last))
  }

  lemma PeriodOfDatesIff(v: Json)
    ensures forall first, last :: HoldsRange(v, first, last) ==>
      && IsDate(LabelDate(first)) && IsDate(NextDay(LabelDate(last))) && PeriodOfDates(v).Some?
      && IsFromTo(Some(PeriodValue(PeriodOfDates(v).value)), LabelDate(first), NextDay(LabelDate(last)))
    ensures PeriodOfDates(v).Some? ==> exists first, last :: HoldsRange(v, first, last)
  {
    hide IsFullDate;
    hide Says;
    hide Own;
    hide FullDateIn;
    hide PeriodFromFullDates;
    hide IsRange;
    hide PeriodValue;
    hide IsFromTo;
    hide IsDate;
    hide Bound;
    forall first, last | HoldsRange(v, first, last)
      ensures IsDate(LabelDate(first)) && IsDate(NextDay(LabelDate(last))) && PeriodOfDates(v).Some?
      ensures IsFromTo(Some(PeriodValue(PeriodOfDates(v).value)), LabelDate(first), NextDay(LabelDate(last)))
    {
      FullDateInIff(Own(v.members, START), first);
      FullDateInIff(Own(v.members, END), last);
      FullDatesIff(first, last);
      RangeDates(LabelDate(first), LabelDate(last));
      ValueIsFromTo(PeriodOfDates(v).value, LabelDate(first), NextDay(LabelDate(last)));
    }
    if PeriodOfDates(v).Some? {
      var first, last := FullDateIn(Own(v.members, START)).value, FullDateIn(Own(v.members, END)).value;
      FullDateInIff(Own(v.members, START), first);
      FullDateInIff(Own(v.members, END), last);
      FullDatesIff(first, last);
      assert HoldsRange(v, first, last);
    }
  }

  lemma RangeDates(first: Date, last: Date)
    requires IsRange(first, last)
    ensures IsDate(first) && IsDate(last)
  {
    hide IsDate;
  }

  /**
   * A period served is replaced exactly where it holds two full-dates that make a range, by the period from the midnight
   * of the first to the midnight of the day after the second; a label or an extension beside it is left.
   */
  lemma ServedPeriodIsRead(rec: seq<Member>)
    requires Own(rec, PERIOD).Some?
    ensures var served, read := Own(rec, PERIOD).value, Read(rec);
      && (forall first, last :: HoldsRange(served, first, last) ==>
            && Reported.Period in read.converted && IsDate(LabelDate(first)) && IsDate(NextDay(LabelDate(last)))
            && IsFromTo(Own(read.rec, PERIOD), LabelDate(first), NextDay(LabelDate(last))))
      && ((forall first, last :: !HoldsRange(served, first, last)) ==>
            Reported.Period !in read.converted && Own(read.rec, PERIOD) == Some(served))
      && Own(read.rec, LABEL) == Own(rec, LABEL) && Own(read.rec, EXTENSIONS) == Own(rec, EXTENSIONS)
  {
    hide Read;
    hide PeriodOfDates;
    hide PeriodValue;
    hide HoldsRange;
    hide IsFromTo;
    hide Own;
    hide Put;
    hide IsDate;
    hide IsFullDate;
    var served := Own(rec, PERIOD).value;
    ReadAsToPeriod(rec);
    PeriodOfDatesIff(served);
    NamesDiffer();
    if PeriodOfDates(served).Some? {
      PutChangesOnly(rec, PERIOD, PeriodValue(PeriodOfDates(served).value));
    }
    hide TextOf;
  }

  // ---- A label ----

  /** The label names a real year, month or day from year 1 on, after which there is a day that can be written. */
  predicate NamesPeriod(said: string) {
    IsLabel(said) && IsDate(LabelDate(said)) && LabelDate(said).year >= 1 && AfterLabel(said).year <= 9999
  }

  lemma LabelIsAscii(said: string)
    requires IsLabel(said)
    ensures IsAscii(said)
  {
    if |said| == 10 {
      FullDateIsAscii(said);
    } else if |said| == 7 {
      forall i | 0 <= i < 7 ensures said[i] as int < 0x80 {
        if i < 4 {
          assert said[i] == said[..4][i];
        } else if i > 4 {
          assert said[i] == said[5..][i - 5];
        }
      }
    }
  }

  lemma LabelPeriodIff(said: string)
    ensures PeriodFromReportingPeriod(said, 0).Ok? <==> NamesPeriod(said)
    ensures NamesPeriod(said) ==>
      && IsDate(LabelDate(said)) && IsDate(AfterLabel(said))
      && PeriodFromReportingPeriod(said, 0).value == Periods.Period(Bound(LabelDate(said), 0), Bound(AfterLabel(said), 0))
  {
    hide PeriodFromReportingPeriod;
    hide IsLabel;
    hide IsDate;
    hide Bound;
    hide LabelDate;
    hide AfterLabel;
    if PeriodFromReportingPeriod(said, 0).Ok? {
      AcceptedLabel(said);
      YearZeroHasNoPeriod(said);
    }
    if NamesPeriod(said) {
      PeriodOfLabel(said);
    }
  }

  /** The text of a label gives its period, and a text that is no such label gives none. */
  lemma StatedLabelIff(stated: Text)
    ensures forall said :: stated == TextOf(said) && NamesPeriod(said) ==>
      && IsDate(LabelDate(said)) && IsDate(AfterLabel(said)) && LabelPeriod(stated).Ok?
      && IsFromTo(Some(PeriodValue(LabelPeriod(stated).value)), LabelDate(said), AfterLabel(said))
    ensures LabelPeriod(stated).Ok? ==> exists said :: stated == TextOf(said) && NamesPeriod(said)
  {
    hide PeriodFromReportingPeriod;
    hide LabelDate;
    hide AfterLabel;
    hide IsLabel;
    hide IsDate;
    hide IsFromTo;
    hide PeriodValue;
    hide Bound;
    hide IsAscii;
    hide StringOf;
    forall said | stated == TextOf(said) && NamesPeriod(said)
      ensures IsDate(LabelDate(said)) && IsDate(AfterLabel(said)) && LabelPeriod(stated).Ok?
      ensures IsFromTo(Some(PeriodValue(LabelPeriod(stated).value)), LabelDate(said), AfterLabel(said))
    {
      LabelIsAscii(said);
      StringOfText(said);
      LabelPeriodIff(said);
      ValueIsFromTo(LabelPeriod(stated).value, LabelDate(said), AfterLabel(said));
    }
    if LabelPeriod(stated).Ok? {
      var said := StringOf(stated).value;
      TextOfString(stated);
      LabelPeriodIff(said);
    }
  }

  // ---- A fiscal year beside it ----

  const STEM := "fiscal-year-ended-"

  /** The members of a member that is an object; none else. */
  function MembersOf(v: Option<Json>): seq<Member> {
    if v.Some? && v.value.Object? then v.value.members else []
  }

  function FiscalExtension(rec: seq<Member>): seq<Member> {
    MembersOf(Own(MembersOf(Own(rec, EXTENSIONS)), FISCAL_YEAR_EXTENSION))
  }

  /** The extension says that the fiscal year ended on the date. */
  predicate StatesFiscalYear(rec: seq<Member>, end: string) {
    IsFullDate(end) && Says(Own(FiscalExtension(rec), FISCAL_YEAR_BASIS), STEM + end)
  }

  lemma OwnNothing()
    ensures forall name :: Own([], name).None?
  {
    forall name ensures Own([], name).None? {
      OwnOfNothing(name);
    }
  }

  lemma StemIsAscii(end: string)
    requires IsFullDate(end)
    ensures IsAscii(STEM + end) && StartsWith(STEM + end, STEM) && (STEM + end)[|STEM|..] == end
  {
    FullDateIsAscii(end);
    assert IsAscii(STEM);
  }

  lemma FiscalYearEndIff(rec: seq<Member>, end: string)
    ensures FiscalYearEnd(rec) == Some(end) <==> StatesFiscalYear(rec, end)
  {
    hide IsFullDate;
    hide Own;
    OwnNothing();
    var basis := Own(FiscalExtension(rec), FISCAL_YEAR_BASIS);
    if StatesFiscalYear(rec, end) {
      StemIsAscii(end);
      StringOfText(STEM + end);
    }
    if FiscalYearEnd(rec) == Some(end) {
      var text := StringOf(basis.value.s).value;
      TextOfString(basis.value.s);
      assert text == STEM + end;
    }
  }

  /** The fiscal year that ended on the date exists. */
  predicate HasFiscalYear(end: string) {
    IsFullDate(end) && IsDate(LabelDate(end)) && LabelDate(end).year >= 1001 && NextDay(LabelDate(end)).year <= 9999
  }

  lemma FiscalYearIsFromTo(end: string)
    requires IsFullDate(end)
    ensures FiscalYear(end).Ok? <==> HasFiscalYear(end)
    ensures HasFiscalYear(end) ==>
      && IsDate(NextDay(YearBefore(LabelDate(end)))) && IsDate(NextDay(LabelDate(end)))
      && IsFromTo(Some(PeriodValue(FiscalYear(end).value)), NextDay(YearBefore(LabelDate(end))), NextDay(LabelDate(end)))
  {
    hide FiscalYear;
    hide IsFullDate;
    hide IsDate;
    hide NextDay;
    hide YearBefore;
    hide LabelDate;
    hide Bound;
    hide IsFromTo;
    hide PeriodValue;
    hide IsPeriod;
    FiscalYearExistsIff(end);
    if HasFiscalYear(end) {
      ValueIsFromTo(FiscalYear(end).value, NextDay(YearBefore(LabelDate(end))), NextDay(LabelDate(end)));
    }
  }

  // ---- What is left of the extensions ----

  /**
   * The extensions without the basis of the fiscal year: every other extension as it was, and of that one every other
   * member; and no object that is left empty.
   */
  ghost predicate AreWithoutBasis(left: Option<Json>, was: seq<Member>) {
    && (left.Some? ==> left.value.Object? && left.value.members != [])
    && (forall name :: name != FISCAL_YEAR_EXTENSION ==> Own(MembersOf(left), name) == Own(was, name))
    && var fiscal := Own(MembersOf(left), FISCAL_YEAR_EXTENSION);
       && (fiscal.Some? ==> fiscal.value.Object? && fiscal.value.members != [])
       && Own(MembersOf(fiscal), FISCAL_YEAR_BASIS).None?
       && forall name :: name != FISCAL_YEAR_BASIS ==>
            Own(MembersOf(fiscal), name) == Own(MembersOf(Own(was, FISCAL_YEAR_EXTENSION)), name)
  }

  lemma {:induction false} OwnOfAppended(members: seq<Member>, last: Member, name: Text)
    requires Own(members, last.name).None?
    ensures Own(members + [last], name) == if name == last.name then Some(last.value) else Own(members, name)
  {
    hide Own;
    OwnOfNothing(name);
    if members == [] {
      assert [] + [last] == [last] + [];
      OwnOfCons(last, [], name);
    } else {
      OwnOfRest(members, name);
      OwnOfRest(members, last.name);
      OwnOfAppended(members[1..], last, name);
      OwnOfCons(members[0], members[1..] + [last], name);
      assert [members[0]] + (members[1..] + [last]) == members + [last];
    }
  }

  lemma KeptExtensions(was: seq<Member>)
    ensures var kept := WithoutBasis(was); AreWithoutBasis(if kept != [] then Some(Object(kept)) else None, was)
  {
    hide Own;
    hide Remove;
    OwnNothing();
    var extension := Own(was, FISCAL_YEAR_EXTENSION);
    var rest := if extension.Some? && extension.value.Object? then Remove(extension.value.members, FISCAL_YEAR_BASIS) else [];
    var others := Remove(was, FISCAL_YEAR_EXTENSION);
    RemoveChangesOnly(was, FISCAL_YEAR_EXTENSION);
    RemoveChangesOnly(MembersOf(extension), FISCAL_YEAR_BASIS);
    RemovedFromNothing();
    assert rest == Remove(MembersOf(extension), FISCAL_YEAR_BASIS);
    forall name ensures Own(others + [Member(FISCAL_YEAR_EXTENSION, Object(rest))], name)
                     == if name == FISCAL_YEAR_EXTENSION then Some(Object(rest)) else Own(others, name) {
      OwnOfAppended(others, Member(FISCAL_YEAR_EXTENSION, Object(rest)), name);
    }
  }

  lemma RemovedFromNothing()
    ensures Remove([], FISCAL_YEAR_BASIS) == []
  {
  }

  lemma DroppedBasis(rec: seq<Member>)
    requires Own(rec, EXTENSIONS).Some? && Own(rec, EXTENSIONS).value.Object?
    ensures AreWithoutBasis(Own(DropFiscalYearBasis(rec), EXTENSIONS), Own(rec, EXTENSIONS).value.members)
    ensures SameExcept(rec, DropFiscalYearBasis(rec), {EXTENSIONS})
  {
    hide Own;
    hide Put;
    hide Remove;
    hide WithoutBasis;
    hide AreWithoutBasis;
    var was := Own(rec, EXTENSIONS).value.members;
    KeptExtensions(was);
    BasisChangesOnlyExtensions(rec);
    PutChangesOnly(rec, EXTENSIONS, Object(WithoutBasis(was)));
    RemoveChangesOnly(rec, EXTENSIONS);
  }

  // ---- What a label becomes ----

  /** Label, period and extensions stay as served, and no period is reported. */
  predicate LeavesPeriod(rec: seq<Member>, read: Outcome) {
    && Own(read.rec, PERIOD) == Own(rec, PERIOD) && Own(read.rec, LABEL) == Own(rec, LABEL)
    && Own(read.rec, EXTENSIONS) == Own(rec, EXTENSIONS) && Reported.Period !in read.converted
  }

  /** The label has given way to the period from one midnight to another. */
  predicate GivesPeriod(read: Outcome, from: Date, to: Date)
    requires IsDate(from) && IsDate(to)
  {
    Reported.Period in read.converted && IsFromTo(Own(read.rec, PERIOD), from, to) && Own(read.rec, LABEL).None?
  }

  predicate SaysPeriod(v: Option<Json>, said: string) {
    Says(v, said) && NamesPeriod(said)
  }

  lemma LabelAlone(rec: seq<Member>)
    requires Own(rec, PERIOD).None? && FiscalYearEnd(rec).None?
    ensures forall said :: SaysPeriod(Own(rec, LABEL), said) ==>
      && IsDate(LabelDate(said)) && IsDate(AfterLabel(said)) && GivesPeriod(ReadPeriod(rec), LabelDate(said), AfterLabel(said))
      && Own(ReadPeriod(rec).rec, EXTENSIONS) == Own(rec, EXTENSIONS)
    ensures (forall said :: !SaysPeriod(Own(rec, LABEL), said)) ==> LeavesPeriod(rec, ReadPeriod(rec))
  {
    hide Own;
    hide FiscalYearEnd;
    hide FiscalYear;
    hide LabelPeriod;
    hide PeriodValue;
    hide NamesPeriod;
    hide IsFromTo;
    hide IsDate;
    hide Replace;
    hide LabelDate;
    hide AfterLabel;
    NamesDiffer();
    hide TextOf;
    var stated := StringIn(Own(rec, LABEL));
    if stated.Some? {
      StatedLabelIff(stated.value);
      if LabelPeriod(stated.value).Ok? {
        SaidIsAscii(Own(rec, LABEL), stated.value);
        var instead := Member(PERIOD, PeriodValue(LabelPeriod(stated.value).value));
        ReplaceChangesOnly(rec, LABEL, instead);
        OwnOfReplace(rec, LABEL, instead, LABEL);
      }
    }
  }

  lemma SaidIsAscii(v: Option<Json>, stated: Text)
    requires v == Some(String(stated))
    ensures forall said :: stated == TextOf(said) && NamesPeriod(said) ==> SaysPeriod(v, said)
  {
    hide TextOf;
    hide IsLabel;
    hide LabelDate;
    hide AfterLabel;
    hide IsDate;
    forall said | NamesPeriod(said) ensures IsAscii(said) {
      LabelIsAscii(said);
    }
    hide IsAscii;
  }

  /**
   * A label with no fiscal year beside it: one that names a year, month or day becomes the period of that unit, from its
   * first midnight to the one after it; any other is left.
   */
  lemma ServedLabelIsRead(rec: seq<Member>)
    requires Own(rec, PERIOD).None? && forall end :: !StatesFiscalYear(rec, end)
    ensures forall said :: SaysPeriod(Own(rec, LABEL), said) ==>
      && IsDate(LabelDate(said)) && IsDate(AfterLabel(said)) && GivesPeriod(Read(rec), LabelDate(said), AfterLabel(said))
      && Own(Read(rec).rec, EXTENSIONS) == Own(rec, EXTENSIONS)
    ensures (forall said :: !SaysPeriod(Own(rec, LABEL), said)) ==> LeavesPeriod(rec, Read(rec))
  {
    hide Own;
    hide Read;
    hide ReadPeriod;
    hide FiscalYearEnd;
    hide StatesFiscalYear;
    hide SaysPeriod;
    hide IsFromTo;
    hide IsDate;
    hide LabelDate;
    hide AfterLabel;
    if FiscalYearEnd(rec).Some? {
      FiscalYearEndIff(rec, FiscalYearEnd(rec).value);
    }
    LabelAlone(rec);
    ReadAsToPeriod(rec);
  }

  lemma FiscalYearIsInExtensions(rec: seq<Member>)
    requires FiscalYearEnd(rec).Some?
    ensures Own(rec, EXTENSIONS).Some? && Own(rec, EXTENSIONS).value.Object?
  {
    hide Own;
  }

  lemma LabelOfFiscalYear(rec: seq<Member>, end: string)
    requires Own(rec, PERIOD).None? && FiscalYearEnd(rec) == Some(end)
    ensures if Own(rec, LABEL) == Some(String(TextOf(end[..4]))) && HasFiscalYear(end) then
        && IsDate(NextDay(YearBefore(LabelDate(end)))) && IsDate(NextDay(LabelDate(end)))
        && GivesPeriod(ReadPeriod(rec), NextDay(YearBefore(LabelDate(end))), NextDay(LabelDate(end)))
        && AreWithoutBasis(Own(ReadPeriod(rec).rec, EXTENSIONS), MembersOf(Own(rec, EXTENSIONS)))
      else LeavesPeriod(rec, ReadPeriod(rec))
  {
    hide Own;
    hide FiscalYearEnd;
    hide FiscalYear;
    hide LabelPeriod;
    hide PeriodValue;
    hide IsFromTo;
    hide IsDate;
    hide Replace;
    hide LabelDate;
    hide NextDay;
    hide YearBefore;
    hide HasFiscalYear;
    hide AreWithoutBasis;
    hide DropFiscalYearBasis;
    NamesDiffer();
    hide TextOf;
    FiscalYearIsFromTo(end);
    if Own(rec, LABEL) == Some(String(TextOf(end[..4]))) && HasFiscalYear(end) {
      var instead := Member(PERIOD, PeriodValue(FiscalYear(end).value));
      ReplaceChangesOnly(rec, LABEL, instead);
      OwnOfReplace(rec, LABEL, instead, LABEL);
      FiscalYearIsInExtensions(rec);
      DroppedBasis(Replace(rec, LABEL, instead));
    }
  }

  /**
   * A label beside a fiscal year: where it is the year of the last day, and that fiscal year exists, it becomes the fiscal
   * year to the day, and the extensions lose the basis that told it; otherwise both are left.
   */
  lemma LabelBesideFiscalYearIsRead(rec: seq<Member>, end: string)
    requires Own(rec, PERIOD).None? && StatesFiscalYear(rec, end)
    ensures if Own(rec, LABEL) == Some(String(TextOf(end[..4]))) && HasFiscalYear(end) then
        && IsDate(NextDay(YearBefore(LabelDate(end)))) && IsDate(NextDay(LabelDate(end)))
        && GivesPeriod(Read(rec), NextDay(YearBefore(LabelDate(end))), NextDay(LabelDate(end)))
        && AreWithoutBasis(Own(Read(rec).rec, EXTENSIONS), MembersOf(Own(rec, EXTENSIONS)))
      else LeavesPeriod(rec, Read(rec))
  {
    hide Own;
    hide Read;
    hide ReadPeriod;
    hide FiscalYearEnd;
    hide StatesFiscalYear;
    hide HasFiscalYear;
    hide AreWithoutBasis;
    hide IsFromTo;
    hide IsDate;
    hide LabelDate;
    hide NextDay;
    hide YearBefore;
    FiscalYearEndIff(rec, end);
    LabelOfFiscalYear(rec, end);
    ReadAsToPeriod(rec);
  }
}
