/**
 * What the compatibility reading promises: reading twice is reading once, an object in
 * today's forms stays unchanged, and something is reported exactly when something
 * changed. The six readers are numbered in the order in which they run.
 */
module SentinelProofs {
  import opened Calendar
  import opened CalendarTiling
  import opened DateTimes
  import Digits
  import opened JsonRecords
  import opened JsonValues
  import opened Periods
  import opened Queries
  import opened Sentinel
  import opened Texts
  import opened Tokens
  import opened Wrappers

  type Reader = k: nat | k < 6

  function ReadBy(k: Reader, rec: seq<Member>): Outcome {
    if k == 0 then ReadPeriod(rec)
    else if k == 1 then ReadMeasurementMethod(rec)
    else if k == 2 then ReadFunctionalUnit(rec)
    else if k == 3 then ReadCarbonUnit(rec)
    else if k == 4 then ReadRoles(rec)
    else ReadTargetType(rec)
  }

  /** The members a reader looks at, which are those it may change. */
  function Concerns(k: Reader): set<Text> {
    if k == 0 then {LABEL, PERIOD, EXTENSIONS}
    else if k == 1 then {METHOD}
    else if k == 2 then {FUNCTIONAL_UNIT, SCI_SCORE}
    else if k == 3 then {CARBON_UNIT}
    else if k == 4 then {UPSTREAM}
    else {TARGET_TYPE}
  }

  /** The member a reader changes whenever it reads anything. */
  function Chief(k: Reader): (name: Text)
    ensures name in Concerns(k)
  {
    if k == 0 then PERIOD
    else if k == 1 then METHOD
    else if k == 2 then FUNCTIONAL_UNIT
    else if k == 3 then CARBON_UNIT
    else if k == 4 then UPSTREAM
    else TARGET_TYPE
  }

  predicate ReportsNothing(o: Outcome) {
    o.converted == [] && o.disregarded == []
  }

  lemma NamesDiffer()
    ensures |LABEL| == 16 && |PERIOD| == 6 && |EXTENSIONS| == 10 && |METHOD| == 18 && |FUNCTIONAL_UNIT| == 15
    ensures |SCI_SCORE| == 9 && |CARBON_UNIT| == 11 && |UPSTREAM| == 8 && |TARGET_TYPE| == 11 && CARBON_UNIT != TARGET_TYPE
    ensures |START| == 5 && |END| == 3
  {
    assert CARBON_UNIT[0] == 'c' as int && TARGET_TYPE[0] == 't' as int;
  }

  lemma ConcernsAreApart(j: Reader, k: Reader, name: Text)
    requires j != k && name in Concerns(j)
    ensures name !in Concerns(k)
  {
    NamesDiffer();
  }

  // ---- One reader ----

  /** What a reader does to an object: nothing, and no report; or a change of its chief member, and a report. */
  ghost predicate ActsOn(k: Reader, rec: seq<Member>, o: Outcome) {
    && SameExcept(rec, o.rec, Concerns(k))
    && (ReportsNothing(o) ==> o.rec == rec)
    && (!ReportsNothing(o) ==> Own(o.rec, Chief(k)) != Own(rec, Chief(k)))
  }

  lemma DateTimeIsNoFullDate(value: string)
    requires IsDateTime(value)
    ensures |value| >= 20
  {
    hide ReadRest;
  }

  lemma BoundsAreNoFullDates(p: Periods.Period)
    requires |p.start| != 10
    ensures PeriodOfDates(PeriodValue(p)).None?
  {
    NamesDiffer();
    var v := PeriodValue(p);
    assert v.members[0].name == START;
    assert Own(v.members, START) == Some(String(TextOf(p.start)));
  }

  lemma LastCharacter(d: Date, zone: Zone)
    requires IsDate(d)
    ensures |Bound(d, zone)| >= 20
  {
    assert |OffsetText(zone)| >= 1;
  }

  lemma DayPeriodIsLong(date: string, zone: Zone)
    requires DayPeriod(date, zone).Ok?
    ensures |DayPeriod(date, zone).value.start| >= 20 && |DayPeriod(date, zone).value.end| >= 20
  {
    hide Parse;
    hide Bound;
    hide DayNumber;
    hide FromDayNumber;
    var first := CalendarDate(Digits.Number(date[..4]), Digits.Number(date[5..7]), Digits.Number(date[8..])).value;
    LastCharacter(first, zone);
    LastCharacter(AddDays(first, 1), zone);
  }

  lemma LabelPeriodIsLong(text: string, zone: Zone)
    requires PeriodFromReportingPeriod(text, zone).Ok?
    ensures |PeriodFromReportingPeriod(text, zone).value.start| >= 20
  {
    hide Parse;
    hide Bound;
    hide AddMonths;
    hide AddYears;
    hide DayPeriod;
    if IsYearLabel(text) {
      LastCharacter(Date(Digits.Number(text), 1, 1), zone);
    } else if IsMonthLabel(text) {
      LastCharacter(Date(Digits.Number(text[..4]), Digits.Number(text[5..]), 1), zone);
    } else {
      DayPeriodIsLong(text, zone);
    }
  }

  lemma ReadPeriodIsLong(rec: seq<Member>, stated: Text)
    requires PeriodStated(rec, stated).Some?
    ensures |PeriodStated(rec, stated).value.start| >= 20
  {
    hide DayPeriod;
    hide PeriodFromReportingPeriod;
    hide FiscalYearEnd;
    hide StringOf;
    var end := FiscalYearEnd(rec);
    if end.None? {
      LabelPeriodIsLong(StringOf(stated).value, 0);
    } else {
      var year, month, day := Digits.Number(end.value[..4]) - 1, end.value[5..7], end.value[8..];
      DayPeriodIsLong(Digits.Pad(year, 4) + "-" + month + "-" + (if month == "02" && day == "29" then "28" else day), 0);
    }
  }

  lemma DatesPeriodIsLong(period: Json)
    requires PeriodOfDates(period).Some?
    ensures |PeriodOfDates(period).value.start| >= 20
  {
    hide DayPeriod;
    hide FullDateIn;
    hide Parse;
    DayPeriodIsLong(FullDateIn(Own(period.members, START)).value, 0);
  }

  lemma BasisChangesOnlyExtensions(rec: seq<Member>)
    ensures SameExcept(rec, DropFiscalYearBasis(rec), {EXTENSIONS})
  {
    hide Own;
    hide WithoutBasis;
    var extensions := Own(rec, EXTENSIONS);
    RemoveChangesOnly(rec, EXTENSIONS);
    if extensions.Some? && extensions.value.Object? {
      PutChangesOnly(rec, EXTENSIONS, Object(WithoutBasis(extensions.value.members)));
    }
  }

  lemma LabelActs(rec: seq<Member>, p: Periods.Period)
    requires Own(rec, PERIOD).None? && Own(rec, LABEL).Some?
    ensures var replaced := Replace(rec, LABEL, Member(PERIOD, PeriodValue(p)));
      forall r :: r == replaced || r == DropFiscalYearBasis(replaced) ==>
        Own(r, PERIOD) == Some(PeriodValue(p)) && SameExcept(rec, r, {LABEL, PERIOD, EXTENSIONS})
  {
    hide Own;
    hide DropFiscalYearBasis;
    hide PeriodValue;
    NamesDiffer();
    ReplaceChangesOnly(rec, LABEL, Member(PERIOD, PeriodValue(p)));
    BasisChangesOnlyExtensions(Replace(rec, LABEL, Member(PERIOD, PeriodValue(p))));
  }

  lemma PeriodActs(rec: seq<Member>)
    ensures ActsOn(0, rec, ReadPeriod(rec))
    ensures ReportsNothing(ReadPeriod(ReadPeriod(rec).rec))
  {
    hide Own;
    hide PeriodStated;
    hide PeriodOfDates;
    hide PeriodValue;
    hide Replace;
    hide DropFiscalYearBasis;
    hide FiscalYearEnd;
    var period, stated := Own(rec, PERIOD), StringIn(Own(rec, LABEL));
    if period.None? && stated.Some? && PeriodStated(rec, stated.value).Some? {
      var p := PeriodStated(rec, stated.value).value;
      LabelActs(rec, p);
      ReadPeriodIsLong(rec, stated.value);
      BoundsAreNoFullDates(p);
    } else if period.Some? && PeriodOfDates(period.value).Some? {
      var p := PeriodOfDates(period.value).value;
      PutChangesOnly(rec, PERIOD, PeriodValue(p));
      DatesPeriodIsLong(period.value);
      BoundsAreNoFullDates(p);
    }
  }

  lemma MethodActs(rec: seq<Member>)
    ensures ActsOn(1, rec, ReadMeasurementMethod(rec))
    ensures ReportsNothing(ReadMeasurementMethod(ReadMeasurementMethod(rec).rec))
  {
    hide Own;
    hide MethodToken;
    hide TextOf;
    PutChangesOnly(rec, METHOD, String(TextOf(MethodToken(RESIDUAL_METHOD))));
  }

  lemma UnitActs(rec: seq<Member>)
    ensures ActsOn(2, rec, ReadFunctionalUnit(rec))
    ensures ReportsNothing(ReadFunctionalUnit(ReadFunctionalUnit(rec).rec))
  {
    hide Own;
    hide FunctionalUnitToken;
    hide LegacyFunctionalUnit;
    hide TextOf;
    hide Put;
    hide Remove;
    var unit, score := StringIn(Own(rec, FUNCTIONAL_UNIT)), Own(rec, SCI_SCORE);
    assert FUNCTIONAL_UNIT != SCI_SCORE by {
      NamesDiffer();
    }
    if unit.Some? && !IsFunctionalUnit(unit.value) {
      var read := LegacyFunctionalUnit(unit.value);
      if read.None? {
        RemoveChangesOnly(rec, FUNCTIONAL_UNIT);
        RemoveChangesOnly(Remove(rec, FUNCTIONAL_UNIT), SCI_SCORE);
      } else {
        var value := String(TextOf(FunctionalUnitToken(read.value.unit)));
        assert IsFunctionalUnit(value.s);
        PutChangesOnly(rec, FUNCTIONAL_UNIT, value);
        if score.Some? && score.value.Number? {
          PutChangesOnly(Put(rec, FUNCTIONAL_UNIT, value), SCI_SCORE, Json.Number(score.value.n / (read.value.factor as real)));
        }
      }
    }
  }

  lemma TonnesDiffer()
    ensures LegacyCarbonUnit(TextOf("tCO2e")).None?
  {
    assert |TextOf("tCO2e")| == 5 && |TextOf("mtCO2e")| == 6;
  }

  lemma CarbonActs(rec: seq<Member>)
    ensures ActsOn(3, rec, ReadCarbonUnit(rec))
    ensures ReportsNothing(ReadCarbonUnit(ReadCarbonUnit(rec).rec))
  {
    hide Own;
    hide Put;
    TonnesDiffer();
    var unit := StringIn(Own(rec, CARBON_UNIT));
    if unit.Some? && LegacyCarbonUnit(unit.value).Some? {
      PutChangesOnly(rec, CARBON_UNIT, String(LegacyCarbonUnit(unit.value).value));
    }
  }

  lemma EntryIsRead(entry: Json)
    ensures !HasOldRole(ReadEntry(entry))
    ensures HasOldRole(entry) ==> ReadEntry(entry) != entry
  {
    hide Own;
    hide IsUpstreamRole;
    if HasOldRole(entry) {
      RemoveChangesOnly(entry.members, ROLE);
    }
  }

  lemma EntriesAreRead(entries: seq<Json>)
    ensures OldRoles(ReadEntries(entries, |entries|), |entries|) == []
    ensures OldRoles(entries, |entries|) != [] ==> ReadEntries(entries, |entries|) != entries
  {
    hide HasOldRole;
    hide ReadEntry;
    var read := ReadEntries(entries, |entries|);
    forall i | 0 <= i < |entries| ensures !HasOldRole(read[i]) && (HasOldRole(entries[i]) ==> read[i] != entries[i]) {
      EntryIsRead(entries[i]);
    }
  }

  lemma RolesAct(rec: seq<Member>)
    ensures ActsOn(4, rec, ReadRoles(rec))
    ensures ReportsNothing(ReadRoles(ReadRoles(rec).rec))
  {
    hide Own;
    hide Put;
    hide OldRoles;
    hide ReadEntries;
    var upstream := Own(rec, UPSTREAM);
    if upstream.Some? && upstream.value.Array? {
      var entries := upstream.value.items;
      EntriesAreRead(entries);
      PutChangesOnly(rec, UPSTREAM, Array(ReadEntries(entries, |entries|)));
    }
  }

  lemma TargetTypeActs(rec: seq<Member>)
    ensures ActsOn(5, rec, ReadTargetType(rec))
    ensures ReportsNothing(ReadTargetType(ReadTargetType(rec).rec))
  {
    hide Own;
    hide Remove;
    hide IsTargetType;
    RemoveChangesOnly(rec, TARGET_TYPE);
  }

  /** Each reader changes its own members only, changes something exactly when it reports, and is done at once. */
  lemma EachReader(k: Reader, rec: seq<Member>)
    ensures ActsOn(k, rec, ReadBy(k, rec))
    ensures ReportsNothing(ReadBy(k, ReadBy(k, rec).rec))
  {
    hide ActsOn;
    hide ReadPeriod;
    hide ReadMeasurementMethod;
    hide ReadFunctionalUnit;
    hide ReadCarbonUnit;
    hide ReadRoles;
    hide ReadTargetType;
    if k == 0 {
      PeriodActs(rec);
    } else if k == 1 {
      MethodActs(rec);
    } else if k == 2 {
      UnitActs(rec);
    } else if k == 3 {
      CarbonActs(rec);
    } else if k == 4 {
      RolesAct(rec);
    } else {
      TargetTypeActs(rec);
    }
  }

  /** Whether a reader has anything to read depends on its own members only. */
  lemma ReaderLooksAt(k: Reader, a: seq<Member>, b: seq<Member>)
    requires forall n :: n in Concerns(k) ==> Own(a, n) == Own(b, n)
    ensures ReportsNothing(ReadBy(k, a)) <==> ReportsNothing(ReadBy(k, b))
  {
    hide Own;
    hide OldRoles;
    hide LegacyFunctionalUnit;
    hide LabelPeriod;
    hide FiscalYear;
    hide PeriodOfDates;
    hide StringIn;
    hide IsTargetType;
    hide IsMeasurementMethod;
    hide IsFunctionalUnit;
    hide TextOf;
    assert forall n :: n in Concerns(k) ==> Own(a, n) == Own(b, n);
    if k == 0 {
      assert FiscalYearEnd(a) == FiscalYearEnd(b);
    }
  }

  // ---- One reader after another ----

  function FirstReaders(rec: seq<Member>, n: nat): Outcome
    requires n <= 6
  {
    if n == 0 then Outcome(rec, [], []) else
    var before := FirstReaders(rec, n - 1);
    After(before, ReadBy(n - 1, before.rec))
  }

  lemma ReadIsSixReaders(rec: seq<Member>)
    ensures Read(rec) == FirstReaders(rec, 6)
  {
    hide ReadPeriod;
    hide ReadMeasurementMethod;
    hide ReadFunctionalUnit;
    hide ReadCarbonUnit;
    hide ReadRoles;
    hide ReadTargetType;
    var one := FirstReaders(rec, 1);
    assert FirstReaders(rec, 0) == Outcome(rec, [], []);
    assert one == ReadPeriod(rec);
    var two := FirstReaders(rec, 2);
    var three := FirstReaders(rec, 3);
    var four := FirstReaders(rec, 4);
    var five := FirstReaders(rec, 5);
  }

  /** After some readers have run, none of them has anything left to read. */
  lemma {:induction false} RunReadersAreDone(rec: seq<Member>, n: nat, k: Reader)
    requires k < n <= 6
    ensures ReportsNothing(ReadBy(k, FirstReaders(rec, n).rec))
  {
    hide ReadBy;
    hide Concerns;
    hide Own;
    var before := FirstReaders(rec, n - 1).rec;
    var last: Reader := n - 1;
    EachReader(last, before);
    if k < n - 1 {
      RunReadersAreDone(rec, n - 1, k);
      forall name | name in Concerns(k) ensures Own(before, name) == Own(ReadBy(last, before).rec, name) {
        ConcernsAreApart(k, last, name);
      }
      ReaderLooksAt(k, before, ReadBy(last, before).rec);
    }
  }

  lemma {:induction false} NothingToRead(rec: seq<Member>, n: nat)
    requires n <= 6 && forall k: Reader :: k < n ==> ReportsNothing(ReadBy(k, rec))
    ensures DidNothing(rec, FirstReaders(rec, n))
  {
    hide ReadBy;
    hide Concerns;
    hide Own;
    if n > 0 {
      var last: Reader := n - 1;
      NothingToRead(rec, n - 1);
      EachReader(last, rec);
      assert ReportsNothing(ReadBy(last, rec));
    }
  }

  /** Later readers leave the chief member of an earlier one as it was left. */
  lemma {:induction false} ChiefIsKept(rec: seq<Member>, n: nat)
    requires n <= 6
    ensures forall k: Reader :: k >= n ==> Own(FirstReaders(rec, n).rec, Chief(k)) == Own(rec, Chief(k))
    ensures !ReportsNothing(FirstReaders(rec, n)) ==>
      exists k: Reader :: k < n && Own(FirstReaders(rec, n).rec, Chief(k)) != Own(rec, Chief(k))
  {
    hide ReadBy;
    hide Concerns;
    hide Chief;
    hide Own;
    if n > 0 {
      var last: Reader := n - 1;
      var before := FirstReaders(rec, n - 1);
      var next := ReadBy(last, before.rec);
      ChiefIsKept(rec, n - 1);
      EachReader(last, before.rec);
      forall k: Reader | k != last ensures Own(next.rec, Chief(k)) == Own(before.rec, Chief(k)) {
        ConcernsAreApart(k, last, Chief(k));
      }
      if !ReportsNothing(next) {
        assert Own(next.rec, Chief(last)) != Own(rec, Chief(last));
      } else if !ReportsNothing(before) {
        var k: Reader :| k < n - 1 && Own(before.rec, Chief(k)) != Own(rec, Chief(k));
        assert Own(next.rec, Chief(k)) != Own(rec, Chief(k));
      }
    }
  }

  /** Reading what was read changes nothing and reports nothing. */
  lemma ReadingIsIdempotent(rec: seq<Member>)
    ensures DidNothing(Read(rec).rec, Read(Read(rec).rec))
  {
    hide Read;
    hide ReadBy;
    hide FirstReaders;
    ReadIsSixReaders(rec);
    var read := Read(rec).rec;
    forall k: Reader ensures ReportsNothing(ReadBy(k, read)) {
      RunReadersAreDone(rec, 6, k);
    }
    NothingToRead(read, 6);
    ReadIsSixReaders(read);
  }

  /** Something is reported exactly when something changed. */
  lemma ReportsIffChanged(rec: seq<Member>)
    ensures Read(rec).rec == rec <==> ReportsNothing(Read(rec))
  {
    hide Read;
    hide ReadBy;
    hide FirstReaders;
    hide Own;
    hide Chief;
    ReadIsSixReaders(rec);
    ChiefIsKept(rec, 6);
    if ReportsNothing(Read(rec)) {
      SilentReadersChangeNothing(rec, 6);
    }
  }

  lemma {:induction false} SilentReadersChangeNothing(rec: seq<Member>, n: nat)
    requires n <= 6 && ReportsNothing(FirstReaders(rec, n))
    ensures FirstReaders(rec, n).rec == rec
  {
    hide ReadBy;
    hide Own;
    hide Concerns;
    hide Chief;
    if n > 0 {
      SilentReadersChangeNothing(rec, n - 1);
      EachReader(n - 1, rec);
    }
  }

  /** No member is touched but those of the six forms. */
  lemma {:induction false} OtherMembersAreKept(rec: seq<Member>, n: nat, name: Text)
    requires n <= 6 && forall k: Reader :: name !in Concerns(k)
    ensures Own(FirstReaders(rec, n).rec, name) == Own(rec, name)
  {
    hide ReadBy;
    hide Own;
    hide Concerns;
    hide Chief;
    if n > 0 {
      var last: Reader := n - 1;
      OtherMembersAreKept(rec, n - 1, name);
      EachReader(last, FirstReaders(rec, n - 1).rec);
    }
  }

  lemma OtherMembersAreAsServed(rec: seq<Member>, name: Text)
    requires forall k: Reader :: name !in Concerns(k)
    ensures Own(Read(rec).rec, name) == Own(rec, name)
  {
    hide Read;
    hide FirstReaders;
    hide Own;
    hide Concerns;
    ReadIsSixReaders(rec);
    OtherMembersAreKept(rec, 6, name);
  }

  predicate IsAbsentOrToken(v: Option<Json>, isToken: Text -> bool) {
    StringIn(v).Some? ==> isToken(StringIn(v).value)
  }

  /**
   * After the reading no old spelling is left: a method, functional unit or target type that is a string is a token
   * of today, no carbon unit has an older spelling and no upstream entry an older role.
   */
  lemma OldFormsAreGone(rec: seq<Member>)
    ensures var read := Read(rec).rec;
      && IsAbsentOrToken(Own(read, METHOD), IsMeasurementMethod)
      && IsAbsentOrToken(Own(read, FUNCTIONAL_UNIT), IsFunctionalUnit)
      && IsAbsentOrToken(Own(read, TARGET_TYPE), IsTargetType)
      && (StringIn(Own(read, CARBON_UNIT)).Some? ==> LegacyCarbonUnit(StringIn(Own(read, CARBON_UNIT)).value).None?)
      && NoOldRoles(Own(read, UPSTREAM))
  {
    hide Own;
    hide Read;
    hide FirstReaders;
    hide ReadPeriod;
    hide IsMeasurementMethod;
    hide IsFunctionalUnit;
    hide IsTargetType;
    hide LegacyCarbonUnit;
    hide LegacyFunctionalUnit;
    hide HasOldRole;
    hide TextOf;
    ReadIsSixReaders(rec);
    forall k: Reader ensures ReportsNothing(ReadBy(k, Read(rec).rec)) {
      RunReadersAreDone(rec, 6, k);
    }
    assert ReportsNothing(ReadBy(1, Read(rec).rec)) && ReportsNothing(ReadBy(2, Read(rec).rec));
    assert ReportsNothing(ReadBy(3, Read(rec).rec)) && ReportsNothing(ReadBy(4, Read(rec).rec));
    assert ReportsNothing(ReadBy(5, Read(rec).rec));
  }

  predicate NoOldRoles(upstream: Option<Json>) {
    upstream.Some? && upstream.value.Array? ==> forall i :: 0 <= i < |upstream.value.items| ==> !HasOldRole(upstream.value.items[i])
  }

  lemma Quotient(n: real, factor: real)
    requires factor > 0.0
    ensures n / factor * factor == n
  {
  }

  /** A score that goes with a converted unit is the same score: the new one, times what the unit was scaled by. */
  lemma RescaledScoreIsTheSame(rec: seq<Member>, unit: Text, score: real)
    requires StringIn(Own(rec, FUNCTIONAL_UNIT)) == Some(unit) && !IsFunctionalUnit(unit) && LegacyFunctionalUnit(unit).Some?
    requires Own(rec, SCI_SCORE) == Some(Json.Number(score))
    ensures var read, legacy := ReadFunctionalUnit(rec).rec, LegacyFunctionalUnit(unit).value;
      && Own(read, FUNCTIONAL_UNIT) == Some(String(TextOf(FunctionalUnitToken(legacy.unit))))
      && Own(read, SCI_SCORE).Some? && Own(read, SCI_SCORE).value.Number?
      && Own(read, SCI_SCORE).value.n * (legacy.factor as real) == score
  {
    hide Own;
    hide FunctionalUnitToken;
    hide LegacyFunctionalUnit;
    hide IsFunctionalUnit;
    hide TextOf;
    hide Put;
    assert FUNCTIONAL_UNIT != SCI_SCORE by {
      NamesDiffer();
    }
    var legacy := LegacyFunctionalUnit(unit).value;
    var renamed := Put(rec, FUNCTIONAL_UNIT, String(TextOf(FunctionalUnitToken(legacy.unit))));
    PutChangesOnly(rec, FUNCTIONAL_UNIT, String(TextOf(FunctionalUnitToken(legacy.unit))));
    PutChangesOnly(renamed, SCI_SCORE, Json.Number(score / (legacy.factor as real)));
    Quotient(score, legacy.factor as real);
  }

  // ---- Objects in today's forms ----

  /** A date-time as a member holds it. */
  predicate IsDateTimeValue(v: Option<Json>) {
    var s := StringIn(v);
    s.Some? && StringOf(s.value).Some? && IsDateTime(StringOf(s.value).value)
  }

  predicate HasDateTimes(period: Option<Json>) {
    period.Some? && period.value.Object? && IsDateTimeValue(Own(period.value.members, START)) && IsDateTimeValue(Own(period.value.members, END))
  }

  predicate AbsentOr(v: Option<Json>, isToken: Text -> bool) {
    v.None? || (v.value.String? && isToken(v.value.s))
  }

  predicate IsCurrentEntry(entry: Json) {
    entry.Object? && AbsentOr(Own(entry.members, ROLE), IsUpstreamRole)
  }

  predicate HasCurrentEntries(upstream: Option<Json>) {
    upstream.None? || (upstream.value.Array? && forall i :: 0 <= i < |upstream.value.items| ==> IsCurrentEntry(upstream.value.items[i]))
  }

  /** The members of the six forms are in the forms that validation accepts. */
  predicate IsCurrent(rec: seq<Member>) {
    && HasDateTimes(Own(rec, PERIOD))
    && Own(rec, METHOD).Some? && AbsentOr(Own(rec, METHOD), IsMeasurementMethod)
    && AbsentOr(Own(rec, FUNCTIONAL_UNIT), IsFunctionalUnit)
    && AbsentOr(Own(rec, CARBON_UNIT), IsCarbonUnit)
    && HasCurrentEntries(Own(rec, UPSTREAM))
    && AbsentOr(Own(rec, TARGET_TYPE), IsTargetType)
  }

  lemma DateTimesAreNotDates(period: Option<Json>)
    requires HasDateTimes(period)
    ensures PeriodOfDates(period.value).None?
  {
    hide IsDateTime;
    hide IsFullDate;
    hide PeriodFromFullDates;
    hide Own;
    var s := StringOf(StringIn(Own(period.value.members, START)).value).value;
    DateTimeIsNoFullDate(s);
    FullDatesAreTen(s);
  }

  lemma FullDatesAreTen(s: string)
    ensures IsFullDate(s) ==> |s| == 10
  {
  }

  lemma CurrentTonnes(t: Text)
    requires IsCarbonUnit(t)
    ensures LegacyCarbonUnit(t).None?
  {
    assert |TextOf("mtCO2e")| == 6 && TextOf("mtCO2e")[0] == 'm' as int;
    assert TextOf("kgCO2e")[0] == 'k' as int;
    assert |TextOf("gCO2e")| == 5 && |TextOf("tCO2e")| == 5;
  }

  lemma CurrentPeriodIsSilent(rec: seq<Member>)
    requires HasDateTimes(Own(rec, PERIOD))
    ensures ReportsNothing(ReadPeriod(rec))
  {
    hide Own;
    hide PeriodOfDates;
    hide IsDateTimeValue;
    DateTimesAreNotDates(Own(rec, PERIOD));
  }

  lemma CurrentTokensAreSilent(rec: seq<Member>)
    requires IsCurrent(rec)
    ensures ReportsNothing(ReadMeasurementMethod(rec)) && ReportsNothing(ReadFunctionalUnit(rec)) && ReportsNothing(ReadTargetType(rec))
  {
    hide Own;
    hide HasDateTimes;
    hide IsMeasurementMethod;
    hide IsFunctionalUnit;
    hide IsCarbonUnit;
    hide HasCurrentEntries;
    hide LegacyFunctionalUnit;
    hide IsTargetType;
  }

  lemma CurrentCarbonUnitIsSilent(rec: seq<Member>)
    requires AbsentOr(Own(rec, CARBON_UNIT), IsCarbonUnit)
    ensures ReportsNothing(ReadCarbonUnit(rec))
  {
    hide Own;
    hide IsCarbonUnit;
    hide LegacyCarbonUnit;
    if Own(rec, CARBON_UNIT).Some? {
      CurrentTonnes(Own(rec, CARBON_UNIT).value.s);
    }
  }

  lemma CurrentEntriesAreSilent(rec: seq<Member>)
    requires HasCurrentEntries(Own(rec, UPSTREAM))
    ensures ReportsNothing(ReadRoles(rec))
  {
    hide Own;
    hide IsUpstreamRole;
    var upstream := Own(rec, UPSTREAM);
    if upstream.Some? {
      var entries := upstream.value.items;
      forall i | 0 <= i < |entries| ensures !HasOldRole(entries[i]) {
        assert IsCurrentEntry(entries[i]);
      }
    }
  }

  /** An object in today's forms stays unchanged, and nothing is reported. */
  lemma CurrentObjectsAreLeftAlone(rec: seq<Member>)
    requires IsCurrent(rec)
    ensures DidNothing(rec, Read(rec))
  {
    hide Own;
    hide Read;
    hide FirstReaders;
    hide HasDateTimes;
    hide HasCurrentEntries;
    hide AbsentOr;
    hide ReadPeriod;
    hide ReadMeasurementMethod;
    hide ReadFunctionalUnit;
    hide ReadCarbonUnit;
    hide ReadRoles;
    hide ReadTargetType;
    CurrentPeriodIsSilent(rec);
    CurrentTokensAreSilent(rec);
    CurrentCarbonUnitIsSilent(rec);
    CurrentEntriesAreSilent(rec);
    NothingToRead(rec, 6);
    ReadIsSixReaders(rec);
  }

  // ---- The fiscal year ----

  /** The date whose next day starts the fiscal year that ended on a date: the same one a year earlier, or February 28. */
  function YearBefore(d: Date): Date {
    Date(d.year - 1, d.month, if d.month == 2 && d.day == 29 then 28 else d.day)
  }

  lemma YearBeforeIsDate(d: Date)
    requires IsDate(d)
    ensures IsDate(YearBefore(d)) && Before(YearBefore(d), d)
  {
    hide IsLeapYear;
  }

  /** The month and day as they are written, for the year before. */
  function TextOfYearBefore(end: string): string
    requires IsFullDate(end) && Digits.Number(end[..4]) >= 1
  {
    Digits.Pad(Digits.Number(end[..4]) - 1, 4) + "-" + end[5..7] + "-" + (if end[5..7] == "02" && end[8..] == "29" then "28" else end[8..])
  }

  lemma TwoDigits(text: string)
    requires |text| == 2 && Digits.IsDigits(text)
    ensures text == "02" <==> Digits.Number(text) == 2
    ensures text == "29" <==> Digits.Number(text) == 29
    ensures text == "28" ==> Digits.Number(text) == 28
  {
    assert text == [text[0], text[1]];
    assert text[..1] == [text[0]] && text[..1][..0] == "";
    assert Digits.Number(text[..1]) == (text[0] - '0') as int;
  }

  lemma TextNamesYearBefore(end: string)
    requires IsFullDate(end) && Digits.Number(end[..4]) >= 1
    ensures var text := TextOfYearBefore(end); IsFullDate(text) && LabelDate(text) == YearBefore(LabelDate(end))
  {
    var year, month, day := Digits.Number(end[..4]) - 1, end[5..7], end[8..];
    hide Digits.Number;
    hide Digits.Pad;
    YearOfText(end);
    TwoDigits(month);
    TwoDigits(day);
    TwoDigits("28");
    var dayBefore := if month == "02" && day == "29" then "28" else day;
    EarlierDate(year, month, dayBefore);
  }

  lemma EarlierDate(year: int, month: string, day: string)
    requires 0 <= year <= 9999 && |month| == 2 && |day| == 2 && Digits.IsDigits(month) && Digits.IsDigits(day)
    ensures var text := Digits.Pad(year, 4) + "-" + month + "-" + day;
      IsFullDate(text) && LabelDate(text) == Date(year, Digits.Number(month), Digits.Number(day))
  {
    var text := Digits.Pad(year, 4) + "-" + month + "-" + day;
    NumberOfYear(year, 4);
    assert text[..4] == Digits.Pad(year, 4) && text[5..7] == month && text[8..] == day;
  }

  /** A full-date has a period exactly when it is a real date of year 1 or later and the day after it can be written. */
  lemma DayPeriodIff(date: string)
    requires IsFullDate(date)
    ensures DayPeriod(date, 0).Ok? <==> IsDate(LabelDate(date)) && LabelDate(date).year >= 1 && NextDay(LabelDate(date)).year <= 9999
    ensures DayPeriod(date, 0).Ok? ==>
      IsDate(NextDay(LabelDate(date))) && DayPeriod(date, 0).value.end == Bound(NextDay(LabelDate(date)), 0)
  {
    hide IsLeapYear;
    hide Bound;
    hide DayPeriod;
    if DayPeriod(date, 0).Ok? {
      AcceptedDay(date);
      AcceptedDayPeriod(date);
    }
    if IsDate(LabelDate(date)) {
      DateTextOfLabel(date);
      DayPeriodExists(LabelDate(date), 0);
      NextDayIsSuccessor(LabelDate(date));
    }
  }

  lemma NextDayKeepsOrder(d: Date, e: Date)
    requires IsDate(d) && IsDate(e) && Before(d, e)
    ensures IsDate(NextDay(d)) && IsDate(NextDay(e)) && Before(NextDay(d), NextDay(e)) && d.year <= NextDay(d).year <= NextDay(e).year
  {
    hide DayNumber;
    NextDayIsSuccessor(d);
    NextDayIsSuccessor(e);
    DayNumberOrder(d, e);
    DayNumberOrder(NextDay(d), NextDay(e));
  }

  /**
   * A fiscal year that ended on a date has a period exactly when the date is a real one of year 1001 or later and the
   * day after it can be written: the year before is written without leading zeros. It then starts before it ends, with
   * the day that follows that date in the year before, and lasts through the date itself.
   */
  lemma FiscalYearExistsIff(end: string)
    requires IsFullDate(end)
    ensures FiscalYear(end).Ok? <==>
      IsDate(LabelDate(end)) && LabelDate(end).year >= 1001 && NextDay(LabelDate(end)).year <= 9999
    ensures FiscalYear(end).Ok? ==>
      && IsDate(NextDay(YearBefore(LabelDate(end)))) && IsDate(NextDay(LabelDate(end)))
      && FiscalYear(end).value == Periods.Period(Bound(NextDay(YearBefore(LabelDate(end))), 0), Bound(NextDay(LabelDate(end)), 0))
      && IsPeriod(FiscalYear(end).value)
  {
    hide DayPeriod;
    hide Bound;
    hide IsDate;
    hide Parse;
    hide NextDay;
    hide IsFullDate;
    var d := LabelDate(end);
    if d.year >= 1001 {
      TextNamesYearBefore(end);
      DayPeriodIff(TextOfYearBefore(end));
      DayPeriodIff(end);
      if IsDate(d) {
        YearBeforeIsDate(d);
        NextDayKeepsOrder(YearBefore(d), d);
        if NextDay(d).year <= 9999 {
          BoundsInOrder(NextDay(YearBefore(d)), NextDay(d), 0);
        }
      }
    }
  }

  /** The last day of year 1000 ends a fiscal year that has no period; a year later it has one. */
  lemma TheYear1000HasNone()
    ensures IsFullDate("1000-12-31") && IsFullDate("1001-12-31")
    ensures FiscalYear("1000-12-31").Err? && FiscalYear("1001-12-31").Ok?
  {
    hide FiscalYear;
    hide IsFullDate;
    DateTextReadsBack(Date(1000, 12, 31));
    DateTextReadsBack(Date(1001, 12, 31));
    YearEndTexts();
    FiscalYearExistsIff("1000-12-31");
    FiscalYearExistsIff("1001-12-31");
  }

  lemma YearEndTexts()
    ensures DateText(Date(1000, 12, 31)) == "1000-12-31" && DateText(Date(1001, 12, 31)) == "1001-12-31"
  {
    hide Digits.Pad;
    PaddedTwelveAndThirtyOne();
    PaddedYears();
  }

  lemma PaddedTwelveAndThirtyOne()
    ensures Digits.Pad(12, 2) == "12" && Digits.Pad(31, 2) == "31"
  {
  }

  lemma PaddedYears()
    ensures Digits.Pad(1000, 4) == "1000" && Digits.Pad(1001, 4) == "1001"
  {
    assert Digits.Pad(10, 2) == "10" && Digits.Pad(100, 3) == "100";
  }
}
