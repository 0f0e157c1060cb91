/**
 * What the compatibility reading makes of the members other than the period, told from
 * the members served: methods, units and scores, roles and target types.
 */
module SentinelTokens {
  import opened JsonRecords
  import opened JsonValues
  import opened LegacyUnits
  import opened Sentinel
  import opened SentinelProofs
  import opened Texts
  import opened Tokens
  import opened Wrappers

  // ---- Each reader reads its own members, whatever ran before it ----

  /** A reader after the first gives its members what depends on them alone. */
  lemma ReaderGives(k: Reader, a: seq<Member>, b: seq<Member>, name: Text)
    requires k > 0 && name in Concerns(k) && forall n :: n in Concerns(k) ==> Own(a, n) == Own(b, n)
    ensures Own(ReadBy(k, a).rec, name) == Own(ReadBy(k, b).rec, name)
    ensures ReadBy(k, a).disregarded == ReadBy(k, b).disregarded && ReadBy(k, a).converted == ReadBy(k, b).converted
  {
    hide Own;
    hide Put;
    hide Remove;
    hide OldRoles;
    hide ReadEntries;
    hide LegacyFunctionalUnit;
    hide StringIn;
    hide IsTargetType;
    hide IsMeasurementMethod;
    hide IsFunctionalUnit;
    hide LegacyCarbonUnit;
    hide MethodToken;
    hide FunctionalUnitToken;
    hide TextOf;
    assert forall n :: n in Concerns(k) ==> Own(a, n) == Own(b, n);
    forall members, n: Text, value ensures Own(Put(members, n, value), name) == if name == n then Some(value) else Own(members, name) {
      OwnOfPut(members, n, value, name);
    }
    forall members, n: Text ensures Own(Remove(members, n), name) == if name == n then None else Own(members, name) {
      OwnOfRemove(members, n, name);
    }
  }

  lemma {:induction false} EarlierReadersLeave(rec: seq<Member>, n: nat, k: Reader, name: Text)
    requires n <= k && name in Concerns(k)
    ensures Own(FirstReaders(rec, n).rec, name) == Own(rec, name)
  {
    hide ReadBy;
    hide Own;
    hide Concerns;
    hide Chief;
    if n > 0 {
      var last: Reader := n - 1;
      EarlierReadersLeave(rec, n - 1, k, name);
      EachReader(last, FirstReaders(rec, n - 1).rec);
      ConcernsAreApart(k, last, name);
    }
  }

  lemma {:induction false} ReadersGive(rec: seq<Member>, n: nat, k: Reader, name: Text)
    requires 0 < k < n <= 6 && name in Concerns(k)
    ensures Own(FirstReaders(rec, n).rec, name) == Own(ReadBy(k, rec).rec, name)
  {
    hide ReadBy;
    hide Own;
    hide Concerns;
    hide Chief;
    var last: Reader := n - 1;
    var before := FirstReaders(rec, n - 1);
    if last == k {
      forall m | m in Concerns(k) ensures Own(before.rec, m) == Own(rec, m) {
        EarlierReadersLeave(rec, n - 1, k, m);
      }
      ReaderGives(k, before.rec, rec, name);
    } else {
      ReadersGive(rec, n - 1, k, name);
      EachReader(last, before.rec);
      ConcernsAreApart(k, last, name);
    }
  }

  /** After the whole reading a member is as its own reader leaves the object served. */
  lemma ReadByItsReader(rec: seq<Member>, k: Reader, name: Text)
    requires k > 0 && name in Concerns(k)
    ensures Own(Read(rec).rec, name) == Own(ReadBy(k, rec).rec, name)
  {
    hide Read;
    hide ReadBy;
    hide Own;
    hide Concerns;
    hide FirstReaders;
    ReadIsSixReaders(rec);
    ReadersGive(rec, 6, k, name);
  }

  // ---- Methods, target types, carbon units ----

  predicate IsOtherString(v: Option<Json>, isToken: Text -> bool) {
    v.Some? && v.value.String? && !isToken(v.value.s)
  }

  lemma MethodIsRead(rec: seq<Member>)
    ensures Own(ReadBy(1, rec).rec, METHOD) ==
      if IsOtherString(Own(rec, METHOD), IsMeasurementMethod) then Some(String(TextOf("third-party-modeled"))) else Own(rec, METHOD)
  {
    hide Own;
    hide Put;
    hide IsMeasurementMethod;
    hide TextOf;
    OwnOfPut(rec, METHOD, String(TextOf("third-party-modeled")), METHOD);
  }

  lemma CarbonUnitIsRead(rec: seq<Member>)
    ensures Own(ReadBy(3, rec).rec, CARBON_UNIT) ==
      if Own(rec, CARBON_UNIT) == Some(String(TextOf("mtCO2e"))) then Some(String(TextOf("tCO2e"))) else Own(rec, CARBON_UNIT)
  {
    hide Own;
    hide Put;
    hide TextOf;
    OwnOfPut(rec, CARBON_UNIT, String(TextOf("tCO2e")), CARBON_UNIT);
  }

  lemma TargetTypeIsRead(rec: seq<Member>)
    ensures Own(ReadBy(5, rec).rec, TARGET_TYPE) ==
      if IsOtherString(Own(rec, TARGET_TYPE), IsTargetType) then None else Own(rec, TARGET_TYPE)
  {
    hide Own;
    hide Remove;
    hide IsTargetType;
    hide TextOf;
    OwnOfRemove(rec, TARGET_TYPE, TARGET_TYPE);
  }

  /** A method that is no token becomes the residual one, a target type that is none is dropped, and a tonne is respelt. */
  lemma TokensAreRead(rec: seq<Member>)
    ensures var read := Read(rec).rec;
      && Own(read, METHOD) == (if IsOtherString(Own(rec, METHOD), IsMeasurementMethod)
                               then Some(String(TextOf("third-party-modeled"))) else Own(rec, METHOD))
      && Own(read, TARGET_TYPE) == (if IsOtherString(Own(rec, TARGET_TYPE), IsTargetType) then None else Own(rec, TARGET_TYPE))
      && Own(read, CARBON_UNIT) == (if Own(rec, CARBON_UNIT) == Some(String(TextOf("mtCO2e")))
                                    then Some(String(TextOf("tCO2e"))) else Own(rec, CARBON_UNIT))
  {
    hide Read;
    hide ReadBy;
    hide Own;
    hide IsOtherString;
    hide TextOf;
    ReadByItsReader(rec, 1, METHOD);
    ReadByItsReader(rec, 3, CARBON_UNIT);
    ReadByItsReader(rec, 5, TARGET_TYPE);
    MethodIsRead(rec);
    CarbonUnitIsRead(rec);
    TargetTypeIsRead(rec);
  }

  // ---- Roles ----

  /** An entry without its role where that is a string and no token; all else as it was. */
  ghost predicate IsReadEntry(read: Json, served: Json) {
    if served.Object? && IsOtherString(Own(served.members, ROLE), IsUpstreamRole) then
      && read.Object? && Own(read.members, ROLE).None?
      && forall name :: name != ROLE ==> Own(read.members, name) == Own(served.members, name)
    else read == served
  }

  /** The upstream entries stay, in order, each read so; what is no array stays as it is. */
  lemma RolesAreRead(rec: seq<Member>)
    ensures var served, read := Own(rec, UPSTREAM), Own(Read(rec).rec, UPSTREAM);
      if served.Some? && served.value.Array? then
        && read.Some? && read.value.Array? && |read.value.items| == |served.value.items|
        && forall i :: 0 <= i < |served.value.items| ==> IsReadEntry(read.value.items[i], served.value.items[i])
      else read == served
  {
    ReadByItsReader(rec, 4, UPSTREAM);
    hide Read;
    hide Put;
    hide IsReadEntry;
    var served := Own(rec, UPSTREAM);
    hide Own;
    if served.Some? && served.value.Array? {
      var entries := served.value.items;
      forall i | 0 <= i < |entries| ensures IsReadEntry(ReadEntry(entries[i]), entries[i]) {
        EntryReadsSo(entries[i]);
      }
      if OldRoles(entries, |entries|) == [] {
        NothingOld(entries);
      }
      hide OldRoles;
      hide ReadEntry;
      PutChangesOnly(rec, UPSTREAM, Array(ReadEntries(entries, |entries|)));
      hide ReadEntries;
    }
  }

  lemma NothingOld(entries: seq<Json>)
    requires OldRoles(entries, |entries|) == []
    ensures forall i :: 0 <= i < |entries| ==> ReadEntry(entries[i]) == entries[i]
  {
    hide HasOldRole;
  }

  lemma EntryReadsSo(entry: Json)
    ensures IsReadEntry(ReadEntry(entry), entry)
  {
    hide Own;
    hide IsUpstreamRole;
    if HasOldRole(entry) {
      RemoveChangesOnly(entry.members, ROLE);
    }
  }

  // ---- Functional units and their scores ----

  /**
   * A functional unit that is no token: an older spelling of one becomes that token and a score that is a number is
   * divided by its factor; any other is dropped, with its score. Otherwise both stay as served.
   */
  lemma UnitsAreRead(rec: seq<Member>)
    ensures var unit, score := Own(rec, FUNCTIONAL_UNIT), Own(rec, SCI_SCORE);
      var read := Read(rec).rec;
      if !IsOtherString(unit, IsFunctionalUnit) then Own(read, FUNCTIONAL_UNIT) == unit && Own(read, SCI_SCORE) == score
      else
        && (forall legacy :: IsLegacy(unit.value.s, legacy) ==>
              && Own(read, FUNCTIONAL_UNIT) == Some(String(TextOf(FunctionalUnitToken(legacy.unit))))
              && IsRescaled(Own(read, SCI_SCORE), score, legacy.factor))
        && ((forall legacy :: !IsLegacy(unit.value.s, legacy)) ==> Own(read, FUNCTIONAL_UNIT).None? && Own(read, SCI_SCORE).None?)
  {
    ReadByItsReader(rec, 2, FUNCTIONAL_UNIT);
    ReadByItsReader(rec, 2, SCI_SCORE);
    NamesDiffer();
    hide Read;
    hide Own;
    hide Put;
    hide Remove;
    hide IsFunctionalUnit;
    hide LegacyFunctionalUnit;
    hide IsLegacy;
    hide TextOf;
    var unit := Own(rec, FUNCTIONAL_UNIT);
    if IsOtherString(unit, IsFunctionalUnit) {
      var read := LegacyFunctionalUnit(unit.value.s);
      LegacyIff(unit.value.s);
      UnitGives(rec);
    }
  }

  ghost predicate IsLegacy(t: Text, legacy: LegacyUnit) {
    StringOf(t).Some? && Spells(Lower(StringOf(t).value), legacy)
  }

  lemma LegacyIff(t: Text)
    ensures forall legacy :: LegacyFunctionalUnit(t) == Some(legacy) <==> IsLegacy(t, legacy)
    ensures LegacyFunctionalUnit(t).Some? ==> IsLegacy(t, LegacyFunctionalUnit(t).value)
  {
    hide LegacyFunctionalUnit;
    hide Spells;
    hide Lower;
    hide StringOf;
    forall legacy ensures LegacyFunctionalUnit(t) == Some(legacy) <==> IsLegacy(t, legacy) {
      LegacyUnitIff(t, legacy);
    }
  }

  /** A number is divided by the factor, exactly; anything else stays. */
  predicate IsRescaled(read: Option<Json>, score: Option<Json>, factor: int) {
    if score.Some? && score.value.Number? then
      read.Some? && read.value.Number? && read.value.n * (factor as real) == score.value.n
    else read == score
  }

  lemma UnitGives(rec: seq<Member>)
    requires IsOtherString(Own(rec, FUNCTIONAL_UNIT), IsFunctionalUnit)
    ensures var legacy := LegacyFunctionalUnit(Own(rec, FUNCTIONAL_UNIT).value.s);
      var read := ReadFunctionalUnit(rec).rec;
      if legacy.None? then Own(read, FUNCTIONAL_UNIT).None? && Own(read, SCI_SCORE).None?
      else Own(read, FUNCTIONAL_UNIT) == Some(String(TextOf(FunctionalUnitToken(legacy.value.unit))))
           && IsRescaled(Own(read, SCI_SCORE), Own(rec, SCI_SCORE), legacy.value.factor)
  {
    hide Own;
    hide Put;
    hide Remove;
    hide FunctionalUnitToken;
    hide LegacyFunctionalUnit;
    hide IsFunctionalUnit;
    hide TextOf;
    assert FUNCTIONAL_UNIT != SCI_SCORE by {
      NamesDiffer();
    }
    var score := Own(rec, SCI_SCORE);
    var legacy := LegacyFunctionalUnit(Own(rec, FUNCTIONAL_UNIT).value.s);
    if legacy.Some? {
      var value := String(TextOf(FunctionalUnitToken(legacy.value.unit)));
      PutChangesOnly(rec, FUNCTIONAL_UNIT, value);
      if score.Some? && score.value.Number? {
        var quotient := score.value.n / (legacy.value.factor as real);
        PutChangesOnly(Put(rec, FUNCTIONAL_UNIT, value), SCI_SCORE, Json.Number(quotient));
        Quotient(score.value.n, legacy.value.factor as real);
      }
    } else {
      RemoveChangesOnly(rec, FUNCTIONAL_UNIT);
      RemoveChangesOnly(Remove(rec, FUNCTIONAL_UNIT), SCI_SCORE);
    }
  }

  // ---- The report ----

  function ConvertedBy(rec: seq<Member>, n: nat): seq<Reported>
    requires n <= 6
  {
    if n == 0 then [] else ConvertedBy(rec, n - 1) + ReadBy(n - 1, rec).converted
  }

  function DisregardedBy(rec: seq<Member>, n: nat): seq<Reported>
    requires n <= 6
  {
    if n == 0 then [] else DisregardedBy(rec, n - 1) + ReadBy(n - 1, rec).disregarded
  }

  /** Each reader reports what it would of the object served. */
  lemma {:induction false} ReportsAddUp(rec: seq<Member>, n: nat)
    requires n <= 6
    ensures FirstReaders(rec, n).converted == ConvertedBy(rec, n) && FirstReaders(rec, n).disregarded == DisregardedBy(rec, n)
  {
    hide ReadBy;
    hide Own;
    hide Concerns;
    hide Chief;
    if n > 0 {
      var last: Reader := n - 1;
      ReportsAddUp(rec, n - 1);
      if last > 0 {
        forall m | m in Concerns(last) ensures Own(FirstReaders(rec, n - 1).rec, m) == Own(rec, m) {
          EarlierReadersLeave(rec, n - 1, last, m);
        }
        ReaderGives(last, FirstReaders(rec, n - 1).rec, rec, Chief(last));
      } else {
        assert FirstReaders(rec, 0).rec == rec;
      }
    }
  }

  predicate IsOldRole(upstream: Option<Json>, i: nat) {
    && upstream.Some? && upstream.value.Array? && i < |upstream.value.items| && upstream.value.items[i].Object?
    && IsOtherString(Own(upstream.value.items[i].members, ROLE), IsUpstreamRole)
  }

  lemma {:induction false} OldRolesAre(entries: seq<Json>, n: nat, m: Reported)
    requires n <= |entries|
    ensures m in OldRoles(entries, n) <==> m.Role? && m.entry < n && IsOldRole(Some(Array(entries)), m.entry)
  {
    hide Own;
    hide IsUpstreamRole;
    if n > 0 {
      OldRolesAre(entries, n - 1, m);
    }
  }

  /** Whether a member is reported as converted; the period is where `ServedPeriodIsRead` and its like tell. */
  ghost predicate IsConverted(rec: seq<Member>, m: Reported) {
    var unit := Own(rec, FUNCTIONAL_UNIT);
    match m
    case Period => Reported.Period in ReadPeriod(rec).converted
    case FunctionalUnit => IsOtherString(unit, IsFunctionalUnit) && exists legacy :: IsLegacy(unit.value.s, legacy)
    case CarbonUnit => Own(rec, CARBON_UNIT) == Some(String(TextOf("mtCO2e")))
    case _ => false
  }

  ghost predicate IsDisregarded(rec: seq<Member>, m: Reported) {
    var unit := Own(rec, FUNCTIONAL_UNIT);
    match m
    case MeasurementMethod => IsOtherString(Own(rec, METHOD), IsMeasurementMethod)
    case FunctionalUnit => IsOtherString(unit, IsFunctionalUnit) && forall legacy :: !IsLegacy(unit.value.s, legacy)
    case SciScore =>
      IsOtherString(unit, IsFunctionalUnit) && (forall legacy :: !IsLegacy(unit.value.s, legacy)) && Own(rec, SCI_SCORE).Some?
    case Role(i) => IsOldRole(Own(rec, UPSTREAM), i)
    case TargetType => IsOtherString(Own(rec, TARGET_TYPE), IsTargetType)
    case _ => false
  }

  lemma UnitReports(rec: seq<Member>, m: Reported)
    ensures m in ReadFunctionalUnit(rec).converted <==> m.FunctionalUnit? && IsConverted(rec, m)
    ensures m in ReadFunctionalUnit(rec).disregarded <==> (m.FunctionalUnit? || m.SciScore?) && IsDisregarded(rec, m)
  {
    hide Own;
    hide Put;
    hide Remove;
    hide FunctionalUnitToken;
    hide LegacyFunctionalUnit;
    hide IsFunctionalUnit;
    hide IsLegacy;
    hide TextOf;
    hide ReadPeriod;
    var unit := Own(rec, FUNCTIONAL_UNIT);
    if IsOtherString(unit, IsFunctionalUnit) {
      LegacyIff(unit.value.s);
    }
  }

  lemma RolesReport(rec: seq<Member>, m: Reported)
    ensures m in ReadRoles(rec).disregarded <==> m.Role? && IsDisregarded(rec, m)
    ensures ReadRoles(rec).converted == []
  {
    hide Put;
    hide ReadEntries;
    hide OldRoles;
    hide IsOldRole;
    var upstream := Own(rec, UPSTREAM);
    hide Own;
    if upstream.Some? && upstream.value.Array? {
      OldRolesAre(upstream.value.items, |upstream.value.items|, m);
      if m.Role? {
        OldRoleIsEntry(upstream, m.entry);
      }
      assert upstream == Some(Array(upstream.value.items));
    } else {
      NoOldRole(upstream);
    }
  }

  lemma OldRoleIsEntry(upstream: Option<Json>, i: nat)
    ensures IsOldRole(upstream, i) ==> upstream.Some? && upstream.value.Array? && i < |upstream.value.items|
  {
    hide Own;
  }

  lemma NoOldRole(upstream: Option<Json>)
    requires upstream.None? || !upstream.value.Array?
    ensures forall i :: !IsOldRole(upstream, i)
  {
  }

  lemma TokensReport(rec: seq<Member>, m: Reported)
    ensures m in ReadMeasurementMethod(rec).disregarded <==> m.MeasurementMethod? && IsDisregarded(rec, m)
    ensures m in ReadCarbonUnit(rec).converted <==> m.CarbonUnit? && IsConverted(rec, m)
    ensures m in ReadTargetType(rec).disregarded <==> m.TargetType? && IsDisregarded(rec, m)
    ensures ReadMeasurementMethod(rec).converted == [] && ReadCarbonUnit(rec).disregarded == [] && ReadTargetType(rec).converted == []
  {
    hide Own;
    hide Put;
    hide Remove;
    hide IsMeasurementMethod;
    hide IsTargetType;
    hide IsFunctionalUnit;
    hide IsLegacy;
    hide TextOf;
    hide ReadPeriod;
    hide IsOldRole;
  }

  lemma PeriodReport(rec: seq<Member>, m: Reported)
    ensures m in ReadPeriod(rec).converted <==> m.Period? && IsConverted(rec, m)
    ensures ReadPeriod(rec).disregarded == []
  {
    hide Own;
    hide PeriodStated;
    hide PeriodOfDates;
    hide DropFiscalYearBasis;
    hide FiscalYearEnd;
    hide Replace;
    hide Put;
    hide TextOf;
    hide IsLegacy;
    hide IsFunctionalUnit;
  }

  /** The report names as converted and as disregarded exactly the members that are, of the object served. */
  lemma ReportIsExact(rec: seq<Member>, m: Reported)
    ensures m in Read(rec).converted <==> IsConverted(rec, m)
    ensures m in Read(rec).disregarded <==> IsDisregarded(rec, m)
  {
    hide Read;
    hide FirstReaders;
    hide ReadPeriod;
    hide ReadMeasurementMethod;
    hide ReadFunctionalUnit;
    hide ReadCarbonUnit;
    hide ReadRoles;
    hide ReadTargetType;
    ReadIsSixReaders(rec);
    ReportsAddUp(rec, 6);
    PeriodReport(rec, m);
    TokensReport(rec, m);
    UnitReports(rec, m);
    RolesReport(rec, m);
    NothingElse(rec, m);
    hide IsConverted;
    hide IsDisregarded;
    SixReports(rec, m);
  }

  lemma NothingElse(rec: seq<Member>, m: Reported)
    ensures IsConverted(rec, m) ==> m.Period? || m.FunctionalUnit? || m.CarbonUnit?
    ensures IsDisregarded(rec, m) ==> m.MeasurementMethod? || m.FunctionalUnit? || m.SciScore? || m.Role? || m.TargetType?
  {
    hide Own;
    hide ReadPeriod;
    hide IsLegacy;
    hide TextOf;
    hide IsOldRole;
  }

  lemma SixReports(rec: seq<Member>, m: Reported)
    ensures m in ConvertedBy(rec, 6) <==>
      || m in ReadPeriod(rec).converted || m in ReadMeasurementMethod(rec).converted || m in ReadFunctionalUnit(rec).converted
      || m in ReadCarbonUnit(rec).converted || m in ReadRoles(rec).converted || m in ReadTargetType(rec).converted
    ensures m in DisregardedBy(rec, 6) <==>
      || m in ReadPeriod(rec).disregarded || m in ReadMeasurementMethod(rec).disregarded || m in ReadFunctionalUnit(rec).disregarded
      || m in ReadCarbonUnit(rec).disregarded || m in ReadRoles(rec).disregarded || m in ReadTargetType(rec).disregarded
  {
    hide ReadPeriod;
    hide ReadMeasurementMethod;
    hide ReadFunctionalUnit;
    hide ReadCarbonUnit;
    hide ReadRoles;
    hide ReadTargetType;
    assert ConvertedBy(rec, 1) == ReadPeriod(rec).converted && DisregardedBy(rec, 1) == ReadPeriod(rec).disregarded;
    assert ConvertedBy(rec, 2) == ReadPeriod(rec).converted + ReadMeasurementMethod(rec).converted;
    assert DisregardedBy(rec, 2) == ReadPeriod(rec).disregarded + ReadMeasurementMethod(rec).disregarded;
    assert ConvertedBy(rec, 4) == ConvertedBy(rec, 2) + ReadFunctionalUnit(rec).converted + ReadCarbonUnit(rec).converted;
    assert DisregardedBy(rec, 4) == DisregardedBy(rec, 2) + ReadFunctionalUnit(rec).disregarded + ReadCarbonUnit(rec).disregarded;
    assert ConvertedBy(rec, 6) == ConvertedBy(rec, 4) + ReadRoles(rec).converted + ReadTargetType(rec).converted;
    assert DisregardedBy(rec, 6) == DisregardedBy(rec, 4) + ReadRoles(rec).disregarded + ReadTargetType(rec).disregarded;
  }
}
