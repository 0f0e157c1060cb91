/**
 * The compatibility reading of `sentinel.ts`: six forms of earlier revisions read, in
 * place, as today's. `CompatibilityReading` is the object being read together with the
 * report; each of its methods does what one reader does, and is proved against the
 * function of that name. A rescaled score is the exact quotient.
 */
module Sentinel {
  import Digits
  import opened JsonRecords
  import opened JsonValues
  import opened Periods
  import opened Texts
  import opened Tokens
  import opened Wrappers

  const LABEL := TextOf("reporting-period")
  const PERIOD := TextOf("period")
  const START := TextOf("start")
  const END := TextOf("end")
  const EXTENSIONS := TextOf("extensions")
  const FISCAL_YEAR_EXTENSION := TextOf("urn:uuid:58f04ecf-c558-4674-8dc6-c8bdbb6a8041")
  const FISCAL_YEAR_BASIS := TextOf("reporting-period-basis")
  const METHOD := TextOf("measurement-method")
  const FUNCTIONAL_UNIT := TextOf("functional-unit")
  const SCI_SCORE := TextOf("sci-score")
  const CARBON_UNIT := TextOf("carbon-unit")
  const UPSTREAM := TextOf("upstream")
  const ROLE := TextOf("role")
  const TARGET_TYPE := TextOf("target-type")

  /** A member that was read, as the report names it. */
  datatype Reported = Period | MeasurementMethod | FunctionalUnit | SciScore | CarbonUnit | Role(entry: nat) | TargetType

  datatype Path = Path(prefix: string, member: Reported)

  /** What one reader, or all of them, did to an object. */
  datatype Outcome = Outcome(rec: seq<Member>, converted: seq<Reported>, disregarded: seq<Reported>)

  predicate DidNothing(rec: seq<Member>, o: Outcome) {
    o == Outcome(rec, [], [])
  }

  function StringIn(v: Option<Json>): Option<Text> {
    if v.Some? && v.value.String? then Some(v.value.s) else None
  }

  // ---- The period ----

  function PeriodValue(p: Periods.Period): Json {
    Object([Member(START, String(TextOf(p.start))), Member(END, String(TextOf(p.end)))])
  }

  function FullDateIn(v: Option<Json>): Option<string> {
    var s := StringIn(v);
    if s.None? then None else
    var text := StringOf(s.value);
    if text.Some? && IsFullDate(text.value) then text else None
  }

  /** The full-date of a stated fiscal year: `fiscal-year-ended-` and its last day. */
  function FiscalYearEnd(rec: seq<Member>): (end: Option<string>)
    ensures end.Some? ==> IsFullDate(end.value)
  {
    var extensions := Own(rec, EXTENSIONS);
    if extensions.None? || !extensions.value.Object? then None else
    var extension := Own(extensions.value.members, FISCAL_YEAR_EXTENSION);
    if extension.None? || !extension.value.Object? then None else
    var basis := StringIn(Own(extension.value.members, FISCAL_YEAR_BASIS));
    if basis.None? then None else
    var text, stem := StringOf(basis.value), "fiscal-year-ended-";
    if text.None? || !StartsWith(text.value, stem) || !IsFullDate(text.value[|stem|..]) then None
    else Some(text.value[|stem|..])
  }

  /**
   * The year whose last day is `end`. The year before is written without leading zeros, so below 1000 it gives
   * no full-date.
   */
  function FiscalYear(end: string): Result<Periods.Period, PeriodError>
    requires IsFullDate(end)
  {
    var year, month, day := Digits.Number(end[..4]) - 1, end[5..7], end[8..];
    if year < 1000 then Err(CalendarLabel) else
    var before := DayPeriod(Digits.Pad(year, 4) + "-" + month + "-" + (if month == "02" && day == "29" then "28" else day), 0);
    if before.Err? then before else
    var last := DayPeriod(end, 0);
    if last.Err? then last else Ok(Periods.Period(before.value.end, last.value.end))
  }

  function LabelPeriod(stated: Text): Result<Periods.Period, PeriodError> {
    var text := StringOf(stated);
    if text.None? then Err(CalendarLabel) else PeriodFromReportingPeriod(text.value, 0)
  }

  /** The extensions once the basis is taken out, together with its extension if nothing else is left in it. */
  function WithoutBasis(extensions: seq<Member>): seq<Member> {
    var extension := Own(extensions, FISCAL_YEAR_EXTENSION);
    var rest := if extension.Some? && extension.value.Object? then Remove(extension.value.members, FISCAL_YEAR_BASIS) else [];
    var others := Remove(extensions, FISCAL_YEAR_EXTENSION);
    if rest != [] then others + [Member(FISCAL_YEAR_EXTENSION, Object(rest))] else others
  }

  function DropFiscalYearBasis(rec: seq<Member>): seq<Member> {
    var extensions := Own(rec, EXTENSIONS);
    var kept := if extensions.Some? && extensions.value.Object? then WithoutBasis(extensions.value.members) else [];
    if kept != [] then Put(rec, EXTENSIONS, Object(kept)) else Remove(rec, EXTENSIONS)
  }

  /** The period a label stands for, alone or beside a stated fiscal year of the same year. */
  function PeriodStated(rec: seq<Member>, stated: Text): Option<Periods.Period> {
    var end := FiscalYearEnd(rec);
    var read := if end.None? then LabelPeriod(stated)
      else if stated != TextOf(end.value[..4]) then Err(CalendarLabel)
      else FiscalYear(end.value);
    if read.Ok? then Some(read.value) else None
  }

  /** The period two inclusive full-dates stand for. */
  function PeriodOfDates(period: Json): Option<Periods.Period> {
    if !period.Object? then None else
    var first, last := FullDateIn(Own(period.members, START)), FullDateIn(Own(period.members, END));
    if first.None? || last.None? then None else
    var read := PeriodFromFullDates(first.value, last.value, 0);
    if read.Ok? then Some(read.value) else None
  }

  function ReadPeriod(rec: seq<Member>): Outcome {
    var stated, period := StringIn(Own(rec, LABEL)), Own(rec, PERIOD);
    if period.None? then
      if stated.None? then Outcome(rec, [], []) else
      var read := PeriodStated(rec, stated.value);
      if read.None? then Outcome(rec, [], []) else
      var replaced := Replace(rec, LABEL, Member(PERIOD, PeriodValue(read.value)));
      Outcome(if FiscalYearEnd(rec).Some? then DropFiscalYearBasis(replaced) else replaced, [Reported.Period], [])
    else
      var read := PeriodOfDates(period.value);
      if read.None? then Outcome(rec, [], []) else Outcome(Put(rec, PERIOD, PeriodValue(read.value)), [Reported.Period], [])
  }

  // ---- The other readers ----

  function ReadMeasurementMethod(rec: seq<Member>): Outcome {
    var stated := StringIn(Own(rec, METHOD));
    if stated.None? || IsMeasurementMethod(stated.value) then Outcome(rec, [], [])
    else Outcome(Put(rec, METHOD, String(TextOf(MethodToken(RESIDUAL_METHOD)))), [], [MeasurementMethod])
  }

  function ReadFunctionalUnit(rec: seq<Member>): Outcome {
    var unit, score := StringIn(Own(rec, FUNCTIONAL_UNIT)), Own(rec, SCI_SCORE);
    if unit.None? || IsFunctionalUnit(unit.value) then Outcome(rec, [], []) else
    var read := LegacyFunctionalUnit(unit.value);
    if read.None? then
      var without := Remove(rec, FUNCTIONAL_UNIT);
      if score.None? then Outcome(without, [], [FunctionalUnit])
      else Outcome(Remove(without, SCI_SCORE), [], [FunctionalUnit, SciScore])
    else
      var renamed := Put(rec, FUNCTIONAL_UNIT, String(TextOf(FunctionalUnitToken(read.value.unit))));
      if score.Some? && score.value.Number? then
        Outcome(Put(renamed, SCI_SCORE, Number(score.value.n / (read.value.factor as real))), [FunctionalUnit], [])
      else Outcome(renamed, [FunctionalUnit], [])
  }

  function ReadCarbonUnit(rec: seq<Member>): Outcome {
    var unit := StringIn(Own(rec, CARBON_UNIT));
    if unit.None? || LegacyCarbonUnit(unit.value).None? then Outcome(rec, [], [])
    else Outcome(Put(rec, CARBON_UNIT, String(LegacyCarbonUnit(unit.value).value)), [CarbonUnit], [])
  }

  predicate HasOldRole(entry: Json) {
    entry.Object? && StringIn(Own(entry.members, ROLE)).Some? && !IsUpstreamRole(StringIn(Own(entry.members, ROLE)).value)
  }

  function ReadEntry(entry: Json): Json {
    if HasOldRole(entry) then Object(Remove(entry.members, ROLE)) else entry
  }

  /** The first `n` entries, read, and the rest as they are. */
  function ReadEntries(entries: seq<Json>, n: nat): (r: seq<Json>)
    requires n <= |entries|
    ensures |r| == |entries|
    ensures forall i :: 0 <= i < |entries| ==> r[i] == if i < n then ReadEntry(entries[i]) else entries[i]
  {
    if n == 0 then entries else ReadEntries(entries, n - 1)[n - 1 := ReadEntry(entries[n - 1])]
  }

  function OldRoles(entries: seq<Json>, n: nat): (r: seq<Reported>)
    requires n <= |entries|
    ensures r == [] <==> forall i :: 0 <= i < n ==> !HasOldRole(entries[i])
  {
    if n == 0 then [] else OldRoles(entries, n - 1) + (if HasOldRole(entries[n - 1]) then [Role(n - 1)] else [])
  }

  function ReadRoles(rec: seq<Member>): Outcome {
    var upstream := Own(rec, UPSTREAM);
    if upstream.None? || !upstream.value.Array? then Outcome(rec, [], []) else
    var entries := upstream.value.items;
    var reported := OldRoles(entries, |entries|);
    if reported == [] then Outcome(rec, [], [])
    else Outcome(Put(rec, UPSTREAM, Array(ReadEntries(entries, |entries|))), [], reported)
  }

  function ReadTargetType(rec: seq<Member>): Outcome {
    var hint := StringIn(Own(rec, TARGET_TYPE));
    if hint.None? || IsTargetType(hint.value) then Outcome(rec, [], [])
    else Outcome(Remove(rec, TARGET_TYPE), [], [TargetType])
  }

  // ---- The whole reading ----

  function After(before: Outcome, next: Outcome): Outcome {
    Outcome(next.rec, before.converted + next.converted, before.disregarded + next.disregarded)
  }

  function Read(rec: seq<Member>): Outcome {
    var afterPeriod := ReadPeriod(rec);
    var afterMethod := After(afterPeriod, ReadMeasurementMethod(afterPeriod.rec));
    var afterUnit := After(afterMethod, ReadFunctionalUnit(afterMethod.rec));
    var afterCarbon := After(afterUnit, ReadCarbonUnit(afterUnit.rec));
    var afterRoles := After(afterCarbon, ReadRoles(afterCarbon.rec));
    After(afterRoles, ReadTargetType(afterRoles.rec))
  }

  function Prefixed(prefix: string, members: seq<Reported>): (paths: seq<Path>)
    ensures |paths| == |members| && forall i :: 0 <= i < |paths| ==> paths[i] == Path(prefix, members[i])
  {
    seq(|members|, i requires 0 <= i < |members| => Path(prefix, members[i]))
  }

  lemma PrefixedAppend(prefix: string, a: seq<Reported>, b: seq<Reported>)
    ensures Prefixed(prefix, a + b) == Prefixed(prefix, a) + Prefixed(prefix, b)
  {
  }

  lemma NoEntriesRead(prefix: string, entries: seq<Json>)
    ensures ReadEntries(entries, 0) == entries && OldRoles(entries, 0) == [] && Prefixed(prefix, []) == []
  {
  }

  lemma NothingToRead(entries: seq<Json>)
    requires OldRoles(entries, |entries|) == []
    ensures ReadEntries(entries, |entries|) == entries
  {
    hide HasOldRole;
  }

  lemma EntryStep(prefix: string, entries: seq<Json>, i: nat)
    requires i < |entries|
    ensures ReadEntries(entries, i + 1)
      == if HasOldRole(entries[i]) then ReadEntries(entries, i)[i := ReadEntry(entries[i])] else ReadEntries(entries, i)
    ensures Prefixed(prefix, OldRoles(entries, i + 1))
      == Prefixed(prefix, OldRoles(entries, i)) + (if HasOldRole(entries[i]) then [Path(prefix, Role(i))] else [])
  {
    hide HasOldRole;
    hide Prefixed;
    PrefixedAppend(prefix, OldRoles(entries, i), if HasOldRole(entries[i]) then [Role(i)] else []);
    assert Prefixed(prefix, [Role(i)]) == [Path(prefix, Role(i))];
    assert ReadEntries(entries, i)[i := entries[i]] == ReadEntries(entries, i);
  }

  class CompatibilityReading {
    const prefix: string
    var members: seq<Member>
    var converted: seq<Path>
    var disregarded: seq<Path>

    constructor (prefix: string, members: seq<Member>, converted: seq<Path>, disregarded: seq<Path>)
      ensures this.prefix == prefix && this.members == members
      ensures this.converted == converted && this.disregarded == disregarded
    {
      this.prefix := prefix;
      this.members := members;
      this.converted := converted;
      this.disregarded := disregarded;
    }

    /** The object and the report after what `o` says was done, from the lists as they were before. */
    ghost predicate Reached(convertedBefore: seq<Path>, disregardedBefore: seq<Path>, o: Outcome)
      reads this
    {
      && members == o.rec
      && converted == convertedBefore + Prefixed(prefix, o.converted)
      && disregarded == disregardedBefore + Prefixed(prefix, o.disregarded)
    }

    /** What was reached by one more reader was reached from the start. */
    lemma ReachedFrom(start: seq<Path>, dropped: seq<Path>, c: seq<Path>, d: seq<Path>, before: Outcome, next: Outcome)
      requires c == start + Prefixed(prefix, before.converted) && d == dropped + Prefixed(prefix, before.disregarded)
      requires Reached(c, d, next)
      ensures Reached(start, dropped, After(before, next))
    {
      hide Prefixed;
      PrefixedAppend(prefix, before.converted, next.converted);
      PrefixedAppend(prefix, before.disregarded, next.disregarded);
    }

    method ReadPeriodMember()
      modifies this
      ensures Reached(old(converted), old(disregarded), ReadPeriod(old(members)))
    {
      hide StringIn;
      hide PeriodStated;
      hide PeriodOfDates;
      hide DropFiscalYearBasis;
      hide FiscalYearEnd;
      hide PeriodValue;
      var stated, period := StringIn(Own(members, LABEL)), Own(members, PERIOD);
      if period.None? && stated.Some? {
        var read := PeriodStated(members, stated.value);
        if read.None? {
          return;
        }
        var fiscal := FiscalYearEnd(members);
        members := Replace(members, LABEL, Member(PERIOD, PeriodValue(read.value)));
        if fiscal.Some? {
          members := DropFiscalYearBasis(members);
        }
      } else if period.Some? {
        var read := PeriodOfDates(period.value);
        if read.None? {
          return;
        }
        members := Put(members, PERIOD, PeriodValue(read.value));
      } else {
        return;
      }
      converted := converted + [Path(prefix, Reported.Period)];
    }

    method ReadMethodMember()
      modifies this
      ensures Reached(old(converted), old(disregarded), ReadMeasurementMethod(old(members)))
    {
      var stated := StringIn(Own(members, METHOD));
      if stated.None? || IsMeasurementMethod(stated.value) {
        return;
      }
      members := Put(members, METHOD, String(TextOf(MethodToken(RESIDUAL_METHOD))));
      disregarded := disregarded + [Path(prefix, MeasurementMethod)];
    }

    method ReadFunctionalUnitMember()
      modifies this
      ensures Reached(old(converted), old(disregarded), ReadFunctionalUnit(old(members)))
    {
      hide LegacyFunctionalUnit;
      hide IsFunctionalUnit;
      hide StringIn;
      var unit := StringIn(Own(members, FUNCTIONAL_UNIT));
      if unit.None? || IsFunctionalUnit(unit.value) {
        return;
      }
      var score := Own(members, SCI_SCORE);
      var read := LegacyFunctionalUnit(unit.value);
      if read.None? {
        members := Remove(members, FUNCTIONAL_UNIT);
        disregarded := disregarded + [Path(prefix, FunctionalUnit)];
        if score.Some? {
          members := Remove(members, SCI_SCORE);
          disregarded := disregarded + [Path(prefix, SciScore)];
        }
        return;
      }
      members := Put(members, FUNCTIONAL_UNIT, String(TextOf(FunctionalUnitToken(read.value.unit))));
      if score.Some? && score.value.Number? {
        members := Put(members, SCI_SCORE, Number(score.value.n / (read.value.factor as real)));
      }
      converted := converted + [Path(prefix, FunctionalUnit)];
    }

    method ReadCarbonUnitMember()
      modifies this
      ensures Reached(old(converted), old(disregarded), ReadCarbonUnit(old(members)))
    {
      hide LegacyCarbonUnit;
      var unit := StringIn(Own(members, CARBON_UNIT));
      if unit.None? || LegacyCarbonUnit(unit.value).None? {
        return;
      }
      members := Put(members, CARBON_UNIT, String(LegacyCarbonUnit(unit.value).value));
      converted := converted + [Path(prefix, CarbonUnit)];
    }

    method ReadRolesOf(entries: seq<Json>) returns (read: seq<Json>)
      modifies this`disregarded
      ensures read == ReadEntries(entries, |entries|)
      ensures disregarded == old(disregarded) + Prefixed(prefix, OldRoles(entries, |entries|))
    {
      hide HasOldRole;
      hide OldRoles;
      hide ReadEntries;
      hide Prefixed;
      NoEntriesRead(prefix, entries);
      read := entries;
      for i := 0 to |entries|
        invariant read == ReadEntries(entries, i)
        invariant disregarded == old(disregarded) + Prefixed(prefix, OldRoles(entries, i))
      {
        EntryStep(prefix, entries, i);
        if HasOldRole(entries[i]) {
          read := read[i := ReadEntry(entries[i])];
          disregarded := disregarded + [Path(prefix, Role(i))];
        }
      }
    }

    method ReadRoleMembers()
      modifies this
      ensures Reached(old(converted), old(disregarded), ReadRoles(old(members)))
    {
      hide HasOldRole;
      hide OldRoles;
      hide ReadEntry;
      hide Put;
      hide Own;
      var upstream := Own(members, UPSTREAM);
      if upstream.None? || !upstream.value.Array? {
        return;
      }
      var entries := upstream.value.items;
      var read := ReadRolesOf(entries);
      if OldRoles(entries, |entries|) == [] {
        NothingToRead(entries);
        PutSame(members, UPSTREAM);
      }
      members := Put(members, UPSTREAM, Array(read));
    }

    method ReadTargetTypeMember()
      modifies this
      ensures Reached(old(converted), old(disregarded), ReadTargetType(old(members)))
    {
      var hint := StringIn(Own(members, TARGET_TYPE));
      if hint.None? || IsTargetType(hint.value) {
        return;
      }
      members := Remove(members, TARGET_TYPE);
      disregarded := disregarded + [Path(prefix, TargetType)];
    }

    /** The six readers, one after another. */
    method Apply()
      modifies this
      ensures Reached(old(converted), old(disregarded), Read(old(members)))
    {
      hide ReadPeriod;
      hide ReadMeasurementMethod;
      hide ReadFunctionalUnit;
      hide ReadCarbonUnit;
      hide ReadRoles;
      hide ReadTargetType;
      hide Prefixed;
      hide After;
      ghost var start, dropped := converted, disregarded;
      ReadPeriodMember();
      ghost var o := ReadPeriod(old(members));
      ghost var c, d := converted, disregarded;
      ReadMethodMember();
      ReachedFrom(start, dropped, c, d, o, ReadMeasurementMethod(o.rec));
      o, c, d := After(o, ReadMeasurementMethod(o.rec)), converted, disregarded;
      ReadFunctionalUnitMember();
      ReachedFrom(start, dropped, c, d, o, ReadFunctionalUnit(o.rec));
      o, c, d := After(o, ReadFunctionalUnit(o.rec)), converted, disregarded;
      ReadCarbonUnitMember();
      ReachedFrom(start, dropped, c, d, o, ReadCarbonUnit(o.rec));
      o, c, d := After(o, ReadCarbonUnit(o.rec)), converted, disregarded;
      ReadRoleMembers();
      ReachedFrom(start, dropped, c, d, o, ReadRoles(o.rec));
      o, c, d := After(o, ReadRoles(o.rec)), converted, disregarded;
      ReadTargetTypeMember();
      ReachedFrom(start, dropped, c, d, o, ReadTargetType(o.rec));
    }
  }
}
