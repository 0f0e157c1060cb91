/**
 * `total` of `transform.ts`: the figures of several objects for one target, added after
 * conversion to one unit, or refused. Figures are exact numbers; the rounding of a
 * finished sum to twelve digits is not part of this model.
 */
module Totals {
  import opened DateTimes
  import opened Periods
  import opened Sorting
  import opened Units
  import opened Wrappers

  datatype Metric = Energy | Carbon | Scope1 | Scope2 | Scope3

  /** A unit member: absent, one the consumer knows, or another value. */
  datatype Stated<U> = Absent | Known(unit: U) | Unknown

  datatype Obj = Obj(
    target: string,
    targetType: Option<string>,
    accounting: Option<string>,
    period: Period,
    figures: map<Metric, real>,
    energyUnit: Stated<EnergyUnit>,
    carbonUnit: Stated<CarbonUnit>)

  datatype Options = Options(
    energyUnit: Option<EnergyUnit>,
    carbonUnit: Option<CarbonUnit>,
    sameTarget: (string, string, Option<string>) -> bool)

  datatype Refusal = NoObjects | MixedTargets | MixedAccounting | OverlappingPeriods

  datatype Summary = Summary(
    target: string,
    targetType: Option<string>,
    accounting: Option<string>,
    period: Period,
    contiguous: bool,
    objects: nat,
    sums: map<Metric, real>,
    energyUnit: Option<Stated<EnergyUnit>>,
    carbonUnit: Option<Stated<CarbonUnit>>,
    incomplete: seq<Metric>,
    notSummable: seq<Metric>)

  const SUMMED: seq<Metric> := [Energy, Carbon, Scope1, Scope2, Scope3]

  predicate AreObjects(entries: seq<Obj>) {
    forall i :: 0 <= i < |entries| ==> IsPeriod(entries[i].period)
  }

  /** The order by start and then by end. */
  predicate PeriodLe(a: Obj, b: Obj) {
    IsPeriod(a.period) && IsPeriod(b.period) ==> ComparePeriodStart(a.period, b.period) <= 0
  }

  // ---- Figures ----

  /** Whether the object adds to the metric: below zero only a scope does. */
  predicate Reports(o: Obj, metric: Metric) {
    metric in o.figures && (metric.Scope1? || metric.Scope2? || metric.Scope3? || o.figures[metric] >= 0.0)
  }

  /** The figure in the unit of the total; none where either unit is one the consumer does not know. */
  function Part(o: Obj, metric: Metric, energyTo: Stated<EnergyUnit>, carbonTo: Stated<CarbonUnit>): Option<real>
    requires Reports(o, metric)
  {
    if metric == Energy then
      if o.energyUnit.Unknown? || !energyTo.Known? then None
      else Some(ConvertEnergy(o.figures[metric], if o.energyUnit.Known? then o.energyUnit.unit else KWh, energyTo.unit))
    else
      if o.carbonUnit.Unknown? || !carbonTo.Known? then None
      else Some(ConvertCarbon(o.figures[metric], if o.carbonUnit.Known? then o.carbonUnit.unit else G, carbonTo.unit))
  }

  predicate Summable(entries: seq<Obj>, metric: Metric, energyTo: Stated<EnergyUnit>, carbonTo: Stated<CarbonUnit>) {
    forall i :: 0 <= i < |entries| && Reports(entries[i], metric) ==> Part(entries[i], metric, energyTo, carbonTo).Some?
  }

  /** The exact sum of the converted figures. */
  function SumOf(entries: seq<Obj>, metric: Metric, energyTo: Stated<EnergyUnit>, carbonTo: Stated<CarbonUnit>): real {
    if entries == [] then 0.0 else
    var n := |entries| - 1;
    SumOf(entries[..n], metric, energyTo, carbonTo) + Contribution(entries[n], metric, energyTo, carbonTo)
  }

  function Contribution(o: Obj, metric: Metric, energyTo: Stated<EnergyUnit>, carbonTo: Stated<CarbonUnit>): real {
    if Reports(o, metric) then Part(o, metric, energyTo, carbonTo).GetOr(0.0) else 0.0
  }

  function HowManyReport(entries: seq<Obj>, metric: Metric): nat {
    if entries == [] then 0 else
    var n := |entries| - 1;
    HowManyReport(entries[..n], metric) + (if Reports(entries[n], metric) then 1 else 0)
  }

  /** The unit asked for, or that of the first object reporting energy, or kWh. */
  function EnergyUnitOf(sorted: seq<Obj>, options: Options): Stated<EnergyUnit> {
    if options.energyUnit.Some? then Known(options.energyUnit.value) else
    if sorted == [] then Known(KWh)
    else if Energy in sorted[0].figures then (if sorted[0].energyUnit.Absent? then Known(KWh) else sorted[0].energyUnit)
    else EnergyUnitOf(sorted[1..], options)
  }

  predicate HasCarbon(o: Obj) {
    Carbon in o.figures || Scope1 in o.figures || Scope2 in o.figures || Scope3 in o.figures
  }

  function CarbonUnitOf(sorted: seq<Obj>, options: Options): Stated<CarbonUnit> {
    if options.carbonUnit.Some? then Known(options.carbonUnit.value) else
    if sorted == [] then Known(G)
    else if HasCarbon(sorted[0]) then (if sorted[0].carbonUnit.Absent? then Known(G) else sorted[0].carbonUnit)
    else CarbonUnitOf(sorted[1..], options)
  }

  // ---- The total of sorted objects ----

  function LatestEnd(sorted: seq<Obj>): (end: string)
    requires AreObjects(sorted) && sorted != []
    ensures IsDateTime(end)
  {
    var n := |sorted| - 1;
    if n == 0 then sorted[0].period.end else
    var end := LatestEnd(sorted[..n]);
    if CompareDateTimes(sorted[n].period.end, end) > 0 then sorted[n].period.end else end
  }

  lemma {:induction false} LatestEndIsBound(sorted: seq<Obj>)
    requires AreObjects(sorted) && sorted != []
    ensures exists i :: 0 <= i < |sorted| && sorted[i].period.end == LatestEnd(sorted)
    ensures forall i :: 0 <= i < |sorted| ==> Instant(sorted[i].period.end) <= Instant(LatestEnd(sorted))
  {
    hide Parse;
    hide Instant;
    hide IsDateTime;
    var n := |sorted| - 1;
    if n > 0 {
      var before := sorted[..n];
      LatestEndIsBound(before);
      assert forall i :: 0 <= i < n ==> sorted[i] == before[i];
      var i :| 0 <= i < n && before[i].period.end == LatestEnd(before);
      assert sorted[i].period.end == before[i].period.end;
      assert LatestEnd(sorted) == sorted[n].period.end || LatestEnd(sorted) == sorted[i].period.end;
    } else {
      assert sorted[0].period.end == LatestEnd(sorted);
    }
  }

  predicate NeighboursOverlap(sorted: seq<Obj>)
    requires AreObjects(sorted)
  {
    exists i :: 0 < i < |sorted| && PeriodsOverlap(sorted[i - 1].period, sorted[i].period)
  }

  predicate IsContiguous(sorted: seq<Obj>)
    requires AreObjects(sorted)
  {
    forall i :: 0 < i < |sorted| ==> CompareDateTimes(sorted[i - 1].period.end, sorted[i].period.start) == 0
  }

  /** The metrics, of the first `n` summed, that are reported and can be added. */
  function Sums(sorted: seq<Obj>, n: nat, energyTo: Stated<EnergyUnit>, carbonTo: Stated<CarbonUnit>): map<Metric, real>
    requires n <= |SUMMED|
  {
    map m | m in SUMMED[..n] && HowManyReport(sorted, m) > 0 && Summable(sorted, m, energyTo, carbonTo)
      :: SumOf(sorted, m, energyTo, carbonTo)
  }

  function Incomplete(sorted: seq<Obj>, n: nat, energyTo: Stated<EnergyUnit>, carbonTo: Stated<CarbonUnit>): seq<Metric>
    requires n <= |SUMMED|
  {
    if n == 0 then [] else
    var m, before := SUMMED[n - 1], Incomplete(sorted, n - 1, energyTo, carbonTo);
    if 0 < HowManyReport(sorted, m) < |sorted| && Summable(sorted, m, energyTo, carbonTo) then before + [m] else before
  }

  function NotSummable(sorted: seq<Obj>, n: nat, energyTo: Stated<EnergyUnit>, carbonTo: Stated<CarbonUnit>): seq<Metric>
    requires n <= |SUMMED|
  {
    if n == 0 then [] else
    var m, before := SUMMED[n - 1], NotSummable(sorted, n - 1, energyTo, carbonTo);
    if 0 < HowManyReport(sorted, m) && !Summable(sorted, m, energyTo, carbonTo) then before + [m] else before
  }

  function Summarize(sorted: seq<Obj>, options: Options): Summary
    requires AreObjects(sorted) && sorted != []
  {
    var first, energyTo, carbonTo := sorted[0], EnergyUnitOf(sorted, options), CarbonUnitOf(sorted, options);
    var sums := Sums(sorted, 5, energyTo, carbonTo);
    Summary(
      first.target,
      if forall i :: 0 <= i < |sorted| ==> sorted[i].targetType == first.targetType then first.targetType else None,
      first.accounting,
      Period(first.period.start, LatestEnd(sorted)),
      IsContiguous(sorted),
      |sorted|,
      sums,
      if Energy in sums then Some(energyTo) else None,
      if Carbon in sums || Scope1 in sums || Scope2 in sums || Scope3 in sums then Some(carbonTo) else None,
      Incomplete(sorted, 5, energyTo, carbonTo),
      NotSummable(sorted, 5, energyTo, carbonTo))
  }

  function TotalOfSorted(sorted: seq<Obj>, options: Options): Result<Summary, Refusal>
    requires AreObjects(sorted)
  {
    if sorted == [] then Err(NoObjects)
    else if exists i :: 0 <= i < |sorted| && !options.sameTarget(sorted[i].target, sorted[0].target, sorted[0].targetType) then
      Err(MixedTargets)
    else if exists i :: 0 <= i < |sorted| && sorted[i].accounting != sorted[0].accounting then Err(MixedAccounting)
    else if NeighboursOverlap(sorted) then Err(OverlappingPeriods)
    else Ok(Summarize(sorted, options))
  }

  function TotalOf(entries: seq<Obj>, options: Options): Result<Summary, Refusal>
    requires AreObjects(entries)
  {
    SortedAreObjects(entries);
    TotalOfSorted(Sort(PeriodLe, entries), options)
  }

  lemma SortedAreObjects(entries: seq<Obj>)
    requires AreObjects(entries)
    ensures AreObjects(Sort(PeriodLe, entries))
  {
    hide IsPeriod;
    var sorted := Sort(PeriodLe, entries);
    SameElements(sorted, entries);
    forall i | 0 <= i < |sorted| ensures IsPeriod(sorted[i].period) {
      assert sorted[i] in entries;
    }
  }

  // ---- total ----

  method OverlapFound(sorted: seq<Obj>) returns (found: bool)
    requires AreObjects(sorted)
    ensures found == NeighboursOverlap(sorted)
  {
    hide Parse;
    hide PeriodsOverlap;
    var i := 1;
    while i < |sorted|
      invariant 1 <= i
      invariant forall k :: 0 < k < i && k < |sorted| ==> !PeriodsOverlap(sorted[k - 1].period, sorted[k].period)
    {
      if PeriodsOverlap(sorted[i - 1].period, sorted[i].period) {
        return true;
      }
      i := i + 1;
    }
    found := false;
  }

  method Total(entries: seq<Obj>, options: Options) returns (result: Result<Summary, Refusal>)
    requires AreObjects(entries)
    ensures result == TotalOf(entries, options)
  {
    hide IsPeriod;
    hide PeriodLe;
    hide TotalOfSorted;
    var sorted := Sort(PeriodLe, entries);
    SortedAreObjects(entries);
    result := TotalSorted(sorted, options);
  }

  method TotalSorted(sorted: seq<Obj>, options: Options) returns (result: Result<Summary, Refusal>)
    requires AreObjects(sorted)
    ensures result == TotalOfSorted(sorted, options)
  {
    hide IsPeriod;
    hide NeighboursOverlap;
    hide Summarize;
    if sorted == [] {
      return Err(NoObjects);
    }
    var first := sorted[0];
    if exists i :: 0 <= i < |sorted| && !options.sameTarget(sorted[i].target, first.target, first.targetType) {
      return Err(MixedTargets);
    }
    if exists i :: 0 <= i < |sorted| && sorted[i].accounting != first.accounting {
      return Err(MixedAccounting);
    }
    var overlap := OverlapFound(sorted);
    if overlap {
      return Err(OverlappingPeriods);
    }
    var out := AddUp(sorted, options);
    result := Ok(out);
  }

  /** The summary, metric by metric. */
  method AddUp(sorted: seq<Obj>, options: Options) returns (out: Summary)
    requires AreObjects(sorted) && sorted != []
    ensures out == Summarize(sorted, options)
  {
    hide IsPeriod;
    hide Part;
    var first, energyTo, carbonTo := sorted[0], EnergyUnitOf(sorted, options), CarbonUnitOf(sorted, options);
    var sums: map<Metric, real>, incomplete: seq<Metric>, notSummable: seq<Metric> := map[], [], [];
    for n := 0 to |SUMMED|
      invariant sums == Sums(sorted, n, energyTo, carbonTo)
      invariant incomplete == Incomplete(sorted, n, energyTo, carbonTo)
      invariant notSummable == NotSummable(sorted, n, energyTo, carbonTo)
    {
      var metric := SUMMED[n];
      var reporting, sum, known := AddMetric(sorted, metric, energyTo, carbonTo);
      SumsStep(sorted, n, energyTo, carbonTo);
      if reporting > 0 {
        if !known {
          notSummable := notSummable + [metric];
        } else {
          if reporting < |sorted| {
            incomplete := incomplete + [metric];
          }
          sums := sums[metric := sum];
        }
      }
    }
    out := Summary(
      first.target,
      if forall i :: 0 <= i < |sorted| ==> sorted[i].targetType == first.targetType then first.targetType else None,
      first.accounting, Period(first.period.start, LatestEnd(sorted)), IsContiguous(sorted), |sorted|, sums,
      if Energy in sums then Some(energyTo) else None,
      if Carbon in sums || Scope1 in sums || Scope2 in sums || Scope3 in sums then Some(carbonTo) else None,
      incomplete, notSummable);
  }

  lemma SumsStep(sorted: seq<Obj>, n: nat, energyTo: Stated<EnergyUnit>, carbonTo: Stated<CarbonUnit>)
    requires n < |SUMMED|
    ensures var m := SUMMED[n];
      Sums(sorted, n + 1, energyTo, carbonTo) ==
        (if HowManyReport(sorted, m) > 0 && Summable(sorted, m, energyTo, carbonTo)
         then Sums(sorted, n, energyTo, carbonTo)[m := SumOf(sorted, m, energyTo, carbonTo)] else Sums(sorted, n, energyTo, carbonTo))
  {
    hide Summable;
    hide SumOf;
    hide HowManyReport;
    assert SUMMED[..n + 1] == SUMMED[..n] + [SUMMED[n]];
  }

  /** What one more object adds to the count, the sum and whether every unit is known. */
  lemma MetricStep(sorted: seq<Obj>, i: nat, metric: Metric, energyTo: Stated<EnergyUnit>, carbonTo: Stated<CarbonUnit>)
    requires i < |sorted|
    ensures HowManyReport(sorted[..i + 1], metric) == HowManyReport(sorted[..i], metric) + (if Reports(sorted[i], metric) then 1 else 0)
    ensures SumOf(sorted[..i + 1], metric, energyTo, carbonTo)
      == SumOf(sorted[..i], metric, energyTo, carbonTo) + Contribution(sorted[i], metric, energyTo, carbonTo)
    ensures Summable(sorted[..i + 1], metric, energyTo, carbonTo) <==>
      Summable(sorted[..i], metric, energyTo, carbonTo)
      && (Reports(sorted[i], metric) ==> Part(sorted[i], metric, energyTo, carbonTo).Some?)
  {
    hide Part;
    hide Reports;
    hide Contribution;
    var s, r := sorted[..i + 1], sorted[..i];
    assert s[..i] == r && s[i] == sorted[i];
    assert forall k :: 0 <= k < i ==> s[k] == r[k];
  }

  /** How many objects report the metric, the sum of what they report, and whether every unit was known. */
  method AddMetric(sorted: seq<Obj>, metric: Metric, energyTo: Stated<EnergyUnit>, carbonTo: Stated<CarbonUnit>)
    returns (reporting: nat, sum: real, known: bool)
    ensures reporting == HowManyReport(sorted, metric)
    ensures known == Summable(sorted, metric, energyTo, carbonTo)
    ensures sum == SumOf(sorted, metric, energyTo, carbonTo)
  {
    hide Part;
    hide Reports;
    hide Summable;
    hide SumOf;
    hide HowManyReport;
    EmptyMetric(metric, energyTo, carbonTo);
    reporting, sum, known := 0, 0.0, true;
    assert sorted[..0] == [];
    for i := 0 to |sorted|
      invariant reporting == HowManyReport(sorted[..i], metric)
      invariant known == Summable(sorted[..i], metric, energyTo, carbonTo)
      invariant sum == SumOf(sorted[..i], metric, energyTo, carbonTo)
    {
      MetricStep(sorted, i, metric, energyTo, carbonTo);
      if Reports(sorted[i], metric) {
        reporting := reporting + 1;
        var part := Part(sorted[i], metric, energyTo, carbonTo);
        if part.None? {
          known := false;
        } else {
          sum := sum + part.value;
        }
      }
    }
    assert sorted[..|sorted|] == sorted;
  }

  lemma EmptyMetric(metric: Metric, energyTo: Stated<EnergyUnit>, carbonTo: Stated<CarbonUnit>)
    ensures HowManyReport([], metric) == 0 && Summable([], metric, energyTo, carbonTo) && SumOf([], metric, energyTo, carbonTo) == 0.0
  {
  }
}
