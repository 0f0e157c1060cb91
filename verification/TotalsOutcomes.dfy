/**
 * When `total` refuses and for what, and what a summary names, told from the objects as
 * they are given: by the one that starts first, by every two of them, and by their figures
 * in watt-hours and grams.
 */
module TotalsOutcomes {
  import opened DateTimes
  import opened Periods
  import opened Sorting
  import opened Totals
  import opened TotalsProofs
  import opened Units
  import opened Wrappers

  // ---- The object that starts first ----

  /** Starts earlier, or at the same instant and ends no later. */
  ghost predicate NotAfter(a: Obj, b: Obj)
    requires IsPeriod(a.period) && IsPeriod(b.period)
  {
    || Instant(a.period.start) < Instant(b.period.start)
    || (Instant(a.period.start) == Instant(b.period.start) && Instant(a.period.end) <= Instant(b.period.end))
  }

  /** Of the objects of a kind, the one at `f` comes first: by its period, and as given among those of equal periods. */
  ghost predicate ComesFirst(entries: seq<Obj>, p: Obj -> bool, f: nat)
    requires AreObjects(entries)
  {
    && f < |entries| && p(entries[f])
    && (forall j :: 0 <= j < |entries| && p(entries[j]) ==> NotAfter(entries[f], entries[j]))
    && (forall j :: 0 <= j < f && p(entries[j]) ==> !NotAfter(entries[j], entries[f]))
  }

  lemma FirstOfSorted(entries: seq<Obj>, p: Obj -> bool, f: nat)
    requires AreObjects(entries) && ComesFirst(entries, p, f)
    ensures FirstWith(Sort(PeriodLe, entries), p) == Some(entries[f])
  {
    hide IsPeriod;
    hide PeriodLe;
    hide Instant;
    forall j | 0 <= j < |entries|
      ensures (PeriodLe(entries[f], entries[j]) <==> NotAfter(entries[f], entries[j]))
           && (PeriodLe(entries[j], entries[f]) <==> NotAfter(entries[j], entries[f]))
    {
      LeMeans(entries[f], entries[j]);
      LeMeans(entries[j], entries[f]);
    }
    hide NotAfter;
    PeriodsAreOrdered(entries);
    SortedFirst(PeriodLe, entries, p, f);
  }

  /** There is such an object wherever there is one of the kind. */
  lemma SomeComesFirst(entries: seq<Obj>, p: Obj -> bool) returns (f: nat)
    requires AreObjects(entries) && exists j :: 0 <= j < |entries| && p(entries[j])
    ensures ComesFirst(entries, p, f)
  {
    hide IsPeriod;
    hide PeriodLe;
    hide Instant;
    PeriodsAreOrdered(entries);
    f := SomeFirstLeast(PeriodLe, entries, p);
    forall j | 0 <= j < |entries|
      ensures (PeriodLe(entries[f], entries[j]) <==> NotAfter(entries[f], entries[j]))
           && (PeriodLe(entries[j], entries[f]) <==> NotAfter(entries[j], entries[f]))
    {
      LeMeans(entries[f], entries[j]);
      LeMeans(entries[j], entries[f]);
    }
  }

  predicate Any(o: Obj) {
    true
  }

  lemma SortedStartsWith(entries: seq<Obj>, f: nat) returns (s: seq<Obj>)
    requires AreObjects(entries) && ComesFirst(entries, Any, f)
    ensures s == Sort(PeriodLe, entries) && AreObjects(s) && s != [] && s[0] == entries[f]
    ensures |s| == |entries| && forall x :: x in s <==> x in entries
    ensures NeighboursOverlap(s) <==> SomeShare(entries)
  {
    hide IsPeriod;
    hide PeriodLe;
    hide NeighboursOverlap;
    hide SomeShare;
    hide Disjoint;
    hide NotAfter;
    s := SortedObjects(entries);
    SameElements(s, entries);
    FirstOfSorted(entries, Any, f);
  }

  // ---- Refusals ----

  /** Some object is for a target that is not the one of the object at `f`. */
  predicate SomeOtherTarget(entries: seq<Obj>, options: Options, f: nat)
    requires f < |entries|
  {
    exists i :: 0 <= i < |entries| && !options.sameTarget(entries[i].target, entries[f].target, entries[f].targetType)
  }

  predicate SomeOtherAccounting(entries: seq<Obj>) {
    exists i, j :: 0 <= i < |entries| && 0 <= j < |entries| && entries[i].accounting != entries[j].accounting
  }

  lemma SortedOtherTarget(s: seq<Obj>, entries: seq<Obj>, options: Options, f: nat)
    requires f < |entries| && s != [] && s[0] == entries[f] && forall x :: x in s <==> x in entries
    ensures SomeOtherTarget(s, options, 0) <==> SomeOtherTarget(entries, options, f)
  {
    if i :| 0 <= i < |s| && !options.sameTarget(s[i].target, s[0].target, s[0].targetType) {
      assert s[i] in entries;
      var j :| 0 <= j < |entries| && entries[j] == s[i];
    }
    if i :| 0 <= i < |entries| && !options.sameTarget(entries[i].target, entries[f].target, entries[f].targetType) {
      assert entries[i] in s;
      var j :| 0 <= j < |s| && s[j] == entries[i];
    }
  }

  lemma SortedOtherAccounting(s: seq<Obj>, entries: seq<Obj>)
    requires s != [] && forall x :: x in s <==> x in entries
    ensures (exists i :: 0 <= i < |s| && s[i].accounting != s[0].accounting) <==> SomeOtherAccounting(entries)
  {
    if i :| 0 <= i < |s| && s[i].accounting != s[0].accounting {
      assert s[i] in entries && s[0] in entries;
      var j :| 0 <= j < |entries| && entries[j] == s[i];
      var k :| 0 <= k < |entries| && entries[k] == s[0];
      assert entries[j].accounting != entries[k].accounting;
    }
    if i, j :| 0 <= i < |entries| && 0 <= j < |entries| && entries[i].accounting != entries[j].accounting {
      assert entries[i] in s && entries[j] in s;
      var k :| 0 <= k < |s| && s[k] == entries[i];
      var l :| 0 <= l < |s| && s[l] == entries[j];
      assert s[k].accounting != s[0].accounting || s[l].accounting != s[0].accounting;
    }
  }

  lemma SortedOutcome(s: seq<Obj>, options: Options)
    requires AreObjects(s) && s != []
    ensures var result := TotalOfSorted(s, options);
      var other := exists i :: 0 <= i < |s| && s[i].accounting != s[0].accounting;
      && (result == Err(MixedTargets) <==> SomeOtherTarget(s, options, 0))
      && (result == Err(MixedAccounting) <==> !SomeOtherTarget(s, options, 0) && other)
      && (result == Err(OverlappingPeriods) <==> !SomeOtherTarget(s, options, 0) && !other && NeighboursOverlap(s))
      && (result.Ok? <==> !SomeOtherTarget(s, options, 0) && !other && !NeighboursOverlap(s))
      && result != Err(NoObjects)
  {
    hide IsPeriod;
    hide NeighboursOverlap;
    hide Summarize;
  }

  /**
   * Given the object that starts first, `total` refuses for mixed targets exactly where some target is not the one of that
   * object, for mixed accounting exactly where targets agree and two objects state different values, and for overlapping
   * periods exactly where these agree too and two objects share an instant. It accepts all else.
   */
  lemma OutcomeIs(entries: seq<Obj>, options: Options, f: nat)
    requires AreObjects(entries) && ComesFirst(entries, Any, f)
    ensures var result := TotalOf(entries, options);
      && f < |entries| && result != Err(NoObjects)
      && (result == Err(MixedTargets) <==> SomeOtherTarget(entries, options, f))
      && (result == Err(MixedAccounting) <==> !SomeOtherTarget(entries, options, f) && SomeOtherAccounting(entries))
      && (result == Err(OverlappingPeriods) <==>
            !SomeOtherTarget(entries, options, f) && !SomeOtherAccounting(entries) && SomeShare(entries))
      && (result.Ok? <==> !SomeOtherTarget(entries, options, f) && !SomeOtherAccounting(entries) && !SomeShare(entries))
  {
    hide IsPeriod;
    hide PeriodLe;
    hide SomeShare;
    hide SomeOtherTarget;
    hide SomeOtherAccounting;
    hide NeighboursOverlap;
    hide TotalOfSorted;
    hide NotAfter;
    var s := SortedStartsWith(entries, f);
    SortedOtherTarget(s, entries, options, f);
    SortedOtherAccounting(s, entries);
    SortedOutcome(s, options);
  }

  /** There is a first object, and no refusal for want of objects, unless there is none. */
  lemma OnlyNoneIsNoObjects(entries: seq<Obj>, options: Options)
    requires AreObjects(entries)
    ensures TotalOf(entries, options) == Err(NoObjects) <==> entries == []
    ensures entries != [] ==> exists f: nat :: ComesFirst(entries, Any, f)
  {
    hide IsPeriod;
    hide PeriodLe;
    hide SomeShare;
    hide SomeOtherTarget;
    hide SomeOtherAccounting;
    hide TotalOfSorted;
    hide ComesFirst;
    if entries != [] {
      assert Any(entries[0]);
      var f := SomeComesFirst(entries, Any);
      OutcomeIs(entries, options, f);
    } else {
      NoneIsRefused(options);
    }
  }

  lemma NoneIsRefused(options: Options)
    ensures AreObjects([]) && TotalOf([], options) == Err(NoObjects)
  {
  }

  // ---- What a summary names ----

  predicate HasEnergy(o: Obj) {
    Energy in o.figures
  }

  lemma {:induction false} EnergyUnitIsFirst(s: seq<Obj>, options: Options)
    ensures EnergyUnitOf(s, options) ==
      if options.energyUnit.Some? then Known(options.energyUnit.value)
      else var first := FirstWith(s, HasEnergy);
           if first.None? || first.value.energyUnit.Absent? then Known(KWh) else first.value.energyUnit
  {
    if options.energyUnit.None? && s != [] {
      EnergyUnitIsFirst(s[1..], options);
    }
  }

  lemma {:induction false} CarbonUnitIsFirst(s: seq<Obj>, options: Options)
    ensures CarbonUnitOf(s, options) ==
      if options.carbonUnit.Some? then Known(options.carbonUnit.value)
      else var first := FirstWith(s, HasCarbon);
           if first.None? || first.value.carbonUnit.Absent? then Known(G) else first.value.carbonUnit
  {
    if options.carbonUnit.None? && s != [] {
      CarbonUnitIsFirst(s[1..], options);
    }
  }

  /** The units of a summary: those asked for, or those of the first object with energy, and with carbon or a scope. */
  lemma UnitsAreThoseOf(entries: seq<Obj>, options: Options)
    requires AreObjects(entries)
    ensures options.energyUnit.Some? ==> EnergyIn(entries, options) == Known(options.energyUnit.value)
    ensures options.carbonUnit.Some? ==> CarbonIn(entries, options) == Known(options.carbonUnit.value)
    ensures forall f: nat :: options.energyUnit.None? && ComesFirst(entries, HasEnergy, f) ==>
      f < |entries| && EnergyIn(entries, options) == if entries[f].energyUnit.Absent? then Known(KWh) else entries[f].energyUnit
    ensures forall f: nat :: options.carbonUnit.None? && ComesFirst(entries, HasCarbon, f) ==>
      f < |entries| && CarbonIn(entries, options) == if entries[f].carbonUnit.Absent? then Known(G) else entries[f].carbonUnit
  {
    hide IsPeriod;
    hide PeriodLe;
    hide EnergyUnitOf;
    hide CarbonUnitOf;
    hide NotAfter;
    var s := Sort(PeriodLe, entries);
    EnergyUnitIsFirst(s, options);
    CarbonUnitIsFirst(s, options);
    forall f: nat | ComesFirst(entries, HasEnergy, f) ensures f < |entries| && FirstWith(s, HasEnergy) == Some(entries[f]) {
      FirstOfSorted(entries, HasEnergy, f);
    }
    forall f: nat | ComesFirst(entries, HasCarbon, f) ensures f < |entries| && FirstWith(s, HasCarbon) == Some(entries[f]) {
      FirstOfSorted(entries, HasCarbon, f);
    }
  }

  lemma SortedNames(s: seq<Obj>, options: Options)
    requires AreObjects(s) && TotalOfSorted(s, options).Ok?
    ensures s != [] && forall i :: 0 <= i < |s| ==> s[i].accounting == s[0].accounting
    ensures var out := TotalOfSorted(s, options).value;
      && out.target == s[0].target && out.accounting == s[0].accounting && out.period.start == s[0].period.start
      && out.targetType == (if forall i :: 0 <= i < |s| ==> s[i].targetType == s[0].targetType then s[0].targetType else None)
      && out.energyUnit == (if Energy in out.sums then Some(EnergyUnitOf(s, options)) else None)
      && out.carbonUnit == (if Carbon in out.sums || Scope1 in out.sums || Scope2 in out.sums || Scope3 in out.sums
                            then Some(CarbonUnitOf(s, options)) else None)
  {
    hide IsPeriod;
    hide NeighboursOverlap;
    hide Sums;
    hide LatestEnd;
    hide IsContiguous;
    hide EnergyUnitOf;
    hide CarbonUnitOf;
    hide Incomplete;
    hide NotSummable;
  }

  /**
   * A summary names the target and start of the object that starts first, the accounting value and, if they share one, the
   * target type of them all, and each unit exactly where a figure is stated in it.
   */
  lemma SummaryNames(entries: seq<Obj>, options: Options, f: nat)
    requires AreObjects(entries) && ComesFirst(entries, Any, f) && TotalOf(entries, options).Ok?
    ensures var out := TotalOf(entries, options).value;
      && out.target == entries[f].target && out.period.start == entries[f].period.start
      && (forall i :: 0 <= i < |entries| ==> entries[i].accounting == out.accounting)
      && (forall t :: out.targetType == Some(t) <==> forall i :: 0 <= i < |entries| ==> entries[i].targetType == Some(t))
      && out.energyUnit == (if Energy in out.sums then Some(EnergyIn(entries, options)) else None)
      && out.carbonUnit == (if Carbon in out.sums || Scope1 in out.sums || Scope2 in out.sums || Scope3 in out.sums
                            then Some(CarbonIn(entries, options)) else None)
  {
    hide IsPeriod;
    hide PeriodLe;
    hide NotAfter;
    hide TotalOfSorted;
    hide SomeShare;
    hide NeighboursOverlap;
    hide EnergyUnitOf;
    hide CarbonUnitOf;
    var s := SortedStartsWith(entries, f);
    SortedNames(s, options);
    forall i | 0 <= i < |entries| ensures entries[i].accounting == s[0].accounting {
      assert entries[i] in s;
    }
    SharedType(s, entries);
  }

  lemma SharedType(s: seq<Obj>, entries: seq<Obj>)
    requires s != [] && entries != [] && forall x :: x in s <==> x in entries
    ensures var same := if forall i :: 0 <= i < |s| ==> s[i].targetType == s[0].targetType then s[0].targetType else None;
      forall t :: same == Some(t) <==> forall i :: 0 <= i < |entries| ==> entries[i].targetType == Some(t)
  {
    forall t ensures (forall i :: 0 <= i < |s| ==> s[i].targetType == Some(t)) <==>
                     (forall i :: 0 <= i < |entries| ==> entries[i].targetType == Some(t)) {
      assert (forall i :: 0 <= i < |s| ==> s[i].targetType == Some(t)) <==> (forall x :: x in s ==> x.targetType == Some(t));
      assert (forall i :: 0 <= i < |entries| ==> entries[i].targetType == Some(t)) <==> (forall x :: x in entries ==> x.targetType == Some(t));
    }
  }

  // ---- Sums in watt-hours and grams ----

  /** A unit in watt-hours or, of carbon, in grams. */
  function InWattHours(unit: EnergyUnit): real {
    match unit
    case Wh => 1.0
    case KWh => 1_000.0
    case MWh => 1_000_000.0
    case GWh => 1_000_000_000.0
  }

  function InGrams(unit: CarbonUnit): real {
    match unit
    case G => 1.0
    case Kg => 1_000.0
    case T => 1_000_000.0
  }

  /** What an object adds to a metric, in watt-hours or grams: nothing where it states none, or energy or carbon below zero. */
  function Amount(o: Obj, m: Metric): real {
    if m !in o.figures then 0.0
    else if m == Energy then
      if o.figures[m] < 0.0 || o.energyUnit.Unknown? then 0.0
      else o.figures[m] * (if o.energyUnit.Known? then InWattHours(o.energyUnit.unit) else 1_000.0)
    else if (m == Carbon && o.figures[m] < 0.0) || o.carbonUnit.Unknown? then 0.0
    else o.figures[m] * (if o.carbonUnit.Known? then InGrams(o.carbonUnit.unit) else 1.0)
  }

  function SumOfAmounts(entries: seq<Obj>, m: Metric): real {
    if entries == [] then 0.0 else
    var n := |entries| - 1;
    SumOfAmounts(entries[..n], m) + Amount(entries[n], m)
  }

  /** The unit that a sum of the metric is stated in, in watt-hours or grams. */
  function Scale(m: Metric, energyTo: Stated<EnergyUnit>, carbonTo: Stated<CarbonUnit>): real
    requires if m == Energy then energyTo.Known? else carbonTo.Known?
  {
    if m == Energy then InWattHours(energyTo.unit) else InGrams(carbonTo.unit)
  }

  lemma SameWattHours(unit: EnergyUnit)
    ensures WattHours(unit) == InWattHours(unit) && InWattHours(KWh) == 1_000.0
  {
  }

  lemma SameGrams(unit: CarbonUnit)
    ensures Grams(unit) == InGrams(unit) && InGrams(G) == 1.0
  {
  }

  lemma EnergyIsAmount(o: Obj, to: EnergyUnit, carbonTo: Stated<CarbonUnit>)
    ensures Contribution(o, Energy, Known(to), carbonTo) * InWattHours(to) == Amount(o, Energy)
  {
    hide InWattHours;
    hide InGrams;
    hide WattHours;
    hide Grams;
    if Reports(o, Energy) && !o.energyUnit.Unknown? {
      var from := if o.energyUnit.Known? then o.energyUnit.unit else KWh;
      SameWattHours(from);
      SameWattHours(to);
      Cancel(o.figures[Energy] * WattHours(from), WattHours(to));
    }
  }

  lemma CarbonPart(o: Obj, m: Metric, energyTo: Stated<EnergyUnit>, to: CarbonUnit)
    requires m != Energy && Reports(o, m) && !o.carbonUnit.Unknown?
    ensures var from := if o.carbonUnit.Known? then o.carbonUnit.unit else G;
      Contribution(o, m, energyTo, Known(to)) == o.figures[m] * Grams(from) / Grams(to)
  {
    hide Grams;
  }

  lemma CarbonIsAmount(o: Obj, m: Metric, energyTo: Stated<EnergyUnit>, to: CarbonUnit)
    requires m != Energy
    ensures Contribution(o, m, energyTo, Known(to)) * InGrams(to) == Amount(o, m)
  {
    hide InWattHours;
    hide InGrams;
    hide WattHours;
    hide Grams;
    if Reports(o, m) && !o.carbonUnit.Unknown? {
      var from := if o.carbonUnit.Known? then o.carbonUnit.unit else G;
      SameGrams(from);
      SameGrams(to);
      CarbonPart(o, m, energyTo, to);
      hide Contribution;
      Cancel(o.figures[m] * Grams(from), Grams(to));
    }
  }

  lemma ContributionIsAmount(o: Obj, m: Metric, energyTo: Stated<EnergyUnit>, carbonTo: Stated<CarbonUnit>)
    requires if m == Energy then energyTo.Known? else carbonTo.Known?
    ensures Contribution(o, m, energyTo, carbonTo) * Scale(m, energyTo, carbonTo) == Amount(o, m)
  {
    hide Contribution;
    hide Amount;
    hide InWattHours;
    hide InGrams;
    if m == Energy {
      EnergyIsAmount(o, energyTo.unit, carbonTo);
    } else {
      CarbonIsAmount(o, m, energyTo, carbonTo.unit);
    }
  }

  lemma Distribute(a: real, b: real, c: real)
    ensures (a + b) * c == a * c + b * c
  {
  }

  lemma {:induction false} SumIsOfAmounts(entries: seq<Obj>, m: Metric, energyTo: Stated<EnergyUnit>, carbonTo: Stated<CarbonUnit>)
    requires if m == Energy then energyTo.Known? else carbonTo.Known?
    ensures SumOf(entries, m, energyTo, carbonTo) * Scale(m, energyTo, carbonTo) == SumOfAmounts(entries, m)
  {
    hide Scale;
    hide Contribution;
    hide Amount;
    if entries != [] {
      var n := |entries| - 1;
      SumIsOfAmounts(entries[..n], m, energyTo, carbonTo);
      ContributionIsAmount(entries[n], m, energyTo, carbonTo);
      Distribute(SumOf(entries[..n], m, energyTo, carbonTo), Contribution(entries[n], m, energyTo, carbonTo), Scale(m, energyTo, carbonTo));
    }
  }

  /** The object states a figure of the metric that counts: one that is not below zero, or a scope. */
  predicate Counts(o: Obj, m: Metric) {
    m in o.figures && (o.figures[m] >= 0.0 || !(m == Energy || m == Carbon))
  }

  predicate HasKnownUnit(o: Obj, m: Metric) {
    if m == Energy then !o.energyUnit.Unknown? else !o.carbonUnit.Unknown?
  }

  lemma {:induction false} SomeReports(entries: seq<Obj>, m: Metric)
    ensures HowManyReport(entries, m) > 0 <==> exists i :: 0 <= i < |entries| && Counts(entries[i], m)
    ensures HowManyReport(entries, m) == |entries| <==> forall i :: 0 <= i < |entries| ==> Counts(entries[i], m)
    ensures HowManyReport(entries, m) <= |entries|
  {
    if entries != [] {
      SomeReports(entries[..|entries| - 1], m);
      assert Reports(entries[|entries| - 1], m) <==> Counts(entries[|entries| - 1], m);
      hide Counts;
      hide Reports;
    }
  }

  lemma SummableIff(entries: seq<Obj>, m: Metric, energyTo: Stated<EnergyUnit>, carbonTo: Stated<CarbonUnit>)
    ensures Summable(entries, m, energyTo, carbonTo) <==>
      forall i :: 0 <= i < |entries| && Counts(entries[i], m) ==>
        HasKnownUnit(entries[i], m) && if m == Energy then energyTo.Known? else carbonTo.Known?
  {
    hide ConvertEnergy;
    hide ConvertCarbon;
    forall i | 0 <= i < |entries| ensures Reports(entries[i], m) <==> Counts(entries[i], m) {
    }
  }

  /**
   * A metric is summed exactly where some object states it and every figure of it, and the sum, has a unit that is known; the
   * sum, in watt-hours or grams, is then what the objects add to it, each in its own unit. It is listed as incomplete where
   * some object does not state it, and as not summable where it is stated and not summed.
   */
  lemma SumsInBaseUnits(entries: seq<Obj>, options: Options, m: Metric)
    requires AreObjects(entries) && TotalOf(entries, options).Ok?
    ensures var out, energyTo, carbonTo := TotalOf(entries, options).value, EnergyIn(entries, options), CarbonIn(entries, options);
      var known := if m == Energy then energyTo.Known? else carbonTo.Known?;
      var stated := exists i :: 0 <= i < |entries| && Counts(entries[i], m);
      && (m in out.sums <==> stated && known && forall i :: 0 <= i < |entries| && Counts(entries[i], m) ==> HasKnownUnit(entries[i], m))
      && (m in out.sums ==> known && out.sums[m] * Scale(m, energyTo, carbonTo) == SumOfAmounts(entries, m))
      && (m in out.incomplete <==> m in out.sums && exists i :: 0 <= i < |entries| && !Counts(entries[i], m))
      && (m in out.notSummable <==> stated && m !in out.sums)
      && out.objects == |entries|
  {
    hide IsPeriod;
    hide PeriodLe;
    hide TotalOf;
    hide SumOf;
    hide Summable;
    hide HowManyReport;
    hide EnergyIn;
    hide CarbonIn;
    hide Scale;
    hide Counts;
    hide HasKnownUnit;
    var energyTo, carbonTo := EnergyIn(entries, options), CarbonIn(entries, options);
    SumsAreExact(entries, options, m);
    ListsAreExact(entries, options, m);
    SomeReports(entries, m);
    SummableIff(entries, m, energyTo, carbonTo);
    if m in TotalOf(entries, options).value.sums {
      SumIsOfAmounts(entries, m, energyTo, carbonTo);
    }
  }
}
