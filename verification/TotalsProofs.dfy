/**
 * What `total` promises: that its outcome does not depend on the order of the objects, that
 * it refuses an overlap wherever it is, that the range it states is the smallest and says
 * rightly whether it is covered without gaps, and that its sums are the exact ones.
 */
module TotalsProofs {
  import opened DateTimes
  import opened Periods
  import opened Sorting
  import opened Totals
  import opened Units
  import opened Wrappers

  // ---- The order of periods ----

  lemma LeMeans(a: Obj, b: Obj)
    requires IsPeriod(a.period) && IsPeriod(b.period)
    ensures PeriodLe(a, b) <==>
      || Instant(a.period.start) < Instant(b.period.start)
      || (Instant(a.period.start) == Instant(b.period.start) && Instant(a.period.end) <= Instant(b.period.end))
  {
    hide Instant;
    hide IsDateTime;
  }

  lemma PeriodsAreOrdered(entries: seq<Obj>)
    requires AreObjects(entries)
    ensures Orders(PeriodLe, entries)
  {
    hide PeriodLe;
    hide IsPeriod;
    hide Instant;
    forall x, y | x in entries && y in entries ensures PeriodLe(x, y) || PeriodLe(y, x) {
      LeMeans(x, y);
      LeMeans(y, x);
    }
    forall x, y, z | x in entries && y in entries && z in entries && PeriodLe(x, y) && PeriodLe(y, z) ensures PeriodLe(x, z) {
      LeMeans(x, y);
      LeMeans(y, z);
      LeMeans(x, z);
    }
  }

  /** Starts ascend and each period ends no later than the next one starts. */
  ghost predicate Disjoint(s: seq<Obj>)
    requires AreObjects(s)
  {
    forall i, j :: 0 <= i < j < |s| ==> Instant(s[i].period.end) <= Instant(s[j].period.start)
  }

  lemma {:induction false} NeighboursDecide(s: seq<Obj>, i: nat, j: nat)
    requires AreObjects(s) && SortedBy(PeriodLe, s) && !NeighboursOverlap(s) && i < j < |s|
    ensures Instant(s[i].period.end) <= Instant(s[j].period.start)
    decreases j
  {
    hide Instant;
    hide IsDateTime;
    LeMeans(s[j - 1], s[j]);
    assert !PeriodsOverlap(s[j - 1].period, s[j].period);
    if i + 1 < j {
      NeighboursDecide(s, i, j - 1);
    }
  }

  /** Of sorted objects, neighbours alone decide: none overlap exactly when no two objects do. */
  lemma DisjointIffNoNeighboursOverlap(s: seq<Obj>)
    requires AreObjects(s) && SortedBy(PeriodLe, s)
    ensures Disjoint(s) <==> !NeighboursOverlap(s)
  {
    hide Instant;
    hide IsDateTime;
    if !NeighboursOverlap(s) {
      forall i, j | 0 <= i < j < |s| ensures Instant(s[i].period.end) <= Instant(s[j].period.start) {
        NeighboursDecide(s, i, j);
      }
    } else {
      var i :| 0 < i < |s| && PeriodsOverlap(s[i - 1].period, s[i].period);
      assert Instant(s[i - 1].period.end) > Instant(s[i].period.start);
    }
  }

  // ---- Objects that share an instant ----

  ghost predicate Share(a: Obj, b: Obj)
    requires IsPeriod(a.period) && IsPeriod(b.period)
  {
    exists t :: Covers(a.period, t) && Covers(b.period, t)
  }

  /** Some two objects, at different places, share an instant. */
  ghost predicate SomeShare(s: seq<Obj>)
    requires AreObjects(s)
  {
    exists i, j :: 0 <= i < j < |s| && Share(s[i], s[j])
  }

  lemma ShareMeans(a: Obj, b: Obj)
    requires IsPeriod(a.period) && IsPeriod(b.period)
    ensures Share(a, b) <==> Instant(a.period.start) < Instant(b.period.end) && Instant(b.period.start) < Instant(a.period.end)
  {
    hide Instant;
    hide IsDateTime;
    if Instant(a.period.start) < Instant(b.period.end) && Instant(b.period.start) < Instant(a.period.end) {
      var t := if Instant(a.period.start) < Instant(b.period.start) then Instant(b.period.start) else Instant(a.period.start);
      assert Covers(a.period, t) && Covers(b.period, t);
    }
  }

  lemma SortedShareIff(s: seq<Obj>)
    requires AreObjects(s) && SortedBy(PeriodLe, s)
    ensures SomeShare(s) <==> !Disjoint(s)
  {
    hide Instant;
    hide IsDateTime;
    hide Share;
    hide PeriodLe;
    forall i, j | 0 <= i < j < |s| ensures Share(s[i], s[j]) <==> Instant(s[i].period.end) > Instant(s[j].period.start) {
      ShareMeans(s[i], s[j]);
      LeMeans(s[i], s[j]);
    }
  }

  lemma SharingIsSymmetric(a: Obj, b: Obj)
    requires IsPeriod(a.period) && IsPeriod(b.period)
    ensures Share(a, b) <==> Share(b, a)
  {
    hide Covers;
  }

  lemma RearrangedShare(a: seq<Obj>, b: seq<Obj>)
    requires AreObjects(a) && AreObjects(b) && multiset(a) == multiset(b) && SomeShare(a)
    ensures SomeShare(b)
  {
    hide Share;
    hide IsPeriod;
    var i, j :| 0 <= i < j < |a| && Share(a[i], a[j]);
    var p, q := TwoPlaces(a, b, i, j);
    if q < p {
      SharingIsSymmetric(a[i], a[j]);
      assert Share(b[q], b[p]);
    } else {
      assert Share(b[p], b[q]);
    }
  }

  // ---- total ----

  /** What the sorted objects of `total` are, and what its outcome means for them. */
  lemma SortedObjects(entries: seq<Obj>) returns (s: seq<Obj>)
    requires AreObjects(entries)
    ensures s == Sort(PeriodLe, entries) && multiset(s) == multiset(entries) && |s| == |entries|
    ensures AreObjects(s) && SortedBy(PeriodLe, s)
    ensures NeighboursOverlap(s) <==> SomeShare(entries)
    ensures NeighboursOverlap(s) <==> !Disjoint(s)
  {
    hide PeriodLe;
    hide IsPeriod;
    hide NeighboursOverlap;
    hide SomeShare;
    hide Disjoint;
    SortedAreObjects(entries);
    PeriodsAreOrdered(entries);
    SortIsSorted(PeriodLe, entries);
    s := Sort(PeriodLe, entries);
    DisjointIffNoNeighboursOverlap(s);
    SortedShareIff(s);
    if SomeShare(s) {
      RearrangedShare(s, entries);
    }
    if SomeShare(entries) {
      RearrangedShare(entries, s);
    }
  }

  /** The objects are for one target and state one accounting method, or none does. */
  predicate SameSubject(entries: seq<Obj>, options: Options) {
    forall i, j :: 0 <= i < |entries| && 0 <= j < |entries| ==>
      && options.sameTarget(entries[i].target, entries[j].target, entries[j].targetType)
      && entries[i].accounting == entries[j].accounting
  }

  /** Over objects of one subject, `total` refuses for overlapping periods exactly when some two of them share an instant. */
  lemma RefusesIffSomeShare(entries: seq<Obj>, options: Options)
    requires AreObjects(entries) && SameSubject(entries, options)
    ensures TotalOf(entries, options) == Err(OverlappingPeriods) <==> SomeShare(entries)
    ensures TotalOf(entries, options).Ok? <==> entries != [] && !SomeShare(entries)
  {
    hide IsPeriod;
    hide SomeShare;
    hide PeriodLe;
    hide Disjoint;
    hide Summarize;
    hide NeighboursOverlap;
    var s := SortedObjects(entries);
    SameElements(s, entries);
    forall i | 0 <= i < |s|
      ensures options.sameTarget(s[i].target, s[0].target, s[0].targetType) && s[i].accounting == s[0].accounting
    {
      assert s[i] in entries && s[0] in entries;
    }
    if entries == [] {
      EmptyShares(entries);
    }
  }

  lemma EmptyShares(entries: seq<Obj>)
    requires entries == []
    ensures AreObjects(entries) && !SomeShare(entries)
  {
  }

  lemma SortsAlike(a: seq<Obj>, b: seq<Obj>)
    requires AreObjects(a) && AreObjects(b) && multiset(a) == multiset(b) && !SomeShare(a)
    ensures Sort(PeriodLe, a) == Sort(PeriodLe, b)
  {
    hide IsPeriod;
    hide SomeShare;
    hide PeriodLe;
    hide NeighboursOverlap;
    hide Disjoint;
    var s := SortedObjects(a);
    var r := SortedObjects(b);
    forall x, y | x in s && y in s && PeriodLe(x, y) && PeriodLe(y, x) ensures x == y {
      AntisymmetricWhenDisjoint(s, x, y);
    }
    SortedIsUnique(PeriodLe, s, r);
  }

  lemma AcceptedShareNothing(entries: seq<Obj>, options: Options)
    requires AreObjects(entries) && TotalOf(entries, options).Ok?
    ensures !SomeShare(entries)
  {
    hide IsPeriod;
    hide SomeShare;
    hide PeriodLe;
    hide Disjoint;
    hide Summarize;
    hide NeighboursOverlap;
    var s := SortedObjects(entries);
  }

  /** Where `total` accepts, it gives the same summary for the objects in any other order. */
  lemma OrderDoesNotMatter(a: seq<Obj>, b: seq<Obj>, options: Options)
    requires AreObjects(a) && AreObjects(b) && multiset(a) == multiset(b) && TotalOf(a, options).Ok?
    ensures TotalOf(b, options) == TotalOf(a, options)
  {
    hide IsPeriod;
    hide SomeShare;
    hide PeriodLe;
    hide TotalOfSorted;
    AcceptedShareNothing(a, options);
    SortsAlike(a, b);
  }

  lemma AntisymmetricWhenDisjoint(s: seq<Obj>, x: Obj, y: Obj)
    requires AreObjects(s) && Disjoint(s) && x in s && y in s && PeriodLe(x, y) && PeriodLe(y, x)
    ensures x == y
  {
    hide PeriodLe;
    hide Instant;
    hide IsDateTime;
    var i :| 0 <= i < |s| && s[i] == x;
    var j :| 0 <= j < |s| && s[j] == y;
    var before := Instant(s[i].period.end) <= Instant(s[j].period.start);
    var after := Instant(s[j].period.end) <= Instant(s[i].period.start);
    assert i == j || before || after;
    LeMeans(x, y);
    LeMeans(y, x);
  }

  // ---- The range and its coverage ----

  ghost predicate WithinRange(s: seq<Obj>, range: Period)
    requires AreObjects(s) && HasBounds(range)
  {
    forall i :: 0 <= i < |s| ==>
      Instant(range.start) <= Instant(s[i].period.start) && Instant(s[i].period.end) <= Instant(range.end)
  }

  /** Just one of the objects covers the instant. */
  ghost predicate CoveredOnce(s: seq<Obj>, t: int)
    requires AreObjects(s)
  {
    exists i :: 0 <= i < |s| && Covers(s[i].period, t) && forall j :: 0 <= j < |s| && j != i ==> !Covers(s[j].period, t)
  }

  ghost predicate CoveredThroughout(s: seq<Obj>, range: Period)
    requires AreObjects(s) && HasBounds(range)
  {
    forall t :: Covers(range, t) ==> CoveredOnce(s, t)
  }

  ghost predicate CoveredBySome(s: seq<Obj>, t: int)
    requires AreObjects(s)
  {
    exists i :: 0 <= i < |s| && Covers(s[i].period, t)
  }

  lemma CoveredOnceIffBySome(s: seq<Obj>, t: int)
    requires AreObjects(s) && !SomeShare(s)
    ensures CoveredOnce(s, t) <==> CoveredBySome(s, t)
  {
    hide Instant;
    hide IsDateTime;
    if CoveredBySome(s, t) {
      var i :| 0 <= i < |s| && Covers(s[i].period, t);
      forall j | 0 <= j < |s| && j != i ensures !Covers(s[j].period, t) {
        var x, y := s[if i < j then i else j], s[if i < j then j else i];
        assert !Share(x, y);
        assert !(Covers(x.period, t) && Covers(y.period, t));
      }
    }
  }

  lemma {:induction false} ContiguousCovers(s: seq<Obj>, t: int) returns (i: nat)
    requires AreObjects(s) && s != [] && IsContiguous(s) && Instant(s[0].period.start) <= t < Instant(s[|s| - 1].period.end)
    ensures i < |s| && Covers(s[i].period, t)
  {
    hide Instant;
    hide IsDateTime;
    var n := |s| - 1;
    if Instant(s[n].period.start) <= t {
      i := n;
    } else {
      assert CompareDateTimes(s[n - 1].period.end, s[n].period.start) == 0;
      i := ContiguousCovers(s[..n], t);
    }
  }

  lemma GapIsUncovered(s: seq<Obj>, i: nat)
    requires AreObjects(s) && Disjoint(s) && 0 < i < |s| && CompareDateTimes(s[i - 1].period.end, s[i].period.start) != 0
    ensures !CoveredBySome(s, Instant(s[i - 1].period.end))
  {
    hide Instant;
    hide IsDateTime;
    var t := Instant(s[i - 1].period.end);
    assert t <= Instant(s[i].period.start);
    forall k | 0 <= k < |s| ensures !Covers(s[k].period, t) {
      assert k < i - 1 ==> Instant(s[k].period.end) <= Instant(s[i - 1].period.start);
      assert i < k ==> Instant(s[i].period.end) <= Instant(s[k].period.start);
    }
  }

  lemma LastEndsLatest(s: seq<Obj>)
    requires AreObjects(s) && s != [] && Disjoint(s)
    ensures Instant(LatestEnd(s)) == Instant(s[|s| - 1].period.end)
  {
    hide Instant;
    hide IsDateTime;
    var last := s[|s| - 1].period;
    assert forall i :: 0 <= i < |s| ==> i == |s| - 1 || Instant(s[i].period.end) <= Instant(last.start);
    assert Instant(last.start) < Instant(last.end);
    LatestEndIsBound(s);
  }

  lemma SortedCoverage(s: seq<Obj>, range: Period)
    requires AreObjects(s) && s != [] && Disjoint(s) && range == Period(s[0].period.start, LatestEnd(s))
    ensures IsContiguous(s) <==> forall t :: Covers(range, t) ==> CoveredBySome(s, t)
  {
    hide Instant;
    hide IsDateTime;
    hide LatestEnd;
    LastEndsLatest(s);
    if IsContiguous(s) {
      forall t | Covers(range, t) ensures CoveredBySome(s, t) {
        var i := ContiguousCovers(s, t);
      }
    } else {
      var i :| 0 < i < |s| && CompareDateTimes(s[i - 1].period.end, s[i].period.start) != 0;
      GapIsUncovered(s, i);
      var t := Instant(s[i - 1].period.end);
      assert Instant(s[i - 1].period.end) <= Instant(s[i].period.start);
      assert 0 < i - 1 ==> Instant(s[0].period.end) <= Instant(s[i - 1].period.start);
      assert i < |s| - 1 ==> Instant(s[i].period.end) <= Instant(s[|s| - 1].period.start);
      assert Covers(range, t);
    }
  }

  lemma RearrangedCoverage(a: seq<Obj>, b: seq<Obj>, t: int)
    requires AreObjects(a) && AreObjects(b) && multiset(a) == multiset(b)
    ensures CoveredBySome(a, t) <==> CoveredBySome(b, t)
  {
    hide Instant;
    hide IsDateTime;
    SameElements(a, b);
    if CoveredBySome(a, t) {
      var i :| 0 <= i < |a| && Covers(a[i].period, t);
      assert a[i] in b;
    }
    if CoveredBySome(b, t) {
      var i :| 0 <= i < |b| && Covers(b[i].period, t);
      assert b[i] in a;
    }
  }

  /** The coverage is `contiguous` exactly when every instant of the range lies in one object's period, and in one only. */
  lemma ContiguousIffCoveredOnce(entries: seq<Obj>, options: Options)
    requires AreObjects(entries) && TotalOf(entries, options).Ok?
    ensures var out := TotalOf(entries, options).value;
      HasBounds(out.period) && (out.contiguous <==> CoveredThroughout(entries, out.period))
  {
    hide Instant;
    hide IsDateTime;
    hide PeriodLe;
    hide LatestEnd;
    hide Covers;
    hide NeighboursOverlap;
    hide IsContiguous;
    hide CoveredOnce;
    hide CoveredBySome;
    hide SomeShare;
    hide Disjoint;
    var s := SortedObjects(entries);
    var range := TotalOf(entries, options).value.period;
    SortedCoverage(s, range);
    forall t ensures CoveredBySome(s, t) <==> CoveredOnce(entries, t) {
      RearrangedCoverage(s, entries, t);
      CoveredOnceIffBySome(entries, t);
    }
  }

  lemma SortedRange(s: seq<Obj>, range: Period)
    requires AreObjects(s) && s != [] && SortedBy(PeriodLe, s) && range == Period(s[0].period.start, LatestEnd(s))
    ensures HasBounds(range) && WithinRange(s, range)
  {
    hide Instant;
    hide IsDateTime;
    hide LatestEnd;
    hide PeriodLe;
    LatestEndIsBound(s);
    forall i | 0 <= i < |s| ensures Instant(s[0].period.start) <= Instant(s[i].period.start) {
      if 0 < i {
        LeMeans(s[0], s[i]);
      }
    }
  }

  lemma RearrangedRange(a: seq<Obj>, b: seq<Obj>, range: Period)
    requires AreObjects(a) && AreObjects(b) && multiset(a) == multiset(b) && HasBounds(range) && WithinRange(a, range)
    ensures WithinRange(b, range)
  {
    hide Instant;
    hide IsDateTime;
    SameElements(a, b);
    forall i | 0 <= i < |b|
      ensures Instant(range.start) <= Instant(b[i].period.start) && Instant(b[i].period.end) <= Instant(range.end)
    {
      assert b[i] in a;
    }
  }

  /** The range is the smallest that holds every period: it starts where some object starts and ends where some object ends. */
  lemma RangeIsSmallest(entries: seq<Obj>, options: Options)
    requires AreObjects(entries) && TotalOf(entries, options).Ok?
    ensures var range := TotalOf(entries, options).value.period;
      && HasBounds(range) && WithinRange(entries, range)
      && (exists e :: e in entries && e.period.start == range.start)
      && (exists e :: e in entries && e.period.end == range.end)
  {
    hide IsPeriod;
    hide Instant;
    hide IsDateTime;
    hide PeriodLe;
    hide LatestEnd;
    hide NeighboursOverlap;
    hide SomeShare;
    hide Disjoint;
    hide IsContiguous;
    hide WithinRange;
    var s := SortedObjects(entries);
    var range := TotalOf(entries, options).value.period;
    SameElements(s, entries);
    LatestEndIsBound(s);
    SortedRange(s, range);
    RearrangedRange(s, entries, range);
    var k :| 0 <= k < |s| && s[k].period.end == LatestEnd(s);
    assert s[0] in entries && s[k] in entries;
  }

  // ---- Sums ----

  lemma {:induction false} SumsAppend(a: seq<Obj>, b: seq<Obj>, m: Metric, energyTo: Stated<EnergyUnit>, carbonTo: Stated<CarbonUnit>)
    ensures SumOf(a + b, m, energyTo, carbonTo) == SumOf(a, m, energyTo, carbonTo) + SumOf(b, m, energyTo, carbonTo)
    ensures HowManyReport(a + b, m) == HowManyReport(a, m) + HowManyReport(b, m)
  {
    hide Contribution;
    hide Reports;
    if b == [] {
      assert a + b == a;
    } else {
      var n := |b| - 1;
      SumsAppend(a, b[..n], m, energyTo, carbonTo);
      var s := a + b;
      assert s[..|s| - 1] == a + b[..n] && s[|s| - 1] == b[n];
    }
  }

  /** Taking one object out of the middle takes its contribution out of the sum. */
  lemma SumWithout(s: seq<Obj>, i: nat, m: Metric, energyTo: Stated<EnergyUnit>, carbonTo: Stated<CarbonUnit>)
    requires i < |s|
    ensures SumOf(s, m, energyTo, carbonTo) == SumOf(s[..i] + s[i + 1..], m, energyTo, carbonTo) + Contribution(s[i], m, energyTo, carbonTo)
    ensures HowManyReport(s, m) == HowManyReport(s[..i] + s[i + 1..], m) + (if Reports(s[i], m) then 1 else 0)
  {
    hide Contribution;
    hide Reports;
    var one := [s[i]];
    assert s == s[..i] + one + s[i + 1..];
    SumsAppend(s[..i] + one, s[i + 1..], m, energyTo, carbonTo);
    SumsAppend(s[..i], one, m, energyTo, carbonTo);
    SumsAppend(s[..i], s[i + 1..], m, energyTo, carbonTo);
    assert one[..0] == [];
  }

  /** A sum is of a collection: the order of the objects does not change it. */
  lemma {:induction false} SumsRearranged(a: seq<Obj>, b: seq<Obj>, m: Metric, energyTo: Stated<EnergyUnit>, carbonTo: Stated<CarbonUnit>)
    requires multiset(a) == multiset(b)
    ensures SumOf(a, m, energyTo, carbonTo) == SumOf(b, m, energyTo, carbonTo)
    ensures HowManyReport(a, m) == HowManyReport(b, m)
  {
    hide Contribution;
    hide Reports;
    if a == [] {
      assert |multiset(b)| == 0;
    } else {
      var n := |a| - 1;
      var i := PlaceOf(a, b, n);
      WithoutSame(a, b, n, i);
      var fewer := b[..i] + b[i + 1..];
      assert a[..n] + a[n + 1..] == a[..n];
      SumsRearranged(a[..n], fewer, m, energyTo, carbonTo);
      SumWithout(b, i, m, energyTo, carbonTo);
    }
  }

  lemma SummableRearranged(a: seq<Obj>, b: seq<Obj>, m: Metric, energyTo: Stated<EnergyUnit>, carbonTo: Stated<CarbonUnit>)
    requires multiset(a) == multiset(b)
    ensures Summable(a, m, energyTo, carbonTo) <==> Summable(b, m, energyTo, carbonTo)
  {
    hide Summable;
    SameElements(a, b);
    if Summable(a, m, energyTo, carbonTo) {
      SummableOfElements(a, b, m, energyTo, carbonTo);
    }
    if Summable(b, m, energyTo, carbonTo) {
      SummableOfElements(b, a, m, energyTo, carbonTo);
    }
  }

  lemma SummableOfElements(a: seq<Obj>, b: seq<Obj>, m: Metric, energyTo: Stated<EnergyUnit>, carbonTo: Stated<CarbonUnit>)
    requires (forall x :: x in b ==> x in a) && Summable(a, m, energyTo, carbonTo)
    ensures Summable(b, m, energyTo, carbonTo)
  {
    hide Part;
    hide Reports;
    forall i | 0 <= i < |b| && Reports(b[i], m) ensures Part(b[i], m, energyTo, carbonTo).Some? {
      assert b[i] in a;
    }
  }

  /** The units in which a summary is stated. */
  ghost function EnergyIn(entries: seq<Obj>, options: Options): Stated<EnergyUnit>
    requires AreObjects(entries)
  {
    EnergyUnitOf(Sort(PeriodLe, entries), options)
  }

  ghost function CarbonIn(entries: seq<Obj>, options: Options): Stated<CarbonUnit>
    requires AreObjects(entries)
  {
    CarbonUnitOf(Sort(PeriodLe, entries), options)
  }

  lemma AcceptedIsSummarized(s: seq<Obj>, options: Options)
    requires AreObjects(s) && TotalOfSorted(s, options).Ok?
    ensures s != [] && TotalOfSorted(s, options) == Ok(Summarize(s, options))
  {
    hide IsPeriod;
    hide NeighboursOverlap;
    hide Summarize;
  }

  lemma SummarizedSums(s: seq<Obj>, options: Options)
    requires AreObjects(s) && s != []
    ensures Summarize(s, options).sums == Sums(s, 5, EnergyUnitOf(s, options), CarbonUnitOf(s, options))
  {
    hide IsPeriod;
    hide Sums;
    hide EnergyUnitOf;
    hide CarbonUnitOf;
    hide LatestEnd;
    hide IsContiguous;
  }

  lemma SortedSums(entries: seq<Obj>, options: Options)
    requires AreObjects(entries) && TotalOf(entries, options).Ok?
    ensures TotalOf(entries, options).value.sums
      == Sums(Sort(PeriodLe, entries), 5, EnergyIn(entries, options), CarbonIn(entries, options))
  {
    hide IsPeriod;
    hide PeriodLe;
    hide TotalOfSorted;
    hide Summarize;
    hide Sums;
    hide EnergyUnitOf;
    hide CarbonUnitOf;
    SortedAreObjects(entries);
    var s := Sort(PeriodLe, entries);
    AcceptedIsSummarized(s, options);
    SummarizedSums(s, options);
  }

  /**
   * A metric is in the summary exactly when some object reports it and every reported figure has a known unit, and
   * its figure is then the exact sum of the converted figures of the objects as they were given.
   */
  lemma SumsAreExact(entries: seq<Obj>, options: Options, m: Metric)
    requires AreObjects(entries) && TotalOf(entries, options).Ok?
    ensures var sums, energyTo, carbonTo := TotalOf(entries, options).value.sums, EnergyIn(entries, options), CarbonIn(entries, options);
      && (m in sums <==> HowManyReport(entries, m) > 0 && Summable(entries, m, energyTo, carbonTo))
      && (m in sums ==> sums[m] == SumOf(entries, m, energyTo, carbonTo))
  {
    hide IsPeriod;
    hide PeriodLe;
    hide TotalOf;
    hide SumOf;
    hide Summable;
    hide HowManyReport;
    hide EnergyIn;
    hide CarbonIn;
    var s := Sort(PeriodLe, entries);
    SortedSums(entries, options);
    SumsRearranged(s, entries, m, EnergyIn(entries, options), CarbonIn(entries, options));
    SummableRearranged(s, entries, m, EnergyIn(entries, options), CarbonIn(entries, options));
    EveryMetricIsSummed(m);
  }

  lemma EveryMetricIsSummed(m: Metric)
    ensures m in SUMMED[..5]
  {
    var i := match m case Energy => 0 case Carbon => 1 case Scope1 => 2 case Scope2 => 3 case Scope3 => 4;
    assert SUMMED[..5][i] == m;
  }

  function FigureOf(sums: map<Metric, real>, m: Metric): real {
    if m in sums then sums[m] else 0.0
  }

  /** However the objects are split in two, with the units fixed, the figures of the parts add up to those of the whole. */
  lemma FiguresAddUp(a: seq<Obj>, b: seq<Obj>, options: Options, m: Metric)
    requires AreObjects(a) && AreObjects(b) && options.energyUnit.Some? && options.carbonUnit.Some?
    requires TotalOf(a, options).Ok? && TotalOf(b, options).Ok? && AreObjects(a + b) && TotalOf(a + b, options).Ok?
    requires m in TotalOf(a + b, options).value.sums
    ensures TotalOf(a + b, options).value.sums[m]
      == FigureOf(TotalOf(a, options).value.sums, m) + FigureOf(TotalOf(b, options).value.sums, m)
  {
    hide IsPeriod;
    hide TotalOf;
    hide SumOf;
    hide Summable;
    hide HowManyReport;
    var energyTo, carbonTo := Known(options.energyUnit.value), Known(options.carbonUnit.value);
    SumsAreExact(a, options, m);
    SumsAreExact(b, options, m);
    SumsAreExact(a + b, options, m);
    SumsAppend(a, b, m, energyTo, carbonTo);
    SummableOfElements(a + b, a, m, energyTo, carbonTo);
    SummableOfElements(a + b, b, m, energyTo, carbonTo);
    if HowManyReport(a, m) == 0 {
      NothingReported(a, m, energyTo, carbonTo);
    }
    if HowManyReport(b, m) == 0 {
      NothingReported(b, m, energyTo, carbonTo);
    }
  }

  lemma {:induction false} NothingReported(s: seq<Obj>, m: Metric, energyTo: Stated<EnergyUnit>, carbonTo: Stated<CarbonUnit>)
    requires HowManyReport(s, m) == 0
    ensures SumOf(s, m, energyTo, carbonTo) == 0.0
  {
    hide Reports;
    if s != [] {
      NothingReported(s[..|s| - 1], m, energyTo, carbonTo);
    }
  }

  // ---- The lists of the summary ----

  lemma {:induction false} ListedSoFar(s: seq<Obj>, n: nat, m: Metric, energyTo: Stated<EnergyUnit>, carbonTo: Stated<CarbonUnit>)
    requires n <= |SUMMED|
    ensures m in Incomplete(s, n, energyTo, carbonTo) <==>
      m in SUMMED[..n] && 0 < HowManyReport(s, m) < |s| && Summable(s, m, energyTo, carbonTo)
    ensures m in NotSummable(s, n, energyTo, carbonTo) <==>
      m in SUMMED[..n] && 0 < HowManyReport(s, m) && !Summable(s, m, energyTo, carbonTo)
  {
    hide HowManyReport;
    hide Summable;
    if n > 0 {
      ListedSoFar(s, n - 1, m, energyTo, carbonTo);
      assert SUMMED[..n] == SUMMED[..n - 1] + [SUMMED[n - 1]];
    }
  }

  lemma SummarizedLists(s: seq<Obj>, options: Options)
    requires AreObjects(s) && s != []
    ensures var out := Summarize(s, options);
      && out.incomplete == Incomplete(s, 5, EnergyUnitOf(s, options), CarbonUnitOf(s, options))
      && out.notSummable == NotSummable(s, 5, EnergyUnitOf(s, options), CarbonUnitOf(s, options))
      && out.objects == |s|
  {
    hide IsPeriod;
    hide Sums;
    hide EnergyUnitOf;
    hide CarbonUnitOf;
    hide LatestEnd;
    hide IsContiguous;
    hide Incomplete;
    hide NotSummable;
  }

  /**
   * A metric is listed as incomplete exactly when it is summed over some of the objects and not over all, and as not
   * summable exactly when it is reported and some figure has a unit the consumer does not know.
   */
  lemma ListsAreExact(entries: seq<Obj>, options: Options, m: Metric)
    requires AreObjects(entries) && TotalOf(entries, options).Ok?
    ensures var out, energyTo, carbonTo := TotalOf(entries, options).value, EnergyIn(entries, options), CarbonIn(entries, options);
      && out.objects == |entries|
      && (m in out.incomplete <==> 0 < HowManyReport(entries, m) < |entries| && Summable(entries, m, energyTo, carbonTo))
      && (m in out.notSummable <==> 0 < HowManyReport(entries, m) && !Summable(entries, m, energyTo, carbonTo))
  {
    hide IsPeriod;
    hide PeriodLe;
    hide TotalOfSorted;
    hide Summarize;
    hide Incomplete;
    hide NotSummable;
    hide Summable;
    hide SumOf;
    hide HowManyReport;
    hide EnergyUnitOf;
    hide CarbonUnitOf;
    SortedAreObjects(entries);
    var s := Sort(PeriodLe, entries);
    AcceptedIsSummarized(s, options);
    SummarizedLists(s, options);
    var energyTo, carbonTo := EnergyUnitOf(s, options), CarbonUnitOf(s, options);
    ListedSoFar(s, 5, m, energyTo, carbonTo);
    EveryMetricIsSummed(m);
    SumsRearranged(s, entries, m, energyTo, carbonTo);
    SummableRearranged(s, entries, m, energyTo, carbonTo);
  }
}
