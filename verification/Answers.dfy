/**
 * A selection end to end: the parameters `security.js` honors, the objects it answers
 * with and their order, and how `compareWithRequest` of `fetch.ts` judges that answer.
 * The equality of two targets is a parameter, because the two sides decide it differently.
 */
module Answers {
  import opened CodePointOrder
  import opened DateTimes
  import opened Digits
  import opened Periods
  import opened ReferenceServer
  import opened ServerCalendar
  import opened Sorting
  import opened Texts
  import opened Wrappers

  // ---- The order of the server ----

  /** The order of two strings by their characters. */
  predicate StringLess(a: string, b: string) {
    if b == "" then false
    else if a == "" then true
    else a[0] < b[0] || (a[0] == b[0] && StringLess(a[1..], b[1..]))
  }

  function CompareInstants(a: Moment, b: Moment): int {
    if a.seconds != b.seconds then a.seconds - b.seconds
    else if StringLess(a.fraction, b.fraction) then -1
    else if StringLess(b.fraction, a.fraction) then 1
    else 0
  }

  /** Strings of one length are ordered by all but their last characters, and then by those. */
  lemma {:induction false} LessFromBack(a: string, b: string)
    requires |a| == |b| > 0
    ensures var n := |a| - 1;
      StringLess(a, b) <==> StringLess(a[..n], b[..n]) || (a[..n] == b[..n] && a[n] < b[n])
  {
    var n := |a| - 1;
    if n > 0 {
      LessFromBack(a[1..], b[1..]);
      assert a[1..][..n - 1] == a[..n][1..] && b[1..][..n - 1] == b[..n][1..];
      assert a[..n] == [a[0]] + a[..n][1..] && b[..n] == [b[0]] + b[..n][1..];
    }
  }

  /** Among digits of one length the order of characters is the order of numbers. */
  lemma {:induction false} DigitsOrder(a: string, b: string)
    requires IsDigits(a) && IsDigits(b) && |a| == |b|
    ensures StringLess(a, b) <==> Number(a) < Number(b)
  {
    if a != "" {
      hide StringLess;
      var n := |a| - 1;
      LessFromBack(a, b);
      DigitsOrder(a[..n], b[..n]);
      PadOfNumber(a[..n]);
      PadOfNumber(b[..n]);
    }
  }

  lemma MomentsOrder(a: Moment, b: Moment)
    requires |a.fraction| == |b.fraction| == 9 && IsDigits(a.fraction) && IsDigits(b.fraction)
    ensures Sign(CompareInstants(a, b)) == Sign(MomentInstant(a) - MomentInstant(b))
  {
    hide StringLess;
    DigitsOrder(a.fraction, b.fraction);
    DigitsOrder(b.fraction, a.fraction);
    PadOfNumber(a.fraction);
    PadOfNumber(b.fraction);
    PowersOfTen();
  }

  function CompareValues(a: string, b: string): int
    requires JsParse(a).Some? && JsParse(b).Some?
  {
    CompareInstants(JsParse(a).value, JsParse(b).value)
  }

  /** The server orders date-times as the consumer does. */
  lemma ServerOrdersInstants(a: string, b: string)
    requires IsDateTime(a) && IsDateTime(b)
    ensures JsParse(a).Some? && JsParse(b).Some?
    ensures Sign(CompareValues(a, b)) == CompareDateTimes(a, b)
  {
    hide Parse;
    hide JsParse;
    hide Instant;
    hide MomentInstant;
    hide CompareInstants;
    ServerReadsAsConsumer(a);
    ServerReadsAsConsumer(b);
    MomentsOrder(JsParse(a).value, JsParse(b).value);
  }

  // ---- Held objects ----

  /** A declaration object as far as a selection looks at it; `rest` is everything else it holds. */
  datatype Held = Held(period: Period, target: Text, extended: bool, rest: string)

  predicate IsHeld(o: Held) {
    IsPeriod(o.period)
  }

  predicate AreHeld(objects: seq<Held>) {
    forall i :: 0 <= i < |objects| ==> IsHeld(objects[i])
  }

  function CompareObjects(a: Held, b: Held): int {
    if !IsHeld(a) || !IsHeld(b) then 0 else
    ServerOrdersInstants(a.period.start, b.period.start);
    ServerOrdersInstants(a.period.end, b.period.end);
    var byStart, byEnd := CompareValues(a.period.start, b.period.start), CompareValues(a.period.end, b.period.end);
    if byStart != 0 then byStart else if byEnd != 0 then byEnd else FirstDifference(CodePoints(a.target), CodePoints(b.target))
  }

  predicate HeldLe(a: Held, b: Held) {
    CompareObjects(a, b) <= 0
  }

  /** What the order means: periods as the consumer orders them, and among equal periods the code points of the targets. */
  lemma OrderMeans(a: Held, b: Held)
    requires IsHeld(a) && IsHeld(b)
    ensures Sign(CompareObjects(a, b)) ==
      (if ComparePeriodStart(a.period, b.period) != 0 then ComparePeriodStart(a.period, b.period)
       else Sign(FirstDifference(CodePoints(a.target), CodePoints(b.target))))
  {
    hide Parse;
    hide CompareValues;
    hide CodePoints;
    hide FirstDifference;
    hide CompareDateTimes;
    hide Instant;
    ServerOrdersInstants(a.period.start, b.period.start);
    ServerOrdersInstants(a.period.end, b.period.end);
  }

  lemma {:induction false} DifferenceTransitive(a: seq<int>, b: seq<int>, c: seq<int>)
    requires FirstDifference(a, b) <= 0 && FirstDifference(b, c) <= 0
    ensures FirstDifference(a, c) <= 0
    ensures FirstDifference(a, b) < 0 || FirstDifference(b, c) < 0 ==> FirstDifference(a, c) < 0
  {
    if a != [] && b != [] && c != [] && a[0] == b[0] == c[0] {
      DifferenceTransitive(a[1..], b[1..], c[1..]);
    }
  }

  lemma OrderTransitive(a: Held, b: Held, c: Held)
    requires IsHeld(a) && IsHeld(b) && IsHeld(c) && HeldLe(a, b) && HeldLe(b, c)
    ensures HeldLe(a, c)
  {
    hide CompareObjects;
    hide Instant;
    hide IsDateTime;
    hide FirstDifference;
    hide CodePoints;
    OrderMeans(a, b);
    OrderMeans(b, c);
    OrderMeans(a, c);
    if FirstDifference(CodePoints(a.target), CodePoints(b.target)) <= 0 && FirstDifference(CodePoints(b.target), CodePoints(c.target)) <= 0 {
      DifferenceTransitive(CodePoints(a.target), CodePoints(b.target), CodePoints(c.target));
    }
  }

  lemma OrderTotal(a: Held, b: Held)
    requires IsHeld(a) && IsHeld(b)
    ensures HeldLe(a, b) || HeldLe(b, a)
  {
    hide CompareObjects;
    hide Instant;
    hide IsDateTime;
    hide FirstDifference;
    hide CodePoints;
    OrderMeans(a, b);
    OrderMeans(b, a);
    Antisymmetry(CodePoints(a.target), CodePoints(b.target));
  }

  lemma HeldAreOrdered(objects: seq<Held>)
    requires AreHeld(objects)
    ensures Orders(HeldLe, objects)
  {
    hide HeldLe;
    hide IsHeld;
    forall x, y | x in objects && y in objects ensures HeldLe(x, y) || HeldLe(y, x) {
      OrderTotal(x, y);
    }
    forall x, y, z | x in objects && y in objects && z in objects && HeldLe(x, y) && HeldLe(y, z) ensures HeldLe(x, z) {
      OrderTransitive(x, y, z);
    }
  }

  // ---- Selecting ----

  datatype Query = Query(target: Option<Text>, start: Option<string>, end: Option<string>, granularity: Option<Granularity>)

  predicate IsQuery(query: Query) {
    (query.start.Some? ==> IsUtcDateTime(query.start.value)) && (query.end.Some? ==> IsUtcDateTime(query.end.value))
  }

  lemma AllReadable(o: Held, query: Query)
    requires IsHeld(o) && IsQuery(query)
    ensures JsParse(o.period.start).Some? && JsParse(o.period.end).Some?
    ensures (query.start.Some? ==> JsParse(query.start.value).Some?) && (query.end.Some? ==> JsParse(query.end.value).Some?)
  {
    hide JsParse;
    hide Parse;
    ServerReadsAsConsumer(o.period.start);
    ServerReadsAsConsumer(o.period.end);
    if query.start.Some? { ServerReadsAsConsumer(query.start.value); }
    if query.end.Some? { ServerReadsAsConsumer(query.end.value); }
  }

  /** Whether the server takes the object for one that satisfies every parameter. */
  predicate Satisfies(matches: (Held, Text) -> bool, o: Held, query: Query)
    requires IsHeld(o) && IsQuery(query)
  {
    AllReadable(o, query);
    && (query.end.Some? ==> CompareValues(o.period.start, query.end.value) < 0)
    && (query.start.Some? ==> CompareValues(o.period.end, query.start.value) > 0)
    && (query.target.Some? ==> matches(o, query.target.value))
    && (query.granularity.Some? ==> ServerIsWhole(JsYear, o.period, query.granularity.value))
  }

  predicate IsSelected(matches: (Held, Text) -> bool, o: Held, query: Query)
    requires IsQuery(query)
  {
    IsHeld(o) && Satisfies(matches, o, query)
  }

  function Filter(matches: (Held, Text) -> bool, objects: seq<Held>, query: Query): seq<Held>
    requires IsQuery(query)
  {
    if objects == [] then []
    else if IsSelected(matches, objects[0], query) then [objects[0]] + Filter(matches, objects[1..], query)
    else Filter(matches, objects[1..], query)
  }

  lemma {:induction false} FilterKeeps(matches: (Held, Text) -> bool, objects: seq<Held>, query: Query)
    requires IsQuery(query)
    ensures forall o ::
      multiset(Filter(matches, objects, query))[o] == (if IsSelected(matches, o, query) then multiset(objects)[o] else 0)
  {
    hide IsSelected;
    hide IsQuery;
    if objects != [] {
      FilterKeeps(matches, objects[1..], query);
      assert objects == [objects[0]] + objects[1..];
    }
  }

  /** The selection: what is left of the objects after filtering, sorted. */
  function SelectObjects(matches: (Held, Text) -> bool, objects: seq<Held>, query: Query): seq<Held>
    requires AreHeld(objects) && IsQuery(query)
  {
    Sort(HeldLe, Filter(matches, objects, query))
  }

  /** An answer is a selection only where some object is `extended`; otherwise it is everything held, unsorted. */
  function AnswerQuery(matches: (Held, Text) -> bool, objects: seq<Held>, query: Query): seq<Held>
    requires AreHeld(objects) && IsQuery(query)
  {
    if exists i :: 0 <= i < |objects| && objects[i].extended then SelectObjects(matches, objects, query) else objects
  }

  /** The answer is exactly the satisfying part of what is held, each object as often as it is held, in order. */
  lemma AnswerIsTheSatisfyingPart(matches: (Held, Text) -> bool, objects: seq<Held>, query: Query)
    requires AreHeld(objects) && IsQuery(query)
    ensures var answer := SelectObjects(matches, objects, query);
      && AreHeld(answer) && SortedBy(HeldLe, answer)
      && forall o :: multiset(answer)[o] == (if IsSelected(matches, o, query) then multiset(objects)[o] else 0)
  {
    hide IsHeld;
    hide HeldLe;
    hide Satisfies;
    hide IsQuery;
    var kept := Filter(matches, objects, query);
    FilterKeeps(matches, objects, query);
    forall i | 0 <= i < |kept| ensures IsHeld(kept[i]) {
      assert multiset(kept)[kept[i]] > 0;
    }
    HeldAreOrdered(kept);
    SortIsSorted(HeldLe, kept);
    var answer := SelectObjects(matches, objects, query);
    forall i | 0 <= i < |answer| ensures IsHeld(answer[i]) {
      assert multiset(answer)[answer[i]] > 0;
    }
  }

  // ---- The consumer's judgement ----

  datatype Complaint = PeriodOutside(at: nat) | NotWhole(at: nat) | OtherTarget(at: nat)

  datatype Honored = Honored(start: Option<bool>, end: Option<bool>, target: Option<bool>, granularity: Option<bool>)

  /** Whether one object overlaps the range asked for. */
  predicate InRequestedRange(o: Held, query: Query)
    requires IsHeld(o) && IsQuery(query)
  {
    && (query.start.Some? ==> CompareDateTimes(o.period.end, query.start.value) > 0)
    && (query.end.Some? ==> CompareDateTimes(o.period.start, query.end.value) < 0)
  }

  predicate WholeAsRequested(o: Held, query: Query)
    requires IsHeld(o)
  {
    query.granularity.Some? ==> IsWholeCalendarPeriod(o.period, query.granularity.value)
  }

  predicate TargetAsRequested(matches: (Held, Text) -> bool, o: Held, query: Query) {
    query.target.Some? ==> matches(o, query.target.value)
  }

  /** What the consumer finds in one object, in the order in which it looks. */
  function ComplaintsOf(matches: (Held, Text) -> bool, o: Held, query: Query, at: nat): seq<Complaint>
    requires IsHeld(o) && IsQuery(query)
  {
    (if InRequestedRange(o, query) then [] else [PeriodOutside(at)])
    + (if WholeAsRequested(o, query) then [] else [NotWhole(at)])
    + (if TargetAsRequested(matches, o, query) then [] else [OtherTarget(at)])
  }

  function AllComplaints(matches: (Held, Text) -> bool, objects: seq<Held>, query: Query): seq<Complaint>
    requires AreHeld(objects) && IsQuery(query)
  {
    if objects == [] then [] else
    var n := |objects| - 1;
    AllComplaints(matches, objects[..n], query) + ComplaintsOf(matches, objects[n], query, n)
  }

  /** Judge the objects received one by one. */
  method CompareWithRequest(matches: (Held, Text) -> bool, objects: seq<Held>, query: Query)
    returns (honored: Honored, notAsRequested: seq<Complaint>)
    requires AreHeld(objects) && IsQuery(query)
    ensures notAsRequested == AllComplaints(matches, objects, query)
    ensures honored == HonoredBy(matches, objects, query)
  {
    hide Parse;
    hide ComplaintsOf;
    notAsRequested := [];
    for i := 0 to |objects|
      invariant notAsRequested == AllComplaints(matches, objects[..i], query)
    {
      assert objects[..i + 1][..i] == objects[..i] && objects[..i + 1][i] == objects[i];
      notAsRequested := notAsRequested + ComplaintsOf(matches, objects[i], query, i);
    }
    assert objects[..|objects|] == objects;
    honored := HonoredBy(matches, objects, query);
  }

  /** For each parameter asked, whether every object honors it. */
  function HonoredBy(matches: (Held, Text) -> bool, objects: seq<Held>, query: Query): Honored
    requires AreHeld(objects) && IsQuery(query)
  {
    Honored(
      if query.start.None? then None else
        Some(forall i :: 0 <= i < |objects| ==> CompareDateTimes(objects[i].period.end, query.start.value) > 0),
      if query.end.None? then None else
        Some(forall i :: 0 <= i < |objects| ==> CompareDateTimes(objects[i].period.start, query.end.value) < 0),
      if query.target.None? then None else
        Some(forall i :: 0 <= i < |objects| ==> matches(objects[i], query.target.value)),
      if query.granularity.None? then None else
        Some(forall i :: 0 <= i < |objects| ==> IsWholeCalendarPeriod(objects[i].period, query.granularity.value)))
  }

  /** There is nothing to complain of exactly when every parameter asked is honored. */
  lemma {:induction false} NoComplaintIffHonored(matches: (Held, Text) -> bool, objects: seq<Held>, query: Query)
    requires AreHeld(objects) && IsQuery(query)
    ensures var honored := HonoredBy(matches, objects, query);
      AllComplaints(matches, objects, query) == [] <==>
        honored.start != Some(false) && honored.end != Some(false) && honored.target != Some(false) && honored.granularity != Some(false)
  {
    hide Parse;
    hide Instant;
    hide IsWholeCalendarPeriod;
    NoComplaintIffAllFit(matches, objects, query);
  }

  predicate Fits(matches: (Held, Text) -> bool, o: Held, query: Query)
    requires IsHeld(o) && IsQuery(query)
  {
    InRequestedRange(o, query) && WholeAsRequested(o, query) && TargetAsRequested(matches, o, query)
  }

  lemma {:induction false} NoComplaintIffAllFit(matches: (Held, Text) -> bool, objects: seq<Held>, query: Query)
    requires AreHeld(objects) && IsQuery(query)
    ensures AllComplaints(matches, objects, query) == [] <==>
            forall i :: 0 <= i < |objects| ==> Fits(matches, objects[i], query)
  {
    hide InRequestedRange;
    hide WholeAsRequested;
    hide TargetAsRequested;
    hide IsHeld;
    hide IsQuery;
    if objects != [] {
      var n := |objects| - 1;
      NoComplaintIffAllFit(matches, objects[..n], query);
    }
  }

  // ---- End to end ----

  /** The years of the bounds are ones in which the daily test of the server is the calendar's. */
  predicate DaysAreKept(o: Held)
    requires IsHeld(o)
  {
    KeepsDays(JsYear, Parse(o.period.start).value.date.year, Parse(o.period.end).value.date.year)
  }

  /** Whether the two sides decide alike that the object names the target asked for. */
  predicate SameTargetRule(server: (Held, Text) -> bool, consumer: (Held, Text) -> bool, o: Held, query: Query) {
    query.target.Some? ==> server(o, query.target.value) == consumer(o, query.target.value)
  }

  /** The server selects an object exactly when the consumer would find that it fits the request. */
  lemma ServerAndConsumerAgree(server: (Held, Text) -> bool, consumer: (Held, Text) -> bool, o: Held, query: Query)
    requires IsHeld(o) && IsQuery(query) && SameTargetRule(server, consumer, o, query)
    requires query.granularity == Some(Daily) ==> DaysAreKept(o)
    ensures Satisfies(server, o, query) <==> Fits(consumer, o, query)
  {
    hide Parse;
    hide JsParse;
    hide KeepsDays;
    hide CompareDateTimes;
    hide CompareValues;
    hide IsWholeCalendarPeriod;
    hide ServerIsWhole;
    AllReadable(o, query);
    if query.start.Some? { ServerOrdersInstants(o.period.end, query.start.value); }
    if query.end.Some? { ServerOrdersInstants(o.period.start, query.end.value); }
    if query.granularity.Some? { DatesDecideWhole(JsYear, o.period, query.granularity.value); }
  }

  /** No object comes before one whose period starts, or starts alike and ends, earlier: no `not-ascending` warning. */
  predicate IsAscending(objects: seq<Held>)
    requires AreHeld(objects)
  {
    forall i :: 0 < i < |objects| ==> ComparePeriodStart(objects[i - 1].period, objects[i].period) <= 0
  }

  /** A server that supports the parameters: some object it holds is `extended`. */
  predicate IsExtended(objects: seq<Held>) {
    exists i :: 0 <= i < |objects| && objects[i].extended
  }

  /**
   * Every answer of an extended server is honored by the consumer: nothing is reported as not requested, and
   * the objects are in ascending order.
   */
  lemma AnswersAreHonored(server: (Held, Text) -> bool, consumer: (Held, Text) -> bool, objects: seq<Held>, query: Query)
    requires AreHeld(objects) && IsQuery(query) && IsExtended(objects)
    requires forall i :: 0 <= i < |objects| ==> SameTargetRule(server, consumer, objects[i], query)
    requires query.granularity == Some(Daily) ==> forall i :: 0 <= i < |objects| ==> DaysAreKept(objects[i])
    ensures var answer := AnswerQuery(server, objects, query);
      && AreHeld(answer)
      && AllComplaints(consumer, answer, query) == []
      && IsAscending(answer)
  {
    hide IsHeld;
    hide IsQuery;
    hide Satisfies;
    hide Fits;
    hide DaysAreKept;
    hide SameTargetRule;
    hide HeldLe;
    hide IsAscending;
    hide SelectObjects;
    hide AllComplaints;
    var answer := SelectObjects(server, objects, query);
    AnswerIsTheSatisfyingPart(server, objects, query);
    forall i | 0 <= i < |answer| ensures Fits(consumer, answer[i], query) {
      assert multiset(answer)[answer[i]] > 0;
      var j := IndexOf(objects, answer[i]);
      ServerAndConsumerAgree(server, consumer, answer[i], query);
    }
    NoComplaintIffAllFit(consumer, answer, query);
    SortedIsAscending(answer);
  }

  lemma SortedIsAscending(answer: seq<Held>)
    requires AreHeld(answer) && SortedBy(HeldLe, answer)
    ensures IsAscending(answer)
  {
    hide Parse;
    hide HeldLe;
    hide ComparePeriodStart;
    forall i | 0 < i < |answer| ensures ComparePeriodStart(answer[i - 1].period, answer[i].period) <= 0 {
      assert HeldLe(answer[i - 1], answer[i]);
      OrderGivesPeriods(answer[i - 1], answer[i]);
    }
  }

  lemma IndexOf(objects: seq<Held>, o: Held) returns (i: nat)
    requires multiset(objects)[o] > 0
    ensures i < |objects| && objects[i] == o
  {
    assert o in objects;
    i :| 0 <= i < |objects| && objects[i] == o;
  }

  lemma OrderGivesPeriods(a: Held, b: Held)
    requires IsHeld(a) && IsHeld(b) && HeldLe(a, b)
    ensures ComparePeriodStart(a.period, b.period) <= 0
  {
    hide CompareObjects;
    hide CompareDateTimes;
    OrderMeans(a, b);
  }
}
