/**
 * The upstream walk of `upstream.ts`: a recursive, bounded, no-revisit crawl of the
 * declarations that declarations name, and the comparison of each with its subject.
 * `Walk` is the state that every level of one walk shares; `UpstreamWalk` is the object
 * that updates it in place.
 */
module Upstream {
  import opened DateTimes
  import opened Periods
  import opened Transport
  import opened Units
  import opened Wrappers

  const MAX_UPSTREAM_DEPTH := 3

  /** The rounding allowance, relative to the upstream figure: one part in 10^9. */
  const EPSILON: real := 0.000000001

  // ---- Declarations ----

  datatype Accounting = LocationBased | MarketBased

  /** One `upstream` entry; a member that is not a string counts as absent. */
  datatype Entry = Entry(declaration: Option<string>, role: Option<string>)

  datatype Declaration = Declaration(
    period: Period,
    target: string,
    targetType: Option<string>,
    extended: bool,
    energy: Option<real>,
    energyUnit: Option<EnergyUnit>,
    carbon: Option<real>,
    carbonUnit: Option<CarbonUnit>,
    accounting: Option<Accounting>,
    upstream: seq<Entry>)

  /** What the body of a response holds, once read with the compatibility reading in force. */
  datatype Reading = TooLarge | TimedOut | Broken | NotJson | Document(objects: seq<Declaration>, schemaValid: bool)

  datatype Content = Content(isDeclarationType: bool, reading: Reading)

  datatype Figures = Figures(energyKWh: Option<real>, carbonG: Option<real>)

  datatype Verdict = Unreachable | NotComparable | UnderReported | Consistent

  datatype Failure =
    | Transport(reason: Reason) | HttpStatus(status: int) | WrongMediaType | BodyTooLarge | BodyTimeout | BodyError
    | BodyNotJson | TooManyObjects | Invalid

  datatype Detail =
    | DepthLimit | NotResolvable | NotHttps | AlreadySeen | BudgetSpent | NotRetrieved(failure: Failure)
    | NoSamePeriod(ignoredPeriodParameter: bool) | NotTenant | NoSharedFigure | Less | AtLeast

  datatype CarbonComparison = Compared | SkippedDifferentBasis

  datatype Comparison = Comparison(
    declaration: string,
    role: Option<string>,
    depth: nat,
    period: Option<Period>,
    verdict: Verdict,
    detail: Detail,
    subject: Option<Figures>,
    upstreamFigures: Option<Figures>,
    upstreamTarget: Option<string>,
    upstreamTargetType: Option<string>,
    carbonComparison: Option<CarbonComparison>,
    upstream: seq<Comparison>)

  /** The options of a walk; `setSearch` gives a query with `start` and `end` set. */
  datatype Env = Env(
    net: Network<Content>,
    rules: Rules,
    maxObjects: int,
    walkDepth: Option<int>,
    setSearch: (string, string, string) -> string)

  function MaxDepth(env: Env): int {
    var asked := env.walkDepth.GetOr(MAX_UPSTREAM_DEPTH);
    if asked < MAX_UPSTREAM_DEPTH then asked else MAX_UPSTREAM_DEPTH
  }

  // ---- Comparing two declarations ----

  function FiguresOf(d: Declaration): Figures {
    Figures(
      if d.energy.Some? then Some(ConvertEnergy(d.energy.value, d.energyUnit.GetOr(KWh), KWh)) else None,
      if d.carbon.Some? then Some(ConvertCarbon(d.carbon.value, d.carbonUnit.GetOr(G), G)) else None)
  }

  function MetricVerdict(subject: Option<real>, upstream: Option<real>): Option<Verdict> {
    if subject.None? || upstream.None? then None
    else if subject.value < upstream.value * (1.0 - EPSILON) then Some(UnderReported)
    else Some(Consistent)
  }

  datatype Judgement = Judgement(verdict: Verdict, detail: Detail, carbonComparison: Option<CarbonComparison>)

  function Judge(subject: Declaration, match_: Declaration): Judgement {
    if !IsTenant(match_) then Judgement(NotComparable, NotTenant, None) else
    var ours, theirs := FiguresOf(subject), FiguresOf(match_);
    var sameBasis := subject.accounting == match_.accounting;
    var energy := MetricVerdict(ours.energyKWh, theirs.energyKWh);
    var carbon := if sameBasis then MetricVerdict(ours.carbonG, theirs.carbonG) else None;
    var skipped := !sameBasis && ours.carbonG.Some? && theirs.carbonG.Some?;
    var note := if carbon.Some? then Some(Compared) else if skipped then Some(SkippedDifferentBasis) else None;
    if energy.None? && carbon.None? then Judgement(NotComparable, NoSharedFigure, note)
    else if energy == Some(UnderReported) || carbon == Some(UnderReported) then Judgement(UnderReported, Less, note)
    else Judgement(Consistent, AtLeast, note)
  }

  /** The declaration with its figures stated in other units. */
  function Restated(d: Declaration, energyUnit: EnergyUnit, carbonUnit: CarbonUnit): Declaration {
    d.(energy := if d.energy.Some? then Some(ConvertEnergy(d.energy.value, d.energyUnit.GetOr(KWh), energyUnit)) else None,
       energyUnit := Some(energyUnit),
       carbon := if d.carbon.Some? then Some(ConvertCarbon(d.carbon.value, d.carbonUnit.GetOr(G), carbonUnit)) else None,
       carbonUnit := Some(carbonUnit))
  }

  lemma RestatingKeepsFigures(d: Declaration, energyUnit: EnergyUnit, carbonUnit: CarbonUnit)
    ensures FiguresOf(Restated(d, energyUnit, carbonUnit)) == FiguresOf(d)
  {
    hide ConvertEnergy;
    hide ConvertCarbon;
    if d.energy.Some? {
      EnergyByWayOf(d.energy.value, d.energyUnit.GetOr(KWh), energyUnit, KWh);
    }
    if d.carbon.Some? {
      CarbonByWayOf(d.carbon.value, d.carbonUnit.GetOr(G), carbonUnit, G);
    }
  }

  /** Restating either side in other units never changes the judgement. */
  lemma RestatingKeepsJudgement(subject: Declaration, match_: Declaration, e1: EnergyUnit, c1: CarbonUnit,
                                e2: EnergyUnit, c2: CarbonUnit)
    ensures Judge(Restated(subject, e1, c1), Restated(match_, e2, c2)) == Judge(subject, match_)
  {
    hide FiguresOf;
    RestatingKeepsFigures(subject, e1, c1);
    RestatingKeepsFigures(match_, e2, c2);
  }

  // ---- Retrieving one declaration ----

  datatype Retrieved = Declarations(url: Url, objects: seq<Declaration>) | Nothing(failure: Failure)

  predicate IsValidDocument(reading: Reading) {
    reading.Document? && reading.schemaValid && forall i :: 0 <= i < |reading.objects| ==> IsPeriod(reading.objects[i].period)
  }

  /** What a response is worth: its declarations, or the first reason that there are none. */
  function ReadResponse(env: Env, status: int, content: Content, url: Url): Retrieved {
    if status != 200 then Nothing(HttpStatus(status))
    else if !content.isDeclarationType then Nothing(WrongMediaType)
    else
      match content.reading
      case TooLarge => Nothing(BodyTooLarge)
      case TimedOut => Nothing(BodyTimeout)
      case Broken => Nothing(BodyError)
      case NotJson => Nothing(BodyNotJson)
      case Document(objects, _) =>
        if |objects| > env.maxObjects then Nothing(TooManyObjects)
        else if !IsValidDocument(content.reading) then Nothing(Invalid)
        else Declarations(url, objects)
  }

  /** One call of `retrieve`: what was visited before it, the URI asked for, the requests it made and the URI that answered. */
  datatype Retrieval = Retrieval(before: set<Url>, requested: Url, depth: int, sentFrom: nat, sentTo: nat, answered: Option<Url>)

  /** What all levels of one walk share, with everything sent so far and every retrieval made. */
  datatype Walk = Walk(visited: set<Url>, remaining: int, wire: seq<Url>, trace: seq<Retrieval>)

  /** Count the URI as visited, spend one retrieval of the budget and retrieve it. */
  function Retrieve(env: Env, url: Url, depth: int, w: Walk): (Retrieved, Walk) {
    var key := WithoutFragment(url);
    var barred := w.visited + {key};
    var (got, sent) := GetFrom(env.net, env.rules, barred, w.wire, url, false, 0);
    var answered := if got.Got? then Some(WithoutFragment(got.url)) else None;
    var visited := if got.Got? then barred + {WithoutFragment(got.url)} else barred;
    var retrieved := if got.Got? then ReadResponse(env, got.status, got.content, got.url) else Nothing(Failure.Transport(got.reason));
    (retrieved, Walk(visited, w.remaining - 1, sent,
                     w.trace + [Retrieval(w.visited, key, depth, |w.wire|, |sent|, answered)]))
  }

  /** A URL that some reference names, from some base or none. */
  ghost predicate IsNamed(net: Network<Content>, url: Url) {
    exists reference, base :: net.resolve(reference, base) == Some(url)
  }

  /** A URL that a walk may ask for: one that is named, or such a one with a period set in its query. */
  ghost predicate MayBeAsked(env: Env, url: Url) {
    || IsNamed(env.net, url)
    || exists named: Url, start, end :: IsNamed(env.net, named) && url == named.(query := env.setSearch(named.query, start, end))
  }

  predicate MayRetrieve(url: Url, w: Walk) {
    WithoutFragment(url) !in w.visited && w.remaining > 0
  }

  // ---- The object for the same period ----

  predicate IsFor(d: Declaration, period: Period)
    requires IsPeriod(period)
  {
    IsPeriod(d.period) && CanonicalKey(d.period) == CanonicalKey(period)
  }

  predicate IsTenant(d: Declaration) {
    d.targetType == Some("tenant")
  }

  /** The first object for the period, tenant-scoped when so asked. */
  function FirstFor(objects: seq<Declaration>, period: Period, tenantOnly: bool): (found: Option<Declaration>)
    requires IsPeriod(period)
    ensures found.Some? ==> found.value in objects && IsFor(found.value, period) && (tenantOnly ==> IsTenant(found.value))
    ensures found.None? ==> forall d :: d in objects && IsFor(d, period) ==> tenantOnly && !IsTenant(d)
  {
    if objects == [] then None
    else if IsFor(objects[0], period) && (tenantOnly ==> IsTenant(objects[0])) then Some(objects[0])
    else FirstFor(objects[1..], period, tenantOnly)
  }

  /** The first tenant-scoped object for the period, or else the first for the period. */
  function SamePeriodObject(objects: seq<Declaration>, period: Period): (found: Option<Declaration>)
    requires IsPeriod(period)
    ensures found.Some? ==> found.value in objects && IsFor(found.value, period)
    ensures found.None? ==> forall d :: d in objects ==> !IsFor(d, period)
    ensures found.Some? && !IsTenant(found.value) ==> forall d :: d in objects && IsFor(d, period) ==> !IsTenant(d)
  {
    var tenant := FirstFor(objects, period, true);
    if tenant.Some? then tenant else FirstFor(objects, period, false)
  }

  function Scoped(env: Env, url: Url, period: Period): Url
    requires IsPeriod(period)
  {
    url.(query := env.setSearch(url.query, ToUtcQueryValue(period.start), ToUtcQueryValue(period.end)))
  }

  datatype Fetched =
    | FetchFailed(failure: Failure)
    | NoMatch(ignoredPeriodParameter: bool)
    | Matched(match_: Declaration, at: Url)

  predicate AsksAgain(objects: seq<Declaration>, period: Period)
    requires IsPeriod(period)
  {
    SamePeriodObject(objects, period).None? && exists i :: 0 <= i < |objects| && objects[i].extended
  }

  /** Retrieve one upstream URI and, when it answers other periods and declares `extended`, ask it for the period. */
  function FetchMatch(env: Env, period: Period, url: Url, depth: int, w: Walk): (Fetched, Walk)
    requires IsPeriod(period)
  {
    var (got, w1) := Retrieve(env, url, depth, w);
    if got.Nothing? then (FetchFailed(got.failure), w1) else
    var found := SamePeriodObject(got.objects, period);
    if found.Some? then (Matched(found.value, got.url), w1) else
    var scoped := Scoped(env, url, period);
    if !AsksAgain(got.objects, period) || !MayRetrieve(scoped, w1) then (NoMatch(false), w1) else
    var (again, w2) := Retrieve(env, scoped, depth, w1);
    if again.Nothing? then (NoMatch(false), w2) else
    var second := SamePeriodObject(again.objects, period);
    (if second.Some? then Matched(second.value, again.url) else NoMatch(true), w2)
  }

  // ---- One entry, and the whole walk ----

  datatype Decision = Skip(detail: Detail) | Fetch(url: Url)

  /** Whether an entry is retrieved at all: the checks made before anything is sent, in order. */
  function Decide(env: Env, entry: Entry, base: Option<Url>, depth: int, w: Walk): Decision {
    if depth > MaxDepth(env) then Skip(DepthLimit) else
    var url := env.net.resolve(entry.declaration.GetOr(""), base);
    if url.None? then Skip(NotResolvable)
    else if !env.rules.allowInsecure && url.value.scheme != "https" then Skip(NotHttps)
    else if WithoutFragment(url.value) in w.visited then Skip(AlreadySeen)
    else if w.remaining <= 0 then Skip(BudgetSpent)
    else Fetch(url.value)
  }

  function Blank(entry: Entry, depth: nat, period: Option<Period>, verdict: Verdict, detail: Detail): Comparison {
    Comparison(entry.declaration.GetOr(""), entry.role, depth, period, verdict, detail, None, None, None, None, None, [])
  }

  /** The entries of a declaration at the depth limit, reported and not followed. */
  function NotFollowed(entries: seq<Entry>, depth: nat): (out: seq<Comparison>)
    ensures |out| == |entries|
  {
    seq(|entries|, i requires 0 <= i < |entries| => Blank(entries[i], depth, None, Unreachable, DepthLimit))
  }

  function Compare(subject: Declaration, entry: Entry, depth: nat, match_: Declaration, nested: seq<Comparison>): Comparison {
    var judgement := Judge(subject, match_);
    Comparison(entry.declaration.GetOr(""), entry.role, depth, Some(subject.period), judgement.verdict, judgement.detail,
               Some(FiguresOf(subject)), Some(FiguresOf(match_)), Some(match_.target), match_.targetType,
               judgement.carbonComparison, nested)
  }

  function WithoutMatch(subject: Declaration, entry: Entry, depth: nat, ignored: bool): Comparison {
    Blank(entry, depth, Some(subject.period), NotComparable, NoSamePeriod(ignored)).(subject := Some(FiguresOf(subject)))
  }

  function Levels(env: Env, depth: nat): nat {
    if depth <= MaxDepth(env) then MaxDepth(env) - depth + 1 else 0
  }

  /** The walk of `entries`, entries of `subject`, in order: the state it leaves and one comparison for each. */
  function WalkEntries(env: Env, subject: Declaration, entries: seq<Entry>, base: Option<Url>, depth: nat, w: Walk):
    (r: (Walk, seq<Comparison>))
    requires IsPeriod(subject.period)
    ensures |r.1| == |entries|
    decreases Levels(env, depth), |entries|
  {
    if entries == [] then (w, []) else
    var (w1, first) := WalkEntry(env, subject, entries[0], base, depth, w);
    var (w2, rest) := WalkEntries(env, subject, entries[1..], base, depth, w1);
    (w2, [first] + rest)
  }

  function WalkEntry(env: Env, subject: Declaration, entry: Entry, base: Option<Url>, depth: nat, w: Walk): (Walk, Comparison)
    requires IsPeriod(subject.period)
    decreases Levels(env, depth), 0
  {
    var decision := Decide(env, entry, base, depth, w);
    if decision.Skip? then (w, Blank(entry, depth, Some(subject.period), Unreachable, decision.detail)) else
    var (fetched, w1) := FetchMatch(env, subject.period, decision.url, depth, w);
    match fetched
    case FetchFailed(failure) => (w1, Blank(entry, depth, Some(subject.period), Unreachable, NotRetrieved(failure)))
    case NoMatch(ignored) => (w1, WithoutMatch(subject, entry, depth, ignored))
    case Matched(found, at) =>
      FetchedIsForPeriod(env, subject.period, decision.url, depth, w);
      if depth < MaxDepth(env) then
        var (w2, nested) := WalkEntries(env, found, found.upstream, Some(at), depth + 1, w1);
        (w2, Compare(subject, entry, depth, found, nested))
      else
        (w1, Compare(subject, entry, depth, found, NotFollowed(found.upstream, depth + 1)))
  }

  /** A declaration is compared only with one for the same two instants, tenant-scoped if the document it came from holds such a one. */
  lemma FetchedIsForPeriod(env: Env, period: Period, url: Url, depth: int, w: Walk)
    requires IsPeriod(period)
    ensures var (fetched, _) := FetchMatch(env, period, url, depth, w);
      fetched.Matched? ==> IsPeriod(fetched.match_.period) && SamePeriod(fetched.match_.period, period)
  {
    hide CanonicalKey;
    hide Retrieve;
    hide SamePeriod;
    hide Scoped;
    hide IsPeriod;
    var (fetched, _) := FetchMatch(env, period, url, depth, w);
    if fetched.Matched? {
      assert IsFor(fetched.match_, period);
      KeysNamePeriods(fetched.match_.period, period);
    }
  }

  lemma KeysNamePeriods(p: Period, q: Period)
    requires IsPeriod(p) && IsPeriod(q)
    ensures CanonicalKey(p) == CanonicalKey(q) <==> SamePeriod(p, q)
  {
    hide CanonicalKey;
    hide SamePeriod;
    CanonicalKeyIffSamePeriod(p, q);
  }
}
