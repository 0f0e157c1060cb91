/**
 * When a report of a walk is true and leaves nothing out: the retrievals of the walk are
 * shared out among the entries, in order; each comparison is with the object that the
 * retrievals of its own entry gave for the same two instants, if they gave one, and its
 * verdict is the one the figures of both give; otherwise it tells why there is none. A
 * comparison that is true stays so while the walk goes on.
 */
module TrueReports {
  import opened Periods
  import opened Transport
  import opened Units
  import opened Upstream
  import opened UpstreamSafety
  import opened Wrappers

  // ---- What a retrieval gave ----

  /** The response that ended a retrieval; none where no response did. */
  ghost function Outcome(env: Env, sent: seq<Url>, r: Retrieval): Option<(Answer<Content>, Url)> {
    if r.sentFrom < r.sentTo <= |sent| && IsFinal(AnswerAt(env.net, sent, r.sentTo - 1)) then
      Some((AnswerAt(env.net, sent, r.sentTo - 1), sent[r.sentTo - 1]))
    else None
  }

  /** A response that is a valid document: of the media type, no longer than allowed, each object with a period. */
  predicate IsDocument(env: Env, answer: Answer<Content>) {
    && answer.Response? && answer.status == 200 && answer.content.isDeclarationType && answer.content.reading.Document?
    && answer.content.reading.schemaValid && |answer.content.reading.objects| <= env.maxObjects
    && forall d :: d in answer.content.reading.objects ==> IsPeriod(d.period)
  }

  /** The first thing that is wrong with a response that is no document. */
  predicate IsWrongWith(env: Env, answer: Answer<Content>, failure: Failure) {
    && answer.Response?
    && match failure
       case HttpStatus(status) => status == answer.status && status != 200
       case WrongMediaType => answer.status == 200 && !answer.content.isDeclarationType
       case BodyTooLarge => answer.status == 200 && answer.content.isDeclarationType && answer.content.reading.TooLarge?
       case BodyTimeout => answer.status == 200 && answer.content.isDeclarationType && answer.content.reading.TimedOut?
       case BodyError => answer.status == 200 && answer.content.isDeclarationType && answer.content.reading.Broken?
       case BodyNotJson => answer.status == 200 && answer.content.isDeclarationType && answer.content.reading.NotJson?
       case TooManyObjects =>
         && answer.status == 200 && answer.content.isDeclarationType && answer.content.reading.Document?
         && |answer.content.reading.objects| > env.maxObjects
       case Invalid =>
         && answer.status == 200 && answer.content.isDeclarationType && answer.content.reading.Document?
         && |answer.content.reading.objects| <= env.maxObjects && !IsDocument(env, answer)
       case Transport(_) => false
  }

  /** A response is read as its declarations exactly where it is a document, and else for what is wrong with it. */
  lemma ReadIsDocumentOrWrong(env: Env, answer: Answer<Content>, at: Url)
    requires answer.Response?
    ensures var read := ReadResponse(env, answer.status, answer.content, at);
      if IsDocument(env, answer) then read == Declarations(at, answer.content.reading.objects)
      else read.Nothing? && IsWrongWith(env, answer, read.failure)
  {
    hide IsPeriod;
    if answer.content.reading.Document? {
      var objects := answer.content.reading.objects;
      assert (forall i :: 0 <= i < |objects| ==> IsPeriod(objects[i].period)) <==> (forall d :: d in objects ==> IsPeriod(d.period));
    }
  }

  /** Retrieval `i` of the walk gave a valid document. */
  ghost predicate GaveDocument(env: Env, w: Walk, i: nat) {
    i < |w.trace| && Outcome(env, w.wire, w.trace[i]).Some? && IsDocument(env, Outcome(env, w.wire, w.trace[i]).value.0)
  }

  /** The objects that it gave, and the URL that it gave them from. */
  ghost function DocumentOf(env: Env, w: Walk, i: nat): Retrieved
    requires GaveDocument(env, w, i)
    ensures DocumentOf(env, w, i).Declarations?
  {
    var (answer, at) := Outcome(env, w.wire, w.trace[i]).value;
    Declarations(at, answer.content.reading.objects)
  }

  predicate IsOver(d: Declaration, period: Period)
    requires IsPeriod(period)
  {
    IsPeriod(d.period) && SamePeriod(d.period, period)
  }

  /** The document that retrieval `i` gave holds an object for the same two instants. */
  ghost predicate GaveObjectFor(env: Env, w: Walk, i: nat, period: Period)
    requires IsPeriod(period)
  {
    GaveDocument(env, w, i) && exists d :: d in DocumentOf(env, w, i).objects && IsOver(d, period)
  }

  // ---- What the walk stood at ----

  /** The URI was visited before the walk, or asked for or answered by one of its first `n` retrievals. */
  ghost predicate SeenBy(start: Walk, w: Walk, uri: Url, n: nat)
    requires n <= |w.trace|
  {
    uri in start.visited || exists k :: 0 <= k < n && uri in Owns(w.trace[k])
  }

  /** The budget left after `n` retrievals. */
  function BudgetAfter(start: Walk, n: nat): int {
    start.remaining - n
  }

  lemma StandsAt(env: Env, start: Walk, w: Walk)
    requires start.trace == [] && Reaches(env, start, w)
    ensures w.remaining == BudgetAfter(start, |w.trace|)
    ensures forall uri :: uri in w.visited <==> SeenBy(start, w, uri, |w.trace|)
  {
    hide Lawful;
    forall uri ensures uri in w.visited <==> SeenBy(start, w, uri, |w.trace|) {
      if w.trace != [] {
        VisitedSoFar(start, w, |w.trace| - 1, uri);
      }
    }
  }

  // ---- The verdict ----

  /** The energy that a declaration states, in kilowatt-hours: its own unit, or that one where it names none. */
  function EnergyStated(d: Declaration): Option<real> {
    if d.energy.None? then None else
    match d.energyUnit
    case None => d.energy
    case Some(Wh) => Some(d.energy.value / 1_000.0)
    case Some(KWh) => d.energy
    case Some(MWh) => Some(d.energy.value * 1_000.0)
    case Some(GWh) => Some(d.energy.value * 1_000_000.0)
  }

  /** The footprint that it states, in grams. */
  function CarbonStated(d: Declaration): Option<real> {
    if d.carbon.None? then None else
    match d.carbonUnit
    case None => d.carbon
    case Some(G) => d.carbon
    case Some(Kg) => Some(d.carbon.value * 1_000.0)
    case Some(T) => Some(d.carbon.value * 1_000_000.0)
  }

  function Stated(d: Declaration): Figures {
    Figures(EnergyStated(d), CarbonStated(d))
  }

  lemma FiguresAreStated(d: Declaration)
    ensures FiguresOf(d) == Stated(d)
  {
  }

  /** Whether a figure of the subject is below the upstream's, rounding aside, once both are in the common unit. */
  predicate Shortfall(subject: Option<real>, upstream: Option<real>) {
    subject.Some? && upstream.Some? && subject.value < upstream.value * (1.0 - EPSILON)
  }

  predicate Shared(subject: Option<real>, upstream: Option<real>) {
    subject.Some? && upstream.Some?
  }

  /** The metrics that two declarations may be compared by: energy, and carbon on one accounting basis. */
  predicate SomeShortfall(subject: Declaration, found: Declaration) {
    var ours, theirs := Stated(subject), Stated(found);
    Shortfall(ours.energyKWh, theirs.energyKWh) || (subject.accounting == found.accounting && Shortfall(ours.carbonG, theirs.carbonG))
  }

  predicate SomeShared(subject: Declaration, found: Declaration) {
    var ours, theirs := Stated(subject), Stated(found);
    Shared(ours.energyKWh, theirs.energyKWh) || (subject.accounting == found.accounting && Shared(ours.carbonG, theirs.carbonG))
  }

  predicate IsTenantScoped(d: Declaration) {
    d.targetType.Some? && d.targetType.value == "tenant"
  }

  /** The object at `i` is the one to compare: the first tenant-scoped one for the period or, if none is, the first for it. */
  predicate IsChosen(objects: seq<Declaration>, period: Period, i: nat)
    requires IsPeriod(period)
  {
    && i < |objects| && IsOver(objects[i], period)
    && (forall j :: 0 <= j < i && IsOver(objects[j], period) ==> !IsTenantScoped(objects[j]) && IsTenantScoped(objects[i]))
    && (IsTenantScoped(objects[i]) || forall j :: 0 <= j < |objects| && IsOver(objects[j], period) ==> !IsTenantScoped(objects[j]))
  }

  ghost predicate IsChoice(objects: seq<Declaration>, period: Period, found: Declaration)
    requires IsPeriod(period)
  {
    exists i :: 0 <= i < |objects| && objects[i] == found && IsChosen(objects, period, i)
  }

  /**
   * A comparison of the subject with an object found: it shows the figures of both; it is `under-reported` exactly when
   * the object is tenant-scoped and an admitted metric falls short, and not comparable exactly when the object is not
   * tenant-scoped or no admitted metric is shared; it gives the reason, and tells whether carbon took part.
   */
  predicate IsRight(subject: Declaration, found: Declaration, c: Comparison) {
    var carbonShared := Shared(Stated(subject).carbonG, Stated(found).carbonG);
    && c.period == Some(subject.period)
    && c.subject == Some(Stated(subject)) && c.upstreamFigures == Some(Stated(found))
    && c.upstreamTarget == Some(found.target) && c.upstreamTargetType == found.targetType
    && (c.verdict == UnderReported <==> IsTenantScoped(found) && SomeShortfall(subject, found))
    && (c.verdict == NotComparable <==> !IsTenantScoped(found) || !SomeShared(subject, found))
    && c.verdict != Unreachable
    && c.detail == (if !IsTenantScoped(found) then NotTenant else if c.verdict == NotComparable then NoSharedFigure
                    else if c.verdict == UnderReported then Less else AtLeast)
    && (c.carbonComparison == Some(Compared) <==> IsTenantScoped(found) && carbonShared && subject.accounting == found.accounting)
    && (c.carbonComparison == Some(SkippedDifferentBasis) <==> IsTenantScoped(found) && carbonShared && subject.accounting != found.accounting)
  }

  // ---- The retrievals of one entry ----

  /** The first asks for the URL of the entry, the second for that URL with the period set in its query; there are no more. */
  ghost predicate AreOwn(env: Env, w: Walk, url: Url, period: Period, from: nat, own: nat)
    requires IsPeriod(period)
  {
    && from <= own <= from + 2 && own <= |w.trace|
    && (from < own ==> w.trace[from].requested == WithoutFragment(url))
    && (from + 1 < own ==> w.trace[from + 1].requested == WithoutFragment(Scoped(env, url, period)))
  }

  /**
   * Whether the entry is asked a second time: its first retrieval gave a document with no object for the period and some
   * object that is extended, and the URL with the period set was not visited by then, with budget left.
   */
  ghost predicate AskedAgain(env: Env, start: Walk, w: Walk, url: Url, period: Period, from: nat)
    requires IsPeriod(period) && from < |w.trace|
  {
    && GaveDocument(env, w, from) && !GaveObjectFor(env, w, from, period)
    && (exists d :: d in DocumentOf(env, w, from).objects && d.extended)
    && !SeenBy(start, w, WithoutFragment(Scoped(env, url, period)), from + 1) && BudgetAfter(start, from + 1) > 0
  }

  /** Why an entry has no retrieval of its own. */
  ghost predicate IsWhyNotAsked(env: Env, start: Walk, w: Walk, entry: Entry, base: Option<Url>, depth: nat, detail: Detail, from: nat)
    requires from <= |w.trace|
  {
    var url := env.net.resolve(entry.declaration.GetOr(""), base);
    if depth > MaxDepth(env) then detail.DepthLimit?
    else if url.None? then detail.NotResolvable?
    else if !env.rules.allowInsecure && url.value.scheme != "https" then detail.NotHttps?
    else if SeenBy(start, w, WithoutFragment(url.value), from) then detail.AlreadySeen?
    else detail.BudgetSpent? && BudgetAfter(start, from) <= 0
  }

  /** An entry may be asked: none of the reasons against it holds. */
  ghost predicate IsAsked(env: Env, start: Walk, w: Walk, entry: Entry, base: Option<Url>, depth: nat, from: nat)
    requires from <= |w.trace|
  {
    var url := env.net.resolve(entry.declaration.GetOr(""), base);
    && depth <= MaxDepth(env) && url.Some? && (env.rules.allowInsecure || url.value.scheme == "https")
    && !SeenBy(start, w, WithoutFragment(url.value), from) && BudgetAfter(start, from) > 0
  }

  // ---- A comparison that is true ----

  predicate NamesEntry(c: Comparison, entry: Entry) {
    c.declaration == entry.declaration.GetOr("") && c.role == entry.role
  }

  predicate ShowsNothing(c: Comparison) {
    c.upstreamFigures.None? && c.upstreamTarget.None? && c.upstreamTargetType.None? && c.carbonComparison.None? && c.upstream == []
  }

  /** The entries of a declaration at the depth limit, each shown as not followed. */
  predicate AreNotFollowed(out: seq<Comparison>, entries: seq<Entry>, depth: nat) {
    && |out| == |entries|
    && forall i :: 0 <= i < |out| ==>
         NamesEntry(out[i], entries[i]) && out[i].depth == depth && out[i].verdict == Unreachable && out[i].detail == DepthLimit
         && out[i].period.None? && out[i].subject.None? && ShowsNothing(out[i])
  }

  /** A comparison without retrievals: nothing is compared, for one of the five reasons not to ask. */
  ghost predicate IsTrueUnasked(env: Env, start: Walk, w: Walk, entry: Entry, base: Option<Url>, depth: nat, c: Comparison, from: nat)
    requires from <= |w.trace|
  {
    c.verdict == Unreachable && c.subject.None? && ShowsNothing(c) && IsWhyNotAsked(env, start, w, entry, base, depth, c.detail, from)
  }

  /** The failure told is that of the response, or of the transport where there was none. */
  ghost predicate IsFailureOf(env: Env, w: Walk, i: nat, failure: Failure)
    requires i < |w.trace|
  {
    var outcome := Outcome(env, w.wire, w.trace[i]);
    if outcome.Some? then IsWrongWith(env, outcome.value.0, failure) else failure.Transport?
  }

  /** A comparison for an entry whose retrievals gave no such object: unreachable if there is no document, and else not comparable. */
  ghost predicate IsTrueUnmatched(env: Env, w: Walk, subject: Declaration, c: Comparison, from: nat, own: nat)
    requires from < own <= |w.trace|
  {
    && ShowsNothing(c)
    && if GaveDocument(env, w, from)
       then c.verdict == NotComparable && c.subject == Some(Stated(subject))
            && c.detail == NoSamePeriod(own == from + 2 && GaveDocument(env, w, from + 1))
       else c.verdict == Unreachable && c.subject.None? && c.detail.NotRetrieved? && IsFailureOf(env, w, from, c.detail.failure)
  }

  /**
   * A comparison that is true of an entry, whose own retrievals are those from place `from` on up to `own`, and below
   * which stand those up to `to`. Figures are shown exactly where one of its own retrievals gave an object for the same
   * two instants as the subject's: they are those of the object that the last of them gave, and the verdict is right.
   */
  ghost predicate IsTrueAfter(env: Env, start: Walk, w: Walk, subject: Declaration, entry: Entry, base: Option<Url>, depth: nat,
                              c: Comparison, from: nat, own: nat, to: nat)
    requires IsPeriod(subject.period)
    decreases c, 0
  {
    && from <= own <= to <= |w.trace|
    && (from == own <==> !IsAsked(env, start, w, entry, base, depth, from))
    && (from == own ==> to == own && IsTrueUnasked(env, start, w, entry, base, depth, c, from))
    && (from < own ==>
          var url := env.net.resolve(entry.declaration.GetOr(""), base).value;
          && AreOwn(env, w, url, subject.period, from, own)
          && (own == from + 2 <==> AskedAgain(env, start, w, url, subject.period, from)))
    && (c.upstreamFigures.Some? <==> exists i :: from <= i < own && GaveObjectFor(env, w, i, subject.period))
    && (from < own && c.upstreamFigures.None? ==> to == own && IsTrueUnmatched(env, w, subject, c, from, own))
    && (c.upstreamFigures.Some? ==> IsTrueMatched(env, start, w, subject, depth, c, own, to))
  }

  ghost predicate IsTrueMatched(env: Env, start: Walk, w: Walk, subject: Declaration, depth: nat, c: Comparison, own: nat, to: nat)
    requires IsPeriod(subject.period)
    decreases c, 0, 0
  {
    && 0 < own <= |w.trace| && GaveDocument(env, w, own - 1)
    && exists found :: IsTrueOf(env, start, w, subject, depth, c, own, to, found)
  }

  /** The figures shown are those of the object that the document at hand gives for the period. */
  ghost predicate IsTrueOf(env: Env, start: Walk, w: Walk, subject: Declaration, depth: nat, c: Comparison, own: nat, to: nat,
                           found: Declaration)
    requires IsPeriod(subject.period) && 0 < own <= |w.trace| && GaveDocument(env, w, own - 1)
    decreases c, 0, 0, 0
  {
    var document := DocumentOf(env, w, own - 1);
    && IsChoice(document.objects, subject.period, found) && IsPeriod(found.period)
    && IsTrueBelow(env, start, w, found, document.url, depth, c.upstream, own, to)
    && IsRight(subject, found, c)
  }

  /** What stands below a comparison: the entries of the object found, walked in turn or, at the depth limit, not followed. */
  ghost predicate IsTrueBelow(env: Env, start: Walk, w: Walk, found: Declaration, at: Url, depth: nat, out: seq<Comparison>,
                              own: nat, to: nat)
    requires IsPeriod(found.period)
    decreases out, 1
  {
    if depth < MaxDepth(env) then AreTrue(env, start, w, found, found.upstream, Some(at), depth + 1, out, own, to)
    else to == own && AreNotFollowed(out, found.upstream, depth + 1)
  }

  ghost predicate IsTrue(env: Env, start: Walk, w: Walk, subject: Declaration, entry: Entry, base: Option<Url>, depth: nat,
                         c: Comparison, from: nat, to: nat)
    requires IsPeriod(subject.period)
    decreases c, 1
  {
    && NamesEntry(c, entry) && c.depth == depth && c.period == Some(subject.period)
    && exists own: nat :: IsTrueAfter(env, start, w, subject, entry, base, depth, c, from, own, to)
  }

  /** One true comparison for each entry, in order, among which the retrievals from `from` on up to `to` are shared out. */
  ghost predicate AreTrue(env: Env, start: Walk, w: Walk, subject: Declaration, entries: seq<Entry>, base: Option<Url>, depth: nat,
                          out: seq<Comparison>, from: nat, to: nat)
    requires IsPeriod(subject.period)
    decreases out, 0
  {
    && |out| == |entries|
    && if out == [] then from == to
       else exists between: nat :: IsTrueFirst(env, start, w, subject, entries, base, depth, out, from, between, to)
  }

  ghost predicate IsTrueFirst(env: Env, start: Walk, w: Walk, subject: Declaration, entries: seq<Entry>, base: Option<Url>, depth: nat,
                              out: seq<Comparison>, from: nat, between: nat, to: nat)
    requires IsPeriod(subject.period) && out != [] && |out| == |entries|
    decreases out, 0, 0
  {
    && from <= between <= to
    && IsTrue(env, start, w, subject, entries[0], base, depth, out[0], from, between)
    && AreTrue(env, start, w, subject, entries[1..], base, depth, out[1..], between, to)
  }

  // ---- A walk that goes on ----

  ghost predicate Grows(w: Walk, later: Walk) {
    w.wire <= later.wire && w.trace <= later.trace
  }

  /** A later state of the walk, in which the retrievals made so far gave what they gave. */
  ghost predicate GoesOn(env: Env, w: Walk, later: Walk) {
    && w.trace <= later.trace
    && forall i :: 0 <= i < |w.trace| ==> Outcome(env, later.wire, later.trace[i]) == Outcome(env, w.wire, w.trace[i])
  }

  lemma StillGave(env: Env, start: Walk, w: Walk, later: Walk, i: nat)
    requires start.trace == [] && Reaches(env, start, w) && Grows(w, later) && i < |w.trace|
    ensures later.trace[i] == w.trace[i] && Outcome(env, later.wire, w.trace[i]) == Outcome(env, w.wire, w.trace[i])
  {
    hide ReadResponse;
    hide IsFinal;
    hide IsPermitted;
    hide MayBeAsked;
    hide Chained;
    var r := w.trace[i];
    assert Lawful(env, w.wire, r);
    if r.sentFrom < r.sentTo {
      assert w.wire[..r.sentTo - 1] == later.wire[..r.sentTo - 1];
    }
  }

  lemma WalkGoesOn(env: Env, start: Walk, w: Walk, later: Walk)
    requires start.trace == [] && Reaches(env, start, w) && Reaches(env, w, later)
    ensures GoesOn(env, w, later)
  {
    hide Outcome;
    hide Lawful;
    hide Chained;
    forall i | 0 <= i < |w.trace| ensures Outcome(env, later.wire, later.trace[i]) == Outcome(env, w.wire, w.trace[i]) {
      StillGave(env, start, w, later, i);
    }
  }

  lemma StillGives(env: Env, w: Walk, later: Walk, i: nat)
    requires GoesOn(env, w, later) && i < |w.trace|
    ensures GaveDocument(env, later, i) <==> GaveDocument(env, w, i)
    ensures GaveDocument(env, w, i) ==> DocumentOf(env, later, i) == DocumentOf(env, w, i)
  {
    hide Outcome;
  }

  lemma StillSeen(env: Env, start: Walk, w: Walk, later: Walk, uri: Url, n: nat)
    requires GoesOn(env, w, later) && n <= |w.trace|
    ensures SeenBy(start, later, uri, n) <==> SeenBy(start, w, uri, n)
  {
    hide Outcome;
  }

  lemma GoneOn(env: Env, w: Walk, later: Walk)
    requires GoesOn(env, w, later)
    ensures w.trace <= later.trace
  {
    hide Outcome;
  }

  lemma StillUnasked(env: Env, start: Walk, w: Walk, later: Walk, entry: Entry, base: Option<Url>, depth: nat, c: Comparison, from: nat)
    requires GoesOn(env, w, later) && from <= |w.trace|
    ensures IsAsked(env, start, later, entry, base, depth, from) <==> IsAsked(env, start, w, entry, base, depth, from)
    ensures IsTrueUnasked(env, start, later, entry, base, depth, c, from) <==> IsTrueUnasked(env, start, w, entry, base, depth, c, from)
  {
    hide GoesOn;
    hide SeenBy;
    var url := env.net.resolve(entry.declaration.GetOr(""), base);
    if url.Some? {
      StillSeen(env, start, w, later, WithoutFragment(url.value), from);
    }
    GoneOn(env, w, later);
  }

  lemma StillAskedAgain(env: Env, start: Walk, w: Walk, later: Walk, url: Url, period: Period, from: nat)
    requires IsPeriod(period) && GoesOn(env, w, later) && from < |w.trace|
    ensures AskedAgain(env, start, later, url, period, from) <==> AskedAgain(env, start, w, url, period, from)
  {
    hide GoesOn;
    hide SeenBy;
    hide GaveDocument;
    hide IsPeriod;
    hide IsOver;
    hide Scoped;
    hide DocumentOf;
    GoneOn(env, w, later);
    StillGives(env, w, later, from);
    StillSeen(env, start, w, later, WithoutFragment(Scoped(env, url, period)), from + 1);
  }

  lemma StillUnmatched(env: Env, w: Walk, later: Walk, subject: Declaration, c: Comparison, from: nat, own: nat)
    requires GoesOn(env, w, later) && from < own <= |w.trace|
    ensures IsTrueUnmatched(env, later, subject, c, from, own) <==> IsTrueUnmatched(env, w, subject, c, from, own)
  {
    hide Outcome;
    hide Stated;
    GoneOn(env, w, later);
    StillGives(env, w, later, from);
    if from + 1 < own {
      StillGives(env, w, later, from + 1);
    } else {
      hide GaveDocument;
    }
  }

  lemma StillOwn(env: Env, w: Walk, later: Walk, url: Url, period: Period, from: nat, own: nat)
    requires IsPeriod(period) && GoesOn(env, w, later) && AreOwn(env, w, url, period, from, own)
    ensures AreOwn(env, later, url, period, from, own)
  {
    hide GoesOn;
    hide IsPeriod;
    hide Scoped;
    GoneOn(env, w, later);
  }

  lemma StillGivesObject(env: Env, w: Walk, later: Walk, period: Period, from: nat, own: nat)
    requires IsPeriod(period) && GoesOn(env, w, later) && own <= |w.trace|
    ensures (exists i :: from <= i < own && GaveObjectFor(env, later, i, period))
            <==> (exists i :: from <= i < own && GaveObjectFor(env, w, i, period))
  {
    hide GoesOn;
    hide IsPeriod;
    hide IsOver;
    hide GaveDocument;
    hide DocumentOf;
    forall i: nat | i < own ensures GaveObjectFor(env, later, i, period) <==> GaveObjectFor(env, w, i, period) {
      StillGives(env, w, later, i);
    }
    hide GaveObjectFor;
  }

  lemma {:induction false} StillBelow(env: Env, start: Walk, w: Walk, later: Walk, found: Declaration, at: Url, depth: nat,
                                      out: seq<Comparison>, own: nat, to: nat)
    requires IsPeriod(found.period) && GoesOn(env, w, later) && IsTrueBelow(env, start, w, found, at, depth, out, own, to)
    ensures IsTrueBelow(env, start, later, found, at, depth, out, own, to)
    decreases out, 1
  {
    hide GoesOn;
    hide IsPeriod;
    hide AreTrue;
    hide AreNotFollowed;
    if depth < MaxDepth(env) {
      StillAreTrue(env, start, w, later, found, found.upstream, Some(at), depth + 1, out, own, to);
    }
  }

  lemma {:induction false} StillMatched(env: Env, start: Walk, w: Walk, later: Walk, subject: Declaration, depth: nat, c: Comparison,
                                        own: nat, to: nat)
    requires IsPeriod(subject.period) && GoesOn(env, w, later) && IsTrueMatched(env, start, w, subject, depth, c, own, to)
    ensures IsTrueMatched(env, start, later, subject, depth, c, own, to)
    decreases c, 0
  {
    hide GoesOn;
    hide IsPeriod;
    hide IsChoice;
    hide IsRight;
    hide GaveDocument;
    hide DocumentOf;
    hide IsTrueBelow;
    GoneOn(env, w, later);
    StillGives(env, w, later, own - 1);
    var found :| IsTrueOf(env, start, w, subject, depth, c, own, to, found);
    var document := DocumentOf(env, w, own - 1);
    StillBelow(env, start, w, later, found, document.url, depth, c.upstream, own, to);
    assert IsTrueOf(env, start, later, subject, depth, c, own, to, found);
  }

  lemma IsAskedResolves(env: Env, start: Walk, w: Walk, entry: Entry, base: Option<Url>, depth: nat, from: nat)
    requires from <= |w.trace| && IsAsked(env, start, w, entry, base, depth, from)
    ensures env.net.resolve(entry.declaration.GetOr(""), base).Some?
  {
    hide SeenBy;
  }

  lemma {:induction false} StillTrue(env: Env, start: Walk, w: Walk, later: Walk, subject: Declaration, entry: Entry, base: Option<Url>,
                                     depth: nat, c: Comparison, from: nat, to: nat)
    requires IsPeriod(subject.period) && GoesOn(env, w, later) && IsTrue(env, start, w, subject, entry, base, depth, c, from, to)
    ensures IsTrue(env, start, later, subject, entry, base, depth, c, from, to)
    decreases c, 1
  {
    hide GoesOn;
    hide IsPeriod;
    hide IsAsked;
    hide IsTrueUnasked;
    hide IsTrueUnmatched;
    hide IsTrueMatched;
    hide AskedAgain;
    hide AreOwn;
    hide GaveObjectFor;
    GoneOn(env, w, later);
    var own: nat :| IsTrueAfter(env, start, w, subject, entry, base, depth, c, from, own, to);
    StillUnasked(env, start, w, later, entry, base, depth, c, from);
    StillGivesObject(env, w, later, subject.period, from, own);
    if from < own {
      IsAskedResolves(env, start, w, entry, base, depth, from);
      var url := env.net.resolve(entry.declaration.GetOr(""), base).value;
      StillOwn(env, w, later, url, subject.period, from, own);
      StillAskedAgain(env, start, w, later, url, subject.period, from);
      StillUnmatched(env, w, later, subject, c, from, own);
    }
    if c.upstreamFigures.Some? {
      StillMatched(env, start, w, later, subject, depth, c, own, to);
    }
    assert IsTrueAfter(env, start, later, subject, entry, base, depth, c, from, own, to);
  }

  lemma {:induction false} StillAreTrue(env: Env, start: Walk, w: Walk, later: Walk, subject: Declaration, entries: seq<Entry>,
                                        base: Option<Url>, depth: nat, out: seq<Comparison>, from: nat, to: nat)
    requires IsPeriod(subject.period) && GoesOn(env, w, later) && AreTrue(env, start, w, subject, entries, base, depth, out, from, to)
    ensures AreTrue(env, start, later, subject, entries, base, depth, out, from, to)
    decreases out, 0
  {
    hide GoesOn;
    hide IsPeriod;
    hide IsTrue;
    if out != [] {
      var between: nat :| IsTrueFirst(env, start, w, subject, entries, base, depth, out, from, between, to);
      StillTrue(env, start, w, later, subject, entries[0], base, depth, out[0], from, between);
      StillAreTrue(env, start, w, later, subject, entries[1..], base, depth, out[1..], between, to);
      assert IsTrueFirst(env, start, later, subject, entries, base, depth, out, from, between, to);
    }
  }
}
