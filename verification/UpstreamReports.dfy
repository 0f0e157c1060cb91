/**
 * Every report of a walk is true in the sense of `TrueReports`, on every network and from
 * every visited set and budget: by induction over the levels and entries of the walk.
 */
module UpstreamReports {
  import opened Periods
  import opened Transport
  import opened TrueReports
  import opened Upstream
  import opened UpstreamSafety
  import opened Wrappers

  // ---- What the retrievals of one entry give ----

  lemma RetrieveGives(env: Env, url: Url, depth: int, w: Walk)
    ensures var (got, after) := Retrieve(env, url, depth, w);
      && |after.trace| == |w.trace| + 1 && w.trace <= after.trace && after.trace[|w.trace|].requested == WithoutFragment(url)
      && var outcome := Outcome(env, after.wire, after.trace[|w.trace|]);
         if outcome.Some? then
           var (answer, at) := outcome.value;
           answer.Response? && ReadResponse(env, answer.status, answer.content, at) == got
         else got.Nothing? && got.failure.Transport?
  {
    hide ReadResponse;
    hide IsPermitted;
    hide Redirected;
    hide AnswerAt;
    hide GetFrom;
    hide WithoutFragment;
    GetFollowsTheRules(env.net, env.rules, w.visited + {WithoutFragment(url)}, w.wire, url, false, 0);
  }

  lemma RetrieveGivesDocument(env: Env, url: Url, depth: int, w: Walk)
    ensures var (got, after) := Retrieve(env, url, depth, w);
      && |after.trace| == |w.trace| + 1 && w.trace <= after.trace && after.trace[|w.trace|].requested == WithoutFragment(url)
      && (GaveDocument(env, after, |w.trace|) <==> got.Declarations?)
      && (got.Declarations? ==> DocumentOf(env, after, |w.trace|) == got)
      && (got.Nothing? ==> IsFailureOf(env, after, |w.trace|, got.failure))
  {
    hide Outcome;
    hide Retrieve;
    hide ReadResponse;
    hide IsDocument;
    hide IsWrongWith;
    RetrieveGives(env, url, depth, w);
    var after := Retrieve(env, url, depth, w).1;
    var outcome := Outcome(env, after.wire, after.trace[|w.trace|]);
    if outcome.Some? {
      ReadIsDocumentOrWrong(env, outcome.value.0, outcome.value.1);
      if IsDocument(env, outcome.value.0) {
        DocumentIsDocument(env, outcome.value.0);
      }
    }
  }

  lemma DocumentIsDocument(env: Env, answer: Answer<Content>)
    requires IsDocument(env, answer)
    ensures answer.Response? && answer.content.reading.Document?
  {
    hide IsPeriod;
  }

  lemma IsForIffOver(d: Declaration, period: Period)
    requires IsPeriod(period)
    ensures IsFor(d, period) <==> IsOver(d, period)
  {
    hide IsPeriod;
    hide CanonicalKey;
    hide SamePeriod;
    if IsPeriod(d.period) {
      KeysNamePeriods(d.period, period);
    }
  }

  lemma {:induction false} FirstForIs(objects: seq<Declaration>, period: Period, tenantOnly: bool) returns (i: nat)
    requires IsPeriod(period)
    ensures var found := FirstFor(objects, period, tenantOnly);
      if found.None? then forall j :: 0 <= j < |objects| && IsOver(objects[j], period) ==> tenantOnly && !IsTenantScoped(objects[j])
      else
        && i < |objects| && objects[i] == found.value && IsOver(objects[i], period) && (tenantOnly ==> IsTenantScoped(objects[i]))
        && forall j :: 0 <= j < i && IsOver(objects[j], period) ==> tenantOnly && !IsTenantScoped(objects[j])
  {
    hide IsPeriod;
    hide IsFor;
    hide IsOver;
    i := 0;
    if objects != [] {
      IsForIffOver(objects[0], period);
      if !(IsFor(objects[0], period) && (tenantOnly ==> IsTenant(objects[0]))) {
        var k := FirstForIs(objects[1..], period, tenantOnly);
        i := k + 1;
        assert forall j :: 0 < j < |objects| ==> objects[j] == objects[1..][j - 1];
      }
    }
  }

  /** The reader finds an object exactly where there is one for the period, and then the one to compare. */
  lemma SamePeriodObjectIs(objects: seq<Declaration>, period: Period)
    requires IsPeriod(period)
    ensures SamePeriodObject(objects, period).Some? <==> exists d :: d in objects && IsOver(d, period)
    ensures SamePeriodObject(objects, period).Some? ==>
      IsOver(SamePeriodObject(objects, period).value, period) && IsChoice(objects, period, SamePeriodObject(objects, period).value)
  {
    hide IsPeriod;
    hide FirstFor;
    hide IsOver;
    hide IsFor;
    hide IsTenantScoped;
    var tenant := FirstForIs(objects, period, true);
    var any := FirstForIs(objects, period, false);
    if FirstFor(objects, period, true).Some? {
      assert IsChosen(objects, period, tenant);
    } else if FirstFor(objects, period, false).Some? {
      assert IsChosen(objects, period, any);
    } else {
      forall d | d in objects ensures !IsOver(d, period) {
        var j :| 0 <= j < |objects| && objects[j] == d;
      }
    }
  }

  /** What is fetched for an entry, told by its own retrievals alone. */
  ghost predicate FetchTells(env: Env, start: Walk, w: Walk, period: Period, url: Url, fetched: Fetched, from: nat, own: nat)
    requires IsPeriod(period)
  {
    && from < own && AreOwn(env, w, url, period, from, own)
    && (own == from + 2 <==> AskedAgain(env, start, w, url, period, from))
    && (fetched.Matched? <==> exists i :: from <= i < own && GaveObjectFor(env, w, i, period))
    && match fetched
       case FetchFailed(failure) => !GaveDocument(env, w, from) && IsFailureOf(env, w, from, failure)
       case NoMatch(ignored) => GaveDocument(env, w, from) && ignored == (own == from + 2 && GaveDocument(env, w, from + 1))
       case Matched(found, at) => IsMatchOf(env, w, own - 1, period, found, at)
  }

  ghost predicate IsMatchOf(env: Env, w: Walk, i: nat, period: Period, found: Declaration, at: Url)
    requires IsPeriod(period)
  {
    && GaveDocument(env, w, i) && DocumentOf(env, w, i).url == at && IsOver(found, period)
    && IsChoice(DocumentOf(env, w, i).objects, period, found)
  }

  lemma GaveObjectIff(env: Env, w: Walk, i: nat, period: Period)
    requires IsPeriod(period) && GaveDocument(env, w, i)
    ensures var match_ := SamePeriodObject(DocumentOf(env, w, i).objects, period);
      && (GaveObjectFor(env, w, i, period) <==> match_.Some?)
      && (match_.Some? ==> IsMatchOf(env, w, i, period, match_.value, DocumentOf(env, w, i).url))
  {
    hide IsPeriod;
    hide IsOver;
    hide GaveDocument;
    hide DocumentOf;
    SamePeriodObjectIs(DocumentOf(env, w, i).objects, period);
    hide SamePeriodObject;
  }

  /** Once the first retrieval is over: whether there is a second is decided by what the first gave and where the walk stands. */
  lemma AskedAgainIff(env: Env, start: Walk, w: Walk, period: Period, url: Url, from: nat)
    requires IsPeriod(period) && start.trace == [] && Reaches(env, start, w) && |w.trace| == from + 1 && GaveDocument(env, w, from)
    ensures AskedAgain(env, start, w, url, period, from)
            <==> AsksAgain(DocumentOf(env, w, from).objects, period) && MayRetrieve(Scoped(env, url, period), w)
  {
    hide IsPeriod;
    hide Scoped;
    hide Reaches;
    hide GaveDocument;
    hide DocumentOf;
    hide SeenBy;
    hide WithoutFragment;
    hide GaveObjectFor;
    hide IsMatchOf;
    hide SamePeriodObject;
    StandsAt(env, start, w);
    GaveObjectIff(env, w, from, period);
  }

  lemma TellsFirst(env: Env, start: Walk, w: Walk, period: Period, url: Url, fetched: Fetched, from: nat)
    requires IsPeriod(period) && |w.trace| == from + 1 && w.trace[from].requested == WithoutFragment(url)
    requires !AskedAgain(env, start, w, url, period, from)
    requires match fetched
      case FetchFailed(failure) => !GaveDocument(env, w, from) && IsFailureOf(env, w, from, failure)
      case NoMatch(ignored) => GaveDocument(env, w, from) && !GaveObjectFor(env, w, from, period) && !ignored
      case Matched(found, at) => GaveObjectFor(env, w, from, period) && IsMatchOf(env, w, from, period, found, at)
    ensures FetchTells(env, start, w, period, url, fetched, from, from + 1)
  {
    hide IsPeriod;
    hide Scoped;
    hide AskedAgain;
    hide IsMatchOf;
    hide IsFailureOf;
    hide IsOver;
    hide WithoutFragment;
    hide GaveDocument;
  }

  lemma TellsSecond(env: Env, start: Walk, w: Walk, period: Period, url: Url, fetched: Fetched, from: nat)
    requires IsPeriod(period) && |w.trace| == from + 2 && w.trace[from].requested == WithoutFragment(url)
    requires w.trace[from + 1].requested == WithoutFragment(Scoped(env, url, period))
    requires AskedAgain(env, start, w, url, period, from)
    requires match fetched
      case FetchFailed(_) => false
      case NoMatch(ignored) => !GaveObjectFor(env, w, from + 1, period) && ignored == GaveDocument(env, w, from + 1)
      case Matched(found, at) => GaveObjectFor(env, w, from + 1, period) && IsMatchOf(env, w, from + 1, period, found, at)
    ensures FetchTells(env, start, w, period, url, fetched, from, from + 2)
  {
    hide IsPeriod;
    hide Scoped;
    hide IsMatchOf;
    hide IsFailureOf;
    hide GaveDocument;
    hide GaveObjectFor;
    hide SeenBy;
    hide IsOver;
    hide WithoutFragment;
  }

  /** The second retrieval: it is made where the first asks for it, and what it gives, if anything, decides. */
  lemma AgainTellsTrue(env: Env, start: Walk, period: Period, url: Url, depth: nat, w1: Walk, from: nat)
    requires IsPeriod(period) && 1 <= depth <= MaxDepth(env) && IsNamed(env.net, url) && MayRetrieve(Scoped(env, url, period), w1)
    requires start.trace == [] && Reaches(env, start, w1)
    requires |w1.trace| == from + 1 && w1.trace[from].requested == WithoutFragment(url) && GaveDocument(env, w1, from)
    requires AskedAgain(env, start, w1, url, period, from)
    ensures var (again, w2) := Retrieve(env, Scoped(env, url, period), depth, w1);
      && |w2.trace| == from + 2
      && var fetched := if again.Nothing? then NoMatch(false) else
           var second := SamePeriodObject(again.objects, period);
           if second.Some? then Matched(second.value, again.url) else NoMatch(true);
         FetchTells(env, start, w2, period, url, fetched, from, from + 2)
  {
    hide IsPeriod;
    hide IsOver;
    hide Scoped;
    hide Reaches;
    hide GaveDocument;
    hide Retrieve;
    hide MayRetrieve;
    hide DocumentOf;
    hide SamePeriodObject;
    hide IsNamed;
    hide MaxDepth;
    hide AskedAgain;
    hide FetchTells;
    hide IsMatchOf;
    hide WithoutFragment;
    hide GoesOn;
    hide MayBeAsked;
    var scoped := Scoped(env, url, period);
    var (again, w2) := Retrieve(env, scoped, depth, w1);
    RetrieveGivesDocument(env, scoped, depth, w1);
    ScopedMayBeAsked(env, url, period);
    RetrieveReaches(env, scoped, depth, w1);
    WalkGoesOn(env, start, w1, w2);
    StillAskedAgain(env, start, w1, w2, url, period, from);
    if again.Nothing? {
      TellsSecond(env, start, w2, period, url, NoMatch(false), from);
    } else {
      GaveObjectIff(env, w2, from + 1, period);
      hide GaveObjectFor;
      var second := SamePeriodObject(again.objects, period);
      TellsSecond(env, start, w2, period, url, if second.Some? then Matched(second.value, again.url) else NoMatch(true), from);
    }
  }

  lemma NoDocumentNoMore(env: Env, start: Walk, w: Walk, period: Period, url: Url, from: nat)
    requires IsPeriod(period) && from < |w.trace| && !GaveDocument(env, w, from)
    ensures !AskedAgain(env, start, w, url, period, from)
  {
    hide IsPeriod;
    hide GaveDocument;
  }

  lemma FetchTellsTrue(env: Env, start: Walk, period: Period, url: Url, depth: nat, w: Walk)
    requires IsPeriod(period) && MayRetrieve(url, w) && 1 <= depth <= MaxDepth(env) && IsNamed(env.net, url)
    requires start.trace == [] && Reaches(env, start, w)
    ensures var (fetched, after) := FetchMatch(env, period, url, depth, w);
      FetchTells(env, start, after, period, url, fetched, |w.trace|, |after.trace|)
  {
    hide IsPeriod;
    hide IsOver;
    hide Scoped;
    hide Reaches;
    hide GaveDocument;
    hide Retrieve;
    hide MayRetrieve;
    hide DocumentOf;
    hide IsFailureOf;
    hide SamePeriodObject;
    hide IsNamed;
    hide MaxDepth;
    hide AskedAgain;
    hide GaveObjectFor;
    hide FetchTells;
    hide IsMatchOf;
    hide WithoutFragment;
    var from := |w.trace|;
    var (got, w1) := Retrieve(env, url, depth, w);
    RetrieveGivesDocument(env, url, depth, w);
    RetrieveReaches(env, url, depth, w);
    ReachesTransitive(env, start, w, w1);
    if got.Nothing? {
      NoDocumentNoMore(env, start, w1, period, url, from);
      TellsFirst(env, start, w1, period, url, FetchFailed(got.failure), from);
    } else {
      AskedAgainIff(env, start, w1, period, url, from);
      GaveObjectIff(env, w1, from, period);
      var found := SamePeriodObject(got.objects, period);
      if found.Some? {
        TellsFirst(env, start, w1, period, url, Matched(found.value, got.url), from);
      } else if !AsksAgain(got.objects, period) || !MayRetrieve(Scoped(env, url, period), w1) {
        TellsFirst(env, start, w1, period, url, NoMatch(false), from);
      } else {
        AgainTellsTrue(env, start, period, url, depth, w1, from);
      }
    }
  }

  lemma StillMatchOf(env: Env, w: Walk, later: Walk, i: nat, period: Period, found: Declaration, at: Url)
    requires IsPeriod(period) && GoesOn(env, w, later) && i < |w.trace|
    ensures IsMatchOf(env, later, i, period, found, at) <==> IsMatchOf(env, w, i, period, found, at)
  {
    hide GoesOn;
    hide IsPeriod;
    hide IsChoice;
    hide IsOver;
    hide GaveDocument;
    hide DocumentOf;
    StillGives(env, w, later, i);
  }

  lemma StillFails(env: Env, w: Walk, later: Walk, i: nat, failure: Failure)
    requires GoesOn(env, w, later) && i < |w.trace|
    ensures i < |later.trace| && (IsFailureOf(env, later, i, failure) <==> IsFailureOf(env, w, i, failure))
  {
    hide Outcome;
  }

  lemma AreOwnInTrace(env: Env, w: Walk, url: Url, period: Period, from: nat, own: nat)
    requires IsPeriod(period) && AreOwn(env, w, url, period, from, own)
    ensures from <= own <= from + 2 && own <= |w.trace|
  {
    hide IsPeriod;
    hide Scoped;
  }

  lemma StillTells(env: Env, start: Walk, w: Walk, later: Walk, period: Period, url: Url, fetched: Fetched, from: nat, own: nat)
    requires IsPeriod(period) && GoesOn(env, w, later) && FetchTells(env, start, w, period, url, fetched, from, own)
    ensures FetchTells(env, start, later, period, url, fetched, from, own)
  {
    hide IsPeriod;
    hide AreOwn;
    hide AskedAgain;
    hide GaveObjectFor;
    hide GaveDocument;
    hide GoesOn;
    hide IsMatchOf;
    hide IsFailureOf;
    AreOwnInTrace(env, w, url, period, from, own);
    StillOwn(env, w, later, url, period, from, own);
    StillAskedAgain(env, start, w, later, url, period, from);
    StillGivesObject(env, w, later, period, from, own);
    StillGives(env, w, later, from);
    match fetched
    case FetchFailed(failure) => StillFails(env, w, later, from, failure);
    case NoMatch(_) =>
      if own == from + 2 {
        StillGives(env, w, later, from + 1);
      }
    case Matched(found, at) => StillMatchOf(env, w, later, own - 1, period, found, at);
  }

  // ---- Every comparison of a walk is true ----

  lemma DecideTells(env: Env, start: Walk, entry: Entry, base: Option<Url>, depth: nat, w: Walk)
    requires start.trace == [] && Reaches(env, start, w)
    ensures var decision := Decide(env, entry, base, depth, w);
      && (decision.Fetch? <==> IsAsked(env, start, w, entry, base, depth, |w.trace|))
      && (decision.Fetch? ==> env.net.resolve(entry.declaration.GetOr(""), base) == Some(decision.url))
      && (decision.Skip? ==> IsWhyNotAsked(env, start, w, entry, base, depth, decision.detail, |w.trace|))
  {
    hide Reaches;
    hide SeenBy;
    hide WithoutFragment;
    StandsAt(env, start, w);
  }

  lemma JudgedRightly(subject: Declaration, entry: Entry, depth: nat, found: Declaration, nested: seq<Comparison>)
    ensures IsRight(subject, found, Compare(subject, entry, depth, found, nested))
  {
    FiguresAreStated(subject);
    FiguresAreStated(found);
    hide FiguresOf;
    hide Stated;
  }

  lemma SkippedIsTrue(env: Env, start: Walk, subject: Declaration, entry: Entry, base: Option<Url>, depth: nat, w: Walk, detail: Detail)
    requires IsPeriod(subject.period)
    requires !IsAsked(env, start, w, entry, base, depth, |w.trace|)
    requires IsWhyNotAsked(env, start, w, entry, base, depth, detail, |w.trace|)
    ensures IsTrue(env, start, w, subject, entry, base, depth, Blank(entry, depth, Some(subject.period), Unreachable, detail),
                   |w.trace|, |w.trace|)
  {
    hide IsPeriod;
    hide IsAsked;
    hide IsWhyNotAsked;
    hide AskedAgain;
    hide AreOwn;
    hide GaveObjectFor;
    hide IsTrueMatched;
    hide IsTrueUnmatched;
    var c := Blank(entry, depth, Some(subject.period), Unreachable, detail);
    assert IsTrueAfter(env, start, w, subject, entry, base, depth, c, |w.trace|, |w.trace|, |w.trace|);
  }

  lemma UnmatchedIsTrue(env: Env, start: Walk, subject: Declaration, entry: Entry, base: Option<Url>, depth: nat, w: Walk,
                        url: Url, fetched: Fetched, from: nat, c: Comparison)
    requires IsPeriod(subject.period) && from <= |w.trace| && IsAsked(env, start, w, entry, base, depth, from)
    requires env.net.resolve(entry.declaration.GetOr(""), base) == Some(url)
    requires FetchTells(env, start, w, subject.period, url, fetched, from, |w.trace|)
    requires match fetched
      case FetchFailed(failure) => c == Blank(entry, depth, Some(subject.period), Unreachable, NotRetrieved(failure))
      case NoMatch(ignored) => c == WithoutMatch(subject, entry, depth, ignored)
      case Matched(_, _) => false
    ensures IsTrue(env, start, w, subject, entry, base, depth, c, from, |w.trace|)
  {
    hide IsPeriod;
    hide IsAsked;
    hide AskedAgain;
    hide AreOwn;
    hide GaveObjectFor;
    hide GaveDocument;
    hide IsFailureOf;
    FiguresAreStated(subject);
    hide FiguresOf;
    hide Stated;
    hide IsTrueMatched;
    AreOwnInTrace(env, w, url, subject.period, from, |w.trace|);
    assert IsTrueAfter(env, start, w, subject, entry, base, depth, c, from, |w.trace|, |w.trace|);
  }

  lemma MatchIsTrue(env: Env, start: Walk, subject: Declaration, entry: Entry, depth: nat, w: Walk, found: Declaration, at: Url, own: nat,
                    nested: seq<Comparison>)
    requires IsPeriod(subject.period) && IsPeriod(found.period) && 0 < own <= |w.trace|
    requires IsMatchOf(env, w, own - 1, subject.period, found, at)
    requires IsTrueBelow(env, start, w, found, at, depth, nested, own, |w.trace|)
    ensures IsTrueMatched(env, start, w, subject, depth, Compare(subject, entry, depth, found, nested), own, |w.trace|)
  {
    hide IsPeriod;
    hide GaveDocument;
    hide DocumentOf;
    hide FiguresOf;
    hide Stated;
    hide Judge;
    hide IsRight;
    hide IsTrueBelow;
    hide IsChoice;
    hide IsOver;
    JudgedRightly(subject, entry, depth, found, nested);
    assert IsTrueOf(env, start, w, subject, depth, Compare(subject, entry, depth, found, nested), own, |w.trace|, found);
  }

  lemma MatchedIsTrue(env: Env, start: Walk, subject: Declaration, entry: Entry, base: Option<Url>, depth: nat, w: Walk,
                      url: Url, found: Declaration, at: Url, from: nat, own: nat, c: Comparison)
    requires IsPeriod(subject.period) && from <= |w.trace| && IsAsked(env, start, w, entry, base, depth, from)
    requires env.net.resolve(entry.declaration.GetOr(""), base) == Some(url)
    requires own <= |w.trace| && FetchTells(env, start, w, subject.period, url, Matched(found, at), from, own)
    requires NamesEntry(c, entry) && c.depth == depth && c.period == Some(subject.period) && c.upstreamFigures.Some?
    requires IsTrueMatched(env, start, w, subject, depth, c, own, |w.trace|)
    ensures IsTrue(env, start, w, subject, entry, base, depth, c, from, |w.trace|)
  {
    hide IsPeriod;
    hide IsAsked;
    hide AskedAgain;
    hide AreOwn;
    hide GaveObjectFor;
    hide IsTrueUnmatched;
    hide IsTrueUnasked;
    hide IsTrueMatched;
    hide IsMatchOf;
    AreOwnInTrace(env, w, url, subject.period, from, own);
    assert IsTrueAfter(env, start, w, subject, entry, base, depth, c, from, own, |w.trace|);
  }

  lemma MatchWas(env: Env, start: Walk, w: Walk, period: Period, url: Url, found: Declaration, at: Url, from: nat, own: nat)
    requires IsPeriod(period) && FetchTells(env, start, w, period, url, Matched(found, at), from, own)
    ensures 0 < own <= |w.trace| && IsMatchOf(env, w, own - 1, period, found, at)
  {
    hide IsPeriod;
    hide IsMatchOf;
    hide AreOwn;
    hide GaveObjectFor;
    AreOwnInTrace(env, w, url, period, from, own);
  }

  /** An entry whose retrievals gave an object: what is walked below it is true of that object. */
  lemma {:induction false} MatchedEntryIsTrue(env: Env, start: Walk, subject: Declaration, entry: Entry, base: Option<Url>, depth: nat,
                                              w: Walk, url: Url, found: Declaration, at: Url, from: nat)
    requires IsPeriod(subject.period) && IsPeriod(found.period) && depth >= 1
    requires start.trace == [] && Reaches(env, start, w) && from <= |w.trace| && IsAsked(env, start, w, entry, base, depth, from)
    requires env.net.resolve(entry.declaration.GetOr(""), base) == Some(url)
    requires FetchTells(env, start, w, subject.period, url, Matched(found, at), from, |w.trace|)
    ensures var (after, nested) := if depth < MaxDepth(env) then WalkEntries(env, found, found.upstream, Some(at), depth + 1, w)
                                   else (w, NotFollowed(found.upstream, depth + 1));
      && from <= |after.trace|
      && IsTrue(env, start, after, subject, entry, base, depth, Compare(subject, entry, depth, found, nested), from, |after.trace|)
    decreases Levels(env, depth), 0
  {
    hide IsPeriod;
    hide IsAsked;
    hide Reaches;
    hide FetchTells;
    hide IsTrue;
    hide IsTrueMatched;
    hide IsMatchOf;
    hide AreTrue;
    hide GoesOn;
    hide Judge;
    hide FiguresOf;
    hide Stated;
    var own := |w.trace|;
    MatchWas(env, start, w, subject.period, url, found, at, from, own);
    if depth < MaxDepth(env) {
      var (after, nested) := WalkEntries(env, found, found.upstream, Some(at), depth + 1, w);
      EntriesAreTrue(env, start, found, found.upstream, Some(at), depth + 1, w);
      WalkReaches(env, found, found.upstream, Some(at), depth + 1, w);
      WalkGoesOn(env, start, w, after);
      GoneOn(env, w, after);
      StillTells(env, start, w, after, subject.period, url, Matched(found, at), from, own);
      StillMatchOf(env, w, after, own - 1, subject.period, found, at);
      StillUnasked(env, start, w, after, entry, base, depth, Compare(subject, entry, depth, found, nested), from);
      MatchIsTrue(env, start, subject, entry, depth, after, found, at, own, nested);
      MatchedIsTrue(env, start, subject, entry, base, depth, after, url, found, at, from, own,
                    Compare(subject, entry, depth, found, nested));
    } else {
      var nested := NotFollowed(found.upstream, depth + 1);
      MatchIsTrue(env, start, subject, entry, depth, w, found, at, own, nested);
      MatchedIsTrue(env, start, subject, entry, base, depth, w, url, found, at, from, own,
                    Compare(subject, entry, depth, found, nested));
    }
  }

  lemma {:induction false} EntryIsTrue(env: Env, start: Walk, subject: Declaration, entry: Entry, base: Option<Url>, depth: nat, w: Walk)
    requires IsPeriod(subject.period) && depth >= 1 && start.trace == [] && Reaches(env, start, w)
    ensures var (after, c) := WalkEntry(env, subject, entry, base, depth, w);
      IsTrue(env, start, after, subject, entry, base, depth, c, |w.trace|, |after.trace|)
    decreases Levels(env, depth), 1
  {
    hide IsPeriod;
    hide IsAsked;
    hide IsWhyNotAsked;
    hide Reaches;
    hide FetchTells;
    hide IsTrue;
    hide FetchMatch;
    hide Decide;
    hide Compare;
    hide Blank;
    hide WithoutMatch;
    hide MayRetrieve;
    hide IsNamed;
    hide GoesOn;
    DecideTells(env, start, entry, base, depth, w);
    var decision := Decide(env, entry, base, depth, w);
    if decision.Skip? {
      SkippedIsTrue(env, start, subject, entry, base, depth, w, decision.detail);
    } else {
      FetchedMayBeRetrieved(env, entry, base, depth, w);
      FetchReaches(env, subject.period, decision.url, depth, w);
      FetchTellsTrue(env, start, subject.period, decision.url, depth, w);
      var (fetched, w1) := FetchMatch(env, subject.period, decision.url, depth, w);
      ReachesTransitive(env, start, w, w1);
      WalkGoesOn(env, start, w, w1);
      GoneOn(env, w, w1);
      StillUnasked(env, start, w, w1, entry, base, depth, Blank(entry, depth, None, Unreachable, DepthLimit), |w.trace|);
      match fetched
      case FetchFailed(failure) =>
        UnmatchedIsTrue(env, start, subject, entry, base, depth, w1, decision.url, fetched, |w.trace|,
                        Blank(entry, depth, Some(subject.period), Unreachable, NotRetrieved(failure)));
      case NoMatch(ignored) =>
        UnmatchedIsTrue(env, start, subject, entry, base, depth, w1, decision.url, fetched, |w.trace|,
                        WithoutMatch(subject, entry, depth, ignored));
      case Matched(found, at) =>
        FetchedIsForPeriod(env, subject.period, decision.url, depth, w);
        MatchedEntryIsTrue(env, start, subject, entry, base, depth, w1, decision.url, found, at, |w.trace|);
    }
  }

  lemma {:induction false} EntriesAreTrue(env: Env, start: Walk, subject: Declaration, entries: seq<Entry>, base: Option<Url>,
                                          depth: nat, w: Walk)
    requires IsPeriod(subject.period) && depth >= 1 && start.trace == [] && Reaches(env, start, w)
    ensures var (after, out) := WalkEntries(env, subject, entries, base, depth, w);
      AreTrue(env, start, after, subject, entries, base, depth, out, |w.trace|, |after.trace|)
    decreases Levels(env, depth), 2, |entries|
  {
    hide IsPeriod;
    hide Reaches;
    hide IsTrue;
    hide WalkEntry;
    hide GoesOn;
    if entries != [] {
      var (w1, first) := WalkEntry(env, subject, entries[0], base, depth, w);
      var (w2, rest) := WalkEntries(env, subject, entries[1..], base, depth, w1);
      EntryReaches(env, subject, entries[0], base, depth, w);
      ReachesTransitive(env, start, w, w1);
      WalkReaches(env, subject, entries[1..], base, depth, w1);
      WalkGoesOn(env, start, w, w1);
      GoneOn(env, w, w1);
      WalkGoesOn(env, start, w1, w2);
      GoneOn(env, w1, w2);
      EntryIsTrue(env, start, subject, entries[0], base, depth, w);
      StillTrue(env, start, w1, w2, subject, entries[0], base, depth, first, |w.trace|, |w1.trace|);
      EntriesAreTrue(env, start, subject, entries[1..], base, depth, w1);
      var out := [first] + rest;
      assert out[1..] == rest;
      assert IsTrueFirst(env, start, w2, subject, entries, base, depth, out, |w.trace|, |w1.trace|, |w2.trace|);
    }
  }

  /**
   * The whole report: one comparison for each entry, in order, with the retrievals of the walk shared out among them.
   * Whatever it shows, shows not and gives as a reason is true of the retrievals that the entry made.
   */
  lemma ReportIsTrue(env: Env, subject: Declaration, base: Option<Url>, visited: set<Url>, limit: int, wire: seq<Url>)
    requires IsPeriod(subject.period)
    ensures var start := Walk(visited, limit, wire, []);
      var (end, out) := WalkEntries(env, subject, subject.upstream, base, 1, start);
      AreTrue(env, start, end, subject, subject.upstream, base, 1, out, 0, |end.trace|)
  {
    hide IsPeriod;
    hide AreTrue;
    hide WalkEntries;
    var start := Walk(visited, limit, wire, []);
    ReachesItself(env, start);
    hide Reaches;
    EntriesAreTrue(env, start, subject, subject.upstream, base, 1, start);
  }
}
