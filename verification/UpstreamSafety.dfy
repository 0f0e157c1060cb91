/**
 * What every upstream walk keeps, whatever the network answers: the budget ledger, the
 * depth and redirect bounds, and that no URI is retrieved twice.
 */
module UpstreamSafety {
  import opened DateTimes
  import opened Periods
  import opened Transport
  import opened Upstream
  import opened Wrappers

  /** The URIs a retrieval claims, at most two: where it began and where it was answered. */
  function Owns(r: Retrieval): set<Url> {
    {r.requested} + (if r.answered.Some? then {r.answered.value} else {})
  }

  /** What is visited once the retrieval is over. */
  function VisitedAfter(r: Retrieval): set<Url> {
    r.before + Owns(r)
  }

  /** A redirect that ends a retrieval: it is the sixth answer, or names no URL, or one that is barred or not permitted. */
  ghost predicate EndsRetrieval(env: Env, sent: seq<Url>, r: Retrieval)
    requires r.sentFrom < r.sentTo <= |sent|
  {
    var last, answer := sent[r.sentTo - 1], AnswerAt(env.net, sent, r.sentTo - 1);
    IsRedirect(answer) ==>
      var target := env.net.resolve(answer.location.value, Some(last));
      || r.sentTo - r.sentFrom == MAX_REDIRECTS + 1 || target.None?
      || WithoutFragment(target.value) in r.before + {r.requested} || !IsPermitted(target.value, env.rules)
  }

  /**
   * A retrieval within the rules: of a URL it may ask for and that was not visited, within the depth, at most six
   * requests, each to a URL that is permitted, no redirect onto a visited URI; what is permitted is asked, and a redirect
   * onto such a URL is followed. It is answered exactly where its last request got a final response.
   */
  ghost predicate Lawful(env: Env, sent: seq<Url>, r: Retrieval) {
    && 1 <= r.depth <= MaxDepth(env)
    && r.sentFrom <= r.sentTo <= |sent| && r.sentTo - r.sentFrom <= MAX_REDIRECTS + 1
    && r.requested !in r.before
    && (r.answered.Some? ==> r.answered.value == r.requested || r.answered.value !in r.before)
    && (r.sentFrom < r.sentTo <==> IsPermitted(r.requested, env.rules))
    && (r.sentFrom < r.sentTo ==> EndsRetrieval(env, sent, r))
    && (r.sentFrom < r.sentTo ==> WithoutFragment(sent[r.sentFrom]) == r.requested && MayBeAsked(env, sent[r.sentFrom]))
    && (r.answered.Some? <==> r.sentFrom < r.sentTo && IsFinal(AnswerAt(env.net, sent, r.sentTo - 1)))
    && (r.answered.Some? ==> WithoutFragment(sent[r.sentTo - 1]) == r.answered.value)
    && (forall k :: r.sentFrom <= k < r.sentTo ==> IsPermitted(sent[k], env.rules))
    && (forall k :: r.sentFrom < k < r.sentTo ==>
          WithoutFragment(sent[k]) !in r.before + {r.requested} && Redirected(env.net, sent, k))
  }

  /** Retrieval `i` starts where the one before it, or the walk, left what is visited and what is sent. */
  ghost predicate Follows(start: Walk, trace: seq<Retrieval>, i: nat)
    requires |start.trace| <= i < |trace|
  {
    if i == |start.trace| then trace[i].before == start.visited && trace[i].sentFrom == |start.wire|
    else trace[i].before == VisitedAfter(trace[i - 1]) && trace[i].sentFrom == trace[i - 1].sentTo
  }

  ghost predicate Chained(start: Walk, w: Walk)
    requires |start.trace| <= |w.trace|
  {
    && (forall i :: |start.trace| <= i < |w.trace| ==> Follows(start, w.trace, i))
    && (if |w.trace| == |start.trace| then w.visited == start.visited && w.wire == start.wire
        else w.visited == VisitedAfter(w.trace[|w.trace| - 1]) && |w.wire| == w.trace[|w.trace| - 1].sentTo)
  }

  /** What a walk may turn `start` into. */
  ghost predicate Reaches(env: Env, start: Walk, w: Walk) {
    && start.trace <= w.trace && start.wire <= w.wire
    && start.remaining - w.remaining == |w.trace| - |start.trace|
    && (w.remaining < start.remaining ==> 0 <= w.remaining)
    && Chained(start, w)
    && forall i :: |start.trace| <= i < |w.trace| ==> Lawful(env, w.wire, w.trace[i])
  }

  // ---- Every step keeps it ----

  lemma ReachesItself(env: Env, w: Walk)
    ensures Reaches(env, w, w)
  {
  }

  lemma StillLawful(env: Env, sent: seq<Url>, longer: seq<Url>, r: Retrieval)
    requires Lawful(env, sent, r) && sent <= longer
    ensures Lawful(env, longer, r)
  {
    hide IsPermitted;
    hide MayBeAsked;
    forall k | r.sentFrom <= k < r.sentTo ensures sent[k] == longer[k] && AnswerAt(env.net, sent, k) == AnswerAt(env.net, longer, k) {
      assert sent[..k] == longer[..k];
    }
    forall k | r.sentFrom < k < r.sentTo ensures Redirected(env.net, longer, k) {
      assert Redirected(env.net, sent, k);
    }
  }

  lemma ReachesTransitive(env: Env, a: Walk, b: Walk, c: Walk)
    requires Reaches(env, a, b) && Reaches(env, b, c)
    ensures Reaches(env, a, c)
  {
    hide Lawful;
    hide VisitedAfter;
    forall i | |a.trace| <= i < |c.trace| ensures Follows(a, c.trace, i) {
      if i < |b.trace| {
        assert Follows(a, b.trace, i);
      } else {
        assert Follows(b, c.trace, i);
      }
    }
    forall i | |a.trace| <= i < |c.trace| ensures Lawful(env, c.wire, c.trace[i]) {
      if i < |b.trace| {
        StillLawful(env, b.wire, c.wire, b.trace[i]);
      }
    }
  }

  lemma RetrieveEnds(env: Env, url: Url, depth: int, w: Walk)
    ensures var after := Retrieve(env, url, depth, w).1;
      |after.trace| == |w.trace| + 1
      && var r := after.trace[|w.trace|]; r.sentFrom <= r.sentTo <= |after.wire| && (r.sentFrom < r.sentTo ==> EndsRetrieval(env, after.wire, r))
  {
    hide ReadResponse;
    hide IsPermitted;
    hide GetFrom;
    var barred := w.visited + {WithoutFragment(url)};
    var (got, sent) := GetFrom(env.net, env.rules, barred, w.wire, url, false, 0);
    GetEnds(env.net, env.rules, barred, w.wire, url, false, 0);
    forall target | got.Refused? && Breaks(target, env.rules, got.reason) ensures !IsPermitted(target, env.rules) {
      RefusedIffNotPermitted(target, env.rules);
    }
    hide Breaks;
    var r := Retrieve(env, url, depth, w).1.trace[|w.trace|];
    assert r.before + {r.requested} == barred;
  }

  lemma RetrieveIsLawful(env: Env, url: Url, depth: int, w: Walk)
    requires MayRetrieve(url, w) && 1 <= depth <= MaxDepth(env) && MayBeAsked(env, url)
    ensures var after := Retrieve(env, url, depth, w).1;
      |after.trace| == |w.trace| + 1 && Lawful(env, after.wire, after.trace[|w.trace|])
  {
    hide ReadResponse;
    hide MayBeAsked;
    hide Redirected;
    hide IsFinal;
    hide EndsRetrieval;
    hide AnswerAt;
    RetrieveEnds(env, url, depth, w);
    hide GetFrom;
    var key := WithoutFragment(url);
    var barred := w.visited + {key};
    assert IsPermitted(key, env.rules) == IsPermitted(url, env.rules);
    hide IsPermitted;
    var (got, sent) := GetFrom(env.net, env.rules, barred, w.wire, url, false, 0);
    GetFollowsTheRules(env.net, env.rules, barred, w.wire, url, false, 0);
    var r := Retrieve(env, url, depth, w).1.trace[|w.trace|];
    assert r.before + {r.requested} == barred;
  }

  lemma RetrieveReaches(env: Env, url: Url, depth: int, w: Walk)
    requires MayRetrieve(url, w) && 1 <= depth <= MaxDepth(env) && MayBeAsked(env, url)
    ensures Reaches(env, w, Retrieve(env, url, depth, w).1)
  {
    hide IsPermitted;
    hide ReadResponse;
    hide Lawful;
    hide HopsOf;
    var barred := w.visited + {WithoutFragment(url)};
    GetFollowsTheRules(env.net, env.rules, barred, w.wire, url, false, 0);
    RetrieveIsLawful(env, url, depth, w);
    var after := Retrieve(env, url, depth, w).1;
    assert after.visited == VisitedAfter(after.trace[|w.trace|]);
  }

  lemma ScopedMayBeAsked(env: Env, url: Url, period: Period)
    requires IsPeriod(period) && IsNamed(env.net, url)
    ensures MayBeAsked(env, Scoped(env, url, period))
  {
    hide IsPeriod;
    hide IsNamed;
    hide ToUtcQueryValue;
  }

  lemma FetchReaches(env: Env, period: Period, url: Url, depth: int, w: Walk)
    requires IsPeriod(period) && MayRetrieve(url, w) && 1 <= depth <= MaxDepth(env) && IsNamed(env.net, url)
    ensures Reaches(env, w, FetchMatch(env, period, url, depth, w).1)
  {
    hide Reaches;
    hide Retrieve;
    hide IsPeriod;
    hide IsNamed;
    hide Scoped;
    hide IsFor;
    RetrieveReaches(env, url, depth, w);
    var w1 := Retrieve(env, url, depth, w).1;
    var scoped := Scoped(env, url, period);
    if MayRetrieve(scoped, w1) {
      ScopedMayBeAsked(env, url, period);
      RetrieveReaches(env, scoped, depth, w1);
      ReachesTransitive(env, w, w1, Retrieve(env, scoped, depth, w1).1);
    }
  }

  lemma {:induction false} WalkReaches(env: Env, subject: Declaration, entries: seq<Entry>, base: Option<Url>, depth: nat, w: Walk)
    requires IsPeriod(subject.period) && depth >= 1
    ensures Reaches(env, w, WalkEntries(env, subject, entries, base, depth, w).0)
    decreases Levels(env, depth), |entries|
  {
    hide Reaches;
    hide IsPeriod;
    if entries == [] {
      ReachesItself(env, w);
    } else {
      var w1 := WalkEntry(env, subject, entries[0], base, depth, w).0;
      EntryReaches(env, subject, entries[0], base, depth, w);
      WalkReaches(env, subject, entries[1..], base, depth, w1);
      ReachesTransitive(env, w, w1, WalkEntries(env, subject, entries[1..], base, depth, w1).0);
    }
  }

  /** Nothing is retrieved too deep, twice, over budget or, without the insecure option, other than over https. */
  lemma FetchedMayBeRetrieved(env: Env, entry: Entry, base: Option<Url>, depth: nat, w: Walk)
    ensures var decision := Decide(env, entry, base, depth, w);
      decision.Fetch? ==>
        && depth <= MaxDepth(env) && MayRetrieve(decision.url, w) && (env.rules.allowInsecure || decision.url.scheme == "https")
        && IsNamed(env.net, decision.url)
  {
  }

  lemma {:induction false} EntryReaches(env: Env, subject: Declaration, entry: Entry, base: Option<Url>, depth: nat, w: Walk)
    requires IsPeriod(subject.period) && depth >= 1
    ensures Reaches(env, w, WalkEntry(env, subject, entry, base, depth, w).0)
    decreases Levels(env, depth), 0
  {
    hide Reaches;
    hide IsPeriod;
    hide FetchMatch;
    hide Decide;
    hide MayRetrieve;
    hide IsNamed;
    hide Compare;
    hide WithoutMatch;
    hide Blank;
    var decision := Decide(env, entry, base, depth, w);
    if decision.Skip? {
      ReachesItself(env, w);
    } else {
      FetchedMayBeRetrieved(env, entry, base, depth, w);
      FetchReaches(env, subject.period, decision.url, depth, w);
      var (fetched, w1) := FetchMatch(env, subject.period, decision.url, depth, w);
      if fetched.Matched? && depth < MaxDepth(env) {
        FetchedIsForPeriod(env, subject.period, decision.url, depth, w);
        WalkReaches(env, fetched.match_, fetched.match_.upstream, Some(fetched.at), depth + 1, w1);
        ReachesTransitive(env, w, w1,
          WalkEntries(env, fetched.match_, fetched.match_.upstream, Some(fetched.at), depth + 1, w1).0);
      }
    }
  }

  // ---- What that means for a whole walk ----

  /** The walk of a declaration's own entries, from the URIs already retrieved and with a budget of `limit` retrievals. */
  ghost function WholeWalk(env: Env, subject: Declaration, base: Option<Url>, visited: set<Url>, limit: int, wire: seq<Url>): Walk
    requires IsPeriod(subject.period)
  {
    WalkEntries(env, subject, subject.upstream, base, 1, Walk(visited, limit, wire, [])).0
  }

  lemma WholeWalkReaches(env: Env, subject: Declaration, base: Option<Url>, visited: set<Url>, limit: int, wire: seq<Url>)
    requires IsPeriod(subject.period)
    ensures Reaches(env, Walk(visited, limit, wire, []), WholeWalk(env, subject, base, visited, limit, wire))
  {
    hide Reaches;
    hide IsPeriod;
    WalkReaches(env, subject, subject.upstream, base, 1, Walk(visited, limit, wire, []));
  }

  lemma {:induction false} VisitedGrows(start: Walk, w: Walk, i: nat, j: nat)
    requires |start.trace| <= |w.trace| && Chained(start, w) && |start.trace| <= i < j < |w.trace|
    ensures VisitedAfter(w.trace[i]) <= w.trace[j].before && w.trace[i].sentTo <= w.trace[j].sentFrom
    ensures start.visited <= w.trace[i].before
    requires forall k :: |start.trace| <= k < |w.trace| ==> w.trace[k].sentFrom <= w.trace[k].sentTo
    decreases j
  {
    assert Follows(start, w.trace, j);
    if i + 1 < j {
      VisitedGrows(start, w, i, j - 1);
    } else {
      StartIsVisited(start, w, i);
    }
  }

  lemma {:induction false} StartIsVisited(start: Walk, w: Walk, i: nat)
    requires |start.trace| <= i < |w.trace| && Chained(start, w)
    ensures start.visited <= w.trace[i].before
  {
    assert Follows(start, w.trace, i);
    if |start.trace| < i {
      StartIsVisited(start, w, i - 1);
    }
  }

  /**
   * No URI is retrieved twice, at whatever level it is named: the URIs asked for and the URIs that answered
   * are distinct from one retrieval to the next, and from those retrieved before the walk.
   */
  lemma NoUriIsRetrievedTwice(env: Env, subject: Declaration, base: Option<Url>, visited: set<Url>, limit: int, wire: seq<Url>)
    requires IsPeriod(subject.period)
    ensures var trace := WholeWalk(env, subject, base, visited, limit, wire).trace;
      && (forall i :: 0 <= i < |trace| ==> Owns(trace[i]) !! visited)
      && (forall i, j :: 0 <= i < j < |trace| ==> Owns(trace[i]) !! Owns(trace[j]))
  {
    hide WholeWalk;
    hide IsPeriod;
    var start, end := Walk(visited, limit, wire, []), WholeWalk(env, subject, base, visited, limit, wire);
    WholeWalkReaches(env, subject, base, visited, limit, wire);
    forall i | 0 <= i < |end.trace|
      ensures Owns(end.trace[i]) !! end.trace[i].before && visited <= end.trace[i].before
    {
      assert Lawful(env, end.wire, end.trace[i]);
      StartIsVisited(start, end, i);
    }
    forall i, j | 0 <= i < j < |end.trace| ensures Owns(end.trace[i]) !! Owns(end.trace[j]) {
      VisitedGrows(start, end, i, j);
    }
  }

  /** What counts as visited in the end is exactly what was visited before, asked for or answered: nothing else is refused. */
  lemma VisitedIsWhatWasRetrieved(env: Env, subject: Declaration, base: Option<Url>, visited: set<Url>, limit: int, wire: seq<Url>)
    requires IsPeriod(subject.period)
    ensures var end := WholeWalk(env, subject, base, visited, limit, wire);
      forall u :: u in end.visited <==> u in visited || exists i :: 0 <= i < |end.trace| && u in Owns(end.trace[i])
  {
    hide WholeWalk;
    hide IsPeriod;
    var start, end := Walk(visited, limit, wire, []), WholeWalk(env, subject, base, visited, limit, wire);
    WholeWalkReaches(env, subject, base, visited, limit, wire);
    forall u ensures u in end.visited <==> u in visited || exists i :: 0 <= i < |end.trace| && u in Owns(end.trace[i]) {
      if end.trace != [] {
        VisitedSoFar(start, end, |end.trace| - 1, u);
      }
    }
  }

  lemma {:induction false} VisitedSoFar(start: Walk, w: Walk, n: nat, u: Url)
    requires start.trace == [] && n < |w.trace| && Chained(start, w)
    ensures u in VisitedAfter(w.trace[n]) <==> u in start.visited || exists i :: 0 <= i <= n && u in Owns(w.trace[i])
  {
    assert Follows(start, w.trace, n);
    if n > 0 {
      VisitedSoFar(start, w, n - 1, u);
    }
  }

  /** The budget is a ledger of retrievals and is never overdrawn; so the requests of a walk are bounded too. */
  lemma BudgetCountsRetrievals(env: Env, subject: Declaration, base: Option<Url>, visited: set<Url>, limit: int, wire: seq<Url>)
    requires IsPeriod(subject.period)
    ensures var end := WholeWalk(env, subject, base, visited, limit, wire);
      && limit - end.remaining == |end.trace|
      && |end.trace| <= (if limit < 0 then 0 else limit)
      && |wire| <= |end.wire| <= |wire| + (MAX_REDIRECTS + 1) * |end.trace|
  {
    hide WholeWalk;
    hide IsPeriod;
    var start, end := Walk(visited, limit, wire, []), WholeWalk(env, subject, base, visited, limit, wire);
    WholeWalkReaches(env, subject, base, visited, limit, wire);
    if end.trace != [] {
      RequestsSoFar(env, start, end, |end.trace| - 1);
    }
  }

  lemma {:induction false} RequestsSoFar(env: Env, start: Walk, w: Walk, n: nat)
    requires start.trace == [] && n < |w.trace| && Reaches(env, start, w)
    ensures w.trace[n].sentTo <= |start.wire| + (MAX_REDIRECTS + 1) * (n + 1)
  {
    assert Follows(start, w.trace, n) && Lawful(env, w.wire, w.trace[n]);
    if n > 0 {
      RequestsSoFar(env, start, w, n - 1);
    }
  }

  /**
   * Every retrieval is at depth one to three, makes at most six requests, each to a URL that passed the
   * hop rules, and follows no redirect onto a URI visited by then.
   */
  lemma EveryRetrievalIsLawful(env: Env, subject: Declaration, base: Option<Url>, visited: set<Url>, limit: int, wire: seq<Url>)
    requires IsPeriod(subject.period)
    ensures var end := WholeWalk(env, subject, base, visited, limit, wire);
      forall i :: 0 <= i < |end.trace| ==> Lawful(env, end.wire, end.trace[i]) && end.trace[i].depth <= MAX_UPSTREAM_DEPTH
  {
    hide WholeWalk;
    hide IsPeriod;
    hide Lawful;
    WholeWalkReaches(env, subject, base, visited, limit, wire);
    var end := WholeWalk(env, subject, base, visited, limit, wire);
    forall i | 0 <= i < |end.trace| ensures end.trace[i].depth <= MAX_UPSTREAM_DEPTH {
      DepthIsLimited(env, end.wire, end.trace[i]);
    }
  }

  lemma DepthIsLimited(env: Env, sent: seq<Url>, r: Retrieval)
    requires Lawful(env, sent, r)
    ensures r.depth <= MAX_UPSTREAM_DEPTH
  {
  }

  // ---- What a walk puts on the wire ----

  lemma {:induction false} RequestBelongs(env: Env, start: Walk, w: Walk, k: nat, n: nat) returns (i: nat)
    requires start.trace == [] && Reaches(env, start, w) && n < |w.trace|
    requires |start.wire| <= k < w.trace[n].sentTo
    ensures i <= n && w.trace[i].sentFrom <= k < w.trace[i].sentTo
    decreases n
  {
    assert Follows(start, w.trace, n);
    if w.trace[n].sentFrom <= k {
      i := n;
    } else {
      i := RequestBelongs(env, start, w, k, n - 1);
    }
  }

  /**
   * Every request of a walk goes to a URL that is permitted by its own scheme, user information and host; and what a
   * retrieval asks for is sent exactly where it is permitted.
   */
  lemma EveryRequestIsPermitted(env: Env, subject: Declaration, base: Option<Url>, visited: set<Url>, limit: int, wire: seq<Url>)
    requires IsPeriod(subject.period)
    ensures var end := WholeWalk(env, subject, base, visited, limit, wire);
      && (forall k :: |wire| <= k < |end.wire| ==> IsPermitted(end.wire[k], env.rules))
      && (forall i :: 0 <= i < |end.trace| ==>
            var r := end.trace[i];
            IsPermitted(r.requested, env.rules) <==>
              r.sentFrom < r.sentTo <= |end.wire| && WithoutFragment(end.wire[r.sentFrom]) == r.requested)
  {
    hide WholeWalk;
    hide IsPeriod;
    hide IsPermitted;
    var start, end := Walk(visited, limit, wire, []), WholeWalk(env, subject, base, visited, limit, wire);
    WholeWalkReaches(env, subject, base, visited, limit, wire);
    forall k | |wire| <= k < |end.wire| ensures IsPermitted(end.wire[k], env.rules) {
      var i := RequestBelongs(env, start, end, k, |end.trace| - 1);
      assert Lawful(env, end.wire, end.trace[i]);
    }
    forall i | 0 <= i < |end.trace|
      ensures var r := end.trace[i];
        IsPermitted(r.requested, env.rules) <==>
          r.sentFrom < r.sentTo <= |end.wire| && WithoutFragment(end.wire[r.sentFrom]) == r.requested
    {
      assert Lawful(env, end.wire, end.trace[i]);
    }
  }
}
