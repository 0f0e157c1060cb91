/**
 * Which URIs a walk may send a second request, though it retrieves none twice: a redirect
 * target that gave no answer is not counted as visited. Where answers do not depend on
 * what was sent before, the networks on which that happens are given exactly.
 */
module UpstreamRepeats {
  import opened CalendarTiling
  import opened Periods
  import opened Transport
  import opened Upstream
  import opened UpstreamSafety
  import opened Wrappers

  // ---- Every network ----

  /** No later retrieval sends a request to a URI that an earlier one asked for or that answered it. */
  lemma LaterRequestsAvoid(env: Env, start: Walk, w: Walk, i: nat, j: nat, k: nat)
    requires start.trace == [] && Reaches(env, start, w) && i < j < |w.trace|
    requires w.trace[j].sentFrom <= k < w.trace[j].sentTo
    ensures WithoutFragment(w.wire[k]) !in Owns(w.trace[i]) + start.visited
  {
    assert Lawful(env, w.wire, w.trace[j]) && Lawful(env, w.wire, w.trace[i]);
    forall m | 0 <= m < |w.trace| ensures w.trace[m].sentFrom <= w.trace[m].sentTo {
      assert Lawful(env, w.wire, w.trace[m]);
    }
    VisitedGrows(start, w, i, j);
    StartIsVisited(start, w, j);
  }

  lemma RepeatWithinOne(env: Env, sent: seq<Url>, r: Retrieval, p: nat, q: nat)
    requires Lawful(env, sent, r) && r.sentFrom <= p < q < r.sentTo
    requires WithoutFragment(sent[p]) == WithoutFragment(sent[q])
    ensures p != r.sentFrom && p != r.sentTo - 1
  {
    hide IsPermitted;
    hide Redirected;
  }

  lemma RepeatIsIntermediate(env: Env, start: Walk, w: Walk, i: nat, j: nat, p: nat, q: nat)
    requires start.trace == [] && Reaches(env, start, w) && i < |w.trace| && j < |w.trace|
    requires w.trace[i].sentFrom <= p < w.trace[i].sentTo && w.trace[j].sentFrom <= q < w.trace[j].sentTo && p < q
    requires WithoutFragment(w.wire[p]) == WithoutFragment(w.wire[q])
    ensures p != w.trace[i].sentFrom && (w.trace[i].answered.Some? ==> p != w.trace[i].sentTo - 1)
  {
    hide Chained;
    hide IsPermitted;
    hide Redirected;
    assert Lawful(env, w.wire, w.trace[i]);
    OrderOfRetrievals(env, start, w, i, j, p, q);
    if i < j {
      LaterRequestsAvoid(env, start, w, i, j, q);
    } else {
      RepeatWithinOne(env, w.wire, w.trace[i], p, q);
    }
  }

  lemma OrderOfRetrievals(env: Env, start: Walk, w: Walk, i: nat, j: nat, p: nat, q: nat)
    requires start.trace == [] && Reaches(env, start, w) && i < |w.trace| && j < |w.trace| && p < q
    requires w.trace[i].sentFrom <= p < w.trace[i].sentTo && w.trace[j].sentFrom <= q < w.trace[j].sentTo
    ensures i <= j
  {
    if j < i {
      forall m | 0 <= m < |w.trace| ensures w.trace[m].sentFrom <= w.trace[m].sentTo {
        assert Lawful(env, w.wire, w.trace[m]);
      }
      VisitedGrows(start, w, j, i);
    }
  }

  /**
   * A URI is sent a second request only where the first one was to a redirect target that gave no answer: the
   * response to it failed or redirected on, and it is neither a URI asked for nor one that answered.
   */
  lemma OnlyLostHopsRepeat(env: Env, subject: Declaration, base: Option<Url>, visited: set<Url>, limit: int, wire: seq<Url>,
                           p: nat, q: nat)
    requires IsPeriod(subject.period)
    requires |wire| <= p < q < |WholeWalk(env, subject, base, visited, limit, wire).wire|
    requires WithoutFragment(WholeWalk(env, subject, base, visited, limit, wire).wire[p])
          == WithoutFragment(WholeWalk(env, subject, base, visited, limit, wire).wire[q])
    ensures var end := WholeWalk(env, subject, base, visited, limit, wire);
      && !IsFinal(AnswerAt(env.net, end.wire, p))
      && exists i :: 0 <= i < |end.trace| && end.trace[i].sentFrom < p < end.trace[i].sentTo
  {
    hide WholeWalk;
    hide IsPeriod;
    hide IsFinal;
    var start, end := Walk(visited, limit, wire, []), WholeWalk(env, subject, base, visited, limit, wire);
    WholeWalkReaches(env, subject, base, visited, limit, wire);
    var i := RequestBelongs(env, start, end, p, |end.trace| - 1);
    var j := RequestBelongs(env, start, end, q, |end.trace| - 1);
    RepeatIsIntermediate(env, start, end, i, j, p, q);
    HopIsNotFinal(env, end.wire, end.trace[i], p);
  }

  /** A request of a retrieval whose answer is final is the last one, and answers it. */
  lemma HopIsNotFinal(env: Env, sent: seq<Url>, r: Retrieval, p: nat)
    requires Lawful(env, sent, r) && r.sentFrom <= p < r.sentTo && (r.answered.Some? ==> p != r.sentTo - 1)
    ensures !IsFinal(AnswerAt(env.net, sent, p))
  {
    hide IsPermitted;
    hide MayBeAsked;
    if p + 1 < r.sentTo {
      assert Redirected(env.net, sent, p + 1);
    }
  }

  // ---- Networks whose answers are fixed ----

  /** The answer to a URL does not depend on what was sent before, nor on its fragment. */
  ghost predicate HasFixedAnswers(net: Network<Content>) {
    forall sent, url :: net.answer(sent, url) == FixedAnswer(net, url)
  }

  function FixedAnswer(net: Network<Content>, url: Url): Answer<Content> {
    net.answer([], WithoutFragment(url))
  }

  ghost predicate IsNamedFrom(net: Network<Content>, url: Url, base: Option<Url>) {
    exists reference :: net.resolve(reference, base) == Some(url)
  }

  /** As references resolve: what is named from one base is named, by its full text, from any base. */
  ghost predicate NamesFromAnywhere(net: Network<Content>) {
    forall url, base {:trigger IsNamedFrom(net, url, base)} :: IsNamed(net, url) ==> IsNamedFrom(net, url, base)
  }

  /** Setting a period in the query of a URL gives a URL that can be named too. */
  ghost predicate KeepsNames(env: Env) {
    forall url, start, end :: IsNamed(env.net, url) ==> IsNamed(env.net, url.(query := env.setSearch(url.query, start, end)))
  }

  /** A URL that can be named and passes the rules redirects onto another that passes them. */
  ghost predicate Leads(env: Env, from: Url, to: Url) {
    && IsNamed(env.net, from) && IsPermitted(from, env.rules) && IsPermitted(to, env.rules)
    && WithoutFragment(from) != WithoutFragment(to)
    && IsRedirect(FixedAnswer(env.net, from))
    && env.net.resolve(FixedAnswer(env.net, from).location.value, Some(from)) == Some(to)
  }

  /** No redirect leads onto a URL that itself fails or redirects on. */
  ghost predicate LosesNoHop(env: Env) {
    forall from, to :: Leads(env, from, to) ==> IsFinal(FixedAnswer(env.net, to))
  }

  /** From place `start` on, no two requests go to one URI. */
  ghost predicate AsksOnce(sent: seq<Url>, start: nat) {
    forall p, q :: start <= p < q < |sent| ==> WithoutFragment(sent[p]) != WithoutFragment(sent[q])
  }

  /** Every walk, whatever its declaration, its base, its budget, its depth and what was retrieved before, asks a URI once. */
  ghost predicate EveryWalkAsksOnce(env: Env) {
    forall depth: Option<int>, subject: Declaration, base: Option<Url>, visited: set<Url>, limit: int, wire: seq<Url> ::
      IsPeriod(subject.period) ==>
        AsksOnce(WholeWalk(env.(walkDepth := depth), subject, base, visited, limit, wire).wire, |wire|)
  }

  // ---- Where no hop is lost ----

  lemma AskedIsNamed(env: Env, url: Url)
    requires MayBeAsked(env, url) && KeepsNames(env)
    ensures IsNamed(env.net, url)
  {
    hide IsNamed;
  }

  /** Each request of a retrieval is to the URI it asked for or to the one that answered it, one request to each. */
  lemma RetrievalAsksOnce(env: Env, sent: seq<Url>, r: Retrieval)
    requires Lawful(env, sent, r) && HasFixedAnswers(env.net) && KeepsNames(env) && LosesNoHop(env)
    ensures forall k :: r.sentFrom <= k < r.sentTo ==> WithoutFragment(sent[k]) in Owns(r)
    ensures forall p, q :: r.sentFrom <= p < q < r.sentTo ==> WithoutFragment(sent[p]) != WithoutFragment(sent[q])
  {
    hide IsPermitted;
    hide IsNamed;
    hide MayBeAsked;
    hide KeepsNames;
    var first := r.sentFrom;
    if first + 1 < r.sentTo {
      AskedIsNamed(env, sent[first]);
      assert first + 2 < r.sentTo ==> Redirected(env.net, sent, first + 2);
      assert Redirected(env.net, sent, first + 1);
      assert AnswerAt(env.net, sent, first) == FixedAnswer(env.net, sent[first]);
      assert AnswerAt(env.net, sent, first + 1) == FixedAnswer(env.net, sent[first + 1]);
      assert Leads(env, sent[first], sent[first + 1]);
      assert IsFinal(FixedAnswer(env.net, sent[first + 1]));
    }
  }

  lemma WalkAsksOnce(env: Env, subject: Declaration, base: Option<Url>, visited: set<Url>, limit: int, wire: seq<Url>, p: nat, q: nat)
    requires IsPeriod(subject.period) && HasFixedAnswers(env.net) && KeepsNames(env) && LosesNoHop(env)
    requires |wire| <= p < q < |WholeWalk(env, subject, base, visited, limit, wire).wire|
    ensures var sent := WholeWalk(env, subject, base, visited, limit, wire).wire; WithoutFragment(sent[p]) != WithoutFragment(sent[q])
  {
    hide WholeWalk;
    hide IsPeriod;
    hide HasFixedAnswers;
    hide KeepsNames;
    hide LosesNoHop;
    hide Lawful;
    var start, end := Walk(visited, limit, wire, []), WholeWalk(env, subject, base, visited, limit, wire);
    WholeWalkReaches(env, subject, base, visited, limit, wire);
    var i := RequestBelongs(env, start, end, p, |end.trace| - 1);
    var j := RequestBelongs(env, start, end, q, |end.trace| - 1);
    RetrievalAsksOnce(env, end.wire, end.trace[i]);
    RetrievalAsksOnce(env, end.wire, end.trace[j]);
    NoUriIsRetrievedTwice(env, subject, base, visited, limit, wire);
    if i != j {
      var a, b := if i < j then i else j, if i < j then j else i;
      assert Owns(end.trace[a]) !! Owns(end.trace[b]);
    }
  }

  // ---- Where a hop is lost ----

  function Naming(reference: string): Entry {
    Entry(Some(reference), None)
  }

  /** A declaration of two entries, with nothing to compare. */
  function TwoEntries(period: Period, first: string, second: string): Declaration {
    Declaration(period, "", None, false, None, None, None, None, None, [Naming(first), Naming(second)])
  }

  lemma TargetIsNamed(env: Env, from: Url, to: Url)
    requires Leads(env, from, to)
    ensures IsNamed(env.net, from) && IsNamed(env.net, to)
  {
    hide IsPermitted;
  }

  lemma AbsoluteReference(net: Network<Content>, url: Url) returns (reference: string)
    requires NamesFromAnywhere(net) && IsNamed(net, url)
    ensures net.resolve(reference, None) == Some(url)
  {
    hide IsNamedFrom;
    NamedFromNowhere(net, url);
    reference := ReferenceFrom(net, url, None);
  }

  lemma NamedFromNowhere(net: Network<Content>, url: Url)
    requires NamesFromAnywhere(net) && IsNamed(net, url)
    ensures IsNamedFrom(net, url, None)
  {
    hide IsNamed;
    hide IsNamedFrom;
  }

  lemma ReferenceFrom(net: Network<Content>, url: Url, base: Option<Url>) returns (reference: string)
    requires IsNamedFrom(net, url, base)
    ensures net.resolve(reference, base) == Some(url)
  {
    reference :| net.resolve(reference, base) == Some(url);
  }

  lemma SomePeriod() returns (period: Period)
    ensures IsPeriod(period)
  {
    YearPeriodExists(2024, 0);
    period := YearPeriod(2024, 0).value;
  }

  /** The GET of a URL that leads onto another sends a request to both. */
  lemma BothAreAsked(env: Env, from: Url, to: Url, wire: seq<Url>)
    requires HasFixedAnswers(env.net) && Leads(env, from, to)
    ensures var sent := GetFrom(env.net, env.rules, {WithoutFragment(from)}, wire, from, false, 0).1;
      wire + [from, to] <= sent
  {
    hide IsPermitted;
    hide IsNamed;
    hide HasFixedAnswers;
    var barred := {WithoutFragment(from)};
    assert env.net.answer(wire, from) == FixedAnswer(env.net, from) by {
      AnswersAreFixed(env.net, wire, from);
    }
    hide GetFrom;
    GetFollowsTheRules(env.net, env.rules, barred, wire + [from], to, true, 1);
    var sent := GetFrom(env.net, env.rules, barred, wire + [from], to, true, 1).1;
    assert sent[|wire| + 1] == to;
    assert (wire + [from, to])[..|wire| + 1] == wire + [from];
    RedirectedGet(env, from, to, wire);
  }

  lemma AnswersAreFixed(net: Network<Content>, sent: seq<Url>, url: Url)
    requires HasFixedAnswers(net)
    ensures net.answer(sent, url) == FixedAnswer(net, url)
  {
  }

  lemma RedirectedGet(env: Env, from: Url, to: Url, wire: seq<Url>)
    requires Leads(env, from, to) && env.net.answer(wire, from) == FixedAnswer(env.net, from)
    ensures var barred := {WithoutFragment(from)};
      GetFrom(env.net, env.rules, barred, wire, from, false, 0) == GetFrom(env.net, env.rules, barred, wire + [from], to, true, 1)
  {
    RefusedIffNotPermitted(from, env.rules);
    hide HopRefusal;
    hide IsPermitted;
    hide IsNamed;
  }

  lemma FetchIsAtMostTwo(env: Env, period: Period, url: Url, depth: int, w: Walk)
    requires IsPeriod(period) && MayRetrieve(url, w) && 1 <= depth <= MaxDepth(env) && IsNamed(env.net, url)
    ensures var first, end := Retrieve(env, url, depth, w).1, FetchMatch(env, period, url, depth, w).1;
      |end.trace| <= |w.trace| + 2 && first.wire <= end.wire && first.trace <= end.trace
  {
    hide IsPeriod;
    hide IsNamed;
    hide IsFor;
    hide Scoped;
    hide Reaches;
    var w1 := Retrieve(env, url, depth, w).1;
    var scoped := Scoped(env, url, period);
    RetrieveReaches(env, url, depth, w);
    if MayRetrieve(scoped, w1) {
      ScopedMayBeAsked(env, url, period);
      RetrieveReaches(env, scoped, depth, w1);
      RetrieveGrows(env, scoped, depth, w1);
    }
    RetrieveGrows(env, url, depth, w);
  }

  lemma RetrieveGrows(env: Env, url: Url, depth: int, w: Walk)
    requires Reaches(env, w, Retrieve(env, url, depth, w).1)
    ensures var after := Retrieve(env, url, depth, w).1;
      w.wire <= after.wire && w.trace <= after.trace && |after.trace| == |w.trace| + 1
  {
  }

  /** At the depth limit, the walk of an entry that is followed is what its retrievals make it. */
  lemma LastLevel(env: Env, subject: Declaration, entry: Entry, base: Option<Url>, depth: nat, w: Walk, url: Url)
    requires IsPeriod(subject.period) && depth == MaxDepth(env) && Decide(env, entry, base, depth, w) == Fetch(url)
    ensures WalkEntry(env, subject, entry, base, depth, w).0 == FetchMatch(env, subject.period, url, depth, w).1
  {
    hide IsPeriod;
    hide Decide;
    hide FetchMatch;
    hide Compare;
    hide WithoutMatch;
    hide Blank;
  }

  lemma EntryIsFollowed(env: Env, entry: Entry, base: Option<Url>, w: Walk, url: Url)
    requires MaxDepth(env) == 1 && env.net.resolve(entry.declaration.GetOr(""), base) == Some(url)
    requires IsPermitted(url, env.rules) && MayRetrieve(url, w)
    ensures Decide(env, entry, base, 1, w) == Fetch(url) && IsNamed(env.net, url)
  {
  }

  /** The retrieval of `from` sends a request to it and one to `to`. */
  lemma FirstRetrieval(env: Env, from: Url, to: Url)
    requires HasFixedAnswers(env.net) && Leads(env, from, to)
    ensures var first := Retrieve(env, from, 1, Walk({}, 3, [], [])).1;
      && [from, to] <= first.wire && |first.trace| == 1 && first.trace[0].sentTo == |first.wire|
      && MayRetrieve(from, Walk({}, 3, [], []))
  {
    hide Leads;
    hide HasFixedAnswers;
    hide ReadResponse;
    hide GetFrom;
    BothAreAsked(env, from, to, []);
    assert {} + {WithoutFragment(from)} == {WithoutFragment(from)};
    assert [] + [from, to] == [from, to];
  }

  /** The first of two entries: a request to `from` and one to `to`, and some of the budget of three left. */
  lemma FirstOfTwo(env: Env, subject: Declaration, entry: Entry, from: Url, to: Url)
    requires IsPeriod(subject.period) && MaxDepth(env) == 1 && HasFixedAnswers(env.net) && Leads(env, from, to)
    requires env.net.resolve(entry.declaration.GetOr(""), None) == Some(from)
    ensures var start := Walk({}, 3, [], []); var w := WalkEntry(env, subject, entry, None, 1, start).0;
      && Reaches(env, start, w) && w.remaining > 0
      && [from, to] <= w.wire && w.trace != [] && w.trace[0].sentTo >= 2
  {
    hide IsPeriod;
    hide HasFixedAnswers;
    hide FetchMatch;
    hide WalkEntry;
    hide IsPermitted;
    hide IsNamed;
    hide IsRedirect;
    hide Lawful;
    hide Chained;
    hide Retrieve;
    hide MayRetrieve;
    var start := Walk({}, 3, [], []);
    FirstRetrieval(env, from, to);
    EntryIsFollowed(env, entry, None, start, from);
    EntryReaches(env, subject, entry, None, 1, start);
    LastLevel(env, subject, entry, None, 1, start, from);
    FetchIsAtMostTwo(env, subject.period, from, 1, start);
  }

  /** A retrieval after the first request of a walk, not of the target, does not ask for the target either. */
  lemma LostHopWasNotAskedFor(env: Env, w: Walk, to: Url, i: nat)
    requires Reaches(env, Walk({}, 3, [], []), w) && i < |w.trace| && w.trace[0].sentTo >= 2 && |w.wire| >= 2
    requires w.wire[1] == to && WithoutFragment(w.wire[0]) != WithoutFragment(to) && IsPermitted(to, env.rules)
    requires AsksOnce(w.wire, 0)
    ensures w.trace[i].requested != WithoutFragment(to)
  {
    hide MayBeAsked;
    hide Redirected;
    hide IsFinal;
    hide Chained;
    var r := w.trace[i];
    assert IsPermitted(WithoutFragment(to), env.rules) == IsPermitted(to, env.rules);
    hide IsPermitted;
    assert Lawful(env, w.wire, r);
    LaterStarts(env, Walk({}, 3, [], []), w, i);
  }

  lemma LostHopDidNotAnswer(env: Env, sent: seq<Url>, r: Retrieval, to: Url)
    requires HasFixedAnswers(env.net) && Lawful(env, sent, r) && !IsFinal(FixedAnswer(env.net, to))
    ensures r.answered != Some(WithoutFragment(to))
  {
    hide MayBeAsked;
    hide Redirected;
    hide IsFinal;
    hide IsPermitted;
    hide HasFixedAnswers;
    if r.answered.Some? {
      var last := r.sentTo - 1;
      AnswersAreFixed(env.net, sent[..last], sent[last]);
    }
  }

  /** What failed or redirected on is not visited by then, unless it was asked for again. */
  lemma LostHopIsUnvisited(env: Env, w: Walk, from: Url, to: Url)
    requires HasFixedAnswers(env.net) && Leads(env, from, to) && !IsFinal(FixedAnswer(env.net, to))
    requires Reaches(env, Walk({}, 3, [], []), w) && [from, to] <= w.wire && w.trace != [] && w.trace[0].sentTo >= 2
    requires AsksOnce(w.wire, 0)
    ensures WithoutFragment(to) !in w.visited
  {
    hide HasFixedAnswers;
    hide IsNamed;
    hide IsFinal;
    hide IsRedirect;
    hide IsPermitted;
    hide Lawful;
    hide AsksOnce;
    var start, key := Walk({}, 3, [], []), WithoutFragment(to);
    assert w.wire[0] == [from, to][0] && w.wire[1] == [from, to][1];
    if key in w.visited {
      VisitedSoFar(start, w, |w.trace| - 1, key);
      var i :| 0 <= i < |w.trace| && key in Owns(w.trace[i]);
      LostHopWasNotAskedFor(env, w, to, i);
      LostHopDidNotAnswer(env, w.wire, w.trace[i], to);
    }
  }

  lemma {:induction false} LaterStarts(env: Env, start: Walk, w: Walk, i: nat)
    requires start.trace == [] && Reaches(env, start, w) && i < |w.trace|
    ensures i == 0 ==> w.trace[i].sentFrom == |start.wire|
    ensures i > 0 ==> w.trace[i].sentFrom >= w.trace[0].sentTo
  {
    assert Follows(start, w.trace, i);
    if i > 0 {
      LaterStarts(env, start, w, i - 1);
      assert Lawful(env, w.wire, w.trace[i - 1]);
    }
  }

  /** The GET of a URL that passes the rules sends it a request first. */
  lemma GetAsks(env: Env, barred: set<Url>, wire: seq<Url>, url: Url)
    requires IsPermitted(url, env.rules)
    ensures wire + [url] <= GetFrom(env.net, env.rules, barred, wire, url, false, 0).1
  {
    hide IsPermitted;
    hide GetFrom;
    hide Redirected;
    hide IsFinal;
    GetFollowsTheRules(env.net, env.rules, barred, wire, url, false, 0);
    var sent := GetFrom(env.net, env.rules, barred, wire, url, false, 0).1;
    assert sent[|wire|] == url && sent[..|wire|] == wire;
  }

  /** The second of two entries sends its own URL a request. */
  lemma SecondOfTwo(env: Env, subject: Declaration, entry: Entry, w: Walk, to: Url)
    requires IsPeriod(subject.period) && MaxDepth(env) == 1 && IsPermitted(to, env.rules) && MayRetrieve(to, w)
    requires env.net.resolve(entry.declaration.GetOr(""), None) == Some(to)
    ensures w.wire + [to] <= WalkEntry(env, subject, entry, None, 1, w).0.wire
  {
    hide IsPeriod;
    hide FetchMatch;
    hide WalkEntry;
    hide IsNamed;
    hide MayRetrieve;
    EntryIsFollowed(env, entry, None, w, to);
    GetAsks(env, w.visited + {WithoutFragment(to)}, w.wire, to);
    hide IsPermitted;
    hide GetFrom;
    LastLevel(env, subject, entry, None, 1, w, to);
    FetchIsAtMostTwo(env, subject.period, to, 1, w);
  }

  /** Two entries that name the two ends of such a redirect send its target two requests. */
  lemma LostHopIsAskedTwice(env: Env, from: Url, to: Url)
    requires HasFixedAnswers(env.net) && NamesFromAnywhere(env.net)
    requires Leads(env, from, to) && !IsFinal(FixedAnswer(env.net, to))
    ensures !EveryWalkAsksOnce(env)
  {
    hide HasFixedAnswers;
    hide IsPeriod;
    hide WalkEntry;
    hide IsPermitted;
    hide IsRedirect;
    hide IsFinal;
    hide Lawful;
    hide Chained;
    hide AsksOnce;
    var shallow := env.(walkDepth := Some(1));
    var period := SomePeriod();
    var first := AbsoluteReference(env.net, from);
    TargetIsNamed(env, from, to);
    var second := AbsoluteReference(env.net, to);
    var subject := TwoEntries(period, first, second);
    var start := Walk({}, 3, [], []);
    var w := WalkEntry(shallow, subject, subject.upstream[0], None, 1, start).0;
    assert Leads(shallow, from, to);
    FirstOfTwo(shallow, subject, subject.upstream[0], from, to);
    var end := WalkEntry(shallow, subject, subject.upstream[1], None, 1, w).0;
    TwoEntriesWalk(shallow, subject, start);
    if AsksOnce(end.wire, 0) {
      SecondAsksAgain(shallow, subject, w, from, to);
    }
    assert WholeWalk(env.(walkDepth := Some(1)), subject, None, {}, 3, []) == end;
  }

  lemma TwoEntriesWalk(env: Env, subject: Declaration, start: Walk)
    requires IsPeriod(subject.period) && |subject.upstream| == 2
    ensures var w := WalkEntry(env, subject, subject.upstream[0], None, 1, start).0;
      WalkEntries(env, subject, subject.upstream, None, 1, start).0 == WalkEntry(env, subject, subject.upstream[1], None, 1, w).0
  {
    hide IsPeriod;
    hide WalkEntry;
    var w := WalkEntry(env, subject, subject.upstream[0], None, 1, start).0;
    var rest := subject.upstream[1..];
    assert rest[0] == subject.upstream[1] && rest[1..] == [];
    assert WalkEntries(env, subject, rest, None, 1, w).0 == WalkEntry(env, subject, subject.upstream[1], None, 1, w).0;
  }

  lemma SecondAsksAgain(env: Env, subject: Declaration, w: Walk, from: Url, to: Url)
    requires IsPeriod(subject.period) && |subject.upstream| == 2 && MaxDepth(env) == 1
    requires HasFixedAnswers(env.net) && Leads(env, from, to) && !IsFinal(FixedAnswer(env.net, to))
    requires env.net.resolve(subject.upstream[1].declaration.GetOr(""), None) == Some(to)
    requires Reaches(env, Walk({}, 3, [], []), w) && [from, to] <= w.wire && w.trace != [] && w.trace[0].sentTo >= 2 && w.remaining > 0
    ensures !AsksOnce(WalkEntry(env, subject, subject.upstream[1], None, 1, w).0.wire, 0)
  {
    hide HasFixedAnswers;
    hide IsPeriod;
    hide WalkEntry;
    hide IsPermitted;
    hide IsRedirect;
    hide IsFinal;
    hide Reaches;
    hide IsNamed;
    var sent := WalkEntry(env, subject, subject.upstream[1], None, 1, w).0.wire;
    if AsksOnce(w.wire, 0) {
      LostHopIsUnvisited(env, w, from, to);
      SecondOfTwo(env, subject, subject.upstream[1], w, to);
      assert sent[1] == (w.wire + [to])[1] && w.wire[1] == [from, to][1];
      assert sent[|w.wire|] == (w.wire + [to])[|w.wire|];
    } else {
      StillAskedTwice(env, subject, w);
    }
  }

  lemma StillAskedTwice(env: Env, subject: Declaration, w: Walk)
    requires IsPeriod(subject.period) && |subject.upstream| == 2 && !AsksOnce(w.wire, 0)
    ensures !AsksOnce(WalkEntry(env, subject, subject.upstream[1], None, 1, w).0.wire, 0)
  {
    hide IsPeriod;
    hide WalkEntry;
    hide Lawful;
    hide Chained;
    EntryReaches(env, subject, subject.upstream[1], None, 1, w);
    var sent := WalkEntry(env, subject, subject.upstream[1], None, 1, w).0.wire;
    var p, q :| 0 <= p < q < |w.wire| && WithoutFragment(w.wire[p]) == WithoutFragment(w.wire[q]);
    assert sent[p] == w.wire[p] && sent[q] == w.wire[q];
  }

  /**
   * Where answers are fixed, every walk sends each URI at most one request exactly when no URL that can be named and
   * passes the rules redirects onto another such URL whose own answer is a failure or a redirect.
   */
  lemma EveryWalkAsksOnceIff(env: Env)
    requires HasFixedAnswers(env.net) && NamesFromAnywhere(env.net) && KeepsNames(env)
    ensures EveryWalkAsksOnce(env) <==> LosesNoHop(env)
  {
    hide HasFixedAnswers;
    hide NamesFromAnywhere;
    hide WholeWalk;
    hide IsPeriod;
    hide Leads;
    hide IsFinal;
    if LosesNoHop(env) {
      forall depth: Option<int>, subject: Declaration, base: Option<Url>, visited: set<Url>, limit: int, wire: seq<Url> | IsPeriod(subject.period)
        ensures AsksOnce(WholeWalk(env.(walkDepth := depth), subject, base, visited, limit, wire).wire, |wire|)
      {
        var options := env.(walkDepth := depth);
        DepthDoesNotMatter(env, depth);
        forall p, q | |wire| <= p < q < |WholeWalk(options, subject, base, visited, limit, wire).wire|
          ensures var sent := WholeWalk(options, subject, base, visited, limit, wire).wire; WithoutFragment(sent[p]) != WithoutFragment(sent[q])
        {
          WalkAsksOnce(options, subject, base, visited, limit, wire, p, q);
        }
      }
    } else {
      var from, to :| Leads(env, from, to) && !IsFinal(FixedAnswer(env.net, to));
      LostHopIsAskedTwice(env, from, to);
    }
  }

  lemma DepthDoesNotMatter(env: Env, depth: Option<int>)
    requires KeepsNames(env) && LosesNoHop(env)
    ensures KeepsNames(env.(walkDepth := depth)) && LosesNoHop(env.(walkDepth := depth))
  {
    hide IsNamed;
    var options := env.(walkDepth := depth);
    forall from, to | Leads(options, from, to) ensures IsFinal(FixedAnswer(env.net, to)) {
      assert Leads(env, from, to);
    }
  }

  // ---- Two walks that request a hop twice ----

  const A := Url("https", "", "", "a.example", "/", "", "")
  const B := Url("https", "", "", "b.example", "/", "", "")
  const HOP := Url("https", "", "", "hop.example", "/", "", "")
  const C := Url("https", "", "", "c.example", "/", "", "")

  function Named(reference: string): Option<Url> {
    if reference == "a" then Some(A) else if reference == "b" then Some(B)
    else if reference == "hop" then Some(HOP) else if reference == "c" then Some(C) else None
  }

  function RedirectTo(reference: string): Answer<Content> {
    Response(302, Some(reference), Content(false, NotJson))
  }

  /** Both `a` and `b` redirect to one hop, which answers as given; `c` answers 404. */
  function TwoRoadsTo(hop: Answer<Content>): Network<Content> {
    Network(
      (sent: seq<Url>, url: Url) =>
        if WithoutFragment(url) == HOP then hop
        else if WithoutFragment(url) == C then Response(404, None, Content(false, NotJson))
        else RedirectTo("hop"),
      (reference: string, base: Option<Url>) => Named(reference))
  }

  function OpenRules(): Rules {
    Rules(false, None, (host: string) => false, (host: string) => true, (host: string) => false)
  }

  function TwoRoads(hop: Answer<Content>): Env {
    Env(TwoRoadsTo(hop), OpenRules(), 500, None, (query: string, start: string, end: string) => query)
  }

  /** The roads of `a` and of `b` where the hop leads on to `c`, which is retrieved the first time only. */
  lemma RoadThroughTheHop(wire: seq<Url>, barred: set<Url>, url: Url)
    requires HOP !in barred && (url == A || url == B)
    ensures GetFrom(TwoRoadsTo(RedirectTo("c")), OpenRules(), barred, wire, url, false, 0) ==
      if C in barred then (Refused(AlreadyRetrieved, C), wire + [url] + [HOP])
      else (Got(404, Content(false, NotJson), C, true), wire + [url] + [HOP] + [C])
  {
    var net, rules, onHop := TwoRoadsTo(RedirectTo("c")), OpenRules(), wire + [url] + [HOP];
    assert C !in barred ==>
      GetFrom(net, rules, barred, onHop, C, true, 2) == (Got(404, Content(false, NotJson), C, true), onHop + [C]);
    assert GetFrom(net, rules, barred, wire + [url], HOP, true, 1) ==
      if C in barred then (Refused(AlreadyRetrieved, C), onHop) else GetFrom(net, rules, barred, onHop, C, true, 2);
  }

  /** The roads where the hop fails. */
  lemma RoadToTheHop(wire: seq<Url>, barred: set<Url>, url: Url)
    requires HOP !in barred && (url == A || url == B)
    ensures GetFrom(TwoRoadsTo(Failed(Timeout)), OpenRules(), barred, wire, url, false, 0)
      == (Refused(Timeout, HOP), wire + [url] + [HOP])
  {
    var net, rules := TwoRoadsTo(Failed(Timeout)), OpenRules();
    assert GetFrom(net, rules, barred, wire + [url], HOP, true, 1) == (Refused(Timeout, HOP), wire + [url] + [HOP]);
  }

  /** An entry whose retrieval fails leaves the walk as the retrieval left it. */
  lemma FailedEntry(env: Env, subject: Declaration, entry: Entry, base: Option<Url>, depth: nat, w: Walk, url: Url)
    requires IsPeriod(subject.period) && Decide(env, entry, base, depth, w) == Fetch(url)
    requires Retrieve(env, url, depth, w).0.Nothing?
    ensures WalkEntry(env, subject, entry, base, depth, w).0 == Retrieve(env, url, depth, w).1
  {
    hide IsPeriod;
    hide Decide;
    hide Retrieve;
  }

  lemma FirstThroughTheHop(subject: Declaration, entry: Entry)
    requires IsPeriod(subject.period) && entry.declaration == Some("a")
    ensures var w := WalkEntry(TwoRoads(RedirectTo("c")), subject, entry, None, 1, Walk({}, 20, [], [])).0;
      w.visited == {A, C} && w.remaining == 19 && w.wire == [A, HOP, C]
  {
    hide IsPeriod;
    hide GetFrom;
    hide WalkEntry;
    assert {} + {A} == {A};
    RoadThroughTheHop([], {A}, A);
    FailedEntry(TwoRoads(RedirectTo("c")), subject, entry, None, 1, Walk({}, 20, [], []), A);
  }

  lemma SecondThroughTheHop(subject: Declaration, entry: Entry, w: Walk)
    requires IsPeriod(subject.period) && entry.declaration == Some("b")
    requires w.visited == {A, C} && w.remaining == 19
    ensures WalkEntry(TwoRoads(RedirectTo("c")), subject, entry, None, 1, w).0.wire == w.wire + [B] + [HOP]
  {
    hide IsPeriod;
    hide GetFrom;
    hide WalkEntry;
    RoadThroughTheHop(w.wire, w.visited + {B}, B);
    FailedEntry(TwoRoads(RedirectTo("c")), subject, entry, None, 1, w, B);
  }

  lemma EntryToTheHop(subject: Declaration, entry: Entry, w: Walk, url: Url)
    requires IsPeriod(subject.period) && (url == A || url == B) && entry.declaration == Some(if url == A then "a" else "b")
    requires w.remaining > 0 && w.visited <= {A, B} && url !in w.visited
    ensures var after := WalkEntry(TwoRoads(Failed(Timeout)), subject, entry, None, 1, w).0;
      after.visited == w.visited + {url} && after.remaining == w.remaining - 1 && after.wire == w.wire + [url] + [HOP]
  {
    hide IsPeriod;
    hide GetFrom;
    hide WalkEntry;
    RoadToTheHop(w.wire, w.visited + {url}, url);
    FailedEntry(TwoRoads(Failed(Timeout)), subject, entry, None, 1, w, url);
  }

  /** The hop between is not counted as retrieved, so a walk can request it once on each road. */
  lemma AHopIsRequestedTwice(subject: Declaration)
    requires IsPeriod(subject.period)
    requires subject.upstream == [Entry(Some("a"), None), Entry(Some("b"), None)]
    ensures WholeWalk(TwoRoads(RedirectTo("c")), subject, None, {}, 20, []).wire == [A, HOP, C, B, HOP]
  {
    hide IsPeriod;
    hide WalkEntry;
    var w := WalkEntry(TwoRoads(RedirectTo("c")), subject, subject.upstream[0], None, 1, Walk({}, 20, [], [])).0;
    FirstThroughTheHop(subject, subject.upstream[0]);
    SecondThroughTheHop(subject, subject.upstream[1], w);
    TwoEntriesWalk(TwoRoads(RedirectTo("c")), subject, Walk({}, 20, [], []));
  }

  /** Neither is a redirect target that fails, which is the last request of both retrievals. */
  lemma AFailedTargetIsRequestedTwice(subject: Declaration)
    requires IsPeriod(subject.period)
    requires subject.upstream == [Entry(Some("a"), None), Entry(Some("b"), None)]
    ensures WholeWalk(TwoRoads(Failed(Timeout)), subject, None, {}, 20, []).wire == [A, HOP, B, HOP]
  {
    hide IsPeriod;
    hide WalkEntry;
    var start := Walk({}, 20, [], []);
    var w := WalkEntry(TwoRoads(Failed(Timeout)), subject, subject.upstream[0], None, 1, start).0;
    EntryToTheHop(subject, subject.upstream[0], start, A);
    EntryToTheHop(subject, subject.upstream[1], w, B);
    TwoEntriesWalk(TwoRoads(Failed(Timeout)), subject, start);
  }

  /** These networks are of the kind that `EveryWalkAsksOnceIff` is about, and lose the hop whenever it gives no answer. */
  lemma TheHopIsLost(hop: Answer<Content>)
    ensures HasFixedAnswers(TwoRoadsTo(hop)) && NamesFromAnywhere(TwoRoadsTo(hop)) && KeepsNames(TwoRoads(hop))
    ensures !IsFinal(hop) ==> !LosesNoHop(TwoRoads(hop))
  {
    var net := TwoRoadsTo(hop);
    forall url, base: Option<Url> | IsNamed(net, url) ensures IsNamedFrom(net, url, base) {
      var reference, other :| net.resolve(reference, other) == Some(url);
      assert net.resolve(reference, base) == Some(url);
    }
    assert net.resolve("a", None) == Some(A) && FixedAnswer(net, A) == RedirectTo("hop");
    assert Leads(TwoRoads(hop), A, HOP) && FixedAnswer(net, HOP) == hop;
  }
}
