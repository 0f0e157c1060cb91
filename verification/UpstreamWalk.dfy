/**
 * The object that carries one upstream walk: the set of visited URIs and the retrieval
 * budget that every level of the recursion updates in place. Its methods do what the
 * functions of `Upstream` say; what those promise is proved in
 * `UpstreamSafety`, `UpstreamRepeats` and `UpstreamReports`.
 */
module UpstreamWalks {
  import opened Periods
  import opened Transport
  import opened Upstream
  import opened Wrappers

  class UpstreamWalk {
    const env: Env
    var visited: set<Url>
    var remaining: int
    var wire: seq<Url>  // everything the network has been sent
    ghost var trace: seq<Retrieval>

    constructor (env: Env, visited: set<Url>, limit: int, wire: seq<Url>)
      ensures this.env == env && State() == Walk(visited, limit, wire, [])
    {
      this.env, this.visited, this.remaining, this.wire := env, visited, limit, wire;
      this.trace := [];
    }

    ghost function State(): Walk
      reads this
    {
      Walk(visited, remaining, wire, trace)
    }

    /** Spend one retrieval on the URI, then GET it; the URI that answers is visited too. */
    method RetrieveUri(url: Url, depth: int) returns (retrieved: Retrieved)
      modifies this
      ensures (retrieved, State()) == Retrieve(env, url, depth, old(State()))
    {
      ghost var before, from := visited, |wire|;
      visited := visited + {WithoutFragment(url)};
      remaining := remaining - 1;
      var got, sent := SecureGet(env.net, env.rules, visited, wire, url);
      wire := sent;
      if got.Refused? {
        retrieved := Nothing(Failure.Transport(got.reason));
        trace := trace + [Retrieval(before, WithoutFragment(url), depth, from, |sent|, None)];
        return;
      }
      visited := visited + {WithoutFragment(got.url)};
      retrieved := ReadResponse(env, got.status, got.content, got.url);
      trace := trace + [Retrieval(before, WithoutFragment(url), depth, from, |sent|, Some(WithoutFragment(got.url)))];
    }

    /** Retrieve the URI and, where it answers other periods and declares `extended`, ask it for the period. */
    method FetchForPeriod(period: Period, url: Url, depth: int) returns (fetched: Fetched)
      requires IsPeriod(period)
      modifies this
      ensures (fetched, State()) == FetchMatch(env, period, url, depth, old(State()))
    {
      hide IsPeriod;
      hide Retrieve;
      hide Scoped;
      hide IsFor;
      var got := RetrieveUri(url, depth);
      if got.Nothing? {
        return FetchFailed(got.failure);
      }
      var found := SamePeriodObject(got.objects, period);
      if found.Some? {
        return Matched(found.value, got.url);
      }
      var ignored := false;
      if AsksAgain(got.objects, period) {
        var scoped := Scoped(env, url, period);
        if WithoutFragment(scoped) !in visited && remaining > 0 {
          var again := RetrieveUri(scoped, depth);
          if again.Declarations? {
            found := SamePeriodObject(again.objects, period);
            if found.Some? {
              return Matched(found.value, again.url);
            }
            ignored := true;
          }
        }
      }
      return NoMatch(ignored);
    }

    /** Walk the entries of one declaration in order, comparing each with it and going down where it may. */
    method CompareUpstream(subject: Declaration, base: Option<Url>, depth: nat) returns (out: seq<Comparison>)
      requires IsPeriod(subject.period)
      modifies this
      ensures (State(), out) == WalkEntries(env, subject, subject.upstream, base, depth, old(State()))
      decreases Levels(env, depth), 1
    {
      hide IsPeriod;
      hide WalkEntry;
      out := [];
      var entries := subject.upstream;
      ghost var whole := WalkEntries(env, subject, entries, base, depth, State());
      assert entries[0..] == entries && [] + whole.1 == whole.1;
      for i := 0 to |entries|
        invariant whole.0 == WalkEntries(env, subject, entries[i..], base, depth, State()).0
        invariant whole.1 == out + WalkEntries(env, subject, entries[i..], base, depth, State()).1
      {
        assert entries[i..][0] == entries[i] && entries[i..][1..] == entries[i + 1..];
        ghost var before := out;
        var comparison := CompareEntry(subject, entries[i], base, depth);
        out := out + [comparison];
        ghost var rest := WalkEntries(env, subject, entries[i + 1..], base, depth, State()).1;
        assert before + ([comparison] + rest) == out + rest;
      }
      assert entries[|entries|..] == [] && out + [] == out;
    }

    method CompareEntry(subject: Declaration, entry: Entry, base: Option<Url>, depth: nat) returns (comparison: Comparison)
      requires IsPeriod(subject.period)
      modifies this
      ensures (State(), comparison) == WalkEntry(env, subject, entry, base, depth, old(State()))
      decreases Levels(env, depth), 0
    {
      hide IsPeriod;
      hide FetchMatch;
      hide Compare;
      hide WithoutMatch;
      hide Blank;
      hide NotFollowed;
      if depth > MaxDepth(env) {
        return Blank(entry, depth, Some(subject.period), Unreachable, DepthLimit);
      }
      var url := env.net.resolve(entry.declaration.GetOr(""), base);
      if url.None? {
        return Blank(entry, depth, Some(subject.period), Unreachable, NotResolvable);
      }
      if !env.rules.allowInsecure && url.value.scheme != "https" {
        return Blank(entry, depth, Some(subject.period), Unreachable, NotHttps);
      }
      if WithoutFragment(url.value) in visited {
        return Blank(entry, depth, Some(subject.period), Unreachable, AlreadySeen);
      }
      if remaining <= 0 {
        return Blank(entry, depth, Some(subject.period), Unreachable, BudgetSpent);
      }
      FetchedIsForPeriod(env, subject.period, url.value, depth, State());
      var fetched := FetchForPeriod(subject.period, url.value, depth);
      match fetched
      case FetchFailed(failure) =>
        comparison := Blank(entry, depth, Some(subject.period), Unreachable, NotRetrieved(failure));
      case NoMatch(ignored) =>
        comparison := WithoutMatch(subject, entry, depth, ignored);
      case Matched(found, at) =>
        if depth < MaxDepth(env) {
          var nested := CompareUpstream(found, Some(at), depth + 1);
          comparison := Compare(subject, entry, depth, found, nested);
        } else {
          comparison := Compare(subject, entry, depth, found, NotFollowed(found.upstream, depth + 1));
        }
    }
  }
}
