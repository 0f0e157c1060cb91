/**
 * The cache of `client.ts` as a protocol: gets that overlap, a server that changes what
 * it holds at any moment, and evictions in between. The server keeps sections 8.8.3 and
 * 13.1 of RFC 9110: it answers 304 only for a validator that is current, and gives no
 * two representations of one resource the same validator.
 */
module ClientProtocol {
  import opened Client
  import opened Wrappers

  /** A representation of the resource that a request names. */
  datatype Rep = Rep(etag: Option<string>, lastModified: Option<string>, body: string)

  datatype Answer = Full(rep: Rep) | NotModified | Other

  /** The client's options, how it resolves an origin, and what it reads a body as: none when it is not a valid declaration document. */
  datatype Config<P> = Config(options: Options, resolve: Resolver, read: (Request, string) -> Option<P>)

  /** A get that is waiting: the entry it captured, and the answer once the server has given it, with what the server held then. */
  datatype Pending<P> = Pending(request: Request, key: Key, cached: Option<Entry<P>>, answer: Option<(Answer, Option<Rep>)>)

  /** A get that is over: the entry it had captured, the answer it got, what the server held then, and its result. */
  datatype Done<P> = Done(request: Request, cached: Option<Entry<P>>, answer: Answer, heldAt: Option<Rep>, result: GetResult<P>)

  datatype Sys<P> = Sys(
    cache: Cache<P>,
    pending: map<nat, Pending<P>>,
    held: map<Request, Rep>,
    past: set<(Request, Rep)>,
    done: seq<Done<P>>)

  // ---- The server's part ----

  /** No validator of a resource stands for two representations; a date counts only where no entity tag was given. */
  ghost predicate Honest(past: set<(Request, Rep)>) {
    forall a, b :: a in past && b in past && a.0 == b.0 ==>
      && (Present(a.1.etag) && a.1.etag == b.1.etag ==> a.1.body == b.1.body)
      && (!Present(a.1.etag) && Present(a.1.lastModified) && a.1.lastModified == b.1.lastModified ==> a.1.body == b.1.body)
  }

  /** If-None-Match decides alone when it is sent; otherwise If-Modified-Since does. */
  predicate MayAnswerNotModified(ifNoneMatch: Option<string>, ifModifiedSince: Option<string>, rep: Rep) {
    if ifNoneMatch.Some? then rep.etag == ifNoneMatch else ifModifiedSince.Some? && rep.lastModified == ifModifiedSince
  }

  // ---- Steps ----

  function FetchedOf<P>(cfg: Config<P>, request: Request, answer: Answer): Fetched<P> {
    match answer
    case NotModified => FetchNotModified
    case Other => FetchFailed
    case Full(rep) =>
      var payload := cfg.read(request, rep.body);
      if payload.Some? then FetchOk(rep.etag, rep.lastModified, payload.value) else FetchFailed
  }

  datatype Step =
    | Send(id: nat, origin: string, params: Params)
    | Change(request: Request, rep: Rep)
    | Remove(request: Request)
    | Reply(id: nat, answer: Answer)
    | Complete(id: nat)

  ghost predicate Does<P>(cfg: Config<P>, s: Sys<P>, step: Step, t: Sys<P>) {
    match step
    case Send(id, origin, params) =>
      var key, request := CacheKey(origin, params), RequestOf(cfg.resolve, origin, params);
      && id !in s.pending && request.Some?
      && t == s.(pending := s.pending[id := Pending(request.value, key, Lookup(s.cache, key), None)])
    case Change(request, rep) =>
      && Honest(s.past + {(request, rep)})
      && t == s.(held := s.held[request := rep], past := s.past + {(request, rep)})
    case Remove(request) =>
      t == s.(held := s.held - {request})
    case Reply(id, answer) =>
      && id in s.pending && s.pending[id].answer.None?
      && var p := s.pending[id];
         var heldAt := if p.request in s.held then Some(s.held[p.request]) else None;
         var (ifNoneMatch, ifModifiedSince) := Validators(cfg.options, p.cached);
         && (answer.Full? ==> heldAt == Some(answer.rep))
         && (answer.NotModified? ==> heldAt.Some? && MayAnswerNotModified(ifNoneMatch, ifModifiedSince, heldAt.value))
         && t == s.(pending := s.pending[id := p.(answer := Some((answer, heldAt)))])
    case Complete(id) =>
      && id in s.pending && s.pending[id].answer.Some?
      && var p := s.pending[id];
         var fetched := FetchedOf(cfg, p.request, p.answer.value.0);
         t == s.(cache := CacheAfter(cfg.options, s.cache, p.key, fetched),
                 pending := s.pending - {id},
                 done := s.done + [Done(p.request, p.cached, p.answer.value.0, p.answer.value.1,
                                        ResultOf(cfg.options, p.cached, fetched))])
  }

  function Initial<P>(): Sys<P> {
    Sys([], map[], map[], {}, [])
  }

  /** A run: states from the initial one, each a step from the one before it. */
  ghost predicate IsRun<P>(cfg: Config<P>, states: seq<Sys<P>>, steps: seq<Step>) {
    && |states| == |steps| + 1 && states[0] == Initial()
    && forall i :: 0 <= i < |steps| ==> Does(cfg, states[i], steps[i], states[i + 1])
  }

  // ---- The invariant ----

  /** The request that the calls under a key send, if they send one. */
  function KeyRequest<P>(cfg: Config<P>, key: Key): Option<Request> {
    var url := cfg.resolve(key.origin);
    if url.None? then None else Some(Request(WithParameters(url.value, key)))
  }

  /** An entry under a key is one for the request of its calls. */
  ghost predicate SourcedFor<P>(cfg: Config<P>, past: set<(Request, Rep)>, key: Key, entry: Entry<P>) {
    KeyRequest(cfg, key).Some? && Sourced(cfg, past, KeyRequest(cfg, key).value, entry)
  }

  /** An entry is a reading of a representation that the server held at some time. */
  ghost predicate Sourced<P>(cfg: Config<P>, past: set<(Request, Rep)>, request: Request, entry: Entry<P>) {
    exists rep :: (request, rep) in past && entry.etag == rep.etag && entry.lastModified == rep.lastModified
                  && cfg.read(request, rep.body) == Some(entry.payload)
  }

  ghost predicate PendingIsSound<P>(cfg: Config<P>, past: set<(Request, Rep)>, p: Pending<P>) {
    && KeyRequest(cfg, p.key) == Some(p.request)
    && (p.cached.Some? ==> Sourced(cfg, past, p.request, p.cached.value))
    && (p.answer.Some? ==>
          var (answer, heldAt) := p.answer.value;
          var (ifNoneMatch, ifModifiedSince) := Validators(cfg.options, p.cached);
          && (heldAt.Some? ==> (p.request, heldAt.value) in past)
          && (answer.Full? ==> heldAt == Some(answer.rep))
          && (answer.NotModified? ==> heldAt.Some? && MayAnswerNotModified(ifNoneMatch, ifModifiedSince, heldAt.value)))
  }

  /** The validator as an `ok` result shows it: none where it is empty. */
  predicate Shows(shown: Option<string>, validator: Option<string>) {
    if validator.Some? && validator.value != "" then shown == validator else shown.None?
  }

  /**
   * A result that is as the answer has it. A get is `ok` exactly where the server answered with what it held, or that
   * this is unchanged, and what it held reads as a valid document: it then reports that document, with the validators
   * served or, of an unchanged one, those of the entry that was captured.
   */
  ghost predicate IsTruthful<P>(cfg: Config<P>, d: Done<P>) {
    && (d.result.GetOk? <==> (d.answer.Full? || d.answer.NotModified?) && d.heldAt.Some? && cfg.read(d.request, d.heldAt.value.body).Some?)
    && (d.result.GetOk? ==> cfg.read(d.request, d.heldAt.value.body) == Some(d.result.payload))
    && (d.result.GetOk? && d.answer.Full? ==>
          d.result.etag == d.heldAt.value.etag && d.result.lastModified == d.heldAt.value.lastModified)
    && (d.result.GetOk? && d.answer.NotModified? ==>
          && d.cached.Some? && d.cached.value.payload == d.result.payload
          && Shows(d.result.etag, d.cached.value.etag) && Shows(d.result.lastModified, d.cached.value.lastModified))
    && (d.answer.Full? || d.answer.NotModified? ==> d.heldAt.Some?)
    && !d.result.GetNotModified?
  }

  ghost predicate Invariant<P>(cfg: Config<P>, s: Sys<P>) {
    && Honest(s.past)
    && (forall request :: request in s.held ==> (request, s.held[request]) in s.past)
    && IsCache(s.cache) && |s.cache| <= (if cfg.options.maxCacheEntries < 1 then 1 else cfg.options.maxCacheEntries)
    && (forall pair :: pair in s.cache ==> SourcedFor(cfg, s.past, pair.0, pair.1))
    && (forall id :: id in s.pending ==> PendingIsSound(cfg, s.past, s.pending[id]))
    && (forall i :: 0 <= i < |s.done| ==> IsTruthful(cfg, s.done[i]))
  }

  /** The heart of it: a 304 for the validators of a captured entry means that the entry is what the server holds. */
  lemma ReplayIsCurrent<P>(cfg: Config<P>, past: set<(Request, Rep)>, p: Pending<P>)
    requires Honest(past) && PendingIsSound(cfg, past, p) && p.answer.Some? && p.answer.value.0.NotModified?
    ensures p.cached.Some? && !cfg.options.followUpstream && p.answer.value.1.Some?
    ensures cfg.read(p.request, p.answer.value.1.value.body) == Some(p.cached.value.payload)
  {
    var rep :| (p.request, rep) in past && p.cached.value.etag == rep.etag && p.cached.value.lastModified == rep.lastModified
               && cfg.read(p.request, rep.body) == Some(p.cached.value.payload);
    var current := p.answer.value.1.value;
    var a, b := (p.request, rep), (p.request, current);
    assert a in past && b in past;
    assert rep.body == current.body;
  }

  lemma CompletedIsTruthful<P>(cfg: Config<P>, past: set<(Request, Rep)>, p: Pending<P>)
    requires Honest(past) && PendingIsSound(cfg, past, p) && p.answer.Some?
    ensures IsTruthful(cfg, Done(p.request, p.cached, p.answer.value.0, p.answer.value.1,
                                 ResultOf(cfg.options, p.cached, FetchedOf(cfg, p.request, p.answer.value.0))))
  {
    if p.answer.value.0.NotModified? {
      ReplayIsCurrent(cfg, past, p);
    }
  }

  lemma CompletedCache<P>(cfg: Config<P>, s: Sys<P>, p: Pending<P>)
    requires Invariant(cfg, s) && PendingIsSound(cfg, s.past, p) && p.answer.Some?
    ensures var after := CacheAfter(cfg.options, s.cache, p.key, FetchedOf(cfg, p.request, p.answer.value.0));
      && IsCache(after) && |after| <= (if cfg.options.maxCacheEntries < 1 then 1 else cfg.options.maxCacheEntries)
      && forall pair :: pair in after ==> SourcedFor(cfg, s.past, pair.0, pair.1)
  {
    var fetched := FetchedOf(cfg, p.request, p.answer.value.0);
    if fetched.FetchOk? {
      var entry := Entry(fetched.etag, fetched.lastModified, fetched.payload);
      assert Sourced(cfg, s.past, p.request, entry);
      StoreKeepsOthers(s.cache, cfg.options.maxCacheEntries, p.key, entry);
      StoreSize(s.cache, cfg.options.maxCacheEntries, p.key, entry);
    }
  }

  lemma MorePast<P>(cfg: Config<P>, past: set<(Request, Rep)>, more: set<(Request, Rep)>, request: Request, entry: Entry<P>)
    requires past <= more && Sourced(cfg, past, request, entry)
    ensures Sourced(cfg, more, request, entry)
  {
  }

  lemma SentIsSound<P>(cfg: Config<P>, s: Sys<P>, origin: string, params: Params)
    requires Invariant(cfg, s) && RequestOf(cfg.resolve, origin, params).Some?
    ensures var key := CacheKey(origin, params);
      PendingIsSound(cfg, s.past, Pending(RequestOf(cfg.resolve, origin, params).value, key, Lookup(s.cache, key), None))
  {
    var key := CacheKey(origin, params);
    if Lookup(s.cache, key).Some? {
      LookupIsMember(s.cache, key);
    }
  }

  lemma StepKeepsInvariant<P>(cfg: Config<P>, s: Sys<P>, step: Step, t: Sys<P>)
    requires Invariant(cfg, s) && Does(cfg, s, step, t)
    ensures Invariant(cfg, t)
  {
    hide Sourced;
    hide IsTruthful;
    hide CacheKey;
    hide RequestOf;
    match step
    case Send(id, origin, params) =>
      SentIsSound(cfg, s, origin, params);
    case Change(request, rep) =>
      hide Honest;
      forall pair | pair in t.cache ensures SourcedFor(cfg, t.past, pair.0, pair.1) {
        MorePast(cfg, s.past, t.past, KeyRequest(cfg, pair.0).value, pair.1);
      }
      forall id | id in t.pending ensures PendingIsSound(cfg, t.past, t.pending[id]) {
        var p := s.pending[id];
        if p.cached.Some? {
          MorePast(cfg, s.past, t.past, p.request, p.cached.value);
        }
      }
    case Remove(request) =>
    case Reply(id, answer) =>
    case Complete(id) =>
      CompletedIsTruthful(cfg, s.past, s.pending[id]);
      CompletedCache(cfg, s, s.pending[id]);
  }

  // ---- What is kept, and what it saves ----

  /** The full answer with a valid document and a validator: what a client that follows no upstream keeps. */
  predicate IsKept<P>(cfg: Config<P>, request: Request, answer: Answer) {
    && answer.Full? && cfg.read(request, answer.rep.body).Some? && !cfg.options.followUpstream
    && ((answer.rep.etag.Some? && answer.rep.etag.value != "") || (answer.rep.lastModified.Some? && answer.rep.lastModified.value != ""))
  }

  /**
   * A completed get keeps what it was answered with, under its key, in place of what that held; other entries stay, but
   * for the oldest where a new key meets a full cache. Any other answer leaves the cache as it is.
   */
  lemma CompletedGetKeeps<P>(cfg: Config<P>, s: Sys<P>, id: nat, t: Sys<P>)
    requires Invariant(cfg, s) && Does(cfg, s, Complete(id), t)
    ensures var p := s.pending[id]; var answer := p.answer.value.0;
      if IsKept(cfg, p.request, answer) then
        && Lookup(t.cache, p.key) == Some(Entry(answer.rep.etag, answer.rep.lastModified, cfg.read(p.request, answer.rep.body).value))
        && forall i :: 0 <= i < |s.cache| && s.cache[i].0 != p.key ==>
             if i == 0 && |s.cache| >= cfg.options.maxCacheEntries && Lookup(s.cache, p.key).None? then Lookup(t.cache, s.cache[0].0).None?
             else Lookup(t.cache, s.cache[i].0) == Some(s.cache[i].1)
      else t.cache == s.cache
  {
    hide Invariant;
    var p := s.pending[id];
    var answer := p.answer.value.0;
    if IsKept(cfg, p.request, answer) {
      CacheIsCache(cfg, s);
      hide Store;
      StoreKeepsOthers(s.cache, cfg.options.maxCacheEntries, p.key,
                       Entry(answer.rep.etag, answer.rep.lastModified, cfg.read(p.request, answer.rep.body).value));
    }
  }

  lemma CacheIsCache<P>(cfg: Config<P>, s: Sys<P>)
    requires Invariant(cfg, s)
    ensures IsCache(s.cache)
  {
    hide IsCache;
    hide SourcedFor;
    hide PendingIsSound;
    hide IsTruthful;
  }

  /**
   * A get revalidates the entry it captured: where the server still holds a representation with the entry's validator, it
   * may answer that nothing was modified. A client that follows upstreams never gets that answer.
   */
  lemma AnUnchangedEntryIsRevalidated<P>(options: Options, cached: Option<Entry<P>>, rep: Rep)
    ensures var (ifNoneMatch, ifModifiedSince) := Validators(options, cached);
      MayAnswerNotModified(ifNoneMatch, ifModifiedSince, rep) <==>
        && cached.Some? && !options.followUpstream
        && var e := cached.value;
           if e.etag.Some? && e.etag.value != "" then rep.etag == e.etag
           else e.lastModified.Some? && e.lastModified.value != "" && rep.lastModified == e.lastModified
    ensures var (ifNoneMatch, ifModifiedSince) := Validators(options, cached);
      if cached.Some? && !options.followUpstream
      then Shows(ifNoneMatch, cached.value.etag) && Shows(ifModifiedSince, cached.value.lastModified)
      else ifNoneMatch.None? && ifModifiedSince.None?
  {
  }

  /** A 304 replays the captured entry exactly where a validator of it was sent; one that was not asked for goes to the caller. */
  lemma ReplaysIffRevalidated<P>(options: Options, cached: Option<Entry<P>>)
    requires cached.Some? ==> Present(cached.value.etag) || Present(cached.value.lastModified)
    ensures var (ifNoneMatch, ifModifiedSince) := Validators(options, cached);
      var result := ResultOf(options, cached, FetchNotModified);
      && (result.GetOk? <==> ifNoneMatch.Some? || ifModifiedSince.Some?)
      && (!result.GetOk? ==> result.GetNotModified?)
  {
  }

  lemma {:induction false} RunKeepsInvariant<P>(cfg: Config<P>, states: seq<Sys<P>>, steps: seq<Step>, i: nat)
    requires IsRun(cfg, states, steps) && i < |states|
    ensures Invariant(cfg, states[i])
  {
    hide Does;
    hide Invariant;
    if i == 0 {
      InitialIsSound(cfg);
    } else {
      RunKeepsInvariant(cfg, states, steps, i - 1);
      StepKeepsInvariant(cfg, states[i - 1], steps[i - 1], states[i]);
    }
  }

  lemma InitialIsSound<P>(cfg: Config<P>)
    ensures Invariant<P>(cfg, Initial())
  {
  }

  // ---- What that means for every run ----

  /**
   * However gets, evictions and changes of the server interleave, every get is `ok` exactly where a valid document was
   * held and answered to that very request, and then reports that document.
   */
  lemma EveryResultIsTruthful<P>(cfg: Config<P>, states: seq<Sys<P>>, steps: seq<Step>, i: nat, k: nat)
    requires IsRun(cfg, states, steps) && i < |states| && k < |states[i].done|
    ensures IsTruthful(cfg, states[i].done[k])
  {
    RunKeepsInvariant(cfg, states, steps, i);
  }

  /** The cache never holds more entries than its bound, counted as one where the bound is lower. */
  lemma CacheStaysBounded<P>(cfg: Config<P>, states: seq<Sys<P>>, steps: seq<Step>, i: nat)
    requires IsRun(cfg, states, steps) && i < |states|
    ensures IsCache(states[i].cache)
    ensures |states[i].cache| <= (if cfg.options.maxCacheEntries < 1 then 1 else cfg.options.maxCacheEntries)
  {
    RunKeepsInvariant(cfg, states, steps, i);
  }
}
