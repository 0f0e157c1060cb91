/**
 * The revalidating cache of `client.ts`: what one request is, the bounded cache with its
 * eviction, and the two halves of `get` around the request it awaits. `Payload` is
 * everything an `ok` result reports besides the validators: document, URL, media type,
 * covers, warnings, signature outcomes and the rest.
 */
module Client {
  import opened CodePointOrder
  import opened DateTimes
  import opened Encoding
  import opened Queries
  import opened Texts
  import opened Wrappers

  // ---- Requests and their keys ----

  datatype Params = Params(target: Option<Text>, start: Option<string>, end: Option<string>, granularity: Option<string>)

  /** What the cache is keyed by: bounds that can be sent in the form sent, others as given. */
  datatype Key = Key(origin: string, target: Option<Text>, start: Option<string>, end: Option<string>, granularity: Option<string>)

  /** A URL as far as a request sets it: everything before the query, its `target` parameter, and the others by name. */
  datatype RequestUrl = RequestUrl(address: string, target: Option<Text>, query: map<string, string>)

  /** How the client makes the URL of a declaration from the text of an origin; none where that text is no URL. */
  type Resolver = string -> Option<RequestUrl>

  /** What goes on the wire. */
  datatype Request = Request(url: RequestUrl)

  function KeyBound(side: Side, value: Option<string>): Option<string> {
    if value.None? then None else
    match QueryBound(side, value.value)
    case Ok(sent) => Some(sent)
    case Err(_) => value
  }

  function CacheKey(origin: string, params: Params): Key {
    Key(origin, params.target, KeyBound(Start, params.start), KeyBound(End, params.end), params.granularity)
  }

  /** Whether the bound can be sent; an absent one is not sent at all. */
  predicate Sendable(side: Side, value: Option<string>) {
    value.Some? ==> QueryBound(side, value.value).Ok?
  }

  function Granularities(): set<string> {
    {"yearly", "monthly", "daily"}
  }

  function SetParameter(query: map<string, string>, name: string, value: Option<string>): map<string, string> {
    if value.Some? then query[name := value.value] else query
  }

  /** The parameters sent: each one given takes the place of one that the URL already has, the target as UTF-8 writes it. */
  function WithParameters(url: RequestUrl, key: Key): RequestUrl {
    url.(target := if key.target.Some? then Some(WellFormed(key.target.value)) else url.target,
         query := SetParameter(SetParameter(SetParameter(url.query, "start", key.start), "end", key.end), "granularity", key.granularity))
  }

  /** The request of a call; none where the origin, a bound or a granularity is refused before anything is sent. */
  function RequestOf(resolve: Resolver, origin: string, params: Params): Option<Request> {
    var url := resolve(origin);
    if !Sendable(Start, params.start) || !Sendable(End, params.end) || url.None? then None
    else if params.granularity.Some? && params.granularity.value !in Granularities() then None
    else Some(Request(WithParameters(url.value, CacheKey(origin, params))))
  }

  lemma KeyBoundDecidesSendable(side: Side, v: Option<string>, w: Option<string>)
    requires KeyBound(side, v) == KeyBound(side, w)
    ensures Sendable(side, v) <==> Sendable(side, w)
  {
    hide QueryBound;
    hide IsUtcDateTime;
    if v.Some? && QueryBound(side, v.value).Ok? {
      SentBoundIsHonored(side, v.value);
    }
    if w.Some? && QueryBound(side, w.value).Ok? {
      SentBoundIsHonored(side, w.value);
    }
  }

  lemma SentIsItsOwnValue(sent: string)
    requires QueryBound(Start, sent) == Ok(sent) && IsUtcDateTime(sent)
    ensures IsDateTime(sent) && ToUtcQueryValue(sent) == sent
  {
    hide ToUtcQueryValue;
    hide HasUtcForm;
    hide Parse;
  }

  /** Date-times that can be sent share a key exactly where they are one instant, however they are spelt. */
  lemma SpellingsShareAKey(side: Side, v: string, w: string)
    requires IsDateTime(v) && IsDateTime(w) && QueryBound(side, v).Ok? && QueryBound(side, w).Ok?
    ensures KeyBound(side, Some(v)) == KeyBound(side, Some(w)) <==> Instant(v) == Instant(w)
  {
    hide QueryBound;
    hide IsUtcDateTime;
    hide IsDateTime;
    hide ToUtcQueryValue;
    hide Instant;
    var x, y := QueryBound(side, v).value, QueryBound(side, w).value;
    SentBoundIsHonored(side, v);
    SentBoundIsHonored(side, w);
    SentIsItsOwnValue(x);
    SentIsItsOwnValue(y);
    PrintEquallyIffSameInstant(x, y);
  }

  /** Two calls that share a cache entry send the same request, or neither sends one. */
  lemma SameKeySameRequest(resolve: Resolver, o1: string, p1: Params, o2: string, p2: Params)
    requires CacheKey(o1, p1) == CacheKey(o2, p2)
    ensures RequestOf(resolve, o1, p1) == RequestOf(resolve, o2, p2)
  {
    hide KeyBound;
    hide Sendable;
    hide WithParameters;
    KeyBoundDecidesSendable(Start, p1.start, p2.start);
    KeyBoundDecidesSendable(End, p1.end, p2.end);
  }

  // ---- Different keys, one request ----

  /** Two texts of one origin that resolve alike are two keys, though they send one request. */
  lemma TwoTextsOfOneOrigin(resolve: Resolver, o1: string, o2: string, params: Params)
    requires o1 != o2 && resolve(o1) == resolve(o2)
    ensures CacheKey(o1, params) != CacheKey(o2, params) && RequestOf(resolve, o1, params) == RequestOf(resolve, o2, params)
  {
    hide KeyBound;
    hide Sendable;
  }

  /** A call whose target has a lone surrogate sends the request of the call with U+FFFD in its place, under another key. */
  lemma IllFormedTargetCollides(resolve: Resolver, origin: string, params: Params)
    requires params.target.Some? && !IsWellFormed(params.target.value)
    ensures var other := params.(target := Some(WellFormed(params.target.value)));
      CacheKey(origin, params) != CacheKey(origin, other) && RequestOf(resolve, origin, params) == RequestOf(resolve, origin, other)
  {
    hide KeyBound;
    hide Sendable;
    hide WellFormed;
    hide IsWellFormed;
    LeftAsItIsIff(params.target.value);
    LeftAsItIsIff(WellFormed(params.target.value));
  }

  /** An input that shows it: a high surrogate alone, and U+FFFD, at every origin that resolves. */
  lemma LoneSurrogateCollides(resolve: Resolver, origin: string)
    requires resolve(origin).Some?
    ensures var p1, p2 := Params(Some([0xD800]), None, None, None), Params(Some([REPLACEMENT]), None, None, None);
      && CacheKey(origin, p1) != CacheKey(origin, p2)
      && RequestOf(resolve, origin, p1).Some? && RequestOf(resolve, origin, p1) == RequestOf(resolve, origin, p2)
  {
    assert CodePoints([0xD800]) == [0xD800] && CodePoints([REPLACEMENT]) == [REPLACEMENT];
    assert WellFormed([0xD800]) == [REPLACEMENT];
    hide WellFormed;
    IllFormedTargetCollides(resolve, origin, Params(Some([0xD800]), None, None, None));
  }

  /** Whether a value that the URL of an origin already has for a parameter is one that a call could itself send. */
  predicate GivesParameter(url: RequestUrl, name: string) {
    if name == "target" then url.target.Some? && IsWellFormed(url.target.value)
    else
      && name in url.query
      && ((name == "start" && QueryBound(Start, url.query[name]) == Ok(url.query[name]))
          || (name == "end" && QueryBound(End, url.query[name]) == Ok(url.query[name]))
          || (name == "granularity" && url.query[name] in Granularities()))
  }

  predicate GivesNoParameter(url: RequestUrl) {
    !GivesParameter(url, "target") && !GivesParameter(url, "start") && !GivesParameter(url, "end") && !GivesParameter(url, "granularity")
  }

  /** A call whose target, if it has one, is written as it stands. */
  predicate IsWritten(params: Params) {
    params.target.Some? ==> IsWellFormed(params.target.value)
  }

  /** Every two such calls of the origin that send the same request share a key. */
  ghost predicate KeysTellRequestsApart(resolve: Resolver, origin: string) {
    forall p1, p2 :: IsWritten(p1) && IsWritten(p2) && RequestOf(resolve, origin, p1).Some?
                     && RequestOf(resolve, origin, p1) == RequestOf(resolve, origin, p2) ==>
      CacheKey(origin, p1) == CacheKey(origin, p2)
  }

  /** A request tells for each of the four parameters what the call gave, or else what the URL already had. */
  lemma RequestTells(url: RequestUrl, key: Key)
    ensures var sent := WithParameters(url, key); var r := sent.query;
      && sent.target == (if key.target.Some? then Some(WellFormed(key.target.value)) else url.target)
      && ("start" in r <==> key.start.Some? || "start" in url.query)
      && ("start" in r ==> r["start"] == if key.start.Some? then key.start.value else url.query["start"])
      && ("end" in r <==> key.end.Some? || "end" in url.query)
      && ("end" in r ==> r["end"] == if key.end.Some? then key.end.value else url.query["end"])
      && ("granularity" in r <==> key.granularity.Some? || "granularity" in url.query)
      && ("granularity" in r ==> r["granularity"] == if key.granularity.Some? then key.granularity.value else url.query["granularity"])
  {
    hide WellFormed;
  }

  lemma SentBoundIsItself(side: Side, value: Option<string>)
    requires Sendable(side, value) && value.Some?
    ensures KeyBound(side, value).Some? && QueryBound(side, KeyBound(side, value).value) == Ok(KeyBound(side, value).value)
  {
    hide QueryBound;
    hide IsUtcDateTime;
    SentBoundIsHonored(side, value.value);
  }

  /** What a call sends for its target: what the URL had, where the call gives none. */
  lemma OneTargetGiven(given: Option<Text>, other: Option<Text>, had: Option<Text>)
    requires had.Some? ==> !IsWellFormed(had.value)
    requires given.Some? ==> IsWellFormed(given.value)
    requires other.Some? ==> IsWellFormed(other.value)
    requires (if given.Some? then Some(WellFormed(given.value)) else had) == (if other.Some? then Some(WellFormed(other.value)) else had)
    ensures given == other
  {
    hide WellFormed;
    hide IsWellFormed;
    if given.Some? { LeftAsItIsIff(given.value); }
    if other.Some? { LeftAsItIsIff(other.value); }
  }

  lemma OneParameterGiven(resolve: Resolver, origin: string, p1: Params, p2: Params)
    requires resolve(origin).Some? && GivesNoParameter(resolve(origin).value) && IsWritten(p1) && IsWritten(p2)
    requires RequestOf(resolve, origin, p1).Some? && RequestOf(resolve, origin, p1) == RequestOf(resolve, origin, p2)
    ensures CacheKey(origin, p1) == CacheKey(origin, p2)
  {
    hide KeyBound;
    hide Sendable;
    hide WithParameters;
    hide QueryBound;
    hide WellFormed;
    hide IsWellFormed;
    var url := resolve(origin).value;
    RequestTells(url, CacheKey(origin, p1));
    RequestTells(url, CacheKey(origin, p2));
    OneTargetGiven(p1.target, p2.target, url.target);
    forall p | p == p1 || p == p2
      ensures p.start.Some? ==> KeyBound(Start, p.start).Some? && QueryBound(Start, KeyBound(Start, p.start).value) == Ok(KeyBound(Start, p.start).value)
      ensures p.end.Some? ==> KeyBound(End, p.end).Some? && QueryBound(End, KeyBound(End, p.end).value) == Ok(KeyBound(End, p.end).value)
      ensures p.start.None? ==> KeyBound(Start, p.start).None?
      ensures p.end.None? ==> KeyBound(End, p.end).None?
    {
      if p.start.Some? { SentBoundIsItself(Start, p.start); } else { NoBound(Start); }
      if p.end.Some? { SentBoundIsItself(End, p.end); } else { NoBound(End); }
    }
  }

  lemma NoBound(side: Side)
    ensures KeyBound(side, None).None? && Sendable(side, None)
  {
  }

  /** The call that gives one parameter just as the URL already has it. */
  function Repeating(url: RequestUrl, name: string): Params
    requires GivesParameter(url, name)
  {
    if name == "target" then Params(url.target, None, None, None)
    else if name == "start" then Params(None, Some(url.query[name]), None, None)
    else if name == "end" then Params(None, None, Some(url.query[name]), None)
    else Params(None, None, None, Some(url.query[name]))
  }

  lemma RepeatedParameterCollides(resolve: Resolver, origin: string, name: string)
    requires resolve(origin).Some? && GivesParameter(resolve(origin).value, name)
    ensures !KeysTellRequestsApart(resolve, origin)
  {
    hide QueryBound;
    hide WellFormed;
    hide IsWellFormed;
    var url := resolve(origin).value;
    var none, repeated := Params(None, None, None, None), Repeating(url, name);
    if name == "target" {
      LeftAsItIsIff(url.target.value);
    } else {
      assert url.query[name := url.query[name]] == url.query;
    }
    assert IsWritten(none) && IsWritten(repeated);
    assert RequestOf(resolve, origin, none) == Some(Request(url));
    assert RequestOf(resolve, origin, repeated) == Some(Request(url));
    assert CacheKey(origin, none) != CacheKey(origin, repeated);
  }

  /**
   * Over the calls of one origin that resolves and whose targets are written as they stand, different keys mean different
   * requests exactly when the URL of the origin does not itself give a parameter a value that such a call could send.
   */
  lemma KeysTellRequestsApartIff(resolve: Resolver, origin: string)
    requires resolve(origin).Some?
    ensures KeysTellRequestsApart(resolve, origin) <==> GivesNoParameter(resolve(origin).value)
  {
    hide RequestOf;
    hide CacheKey;
    hide GivesParameter;
    hide IsWritten;
    var url := resolve(origin).value;
    if GivesNoParameter(url) {
      forall p1, p2 | IsWritten(p1) && IsWritten(p2) && RequestOf(resolve, origin, p1).Some?
                      && RequestOf(resolve, origin, p1) == RequestOf(resolve, origin, p2)
        ensures CacheKey(origin, p1) == CacheKey(origin, p2)
      {
        OneParameterGiven(resolve, origin, p1, p2);
      }
    } else {
      var name := if GivesParameter(url, "target") then "target" else if GivesParameter(url, "start") then "start"
        else if GivesParameter(url, "end") then "end" else "granularity";
      RepeatedParameterCollides(resolve, origin, name);
    }
  }

  // ---- The cache ----

  /** A validator header that is present and not empty: what the client sends and stores by. */
  predicate Present(validator: Option<string>) {
    validator.Some? && validator.value != ""
  }

  datatype Entry<P> = Entry(etag: Option<string>, lastModified: Option<string>, payload: P)

  /** The entries in the order of their first insertion, no key twice. */
  type Cache<P> = seq<(Key, Entry<P>)>

  ghost predicate IsCache<P>(cache: Cache<P>) {
    forall i, j :: 0 <= i < j < |cache| ==> cache[i].0 != cache[j].0
  }

  function Position<P>(cache: Cache<P>, key: Key): (i: nat)
    ensures i <= |cache|
    ensures i < |cache| ==> cache[i].0 == key
    ensures forall j :: 0 <= j < i ==> cache[j].0 != key
  {
    if cache == [] || cache[0].0 == key then 0 else 1 + Position(cache[1..], key)
  }

  predicate Has<P>(cache: Cache<P>, key: Key) {
    Position(cache, key) < |cache|
  }

  function Lookup<P>(cache: Cache<P>, key: Key): Option<Entry<P>> {
    if Has(cache, key) then Some(cache[Position(cache, key)].1) else None
  }

  /** Overwrite the entry in its place, or add it at the end. */
  function Set<P>(cache: Cache<P>, key: Key, entry: Entry<P>): Cache<P> {
    if Has(cache, key) then cache[Position(cache, key) := (key, entry)] else cache + [(key, entry)]
  }

  /** Store an entry, making room by dropping the oldest one when a new key meets a full cache. */
  function Store<P>(cache: Cache<P>, bound: int, key: Key, entry: Entry<P>): Cache<P> {
    var room := if |cache| >= bound && !Has(cache, key) && cache != [] then cache[1..] else cache;
    Set(room, key, entry)
  }

  lemma HasIff<P>(cache: Cache<P>, key: Key)
    ensures Has(cache, key) <==> exists i :: 0 <= i < |cache| && cache[i].0 == key
  {
    if Has(cache, key) {
      assert cache[Position(cache, key)].0 == key;
    }
  }

  lemma LookupIs<P>(cache: Cache<P>, i: nat)
    requires IsCache(cache) && i < |cache|
    ensures Lookup(cache, cache[i].0) == Some(cache[i].1)
  {
    HasIff(cache, cache[i].0);
  }

  lemma LookupIsMember<P>(cache: Cache<P>, key: Key)
    requires Lookup(cache, key).Some?
    ensures (key, Lookup(cache, key).value) in cache
  {
    assert cache[Position(cache, key)].0 == key;
  }

  /** Storing keeps keys distinct, adds the entry and leaves every other entry as it was, but for the oldest if it made room. */
  lemma StoreKeepsOthers<P>(cache: Cache<P>, bound: int, key: Key, entry: Entry<P>)
    requires IsCache(cache)
    ensures var after := Store(cache, bound, key, entry);
      && IsCache(after)
      && Lookup(after, key) == Some(entry)
      && (forall pair :: pair in after ==> pair == (key, entry) || pair in cache)
      && (forall i :: 0 <= i < |cache| && cache[i].0 != key ==>
            if i == 0 && |cache| >= bound && !Has(cache, key) then !Has(after, cache[0].0)
            else Lookup(after, cache[i].0) == Some(cache[i].1))
  {
    var evicts := |cache| >= bound && !Has(cache, key) && cache != [];
    var room := if evicts then cache[1..] else cache;
    var after := Store(cache, bound, key, entry);
    HasIff(cache, key);
    HasIff(room, key);
    assert IsCache(after);
    var at := if Has(cache, key) then Position(cache, key) else |room|;
    assert after[at] == (key, entry);
    LookupIs(after, at);
    forall i | 0 <= i < |cache| && cache[i].0 != key
      ensures if i == 0 && |cache| >= bound && !Has(cache, key) then !Has(after, cache[0].0)
              else Lookup(after, cache[i].0) == Some(cache[i].1)
    {
      if i == 0 && evicts {
        HasIff(after, cache[0].0);
      } else {
        var j := if evicts then i - 1 else i;
        assert after[j] == cache[i];
        LookupIs(after, j);
      }
    }
  }

  /** A cache within its bound stays within it whatever is stored, exactly when the bound is at least one. */
  lemma BoundIsKeptIff<P(!new)>(bound: int, key: Key, entry: Entry<P>)
    ensures (forall cache: Cache<P>, k: Key, e: Entry<P> {:trigger Store(cache, bound, k, e)} ::
               |Store(cache, bound, k, e)| <= (if |cache| <= bound then bound else |cache|)) <==> bound >= 1
  {
    if bound < 1 {
      assert |Store<P>([], bound, key, entry)| == 1;
    } else {
      forall cache: Cache<P>, k: Key, e: Entry<P>
        ensures |Store(cache, bound, k, e)| <= (if |cache| <= bound then bound else |cache|)
      {
        StoreSize(cache, bound, k, e);
      }
    }
  }

  lemma StoreSize<P>(cache: Cache<P>, bound: int, key: Key, entry: Entry<P>)
    ensures |Store(cache, bound, key, entry)| <=
            (if |cache| + 1 <= bound then |cache| + 1 else if |cache| >= 1 then |cache| else 1)
  {
    HasIff(cache, key);
    if cache != [] {
      HasIff(cache[1..], key);
    }
  }

  // ---- One get ----

  /** What `fetchSustainability` makes of one exchange; `Failed` is every other status or error. */
  datatype Fetched<P> = FetchOk(etag: Option<string>, lastModified: Option<string>, payload: P) | FetchNotModified | FetchFailed

  /** What `get` returns. */
  datatype GetResult<P> = GetOk(etag: Option<string>, lastModified: Option<string>, payload: P) | GetNotModified | GetFailed

  datatype Options = Options(maxCacheEntries: int, followUpstream: bool)

  /** Half one: whether the reading held is revalidated, and with which validators. */
  function Validators<P>(options: Options, cached: Option<Entry<P>>): (Option<string>, Option<string>) {
    if cached.None? || options.followUpstream then (None, None)
    else (if Present(cached.value.etag) then cached.value.etag else None,
          if Present(cached.value.lastModified) then cached.value.lastModified else None)
  }

  /** Half two: the result, from what was fetched and the entry captured before the request went out. */
  function ResultOf<P>(options: Options, cached: Option<Entry<P>>, fetched: Fetched<P>): GetResult<P> {
    match fetched
    case FetchNotModified =>
      if cached.Some? && !options.followUpstream then
        GetOk(if Present(cached.value.etag) then cached.value.etag else None,
              if Present(cached.value.lastModified) then cached.value.lastModified else None, cached.value.payload)
      else GetNotModified
    case FetchOk(etag, lastModified, payload) => GetOk(etag, lastModified, payload)
    case FetchFailed => GetFailed
  }

  /** Half two: the cache it leaves. */
  function CacheAfter<P>(options: Options, cache: Cache<P>, key: Key, fetched: Fetched<P>): Cache<P> {
    if fetched.FetchOk? && (Present(fetched.etag) || Present(fetched.lastModified)) && !options.followUpstream then
      Store(cache, options.maxCacheEntries, key, Entry(fetched.etag, fetched.lastModified, fetched.payload))
    else cache
  }

  /** The client: the cache it reads, evicts from and overwrites. */
  class SustainabilityClient<P> {
    const options: Options
    var cache: Cache<P>

    constructor (options: Options)
      ensures this.options == options && cache == []
    {
      this.options := options;
      this.cache := [];
    }

    /** Before the request: the entry captured under the call's key, and the validators to send. */
    method BeginGet(origin: string, params: Params)
      returns (key: Key, cached: Option<Entry<P>>, ifNoneMatch: Option<string>, ifModifiedSince: Option<string>)
      ensures key == CacheKey(origin, params) && cached == Lookup(cache, key)
      ensures (ifNoneMatch, ifModifiedSince) == Validators(options, cached)
    {
      key := CacheKey(origin, params);
      cached := Lookup(cache, key);
      ifNoneMatch, ifModifiedSince := None, None;
      if cached.Some? && !options.followUpstream {
        if Present(cached.value.etag) {
          ifNoneMatch := cached.value.etag;
        }
        if Present(cached.value.lastModified) {
          ifModifiedSince := cached.value.lastModified;
        }
      }
    }

    /** After the response, which may find the cache changed by other gets in between. */
    method FinishGet(key: Key, cached: Option<Entry<P>>, fetched: Fetched<P>) returns (result: GetResult<P>)
      modifies this
      ensures result == ResultOf(options, cached, fetched)
      ensures cache == CacheAfter(options, old(cache), key, fetched)
    {
      if fetched.FetchNotModified? && cached.Some? && !options.followUpstream {
        var entry := cached.value;
        return GetOk(if Present(entry.etag) then entry.etag else None,
                     if Present(entry.lastModified) then entry.lastModified else None, entry.payload);
      }
      if fetched.FetchOk? && (Present(fetched.etag) || Present(fetched.lastModified)) && !options.followUpstream {
        if |cache| >= options.maxCacheEntries && !Has(cache, key) {
          if cache != [] {
            cache := cache[1..];
          }
        }
        cache := Set(cache, key, Entry(fetched.etag, fetched.lastModified, fetched.payload));
      }
      result := match fetched
        case FetchNotModified => GetNotModified
        case FetchOk(etag, lastModified, payload) => GetOk(etag, lastModified, payload)
        case FetchFailed => GetFailed;
    }
  }
}
