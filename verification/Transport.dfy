/**
 * The redirect loop of `transport.ts`: one GET that follows at most five redirects and
 * applies the transport rules to every hop before requesting it. The network is a
 * function of everything sent so far, so it may answer the same URL differently later.
 */
module Transport {
  import opened Wrappers

  const MAX_REDIRECTS := 5
  const REDIRECT_STATUSES := {301, 302, 303, 307, 308}

  datatype Url = Url(scheme: string, username: string, password: string, host: string, path: string,
                     query: string, fragment: string)

  /** What identifies a URI: all of it but the fragment. */
  function WithoutFragment(url: Url): Url {
    url.(fragment := "")
  }

  datatype Reason =
    | InsecureTransport | UserinfoInUri | BlockedAddress
    | TooManyRedirects | AlreadyRetrieved | Timeout | NetworkError | TlsError

  /** The options a hop is judged by, and what is known of the address that a literal host names. */
  datatype Rules = Rules(
    allowInsecure: bool,
    allowPrivateAddresses: Option<bool>,
    isIp: string -> bool,
    isUnicast: string -> bool,
    isLoopback: string -> bool)

  /** One response: a status, the redirect target it names if any, and what its body holds. */
  datatype Answer<C> = Failed(reason: Reason) | Response(status: int, location: Option<string>, content: C)

  /** The network and the resolution of references, both functions of what they are given. */
  datatype Network<!C> = Network(
    answer: (seq<Url>, Url) -> Answer<C>,
    resolve: (string, Option<Url>) -> Option<Url>)

  datatype GetResult<C> = Got(status: int, content: C, url: Url, redirected: bool) | Refused(reason: Reason, at: Url)

  /** Why a URL may not be requested, if it may not. */
  function HopRefusal(url: Url, rules: Rules): Option<Reason> {
    if !rules.allowInsecure && url.scheme != "https" then Some(InsecureTransport)
    else if url.username != "" || url.password != "" then Some(UserinfoInUri)
    else if rules.allowPrivateAddresses != Some(true) && rules.isIp(url.host) && !AddressPermitted(url.host, rules) then
      Some(BlockedAddress)
    else None
  }

  /** Public unicast, or loopback where the insecure option lifts the check for it. */
  predicate AddressPermitted(host: string, rules: Rules) {
    rules.isUnicast(host) || (rules.allowInsecure && rules.allowPrivateAddresses != Some(false) && rules.isLoopback(host))
  }

  /** A URL that a request may go to, by its own parts and the options. */
  predicate IsPermitted(url: Url, rules: Rules) {
    && (rules.allowInsecure || url.scheme == "https")
    && url.username == "" && url.password == ""
    && (|| rules.allowPrivateAddresses == Some(true) || !rules.isIp(url.host) || rules.isUnicast(url.host)
        || (rules.isLoopback(url.host) && rules.allowInsecure && rules.allowPrivateAddresses != Some(false)))
  }

  /** Whether the reason tells the first rule that the URL breaks. */
  predicate Breaks(url: Url, rules: Rules, reason: Reason) {
    match reason
    case InsecureTransport => !rules.allowInsecure && url.scheme != "https"
    case UserinfoInUri => (rules.allowInsecure || url.scheme == "https") && (url.username != "" || url.password != "")
    case BlockedAddress =>
      && (rules.allowInsecure || url.scheme == "https") && url.username == "" && url.password == ""
      && rules.allowPrivateAddresses != Some(true) && rules.isIp(url.host) && !rules.isUnicast(url.host)
      && !(rules.isLoopback(url.host) && rules.allowInsecure && rules.allowPrivateAddresses != Some(false))
    case _ => false
  }

  /** A hop is refused exactly when its URL is not permitted, and for the first rule that it breaks. */
  lemma RefusedIffNotPermitted(url: Url, rules: Rules)
    ensures HopRefusal(url, rules).None? <==> IsPermitted(url, rules)
    ensures HopRefusal(url, rules).Some? ==> Breaks(url, rules, HopRefusal(url, rules).value)
    ensures IsPermitted(url, rules) <==> forall reason :: !Breaks(url, rules, reason)
  {
    if !IsPermitted(url, rules) {
      assert Breaks(url, rules, HopRefusal(url, rules).value);
    }
  }

  predicate IsRedirect<C>(answer: Answer<C>) {
    answer.Response? && answer.status in REDIRECT_STATUSES && answer.location.Some?
  }

  /** A response that ends a GET: one that is no redirect. */
  predicate IsFinal<C>(answer: Answer<C>) {
    answer.Response? && !IsRedirect(answer)
  }

  /**
   * The outcome of a GET that has reached `current` after `hop` redirects, and everything sent by then.
   * A redirect onto a URI in `barred` is refused.
   */
  function GetFrom<C>(net: Network<C>, rules: Rules, barred: set<Url>, sent: seq<Url>, current: Url,
                      redirected: bool, hop: nat): (GetResult<C>, seq<Url>)
    requires hop <= MAX_REDIRECTS
    decreases MAX_REDIRECTS - hop
  {
    var refusal := HopRefusal(current, rules);
    if refusal.Some? then (Refused(refusal.value, current), sent) else
    var answer, after := net.answer(sent, current), sent + [current];
    if answer.Failed? then (Refused(answer.reason, current), after)
    else if !IsRedirect(answer) then (Got(answer.status, answer.content, current, redirected), after)
    else if hop >= MAX_REDIRECTS then (Refused(TooManyRedirects, current), after)
    else
      var target := net.resolve(answer.location.value, Some(current));
      if target.None? then (Refused(NetworkError, current), after)
      else if WithoutFragment(target.value) in barred then (Refused(AlreadyRetrieved, target.value), after)
      else GetFrom(net, rules, barred, after, target.value, true, hop + 1)
  }

  /** GET `url`: the loop that updates `current` and `redirected` hop by hop. */
  method SecureGet<C>(net: Network<C>, rules: Rules, barred: set<Url>, wire: seq<Url>, url: Url)
    returns (result: GetResult<C>, sent: seq<Url>)
    ensures (result, sent) == GetFrom(net, rules, barred, wire, url, false, 0)
  {
    var current, redirected, hop := url, false, 0;
    sent := wire;
    while true
      invariant 0 <= hop <= MAX_REDIRECTS
      invariant GetFrom(net, rules, barred, sent, current, redirected, hop)
             == GetFrom(net, rules, barred, wire, url, false, 0)
      decreases MAX_REDIRECTS - hop
    {
      var refusal := HopRefusal(current, rules);
      if refusal.Some? {
        return Refused(refusal.value, current), sent;
      }
      var answer := net.answer(sent, current);
      sent := sent + [current];
      if answer.Failed? {
        return Refused(answer.reason, current), sent;
      }
      if IsRedirect(answer) {
        if hop >= MAX_REDIRECTS {
          return Refused(TooManyRedirects, current), sent;
        }
        var target := net.resolve(answer.location.value, Some(current));
        if target.None? {
          return Refused(NetworkError, current), sent;
        }
        if WithoutFragment(target.value) in barred {
          return Refused(AlreadyRetrieved, target.value), sent;
        }
        current, redirected, hop := target.value, true, hop + 1;
        continue;
      }
      return Got(answer.status, answer.content, current, redirected), sent;
    }
  }

  /** What the network answered to the request at place `k` of everything sent. */
  function AnswerAt<C>(net: Network<C>, sent: seq<Url>, k: nat): Answer<C>
    requires k < |sent|
  {
    net.answer(sent[..k], sent[k])
  }

  /** The request at place `k` goes where the answer to the one before it redirects. */
  ghost predicate Redirected<C>(net: Network<C>, sent: seq<Url>, k: nat)
    requires 0 < k < |sent|
  {
    var answer := AnswerAt(net, sent, k - 1);
    IsRedirect(answer) && net.resolve(answer.location.value, Some(sent[k - 1])) == Some(sent[k])
  }

  /**
   * What one GET of `url` put on the wire, from place `start` on: at most six requests, the first to the
   * URL itself unless the rules refuse it, and each other where the last one redirected; every one passed
   * the rules, and none but the first went to a barred URI. It succeeds exactly where the last answer is final.
   */
  ghost predicate HopsOf<C>(net: Network<C>, rules: Rules, barred: set<Url>, sent: seq<Url>, start: nat, url: Url,
                            result: GetResult<C>) {
    && start <= |sent|
    && (start < |sent| <==> IsPermitted(url, rules))
    && (start < |sent| ==> sent[start] == url)
    && (forall k :: start <= k < |sent| ==> IsPermitted(sent[k], rules))
    && (forall k :: start < k < |sent| ==> WithoutFragment(sent[k]) !in barred && Redirected(net, sent, k))
    && (result.Got? <==> start < |sent| && IsFinal(AnswerAt(net, sent, |sent| - 1)))
    && (result.Got? ==>
          && result.url == sent[|sent| - 1]
          && var answer := AnswerAt(net, sent, |sent| - 1); answer.status == result.status && answer.content == result.content)
  }

  /** A GET that was redirected put the request before the redirect first, and then what the rest of it did. */
  lemma HopBefore<C>(net: Network<C>, rules: Rules, barred: set<Url>, wire: seq<Url>, sent: seq<Url>, url: Url, target: Url,
                     result: GetResult<C>)
    requires IsPermitted(url, rules) && wire + [url] <= sent
    requires var answer := net.answer(wire, url);
      IsRedirect(answer) && net.resolve(answer.location.value, Some(url)) == Some(target) && WithoutFragment(target) !in barred
    requires HopsOf(net, rules, barred, sent, |wire| + 1, target, result)
    ensures HopsOf(net, rules, barred, sent, |wire|, url, result)
  {
    hide IsPermitted;
    var start := |wire|;
    assert sent[start] == (wire + [url])[start] && sent[..start] == (wire + [url])[..start] && (wire + [url])[..start] == wire;
    assert AnswerAt(net, sent, start) == net.answer(wire, url);
  }

  lemma {:induction false} GetFollowsTheRules<C>(net: Network<C>, rules: Rules, barred: set<Url>, wire: seq<Url>, url: Url,
                                                 redirected: bool, hop: nat)
    requires hop <= MAX_REDIRECTS
    ensures var (result, sent) := GetFrom(net, rules, barred, wire, url, redirected, hop);
      && wire <= sent && |sent| - |wire| <= MAX_REDIRECTS + 1 - hop
      && HopsOf(net, rules, barred, sent, |wire|, url, result)
    decreases MAX_REDIRECTS - hop
  {
    RefusedIffNotPermitted(url, rules);
    hide HopRefusal;
    hide IsPermitted;
    if IsPermitted(url, rules) {
      var answer, after := net.answer(wire, url), wire + [url];
      assert after[..|wire|] == wire;
      assert AnswerAt(net, after, |wire|) == answer;
      if IsRedirect(answer) && hop < MAX_REDIRECTS {
        var target := net.resolve(answer.location.value, Some(url));
        if target.Some? && WithoutFragment(target.value) !in barred {
          hide HopsOf;
          hide Redirected;
          GetFollowsTheRules(net, rules, barred, after, target.value, true, hop + 1);
          var (result, sent) := GetFrom(net, rules, barred, after, target.value, true, hop + 1);
          HopBefore(net, rules, barred, wire, sent, url, target.value, result);
        }
      }
    }
  }

  // ---- How a GET ends ----

  /**
   * What ends a GET, told from what it sent: a rule that the URL breaks, a failure, a final answer, or a redirect that
   * is the sixth answer, names no URL, or names one that is barred or breaks a rule. A redirect else is followed.
   */
  ghost predicate EndsFor<C>(net: Network<C>, rules: Rules, barred: set<Url>, sent: seq<Url>, start: nat, limit: int, url: Url,
                             redirected: bool, result: GetResult<C>)
    requires start <= |sent|
  {
    if start == |sent| then result.Refused? && result.at == url && Breaks(url, rules, result.reason) else
    var last, answer := sent[|sent| - 1], AnswerAt(net, sent, |sent| - 1);
    if answer.Failed? then result == Refused(answer.reason, last)
    else if answer.status !in {301, 302, 303, 307, 308} || answer.location.None? then
      && result.Got? && result.status == answer.status && result.content == answer.content && result.url == last
      && result.redirected == (redirected || |sent| - start > 1)
    else
      var target := net.resolve(answer.location.value, Some(last));
      if |sent| - start == limit then result == Refused(TooManyRedirects, last)
      else if target.None? then result == Refused(NetworkError, last)
      else if WithoutFragment(target.value) in barred then result == Refused(AlreadyRetrieved, target.value)
      else result.Refused? && result.at == target.value && Breaks(target.value, rules, result.reason)
  }

  /** A GET that followed a redirect ends as the rest of it does. */
  lemma EndsLikeTheRest<C>(net: Network<C>, rules: Rules, barred: set<Url>, wire: seq<Url>, sent: seq<Url>, limit: int, url: Url,
                           target: Url, redirected: bool, result: GetResult<C>)
    requires wire + [url] <= sent && limit > 1
    requires var answer := net.answer(wire, url);
      && answer.Response? && answer.status in {301, 302, 303, 307, 308} && answer.location.Some?
      && net.resolve(answer.location.value, Some(url)) == Some(target) && WithoutFragment(target) !in barred
    requires EndsFor(net, rules, barred, sent, |wire| + 1, limit - 1, target, true, result)
    ensures EndsFor(net, rules, barred, sent, |wire|, limit, url, redirected, result)
  {
    hide Breaks;
    if |sent| == |wire| + 1 {
      assert sent == wire + [url] && sent[..|wire|] == wire;
    }
  }

  lemma {:induction false} GetEnds<C>(net: Network<C>, rules: Rules, barred: set<Url>, wire: seq<Url>, url: Url, redirected: bool, hop: nat)
    requires hop <= MAX_REDIRECTS
    ensures var (result, sent) := GetFrom(net, rules, barred, wire, url, redirected, hop);
      wire <= sent && EndsFor(net, rules, barred, sent, |wire|, 6 - hop, url, redirected, result)
    decreases MAX_REDIRECTS - hop
  {
    RefusedIffNotPermitted(url, rules);
    hide HopRefusal;
    hide Breaks;
    hide IsPermitted;
    if IsPermitted(url, rules) {
      var answer, after := net.answer(wire, url), wire + [url];
      assert after[..|wire|] == wire;
      assert AnswerAt(net, after, |wire|) == answer;
      if IsRedirect(answer) && hop < MAX_REDIRECTS {
        var target := net.resolve(answer.location.value, Some(url));
        if target.Some? && WithoutFragment(target.value) !in barred {
          hide EndsFor;
          GetEnds(net, rules, barred, after, target.value, true, hop + 1);
          var (result, sent) := GetFrom(net, rules, barred, after, target.value, true, hop + 1);
          EndsLikeTheRest(net, rules, barred, wire, sent, 6 - hop, url, target.value, redirected, result);
        }
      }
    }
  }

  /** Too many redirects are told exactly where the sixth answer redirects; a network fails for other reasons. */
  lemma TooManyIffSixthRedirects<C>(net: Network<C>, rules: Rules, barred: set<Url>, wire: seq<Url>, url: Url)
    requires forall sent, to :: net.answer(sent, to) != Failed(TooManyRedirects)
    ensures var (result, sent) := GetFrom(net, rules, barred, wire, url, false, 0);
      (result.Refused? && result.reason == TooManyRedirects) <==>
        |sent| - |wire| == 6 && IsRedirect(AnswerAt(net, sent, |sent| - 1))
  {
    hide GetFrom;
    hide IsPermitted;
    GetFollowsTheRules(net, rules, barred, wire, url, false, 0);
    hide HopsOf;
    GetEnds(net, rules, barred, wire, url, false, 0);
  }
}
