/**
 * The verifier policy of `jws.ts`: which headers are accepted, which key a signature is
 * checked under and how far that key is trusted. Decoding, thumbprints, certificate chains
 * and the signature check itself are given: a header says what its members were read as,
 * and `Check` says what a key and an algorithm make of the signature at hand.
 */
module Jws {
  import opened Tokens
  import opened Wrappers

  datatype KeyKind = Ed25519Key | P256Key | OtherKey

  datatype Key = Key(kind: KeyKind, thumbprint: string, kid: Option<string>)

  datatype KeyTrust = OutOfBand | Pinned | X5cAnchored | DeclarationOnly

  datatype TrustedKey = TrustedKey(key: Key, trust: KeyTrust)

  /** The `x5c` member: absent, unreadable, or a chain with its leaf key that stands on an anchor of the caller or not. */
  datatype X5c = NoChain | BadChain | Chain(leaf: Key, anchored: bool)

  datatype Jwk = NoJwk | NotAnObject | PrivateKey | PublicJwk(key: Key)

  /** The `cty` member: absent, or the media type it names, if any. */
  datatype Cty = NoCty | Names(mediaType: Option<string>)

  datatype Header = Header(alg: Option<string>, kid: Option<string>, cty: Cty, hasCrit: bool, x5c: X5c, jwk: Jwk)

  datatype Policy = Policy(trustedKeys: seq<Key>, pinnedKeys: seq<Key>, allowedAlgs: Option<seq<string>>, requiredCty: string)

  datatype Reason =
    | Malformed | AlgNone | MacAlg | AlgRejected | CtyMissing | CtyWrong | CritUnknown | NoKey
    | PrivateKeyInHeader | KeyAlgMismatch | PinMismatch | InvalidSignature

  /** What verifying the signature under a key and an algorithm gives. */
  datatype Check = Verifies | DoesNotVerify | CannotBeUsed

  const SUPPORTED_ALGS := ["Ed25519", "ES256", "EdDSA"]

  function AlgsForKey(key: Key): seq<string> {
    match key.kind
    case Ed25519Key => ["Ed25519", "EdDSA"]
    case P256Key => ["ES256"]
    case OtherKey => []
  }

  predicate IsMacAlg(alg: string) {
    var lower := Lower(alg);
    lower == "hs256" || lower == "hs384" || lower == "hs512"
  }

  predicate IsAccepted(alg: string, policy: Policy) {
    alg in SUPPORTED_ALGS && (policy.allowedAlgs.Some? ==> alg in policy.allowedAlgs.value)
  }

  /** Why the header is refused before any key is looked at. */
  function HeaderRefusal(header: Header, policy: Policy): Option<Reason> {
    if header.alg.None? then Some(AlgRejected)
    else if Lower(header.alg.value) == "none" then Some(AlgNone)
    else if IsMacAlg(header.alg.value) then Some(MacAlg)
    else if !IsAccepted(header.alg.value, policy) then Some(AlgRejected)
    else if header.cty.NoCty? then Some(CtyMissing)
    else if header.cty.mediaType != Some(policy.requiredCty) then Some(CtyWrong)
    else if header.hasCrit then Some(CritUnknown)
    else None
  }

  /** What key the header brings: the leaf of its chain, or its `jwk`, which must then be the same key. */
  function CarriedKey(header: Header): Result<Option<TrustedKey>, Reason> {
    if header.x5c.BadChain? then Err(Malformed) else
    var ofChain := if header.x5c.Chain?
      then Some(TrustedKey(header.x5c.leaf, if header.x5c.anchored then X5cAnchored else DeclarationOnly)) else None;
    match header.jwk
    case NoJwk => Ok(ofChain)
    case NotAnObject => Err(Malformed)
    case PrivateKey => Err(PrivateKeyInHeader)
    case PublicJwk(key) =>
      if ofChain.None? then Ok(Some(TrustedKey(key, DeclarationOnly)))
      else if ofChain.value.key.thumbprint != key.thumbprint then Err(Malformed)
      else Ok(ofChain)
  }

  function WithTrust(keys: seq<Key>, trust: KeyTrust): (r: seq<TrustedKey>)
    ensures |r| == |keys| && forall i :: 0 <= i < |keys| ==> r[i] == TrustedKey(keys[i], trust)
  {
    seq(|keys|, i requires 0 <= i < |keys| => TrustedKey(keys[i], trust))
  }

  /** The keys the caller holds: those obtained out of band, then those pinned. */
  function HeldKeys(policy: Policy): seq<TrustedKey> {
    WithTrust(policy.trustedKeys, OutOfBand) + WithTrust(policy.pinnedKeys, Pinned)
  }

  function OfKid(keys: seq<TrustedKey>, kid: Option<string>, named: bool): (r: seq<TrustedKey>)
    ensures forall k :: k in r <==> k in keys && (kid.Some? && k.key.kid == kid) == named
  {
    if keys == [] then [] else
    var n := |keys| - 1;
    assert keys == keys[..n] + [keys[n]];
    OfKid(keys[..n], kid, named) + (if (kid.Some? && keys[n].key.kid == kid) == named then [keys[n]] else [])
  }

  /** The held keys, the ones that `kid` names first. */
  function Ordered(keys: seq<TrustedKey>, kid: Option<string>): (r: seq<TrustedKey>)
    ensures forall k :: k in r <==> k in keys
  {
    OfKid(keys, kid, true) + OfKid(keys, kid, false)
  }

  /** The first of the keys that has the thumbprint. */
  function FirstOf(keys: seq<TrustedKey>, thumbprint: string): (r: Option<TrustedKey>)
    ensures r.Some? ==> r.value in keys && r.value.key.thumbprint == thumbprint
    ensures r.None? <==> forall k :: k in keys ==> k.key.thumbprint != thumbprint
  {
    if keys == [] then None
    else if keys[0].key.thumbprint == thumbprint then Some(keys[0])
    else FirstOf(keys[1..], thumbprint)
  }

  /** The keys to try, in turn. Any key the caller holds takes the place of one that the header carries. */
  function Candidates(header: Header, policy: Policy): Result<seq<TrustedKey>, Reason> {
    var carried, held := CarriedKey(header), HeldKeys(policy);
    if carried.Err? then Err(carried.error)
    else if held == [] then
      if carried.value.None? then Err(NoKey) else Ok([carried.value.value])
    else if carried.value.None? then Ok(Ordered(held, header.kid))
    else
      var same := FirstOf(held, carried.value.value.key.thumbprint);
      if same.None? then Err(PinMismatch) else Ok([same.value])
  }

  function Under(key: TrustedKey, alg: string, check: (Key, string) -> Check): Result<TrustedKey, Reason> {
    if alg !in AlgsForKey(key.key) then Err(KeyAlgMismatch)
    else match check(key.key, alg)
      case Verifies => Ok(key)
      case DoesNotVerify => Err(InvalidSignature)
      case CannotBeUsed => Err(KeyAlgMismatch)
  }

  /** The first key it verifies under; with none, why the last one failed. */
  function UnderAny(keys: seq<TrustedKey>, alg: string, check: (Key, string) -> Check): Result<TrustedKey, Reason> {
    if keys == [] then Err(NoKey) else
    var first := Under(keys[0], alg, check);
    if first.Ok? || |keys| == 1 then first else UnderAny(keys[1..], alg, check)
  }

  /** The key the signature verified under, with its trust, or the reason why not. */
  function Verify(header: Header, policy: Policy, check: (Key, string) -> Check): Result<TrustedKey, Reason> {
    var refusal := HeaderRefusal(header, policy);
    if refusal.Some? then Err(refusal.value) else
    var keys := Candidates(header, policy);
    if keys.Err? then Err(keys.error) else UnderAny(keys.value, header.alg.value, check)
  }

  // ---- The loops ----

  method VerifyUnderAny(keys: seq<TrustedKey>, alg: string, check: (Key, string) -> Check) returns (last: Result<TrustedKey, Reason>)
    ensures last == UnderAny(keys, alg, check)
  {
    hide Under;
    last := Err(NoKey);
    for i := 0 to |keys|
      invariant i == 0 ==> last == Err(NoKey)
      invariant i > 0 ==> last == Under(keys[i - 1], alg, check) && last.Err?
      invariant UnderAny(keys, alg, check) == if i < |keys| then UnderAny(keys[i..], alg, check) else last
    {
      last := Under(keys[i], alg, check);
      assert keys[i..][1..] == keys[i + 1..];
      if last.Ok? {
        return;
      }
    }
  }

  method VerifyCompact(header: Header, policy: Policy, check: (Key, string) -> Check) returns (result: Result<TrustedKey, Reason>)
    ensures result == Verify(header, policy, check)
  {
    hide HeaderRefusal;
    hide CarriedKey;
    hide HeldKeys;
    hide Ordered;
    hide Under;
    var refusal := HeaderRefusal(header, policy);
    if refusal.Some? {
      return Err(refusal.value);
    }
    var carried := CarriedKey(header);
    if carried.Err? {
      return Err(carried.error);
    }
    var held := HeldKeys(policy);
    var chosen: Option<TrustedKey> := None;
    assert header.alg.Some? by {
      AcceptedHasAlg(header, policy);
    }
    if held != [] {
      if carried.value.None? {
        result := VerifyUnderAny(Ordered(held, header.kid), header.alg.value, check);
        return;
      }
      var thumbprint := carried.value.value.key.thumbprint;
      var i := 0;
      while i < |held| && chosen.None?
        invariant i <= |held|
        invariant chosen.Some? ==> FirstOf(held, thumbprint) == chosen
        invariant chosen.None? ==> FirstOf(held, thumbprint) == FirstOf(held[i..], thumbprint)
        decreases |held| - i, chosen.None?
      {
        if held[i].key.thumbprint == thumbprint {
          chosen := Some(held[i]);
        }
        assert held[i..][1..] == held[i + 1..];
        i := i + 1;
      }
      if chosen.None? {
        return Err(PinMismatch);
      }
    } else {
      chosen := carried.value;
    }
    if chosen.None? {
      return Err(NoKey);
    }
    result := Under(chosen.value, header.alg.value, check);
  }

  lemma AcceptedHasAlg(header: Header, policy: Policy)
    requires HeaderRefusal(header, policy).None?
    ensures header.alg.Some? && IsAccepted(header.alg.value, policy)
  {
    hide Lower;
  }

  // ---- What a valid signature means ----

  lemma {:induction false} UnderAnyIff(keys: seq<TrustedKey>, alg: string, check: (Key, string) -> Check)
    ensures UnderAny(keys, alg, check).Ok? <==> exists k :: k in keys && Under(k, alg, check).Ok?
    ensures UnderAny(keys, alg, check).Ok? ==>
      UnderAny(keys, alg, check).value in keys && Under(UnderAny(keys, alg, check).value, alg, check).Ok?
  {
    hide Under;
    if keys != [] {
      assert keys[0] in keys;
      UnderAnyIff(keys[1..], alg, check);
      assert forall k :: k in keys <==> k == keys[0] || k in keys[1..];
      UnderIsItsKey(keys[0], alg, check);
      if |keys| == 1 {
        assert keys[1..] == [];
      }
    }
  }

  lemma UnderIsItsKey(key: TrustedKey, alg: string, check: (Key, string) -> Check)
    ensures Under(key, alg, check).Ok? ==> Under(key, alg, check).value == key
  {
  }

  /** A key that the caller holds, with the trust it is held with. */
  predicate IsHeld(k: TrustedKey, policy: Policy) {
    (k.trust.OutOfBand? && k.key in policy.trustedKeys) || (k.trust.Pinned? && k.key in policy.pinnedKeys)
  }

  predicate HoldsKeys(policy: Policy) {
    policy.trustedKeys != [] || policy.pinnedKeys != []
  }

  lemma HeldKeysAre(policy: Policy)
    ensures forall k :: k in HeldKeys(policy) <==> IsHeld(k, policy)
    ensures HeldKeys(policy) != [] <==> HoldsKeys(policy)
  {
    var held, n := HeldKeys(policy), |policy.trustedKeys|;
    forall k | k in held ensures IsHeld(k, policy) {
      var i :| 0 <= i < |held| && held[i] == k;
      assert k == if i < n then TrustedKey(policy.trustedKeys[i], OutOfBand) else TrustedKey(policy.pinnedKeys[i - n], Pinned);
    }
    forall key | key in policy.trustedKeys ensures TrustedKey(key, OutOfBand) in held {
      var i :| 0 <= i < n && policy.trustedKeys[i] == key;
      assert held[i] == TrustedKey(key, OutOfBand);
    }
    forall key | key in policy.pinnedKeys ensures TrustedKey(key, Pinned) in held {
      var i :| 0 <= i < |policy.pinnedKeys| && policy.pinnedKeys[i] == key;
      assert held[n + i] == TrustedKey(key, Pinned);
    }
    forall k | IsHeld(k, policy) ensures k in held {
      assert k == TrustedKey(k.key, k.trust);
    }
  }

  /** The algorithms that a key takes: its own, by either name for an Ed25519 key. */
  predicate Takes(key: Key, alg: string) {
    || (key.kind == Ed25519Key && (alg == "Ed25519" || alg == "EdDSA"))
    || (key.kind == P256Key && alg == "ES256")
  }

  lemma TakesIff(key: Key, alg: string)
    ensures alg in AlgsForKey(key) <==> Takes(key, alg)
  {
  }

  /** A key of the header, with the trust that the header can give it. */
  predicate IsCarried(k: TrustedKey, header: Header) {
    if header.x5c.Chain? then k == TrustedKey(header.x5c.leaf, if header.x5c.anchored then X5cAnchored else DeclarationOnly)
    else header.jwk.PublicJwk? && k == TrustedKey(header.jwk.key, DeclarationOnly)
  }

  lemma CandidatesAre(header: Header, policy: Policy)
    requires Candidates(header, policy).Ok?
    ensures forall k :: k in Candidates(header, policy).value ==>
      if HoldsKeys(policy) then IsHeld(k, policy) else IsCarried(k, header)
  {
    hide HeldKeys;
    hide IsHeld;
    hide HoldsKeys;
    hide Ordered;
    HeldKeysAre(policy);
  }

  /**
   * A key the caller holds always decides: with any key held, a signature is valid only under a held key, with the
   * trust that key is held with; with none, only under the key the header carries, which is anchored only where its
   * chain is. The algorithm is one the policy accepts and the key takes, and is no MAC.
   */
  lemma ValidKeyIsTrustedAs(header: Header, policy: Policy, check: (Key, string) -> Check)
    requires Verify(header, policy, check).Ok?
    ensures var k := Verify(header, policy, check).value;
      && (if HoldsKeys(policy) then IsHeld(k, policy) else IsCarried(k, header))
      && header.alg.Some? && IsAccepted(header.alg.value, policy) && Takes(k.key, header.alg.value)
      && check(k.key, header.alg.value) == Verifies
      && !header.hasCrit && header.cty == Names(Some(policy.requiredCty))
  {
    hide Candidates;
    hide IsHeld;
    hide IsCarried;
    hide HoldsKeys;
    hide Lower;
    AcceptedHasAlg(header, policy);
    CandidatesAre(header, policy);
    UnderAnyIff(Candidates(header, policy).value, header.alg.value, check);
    TakesIff(Verify(header, policy, check).value.key, header.alg.value);
  }

  /**
   * With held keys and no key in the header, whether the signature is valid does not depend on `kid` or on the order
   * in which the keys are held: it is valid exactly when some held key takes the algorithm and verifies it.
   */
  lemma ValidUnderSomeHeldKey(header: Header, policy: Policy, check: (Key, string) -> Check)
    requires HeaderRefusal(header, policy).None? && header.x5c.NoChain? && header.jwk.NoJwk? && HoldsKeys(policy)
    ensures header.alg.Some?
    ensures Verify(header, policy, check).Ok? <==>
      exists k :: IsHeld(k, policy) && Takes(k.key, header.alg.value) && check(k.key, header.alg.value) == Verifies
  {
    hide HeaderRefusal;
    hide HeldKeys;
    hide HoldsKeys;
    hide IsHeld;
    hide Ordered;
    hide AlgsForKey;
    AcceptedHasAlg(header, policy);
    HeldKeysAre(policy);
    var alg := header.alg.value;
    UnderAnyIff(Ordered(HeldKeys(policy), header.kid), alg, check);
    forall k ensures Under(k, alg, check).Ok? <==> Takes(k.key, alg) && check(k.key, alg) == Verifies {
      TakesIff(k.key, alg);
    }
    if exists k :: IsHeld(k, policy) && Takes(k.key, alg) && check(k.key, alg) == Verifies {
      var k :| IsHeld(k, policy) && Takes(k.key, alg) && check(k.key, alg) == Verifies;
      assert k in HeldKeys(policy) && Under(k, alg, check).Ok?;
    }
  }

  /** Under a key, the signature verifies by an algorithm that the key takes. */
  predicate VerifiesUnder(key: Key, alg: string, check: (Key, string) -> Check) {
    Takes(key, alg) && check(key, alg) == Verifies
  }

  /** A held key that is the one the header carries. */
  predicate IsSameHeld(k: TrustedKey, carried: TrustedKey, policy: Policy) {
    IsHeld(k, policy) && k.key.thumbprint == carried.key.thumbprint
  }

  /**
   * A key in the header names the key to use: with keys held, it is refused unless one of them is that key, and then the
   * held one is used, so the signature is valid only if some such key verifies it, and is if all of them do; with none
   * held, it is valid exactly when the header's key itself verifies it.
   */
  lemma ValidUnderHeaderKey(header: Header, policy: Policy, check: (Key, string) -> Check)
    requires HeaderRefusal(header, policy).None? && CarriedKey(header).Ok? && CarriedKey(header).value.Some?
    ensures header.alg.Some?
    ensures var carried, result := CarriedKey(header).value.value, Verify(header, policy, check);
      && (result == Err(PinMismatch) <==> HoldsKeys(policy) && forall k :: !IsSameHeld(k, carried, policy))
      && (HoldsKeys(policy) && result.Ok? ==> exists k :: IsSameHeld(k, carried, policy) && VerifiesUnder(k.key, header.alg.value, check))
      && (HoldsKeys(policy) && result != Err(PinMismatch)
          && (forall k :: IsSameHeld(k, carried, policy) ==> VerifiesUnder(k.key, header.alg.value, check))
          ==> result.Ok?)
      && (!HoldsKeys(policy) ==> (result.Ok? <==> VerifiesUnder(carried.key, header.alg.value, check)))
  {
    hide HeaderRefusal;
    hide HeldKeys;
    hide HoldsKeys;
    hide IsHeld;
    hide CarriedKey;
    hide AlgsForKey;
    AcceptedHasAlg(header, policy);
    HeldKeysAre(policy);
    forall key ensures header.alg.value in AlgsForKey(key) <==> Takes(key, header.alg.value) {
      TakesIff(key, header.alg.value);
    }
    hide Takes;
    var same := FirstOf(HeldKeys(policy), CarriedKey(header).value.value.key.thumbprint);
    if HoldsKeys(policy) && same.Some? {
      assert IsSameHeld(same.value, CarriedKey(header).value.value, policy);
    }
  }

  // ---- Headers that never verify ----

  /** An algorithm that is supported and allowed, the media type required, and no critical parameter. */
  predicate IsAcceptable(header: Header, policy: Policy) {
    && header.alg.Some? && (header.alg.value == "Ed25519" || header.alg.value == "ES256" || header.alg.value == "EdDSA")
    && (policy.allowedAlgs.Some? ==> header.alg.value in policy.allowedAlgs.value)
    && header.cty.Names? && header.cty.mediaType == Some(policy.requiredCty) && !header.hasCrit
  }

  lemma AcceptableIff(header: Header, policy: Policy)
    ensures HeaderRefusal(header, policy).None? <==> IsAcceptable(header, policy)
  {
    hide Lower;
    if header.alg.Some? {
      SupportedIsNoMac(header.alg.value);
    }
    hide IsMacAlg;
  }

  lemma SupportedIsNoMac(alg: string)
    ensures alg in SUPPORTED_ALGS <==> alg == "Ed25519" || alg == "ES256" || alg == "EdDSA"
    ensures alg in SUPPORTED_ALGS ==> Lower(alg) != "none" && !IsMacAlg(alg)
  {
    hide Lower;
    if alg in SUPPORTED_ALGS {
      assert alg[0] == 'E' && Lower(alg)[0] == 'e';
    }
  }

  /** A chain or a `jwk` that cannot be read, or two keys that are not the same. */
  predicate IsUnreadable(header: Header) {
    || header.x5c.BadChain? || header.jwk.NotAnObject?
    || (header.x5c.Chain? && header.jwk.PublicJwk? && header.jwk.key.thumbprint != header.x5c.leaf.thumbprint)
  }

  /**
   * No signature is valid under a header that is not acceptable, whose key members cannot be read or name two keys, or that
   * carries a private key; the last two are told apart so, before any key that is held is tried.
   */
  lemma NeverValidUnder(header: Header, policy: Policy, check: (Key, string) -> Check)
    ensures Verify(header, policy, check).Ok? ==> IsAcceptable(header, policy) && !IsUnreadable(header) && !header.jwk.PrivateKey?
    ensures Verify(header, policy, check) == Err(Malformed) <==> IsAcceptable(header, policy) && IsUnreadable(header)
    ensures Verify(header, policy, check) == Err(PrivateKeyInHeader) <==>
      IsAcceptable(header, policy) && header.jwk.PrivateKey? && !header.x5c.BadChain?
    ensures IsAcceptable(header, policy) && !IsUnreadable(header) && !header.jwk.PrivateKey? ==>
      (Verify(header, policy, check) == Err(NoKey) <==> !HoldsKeys(policy) && header.x5c.NoChain? && header.jwk.NoJwk?)
  {
    AcceptableIff(header, policy);
    RefusalIsOther(header, policy);
    hide HeaderRefusal;
    hide IsAcceptable;
    hide HeldKeys;
    hide HoldsKeys;
    hide Ordered;
    hide FirstOf;
    HeldKeysAre(policy);
    var keys := Candidates(header, policy);
    if HeldKeys(policy) != [] {
      assert HeldKeys(policy)[0] in Ordered(HeldKeys(policy), header.kid);
    }
    if HeaderRefusal(header, policy).None? && keys.Ok? {
      FailsForItsKeys(keys.value, header.alg.GetOr(""), check);
    }
  }

  lemma RefusalIsFirst(header: Header, policy: Policy)
    ensures var refusal, lower := HeaderRefusal(header, policy), Lower(header.alg.GetOr(""));
      var isNone, isMac := header.alg.Some? && lower == "none", header.alg.Some? && (lower == "hs256" || lower == "hs384" || lower == "hs512");
      var taken := IsAcceptable(header.(cty := Names(Some(policy.requiredCty)), hasCrit := false), policy);
      && (refusal == Some(AlgNone) <==> isNone) && (refusal == Some(MacAlg) <==> isMac)
      && (refusal == Some(AlgRejected) <==> !isNone && !isMac && !taken)
      && (refusal == Some(CtyMissing) <==> taken && header.cty.NoCty?)
      && (refusal == Some(CtyWrong) <==> taken && header.cty.Names? && header.cty.mediaType != Some(policy.requiredCty))
      && (refusal == Some(CritUnknown) <==> taken && header.cty == Names(Some(policy.requiredCty)) && header.hasCrit)
  {
    if header.alg.Some? {
      SupportedIsNoMac(header.alg.value);
    }
    hide Lower;
  }

  /** The reasons that are told from the header alone are told of it, and no key gives any of them. */
  lemma RefusalIsTold(header: Header, policy: Policy, check: (Key, string) -> Check)
    ensures forall reason :: reason in {AlgNone, MacAlg, AlgRejected, CtyMissing, CtyWrong, CritUnknown} ==>
      (Verify(header, policy, check) == Err(reason) <==> HeaderRefusal(header, policy) == Some(reason))
  {
    RefusalIsOther(header, policy);
    hide HeaderRefusal;
    hide HeldKeys;
    hide Ordered;
    hide FirstOf;
    var keys := Candidates(header, policy);
    if HeaderRefusal(header, policy).None? && keys.Ok? {
      FailsForItsKeys(keys.value, header.alg.value, check);
    }
    hide UnderAny;
  }

  /** Why a header is refused before any key is looked at, in the order of the checks; `none` and MACs in any letter case. */
  lemma RefusedFor(header: Header, policy: Policy, check: (Key, string) -> Check)
    ensures var result, lower := Verify(header, policy, check), Lower(header.alg.GetOr(""));
      var isNone, isMac := header.alg.Some? && lower == "none", header.alg.Some? && (lower == "hs256" || lower == "hs384" || lower == "hs512");
      var taken := IsAcceptable(header.(cty := Names(Some(policy.requiredCty)), hasCrit := false), policy);
      && (result == Err(AlgNone) <==> isNone) && (result == Err(MacAlg) <==> isMac)
      && (result == Err(AlgRejected) <==> !isNone && !isMac && !taken)
      && (result == Err(CtyMissing) <==> taken && header.cty.NoCty?)
      && (result == Err(CtyWrong) <==> taken && header.cty.Names? && header.cty.mediaType != Some(policy.requiredCty))
      && (result == Err(CritUnknown) <==> taken && header.cty == Names(Some(policy.requiredCty)) && header.hasCrit)
  {
    hide Lower;
    hide IsAcceptable;
    hide Verify;
    hide HeaderRefusal;
    RefusalIsFirst(header, policy);
    RefusalIsTold(header, policy, check);
  }

  lemma RefusalIsOther(header: Header, policy: Policy)
    ensures var refusal := HeaderRefusal(header, policy);
      && refusal != Some(Malformed) && refusal != Some(PrivateKeyInHeader) && refusal != Some(NoKey)
      && (refusal.None? ==> header.alg.Some?)
  {
    hide Lower;
  }

  lemma {:induction false} FailsForItsKeys(keys: seq<TrustedKey>, alg: string, check: (Key, string) -> Check)
    ensures UnderAny(keys, alg, check).Err? ==>
      UnderAny(keys, alg, check).error in {KeyAlgMismatch, InvalidSignature} || (keys == [] && UnderAny(keys, alg, check).error == NoKey)
  {
    hide AlgsForKey;
    if |keys| > 1 {
      FailsForItsKeys(keys[1..], alg, check);
    }
  }
}
