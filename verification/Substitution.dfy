/**
 * When the `signed` member of an object verifies, and what is then reported, told from
 * what the text decodes to, the trust of the key, and the members on both sides.
 */
module Substitution {
  import opened JsonRecords
  import opened JsonValues
  import opened Jws
  import opened Sentinel
  import opened SentinelPeriods
  import opened SentinelProofs
  import opened Signature
  import opened Texts
  import opened Wrappers

  // ---- What is signed ----

  /** The text is a JWS that verifies under the key, and its payload is the value. */
  ghost predicate JwsGives(signed: Text, env: Env, key: TrustedKey, value: Json) {
    exists header :: env.decode(signed) == Parts(Some(header), Some(value)) && Verify(header, env.policy, CheckOf(env, signed)) == Ok(key)
  }

  lemma VerifyJwsIff(signed: Text, env: Env)
    ensures forall key, value :: VerifyJws(signed, env) == Ok((key, value)) <==> JwsGives(signed, env, key, value)
    ensures VerifyJws(signed, env).Ok? ==> JwsGives(signed, env, VerifyJws(signed, env).value.0, VerifyJws(signed, env).value.1)
  {
    hide Verify;
    forall key, value ensures VerifyJws(signed, env) == Ok((key, value)) <==> JwsGives(signed, env, key, value) {
      if VerifyJws(signed, env) == Ok((key, value)) {
        var header := env.decode(signed).header.value;
        assert env.decode(signed) == Parts(Some(header), Some(value));
      }
    }
  }

  /** Both absent, or the same value, which is no object and no array. */
  predicate AreSame(x: Option<Json>, y: Option<Json>) {
    x == y && (x.Some? ==> !x.value.Object? && !x.value.Array?)
  }

  /** `target`, `carbon-accounting`, `functional-unit` and both bounds of the period are the same. */
  predicate AgreeOnFive(payload: seq<Member>, outer: seq<Member>) {
    && AreSame(Own(payload, TextOf("target")), Own(outer, TextOf("target")))
    && AreSame(Own(payload, TextOf("carbon-accounting")), Own(outer, TextOf("carbon-accounting")))
    && AreSame(Own(payload, TextOf("functional-unit")), Own(outer, TextOf("functional-unit")))
    && AreSame(Own(MembersOf(Own(payload, PERIOD)), TextOf("start")), Own(MembersOf(Own(outer, PERIOD)), TextOf("start")))
    && AreSame(Own(MembersOf(Own(payload, PERIOD)), TextOf("end")), Own(MembersOf(Own(outer, PERIOD)), TextOf("end")))
  }

  lemma SameMemberIff(x: Option<Json>, y: Option<Json>)
    ensures SameMember(x, y) <==> AreSame(x, y)
  {
  }

  lemma InPeriodIs(rec: seq<Member>, name: Text)
    ensures InPeriod(rec, name) == Own(MembersOf(Own(rec, PERIOD)), name)
  {
    hide Own;
    OwnOfNothing(name);
  }

  lemma AgreeIff(payload: seq<Member>, outer: seq<Member>)
    ensures Agree(payload, outer) <==> AgreeOnFive(payload, outer)
  {
    hide Own;
    hide InPeriod;
    hide SameMember;
    hide AreSame;
    hide TextOf;
    forall x, y ensures SameMember(x, y) <==> AreSame(x, y) {
      SameMemberIff(x, y);
    }
    InPeriodIs(payload, START);
    InPeriodIs(payload, END);
    InPeriodIs(outer, START);
    InPeriodIs(outer, END);
  }

  /** The value, read as the document was, is an object that validation accepts, and not itself signed. */
  predicate IsDeclaration(value: Json, env: Env) {
    && value.Object?
    && var payload := if env.legacyCompat then Read(value.members).rec else value.members;
       && IsCurrent(payload) && env.otherRulesHold(payload) && Own(payload, TextOf("signed")).None?
       && Own(payload, TextOf("target")).Some? && Own(payload, TextOf("target")).value.String?
       && var accounting := Own(payload, TextOf("carbon-accounting"));
          accounting.Some? ==> accounting == Some(String(TextOf("location-based"))) || accounting == Some(String(TextOf("market-based")))
  }

  lemma DeclarationIff(value: Json, env: Env)
    requires value.Object?
    ensures var payload := ReadCopy(value.members, env.legacyCompat);
      IsDeclaration(value, env) <==> IsValid(payload, env) && Own(payload, SIGNED).None?
  {
    hide IsCurrent;
    hide Read;
    hide Own;
    var payload := ReadCopy(value.members, env.legacyCompat);
    hide TextOf;
    if Own(payload, SIGNED).None? {
      RemoveOfPut(payload, SIGNED, Null);
    }
  }

  lemma DeclarationIsObject(env: Env)
    ensures forall value :: IsDeclaration(value, env) ==> value.Object?
  {
    hide IsCurrent;
    hide Read;
    hide Own;
  }

  /** The signature of the object verifies under the key, and what it signs is the payload, for the subject of the object. */
  ghost predicate Signs(rec: seq<Member>, env: Env, key: TrustedKey, payload: seq<Member>) {
    var signed := Own(rec, TextOf("signed"));
    && signed.Some? && signed.value.String?
    && exists value ::
         && JwsGives(signed.value.s, env, key, value) && IsDeclaration(value, env)
         && payload == (if env.legacyCompat then Read(value.members).rec else value.members)
         && AgreeOnFive(payload, if env.legacyCompat then Read(rec).rec else rec)
  }

  /** An object is verified exactly where its signature signs a payload, and then under that key and with that payload. */
  lemma VerifiedIffSigned(rec: seq<Member>, env: Env)
    ensures VerifyEmbedded(rec, env).Verified? ==> Signs(rec, env, VerifyEmbedded(rec, env).key, VerifyEmbedded(rec, env).payload)
    ensures forall key, payload :: Signs(rec, env, key, payload) ==>
      VerifyEmbedded(rec, env).Verified? && VerifyEmbedded(rec, env).key == key && VerifyEmbedded(rec, env).payload == payload
  {
    hide IsValid;
    hide IsDeclaration;
    hide Agree;
    hide AgreeOnFive;
    hide VerifyJws;
    hide JwsGives;
    hide Read;
    var signed := Own(rec, SIGNED);
    hide Own;
    hide TextOf;
    DeclarationIsObject(env);
    if IsText(signed) {
      VerifyJwsIff(signed.value.s, env);
      if VerifyJws(signed.value.s, env).Ok? && VerifyJws(signed.value.s, env).value.1.Object? {
        DeclarationIff(VerifyJws(signed.value.s, env).value.1, env);
      }
      forall payload ensures Agree(payload, ReadCopy(rec, env.legacyCompat)) <==> AgreeOnFive(payload, ReadCopy(rec, env.legacyCompat)) {
        AgreeIff(payload, ReadCopy(rec, env.legacyCompat));
      }
    }
  }

  /** Why an object is not verified: it is unsigned, its signature fails, that signs no declaration, or one of another subject. */
  lemma NotVerifiedFor(rec: seq<Member>, env: Env)
    ensures var signed, outcome := Own(rec, TextOf("signed")), VerifyEmbedded(rec, env);
      && (outcome == Unsigned <==> !(signed.Some? && signed.value.String?))
      && (outcome.Unverified? && outcome.failure.NotVerified? <==>
            signed.Some? && signed.value.String? && forall key, value :: !JwsGives(signed.value.s, env, key, value))
      && (outcome == Unverified(PayloadNotDeclaration) <==>
            signed.Some? && signed.value.String?
            && exists key, value :: JwsGives(signed.value.s, env, key, value) && !IsDeclaration(value, env))
  {
    hide IsValid;
    hide IsDeclaration;
    hide Agree;
    hide VerifyJws;
    hide JwsGives;
    hide Read;
    var signed := Own(rec, SIGNED);
    hide Own;
    hide TextOf;
    DeclarationIsObject(env);
    if IsText(signed) {
      VerifyJwsIff(signed.value.s, env);
      if VerifyJws(signed.value.s, env).Ok? && VerifyJws(signed.value.s, env).value.1.Object? {
        DeclarationIff(VerifyJws(signed.value.s, env).value.1, env);
      }
    }
  }

  // ---- What is reported ----

  /** The key is one the caller holds, or stands on an anchor of the caller. */
  predicate IsTrusted(key: TrustedKey, policy: Policy) {
    key.key in (if key.trust.OutOfBand? then policy.trustedKeys else if key.trust.Pinned? then policy.pinnedKeys else [])
    || key.trust.X5cAnchored?
  }

  lemma TrustedIff(rec: seq<Member>, env: Env)
    requires VerifyEmbedded(rec, env).Verified?
    ensures VerifyEmbedded(rec, env).precedence.PayloadPrecedence? <==> IsTrusted(VerifyEmbedded(rec, env).key, env.policy)
  {
    hide IsValid;
    hide Agree;
    hide ReadCopy;
    hide Verify;
    hide IsAccepted;
    var text := Own(rec, SIGNED).value.s;
    var compact := env.decode(text);
    ValidKeyIsTrustedAs(compact.header.value, env.policy, CheckOf(env, text));
  }

  /**
   * An object is reported with the members of the payload it signs, and its own `signed`, exactly where the key is trusted
   * beyond the declaration; an object that signs nothing, or under any other key, is reported as served.
   */
  lemma PayloadIsReportedIff(rec: seq<Member>, env: Env)
    ensures forall key, payload, name :: Signs(rec, env, key, payload) && IsTrusted(key, env.policy) ==>
      Own(Signature.Reported(rec, env), name) == if name == TextOf("signed") then Own(rec, name) else Own(payload, name)
    ensures (forall key, payload :: Signs(rec, env, key, payload) ==> !IsTrusted(key, env.policy)) ==> Signature.Reported(rec, env) == rec
  {
    hide Signs;
    hide VerifyEmbedded;
    hide IsTrusted;
    hide Own;
    hide TextOf;
    VerifiedIffSigned(rec, env);
    if VerifyEmbedded(rec, env).Verified? {
      TrustedIff(rec, env);
      forall name | VerifyEmbedded(rec, env).precedence.PayloadPrecedence?
        ensures Own(Signature.Reported(rec, env), name) == if name == SIGNED then Own(rec, name) else Own(VerifyEmbedded(rec, env).payload, name)
      {
        ReportedMembers(rec, env, name);
      }
    }
  }
}
