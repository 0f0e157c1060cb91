/**
 * The `signed` member of `signature.ts`, and the substitution of verified payloads in
 * `fetch.ts`: when a payload takes the place of the object it signs, and that what is then
 * reported is still what the response was recorded to cover.
 */
module Signature {
  import opened DateTimes
  import opened JsonRecords
  import opened JsonValues
  import opened Jws
  import Periods
  import opened Sentinel
  import opened SentinelProofs
  import opened Texts
  import opened Tokens
  import opened Wrappers

  const SIGNED := TextOf("signed")
  const TARGET := TextOf("target")
  const ACCOUNTING := TextOf("carbon-accounting")

  /** A `signed` text as it decodes. */
  datatype Compact = Blank | NotCompact | Parts(header: Option<Header>, payload: Option<Json>)

  /** The cryptography, and the rules of validation that none of the members modelled here takes part in. */
  datatype Env = Env(
    policy: Policy,
    decode: Text -> Compact,
    check: (Text, Key, string) -> Check,
    legacyCompat: bool,
    isWellFormed: Text -> bool,
    otherRulesHold: seq<Member> -> bool)

  datatype Failure = NotVerified(reason: Reason) | PayloadNotDeclaration | PayloadSubjectMismatch

  datatype Precedence = OriginPrecedence | PayloadPrecedence

  datatype Outcome =
    | Unsigned
    | Unverified(failure: Failure)
    | Verified(key: TrustedKey, precedence: Precedence, payload: seq<Member>)

  // ---- Validation, of the members that matter here ----

  predicate IsText(v: Option<Json>) {
    v.Some? && v.value.String?
  }

  /** A valid declaration object. `signed` is any well-formed string, and no other rule looks at it. */
  predicate IsValid(rec: seq<Member>, env: Env) {
    && IsCurrent(rec)
    && IsText(Own(rec, TARGET))
    && AbsentOr(Own(rec, ACCOUNTING), IsCarbonAccounting)
    && AbsentOr(Own(rec, SIGNED), env.isWellFormed)
    && env.otherRulesHold(Remove(rec, SIGNED))
  }

  // ---- verifyEmbeddedSignature ----

  function InPeriod(rec: seq<Member>, name: Text): Option<Json> {
    var period := Own(rec, PERIOD);
    if period.Some? && period.value.Object? then Own(period.value.members, name) else None
  }

  /** Whether two members are `===`: both absent, or one value that is no object or array. */
  predicate SameMember(x: Option<Json>, y: Option<Json>) {
    if x.Some? && y.Some? then Identical(x.value, y.value) else x.None? && y.None?
  }

  /** The five members on which a payload must agree with its object. */
  predicate Agree(payload: seq<Member>, outer: seq<Member>) {
    && SameMember(Own(payload, TARGET), Own(outer, TARGET))
    && SameMember(InPeriod(payload, START), InPeriod(outer, START))
    && SameMember(InPeriod(payload, END), InPeriod(outer, END))
    && SameMember(Own(payload, ACCOUNTING), Own(outer, ACCOUNTING))
    && SameMember(Own(payload, FUNCTIONAL_UNIT), Own(outer, FUNCTIONAL_UNIT))
  }

  /** A copy of an object, read as the document was. */
  function ReadCopy(rec: seq<Member>, legacyCompat: bool): seq<Member> {
    if legacyCompat then Read(rec).rec else rec
  }

  /** What the cryptography makes of a text, under a key and an algorithm. */
  function CheckOf(env: Env, signed: Text): (Key, string) -> Check {
    (k, alg) => env.check(signed, k, alg)
  }

  function VerifyJws(signed: Text, env: Env): Result<(TrustedKey, Json), Reason> {
    var compact := env.decode(signed);
    if !compact.Parts? || compact.header.None? then Err(Malformed) else
    var key := Verify(compact.header.value, env.policy, CheckOf(env, signed));
    if key.Err? then Err(key.error)
    else if compact.payload.None? then Err(Malformed)
    else Ok((key.value, compact.payload.value))
  }

  function VerifyEmbedded(rec: seq<Member>, env: Env): Outcome {
    var signed := Own(rec, SIGNED);
    if !IsText(signed) then Unsigned else
    var verified := VerifyJws(signed.value.s, env);
    if verified.Err? then Unverified(NotVerified(verified.error))
    else if !verified.value.1.Object? then Unverified(PayloadNotDeclaration)
    else
      var payload := ReadCopy(verified.value.1.members, env.legacyCompat);
      if Own(payload, SIGNED).Some? || !IsValid(payload, env) then Unverified(PayloadNotDeclaration)
      else if !Agree(payload, ReadCopy(rec, env.legacyCompat)) then Unverified(PayloadSubjectMismatch)
      else
        var key := verified.value.0;
        Verified(key, if key.trust.DeclarationOnly? then OriginPrecedence else PayloadPrecedence, payload)
  }

  // ---- Substitution ----

  /** The object that is reported: the payload with the served `signed`, where the payload takes precedence. */
  function Reported(rec: seq<Member>, env: Env): seq<Member> {
    var outcome := VerifyEmbedded(rec, env);
    if outcome.Verified? && outcome.precedence.PayloadPrecedence? then
      var signed := Own(rec, SIGNED);
      if IsText(signed) then Put(outcome.payload, SIGNED, signed.value) else outcome.payload
    else rec
  }

  /** Puts verified payloads in place of the objects they sign, one object after another. */
  method SubstitutePayloads(objects: array<seq<Member>>, env: Env) returns (outcomes: seq<Outcome>)
    modifies objects
    ensures |outcomes| == objects.Length
    ensures forall i :: 0 <= i < objects.Length ==> outcomes[i] == VerifyEmbedded(old(objects[i]), env)
    ensures forall i :: 0 <= i < objects.Length ==> objects[i] == Reported(old(objects[i]), env)
  {
    hide VerifyEmbedded;
    outcomes := [];
    for i := 0 to objects.Length
      invariant |outcomes| == i
      invariant forall k :: 0 <= k < i ==> outcomes[k] == VerifyEmbedded(old(objects[k]), env)
      invariant forall k :: 0 <= k < i ==> objects[k] == Reported(old(objects[k]), env)
      invariant forall k :: i <= k < objects.Length ==> objects[k] == old(objects[k])
    {
      var outcome := VerifyEmbedded(objects[i], env);
      outcomes := outcomes + [outcome];
      if outcome.Verified? && outcome.precedence.PayloadPrecedence? {
        var signed := Own(objects[i], SIGNED);
        objects[i] := if IsText(signed) then Put(outcome.payload, SIGNED, signed.value) else outcome.payload;
      }
    }
  }

  // ---- What is reported still matches what was recorded ----

  /** What a response covers, as recorded from an object before any signature is looked at. */
  datatype Cover = Cover(target: Option<Json>, start: Option<Json>, end: Option<Json>)

  function CoverOf(rec: seq<Member>): Cover {
    Cover(Own(rec, TARGET), InPeriod(rec, START), InPeriod(rec, END))
  }

  lemma SignedIsItsOwn()
    ensures |SIGNED| == 6 && SIGNED != PERIOD && SIGNED != START && SIGNED != END && |TARGET| == 6 && SIGNED != TARGET && |ACCOUNTING| == 17
    ensures forall k: Reader :: SIGNED !in Concerns(k)
  {
    NamesDiffer();
    assert SIGNED[0] == 's' as int && PERIOD[0] == 'p' as int && TARGET[0] == 't' as int;
  }

  lemma {:induction false} RemoveOfPut(rec: seq<Member>, name: Text, value: Json)
    requires Own(rec, name).None?
    ensures Remove(Put(rec, name, value), name) == rec && Remove(rec, name) == rec
  {
    hide Own;
    if rec != [] {
      OwnOfRest(rec, name);
      RemoveOfPut(rec[1..], name, value);
      assert rec == [rec[0]] + rec[1..];
    }
  }

  lemma CurrentLooksAt(a: seq<Member>, b: seq<Member>)
    requires SameExcept(a, b, {SIGNED}) && IsCurrent(a)
    ensures IsCurrent(b)
  {
    hide Own;
    hide HasDateTimes;
    hide HasCurrentEntries;
    hide AbsentOr;
    SignedIsItsOwn();
    NamesDiffer();
  }

  /** Adding the served `signed` to a valid payload leaves it valid, and covering what it covered. */
  lemma SignedKeepsValid(payload: seq<Member>, signed: Json, env: Env)
    requires IsValid(payload, env) && Own(payload, SIGNED).None? && signed.String? && env.isWellFormed(signed.s)
    ensures IsValid(Put(payload, SIGNED, signed), env) && CoverOf(Put(payload, SIGNED, signed)) == CoverOf(payload)
  {
    hide Own;
    hide IsCurrent;
    SignedIsItsOwn();
    NamesDiffer();
    PutChangesOnly(payload, SIGNED, signed);
    CurrentLooksAt(payload, Put(payload, SIGNED, signed));
    RemoveOfPut(payload, SIGNED, signed);
  }

  lemma ReadCopyOfValid(rec: seq<Member>, env: Env)
    requires IsValid(rec, env)
    ensures ReadCopy(rec, env.legacyCompat) == rec
  {
    hide IsCurrent;
    hide Read;
    CurrentObjectsAreLeftAlone(rec);
  }

  lemma AgreeingCoversAlike(payload: seq<Member>, rec: seq<Member>, env: Env)
    requires IsValid(payload, env) && IsValid(rec, env) && Agree(payload, rec)
    ensures CoverOf(payload) == CoverOf(rec)
  {
    hide Own;
    hide InPeriod;
  }

  /**
   * Whatever is reported of a valid object is a valid object too, and its `target`, `period.start` and `period.end`
   * are those that were recorded before the signature was looked at.
   */
  lemma ReportedIsValidAndCovered(rec: seq<Member>, env: Env)
    requires IsValid(rec, env)
    ensures IsValid(Reported(rec, env), env) && CoverOf(Reported(rec, env)) == CoverOf(rec)
  {
    hide IsValid;
    hide VerifyJws;
    hide Agree;
    hide CoverOf;
    hide ReadCopy;
    var outcome := VerifyEmbedded(rec, env);
    if outcome.Verified? {
      ReadCopyOfValid(rec, env);
      AgreeingCoversAlike(outcome.payload, rec, env);
      var signed := Own(rec, SIGNED).value;
      ValidSigned(rec, env);
      SignedKeepsValid(outcome.payload, signed, env);
    }
  }

  lemma ValidSigned(rec: seq<Member>, env: Env)
    requires IsValid(rec, env) && IsText(Own(rec, SIGNED))
    ensures env.isWellFormed(Own(rec, SIGNED).value.s)
  {
    hide IsCurrent;
    hide Own;
  }

  /** Of every object of a response, at once. */
  lemma ReportMatchesCovers(objects: seq<seq<Member>>, reported: seq<seq<Member>>, covers: seq<Cover>, env: Env)
    requires |reported| == |objects| == |covers|
    requires forall i :: 0 <= i < |objects| ==> IsValid(objects[i], env) && covers[i] == CoverOf(objects[i])
    requires forall i :: 0 <= i < |objects| ==> reported[i] == Reported(objects[i], env)
    ensures forall i :: 0 <= i < |objects| ==> IsValid(reported[i], env) && CoverOf(reported[i]) == covers[i]
  {
    hide IsValid;
    hide Reported;
    hide CoverOf;
    forall i | 0 <= i < |objects| ensures IsValid(reported[i], env) && CoverOf(reported[i]) == covers[i] {
      ReportedIsValidAndCovered(objects[i], env);
    }
  }

  /**
   * A served object is replaced only by a payload whose signature verified under a key the caller holds or, where it
   * holds none, under a key that the header's own anchored chain gives.
   */
  lemma ReplacedOnlyUnderTrustedKey(rec: seq<Member>, env: Env)
    requires Reported(rec, env) != rec
    ensures var outcome := VerifyEmbedded(rec, env);
      && outcome.Verified? && outcome.precedence.PayloadPrecedence?
      && (if HoldsKeys(env.policy) then IsHeld(outcome.key, env.policy) else outcome.key.trust.X5cAnchored?)
      && (exists alg :: IsAccepted(alg, env.policy) && env.check(Own(rec, SIGNED).value.s, outcome.key.key, alg) == Verifies)
  {
    hide IsValid;
    hide Agree;
    hide ReadCopy;
    hide Verify;
    hide HoldsKeys;
    hide IsAccepted;
    var text := Own(rec, SIGNED).value.s;
    var compact := env.decode(text);
    ValidKeyIsTrustedAs(compact.header.value, env.policy, CheckOf(env, text));
  }

  /** Where a key is held, the same object under the same policy is never reported by the header's word alone. */
  lemma DeclarationKeyNeverReplaces(rec: seq<Member>, env: Env)
    requires VerifyEmbedded(rec, env).Verified? && VerifyEmbedded(rec, env).key.trust.DeclarationOnly?
    ensures Reported(rec, env) == rec && !HoldsKeys(env.policy)
  {
    hide IsValid;
    hide Agree;
    hide ReadCopy;
    hide Verify;
    hide IsAccepted;
    var text := Own(rec, SIGNED).value.s;
    var compact := env.decode(text);
    ValidKeyIsTrustedAs(compact.header.value, env.policy, CheckOf(env, text));
  }

  /**
   * Where the payload takes precedence, every member reported is the payload's but for `signed`, which is the served
   * one; the payload is what was signed, read as the document was, and agrees with the object on the five members.
   */
  lemma ReportedMembers(rec: seq<Member>, env: Env, name: Text)
    requires VerifyEmbedded(rec, env).Verified? && VerifyEmbedded(rec, env).precedence.PayloadPrecedence?
    ensures var payload := VerifyEmbedded(rec, env).payload;
      && Own(Reported(rec, env), name) == (if name == SIGNED then Own(rec, SIGNED) else Own(payload, name))
      && IsText(Own(rec, SIGNED)) && env.decode(Own(rec, SIGNED).value.s).Parts?
      && (exists signed :: env.decode(Own(rec, SIGNED).value.s).payload == Some(Object(signed)) && payload == ReadCopy(signed, env.legacyCompat))
      && Agree(payload, ReadCopy(rec, env.legacyCompat))
  {
    hide IsValid;
    hide Agree;
    hide ReadCopy;
    hide Verify;
    hide Own;
    OwnOfPut(VerifyEmbedded(rec, env).payload, SIGNED, Own(rec, SIGNED).value, name);
  }

  // ---- Replays ----

  /** The subject of an object and when it was updated; a reading the caller holds, or the payload. */
  datatype HeldReading = HeldReading(target: string, period: Periods.Period, accounting: Option<string>, unit: Option<string>, updated: string)

  predicate IsReading(h: HeldReading) {
    Periods.HasBounds(h.period) && IsDateTime(h.updated)
  }

  /** The same subject over the same two instants, however they are written, and updated later. */
  predicate Supersedes(h: HeldReading, payload: HeldReading, sameTarget: (string, string) -> bool)
    requires IsReading(h) && IsReading(payload)
  {
    && sameTarget(h.target, payload.target)
    && Periods.SamePeriod(h.period, payload.period)
    && h.accounting == payload.accounting && h.unit == payload.unit
    && Instant(payload.updated) < Instant(h.updated)
  }

  predicate IsFirstToSupersede(held: seq<HeldReading>, i: nat, payload: HeldReading, sameTarget: (string, string) -> bool)
    requires IsReading(payload) && forall k :: 0 <= k < |held| ==> IsReading(held[k])
    requires i < |held|
  {
    Supersedes(held[i], payload, sameTarget) && forall k :: 0 <= k < i ==> !Supersedes(held[k], payload, sameTarget)
  }

  /** The `updated` of the first held reading that supersedes the payload. */
  method ReplayOf(payload: HeldReading, held: seq<HeldReading>, sameTarget: (string, string) -> bool) returns (heldUpdated: Option<string>)
    requires IsReading(payload) && forall i :: 0 <= i < |held| ==> IsReading(held[i])
    ensures heldUpdated.None? <==> forall i :: 0 <= i < |held| ==> !Supersedes(held[i], payload, sameTarget)
    ensures heldUpdated.Some? ==>
      exists i :: 0 <= i < |held| && IsFirstToSupersede(held, i, payload, sameTarget) && held[i].updated == heldUpdated.value
  {
    hide Instant;
    hide IsDateTime;
    hide ToUtcQueryValue;
    hide Periods.CanonicalKey;
    var key := Periods.CanonicalKey(payload.period);
    for i := 0 to |held|
      invariant forall k :: 0 <= k < i ==> !Supersedes(held[k], payload, sameTarget)
    {
      var h := held[i];
      Periods.CanonicalKeyIffSamePeriod(h.period, payload.period);
      if sameTarget(h.target, payload.target) && Periods.CanonicalKey(h.period) == key
        && h.accounting == payload.accounting && h.unit == payload.unit
        && CompareDateTimes(payload.updated, h.updated) < 0
      {
        assert IsFirstToSupersede(held, i, payload, sameTarget);
        return Some(h.updated);
      }
    }
    heldUpdated := None;
  }
}
