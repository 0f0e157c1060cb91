/**
 * The functional units of earlier revisions, as the two patterns of `tokens.ts` spell
 * them: the reader accepts exactly these spellings, in any letter case, each with the one
 * unit and factor that it stands for.
 */
module LegacyUnits {
  import opened Texts
  import opened Tokens
  import opened Wrappers

  // ---- The spellings ----

  predicate NounNames(noun: string, unit: FunctionalUnit) {
    match unit
    case PerRequest => noun == "request" || noun == "call" || noun == "query"
    case PerTransaction => noun == "transaction"
    case PerUser => noun == "user"
    case PerDevice => noun == "device"
    case PerGigabyte => noun == "gigabyte"
    case PerPageView => noun == "pageview" || noun == "page-view" || noun == "visit"
    case PerJob => noun == "job" || noun == "run"
    case PerToken => noun == "token"
    case PerInference => noun == "inference"
    case _ => false
  }

  predicate Scales(scale: string, factor: int) {
    || (scale == "" && factor == 1)
    || ((scale == "thousand-" || scale == "1000-") && factor == 1_000)
    || (scale == "million-" && factor == 1_000_000)
  }

  /** Storage held over time, in hours of one gigabyte. */
  predicate Stores(s: string, factor: int) {
    || (s == "per-gigabyte-hour" && factor == 1)
    || (s == "per-gigabyte-day" && factor == 24)
    || (s == "per-terabyte-hour" && factor == 1_000)
    || (s == "per-terabyte-day" && factor == 24_000)
  }

  predicate IsSpelling(s: string, per: string, scale: string, api: string, noun: string, plural: string, legacy: LegacyUnit) {
    && (per == "" || per == "per-") && Scales(scale, legacy.factor) && (api == "" || api == "api-")
    && NounNames(noun, legacy.unit) && (plural == "" || plural == "s")
    && s == per + scale + api + noun + plural
  }

  /** An optional "per-", an optional scale, an optional "api-", a noun and an optional "s"; or storage over time. */
  ghost predicate Spells(s: string, legacy: LegacyUnit) {
    || (Stores(s, legacy.factor) && legacy.unit == PerGigabyteHour)
    || exists per, scale, api, noun, plural :: IsSpelling(s, per, scale, api, noun, plural, legacy)
  }

  // ---- The reader takes a spelling apart as it was put together ----

  lemma NounIff(s: string, unit: FunctionalUnit)
    ensures Noun(s) == Some(unit) <==> NounNames(s, unit)
  {
  }

  /** How nouns begin and end: none like what may come before it, and none in "s". */
  lemma NounsAre(noun: string, unit: FunctionalUnit)
    requires NounNames(noun, unit)
    ensures |noun| >= 3 && noun[|noun| - 1] != 's'
    ensures noun[0] != 'a' && noun[0] != 'm' && noun[0] != '1'
    ensures (noun[0] == 'p' ==> noun[1] != 'e') && (noun[0] == 't' ==> noun[1] != 'h')
  {
  }

  lemma AfterPrefix(prefix: string, rest: string)
    ensures Unprefixed(prefix + rest, prefix) == rest && StartsWith(prefix + rest, prefix)
  {
    var s := prefix + rest;
    assert s[..|prefix|] == prefix && s[|prefix|..] == rest;
  }

  lemma OtherStart(s: string, prefix: string, i: nat)
    requires i < |prefix| && (i < |s| ==> s[i] != prefix[i])
    ensures Unprefixed(s, prefix) == s && !StartsWith(s, prefix)
  {
    if |prefix| <= |s| {
      assert s[..|prefix|][i] == s[i];
    }
  }

  lemma PluralIsRead(noun: string, plural: string, unit: FunctionalUnit)
    requires NounNames(noun, unit) && (plural == "" || plural == "s")
    ensures NounOrPlural(noun + plural) == Some(unit)
  {
    NounIff(noun, unit);
    NounsAre(noun, unit);
    var s := noun + plural;
    if plural == "" {
      assert s == noun;
    } else {
      assert s[..|s| - 1] == noun;
      if Noun(s).Some? {
        NounIff(s, Noun(s).value);
        hide Noun;
        NounsAre(s, Noun(s).value);
      }
    }
  }

  lemma CountedIsRead(api: string, noun: string, plural: string, legacy: LegacyUnit)
    requires (api == "" || api == "api-") && NounNames(noun, legacy.unit) && (plural == "" || plural == "s")
    ensures Scaled(api + noun + plural, legacy.factor) == Some(legacy)
  {
    hide NounOrPlural;
    hide Noun;
    PluralIsRead(noun, plural, legacy.unit);
    NounsAre(noun, legacy.unit);
    hide NounNames;
    assert api + noun + plural == api + (noun + plural);
    if api == "" {
      assert api + (noun + plural) == noun + plural;
      OtherStart(noun + plural, "api-", 0);
    } else {
      AfterPrefix("api-", noun + plural);
    }
  }

  /** What the reader makes of a text once it is no storage over time. */
  function Quantity(s: string): Option<LegacyUnit> {
    ScaledQuantity(Unprefixed(s, "per-"))
  }

  function ScaledQuantity(quantity: string): Option<LegacyUnit> {
    if StartsWith(quantity, "thousand-") then Scaled(Unprefixed(quantity, "thousand-"), 1_000)
    else if StartsWith(quantity, "1000-") then Scaled(Unprefixed(quantity, "1000-"), 1_000)
    else if StartsWith(quantity, "million-") then Scaled(Unprefixed(quantity, "million-"), 1_000_000)
    else Scaled(quantity, 1)
  }

  /** How what is counted begins: not like a scale, nor like "per-". */
  lemma CountedStart(api: string, noun: string, plural: string, unit: FunctionalUnit)
    requires (api == "" || api == "api-") && NounNames(noun, unit)
    ensures var counted := api + noun + plural;
      && |counted| >= 3 && counted[0] != 'm' && counted[0] != '1'
      && (counted[0] == 'p' ==> counted[1] != 'e') && (counted[0] == 't' ==> counted[1] != 'h')
  {
    NounsAre(noun, unit);
  }

  lemma Regroup(per: string, scale: string, api: string, noun: string, plural: string)
    ensures per + scale + api + noun + plural == per + (scale + (api + noun + plural))
  {
  }

  lemma ScaleIsRead(scale: string, counted: string, legacy: LegacyUnit)
    requires Scales(scale, legacy.factor) && Scaled(counted, legacy.factor) == Some(legacy)
    requires |counted| >= 3 && counted[0] != 'm' && counted[0] != '1' && (counted[0] == 't' ==> counted[1] != 'h')
    ensures ScaledQuantity(scale + counted) == Some(legacy)
  {
    hide Scaled;
    hide StartsWith;
    hide Unprefixed;
    var quantity := scale + counted;
    if scale == "" {
      assert quantity == counted;
      OtherStart(counted, "thousand-", if counted[0] == 't' then 1 else 0);
      OtherStart(counted, "1000-", 0);
      OtherStart(counted, "million-", 0);
    } else {
      AfterPrefix(scale, counted);
      if scale != "thousand-" {
        OtherStart(quantity, "thousand-", 0);
      }
      if scale == "million-" {
        OtherStart(quantity, "1000-", 0);
      }
    }
  }

  lemma PerIsRead(per: string, scale: string, counted: string, factor: int)
    requires (per == "" || per == "per-") && Scales(scale, factor) && |counted| >= 3 && (counted[0] == 'p' ==> counted[1] != 'e')
    ensures Unprefixed(per + (scale + counted), "per-") == scale + counted
  {
    hide StartsWith;
    hide Unprefixed;
    var quantity := scale + counted;
    if per == "" {
      assert per + quantity == quantity;
      OtherStart(quantity, "per-", if quantity[0] == 'p' then 1 else 0);
    } else {
      AfterPrefix("per-", quantity);
    }
  }

  lemma QuantityIsRead(s: string, per: string, scale: string, api: string, noun: string, plural: string, legacy: LegacyUnit)
    requires IsSpelling(s, per, scale, api, noun, plural, legacy)
    ensures Quantity(s) == Some(legacy)
  {
    hide Scaled;
    hide ScaledQuantity;
    hide Unprefixed;
    CountedIsRead(api, noun, plural, legacy);
    CountedStart(api, noun, plural, legacy.unit);
    hide NounNames;
    Regroup(per, scale, api, noun, plural);
    var counted := api + noun + plural;
    PerIsRead(per, scale, counted, legacy.factor);
    ScaleIsRead(scale, counted, legacy);
  }

  lemma PrefixIsThere(s: string, prefix: string) returns (found: string)
    ensures (found == "" || found == prefix) && s == found + Unprefixed(s, prefix)
    ensures StartsWith(s, prefix) ==> found == prefix
  {
    found := if StartsWith(s, prefix) then prefix else "";
  }

  lemma CountedIsThere(counted: string, legacy: LegacyUnit) returns (api: string, noun: string, plural: string)
    requires Scaled(counted, legacy.factor) == Some(legacy)
    ensures counted == api + noun + plural
    ensures (api == "" || api == "api-") && NounNames(noun, legacy.unit) && (plural == "" || plural == "s")
  {
    hide Noun;
    hide NounNames;
    api := PrefixIsThere(counted, "api-");
    var rest := Unprefixed(counted, "api-");
    hide Unprefixed;
    noun := if Noun(rest).Some? then rest else rest[..|rest| - 1];
    plural := if Noun(rest).Some? then "" else "s";
    NounIff(noun, legacy.unit);
    assert rest == noun + plural;
  }

  lemma ScaledIsSpelling(s: string, per: string, scale: string, counted: string, legacy: LegacyUnit)
    requires (per == "" || per == "per-") && Scales(scale, legacy.factor) && s == per + (scale + counted)
    requires Scaled(counted, legacy.factor) == Some(legacy)
    ensures Spells(s, legacy)
  {
    hide Scales;
    hide NounNames;
    hide Stores;
    var api, noun, plural := CountedIsThere(counted, legacy);
    hide Scaled;
    Regroup(per, scale, api, noun, plural);
    assert IsSpelling(s, per, scale, api, noun, plural, legacy);
  }

  lemma ReadQuantityIsSpelled(s: string)
    requires Quantity(s).Some?
    ensures Spells(s, Quantity(s).value)
  {
    hide Scaled;
    hide Spells;
    var per := PrefixIsThere(s, "per-");
    var quantity := Unprefixed(s, "per-");
    var legacy := Quantity(s).value;
    if StartsWith(quantity, "thousand-") {
      ScaleIsThere(quantity, "thousand-", 1_000);
      ScaledIsSpelling(s, per, "thousand-", Unprefixed(quantity, "thousand-"), legacy);
    } else if StartsWith(quantity, "1000-") {
      ScaleIsThere(quantity, "1000-", 1_000);
      ScaledIsSpelling(s, per, "1000-", Unprefixed(quantity, "1000-"), legacy);
    } else if StartsWith(quantity, "million-") {
      ScaleIsThere(quantity, "million-", 1_000_000);
      ScaledIsSpelling(s, per, "million-", Unprefixed(quantity, "million-"), legacy);
    } else {
      ScaleIsThere("", "", 1);
      assert "" + quantity == quantity;
      ScaledIsSpelling(s, per, "", quantity, legacy);
    }
  }

  lemma ScaleIsThere(quantity: string, scale: string, factor: int)
    requires StartsWith(quantity, scale)
    ensures quantity == scale + Unprefixed(quantity, scale)
    ensures forall counted :: Scaled(counted, factor).Some? ==> Scaled(counted, factor).value.factor == factor
  {
  }

  lemma NoQuantity(rest: string)
    requires rest == "gigabyte-hour" || rest == "gigabyte-day" || rest == "terabyte-hour" || rest == "terabyte-day"
    ensures ScaledQuantity(rest).None?
  {
    hide Scaled;
    hide Unprefixed;
    hide StartsWith;
    OtherStart(rest, "thousand-", if rest[0] == 't' then 1 else 0);
    OtherStart(rest, "1000-", 0);
    OtherStart(rest, "million-", 0);
    OtherStart(rest, "api-", 0);
    NoNoun(rest);
    ScaledNone(rest);
  }

  /** Storage over time is no quantity, so no text is spelled in both ways. */
  lemma StorageIsNoQuantity(s: string, factor: int)
    requires Stores(s, factor)
    ensures Quantity(s).None?
  {
    hide ScaledQuantity;
    hide Unprefixed;
    hide StartsWith;
    var rest := if s == "per-gigabyte-hour" then "gigabyte-hour" else if s == "per-gigabyte-day" then "gigabyte-day"
      else if s == "per-terabyte-hour" then "terabyte-hour" else "terabyte-day";
    assert s == "per-" + rest;
    AfterPrefix("per-", rest);
    NoQuantity(rest);
  }

  lemma ScaledNone(rest: string)
    requires NounOrPlural(rest).None? && Unprefixed(rest, "api-") == rest
    ensures Scaled(rest, 1).None?
  {
  }

  lemma NoNoun(s: string)
    requires s == "gigabyte-hour" || s == "gigabyte-day" || s == "terabyte-hour" || s == "terabyte-day"
    ensures NounOrPlural(s).None?
  {
    assert s[|s| - 1] != 's';
    if Noun(s).Some? {
      NounIff(s, Noun(s).value);
    }
  }

  /** A text is read as a unit and a factor exactly when its lower case spells them. */
  lemma LegacyUnitIff(t: Text, legacy: LegacyUnit)
    ensures LegacyFunctionalUnit(t) == Some(legacy) <==> StringOf(t).Some? && Spells(Lower(StringOf(t).value), legacy)
  {
    hide Quantity;
    hide Scaled;
    if StringOf(t).Some? {
      var s := Lower(StringOf(t).value);
      hide StringOf;
      hide Lower;
      ReadBySteps(t);
      if Stores(s, legacy.factor) {
        StorageIsNoQuantity(s, legacy.factor);
      }
      if per, scale, api, noun, plural :| IsSpelling(s, per, scale, api, noun, plural, legacy) {
        QuantityIsRead(s, per, scale, api, noun, plural, legacy);
        StorageIsOther(s);
      }
      if LegacyFunctionalUnit(t) == Some(legacy) && Quantity(s) == Some(legacy) {
        ReadQuantityIsSpelled(s);
      }
    }
  }

  lemma StorageIsOther(s: string)
    ensures Quantity(s).Some? ==> forall factor :: !Stores(s, factor)
  {
    hide Quantity;
    hide Stores;
    forall factor | Stores(s, factor) ensures Quantity(s).None? {
      StorageIsNoQuantity(s, factor);
    }
  }

  lemma ReadBySteps(t: Text)
    requires StringOf(t).Some?
    ensures var s := Lower(StringOf(t).value);
      && (forall factor :: Stores(s, factor) ==> LegacyFunctionalUnit(t) == Some(LegacyUnit(PerGigabyteHour, factor)))
      && ((forall factor :: !Stores(s, factor)) ==> LegacyFunctionalUnit(t) == Quantity(s))
  {
    hide Scaled;
    hide StartsWith;
    hide Unprefixed;
    hide Lower;
    hide StringOf;
    var s := Lower(StringOf(t).value);
    assert Stores("per-gigabyte-hour", 1) && Stores("per-gigabyte-day", 24);
    assert Stores("per-terabyte-hour", 1_000) && Stores("per-terabyte-day", 24_000);
  }
}
