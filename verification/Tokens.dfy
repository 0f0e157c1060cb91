/** The closed token sets of `tokens.ts`, and the functional units of earlier revisions read as today's. */
module Tokens {
  import opened Texts
  import opened Wrappers

  datatype MeasurementMethod = HardwareMetered | HardwareEstimated | CloudBilling | ThirdPartyModeled

  datatype TargetType = Origin | PathTarget | Organization | Facility | Service | Product | Device | Tenant | DataSource

  datatype UpstreamRole = Hosting | Colocation | Cloud | Cdn | Network | Electricity

  datatype FunctionalUnit =
    | PerRequest | PerTransaction | PerPageView | PerSession | PerUser | PerJob | PerToken | PerInference
    | PerGigabyte | PerGigabyteHour | PerVcpuHour | PerDevice

  /** What stands in for a method that is no token. */
  const RESIDUAL_METHOD := ThirdPartyModeled

  function MethodToken(m: MeasurementMethod): string {
    match m
    case HardwareMetered => "hardware-metered"
    case HardwareEstimated => "hardware-estimated"
    case CloudBilling => "cloud-billing"
    case ThirdPartyModeled => "third-party-modeled"
  }

  function TargetTypeToken(t: TargetType): string {
    match t
    case Origin => "origin"
    case PathTarget => "path"
    case Organization => "organization"
    case Facility => "facility"
    case Service => "service"
    case Product => "product"
    case Device => "device"
    case Tenant => "tenant"
    case DataSource => "data-source"
  }

  function RoleToken(r: UpstreamRole): string {
    match r
    case Hosting => "hosting"
    case Colocation => "colocation"
    case Cloud => "cloud"
    case Cdn => "cdn"
    case Network => "network"
    case Electricity => "electricity"
  }

  function FunctionalUnitToken(u: FunctionalUnit): string {
    match u
    case PerRequest => "per-request"
    case PerTransaction => "per-transaction"
    case PerPageView => "per-page-view"
    case PerSession => "per-session"
    case PerUser => "per-user"
    case PerJob => "per-job"
    case PerToken => "per-token"
    case PerInference => "per-inference"
    case PerGigabyte => "per-gigabyte"
    case PerGigabyteHour => "per-gigabyte-hour"
    case PerVcpuHour => "per-vcpu-hour"
    case PerDevice => "per-device"
  }

  predicate IsMeasurementMethod(t: Text) {
    exists m: MeasurementMethod :: t == TextOf(MethodToken(m))
  }

  predicate IsTargetType(t: Text) {
    exists v: TargetType :: t == TextOf(TargetTypeToken(v))
  }

  predicate IsUpstreamRole(t: Text) {
    exists r: UpstreamRole :: t == TextOf(RoleToken(r))
  }

  predicate IsFunctionalUnit(t: Text) {
    exists u: FunctionalUnit :: t == TextOf(FunctionalUnitToken(u))
  }

  predicate IsCarbonUnit(t: Text) {
    t == TextOf("gCO2e") || t == TextOf("kgCO2e") || t == TextOf("tCO2e")
  }

  predicate IsCarbonAccounting(t: Text) {
    t == TextOf("location-based") || t == TextOf("market-based")
  }

  /** The metric tonne as the older revisions wrote it. */
  function LegacyCarbonUnit(t: Text): Option<Text> {
    if t == TextOf("mtCO2e") then Some(TextOf("tCO2e")) else None
  }

  // ---- Functional units of earlier revisions ----

  datatype LegacyUnit = LegacyUnit(unit: FunctionalUnit, factor: int)

  function Lower(s: string): (r: string)
    ensures |r| == |s|
    ensures forall i :: 0 <= i < |s| ==> r[i] == if 'A' <= s[i] <= 'Z' then s[i] + 32 as char else s[i]
  {
    if s == "" then "" else [if 'A' <= s[0] <= 'Z' then s[0] + 32 as char else s[0]] + Lower(s[1..])
  }

  predicate StartsWith(s: string, prefix: string) {
    |prefix| <= |s| && s[..|prefix|] == prefix
  }

  function Unprefixed(s: string, prefix: string): string {
    if StartsWith(s, prefix) then s[|prefix|..] else s
  }

  function Noun(s: string): Option<FunctionalUnit> {
    match s
    case "request" => Some(PerRequest)
    case "call" => Some(PerRequest)
    case "query" => Some(PerRequest)
    case "transaction" => Some(PerTransaction)
    case "user" => Some(PerUser)
    case "device" => Some(PerDevice)
    case "gigabyte" => Some(PerGigabyte)
    case "pageview" => Some(PerPageView)
    case "page-view" => Some(PerPageView)
    case "visit" => Some(PerPageView)
    case "job" => Some(PerJob)
    case "run" => Some(PerJob)
    case "token" => Some(PerToken)
    case "inference" => Some(PerInference)
    case _ => None
  }

  /** A noun, or its plural in "s". */
  function NounOrPlural(s: string): Option<FunctionalUnit> {
    if Noun(s).Some? then Noun(s)
    else if s != "" && s[|s| - 1] == 's' then Noun(s[..|s| - 1])
    else None
  }

  /**
   * Storage held over time; or an optional "per-", an optional scale, an optional "api-" and a noun; in any letter
   * case. The factor is what the score was divided by.
   */
  function LegacyFunctionalUnit(t: Text): (r: Option<LegacyUnit>)
    ensures r.Some? ==> r.value.factor >= 1
  {
    if StringOf(t).None? then None else
    var s := Lower(StringOf(t).value);
    if s == "per-gigabyte-hour" then Some(LegacyUnit(PerGigabyteHour, 1))
    else if s == "per-gigabyte-day" then Some(LegacyUnit(PerGigabyteHour, 24))
    else if s == "per-terabyte-hour" then Some(LegacyUnit(PerGigabyteHour, 1_000))
    else if s == "per-terabyte-day" then Some(LegacyUnit(PerGigabyteHour, 24_000))
    else
      var quantity := Unprefixed(s, "per-");
      if StartsWith(quantity, "thousand-") then Scaled(Unprefixed(quantity, "thousand-"), 1_000)
      else if StartsWith(quantity, "1000-") then Scaled(Unprefixed(quantity, "1000-"), 1_000)
      else if StartsWith(quantity, "million-") then Scaled(Unprefixed(quantity, "million-"), 1_000_000)
      else Scaled(quantity, 1)
  }

  function Scaled(counted: string, factor: int): (r: Option<LegacyUnit>)
    ensures r.Some? ==> r.value.factor == factor
  {
    var unit := NounOrPlural(Unprefixed(counted, "api-"));
    if unit.None? then None else Some(LegacyUnit(unit.value, factor))
  }
}
