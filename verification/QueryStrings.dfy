/**
 * The query string between the two sides: what the client writes for its parameters, and
 * `honoredQuery` of `security.js`, which decodes it and keeps the parameters it honors.
 * A text here is the sequence of its UTF-8 bytes, one character for each.
 */
module QueryStrings {
  import opened DateTimes
  import opened Encoding
  import opened Queries
  import opened ReferenceServer
  import opened Strings
  import opened Wrappers

  // ---- Writing ----

  /** A byte that a form leaves as it is. */
  predicate IsUnescaped(c: char) {
    '0' <= c <= '9' || 'A' <= c <= 'Z' || 'a' <= c <= 'z' || c in {'*', '-', '.', '_'}
  }

  function HexDigit(n: nat): (c: char)
    requires n < 16
    ensures IsHex(c) && HexNumber(c) == n
  {
    if n < 10 then '0' + n as char else 'A' + (n - 10) as char
  }

  function EscapeByte(c: char): string
    requires c < 256 as char
  {
    if IsUnescaped(c) then [c]
    else if c == ' ' then "+"
    else ['%', HexDigit(c as int / 16), HexDigit(c as int % 16)]
  }

  function EscapeText(s: string): string
    requires IsBytes(s)
  {
    if s == "" then "" else EscapeByte(s[0]) + EscapeText(s[1..])
  }

  datatype Pair = Pair(name: string, value: string)

  function PairText(p: Pair): string
    requires IsBytes(p.name) && IsBytes(p.value)
  {
    EscapeText(p.name) + "=" + EscapeText(p.value)
  }

  predicate ArePairs(pairs: seq<Pair>) {
    forall i :: 0 <= i < |pairs| ==> IsEncoded(pairs[i].name) && IsEncoded(pairs[i].value)
  }

  /** The pairs of a query joined by `&`, as `URLSearchParams` writes them. */
  function QueryText(pairs: seq<Pair>): string
    requires ArePairs(pairs)
  {
    if pairs == [] then ""
    else if |pairs| == 1 then PairText(pairs[0])
    else PairText(pairs[0]) + "&" + QueryText(pairs[1..])
  }

  // ---- Reading ----

  predicate IsHex(c: char) {
    '0' <= c <= '9' || 'A' <= c <= 'F' || 'a' <= c <= 'f'
  }

  function HexNumber(c: char): (n: nat)
    requires IsHex(c)
    ensures n < 16
  {
    if c <= '9' then (c - '0') as int else if c <= 'F' then (c - 'A') as int + 10 else (c - 'a') as int + 10
  }

  /** The bytes that a form text stands for; none for a malformed escape. */
  function Decode(s: string): Option<string> {
    if s == "" then Some("")
    else if s[0] == '%' then
      if |s| < 3 || !IsHex(s[1]) || !IsHex(s[2]) then None else
      var rest := Decode(s[3..]);
      if rest.None? then None else Some([(16 * HexNumber(s[1]) + HexNumber(s[2])) as char] + rest.value)
    else
      var rest := Decode(s[1..]);
      if rest.None? then None else Some([if s[0] == '+' then ' ' else s[0]] + rest.value)
  }

  function Parts(rawQuery: string): (parts: seq<string>)
    ensures parts != []
  {
    Split(rawQuery, '&')
  }

  /** The name and value of one part; none where either has a malformed escape or is no UTF-8. */
  function ReadPart(part: string): Option<Pair> {
    var at := IndexOf(part, '=');
    var name, value := Decode(part[..at]), Decode(if at == |part| then "" else part[at + 1..]);
    if name.None? || value.None? || !IsUtf8(name.value) || !IsUtf8(value.value) then None else Some(Pair(name.value, value.value))
  }

  predicate JsIsUtcDateTime(value: string) {
    HasUtcForm(value) && !HasLeapSecond(value) && JsParse(value).Some?
  }

  predicate IsParameter(name: string) {
    name == "target" || name == "start" || name == "end" || name == "granularity"
  }

  /** Whether the value matches the rule of the parameter. */
  predicate IsValidValue(p: Pair)
    requires IsParameter(p.name)
  {
    if p.name == "target" then p.value != ""
    else if p.name == "granularity" then p.value in {"yearly", "monthly", "daily"}
    else JsIsUtcDateTime(p.value)
  }

  /** Add the value of one part to those seen; a malformed part and a name that is no parameter are passed over. */
  function Note(seen: map<string, seq<string>>, part: string): map<string, seq<string>> {
    var pair := ReadPart(part);
    if pair.None? || !IsParameter(pair.value.name) then seen else
    var name := pair.value.name;
    seen[name := (if name in seen then seen[name] else []) + [pair.value.value]]
  }

  /** The values given for each parameter, in order. */
  function SeenIn(parts: seq<string>): (seen: map<string, seq<string>>)
    ensures forall name :: name in seen ==> IsParameter(name) && seen[name] != []
  {
    if parts == [] then map[] else Note(SeenIn(parts[..|parts| - 1]), parts[|parts| - 1])
  }

  /** The parameters given once and validly. */
  function HonoredOf(seen: map<string, seq<string>>): map<string, string>
    requires forall name :: name in seen ==> IsParameter(name) && seen[name] != []
  {
    map name | name in seen && |seen[name]| == 1 && IsValidValue(Pair(name, seen[name][0])) :: seen[name][0]
  }

  method HonoredQuery(rawQuery: string) returns (honored: map<string, string>)
    ensures honored == HonoredOf(SeenIn(Parts(rawQuery)))
  {
    hide ReadPart;
    hide Parts;
    hide HonoredOf;
    hide IsParameter;
    var parts := Parts(rawQuery);
    var seen: map<string, seq<string>> := map[];
    for i := 0 to |parts|
      invariant seen == SeenIn(parts[..i])
    {
      assert parts[..i + 1][..i] == parts[..i] && parts[..i + 1][i] == parts[i];
      var pair := ReadPart(parts[i]);
      if pair.Some? && IsParameter(pair.value.name) {
        var name := pair.value.name;
        if name !in seen {
          seen := seen[name := []];
        }
        seen := seen[name := seen[name] + [pair.value.value]];
      }
    }
    assert parts[..|parts|] == parts;
    honored := HonoredOf(seen);
  }

  // ---- Reading what was written ----

  lemma {:induction false} DecodeEscaped(s: string)
    requires IsBytes(s)
    ensures Decode(EscapeText(s)) == Some(s)
    ensures forall i :: 0 <= i < |EscapeText(s)| ==> EscapeText(s)[i] != '&' && EscapeText(s)[i] != '='
  {
    if s != "" {
      DecodeEscaped(s[1..]);
      DecodeOne(s[0], EscapeText(s[1..]));
      assert s == [s[0]] + s[1..];
    }
  }

  lemma DecodeOne(c: char, rest: string)
    requires c < 256 as char && Decode(rest).Some?
    ensures Decode(EscapeByte(c) + rest) == Some([c] + Decode(rest).value)
    ensures forall i :: 0 <= i < |EscapeByte(c)| ==> EscapeByte(c)[i] != '&' && EscapeByte(c)[i] != '='
  {
    var text := EscapeByte(c) + rest;
    if IsUnescaped(c) || c == ' ' {
      assert text[1..] == rest;
    } else {
      assert text[3..] == rest;
    }
  }

  lemma ReadWrittenPair(p: Pair)
    requires IsEncoded(p.name) && IsEncoded(p.value)
    ensures ReadPart(PairText(p)) == Some(p)
    ensures forall i :: 0 <= i < |PairText(p)| ==> PairText(p)[i] != '&'
  {
    var name, value := EscapeText(p.name), EscapeText(p.value);
    hide EscapeText;
    hide Decode;
    hide IsUtf8;
    DecodeEscaped(p.name);
    DecodeEscaped(p.value);
    IndexOfFirst(name, '=', value);
    assert PairText(p)[..|name|] == name && PairText(p)[|name| + 1..] == value;
  }

  function PairTexts(pairs: seq<Pair>): seq<string>
    requires ArePairs(pairs)
  {
    if pairs == [] then [] else [PairText(pairs[0])] + PairTexts(pairs[1..])
  }

  lemma {:induction false} PartsOfQuery(pairs: seq<Pair>)
    requires ArePairs(pairs) && pairs != []
    ensures Parts(QueryText(pairs)) == PairTexts(pairs)
  {
    hide PairText;
    var first := PairText(pairs[0]);
    ReadWrittenPair(pairs[0]);
    if |pairs| == 1 {
      SplitFirst(first, '&', "");
    } else {
      SplitFirst(first, '&', QueryText(pairs[1..]));
      PartsOfQuery(pairs[1..]);
    }
  }

  ghost predicate DistinctParameters(pairs: seq<Pair>) {
    && (forall i :: 0 <= i < |pairs| ==> IsParameter(pairs[i].name))
    && (forall i, j :: 0 <= i < j < |pairs| ==> pairs[i].name != pairs[j].name)
  }

  lemma {:induction false} PairTextsAt(pairs: seq<Pair>, n: nat)
    requires ArePairs(pairs) && n <= |pairs|
    ensures |PairTexts(pairs)| == |pairs| && PairTexts(pairs)[..n] == PairTexts(pairs[..n])
    ensures n < |pairs| ==> PairTexts(pairs)[n] == PairText(pairs[n])
  {
    if pairs != [] {
      if n > 0 {
        PairTextsAt(pairs[1..], n - 1);
        assert pairs[..n][1..] == pairs[1..][..n - 1];
      } else {
        PairTextsAt(pairs[1..], 0);
      }
    }
  }

  lemma NoteFresh(seen: map<string, seq<string>>, p: Pair)
    requires IsEncoded(p.name) && IsEncoded(p.value) && IsParameter(p.name) && p.name !in seen
    ensures Note(seen, PairText(p)) == seen[p.name := [p.value]]
  {
    hide PairText;
    hide ReadPart;
    ReadWrittenPair(p);
    assert [] + [p.value] == [p.value];
  }

  /** Distinct parameters are each seen once, with the value written. */
  ghost predicate SeenAsWritten(seen: map<string, seq<string>>, pairs: seq<Pair>) {
    && (forall name :: name in seen ==> exists i :: 0 <= i < |pairs| && pairs[i].name == name)
    && (forall i :: 0 <= i < |pairs| ==> pairs[i].name in seen && seen[pairs[i].name] == [pairs[i].value])
  }

  lemma SeenStep(pairs: seq<Pair>)
    requires ArePairs(pairs) && pairs != []
    ensures var n := |pairs| - 1; SeenIn(PairTexts(pairs)) == Note(SeenIn(PairTexts(pairs[..n])), PairText(pairs[n]))
  {
    hide Note;
    hide PairText;
    PairTextsAt(pairs, |pairs| - 1);
  }

  lemma {:induction false} SeenOfPairs(pairs: seq<Pair>)
    requires ArePairs(pairs) && DistinctParameters(pairs)
    ensures SeenAsWritten(SeenIn(PairTexts(pairs)), pairs)
  {
    hide PairText;
    hide PairTexts;
    hide Note;
    hide SeenIn;
    hide IsParameter;
    if pairs == [] {
      NothingSeen();
    } else {
      var n := |pairs| - 1;
      SeenOfPairs(pairs[..n]);
      SeenStep(pairs);
      WrittenExtends(SeenIn(PairTexts(pairs[..n])), pairs);
      NoteFresh(SeenIn(PairTexts(pairs[..n])), pairs[n]);
    }
  }

  lemma WrittenExtends(seen: map<string, seq<string>>, pairs: seq<Pair>)
    requires pairs != [] && SeenAsWritten(seen, pairs[..|pairs| - 1])
    requires forall i, j :: 0 <= i < j < |pairs| ==> pairs[i].name != pairs[j].name
    ensures var p := pairs[|pairs| - 1];
      p.name !in seen && SeenAsWritten(seen[p.name := [p.value]], pairs)
  {
    var n := |pairs| - 1;
    assert forall i :: 0 <= i < n ==> pairs[..n][i] == pairs[i];
    forall name | name in seen ensures exists i :: 0 <= i < n && pairs[i].name == name {
      var i :| 0 <= i < n && pairs[..n][i].name == name;
      assert pairs[i].name == name;
    }
  }

  lemma NothingSeen()
    ensures SeenIn(PairTexts([])) == map[]
  {
  }

  /** An empty query has one empty part, which names nothing. */
  lemma EmptyQuery()
    ensures SeenIn(Parts(QueryText([]))) == SeenIn(PairTexts([]))
  {
    assert Parts("") == [""];
    assert ReadPart("") == Some(Pair("", ""));
    var parts := [""];
    assert parts[..0] == [];
    assert SeenIn(parts) == Note(SeenIn([]), "");
  }

  lemma IllFormedPart()
    ensures ReadPart("target=%FF").None?
  {
    hide IsUtf8;
    var part := "target=%FF";
    IndexOfFirst("target", '=', "%FF");
    assert part == "target" + "=" + "%FF";
    assert part[7..] == "%FF" && "%FF"[3..] == "";
    assert Decode("") == Some("");
    assert Decode("%FF") == Some([0xFF as char] + "");
    NoUtf8();
  }

  lemma NoUtf8()
    ensures !IsUtf8([0xFF as char] + "")
  {
  }

  lemma OnePart(text: string)
    requires forall i :: 0 <= i < |text| ==> text[i] != '&'
    ensures Parts(text) == [text]
  {
    SplitFirst(text, '&', "");
  }

  /** An ill-formed value is no value: the part is passed over. */
  lemma IllFormedIsPassedOver()
    ensures SeenIn(Parts("target=%FF")) == map[]
  {
    hide ReadPart;
    hide Parts;
    IllFormedPart();
    var parts := ["target=%FF"];
    OnePart("target=%FF");
    assert parts[..0] == [];
    assert SeenIn(parts) == Note(SeenIn([]), parts[0]);
  }

  /** The server honors, of the distinct parameters a client writes, exactly the valid ones, with the values written. */
  lemma WrittenParametersAreHonored(pairs: seq<Pair>)
    requires ArePairs(pairs) && DistinctParameters(pairs)
    ensures var honored := HonoredOf(SeenIn(Parts(QueryText(pairs))));
      && (forall i :: 0 <= i < |pairs| ==>
            (pairs[i].name in honored <==> IsValidValue(pairs[i])) &&
            (pairs[i].name in honored ==> honored[pairs[i].name] == pairs[i].value))
      && (forall name :: name in honored ==> exists i :: 0 <= i < |pairs| && pairs[i].name == name)
  {
    hide QueryText;
    hide JsIsUtcDateTime;
    hide Parts;
    hide SeenIn;
    if pairs == [] {
      EmptyQuery();
    } else {
      PartsOfQuery(pairs);
    }
    SeenOfPairs(pairs);
    forall i | 0 <= i < |pairs| ensures Pair(pairs[i].name, pairs[i].value) == pairs[i] {
    }
  }

  /** Every bound that the client sends is one that the server honors. */
  lemma SentBoundIsValidValue(side: Side, value: string)
    requires QueryBound(side, value).Ok?
    ensures JsIsUtcDateTime(QueryBound(side, value).value)
  {
    hide QueryBound;
    hide JsParse;
    hide HasUtcForm;
    hide Parse;
    SentBoundIsHonored(side, value);
    ServerReadsAsConsumer(QueryBound(side, value).value);
  }

  /** The bounds that the server honors are those the consumer takes, but for fractions of more than nine digits. */
  lemma ServerHonorsIff(value: string)
    ensures IsUtcDateTime(value) <==> JsIsUtcDateTime(value) && |FractionOf(value)| <= 10
  {
    hide JsParse;
    hide FractionOf;
    hide IsDateTime;
    ConsumerAcceptsIff(value);
  }

  const HEX := "0123456789abcdef"
  const UPPER_HEX := "0123456789ABCDEF"

  /** An escape is read by its two digits, in either letter case. */
  lemma EscapeIsRead(i: nat, j: nat, high: char, low: char, rest: string)
    requires i < 16 && j < 16 && (high == HEX[i] || high == UPPER_HEX[i]) && (low == HEX[j] || low == UPPER_HEX[j])
    ensures Decode(['%', high, low] + rest) ==
      if Decode(rest).None? then None else Some([(16 * i + j) as char] + Decode(rest).value)
  {
    DigitIsRead(i, high);
    DigitIsRead(j, low);
    hide HexNumber;
    hide IsHex;
    var s := ['%', high, low] + rest;
    assert s[3..] == rest;
  }

  lemma DigitIsRead(i: nat, c: char)
    requires i < 16 && (c == HEX[i] || c == UPPER_HEX[i])
    ensures IsHex(c) && HexNumber(c) == i
  {
  }

  /** The bytes of letters, digits and `*`, `-`, `.`, `_`, by number. */
  predicate IsPlain(c: int) {
    0x30 <= c <= 0x39 || 0x41 <= c <= 0x5A || 0x61 <= c <= 0x7A || c == 0x2A || c == 0x2D || c == 0x2E || c == 0x5F
  }

  /** A text of such bytes is written as it stands. */
  lemma {:induction false} PlainIsWritten(s: string)
    requires IsBytes(s) && forall i :: 0 <= i < |s| ==> IsPlain(s[i] as int)
    ensures EscapeText(s) == s
  {
    if s != "" {
      PlainIsWritten(s[1..]);
    }
  }
}
