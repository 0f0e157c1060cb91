/**
 * JSON text and the one-pass scanner of `json.ts` that refuses a repeated member name
 * (section 2.3 of RFC 7493). The grammar of RFC 8259 is a tree that keeps every detail
 * of the spelling: white space, escapes, nesting. The scanner sees only the text.
 */
module JsonText {
  import opened Texts
  import opened Wrappers

  const QUOTE: CodeUnit := 0x22
  const BACKSLASH: CodeUnit := 0x5C
  const OPEN_OBJECT: CodeUnit := 0x7B
  const CLOSE_OBJECT: CodeUnit := 0x7D
  const OPEN_ARRAY: CodeUnit := 0x5B
  const CLOSE_ARRAY: CodeUnit := 0x5D
  const COMMA: CodeUnit := 0x2C
  const COLON: CodeUnit := 0x3A
  const LOWER_U: CodeUnit := 0x75

  // ---- The grammar ----

  /** One character of a string as written: itself, a two-character escape, or `\u` and four hexadecimal digits. */
  datatype Char = Plain(unit: CodeUnit) | Escape(letter: CodeUnit) | Hex(digits: Text)

  /** A value as written. Every comma, colon and bracket may have white space around it. */
  datatype Value =
    | Literal(text: Text)
    | String(chars: seq<Char>)
    | Array(inside: Text, items: seq<Item>)
    | Object(inside: Text, members: seq<Member>)

  datatype Item = Item(before: Text, value: Value, after: Text)

  datatype Member = Member(beforeName: Text, name: seq<Char>, afterName: Text, before: Text, value: Value, after: Text)

  datatype Document = Document(before: Text, value: Value, after: Text)

  predicate IsSpace(text: Text) {
    forall i :: 0 <= i < |text| ==> text[i] in {0x20, 0x09, 0x0A, 0x0D}
  }

  predicate IsHexDigit(unit: CodeUnit) {
    0x30 <= unit <= 0x39 || 0x41 <= unit <= 0x46 || 0x61 <= unit <= 0x66
  }

  predicate IsChar(c: Char) {
    match c
    case Plain(unit) => unit >= 0x20 && unit != QUOTE && unit != BACKSLASH
    case Escape(letter) => letter in {QUOTE, BACKSLASH, 0x2F, 0x62, 0x66, 0x6E, 0x72, 0x74}
    case Hex(digits) => |digits| == 4 && forall i :: 0 <= i < 4 ==> IsHexDigit(digits[i])
  }

  predicate AreChars(chars: seq<Char>) {
    forall i :: 0 <= i < |chars| ==> IsChar(chars[i])
  }

  /** The characters of a number or of `true`, `false` and `null`: digits, letters, signs and the point. */
  predicate IsLiteralText(text: Text) {
    forall i :: 0 <= i < |text| ==>
      0x30 <= text[i] <= 0x39 || 0x41 <= text[i] <= 0x5A || 0x61 <= text[i] <= 0x7A || text[i] in {0x2B, 0x2D, 0x2E}
  }

  predicate IsValue(v: Value) {
    match v
    case Literal(text) => IsLiteralText(text)
    case String(chars) => AreChars(chars)
    case Array(inside, items) =>
      IsSpace(inside) && forall i :: 0 <= i < |items| ==>
        IsSpace(items[i].before) && IsSpace(items[i].after) && IsValue(items[i].value)
    case Object(inside, members) =>
      IsSpace(inside) && forall i :: 0 <= i < |members| ==>
        && IsSpace(members[i].beforeName) && AreChars(members[i].name) && IsSpace(members[i].afterName)
        && IsSpace(members[i].before) && IsSpace(members[i].after) && IsValue(members[i].value)
  }

  predicate IsDocument(d: Document) {
    IsSpace(d.before) && IsValue(d.value) && IsSpace(d.after)
  }

  // ---- The text of a tree ----

  function CharText(c: Char): Text {
    match c
    case Plain(unit) => [unit]
    case Escape(letter) => [BACKSLASH, letter]
    case Hex(digits) => [BACKSLASH, LOWER_U] + digits
  }

  function CharsText(chars: seq<Char>): Text {
    if chars == [] then [] else CharText(chars[0]) + CharsText(chars[1..])
  }

  function StringText(chars: seq<Char>): Text {
    [QUOTE] + CharsText(chars) + [QUOTE]
  }

  function ValueText(v: Value): Text
    decreases v, 0
  {
    match v
    case Literal(text) => text
    case String(chars) => StringText(chars)
    case Array(inside, items) => [OPEN_ARRAY] + (if items == [] then inside else ItemsText(items)) + [CLOSE_ARRAY]
    case Object(inside, members) => [OPEN_OBJECT] + (if members == [] then inside else MembersText(members)) + [CLOSE_OBJECT]
  }

  function ItemsText(items: seq<Item>): Text
    requires items != []
    decreases items, 1
  {
    var first := items[0].before + ValueText(items[0].value) + items[0].after;
    if |items| == 1 then first else first + [COMMA] + ItemsText(items[1..])
  }

  function MemberText(m: Member): Text
    decreases m, 1
  {
    m.beforeName + StringText(m.name) + m.afterName + [COLON] + m.before + ValueText(m.value) + m.after
  }

  function MembersText(members: seq<Member>): Text
    requires members != []
    decreases members, 1
  {
    if |members| == 1 then MemberText(members[0]) else MemberText(members[0]) + [COMMA] + MembersText(members[1..])
  }

  function DocumentText(d: Document): Text {
    d.before + ValueText(d.value) + d.after
  }

  // ---- What the text means ----

  function HexValue(unit: CodeUnit): (n: int)
    requires IsHexDigit(unit)
    ensures 0 <= n < 16
  {
    if unit <= 0x39 then unit - 0x30 else if unit <= 0x46 then unit - 0x37 else unit - 0x57
  }

  function HexUnit(digits: Text): CodeUnit
    requires |digits| == 4 && forall i :: 0 <= i < 4 ==> IsHexDigit(digits[i])
  {
    var a, b, c, d := HexValue(digits[0]), HexValue(digits[1]), HexValue(digits[2]), HexValue(digits[3]);
    0x1000 * a + 0x100 * b + 0x10 * c + d
  }

  /** The control character or punctuation that a two-character escape stands for. */
  function EscapeUnit(letter: CodeUnit): CodeUnit {
    if letter == 0x62 then 0x08 else if letter == 0x66 then 0x0C else if letter == 0x6E then 0x0A
    else if letter == 0x72 then 0x0D else if letter == 0x74 then 0x09 else letter
  }

  /** Section 7 of RFC 8259: the units that an escape stands for, by the character after the backslash. */
  lemma EscapesMean()
    ensures EscapeUnit(0x22) == 0x22 && EscapeUnit(0x5C) == 0x5C && EscapeUnit(0x2F) == 0x2F
    ensures EscapeUnit('b' as int) == 8 && EscapeUnit('t' as int) == 9 && EscapeUnit('n' as int) == 10
    ensures EscapeUnit('f' as int) == 12 && EscapeUnit('r' as int) == 13
  {
  }

  const HEX_DIGITS := "0123456789abcdef"
  const UPPER_HEX_DIGITS := "0123456789ABCDEF"

  predicate IsDigitAt(unit: CodeUnit, i: nat)
    requires i < 16
  {
    unit == HEX_DIGITS[i] as int || unit == UPPER_HEX_DIGITS[i] as int
  }

  /** Four digits in either letter case, the first the highest, stand for the unit of that number. */
  lemma HexMeans(digits: Text, i: nat, j: nat, k: nat, l: nat)
    requires |digits| == 4 && i < 16 && j < 16 && k < 16 && l < 16
    requires IsDigitAt(digits[0], i) && IsDigitAt(digits[1], j) && IsDigitAt(digits[2], k) && IsDigitAt(digits[3], l)
    ensures (forall n :: 0 <= n < 4 ==> IsHexDigit(digits[n])) && HexUnit(digits) == ((i * 16 + j) * 16 + k) * 16 + l
  {
    OneHexMeans(digits[0], i);
    OneHexMeans(digits[1], j);
    OneHexMeans(digits[2], k);
    OneHexMeans(digits[3], l);
    assert digits == [digits[0], digits[1], digits[2], digits[3]];
    hide IsHexDigit;
    hide HexValue;
  }

  lemma OneHexMeans(unit: CodeUnit, i: nat)
    requires i < 16 && IsDigitAt(unit, i)
    ensures IsHexDigit(unit) && HexValue(unit) == i
  {
  }

  function CharUnit(c: Char): CodeUnit
    requires IsChar(c)
  {
    match c
    case Plain(unit) => unit
    case Escape(letter) => EscapeUnit(letter)
    case Hex(digits) => HexUnit(digits)
  }

  /** The string a spelling decodes to. */
  function Decoded(chars: seq<Char>): Text
    requires AreChars(chars)
  {
    if chars == [] then [] else [CharUnit(chars[0])] + Decoded(chars[1..])
  }

  /** Whether some object of the tree holds two members with one decoded name. */
  ghost predicate RepeatsAName(v: Value)
    requires IsValue(v)
  {
    match v
    case Literal(_) => false
    case String(_) => false
    case Array(_, items) => exists i :: 0 <= i < |items| && RepeatsAName(items[i].value)
    case Object(_, members) =>
      || (exists i, j :: 0 <= i < j < |members| && Decoded(members[i].name) == Decoded(members[j].name))
      || (exists i :: 0 <= i < |members| && RepeatsAName(members[i].value))
  }

  // ---- The scanner ----

  /** The string between two quotes, decoded from the text alone. */
  function Unescape(raw: Text): Text {
    if raw == [] then []
    else if raw[0] != BACKSLASH || |raw| == 1 then [raw[0]] + Unescape(raw[1..])
    else if raw[1] == LOWER_U && |raw| >= 6 && forall i :: 2 <= i < 6 ==> IsHexDigit(raw[i]) then
      [HexUnit(raw[2..6])] + Unescape(raw[6..])
    else [EscapeUnit(raw[1])] + Unescape(raw[2..])
  }

  /** How many units lie before the quote that ends a string: an escape is stepped over whole. */
  function StringSpan(text: Text): (n: nat)
    ensures n <= |text|
  {
    if text == [] || text[0] == QUOTE then 0
    else if text[0] != BACKSLASH || |text| == 1 then 1 + StringSpan(text[1..])
    else 2 + StringSpan(text[2..])
  }

  /** The containers open: the names an object has so far, or none for an array. */
  type Open = seq<Option<set<Text>>>

  function Top(open: Open): Option<set<Text>> {
    if open == [] then None else open[|open| - 1]
  }

  function Pop(open: Open): Open {
    if open == [] then [] else open[..|open| - 1]
  }

  /** The first name found twice in the rest of the text, scanning on with these containers open. */
  function Scan(rest: Text, open: Open, expectName: bool): Option<Text>
    decreases |rest|
  {
    if rest == [] then None else
    var c := rest[0];
    if c == QUOTE then
      var span := StringSpan(rest[1..]);
      var after := if 1 + span < |rest| then rest[2 + span..] else [];
      if expectName && Top(open).Some? then
        var name := Unescape(rest[1..1 + span]);
        if name in Top(open).value then Some(name)
        else Scan(after, Pop(open) + [Some(Top(open).value + {name})], false)
      else Scan(after, open, expectName)
    else if c == OPEN_OBJECT || c == OPEN_ARRAY then
      Scan(rest[1..], open + [if c == OPEN_OBJECT then Some({}) else None], c == OPEN_OBJECT)
    else if c == CLOSE_OBJECT || c == CLOSE_ARRAY then Scan(rest[1..], Pop(open), false)
    else Scan(rest[1..], open, expectName || (c == COMMA && Top(open).Some?))
  }

  /** The place of the quote that ends the string begun before `start`; the end of a text that has none. */
  method StringEnd(text: Text, start: nat) returns (end: nat)
    requires start <= |text|
    ensures start <= end <= |text| && end == start + StringSpan(text[start..])
  {
    end := start;
    while end < |text| && text[end] != QUOTE
      invariant start <= end <= |text|
      invariant end + StringSpan(text[end..]) == start + StringSpan(text[start..])
    {
      assert text[end..][1..] == text[end + 1..];
      if text[end] == BACKSLASH && end + 1 < |text| {
        assert text[end..][2..] == text[end + 2..];
        end := end + 2;
      } else {
        end := end + 1;
      }
    }
  }

  /** Walks the text once; the result is the first name an object holds twice, where the source throws. */
  method RefuseRepeatedNames(text: Text) returns (repeated: Option<Text>)
    ensures repeated == Scan(text, [], false)
  {
    hide Unescape;
    hide StringSpan;
    var open: Open := [];
    var expectName := false;
    var i := 0;
    assert text[0..] == text;
    while i < |text|
      invariant 0 <= i <= |text|
      invariant Scan(text, [], false) == Scan(text[i..], open, expectName)
    {
      var c := text[i];
      ghost var rest := text[i..];
      assert rest[1..] == text[i + 1..];
      if c == QUOTE {
        var end := StringEnd(text, i + 1);
        assert rest[1..end - i] == text[i + 1..end];
        assert end < |text| ==> rest[end - i + 1..] == text[end + 1..];
        if expectName && Top(open).Some? {
          var name := Unescape(text[i + 1..end]);
          if name in Top(open).value {
            return Some(name);
          }
          open := Pop(open) + [Some(Top(open).value + {name})];
          expectName := false;
        }
        i := if end < |text| then end else end - 1;
      } else if c == OPEN_OBJECT || c == OPEN_ARRAY {
        open := open + [if c == OPEN_OBJECT then Some({}) else None];
        expectName := c == OPEN_OBJECT;
      } else if c == CLOSE_OBJECT || c == CLOSE_ARRAY {
        open := Pop(open);
        expectName := false;
      } else if c == COMMA && Top(open).Some? {
        expectName := true;
      }
      i := i + 1;
    }
    assert text[i..] == [];
    repeated := None;
  }
}
