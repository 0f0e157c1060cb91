/**
 * Text on the wire: a text is written as the UTF-8 of its code points (RFC 3629), with
 * U+FFFD for each surrogate that is not half of a pair, as `URLSearchParams` does. A
 * string here is a sequence of bytes, one character for each.
 */
module Encoding {
  import opened CodePointOrder
  import opened Texts
  import opened Wrappers

  const REPLACEMENT := 0xFFFD

  // ---- Code points and text ----

  /** The code points with the replacement character for each that UTF-8 does not encode. */
  function Replaced(points: seq<int>): (scalars: seq<int>)
    ensures AreScalars(scalars) && |scalars| == |points|
  {
    if points == [] then [] else [if IsScalar(points[0]) then points[0] else REPLACEMENT] + Replaced(points[1..])
  }

  /** The code units of a code point: one, or a pair of surrogates. */
  function UnitsOf(c: int): (units: Text)
    requires IsScalar(c)
    ensures units != []
  {
    if c < 0x1_0000 then [c] else [0xD800 + (c - 0x1_0000) / 0x400, 0xDC00 + (c - 0x1_0000) % 0x400]
  }

  function TextOfPoints(points: seq<int>): Text
    requires AreScalars(points)
  {
    if points == [] then [] else UnitsOf(points[0]) + TextOfPoints(points[1..])
  }

  /** The text with the replacement character for each surrogate that is not half of a pair. */
  function WellFormed(text: Text): Text {
    TextOfPoints(Replaced(CodePoints(text)))
  }

  lemma PointsOfUnits(c: int, rest: Text)
    requires IsScalar(c)
    ensures CodePoints(UnitsOf(c) + rest) == [c] + CodePoints(rest)
    ensures IsWellFormed(UnitsOf(c) + rest) <==> IsWellFormed(rest)
  {
    var text := UnitsOf(c) + rest;
    if c < 0x1_0000 {
      assert text[1..] == rest;
    } else {
      assert text[2..] == rest;
    }
  }

  lemma {:induction false} PointsOfText(points: seq<int>)
    requires AreScalars(points)
    ensures IsWellFormed(TextOfPoints(points)) && CodePoints(TextOfPoints(points)) == points
  {
    if points != [] {
      PointsOfText(points[1..]);
      PointsOfUnits(points[0], TextOfPoints(points[1..]));
    }
  }

  lemma {:induction false} TextOfItsPoints(text: Text)
    requires IsWellFormed(text)
    ensures WellFormed(text) == text
  {
    if text != [] {
      var n := if IsHigh(text[0]) then 2 else 1;
      TextOfItsPoints(text[n..]);
      var c := CodePoints(text)[0];
      assert UnitsOf(c) == text[..n];
      assert CodePoints(text)[1..] == CodePoints(text[n..]);
      assert text == text[..n] + text[n..];
    }
  }

  /** A text is left as it is exactly when all its surrogates stand in pairs. */
  lemma LeftAsItIsIff(text: Text)
    ensures IsWellFormed(WellFormed(text))
    ensures WellFormed(text) == text <==> IsWellFormed(text)
    ensures WellFormed(text) == [] <==> text == []
  {
    PointsOfText(Replaced(CodePoints(text)));
    if IsWellFormed(text) {
      TextOfItsPoints(text);
    }
  }

  // ---- UTF-8 ----

  predicate IsBytes(s: string) {
    forall i :: 0 <= i < |s| ==> s[i] < 256 as char
  }

  predicate IsBetween(c: char, low: int, high: int) {
    low <= c as int <= high
  }

  predicate IsTail(c: char) {
    IsBetween(c, 0x80, 0xBF)
  }

  /** Well-formed UTF-8, by the grammar of section 4 of RFC 3629. */
  predicate IsUtf8(s: string)
    decreases |s|
  {
    if s == "" then true
    else if s[0] as int < 0x80 then IsUtf8(s[1..])
    else if IsBetween(s[0], 0xC2, 0xDF) then |s| >= 2 && IsTail(s[1]) && IsUtf8(s[2..])
    else if IsBetween(s[0], 0xE0, 0xEF) then
      && |s| >= 3 && IsTail(s[1]) && IsTail(s[2]) && IsUtf8(s[3..])
      && (s[0] as int == 0xE0 ==> s[1] as int >= 0xA0) && (s[0] as int == 0xED ==> s[1] as int <= 0x9F)
    else if IsBetween(s[0], 0xF0, 0xF4) then
      && |s| >= 4 && IsTail(s[1]) && IsTail(s[2]) && IsTail(s[3]) && IsUtf8(s[4..])
      && (s[0] as int == 0xF0 ==> s[1] as int >= 0x90) && (s[0] as int == 0xF4 ==> s[1] as int <= 0x8F)
    else false
  }

  /** Bytes that are the UTF-8 of a text. */
  predicate IsEncoded(s: string) {
    IsBytes(s) && IsUtf8(s)
  }

  lemma {:induction false} AsciiIsUtf8(s: string)
    requires forall i :: 0 <= i < |s| ==> s[i] as int < 0x80
    ensures IsBytes(s) && IsUtf8(s)
  {
    if s != "" {
      AsciiIsUtf8(s[1..]);
    }
  }

  function Low(c: char): int {
    c as int - 0x80
  }

  /** The code points that well-formed UTF-8 stands for. */
  function ReadPoints(s: string): (points: seq<int>)
    requires IsUtf8(s)
    ensures AreScalars(points)
    decreases |s|
  {
    if s == "" then []
    else if s[0] as int < 0x80 then [s[0] as int] + ReadPoints(s[1..])
    else if s[0] as int <= 0xDF then [(s[0] as int - 0xC0) * 64 + Low(s[1])] + ReadPoints(s[2..])
    else if s[0] as int <= 0xEF then [((s[0] as int - 0xE0) * 64 + Low(s[1])) * 64 + Low(s[2])] + ReadPoints(s[3..])
    else [(((s[0] as int - 0xF0) * 64 + Low(s[1])) * 64 + Low(s[2])) * 64 + Low(s[3])] + ReadPoints(s[4..])
  }

  /** The text that bytes stand for; none where they are no UTF-8. */
  function ReadUtf8(s: string): Option<Text> {
    if IsUtf8(s) then Some(TextOfPoints(ReadPoints(s))) else None
  }

  function Chars(bytes: seq<Byte>): (s: string)
    ensures |s| == |bytes| && forall i :: 0 <= i < |s| ==> s[i] as int == bytes[i]
  {
    seq(|bytes|, i requires 0 <= i < |bytes| => bytes[i] as char)
  }

  /** The bytes that a text is written as. */
  function WriteUtf8(text: Text): string {
    Chars(Encode(Replaced(CodePoints(text))))
  }

  lemma ReadOne(c: int, rest: string)
    requires 0 <= c < 0x80 && IsUtf8(rest)
    ensures IsUtf8(Chars(Utf8(c)) + rest) && ReadPoints(Chars(Utf8(c)) + rest) == [c] + ReadPoints(rest)
  {
    var s := Chars(Utf8(c)) + rest;
    assert s[1..] == rest;
  }

  lemma ReadTwo(c: int, rest: string)
    requires 0x80 <= c < 0x800 && IsUtf8(rest)
    ensures IsUtf8(Chars(Utf8(c)) + rest) && ReadPoints(Chars(Utf8(c)) + rest) == [c] + ReadPoints(rest)
  {
    var s := Chars(Utf8(c)) + rest;
    assert s[2..] == rest;
  }

  lemma ReadThree(c: int, rest: string)
    requires 0x800 <= c < 0x1_0000 && IsScalar(c) && IsUtf8(rest)
    ensures IsUtf8(Chars(Utf8(c)) + rest) && ReadPoints(Chars(Utf8(c)) + rest) == [c] + ReadPoints(rest)
  {
    var s := Chars(Utf8(c)) + rest;
    assert s[3..] == rest;
  }

  lemma ReadFour(c: int, rest: string)
    requires 0x1_0000 <= c <= 0x10FFFF && IsUtf8(rest)
    ensures IsUtf8(Chars(Utf8(c)) + rest) && ReadPoints(Chars(Utf8(c)) + rest) == [c] + ReadPoints(rest)
  {
    var s := Chars(Utf8(c)) + rest;
    assert s[4..] == rest;
  }

  lemma {:induction false} ReadEncoded(points: seq<int>)
    requires AreScalars(points)
    ensures IsUtf8(Chars(Encode(points))) && ReadPoints(Chars(Encode(points))) == points
  {
    if points != [] {
      hide IsUtf8;
      hide ReadPoints;
      hide Utf8;
      var c, rest := points[0], Chars(Encode(points[1..]));
      ReadEncoded(points[1..]);
      assert Chars(Encode(points)) == Chars(Utf8(c)) + rest;
      if c < 0x80 {
        ReadOne(c, rest);
      } else if c < 0x800 {
        ReadTwo(c, rest);
      } else if c < 0x1_0000 {
        ReadThree(c, rest);
      } else {
        ReadFour(c, rest);
      }
    }
  }

  /** What is written is UTF-8, and is read as the text with every lone surrogate replaced. */
  lemma WrittenReadsBack(text: Text)
    ensures IsEncoded(WriteUtf8(text)) && ReadUtf8(WriteUtf8(text)) == Some(WellFormed(text))
    ensures WriteUtf8(text) == "" <==> text == []
  {
    hide IsUtf8;
    hide ReadPoints;
    ReadEncoded(Replaced(CodePoints(text)));
  }

  // ---- Nothing else is UTF-8 ----

  lemma Split64(high: int, low: int)
    requires 0 <= low < 64
    ensures (high * 64 + low) / 64 == high && (high * 64 + low) % 64 == low
  {
  }

  lemma TwoOf(a: int, b: int)
    requires 0xC2 <= a <= 0xDF && 0x80 <= b <= 0xBF
    ensures var c := (a - 0xC0) * 64 + (b - 0x80); IsScalar(c) && Utf8(c) == [a, b]
  {
    Split64(a - 0xC0, b - 0x80);
  }

  lemma ThreeOf(a: int, b: int, d: int)
    requires 0xE0 <= a <= 0xEF && 0x80 <= b <= 0xBF && 0x80 <= d <= 0xBF && (a == 0xE0 ==> b >= 0xA0) && (a == 0xED ==> b <= 0x9F)
    ensures var c := ((a - 0xE0) * 64 + (b - 0x80)) * 64 + (d - 0x80); IsScalar(c) && Utf8(c) == [a, b, d]
  {
    Split64((a - 0xE0) * 64 + (b - 0x80), d - 0x80);
    Split64(a - 0xE0, b - 0x80);
  }

  lemma FourOf(a: int, b: int, d: int, e: int)
    requires 0xF0 <= a <= 0xF4 && 0x80 <= b <= 0xBF && 0x80 <= d <= 0xBF && 0x80 <= e <= 0xBF
    requires (a == 0xF0 ==> b >= 0x90) && (a == 0xF4 ==> b <= 0x8F)
    ensures var c := (((a - 0xF0) * 64 + (b - 0x80)) * 64 + (d - 0x80)) * 64 + (e - 0x80); IsScalar(c) && Utf8(c) == [a, b, d, e]
  {
    var x, y := (a - 0xF0) * 64 + (b - 0x80), ((a - 0xF0) * 64 + (b - 0x80)) * 64 + (d - 0x80);
    Split64(y, e - 0x80);
    Split64(x, d - 0x80);
    Split64(a - 0xF0, b - 0x80);
  }

  lemma CharsOf(bytes: seq<Byte>, s: string, n: nat)
    requires |bytes| == n <= |s| && forall i :: 0 <= i < n ==> bytes[i] == s[i] as int
    ensures Chars(bytes) == s[..n]
  {
    var t := Chars(bytes);
    assert forall i :: 0 <= i < n ==> t[i] == s[..n][i];
  }

  lemma EncodedOne(s: string)
    requires IsUtf8(s) && s != "" && s[0] as int < 0x80
    ensures IsUtf8(s[1..]) && ReadPoints(s) == [s[0] as int] + ReadPoints(s[1..]) && Chars(Utf8(s[0] as int)) == s[..1]
  {
  }

  lemma ReadsTwo(s: string)
    requires IsUtf8(s) && s != "" && IsBetween(s[0], 0x80, 0xDF)
    ensures |s| >= 2 && IsUtf8(s[2..]) && s[0] as int >= 0xC2 && IsTail(s[1])
    ensures ReadPoints(s) == [(s[0] as int - 0xC0) * 64 + Low(s[1])] + ReadPoints(s[2..])
  {
  }

  lemma EncodedTwo(s: string)
    requires IsUtf8(s) && s != "" && IsBetween(s[0], 0x80, 0xDF)
    ensures |s| >= 2 && IsUtf8(s[2..])
    ensures var c := (s[0] as int - 0xC0) * 64 + Low(s[1]);
      ReadPoints(s) == [c] + ReadPoints(s[2..]) && IsScalar(c) && Chars(Utf8(c)) == s[..2]
  {
    hide IsUtf8;
    hide ReadPoints;
    hide Utf8;
    hide Chars;
    ReadsTwo(s);
    TwoOf(s[0] as int, s[1] as int);
    CharsOf(Utf8((s[0] as int - 0xC0) * 64 + Low(s[1])), s, 2);
  }

  lemma ReadsThree(s: string)
    requires IsUtf8(s) && s != "" && IsBetween(s[0], 0xE0, 0xEF)
    ensures |s| >= 3 && IsUtf8(s[3..]) && IsTail(s[1]) && IsTail(s[2])
            && (s[0] as int == 0xE0 ==> s[1] as int >= 0xA0) && (s[0] as int == 0xED ==> s[1] as int <= 0x9F)
    ensures ReadPoints(s) == [((s[0] as int - 0xE0) * 64 + Low(s[1])) * 64 + Low(s[2])] + ReadPoints(s[3..])
  {
  }

  lemma EncodedThree(s: string)
    requires IsUtf8(s) && s != "" && IsBetween(s[0], 0xE0, 0xEF)
    ensures |s| >= 3 && IsUtf8(s[3..])
    ensures var c := ((s[0] as int - 0xE0) * 64 + Low(s[1])) * 64 + Low(s[2]);
      ReadPoints(s) == [c] + ReadPoints(s[3..]) && IsScalar(c) && Chars(Utf8(c)) == s[..3]
  {
    hide IsUtf8;
    hide ReadPoints;
    hide Utf8;
    hide Chars;
    ReadsThree(s);
    ThreeOf(s[0] as int, s[1] as int, s[2] as int);
    CharsOf(Utf8(((s[0] as int - 0xE0) * 64 + Low(s[1])) * 64 + Low(s[2])), s, 3);
  }

  function FourPoint(s: string): int
    requires |s| >= 4
  {
    (((s[0] as int - 0xF0) * 64 + Low(s[1])) * 64 + Low(s[2])) * 64 + Low(s[3])
  }

  lemma ReadsFour(s: string)
    requires IsUtf8(s) && s != "" && s[0] as int >= 0xF0
    ensures |s| >= 4 && IsUtf8(s[4..]) && s[0] as int <= 0xF4 && IsTail(s[1]) && IsTail(s[2]) && IsTail(s[3])
            && (s[0] as int == 0xF0 ==> s[1] as int >= 0x90) && (s[0] as int == 0xF4 ==> s[1] as int <= 0x8F)
    ensures ReadPoints(s) == [FourPoint(s)] + ReadPoints(s[4..])
  {
  }

  lemma FourChars(s: string)
    requires |s| >= 4 && IsBetween(s[0], 0xF0, 0xF4) && IsTail(s[1]) && IsTail(s[2]) && IsTail(s[3])
    requires (s[0] as int == 0xF0 ==> s[1] as int >= 0x90) && (s[0] as int == 0xF4 ==> s[1] as int <= 0x8F)
    ensures IsScalar(FourPoint(s)) && Chars(Utf8(FourPoint(s))) == s[..4]
  {
    hide Utf8;
    hide Chars;
    var a, b, d, e := s[0] as int, s[1] as int, s[2] as int, s[3] as int;
    FourOf(a, b, d, e);
    CharsOf([a, b, d, e], s, 4);
  }

  lemma EncodedFour(s: string)
    requires IsUtf8(s) && s != "" && s[0] as int >= 0xF0
    ensures |s| >= 4 && IsUtf8(s[4..])
    ensures ReadPoints(s) == [FourPoint(s)] + ReadPoints(s[4..]) && IsScalar(FourPoint(s)) && Chars(Utf8(FourPoint(s))) == s[..4]
  {
    hide IsUtf8;
    hide ReadPoints;
    hide Utf8;
    hide Chars;
    hide FourPoint;
    hide IsScalar;
    ReadsFour(s);
    FourChars(s);
  }

  lemma FirstPoint(s: string) returns (c: int, n: nat)
    requires IsUtf8(s) && s != ""
    ensures 1 <= n <= |s| && IsUtf8(s[n..]) && IsScalar(c) && ReadPoints(s) == [c] + ReadPoints(s[n..]) && Chars(Utf8(c)) == s[..n]
  {
    hide IsUtf8;
    hide ReadPoints;
    hide Utf8;
    if s[0] as int < 0x80 {
      c, n := s[0] as int, 1;
      EncodedOne(s);
    } else if s[0] as int <= 0xDF {
      EncodedTwo(s);
      c, n := (s[0] as int - 0xC0) * 64 + Low(s[1]), 2;
    } else if s[0] as int <= 0xEF {
      EncodedThree(s);
      c, n := ((s[0] as int - 0xE0) * 64 + Low(s[1])) * 64 + Low(s[2]), 3;
    } else {
      EncodedFour(s);
      c, n := FourPoint(s), 4;
    }
  }

  lemma EncodeFirst(c: int, rest: seq<int>)
    requires IsScalar(c) && AreScalars(rest)
    ensures AreScalars([c] + rest) && Chars(Encode([c] + rest)) == Chars(Utf8(c)) + Chars(Encode(rest))
  {
    hide Utf8;
    assert ([c] + rest)[1..] == rest;
  }

  lemma {:induction false} ReadIsEncoded(s: string)
    requires IsUtf8(s)
    ensures Chars(Encode(ReadPoints(s))) == s
  {
    if s == "" {
      assert ReadPoints(s) == [];
    } else {
      hide IsUtf8;
      hide ReadPoints;
      hide Utf8;
      hide Encode;
      var c, n := FirstPoint(s);
      ReadIsEncoded(s[n..]);
      EncodeFirst(c, ReadPoints(s[n..]));
      assert s == s[..n] + s[n..];
    }
  }

  /** Bytes are UTF-8 exactly when they are what some text, with no lone surrogate, is written as. */
  lemma IsUtf8Iff(s: string)
    ensures IsUtf8(s) <==> exists text :: IsWellFormed(text) && WriteUtf8(text) == s
  {
    hide IsUtf8;
    hide ReadPoints;
    hide Encode;
    hide CodePoints;
    if IsUtf8(s) {
      var points := ReadPoints(s);
      var text := TextOfPoints(points);
      ReadIsEncoded(s);
      PointsOfText(points);
      ScalarsStay(points);
      assert WriteUtf8(text) == s;
    }
    forall text | WriteUtf8(text) == s ensures IsUtf8(s) {
      WrittenReadsBack(text);
    }
  }

  lemma {:induction false} ScalarsStay(points: seq<int>)
    requires AreScalars(points)
    ensures Replaced(points) == points
  {
    if points != [] {
      ScalarsStay(points[1..]);
    }
  }
}
