/**
 * The order of `target` strings in the two reference servers: code points in
 * `security.js`, bytes of UTF-8 (`strcmp`) in `security.php`. Section 3 of RFC 3629 gives
 * the encoding; its section 1 promises that the byte order is the code point order.
 */
module CodePointOrder {
  import opened Texts

  type Byte = b: int | 0 <= b < 256

  // ---- Text to code points ----

  predicate IsHigh(unit: CodeUnit) {
    0xD800 <= unit <= 0xDBFF
  }

  predicate IsLow(unit: CodeUnit) {
    0xDC00 <= unit <= 0xDFFF
  }

  /** Whether every surrogate of the text is half of a pair. */
  predicate IsWellFormed(text: Text) {
    if text == [] then true
    else if IsHigh(text[0]) then |text| >= 2 && IsLow(text[1]) && IsWellFormed(text[2..])
    else !IsLow(text[0]) && IsWellFormed(text[1..])
  }

  /** The code points of a text, as iterating over the string gives them. */
  function CodePoints(text: Text): (points: seq<int>)
    ensures forall i :: 0 <= i < |points| ==> 0 <= points[i] <= 0x10FFFF
  {
    if text == [] then []
    else if IsHigh(text[0]) && |text| >= 2 && IsLow(text[1]) then
      [0x1_0000 + 0x400 * (text[0] - 0xD800) + (text[1] - 0xDC00)] + CodePoints(text[2..])
    else [text[0]] + CodePoints(text[1..])
  }

  lemma {:induction false} WellFormedIsScalars(text: Text)
    requires IsWellFormed(text)
    ensures AreScalars(CodePoints(text))
  {
    if text != [] {
      WellFormedIsScalars(if IsHigh(text[0]) then text[2..] else text[1..]);
    }
  }

  // ---- The two comparisons ----

  /** The first difference of two sequences of numbers, or the difference of their lengths. */
  function FirstDifference(a: seq<int>, b: seq<int>): int {
    if a == [] || b == [] then |a| - |b|
    else if a[0] != b[0] then a[0] - b[0]
    else FirstDifference(a[1..], b[1..])
  }

  /** The loop of `security.js`. */
  method CompareCodePoints(a: Text, b: Text) returns (order: int)
    ensures order == FirstDifference(CodePoints(a), CodePoints(b))
  {
    var left, right := CodePoints(a), CodePoints(b);
    var i := 0;
    while i < |left| && i < |right|
      invariant i <= |left| && i <= |right|
      invariant FirstDifference(left[i..], right[i..]) == FirstDifference(left, right)
    {
      if left[i] != right[i] {
        return left[i] - right[i];
      }
      assert left[i..][1..] == left[i + 1..] && right[i..][1..] == right[i + 1..];
      i := i + 1;
    }
    order := |left| - |right|;
  }

  /** A code point that UTF-8 encodes: any but a surrogate. */
  predicate IsScalar(c: int) {
    0 <= c < 0xD800 || 0xDFFF < c <= 0x10FFFF
  }

  predicate AreScalars(points: seq<int>) {
    forall i :: 0 <= i < |points| ==> IsScalar(points[i])
  }

  /** The UTF-8 bytes of a code point. */
  function Utf8(c: int): seq<Byte>
    requires IsScalar(c)
  {
    if c < 0x80 then [c]
    else if c < 0x800 then [0xC0 + c / 64, 0x80 + c % 64]
    else if c < 0x1_0000 then [0xE0 + c / 64 / 64, 0x80 + c / 64 % 64, 0x80 + c % 64]
    else [0xF0 + c / 64 / 64 / 64, 0x80 + c / 64 / 64 % 64, 0x80 + c / 64 % 64, 0x80 + c % 64]
  }

  function Encode(points: seq<int>): seq<Byte>
    requires AreScalars(points)
  {
    if points == [] then [] else Utf8(points[0]) + Encode(points[1..])
  }

  function Sign(n: int): int {
    if n < 0 then -1 else if n > 0 then 1 else 0
  }

  /** `strcmp` of the two byte strings. */
  function Strcmp(a: seq<Byte>, b: seq<Byte>): int {
    Sign(FirstDifference(a, b))
  }

  // ---- The bytes keep the order ----

  lemma {:induction false} SharedPrefix(p: seq<int>, a: seq<int>, b: seq<int>)
    ensures FirstDifference(p + a, p + b) == FirstDifference(a, b)
  {
    if p == [] {
      assert p + a == a && p + b == b;
    } else {
      assert (p + a)[1..] == p[1..] + a && (p + b)[1..] == p[1..] + b;
      SharedPrefix(p[1..], a, b);
    }
  }

  /** Byte strings that part at place `k`, the first with the smaller byte. */
  ghost predicate PartsAt(a: seq<Byte>, b: seq<Byte>, k: nat) {
    k < |a| && k < |b| && a[..k] == b[..k] && a[k] < b[k]
  }

  lemma PartedOrder(a: seq<Byte>, b: seq<Byte>, k: nat, restA: seq<Byte>, restB: seq<Byte>)
    requires PartsAt(a, b, k)
    ensures Strcmp(a + restA, b + restB) == -1
  {
    assert a + restA == a[..k] + (a[k..] + restA);
    assert b + restB == a[..k] + (b[k..] + restB);
    SharedPrefix(a[..k], a[k..] + restA, b[k..] + restB);
  }

  /** A longer encoding begins with a greater byte. */
  lemma LongerIsGreater(c: int, d: int)
    requires IsScalar(c) && IsScalar(d) && |Utf8(c)| < |Utf8(d)|
    ensures Utf8(c)[0] < Utf8(d)[0]
  {
  }

  lemma LengthAscends(c: int, d: int)
    requires IsScalar(c) && IsScalar(d) && c < d
    ensures |Utf8(c)| <= |Utf8(d)|
  {
  }

  lemma TwoBytesPart(c: int, d: int) returns (k: nat)
    requires 0x80 <= c < d < 0x800
    ensures PartsAt(Utf8(c), Utf8(d), k)
  {
    k := if c / 64 < d / 64 then 0 else 1;
  }

  lemma ThreeBytesPart(c: int, d: int) returns (k: nat)
    requires 0x800 <= c < d < 0x1_0000 && IsScalar(c) && IsScalar(d)
    ensures PartsAt(Utf8(c), Utf8(d), k)
  {
    if c / 64 / 64 < d / 64 / 64 {
      k := 0;
    } else {
      k := if c / 64 % 64 < d / 64 % 64 then 1 else 2;
      ThreeBytes(c, d);
    }
  }

  lemma FourBytesPart(c: int, d: int) returns (k: nat)
    requires 0x1_0000 <= c < d <= 0x10FFFF
    ensures PartsAt(Utf8(c), Utf8(d), k)
  {
    if c / 64 / 64 / 64 < d / 64 / 64 / 64 {
      k := 0;
    } else {
      ThreeBytes(c / 64, d / 64);
      if c / 64 / 64 % 64 < d / 64 / 64 % 64 {
        k := 1;
      } else {
        ThreeBytes(c, d);
        k := if c / 64 % 64 < d / 64 % 64 then 2 else 3;
      }
    }
  }

  /** A lower code point has lower bytes: the encodings part before either ends. */
  lemma EncodingsPart(c: int, d: int) returns (k: nat)
    requires IsScalar(c) && IsScalar(d) && c < d
    ensures PartsAt(Utf8(c), Utf8(d), k)
  {
    LengthAscends(c, d);
    if |Utf8(c)| < |Utf8(d)| {
      LongerIsGreater(c, d);
      k := 0;
    } else if d < 0x80 {
      k := 0;
    } else if d < 0x800 {
      k := TwoBytesPart(c, d);
    } else if d < 0x1_0000 {
      k := ThreeBytesPart(c, d);
    } else {
      k := FourBytesPart(c, d);
    }
  }

  /** Numbers in order, equal above their low digits to base 64, differ first in the higher of the two. */
  lemma ThreeBytes(c: int, d: int)
    requires 0 <= c <= d && c / 64 / 64 == d / 64 / 64
    ensures c / 64 % 64 <= d / 64 % 64
    ensures c / 64 % 64 == d / 64 % 64 ==> c / 64 == d / 64 && c % 64 <= d % 64
  {
  }

  lemma {:induction false} BytesKeepOrder(a: seq<int>, b: seq<int>)
    requires AreScalars(a) && AreScalars(b)
    ensures Strcmp(Encode(a), Encode(b)) == Sign(FirstDifference(a, b))
  {
    if a != [] && b != [] {
      if a[0] == b[0] {
        SharedPrefix(Utf8(a[0]), Encode(a[1..]), Encode(b[1..]));
        BytesKeepOrder(a[1..], b[1..]);
      } else if a[0] < b[0] {
        var k := EncodingsPart(a[0], b[0]);
        PartedOrder(Utf8(a[0]), Utf8(b[0]), k, Encode(a[1..]), Encode(b[1..]));
      } else {
        var k := EncodingsPart(b[0], a[0]);
        PartedOrder(Utf8(b[0]), Utf8(a[0]), k, Encode(b[1..]), Encode(a[1..]));
        Antisymmetry(Encode(a), Encode(b));
      }
    }
  }

  lemma {:induction false} Antisymmetry(a: seq<int>, b: seq<int>)
    ensures FirstDifference(a, b) == -FirstDifference(b, a)
  {
    if a != [] && b != [] {
      Antisymmetry(a[1..], b[1..]);
    }
  }

  /** The two servers order every two well-formed targets alike. */
  lemma ServersOrderTargetsAlike(a: Text, b: Text)
    requires IsWellFormed(a) && IsWellFormed(b)
    ensures AreScalars(CodePoints(a)) && AreScalars(CodePoints(b))
    ensures Strcmp(Encode(CodePoints(a)), Encode(CodePoints(b))) == Sign(FirstDifference(CodePoints(a), CodePoints(b)))
  {
    WellFormedIsScalars(a);
    WellFormedIsScalars(b);
    BytesKeepOrder(CodePoints(a), CodePoints(b));
  }
}
