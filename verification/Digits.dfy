/** Decimal digits: fixed-width numbers and fractions, written and read back. */
module Digits {

  predicate IsDigit(c: char) {
    '0' <= c <= '9'
  }

  predicate IsDigits(s: string) {
    forall i :: 0 <= i < |s| ==> IsDigit(s[i])
  }

  function Pow10(n: nat): (r: nat)
    ensures r > 0
  {
    if n == 0 then 1 else 10 * Pow10(n - 1)
  }

  lemma PowersOfTen()
    ensures Pow10(2) == 100 && Pow10(4) == 10_000 && Pow10(6) == 1_000_000 && Pow10(9) == 1_000_000_000
  {
    assert Pow10(0) == 1;
    assert Pow10(1) == 10 * Pow10(0);
    assert Pow10(2) == 10 * Pow10(1);
    assert Pow10(3) == 10 * Pow10(2);
    assert Pow10(4) == 10 * Pow10(3);
    assert Pow10(5) == 10 * Pow10(4);
    assert Pow10(6) == 10 * Pow10(5);
    assert Pow10(7) == 10 * Pow10(6);
    assert Pow10(8) == 10 * Pow10(7);
    assert Pow10(9) == 10 * Pow10(8);
  }

  /** The number a run of digits names. */
  function Number(s: string): nat
    requires IsDigits(s)
  {
    if s == "" then 0 else 10 * Number(s[..|s| - 1]) + (s[|s| - 1] - '0') as int
  }

  /** `n` in exactly `width` digits, zeros first; its low digits when it is too wide. */
  function Pad(n: nat, width: nat): (s: string)
    ensures |s| == width && IsDigits(s)
  {
    if width == 0 then "" else Pad(n / 10, width - 1) + [DigitOf(n % 10)]
  }

  function DigitOf(d: nat): (c: char)
    requires d < 10
    ensures IsDigit(c) && (c - '0') as int == d
  {
    '0' + d as char
  }

  lemma {:induction false} NumberOfPad(n: nat, width: nat)
    requires n < Pow10(width)
    ensures Number(Pad(n, width)) == n
  {
    if width > 0 {
      NumberOfPad(n / 10, width - 1);
      assert Pad(n, width)[..width - 1] == Pad(n / 10, width - 1);
    }
  }

  lemma {:induction false} PadOfNumber(s: string)
    requires IsDigits(s)
    ensures Number(s) < Pow10(|s|)
    ensures Pad(Number(s), |s|) == s
  {
    if s != "" {
      PadOfNumber(s[..|s| - 1]);
      assert s == s[..|s| - 1] + [s[|s| - 1]];
    }
  }

  /** The digits without the zeros that end them. */
  function TrimZeros(s: string): (t: string)
    ensures |t| <= |s|
    ensures t == "" || t[|t| - 1] != '0'
    ensures IsDigits(s) ==> IsDigits(t)
  {
    if s != "" && s[|s| - 1] == '0' then TrimZeros(s[..|s| - 1]) else s
  }

  /** The digits followed by zeros up to the width; unchanged when already as wide. */
  function PadRight(s: string, width: nat): (t: string)
    ensures IsDigits(s) ==> IsDigits(t)
    ensures |s| <= width ==> |t| == width
    ensures |s| <= |t| && t[..|s|] == s
    decreases width - |s|
  {
    if |s| < width then PadRight(s + "0", width) else s
  }

  lemma {:induction false} PadRightOfTrim(s: string)
    ensures PadRight(TrimZeros(s), |s|) == s
  {
    if s != "" && s[|s| - 1] == '0' {
      PadRightOfTrim(s[..|s| - 1]);
      PadRightOnce(TrimZeros(s), |s| - 1);
      assert s == s[..|s| - 1] + "0";
    }
  }

  lemma {:induction false} PadRightOnce(s: string, width: nat)
    requires |s| <= width
    ensures PadRight(s, width + 1) == PadRight(s, width) + "0"
    decreases width - |s|
  {
    if |s| < width {
      PadRightOnce(s + "0", width);
    }
  }
}
