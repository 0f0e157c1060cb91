/** Text as the source's strings hold it: a sequence of UTF-16 code units. */
module Texts {
  import opened Wrappers

  type CodeUnit = u: int | 0 <= u < 0x1_0000

  type Text = seq<CodeUnit>

  predicate IsAscii(s: string) {
    forall i :: 0 <= i < |s| ==> s[i] as int < 0x80
  }

  /** The text of a string of ASCII characters; any other character stands as U+FFFD. */
  function TextOf(s: string): (t: Text)
    ensures |t| == |s|
    ensures forall i :: 0 <= i < |s| && s[i] as int < 0x80 ==> t[i] == s[i] as int
  {
    seq(|s|, i requires 0 <= i < |s| => if s[i] as int < 0x80 then s[i] as int else 0xFFFD)
  }

  /** The string of a text that is all ASCII. */
  function StringOf(t: Text): (s: Option<string>)
    ensures s.Some? ==> |s.value| == |t| && IsAscii(s.value)
    ensures s.Some? ==> forall i :: 0 <= i < |t| ==> s.value[i] as int == t[i]
    ensures s.None? <==> exists i :: 0 <= i < |t| && t[i] >= 0x80
  {
    if exists i :: 0 <= i < |t| && t[i] >= 0x80 then None
    else Some(seq(|t|, i requires 0 <= i < |t| => t[i] as char))
  }
}
