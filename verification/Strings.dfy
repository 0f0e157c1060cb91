/** Splitting a string at a character. */
module Strings {

  /** Where the character first stands; the length of the text when it does not. */
  function IndexOf(s: string, c: char): (i: nat)
    ensures i <= |s|
    ensures forall j :: 0 <= j < i ==> s[j] != c
    ensures i < |s| ==> s[i] == c
  {
    if s == "" || s[0] == c then 0 else 1 + IndexOf(s[1..], c)
  }

  /** The parts of a text between the separators; an empty text is one empty part. */
  function Split(s: string, c: char): (parts: seq<string>)
    ensures parts != []
    decreases |s|
  {
    var at := IndexOf(s, c);
    if at == |s| then [s] else [s[..at]] + Split(s[at + 1..], c)
  }

  lemma IndexOfFirst(s: string, c: char, rest: string)
    requires forall i :: 0 <= i < |s| ==> s[i] != c
    ensures IndexOf(s + [c] + rest, c) == |s|
    ensures IndexOf(s, c) == |s|
  {
    var text := s + [c] + rest;
    assert text[|s|] == c;
    assert forall i :: 0 <= i < |s| ==> text[i] == s[i];
  }

  lemma SplitFirst(s: string, c: char, rest: string)
    requires forall i :: 0 <= i < |s| ==> s[i] != c
    ensures Split(s, c) == [s] && Split(s + [c] + rest, c) == [s] + Split(rest, c)
  {
    IndexOfFirst(s, c, rest);
    var text := s + [c] + rest;
    assert text[..|s|] == s && text[|s| + 1..] == rest;
  }
}
