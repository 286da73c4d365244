/**
 * Simple per-character case mapping standing in for Python's `str.upper()`
 * and `str.lower()`: the ASCII letters change case, every other character
 * is kept, and the length of a string never changes.
 */
module Casing {

  import opened Strings

  predicate IsLowerLetter(c: char) { 'a' <= c <= 'z' }

  predicate IsUpperLetter(c: char) { 'A' <= c <= 'Z' }

  function UpperChar(c: char): (u: char)
    ensures !IsLowerLetter(u)
    ensures IsLowerLetter(c) ==> IsUpperLetter(u) && u as int - 'A' as int == c as int - 'a' as int
    ensures IsLowerLetter(c) || u == c
    ensures IsSpace(u) <==> IsSpace(c)
    ensures LowerChar(u) == LowerChar(c)
  {
    if IsLowerLetter(c) then (c as int - 32) as char else c
  }

  function LowerChar(c: char): (l: char)
    ensures !IsUpperLetter(l)
    ensures IsUpperLetter(c) ==> IsLowerLetter(l) && l as int - 'a' as int == c as int - 'A' as int
    ensures IsUpperLetter(c) || l == c
    ensures IsSpace(l) <==> IsSpace(c)
  {
    if IsUpperLetter(c) then (c as int + 32) as char else c
  }

  /** A letter changed to the other case changes back. */
  lemma CaseRoundTrip(c: char)
    ensures IsLowerLetter(c) ==> LowerChar(UpperChar(c)) == c
    ensures IsUpperLetter(c) ==> UpperChar(LowerChar(c)) == c
  {
  }

  /**
   * `s.upper()`: same length, every character mapped by `UpperChar`, so no
   * lower-case letter is left, every other character is kept, and whitespace
   * stays where `s` has it.
   */
  function Upper(s: String): (r: String)
    ensures |r| == |s|
    ensures forall i :: 0 <= i < |s| ==> r[i] == UpperChar(s[i])
    ensures forall i :: 0 <= i < |s| ==> !IsLowerLetter(r[i])
    ensures forall i :: 0 <= i < |s| ==> IsLowerLetter(s[i]) || r[i] == s[i]
    ensures forall i :: 0 <= i < |s| ==> (IsSpace(r[i]) <==> IsSpace(s[i]))
  {
    seq(|s|, i requires 0 <= i < |s| => UpperChar(s[i]))
  }

  /**
   * `s.lower()`: same length, every character mapped by `LowerChar`, so no
   * upper-case letter is left, every other character is kept, and whitespace
   * stays where `s` has it.
   */
  function Lower(s: String): (r: String)
    ensures |r| == |s|
    ensures forall i :: 0 <= i < |s| ==> r[i] == LowerChar(s[i])
    ensures forall i :: 0 <= i < |s| ==> !IsUpperLetter(r[i])
    ensures forall i :: 0 <= i < |s| ==> IsUpperLetter(s[i]) || r[i] == s[i]
    ensures forall i :: 0 <= i < |s| ==> (IsSpace(r[i]) <==> IsSpace(s[i]))
  {
    seq(|s|, i requires 0 <= i < |s| => LowerChar(s[i]))
  }

  lemma UpperIdempotent(s: String)
    ensures Upper(Upper(s)) == Upper(s)
  {
  }

  lemma LowerIdempotent(s: String)
    ensures Lower(Lower(s)) == Lower(s)
  {
  }
}
