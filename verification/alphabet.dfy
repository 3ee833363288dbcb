/** The 26-letter alphabet A=0 ... Z=25 and the ASCII reading of Python's
    `str.upper()` and `str.isalpha()` that both implementations rely on. */
module Alphabet {

  predicate IsUpperLetter(c: char)
  {
    'A' <= c <= 'Z'
  }

  predicate IsLowerLetter(c: char)
  {
    'a' <= c <= 'z'
  }

  /** `c.upper()` on ASCII: lower-case letters move to upper case, every
      other character is unchanged. */
  function ToUpper(c: char): (u: char)
    ensures IsLowerLetter(c) ==> IsUpperLetter(u)
    ensures IsLowerLetter(c) ==> u as int == c as int - ('a' as int - 'A' as int)
    ensures !IsLowerLetter(c) ==> u == c
    ensures !IsLowerLetter(u)
  {
    if IsLowerLetter(c) then (c as int - 32) as char else c
  }

  /** `text.upper()`, character by character. */
  function UpperText(s: string): (u: string)
    ensures |u| == |s|
    ensures forall i :: 0 <= i < |s| ==> u[i] == ToUpper(s[i])
    ensures forall i :: 0 <= i < |u| ==> !IsLowerLetter(u[i])
  {
    seq(|s|, i requires 0 <= i < |s| => ToUpper(s[i]))
  }

  /** `c.isalpha()` for a character of the upper-cased text. */
  predicate IsAlpha(c: char)
  {
    IsUpperLetter(ToUpper(c))
  }

  /** On ASCII, the alphabetic characters are the letters of either case. */
  lemma AlphaIsLetter(c: char)
    ensures IsAlpha(c) <==> IsUpperLetter(c) || IsLowerLetter(c)
  {
  }

  /** `ord(c) - ord('A')` for an upper-case letter. */
  function Index(c: char): (p: nat)
    requires IsUpperLetter(c)
    ensures p < 26
  {
    c as int - 'A' as int
  }

  /** `chr(p + ord('A'))` for an index of the alphabet. */
  function Letter(p: nat): (c: char)
    requires p < 26
    ensures IsUpperLetter(c) && Index(c) == p
  {
    (p + 'A' as int) as char
  }

  lemma LetterOfIndex(c: char)
    requires IsUpperLetter(c)
    ensures Letter(Index(c)) == c
  {
  }

  lemma UpperTextIdempotent(s: string)
    ensures UpperText(UpperText(s)) == UpperText(s)
  {
  }
}
