/** The string checks `validate_guess` applies to a raw guess: `str.isalpha`
    and `str.upper`, restricted to ASCII letters. */
module Text {

  predicate IsLetter(c: char) {
    'A' <= c <= 'Z' || 'a' <= c <= 'z'
  }

  predicate IsUpperLetter(c: char) {
    'A' <= c <= 'Z'
  }

  /** `str.isalpha`: non-empty and made of letters only. */
  predicate IsAlpha(s: string) {
    |s| > 0 && forall i :: 0 <= i < |s| ==> IsLetter(s[i])
  }

  /** A word is alphabetic exactly when it has a character and every
      character it contains is a letter. */
  lemma IsAlphaLetters(s: string)
    ensures IsAlpha(s) <==> s != [] && forall c :: c in s ==> IsLetter(c)
  {
  }

  /** The upper-case partner of a lower-case letter; every other character is kept. */
  function UpperChar(c: char): (u: char)
    ensures IsLetter(u) <==> IsLetter(c)
    ensures IsLetter(c) ==> IsUpperLetter(u)
    ensures 'a' <= c <= 'z' ==> u as int - 'A' as int == c as int - 'a' as int
    ensures !('a' <= c <= 'z') ==> u == c
  {
    if 'a' <= c <= 'z' then (c as int - 'a' as int + 'A' as int) as char else c
  }

  /** `str.upper`, character by character. */
  function Upper(s: string): (r: string)
    ensures |r| == |s|
    ensures forall i :: 0 <= i < |s| ==> r[i] == UpperChar(s[i])
    ensures IsAlpha(r) <==> IsAlpha(s)
    ensures IsAlpha(s) ==> forall i :: 0 <= i < |r| ==> IsUpperLetter(r[i])
  {
    seq(|s|, i requires 0 <= i < |s| => UpperChar(s[i]))
  }
}
