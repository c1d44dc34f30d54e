/** ASCII character helpers used by the engine: letter tests, lower-casing
    and the placeholder that hides an unguessed letter. Letters are the
    ASCII letters only; `str.lower()` is modelled on ASCII. */
module Chars {

  /** The character shown in place of a letter that has not been guessed. */
  const Placeholder: char := '_'

  predicate IsLower(c: char) {
    'a' <= c <= 'z'
  }

  predicate IsUpper(c: char) {
    'A' <= c <= 'Z'
  }

  predicate IsLetter(c: char) {
    IsLower(c) || IsUpper(c)
  }

  /** ASCII lower-casing of one character; every other character is kept. */
  function Lower(c: char): (r: char)
    ensures IsLetter(c) ==> IsLower(r)
    ensures !IsUpper(c) ==> r == c
    ensures IsLetter(r) <==> IsLetter(c)
    ensures IsUpper(c) ==> r as int == c as int + 32
  {
    if IsUpper(c) then (c as int - 'A' as int + 'a' as int) as char else c
  }

  /** Lower-casing of a whole string, position by position. */
  function LowerAll(s: string): (r: string)
    ensures |r| == |s|
    ensures forall i :: 0 <= i < |s| ==> r[i] == Lower(s[i])
  {
    seq(|s|, i requires 0 <= i < |s| => Lower(s[i]))
  }

  /** The maskability test: the lower-cased character is one of a-z. The
      result says it is exactly the ASCII letters that get masked. */
  function MaskChar(c: char): (r: bool)
    ensures r <==> IsLetter(c)
    ensures r ==> c != Placeholder
  {
    IsLower(Lower(c))
  }

  /** The guess validation: non-empty, exactly one character, and that
      character lower-cases to one of a-z. */
  function ValidGuess(letter: string): (r: bool)
    ensures r <==> |letter| == 1 && IsLetter(letter[0])
    ensures r ==> IsLower(Lower(letter[0]))
  {
    letter != [] && |letter| == 1 && IsLower(Lower(letter[0]))
  }
}
