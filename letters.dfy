// Character classification used by the guessing game: upper-casing a typed
// character and deciding whether it is a letter. Only the ASCII letters count;
// every other character passes through ToUpper untouched.
module Letters {

  /** Distance between a lower-case ASCII letter and its capital. */
  const CaseOffset: int := 'a' as int - 'A' as int

  predicate IsCapital(c: char) {
    'A' <= c <= 'Z'
  }

  predicate IsLower(c: char) {
    'a' <= c <= 'z'
  }

  /** Upper-cases a lower-case ASCII letter; every other character is returned as it is. */
  function ToUpper(c: char): (r: char)
    ensures IsLower(c) ==> IsCapital(r) && r as int - 'A' as int == c as int - 'a' as int
    ensures !IsLower(c) ==> r == c
  {
    if IsLower(c) then (c as int - CaseOffset) as char else c
  }

  /** A letter is exactly a character whose upper-case form is a capital. */
  predicate IsLetter(c: char): (r: bool)
    ensures r <==> IsCapital(ToUpper(c))
  {
    IsCapital(c) || IsLower(c)
  }

  lemma ToUpperIdempotent(c: char)
    ensures ToUpper(ToUpper(c)) == ToUpper(c)
  {
  }

  /** Upper-casing neither makes nor unmakes a letter. */
  lemma IsLetterToUpper(c: char)
    ensures IsLetter(ToUpper(c)) == IsLetter(c)
  {
  }

  /** Two letters upper-case to the same capital exactly when they agree up to case. */
  lemma ToUpperIdentifiesCase(c: char, d: char)
    requires IsLetter(c) && IsLetter(d)
    ensures ToUpper(c) == ToUpper(d) <==> c == d || c as int - d as int == CaseOffset || d as int - c as int == CaseOffset
  {
  }
}
