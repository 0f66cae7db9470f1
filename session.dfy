// The answer to the play-again prompt at the end of a round. The prompt
// accepts Y, y, N and n and asks again on anything else; after an accepted
// answer, a no-answer leaves the outer loop and so does every answer that the
// outer loop's condition, a capital Y, does not admit.
module Session {
  import opened Letters

  /** The answers the play-again prompt accepts without asking again. */
  predicate AcceptedAnswer(c: char): (r: bool)
    ensures r <==> ToUpper(c) == 'Y' || ToUpper(c) == 'N'
  {
    c == 'Y' || c == 'y' || c == 'N' || c == 'n'
  }

  /** As the program is written: whether another game starts after an accepted answer. */
  function ContinuesAsWritten(c: char): (b: bool)
    requires AcceptedAnswer(c)
    ensures b <==> c == 'Y'
  {
    if c == 'n' || c == 'N' then false else c == 'Y'
  }

  /** The lower-case yes is accepted as a yes by the prompt, yet ends the program. */
  lemma LowercaseYesQuits()
    ensures AcceptedAnswer('y') && ToUpper('y') == 'Y' && !ContinuesAsWritten('y')
  {
  }

  /** As evidently intended: every accepted answer except a no starts another game. */
  function Continues(c: char): (b: bool)
    requires AcceptedAnswer(c)
    ensures b <==> ToUpper(c) == 'Y'
  {
    !(c == 'n' || c == 'N')
  }

  /** The intended rule differs from the written one on the lower-case yes only. */
  lemma ContinuesDiffersOnLowercaseYes(c: char)
    requires AcceptedAnswer(c)
    ensures Continues(c) != ContinuesAsWritten(c) <==> c == 'y'
  {
  }
}
