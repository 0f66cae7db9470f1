// One round of the game: the secret word, the revealed-positions mask and the
// strike count, the step that processes one typed character, and the turn loop
// that repeats that step while the round is still in play.
//
// The pure functions below (Turn, Feed, Run) state what a turn and a sequence
// of turns do; the class Round performs the same steps in place on an int array
// and is proved against them.
module Game {
  import opened Letters
  import opened Board

  /** The mutable part of a round: the mask and the number of strikes so far. */
  datatype RoundState = RoundState(guessed: seq<int>, strikes: int)

  /** How a turn classified the typed character (the message it leads to). */
  datatype Outcome =
    | NotALetter(shown: char)       // rejected, state unchanged
    | AlreadyGuessed(letter: char)  // rejected by the duplicate check, state unchanged
    | Hit(letter: char)             // at least one position matched
    | Miss(letter: char)            // nothing matched, one more strike

  datatype Step = Step(state: RoundState, outcome: Outcome)

  /** Where the turn loop stopped and which inputs it did not read. */
  datatype Ending = Ending(state: RoundState, rest: seq<char>)

  /** The state at the start of a round: nothing revealed, no strikes. */
  function Start(word: seq<char>): (s: RoundState)
    ensures |s.guessed| == |word| && s.strikes == 0
    ensures forall i :: 0 <= i < |word| ==> s.guessed[i] == 0
  {
    RoundState(seq(|word|, _ => 0), 0)
  }

  /** Every mask entry is a 0/1 flag. */
  predicate Binary(mask: seq<int>) {
    forall i :: 0 <= i < |mask| ==> mask[i] == 0 || mask[i] == 1
  }

  /** Some position of the word upper-cases to the letter g. */
  predicate Matches(word: seq<char>, g: char) {
    exists i :: 0 <= i < |word| && ToUpper(word[i]) == g
  }

  /** The duplicate check as the turn performs it: some mask entry equals the character code of g. */
  predicate HoldsCode(mask: seq<int>, g: char): (b: bool)
    ensures b <==> g as int in mask
    ensures Binary(mask) && g as int > 1 ==> !b
  {
    exists i :: 0 <= i < |mask| && mask[i] == g as int
  }

  /** The match scan: every position whose upper-cased character is g is set to 1. */
  function Mark(word: seq<char>, mask: seq<int>, g: char): (r: seq<int>)
    requires |mask| == |word|
    ensures |r| == |mask|
    ensures forall i :: 0 <= i < |r| && ToUpper(word[i]) == g ==> r[i] == 1
    ensures forall i :: 0 <= i < |r| && ToUpper(word[i]) != g ==> r[i] == mask[i]
  {
    seq(|mask|, i requires 0 <= i < |mask| => if ToUpper(word[i]) == g then 1 else mask[i])
  }

  /** The round's loop condition: strikes left and a hidden letter left. */
  predicate InPlay(word: seq<char>, maxStrikes: int, s: RoundState): (b: bool)
    requires |s.guessed| == |word|
    ensures b <==> s.strikes < maxStrikes && exists i :: 0 <= i < |word| && word[i] != ' ' && s.guessed[i] == 0
  {
    s.strikes < maxStrikes && !AllGuessed(word, s.guessed)
  }

  /** One turn: upper-case the input, reject non-letters and duplicates, reveal matches, strike on a miss. */
  function Turn(word: seq<char>, s: RoundState, input: char): (r: Step)
    requires |s.guessed| == |word|
    ensures |r.state.guessed| == |word|
  {
    var g := ToUpper(input);
    if !IsLetter(g) then Step(s, NotALetter(g))
    else if HoldsCode(s.guessed, g) then Step(s, AlreadyGuessed(g))
    else
      var mask := Mark(word, s.guessed, g);
      if Matches(word, g) then Step(RoundState(mask, s.strikes), Hit(g))
      else Step(RoundState(mask, s.strikes + 1), Miss(g))
  }

  /** Applies one turn per input, in order, without ever stopping. */
  function Feed(word: seq<char>, s: RoundState, inputs: seq<char>): (r: RoundState)
    requires |s.guessed| == |word|
    ensures |r.guessed| == |word|
    decreases |inputs|
  {
    if inputs == [] then s else Feed(word, Turn(word, s, inputs[0]).state, inputs[1..])
  }

  /** The turn loop: one turn per input while the round is in play and input remains. */
  function Run(word: seq<char>, maxStrikes: int, s: RoundState, inputs: seq<char>): (r: Ending)
    requires |s.guessed| == |word|
    ensures |r.state.guessed| == |word|
    ensures |r.rest| <= |inputs| && r.rest == inputs[|inputs| - |r.rest|..]
    decreases |inputs|
  {
    if inputs == [] || !InPlay(word, maxStrikes, s) then Ending(s, inputs)
    else Run(word, maxStrikes, Turn(word, s, inputs[0]).state, inputs[1..])
  }

  /** The number of inputs that are letters matching no position of the word. */
  function Misses(word: seq<char>, inputs: seq<char>): nat
    decreases |inputs|
  {
    if inputs == [] then 0
    else (if IsLetter(inputs[0]) && !Matches(word, ToUpper(inputs[0])) then 1 else 0) + Misses(word, inputs[1..])
  }

  // ---------------------------------------------------------------------------
  // Properties of a single turn

  /** A character that is not a letter once upper-cased changes nothing. */
  lemma TurnRejectsNonLetter(word: seq<char>, s: RoundState, input: char)
    requires |s.guessed| == |word|
    requires !IsLetter(ToUpper(input))
    ensures Turn(word, s, input) == Step(s, NotALetter(ToUpper(input)))
  {
  }

  /**
   * The duplicate check never fires on a 0/1 mask: it compares the letter's
   * character code with the flags, and no letter has code 0 or 1.
   */
  lemma DuplicateCheckNeverFires(word: seq<char>, s: RoundState, input: char)
    requires |s.guessed| == |word| && Binary(s.guessed)
    ensures !Turn(word, s, input).outcome.AlreadyGuessed?
  {
    var g := ToUpper(input);
    if IsLetter(g) {
      assert g as int >= 'A' as int;
      assert !HoldsCode(s.guessed, g);
    }
  }

  /**
   * On a 0/1 mask a letter sets exactly the matching positions to 1 and leaves
   * the others alone; the mask stays 0/1 and no reveal is cleared. The strike
   * count grows by one exactly when nothing matched.
   */
  lemma TurnReveals(word: seq<char>, s: RoundState, input: char)
    requires |s.guessed| == |word| && Binary(s.guessed)
    ensures var r := Turn(word, s, input).state;
      && Binary(r.guessed)
      && (forall i :: 0 <= i < |word| ==>
            r.guessed[i] == if IsLetter(input) && ToUpper(word[i]) == ToUpper(input) then 1 else s.guessed[i])
      && (forall i :: 0 <= i < |word| && s.guessed[i] != 0 ==> r.guessed[i] != 0)
      && r.strikes == s.strikes + if IsLetter(input) && !Matches(word, ToUpper(input)) then 1 else 0
  {
    IsLetterToUpper(input);
    DuplicateCheckNeverFires(word, s, input);
  }

  /** Guessing a letter that was just a hit again changes nothing and is a hit again. */
  lemma RepeatedHitHasNoEffect(word: seq<char>, s: RoundState, input: char)
    requires |s.guessed| == |word| && Binary(s.guessed)
    requires Turn(word, s, input).outcome.Hit?
    ensures var r := Turn(word, s, input).state;
      Turn(word, r, input) == Step(r, Hit(ToUpper(input)))
  {
    var r := Turn(word, s, input).state;
    TurnReveals(word, s, input);
    DuplicateCheckNeverFires(word, r, input);
    assert Mark(word, r.guessed, ToUpper(input)) == r.guessed;
  }

  /** Guessing a letter that was just a miss again costs one more strike. */
  lemma RepeatedMissCostsStrike(word: seq<char>, s: RoundState, input: char)
    requires |s.guessed| == |word| && Binary(s.guessed)
    requires Turn(word, s, input).outcome.Miss?
    ensures var r := Turn(word, s, input).state;
      r.guessed == s.guessed && Turn(word, r, input) == Step(RoundState(s.guessed, s.strikes + 2), Miss(ToUpper(input)))
  {
    var r := Turn(word, s, input).state;
    assert Mark(word, s.guessed, ToUpper(input)) == s.guessed;
    DuplicateCheckNeverFires(word, r, input);
  }

  // ---------------------------------------------------------------------------
  // Properties of a sequence of turns

  /**
   * After any sequence of turns from a 0/1 mask, a position is revealed exactly
   * when it already was or some input letter upper-cases to its character.
   */
  lemma {:induction false} FeedReveals(word: seq<char>, s: RoundState, inputs: seq<char>)
    requires |s.guessed| == |word| && Binary(s.guessed)
    ensures Binary(Feed(word, s, inputs).guessed)
    ensures forall i :: 0 <= i < |word| ==>
      (Feed(word, s, inputs).guessed[i] != 0 <==>
        s.guessed[i] != 0 || exists k :: 0 <= k < |inputs| && IsLetter(inputs[k]) && ToUpper(inputs[k]) == ToUpper(word[i]))
    decreases |inputs|
  {
    if inputs != [] {
      var t := Turn(word, s, inputs[0]).state;
      TurnReveals(word, s, inputs[0]);
      FeedReveals(word, t, inputs[1..]);
      forall i | 0 <= i < |word|
        ensures Feed(word, s, inputs).guessed[i] != 0 <==>
          s.guessed[i] != 0 || exists k :: 0 <= k < |inputs| && IsLetter(inputs[k]) && ToUpper(inputs[k]) == ToUpper(word[i])
      {
        if exists k :: 0 <= k < |inputs| && IsLetter(inputs[k]) && ToUpper(inputs[k]) == ToUpper(word[i]) {
          var k :| 0 <= k < |inputs| && IsLetter(inputs[k]) && ToUpper(inputs[k]) == ToUpper(word[i]);
          if k > 0 {
            assert inputs[1..][k - 1] == inputs[k];
          }
        }
        if exists k :: 0 <= k < |inputs| - 1 && IsLetter(inputs[1..][k]) && ToUpper(inputs[1..][k]) == ToUpper(word[i]) {
          var k :| 0 <= k < |inputs| - 1 && IsLetter(inputs[1..][k]) && ToUpper(inputs[1..][k]) == ToUpper(word[i]);
          assert inputs[k + 1] == inputs[1..][k];
        }
      }
    }
  }

  /**
   * After any sequence of turns from a 0/1 mask the strikes have grown by the
   * number of wrong letters typed, each repeat of a wrong letter counted again.
   */
  lemma {:induction false} FeedStrikes(word: seq<char>, s: RoundState, inputs: seq<char>)
    requires |s.guessed| == |word| && Binary(s.guessed)
    ensures Feed(word, s, inputs).strikes == s.strikes + Misses(word, inputs)
    decreases |inputs|
  {
    if inputs != [] {
      TurnReveals(word, s, inputs[0]);
      FeedStrikes(word, Turn(word, s, inputs[0]).state, inputs[1..]);
    }
  }

  /**
   * With every turn applied and no stop at the strike limit, the revealed
   * positions, and so completion, depend only on the set of characters typed,
   * not on their order or repetition. The loop itself can stop early, so for
   * Run this holds of the inputs it read (see RunIsFeedOfConsumed), not of all
   * the inputs offered.
   */
  lemma FeedIgnoresOrder(word: seq<char>, inputs1: seq<char>, inputs2: seq<char>)
    requires forall c :: c in inputs1 <==> c in inputs2
    ensures Feed(word, Start(word), inputs1).guessed == Feed(word, Start(word), inputs2).guessed
    ensures AllGuessed(word, Feed(word, Start(word), inputs1).guessed) == AllGuessed(word, Feed(word, Start(word), inputs2).guessed)
  {
    var m1 := Feed(word, Start(word), inputs1).guessed;
    var m2 := Feed(word, Start(word), inputs2).guessed;
    FeedReveals(word, Start(word), inputs1);
    FeedReveals(word, Start(word), inputs2);
    forall i | 0 <= i < |word| ensures m1[i] == m2[i] {
      if exists k :: 0 <= k < |inputs1| && IsLetter(inputs1[k]) && ToUpper(inputs1[k]) == ToUpper(word[i]) {
        var k :| 0 <= k < |inputs1| && IsLetter(inputs1[k]) && ToUpper(inputs1[k]) == ToUpper(word[i]);
        assert inputs1[k] in inputs2;
        var k2 :| 0 <= k2 < |inputs2| && inputs2[k2] == inputs1[k];
      }
      if exists k :: 0 <= k < |inputs2| && IsLetter(inputs2[k]) && ToUpper(inputs2[k]) == ToUpper(word[i]) {
        var k :| 0 <= k < |inputs2| && IsLetter(inputs2[k]) && ToUpper(inputs2[k]) == ToUpper(word[i]);
        assert inputs2[k] in inputs1;
        var k1 :| 0 <= k1 < |inputs1| && inputs1[k1] == inputs2[k];
      }
    }
  }

  // ---------------------------------------------------------------------------
  // Properties of the turn loop

  /** The loop performs exactly the turns of the inputs it read. */
  lemma {:induction false} RunIsFeedOfConsumed(word: seq<char>, maxStrikes: int, s: RoundState, inputs: seq<char>)
    requires |s.guessed| == |word|
    ensures var r := Run(word, maxStrikes, s, inputs);
      r.state == Feed(word, s, inputs[..|inputs| - |r.rest|])
    decreases |inputs|
  {
    var r := Run(word, maxStrikes, s, inputs);
    if inputs == [] || !InPlay(word, maxStrikes, s) {
      assert inputs[..|inputs| - |r.rest|] == [];
    } else {
      var t := Turn(word, s, inputs[0]).state;
      RunIsFeedOfConsumed(word, maxStrikes, t, inputs[1..]);
      var n := |inputs| - |r.rest|;
      assert inputs[..n][1..] == inputs[1..][..n - 1];
    }
  }

  /**
   * Starting within the strike limit, the loop never passes it and never lowers
   * the strikes; if inputs remain unread, the round has ended, either complete
   * or with the strikes at the limit.
   */
  lemma {:induction false} RunEnds(word: seq<char>, maxStrikes: int, s: RoundState, inputs: seq<char>)
    requires |s.guessed| == |word| && Binary(s.guessed)
    requires s.strikes <= maxStrikes
    ensures var r := Run(word, maxStrikes, s, inputs);
      && Binary(r.state.guessed)
      && s.strikes <= r.state.strikes <= maxStrikes
      && (r.rest != [] ==> !InPlay(word, maxStrikes, r.state))
      && (!InPlay(word, maxStrikes, r.state) ==> AllGuessed(word, r.state.guessed) || r.state.strikes == maxStrikes)
    decreases |inputs|
  {
    if inputs != [] && InPlay(word, maxStrikes, s) {
      TurnReveals(word, s, inputs[0]);
      RunEnds(word, maxStrikes, Turn(word, s, inputs[0]).state, inputs[1..]);
    }
  }

  /**
   * Wrong letters only: a round in play that is fed letters matching no
   * position ends after exactly the strikes it had left, whatever is still
   * hidden, with the mask as it was.
   */
  lemma {:induction false} RunLosesOnMisses(word: seq<char>, maxStrikes: int, s: RoundState, inputs: seq<char>)
    requires |s.guessed| == |word| && Binary(s.guessed)
    requires !AllGuessed(word, s.guessed) && s.strikes <= maxStrikes
    requires maxStrikes - s.strikes <= |inputs|
    requires forall k :: 0 <= k < |inputs| ==> IsLetter(inputs[k]) && !Matches(word, ToUpper(inputs[k]))
    ensures Run(word, maxStrikes, s, inputs) == Ending(RoundState(s.guessed, maxStrikes), inputs[maxStrikes - s.strikes..])
    decreases |inputs|
  {
    if s.strikes < maxStrikes {
      var t := Turn(word, s, inputs[0]).state;
      TurnReveals(word, s, inputs[0]);
      assert t.guessed == s.guessed;
      assert inputs[1..][maxStrikes - t.strikes..] == inputs[maxStrikes - s.strikes..];
      RunLosesOnMisses(word, maxStrikes, t, inputs[1..]);
    }
  }

  /**
   * Right letters only: a round with a strike left that is fed letters each
   * occurring in the word, covering every hidden non-space position, ends
   * complete with no new strike.
   */
  lemma {:induction false} RunWinsOnHits(word: seq<char>, maxStrikes: int, s: RoundState, inputs: seq<char>)
    requires |s.guessed| == |word| && Binary(s.guessed) && s.strikes < maxStrikes
    requires forall k :: 0 <= k < |inputs| ==> IsLetter(inputs[k]) && Matches(word, ToUpper(inputs[k]))
    requires forall i :: 0 <= i < |word| && word[i] != ' ' && s.guessed[i] == 0 ==>
      exists k :: 0 <= k < |inputs| && ToUpper(inputs[k]) == ToUpper(word[i])
    ensures var r := Run(word, maxStrikes, s, inputs);
      AllGuessed(word, r.state.guessed) && r.state.strikes == s.strikes
    decreases |inputs|
  {
    if inputs != [] && InPlay(word, maxStrikes, s) {
      var t := Turn(word, s, inputs[0]).state;
      TurnReveals(word, s, inputs[0]);
      forall i | 0 <= i < |word| && word[i] != ' ' && t.guessed[i] == 0
        ensures exists k :: 0 <= k < |inputs| - 1 && ToUpper(inputs[1..][k]) == ToUpper(word[i])
      {
        var k :| 0 <= k < |inputs| && ToUpper(inputs[k]) == ToUpper(word[i]);
        assert k != 0;
        assert ToUpper(inputs[1..][k - 1]) == ToUpper(word[i]);
      }
      RunWinsOnHits(word, maxStrikes, t, inputs[1..]);
    }
  }

  // ---------------------------------------------------------------------------
  // The round as the program holds it: a word, a strike limit, an int array
  // mask updated in place and a strike counter.

  class Round {
    const word: seq<char>
    const maxStrikes: int
    var guessed: array<int>
    var strikes: int

    ghost predicate Valid()
      reads this
    {
      guessed.Length == |word| && 0 <= strikes <= maxStrikes
    }

    ghost function State(): RoundState
      reads this, guessed
    {
      RoundState(guessed[..], strikes)
    }

    /** Allocates the mask, clears it entry by entry and starts with no strikes. */
    constructor (word: seq<char>, maxStrikes: int)
      requires 0 <= maxStrikes
      ensures Valid() && fresh(guessed) && Binary(guessed[..])
      ensures this.word == word && this.maxStrikes == maxStrikes
      ensures State() == Start(word)
    {
      this.word := word;
      this.maxStrikes := maxStrikes;
      var mask := new int[|word|];
      var i := 0;
      while i < |word|
        invariant 0 <= i <= |word|
        invariant forall j :: 0 <= j < i ==> mask[j] == 0
      {
        mask[i] := 0;
        i := i + 1;
      }
      guessed := mask;
      strikes := 0;
    }

    /** The loop condition of the turn loop, read from the fields. */
    function Playing(): (b: bool)
      reads this, guessed
      requires Valid()
      ensures b == InPlay(word, maxStrikes, State())
    {
      strikes < maxStrikes && !AllGuessed(word, guessed[..])
    }

    /** One turn on the typed character, updating the mask and the strikes in place. */
    method Guess(input: char) returns (outcome: Outcome)
      requires Valid() && Playing()
      modifies guessed, this`strikes
      ensures Valid()
      ensures Step(State(), outcome) == Turn(word, old(State()), input)
      ensures Binary(old(guessed[..])) ==> Binary(guessed[..])
    {
      if Binary(guessed[..]) {
        TurnReveals(word, State(), input);
      }
      var g := ToUpper(input);
      if !IsLetter(g) {
        return NotALetter(g);
      }

      var alreadyGuessed := false;
      for i := 0 to guessed.Length
        invariant guessed[..] == old(guessed[..]) && strikes == old(strikes)
        invariant alreadyGuessed <==> exists j :: 0 <= j < i && guessed[j] == g as int
      {
        if g as int == guessed[i] {
          alreadyGuessed := true;
        }
      }
      if alreadyGuessed {
        return AlreadyGuessed(g);
      }

      var correctGuess := false;
      for i := 0 to guessed.Length
        invariant strikes == old(strikes)
        invariant forall j :: 0 <= j < i ==> guessed[j] == if ToUpper(word[j]) == g then 1 else old(guessed[j])
        invariant forall j :: i <= j < guessed.Length ==> guessed[j] == old(guessed[j])
        invariant correctGuess <==> exists j :: 0 <= j < i && ToUpper(word[j]) == g
      {
        if ToUpper(word[i]) == g {
          guessed[i] := 1;
          correctGuess := true;
        }
      }
      assert guessed[..] == Mark(word, old(guessed[..]), g);

      if !correctGuess {
        strikes := strikes + 1;
        outcome := Miss(g);
      } else {
        outcome := Hit(g);
      }
    }

    /** The turn loop, reading one character per turn from inputs until the round ends or inputs run out. */
    method Play(inputs: seq<char>) returns (rest: seq<char>)
      requires Valid()
      modifies guessed, this`strikes
      ensures Valid()
      ensures Ending(State(), rest) == Run(word, maxStrikes, old(State()), inputs)
      ensures Binary(old(guessed[..])) ==> Binary(guessed[..])
    {
      if Binary(guessed[..]) {
        RunEnds(word, maxStrikes, State(), inputs);
      }
      rest := inputs;
      while rest != [] && Playing()
        invariant Valid()
        invariant Run(word, maxStrikes, State(), rest) == Run(word, maxStrikes, old(State()), inputs)
        decreases |rest|
      {
        var _ := Guess(rest[0]);
        rest := rest[1..];
      }
    }
  }
}
