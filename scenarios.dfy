// Concrete rounds, stated against the turn loop and the board display. The
// word and the typed characters are parameters pinned to literals by the
// preconditions rather than literals in the contracts: on literal arguments the
// verifier unrolls Run and Render on its own, which is costly, while here the
// rounds follow from the general lemmas about the loop (RunWinsOnHits,
// RunLosesOnMisses) and the board.
module Scenarios {
  import opened Letters
  import opened Board
  import opened Game

  /** Guessing C, A, T on "CAT" wins with every position revealed and no strikes. */
  lemma CatWon(word: seq<char>, guesses: seq<char>)
    requires word == "CAT" && guesses == "CAT"
    ensures var r := Run(word, 3, Start(word), guesses);
      r.state == RoundState([1, 1, 1], 0) && AllGuessed(word, r.state.guessed)
  {
    var s0 := Start(word);
    forall k | 0 <= k < 3 ensures IsLetter(guesses[k]) && Matches(word, ToUpper(guesses[k])) {
      assert ToUpper(word[k]) == ToUpper(guesses[k]);
    }
    forall i | 0 <= i < 3 && word[i] != ' ' && s0.guessed[i] == 0
      ensures exists k :: 0 <= k < |guesses| && ToUpper(guesses[k]) == ToUpper(word[i])
    {
      assert ToUpper(guesses[i]) == ToUpper(word[i]);
    }
    RunWinsOnHits(word, 3, s0, guesses);
    RunEnds(word, 3, s0, guesses);
    var m := Run(word, 3, s0, guesses).state.guessed;
    assert m == [1, 1, 1] by {
      forall i | 0 <= i < 3 ensures m[i] == 1 {
        assert word[i] != ' ';
      }
    }
  }

  /** Guessing X, Y, Z on "CAT" with three strikes allowed loses after three strikes with nothing revealed. */
  lemma CatLost(word: seq<char>, guesses: seq<char>)
    requires word == "CAT" && guesses == "XYZ"
    ensures var r := Run(word, 3, Start(word), guesses);
      r == Ending(RoundState([0, 0, 0], 3), []) && !AllGuessed(word, r.state.guessed)
  {
    var s0 := Start(word);
    assert s0.guessed == [0, 0, 0];
    assert !AllGuessed(word, s0.guessed) by {
      assert word[0] != ' ' && s0.guessed[0] == 0;
    }
    assert forall k :: 0 <= k < |guesses| ==> IsLetter(guesses[k]) && !Matches(word, ToUpper(guesses[k])) by {
      forall k, i | 0 <= k < 3 && 0 <= i < 3 ensures ToUpper(word[i]) != ToUpper(guesses[k]) {
      }
    }
    RunLosesOnMisses(word, 3, s0, guesses);
    assert guesses[3..] == [];
  }

  /**
   * Once the strike limit stops the loop, order matters. With one strike
   * allowed on "CAT", X then C ends after the X, leaving the C unread and
   * every position hidden ...
   */
  lemma CatMissFirst(word: seq<char>, inputs: seq<char>)
    requires word == "CAT" && inputs == "XC"
    ensures Run(word, 1, Start(word), inputs) == Ending(RoundState([0, 0, 0], 1), inputs[1..])
  {
    var s0 := Start(word);
    assert s0.guessed == [0, 0, 0];
    assert InPlay(word, 1, s0) by {
      assert word[0] != ' ' && s0.guessed[0] == 0;
    }
    TurnReveals(word, s0, inputs[0]);
    assert !Matches(word, ToUpper(inputs[0])) by {
      forall i | 0 <= i < 3 ensures ToUpper(word[i]) != ToUpper(inputs[0]) {
      }
    }
    var s1 := Turn(word, s0, inputs[0]).state;
    assert s1 == RoundState([0, 0, 0], 1);
    assert Run(word, 1, s0, inputs) == Run(word, 1, s1, inputs[1..]);
  }

  /** ... while C then X reveals the C before the X ends the round. */
  lemma CatHitFirst(word: seq<char>, inputs: seq<char>)
    requires word == "CAT" && inputs == "CX"
    ensures Run(word, 1, Start(word), inputs).state.guessed[0] == 1
  {
    var s0 := Start(word);
    assert InPlay(word, 1, s0) by {
      assert word[0] != ' ' && s0.guessed[0] == 0;
    }
    TurnReveals(word, s0, inputs[0]);
    var t1 := Turn(word, s0, inputs[0]).state;
    assert t1.guessed[0] == 1 by {
      assert ToUpper(word[0]) == ToUpper(inputs[0]);
    }
    var rest := inputs[1..];
    assert Run(word, 1, s0, inputs) == Run(word, 1, t1, rest);
    RunIsFeedOfConsumed(word, 1, t1, rest);
    FeedReveals(word, t1, rest[..|rest| - |Run(word, 1, t1, rest).rest|]);
  }

  /** The board of the lost round hides every letter of "CAT". */
  lemma CatLostBoard(word: seq<char>)
    requires word == "CAT"
    ensures Render(word, [0, 0, 0]) == "***\n"
  {
    RenderHidden(word, [0, 0, 0]);
  }

  /** Guessing c on "ICE CREAM" reveals both C's, and nothing else, without a strike. */
  lemma IceCreamRevealsBothCs(word: seq<char>)
    requires word == "ICE CREAM"
    ensures Turn(word, Start(word), 'c') == Step(RoundState(IceCreamAfterC, 0), Hit('C'))
  {
    var s0 := Start(word);
    var r := Turn(word, s0, 'c');
    assert Binary(s0.guessed);
    TurnReveals(word, s0, 'c');
    DuplicateCheckNeverFires(word, s0, 'c');
    forall i | 0 <= i < 9 ensures r.state.guessed[i] == IceCreamAfterC[i] {
      assert ToUpper(word[i]) == 'C' <==> i == 1 || i == 4;
    }
    assert Matches(word, 'C') by { assert ToUpper(word[1]) == 'C'; }
  }

  /** The mask after guessing c on "ICE CREAM". */
  const IceCreamAfterC: seq<int> := [0, 1, 0, 0, 1, 0, 0, 0, 0]

  /** That board shows the two C's, keeps the space and hides the rest. */
  lemma IceCreamBoard(word: seq<char>)
    requires word == "ICE CREAM"
    ensures Render(word, IceCreamAfterC) == "*C* C****\n"
  {
    var b := Render(word, IceCreamAfterC);
    forall i | 0 <= i < 10 ensures b[i] == "*C* C****\n"[i] {
    }
  }
}
