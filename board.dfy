// The revealed-positions board of one round. A word is the characters of the
// secret string before its terminating NUL; the mask `guessed` holds one C int
// per word position, and a position counts as revealed when its entry is not 0.
// Space positions are separators: always shown and never needed to win.
module Board {

  /** Completion check: every non-space position has a non-zero mask entry. */
  function AllGuessed(word: seq<char>, guessed: seq<int>): (r: bool)
    requires |guessed| == |word|
    ensures r <==> forall i :: 0 <= i < |word| && word[i] != ' ' ==> guessed[i] != 0
  {
    AllGuessedFrom(word, guessed, 0)
  }

  /** The scan from position i on, stopping at the first hidden non-space position. */
  function AllGuessedFrom(word: seq<char>, guessed: seq<int>, i: nat): (r: bool)
    requires |guessed| == |word| && i <= |word|
    ensures r <==> forall j :: i <= j < |word| && word[j] != ' ' ==> guessed[j] != 0
    decreases |word| - i
  {
    if i == |word| then true
    else if word[i] != ' ' && guessed[i] == 0 then false
    else AllGuessedFrom(word, guessed, i + 1)
  }

  /** What the board shows at one position. */
  function Cell(w: char, g: int): char {
    if w == ' ' then ' ' else if g != 0 then w else '*'
  }

  /** The characters printed for the word positions, one per position. */
  function RenderCells(word: seq<char>, guessed: seq<int>): (r: seq<char>)
    requires |guessed| == |word|
    ensures |r| == |word|
    ensures forall i :: 0 <= i < |word| && word[i] == ' ' ==> r[i] == ' '
    ensures forall i :: 0 <= i < |word| && word[i] != ' ' && guessed[i] != 0 ==> r[i] == word[i]
    ensures forall i :: 0 <= i < |word| && word[i] != ' ' && guessed[i] == 0 ==> r[i] == '*'
  {
    if word == [] then [] else [Cell(word[0], guessed[0])] + RenderCells(word[1..], guessed[1..])
  }

  /** Everything the board display prints: one character per word position, then a newline. */
  function Render(word: seq<char>, guessed: seq<int>): (r: seq<char>)
    requires |guessed| == |word|
    ensures |r| == |word| + 1 && r[|word|] == '\n'
    ensures forall i :: 0 <= i < |word| && word[i] == ' ' ==> r[i] == ' '
    ensures forall i :: 0 <= i < |word| && word[i] != ' ' && guessed[i] != 0 ==> r[i] == word[i]
    ensures forall i :: 0 <= i < |word| && word[i] != ' ' && guessed[i] == 0 ==> r[i] == '*'
  {
    RenderCells(word, guessed) + ['\n']
  }

  /**
   * For a word without asterisks the board shows no placeholder exactly when
   * the round is complete, so the display and the completion check agree.
   */
  lemma RenderShowsCompletion(word: seq<char>, guessed: seq<int>)
    requires |guessed| == |word|
    requires '*' !in word
    ensures AllGuessed(word, guessed) <==> '*' !in Render(word, guessed)
  {
    var r := Render(word, guessed);
    if !AllGuessed(word, guessed) {
      var i :| 0 <= i < |word| && word[i] != ' ' && guessed[i] == 0;
      assert r[i] == '*';
    } else {
      forall i | 0 <= i < |r| ensures r[i] != '*' {
        if i < |word| {
          assert word[i] in word;
        }
      }
    }
  }

  /** Rendering a mask that reveals nothing shows only placeholders and spaces. */
  lemma RenderHidden(word: seq<char>, guessed: seq<int>)
    requires |guessed| == |word|
    requires forall i :: 0 <= i < |guessed| ==> guessed[i] == 0
    ensures forall i :: 0 <= i < |word| ==> Render(word, guessed)[i] == (if word[i] == ' ' then ' ' else '*')
  {
  }
}
