# Hangman round logic in Dafny

A model of the game-round logic of a terminal hangman game written in C
(`hangman.c`). A round holds a secret word, an `int` mask with one entry per
word position (an entry that is not 0 means the position is revealed) and a
strike counter. Each turn reads one character, upper-cases it, rejects it if it
is not a letter, runs a duplicate check, sets the mask to 1 at every position
whose upper-cased character equals the letter, and adds a strike when nothing
matched. The round goes on while the strikes are below the limit and some
non-space position is still hidden.

Files and modules:

- `letters.dfy`, module `Letters`: `to_upper` and `is_letter`.
- `board.dfy`, module `Board`: the completion check `all_guessed` and the
  board display `display_board`, the latter as a function returning the
  characters it prints.
- `game.dfy`, module `Game`: the turn step of `main` as a pure function
  `Turn`, the turn loop as `Run` (fed by a sequence of typed characters in
  place of `scanf`), `Feed` (every turn applied, no stopping), the properties
  of these, and the class `Round`, which holds the mask as an `array<int>` and
  the strikes as a field and performs the turn (`Guess`) and the loop (`Play`)
  in place, proved equal to `Turn` and `Run`.
- `scenarios.dfy`, module `Scenarios`: worked rounds ("CAT" won, "CAT" lost,
  "CAT" with one strike and the same two letters in either order, "ICE CREAM"
  after guessing `c`).
- `session.dfy`, module `Session`: the decision taken on the answer to the
  play-again prompt.

The secret word is the sequence of characters of the C string before its
terminating NUL, so it holds no NUL; the mask has one entry per such character.
The word and the strike limit are parameters; the word list and the limit's
value live in headers that are not part of this model.

Details of the code that the model follows, including two places where the
code's behaviour differs from what its own names suggest:

- The duplicate check sets a flag named `already_guessed` and then prints the
  message `already_guessed_letter` (hangman.c:88-98), so it is evidently
  meant to reject a repeated letter. It compares the letter's character code
  with the mask entries, which the code only ever sets to 0 or 1
  (hangman.c:66-72, 101-106), so it never fires
  (`Game.DuplicateCheckNeverFires`). Repeating a wrong letter costs another
  strike and repeating a right one changes nothing
  (`Game.RepeatedMissCostsStrike`, `Game.RepeatedHitHasNoEffect`).
- The mask entries are C `int`s (hangman.c:67), used as 0/1 flags; the model
  keeps them as `int`, because the duplicate check compares them with a
  character code. That they stay 0/1 is stated by `Game.TurnReveals`,
  `Game.FeedReveals` and the contracts of `Game.Round`.
- `display_board` prints a newline after the cells (hangman.c:21), so
  `Board.Render` returns `|word| + 1` characters.
- The play-again prompt accepts `y` as well as `Y` (hangman.c:128), but the
  outer loop continues only on `Y` (hangman.c:54), so a lower-case `y` ends the
  program (see Findings).

## Model

| member | source | states |
|---|---|---|
| Letters.ToUpper | hangman.c:43-48 | a lower-case ASCII letter becomes the capital at the same place in the alphabet; every other character is returned unchanged |
| Letters.IsLetter | hangman.c:37-39 | a character is a letter exactly when its upper-case form is a capital A to Z |
| Letters.ToUpperIdempotent | hangman.c:43-48 | upper-casing twice is upper-casing once |
| Letters.IsLetterToUpper | hangman.c:37-48 | upper-casing neither makes nor unmakes a letter |
| Letters.ToUpperIdentifiesCase | hangman.c:43-48 | two letters upper-case to the same capital exactly when they are equal or differ only in case |
| Board.AllGuessed | hangman.c:26-33 | true exactly when every non-space position has a non-zero mask entry; spaces never block completion |
| Board.AllGuessedFrom | hangman.c:27-32 | the early-exit scan from position i is true exactly when no non-space position from i on is hidden |
| Board.RenderCells | hangman.c:12-20 | one character per position: a space for a space, the word's character where the mask is non-zero, `*` elsewhere |
| Board.Render | hangman.c:11-22 | the display has one character per word position, as above, followed by a newline |
| Board.RenderShowsCompletion | hangman.c:11-33 | for a word without `*`, the board shows no `*` exactly when the completion check holds |
| Board.RenderHidden | hangman.c:11-22 | a mask of zeros shows `*` at every non-space position and a space at every space |
| Game.Start | hangman.c:66-72 | a round starts with a mask of strlen(word) zeros and no strikes |
| Game.HoldsCode | hangman.c:88-93 | the duplicate scan holds exactly when the letter's character code is one of the mask entries, and never on a 0/1 mask for a code above 1 |
| Game.InPlay | hangman.c:76 | the loop condition: strikes below the limit and some non-space position still hidden |
| Game.Mark | hangman.c:101-106 | the match scan sets exactly the positions whose upper-cased character is the letter to 1 and keeps every other entry |
| Game.Turn | hangman.c:81-114 | one turn keeps the mask length equal to the word length |
| Game.Feed | hangman.c:77-114 | the turn step applied to every input in order, without the loop's stop, keeps the mask length |
| Game.Run | hangman.c:76-115 | the turn loop keeps the mask length and reads a prefix of the inputs, leaving the rest unread |
| Game.TurnRejectsNonLetter | hangman.c:81-86 | a character that is no letter after upper-casing leaves mask and strikes unchanged and is reported as not a letter |
| Game.DuplicateCheckNeverFires | hangman.c:88-98 | on a 0/1 mask the duplicate check never rejects a character, because no letter has code 0 or 1 |
| Game.TurnReveals | hangman.c:100-114 | on a 0/1 mask a letter sets exactly the matching positions to 1, leaves the others, never clears a reveal, keeps the mask 0/1, and adds one strike exactly when nothing matched |
| Game.RepeatedHitHasNoEffect | hangman.c:88-106 | guessing a letter that just hit again changes nothing and is again a hit, not a duplicate |
| Game.RepeatedMissCostsStrike | hangman.c:88-114 | guessing a letter that just missed again costs a second strike |
| Game.FeedReveals | hangman.c:76-115 | after any turns from a 0/1 mask, a position is revealed exactly when it was before or some typed letter upper-cases to its upper-cased character; the mask stays 0/1 |
| Game.FeedStrikes | hangman.c:100-114 | after any turns from a 0/1 mask the strikes have grown by the number of typed letters that match nothing, repeats included |
| Game.FeedIgnoresOrder | hangman.c:77-114 | applying the turns without the loop's stop from the start of a round gives a mask, and so a completion status, that depends only on the set of characters typed, not on their order or repetition; through `Game.RunIsFeedOfConsumed` the loop's final mask depends only on the set of characters it actually read |
| Game.RunIsFeedOfConsumed | hangman.c:76-115 | the loop's final state is that of applying one turn to each input it read |
| Game.RunEnds | hangman.c:76-114 | starting within the limit, the strikes never decrease and never pass the limit; if input is left unread the round is over, and a round that is over is complete or has the strikes at the limit |
| Game.RunLosesOnMisses | hangman.c:76-114 | a round in play fed only letters that match nothing ends after exactly the strikes it had left, with the mask unchanged, whatever is still hidden |
| Game.RunWinsOnHits | hangman.c:76-114 | a round with a strike left fed only letters that occur in the word, covering every hidden non-space position, ends complete with no new strike |
| Game.Round.constructor | hangman.c:66-72 | allocates a fresh mask of strlen(word) entries, zeroes it in a loop (so it holds only 0/1 flags), and starts with no strikes |
| Game.Round.Playing | hangman.c:76 | the loop condition evaluated on the fields is `Game.InPlay` of the round's state |
| Game.Round.Guess | hangman.c:81-114 | updating the array and strike counter in place gives exactly the state and classification of `Turn` on the old state, and keeps a 0/1 mask 0/1 |
| Game.Round.Play | hangman.c:76-115 | the in-place loop ends in exactly the state `Run` gives, leaves the same inputs unread, and keeps a 0/1 mask 0/1 |
| Scenarios.CatWon | hangman.c:76-115 | on "CAT" with three strikes allowed, guessing C, A, T ends the round complete with every position revealed and no strikes |
| Scenarios.CatLost | hangman.c:76-115 | on "CAT" with three strikes allowed, guessing X, Y, Z reads all three, ends at three strikes with nothing revealed, and the round is not complete |
| Scenarios.CatMissFirst | hangman.c:76-114 | on "CAT" with one strike allowed, X then C ends after the X with nothing revealed and the C left unread |
| Scenarios.CatHitFirst | hangman.c:76-114 | on "CAT" with one strike allowed, C then X reveals the C, so the loop's result depends on the order of the inputs |
| Scenarios.CatLostBoard | hangman.c:11-22 | the board of that lost round reads `***` and a newline |
| Scenarios.IceCreamRevealsBothCs | hangman.c:81-106 | on "ICE CREAM", guessing lower-case c reveals positions 1 and 4 and nothing else, is a hit, and costs no strike |
| Scenarios.IceCreamBoard | hangman.c:11-22 | that board reads `*C* C****` and a newline, the space shown as a space |
| Session.AcceptedAnswer | hangman.c:128 | the prompt accepts an answer exactly when it upper-cases to `Y` or `N` |
| Session.ContinuesAsWritten | hangman.c:126-134 | after an accepted answer another game starts only on a capital `Y` (the outer loop's condition at line 54) |
| Session.LowercaseYesQuits | hangman.c:126-134 | a lower-case `y` is accepted by the prompt, yet no further game starts |
| Session.Continues | hangman.c:128-132 | with the intended rule, another game starts exactly on `Y` or `y` |
| Session.ContinuesDiffersOnLowercaseYes | hangman.c:126-134 | the intended and the written rule differ on the lower-case `y` and nowhere else |

## Left out

- Console output and message text: `print_hangman`, the prompts, the board's
  `printf` calls (modelled by `Board.Render` as the characters printed), the
  rejection messages and the remaining-strikes message after a miss
  (hangman.c:77-79, 84, 96, 109-113, 118-123). A turn's `Outcome` names which
  message branch was taken.
- Console input: `scanf` is replaced by the sequence of typed characters given
  to `Game.Run` and `Game.Round.Play`; when it is exhausted the loop stops. The
  behaviour of `scanf` on failure or end of input is not modelled. The format
  `" %c"` (hangman.c:80) skips whitespace, so the program never hands a space
  or newline to the turn step; the model accepts any character, and a space in
  the input becomes a `NotALetter` turn that changes no state but names a
  message branch the program never takes for whitespace.
- Order independence of the typed characters (`Game.FeedIgnoresOrder`) is
  stated for the turns applied without the strike-limit stop. For the loop,
  order matters once the limit stops it: with a limit of 1 strike, a miss
  typed before a hit ends the round before the hit is read
  (`Scenarios.CatMissFirst`, `Scenarios.CatHitFirst`).
- The game-number prompt and its re-prompt loop (hangman.c:56-62) and
  `get_word`: the word is a parameter. `words.h` and `hangman-io.h` are not
  part of this model; `max_strikes` is a parameter, taken to be at least 0.
- The re-prompt loop of the play-again prompt (hangman.c:128-131) and the
  outer game loop itself: only the decision taken on an accepted answer is
  modelled, in `Session`.
- C representation details: the variable-length array, `char` signedness and
  width (characters are Dafny `char`s; only the ASCII letters matter to the
  logic), and `int` overflow of the strike counter, which cannot happen below
  the limit.
- The turn step outside the turn loop: the source runs it only while the loop
  condition holds, so the in-place turn requires that condition.

## Findings

| source | as written | input that shows it | evidently intended | confidence | as-written member | corrected member |
|---|---|---|---|---|---|---|
| hangman.c:54 | the outer loop repeats only while the answer is a capital `Y`, although the play-again prompt accepts `y` as a yes (line 128) and only `n`/`N` break out (line 132) | answering `y` to the play-again prompt | `y` starts another game, like `Y` | not executed; high | Session.LowercaseYesQuits | Session.Continues |

A second discrepancy, the duplicate check that never fires (hangman.c:90), is
modelled as written and stated by `Game.DuplicateCheckNeverFires`; the game
logic keeps the written behaviour, under which a repeated letter is processed
again.
