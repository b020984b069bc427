# Wordy, modelled in Dafny

Wordy is a five-letter word-guessing game. A `Wordy` game holds a hidden
solution drawn from a dictionary, accepts guesses, checks each one and
answers with one hint per letter. A guess can be green (in position), yellow
(elsewhere in the solution) or white. The game ends in `'win'` or `'lost'`.
A helper module for automated players, `play_wordy.py`, folds the guess
history into three things: the words already tried, the letters known to be
in the solution, and the letters fixed at known positions. It then marks the
dictionary words that are still worth guessing and picks the first of them.

The model has five files:

- `wrappers.dfy`: `Option`. It stands for the source's `False`, its `''` and
  its failing selection.
- `text.dfy`: `str.isalpha` and `str.upper` over ASCII letters.
- `feedback.dfy`: the `LetterHint` record, the letter counts and the hint
  rule. These are specification functions, with lemmas about them.
- `wordy.dfy`: the class `Wordy`. Its methods update `guess_attempts`,
  `guess_count`, `guesses`, `game_state` and the solution in place. The
  hint loop is proved to compute `Feedback.LetterHints`.
- `play_wordy.dfy`: the constraint reducer. The nested loops are proved
  against folds over the flattened hint history. The filter updates an
  `is_still_valid` array step by step.

The dictionary is a sequence of words. The random choice of the solution is
replaced by the index of the dictionary word to use. The dictionary table of
`play_wordy.py` is the sequence of its words. Its column `pos_i` is the
word's letter at index `i`. A word shorter than `i + 1` letters has no such
letter, so it does not match.

Behaviours of the code worth noting, all of them kept in the model:

- Guesses are still accepted after the game is won or lost.
- Passing the ceiling of 50 calls marks the game lost, but the call goes on
  to validate the guess. A correct guess then turns `'lost'` into `'win'`
  (`Game.CeilingScenario`).
- Rejected calls count towards the ceiling.
- A winning guess returns no hints. The source returns `None` on a win, just
  as it does on a rejected guess.
- A repeated letter can be white yet marked `in_solution`. This happens when
  the solution holds the letter once and the guess holds it more than once
  (`Feedback.CraneAgainstAlpha`).
- Against `"STATS"`, the `A` of `"SMART"` is in position
  (`Feedback.SmartAgainstStats`).
- The doc comment at play_wordy.py:23 describes `in_solution` as set only
  for a letter that is in the solution but out of position. The code at
  wordy.py:78 sets it for green hints too, so in position implies in solution
  (`Feedback.LetterHints`, `Feedback.AllGreenOnSolution`). The reducer reads
  the flag as the code sets it.
- The solution setter stores the result of `validate_guess`, which is
  `False` for a word the dictionary does not hold. An accepted guess is then
  counted and appended, and scoring it fails: `get_letter_counts(False)`
  raises at wordy.py:98 before `check_state` runs. The model returns the
  outcome `ScoringFailed` at that point, with the counts already updated
  (`Game.UnknownSolutionScenario`).

## Model

| member | source | states |
|---|---|---|
| `Feedback.Distinct` | wordy.py:98 | the keys of `dict.fromkeys(word, 0)` are exactly the letters of the word, each once |
| `Feedback.GetLetterCounts` | wordy.py:97-101 | the loop yields a map whose keys are exactly the word's letters, each mapped to its number of occurrences |
| `Feedback.CountsSumToLength` | wordy.py:97-101 | the counts of the word's distinct letters add up to the word's length |
| `Feedback.LetterCountsSum` | wordy.py:97-101 | the dictionary `get_letter_counts` returns has exactly the word's distinct letters as keys, and its values summed over those keys give the word's length |
| `Feedback.Hint` | wordy.py:77-92 | letter and position are the guess letter and its index; in position iff the solution has that letter there; in solution iff the letter occurs in the solution; green iff in position; yellow iff elsewhere and (solution count > 1 or guess count <= 1); white and in solution exactly for the once-in-solution, repeated-in-guess case |
| `Feedback.LetterHints` | wordy.py:68-94 | exactly one hint per guess letter, in index order, with letter and position matching and both flag characterisations; in position implies in solution |
| `Feedback.InPositionHint` | wordy.py:77-78 | a letter at its solution position gets a green hint, in position and in solution |
| `Feedback.RepeatedInSolutionHint` | wordy.py:79-83 | a misplaced letter found more than once in the solution gets a yellow hint, in solution |
| `Feedback.RepeatedInGuessHint` | wordy.py:84-86 | a misplaced letter found once in the solution and more than once in the guess gets a white hint that is still marked in solution |
| `Feedback.SingleMisplacedHint` | wordy.py:87-89 | a misplaced letter found once in the solution and once in the guess gets a yellow hint, in solution |
| `Feedback.AbsentHint` | wordy.py:90-92 | a letter missing from the solution gets a white hint, neither in position nor in solution |
| `Feedback.AllGreenOnSolution` | wordy.py:77-78 | guessing the solution gives every hint green, in position and in solution |
| `Feedback.GreenIffInPosition` | wordy.py:77-92 | a hint is green exactly when it is in position |
| `Feedback.SmartAgainstStats` | wordy.py:75-92 | "SMART" against "STATS" gives S and A green, M and R white and absent, T yellow |
| `Feedback.CraneAgainstAlpha` | wordy.py:84-86 | both A's of "ALPHA" against "CRANE" are white though marked in the solution |
| `Text.IsAlphaLetters` | wordy.py:118 | `str.isalpha`: the word is non-empty and every character of it is a letter |
| `Text.UpperChar` | wordy.py:116 | upper-casing keeps letters letters, maps a lower-case letter to the upper-case letter of the same alphabet index and leaves every other character alone |
| `Text.Upper` | wordy.py:116-118 | upper-casing keeps the length, works letter by letter, keeps the word alphabetic exactly when it was, and yields upper-case letters from an alphabetic word |
| `Game.AfterCeiling` | wordy.py:45-48 | the ceiling check either leaves the state alone or makes it lost, and the state is lost afterwards exactly when the call count is past 50 or it was lost already |
| `Game.Wordy.constructor` | wordy.py:13-28 | given a dictionary of five-letter words, as `get_dictionary` builds it, a new game is in play with no guesses, no attempts, a budget of six guesses unless told otherwise and a dictionary word as solution, and satisfies the class invariant |
| `Game.Wordy.ValidateGuess` | wordy.py:115-135 | the upper-cased word is returned iff the word is alphabetic, five long, not yet guessed and in the dictionary; the result is then five upper-case letters |
| `Game.Wordy.SetSolution` | wordy.py:39-41 | the solution becomes what validation makes of the word (`None` for the source's `False`); nothing else changes; a stored solution is always five letters long |
| `Game.Wordy.CheckState` | wordy.py:110-113 | the game becomes lost when the guess count reaches the budget, and is otherwise unchanged |
| `Game.Wordy.GuessWord` | wordy.py:43-66 | every call adds exactly one attempt, and a call past the 50th loses the game; a rejected guess changes neither count nor guesses and returns nothing; an accepted guess adds one to the count and appends exactly that word; if the solution is the setter's `False`, scoring fails and the game state is what the ceiling check left; otherwise the guess wins iff it is the solution, and a wrong guess loses when the count reaches the budget and returns hints, which can always be scored against the solution; the invariant (five-letter solution, distinct dictionary words, count equal to the number of guesses, at most the number of attempts) is kept; a finished game never returns to play |
| `Game.Wordy.GetLetterHints` | wordy.py:68-94 | given a solution at least as long as the guess, the loop with its two count dictionaries returns exactly `Feedback.LetterHints` of the solution and the guess |
| `Game.ScoreLetter` | wordy.py:75-92 | the loop body, reading the two count dictionaries, builds exactly the hint of `Feedback.Hint` |
| `Game.OneGuessScenario` | wordy.py:43-66 | with a budget of one: an unknown word leaves the game in play, a wrong word loses it, the solution guessed afterwards still wins |
| `Game.CeilingScenario` | wordy.py:45-62 | fifty rejected calls leave the game in play, the fifty-first loses it, a correct guess on the fifty-second wins |
| `Game.UnknownSolutionScenario` | wordy.py:39-65 | with the solution set to a word outside the dictionary and a budget of one, an accepted guess is counted, scoring fails, and the game stays in play |
| `Reducer.PreviousGuesses` | play_wordy.py:36-44 | one word per history entry, in history order, each the entry's word |
| `Reducer.PreviousGuessesAppend` | play_wordy.py:44 | a further guess appends exactly its word to the previous guesses |
| `Reducer.KnownLettersIff` | play_wordy.py:53-62 | a letter is known iff some hint of some guess carries it with `in_solution` set; so an empty history knows none |
| `Reducer.GetKnownLetters` | play_wordy.py:47-62 | the nested loops return exactly the known letters |
| `Reducer.KnownLettersGrow` | play_wordy.py:53-62 | a further guess never forgets a known letter |
| `Reducer.KnownPositions` | play_wordy.py:71-77 | for a history whose in-position hints all index the first guessed word (any other raises at play_wordy.py:77), the known positions are as long as the first guessed word (empty for an empty history) |
| `Reducer.MixedLengthHistory` | play_wordy.py:71-77 | a later, longer guess whose out-of-range hint is not in position is accepted and leaves the first guess's slots, here `['A', '']` |
| `Reducer.KnownPositionsLastWrite` | play_wordy.py:74-77 | a slot holds the letter of the last in-position hint at that index over the whole history |
| `Reducer.KnownPositionsUnset` | play_wordy.py:73-77 | a slot no in-position hint names stays empty |
| `Reducer.LastFullMatchWins` | play_wordy.py:73-78 | when the last guess is in position at every index of the first word, the known positions spell that guess's letters whatever came before |
| `Reducer.SolvedPositionsSpellSolution` | play_wordy.py:73-78 | in a history produced against one solution, once the solution has been guessed the known positions spell it |
| `Reducer.GetKnownPositions` | play_wordy.py:65-78 | the nested loops writing list slots return exactly the known positions |
| `Reducer.KnownPositionsStay` | play_wordy.py:73-78 | in a history produced against one solution, a further guess keeps every known position with its letter |
| `Reducer.EmptyHistoryAllValid` | play_wordy.py:97-99 | with no guesses every word is still valid |
| `Reducer.StillValidShrinks` | play_wordy.py:105-118 | in a history produced against one solution, a word valid after a further guess was valid before it: the candidates only shrink |
| `Reducer.MarkGuessed` | play_wordy.py:106-107 | guessed words are flagged and lose validity; nothing else changes and validity is never restored |
| `Reducer.DropMissingLetter` | play_wordy.py:110-112 | a word lacking the letter loses validity; validity is never restored |
| `Reducer.DropMismatch` | play_wordy.py:115-118 | a word whose letter at the position differs loses validity; validity is never restored |
| `Reducer.FilterColumns` | play_wordy.py:93-118 | `guessed` holds iff the word was guessed; `is_still_valid` holds iff the word was not guessed, contains every known letter and agrees with every filled known position, whatever order the known letters are taken in |
| `Reducer.SimpleGuess` | play_wordy.py:26-29 | the pick is the first dictionary word that is still valid, and there is none exactly when no word is valid |

## Left out

- `get_dictionary` (wordy.py:26-29) reads `words.txt`. The dictionary is given as a sequence of words instead.
- `get_random_word` (wordy.py:32-33) and `random_next_guess` (play_wordy.py:6-8) draw random numbers. The constructor takes the index of the solution instead.
- Terminal colours, `get_colorized_guess_str` (wordy.py:7-10, 103-108) and every `print` are screen output. Colours are a three-valued datatype.
- What happens to the `TypeError` of a guess scored against `False` beyond `guess_word` is not modelled; the call ends with the outcome `ScoringFailed`.
- `run_tests` (wordy.py:138-200) is a driver over the real dictionary with no checks of its own.
- The value `guess_word` returns for a non-winning guess (wordy.py:66) is the bound method `get_letter_hints`, not its result. It is modelled as "hints available"; the hints come from `Game.Wordy.GetLetterHints`.
- The pandas table, the undefined `Wordy.get_dataframe` and the column reordering (play_wordy.py:88-94, 120-123) are left out. They belong to a foreign library and a helper that does not exist; only the filter over the word sequence is kept.
- `player.py` is the outer harness that counts wins. It is not part of this model; it also calls the constructor with an argument the constructor does not accept.
- `str.isalpha` and `str.upper` are modelled for ASCII only. Non-ASCII characters count as non-letters and are not case-mapped.
- `get_known_letters` returns an empty list, not an empty set, for an empty history. Both are modelled as the empty set; the filter only iterates over the result.
- `pandas.Series.str.contains` reads its argument as a pattern. Each known letter is taken literally, which is the same for letters.
- An in-position hint whose position lies past the first guessed word makes `get_known_positions` raise `IndexError` (play_wordy.py:77). The reducer's members require that no such hint occurs (`PositionsInRange`); the exception itself is not modelled.
- Reducer.StillValidShrinks: proved only for histories whose hints all come from one solution. For arbitrary hint lists, last-write-wins can replace a fixed letter, and a word can then become valid again.
