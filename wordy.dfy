/** The Wordy game engine: a solution drawn from the dictionary, a budget of
    accepted guesses, a hard ceiling on calls, and the guess history. */
module Game {
  import opened Wrappers
  import opened Text
  import opened Feedback

  /** Length every accepted guess must have. */
  const WordLength := 5
  /** Calls to `GuessWord` beyond this many force the game to be lost. */
  const AttemptCeiling := 50
  /** Guess budget when the caller gives none. */
  const DefaultMaxGuesses := 6

  datatype GameState = Playing | Win | Lost

  /** How a call to `GuessWord` ends: the guess is rejected; it wins; hints
      are available for it; or scoring it for the printed feedback fails
      (the source raises there, after the guess was counted and before the
      budget is checked). */
  datatype GuessOutcome = Rejected | Won | HintsAvailable | ScoringFailed

  /** `get_letter_hints` can score `guess` against the solution: the solution
      is a word (not the setter's `False`) at least as long as the guess. */
  predicate CanScore(solution: Option<string>, guess: string) {
    solution.Some? && |guess| <= |solution.value|
  }

  /** A guess as `validate_guess` leaves it: five upper-case letters. */
  predicate IsWord(w: string) {
    |w| == WordLength && forall i :: 0 <= i < |w| ==> IsUpperLetter(w[i])
  }

  /** The state the attempt ceiling leaves behind once `attempts` calls
      have been made. */
  function AfterCeiling(state: GameState, attempts: nat): (r: GameState)
    ensures r == Lost || r == state
    ensures r == Lost <==> attempts > AttemptCeiling || state == Lost
  {
    if attempts > AttemptCeiling then Lost else state
  }

  class Wordy {
    const words: seq<string>
    const maxGuesses: int
    /** `None` stands for the `False` the solution setter stores when the
        word it is given fails validation. */
    var solution: Option<string>
    var gameState: GameState
    var guessCount: nat
    var guesses: seq<string>
    var guessAttempts: nat

    /** Every accepted guess is a distinct dictionary word of five
        upper-case letters, one per counted guess, and no more guesses were
        counted than calls made; a solution that is set is five long. */
    ghost predicate Valid()
      reads this
    {
      && (solution.Some? ==> |solution.value| == WordLength)
      && guessCount == |guesses|
      && guessCount <= guessAttempts
      && (forall i :: 0 <= i < |guesses| ==> IsWord(guesses[i]) && guesses[i] in words)
      && (forall i, j :: 0 <= i < j < |guesses| ==> guesses[i] != guesses[j])
    }

    /** A new game. The random draw of the solution is replaced by the
        index `pick` of the dictionary word to use; the dictionary holds
        five-character words, as the dictionary loader keeps only those. */
    constructor (words: seq<string>, pick: nat, maxGuesses: int := DefaultMaxGuesses)
      requires pick < |words|
      requires forall w :: w in words ==> |w| == WordLength
      ensures Valid()
      ensures this.words == words && this.maxGuesses == maxGuesses
      ensures solution == Some(words[pick])
      ensures gameState == Playing
      ensures guessCount == 0 && guesses == [] && guessAttempts == 0
    {
      this.words := words;
      this.maxGuesses := maxGuesses;
      solution := Some(words[pick]);
      gameState := Playing;
      guessCount := 0;
      guesses := [];
      guessAttempts := 0;
    }

    /** `validate_guess`: the upper-cased word when it is alphabetic, five
        letters long, not guessed before and in the dictionary; `None`
        (the source's `False`) otherwise. */
    function ValidateGuess(word: string): (r: Option<string>)
      reads this
      ensures r.Some? <==>
                IsAlpha(word) && |word| == WordLength &&
                Upper(word) !in guesses && Upper(word) in words
      ensures r.Some? ==> r.value == Upper(word) && IsWord(r.value)
    {
      var cleansed := Upper(word);
      if !IsAlpha(cleansed) then None
      else if |cleansed| != WordLength then None
      else if cleansed in guesses then None
      else if cleansed in words then Some(cleansed)
      else None
    }

    /** The `solution` setter: stores whatever validation makes of `word`. */
    method SetSolution(word: string)
      requires Valid()
      modifies this`solution
      ensures Valid()
      ensures solution == old(ValidateGuess(word))
    {
      solution := ValidateGuess(word);
    }

    /** `check_state`: the game is lost once the guess budget is used up. */
    method CheckState()
      modifies this`gameState
      ensures guessCount >= maxGuesses ==> gameState == Lost
      ensures guessCount < maxGuesses ==> gameState == old(gameState)
    {
      if guessCount >= maxGuesses {
        gameState := Lost;
      }
    }

    /** `guess_word`. Every call counts towards the ceiling, and passing it
        loses the game without ending the call. A rejected guess changes
        nothing else. An accepted guess is counted and recorded. It is then
        scored for the printed feedback, which fails when the solution is
        the setter's `False`; the call ends there. Otherwise it wins when it
        is the solution, and else the budget is checked and hints are
        available. */
    method GuessWord(guess: string) returns (outcome: GuessOutcome)
      requires Valid()
      modifies this`guessAttempts, this`gameState, this`guessCount, this`guesses
      ensures Valid()
      ensures guessAttempts == old(guessAttempts) + 1
      ensures old(ValidateGuess(guess)).None? ==>
                && guessCount == old(guessCount)
                && guesses == old(guesses)
                && gameState == AfterCeiling(old(gameState), guessAttempts)
                && outcome == Rejected
      ensures old(ValidateGuess(guess)).Some? ==>
                var w := old(ValidateGuess(guess)).value;
                && guessCount == old(guessCount) + 1
                && guesses == old(guesses) + [w]
                && outcome ==
                     (if !CanScore(solution, w) then ScoringFailed
                      else if solution == Some(w) then Won
                      else HintsAvailable)
                && gameState ==
                     (if !CanScore(solution, w) then AfterCeiling(old(gameState), guessAttempts)
                      else if solution == Some(w) then Win
                      else if guessCount >= maxGuesses then Lost
                      else AfterCeiling(old(gameState), guessAttempts))
      ensures outcome == ScoringFailed <==> old(ValidateGuess(guess)).Some? && solution.None?
      ensures outcome == HintsAvailable ==> CanScore(solution, guesses[|guesses| - 1])
      ensures old(gameState) != Playing ==> gameState != Playing
    {
      guessAttempts := guessAttempts + 1;
      if guessAttempts > AttemptCeiling {
        gameState := Lost;
      }
      var cleansed := ValidateGuess(guess);
      if cleansed.None? {
        return Rejected;
      }
      guessCount := guessCount + 1;
      guesses := guesses + [cleansed.value];
      // Both branches print the guess coloured by `get_letter_hints`, which
      // needs a solution to score against.
      if !CanScore(solution, guess) {
        return ScoringFailed;
      }
      if Some(cleansed.value) == solution {
        gameState := Win;
        outcome := Won;
      } else {
        CheckState();
        outcome := HintsAvailable;
      }
    }

    /** `get_letter_hints`, the loop over the guess letters, proved to compute
        the hint rule of `Feedback.LetterHints`. */
    method GetLetterHints(guess: string) returns (hints: seq<LetterHint>)
      requires CanScore(solution, guess)
      ensures hints == LetterHints(solution.value, guess)
    {
      var target := solution.value;
      var solutionCounts := GetLetterCounts(target);
      var guessCounts := GetLetterCounts(guess);
      hints := [];
      for i := 0 to |guess|
        invariant |hints| == i
        invariant forall k :: 0 <= k < i ==> hints[k] == Hint(target, guess, k)
      {
        var hint := ScoreLetter(target, guess, i, solutionCounts, guessCounts);
        hints := hints + [hint];
      }
    }
  }

  /** The body of the loop in `get_letter_hints`: the hint for the guess
      letter at `i`, read off the two letter-count dictionaries. */
  method ScoreLetter(target: string, guess: string, i: nat,
                     solutionCounts: map<char, nat>, guessCounts: map<char, nat>)
    returns (hint: LetterHint)
    requires i < |guess| <= |target|
    requires forall c :: c in solutionCounts <==> c in target
    requires forall c :: c in solutionCounts ==> solutionCounts[c] == Count(target, c)
    requires forall c :: c in guessCounts <==> c in guess
    requires forall c :: c in guessCounts ==> guessCounts[c] == Count(guess, c)
    ensures hint == Hint(target, guess, i)
  {
    var letter := guess[i];
    if target[i] == letter {
      hint := LetterHint(letter, Green, i, true, true);
    } else if letter in target {
      if solutionCounts[letter] > 1 {
        hint := LetterHint(letter, Yellow, i, false, true);
      } else if guessCounts[letter] > 1 {
        hint := LetterHint(letter, White, i, false, true);
      } else {
        hint := LetterHint(letter, Yellow, i, false, true);
      }
    } else {
      hint := LetterHint(letter, White, i, false, false);
    }
  }

  /** The spellings the scenarios below type, cleansed. */
  lemma ScenarioSpellings()
    ensures Upper("crane") == "CRANE" && IsAlpha("crane")
    ensures Upper("CRANE") == "CRANE" && IsAlpha("CRANE")
    ensures Upper("STATS") == "STATS" && IsAlpha("STATS")
    ensures Upper("WORDY") == "WORDY"
    ensures !IsAlpha(Upper("12345"))
  {
    assert !IsLetter("12345"[0]);
  }

  /** A one-guess game over a two-word dictionary with solution "STATS":
      a word outside the dictionary is rejected without using the budget, a
      wrong dictionary word (in lower case) loses the game, and the solution
      guessed after that still wins, since nothing stops play once the game
      is over. */
  method OneGuessScenario() returns (afterUnknown: GameState, afterWrong: GameState, afterRight: GameState)
    ensures afterUnknown == Playing && afterWrong == Lost && afterRight == Win
  {
    ScenarioSpellings();
    var game := new Wordy(["CRANE", "STATS"], 1, 1);
    assert game.ValidateGuess("WORDY").None? by {
      assert "WORDY"[0] == 'W';
    }
    var outcome := game.GuessWord("WORDY");
    afterUnknown := game.gameState;
    assert game.solution == Some("STATS") && game.guessCount == 0;
    assert CanScore(game.solution, "CRANE") && Some("CRANE") != game.solution by {
      assert "CRANE"[0] != "STATS"[0];
    }
    outcome := game.GuessWord("crane");
    afterWrong := game.gameState;
    assert game.solution == Some("STATS") && CanScore(game.solution, "STATS");
    outcome := game.GuessWord("STATS");
    afterRight := game.gameState;
  }

  /** Fifty rejected calls leave the game in play; the fifty-first loses it,
      and a correct guess on the fifty-second call turns the loss into a
      win. */
  method CeilingScenario() returns (atCeiling: GameState, pastCeiling: GameState, lateWin: GameState)
    ensures atCeiling == Playing && pastCeiling == Lost && lateWin == Win
  {
    ScenarioSpellings();
    var game := new Wordy(["CRANE", "SMART", "START", "STATS"], 3);
    for i := 0 to AttemptCeiling
      invariant game.Valid()
      invariant game.words == ["CRANE", "SMART", "START", "STATS"]
      invariant game.solution == Some("STATS")
      invariant game.gameState == Playing
      invariant game.guessAttempts == i && game.guessCount == 0 && game.guesses == []
    {
      var outcome := game.GuessWord("12345");
    }
    atCeiling := game.gameState;
    var outcome := game.GuessWord("12345");
    pastCeiling := game.gameState;
    outcome := game.GuessWord("STATS");
    lateWin := game.gameState;
  }

  /** A solution set to a word outside the dictionary is stored as the
      setter's `False`. An accepted guess is then counted, but scoring it
      fails before the budget of one is checked, so the game stays in
      play. */
  method UnknownSolutionScenario() returns (outcome: GuessOutcome, count: nat, state: GameState)
    ensures outcome == ScoringFailed && count == 1 && state == Playing
  {
    ScenarioSpellings();
    var game := new Wordy(["CRANE", "SMART", "START", "STATS"], 3, 1);
    assert game.ValidateGuess("WORDY").None? by {
      assert "WORDY"[0] == 'W';
    }
    game.SetSolution("WORDY");
    outcome := game.GuessWord("CRANE");
    count := game.guessCount;
    state := game.gameState;
  }
}
