/** The per-letter feedback rule of the Wordy engine: the `LetterHint` record,
    the letter counts of a word and the count-threshold colouring of each
    guess letter against the solution. The functions here are the
    specification that the engine's loop (`Game.Wordy.GetLetterHints`) is
    proved against. */
module Feedback {

  /** The three terminal colours a hint can carry. */
  datatype Color = Green | Yellow | White

  datatype LetterHint = LetterHint(
    letter: char,
    color: Color,
    position: nat,
    inPosition: bool,
    inSolution: bool)

  /** Number of occurrences of `c` in `w`. */
  function Count(w: string, c: char): nat {
    multiset(w)[c]
  }

  // ---------------------------------------------------------------------
  // Letter counts
  // ---------------------------------------------------------------------

  /** The keys of `dict.fromkeys(w, 0)`: each letter of `w` once, in order of
      first occurrence. */
  function Distinct(w: string): (d: seq<char>)
    ensures forall c :: c in d <==> c in w
    ensures forall i, j :: 0 <= i < j < |d| ==> d[i] != d[j]
  {
    if w == [] then []
    else
      var p := Distinct(w[..|w| - 1]);
      assert w == w[..|w| - 1] + [w[|w| - 1]];
      if w[|w| - 1] in p then p else p + [w[|w| - 1]]
  }

  /** The sum of the counts in `w` of the letters `keys`. */
  function SumOfCounts(keys: seq<char>, w: string): nat {
    if keys == [] then 0
    else SumOfCounts(keys[..|keys| - 1], w) + Count(w, keys[|keys| - 1])
  }

  /** The sum of the values `counts` gives the letters `keys`. */
  function SumOver(keys: seq<char>, counts: map<char, nat>): nat
    requires forall i :: 0 <= i < |keys| ==> keys[i] in counts
  {
    if keys == [] then 0
    else SumOver(keys[..|keys| - 1], counts) + counts[keys[|keys| - 1]]
  }

  /** Summing a map that holds the counts of `w` is summing those counts. */
  lemma {:induction false} SumOverCounts(keys: seq<char>, counts: map<char, nat>, w: string)
    requires forall i :: 0 <= i < |keys| ==> keys[i] in counts && counts[keys[i]] == Count(w, keys[i])
    ensures SumOver(keys, counts) == SumOfCounts(keys, w)
  {
    if keys != [] {
      SumOverCounts(keys[..|keys| - 1], counts, w);
    }
  }

  /** Appending a letter to the word raises the sum over duplicate-free keys
      by one exactly when that letter is one of the keys. */
  lemma {:induction false} SumOfCountsAppend(keys: seq<char>, w: string, x: char)
    requires forall i, j :: 0 <= i < j < |keys| ==> keys[i] != keys[j]
    ensures SumOfCounts(keys, w + [x]) == SumOfCounts(keys, w) + (if x in keys then 1 else 0)
  {
    if keys != [] {
      var init := keys[..|keys| - 1];
      assert keys == init + [keys[|keys| - 1]];
      SumOfCountsAppend(init, w, x);
      assert multiset(w + [x]) == multiset(w) + multiset{x};
    }
  }

  /** The counts of the distinct letters of a word add up to its length. */
  lemma {:induction false} CountsSumToLength(w: string)
    ensures SumOfCounts(Distinct(w), w) == |w|
  {
    if w != [] {
      var p := w[..|w| - 1];
      var x := w[|w| - 1];
      assert w == p + [x];
      CountsSumToLength(p);
      SumOfCountsAppend(Distinct(p), p, x);
      if x !in p {
        assert multiset(w)[x] == multiset(p)[x] + 1;
      }
    }
  }

  /** `get_letter_counts`: a dictionary holding exactly the letters of the
      word, each mapped to its number of occurrences. */
  method GetLetterCounts(word: string) returns (counts: map<char, nat>)
    ensures forall c :: c in counts <==> c in word
    ensures forall c :: c in counts ==> counts[c] == Count(word, c)
  {
    counts := map c | c in word :: 0;
    for i := 0 to |word|
      invariant forall c :: c in counts <==> c in word
      invariant forall c :: c in counts ==> counts[c] == Count(word[..i], c)
    {
      assert word[..i + 1] == word[..i] + [word[i]];
      counts := counts[word[i] := counts[word[i]] + 1];
    }
    assert word[..|word|] == word;
  }

  /** The dictionary `get_letter_counts` returns (any map meeting its
      contract) has the word's distinct letters as keys, and its values,
      summed over those keys in first-occurrence order, give the word's
      length. */
  lemma LetterCountsSum(word: string, counts: map<char, nat>)
    requires forall c :: c in counts <==> c in word
    requires forall c :: c in counts ==> counts[c] == Count(word, c)
    ensures forall c :: c in counts <==> c in Distinct(word)
    ensures SumOver(Distinct(word), counts) == |word|
  {
    SumOverCounts(Distinct(word), counts, word);
    CountsSumToLength(word);
  }


  // ---------------------------------------------------------------------
  // The hint rule
  // ---------------------------------------------------------------------

  /** The hint for letter `i` of `guess`: green on an exact match; for a
      letter present elsewhere, yellow when the solution holds it more than
      once or the guess holds it at most once, white otherwise (still marked
      as in the solution); white and absent for a letter not in the
      solution. */
  function Hint(solution: string, guess: string, i: nat): (h: LetterHint)
    requires i < |guess| <= |solution|
    ensures h.letter == guess[i] && h.position == i
    ensures h.inPosition <==> solution[i] == guess[i]
    ensures h.inSolution <==> guess[i] in solution
    ensures h.color == Green <==> solution[i] == guess[i]
    ensures h.color == Yellow <==>
              solution[i] != guess[i] && guess[i] in solution &&
              (Count(solution, guess[i]) > 1 || Count(guess, guess[i]) <= 1)
    ensures h.color == White && h.inSolution <==>
              solution[i] != guess[i] && guess[i] in solution &&
              Count(solution, guess[i]) == 1 && Count(guess, guess[i]) > 1
  {
    var letter := guess[i];
    if solution[i] == letter then
      LetterHint(letter, Green, i, true, true)
    else if letter in solution then
      if Count(solution, letter) > 1 then
        LetterHint(letter, Yellow, i, false, true)
      else if Count(guess, letter) > 1 then
        LetterHint(letter, White, i, false, true)
      else
        LetterHint(letter, Yellow, i, false, true)
    else
      LetterHint(letter, White, i, false, false)
  }

  /** `get_letter_hints`: one hint per guess letter, in index order. */
  function LetterHints(solution: string, guess: string): (hints: seq<LetterHint>)
    requires |guess| <= |solution|
    ensures |hints| == |guess|
    ensures forall i :: 0 <= i < |guess| ==>
              hints[i].letter == guess[i] && hints[i].position == i
    ensures forall i :: 0 <= i < |guess| ==>
              (hints[i].inPosition <==> solution[i] == guess[i])
    ensures forall i :: 0 <= i < |guess| ==>
              (hints[i].inSolution <==> guess[i] in solution)
    ensures forall i :: 0 <= i < |guess| ==>
              hints[i].inPosition ==> hints[i].inSolution
  {
    seq(|guess|, i requires 0 <= i < |guess| => Hint(solution, guess, i))
  }

  /** Guessing the solution itself gives a green, in-position, in-solution
      hint for every letter. */
  lemma AllGreenOnSolution(solution: string)
    ensures forall i :: 0 <= i < |solution| ==>
              LetterHints(solution, solution)[i].color == Green &&
              LetterHints(solution, solution)[i].inPosition &&
              LetterHints(solution, solution)[i].inSolution
  {
  }

  /** A hint is green exactly when it is in position. */
  lemma GreenIffInPosition(solution: string, guess: string, i: nat)
    requires i < |guess| <= |solution|
    ensures LetterHints(solution, guess)[i].color == Green <==>
            LetterHints(solution, guess)[i].inPosition
  {
  }

  // The five branches of the hint rule, one lemma each.

  /** A letter at its solution position is green. */
  lemma InPositionHint(solution: string, guess: string, i: nat)
    requires i < |guess| <= |solution| && solution[i] == guess[i]
    ensures LetterHints(solution, guess)[i] == LetterHint(guess[i], Green, i, true, true)
  {
  }

  /** A letter missing from the solution is white and not in the solution. */
  lemma AbsentHint(solution: string, guess: string, i: nat)
    requires i < |guess| <= |solution| && guess[i] !in solution
    ensures LetterHints(solution, guess)[i] == LetterHint(guess[i], White, i, false, false)
  {
  }

  /** A misplaced letter found more than once in the solution is yellow. */
  lemma RepeatedInSolutionHint(solution: string, guess: string, i: nat)
    requires i < |guess| <= |solution| && solution[i] != guess[i]
    requires Count(solution, guess[i]) > 1
    ensures LetterHints(solution, guess)[i] == LetterHint(guess[i], Yellow, i, false, true)
  {
  }

  /** A misplaced letter found once in the solution but more than once in
      the guess is white, though marked as in the solution. */
  lemma RepeatedInGuessHint(solution: string, guess: string, i: nat)
    requires i < |guess| <= |solution| && solution[i] != guess[i]
    requires Count(solution, guess[i]) == 1 && Count(guess, guess[i]) > 1
    ensures LetterHints(solution, guess)[i] == LetterHint(guess[i], White, i, false, true)
  {
  }

  /** A misplaced letter found once in the solution and once in the guess
      is yellow. */
  lemma SingleMisplacedHint(solution: string, guess: string, i: nat)
    requires i < |guess| <= |solution| && solution[i] != guess[i]
    requires Count(solution, guess[i]) == 1 && Count(guess, guess[i]) == 1
    ensures LetterHints(solution, guess)[i] == LetterHint(guess[i], Yellow, i, false, true)
  {
  }

  /** "SMART" against "STATS": S and A in position, M and R absent, T
      present elsewhere. */
  lemma SmartAgainstStats()
    ensures LetterHints("STATS", "SMART") ==
      [ LetterHint('S', Green, 0, true, true),
        LetterHint('M', White, 1, false, false),
        LetterHint('A', Green, 2, true, true),
        LetterHint('R', White, 3, false, false),
        LetterHint('T', Yellow, 4, false, true) ]
  {
    SmartAgainstStatsGreen();
    SmartAgainstStatsWhite();
    SmartAgainstStatsYellow();
  }

  /** The in-position letters of "SMART" against "STATS". */
  lemma SmartAgainstStatsGreen()
    ensures LetterHints("STATS", "SMART")[0] == LetterHint('S', Green, 0, true, true)
    ensures LetterHints("STATS", "SMART")[2] == LetterHint('A', Green, 2, true, true)
  {
    InPositionHint("STATS", "SMART", 0);
    InPositionHint("STATS", "SMART", 2);
  }

  /** The letters of "SMART" missing from "STATS". */
  lemma SmartAgainstStatsWhite()
    ensures LetterHints("STATS", "SMART")[1] == LetterHint('M', White, 1, false, false)
    ensures LetterHints("STATS", "SMART")[3] == LetterHint('R', White, 3, false, false)
  {
    assert 'M' !in "STATS";
    AbsentHint("STATS", "SMART", 1);
    assert 'R' !in "STATS";
    AbsentHint("STATS", "SMART", 3);
  }

  /** The misplaced letter of "SMART", found twice in "STATS". */
  lemma SmartAgainstStatsYellow()
    ensures LetterHints("STATS", "SMART")[4] == LetterHint('T', Yellow, 4, false, true)
  {
    assert Count("STATS", 'T') == 2;
    RepeatedInSolutionHint("STATS", "SMART", 4);
  }

  /** The count-threshold rule differs from the usual two-pass colouring: a
      letter found once in the solution but twice in the guess, in neither
      place at its solution position, is white at both places although it is
      marked as in the solution. */
  lemma CraneAgainstAlpha()
    ensures LetterHints("CRANE", "ALPHA")[0] == LetterHint('A', White, 0, false, true)
    ensures LetterHints("CRANE", "ALPHA")[4] == LetterHint('A', White, 4, false, true)
  {
    assert Count("CRANE", 'A') == 1;
    assert Count("ALPHA", 'A') == 2;
    RepeatedInGuessHint("CRANE", "ALPHA", 0);
    RepeatedInGuessHint("CRANE", "ALPHA", 4);
  }
}
