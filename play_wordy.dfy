/** The constraint reducer an automated guesser uses: it folds the guess
    history into the words already tried, the letters known to be in the
    solution and the letters known at fixed positions, and marks which
    dictionary words are still worth guessing. The dictionary table of the
    source is modelled as the sequence of its words; its column `pos_i` is a
    word's letter at index `i`. */
module Reducer {
  import opened Wrappers
  import opened Feedback

  /** One entry of the guess history: the word guessed and its hints. */
  datatype GuessHints = GuessHints(word: string, letterHints: seq<LetterHint>)

  // ---------------------------------------------------------------------
  // The history, flattened
  // ---------------------------------------------------------------------

  /** Every hint of the history, guess after guess, each guess's hints in
      their own order: the order in which the source's nested loops visit
      them. */
  function AllHints(history: seq<GuessHints>): seq<LetterHint> {
    if history == [] then []
    else AllHints(history[..|history| - 1]) + history[|history| - 1].letterHints
  }

  /** A later guess appends its hints after all earlier ones. */
  lemma AllHintsSnoc(history: seq<GuessHints>, g: GuessHints)
    ensures AllHints(history + [g]) == AllHints(history) + g.letterHints
  {
    assert (history + [g])[..|history|] == history;
  }

  /** Every flattened hint is a hint of some guess ... */
  lemma {:induction false} AllHintsFrom(history: seq<GuessHints>, k: nat)
    requires k < |AllHints(history)|
    ensures exists i, j :: 0 <= i < |history| && 0 <= j < |history[i].letterHints| &&
                           AllHints(history)[k] == history[i].letterHints[j]
  {
    var init := history[..|history| - 1];
    var last := history[|history| - 1];
    if k < |AllHints(init)| {
      AllHintsFrom(init, k);
      var i, j :| 0 <= i < |init| && 0 <= j < |init[i].letterHints| &&
                  AllHints(init)[k] == init[i].letterHints[j];
      assert history[i] == init[i];
    } else {
      assert AllHints(history)[k] == last.letterHints[k - |AllHints(init)|];
    }
  }

  /** ... and every hint of every guess is among the flattened hints. */
  lemma {:induction false} AllHintsHas(history: seq<GuessHints>, i: nat, j: nat)
    requires i < |history| && j < |history[i].letterHints|
    ensures exists k :: 0 <= k < |AllHints(history)| &&
                        AllHints(history)[k] == history[i].letterHints[j]
  {
    var init := history[..|history| - 1];
    if i < |init| {
      AllHintsHas(init, i, j);
      var k :| 0 <= k < |AllHints(init)| && AllHints(init)[k] == init[i].letterHints[j];
      assert AllHints(history)[k] == AllHints(init)[k];
    } else {
      assert AllHints(history)[|AllHints(init)| + j] == history[i].letterHints[j];
    }
  }

  // ---------------------------------------------------------------------
  // get_previous_guesses
  // ---------------------------------------------------------------------

  /** `get_previous_guesses`: the guessed words, one per history entry, in
      history order. */
  function PreviousGuesses(history: seq<GuessHints>): (words: seq<string>)
    ensures |words| == |history|
    ensures forall i :: 0 <= i < |history| ==> words[i] == history[i].word
  {
    if |history| == 0 then []
    else seq(|history|, i requires 0 <= i < |history| => history[i].word)
  }

  /** A later guess only adds its word to the previous guesses. */
  lemma PreviousGuessesAppend(history: seq<GuessHints>, g: GuessHints)
    ensures PreviousGuesses(history + [g]) == PreviousGuesses(history) + [g.word]
  {
  }

  // ---------------------------------------------------------------------
  // get_known_letters
  // ---------------------------------------------------------------------

  /** The letters of the hints marked as in the solution. */
  function InSolutionLetters(hints: seq<LetterHint>): set<char> {
    if hints == [] then {}
    else
      var h := hints[|hints| - 1];
      if h.inSolution then InSolutionLetters(hints[..|hints| - 1]) + {h.letter}
      else InSolutionLetters(hints[..|hints| - 1])
  }

  lemma {:induction false} InSolutionLettersIff(hints: seq<LetterHint>, c: char)
    ensures c in InSolutionLetters(hints) <==>
            exists k :: 0 <= k < |hints| && hints[k].inSolution && hints[k].letter == c
  {
    if hints != [] {
      var init := hints[..|hints| - 1];
      InSolutionLettersIff(init, c);
      if c in InSolutionLetters(init) {
        var k :| 0 <= k < |init| && init[k].inSolution && init[k].letter == c;
        assert hints[k] == init[k];
      }
      if exists k :: 0 <= k < |hints| && hints[k].inSolution && hints[k].letter == c {
        var k :| 0 <= k < |hints| && hints[k].inSolution && hints[k].letter == c;
        if k < |init| {
          assert init[k] == hints[k];
        }
      }
    }
  }

  /** One more hint adds its letter when it is marked as in the solution. */
  lemma InSolutionLettersSnoc(hints: seq<LetterHint>, h: LetterHint)
    ensures h.inSolution ==> InSolutionLetters(hints + [h]) == InSolutionLetters(hints) + {h.letter}
    ensures !h.inSolution ==> InSolutionLetters(hints + [h]) == InSolutionLetters(hints)
  {
    assert (hints + [h])[..|hints|] == hints;
  }

  /** The letters known to be in the solution. */
  function KnownLetters(history: seq<GuessHints>): set<char> {
    InSolutionLetters(AllHints(history))
  }

  /** A letter is known exactly when some hint of some guess marks it as in
      the solution; in particular an empty history knows no letter. */
  lemma KnownLettersIff(history: seq<GuessHints>, c: char)
    ensures c in KnownLetters(history) <==>
            exists i, j :: 0 <= i < |history| && 0 <= j < |history[i].letterHints| &&
                           history[i].letterHints[j].inSolution &&
                           history[i].letterHints[j].letter == c
  {
    InSolutionLettersIff(AllHints(history), c);
    if c in KnownLetters(history) {
      var k :| 0 <= k < |AllHints(history)| && AllHints(history)[k].inSolution &&
               AllHints(history)[k].letter == c;
      AllHintsFrom(history, k);
    }
    if exists i, j :: 0 <= i < |history| && 0 <= j < |history[i].letterHints| &&
                      history[i].letterHints[j].inSolution &&
                      history[i].letterHints[j].letter == c {
      var i, j :| 0 <= i < |history| && 0 <= j < |history[i].letterHints| &&
                  history[i].letterHints[j].inSolution &&
                  history[i].letterHints[j].letter == c;
      AllHintsHas(history, i, j);
    }
  }

  /** `get_known_letters`: the nested loops that collect the letters of the
      hints marked as in the solution. */
  method GetKnownLetters(history: seq<GuessHints>) returns (known: set<char>)
    ensures known == KnownLetters(history)
  {
    known := {};
    if |history| == 0 {
      return;
    }
    for i := 0 to |history|
      invariant known == InSolutionLetters(AllHints(history[..i]))
    {
      var hints := history[i].letterHints;
      ghost var before := AllHints(history[..i]);
      assert before + hints[..0] == before;
      for j := 0 to |hints|
        invariant known == InSolutionLetters(before + hints[..j])
      {
        assert before + hints[..j + 1] == (before + hints[..j]) + [hints[j]];
        InSolutionLettersSnoc(before + hints[..j], hints[j]);
        if hints[j].inSolution {
          known := known + {hints[j].letter};
        }
      }
      assert AllHints(history[..i + 1]) == before + hints[..|hints|] by {
        assert hints[..|hints|] == hints;
        assert history[..i + 1] == history[..i] + [history[i]];
        AllHintsSnoc(history[..i], history[i]);
      }
    }
    assert history[..|history|] == history;
  }

  // ---------------------------------------------------------------------
  // get_known_positions
  // ---------------------------------------------------------------------

  /** The hint fixes letter `h.letter` at index `p`. */
  predicate WritesAt(h: LetterHint, p: nat) {
    h.inPosition && h.position == p
  }

  /** Every in-position hint names one of `n` slots. */
  predicate InRange(hints: seq<LetterHint>, n: nat) {
    forall k :: 0 <= k < |hints| ==> hints[k].inPosition ==> hints[k].position < n
  }

  /** What `get_known_positions` demands of a history: the position of every
      in-position hint indexes the list as long as the first guessed word
      (any other index raises). Hints not in position are never used as an
      index, so their positions are unconstrained. */
  predicate PositionsInRange(history: seq<GuessHints>) {
    |history| > 0 ==>
      forall i, j :: 0 <= i < |history| && 0 <= j < |history[i].letterHints| ==>
        history[i].letterHints[j].inPosition ==>
          history[i].letterHints[j].position < |history[0].word|
  }

  lemma AllHintsInRange(history: seq<GuessHints>, n: nat)
    requires forall i, j :: 0 <= i < |history| && 0 <= j < |history[i].letterHints| ==>
               history[i].letterHints[j].inPosition ==> history[i].letterHints[j].position < n
    ensures InRange(AllHints(history), n)
  {
    forall k | 0 <= k < |AllHints(history)|
      ensures AllHints(history)[k].inPosition ==> AllHints(history)[k].position < n
    {
      AllHintsFrom(history, k);
    }
  }

  /** `n` empty slots (the source's `''`). */
  function Blank(n: nat): (slots: seq<Option<char>>)
    ensures |slots| == n && forall p :: 0 <= p < n ==> slots[p] == None
  {
    seq(n, p => None)
  }

  /** Write the letter of every in-position hint into its slot, in order, so
      that the last write wins. */
  function Place(slots: seq<Option<char>>, hints: seq<LetterHint>): (r: seq<Option<char>>)
    requires InRange(hints, |slots|)
    ensures |r| == |slots|
  {
    if hints == [] then slots
    else
      var h := hints[|hints| - 1];
      var s := Place(slots, hints[..|hints| - 1]);
      if h.inPosition then s[h.position := Some(h.letter)] else s
  }

  /** One more hint writes on top of what the earlier hints left. */
  lemma PlaceSnoc(slots: seq<Option<char>>, hints: seq<LetterHint>, h: LetterHint)
    requires InRange(hints, |slots|) && (h.inPosition ==> h.position < |slots|)
    ensures InRange(hints + [h], |slots|)
    ensures h.inPosition ==>
              Place(slots, hints + [h]) == Place(slots, hints)[h.position := Some(h.letter)]
    ensures !h.inPosition ==> Place(slots, hints + [h]) == Place(slots, hints)
  {
    assert (hints + [h])[..|hints|] == hints;
  }

  /** A slot no hint writes keeps its value. */
  lemma {:induction false} PlaceUntouched(slots: seq<Option<char>>, hints: seq<LetterHint>, p: nat)
    requires InRange(hints, |slots|) && p < |slots|
    requires forall k :: 0 <= k < |hints| ==> !WritesAt(hints[k], p)
    ensures Place(slots, hints)[p] == slots[p]
  {
    if hints != [] {
      PlaceUntouched(slots, hints[..|hints| - 1], p);
    }
  }

  /** A written slot holds the letter of the last hint that writes it. */
  lemma {:induction false} PlaceLastWrite(slots: seq<Option<char>>, hints: seq<LetterHint>, p: nat, k: nat)
    requires InRange(hints, |slots|) && p < |slots|
    requires k < |hints| && WritesAt(hints[k], p)
    requires forall j :: k < j < |hints| ==> !WritesAt(hints[j], p)
    ensures Place(slots, hints)[p] == Some(hints[k].letter)
  {
    if k < |hints| - 1 {
      PlaceLastWrite(slots, hints[..|hints| - 1], p, k);
    }
  }

  /** A slot some hint writes holds the letter of one of its writers. */
  lemma {:induction false} PlaceSomeWrite(slots: seq<Option<char>>, hints: seq<LetterHint>, p: nat)
    requires InRange(hints, |slots|) && p < |slots|
    requires exists k :: 0 <= k < |hints| && WritesAt(hints[k], p)
    ensures exists k :: 0 <= k < |hints| && WritesAt(hints[k], p) &&
                        Place(slots, hints)[p] == Some(hints[k].letter)
  {
    var init := hints[..|hints| - 1];
    if WritesAt(hints[|hints| - 1], p) {
      assert Place(slots, hints)[p] == Some(hints[|hints| - 1].letter);
    } else {
      var k :| 0 <= k < |hints| && WritesAt(hints[k], p);
      assert init[k] == hints[k];
      PlaceSomeWrite(slots, init, p);
      var k' :| 0 <= k' < |init| && WritesAt(init[k'], p) &&
                Place(slots, init)[p] == Some(init[k'].letter);
      assert hints[k'] == init[k'];
    }
  }

  /** The known positions: one slot per letter of the first guessed word,
      holding the letter of the last in-position hint at that index. */
  function KnownPositions(history: seq<GuessHints>): (slots: seq<Option<char>>)
    requires PositionsInRange(history)
    ensures |slots| == if history == [] then 0 else |history[0].word|
  {
    if history == [] then []
    else
      AllHintsInRange(history, |history[0].word|);
      Place(Blank(|history[0].word|), AllHints(history))
  }

  /** Slot `p` holds the letter of the last hint, over the whole history,
      that is in position at `p` ... */
  lemma KnownPositionsLastWrite(history: seq<GuessHints>, p: nat, k: nat)
    requires PositionsInRange(history) && |history| > 0 && p < |history[0].word|
    requires k < |AllHints(history)| && WritesAt(AllHints(history)[k], p)
    requires forall j :: k < j < |AllHints(history)| ==> !WritesAt(AllHints(history)[j], p)
    ensures KnownPositions(history)[p] == Some(AllHints(history)[k].letter)
  {
    AllHintsInRange(history, |history[0].word|);
    PlaceLastWrite(Blank(|history[0].word|), AllHints(history), p, k);
  }

  /** ... and is empty when no hint is in position there. */
  lemma KnownPositionsUnset(history: seq<GuessHints>, p: nat)
    requires PositionsInRange(history) && |history| > 0 && p < |history[0].word|
    requires forall i, j :: 0 <= i < |history| && 0 <= j < |history[i].letterHints| ==>
               !WritesAt(history[i].letterHints[j], p)
    ensures KnownPositions(history)[p] == None
  {
    AllHintsInRange(history, |history[0].word|);
    forall k | 0 <= k < |AllHints(history)|
      ensures !WritesAt(AllHints(history)[k], p)
    {
      AllHintsFrom(history, k);
    }
    PlaceUntouched(Blank(|history[0].word|), AllHints(history), p);
  }

  /** When the last guess has every hint in position, at positions 0 to
      n - 1 of a first word of length n, the known positions spell that
      guess's hint letters, whatever came before. */
  lemma LastFullMatchWins(earlier: seq<GuessHints>, last: GuessHints)
    requires PositionsInRange(earlier + [last])
    requires |last.letterHints| == |(earlier + [last])[0].word|
    requires forall j :: 0 <= j < |last.letterHints| ==> WritesAt(last.letterHints[j], j)
    ensures KnownPositions(earlier + [last]) ==
            seq(|last.letterHints|, p requires 0 <= p < |last.letterHints| =>
                Some(last.letterHints[p].letter))
  {
    var history := earlier + [last];
    var n := |last.letterHints|;
    var before := AllHints(earlier);
    assert history[..|history| - 1] == earlier;
    assert AllHints(history) == before + last.letterHints;
    forall p | 0 <= p < n
      ensures KnownPositions(history)[p] == Some(last.letterHints[p].letter)
    {
      var k := |before| + p;
      assert AllHints(history)[k] == last.letterHints[p];
      forall j | k < j < |AllHints(history)|
        ensures !WritesAt(AllHints(history)[j], p)
      {
        assert AllHints(history)[j] == last.letterHints[j - |before|];
      }
      KnownPositionsLastWrite(history, p, k);
    }
  }

  /** A later guess longer than the first: its hint at index 4 is not in
      position, so it never indexes the two slots of the first word, and
      the known positions are those of the first guess alone. */
  lemma MixedLengthHistory()
    ensures var history := [GuessHints("AB", [LetterHint('A', Green, 0, true, true)]),
                            GuessHints("ABCDE", [LetterHint('Z', White, 4, false, false)])];
            PositionsInRange(history) && KnownPositions(history) == [Some('A'), None]
  {
    var history := [GuessHints("AB", [LetterHint('A', Green, 0, true, true)]),
                    GuessHints("ABCDE", [LetterHint('Z', White, 4, false, false)])];
    var green, white := LetterHint('A', Green, 0, true, true), LetterHint('Z', White, 4, false, false);
    assert AllHints(history[..1]) == [green];
    assert AllHints(history) == [green] + [white];
    PlaceSnoc(Blank(2), [], green);
    PlaceSnoc(Blank(2), [green], white);
    assert Place(Blank(2), [green]) == [Some('A'), None];
  }

  /** `get_known_positions`: a list of empty slots as long as the first
      guessed word, written slot by slot by the in-position hints. */
  method GetKnownPositions(history: seq<GuessHints>) returns (positions: seq<Option<char>>)
    requires PositionsInRange(history)
    ensures positions == KnownPositions(history)
  {
    if |history| == 0 {
      return [];
    }
    var n := |history[0].word|;
    var slots := new Option<char>[n](p => None);
    assert slots[..] == Blank(n);
    for i := 0 to |history|
      invariant InRange(AllHints(history[..i]), n)
      invariant slots[..] == Place(Blank(n), AllHints(history[..i]))
    {
      var hints := history[i].letterHints;
      ghost var before := AllHints(history[..i]);
      assert before + hints[..0] == before;
      for j := 0 to |hints|
        invariant InRange(before + hints[..j], n)
        invariant slots[..] == Place(Blank(n), before + hints[..j])
      {
        assert before + hints[..j + 1] == (before + hints[..j]) + [hints[j]];
        PlaceSnoc(Blank(n), before + hints[..j], hints[j]);
        if hints[j].inPosition {
          slots[hints[j].position] := Some(hints[j].letter);
        }
      }
      assert AllHints(history[..i + 1]) == before + hints[..|hints|] by {
        assert hints[..|hints|] == hints;
        assert history[..i + 1] == history[..i] + [history[i]];
        AllHintsSnoc(history[..i], history[i]);
      }
    }
    assert history[..|history|] == history;
    positions := slots[..];
  }

  // ---------------------------------------------------------------------
  // Histories produced by one game
  // ---------------------------------------------------------------------

  /** Every entry carries the hints the engine gives for its word against
      `solution`. */
  predicate Consistent(history: seq<GuessHints>, solution: string) {
    forall i :: 0 <= i < |history| ==>
      |history[i].word| == |solution| &&
      history[i].letterHints == LetterHints(solution, history[i].word)
  }

  /** In a consistent history every in-position hint names the solution's
      letter at its position. */
  lemma ConsistentWrites(history: seq<GuessHints>, solution: string, k: nat)
    requires Consistent(history, solution)
    requires k < |AllHints(history)| && AllHints(history)[k].inPosition
    ensures AllHints(history)[k].position < |solution|
    ensures AllHints(history)[k].letter == solution[AllHints(history)[k].position]
  {
    AllHintsFrom(history, k);
  }

  /** A consistent history meets what the source demands of it. */
  lemma ConsistentInRange(history: seq<GuessHints>, solution: string)
    requires Consistent(history, solution)
    ensures PositionsInRange(history)
  {
    if history != [] {
      forall i, j | 0 <= i < |history| && 0 <= j < |history[i].letterHints|
        ensures history[i].letterHints[j].inPosition ==>
                history[i].letterHints[j].position < |history[0].word|
      {
        assert history[i].letterHints[j].position == j;
      }
    }
  }

  /** In a consistent history a slot is filled exactly when some hint is in
      position there, and then it holds the solution's letter. */
  lemma ConsistentSlot(history: seq<GuessHints>, solution: string, p: nat)
    requires Consistent(history, solution) && |history| > 0 && p < |history[0].word|
    ensures PositionsInRange(history)
    ensures KnownPositions(history)[p].Some? <==>
            exists k :: 0 <= k < |AllHints(history)| && WritesAt(AllHints(history)[k], p)
    ensures KnownPositions(history)[p].Some? ==> KnownPositions(history)[p] == Some(solution[p])
  {
    var n := |history[0].word|;
    var all := AllHints(history);
    ConsistentInRange(history, solution);
    AllHintsInRange(history, n);
    if exists k :: 0 <= k < |all| && WritesAt(all[k], p) {
      PlaceSomeWrite(Blank(n), all, p);
      var k :| 0 <= k < |all| && WritesAt(all[k], p) &&
               Place(Blank(n), all)[p] == Some(all[k].letter);
      ConsistentWrites(history, solution, k);
    } else {
      PlaceUntouched(Blank(n), all, p);
    }
  }

  /** Once the solution itself has been guessed, the known positions spell
      the solution. */
  lemma SolvedPositionsSpellSolution(history: seq<GuessHints>, solution: string, i: nat)
    requires Consistent(history, solution) && i < |history| && history[i].word == solution
    ensures PositionsInRange(history)
    ensures KnownPositions(history) ==
            seq(|solution|, p requires 0 <= p < |solution| => Some(solution[p]))
  {
    ConsistentInRange(history, solution);
    forall p | 0 <= p < |solution|
      ensures KnownPositions(history)[p] == Some(solution[p])
    {
      AllHintsHas(history, i, p);
      ConsistentSlot(history, solution, p);
    }
  }

  // ---------------------------------------------------------------------
  // The validity filter and the simple guesser
  // ---------------------------------------------------------------------

  predicate HasLetters(word: string, letters: set<char>) {
    forall c :: c in letters ==> c in word
  }

  /** The word has letter `c` at index `p` (its `pos_p` column equals `c`). */
  predicate MatchesAt(word: string, p: nat, c: char) {
    p < |word| && word[p] == c
  }

  predicate MatchesUpTo(word: string, positions: seq<Option<char>>, m: nat)
    requires m <= |positions|
  {
    forall p :: 0 <= p < m && positions[p].Some? ==> MatchesAt(word, p, positions[p].value)
  }

  /** A dictionary word is still worth guessing when it has not been
      guessed, contains every known letter and agrees with every known
      position. */
  predicate StillValid(word: string, history: seq<GuessHints>)
    requires PositionsInRange(history)
  {
    && word !in PreviousGuesses(history)
    && HasLetters(word, KnownLetters(history))
    && MatchesUpTo(word, KnownPositions(history), |KnownPositions(history)|)
  }

  /** Before any guess every word is still valid. */
  lemma EmptyHistoryAllValid(word: string)
    ensures StillValid(word, [])
  {
  }

  /** A further guess never forgets a known letter. */
  lemma KnownLettersGrow(history: seq<GuessHints>, g: GuessHints)
    ensures KnownLetters(history) <= KnownLetters(history + [g])
  {
    var longer := history + [g];
    forall c | c in KnownLetters(history)
      ensures c in KnownLetters(longer)
    {
      KnownLettersIff(history, c);
      var i, j :| 0 <= i < |history| && 0 <= j < |history[i].letterHints| &&
                  history[i].letterHints[j].inSolution && history[i].letterHints[j].letter == c;
      assert longer[i] == history[i];
      KnownLettersIff(longer, c);
    }
  }

  /** In a game against one solution a further guess keeps every known
      position, with its letter. */
  lemma KnownPositionsStay(history: seq<GuessHints>, g: GuessHints, solution: string, p: nat)
    requires Consistent(history, solution) && Consistent(history + [g], solution)
    requires PositionsInRange(history) && PositionsInRange(history + [g])
    requires history != [] && p < |history[0].word| && KnownPositions(history)[p].Some?
    ensures KnownPositions(history + [g])[p] == KnownPositions(history)[p]
  {
    var longer := history + [g];
    assert longer[0] == history[0];
    ConsistentSlot(history, solution, p);
    var k :| 0 <= k < |AllHints(history)| && WritesAt(AllHints(history)[k], p);
    AllHintsSnoc(history, g);
    assert AllHints(longer)[k] == AllHints(history)[k];
    ConsistentSlot(longer, solution, p);
  }

  /** In a game against one solution a further guess can only remove
      candidates, never add one. */
  lemma StillValidShrinks(word: string, history: seq<GuessHints>, g: GuessHints, solution: string)
    requires Consistent(history + [g], solution)
    requires PositionsInRange(history + [g]) && StillValid(word, history + [g])
    ensures PositionsInRange(history) && StillValid(word, history)
  {
    var longer := history + [g];
    assert longer[..|history|] == history;
    assert Consistent(history, solution);
    ConsistentInRange(history, solution);
    PreviousGuessesAppend(history, g);
    KnownLettersGrow(history, g);
    if history != [] {
      assert longer[0] == history[0];
      forall p | 0 <= p < |history[0].word| && KnownPositions(history)[p].Some?
        ensures MatchesAt(word, p, KnownPositions(history)[p].value)
      {
        KnownPositionsStay(history, g, solution, p);
      }
    }
  }

  /** Step one of the filter: flags the words already guessed and clears
      their validity. */
  method MarkGuessed(words: seq<string>, previous: seq<string>, flagged: array<bool>, valid: array<bool>)
    requires flagged.Length == |words| && valid.Length == |words| && flagged != valid
    modifies flagged, valid
    ensures forall k :: 0 <= k < |words| ==> flagged[k] == (old(flagged[k]) || words[k] in previous)
    ensures forall k :: 0 <= k < |words| ==> valid[k] == (old(valid[k]) && words[k] !in previous)
  {
    for k := 0 to |words|
      invariant forall k' :: 0 <= k' < k ==>
                  flagged[k'] == (old(flagged[k']) || words[k'] in previous) &&
                  valid[k'] == (old(valid[k']) && words[k'] !in previous)
      invariant forall k' :: k <= k' < |words| ==>
                  flagged[k'] == old(flagged[k']) && valid[k'] == old(valid[k'])
    {
      if words[k] in previous {
        flagged[k] := true;
        valid[k] := false;
      }
    }
  }

  /** Step two, for one known letter: clears the validity of the words that
      do not contain it. */
  method DropMissingLetter(words: seq<string>, letter: char, valid: array<bool>)
    requires valid.Length == |words|
    modifies valid
    ensures forall k :: 0 <= k < |words| ==> valid[k] == (old(valid[k]) && letter in words[k])
  {
    for k := 0 to |words|
      invariant forall k' :: 0 <= k' < k ==> valid[k'] == (old(valid[k']) && letter in words[k'])
      invariant forall k' :: k <= k' < |words| ==> valid[k'] == old(valid[k'])
    {
      if letter !in words[k] {
        valid[k] := false;
      }
    }
  }

  /** Step three, for one known position: clears the validity of the words
      whose letter at `p` is not `letter`. */
  method DropMismatch(words: seq<string>, p: nat, letter: char, valid: array<bool>)
    requires valid.Length == |words|
    modifies valid
    ensures forall k :: 0 <= k < |words| ==> valid[k] == (old(valid[k]) && MatchesAt(words[k], p, letter))
  {
    for k := 0 to |words|
      invariant forall k' :: 0 <= k' < k ==> valid[k'] == (old(valid[k']) && MatchesAt(words[k'], p, letter))
      invariant forall k' :: k <= k' < |words| ==> valid[k'] == old(valid[k'])
    {
      if !MatchesAt(words[k], p, letter) {
        valid[k] := false;
      }
    }
  }

  /** The filtering part of `get_fancy_guess_hints_dataframe`: the `guessed`
      and `is_still_valid` columns. Each step only clears `is_still_valid`,
      and the known letters are taken in an arbitrary order, so the result
      does not depend on that order. */
  method FilterColumns(words: seq<string>, history: seq<GuessHints>)
    returns (guessed: seq<bool>, isStillValid: seq<bool>)
    requires PositionsInRange(history)
    ensures |guessed| == |words| && |isStillValid| == |words|
    ensures forall k :: 0 <= k < |words| ==> (guessed[k] <==> words[k] in PreviousGuesses(history))
    ensures forall k :: 0 <= k < |words| ==> (isStillValid[k] <==> StillValid(words[k], history))
  {
    var flagged := new bool[|words|](k => false);
    var valid := new bool[|words|](k => true);
    if |history| > 0 {
      var previous := PreviousGuesses(history);
      var known := GetKnownLetters(history);
      var positions := GetKnownPositions(history);
      MarkGuessed(words, previous, flagged, valid);

      var remaining := known;
      while remaining != {}
        modifies valid
        invariant remaining <= known
        invariant forall k :: 0 <= k < |words| ==>
                    (valid[k] <==> words[k] !in previous && HasLetters(words[k], known - remaining))
        decreases remaining
      {
        var letter :| letter in remaining;
        DropMissingLetter(words, letter, valid);
        assert known - (remaining - {letter}) == known - remaining + {letter};
        remaining := remaining - {letter};
      }

      for p := 0 to |positions|
        modifies valid
        invariant forall k :: 0 <= k < |words| ==>
                    (valid[k] <==> words[k] !in previous && HasLetters(words[k], known) &&
                                   MatchesUpTo(words[k], positions, p))
      {
        if positions[p].Some? {
          DropMismatch(words, p, positions[p].value, valid);
        }
      }
    }
    guessed := flagged[..];
    isStillValid := valid[..];
  }

  /** `a_simple_guess_function_template`: the first dictionary word that is
      still valid; `None` where the source fails on an empty selection. */
  method SimpleGuess(words: seq<string>, history: seq<GuessHints>) returns (pick: Option<string>)
    requires PositionsInRange(history)
    ensures pick.None? <==> forall k :: 0 <= k < |words| ==> !StillValid(words[k], history)
    ensures pick.Some? ==>
              exists k :: 0 <= k < |words| && words[k] == pick.value &&
                          StillValid(words[k], history) &&
                          forall j :: 0 <= j < k ==> !StillValid(words[j], history)
  {
    var guessed, valid := FilterColumns(words, history);
    for k := 0 to |words|
      invariant forall j :: 0 <= j < k ==> !valid[j]
    {
      if valid[k] {
        return Some(words[k]);
      }
    }
    return None;
  }
}
