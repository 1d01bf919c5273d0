/**
 * The computer code-breaker: the state of a ComputerSolver (the candidate
 * list s, the unused list, the record of previous guesses and the secret),
 * the GameMode bookkeeping it inherits, and the solving loop.
 */
module Solver {
  import opened Codes
  import opened Evaluation
  import opened Scoring

  /** One recorded turn: [checked_guess, exact_and_colour_match]. */
  datatype Turn = Turn(guess: Code, result: Feedback)

  /** The fixed opening guess 1122. */
  const Opening: Code := [1, 1, 2, 2]

  /** The number of recorded turns at which a game is lost. */
  const MaxTurns: nat := 12

  /** Some turn of the record guessed c. */
  predicate Guessed(turns: seq<Turn>, c: Code)
  {
    |turns| > 0 && (Guessed(turns[..|turns| - 1], c) || turns[|turns| - 1].guess == c)
  }

  /** c, had it been the secret, would have produced every recorded result. */
  predicate ConsistentWithAll(turns: seq<Turn>, c: Code)
  {
    |turns| == 0 ||
    (ConsistentWithAll(turns[..|turns| - 1], c) && FeedbackOf(turns[|turns| - 1].guess, c) == turns[|turns| - 1].result)
  }

  /** Every recorded result is the true feedback of its guess against the secret. */
  predicate Honest(turns: seq<Turn>, secret: Code)
  {
    |turns| == 0 ||
    (Honest(turns[..|turns| - 1], secret) && turns[|turns| - 1].result == FeedbackOf(turns[|turns| - 1].guess, secret))
  }

  /** No code was played twice: each turn's guess differs from every earlier one. */
  predicate NoReplays(turns: seq<Turn>)
  {
    |turns| == 0 ||
    (NoReplays(turns[..|turns| - 1]) && !Guessed(turns[..|turns| - 1], turns[|turns| - 1].guess))
  }

  /** Guessed, position by position. */
  lemma {:induction false} GuessedAt(turns: seq<Turn>, c: Code)
    ensures Guessed(turns, c) <==> exists k :: 0 <= k < |turns| && turns[k].guess == c
  {
    if |turns| > 0 {
      var init := turns[..|turns| - 1];
      GuessedAt(init, c);
      if Guessed(init, c) {
        var k :| 0 <= k < |init| && init[k].guess == c;
        assert turns[k].guess == c;
      }
      if exists k :: 0 <= k < |turns| && turns[k].guess == c {
        var k :| 0 <= k < |turns| && turns[k].guess == c;
        if k < |init| {
          assert init[k].guess == c;
        }
      }
    }
  }

  /** An honest record, position by position: every result is the feedback of its guess against the secret. */
  lemma {:induction false} HonestAt(turns: seq<Turn>, secret: Code, k: nat)
    requires Honest(turns, secret) && k < |turns|
    ensures turns[k].result == FeedbackOf(turns[k].guess, secret)
  {
    if k < |turns| - 1 {
      HonestAt(turns[..|turns| - 1], secret, k);
    }
  }

  /** A record without replays, pairwise: the guesses of two different turns differ. */
  lemma {:induction false} NoReplaysAt(turns: seq<Turn>, a: nat, b: nat)
    requires NoReplays(turns) && a < b < |turns|
    ensures turns[a].guess != turns[b].guess
  {
    var init := turns[..|turns| - 1];
    if b < |turns| - 1 {
      NoReplaysAt(init, a, b);
    } else {
      GuessedAt(init, turns[b].guess);
      assert init[a] == turns[a];
    }
  }

  /**
   * unused holds exactly the codes the turns did not play, and s exactly
   * those of them that are consistent with every result of the turns.
   */
  ghost predicate Tracks(turns: seq<Turn>, s: seq<Code>, unused: seq<Code>)
  {
    && (forall c :: c in unused <==> !Guessed(turns, c))
    && (forall c :: c in s <==> !Guessed(turns, c) && ConsistentWithAll(turns, c))
  }

  /** unused once solve has dropped the guess of each turn, in order, from the full set. */
  function UnusedAfter(turns: seq<Turn>): seq<Code>
  {
    if |turns| == 0 then AllCodes()
    else Without(UnusedAfter(turns[..|turns| - 1]), turns[|turns| - 1].guess)
  }

  /** s once solve has, for each turn in order, dropped its guess and pruned by its result, starting from the full set. */
  function CandidatesAfter(turns: seq<Turn>): seq<Code>
  {
    if |turns| == 0 then AllCodes()
    else
      var last := turns[|turns| - 1];
      Consistent(Without(CandidatesAfter(turns[..|turns| - 1]), last.guess), last.guess, last.result)
  }

  /** unused after the turns holds exactly the codes they did not play, in enumeration order. */
  lemma {:induction false} UnusedAfterUnplayed(turns: seq<Turn>)
    ensures forall c :: c in UnusedAfter(turns) <==> !Guessed(turns, c)
    ensures Sorted(UnusedAfter(turns)) && Distinct(UnusedAfter(turns))
  {
    if |turns| > 0 {
      UnusedAfterUnplayed(turns[..|turns| - 1]);
    }
  }

  /** s after the turns holds exactly the unplayed codes consistent with every result, in enumeration order. */
  lemma {:induction false} CandidatesAfterConsistent(turns: seq<Turn>)
    ensures forall c :: c in CandidatesAfter(turns) <==> !Guessed(turns, c) && ConsistentWithAll(turns, c)
    ensures Sorted(CandidatesAfter(turns)) && Distinct(CandidatesAfter(turns))
  {
    if |turns| > 0 {
      CandidatesAfterConsistent(turns[..|turns| - 1]);
    }
  }

  /**
   * unused and s after the turns are the ones Tracks describes; both keep the
   * enumeration order and so hold no code twice.
   */
  lemma AfterTracks(turns: seq<Turn>)
    ensures Tracks(turns, CandidatesAfter(turns), UnusedAfter(turns))
    ensures Sorted(UnusedAfter(turns)) && Distinct(UnusedAfter(turns))
    ensures Sorted(CandidatesAfter(turns)) && Distinct(CandidatesAfter(turns))
  {
    UnusedAfterUnplayed(turns);
    CandidatesAfterConsistent(turns);
  }

  /**
   * The record is the one solve plays: the opening 1122, then each guess the
   * pick of find_next_guess from unused and s as the earlier turns left them.
   */
  predicate FollowsStrategy(turns: seq<Turn>)
  {
    if |turns| <= 1 then |turns| == 0 || turns[0].guess == Opening
    else
      var init := turns[..|turns| - 1];
      && FollowsStrategy(init)
      && |UnusedAfter(init)| > 0
      && turns[|turns| - 1].guess == NextGuess(UnusedAfter(init), CandidatesAfter(init))
  }

  /** No turn before the last has four exact matches. */
  predicate NoEarlierWin(turns: seq<Turn>)
  {
    forall k :: 0 <= k < |turns| - 1 ==> turns[k].result.exact != 4
  }

  /** The record ends at its first win: the last result, and no earlier one, has four exact matches. */
  predicate StopsAtFirstWin(turns: seq<Turn>)
  {
    && |turns| > 0
    && turns[|turns| - 1].result.exact == 4
    && NoEarlierWin(turns)
  }

  /**
   * What holds each time solve tests check_win: the record is the strategy's
   * play, honestly scored, with no earlier win; s and unused are as every
   * turn but the last left them; the last guess is still unused; the secret
   * is still a candidate and unused.
   */
  ghost predicate SolveInvariant(turns: seq<Turn>, s: seq<Code>, unused: seq<Code>, guess: Code, secret: Code)
  {
    && |turns| > 0
    && turns[0].guess == Opening
    && turns[|turns| - 1].guess == guess
    && FollowsStrategy(turns)
    && Honest(turns, secret)
    && NoReplays(turns)
    && NoEarlierWin(turns)
    && s == CandidatesAfter(turns[..|turns| - 1])
    && unused == UnusedAfter(turns[..|turns| - 1])
    && guess in unused
    && secret in s && secret in unused
    && |turns| + |unused| <= CodeCount + 1
  }

  /** After the opening is played, a fresh solver satisfies the invariant of solve. */
  lemma SolveInvariantHoldsFirst(secret: Code)
    ensures SolveInvariant([Turn(Opening, FeedbackOf(Opening, secret))], AllCodes(), AllCodes(), Opening, secret)
  {
    var turns := [Turn(Opening, FeedbackOf(Opening, secret))];
    assert turns[..0] == [];
  }

  /** Recording the true feedback of one more guess keeps the record honest. */
  lemma HonestSnoc(turns: seq<Turn>, next: Code, secret: Code)
    requires Honest(turns, secret)
    ensures Honest(turns + [Turn(next, FeedbackOf(next, secret))], secret)
  {
    assert (turns + [Turn(next, FeedbackOf(next, secret))])[..|turns|] == turns;
  }

  /** Playing a code not played before keeps every code played at most once. */
  lemma NoReplaysSnoc(turns: seq<Turn>, t: Turn)
    requires NoReplays(turns) && !Guessed(turns, t.guess)
    ensures NoReplays(turns + [t])
  {
    assert (turns + [t])[..|turns|] == turns;
  }

  /** Extending a record by one turn keeps the record as its prefix. */
  lemma PrefixOfSnoc(turns: seq<Turn>, t: Turn)
    ensures (turns + [t])[..|turns|] == turns
  {
  }

  /** Playing find_next_guess's pick after a strategy record extends the strategy record. */
  lemma FollowsStrategySnoc(turns: seq<Turn>, t: Turn)
    requires FollowsStrategy(turns) && |turns| > 0 && |UnusedAfter(turns)| > 0
    requires t.guess == NextGuess(UnusedAfter(turns), CandidatesAfter(turns))
    ensures FollowsStrategy(turns + [t])
  {
    PrefixOfSnoc(turns, t);
  }

  /**
   * At a check_win test that fails, the last guess is not the secret, so the
   * secret stays unused once that guess is dropped.
   */
  lemma SolveRoundStart(turns: seq<Turn>, s: seq<Code>, unused: seq<Code>, guess: Code, secret: Code)
    requires SolveInvariant(turns, s, unused, guess, secret)
    requires turns[|turns| - 1].result.exact != 4
    ensures guess != secret
    ensures secret in Without(unused, guess)
  {
    HonestAt(turns, secret, |turns| - 1);
    ExactFourIffEqual(guess, secret);
  }

  /**
   * What solve achieves: the record is the strategy's play against the
   * secret, honestly scored, at most 625 turns long, stopping at its first
   * win, which guesses the secret with [4, 0], and never replaying a code;
   * s and unused are what every turn but the last left (unused the codes not
   * played before the last turn, s those of them consistent with every
   * earlier result), both in enumeration order, with the secret in s.
   */
  ghost predicate Solved(turns: seq<Turn>, s: seq<Code>, unused: seq<Code>, secret: Code)
  {
    && 0 < |turns| <= CodeCount
    && turns[0].guess == Opening
    && FollowsStrategy(turns)
    && Honest(turns, secret)
    && StopsAtFirstWin(turns)
    && turns[|turns| - 1] == Turn(secret, Feedback(4, 0))
    && NoReplays(turns)
    && s == CandidatesAfter(turns[..|turns| - 1])
    && unused == UnusedAfter(turns[..|turns| - 1])
    && Tracks(turns[..|turns| - 1], s, unused)
    && Sorted(s) && Sorted(unused)
    && secret in s && (forall c :: c in s ==> c in unused)
  }

  /** At a check_win test that succeeds, solve has achieved its outcome, and the last guess is the secret. */
  lemma SolveInvariantAtWin(turns: seq<Turn>, s: seq<Code>, unused: seq<Code>, guess: Code, secret: Code)
    requires SolveInvariant(turns, s, unused, guess, secret)
    requires turns[|turns| - 1].result.exact == 4
    ensures guess == secret
    ensures Solved(turns, s, unused, secret)
  {
    AfterTracks(turns[..|turns| - 1]);
    HonestAt(turns, secret, |turns| - 1);
    ExactFourIffEqual(guess, secret);
    SelfFeedback(secret);
  }

  /** A turn played after a last turn that did not win keeps every turn before the new last one a non-win. */
  lemma NoEarlierWinSnoc(turns: seq<Turn>, t: Turn)
    requires NoEarlierWin(turns) && |turns| > 0 && turns[|turns| - 1].result.exact != 4
    ensures NoEarlierWin(turns + [t])
  {
    assert forall k :: 0 <= k < |turns| ==> (turns + [t])[k] == turns[k];
  }

  /**
   * The state half of a round of solve: when the last result is not a win,
   * dropping the last guess and pruning by its result gives unused and s for
   * the whole record, with one code fewer unused and the secret still in both.
   */
  lemma SolveRoundState(turns: seq<Turn>, s: seq<Code>, unused: seq<Code>, guess: Code, secret: Code)
    requires SolveInvariant(turns, s, unused, guess, secret)
    requires turns[|turns| - 1].result.exact != 4
    ensures UnusedAfter(turns) == Without(unused, guess) && |UnusedAfter(turns)| < |unused|
    ensures CandidatesAfter(turns) == Consistent(Without(s, guess), guess, turns[|turns| - 1].result)
    ensures secret in CandidatesAfter(turns) && secret in UnusedAfter(turns)
  {
    SolveRoundStart(turns, s, unused, guess, secret);
    HonestAt(turns, secret, |turns| - 1);
  }

  /**
   * The record half of a round of solve: playing find_next_guess's pick on
   * the unused and s the whole record leaves, and recording its true
   * feedback, re-establishes the invariant for the longer record.
   */
  lemma SolveInvariantPreserved(turns: seq<Turn>, secret: Code)
    requires |turns| > 0 && turns[0].guess == Opening
    requires FollowsStrategy(turns) && Honest(turns, secret) && NoReplays(turns)
    requires NoEarlierWin(turns) && turns[|turns| - 1].result.exact != 4
    requires secret in CandidatesAfter(turns) && secret in UnusedAfter(turns)
    requires |turns| + |UnusedAfter(turns)| <= CodeCount
    ensures var next := NextGuess(UnusedAfter(turns), CandidatesAfter(turns));
      SolveInvariant(turns + [Turn(next, FeedbackOf(next, secret))], CandidatesAfter(turns), UnusedAfter(turns), next, secret)
  {
    var next := NextGuess(UnusedAfter(turns), CandidatesAfter(turns));
    var t := Turn(next, FeedbackOf(next, secret));
    AfterTracks(turns);
    FollowsStrategySnoc(turns, t);
    HonestSnoc(turns, next, secret);
    NoReplaysSnoc(turns, t);
    NoEarlierWinSnoc(turns, t);
    PrefixOfSnoc(turns, t);
  }

  /**
   * One round of solve keeps its invariant: when the last result is not a
   * win, dropping the last guess from s and unused, pruning s by its result,
   * and playing find_next_guess's pick on what is left, with its true
   * feedback, gives the invariant for the longer record, with fewer codes
   * unused.
   */
  lemma SolveRound(turns: seq<Turn>, s: seq<Code>, unused: seq<Code>, guess: Code, secret: Code,
                   turns': seq<Turn>, s': seq<Code>, unused': seq<Code>, next: Code)
    requires SolveInvariant(turns, s, unused, guess, secret)
    requires turns[|turns| - 1].result.exact != 4
    requires unused' == Without(unused, guess)
    requires s' == Consistent(Without(s, guess), guess, turns[|turns| - 1].result)
    requires |unused'| > 0 && next == NextGuess(unused', s')
    requires turns' == turns + [Turn(next, FeedbackOf(next, secret))]
    ensures SolveInvariant(turns', s', unused', next, secret)
    ensures |unused'| < |unused|
  {
    SolveRoundState(turns, s, unused, guess, secret);
    SolveInvariantPreserved(turns, secret);
  }

  /** Dropping the last turn of a record and then cutting at n cuts the record at n. */
  lemma PrefixOfInit(turns: seq<Turn>, n: nat)
    requires n < |turns|
    ensures turns[..|turns| - 1][..n] == turns[..n]
  {
  }

  /** A record is its own prefix at full length. */
  lemma WholePrefix(turns: seq<Turn>)
    ensures turns[..|turns|] == turns
  {
  }

  /** Two records of the same length agreeing on all turns but the last, and on the last one, are equal. */
  lemma SnocEqual(t1: seq<Turn>, t2: seq<Turn>)
    requires |t1| == |t2| > 0
    requires t1[..|t1| - 1] == t2[..|t2| - 1] && t1[|t1| - 1] == t2[|t2| - 1]
    ensures t1 == t2
  {
    assert t1 == t1[..|t1| - 1] + [t1[|t1| - 1]];
    assert t2 == t2[..|t2| - 1] + [t2[|t2| - 1]];
  }

  /** A prefix of a strategy record scored honestly is one too. */
  lemma {:induction false} PrefixFollowsStrategy(turns: seq<Turn>, n: nat, secret: Code)
    requires FollowsStrategy(turns) && Honest(turns, secret) && n <= |turns|
    ensures FollowsStrategy(turns[..n]) && Honest(turns[..n], secret)
    decreases |turns|
  {
    if n < |turns| {
      PrefixFollowsStrategy(turns[..|turns| - 1], n, secret);
      PrefixOfInit(turns, n);
    } else {
      WholePrefix(turns);
    }
  }

  /**
   * The strategy's next turn depends only on the record so far: two strategy
   * records scored honestly against one secret that agree before their last
   * turn agree on it too.
   */
  lemma LastTurnAgrees(t1: seq<Turn>, t2: seq<Turn>, secret: Code)
    requires |t1| == |t2| > 0 && t1[..|t1| - 1] == t2[..|t2| - 1]
    requires FollowsStrategy(t1) && Honest(t1, secret)
    requires FollowsStrategy(t2) && Honest(t2, secret)
    ensures t1[|t1| - 1] == t2[|t2| - 1]
  {
    HonestAt(t1, secret, |t1| - 1);
    HonestAt(t2, secret, |t2| - 1);
  }

  /** Two strategy records of the same length scored honestly against the same secret are equal. */
  lemma {:induction false} SameLengthRecordsAgree(t1: seq<Turn>, t2: seq<Turn>, secret: Code)
    requires |t1| == |t2|
    requires FollowsStrategy(t1) && Honest(t1, secret)
    requires FollowsStrategy(t2) && Honest(t2, secret)
    ensures t1 == t2
  {
    if |t1| > 0 {
      SameLengthRecordsAgree(t1[..|t1| - 1], t2[..|t2| - 1], secret);
      LastTurnAgrees(t1, t2, secret);
      SnocEqual(t1, t2);
    }
  }

  /**
   * Of two strategy records for one secret that each stop at their first win,
   * the shorter is the longer: neither can win before the other does.
   */
  lemma ShorterRecordIsEqual(t1: seq<Turn>, t2: seq<Turn>, secret: Code)
    requires |t1| <= |t2|
    requires FollowsStrategy(t1) && Honest(t1, secret) && StopsAtFirstWin(t1)
    requires FollowsStrategy(t2) && Honest(t2, secret) && StopsAtFirstWin(t2)
    ensures t1 == t2
  {
    PrefixFollowsStrategy(t2, |t1|, secret);
    SameLengthRecordsAgree(t1, t2[..|t1|], secret);
    assert |t1| == |t2| by {
      assert t2[|t1| - 1] == t1[|t1| - 1];
    }
    WholePrefix(t2);
  }

  /**
   * The record is a function of the secret: two strategy records, scored
   * honestly against the same secret and each stopping at its first win,
   * are the same record.
   */
  lemma RecordDetermined(t1: seq<Turn>, t2: seq<Turn>, secret: Code)
    requires FollowsStrategy(t1) && Honest(t1, secret) && StopsAtFirstWin(t1)
    requires FollowsStrategy(t2) && Honest(t2, secret) && StopsAtFirstWin(t2)
    ensures t1 == t2
  {
    if |t1| <= |t2| {
      ShorterRecordIsEqual(t1, t2, secret);
    } else {
      ShorterRecordIsEqual(t2, t1, secret);
    }
  }

  class ComputerSolver {
    /** The codes that may still be the secret. */
    var s: seq<Code>
    /** The codes not yet played. */
    var unused: seq<Code>
    /** The record of turns, oldest first. */
    var previousGuesses: seq<Turn>
    /** The code to break. */
    var secretCode: Code

    /**
     * A new solver (initialize) whose secret has been entered (set_secret_code):
     * every code is a candidate and unused, in enumeration order, and no turn
     * is recorded. The input has already passed check_input.
     */
    constructor (secretInput: seq<char>)
      requires CheckInput(secretInput)
      ensures s == AllCodes() && unused == AllCodes()
      ensures previousGuesses == []
      ensures Spell(secretCode) == secretInput
    {
      s := AllCodes();
      unused := AllCodes();
      previousGuesses := [];
      secretCode := ToCode(secretInput);
    }

    /** check_loose: twelve or more turns are on record. */
    function CheckLoose(): (lost: bool)
      reads this
    {
      |previousGuesses| >= MaxTurns
    }

    /**
     * check_win: the last recorded result has four exact matches. When that
     * result is the true feedback of its guess, this holds exactly when the
     * guess is the secret.
     */
    function CheckWin(): (won: bool)
      reads this
      requires |previousGuesses| > 0
      ensures var last := previousGuesses[|previousGuesses| - 1];
        last.result == FeedbackOf(last.guess, secretCode) ==> (won <==> last.guess == secretCode)
    {
      var last := previousGuesses[|previousGuesses| - 1];
      ExactFourIffEqual(last.guess, secretCode);
      last.result.exact == 4
    }

    /** add_guess: appends one turn to the record; a lost game stays lost. */
    method AddGuess(checkedGuess: Code, result: Feedback)
      modifies this`previousGuesses
      ensures previousGuesses == old(previousGuesses) + [Turn(checkedGuess, result)]
      ensures old(CheckLoose()) ==> CheckLoose()
    {
      previousGuesses := previousGuesses + [Turn(checkedGuess, result)];
    }

    /** submit_guess: scores guess against the secret and records the turn. */
    method SubmitGuess(guess: Code)
      modifies this`previousGuesses
      ensures previousGuesses == old(previousGuesses) + [Turn(guess, FeedbackOf(guess, secretCode))]
      ensures s == old(s) && unused == old(unused)
    {
      var result := Compare(guess, secretCode);
      AddGuess(guess, result);
    }

    /**
     * delete_impossible_codes: removes from s, in place, every code whose
     * feedback against guess differs from the observed result; the survivors
     * keep their order.
     */
    method DeleteImpossibleCodes(result: Feedback, guess: Code)
      modifies this`s
      ensures s == Consistent(old(s), guess, result)
      ensures unused == old(unused) && previousGuesses == old(previousGuesses)
    {
      var codes := s;
      var kept: seq<Code> := [];
      for i := 0 to |codes|
        invariant kept == Consistent(codes[..i], guess, result)
      {
        var fb := Compare(guess, codes[i]);
        ConsistentStep(codes, i, guess, result);
        if fb == result {
          kept := kept + [codes[i]];
        }
      }
      assert codes[..|codes|] == codes;
      s := kept;
    }

    /**
     * One pass of solve's loop after a turn that did not win: drops guess from
     * s and unused, prunes s by the last result, and plays and records
     * find_next_guess's pick, which it returns.
     */
    method PlayRound(guess: Code) returns (next: Code)
      requires |previousGuesses| > 0 && |Without(unused, guess)| > 0
      modifies this`s, this`unused, this`previousGuesses
      ensures unused == Without(old(unused), guess)
      ensures s == Consistent(Without(old(s), guess), guess, old(previousGuesses[|previousGuesses| - 1].result))
      ensures next == NextGuess(unused, s)
      ensures previousGuesses == old(previousGuesses) + [Turn(next, FeedbackOf(next, secretCode))]
    {
      var last := previousGuesses[|previousGuesses| - 1];
      s := Without(s, guess);
      unused := Without(unused, guess);
      DeleteImpossibleCodes(last.result, guess);
      next := NextGuess(unused, s);
      SubmitGuess(next);
    }

    /**
     * solve: plays 1122, then until a win drops the guess from s and unused,
     * prunes s by the last result, plays find_next_guess's pick and records
     * it. It ends at the first win, with the secret guessed and every code
     * played at most once; the record is the strategy's play against the
     * secret, and s and unused are what every turn but the last left: unused
     * the codes not played before the last turn, s those of them consistent
     * with every earlier result, both in enumeration order, the secret in s.
     */
    method Solve()
      requires s == AllCodes() && unused == AllCodes() && previousGuesses == []
      modifies this`s, this`unused, this`previousGuesses
      ensures Solved(previousGuesses, s, unused, secretCode)
    {
      var guess := Opening;
      SubmitGuess(guess);
      SolveInvariantHoldsFirst(secretCode);
      while !CheckWin()
        invariant SolveInvariant(previousGuesses, s, unused, guess, secretCode)
        decreases |unused|
      {
        ghost var turns, s0, unused0, guess0 := previousGuesses, s, unused, guess;
        SolveRoundStart(turns, s0, unused0, guess0, secretCode);
        guess := PlayRound(guess);
        SolveRound(turns, s0, unused0, guess0, secretCode, previousGuesses, s, unused, guess);
      }
      SolveInvariantAtWin(previousGuesses, s, unused, guess, secretCode);
    }
  }
}
