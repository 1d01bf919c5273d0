# Mastermind computer code-breaker

This project models the automated Mastermind code-breaker of `mastermind.rb`:
the `ComputerSolver` class together with the feedback and bookkeeping helpers it
inherits from `GameMode`. A code is four symbols over the alphabet `'1'..'5'`,
so there are 625 codes.

The breaker works as follows:

- It opens with `1122`.
- After each guess it records the feedback `[exact, colour]`.
- It drops the guess from both of its code sets, `s` (codes still consistent
  with every answer) and `unused` (codes not yet guessed).
- It prunes `s` to the codes that would have produced the same feedback.
- It picks the next guess by minimax. Each unused code is scored by the worst
  case, over a fixed table of outcomes, of how many candidates that outcome
  would eliminate. The best score wins. A tie goes to the first tied code still
  in `s`, otherwise to the first tied code.
- It stops when a guess scores four exact matches.

The modules follow the program's structure:

- `Codes` (codes.dfy) holds symbols (`1..5`), codes (sequences of length four)
  and the enumeration of all codes that `repeated_permutation` produces. It also
  holds `check_input` and `Set#delete`. A Ruby `Set` keeps insertion order, so
  `s` and `unused` are sequences without repetition in lexicographic order.
- `Evaluation` (evaluation.dfy) holds `compare`. `Compare` is the imperative
  loop with its greedy delete-on-match pairing. It is proved equal to the
  function `FeedbackOf`, whose colour count is in turn proved to be the multiset
  intersection of the unmatched symbols, i.e. the sum over symbols of the
  smaller count.
- `Scoring` (scoring.dfy) holds `POSSIBLE_RESULTS`, `count_eliminations`, the
  `delete_if` filter and `find_next_guess`, as functions.
- `Solver` (solver.dfy) holds the `ComputerSolver` class. Its fields are `s`,
  `unused`, `previousGuesses` and `secretCode`. Its methods `AddGuess`,
  `SubmitGuess`, `DeleteImpossibleCodes`, `PlayRound` (one pass of the loop
  of `solve`) and `Solve` update those fields in place.

  Two folds describe the state a record of turns leaves behind. `UnusedAfter`
  drops each turn's guess from the full set. `CandidatesAfter` also prunes by
  each turn's result. `FollowsStrategy` says that a record is the play of
  `solve`: it opens with `1122`, and every later guess is `find_next_guess`'s
  pick from the `unused` and `s` that the earlier turns leave.

  `Solve` is proved against a loop invariant:
  - the record follows the strategy;
  - every recorded answer is the true feedback;
  - no code is guessed twice;
  - no turn before the last one is a win;
  - `s` and `unused` are the folds over every turn but the last;
  - the secret stays in both;
  - `|unused|` strictly decreases, which gives termination.

  On exit the record stops at its first win. Its last guess is the secret,
  with feedback `[4, 0]`, after at most 625 guesses. `s` and `unused` are
  exactly the codes the folds describe, in lexicographic order. The record is
  a function of the secret (`Solver.RecordDetermined`).

Two places where the code is more specific than a plain description of the
algorithm. The model follows the code in both:

- The outcome table at mastermind.rb:160-161 has 15 entries, including `[3, 1]`,
  which `compare` can never return. The model keeps all 15 entries. It proves
  that `[3, 1]` always eliminates every candidate and therefore never lowers a
  score (`Scoring.ExtraResultHarmless`).
- Ties are not broken arbitrarily. `find_all` and `find` walk the `unused` Set
  in insertion order. `Scoring.NextGuessTieBreak` states the rule by position.
  `Set#delete` and `delete_if` keep the order of the survivors, so `unused` and
  `s` stay in lexicographic order throughout `solve`. On such a list the
  first position is the lexicographically least code
  (`Scoring.NextGuessFirstInLexOrder`).

## Model

| member | source | states |
|---|---|---|
| Codes.AllCodes | mastermind.rb:165-166 | the initial set has 625 codes: every code exactly once, in lexicographic order |
| Codes.CodeAtRankOf | mastermind.rb:165 | reading a code's symbols as base-5 digits gives its position in the enumeration |
| Codes.RankOrderIsLexOrder | mastermind.rb:165 | enumeration position orders codes exactly as the lexicographic order does |
| Codes.SortedPositions | mastermind.rb:165-166 | in a list kept in lexicographic order, one entry precedes another lexicographically exactly when it stands at an earlier position |
| Codes.CheckInputAcceptsCodes | mastermind.rb:135-137 | check_input accepts an input exactly when it spells some code (four characters, each in '1'..'5') |
| Codes.Spell | mastermind.rb:135-137 | every code's spelling passes check_input, digit for digit |
| Codes.ToCode | mastermind.rb:135-137 | an accepted input is the spelling of the code it is read as |
| Codes.SpellRoundTrip | mastermind.rb:135-137 | reading back a spelled code gives the same code |
| Codes.Without | mastermind.rb:203-204 | Set#delete keeps exactly the other members, shrinks the set when the code was present, keeps it free of repeats and keeps lexicographic order |
| Evaluation.FirstIndex | mastermind.rb:109 | Array#index: the first position holding the symbol, or none when the symbol is absent |
| Evaluation.Compare | mastermind.rb:96-115 | the imperative compare loop returns FeedbackOf(guess, code) |
| Evaluation.GreedyPairsIsIntersection | mastermind.rb:108-114 | the greedy delete-on-match pairing counts the multiset intersection of the unmatched symbols |
| Evaluation.FeedbackColourIsIntersection | mastermind.rb:108-114 | the colour count equals the sum over symbols of the smaller count among guess misses and code misses |
| Evaluation.ExactUpToCountsMatches | mastermind.rb:100-107 | the exact count is the number of positions where guess and code hold the same symbol |
| Evaluation.FeedbackBounds | mastermind.rb:96-115 | both counts are naturals and exact + colour <= 4 |
| Evaluation.ExactFourIffEqual | mastermind.rb:100-107 | exact == 4 if and only if guess and code are equal |
| Evaluation.SelfFeedback | mastermind.rb:96-115 | a code compared with itself gives [4, 0] |
| Evaluation.ThreeExactNoColour | mastermind.rb:96-115 | three exact matches leave no colour match, so [3, 1] cannot occur |
| Evaluation.NoExactMatchFeedback | mastermind.rb:96-115 | with no positional match the colour count is the multiset intersection of the whole codes |
| Evaluation.FeedbackRepeatedSymbols | mastermind.rb:108-114 | 1122 against 2415 gives [0, 2]: repeated symbols are paired at most as often as they occur on both sides |
| Evaluation.FeedbackReversed | mastermind.rb:96-115 | 1234 against 4321 gives [0, 4] |
| Scoring.FeedbackIsReachable | mastermind.rb:160-161 | every feedback compare can return is in the outcome table minus [3, 1] |
| Scoring.Consistent | mastermind.rb:193-197 | the delete_if filter keeps exactly the codes whose feedback equals the observed one, adds nothing, keeps the set free of repeats and keeps lexicographic order |
| Scoring.CountEliminations | mastermind.rb:174-178 | count_eliminations never exceeds the number of candidates |
| Scoring.EliminatedPlusKept | mastermind.rb:174-178 | eliminated codes plus the codes the outcome keeps make up all candidates |
| Scoring.ImpossibleResultEliminatesAll | mastermind.rb:160-161 | the outcome [3, 1] eliminates every candidate |
| Scoring.MinOf | mastermind.rb:185 | Array#min: the result is one of the entries and no entry is smaller |
| Scoring.Score | mastermind.rb:182-185 | a guess's score is at most the number of candidates |
| Scoring.ExtraResultHarmless | mastermind.rb:160-161 | the score over the 15-entry table equals the score over the 14 reachable outcomes |
| Scoring.ScoreIsGuaranteed | mastermind.rb:182-185 | whatever the secret, playing the guess eliminates at least its score of candidates |
| Scoring.HighestScore | mastermind.rb:188 | Array#max by score: one of the scores, and no score exceeds it |
| Scoring.TopScorers | mastermind.rb:189 | find_all: exactly the positions whose score is the highest, in ascending order |
| Scoring.FindCandidate | mastermind.rb:190 | find: the first tied position whose code is still a candidate, or none if there is no such position |
| Scoring.PickIndex | mastermind.rb:188-190 | the chosen position has the highest score, holds a candidate when any tied code is one, and every earlier tied position holds a non-candidate |
| Scoring.NextGuessIndex | mastermind.rb:180-191 | the selected position lies within unused |
| Scoring.NextGuess | mastermind.rb:180-191 | find_next_guess returns a member of unused |
| Scoring.NextGuessScoresHighest | mastermind.rb:180-191 | no unused code scores higher than the selected guess |
| Scoring.NextGuessTieBreak | mastermind.rb:188-190 | among tied codes a candidate is preferred: a tied candidate makes the pick a candidate, and a tied code at an earlier position of unused than the pick is not a candidate while the pick is |
| Scoring.NextGuessFirstInLexOrder | mastermind.rb:188-190 | when unused is in lexicographic order: if a code tied with the pick is a candidate, so is the pick; a tied code lexicographically before the pick is not a candidate, while the pick is |
| Solver.GuessedAt | mastermind.rb:117-119 | a code was guessed exactly when some record entry holds it |
| Solver.HonestAt | mastermind.rb:91-94 | in an honest record every entry's feedback is the true feedback against the secret |
| Solver.NoReplaysAt | mastermind.rb:199-209 | in a record without replays two different entries hold different guesses |
| Solver.UnusedAfterUnplayed | mastermind.rb:199-204 | unused after a record holds exactly the codes the record did not play, in lexicographic order, without repeats |
| Solver.CandidatesAfterConsistent | mastermind.rb:199-205 | s after a record holds exactly the unplayed codes consistent with every recorded result, in lexicographic order, without repeats |
| Solver.SolveInvariantHoldsFirst | mastermind.rb:199-201 | after the opening 1122 the loop invariant holds with s and unused both the full set |
| Solver.SolveRoundStart | mastermind.rb:202-204 | when the last guess did not win, it is not the secret, and the secret survives its deletion from unused |
| Solver.SolveRoundState | mastermind.rb:202-205 | after a turn that did not win, dropping its guess and pruning s by its result gives the s and unused of the whole record; unused shrinks and keeps the secret, and so does s |
| Solver.SolveInvariantPreserved | mastermind.rb:206-207 | recording find_next_guess's pick with its true feedback keeps the invariant: the record follows the strategy, is honest, has no replays and no earlier win, and s and unused still hold the secret |
| Solver.SolveRound | mastermind.rb:202-208 | one pass of the loop keeps the invariant for the longer record and makes unused strictly smaller |
| Solver.SolveInvariantAtWin | mastermind.rb:202-209 | at a check_win that succeeds the last guess is the secret, and the outcome of solve holds |
| Solver.PrefixFollowsStrategy | mastermind.rb:199-209 | every prefix of an honest strategy record is an honest strategy record |
| Solver.LastTurnAgrees | mastermind.rb:203-207 | two honest strategy records for one secret that agree before their last turn agree on it too |
| Solver.SameLengthRecordsAgree | mastermind.rb:199-209 | two honest strategy records of the same length for one secret are equal |
| Solver.RecordDetermined | mastermind.rb:199-209 | two honest strategy records for one secret that each stop at their first win are equal: the play is a function of the secret |
| Solver.ComputerSolver.constructor | mastermind.rb:163-168 | s and unused start as all 625 codes, the record is empty, and the secret is the code the accepted input spells |
| Solver.ComputerSolver.CheckWin | mastermind.rb:121-123 | when the last answer is the true feedback, the game is won exactly when the last guess is the secret |
| Solver.ComputerSolver.AddGuess | mastermind.rb:117-119 | appends the turn to the record and changes nothing else; once check_loose holds it keeps holding |
| Solver.ComputerSolver.SubmitGuess | mastermind.rb:91-94 | appends the guess with its true feedback against the secret; s and unused are unchanged |
| Solver.ComputerSolver.DeleteImpossibleCodes | mastermind.rb:193-197 | s becomes exactly the codes of the old s whose feedback against the guess equals the observed feedback, in order; unused and the record are unchanged |
| Solver.ComputerSolver.PlayRound | mastermind.rb:203-207 | unused loses the guess; s loses it and is pruned by the last result; the next guess is find_next_guess's pick on them and is recorded with its true feedback |
| Solver.ComputerSolver.Solve | mastermind.rb:199-209 | terminates; the record is the strategy's play: it opens with 1122, is honest, has no replays and at most 625 entries, and stops at its first win, the secret with [4, 0]; s and unused are what every turn but the last left, in lexicographic order, with the secret in s ⊆ unused |

## Left out

- The `Display` and `TextContent` modules (mastermind.rb:3-75) are not modelled. They only render text and colours to the terminal.
- `get_input`, `enter_input` and `set_secret_code` (mastermind.rb:87-89, 125-133, 170-172) are console I/O and are not modelled. The secret is a constructor parameter that must pass `check_input`, which is what `enter_input` guarantees.
- `HumanSolver` (mastermind.rb:144-155) is not modelled: its secret comes from `rand`, and its `turn` only reads input and shows the record.
- `Game#play` and the top-level script (mastermind.rb:212-247) are not modelled. They are the interactive menu.
- A concrete turn bound such as "at most six guesses for every secret" is not proved. It needs exhaustive evaluation of every secret. The model proves termination and the bound of 625 guesses instead.
- The running time of the scan over `unused`, the 15 outcomes and `s` is not modelled.
- Solver.ComputerSolver.Solve: requires the fresh state the constructor leaves (full `s` and `unused`, empty record). That is the only state `Game#play` calls it in; the Ruby method itself does not check it.
- Scoring.NextGuess: requires `unused` to be non-empty. On an empty `unused` the Ruby code calls `[1]` on `nil` and raises. Inside `Solve`, `unused` always holds the secret.
- Solver.ComputerSolver.CheckWin: requires a non-empty record. On an empty record the Ruby method calls `[1]` on `nil` and raises (mastermind.rb:122). Within `Solve` it is only called after a turn is recorded.
- Solver.ComputerSolver.CheckLoose: returns a boolean. The Ruby method returns `true` or `nil`, and callers only test its truth.
- Symbols are the integers 1..5 rather than the one-character strings `'1'..'5'`. `Codes.Spell` and `Codes.ToCode` convert between the two.
