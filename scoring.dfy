/**
 * ComputerSolver's candidate pruning and minimax guess selection:
 * POSSIBLE_RESULTS, delete_impossible_codes (as a filter), count_eliminations
 * and find_next_guess.
 */
module Scoring {
  import opened Codes
  import opened Evaluation

  /** POSSIBLE_RESULTS as written: fifteen outcomes, including [3, 1], which compare never produces. */
  const PossibleResults: seq<Feedback> := [
    Feedback(0, 0), Feedback(0, 1), Feedback(0, 2), Feedback(0, 3), Feedback(0, 4),
    Feedback(1, 0), Feedback(1, 1), Feedback(1, 2), Feedback(1, 3),
    Feedback(2, 0), Feedback(2, 1), Feedback(2, 2),
    Feedback(3, 0), Feedback(3, 1), Feedback(4, 0)]

  /** The table without its entry [3, 1]. */
  const ReachableResults: seq<Feedback> := PossibleResults[..13] + PossibleResults[14..]

  /** Every feedback compare can give is an entry of the table, and never the entry [3, 1]. */
  lemma FeedbackIsReachable(guess: Code, code: Code)
    ensures FeedbackOf(guess, code) in ReachableResults
    ensures FeedbackOf(guess, code) != Feedback(3, 1)
  {
    var fb := FeedbackOf(guess, code);
    FeedbackBounds(guess, code);
    ThreeExactNoColour(guess, code);
    if fb.exact == 4 {
      ExactFourIffEqual(guess, code);
      SelfFeedback(code);
    }
    var i := if fb.exact == 0 then fb.colour
             else if fb.exact == 1 then 5 + fb.colour
             else if fb.exact == 2 then 9 + fb.colour
             else if fb.exact == 3 then 12
             else 13;
    assert ReachableResults[i] == fb;
  }

  /** The codes of `codes` whose feedback against guess is fb, in their order: what delete_if keeps. */
  function Consistent(codes: seq<Code>, guess: Code, fb: Feedback): (r: seq<Code>)
    ensures forall c :: c in r <==> c in codes && FeedbackOf(guess, c) == fb
    ensures Distinct(codes) ==> Distinct(r)
    ensures Sorted(codes) ==> Sorted(r)
  {
    if codes == [] then []
    else
      var init, last := codes[..|codes| - 1], codes[|codes| - 1];
      assert codes == init + [last];
      assert Distinct(codes) ==> last !in init && Distinct(init);
      assert Sorted(codes) ==> Sorted(init) && forall c :: c in init ==> LexLess(c, last) by {
        if Sorted(codes) {
          forall c | c in init ensures LexLess(c, last) {
            var k :| 0 <= k < |init| && init[k] == c;
            assert codes[k] == c;
          }
        }
      }
      Consistent(init, guess, fb) + (if FeedbackOf(guess, last) == fb then [last] else [])
  }

  /** Filtering one more code of a list extends the filtered prefix by that code exactly when it matches. */
  lemma ConsistentStep(codes: seq<Code>, i: nat, guess: Code, fb: Feedback)
    requires i < |codes|
    ensures Consistent(codes[..i + 1], guess, fb) ==
            Consistent(codes[..i], guess, fb) + (if FeedbackOf(guess, codes[i]) == fb then [codes[i]] else [])
  {
    assert codes[..i + 1][..i] == codes[..i];
  }

  /** count_eliminations: how many codes of `codes` the outcome `result` for guess would rule out. */
  function CountEliminations(codes: seq<Code>, guess: Code, result: Feedback): (n: nat)
    ensures n <= |codes|
  {
    if codes == [] then 0
    else
      var init, last := codes[..|codes| - 1], codes[|codes| - 1];
      CountEliminations(init, guess, result) + (if result != FeedbackOf(guess, last) then 1 else 0)
  }

  /** The codes an outcome rules out and the codes it keeps make up the whole candidate list. */
  lemma {:induction false} EliminatedPlusKept(codes: seq<Code>, guess: Code, result: Feedback)
    ensures CountEliminations(codes, guess, result) + |Consistent(codes, guess, result)| == |codes|
  {
    if codes != [] {
      EliminatedPlusKept(codes[..|codes| - 1], guess, result);
    }
  }

  /** The outcome [3, 1] would rule out every candidate. */
  lemma ImpossibleResultEliminatesAll(codes: seq<Code>, guess: Code)
    ensures CountEliminations(codes, guess, Feedback(3, 1)) == |codes|
  {
    var kept := Consistent(codes, guess, Feedback(3, 1));
    EliminatedPlusKept(codes, guess, Feedback(3, 1));
    if |kept| > 0 {
      FeedbackIsReachable(guess, kept[0]);
    }
  }

  /** Enumerable#min on a non-empty list of counts, from position k on. */
  function MinOf(xs: seq<nat>, k: nat): (m: nat)
    requires k < |xs|
    ensures forall i :: k <= i < |xs| ==> m <= xs[i]
    ensures exists i :: k <= i < |xs| && m == xs[i]
    decreases |xs| - k
  {
    if k == |xs| - 1 then xs[k]
    else
      var rest := MinOf(xs, k + 1);
      if xs[k] <= rest then xs[k] else rest
  }

  /** count_eliminations of guess for each outcome of results, in the order of results. */
  function EliminationsOver(codes: seq<Code>, guess: Code, results: seq<Feedback>): seq<nat>
  {
    seq(|results|, i requires 0 <= i < |results| => CountEliminations(codes, guess, results[i]))
  }

  /** A guess's score: the least number of eliminations over POSSIBLE_RESULTS, its worst case. */
  function Score(codes: seq<Code>, guess: Code): (m: nat)
    ensures m <= |codes|
  {
    MinOf(EliminationsOver(codes, guess, PossibleResults), 0)
  }

  /** Dropping an entry that is no smaller than any other (ys is xs without entry j) leaves the minimum unchanged. */
  lemma MinOfWithoutLargest(xs: seq<nat>, ys: seq<nat>, j: nat)
    requires j < |xs| && |ys| + 1 == |xs| && |ys| > 0
    requires forall i :: 0 <= i < |ys| ==> ys[i] == xs[if i < j then i else i + 1]
    requires forall i :: 0 <= i < |xs| ==> xs[i] <= xs[j]
    ensures MinOf(xs, 0) == MinOf(ys, 0)
  {
    var m, n := MinOf(xs, 0), MinOf(ys, 0);
    var a :| 0 <= a < |xs| && m == xs[a];
    var b :| 0 <= b < |ys| && n == ys[b];
    assert ys[b] == xs[if b < j then b else b + 1];
    if a != j {
      assert xs[a] == ys[if a < j then a else a - 1];
    } else {
      assert ys[0] == xs[if j == 0 then 1 else 0];
    }
  }

  /** The unreachable table entry [3, 1] never lowers a score: scoring over the fourteen reachable outcomes gives the same value. */
  lemma ExtraResultHarmless(codes: seq<Code>, guess: Code)
    ensures Score(codes, guess) == MinOf(EliminationsOver(codes, guess, ReachableResults), 0)
  {
    var all, reachable := EliminationsOver(codes, guess, PossibleResults), EliminationsOver(codes, guess, ReachableResults);
    ImpossibleResultEliminatesAll(codes, guess);
    assert PossibleResults[13] == Feedback(3, 1);
    assert all[13] == |codes|;
    forall i | 0 <= i < |reachable| ensures reachable[i] == all[if i < 13 then i else i + 1] {
      assert ReachableResults[i] == PossibleResults[if i < 13 then i else i + 1];
    }
    MinOfWithoutLargest(all, reachable, 13);
  }

  /** Whatever the secret is, guessing guess leaves at most |codes| - Score(codes, guess) candidates: the score is a guaranteed elimination. */
  lemma ScoreIsGuaranteed(codes: seq<Code>, guess: Code, secret: Code)
    ensures |Consistent(codes, guess, FeedbackOf(guess, secret))| <= |codes| - Score(codes, guess)
  {
    FeedbackIsReachable(guess, secret);
    var fb := FeedbackOf(guess, secret);
    EliminatedPlusKept(codes, guess, fb);
    var i :| 0 <= i < |ReachableResults| && ReachableResults[i] == fb;
    var k := if i < 13 then i else i + 1;
    assert fb == PossibleResults[k];
    assert EliminationsOver(codes, guess, PossibleResults)[k] == CountEliminations(codes, guess, fb);
  }

  /** eval_unused: each code of unused, in order, paired with its score. */
  function EvalUnused(unused: seq<Code>, codes: seq<Code>): seq<(Code, nat)>
  {
    seq(|unused|, i requires 0 <= i < |unused| => (unused[i], Score(codes, unused[i])))
  }

  /** The highest score in eval[k..]: Enumerable#max by score. */
  function HighestScore(eval: seq<(Code, nat)>, k: nat): (m: nat)
    requires k < |eval|
    ensures forall i :: k <= i < |eval| ==> eval[i].1 <= m
    ensures exists i :: k <= i < |eval| && eval[i].1 == m
    decreases |eval| - k
  {
    if k == |eval| - 1 then eval[k].1
    else
      var rest := HighestScore(eval, k + 1);
      if eval[k].1 >= rest then eval[k].1 else rest
  }

  /** find_all: the positions of the entries of eval[k..] scoring best, in ascending order. */
  function TopScorers(eval: seq<(Code, nat)>, best: nat, k: nat): (top: seq<nat>)
    ensures forall t :: t in top <==> k <= t < |eval| && eval[t].1 == best
    ensures forall a, b :: 0 <= a < b < |top| ==> top[a] < top[b]
    decreases |eval| - k
  {
    if k >= |eval| then []
    else
      var rest := TopScorers(eval, best, k + 1);
      assert forall b :: 0 <= b < |rest| ==> k < rest[b] by {
        forall b | 0 <= b < |rest| ensures k < rest[b] {
          assert rest[b] in rest;
        }
      }
      (if eval[k].1 == best then [k] else []) + rest
  }

  /** find: the first position of top whose code is still a candidate. */
  function FindCandidate(eval: seq<(Code, nat)>, top: seq<nat>, codes: seq<Code>): (r: Option<nat>)
    requires forall t :: t in top ==> t < |eval|
    requires forall a, b :: 0 <= a < b < |top| ==> top[a] < top[b]
    ensures r.None? ==> forall t :: t in top ==> eval[t].0 !in codes
    ensures r.Some? ==> r.value in top && eval[r.value].0 in codes
    ensures r.Some? ==> forall t :: t in top && t < r.value ==> eval[t].0 !in codes
  {
    if top == [] then None
    else if (assert top[0] in top; eval[top[0]].0 in codes) then Some(top[0])
    else
      assert forall t :: t in top ==> t == top[0] || t in top[1..];
      assert forall t :: t in top[1..] ==> t in top;
      FindCandidate(eval, top[1..], codes)
  }

  /** The head of an ascending list of positions is its least element. */
  lemma SortedHeadIsLeast(top: seq<nat>)
    requires |top| > 0
    requires forall a, b :: 0 <= a < b < |top| ==> top[a] < top[b]
    ensures forall t :: t in top ==> top[0] <= t
  {
    forall t | t in top ensures top[0] <= t {
      var a :| 0 <= a < |top| && top[a] == t;
    }
  }

  /**
   * The position find_next_guess settles on: a highest-scoring entry; among
   * the entries tied at that score, the first whose code is still a
   * candidate, or the first of them when none is.
   */
  function PickIndex(eval: seq<(Code, nat)>, codes: seq<Code>): (i: nat)
    requires |eval| > 0
    ensures i < |eval|
    ensures forall j :: 0 <= j < |eval| ==> eval[j].1 <= eval[i].1
    ensures forall j :: 0 <= j < |eval| && eval[j].1 == eval[i].1 && eval[j].0 in codes ==> eval[i].0 in codes
    ensures forall j :: 0 <= j < i && eval[j].1 == eval[i].1 ==> eval[j].0 !in codes && eval[i].0 in codes
  {
    var best := HighestScore(eval, 0);
    var top := TopScorers(eval, best, 0);
    var w :| 0 <= w < |eval| && eval[w].1 == best;
    assert w in top;
    match FindCandidate(eval, top, codes)
    case Some(t) => t
    case None =>
      SortedHeadIsLeast(top);
      top[0]
  }

  /** find_next_guess: the position in unused of the code it returns. */
  function NextGuessIndex(unused: seq<Code>, codes: seq<Code>): (i: nat)
    requires |unused| > 0
    ensures i < |unused|
  {
    PickIndex(EvalUnused(unused, codes), codes)
  }

  /** find_next_guess: the code of unused picked by score and candidacy. */
  function NextGuess(unused: seq<Code>, codes: seq<Code>): (g: Code)
    requires |unused| > 0
    ensures g in unused
  {
    unused[NextGuessIndex(unused, codes)]
  }

  /** No code of unused scores higher than the next guess: it maximises the worst-case eliminations. */
  lemma NextGuessScoresHighest(unused: seq<Code>, codes: seq<Code>, j: nat)
    requires j < |unused|
    ensures Score(codes, unused[j]) <= Score(codes, NextGuess(unused, codes))
  {
    var eval := EvalUnused(unused, codes);
    var i := NextGuessIndex(unused, codes);
    assert eval[j].1 == Score(codes, unused[j]) && eval[i].1 == Score(codes, unused[i]);
  }

  /**
   * A code of unused tied with the next guess's score: if it is a candidate,
   * so is the next guess; if it comes earlier, it is not a candidate and the
   * next guess is one.
   */
  lemma NextGuessTieBreak(unused: seq<Code>, codes: seq<Code>, j: nat)
    requires j < |unused| && Score(codes, unused[j]) == Score(codes, NextGuess(unused, codes))
    ensures unused[j] in codes ==> NextGuess(unused, codes) in codes
    ensures j < NextGuessIndex(unused, codes) ==> unused[j] !in codes && NextGuess(unused, codes) in codes
  {
    var eval := EvalUnused(unused, codes);
    var i := NextGuessIndex(unused, codes);
    assert eval[j] == (unused[j], Score(codes, unused[j])) && eval[i] == (unused[i], Score(codes, unused[i]));
  }

  /**
   * The tie-break in lexicographic order, for a sorted unused (the order the
   * solver keeps it in): a candidate tied with the next guess makes the next
   * guess a candidate, and a tied code lexicographically before the next
   * guess is not a candidate while the next guess is.
   */
  lemma NextGuessFirstInLexOrder(unused: seq<Code>, codes: seq<Code>, c: Code)
    requires Sorted(unused) && c in unused
    requires Score(codes, c) == Score(codes, NextGuess(unused, codes))
    ensures c in codes ==> NextGuess(unused, codes) in codes
    ensures LexLess(c, NextGuess(unused, codes)) ==> c !in codes && NextGuess(unused, codes) in codes
  {
    var j :| 0 <= j < |unused| && unused[j] == c;
    var i := NextGuessIndex(unused, codes);
    SortedPositions(unused, j, i);
    NextGuessTieBreak(unused, codes, j);
  }
}
