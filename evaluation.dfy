/** GameMode#compare: the red and white pins a guess earns against a code. */
module Evaluation {
  import opened Codes

  /** compare's result [exact, colour]: pins for right symbol in the right place, and for right symbol in the wrong place. */
  datatype Feedback = Feedback(exact: nat, colour: nat)

  /** Number of positions below n at which a and b hold the same symbol. */
  function ExactUpTo(a: Code, b: Code, n: nat): (e: nat)
    requires n <= 4
    ensures e <= n
  {
    if n == 0 then 0 else ExactUpTo(a, b, n - 1) + (if a[n - 1] == b[n - 1] then 1 else 0)
  }

  /** The symbols of a at the positions below n where a and b differ, in position order. */
  function MissesUpTo(a: Code, b: Code, n: nat): (m: seq<Symbol>)
    requires n <= 4
    ensures |m| + ExactUpTo(a, b, n) == n
  {
    if n == 0 then []
    else MissesUpTo(a, b, n - 1) + (if a[n - 1] != b[n - 1] then [a[n - 1]] else [])
  }

  /**
   * Colour matches between the unmatched symbols of the code and of the guess,
   * stated declaratively: the multiset intersection holds each symbol v
   * min(count in codeMisses, count in guessMisses) times, so its size is the
   * sum of those minima.
   */
  function ColourMatches(codeMisses: seq<Symbol>, guessMisses: seq<Symbol>): nat
  {
    |multiset(codeMisses) * multiset(guessMisses)|
  }

  /** Array#index: the first position of xs holding x, if any. */
  function FirstIndex(xs: seq<Symbol>, x: Symbol): (r: Option<nat>)
    ensures r.None? <==> x !in xs
    ensures r.Some? ==> r.value < |xs| && xs[r.value] == x && x !in xs[..r.value]
  {
    if xs == [] then None
    else if xs[0] == x then Some(0)
    else match FirstIndex(xs[1..], x)
      case None => None
      case Some(k) => assert xs[..k + 1] == [xs[0]] + xs[1..][..k]; Some(k + 1)
  }

  /**
   * The colour pins compare counts: each symbol of codeMisses, in order, is
   * paired with the first equal symbol of guessMisses not yet paired, which
   * is then used up.
   */
  function GreedyPairs(codeMisses: seq<Symbol>, guessMisses: seq<Symbol>): nat
  {
    if codeMisses == [] then 0
    else match FirstIndex(guessMisses, codeMisses[0])
      case None => GreedyPairs(codeMisses[1..], guessMisses)
      case Some(k) => 1 + GreedyPairs(codeMisses[1..], guessMisses[..k] + guessMisses[k + 1..])
  }

  /** The result compare gives for guess against code. */
  function FeedbackOf(guess: Code, code: Code): Feedback
  {
    Feedback(ExactUpTo(guess, code, |guess|), GreedyPairs(MissesUpTo(code, guess, |code|), MissesUpTo(guess, code, |guess|)))
  }

  /** Pairing one more code symbol x against the guess symbols n still unpaired. */
  lemma IntersectionStep(m: multiset<Symbol>, x: Symbol, n: multiset<Symbol>)
    ensures x in n ==> |(multiset{x} + m) * n| == |m * (n - multiset{x})| + 1
    ensures x !in n ==> |(multiset{x} + m) * n| == |m * n|
  {
    if x in n {
      var lhs, rhs := (multiset{x} + m) * n, (m * (n - multiset{x})) + multiset{x};
      assert forall v :: lhs[v] == rhs[v];
      assert lhs == rhs;
    } else {
      var lhs := (multiset{x} + m) * n;
      assert forall v :: lhs[v] == (m * n)[v];
      assert lhs == m * n;
    }
  }

  /** No multiset intersection is larger than either side. */
  lemma IntersectionBound(m: multiset<Symbol>, n: multiset<Symbol>)
    ensures |m * n| <= |m| && |m * n| <= |n|
  {
    assert forall v :: m[v] == ((m * n) + (m - n))[v];
    assert m == (m * n) + (m - n);
    assert forall v :: n[v] == ((m * n) + (n - m))[v];
    assert n == (m * n) + (n - m);
  }

  /** One step of compare's greedy pairing: code symbol cs[j] pairs with the first equal unpaired guess symbol, if any. */
  lemma GreedyStep(cs: seq<Symbol>, j: nat, remaining: seq<Symbol>)
    requires j < |cs|
    ensures FirstIndex(remaining, cs[j]).None? ==>
      ColourMatches(cs[j..], remaining) == ColourMatches(cs[j + 1..], remaining)
    ensures FirstIndex(remaining, cs[j]).Some? ==>
      var k := FirstIndex(remaining, cs[j]).value;
      ColourMatches(cs[j..], remaining) == 1 + ColourMatches(cs[j + 1..], remaining[..k] + remaining[k + 1..])
  {
    var x := cs[j];
    assert cs[j..] == [x] + cs[j + 1..];
    assert multiset(cs[j..]) == multiset{x} + multiset(cs[j + 1..]);
    IntersectionStep(multiset(cs[j + 1..]), x, multiset(remaining));
    var r := FirstIndex(remaining, x);
    if r.Some? {
      var k := r.value;
      assert remaining == remaining[..k] + [x] + remaining[k + 1..];
      assert multiset(remaining[..k] + remaining[k + 1..]) == multiset(remaining) - multiset{x};
    }
  }

  /** A list is its own suffix from position zero. */
  lemma WholeSuffix(xs: seq<Symbol>)
    ensures xs[0..] == xs
  {
  }

  /** The greedy pairing finds exactly the multiset intersection of the two lists: it never misses a pair. */
  lemma {:induction false} GreedyPairsIsIntersection(codeMisses: seq<Symbol>, guessMisses: seq<Symbol>)
    ensures GreedyPairs(codeMisses, guessMisses) == ColourMatches(codeMisses, guessMisses)
    decreases |codeMisses|
  {
    if codeMisses != [] {
      GreedyStep(codeMisses, 0, guessMisses);
      WholeSuffix(codeMisses);
      match FirstIndex(guessMisses, codeMisses[0])
      case None =>
        GreedyPairsIsIntersection(codeMisses[1..], guessMisses);
      case Some(k) =>
        GreedyPairsIsIntersection(codeMisses[1..], guessMisses[..k] + guessMisses[k + 1..]);
    }
  }

  /**
   * compare's colour count, stated declaratively: the size of the multiset
   * intersection of the unmatched symbols, which is the sum over symbols v of
   * min(count of v among the code's misses, count among the guess's misses).
   */
  lemma FeedbackColourIsIntersection(guess: Code, code: Code)
    ensures FeedbackOf(guess, code).colour == ColourMatches(MissesUpTo(code, guess, 4), MissesUpTo(guess, code, 4))
  {
    GreedyPairsIsIntersection(MissesUpTo(code, guess, 4), MissesUpTo(guess, code, 4));
  }

  /**
   * compare: first count exact matches and collect the unmatched symbols of
   * both sides; then walk the code's unmatched symbols and pair each with the
   * first equal unpaired guess symbol, deleting that one.
   */
  method Compare(guess: Code, code: Code) returns (fb: Feedback)
    ensures fb == FeedbackOf(guess, code)
  {
    var noExactMatchesGuess: seq<Symbol> := [];
    var noExactMatchesCode: seq<Symbol> := [];
    var exact, colour := 0, 0;
    for i := 0 to 4
      invariant exact == ExactUpTo(guess, code, i)
      invariant noExactMatchesGuess == MissesUpTo(guess, code, i)
      invariant noExactMatchesCode == MissesUpTo(code, guess, i)
    {
      if guess[i] == code[i] {
        exact := exact + 1;
      } else {
        noExactMatchesCode := noExactMatchesCode + [code[i]];
        noExactMatchesGuess := noExactMatchesGuess + [guess[i]];
      }
    }
    ghost var guessMisses := noExactMatchesGuess;
    for j := 0 to |noExactMatchesCode|
      invariant colour + GreedyPairs(noExactMatchesCode[j..], noExactMatchesGuess)
             == GreedyPairs(noExactMatchesCode, guessMisses)
    {
      assert noExactMatchesCode[j..][1..] == noExactMatchesCode[j + 1..];
      var guessIdx := FirstIndex(noExactMatchesGuess, noExactMatchesCode[j]);
      if guessIdx.Some? {
        colour := colour + 1;
        noExactMatchesGuess := noExactMatchesGuess[..guessIdx.value] + noExactMatchesGuess[guessIdx.value + 1..];
      }
    }
    assert noExactMatchesCode[0..] == noExactMatchesCode;
    fb := Feedback(exact, colour);
  }

  /** Where a and b differ, the two lists of unmatched symbols line up position by position and never agree. */
  lemma {:induction false} MissesPaired(a: Code, b: Code, n: nat)
    requires n <= 4
    ensures |MissesUpTo(a, b, n)| == |MissesUpTo(b, a, n)|
    ensures forall k :: 0 <= k < |MissesUpTo(a, b, n)| ==> MissesUpTo(a, b, n)[k] != MissesUpTo(b, a, n)[k]
  {
    if n > 0 {
      MissesPaired(a, b, n - 1);
    }
  }

  /** All positions below n agree exactly when every one of them is an exact match. */
  lemma {:induction false} ExactUpToAll(a: Code, b: Code, n: nat)
    requires n <= 4
    ensures ExactUpTo(a, b, n) == n <==> a[..n] == b[..n]
  {
    if n > 0 {
      ExactUpToAll(a, b, n - 1);
      assert a[..n] == a[..n - 1] + [a[n - 1]] && b[..n] == b[..n - 1] + [b[n - 1]];
      if a[..n] == b[..n] {
        assert a[..n - 1] == a[..n][..n - 1];
      }
    }
  }

  /** The exact count is the number of positions below n where a and b agree. */
  lemma {:induction false} ExactUpToCountsMatches(a: Code, b: Code, n: nat)
    requires n <= 4
    ensures ExactUpTo(a, b, n) == |set i | 0 <= i < n && a[i] == b[i]|
  {
    if n > 0 {
      ExactUpToCountsMatches(a, b, n - 1);
      var before := set i | 0 <= i < n - 1 && a[i] == b[i];
      var upTo := set i | 0 <= i < n && a[i] == b[i];
      assert n - 1 !in before;
      if a[n - 1] == b[n - 1] {
        assert upTo == before + {n - 1};
      } else {
        assert upTo == before;
      }
    }
  }

  /** Pins never exceed the four positions: exact + colour <= 4. */
  lemma FeedbackBounds(guess: Code, code: Code)
    ensures FeedbackOf(guess, code).exact + FeedbackOf(guess, code).colour <= 4
  {
    var gm, cm := MissesUpTo(guess, code, 4), MissesUpTo(code, guess, 4);
    FeedbackColourIsIntersection(guess, code);
    IntersectionBound(multiset(cm), multiset(gm));
  }

  /** Four exact matches means the guess is the code. */
  lemma ExactFourIffEqual(guess: Code, code: Code)
    ensures FeedbackOf(guess, code).exact == 4 <==> guess == code
  {
    ExactUpToAll(guess, code, 4);
    assert guess[..4] == guess && code[..4] == code;
  }

  /** compare(c, c) == [4, 0]. */
  lemma SelfFeedback(c: Code)
    ensures FeedbackOf(c, c) == Feedback(4, 0)
  {
    ExactFourIffEqual(c, c);
    assert |MissesUpTo(c, c, 4)| == 0;
  }

  /** Two different symbols never pair. */
  lemma DifferentSymbolsDoNotPair(x: Symbol, y: Symbol)
    requires x != y
    ensures GreedyPairs([y], [x]) == 0
  {
    assert FirstIndex([x], y).None?;
    assert [y][1..] == [];
  }

  /** Three exact matches leave one unmatched pair of different symbols, so [3, 1] never occurs. */
  lemma ThreeExactNoColour(guess: Code, code: Code)
    ensures FeedbackOf(guess, code).exact == 3 ==> FeedbackOf(guess, code).colour == 0
  {
    var gm, cm := MissesUpTo(guess, code, 4), MissesUpTo(code, guess, 4);
    MissesPaired(guess, code, 4);
    if |gm| == 1 {
      assert gm == [gm[0]] && cm == [cm[0]];
      DifferentSymbolsDoNotPair(gm[0], cm[0]);
    }
  }

  /** With no exact match, every symbol of both sides is left for colour pairing. */
  lemma {:induction false} NoExactMatchMisses(a: Code, b: Code, n: nat)
    requires n <= 4
    requires forall k :: 0 <= k < n ==> a[k] != b[k]
    ensures MissesUpTo(a, b, n) == a[..n]
  {
    if n > 0 {
      NoExactMatchMisses(a, b, n - 1);
      assert a[..n] == a[..n - 1] + [a[n - 1]];
    }
  }

  /** With no exact match, compare gives no red pin and pairs every symbol of the guess against every symbol of the code. */
  lemma NoExactMatchFeedback(guess: Code, code: Code)
    requires forall k :: 0 <= k < 4 ==> guess[k] != code[k]
    ensures FeedbackOf(guess, code) == Feedback(0, ColourMatches(code, guess))
  {
    NoExactMatchMisses(guess, code, 4);
    NoExactMatchMisses(code, guess, 4);
    assert guess[..4] == guess && code[..4] == code;
    FeedbackColourIsIntersection(guess, code);
  }

  /** The symbols of 1122 and 2415 pair twice: one 1 and one 2. */
  lemma RepeatedSymbolsColour(g: seq<Symbol>, c: seq<Symbol>)
    requires g == [1, 1, 2, 2] && c == [2, 4, 1, 5]
    ensures ColourMatches(c, g) == 2
  {
    assert multiset(c) == multiset{2, 4, 1, 5} && multiset(g) == multiset{1, 1, 2, 2};
    var both := multiset{2, 4, 1, 5} * multiset{1, 1, 2, 2};
    assert forall v :: both[v] == multiset{1, 2}[v];
    assert both == multiset{1, 2};
  }

  /** Guess 1122 against code 2415 earns [0, 2]: repeated symbols pair at most as often as they occur on both sides. */
  lemma FeedbackRepeatedSymbols(g: Code, c: Code)
    requires g == [1, 1, 2, 2] && c == [2, 4, 1, 5]
    ensures FeedbackOf(g, c) == Feedback(0, 2)
  {
    RepeatedSymbolsColour(g, c);
    NoExactMatchFeedback(g, c);
  }

  /** The symbols of 1234 and 4321 all pair. */
  lemma ReversedColour(g: seq<Symbol>, c: seq<Symbol>)
    requires g == [1, 2, 3, 4] && c == [4, 3, 2, 1]
    ensures ColourMatches(c, g) == 4
  {
    assert multiset(c) == multiset{4, 3, 2, 1} && multiset(g) == multiset{1, 2, 3, 4};
    var both := multiset{4, 3, 2, 1} * multiset{1, 2, 3, 4};
    assert forall v :: both[v] == multiset{1, 2, 3, 4}[v];
    assert both == multiset{1, 2, 3, 4};
  }

  /** Guess 1234 against code 4321 earns [0, 4]: every symbol is right but in the wrong place. */
  lemma FeedbackReversed(g: Code, c: Code)
    requires g == [1, 2, 3, 4] && c == [4, 3, 2, 1]
    ensures FeedbackOf(g, c) == Feedback(0, 4)
  {
    ReversedColour(g, c);
    NoExactMatchFeedback(g, c);
  }
}
