/** Symbols, codes, the enumeration of all 625 codes and the input check. */
module Codes {

  /** A peg colour. The game's alphabet is the characters '1'..'5'; symbol v stands for the digit v. */
  type Symbol = x: int | 1 <= x <= 5 witness 1

  /** A code: exactly four symbols, repetition allowed. */
  type Code = c: seq<Symbol> | |c| == 4 witness [1, 1, 1, 1]

  datatype Option<T> = None | Some(value: T)

  /** Number of codes, 5 to the power 4. */
  const CodeCount: nat := 625

  /** No code occurs twice: a sequence used as a Ruby Set. */
  predicate Distinct(xs: seq<Code>)
  {
    forall i, j :: 0 <= i < j < |xs| ==> xs[i] != xs[j]
  }

  /** Strict lexicographic order on sequences of integers. */
  predicate LexLess(a: seq<int>, b: seq<int>)
  {
    |a| > 0 && |b| > 0 && (a[0] < b[0] || (a[0] == b[0] && LexLess(a[1..], b[1..])))
  }

  /** Every code of xs comes lexicographically before every later one: the enumeration order. */
  predicate Sorted(xs: seq<Code>)
  {
    forall i, j :: 0 <= i < j < |xs| ==> LexLess(xs[i], xs[j])
  }

  /** Set#delete: the codes of xs other than x, in their order. */
  function Without(xs: seq<Code>, x: Code): (r: seq<Code>)
    ensures forall c :: c in r <==> c in xs && c != x
    ensures x in xs ==> |r| < |xs|
    ensures |r| <= |xs|
    ensures Distinct(xs) ==> Distinct(r)
    ensures Sorted(xs) ==> Sorted(r)
  {
    if xs == [] then []
    else
      var rest := Without(xs[1..], x);
      assert Distinct(xs) ==> xs[0] !in xs[1..] && Distinct(xs[1..]);
      assert Sorted(xs) ==> Sorted(xs[1..]) && forall c :: c in rest ==> LexLess(xs[0], c) by {
        if Sorted(xs) {
          forall c | c in rest ensures LexLess(xs[0], c) {
            var k :| 0 <= k < |xs[1..]| && xs[1..][k] == c;
            assert xs[k + 1] == c;
          }
        }
      }
      if xs[0] == x then rest else [xs[0]] + rest
  }

  /** Position of a code in the enumeration: its symbols read as base-5 digits. */
  function RankOf(c: Code): (i: nat)
    ensures i < CodeCount
  {
    125 * (c[0] as int - 1) + 25 * (c[1] as int - 1) + 5 * (c[2] as int - 1) + (c[3] as int - 1)
  }

  /** The code at position i of the enumeration. */
  function CodeAt(i: nat): (c: Code)
    requires i < CodeCount
    ensures RankOf(c) == i
  {
    var r2 := i % 125;
    var r1 := r2 % 25;
    [i / 125 + 1, r2 / 25 + 1, r1 / 5 + 1, r1 % 5 + 1]
  }

  /** Every code sits at the position its rank names, so the enumeration misses no code. */
  lemma CodeAtRankOf(c: Code)
    ensures CodeAt(RankOf(c)) == c
  {
    var i := RankOf(c);
    var d0, d1, d2, d3 := c[0] as int - 1, c[1] as int - 1, c[2] as int - 1, c[3] as int - 1;
    assert i / 125 == d0 && i % 125 == 25 * d1 + 5 * d2 + d3;
    assert (i % 125) / 25 == d1 && (i % 125) % 25 == 5 * d2 + d3;
    assert ((i % 125) % 25) / 5 == d2 && ((i % 125) % 25) % 5 == d3;
  }

  /** Ranks order codes exactly as the lexicographic order does. */
  lemma {:induction false} RankOrderIsLexOrder(a: Code, b: Code)
    ensures LexLess(a, b) <==> RankOf(a) < RankOf(b)
  {
    var a1, b1 := a[1..], b[1..];
    var a2, b2 := a1[1..], b1[1..];
    var a3, b3 := a2[1..], b2[1..];
    assert !LexLess(a3[1..], b3[1..]);
    assert LexLess(a3, b3) <==> a[3] < b[3];
    assert LexLess(a2, b2) <==> a[2] < b[2] || (a[2] == b[2] && a[3] < b[3]);
    assert LexLess(a1, b1) <==> a[1] < b[1] || (a[1] == b[1] && LexLess(a2, b2));
  }

  /** In a sorted list, one code comes lexicographically before another exactly when it sits earlier. */
  lemma SortedPositions(xs: seq<Code>, i: nat, j: nat)
    requires Sorted(xs) && i < |xs| && j < |xs|
    ensures LexLess(xs[i], xs[j]) <==> i < j
  {
    RankOrderIsLexOrder(xs[i], xs[j]);
    if j < i {
      RankOrderIsLexOrder(xs[j], xs[i]);
    }
  }

  /**
   * The initial code set: every code exactly once, in the lexicographic order
   * in which all length-four sequences over '1'..'5' are generated.
   */
  function AllCodes(): (r: seq<Code>)
    ensures |r| == CodeCount
    ensures forall c: Code :: c in r
    ensures Distinct(r)
    ensures Sorted(r)
  {
    var r := seq(CodeCount, i requires 0 <= i < CodeCount => CodeAt(i));
    assert forall c: Code :: c in r by {
      forall c: Code ensures c in r {
        CodeAtRankOf(c);
        assert r[RankOf(c)] == c;
      }
    }
    assert forall i, j :: 0 <= i < j < |r| ==> LexLess(r[i], r[j]) by {
      forall i, j | 0 <= i < j < |r| ensures LexLess(r[i], r[j]) {
        RankOrderIsLexOrder(r[i], r[j]);
      }
    }
    r
  }

  /** check_input: four characters, each one of '1'..'5'. */
  predicate CheckInput(input: seq<char>)
  {
    |input| == 4 && forall k :: 0 <= k < |input| ==> '1' <= input[k] <= '5'
  }

  /** The characters a code is typed as. */
  function Spell(c: Code): (input: seq<char>)
    ensures CheckInput(input)
    ensures forall k :: 0 <= k < 4 ==> input[k] as int - '0' as int == c[k]
  {
    seq(4, k requires 0 <= k < 4 => ('0' as int + c[k]) as char)
  }

  /** The code an accepted input stands for. */
  function ToCode(input: seq<char>): (c: Code)
    requires CheckInput(input)
    ensures Spell(c) == input
  {
    seq(4, k requires 0 <= k < 4 => input[k] as int - '0' as int)
  }

  /** Reading back a spelled code gives the code: spelling loses nothing. */
  lemma SpellRoundTrip(c: Code)
    ensures ToCode(Spell(c)) == c
  {
    var d := ToCode(Spell(c));
    assert forall k :: 0 <= k < 4 ==> d[k] == c[k];
  }

  /** check_input accepts exactly the spellings of codes. */
  lemma CheckInputAcceptsCodes(input: seq<char>)
    ensures CheckInput(input) <==> exists c: Code :: Spell(c) == input
  {
    if CheckInput(input) {
      assert Spell(ToCode(input)) == input;
    }
  }
}
