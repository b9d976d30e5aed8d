/**
 * How the two change makers relate, and the two demonstration scenarios of
 * the program (a coin set where greedy is not optimal, and a currency-like
 * set where it is), plus a set that cannot pay the amount at all.
 */
module Comparison {
  import opened Change
  import opened Greedy
  import opened MinCoins

  /** Whenever the greedy breakdown pays the amount exactly, the dynamic
      programme finds a breakdown too, and it uses no more coins. */
  lemma MinCoinsNoWorseThanGreedy(amount: nat, coins: seq<int>)
    requires Positive(coins)
    requires Value(GreedyChange(amount, coins)) == amount
    ensures MinCoinChange(amount, coins).Found?
    ensures Count(MinCoinChange(amount, coins).change) <= Count(GreedyChange(amount, coins))
  {
    var g := GreedyChange(amount, coins);
    GreedySound(amount, coins);
    BreakdownReaches(g, coins);
    MinCoinChangeCorrect(amount, coins);
    BreakdownAtLeastMin(g, coins, amount, Count(MinCoinChange(amount, coins).change));
  }

  /** With a unit coin every amount has a minimum breakdown, never larger than greedy's. */
  lemma UnitCoinMinCoinsNoWorseThanGreedy(amount: nat, coins: seq<int>)
    requires Positive(coins) && 1 in coins
    ensures MinCoinChange(amount, coins).Found?
    ensures Count(MinCoinChange(amount, coins).change) <= Count(GreedyChange(amount, coins))
  {
    GreedySound(amount, coins);
    MinCoinsNoWorseThanGreedy(amount, coins);
  }

  /** Coins [1, 3, 4], amount 6: greedy hands out {4: 1, 1: 2}. */
  lemma GreedyCustomSet()
    ensures GreedyChange(6, [1, 3, 4]) == map[4 := 1, 1 := 2]
  {
    CustomSetSorted();
    CustomSetRun();
  }

  /** The loop over 4, 3, 1 starting with 6 owed: 4 is taken once, 3 not at all, 1 twice. */
  lemma CustomSetRun()
    ensures Run(Scan(6, map[]), [4, 3, 1]) == Scan(0, map[4 := 1, 1 := 2])
  {
    var s1 := Step(Scan(6, map[]), 4);
    assert s1 == Scan(2, map[4 := 1]);
    var s2 := Step(s1, 3);
    var s3 := Step(s2, 1);
    assert s3 == Scan(0, map[4 := 1, 1 := 2]);
    RunTwo(s1, 3, 1);
  }

  /** The loop over two denominations is two steps. */
  lemma RunTwo(s: Scan, c: int, d: int)
    requires c > 0 && d > 0
    ensures Run(s, [c, d]) == Step(Step(s, c), d)
  {
    assert [c, d] == [c] + [d] && [d] == [d] + [];
    RunCons(s, c, [d]);
    RunCons(Step(s, c), d, []);
  }

  /** `sorted([1, 3, 4], reverse=True)`. */
  lemma CustomSetSorted()
    ensures SortDescending([1, 3, 4]) == [4, 3, 1]
  {
    SortedThreeFour();
    SortCons(1, [3, 4]);
    InsertAtEnd(1, [4, 3]);
  }

  lemma SortedThreeFour()
    ensures SortDescending([3, 4]) == [4, 3]
  {
    SortCons(4, []);
    SortCons(3, [4]);
    InsertAtEnd(3, [4]);
  }

  /** Sorting a list is inserting its head into the sorted rest. */
  lemma SortCons(x: int, s: seq<int>)
    ensures SortDescending([x] + s) == Insert(x, SortDescending(s))
  {
    assert ([x] + s)[1..] == s;
  }

  /** Inserting an element no larger than any of a descending list puts it last. */
  lemma {:induction false} InsertAtEnd(x: int, s: seq<int>)
    requires Descending(s) && forall k | 0 <= k < |s| :: x < s[k]
    ensures Insert(x, s) == s + [x]
  {
    if s != [] {
      InsertAtEnd(x, s[1..]);
      assert [s[0]] + (s[1..] + [x]) == s + [x];
    }
  }

  /** Coins [50, 25, 10, 5, 2, 1], amount 113: greedy hands out {50: 2, 10: 1, 2: 1, 1: 1}. */
  lemma GreedyStandardSet()
    ensures GreedyChange(113, [50, 25, 10, 5, 2, 1]) == map[50 := 2, 10 := 1, 2 := 1, 1 := 1]
  {
    var coins := [50, 25, 10, 5, 2, 1];
    assert Positive(coins) && Descending(coins);
    StandardSetRun();
    GreedyOfDescending(113, coins);
  }

  /** On a list already largest-first, greedy is the loop over that list as it is. */
  lemma GreedyOfDescending(amount: nat, coins: seq<int>)
    requires Positive(coins) && Descending(coins)
    ensures GreedyChange(amount, coins) == Run(Scan(amount, map[]), coins).result
  {
    SortKeepsDescending(coins);
  }

  /** The loop over 50, 25, 10, 5, 2, 1 starting with 113 owed. */
  lemma StandardSetRun()
    ensures Run(Scan(113, map[]), [50, 25, 10, 5, 2, 1]) == Scan(0, map[50 := 2, 10 := 1, 2 := 1, 1 := 1])
  {
    var s1 := Step(Scan(113, map[]), 50);
    assert s1 == Scan(13, map[50 := 2]);
    var s3 := Step(Step(s1, 25), 10);
    assert s3 == Scan(3, map[50 := 2, 10 := 1]);
    var s5 := Step(Step(s3, 5), 2);
    assert s5 == Scan(1, map[50 := 2, 10 := 1, 2 := 1]);
    assert Step(s5, 1) == Scan(0, map[50 := 2, 10 := 1, 2 := 1, 1 := 1]);
    RunCons(Scan(113, map[]), 50, [25, 10, 5, 2, 1]);
    RunCons(s1, 25, [10, 5, 2, 1]);
    RunCons(Step(s1, 25), 10, [5, 2, 1]);
    RunCons(s3, 5, [2, 1]);
    RunTwo(Step(s3, 5), 2, 1);
  }

  /** The loop over a list is a step over its head, then the loop over the rest. */
  lemma RunCons(s: Scan, c: int, rest: seq<int>)
    requires c > 0 && Positive(rest)
    ensures Positive([c] + rest)
    ensures Run(s, [c] + rest) == Run(Step(s, c), rest)
  {
    assert ([c] + rest)[1..] == rest;
  }

  /** Sorting a list that is already largest-first leaves it as it is. */
  lemma {:induction false} SortKeepsDescending(s: seq<int>)
    requires Descending(s)
    ensures SortDescending(s) == s
  {
    if s != [] {
      SortKeepsDescending(s[1..]);
      assert s == [s[0]] + s[1..];
    }
  }

  /** Coins [1, 3, 4]: the tables the forward pass fills for the amounts 0 .. 6,
      one amount at a time, each entry after trying 1, then 3, then 4. */
  lemma CustomSetTables()
    ensures ForwardPass([1, 3, 4], 6) ==
      Tables([Finite(0), Finite(1), Finite(2), Finite(1), Finite(1), Finite(2), Finite(2)], [0, 1, 1, 3, 4, 1, 3])
  {
    var coins := [1, 3, 4];
    CustomSetFirstTables();
    var m := [Finite(0), Finite(1), Finite(2), Finite(1)];
    RelaxThree(m, 4, 1, 3, 4);
    assert ForwardPass(coins, 4) == Tables([Finite(0), Finite(1), Finite(2), Finite(1), Finite(1)], [0, 1, 1, 3, 4]);
    m := [Finite(0), Finite(1), Finite(2), Finite(1), Finite(1)];
    RelaxThree(m, 5, 1, 3, 4);
    assert ForwardPass(coins, 5) == Tables([Finite(0), Finite(1), Finite(2), Finite(1), Finite(1), Finite(2)], [0, 1, 1, 3, 4, 1]);
    m := [Finite(0), Finite(1), Finite(2), Finite(1), Finite(1), Finite(2)];
    RelaxThree(m, 6, 1, 3, 4);
  }

  /** Coins [1, 3, 4]: the tables for the amounts 0 .. 3. */
  lemma CustomSetFirstTables()
    ensures ForwardPass([1, 3, 4], 3) == Tables([Finite(0), Finite(1), Finite(2), Finite(1)], [0, 1, 1, 3])
  {
    var coins := [1, 3, 4];
    var m := [Finite(0)];
    RelaxThree(m, 1, 1, 3, 4);
    assert ForwardPass(coins, 1) == Tables([Finite(0), Finite(1)], [0, 1]);
    m := [Finite(0), Finite(1)];
    RelaxThree(m, 2, 1, 3, 4);
    assert ForwardPass(coins, 2) == Tables([Finite(0), Finite(1), Finite(2)], [0, 1, 1]);
    m := [Finite(0), Finite(1), Finite(2)];
    RelaxThree(m, 3, 1, 3, 4);
  }

  /** The inner loop over three denominations is three turns. */
  lemma RelaxThree(below: seq<Cost>, i: nat, a: int, b: int, c: int)
    requires i <= |below| && a > 0 && b > 0 && c > 0
    ensures Positive([a, b, c])
    ensures Relax(below, i, [a, b, c]) ==
      Turn(below, i, Turn(below, i, Turn(below, i, Entry(Infinity, 0), a), b), c)
  {
    assert [a, b, c][..2] == [a, b] && [a, b][..1] == [a] && [a][..0] == [];
    var e0 := Relax(below, i, []);
    var e1 := Relax(below, i, [a]);
    assert e1 == Turn(below, i, e0, a);
    var e2 := Relax(below, i, [a, b]);
    assert e2 == Turn(below, i, e1, b);
    assert Relax(below, i, [a, b, c]) == Turn(below, i, e2, c);
  }

  /** Coins [1, 3, 4], amount 6: the dynamic programme hands out {3: 2}, one
      coin fewer than greedy. */
  lemma MinCoinsCustomSet()
    ensures MinCoinChange(6, [1, 3, 4]) == Found(map[3 := 2])
  {
    var coins := [1, 3, 4];
    CustomSetTables();
    var t := ForwardPass(coins, 6);
    ForwardPassCorrect(coins, 6);
    CorrectIsLinked(t, coins);
    CustomSetWalk(t);
  }

  /** Walking the [1, 3, 4] tables back from 6: two steps of 3. */
  lemma CustomSetWalk(t: Tables)
    requires t == Tables([Finite(0), Finite(1), Finite(2), Finite(1), Finite(1), Finite(2), Finite(2)], [0, 1, 1, 3, 4, 1, 3])
    requires Linked(t)
    ensures Trace(t, 6, map[]) == map[3 := 2]
  {
    assert Add(map[], 3) == map[3 := 1];
    assert Add(map[3 := 1], 3) == map[3 := 2];
    assert Trace(t, 0, map[3 := 2]) == map[3 := 2];
    assert Trace(t, 3, map[3 := 1]) == map[3 := 2];
  }

  /** Coins [50, 25, 10, 5, 2, 1], amount 113: the dynamic programme pays 113
      exactly with at most the five coins of the greedy breakdown. */
  lemma MinCoinsStandardSet()
    ensures MinCoinChange(113, [50, 25, 10, 5, 2, 1]).Found?
    ensures var b := MinCoinChange(113, [50, 25, 10, 5, 2, 1]).change;
      Value(b) == 113 && Count(b) <= 5
  {
    var coins, amount := [50, 25, 10, 5, 2, 1], 113;
    var g := map[50 := 2, 10 := 1, 2 := 1, 1 := 1];
    ValuePutFresh(map[], 50, 2);
    ValuePutFresh(map[50 := 2], 10, 1);
    ValuePutFresh(map[50 := 2, 10 := 1], 2, 1);
    ValuePutFresh(map[50 := 2, 10 := 1, 2 := 1], 1, 1);
    assert Value(g) == amount && Count(g) == 5;
    BreakdownReaches(g, coins);
    MinCoinChangeCorrect(amount, coins);
    BreakdownAtLeastMin(g, coins, amount, Count(MinCoinChange(amount, coins).change));
  }

  /** Coins [5], amount 3: no combination pays it. */
  lemma {:induction false} FivesPayMultiplesOfFive(s: seq<int>, i: int)
    requires Pays(s, [5], i)
    ensures i % 5 == 0
  {
    if s != [] {
      assert s[0] in [5];
      FivesPayMultiplesOfFive(s[1..], i - 5);
    }
  }

  /** Coins [5], amount 3: the dynamic programme reports no solution, greedy
      returns the empty breakdown leaving all 3 unpaid, and the walk as written
      stays at 3 forever. */
  lemma FivesCannotPayThree(steps: nat)
    ensures MinCoinChange(3, [5]) == NoSolution
    ensures GreedyChange(3, [5]) == map[]
    ensures var lc := ForwardPass([5], 3).lastCoin;
      && (forall j | 0 <= j < |lc| :: 0 <= lc[j] <= j)
      && AsWrittenPosition(lc, 3, steps) == 3
  {
    forall s | Pays(s, [5], 3) ensures false {
      FivesPayMultiplesOfFive(s, 3);
    }
    MinCoinChangeCorrect(3, [5]);
    AsWrittenWalkNeverEnds([5], 3, steps);
  }
}
