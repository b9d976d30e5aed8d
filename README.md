# Coin change: greedy and dynamic programming

This project models the two change-making functions of `main.py` and proves
what they compute:

- `find_coins_greedy(amount, coins)` visits the denominations from largest to
  smallest. For each one it takes `amount // coin` coins, records the count
  when it is not zero, and deducts their value.
- `find_min_coins(amount, coins)` fills two tables for every amount from 1 up
  to the target:
  - `min_coins` holds the least number of coins, with `float('inf')` for
    "not reachable yet";
  - `last_coin` holds the coin that achieves that least number.

  It then walks `last_coin` back from the target and collects the coins.

Both return a breakdown, which maps a denomination to the number of coins of it.

The model has four modules:

- `Change` is the shared vocabulary:
  - a breakdown is a `map<int, nat>`;
  - `Value` is its worth and `Count` its number of coins;
  - `Pays`, `Reachable` and `IsMinCount` say what it means to pay an amount
    exactly, from unlimited coins of the given denominations, with the fewest
    coins.
- `Greedy` holds a reference definition of the loop (`Step`, `Run`,
  `GreedyChange`) and the method `FindCoinsGreedy`, which keeps the loop as
  it is written.
- `MinCoins` holds the following:
  - infinity is a `Cost` datatype (`Finite(n) | Infinity`);
  - the forward pass is `Relax` and `ForwardPass`, and the walk back is `Trace`;
  - the method `FindMinCoins` fills two arrays with nested loops, then walks
    back with a `while` loop.
- `Comparison` shows how the two algorithms relate, and works out the
  program's two demonstration inputs plus a denomination set that cannot pay
  the amount.

Each method is proved equal to its reference function. The properties are
proved as lemmas about the function. The central results are:

- The greedy breakdown only uses input coins with positive counts. It never
  pays more than asked. It leaves less than the smallest coin unpaid, and it
  pays exactly when there is a 1-unit coin.
- Every table entry of the forward pass is correct. Infinity appears exactly
  for unreachable amounts. Otherwise the entry is the least number of coins.
  The back-pointer is an input coin that leads to an entry one coin cheaper,
  and it is the first such coin in input order.
- The reconstructed breakdown pays the amount exactly, with the least number
  of coins. It never uses more coins than greedy when greedy pays exactly.

## Model

| member | source | states |
|---|---|---|
| Change.Add | main.py:51 | one more coin of `d`: the keys become the old keys plus `d`, and `d` has a positive count |
| Change.AddCoin | main.py:51 | `result[coin] = result.get(coin, 0) + 1` raises the breakdown's value by `coin` and its coin count by one, gives `coin` a positive count, and leaves every other entry as it was |
| Greedy.SortDescending | main.py:18 | `sorted(coins, reverse=True)` returns the denominations largest first, as a permutation (same multiset) of the input |
| Greedy.SortedCoins | main.py:18 | the sorted list holds exactly the input denominations, all of them positive |
| Greedy.Step | main.py:19-22 | one loop turn (`count = amount // coin`, record when non-zero, deduct): afterwards less than `coin` is owed, and never more than before |
| Greedy.Run | main.py:18-22 | the loop over a list of denominations in order: it never raises what is owed, and ends owing less than every denomination in the list |
| Greedy.GreedyChange | main.py:4-23 | `find_coins_greedy(amount, coins)`, the loop over the sorted denominations: only input coins with positive counts, worth at most `amount` |
| Greedy.StepKeeps | main.py:19-22 | one loop turn keeps "breakdown value + amount still owed = requested amount"; it records only input coins with positive counts, never raises what is owed, and leaves less than the coin just visited |
| Greedy.RunKeeps | main.py:18-22 | the whole loop keeps that account, and what is left owed is smaller than every denomination visited |
| Greedy.GreedySound | main.py:4-23 | the greedy breakdown uses only input coins with positive counts and never pays more than the amount; the unpaid rest is below every denomination; with a 1-unit coin it pays the amount exactly |
| Greedy.GreedyZero | main.py:16-23 | amount 0 gives the empty breakdown |
| Greedy.TakeLargestFirst | main.py:18-22 | the loop (`count = amount // coin`, record when non-zero, deduct) over a list of positive denominations computes the reference `Run` |
| Greedy.FindCoinsGreedy | main.py:4-23 | `find_coins_greedy` returns the reference breakdown, and with it every property of `GreedySound` and `GreedyZero` |
| MinCoins.Turn | main.py:43-45 | one inner turn for denomination `c`: the entry is no larger than before and, when `c` fits, no larger than `min_coins[i - c] + 1` |
| MinCoins.Relax | main.py:42-45 | the inner loop over denominations in input order, starting from infinity and coin 0: a finite entry records an input coin in `1..i`, an infinite one coin 0 |
| MinCoins.ForwardPass | main.py:38-45 | the tables after filling amounts `0..n`: both have `n + 1` entries (their correctness is `ForwardPassCorrect`) |
| MinCoins.RelaxSpec | main.py:42-45 | after the inner loop, entry `i` is no larger than `min_coins[i - c] + 1` for every denomination `c <= i`; when finite it equals that for the recorded coin, which is an input coin in `1..i`; and the recorded coin is the first in input order that achieves the entry (strict `<` keeps the earliest) |
| MinCoins.RelaxStep | main.py:43-45 | trying one more denomination preserves that description of the entry |
| MinCoins.RelaxCorrect | main.py:41-45 | when the entries below `i` are correct, the inner loop makes entry `i` correct: infinity exactly when `i` is unreachable, otherwise the least number of coins, with a consistent back-pointer |
| MinCoins.RelaxLowerBound | main.py:42-45 | every payment of `i` uses at least as many coins as the entry the inner loop computes |
| MinCoins.RelaxWitness | main.py:43-45 | a finite entry is achieved by an actual payment of `i` with exactly that many coins, whose first coin is the recorded `last_coin[i]` |
| MinCoins.ForwardPassCorrect | main.py:38-45 | after the forward pass every entry `0..amount` of `min_coins` and `last_coin` is correct; `min_coins[0] = 0` and `last_coin[0] = 0` |
| MinCoins.ExtendCorrect | main.py:41 | appending a correct entry to a table of correct entries keeps every entry correct |
| MinCoins.CorrectIsLinked | main.py:45 | at every reached positive amount, `last_coin[i]` is positive, at most `i`, and points to a reached amount |
| MinCoins.PointerStep | main.py:44-45 | at a reached positive amount, `min_coins[i] = min_coins[i - last_coin[i]] + 1` with `last_coin[i]` an input coin |
| MinCoins.Trace | main.py:47-52 | the walk back along `last_coin` from a reached amount, adding one coin per step; it only adds denominations to the breakdown (its value and count are `TraceSpec`) |
| MinCoins.TraceSpec | main.py:49-52 | walking back from a reached amount `i` adds coins worth exactly `i`, exactly `min_coins[i]` of them, all input coins |
| MinCoins.MinCoinChange | main.py:26-53 | `find_min_coins` with a reachability check added before the walk: `NoSolution` when `min_coins[amount]` is infinite, otherwise the walk's breakdown; amount 0 always has a solution (full correctness is `MinCoinChangeCorrect`) |
| MinCoins.MinCoinChangeCorrect | main.py:26-53 | there is no solution exactly when the amount is unreachable; otherwise the breakdown pays the amount exactly, with the least possible number of coins, using input coins with positive counts; amount 0 gives the empty breakdown |
| MinCoins.FillTables | main.py:38-45 | the tables are newly allocated, as the list literals are, and the two nested loops leave them equal to the reference forward pass |
| MinCoins.FillAmount | main.py:41-45 | one outer turn extends the finished prefix by amount `i` and leaves the later entries at their initial infinity and 0 |
| MinCoins.RelaxAt | main.py:42-45 | the inner loop changes only entry `i` of the two arrays, to what `Relax` computes |
| MinCoins.WalkBack | main.py:46-53 | the `while i > 0` walk over `last_coin` returns the reference `Trace` from the target |
| MinCoins.FindMinCoins | main.py:26-53 | `find_min_coins` with the reachability check: it returns the reference outcome, `NoSolution` exactly for unreachable amounts, and otherwise an exact, minimum-count breakdown of input coins |
| MinCoins.AsWrittenPosition | main.py:47-52 | the position after a number of turns of the walk exactly as written, with no reachability check; it never moves above its start |
| MinCoins.LastCoinBounded | main.py:39-45 | every `last_coin[j]` is 0 or an input denomination no larger than `j` |
| MinCoins.AsWrittenWalkNeverEnds | main.py:49-52 | for an unreachable positive amount, `last_coin[amount]` is 0, so the walk as written stays at `amount` after any number of turns |
| Comparison.MinCoinsNoWorseThanGreedy | main.py:41-45 | whenever the greedy breakdown pays the amount exactly, the dynamic programme finds a breakdown too, with no more coins |
| Comparison.UnitCoinMinCoinsNoWorseThanGreedy | main.py:18-22 | with a 1-unit coin the dynamic programme always finds a breakdown, never larger than greedy's |
| Comparison.GreedyCustomSet | main.py:58-65 | coins [1, 3, 4], amount 6: greedy returns {4: 1, 1: 2} |
| Comparison.CustomSetTables | main.py:38-45 | coins [1, 3, 4]: `min_coins` is [0, 1, 2, 1, 1, 2, 2] and `last_coin` is [0, 1, 1, 3, 4, 1, 3] |
| Comparison.MinCoinsCustomSet | main.py:66-71 | coins [1, 3, 4], amount 6: the dynamic programme returns {3: 2} |
| Comparison.GreedyStandardSet | main.py:74-81 | coins [50, 25, 10, 5, 2, 1], amount 113: greedy returns {50: 2, 10: 1, 2: 1, 1: 1} |
| Comparison.MinCoinsStandardSet | main.py:82 | coins [50, 25, 10, 5, 2, 1], amount 113: the dynamic programme finds a breakdown worth 113 with at most 5 coins |
| Comparison.FivesCannotPayThree | main.py:49-52 | coins [5], amount 3: the corrected programme reports `NoSolution`; greedy returns the empty breakdown; the walk as written stays at 3 forever |

## Left out

- The `__main__` block (main.py:56-82) prints results. Printing is not modelled. Its two scenarios are stated as lemmas in `Comparison`.
- Negative amounts and non-positive denominations are excluded. `amount` is a `nat` and every denomination must be positive.
  - In `find_coins_greedy`, a zero coin divides by zero in `amount // coin`, and a negative amount makes Python's floor division return negative counts, not an empty breakdown.
  - In `find_min_coins`, a zero coin is never recorded, because main.py:43 would compare `min_coins[i] + 1 < min_coins[i]`. A negative coin makes `min_coins[i - coin]` index past the end of the table.
- `float('inf')` and the float arithmetic on it are replaced by the `Cost` datatype. `Succ` (adding one) and the strict comparison `Below` behave exactly like `inf + 1` and `<` on these values.
- Dictionary insertion order is not modelled. A breakdown is a `map`, which has no order.
- `sorted` is modelled by an insertion sort. Sort stability does not matter for integers, so only "descending and the same multiset" is relied on.
- `find_min_coins` returns an `Outcome` (`Found(breakdown)` or `NoSolution`) rather than a bare dictionary, because the source never returns for an unreachable amount (see Findings).
- Comparison.MinCoinsStandardSet: states only that the dynamic programme pays 113 with at most 5 coins. Equality with {50: 2, 10: 1, 2: 1, 1: 1} was not attempted. It would follow from minimality together with a lemma that this is the only 5-coin payment of 113, which the model does not have.
- Greedy's optimality for "canonical" denomination sets in general is not stated. The source makes no such claim beyond its one example.

## Findings

| source | as written | input that shows it | evidently intended | confidence | as-written member | corrected member |
|---|---|---|---|---|---|---|
| main.py:49-52 | when the target amount cannot be reached, `last_coin[amount]` stays 0, so `i -= coin` subtracts 0 and `while i > 0` never ends | coins [5], amount 3 | report that no breakdown exists | not executed | MinCoins.AsWrittenWalkNeverEnds | MinCoins.FindMinCoins |
