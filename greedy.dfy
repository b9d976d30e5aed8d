/**
 * The greedy change maker: the denominations are visited from the largest to
 * the smallest, and for each one as many coins are taken as fit in what is
 * still owed.
 */
module Greedy {
  import opened Change

  /** Largest first: no element is smaller than the one after it. */
  predicate Descending(s: seq<int>) {
    forall i | 0 < i < |s| :: s[i - 1] >= s[i]
  }

  /** Puts `x` into a descending list at its place. */
  function Insert(x: int, s: seq<int>): (r: seq<int>)
    requires Descending(s)
    ensures Descending(r)
    ensures multiset(r) == multiset(s) + multiset{x}
    ensures |r| == |s| + 1 && r[0] == (if s == [] || x >= s[0] then x else s[0])
  {
    if s == [] || x >= s[0] then
      [x] + s
    else
      var rest := Insert(x, s[1..]);
      assert s == [s[0]] + s[1..];
      [s[0]] + rest
  }

  /** `sorted(coins, reverse=True)`: the same denominations, largest first. */
  function SortDescending(s: seq<int>): (r: seq<int>)
    ensures Descending(r)
    ensures multiset(r) == multiset(s)
  {
    if s == [] then []
    else
      assert s == [s[0]] + s[1..];
      Insert(s[0], SortDescending(s[1..]))
  }

  /** Reordering keeps every denomination positive and every denomination an input coin. */
  lemma SortedCoins(coins: seq<int>)
    requires Positive(coins)
    ensures Positive(SortDescending(coins))
    ensures forall c | c in SortDescending(coins) :: c in coins
    ensures forall c | c in coins :: c in SortDescending(coins)
  {
    var desc := SortDescending(coins);
    forall k | 0 <= k < |desc| ensures desc[k] > 0 && desc[k] in coins {
      assert desc[k] in multiset(coins);
    }
    forall c | c in coins ensures c in desc {
      assert c in multiset(desc);
    }
  }

  /** The loop's variables: what is still owed (`amount`) and the breakdown so far. */
  datatype Scan = Scan(owed: nat, result: Breakdown)

  /** One turn of the loop body for denomination `coin`: take `owed // coin`
      coins of it and record them only when that count is not zero. */
  function Step(s: Scan, coin: int): (r: Scan)
    requires coin > 0
    ensures r.owed < coin && r.owed <= s.owed
  {
    var count := s.owed / coin;
    assert s.owed - coin * count == s.owed % coin;
    if count != 0 then Scan(s.owed - coin * count, s.result[coin := count]) else s
  }

  /** The loop run over a list of denominations, in that order. */
  function Run(s: Scan, desc: seq<int>): (r: Scan)
    requires Positive(desc)
    ensures r.owed <= s.owed
    ensures forall c | c in desc :: r.owed < c
    decreases |desc|
  {
    if desc == [] then s
    else
      assert forall c | c in desc :: c == desc[0] || c in desc[1..];
      Run(Step(s, desc[0]), desc[1..])
  }

  /** The breakdown `find_coins_greedy(amount, coins)` returns. */
  function GreedyChange(amount: nat, coins: seq<int>): (r: Breakdown)
    requires Positive(coins)
    ensures WellFormed(r, coins) && Value(r) <= amount
  {
    SortedCoins(coins);
    RunKeeps(Scan(amount, map[]), SortDescending(coins), amount, coins);
    Run(Scan(amount, map[]), SortDescending(coins)).result
  }

  /** What the loop keeps true (besides what is owed never being negative, which
      its type says): the breakdown
      plus what is owed is the requested amount, and every recorded
      denomination is an input coin with a positive count that is larger than
      what is still owed. */
  ghost predicate Accounts(s: Scan, amount: int, coins: seq<int>) {
    && Value(s.result) + s.owed == amount
    && (forall d | d in s.result :: d in coins && s.result[d] > 0 && s.owed < d)
  }

  /** One turn keeps the accounts, never raises what is owed and leaves less
      than the coin just visited. */
  lemma StepKeeps(s: Scan, coin: int, amount: int, coins: seq<int>)
    requires coin > 0 && coin in coins && Accounts(s, amount, coins)
    ensures Accounts(Step(s, coin), amount, coins)
    ensures Step(s, coin).owed < coin
    ensures Step(s, coin).owed <= s.owed
  {
    var count := s.owed / coin;
    if count != 0 {
      assert coin !in s.result;
      ValuePutFresh(s.result, coin, count);
      assert s.owed - coin * count == s.owed % coin;
    }
  }

  /** Running over a list of input coins keeps the accounts and leaves less
      than every coin visited. */
  lemma {:induction false} RunKeeps(s: Scan, desc: seq<int>, amount: int, coins: seq<int>)
    requires Positive(desc) && (forall c | c in desc :: c in coins)
    requires Accounts(s, amount, coins)
    ensures Accounts(Run(s, desc), amount, coins)
    ensures Run(s, desc).owed <= s.owed
    ensures forall c | c in desc :: Run(s, desc).owed < c
    decreases |desc|
  {
    if desc != [] {
      StepKeeps(s, desc[0], amount, coins);
      RunKeeps(Step(s, desc[0]), desc[1..], amount, coins);
      assert forall c | c in desc :: c == desc[0] || c in desc[1..];
    }
  }

  /** The greedy breakdown only uses input coins with positive counts, never
      pays more than asked, leaves less than the smallest coin unpaid, and pays
      exactly when a unit coin is present. */
  lemma GreedySound(amount: nat, coins: seq<int>)
    requires Positive(coins)
    ensures WellFormed(GreedyChange(amount, coins), coins)
    ensures Value(GreedyChange(amount, coins)) <= amount
    ensures forall c | c in coins :: amount - Value(GreedyChange(amount, coins)) < c
    ensures 1 in coins ==> Value(GreedyChange(amount, coins)) == amount
  {
    SortedCoins(coins);
    var desc := SortDescending(coins);
    RunKeeps(Scan(amount, map[]), desc, amount, coins);
  }

  /** Nothing owed: no turn of the loop records anything. */
  lemma {:induction false} RunOwingNothing(desc: seq<int>)
    requires Positive(desc)
    ensures Run(Scan(0, map[]), desc) == Scan(0, map[])
    decreases |desc|
  {
    if desc != [] {
      RunOwingNothing(desc[1..]);
    }
  }

  /** `find_coins_greedy(0, coins)` is the empty breakdown. */
  lemma GreedyZero(coins: seq<int>)
    requires Positive(coins)
    ensures GreedyChange(0, coins) == map[]
  {
    SortedCoins(coins);
    RunOwingNothing(SortDescending(coins));
  }

  /** `find_coins_greedy`: sort the denominations largest first, then for each
      take `amount // coin` coins, record a non-zero count and deduct it. */
  method FindCoinsGreedy(amount: nat, coins: seq<int>) returns (result: Breakdown)
    requires Positive(coins)
    ensures result == GreedyChange(amount, coins)
    ensures WellFormed(result, coins)
    ensures Value(result) <= amount
    ensures forall c | c in coins :: amount - Value(result) < c
    ensures 1 in coins ==> Value(result) == amount
    ensures amount == 0 ==> result == map[]
  {
    SortedCoins(coins);
    var desc := SortDescending(coins);
    result := TakeLargestFirst(amount, desc);
    GreedySound(amount, coins);
    if amount == 0 {
      GreedyZero(coins);
    }
  }

  /** The loop of `find_coins_greedy` over the denominations in the order given. */
  method TakeLargestFirst(amount: nat, desc: seq<int>) returns (result: Breakdown)
    requires Positive(desc)
    ensures result == Run(Scan(amount, map[]), desc).result
  {
    result := map[];
    var owed: nat := amount;
    for k := 0 to |desc|
      invariant Run(Scan(owed, result), desc[k..]) == Run(Scan(amount, map[]), desc)
    {
      var coin := desc[k];
      assert coin > 0;
      ghost var before := Scan(owed, result);
      var count := owed / coin;
      if count != 0 {
        result := result[coin := count];
        owed := owed - coin * count;
      }
      assert Scan(owed, result) == Step(before, coin);
      assert desc[k..][0] == coin && desc[k..][1..] == desc[k + 1..];
    }
    assert desc[|desc|..] == [];
  }
}
