/**
 * The dynamic-programming change maker: a forward pass fills, for every
 * amount from 0 up to the target, the least number of coins that pays it and
 * the coin that achieved it; a backward walk then follows those coins from
 * the target down to 0.
 */
module MinCoins {
  import opened Change

  /** An entry of the `min_coins` table: a coin count, or infinity (`float('inf')`)
      for an amount no combination has reached. */
  datatype Cost = Finite(n: nat) | Infinity

  /** `cost + 1`, with infinity absorbing. */
  function Succ(c: Cost): Cost {
    match c
    case Finite(n) => Finite(n + 1)
    case Infinity => Infinity
  }

  /** `a < b`, where nothing is below infinity and infinity is below nothing. */
  predicate Below(a: Cost, b: Cost) {
    a.Finite? && (b.Infinity? || a.n < b.n)
  }

  /** `a <= b`. */
  predicate AtMost(a: Cost, b: Cost) {
    b.Infinity? || (a.Finite? && a.n <= b.n)
  }

  /** `min_coins[i]` and `last_coin[i]` for one amount `i`. */
  datatype Entry = Entry(cost: Cost, coin: int)

  /** The two tables `min_coins` and `last_coin`. */
  datatype Tables = Tables(minCoins: seq<Cost>, lastCoin: seq<int>)

  /** The inner loop for amount `i`, run over the denominations `cs` in order:
      starting from infinity and no coin, a coin `c <= i` replaces the entry
      when `min_coins[i - c] + 1` is strictly smaller. `below` holds the
      finished entries for the amounts 0 .. i-1. */
  function Relax(below: seq<Cost>, i: nat, cs: seq<int>): (r: Entry)
    requires i <= |below| && Positive(cs)
    ensures r.cost.Finite? ==> r.coin in cs && 0 < r.coin <= i
    ensures r.cost.Infinity? ==> r.coin == 0
    decreases |cs|
  {
    if cs == [] then Entry(Infinity, 0)
    else Turn(below, i, Relax(below, i, cs[..|cs| - 1]), cs[|cs| - 1])
  }

  /** One turn of the inner loop for denomination `c`: it replaces the entry
      when it fits and `min_coins[i - c] + 1` is strictly smaller. */
  function Turn(below: seq<Cost>, i: nat, prev: Entry, c: int): (r: Entry)
    requires i <= |below| && c > 0
    ensures AtMost(r.cost, prev.cost)
    ensures i >= c ==> AtMost(r.cost, Succ(below[i - c]))
  {
    if i >= c && Below(Succ(below[i - c]), prev.cost) then Entry(Succ(below[i - c]), c) else prev
  }

  /** The tables after the forward pass has filled the amounts 0 .. n. */
  function ForwardPass(coins: seq<int>, n: nat): (t: Tables)
    requires Positive(coins)
    ensures |t.minCoins| == |t.lastCoin| == n + 1
  {
    if n == 0 then Tables([Finite(0)], [0])
    else
      var t := ForwardPass(coins, n - 1);
      var e := Relax(t.minCoins, n, coins);
      Tables(t.minCoins + [e.cost], t.lastCoin + [e.coin])
  }

  /** Coin `c` achieves cost `target` at amount `i`: it fits and one more coin
      on top of the best for `i - c` gives `target`. */
  predicate Achieves(below: seq<Cost>, i: nat, c: int, target: Cost)
    requires i <= |below|
  {
    0 < c <= i && target.Finite? && Succ(below[i - c]) == target
  }

  /** The first denomination, in input order, that achieves `target`, or 0 if none does. */
  function FirstAchieving(below: seq<Cost>, i: nat, cs: seq<int>, target: Cost): int
    requires i <= |below|
  {
    if cs == [] then 0
    else if Achieves(below, i, cs[0], target) then cs[0]
    else FirstAchieving(below, i, cs[1..], target)
  }

  /** The first achieving coin is 0 or an achieving member of the list. */
  lemma {:induction false} FirstAchievingIn(below: seq<Cost>, i: nat, cs: seq<int>, target: Cost)
    requires i <= |below|
    ensures var f := FirstAchieving(below, i, cs, target);
      f == 0 || (f in cs && Achieves(below, i, f, target))
  {
    if cs != [] && !Achieves(below, i, cs[0], target) {
      FirstAchievingIn(below, i, cs[1..], target);
    }
  }

  /** Appending a denomination changes the first achieving coin only if none was found yet. */
  lemma {:induction false} FirstAchievingSnoc(below: seq<Cost>, i: nat, cs: seq<int>, x: int, target: Cost)
    requires i <= |below|
    ensures FirstAchieving(below, i, cs + [x], target) ==
      var f := FirstAchieving(below, i, cs, target);
      if f != 0 then f else if Achieves(below, i, x, target) then x else 0
  {
    if cs == [] {
      assert [] + [x] == [x];
      assert [x][1..] == [];
    } else {
      assert (cs + [x])[1..] == cs[1..] + [x];
      FirstAchievingSnoc(below, i, cs[1..], x, target);
    }
  }

  /** What the inner loop has computed after trying the denominations `cs`: the
      least `min_coins[i - c] + 1` over those that fit (infinity if none does),
      and, when it is finite, the first of them in input order that achieves it. */
  ghost predicate Relaxed(below: seq<Cost>, i: nat, cs: seq<int>, e: Entry)
    requires 0 < i <= |below| && Positive(cs)
  {
    && (forall k | 0 <= k < |cs| && cs[k] <= i :: AtMost(e.cost, Succ(below[i - cs[k]])))
    && (e.cost.Finite? ==> e.coin in cs && 0 < e.coin <= i && e.cost == Succ(below[i - e.coin]))
    && e.coin == FirstAchieving(below, i, cs, e.cost)
  }

  /** The inner loop computes the least cost and the first denomination achieving it. */
  lemma {:induction false} RelaxSpec(below: seq<Cost>, i: nat, cs: seq<int>)
    requires 0 < i <= |below| && Positive(cs)
    ensures Relaxed(below, i, cs, Relax(below, i, cs))
    decreases |cs|
  {
    if cs != [] {
      var init := cs[..|cs| - 1];
      var x := cs[|cs| - 1];
      assert cs == init + [x];
      assert Positive(init) by {
        forall k | 0 <= k < |init| ensures init[k] > 0 { assert init[k] == cs[k]; }
      }
      RelaxSpec(below, i, init);
      RelaxStep(below, i, init, x);
    }
  }

  /** Trying one more denomination keeps what the inner loop has computed. */
  lemma RelaxStep(below: seq<Cost>, i: nat, init: seq<int>, x: int)
    requires 0 < i <= |below| && Positive(init) && x > 0
    requires Relaxed(below, i, init, Relax(below, i, init))
    ensures Positive(init + [x])
    ensures Relaxed(below, i, init + [x], Relax(below, i, init + [x]))
  {
    PositiveSnoc(init, x);
    RelaxSnoc(below, i, init, x);
    var prev := Relax(below, i, init);
    if x <= i && Below(Succ(below[i - x]), prev.cost) {
      RelaxStepTaken(below, i, init, x, prev);
    } else {
      RelaxStepKept(below, i, init, x, prev);
    }
  }

  /** Appending a positive denomination keeps every denomination positive. */
  lemma PositiveSnoc(init: seq<int>, x: int)
    requires Positive(init) && x > 0
    ensures Positive(init + [x])
  {
    var cs := init + [x];
    forall k | 0 <= k < |cs| ensures cs[k] > 0 {
      if k < |init| { assert cs[k] == init[k]; }
    }
  }

  /** The inner loop over one more denomination is one more turn of its body. */
  lemma RelaxSnoc(below: seq<Cost>, i: nat, init: seq<int>, x: int)
    requires i <= |below| && Positive(init) && x > 0 && Positive(init + [x])
    ensures Relax(below, i, init + [x]) == Turn(below, i, Relax(below, i, init), x)
  {
    var cs := init + [x];
    assert cs[..|cs| - 1] == init && cs[|cs| - 1] == x;
  }

  /** A denomination that gives a strictly smaller cost becomes the entry, and
      it is the first to achieve that cost. */
  lemma RelaxStepTaken(below: seq<Cost>, i: nat, init: seq<int>, x: int, prev: Entry)
    requires 0 < i <= |below| && Positive(init) && Positive(init + [x]) && 0 < x <= i
    requires Relaxed(below, i, init, prev)
    requires Below(Succ(below[i - x]), prev.cost)
    ensures Relaxed(below, i, init + [x], Entry(Succ(below[i - x]), x))
  {
    var cs := init + [x];
    var e := Entry(Succ(below[i - x]), x);
    forall k | 0 <= k < |cs| && cs[k] <= i
      ensures AtMost(e.cost, Succ(below[i - cs[k]]))
    {
      if k < |init| {
        assert cs[k] == init[k];
        assert AtMost(prev.cost, Succ(below[i - init[k]]));
      } else {
        assert cs[k] == x;
      }
    }
    FirstAchievingSnoc(below, i, init, x, e.cost);
    FirstAchievingIn(below, i, init, e.cost);
    assert FirstAchieving(below, i, init, e.cost) == 0;
  }

  /** A denomination that gives no smaller cost leaves the entry as it was. */
  lemma RelaxStepKept(below: seq<Cost>, i: nat, init: seq<int>, x: int, prev: Entry)
    requires 0 < i <= |below| && Positive(init) && Positive(init + [x]) && x > 0
    requires Relaxed(below, i, init, prev)
    requires !(x <= i && Below(Succ(below[i - x]), prev.cost))
    ensures Relaxed(below, i, init + [x], prev)
  {
    var cs := init + [x];
    forall k | 0 <= k < |cs| && cs[k] <= i
      ensures AtMost(prev.cost, Succ(below[i - cs[k]]))
    {
      if k < |init| {
        assert cs[k] == init[k];
      } else {
        assert cs[k] == x;
      }
    }
    FirstAchievingSnoc(below, i, init, x, prev.cost);
    FirstAchievingIn(below, i, init, prev.cost);
    if prev.coin == 0 {
      assert prev.cost.Infinity?;
    }
  }

  /** Entry `|below|` of a correct table, judged against the entries below it:
      infinity exactly for an unreachable amount, otherwise the least number
      of coins; the recorded coin is an input coin no larger than the amount
      that leads to an entry one coin cheaper, chosen as the first such
      denomination in input order; amount 0 costs nothing. */
  ghost predicate EntryCorrect(below: seq<Cost>, cost: Cost, coin: int, coins: seq<int>) {
    var i := |below|;
    && (i == 0 ==> cost == Finite(0) && coin == 0)
    && (cost.Infinity? <==> !Reachable(i, coins))
    && (cost.Finite? ==> IsMinCount(cost.n, coins, i))
    && (i > 0 && cost.Finite? ==> coin in coins && 0 < coin <= i && Succ(below[i - coin]) == cost)
    && (i > 0 ==> coin == FirstAchieving(below, i, coins, cost))
  }

  /** Every entry of the tables is correct. */
  ghost predicate Correct(t: Tables, coins: seq<int>) {
    && |t.minCoins| == |t.lastCoin|
    && forall j {:trigger t.minCoins[..j]} | 0 <= j < |t.minCoins| :: EntryCorrect(t.minCoins[..j], t.minCoins[j], t.lastCoin[j], coins)
  }

  /** Amount 0 is paid by no coins at all. */
  lemma ZeroEntry(coins: seq<int>)
    ensures EntryCorrect([], Finite(0), 0, coins)
  {
    assert Pays([], coins, 0);
  }

  /** The inner loop's entry for `i` is correct when all entries below are. */
  lemma RelaxCorrect(t: Tables, i: nat, coins: seq<int>)
    requires Positive(coins) && Correct(t, coins) && |t.minCoins| == i > 0
    ensures var e := Relax(t.minCoins, i, coins);
      EntryCorrect(t.minCoins, e.cost, e.coin, coins)
  {
    RelaxSpec(t.minCoins, i, coins);
    RelaxLowerBound(t, i, coins);
    RelaxWitness(t, i, coins);
  }

  /** Every way to pay `i` starts with some coin `c <= i` followed by a way to
      pay `i - c`, which costs at least `min_coins[i - c]`; so the inner loop's
      cost is finite and no larger than any payment. */
  lemma RelaxLowerBound(t: Tables, i: nat, coins: seq<int>)
    requires Positive(coins) && Correct(t, coins) && |t.minCoins| == i > 0
    requires Relaxed(t.minCoins, i, coins, Relax(t.minCoins, i, coins))
    ensures forall s | Pays(s, coins, i) ::
      Relax(t.minCoins, i, coins).cost.Finite? && Relax(t.minCoins, i, coins).cost.n <= |s|
  {
    var below := t.minCoins;
    var e := Relax(below, i, coins);
    forall s | Pays(s, coins, i)
      ensures e.cost.Finite? && e.cost.n <= |s|
    {
      PaysSplit(s, coins, i);
      var c := s[0];
      var j := i - c;
      assert below[..j] == t.minCoins[..j];
      assert EntryCorrect(below[..j], below[j], t.lastCoin[j], coins);
      assert Reachable(j, coins);
      var k :| 0 <= k < |coins| && coins[k] == c;
      assert AtMost(e.cost, Succ(below[j]));
    }
  }

  /** A finite cost from the inner loop is achieved by an actual payment: the
      recorded coin followed by a cheapest payment of what is left. */
  lemma RelaxWitness(t: Tables, i: nat, coins: seq<int>)
    requires Positive(coins) && Correct(t, coins) && |t.minCoins| == i > 0
    requires Relaxed(t.minCoins, i, coins, Relax(t.minCoins, i, coins))
    ensures var e := Relax(t.minCoins, i, coins);
      e.cost.Finite? ==>
        exists s :: Pays(s, coins, i) && |s| == e.cost.n && |s| > 0 && s[0] == e.coin
  {
    var below := t.minCoins;
    var e := Relax(below, i, coins);
    if e.cost.Finite? {
      var c := e.coin;
      var j := i - c;
      assert EntryCorrect(below[..j], below[j], t.lastCoin[j], coins);
      var s' :| Pays(s', coins, j) && |s'| == below[j].n;
      PaysCons(c, s', coins, j);
      assert Pays([c] + s', coins, i) && ([c] + s')[0] == c;
    }
  }

  /** The forward pass fills a correct table. */
  lemma {:induction false} ForwardPassCorrect(coins: seq<int>, n: nat)
    requires Positive(coins)
    ensures Correct(ForwardPass(coins, n), coins)
  {
    if n == 0 {
      ZeroEntry(coins);
      assert ForwardPass(coins, 0).minCoins[..0] == [];
    } else {
      ForwardPassCorrect(coins, n - 1);
      RelaxCorrect(ForwardPass(coins, n - 1), n, coins);
      ExtendCorrect(ForwardPass(coins, n - 1), n, coins);
    }
  }

  /** Appending a correct entry to a correct table keeps it correct. */
  lemma ExtendCorrect(t: Tables, n: nat, coins: seq<int>)
    requires Positive(coins) && Correct(t, coins) && |t.minCoins| == n > 0
    requires var e := Relax(t.minCoins, n, coins);
      EntryCorrect(t.minCoins, e.cost, e.coin, coins)
    ensures var e := Relax(t.minCoins, n, coins);
      Correct(Tables(t.minCoins + [e.cost], t.lastCoin + [e.coin]), coins)
  {
    var e := Relax(t.minCoins, n, coins);
    var t' := Tables(t.minCoins + [e.cost], t.lastCoin + [e.coin]);
    forall j | 0 <= j < |t'.minCoins|
      ensures EntryCorrect(t'.minCoins[..j], t'.minCoins[j], t'.lastCoin[j], coins)
    {
      if j < n {
        assert t'.minCoins[..j] == t.minCoins[..j];
        assert t'.minCoins[j] == t.minCoins[j] && t'.lastCoin[j] == t.lastCoin[j];
        assert EntryCorrect(t.minCoins[..j], t.minCoins[j], t.lastCoin[j], coins);
      } else {
        assert t'.minCoins[..j] == t.minCoins;
      }
    }
  }

  /** Back-pointers that the walk can follow: at every reached amount above 0
      the recorded coin is positive, fits, and leads to a reached amount. */
  ghost predicate Linked(t: Tables) {
    && |t.minCoins| == |t.lastCoin|
    && forall j | 0 < j < |t.minCoins| && t.minCoins[j].Finite? ::
         0 < t.lastCoin[j] <= j && t.minCoins[j - t.lastCoin[j]].Finite?
  }

  lemma CorrectIsLinked(t: Tables, coins: seq<int>)
    requires Correct(t, coins)
    ensures Linked(t)
  {
    forall j | 0 < j < |t.minCoins| && t.minCoins[j].Finite?
      ensures 0 < t.lastCoin[j] <= j && t.minCoins[j - t.lastCoin[j]].Finite?
    {
      var below, c := t.minCoins[..j], t.lastCoin[j];
      assert EntryCorrect(below, t.minCoins[j], c, coins);
      assert 0 < c <= j && Succ(below[j - c]) == t.minCoins[j];
      assert below[j - c] == t.minCoins[j - c];
    }
  }

  /** The backward walk from amount `i`: add `last_coin[i]` to the breakdown and
      move to `i - last_coin[i]`, until 0 is reached. */
  function Trace(t: Tables, i: nat, result: Breakdown): (r: Breakdown)
    requires Linked(t) && i < |t.minCoins| && t.minCoins[i].Finite?
    ensures result.Keys <= r.Keys
    decreases i
  {
    if i == 0 then result
    else Trace(t, i - t.lastCoin[i], Add(result, t.lastCoin[i]))
  }

  /** Walking a correct table from `i` adds coins worth exactly `i`, as many as
      `min_coins[i]` says, each an input coin. */
  lemma {:induction false} TraceSpec(t: Tables, coins: seq<int>, i: nat, result: Breakdown)
    requires Correct(t, coins) && Linked(t) && i < |t.minCoins| && t.minCoins[i].Finite?
    requires WellFormed(result, coins)
    ensures var r := Trace(t, i, result);
      && Value(r) == Value(result) + i
      && Count(r) == Count(result) + t.minCoins[i].n
      && WellFormed(r, coins)
    decreases i
  {
    PointerStep(t, coins, i);
    if i > 0 {
      var c := t.lastCoin[i];
      AddCoin(result, c);
      TraceSpec(t, coins, i - c, Add(result, c));
    }
  }

  /** In a correct table, amount 0 costs nothing, and a reached positive amount
      points back through an input coin to an amount one coin cheaper. */
  lemma PointerStep(t: Tables, coins: seq<int>, i: nat)
    requires Correct(t, coins) && i < |t.minCoins| && t.minCoins[i].Finite?
    ensures i == 0 ==> t.minCoins[i] == Finite(0)
    ensures i > 0 ==>
      var c := t.lastCoin[i];
      && c in coins && 0 < c <= i && t.minCoins[i - c].Finite?
      && t.minCoins[i].n == t.minCoins[i - c].n + 1
  {
    var below := t.minCoins[..i];
    assert EntryCorrect(below, t.minCoins[i], t.lastCoin[i], coins);
    if i > 0 {
      assert below[i - t.lastCoin[i]] == t.minCoins[i - t.lastCoin[i]];
    }
  }

  /** The outcome of the corrected `find_min_coins`. */
  datatype Outcome = Found(change: Breakdown) | NoSolution

  /** `find_min_coins(amount, coins)`, with the unreachable case reported as
      `NoSolution` instead of looping. */
  function MinCoinChange(amount: nat, coins: seq<int>): (r: Outcome)
    requires Positive(coins)
    ensures amount == 0 ==> r.Found?
  {
    var t := ForwardPass(coins, amount);
    ForwardPassCorrect(coins, amount);
    CorrectIsLinked(t, coins);
    if t.minCoins[amount].Infinity? then NoSolution else Found(Trace(t, amount, map[]))
  }

  /** There is no solution exactly when the amount is unreachable; otherwise the
      breakdown pays the amount exactly, with the least possible number of
      coins, using input coins with positive counts; amount 0 gives the empty
      breakdown. */
  lemma MinCoinChangeCorrect(amount: nat, coins: seq<int>)
    requires Positive(coins)
    ensures MinCoinChange(amount, coins).NoSolution? <==> !Reachable(amount, coins)
    ensures MinCoinChange(amount, coins).Found? ==>
      var b := MinCoinChange(amount, coins).change;
      Value(b) == amount && IsMinCount(Count(b), coins, amount) && WellFormed(b, coins)
    ensures amount == 0 ==> MinCoinChange(amount, coins) == Found(map[])
  {
    var t := ForwardPass(coins, amount);
    ForwardPassCorrect(coins, amount);
    CorrectIsLinked(t, coins);
    assert EntryCorrect(t.minCoins[..amount], t.minCoins[amount], t.lastCoin[amount], coins);
    if t.minCoins[amount].Finite? {
      TraceSpec(t, coins, amount, map[]);
    }
  }

  /** `find_min_coins`: fill `min_coins` and `last_coin` amount by amount, then
      walk `last_coin` back from the target. The walk runs only when the target
      was reached; otherwise the result is `NoSolution`. */
  method FindMinCoins(amount: nat, coins: seq<int>) returns (r: Outcome)
    requires Positive(coins)
    ensures r == MinCoinChange(amount, coins)
    ensures r.NoSolution? <==> !Reachable(amount, coins)
    ensures r.Found? ==>
      Value(r.change) == amount && IsMinCount(Count(r.change), coins, amount) && WellFormed(r.change, coins)
  {
    var minCoins, lastCoin := FillTables(amount, coins);
    ghost var t := ForwardPass(coins, amount);
    ForwardPassCorrect(coins, amount);
    CorrectIsLinked(t, coins);
    MinCoinChangeCorrect(amount, coins);
    if minCoins[amount] == Infinity {
      return NoSolution;
    }
    var result := WalkBack(lastCoin, t, amount);
    r := Found(result);
  }

  /** The two loops of `find_min_coins` that fill the tables: for every amount
      from 1 up, try every denomination in input order and keep a strictly
      better count. The arrays end up holding the forward pass. */
  method FillTables(amount: nat, coins: seq<int>) returns (minCoins: array<Cost>, lastCoin: array<int>)
    requires Positive(coins)
    ensures fresh(minCoins) && fresh(lastCoin)
    ensures minCoins[..] == ForwardPass(coins, amount).minCoins
    ensures lastCoin[..] == ForwardPass(coins, amount).lastCoin
  {
    minCoins := new Cost[amount + 1](j => if j == 0 then Finite(0) else Infinity);
    lastCoin := new int[amount + 1](_ => 0);
    assert minCoins[..] == [Finite(0)] + seq(amount, _ => Infinity);
    assert lastCoin[..] == [0] + seq(amount, _ => 0);
    for i := 1 to amount + 1
      invariant minCoins[..] == ForwardPass(coins, i - 1).minCoins + seq(amount + 1 - i, _ => Infinity)
      invariant lastCoin[..] == ForwardPass(coins, i - 1).lastCoin + seq(amount + 1 - i, _ => 0)
    {
      FillAmount(minCoins, lastCoin, i, coins, amount);
    }
    assert minCoins[..] == ForwardPass(coins, amount).minCoins + [];
    assert lastCoin[..] == ForwardPass(coins, amount).lastCoin + [];
  }

  /** One turn of the outer loop of `find_min_coins`: with the amounts below `i`
      finished and the rest untouched, fill amount `i`. */
  method FillAmount(minCoins: array<Cost>, lastCoin: array<int>, i: nat, coins: seq<int>, amount: nat)
    requires Positive(coins) && 0 < i <= amount
    requires minCoins[..] == ForwardPass(coins, i - 1).minCoins + seq(amount + 1 - i, _ => Infinity)
    requires lastCoin[..] == ForwardPass(coins, i - 1).lastCoin + seq(amount + 1 - i, _ => 0)
    modifies minCoins, lastCoin
    ensures minCoins[..] == ForwardPass(coins, i).minCoins + seq(amount - i, _ => Infinity)
    ensures lastCoin[..] == ForwardPass(coins, i).lastCoin + seq(amount - i, _ => 0)
  {
    ghost var t := ForwardPass(coins, i - 1);
    assert minCoins[..][..i] == t.minCoins;
    RelaxAt(minCoins, lastCoin, i, coins);
    FillNext(t.minCoins, minCoins[i], Infinity, amount + 1 - i);
    FillNext(t.lastCoin, lastCoin[i], 0, amount + 1 - i);
  }

  /** Overwriting the first untouched entry after a finished prefix extends the prefix. */
  lemma FillNext<T>(a: seq<T>, x: T, fill: T, m: nat)
    requires m > 0
    ensures (a + seq(m, _ => fill))[|a| := x] == a + [x] + seq(m - 1, _ => fill)
  {
  }

  /** The inner loop of `find_min_coins` for amount `i`: try every denomination
      in input order and keep a strictly better count. Only entry `i` of the two
      tables changes, and it becomes what `Relax` says. */
  method RelaxAt(minCoins: array<Cost>, lastCoin: array<int>, i: nat, coins: seq<int>)
    requires Positive(coins) && i < minCoins.Length == lastCoin.Length
    requires minCoins[i] == Infinity && lastCoin[i] == 0
    modifies minCoins, lastCoin
    ensures var e := Relax(old(minCoins[..i]), i, coins);
      && minCoins[..] == old(minCoins[..])[i := e.cost]
      && lastCoin[..] == old(lastCoin[..])[i := e.coin]
  {
    ghost var below := minCoins[..i];
    for k := 0 to |coins|
      invariant minCoins[..] == old(minCoins[..])[i := minCoins[i]]
      invariant lastCoin[..] == old(lastCoin[..])[i := lastCoin[i]]
      invariant Entry(minCoins[i], lastCoin[i]) == Relax(below, i, coins[..k])
    {
      var coin := coins[k];
      assert coins[..k + 1][..k] == coins[..k];
      assert minCoins[..i] == below;
      if i >= coin && Below(Succ(minCoins[i - coin]), minCoins[i]) {
        minCoins[i] := Succ(minCoins[i - coin]);
        lastCoin[i] := coin;
      }
    }
    assert coins[..|coins|] == coins;
  }

  /** The reconstruction loop of `find_min_coins`: starting from `amount`, add
      one coin of `last_coin[i]` and step back by it until nothing is left. On
      a linked table whose target was reached it is the walk `Trace` describes. */
  method WalkBack(lastCoin: array<int>, ghost t: Tables, amount: nat) returns (result: Breakdown)
    requires Linked(t) && amount < |t.minCoins| && t.minCoins[amount].Finite?
    requires lastCoin[..] == t.lastCoin
    ensures result == Trace(t, amount, map[])
  {
    result := map[];
    var i := amount;
    while i > 0
      invariant 0 <= i <= amount && t.minCoins[i].Finite?
      invariant Trace(t, i, result) == Trace(t, amount, map[])
      decreases i
    {
      var coin := lastCoin[i];
      assert coin == t.lastCoin[i];
      result := Add(result, coin);
      i := i - coin;
    }
  }

  /** The walk as `main.py` writes it, with no reachability check: the position
      after `steps` turns of `while i > 0: i -= last_coin[i]`. */
  function AsWrittenPosition(lastCoin: seq<int>, i: nat, steps: nat): (r: nat)
    requires i < |lastCoin|
    requires forall j | 0 <= j < |lastCoin| :: 0 <= lastCoin[j] <= j
    ensures r <= i
  {
    if steps == 0 || i == 0 then i
    else AsWrittenPosition(lastCoin, i - lastCoin[i], steps - 1)
  }

  /** Every recorded coin is 0, or an input denomination that fits the amount it
      is recorded for. */
  lemma LastCoinBounded(coins: seq<int>, n: nat)
    requires Positive(coins)
    ensures var t := ForwardPass(coins, n);
      forall j | 0 <= j < |t.lastCoin| ::
        0 <= t.lastCoin[j] <= j && (t.lastCoin[j] == 0 || t.lastCoin[j] in coins)
  {
    var t := ForwardPass(coins, n);
    ForwardPassCorrect(coins, n);
    forall j | 0 <= j < |t.lastCoin|
      ensures 0 <= t.lastCoin[j] <= j && (t.lastCoin[j] == 0 || t.lastCoin[j] in coins)
    {
      assert EntryCorrect(t.minCoins[..j], t.minCoins[j], t.lastCoin[j], coins);
      if j > 0 {
        FirstAchievingIn(t.minCoins[..j], j, coins, t.minCoins[j]);
      }
    }
  }

  /** For an unreachable positive amount the as-written walk never moves: it is
      still at `amount` after any number of turns, so `while i > 0` never ends. */
  lemma {:induction false} AsWrittenWalkNeverEnds(coins: seq<int>, amount: nat, steps: nat)
    requires Positive(coins) && amount > 0 && !Reachable(amount, coins)
    ensures var lc := ForwardPass(coins, amount).lastCoin;
      && (forall j | 0 <= j < |lc| :: 0 <= lc[j] <= j)
      && AsWrittenPosition(lc, amount, steps) == amount
  {
    var t := ForwardPass(coins, amount);
    LastCoinBounded(coins, amount);
    ForwardPassCorrect(coins, amount);
    assert EntryCorrect(t.minCoins[..amount], t.minCoins[amount], t.lastCoin[amount], coins);
    FirstAchievingIn(t.minCoins[..amount], amount, coins, t.minCoins[amount]);
    assert t.lastCoin[amount] == 0;
    if steps > 0 {
      AsWrittenWalkNeverEnds(coins, amount, steps - 1);
    }
  }
}
