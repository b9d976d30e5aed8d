/**
 * Shared vocabulary of the two change-making algorithms: the breakdown they
 * return (denomination -> number of coins), what a breakdown is worth, how
 * many coins it holds, and what it means to pay an amount with a multiset of
 * coins drawn, with unlimited supply, from a list of denominations.
 */
module Change {

  /** A change breakdown: denomination -> how many coins of it are handed out. */
  type Breakdown = map<int, nat>

  /** Every denomination is a positive integer (a zero coin would divide by zero). */
  predicate Positive(coins: seq<int>) {
    forall k | 0 <= k < |coins| :: coins[k] > 0
  }

  /** Every key of `b` is one of the denominations and every stored count is positive. */
  ghost predicate WellFormed(b: Breakdown, coins: seq<int>) {
    forall d | d in b :: d in coins && b[d] > 0
  }

  /** A non-empty set has an element. */
  lemma NonEmpty(s: set<int>)
    requires s != {}
    ensures exists x :: x in s
  {
    if forall x :: x !in s {
      assert false;
    }
  }

  /** Sum of `weight(d, b[d])` over the entries of `b`, in no particular order. */
  ghost function Total(b: Breakdown, weight: (int, nat) -> int): int
    decreases |b|
  {
    if b.Keys == {} then 0
    else
      NonEmpty(b.Keys);
      var d :| d in b.Keys;
      assert (b - {d}).Keys == b.Keys - {d};
      weight(d, b[d]) + Total(b - {d}, weight)
  }

  /** What `n` coins of denomination `d` are worth. */
  function Worth(d: int, n: nat): int { d * n }

  /** The number of pieces in `n` coins of denomination `d`. */
  function Pieces(d: int, n: nat): int { n }

  /** The amount a breakdown pays: the sum of denomination * count. */
  ghost function Value(b: Breakdown): int {
    Total(b, Worth)
  }

  /** The number of coins a breakdown hands out: the sum of the counts. */
  ghost function Count(b: Breakdown): int {
    Total(b, Pieces)
  }

  /** The total does not depend on which entry is taken out first. */
  lemma {:induction false} TotalRemove(b: Breakdown, weight: (int, nat) -> int, d: int)
    requires d in b
    ensures Total(b, weight) == weight(d, b[d]) + Total(b - {d}, weight)
    decreases |b|
  {
    NonEmpty(b.Keys);
    var e :| e in b && Total(b, weight) == weight(e, b[e]) + Total(b - {e}, weight);
    if e != d {
      RemoveBoth(b, d, e);
      TotalRemove(b - {e}, weight, d);
      TotalRemove(b - {d}, weight, e);
    }
  }

  /** Taking two different keys out of a breakdown, in either order. */
  lemma RemoveBoth(b: Breakdown, d: int, e: int)
    requires d in b && e in b && d != e
    ensures |b - {e}| < |b| && d in b - {e} && (b - {e})[d] == b[d]
    ensures |b - {d}| < |b| && e in b - {d} && (b - {d})[e] == b[e]
    ensures b - {e} - {d} == b - {d} - {e}
  {
    assert (b - {e}).Keys == b.Keys - {e};
    assert (b - {d}).Keys == b.Keys - {d};
  }

  /** Setting a fresh key adds its weight; overwriting replaces the old weight. */
  lemma TotalPut(b: Breakdown, weight: (int, nat) -> int, d: int, n: nat)
    ensures d in b ==> Total(b[d := n], weight) == Total(b, weight) - weight(d, b[d]) + weight(d, n)
    ensures d !in b ==> Total(b[d := n], weight) == Total(b, weight) + weight(d, n)
  {
    TotalRemove(b[d := n], weight, d);
    assert b[d := n] - {d} == b - {d};
    if d in b {
      TotalRemove(b, weight, d);
    } else {
      assert b - {d} == b;
    }
  }

  /** Recording a denomination that was not yet in the breakdown. */
  lemma ValuePutFresh(b: Breakdown, d: int, n: nat)
    requires d !in b
    ensures Value(b[d := n]) == Value(b) + d * n
    ensures Count(b[d := n]) == Count(b) + n
  {
    TotalPut(b, Worth, d, n);
    TotalPut(b, Pieces, d, n);
  }

  /** One more coin of denomination `d`: `result[d] = result.get(d, 0) + 1`. */
  function Add(b: Breakdown, d: int): (r: Breakdown)
    ensures r.Keys == b.Keys + {d} && r[d] > 0
  {
    b[d := (if d in b then b[d] else 0) + 1]
  }

  /** Adding a coin raises the value by its denomination and the count by one. */
  lemma AddCoin(b: Breakdown, d: int)
    ensures Value(Add(b, d)) == Value(b) + d
    ensures Count(Add(b, d)) == Count(b) + 1
    ensures d in Add(b, d) && Add(b, d)[d] > 0
    ensures forall e | e in Add(b, d) && e != d :: e in b && Add(b, d)[e] == b[e]
  {
    if d in b {
      var m := b[d];
      assert Worth(d, m + 1) == Worth(d, m) + d by {
        assert d * (m + 1) == d * m + d;
      }
      TotalPut(b, Worth, d, m + 1);
      TotalPut(b, Pieces, d, m + 1);
    } else {
      TotalPut(b, Worth, d, 1);
      TotalPut(b, Pieces, d, 1);
    }
  }

  /** The sum of a list of coins. */
  function Sum(s: seq<int>): int {
    if s == [] then 0 else s[0] + Sum(s[1..])
  }

  /** `s` is a list of coins, each one of `coins`, adding up to exactly `i`. */
  ghost predicate Pays(s: seq<int>, coins: seq<int>, i: int) {
    (forall k | 0 <= k < |s| :: s[k] in coins) && Sum(s) == i
  }

  /** Some multiset of the denominations, with unlimited supply, adds up to `i`. */
  ghost predicate Reachable(i: int, coins: seq<int>) {
    exists s :: Pays(s, coins, i)
  }

  /** `n` is the least number of coins that pays `i` exactly. */
  ghost predicate IsMinCount(n: int, coins: seq<int>, i: int) {
    (exists s :: Pays(s, coins, i) && |s| == n) &&
    (forall s :: Pays(s, coins, i) ==> n <= |s|)
  }

  /** Adding one coin in front of a payment pays that much more. */
  lemma PaysCons(c: int, s: seq<int>, coins: seq<int>, i: int)
    requires c in coins && Pays(s, coins, i)
    ensures Pays([c] + s, coins, i + c)
  {
    assert ([c] + s)[1..] == s;
  }

  /** With positive denominations every payment of a positive amount starts with
      a coin no larger than the amount, and the rest pays the difference. */
  lemma {:induction false} PaysSplit(s: seq<int>, coins: seq<int>, i: int)
    requires Positive(coins) && Pays(s, coins, i) && i > 0
    ensures |s| > 0 && s[0] in coins && 0 < s[0] <= i
    ensures Pays(s[1..], coins, i - s[0])
  {
    SumNonNegative(s[1..], coins);
  }

  /** A list of positive coins never sums to a negative amount. */
  lemma {:induction false} SumNonNegative(s: seq<int>, coins: seq<int>)
    requires Positive(coins)
    requires forall k | 0 <= k < |s| :: s[k] in coins
    ensures Sum(s) >= 0
  {
    if s != [] {
      SumNonNegative(s[1..], coins);
    }
  }

  /** The coins of a breakdown laid out as a list (in no particular order). */
  ghost function Flatten(b: Breakdown): seq<int>
    decreases |b|
  {
    if b.Keys == {} then []
    else
      NonEmpty(b.Keys);
      var d :| d in b.Keys;
      assert (b - {d}).Keys == b.Keys - {d};
      seq(b[d], _ => d) + Flatten(b - {d})
  }

  lemma {:induction false} SumConcat(s: seq<int>, t: seq<int>)
    ensures Sum(s + t) == Sum(s) + Sum(t)
  {
    if s == [] {
      assert s + t == t;
    } else {
      assert (s + t)[1..] == s[1..] + t;
      SumConcat(s[1..], t);
    }
  }

  lemma {:induction false} SumRepeat(d: int, n: nat)
    ensures Sum(seq(n, _ => d)) == d * n
  {
    if n > 0 {
      assert seq(n, _ => d)[1..] == seq(n - 1, _ => d);
      SumRepeat(d, n - 1);
    }
  }

  /** A well-formed breakdown is a payment of its value using exactly its count of coins. */
  lemma {:induction false} FlattenPays(b: Breakdown, coins: seq<int>)
    requires forall d | d in b :: d in coins
    ensures Pays(Flatten(b), coins, Value(b))
    ensures |Flatten(b)| == Count(b)
    decreases |b|
  {
    if b.Keys != {} {
      NonEmpty(b.Keys);
      var d :| d in b && Flatten(b) == seq(b[d], _ => d) + Flatten(b - {d});
      assert (b - {d}).Keys == b.Keys - {d};
      var rest := Flatten(b - {d});
      var run := seq(b[d], _ => d);
      FlattenPays(b - {d}, coins);
      SumRepeat(d, b[d]);
      SumConcat(run, rest);
      TotalRemove(b, Worth, d);
      TotalRemove(b, Pieces, d);
      assert forall k | 0 <= k < |run + rest| :: (run + rest)[k] in coins by {
        forall k | 0 <= k < |run + rest| ensures (run + rest)[k] in coins {
          if k < |run| { assert (run + rest)[k] == d; } else { assert (run + rest)[k] == rest[k - |run|]; }
        }
      }
    }
  }

  /** No breakdown drawn from the denominations that pays `i` uses fewer coins than the minimum. */
  lemma BreakdownAtLeastMin(b: Breakdown, coins: seq<int>, i: int, n: nat)
    requires forall d | d in b :: d in coins
    requires Value(b) == i && IsMinCount(n, coins, i)
    ensures n <= Count(b)
  {
    FlattenPays(b, coins);
  }

  /** Any breakdown drawn from the denominations makes its value reachable. */
  lemma BreakdownReaches(b: Breakdown, coins: seq<int>)
    requires forall d | d in b :: d in coins
    ensures Reachable(Value(b), coins)
  {
    FlattenPays(b, coins);
  }
}
