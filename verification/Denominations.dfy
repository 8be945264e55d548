/** Zerocoin denominations and the arithmetic of coin counts.

    A `std::map<CoinDenomination, CAmount>` that always has exactly the keys of
    `zerocoinDenomList` is a sequence of counts in the order of that list (smallest
    denomination first).  The lemmas hold for every divisibility chain of values. */
module Denominations {

  const COIN: int := 100000000

  /** `ZerocoinDenominationToAmount` over `zerocoinDenomList`. */
  const AMOUNTS: seq<int> :=
    [COIN, 5 * COIN, 10 * COIN, 50 * COIN, 100 * COIN, 500 * COIN, 1000 * COIN, 5000 * COIN]

  type Counts = seq<nat>

  // ---------------------------------------------------------------- multiples

  /** `n` coins of value `d`, added up one by one as the source does. */
  function Times(n: nat, d: int): int {
    if n == 0 then 0 else Times(n - 1, d) + d
  }

  lemma {:induction false} TimesIsProduct(n: nat, d: int)
    ensures Times(n, d) == n * d
  {
    if n > 0 {
      TimesIsProduct(n - 1, d);
      assert n * d == (n - 1) * d + d;
    }
  }

  lemma {:induction false} TimesAdd(m: nat, n: nat, d: int)
    ensures Times(m + n, d) == Times(m, d) + Times(n, d)
  {
    if n > 0 { TimesAdd(m, n - 1, d); }
  }

  /** Monotone in both arguments. */
  lemma {:induction false} TimesMonotone(m: nat, n: nat, c: int, d: int)
    requires m <= n && c <= d && 0 <= d
    ensures Times(m, c) <= Times(n, d)
    ensures m > 0 && c >= 0 ==> Times(m, c) >= c
    ensures c >= 0 ==> Times(m, c) >= 0
  {
    if m > 0 {
      TimesMonotone(m - 1, n - 1, c, d);
    } else if n > 0 {
      TimesMonotone(m, n - 1, c, d);
    }
  }

  /** Fewer than `n + 1` coins' worth is at most `n` coins. */
  lemma {:induction false} TimesReflect(m: nat, n: nat, d: int)
    requires d > 0 && Times(m, d) < Times(n, d) + d
    ensures m <= n
  {
    TimesMonotone(m, m, d, d);
    if m > 0 && n > 0 { TimesReflect(m - 1, n - 1, d); }
  }

  lemma TimesReflectStrict(m: nat, n: nat, d: int)
    requires d > 0 && Times(m, d) < Times(n, d)
    ensures m < n
  {
    if n == 0 {
      TimesMonotone(m, m, d, d);
    } else {
      TimesReflect(m, n - 1, d);
    }
  }

  ghost predicate Multiple(m: int, d: int) {
    exists q: nat :: m == Times(q, d)
  }

  lemma {:induction false} MultipleTimes(x: nat, a: int, b: int)
    requires Multiple(a, b)
    ensures Multiple(Times(x, a), b)
  {
    if x == 0 {
      assert 0 == Times(0, b);
    } else {
      MultipleTimes(x - 1, a, b);
      var p: nat, q: nat :| Times(x - 1, a) == Times(p, b) && a == Times(q, b);
      TimesAdd(p, q, b);
    }
  }

  ghost predicate Positive(d: seq<int>) {
    forall i :: 0 <= i < |d| ==> d[i] > 0
  }

  /** Positive and strictly increasing. */
  ghost predicate Ascending(d: seq<int>) {
    && Positive(d)
    && (forall i, j :: 0 <= i < j < |d| ==> d[i] < d[j])
  }

  /** Each value divides the next one. */
  ghost predicate IsChain(d: seq<int>) {
    && Ascending(d)
    && (forall i :: 0 < i < |d| ==> Multiple(d[i], d[i - 1]))
  }

  lemma AmountsAreAChain()
    ensures IsChain(AMOUNTS)
    ensures AMOUNTS == [1_0000_0000, 5_0000_0000, 10_0000_0000, 50_0000_0000, 100_0000_0000, 500_0000_0000,
                        1000_0000_0000, 5000_0000_0000]
  {
    forall i | 0 < i < 8 ensures Multiple(AMOUNTS[i], AMOUNTS[i - 1]) {
      var q := if i % 2 == 1 then 5 else 2;
      TimesIsProduct(q, AMOUNTS[i - 1]);
      assert AMOUNTS[i] == Times(q, AMOUNTS[i - 1]);
    }
  }

  // ---------------------------------------------------------------- coin counts

  /** Total value of the coins of the `k` smallest denominations. */
  function Value(c: Counts, d: seq<int>, k: nat): int
    requires k <= |c| && k <= |d|
  {
    if k == 0 then 0 else Value(c, d, k - 1) + Times(c[k - 1], d[k - 1])
  }

  /** Number of coins of the `k` smallest denominations. */
  function Count(c: Counts, k: nat): nat
    requires k <= |c|
  {
    if k == 0 then 0 else Count(c, k - 1) + c[k - 1]
  }

  /** `a` takes no more coins than `b` has, denomination by denomination. */
  ghost predicate Within(a: Counts, b: Counts, k: nat) {
    k <= |a| && k <= |b| && forall i :: 0 <= i < k ==> a[i] <= b[i]
  }

  /** How often one coin of value `d` fits into `r`, using at most `h` coins. */
  function Take(r: int, d: int, h: nat): (t: nat)
    requires d > 0
    ensures t <= h && (t == 0 || Times(t, d) <= r)
    ensures t == h || r - Times(t, d) < d
    decreases h
  {
    if r >= d && h > 0 then Take(r - d, d, h - 1) + 1 else 0
  }

  lemma TakeUnique(r: int, d: int, h: nat, t: nat)
    requires d > 0 && t <= h && (t == 0 || Times(t, d) <= r) && (t == h || r - Times(t, d) < d)
    ensures t == Take(r, d, h)
  {
    var u := Take(r, d, h);
    if t < h && u > 0 { TimesReflect(u, t, d); }
    if u < h && t > 0 { TimesReflect(t, u, d); }
  }

  /** The smallest number of coins of value `d` that reaches `r`, or all `h` of them. */
  function TakeUp(r: int, d: int, h: nat): (t: nat)
    requires d > 0
    ensures t <= h && (t == 0 || Times(t - 1, d) < r)
    ensures t == h || r <= Times(t, d)
    decreases h
  {
    if r > 0 && h > 0 then
      var t := TakeUp(r - d, d, h - 1);
      t + 1
    else 0
  }

  lemma TakeUpUnique(r: int, d: int, h: nat, t: nat)
    requires d > 0 && t <= h && (t == 0 || Times(t - 1, d) < r) && (t == h || r <= Times(t, d))
    ensures t == TakeUp(r, d, h)
  {
    var u := TakeUp(r, d, h);
    if t < h && u > 0 { TimesReflectStrict(u - 1, t, d); }
    if u < h && t > 0 { TimesReflectStrict(t - 1, u, d); }
  }

  /** Bounded greedy: highest denomination first, never exceeding `r`. */
  function Greedy(r: int, h: Counts, d: seq<int>, k: nat): (g: Counts)
    requires k <= |h| && k <= |d| && Positive(d)
    ensures |g| == k
    decreases k
  {
    if k == 0 then [] else
      var t := Take(r, d[k - 1], h[k - 1]);
      Greedy(r - Times(t, d[k - 1]), h, d, k - 1) + [t]
  }

  /** Highest denomination first until `r` is reached or passed. */
  function Upward(r: int, h: Counts, d: seq<int>, k: nat): (g: Counts)
    requires k <= |h| && k <= |d| && Positive(d)
    ensures |g| == k
    decreases k
  {
    if k == 0 then [] else
      var t := TakeUp(r, d[k - 1], h[k - 1]);
      Upward(r - Times(t, d[k - 1]), h, d, k - 1) + [t]
  }

  /** Unbounded greedy: the change given for `r`. */
  function Change(r: int, d: seq<int>, k: nat): (g: Counts)
    requires k <= |d| && Positive(d)
    ensures |g| == k
    decreases k
  {
    if k == 0 then [] else
      var t := Take(r, d[k - 1], if r < 0 then 0 else r);
      Change(r - Times(t, d[k - 1]), d, k - 1) + [t]
  }

  // ---------------------------------------------------------------- sums

  lemma {:induction false} SamePrefix(a: Counts, b: Counts, d: seq<int>, k: nat)
    requires k <= |a| && k <= |b| && k <= |d|
    requires forall i :: 0 <= i < k ==> a[i] == b[i]
    ensures Value(a, d, k) == Value(b, d, k) && Count(a, k) == Count(b, k)
  {
    if k > 0 { SamePrefix(a, b, d, k - 1); }
  }

  lemma {:induction false} ValueNonNegative(c: Counts, d: seq<int>, k: nat)
    requires Positive(d) && k <= |c| && k <= |d|
    ensures Value(c, d, k) >= 0
    ensures Value(c, d, k) == 0 ==> forall i :: 0 <= i < k ==> c[i] == 0
    ensures Value(c, d, k) > 0 ==> Count(c, k) > 0
  {
    if k > 0 {
      ValueNonNegative(c, d, k - 1);
      TimesMonotone(c[k - 1], c[k - 1], d[k - 1], d[k - 1]);
    }
  }

  lemma {:induction false} ZeroSums(c: Counts, d: seq<int>, k: nat)
    requires k <= |c| && k <= |d| && forall i :: 0 <= i < k ==> c[i] == 0
    ensures Value(c, d, k) == 0 && Count(c, k) == 0
  {
    if k > 0 { ZeroSums(c, d, k - 1); }
  }

  lemma {:induction false} WithinMonotone(a: Counts, b: Counts, d: seq<int>, k: nat)
    requires Positive(d) && Within(a, b, k) && k <= |d|
    ensures Value(a, d, k) <= Value(b, d, k) && Count(a, k) <= Count(b, k)
  {
    if k > 0 {
      WithinMonotone(a, b, d, k - 1);
      TimesMonotone(a[k - 1], b[k - 1], d[k - 1], d[k - 1]);
    }
  }

  /** Coins of value at most `m` each are worth at most `m` times their number. */
  lemma {:induction false} ValueAtMost(c: Counts, d: seq<int>, k: nat, m: int)
    requires Positive(d) && k <= |c| && k <= |d| && m >= 0
    requires forall i :: 0 <= i < k ==> d[i] <= m
    ensures Value(c, d, k) <= Times(Count(c, k), m)
  {
    if k > 0 {
      ValueAtMost(c, d, k - 1, m);
      TimesMonotone(c[k - 1], c[k - 1], d[k - 1], m);
      TimesAdd(Count(c, k - 1), c[k - 1], m);
    }
  }

  /** `a` is the coins of `m` and of `b` together. */
  ghost predicate Splits(a: Counts, b: Counts, m: Counts, k: nat) {
    k <= |a| && k <= |b| && k <= |m| && forall i :: 0 <= i < k ==> a[i] == b[i] + m[i]
  }

  lemma {:induction false} SplitSums(a: Counts, b: Counts, m: Counts, d: seq<int>, k: nat)
    requires k <= |d| && Splits(a, b, m, k)
    ensures Value(a, d, k) == Value(b, d, k) + Value(m, d, k)
    ensures Count(a, k) == Count(b, k) + Count(m, k)
  {
    if k > 0 {
      SplitSums(a, b, m, d, k - 1);
      TimesAdd(b[k - 1], m[k - 1], d[k - 1]);
    }
  }

  function Minus(a: Counts, b: Counts, k: nat): (r: Counts)
    requires Within(b, a, k)
    ensures |r| == k && Splits(a, b, r, k)
  {
    seq(k, i requires 0 <= i < k => a[i] - b[i])
  }

  // ---------------------------------------------------------------- bounded greedy

  lemma GreedySplit(r: int, h: Counts, d: seq<int>, k: nat)
    requires 0 < k <= |h| && k <= |d| && Positive(d)
    ensures var t := Take(r, d[k - 1], h[k - 1]);
            var g := Greedy(r - Times(t, d[k - 1]), h, d, k - 1);
            && Greedy(r, h, d, k)[k - 1] == t
            && (forall i :: 0 <= i < k - 1 ==> Greedy(r, h, d, k)[i] == g[i])
            && Value(Greedy(r, h, d, k), d, k) == Value(g, d, k - 1) + Times(t, d[k - 1])
            && Count(Greedy(r, h, d, k), k) == Count(g, k - 1) + t
  {
    var t := Take(r, d[k - 1], h[k - 1]);
    var g := Greedy(r - Times(t, d[k - 1]), h, d, k - 1);
    SamePrefix(g + [t], g, d, k - 1);
  }

  lemma {:induction false} GreedyWithin(r: int, h: Counts, d: seq<int>, k: nat)
    requires k <= |h| && k <= |d| && Positive(d)
    ensures Within(Greedy(r, h, d, k), h, k)
    ensures Value(Greedy(r, h, d, k), d, k) <= if r < 0 then 0 else r
    decreases k
  {
    if k > 0 {
      var t := Take(r, d[k - 1], h[k - 1]);
      GreedyWithin(r - Times(t, d[k - 1]), h, d, k - 1);
      GreedySplit(r, h, d, k);
    }
  }

  /** What the top denomination leaves of a multiple of its value: nothing, or a smaller multiple
      that no top coin is left for. */
  lemma LeftOver(m: int, dk: int, h: nat)
    requires dk > 0 && Multiple(m, dk)
    ensures var t := Take(m, dk, h);
            && Times(t, dk) <= m && Multiple(m - Times(t, dk), dk)
            && (Times(t, dk) == m || t == h)
  {
    var q: nat :| m == Times(q, dk);
    TimesMonotone(q, q, dk, dk);
    var t := Take(m, dk, h);
    TimesReflect(t, q, dk);
    TimesAdd(t, q - t, dk);
    TimesMonotone(q - t, q - t, dk, dk);
  }

  /** Coins dividing `m` add up to exactly `m` as soon as they are worth at least `m`. */
  lemma {:induction false} GreedyExact(m: int, c: Counts, d: seq<int>, k: nat)
    requires 0 < k <= |c| && k <= |d| && IsChain(d)
    requires Multiple(m, d[k - 1]) && m <= Value(c, d, k)
    ensures Value(Greedy(m, c, d, k), d, k) == m
    decreases k
  {
    var dk, t := d[k - 1], Take(m, d[k - 1], c[k - 1]);
    var rest := m - Times(t, dk);
    LeftOver(m, dk, c[k - 1]);
    GreedySplit(m, c, d, k);
    if rest == 0 || k == 1 {
      GreedyWithin(rest, c, d, k - 1);
      ValueNonNegative(Greedy(rest, c, d, k - 1), d, k - 1);
    } else {
      MultipleOfChain(rest, d, k - 1);
      GreedyExact(rest, c, d, k - 1);
    }
  }

  lemma MultipleOfChain(m: int, d: seq<int>, i: nat)
    requires 0 < i < |d| && IsChain(d) && Multiple(m, d[i])
    ensures Multiple(m, d[i - 1])
  {
    var q: nat :| m == Times(q, d[i]);
    MultipleTimes(q, d[i], d[i - 1]);
  }

  /** Lower coins worth `n` coins of the next denomination can be swapped for those `n` coins. */
  lemma Exchange(c: Counts, d: seq<int>, k: nat, n: nat) returns (low: Counts)
    requires 1 < k <= |c| && k <= |d| && IsChain(d) && Value(c, d, k - 1) >= Times(n, d[k - 1])
    ensures Within(low, c, k - 1)
    ensures Value(low, d, k - 1) == Value(c, d, k - 1) - Times(n, d[k - 1])
    ensures Count(low, k - 1) <= Count(c, k - 1) - n
  {
    var m := Times(n, d[k - 1]);
    MultipleTimes(n, d[k - 1], d[k - 2]);
    GreedyExact(m, c, d, k - 1);
    GreedyWithin(m, c, d, k - 1);
    var e := Greedy(m, c, d, k - 1);
    low := Minus(c, e, k - 1);
    SplitSums(c, e, low, d, k - 1);
    ValueAtMost(e, d, k - 1, d[k - 1]);
    TimesReflect(n, Count(e, k - 1), d[k - 1]);
  }

  lemma TakeIsMost(r: int, d: int, h: nat, s: nat)
    requires d > 0 && s <= h && Times(s, d) <= r
    ensures s <= Take(r, d, h)
  {
    var t := Take(r, d, h);
    if t < h { TimesReflect(s, t, d); }
  }

  /** Coins below the top denomination can stand in for the top coins that greedy takes and `c`
      does not: either `c` is worth less than those top coins alone, or some lower coins `low`
      complete the greedy choice to the value of `c` with no more coins. */
  lemma CatchUp(r: int, h: Counts, c: Counts, d: seq<int>, k: nat) returns (low: Counts)
    requires 0 < k <= |h| && k <= |d| && IsChain(d) && Within(c, h, k) && Value(c, d, k) <= r
    ensures var t := Take(r, d[k - 1], h[k - 1]);
            || Value(c, d, k) < Times(t, d[k - 1])
            || (&& Within(low, h, k - 1)
                && Value(low, d, k - 1) + Times(t, d[k - 1]) == Value(c, d, k)
                && Count(low, k - 1) + t <= Count(c, k))
  {
    var dk, t, s := d[k - 1], Take(r, d[k - 1], h[k - 1]), c[k - 1];
    ValueNonNegative(c, d, k - 1);
    TakeIsMost(r, dk, h[k - 1], s);
    TimesAdd(s, t - s, dk);
    low := c;
    if s < t && Value(c, d, k - 1) >= Times(t - s, dk) {
      TimesMonotone(t - s, t - s, dk, dk);
      low := Exchange(c, d, k, t - s);
    }
  }

  /** Bounded greedy reaches the largest reachable value not above `r`, with the fewest coins. */
  lemma {:induction false} GreedyIsBest(r: int, h: Counts, c: Counts, d: seq<int>, k: nat)
    requires k <= |h| && k <= |d| && IsChain(d) && Within(c, h, k) && Value(c, d, k) <= r
    ensures var g := Greedy(r, h, d, k);
            && Value(c, d, k) <= Value(g, d, k)
            && (Value(c, d, k) == Value(g, d, k) ==> Count(g, k) <= Count(c, k))
    decreases k
  {
    if k > 0 {
      var dk, t := d[k - 1], Take(r, d[k - 1], h[k - 1]);
      GreedySplit(r, h, d, k);
      var low := CatchUp(r, h, c, d, k);
      if Value(c, d, k) < Times(t, dk) {
        ValueNonNegative(Greedy(r - Times(t, dk), h, d, k - 1), d, k - 1);
      } else {
        GreedyIsBest(r - Times(t, dk), h, low, d, k - 1);
      }
    }
  }

  /** Whatever exact amount some coins reach, bounded greedy reaches it too, with no more coins. */
  lemma GreedyComplete(r: int, h: Counts, c: Counts, d: seq<int>, k: nat)
    requires k <= |h| && k <= |d| && IsChain(d) && Within(c, h, k) && Value(c, d, k) == r
    ensures Value(Greedy(r, h, d, k), d, k) == r
    ensures Count(Greedy(r, h, d, k), k) <= Count(c, k)
  {
    ValueNonNegative(c, d, k);
    GreedyIsBest(r, h, c, d, k);
    GreedyWithin(r, h, d, k);
  }

  // ---------------------------------------------------------------- reaching an amount from above

  lemma UpwardSplit(r: int, h: Counts, d: seq<int>, k: nat)
    requires 0 < k <= |h| && k <= |d| && Positive(d)
    ensures var t := TakeUp(r, d[k - 1], h[k - 1]);
            var g := Upward(r - Times(t, d[k - 1]), h, d, k - 1);
            && Upward(r, h, d, k)[k - 1] == t
            && (forall i :: 0 <= i < k - 1 ==> Upward(r, h, d, k)[i] == g[i])
            && Value(Upward(r, h, d, k), d, k) == Value(g, d, k - 1) + Times(t, d[k - 1])
            && Count(Upward(r, h, d, k), k) == Count(g, k - 1) + t
  {
    var t := TakeUp(r, d[k - 1], h[k - 1]);
    var g := Upward(r - Times(t, d[k - 1]), h, d, k - 1);
    SamePrefix(g + [t], g, d, k - 1);
  }

  lemma {:induction false} UpwardWithin(r: int, h: Counts, d: seq<int>, k: nat)
    requires k <= |h| && k <= |d| && Positive(d)
    ensures Within(Upward(r, h, d, k), h, k)
    ensures r <= 0 ==> Count(Upward(r, h, d, k), k) == 0 && Value(Upward(r, h, d, k), d, k) == 0
    decreases k
  {
    if k > 0 {
      var t := TakeUp(r, d[k - 1], h[k - 1]);
      UpwardSplit(r, h, d, k);
      UpwardWithin(r - Times(t, d[k - 1]), h, d, k - 1);
    }
  }

  /** `Upward` reaches `r` exactly when all the coins together do; otherwise it takes them all. */
  lemma {:induction false} UpwardReaches(r: int, h: Counts, d: seq<int>, k: nat)
    requires k <= |h| && k <= |d| && Positive(d)
    ensures var v := Value(Upward(r, h, d, k), d, k);
            if r <= Value(h, d, k) then r <= v else v == Value(h, d, k)
    decreases k
  {
    ValueNonNegative(h, d, k);
    if r <= 0 {
      UpwardWithin(r, h, d, k);
    } else if k > 0 {
      var t := TakeUp(r, d[k - 1], h[k - 1]);
      var rest := r - Times(t, d[k - 1]);
      UpwardSplit(r, h, d, k);
      if rest <= 0 {
        UpwardWithin(rest, h, d, k - 1);
        TimesMonotone(t, h[k - 1], d[k - 1], d[k - 1]);
        ValueNonNegative(h, d, k - 1);
      } else {
        UpwardReaches(rest, h, d, k - 1);
      }
    }
  }

  /** Some `n` coins can be removed, each costing at most `m`. */
  lemma {:induction false} RemoveCoins(c: Counts, d: seq<int>, k: nat, n: nat, m: int) returns (e: Counts)
    requires Positive(d) && k <= |c| && k <= |d| && n <= Count(c, k) && m >= 0
    requires forall i :: 0 <= i < k ==> d[i] <= m
    ensures Within(e, c, k) && |e| == k
    ensures Count(e, k) == Count(c, k) - n && Value(e, d, k) >= Value(c, d, k) - Times(n, m)
  {
    if k == 0 {
      e := [];
    } else {
      var x := if n <= c[k - 1] then n else c[k - 1];
      var e' := RemoveCoins(c, d, k - 1, n - x, m);
      e := e' + [c[k - 1] - x];
      SamePrefix(e, e', d, k - 1);
      TimesAdd(c[k - 1] - x, x, d[k - 1]);
      TimesMonotone(x, x, d[k - 1], m);
      TimesAdd(n - x, x, m);
    }
  }

  /** Coins below value `m`, worth more than `n - 1` coins of value `m`, are at least `n` coins. */
  lemma AtLeastCount(c: Counts, d: seq<int>, k: nat, n: nat, m: int)
    requires Positive(d) && k <= |c| && k <= |d| && m > 0
    requires forall i :: 0 <= i < k ==> d[i] <= m
    requires n > 0 ==> Value(c, d, k) > Times(n - 1, m)
    ensures Count(c, k) >= n
  {
    ValueAtMost(c, d, k, m);
    if n > 0 { TimesReflectStrict(n - 1, Count(c, k), m); }
  }

  /** No choice of coins worth at least `r` has fewer coins than `Upward`. */
  lemma {:induction false} UpwardIsFewest(r: int, h: Counts, c: Counts, d: seq<int>, k: nat)
    requires k <= |h| && k <= |d| && Ascending(d) && Within(c, h, k) && Value(c, d, k) >= r
    ensures Count(Upward(r, h, d, k), k) <= Count(c, k)
    decreases k
  {
    if k > 0 {
      var dk, t, s := d[k - 1], TakeUp(r, d[k - 1], h[k - 1]), c[k - 1];
      var rest := r - Times(t, dk);
      UpwardSplit(r, h, d, k);
      if rest <= 0 { UpwardWithin(rest, h, d, k - 1); }
      if s < t {
        TimesAdd(s, t - 1 - s, dk);
        AtLeastCount(c, d, k - 1, t - s, dk);
        if rest > 0 {
          TimesAdd(s, t - s, dk);
          var e := RemoveCoins(c, d, k - 1, t - s, dk);
          UpwardIsFewest(rest, h, e, d, k - 1);
        }
      } else if rest > 0 {
        UpwardIsFewest(rest, h, c, d, k - 1);
      }
    }
  }

  // ---------------------------------------------------------------- change

  lemma {:induction false} ChangeProperties(r: int, d: seq<int>, k: nat)
    requires k <= |d| && Positive(d)
    ensures var v := Value(Change(r, d, k), d, k);
            && (r < 0 ==> v == 0 && Count(Change(r, d, k), k) == 0)
            && (r >= 0 && k > 0 ==> v <= r < v + d[0])
    decreases k
  {
    if k > 0 {
      var dk, h := d[k - 1], if r < 0 then 0 else r;
      var t := Take(r, dk, h);
      TimesMonotone(h, h, 1, dk);
      TimesIsProduct(h, 1);
      var g := Change(r - Times(t, dk), d, k - 1);
      SamePrefix(g + [t], g, d, k - 1);
      ChangeProperties(r - Times(t, dk), d, k - 1);
    }
  }

  lemma {:induction false} ChainMultiple(d: seq<int>, i: nat)
    requires IsChain(d) && i < |d|
    ensures Multiple(d[i], d[0])
  {
    if i > 0 {
      ChainMultiple(d, i - 1);
      var q: nat :| d[i] == Times(q, d[i - 1]);
      MultipleTimes(q, d[i - 1], d[0]);
    } else {
      assert d[0] == Times(1, d[0]);
    }
  }

  /** Every amount paid in coins is a multiple of the smallest coin. */
  lemma {:induction false} ValueMultiple(c: Counts, d: seq<int>, k: nat)
    requires IsChain(d) && k <= |c| && k <= |d| && |d| > 0
    ensures Multiple(Value(c, d, k), d[0])
  {
    if k == 0 {
      assert 0 == Times(0, d[0]);
    } else {
      ValueMultiple(c, d, k - 1);
      ChainMultiple(d, k - 1);
      MultipleTimes(c[k - 1], d[k - 1], d[0]);
      var p: nat, q: nat :| Value(c, d, k - 1) == Times(p, d[0]) && Times(c[k - 1], d[k - 1]) == Times(q, d[0]);
      TimesAdd(p, q, d[0]);
    }
  }

  /** Change of a difference of multiples of the smallest coin is exact. */
  lemma ChangeIsExact(paid: int, target: int, d: seq<int>, k: nat)
    requires IsChain(d) && 0 < k <= |d|
    requires Multiple(paid, d[0]) && Multiple(target, d[0]) && target <= paid
    ensures Value(Change(paid - target, d, k), d, k) == paid - target
  {
    var g := Change(paid - target, d, k);
    ChangeProperties(paid - target, d, k);
    ValueMultiple(g, d, k);
    var p: nat, q: nat, x: nat :| paid == Times(p, d[0]) && target == Times(q, d[0])
      && Value(g, d, k) == Times(x, d[0]);
    TimesAdd(q, x, d[0]);
    TimesReflect(p, q + x, d[0]);
    TimesMonotone(p, q + x, d[0], d[0]);
  }
}
