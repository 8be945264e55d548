/** Selecting Zerocoin mints for a payment (`src/denomination_functions.cpp`).

    The global denomination list is the parameter `d` of every method: the amounts of the
    denominations, smallest first, each dividing the next.  Denominations are named by their
    position in that list, and `ZQ_ERROR`, which is smaller than all of them, is -1. */
module CoinSelection {
  import opened Denominations

  const ZQ_ERROR: int := -1

  /** A mint of the wallet; `denom` is a position in the denomination list. */
  datatype Mint = Mint(serial: nat, denom: nat, isUsed: bool)

  function Total(c: Counts, d: seq<int>): int
    requires |c| == |d|
  {
    Value(c, d, |d|)
  }

  function Coins(c: Counts): nat {
    Count(c, |c|)
  }

  function Zeros(n: nat): (z: Counts)
    ensures |z| == n && forall i :: 0 <= i < n ==> z[i] == 0
  {
    seq(n, _ => 0)
  }

  /** A choice among the held coins. */
  ghost predicate Choice(c: Counts, held: Counts) {
    |c| == |held| && Within(c, held, |held|)
  }

  /** Some choice of at most `limit` coins is worth at least `target`. */
  ghost predicate Feasible(target: int, held: Counts, d: seq<int>, limit: int)
    requires |held| == |d|
  {
    exists c: Counts :: Choice(c, held) && Total(c, d) >= target && Coins(c) <= limit
  }

  /** Some choice of at most `limit` coins is worth exactly `target`. */
  ghost predicate ExactlyFeasible(target: int, held: Counts, d: seq<int>, limit: int)
    requires |held| == |d|
  {
    exists c: Counts :: Choice(c, held) && Total(c, d) == target && Coins(c) <= limit
  }

  // ---------------------------------------------------------------- mints and their counts

  /** How many of the first `p` mints are unused and of denomination `i`. */
  function Unused(mints: seq<Mint>, i: nat, p: nat): nat
    requires p <= |mints|
  {
    if p == 0 then 0
    else Unused(mints, i, p - 1) + if !mints[p - 1].isUsed && mints[p - 1].denom == i then 1 else 0
  }

  lemma {:induction false} UnusedMonotone(mints: seq<Mint>, i: nat, p: nat, q: nat)
    requires p <= q <= |mints|
    ensures Unused(mints, i, p) <= Unused(mints, i, q)
  {
    if p < q { UnusedMonotone(mints, i, p, q - 1); }
  }

  /** The map of held denominations that counts the unused mints of the list. */
  function HeldOf(mints: seq<Mint>, n: nat): (h: Counts)
    ensures |h| == n && forall i :: 0 <= i < n ==> h[i] == Unused(mints, i, |mints|)
  {
    seq(n, i => if 0 <= i then Unused(mints, i, |mints|) else 0)
  }

  // ---------------------------------------------------------------- the counting loops

  lemma {:induction false} ValueUpdate(c: Counts, i: nat, x: nat, d: seq<int>, k: nat)
    requires k <= |c| && k <= |d| && i < |c|
    ensures i >= k ==> Value(c[i := x], d, k) == Value(c, d, k) && Count(c[i := x], k) == Count(c, k)
    ensures i < k ==> Value(c[i := x], d, k) == Value(c, d, k) - Times(c[i], d[i]) + Times(x, d[i])
    ensures i < k ==> Count(c[i := x], k) == Count(c, k) - c[i] + x
  {
    if k > 0 { ValueUpdate(c, i, x, d, k - 1); }
  }

  /** One round of a greedy loop: `n` coins of denomination `i` are entered into the counts. */
  lemma RoundSums(d: seq<int>, i: nat, used0: Counts, n: nat)
    requires |d| == |used0| && i < |d| && used0[i] == 0
    ensures Total(used0[i := n], d) == Total(used0, d) + Times(n, d[i])
    ensures Coins(used0[i := n]) == Coins(used0) + n
  {
    ValueUpdate(used0, i, n, d, |d|);
  }

  lemma RoundCounts(low: Counts, i: nat, used0: Counts, n: nat)
    requires i < |used0|
    ensures (low + [n]) + used0[i + 1..] == low + used0[i := n][i..]
  {
    assert used0[i := n][i..] == [n] + used0[i + 1..];
  }

  method GetNumberOfCoinsUsed(c: Counts) returns (n: nat)
    ensures n == Coins(c)
  {
    n := 0;
    for i := 0 to |c|
      invariant n == Count(c, i)
    {
      n := n + c[i];
    }
  }

  method GetMaxDenomHeld(held: Counts) returns (m: int)
    ensures -1 <= m < |held|
    ensures m >= 0 ==> held[m] > 0
    ensures forall i :: m < i < |held| ==> held[i] == 0
  {
    m := ZQ_ERROR;
    var i := |held|;
    while i > 0
      invariant 0 <= i <= |held| && m == ZQ_ERROR
      invariant forall j :: i <= j < |held| ==> held[j] == 0
    {
      i := i - 1;
      if held[i] != 0 {
        m := i;
        break;
      }
    }
  }

  method GetNextLowerDenomHeld(this_denom: nat, held: Counts) returns (m: int)
    requires this_denom < |held|
    ensures -1 <= m < this_denom
    ensures m >= 0 ==> held[m] > 0
    ensures forall i :: m < i < this_denom ==> held[i] == 0
  {
    m := ZQ_ERROR;
    var i := |held|;
    while i > 0
      invariant 0 <= i <= |held| && m == ZQ_ERROR
      invariant forall j :: i <= j < this_denom ==> held[j] == 0
    {
      i := i - 1;
      if i < this_denom && held[i] != 0 {
        m := i;
        break;
      }
    }
  }

  /** The inner loop of `getSpendCoins`: coins of one denomination while they fit. */
  method TakeCoins(r: int, value: int, held: nat) returns (n: nat, remaining: int)
    requires value > 0
    ensures n == Take(r, value, held) && remaining == r - Times(n, value)
  {
    n, remaining := 0, r;
    while remaining >= value && n < held
      invariant n <= held && remaining == r - Times(n, value)
      invariant n == 0 || Times(n, value) <= r
      decreases held - n
    {
      n := n + 1;
      remaining := remaining - value;
    }
    TakeUnique(r, value, held, n);
  }

  /** The inner loop of `minimizeChange`: coins of one denomination while something is left over. */
  method TakeLeaving(r: int, value: int, held: nat) returns (n: nat, remaining: int)
    requires value > 0
    ensures n == Take(r - 1, value, held) && remaining == r - Times(n, value)
  {
    n, remaining := 0, r;
    while remaining > value && n < held
      invariant n <= held && remaining == r - Times(n, value)
      invariant n == 0 || Times(n, value) <= r - 1
      decreases held - n
    {
      n := n + 1;
      remaining := remaining - value;
    }
    TakeUnique(r - 1, value, held, n);
  }

  /** The inner loop of `getChange`: as many coins of one denomination as fit. */
  method TakeAny(r: int, value: int) returns (n: nat, remaining: int)
    requires value > 0
    ensures n == Take(r, value, if r < 0 then 0 else r) && remaining == r - Times(n, value)
  {
    n, remaining := 0, r;
    while remaining >= value
      invariant remaining == r - Times(n, value)
      invariant n == 0 || Times(n, value) <= r
      decreases remaining
    {
      n := n + 1;
      remaining := remaining - value;
    }
    TimesMonotone(n, n, 1, value);
    TimesIsProduct(n, 1);
    TakeUnique(r, value, if r < 0 then 0 else r, n);
  }

  /** The inner loop of `getIdealSpends`: unused mints of denomination `i` while they fit. */
  method TakeMints(r: int, mints: seq<Mint>, i: nat, value: int) returns (n: nat, remaining: int)
    requires value > 0
    ensures n == Take(r, value, Unused(mints, i, |mints|)) && remaining == r - Times(n, value)
  {
    n, remaining := 0, r;
    var p := 0;
    while p < |mints|
      invariant 0 <= p <= |mints| && n <= Unused(mints, i, p)
      invariant remaining == r - Times(n, value) && (n == 0 || Times(n, value) <= r)
      invariant n == Unused(mints, i, p) || remaining < value
    {
      var mint := mints[p];
      p := p + 1;
      if mint.isUsed { continue; }
      if remaining >= value && i == mint.denom {
        n := n + 1;
        remaining := remaining - value;
      }
      if remaining < value { break; }
    }
    UnusedMonotone(mints, i, p, |mints|);
    TakeUnique(r, value, Unused(mints, i, |mints|), n);
  }

  /** The inner loop of `calculateChange`: coins of one denomination until nothing is left to pay. */
  method TakeUntilPaid(r: int, value: int, held: nat) returns (n: nat, remaining: int)
    requires value > 0
    ensures n == TakeUp(r, value, held) && remaining == r - Times(n, value)
  {
    n, remaining := 0, r;
    var first := true;
    while (first && held > 0 && remaining > 0) || (!first && remaining > 0 && n < held)
      invariant n <= held && (first ==> n == 0) && remaining == r - Times(n, value)
      invariant n == 0 || Times(n - 1, value) < r
      decreases held - n
    {
      n := n + 1;
      remaining := remaining - value;
      first := false;
    }
    TakeUpUnique(r, value, held, n);
  }

  method GetSpendCoins(target: int, held: Counts, d: seq<int>) returns (used: Counts)
    requires Positive(d) && |held| == |d|
    ensures used == Greedy(target, held, d, |d|)
  {
    used := Zeros(|d|);
    var remaining := target;
    var i := |d|;
    while i > 0
      invariant 0 <= i <= |d| == |used|
      invariant forall j :: 0 <= j < i ==> used[j] == 0
      invariant Greedy(target, held, d, |d|) == Greedy(remaining, held, d, i) + used[i..]
    {
      i := i - 1;
      var n;
      n, remaining := TakeCoins(remaining, d[i], held[i]);
      RoundCounts(Greedy(remaining, held, d, i), i, used, n);
      used := used[i := n];
    }
  }

  method GetChange(target: int, d: seq<int>) returns (change: Counts)
    requires Positive(d)
    ensures change == Change(target, d, |d|)
  {
    change := Zeros(|d|);
    var remaining := target;
    var i := |d|;
    while i > 0
      invariant 0 <= i <= |d| == |change|
      invariant forall j :: 0 <= j < i ==> change[j] == 0
      invariant Change(target, d, |d|) == Change(remaining, d, i) + change[i..]
    {
      i := i - 1;
      var n;
      n, remaining := TakeAny(remaining, d[i]);
      RoundCounts(Change(remaining, d, i), i, change, n);
      change := change[i := n];
    }
  }

  // ---------------------------------------------------------------- exact payment

  /** The loops of `getIdealSpends`. */
  method SpendMints(target: int, mints: seq<Mint>, d: seq<int>) returns (remaining: int, used: Counts)
    requires Positive(d)
    ensures used == Greedy(target, HeldOf(mints, |d|), d, |d|) && remaining == target - Total(used, d)
  {
    ghost var held := HeldOf(mints, |d|);
    used, remaining := Zeros(|d|), target;
    var i := |d|;
    ZeroSums(used, d, |d|);
    while i > 0
      invariant 0 <= i <= |d| == |used|
      invariant forall j :: 0 <= j < i ==> used[j] == 0
      invariant remaining == target - Total(used, d)
      invariant Greedy(target, held, d, |d|) == Greedy(remaining, held, d, i) + used[i..]
    {
      i := i - 1;
      var n;
      n, remaining := TakeMints(remaining, mints, i, d[i]);
      RoundSums(d, i, used, n);
      RoundCounts(Greedy(remaining, held, d, i), i, used, n);
      used := used[i := n];
    }
    assert used == Greedy(target, held, d, |d|);
  }

  /** Exact payment by bounded greedy over the list of mints.  It succeeds exactly when some
      choice of unused mints is worth the target, and then uses as few coins as any of them. */
  method GetIdealSpends(target: int, mints: seq<Mint>, d: seq<int>) returns (ok: bool, used: Counts)
    requires IsChain(d)
    ensures Choice(used, HeldOf(mints, |d|)) && used == Greedy(target, HeldOf(mints, |d|), d, |d|)
    ensures ok ==> Total(used, d) == target
    ensures forall c: Counts :: Choice(c, HeldOf(mints, |d|)) && Total(c, d) == target ==> ok && Coins(used) <= Coins(c)
  {
    var remaining;
    remaining, used := SpendMints(target, mints, d);
    ok := remaining == 0;
    GreedyIsIdeal(target, HeldOf(mints, |d|), d);
  }

  lemma GreedyIsIdeal(target: int, held: Counts, d: seq<int>)
    requires IsChain(d) && |held| == |d|
    ensures var g := Greedy(target, held, d, |d|);
            && Choice(g, held)
            && forall c: Counts :: Choice(c, held) && Total(c, d) == target ==>
               Total(g, d) == target && Coins(g) <= Coins(c)
  {
    var g := Greedy(target, held, d, |d|);
    GreedyWithin(target, held, d, |d|);
    forall c: Counts | Choice(c, held) && Total(c, d) == target
      ensures Total(g, d) == target && Coins(g) <= Coins(c)
    {
      GreedyComplete(target, held, c, d, |d|);
    }
  }

  // ---------------------------------------------------------------- picking the mints

  /** `selected` are distinct unused mints of the list, at the positions `picks`. */
  ghost predicate Picked(selected: seq<Mint>, picks: seq<nat>, mints: seq<Mint>) {
    && |selected| == |picks|
    && (forall j :: 0 <= j < |picks| ==> picks[j] < |mints| && selected[j] == mints[picks[j]] && !selected[j].isUsed)
    && (forall j, l :: 0 <= j < l < |picks| ==> picks[j] != picks[l])
  }

  /** How many of the mints are of denomination `i`. */
  function Having(selected: seq<Mint>, i: nat): nat {
    if selected == [] then 0
    else Having(selected[..|selected| - 1], i) + if selected[|selected| - 1].denom == i then 1 else 0
  }

  /** The sum of the amounts of the mints. */
  function Worth(selected: seq<Mint>, d: seq<int>): int
    requires forall j :: 0 <= j < |selected| ==> selected[j].denom < |d|
  {
    if selected == [] then 0
    else Worth(selected[..|selected| - 1], d) + d[selected[|selected| - 1].denom]
  }

  lemma OneMoreMint(selected: seq<Mint>, mint: Mint, d: seq<int>)
    requires mint.denom < |d| && forall j :: 0 <= j < |selected| ==> selected[j].denom < |d|
    ensures forall j :: 0 <= j < |selected + [mint]| ==> (selected + [mint])[j].denom < |d|
    ensures Worth(selected + [mint], d) == Worth(selected, d) + d[mint.denom]
    ensures forall i: nat :: Having(selected + [mint], i) == Having(selected, i) + if mint.denom == i then 1 else 0
  {
    assert (selected + [mint])[..|selected|] == selected;
  }

  /** The mints are in the order of the program: higher denominations first, and those of one denomination in
      the order of the list, none being passed over. */
  ghost predicate InOrder(picks: seq<nat>, mints: seq<Mint>) {
    && (forall j :: 0 <= j < |picks| ==> picks[j] < |mints|)
    && (forall j, l :: 0 <= j < l < |picks| ==> Precedes(mints, picks[j], picks[l]))
    && (forall j, q :: 0 <= j < |picks| && 0 <= q < picks[j] && SameKind(mints, q, picks[j]) ==> q in picks)
  }

  predicate Precedes(mints: seq<Mint>, p: nat, q: nat)
    requires p < |mints| && q < |mints|
  {
    mints[p].denom > mints[q].denom || (mints[p].denom == mints[q].denom && p < q)
  }

  predicate SameKind(mints: seq<Mint>, q: nat, p: nat)
    requires q < |mints| && p < |mints|
  {
    !mints[q].isUsed && mints[q].denom == mints[p].denom
  }

  /** The mints so far, when the denominations above `i` are done and of denomination `i` those before place
      `p` of the list. */
  ghost predicate PickedSoFar(selected: seq<Mint>, picks: seq<nat>, mints: seq<Mint>, d: seq<int>, i: nat, p: nat) {
    && Picked(selected, picks, mints) && InOrder(picks, mints)
    && (forall j :: 0 <= j < |selected| ==> selected[j].denom < |d|)
    && (forall j :: 0 <= j < |picks| ==> mints[picks[j]].denom >= i && (mints[picks[j]].denom == i ==> picks[j] < p))
  }

  lemma PickStep(selected: seq<Mint>, picks: seq<nat>, mints: seq<Mint>, d: seq<int>, i: nat, p: nat)
    requires PickedSoFar(selected, picks, mints, d, i, p) && p < |mints| && i < |d|
    requires !mints[p].isUsed && mints[p].denom == i
    requires forall q :: 0 <= q < p && !mints[q].isUsed && mints[q].denom == i ==> q in picks
    ensures PickedSoFar(selected + [mints[p]], picks + [p], mints, d, i, p + 1)
  {
    var more := picks + [p];
    forall j, q | 0 <= j < |more| && 0 <= q < more[j] && SameKind(mints, q, more[j]) ensures q in more {
      if j < |picks| { assert q in picks; }
    }
  }

  /** `n` more mints of denomination `i`. */
  ghost predicate MoreOf(selected: seq<Mint>, before: seq<Mint>, d: seq<int>, i: nat, n: nat)
    requires i < |d| && forall j :: 0 <= j < |selected| ==> selected[j].denom < |d|
    requires forall j :: 0 <= j < |before| ==> before[j].denom < |d|
  {
    && Worth(selected, d) == Worth(before, d) + Times(n, d[i]) && |selected| == |before| + n
    && forall x: nat {:trigger Having(selected, x)} ::
         Having(selected, x) == Having(before, x) + if x == i then n else 0
  }

  lemma MoreOfOne(selected: seq<Mint>, before: seq<Mint>, mint: Mint, d: seq<int>, n: nat)
    requires mint.denom < |d| && forall j :: 0 <= j < |selected| ==> selected[j].denom < |d|
    requires forall j :: 0 <= j < |before| ==> before[j].denom < |d|
    requires MoreOf(selected, before, d, mint.denom, n)
    ensures forall j :: 0 <= j < |selected + [mint]| ==> (selected + [mint])[j].denom < |d|
    ensures MoreOf(selected + [mint], before, d, mint.denom, n + 1)
  {
    OneMoreMint(selected, mint, d);
    assert Times(n + 1, d[mint.denom]) == Times(n, d[mint.denom]) + d[mint.denom];
  }

  /** The pass over the list for denomination `i` has come to place `p`, and `left` mints are still wanted. */
  ghost predicate PassSoFar(mints: seq<Mint>, d: seq<int>, i: nat, p: nat, want: nat, left: nat, selected: seq<Mint>,
                            picks: seq<nat>, before: seq<Mint>, spent: int)
    requires i < |d| && p <= |mints| && forall j :: 0 <= j < |before| ==> before[j].denom < |d|
  {
    && left <= want && (left > 0 ==> want == left + Unused(mints, i, p))
    && (left > 0 ==> forall q :: 0 <= q < p && !mints[q].isUsed && mints[q].denom == i ==> q in picks)
    && PickedSoFar(selected, picks, mints, d, i, p)
    && MoreOf(selected, before, d, i, want - left) && spent == Times(want - left, d[i])
  }

  lemma PassTakes(mints: seq<Mint>, d: seq<int>, i: nat, p: nat, want: nat, left: nat, selected: seq<Mint>,
                  picks: seq<nat>, before: seq<Mint>, spent: int)
    requires i < |d| && p < |mints| && forall j :: 0 <= j < |before| ==> before[j].denom < |d|
    requires PassSoFar(mints, d, i, p, want, left, selected, picks, before, spent)
    requires !mints[p].isUsed && mints[p].denom == i && left > 0
    ensures PassSoFar(mints, d, i, p + 1, want, left - 1, selected + [mints[p]], picks + [p], before, spent + d[i])
  {
    PickStep(selected, picks, mints, d, i, p);
    MoreOfOne(selected, before, mints[p], d, want - left);
  }

  lemma PassSkips(mints: seq<Mint>, d: seq<int>, i: nat, p: nat, want: nat, left: nat, selected: seq<Mint>,
                  picks: seq<nat>, before: seq<Mint>, spent: int)
    requires i < |d| && p < |mints| && forall j :: 0 <= j < |before| ==> before[j].denom < |d|
    requires PassSoFar(mints, d, i, p, want, left, selected, picks, before, spent)
    requires mints[p].isUsed || mints[p].denom != i || left == 0
    ensures PassSoFar(mints, d, i, p + 1, want, left, selected, picks, before, spent)
  {
  }

  lemma PassStarts(mints: seq<Mint>, d: seq<int>, i: nat, want: nat, selected: seq<Mint>, picks: seq<nat>)
    requires i < |d| && PickedSoFar(selected, picks, mints, d, i + 1, |mints|)
    ensures PassSoFar(mints, d, i, 0, want, want, selected, picks, selected, 0)
  {
  }

  lemma PassEnds(mints: seq<Mint>, d: seq<int>, i: nat, want: nat, left: nat, selected: seq<Mint>, picks: seq<nat>,
                 before: seq<Mint>, spent: int)
    requires i < |d| && want <= Unused(mints, i, |mints|) && forall j :: 0 <= j < |before| ==> before[j].denom < |d|
    requires PassSoFar(mints, d, i, |mints|, want, left, selected, picks, before, spent)
    ensures left == 0 && PickedSoFar(selected, picks, mints, d, i, |mints|)
    ensures MoreOf(selected, before, d, i, want) && spent == Times(want, d[i])
  {
    if left > 0 { assert false; }
    assert want - left == want;
  }

  /** One pass over the list: mints of denomination `i` until `want` of them are picked. */
  method PickFrom(mints: seq<Mint>, i: nat, want: nat, d: seq<int>, selectedIn: seq<Mint>, ghost picksIn: seq<nat>)
    returns (selected: seq<Mint>, spent: int, left: nat, ghost picks: seq<nat>)
    requires i < |d| && want <= Unused(mints, i, |mints|)
    requires PickedSoFar(selectedIn, picksIn, mints, d, i + 1, |mints|)
    ensures left == 0 && PickedSoFar(selected, picks, mints, d, i, |mints|)
    ensures MoreOf(selected, selectedIn, d, i, want) && spent == Times(want, d[i])
  {
    selected, picks, spent, left := selectedIn, picksIn, 0, want;
    PassStarts(mints, d, i, want, selected, picks);
    var p := 0;
    while p < |mints|
      invariant 0 <= p <= |mints| && left >= 0
      invariant PassSoFar(mints, d, i, p, want, left, selected, picks, selectedIn, spent)
    {
      var mint := mints[p];
      if !mint.isUsed && i == mint.denom && left > 0 {
        PassTakes(mints, d, i, p, want, left, selected, picks, selectedIn, spent);
        selected, picks := selected + [mint], picks + [p];
        spent := spent + d[i];
        left := left - 1;
      } else {
        PassSkips(mints, d, i, p, want, left, selected, picks, selectedIn, spent);
      }
      p := p + 1;
    }
    PassEnds(mints, d, i, want, left, selected, picks, selectedIn, spent);
  }

  /** What is spent for `request`: as many mints of each denomination, which are worth what is counted. */
  ghost predicate Spends(selected: seq<Mint>, spent: int, picks: seq<nat>, mints: seq<Mint>, request: Counts,
    d: seq<int>)
    requires |request| == |d|
  {
    && Picked(selected, picks, mints) && InOrder(picks, mints)
    && (forall j :: 0 <= j < |selected| ==> selected[j].denom < |d|)
    && (forall i :: 0 <= i < |d| ==> Having(selected, i) == request[i])
    && Worth(selected, d) == spent == Total(request, d) && |selected| == Coins(request)
  }

  /** The mints spent are unused ones of the list, each once, higher denominations first; of each denomination they are
      the first unused ones, and as many as requested, so the value is the sum of the amounts requested. */
  lemma SpendsMeans(selected: seq<Mint>, spent: int, picks: seq<nat>, mints: seq<Mint>, request: Counts, d: seq<int>,
    j: nat, l: nat, q: nat)
    requires |request| == |d| && Spends(selected, spent, picks, mints, request, d) && j < |selected|
    ensures |picks| == |selected| && picks[j] < |mints|
    ensures selected[j] == mints[picks[j]] && !selected[j].isUsed && selected[j].denom < |d|
    ensures j < l < |selected| ==>
              && picks[l] < |mints|
              && selected[j].denom >= selected[l].denom
              && (selected[j].denom == selected[l].denom ==> picks[j] < picks[l])
    ensures q < picks[j] && !mints[q].isUsed && mints[q].denom == selected[j].denom ==> q in picks
  {
    if j < l < |selected| { assert Precedes(mints, picks[j], picks[l]); }
    if q < picks[j] && !mints[q].isUsed && mints[q].denom == selected[j].denom { assert SameKind(mints, q, picks[j]); }
  }

  /** Nothing is left to be picked of the denominations from `i` on, and nothing is picked of those below. */
  ghost predicate SpentDownTo(selected: seq<Mint>, request: Counts, used: Counts, i: nat) {
    && i <= |request| == |used|
    && (forall j :: 0 <= j < i ==> used[j] == request[j] && Having(selected, j) == 0)
    && (forall j :: i <= j < |request| ==> used[j] == 0 && Having(selected, j) == request[j])
  }

  /** The `do ... while` loop over the list ends because the requested coins are there. */
  method GetSpends(mints: seq<Mint>, request: Counts, d: seq<int>)
    returns (selected: seq<Mint>, spent: int, ghost picks: seq<nat>)
    requires |request| == |d| && Choice(request, HeldOf(mints, |d|))
    ensures Spends(selected, spent, picks, mints, request, d)
  {
    var used := request;
    selected, spent, picks := [], 0, [];
    var i := |d|;
    while i > 0
      invariant 0 <= i <= |d| && SpentDownTo(selected, request, used, i)
      invariant PickedSoFar(selected, picks, mints, d, i, |mints|) && Worth(selected, d) == spent
      invariant spent + Total(used, d) == Total(request, d) && |selected| + Coins(used) == Coins(request)
    {
      i := i - 1;
      ValueUpdate(used, i, 0, d, |d|);
      ghost var before, worth, counts := selected, spent, used;
      var first := true;
      while first || used[i] > 0
        invariant first ==> used == counts && selected == before && spent == worth
        invariant first ==> PickedSoFar(selected, picks, mints, d, i + 1, |mints|)
        invariant !first ==> used == counts[i := 0] && spent == worth + Times(counts[i], d[i])
        invariant !first ==>
                  PickedSoFar(selected, picks, mints, d, i, |mints|)
                  && MoreOf(selected, before, d, i, counts[i])
        decreases first
      {
        var more, left;
        selected, more, left, picks := PickFrom(mints, i, used[i], d, selected, picks);
        spent, used := spent + more, used[i := left];
        first := false;
      }
    }
    ZeroSums(used, d, |d|);
  }

  // ---------------------------------------------------------------- minimising the change

  /** Only the denominations up to position `m` count as held. */
  function UpTo(held: Counts, m: int): (h: Counts)
    requires -1 <= m < |held|
    ensures |h| == |held|
    ensures forall i :: 0 <= i < |held| ==> h[i] == if i <= m then held[i] else 0
  {
    held[..m + 1] + Zeros(|held| - (m + 1))
  }

  /** The first phase of `minimizeChange`: greedy that always leaves something to pay. */
  ghost function FirstPhase(target: int, held: Counts, m: int, d: seq<int>): (g: Counts)
    requires Positive(d) && |held| == |d| && -1 <= m < |held|
    ensures |g| == |d|
  {
    Greedy(target - 1, UpTo(held, m), d, |d|)
  }

  /** The second phase of `minimizeChange` finds no coin bigger than what is left to pay. */
  ghost predicate NothingToFill(target: int, held: Counts, m: int, d: seq<int>)
    requires Positive(d) && |held| == |d| && -1 <= m < |held|
  {
    var g := FirstPhase(target, held, m, d);
    forall i :: 0 <= i < |d| ==> g[i] >= held[i] || d[i] <= target - Total(g, d)
  }

  method MinimizeFirstPhase(target: int, m: int, held: Counts, d: seq<int>)
    returns (used: Counts, remaining: int, amountUsed: int)
    requires target > 0 && Positive(d) && |held| == |d| && -1 <= m < |held|
    ensures used == FirstPhase(target, held, m, d) && Choice(used, held)
    ensures amountUsed == Total(used, d) && remaining == target - amountUsed && remaining > 0
  {
    ghost var h := UpTo(held, m);
    used, remaining, amountUsed := Zeros(|d|), target, 0;
    ZeroSums(used, d, |d|);
    var i := |d|;
    while i > 0
      invariant 0 <= i <= |d| == |used|
      invariant forall j :: 0 <= j < i ==> used[j] == 0
      invariant amountUsed == Total(used, d) && remaining == target - amountUsed
      invariant Greedy(target - 1, h, d, |d|) == Greedy(remaining - 1, h, d, i) + used[i..]
    {
      i := i - 1;
      var before, n := remaining, 0;
      if i <= m {
        n, remaining := TakeLeaving(remaining, d[i], held[i]);
        amountUsed := amountUsed + (before - remaining);
      }
      RoundSums(d, i, used, n);
      RoundCounts(Greedy(remaining - 1, h, d, i), i, used, n);
      used := used[i := n];
    }
    assert used == Greedy(target - 1, h, d, |d|);
    FirstPhaseFits(target, held, m, d);
  }

  lemma FirstPhaseFits(target: int, held: Counts, m: int, d: seq<int>)
    requires target > 0 && Positive(d) && |held| == |d| && -1 <= m < |held|
    ensures Choice(FirstPhase(target, held, m, d), held) && Total(FirstPhase(target, held, m, d), d) < target
  {
    GreedyWithin(target - 1, UpTo(held, m), d, |d|);
  }

  /** A further coin of denomination `i` is held and worth more than what is left to pay. */
  predicate Fills(start: Counts, left: int, held: Counts, d: seq<int>, i: nat)
    requires |start| == |held| == |d| && i < |d|
  {
    d[i] > left && start[i] < held[i]
  }

  /** One more coin, of the smallest denomination that fills what is left, if there is any. */
  ghost predicate FilledUp(used: Counts, start: Counts, left: int, held: Counts, d: seq<int>)
    requires |start| == |held| == |d|
  {
    || (used == start && forall i :: 0 <= i < |d| ==> !Fills(start, left, held, d, i))
    || exists i :: 0 <= i < |d| && Fills(start, left, held, d, i) && used == start[i := start[i] + 1]
                   && forall j :: 0 <= j < i ==> !Fills(start, left, held, d, j)
  }

  /** That choice as a function. */
  function Filled(start: Counts, left: int, held: Counts, d: seq<int>, from: nat): (used: Counts)
    requires |start| == |held| == |d| && from <= |d|
    ensures |used| == |d|
    decreases |d| - from
  {
    if from == |d| then start
    else if Fills(start, left, held, d, from) then start[from := start[from] + 1]
    else Filled(start, left, held, d, from + 1)
  }

  lemma {:induction false} FilledIsUp(used: Counts, start: Counts, left: int, held: Counts, d: seq<int>, from: nat)
    requires |start| == |held| == |d| && from <= |d| && FilledUp(used, start, left, held, d)
    requires forall j :: 0 <= j < from ==> !Fills(start, left, held, d, j)
    ensures used == Filled(start, left, held, d, from)
    decreases |d| - from
  {
    if from < |d| && !Fills(start, left, held, d, from) { FilledIsUp(used, start, left, held, d, from + 1); }
  }

  method MinimizeSecondPhase(target: int, start: Counts, left: int, amount: int, held: Counts, d: seq<int>)
    returns (used: Counts, amountUsed: int)
    requires |held| == |d| && Choice(start, held) && left > 0
    requires amount == Total(start, d) && left == target - amount
    ensures Choice(used, held) && amountUsed == Total(used, d) && FilledUp(used, start, left, held, d)
    ensures amountUsed < target ==> forall i :: 0 <= i < |d| ==> start[i] >= held[i] || d[i] <= left
  {
    used, amountUsed := start, amount;
    var remaining := left;
    var i := 0;
    while i < |d|
      invariant 0 <= i <= |d| && used == start && amountUsed == amount && remaining == left
      invariant forall j :: 0 <= j < i ==> !Fills(start, left, held, d, j)
    {
      if d[i] > remaining && used[i] < held[i] {
        assert Fills(start, left, held, d, i);
        ValueUpdate(used, i, used[i] + 1, d, |d|);
        used := used[i := used[i] + 1];
        remaining := remaining - d[i];
        amountUsed := amountUsed + d[i];
      }
      if remaining < 0 { break; }
      i := i + 1;
    }
    forall i | 0 <= i < |d| && !Fills(start, left, held, d, i) ensures start[i] >= held[i] || d[i] <= left { }
  }

  /** What is paid but not given back. */
  function Unlapped(paid: Counts, change: Counts): (used: Counts)
    requires |paid| == |change|
    ensures |used| == |paid|
    ensures forall i :: 0 <= i < |paid| ==> used[i] == if paid[i] > change[i] then paid[i] - change[i] else 0
  {
    seq(|paid|, i requires 0 <= i < |paid| => if paid[i] > change[i] then paid[i] - change[i] else 0)
  }

  /** The counts while denomination `i` is worked on, `k` coins of which are removed already. */
  ghost predicate LappedTo(used: Counts, change: Counts, paid: Counts, change0: Counts, i: nat, k: nat) {
    && |used| == |change| == |paid| == |change0|
    && (forall j :: 0 <= j < i && j < |paid| ==> used[j] == Unlapped(paid, change0)[j])
    && (forall j :: i < j < |paid| ==> used[j] == paid[j] && change[j] == change0[j])
    && (i < |paid| ==> used[i] == paid[i] - k && change[i] == change0[i] - k)
  }

  /** Coins that are both paid and given back are neither paid nor given back. */
  method RemoveOverlap(target: int, paid: Counts, amount: int, held: Counts, d: seq<int>)
    returns (used: Counts, amountUsed: int)
    requires Positive(d) && |held| == |d| && |d| > 0 && Choice(paid, held) && amount == Total(paid, d)
    ensures Choice(used, held) && amountUsed == Total(used, d)
    ensures used == Unlapped(paid, Change(amount - target, d, |d|))
    ensures amountUsed >= target <==> amount >= target
  {
    used, amountUsed := paid, amount;
    var change := GetChange(amount - target, d);
    ghost var change0 := change;
    var i := 0;
    while i < |d|
      invariant 0 <= i <= |d| == |used| && LappedTo(used, change, paid, change0, i, 0)
      invariant Choice(used, held) && amountUsed == Total(used, d) && Choice(change, change0)
      invariant amountUsed - Total(change, d) == amount - Total(change0, d)
    {
      ghost var k := 0;
      while change[i] > 0 && used[i] > 0
        invariant 0 <= i < |d| == |used| && LappedTo(used, change, paid, change0, i, k)
        invariant Choice(used, held) && amountUsed == Total(used, d) && Choice(change, change0)
        invariant amountUsed - Total(change, d) == amount - Total(change0, d)
        decreases used[i]
      {
        ValueUpdate(used, i, used[i] - 1, d, |d|);
        ValueUpdate(change, i, change[i] - 1, d, |d|);
        used, change := used[i := used[i] - 1], change[i := change[i] - 1];
        amountUsed := amountUsed - d[i];
        k := k + 1;
      }
      i := i + 1;
    }
    ChangeProperties(amount - target, d, |d|);
    ValueNonNegative(change, d, |d|);
    WithinMonotone(change, change0, d, |d|);
  }

  /** The alternative with more spends but less change: filled up, without what is given back, and that amount
      with as few coins as possible. */
  ghost function Alternative(target: int, held: Counts, m: int, d: seq<int>): (used: Counts)
    requires Positive(d) && |held| == |d| && -1 <= m < |held|
    ensures |used| == |d|
  {
    var paid := Paid(target, held, m, d);
    Greedy(Total(Unlapped(paid, Change(Total(paid, d) - target, d, |d|)), d), held, d, |d|)
  }

  /** The number of coins that are given back for `used`. */
  function ChangeCount(used: Counts, target: int, d: seq<int>): nat
    requires Positive(d) && |used| == |d|
  {
    Coins(Change(Total(used, d) - target, d, |d|))
  }

  /** The alternative has less change than `changeCount` and fits the limit. */
  ghost predicate AlternativeWins(limit: int, changeCount: int, m: int, target: int, held: Counts, d: seq<int>)
    requires Positive(d) && |held| == |d| && -1 <= m < |held|
  {
    var alt := Alternative(target, held, m, d);
    ChangeCount(alt, target, d) < changeCount && Coins(alt) <= limit
  }

  /** What the alternative pays before the overlap with its change is removed. */
  ghost function Paid(target: int, held: Counts, m: int, d: seq<int>): (used: Counts)
    requires Positive(d) && |held| == |d| && -1 <= m < |held|
    ensures |used| == |d|
  {
    var start := FirstPhase(target, held, m, d);
    Filled(start, target - Total(start, d), held, d, 0)
  }

  /** Both phases of `minimizeChange`. */
  method PayBeyond(m: int, target: int, held: Counts, d: seq<int>) returns (paid: Counts, amount: int)
    requires target > 0 && IsChain(d) && |held| == |d| && |d| > 0 && -1 <= m < |held|
    ensures paid == Paid(target, held, m, d) && Choice(paid, held) && amount == Total(paid, d)
    ensures amount >= target || NothingToFill(target, held, m, d)
  {
    var start, remaining, first := MinimizeFirstPhase(target, m, held, d);
    paid, amount := MinimizeSecondPhase(target, start, remaining, first, held, d);
    FilledIsUp(paid, start, remaining, held, d, 0);
  }

  /** The alternative: it is held, and reaches the target unless the second phase finds nothing to fill. */
  method FindAlternative(m: int, target: int, held: Counts, d: seq<int>) returns (used: Counts, amountUsed: int)
    requires target > 0 && IsChain(d) && |held| == |d| && |d| > 0 && -1 <= m < |held|
    ensures used == Alternative(target, held, m, d) && Choice(used, held) && amountUsed == Total(used, d)
    ensures amountUsed >= target || NothingToFill(target, held, m, d)
  {
    var paid, amount := PayBeyond(m, target, held, d);
    var unlapped;
    unlapped, amountUsed := RemoveOverlap(target, paid, amount, held, d);
    used := GetSpendCoins(amountUsed, held, d);
    Respent(amountUsed, held, unlapped, d);
  }

  /** Greedy pays what some held coins are worth. */
  lemma Respent(amount: int, held: Counts, coins: Counts, d: seq<int>)
    requires IsChain(d) && |held| == |d| && Choice(coins, held) && amount == Total(coins, d)
    ensures Choice(Greedy(amount, held, d, |d|), held) && Total(Greedy(amount, held, d, |d|), d) == amount
  {
    GreedyComplete(amount, held, coins, d, |d|);
    GreedyWithin(amount, held, d, |d|);
  }

  /** The alternative is taken exactly if it has less change than `changeCount` and fits the limit. */
  method MinimizeChange(limit: int, changeCount: int, m: int, target: int, held: Counts, saved: Counts, d: seq<int>)
    returns (r: int, used: Counts)
    requires target > 0 && IsChain(d) && |held| == |d| && |d| > 0 && -1 <= m < |held| && |saved| == |d|
    ensures if AlternativeWins(limit, changeCount, m, target, held, d)
            then used == Alternative(target, held, m, d) && r == ChangeCount(used, target, d)
            else r == changeCount && used == saved
    ensures r < changeCount ==> Choice(used, held) && (Total(used, d) >= target || NothingToFill(target, held, m, d))
  {
    var amountUsed;
    used, amountUsed := FindAlternative(m, target, held, d);
    var coinCount := GetNumberOfCoinsUsed(used);
    var altChange := GetChange(amountUsed - target, d);
    var altChangeCount := GetNumberOfCoinsUsed(altChange);
    if altChangeCount < changeCount && coinCount <= limit {
      r := altChangeCount;
    } else {
      used, r := saved, changeCount;
    }
  }

  /** Nothing to fill, for the `k` smallest denominations. */
  ghost predicate Unfillable(r: int, h: Counts, d: seq<int>, k: nat)
    requires Positive(d) && k <= |h| && k <= |d|
  {
    var g := Greedy(r - 1, h, d, k);
    forall i :: 0 <= i < k ==> g[i] >= h[i] || d[i] <= r - Value(g, d, k)
  }

  lemma UnfillableBelow(r: int, h: Counts, d: seq<int>, k: nat)
    requires Positive(d) && 0 < k <= |h| && k <= |d| && Unfillable(r, h, d, k)
    ensures var t := Take(r - 1, d[k - 1], h[k - 1]);
            && Unfillable(r - Times(t, d[k - 1]), h, d, k - 1)
            && (t < h[k - 1] ==> r == Times(t + 1, d[k - 1]))
  {
    var t := Take(r - 1, d[k - 1], h[k - 1]);
    var g, low := Greedy(r - 1, h, d, k), Greedy(r - 1 - Times(t, d[k - 1]), h, d, k - 1);
    GreedySplit(r - 1, h, d, k);
    assert forall i :: 0 <= i < k - 1 ==> g[i] == low[i];
    if t < h[k - 1] {
      assert g[k - 1] == t;
      ValueNonNegative(low, d, k - 1);
    }
  }

  /** When the second phase finds nothing to fill although the coins suffice, paying upwards from
      the highest denomination hits the target exactly. */
  lemma {:induction false} NothingToFillIsExact(r: int, h: Counts, d: seq<int>, k: nat)
    requires Positive(d) && k <= |h| && k <= |d| && r > 0
    requires Unfillable(r, h, d, k) && Value(h, d, k) >= r
    ensures Value(Upward(r, h, d, k), d, k) == r
    decreases k
  {
    var dk, t := d[k - 1], Take(r - 1, d[k - 1], h[k - 1]);
    UpwardSplit(r, h, d, k);
    UnfillableBelow(r, h, d, k);
    if t == h[k - 1] {
      TakesAllUpward(r, dk, t);
      NothingToFillIsExact(r - Times(t, dk), h, d, k - 1);
    } else {
      TakeUpUnique(r, dk, h[k - 1], t + 1);
      UpwardWithin(0, h, d, k - 1);
    }
  }

  lemma TakesAllUpward(r: int, value: int, h: nat)
    requires value > 0 && r > 0 && Take(r - 1, value, h) == h
    ensures TakeUp(r, value, h) == h && r - Times(h, value) > 0
  {
    TakeUpUnique(r, value, h, h);
  }

  // ---------------------------------------------------------------- payment with change

  /** Paying with coins from the top down until the target is reached. */
  method PayUpward(target: int, held: Counts, d: seq<int>) returns (used: Counts, amountUsed: int, coinCount: nat)
    requires target > 0 && Positive(d) && |held| == |d|
    ensures used == Upward(target, held, d, |d|)
    ensures amountUsed == Total(used, d) && coinCount == Coins(used)
  {
    used, amountUsed, coinCount := Zeros(|d|), 0, 0;
    var remaining := target;
    ZeroSums(used, d, |d|);
    var i := |d|;
    while i > 0
      invariant 0 <= i <= |d| == |used|
      invariant forall j :: 0 <= j < i ==> used[j] == 0
      invariant amountUsed == Total(used, d) && coinCount == Coins(used) && remaining == target - amountUsed
      invariant Upward(target, held, d, |d|) == Upward(remaining, held, d, i) + used[i..]
    {
      i := i - 1;
      var before, n := remaining, 0;
      n, remaining := TakeUntilPaid(remaining, d[i], held[i]);
      RoundSums(d, i, used, n);
      RoundCounts(Upward(remaining, held, d, i), i, used, n);
      used := used[i := n];
      amountUsed := amountUsed + (before - remaining);
      coinCount := coinCount + n;
      if remaining < 0 {
        NothingAbove(remaining, held, d, i);
        assert Upward(remaining, held, d, i) + used[i..] == used;
        break;
      }
    }
  }

  lemma NothingAbove(r: int, h: Counts, d: seq<int>, k: nat)
    requires k <= |h| && k <= |d| && Positive(d) && r <= 0
    ensures forall i :: 0 <= i < k ==> Upward(r, h, d, k)[i] == 0
  {
    UpwardWithin(r, h, d, k);
    ValueNonNegative(Upward(r, h, d, k), d, k);
  }

  lemma NoneMissing(held: Counts, m: int)
    requires -1 <= m < |held| && forall i :: m < i < |held| ==> held[i] == 0
    ensures UpTo(held, m) == held
  {
  }

  /** What the count returned by `calculateChange` says about the coins it chose. */
  ghost predicate Settles(r: int, used: Counts, target: int, held: Counts, d: seq<int>, limit: int)
    requires |held| == |d| > 0 && Positive(d)
  {
    && r >= 0 && Choice(used, held)
    && (r > 0 ==> && Total(used, d) > target
                  && r == Coins(Change(Total(used, d) - target, d, |d|))
                  && (Coins(used) <= limit <==> Feasible(target, held, d, limit)))
    && (Multiple(target, d[0]) && !ExactlyFeasible(target, held, d, limit) ==> (r == 0 <==> Fails(target, held, d)))
  }

  /** The coins are not worth the target, or paying upwards from the highest denomination hits the
      target exactly. */
  ghost predicate Fails(target: int, held: Counts, d: seq<int>)
    requires |held| == |d| && Positive(d)
  {
    Total(held, d) < target || Total(Upward(target, held, d, |d|), d) == target
  }

  lemma FailsWhenPoor(used: Counts, target: int, held: Counts, d: seq<int>)
    requires |held| == |d| && Positive(d) && Choice(used, held) && Total(used, d) > target
    ensures Total(held, d) > target
  {
    WithinMonotone(used, held, d, |d|);
  }

  lemma PositiveChange(paid: Counts, target: int, d: seq<int>)
    requires IsChain(d) && |paid| == |d| && |d| > 0
    ensures Coins(Change(Total(paid, d) - target, d, |d|)) > 0 ==> Total(paid, d) > target
    ensures Multiple(target, d[0]) && Total(paid, d) > target ==>
              Coins(Change(Total(paid, d) - target, d, |d|)) > 0
  {
    var change := Change(Total(paid, d) - target, d, |d|);
    ChangeProperties(Total(paid, d) - target, d, |d|);
    ValueNonNegative(change, d, |d|);
    if Total(paid, d) == target { ZeroSums(change, d, |d|); }
    if Multiple(target, d[0]) && Total(paid, d) > target {
      ValueMultiple(paid, d, |d|);
      ChangeIsExact(Total(paid, d), target, d, |d|);
    }
  }

  /** The alternative of `minimizeChange`, when it is taken, settles the payment. */
  lemma AlternativeSettles(r: int, used: Counts, target: int, held: Counts, d: seq<int>, limit: int)
    requires target > 0 && IsChain(d) && |held| == |d| && |d| > 0
    requires Choice(used, held) && Coins(used) <= limit
    requires r == Coins(Change(Total(used, d) - target, d, |d|))
    requires Total(used, d) >= target || Total(held, d) < target
    requires Total(Upward(target, held, d, |d|), d) != target
    ensures Settles(r, used, target, held, d, limit)
  {
    PositiveChange(used, target, d);
    if Total(used, d) > target { FailsWhenPoor(used, target, held, d); }
    if Total(used, d) < target {
      ChangeProperties(Total(used, d) - target, d, |d|);
    }
  }

  /** Paying upwards settles the payment. */
  lemma UpwardSettles(r: int, used: Counts, target: int, held: Counts, d: seq<int>, limit: int)
    requires target > 0 && IsChain(d) && |held| == |d| && |d| > 0
    requires used == Upward(target, held, d, |d|)
    requires r == Coins(Change(Total(used, d) - target, d, |d|))
    ensures Settles(r, used, target, held, d, limit)
    ensures Total(used, d) == target ==> r == 0
  {
    PositiveChange(used, target, d);
    UpwardWithin(target, held, d, |d|);
    UpwardReaches(target, held, d, |d|);
    FeasibleWhen(target, held, d, limit);
  }

  /** A coin worth more than the target is overshot by paying upwards. */
  lemma {:induction false} UpwardOvershoots(r: int, h: Counts, d: seq<int>, k: nat, i: nat)
    requires Ascending(d) && i < k <= |h| && k <= |d| && r > 0 && h[i] > 0 && d[i] > r
    ensures Value(Upward(r, h, d, k), d, k) > r
    decreases k
  {
    UpwardSplit(r, h, d, k);
    if h[k - 1] == 0 {
      UpwardOvershoots(r, h, d, k - 1, i);
    } else {
      assert d[i] <= d[k - 1] && Times(1, d[k - 1]) == d[k - 1] && Times(0, d[k - 1]) == 0;
      TakeUpUnique(r, d[k - 1], h[k - 1], 1);
      UpwardWithin(r - d[k - 1], h, d, k - 1);
    }
  }

  /** One coin settles the payment if it is worth more than the target. */
  lemma OneCoinSettles(r: int, used: Counts, i: nat, target: int, held: Counts, d: seq<int>, limit: int)
    requires target > 0 && IsChain(d) && |held| == |d| && i < |d|
    requires used == Zeros(|d|)[i := 1] && held[i] > 0 && d[i] > target
    requires r == Coins(Change(d[i] - target, d, |d|))
    ensures Settles(r, used, target, held, d, limit)
  {
    ZeroSums(Zeros(|d|), d, |d|);
    ValueUpdate(Zeros(|d|), i, 1, d, |d|);
    assert Times(1, d[i]) == d[i];
    PositiveChange(used, target, d);
    FailsWhenPoor(used, target, held, d);
    UpwardOvershoots(target, held, d, |d|, i);
    forall c: Counts | Choice(c, held) && Total(c, d) >= target
      ensures Coins(c) >= 1
    {
      ValueNonNegative(c, d, |d|);
    }
  }

  /** A held coin worth more than the target. */
  predicate Exceeds(i: nat, target: int, held: Counts, d: seq<int>)
    requires i < |held| == |d|
  {
    target < d[i] && held[i] > 0
  }

  /** The smallest held coin that exceeds the target. */
  ghost predicate LeastOver(i: nat, target: int, held: Counts, d: seq<int>)
    requires |held| == |d|
  {
    i < |d| && Exceeds(i, target, held, d) && forall j :: 0 <= j < i ==> !Exceeds(j, target, held, d)
  }

  /** Which coins pay if coin `i` is the smallest that exceeds the target: that one alone, unless change is
      minimised and the alternative without it, from smaller coins, has less change and fits the limit. */
  ghost predicate OneCoinRule(i: nat, r: int, used: Counts, limit: int, fMinimizeChange: bool, target: int,
                              held: Counts, d: seq<int>)
    requires Positive(d) && i < |held| == |d|
  {
    var one := Zeros(|d|)[i := 1];
    && used == (if fMinimizeChange && AlternativeWins(limit, ChangeCount(one, target, d), i - 1, target, held, d)
                then Alternative(target, held, i - 1, d)
                else one)
    && r == ChangeCount(used, target, d)
  }

  /** Which coins pay if none exceeds the target: those paid upwards, unless the alternative has less change and
      fits the limit, and change is minimised or the alternative has no more coins. */
  ghost predicate SeveralCoinsRule(r: int, used: Counts, limit: int, fMinimizeChange: bool, target: int, held: Counts,
                                   d: seq<int>)
    requires Positive(d) && |held| == |d|
  {
    var up, alt := Upward(target, held, d, |d|), Alternative(target, held, |d| - 1, d);
    && used == (if && AlternativeWins(limit, ChangeCount(up, target, d), |d| - 1, target, held, d)
                   && (fMinimizeChange || Coins(alt) <= Coins(up))
                then alt
                else up)
    && r == ChangeCount(used, target, d)
  }

  /** Which coins `calculateChange` uses. */
  ghost predicate ChangeRule(r: int, used: Counts, limit: int, fMinimizeChange: bool, target: int, held: Counts,
                             d: seq<int>)
    requires Positive(d) && |held| == |d|
  {
    && (forall i :: 0 <= i < |d| && LeastOver(i, target, held, d) ==>
          OneCoinRule(i, r, used, limit, fMinimizeChange, target, held, d))
    && ((forall i :: 0 <= i < |d| ==> !Exceeds(i, target, held, d)) ==>
          SeveralCoinsRule(r, used, limit, fMinimizeChange, target, held, d))
  }

  /** Minimising never gives back more coins than the choice it competes with, and without minimising one coin
      that exceeds the target pays alone. */
  lemma ChangeRuleMeans(i: nat, r: int, used: Counts, limit: int, fMinimizeChange: bool, target: int, held: Counts,
                        d: seq<int>)
    requires Positive(d) && |held| == |d| && ChangeRule(r, used, limit, fMinimizeChange, target, held, d)
    ensures LeastOver(i, target, held, d) && !fMinimizeChange ==>
              Coins(used) == 1 && used[i] == 1 && forall j :: 0 <= j < i ==> held[j] == 0 || d[j] <= target
    ensures LeastOver(i, target, held, d) ==> r <= ChangeCount(Zeros(|d|)[i := 1], target, d)
    ensures (forall j :: 0 <= j < |d| ==> held[j] == 0 || d[j] <= target) ==>
              && r <= ChangeCount(Upward(target, held, d, |d|), target, d)
              && (!fMinimizeChange ==> Coins(used) <= Coins(Upward(target, held, d, |d|)))
  {
    if LeastOver(i, target, held, d) {
      ValueUpdate(Zeros(|d|), i, 1, d, |d|);
      ZeroSums(Zeros(|d|), d, |d|);
      forall j | 0 <= j < i ensures held[j] == 0 || d[j] <= target { assert !Exceeds(j, target, held, d); }
    }
    if forall j :: 0 <= j < |d| ==> held[j] == 0 || d[j] <= target {
      forall j | 0 <= j < |d| ensures !Exceeds(j, target, held, d) { }
    }
  }

  /** Denominations that are not held do not matter. */
  lemma SameAlternative(target: int, held: Counts, m: int, n: int, d: seq<int>)
    requires Positive(d) && |held| == |d| && -1 <= m <= n < |held| && forall i :: m < i <= n ==> held[i] == 0
    ensures Alternative(target, held, m, d) == Alternative(target, held, n, d)
  {
    assert UpTo(held, m) == UpTo(held, n);
  }

  /** `calculateChange` when one held coin is worth more than the target. */
  method PayWithOneCoin(limit: int, fMinimizeChange: bool, minOver: nat, target: int, held: Counts, d: seq<int>)
    returns (r: int, used: Counts)
    requires target > 0 && IsChain(d) && |held| == |d| && minOver < |d| && held[minOver] > 0 && target < d[minOver]
    ensures Settles(r, used, target, held, d, limit)
    ensures OneCoinRule(minOver, r, used, limit, fMinimizeChange, target, held, d)
  {
    used := Zeros(|d|)[minOver := 1];
    OneCoinWorth(minOver, d);
    var change := GetChange(d[minOver] - target, d);
    var changeCount := GetNumberOfCoinsUsed(change);
    OneCoinSettles(changeCount, used, minOver, target, held, d, limit);
    if fMinimizeChange {
      var nextToMax := GetNextLowerDenomHeld(minOver, held);
      SameAlternative(target, held, nextToMax, minOver - 1, d);
      var newCount, newUsed := MinimizeChange(limit, changeCount, nextToMax, target, held, used, d);
      if newCount < changeCount {
        CanFillWith(minOver, target, held, nextToMax, d);
        UpwardOvershoots(target, held, d, |d|, minOver);
        AlternativeSettles(newCount, newUsed, target, held, d, limit);
        return newCount, newUsed;
      }
    }
    r := changeCount;
  }

  lemma OneCoinWorth(i: nat, d: seq<int>)
    requires i < |d|
    ensures Total(Zeros(|d|)[i := 1], d) == d[i]
  {
    ZeroSums(Zeros(|d|), d, |d|);
    ValueUpdate(Zeros(|d|), i, 1, d, |d|);
    assert Times(1, d[i]) == d[i];
  }

  /** The alternative to paying upwards. */
  method MinimizeSeveral(limit: int, maxChangeCount: int, target: int, held: Counts, saved: Counts, d: seq<int>)
    returns (changeCount: int, minUsed: Counts)
    requires target > 0 && IsChain(d) && |held| == |d| && |d| > 0 && saved == Upward(target, held, d, |d|)
    requires maxChangeCount == ChangeCount(saved, target, d)
    ensures Settles(changeCount, minUsed, target, held, d, limit) && changeCount == ChangeCount(minUsed, target, d)
    ensures minUsed == if AlternativeWins(limit, maxChangeCount, |d| - 1, target, held, d)
                       then Alternative(target, held, |d| - 1, d)
                       else saved
  {
    UpwardSettles(maxChangeCount, saved, target, held, d, limit);
    var maxHeld := GetMaxDenomHeld(held);
    SameAlternative(target, held, maxHeld, |d| - 1, d);
    changeCount, minUsed := MinimizeChange(limit, maxChangeCount, maxHeld, target, held, saved, d);
    if changeCount < maxChangeCount {
      NoneMissing(held, maxHeld);
      if NothingToFill(target, held, maxHeld, d) && Total(held, d) >= target {
        NothingToFillIsExact(target, held, d, |d|);
      }
      AlternativeSettles(changeCount, minUsed, target, held, d, limit);
    }
  }

  /** `calculateChange` when no held coin is worth more than the target. */
  method PayWithSeveralCoins(limit: int, fMinimizeChange: bool, target: int, held: Counts, d: seq<int>)
    returns (r: int, used: Counts)
    requires target > 0 && IsChain(d) && |held| == |d| && |d| > 0
    ensures Settles(r, used, target, held, d, limit)
    ensures SeveralCoinsRule(r, used, limit, fMinimizeChange, target, held, d)
  {
    var amountUsed, coinCount;
    used, amountUsed, coinCount := PayUpward(target, held, d);
    var change := GetChange(amountUsed - target, d);
    var maxChangeCount := GetNumberOfCoinsUsed(change);
    UpwardSettles(maxChangeCount, used, target, held, d, limit);
    var changeCount, minUsed := MinimizeSeveral(limit, maxChangeCount, target, held, used, d);
    var spends := GetNumberOfCoinsUsed(minUsed);
    if !fMinimizeChange && coinCount < spends {
      return maxChangeCount, used;
    }
    used, r := minUsed, changeCount;
  }

  /** A payment that needs change.  A positive result is the number of coins given back, the coins
      used are held and worth more than the target, and their number respects the limit exactly
      when any choice of held coins could.  A result of zero comes only from a payment that some
      coins meet exactly within the limit, or that none can meet within the limit. */
  method CalculateChange(limit: int, fMinimizeChange: bool, target: int, held: Counts, d: seq<int>)
    returns (r: int, used: Counts)
    requires target > 0 && IsChain(d) && |held| == |d| && |d| > 0
    ensures Settles(r, used, target, held, d, limit)
    ensures ChangeRule(r, used, limit, fMinimizeChange, target, held, d)
  {
    var minOver := ZQ_ERROR;
    var i := 0;
    while i < |d|
      invariant 0 <= i <= |d| && minOver == ZQ_ERROR
      invariant forall j :: 0 <= j < i ==> !Exceeds(j, target, held, d)
    {
      if target < d[i] && held[i] > 0 {
        assert Exceeds(i, target, held, d);
        minOver := i;
        break;
      }
      i := i + 1;
    }
    if minOver != ZQ_ERROR {
      assert LeastOver(minOver, target, held, d);
      r, used := PayWithOneCoin(limit, fMinimizeChange, minOver, target, held, d);
    } else {
      r, used := PayWithSeveralCoins(limit, fMinimizeChange, target, held, d);
    }
  }

  /** A held coin worth more than the target always fills what the first phase leaves. */
  lemma CanFillWith(i: nat, target: int, held: Counts, m: int, d: seq<int>)
    requires target > 0 && Positive(d) && |held| == |d| && -1 <= m < i < |d| && held[i] > 0 && d[i] > target
    ensures !NothingToFill(target, held, m, d)
  {
    var g := FirstPhase(target, held, m, d);
    GreedyWithin(target - 1, UpTo(held, m), d, |d|);
    ValueNonNegative(g, d, |d|);
    assert g[i] == 0;
  }

  /** Whether the limit can be respected is known before the call: the coins must be worth the
      target, and paying from the highest denomination upwards must stay within the limit. */
  lemma FeasibleWhen(target: int, held: Counts, d: seq<int>, limit: int)
    requires Ascending(d) && |held| == |d|
    ensures Feasible(target, held, d, limit) <==>
              Total(held, d) >= target && Coins(Upward(target, held, d, |d|)) <= limit
  {
    UpwardWithin(target, held, d, |d|);
    UpwardReaches(target, held, d, |d|);
    forall c: Counts | Choice(c, held) && Total(c, d) >= target
      ensures Total(held, d) >= target && Coins(Upward(target, held, d, |d|)) <= Coins(c)
    {
      WithinMonotone(c, held, d, |d|);
      UpwardIsFewest(target, held, c, d, |d|);
    }
  }

  /** Exact payment within a limit is what bounded greedy finds. */
  lemma ExactlyFeasibleWhen(target: int, held: Counts, d: seq<int>, limit: int)
    requires IsChain(d) && |held| == |d|
    ensures var g := Greedy(target, held, d, |d|);
            ExactlyFeasible(target, held, d, limit) <==> Total(g, d) == target && Coins(g) <= limit
  {
    GreedyIsIdeal(target, held, d);
  }

  // ---------------------------------------------------------------- the selection

  /** C++'s conversion of a 32-bit `int` to a 64-bit `size_t`. */
  function AsSizeT(n: int): int {
    if n < 0 then n + 0x1_0000_0000_0000_0000 else n
  }

  lemma NoChange(d: seq<int>)
    requires Positive(d) && |d| > 0
    ensures Value(Change(0, d, |d|), d, |d|) == 0 && Coins(Change(0, d, |d|)) == 0
  {
    ChangeProperties(0, d, |d|);
    ValueNonNegative(Change(0, d, |d|), d, |d|);
    ZeroSums(Change(0, d, |d|), d, |d|);
  }

  /** The coins `used` are held, are worth `value`, and `back` coins are given back for what they
      are worth beyond the target. */
  ghost predicate Balanced(used: Counts, value: int, back: int, target: int, held: Counts, d: seq<int>)
    requires |held| == |d| && Positive(d)
  {
    && Choice(used, held) && Total(used, d) == value >= target
    && back == Coins(Change(value - target, d, |d|))
    && Total(Change(value - target, d, |d|), d) == value - target
    && (back == 0 <==> value == target)
  }

  lemma BalancedExact(used: Counts, target: int, held: Counts, d: seq<int>)
    requires target > 0 && IsChain(d) && |held| == |d| > 0
    requires Choice(used, held) && Total(used, d) == target
    ensures Balanced(used, target, 0, target, held, d) && Coins(used) > 0
  {
    NoChange(d);
    ValueNonNegative(used, d, |d|);
  }

  lemma BalancedWithChange(used: Counts, r: int, target: int, held: Counts, d: seq<int>)
    requires target > 0 && IsChain(d) && |held| == |d| > 0 && Multiple(target, d[0]) && Choice(used, held)
    requires Total(used, d) > target && r == Coins(Change(Total(used, d) - target, d, |d|)) > 0
    ensures Balanced(used, Total(used, d), r, target, held, d) && Coins(used) > 0
  {
    ValueMultiple(used, d, |d|);
    ChangeIsExact(Total(used, d), target, d, |d|);
    ValueNonNegative(used, d, |d|);
  }

  /** Only a payment that no coins can make within the limit fails. */
  lemma FailureIsFinal(target: int, held: Counts, d: seq<int>, limit: int)
    requires Ascending(d) && |held| == |d| && Fails(target, held, d) && !ExactlyFeasible(target, held, d, limit)
    ensures !Feasible(target, held, d, limit)
  {
    FeasibleWhen(target, held, d, limit);
    UpwardWithin(target, held, d, |d|);
  }

  /** What a selection promises.  Exact payments are made from all unused mints of the list, payments
      with change from the held coins only.  Exact payments are compared with the limit as a `size_t`,
      so a negative limit does not limit them. */
  ghost predicate Selects(target: int, limit: int, mints: seq<Mint>, held: Counts, d: seq<int>, selected: seq<Mint>,
                          selectedValue: int, coinsReturned: int, neededSpends: nat, picks: seq<nat>, used: Counts)
    requires |held| == |d| > 0 && Positive(d)
  {
    var all, most := HeldOf(mints, |d|), AsSizeT(limit);
    && (selected != [] ==> |used| == |d| && Spends(selected, selectedValue, picks, mints, used, d))
    && (ExactlyFeasible(target, all, d, most) <==> selected != [] && coinsReturned == 0)
    && (selected == [] <==> !ExactlyFeasible(target, all, d, most) && Fails(target, held, d))
    && (selected == [] ==> !Feasible(target, held, d, limit))
    && (selected != [] ==> Balanced(used, selectedValue, coinsReturned, target, all, d))
    && (selected != [] && coinsReturned == 0 ==> |selected| <= most && used == Greedy(target, all, d, |d|))
    && (selected != [] && coinsReturned > 0 ==>
       Choice(used, held) && (|selected| <= limit <==> Feasible(target, held, d, limit)))
    && (neededSpends > 0 ==> neededSpends > most && ExactlyFeasible(target, all, d, neededSpends))
    && (neededSpends == 0 ==> forall c: Counts :: Choice(c, all) && Total(c, d) == target ==>
          selected != [] && coinsReturned == 0 && |selected| <= Coins(c))
  }

  /** Selection for a payment that is a positive multiple of the smallest denomination (the wallet
      rounds up, `src/wallet/wallet.cpp:4140-4145`).  The held coins are some of the unused mints of the
      list: the wallet counts the mature ones of its own seed (`src/wallet/wallet.cpp:1546`) and lists
      all (`src/wallet/wallet.cpp:4134`). */
  method SelectMintsFromList(target: int, selectedIn: int, limit: int, fMinimizeChange: bool, mints: seq<Mint>,
    held: Counts, d: seq<int>)
    returns (selected: seq<Mint>, selectedValue: int, coinsReturned: int, neededSpends: nat,
             ghost picks: seq<nat>, ghost used: Counts)
    requires target > 0 && -0x8000_0000 <= limit < 0x8000_0000 && IsChain(d) && |d| > 0 && Multiple(target, d[0])
    requires |held| == |d| && Choice(held, HeldOf(mints, |d|))
    ensures Selects(target, limit, mints, held, d, selected, selectedValue, coinsReturned, neededSpends, picks, used)
    ensures coinsReturned > 0 ==> ChangeRule(coinsReturned, used, limit, fMinimizeChange, target, held, d)
  {
    ghost var all := HeldOf(mints, |d|);
    neededSpends := 0;
    selected, selectedValue, picks := [], selectedIn, [];
    var exact, chosen := GetIdealSpends(target, mints, d);
    used := chosen;
    if exact {
      selected, selectedValue, picks := GetSpends(mints, chosen, d);
      BalancedExact(chosen, target, all, d);
      if |selected| <= AsSizeT(limit) {
        coinsReturned := 0;
        return;
      }
      neededSpends := |selected|;
    }
    assert !ExactlyFeasible(target, all, d, AsSizeT(limit));
    HeldIsPart(target, all, held, d, limit);
    coinsReturned, chosen := CalculateChange(limit, fMinimizeChange, target, held, d);
    used := chosen;
    if coinsReturned == 0 {
      selected, picks := [], [];
      FailureIsFinal(target, held, d, limit);
    } else {
      selected, selectedValue, picks := GetSpends(mints, chosen, d);
      BalancedWithChange(chosen, coinsReturned, target, held, d);
    }
  }

  /** What the held coins can do, all unused mints can. */
  lemma HeldIsPart(target: int, all: Counts, held: Counts, d: seq<int>, limit: int)
    requires |held| == |d| == |all| && Choice(held, all) && limit >= -0x8000_0000
    ensures ExactlyFeasible(target, held, d, limit) ==> ExactlyFeasible(target, all, d, AsSizeT(limit))
    ensures Feasible(target, held, d, limit) ==> Feasible(target, all, d, limit)
  {
    forall c: Counts | Choice(c, held) ensures Choice(c, all) { }
  }

  /** If the held coins are all unused mints, an empty selection means that nothing within the limit
      could pay, and a selection is within the limit exactly if some payment is. */
  lemma SelectionIsBest(target: int, limit: int, mints: seq<Mint>, held: Counts, d: seq<int>, selected: seq<Mint>,
                        selectedValue: int, coinsReturned: int, neededSpends: nat, picks: seq<nat>, used: Counts)
    requires |held| == |d| > 0 && IsChain(d) && limit >= -0x8000_0000
    requires Selects(target, limit, mints, held, d, selected, selectedValue, coinsReturned, neededSpends, picks, used)
    requires held == HeldOf(mints, |d|)
    ensures selected == [] ==> !Feasible(target, held, d, limit)
    ensures selected != [] ==> (|selected| <= limit <==> Feasible(target, held, d, limit))
  {
    if selected != [] && coinsReturned == 0 && |selected| <= limit {
      assert Choice(used, held) && Total(used, d) >= target && Coins(used) <= limit;
    }
  }

  /** An empty selection hides a payment that the list could make within the limit exactly if greedy finds
      no exact payment within the limit, the held coins fail, and all unused mints together suffice when
      paid upwards. */
  lemma HiddenPayment(target: int, limit: int, mints: seq<Mint>, held: Counts, d: seq<int>, selected: seq<Mint>,
                      selectedValue: int, coinsReturned: int, neededSpends: nat, picks: seq<nat>, used: Counts)
    requires |held| == |d| > 0 && IsChain(d)
    requires Selects(target, limit, mints, held, d, selected, selectedValue, coinsReturned, neededSpends, picks, used)
    ensures var all := HeldOf(mints, |d|);
            var g, u := Greedy(target, all, d, |d|), Upward(target, all, d, |d|);
            selected == [] && Feasible(target, all, d, limit) <==>
              && !(Total(g, d) == target && Coins(g) <= AsSizeT(limit))
              && (Total(held, d) < target || Total(Upward(target, held, d, |d|), d) == target)
              && Total(all, d) >= target && Coins(u) <= limit
  {
    FeasibleWhen(target, HeldOf(mints, |d|), d, limit);
    ExactlyFeasibleWhen(target, HeldOf(mints, |d|), d, AsSizeT(limit));
  }

  /** With `n` unused mints of the highest denomination, all held, and a target that needs all of them
      without using them up, a limit of `n - 1` is exceeded: all `n` are selected. */
  lemma TopCoinsExceedLimit(n: nat, target: int, mints: seq<Mint>, d: seq<int>, selected: seq<Mint>,
                            selectedValue: int, coinsReturned: int, neededSpends: nat, picks: seq<nat>, used: Counts)
    requires IsChain(d) && |d| > 0 && n > 0 && HeldOf(mints, |d|) == Zeros(|d|)[|d| - 1 := n]
    requires 0 < target && Times(n - 1, d[|d| - 1]) < target < Times(n, d[|d| - 1])
    requires Selects(target, n - 1, mints, HeldOf(mints, |d|), d, selected, selectedValue, coinsReturned, neededSpends,
             picks, used)
    ensures |selected| == n && coinsReturned > 0
  {
    var held := HeldOf(mints, |d|);
    TopCoinsNeeded(n, target, held, d);
    SelectionIsBest(target, n - 1, mints, held, d, selected, selectedValue, coinsReturned, neededSpends, picks, used);
    assert !ExactlyFeasible(target, held, d, n - 1);
    ValueUpdate(Zeros(|d|), |d| - 1, n, d, |d|);
    ZeroSums(Zeros(|d|), d, |d|);
    WithinMonotone(used, held, d, |d|);
  }

  lemma TopCoinsNeeded(n: nat, target: int, held: Counts, d: seq<int>)
    requires Ascending(d) && |held| == |d| > 0 && n > 0 && held == Zeros(|d|)[|d| - 1 := n]
    requires 0 < target && Times(n - 1, d[|d| - 1]) < target < Times(n, d[|d| - 1])
    ensures !Feasible(target, held, d, n - 1) && !Fails(target, held, d)
    ensures Feasible(target, held, d, n)
  {
    var k := |d|;
    TakeUpUnique(target, d[k - 1], n, n);
    UpwardSplit(target, held, d, k);
    UpwardWithin(target - Times(n, d[k - 1]), held, d, k - 1);
    ZeroSums(Zeros(k), d, k);
    ValueUpdate(Zeros(k), k - 1, n, d, k);
    FeasibleWhen(target, held, d, n - 1);
    FeasibleWhen(target, held, d, n);
  }

  /** Two unused mints of 5000. */
  const TWO_MINTS: seq<Mint> := [Mint(1, 7, false), Mint(2, 7, false)]

  lemma TwoMintsHeld()
    ensures IsChain(AMOUNTS) && |AMOUNTS| == 8 && Multiple(5001 * COIN, AMOUNTS[0])
    ensures HeldOf(TWO_MINTS, 8) == Zeros(8)[7 := 2]
    ensures Times(1, AMOUNTS[7]) < 5001 * COIN < Times(2, AMOUNTS[7])
  {
    AmountsAreAChain();
    TimesIsProduct(5001, COIN);
    assert 5001 * COIN == Times(5001, AMOUNTS[0]);
    TimesIsProduct(1, AMOUNTS[7]);
    TimesIsProduct(2, AMOUNTS[7]);
    forall i | 0 <= i < 8 ensures Unused(TWO_MINTS, i, 2) == if i == 7 then 2 else 0 {
      assert Unused(TWO_MINTS, i, 0) == 0;
      assert Unused(TWO_MINTS, i, 1) == if i == 7 then 1 else 0;
    }
  }

  /** The limit is not always respected: 5001 from two held mints of 5000 with a limit of one spend
      selects both. */
  lemma LimitCanBeExceeded(selected: seq<Mint>, selectedValue: int, coinsReturned: int, neededSpends: nat,
    picks: seq<nat>, used: Counts)
    requires IsChain(AMOUNTS) && |AMOUNTS| == 8
    requires Selects(5001 * COIN, 1, TWO_MINTS, HeldOf(TWO_MINTS, 8), AMOUNTS, selected, selectedValue, coinsReturned,
             neededSpends, picks, used)
    ensures |selected| == 2
  {
    TwoMintsHeld();
    TopCoinsExceedLimit(2, 5001 * COIN, TWO_MINTS, AMOUNTS, selected, selectedValue, coinsReturned, neededSpends, picks,
      used);
  }

  /** A payment can be hidden: if the two mints are immature and so not held, nothing is selected, although
      both of them would pay 5001 within a limit of two. */
  lemma ImmatureMintsHidePayment(selected: seq<Mint>, selectedValue: int, coinsReturned: int, neededSpends: nat,
    picks: seq<nat>, used: Counts)
    requires IsChain(AMOUNTS) && |AMOUNTS| == 8
    requires Selects(5001 * COIN, 2, TWO_MINTS, Zeros(8), AMOUNTS, selected, selectedValue, coinsReturned, neededSpends,
             picks, used)
    ensures selected == [] && Choice(Zeros(8), HeldOf(TWO_MINTS, 8))
            && Feasible(5001 * COIN, HeldOf(TWO_MINTS, 8), AMOUNTS, 2)
  {
    TwoMintsHeld();
    TopCoinsNeeded(2, 5001 * COIN, Zeros(8)[7 := 2], AMOUNTS);
    ZeroSums(Zeros(8), AMOUNTS, 8);
    NoExactPayment();
  }

  /** Mints of 5000 never make up 5001. */
  lemma NoExactPayment()
    ensures |AMOUNTS| == 8
    ensures !ExactlyFeasible(5001 * COIN, HeldOf(TWO_MINTS, 8), AMOUNTS, AsSizeT(2))
  {
    TwoMintsHeld();
    forall c: Counts | Choice(c, HeldOf(TWO_MINTS, 8)) ensures Total(c, AMOUNTS) != 5001 * COIN {
      ValueUpdate(Zeros(8), 7, c[7], AMOUNTS, 8);
      ZeroSums(Zeros(8), AMOUNTS, 8);
      assert c == Zeros(8)[7 := c[7]];
      TimesIsProduct(c[7], AMOUNTS[7]);
    }
  }
}
