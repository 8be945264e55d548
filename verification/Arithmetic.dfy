/** Multiplication, division and powers, in steps small enough for the solver. */
module Arithmetic {

  function Min(a: int, b: int): int { if a <= b then a else b }

  function Max(a: int, b: int): int { if a >= b then a else b }

  lemma {:induction false} MulMonotone(a: nat, b: nat, c: nat)
    requires a <= b
    ensures a * c <= b * c
  {
    if c > 0 {
      MulMonotone(a, b, c - 1);
      assert a * c == a * (c - 1) + a && b * c == b * (c - 1) + b;
    }
  }

  lemma MultipleIsLarge(x: int, k: int)
    requires k > 0
    ensures (x >= 1 ==> x * k >= k) && (x <= -1 ==> x * k <= -k)
  {
    if x >= 1 {
      MulMonotone(1, x, k);
    } else if x <= -1 {
      MulMonotone(1, -x, k);
      assert -x * k == -(x * k);
    }
  }

  /** Quotient and remainder are determined by their defining equation. */
  lemma DivModUnique(n: int, k: int, q: int, r: int)
    requires k > 0 && n == q * k + r && 0 <= r < k
    ensures q == n / k && r == n % k
  {
    var x := n / k - q;
    assert n == (n / k) * k + n % k;
    assert x * k == r - n % k;
    MultipleIsLarge(x, k);
  }

  lemma DivModEquation(n: nat, k: nat)
    requires k > 0
    ensures n == (n / k) * k + n % k && n / k >= 0 && 0 <= n % k < k
  {
  }

  lemma QuotientAtMost(n: nat, k: int)
    ensures k > 0 ==> n / k <= n
  {
    if k > 0 {
      var q := n / k;
      assert n == q * k + n % k;
      MulMonotone(1, k, q);
      MulCommutes(k, q);
    }
  }

  function Pow(b: nat, e: nat): nat {
    if e == 0 then 1 else b * Pow(b, e - 1)
  }

  lemma {:induction false} PowPositive(b: nat, e: nat)
    requires b > 0
    ensures Pow(b, e) > 0
  {
    if e > 0 {
      PowPositive(b, e - 1);
      MulMonotone(1, b, Pow(b, e - 1));
    }
  }

  lemma {:induction false} PowAdd(b: nat, m: nat, n: nat)
    ensures Pow(b, m + n) == Pow(b, m) * Pow(b, n)
  {
    if m > 0 {
      PowAdd(b, m - 1, n);
      MulAssociative(b, Pow(b, m - 1), Pow(b, n));
    }
  }

  lemma MulAssociative(a: int, b: int, c: int)
    ensures a * (b * c) == (a * b) * c
  {
  }

  lemma {:induction false} PowMonotone(b: nat, m: nat, n: nat)
    requires b > 0 && m <= n
    ensures Pow(b, m) <= Pow(b, n)
  {
    if m < n {
      PowMonotone(b, m, n - 1);
      MulMonotone(1, b, Pow(b, n - 1));
    }
  }

  lemma {:induction false} PowOfPow(b: nat, m: nat, n: nat)
    ensures Pow(Pow(b, m), n) == Pow(b, m * n)
  {
    if n > 0 {
      PowOfPow(b, m, n - 1);
      assert m * n == m + m * (n - 1);
      PowAdd(b, m, m * (n - 1));
    } else {
      assert m * n == 0;
    }
  }

  lemma {:induction false} PowBaseMonotone(a: nat, b: nat, e: nat)
    requires a <= b
    ensures Pow(a, e) <= Pow(b, e)
  {
    if e > 0 {
      PowBaseMonotone(a, b, e - 1);
      MulMonotone(a, b, Pow(a, e - 1));
      MulMonotone(Pow(a, e - 1), Pow(b, e - 1), b);
      MulCommutes(b, Pow(a, e - 1));
      MulCommutes(b, Pow(b, e - 1));
    }
  }

  lemma MulCommutes(a: int, b: int)
    ensures a * b == b * a
  {
  }

  lemma {:induction false} PowBaseStrict(a: nat, b: nat, e: nat)
    requires a < b && e > 0
    ensures Pow(a, e) < Pow(b, e)
  {
    PowBaseMonotone(a, b, e - 1);
    PowPositive(b, e - 1);
    MulMonotone(Pow(a, e - 1), Pow(b, e - 1), a);
    MulCommutes(a, Pow(a, e - 1));
    MulCommutes(a, Pow(b, e - 1));
    MulMonotone(a + 1, b, Pow(b, e - 1));
    assert (a + 1) * Pow(b, e - 1) == a * Pow(b, e - 1) + Pow(b, e - 1);
  }

  lemma PowSwap(a: nat, m: nat, n: nat)
    ensures Pow(Pow(a, m), n) == Pow(Pow(a, n), m)
  {
    PowOfPow(a, m, n);
    PowOfPow(a, n, m);
    MulCommutes(m, n);
  }

  /** Equal exponents can be cancelled. */
  lemma PowReflect(x: nat, y: nat, e: nat)
    requires e > 0 && Pow(x, e) <= Pow(y, e)
    ensures x <= y
  {
    if y < x { PowBaseStrict(y, x, e); }
  }
}
