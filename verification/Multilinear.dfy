/** The Lagrange basis of the hypercube, eq(k; u), over the integers: the independent definition against which the
    running products of the sumcheck verifier and the folding of Gemini are proved. */
module Multilinear {
  import opened Options
  import Polynomials

  ghost function Pow2(n: nat): (p: nat)
    ensures p >= 1
  {
    if n == 0 then 1 else 2 * Pow2(n - 1)
  }

  ghost function Power(x: int, m: nat): int { if m == 0 then 1 else x * Power(x, m - 1) }

  lemma {:induction false} PowerAdd(x: int, a: nat, b: nat)
    ensures Power(x, a + b) == Power(x, a) * Power(x, b)
  {
    if a > 0 {
      PowerAdd(x, a - 1, b);
      Polynomials.MulAssoc(x, Power(x, a - 1), Power(x, b));
    }
  }

  /** Bit j of k. */
  ghost function Bit(k: nat, j: nat): nat
    decreases j
  {
    if j == 0 then k % 2 else Bit(k / 2, j - 1)
  }

  lemma {:induction false} BitOfSum(k: nat, n: nat, j: nat)
    requires k < Pow2(n) && j <= n
    ensures j < n ==> Bit(k + Pow2(n), j) == Bit(k, j)
    ensures j == n ==> Bit(k, j) == 0 && Bit(k + Pow2(n), j) == 1
    decreases n
  {
    if n > 0 {
      assert (k + Pow2(n)) / 2 == k / 2 + Pow2(n - 1) && (k + Pow2(n)) % 2 == k % 2;
      if j > 0 { BitOfSum(k / 2, n - 1, j - 1); }
    }
  }

  /** eq(k; u_0, ..., u_{n-1}): the product of u_j where bit j of k is set and of 1 - u_j where it is not. */
  ghost function Eq(k: nat, u: seq<int>, n: nat): int
    requires n <= |u|
  {
    if n == 0 then 1 else Eq(k, u, n - 1) * (if Bit(k, n - 1) == 1 then u[n - 1] else 1 - u[n - 1])
  }

  lemma {:induction false} EqLowBits(k: nat, m: nat, u: seq<int>, n: nat)
    requires n <= |u| && n <= m && k < Pow2(m)
    ensures Eq(k + Pow2(m), u, n) == Eq(k, u, n)
  {
    if n > 0 {
      EqLowBits(k, m, u, n - 1);
      BitOfSum(k, m, n - 1);
    }
  }

  /** The lowest bit peels off the first challenge. */
  lemma {:induction false} EqFront(k: nat, b: nat, u: seq<int>, n: nat)
    requires 1 <= n <= |u| && b < 2
    ensures Eq(2 * k + b, u, n) == (if b == 1 then u[0] else 1 - u[0]) * Eq(k, u[1..], n - 1)
  {
    if n == 1 {
      assert Eq(2 * k + b, u, 0) == 1 == Eq(k, u[1..], 0);
      assert Bit(2 * k + b, 0) == b;
    } else {
      EqFront(k, b, u, n - 1);
      assert Bit(2 * k + b, n - 1) == Bit(k, n - 2);
      assert u[1..][n - 2] == u[n - 1];
      Polynomials.MulAssoc(if b == 1 then u[0] else 1 - u[0], Eq(k, u[1..], n - 2),
               if Bit(k, n - 2) == 1 then u[n - 1] else 1 - u[n - 1]);
    }
  }

  /** The sum over lo <= k < hi of g^k * eq(k; u). */
  ghost function PowerSum(g: int, u: seq<int>, n: nat, lo: nat, hi: nat): int
    requires n <= |u| && lo <= hi
    decreases hi - lo
  {
    if lo == hi then 0 else PowerSum(g, u, n, lo, hi - 1) + Power(g, hi - 1) * Eq(hi - 1, u, n)
  }

  lemma {:induction false} PowerSumSplit(g: int, u: seq<int>, n: nat, lo: nat, mid: nat, hi: nat)
    requires n <= |u| && lo <= mid <= hi
    ensures PowerSum(g, u, n, lo, hi) == PowerSum(g, u, n, lo, mid) + PowerSum(g, u, n, mid, hi)
    decreases hi
  {
    if mid < hi { PowerSumSplit(g, u, n, lo, mid, hi - 1); }
  }

  /** Raising the number of variables by one scales the lower half of the sum by 1 - u_n ... */
  lemma {:induction false} LowerHalf(g: int, u: seq<int>, n: nat, k: nat)
    requires n < |u| && k <= Pow2(n)
    ensures PowerSum(g, u, n + 1, 0, k) == PowerSum(g, u, n, 0, k) * (1 - u[n])
  {
    if k > 0 {
      LowerHalf(g, u, n, k - 1);
      BitOfSum(k - 1, n, n);
      var p, e, c := Power(g, k - 1), Eq(k - 1, u, n), 1 - u[n];
      Polynomials.MulAssoc(p, e, c);
      DistributeRight(PowerSum(g, u, n, 0, k - 1), p * e, c);
    }
  }

  lemma DistributeRight(x: int, y: int, c: int)
    ensures (x + y) * c == x * c + y * c
  {}

  /** ... and the upper half by g^(2^n) * u_n. */
  lemma {:induction false} UpperHalf(g: int, u: seq<int>, n: nat, k: nat)
    requires n < |u| && k <= Pow2(n)
    ensures PowerSum(g, u, n + 1, Pow2(n), Pow2(n) + k) == PowerSum(g, u, n, 0, k) * (Power(g, Pow2(n)) * u[n])
  {
    if k > 0 {
      UpperHalf(g, u, n, k - 1);
      BitOfSum(k - 1, n, n);
      EqLowBits(k - 1, n, u, n);
      PowerAdd(g, k - 1, Pow2(n));
      UpperTerm(Power(g, k - 1), Power(g, Pow2(n)), Eq(k - 1, u, n), u[n]);
      DistributeRight(PowerSum(g, u, n, 0, k - 1), Power(g, k - 1) * Eq(k - 1, u, n), Power(g, Pow2(n)) * u[n]);
    }
  }

  lemma UpperTerm(p: int, q: int, e: int, x: int)
    ensures (p * q) * (e * x) == (p * e) * (q * x)
  {}

  /** The product over j < n of 1 + u_j * (g^(2^j) - 1). */
  ghost function PowerProduct(g: int, u: seq<int>, n: nat): int
    requires n <= |u|
  {
    if n == 0 then 1 else PowerProduct(g, u, n - 1) * (1 + u[n - 1] * (Power(g, Pow2(n - 1)) - 1))
  }

  /** The pow-polynomial: its product form is the sum over the whole hypercube. */
  lemma {:induction false} PowerProductIsSum(g: int, u: seq<int>, n: nat)
    requires n <= |u|
    ensures PowerProduct(g, u, n) == PowerSum(g, u, n, 0, Pow2(n))
  {
    hide Power, Eq, PowerSum;
    if n == 0 {
      OneRow(g, u);
    } else {
      PowerProductIsSum(g, u, n - 1);
      var m := Pow2(n - 1);
      PowerSumSplit(g, u, n, 0, m, m + m);
      LowerHalf(g, u, n - 1, m);
      UpperHalf(g, u, n - 1, m);
      HalvesTerm(PowerProduct(g, u, n - 1), u[n - 1], Power(g, m));
    }
  }

  lemma OneRow(g: int, u: seq<int>)
    ensures PowerSum(g, u, 0, 0, 1) == 1
  {
    assert PowerSum(g, u, 0, 0, 1) == PowerSum(g, u, 0, 0, 0) + Power(g, 0) * Eq(0, u, 0);
  }

  lemma HalvesTerm(s: int, x: int, q: int)
    ensures s * (1 + x * (q - 1)) == s * (1 - x) + s * (q * x)
  {
    assert s * (x * (q - 1)) == s * (q * x) - s * x;
  }

  // ----- The row-disabling product -----

  /** The product over 2 <= j < n of 1 - u_j. */
  ghost function RowProduct(u: seq<int>, n: nat): int
    requires n <= |u|
  {
    if n <= 2 then 1 else RowProduct(u, n - 1) * (1 - u[n - 1])
  }

  lemma {:induction false} PowerOfOne(m: nat)
    ensures Power(1, m) == 1
  {
    if m > 0 { PowerOfOne(m - 1); }
  }

  lemma {:induction false} PowerProductOfOne(u: seq<int>, n: nat)
    requires n <= |u|
    ensures PowerProduct(1, u, n) == 1
  {
    if n > 0 {
      PowerProductOfOne(u, n - 1);
      PowerOfOne(Pow2(n - 1));
      assert u[n - 1] * (1 - 1) == 0;
    }
  }

  lemma {:induction false} Pow2Monotone(a: nat, b: nat)
    requires a <= b
    ensures Pow2(a) <= Pow2(b)
  {
    if a < b { Pow2Monotone(a, b - 1); }
  }

  /** The first four basis polynomials add up to the product that ignores u_0 and u_1. */
  lemma {:induction false} FirstFourRows(u: seq<int>, n: nat)
    requires 2 <= n <= |u|
    ensures Pow2(n) >= 4 && PowerSum(1, u, n, 0, 4) == RowProduct(u, n)
  {
    assert Pow2(2) == 4;
    Pow2Monotone(2, n);
    if n == 2 {
      PowerProductIsSum(1, u, 2);
      PowerProductOfOne(u, 2);
    } else {
      FirstFourRows(u, n - 1);
      LowerHalf(1, u, n - 1, 4);
    }
  }

  /** The sum over lo <= k < hi of eq(k; u). */
  ghost function EqSum(u: seq<int>, n: nat, lo: nat, hi: nat): int
    requires n <= |u| && lo <= hi
    decreases hi - lo
  {
    if lo == hi then 0 else EqSum(u, n, lo, hi - 1) + Eq(hi - 1, u, n)
  }

  lemma {:induction false} EqSumIsPowerSum(u: seq<int>, n: nat, lo: nat, hi: nat)
    requires n <= |u| && lo <= hi
    ensures EqSum(u, n, lo, hi) == PowerSum(1, u, n, lo, hi)
    decreases hi - lo
  {
    if lo < hi {
      EqSumIsPowerSum(u, n, lo, hi - 1);
      PowerOfOne(hi - 1);
    }
  }

  /** One minus the row-disabling product is the sum of eq(k; u) over the rows k >= 4; with fewer than four rows, none.
      */
  lemma RowsFromFour(u: seq<int>, n: nat)
    requires n <= |u|
    ensures 1 - RowProduct(u, n) == EqSum(u, n, Min(4, Pow2(n)), Pow2(n))
  {
    if n >= 2 {
      FirstFourRows(u, n);
      PowerProductIsSum(1, u, n);
      PowerProductOfOne(u, n);
      PowerSumSplit(1, u, n, 0, 4, Pow2(n));
      EqSumIsPowerSum(u, n, 4, Pow2(n));
    }
  }
}
