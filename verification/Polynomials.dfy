/** Univariate polynomials as coefficient lists over the integers, and the exact Lagrange identity on the nodes
    0, 1, ..., n that the barycentric formula of the sumcheck verifier rests on. */
module Polynomials {

  /** Horner evaluation; c[0] is the constant coefficient. */
  ghost function Eval(c: seq<int>, x: int): int {
    if c == [] then 0 else c[0] + x * Eval(c[1..], x)
  }

  ghost function AddPoly(c: seq<int>, d: seq<int>): (s: seq<int>)
    ensures |s| == if |c| < |d| then |d| else |c|
  {
    if c == [] then d
    else if d == [] then c
    else [c[0] + d[0]] + AddPoly(c[1..], d[1..])
  }

  lemma {:induction false} EvalAdd(c: seq<int>, d: seq<int>, x: int)
    ensures Eval(AddPoly(c, d), x) == Eval(c, x) + Eval(d, x)
  {
    if c != [] && d != [] {
      EvalAdd(c[1..], d[1..], x);
      assert AddPoly(c, d)[1..] == AddPoly(c[1..], d[1..]);
      assert x * (Eval(c[1..], x) + Eval(d[1..], x)) == x * Eval(c[1..], x) + x * Eval(d[1..], x);
    }
  }

  // ----- Lagrange interpolation on the nodes 0 .. n -----

  /** (-1)^(n-i) * binomial(n, i). */
  ghost function Weight(n: nat, i: nat): int {
    if n == 0 then (if i == 0 then 1 else 0)
    else (if i == 0 then 0 else Weight(n - 1, i - 1)) - Weight(n - 1, i)
  }

  lemma {:induction false} WeightBeyond(n: nat, i: nat)
    requires i > n
    ensures Weight(n, i) == 0
  {
    if n > 0 {
      WeightBeyond(n - 1, i - 1);
      WeightBeyond(n - 1, i);
    }
  }

  /** The product of u - j over the nodes j < n other than i. */
  ghost function Others(u: int, i: int, n: nat): int {
    if n == 0 then 1
    else Others(u, i, n - 1) * (if n - 1 == i then 1 else u - (n - 1))
  }

  /** The product of u - j over all nodes j < n. */
  ghost function AllNodes(u: int, n: nat): int { Others(u, -1, n) }

  lemma {:induction false} OthersTimesNode(u: int, i: nat, n: nat)
    ensures n <= i ==> Others(u, i, n) == AllNodes(u, n)
    ensures i < n ==> (u - i) * Others(u, i, n) == AllNodes(u, n)
  {
    if n > 0 {
      OthersTimesNode(u, i, n - 1);
      MulAssoc(u - i, Others(u, i, n - 1), u - (n - 1));
    }
  }

  lemma MulAssoc(x: int, y: int, z: int)
    ensures x * (y * z) == (x * y) * z
  {}

  lemma {:induction false} OthersShift(u: int, i: nat, n: nat)
    requires i < n
    ensures Others(u, i + 1, n + 1) == u * Others(u - 1, i, n)
  {
    if i == n - 1 {
      AllNodesShift(u, n - 1);
      OthersTimesNode(u, i + 1, n);
      OthersTimesNode(u - 1, i, n - 1);
    } else {
      OthersShift(u, i, n - 1);
      var o := Others(u - 1, i, n - 1);
      assert (u * o) * (u - n) == u * (o * ((u - 1) - (n - 1)));
    }
  }

  lemma {:induction false} AllNodesShift(u: int, n: nat)
    ensures AllNodes(u, n + 1) == u * AllNodes(u - 1, n)
  {
    if n == 0 {
      assert Others(u, -1, 1) == Others(u, -1, 0) * u;
    } else {
      AllNodesShift(u, n - 1);
      var a := AllNodes(u - 1, n - 1);
      assert (u * a) * (u - n) == u * (a * ((u - 1) - (n - 1)));
    }
  }

  /** The interpolation of the constant one, first k terms. */
  ghost function OneSum(n: nat, k: nat, u: int): int {
    if k == 0 then 0 else OneSum(n, k - 1, u) + Weight(n, k - 1) * Others(u, k - 1, n + 1)
  }

  lemma {:induction false} OneSumPascal(n: nat, k: nat, u: int)
    requires 1 <= k <= n
    ensures OneSum(n, k, u) == u * OneSum(n - 1, k - 1, u - 1) - (u - n) * OneSum(n - 1, k, u)
  {
    var i := k - 1;
    var o := Others(u, i, n);
    assert Others(u, i, n + 1) == o * (u - n);
    if i > 0 {
      OneSumPascal(n, k - 1, u);
      OthersShift(u, i - 1, n);
      PascalTerm(Weight(n - 1, i - 1), Weight(n - 1, i), o, Others(u - 1, i - 1, n), u, n,
                 OneSum(n - 1, i - 1, u - 1), OneSum(n - 1, i, u));
    } else {
      assert OneSum(n, 0, u) == 0 == OneSum(n - 1, 0, u - 1) == OneSum(n - 1, 0, u);
      PascalTermFirst(Weight(n - 1, 0), o, u - n);
    }
  }

  lemma PascalTerm(w1: int, w2: int, o: int, o': int, u: int, n: int, a: int, b: int)
    requires o * (u - n) == u * o'
    ensures (u * a - (u - n) * b) + (w1 - w2) * (o * (u - n)) == u * (a + w1 * o') - (u - n) * (b + w2 * o)
  {
    assert w2 * (o * (u - n)) == (u - n) * (w2 * o);
    assert w1 * (u * o') == u * (w1 * o');
  }

  lemma PascalTermFirst(w: int, o: int, d: int)
    ensures (0 - w) * (o * d) == 0 - d * (0 + w * o)
  {
    assert w * (o * d) == d * (w * o);
  }

  ghost function Factorial(n: nat): nat { if n == 0 then 1 else n * Factorial(n - 1) }

  /** Summing the weighted node products gives n! at every point u. */
  lemma {:induction false} InterpolateOne(n: nat, u: int)
    ensures OneSum(n, n + 1, u) == Factorial(n)
  {
    if n == 0 {
      assert Others(u, 0, 1) == Others(u, 0, 0) * 1;
      assert OneSum(0, 1, u) == OneSum(0, 0, u) + Weight(0, 0) * Others(u, 0, 1);
    } else {
      OneSumPascal(n, n, u);
      WeightBeyond(n - 1, n);
      OthersShift(u, n - 1, n);
      InterpolateOne(n - 1, u);
      InterpolateOne(n - 1, u - 1);
      LastTerm(Weight(n - 1, n - 1), Others(u - 1, n - 1, n), u, n,
               OneSum(n - 1, n - 1, u - 1), Factorial(n - 1));
    }
  }

  lemma LastTerm(w: int, o: int, u: int, n: int, a: int, f: int)
    requires a + w * o == f
    ensures u * a - (u - n) * f + w * (u * o) == n * f
  {
    assert w * (u * o) == u * (w * o);
    assert u * a + u * (w * o) == u * f;
  }

  /** The interpolation of the values v at the nodes 0 .. n, first k terms, scaled by n!. */
  ghost function ValueSum(v: seq<int>, n: nat, k: nat, u: int): int
    requires k <= |v|
  {
    if k == 0 then 0
    else ValueSum(v, n, k - 1, u) + (Weight(n, k - 1) * Others(u, k - 1, n + 1)) * v[k - 1]
  }

  /** The values of c at 0, ..., m - 1. */
  ghost function Values(c: seq<int>, m: nat): (v: seq<int>)
    ensures |v| == m && forall i: nat | i < m :: v[i] == Eval(c, i)
  {
    seq(m, (i: nat) => Eval(c, i))
  }

  /** Coefficients of c(x + 1) - c(x). */
  ghost function Diff(c: seq<int>): (d: seq<int>)
    ensures |d| == if c == [] then 0 else |c| - 1
  {
    if |c| <= 1 then []
    else AddPoly(c[1..], AddPoly([0] + Diff(c[1..]), Diff(c[1..])))
  }

  lemma {:induction false} EvalDiff(c: seq<int>, x: int)
    ensures Eval(Diff(c), x) == Eval(c, x + 1) - Eval(c, x)
  {
    if |c| == 1 {
      assert Eval(c[1..], x) == 0 == Eval(c[1..], x + 1);
    } else if |c| > 1 {
      var g, d := c[1..], Diff(c[1..]);
      EvalDiff(g, x);
      EvalAdd(g, AddPoly([0] + d, d), x);
      EvalAdd([0] + d, d, x);
      assert ([0] + d)[1..] == d;
      DiffTerm(x, Eval(g, x), Eval(g, x + 1), Eval(d, x));
    }
  }

  lemma DiffTerm(x: int, g: int, g': int, d: int)
    requires d == g' - g
    ensures g + ((0 + x * d) + d) == (x + 1) * g' - x * g
  {}

  /** The finite difference of c of order n, first k terms. */
  ghost function Difference(c: seq<int>, n: nat, k: nat): int {
    if k == 0 then 0 else Difference(c, n, k - 1) + Weight(n, k - 1) * Eval(c, k - 1)
  }

  lemma {:induction false} DifferencePascal(c: seq<int>, n: nat, k: nat)
    requires 1 <= k && 1 <= n
    ensures Difference(c, n, k) == Difference(Diff(c), n - 1, k - 1) - Weight(n - 1, k - 1) * Eval(c, k - 1)
  {
    if k == 1 {
      assert Difference(c, n, 0) == 0;
    } else {
      DifferencePascal(c, n, k - 1);
      EvalDiff(c, k - 2);
      DifferenceTerm(Weight(n - 1, k - 2), Weight(n - 1, k - 1), Eval(c, k - 2), Eval(c, k - 1));
    }
  }

  lemma DifferenceTerm(w: int, w': int, f: int, f': int)
    ensures (w - w') * f' == w * (f' - f) + w * f - w' * f'
  {}

  lemma TimesZero(w: int, f: int)
    requires w == 0
    ensures w * f == 0
  {}

  /** A difference of higher order than the degree is zero. */
  lemma {:induction false} DifferenceVanishes(c: seq<int>, n: nat)
    requires |c| <= n
    ensures Difference(c, n, n + 1) == 0
    decreases n
  {
    if n == 0 {
      assert Eval(c, 0) == 0;
      assert Difference(c, 0, 1) == Difference(c, 0, 0) + Weight(0, 0) * Eval(c, 0);
    } else {
      DifferencePascal(c, n, n + 1);
      WeightBeyond(n - 1, n);
      DifferenceVanishes(Diff(c), n - 1);
      hide Difference, Weight, Eval, Diff;
      TimesZero(Weight(n - 1, n), Eval(c, n));
    }
  }

  lemma {:induction false} InterpolationStep(c: seq<int>, n: nat, k: nat, u: int)
    requires c != [] && k <= n + 1
    ensures ValueSum(Values(c, n + 1), n, k, u) ==
            c[0] * OneSum(n, k, u) + u * ValueSum(Values(c[1..], n + 1), n, k, u)
            - AllNodes(u, n + 1) * Difference(c[1..], n, k)
  {
    if k > 0 {
      InterpolationStep(c, n, k - 1, u);
      OthersTimesNode(u, k - 1, n + 1);
      InterpolationTerm(Weight(n, k - 1), Others(u, k - 1, n + 1), c[0], Eval(c[1..], k - 1), k - 1, u,
                        AllNodes(u, n + 1), OneSum(n, k - 1, u), ValueSum(Values(c[1..], n + 1), n, k - 1, u),
                        Difference(c[1..], n, k - 1));
    }
  }

  /** The algebra of one more term in InterpolationStep. */
  lemma InterpolationTerm(w: int, o: int, c0: int, g: int, i: int, u: int, all: int, one: int, sum: int, mom: int)
    requires (u - i) * o == all
    ensures (c0 * one + u * sum - all * mom) + (w * o) * (c0 + i * g) ==
            c0 * (one + w * o) + u * (sum + (w * o) * g) - all * (mom + w * g)
  {
    calc {
      u * ((w * o) * g) - all * (w * g);
      u * ((w * o) * g) - ((u - i) * o) * (w * g);
      { assert ((u - i) * o) * (w * g) == u * ((w * o) * g) - i * ((w * o) * g); }
      i * ((w * o) * g);
      (w * o) * (i * g);
    }
    assert (w * o) * (c0 + i * g) == c0 * (w * o) + (w * o) * (i * g);
  }

  /** Lagrange interpolation, multiplied out: n + 1 values of a polynomial of degree at most n determine it. */
  lemma {:induction false} Lagrange(c: seq<int>, n: nat, u: int)
    requires |c| <= n + 1
    ensures ValueSum(Values(c, n + 1), n, n + 1, u) == Factorial(n) * Eval(c, u)
  {
    if c == [] {
      InterpolationOfNothing(n, n + 1, u);
    } else {
      InterpolationStep(c, n, n + 1, u);
      InterpolateOne(n, u);
      DifferenceVanishes(c[1..], n);
      Lagrange(c[1..], n, u);
      HornerTerm(Factorial(n), c[0], u, Eval(c[1..], u));
    }
  }

  lemma HornerTerm(f: int, c0: int, u: int, g: int)
    ensures f * (c0 + u * g) == c0 * f + u * (f * g)
  {}

  lemma {:induction false} InterpolationOfNothing(n: nat, k: nat, u: int)
    requires k <= n + 1
    ensures ValueSum(Values([], n + 1), n, k, u) == 0
  {
    if k > 0 { InterpolationOfNothing(n, k - 1, u); }
  }

  lemma {:induction false} OthersZero(n: nat, i: nat, j: nat)
    requires i < n && j != i
    ensures Others(i, j, n) == 0
  {
    if i < n - 1 { OthersZero(n - 1, i, j); }
  }

  /** At a node the interpolation returns the value there, scaled by n!. */
  lemma {:induction false} ValueSumAtNode(v: seq<int>, n: nat, i: nat, k: nat)
    requires i <= n && k <= n + 1 && k <= |v|
    ensures ValueSum(v, n, k, i) == if i < k then (Weight(n, i) * Others(i, i, n + 1)) * v[i] else 0
  {
    if k > 0 {
      ValueSumAtNode(v, n, i, k - 1);
      if k - 1 != i { OthersZero(n + 1, i, k - 1); }
    }
  }

  /** The weight of node i times the product of its distances to the other nodes is n!. */
  lemma NodeWeight(n: nat, i: nat)
    requires i <= n
    ensures Weight(n, i) * Others(i, i, n + 1) == Factorial(n)
  {
    var one := Values([1], n + 1);
    assert one[i] == 1 by { assert Eval([1], i) == 1 + i * Eval([], i); }
    ValueSumAtNode(one, n, i, n + 1);
    Lagrange([1], n, i);
    assert Eval([1], i) == 1 + i * Eval([], i) == 1;
  }

  // ----- The interpolant as a coefficient list -----

  /** Coefficients of (x - a) * c(x) + carry. */
  ghost function TimesLinear(c: seq<int>, a: int, carry: int): (d: seq<int>)
    ensures |d| == |c| + 1
  {
    if c == [] then [carry] else [carry - a * c[0]] + TimesLinear(c[1..], a, c[0])
  }

  lemma {:induction false} EvalTimesLinear(c: seq<int>, a: int, carry: int, x: int)
    ensures Eval(TimesLinear(c, a, carry), x) == (x - a) * Eval(c, x) + carry
  {
    if c == [] {
      assert Eval([carry], x) == carry + x * Eval([], x);
    } else {
      EvalTimesLinear(c[1..], a, c[0], x);
      assert TimesLinear(c, a, carry)[1..] == TimesLinear(c[1..], a, c[0]);
      LinearTerm(x, a, carry, c[0], Eval(c[1..], x));
    }
  }

  lemma LinearTerm(x: int, a: int, carry: int, c0: int, g: int)
    ensures (carry - a * c0) + x * ((x - a) * g + c0) == (x - a) * (c0 + x * g) + carry
  {
    assert x * ((x - a) * g) == (x - a) * (x * g);
  }

  /** Coefficients of k times the product of x - j over the nodes j < n other than i. */
  ghost function NodePoly(k: int, i: int, n: nat): (d: seq<int>)
    ensures |d| == if 0 <= i < n then n else n + 1
  {
    if n == 0 then [k]
    else if n - 1 == i then NodePoly(k, i, n - 1)
    else TimesLinear(NodePoly(k, i, n - 1), n - 1, 0)
  }

  lemma {:induction false} EvalNodePoly(k: int, i: int, n: nat, x: int)
    ensures Eval(NodePoly(k, i, n), x) == k * Others(x, i, n)
  {
    if n == 0 {
      assert Eval([k], x) == k + x * Eval([], x);
    } else {
      EvalNodePoly(k, i, n - 1, x);
      if n - 1 != i {
        EvalTimesLinear(NodePoly(k, i, n - 1), n - 1, 0, x);
        NodeFactor(k, Others(x, i, n - 1), x - (n - 1));
      }
    }
  }

  lemma NodeFactor(k: int, o: int, d: int)
    ensures d * (k * o) == k * (o * d)
  {}

  ghost function ValuePoly(v: seq<int>, n: nat, k: nat): (d: seq<int>)
    requires k <= |v| && k <= n + 1
    ensures |d| <= n + 1
  {
    if k == 0 then []
    else AddPoly(ValuePoly(v, n, k - 1), NodePoly(Weight(n, k - 1) * v[k - 1], k - 1, n + 1))
  }

  lemma {:induction false} EvalValuePoly(v: seq<int>, n: nat, k: nat, x: int)
    requires k <= |v| && k <= n + 1
    ensures Eval(ValuePoly(v, n, k), x) == ValueSum(v, n, k, x)
  {
    if k > 0 {
      EvalValuePoly(v, n, k - 1, x);
      EvalAdd(ValuePoly(v, n, k - 1), NodePoly(Weight(n, k - 1) * v[k - 1], k - 1, n + 1), x);
      EvalNodePoly(Weight(n, k - 1) * v[k - 1], k - 1, n + 1, x);
      SwapLast(Weight(n, k - 1), v[k - 1], Others(x, k - 1, n + 1));
    }
  }

  lemma SwapLast(x: int, y: int, z: int)
    ensures (x * y) * z == (x * z) * y
  {}

  // ----- Division by a linear factor -----

  ghost function Quotient(c: seq<int>, a: int): (q: seq<int>)
    ensures |q| == if c == [] then 0 else |c| - 1
  {
    if |c| <= 1 then [] else [Eval(c[1..], a)] + Quotient(c[1..], a)
  }

  lemma {:induction false} FactorTheorem(c: seq<int>, a: int, x: int)
    ensures Eval(c, x) == (x - a) * Eval(Quotient(c, a), x) + Eval(c, a)
  {
    if |c| == 1 {
      assert Eval(c[1..], x) == 0 == Eval(c[1..], a);
    } else if |c| > 1 {
      var g := c[1..];
      FactorTheorem(g, a, x);
      assert Quotient(c, a)[1..] == Quotient(g, a);
      FactorTerm(x, a, c[0], Eval(g, x), Eval(g, a), Eval(Quotient(g, a), x));
    }
  }

  lemma FactorTerm(x: int, a: int, c0: int, g: int, ga: int, q: int)
    requires g == (x - a) * q + ga
    ensures c0 + x * g == (x - a) * (ga + x * q) + (c0 + a * ga)
  {
    assert x * ((x - a) * q) == (x - a) * (x * q);
  }
}
