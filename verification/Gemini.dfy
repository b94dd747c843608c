/** Gemini folding in the generated contract: from the evaluation of the last fold and the values at the negative
    points, the verifier reconstructs the value of every fold at its positive point. */
module Gemini {
  import opened Field
  import opened Polynomials
  import opened Sumcheck
  import opened SumcheckRounds
  import M = Multilinear

  /** r, r^2, r^4, ... */
  method ComputeSquares(r: Fr, logN: nat) returns (squares: seq<Fr>)
    requires logN >= 1
    ensures |squares| == logN && RepeatedSquares(squares, r, logN)
  {
    var out := new Fr[logN](_ => 0);
    out[0] := r;
    for i := 1 to logN
      invariant out[0] == r
      invariant forall j: nat | 1 <= j < i :: out[j] == Mul(out[j - 1], out[j - 1])
    {
      out[i] := Mul(out[i - 1], out[i - 1]);
    }
    return out[..];
  }

  // ----- The reconstruction -----

  function FoldDenominator(power: Fr, u: Fr): Fr { Add(Mul(power, Sub(1, u)), u) }

  function FoldNumerator(power: Fr, u: Fr, next: Fr, negative: Fr): Fr {
    Sub(Mul(Mul(power, next), 2), Mul(negative, Sub(Mul(power, Sub(1, u)), u)))
  }

  /** The values reconstructed for the folds i, i + 1, ..., n - 1, or the revert of a zero denominator. */
  function PositiveValues(u: seq<Fr>, start: Fr, negatives: seq<Fr>, powers: seq<Fr>, n: nat, i: nat)
    : (r: Result<seq<Fr>>)
    requires PrimeField() && i <= n <= |u| && n <= |negatives| && n <= |powers|
    ensures r.Value? ==> |r.value| == n - i
    decreases n - i
  {
    if i == n then Value([])
    else
      var rest := PositiveValues(u, start, negatives, powers, n, i + 1);
      if rest.Revert? then rest
      else
        var next := if i + 1 == n then start else rest.value[0];
        var d := FoldDenominator(powers[i], u[i]);
        if d == 0 then Revert(InvertOfZero)
        else Value([Mul(FoldNumerator(powers[i], u[i], next, negatives[i]), Invert(d))] + rest.value)
  }

  lemma {:induction false} RevertBelow(u: seq<Fr>, start: Fr, negatives: seq<Fr>, powers: seq<Fr>, n: nat, i: nat,
                                       j: nat)
    requires PrimeField() && i <= j <= n <= |u| && n <= |negatives| && n <= |powers|
    requires PositiveValues(u, start, negatives, powers, n, j).Revert?
    ensures PositiveValues(u, start, negatives, powers, n, i) == PositiveValues(u, start, negatives, powers, n, j)
    decreases j - i
  {
    if i < j { RevertBelow(u, start, negatives, powers, n, i + 1, j); }
  }

  method ComputeFoldPosEvaluations(u: seq<Fr>, start: Fr, negatives: seq<Fr>, powers: seq<Fr>, logSize: nat)
    returns (r: Result<seq<Fr>>)
    requires PrimeField() && logSize <= |u| && logSize <= |negatives| && logSize <= |powers|
    ensures r == PositiveValues(u, start, negatives, powers, logSize, 0)
  {
    var values := new Fr[logSize](_ => 0);
    var acc := start;
    var i := logSize;
    assert values[logSize..] == [];
    while i > 0
      invariant 0 <= i <= logSize
      invariant PositiveValues(u, start, negatives, powers, logSize, i) == Value(values[i..])
      invariant acc == if i == logSize then start else values[i]
    {
      var power, c := powers[i - 1], u[i - 1];
      var round := FoldNumerator(power, c, acc, negatives[i - 1]);
      var d := FoldDenominator(power, c);
      if d == 0 {
        RevertBelow(u, start, negatives, powers, logSize, 0, i - 1);
        return Revert(InvertOfZero);
      }
      round := Mul(round, Invert(d));
      ghost var before := values[i..];
      acc := round;
      values[i - 1] := round;
      assert values[i - 1..] == [round] + before;
      i := i - 1;
    }
    assert values[0..] == values[..];
    return Value(values[..]);
  }

  // ----- The folds of a coefficient vector -----

  ghost function Even(a: seq<int>): seq<int> { if |a| < 2 then a else [a[0]] + Even(a[2..]) }

  ghost function Odd(a: seq<int>): seq<int> { if |a| < 2 then [] else [a[1]] + Odd(a[2..]) }

  /** (1 - u) * even(a) + u * odd(a). */
  ghost function FoldOnce(a: seq<int>, u: int): (b: seq<int>)
    ensures |b| == |a| / 2
  {
    if |a| < 2 then [] else [(1 - u) * a[0] + u * a[1]] + FoldOnce(a[2..], u)
  }

  /** The l-th fold A_l. */
  ghost function Fold(a: seq<int>, u: seq<int>, l: nat): (b: seq<int>)
    requires l <= |u|
  {
    if l == 0 then a else FoldOnce(Fold(a, u, l - 1), u[l - 1])
  }

  lemma {:induction false} FoldLength(a: seq<int>, u: seq<int>, n: nat, l: nat)
    requires l <= n <= |u| && |a| == M.Pow2(n)
    ensures |Fold(a, u, l)| == M.Pow2(n - l)
  {
    if l > 0 { FoldLength(a, u, n, l - 1); }
  }

  /** a(x) = even(x^2) + x * odd(x^2). */
  lemma {:induction false} EvenOdd(a: seq<int>, x: int, y: int)
    requires y == x * x
    ensures Eval(a, x) == Eval(Even(a), y) + x * Eval(Odd(a), y)
  {
    if |a| == 1 {
      assert Eval(a[1..], x) == 0 == Eval(a[1..], y) == Eval([], y);
    } else if |a| >= 2 {
      var b := a[2..];
      EvenOdd(b, x, y);
      assert a[1..][1..] == b;
      assert Eval(a, x) == a[0] + x * (a[1] + x * Eval(b, x));
      assert Even(a)[1..] == Even(b) && Odd(a)[1..] == Odd(b);
      EvenOddTerm(a[0], a[1], x, y, Eval(Even(b), y), Eval(Odd(b), y));
    }
  }

  lemma EvenOddTerm(a0: int, a1: int, x: int, y: int, e: int, o: int)
    requires y == x * x
    ensures a0 + x * (a1 + x * (e + x * o)) == (a0 + y * e) + x * (a1 + y * o)
  {
    assert x * (x * (e + x * o)) == y * e + x * (y * o);
  }

  lemma {:induction false} FoldEval(a: seq<int>, u: int, y: int)
    requires |a| % 2 == 0
    ensures Eval(FoldOnce(a, u), y) == (1 - u) * Eval(Even(a), y) + u * Eval(Odd(a), y)
  {
    if a != [] {
      var b := a[2..];
      FoldEval(b, u, y);
      assert FoldOnce(a, u)[1..] == FoldOnce(b, u) && Even(a)[1..] == Even(b) && Odd(a)[1..] == Odd(b);
      FoldEvalTerm(1 - u, u, a[0], a[1], y, Eval(Even(b), y), Eval(Odd(b), y));
    }
  }

  lemma FoldEvalTerm(m: int, u: int, a0: int, a1: int, y: int, e: int, o: int)
    ensures (m * a0 + u * a1) + y * (m * e + u * o) == m * (a0 + y * e) + u * (a1 + y * o)
  {
    assert y * (m * e) == m * (y * e);
    assert y * (u * o) == u * (y * o);
  }

  /** The value at -x, together with the value of the next fold at x^2, determines the value at x. */
  lemma FoldIdentity(a: seq<int>, u: int, x: int)
    requires |a| % 2 == 0
    ensures (x * (1 - u) + u) * Eval(a, x) ==
            (x * Eval(FoldOnce(a, u), x * x)) * 2 - Eval(a, -x) * (x * (1 - u) - u)
  {
    var y := x * x;
    assert (-x) * (-x) == y;
    EvenOdd(a, x, y);
    EvenOdd(a, -x, y);
    FoldEval(a, u, y);
    FoldTerm(x, 1 - u, u, Eval(Even(a), y), Eval(Odd(a), y));
  }

  lemma FoldTerm(x: int, m: int, u: int, e: int, o: int)
    ensures (x * m + u) * (e + x * o) == (x * (m * e + u * o)) * 2 - (e + (-x) * o) * (x * m - u)
  {
    var w := x * m;
    assert x * (m * e + u * o) == w * e + u * (x * o) by {
      assert x * (m * e) == w * e;
      assert x * (u * o) == u * (x * o);
    }
    FoldTermLinear(w, u, e, x * o);
    assert (-x) * o == -(x * o);
  }

  lemma FoldTermLinear(w: int, u: int, e: int, z: int)
    ensures (w + u) * (e + z) == (w * e + u * z) * 2 - (e - z) * (w - u)
  {}

  /** The multilinear evaluation: the sum over k < m of a_k * eq(k; u). */
  ghost function MultilinearSum(a: seq<int>, u: seq<int>, n: nat, m: nat): int
    requires n <= |u| && m <= |a|
  {
    if m == 0 then 0 else MultilinearSum(a, u, n, m - 1) + a[m - 1] * M.Eq(m - 1, u, n)
  }

  lemma {:induction false} FoldAt(a: seq<int>, u: int, k: nat)
    requires 2 * k + 1 < |a|
    ensures FoldOnce(a, u)[k] == (1 - u) * a[2 * k] + u * a[2 * k + 1]
  {
    if k > 0 { FoldAt(a[2..], u, k - 1); }
  }

  /** Folding the first variable away keeps the multilinear evaluation. */
  lemma {:induction false} FoldKeepsSum(a: seq<int>, u: seq<int>, n: nat, m: nat)
    requires 1 <= n <= |u| && 2 * m <= |a|
    ensures MultilinearSum(a, u, n, 2 * m) == MultilinearSum(FoldOnce(a, u[0]), u[1..], n - 1, m)
  {
    if m > 0 {
      FoldKeepsSum(a, u, n, m - 1);
      FoldAt(a, u[0], m - 1);
      M.EqFront(m - 1, 0, u, n);
      M.EqFront(m - 1, 1, u, n);
      PairTerm(a[2 * m - 2], a[2 * m - 1], u[0], M.Eq(m - 1, u[1..], n - 1));
      assert MultilinearSum(a, u, n, 2 * m - 1) ==
             MultilinearSum(a, u, n, 2 * m - 2) + a[2 * m - 2] * M.Eq(2 * m - 2, u, n);
    }
  }

  lemma PairTerm(a0: int, a1: int, u: int, e: int)
    ensures a0 * ((1 - u) * e) + a1 * (u * e) == ((1 - u) * a0 + u * a1) * e
  {}

  lemma {:induction false} FoldShift(a: seq<int>, u: seq<int>, l: nat)
    requires 1 <= l <= |u|
    ensures Fold(a, u, l) == Fold(FoldOnce(a, u[0]), u[1..], l - 1)
  {
    if l > 1 {
      FoldShift(a, u, l - 1);
      assert u[1..][l - 2] == u[l - 1];
    } else {
      assert Fold(a, u, 0) == a;
    }
  }

  /** The last fold is the multilinear evaluation at u. */
  lemma {:induction false} LastFold(a: seq<int>, u: seq<int>, n: nat)
    requires n <= |u| && |a| == M.Pow2(n)
    ensures |Fold(a, u, n)| == 1 && Fold(a, u, n)[0] == MultilinearSum(a, u, n, M.Pow2(n))
    decreases n
  {
    if n == 0 {
      assert MultilinearSum(a, u, 0, 1) == MultilinearSum(a, u, 0, 0) + a[0] * M.Eq(0, u, 0);
    } else {
      FoldShift(a, u, n);
      LastFold(FoldOnce(a, u[0]), u[1..], n - 1);
      FoldKeepsSum(a, u, n, M.Pow2(n - 1));
    }
  }

  // ----- Exactness -----

  lemma NumeratorAndDenominator(power: Fr, u: Fr, next: Fr, negative: Fr, x: int, c: int, next': int, neg': int)
    requires Cong(power, x) && Cong(u, c) && Cong(next, next') && Cong(negative, neg')
    ensures Cong(FoldDenominator(power, u), x * (1 - c) + c)
    ensures Cong(FoldNumerator(power, u, next, negative), (x * next') * 2 - neg' * (x * (1 - c) - c))
  {
    CongRefl(1);
    CongRefl(2);
    CongSubOp(1, u, 1, c);
    CongMulOp(power, Sub(1, u), x, 1 - c);
    CongAddOp(Mul(power, Sub(1, u)), u, x * (1 - c), c);
    CongSubOp(Mul(power, Sub(1, u)), u, x * (1 - c), c);
    CongMulOp(negative, Sub(Mul(power, Sub(1, u)), u), neg', x * (1 - c) - c);
    CongMulOp(power, next, x, next');
    CongMulOp(Mul(power, next), 2, x * next', 2);
    CongSubOp(Mul(Mul(power, next), 2), Mul(negative, Sub(Mul(power, Sub(1, u)), u)),
              (x * next') * 2, neg' * (x * (1 - c) - c));
  }

  lemma DivideOut(num: int, den: int, inv: int, num': int, den': int, value: int)
    requires Cong(num, num') && Cong(den, den') && Cong(den * inv, 1) && den' * value == num'
    ensures Cong(num * inv, value)
  {
    CongRefl(inv);
    CongMul(num, num', inv, inv);
    InverseOfCongruent(den, den', inv);
    CongRefl(value);
    CongMul(den' * inv, 1, value, value);
    assert num' * inv == (den' * inv) * value;
    CongTrans(num * inv, num' * inv, value);
  }

  /** The point at which fold l is opened. */
  ghost function Point(r: Fr, l: nat): int { M.Power(r, M.Pow2(l)) }

  /** The prover sent the value of every fold at its negative point. */
  ghost predicate HonestNegatives(a: seq<int>, u: seq<Fr>, r: Fr, negatives: seq<Fr>, n: nat)
    requires n <= |u| && n <= |negatives|
  {
    forall l: nat | l < n :: negatives[l] == Red(Eval(Fold(a, u, l), -Point(r, l)))
  }

  /** One step down: if the next fold is known at its point, this fold is reconstructed at its own. */
  lemma ReconstructOne(a: seq<int>, u: Fr, x: int, power: Fr, next: Fr, negative: Fr)
    requires PrimeField() && |a| % 2 == 0
    requires Cong(power, x) && Cong(next, Eval(FoldOnce(a, u), x * x)) && Cong(negative, Eval(a, -x))
    requires FoldDenominator(power, u) != 0
    ensures Mul(FoldNumerator(power, u, next, negative), Invert(FoldDenominator(power, u))) == Red(Eval(a, x))
  {
    var c: int := u;
    var num, den := FoldNumerator(power, u, next, negative), FoldDenominator(power, u);
    var num', den' := (x * Eval(FoldOnce(a, c), x * x)) * 2 - Eval(a, -x) * (x * (1 - c) - c), x * (1 - c) + c;
    CongRefl(c);
    NumeratorAndDenominator(power, u, next, negative, x, c, Eval(FoldOnce(a, c), x * x), Eval(a, -x));
    FoldIdentity(a, c, x);
    QuotientValue(num, den, num', den', Eval(a, x));
  }

  lemma QuotientValue(num: Fr, den: Fr, num': int, den': int, value: int)
    requires PrimeField() && den != 0
    requires Cong(num, num') && Cong(den, den') && den' * value == num'
    ensures Mul(num, Invert(den)) == Red(value)
  {
    var inv := Invert(den);
    InvertCong(den);
    DivideOut(num, den, inv, num', den', value);
    ProductCong(num, inv);
    hide Mul;
    CongTrans(Mul(num, inv), num * inv, value);
    RedOfCong(Mul(num, inv), value);
  }

  ghost predicate NoZeroDenominator(u: seq<Fr>, powers: seq<Fr>, i: nat, n: nat)
    requires n <= |u| && n <= |powers|
  {
    forall l: nat | i <= l < n :: FoldDenominator(powers[l], u[l]) != 0
  }

  /** The values are A_l(r^(2^l)) for the folds l = i, ..., n - 1. */
  ghost predicate Reconstructed(a: seq<int>, u: seq<Fr>, r: Fr, values: seq<Fr>, i: nat, n: nat)
    requires i <= n <= |u|
  {
    |values| == n - i &&
    forall l: nat | i <= l < n :: values[l - i] == Red(Eval(Fold(a, u, l), Point(r, l)))
  }

  ghost predicate HonestInputs(a: seq<int>, u: seq<Fr>, r: Fr, start: Fr, negatives: seq<Fr>, powers: seq<Fr>, n: nat)
  {
    n <= |u| && n <= |negatives| && n <= |powers| && |a| == M.Pow2(n) &&
    RepeatedSquares(powers, r, n) &&
    HonestNegatives(a, u, r, negatives, n) &&
    start == Red(MultilinearSum(a, u, n, M.Pow2(n)))
  }

  /** Reconstruction is exact: on honest inputs and the true multilinear evaluation, the loop returns A_l(r^(2^l)) for
      every l, and it returns at all exactly when no denominator is zero. */
  lemma {:induction false} FoldReconstructionExact(a: seq<int>, u: seq<Fr>, r: Fr, start: Fr, negatives: seq<Fr>,
                                                   powers: seq<Fr>, n: nat, i: nat)
    requires PrimeField() && HonestInputs(a, u, r, start, negatives, powers, n) && i <= n
    ensures var v := PositiveValues(u, start, negatives, powers, n, i);
            (v.Value? <==> NoZeroDenominator(u, powers, i, n)) &&
            (v.Value? ==> Reconstructed(a, u, r, v.value, i, n))
    decreases n - i
  {
    if i < n {
      FoldReconstructionExact(a, u, r, start, negatives, powers, n, i + 1);
      var rest := PositiveValues(u, start, negatives, powers, n, i + 1);
      hide HonestInputs, FoldNumerator;
      if rest.Value? && FoldDenominator(powers[i], u[i]) != 0 {
        var next := if i + 1 == n then start else rest.value[0];
        StepDown(a, u, r, start, negatives, powers, n, i, next);
        hide FoldDenominator, Fold, Eval, Point, Mul;
        Prepend(a, u, r, rest.value, i, n, PositiveValues(u, start, negatives, powers, n, i).value[0]);
      }
    }
  }

  lemma Prepend(a: seq<int>, u: seq<Fr>, r: Fr, values: seq<Fr>, i: nat, n: nat, x: Fr)
    requires i < n <= |u| && Reconstructed(a, u, r, values, i + 1, n)
    requires x == Red(Eval(Fold(a, u, i), Point(r, i)))
    ensures Reconstructed(a, u, r, [x] + values, i, n)
  {
    forall l: nat | i <= l < n
      ensures ([x] + values)[l - i] == Red(Eval(Fold(a, u, l), Point(r, l)))
    {
      if l > i { assert ([x] + values)[l - i] == values[l - (i + 1)]; }
    }
  }

  lemma StepDown(a: seq<int>, u: seq<Fr>, r: Fr, start: Fr, negatives: seq<Fr>, powers: seq<Fr>, n: nat, i: nat,
                 next: Fr)
    requires PrimeField() && HonestInputs(a, u, r, start, negatives, powers, n) && i < n
    requires FoldDenominator(powers[i], u[i]) != 0
    requires i + 1 == n ==> next == start
    requires i + 1 < n ==> next == Red(Eval(Fold(a, u, i + 1), Point(r, i + 1)))
    ensures Mul(FoldNumerator(powers[i], u[i], next, negatives[i]), Invert(FoldDenominator(powers[i], u[i]))) ==
            Red(Eval(Fold(a, u, i), Point(r, i)))
  {
    NextValue(a, u, r, start, n, i, next);
    FoldLength(a, u, n, i);
    GateIsPower(powers, r, n, i);
    PointSquares(r, i);
    CongRed(Eval(Fold(a, u, i), -Point(r, i)));
    ReconstructOne(Fold(a, u, i), u[i], Point(r, i), powers[i], next, negatives[i]);
  }

  lemma PointSquares(r: Fr, l: nat)
    ensures Point(r, l + 1) == Point(r, l) * Point(r, l)
  {
    M.PowerAdd(r, M.Pow2(l), M.Pow2(l));
  }

  lemma NextValue(a: seq<int>, u: seq<Fr>, r: Fr, start: Fr, n: nat, i: nat, next: Fr)
    requires i < n <= |u| && |a| == M.Pow2(n)
    requires start == Red(MultilinearSum(a, u, n, M.Pow2(n)))
    requires i + 1 == n ==> next == start
    requires i + 1 < n ==> next == Red(Eval(Fold(a, u, i + 1), Point(r, i + 1)))
    ensures Cong(next, Eval(FoldOnce(Fold(a, u, i), u[i]), Point(r, i + 1)))
  {
    var b, x := Fold(a, u, i + 1), Point(r, i + 1);
    if i + 1 == n {
      LastFold(a, u, n);
      assert Eval(b, x) == b[0] + x * Eval(b[1..], x) == b[0];
    }
    CongRed(Eval(b, x));
  }
}
