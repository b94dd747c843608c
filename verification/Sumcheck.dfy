/** The sumcheck verifier of the generated contract: barycentric extrapolation of a round univariate, the round
    loop, and what acceptance of the loop means for the claimed sum. */
module Sumcheck {
  import opened Field
  import opened Polynomials
  import M = Multilinear

  datatype Error = SumcheckFailed | InvertOfZero

  datatype Result<+T> = Value(value: T) | Revert(error: Error)

  /** Number of evaluations sent per round: f(0), ..., f(8). */
  const LENGTH := 9

  type Univariate = v: seq<Fr> | |v| == LENGTH witness [0, 0, 0, 0, 0, 0, 0, 0, 0]

  /** The hard-coded barycentric denominators. */
  const DENOMINATORS: seq<int> := [
    0x9d80,
    0x30644e72e131a029b85045b68181585d2833e84879b9709143e1f593efffec51,
    0x5a0,
    0x30644e72e131a029b85045b68181585d2833e84879b9709143e1f593effffd31,
    0x240,
    0x30644e72e131a029b85045b68181585d2833e84879b9709143e1f593effffd31,
    0x5a0,
    0x30644e72e131a029b85045b68181585d2833e84879b9709143e1f593efffec51,
    0x9d80
  ]

  /** Each constant is the product of i - j over the other nodes j. */
  ghost predicate Constants() {
    forall i: nat | i < LENGTH :: Cong(DENOMINATORS[i], Others(i, i, LENGTH))
  }

  lemma NodeProducts()
    ensures Others(0, 0, 9) == 40320 && Others(1, 1, 9) == -5040 && Others(2, 2, 9) == 1440
    ensures Others(3, 3, 9) == -720 && Others(4, 4, 9) == 576 && Others(5, 5, 9) == -720
    ensures Others(6, 6, 9) == 1440 && Others(7, 7, 9) == -5040 && Others(8, 8, 9) == 40320
  {}

  /** The constants are right for the modulus written into the contract. */
  lemma Bn254Constants()
    requires Bn254()
    ensures Constants()
  {
    NodeProducts();
    forall i: nat | i < LENGTH
      ensures Cong(DENOMINATORS[i], Others(i, i, LENGTH))
    {
      CongIntro(DENOMINATORS[i], Others(i, i, LENGTH), if i % 2 == 0 then 0 else 1);
    }
  }

  /** What the proofs need of the modulus; it follows from Bn254 and the primality of P. */
  ghost predicate ScalarField() { PrimeField() && Constants() }

  lemma Bn254ScalarField()
    requires Bn254() && IsPrime(P)
    ensures ScalarField()
  {
    Bn254Constants();
    PrimeModulusIsField();
  }

  // ----- Barycentric extrapolation -----

  function Denominator(u: Fr, i: nat): Fr
    requires i < LENGTH
  {
    Mul(Red(DENOMINATORS[i]), Sub(u, i))
  }

  lemma Factorial8()
    ensures Factorial(8) == 40320
  {
    assert Factorial(4) == 24;
    assert Factorial(6) == 720;
  }

  lemma FactorialInvertible() returns (inv: Fr)
    requires PrimeField()
    ensures Cong(Factorial(8) * inv, 1)
  {
    Factorial8();
    var f: Fr := 40320;
    inv := Invert(f);
    InvertCong(f);
  }

  /** No constant is zero, because 8! is a multiple of each. */
  lemma ConstantInvertible(i: nat)
    requires ScalarField() && i < LENGTH
    ensures HasInverse(Red(DENOMINATORS[i]))
  {
    var d := Red(DENOMINATORS[i]);
    if d == 0 {
      var o, w := Others(i, i, LENGTH), Weight(8, i);
      CongRed(DENOMINATORS[i]);
      CongSym(DENOMINATORS[i], o);
      CongTrans(o, DENOMINATORS[i], 0);
      CongRefl(w);
      CongMul(w, w, o, 0);
      NodeWeight(8, i);
      Factorial8();
      CongEq(40320, 0);
      assert false;
    }
  }

  lemma SubZero(u: Fr, i: nat)
    requires i < LENGTH
    ensures Sub(u, i) == 0 <==> u == i
    ensures Cong(Sub(u, i), u - i)
  {
    CongRefl(u);
    CongRefl(i);
    CongSubOp(u, i, u, i);
    RedEq(u + (P - i), 0);
    RedSmall(0);
    if u == i { CongIntro(u + (P - i), 0, 1); }
    if Sub(u, i) == 0 {
      CongSym(Sub(u, i), u - i);
      CongAdd(u - i, 0, i, i);
      CongEq(u, i);
    }
  }

  /** The contract reverts on the nodes 0, ..., 8 and nowhere else. */
  lemma DenominatorInvertible(u: Fr, i: nat)
    requires ScalarField() && i < LENGTH
    ensures Denominator(u, i) == 0 <==> u == i
    ensures u != i ==> HasInverse(Denominator(u, i))
  {
    SubZero(u, i);
    ConstantInvertible(i);
    if u == i {
      MulZeroRight(Red(DENOMINATORS[i]));
    } else {
      ProductInvertible(Red(DENOMINATORS[i]), Sub(u, i));
    }
  }

  lemma MulZeroRight(x: Fr)
    ensures Mul(x, 0) == 0
  {
    RedSmall(0);
  }

  /** B(u), the product of u - i over i < n. */
  function Numerator(u: Fr, n: nat): Fr
    requires n <= LENGTH
  {
    if n == 0 then 1 else Mul(Numerator(u, n - 1), Sub(u, n - 1))
  }

  function WeightedSum(v: Univariate, u: Fr, n: nat): Fr
    requires ScalarField() && n <= LENGTH && u >= LENGTH
  {
    if n == 0 then 0
    else
      DenominatorInvertible(u, n - 1);
      Add(WeightedSum(v, u, n - 1), Mul(v[n - 1], Invert(Denominator(u, n - 1))))
  }

  function NextTarget(v: Univariate, u: Fr): Fr
    requires ScalarField() && u >= LENGTH
  {
    Mul(WeightedSum(v, u, LENGTH), Numerator(u, LENGTH))
  }

  method ComputeNextTargetSum(v: Univariate, u: Fr) returns (r: Result<Fr>)
    requires ScalarField()
    ensures r == if u < LENGTH then Revert(InvertOfZero) else Value(NextTarget(v, u))
  {
    var numerator: Fr := 1;
    for i := 0 to LENGTH
      invariant numerator == Numerator(u, i)
    {
      numerator := Mul(numerator, Sub(u, i));
    }
    var inverses := new Fr[LENGTH](_ => 0);
    for i := 0 to LENGTH
      invariant u >= i
      invariant forall j: nat | j < i ::
          HasInverse(Denominator(u, j)) && inverses[j] == Invert(Denominator(u, j))
    {
      DenominatorInvertible(u, i);
      var d := Denominator(u, i);
      if d == 0 {
        return Revert(InvertOfZero);
      }
      inverses[i] := Invert(d);
    }
    var sum: Fr := 0;
    for i := 0 to LENGTH
      invariant sum == WeightedSum(v, u, i)
    {
      sum := Add(sum, Mul(v[i], inverses[i]));
    }
    return Value(Mul(sum, numerator));
  }

  // ----- The extrapolation is exact -----

  lemma {:induction false} NumeratorCong(u: Fr, n: nat)
    requires n <= LENGTH
    ensures Cong(Numerator(u, n), AllNodes(u, n))
  {
    if n == 0 {
      CongRefl(1);
    } else {
      NumeratorCong(u, n - 1);
      SubZero(u, n - 1);
      CongMulOp(Numerator(u, n - 1), Sub(u, n - 1), AllNodes(u, n - 1), u - (n - 1));
    }
  }

  lemma DenominatorCong(u: Fr, i: nat)
    requires ScalarField() && i < LENGTH && u >= LENGTH
    ensures HasInverse(Denominator(u, i))
    ensures Cong((Others(i, i, LENGTH) * (u - i)) * Invert(Denominator(u, i)), 1)
  {
    DenominatorInvertible(u, i);
    var d := Denominator(u, i);
    SubZero(u, i);
    CongRed(DENOMINATORS[i]);
    CongTrans(Red(DENOMINATORS[i]), DENOMINATORS[i], Others(i, i, LENGTH));
    CongMulOp(Red(DENOMINATORS[i]), Sub(u, i), Others(i, i, LENGTH), u - i);
    InvertCong(d);
    InverseOfCongruent(d, Others(i, i, LENGTH) * (u - i), Invert(d));
  }

  lemma InverseOfCongruent(d: int, e: int, inv: int)
    requires Cong(d, e) && Cong(d * inv, 1)
    ensures Cong(e * inv, 1)
  {
    CongSym(d, e);
    CongRefl(inv);
    CongMul(e, d, inv, inv);
    CongTrans(e * inv, d * inv, 1);
  }

  /** One term of the barycentric sum, scaled by 8! * B(u), is one term of the exact interpolation sum. */
  lemma TermCong(w: int, o: int, d: int, x: int, v: int, inv: int, f: int)
    requires Cong((d * x) * inv, 1) && Cong(v, f)
    ensures Cong(((w * d) * (x * o)) * (v * inv), (w * o) * f)
  {
    TermRearranged(w, o, d, x, v, inv);
    CongRefl(w * o);
    CongMul(w * o, w * o, v, f);
    CongMul((w * o) * v, (w * o) * f, (d * x) * inv, 1);
  }

  lemma TermRearranged(w: int, o: int, d: int, x: int, v: int, inv: int)
    ensures ((w * d) * (x * o)) * (v * inv) == ((w * o) * v) * ((d * x) * inv)
  {
    assert (w * d) * (x * o) == (w * o) * (d * x);
    Exchange(w * o, d * x, v, inv);
  }

  lemma Exchange(a: int, b: int, c: int, d: int)
    ensures (a * b) * (c * d) == (a * c) * (b * d)
  {}

  lemma NodeTermCong(v: Fr, u: Fr, i: nat)
    requires ScalarField() && i < LENGTH && u >= LENGTH
    ensures HasInverse(Denominator(u, i))
    ensures Cong((Factorial(8) * AllNodes(u, LENGTH)) * Mul(v, Invert(Denominator(u, i))),
                 (Weight(8, i) * Others(u, i, LENGTH)) * v)
  {
    DenominatorCong(u, i);
    NodeWeight(8, i);
    OthersTimesNode(u, i, LENGTH);
    CongRefl(v);
    var inv, o := Invert(Denominator(u, i)), Others(u, i, LENGTH);
    TermCong(Weight(8, i), o, Others(i, i, LENGTH), u - i, v, inv, v);
    ProductCong(v, inv);
    ScaledCong(Factorial(8) * AllNodes(u, LENGTH), Mul(v, inv), v * inv, (Weight(8, i) * o) * v);
  }

  lemma ProductCong(x: Fr, y: Fr)
    ensures Cong(Mul(x, y), x * y)
  {
    CongRefl(x);
    CongRefl(y);
    CongMulOp(x, y, x, y);
  }

  lemma SumCong(x: Fr, y: Fr)
    ensures Cong(Add(x, y), x + y)
  {
    CongRefl(x);
    CongRefl(y);
    CongAddOp(x, y, x, y);
  }

  lemma ScaledCong(k: int, t: int, t': int, b: int)
    requires Cong(t, t') && Cong(k * t', b)
    ensures Cong(k * t, b)
  {
    CongRefl(k);
    CongMul(k, k, t, t');
    CongTrans(k * t, k * t', b);
  }

  lemma {:induction false} WeightedSumCong(v: Univariate, u: Fr, n: nat, k: int)
    requires ScalarField() && n <= LENGTH && u >= LENGTH
    requires k == Factorial(8) * AllNodes(u, LENGTH)
    ensures Cong(k * WeightedSum(v, u, n), ValueSum(v, 8, n, u))
  {
    if n == 0 {
      CongRefl(0);
    } else {
      var i := n - 1;
      WeightedSumCong(v, u, i, k);
      WeightedSumStep(v, u, i, k, WeightedSum(v, u, i), ValueSum(v, 8, i, u));
    }
  }

  lemma WeightedSumStep(v: Univariate, u: Fr, i: nat, k: int, s: Fr, a: int)
    requires ScalarField() && i < LENGTH && u >= LENGTH
    requires k == Factorial(8) * AllNodes(u, LENGTH)
    requires s == WeightedSum(v, u, i) && a == ValueSum(v, 8, i, u)
    requires Cong(k * s, a)
    ensures Cong(k * WeightedSum(v, u, i + 1), ValueSum(v, 8, i + 1, u))
  {
    hide Mul, Add, Cong, AllNodes, Factorial, Weight, Others, Denominator;
    NodeTermCong(v[i], u, i);
    var t := Mul(v[i], Invert(Denominator(u, i)));
    SumCong(s, t);
    AddTerm(k, s, t, Add(s, t), a, (Weight(8, i) * Others(u, i, LENGTH)) * v[i]);
  }

  lemma AddTerm(k: int, s: int, t: int, s': int, a: int, b: int)
    requires Cong(s', s + t) && Cong(k * s, a) && Cong(k * t, b)
    ensures Cong(k * s', a + b)
  {
    assert k * (s + t) == k * s + k * t;
    CongAdd(k * s, a, k * t, b);
    ScaledCong(k, s', s + t, a + b);
  }

  /** Scaled by 8!, the barycentric formula is the exact interpolation sum. */
  lemma NextTargetCong(v: Univariate, u: Fr)
    requires ScalarField() && u >= LENGTH
    ensures Cong(Factorial(8) * NextTarget(v, u), ValueSum(v, 8, LENGTH, u))
  {
    var s, b := WeightedSum(v, u, LENGTH), AllNodes(u, LENGTH);
    WeightedSumCong(v, u, LENGTH, Factorial(8) * b);
    NumeratorCong(u, LENGTH);
    CongRefl(s);
    CongMulOp(s, Numerator(u, LENGTH), s, b);
    RegroupScale(Factorial(8), b, s, NextTarget(v, u), ValueSum(v, 8, LENGTH, u));
  }

  lemma RegroupScale(f: int, b: int, s: int, t: int, e: int)
    requires Cong(t, s * b) && Cong((f * b) * s, e)
    ensures Cong(f * t, e)
  {
    assert f * (s * b) == (f * b) * s;
    ScaledCong(f, t, s * b, e);
  }

  lemma {:induction false} ValueSumCong(v: seq<int>, w: seq<int>, n: nat, k: nat, u: int)
    requires k <= |v| && k <= |w|
    requires forall i: nat | i < k :: Cong(v[i], w[i])
    ensures Cong(ValueSum(v, n, k, u), ValueSum(w, n, k, u))
  {
    if k == 0 {
      CongRefl(0);
    } else {
      ValueSumCong(v, w, n, k - 1, u);
      var x := Weight(n, k - 1) * Others(u, k - 1, n + 1);
      CongRefl(x);
      CongMul(x, x, v[k - 1], w[k - 1]);
      CongAdd(ValueSum(v, n, k - 1, u), ValueSum(w, n, k - 1, u), x * v[k - 1], x * w[k - 1]);
    }
  }

  /** Feeding f(0), ..., f(8) of any polynomial of degree at most eight returns f(u). */
  lemma NextTargetExtrapolates(c: seq<int>, v: Univariate, u: Fr)
    requires ScalarField() && u >= LENGTH
    requires |c| <= LENGTH
    requires forall i: nat | i < LENGTH :: v[i] == Red(Eval(c, i))
    ensures NextTarget(v, u) == Red(Eval(c, u))
  {
    var t, e, f := NextTarget(v, u), Eval(c, u), Factorial(8);
    forall i: nat | i < LENGTH
      ensures Cong(v[i], Values(c, LENGTH)[i])
    {
      CongRed(Eval(c, i));
    }
    ValueSumCong(v, Values(c, LENGTH), 8, LENGTH, u);
    Lagrange(c, 8, u);
    NextTargetCong(v, u);
    CongTrans(f * t, ValueSum(v, 8, LENGTH, u), f * e);
    var inv := FactorialInvertible();
    CongCancel(f, inv, t, e);
    RedEq(t, e);
    RedSmall(t);
  }

  // ----- A wrong univariate agrees with the right one at eight points at most -----

  lemma InverseCancels(d: int, inv: int, x: int)
    requires Cong(d * inv, 1) && Cong(d * x, 0)
    ensures Cong(x, 0)
  {
    assert d * 0 == 0;
    CongCancel(d, inv, x, 0);
  }

  lemma DifferenceInvertible(x: Fr, a: Fr) returns (inv: Fr)
    requires PrimeField() && x != a
    ensures Cong((x - a) * inv, 1)
  {
    var d := Sub(x, a);
    CongRefl(x);
    CongRefl(a);
    CongSubOp(x, a, x, a);
    if d == 0 {
      CongSym(d, x - a);
      CongAdd(x - a, 0, a, a);
      CongEq(x, a);
    }
    inv := Invert(d);
    InvertCong(d);
    InverseOfCongruent(d, x - a, inv);
  }

  /** A polynomial that is not zero everywhere has no more roots than its degree. */
  lemma {:induction false} RootBound(c: seq<int>, roots: set<Fr>, y: int)
    requires PrimeField()
    requires forall x: Fr | x in roots :: Cong(Eval(c, x), 0)
    requires !Cong(Eval(c, y), 0)
    ensures c != [] && |roots| <= |c| - 1
    decreases |c|
  {
    if c == [] {
      CongRefl(0);
      assert false;
    }
    if a :| a in roots {
      var q := Quotient(c, a);
      var rest := roots - {a};
      forall x: Fr | x in rest
        ensures Cong(Eval(q, x), 0)
      {
        FactorTheorem(c, a, x);
        CongAdd(Eval(c, x), 0, Eval(c, a), 0);
        var inv := DifferenceInvertible(x, a);
        InverseCancels(x - a, inv, Eval(q, x));
      }
      FactorTheorem(c, a, y);
      if Cong(Eval(q, y), 0) {
        CongRefl(y - a);
        CongMul(y - a, y - a, Eval(q, y), 0);
        CongAdd((y - a) * Eval(q, y), 0, Eval(c, a), 0);
      }
      RootBound(q, rest, y);
    }
  }

  ghost function DifferenceOf(v: Univariate, h: Univariate): (d: seq<int>)
    ensures |d| == LENGTH && forall i: nat | i < LENGTH :: d[i] == v[i] as int - h[i] as int
  {
    seq(LENGTH, (i: nat) requires i < LENGTH => v[i] as int - h[i] as int)
  }

  lemma {:induction false} ValueSumDifference(v: Univariate, h: Univariate, k: nat, u: int)
    requires k <= LENGTH
    ensures ValueSum(DifferenceOf(v, h), 8, k, u) == ValueSum(v, 8, k, u) - ValueSum(h, 8, k, u)
  {
    if k > 0 {
      ValueSumDifference(v, h, k - 1, u);
      hide Weight, Others;
      Distribute(Weight(8, k - 1) * Others(u, k - 1, LENGTH), v[k - 1], h[k - 1]);
    }
  }

  lemma Distribute(x: int, a: int, b: int)
    ensures x * (a - b) == x * a - x * b
  {}

  lemma AgreementIsRoot(v: Univariate, h: Univariate, u: Fr)
    requires ScalarField() && u >= LENGTH && NextTarget(v, u) == NextTarget(h, u)
    ensures Cong(Eval(ValuePoly(DifferenceOf(v, h), 8, LENGTH), u), 0)
  {
    EvalValuePoly(DifferenceOf(v, h), 8, LENGTH, u);
    ValueSumDifference(v, h, LENGTH, u);
    NextTargetCong(v, u);
    NextTargetCong(h, u);
    var t := Factorial(8) * NextTarget(v, u);
    CongSym(t, ValueSum(v, 8, LENGTH, u));
    CongSym(t, ValueSum(h, 8, LENGTH, u));
    CongAdd(ValueSum(v, 8, LENGTH, u), t, ValueSum(h, 8, LENGTH, u), t);
  }

  lemma DifferentAtNode(v: Univariate, h: Univariate, i: nat)
    requires PrimeField() && i < LENGTH && v[i] != h[i]
    ensures !Cong(Eval(ValuePoly(DifferenceOf(v, h), 8, LENGTH), i), 0)
  {
    var d := DifferenceOf(v, h);
    ScaledAtNode(d, i);
    NonzeroDifference(v[i], h[i]);
    var inv := FactorialInvertible();
    if Cong(Factorial(8) * d[i], 0) {
      InverseCancels(Factorial(8), inv, d[i]);
    }
  }

  lemma ScaledAtNode(d: seq<int>, i: nat)
    requires |d| == LENGTH && i < LENGTH
    ensures Eval(ValuePoly(d, 8, LENGTH), i) == Factorial(8) * d[i]
  {
    EvalValuePoly(d, 8, LENGTH, i);
    ValueSumAtNode(d, 8, i, LENGTH);
    NodeWeight(8, i);
  }

  lemma NonzeroDifference(x: Fr, y: Fr)
    requires x != y
    ensures !Cong(x as int - y as int, 0)
  {
    if Cong(x as int - y as int, 0) {
      CongRefl(y);
      CongAdd(x as int - y as int, 0, y, y);
      CongEq(x, y);
    }
  }

  /** Two different univariates extrapolate to the same value at no more than eight challenges. */
  lemma AgreementBound(v: Univariate, h: Univariate, challenges: set<Fr>)
    requires ScalarField() && v != h
    requires forall u: Fr | u in challenges :: u >= LENGTH && NextTarget(v, u) == NextTarget(h, u)
    ensures |challenges| <= LENGTH - 1
  {
    var c := ValuePoly(DifferenceOf(v, h), 8, LENGTH);
    forall u: Fr | u in challenges
      ensures Cong(Eval(c, u), 0)
    {
      AgreementIsRoot(v, h, u);
    }
    var i: nat :| i < LENGTH && v[i] != h[i];
    DifferentAtNode(v, h, i);
    RootBound(c, challenges, i);
  }
}
