/** The inversion of the contract: a call of the modular exponentiation precompile with the exponent P - 2. That it
    inverts is Fermat's little theorem, proved here for a prime modulus. */
module Fermat {
  import opened Field
  import opened Multilinear

  /** What the precompile returns for this base and exponent, modulo P. */
  ghost function ModExp(base: Fr, exponent: nat): Fr { Red(Power(base, exponent)) }

  // ----- Binomial coefficients -----

  ghost function Choose(n: nat, k: nat): nat {
    if k == 0 then 1 else if n == 0 then 0 else Choose(n - 1, k - 1) + Choose(n - 1, k)
  }

  lemma {:induction false} ChooseBeyond(n: nat, k: nat)
    requires k > n
    ensures Choose(n, k) == 0
  {
    if n > 0 {
      ChooseBeyond(n - 1, k - 1);
      ChooseBeyond(n - 1, k);
    }
  }

  lemma {:induction false} ChooseAll(n: nat)
    ensures Choose(n, n) == 1
  {
    if n > 0 {
      ChooseAll(n - 1);
      ChooseBeyond(n - 1, n);
    }
  }

  lemma {:induction false} Absorption(n: nat, k: nat)
    requires 1 <= k && 1 <= n
    ensures k * Choose(n, k) == n * Choose(n - 1, k - 1)
    decreases n
  {
    if n == 1 {
      if k > 1 { ChooseBeyond(1, k); }
    } else {
      Absorption(n - 1, k);
      if k > 1 { Absorption(n - 1, k - 1); }
      AbsorptionStep(n, k, Choose(n - 1, k - 1), Choose(n - 1, k), Choose(n - 2, k - 1),
                     if k > 1 then Choose(n - 2, k - 2) else 0);
    }
  }

  /** Pascal's rule for c(n, k) and for a = c(n - 1, k - 1), with the rule for n - 1 and k, and for n - 1 and k - 1. */
  lemma AbsorptionStep(n: nat, k: nat, a: nat, b: nat, p: nat, q: nat)
    requires n >= 2 && k >= 1 && k * b == (n - 1) * p && (k - 1) * a == (n - 1) * q
    requires a == if k > 1 then q + p else p
    requires k == 1 ==> q == 0
    ensures k * (a + b) == n * a
  {
    assert k * (a + b) == (k - 1) * a + a + k * b;
    assert (n - 1) * (q + p) == (n - 1) * q + (n - 1) * p;
    assert n * a == (n - 1) * a + a;
  }

  /** A prime divides its own inner binomial coefficients. */
  lemma InnerCoefficient(k: Fr)
    requires PrimeField() && k != 0
    ensures Cong(Choose(P, k), 0)
  {
    Absorption(P, k);
    CongIntro(k * Choose(P, k), k * 0, Choose(P - 1, k - 1));
    InvertCong(k);
    CongCancel(k, Invert(k), Choose(P, k), 0);
  }

  // ----- The binomial theorem -----

  ghost function BinomialSum(a: int, n: nat, m: nat): int {
    if m == 0 then 0 else BinomialSum(a, n, m - 1) + Choose(n, m - 1) * Power(a, m - 1)
  }

  lemma {:induction false} BinomialPascal(a: int, n: nat, m: nat)
    ensures BinomialSum(a, n + 1, m + 1) == BinomialSum(a, n, m + 1) + a * BinomialSum(a, n, m)
  {
    if m == 0 {
      assert BinomialSum(a, n + 1, 0) == 0 && BinomialSum(a, n, 0) == 0;
    } else {
      BinomialPascal(a, n, m - 1);
      PascalTerm(Choose(n, m - 1), Choose(n, m), Power(a, m - 1), a, BinomialSum(a, n, m - 1));
    }
  }

  lemma PascalTerm(c: int, d: int, p: int, a: int, sum: int)
    ensures (c + d) * (a * p) == d * (a * p) + a * (sum + c * p) - a * sum
  {}

  lemma NoTermBeyond(a: int, n: nat)
    ensures BinomialSum(a, n, n + 2) == BinomialSum(a, n, n + 1)
  {
    ChooseBeyond(n, n + 1);
    hide Choose, Power;
    ZeroTimes(Power(a, n + 1));
  }

  lemma ZeroTimes(x: int)
    ensures 0 * x == 0
  {}

  lemma {:induction false} Binomial(a: int, n: nat)
    ensures BinomialSum(a, n, n + 1) == Power(a + 1, n)
    decreases n, 1
  {
    if n == 0 {
      assert BinomialSum(a, 0, 0) == 0;
    } else {
      BinomialStep(a, n);
    }
  }

  lemma {:induction false} BinomialStep(a: int, n: nat)
    requires n > 0
    ensures BinomialSum(a, n, n + 1) == Power(a + 1, n)
    decreases n, 0
  {
    hide BinomialSum, Power;
    Binomial(a, n - 1);
    BinomialPascal(a, n - 1, n);
    NoTermBeyond(a, n - 1);
    PowerStep(a, n);
  }

  lemma PowerStep(a: int, n: nat)
    requires n > 0
    ensures Power(a + 1, n) == Power(a + 1, n - 1) + a * Power(a + 1, n - 1)
  {}

  // ----- Fermat -----

  lemma {:induction false} InnerSum(a: int, m: nat)
    requires PrimeField() && 1 <= m <= P
    ensures Cong(BinomialSum(a, P, m), 1)
  {
    if m == 1 {
      assert BinomialSum(a, P, 0) == 0 && BinomialSum(a, P, 1) == 0 + Choose(P, 0) * Power(a, 0);
      CongRefl(1);
    } else {
      InnerSum(a, m - 1);
      InnerCoefficient(m - 1);
      CongRefl(Power(a, m - 1));
      CongMul(Choose(P, m - 1), 0, Power(a, m - 1), Power(a, m - 1));
      CongAdd(BinomialSum(a, P, m - 1), 1, Choose(P, m - 1) * Power(a, m - 1), 0 * Power(a, m - 1));
    }
  }

  /** Raising to the power P is additive, modulo P. */
  lemma PowerOfSuccessor(a: int)
    requires PrimeField()
    ensures Cong(Power(a + 1, P), Power(a, P) + 1)
  {
    Binomial(a, P);
    InnerSum(a, P);
    ChooseAll(P);
    CongRefl(Power(a, P));
    assert BinomialSum(a, P, P + 1) == BinomialSum(a, P, P) + 1 * Power(a, P);
    CongAdd(BinomialSum(a, P, P), 1, Power(a, P), Power(a, P));
  }

  lemma {:induction false} LittleTheorem(a: nat)
    requires PrimeField()
    ensures Cong(Power(a, P), a)
  {
    if a == 0 {
      assert Power(0, P) == 0 * Power(0, P - 1);
      CongRefl(0);
    } else {
      LittleTheorem(a - 1);
      PowerOfSuccessor(a - 1);
      CongRefl(1);
      CongAdd(Power(a - 1, P), a - 1, 1, 1);
      CongTrans(Power(a, P), Power(a - 1, P) + 1, a);
    }
  }

  /** The call the contract makes returns the inverse, for every value it does not revert on. */
  lemma InvertIsModExp(v: Fr)
    requires PrimeField() && v != 0
    ensures HasInverse(v) && Invert(v) == ModExp(v, P - 2)
  {
    var w := Power(v, P - 2);
    LittleTheorem(v);
    assert Power(v, P) == v * Power(v, P - 1) && Power(v, P - 1) == v * w;
    InvertCong(v);
    CongCancel(v, Invert(v), v * w, 1);
    CongRed(w);
    CongRefl(v);
    CongMul(v, v, Red(w), w);
    CongTrans(v * Red(w), v * w, 1);
    MulOneCong(v, Red(w));
    InverseUnique(v, Invert(v), Red(w));
  }
}
