/** The round loop of the sumcheck verifier, its running products, and what acceptance means: an honest prover is
    accepted, and a wrong claim survives only through a round whose univariate is wrong yet agrees with the honest
    one at the challenge. */
module SumcheckRounds {
  import opened Field
  import opened Polynomials
  import opened Sumcheck
  import M = Multilinear
  import O = Options

  // ----- The verifier -----

  /** The target sum after n rounds, or the revert that stopped them. */
  function RoundTarget(univariates: seq<Univariate>, u: seq<Fr>, start: Fr, n: nat): Result<Fr>
    requires ScalarField() && n <= |univariates| && n <= |u|
  {
    if n == 0 then Value(start)
    else
      match RoundTarget(univariates, u, start, n - 1)
      case Revert(e) => Revert(e)
      case Value(target) =>
        var v := univariates[n - 1];
        if Add(v[0], v[1]) != target then Revert(SumcheckFailed)
        else if u[n - 1] < LENGTH then Revert(InvertOfZero)
        else Value(NextTarget(v, u[n - 1]))
  }

  lemma {:induction false} RevertStays(univariates: seq<Univariate>, u: seq<Fr>, start: Fr, m: nat, n: nat)
    requires ScalarField() && m <= n <= |univariates| && n <= |u|
    requires RoundTarget(univariates, u, start, m).Revert?
    ensures RoundTarget(univariates, u, start, n) == RoundTarget(univariates, u, start, m)
    decreases n
  {
    if m < n { RevertStays(univariates, u, start, m, n - 1); }
  }

  /** Round i is reached with some target, and reverts: for its sum, which is looked at first, or for its challenge. */
  ghost predicate RevertsAt(univariates: seq<Univariate>, u: seq<Fr>, start: Fr, i: nat, e: Error)
    requires ScalarField() && i < |univariates| && i < |u|
  {
    var reached := RoundTarget(univariates, u, start, i);
    var sum: int := univariates[i][0] as int + univariates[i][1];
    reached.Value? &&
    ((e == SumcheckFailed && Red(sum) != reached.value) ||
     (e == InvertOfZero && Red(sum) == reached.value && u[i] in {0, 1, 2, 3, 4, 5, 6, 7, 8}))
  }

  /** The rounds revert exactly when some round does, and with its error. */
  lemma {:induction false} RevertsExactly(univariates: seq<Univariate>, u: seq<Fr>, start: Fr, n: nat, e: Error)
    requires ScalarField() && n <= |univariates| && n <= |u|
    ensures RoundTarget(univariates, u, start, n) == Revert(e) <==>
            exists i: nat :: i < n && RevertsAt(univariates, u, start, i, e)
  {
    hide ScalarField, RoundTarget, RevertsAt;
    if n == 0 {
      NoRounds(univariates, u, start);
    } else {
      RevertsExactly(univariates, u, start, n - 1, e);
      if RoundTarget(univariates, u, start, n - 1).Revert? {
        LaterUnreached(univariates, u, start, n, e);
      } else {
        RevertsHere(univariates, u, start, n, e);
      }
    }
  }

  lemma RevertsHere(univariates: seq<Univariate>, u: seq<Fr>, start: Fr, n: nat, e: Error)
    requires ScalarField() && 0 < n <= |univariates| && n <= |u| && RoundTarget(univariates, u, start, n - 1).Value?
    ensures RoundTarget(univariates, u, start, n) == Revert(e) <==> RevertsAt(univariates, u, start, n - 1, e)
  {
    hide ScalarField, NextTarget;
    var a: int, b: int := univariates[n - 1][0], univariates[n - 1][1];
    assert Add(a, b) == Red(a + b);
  }

  lemma LaterUnreached(univariates: seq<Univariate>, u: seq<Fr>, start: Fr, n: nat, e: Error)
    requires ScalarField() && 0 < n <= |univariates| && n <= |u| && RoundTarget(univariates, u, start, n - 1).Revert?
    ensures !RevertsAt(univariates, u, start, n - 1, e)
    ensures RoundTarget(univariates, u, start, n) == RoundTarget(univariates, u, start, n - 1)
  {
    hide ScalarField;
  }

  function PowPartial(u: seq<Fr>, gate: seq<Fr>, n: nat): Fr
    requires n <= |u| && n <= |gate|
  {
    if n == 0 then 1
    else Mul(PowPartial(u, gate, n - 1), Add(1, Mul(u[n - 1], Sub(gate[n - 1], 1))))
  }

  function RowDisabling(u: seq<Fr>, n: nat): Fr
    requires n <= |u|
  {
    if n <= 2 then 1 else Mul(RowDisabling(u, n - 1), Sub(1, u[n - 1]))
  }

  /** The value the verifier computes itself and compares with the last target. The relation accumulators are a function
      of the power product only, because the evaluations, the relation parameters and the batching powers are fixed by
      the proof. */
  function FinalValue(u: seq<Fr>, gate: seq<Fr>, logN: nat, libraChallenge: Fr, libraEvaluation: Fr,
                      relation: Fr -> Fr): Fr
    requires logN <= |u| && logN <= |gate|
  {
    Add(Mul(relation(PowPartial(u, gate, logN)), Sub(1, RowDisabling(u, logN))), Mul(libraEvaluation, libraChallenge))
  }

  /** What the verifier decides. */
  function Decision(univariates: seq<Univariate>, u: seq<Fr>, gate: seq<Fr>, logN: nat, libraChallenge: Fr,
                    libraSum: Fr, libraEvaluation: Fr, relation: Fr -> Fr): Result<bool>
    requires ScalarField() && logN <= |univariates| && logN <= |u| && logN <= |gate|
  {
    match RoundTarget(univariates, u, Mul(libraChallenge, libraSum), logN)
    case Revert(e) => Revert(e)
    case Value(target) => Value(FinalValue(u, gate, logN, libraChallenge, libraEvaluation, relation) == target)
  }

  method VerifySumcheck(univariates: seq<Univariate>, u: seq<Fr>, gate: seq<Fr>, logN: nat, libraChallenge: Fr,
                        libraSum: Fr, libraEvaluation: Fr, relation: Fr -> Fr) returns (verified: Result<bool>)
    requires ScalarField() && logN <= |univariates| && logN <= |u| && logN <= |gate|
    ensures verified ==
            Decision(univariates, u, gate, logN, libraChallenge, libraSum, libraEvaluation, relation)
  {
    hide Mul, Add, Sub, NextTarget;
    var start := Mul(libraChallenge, libraSum);
    var roundTargetSum := start;
    var powPartialEvaluation: Fr := 1;
    for round := 0 to logN
      invariant RoundTarget(univariates, u, start, round) == Value(roundTargetSum)
      invariant powPartialEvaluation == PowPartial(u, gate, round)
    {
      var v := univariates[round];
      var totalSum := Add(v[0], v[1]);
      if totalSum != roundTargetSum {
        RevertStays(univariates, u, start, round + 1, logN);
        return Revert(SumcheckFailed);
      }
      var next := ComputeNextTargetSum(v, u[round]);
      if next.Revert? {
        RevertStays(univariates, u, start, round + 1, logN);
        return Revert(next.error);
      }
      roundTargetSum := next.value;
      powPartialEvaluation := Mul(powPartialEvaluation, Add(1, Mul(u[round], Sub(gate[round], 1))));
    }
    var evaluation: Fr := 1;
    var i := 2;
    while i < logN
      invariant 2 <= i && (i <= logN || i == 2)
      invariant evaluation == RowDisabling(u, if i < logN then i else logN)
    {
      evaluation := Mul(evaluation, Sub(1, u[i]));
      i := i + 1;
    }
    var sum := Add(Mul(relation(powPartialEvaluation), Sub(1, evaluation)), Mul(libraEvaluation, libraChallenge));
    return Value(sum == roundTargetSum);
  }

  /** Gate challenges are the repeated squares of the first one. */
  method GenerateGateChallenges(g: Fr, logN: nat) returns (gate: seq<Fr>)
    requires logN >= 1
    ensures |gate| == logN && RepeatedSquares(gate, g, logN)
  {
    var challenges := new Fr[logN](_ => 0);
    challenges[0] := g;
    for i := 1 to logN
      invariant challenges[0] == g
      invariant forall j: nat | 1 <= j < i :: challenges[j] == Mul(challenges[j - 1], challenges[j - 1])
    {
      challenges[i] := Mul(challenges[i - 1], challenges[i - 1]);
    }
    return challenges[..];
  }

  ghost predicate RepeatedSquares(gate: seq<Fr>, g: Fr, n: nat)
    requires n <= |gate|
  {
    (n > 0 ==> gate[0] == g) &&
    forall j: nat | 1 <= j < n :: gate[j] == Mul(gate[j - 1], gate[j - 1])
  }

  // ----- The running products -----

  lemma {:induction false} GateIsPower(gate: seq<Fr>, g: Fr, n: nat, j: nat)
    requires j < n <= |gate| && RepeatedSquares(gate, g, n)
    ensures Cong(gate[j], M.Power(g, M.Pow2(j)))
  {
    if j == 0 {
      assert M.Power(g, 1) == g * M.Power(g, 0);
      CongRefl(g);
    } else {
      GateIsPower(gate, g, n, j - 1);
      var p := M.Power(g, M.Pow2(j - 1));
      CongMulOp(gate[j - 1], gate[j - 1], p, p);
      M.PowerAdd(g, M.Pow2(j - 1), M.Pow2(j - 1));
    }
  }

  /** The running power product is the sum of g^k * eq(k; u) over the whole hypercube. */
  lemma PowPartialIsHypercubeSum(u: seq<Fr>, gate: seq<Fr>, g: Fr, n: nat)
    requires n <= |u| && n <= |gate| && RepeatedSquares(gate, g, n)
    ensures PowPartial(u, gate, n) == Red(M.PowerSum(g, u, n, 0, M.Pow2(n)))
  {
    PowPartialCong(u, gate, g, n, n);
    M.PowerProductIsSum(g, u, n);
    RedOfCong(PowPartial(u, gate, n), M.PowerProduct(g, u, n));
  }

  lemma RedOfCong(x: Fr, y: int)
    requires Cong(x, y)
    ensures x == Red(y)
  {
    RedEq(x, y);
    RedSmall(x);
  }

  lemma {:induction false} PowPartialCong(u: seq<Fr>, gate: seq<Fr>, g: Fr, n: nat, k: nat)
    requires k <= n <= |u| && n <= |gate| && RepeatedSquares(gate, g, n)
    ensures Cong(PowPartial(u, gate, k), M.PowerProduct(g, u, k))
  {
    if k == 0 {
      CongRefl(1);
    } else {
      hide Mul, Add, Sub;
      var x, p := u[k - 1], M.Power(g, M.Pow2(k - 1));
      PowPartialCong(u, gate, g, n, k - 1);
      GateIsPower(gate, g, n, k - 1);
      CongRefl(1);
      CongRefl(x);
      CongSubOp(gate[k - 1], 1, p, 1);
      CongMulOp(x, Sub(gate[k - 1], 1), x, p - 1);
      CongAddOp(1, Mul(x, Sub(gate[k - 1], 1)), 1, x * (p - 1));
      CongMulOp(PowPartial(u, gate, k - 1), Add(1, Mul(x, Sub(gate[k - 1], 1))),
                M.PowerProduct(g, u, k - 1), 1 + x * (p - 1));
    }
  }

  /** One minus the row-disabling product is the sum of eq(k; u) over the rows k >= 4, of which a circuit of two rows
      has none. */
  lemma RowDisablingIsTail(u: seq<Fr>, n: nat)
    requires n <= |u|
    ensures Sub(1, RowDisabling(u, n)) == Red(M.EqSum(u, n, O.Min(4, M.Pow2(n)), M.Pow2(n)))
  {
    RowDisablingCong(u, n);
    M.RowsFromFour(u, n);
    CongRefl(1);
    CongSubOp(1, RowDisabling(u, n), 1, M.RowProduct(u, n));
    RedOfCong(Sub(1, RowDisabling(u, n)), 1 - M.RowProduct(u, n));
  }

  lemma {:induction false} RowDisablingCong(u: seq<Fr>, n: nat)
    requires n <= |u|
    ensures Cong(RowDisabling(u, n), M.RowProduct(u, n))
  {
    if n <= 2 {
      CongRefl(1);
    } else {
      hide Mul, Sub;
      var x: int := u[n - 1];
      RowDisablingCong(u, n - 1);
      CongRefl(1);
      CongRefl(x);
      CongSubOp(1, x, 1, x);
      CongMulOp(RowDisabling(u, n - 1), Sub(1, x), M.RowProduct(u, n - 1), 1 - x);
    }
  }

  // ----- The honest prover -----

  /** The sum of G over all 0/1 completions of the point p to n coordinates. */
  ghost function HypercubeSum(G: seq<Fr> -> Fr, n: nat, p: seq<Fr>): Fr
    requires |p| <= n
    decreases n - |p|
  {
    if |p| == n then G(p) else Add(HypercubeSum(G, n, p + [0]), HypercubeSum(G, n, p + [1]))
  }

  /** As a function of coordinate i alone, G is the polynomial c through the point p. */
  ghost predicate PolynomialAt(G: seq<Fr> -> Fr, p: seq<Fr>, i: nat, c: seq<int>)
    requires i < |p|
  {
    |c| <= LENGTH && forall x: Fr :: G(p[i := x]) == Red(Eval(c, x))
  }

  ghost predicate PolynomialInVariable(G: seq<Fr> -> Fr, p: seq<Fr>, i: nat)
    requires i < |p|
  {
    exists c: seq<int> :: PolynomialAt(G, p, i, c)
  }

  /** G has degree at most eight in each of its n variables. */
  ghost predicate DegreeBounded(G: seq<Fr> -> Fr, n: nat) {
    forall p: seq<Fr>, i: nat | |p| == n && i < n :: PolynomialInVariable(G, p, i)
  }

  ghost function HonestUnivariate(G: seq<Fr> -> Fr, n: nat, p: seq<Fr>): (v: Univariate)
    requires |p| < n
    ensures forall j: nat | j < LENGTH :: v[j] == HypercubeSum(G, n, p + [j])
  {
    seq(LENGTH, (j: nat) requires j < LENGTH => HypercubeSum(G, n, p + [j as Fr]))
  }

  /** As a function of coordinate i, the sum over the completions of p is the polynomial c. */
  ghost predicate PartialSumAt(G: seq<Fr> -> Fr, n: nat, p: seq<Fr>, i: nat, c: seq<int>)
    requires |p| <= n && i < |p|
  {
    |c| <= LENGTH && forall x: Fr :: HypercubeSum(G, n, p[i := x]) == Red(Eval(c, x))
  }

  lemma {:induction false} PartialSumIsPolynomial(G: seq<Fr> -> Fr, n: nat, p: seq<Fr>, i: nat)
    requires |p| <= n && i < |p| && DegreeBounded(G, n)
    ensures exists c: seq<int> :: PartialSumAt(G, n, p, i, c)
    decreases n - |p|
  {
    if |p| == n {
      assert PolynomialInVariable(G, p, i);
      var c: seq<int> :| PolynomialAt(G, p, i, c);
      assert PartialSumAt(G, n, p, i, c);
    } else {
      PartialSumIsPolynomial(G, n, p + [0], i);
      PartialSumIsPolynomial(G, n, p + [1], i);
      var c0: seq<int> :| PartialSumAt(G, n, p + [0], i, c0);
      var c1: seq<int> :| PartialSumAt(G, n, p + [1], i, c1);
      forall x: Fr
        ensures HypercubeSum(G, n, p[i := x]) == Red(Eval(AddPoly(c0, c1), x))
      {
        assert p[i := x] + [0] == (p + [0])[i := x];
        assert p[i := x] + [1] == (p + [1])[i := x];
        EvalAdd(c0, c1, x);
        AddReduced(Eval(c0, x), Eval(c1, x));
      }
      assert PartialSumAt(G, n, p, i, AddPoly(c0, c1));
    }
  }

  lemma AddReduced(a: int, b: int)
    ensures Add(Red(a), Red(b)) == Red(a + b)
  {
    CongRed(a);
    CongRed(b);
    CongAddOp(Red(a), Red(b), a, b);
    RedOfCong(Add(Red(a), Red(b)), a + b);
  }

  /** Extrapolating the honest univariate binds the next variable to the challenge. */
  lemma HonestStep(G: seq<Fr> -> Fr, n: nat, p: seq<Fr>, x: Fr)
    requires ScalarField() && |p| < n && DegreeBounded(G, n) && x >= LENGTH
    ensures NextTarget(HonestUnivariate(G, n, p), x) == HypercubeSum(G, n, p + [x])
  {
    var v := HonestUnivariate(G, n, p);
    PartialSumIsPolynomial(G, n, p + [0], |p|);
    var c: seq<int> :| PartialSumAt(G, n, p + [0], |p|, c);
    assert forall y: Fr :: (p + [0])[|p| := y] == p + [y];
    assert forall y: Fr :: HypercubeSum(G, n, p + [y]) == Red(Eval(c, y));
    forall i: nat | i < LENGTH
      ensures v[i] == Red(Eval(c, i))
    {
      assert v[i] == HypercubeSum(G, n, p + [i]);
    }
    NextTargetExtrapolates(c, v, x);
  }

  ghost predicate Honest(G: seq<Fr> -> Fr, n: nat, univariates: seq<Univariate>, u: seq<Fr>)
    requires n <= |univariates| && n <= |u|
  {
    forall i: nat | i < n :: univariates[i] == HonestUnivariate(G, n, u[..i])
  }

  /** A round whose univariate sums to the target. */
  lemma RoundPasses(univariates: seq<Univariate>, u: seq<Fr>, start: Fr, k: nat, target: Fr)
    requires ScalarField() && k < |univariates| && k < |u|
    requires RoundTarget(univariates, u, start, k) == Value(target)
    requires Add(univariates[k][0], univariates[k][1]) == target
    ensures RoundTarget(univariates, u, start, k + 1) ==
            if u[k] < LENGTH then Revert(InvertOfZero) else Value(NextTarget(univariates[k], u[k]))
  {
    hide Add, NextTarget, ScalarField;
  }

  lemma HonestTotal(G: seq<Fr> -> Fr, n: nat, p: seq<Fr>)
    requires |p| < n
    ensures var h := HonestUnivariate(G, n, p);
            Add(h[0], h[1]) == HypercubeSum(G, n, p)
  {
    hide Add;
    var h := HonestUnivariate(G, n, p);
    assert h[0] == HypercubeSum(G, n, p + [0]) && h[1] == HypercubeSum(G, n, p + [1]);
  }

  lemma HonestRound(G: seq<Fr> -> Fr, n: nat, univariates: seq<Univariate>, u: seq<Fr>, k: nat)
    requires ScalarField() && k < n <= |univariates| && n <= |u| && DegreeBounded(G, n)
    requires univariates[k] == HonestUnivariate(G, n, u[..k])
    requires RoundTarget(univariates, u, HypercubeSum(G, n, []), k) == Value(HypercubeSum(G, n, u[..k]))
    ensures RoundTarget(univariates, u, HypercubeSum(G, n, []), k + 1) ==
            if u[k] < LENGTH then Revert(InvertOfZero) else Value(HypercubeSum(G, n, u[..k + 1]))
  {
    hide Add, NextTarget, ScalarField, RoundTarget, HypercubeSum, DegreeBounded, HonestUnivariate;
    assert u[..k + 1] == u[..k] + [u[k]];
    HonestTotal(G, n, u[..k]);
    RoundPasses(univariates, u, HypercubeSum(G, n, []), k, HypercubeSum(G, n, u[..k]));
    if u[k] >= LENGTH { HonestStep(G, n, u[..k], u[k]); }
  }

  lemma NoRounds(univariates: seq<Univariate>, u: seq<Fr>, start: Fr)
    requires ScalarField()
    ensures RoundTarget(univariates, u, start, 0) == Value(start)
  {
    hide ScalarField, NextTarget;
  }

  ghost predicate AvoidsNodes(u: seq<Fr>, k: nat)
    requires k <= |u|
  {
    forall i: nat | i < k :: u[i] >= LENGTH
  }

  /** Completeness, exactly: with honest univariates and the true sum as the claim, the rounds pass if and only if no
      challenge is one of the nine nodes, and then the final target is G at the challenge point. */
  lemma {:induction false} HonestProverAccepted(G: seq<Fr> -> Fr, n: nat, univariates: seq<Univariate>, u: seq<Fr>,
                                                k: nat)
    requires ScalarField() && k <= n <= |univariates| && n <= |u| && DegreeBounded(G, n)
    requires Honest(G, n, univariates, u)
    ensures RoundTarget(univariates, u, HypercubeSum(G, n, []), k) ==
            if AvoidsNodes(u, k) then Value(HypercubeSum(G, n, u[..k])) else Revert(InvertOfZero)
  {
    hide RoundTarget, HypercubeSum, DegreeBounded, ScalarField, HonestUnivariate, NextTarget;
    if k == 0 {
      NoRounds(univariates, u, HypercubeSum(G, n, []));
      assert u[..0] == [];
    } else {
      HonestProverAccepted(G, n, univariates, u, k - 1);
      assert AvoidsNodes(u, k) <==> AvoidsNodes(u, k - 1) && u[k - 1] >= LENGTH;
      if AvoidsNodes(u, k - 1) {
        HonestRound(G, n, univariates, u, k - 1);
      } else {
        RevertStays(univariates, u, HypercubeSum(G, n, []), k - 1, k);
      }
    }
  }

  // ----- A dishonest prover -----

  /** Round i is a lucky escape: the univariate sent is not the honest one, and agrees with it at the challenge. */
  ghost predicate EscapeAt(G: seq<Fr> -> Fr, n: nat, univariates: seq<Univariate>, u: seq<Fr>, i: nat)
    requires ScalarField() && i < n <= |univariates| && n <= |u|
  {
    u[i] >= LENGTH &&
    univariates[i] != HonestUnivariate(G, n, u[..i]) &&
    NextTarget(univariates[i], u[i]) == NextTarget(HonestUnivariate(G, n, u[..i]), u[i])
  }

  /** Soundness, without probabilities: if the rounds accept a claim that is not the true sum and end at the true
      value of G at the challenge point, some round was an escape. */
  lemma {:induction false} WrongClaimNeedsEscape(G: seq<Fr> -> Fr, n: nat, univariates: seq<Univariate>, u: seq<Fr>,
                                                 claim: Fr, k: nat)
    requires ScalarField() && k <= n <= |univariates| && n <= |u| && DegreeBounded(G, n)
    requires claim != HypercubeSum(G, n, [])
    requires RoundTarget(univariates, u, claim, k) == Value(HypercubeSum(G, n, u[..k]))
    ensures exists i: nat :: i < k && EscapeAt(G, n, univariates, u, i)
  {
    if k == 0 {
      assert false;
    } else {
      hide Add, NextTarget;
      var p, x := u[..k - 1], u[k - 1];
      assert u[..k] == p + [x];
      HonestStep(G, n, p, x);
      var v, h := univariates[k - 1], HonestUnivariate(G, n, p);
      if v == h {
        assert RoundTarget(univariates, u, claim, k - 1) == Value(Add(h[0], h[1]));
        assert h[0] == HypercubeSum(G, n, p + [0]) && h[1] == HypercubeSum(G, n, p + [1]);
        WrongClaimNeedsEscape(G, n, univariates, u, claim, k - 1);
      } else {
        assert EscapeAt(G, n, univariates, u, k - 1);
      }
    }
  }

  /** Whatever the earlier challenges, a wrong univariate has at most eight challenges at which it escapes. */
  lemma FewEscapes(G: seq<Fr> -> Fr, n: nat, univariates: seq<Univariate>, u: seq<Fr>, i: nat, challenges: set<Fr>)
    requires ScalarField() && i < n <= |univariates| && n <= |u|
    requires forall x: Fr | x in challenges :: EscapeAt(G, n, univariates, u[i := x], i)
    ensures |challenges| <= LENGTH - 1
  {
    if challenges != {} {
      forall x: Fr | x in challenges
        ensures x >= LENGTH && univariates[i] != HonestUnivariate(G, n, u[..i])
        ensures NextTarget(univariates[i], x) == NextTarget(HonestUnivariate(G, n, u[..i]), x)
      {
        assert EscapeAt(G, n, univariates, u[i := x], i);
        assert u[i := x][..i] == u[..i];
      }
      AgreementBound(univariates[i], HonestUnivariate(G, n, u[..i]), challenges);
    }
  }

  // ----- The whole decision -----

  /** The value the last target must have, as sums over the hypercube: the relation at sum_k g^k * eq(k; u), weighed
      with the sum of eq(k; u) over the rows k >= 4, plus the Libra term. */
  ghost function RelationAtPoint(u: seq<Fr>, g: Fr, logN: nat, libraChallenge: Fr, libraEvaluation: Fr,
                                 relation: Fr -> Fr): Fr
    requires logN <= |u|
  {
    Red(relation(Red(M.PowerSum(g, u, logN, 0, M.Pow2(logN)))) *
        M.EqSum(u, logN, O.Min(4, M.Pow2(logN)), M.Pow2(logN)) +
        libraEvaluation * libraChallenge)
  }

  lemma FinalValueIsRelation(u: seq<Fr>, gate: seq<Fr>, g: Fr, logN: nat, libraChallenge: Fr, libraEvaluation: Fr,
                             relation: Fr -> Fr)
    requires logN <= |u| && logN <= |gate| && RepeatedSquares(gate, g, logN)
    ensures FinalValue(u, gate, logN, libraChallenge, libraEvaluation, relation) ==
            RelationAtPoint(u, g, logN, libraChallenge, libraEvaluation, relation)
  {
    PowPartialIsHypercubeSum(u, gate, g, logN);
    RowDisablingIsTail(u, logN);
    var r := relation(PowPartial(u, gate, logN));
    var tail := M.EqSum(u, logN, O.Min(4, M.Pow2(logN)), M.Pow2(logN));
    hide Mul, Add, Sub, PowPartial, RowDisabling, Red, M.EqSum, M.PowerSum;
    CongRed(tail);
    CongRefl(r);
    CongRefl(libraEvaluation);
    CongRefl(libraChallenge);
    CongMulOp(r, Red(tail), r, tail);
    CongMulOp(libraEvaluation, libraChallenge, libraEvaluation, libraChallenge);
    CongAddOp(Mul(r, Red(tail)), Mul(libraEvaluation, libraChallenge), r * tail, libraEvaluation * libraChallenge);
    RedOfCong(Add(Mul(r, Red(tail)), Mul(libraEvaluation, libraChallenge)),
              r * tail + libraEvaluation * libraChallenge);
  }

  /** When the rounds end at a target, the verifier accepts if and only if that target is the relation at the challenge
      point; otherwise it reverts as the rounds do. */
  lemma DecisionExactly(univariates: seq<Univariate>, u: seq<Fr>, gate: seq<Fr>, g: Fr, logN: nat, libraChallenge: Fr,
                        libraSum: Fr, libraEvaluation: Fr, relation: Fr -> Fr)
    requires ScalarField() && logN <= |univariates| && logN <= |u| && logN <= |gate|
    requires RepeatedSquares(gate, g, logN)
    ensures var power := Red(M.PowerSum(g, u, logN, 0, M.Pow2(logN)));
            var rows := M.EqSum(u, logN, O.Min(4, M.Pow2(logN)), M.Pow2(logN));
            var decision :=
              Decision(univariates, u, gate, logN, libraChallenge, libraSum, libraEvaluation, relation);
            match RoundTarget(univariates, u, Red(libraChallenge * libraSum), logN)
            case Revert(e) => decision == Revert(e)
            case Value(target) =>
              decision.Value? &&
              (decision.value <==> target == Red(relation(power) * rows + libraEvaluation * libraChallenge))
  {
    FinalValueIsRelation(u, gate, g, logN, libraChallenge, libraEvaluation, relation);
    hide FinalValue, RoundTarget, ScalarField, M.EqSum, M.PowerSum, RepeatedSquares;
  }

  /** The claimed sum is the true one, the univariates are honest, and the relation the prover's evaluations give is G
      at the challenge point: then the verifier accepts, unless a challenge is a node. */
  lemma HonestDecision(G: seq<Fr> -> Fr, univariates: seq<Univariate>, u: seq<Fr>, gate: seq<Fr>, g: Fr, logN: nat,
                       libraChallenge: Fr, libraSum: Fr, libraEvaluation: Fr, relation: Fr -> Fr)
    requires ScalarField() && logN <= |univariates| && logN <= |u| && logN <= |gate| && DegreeBounded(G, logN)
    requires Honest(G, logN, univariates, u) && Red(libraChallenge * libraSum) == HypercubeSum(G, logN, [])
    requires RepeatedSquares(gate, g, logN)
    requires RelationAtPoint(u, g, logN, libraChallenge, libraEvaluation, relation) == G(u[..logN])
    ensures Decision(univariates, u, gate, logN, libraChallenge, libraSum, libraEvaluation, relation) ==
            if AvoidsNodes(u, logN) then Value(true) else Revert(InvertOfZero)
  {
    HonestProverAccepted(G, logN, univariates, u, logN);
    FinalValueIsRelation(u, gate, g, logN, libraChallenge, libraEvaluation, relation);
    assert HypercubeSum(G, logN, u[..logN]) == G(u[..logN]);
    hide ScalarField, DegreeBounded, RoundTarget, FinalValue, Honest, HypercubeSum, RelationAtPoint, RepeatedSquares;
  }

  /** If the verifier accepts a claim that is not the true sum, while the relation is G at the challenge point, some
      round was an escape. */
  lemma WrongDecisionNeedsEscape(G: seq<Fr> -> Fr, univariates: seq<Univariate>, u: seq<Fr>, gate: seq<Fr>, g: Fr,
                                 logN: nat, libraChallenge: Fr, libraSum: Fr, libraEvaluation: Fr, relation: Fr -> Fr)
    requires ScalarField() && logN <= |univariates| && logN <= |u| && logN <= |gate| && DegreeBounded(G, logN)
    requires Red(libraChallenge * libraSum) != HypercubeSum(G, logN, []) && RepeatedSquares(gate, g, logN)
    requires RelationAtPoint(u, g, logN, libraChallenge, libraEvaluation, relation) == G(u[..logN])
    requires Decision(univariates, u, gate, logN, libraChallenge, libraSum, libraEvaluation, relation) == Value(true)
    ensures exists i: nat :: i < logN && EscapeAt(G, logN, univariates, u, i)
  {
    FinalValueIsRelation(u, gate, g, logN, libraChallenge, libraEvaluation, relation);
    assert HypercubeSum(G, logN, u[..logN]) == G(u[..logN]);
    assert Mul(libraChallenge, libraSum) == Red(libraChallenge * libraSum);
    hide ScalarField, DegreeBounded, RoundTarget, FinalValue, EscapeAt, HypercubeSum, Mul, RelationAtPoint,
         RepeatedSquares;
    WrongClaimNeedsEscape(G, logN, univariates, u, Mul(libraChallenge, libraSum), logN);
  }
}
