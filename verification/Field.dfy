/** Arithmetic of the verifier's scalar field: residues modulo P.

    P is kept symbolic. Its value is the witness of the type Modulus, the constant of the generated contract; what
    the proofs may use about it is only that it is large, and where more is needed (that it is prime, or that it is
    exactly that constant) the theorem says so with the hypothesis PrimeField or Bn254. */
module Field {

  type Modulus = p: int | p > 0x1_0000
    witness 21888242871839275222246405745257275088548364400416034343698204186575808495617

  const P: Modulus

  /** The modulus is the scalar field order written into the contract. */
  ghost predicate Bn254() {
    P == 21888242871839275222246405745257275088548364400416034343698204186575808495617
  }

  type Fr = x: int | 0 <= x < P witness 0

  function Add(a: Fr, b: Fr): Fr { (a + b) % P }

  function Sub(a: Fr, b: Fr): Fr { (a + (P - b)) % P }

  function Mul(a: Fr, b: Fr): Fr { (a * b) % P }

  /** The residue of an integer. */
  function Red(x: int): Fr { x % P }

  ghost predicate HasInverse(v: Fr) { exists w: Fr :: Mul(v, w) == 1 }

  /** P is prime, in the only form the arithmetic uses: nonzero residues are invertible. */
  ghost predicate PrimeField() { forall v: Fr :: v != 0 ==> HasInverse(v) }

  // ----- Congruence modulo P, the relation in which all identities are proved -----

  ghost predicate CongBy(a: int, b: int, k: int) { a - b == k * P }

  ghost predicate Cong(a: int, b: int) { exists k: int :: CongBy(a, b, k) }

  lemma CongIntro(a: int, b: int, k: int)
    requires a - b == k * P
    ensures Cong(a, b)
  {
    assert CongBy(a, b, k);
  }

  lemma CongRefl(a: int)
    ensures Cong(a, a)
  {
    CongIntro(a, a, 0);
  }

  lemma CongSym(a: int, b: int)
    requires Cong(a, b)
    ensures Cong(b, a)
  {
    var k :| CongBy(a, b, k);
    CongIntro(b, a, -k);
  }

  lemma CongTrans(a: int, b: int, c: int)
    requires Cong(a, b) && Cong(b, c)
    ensures Cong(a, c)
  {
    var k :| CongBy(a, b, k);
    var j :| CongBy(b, c, j);
    assert (k + j) * P == k * P + j * P;
    CongIntro(a, c, k + j);
  }

  lemma CongAdd(a: int, b: int, c: int, d: int)
    requires Cong(a, b) && Cong(c, d)
    ensures Cong(a + c, b + d) && Cong(a - c, b - d)
  {
    var k :| CongBy(a, b, k);
    var j :| CongBy(c, d, j);
    assert (k + j) * P == k * P + j * P;
    assert (k - j) * P == k * P - j * P;
    CongIntro(a + c, b + d, k + j);
    CongIntro(a - c, b - d, k - j);
  }

  lemma CongMul(a: int, b: int, c: int, d: int)
    requires Cong(a, b) && Cong(c, d)
    ensures Cong(a * c, b * d)
  {
    var k :| CongBy(a, b, k);
    var j :| CongBy(c, d, j);
    calc {
      a * c - b * d;
      a * (c - d) + (a - b) * d;
      a * (j * P) + (k * P) * d;
      (a * j + k * d) * P;
    }
    CongIntro(a * c, b * d, a * j + k * d);
  }

  lemma CongRed(x: int)
    ensures Cong(Red(x), x) && Cong(x, Red(x))
  {
    var q := x / P;
    assert x == q * P + x % P;
    CongIntro(Red(x), x, -q);
    CongSym(Red(x), x);
  }

  lemma CongEq(a: Fr, b: Fr)
    requires Cong(a, b)
    ensures a == b
  {
    var k :| CongBy(a, b, k);
    SmallMultiple(a - b, k);
  }

  lemma SmallMultiple(d: int, k: int)
    requires d == k * P && d < P && 0 < d + P
    ensures d == 0
  {
    if k >= 1 { MulMonotone(1, k, P); } else if k <= -1 { MulMonotone(k, -1, P); }
  }

  lemma MulMonotone(a: int, b: int, c: int)
    requires a <= b && c >= 0
    ensures a * c <= b * c
  {
    assert (b - a) * c >= 0;
  }

  /** Congruent integers have the same residue, and only they. */
  lemma RedEq(x: int, y: int)
    ensures Red(x) == Red(y) <==> Cong(x, y)
  {
    CongRed(x);
    CongRed(y);
    if Cong(x, y) {
      CongTrans(Red(x), x, y);
      CongTrans(Red(x), y, Red(y));
      CongEq(Red(x), Red(y));
    }
    if Red(x) == Red(y) {
      CongTrans(x, Red(x), y);
    }
  }

  lemma RedSmall(x: Fr)
    ensures Red(x) == x
  {
    CongRed(x);
    CongEq(Red(x), x);
  }

  /** Each field operation computes the integer operation up to congruence. */
  lemma CongAddOp(a: Fr, b: Fr, x: int, y: int)
    requires Cong(a, x) && Cong(b, y)
    ensures Cong(Add(a, b), x + y)
  {
    CongRed(a + b);
    CongAdd(a, x, b, y);
    CongTrans(Add(a, b), a + b, x + y);
  }

  lemma CongSubOp(a: Fr, b: Fr, x: int, y: int)
    requires Cong(a, x) && Cong(b, y)
    ensures Cong(Sub(a, b), x - y)
  {
    CongRed(a + (P - b));
    CongIntro(a + (P - b), a - b, 1);
    CongAdd(a, x, b, y);
    CongTrans(Sub(a, b), a + (P - b), a - b);
    CongTrans(Sub(a, b), a - b, x - y);
  }

  lemma CongMulOp(a: Fr, b: Fr, x: int, y: int)
    requires Cong(a, x) && Cong(b, y)
    ensures Cong(Mul(a, b), x * y)
  {
    CongRed(a * b);
    CongMul(a, x, b, y);
    CongTrans(Mul(a, b), a * b, x * y);
  }

  // ----- Inverses -----

  lemma MulOneCong(v: Fr, w: Fr)
    ensures Mul(v, w) == 1 <==> Cong(v * w, 1)
  {
    RedSmall(1);
    RedEq(v * w, 1);
  }

  lemma InverseUnique(v: Fr, w: Fr, w': Fr)
    requires Mul(v, w) == 1 && Mul(v, w') == 1
    ensures w == w'
  {
    MulOneCong(v, w);
    MulOneCong(v, w');
    InverseUniqueCong(v, w, w');
    CongEq(w, w');
  }

  lemma InverseUniqueCong(v: int, w: int, w': int)
    requires Cong(v * w, 1) && Cong(v * w', 1)
    ensures Cong(w, w')
  {
    // w = w * (v * w') = (v * w) * w' = w'
    CongRefl(w);
    CongRefl(w');
    CongMul(v * w, 1, w', w');
    CongMul(v * w', 1, w, w);
    assert (v * w) * w' == (v * w') * w;
    CongSym((v * w') * w, w);
    CongTrans(w, (v * w) * w', w');
  }

  /** The modular inverse; a call to the modular-exponentiation precompile in the contract. */
  function Invert(v: Fr): (w: Fr)
    requires HasInverse(v)
    ensures Mul(v, w) == 1
  {
    assert forall x: Fr, y: Fr | Mul(v, x) == 1 && Mul(v, y) == 1 :: x == y by {
      forall x: Fr, y: Fr | Mul(v, x) == 1 && Mul(v, y) == 1
        ensures x == y
      {
        InverseUnique(v, x, y);
      }
    }
    var w: int :| 0 <= w < P && Mul(v, w) == 1;
    w
  }

  lemma InvertCong(v: Fr)
    requires HasInverse(v)
    ensures Cong(v * Invert(v), 1)
  {
    MulOneCong(v, Invert(v));
  }

  /** A common factor with an inverse cancels. */
  lemma CongCancel(k: int, kInv: int, a: int, b: int)
    requires Cong(k * kInv, 1)
    requires Cong(k * a, k * b)
    ensures Cong(a, b)
  {
    CongRefl(a);
    CongRefl(b);
    CongRefl(kInv);
    CongMul(k * kInv, 1, a, a);
    CongMul(k * kInv, 1, b, b);
    CongMul(k * a, k * b, kInv, kInv);
    assert (k * kInv) * a == (k * a) * kInv;
    assert (k * kInv) * b == (k * b) * kInv;
    CongSym((k * kInv) * a, a);
    CongTrans(a, (k * a) * kInv, (k * b) * kInv);
    CongTrans(a, (k * b) * kInv, b);
  }

  /** Products of invertible residues are invertible, so they are not zero. */
  lemma ProductInvertible(a: Fr, b: Fr)
    requires HasInverse(a) && HasInverse(b)
    ensures HasInverse(Mul(a, b)) && Mul(a, b) != 0
  {
    var x, y := Invert(a), Invert(b);
    InvertCong(a);
    InvertCong(b);
    CongRefl(a);
    CongRefl(b);
    CongRefl(x);
    CongRefl(y);
    CongMulOp(a, b, a, b);
    CongMulOp(x, y, x, y);
    ProductInverse(a, b, x, y, Mul(a, b), Mul(x, y));
    MulOneCong(Mul(a, b), Mul(x, y));
    MulZero(Mul(x, y));
  }

  lemma MulZero(x: Fr)
    ensures Mul(0, x) == 0
  {
    RedSmall(0);
  }

  lemma ProductInverse(a: int, b: int, x: int, y: int, ab: int, xy: int)
    requires Cong(a * x, 1) && Cong(b * y, 1)
    requires Cong(ab, a * b) && Cong(xy, x * y)
    ensures Cong(ab * xy, 1)
  {
    CongMul(ab, a * b, xy, x * y);
    assert (a * b) * (x * y) == (a * x) * (b * y);
    CongMul(a * x, 1, b * y, 1);
    CongTrans(ab * xy, (a * x) * (b * y), 1);
  }

  // ----- Primality in its textbook form is the hypothesis PrimeField -----

  ghost predicate Divides(d: int, n: int) { exists k: int :: Product(d, k, n) }

  ghost predicate Product(d: int, k: int, n: int) { d * k == n }

  ghost predicate IsPrime(n: int) {
    n > 1 && forall d: int :: 1 < d < n ==> !Divides(d, n)
  }

  /** The extended Euclidean algorithm: a common divisor and its coefficients. */
  ghost function Euclid(a: nat, b: nat): (int, int, int)
    decreases b
  {
    if b == 0 then (a, 1, 0)
    else
      var (g, s, t) := Euclid(b, a % b);
      (g, t, s - t * (a / b))
  }

  lemma {:induction false} Bezout(a: nat, b: nat)
    requires a > 0 || b > 0
    ensures var (g, s, t) := Euclid(a, b);
            g > 0 && s * a + t * b == g && Divides(g, a) && Divides(g, b)
    decreases b
  {
    if b == 0 {
      assert Product(a, 1, a) && Product(a, 0, b);
    } else {
      var q, r := a / b, a % b;
      Bezout(b, r);
      var (g, s, t) := Euclid(b, r);
      assert a == q * b + r;
      BezoutStep(a, b, q, r, s, t);
      var x :| Product(g, x, b);
      var y :| Product(g, y, r);
      CombineMultiples(g, q, x, y);
      assert Product(g, q * x + y, a);
    }
  }

  lemma BezoutStep(a: int, b: int, q: int, r: int, s: int, t: int)
    requires a == q * b + r
    ensures t * a + (s - t * q) * b == s * b + t * r
  {
    assert t * (q * b + r) == t * q * b + t * r;
  }

  lemma CombineMultiples(g: int, q: int, x: int, y: int)
    ensures g * (q * x + y) == q * (g * x) + g * y
  {}

  lemma DivisorBound(g: int, v: int)
    requires g > 0 && v > 0 && Divides(g, v)
    ensures g <= v
  {
    var k :| Product(g, k, v);
    if k <= 0 { MulMonotone(k, 0, g); } else { MulMonotone(1, k, g); }
  }

  lemma PrimeModulusIsField()
    requires IsPrime(P)
    ensures PrimeField()
  {
    forall v: Fr | v != 0
      ensures HasInverse(v)
    {
      Bezout(v, P);
      var (g, s, t) := Euclid(v, P);
      DivisorBound(g, v);
      assert g == 1;
      BezoutInverse(v, s, t);
    }
  }

  lemma BezoutInverse(v: Fr, s: int, t: int)
    requires s * v + t * P == 1
    ensures HasInverse(v)
  {
    var w := Red(s);
    CongRed(s);
    CongRefl(v);
    CongMul(v, v, w, s);
    assert v * s - 1 == (-t) * P;
    CongIntro(v * s, 1, -t);
    CongTrans(v * w, v * s, 1);
    MulOneCong(v, w);
  }
}
