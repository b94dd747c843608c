/** The proof bytes of the generated verifier: the size it demands, the loader with its moving boundary, and the exact
    correspondence between buffers and loaded proofs. */
module ProofLayout {
  import opened Options
  import opened ByteStrings
  import opened Field
  import opened OutputWord

  const PAIRING_POINTS_SIZE: nat := 8
  const FIELD_ELEMENT_SIZE: nat := 0x20
  const GROUP_ELEMENT_SIZE: nat := 0x40
  const NUMBER_OF_ENTITIES_ZK: nat := 42
  const ZK_BATCHED_RELATION_PARTIAL_LENGTH: nat := 9
  const CONST_PROOF_SIZE_LOG_N: nat := 25
  const NUM_WITNESS_ENTITIES: nat := 9
  const NUM_ELEMENTS_COMM: nat := 2
  const NUM_ELEMENTS_FR: nat := 1
  const NUM_LIBRA_EVALUATIONS: nat := 4
  const LO_LIMB: nat := 0x100_0000_0000_0000_0000_0000_0000_0000_0000
  const HI_LIMB: nat := 0x100_0000_0000_0000_0000_0000_0000_0000
  const Q: nat := 21888242871839275222246405745257275088696311157297823662689037894645226208583

  datatype G1Point = G1Point(x: nat, y: nat)

  datatype LoadError = ProofLengthWrong | ValueGeLimbMax | ValueGeGroupOrder | ValueGeFieldOrder

  /** The loaded proof. Arrays have their declared size; what is not read stays zero. */
  datatype ZKProof = ZKProof(
    pairingPointObject: seq<nat>,
    geminiMaskingPoly: G1Point,
    w1: G1Point,
    w2: G1Point,
    w3: G1Point,
    lookupReadCounts: G1Point,
    lookupReadTags: G1Point,
    w4: G1Point,
    lookupInverses: G1Point,
    zPerm: G1Point,
    libraCommitments: seq<G1Point>,
    libraSum: nat,
    sumcheckUnivariates: seq<seq<nat>>,
    sumcheckEvaluations: seq<nat>,
    libraEvaluation: nat,
    geminiFoldComms: seq<G1Point>,
    geminiAEvaluations: seq<nat>,
    libraPolyEvals: seq<nat>,
    shplonkQ: G1Point,
    kzgQuotient: G1Point)

  /** Words of a proof for a circuit of 2^n rows. */
  function WordCount(n: nat): nat { 82 + 12 * n }

  method CalculateProofSize(logN: nat) returns (size: nat)
    requires logN >= 1
    ensures size == FIELD_ELEMENT_SIZE * WordCount(logN)
  {
    var proofLength := NUM_WITNESS_ENTITIES * NUM_ELEMENTS_COMM;
    proofLength := proofLength + NUM_ELEMENTS_COMM * 3;
    proofLength := proofLength + logN * ZK_BATCHED_RELATION_PARTIAL_LENGTH * NUM_ELEMENTS_FR;
    proofLength := proofLength + NUMBER_OF_ENTITIES_ZK * NUM_ELEMENTS_FR;
    proofLength := proofLength + NUM_ELEMENTS_FR * 2;
    proofLength := proofLength + logN * NUM_ELEMENTS_FR;
    proofLength := proofLength + NUM_LIBRA_EVALUATIONS * NUM_ELEMENTS_FR;
    proofLength := proofLength + (logN - 1) * NUM_ELEMENTS_COMM;
    proofLength := proofLength + NUM_ELEMENTS_COMM * 2;
    proofLength := proofLength + PAIRING_POINTS_SIZE;
    size := proofLength * 32;
  }

  // ----- Words -----

  function WordAt(proof: Bytes, k: nat): nat
    requires 32 * k + 32 <= |proof|
  {
    FromBigEndian(proof[32 * k..32 * k + 32])
  }

  function Words(proof: Bytes): seq<nat> {
    seq(|proof| / 32, k requires 0 <= k < |proof| / 32 => WordAt(proof, k))
  }

  /** What word k is, and the bound below which it must lie. */
  datatype Kind = LoLimb | HiLimb | Scalar | Coordinate

  function KindOf(n: nat, k: nat): Kind {
    if k < 8 then (if k % 2 == 0 then LoLimb else HiLimb)
    else if k < 28 then Coordinate
    else if k < 72 + 9 * n then Scalar
    else if k < 74 + 11 * n then Coordinate
    else if k < 78 + 12 * n then Scalar
    else Coordinate
  }

  function Bound(kind: Kind): nat {
    match kind
    case LoLimb => LO_LIMB
    case HiLimb => HI_LIMB
    case Scalar => P
    case Coordinate => Q
  }

  function ErrorOf(kind: Kind): LoadError {
    match kind
    case LoLimb => ValueGeLimbMax
    case HiLimb => ValueGeLimbMax
    case Scalar => ValueGeFieldOrder
    case Coordinate => ValueGeGroupOrder
  }

  ghost predicate InRange(n: nat, ws: seq<nat>, k: nat)
    requires k < |ws|
  {
    ws[k] < Bound(KindOf(n, k))
  }

  /** The first m words are in range. */
  ghost predicate GoodUpTo(n: nat, ws: seq<nat>, m: nat)
    requires m <= |ws|
  {
    forall k: nat | k < m :: InRange(n, ws, k)
  }

  /** Word k is the first that is out of range, and this is its error. */
  ghost predicate FailsAt(n: nat, ws: seq<nat>, k: nat, e: LoadError) {
    k < |ws| && GoodUpTo(n, ws, k) && !InRange(n, ws, k) && e == ErrorOf(KindOf(n, k))
  }

  ghost predicate Fails(n: nat, ws: seq<nat>, e: LoadError) { exists k: nat :: FailsAt(n, ws, k, e) }

  // ----- The layout -----

  function PointsAt(ws: seq<nat>, at: nat, m: nat): (r: seq<G1Point>)
    requires at + 2 * m <= |ws|
    ensures |r| == m
  {
    seq(m, i requires 0 <= i < m => G1Point(ws[at + 2 * i], ws[at + 2 * i + 1]))
  }

  function RowsAt(ws: seq<nat>, at: nat, m: nat): (r: seq<seq<nat>>)
    requires at + 9 * m <= |ws|
    ensures |r| == m && forall i | 0 <= i < m :: |r[i]| == 9
  {
    seq(m, i requires 0 <= i < m => ws[at + 9 * i..at + 9 * i + 9])
  }

  function Zeros(m: nat): (r: seq<nat>)
    ensures |r| == m
  {
    seq(m, _ => 0)
  }

  const NO_POINT := G1Point(0, 0)

  /** A fixed array of size m that starts with the given entries. */
  function Padded<T>(s: seq<T>, zero: T, m: nat): (r: seq<T>)
    requires |s| <= m
    ensures |r| == m && r[..|s|] == s
  {
    s + seq(m - |s|, _ => zero)
  }

  function PointAt(ws: seq<nat>, at: nat): G1Point
    requires at + 2 <= |ws|
  {
    G1Point(ws[at], ws[at + 1])
  }

  /** The proof whose words these are, by absolute positions. */
  function Parsed(ws: seq<nat>, n: nat): ZKProof
    requires 1 <= n <= CONST_PROOF_SIZE_LOG_N && |ws| == WordCount(n)
  {
    ZKProof(
      ws[0..8],
      PointAt(ws, 8), PointAt(ws, 10), PointAt(ws, 12), PointAt(ws, 14), PointAt(ws, 16), PointAt(ws, 18),
      PointAt(ws, 20), PointAt(ws, 22), PointAt(ws, 24),
      [PointAt(ws, 26), PointAt(ws, 72 + 9 * n), PointAt(ws, 74 + 9 * n)],
      ws[28],
      Padded(RowsAt(ws, 29, n), Zeros(9), CONST_PROOF_SIZE_LOG_N),
      ws[29 + 9 * n..71 + 9 * n],
      ws[71 + 9 * n],
      Padded(PointsAt(ws, 76 + 9 * n, n - 1), NO_POINT, CONST_PROOF_SIZE_LOG_N - 1),
      Padded(ws[74 + 11 * n..74 + 12 * n], 0, CONST_PROOF_SIZE_LOG_N),
      ws[74 + 12 * n..78 + 12 * n],
      PointAt(ws, 78 + 12 * n), PointAt(ws, 80 + 12 * n))
  }

  // ----- The loader -----

  method NextScalar(proof: Bytes, n: nat, boundary: nat, ghost w: nat) returns (r: Result<nat, LoadError>, next: nat)
    requires boundary == 32 * w && w < |Words(proof)| && KindOf(n, w) == Scalar && GoodUpTo(n, Words(proof), w)
    ensures r.Err? ==> Fails(n, Words(proof), r.error)
    ensures r.Ok? ==> r.value == Words(proof)[w] && next == 32 * (w + 1) && GoodUpTo(n, Words(proof), w + 1)
  {
    next := boundary + FIELD_ELEMENT_SIZE;
    var v := FromBigEndian(proof[boundary..boundary + FIELD_ELEMENT_SIZE]);
    assert v == Words(proof)[w];
    if v >= P {
      assert FailsAt(n, Words(proof), w, ValueGeFieldOrder);
      return Err(ValueGeFieldOrder), next;
    }
    return Ok(v), next;
  }

  method NextPoint(proof: Bytes, n: nat, boundary: nat, ghost w: nat) returns (r: Result<G1Point, LoadError>, next: nat)
    requires boundary == 32 * w && w + 1 < |Words(proof)| && KindOf(n, w) == KindOf(n, w + 1) == Coordinate
    requires GoodUpTo(n, Words(proof), w)
    ensures r.Err? ==> Fails(n, Words(proof), r.error)
    ensures r.Ok? ==>
              r.value == PointAt(Words(proof), w) && next == 32 * (w + 2) && GoodUpTo(n, Words(proof), w + 2)
  {
    next := boundary + GROUP_ELEMENT_SIZE;
    var section := proof[boundary..boundary + GROUP_ELEMENT_SIZE];
    assert section[0x00..0x20] == proof[32 * w..32 * w + 32];
    assert section[0x20..0x40] == proof[32 * (w + 1)..32 * (w + 1) + 32];
    var x := FromBigEndian(section[0x00..0x20]);
    var y := FromBigEndian(section[0x20..0x40]);
    assert x == Words(proof)[w] && y == Words(proof)[w + 1];
    if !(x < Q && y < Q) {
      assert FailsAt(n, Words(proof), if x >= Q then w else w + 1, ValueGeGroupOrder);
      return Err(ValueGeGroupOrder), next;
    }
    return Ok(G1Point(x, y)), next;
  }

  /** A run of scalars into the first m slots of a zeroed array. */
  method NextScalars(proof: Bytes, n: nat, boundary: nat, m: nat, ghost w: nat)
    returns (r: Result<seq<nat>, LoadError>, next: nat)
    requires boundary == 32 * w && w + m <= |Words(proof)| && GoodUpTo(n, Words(proof), w)
    requires forall k | w <= k < w + m :: KindOf(n, k) == Scalar
    ensures r.Err? ==> Fails(n, Words(proof), r.error)
    ensures r.Ok? ==>
              r.value == Words(proof)[w..w + m] && next == 32 * (w + m) && GoodUpTo(n, Words(proof), w + m)
  {
    hide Words, KindOf, GoodUpTo, Fails;
    next := boundary;
    var values: seq<nat> := [];
    for i := 0 to m
      invariant next == 32 * (w + i) && GoodUpTo(n, Words(proof), w + i)
      invariant values == Words(proof)[w..w + i]
    {
      var v;
      v, next :- NextScalar(proof, n, next, w + i);
      values := values + [v];
    }
    return Ok(values), next;
  }

  method NextRows(proof: Bytes, n: nat, boundary: nat, ghost w: nat)
    returns (r: Result<seq<seq<nat>>, LoadError>, next: nat)
    requires boundary == 32 * w && w + 9 * n <= |Words(proof)| && GoodUpTo(n, Words(proof), w)
    requires forall k | w <= k < w + 9 * n :: KindOf(n, k) == Scalar
    ensures r.Err? ==> Fails(n, Words(proof), r.error)
    ensures r.Ok? ==>
              r.value == RowsAt(Words(proof), w, n) && next == 32 * (w + 9 * n) &&
              GoodUpTo(n, Words(proof), w + 9 * n)
  {
    hide Words, KindOf, GoodUpTo, Fails;
    next := boundary;
    var rows: seq<seq<nat>> := [];
    for i := 0 to n
      invariant next == 32 * (w + 9 * i) && GoodUpTo(n, Words(proof), w + 9 * i)
      invariant rows == RowsAt(Words(proof), w, i)
    {
      var row;
      row, next :- NextScalars(proof, n, next, ZK_BATCHED_RELATION_PARTIAL_LENGTH, w + 9 * i);
      rows := rows + [row];
    }
    return Ok(rows), next;
  }

  method NextPoints(proof: Bytes, n: nat, boundary: nat, m: nat, ghost w: nat)
    returns (r: Result<seq<G1Point>, LoadError>, next: nat)
    requires boundary == 32 * w && w + 2 * m <= |Words(proof)| && GoodUpTo(n, Words(proof), w)
    requires forall k | w <= k < w + 2 * m :: KindOf(n, k) == Coordinate
    ensures r.Err? ==> Fails(n, Words(proof), r.error)
    ensures r.Ok? ==>
              r.value == PointsAt(Words(proof), w, m) && next == 32 * (w + 2 * m) &&
              GoodUpTo(n, Words(proof), w + 2 * m)
  {
    hide Words, KindOf, GoodUpTo, Fails;
    next := boundary;
    var points: seq<G1Point> := [];
    for i := 0 to m
      invariant next == 32 * (w + 2 * i) && GoodUpTo(n, Words(proof), w + 2 * i)
      invariant points == PointsAt(Words(proof), w, i)
    {
      var point;
      point, next :- NextPoint(proof, n, next, w + 2 * i);
      points := points + [point];
    }
    return Ok(points), next;
  }

  method NextLimbs(proof: Bytes, n: nat) returns (r: Result<seq<nat>, LoadError>, next: nat)
    requires 8 <= |Words(proof)| && LO_LIMB <= P
    ensures r.Err? ==> Fails(n, Words(proof), r.error)
    ensures r.Ok? ==> r.value == Words(proof)[0..8] && next == 32 * 8 && GoodUpTo(n, Words(proof), 8)
  {
    next := 0;
    var limbs: seq<nat> := [];
    for i := 0 to PAIRING_POINTS_SIZE
      invariant next == 32 * i && GoodUpTo(n, Words(proof), i) && limbs == Words(proof)[0..i]
    {
      var limb := FromBigEndian(proof[next..next + FIELD_ELEMENT_SIZE]);
      assert limb == Words(proof)[i];
      if limb >= (if i % 2 == 0 then LO_LIMB else HI_LIMB) {
        assert FailsAt(n, Words(proof), i, ValueGeLimbMax);
        return Err(ValueGeLimbMax), next;
      }
      limbs := limbs + [limb];
      next := next + FIELD_ELEMENT_SIZE;
    }
    return Ok(limbs), next;
  }

  /** Every limb is a field element, so FrLib.from never reverts on one. */
  lemma LimbsInField()
    requires Bn254()
    ensures HI_LIMB <= LO_LIMB <= P
  {}

  /** The zero-initialised struct with the fields of the first 29 words. */
  function Head(ws: seq<nat>): (p: ZKProof)
    requires 29 <= |ws|
    ensures |p.libraCommitments| == 3
  {
    ZKProof(
      ws[0..8],
      PointAt(ws, 8), PointAt(ws, 10), PointAt(ws, 12), PointAt(ws, 14), PointAt(ws, 16), PointAt(ws, 18),
      PointAt(ws, 20), PointAt(ws, 22), PointAt(ws, 24), [PointAt(ws, 26), NO_POINT, NO_POINT], ws[28],
      Padded([], Zeros(9), CONST_PROOF_SIZE_LOG_N), Zeros(NUMBER_OF_ENTITIES_ZK), 0,
      Padded([], NO_POINT, CONST_PROOF_SIZE_LOG_N - 1), Zeros(CONST_PROOF_SIZE_LOG_N), Zeros(4), NO_POINT, NO_POINT)
  }

  method LoadHead(proof: Bytes, n: nat) returns (r: Result<ZKProof, LoadError>, boundary: nat)
    requires 29 <= |Words(proof)| && LO_LIMB <= P
    ensures r.Err? ==> Fails(n, Words(proof), r.error)
    ensures r.Ok? ==> r.value == Head(Words(proof)) && boundary == 32 * 29 && GoodUpTo(n, Words(proof), 29)
  {
    hide Words, GoodUpTo, Fails, PointAt, Padded, Zeros;
    boundary := 0;
    var limbs, masking, w1, w2, w3, readCounts, readTags, w4, inverses, zPerm, libra0, libraSum;
    limbs, boundary :- NextLimbs(proof, n);
    masking, boundary :- NextPoint(proof, n, boundary, 8);
    w1, boundary :- NextPoint(proof, n, boundary, 10);
    w2, boundary :- NextPoint(proof, n, boundary, 12);
    w3, boundary :- NextPoint(proof, n, boundary, 14);
    readCounts, boundary :- NextPoint(proof, n, boundary, 16);
    readTags, boundary :- NextPoint(proof, n, boundary, 18);
    w4, boundary :- NextPoint(proof, n, boundary, 20);
    inverses, boundary :- NextPoint(proof, n, boundary, 22);
    zPerm, boundary :- NextPoint(proof, n, boundary, 24);
    libra0, boundary :- NextPoint(proof, n, boundary, 26);
    libraSum, boundary :- NextScalar(proof, n, boundary, 28);
    r := Ok(ZKProof(limbs, masking, w1, w2, w3, readCounts, readTags, w4, inverses, zPerm, [libra0, NO_POINT, NO_POINT],
                    libraSum, Padded([], Zeros(9), CONST_PROOF_SIZE_LOG_N), Zeros(NUMBER_OF_ENTITIES_ZK), 0,
                    Padded([], NO_POINT, CONST_PROOF_SIZE_LOG_N - 1), Zeros(CONST_PROOF_SIZE_LOG_N), Zeros(4),
                    NO_POINT, NO_POINT));
  }

  lemma Kinds(n: nat)
    requires n >= 1
    ensures forall k: nat | 28 <= k < 72 + 9 * n :: KindOf(n, k) == Scalar
    ensures forall k: nat | 72 + 9 * n <= k < 74 + 11 * n :: KindOf(n, k) == Coordinate
    ensures forall k: nat | 74 + 11 * n <= k < 78 + 12 * n :: KindOf(n, k) == Scalar
    ensures forall k: nat | 78 + 12 * n <= k < 82 + 12 * n :: KindOf(n, k) == Coordinate
  {}

  /** The struct after the sumcheck section and the two libra commitments behind it. */
  function WithSumcheck(p: ZKProof, ws: seq<nat>, n: nat): ZKProof
    requires 1 <= n <= CONST_PROOF_SIZE_LOG_N && |ws| == WordCount(n) && |p.libraCommitments| == 3
  {
    p.(sumcheckUnivariates := Padded(RowsAt(ws, 29, n), Zeros(9), CONST_PROOF_SIZE_LOG_N),
       sumcheckEvaluations := ws[29 + 9 * n..71 + 9 * n],
       libraEvaluation := ws[71 + 9 * n],
       libraCommitments := [p.libraCommitments[0], PointAt(ws, 72 + 9 * n), PointAt(ws, 74 + 9 * n)])
  }

  method LoadSumcheck(proof: Bytes, n: nat, start: nat, p: ZKProof)
    returns (r: Result<ZKProof, LoadError>, boundary: nat)
    requires 1 <= n <= CONST_PROOF_SIZE_LOG_N && |Words(proof)| == WordCount(n) && |p.libraCommitments| == 3
    requires start == 32 * 29 && GoodUpTo(n, Words(proof), 29)
    ensures r.Err? ==> Fails(n, Words(proof), r.error)
    ensures r.Ok? ==>
              r.value == WithSumcheck(p, Words(proof), n) && boundary == 32 * (76 + 9 * n) &&
              GoodUpTo(n, Words(proof), 76 + 9 * n)
  {
    Kinds(n);
    ghost var ws, at := Words(proof), 29 + 9 * n;
    assert |ws| == at + 53 + 3 * n;
    hide Words, GoodUpTo, Fails, PointAt, RowsAt, Padded, Zeros, KindOf, WordCount;
    boundary := start;
    var rows, evaluations, libraEvaluation, libra1, libra2;
    rows, boundary :- NextRows(proof, n, boundary, 29);
    evaluations, boundary :- NextScalars(proof, n, boundary, NUMBER_OF_ENTITIES_ZK, at);
    libraEvaluation, boundary :- NextScalar(proof, n, boundary, at + 42);
    libra1, boundary :- NextPoint(proof, n, boundary, at + 43);
    libra2, boundary :- NextPoint(proof, n, boundary, at + 45);
    r := Ok(p.(sumcheckUnivariates := Padded(rows, Zeros(9), CONST_PROOF_SIZE_LOG_N),
               sumcheckEvaluations := evaluations,
               libraEvaluation := libraEvaluation,
               libraCommitments := [p.libraCommitments[0], libra1, libra2]));
  }

  /** The struct after the Gemini section. */
  function WithGemini(p: ZKProof, ws: seq<nat>, n: nat): ZKProof
    requires 1 <= n <= CONST_PROOF_SIZE_LOG_N && |ws| == WordCount(n)
  {
    p.(geminiFoldComms := Padded(PointsAt(ws, 76 + 9 * n, n - 1), NO_POINT, CONST_PROOF_SIZE_LOG_N - 1),
       geminiAEvaluations := Padded(ws[74 + 11 * n..74 + 12 * n], 0, CONST_PROOF_SIZE_LOG_N))
  }

  method LoadGemini(proof: Bytes, n: nat, start: nat, p: ZKProof) returns (r: Result<ZKProof, LoadError>, boundary: nat)
    requires 1 <= n <= CONST_PROOF_SIZE_LOG_N && |Words(proof)| == WordCount(n)
    requires start == 32 * (76 + 9 * n) && GoodUpTo(n, Words(proof), 76 + 9 * n)
    ensures r.Err? ==> Fails(n, Words(proof), r.error)
    ensures r.Ok? ==>
              r.value == WithGemini(p, Words(proof), n) && boundary == 32 * (74 + 12 * n) &&
              GoodUpTo(n, Words(proof), 74 + 12 * n)
  {
    Kinds(n);
    assert WordCount(n) == 82 + 12 * n;
    hide Words, GoodUpTo, Fails, PointsAt, Padded, KindOf, WordCount;
    boundary := start;
    var folds, aEvaluations;
    folds, boundary :- NextPoints(proof, n, boundary, n - 1, 76 + 9 * n);
    aEvaluations, boundary :- NextScalars(proof, n, boundary, n, 74 + 11 * n);
    r := Ok(p.(geminiFoldComms := Padded(folds, NO_POINT, CONST_PROOF_SIZE_LOG_N - 1),
               geminiAEvaluations := Padded(aEvaluations, 0, CONST_PROOF_SIZE_LOG_N)));
  }

  /** The struct after the opening commitments at the end. */
  function WithOpenings(p: ZKProof, ws: seq<nat>, n: nat): ZKProof
    requires |ws| == WordCount(n)
  {
    p.(libraPolyEvals := ws[74 + 12 * n..78 + 12 * n],
       shplonkQ := PointAt(ws, 78 + 12 * n),
       kzgQuotient := PointAt(ws, 80 + 12 * n))
  }

  method LoadOpenings(proof: Bytes, n: nat, start: nat, p: ZKProof)
    returns (r: Result<ZKProof, LoadError>, boundary: nat)
    requires 1 <= n && |Words(proof)| == WordCount(n)
    requires start == 32 * (74 + 12 * n) && GoodUpTo(n, Words(proof), 74 + 12 * n)
    ensures r.Err? ==> Fails(n, Words(proof), r.error)
    ensures r.Ok? ==>
              r.value == WithOpenings(p, Words(proof), n) && boundary == 32 * WordCount(n) &&
              GoodUpTo(n, Words(proof), WordCount(n))
  {
    Kinds(n);
    hide Words, GoodUpTo, Fails, PointAt, KindOf;
    boundary := start;
    var polyEvals, shplonkQ, kzg;
    polyEvals, boundary :- NextScalars(proof, n, boundary, 4, 74 + 12 * n);
    shplonkQ, boundary :- NextPoint(proof, n, boundary, 78 + 12 * n);
    kzg, boundary :- NextPoint(proof, n, boundary, 80 + 12 * n);
    r := Ok(p.(libraPolyEvals := polyEvals, shplonkQ := shplonkQ, kzgQuotient := kzg));
  }

  lemma Assembled(ws: seq<nat>, n: nat)
    requires 1 <= n <= CONST_PROOF_SIZE_LOG_N && |ws| == WordCount(n)
    ensures Parsed(ws, n) == WithOpenings(WithGemini(WithSumcheck(Head(ws), ws, n), ws, n), ws, n)
  {
    hide PointAt, PointsAt, RowsAt, Padded, Zeros;
  }

  /** The loader. On a buffer of the demanded size every slice is in bounds and the last one ends at the end. */
  method LoadProof(proof: Bytes, logN: nat) returns (r: Result<ZKProof, LoadError>, ghost end: nat)
    requires Bn254() && 1 <= logN <= CONST_PROOF_SIZE_LOG_N && |proof| == FIELD_ELEMENT_SIZE * WordCount(logN)
    ensures r.Err? ==> Fails(logN, Words(proof), r.error)
    ensures r.Ok? ==>
              r.value == Parsed(Words(proof), logN) && GoodUpTo(logN, Words(proof), WordCount(logN)) && end == |proof|
  {
    LimbsInField();
    Assembled(Words(proof), logN);
    hide Words, GoodUpTo, Fails, Bn254, Head, WithSumcheck, WithGemini, WithOpenings, Parsed;
    end := 0;
    var p, boundary;
    p, boundary :- LoadHead(proof, logN);
    p, boundary :- LoadSumcheck(proof, logN, boundary, p);
    p, boundary :- LoadGemini(proof, logN, boundary, p);
    p, boundary :- LoadOpenings(proof, logN, boundary, p);
    end := boundary;
    r := Ok(p);
  }

  /** The entry point up to the transcript: the size is checked before the proof is loaded. */
  method CheckAndLoad(proof: Bytes, logN: nat) returns (r: Result<ZKProof, LoadError>)
    requires Bn254() && 1 <= logN <= CONST_PROOF_SIZE_LOG_N
    ensures |proof| != FIELD_ELEMENT_SIZE * WordCount(logN) <==> r == Err(ProofLengthWrong)
    ensures |proof| == FIELD_ELEMENT_SIZE * WordCount(logN) ==>
              (r.Ok? <==> GoodUpTo(logN, Words(proof), WordCount(logN))) &&
              (r.Ok? ==> r.value == Parsed(Words(proof), logN)) &&
              (r.Err? ==> Fails(logN, Words(proof), r.error))
  {
    var expectedProofSize := CalculateProofSize(logN);
    if |proof| != expectedProofSize {
      return Err(ProofLengthWrong);
    }
    ghost var end;
    r, end := LoadProof(proof, logN);
    hide Words, Parsed;
  }

  // ----- What is refused, by position -----

  /** Word k is too large for its place: limbs for 136 and 120 bits, points for the base field, scalars for P. */
  ghost predicate TooLarge(n: nat, k: nat, w: nat, e: LoadError) {
    if k < 8 then
      e == ValueGeLimbMax &&
      w >= if k % 2 == 0 then 0x100_0000_0000_0000_0000_0000_0000_0000_0000
           else 0x100_0000_0000_0000_0000_0000_0000_0000
    else if k < 28 || 72 + 9 * n <= k < 74 + 11 * n || 78 + 12 * n <= k then
      e == ValueGeGroupOrder &&
      w >= 21888242871839275222246405745257275088696311157297823662689037894645226208583
    else e == ValueGeFieldOrder && w >= P
  }

  /** A loader fails with the error of the first word that is too large for its place. */
  lemma FailsExactly(n: nat, ws: seq<nat>, k: nat, e: LoadError)
    requires n >= 1
    ensures FailsAt(n, ws, k, e) <==>
            k < |ws| && TooLarge(n, k, ws[k], e) &&
            forall j: nat, other | j < k :: !TooLarge(n, j, ws[j], other)
  {
    hide TooLarge, InRange;
    forall j: nat | j < |ws|
      ensures InRange(n, ws, j) <==> !TooLarge(n, j, ws[j], ErrorOf(KindOf(n, j)))
      ensures forall other :: TooLarge(n, j, ws[j], other) ==> other == ErrorOf(KindOf(n, j))
    {
      RangeOfWord(n, ws, j);
    }
  }

  lemma RangeOfWord(n: nat, ws: seq<nat>, k: nat)
    requires n >= 1 && k < |ws|
    ensures InRange(n, ws, k) <==> !TooLarge(n, k, ws[k], ErrorOf(KindOf(n, k)))
    ensures forall e :: TooLarge(n, k, ws[k], e) ==> e == ErrorOf(KindOf(n, k))
  {}

  /** The loaded arrays have their declared lengths, whatever the size of the circuit. */
  lemma ParsedSizes(ws: seq<nat>, n: nat)
    requires 1 <= n <= 25 && |ws| == 82 + 12 * n
    ensures var p := Parsed(ws, n);
            |p.pairingPointObject| == 8 && |p.libraCommitments| == 3 && |p.sumcheckUnivariates| == 25 &&
            (forall row | row in p.sumcheckUnivariates :: |row| == 9) && |p.sumcheckEvaluations| == 42 &&
            |p.geminiFoldComms| == 24 && |p.geminiAEvaluations| == 25 && |p.libraPolyEvals| == 4
  {}

  /** Two accepted limbs are a number of 256 bits. */
  lemma LimbsAre256Bits(n: nat, ws: seq<nat>, j: nat)
    requires 8 <= |ws| && GoodUpTo(n, ws, 8) && j < 4
    ensures ws[2 * j] + 0x100_0000_0000_0000_0000_0000_0000_0000_0000 * ws[2 * j + 1] <
            0x1_0000_0000_0000_0000_0000_0000_0000_0000_0000_0000_0000_0000_0000_0000_0000_0000
  {
    assert InRange(n, ws, 2 * j) && InRange(n, ws, 2 * j + 1);
  }
}
