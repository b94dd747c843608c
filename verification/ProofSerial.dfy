/** Writing a proof back as bytes: buffers of the right size and proofs with words in range correspond one to one. */
module ProofSerial {
  import opened Options
  import opened ByteStrings
  import opened Field
  import opened OutputWord
  import opened ProofLayout

  // ----- Proofs as words -----

  function PointWords(g: G1Point): (ws: seq<nat>)
    ensures |ws| == 2
  {
    [g.x, g.y]
  }

  function PointsWords(points: seq<G1Point>, m: nat): (ws: seq<nat>)
    requires m <= |points|
    ensures |ws| == 2 * m
  {
    if m == 0 then [] else PointsWords(points, m - 1) + PointWords(points[m - 1])
  }

  function RowsWords(rows: seq<seq<nat>>, m: nat): (ws: seq<nat>)
    requires m <= |rows| && forall i | 0 <= i < |rows| :: |rows[i]| == 9
    ensures |ws| == 9 * m
  {
    if m == 0 then [] else RowsWords(rows, m - 1) + rows[m - 1]
  }

  /** Declared array sizes, and zeros in the slots the loader does not fill. */
  ghost predicate ProofShaped(p: ZKProof, n: nat) {
    1 <= n <= CONST_PROOF_SIZE_LOG_N &&
    |p.pairingPointObject| == PAIRING_POINTS_SIZE && |p.libraCommitments| == 3 &&
    |p.sumcheckUnivariates| == CONST_PROOF_SIZE_LOG_N &&
    (forall i | 0 <= i < CONST_PROOF_SIZE_LOG_N :: |p.sumcheckUnivariates[i]| == 9) &&
    (forall i | n <= i < CONST_PROOF_SIZE_LOG_N :: p.sumcheckUnivariates[i] == Zeros(9)) &&
    |p.sumcheckEvaluations| == NUMBER_OF_ENTITIES_ZK &&
    |p.geminiFoldComms| == CONST_PROOF_SIZE_LOG_N - 1 &&
    (forall i | n - 1 <= i < CONST_PROOF_SIZE_LOG_N - 1 :: p.geminiFoldComms[i] == NO_POINT) &&
    |p.geminiAEvaluations| == CONST_PROOF_SIZE_LOG_N &&
    (forall i | n <= i < CONST_PROOF_SIZE_LOG_N :: p.geminiAEvaluations[i] == 0) &&
    |p.libraPolyEvals| == 4
  }

  function HeadWords(p: ZKProof): (ws: seq<nat>)
    requires |p.pairingPointObject| == 8 && |p.libraCommitments| == 3
    ensures |ws| == 29
  {
    p.pairingPointObject + PointWords(p.geminiMaskingPoly) + PointWords(p.w1) + PointWords(p.w2) + PointWords(p.w3) +
    PointWords(p.lookupReadCounts) + PointWords(p.lookupReadTags) + PointWords(p.w4) + PointWords(p.lookupInverses) +
    PointWords(p.zPerm) + PointWords(p.libraCommitments[0]) + [p.libraSum]
  }

  ghost function SumcheckWords(p: ZKProof, n: nat): (ws: seq<nat>)
    requires ProofShaped(p, n)
    ensures |ws| == 47 + 9 * n
  {
    RowsWords(p.sumcheckUnivariates, n) + p.sumcheckEvaluations + [p.libraEvaluation] +
    PointWords(p.libraCommitments[1]) + PointWords(p.libraCommitments[2])
  }

  ghost function OpeningWords(p: ZKProof, n: nat): (ws: seq<nat>)
    requires ProofShaped(p, n)
    ensures |ws| == 6 + 3 * n
  {
    PointsWords(p.geminiFoldComms, n - 1) + p.geminiAEvaluations[..n] + p.libraPolyEvals + PointWords(p.shplonkQ) +
    PointWords(p.kzgQuotient)
  }

  /** The words of a proof in wire order. */
  ghost function ProofWords(p: ZKProof, n: nat): (ws: seq<nat>)
    requires ProofShaped(p, n)
    ensures |ws| == WordCount(n)
  {
    HeadWords(p) + SumcheckWords(p, n) + OpeningWords(p, n)
  }

  // ----- The words of what was parsed are the words it was parsed from -----

  lemma ParsedShaped(ws: seq<nat>, n: nat)
    requires 1 <= n <= CONST_PROOF_SIZE_LOG_N && |ws| == WordCount(n)
    ensures ProofShaped(Parsed(ws, n), n)
  {}

  lemma {:induction false} PointsBack(ws: seq<nat>, at: nat, points: seq<G1Point>, m: nat)
    requires at + 2 * m <= |ws| && m <= |points| && forall i | 0 <= i < m :: points[i] == PointAt(ws, at + 2 * i)
    ensures PointsWords(points, m) == ws[at..at + 2 * m]
  {
    if m > 0 {
      PointsBack(ws, at, points, m - 1);
      assert ws[at..at + 2 * m] == ws[at..at + 2 * (m - 1)] + [ws[at + 2 * (m - 1)], ws[at + 2 * (m - 1) + 1]];
    }
  }

  lemma {:induction false} RowsBack(ws: seq<nat>, at: nat, rows: seq<seq<nat>>, m: nat)
    requires at + 9 * m <= |ws| && m <= |rows| && forall i | 0 <= i < |rows| :: |rows[i]| == 9
    requires forall i | 0 <= i < m :: rows[i] == ws[at + 9 * i..at + 9 * i + 9]
    ensures RowsWords(rows, m) == ws[at..at + 9 * m]
  {
    if m > 0 {
      RowsBack(ws, at, rows, m - 1);
      assert ws[at..at + 9 * m] == ws[at..at + 9 * (m - 1)] + ws[at + 9 * (m - 1)..at + 9 * (m - 1) + 9];
    }
  }

  lemma HeadBack(ws: seq<nat>, n: nat)
    requires 1 <= n <= CONST_PROOF_SIZE_LOG_N && |ws| == WordCount(n)
    ensures HeadWords(Parsed(ws, n)) == ws[..29]
  {
    hide Padded, PointsAt, RowsAt;
  }

  lemma UnivariatesBack(ws: seq<nat>, n: nat)
    requires 1 <= n <= CONST_PROOF_SIZE_LOG_N && |ws| == WordCount(n) && ProofShaped(Parsed(ws, n), n)
    ensures RowsWords(Parsed(ws, n).sumcheckUnivariates, n) == ws[29..29 + 9 * n]
  {
    var p := Parsed(ws, n);
    forall i | 0 <= i < n
      ensures p.sumcheckUnivariates[i] == ws[29 + 9 * i..29 + 9 * i + 9]
    {
      assert p.sumcheckUnivariates[i] == RowsAt(ws, 29, n)[i];
    }
    RowsBack(ws, 29, p.sumcheckUnivariates, n);
  }

  lemma SumcheckSlices(ws: seq<nat>, a: nat, b: nat, c: nat)
    requires a <= b <= c && c + 5 <= |ws|
    ensures ws[a..c + 5] == ws[a..b] + ws[b..c] + [ws[c]] + [ws[c + 1], ws[c + 2]] + [ws[c + 3], ws[c + 4]]
  {}

  lemma SumcheckBack(ws: seq<nat>, n: nat)
    requires 1 <= n <= CONST_PROOF_SIZE_LOG_N && |ws| == WordCount(n) && ProofShaped(Parsed(ws, n), n)
    ensures SumcheckWords(Parsed(ws, n), n) == ws[29..76 + 9 * n]
  {
    UnivariatesBack(ws, n);
    hide RowsWords, Padded, PointsAt, RowsAt, ProofShaped;
    SumcheckSlices(ws, 29, 29 + 9 * n, 71 + 9 * n);
  }

  lemma FoldsBack(ws: seq<nat>, n: nat)
    requires 1 <= n <= CONST_PROOF_SIZE_LOG_N && |ws| == WordCount(n) && ProofShaped(Parsed(ws, n), n)
    ensures PointsWords(Parsed(ws, n).geminiFoldComms, n - 1) == ws[76 + 9 * n..74 + 11 * n]
  {
    var p := Parsed(ws, n);
    forall i | 0 <= i < n - 1
      ensures p.geminiFoldComms[i] == PointAt(ws, 76 + 9 * n + 2 * i)
    {
      assert p.geminiFoldComms[i] == PointsAt(ws, 76 + 9 * n, n - 1)[i];
    }
    PointsBack(ws, 76 + 9 * n, p.geminiFoldComms, n - 1);
  }

  lemma OpeningSlices(ws: seq<nat>, a: nat, b: nat, c: nat, folds: seq<nat>, evaluations: seq<nat>, polys: seq<nat>,
                      q: seq<nat>, k: seq<nat>)
    requires a <= b <= c && c + 8 == |ws| && folds == ws[a..b] && evaluations == ws[b..c] && polys == ws[c..c + 4]
    requires q == [ws[c + 4], ws[c + 5]] && k == [ws[c + 6], ws[c + 7]]
    ensures folds + evaluations + polys + q + k == ws[a..]
  {}

  lemma OpeningFields(ws: seq<nat>, n: nat)
    requires 1 <= n <= CONST_PROOF_SIZE_LOG_N && |ws| == WordCount(n) && ProofShaped(Parsed(ws, n), n)
    ensures var p, c := Parsed(ws, n), 74 + 12 * n;
            p.geminiAEvaluations[..n] == ws[74 + 11 * n..c] && p.libraPolyEvals == ws[c..c + 4] &&
            PointWords(p.shplonkQ) == [ws[c + 4], ws[c + 5]] && PointWords(p.kzgQuotient) == [ws[c + 6], ws[c + 7]]
  {
    var evaluations := ws[74 + 11 * n..74 + 12 * n];
    assert |evaluations| == n;
    hide Padded, PointsAt, RowsAt, ProofShaped;
  }

  lemma OpeningsBack(ws: seq<nat>, n: nat)
    requires 1 <= n <= CONST_PROOF_SIZE_LOG_N && |ws| == WordCount(n) && ProofShaped(Parsed(ws, n), n)
    ensures OpeningWords(Parsed(ws, n), n) == ws[76 + 9 * n..]
  {
    FoldsBack(ws, n);
    OpeningFields(ws, n);
    assert WordCount(n) == 82 + 12 * n;
    hide *;
    OpeningsJoin(ws, n, Parsed(ws, n));
  }

  lemma OpeningsJoin(ws: seq<nat>, n: nat, p: ZKProof)
    requires 1 <= n && |ws| == 82 + 12 * n && ProofShaped(p, n)
    requires PointsWords(p.geminiFoldComms, n - 1) == ws[76 + 9 * n..74 + 11 * n]
    requires var c := 74 + 12 * n;
             p.geminiAEvaluations[..n] == ws[74 + 11 * n..c] && p.libraPolyEvals == ws[c..c + 4] &&
             PointWords(p.shplonkQ) == [ws[c + 4], ws[c + 5]] && PointWords(p.kzgQuotient) == [ws[c + 6], ws[c + 7]]
    ensures OpeningWords(p, n) == ws[76 + 9 * n..]
  {
    hide PointsWords, PointWords;
    OpeningSlices(ws, 76 + 9 * n, 74 + 11 * n, 74 + 12 * n, PointsWords(p.geminiFoldComms, n - 1),
                  p.geminiAEvaluations[..n], p.libraPolyEvals, PointWords(p.shplonkQ), PointWords(p.kzgQuotient));
  }

  /** Parsing loses no word. */
  lemma WordsBack(ws: seq<nat>, n: nat)
    requires 1 <= n <= CONST_PROOF_SIZE_LOG_N && |ws| == WordCount(n)
    ensures ProofShaped(Parsed(ws, n), n) && ProofWords(Parsed(ws, n), n) == ws
  {
    ParsedShaped(ws, n);
    HeadBack(ws, n);
    SumcheckBack(ws, n);
    OpeningsBack(ws, n);
    hide Parsed, HeadWords, SumcheckWords, OpeningWords;
    assert ws == ws[..29] + ws[29..76 + 9 * n] + ws[76 + 9 * n..];
  }

  // ----- The words determine the proof -----

  lemma {:induction false} PointsDetermined(a: seq<G1Point>, b: seq<G1Point>, m: nat)
    requires m <= |a| && m <= |b| && PointsWords(a, m) == PointsWords(b, m)
    ensures forall i | 0 <= i < m :: a[i] == b[i]
  {
    if m > 0 {
      SplitEqual(PointsWords(a, m - 1), PointsWords(b, m - 1), PointWords(a[m - 1]), PointWords(b[m - 1]));
      PointDetermined(a[m - 1], b[m - 1]);
      PointsDetermined(a, b, m - 1);
    }
  }

  lemma PointDetermined(g: G1Point, h: G1Point)
    requires PointWords(g) == PointWords(h)
    ensures g == h
  {
    assert PointWords(g)[0] == PointWords(h)[0] && PointWords(g)[1] == PointWords(h)[1];
  }

  lemma {:induction false} RowsDetermined(a: seq<seq<nat>>, b: seq<seq<nat>>, m: nat)
    requires m <= |a| && m <= |b|
    requires (forall i | 0 <= i < |a| :: |a[i]| == 9) && (forall i | 0 <= i < |b| :: |b[i]| == 9)
    requires RowsWords(a, m) == RowsWords(b, m)
    ensures forall i | 0 <= i < m :: a[i] == b[i]
  {
    if m > 0 {
      SplitEqual(RowsWords(a, m - 1), RowsWords(b, m - 1), a[m - 1], b[m - 1]);
      RowsDetermined(a, b, m - 1);
    }
  }

  /** Where the fields of the first section stand. */
  lemma HeadAt(p: ZKProof)
    requires |p.pairingPointObject| == 8 && |p.libraCommitments| == 3
    ensures var h := HeadWords(p);
            h[..8] == p.pairingPointObject && p.geminiMaskingPoly == PointAt(h, 8) && p.w1 == PointAt(h, 10) &&
            p.w2 == PointAt(h, 12) && p.w3 == PointAt(h, 14) && p.lookupReadCounts == PointAt(h, 16) &&
            p.lookupReadTags == PointAt(h, 18) && p.w4 == PointAt(h, 20) && p.lookupInverses == PointAt(h, 22) &&
            p.zPerm == PointAt(h, 24) && p.libraCommitments[0] == PointAt(h, 26) && p.libraSum == h[28]
  {}

  lemma SumcheckDetermined(p: ZKProof, q: ZKProof, n: nat)
    requires ProofShaped(p, n) && ProofShaped(q, n) && SumcheckWords(p, n) == SumcheckWords(q, n)
    ensures p.sumcheckUnivariates == q.sumcheckUnivariates && p.sumcheckEvaluations == q.sumcheckEvaluations
    ensures p.libraEvaluation == q.libraEvaluation
    ensures p.libraCommitments[1..] == q.libraCommitments[1..]
  {
    var a, b := RowsWords(p.sumcheckUnivariates, n), RowsWords(q.sumcheckUnivariates, n);
    var a2, b2 := a + p.sumcheckEvaluations, b + q.sumcheckEvaluations;
    var a3, b3 := a2 + [p.libraEvaluation], b2 + [q.libraEvaluation];
    var l1, k1 := PointWords(p.libraCommitments[1]), PointWords(q.libraCommitments[1]);
    var l2, k2 := PointWords(p.libraCommitments[2]), PointWords(q.libraCommitments[2]);
    hide RowsWords, PointWords;
    SplitEqual(a3 + l1, b3 + k1, l2, k2);
    SplitEqual(a3, b3, l1, k1);
    SplitEqual(a2, b2, [p.libraEvaluation], [q.libraEvaluation]);
    SplitEqual(a, b, p.sumcheckEvaluations, q.sumcheckEvaluations);
    PointDetermined(p.libraCommitments[1], q.libraCommitments[1]);
    PointDetermined(p.libraCommitments[2], q.libraCommitments[2]);
    RowsDetermined(p.sumcheckUnivariates, q.sumcheckUnivariates, n);
    assert [p.libraEvaluation][0] == [q.libraEvaluation][0];
  }

  lemma OpeningsDetermined(p: ZKProof, q: ZKProof, n: nat)
    requires ProofShaped(p, n) && ProofShaped(q, n) && OpeningWords(p, n) == OpeningWords(q, n)
    ensures p.geminiFoldComms == q.geminiFoldComms && p.geminiAEvaluations == q.geminiAEvaluations
    ensures p.libraPolyEvals == q.libraPolyEvals && p.shplonkQ == q.shplonkQ && p.kzgQuotient == q.kzgQuotient
  {
    var a, b := PointsWords(p.geminiFoldComms, n - 1), PointsWords(q.geminiFoldComms, n - 1);
    var a2, b2 := a + p.geminiAEvaluations[..n], b + q.geminiAEvaluations[..n];
    var a3, b3 := a2 + p.libraPolyEvals, b2 + q.libraPolyEvals;
    var s, t := PointWords(p.shplonkQ), PointWords(q.shplonkQ);
    var k, l := PointWords(p.kzgQuotient), PointWords(q.kzgQuotient);
    hide PointsWords, PointWords;
    SplitEqual(a3 + s, b3 + t, k, l);
    SplitEqual(a3, b3, s, t);
    SplitEqual(a2, b2, p.libraPolyEvals, q.libraPolyEvals);
    SplitEqual(a, b, p.geminiAEvaluations[..n], q.geminiAEvaluations[..n]);
    PointDetermined(p.shplonkQ, q.shplonkQ);
    PointDetermined(p.kzgQuotient, q.kzgQuotient);
    PointsDetermined(p.geminiFoldComms, q.geminiFoldComms, n - 1);
    forall i | 0 <= i < CONST_PROOF_SIZE_LOG_N
      ensures p.geminiAEvaluations[i] == q.geminiAEvaluations[i]
    {
      if i < n { assert p.geminiAEvaluations[..n][i] == q.geminiAEvaluations[..n][i]; }
    }
  }

  lemma WordsDetermine(p: ZKProof, q: ZKProof, n: nat)
    requires ProofShaped(p, n) && ProofShaped(q, n) && ProofWords(p, n) == ProofWords(q, n)
    ensures p == q
  {
    hide HeadWords, SumcheckWords, OpeningWords, PointAt;
    SplitEqual(HeadWords(p) + SumcheckWords(p, n), HeadWords(q) + SumcheckWords(q, n), OpeningWords(p, n),
               OpeningWords(q, n));
    SplitEqual(HeadWords(p), HeadWords(q), SumcheckWords(p, n), SumcheckWords(q, n));
    HeadAt(p);
    HeadAt(q);
    SumcheckDetermined(p, q, n);
    OpeningsDetermined(p, q, n);
    assert p.libraCommitments == [p.libraCommitments[0]] + p.libraCommitments[1..];
    assert q.libraCommitments == [q.libraCommitments[0]] + q.libraCommitments[1..];
  }

  /** Parsing the words of a proof gives the proof. */
  lemma ParsedBack(p: ZKProof, n: nat)
    requires ProofShaped(p, n)
    ensures Parsed(ProofWords(p, n), n) == p
  {
    WordsBack(ProofWords(p, n), n);
    WordsDetermine(Parsed(ProofWords(p, n), n), p, n);
  }

  // ----- Words as bytes -----

  function Serialised(ws: seq<nat>): (b: Bytes)
    ensures |b| == 32 * |ws|
  {
    if ws == [] then [] else Serialised(ws[..|ws| - 1]) + BigEndian(ws[|ws| - 1], 32)
  }

  lemma WordFront(b: Bytes, k: nat)
    requires |b| % 32 == 0 && 0 < |b| && k < |b| / 32 - 1
    ensures WordAt(b, k) == WordAt(b[..|b| - 32], k)
  {
    assert b[32 * k..32 * k + 32] == b[..|b| - 32][32 * k..32 * k + 32];
  }

  lemma WordsFront(b: Bytes)
    requires |b| % 32 == 0 && 0 < |b|
    ensures Words(b) == Words(b[..|b| - 32]) + [FromBigEndian(b[|b| - 32..])]
  {
    hide FromBigEndian;
    var m := |b| / 32 - 1;
    assert 32 * m == |b| - 32 && |b[..|b| - 32]| / 32 == m;
    assert b[|b| - 32..] == b[32 * m..32 * m + 32];
    forall k: nat | k < m
      ensures WordAt(b, k) == WordAt(b[..|b| - 32], k)
    {
      WordFront(b, k);
    }
  }

  /** Bytes to words and back. */
  lemma {:induction false} SerialisedWords(b: Bytes)
    requires |b| % 32 == 0
    ensures Serialised(Words(b)) == b
    decreases |b|
  {
    hide Words, Serialised, BigEndian, FromBigEndian;
    if b == [] {
      NothingSerialised();
    } else {
      FrontWhole(|b|);
      var front, last := b[..|b| - 32], b[|b| - 32..];
      WordsFront(b);
      SerialisedWords(front);
      SerialisedLast(Words(front), FromBigEndian(last));
      BigEndianBack(last);
      assert b == front + last;
    }
  }

  lemma NothingSerialised()
    ensures Serialised(Words([])) == []
  {}

  lemma FrontWhole(m: nat)
    requires m % 32 == 0 && m > 0
    ensures m >= 32 && (m - 32) % 32 == 0
  {}

  lemma SerialisedLast(ws: seq<nat>, w: nat)
    ensures Serialised(ws + [w]) == Serialised(ws) + BigEndian(w, 32)
  {
    assert (ws + [w])[..|ws|] == ws;
    hide BigEndian;
  }

  /** Words to bytes and back, when each fits 32 bytes. */
  lemma {:induction false} WordsSerialised(ws: seq<nat>)
    requires forall k | 0 <= k < |ws| :: ws[k] < Pow256(32)
    ensures Words(Serialised(ws)) == ws
    decreases |ws|
  {
    hide BigEndian, FromBigEndian, Pow256;
    if ws != [] {
      var front, last := ws[..|ws| - 1], ws[|ws| - 1];
      var b := Serialised(ws);
      WordsSerialised(front);
      BigEndianRoundTrip(last, 32);
      WordsFront(b);
      assert b[..|b| - 32] == Serialised(front) && b[|b| - 32..] == BigEndian(last, 32);
      assert ws == front + [last];
    }
  }

  // ----- Buffers and proofs -----

  /** No two buffers of the right size load to the same proof. */
  lemma LoadedProofDeterminesBytes(a: Bytes, b: Bytes, n: nat)
    requires 1 <= n <= CONST_PROOF_SIZE_LOG_N && |a| == |b| == FIELD_ELEMENT_SIZE * WordCount(n)
    requires |Words(a)| == |Words(b)| == WordCount(n)
    requires Parsed(Words(a), n) == Parsed(Words(b), n)
    ensures a == b
  {
    WordsBack(Words(a), n);
    WordsBack(Words(b), n);
    hide Words, Parsed;
    SerialisedWords(a);
    SerialisedWords(b);
  }

  lemma BoundsFit(kind: Kind)
    requires Bn254()
    ensures Bound(kind) <= Pow256(32)
  {
    WordLimits();
    assert Pow256(16) == 0x1_0000_0000_0000_0000_0000_0000_0000_0000;
    assert Pow256(24) == 0x1_0000_0000_0000_0000_0000_0000_0000_0000_0000_0000_0000_0000;
  }

  /** Every proof whose words are in range is loaded, word for word, from the bytes written for it. */
  lemma SerialisedProofLoads(p: ZKProof, n: nat)
    requires Bn254() && ProofShaped(p, n) && GoodUpTo(n, ProofWords(p, n), WordCount(n))
    ensures var b := Serialised(ProofWords(p, n));
            |b| == FIELD_ELEMENT_SIZE * WordCount(n) && |Words(b)| == WordCount(n) &&
            GoodUpTo(n, Words(b), WordCount(n)) && Parsed(Words(b), n) == p
  {
    var ws := ProofWords(p, n);
    forall k | 0 <= k < |ws|
      ensures ws[k] < Pow256(32)
    {
      assert InRange(n, ws, k);
      BoundsFit(KindOf(n, k));
    }
    WordsSerialised(ws);
    ParsedBack(p, n);
  }
}
