/** The proof bundle of the standalone verifier: its writer, its checker, and exactly what the checker accepts. */
module VerifyProof {
  import opened Options
  import opened ByteStrings

  type Hash = b: Bytes | |b| == 32 witness seq(32, _ => 0)

  const MAGIC: Bytes := [112, 114, 118, 110]
  const VERSION: Byte := 1
  const HEADER_SIZE: nat := 4 + 1 + 32 * 6 + 4
  const INTEGRITY_SIZE: nat := 32
  const MIN_PROOF_LEN: nat := HEADER_SIZE + INTEGRITY_SIZE

  datatype PublicInputs = PublicInputs(
    programHash: Hash,
    inputHash: Hash,
    toolResponsesHash: Hash,
    outputHash: Hash,
    attestationHash: Hash,
    policyHash: Hash)

  datatype Malformed =
    | TooShort(len: nat)
    | BadMagic
    | BadVersion(version: Byte)
    | Truncated(blobLen: nat, remaining: nat)

  datatype VerifyError =
    | ProofInvalid
    | PolicyHashMismatch(got: Hash, expected: Hash)
    | MalformedInput(reason: Malformed)

  // ----- The digest over the six commitments -----

  /** The six hashes in declaration order. */
  function Commitments(p: PublicInputs): (b: Bytes)
    ensures |b| == 192
  {
    p.programHash + p.inputHash + p.toolResponsesHash + p.outputHash + p.attestationHash + p.policyHash
  }

  method DigestSha256(p: PublicInputs, sha256: Bytes -> Hash) returns (d: Hash)
    ensures d == sha256(Commitments(p))
  {
    var h: Bytes := [];
    h := h + p.programHash;
    h := h + p.inputHash;
    h := h + p.toolResponsesHash;
    h := h + p.outputHash;
    h := h + p.attestationHash;
    h := h + p.policyHash;
    assert h == Commitments(p);
    d := sha256(h);
  }

  /** Hash i of a run of 32-byte hashes that starts at pos. */
  function HashAt(b: Bytes, pos: nat): Hash
    requires pos + 32 <= |b|
  {
    b[pos..pos + 32]
  }

  function CommitmentsAt(b: Bytes, pos: nat): PublicInputs
    requires pos + 192 <= |b|
  {
    PublicInputs(HashAt(b, pos), HashAt(b, pos + 32), HashAt(b, pos + 64), HashAt(b, pos + 96), HashAt(b, pos + 128),
                 HashAt(b, pos + 160))
  }

  /** The six hashes can be read back wherever they stand. */
  lemma CommitmentsRead(b: Bytes, pos: nat, p: PublicInputs)
    requires pos + 192 <= |b|
    ensures b[pos..pos + 192] == Commitments(p) <==> CommitmentsAt(b, pos) == p
  {
    var s := b[pos..pos + 192];
    assert s == Commitments(CommitmentsAt(b, pos));
    CommitmentParts(p);
    assert HashAt(b, pos) == s[0..32] && HashAt(b, pos + 32) == s[32..64] && HashAt(b, pos + 64) == s[64..96];
    assert HashAt(b, pos + 96) == s[96..128] && HashAt(b, pos + 128) == s[128..160];
    assert HashAt(b, pos + 160) == s[160..192];
  }

  lemma CommitmentParts(p: PublicInputs)
    ensures var c := Commitments(p);
            c[0..32] == p.programHash && c[32..64] == p.inputHash && c[64..96] == p.toolResponsesHash &&
            c[96..128] == p.outputHash && c[128..160] == p.attestationHash && c[160..192] == p.policyHash
  {}

  /** The digest binds all six commitments and their order, unless SHA-256 collides on the two preimages. */
  lemma DigestBinds(p: PublicInputs, q: PublicInputs, sha256: Bytes -> Hash)
    requires sha256(Commitments(p)) == sha256(Commitments(q)) ==> Commitments(p) == Commitments(q)
    ensures sha256(Commitments(p)) == sha256(Commitments(q)) <==> p == q
  {
    var b := Commitments(p);
    assert b[0..192] == b;
    CommitmentsRead(b, 0, p);
    CommitmentsRead(b, 0, q);
  }

  // ----- The writer -----

  function Header(p: PublicInputs, blobLen: nat): (b: Bytes)
    ensures |b| == HEADER_SIZE
  {
    MAGIC + [VERSION] + Commitments(p) + U32(blobLen)
  }

  /** Everything before the trailing hash. */
  function Body(p: PublicInputs, blob: Bytes): Bytes { Header(p, |blob|) + blob }

  function Bundle(p: PublicInputs, blob: Bytes, sha256: Bytes -> Hash): Bytes { Body(p, blob) + sha256(Body(p, blob)) }

  method BuildTestProof(p: PublicInputs, blob: Bytes, sha256: Bytes -> Hash) returns (buf: Bytes)
    ensures buf == Bundle(p, blob, sha256)
  {
    buf := MAGIC;
    buf := buf + [VERSION];
    buf := buf + p.programHash;
    buf := buf + p.inputHash;
    buf := buf + p.toolResponsesHash;
    buf := buf + p.outputHash;
    buf := buf + p.attestationHash;
    buf := buf + p.policyHash;
    assert buf == MAGIC + [VERSION] + Commitments(p);
    buf := buf + U32(|blob|);
    buf := buf + blob;
    var integrity := sha256(buf);
    buf := buf + integrity;
  }

  // ----- The checker -----

  /** The structure the checker demands, in the order of its tests. */
  function Structure(proof: Bytes): Option<Malformed> {
    if |proof| < MIN_PROOF_LEN then Some(TooShort(|proof|))
    else if proof[..4] != MAGIC then Some(BadMagic)
    else if proof[4] != VERSION then Some(BadVersion(proof[4]))
    else if |proof| < HEADER_SIZE + BlobLen(proof) + INTEGRITY_SIZE
      then Some(Truncated(BlobLen(proof), |proof| - HEADER_SIZE))
    else None
  }

  function BlobLen(proof: Bytes): nat
    requires HEADER_SIZE <= |proof|
  {
    FromLittleEndian(proof[HEADER_SIZE - 4..HEADER_SIZE])
  }

  /** Verdict of the checker, by absolute positions. */
  function Verdict(proof: Bytes, p: PublicInputs, expected: Hash, sha256: Bytes -> Hash)
    : Result<PublicInputs, VerifyError>
  {
    match Structure(proof)
    case Some(reason) => Err(MalformedInput(reason))
    case None =>
      var end := HEADER_SIZE + BlobLen(proof);
      if sha256(proof[..end]) != HashAt(proof, end) then Err(ProofInvalid)
      else if CommitmentsAt(proof, 5) != p then Err(ProofInvalid)
      else if p.policyHash != expected then Err(PolicyHashMismatch(p.policyHash, expected))
      else Ok(p)
  }

  method Read32(proof: Bytes, off: nat) returns (h: Hash, next: nat)
    requires off + 32 <= |proof|
    ensures h == HashAt(proof, off) && next == off + 32
  {
    h := proof[off..off + 32];
    next := off + 32;
  }

  method Check(proof: Bytes, p: PublicInputs, expected: Hash, sha256: Bytes -> Hash)
    returns (r: Result<PublicInputs, VerifyError>)
    ensures r == Verdict(proof, p, expected, sha256)
  {
    hide Commitments;
    if |proof| < MIN_PROOF_LEN {
      return Err(MalformedInput(TooShort(|proof|)));
    }
    if proof[0..4] != MAGIC {
      return Err(MalformedInput(BadMagic));
    }
    if proof[4] != VERSION {
      return Err(MalformedInput(BadVersion(proof[4])));
    }
    var offset := 5;
    var programHash, inputHash, toolResponsesHash, outputHash, attestationHash, policyHash;
    programHash, offset := Read32(proof, offset);
    inputHash, offset := Read32(proof, offset);
    toolResponsesHash, offset := Read32(proof, offset);
    outputHash, offset := Read32(proof, offset);
    attestationHash, offset := Read32(proof, offset);
    policyHash, offset := Read32(proof, offset);
    var embedded := PublicInputs(programHash, inputHash, toolResponsesHash, outputHash, attestationHash, policyHash);
    var blobLen := FromLittleEndian(proof[offset..offset + 4]);
    offset := offset + 4;
    var payloadEnd := offset + blobLen;
    if |proof| < payloadEnd + INTEGRITY_SIZE {
      return Err(MalformedInput(Truncated(blobLen, |proof| - offset)));
    }
    var expectedIntegrity := sha256(proof[..payloadEnd]);
    var gotIntegrity := proof[payloadEnd..payloadEnd + INTEGRITY_SIZE];
    if expectedIntegrity != gotIntegrity {
      return Err(ProofInvalid);
    }
    if embedded != p {
      return Err(ProofInvalid);
    }
    if embedded.policyHash != expected {
      return Err(PolicyHashMismatch(embedded.policyHash, expected));
    }
    return Ok(embedded);
  }

  // ----- What is accepted -----

  /** A well-structured buffer starts with the header of its own fields. */
  lemma HeaderRead(proof: Bytes, p: PublicInputs, n: nat)
    requires HEADER_SIZE <= |proof| && n < U32_LIMIT
    ensures proof[..HEADER_SIZE] == Header(p, n) <==>
            proof[..4] == MAGIC && proof[4] == VERSION && CommitmentsAt(proof, 5) == p && BlobLen(proof) == n
  {
    hide Commitments, LittleEndian, FromLittleEndian, CommitmentsAt;
    CommitmentsRead(proof, 5, p);
    var h := proof[..HEADER_SIZE];
    assert h == proof[..4] + [proof[4]] + proof[5..197] + proof[197..201];
    U32RoundTrip(n);
    if h == Header(p, n) {
      HeaderParts(p, n);
      assert h[..4] == proof[..4] && h[5..197] == proof[5..197] && h[197..] == proof[197..201];
    }
    if BlobLen(proof) == n { EncodeDecode(proof[197..201]); }
  }

  lemma HeaderParts(p: PublicInputs, n: nat)
    ensures var h := Header(p, n);
            h[..4] == MAGIC && h[4] == VERSION && h[5..197] == Commitments(p) && h[197..] == U32(n)
  {
    hide Commitments, LittleEndian;
  }

  /** The bundle of some blob below 2^32 bytes is a prefix of the buffer. */
  ghost predicate StartsWithBundle(proof: Bytes, p: PublicInputs, blob: Bytes, sha256: Bytes -> Hash) {
    |blob| < U32_LIMIT && Bundle(p, blob, sha256) <= proof
  }

  lemma BundleRead(proof: Bytes, p: PublicInputs, blob: Bytes, sha256: Bytes -> Hash)
    requires StartsWithBundle(proof, p, blob, sha256)
    ensures Structure(proof) == None && BlobLen(proof) == |blob| && CommitmentsAt(proof, 5) == p
    ensures sha256(proof[..HEADER_SIZE + |blob|]) == HashAt(proof, HEADER_SIZE + |blob|)
    ensures proof[HEADER_SIZE..HEADER_SIZE + |blob|] == blob
  {
    hide Header, Commitments, CommitmentsAt, BlobLen;
    var body := Body(p, blob);
    var whole := Bundle(p, blob, sha256);
    assert proof[..|whole|] == whole;
    assert proof[..|body|] == whole[..|body|] == body;
    assert proof[|body|..|whole|] == whole[|body|..] == sha256(body);
    assert proof[..HEADER_SIZE] == body[..HEADER_SIZE] == Header(p, |blob|);
    assert proof[HEADER_SIZE..|body|] == body[HEADER_SIZE..] == blob;
    HeaderRead(proof, p, |blob|);
  }

  lemma ReadBundle(proof: Bytes, p: PublicInputs, sha256: Bytes -> Hash)
    requires Structure(proof) == None && CommitmentsAt(proof, 5) == p
    requires sha256(proof[..HEADER_SIZE + BlobLen(proof)]) == HashAt(proof, HEADER_SIZE + BlobLen(proof))
    ensures StartsWithBundle(proof, p, proof[HEADER_SIZE..HEADER_SIZE + BlobLen(proof)], sha256)
  {
    hide Header, Commitments, CommitmentsAt, FromLittleEndian;
    WordLimits();
    DecodeBound(proof[HEADER_SIZE - 4..HEADER_SIZE]);
    var n := BlobLen(proof);
    HeaderRead(proof, p, n);
    var blob, end := proof[HEADER_SIZE..HEADER_SIZE + n], HEADER_SIZE + n;
    assert proof[..end] == proof[..HEADER_SIZE] + blob;
    assert proof[..end + 32] == proof[..end] + HashAt(proof, end);
  }

  /** Exact acceptance: the checker says yes if and only if the policy hash is the expected one and the buffer begins
      with the bundle of these public inputs for some blob; bytes after the bundle are ignored. */
  lemma AcceptedExactly(proof: Bytes, p: PublicInputs, expected: Hash, sha256: Bytes -> Hash)
    ensures Verdict(proof, p, expected, sha256).Ok? <==>
            p.policyHash == expected && exists blob :: StartsWithBundle(proof, p, blob, sha256)
  {
    hide CommitmentsAt, BlobLen, StartsWithBundle;
    if Verdict(proof, p, expected, sha256).Ok? { ReadBundle(proof, p, sha256); }
    if blob :| StartsWithBundle(proof, p, blob, sha256) { BundleRead(proof, p, blob, sha256); }
  }

  /** The blob of an accepted buffer is unique. */
  lemma BlobDetermined(proof: Bytes, p: PublicInputs, q: PublicInputs, blob: Bytes, other: Bytes, sha256: Bytes -> Hash)
    requires StartsWithBundle(proof, p, blob, sha256) && StartsWithBundle(proof, q, other, sha256)
    ensures p == q && blob == other
  {
    BundleRead(proof, p, blob, sha256);
    BundleRead(proof, q, other, sha256);
  }

  /** A policy mismatch is reported only for a buffer that is otherwise genuine. */
  lemma MismatchIsGenuine(proof: Bytes, p: PublicInputs, expected: Hash, sha256: Bytes -> Hash)
    ensures Verdict(proof, p, expected, sha256) == Err(PolicyHashMismatch(p.policyHash, expected)) <==>
            p.policyHash != expected && exists blob :: StartsWithBundle(proof, p, blob, sha256)
  {
    hide CommitmentsAt, BlobLen, StartsWithBundle;
    if Verdict(proof, p, expected, sha256) == Err(PolicyHashMismatch(p.policyHash, expected)) {
      ReadBundle(proof, p, sha256);
    }
    if blob :| StartsWithBundle(proof, p, blob, sha256) { BundleRead(proof, p, blob, sha256); }
  }

  /** Appending bytes to an accepted buffer changes nothing. */
  lemma TrailingBytesIgnored(proof: Bytes, tail: Bytes, p: PublicInputs, expected: Hash, sha256: Bytes -> Hash)
    requires Verdict(proof, p, expected, sha256).Ok?
    ensures Verdict(proof + tail, p, expected, sha256) == Ok(p)
  {
    AcceptedExactly(proof, p, expected, sha256);
    var blob :| StartsWithBundle(proof, p, blob, sha256);
    assert StartsWithBundle(proof + tail, p, blob, sha256);
    AcceptedExactly(proof + tail, p, expected, sha256);
  }

  /** Which error means what: a malformed input is a structural error, and an invalid proof is a well-structured buffer
      that does not begin with a bundle of these inputs. */
  lemma ErrorsExactly(proof: Bytes, p: PublicInputs, expected: Hash, sha256: Bytes -> Hash)
    ensures var r := Verdict(proof, p, expected, sha256);
            (r.Err? && r.error.MalformedInput? <==> Structure(proof).Some?) &&
            (r == Err(ProofInvalid) <==>
             Structure(proof).None? && !(exists blob :: StartsWithBundle(proof, p, blob, sha256)))
  {
    hide CommitmentsAt, BlobLen, StartsWithBundle;
    AcceptedExactly(proof, p, expected, sha256);
    MismatchIsGenuine(proof, p, expected, sha256);
    if blob :| StartsWithBundle(proof, p, blob, sha256) { BundleRead(proof, p, blob, sha256); }
  }

  /** The shortest structurally invalid input does not get ProofInvalid. */
  lemma EmptyProofIsMalformed(p: PublicInputs, expected: Hash, sha256: Bytes -> Hash)
    ensures Verdict([], p, expected, sha256) == Err(MalformedInput(TooShort(0)))
  {}

  // ----- The wire format, by position -----

  /** The value of four bytes, least significant first. */
  ghost function Word4(a: int, b: int, c: int, d: int): int { a + 0x100 * b + 0x1_0000 * c + 0x100_0000 * d }

  /** A bundle, byte by byte: "prvn", version one, the six commitments, the blob's length least significant byte first,
      the blob, and the hash of everything before. */
  lemma WireLayout(p: PublicInputs, blob: Bytes, sha256: Bytes -> Hash)
    requires |blob| < U32_LIMIT
    ensures var b := Bundle(p, blob, sha256);
            |b| == 233 + |blob| && b[..5] == [112, 114, 118, 110, 1] &&
            b[5..37] == p.programHash && b[37..69] == p.inputHash && b[69..101] == p.toolResponsesHash &&
            b[101..133] == p.outputHash && b[133..165] == p.attestationHash && b[165..197] == p.policyHash &&
            Word4(b[197], b[198], b[199], b[200]) == |blob| &&
            b[201..201 + |blob|] == blob && b[201 + |blob|..] == sha256(b[..201 + |blob|])
  {
    var h, b := Header(p, |blob|), Bundle(p, blob, sha256);
    HeaderParts(p, |blob|);
    CommitmentParts(p);
    U32RoundTrip(|blob|);
    LengthValue(U32(|blob|));
    hide Commitments, Header, LittleEndian, FromLittleEndian;
    assert b == h + (blob + sha256(h + blob));
    assert b[..5] == h[..4] + [h[4]];
    var c := h[5..197];
    assert b[5..197] == c;
    assert b[5..37] == c[0..32] && b[37..69] == c[32..64] && b[69..101] == c[64..96];
    assert b[101..133] == c[96..128] && b[133..165] == c[128..160] && b[165..197] == c[160..192];
    assert b[197..201] == h[197..];
    assert b[..201 + |blob|] == h + blob;
  }

  lemma LengthValue(b: Bytes)
    requires |b| == 4
    ensures FromLittleEndian(b) == Word4(b[0], b[1], b[2], b[3])
  {
    assert b[1..][1..] == b[2..] && b[2..][1..] == b[3..] && b[3..][1..] == [];
    assert FromLittleEndian(b[3..]) == b[3];
    assert FromLittleEndian(b[2..]) == b[2] as int + 256 * (b[3] as int);
    assert FromLittleEndian(b[1..]) == b[1] as int + 256 * FromLittleEndian(b[2..]);
  }

  /** Which structural error a buffer has, by position, the first that applies. */
  lemma StructuralErrors(proof: Bytes)
    ensures Structure(proof) ==
            if |proof| < 233 then Some(TooShort(|proof|))
            else if proof[..4] != [112, 114, 118, 110] then Some(BadMagic)
            else if proof[4] != 1 then Some(BadVersion(proof[4]))
            else
              var len := Word4(proof[197], proof[198], proof[199], proof[200]);
              if |proof| - 233 < len then Some(Truncated(len, |proof| - 201)) else None
  {
    if |proof| >= 233 {
      LengthValue(proof[197..201]);
      hide FromLittleEndian;
    }
  }
}
