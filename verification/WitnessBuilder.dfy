/** Packing a run and its tape into the fixed-size witness of the circuit, and what the circuit makes of it. */
module WitnessBuilder {
  import opened Options
  import opened ByteStrings
  import opened Field
  import opened OutputWord
  import opened Circuit
  import opened Encoder
  import opened Machine

  /** A recorded call: the response or error text, and the leaf of the attestation the host sourced for it. */
  datatype Recorded = Recorded(answer: Result<Bytes, Bytes>, attestation: Fr)

  datatype WitnessError = TraceTooLong(len: nat)

  /** What build_witness returns: the private arrays and the public inputs. */
  datatype Built = Built(w: Witness, pub: Public)

  /** The part of an execution that build_witness copies or hashes without looking into it. */
  datatype Context = Context(returnValue: I64, outputValue: I64, inputHash: Bytes, policyHash: Bytes)

  function Tag(a: Result<Bytes, Bytes>): Byte { if a.Ok? then 0 else 1 }

  function Payload(a: Result<Bytes, Bytes>): Bytes {
    match a
    case Ok(bytes) => bytes
    case Err(message) => message
  }

  // ----- The commitments of the whole tape -----

  function FullLeaf(h: Hashes, a: Result<Bytes, Bytes>): Fr {
    h.Poseidon(EntryFields(Tag(a), |Payload(a)|, Payload(a)), |Payload(a)| + 2)
  }

  function FullLeaves(h: Hashes, tape: seq<Recorded>): (r: seq<Fr>)
    ensures |r| == |tape|
  {
    seq(|tape|, i requires 0 <= i < |tape| => FullLeaf(h, tape[i].answer))
  }

  function FullBoundLeaves(h: Hashes, tape: seq<Recorded>): (r: seq<Fr>)
    ensures |r| == |tape|
  {
    seq(|tape|, i requires 0 <= i < |tape| => BoundLeaf(h, FullLeaf(h, tape[i].answer), tape[i].attestation))
  }

  /** A field element as 32 big-endian bytes. */
  function FieldBytes(x: Fr): (b: Bytes)
    ensures |b| == 32
  {
    BigEndian(x, 32)
  }

  function TapeCommitment(h: Hashes, tape: seq<Recorded>): Bytes {
    FieldBytes(h.Poseidon(FullLeaves(h, tape), |tape|))
  }

  function AttestationCommitment(h: Hashes, tape: seq<Recorded>): Bytes {
    FieldBytes(h.Poseidon(FullBoundLeaves(h, tape), |tape|))
  }

  // ----- The witness -----

  /** A row of the tape data: the payload cut to the row, then zeros. */
  function Row(a: Result<Bytes, Bytes>): (r: Bytes)
    ensures |r| == MAX_TAPE_ENTRY_BYTES
  {
    var p := Payload(a);
    seq(MAX_TAPE_ENTRY_BYTES, j requires 0 <= j => if j < |p| then p[j] else 0)
  }

  /** An array of n slots that holds one field of each entry of a list, as far as they fit, and zeros after them. */
  function Column<S, T>(entries: seq<S>, field: S -> T, zero: T, n: nat): (r: seq<T>)
    ensures |r| == n
  {
    seq(n, i requires 0 <= i => if i < |entries| then field(entries[i]) else zero)
  }

  function PcOf(s: TraceStep): Uint32 { s.pc }

  function OpcodeOf(s: TraceStep): Byte { s.opcode }

  function OperandOf(s: TraceStep): I64 { s.operand }

  function StackTopOf(s: TraceStep): I64 { s.stackTop }

  function NextPcOf(s: TraceStep): Uint32 { s.nextPc }

  function TagOf(r: Recorded): Byte { Tag(r.answer) }

  function KeptLength(r: Recorded): Uint32 { Min(|Payload(r.answer)|, MAX_TAPE_ENTRY_BYTES) }

  function RowOf(r: Recorded): Bytes { Row(r.answer) }

  function AttestationBytes(r: Recorded): Bytes { FieldBytes(r.attestation) }

  function BuiltWitness(code: Bytecode, trace: seq<TraceStep>, tape: seq<Recorded>): (w: Witness)
    requires code.instrCount <= MAX_BYTECODE
  {
    Witness(code.opcodes, code.operands, code.instrCount,
            Column(trace, PcOf, 0, MAX_STEPS), Column(trace, OpcodeOf, 0, MAX_STEPS),
            Column(trace, OperandOf, 0, MAX_STEPS),
            Column(trace, StackTopOf, 0, MAX_STEPS), Column(trace, NextPcOf, 0, MAX_STEPS),
            Column(tape, TagOf, 0, MAX_TOOL_CALLS), Column(tape, KeptLength, 0, MAX_TOOL_CALLS),
            Column(tape, RowOf, Fill(0, MAX_TAPE_ENTRY_BYTES), MAX_TOOL_CALLS),
            Min(|tape|, MAX_TOOL_CALLS),
            Column(tape, AttestationBytes, Fill(0, 32), MAX_TOOL_CALLS))
  }

  function BuiltPublic(h: Hashes, code: Bytecode, steps: Uint32, tape: seq<Recorded>, c: Context): Public {
    Public(steps, code.programHash, c.returnValue, TapeCommitment(h, tape), c.inputHash,
           h.keccak(Word(c.outputValue)), AttestationCommitment(h, tape), c.policyHash)
  }

  function WitnessOf(h: Hashes, code: Bytecode, trace: seq<TraceStep>, tape: seq<Recorded>, c: Context)
    : Result<Built, WitnessError>
    requires code.instrCount <= MAX_BYTECODE
  {
    if |trace| > MAX_STEPS then Err(TraceTooLong(|trace|))
    else Ok(Built(BuiltWitness(code, trace, tape), BuiltPublic(h, code, |trace|, tape, c)))
  }

  /** The array sizes the encoder guarantees. */
  predicate EncoderShaped(code: Bytecode) {
    |code.opcodes| == MAX_BYTECODE && |code.operands| == MAX_BYTECODE && code.instrCount <= MAX_BYTECODE
  }

  lemma BuiltShaped(code: Bytecode, trace: seq<TraceStep>, tape: seq<Recorded>)
    requires EncoderShaped(code)
    ensures Shaped(BuiltWitness(code, trace, tape))
  {
    hide FieldBytes, Row;
    var w := BuiltWitness(code, trace, tape);
    forall i | 0 <= i < MAX_TOOL_CALLS
      ensures |w.data[i]| == MAX_TAPE_ENTRY_BYTES && |w.attestationLeaves[i]| == 32
    {
      if i < |tape| { assert w.data[i] == RowOf(tape[i]) && w.attestationLeaves[i] == AttestationBytes(tape[i]); }
    }
  }

  // ----- Filling the arrays -----

  lemma ColumnSlot<S, T>(entries: seq<S>, field: S -> T, zero: T, n: nat, i: nat)
    requires i < |entries| && i < n
    ensures Column(entries[..i + 1], field, zero, n) == Column(entries[..i], field, zero, n)[i := field(entries[i])]
  {}

  /** Copies one field of each entry into a zeroed array, slot by slot, until the entries or the slots run out. */
  method CopyColumn<S, T>(entries: seq<S>, field: S -> T, zero: T, a: array<T>)
    requires forall i | 0 <= i < a.Length :: a[i] == zero
    modifies a
    ensures a[..] == Column(entries, field, zero, a.Length)
  {
    var end := Min(|entries|, a.Length);
    assert a[..] == Column(entries[..0], field, zero, a.Length);
    for i := 0 to end
      invariant a[..] == Column(entries[..i], field, zero, a.Length)
    {
      ColumnSlot(entries, field, zero, a.Length, i);
      a[i] := field(entries[i]);
    }
    assert Column(entries[..end], field, zero, a.Length) == Column(entries, field, zero, a.Length);
  }

  method CopyTrace(trace: seq<TraceStep>)
    returns (pcs: seq<Uint32>, ops: seq<Byte>, operands: seq<I64>, tops: seq<I64>, nextPcs: seq<Uint32>)
    requires |trace| <= MAX_STEPS
    ensures pcs == Column(trace, PcOf, 0, MAX_STEPS) && ops == Column(trace, OpcodeOf, 0, MAX_STEPS)
    ensures operands == Column(trace, OperandOf, 0, MAX_STEPS) && tops == Column(trace, StackTopOf, 0, MAX_STEPS)
    ensures nextPcs == Column(trace, NextPcOf, 0, MAX_STEPS)
  {
    hide Column;
    var a := new Uint32[MAX_STEPS](_ => 0);
    CopyColumn(trace, PcOf, 0, a);
    pcs := a[..];
    var b := new Byte[MAX_STEPS](_ => 0);
    CopyColumn(trace, OpcodeOf, 0, b);
    ops := b[..];
    var c := new I64[MAX_STEPS](_ => 0);
    CopyColumn(trace, OperandOf, 0, c);
    operands := c[..];
    c := new I64[MAX_STEPS](_ => 0);
    CopyColumn(trace, StackTopOf, 0, c);
    tops := c[..];
    a := new Uint32[MAX_STEPS](_ => 0);
    CopyColumn(trace, NextPcOf, 0, a);
    nextPcs := a[..];
  }

  method CopyTape(tape: seq<Recorded>)
    returns (tags: seq<Byte>, lengths: seq<Uint32>, data: seq<Bytes>, attestations: seq<Bytes>)
    ensures tags == Column(tape, TagOf, 0, MAX_TOOL_CALLS)
    ensures lengths == Column(tape, KeptLength, 0, MAX_TOOL_CALLS)
    ensures data == Column(tape, RowOf, Fill(0, MAX_TAPE_ENTRY_BYTES), MAX_TOOL_CALLS)
    ensures attestations == Column(tape, AttestationBytes, Fill(0, 32), MAX_TOOL_CALLS)
  {
    hide Column;
    var a := new Byte[MAX_TOOL_CALLS](_ => 0);
    CopyColumn(tape, TagOf, 0, a);
    tags := a[..];
    var b := new Uint32[MAX_TOOL_CALLS](_ => 0);
    CopyColumn(tape, KeptLength, 0, b);
    lengths := b[..];
    var c := new Bytes[MAX_TOOL_CALLS](_ => Fill(0, MAX_TAPE_ENTRY_BYTES));
    CopyColumn(tape, RowOf, Fill(0, MAX_TAPE_ENTRY_BYTES), c);
    data := c[..];
    c := new Bytes[MAX_TOOL_CALLS](_ => Fill(0, 32));
    CopyColumn(tape, AttestationBytes, Fill(0, 32), c);
    attestations := c[..];
  }

  method BuildWitness(h: Hashes, code: Bytecode, trace: seq<TraceStep>, tape: seq<Recorded>, c: Context)
    returns (r: Result<Built, WitnessError>)
    requires EncoderShaped(code)
    ensures r == WitnessOf(h, code, trace, tape, c)
  {
    if |trace| > MAX_STEPS {
      return Err(TraceTooLong(|trace|));
    }
    var pcs, ops, operands, tops, nextPcs := CopyTrace(trace);
    var tags, lengths, data, attestations := CopyTape(tape);
    var w := Witness(code.opcodes, code.operands, code.instrCount, pcs, ops, operands, tops, nextPcs,
                     tags, lengths, data, Min(|tape|, MAX_TOOL_CALLS), attestations);
    var outputHash := h.keccak(Word(c.outputValue));
    return Ok(Built(w, Public(|trace|, code.programHash, c.returnValue, TapeCommitment(h, tape), c.inputHash,
                              outputHash, AttestationCommitment(h, tape), c.policyHash)));
  }

  // ----- What the witness holds -----

  /** The bytes of an entry and its tag: zero for a response, one for an error. */
  ghost predicate EntryIs(a: Result<Bytes, Bytes>, tag: Byte, bytes: Bytes) {
    (a == Ok(bytes) && tag == 0) || (a == Err(bytes) && tag == 1)
  }

  /** Slot i of the tape arrays holds entry i: its tag, its length up to a row, and its bytes, followed by zeros. */
  lemma TapeSlot(code: Bytecode, trace: seq<TraceStep>, tape: seq<Recorded>, i: nat, tag: Byte, bytes: Bytes)
    requires code.instrCount <= MAX_BYTECODE && i < |tape| && i < 16 && EntryIs(tape[i].answer, tag, bytes)
    ensures var w := BuiltWitness(code, trace, tape);
            w.tags[i] == tag && w.lengths[i] == Min(|bytes|, 1024) && |w.data[i]| == 1024 &&
            (forall k: nat | k < 1024 :: w.data[i][k] == if k < |bytes| then bytes[k] else 0) &&
            w.attestationLeaves[i] == BigEndian(tape[i].attestation, 32) &&
            w.numToolCalls == Min(|tape|, 16)
  {
    hide FieldBytes, Row;
    var w := BuiltWitness(code, trace, tape);
    assert w.tags[i] == TagOf(tape[i]) && w.data[i] == RowOf(tape[i]);
    assert w.lengths[i] == KeptLength(tape[i]) && w.attestationLeaves[i] == AttestationBytes(tape[i]);
    RowIs(tape[i].answer, tag, bytes);
    FieldBytesAre(tape[i].attestation);
  }

  lemma RowIs(a: Result<Bytes, Bytes>, tag: Byte, bytes: Bytes)
    requires EntryIs(a, tag, bytes)
    ensures Tag(a) == tag && Payload(a) == bytes
    ensures forall k: nat | k < MAX_TAPE_ENTRY_BYTES :: Row(a)[k] == if k < |bytes| then bytes[k] else 0
  {}

  lemma FieldBytesAre(x: Fr)
    ensures FieldBytes(x) == BigEndian(x, 32)
  {}

  /** The leaf of an entry hashes its tag, its length and all its bytes. */
  lemma FullLeafIs(h: Hashes, a: Result<Bytes, Bytes>, tag: Byte, bytes: Bytes)
    requires EntryIs(a, tag, bytes) && |bytes| < P
    ensures FullLeaf(h, a) ==
            h.poseidon([tag, |bytes|] + seq(|bytes|, k requires 0 <= k < |bytes| => bytes[k]), |bytes| + 2)
  {
    RedSmall(|bytes|);
    var m := EntryFields(tag, |bytes|, bytes);
    assert m[..|bytes| + 2] == m == [tag, |bytes|] + seq(|bytes|, k requires 0 <= k < |bytes| => bytes[k]);
  }

  /** A trace of more than 2048 steps is refused with its length; of any other, the public inputs of the witness one by
      one. */
  lemma PublicOfWitness(h: Hashes, code: Bytecode, trace: seq<TraceStep>, tape: seq<Recorded>, c: Context)
    requires code.instrCount <= MAX_BYTECODE
    ensures |trace| > 2048 ==> WitnessOf(h, code, trace, tape, c) == Err(TraceTooLong(|trace|))
    ensures |trace| <= 2048 ==> WitnessOf(h, code, trace, tape, c).Ok?
    ensures |trace| <= 2048 ==>
            var pub := WitnessOf(h, code, trace, tape, c).value.pub;
            0 <= Pow256(32) + c.outputValue &&
            pub.numSteps == |trace| && pub.programHash == code.programHash && pub.returnValue == c.returnValue &&
            pub.inputHash == c.inputHash && pub.policyHash == c.policyHash &&
            pub.outputHash == h.keccak(AbiInt256(c.outputValue)) &&
            pub.toolResponsesHash == BigEndian(h.poseidon(FullLeaves(h, tape), |tape|), 32) &&
            pub.attestationHash == BigEndian(h.poseidon(FullBoundLeaves(h, tape), |tape|), 32)
  {
    hide BuiltWitness, FullLeaves, FullBoundLeaves, Word, AbiInt256, BigEndian, Pow256;
    WordIsAbiInt256(c.outputValue);
    assert FullLeaves(h, tape)[..|tape|] == FullLeaves(h, tape);
    assert FullBoundLeaves(h, tape)[..|tape|] == FullBoundLeaves(h, tape);
  }
}
