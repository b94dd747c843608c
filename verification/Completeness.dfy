/** What the circuit makes of a witness that was built from a real run: it accepts exactly when the tape fits. */
module Completeness {
  import opened Options
  import opened ByteStrings
  import opened Field
  import opened OutputWord
  import opened Circuit
  import opened Encoder
  import opened Machine
  import opened WitnessBuilder

  // ----- Field elements as 32 bytes -----

  /** A field element fits in 32 bytes. */
  ghost predicate WordFits() { forall b: Bytes {:trigger HoldsField(b)} | |b| == 32 :: HoldsField(b) }

  ghost predicate HoldsField(b: Bytes) { P <= Pow256(|b|) }

  lemma Bn254Fits()
    requires Bn254()
    ensures WordFits()
  {
    WordLimits();
    assert Pow256(16) == 0x1_0000_0000_0000_0000_0000_0000_0000_0000;
    assert Pow256(24) == 0x1_0000_0000_0000_0000_0000_0000_0000_0000_0000_0000_0000_0000;
  }

  /** The circuit reads a big-endian array as its value, modulo P. */
  lemma {:induction false} FieldOfIsRed(b: Bytes)
    ensures FieldOf(b) == Red(FromBigEndian(b))
  {
    if b == [] {
      RedSmall(0);
    } else {
      var front, last := b[..|b| - 1], b[|b| - 1];
      FieldOfIsRed(front);
      CongRed(FromBigEndian(front));
      CongRefl(256);
      CongRefl(last);
      CongMulOp(FieldOf(front), 256, FromBigEndian(front), 256);
      CongAddOp(Mul(FieldOf(front), 256), last, FromBigEndian(front) * 256, last);
      RedEq(FieldOf(b), FromBigEndian(b));
      RedSmall(FieldOf(b));
    }
  }

  /** Writing a field element as bytes and reading it back in the circuit. */
  lemma FieldBytesRoundTrip(x: Fr)
    requires WordFits()
    ensures FieldOf(FieldBytes(x)) == x
  {
    hide FieldOf, BigEndian, Pow256;
    assert HoldsField(FieldBytes(x));
    BigEndianRoundTrip(x, 32);
    FieldOfIsRed(FieldBytes(x));
    RedSmall(x);
  }

  // ----- Hashed messages -----

  /** The hash does not collide on these two messages. */
  ghost predicate NoCollision(h: Hashes, a: seq<Fr>, b: seq<Fr>) {
    h.poseidon(a, |a|) == h.poseidon(b, |b|) ==> a == b
  }

  /** The message of a whole entry, and the message the circuit hashes for it. */
  function EntryMessage(a: Result<Bytes, Bytes>): seq<Fr> { EntryFields(Tag(a), |Payload(a)|, Payload(a)) }

  function KeptMessage(a: Result<Bytes, Bytes>): seq<Fr> {
    var n := Min(|Payload(a)|, MAX_TAPE_ENTRY_BYTES);
    EntryFields(Tag(a), n, Row(a))[..n + 2]
  }

  function KeptLeaf(h: Hashes, a: Result<Bytes, Bytes>): Fr { h.poseidon(KeptMessage(a), |KeptMessage(a)|) }

  function KeptLeaves(h: Hashes, tape: seq<Recorded>): (r: seq<Fr>)
    ensures |r| == Min(|tape|, MAX_TOOL_CALLS)
  {
    seq(Min(|tape|, MAX_TOOL_CALLS), i requires 0 <= i < Min(|tape|, MAX_TOOL_CALLS) => KeptLeaf(h, tape[i].answer))
  }

  /** The circuit hashes the whole entry exactly when it fits a row. */
  lemma KeptIsWhole(a: Result<Bytes, Bytes>)
    ensures KeptMessage(a) == EntryMessage(a) <==> |Payload(a)| <= MAX_TAPE_ENTRY_BYTES
  {
    if |Payload(a)| > MAX_TAPE_ENTRY_BYTES { assert |KeptMessage(a)| != |EntryMessage(a)|; }
  }

  lemma WholeMessage(h: Hashes, v: seq<Fr>)
    ensures h.Poseidon(v, |v|) == h.poseidon(v, |v|)
  {
    assert v[..|v|] == v;
  }

  /** The leaf the circuit computes for slot i. */
  lemma BuiltLeaf(h: Hashes, code: Bytecode, trace: seq<TraceStep>, tape: seq<Recorded>, i: nat)
    requires EncoderShaped(code) && i < |tape| && i < MAX_TOOL_CALLS
    ensures Shaped(BuiltWitness(code, trace, tape))
    ensures ResponseLeaf(h, BuiltWitness(code, trace, tape), i) == KeptLeaf(h, tape[i].answer)
    ensures BuiltWitness(code, trace, tape).attestationLeaves[i] == FieldBytes(tape[i].attestation)
  {
    hide FieldBytes, EntryFields, Row, Shaped;
    BuiltShaped(code, trace, tape);
    BuiltSlot(code, trace, tape, i);
  }

  lemma BuiltSlot(code: Bytecode, trace: seq<TraceStep>, tape: seq<Recorded>, i: nat)
    requires code.instrCount <= MAX_BYTECODE && i < |tape| && i < MAX_TOOL_CALLS
    ensures var w := BuiltWitness(code, trace, tape);
            w.tags[i] == Tag(tape[i].answer) && w.data[i] == Row(tape[i].answer) &&
            w.lengths[i] == Min(|Payload(tape[i].answer)|, MAX_TAPE_ENTRY_BYTES) &&
            w.attestationLeaves[i] == FieldBytes(tape[i].attestation)
  {
    hide FieldBytes, Row;
    var w := BuiltWitness(code, trace, tape);
    assert w.tags[i] == TagOf(tape[i]) && w.data[i] == RowOf(tape[i]);
    assert w.lengths[i] == KeptLength(tape[i]) && w.attestationLeaves[i] == AttestationBytes(tape[i]);
  }

  lemma FullIsEntry(h: Hashes, a: Result<Bytes, Bytes>)
    ensures FullLeaf(h, a) == h.poseidon(EntryMessage(a), |EntryMessage(a)|)
  {
    hide EntryFields;
    WholeMessage(h, EntryMessage(a));
  }

  // ----- The tape check -----

  ghost predicate WithinCaps(tape: seq<Recorded>) {
    |tape| <= MAX_TOOL_CALLS && forall i | 0 <= i < |tape| :: |Payload(tape[i].answer)| <= MAX_TAPE_ENTRY_BYTES
  }

  /** The hash does not collide where a cut tape and the whole tape could be confused: on the list of leaves, and on
      each entry. */
  ghost predicate NoTapeCollision(h: Hashes, tape: seq<Recorded>) {
    NoCollision(h, KeptLeaves(h, tape), FullLeaves(h, tape)) &&
    forall i | 0 <= i < |tape| && i < MAX_TOOL_CALLS ::
      NoCollision(h, KeptMessage(tape[i].answer), EntryMessage(tape[i].answer))
  }

  /** The response check compares the hash of the kept leaves with the hash of all leaves. */
  lemma ResponseCheck(h: Hashes, code: Bytecode, trace: seq<TraceStep>, tape: seq<Recorded>)
    requires WordFits() && EncoderShaped(code)
    ensures Shaped(BuiltWitness(code, trace, tape))
    ensures var w := BuiltWitness(code, trace, tape);
            (h.Poseidon(ResponseLeaves(h, w), w.numToolCalls) == FieldOf(TapeCommitment(h, tape)) <==>
             h.poseidon(KeptLeaves(h, tape), |KeptLeaves(h, tape)|) ==
             h.poseidon(FullLeaves(h, tape), |FullLeaves(h, tape)|))
  {
    BuiltShaped(code, trace, tape);
    var w := BuiltWitness(code, trace, tape);
    var n := Min(|tape|, MAX_TOOL_CALLS);
    hide FieldOf, FieldBytes, KeptLeaf, ResponseLeaf, Shaped, WordFits, FullLeaf;
    forall i | 0 <= i < n
      ensures ResponseLeaves(h, w)[i] == KeptLeaves(h, tape)[i]
    {
      BuiltLeaf(h, code, trace, tape, i);
    }
    assert ResponseLeaves(h, w)[..n] == KeptLeaves(h, tape);
    WholeMessage(h, FullLeaves(h, tape));
    FieldBytesRoundTrip(h.Poseidon(FullLeaves(h, tape), |tape|));
  }

  /** Within the caps the kept leaves are all the leaves. */
  lemma CapsKeepLeaves(h: Hashes, tape: seq<Recorded>)
    requires WithinCaps(tape)
    ensures KeptLeaves(h, tape) == FullLeaves(h, tape)
  {
    hide KeptMessage, EntryMessage, FullLeaf;
    forall i | 0 <= i < |tape|
      ensures KeptLeaf(h, tape[i].answer) == FullLeaf(h, tape[i].answer)
    {
      KeptIsWhole(tape[i].answer);
      FullIsEntry(h, tape[i].answer);
    }
  }

  /** Without collisions nothing but the whole tape has its hash. */
  lemma LeavesImplyCaps(h: Hashes, tape: seq<Recorded>)
    requires NoTapeCollision(h, tape)
    requires h.poseidon(KeptLeaves(h, tape), |KeptLeaves(h, tape)|) ==
             h.poseidon(FullLeaves(h, tape), |FullLeaves(h, tape)|)
    ensures WithinCaps(tape)
  {
    hide KeptMessage, EntryMessage, FullLeaf;
    assert KeptLeaves(h, tape) == FullLeaves(h, tape);
    assert |KeptLeaves(h, tape)| == |FullLeaves(h, tape)|;
    forall i | 0 <= i < |tape|
      ensures |Payload(tape[i].answer)| <= MAX_TAPE_ENTRY_BYTES
    {
      assert KeptLeaves(h, tape)[i] == FullLeaves(h, tape)[i];
      FullIsEntry(h, tape[i].answer);
      assert NoCollision(h, KeptMessage(tape[i].answer), EntryMessage(tape[i].answer));
      KeptIsWhole(tape[i].answer);
    }
  }

  /** Within the caps each bound leaf is the one of the whole tape. */
  lemma BoundLeafAt(h: Hashes, code: Bytecode, trace: seq<TraceStep>, tape: seq<Recorded>, i: nat)
    requires WordFits() && EncoderShaped(code) && WithinCaps(tape) && i < |tape|
    requires Shaped(BuiltWitness(code, trace, tape))
    ensures BoundLeaves(h, BuiltWitness(code, trace, tape))[i] == FullBoundLeaves(h, tape)[i]
  {
    CapsKeepLeaves(h, tape);
    assert KeptLeaves(h, tape)[i] == FullLeaves(h, tape)[i];
    hide FieldOf, FieldBytes, KeptLeaf, ResponseLeaf, Shaped, WordFits, FullLeaf, BoundLeaf, BuiltWitness;
    BuiltLeaf(h, code, trace, tape, i);
    FieldBytesRoundTrip(tape[i].attestation);
  }

  /** Within the caps the provenance check passes too. */
  lemma AttestationCheck(h: Hashes, code: Bytecode, trace: seq<TraceStep>, tape: seq<Recorded>)
    requires WordFits() && EncoderShaped(code) && WithinCaps(tape)
    ensures Shaped(BuiltWitness(code, trace, tape))
    ensures var w := BuiltWitness(code, trace, tape);
            h.Poseidon(BoundLeaves(h, w), w.numToolCalls) == FieldOf(AttestationCommitment(h, tape))
  {
    BuiltShaped(code, trace, tape);
    var w := BuiltWitness(code, trace, tape);
    assert w.numToolCalls == |tape|;
    forall i | 0 <= i < |tape|
      ensures BoundLeaves(h, w)[i] == FullBoundLeaves(h, tape)[i]
    {
      BoundLeafAt(h, code, trace, tape, i);
    }
    hide FieldOf, FieldBytes, Shaped, WordFits, BoundLeaves, FullBoundLeaves, BuiltWitness;
    assert BoundLeaves(h, w)[..|tape|] == FullBoundLeaves(h, tape)[..|tape|];
    FieldBytesRoundTrip(h.Poseidon(FullBoundLeaves(h, tape), |tape|));
  }

  /** The tape witness is faithful exactly within the caps: what the builder silently cut, the circuit rejects. */
  lemma TapeWitnessFaithful(h: Hashes, code: Bytecode, trace: seq<TraceStep>, tape: seq<Recorded>, c: Context)
    requires WordFits() && EncoderShaped(code) && |trace| <= MAX_STEPS
    ensures WitnessOf(h, code, trace, tape, c).Ok? && Shaped(WitnessOf(h, code, trace, tape, c).value.w)
    ensures var b := WitnessOf(h, code, trace, tape, c).value;
            (WithinCaps(tape) ==> TapeOk(h, b.w, b.pub)) &&
            (NoTapeCollision(h, tape) && TapeOk(h, b.w, b.pub) ==> WithinCaps(tape))
  {
    BuiltShaped(code, trace, tape);
    ResponseCheck(h, code, trace, tape);
    var b := WitnessOf(h, code, trace, tape, c).value;
    BuiltLengths(code, trace, tape);
    hide BuiltWitness, TapeCommitment, AttestationCommitment, FieldOf, ResponseLeaves, BoundLeaves, LengthsOk,
         KeptLeaves, FullLeaves, WithinCaps, NoTapeCollision, Shaped, WordFits;
    if WithinCaps(tape) {
      CapsKeepLeaves(h, tape);
      AttestationCheck(h, code, trace, tape);
    }
    if NoTapeCollision(h, tape) && TapeOk(h, b.w, b.pub) { LeavesImplyCaps(h, tape); }
  }

  lemma BuiltLengths(code: Bytecode, trace: seq<TraceStep>, tape: seq<Recorded>)
    requires EncoderShaped(code) && Shaped(BuiltWitness(code, trace, tape))
    ensures LengthsOk(BuiltWitness(code, trace, tape))
  {
    hide Shaped, Row, FieldBytes;
    var w := BuiltWitness(code, trace, tape);
    forall i | 0 <= i < MAX_TOOL_CALLS
      ensures w.lengths[i] as int + 2 < 0x1_0000_0000
    {
      if i < |tape| { BuiltSlot(code, trace, tape, i); }
    }
  }

  // ----- The whole circuit -----

  /** The code the encoder produces for a program. */
  ghost predicate CodeOf(program: Program, code: Bytecode) { Encoded(program) == Ok(code) }

  lemma BuiltStep(code: Bytecode, trace: seq<TraceStep>, tape: seq<Recorded>, i: nat)
    requires code.instrCount <= MAX_BYTECODE && i < |trace| <= MAX_STEPS
    ensures var w := BuiltWitness(code, trace, tape);
            w.pcs[i] == trace[i].pc && w.traceOpcodes[i] == trace[i].opcode &&
            w.traceOperands[i] == trace[i].operand && w.stackTops[i] == trace[i].stackTop &&
            w.nextPcs[i] == trace[i].nextPc
  {
    var w := BuiltWitness(code, trace, tape);
    assert w.pcs[i] == PcOf(trace[i]) && w.traceOpcodes[i] == OpcodeOf(trace[i]);
    assert w.traceOperands[i] == OperandOf(trace[i]) && w.stackTops[i] == StackTopOf(trace[i]);
    assert w.nextPcs[i] == NextPcOf(trace[i]);
  }

  /** A step of the run satisfies the constraints of the circuit exactly when it obeys the pc rule. */
  lemma RunStepOk(program: Program, code: Bytecode, t: seq<TraceStep>, tape: seq<Recorded>, pub: Public, i: nat)
    requires CodeOf(program, code) && RunFacts(program.prototypes, [Frame(0, 0)], t) && |t| <= MAX_STEPS && i < |t|
    requires pub.numSteps == |t| && pub.returnValue == t[|t| - 1].stackTop
    requires Shaped(BuiltWitness(code, t, tape))
    ensures StepOk(BuiltWitness(code, t, tape), pub, i) <==> ByRule(t[i])
  {
    BuiltStep(code, t, tape, i);
    if i + 1 < |t| { BuiltStep(code, t, tape, i + 1); }
    assert InFlat(Flat(program.prototypes), t[i]);
    assert i + 1 < |t| ==> t[i].nextPc == t[i + 1].pc && InFlat(Flat(program.prototypes), t[i + 1]);
    CastKeepsTarget(t[i]);
    hide LocalNext, ExpectedNext, Flat, RunFacts, BuiltWitness, Shaped, PaddedOps, PaddedOperands;
    var flat, w := Flat(program.prototypes), BuiltWitness(code, t, tape);
    PaddedAt(flat, t[i].pc);
    BuiltCode(code, t, tape);
  }

  /** For a step in the flat program to another place in it, the circuit's cast to u32 loses nothing. */
  lemma CastKeepsTarget(s: TraceStep)
    requires s.pc < MAX_BYTECODE && -0x8000 <= s.operand < 0x1_0000
    ensures InI64(s.pc + 1 + s.operand) && (Open(s.opcode) <==> Unconstrained(s.opcode))
    ensures s.nextPc < MAX_BYTECODE ==>
              (s.nextPc == ExpectedNext(s.pc, s.opcode, s.operand, s.stackTop) <==>
               s.nextPc == LocalNext(s.pc, Instr(s.opcode, s.operand), s.stackTop))
  {}

  lemma BuiltCode(code: Bytecode, trace: seq<TraceStep>, tape: seq<Recorded>)
    requires code.instrCount <= MAX_BYTECODE
    ensures BuiltWitness(code, trace, tape).opcodes == code.opcodes
    ensures BuiltWitness(code, trace, tape).operands == code.operands
  {}

  lemma PaddedAt(flat: Proto, pc: nat)
    requires pc < |flat| <= MAX_BYTECODE
    ensures PaddedOps(flat)[pc] == flat[pc].op && PaddedOperands(flat)[pc] == flat[pc].operand
  {}

  /** The trace of a complete run passes the trace constraints exactly when all its steps obey the pc rule. */
  lemma RunTraceOk(program: Program, code: Bytecode, t: seq<TraceStep>, tape: seq<Recorded>, pub: Public)
    requires CodeOf(program, code) && RunFacts(program.prototypes, [Frame(0, 0)], t) && |t| <= MAX_STEPS
    requires pub.numSteps == |t| && pub.returnValue == t[|t| - 1].stackTop
    requires Shaped(BuiltWitness(code, t, tape))
    ensures TraceOk(BuiltWitness(code, t, tape), pub) <==> AllByRule(t)
  {
    BuiltStep(code, t, tape, 0);
    assert t[0].pc == 0 by { StartsAtZero(program.prototypes, t); }
    hide CodeOf, RunFacts, BuiltWitness, Shaped, StepOk, ByRule;
    forall i: nat | i < pub.numSteps
      ensures StepOk(BuiltWitness(code, t, tape), pub, i) <==> ByRule(t[i])
    {
      RunStepOk(program, code, t, tape, pub, i);
    }
  }

  lemma StartsAtZero(protos: seq<Proto>, t: seq<TraceStep>)
    requires RunFacts(protos, [Frame(0, 0)], t)
    ensures t != [] && t[0].pc == 0
  {
    assert Flat(protos[..0]) == [];
  }

  function Opcodes(t: seq<TraceStep>): (r: seq<Byte>)
    ensures |r| == |t|
  {
    seq(|t|, i requires 0 <= i < |t| => t[i].opcode)
  }

  /** How many steps of the run call a tool. */
  function CallSteps(t: seq<TraceStep>): nat { ToolCount(Opcodes(t), |t|) }

  lemma BuiltCallCount(code: Bytecode, t: seq<TraceStep>, tape: seq<Recorded>)
    requires code.instrCount <= MAX_BYTECODE && |t| <= MAX_STEPS
    ensures ToolCount(BuiltWitness(code, t, tape).traceOpcodes, |t|) == CallSteps(t)
  {
    forall i | 0 <= i < |t|
      ensures BuiltWitness(code, t, tape).traceOpcodes[i] == Opcodes(t)[i]
    {
      BuiltStep(code, t, tape, i);
    }
    SameToolCount(BuiltWitness(code, t, tape).traceOpcodes, Opcodes(t), |t|);
  }

  /** The program hash the compiler stored is the one the circuit recomputes from the bytecode. */
  ghost predicate HashedAsCircuit(h: Hashes, code: Bytecode)
    requires EncoderShaped(code)
  {
    code.programHash == FieldBytes(h.Poseidon(Interleave(code.opcodes, code.operands), code.instrCount * 2))
  }

  lemma BuiltProgramOk(h: Hashes, code: Bytecode, t: seq<TraceStep>, tape: seq<Recorded>, pub: Public)
    requires EncoderShaped(code) && HashedAsCircuit(h, code) && WordFits() && pub.programHash == code.programHash
    requires Shaped(BuiltWitness(code, t, tape))
    ensures ProgramOk(h, BuiltWitness(code, t, tape), pub)
  {
    hide FieldOf, FieldBytes, Interleave, WordFits;
    FieldBytesRoundTrip(h.Poseidon(Interleave(code.opcodes, code.operands), code.instrCount * 2));
  }

  lemma EncodedShape(program: Program, code: Bytecode)
    requires CodeOf(program, code)
    ensures EncoderShaped(code) && |Flat(program.prototypes)| <= MAX_BYTECODE
  {}

  /** The witness of a complete run, for a program whose stored hash is honest. */
  ghost predicate HonestRun(h: Hashes, program: Program, code: Bytecode, choices: seq<Choice>, c: Context) {
    CodeOf(program, code) && EncoderShaped(code) && HashedAsCircuit(h, code) && IsaProgram(program.prototypes) &&
    Trace(program.prototypes, [Frame(0, 0)], choices).Some? && 0 < |choices| <= MAX_STEPS &&
    c.returnValue == choices[|choices| - 1].stackTop && c.outputValue == c.returnValue
  }

  /** The machine, the flattening, the packing and the circuit agree. The circuit accepts the witness of a complete run
      whenever the tape has one entry for each tool call of the run and fits the arrays, and no error strays; and,
      unless the hash collides on the cut tape, only then. */
  lemma CircuitComplete(h: Hashes, program: Program, code: Bytecode, choices: seq<Choice>, tape: seq<Recorded>,
                        c: Context)
    requires WordFits() && HonestRun(h, program, code, choices, c)
    ensures var t := Trace(program.prototypes, [Frame(0, 0)], choices).value;
            WitnessOf(h, code, t, tape, c).Ok? && Shaped(WitnessOf(h, code, t, tape, c).value.w) &&
            var b := WitnessOf(h, code, t, tape, c).value;
            var stray := RunStrays(program.prototypes, [Frame(0, 0)], choices);
            (WithinCaps(tape) && CallSteps(t) == |tape| && !stray ==> Accepts(h, b.w, b.pub)) &&
            (Accepts(h, b.w, b.pub) ==> !stray) &&
            (NoTapeCollision(h, tape) && Accepts(h, b.w, b.pub) ==> WithinCaps(tape) && CallSteps(t) == |tape|)
  {
    var t := Trace(program.prototypes, [Frame(0, 0)], choices).value;
    EncodedShape(program, code);
    TraceFacts(program.prototypes, [Frame(0, 0)], choices);
    LastStackTop(program.prototypes, [Frame(0, 0)], choices);
    TapeWitnessFaithful(h, code, t, tape, c);
    var b := WitnessOf(h, code, t, tape, c).value;
    BuiltCallCount(code, t, tape);
    hide RunFacts, RunStrays, AllByRule, Trace, Shaped, TapeOk, ProgramOk, TraceOk, NoTapeCollision, CallSteps,
         HashedAsCircuit, CodeOf, TapeCommitment, AttestationCommitment, Column, WordFits;
    RunTraceOk(program, code, t, tape, b.pub);
    BuiltProgramOk(h, code, t, tape, b.pub);
  }

  lemma {:induction false} LastStackTop(protos: seq<Proto>, frames: seq<Frame>, choices: seq<Choice>)
    requires Trace(protos, frames, choices).Some? && choices != []
    ensures Trace(protos, frames, choices).value[|choices| - 1].stackTop == choices[|choices| - 1].stackTop
    decreases |choices|
  {
    if |choices| > 1 {
      var next := NextFrames(protos, frames, choices[0]).value;
      LastStackTop(protos, next, choices[1..]);
    }
  }

  /** No witness is accepted for a run that catches the error of a tool call, or of any other instruction that is
      neither a taken jump nor one of the four the circuit leaves open. */
  lemma CaughtErrorRejected(h: Hashes, program: Program, code: Bytecode, choices: seq<Choice>, tape: seq<Recorded>,
                            c: Context, k: nat)
    requires WordFits() && HonestRun(h, program, code, choices, c) && k < |choices| && choices[k].fails
    requires FallsThrough(Trace(program.prototypes, [Frame(0, 0)], choices).value[k])
    ensures var built := WitnessOf(h, code, Trace(program.prototypes, [Frame(0, 0)], choices).value, tape, c);
            built.Ok? && Shaped(built.value.w) && !Accepts(h, built.value.w, built.value.pub)
  {
    CircuitComplete(h, program, code, choices, tape, c);
    EncodedShape(program, code);
    hide Trace, WitnessOf, Shaped, Accepts, CallSteps, WithinCaps, NoTapeCollision, CodeOf, HashedAsCircuit, RunStrays;
    FailureStrays(program.prototypes, [Frame(0, 0)], choices, k);
  }

  // ----- For the modulus in the contract -----

  lemma Bn254TapeFaithful(h: Hashes, code: Bytecode, trace: seq<TraceStep>, tape: seq<Recorded>, c: Context)
    requires Bn254() && EncoderShaped(code) && |trace| <= MAX_STEPS
    ensures WitnessOf(h, code, trace, tape, c).Ok? && Shaped(WitnessOf(h, code, trace, tape, c).value.w)
    ensures var b := WitnessOf(h, code, trace, tape, c).value;
            (WithinCaps(tape) ==> TapeOk(h, b.w, b.pub)) &&
            (NoTapeCollision(h, tape) && TapeOk(h, b.w, b.pub) ==> WithinCaps(tape))
  {
    Bn254Fits();
    hide *;
    TapeWitnessFaithful(h, code, trace, tape, c);
  }

  lemma Bn254CircuitComplete(h: Hashes, program: Program, code: Bytecode, choices: seq<Choice>, tape: seq<Recorded>,
                             c: Context)
    requires Bn254() && HonestRun(h, program, code, choices, c)
    ensures var t := Trace(program.prototypes, [Frame(0, 0)], choices).value;
            WitnessOf(h, code, t, tape, c).Ok? && Shaped(WitnessOf(h, code, t, tape, c).value.w) &&
            var b := WitnessOf(h, code, t, tape, c).value;
            var stray := RunStrays(program.prototypes, [Frame(0, 0)], choices);
            (WithinCaps(tape) && CallSteps(t) == |tape| && !stray ==> Accepts(h, b.w, b.pub)) &&
            (Accepts(h, b.w, b.pub) ==> !stray) &&
            (NoTapeCollision(h, tape) && Accepts(h, b.w, b.pub) ==> WithinCaps(tape) && CallSteps(t) == |tape|)
  {
    Bn254Fits();
    HonestRunHasTrace(h, program, code, choices, c);
    hide *;
    CircuitComplete(h, program, code, choices, tape, c);
  }

  lemma HonestRunHasTrace(h: Hashes, program: Program, code: Bytecode, choices: seq<Choice>, c: Context)
    requires HonestRun(h, program, code, choices, c)
    ensures Trace(program.prototypes, [Frame(0, 0)], choices).Some?
  {}
}
