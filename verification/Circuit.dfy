/** The trace-verifier circuit: its constraints as a predicate over fixed-size arrays, and the checking program. */
module Circuit {
  import opened ByteStrings
  import opened Field
  import opened OutputWord

  const MAX_BYTECODE: nat := 512
  const MAX_STEPS: nat := 2048
  const MAX_TOOL_CALLS: nat := 16
  const MAX_TAPE_ENTRY_BYTES: nat := 1024

  type Uint32 = x: int | 0 <= x < 0x1_0000_0000

  /** Poseidon2 over the first messageSize entries of a vector, and keccak256. */
  datatype Hashes = Hashes(poseidon: (seq<Fr>, nat) -> Fr, keccak: Bytes -> Bytes)
  {
    function Poseidon(v: seq<Fr>, messageSize: nat): Fr {
      poseidon(if messageSize <= |v| then v[..messageSize] else v, messageSize)
    }
  }

  datatype Public = Public(
    numSteps: Uint32,
    programHash: Bytes,
    returnValue: I64,
    toolResponsesHash: Bytes,
    inputHash: Bytes,
    outputHash: Bytes,
    attestationHash: Bytes,
    policyHash: Bytes)

  datatype Witness = Witness(
    opcodes: seq<Byte>,
    operands: seq<I64>,
    instrCount: Uint32,
    pcs: seq<Uint32>,
    traceOpcodes: seq<Byte>,
    traceOperands: seq<I64>,
    stackTops: seq<I64>,
    nextPcs: seq<Uint32>,
    tags: seq<Byte>,
    lengths: seq<Uint32>,
    data: seq<Bytes>,
    numToolCalls: Uint32,
    attestationLeaves: seq<Bytes>)

  /** The array sizes fixed by the circuit's signature. */
  ghost predicate Shaped(w: Witness) {
    |w.opcodes| == MAX_BYTECODE && |w.operands| == MAX_BYTECODE &&
    |w.pcs| == MAX_STEPS && |w.traceOpcodes| == MAX_STEPS && |w.traceOperands| == MAX_STEPS &&
    |w.stackTops| == MAX_STEPS && |w.nextPcs| == MAX_STEPS &&
    |w.tags| == MAX_TOOL_CALLS && |w.lengths| == MAX_TOOL_CALLS &&
    |w.data| == MAX_TOOL_CALLS && |w.attestationLeaves| == MAX_TOOL_CALLS &&
    forall i | 0 <= i < MAX_TOOL_CALLS :: |w.data[i]| == MAX_TAPE_ENTRY_BYTES && |w.attestationLeaves[i]| == 32
  }

  // ----- Field encodings -----

  /** A big-endian byte array as a field element, accumulated byte by byte. */
  function FieldOf(bytes: Bytes): Fr {
    if bytes == [] then 0 else Add(Mul(FieldOf(bytes[..|bytes| - 1]), 256), bytes[|bytes| - 1])
  }

  method BeBytes32ToField(bytes: Bytes) returns (acc: Fr)
    ensures acc == FieldOf(bytes)
  {
    acc := 0;
    for i := 0 to |bytes|
      invariant acc == FieldOf(bytes[..i])
    {
      acc := Add(Mul(acc, 256), bytes[i]);
      assert bytes[..i + 1][..i] == bytes[..i];
    }
    assert bytes[..|bytes|] == bytes;
  }

  function Interleave(ops: seq<Byte>, args: seq<I64>): (r: seq<Fr>)
    requires |ops| == |args|
    ensures |r| == 2 * |ops|
  {
    if ops == [] then []
    else
      var n := |ops| - 1;
      Interleave(ops[..n], args[..n]) + [ops[n], Red(AsU64(args[n]))]
  }

  // ----- The trace -----

  ghost predicate InI64(x: int) { -0x8000_0000_0000_0000 <= x < 0x8000_0000_0000_0000 }

  /** Whether a conditional jump is taken. */
  predicate Taken(op: Byte, stackTop: I64) {
    op == 33 ||
    ((op == 34 || op == 30) && stackTop != 0) ||
    ((op == 35 || op == 29 || op == 43 || op == 44 || op == 45) && stackTop == 0)
  }

  /** Ret, Call, Closure and PCall: the circuit does not constrain the next pc. */
  predicate Unconstrained(op: Byte) { op == 37 || op == 36 || op == 38 || op == 40 }

  /** The next pc the circuit expects; the cast to u32 wraps. */
  function ExpectedNext(pc: Uint32, op: Byte, operand: I64, stackTop: I64): int {
    if Taken(op, stackTop) then (pc + 1 + operand) % 0x1_0000_0000 else pc + 1
  }

  /** The constraints of live step i. A read outside an array and an overflow of the jump target fail. */
  ghost predicate StepOk(w: Witness, pub: Public, i: nat)
    requires Shaped(w) && i < MAX_STEPS
  {
    var pc, op, operand, top := w.pcs[i], w.traceOpcodes[i], w.traceOperands[i], w.stackTops[i];
    pc < MAX_BYTECODE && op == w.opcodes[pc] && operand == w.operands[pc] && op <= 45 &&
    InI64(pc + 1 + operand) &&
    (!Unconstrained(op) ==> w.nextPcs[i] == ExpectedNext(pc, op, operand, top)) &&
    (i + 1 < pub.numSteps ==> i + 1 < MAX_STEPS && w.pcs[i + 1] == w.nextPcs[i]) &&
    (i + 1 == pub.numSteps && op == 37 ==> top == pub.returnValue)
  }

  ghost predicate TraceOk(w: Witness, pub: Public)
    requires Shaped(w)
  {
    w.pcs[0] == 0 && pub.numSteps <= MAX_STEPS && forall i: nat | i < pub.numSteps :: StepOk(w, pub, i)
  }

  /** Number of ToolCall opcodes among the first n steps. */
  function ToolCount(ops: seq<Byte>, n: nat): (c: nat)
    requires n <= |ops|
    ensures c <= n
  {
    if n == 0 then 0 else ToolCount(ops, n - 1) + if ops[n - 1] == 39 then 1 else 0
  }

  // ----- The tape -----

  /** tag, length, then the payload bytes, one field element each. */
  function EntryFields(tag: Byte, len: nat, data: Bytes): (r: seq<Fr>)
    ensures |r| == |data| + 2
  {
    [tag, Red(len)] + seq(|data|, i requires 0 <= i < |data| => data[i])
  }

  function ResponseLeaf(h: Hashes, w: Witness, i: nat): Fr
    requires Shaped(w) && i < MAX_TOOL_CALLS
  {
    h.Poseidon(EntryFields(w.tags[i], w.lengths[i], w.data[i]), w.lengths[i] as int + 2)
  }

  function ResponseLeaves(h: Hashes, w: Witness): (r: seq<Fr>)
    requires Shaped(w)
    ensures |r| == MAX_TOOL_CALLS
  {
    seq(MAX_TOOL_CALLS, i requires 0 <= i < MAX_TOOL_CALLS => ResponseLeaf(h, w, i))
  }

  function BoundLeaf(h: Hashes, response: Fr, attestation: Fr): Fr { h.Poseidon([response, attestation], 2) }

  function BoundLeaves(h: Hashes, w: Witness): (r: seq<Fr>)
    requires Shaped(w)
    ensures |r| == MAX_TOOL_CALLS
  {
    seq(MAX_TOOL_CALLS, i requires 0 <= i < MAX_TOOL_CALLS =>
      BoundLeaf(h, ResponseLeaf(h, w, i), FieldOf(w.attestationLeaves[i])))
  }

  /** No length overflows when two is added to it. */
  ghost predicate LengthsOk(w: Witness)
    requires Shaped(w)
  {
    forall i | 0 <= i < MAX_TOOL_CALLS :: w.lengths[i] as int + 2 < 0x1_0000_0000
  }

  ghost predicate ProgramOk(h: Hashes, w: Witness, pub: Public)
    requires Shaped(w)
  {
    w.instrCount * 2 < 0x1_0000_0000 &&
    h.Poseidon(Interleave(w.opcodes, w.operands), w.instrCount * 2) == FieldOf(pub.programHash)
  }

  ghost predicate TapeOk(h: Hashes, w: Witness, pub: Public)
    requires Shaped(w)
  {
    LengthsOk(w) &&
    h.Poseidon(ResponseLeaves(h, w), w.numToolCalls) == FieldOf(pub.toolResponsesHash) &&
    h.Poseidon(BoundLeaves(h, w), w.numToolCalls) == FieldOf(pub.attestationHash)
  }

  /** The circuit accepts: every assertion of main holds. */
  ghost predicate Accepts(h: Hashes, w: Witness, pub: Public)
    requires Shaped(w)
  {
    ProgramOk(h, w, pub) &&
    TraceOk(w, pub) &&
    ToolCount(w.traceOpcodes, pub.numSteps) == w.numToolCalls &&
    TapeOk(h, w, pub) &&
    h.keccak(Word(pub.returnValue)) == pub.outputHash
  }

  // ----- The checking program -----

  method AssertBytecode(h: Hashes, w: Witness, pub: Public) returns (ok: bool)
    requires Shaped(w)
    ensures ok <==> ProgramOk(h, w, pub)
  {
    if w.instrCount * 2 >= 0x1_0000_0000 {
      return false;
    }
    var input := HashInput(w.opcodes, w.operands);
    var expected := BeBytes32ToField(pub.programHash);
    ok := h.Poseidon(input, w.instrCount * 2) == expected;
  }

  method HashInput(ops: seq<Byte>, args: seq<I64>) returns (input: seq<Fr>)
    requires |ops| == |args| == MAX_BYTECODE
    ensures input == Interleave(ops, args)
  {
    hide AsU64, Red;
    var fields := new Fr[2 * MAX_BYTECODE](_ => 0);
    for i := 0 to MAX_BYTECODE
      invariant fields[..2 * i] == Interleave(ops[..i], args[..i])
    {
      InterleaveStep(ops, args, i);
      fields[i * 2] := ops[i];
      fields[i * 2 + 1] := Red(AsU64(args[i]));
      assert fields[..2 * (i + 1)] == fields[..2 * i] + [fields[2 * i], fields[2 * i + 1]];
    }
    assert ops[..MAX_BYTECODE] == ops && args[..MAX_BYTECODE] == args;
    input := fields[..];
  }

  lemma InterleaveStep(ops: seq<Byte>, args: seq<I64>, i: nat)
    requires i < |ops| == |args|
    ensures Interleave(ops[..i + 1], args[..i + 1]) == Interleave(ops[..i], args[..i]) + [ops[i], Red(AsU64(args[i]))]
  {
    assert ops[..i + 1][..i] == ops[..i] && args[..i + 1][..i] == args[..i];
  }

  method CheckStep(w: Witness, pub: Public, i: nat) returns (ok: bool)
    requires Shaped(w) && i < MAX_STEPS
    ensures ok <==> StepOk(w, pub, i)
  {
    var pc, opcode, operand, stackTop, nextPc :=
      w.pcs[i], w.traceOpcodes[i], w.traceOperands[i], w.stackTops[i], w.nextPcs[i];
    if pc >= MAX_BYTECODE || opcode != w.opcodes[pc] || operand != w.operands[pc] || opcode > 45 {
      return false;
    }
    var target := pc + 1 + operand;
    if target < -0x8000_0000_0000_0000 || target >= 0x8000_0000_0000_0000 {
      return false;
    }
    var jmpTarget := target % 0x1_0000_0000;
    var expected :=
      if opcode == 33 then jmpTarget
      else if opcode == 34 && stackTop != 0 then jmpTarget
      else if opcode == 35 && stackTop == 0 then jmpTarget
      else if opcode == 29 && stackTop == 0 then jmpTarget
      else if opcode == 30 && stackTop != 0 then jmpTarget
      else if opcode == 43 && stackTop == 0 then jmpTarget
      else if opcode == 44 && stackTop == 0 then jmpTarget
      else if opcode == 45 && stackTop == 0 then jmpTarget
      else pc + 1;
    var unconstrained := opcode == 37 || opcode == 36 || opcode == 38 || opcode == 40;
    if !unconstrained && nextPc != expected {
      return false;
    }
    if i + 1 < pub.numSteps && (i + 1 >= MAX_STEPS || w.pcs[i + 1] != w.nextPcs[i]) {
      return false;
    }
    return !(i + 1 == pub.numSteps && opcode == 37 && stackTop != pub.returnValue);
  }

  method HashResponses(h: Hashes, w: Witness) returns (ok: bool, leaves: seq<Fr>)
    requires Shaped(w)
    ensures ok <==> LengthsOk(w)
    ensures ok ==> leaves == ResponseLeaves(h, w)
  {
    hide EntryFields;
    var respLeaves := new Fr[MAX_TOOL_CALLS](_ => 0);
    for i := 0 to MAX_TOOL_CALLS
      invariant forall j | 0 <= j < i :: w.lengths[j] as int + 2 < 0x1_0000_0000
      invariant forall j | 0 <= j < i :: respLeaves[j] == ResponseLeaf(h, w, j)
    {
      var size := w.lengths[i] as int + 2;
      if size >= 0x1_0000_0000 {
        return false, [];
      }
      respLeaves[i] := h.Poseidon(EntryFields(w.tags[i], w.lengths[i], w.data[i]), size);
    }
    return true, respLeaves[..];
  }

  method BindAttestations(h: Hashes, w: Witness, leaves: seq<Fr>) returns (bound: seq<Fr>)
    requires Shaped(w) && leaves == ResponseLeaves(h, w)
    ensures bound == BoundLeaves(h, w)
  {
    hide FieldOf, ResponseLeaf;
    var boundLeaves := new Fr[MAX_TOOL_CALLS](_ => 0);
    for i := 0 to MAX_TOOL_CALLS
      invariant forall j | 0 <= j < i ::
          boundLeaves[j] == BoundLeaf(h, ResponseLeaf(h, w, j), FieldOf(w.attestationLeaves[j]))
    {
      var attestation := BeBytes32ToField(w.attestationLeaves[i]);
      assert leaves[i] == ResponseLeaf(h, w, i);
      boundLeaves[i] := h.Poseidon([leaves[i], attestation], 2);
    }
    return boundLeaves[..];
  }

  method CheckTape(h: Hashes, w: Witness, pub: Public) returns (ok: bool)
    requires Shaped(w)
    ensures ok <==> TapeOk(h, w, pub)
  {
    hide FieldOf, ResponseLeaves, BoundLeaves, LengthsOk;
    var leaves;
    ok, leaves := HashResponses(h, w);
    if !ok {
      return;
    }
    var expected := BeBytes32ToField(pub.toolResponsesHash);
    if h.Poseidon(leaves, w.numToolCalls) != expected {
      return false;
    }
    var bound := BindAttestations(h, w, leaves);
    expected := BeBytes32ToField(pub.attestationHash);
    return h.Poseidon(bound, w.numToolCalls) == expected;
  }

  /** The circuit's entry point. Live steps past the arrays fail in the last iteration. */
  method Verify(h: Hashes, w: Witness, pub: Public) returns (ok: bool)
    requires Shaped(w)
    ensures ok <==> Accepts(h, w, pub)
  {
    hide StepOk, ProgramOk, TapeOk;
    ok := AssertBytecode(h, w, pub);
    if !ok || w.pcs[0] != 0 {
      return false;
    }
    var toolCalls: nat := 0;
    for i := 0 to MAX_STEPS
      invariant forall j: nat | j < i && j < pub.numSteps :: StepOk(w, pub, j)
      invariant toolCalls == ToolCount(w.traceOpcodes, if i <= pub.numSteps then i else pub.numSteps)
    {
      if i < pub.numSteps {
        ok := CheckStep(w, pub, i);
        if !ok {
          return false;
        }
        if w.traceOpcodes[i] == 39 {
          toolCalls := toolCalls + 1;
        }
      }
    }
    if pub.numSteps > MAX_STEPS {
      LastStepInBounds(w, pub);
      return false;
    }
    if toolCalls != w.numToolCalls {
      return false;
    }
    ok := CheckTape(h, w, pub);
    if !ok {
      return false;
    }
    var payload := CircuitPayload(pub.returnValue);
    return h.keccak(payload) == pub.outputHash;
  }

  /** A step count beyond the arrays makes the last iteration read past them. */
  lemma LastStepInBounds(w: Witness, pub: Public)
    requires Shaped(w) && pub.numSteps > MAX_STEPS
    ensures !StepOk(w, pub, MAX_STEPS - 1)
  {}

  // ----- Where an accepted trace goes -----

  /** The next pc of every live step of an accepted witness, opcode by opcode. Jmp always jumps; JmpIf and Or jump
      exactly on a nonzero stack top; JmpIfNot, And and the three iterator instructions exactly on zero; Ret, Call,
      Closure and PCall are free; everything else goes on to the next instruction. */
  lemma AcceptedNextPc(h: Hashes, w: Witness, pub: Public, i: nat)
    requires Shaped(w) && Accepts(h, w, pub) && i < pub.numSteps
    ensures i < MAX_STEPS && w.pcs[i] < MAX_BYTECODE
    ensures w.traceOpcodes[i] == w.opcodes[w.pcs[i]] <= 45 && w.traceOperands[i] == w.operands[w.pcs[i]]
    ensures i + 1 < pub.numSteps ==> i + 1 < MAX_STEPS && w.pcs[i + 1] == w.nextPcs[i]
    ensures var pc, op, top, next := w.pcs[i], w.traceOpcodes[i], w.stackTops[i], w.nextPcs[i];
            var target := (pc + 1 + w.traceOperands[i]) % 0x1_0000_0000;
            (op == 33 ==> next == target) &&
            (op == 34 || op == 30 ==> next == if top != 0 then target else pc + 1) &&
            (op == 35 || op == 29 || op == 43 || op == 44 || op == 45 ==>
               next == if top == 0 then target else pc + 1) &&
            (op <= 28 || op == 31 || op == 32 || op == 39 || op == 41 || op == 42 ==> next == pc + 1)
  {
    assert StepOk(w, pub, i);
  }

  /** The free ones are free: behind such a last step any next pc is accepted. */
  lemma OpenNextPc(h: Hashes, w: Witness, pub: Public, next: Uint32)
    requires Shaped(w) && Accepts(h, w, pub) && pub.numSteps > 0
    requires w.traceOpcodes[pub.numSteps - 1] in [36, 37, 38, 40]
    ensures pub.numSteps <= MAX_STEPS && Accepts(h, w.(nextPcs := w.nextPcs[pub.numSteps - 1 := next]), pub)
  {
    var v := w.(nextPcs := w.nextPcs[pub.numSteps - 1 := next]);
    assert TapeOk(h, v, pub) by { SameTape(h, w, v); }
    forall i: nat | i < pub.numSteps
      ensures StepOk(v, pub, i)
    {
      assert StepOk(w, pub, i);
    }
  }

  lemma SameTape(h: Hashes, w: Witness, v: Witness)
    requires Shaped(w) && Shaped(v) && v == w.(nextPcs := v.nextPcs)
    ensures ResponseLeaves(h, v) == ResponseLeaves(h, w) && BoundLeaves(h, v) == BoundLeaves(h, w)
  {
    hide FieldOf, EntryFields, BoundLeaf;
  }

  // ----- An accepted trace is determined -----

  /** The two traces agree on what the circuit takes from the prover: bytecode, step count, stack tops, and the next pc
      of the opcodes it does not constrain. */
  ghost predicate SameChoices(w: Witness, v: Witness, n: nat)
    requires Shaped(w) && Shaped(v) && n <= MAX_STEPS
  {
    w.opcodes == v.opcodes && w.operands == v.operands &&
    (forall i: nat | i < n :: w.stackTops[i] == v.stackTops[i]) &&
    (forall i: nat | i < n && Unconstrained(w.traceOpcodes[i]) :: w.nextPcs[i] == v.nextPcs[i])
  }

  /** Those choices fix every live pc, opcode and operand. */
  lemma {:induction false} TraceDetermined(w: Witness, v: Witness, pubW: Public, pubV: Public, i: nat)
    requires Shaped(w) && Shaped(v) && TraceOk(w, pubW) && TraceOk(v, pubV) && pubW.numSteps == pubV.numSteps
    requires SameChoices(w, v, pubW.numSteps) && i < pubW.numSteps
    ensures w.pcs[i] == v.pcs[i] && w.traceOpcodes[i] == v.traceOpcodes[i] && w.traceOperands[i] == v.traceOperands[i]
    ensures i + 1 < pubW.numSteps ==> w.nextPcs[i] == v.nextPcs[i]
  {
    if i > 0 {
      TraceDetermined(w, v, pubW, pubV, i - 1);
      assert StepOk(w, pubW, i - 1) && StepOk(v, pubV, i - 1);
    }
    assert StepOk(w, pubW, i) && StepOk(v, pubV, i);
  }

  // ----- Unused slots do not matter -----

  /** The two witnesses differ at most in trace slots past the live steps (slot 0 is always live) and in tape slots past
      the recorded calls, whose lengths are within the data arrays. */
  ghost predicate SameLiveSlots(w: Witness, v: Witness, pub: Public)
    requires Shaped(w) && Shaped(v)
  {
    w.opcodes == v.opcodes && w.operands == v.operands && w.instrCount == v.instrCount &&
    w.numToolCalls == v.numToolCalls && w.pcs[0] == v.pcs[0] &&
    (forall i: nat | i < pub.numSteps && i < MAX_STEPS ::
       w.pcs[i] == v.pcs[i] && w.traceOpcodes[i] == v.traceOpcodes[i] && w.traceOperands[i] == v.traceOperands[i] &&
       w.stackTops[i] == v.stackTops[i] && w.nextPcs[i] == v.nextPcs[i]) &&
    (forall i: nat | i < w.numToolCalls && i < MAX_TOOL_CALLS ::
       w.tags[i] == v.tags[i] && w.lengths[i] == v.lengths[i] && w.data[i] == v.data[i] &&
       w.attestationLeaves[i] == v.attestationLeaves[i]) &&
    (forall i: nat | w.numToolCalls <= i < MAX_TOOL_CALLS ::
       w.lengths[i] <= MAX_TAPE_ENTRY_BYTES && v.lengths[i] <= MAX_TAPE_ENTRY_BYTES)
  }

  lemma {:induction false} SameToolCount(a: seq<Byte>, b: seq<Byte>, n: nat)
    requires n <= |a| && n <= |b| && forall i | 0 <= i < n :: a[i] == b[i]
    ensures ToolCount(a, n) == ToolCount(b, n)
  {
    if n > 0 { SameToolCount(a, b, n - 1); }
  }

  lemma SamePoseidon(h: Hashes, a: seq<Fr>, b: seq<Fr>, n: nat)
    requires |a| == |b| && forall i | 0 <= i < n && i < |a| :: a[i] == b[i]
    ensures h.Poseidon(a, n) == h.Poseidon(b, n)
  {
    if n <= |a| { assert a[..n] == b[..n]; } else { assert a == b; }
  }

  lemma SameTapeCheck(h: Hashes, w: Witness, v: Witness, pub: Public)
    requires Shaped(w) && Shaped(v) && SameLiveSlots(w, v, pub)
    ensures TapeOk(h, w, pub) <==> TapeOk(h, v, pub)
  {
    hide ResponseLeaves, BoundLeaves, FieldOf, LengthsOk, Shaped;
    SameLengthCheck(w, v, pub);
    SameLeaves(h, w, v, pub);
    SamePoseidon(h, ResponseLeaves(h, w), ResponseLeaves(h, v), w.numToolCalls);
    SamePoseidon(h, BoundLeaves(h, w), BoundLeaves(h, v), w.numToolCalls);
  }

  lemma SameLengthCheck(w: Witness, v: Witness, pub: Public)
    requires Shaped(w) && Shaped(v) && SameLiveSlots(w, v, pub)
    ensures LengthsOk(w) <==> LengthsOk(v)
  {}

  lemma SameLeaf(h: Hashes, w: Witness, v: Witness, pub: Public, i: nat)
    requires Shaped(w) && Shaped(v) && SameLiveSlots(w, v, pub) && i < w.numToolCalls && i < MAX_TOOL_CALLS
    ensures ResponseLeaf(h, w, i) == ResponseLeaf(h, v, i) && w.attestationLeaves[i] == v.attestationLeaves[i]
  {
    hide EntryFields, Shaped;
  }

  lemma SameLeaves(h: Hashes, w: Witness, v: Witness, pub: Public)
    requires Shaped(w) && Shaped(v) && SameLiveSlots(w, v, pub)
    ensures forall i | 0 <= i < w.numToolCalls && i < MAX_TOOL_CALLS ::
              ResponseLeaves(h, w)[i] == ResponseLeaves(h, v)[i] && BoundLeaves(h, w)[i] == BoundLeaves(h, v)[i]
  {
    hide FieldOf, BoundLeaf, ResponseLeaf, SameLiveSlots;
    forall i | 0 <= i < w.numToolCalls && i < MAX_TOOL_CALLS
      ensures ResponseLeaves(h, w)[i] == ResponseLeaves(h, v)[i] && BoundLeaves(h, w)[i] == BoundLeaves(h, v)[i]
    {
      SameLeaf(h, w, v, pub, i);
    }
  }

  lemma SameTraceCheck(w: Witness, v: Witness, pub: Public)
    requires Shaped(w) && Shaped(v) && SameLiveSlots(w, v, pub) && TraceOk(w, pub)
    ensures TraceOk(v, pub)
  {
    forall i: nat | i < pub.numSteps
      ensures StepOk(v, pub, i)
    {
      assert StepOk(w, pub, i);
    }
  }

  lemma SameSlotsSymmetric(w: Witness, v: Witness, pub: Public)
    requires Shaped(w) && Shaped(v) && SameLiveSlots(w, v, pub)
    ensures SameLiveSlots(v, w, pub)
  {}

  /** Rewriting unused slots never changes acceptance. */
  lemma UnusedSlotsIrrelevant(h: Hashes, w: Witness, v: Witness, pub: Public)
    requires Shaped(w) && Shaped(v) && SameLiveSlots(w, v, pub)
    ensures Accepts(h, w, pub) <==> Accepts(h, v, pub)
  {
    SameSlotsSymmetric(w, v, pub);
    SameTapeCheck(h, w, v, pub);
    if TraceOk(w, pub) { SameTraceCheck(w, v, pub); }
    if TraceOk(v, pub) { SameTraceCheck(v, w, pub); }
    if pub.numSteps <= MAX_STEPS { SameToolCount(w.traceOpcodes, v.traceOpcodes, pub.numSteps); }
    hide TapeOk, StepOk;
  }
}
