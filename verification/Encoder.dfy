/** Flattening a compiled program into the one padded bytecode array of the circuit. */
module Encoder {
  import opened Options
  import opened ByteStrings
  import opened OutputWord
  import opened Circuit

  /** An instruction by its canonical opcode and its unified operand. */
  datatype Instr = Instr(op: Byte, operand: I64)

  type Proto = seq<Instr>

  datatype Program = Program(prototypes: seq<Proto>, programHash: Bytes)

  datatype EncodeError = TooLong(count: nat)

  datatype Bytecode = Bytecode(
    opcodes: seq<Byte>,
    operands: seq<I64>,
    programHash: Bytes,
    instrCount: nat,
    prototypeOffsets: seq<nat>)

  /** All prototypes one after the other. */
  function Flat(protos: seq<Proto>): Proto {
    if protos == [] then [] else Flat(protos[..|protos| - 1]) + protos[|protos| - 1]
  }

  /** Where prototype p starts in the flat program. */
  function Base(protos: seq<Proto>, p: nat): nat
    requires p <= |protos|
  {
    |Flat(protos[..p])|
  }

  lemma FlatStep(protos: seq<Proto>, p: nat)
    requires p < |protos|
    ensures Flat(protos[..p + 1]) == Flat(protos[..p]) + protos[p]
  {
    assert protos[..p + 1][..p] == protos[..p];
  }

  /** Instruction k of prototype p stands at Base(p) + k. */
  lemma {:induction false} FlatAt(protos: seq<Proto>, p: nat, k: nat, n: nat)
    requires p < n <= |protos| && k < |protos[p]|
    ensures Base(protos, p) + |protos[p]| <= |Flat(protos[..n])|
    ensures Flat(protos[..n])[Base(protos, p) + k] == protos[p][k]
  {
    FlatStep(protos, n - 1);
    if p < n - 1 { FlatAt(protos, p, k, n - 1); }
  }

  function PaddedOps(flat: Proto): (r: seq<Byte>)
    ensures |r| == MAX_BYTECODE
  {
    seq(MAX_BYTECODE, i requires i >= 0 => if i < |flat| then flat[i].op else 0)
  }

  function PaddedOperands(flat: Proto): (r: seq<I64>)
    ensures |r| == MAX_BYTECODE
  {
    seq(MAX_BYTECODE, i requires i >= 0 => if i < |flat| then flat[i].operand else 0)
  }

  function Offsets(protos: seq<Proto>): (r: seq<nat>)
    ensures |r| == |protos|
  {
    seq(|protos|, p requires 0 <= p < |protos| => Base(protos, p))
  }

  function Encoded(program: Program): Result<Bytecode, EncodeError> {
    var flat := Flat(program.prototypes);
    if |flat| > MAX_BYTECODE then Err(TooLong(|flat|))
    else Ok(Bytecode(PaddedOps(flat), PaddedOperands(flat), program.programHash, |flat|, Offsets(program.prototypes)))
  }

  method CountInstructions(protos: seq<Proto>) returns (count: nat)
    ensures count == |Flat(protos)|
  {
    count := 0;
    for p := 0 to |protos|
      invariant count == Base(protos, p)
    {
      FlatStep(protos, p);
      count := count + |protos[p]|;
    }
    assert protos[..|protos|] == protos;
  }

  lemma {:induction false} FlatGrows(protos: seq<Proto>, p: nat, n: nat)
    requires p <= n <= |protos|
    ensures Base(protos, p) <= Base(protos, n)
  {
    if p < n {
      FlatGrows(protos, p, n - 1);
      FlatStep(protos, n - 1);
    }
  }

  /** Writing the next instruction into the first free slot extends the padded program by it. */
  lemma PadNext(flat: Proto, i: Instr)
    requires |flat| < MAX_BYTECODE
    ensures PaddedOps(flat + [i]) == PaddedOps(flat)[|flat| := i.op]
    ensures PaddedOperands(flat + [i]) == PaddedOperands(flat)[|flat| := i.operand]
  {}

  /** The slots of one prototype, from the first free slot on. */
  method CopyPrototype(code: Proto, ghost before: Proto, slot: nat, opcodes: array<Byte>, operands: array<I64>)
    requires slot == |before| && |before + code| <= MAX_BYTECODE
    requires opcodes[..] == PaddedOps(before) && operands[..] == PaddedOperands(before)
    modifies opcodes, operands
    ensures opcodes[..] == PaddedOps(before + code) && operands[..] == PaddedOperands(before + code)
  {
    hide PaddedOps, PaddedOperands;
    assert before + code[..0] == before;
    for k := 0 to |code|
      invariant opcodes[..] == PaddedOps(before + code[..k]) && operands[..] == PaddedOperands(before + code[..k])
    {
      PadNext(before + code[..k], code[k]);
      assert before + code[..k + 1] == (before + code[..k]) + [code[k]];
      opcodes[slot + k] := code[k].op;
      operands[slot + k] := code[k].operand;
    }
    assert code[..|code|] == code;
  }

  method EncodeProgram(program: Program) returns (r: Result<Bytecode, EncodeError>)
    ensures r == Encoded(program)
  {
    var protos := program.prototypes;
    var count := CountInstructions(protos);
    if count > MAX_BYTECODE {
      return Err(TooLong(count));
    }
    var offsets: seq<nat> := [];
    var opcodes := new Byte[MAX_BYTECODE](_ => 0);
    var operands := new I64[MAX_BYTECODE](_ => 0);
    var slot := 0;
    assert protos[..|protos|] == protos;
    assert opcodes[..] == PaddedOps([]) && operands[..] == PaddedOperands([]);
    hide PaddedOps, PaddedOperands;
    for p := 0 to |protos|
      invariant slot == Base(protos, p) <= MAX_BYTECODE
      invariant opcodes[..] == PaddedOps(Flat(protos[..p])) && operands[..] == PaddedOperands(Flat(protos[..p]))
      invariant offsets == Offsets(protos)[..p]
    {
      offsets := offsets + [slot];
      FlatGrows(protos, p + 1, |protos|);
      FlatStep(protos, p);
      CopyPrototype(protos[p], Flat(protos[..p]), slot, opcodes, operands);
      slot := slot + |protos[p]|;
    }
    assert Offsets(protos)[..|protos|] == Offsets(protos);
    return Ok(Bytecode(opcodes[..], operands[..], program.programHash, count, offsets));
  }

  // ----- What the bytecode holds -----

  /** How many instructions the prototypes have together. */
  ghost function Total(protos: seq<Proto>): nat {
    if protos == [] then 0 else Total(protos[..|protos| - 1]) + |protos[|protos| - 1]|
  }

  lemma {:induction false} TotalIsFlat(protos: seq<Proto>)
    ensures |Flat(protos)| == Total(protos)
  {
    if protos != [] { TotalIsFlat(protos[..|protos| - 1]); }
  }

  /** Instruction k of prototype p stands k behind the offset of the prototype. */
  ghost predicate SlotHolds(code: Bytecode, protos: seq<Proto>, p: nat, k: nat)
    requires p < |protos| && k < |protos[p]| && p < |code.prototypeOffsets|
  {
    var slot := code.prototypeOffsets[p] + k;
    slot < code.instrCount && slot < |code.opcodes| && slot < |code.operands| &&
    code.opcodes[slot] == protos[p][k].op && code.operands[slot] == protos[p][k].operand
  }

  /** A program of more than 512 instructions is refused with their number; of any other, every instruction stands in
      its slot, and everything behind the last one is zero. */
  lemma EncodedSlots(program: Program)
    ensures var total, r := Total(program.prototypes), Encoded(program);
            (r.Err? <==> total > 512) && (r.Err? ==> r.error == TooLong(total)) &&
            (r.Ok? ==>
               r.value.programHash == program.programHash && r.value.instrCount == total &&
               |r.value.opcodes| == |r.value.operands| == 512 &&
               |r.value.prototypeOffsets| == |program.prototypes| &&
               (forall i: nat | total <= i < 512 :: r.value.opcodes[i] == 0 && r.value.operands[i] == 0) &&
               forall p: nat, k: nat | p < |program.prototypes| && k < |program.prototypes[p]| ::
                 SlotHolds(r.value, program.prototypes, p, k))
  {
    var protos := program.prototypes;
    TotalIsFlat(protos);
    if |Flat(protos)| <= MAX_BYTECODE {
      forall p: nat, k: nat | p < |protos| && k < |protos[p]|
        ensures SlotHolds(Encoded(program).value, protos, p, k)
      {
        EncodedSlot(program, p, k);
      }
      hide SlotHolds;
    }
  }

  lemma EncodedSlot(program: Program, p: nat, k: nat)
    requires p < |program.prototypes| && k < |program.prototypes[p]| && Encoded(program).Ok?
    ensures SlotHolds(Encoded(program).value, program.prototypes, p, k)
  {
    assert program.prototypes[..|program.prototypes|] == program.prototypes;
    FlatAt(program.prototypes, p, k, |program.prototypes|);
    hide Flat;
  }
}
