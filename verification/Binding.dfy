/** What an accepted witness commits to: the layouts of the hashed messages, position by position, and the program and
    the tape that the public inputs leave no choice about. */
module Binding {
  import opened ByteStrings
  import opened Field
  import opened OutputWord
  import opened Circuit
  import O = Options

  // ----- Layouts -----

  /** Opcode i stands at place 2 * i of the program message, its operand behind it. */
  lemma {:induction false} InterleaveAt(ops: seq<Byte>, args: seq<I64>, i: nat)
    requires |ops| == |args| && i < |ops|
    ensures Interleave(ops, args)[2 * i] == ops[i] && Interleave(ops, args)[2 * i + 1] == Red(AsU64(args[i]))
  {
    hide AsU64, Red;
    var n := |ops| - 1;
    if i < n { InterleaveAt(ops[..n], args[..n], i); }
  }

  /** The message of a tape entry of len bytes: tag, length, and those bytes. */
  lemma EntryMessageIs(tag: Byte, len: nat, data: Bytes)
    requires len <= |data| && len < P
    ensures EntryFields(tag, len, data)[..len + 2] ==
            [tag, len] + seq(len, k requires 0 <= k < len => data[k])
  {
    RedSmall(len);
  }

  /** The number of tool calls among the steps, as a count. */
  lemma {:induction false} ToolCountIsCount(ops: seq<Byte>, n: nat)
    requires n <= |ops|
    ensures ToolCount(ops, n) == multiset(ops[..n])[39]
  {
    if n > 0 {
      ToolCountIsCount(ops, n - 1);
      assert ops[..n] == ops[..n - 1] + [ops[n - 1]];
    }
  }

  // ----- What acceptance says about the run -----

  /** An accepted trace starts at the entry, fits the arrays, hands on its pcs, ends a final Ret with the public return
      value, and calls tools exactly as often as the tape has entries; no size overflows; the output hash is that of the
      value's ABI word. */
  lemma AcceptedRun(h: Hashes, w: Witness, pub: Public)
    requires Shaped(w) && Accepts(h, w, pub)
    ensures w.pcs[0] == 0 && pub.numSteps <= 2048
    ensures multiset(w.traceOpcodes[..pub.numSteps])[39] == w.numToolCalls
    ensures pub.numSteps > 0 && w.traceOpcodes[pub.numSteps - 1] == 37 ==>
              w.stackTops[pub.numSteps - 1] == pub.returnValue
    ensures w.instrCount < 0x8000_0000 && forall i: nat | i < 16 :: w.lengths[i] < 0xffff_fffe
    ensures 0 <= Pow256(32) + pub.returnValue && pub.outputHash == h.keccak(AbiInt256(pub.returnValue))
  {
    assert w.instrCount < 0x8000_0000 && LengthsOk(w);
    hide ProgramOk, TapeOk, Word, AbiInt256, Pow256;
    ToolCountIsCount(w.traceOpcodes, pub.numSteps);
    WordIsAbiInt256(pub.returnValue);
    if pub.numSteps > 0 { assert StepOk(w, pub, pub.numSteps - 1); }
  }

  // ----- What the hashes fix -----

  /** The entries of a vector that a hash of the given message size reads. */
  ghost function Read(v: seq<Fr>, n: nat): seq<Fr> { if n <= |v| then v[..n] else v }

  /** The hash does not collide on these two messages. */
  ghost predicate Apart(h: Hashes, a: seq<Fr>, m: nat, b: seq<Fr>, n: nat) {
    h.Poseidon(a, m) == h.Poseidon(b, n) ==> m == n && Read(a, m) == Read(b, n)
  }

  ghost function Entry(w: Witness, i: nat): seq<Fr>
    requires Shaped(w) && i < MAX_TOOL_CALLS
  {
    EntryFields(w.tags[i], w.lengths[i], w.data[i])
  }

  ghost function Pair(h: Hashes, w: Witness, i: nat): seq<Fr>
    requires Shaped(w) && i < MAX_TOOL_CALLS
  {
    [ResponseLeaf(h, w, i), FieldOf(w.attestationLeaves[i])]
  }

  /** No collision on anything the two witnesses hash: the programs, the lists of leaves, and the leaves themselves. */
  ghost predicate NoCollisions(h: Hashes, w: Witness, v: Witness)
    requires Shaped(w) && Shaped(v)
  {
    Apart(h, Interleave(w.opcodes, w.operands), w.instrCount * 2,
          Interleave(v.opcodes, v.operands), v.instrCount * 2) &&
    Apart(h, ResponseLeaves(h, w), w.numToolCalls, ResponseLeaves(h, v), v.numToolCalls) &&
    Apart(h, BoundLeaves(h, w), w.numToolCalls, BoundLeaves(h, v), v.numToolCalls) &&
    forall i: nat | i < MAX_TOOL_CALLS ::
      Apart(h, Entry(w, i), w.lengths[i] as int + 2, Entry(v, i), v.lengths[i] as int + 2) &&
      Apart(h, Pair(h, w, i), 2, Pair(h, v, i), 2)
  }

  /** Every operand fits the field. */
  ghost predicate WideField() { P > 0x1_0000_0000_0000_0000 }

  /** The program is the same as far as it is hashed. */
  ghost predicate SameProgram(w: Witness, v: Witness)
    requires Shaped(w) && Shaped(v)
  {
    w.instrCount == v.instrCount &&
    forall i: nat | i < w.instrCount && i < MAX_BYTECODE ::
      w.opcodes[i] == v.opcodes[i] && w.operands[i] == v.operands[i]
  }

  /** Entry i of the tape is the same: tag, length, the bytes within the length, and the attestation as a field element.
      */
  ghost predicate SameEntry(w: Witness, v: Witness, i: nat)
    requires Shaped(w) && Shaped(v) && i < MAX_TOOL_CALLS
  {
    w.tags[i] == v.tags[i] && w.lengths[i] == v.lengths[i] &&
    (forall k: nat | k < w.lengths[i] && k < MAX_TAPE_ENTRY_BYTES :: w.data[i][k] == v.data[i][k]) &&
    FieldOf(w.attestationLeaves[i]) == FieldOf(v.attestationLeaves[i])
  }

  lemma OperandFixed(a: I64, b: I64)
    requires WideField() && Red(AsU64(a)) == Red(AsU64(b))
    ensures a == b
  {
    RedSmall(AsU64(a));
    RedSmall(AsU64(b));
  }

  lemma ProgramFixed(w: Witness, v: Witness)
    requires Shaped(w) && Shaped(v) && WideField() && w.instrCount == v.instrCount
    requires Read(Interleave(w.opcodes, w.operands), w.instrCount * 2) ==
             Read(Interleave(v.opcodes, v.operands), v.instrCount * 2)
    ensures SameProgram(w, v)
  {
    hide Interleave, Red, AsU64, WideField;
    var a, b := Interleave(w.opcodes, w.operands), Interleave(v.opcodes, v.operands);
    forall i: nat | i < w.instrCount && i < MAX_BYTECODE
      ensures w.opcodes[i] == v.opcodes[i] && w.operands[i] == v.operands[i]
    {
      InterleaveAt(w.opcodes, w.operands, i);
      InterleaveAt(v.opcodes, v.operands, i);
      ReadAt(a, b, w.instrCount * 2, 2 * i);
      ReadAt(a, b, w.instrCount * 2, 2 * i + 1);
      OperandFixed(w.operands[i], v.operands[i]);
    }
  }

  lemma ReadAt(a: seq<Fr>, b: seq<Fr>, n: nat, k: nat)
    requires Read(a, n) == Read(b, n) && |a| == |b| && k < n && k < |a|
    ensures a[k] == b[k]
  {
    assert Read(a, n)[k] == a[k] && Read(b, n)[k] == b[k];
  }

  lemma EntryFixed(w: Witness, v: Witness, i: nat)
    requires Shaped(w) && Shaped(v) && i < MAX_TOOL_CALLS && w.lengths[i] == v.lengths[i]
    requires Read(Entry(w, i), w.lengths[i] as int + 2) == Read(Entry(v, i), v.lengths[i] as int + 2)
    ensures w.tags[i] == v.tags[i]
    ensures forall k: nat | k < w.lengths[i] && k < MAX_TAPE_ENTRY_BYTES :: w.data[i][k] == v.data[i][k]
  {
    var a, b, n := Entry(w, i), Entry(v, i), w.lengths[i] as int + 2;
    ReadAt(a, b, n, 0);
    forall k: nat | k < w.lengths[i] && k < MAX_TAPE_ENTRY_BYTES
      ensures w.data[i][k] == v.data[i][k]
    {
      ReadAt(a, b, n, k + 2);
    }
  }

  lemma LiveEntryFixed(h: Hashes, w: Witness, v: Witness, i: nat)
    requires Shaped(w) && Shaped(v) && i < MAX_TOOL_CALLS && NoCollisions(h, w, v)
    requires ResponseLeaf(h, w, i) == ResponseLeaf(h, v, i)
    requires h.Poseidon(Pair(h, w, i), 2) == h.Poseidon(Pair(h, v, i), 2)
    ensures SameEntry(w, v, i)
  {
    hide Interleave, ResponseLeaves, BoundLeaves, FieldOf, EntryFields;
    assert Apart(h, Entry(w, i), w.lengths[i] as int + 2, Entry(v, i), v.lengths[i] as int + 2);
    assert Apart(h, Pair(h, w, i), 2, Pair(h, v, i), 2);
    EntryFixed(w, v, i);
    ReadAt(Pair(h, w, i), Pair(h, v, i), 2, 1);
  }

  /** Two accepted witnesses for the same public inputs run the same program over the same tape. */
  lemma PublicInputsFixWitness(h: Hashes, w: Witness, v: Witness, pub: Public)
    requires Shaped(w) && Shaped(v) && Accepts(h, w, pub) && Accepts(h, v, pub)
    requires WideField() && NoCollisions(h, w, v)
    ensures SameProgram(w, v) && w.numToolCalls == v.numToolCalls
    ensures forall i: nat | i < w.numToolCalls && i < MAX_TOOL_CALLS :: SameEntry(w, v, i)
  {
    hide Interleave, FieldOf, TraceOk, SameProgram, WideField, SameEntry, ResponseLeaf, Pair, Shaped, LengthsOk;
    ProgramFixed(w, v);
    var n := w.numToolCalls;
    forall i: nat | i < n && i < MAX_TOOL_CALLS
      ensures SameEntry(w, v, i)
    {
      ReadAt(ResponseLeaves(h, w), ResponseLeaves(h, v), n, i);
      ReadAt(BoundLeaves(h, w), BoundLeaves(h, v), n, i);
      BoundLeafAt(h, w, i);
      BoundLeafAt(h, v, i);
      LiveEntryFixed(h, w, v, i);
    }
  }

  /** A bound leaf hashes the response leaf and, behind it, the attestation leaf. */
  lemma BoundLeafAt(h: Hashes, w: Witness, i: nat)
    requires Shaped(w) && i < MAX_TOOL_CALLS
    ensures BoundLeaves(h, w)[i] == h.Poseidon(Pair(h, w, i), 2)
    ensures ResponseLeaves(h, w)[i] == ResponseLeaf(h, w, i)
  {
    hide FieldOf, ResponseLeaf;
  }
}
