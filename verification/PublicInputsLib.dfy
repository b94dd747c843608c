/** Packing the public inputs for the generated verifier, and the wrapper contract around that verifier. */
module PublicInputsLib {
  import opened Options
  import opened ByteStrings
  import opened Field
  import opened OutputWord
  import opened Circuit
  import ProofLayout

  const PROVENO_PUBLIC_INPUTS_LENGTH: nat := 194

  /** The fields of the struct declared bytes32. */
  predicate HashesFit(pi: Public) {
    |pi.programHash| == |pi.toolResponsesHash| == |pi.inputHash| == |pi.outputHash| == 32 &&
    |pi.attestationHash| == |pi.policyHash| == 32
  }

  /** The wire layout: the two scalars as one word each, every byte of every hash as a word of its own, in the order the
      circuit declares its public inputs. */
  function Packed(pi: Public): (r: seq<nat>)
    requires HashesFit(pi)
    ensures |r| == PROVENO_PUBLIC_INPUTS_LENGTH
  {
    [pi.numSteps] + Expanded(pi.programHash) + [AsU64(pi.returnValue)] + Expanded(pi.toolResponsesHash) +
    Expanded(pi.inputHash) + Expanded(pi.outputHash) + Expanded(pi.attestationHash) + Expanded(pi.policyHash)
  }

  function Expanded(b: Bytes): (r: seq<nat>)
    ensures |r| == |b|
  {
    seq(|b|, i requires 0 <= i < |b| => b[i])
  }

  /** How often each slot has been written when the first n have been written once. */
  ghost function WrittenOnce(n: nat): seq<nat>
    requires n <= PROVENO_PUBLIC_INPUTS_LENGTH
  {
    seq(PROVENO_PUBLIC_INPUTS_LENGTH, k => if k < n then 1 else 0)
  }

  /** Expands a hash into 32 words from offset on; the ghost count says how often each slot has been written. */
  method WriteBytes32AsBytes(packed: array<nat>, offset: nat, hash: Bytes, ghost done: seq<nat>,
                             ghost count: seq<nat>)
    returns (ghost count': seq<nat>)
    requires |hash| == 32 && offset + 32 <= packed.Length == PROVENO_PUBLIC_INPUTS_LENGTH
    requires packed[..offset] == done && count == WrittenOnce(offset)
    modifies packed
    ensures packed[..offset + 32] == done + Expanded(hash)
    ensures count' == WrittenOnce(offset + 32)
  {
    count' := count;
    for j := 0 to 32
      invariant packed[..offset] == done
      invariant packed[offset..offset + j] == Expanded(hash)[..j]
      invariant count' == WrittenOnce(offset + j)
    {
      packed[offset + j] := hash[j];
      count' := count'[offset + j := count'[offset + j] + 1];
    }
    assert packed[..offset + 32] == packed[..offset] + packed[offset..offset + 32];
  }

  method WriteWord(packed: array<nat>, i: nat, word: nat, ghost done: seq<nat>, ghost count: seq<nat>)
    returns (ghost count': seq<nat>)
    requires i < packed.Length == PROVENO_PUBLIC_INPUTS_LENGTH && packed[..i] == done && count == WrittenOnce(i)
    modifies packed
    ensures packed[..i + 1] == done + [word]
    ensures count' == WrittenOnce(i + 1)
  {
    packed[i] := word;
    count' := count[i := count[i] + 1];
    assert packed[..i + 1] == packed[..i] + [packed[i]];
  }

  /** Packing writes every slot exactly once, and writes the layout. */
  method Pack(pi: Public) returns (packed: array<nat>, ghost count: seq<nat>)
    requires HashesFit(pi)
    ensures packed[..] == Packed(pi)
    ensures count == WrittenOnce(PROVENO_PUBLIC_INPUTS_LENGTH)
  {
    hide Expanded, AsU64, WrittenOnce;
    packed := new nat[PROVENO_PUBLIC_INPUTS_LENGTH](_ => 0);
    count := WrittenOnce(0);
    ghost var done: seq<nat> := [];
    count := WriteWord(packed, 0, pi.numSteps, done, count);
    done := [pi.numSteps];
    var i := 1;
    count := WriteBytes32AsBytes(packed, i, pi.programHash, done, count);
    done := done + Expanded(pi.programHash);
    i := i + 32;
    count := WriteWord(packed, i, AsU64(pi.returnValue), done, count);
    done := done + [AsU64(pi.returnValue)];
    i := i + 1;
    count := WriteBytes32AsBytes(packed, i, pi.toolResponsesHash, done, count);
    done := done + Expanded(pi.toolResponsesHash);
    i := i + 32;
    count := WriteBytes32AsBytes(packed, i, pi.inputHash, done, count);
    done := done + Expanded(pi.inputHash);
    i := i + 32;
    count := WriteBytes32AsBytes(packed, i, pi.outputHash, done, count);
    done := done + Expanded(pi.outputHash);
    i := i + 32;
    count := WriteBytes32AsBytes(packed, i, pi.attestationHash, done, count);
    done := done + Expanded(pi.attestationHash);
    i := i + 32;
    count := WriteBytes32AsBytes(packed, i, pi.policyHash, done, count);
    done := done + Expanded(pi.policyHash);
    assert packed[..i + 32] == packed[..];
  }

  // ----- Reading the layout back -----

  /** A packed array: bytes in the slots of the hashes, the scalars within their widths. */
  ghost predicate WireValid(p: seq<nat>) {
    |p| == PROVENO_PUBLIC_INPUTS_LENGTH && p[0] < U32_LIMIT && p[33] < U64_LIMIT &&
    forall i | 0 <= i < |p| && i != 0 && i != 33 :: p[i] < 256
  }

  /** The 32 bytes that start at a slot. */
  ghost function BytesFrom(p: seq<nat>, at: nat): Bytes
    requires at + 32 <= |p| && forall i | at <= i < at + 32 :: p[i] < 256
  {
    seq(32, i requires 0 <= i < 32 => p[at + i])
  }

  /** Reinterpretation of a u64 as an i64. */
  function AsI64(x: nat): I64
    requires x < U64_LIMIT
  {
    if x < 0x8000_0000_0000_0000 then x else x - 0x1_0000_0000_0000_0000
  }

  ghost function Unpacked(p: seq<nat>): Public
    requires WireValid(p)
  {
    Public(p[0], BytesFrom(p, 1), AsI64(p[33]), BytesFrom(p, 34), BytesFrom(p, 66), BytesFrom(p, 98), BytesFrom(p, 130),
           BytesFrom(p, 162))
  }

  /** Where each field stands. */
  lemma Slots(pi: Public)
    requires HashesFit(pi)
    ensures var p := Packed(pi);
            p[0] == pi.numSteps && p[1..33] == Expanded(pi.programHash) && p[33] == AsU64(pi.returnValue) &&
            p[34..66] == Expanded(pi.toolResponsesHash) && p[66..98] == Expanded(pi.inputHash) &&
            p[98..130] == Expanded(pi.outputHash) && p[130..162] == Expanded(pi.attestationHash) &&
            p[162..194] == Expanded(pi.policyHash)
  {
    hide Expanded, AsU64;
  }

  lemma BytesFromSlice(p: seq<nat>, at: nat, b: Bytes)
    requires at + 32 <= |p| && p[at..at + 32] == Expanded(b) && |b| == 32
    ensures forall i | at <= i < at + 32 :: p[i] < 256
    ensures BytesFrom(p, at) == b
  {
    forall i | 0 <= i < 32
      ensures p[at + i] == b[i]
    {
      assert p[at..at + 32][i] == Expanded(b)[i];
    }
    assert forall i | at <= i < at + 32 :: p[i] == b[i - at];
  }

  /** Packing loses nothing. */
  lemma PackRoundTrip(pi: Public)
    requires HashesFit(pi)
    ensures WireValid(Packed(pi)) && Unpacked(Packed(pi)) == pi
  {
    Slots(pi);
    var p := Packed(pi);
    hide Packed, Expanded;
    BytesFromSlice(p, 1, pi.programHash);
    BytesFromSlice(p, 34, pi.toolResponsesHash);
    BytesFromSlice(p, 66, pi.inputHash);
    BytesFromSlice(p, 98, pi.outputHash);
    BytesFromSlice(p, 130, pi.attestationHash);
    BytesFromSlice(p, 162, pi.policyHash);
  }

  lemma PackInjective(pi: Public, qi: Public)
    requires HashesFit(pi) && HashesFit(qi) && Packed(pi) == Packed(qi)
    ensures pi == qi
  {
    PackRoundTrip(pi);
    PackRoundTrip(qi);
  }

  // ----- What the generated verifier demands of its inputs -----

  /** The public input count of the verification key. It includes the pairing points, which travel in the proof. */
  const VK_PUBLIC_INPUTS_SIZE: nat := 202

  datatype InputError = PublicInputsLengthWrong | ValueGeFieldOrder

  ghost predicate InputsAccepted(inputs: seq<nat>) {
    |inputs| == VK_PUBLIC_INPUTS_SIZE - ProofLayout.PAIRING_POINTS_SIZE && forall i | 0 <= i < |inputs| :: inputs[i] < P
  }

  /** The count is compared before the words. */
  method CheckInputs(inputs: seq<nat>) returns (error: Option<InputError>)
    ensures error == None <==> InputsAccepted(inputs)
    ensures error == Some(PublicInputsLengthWrong) <==>
            |inputs| != VK_PUBLIC_INPUTS_SIZE - ProofLayout.PAIRING_POINTS_SIZE
  {
    if |inputs| != VK_PUBLIC_INPUTS_SIZE - ProofLayout.PAIRING_POINTS_SIZE {
      return Some(PublicInputsLengthWrong);
    }
    for i := 0 to VK_PUBLIC_INPUTS_SIZE - ProofLayout.PAIRING_POINTS_SIZE
      invariant forall j | 0 <= j < i :: inputs[j] < P
    {
      if inputs[i] >= P {
        return Some(ValueGeFieldOrder);
      }
    }
    return None;
  }

  /** What is packed has the right count, and every word is a field element: the verifier sees the numbers packed. */
  lemma PackedAccepted(pi: Public)
    requires HashesFit(pi) && Bn254()
    ensures InputsAccepted(Packed(pi))
  {
    PackRoundTrip(pi);
    hide Packed;
  }

  // ----- The wrapper contract -----

  datatype VerifyError = PolicyHashMismatch | ProofInvalid

  /** The generated verifier: it returns a boolean, or reverts. */
  type Honk = (Bytes, seq<nat>) -> Option<bool>

  /** ProvenoVerifier: the policy it enforces and the verifier it calls. */
  datatype Verifier = Verifier(expectedPolicyHash: Bytes, honk: Honk)
  {
    function Verify(proof: Bytes, inputs: Public): Option<VerifyError>
      requires HashesFit(inputs)
    {
      if inputs.policyHash != expectedPolicyHash then Some(PolicyHashMismatch)
      else
        match honk(proof, Packed(inputs))
        case Some(ok) => if ok then None else Some(ProofInvalid)
        case None => Some(ProofInvalid)
    }
  }

  /** Soundness of the proof system, as a hypothesis: what the generated verifier accepts, some witness satisfies. */
  ghost predicate Sound(h: Hashes, honk: Honk) {
    forall proof: Bytes, pi: Public :: HashesFit(pi) && honk(proof, Packed(pi)) == Some(true) ==> HasWitness(h, pi)
  }

  ghost predicate HasWitness(h: Hashes, pi: Public) { exists w: Witness :: Shaped(w) && Accepts(h, w, pi) }
}
