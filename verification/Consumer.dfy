/** The example consumer: it stores a result only when the proof and the payload both check. */
module Consumer {
  import opened Options
  import opened ByteStrings
  import opened OutputWord
  import opened Circuit
  import opened PublicInputsLib

  datatype Failure = Proof(error: VerifyError) | OutputPayloadMismatch | Undecodable

  /** abi.decode of a payload as one int256: it reads the first word and ignores the rest. */
  function Decoded(payload: Bytes): Option<int> {
    if |payload| < 32 then None else Some(DecodeInt256(payload[..32]))
  }

  /** What a call stores, or why it reverts. */
  function Consumed(v: Verifier, keccak: Bytes -> Bytes, proof: Bytes, inputs: Public, payload: Bytes)
    : Result<int, Failure>
    requires HashesFit(inputs)
  {
    match v.Verify(proof, inputs)
    case Some(e) => Err(Proof(e))
    case None =>
      if keccak(payload) != inputs.outputHash then Err(OutputPayloadMismatch)
      else
        match Decoded(payload)
        case None => Err(Undecodable)
        case Some(result) => Ok(result)
  }

  class ProvenoConsumer {
    const verifier: Verifier
    const keccak: Bytes -> Bytes
    var lastResult: int
    /** The results announced by ResultConsumed events. */
    var log: seq<int>

    constructor (verifier: Verifier, keccak: Bytes -> Bytes)
      ensures this.verifier == verifier && this.keccak == keccak && lastResult == 0 && log == []
    {
      this.verifier := verifier;
      this.keccak := keccak;
      lastResult, log := 0, [];
    }

    method ConsumeResult(proof: Bytes, inputs: Public, payload: Bytes) returns (reverted: Option<Failure>)
      requires HashesFit(inputs)
      modifies this
      ensures match Consumed(verifier, keccak, proof, inputs, payload)
              case Ok(result) => reverted == None && lastResult == result && log == old(log) + [result]
              case Err(e) => reverted == Some(e) && lastResult == old(lastResult) && log == old(log)
    {
      var error := verifier.Verify(proof, inputs);
      if error.Some? {
        return Some(Proof(error.value));
      }
      if keccak(payload) != inputs.outputHash {
        return Some(OutputPayloadMismatch);
      }
      if |payload| < 32 {
        return Some(Undecodable);
      }
      var result := DecodeInt256(payload[..32]);
      lastResult := result;
      log := log + [result];
      return None;
    }
  }

  /** Keccak does not collide on these two payloads. */
  ghost predicate NoPayloadCollision(keccak: Bytes -> Bytes, a: Bytes, b: Bytes) { keccak(a) == keccak(b) ==> a == b }

  /** With a sound verifier, what is stored is the proven return value, under the expected policy. */
  lemma StoredResultIsProven(v: Verifier, h: Hashes, proof: Bytes, inputs: Public, payload: Bytes)
    requires HashesFit(inputs) && Sound(h, v.honk)
    requires NoPayloadCollision(h.keccak, Word(inputs.returnValue), payload)
    requires Consumed(v, h.keccak, proof, inputs, payload).Ok?
    ensures Consumed(v, h.keccak, proof, inputs, payload) == Ok(inputs.returnValue)
    ensures HasWitness(h, inputs) && inputs.policyHash == v.expectedPolicyHash && payload == Word(inputs.returnValue)
  {
    hide Packed, Accepts, Shaped, Word;
    assert HasWitness(h, inputs);
    ProvenBindsOutput(h, inputs);
    assert payload[..32] == payload;
    WordDecodes(inputs.returnValue);
  }

  /** The circuit binds the output hash to the word of the return value. */
  lemma ProvenBindsOutput(h: Hashes, inputs: Public)
    requires HasWitness(h, inputs)
    ensures h.keccak(Word(inputs.returnValue)) == inputs.outputHash
  {
    hide ProgramOk, TraceOk, TapeOk, Word;
  }

  /** Conversely, for a proven input the word of its return value is a payload the consumer takes and stores. */
  lemma HonestPayloadStored(v: Verifier, h: Hashes, proof: Bytes, inputs: Public)
    requires HashesFit(inputs) && HasWitness(h, inputs) && v.Verify(proof, inputs) == None
    ensures Consumed(v, h.keccak, proof, inputs, Word(inputs.returnValue)) == Ok(inputs.returnValue)
  {
    hide Packed, Accepts, Shaped;
    ProvenBindsOutput(h, inputs);
    WordDecodes(inputs.returnValue);
    assert Word(inputs.returnValue)[..32] == Word(inputs.returnValue);
  }

  /** Why a call reverts. A proof the wrapper rejects gets its error whatever the payload is; then the payload hash is
      compared; a payload that matches its hash fails only when it is shorter than a word. */
  lemma FailureReasons(v: Verifier, keccak: Bytes -> Bytes, proof: Bytes, inputs: Public, payload: Bytes,
                       e: VerifyError)
    requires HashesFit(inputs)
    ensures var r := Consumed(v, keccak, proof, inputs, payload);
            var proven, matches := v.Verify(proof, inputs), keccak(payload) == inputs.outputHash;
            (r == Err(Proof(e)) <==> proven == Some(e)) &&
            (r == Err(OutputPayloadMismatch) <==> proven == None && !matches) &&
            (r == Err(Undecodable) <==> proven == None && matches && |payload| < 32) &&
            (v.honk(proof, Packed(inputs)) != Some(true) && inputs.policyHash == v.expectedPolicyHash ==>
               r == Err(Proof(ProofInvalid)))
  {
    hide Packed;
  }
}
