# Verification of proveno

proveno turns a Lua run into a proof that an on-chain verifier accepts. A program runs once against live tools under a
policy document and records a tape; a guest or a circuit re-derives the run from that tape; contracts check the proof
and act on the result. This project models the logic that decides whether those pieces fit together, and proves that
they do, or exactly when they do.

`dafny verify dfyconfig.toml` checks the whole project.

- **On-chain arithmetic** (`Field`, `Fermat`, `Polynomials`, `Multilinear`, `Sumcheck`, `SumcheckRounds`, `Gemini`): the
  precompile call inverts, the barycentric extrapolation is exact, an honest sumcheck prover is accepted exactly when no
  challenge is a node, a wrong claim survives only through a round with at most eight bad challenges, and the Gemini
  loop reconstructs every fold.
- **Proof bytes and public inputs** (`ProofLayout`, `ProofSerial`, `PublicInputsLib`): the loader consumes exactly the
  demanded size for every circuit size, buffers and proofs correspond one to one, and packing is invertible.
- **Trace circuit** (`OutputWord`, `Circuit`, `Binding`, `Encoder`, `Machine`, `WitnessBuilder`, `Completeness`): the
  circuit as a checking program and as a predicate, what an accepted witness is bound to, the machine with its frame
  stack and its own table of jumps, the flattening, the packing, and the theorem that they agree exactly within the caps
  and while no caught error strays.
- **Policy** (`ByteStrings`, `Json`, `JsonReader`, `Policy`, `PolicyView`, `PolicyFormat`, `Schemas`): canonical text that
  is JSON and reads back, canonical bytes that are injective and order free, the exact language of the strict parser, and
  what it means to match a schema.
- **Whole runs** (`Hosts`, `Verdicts`, `GuestInputs`, `Commitments`, `Replay`, `Enforcement`): how the lists of a policy decide
  every call, what every replay guarantees and commits, the exact boundary up to which it reproduces the dry run, exactly
  which runs can be replayed at all, and for which programs a violation cannot.
- **Contracts and the standalone verifier** (`Bounty`, `Consumer`, `VerifyProof`): escrow under re-entrancy, the stored
  result, and exact acceptance of the wire format.

Hashes, the JSON parser, the UTF-8 validator, the live tools and the generated verifier are parameters. Collision
freedom is a hypothesis about the particular messages a theorem compares, and soundness of the proof system is the
hypothesis `PublicInputsLib.Sound`. The field modulus is a symbolic constant: theorems assume that it is prime
(`PrimeField`), or that it is the constant in the contract (`Bn254`), only where they need to.

## Where code and documentation disagree

The model follows the code.

- `src/zkvm/guest_input.rs:64-65` says the replay is bit-identical to the dry run. Under a policy that fails as soon as a
  program survives a denied call and makes a permitted one, because the dry run records the refusal on the tape
  (`src/policy/host.rs:47`) and the guest refuses without consuming it (`src/policy/guest.rs:65`). `Replay.ReplayCanDiverge`
  is a concrete case and `Replay.ReplayBoundary` the exact condition.
- `src/policy/guest.rs:9-12` and `src/zkvm/guest_input.rs:73-74` say an execution that violates the policy cannot be
  replayed. A program that catches a refusal and returns is replayed (`Enforcement.RefusedAttemptReplayed`). The promise
  holds exactly for programs that survive no refusal (`Enforcement.EnforcedExactly`), so for every program that aborts on
  one (`Enforcement.StoppingProgramIsEnforced`); `Replay.ReplayEnforcesPolicy` is what every replay keeps.
- `contracts/src/Bounty.sol:60-64` says a bogus proof always reverts with `ProofInvalid`. The claimed flag is looked at first,
  and a wrong policy hash has its own error. `Bounty.BogusProofOnClaimedSlot` is a concrete case and
  `Bounty.BogusProofOutcome` the exact condition of each error.
- `contracts/src/ProvenoConsumer.sol:31-33` says the same of the consumer. There too a wrong policy hash has its own error
  (`Consumer.FailureReasons`).
- `verifier/src/lib.rs:88-91` says structurally invalid bytes give `ProofInvalid`. They give `MalformedInput`
  (`VerifyProof.EmptyProofIsMalformed`, and `VerifyProof.ErrorsExactly` in general).
- `src/policy/host.rs:9-11` lets `pcall` catch a refused tool call. In the trace circuit such a run has no accepted
  witness, because `noir/src/main.nr:135-140` leaves the next pc open for four opcodes and ToolCall is not one of them
  (`Completeness.CaughtErrorRejected`).
- `src/zkvm/guest_input.rs:146` casts the payload cap to `usize`, which has 64 bits on the host and 32 in the guest. The two
  agree exactly for caps below 2^32 (`GuestInputs.PredictionAgrees`).
- `proveno-noir/src/witness.rs:118-133` truncates a long tape without an error; what it cuts, the circuit rejects
  (`Completeness.TapeWitnessFaithful`).

## Model

| member | source | states |
|---|---|---|
| Field.Invert | contracts/src/HonkVerifier.sol:185-210 | for an invertible value, the result of the inversion times the value is one |
| Field.InverseUnique | contracts/src/HonkVerifier.sol:185-210 | there is only one inverse, so the result of the modular exponentiation is this one |
| Field.ProductInvertible | contracts/src/HonkVerifier.sol:185-210 | products of invertible residues are invertible, so a product of nonzero factors never reverts an inversion |
| Fermat.InvertIsModExp | contracts/src/HonkVerifier.sol:185-210 | Fermat's little theorem behind the call: for every nonzero value of a prime field, v^(P - 2) mod P, which is what the precompile returns, is the inverse |
| Field.PrimeModulusIsField | contracts/src/HonkVerifier.sol:171-173 | if the modulus is prime in the textbook sense, every nonzero residue has an inverse |
| Sumcheck.Bn254Constants | contracts/src/HonkVerifier.sol:2069-2079 | each of the nine hard-coded denominators is the product of i - j over the other nodes j, modulo the constant in the contract |
| Sumcheck.Bn254ScalarField | contracts/src/HonkVerifier.sol:171-173 | primality of that constant is all the extrapolation theorems assume |
| Sumcheck.DenominatorInvertible | contracts/src/HonkVerifier.sol:2091-2093 | a denominator is zero exactly at its own node and invertible everywhere else |
| Sumcheck.ComputeNextTargetSum | contracts/src/HonkVerifier.sol:2064-2101 | the three loops revert exactly on the challenges 0 to 8, and otherwise compute the barycentric value NextTarget |
| Polynomials.Lagrange | contracts/src/HonkVerifier.sol:2081-2100 | interpolation with the denominators multiplied out: n + 1 values of a polynomial of degree at most n give back its value everywhere, for every n |
| Sumcheck.NextTargetExtrapolates | contracts/src/HonkVerifier.sol:2064-2101 | fed f(0), ..., f(8) of any polynomial of degree at most eight, the barycentric value is f(u), for every u past the nodes |
| Sumcheck.RootBound | contracts/src/HonkVerifier.sol:2064-2101 | over this field a polynomial that is not zero everywhere has at most its degree many roots |
| Sumcheck.AgreementBound | contracts/src/HonkVerifier.sol:2064-2101 | two different round univariates extrapolate to the same value at no more than eight challenges |
| SumcheckRounds.GenerateGateChallenges | contracts/src/HonkVerifier.sol:638-649 | the gate challenges are the repeated squares of the first |
| SumcheckRounds.VerifySumcheck | contracts/src/HonkVerifier.sol:2023-2061 | the round loop and the last check decide as Decision says, with the error of the first round that reverts |
| SumcheckRounds.RevertsExactly | contracts/src/HonkVerifier.sol:2028-2039 | the rounds revert exactly when a round that is reached has a wrong sum, which is looked at first, or a challenge from 0 to 8, and with the error of that |
| SumcheckRounds.RevertStays | contracts/src/HonkVerifier.sol:2028-2039 | once a round reverts, no later round changes the outcome |
| SumcheckRounds.PowPartialIsHypercubeSum | contracts/src/HonkVerifier.sol:2037-2038 | the running power product is the sum over k < 2^n of g^k * eq(k; u) |
| SumcheckRounds.RowDisablingIsTail | contracts/src/HonkVerifier.sol:2052-2059 | one minus the row-disabling product is the sum of eq(k; u) over the rows k >= 4, for every logN; with two rows there are none |
| SumcheckRounds.HonestProverAccepted | contracts/src/HonkVerifier.sol:2028-2039 | for every polynomial of degree at most eight in each variable, honest univariates for the true hypercube sum pass every round exactly when no challenge is a node, and the last target is the polynomial at the challenge point |
| SumcheckRounds.WrongClaimNeedsEscape | contracts/src/HonkVerifier.sol:2028-2039 | a claim other than the true sum that ends at the true value has a round whose univariate is wrong but agrees with the honest one at the challenge |
| SumcheckRounds.DecisionExactly | contracts/src/HonkVerifier.sol:2023-2061 | when the rounds end at a target, the verifier accepts if and only if the target is relation(sum of g^k * eq(k; u) over the hypercube) times the sum of eq(k; u) over the rows k >= 4, plus the Libra term |
| SumcheckRounds.HonestDecision | contracts/src/HonkVerifier.sol:2023-2061 | the whole check: honest univariates for the claim, and a relation value in those sums that is the polynomial at the challenge point, give true unless a challenge is a node |
| SumcheckRounds.WrongDecisionNeedsEscape | contracts/src/HonkVerifier.sol:2023-2061 | the whole check: true for a claim other than the hypercube sum, with such a relation value, needs an escape in some round |
| SumcheckRounds.FewEscapes | contracts/src/HonkVerifier.sol:2028-2039 | whatever was sent, each round has at most eight challenges at which that can happen |
| Gemini.ComputeSquares | contracts/src/HonkVerifier.sol:1629-1636 | the powers are the repeated squares of r |
| Gemini.ComputeFoldPosEvaluations | contracts/src/HonkVerifier.sol:1606-1627 | the downward loop computes PositiveValues, and reverts at the first zero denominator it meets |
| Gemini.FoldIdentity | contracts/src/HonkVerifier.sol:1618-1621 | for every vector of even length, the value at -x and the next fold at x^2 determine the value at x by the formula of the contract |
| Gemini.LastFold | contracts/src/HonkVerifier.sol:1606-1613 | folding n times leaves the multilinear evaluation at u |
| Gemini.FoldReconstructionExact | contracts/src/HonkVerifier.sol:1606-1636 | on honest inputs the loop returns A_l(r^(2^l)) for every l, and it returns at all exactly when no denominator is zero |
| ProofLayout.CalculateProofSize | contracts/src/HonkVerifier.sol:2434-2456 | the size demanded is 32 * (82 + 12 logN) bytes |
| ProofLayout.LimbsInField | contracts/src/HonkVerifier.sol:769-772 | every accepted limb is a field element, so the conversion behind the range check never reverts |
| ProofLayout.FailsExactly | contracts/src/HonkVerifier.sol:768-849 | which word a refused proof is refused for, and with which error, by position: the first limb of 136 or 120 bits, coordinate or scalar that is too large for its place |
| ProofLayout.ParsedSizes | contracts/src/HonkVerifier.sol:764-849 | every array of the loaded struct has its declared length, for every circuit size |
| ProofLayout.LimbsAre256Bits | contracts/src/HonkVerifier.sol:1684-1698 | two accepted limbs make a number of 256 bits, lo + 2^136 * hi |
| ProofLayout.NextPoint | contracts/src/HonkVerifier.sol:1648-1658 | a point is read from two words in range, or the first word out of range is reported |
| ProofLayout.NextScalar | contracts/src/HonkVerifier.sol:1643-1645 | a scalar is read from one word in range, or that word is reported |
| ProofLayout.LoadProof | contracts/src/HonkVerifier.sol:764-849 | on a buffer of the demanded size, for every logN from 1 to 25, all slices are in bounds, the boundary ends at the end, and the loaded struct is the buffer read at absolute positions; it fails with the error of the first word out of range |
| ProofLayout.CheckAndLoad | contracts/src/HonkVerifier.sol:1951-1960 | any other size is refused before loading; of the right size exactly the buffers with every word in range load |
| ProofSerial.WordsBack | contracts/src/HonkVerifier.sol:764-849 | parsing loses no word: writing the fields back in wire order gives the words parsed |
| ProofSerial.LoadedProofDeterminesBytes | contracts/src/HonkVerifier.sol:764-849 | no two buffers of the demanded size load to the same proof |
| ProofSerial.SerialisedProofLoads | contracts/src/HonkVerifier.sol:764-849 | every proof struct with its words in range is loaded unchanged from the bytes written for it |
| PublicInputsLib.CheckInputs | contracts/src/HonkVerifier.sol:1962-1966 | the count check against the verification key, and the range check of each input that the transcript makes, decide InputsAccepted, the wrong count being reported before any word is looked at |
| PublicInputsLib.PackedAccepted | contracts/src/HonkVerifier.sol:566-573 | packed inputs always pass both: their count is 202 - 8 and every word is below the field modulus |
| PublicInputsLib.WriteBytes32AsBytes | contracts/src/Types.sol:69-77 | the 32 bytes of a hash go to 32 consecutive slots, big-endian, each slot written once |
| PublicInputsLib.Pack | contracts/src/Types.sol:41-65 | pack writes each of its 194 slots exactly once and the result is the layout of the circuit's public inputs |
| PublicInputsLib.Slots | contracts/src/Types.sol:27-35 | where each of the eight fields stands in the packed array |
| PublicInputsLib.PackRoundTrip | contracts/src/Types.sol:41-77 | packing loses nothing: the packed array reads back as the struct |
| PublicInputsLib.PackInjective | contracts/src/Types.sol:41-77 | different public inputs pack to different arrays |
| OutputWord.AbiEncodeInt256 | src/zkvm/commitment.rs:127-131 | the Rust encoder writes the sign fill and the eight bytes of the value |
| OutputWord.CircuitPayload | noir/src/main.nr:31-44 | the divide-by-256 loop of the circuit writes the same 32 bytes |
| OutputWord.WordIsAbiInt256 | src/zkvm/commitment.rs:121-131 | for every i64 those bytes are the int256 of the Solidity ABI: the big-endian two's complement of the value in 32 bytes |
| OutputWord.WordDecodes | contracts/src/ProvenoConsumer.sol:43-43 | decoding the word returns the value |
| OutputWord.EveryWordDecodes | contracts/src/ProvenoConsumer.sol:43-43 | every word of 32 bytes decodes to the one int256 that encodes to it, over the whole range of the type |
| Consumer.ProvenoConsumer.ConsumeResult | contracts/src/ProvenoConsumer.sol:34-48 | verify first, then the payload hash, then decode; only a full success writes lastResult and logs the event |
| Consumer.ProvenBindsOutput | noir/src/main.nr:212-216 | a proven input has the hash of its return value's word as output hash |
| Consumer.StoredResultIsProven | contracts/src/ProvenoConsumer.sol:34-48 | with a sound verifier and no keccak collision on the two payloads, the stored result is the proven return value under the expected policy, and the payload is its word |
| Consumer.HonestPayloadStored | contracts/src/ProvenoConsumer.sol:24-29 | conversely the word of a proven return value is accepted and stored |
| Consumer.FailureReasons | contracts/src/ProvenoConsumer.sol:31-43 | which of the three failures a call ends in, exactly: a rejected proof first, whatever the payload, then a payload that does not hash to the commitment, then one shorter than a word |
| Bounty.Board.PostBounty | contracts/src/Bounty.sol:45-58 | posting takes the ether and the next slot and returns its id, or reverts without value |
| Bounty.Board.Claim | contracts/src/Bounty.sol:65-83 | the order of checks, the writes before the transfer, the outside code that runs during it, and the full rollback when it fails |
| Bounty.Board.Act | contracts/src/Bounty.sol:45-83 | any tree of outside actions against the contract, with nested frames rolled back, moves the state as Step says |
| Bounty.EscrowConserved | contracts/src/Bounty.sol:45-83 | through any nesting of posts and claims and any rollback, at the end and at every point where outside code can run: the balance is the unclaimed rewards plus forced ether, it is also what came in less what went out, and each posted bounty has been paid at most once, its reward, to its recorded solver; and the posts in the event log are the posted slots, in order |
| Bounty.DeployedEscrow | contracts/src/Bounty.sol:34-83 | the same from the constructor on: in every state reachable by any actions, and every state outside code can see on the way |
| Bounty.FundsSuffice | contracts/src/Bounty.sol:78-82 | an unclaimed bounty never lacks its funds |
| Bounty.ClaimSucceeds | contracts/src/Bounty.sol:65-83 | a claim of a posted bounty goes through exactly when it is unclaimed, the proof and the program match and the receiver takes the ether, whatever the receiver's code does meanwhile; then the slot is the sender's, otherwise nothing changes |
| Bounty.RevertsLeaveState | contracts/src/Bounty.sol:45-83 | nothing a reverting call or frame did stays |
| Bounty.RevertReasons | contracts/src/Bounty.sol:48-82 | which of the four errors a claim reverts with, exactly, in every reachable state; a post fails only without value |
| Bounty.ClaimsAreFinal | contracts/src/Bounty.sol:75-76 | no later action changes a claimed slot or the reward of a posted one |
| Bounty.UnpostedSlot | contracts/src/Bounty.sol:65-82 | a slot at or above nextId can be claimed, exactly with a valid proof of the zero program hash and a receiver that accepts, whatever the receiver's code does; the claim moves no ether of its own |
| Bounty.PostOverwrites | contracts/src/Bounty.sol:45-58 | and in whatever later state that slot is posted, the post leaves it unclaimed, funded and with its own program |
| Bounty.BogusProofOutcome | contracts/src/Bounty.sol:60-71 | for every proof the generated verifier does not accept, exactly when claim reverts with ProofInvalid, with PolicyHashMismatch and with AlreadyClaimed; the state never changes |
| Bounty.BogusProofOnClaimedSlot | contracts/src/Bounty.sol:60-71 | a posted and claimed slot for which a rejected proof gets AlreadyClaimed |
| VerifyProof.DigestSha256 | src/zkvm/commitment.rs:90-99 | the digest is over the six commitments in declaration order |
| VerifyProof.DigestBinds | src/zkvm/commitment.rs:90-99 | unless SHA-256 collides on the two preimages, equal digests mean equal commitments, field by field |
| VerifyProof.BuildTestProof | verifier/src/lib.rs:180-195 | the writer appends magic, version, six hashes, length, blob and the hash of all that |
| VerifyProof.Check | verifier/src/lib.rs:92-173 | the parser with its running offset decides as Verdict does by absolute positions, error cases in order, and never reads out of bounds |
| VerifyProof.AcceptedExactly | verifier/src/lib.rs:92-173 | accepted if and only if the policy hash is the expected one and the buffer begins with the bundle of these public inputs for some blob below 2^32 bytes |
| VerifyProof.MismatchIsGenuine | verifier/src/lib.rs:160-166 | a policy mismatch is reported exactly for buffers that are otherwise genuine |
| VerifyProof.ErrorsExactly | verifier/src/lib.rs:88-173 | MalformedInput exactly for structural errors, and ProofInvalid exactly for well-structured buffers that do not begin with a bundle of these inputs |
| VerifyProof.EmptyProofIsMalformed | verifier/src/lib.rs:88-110 | an empty buffer is structurally invalid and does not get ProofInvalid |
| VerifyProof.WireLayout | verifier/src/lib.rs:3-17 | every byte of a bundle by position, with magic, version, byte order of the length, and the hash over everything before |
| VerifyProof.StructuralErrors | verifier/src/lib.rs:97-143 | which structural error a buffer has, by positions and constants |
| VerifyProof.BlobDetermined | verifier/src/lib.rs:134-143 | a buffer begins with the bundle of at most one set of inputs and one blob |
| VerifyProof.TrailingBytesIgnored | verifier/src/lib.rs:137-147 | appending bytes to an accepted buffer changes nothing |
| Circuit.BeBytes32ToField | noir/src/main.nr:16-22 | the accumulation loop reads a big-endian array as a field element |
| Circuit.HashInput | noir/src/main.nr:56-60 | opcodes and operands interleaved, negative operands through u64 |
| Circuit.AssertBytecode | noir/src/main.nr:46-64 | the bytecode assertion is ProgramOk |
| Circuit.CheckStep | noir/src/main.nr:101-152 | the branches of one live step decide StepOk, with out-of-range reads and an overflowing jump target failing |
| Circuit.HashResponses | noir/src/main.nr:174-184 | the response leaves, or the overflow of a length |
| Circuit.BindAttestations | noir/src/main.nr:204-208 | each response leaf bound to its attestation leaf |
| Circuit.CheckTape | noir/src/main.nr:173-210 | the two tape commitments together are TapeOk |
| Circuit.Verify | noir/src/main.nr:66-217 | every assertion of main holds exactly when Accepts holds |
| Circuit.AcceptedNextPc | noir/src/main.nr:101-145 | for every accepted witness and live step: fetched from the bytecode, linked to the next step, and the next pc opcode by opcode, Jmp always jumping, JmpIf and Or exactly on a nonzero stack top, JmpIfNot, And and the iterators exactly on zero, everything else but the four open opcodes going on |
| Circuit.OpenNextPc | noir/src/main.nr:135-140 | behind Ret, Call, Closure and PCall at the end of a trace any next pc is accepted |
| Circuit.TraceDetermined | noir/src/main.nr:95-145 | in accepted traces the bytecode, the step count, the stack tops and the next pcs of the four unconstrained opcodes fix every live pc, opcode and operand |
| Circuit.UnusedSlotsIrrelevant | noir/src/main.nr:95-210 | rewriting trace slots past the live steps, and tape slots past the calls with in-range lengths, never changes acceptance |
| Binding.InterleaveAt | noir/src/main.nr:56-60 | opcode i stands at place 2 * i of the program message, its operand behind it |
| Binding.EntryMessageIs | noir/src/main.nr:173-184 | the message of a tape entry is tag, length and that many bytes |
| Binding.AcceptedRun | noir/src/main.nr:87-217 | an accepted trace starts at the entry, fits the arrays, ends a final Ret with the public return value, has as many ToolCall steps as the tape has entries, and commits the ABI word of that value |
| Binding.PublicInputsFixWitness | noir/src/main.nr:46-210 | two accepted witnesses for the same public inputs run the same program over the same tape, with tags, lengths, bytes and attestations, unless the hash collides on what they hash |
| Encoder.CountInstructions | src/noir/encoder.rs:26-29 | the count is the length of the flat program |
| Encoder.EncodeProgram | src/noir/encoder.rs:24-59 | the nested loops write the flat program padded with zeros and the start of each prototype, or refuse a program over 512 instructions |
| Encoder.FlatAt | src/noir/encoder.rs:36-43 | instruction k of prototype p stands at the prototype's base plus k |
| Encoder.EncodedSlots | src/noir/encoder.rs:24-59 | every instruction of every prototype stands behind its prototype's offset, the rest is zero, and more than 512 instructions are refused with their number |
| Machine.ReturnsBehindCall | docs/noir-proving-pipeline-plan.md:189-193 | a call enters its callee at the first instruction, and when the run comes back to that depth, by returning or by a caught error, it goes on right behind the call with the frames below unchanged |
| Machine.StepIsFlat | docs/noir-proving-pipeline-plan.md:97-106 | a step, seen from the flat program, goes where its instruction goes, in the machine's own table of jumps, exactly when it does not stray: relative jumps survive concatenation, and an error caught by a protected call breaks the rule except from an open opcode or a jump to the very place |
| Machine.TraceFacts | docs/noir-proving-pipeline-plan.md:189-205 | every complete run, through calls, returns and caught errors, gives a trace of instructions of the flat program that hand on their pcs, start at the entry and end in the Ret that empties the stack; all steps go by that table exactly when the run does not stray |
| Machine.WithoutFailures | docs/noir-proving-pipeline-plan.md:189-205 | a run in which no instruction fails does not stray, so for it the trace theorems hold without that condition |
| Machine.FailureStrays | docs/noir-proving-pipeline-plan.md:189-205 | a complete run in which a tool call, or any instruction but a taken jump or one of the four open opcodes, fails and is caught does stray |
| Machine.CaughtToolError | docs/noir-proving-pipeline-plan.md:189-205 | a concrete program and complete run that catches the error of a tool call |
| WitnessBuilder.CopyColumn | proveno-noir/src/witness.rs:103-147 | copying entry by entry into a zeroed array, as far as both reach |
| WitnessBuilder.BuildWitness | proveno-noir/src/witness.rs:71-155 | the witness is the trace and the cut tape in padded arrays, with the commitments of the whole tape, or TraceTooLong |
| WitnessBuilder.TapeSlot | proveno-noir/src/witness.rs:116-147 | slot i of the tape arrays by its contents: tag 0 or 1, length, bytes, zeros behind them, and the attestation leaf |
| WitnessBuilder.FullLeafIs | proveno-noir/src/witness.rs:108-147 | the leaf of an entry hashes its tag, its length and all its bytes |
| WitnessBuilder.PublicOfWitness | proveno-noir/src/witness.rs:71-155 | a trace over 2048 steps is refused with its length; otherwise the public inputs one by one, each from its own source |
| Completeness.CastKeepsTarget | noir/src/main.nr:106-139 | inside a program of at most 512 instructions the circuit's u32 pc rule is the machine's table of jumps |
| Completeness.FieldBytesRoundTrip | noir/src/main.nr:13-22 | a field element written as 32 bytes by the builder is read back as itself by the circuit |
| Completeness.KeptIsWhole | proveno-noir/src/witness.rs:118-130 | the circuit hashes the whole entry exactly when it has at most 1024 bytes |
| Completeness.AttestationCheck | noir/src/main.nr:204-210 | within the caps the provenance commitment recomputed in the circuit is that of the whole tape |
| Completeness.TapeWitnessFaithful | proveno-noir/src/witness.rs:116-147 | within 16 entries of 1024 bytes the tape checks pass; and unless the hash collides on the cut tape, they pass only then |
| Completeness.RunTraceOk | noir/src/main.nr:95-159 | the trace of a complete run, flattened and packed, satisfies all trace assertions exactly when its steps obey the pc rule |
| Completeness.CircuitComplete | noir/src/main.nr:66-217 | machine, encoder, witness builder and circuit agree: the witness of a complete run is accepted when the tape has one entry a tool call and fits and no error strays; a straying run is never accepted, and, unless the hash collides on the cut tape, nor is a tape that does not fit or match |
| Completeness.CaughtErrorRejected | noir/src/main.nr:101-145 | the circuit rejects the witness of every complete run that catches the error of a tool call, whatever the tape |
| Completeness.Bn254TapeFaithful | proveno-noir/src/witness.rs:116-147 | the tape theorem for the modulus in the contract |
| Completeness.Bn254CircuitComplete | noir/src/main.nr:66-217 | the circuit theorem for the modulus in the contract |
| Json.PrintUnambiguous | src/policy/mod.rs:298-325 | canonical text followed by anything a value can be followed by determines the value and the rest |
| JsonReader.TextRead | src/policy/mod.rs:304-304 | a quoted string, read by the escapes of section 7 of RFC 8259, is the string |
| JsonReader.PrintReads | src/policy/mod.rs:298-325 | the canonical text of every value is JSON text by RFC 8259, and reads back as the same value, objects being key maps, whatever follows it |
| JsonReader.CanonicalTextReads | src/policy/mod.rs:292-325 | the canonical text as a whole is one JSON value, with nothing behind it |
| Json.CanonicalTextIsIdentity | src/policy/mod.rs:298-325 | two JSON values print to the same bytes exactly when they are equal with objects read as key maps, at any depth |
| Json.PrintIgnoresMemberOrder | src/policy/mod.rs:309-311 | any iteration order of an object gives the same text |
| Json.CanonicalTextNotEmpty | src/policy/mod.rs:171-175 | canonical text is never empty, which tells an absent schema from every present one |
| ByteStrings.LexLeExactly | src/policy/mod.rs:138-150 | the sort order is that of the first differing byte, and a prefix comes first |
| ByteStrings.SortOrderFree | src/policy/mod.rs:137-149 | sorting forgets the order of its input, for any key whose equality decides entries |
| Policy.DomainOfUrl | src/policy/canonical.rs:39-49 | a URL of scheme, host, optional port and optional path has that host as domain |
| Policy.WriteStringList | src/policy/mod.rs:137-145 | a sorted list is written as a count and length-prefixed strings |
| Policy.WriteSchemaMap | src/policy/mod.rs:179-191 | the schema map is written sorted by domain |
| Policy.CanonicalBytes | src/policy/mod.rs:134-194 | the seven sections in order |
| Policy.CanonicalInjective | src/policy/mod.rs:134-194 | equal bytes mean equal multisets of domains and methods, equal limits and TLS value, equal output schema with none told from some, and equal schema map |
| Policy.CanonicalOrderFree | src/policy/mod.rs:131-194 | permuting the lists or the map iteration changes no byte |
| Policy.CanonicalIsIdentity | src/policy/mod.rs:134-194 | both directions: the bytes are equal exactly when the policies are equivalent |
| PolicyView.Reader.Take | src/policy/canonical.rs:119-136 | take advances by n or reports the overrun and stays |
| PolicyView.Reader.StringList | src/policy/canonical.rs:164-174 | the list loop reads count strings from the current position, with the first error it meets |
| PolicyView.ParseSchemas | src/policy/canonical.rs:204-211 | sections 6 and 7 are walked for their lengths only |
| PolicyView.ParseView | src/policy/canonical.rs:190-226 | the strict parser, errors included |
| PolicyFormat.AcceptedExactly | src/policy/canonical.rs:185-226 | a buffer parses to a view if and only if it is the seven sections with that view, any schema bytes and any pairs, every listed text being UTF-8 |
| PolicyFormat.ErrorPointsAt | src/policy/canonical.rs:119-217 | what each parse error points at: an integer that ends behind the buffer, a length that promises too much, a text that is not UTF-8, a TLS byte above two, an accepted buffer in front of trailing bytes |
| PolicyFormat.SampleBytes | src/policy/mod.rs:134-194 | one document with every section in use, byte by byte |
| PolicyView.AcceptedBuffersPrefixFree | src/policy/canonical.rs:185-226 | over all byte strings, no accepted buffer is a proper prefix of another |
| PolicyView.ExtensionRejected | src/policy/canonical.rs:213-217 | an accepted buffer with more bytes behind it is refused with exactly their number |
| PolicyView.PolicyRoundTrip | src/policy/canonical.rs:185-226 | parsing the canonical bytes gives the sorted lists, the exact limits and the TLS value |
| PolicyView.SameVerdict | src/policy/canonical.rs:228-251 | the parsed view and the policy give the same verdict, message included, for every tool and URL |
| PolicyView.ParsedViewEnforcesPolicy | src/policy/canonical.rs:9-11 | the document that is hashed is the document that is enforced |
| Verdicts.DomainExactly | src/policy/canonical.rs:39-49 | for every URL, the domain that is looked up is the host the URL names: what stands behind the first :// through the next slash or colon |
| Verdicts.UrlNamesHost | src/policy/canonical.rs:39-49 | a URL of scheme, host, optional port and optional path names that host and no other |
| Verdicts.NamesInBytes | src/policy/canonical.rs:51-54 | the two tools the rules are about, byte by byte |
| Verdicts.ListsDecide | src/policy/mod.rs:204-227 | a call is refused exactly when its method, or its host, is not in a list that is not empty; the method is looked at first, and the text names it or the host |
| Schemas.MatchesExactly | src/policy/mod.rs:260-287 | a response matches a schema if and only if at every path the schema reaches the value has the schema's kind, null standing for any, and every key it names is there |
| Schemas.CoveringMatches | src/policy/mod.rs:255-287 | replacing values by others of their kind and adding keys keeps a match, at any depth |
| Schemas.ViolationBreaks | src/policy/mod.rs:255-287 | another kind, or a missing key, at a single place breaks the match |
| Schemas.ExtraKeyMatches | src/policy/mod.rs:258-258 | one more key never breaks a match |
| Hosts.SchemaMatchesSame | src/policy/mod.rs:260-287 | the schema check sees values, not the order in which objects list their keys |
| Hosts.OraclePolicyHost.CallTool | src/policy/host.rs:38-56 | the host wrapper: non-HTTP calls pass, denied calls never reach the live host, responses are checked against the schema |
| Hosts.PolicyEnforcingHost.CallTool | src/policy/guest.rs:49-69 | the guest wrapper: every attempt is counted first, then the budget, the rules, and the tape |
| Hosts.DryRunWithPolicy | proveno-witness/src/prover.rs:61-89 | the dry run of a program under the policy, whose answers are the tape |
| Hosts.RunGuest | src/policy/guest.rs:49-69 | the guest's run of a program, and the counters the wrapper ends with |
| GuestInputs.CheckTapePayloadSizes | src/zkvm/guest_input.rs:145-160 | the first entry over the cap is reported, with index, length and cap, where the cap is cast to the usize of the machine |
| GuestInputs.ReplayPublicInputs | src/zkvm/guest_input.rs:88-120 | replay with and without a policy, its errors in order, and the six commitments of a run that returned |
| GuestInputs.PredictionAgrees | src/zkvm/guest_input.rs:145-160 | a 64-bit host and a 32-bit guest replay every tape alike if and only if max_payload_bytes_per_call is below 2^32 |
| Commitments.ReplayCommits | src/zkvm/guest_input.rs:88-120 | every successful replay returned a value and commits, field by field, the program, the input or null, the tape, the ABI word of that value, the attestations, and the policy bytes or zero |
| Commitments.PublicInputsFix | src/zkvm/guest_input.rs:113-119 | two successful replays with the same public inputs had the same input, tape, attestations and policy and returned the same value, unless a hash collides on what they commit |
| Commitments.PublicInputsFixRun | src/zkvm/guest_input.rs:88-120 | and for one program the same run, call by call and answer by answer |
| Commitments.OversizedExactly | src/zkvm/guest_input.rs:145-160 | a replay is refused for size exactly when an entry, response or error text, is longer than the cap, and then for the first, with its length |
| Verdicts.ReplayFollowsLists | src/policy/guest.rs:49-69 | every successful replay of a policy document answers each call by its lists alone: past the budget, refused for its method, refused for its host, or the next entry of the tape |
| Verdicts.DryRunFollowsLists | src/policy/host.rs:38-56 | every answer of a dry run, and so every tape entry, from the lists, the live host and the registered schemas, place by place, with the text of each refusal |
| Verdicts.DecimalDigits | src/policy/guest.rs:52-57 | the budget in the refusal is written in decimal |
| Replay.StateClosedForm | src/policy/guest.rs:49-69 | after any sequence of calls the attempts are their number and the tape cursor is the number that reached the tape |
| Replay.ForwardedPermitted | src/policy/guest.rs:52-68 | at most max_tool_calls calls reach the tape and the policy permits every one |
| Replay.AnswerClosedForm | src/policy/guest.rs:49-69 | the guest's answer to any call after any others |
| Replay.ReplayEnforcesPolicy | src/zkvm/guest_input.rs:88-120 | a successful replay under a policy, whoever recorded the tape: entries within the cap, every call answered by the rules, attempts past the budget refused, every attempt counted in the final state, the final cursor that of the forwarded calls, and the committed hash that of the bytes enforced |
| Replay.CursorLagsByDenials | src/policy/guest.rs:49-69 | within the budget and the tape, the cursor of the guest is the number of calls minus the denials so far |
| Replay.AgreementThroughFirstDenial | src/policy/host.rs:38-56 | guest and dry run agree call by call through the first denied call, message included; schema rejections do not break this |
| Replay.AllAgree | src/zkvm/guest_input.rs:64-65 | within the budget and with no permitted call after a denied one, the replay is the dry run, whatever the live host answers |
| Replay.ReplayBoundary | src/zkvm/guest_input.rs:64-65 | the replay reproduces the dry run if and only if the calls are within the budget and no permitted call follows a denied one |
| Replay.DryRunIsProvable | src/zkvm/guest_input.rs:88-120 | end to end from the policy document, with the payload cap as the machine reads it: exactly which dry runs replay to the same run and commitments |
| Replay.UnpolicedReplayIsExact | src/zkvm/guest_input.rs:91-96 | without a policy around the tape the replay is always the dry run |
| Replay.ReplayCanDiverge | src/zkvm/guest_input.rs:64-65 | a concrete program and policy for which the dry run returns 1 and the replay of its own tape returns 0 |
| Enforcement.ReplayableExactly | src/zkvm/guest_input.rs:88-120 | for every run: some tape replays to it under the policy if and only if it is a history of the program in which refused attempts get their refusals and the other answers fit the cap until the tape ends |
| Enforcement.EnforcedExactly | src/policy/guest.rs:9-12 | an execution with a refused attempt cannot be replayed, from any tape, if and only if the program has no such history, that is, never survives a refusal |
| Enforcement.StoppingProgramIsEnforced | src/policy/guest.rs:9-12 | for a program that aborts on refusals the promise holds: every successful replay, under any policy bytes and from any tape, stayed within the budget and made permitted calls only |
| Enforcement.RefusedAttemptReplayed | src/zkvm/guest_input.rs:73-74 | a program, a policy and every tape within the cap for which the replay succeeds although an attempt was refused |
| Enforcement.UnreadEntries | src/policy/guest.rs:49-69 | a replay never depends on tape entries past the calls it forwarded |
| Enforcement.UnreadEntriesCommitted | src/zkvm/guest_input.rs:88-120 | yet they are committed: exchanging them changes tool_responses_hash and nothing else |

## Left out

- SHA-256, keccak256 and Poseidon2: functions of their input. `Poseidon2::hash(v, n)` is taken to depend on the first n entries of v only, whatever the length of v.
- Elliptic-curve operations, pairings, inline assembly, `batchMul`, the verification-key points and `convertPairingPointsToG1`: foreign calls and constants.
- The relation accumulators and the Fiat-Shamir transcript: the sumcheck takes the accumulated relation as a function of the power product, and challenges as inputs. `computePublicInputDelta`, the Libra consistency check and the batching of Shplemini are not modelled.
- Field.Invert: defined as the unique inverse; `Fermat.InvertIsModExp` equates it with the precompile call. That the constant in the contract is prime is a hypothesis.
- SumcheckRounds.GenerateGateChallenges: the first challenge comes from the transcript and is an argument here.
- SumcheckRounds.VerifySumcheck: the accumulated relation is a function parameter of the power product.
- Sumcheck.RootBound: soundness of sumcheck is stated by counting bad challenges, not as a probability.
- The Lua VM, compiler, `ToolRegistry`, `TapeHost` and `OracleTape` live outside this source tree. The model uses next-entry replay, one tape entry a recorded call with the same message, and the two-level commitment of `noir/src/main.nr:161-165`.
- Machine.TraceFacts: the callee of each call, and which instructions fail, are inputs and not derived from Lua semantics. An error goes to the innermost frame that waits behind a PCall; the failing instruction is traced like any other, with the pc of the next step as its next pc (`docs/noir-proving-pipeline-plan.md:161-170`). A run that ends in an uncaught error has no trace.
- Machine.StepIsFlat: operands are taken to come from instruction fields of at most sixteen bits, so that sums stay within i64.
- Completeness.CircuitComplete: that the stored program hash is the one the circuit recomputes, and that the returned integer is the last stack top, are hypotheses about the compiler and the VM.
- WitnessBuilder.CopyColumn: the trace loop of the builder, which fills five arrays at once, is modelled as one pass an array.
- Hosts.OraclePolicyHost.CallTool: a response that cannot be serialised is not modelled.
- Hosts.DryRunWithPolicy: the run and the tape are modelled; the transcript, attestations and public inputs that the result also carries are not.
- Hosts.PolicyEnforcingHost.CallTool: the attempt counter is unbounded, where the source uses u64.
- Replay.ReplayBoundary: that the runs differ past the boundary assumes a live host that does not answer with the refusal texts of the policy layer itself (`Genuine`); that they agree within it (`Replay.AllAgree`) assumes nothing.
- GuestInputs.ReplayPublicInputs: the program hash is part of the input, and the two tape commitments are functions of the tape and its attestations.
- Verdicts.ReplayFollowsLists: the text of an exhausted tape belongs to `TapeHost`, outside this source tree.
- GuestInputs.CheckTapePayloadSizes: the width of usize is a parameter here and nowhere else; lengths and tape positions are unbounded.
- Policy.CanonicalBytes: the standard library sort is a function, and the hash map is the list of its entries in some iteration order with distinct keys.
- Json.CanonicalTextIsIdentity: number tokens are opaque; formatting of floating-point numbers is the library's.
- JsonReader.PrintReads: a number is a run of number characters, and escapes of code points above 127 are not read; the canonical text has none.
- Policy.DomainOfUrl: states it for URLs in the four usual parts; `Verdicts.DomainExactly` says for every URL, user information and bracketed hosts included, what is taken for the host.
- PolicyView.PolicyRoundTrip: every string of a policy is assumed to satisfy the UTF-8 validator, as Rust strings do.
- Bounty.Board.Claim: gas, and the width of 256 bits of balances and ids, are not modelled; an out-of-gas frame is a reverting frame.
- ProofLayout.LoadProof: memory is not modelled; the fixed arrays are sequences of their declared length.
- Command-line drivers, process spawning, HTTP, TOML and JSON artifacts, the OpenVM guest and host programs: input and output.
- Named policy profiles, hex printing, error display and copying constructors: constants and conversions that no theorem here depends on.
