/** The input of the guest: replaying it, and the public inputs the guest commits. */
module GuestInputs {
  import opened Options
  import opened ByteStrings
  import opened OutputWord
  import opened Policy
  import opened PolicyView
  import opened Hosts
  import V = VerifyProof

  /** The width of usize: the guest is a 32-bit machine, the host that predicts it a 64-bit one. */
  datatype Usize = Bits32 | Bits64
  {
    function Limit(): nat { if Bits32? then U32_LIMIT else U64_LIMIT }

    /** A u64 cast to usize keeps the low bits. */
    function Cast(x: nat): nat { x % Limit() }
  }

  /** The program with the hash of its bytecode, the canonical bytes of the input value it runs on (none when the value
      cannot be serialised), the tape with one attestation an entry, and the canonical bytes of the policy, empty when
      there is none. */
  datatype GuestInput = GuestInput(
    program: Program,
    programHash: V.Hash,
    inputValue: Option<Bytes>,
    tape: Tape,
    attestations: seq<Bytes>,
    policyCanonical: Bytes)

  /** The machine and the library functions a replay uses; the last two commit to a tape, and to a tape with the
      attestations of its entries. */
  datatype Backend = Backend(
    utf8: Bytes -> bool,
    sha256: Bytes -> V.Hash,
    keccak: Bytes -> V.Hash,
    tapeHash: Tape -> V.Hash,
    attestedHash: (Tape, seq<Bytes>) -> V.Hash,
    usize: Usize)

  datatype ReplayError =
    | UnparsablePolicy(error: ParseError)
    | OversizedEntry(index: nat, len: nat, cap: nat)
    | Failed(outcome: Outcome)

  /** A successful replay: the run, and the six commitments. */
  datatype Proven = Proven(run: Run, inputs: V.PublicInputs)

  function EntryLength(a: Answer): nat {
    match a case Ok(b) => |b| case Err(m) => |m|
  }

  ghost predicate WithinCap(tape: Tape, cap: nat) { forall i | 0 <= i < |tape| :: EntryLength(tape[i]) <= cap }

  /** The cap the size check compares with, after its cast. */
  function CapOf(view: View, usize: Usize): nat { usize.Cast(view.maxPayloadBytes) }

  function OversizedFrom(tape: Tape, cap: nat, i: nat): (r: Option<ReplayError>)
    requires i <= |tape|
    ensures r.None? <==> forall j | i <= j < |tape| :: EntryLength(tape[j]) <= cap
    decreases |tape| - i
  {
    if i == |tape| then None
    else if EntryLength(tape[i]) > cap then Some(OversizedEntry(i, EntryLength(tape[i]), cap))
    else OversizedFrom(tape, cap, i + 1)
  }

  method CheckTapePayloadSizes(tape: Tape, view: View, usize: Usize) returns (e: Option<ReplayError>)
    ensures e == OversizedFrom(tape, CapOf(view, usize), 0)
  {
    var cap := usize.Cast(view.maxPayloadBytes);
    for i := 0 to |tape|
      invariant OversizedFrom(tape, cap, 0) == OversizedFrom(tape, cap, i)
    {
      var len := EntryLength(tape[i]);
      if len > cap {
        return Some(OversizedEntry(i, len, cap));
      }
    }
    return None;
  }

  /** A value that cannot be serialised is hashed as null. */
  function HashInput(value: Option<Bytes>, sha256: Bytes -> V.Hash): V.Hash {
    match value
    case Some(bytes) => sha256(bytes)
    case None => sha256(Ascii("null"))
  }

  /** The public inputs of a replay that returned a value. */
  function Committed(input: GuestInput, value: I64, policyHash: V.Hash, backend: Backend): V.PublicInputs {
    V.PublicInputs(input.programHash, HashInput(input.inputValue, backend.sha256), backend.tapeHash(input.tape),
                   backend.keccak(Word(value)), backend.attestedHash(input.tape, input.attestations), policyHash)
  }

  function Completed(input: GuestInput, run: Run, policyHash: V.Hash, backend: Backend): Result<Proven, ReplayError> {
    match run.outcome
    case Returned(value) => Ok(Proven(run, Committed(input, value, policyHash, backend)))
    case _ => Err(Failed(run.outcome))
  }

  /** Replay under the policy of the input; its bytes are parsed and hashed, nothing else. No bytes means no policy: the
      tape answers every call and the committed policy hash is zero. */
  function Replayed(input: GuestInput, fuel: nat, backend: Backend): Result<Proven, ReplayError> {
    if input.policyCanonical == [] then Completed(input, TapeRun(input.program, input.tape, fuel), Fill(0, 32), backend)
    else
      match Parse(input.policyCanonical, backend.utf8)
      case Err(e) => Err(UnparsablePolicy(e))
      case Ok(view) =>
        match OversizedFrom(input.tape, CapOf(view, backend.usize), 0)
        case Some(e) => Err(e)
        case None =>
          Completed(input, GuestRun(input.program, view, input.tape, fuel), backend.sha256(input.policyCanonical),
                    backend)
  }

  method ReplayPublicInputs(input: GuestInput, fuel: nat, backend: Backend) returns (r: Result<Proven, ReplayError>)
    ensures r == Replayed(input, fuel, backend)
  {
    hide GuestRun, TapeRun, Parse, OversizedFrom, Word;
    var run, policyHash;
    if input.policyCanonical == [] {
      run := RunTape(input.program, input.tape, fuel);
      policyHash := Fill(0, 32);
    } else {
      var view := ParseView(input.policyCanonical, backend.utf8);
      if view.Err? {
        return Err(UnparsablePolicy(view.error));
      }
      var e := CheckTapePayloadSizes(input.tape, view.value, backend.usize);
      if e.Some? {
        return Err(e.value);
      }
      var state;
      run, state := RunGuest(input.program, view.value, input.tape, fuel);
      policyHash := backend.sha256(input.policyCanonical);
    }
    if !run.outcome.Returned? {
      return Err(Failed(run.outcome));
    }
    return Ok(Proven(run, Committed(input, run.outcome.value, policyHash, backend)));
  }

  // ----- The width of usize -----

  lemma CastIsSmall(x: nat, usize: Usize)
    ensures usize.Cast(x) <= x && usize.Cast(x) < usize.Limit()
  {}

  /** A parsed payload limit is the value of eight bytes. */
  lemma ParsedLimit(buf: Bytes, utf8: Bytes -> bool)
    requires Parse(buf, utf8).Ok?
    ensures Parse(buf, utf8).value.maxPayloadBytes < U64_LIMIT
  {
    RulesLimit(buf, utf8);
  }

  lemma RulesLimit(buf: Bytes, utf8: Bytes -> bool)
    requires ReadRules(buf, 0, utf8).Got?
    ensures ReadRules(buf, 0, utf8).value.maxPayloadBytes < U64_LIMIT
  {
    hide ReadStringList;
    WordLimits();
    var d := ReadStringList(buf, 0, utf8);
    var m := ReadStringList(buf, d.next, utf8);
    var calls := ReadInt(buf, m.next, 8);
    DecodeBound(buf[calls.next..calls.next + 8]);
  }

  /** Below 2^32 the cast loses nothing on either machine. */
  lemma SmallCap(view: View)
    requires view.maxPayloadBytes < U32_LIMIT
    ensures CapOf(view, Bits32) == CapOf(view, Bits64) == view.maxPayloadBytes
  {}

  lemma SameCapSamePrediction(input: GuestInput, fuel: nat, backend: Backend)
    requires input.policyCanonical != [] && Parse(input.policyCanonical, backend.utf8).Ok?
    requires Parse(input.policyCanonical, backend.utf8).value.maxPayloadBytes < U32_LIMIT
    ensures SamePrediction(input, fuel, backend)
  {
    hide GuestRun, TapeRun, Parse, OversizedFrom, CapOf, Word;
    SmallCap(Parse(input.policyCanonical, backend.utf8).value);
  }

  /** The size check alone decides which error a replay under a policy can end in. */
  lemma SizesDecide(input: GuestInput, view: View, fuel: nat, backend: Backend)
    requires input.policyCanonical != [] && Parse(input.policyCanonical, backend.utf8) == Ok(view)
    ensures var r := Replayed(input, fuel, backend);
            match OversizedFrom(input.tape, CapOf(view, backend.usize), 0)
            case Some(e) => r == Err(e)
            case None => r.Err? ==> r.error.Failed?
  {
    hide GuestRun, Parse, Committed, OversizedFrom, CapOf;
  }

  lemma OneEntry(n: nat, cap: nat)
    ensures OversizedFrom([Ok(Fill(0, n))], cap, 0) == if n > cap then Some(OversizedEntry(0, n, cap)) else None
  {}

  lemma WideCap(view: View)
    requires U32_LIMIT <= view.maxPayloadBytes < U64_LIMIT
    ensures CapOf(view, Bits32) < CapOf(view, Bits64)
  {}

  /** From 2^32 on there is an entry that the guest refuses and the host lets through. */
  lemma WideCapDiffers(input: GuestInput, view: View, fuel: nat, backend: Backend, tape: Tape)
    requires input.policyCanonical != [] && Parse(input.policyCanonical, backend.utf8) == Ok(view)
    requires U32_LIMIT <= view.maxPayloadBytes < U64_LIMIT
    requires tape == [Ok(Fill(0, CapOf(view, Bits32) + 1))]
    ensures !SamePrediction(input.(tape := tape), fuel, backend)
  {
    hide Replayed, Parse, OversizedFrom, CapOf, Fill;
    WideCap(view);
    OneEntry(CapOf(view, Bits32) + 1, CapOf(view, Bits32));
    OneEntry(CapOf(view, Bits32) + 1, CapOf(view, Bits64));
    SizesDecide(input.(tape := tape), view, fuel, backend.(usize := Bits32));
    SizesDecide(input.(tape := tape), view, fuel, backend.(usize := Bits64));
  }

  /** The host predicts what the guest does, for every tape, exactly when the payload limit fits 32 bits. */
  lemma PredictionAgrees(input: GuestInput, backend: Backend)
    requires input.policyCanonical != [] && Parse(input.policyCanonical, backend.utf8).Ok?
    ensures Parse(input.policyCanonical, backend.utf8).value.maxPayloadBytes < U32_LIMIT <==>
            forall tape: Tape, fuel: nat :: SamePrediction(input.(tape := tape), fuel, backend)
  {
    hide SamePrediction, Parse, CapOf, Fill;
    var view := Parse(input.policyCanonical, backend.utf8).value;
    ParsedLimit(input.policyCanonical, backend.utf8);
    if view.maxPayloadBytes >= U32_LIMIT {
      var tape: Tape := [Ok(Fill(0, CapOf(view, Bits32) + 1))];
      WideCapDiffers(input, view, 0, backend, tape);
    } else {
      forall tape: Tape, fuel: nat
        ensures SamePrediction(input.(tape := tape), fuel, backend)
      {
        SameCapSamePrediction(input.(tape := tape), fuel, backend);
      }
    }
  }

  ghost predicate SamePrediction(input: GuestInput, fuel: nat, backend: Backend) {
    Replayed(input, fuel, backend.(usize := Bits64)) == Replayed(input, fuel, backend.(usize := Bits32))
  }
}
