/** What the public inputs of a successful replay are, and what they fix: the tape, the policy, the input and the value
    returned, and with the program the whole run. */
module Commitments {
  import opened Options
  import opened ByteStrings
  import opened OutputWord
  import opened Policy
  import opened PolicyView
  import opened Hosts
  import opened GuestInputs
  import V = VerifyProof

  // ----- What is committed -----

  /** Every successful replay returned a value, and commits the program, the input, the tape, the ABI word of that
      value, the attestations, and the bytes of the policy or, without one, zero. */
  lemma ReplayCommits(input: GuestInput, fuel: nat, backend: Backend)
    requires Replayed(input, fuel, backend).Ok?
    ensures Replayed(input, fuel, backend).value.run.outcome.Returned?
    ensures var proven := Replayed(input, fuel, backend).value;
            var value := proven.run.outcome.value;
            0 <= Pow256(32) + value &&
            proven.inputs.programHash == input.programHash &&
            proven.inputs.inputHash == backend.sha256(InputText(input)) &&
            proven.inputs.toolResponsesHash == backend.tapeHash(input.tape) &&
            proven.inputs.outputHash == backend.keccak(AbiInt256(value)) &&
            proven.inputs.attestationHash == backend.attestedHash(input.tape, input.attestations) &&
            if input.policyCanonical == [] then forall i | 0 <= i < 32 :: proven.inputs.policyHash[i] == 0
            else proven.inputs.policyHash == backend.sha256(input.policyCanonical)
  {
    hide GuestRun, TapeRun, Parse, OversizedFrom, Word, AbiInt256, Pow256;
    WordIsAbiInt256(Replayed(input, fuel, backend).value.run.outcome.value);
    assert Ascii("null") == [110, 117, 108, 108];
  }

  /** The bytes the input hash is taken of: those of the value, or null. */
  ghost function InputText(input: GuestInput): Bytes {
    if input.inputValue.Some? then input.inputValue.value else [110, 117, 108, 108]
  }

  // ----- What the commitments fix -----

  ghost predicate Separates<T(!new)>(hash: T -> V.Hash, a: T, b: T) { hash(a) == hash(b) ==> a == b }

  /** No hash collides on what the two replays commit, and no policy hashes to zero. */
  ghost predicate NoCollisions(a: GuestInput, b: GuestInput, backend: Backend, x: I64, y: I64) {
    Separates(backend.sha256, InputText(a), InputText(b)) &&
    Separates(backend.sha256, a.policyCanonical, b.policyCanonical) &&
    Separates(backend.tapeHash, a.tape, b.tape) &&
    Separates(backend.keccak, Word(x), Word(y)) &&
    (backend.attestedHash(a.tape, a.attestations) == backend.attestedHash(b.tape, b.attestations) ==>
       a.attestations == b.attestations) &&
    backend.sha256(a.policyCanonical) != Fill(0, 32) && backend.sha256(b.policyCanonical) != Fill(0, 32)
  }

  /** Two successful replays with the same public inputs had the same input, tape, attestations and policy, and returned
      the same value. */
  lemma PublicInputsFix(a: GuestInput, b: GuestInput, fuelA: nat, fuelB: nat, backend: Backend)
    requires Replayed(a, fuelA, backend).Ok? && Replayed(b, fuelB, backend).Ok?
    requires Replayed(a, fuelA, backend).value.inputs == Replayed(b, fuelB, backend).value.inputs
    requires var x, y := Replayed(a, fuelA, backend).value.run.outcome, Replayed(b, fuelB, backend).value.run.outcome;
             x.Returned? && y.Returned? && NoCollisions(a, b, backend, x.value, y.value)
    ensures a.programHash == b.programHash && InputText(a) == InputText(b) && a.tape == b.tape
    ensures a.attestations == b.attestations && a.policyCanonical == b.policyCanonical
    ensures Replayed(a, fuelA, backend).value.run.outcome == Replayed(b, fuelB, backend).value.run.outcome
  {
    ReplayCommits(a, fuelA, backend);
    ReplayCommits(b, fuelB, backend);
    var x := Replayed(a, fuelA, backend).value.run.outcome.value;
    var y := Replayed(b, fuelB, backend).value.run.outcome.value;
    WordIsAbiInt256(x);
    WordIsAbiInt256(y);
    WordDecodes(x);
    WordDecodes(y);
    hide Replayed, AbiInt256, Word, DecodeInt256;
    ZeroHash(Replayed(a, fuelA, backend).value.inputs.policyHash);
  }

  lemma ZeroHash(h: V.Hash)
    ensures h == Fill(0, 32) <==> forall i | 0 <= i < 32 :: h[i] == 0
  {}

  lemma {:induction false} FuelToSpare(program: Program, view: View, tape: Tape, calls: seq<Call>, answers: seq<Answer>,
                                       s: GuestState, fuel: nat, more: nat)
    requires GuestFrom(program, view, tape, calls, answers, s, fuel).outcome.Returned? && fuel <= more
    ensures GuestFrom(program, view, tape, calls, answers, s, more) ==
            GuestFrom(program, view, tape, calls, answers, s, fuel)
    decreases fuel
  {
    hide GuestCall;
    if program(answers).Invoke? {
      var c := program(answers).c;
      var (a, s') := GuestCall(view, tape, s, c);
      FuelToSpare(program, view, tape, calls + [c], answers + [a], s', fuel - 1, more - 1);
    }
  }

  lemma {:induction false} TapeFuelToSpare(program: Program, tape: Tape, calls: seq<Call>, answers: seq<Answer>,
                                           cursor: nat, fuel: nat, more: nat)
    requires TapeFrom(program, tape, calls, answers, cursor, fuel).outcome.Returned? && fuel <= more
    ensures TapeFrom(program, tape, calls, answers, cursor, more) ==
            TapeFrom(program, tape, calls, answers, cursor, fuel)
    decreases fuel
  {
    hide ExhaustedMessage;
    if program(answers).Invoke? {
      var c := program(answers).c;
      if cursor < |tape| {
        TapeFuelToSpare(program, tape, calls + [c], answers + [tape[cursor]], cursor + 1, fuel - 1, more - 1);
      } else {
        TapeFuelToSpare(program, tape, calls + [c], answers + [Err(ExhaustedMessage())], cursor, fuel - 1, more - 1);
      }
    }
  }

  /** The run of a successful replay is fixed by program, tape and policy. */
  lemma SameRun(a: GuestInput, b: GuestInput, fuelA: nat, fuelB: nat, backend: Backend)
    requires Replayed(a, fuelA, backend).Ok? && Replayed(b, fuelB, backend).Ok? && fuelA <= fuelB
    requires a.program == b.program && a.tape == b.tape && a.policyCanonical == b.policyCanonical
    ensures Replayed(a, fuelA, backend).value.run == Replayed(b, fuelB, backend).value.run
  {
    hide GuestFrom, TapeFrom, Parse, OversizedFrom, Word, CapOf;
    if a.policyCanonical == [] {
      TapeFuelToSpare(a.program, a.tape, [], [], 0, fuelA, fuelB);
    } else {
      var view := Parse(a.policyCanonical, backend.utf8).value;
      FuelToSpare(a.program, view, a.tape, [], [], GuestState(0, 0), fuelA, fuelB);
    }
  }

  /** For one program the public inputs fix the whole run, call by call and answer by answer. */
  lemma PublicInputsFixRun(a: GuestInput, b: GuestInput, fuelA: nat, fuelB: nat, backend: Backend)
    requires a.program == b.program
    requires Replayed(a, fuelA, backend).Ok? && Replayed(b, fuelB, backend).Ok?
    requires Replayed(a, fuelA, backend).value.inputs == Replayed(b, fuelB, backend).value.inputs
    requires var x, y := Replayed(a, fuelA, backend).value.run.outcome, Replayed(b, fuelB, backend).value.run.outcome;
             x.Returned? && y.Returned? && NoCollisions(a, b, backend, x.value, y.value)
    ensures Replayed(a, fuelA, backend).value.run == Replayed(b, fuelB, backend).value.run
  {
    PublicInputsFix(a, b, fuelA, fuelB, backend);
    hide *;
    if fuelA <= fuelB { SameRun(a, b, fuelA, fuelB, backend); } else { SameRun(b, a, fuelB, fuelA, backend); }
  }

  // ----- What is refused for its size -----

  /** A tape entry of so many bytes, more than the cap, be it a response or an error message. */
  ghost predicate TooLongBy(a: Answer, len: nat, cap: nat) {
    len > cap &&
    match a
    case Ok(response) => |response| == len
    case Err(message) => |message| == len
  }

  ghost predicate TooLong(a: Answer, cap: nat) { exists len: nat :: TooLongBy(a, len, cap) }

  /** A replay under a policy is refused for its size exactly when some entry is too long, and then for the first. */
  lemma OversizedExactly(input: GuestInput, view: View, fuel: nat, backend: Backend)
    requires input.policyCanonical != [] && Parse(input.policyCanonical, backend.utf8) == Ok(view)
    ensures var cap := CapOf(view, backend.usize);
            var r := Replayed(input, fuel, backend);
            ((exists i: nat :: i < |input.tape| && TooLong(input.tape[i], cap)) <==>
               r.Err? && r.error.OversizedEntry?) &&
            (r.Err? && r.error.OversizedEntry? ==>
               r.error.index < |input.tape| && r.error.cap == cap &&
               TooLongBy(input.tape[r.error.index], r.error.len, cap) &&
               forall j | 0 <= j < r.error.index :: !TooLong(input.tape[j], cap))
  {
    FirstOversized(input.tape, CapOf(view, backend.usize), 0);
    SizesDecide(input, view, fuel, backend);
    hide Replayed, Parse, CapOf, OversizedFrom;
  }

  lemma {:induction false} FirstOversized(tape: Tape, cap: nat, i: nat)
    requires i <= |tape|
    ensures var e := OversizedFrom(tape, cap, i);
            ((exists j: nat :: i <= j < |tape| && TooLong(tape[j], cap)) <==> e.Some?) &&
            (e.Some? ==> e.value.OversizedEntry? && i <= e.value.index < |tape| && e.value.cap == cap &&
                         TooLongBy(tape[e.value.index], e.value.len, cap) &&
                         forall j | i <= j < e.value.index :: !TooLong(tape[j], cap))
    decreases |tape| - i
  {
    if i < |tape| {
      LengthIsTooLong(tape[i], cap);
      hide TooLong, TooLongBy, EntryLength;
      FirstOversized(tape, cap, i + 1);
    }
  }

  lemma LengthIsTooLong(a: Answer, cap: nat)
    ensures EntryLength(a) > cap <==> TooLong(a, cap)
    ensures EntryLength(a) > cap ==> TooLongBy(a, EntryLength(a), cap)
  {
    if EntryLength(a) > cap { assert TooLongBy(a, EntryLength(a), cap); }
  }
}
