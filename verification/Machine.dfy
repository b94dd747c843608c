/** The virtual machine as the traces see it: a stack of frames, each a prototype and a local program counter. An error
    is caught by the innermost frame that waits behind a PCall. */
module Machine {
  import opened Options
  import opened ByteStrings
  import opened OutputWord
  import opened Circuit
  import opened Encoder

  datatype Frame = Frame(proto: nat, pc: nat)

  /** What a step takes from outside the program counter: the value on top of the stack, the prototype a call enters
      (none when it calls something that is not a prototype), the next pc recorded when the last frame returns, and
      whether the instruction raises an error. */
  datatype Choice = Choice(stackTop: I64, callee: Option<nat>, haltPc: Uint32, fails: bool)

  datatype TraceStep = TraceStep(pc: Uint32, opcode: Byte, operand: I64, stackTop: I64, nextPc: Uint32)

  /** The frame points at an instruction. */
  predicate InCode(protos: seq<Proto>, f: Frame) { f.proto < |protos| && f.pc < |protos[f.proto]| }

  /** Local pc after an instruction that stays in its frame. A value of zero on top of the stack is falsy, and for the
      iterator instructions it means that there is nothing to iterate over. */
  function LocalNext(pc: nat, i: Instr, stackTop: I64): int {
    match i.op
    case 33 => pc + 1 + i.operand                                       // Jmp
    case 34 => if stackTop == 0 then pc + 1 else pc + 1 + i.operand     // JmpIf
    case 35 => if stackTop == 0 then pc + 1 + i.operand else pc + 1     // JmpIfNot
    case 29 => if stackTop == 0 then pc + 1 + i.operand else pc + 1     // And: a falsy operand decides
    case 30 => if stackTop == 0 then pc + 1 else pc + 1 + i.operand     // Or: a truthy operand decides
    case 43 => if stackTop == 0 then pc + 1 + i.operand else pc + 1     // IterInitSorted
    case 44 => if stackTop == 0 then pc + 1 + i.operand else pc + 1     // IterInitArray
    case 45 => if stackTop == 0 then pc + 1 + i.operand else pc + 1     // IterNext
    case _ => pc + 1
  }

  /** Call, Ret, Closure and PCall, whose next pc the pipeline leaves to the machine. */
  predicate Open(op: Byte) {
    match op
    case 36 => true
    case 37 => true
    case 38 => true
    case 40 => true
    case _ => false
  }

  predicate EntersFrame(i: Instr, c: Choice) { (i.op == 36 || i.op == 40) && c.callee.Some? }

  /** The frame waits behind a PCall it has made. */
  predicate Protected(protos: seq<Proto>, f: Frame) {
    f.proto < |protos| && 1 <= f.pc <= |protos[f.proto]| && protos[f.proto][f.pc - 1].op == 40
  }

  /** How many frames an error leaves: those up to the innermost one that waits behind a PCall; zero when none does. */
  function Handler(protos: seq<Proto>, frames: seq<Frame>): (kept: nat)
    ensures kept <= |frames|
    ensures kept > 0 ==> kept < |frames| && Protected(protos, frames[kept - 1])
  {
    if |frames| <= 1 then 0
    else if Protected(protos, frames[|frames| - 2]) then |frames| - 1
    else Handler(protos, frames[..|frames| - 1])
  }

  /** The frames after one instruction; none when the machine cannot go on. An error drops the frames above its handler,
      which goes on behind its PCall. */
  function NextFrames(protos: seq<Proto>, frames: seq<Frame>, c: Choice): Option<seq<Frame>>
    requires frames != [] && InCode(protos, frames[|frames| - 1])
  {
    var below, f := frames[..|frames| - 1], frames[|frames| - 1];
    var i := protos[f.proto][f.pc];
    if c.fails then (if Handler(protos, frames) == 0 then None else Some(frames[..Handler(protos, frames)]))
    else if i.op == 37 then Some(below)
    else if EntersFrame(i, c) then
      var callee := Frame(c.callee.value, 0);
      if InCode(protos, callee) then Some(below + [f.(pc := f.pc + 1), callee]) else None
    else
      var next := LocalNext(f.pc, i, c.stackTop);
      if next < 0 || !InCode(protos, f.(pc := next)) then None else Some(below + [f.(pc := next)])
  }

  function FlatPc(protos: seq<Proto>, f: Frame): nat
    requires f.proto < |protos|
  {
    Base(protos, f.proto) + f.pc
  }

  /** The trace of a complete run: it ends when the last frame returns, and every step before that points at code. The
      program counters of the trace are positions in the flat program. */
  function Trace(protos: seq<Proto>, frames: seq<Frame>, choices: seq<Choice>): (t: Option<seq<TraceStep>>)
    ensures t.Some? ==> |t.value| == |choices|
    decreases |choices|
  {
    if choices == [] then (if frames == [] then Some([]) else None)
    else if frames == [] || !InCode(protos, frames[|frames| - 1]) then None
    else
      var f, c := frames[|frames| - 1], choices[0];
      var i := protos[f.proto][f.pc];
      match NextFrames(protos, frames, c)
      case None => None
      case Some(next) =>
        match Trace(protos, next, choices[1..])
        case None => None
        case Some(rest) =>
          var nextPc := if rest == [] then c.haltPc else rest[0].pc;
          if FlatPc(protos, f) >= 0x1_0000_0000 then None
          else Some([TraceStep(FlatPc(protos, f), i.op, i.operand, c.stackTop, nextPc)] + rest)
  }

  /** Operands come from fields of at most sixteen bits, and opcodes from the canonical table. */
  ghost predicate IsaProgram(protos: seq<Proto>) {
    forall p, k | 0 <= p < |protos| && 0 <= k < |protos[p]| ::
      protos[p][k].op <= 45 && -0x8000 <= protos[p][k].operand < 0x1_0000
  }

  /** The step executes the instruction that stands at its pc in the flat program. */
  ghost predicate InFlat(flat: Proto, s: TraceStep) {
    s.pc < |flat| && s.opcode == flat[s.pc].op && s.operand == flat[s.pc].operand && s.opcode <= 45 &&
    -0x8000 <= s.operand < 0x1_0000
  }

  /** The step goes where its instruction goes when it stays in its frame, seen from the flat program. */
  ghost predicate ByRule(s: TraceStep) {
    !Open(s.opcode) ==> s.nextPc == LocalNext(s.pc, Instr(s.opcode, s.operand), s.stackTop)
  }

  /** Trace facts of a run from given frames: every step is in the flat program, each hands its next pc to the following
      step, the first stands at the top frame, and the last is the Ret that empties the stack. */
  ghost predicate RunFacts(protos: seq<Proto>, frames: seq<Frame>, t: seq<TraceStep>) {
    (forall i | 0 <= i < |t| :: InFlat(Flat(protos), t[i])) &&
    (forall i | 0 <= i < |t| - 1 :: t[i].nextPc == t[i + 1].pc) &&
    (t == [] <==> frames == []) &&
    (t != [] ==> frames[|frames| - 1].proto < |protos| && t[0].pc == FlatPc(protos, frames[|frames| - 1]) &&
                 t[|t| - 1].opcode == 37)
  }

  ghost predicate AllByRule(t: seq<TraceStep>) { forall i | 0 <= i < |t| :: ByRule(t[i]) }

  // ----- Errors that are caught -----

  /** The jump of a failing instruction would have gone where its error goes. */
  ghost predicate JumpsToHandler(protos: seq<Proto>, frames: seq<Frame>, c: Choice)
    requires frames != [] && InCode(protos, frames[|frames| - 1])
  {
    var f, kept := frames[|frames| - 1], Handler(protos, frames);
    kept > 0 && LocalNext(FlatPc(protos, f), protos[f.proto][f.pc], c.stackTop) == FlatPc(protos, frames[kept - 1])
  }

  /** An error unwinds from an instruction whose next pc the circuit constrains. */
  ghost predicate Strays(protos: seq<Proto>, frames: seq<Frame>, c: Choice)
    requires frames != [] && InCode(protos, frames[|frames| - 1])
  {
    var f := frames[|frames| - 1];
    c.fails && !Open(protos[f.proto][f.pc].op) && !JumpsToHandler(protos, frames, c)
  }

  /** Some step of the run strays. */
  ghost predicate RunStrays(protos: seq<Proto>, frames: seq<Frame>, choices: seq<Choice>)
    decreases |choices|
  {
    choices != [] && frames != [] && InCode(protos, frames[|frames| - 1]) &&
    NextFrames(protos, frames, choices[0]).Some? &&
    (Strays(protos, frames, choices[0]) ||
     RunStrays(protos, NextFrames(protos, frames, choices[0]).value, choices[1..]))
  }

  // ----- The trace of a run -----

  lemma TopInFlat(protos: seq<Proto>, f: Frame)
    requires InCode(protos, f) && IsaProgram(protos) && |Flat(protos)| <= MAX_BYTECODE
    ensures FlatPc(protos, f) < |Flat(protos)| && Flat(protos)[FlatPc(protos, f)] == protos[f.proto][f.pc]
    ensures protos[f.proto][f.pc].op <= 45 && -0x8000 <= protos[f.proto][f.pc].operand < 0x1_0000
  {
    assert protos[..|protos|] == protos;
    FlatAt(protos, f.proto, f.pc, |protos|);
  }

  ghost function StepAt(protos: seq<Proto>, f: Frame, c: Choice, nextPc: Uint32): TraceStep
    requires InCode(protos, f) && FlatPc(protos, f) < MAX_BYTECODE
  {
    TraceStep(FlatPc(protos, f), protos[f.proto][f.pc].op, protos[f.proto][f.pc].operand, c.stackTop, nextPc)
  }

  /** A step obeys the pc rule exactly when it does not stray: relative jumps survive concatenation. */
  lemma {:induction false} StepIsFlat(protos: seq<Proto>, frames: seq<Frame>, c: Choice, next: seq<Frame>,
                                      nextPc: Uint32)
    requires frames != [] && InCode(protos, frames[|frames| - 1]) && IsaProgram(protos)
    requires |Flat(protos)| <= MAX_BYTECODE
    requires NextFrames(protos, frames, c) == Some(next)
    requires next != [] ==> InCode(protos, next[|next| - 1]) && nextPc == FlatPc(protos, next[|next| - 1])
    ensures var f := frames[|frames| - 1];
            FlatPc(protos, f) < MAX_BYTECODE && InFlat(Flat(protos), StepAt(protos, f, c, nextPc)) &&
            (ByRule(StepAt(protos, f, c, nextPc)) <==> !Strays(protos, frames, c))
  {
    var f := frames[|frames| - 1];
    TopInFlat(protos, f);
    if c.fails {
      FailingStep(protos, frames, c, nextPc);
    } else if !Open(protos[f.proto][f.pc].op) {
      StayingStep(protos, frames, c, next, nextPc);
    }
  }

  lemma {:induction false} StayingStep(protos: seq<Proto>, frames: seq<Frame>, c: Choice, next: seq<Frame>,
                                       nextPc: Uint32)
    requires frames != [] && InCode(protos, frames[|frames| - 1]) && IsaProgram(protos)
    requires |Flat(protos)| <= MAX_BYTECODE && !c.fails
    requires NextFrames(protos, frames, c) == Some(next)
    requires next != [] && InCode(protos, next[|next| - 1]) && nextPc == FlatPc(protos, next[|next| - 1])
    requires FlatPc(protos, frames[|frames| - 1]) < MAX_BYTECODE
    requires var f := frames[|frames| - 1]; !Open(protos[f.proto][f.pc].op)
    ensures ByRule(StepAt(protos, frames[|frames| - 1], c, nextPc))
  {
    var f := frames[|frames| - 1];
    assert next[|next| - 1] == f.(pc := LocalNext(f.pc, protos[f.proto][f.pc], c.stackTop));
    TopInFlat(protos, next[|next| - 1]);
    hide Flat, IsaProgram;
  }

  /** A failing step obeys the rule only where it does not stray. */
  lemma {:induction false} FailingStep(protos: seq<Proto>, frames: seq<Frame>, c: Choice, nextPc: Uint32)
    requires frames != [] && InCode(protos, frames[|frames| - 1]) && IsaProgram(protos)
    requires |Flat(protos)| <= MAX_BYTECODE && c.fails
    requires var kept := Handler(protos, frames);
             kept > 0 && InCode(protos, frames[kept - 1]) && nextPc == FlatPc(protos, frames[kept - 1])
    requires FlatPc(protos, frames[|frames| - 1]) < MAX_BYTECODE
    ensures ByRule(StepAt(protos, frames[|frames| - 1], c, nextPc)) <==> !Strays(protos, frames, c)
  {
    TopInFlat(protos, frames[|frames| - 1]);
    hide Flat, IsaProgram, Handler;
  }

  /** The only instruction in front of a frame that waits behind a PCall is that PCall. */
  lemma {:induction false} BehindPCall(protos: seq<Proto>, f: Frame, h: Frame)
    requires InCode(protos, f) && InCode(protos, h) && Protected(protos, h) && IsaProgram(protos)
    requires |Flat(protos)| <= MAX_BYTECODE && FlatPc(protos, f) + 1 == FlatPc(protos, h)
    ensures protos[f.proto][f.pc].op == 40
  {
    TopInFlat(protos, f);
    TopInFlat(protos, h.(pc := h.pc - 1));
    hide Flat, IsaProgram;
  }

  /** Every complete run has a trace with these facts, and its steps obey the pc rule exactly when the run does not
      stray. */
  lemma {:induction false} TraceFacts(protos: seq<Proto>, frames: seq<Frame>, choices: seq<Choice>)
    requires IsaProgram(protos) && |Flat(protos)| <= MAX_BYTECODE
    requires Trace(protos, frames, choices).Some?
    ensures RunFacts(protos, frames, Trace(protos, frames, choices).value)
    ensures AllByRule(Trace(protos, frames, choices).value) <==> !RunStrays(protos, frames, choices)
    decreases |choices|
  {
    if choices != [] {
      var next := NextFrames(protos, frames, choices[0]).value;
      TraceFacts(protos, next, choices[1..]);
      TraceHead(protos, frames, choices);
      hide RunFacts, AllByRule, Strays, Trace, NextFrames, InFlat, ByRule;
      var t, rest := Trace(protos, frames, choices).value, Trace(protos, next, choices[1..]).value;
      StepIsFlat(protos, frames, choices[0], next, t[0].nextPc);
      ConsFacts(protos, frames, next, t, rest);
      ConsByRule(t, rest);
    }
  }

  /** The first step of a trace, and the rest of it. */
  lemma {:induction false} TraceHead(protos: seq<Proto>, frames: seq<Frame>, choices: seq<Choice>)
    requires choices != [] && Trace(protos, frames, choices).Some?
    ensures frames != [] && InCode(protos, frames[|frames| - 1]) && NextFrames(protos, frames, choices[0]).Some?
    ensures var next := NextFrames(protos, frames, choices[0]).value;
            var t := Trace(protos, frames, choices).value;
            Trace(protos, next, choices[1..]).Some? && t[1..] == Trace(protos, next, choices[1..]).value &&
            (next != [] ==> InCode(protos, next[|next| - 1]) && t[0].nextPc == FlatPc(protos, next[|next| - 1]))
    ensures var f, t := frames[|frames| - 1], Trace(protos, frames, choices).value;
            FlatPc(protos, f) < MAX_BYTECODE ==> t[0] == StepAt(protos, f, choices[0], t[0].nextPc)
    ensures Trace(protos, frames, choices).value[0].pc == FlatPc(protos, frames[|frames| - 1])
    ensures Trace(protos, frames, choices).value[0].stackTop == choices[0].stackTop
    ensures NextFrames(protos, frames, choices[0]) == Some([]) ==>
              Trace(protos, frames, choices).value[0].opcode == 37
  {
    if NextFrames(protos, frames, choices[0]) == Some([]) { EmptiesByRet(protos, frames, choices[0]); }
    hide NextFrames, Flat;
  }

  lemma {:induction false} EmptiesByRet(protos: seq<Proto>, frames: seq<Frame>, c: Choice)
    requires frames != [] && InCode(protos, frames[|frames| - 1]) && NextFrames(protos, frames, c) == Some([])
    ensures var f := frames[|frames| - 1]; protos[f.proto][f.pc].op == 37
  {
    hide Handler;
  }

  lemma ConsByRule(t: seq<TraceStep>, rest: seq<TraceStep>)
    requires t != [] && t[1..] == rest
    ensures AllByRule(t) <==> ByRule(t[0]) && AllByRule(rest)
  {
    hide ByRule;
    if ByRule(t[0]) && AllByRule(rest) {
      forall i | 0 <= i < |t|
        ensures ByRule(t[i])
      {
        if i > 0 { assert t[i] == rest[i - 1]; }
      }
    }
    if AllByRule(t) {
      forall i | 0 <= i < |rest|
        ensures ByRule(rest[i])
      {
        assert rest[i] == t[i + 1];
      }
    }
  }

  lemma ConsFacts(protos: seq<Proto>, frames: seq<Frame>, next: seq<Frame>, t: seq<TraceStep>, rest: seq<TraceStep>)
    requires frames != [] && frames[|frames| - 1].proto < |protos|
    requires RunFacts(protos, next, rest) && t != [] && t[1..] == rest
    requires InFlat(Flat(protos), t[0]) && t[0].pc == FlatPc(protos, frames[|frames| - 1])
    requires rest != [] ==> t[0].nextPc == rest[0].pc
    requires rest == [] ==> t[0].opcode == 37
    ensures RunFacts(protos, frames, t)
  {
    hide InFlat;
    forall i | 0 <= i < |t|
      ensures InFlat(Flat(protos), t[i])
    {
      if i > 0 { assert t[i] == rest[i - 1]; }
    }
    forall i | 0 <= i < |t| - 1
      ensures t[i].nextPc == t[i + 1].pc
    {
      assert t[i + 1] == rest[i];
      if i > 0 { assert t[i] == rest[i - 1]; }
    }
    if rest != [] { assert t[|t| - 1] == rest[|rest| - 1]; }
  }

  // ----- Calls and returns -----

  /** The frames after the first k steps of a run, none when it does not get that far. */
  ghost function FramesAfter(protos: seq<Proto>, frames: seq<Frame>, choices: seq<Choice>, k: nat): Option<seq<Frame>>
    decreases k
  {
    if k == 0 then Some(frames)
    else if choices == [] || frames == [] || !InCode(protos, frames[|frames| - 1]) then None
    else
      match NextFrames(protos, frames, choices[0])
      case None => None
      case Some(next) => FramesAfter(protos, next, choices[1..], k - 1)
  }

  /** One step leaves every frame below the top one, as far as it leaves that many frames at all. */
  lemma {:induction false} StepKeepsBelow(protos: seq<Proto>, frames: seq<Frame>, c: Choice, d: nat)
    requires frames != [] && InCode(protos, frames[|frames| - 1]) && NextFrames(protos, frames, c).Some?
    requires d < |frames|
    ensures var next := NextFrames(protos, frames, c).value; d <= |next| ==> next[..d] == frames[..d]
  {
    hide Handler, LocalNext;
  }

  /** As long as more than d frames are on the stack, the lowest d of them do not change. */
  lemma {:induction false} BelowKept(protos: seq<Proto>, frames: seq<Frame>, choices: seq<Choice>, k: nat, d: nat)
    requires d <= |frames| && FramesAfter(protos, frames, choices, k).Some?
    requires forall j: nat | j < k :: Deeper(protos, frames, choices, j, d)
    ensures var after := FramesAfter(protos, frames, choices, k).value; d <= |after| ==> after[..d] == frames[..d]
    decreases k
  {
    if k > 0 {
      hide NextFrames;
      assert Deeper(protos, frames, choices, 0, d);
      var next := NextFrames(protos, frames, choices[0]).value;
      StepKeepsBelow(protos, frames, choices[0], d);
      if k == 1 {
        assert FramesAfter(protos, next, choices[1..], 0) == Some(next);
      } else {
        assert Deeper(protos, frames, choices, 1, d);
        assert FramesAfter(protos, frames, choices, 1) == FramesAfter(protos, next, choices[1..], 0) == Some(next);
        forall j: nat | j < k - 1
          ensures Deeper(protos, next, choices[1..], j, d)
        {
          assert Deeper(protos, frames, choices, j + 1, d);
        }
        BelowKept(protos, next, choices[1..], k - 1, d);
      }
    }
  }

  ghost predicate Deeper(protos: seq<Proto>, frames: seq<Frame>, choices: seq<Choice>, j: nat, d: nat) {
    var f := FramesAfter(protos, frames, choices, j); f.Some? && |f.value| > d
  }

  /** A call enters its callee at the first instruction, and whatever happens in there, errors that are caught included,
      the run comes back right behind the call, with the frames below as they were, when it comes back to that depth. */
  lemma {:induction false} ReturnsBehindCall(protos: seq<Proto>, frames: seq<Frame>, choices: seq<Choice>, k: nat)
    requires frames != [] && InCode(protos, frames[|frames| - 1]) && choices != [] && k > 0
    requires var f := frames[|frames| - 1];
             !choices[0].fails && EntersFrame(protos[f.proto][f.pc], choices[0])
    requires FramesAfter(protos, frames, choices, k).Some?
    requires forall j: nat | 1 <= j < k :: Deeper(protos, frames, choices, j, |frames|)
    ensures var f := frames[|frames| - 1];
            var behind := frames[..|frames| - 1] + [f.(pc := f.pc + 1)];
            var after := FramesAfter(protos, frames, choices, k).value;
            (k == 1 ==> after == behind + [Frame(choices[0].callee.value, 0)]) &&
            (|after| == |frames| ==> after == behind)
  {
    var f := frames[|frames| - 1];
    var behind := frames[..|frames| - 1] + [f.(pc := f.pc + 1)];
    var next := NextFrames(protos, frames, choices[0]).value;
    assert next == behind + [Frame(choices[0].callee.value, 0)];
    if k == 1 {
      assert FramesAfter(protos, next, choices[1..], 0) == Some(next);
    } else {
      hide NextFrames;
      forall j: nat | j < k - 1
        ensures Deeper(protos, next, choices[1..], j, |frames|)
      {
        assert Deeper(protos, frames, choices, j + 1, |frames|);
      }
      BelowKept(protos, next, choices[1..], k - 1, |frames|);
      var after := FramesAfter(protos, frames, choices, k).value;
      assert next[..|frames|] == behind;
      if |after| == |frames| { assert after[..|frames|] == after; }
    }
  }

  // ----- Which runs stray -----

  /** A run in which no instruction fails does not stray. */
  lemma {:induction false} WithoutFailures(protos: seq<Proto>, frames: seq<Frame>, choices: seq<Choice>)
    requires forall k | 0 <= k < |choices| :: !choices[k].fails
    ensures !RunStrays(protos, frames, choices)
    decreases |choices|
  {
    hide NextFrames;
    if choices != [] && frames != [] && InCode(protos, frames[|frames| - 1]) &&
       NextFrames(protos, frames, choices[0]).Some?
    {
      WithoutFailures(protos, NextFrames(protos, frames, choices[0]).value, choices[1..]);
    }
  }

  /** The instruction of the step is not left open, and without an error goes on to the one behind it. */
  ghost predicate FallsThrough(s: TraceStep) {
    !Open(s.opcode) && LocalNext(s.pc, Instr(s.opcode, s.operand), s.stackTop) == s.pc + 1
  }

  /** A complete run strays when one of its failing instructions, a tool call for instance, is neither a jump taken nor
      one of the four left open: the place behind a PCall is not the place behind any other instruction. */
  lemma {:induction false} FailureStrays(protos: seq<Proto>, frames: seq<Frame>, choices: seq<Choice>, k: nat)
    requires IsaProgram(protos) && |Flat(protos)| <= MAX_BYTECODE
    requires Trace(protos, frames, choices).Some? && k < |choices| && choices[k].fails
    requires FallsThrough(Trace(protos, frames, choices).value[k])
    ensures RunStrays(protos, frames, choices)
    decreases |choices|
  {
    TraceHead(protos, frames, choices);
    var f := frames[|frames| - 1];
    TopInFlat(protos, f);
    if k == 0 {
      var h := frames[Handler(protos, frames) - 1];
      hide Flat, IsaProgram, Trace;
      if FlatPc(protos, f) + 1 == FlatPc(protos, h) { BehindPCall(protos, f, h); }
    } else {
      var next := NextFrames(protos, frames, choices[0]).value;
      assert Trace(protos, frames, choices).value[k] == Trace(protos, next, choices[1..]).value[k - 1];
      FailureStrays(protos, next, choices[1..], k - 1);
    }
  }

  /** A program whose main function makes a protected call of a function that calls a tool. */
  function Guarded(): seq<Proto> { [[Instr(40, 0), Instr(37, 0)], [Instr(39, 0), Instr(37, 0)]] }

  /** The tool call fails, and the main function goes on and returns. */
  function GuardedRun(): seq<Choice> {
    [Choice(0, Some(1), 0, false), Choice(0, None, 0, true), Choice(0, None, 0, false)]
  }

  lemma {:induction false} TraceCons(protos: seq<Proto>, frames: seq<Frame>, c: Choice, cs: seq<Choice>,
                                     next: seq<Frame>, rest: seq<TraceStep>)
    requires frames != [] && InCode(protos, frames[|frames| - 1]) && NextFrames(protos, frames, c) == Some(next)
    requires Trace(protos, next, cs) == Some(rest) && FlatPc(protos, frames[|frames| - 1]) < MAX_BYTECODE
    ensures Trace(protos, frames, [c] + cs) ==
            Some([StepAt(protos, frames[|frames| - 1], c, if rest == [] then c.haltPc else rest[0].pc)] + rest)
  {
    hide NextFrames, FlatPc;
    assert ([c] + cs)[1..] == cs;
  }

  lemma {:induction false} GuardedFlat()
    ensures Flat(Guarded()) == Guarded()[0] + Guarded()[1]
    ensures Base(Guarded(), 0) == 0 && Base(Guarded(), 1) == 2
  {
    var protos := Guarded();
    assert protos[..0] == [] && protos[..1] == [protos[0]];
    assert Flat([protos[0]]) == protos[0];
  }

  lemma {:induction false} GuardedFrames()
    ensures NextFrames(Guarded(), [Frame(0, 0)], GuardedRun()[0]) == Some([Frame(0, 1), Frame(1, 0)])
    ensures Handler(Guarded(), [Frame(0, 1), Frame(1, 0)]) == 1
    ensures NextFrames(Guarded(), [Frame(0, 1), Frame(1, 0)], GuardedRun()[1]) == Some([Frame(0, 1)])
    ensures NextFrames(Guarded(), [Frame(0, 1)], GuardedRun()[2]) == Some([])
  {
    assert [Frame(0, 0)][..0] == [] && [Frame(0, 1), Frame(1, 0)][..1] == [Frame(0, 1)];
    assert [] + [Frame(0, 1), Frame(1, 0)] == [Frame(0, 1), Frame(1, 0)];
  }

  /** That is a complete run, and it strays. */
  lemma {:induction false} CaughtToolError()
    ensures IsaProgram(Guarded()) && |Flat(Guarded())| == 4
    ensures Trace(Guarded(), [Frame(0, 0)], GuardedRun()) ==
            Some([TraceStep(0, 40, 0, 0, 2), TraceStep(2, 39, 0, 0, 1), TraceStep(1, 37, 0, 0, 0)])
    ensures RunStrays(Guarded(), [Frame(0, 0)], GuardedRun())
  {
    var protos, c := Guarded(), GuardedRun();
    GuardedFlat();
    GuardedFrames();
    hide NextFrames, Flat, Trace, RunStrays, Base;
    assert Trace(protos, [], []) == Some([]) by { NoTrace(protos); }
    TraceCons(protos, [Frame(0, 1)], c[2], [], [], []);
    TraceCons(protos, [Frame(0, 1), Frame(1, 0)], c[1], [c[2]] + [], [Frame(0, 1)], [TraceStep(1, 37, 0, 0, 0)] + []);
    var rest := [TraceStep(2, 39, 0, 0, 1)] + ([TraceStep(1, 37, 0, 0, 0)] + []);
    TraceCons(protos, [Frame(0, 0)], c[0], [c[1]] + ([c[2]] + []), [Frame(0, 1), Frame(1, 0)], rest);
    assert c == [c[0]] + ([c[1]] + ([c[2]] + []));
    assert [TraceStep(0, 40, 0, 0, 2)] + rest ==
           [TraceStep(0, 40, 0, 0, 2), TraceStep(2, 39, 0, 0, 1), TraceStep(1, 37, 0, 0, 0)];
    FailureStrays(protos, [Frame(0, 0)], c, 1);
  }

  lemma NoTrace(protos: seq<Proto>)
    ensures Trace(protos, [], []) == Some([])
  {}
}
