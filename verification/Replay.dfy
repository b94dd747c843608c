/** Enforcement and agreement over whole runs: what the guest wrapper guarantees for every sequence of calls, and
    exactly when a replay reproduces the dry run that recorded its tape. */
module Replay {
  import opened Options
  import opened ByteStrings
  import opened Json
  import opened Policy
  import opened OutputWord
  import opened PolicyView
  import opened Hosts
  import opened GuestInputs

  // ----- Enforcement -----

  /** The policy permits the call; tools other than HTTP are outside its rules. */
  predicate Permits(view: View, c: Call) {
    HttpTool(c.name) ==> view.CheckHttpCall(c.name, UrlOf(c)).Permitted?
  }

  function Denial(view: View, c: Call): Answer
    requires !Permits(view, c)
  {
    Err(view.CheckHttpCall(c.name, UrlOf(c)).message)
  }

  /** The calls that reach the tape: permitted, and among the first maxToolCalls attempts. */
  function Forwarded(view: View, calls: seq<Call>): seq<Call> {
    if calls == [] then []
    else
      var n := |calls| - 1;
      var before := Forwarded(view, calls[..n]);
      if n < view.maxToolCalls && Permits(view, calls[n]) then before + [calls[n]] else before
  }

  /** Attempts are counted one by one, and the tape cursor is the number of calls that reached the tape. */
  lemma {:induction false} StateClosedForm(view: View, tape: Tape, calls: seq<Call>)
    ensures StateAfter(view, tape, calls) == GuestState(|calls|, Min(|Forwarded(view, calls)|, |tape|))
  {
    if calls != [] {
      hide LimitMessage, ExhaustedMessage;
      StateClosedForm(view, tape, calls[..|calls| - 1]);
    }
  }

  /** At most maxToolCalls calls reach the tape, and the policy permits every one of them. */
  lemma {:induction false} ForwardedPermitted(view: View, calls: seq<Call>)
    ensures |Forwarded(view, calls)| <= Min(view.maxToolCalls, |calls|)
    ensures forall c | c in Forwarded(view, calls) :: Permits(view, c) && c in calls
  {
    if calls != [] { ForwardedPermitted(view, calls[..|calls| - 1]); }
  }

  /** The answer the guest gives to call c after the given calls, in closed form. */
  function AnswerTo(view: View, tape: Tape, before: seq<Call>, c: Call): Answer {
    if |before| >= view.maxToolCalls then Err(LimitMessage(view.maxToolCalls))
    else if !Permits(view, c) then Denial(view, c)
    else
      var k := |Forwarded(view, before)|;
      if k < |tape| then tape[k] else Err(ExhaustedMessage())
  }

  lemma AnswerClosedForm(view: View, tape: Tape, before: seq<Call>, c: Call)
    ensures GuestCall(view, tape, StateAfter(view, tape, before), c).0 == AnswerTo(view, tape, before, c)
  {
    hide LimitMessage, ExhaustedMessage;
    StateClosedForm(view, tape, before);
  }

  /** A run of the guest answers every call as AnswerTo says. */
  ghost predicate AnsweredBy(view: View, tape: Tape, calls: seq<Call>, answers: seq<Answer>) {
    |calls| == |answers| &&
    forall i | 0 <= i < |calls| :: answers[i] == AnswerTo(view, tape, calls[..i], calls[i])
  }

  lemma AnsweredStep(view: View, tape: Tape, calls: seq<Call>, answers: seq<Answer>, c: Call)
    requires AnsweredBy(view, tape, calls, answers)
    ensures AnsweredBy(view, tape, calls + [c], answers + [AnswerTo(view, tape, calls, c)])
  {
    hide AnswerTo;
    var calls', answers' := calls + [c], answers + [AnswerTo(view, tape, calls, c)];
    forall i | 0 <= i < |calls'|
      ensures answers'[i] == AnswerTo(view, tape, calls'[..i], calls'[i])
    {
      assert calls'[..i] == calls[..i];
    }
  }

  lemma {:induction false} GuestRunAnswered(program: Program, view: View, tape: Tape, calls: seq<Call>,
                                            answers: seq<Answer>, fuel: nat)
    requires AnsweredBy(view, tape, calls, answers)
    ensures var r := GuestFrom(program, view, tape, calls, answers, StateAfter(view, tape, calls), fuel);
            AnsweredBy(view, tape, r.calls, r.answers)
    decreases fuel
  {
    hide AnswerTo, AnsweredBy, GuestCall, StateAfter;
    match program(answers)
    case Return(_) =>
    case Abort(_) =>
    case Invoke(c) =>
      if fuel > 0 {
        AnswerClosedForm(view, tape, calls, c);
        AnsweredStep(view, tape, calls, answers, c);
        StateStep(view, tape, calls, c);
        GuestRunAnswered(program, view, tape, calls + [c], answers + [AnswerTo(view, tape, calls, c)], fuel - 1);
      }
  }

  /** What a successful replay under a policy proves about its run, whoever recorded the tape: entries within the cap;
      every call answered by the rules, so that every attempt past the budget is refused; the wrapper ends having
      counted every attempt and read the tape as far as calls were forwarded to it, no more than maxToolCalls and only
      permitted ones; and the committed policy hash is that of the bytes enforced. */
  lemma ReplayEnforcesPolicy(input: GuestInput, fuel: nat, backend: Backend)
    requires input.policyCanonical != [] && Replayed(input, fuel, backend).Ok?
    ensures Parse(input.policyCanonical, backend.utf8).Ok?
    ensures var view := Parse(input.policyCanonical, backend.utf8).value;
            var proven := Replayed(input, fuel, backend).value;
            var calls, answers := proven.run.calls, proven.run.answers;
            var end := StateAfter(view, input.tape, calls);
            WithinCap(input.tape, view.maxPayloadBytes) &&
            AnsweredBy(view, input.tape, calls, answers) &&
            (forall i | view.maxToolCalls <= i < |calls| :: answers[i] == Err(LimitMessage(view.maxToolCalls))) &&
            end.callsMade == |calls| && end.cursor == Min(|Forwarded(view, calls)|, |input.tape|) &&
            end.cursor <= view.maxToolCalls &&
            (forall c | c in Forwarded(view, calls) :: Permits(view, c) && c in calls) &&
            proven.inputs.policyHash == backend.sha256(input.policyCanonical)
  {
    hide GuestFrom, AnsweredBy, Parse, LimitMessage, StateAfter, Word;
    var view := Parse(input.policyCanonical, backend.utf8).value;
    var run := GuestRun(input.program, view, input.tape, fuel);
    CastIsSmall(view.maxPayloadBytes, backend.usize);
    NothingAnswered(view, input.tape);
    GuestRunAnswered(input.program, view, input.tape, [], [], fuel);
    NothingCalled(view, input.tape);
    ForwardedPermitted(view, run.calls);
    StateClosedForm(view, input.tape, run.calls);
    BudgetRefuses(view, input.tape, run.calls, run.answers);
  }

  lemma NothingCalled(view: View, tape: Tape)
    ensures StateAfter(view, tape, []) == GuestState(0, 0)
  {}

  lemma NothingAnswered(view: View, tape: Tape)
    ensures AnsweredBy(view, tape, [], [])
  {}

  lemma BudgetRefuses(view: View, tape: Tape, calls: seq<Call>, answers: seq<Answer>)
    requires AnsweredBy(view, tape, calls, answers)
    ensures |calls| == |answers|
    ensures forall i | view.maxToolCalls <= i < |calls| :: answers[i] == Err(LimitMessage(view.maxToolCalls))
  {
    hide LimitMessage, Forwarded;
  }

  // ----- The dry run, call by call -----

  /** The calls that reached the live host. */
  function Seen(view: View, calls: seq<Call>): seq<Call> {
    if calls == [] then []
    else
      var n := |calls| - 1;
      var before := Seen(view, calls[..n]);
      if Permits(view, calls[n]) then before + [calls[n]] else before
  }

  ghost predicate AnsweredLive(p: OraclePolicy, world: World, calls: seq<Call>, answers: seq<Answer>) {
    |calls| == |answers| &&
    forall i | 0 <= i < |calls| :: answers[i] == HostCall(p, world, Seen(ViewOf(p), calls[..i]), calls[i]).0
  }

  lemma HostStep(p: OraclePolicy, world: World, calls: seq<Call>, c: Call)
    ensures HostCall(p, world, Seen(ViewOf(p), calls), c).1 == Seen(ViewOf(p), calls + [c])
    ensures !Permits(ViewOf(p), c) ==>
              HostCall(p, world, Seen(ViewOf(p), calls), c).0 == Denial(ViewOf(p), c)
  {
    hide Ascii, MethodMessage, DomainMessage, SchemaMessage, NotJsonMessage;
    SameVerdict(p, c.name, UrlOf(c));
    assert (calls + [c])[..|calls|] == calls;
  }

  lemma LiveStep(p: OraclePolicy, world: World, calls: seq<Call>, answers: seq<Answer>, c: Call)
    requires AnsweredLive(p, world, calls, answers)
    ensures AnsweredLive(p, world, calls + [c], answers + [HostCall(p, world, Seen(ViewOf(p), calls), c).0])
  {
    hide HostCall, Seen;
    var calls', a := calls + [c], HostCall(p, world, Seen(ViewOf(p), calls), c).0;
    forall i | 0 <= i < |calls'|
      ensures (answers + [a])[i] == HostCall(p, world, Seen(ViewOf(p), calls'[..i]), calls'[i]).0
    {
      assert calls'[..i] == calls[..i];
    }
  }

  /** From any point of the dry run on: what was recorded stays, and every answer is the live host's. */
  lemma {:induction false} DryRunAnswered(program: Program, p: OraclePolicy, world: World, calls: seq<Call>,
                                          answers: seq<Answer>, fuel: nat)
    requires AnsweredLive(p, world, calls, answers)
    ensures var r := DryFrom(program, p, world, calls, answers, Seen(ViewOf(p), calls), fuel);
            Extends(r, calls, answers) && AnsweredLive(p, world, r.calls, r.answers)
    decreases fuel
  {
    hide HostCall, Seen, AnsweredLive, DryFrom, Extends;
    if program(answers).Invoke? && fuel > 0 {
      var c := program(answers).c;
      LiveStep(p, world, calls, answers, c);
      DryNext(program, p, world, calls, answers, c, fuel);
      var a := HostCall(p, world, Seen(ViewOf(p), calls), c).0;
      DryRunAnswered(program, p, world, calls + [c], answers + [a], fuel - 1);
      var r := DryFrom(program, p, world, calls, answers, Seen(ViewOf(p), calls), fuel);
      ExtendsShorter(calls, c, answers, a, r);
    } else {
      DryStops(program, p, world, calls, answers, fuel);
    }
  }

  lemma DryNext(program: Program, p: OraclePolicy, world: World, calls: seq<Call>, answers: seq<Answer>, c: Call,
                fuel: nat)
    requires program(answers) == Invoke(c) && fuel > 0
    ensures DryFrom(program, p, world, calls, answers, Seen(ViewOf(p), calls), fuel) ==
            DryFrom(program, p, world, calls + [c], answers + [HostCall(p, world, Seen(ViewOf(p), calls), c).0],
                    Seen(ViewOf(p), calls + [c]), fuel - 1)
  {
    hide HostCall, Seen;
    HostStep(p, world, calls, c);
  }

  lemma DryStops(program: Program, p: OraclePolicy, world: World, calls: seq<Call>, answers: seq<Answer>, fuel: nat)
    requires !program(answers).Invoke? || fuel == 0
    ensures var r := DryFrom(program, p, world, calls, answers, Seen(ViewOf(p), calls), fuel);
            r.calls == calls && r.answers == answers && Extends(r, calls, answers)
  {
    hide Seen;
  }

  ghost predicate Extends(r: Run, calls: seq<Call>, answers: seq<Answer>) {
    calls <= r.calls && answers <= r.answers
  }

  lemma ExtendsShorter(calls: seq<Call>, c: Call, answers: seq<Answer>, a: Answer, r: Run)
    requires Extends(r, calls + [c], answers + [a])
    ensures Extends(r, calls, answers)
  {
    PrefixShorter(calls, c, r.calls);
    PrefixShorter(answers, a, r.answers);
  }

  lemma PrefixShorter<T>(s: seq<T>, x: T, r: seq<T>)
    requires s + [x] <= r
    ensures s <= r && |s| < |r| && r[|s|] == x && r[..|s| + 1] == s + [x]
  {
    assert r[..|s| + 1] == s + [x];
    assert s == (s + [x])[..|s|];
  }

  // ----- Agreement -----

  lemma GuestUnfold(program: Program, view: View, tape: Tape, calls: seq<Call>, answers: seq<Answer>, c: Call,
                    fuel: nat)
    requires program(answers) == Invoke(c) && fuel > 0
    ensures GuestFrom(program, view, tape, calls, answers, StateAfter(view, tape, calls), fuel) ==
            GuestFrom(program, view, tape, calls + [c], answers + [AnswerTo(view, tape, calls, c)],
                      StateAfter(view, tape, calls + [c]), fuel - 1)
  {
    hide AnswerTo, GuestCall, StateAfter;
    AnswerClosedForm(view, tape, calls, c);
    StateStep(view, tape, calls, c);
  }

  lemma DryUnfold(program: Program, p: OraclePolicy, world: World, calls: seq<Call>, answers: seq<Answer>, c: Call,
                  fuel: nat)
    requires program(answers) == Invoke(c) && fuel > 0 && AnsweredLive(p, world, calls, answers)
    ensures var a := HostCall(p, world, Seen(ViewOf(p), calls), c).0;
            var dry := DryFrom(program, p, world, calls, answers, Seen(ViewOf(p), calls), fuel);
            dry == DryFrom(program, p, world, calls + [c], answers + [a], Seen(ViewOf(p), calls + [c]), fuel - 1) &&
            AnsweredLive(p, world, calls + [c], answers + [a]) &&
            |calls| < |dry.calls| && dry.calls[..|calls|] == calls && dry.calls[|calls|] == c &&
            |answers| < |dry.answers| && dry.answers[..|answers|] == answers && dry.answers[|answers|] == a
  {
    hide HostCall, Seen, AnsweredLive, DryFrom;
    LiveStep(p, world, calls, answers, c);
    DryNext(program, p, world, calls, answers, c, fuel);
    var a := HostCall(p, world, Seen(ViewOf(p), calls), c).0;
    DryRunAnswered(program, p, world, calls + [c], answers + [a], fuel - 1);
    var dry := DryFrom(program, p, world, calls, answers, Seen(ViewOf(p), calls), fuel);
    PrefixShorter(calls, c, dry.calls);
    PrefixShorter(answers, a, dry.answers);
  }

  /** On the calls lo, ..., hi - 1 of the dry run the guest would give the recorded answers. */
  ghost predicate Agrees(view: View, tape: Tape, dry: Run, lo: nat, hi: nat) {
    hi <= |dry.calls| && |dry.answers| == |dry.calls| &&
    forall i | lo <= i < hi :: AnswerTo(view, tape, dry.calls[..i], dry.calls[i]) == dry.answers[i]
  }

  /** The dry run and the replay, each continued from the point where the given calls have been answered. */
  ghost function DryOnwards(program: Program, p: OraclePolicy, world: World, calls: seq<Call>, answers: seq<Answer>,
                            fuel: nat): Run
  {
    DryFrom(program, p, world, calls, answers, Seen(ViewOf(p), calls), fuel)
  }

  ghost function GuestOnwards(program: Program, view: View, tape: Tape, calls: seq<Call>, answers: seq<Answer>,
                              fuel: nat): Run
  {
    GuestFrom(program, view, tape, calls, answers, StateAfter(view, tape, calls), fuel)
  }

  /** The first n calls and answers are the same, and if these are all of them so is the outcome. */
  ghost predicate SameUpTo(dry: Run, guest: Run, n: nat) {
    n <= |dry.calls| && n <= |dry.answers| &&
    dry.calls[..n] <= guest.calls && dry.answers[..n] <= guest.answers &&
    (n == |dry.calls| ==> guest == dry)
  }

  lemma BothStep(program: Program, p: OraclePolicy, world: World, view: View, tape: Tape,
                 calls: seq<Call>, answers: seq<Answer>, c: Call, a: Answer, fuel: nat, n: nat)
    requires AnsweredLive(p, world, calls, answers) && |calls| < n
    requires program(answers) == Invoke(c) && fuel > 0 && a == HostCall(p, world, Seen(ViewOf(p), calls), c).0
    requires Agrees(view, tape, DryOnwards(program, p, world, calls, answers, fuel), |calls|, n)
    ensures AnsweredLive(p, world, calls + [c], answers + [a])
    ensures DryOnwards(program, p, world, calls, answers, fuel) ==
            DryOnwards(program, p, world, calls + [c], answers + [a], fuel - 1)
    ensures GuestOnwards(program, view, tape, calls, answers, fuel) ==
            GuestOnwards(program, view, tape, calls + [c], answers + [a], fuel - 1)
  {
    DryUnfold(program, p, world, calls, answers, c, fuel);
    GuestUnfold(program, view, tape, calls, answers, c, fuel);
    hide HostCall, Seen, AnsweredLive, AnswerTo, StateAfter, GuestFrom, DryFrom;
    var dry := DryOnwards(program, p, world, calls, answers, fuel);
    assert AnswerTo(view, tape, dry.calls[..|calls|], dry.calls[|calls|]) == a;
  }

  lemma BothStopped(program: Program, p: OraclePolicy, world: World, view: View, tape: Tape,
                    calls: seq<Call>, answers: seq<Answer>, fuel: nat)
    requires !program(answers).Invoke? || fuel == 0
    ensures DryOnwards(program, p, world, calls, answers, fuel) ==
            GuestOnwards(program, view, tape, calls, answers, fuel)
    ensures DryOnwards(program, p, world, calls, answers, fuel).calls == calls
    ensures DryOnwards(program, p, world, calls, answers, fuel).answers == answers
  {
    hide Seen, StateAfter;
  }

  /** As long as the guest gives the recorded answers, it is in step with the dry run. */
  lemma {:induction false} InStep(program: Program, p: OraclePolicy, world: World, view: View, tape: Tape,
                                  calls: seq<Call>, answers: seq<Answer>, fuel: nat, n: nat)
    requires AnsweredLive(p, world, calls, answers) && |calls| <= n
    requires Agrees(view, tape, DryOnwards(program, p, world, calls, answers, fuel), |calls|, n)
    ensures SameUpTo(DryOnwards(program, p, world, calls, answers, fuel),
                     GuestOnwards(program, view, tape, calls, answers, fuel), n)
    decreases fuel
  {
    hide HostCall, Seen, AnsweredLive, DryOnwards, GuestOnwards, SameUpTo, AnswerTo, Agrees;
    if !program(answers).Invoke? || fuel == 0 {
      BothStopped(program, p, world, view, tape, calls, answers, fuel);
      SameRuns(view, tape, DryOnwards(program, p, world, calls, answers, fuel), |calls|, n);
    } else if |calls| < n {
      var c := program(answers).c;
      var a := HostCall(p, world, Seen(ViewOf(p), calls), c).0;
      BothStep(program, p, world, view, tape, calls, answers, c, a, fuel, n);
      AgreesLater(view, tape, DryOnwards(program, p, world, calls, answers, fuel), |calls|, n);
      InStep(program, p, world, view, tape, calls + [c], answers + [a], fuel - 1, n);
    } else {
      StillRunning(program, p, world, calls, answers, fuel);
      InStepSoFar(program, p, world, view, tape, calls, answers, fuel);
    }
  }

  lemma SameRuns(view: View, tape: Tape, r: Run, lo: nat, n: nat)
    requires Agrees(view, tape, r, lo, n)
    ensures SameUpTo(r, r, n)
  {
    hide AnswerTo;
  }

  lemma AgreesLater(view: View, tape: Tape, dry: Run, lo: nat, hi: nat)
    requires Agrees(view, tape, dry, lo, hi)
    ensures Agrees(view, tape, dry, lo + 1, hi)
  {
    hide AnswerTo;
  }

  lemma StillRunning(program: Program, p: OraclePolicy, world: World, calls: seq<Call>, answers: seq<Answer>,
                     fuel: nat)
    requires AnsweredLive(p, world, calls, answers) && program(answers).Invoke? && fuel > 0
    ensures |calls| < |DryOnwards(program, p, world, calls, answers, fuel).calls|
  {
    DryUnfold(program, p, world, calls, answers, program(answers).c, fuel);
  }

  lemma InStepSoFar(program: Program, p: OraclePolicy, world: World, view: View, tape: Tape,
                    calls: seq<Call>, answers: seq<Answer>, fuel: nat)
    requires AnsweredLive(p, world, calls, answers)
    requires |calls| < |DryOnwards(program, p, world, calls, answers, fuel).calls|
    ensures SameUpTo(DryOnwards(program, p, world, calls, answers, fuel),
                     GuestOnwards(program, view, tape, calls, answers, fuel), |calls|)
  {
    DryRunAnswered(program, p, world, calls, answers, fuel);
    GuestPrefix(program, view, tape, calls, answers, StateAfter(view, tape, calls), fuel);
    hide HostCall, Seen, StateAfter, GuestFrom, DryFrom;
    var dry := DryOnwards(program, p, world, calls, answers, fuel);
    assert dry.calls[..|calls|] == calls && dry.answers[..|calls|] == answers;
  }

  lemma {:induction false} GuestPrefix(program: Program, view: View, tape: Tape, calls: seq<Call>,
                                       answers: seq<Answer>, s: GuestState, fuel: nat)
    ensures var r := GuestFrom(program, view, tape, calls, answers, s, fuel);
            calls <= r.calls && answers <= r.answers
    decreases fuel
  {
    hide GuestCall;
    match program(answers)
    case Return(_) =>
    case Abort(_) =>
    case Invoke(c) =>
      if fuel > 0 {
        var (a, s') := GuestCall(view, tape, s, c);
        GuestPrefix(program, view, tape, calls + [c], answers + [a], s', fuel - 1);
        var r := GuestFrom(program, view, tape, calls, answers, s, fuel);
        PrefixShorter(calls, c, r.calls);
        PrefixShorter(answers, a, r.answers);
      }
  }

  // ----- The cursor behind the calls -----

  function Denials(view: View, calls: seq<Call>): nat {
    if calls == [] then 0
    else Denials(view, calls[..|calls| - 1]) + if Permits(view, calls[|calls| - 1]) then 0 else 1
  }

  lemma {:induction false} ForwardedAndDenied(view: View, calls: seq<Call>)
    requires |calls| <= view.maxToolCalls
    ensures |Forwarded(view, calls)| + Denials(view, calls) == |calls|
  {
    if calls != [] { ForwardedAndDenied(view, calls[..|calls| - 1]); }
  }

  /** Within the budget and the tape, the cursor after any number of calls is that number minus the denials so far. */
  lemma CursorLagsByDenials(view: View, tape: Tape, calls: seq<Call>)
    requires |calls| <= view.maxToolCalls && |calls| <= |tape|
    ensures StateAfter(view, tape, calls).cursor + Denials(view, calls) == |calls|
  {
    ForwardedAndDenied(view, calls);
    StateClosedForm(view, tape, calls);
  }

  ghost predicate AllPermitted(view: View, calls: seq<Call>) { forall c | c in calls :: Permits(view, c) }

  lemma {:induction false} NoDenials(view: View, calls: seq<Call>)
    ensures Denials(view, calls) == 0 <==> AllPermitted(view, calls)
  {
    hide Permits, AllPermitted;
    if calls == [] {
      NothingDenied(view);
    } else {
      NoDenials(view, calls[..|calls| - 1]);
      LastPermitted(view, calls);
    }
  }

  lemma NothingDenied(view: View)
    ensures AllPermitted(view, [])
  {}

  lemma LastPermitted(view: View, calls: seq<Call>)
    requires calls != []
    ensures AllPermitted(view, calls) <==>
            AllPermitted(view, calls[..|calls| - 1]) && Permits(view, calls[|calls| - 1])
  {
    hide Permits;
    assert calls == calls[..|calls| - 1] + [calls[|calls| - 1]];
  }

  // ----- Exactly when a replay reproduces the dry run -----

  lemma DryRunIsLive(program: Program, p: OraclePolicy, world: World, fuel: nat)
    ensures var dry := DryRun(program, p, world, fuel);
            AnsweredLive(p, world, dry.calls, dry.answers) && |dry.calls| == |dry.answers| &&
            dry == DryOnwards(program, p, world, [], [], fuel)
  {
    DryRunAnswered(program, p, world, [], [], fuel);
  }

  /** A denied call gets the same refusal on both sides. */
  lemma DenialAgrees(program: Program, p: OraclePolicy, world: World, fuel: nat, i: nat)
    requires i < |DryRun(program, p, world, fuel).calls| && i < p.maxToolCalls
    requires !Permits(ViewOf(p), DryRun(program, p, world, fuel).calls[i])
    ensures var dry := DryRun(program, p, world, fuel);
            |dry.answers| == |dry.calls| && dry.answers[i] == Denial(ViewOf(p), dry.calls[i]) &&
            AnswerTo(ViewOf(p), dry.answers, dry.calls[..i], dry.calls[i]) == dry.answers[i]
  {
    DryRunIsLive(program, p, world, fuel);
    var dry := DryRun(program, p, world, fuel);
    HostStep(p, world, dry.calls[..i], dry.calls[i]);
  }

  /** A permitted call that follows permitted calls only is answered from its own tape entry. */
  lemma PermittedAgrees(view: View, dry: Run, i: nat)
    requires i < |dry.calls| == |dry.answers| && i < view.maxToolCalls
    requires Permits(view, dry.calls[i]) && AllPermitted(view, dry.calls[..i])
    ensures AnswerTo(view, dry.answers, dry.calls[..i], dry.calls[i]) == dry.answers[i]
  {
    ForwardedAndDenied(view, dry.calls[..i]);
    NoDenials(view, dry.calls[..i]);
  }

  /** Guest and dry run agree call by call through the first denied call, refusal message included. */
  lemma AgreementThroughFirstDenial(program: Program, p: OraclePolicy, world: World, fuel: nat, n: nat)
    requires n <= |DryRun(program, p, world, fuel).calls| && n <= p.maxToolCalls
    requires n > 0 ==> AllPermitted(ViewOf(p), DryRun(program, p, world, fuel).calls[..n - 1])
    ensures var dry := DryRun(program, p, world, fuel);
            SameUpTo(dry, GuestRun(program, ViewOf(p), dry.answers, fuel), n)
  {
    var dry, view := DryRun(program, p, world, fuel), ViewOf(p);
    DryRunIsLive(program, p, world, fuel);
    forall i | 0 <= i < n
      ensures AnswerTo(view, dry.answers, dry.calls[..i], dry.calls[i]) == dry.answers[i]
    {
      assert dry.calls[..i] <= dry.calls[..n - 1];
      if Permits(view, dry.calls[i]) {
        PermittedAgrees(view, dry, i);
      } else {
        DenialAgrees(program, p, world, fuel, i);
      }
    }
    InStepFromStart(program, p, world, view, dry.answers, fuel, n);
  }

  lemma InStepFromStart(program: Program, p: OraclePolicy, world: World, view: View, tape: Tape, fuel: nat, n: nat)
    requires Agrees(view, tape, DryRun(program, p, world, fuel), 0, n)
    ensures SameUpTo(DryRun(program, p, world, fuel), GuestRun(program, view, tape, fuel), n)
  {
    DryRunIsLive(program, p, world, fuel);
    assert AnsweredLive(p, world, [], []);
    assert GuestOnwards(program, view, tape, [], [], fuel) == GuestRun(program, view, tape, fuel);
    InStep(program, p, world, view, tape, [], [], fuel, n);
  }

  /** Some permitted call comes after a denied one. */
  ghost predicate PermittedAfterDenied(view: View, calls: seq<Call>) {
    exists i, j :: 0 <= i < j < |calls| && !Permits(view, calls[i]) && Permits(view, calls[j])
  }

  lemma AllAgree(program: Program, p: OraclePolicy, world: World, fuel: nat)
    requires var dry := DryRun(program, p, world, fuel);
             |dry.calls| <= p.maxToolCalls && !PermittedAfterDenied(ViewOf(p), dry.calls)
    ensures var dry := DryRun(program, p, world, fuel);
            GuestRun(program, ViewOf(p), dry.answers, fuel) == dry
  {
    var dry, view := DryRun(program, p, world, fuel), ViewOf(p);
    DryRunIsLive(program, p, world, fuel);
    forall i | 0 <= i < |dry.calls|
      ensures AnswerTo(view, dry.answers, dry.calls[..i], dry.calls[i]) == dry.answers[i]
    {
      if Permits(view, dry.calls[i]) {
        PermittedAgrees(view, dry, i);
      } else {
        DenialAgrees(program, p, world, fuel, i);
      }
    }
    InStepFromStart(program, p, world, view, dry.answers, fuel, |dry.calls|);
  }

  // ----- The texts of the refusals -----

  /** The prefix reserved for the messages of the policy layer. */
  predicate PolicyText(m: Bytes) { |m| > 8 && m[..8] == Ascii("policy: ") }

  lemma MessageTexts(tool: Bytes, domain: Bytes, max: nat)
    ensures PolicyText(MethodMessage(tool)) && MethodMessage(tool)[8] == 72
    ensures PolicyText(DomainMessage(domain)) && DomainMessage(domain)[8] == 100
    ensures PolicyText(LimitMessage(max)) && LimitMessage(max)[8] == 116
    ensures PolicyText(SchemaMessage(domain)) && SchemaMessage(domain)[8] == 114
    ensures PolicyText(NotJsonMessage(tool)) && NotJsonMessage(tool)[8] == 114
  {
    PrefixText(Ascii("policy: HTTP method '"), tool + Ascii("' is not in allowed_http_methods"));
    PrefixText(Ascii("policy: domain '"), domain + Ascii("' is not in allowed_domains"));
    PrefixText(Ascii("policy: tool call limit "), Decimal(max) + Ascii(" exceeded"));
    PrefixText(Ascii("policy: response is not valid JSON: "), tool);
    PrefixText(Ascii("policy: response from '"), domain + Ascii("' does not match registered schema"));
    Regroup(Ascii("policy: HTTP method '"), tool, Ascii("' is not in allowed_http_methods"));
    Regroup(Ascii("policy: domain '"), domain, Ascii("' is not in allowed_domains"));
    Regroup(Ascii("policy: tool call limit "), Decimal(max), Ascii(" exceeded"));
    Regroup(Ascii("policy: response from '"), domain, Ascii("' does not match registered schema"));
  }

  lemma Regroup(a: Bytes, b: Bytes, c: Bytes)
    ensures a + b + c == a + (b + c)
  {}

  lemma PrefixText(a: Bytes, b: Bytes)
    requires |a| > 8
    ensures (a + b)[..8] == a[..8] && (a + b)[8] == a[8]
  {}

  /** The live host never answers with a text of the policy layer. */
  ghost predicate Genuine(world: World) {
    forall h: seq<Call> :: world.live(h).Err? ==> !PolicyText(world.live(h).error)
  }

  lemma DenialText(view: View, c: Call)
    requires !Permits(view, c)
    ensures PolicyText(Denial(view, c).error) && Denial(view, c).error[8] in {72, 100}
  {
    MessageTexts(c.name, DomainOf(UrlOf(c)), 0);
  }

  /** A response check refuses with a text of its own. */
  lemma ResponseText(p: OraclePolicy, url: Bytes, response: Bytes, parse: Parser)
    requires CheckResponseSchema(p, url, response, parse).Denied?
    ensures CheckResponseSchema(p, url, response, parse).message != []
    ensures PolicyText(CheckResponseSchema(p, url, response, parse).message)
    ensures CheckResponseSchema(p, url, response, parse).message[8] == 114
  {
    hide PolicyText, NotJsonMessage, SchemaMessage, SchemaMatches, Lookup;
    var reason := parse(response);
    MessageTexts(if reason.Err? then reason.error else [], DomainOf(url), 0);
  }

  lemma LiveText(p: OraclePolicy, world: World, seen: seq<Call>, c: Call)
    requires Genuine(world) && Permits(ViewOf(p), c)
    ensures var a := HostCall(p, world, seen, c).0;
            a.Err? && PolicyText(a.error) ==> a.error[8] == 114
  {
    hide PolicyText, CheckResponseSchema;
    SameVerdict(p, c.name, UrlOf(c));
    hide *;
    LiveAnswer(p, world, seen, c);
    var live := world.live(seen + [c]);
    NotPolicyText(world, seen + [c]);
    if HttpTool(c.name) && live.Ok? && CheckResponseSchema(p, UrlOf(c), live.value, world.parse).Denied? {
      ResponseText(p, UrlOf(c), live.value, world.parse);
    }
  }

  lemma NotPolicyText(world: World, h: seq<Call>)
    requires Genuine(world)
    ensures world.live(h).Err? ==> !PolicyText(world.live(h).error)
  {}

  /** A permitted call is answered by the live host, unless the response check refuses what it says. */
  lemma LiveAnswer(p: OraclePolicy, world: World, seen: seq<Call>, c: Call)
    requires Permits(ViewOf(p), c)
    ensures var live := world.live(seen + [c]);
            var a := HostCall(p, world, seen, c).0;
            a == if HttpTool(c.name) && live.Ok? &&
                    CheckResponseSchema(p, UrlOf(c), live.value, world.parse).Denied?
                 then Err(CheckResponseSchema(p, UrlOf(c), live.value, world.parse).message)
                 else live
  {
    hide CheckResponseSchema, MethodMessage, DomainMessage, HttpTool;
    SameVerdict(p, c.name, UrlOf(c));
    hide DomainOf;
  }

  // ----- Past the boundary the runs differ -----

  lemma OverBudgetDiffers(program: Program, p: OraclePolicy, world: World, fuel: nat)
    requires Genuine(world) && |DryRun(program, p, world, fuel).calls| > p.maxToolCalls
    ensures var dry := DryRun(program, p, world, fuel);
            |dry.answers| == |dry.calls| &&
            AnswerTo(ViewOf(p), dry.answers, dry.calls[..p.maxToolCalls], dry.calls[p.maxToolCalls]) !=
            dry.answers[p.maxToolCalls]
  {
    var dry, view, i := DryRun(program, p, world, fuel), ViewOf(p), p.maxToolCalls;
    var c, before := dry.calls[i], dry.calls[..i];
    DryRunIsLive(program, p, world, fuel);
    MessageTexts([], [], i);
    HostStep(p, world, before, c);
    hide LimitMessage, HostCall, PolicyText;
    if Permits(view, c) { LiveText(p, world, Seen(view, before), c); } else { DenialText(view, c); }
  }

  lemma FirstDenied(view: View, calls: seq<Call>, i: nat) returns (d: nat)
    requires i < |calls| && !Permits(view, calls[i])
    ensures d <= i && !Permits(view, calls[d]) && AllPermitted(view, calls[..d])
  {
    hide Permits;
    d := 0;
    while Permits(view, calls[d])
      invariant d <= i && AllPermitted(view, calls[..d])
      decreases i - d
    {
      assert calls[..d + 1] == calls[..d] + [calls[d]];
      d := d + 1;
    }
  }

  lemma FirstPermittedFrom(view: View, calls: seq<Call>, d: nat, k: nat) returns (j: nat)
    requires d < k < |calls| && Permits(view, calls[k]) && |Forwarded(view, calls[..d + 1])| == d
    ensures d < j <= k && Permits(view, calls[j]) && |Forwarded(view, calls[..j])| == d
  {
    hide Permits;
    j := d + 1;
    while !Permits(view, calls[j])
      invariant d < j <= k && |Forwarded(view, calls[..j])| == d
      decreases k - j
    {
      assert calls[..j + 1][..j] == calls[..j];
      j := j + 1;
    }
  }

  lemma DeniedIsNotForwarded(view: View, calls: seq<Call>, d: nat)
    requires d < |calls| <= view.maxToolCalls && !Permits(view, calls[d]) && AllPermitted(view, calls[..d])
    ensures |Forwarded(view, calls[..d + 1])| == d
  {
    ForwardedAndDenied(view, calls[..d]);
    NoDenials(view, calls[..d]);
    assert calls[..d + 1][..d] == calls[..d];
  }

  /** The first permitted call after a denied one is answered with the recorded refusal. */
  lemma FirstPermittedAfterDenied(view: View, dry: Run) returns (d: nat, j: nat)
    requires |dry.calls| == |dry.answers| && |dry.calls| <= view.maxToolCalls
    requires PermittedAfterDenied(view, dry.calls)
    ensures d < j < |dry.calls| && !Permits(view, dry.calls[d]) && Permits(view, dry.calls[j])
    ensures AnswerTo(view, dry.answers, dry.calls[..j], dry.calls[j]) == dry.answers[d]
  {
    var i, k :| 0 <= i < k < |dry.calls| && !Permits(view, dry.calls[i]) && Permits(view, dry.calls[k]);
    d := FirstDenied(view, dry.calls, i);
    DeniedIsNotForwarded(view, dry.calls, d);
    j := FirstPermittedFrom(view, dry.calls, d, k);
    hide Permits, Forwarded, PermittedAfterDenied;
  }

  lemma OutOfOrderDiffers(program: Program, p: OraclePolicy, world: World, fuel: nat) returns (j: nat)
    requires Genuine(world) && |DryRun(program, p, world, fuel).calls| <= p.maxToolCalls
    requires PermittedAfterDenied(ViewOf(p), DryRun(program, p, world, fuel).calls)
    ensures var dry := DryRun(program, p, world, fuel);
            j < |dry.calls| == |dry.answers| &&
            AnswerTo(ViewOf(p), dry.answers, dry.calls[..j], dry.calls[j]) != dry.answers[j]
  {
    var dry, view := DryRun(program, p, world, fuel), ViewOf(p);
    DryRunIsLive(program, p, world, fuel);
    var d;
    d, j := FirstPermittedAfterDenied(view, dry);
    DenialAgrees(program, p, world, fuel, d);
    DenialText(view, dry.calls[d]);
    LiveText(p, world, Seen(view, dry.calls[..j]), dry.calls[j]);
  }

  lemma SameRunAgrees(program: Program, view: View, tape: Tape, fuel: nat, run: Run, i: nat)
    requires GuestRun(program, view, tape, fuel) == run && i < |run.calls|
    ensures |run.answers| == |run.calls| && AnswerTo(view, tape, run.calls[..i], run.calls[i]) == run.answers[i]
  {
    NothingAnswered(view, tape);
    GuestRunAnswered(program, view, tape, [], [], fuel);
  }

  /** The exact boundary. A guest replay of the tape a dry run recorded reproduces the dry run, calls, answers and
      outcome, if and only if the dry run stayed within the call budget and made no permitted call after a denied
      one. */
  lemma ReplayBoundary(program: Program, p: OraclePolicy, world: World, fuel: nat)
    requires Genuine(world)
    ensures var dry := DryRun(program, p, world, fuel);
            GuestRun(program, ViewOf(p), dry.answers, fuel) == dry <==>
            |dry.calls| <= p.maxToolCalls && !PermittedAfterDenied(ViewOf(p), dry.calls)
  {
    var dry, view := DryRun(program, p, world, fuel), ViewOf(p);
    hide DryRun, GuestRun, AnswerTo;
    if |dry.calls| > p.maxToolCalls {
      OverBudgetDiffers(program, p, world, fuel);
      if GuestRun(program, view, dry.answers, fuel) == dry {
        SameRunAgrees(program, view, dry.answers, fuel, dry, p.maxToolCalls);
      }
    } else if PermittedAfterDenied(view, dry.calls) {
      var j := OutOfOrderDiffers(program, p, world, fuel);
      if GuestRun(program, view, dry.answers, fuel) == dry {
        SameRunAgrees(program, view, dry.answers, fuel, dry, j);
      }
    } else {
      AllAgree(program, p, world, fuel);
    }
  }

  /** End to end, from the policy document: the proof of the dry run exists if and only if the entries are within the
      payload cap as the machine reads it, the calls within the budget, and no permitted call follows a denied one. */
  lemma DryRunIsProvable(p: OraclePolicy, world: World, fuel: nat, input: GuestInput, backend: Backend)
    requires Encodable(p) && AllUtf8(p, backend.utf8) && Genuine(world)
    requires input.policyCanonical == Canonical(p) && input.tape == DryRun(input.program, p, world, fuel).answers
    requires DryRun(input.program, p, world, fuel).outcome.Returned?
    ensures var dry := DryRun(input.program, p, world, fuel);
            Replayed(input, fuel, backend) ==
            Ok(Proven(dry, Committed(input, dry.outcome.value, backend.sha256(Canonical(p)), backend))) <==>
            WithinCap(dry.answers, CapOf(ViewOf(p), backend.usize)) && |dry.calls| <= p.maxToolCalls &&
            !PermittedAfterDenied(ViewOf(p), dry.calls)
  {
    PolicyRoundTrip(p, backend.utf8);
    CanonicalNotEmpty(p);
    ReplayBoundary(input.program, p, world, fuel);
    var dry := DryRun(input.program, p, world, fuel);
    ReplayReproduces(input, ViewOf(p), fuel, backend, dry);
    hide *;
  }

  /** A replay under parsed policy bytes reproduces a run exactly when the entries fit and the guest run is that run. */
  lemma ReplayReproduces(input: GuestInput, view: View, fuel: nat, backend: Backend, dry: Run)
    requires input.policyCanonical != [] && Parse(input.policyCanonical, backend.utf8) == Ok(view)
    requires dry.outcome.Returned?
    ensures Replayed(input, fuel, backend) ==
            Ok(Proven(dry, Committed(input, dry.outcome.value, backend.sha256(input.policyCanonical), backend))) <==>
            WithinCap(input.tape, CapOf(view, backend.usize)) && GuestRun(input.program, view, input.tape, fuel) == dry
  {
    hide Parse, GuestRun, CapOf, Committed;
  }

  lemma CanonicalNotEmpty(p: OraclePolicy)
    ensures Canonical(p) != []
  {
    hide U64, Blobs, SchemaMap, Blob;
  }

  // ----- Without a policy around the tape -----

  /** Replaying over the bare tape is bit-identical to the dry run that recorded it, whatever the policy of that dry run
      and whatever was denied: every call, permitted or not, has its own entry. */
  lemma {:induction false} BareTapeReplay(program: Program, p: OraclePolicy, world: World, calls: seq<Call>,
                                          answers: seq<Answer>, fuel: nat)
    requires AnsweredLive(p, world, calls, answers)
    ensures var dry := DryOnwards(program, p, world, calls, answers, fuel);
            TapeFrom(program, dry.answers, calls, answers, |calls|, fuel) == dry
    decreases fuel
  {
    hide HostCall, DryOnwards, AnsweredLive, TapeFrom, Seen;
    if !program(answers).Invoke? || fuel == 0 {
      NoFurtherCall(program, p, world, calls, answers, fuel);
    } else {
      var c := program(answers).c;
      var a := HostCall(p, world, Seen(ViewOf(p), calls), c).0;
      OneMoreCall(program, p, world, calls, answers, c, a, fuel);
      BareTapeReplay(program, p, world, calls + [c], answers + [a], fuel - 1);
    }
  }

  lemma OneMoreCall(program: Program, p: OraclePolicy, world: World, calls: seq<Call>, answers: seq<Answer>, c: Call,
                    a: Answer, fuel: nat)
    requires AnsweredLive(p, world, calls, answers) && program(answers) == Invoke(c) && fuel > 0
    requires a == HostCall(p, world, Seen(ViewOf(p), calls), c).0
    ensures var dry := DryOnwards(program, p, world, calls, answers, fuel);
            dry == DryOnwards(program, p, world, calls + [c], answers + [a], fuel - 1) &&
            AnsweredLive(p, world, calls + [c], answers + [a]) &&
            TapeFrom(program, dry.answers, calls, answers, |calls|, fuel) ==
            TapeFrom(program, dry.answers, calls + [c], answers + [a], |calls + [c]|, fuel - 1)
  {
    DryUnfold(program, p, world, calls, answers, c, fuel);
    hide HostCall, Seen, DryFrom;
  }

  lemma NoFurtherCall(program: Program, p: OraclePolicy, world: World, calls: seq<Call>, answers: seq<Answer>,
                      fuel: nat)
    requires !program(answers).Invoke? || fuel == 0
    ensures var dry := DryOnwards(program, p, world, calls, answers, fuel);
            TapeFrom(program, dry.answers, calls, answers, |calls|, fuel) == dry
  {}

  lemma UnpolicedReplayIsExact(program: Program, p: OraclePolicy, world: World, fuel: nat)
    ensures var dry := DryRun(program, p, world, fuel);
            TapeRun(program, dry.answers, fuel) == dry
  {
    DryRunIsLive(program, p, world, fuel);
    assert AnsweredLive(p, world, [], []);
    BareTapeReplay(program, p, world, [], [], fuel);
  }

  // ----- A run past the boundary -----

  /** A program that survives a denied HTTP call and then makes a permitted one. */
  function Retrying(): Program {
    (answers: seq<Answer>) =>
      if |answers| == 0 then Invoke(Call(Ascii("http_get"), None, []))
      else if |answers| == 1 then Invoke(Call([], None, []))
      else Return(if answers[1].Ok? then 1 else 0)
  }

  function PostOnly(): OraclePolicy {
    OraclePolicy([], [Ascii("http_post")], 16, 65536, UnattestedPermitted, None, [])
  }

  /** Replay under a policy is not always bit-identical: the dry run returns 1, the replay of its own tape returns 0. */
  lemma ReplayCanDiverge()
    ensures var world := World((h: seq<Call>) => Ok([]), (b: Bytes) => Err([]));
            var dry := DryRun(Retrying(), PostOnly(), world, 2);
            dry.outcome == Returned(1) &&
            GuestRun(Retrying(), ViewOf(PostOnly()), dry.answers, 2).outcome == Returned(0)
  {
    var world := World((h: seq<Call>) => Ok([]), (b: Bytes) => Err([]));
    var p, program := PostOnly(), Retrying();
    var c0, c1 := Call(Ascii("http_get"), None, []), Call([], None, []);
    var refusal: Answer, ok: Answer := Err(MethodMessage(Ascii("http_get"))), Ok([]);
    NamesDiffer();
    assert p.CheckHttpCall(c0.name, UrlOf(c0)) == Denied(MethodMessage(Ascii("http_get")));
    SameVerdict(p, c0.name, UrlOf(c0));
    hide Ascii, MethodMessage, LimitMessage, ExhaustedMessage, Sort;
    assert HostCall(p, world, [], c0) == (refusal, []);
    assert HostCall(p, world, [], c1).0 == ok;
    var seen := HostCall(p, world, [], c1).1;
    assert [] + [c0] == [c0] && [] + [refusal] == [refusal];
    assert DryFrom(program, p, world, [c0] + [c1], [refusal] + [ok], seen, 0).answers == [refusal, ok];
    var dry := DryRun(program, p, world, 2);
    assert dry == DryFrom(program, p, world, [c0], [refusal], [], 1);
    assert dry == DryFrom(program, p, world, [c0] + [c1], [refusal] + [ok], seen, 0);
    var view, tape := ViewOf(p), dry.answers;
    assert GuestCall(view, tape, GuestState(0, 0), c0) == (refusal, GuestState(1, 0));
    assert GuestCall(view, tape, GuestState(1, 0), c1) == (refusal, GuestState(2, 1));
    assert GuestRun(program, view, tape, 2) ==
           GuestFrom(program, view, tape, [c0], [refusal], GuestState(1, 0), 1);
    assert GuestFrom(program, view, tape, [c0], [refusal], GuestState(1, 0), 1) ==
           GuestFrom(program, view, tape, [c0] + [c1], [refusal] + [refusal], GuestState(2, 1), 0);
  }

  lemma NamesDiffer()
    ensures HttpTool(Ascii("http_get")) && Ascii("http_get") != Ascii("http_post") && !HttpTool([])
  {
    assert |Ascii("http_get")| != |Ascii("http_post")|;
  }
}
