/** When an execution that violates the policy can be replayed: exactly which runs have a replay, which programs never
    replay a refused attempt, and a program that does. */
module Enforcement {
  import opened Options
  import opened ByteStrings
  import opened OutputWord
  import opened Policy
  import opened PolicyView
  import opened Hosts
  import opened GuestInputs
  import opened Replay

  // ----- Runs without a tape -----

  /** Attempt i goes through: it is within the budget and the policy permits it. */
  predicate Passes(view: View, calls: seq<Call>, i: nat)
    requires i < |calls|
  {
    i < view.maxToolCalls && Permits(view, calls[i])
  }

  /** The refusal of an attempt that does not go through. */
  function Refusal(view: View, calls: seq<Call>, i: nat): Answer
    requires i < |calls| && !Passes(view, calls, i)
  {
    if i >= view.maxToolCalls then Err(LimitMessage(view.maxToolCalls)) else Denial(view, calls[i])
  }

  /** The answers that must come from the tape: those of the attempts that go through, in order. */
  function Supplied(view: View, calls: seq<Call>, answers: seq<Answer>): (s: Tape)
    requires |calls| == |answers|
    ensures |s| == |Forwarded(view, calls)|
  {
    if calls == [] then []
    else
      var n := |calls| - 1;
      var before := Supplied(view, calls[..n], answers[..n]);
      if Passes(view, calls, n) then before + [answers[n]] else before
  }

  /** A way the program can go, whatever the tools answer: each call is what it does after the answers so far, refused
      attempts are answered with their refusals, and in the end it returns v. */
  ghost predicate History(program: Program, view: View, calls: seq<Call>, answers: seq<Answer>, v: I64) {
    |calls| == |answers| &&
    (forall i: nat | i < |calls| :: program(answers[..i]) == Invoke(calls[i])) &&
    program(answers) == Return(v) &&
    forall i: nat | i < |calls| && !Passes(view, calls, i) :: answers[i] == Refusal(view, calls, i)
  }

  ghost predicate HasRefusal(view: View, calls: seq<Call>) { exists i: nat :: i < |calls| && !Passes(view, calls, i) }

  /** What the tape host answers to its k-th call. */
  function TapeAnswer(tape: Tape, k: nat): Answer { if k < |tape| then tape[k] else Err(ExhaustedMessage()) }

  ghost predicate ComesFrom(supplied: Tape, tape: Tape) {
    forall k: nat | k < |supplied| :: supplied[k] == TapeAnswer(tape, k)
  }

  // ----- Histories are the runs -----

  lemma {:induction false} SuppliedPrefix(view: View, calls: seq<Call>, answers: seq<Answer>, i: nat)
    requires |calls| == |answers| && i <= |calls|
    ensures Supplied(view, calls[..i], answers[..i]) <= Supplied(view, calls, answers)
    decreases |calls| - i
  {
    if i == |calls| {
      assert calls[..i] == calls && answers[..i] == answers;
    } else {
      SuppliedPrefix(view, calls, answers, i + 1);
      assert calls[..i + 1][..i] == calls[..i] && answers[..i + 1][..i] == answers[..i];
    }
  }

  /** The answer of an attempt that goes through is the next one supplied. */
  lemma SuppliedAt(view: View, calls: seq<Call>, answers: seq<Answer>, i: nat)
    requires |calls| == |answers| && i < |calls| && Passes(view, calls, i)
    ensures var k := |Forwarded(view, calls[..i])|;
            k < |Supplied(view, calls, answers)| && Supplied(view, calls, answers)[k] == answers[i]
  {
    SuppliedPrefix(view, calls, answers, i + 1);
    assert calls[..i + 1][..i] == calls[..i] && answers[..i + 1][..i] == answers[..i];
  }

  /** The guest gives the answers of the history, when the tape supplies them. */
  lemma HistoryAnswer(view: View, tape: Tape, calls: seq<Call>, answers: seq<Answer>, i: nat)
    requires |calls| == |answers| && i < |calls| && ComesFrom(Supplied(view, calls, answers), tape)
    requires !Passes(view, calls, i) ==> answers[i] == Refusal(view, calls, i)
    ensures AnswerTo(view, tape, calls[..i], calls[i]) == answers[i]
  {
    hide Supplied, Forwarded, Permits, LimitMessage, Denial, ExhaustedMessage;
    if Passes(view, calls, i) { SuppliedAt(view, calls, answers, i); }
  }

  lemma {:induction false} HistoryRuns(program: Program, view: View, tape: Tape, calls: seq<Call>, answers: seq<Answer>,
                                       v: I64, fuel: nat, i: nat)
    requires History(program, view, calls, answers, v) && ComesFrom(Supplied(view, calls, answers), tape)
    requires i <= |calls| && |calls| - i <= fuel
    ensures GuestOnwards(program, view, tape, calls[..i], answers[..i], fuel) == Run(calls, answers, Returned(v))
    decreases |calls| - i
  {
    hide Supplied, ComesFrom, AnswerTo, StateAfter, Passes, GuestCall;
    if i == |calls| {
      assert calls[..i] == calls && answers[..i] == answers;
    } else {
      HistoryAnswer(view, tape, calls, answers, i);
      GuestUnfold(program, view, tape, calls[..i], answers[..i], calls[i], fuel);
      assert calls[..i + 1] == calls[..i] + [calls[i]] && answers[..i + 1] == answers[..i] + [answers[i]];
      hide GuestFrom;
      HistoryRuns(program, view, tape, calls, answers, v, fuel - 1, i + 1);
    }
  }

  /** So far the calls are what the program does after the answers. */
  ghost predicate Follows(program: Program, calls: seq<Call>, answers: seq<Answer>) {
    |calls| == |answers| && forall i: nat | i < |calls| :: program(answers[..i]) == Invoke(calls[i])
  }

  lemma FollowsOn(program: Program, calls: seq<Call>, answers: seq<Answer>, c: Call, a: Answer)
    requires Follows(program, calls, answers) && program(answers) == Invoke(c)
    ensures Follows(program, calls + [c], answers + [a])
  {
    forall i: nat | i < |calls + [c]|
      ensures program((answers + [a])[..i]) == Invoke((calls + [c])[i])
    {
      assert (answers + [a])[..i] == answers[..i];
      if i == |calls| { assert answers[..i] == answers; }
    }
  }

  lemma {:induction false} RunFollows(program: Program, view: View, tape: Tape, calls: seq<Call>, answers: seq<Answer>,
                                      s: GuestState, fuel: nat)
    requires Follows(program, calls, answers)
    ensures var r := GuestFrom(program, view, tape, calls, answers, s, fuel);
            Follows(program, r.calls, r.answers) &&
            (r.outcome.Returned? ==> program(r.answers) == Return(r.outcome.value))
    decreases fuel
  {
    hide Follows, GuestCall;
    match program(answers)
    case Return(_) =>
    case Abort(_) =>
    case Invoke(c) =>
      if fuel > 0 {
        var (a, s') := GuestCall(view, tape, s, c);
        FollowsOn(program, calls, answers, c, a);
        RunFollows(program, view, tape, calls + [c], answers + [a], s', fuel - 1);
      }
  }

  /** Answers by the rules are refusals where they must be, and come from the tape everywhere else. */
  lemma {:induction false} AnsweredSupplied(view: View, tape: Tape, calls: seq<Call>, answers: seq<Answer>)
    requires AnsweredBy(view, tape, calls, answers)
    ensures ComesFrom(Supplied(view, calls, answers), tape)
    decreases |calls|
  {
    hide Supplied, AnswerTo, ComesFrom;
    if calls == [] {
      NothingSupplied(view, tape);
    } else {
      var n := |calls| - 1;
      AnsweredPrefix(view, tape, calls, answers);
      AnsweredSupplied(view, tape, calls[..n], answers[..n]);
      SuppliedStep(view, tape, calls, answers);
    }
  }

  lemma PassedAnswer(view: View, tape: Tape, calls: seq<Call>, n: nat)
    requires n < |calls| && Passes(view, calls, n)
    ensures AnswerTo(view, tape, calls[..n], calls[n]) == TapeAnswer(tape, |Forwarded(view, calls[..n])|)
  {
    hide LimitMessage, Denial, ExhaustedMessage, Permits;
  }

  lemma LastSupplied(view: View, calls: seq<Call>, answers: seq<Answer>)
    requires |calls| == |answers| && calls != []
    ensures var n := |calls| - 1;
            Supplied(view, calls, answers) ==
            Supplied(view, calls[..n], answers[..n]) + if Passes(view, calls, n) then [answers[n]] else []
  {
    hide Passes;
  }

  lemma SuppliedStep(view: View, tape: Tape, calls: seq<Call>, answers: seq<Answer>)
    requires |calls| == |answers| && calls != []
    requires var n := |calls| - 1;
             ComesFrom(Supplied(view, calls[..n], answers[..n]), tape) &&
             answers[n] == AnswerTo(view, tape, calls[..n], calls[n])
    ensures ComesFrom(Supplied(view, calls, answers), tape)
  {
    hide Supplied, Passes, AnswerTo, Forwarded, TapeAnswer;
    LastSupplied(view, calls, answers);
    if Passes(view, calls, |calls| - 1) { PassedAnswer(view, tape, calls, |calls| - 1); }
  }

  lemma NothingSupplied(view: View, tape: Tape)
    ensures ComesFrom(Supplied(view, [], []), tape)
  {}

  lemma AnsweredPrefix(view: View, tape: Tape, calls: seq<Call>, answers: seq<Answer>)
    requires AnsweredBy(view, tape, calls, answers) && calls != []
    ensures AnsweredBy(view, tape, calls[..|calls| - 1], answers[..|calls| - 1])
  {
    hide AnswerTo;
    var n := |calls| - 1;
    forall i | 0 <= i < n
      ensures answers[..n][i] == AnswerTo(view, tape, calls[..n][..i], calls[..n][i])
    {
      assert calls[..n][..i] == calls[..i];
    }
  }

  lemma RunIsHistory(program: Program, view: View, tape: Tape, fuel: nat, calls: seq<Call>, answers: seq<Answer>,
                     v: I64)
    requires GuestRun(program, view, tape, fuel) == Run(calls, answers, Returned(v))
    ensures History(program, view, calls, answers, v) && ComesFrom(Supplied(view, calls, answers), tape)
  {
    assert Follows(program, [], []);
    RunFollows(program, view, tape, [], [], GuestState(0, 0), fuel);
    NothingAnswered(view, tape);
    NothingCalled(view, tape);
    GuestRunAnswered(program, view, tape, [], [], fuel);
    AnsweredSupplied(view, tape, calls, answers);
    hide Supplied, GuestFrom, ComesFrom, LimitMessage, Denial, Permits;
    forall i: nat | i < |calls| && !Passes(view, calls, i)
      ensures answers[i] == Refusal(view, calls, i)
    {
      assert answers[i] == AnswerTo(view, tape, calls[..i], calls[i]);
    }
  }

  // ----- Exactly which runs have a replay -----

  /** The first k entries fit the cap, and the rest is what an exhausted tape answers. */
  ghost predicate SuppliedWithin(supplied: Tape, cap: nat, k: nat) {
    k <= |supplied| && WithinCap(supplied[..k], cap) &&
    forall j: nat | k <= j < |supplied| :: supplied[j] == Err(ExhaustedMessage())
  }

  ghost predicate Suppliable(supplied: Tape, cap: nat) { exists k: nat :: SuppliedWithin(supplied, cap, k) }

  /** Some tape within the cap supplies these answers exactly when they are suppliable. */
  lemma SuppliableFromTape(supplied: Tape, tape: Tape, cap: nat)
    requires ComesFrom(supplied, tape) && WithinCap(tape, cap)
    ensures Suppliable(supplied, cap)
  {
    hide EntryLength, ExhaustedMessage;
    var k := Min(|supplied|, |tape|);
    forall j | 0 <= j < k
      ensures EntryLength(supplied[..k][j]) <= cap
    {
      assert supplied[j] == TapeAnswer(tape, j);
    }
    assert SuppliedWithin(supplied, cap, k);
  }

  lemma TapeFromSuppliable(supplied: Tape, cap: nat, k: nat)
    requires SuppliedWithin(supplied, cap, k)
    ensures ComesFrom(supplied, supplied[..k]) && WithinCap(supplied[..k], cap)
  {
    hide ExhaustedMessage;
  }

  ghost predicate ReplaysAs(input: GuestInput, fuel: nat, backend: Backend, run: Run) {
    Replayed(input, fuel, backend).Ok? && Replayed(input, fuel, backend).value.run == run
  }

  lemma ReplayedRun(input: GuestInput, view: View, fuel: nat, backend: Backend, run: Run)
    requires input.policyCanonical != [] && Parse(input.policyCanonical, backend.utf8) == Ok(view)
    ensures ReplaysAs(input, fuel, backend, run) <==>
            WithinCap(input.tape, CapOf(view, backend.usize)) && run.outcome.Returned? &&
            GuestRun(input.program, view, input.tape, fuel) == run
  {
    hide GuestRun, Parse, Committed, CapOf;
  }

  /** A run has a tape from which it is replayed under the policy if and only if it is a history of the program: refused
      attempts get their refusals, and the other answers fit the cap until the tape ends. */
  lemma ReplayableExactly(input: GuestInput, view: View, fuel: nat, backend: Backend, calls: seq<Call>,
                          answers: seq<Answer>, v: I64)
    requires input.policyCanonical != [] && Parse(input.policyCanonical, backend.utf8) == Ok(view)
    requires |calls| <= fuel
    ensures (exists tape: Tape ::
               ReplaysAs(input.(tape := tape), fuel, backend, Run(calls, answers, Returned(v)))) <==>
            History(input.program, view, calls, answers, v) &&
            Suppliable(Supplied(view, calls, answers), CapOf(view, backend.usize))
  {
    hide Supplied, Suppliable, ReplaysAs, CapOf, GuestRun, Parse, ComesFrom, WithinCap;
    var run := Run(calls, answers, Returned(v));
    var cap := CapOf(view, backend.usize);
    if tape: Tape :| ReplaysAs(input.(tape := tape), fuel, backend, run) {
      ReplayedRun(input.(tape := tape), view, fuel, backend, run);
      RunIsHistory(input.program, view, tape, fuel, calls, answers, v);
      SuppliableFromTape(Supplied(view, calls, answers), tape, cap);
    }
    if History(input.program, view, calls, answers, v) && Suppliable(Supplied(view, calls, answers), cap) {
      HistoryHasTape(input, view, fuel, backend, calls, answers, v);
    }
  }

  lemma HistoryHasTape(input: GuestInput, view: View, fuel: nat, backend: Backend, calls: seq<Call>,
                       answers: seq<Answer>, v: I64)
    requires input.policyCanonical != [] && Parse(input.policyCanonical, backend.utf8) == Ok(view)
    requires |calls| <= fuel && History(input.program, view, calls, answers, v)
    requires Suppliable(Supplied(view, calls, answers), CapOf(view, backend.usize))
    ensures exists tape: Tape :: ReplaysAs(input.(tape := tape), fuel, backend, Run(calls, answers, Returned(v)))
  {
    var supplied, cap := Supplied(view, calls, answers), CapOf(view, backend.usize);
    var k: nat :| SuppliedWithin(supplied, cap, k);
    var tape := supplied[..k];
    TapeFromSuppliable(supplied, cap, k);
    HistoryFromStart(input.program, view, tape, calls, answers, v, fuel);
    hide *;
    ReplayedRun(input.(tape := tape), view, fuel, backend, Run(calls, answers, Returned(v)));
    assert ReplaysAs(input.(tape := tape), fuel, backend, Run(calls, answers, Returned(v)));
  }

  lemma HistoryFromStart(program: Program, view: View, tape: Tape, calls: seq<Call>, answers: seq<Answer>, v: I64,
                         fuel: nat)
    requires History(program, view, calls, answers, v) && ComesFrom(Supplied(view, calls, answers), tape)
    requires |calls| <= fuel
    ensures GuestRun(program, view, tape, fuel) == Run(calls, answers, Returned(v))
  {
    HistoryRuns(program, view, tape, calls, answers, v, fuel, 0);
    NothingCalled(view, tape);
    hide GuestFrom, History, Supplied;
    assert calls[..0] == [] && answers[..0] == [];
  }

  // ----- Exactly when a violation cannot be replayed -----

  /** The program can go on after a refused attempt and return, on answers a tape within the cap can hold. */
  ghost predicate SurvivesBy(program: Program, view: View, cap: nat, calls: seq<Call>, answers: seq<Answer>, v: I64) {
    History(program, view, calls, answers, v) && HasRefusal(view, calls) &&
    Suppliable(Supplied(view, calls, answers), cap)
  }

  ghost predicate SurvivesRefusal(program: Program, view: View, cap: nat) {
    exists calls: seq<Call>, answers: seq<Answer>, v: I64 :: SurvivesBy(program, view, cap, calls, answers, v)
  }

  /** The replay succeeds with a refused attempt in its run. */
  ghost predicate ReplaysRefused(input: GuestInput, view: View, fuel: nat, backend: Backend) {
    Replayed(input, fuel, backend).Ok? && HasRefusal(view, Replayed(input, fuel, backend).value.run.calls)
  }

  /** An execution with a refused attempt cannot be replayed, whatever the tape, if and only if the program does not
      survive refusals. */
  lemma EnforcedExactly(input: GuestInput, view: View, backend: Backend)
    requires input.policyCanonical != [] && Parse(input.policyCanonical, backend.utf8) == Ok(view)
    ensures (forall tape: Tape, fuel: nat :: !ReplaysRefused(input.(tape := tape), view, fuel, backend)) <==>
            !SurvivesRefusal(input.program, view, CapOf(view, backend.usize))
  {
    hide ReplaysAs, CapOf, Parse, Suppliable, Supplied, History;
    var cap := CapOf(view, backend.usize);
    if calls: seq<Call>, answers: seq<Answer>, v: I64 :| SurvivesBy(input.program, view, cap, calls, answers, v) {
      ReplayableExactly(input, view, |calls|, backend, calls, answers, v);
      var tape: Tape :|
        ReplaysAs(input.(tape := tape), |calls|, backend, Run(calls, answers, Returned(v)));
      ReplaysAsRun(input.(tape := tape), |calls|, backend, Run(calls, answers, Returned(v)));
      assert ReplaysRefused(input.(tape := tape), view, |calls|, backend);
    }
    forall tape: Tape, fuel: nat | ReplaysRefused(input.(tape := tape), view, fuel, backend)
      ensures SurvivesRefusal(input.program, view, cap)
    {
      RefusedReplaySurvives(input.(tape := tape), view, fuel, backend);
    }
  }

  lemma ReplaysAsRun(input: GuestInput, fuel: nat, backend: Backend, run: Run)
    requires ReplaysAs(input, fuel, backend, run)
    ensures Replayed(input, fuel, backend).Ok? && Replayed(input, fuel, backend).value.run == run
  {}

  /** A successful replay is a history of the program, on answers that its tape supplied. */
  lemma OkReplayIsHistory(input: GuestInput, view: View, fuel: nat, backend: Backend)
    requires input.policyCanonical != [] && Parse(input.policyCanonical, backend.utf8) == Ok(view)
    requires Replayed(input, fuel, backend).Ok?
    ensures var run := Replayed(input, fuel, backend).value.run;
            run.outcome.Returned? && History(input.program, view, run.calls, run.answers, run.outcome.value) &&
            Suppliable(Supplied(view, run.calls, run.answers), CapOf(view, backend.usize))
  {
    var run := Replayed(input, fuel, backend).value.run;
    assert ReplaysAs(input, fuel, backend, run);
    hide Replayed, History, Supplied, Suppliable, CapOf, GuestRun, Parse, ComesFrom, WithinCap;
    ReplayedRun(input, view, fuel, backend, run);
    RunIsHistory(input.program, view, input.tape, fuel, run.calls, run.answers, run.outcome.value);
    SuppliableFromTape(Supplied(view, run.calls, run.answers), input.tape, CapOf(view, backend.usize));
  }

  lemma RefusedReplaySurvives(input: GuestInput, view: View, fuel: nat, backend: Backend)
    requires input.policyCanonical != [] && Parse(input.policyCanonical, backend.utf8) == Ok(view)
    requires ReplaysRefused(input, view, fuel, backend)
    ensures SurvivesRefusal(input.program, view, CapOf(view, backend.usize))
  {
    OkReplayIsHistory(input, view, fuel, backend);
    hide Replayed, History, Supplied, Suppliable, CapOf, Parse;
    var run := Replayed(input, fuel, backend).value.run;
    assert SurvivesBy(input.program, view, CapOf(view, backend.usize), run.calls, run.answers, run.outcome.value);
  }

  // ----- A condition on the program -----

  /** After a refusal of the policy layer the program aborts, as one without pcall does. */
  ghost predicate StopsOnRefusal(program: Program) {
    forall answers: seq<Answer> ::
      answers != [] && answers[|answers| - 1].Err? && PolicyText(answers[|answers| - 1].error) ==>
      program(answers).Abort?
  }

  lemma RefusalText(view: View, calls: seq<Call>, i: nat)
    requires i < |calls| && !Passes(view, calls, i)
    ensures Refusal(view, calls, i).Err? && PolicyText(Refusal(view, calls, i).error)
  {
    hide PolicyText, LimitMessage;
    MessageTexts([], [], view.maxToolCalls);
    if i < view.maxToolCalls { DenialText(view, calls[i]); }
  }

  lemma StopsAfter(program: Program, answers: seq<Answer>, i: nat)
    requires StopsOnRefusal(program) && i < |answers| && answers[i].Err? && PolicyText(answers[i].error)
    ensures program(answers[..i + 1]).Abort?
  {
    hide PolicyText;
    var seen := answers[..i + 1];
    assert seen[|seen| - 1] == answers[i];
  }

  lemma GoesOnAfter(program: Program, view: View, calls: seq<Call>, answers: seq<Answer>, v: I64, i: nat)
    requires History(program, view, calls, answers, v) && i < |calls|
    ensures |calls| == |answers| && !program(answers[..i + 1]).Abort?
    ensures !Passes(view, calls, i) ==> answers[i] == Refusal(view, calls, i)
  {
    hide Refusal, Passes;
    if i + 1 == |calls| { assert answers[..i + 1] == answers; }
  }

  /** A program that stops on refusals has no refused attempt in any of its histories. */
  lemma StoppingHistory(program: Program, view: View, calls: seq<Call>, answers: seq<Answer>, v: I64)
    requires StopsOnRefusal(program) && History(program, view, calls, answers, v)
    ensures !HasRefusal(view, calls)
  {
    hide PolicyText, Refusal, Passes, History, StopsOnRefusal;
    forall i: nat | i < |calls|
      ensures Passes(view, calls, i)
    {
      GoesOnAfter(program, view, calls, answers, v, i);
      if !Passes(view, calls, i) {
        RefusalText(view, calls, i);
        StopsAfter(program, answers, i);
      }
    }
  }

  /** Such a program is enforced: every successful replay, under any policy bytes and from any tape, stayed within the
      budget and made permitted calls only. */
  lemma StoppingProgramIsEnforced(input: GuestInput, view: View, fuel: nat, backend: Backend)
    requires input.policyCanonical != [] && Parse(input.policyCanonical, backend.utf8) == Ok(view)
    requires StopsOnRefusal(input.program) && Replayed(input, fuel, backend).Ok?
    ensures var calls := Replayed(input, fuel, backend).value.run.calls;
            |calls| <= view.maxToolCalls && AllPermitted(view, calls)
  {
    OkReplayIsHistory(input, view, fuel, backend);
    var run := Replayed(input, fuel, backend).value.run;
    StoppingHistory(input.program, view, run.calls, run.answers, run.outcome.value);
    hide Replayed, History, Supplied, Suppliable, CapOf, Parse, Permits, StopsOnRefusal;
    RefusalFree(view, run.calls);
  }

  /** A run without a refused attempt is one within the budget that makes permitted calls only. */
  lemma RefusalFree(view: View, calls: seq<Call>)
    ensures HasRefusal(view, calls) <==> !(|calls| <= view.maxToolCalls && AllPermitted(view, calls))
  {
    hide Permits;
    if |calls| > view.maxToolCalls {
      assert !Passes(view, calls, view.maxToolCalls);
    } else {
      forall i: nat | i < |calls|
        ensures Passes(view, calls, i) <==> Permits(view, calls[i])
      {
      }
    }
  }

  // ----- A program that does not stop -----

  lemma PostOnlyEncodes(utf8: Bytes -> bool)
    requires AllUtf8(PostOnly(), utf8)
    ensures Encodable(PostOnly())
  {
    assert |Ascii("http_post")| == 9;
    hide Ascii;
  }

  /** The two attempts of the retrying program under a policy that allows http_post only: the first is refused, the
      second goes through. */
  function RetryingCalls(): seq<Call> { [Call(Ascii("http_get"), None, []), Call([], None, [])] }

  function RetryingAnswers(second: Answer): seq<Answer> { [Err(MethodMessage(Ascii("http_get"))), second] }

  lemma RetryingHistory(second: Answer)
    ensures History(Retrying(), ViewOf(PostOnly()), RetryingCalls(), RetryingAnswers(second),
                    if second.Ok? then 1 else 0)
    ensures HasRefusal(ViewOf(PostOnly()), RetryingCalls())
    ensures Supplied(ViewOf(PostOnly()), RetryingCalls(), RetryingAnswers(second)) == [second]
    ensures |RetryingCalls()| == 2
  {
    var view, calls, answers := ViewOf(PostOnly()), RetryingCalls(), RetryingAnswers(second);
    NamesDiffer();
    SameVerdict(PostOnly(), calls[0].name, UrlOf(calls[0]));
    assert PostOnly().CheckHttpCall(calls[0].name, UrlOf(calls[0])) == Denied(MethodMessage(Ascii("http_get")));
    assert view.maxToolCalls == 16;
    hide Ascii, MethodMessage, LimitMessage, Sort, ViewOf;
    assert !Passes(view, calls, 0) && Passes(view, calls, 1);
    assert answers[..0] == [] && answers[..1] == [answers[0]];
    assert calls[..1] == [calls[0]] && calls[..0] == [] && answers[..2] == answers;
    assert Supplied(view, [calls[0]], [answers[0]]) == [];
  }

  /** An execution with a refused attempt that is replayed, from any tape within the cap: the program of
      ReplayCanDiverge survives the refusal and returns. */
  lemma RefusedAttemptReplayed(input: GuestInput, backend: Backend)
    requires input.program == Retrying() && input.policyCanonical == Canonical(PostOnly())
    requires AllUtf8(PostOnly(), backend.utf8) && WithinCap(input.tape, CapOf(ViewOf(PostOnly()), backend.usize))
    ensures Parse(input.policyCanonical, backend.utf8) == Ok(ViewOf(PostOnly()))
    ensures ReplaysRefused(input, ViewOf(PostOnly()), 2, backend)
    ensures Replayed(input, 2, backend).value.run.calls == RetryingCalls()
  {
    hide History, Supplied, Replayed, ViewOf, Parse, Canonical, CapOf, Retrying, PostOnly, HasRefusal, TapeAnswer,
         AllUtf8, RetryingCalls, RetryingAnswers, GuestRun, WithinCap, Encodable;
    var view, second := ViewOf(PostOnly()), TapeAnswer(input.tape, 0);
    var v: I64 := if second.Ok? then 1 else 0;
    PostOnlyEncodes(backend.utf8);
    PolicyRoundTrip(PostOnly(), backend.utf8);
    CanonicalNotEmpty(PostOnly());
    RetryingHistory(second);
    HistoryFromStart(Retrying(), view, input.tape, RetryingCalls(), RetryingAnswers(second), v, 2);
    ReplayedRun(input, view, 2, backend, Run(RetryingCalls(), RetryingAnswers(second), Returned(v)));
  }

  // ----- Tape entries nobody reads -----

  lemma {:induction false} ForwardedMonotone(view: View, calls: seq<Call>, longer: seq<Call>)
    requires calls <= longer
    ensures |Forwarded(view, calls)| <= |Forwarded(view, longer)|
    decreases |longer|
  {
    if |calls| < |longer| {
      assert calls <= longer[..|longer| - 1];
      ForwardedMonotone(view, calls, longer[..|longer| - 1]);
    } else {
      assert calls == longer;
    }
  }

  ghost predicate AgreeUpTo(tape: Tape, other: Tape, n: nat) {
    forall k: nat | k < n :: TapeAnswer(tape, k) == TapeAnswer(other, k)
  }

  lemma SameAnswer(view: View, tape: Tape, other: Tape, calls: seq<Call>, c: Call, n: nat)
    requires AgreeUpTo(tape, other, n) && |Forwarded(view, calls + [c])| <= n
    ensures AnswerTo(view, tape, calls, c) == AnswerTo(view, other, calls, c)
  {
    hide LimitMessage, ExhaustedMessage, Denial, Permits;
    assert (calls + [c])[..|calls|] == calls;
    assert |calls| < view.maxToolCalls && Permits(view, c) ==>
             TapeAnswer(tape, |Forwarded(view, calls)|) == TapeAnswer(other, |Forwarded(view, calls)|);
  }

  /** A run never depends on tape entries past the calls forwarded in it. */
  lemma {:induction false} UnreadEntries(program: Program, view: View, tape: Tape, other: Tape, calls: seq<Call>,
                                         answers: seq<Answer>, fuel: nat)
    requires AgreeUpTo(tape, other, |Forwarded(view, GuestOnwards(program, view, tape, calls, answers, fuel).calls)|)
    ensures GuestOnwards(program, view, other, calls, answers, fuel) ==
            GuestOnwards(program, view, tape, calls, answers, fuel)
    decreases fuel
  {
    hide AgreeUpTo, AnswerTo, StateAfter, Forwarded, GuestCall;
    if program(answers).Invoke? && fuel > 0 {
      var c := program(answers).c;
      var a := AnswerTo(view, tape, calls, c);
      var run := GuestOnwards(program, view, tape, calls, answers, fuel);
      GuestUnfold(program, view, tape, calls, answers, c, fuel);
      GuestUnfold(program, view, other, calls, answers, c, fuel);
      hide GuestFrom;
      GuestPrefix(program, view, tape, calls + [c], answers + [a], StateAfter(view, tape, calls + [c]), fuel - 1);
      ForwardedMonotone(view, calls + [c], run.calls);
      SameAnswer(view, tape, other, calls, c, |Forwarded(view, run.calls)|);
      UnreadEntries(program, view, tape, other, calls + [c], answers + [a], fuel - 1);
    }
  }

  /** Exchanging the entries of the tape that no call reads leaves the replay, its run and its commitments as they are,
      except for the two commitments to the tape. */
  lemma UnreadEntriesCommitted(input: GuestInput, view: View, fuel: nat, backend: Backend, other: Tape)
    requires input.policyCanonical != [] && Parse(input.policyCanonical, backend.utf8) == Ok(view)
    requires Replayed(input, fuel, backend).Ok? && WithinCap(other, CapOf(view, backend.usize))
    requires AgreeUpTo(input.tape, other, |Forwarded(view, Replayed(input, fuel, backend).value.run.calls)|)
    ensures var proven := Replayed(input, fuel, backend).value;
            Replayed(input.(tape := other), fuel, backend) ==
            Ok(Proven(proven.run, proven.inputs.(
              toolResponsesHash := backend.tapeHash(other),
              attestationHash := backend.attestedHash(other, input.attestations))))
  {
    UnreadFromStart(input.program, view, input.tape, other, fuel);
    hide GuestRun, Parse, CapOf, AgreeUpTo, Forwarded;
  }

  lemma UnreadFromStart(program: Program, view: View, tape: Tape, other: Tape, fuel: nat)
    requires AgreeUpTo(tape, other, |Forwarded(view, GuestRun(program, view, tape, fuel).calls)|)
    ensures GuestRun(program, view, other, fuel) == GuestRun(program, view, tape, fuel)
  {
    NothingCalled(view, tape);
    NothingCalled(view, other);
    hide GuestFrom, AgreeUpTo, Forwarded;
    UnreadEntries(program, view, tape, other, [], [], fuel);
  }
}
