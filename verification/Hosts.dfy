/** Policy enforcement around tool calls: the wrapper of the dry run, the wrapper of the guest, and the whole run of a
    program under each. */
module Hosts {
  import opened Options
  import opened ByteStrings
  import opened Json
  import opened OutputWord
  import opened Policy
  import opened PolicyView

  /** A tool call. The url is the string entry of the argument table, when there is one. */
  datatype Call = Call(name: Bytes, url: Option<Bytes>, arguments: Bytes)

  /** A response as its canonical bytes, or an error message. A tape entry is the same thing. */
  type Answer = Result<Bytes, Bytes>

  type Tape = seq<Answer>

  function UrlOf(c: Call): Bytes {
    match c.url case Some(u) => u case None => []
  }

  // ----- Response schemas -----

  function Lookup(members: seq<Member>, key: Bytes): (r: Option<Json>)
    ensures r.Some? ==> exists m | m in members :: m.0 == key && m.1 == r.value
    ensures r.None? ==> forall m | m in members :: m.0 != key
  {
    if members == [] then None
    else if members[0].0 == key then Some(members[0].1)
    else Lookup(members[1..], key)
  }

  /** Whether a value satisfies a schema: same kind, the first item of an array schema for every item, every key of an
      object schema present and matching; null accepts anything. */
  function SchemaMatches(schema: Json, actual: Json): bool {
    match schema
    case Null => true
    case Bool(_) => actual.Bool?
    case Number(_) => actual.Number?
    case String(_) => actual.String?
    case Array(items) =>
      actual.Array? &&
      (items != [] ==> forall i | 0 <= i < |actual.items| :: SchemaMatches(items[0], actual.items[i]))
    case Object(members) =>
      actual.Object? &&
      forall i | 0 <= i < |members| ::
        var v := Lookup(actual.members, members[i].0);
        v.Some? && SchemaMatches(members[i].1, v.value)
  }

  lemma LookupInSame(members: seq<Member>, others: seq<Member>, key: Bytes)
    requires DistinctBy(KeyOf, members) && DistinctBy(KeyOf, others)
    requires Same(Object(members), Object(others))
    ensures Lookup(members, key).Some? <==> Lookup(others, key).Some?
    ensures Lookup(members, key).Some? ==> Same(Lookup(members, key).value, Lookup(others, key).value)
  {
    var a, b := Lookup(members, key), Lookup(others, key);
    assert key in Keys(members) <==> a.Some?;
    assert key in Keys(others) <==> b.Some?;
  }

  lemma LookupValid(members: seq<Member>, key: Bytes)
    requires Valid(Object(members))
    ensures Lookup(members, key).Some? ==> Valid(Lookup(members, key).value)
  {}

  /** The member of an equal object under the same key. */
  lemma SameMember(members: seq<Member>, others: seq<Member>, n: Member) returns (i: nat)
    requires Valid(Object(members)) && Valid(Object(others)) && Same(Object(members), Object(others)) && n in others
    ensures i < |members| && members[i].0 == n.0 && Valid(members[i].1) && Valid(n.1) && Same(members[i].1, n.1)
  {
    assert n.0 in Keys(members);
    var m :| m in members && m.0 == n.0;
    i :| 0 <= i < |members| && members[i] == m;
  }

  /** The schema check sees values, not the order in which their objects happen to list their keys. */
  lemma {:induction false} SchemaMatchesSame(schema: Json, schema': Json, actual: Json, actual': Json)
    requires Valid(schema) && Valid(schema') && Valid(actual) && Valid(actual')
    requires Same(schema, schema') && Same(actual, actual') && SchemaMatches(schema, actual)
    ensures SchemaMatches(schema', actual')
    decreases schema
  {
    match schema
    case Array(items) =>
      if items != [] {
        forall i | 0 <= i < |actual'.items|
          ensures SchemaMatches(schema'.items[0], actual'.items[i])
        {
          SchemaMatchesSame(items[0], schema'.items[0], actual.items[i], actual'.items[i]);
        }
      }
    case Object(members) =>
      forall i | 0 <= i < |schema'.members|
        ensures var v := Lookup(actual'.members, schema'.members[i].0);
                v.Some? && SchemaMatches(schema'.members[i].1, v.value)
      {
        var n := schema'.members[i];
        var j := SameMember(members, schema'.members, n);
        var v := Lookup(actual.members, members[j].0);
        assert v.Some? && SchemaMatches(members[j].1, v.value);
        LookupInSame(actual.members, actual'.members, n.0);
        var v' := Lookup(actual'.members, n.0);
        LookupValid(actual.members, n.0);
        LookupValid(actual'.members, n.0);
        hide Valid, Same, SchemaMatches, Lookup;
        SchemaMatchesSame(members[j].1, n.1, v.value, v'.value);
      }
    case _ =>
  }

  function NotJsonMessage(reason: Bytes): Bytes { Ascii("policy: response is not valid JSON: ") + reason }

  function SchemaMessage(domain: Bytes): Bytes {
    Ascii("policy: response from '") + domain + Ascii("' does not match registered schema")
  }

  /** A JSON parser: the value, or what it says is wrong. */
  type Parser = Bytes -> Result<Json, Bytes>

  function CheckResponseSchema(p: OraclePolicy, url: Bytes, response: Bytes, parse: Parser): Verdict {
    match Lookup(p.schemaVersions, DomainOf(url))
    case None => Permitted
    case Some(schema) =>
      match parse(response)
      case Err(reason) => Denied(NotJsonMessage(reason))
      case Ok(actual) =>
        if SchemaMatches(schema, actual) then Permitted else Denied(SchemaMessage(DomainOf(url)))
  }

  // ----- The dry run: live host and policy wrapper -----

  /** What the outside world contributes: the answer to the last of the calls it has seen, and a JSON parser. */
  datatype World = World(live: seq<Call> -> Answer, parse: Parser)

  class LiveHost {
    const world: World
    var seen: seq<Call>

    constructor (world: World)
      ensures this.world == world && seen == []
    {
      this.world := world;
      seen := [];
    }

    method CallTool(c: Call) returns (a: Answer)
      modifies this
      ensures seen == old(seen) + [c] && a == world.live(seen)
    {
      seen := seen + [c];
      a := world.live(seen);
    }
  }

  /** The answer of the policy wrapper on the host, and the calls the live host has seen afterwards. */
  function HostCall(p: OraclePolicy, world: World, seen: seq<Call>, c: Call): (Answer, seq<Call>) {
    if !HttpTool(c.name) then (world.live(seen + [c]), seen + [c])
    else
      match p.CheckHttpCall(c.name, UrlOf(c))
      case Denied(m) => (Err(m), seen)
      case Permitted =>
        match world.live(seen + [c])
        case Err(e) => (Err(e), seen + [c])
        case Ok(response) =>
          match CheckResponseSchema(p, UrlOf(c), response, world.parse)
          case Denied(m) => (Err(m), seen + [c])
          case Permitted => (Ok(response), seen + [c])
  }

  class OraclePolicyHost {
    const inner: LiveHost
    const policy: OraclePolicy

    constructor (inner: LiveHost, policy: OraclePolicy)
      ensures this.inner == inner && this.policy == policy
    {
      this.inner := inner;
      this.policy := policy;
    }

    method CallTool(c: Call) returns (a: Answer)
      modifies inner
      ensures (a, inner.seen) == HostCall(policy, inner.world, old(inner.seen), c)
    {
      if !HttpTool(c.name) {
        a := inner.CallTool(c);
        return;
      }
      var verdict := policy.CheckHttpCall(c.name, UrlOf(c));
      if verdict.Denied? {
        return Err(verdict.message);
      }
      a := inner.CallTool(c);
      if a.Err? {
        return;
      }
      verdict := CheckResponseSchema(policy, UrlOf(c), a.value, inner.world.parse);
      if verdict.Denied? {
        return Err(verdict.message);
      }
    }
  }

  // ----- The guest: tape host and policy wrapper -----

  function ExhaustedMessage(): Bytes { Ascii("tape exhausted") }

  class TapeHost {
    const entries: Tape
    var cursor: nat

    constructor (entries: Tape)
      ensures this.entries == entries && cursor == 0
    {
      this.entries := entries;
      cursor := 0;
    }

    method CallTool(c: Call) returns (a: Answer)
      modifies this
      ensures cursor == if old(cursor) < |entries| then old(cursor) + 1 else old(cursor)
      ensures a == if old(cursor) < |entries| then entries[old(cursor)] else Err(ExhaustedMessage())
    {
      if cursor >= |entries| {
        return Err(ExhaustedMessage());
      }
      a := entries[cursor];
      cursor := cursor + 1;
    }
  }

  function Decimal(n: nat): Bytes {
    (if n < 10 then [] else Decimal(n / 10)) + [48 + n % 10]
  }

  function LimitMessage(max: nat): Bytes {
    Ascii("policy: tool call limit ") + Decimal(max) + Ascii(" exceeded")
  }

  datatype GuestState = GuestState(callsMade: nat, cursor: nat)

  /** The answer of the policy wrapper in the guest, and its state afterwards. */
  function GuestCall(view: View, entries: Tape, s: GuestState, c: Call): (Answer, GuestState) {
    var counted := s.(callsMade := s.callsMade + 1);
    if counted.callsMade > view.maxToolCalls then (Err(LimitMessage(view.maxToolCalls)), counted)
    else
      var verdict := if HttpTool(c.name) then view.CheckHttpCall(c.name, UrlOf(c)) else Permitted;
      match verdict
      case Denied(m) => (Err(m), counted)
      case Permitted =>
        if s.cursor < |entries| then (entries[s.cursor], counted.(cursor := s.cursor + 1))
        else (Err(ExhaustedMessage()), counted)
  }

  /** State of the guest wrapper after a sequence of calls, whatever produced it. */
  function StateAfter(view: View, tape: Tape, calls: seq<Call>): GuestState {
    if calls == [] then GuestState(0, 0)
    else
      var n := |calls| - 1;
      GuestCall(view, tape, StateAfter(view, tape, calls[..n]), calls[n]).1
  }

  lemma StateStep(view: View, tape: Tape, calls: seq<Call>, c: Call)
    ensures StateAfter(view, tape, calls + [c]) == GuestCall(view, tape, StateAfter(view, tape, calls), c).1
  {
    assert (calls + [c])[..|calls|] == calls;
  }

  class PolicyEnforcingHost {
    const inner: TapeHost
    const view: View
    var callsMade: nat

    function State(): GuestState
      reads this, inner
    {
      GuestState(callsMade, inner.cursor)
    }

    constructor (inner: TapeHost, view: View)
      ensures this.inner == inner && this.view == view && callsMade == 0
    {
      this.inner := inner;
      this.view := view;
      callsMade := 0;
    }

    method CallTool(c: Call) returns (a: Answer)
      modifies this, inner
      ensures (a, State()) == GuestCall(view, inner.entries, old(State()), c)
    {
      hide Ascii, LimitMessage, ExhaustedMessage, MethodMessage, DomainMessage;
      callsMade := callsMade + 1;
      if callsMade > view.maxToolCalls {
        return Err(LimitMessage(view.maxToolCalls));
      }
      if HttpTool(c.name) {
        var verdict := view.CheckHttpCall(c.name, UrlOf(c));
        if verdict.Denied? {
          return Err(verdict.message);
        }
      }
      a := inner.CallTool(c);
    }
  }

  // ----- Programs and runs -----

  datatype Action = Invoke(c: Call) | Return(value: I64) | Abort(error: Bytes)

  /** A program, seen from its tool calls: what it does next, given the answers so far. What it returns is the i64 that
      is proved; anything but an integer proves as zero. */
  type Program = seq<Answer> -> Action

  datatype Outcome = Returned(value: I64) | Aborted(error: Bytes) | OutOfFuel

  datatype Run = Run(calls: seq<Call>, answers: seq<Answer>, outcome: Outcome)

  function DryFrom(program: Program, p: OraclePolicy, world: World, calls: seq<Call>, answers: seq<Answer>,
                   seen: seq<Call>, fuel: nat): Run
    decreases fuel
  {
    match program(answers)
    case Return(v) => Run(calls, answers, Returned(v))
    case Abort(e) => Run(calls, answers, Aborted(e))
    case Invoke(c) =>
      if fuel == 0 then Run(calls, answers, OutOfFuel)
      else
        var (a, seen') := HostCall(p, world, seen, c);
        DryFrom(program, p, world, calls + [c], answers + [a], seen', fuel - 1)
  }

  /** The dry run of a program under a policy. Its answers are the tape: one entry a call, denied calls included. */
  function DryRun(program: Program, p: OraclePolicy, world: World, fuel: nat): Run {
    DryFrom(program, p, world, [], [], [], fuel)
  }

  method DryRunWithPolicy(program: Program, p: OraclePolicy, world: World, fuel: nat) returns (r: Run)
    ensures r == DryRun(program, p, world, fuel)
  {
    hide HostCall;
    var live := new LiveHost(world);
    var host := new OraclePolicyHost(live, p);
    var calls: seq<Call>, answers: seq<Answer>, left := [], [], fuel;
    while true
      invariant host.inner == live && host.policy == p && live.world == world
      invariant DryFrom(program, p, world, calls, answers, live.seen, left) == DryRun(program, p, world, fuel)
      decreases left
    {
      var action := program(answers);
      match action
      case Return(v) => return Run(calls, answers, Returned(v));
      case Abort(e) => return Run(calls, answers, Aborted(e));
      case Invoke(c) =>
        if left == 0 {
          return Run(calls, answers, OutOfFuel);
        }
        var a := host.CallTool(c);
        calls, answers, left := calls + [c], answers + [a], left - 1;
    }
  }

  function GuestFrom(program: Program, view: View, tape: Tape, calls: seq<Call>, answers: seq<Answer>,
                     s: GuestState, fuel: nat): Run
    decreases fuel
  {
    match program(answers)
    case Return(v) => Run(calls, answers, Returned(v))
    case Abort(e) => Run(calls, answers, Aborted(e))
    case Invoke(c) =>
      if fuel == 0 then Run(calls, answers, OutOfFuel)
      else
        var (a, s') := GuestCall(view, tape, s, c);
        GuestFrom(program, view, tape, calls + [c], answers + [a], s', fuel - 1)
  }

  function GuestRun(program: Program, view: View, tape: Tape, fuel: nat): Run {
    GuestFrom(program, view, tape, [], [], GuestState(0, 0), fuel)
  }

  /** The guest's run, and the state in which it leaves the wrapper. */
  method RunGuest(program: Program, view: View, tape: Tape, fuel: nat) returns (r: Run, state: GuestState)
    ensures r == GuestRun(program, view, tape, fuel) && state == StateAfter(view, tape, r.calls)
  {
    hide GuestCall;
    var inner := new TapeHost(tape);
    var host := new PolicyEnforcingHost(inner, view);
    var calls: seq<Call>, answers: seq<Answer>, left := [], [], fuel;
    while true
      invariant host.inner == inner && host.view == view && inner.entries == tape
      invariant host.State() == StateAfter(view, tape, calls)
      invariant GuestFrom(program, view, tape, calls, answers, host.State(), left) ==
                GuestRun(program, view, tape, fuel)
      decreases left
    {
      var action := program(answers);
      match action
      case Return(v) => return Run(calls, answers, Returned(v)), host.State();
      case Abort(e) => return Run(calls, answers, Aborted(e)), host.State();
      case Invoke(c) =>
        if left == 0 {
          return Run(calls, answers, OutOfFuel), host.State();
        }
        StateStep(view, tape, calls, c);
        var a := host.CallTool(c);
        calls, answers, left := calls + [c], answers + [a], left - 1;
    }
  }

  /** The run over the bare tape, with no policy around it. */
  function TapeFrom(program: Program, tape: Tape, calls: seq<Call>, answers: seq<Answer>, cursor: nat, fuel: nat): Run
    decreases fuel
  {
    match program(answers)
    case Return(v) => Run(calls, answers, Returned(v))
    case Abort(e) => Run(calls, answers, Aborted(e))
    case Invoke(c) =>
      if fuel == 0 then Run(calls, answers, OutOfFuel)
      else if cursor < |tape| then
        TapeFrom(program, tape, calls + [c], answers + [tape[cursor]], cursor + 1, fuel - 1)
      else
        TapeFrom(program, tape, calls + [c], answers + [Err(ExhaustedMessage())], cursor, fuel - 1)
  }

  function TapeRun(program: Program, tape: Tape, fuel: nat): Run { TapeFrom(program, tape, [], [], 0, fuel) }

  method RunTape(program: Program, tape: Tape, fuel: nat) returns (r: Run)
    ensures r == TapeRun(program, tape, fuel)
  {
    var host := new TapeHost(tape);
    var calls: seq<Call>, answers: seq<Answer>, left := [], [], fuel;
    while true
      invariant host.entries == tape
      invariant TapeFrom(program, tape, calls, answers, host.cursor, left) == TapeRun(program, tape, fuel)
      decreases left
    {
      var action := program(answers);
      match action
      case Return(v) => return Run(calls, answers, Returned(v));
      case Abort(e) => return Run(calls, answers, Aborted(e));
      case Invoke(c) =>
        if left == 0 {
          return Run(calls, answers, OutOfFuel);
        }
        var a := host.CallTool(c);
        calls, answers, left := calls + [c], answers + [a], left - 1;
    }
  }
}
