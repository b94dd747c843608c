/** The bounty board: escrow, claims, and every way outside code can re-enter them. */
module Bounty {
  import opened Options
  import opened ByteStrings
  import opened OutputWord
  import opened Circuit
  import opened PublicInputsLib

  type Address = nat

  type Inputs = pi: Public | HashesFit(pi)
    witness Public(0, Fill(0, 32), 0, Fill(0, 32), Fill(0, 32), Fill(0, 32), Fill(0, 32), Fill(0, 32))

  datatype BountyData = BountyData(poster: Address, reward: nat, programHash: Bytes, claimed: bool, solver: Address)

  const EMPTY := BountyData(0, 0, Fill(0, 32), false, 0)

  datatype Event = Posted(id: nat, poster: Address, reward: nat, programHash: Bytes)
                 | Claimed(id: nat, solver: Address, reward: nat)

  datatype Error = NoReward | AlreadyClaimed | Rejected(error: VerifyError) | WrongTask | TransferFailed | OutsideRevert

  /** What outside code does, as a tree. A claim carries the script the receiver of the reward runs and whether it takes
      the ether; a frame is outside code that may be rolled back as a whole; forced ether arrives without a call. */
  datatype Action =
    | Post(sender: Address, value: nat, programHash: Bytes)
    | Claim(id: nat, sender: Address, proof: Bytes, inputs: Inputs, script: seq<Action>, accepts: bool)
    | Force(value: nat)
    | Frame(script: seq<Action>, reverts: bool)

  /** Storage, balance and event log of the contract, and the ether forced on it. A missing entry is a zeroed slot. */
  datatype State = State(bounties: map<nat, BountyData>, nextId: nat, balance: nat, log: seq<Event>, forced: nat)
  {
    function Slot(id: nat): BountyData { if id in bounties then bounties[id] else EMPTY }
  }

  /** The state the constructor leaves. */
  function Deployed(): State { State(map[], 0, 0, [], 0) }

  // ----- One action -----

  /** The tests of claim, in the order the contract makes them. */
  function ClaimError(v: Verifier, s: State, id: nat, proof: Bytes, inputs: Inputs): Option<Error> {
    if s.Slot(id).claimed then Some(AlreadyClaimed)
    else
      match v.Verify(proof, inputs)
      case Some(e) => Some(Rejected(e))
      case None => if inputs.programHash != s.Slot(id).programHash then Some(WrongTask) else None
  }

  function PostedState(s: State, sender: Address, value: nat, programHash: Bytes): State {
    State(s.bounties[s.nextId := BountyData(sender, value, programHash, false, 0)], s.nextId + 1, s.balance + value,
          s.log + [Posted(s.nextId, sender, value, programHash)], s.forced)
  }

  /** The state in which the receiver's code runs: marked claimed, the reward gone. */
  function PaidState(s: State, id: nat, sender: Address): State
    requires s.Slot(id).reward <= s.balance
  {
    State(s.bounties[id := s.Slot(id).(claimed := true, solver := sender)], s.nextId, s.balance - s.Slot(id).reward,
          s.log + [Claimed(id, sender, s.Slot(id).reward)], s.forced)
  }

  function ForcedState(s: State, value: nat): State { s.(balance := s.balance + value, forced := s.forced + value) }

  function Step(v: Verifier, s: State, a: Action): (State, Option<Error>)
    decreases a
  {
    match a
    case Post(sender, value, programHash) =>
      if value == 0 then (s, Some(NoReward)) else (PostedState(s, sender, value, programHash), None)
    case Claim(id, sender, proof, inputs, script, accepts) =>
      var error := ClaimError(v, s, id, proof, inputs);
      if error.Some? then (s, error)
      else if s.balance < s.Slot(id).reward then (s, Some(TransferFailed))
      else
        var after := Steps(v, PaidState(s, id, sender), script);
        if accepts then (after, None) else (s, Some(TransferFailed))
    case Force(value) => (ForcedState(s, value), None)
    case Frame(script, reverts) =>
      var after := Steps(v, s, script);
      if reverts then (s, Some(OutsideRevert)) else (after, None)
  }

  function Steps(v: Verifier, s: State, script: seq<Action>): State
    decreases script
  {
    if script == [] then s else Steps(v, Step(v, s, script[0]).0, script[1..])
  }

  // ----- The contract -----

  class Board {
    const verifier: Verifier
    var bounties: map<nat, BountyData>
    var nextId: nat
    var balance: nat
    var log: seq<Event>
    ghost var forced: nat

    ghost function Current(): State
      reads this
    {
      State(bounties, nextId, balance, log, forced)
    }

    constructor (verifier: Verifier)
      ensures this.verifier == verifier && Current() == Deployed()
    {
      this.verifier := verifier;
      bounties, nextId, balance, log, forced := map[], 0, 0, [], 0;
    }

    /** The ether arrives with the call and goes back when the call reverts. */
    method PostBounty(sender: Address, value: nat, programHash: Bytes) returns (id: nat, error: Option<Error>)
      modifies this
      ensures (Current(), error) == Step(verifier, old(Current()), Post(sender, value, programHash))
      ensures error == None ==> id == old(nextId)
    {
      if value == 0 {
        return 0, Some(NoReward);
      }
      balance := balance + value;
      id := nextId;
      nextId := nextId + 1;
      bounties := bounties[id := BountyData(sender, value, programHash, false, 0)];
      log := log + [Posted(id, sender, value, programHash)];
      return id, None;
    }

    method Claim(id: nat, sender: Address, proof: Bytes, inputs: Inputs, script: seq<Action>, accepts: bool)
      returns (error: Option<Error>)
      modifies this
      ensures (Current(), error) ==
              Step(verifier, old(Current()), Action.Claim(id, sender, proof, inputs, script, accepts))
      decreases script, 1
    {
      var b := if id in bounties then bounties[id] else EMPTY;
      if b.claimed {
        return Some(AlreadyClaimed);
      }
      var rejected := verifier.Verify(proof, inputs);
      if rejected.Some? {
        return Some(Rejected(rejected.value));
      }
      if inputs.programHash != b.programHash {
        return Some(WrongTask);
      }
      var bounties0, nextId0, balance0, log0 := bounties, nextId, balance, log;
      ghost var forced0 := forced;
      bounties := bounties[id := b.(claimed := true, solver := sender)];
      var reward := b.reward;
      log := log + [Claimed(id, sender, reward)];
      var ok := reward <= balance;
      if ok {
        balance := balance - reward;
        Outside(script);
        ok := accepts;
      }
      if !ok {
        bounties, nextId, balance, log, forced := bounties0, nextId0, balance0, log0, forced0;
        return Some(TransferFailed);
      }
      return None;
    }

    /** Outside code runs its script against the contract. */
    method Outside(script: seq<Action>)
      modifies this
      ensures Current() == Steps(verifier, old(Current()), script)
      decreases script, 0
    {
      if script != [] {
        var _ := Act(script[0]);
        Outside(script[1..]);
      }
    }

    method Act(a: Action) returns (error: Option<Error>)
      modifies this
      ensures (Current(), error) == Step(verifier, old(Current()), a)
      decreases a, 2
    {
      match a
      case Post(sender, value, programHash) =>
        var id;
        id, error := PostBounty(sender, value, programHash);
      case Claim(id, sender, proof, inputs, script, accepts) =>
        error := this.Claim(id, sender, proof, inputs, script, accepts);
      case Force(value) =>
        balance, forced := balance + value, forced + value;
        error := None;
      case Frame(script, reverts) =>
        var bounties0, nextId0, balance0, log0 := bounties, nextId, balance, log;
        ghost var forced0 := forced;
        Outside(script);
        if reverts {
          bounties, nextId, balance, log, forced := bounties0, nextId0, balance0, log0, forced0;
          error := Some(OutsideRevert);
        } else {
          error := None;
        }
    }
  }

  // ----- The escrow invariant -----

  /** Rewards still owed for the first n slots. */
  ghost function Owed(s: State, n: nat): nat {
    if n == 0 then 0 else Owed(s, n - 1) + if s.Slot(n - 1).claimed then 0 else s.Slot(n - 1).reward
  }

  /** Ether that came in with posts, and ether that went out with claims, as the log records them. */
  ghost function TotalPosted(log: seq<Event>): nat {
    if log == [] then 0
    else
      var e := log[|log| - 1];
      TotalPosted(log[..|log| - 1]) + if e.Posted? then e.reward else 0
  }

  ghost function TotalPaid(log: seq<Event>): nat {
    if log == [] then 0
    else
      var e := log[|log| - 1];
      TotalPaid(log[..|log| - 1]) + if e.Claimed? then e.reward else 0
  }

  /** How many payments above zero slot id has had. */
  ghost function Payments(log: seq<Event>, id: nat): nat {
    if log == [] then 0
    else
      var e := log[|log| - 1];
      Payments(log[..|log| - 1], id) + if e.Claimed? && e.id == id && e.reward > 0 then 1 else 0
  }

  /** The balance is what is owed plus what was forced in, and also what came in less what went out. */
  ghost predicate Conserved(s: State) {
    s.balance == Owed(s, s.nextId) + s.forced &&
    s.balance + TotalPaid(s.log) == TotalPosted(s.log) + s.forced
  }

  /** Posted slots hold a positive reward; the others none, and the zero program hash. */
  ghost predicate SlotsOk(s: State) {
    (forall id: nat | id < s.nextId :: s.Slot(id).reward > 0) &&
    (forall id: nat | id >= s.nextId :: Unused(s.Slot(id)))
  }

  ghost predicate Unused(b: BountyData) { b.reward == 0 && b.programHash == EMPTY.programHash }

  /** Slots at or beyond nextId stay unused when only their claimed flag and solver can have changed. */
  lemma StillUnused(s: State, t: State)
    requires SlotsOk(s) && s.nextId <= t.nextId
    requires forall id: nat | id >= t.nextId ::
               t.Slot(id) == s.Slot(id).(claimed := t.Slot(id).claimed, solver := t.Slot(id).solver)
    ensures forall id: nat | id >= t.nextId :: Unused(t.Slot(id))
  {
    forall id: nat | id >= t.nextId
      ensures Unused(t.Slot(id))
    {
      assert Unused(s.Slot(id));
    }
  }

  /** A slot has been paid once if it is posted and claimed, and not otherwise; each payment above zero is the reward of
      its slot, to the recorded solver. */
  ghost predicate PaidOnce(s: State) {
    (forall id: nat :: Payments(s.log, id) == if id < s.nextId && s.Slot(id).claimed then 1 else 0) &&
    (forall e | e in s.log && e.Claimed? && e.reward > 0 ::
       e.id < s.nextId && e.reward == s.Slot(e.id).reward && e.solver == s.Slot(e.id).solver)
  }

  /** The posts among the events, in order. */
  ghost function Posts(log: seq<Event>): seq<Event> {
    if log == [] then []
    else
      var e := log[|log| - 1];
      Posts(log[..|log| - 1]) + if e.Posted? then [e] else []
  }

  ghost function PostOf(s: State, id: nat): Event {
    Posted(id, s.Slot(id).poster, s.Slot(id).reward, s.Slot(id).programHash)
  }

  /** The log has one post for each posted slot, in the order of the ids, with the poster, reward and program of the
      slot. */
  ghost predicate PostsLogged(s: State) { Posts(s.log) == seq(s.nextId, id requires 0 <= id => PostOf(s, id)) }

  ghost predicate Inv(s: State) { Conserved(s) && SlotsOk(s) && PaidOnce(s) && PostsLogged(s) }

  lemma DeployedConserved()
    ensures Inv(Deployed())
  {
    hide Payments, Unused, TotalPosted, TotalPaid, Owed, PostsLogged;
    NothingPosted(Deployed());
    DeployedSlots();
  }

  lemma NothingPosted(s: State)
    requires s.log == [] && s.nextId == 0
    ensures TotalPosted(s.log) == 0 && TotalPaid(s.log) == 0 && Owed(s, s.nextId) == 0
    ensures forall id: nat :: Payments(s.log, id) == 0
    ensures PostsLogged(s)
  {}

  lemma DeployedSlots()
    ensures forall id: nat :: Unused(Deployed().Slot(id))
  {}

  lemma {:induction false} OwedUnchanged(s: State, t: State, n: nat)
    requires forall id: nat | id < n ::
               s.Slot(id).reward == t.Slot(id).reward && s.Slot(id).claimed == t.Slot(id).claimed
    ensures Owed(s, n) == Owed(t, n)
  {
    if n > 0 { OwedUnchanged(s, t, n - 1); }
  }

  /** What one unclaimed slot is owed is part of what is owed. */
  lemma {:induction false} OwedPart(s: State, t: State, id: nat, n: nat)
    requires id < n && !s.Slot(id).claimed && t.Slot(id).claimed
    requires forall k: nat | k < n && k != id ::
               s.Slot(k).reward == t.Slot(k).reward && s.Slot(k).claimed == t.Slot(k).claimed
    ensures Owed(s, n) == Owed(t, n) + s.Slot(id).reward
  {
    if id == n - 1 { OwedUnchanged(s, t, n - 1); } else { OwedPart(s, t, id, n - 1); }
  }

  lemma LogStep(log: seq<Event>, e: Event)
    ensures TotalPosted(log + [e]) == TotalPosted(log) + if e.Posted? then e.reward else 0
    ensures TotalPaid(log + [e]) == TotalPaid(log) + if e.Claimed? then e.reward else 0
    ensures forall id: nat :: Payments(log + [e], id) ==
              Payments(log, id) + if e.Claimed? && e.id == id && e.reward > 0 then 1 else 0
    ensures Posts(log + [e]) == Posts(log) + if e.Posted? then [e] else []
  {
    assert (log + [e])[..|log|] == log;
  }

  /** An unclaimed slot can always be paid. */
  lemma FundsSuffice(s: State, id: nat)
    requires Inv(s) && !s.Slot(id).claimed
    ensures s.Slot(id).reward <= s.balance
  {
    hide PaidOnce, PostsLogged;
    if id >= s.nextId {
      assert Unused(s.Slot(id));
    } else {
      var t := s.(bounties := s.bounties[id := s.Slot(id).(claimed := true)]);
      OwedPart(s, t, id, s.nextId);
    }
  }

  lemma PostKeepsFunds(s: State, sender: Address, value: nat, programHash: Bytes)
    requires Conserved(s) && value > 0
    ensures Conserved(PostedState(s, sender, value, programHash))
  {
    var t := PostedState(s, sender, value, programHash);
    LogStep(s.log, t.log[|s.log|]);
    OwedUnchanged(s, t, s.nextId);
    assert Owed(t, t.nextId) == Owed(t, s.nextId) + value;
    hide Owed, TotalPosted, TotalPaid;
  }

  lemma PostKeepsSlots(s: State, sender: Address, value: nat, programHash: Bytes)
    requires SlotsOk(s) && value > 0
    ensures SlotsOk(PostedState(s, sender, value, programHash))
  {
    var t := PostedState(s, sender, value, programHash);
    StillUnused(s, t);
    hide Unused;
    forall id: nat | id < t.nextId
      ensures t.Slot(id).reward > 0
    {
      if id < s.nextId { assert s.Slot(id).reward > 0; }
    }
  }

  lemma PostKeepsPayments(s: State, sender: Address, value: nat, programHash: Bytes)
    requires PaidOnce(s) && value > 0
    ensures PaidOnce(PostedState(s, sender, value, programHash))
  {
    var t := PostedState(s, sender, value, programHash);
    LogStep(s.log, t.log[|s.log|]);
    hide Payments;
    forall id: nat
      ensures Payments(t.log, id) == if id < t.nextId && t.Slot(id).claimed then 1 else 0
    {
      assert Payments(s.log, id) == if id < s.nextId && s.Slot(id).claimed then 1 else 0;
    }
  }

  lemma PostKeepsPosts(s: State, sender: Address, value: nat, programHash: Bytes)
    requires PostsLogged(s)
    ensures PostsLogged(PostedState(s, sender, value, programHash))
  {
    var t := PostedState(s, sender, value, programHash);
    LogStep(s.log, t.log[|s.log|]);
    hide Posts;
    assert seq(t.nextId, id requires 0 <= id => PostOf(t, id)) ==
           seq(s.nextId, id requires 0 <= id => PostOf(s, id)) + [PostOf(t, s.nextId)];
  }

  lemma PaidKeepsPosts(s: State, id: nat, sender: Address)
    requires PostsLogged(s) && s.Slot(id).reward <= s.balance
    ensures PostsLogged(PaidState(s, id, sender))
  {
    var t := PaidState(s, id, sender);
    LogStep(s.log, t.log[|s.log|]);
    hide Posts;
    assert seq(t.nextId, k requires 0 <= k => PostOf(t, k)) == seq(s.nextId, k requires 0 <= k => PostOf(s, k));
  }

  lemma PostKeeps(s: State, sender: Address, value: nat, programHash: Bytes)
    requires Inv(s) && value > 0
    ensures Inv(PostedState(s, sender, value, programHash))
  {
    hide Conserved, SlotsOk, PaidOnce, PostsLogged;
    PostKeepsPosts(s, sender, value, programHash);
    PostKeepsFunds(s, sender, value, programHash);
    PostKeepsSlots(s, sender, value, programHash);
    PostKeepsPayments(s, sender, value, programHash);
  }

  lemma PaidKeepsFunds(s: State, id: nat, sender: Address)
    requires Conserved(s) && SlotsOk(s) && !s.Slot(id).claimed && s.Slot(id).reward <= s.balance
    ensures Conserved(PaidState(s, id, sender)) && SlotsOk(PaidState(s, id, sender))
  {
    var t := PaidState(s, id, sender);
    LogStep(s.log, t.log[|s.log|]);
    StillUnused(s, t);
    if id < s.nextId {
      OwedPart(s, t, id, s.nextId);
    } else {
      assert Unused(s.Slot(id));
      OwedUnchanged(s, t, s.nextId);
    }
    hide Unused, TotalPosted, TotalPaid, Owed;
  }

  lemma PaidKeepsPayments(s: State, id: nat, sender: Address)
    requires SlotsOk(s) && PaidOnce(s) && !s.Slot(id).claimed && s.Slot(id).reward <= s.balance
    ensures PaidOnce(PaidState(s, id, sender))
  {
    var t := PaidState(s, id, sender);
    LogStep(s.log, t.log[|s.log|]);
    hide Payments;
    forall k: nat
      ensures Payments(t.log, k) == if k < t.nextId && t.Slot(k).claimed then 1 else 0
    {
      assert Payments(s.log, k) == if k < s.nextId && s.Slot(k).claimed then 1 else 0;
    }
    forall e | e in t.log && e.Claimed? && e.reward > 0
      ensures e.id < t.nextId && e.reward == t.Slot(e.id).reward && e.solver == t.Slot(e.id).solver
    {
      if e in s.log && e.id == id { PaymentMeansClaimed(s, e); }
    }
  }

  /** A slot with a payment in the log is claimed. */
  lemma PaymentMeansClaimed(s: State, e: Event)
    requires PaidOnce(s) && e in s.log && e.Claimed? && e.reward > 0
    ensures s.Slot(e.id).claimed
  {
    PaymentCounted(s.log, e);
  }

  lemma {:induction false} PaymentCounted(log: seq<Event>, e: Event)
    requires e in log && e.Claimed? && e.reward > 0
    ensures Payments(log, e.id) > 0
  {
    if log[|log| - 1] != e { PaymentCounted(log[..|log| - 1], e); }
  }

  lemma PaidKeeps(s: State, id: nat, sender: Address)
    requires Inv(s) && !s.Slot(id).claimed && s.Slot(id).reward <= s.balance
    ensures Inv(PaidState(s, id, sender))
  {
    hide Conserved, SlotsOk, PaidOnce, PostsLogged;
    PaidKeepsPosts(s, id, sender);
    PaidKeepsFunds(s, id, sender);
    PaidKeepsPayments(s, id, sender);
  }

  lemma ForceKeeps(s: State, value: nat)
    requires Inv(s)
    ensures Inv(ForcedState(s, value))
  {
    OwedUnchanged(s, ForcedState(s, value), s.nextId);
    StillUnused(s, ForcedState(s, value));
    hide Posts;
    assert seq(s.nextId, id requires 0 <= id => PostOf(ForcedState(s, value), id)) ==
           seq(s.nextId, id requires 0 <= id => PostOf(s, id));
  }

  // ----- Every point where outside code can run -----

  /** The states outside code sees while it runs a script: before it, between its actions, after it, and inside every
      call and frame of it, whether or not that is rolled back later. */
  ghost function Seen(v: Verifier, s: State, script: seq<Action>): seq<State>
    decreases script
  {
    if script == [] then [s]
    else [s] + SeenInside(v, s, script[0]) + Seen(v, Step(v, s, script[0]).0, script[1..])
  }

  ghost function SeenInside(v: Verifier, s: State, a: Action): seq<State>
    decreases a
  {
    match a
    case Claim(id, sender, proof, inputs, script, _) =>
      if ClaimError(v, s, id, proof, inputs).Some? || s.balance < s.Slot(id).reward then []
      else Seen(v, PaidState(s, id, sender), script)
    case Frame(script, _) => Seen(v, s, script)
    case _ => []
  }

  ghost predicate AllInv(states: seq<State>) { forall t | t in states :: Inv(t) }

  lemma AllInvJoin(s: State, a: seq<State>, b: seq<State>)
    requires Inv(s) && AllInv(a) && AllInv(b)
    ensures AllInv([s] + a + b)
  {
    hide Inv;
  }

  lemma {:induction false} StepKeeps(v: Verifier, s: State, a: Action)
    requires Inv(s)
    ensures Inv(Step(v, s, a).0) && AllInv(SeenInside(v, s, a))
    decreases a
  {
    hide Inv, ClaimError, PaidState, PostedState, ForcedState;
    match a
    case Post(sender, value, programHash) =>
      if value > 0 { PostKeeps(s, sender, value, programHash); }
    case Claim(id, sender, proof, inputs, script, accepts) =>
      if ClaimError(v, s, id, proof, inputs).None? && s.Slot(id).reward <= s.balance {
        PassedIsUnclaimed(v, s, id, proof, inputs);
        PaidKeeps(s, id, sender);
        EscrowConserved(v, PaidState(s, id, sender), script);
      }
    case Force(value) => ForceKeeps(s, value);
    case Frame(script, reverts) => EscrowConserved(v, s, script);
  }

  lemma PassedIsUnclaimed(v: Verifier, s: State, id: nat, proof: Bytes, inputs: Inputs)
    requires ClaimError(v, s, id, proof, inputs).None?
    ensures !s.Slot(id).claimed
  {}

  /** Through any nesting of posts and claims and any rollback, the invariant holds at the end and at every point where
      outside code can look at the contract or call it. */
  lemma {:induction false} EscrowConserved(v: Verifier, s: State, script: seq<Action>)
    requires Inv(s)
    ensures Inv(Steps(v, s, script)) && AllInv(Seen(v, s, script))
    decreases script
  {
    hide Inv;
    if script != [] {
      StepKeeps(v, s, script[0]);
      var next := Step(v, s, script[0]).0;
      EscrowConserved(v, next, script[1..]);
      AllInvJoin(s, SeenInside(v, s, script[0]), Seen(v, next, script[1..]));
    }
  }

  /** From the constructor on, whatever outside code does: every state it can see keeps the escrow. */
  lemma DeployedEscrow(v: Verifier, script: seq<Action>)
    ensures Inv(Steps(v, Deployed(), script)) && AllInv(Seen(v, Deployed(), script))
  {
    hide Inv, AllInv, Deployed;
    DeployedConserved();
    EscrowConserved(v, Deployed(), script);
  }

  // ----- What a poster and a solver can rely on -----

  /** Nothing that happens later changes a posted slot once it is claimed, and posted slots stay posted. */
  lemma {:induction false} ClaimIsFinal(v: Verifier, s: State, a: Action, id: nat)
    requires id < s.nextId
    ensures id < Step(v, s, a).0.nextId
    ensures s.Slot(id).claimed ==> Step(v, s, a).0.Slot(id) == s.Slot(id)
    ensures Step(v, s, a).0.Slot(id).reward == s.Slot(id).reward
    decreases a
  {
    match a
    case Claim(k, sender, proof, inputs, script, accepts) =>
      if ClaimError(v, s, k, proof, inputs).None? && s.Slot(k).reward <= s.balance {
        ClaimsAreFinal(v, PaidState(s, k, sender), script, id);
      }
    case Frame(script, reverts) => ClaimsAreFinal(v, s, script, id);
    case _ =>
  }

  lemma {:induction false} ClaimsAreFinal(v: Verifier, s: State, script: seq<Action>, id: nat)
    requires id < s.nextId
    ensures id < Steps(v, s, script).nextId
    ensures s.Slot(id).claimed ==> Steps(v, s, script).Slot(id) == s.Slot(id)
    ensures Steps(v, s, script).Slot(id).reward == s.Slot(id).reward
    decreases script
  {
    if script != [] {
      hide Step;
      ClaimIsFinal(v, s, script[0], id);
      ClaimsAreFinal(v, Step(v, s, script[0]).0, script[1..], id);
    }
  }

  /** Exactly when a claim of a posted bounty goes through, whatever the receiver's code does: the contract never lacks
      the funds. The slot is then the sender's for good. */
  lemma ClaimSucceeds(v: Verifier, s: State, id: nat, sender: Address, proof: Bytes, inputs: Inputs,
                      script: seq<Action>, accepts: bool)
    requires Inv(s) && id < s.nextId
    ensures var r := Step(v, s, Action.Claim(id, sender, proof, inputs, script, accepts));
            (r.1 == None <==> !s.Slot(id).claimed && v.Verify(proof, inputs) == None &&
                              inputs.programHash == s.Slot(id).programHash && accepts) &&
            (r.1 == None ==> r.0.Slot(id) == s.Slot(id).(claimed := true, solver := sender)) &&
            (r.1 != None ==> r.0 == s)
  {
    if !s.Slot(id).claimed { FundsSuffice(s, id); }
    if ClaimError(v, s, id, proof, inputs).None? {
      var paid := PaidState(s, id, sender);
      assert paid.Slot(id) == s.Slot(id).(claimed := true, solver := sender);
      hide Inv, Steps;
      ClaimsAreFinal(v, paid, script, id);
    }
  }

  /** Whatever reverts leaves the contract as it was. */
  lemma RevertsLeaveState(v: Verifier, s: State, a: Action)
    ensures Step(v, s, a).1.Some? ==> Step(v, s, a).0 == s
  {
    hide Steps, ClaimError, PaidState, PostedState;
  }

  /** Why a claim reverts: the first of the four tests that fails. The contract never lacks the reward. */
  lemma RevertReasons(v: Verifier, s: State, id: nat, sender: Address, proof: Bytes, inputs: Inputs,
                      script: seq<Action>, accepts: bool, e: VerifyError)
    requires Inv(s)
    ensures var error := Step(v, s, Action.Claim(id, sender, proof, inputs, script, accepts)).1;
            var unclaimed, proven := !s.Slot(id).claimed, v.Verify(proof, inputs);
            var right := inputs.programHash == s.Slot(id).programHash;
            (error == Some(AlreadyClaimed) <==> !unclaimed) &&
            (error == Some(Rejected(e)) <==> unclaimed && proven == Some(e)) &&
            (error == Some(WrongTask) <==> unclaimed && proven == None && !right) &&
            (error == Some(TransferFailed) <==> unclaimed && proven == None && right && !accepts)
    ensures forall value: nat, programHash: Bytes ::
              Step(v, s, Post(sender, value, programHash)).1 == if value == 0 then Some(NoReward) else None
  {
    if !s.Slot(id).claimed { FundsSuffice(s, id); }
    hide Inv, Steps;
  }

  /** A slot that is not posted yet can be claimed, exactly by a valid proof of the zero program hash and a receiver
      that accepts, but its reward is zero: the claim itself moves no ether, whatever the receiver's code does. */
  lemma UnpostedSlot(v: Verifier, s: State, id: nat, sender: Address, proof: Bytes, inputs: Inputs,
                     script: seq<Action>, accepts: bool)
    requires Inv(s) && id >= s.nextId
    ensures s.Slot(id).reward == 0 && PaidState(s, id, sender).balance == s.balance
    ensures var r := Step(v, s, Action.Claim(id, sender, proof, inputs, script, accepts));
            (r.1 == None <==> !s.Slot(id).claimed && v.Verify(proof, inputs) == None &&
                              inputs.programHash == Fill(0, 32) && accepts) &&
            r.0 == if r.1 == None then Steps(v, PaidState(s, id, sender), script) else s
  {
    hide Steps;
    assert EMPTY.programHash == Fill(0, 32);
    assert Unused(s.Slot(id));
  }

  /** A claim of an unposted slot costs its later poster nothing: in whatever state the slot is posted, the post leaves
      it unclaimed, with its whole reward, and claimable by the posted program. */
  lemma PostOverwrites(v: Verifier, t: State, id: nat, poster: Address, value: nat, programHash: Bytes)
    requires Inv(t) && t.nextId == id && value > 0
    ensures var r := Step(v, t, Post(poster, value, programHash));
            r.1 == None && r.0.Slot(id) == BountyData(poster, value, programHash, false, 0) && Inv(r.0) &&
            r.0.balance >= value
  {
    PostKeeps(t, poster, value, programHash);
    FundsSuffice(PostedState(t, poster, value, programHash), id);
  }

  /** What a proof the generated verifier does not accept gets: ProofInvalid exactly when the slot is unclaimed and the
      policy is the expected one; the claimed flag and the policy hash are looked at before. */
  lemma BogusProofOutcome(v: Verifier, s: State, id: nat, sender: Address, proof: Bytes, inputs: Inputs,
                          script: seq<Action>, accepts: bool)
    requires v.honk(proof, Packed(inputs)) != Some(true)
    ensures var r := Step(v, s, Action.Claim(id, sender, proof, inputs, script, accepts));
            var expected := inputs.policyHash == v.expectedPolicyHash;
            r.0 == s &&
            (r.1 == Some(Rejected(ProofInvalid)) <==> !s.Slot(id).claimed && expected) &&
            (r.1 == Some(Rejected(PolicyHashMismatch)) <==> !s.Slot(id).claimed && !expected) &&
            (r.1 == Some(AlreadyClaimed) <==> s.Slot(id).claimed)
  {
    hide Packed, Steps;
  }

  // ----- A bogus proof that does not get ProofInvalid -----

  /** A verifier that accepts the empty proof only, under the zero policy hash. */
  function EmptyProofOnly(): Verifier {
    Verifier(Fill(0, 32), (proof: Bytes, words: seq<nat>) => Some(proof == []))
  }

  function ZeroInputs(): Inputs {
    Public(0, Fill(0, 32), 0, Fill(0, 32), Fill(0, 32), Fill(0, 32), Fill(0, 32), Fill(0, 32))
  }

  /** Once the first bounty is posted and claimed, a rejected proof for it gets AlreadyClaimed. */
  lemma BogusProofOnClaimedSlot()
    ensures var v := EmptyProofOnly();
            var claim := Action.Claim(0, 2, [], ZeroInputs(), [], true);
            var s := Steps(v, Deployed(), [Post(1, 5, Fill(0, 32)), claim]);
            v.Verify([1], ZeroInputs()) == Some(ProofInvalid) && s.nextId == 1 && s.balance == 0 &&
            Step(v, s, Action.Claim(0, 3, [1], ZeroInputs(), [], true)) == (s, Some(AlreadyClaimed))
  {
    hide Packed, Fill;
    var v := EmptyProofOnly();
    var post, claim := Post(1, 5, Fill(0, 32)), Action.Claim(0, 2, [], ZeroInputs(), [], true);
    var posted := Step(v, Deployed(), post).0;
    assert posted.Slot(0) == BountyData(1, 5, Fill(0, 32), false, 0);
    assert v.Verify([], ZeroInputs()) == None;
    var paid := PaidState(posted, 0, 2);
    assert Step(v, posted, claim).0 == Steps(v, paid, []) == paid;
    assert [post, claim][1..] == [claim] && [claim][1..] == [];
    assert Steps(v, Deployed(), [post, claim]) == Steps(v, posted, [claim]) == Steps(v, paid, []) == paid;
  }
}
