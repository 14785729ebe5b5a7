/**
 blockchain/contracts/PauseGuardian.sol: threshold approval of pausing and unpausing a target contract.
 A call that reverts leaves the storage as it was; an id that was never used reads as an empty proposal.
 */
module PauseGuardian {

  type Address = nat
  type Id = nat

  datatype Proposal = Proposal(isPause: bool, reason: string, approvals: nat, executed: bool, approved: set<Address>)

  const UNUSED := Proposal(false, "", 0, false, {})

  /** The guardian's storage, and whether the target is paused. */
  datatype State = State(
    threshold: nat,
    guardians: set<Address>,
    proposalCount: nat,
    proposals: map<Id, Proposal>,
    targetPaused: bool)
  {
    function At(id: Id): Proposal {
      if id in proposals then proposals[id] else UNUSED
    }
  }

  datatype Call =
    | Propose(sender: Address, isPause: bool, reason: string)
    | Approve(sender: Address, id: Id, isPause: bool)
    | Execute(sender: Address, id: Id, isPause: bool)
    | SetRole(byAdmin: bool, guardian: Address, granted: bool)
    | SetTarget(pause: bool) // someone else controls the target

  datatype Outcome =
    | Done | NotGuardian | WrongKind | AlreadyExecuted | AlreadyApproved | ThresholdNotMet | TargetRefused | NotAdmin

  function ApprovalOutcome(p: Proposal, sender: Address): Outcome {
    if p.executed then AlreadyExecuted else if sender in p.approved then AlreadyApproved else Done
  }

  /** The first check that fails, in the order of the contract. */
  function OutcomeOf(s: State, call: Call): Outcome {
    match call
    case Propose(sender, _, _) =>
      if sender !in s.guardians then NotGuardian else ApprovalOutcome(s.At(s.proposalCount), sender)
    case Approve(sender, id, isPause) =>
      if sender !in s.guardians then NotGuardian
      else if s.At(id).isPause != isPause then WrongKind
      else ApprovalOutcome(s.At(id), sender)
    case Execute(sender, id, isPause) =>
      if sender !in s.guardians then NotGuardian
      else if s.At(id).executed then AlreadyExecuted
      else if s.At(id).isPause != isPause then WrongKind
      else if s.At(id).approvals < s.threshold then ThresholdNotMet
      else if s.targetPaused == isPause then TargetRefused
      else Done
    case SetRole(byAdmin, _, _) => if byAdmin then Done else NotAdmin
    case SetTarget(pause) => if s.targetPaused == pause then TargetRefused else Done
  }

  function Approved(p: Proposal, sender: Address): Proposal {
    p.(approved := p.approved + {sender}, approvals := p.approvals + 1)
  }

  function Apply(s: State, call: Call): State {
    if OutcomeOf(s, call) != Done then s else
      match call
      case Propose(sender, isPause, reason) =>
        var p := s.At(s.proposalCount).(isPause := isPause, reason := reason);
        s.(proposals := s.proposals[s.proposalCount := Approved(p, sender)], proposalCount := s.proposalCount + 1)
      case Approve(sender, id, _) => s.(proposals := s.proposals[id := Approved(s.At(id), sender)])
      case Execute(_, id, isPause) =>
        s.(proposals := s.proposals[id := s.At(id).(executed := true)], targetPaused := isPause)
      case SetRole(_, guardian, granted) =>
        s.(guardians := if granted then s.guardians + {guardian} else s.guardians - {guardian})
      case SetTarget(pause) => s.(targetPaused := pause)
  }

  // ---------- the contract ----------

  /** A target whose pause and unpause reject what is already so, as OpenZeppelin's Pausable does. */
  class Pausable {
    var paused: bool

    constructor ()
      ensures !paused
    {
      paused := false;
    }

    method Set(pause: bool) returns (ok: bool)
      modifies this
      ensures ok <==> old(paused) != pause
      ensures paused == pause
    {
      ok := paused != pause;
      paused := pause;
    }
  }

  class Guardian {
    const target: Pausable
    const threshold: nat
    var guardians: set<Address>
    var proposalCount: nat
    var proposals: map<Id, Proposal>

    function Storage(): State
      reads this, target
    {
      State(threshold, guardians, proposalCount, proposals, target.paused)
    }

    constructor (target: Pausable, guardians: seq<Address>, threshold: nat)
      requires 0 < threshold <= |guardians|
      ensures this.target == target
      ensures Storage() == State(threshold, set g | g in guardians, 0, map[], target.paused)
    {
      this.target, this.threshold := target, threshold;
      this.guardians := set g | g in guardians;
      proposalCount, proposals := 0, map[];
    }

    method RecordApproval(sender: Address, id: Id) returns (r: Outcome)
      modifies this`proposals
      ensures r == ApprovalOutcome(old(Storage()).At(id), sender)
      ensures proposals ==
        if r == Done then old(proposals)[id := Approved(old(Storage()).At(id), sender)] else old(proposals)
    {
      var p := Storage().At(id);
      if p.executed { return AlreadyExecuted; }
      if sender in p.approved { return AlreadyApproved; }
      proposals := proposals[id := p.(approved := p.approved + {sender}, approvals := p.approvals + 1)];
      r := Done;
    }

    method Propose(sender: Address, isPause: bool, reason: string) returns (r: Outcome, id: Id)
      modifies this`proposals, this`proposalCount
      ensures r == OutcomeOf(old(Storage()), Call.Propose(sender, isPause, reason))
      ensures Storage() == Apply(old(Storage()), Call.Propose(sender, isPause, reason))
      ensures id == old(proposalCount)
    {
      id := proposalCount;
      if sender !in guardians { r := NotGuardian; return; }
      var before := proposals;
      proposalCount := proposalCount + 1;
      proposals := proposals[id := Storage().At(id).(isPause := isPause, reason := reason)];
      r := RecordApproval(sender, id);
      if r != Done { // the whole call reverts
        proposals, proposalCount := before, id;
      }
    }

    method Approve(sender: Address, id: Id, isPause: bool) returns (r: Outcome)
      modifies this`proposals
      ensures r == OutcomeOf(old(Storage()), Call.Approve(sender, id, isPause))
      ensures Storage() == Apply(old(Storage()), Call.Approve(sender, id, isPause))
    {
      if sender !in guardians { return NotGuardian; }
      if Storage().At(id).isPause != isPause { return WrongKind; }
      r := RecordApproval(sender, id);
    }

    method Execute(sender: Address, id: Id, isPause: bool) returns (r: Outcome)
      modifies this`proposals, target
      ensures r == OutcomeOf(old(Storage()), Call.Execute(sender, id, isPause))
      ensures Storage() == Apply(old(Storage()), Call.Execute(sender, id, isPause))
    {
      if sender !in guardians { return NotGuardian; }
      var before, p := proposals, Storage().At(id);
      if p.executed { return AlreadyExecuted; }
      if p.isPause != isPause { return WrongKind; }
      if p.approvals < threshold { return ThresholdNotMet; }
      proposals := proposals[id := p.(executed := true)];
      var ok := target.Set(isPause);
      if !ok { // the whole call reverts
        proposals := before;
        return TargetRefused;
      }
      r := Done;
    }
  }

  // ---------- whole runs ----------

  /** A guardian as constructed: nothing proposed. */
  predicate Deployed(s: State) {
    0 < s.threshold && s.proposalCount == 0 && s.proposals == map[]
  }

  function Run(s: State, calls: seq<Call>): State {
    if calls == [] then s else Apply(Run(s, calls[..|calls| - 1]), calls[|calls| - 1])
  }

  /** The call is accepted and approves the proposal, for pausing or for unpausing. */
  predicate Approves(s: State, call: Call, id: Id, isPause: bool) {
    && OutcomeOf(s, call) == Done
    && ((call.Propose? && s.proposalCount == id && call.isPause == isPause)
        || (call.Approve? && call.id == id && call.isPause == isPause))
  }

  predicate ApprovesEarly(s: State, call: Call, id: Id) {
    call.Approve? && Approves(s, call, id, call.isPause) && s.proposalCount <= id
  }

  predicate Executes(s: State, call: Call, id: Id) {
    OutcomeOf(s, call) == Done && call.Execute? && call.id == id
  }

  /** Those whose accepted calls approved the proposal for that kind. */
  function ApproversAs(s: State, calls: seq<Call>, id: Id, isPause: bool): set<Address> {
    if calls == [] then {} else
      var init, last := calls[..|calls| - 1], calls[|calls| - 1];
      ApproversAs(s, init, id, isPause) + if Approves(Run(s, init), last, id, isPause) then {last.sender} else {}
  }

  /** Those who approved the id before any proposal was created under it. */
  function EarlyApprovers(s: State, calls: seq<Call>, id: Id): set<Address> {
    if calls == [] then {} else
      var init, last := calls[..|calls| - 1], calls[|calls| - 1];
      EarlyApprovers(s, init, id) + if ApprovesEarly(Run(s, init), last, id) then {last.sender} else {}
  }

  /** How often the proposal was executed. */
  function Executions(s: State, calls: seq<Call>, id: Id): nat {
    if calls == [] then 0 else
      var init, last := calls[..|calls| - 1], calls[|calls| - 1];
      Executions(s, init, id) + if Executes(Run(s, init), last, id) then 1 else 0
  }

  predicate Sound(threshold: nat, p: Proposal) {
    p.approvals == |p.approved| && (p.executed ==> p.approvals >= threshold)
  }

  ghost predicate AllSound(s: State) {
    && (forall id :: id in s.proposals ==> Sound(s.threshold, s.proposals[id]))
    && (forall id :: id in s.proposals && s.proposalCount <= id ==> !s.proposals[id].isPause)
  }

  lemma ApprovalStaysSound(threshold: nat, p: Proposal, sender: Address)
    requires Sound(threshold, p) && ApprovalOutcome(p, sender) == Done
    ensures Sound(threshold, Approved(p, sender))
  {
    assert |p.approved + {sender}| == |p.approved| + 1;
  }

  lemma EditsStaySound(threshold: nat, p: Proposal, isPause: bool, reason: string)
    requires Sound(threshold, p)
    ensures Sound(threshold, p.(isPause := isPause, reason := reason))
    ensures p.approvals >= threshold ==> Sound(threshold, p.(executed := true))
  {
  }

  lemma AtIsSound(s: State, id: Id)
    requires AllSound(s)
    ensures Sound(s.threshold, s.At(id))
  {
  }

  lemma StepStaysSound(s: State, call: Call)
    requires AllSound(s)
    ensures AllSound(Apply(s, call)) && Apply(s, call).threshold == s.threshold
  {
    hide Sound, Approved;
    if OutcomeOf(s, call) == Done {
      if call.Propose? {
        AtIsSound(s, s.proposalCount);
        EditsStaySound(s.threshold, s.At(s.proposalCount), call.isPause, call.reason);
        ApprovalStaysSound(s.threshold, s.At(s.proposalCount).(isPause := call.isPause, reason := call.reason),
                           call.sender);
      } else if call.Approve? {
        AtIsSound(s, call.id);
        ApprovalStaysSound(s.threshold, s.At(call.id), call.sender);
        ApprovalKeepsKind(s.At(call.id), call.sender);
      } else if call.Execute? {
        AtIsSound(s, call.id);
        EditsStaySound(s.threshold, s.At(call.id), call.isPause, "");
      }
    }
  }

  lemma ApprovalKeepsKind(p: Proposal, sender: Address)
    ensures Approved(p, sender).isPause == p.isPause
  {
  }

  /** approvals counts the approved set, and an executed proposal has met the threshold. */
  lemma {:induction false} RunStaysSound(s: State, calls: seq<Call>)
    requires Deployed(s)
    ensures AllSound(Run(s, calls)) && Run(s, calls).threshold == s.threshold
  {
    if calls != [] {
      RunStaysSound(s, calls[..|calls| - 1]);
      hide Apply, AllSound;
      StepStaysSound(Run(s, calls[..|calls| - 1]), calls[|calls| - 1]);
    }
  }

  /** Every approval was made by someone who held the role when making it, and had not approved before. */
  lemma ApprovalNeedsRole(s: State, call: Call, id: Id, isPause: bool)
    requires Approves(s, call, id, isPause)
    ensures call.sender in s.guardians && call.sender !in s.At(id).approved && !s.At(id).executed
    ensures Apply(s, call).At(id).approved == s.At(id).approved + {call.sender} && !Approves(s, call, id, !isPause)
  {
  }

  lemma OnlyApprovalsApprove(s: State, call: Call, id: Id)
    requires !Approves(s, call, id, true) && !Approves(s, call, id, false)
    ensures Apply(s, call).At(id).approved == s.At(id).approved
  {
  }

  /** The approved set is the set of those whose calls approved, each of them once. */
  lemma {:induction false} ApprovedAreApprovers(s: State, calls: seq<Call>, id: Id)
    requires Deployed(s)
    ensures Run(s, calls).At(id).approved == ApproversAs(s, calls, id, true) + ApproversAs(s, calls, id, false)
    ensures ApproversAs(s, calls, id, true) !! ApproversAs(s, calls, id, false)
  {
    if calls != [] {
      var t, last := Run(s, calls[..|calls| - 1]), calls[|calls| - 1];
      ApprovedAreApprovers(s, calls[..|calls| - 1], id);
      hide Apply, Approves, State.At;
      if Approves(t, last, id, true) {
        ApprovalNeedsRole(t, last, id, true);
      } else if Approves(t, last, id, false) {
        ApprovalNeedsRole(t, last, id, false);
      } else {
        OnlyApprovalsApprove(t, last, id);
      }
    }
  }

  lemma KindStep(s: State, call: Call, id: Id)
    requires s.proposalCount <= id ==> !s.At(id).isPause
    ensures var s' := Apply(s, call);
      && (!s'.At(id).isPause ==> !s.At(id).isPause && !Approves(s, call, id, true))
      && (s'.At(id).isPause ==>
            (!Approves(s, call, id, false) && !ApprovesEarly(s, call, id)
             && (s.At(id).isPause || s.proposalCount <= id)))
      && (s'.proposalCount <= id ==>
            (s.proposalCount <= id && !s'.At(id).isPause
             && (ApprovesEarly(s, call, id) <==> Approves(s, call, id, false))))
  {
  }

  /**
   An unpause proposal was approved as one by everybody; a pause proposal by everybody but those who approved its
   id before it was created.
   */
  lemma {:induction false} ApprovedForItsKind(s: State, calls: seq<Call>, id: Id)
    requires Deployed(s)
    ensures !Run(s, calls).At(id).isPause ==> ApproversAs(s, calls, id, true) == {}
    ensures Run(s, calls).At(id).isPause ==> ApproversAs(s, calls, id, false) == EarlyApprovers(s, calls, id)
    ensures Run(s, calls).proposalCount <= id ==>
      (!Run(s, calls).At(id).isPause && ApproversAs(s, calls, id, false) == EarlyApprovers(s, calls, id))
  {
    if calls != [] {
      ApprovedForItsKind(s, calls[..|calls| - 1], id);
      hide Apply, Approves, ApprovesEarly, State.At;
      KindStep(Run(s, calls[..|calls| - 1]), calls[|calls| - 1], id);
    }
  }

  /** Executed proposals are out of reach: approvers, kind and reason stay as they are, and no second execution. */
  lemma ExecutedIsFrozen(s: State, call: Call, id: Id)
    requires s.At(id).executed
    ensures Apply(s, call).At(id) == s.At(id) && !Executes(s, call, id)
  {
  }

  lemma ExecutionExecutes(s: State, call: Call, id: Id)
    requires !s.At(id).executed
    ensures Apply(s, call).At(id).executed <==> Executes(s, call, id)
  {
  }

  lemma {:induction false} ExecutesOnce(s: State, calls: seq<Call>, id: Id)
    requires Deployed(s)
    ensures Executions(s, calls, id) == if Run(s, calls).At(id).executed then 1 else 0
  {
    if calls != [] {
      var t, last := Run(s, calls[..|calls| - 1]), calls[|calls| - 1];
      ExecutesOnce(s, calls[..|calls| - 1], id);
      hide Apply, Executes, State.At;
      if t.At(id).executed { ExecutedIsFrozen(t, last, id); } else { ExecutionExecutes(t, last, id); }
    }
  }

  lemma {:induction false} FrozenForGood(s: State, calls: seq<Call>, id: Id)
    requires s.At(id).executed
    ensures Run(s, calls).At(id) == s.At(id)
  {
    if calls != [] {
      FrozenForGood(s, calls[..|calls| - 1], id);
      hide Apply, State.At;
      ExecutedIsFrozen(Run(s, calls[..|calls| - 1]), calls[|calls| - 1], id);
    }
  }

  /** A created proposal never changes its kind; an id that was not yet created reads as an unpause. */
  lemma KindIsFixedByCreation(s: State, call: Call, id: Id)
    requires AllSound(s)
    ensures id < s.proposalCount ==> Apply(s, call).At(id).isPause == s.At(id).isPause
    ensures s.proposalCount <= id ==> !s.At(id).isPause
  {
  }

  /** An executed proposal has at least the threshold of distinct approvers, all by accepted calls of role holders. */
  lemma ExecutedMetThreshold(s: State, calls: seq<Call>, id: Id)
    requires Deployed(s) && Run(s, calls).At(id).executed
    ensures |ApproversAs(s, calls, id, true) + ApproversAs(s, calls, id, false)| >= s.threshold
    ensures !Run(s, calls).At(id).isPause ==> |ApproversAs(s, calls, id, false)| >= s.threshold
    ensures Run(s, calls).At(id).isPause ==>
      |ApproversAs(s, calls, id, true)| + |EarlyApprovers(s, calls, id)| >= s.threshold
  {
    RunStaysSound(s, calls);
    ApprovedAreApprovers(s, calls, id);
    ApprovedForItsKind(s, calls, id);
    var pausers, others := ApproversAs(s, calls, id, true), ApproversAs(s, calls, id, false);
    var t := Run(s, calls);
    hide Run, ApproversAs, EarlyApprovers;
    assert Sound(t.threshold, t.At(id));
    assert {} + others == others;
  }

  /** The approvals of a pause are those given to it as a pause and the early ones, and nobody gave both. */
  lemma PauseApprovalsSplit(s: State, calls: seq<Call>, id: Id)
    requires Deployed(s) && Run(s, calls).At(id).isPause
    ensures Run(s, calls).At(id).approvals == |ApproversAs(s, calls, id, true)| + |EarlyApprovers(s, calls, id)|
  {
    RunStaysSound(s, calls);
    ApprovedAreApprovers(s, calls, id);
    ApprovedForItsKind(s, calls, id);
    var t := Run(s, calls);
    hide Run, ApproversAs, EarlyApprovers;
    assert Sound(t.threshold, t.At(id));
  }

  // ---------- ids that were never created ----------

  lemma {:induction false} StaysBlocked(s: State, calls: seq<Call>)
    requires s.At(s.proposalCount).executed
    ensures Run(s, calls).proposalCount == s.proposalCount && Run(s, calls).At(s.proposalCount).executed
  {
    if calls != [] {
      StaysBlocked(s, calls[..|calls| - 1]);
    }
  }

  lemma {:induction false} FreshAddress(s: set<Address>) returns (a: Address)
    ensures forall b :: b in s ==> b < a
    decreases s
  {
    if s == {} {
      a := 0;
    } else {
      var b :| b in s;
      var c := FreshAddress(s - {b});
      a := if b < c then c else b + 1;
      assert s == (s - {b}) + {b};
    }
  }

  /** A newcomer who is granted the role can propose, unless the next id has been executed. */
  lemma NewcomerProposes(s: State, a: Address)
    requires !s.At(s.proposalCount).executed && a !in s.At(s.proposalCount).approved
    ensures OutcomeOf(Run(s, [SetRole(true, a, true)]), Propose(a, true, "")) == Done
  {
    var call := SetRole(true, a, true);
    assert [call][..0] == [] && Run(s, []) == s && Run(s, [call]) == Apply(s, call);
  }

  /**
   No proposal can ever be made again, whatever calls follow and whatever roles are granted, exactly if the next
   id has already been executed.
   */
  lemma ProposingIsBlocked(s: State)
    ensures (forall calls: seq<Call>, c: Call :: c.Propose? ==> OutcomeOf(Run(s, calls), c) != Done) <==>
      s.At(s.proposalCount).executed
  {
    if s.At(s.proposalCount).executed {
      forall calls: seq<Call>, c: Call | c.Propose? ensures OutcomeOf(Run(s, calls), c) != Done {
        StaysBlocked(s, calls);
      }
    } else {
      var a := FreshAddress(s.At(s.proposalCount).approved);
      NewcomerProposes(s, a);
    }
  }

  // ---------- how the next id comes to be executed ----------

  lemma RunOneMore(s: State, calls: seq<Call>, c: Call)
    ensures Run(s, calls + [c]) == Apply(Run(s, calls), c)
  {
    assert (calls + [c])[..|calls|] == calls;
  }

  lemma {:induction false} RunsCompose(s: State, a: seq<Call>, b: seq<Call>)
    ensures Run(s, a + b) == Run(Run(s, a), b)
    decreases |b|
  {
    hide Apply;
    if b == [] {
      assert a + b == a;
    } else {
      RunsCompose(s, a, b[..|b| - 1]);
      assert (a + b)[..|a + b| - 1] == a + b[..|b| - 1];
    }
  }

  predicate Distinct(s: seq<Address>) {
    forall i, j :: 0 <= i < j < |s| ==> s[i] != s[j]
  }

  /** Everybody in the list approves the id. */
  function ApproveAll(gs: seq<Address>, id: Id, isPause: bool): seq<Call> {
    if gs == [] then [] else ApproveAll(gs[..|gs| - 1], id, isPause) + [Approve(gs[|gs| - 1], id, isPause)]
  }

  /** t is s with approvals of the id by the listed guardians. */
  ghost predicate WithApprovals(s: State, t: State, id: Id, gs: seq<Address>) {
    && t.threshold == s.threshold && t.guardians == s.guardians && t.proposalCount == s.proposalCount
    && t.targetPaused == s.targetPaused
    && t.At(id).isPause == s.At(id).isPause && t.At(id).executed == s.At(id).executed
    && t.At(id).approvals == s.At(id).approvals + |gs|
    && (forall g :: g in t.At(id).approved <==> g in s.At(id).approved || g in gs)
    && (forall j :: j != id ==> t.At(j) == s.At(j))
  }

  lemma {:induction false} ApproveAllApproves(s: State, gs: seq<Address>, id: Id, isPause: bool)
    requires Distinct(gs) && (forall g :: g in gs ==> g in s.guardians && g !in s.At(id).approved)
    requires s.At(id).isPause == isPause && !s.At(id).executed
    ensures WithApprovals(s, Run(s, ApproveAll(gs, id, isPause)), id, gs)
  {
    if gs != [] {
      var n := |gs| - 1;
      ApproveAllApproves(s, gs[..n], id, isPause);
      var t := Run(s, ApproveAll(gs[..n], id, isPause));
      RunOneMore(s, ApproveAll(gs[..n], id, isPause), Approve(gs[n], id, isPause));
      hide Run, ApproveAll;
      assert gs[n] !in gs[..n];
      ApprovesOneMore(s, t, gs, id);
    }
  }

  lemma ApproveEffect(s: State, g: Address, id: Id)
    requires g in s.guardians && g !in s.At(id).approved && !s.At(id).executed
    ensures var t := Apply(s, Approve(g, id, s.At(id).isPause));
      && t.threshold == s.threshold && t.guardians == s.guardians && t.proposalCount == s.proposalCount
      && t.targetPaused == s.targetPaused
      && t.At(id) == Approved(s.At(id), g) && forall j :: j != id ==> t.At(j) == s.At(j)
  {
  }

  lemma ApprovesOneMore(s: State, t: State, gs: seq<Address>, id: Id)
    requires gs != [] && gs[|gs| - 1] !in gs[..|gs| - 1]
    requires gs[|gs| - 1] in s.guardians && gs[|gs| - 1] !in s.At(id).approved && !s.At(id).executed
    requires WithApprovals(s, t, id, gs[..|gs| - 1])
    ensures WithApprovals(s, Apply(t, Approve(gs[|gs| - 1], id, s.At(id).isPause)), id, gs)
  {
    hide Apply, OutcomeOf, State.At;
    ApproveEffect(t, gs[|gs| - 1], id);
    LastOrBefore(gs);
  }

  lemma LastOrBefore(gs: seq<Address>)
    requires gs != []
    ensures forall g :: g in gs <==> g in gs[..|gs| - 1] || g == gs[|gs| - 1]
  {
    assert gs == gs[..|gs| - 1] + [gs[|gs| - 1]];
  }

  /** A quorum approves and executes an id that was never created; the target has to be paused. */
  function ExecuteUncreated(gs: seq<Address>, id: Id): seq<Call>
    requires gs != []
  {
    ApproveAll(gs, id, false) + [Execute(gs[0], id, false)]
  }

  lemma UncreatedExecutes(s: State, gs: seq<Address>)
    requires gs != [] && Distinct(gs) && |gs| >= s.threshold && (forall g :: g in gs ==> g in s.guardians)
    requires s.At(s.proposalCount) == UNUSED && s.targetPaused
    ensures var t := Run(s, ExecuteUncreated(gs, s.proposalCount));
      t.proposalCount == s.proposalCount && t.At(t.proposalCount).executed
  {
    ApproveAllApproves(s, gs, s.proposalCount, false);
    hide Run, ApproveAll, Distinct;
    RunOneMore(s, ApproveAll(gs, s.proposalCount, false), Execute(gs[0], s.proposalCount, false));
  }

  /** A quorum pauses the target through the first proposal. */
  function PauseFirst(gs: seq<Address>): seq<Call>
    requires gs != []
  {
    [Propose(gs[0], true, "")] + ApproveAll(gs[1..], 0, true) + [Execute(gs[0], 0, true)]
  }

  lemma PauseFirstPauses(s: State, gs: seq<Address>)
    requires Deployed(s) && !s.targetPaused
    requires gs != [] && Distinct(gs) && |gs| >= s.threshold && (forall g :: g in gs ==> g in s.guardians)
    ensures var t := Run(s, PauseFirst(gs));
      && t.targetPaused && t.proposalCount == 1 && t.At(1) == UNUSED
      && t.threshold == s.threshold && t.guardians == s.guardians
  {
    var propose := Propose(gs[0], true, "");
    RunOneMore(s, [], propose);
    assert [] + [propose] == [propose] && Run(s, []) == s;
    var t := Apply(s, propose);
    assert t.At(0).approved == {gs[0]} && t.At(0).approvals == 1 && t.At(1) == UNUSED;
    hide Run, ApproveAll;
    ApproveAllApproves(t, gs[1..], 0, true);
    RunsCompose(s, [propose], ApproveAll(gs[1..], 0, true));
    RunOneMore(s, [propose] + ApproveAll(gs[1..], 0, true), Execute(gs[0], 0, true));
  }

  /** What a quorum calls to block proposing: nobody grants a role or touches the target but the guardian. */
  function BlockingCalls(s: State, gs: seq<Address>): seq<Call>
    requires gs != []
  {
    if s.targetPaused then ExecuteUncreated(gs, 0) else PauseFirst(gs) + ExecuteUncreated(gs, 1)
  }

  /** Every deployed guardian can come to that: any quorum of its guardians blocks proposing for good. */
  lemma QuorumBlocksProposing(s: State, gs: seq<Address>)
    requires Deployed(s) && Distinct(gs) && |gs| >= s.threshold && (forall g :: g in gs ==> g in s.guardians)
    ensures var t := Run(s, BlockingCalls(s, gs)); t.At(t.proposalCount).executed
  {
    hide Run, ApproveAll, Distinct;
    if s.targetPaused {
      UncreatedExecutes(s, gs);
    } else {
      PauseFirstPauses(s, gs);
      UncreatedExecutes(Run(s, PauseFirst(gs)), gs);
      RunsCompose(s, PauseFirst(gs), ExecuteUncreated(gs, 1));
    }
  }

  // ---------- early approvals ----------

  lemma {:induction false} EarlyBeforeCreation(s: State, calls: seq<Call>, id: Id)
    requires Deployed(s) && Run(s, calls).proposalCount <= id
    ensures EarlyApprovers(s, calls, id) == Run(s, calls).At(id).approved
  {
    ApprovedAreApprovers(s, calls, id);
    ApprovedForItsKind(s, calls, id);
  }

  lemma CountOnlyGrows(s: State, call: Call)
    ensures s.proposalCount <= Apply(s, call).proposalCount
  {
  }

  /** Once the proposal is created, no approval of it is early any more, and no approver is lost. */
  lemma {:induction false} CreationEndsEarliness(s: State, calls: seq<Call>, more: seq<Call>, id: Id)
    requires id < Run(s, calls).proposalCount
    ensures id < Run(s, calls + more).proposalCount
    ensures EarlyApprovers(s, calls + more, id) == EarlyApprovers(s, calls, id)
    ensures ApproversAs(s, calls, id, true) <= ApproversAs(s, calls + more, id, true)
    decreases |more|
  {
    hide Apply, Approves;
    if more == [] {
      assert calls + more == calls;
    } else {
      var init, last := more[..|more| - 1], more[|more| - 1];
      CreationEndsEarliness(s, calls, init, id);
      assert (calls + more)[..|calls + more| - 1] == calls + init;
      CountOnlyGrows(Run(s, calls + init), last);
    }
  }

  /** A guardian's accepted proposal to pause: its own approval is one for pausing, the early ones are those there. */
  lemma Creation(s: State, calls: seq<Call>, c: Call)
    requires Deployed(s) && c.Propose? && c.isPause && OutcomeOf(Run(s, calls), c) == Done
    ensures var t, id, all := Run(s, calls), Run(s, calls).proposalCount, calls + [c];
      && Run(s, all) == Apply(t, c) && EarlyApprovers(s, all, id) == t.At(id).approved
      && c.sender in ApproversAs(s, all, id, true) && id < Run(s, all).proposalCount
  {
    EarlyBeforeCreation(s, calls, Run(s, calls).proposalCount);
    assert (calls + [c])[..|calls|] == calls;
  }

  /** A pause executed although fewer guardians than the threshold approved a pause. */
  ghost predicate ExecutedShort(s: State, calls: seq<Call>, id: Id) {
    && Run(s, calls).At(id).isPause && Run(s, calls).At(id).executed
    && |ApproversAs(s, calls, id, true)| < s.threshold
  }

  lemma ShortNeedsEarlyApprovals(s: State, calls: seq<Call>, c: Call, more: seq<Call>)
    requires Deployed(s) && c.Propose? && c.isPause && OutcomeOf(Run(s, calls), c) == Done
    requires ExecutedShort(s, calls + [c] + more, Run(s, calls).proposalCount)
    ensures s.threshold >= 2 && Run(s, calls).At(Run(s, calls).proposalCount).approved != {}
  {
    var id, all := Run(s, calls).proposalCount, calls + [c] + more;
    Creation(s, calls, c);
    CreationEndsEarliness(s, calls + [c], more, id);
    ExecutedMetThreshold(s, all, id);
    hide Run, ApproversAs, EarlyApprovers, Apply, OutcomeOf;
    assert c.sender in ApproversAs(s, all, id, true);
    AtLeastOne(ApproversAs(s, all, id, true), c.sender);
  }

  lemma AtLeastOne(a: set<Address>, x: Address)
    requires x in a
    ensures |a| >= 1
  {
  }

  /** k addresses from a on. */
  function Newcomers(a: Address, k: nat): (gs: seq<Address>)
    ensures |gs| == k && forall i :: 0 <= i < k ==> gs[i] == a + i
  {
    if k == 0 then [] else Newcomers(a, k - 1) + [a + (k - 1)]
  }

  lemma NewcomersDistinct(a: Address, k: nat)
    ensures Distinct(Newcomers(a, k))
  {
  }

  function GrantAll(gs: seq<Address>): seq<Call> {
    if gs == [] then [] else GrantAll(gs[..|gs| - 1]) + [SetRole(true, gs[|gs| - 1], true)]
  }

  lemma {:induction false} GrantAllGrants(s: State, gs: seq<Address>)
    ensures var t := Run(s, GrantAll(gs));
      t == s.(guardians := t.guardians) && s.guardians <= t.guardians && forall g :: g in gs ==> g in t.guardians
  {
    if gs != [] {
      var n := |gs| - 1;
      GrantAllGrants(s, gs[..n]);
      RunOneMore(s, GrantAll(gs[..n]), SetRole(true, gs[n], true));
      hide Run, GrantAll;
      LastOrBefore(gs);
    }
  }

  function Unpausing(paused: bool): seq<Call> {
    if paused then [SetTarget(false)] else []
  }

  lemma Unpauses(s: State)
    ensures Run(s, Unpausing(s.targetPaused)) == s.(targetPaused := false)
  {
    if s.targetPaused {
      RunOneMore(s, [], SetTarget(false));
      assert [] + [SetTarget(false)] == [SetTarget(false)] && Run(s, []) == s;
    }
  }

  /** Newcomers who are granted the role approve the pause, the target is unpaused, and the proposer executes. */
  function Completion(t: State, id: Id, proposer: Address, gs: seq<Address>): seq<Call> {
    GrantAll(gs) + ApproveAll(gs, id, true) + Unpausing(t.targetPaused) + [Execute(proposer, id, true)]
  }

  lemma CompletionExecutes(t: State, id: Id, proposer: Address, gs: seq<Address>)
    requires proposer in t.guardians && t.At(id).isPause && !t.At(id).executed
    requires Distinct(gs) && (forall g :: g in gs ==> g !in t.At(id).approved)
    requires t.At(id).approvals + |gs| >= t.threshold
    ensures var u := Run(t, Completion(t, id, proposer, gs));
      u.At(id).executed && u.At(id).isPause && u.At(id).approvals == t.At(id).approvals + |gs|
  {
    var granted := Run(t, GrantAll(gs));
    GrantAllGrants(t, gs);
    ApproveAllApproves(granted, gs, id, true);
    var approved := Run(granted, ApproveAll(gs, id, true));
    Unpauses(approved);
    hide Run, GrantAll, ApproveAll, Unpausing;
    RunsCompose(t, GrantAll(gs), ApproveAll(gs, id, true));
    RunsCompose(t, GrantAll(gs) + ApproveAll(gs, id, true), Unpausing(t.targetPaused));
    RunOneMore(t, GrantAll(gs) + ApproveAll(gs, id, true) + Unpausing(t.targetPaused), Execute(proposer, id, true));
  }

  lemma EarlyApprovalsShorten(s: State, calls: seq<Call>, c: Call) returns (more: seq<Call>)
    requires Deployed(s) && c.Propose? && c.isPause && OutcomeOf(Run(s, calls), c) == Done
    requires s.threshold >= 2 && Run(s, calls).At(Run(s, calls).proposalCount).approved != {}
    ensures ExecutedShort(s, calls + [c] + more, Run(s, calls).proposalCount)
  {
    hide Run, Apply, OutcomeOf, State.At, AllSound, ApproversAs, EarlyApprovers, Completion, Distinct;
    var before, id := Run(s, calls), Run(s, calls).proposalCount;
    var t := Run(s, calls + [c]);
    Creation(s, calls, c);
    RunStaysSound(s, calls);
    RunStaysSound(s, calls + [c]);
    CreationState(before, c);
    var missing := if t.At(id).approvals < s.threshold then s.threshold - t.At(id).approvals else 0;
    var a := FreshAddress(t.At(id).approved);
    var gs := Newcomers(a, missing);
    NewcomersDistinct(a, missing);
    CompletionExecutes(t, id, c.sender, gs);
    more := Completion(t, id, c.sender, gs);
    RunsCompose(s, calls + [c], more);
    CreationEndsEarliness(s, calls + [c], more, id);
    PauseApprovalsSplit(s, calls + [c] + more, id);
  }

  lemma CreationState(s: State, c: Call)
    requires AllSound(s) && c.Propose? && c.isPause && OutcomeOf(s, c) == Done
    ensures var t, id := Apply(s, c), s.proposalCount;
      && c.sender in t.guardians && t.At(id).isPause && !t.At(id).executed
      && t.At(id).approvals == |s.At(id).approved| + 1 && t.At(id).approved == s.At(id).approved + {c.sender}
  {
  }

  /**
   When a pause is created after any run, it can come to be executed with fewer pause approvers than the threshold
   exactly if the threshold is at least two and somebody had approved its id already, which getApprovals shows.
   */
  lemma ShortExactly(s: State, calls: seq<Call>, c: Call)
    requires Deployed(s) && c.Propose? && c.isPause && OutcomeOf(Run(s, calls), c) == Done
    ensures (exists more: seq<Call> :: ExecutedShort(s, calls + [c] + more, Run(s, calls).proposalCount)) <==>
      s.threshold >= 2 && Run(s, calls).At(Run(s, calls).proposalCount).approvals > 0
  {
    RunStaysSound(s, calls);
    hide Run, Apply, OutcomeOf, ExecutedShort;
    AtIsSound(Run(s, calls), Run(s, calls).proposalCount);
    if s.threshold >= 2 && Run(s, calls).At(Run(s, calls).proposalCount).approved != {} {
      var more := EarlyApprovalsShorten(s, calls, c);
    }
    if more: seq<Call> :| ExecutedShort(s, calls + [c] + more, Run(s, calls).proposalCount) {
      ShortNeedsEarlyApprovals(s, calls, c, more);
    }
  }

  /** The first k approve an unused id; the next one creates a pause under it, the others approve it, one executes. */
  function SplitQuorum(gs: seq<Address>, k: nat, id: Id): seq<Call>
    requires k < |gs|
  {
    ApproveAll(gs[..k], id, false) + [Propose(gs[k], true, "")] + ApproveAll(gs[k + 1..], id, true)
    + [Execute(gs[0], id, true)]
  }

  lemma Parts(gs: seq<Address>, k: nat)
    requires Distinct(gs) && k < |gs|
    ensures Distinct(gs[..k]) && Distinct(gs[k + 1..])
    ensures gs[k] !in gs[..k] && forall g :: g in gs[k + 1..] ==> g !in gs[..k] && g != gs[k]
  {
  }

  /** The quorum's calls up to and including the creation. */
  lemma SplitCreates(t: State, gs: seq<Address>, k: nat)
    requires t.At(t.proposalCount) == UNUSED && Distinct(gs) && k < |gs| && (forall g :: g in gs ==> g in t.guardians)
    ensures var n, early := t.proposalCount, ApproveAll(gs[..k], t.proposalCount, false);
      var v := Run(t, early);
      && v.proposalCount == n && v.threshold == t.threshold && v.guardians == t.guardians
      && v.targetPaused == t.targetPaused
      && |v.At(n).approved| == k == v.At(n).approvals
      && (forall g :: g in v.At(n).approved <==> g in gs[..k])
      && OutcomeOf(v, Propose(gs[k], true, "")) == Done
  {
    var n := t.proposalCount;
    Parts(gs, k);
    ApproveAllApproves(t, gs[..k], n, false);
    var v := Run(t, ApproveAll(gs[..k], n, false));
    hide Run, ApproveAll;
    DistinctCount(gs[..k], v.At(n).approved);
  }

  lemma {:induction false} DistinctCount(gs: seq<Address>, members: set<Address>)
    requires Distinct(gs) && forall g :: g in members <==> g in gs
    ensures |members| == |gs|
  {
    if gs == [] {
      assert members == {};
    } else {
      var n := |gs| - 1;
      LastOrBefore(gs);
      LastIsNew(gs);
      DistinctCount(gs[..n], members - {gs[n]});
    }
  }

  lemma LastIsNew(gs: seq<Address>)
    requires Distinct(gs) && gs != []
    ensures Distinct(gs[..|gs| - 1]) && gs[|gs| - 1] !in gs[..|gs| - 1]
  {
  }

  lemma SplitExecutes(v: State, gs: seq<Address>, k: nat, id: Id)
    requires Distinct(gs) && 0 < k < |gs| && id == v.proposalCount && OutcomeOf(v, Propose(gs[k], true, "")) == Done
    requires v.threshold <= |gs| && (forall g :: g in gs ==> g in v.guardians)
    requires !v.targetPaused && v.At(id).approvals == k && (forall g :: g in v.At(id).approved <==> g in gs[..k])
    ensures var more := ApproveAll(gs[k + 1..], id, true) + [Execute(gs[0], id, true)];
      var u := Run(Apply(v, Propose(gs[k], true, "")), more);
      u.targetPaused && u.At(id).isPause && u.At(id).executed && u.At(id).approvals == |gs|
  {
    Parts(gs, k);
    var created := Apply(v, Propose(gs[k], true, ""));
    assert created.At(id) == Approved(v.At(id).(isPause := true, reason := ""), gs[k]);
    ApproveAllApproves(created, gs[k + 1..], id, true);
    hide Run, ApproveAll, Distinct;
    RunOneMore(created, ApproveAll(gs[k + 1..], id, true), Execute(gs[0], id, true));
  }

  /**
   For every threshold and every quorum of guardians: after any run, while the next id is unused and the target is
   unpaused, k of them can be early, for any k, so that all together pause although only the others approved a pause.
   */
  lemma EarlyApprovalsCount(s: State, calls: seq<Call>, gs: seq<Address>, k: nat)
    requires Deployed(s) && !Run(s, calls).targetPaused && Run(s, calls).At(Run(s, calls).proposalCount) == UNUSED
    requires Distinct(gs) && 0 < k < |gs| && s.threshold <= |gs|
    requires forall g :: g in gs ==> g in Run(s, calls).guardians
    ensures var id, all := Run(s, calls).proposalCount, calls + SplitQuorum(gs, k, Run(s, calls).proposalCount);
      && Run(s, all).targetPaused && Run(s, all).At(id).executed
      && |ApproversAs(s, all, id, true)| == |gs| - k && |EarlyApprovers(s, all, id)| == k
  {
    hide Run, Apply, OutcomeOf, ApproveAll, Distinct, ApproversAs, EarlyApprovers, State.At, AllSound, UNUSED;
    var t, id := Run(s, calls), Run(s, calls).proposalCount;
    var early, c := ApproveAll(gs[..k], id, false), Propose(gs[k], true, "");
    var late := ApproveAll(gs[k + 1..], id, true) + [Execute(gs[0], id, true)];
    RunStaysSound(s, calls);
    SplitCreates(t, gs, k);
    RunsCompose(s, calls, early);
    SplitExecutes(Run(t, early), gs, k, id);
    Creation(s, calls + early, c);
    RunsCompose(s, calls + early + [c], late);
    CreationEndsEarliness(s, calls + early + [c], late, id);
    assert calls + SplitQuorum(gs, k, id) == calls + early + [c] + late;
    PauseApprovalsSplit(s, calls + early + [c] + late, id);
  }

  // ---------- too few guardians ----------

  lemma {:induction false} SubsetIsSmaller(a: set<Address>, b: set<Address>)
    requires a <= b
    ensures |a| <= |b|
    decreases b
  {
    if a != {} {
      var x :| x in a;
      SubsetIsSmaller(a - {x}, b - {x});
    }
  }

  ghost predicate OnlyGuardiansApproved(s: State, guardians: set<Address>) {
    s.guardians == guardians
    && forall id :: id in s.proposals ==> s.proposals[id].approved <= guardians && !s.proposals[id].executed
  }

  lemma StepNeedsQuorum(s: State, call: Call, guardians: set<Address>)
    requires AllSound(s) && OnlyGuardiansApproved(s, guardians) && |guardians| < s.threshold && !call.SetRole?
    ensures OnlyGuardiansApproved(Apply(s, call), guardians)
  {
    if call.Execute? && call.id in s.proposals {
      SubsetIsSmaller(s.proposals[call.id].approved, guardians);
      assert Sound(s.threshold, s.proposals[call.id]);
    }
  }

  /**
   Fewer guardians than the threshold execute nothing while no role is granted, so a quorum is exactly what it
   takes.
   */
  lemma {:induction false} NothingWithoutQuorum(s: State, calls: seq<Call>)
    requires Deployed(s) && |s.guardians| < s.threshold && forall c :: c in calls ==> !c.SetRole?
    ensures OnlyGuardiansApproved(Run(s, calls), s.guardians)
  {
    if calls != [] {
      NothingWithoutQuorum(s, calls[..|calls| - 1]);
      RunStaysSound(s, calls[..|calls| - 1]);
      hide Apply, AllSound, OnlyGuardiansApproved;
      StepNeedsQuorum(Run(s, calls[..|calls| - 1]), calls[|calls| - 1], s.guardians);
    }
  }

  // ---------- alternation ----------

  /** The kinds of the executed proposals, in order, as the storage has them when they are executed. */
  function ExecutedKinds(s: State, calls: seq<Call>): seq<bool> {
    if calls == [] then [] else
      var init, last := calls[..|calls| - 1], calls[|calls| - 1];
      ExecutedKinds(s, init)
      + if last.Execute? && Executes(Run(s, init), last, last.id) then [Run(s, init).At(last.id).isPause] else []
  }

  /**
   While nobody else controls a target that starts unpaused, executed proposals alternate in kind, beginning with a
   pause, and the target is paused exactly after an odd number of them.
   */
  lemma {:induction false} ExecutionsAlternate(s: State, calls: seq<Call>)
    requires Deployed(s) && !s.targetPaused && forall c :: c in calls ==> !c.SetTarget?
    ensures var kinds := ExecutedKinds(s, calls);
      && (forall i :: 0 <= i < |kinds| ==> kinds[i] == (i % 2 == 0))
      && Run(s, calls).targetPaused == (|kinds| % 2 == 1)
  {
    if calls != [] {
      var t, last := Run(s, calls[..|calls| - 1]), calls[|calls| - 1];
      ExecutionsAlternate(s, calls[..|calls| - 1]);
      ExecutionTogglesTarget(t, last);
      hide Apply, Executes, State.At;
    }
  }

  lemma ExecutionTogglesTarget(s: State, call: Call)
    requires !call.SetTarget?
    ensures Apply(s, call).targetPaused ==
      if call.Execute? && Executes(s, call, call.id) then s.At(call.id).isPause else s.targetPaused
    ensures call.Execute? && Executes(s, call, call.id) ==> s.At(call.id).isPause != s.targetPaused
  {
  }
}
