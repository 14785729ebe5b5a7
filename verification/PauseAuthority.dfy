/**
 Who pauses and unpauses the target of a guardian: only proposals of that kind, approved by a quorum of those whom
 the admin made guardians.
 */
module PauseAuthority {
  import opened PauseGuardian

  // ---------- what is accepted ----------

  /** A proposal is accepted exactly from a guardian who has not approved the next id, while it is not executed. */
  lemma ProposalAcceptedExactly(s: State, c: Call)
    requires c.Propose?
    ensures OutcomeOf(s, c) == Done <==>
      && c.sender in s.guardians
      && !s.At(s.proposalCount).executed
      && c.sender !in s.At(s.proposalCount).approved
  {
  }

  /** An approval is accepted exactly from a guardian new to a proposal of the named kind that is not executed. */
  lemma ApprovalAcceptedExactly(s: State, c: Call)
    requires c.Approve?
    ensures OutcomeOf(s, c) == Done <==>
      && c.sender in s.guardians
      && s.At(c.id).isPause == c.isPause
      && !s.At(c.id).executed
      && c.sender !in s.At(c.id).approved
  {
  }

  /**
   After any run an execution is accepted exactly from a guardian, once, for a proposal of the named kind with a
   quorum of distinct approvers, and while the target is not yet as the proposal wants it.
   */
  lemma ExecutionAcceptedExactly(s: State, calls: seq<Call>, c: Call)
    requires Deployed(s) && c.Execute?
    ensures var t := Run(s, calls);
      OutcomeOf(t, c) == Done <==>
      && c.sender in t.guardians
      && !t.At(c.id).executed
      && t.At(c.id).isPause == c.isPause
      && |t.At(c.id).approved| >= s.threshold
      && t.targetPaused != t.At(c.id).isPause
  {
    RunStaysSound(s, calls);
    hide Run;
    AtIsSound(Run(s, calls), c.id);
  }

  // ---------- roles ----------

  /** What the admin decided last about the guardian, or the role at deployment. */
  function HasRole(s: State, calls: seq<Call>, g: Address): bool {
    if calls == [] then g in s.guardians else
      var init, last := calls[..|calls| - 1], calls[|calls| - 1];
      if last.SetRole? && last.byAdmin && last.guardian == g then last.granted else HasRole(s, init, g)
  }

  /** In every run the guardians are those whom the admin granted the role last. */
  lemma {:induction false} GuardiansExactly(s: State, calls: seq<Call>, g: Address)
    ensures g in Run(s, calls).guardians <==> HasRole(s, calls, g)
  {
    if calls != [] {
      GuardiansExactly(s, calls[..|calls| - 1], g);
    }
  }

  // ---------- creation ----------

  /** Call j creates the proposal. */
  predicate Creates(s: State, calls: seq<Call>, j: nat, id: Id)
    requires j < |calls|
  {
    && calls[j].Propose? && Run(s, calls[..j]).proposalCount == id
    && OutcomeOf(Run(s, calls[..j]), calls[j]) == Done
  }

  ghost predicate AsCreated(s: State, calls: seq<Call>, j: nat, id: Id)
    requires j < |calls|
  {
    && Creates(s, calls, j, id)
    && Run(s, calls).At(id).isPause == calls[j].isPause && Run(s, calls).At(id).reason == calls[j].reason
  }

  lemma CreationOrNot(s: State, c: Call, id: Id)
    requires id < Apply(s, c).proposalCount
    ensures c.Propose? && OutcomeOf(s, c) == Done && s.proposalCount == id ==>
      Apply(s, c).At(id).isPause == c.isPause && Apply(s, c).At(id).reason == c.reason
    ensures !(c.Propose? && OutcomeOf(s, c) == Done && s.proposalCount == id) ==>
      && id < s.proposalCount
      && Apply(s, c).At(id).isPause == s.At(id).isPause && Apply(s, c).At(id).reason == s.At(id).reason
  {
  }

  /** Every created proposal keeps, over the whole run, the kind and the reason it was proposed with. */
  lemma {:induction false} StaysAsCreated(s: State, calls: seq<Call>, id: Id) returns (j: nat)
    requires Deployed(s) && id < Run(s, calls).proposalCount
    ensures j < |calls| && AsCreated(s, calls, j, id)
  {
    hide Apply, State.At, OutcomeOf;
    var n := |calls| - 1;
    var t := Run(s, calls[..n]);
    CreationOrNot(t, calls[n], id);
    if calls[n].Propose? && OutcomeOf(t, calls[n]) == Done && t.proposalCount == id {
      j := n;
    } else {
      j := StaysAsCreated(s, calls[..n], id);
      assert calls[..n][..j] == calls[..j] && calls[..n][j] == calls[j];
    }
  }

  // ---------- switching the target ----------

  /**
   Call i executes the proposal, which is of the given kind, has a quorum of distinct approvers and was not
   executed before; a proposal to pause has been created.
   */
  ghost predicate SwitchesByQuorum(s: State, calls: seq<Call>, i: nat, id: Id, isPause: bool)
    requires i < |calls|
  {
    var t := Run(s, calls[..i]);
    && calls[i].Execute? && calls[i].id == id && HasRole(s, calls[..i], calls[i].sender)
    && t.At(id).isPause == isPause && !t.At(id).executed && |t.At(id).approved| >= s.threshold
    && (isPause ==> exists j :: 0 <= j < i && Creates(s, calls, j, id) && calls[j].isPause)
  }

  lemma SwitchStep(s: State, c: Call)
    requires Apply(s, c).targetPaused != s.targetPaused && !c.SetTarget?
    ensures c.Execute? && OutcomeOf(s, c) == Done && s.At(c.id).isPause == Apply(s, c).targetPaused
  {
  }

  lemma PauseWasCreated(s: State, calls: seq<Call>, i: nat, id: Id)
    requires Deployed(s) && i <= |calls| && Run(s, calls[..i]).At(id).isPause
    ensures exists j :: 0 <= j < i && Creates(s, calls, j, id) && calls[j].isPause
  {
    PauseIsCreated(s, calls[..i], id);
    hide Run;
    var j := StaysAsCreated(s, calls[..i], id);
    assert calls[..i][..j] == calls[..j] && calls[..i][j] == calls[j];
    assert Creates(s, calls, j, id);
  }

  lemma PauseIsCreated(s: State, calls: seq<Call>, id: Id)
    requires Deployed(s) && Run(s, calls).At(id).isPause
    ensures id < Run(s, calls).proposalCount
  {
    RunStaysSound(s, calls);
  }

  /** Whenever the target is switched in a run, though not by somebody else, a quorum proposed just that. */
  lemma SwitchNeedsQuorum(s: State, calls: seq<Call>, i: nat)
    requires Deployed(s) && i < |calls| && !calls[i].SetTarget?
    requires Run(s, calls[..i + 1]).targetPaused != Run(s, calls[..i]).targetPaused
    ensures calls[i].Execute?
    ensures SwitchesByQuorum(s, calls, i, calls[i].id, Run(s, calls[..i + 1]).targetPaused)
  {
    assert calls[..i + 1] == calls[..i] + [calls[i]];
    RunOneMore(s, calls[..i], calls[i]);
    hide Run, Apply, OutcomeOf, State.At;
    SwitchStep(Run(s, calls[..i]), calls[i]);
    ExecutionAcceptedExactly(s, calls[..i], calls[i]);
    GuardiansExactly(s, calls[..i], calls[i].sender);
    if Run(s, calls[..i + 1]).targetPaused {
      PauseWasCreated(s, calls, i, calls[i].id);
    }
  }

  /**
   While nobody else controls the target, it is not as it was at deployment only if a quorum proposed what it is
   now: it is paused by a created pause, and unpaused by an unpause; that proposal stays executed.
   */
  lemma {:induction false} SwitchedByQuorum(s: State, calls: seq<Call>) returns (i: nat, id: Id)
    requires Deployed(s) && (forall c :: c in calls ==> !c.SetTarget?)
    requires Run(s, calls).targetPaused != s.targetPaused
    ensures i < |calls| && SwitchesByQuorum(s, calls, i, id, Run(s, calls).targetPaused)
    ensures Run(s, calls).At(id).executed && |Run(s, calls).At(id).approved| >= s.threshold
  {
    hide SwitchesByQuorum, Apply;
    var n := |calls| - 1;
    assert calls[..n + 1] == calls;
    if Run(s, calls[..n]).targetPaused == s.targetPaused {
      SwitchNeedsQuorum(s, calls, n);
      i, id := n, calls[n].id;
      SwitchExecutes(s, calls, n);
      SwitchHasQuorum(s, calls, n, id, Run(s, calls).targetPaused);
    } else {
      i, id := SwitchedByQuorum(s, calls[..n]);
      SwitchInPrefix(s, calls, i, id, Run(s, calls).targetPaused);
      ExecutedIsFrozen(Run(s, calls[..n]), calls[n], id);
    }
  }

  lemma SwitchExecutes(s: State, calls: seq<Call>, i: nat)
    requires i < |calls| && calls[i].Execute?
    requires Run(s, calls[..i + 1]).targetPaused != Run(s, calls[..i]).targetPaused
    ensures Run(s, calls[..i + 1]).At(calls[i].id) == Run(s, calls[..i]).At(calls[i].id).(executed := true)
  {
    assert calls[..i + 1] == calls[..i] + [calls[i]];
    RunOneMore(s, calls[..i], calls[i]);
    hide Run;
  }

  lemma SwitchHasQuorum(s: State, calls: seq<Call>, i: nat, id: Id, isPause: bool)
    requires i < |calls| && SwitchesByQuorum(s, calls, i, id, isPause)
    ensures |Run(s, calls[..i]).At(id).approved| >= s.threshold
  {
    hide Run;
  }

  lemma SwitchInPrefix(s: State, calls: seq<Call>, i: nat, id: Id, isPause: bool)
    requires i < |calls| - 1 && SwitchesByQuorum(s, calls[..|calls| - 1], i, id, isPause)
    ensures SwitchesByQuorum(s, calls, i, id, isPause)
  {
    var init := calls[..|calls| - 1];
    assert init[..i] == calls[..i];
    if isPause {
      var j :| 0 <= j < i && Creates(s, init, j, id) && init[j].isPause;
      assert init[..j] == calls[..j] && Creates(s, calls, j, id);
    }
  }
}
