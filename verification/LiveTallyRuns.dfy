/** What the live tallies are after any calls from outside: tracking, starting, events and finalisations. */
module LiveTallyRuns {
  import opened Recount
  import opened RecountAgreement
  import opened LiveTally

  predicate Tracked(calls: seq<Call>, policy: PolicyId) {
    CallTrack(policy) in calls
  }

  /** The highest block delivered since the last start, and the block of that start. */
  function Guard(calls: seq<Call>): nat {
    if calls == [] then 0 else
      var before := Guard(calls[..|calls| - 1]);
      match calls[|calls| - 1]
      case CallStart(fromBlock, _) => fromBlock
      case CallVote(e) => if e.block > before then e.block else before
      case _ => before
  }

  /**
   The events that the policy has gained since it was first tracked: all that catch-ups bring and those delivered
   with a block above the guard.
   */
  function Gained(id: PolicyId -> Id, calls: seq<Call>, policy: PolicyId): seq<VoteEvent> {
    if calls == [] then [] else
      var init, last := calls[..|calls| - 1], calls[|calls| - 1];
      Gained(id, init, policy) + if Tracked(init, policy) then GainedBy(id, Guard(init), last, policy) else []
  }

  function GainedBy(id: PolicyId -> Id, guard: nat, call: Call, policy: PolicyId): seq<VoteEvent> {
    match call
    case CallStart(fromBlock, past) => if fromBlock > 0 then OfPoll(past, id(policy)) else []
    case CallVote(e) => if e.poll == id(policy) && e.block > guard then [e] else []
    case _ => []
  }

  /** The finalisation of the policy was delivered when it was tracked. */
  ghost predicate WasFinalized(id: PolicyId -> Id, calls: seq<Call>, policy: PolicyId) {
    exists i :: 0 <= i < |calls| && FinalizedAt(id, calls, i, policy)
  }

  predicate FinalizedAt(id: PolicyId -> Id, calls: seq<Call>, i: nat, policy: PolicyId)
    requires i < |calls|
  {
    calls[i] == CallFinalized(id(policy)) && Tracked(calls[..i], policy)
  }

  lemma FinalizedStep(id: PolicyId -> Id, calls: seq<Call>, call: Call, policy: PolicyId)
    ensures WasFinalized(id, calls + [call], policy) <==>
      WasFinalized(id, calls, policy) || (call == CallFinalized(id(policy)) && Tracked(calls, policy))
  {
    hide Tracked;
    var all := calls + [call];
    forall i | 0 <= i < |calls| ensures FinalizedAt(id, all, i, policy) <==> FinalizedAt(id, calls, i, policy) {
      assert all[..i] == calls[..i];
    }
    assert all[..|calls|] == calls;
    assert FinalizedAt(id, all, |calls|, policy) <==> call == CallFinalized(id(policy)) && Tracked(calls, policy);
  }

  ghost predicate Injective(id: PolicyId -> Id) {
    forall p, q :: id(p) == id(q) ==> p == q
  }

  // ---------- one call ----------

  lemma {:induction false} CatchUpKeepsKeys(s: State, es: seq<VoteEvent>)
    ensures CountAll(s, es).tallies.Keys == s.tallies.Keys && CountAll(s, es).lastSeenBlock == s.lastSeenBlock
  {
    if es != [] {
      CatchUpKeepsKeys(s, es[..|es| - 1]);
      hide CountVote, CountAll;
    }
  }

  lemma GuardStep(id: PolicyId -> Id, s: State, call: Call)
    ensures Apply(id, s, call).lastSeenBlock == (
      match call
      case CallStart(fromBlock, _) => fromBlock
      case CallVote(e) => if e.block > s.lastSeenBlock then e.block else s.lastSeenBlock
      case _ => s.lastSeenBlock)
    ensures Apply(id, s, call).tallies.Keys == s.tallies.Keys + if call.CallTrack? then {call.policy} else {}
  {
    hide CountVote, CountAll;
    if call.CallStart? {
      CatchUpKeepsKeys(s.(lastSeenBlock := call.fromBlock), call.past);
    }
  }

  lemma NothingAdded(t: PolicyTally)
    ensures Adds(t, t, [])
  {
  }

  lemma GainStep(id: PolicyId -> Id, s: State, call: Call, policy: PolicyId)
    requires HashesMatch(s) && Mapped(id, s) && Injective(id) && s.Tracks(id(policy), policy)
    requires call != CallFinalized(id(policy))
    ensures var s' := Apply(id, s, call);
      policy in s'.tallies
      && Adds(s'.tallies[policy], s.tallies[policy], GainedBy(id, s.lastSeenBlock, call, policy))
  {
    hide Adds, CountAll, OfPoll, CountVote;
    NothingAdded(s.tallies[policy]);
    match call
    case CallStart(fromBlock, past) =>
      CatchUpAdds(s.(lastSeenBlock := fromBlock), past, id(policy), policy);
    case CallVote(e) =>
      NoEvents(id(policy));
      if e.block > s.lastSeenBlock {
        CountAdds(s, s.(lastSeenBlock := e.block), e, [], id(policy), policy);
        OfPollConcat([], e, id(policy));
        assert [] + [e] == [e];
      }
    case _ =>
  }

  lemma FinalizingKeepsCounts(s: State, hash: Id, policy: PolicyId)
    requires HashesMatch(s) && policy in s.tallies
    ensures var t := Finalize(s, hash);
      && t.hashToId == s.hashToId && t.lastSeenBlock == s.lastSeenBlock && t.tallies.Keys == s.tallies.Keys
      && t.tallies[policy] == s.tallies[policy].(
           finalized := s.tallies[policy].finalized
             || (policy != "" && hash in s.hashToId && s.hashToId[hash] == policy))
  {
  }

  // ---------- runs ----------

  /** The tally of a tracked policy: exactly the gained events, and the flag exactly if its finalisation came. */
  ghost predicate TallyIs(id: PolicyId -> Id, calls: seq<Call>, policy: PolicyId, t: PolicyTally) {
    && Adds(t.(finalized := false), EMPTY_TALLY, Gained(id, calls, policy))
    && (t.finalized <==> WasFinalized(id, calls, policy))
  }

  lemma UntrackedGainsNothing(id: PolicyId -> Id, calls: seq<Call>, policy: PolicyId)
    requires !Tracked(calls, policy)
    ensures Gained(id, calls, policy) == [] && !WasFinalized(id, calls, policy)
  {
    if calls != [] {
      UntrackedGainsNothing(id, calls[..|calls| - 1], policy);
    }
  }

  lemma AddsUnflagged(t: PolicyTally, u: PolicyTally, es: seq<VoteEvent>)
    requires Adds(t, u, es)
    ensures Adds(t.(finalized := false), u.(finalized := false), es) && t.finalized == u.finalized
  {
  }

  /**
   In every run, if policy names do not collide, exactly the tracked policies have a tally, each with the events it
   gained, and it is marked final exactly if the finalisation of its own hash was delivered while it was tracked.
   */
  lemma {:induction false} RunCharacterised(id: PolicyId -> Id, calls: seq<Call>, policy: PolicyId)
    requires Injective(id) && policy != ""
    ensures var s := Run(id, calls);
      && s.lastSeenBlock == Guard(calls)
      && (policy in s.tallies <==> Tracked(calls, policy))
      && (policy in s.tallies ==> TallyIs(id, calls, policy, s.tallies[policy]))
  {
    if calls == [] {
    } else {
      var init, last := calls[..|calls| - 1], calls[|calls| - 1];
      assert calls == init + [last];
      RunCharacterised(id, init, policy);
      RunTracks(id, init);
      GuardStep(id, Run(id, init), last);
      if Tracked(init, policy) {
        hide Apply, Run, HashesMatch, Mapped, TallyIs;
        TallyStep(id, init, last, policy);
      } else if last == CallTrack(policy) {
        FirstTracked(id, init, policy);
      }
    }
  }

  lemma FirstTracked(id: PolicyId -> Id, init: seq<Call>, policy: PolicyId)
    requires !Tracked(init, policy) && policy !in Run(id, init).tallies
    ensures var calls := init + [CallTrack(policy)];
      policy in Run(id, calls).tallies && TallyIs(id, calls, policy, Run(id, calls).tallies[policy])
  {
    var calls := init + [CallTrack(policy)];
    assert calls[..|init|] == init;
    UntrackedGainsNothing(id, init, policy);
    FinalizedStep(id, init, CallTrack(policy), policy);
    NothingAdded(EMPTY_TALLY);
    hide Adds, WasFinalized;
  }

  lemma TallyStep(id: PolicyId -> Id, init: seq<Call>, last: Call, policy: PolicyId)
    requires var s := Run(id, init);
      && HashesMatch(s) && Mapped(id, s) && Injective(id) && s.Tracks(id(policy), policy)
      && s.lastSeenBlock == Guard(init) && Tracked(init, policy)
      && TallyIs(id, init, policy, s.tallies[policy])
    ensures var calls := init + [last];
      policy in Run(id, calls).tallies && TallyIs(id, calls, policy, Run(id, calls).tallies[policy])
  {
    var calls := init + [last];
    assert calls[..|init|] == init;
    var s := Run(id, init);
    var t := Apply(id, s, last);
    FinalizedStep(id, init, last, policy);
    if last == CallFinalized(id(policy)) {
      FinalizingKeepsCounts(s, id(policy), policy);
      assert Gained(id, init, policy) + [] == Gained(id, init, policy);
    } else {
      hide Apply, Adds, WasFinalized, GainedBy, HashesMatch, Mapped, Tracked;
      GainStep(id, s, last, policy);
      AddsUnflagged(t.tallies[policy], s.tallies[policy], GainedBy(id, s.lastSeenBlock, last, policy));
      AddsConcat(EMPTY_TALLY, s.tallies[policy].(finalized := false), t.tallies[policy].(finalized := false),
                 Gained(id, init, policy), GainedBy(id, s.lastSeenBlock, last, policy));
    }
  }

  // ---------- the empty name ----------

  lemma {:induction false} CatchUpSkipsEmpty(s: State, es: seq<VoteEvent>)
    requires "" in s.tallies
    ensures "" in CountAll(s, es).tallies && CountAll(s, es).tallies[""] == s.tallies[""]
  {
    if es != [] {
      CatchUpSkipsEmpty(s, es[..|es| - 1]);
      hide CountVote, CountAll;
    }
  }

  /** A policy with the empty name can be tracked, but it never gains a vote and is never marked final. */
  lemma {:induction false} EmptyNameStaysEmpty(id: PolicyId -> Id, calls: seq<Call>)
    ensures "" in Run(id, calls).tallies ==> Run(id, calls).tallies[""] == EMPTY_TALLY
  {
    if calls != [] {
      var init, last := calls[..|calls| - 1], calls[|calls| - 1];
      EmptyNameStaysEmpty(id, init);
      GuardStep(id, Run(id, init), last);
      if last.CallStart? && "" in Run(id, init).tallies {
        CatchUpSkipsEmpty(Run(id, init).(lastSeenBlock := last.fromBlock), last.past);
      }
      hide CountVote, CountAll, Run;
    }
  }
}
