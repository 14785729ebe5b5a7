/**
 blockchain/contracts/VoteLedger.sol: polls, spent nullifiers and tallies, with pause gating.
 A call that reverts leaves the storage as it was. The VoteCast events are kept as a log.
 */
module VoteLedger {
  import opened Sums

  type Id = nat

  /** bytes2 country codes and policy identifiers enter the poll identifier through keccak256. */
  type Keccak = (string, nat) -> Id

  /** A poll that was never created has deadline 0. */
  datatype Poll = Poll(countryCode: nat, deadline: nat, finalised: bool, totalVotes: nat, optionTally: map<Id, nat>)

  const NO_POLL := Poll(0, 0, false, 0, map[])

  datatype VoteCast = VoteCast(poll: Id, nullifier: Id, option: Id)

  datatype State = State(paused: bool, polls: map<Id, Poll>, spent: set<Id>, nullifierList: seq<Id>,
                         log: seq<VoteCast>) {
    function PollAt(poll: Id): Poll {
      if poll in polls then polls[poll] else NO_POLL
    }

    function Tally(poll: Id, option: Id): nat {
      Get(PollAt(poll).optionTally, option)
    }
  }

  const DEPLOYED := State(false, map[], {}, [], [])

  /** Ownership and the verifier's answer are inputs. */
  datatype Call =
    | CreatePoll(byOwner: bool, policyId: string, countryCode: nat, deadline: nat)
    | CastVote(vote: VoteCast, proofValid: bool)
    | FinalisePoll(byOwner: bool, poll: Id)
    | Pause(byOwner: bool)
    | Unpause(byOwner: bool)

  datatype Event = Event(now: nat, call: Call)

  datatype Outcome =
    | Done
    | NotOwner
    | DeadlineInPast
    | EnforcedPause
    | ExpectedPause
    | PollNotFound
    | PollClosed
    | PollAlreadyFinalised
    | NullifierSpent
    | InvalidZKProof

  /** The first check that fails, in the order of the contract. */
  function OutcomeOf(s: State, e: Event): Outcome {
    match e.call
    case CreatePoll(byOwner, _, _, deadline) =>
      if !byOwner then NotOwner else if deadline <= e.now then DeadlineInPast else Done
    case CastVote(vote, proofValid) =>
      var poll := s.PollAt(vote.poll);
      if s.paused then EnforcedPause
      else if poll.deadline == 0 then PollNotFound
      else if poll.deadline < e.now then PollClosed
      else if poll.finalised then PollAlreadyFinalised
      else if vote.nullifier in s.spent then NullifierSpent
      else if !proofValid then InvalidZKProof
      else Done
    case FinalisePoll(byOwner, poll) =>
      if !byOwner then NotOwner
      else if s.PollAt(poll).deadline == 0 then PollNotFound
      else if s.PollAt(poll).finalised then PollAlreadyFinalised
      else Done
    case Pause(byOwner) => if !byOwner then NotOwner else if s.paused then EnforcedPause else Done
    case Unpause(byOwner) => if !byOwner then NotOwner else if !s.paused then ExpectedPause else Done
  }

  function Apply(keccak: Keccak, s: State, e: Event): State {
    if OutcomeOf(s, e) != Done then s else
      match e.call
      case CreatePoll(_, policyId, countryCode, deadline) =>
        var id := keccak(policyId, countryCode);
        s.(polls := s.polls[id := s.PollAt(id).(countryCode := countryCode, deadline := deadline)])
      case CastVote(vote, _) =>
        var poll := s.PollAt(vote.poll);
        var counted := poll.(optionTally := poll.optionTally[vote.option := s.Tally(vote.poll, vote.option) + 1],
                             totalVotes := poll.totalVotes + 1);
        s.(polls := s.polls[vote.poll := counted], spent := s.spent + {vote.nullifier},
           nullifierList := s.nullifierList + [vote.nullifier], log := s.log + [vote])
      case FinalisePoll(_, poll) =>
        s.(polls := s.polls[poll := s.PollAt(poll).(finalised := true)])
      case Pause(_) => s.(paused := true)
      case Unpause(_) => s.(paused := false)
  }

  class Ledger {
    const keccak: Keccak
    var paused: bool
    var polls: map<Id, Poll>
    var nullifiers: set<Id>
    var nullifierList: seq<Id>
    var log: seq<VoteCast>

    function Storage(): State
      reads this
    {
      State(paused, polls, nullifiers, nullifierList, log)
    }

    constructor (keccak: Keccak)
      ensures this.keccak == keccak && Storage() == DEPLOYED
    {
      this.keccak := keccak;
      paused, polls, nullifiers, nullifierList, log := false, map[], {}, [], [];
    }

    method CreatePoll(now: nat, byOwner: bool, policyId: string, countryCode: nat, deadline: nat)
      returns (r: Outcome, pollId: Id)
      modifies this
      ensures r == OutcomeOf(old(Storage()), Event(now, Call.CreatePoll(byOwner, policyId, countryCode, deadline)))
      ensures Storage() == Apply(keccak, old(Storage()),
                                 Event(now, Call.CreatePoll(byOwner, policyId, countryCode, deadline)))
      ensures pollId == keccak(policyId, countryCode)
    {
      pollId := keccak(policyId, countryCode);
      if !byOwner { return NotOwner, pollId; }
      if deadline <= now { return DeadlineInPast, pollId; }
      var poll := Storage().PollAt(pollId);
      polls := polls[pollId := poll.(countryCode := countryCode, deadline := deadline)];
      r := Done;
    }

    method CastVote(now: nat, vote: VoteCast, proofValid: bool) returns (r: Outcome)
      modifies this
      ensures r == OutcomeOf(old(Storage()), Event(now, Call.CastVote(vote, proofValid)))
      ensures Storage() == Apply(keccak, old(Storage()), Event(now, Call.CastVote(vote, proofValid)))
    {
      if paused { return EnforcedPause; }
      var poll := Storage().PollAt(vote.poll);
      if poll.deadline == 0 { return PollNotFound; }
      if now > poll.deadline { return PollClosed; }
      if poll.finalised { return PollAlreadyFinalised; }
      if vote.nullifier in nullifiers { return NullifierSpent; }
      if !proofValid { return InvalidZKProof; }

      nullifiers := nullifiers + {vote.nullifier};
      nullifierList := nullifierList + [vote.nullifier];
      var tally := poll.optionTally[vote.option := Get(poll.optionTally, vote.option) + 1];
      polls := polls[vote.poll := poll.(optionTally := tally, totalVotes := poll.totalVotes + 1)];
      log := log + [vote];
      r := Done;
    }

    method FinalisePoll(now: nat, byOwner: bool, poll: Id) returns (r: Outcome)
      modifies this
      ensures r == OutcomeOf(old(Storage()), Event(now, Call.FinalisePoll(byOwner, poll)))
      ensures Storage() == Apply(keccak, old(Storage()), Event(now, Call.FinalisePoll(byOwner, poll)))
    {
      if !byOwner { return NotOwner; }
      var p := Storage().PollAt(poll);
      if p.deadline == 0 { return PollNotFound; }
      if p.finalised { return PollAlreadyFinalised; }
      polls := polls[poll := p.(finalised := true)];
      r := Done;
    }

    method SetPaused(now: nat, byOwner: bool, pause: bool) returns (r: Outcome)
      modifies this
      ensures var call := if pause then Call.Pause(byOwner) else Call.Unpause(byOwner);
              && r == OutcomeOf(old(Storage()), Event(now, call))
              && Storage() == Apply(keccak, old(Storage()), Event(now, call))
    {
      if !byOwner { return NotOwner; }
      if paused == pause { return if pause then EnforcedPause else ExpectedPause; }
      paused := pause;
      r := Done;
    }
  }

  // ---------- whole runs ----------

  ghost function Run(keccak: Keccak, es: seq<Event>): State {
    if es == [] then DEPLOYED else Apply(keccak, Run(keccak, es[..|es| - 1]), es[|es| - 1])
  }

  function Totals(s: State): map<Id, nat> {
    map p | p in s.polls :: s.polls[p].totalVotes
  }

  /** How often a poll, or one option of it, occurs in the log. */
  function Votes(log: seq<VoteCast>, poll: Id): nat {
    if log == [] then 0 else Votes(log[..|log| - 1], poll) + (if log[|log| - 1].poll == poll then 1 else 0)
  }

  function VotesFor(log: seq<VoteCast>, poll: Id, option: Id): nat {
    if log == [] then 0 else
      VotesFor(log[..|log| - 1], poll, option)
      + (if log[|log| - 1].poll == poll && log[|log| - 1].option == option then 1 else 0)
  }

  predicate Distinct<T(==)>(s: seq<T>) {
    forall i, j :: 0 <= i < j < |s| ==> s[i] != s[j]
  }

  /** Option tallies add up to the poll's total. */
  ghost predicate TalliesAddUp(s: State) {
    forall p :: p in s.polls ==> SumMap(s.polls[p].optionTally) == s.polls[p].totalVotes
  }

  /** Totals over all polls add up to the nullifier list. */
  ghost predicate TotalsAddUp(s: State) {
    SumMap(Totals(s)) == |s.nullifierList|
  }

  /** The list is duplicate-free and lists exactly the spent nullifiers, in the order of the log. */
  ghost predicate NullifiersListed(s: State) {
    && Distinct(s.nullifierList)
    && (forall n :: n in s.spent <==> n in s.nullifierList)
    && |s.log| == |s.nullifierList|
    && (forall i :: 0 <= i < |s.log| ==> s.log[i].nullifier == s.nullifierList[i])
  }

  /** All counters equal the counts in the event log. */
  ghost predicate LogCounts(s: State) {
    && (forall p, o :: s.Tally(p, o) == VotesFor(s.log, p, o))
    && (forall p :: s.PollAt(p).totalVotes == Votes(s.log, p))
  }

  /**
   Conservation over every run, with polls re-created, finalised and the ledger paused at will.
   */
  lemma {:induction false} RunConserves(keccak: Keccak, es: seq<Event>)
    ensures var s := Run(keccak, es);
            TalliesAddUp(s) && TotalsAddUp(s) && NullifiersListed(s) && LogCounts(s)
  {
    hide TalliesAddUp, TotalsAddUp, NullifiersListed, LogCounts, Apply;
    if es == [] {
      InitiallyConserved();
    } else {
      var s, e := Run(keccak, es[..|es| - 1]), es[|es| - 1];
      RunConserves(keccak, es[..|es| - 1]);
      StepTallies(keccak, s, e);
      StepTotals(keccak, s, e);
      StepNullifiers(keccak, s, e);
      StepLog(keccak, s, e);
    }
  }

  lemma InitiallyConserved()
    ensures TalliesAddUp(DEPLOYED) && TotalsAddUp(DEPLOYED) && NullifiersListed(DEPLOYED) && LogCounts(DEPLOYED)
  {
    assert Totals(DEPLOYED).Keys == {};
  }

  lemma StepTallies(keccak: Keccak, s: State, e: Event)
    requires TalliesAddUp(s)
    ensures TalliesAddUp(Apply(keccak, s, e))
  {
    assert NO_POLL.optionTally.Keys == {};
    if e.call.CastVote? {
      var vote := e.call.vote;
      SumUpdate(s.PollAt(vote.poll).optionTally, vote.option, s.Tally(vote.poll, vote.option) + 1);
    }
  }

  lemma StepTotals(keccak: Keccak, s: State, e: Event)
    requires TotalsAddUp(s)
    ensures TotalsAddUp(Apply(keccak, s, e))
  {
    hide SumMap;
    var s' := Apply(keccak, s, e);
    if OutcomeOf(s, e) == Done && !e.call.Pause? && !e.call.Unpause? {
      var p := match e.call
               case CreatePoll(_, policyId, countryCode, _) => keccak(policyId, countryCode)
               case CastVote(vote, _) => vote.poll
               case FinalisePoll(_, poll) => poll;
      OnePollChanged(s, s', p);
    } else {
      assert Totals(s') == Totals(s);
    }
  }

  lemma OnePollChanged(s: State, s': State, p: Id)
    requires p in s'.polls && s'.polls == s.polls[p := s'.polls[p]]
    ensures SumMap(Totals(s')) == SumMap(Totals(s)) - s.PollAt(p).totalVotes + s'.polls[p].totalVotes
  {
    assert Totals(s') == Totals(s)[p := s'.polls[p].totalVotes];
    SumUpdate(Totals(s), p, s'.polls[p].totalVotes);
  }

  lemma StepNullifiers(keccak: Keccak, s: State, e: Event)
    requires NullifiersListed(s)
    ensures NullifiersListed(Apply(keccak, s, e))
  {
  }

  /** Every call but an accepted vote leaves all counters and the log alone, even the re-creation of a poll. */
  lemma OnlyVotesCount(keccak: Keccak, s: State, e: Event, p: Id)
    requires !(e.call.CastVote? && OutcomeOf(s, e) == Done)
    ensures var s' := Apply(keccak, s, e);
      && s'.log == s.log && s'.PollAt(p).totalVotes == s.PollAt(p).totalVotes
      && forall o :: s'.Tally(p, o) == s.Tally(p, o)
  {
  }

  lemma VoteCounts(keccak: Keccak, s: State, e: Event)
    requires LogCounts(s) && e.call.CastVote? && OutcomeOf(s, e) == Done
    ensures LogCounts(Apply(keccak, s, e))
  {
    assert Apply(keccak, s, e).log[..|s.log|] == s.log;
  }

  lemma StepLog(keccak: Keccak, s: State, e: Event)
    requires LogCounts(s)
    ensures LogCounts(Apply(keccak, s, e))
  {
    hide Apply, OutcomeOf, State.Tally, State.PollAt, VotesFor, Votes;
    if e.call.CastVote? && OutcomeOf(s, e) == Done {
      VoteCounts(keccak, s, e);
    } else {
      var s' := Apply(keccak, s, e);
      forall p, o ensures s'.Tally(p, o) == VotesFor(s'.log, p, o) {
        OnlyVotesCount(keccak, s, e, p);
      }
      forall p ensures s'.PollAt(p).totalVotes == Votes(s'.log, p) {
        OnlyVotesCount(keccak, s, e, p);
      }
    }
  }

  /** What later calls can do to a poll: tallies only grow, and a finalised poll stays as it is for good. */
  ghost predicate Later(s: State, s': State, p: Id) {
    && (forall o :: s.Tally(p, o) <= s'.Tally(p, o))
    && s.PollAt(p).totalVotes <= s'.PollAt(p).totalVotes
    && (s.PollAt(p).finalised ==>
          && s'.PollAt(p).finalised
          && s'.PollAt(p).optionTally == s.PollAt(p).optionTally
          && s'.PollAt(p).totalVotes == s.PollAt(p).totalVotes)
    && s.spent <= s'.spent && s.nullifierList <= s'.nullifierList && s.log <= s'.log
  }

  lemma StepLater(keccak: Keccak, s: State, e: Event, p: Id)
    ensures Later(s, Apply(keccak, s, e), p)
  {
  }

  lemma LaterTransitive(s: State, t: State, u: State, p: Id)
    requires Later(s, t, p) && Later(t, u, p)
    ensures Later(s, u, p)
  {
    forall o ensures s.Tally(p, o) <= u.Tally(p, o) {
      assert s.Tally(p, o) <= t.Tally(p, o);
    }
  }

  lemma {:induction false} TalliesNeverDecrease(keccak: Keccak, es: seq<Event>, i: nat, p: Id)
    requires i <= |es|
    ensures Later(Run(keccak, es[..i]), Run(keccak, es), p)
    decreases |es|
  {
    hide Apply, Later;
    if i == |es| {
      assert es[..i] == es;
      SameIsLater(Run(keccak, es), p);
    } else {
      var n := |es| - 1;
      assert es[..n][..i] == es[..i];
      TalliesNeverDecrease(keccak, es[..n], i, p);
      StepLater(keccak, Run(keccak, es[..n]), es[n], p);
      LaterTransitive(Run(keccak, es[..i]), Run(keccak, es[..n]), Run(keccak, es), p);
    }
  }

  lemma SameIsLater(s: State, p: Id)
    ensures Later(s, s, p)
  {
  }

  /** A spent nullifier is refused for good, whatever the poll, the option or the proof. */
  lemma NoDoubleVote(keccak: Keccak, es: seq<Event>, i: nat, e: Event)
    requires i <= |es| && e.call.CastVote? && e.call.vote.nullifier in Run(keccak, es[..i]).spent
    ensures OutcomeOf(Run(keccak, es), e) != Done && Apply(keccak, Run(keccak, es), e) == Run(keccak, es)
  {
    hide Run;
    TalliesNeverDecrease(keccak, es, i, e.call.vote.poll);
  }

  // ---------- deadlines ----------

  /** The owner creates the poll, for the first time or again. */
  predicate Creates(keccak: Keccak, e: Event, p: Id) {
    && e.call.CreatePoll? && e.call.byOwner && e.now < e.call.deadline
    && keccak(e.call.policyId, e.call.countryCode) == p
  }

  /** A deadline moves exactly when the owner creates the poll with another one, whatever the poll's state. */
  lemma DeadlineMovesExactly(keccak: Keccak, s: State, e: Event, p: Id)
    ensures Apply(keccak, s, e).PollAt(p).deadline != s.PollAt(p).deadline <==>
      Creates(keccak, e, p) && e.call.deadline != s.PollAt(p).deadline
  {
  }

  /** While nobody creates the poll again, its deadline stays. */
  lemma {:induction false} DeadlineStays(keccak: Keccak, es: seq<Event>, i: nat, p: Id)
    requires i <= |es| && forall j :: i <= j < |es| ==> !Creates(keccak, es[j], p)
    ensures Run(keccak, es).PollAt(p).deadline == Run(keccak, es[..i]).PollAt(p).deadline
    decreases |es|
  {
    hide Apply, Creates, State.PollAt;
    if i == |es| {
      assert es[..i] == es;
    } else {
      var n := |es| - 1;
      assert es[..n][..i] == es[..i];
      DeadlineStays(keccak, es[..n], i, p);
      DeadlineMovesExactly(keccak, Run(keccak, es[..n]), es[n], p);
    }
  }

  /** A vote for the poll that is accepted after the first i calls. */
  ghost predicate AcceptsVote(keccak: Keccak, es: seq<Event>, j: nat, p: Id)
    requires j < |es|
  {
    es[j].call.CastVote? && es[j].call.vote.poll == p && OutcomeOf(Run(keccak, es[..j]), es[j]) == Done
  }

  /** A poll whose deadline has passed accepts no vote before it is created again. */
  lemma ClosedStaysClosed(keccak: Keccak, es: seq<Event>, i: nat, j: nat, p: Id)
    requires i <= j < |es| && Run(keccak, es[..i]).PollAt(p).deadline < es[j].now
    requires forall k :: i <= k < j ==> !Creates(keccak, es[k], p)
    ensures !AcceptsVote(keccak, es, j, p)
  {
    hide Run, Apply, Creates;
    assert es[..j][..i] == es[..i];
    forall k | i <= k < j ensures !Creates(keccak, es[..j][k], p) {
      assert es[..j][k] == es[k];
    }
    DeadlineStays(keccak, es[..j], i, p);
  }

  /**
   Whatever the state of a ledger, a poll closed at the time of the owner's call is open after it, to exactly the
   votes that a new poll with that deadline would take; its tallies and its finalised flag are kept.
   */
  lemma RecreationReopens(keccak: Keccak, s: State, e: Event, vote: Event)
    requires e.call.CreatePoll? && vote.call.CastVote? && Creates(keccak, e, vote.call.vote.poll)
    ensures var s', p := Apply(keccak, s, e), vote.call.vote.poll;
      && s'.PollAt(p) == s.PollAt(p).(countryCode := e.call.countryCode, deadline := e.call.deadline)
      && (OutcomeOf(s', vote) == Done <==>
            vote.now <= e.call.deadline && !s.paused && !s.PollAt(p).finalised
            && vote.call.vote.nullifier !in s.spent && vote.call.proofValid)
  {
  }

  /** So closed polls do reopen: a poll past its deadline, created again, takes the vote it refused. */
  lemma ClosedPollReopens(keccak: Keccak, es: seq<Event>, e: Event, vote: Event)
    requires e.call.CreatePoll? && vote.call.CastVote? && Creates(keccak, e, vote.call.vote.poll)
    requires OutcomeOf(Run(keccak, es), vote) == PollClosed && e.now <= vote.now <= e.call.deadline
    ensures OutcomeOf(Run(keccak, es + [e]), vote) == Done <==>
      var s := Run(keccak, es);
      !s.PollAt(vote.call.vote.poll).finalised && vote.call.vote.nullifier !in s.spent && vote.call.proofValid
  {
    hide Apply, Creates;
    assert (es + [e])[..|es|] == es;
    RecreationReopens(keccak, Run(keccak, es), e, vote);
  }

  // ---------- finalising and pausing ----------

  /** A vote is accepted exactly in an unpaused ledger, for an open and unfinalised poll, once, with a valid proof. */
  lemma VoteAcceptedExactly(s: State, e: Event)
    requires e.call.CastVote?
    ensures OutcomeOf(s, e) == Done <==>
      && !s.paused
      && 0 < s.PollAt(e.call.vote.poll).deadline && e.now <= s.PollAt(e.call.vote.poll).deadline
      && !s.PollAt(e.call.vote.poll).finalised
      && e.call.vote.nullifier !in s.spent
      && e.call.proofValid
  {
  }

  /** Call i is the owner's finalisation of a poll that exists. */
  ghost predicate Finalises(keccak: Keccak, es: seq<Event>, i: nat, p: Id)
    requires i < |es|
  {
    && es[i].call.FinalisePoll? && es[i].call.byOwner && es[i].call.poll == p
    && Run(keccak, es[..i]).PollAt(p).deadline != 0
  }

  lemma FinalisedByStep(keccak: Keccak, s: State, e: Event, p: Id)
    ensures Apply(keccak, s, e).PollAt(p).finalised <==>
      s.PollAt(p).finalised
      || (e.call.FinalisePoll? && e.call.byOwner && e.call.poll == p && s.PollAt(p).deadline != 0)
  {
  }

  /** In every run a poll is finalised exactly if the owner finalised it while it existed. */
  lemma {:induction false} FinalisedExactly(keccak: Keccak, es: seq<Event>, p: Id)
    ensures Run(keccak, es).PollAt(p).finalised <==> exists i :: 0 <= i < |es| && Finalises(keccak, es, i, p)
  {
    hide Apply, State.PollAt;
    if es != [] {
      var n := |es| - 1;
      var init := es[..n];
      FinalisedExactly(keccak, init, p);
      FinalisedByStep(keccak, Run(keccak, init), es[n], p);
      forall i | 0 <= i < n ensures Finalises(keccak, es, i, p) <==> Finalises(keccak, init, i, p) {
        assert init[..i] == es[..i] && init[i] == es[i];
      }
      assert Finalises(keccak, es, n, p) <==>
        es[n].call.FinalisePoll? && es[n].call.byOwner && es[n].call.poll == p
        && Run(keccak, init).PollAt(p).deadline != 0;
    } else {
      NothingFinalised(p);
    }
  }

  lemma NothingFinalised(p: Id)
    ensures !DEPLOYED.PollAt(p).finalised
  {
  }

  /** After the finalisation no vote for the poll is accepted and its tallies stay, even if it is created again. */
  lemma FinalisedTakesNoVotes(keccak: Keccak, es: seq<Event>, i: nat, p: Id)
    requires i < |es| && Finalises(keccak, es, i, p)
    ensures forall j :: i < j < |es| ==> !AcceptsVote(keccak, es, j, p)
    ensures var s, t := Run(keccak, es[..i]), Run(keccak, es);
      && t.PollAt(p).finalised
      && t.PollAt(p).optionTally == s.PollAt(p).optionTally && t.PollAt(p).totalVotes == s.PollAt(p).totalVotes
  {
    hide Run, Apply;
    forall j | i < j < |es| ensures !AcceptsVote(keccak, es, j, p) {
      assert es[..j][..i] == es[..i] && es[..j][i] == es[i];
      assert Finalises(keccak, es[..j], i, p);
      FinalisedExactly(keccak, es[..j], p);
    }
    FinalisedExactly(keccak, es, p);
    assert es[..i + 1][..i] == es[..i] && es[..i + 1][i] == es[i] && Finalises(keccak, es[..i + 1], i, p);
    FinalisedExactly(keccak, es[..i + 1], p);
    TalliesNeverDecrease(keccak, es, i + 1, p);
    RunOneMore(keccak, es, i);
    OnlyVotesCount(keccak, Run(keccak, es[..i]), es[i], p);
    FinalisingKeepsTallies(keccak, Run(keccak, es[..i]), es[i], p);
  }

  lemma RunOneMore(keccak: Keccak, es: seq<Event>, i: nat)
    requires i < |es|
    ensures Run(keccak, es[..i + 1]) == Apply(keccak, Run(keccak, es[..i]), es[i])
  {
    hide Apply;
    assert es[..i + 1][..i] == es[..i];
  }

  lemma FinalisingKeepsTallies(keccak: Keccak, s: State, e: Event, p: Id)
    requires e.call.FinalisePoll?
    ensures Apply(keccak, s, e).PollAt(p).optionTally == s.PollAt(p).optionTally
  {
  }

  /** A poll is finalised once at most: the second attempt is refused, even by the owner and after a re-creation. */
  lemma FinalisesOnce(keccak: Keccak, es: seq<Event>, i: nat, e: Event)
    requires i < |es| && e.call.FinalisePoll? && Finalises(keccak, es, i, e.call.poll)
    ensures OutcomeOf(Run(keccak, es), e) == if e.call.byOwner then PollAlreadyFinalised else NotOwner
  {
    hide Run, Apply;
    FinalisedExactly(keccak, es, e.call.poll);
    ExistsForGood(keccak, es, e.call.poll);
  }

  /** A finalised poll has a deadline: it was created, and no creation takes the deadline away. */
  lemma {:induction false} ExistsForGood(keccak: Keccak, es: seq<Event>, p: Id)
    ensures Run(keccak, es).PollAt(p).finalised ==> Run(keccak, es).PollAt(p).deadline != 0
  {
    if es != [] {
      ExistsForGood(keccak, es[..|es| - 1], p);
    }
  }

  /** The owner's last call to pause or unpause, or false. */
  function LastSwitch(es: seq<Event>): bool {
    if es == [] then false else
      match es[|es| - 1].call
      case Pause(byOwner) => byOwner || LastSwitch(es[..|es| - 1])
      case Unpause(byOwner) => !byOwner && LastSwitch(es[..|es| - 1])
      case _ => LastSwitch(es[..|es| - 1])
  }

  /** In every run the ledger is paused exactly if the owner paused it last, and no vote is accepted while it is. */
  lemma {:induction false} PausedExactly(keccak: Keccak, es: seq<Event>)
    ensures Run(keccak, es).paused == LastSwitch(es)
    ensures forall p, j :: 0 <= j < |es| && LastSwitch(es[..j]) ==> !AcceptsVote(keccak, es, j, p)
  {
    if es != [] {
      var n := |es| - 1;
      PausedExactly(keccak, es[..n]);
      forall p, j | 0 <= j < |es| && LastSwitch(es[..j]) ensures !AcceptsVote(keccak, es, j, p) {
        if j < n { assert es[..n][..j] == es[..j] && es[..n][j] == es[j]; AcceptsInPrefix(keccak, es, j, p); }
      }
    }
  }

  /** After any run a switch is accepted exactly from the owner and only if it switches. */
  lemma SwitchAcceptedExactly(keccak: Keccak, es: seq<Event>, e: Event)
    requires e.call.Pause? || e.call.Unpause?
    ensures OutcomeOf(Run(keccak, es), e) == Done <==> e.call.byOwner && LastSwitch(es) != e.call.Pause?
  {
    PausedExactly(keccak, es);
    hide Run, LastSwitch;
  }

  lemma AcceptsInPrefix(keccak: Keccak, es: seq<Event>, j: nat, p: Id)
    requires j < |es| - 1
    ensures AcceptsVote(keccak, es, j, p) <==> AcceptsVote(keccak, es[..|es| - 1], j, p)
  {
    assert es[..|es| - 1][..j] == es[..j];
  }
}
