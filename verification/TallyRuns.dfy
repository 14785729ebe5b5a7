/** Whole runs of HomomorphicTally: any number of calls, in any order, by anyone. */
module TallyRuns {
  import opened Primes
  import opened Edwards
  import opened ElGamal
  import opened HomomorphicTally

  ghost function Run(c: Curve, es: seq<Event>): State
    requires IsPrime(c.p)
  {
    if es == [] then DEPLOYED else Apply(c, Run(c, es[..|es| - 1]), es[|es| - 1])
  }

  /** Block timestamps never decrease. */
  ghost predicate Ordered(es: seq<Event>) {
    forall i, j :: 0 <= i <= j < |es| ==> es[i].now <= es[j].now
  }

  predicate AcceptedBy(s: State, e: Event, poll: PollId, option: nat) {
    e.call.SubmitEncryptedVote? && e.call.poll == poll && e.call.option == option && OutcomeOf(s, e) == Done
  }

  /** The ballots accepted for one option of one poll, oldest first. */
  ghost function Accepted(c: Curve, es: seq<Event>, poll: PollId, option: nat): seq<Ciphertext>
    requires IsPrime(c.p)
  {
    if es == [] then [] else
      var n := |es| - 1;
      Accepted(c, es[..n], poll, option)
      + (if AcceptedBy(Run(c, es[..n]), es[n], poll, option) then [es[n].call.ballot] else [])
  }

  /** Nothing is stored under a poll that is not registered or an option it does not have. */
  ghost predicate NoStrays(s: State) {
    && (forall k :: k in s.slots <==> k.0 in s.polls && k.1 < s.polls[k.0].optionCount)
    && (forall k :: k in s.results ==> k.0 in s.polls && k.1 < s.polls[k.0].optionCount)
    && (forall k :: k in s.used ==> k.0 in s.polls)
  }

  lemma {:induction false} RunHasNoStrays(c: Curve, es: seq<Event>)
    requires IsPrime(c.p)
    ensures NoStrays(Run(c, es))
  {
    if es != [] {
      RunHasNoStrays(c, es[..|es| - 1]);
      StepHasNoStrays(c, Run(c, es[..|es| - 1]), es[|es| - 1]);
    }
  }

  lemma StepHasNoStrays(c: Curve, s: State, e: Event)
    requires IsPrime(c.p) && NoStrays(s)
    ensures NoStrays(Apply(c, s, e))
  {
    hide AddCiphertexts, InitialisedSlots, NoStrays;
    if e.call.RegisterPoll? {
      RegistrationHasNoStrays(c, s, e);
    } else {
      OthersHaveNoStrays(c, s, e);
    }
  }

  lemma RegistrationHasNoStrays(c: Curve, s: State, e: Event)
    requires IsPrime(c.p) && NoStrays(s) && e.call.RegisterPoll?
    ensures NoStrays(Apply(c, s, e))
  {
    hide AddCiphertexts, InitialisedSlots, IsPrime;
    var s' := Apply(c, s, e);
    forall k: (PollId, nat) ensures k in s'.slots <==> k.0 in s'.polls && k.1 < s'.polls[k.0].optionCount {
      InitialisedAt(s, e.call.poll, e.call.config.optionCount, k);
    }
  }

  lemma OthersHaveNoStrays(c: Curve, s: State, e: Event)
    requires IsPrime(c.p) && NoStrays(s) && !e.call.RegisterPoll?
    ensures NoStrays(Apply(c, s, e))
  {
    hide AddCiphertexts, InitialisedSlots, IsPrime;
  }

  /** Each accumulator is the fold of exactly the accepted ciphertexts, and its counter is their number. */
  lemma {:induction false} AccumulatorIsFold(c: Curve, es: seq<Event>, poll: PollId, option: nat)
    requires IsPrime(c.p)
    ensures var s := Run(c, es);
            if poll in s.polls && option < s.polls[poll].optionCount
            then s.SlotAt(poll, option) == Slot(Accumulate(c, Accepted(c, es, poll, option)),
                                                |Accepted(c, es, poll, option)|)
            else Accepted(c, es, poll, option) == []
  {
    if es != [] {
      var n := |es| - 1;
      AccumulatorIsFold(c, es[..n], poll, option);
      RunHasNoStrays(c, es[..n]);
      AccumulatorStep(c, Run(c, es[..n]), es[n], poll, option, Accepted(c, es[..n], poll, option));
    }
  }

  lemma AccumulatorStep(c: Curve, s: State, e: Event, poll: PollId, option: nat, ballots: seq<Ciphertext>)
    requires IsPrime(c.p) && NoStrays(s)
    requires if poll in s.polls && option < s.polls[poll].optionCount
             then s.SlotAt(poll, option) == Slot(Accumulate(c, ballots), |ballots|)
             else ballots == []
    ensures var s' := Apply(c, s, e);
            var ballots' := ballots + (if AcceptedBy(s, e, poll, option) then [e.call.ballot] else []);
            if poll in s'.polls && option < s'.polls[poll].optionCount
            then s'.SlotAt(poll, option) == Slot(Accumulate(c, ballots'), |ballots'|)
            else ballots' == []
  {
    hide AddCiphertexts, InitialisedSlots;
    if e.call.RegisterPoll? {
      InitialisedAt(s, e.call.poll, e.call.config.optionCount, (poll, option));
      assert ballots + [] == ballots;
    } else if AcceptedBy(s, e, poll, option) {
      var ballots' := ballots + [e.call.ballot];
      assert ballots'[..|ballots' | - 1] == ballots;
    } else {
      assert ballots + [] == ballots;
    }
  }

  // ---------- one nullifier, one counted ballot ----------

  function UsedIn(s: State, poll: PollId): set<(PollId, Nullifier)> {
    set k | k in s.used && k.0 == poll
  }

  function CountSum(s: State, poll: PollId, n: nat): nat {
    if n == 0 then 0 else CountSum(s, poll, n - 1) + s.SlotAt(poll, n - 1).count
  }

  /** The counters of a poll add up to the number of nullifiers spent in it. */
  lemma {:induction false} CountsMatchNullifiers(c: Curve, es: seq<Event>, poll: PollId)
    requires IsPrime(c.p) && poll in Run(c, es).polls
    ensures CountSum(Run(c, es), poll, Run(c, es).polls[poll].optionCount) == |UsedIn(Run(c, es), poll)|
  {
    if es != [] {
      var n := |es| - 1;
      var s, s', e := Run(c, es[..n]), Run(c, es), es[n];
      RunHasNoStrays(c, es[..n]);
      if poll in s.polls {
        CountsMatchNullifiers(c, es[..n], poll);
        CountStep(c, s, e, poll);
      } else {
        assert UsedIn(s', poll) == {};
        FreshCounts(c, s, e, poll, s'.polls[poll].optionCount);
      }
    }
  }

  lemma {:induction false} FreshCounts(c: Curve, s: State, e: Event, poll: PollId, n: nat)
    requires IsPrime(c.p) && NoStrays(s) && poll !in s.polls && poll in Apply(c, s, e).polls
    requires n <= Apply(c, s, e).polls[poll].optionCount
    ensures CountSum(Apply(c, s, e), poll, n) == 0
  {
    if n != 0 {
      FreshCounts(c, s, e, poll, n - 1);
      InitialisedAt(s, poll, e.call.config.optionCount, (poll, n - 1));
    }
  }

  lemma CountStep(c: Curve, s: State, e: Event, poll: PollId)
    requires IsPrime(c.p) && NoStrays(s) && poll in s.polls
    ensures var s' := Apply(c, s, e);
            && poll in s'.polls && s'.polls[poll] == s.polls[poll]
            && CountSum(s', poll, s.polls[poll].optionCount) - CountSum(s, poll, s.polls[poll].optionCount)
               == |UsedIn(s', poll)| - |UsedIn(s, poll)|
  {
    hide AddCiphertexts, InitialisedSlots, CountSum, UsedIn, NoStrays;
    UsedStep(c, s, e, poll);
    CountChange(c, s, e, poll, s.polls[poll].optionCount);
  }

  lemma UsedStep(c: Curve, s: State, e: Event, poll: PollId)
    requires IsPrime(c.p)
    ensures |UsedIn(Apply(c, s, e), poll)| == |UsedIn(s, poll)|
            + (if e.call.SubmitEncryptedVote? && e.call.poll == poll && OutcomeOf(s, e) == Done then 1 else 0)
  {
    hide AddCiphertexts, InitialisedSlots;
    if e.call.SubmitEncryptedVote? && e.call.poll == poll && OutcomeOf(s, e) == Done {
      assert UsedIn(Apply(c, s, e), poll) == UsedIn(s, poll) + {(poll, e.call.nullifier)};
    } else {
      assert UsedIn(Apply(c, s, e), poll) == UsedIn(s, poll);
    }
  }

  lemma {:induction false} CountChange(c: Curve, s: State, e: Event, poll: PollId, n: nat)
    requires IsPrime(c.p) && NoStrays(s) && poll in s.polls && n <= s.polls[poll].optionCount
    ensures CountSum(Apply(c, s, e), poll, n) == CountSum(s, poll, n)
            + (if e.call.SubmitEncryptedVote? && e.call.poll == poll && e.call.option < n && OutcomeOf(s, e) == Done
               then 1 else 0)
  {
    hide AddCiphertexts, InitialisedSlots;
    if n != 0 {
      CountChange(c, s, e, poll, n - 1);
      if e.call.RegisterPoll? {
        InitialisedAt(s, e.call.poll, e.call.config.optionCount, (poll, n - 1));
      }
    }
  }

  // ---------- freezing ----------

  /** Everything about a poll but its results. */
  ghost predicate SamePoll(s: State, s': State, poll: PollId) {
    && poll in s.polls && poll in s'.polls && s'.polls[poll] == s.polls[poll]
    && (forall option :: s'.SlotAt(poll, option) == s.SlotAt(poll, option))
    && UsedIn(s', poll) == UsedIn(s, poll)
  }

  /** Results are only ever added. */
  ghost predicate ResultsKept(s: State, s': State) {
    forall k :: k in s.results ==> k in s'.results && s'.results[k] == s.results[k]
  }

  lemma StepFrozen(c: Curve, s: State, e: Event, poll: PollId)
    requires IsPrime(c.p) && NoStrays(s) && poll in s.polls && s.polls[poll].closeTime <= e.now
    ensures SamePoll(s, Apply(c, s, e), poll)
  {
    hide AddCiphertexts, InitialisedSlots;
    var s' := Apply(c, s, e);
    forall option: nat ensures s'.SlotAt(poll, option) == s.SlotAt(poll, option) {
      if e.call.RegisterPoll? {
        InitialisedAt(s, e.call.poll, e.call.config.optionCount, (poll, option));
      }
    }
    assert UsedIn(s', poll) == UsedIn(s, poll);
  }

  /** Once a call arrives at or after closeTime, the rest of the run leaves the poll as it is. */
  lemma {:induction false} Frozen(c: Curve, es: seq<Event>, i: nat, poll: PollId)
    requires IsPrime(c.p) && Ordered(es) && i <= |es|
    requires poll in Run(c, es[..i]).polls
    requires i < |es| ==> Run(c, es[..i]).polls[poll].closeTime <= es[i].now
    ensures SamePoll(Run(c, es[..i]), Run(c, es), poll)
    decreases |es|
  {
    hide Apply, NoStrays, UsedIn, State.SlotAt;
    if i == |es| {
      assert es[..i] == es;
    } else {
      var n := |es| - 1;
      assert es[..n][..i] == es[..i];
      Frozen(c, es[..n], i, poll);
      RunHasNoStrays(c, es[..n]);
      StepFrozen(c, Run(c, es[..n]), es[n], poll);
    }
  }

  lemma {:induction false} ResultsStay(c: Curve, es: seq<Event>, i: nat)
    requires IsPrime(c.p) && i <= |es|
    ensures ResultsKept(Run(c, es[..i]), Run(c, es))
    decreases |es|
  {
    if i == |es| {
      assert es[..i] == es;
    } else {
      var n := |es| - 1;
      assert es[..n][..i] == es[..i];
      ResultsStay(c, es[..n], i);
    }
  }

  /** A result exists only once time has reached closeTime. */
  lemma {:induction false} ResultMeansClosed(c: Curve, es: seq<Event>, poll: PollId, option: nat)
    requires IsPrime(c.p) && Ordered(es) && (poll, option) in Run(c, es).results
    ensures es != [] && poll in Run(c, es).polls && Run(c, es).polls[poll].closeTime <= es[|es| - 1].now
  {
    var n := |es| - 1;
    RunHasNoStrays(c, es[..n]);
    if (poll, option) in Run(c, es[..n]).results {
      ResultMeansClosed(c, es[..n], poll, option);
    }
  }

  /** A finalised result never changes, and the accumulator it is about never changes either. */
  lemma FinalisedIsFinal(c: Curve, es: seq<Event>, i: nat, poll: PollId, option: nat)
    requires IsPrime(c.p) && Ordered(es) && i <= |es| && (poll, option) in Run(c, es[..i]).results
    ensures var s, s' := Run(c, es[..i]), Run(c, es);
            && (poll, option) in s'.results && s'.results[(poll, option)] == s.results[(poll, option)]
            && SamePoll(s, s', poll)
  {
    ResultsStay(c, es, i);
    ResultMeansClosed(c, es[..i], poll, option);
    Frozen(c, es, i, poll);
  }

  // ---------- what is accepted, and what for ----------

  /** For a poll without options the error message itself fails: every timely ballot and result runs into that. */
  lemma PanicsExactly(s: State, e: Event)
    ensures OutcomeOf(s, e) == ArithmeticPanic <==> (
      match e.call
      case RegisterPoll(_, _, _) => false
      case SubmitEncryptedVote(poll, _, _, _, _) =>
        poll in s.polls && s.polls[poll].optionCount == 0 && e.now < s.polls[poll].closeTime
      case FinaliseDecryption(authorised, poll, _, _) =>
        authorised && poll in s.polls && s.polls[poll].optionCount == 0 && s.polls[poll].closeTime <= e.now)
  {
  }

  /** A ballot is accepted exactly for an open poll and one of its options, with a fresh nullifier and a valid proof. */
  lemma SubmissionAcceptedExactly(s: State, e: Event)
    requires e.call.SubmitEncryptedVote?
    ensures OutcomeOf(s, e) == Done <==>
      && e.call.poll in s.polls && e.now < s.polls[e.call.poll].closeTime
      && e.call.option < s.polls[e.call.poll].optionCount
      && (e.call.poll, e.call.nullifier) !in s.used
      && e.call.proofValid
  {
  }

  /** A result is accepted exactly from the authority, for a closed registered poll and an option without a result. */
  lemma ResultAcceptedExactly(s: State, e: Event)
    requires e.call.FinaliseDecryption?
    ensures OutcomeOf(s, e) == Done <==>
      && e.call.authorised && e.call.poll in s.polls && s.polls[e.call.poll].closeTime <= e.now
      && e.call.option < s.polls[e.call.poll].optionCount
      && (e.call.poll, e.call.option) !in s.results
  {
  }

  datatype Option<T> = None | Some(value: T)

  /** The configuration of the authority's first registration of the poll. */
  function FirstRegistration(es: seq<Event>, poll: PollId): Option<PollConfig> {
    if es == [] then None else
      var before, last := FirstRegistration(es[..|es| - 1], poll), es[|es| - 1];
      if before.Some? then before
      else if last.call.RegisterPoll? && last.call.authorised && last.call.poll == poll then Some(last.call.config)
      else None
  }

  /** In every run a poll is registered exactly if the authority registered it, as it was registered first. */
  lemma {:induction false} RegisteredAsGiven(c: Curve, es: seq<Event>, poll: PollId)
    requires IsPrime(c.p)
    ensures poll in Run(c, es).polls <==> FirstRegistration(es, poll).Some?
    ensures poll in Run(c, es).polls ==> FirstRegistration(es, poll) == Some(Run(c, es).polls[poll])
  {
    if es != [] {
      RegisteredAsGiven(c, es[..|es| - 1], poll);
      hide AddCiphertexts, InitialisedSlots, IsPrime;
    }
  }

  /** The first result that the authority posts for an option of a registered poll after its close. */
  function FirstResult(es: seq<Event>, poll: PollId, option: nat): Option<Decryption> {
    if es == [] then None else
      var before, last := FirstResult(es[..|es| - 1], poll, option), es[|es| - 1];
      var config := FirstRegistration(es[..|es| - 1], poll);
      if before.Some? then before
      else if last.call.FinaliseDecryption? && last.call.authorised && last.call.poll == poll
              && last.call.option == option && config.Some?
              && config.value.closeTime <= last.now && option < config.value.optionCount
      then Some(last.call.result)
      else None
  }

  /** In every run the stored result of an option is the first that was due, and none is stored otherwise. */
  lemma {:induction false} ResultAsPosted(c: Curve, es: seq<Event>, poll: PollId, option: nat)
    requires IsPrime(c.p)
    ensures (poll, option) in Run(c, es).results <==> FirstResult(es, poll, option).Some?
    ensures (poll, option) in Run(c, es).results ==>
      FirstResult(es, poll, option) == Some(Run(c, es).results[(poll, option)])
  {
    if es != [] {
      ResultAsPosted(c, es[..|es| - 1], poll, option);
      RegisteredAsGiven(c, es[..|es| - 1], poll);
      hide AddCiphertexts, InitialisedSlots, IsPrime, FirstRegistration;
    }
  }

  /** Every accepted ballot was submitted to its poll and option with a proof that the verifier accepted. */
  lemma {:induction false} AcceptedHadProofs(c: Curve, es: seq<Event>, poll: PollId, option: nat, b: nat)
    returns (i: nat)
    requires IsPrime(c.p) && b < |Accepted(c, es, poll, option)|
    ensures i < |es| && es[i].call.SubmitEncryptedVote? && es[i].call.poll == poll && es[i].call.option == option
    ensures es[i].call.proofValid && es[i].call.ballot == Accepted(c, es, poll, option)[b]
    ensures poll in Run(c, es[..i]).polls
  {
    hide Apply;
    var n := |es| - 1;
    var before := Accepted(c, es[..n], poll, option);
    if b < |before| {
      i := AcceptedHadProofs(c, es[..n], poll, option, b);
      assert es[..n][..i] == es[..i];
    } else {
      SubmissionAcceptedExactly(Run(c, es[..n]), es[n]);
      i := n;
    }
  }
}
