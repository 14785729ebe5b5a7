/** What the answers of the registration protocol are worth, and what a crash leaves open. */
module RegistrationAnswers {
  import opened Registration
  import R = VoterRegistry

  /** Everybody who was told Created or AlreadyRegistered for a document counts as served. */
  ghost predicate AnsweredAreServed(w: World) {
    forall id :: id in w.requests ==> AnswerIsServed(w, w.requests[id])
  }

  predicate AnswerIsServed(w: World, r: Request) {
    r.key.Some? && (r.phase == Finished(Created) || r.phase == Finished(AlreadyRegistered)) ==>
      Served(r.key.value, r.commitment) in w.served
  }

  lemma ExecutionServes(w: World, r: Request)
    ensures Execute(w, r).requests == w.requests && w.served <= Execute(w, r).served
    ensures R.OutcomeOf(w.registry, Submission(w, r)) == R.Done && r.key.Some? ==>
      Served(r.key.value, r.commitment) in Execute(w, r).served
  {
    hide R.Apply, R.OutcomeOf;
  }

  lemma AdvanceServes(w: World, id: Id)
    requires InFlight(w, id)
    ensures var w' := Advanced(w, id);
      && w.served <= w'.served && id in w'.requests && AnswerIsServed(w', w'.requests[id])
      && (forall j :: j != id && j in w'.requests ==> j in w.requests && w'.requests[j] == w.requests[j])
  {
    hide R.Apply, R.OutcomeOf, R.State.IsRegistered, Execute;
    ExecutionServes(w, w.requests[id]);
  }

  lemma StepServes(w: World, step: Step)
    requires AnsweredAreServed(w) && Enabled(w, step)
    ensures AnsweredAreServed(Next(w, step)) && w.served <= Next(w, step).served
  {
    hide R.Apply, R.OutcomeOf, Execute, Advanced;
    if step.Advance? {
      AdvanceServes(w, step.id);
    } else if step.Mine? {
      ExecutionServes(w, w.requests[step.id]);
    }
  }

  /** In every run the answers Created and AlreadyRegistered are given only to the served. */
  lemma {:induction false} AnswersAreServed(w: World, steps: seq<Step>)
    requires Runs(w, steps) && w.requests == map[]
    ensures AnsweredAreServed(After(w, steps))
  {
    if steps != [] {
      AnswersAreServed(w, steps[..|steps| - 1]);
      hide Next, Enabled, AnsweredAreServed;
      StepServes(After(w, steps[..|steps| - 1]), steps[|steps| - 1]);
    }
  }

  /**
   A server that dies after sending answers nobody, but whatever steps follow the transaction may be executed, and if
   the registry accepts it by then the commitment is registered, and the document's key, if any, is served.
   */
  lemma CrashLeavesTransaction(w: World, id: Id, steps: seq<Step>)
    requires In(w, id, Submitting) && Runs(Next(w, CrashAfterSending(id)), steps)
    requires Mine(id) !in steps
    ensures var v := After(Next(w, CrashAfterSending(id)), steps);
      var r := w.requests[id];
      Enabled(v, Mine(id)) &&
      (R.OutcomeOf(v.registry, R.Call.Register(v.relay, r.commitment, r.country)) == R.Done ==>
         var u := Next(v, Mine(id));
         && u.registry.CountryOf(r.commitment) == r.country && u.requests[id].phase == Finished(Died)
         && (r.key.Some? ==> Served(r.key.value, r.commitment) in u.served))
  {
    OrphanWaits(Next(w, CrashAfterSending(id)), steps, id);
    var v := After(Next(w, CrashAfterSending(id)), steps);
    hide Runs, After;
    ExecutionServes(v, v.requests[id]);
  }

  lemma StepLeavesOrphan(w: World, step: Step, id: Id)
    requires Enabled(w, step) && In(w, id, Orphaned) && step != Mine(id)
    ensures id in Next(w, step).requests && Next(w, step).requests[id] == w.requests[id]
  {
    hide R.Apply, R.OutcomeOf, Execute, R.State.IsRegistered;
    if step.Advance? || step.Mine? {
      ExecutionServes(w, w.requests[step.id]);
    }
  }

  lemma {:induction false} OrphanWaits(w: World, steps: seq<Step>, id: Id)
    requires Runs(w, steps) && In(w, id, Orphaned) && Mine(id) !in steps
    ensures id in After(w, steps).requests && After(w, steps).requests[id] == w.requests[id]
  {
    if steps != [] {
      OrphanWaits(w, steps[..|steps| - 1], id);
      hide Next, Enabled;
      StepLeavesOrphan(After(w, steps[..|steps| - 1]), steps[|steps| - 1], id);
    }
  }
}
