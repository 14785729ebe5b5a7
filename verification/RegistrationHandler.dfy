/** backend/src/routes/identityRegister.ts: the handler of POST /register, when its request is the only one. */
module RegistrationHandler {
  import C = ClaimStore
  import opened Registration

  /**
   Where the chain calls of a request fail; a refusal by the registry is not a fault. When the wait for the receipt
   throws, the transaction has been mined by the end of the request or is still pending.
   */
  datatype Fault = NoFault | CheckThrows | SubmitThrows | ReceiptThrows(mined: bool) {
    /** The registration reaches the chain before the request ends. */
    predicate Reaches() {
      !SubmitThrows? && (ReceiptThrows? ==> mined)
    }
  }

  datatype Reply = Reply(answer: Answer, store: C.Keyspace, registry: R.State)

  datatype Identity = Identity(sybilKey: Option<C.Key>, commitment: C.Commitment, country: Country)

  /** The identity's key is free, so that the request makes the claim. */
  predicate Claims(store: C.Keyspace, i: Identity) {
    i.sybilKey.Some? && i.sybilKey.value !in store
  }

  function AfterClaiming(store: C.Keyspace, i: Identity): C.Keyspace {
    if i.sybilKey.Some? then C.AfterClaim(store, i.sybilKey.value, i.commitment) else store
  }

  predicate IsDuplicate(store: C.Keyspace, i: Identity) {
    i.sybilKey.Some? && i.sybilKey.value in store && store[i.sybilKey.value] != i.commitment
  }

  function Call(relay: R.Address, i: Identity): R.Call {
    R.Call.Register(relay, i.commitment, i.country)
  }

  /** The chain executes the registration before the request ends. */
  predicate Executes(registry: R.State, relay: R.Address, i: Identity, fault: Fault) {
    fault.Reaches() && R.OutcomeOf(registry, Call(relay, i)) == R.Done
  }

  function Submitted(store: C.Keyspace, registry: R.State, relay: R.Address, i: Identity, fault: Fault): Reply {
    var registry' := if fault.Reaches() then R.Apply(registry, Call(relay, i)) else registry;
    if Executes(registry, relay, i, fault) && !fault.ReceiptThrows?
    then Reply(Created, AfterClaiming(store, i), registry')
    else Reply(Failed, store, registry')
  }

  /** What a lone request answers and leaves behind. */
  function Handled(store: C.Keyspace, registry: R.State, relay: R.Address, i: Identity, fault: Fault): Reply {
    if IsDuplicate(store, i) then Reply(Duplicate, store, registry)
    else if fault.CheckThrows? then Reply(Failed, AfterClaiming(store, i), registry)
    else if registry.IsRegistered(i.commitment, i.country)
    then Reply(AlreadyRegistered, AfterClaiming(store, i), registry)
    else Submitted(store, registry, relay, i, fault)
  }

  /** The registry's answer, or an exception. */
  method Submit(registry: R.Registry, relay: R.Address, i: Identity, fault: Fault) returns (threw: bool)
    modifies registry
    ensures threw <==> fault.ReceiptThrows? || !Executes(old(registry.Storage()), relay, i, fault)
    ensures registry.Storage() ==
      if fault.Reaches() then R.Apply(old(registry.Storage()), Call(relay, i)) else old(registry.Storage())
  {
    if !fault.Reaches() { return true; }
    var outcome := registry.Register(relay, i.commitment, i.country);
    threw := outcome != R.Done || fault.ReceiptThrows?;
  }

  method PostRegister(store: C.InMemoryUsedIdentifierStore, registry: R.Registry, relay: R.Address, i: Identity,
                      fault: Fault) returns (answer: Answer)
    modifies store, registry
    ensures Reply(answer, store.entries, registry.Storage()) ==
      Handled(old(store.entries), old(registry.Storage()), relay, i, fault)
  {
    ghost var before, chain := store.entries, registry.Storage();
    var claimed := false;
    if i.sybilKey.Some? {
      var claim := store.Claim(i.sybilKey.value, i.commitment);
      if claim.Held? && claim.existing != i.commitment { return Duplicate; }
      claimed := claim.Claimed?;
    }
    assert store.entries == AfterClaiming(before, i) && claimed == Claims(before, i) && !IsDuplicate(before, i);
    if fault.CheckThrows? { return Failed; }
    if registry.Storage().IsRegistered(i.commitment, i.country) { return AlreadyRegistered; }
    hide R.Apply, R.OutcomeOf;
    var threw := Submit(registry, relay, i, fault);
    if !threw { return Created; }
    if i.sybilKey.Some? && claimed {
      store.Release(i.sybilKey.value, i.commitment);
    }
    assert store.entries == before;
    answer := Failed;
  }

  // ---------- what a lone request leaves behind ----------

  /**
   A failed request leaves the claim store as it found it, unless it made the claim and the registration check
   threw: that call is outside the block that gives the claim back.
   */
  lemma FailureRestoresClaims(store: C.Keyspace, registry: R.State, relay: R.Address, i: Identity, fault: Fault)
    ensures var r := Handled(store, registry, relay, i, fault);
      r.answer == Failed ==> (r.store == store <==> !(fault.CheckThrows? && Claims(store, i)))
  {
  }

  /**
   A failed request has registered its commitment exactly if the chain accepted it before the end and its receipt
   was lost. A pending transaction leaves the registry alone until it is executed.
   */
  lemma FailureOnChain(store: C.Keyspace, registry: R.State, relay: R.Address, i: Identity, fault: Fault)
    ensures var r := Handled(store, registry, relay, i, fault);
      r.answer == Failed ==>
        (r.registry != registry <==>
         fault.ReceiptThrows? && fault.mined && R.OutcomeOf(registry, Call(relay, i)) == R.Done)
  {
    if R.OutcomeOf(registry, Call(relay, i)) == R.Done {
      assert |R.Apply(registry, Call(relay, i)).commitments| == |registry.commitments| + 1;
    }
  }

  /** Success: the commitment is registered for the country, and its document's key is held for it alone. */
  lemma SuccessHoldsTheKey(store: C.Keyspace, registry: R.State, relay: R.Address, i: Identity, fault: Fault)
    ensures var r := Handled(store, registry, relay, i, fault);
      && (r.answer == Created || r.answer == AlreadyRegistered ==>
            r.registry.IsRegistered(i.commitment, i.country)
            && (i.sybilKey.Some? ==> Holds(r.store, i.sybilKey.value, i.commitment)))
      && (r.answer == Duplicate <==>
            i.sybilKey.Some? && i.sybilKey.value in store && store[i.sybilKey.value] != i.commitment)
      && (forall k :: Some(k) != i.sybilKey ==>
            ((k in r.store <==> k in store) && (k in store ==> r.store[k] == store[k])))
  {
  }

  /**
   Created: the key is free or the commitment's own, nothing fails, and the registry takes a nonzero commitment that
   it does not know from the relay as the registrar of the country. AlreadyRegistered: the check finds it registered.
   */
  lemma AnsweredExactly(store: C.Keyspace, registry: R.State, relay: R.Address, i: Identity, fault: Fault)
    ensures var r := Handled(store, registry, relay, i, fault);
      var free := i.sybilKey.None? || i.sybilKey.value !in store || store[i.sybilKey.value] == i.commitment;
      && (r.answer == Created <==>
            && free && fault.NoFault?
            && i.country != 0 && i.commitment != 0 && registry.CountryOf(i.commitment) == 0
            && !registry.paused && relay != 0 && registry.Registrar(i.country) == relay)
      && (r.answer == AlreadyRegistered <==>
            free && !fault.CheckThrows? && registry.CountryOf(i.commitment) == i.country)
      && (r.answer == Created ==>
            r.registry == registry.(countryOf := registry.countryOf[i.commitment := i.country],
                                    commitments := registry.commitments + [i.commitment]))
      && (r.answer == AlreadyRegistered || r.answer == Duplicate ==> r.registry == registry)
  {
  }

  /** A retry after a success is answered as registered and changes nothing. */
  lemma RetryIsIdempotent(store: C.Keyspace, registry: R.State, relay: R.Address, i: Identity,
                          first: Fault, second: Fault)
    requires Handled(store, registry, relay, i, first).answer in {Created, AlreadyRegistered} && !second.CheckThrows?
    ensures var r := Handled(store, registry, relay, i, first);
      Handled(r.store, r.registry, relay, i, second) == Reply(AlreadyRegistered, r.store, r.registry)
  {
  }

  // ---------- the handler is a run of the protocol ----------

  function AtPhase(i: Identity, phase: Phase, claimed: bool): Request {
    Request(i.sybilKey, i.commitment, i.country, phase, claimed)
  }

  /** The world w, but for the store, the registry, what has been served, and the request among the others. */
  predicate Shows(w: World, others: map<Id, Request>, v: World, id: Id, store: C.Keyspace, registry: R.State,
                  r: Request) {
    v.store == store && v.registry == registry && v.relay == w.relay && v.requests == others[id := r]
  }

  lemma LoneClaim(w: World, id: Id, i: Identity) returns (steps: seq<Step>)
    requires id !in w.requests
    ensures Runs(w, steps)
    ensures Shows(w, w.requests, After(w, steps), id, AfterClaiming(w.store, i), w.registry,
              AtPhase(i, if IsDuplicate(w.store, i) then Finished(Duplicate) else Checking, Claims(w.store, i)))
  {
    hide Runs, After, R.Apply, R.OutcomeOf;
    var arrival := Arrive(id, i.sybilKey, i.commitment, i.country);
    RunsNothing(w);
    RunOneMore(w, [], arrival);
    steps := [] + [arrival];
    if i.sybilKey.Some? {
      RunOneMore(w, steps, Advance(id));
      steps := steps + [Advance(id)];
      if !Claims(w.store, i) {
        RunOneMore(w, steps, Advance(id));
        steps := steps + [Advance(id)];
      }
    }
  }

  function CheckStep(id: Id, fault: Fault): Step {
    if fault.CheckThrows? then ChainThrows(id) else Advance(id)
  }

  lemma LoneCheck(w: World, v: World, id: Id, i: Identity, fault: Fault)
    requires Shows(w, w.requests, v, id, AfterClaiming(w.store, i), w.registry,
                   AtPhase(i, Checking, Claims(w.store, i)))
    ensures Enabled(v, CheckStep(id, fault))
    ensures var phase :=
        if fault.CheckThrows? then Finished(Failed)
        else if w.registry.IsRegistered(i.commitment, i.country) then Finished(AlreadyRegistered) else Submitting;
      Shows(w, w.requests, Next(v, CheckStep(id, fault)), id, AfterClaiming(w.store, i), w.registry,
        AtPhase(i, phase, Claims(w.store, i)))
  {
    hide R.State.IsRegistered;
  }

  /** A lost receipt leaves the transaction behind, executed or pending. */
  function LeftBehind(w: World, orphan: Id, i: Identity, fault: Fault): map<Id, Request> {
    if fault.ReceiptThrows?
    then w.requests[orphan := AtPhase(i, if fault.mined then Finished(Died) else Orphaned, false)]
    else w.requests
  }

  /** Where the request is after its submission. */
  function PhaseAfter(w: World, i: Identity, answer: Answer): Phase {
    if answer == Failed && Claims(w.store, i) then ReleasingKey else Finished(answer)
  }

  lemma LoneSubmission(w: World, v: World, id: Id, i: Identity, fault: Fault) returns (step: Step)
    requires Shows(w, w.requests, v, id, AfterClaiming(w.store, i), w.registry,
                   AtPhase(i, Submitting, Claims(w.store, i)))
    requires !fault.ReceiptThrows?
    ensures Enabled(v, step)
    ensures var r := Submitted(w.store, w.registry, w.relay, i, fault);
      Shows(w, w.requests, Next(v, step), id, AfterClaiming(w.store, i), r.registry,
        AtPhase(i, PhaseAfter(w, i, r.answer), Claims(w.store, i)))
  {
    hide R.Apply, R.OutcomeOf, AfterClaiming, R.State.IsRegistered;
    RefusalChangesNothing(w.registry, Call(w.relay, i));
    step := if fault.SubmitThrows? then ChainThrows(id) else Advance(id);
  }

  lemma RefusalChangesNothing(registry: R.State, call: R.Call)
    ensures R.OutcomeOf(registry, call) != R.Done ==> R.Apply(registry, call) == registry
  {
  }

  lemma LoneLoss(w: World, v: World, id: Id, orphan: Id, i: Identity)
    requires Shows(w, w.requests, v, id, AfterClaiming(w.store, i), w.registry,
                   AtPhase(i, Submitting, Claims(w.store, i)))
    requires orphan !in v.requests
    ensures Enabled(v, ReceiptLost(id, orphan))
    ensures Shows(w, LeftBehind(w, orphan, i, ReceiptThrows(false)), Next(v, ReceiptLost(id, orphan)), id,
              AfterClaiming(w.store, i), w.registry, AtPhase(i, PhaseAfter(w, i, Failed), Claims(w.store, i)))
  {
    hide AfterClaiming;
  }

  lemma LoneMine(w: World, v: World, id: Id, orphan: Id, i: Identity, r: Request)
    requires id != orphan
    requires Shows(w, LeftBehind(w, orphan, i, ReceiptThrows(false)), v, id, AfterClaiming(w.store, i), w.registry, r)
    ensures Enabled(v, Mine(orphan))
    ensures Shows(w, LeftBehind(w, orphan, i, ReceiptThrows(true)), Next(v, Mine(orphan)), id,
              AfterClaiming(w.store, i), R.Apply(w.registry, Call(w.relay, i)), r)
  {
    hide AfterClaiming, R.Apply, R.OutcomeOf;
  }

  lemma LoneRelease(w: World, others: map<Id, Request>, v: World, id: Id, i: Identity, registry: R.State)
    requires Shows(w, others, v, id, AfterClaiming(w.store, i), registry, AtPhase(i, ReleasingKey, true))
    requires Claims(w.store, i)
    ensures Enabled(v, Advance(id))
    ensures Shows(w, others, Next(v, Advance(id)), id, w.store, registry, AtPhase(i, Finished(Failed), true))
  {
  }

  /** The submission, with its transaction executed or left behind. */
  lemma LoneSubmit(w: World, v: World, id: Id, orphan: Id, i: Identity, fault: Fault) returns (steps: seq<Step>)
    requires Shows(w, w.requests, v, id, AfterClaiming(w.store, i), w.registry,
                   AtPhase(i, Submitting, Claims(w.store, i)))
    requires orphan !in v.requests && id != orphan
    ensures Runs(v, steps)
    ensures var r := Submitted(w.store, w.registry, w.relay, i, fault);
      Shows(w, LeftBehind(w, orphan, i, fault), After(v, steps), id, AfterClaiming(w.store, i), r.registry,
        AtPhase(i, PhaseAfter(w, i, r.answer), Claims(w.store, i)))
  {
    hide Next, Enabled, Shows, AfterClaiming, Claims, PhaseAfter, Runs, After;
    RunsNothing(v);
    if fault.ReceiptThrows? {
      LoneLoss(w, v, id, orphan, i);
      RunOneMore(v, [], ReceiptLost(id, orphan));
      steps := [] + [ReceiptLost(id, orphan)];
      if fault.mined {
        LoneMine(w, After(v, steps), id, orphan, i, AtPhase(i, PhaseAfter(w, i, Failed), Claims(w.store, i)));
        RunOneMore(v, steps, Mine(orphan));
        steps := steps + [Mine(orphan)];
      }
    } else {
      var step := LoneSubmission(w, v, id, i, fault);
      RunOneMore(v, [], step);
      steps := [] + [step];
    }
  }

  /** From the submission to the end, with the claim given back on a failure. */
  lemma LoneEnd(w: World, v: World, id: Id, orphan: Id, i: Identity, fault: Fault) returns (steps: seq<Step>)
    requires Shows(w, w.requests, v, id, AfterClaiming(w.store, i), w.registry,
                   AtPhase(i, Submitting, Claims(w.store, i)))
    requires !IsDuplicate(w.store, i) && orphan !in v.requests && id != orphan
    ensures Runs(v, steps)
    ensures var r := Submitted(w.store, w.registry, w.relay, i, fault);
      Shows(w, LeftBehind(w, orphan, i, fault), After(v, steps), id, r.store, r.registry,
        AtPhase(i, Finished(r.answer), Claims(w.store, i)))
  {
    steps := LoneSubmit(w, v, id, orphan, i, fault);
    var r := Submitted(w.store, w.registry, w.relay, i, fault);
    StoreAfter(w.store, w.registry, w.relay, i, fault);
    var release := r.answer == Failed && Claims(w.store, i);
    hide Next, Enabled, Shows, Submitted, AfterClaiming, Claims, LeftBehind, Runs, After;
    if release {
      LoneRelease(w, LeftBehind(w, orphan, i, fault), After(v, steps), id, i, r.registry);
      RunOneMore(v, steps, Advance(id));
      steps := steps + [Advance(id)];
    }
  }

  lemma StoreAfter(store: C.Keyspace, registry: R.State, relay: R.Address, i: Identity, fault: Fault)
    requires !IsDuplicate(store, i)
    ensures var r := Submitted(store, registry, relay, i, fault);
      r.store == if r.answer == Failed && Claims(store, i) then store else AfterClaiming(store, i)
  {
  }

  /** The request submits: its key is not held by another commitment and its check finds nothing. */
  predicate Submits(w: World, i: Identity, fault: Fault) {
    !IsDuplicate(w.store, i) && !fault.CheckThrows? && !w.registry.IsRegistered(i.commitment, i.country)
  }

  /** Alone in the world, the protocol ends as the handler says; a lost receipt leaves its transaction behind. */
  lemma HandlerIsARun(w: World, id: Id, orphan: Id, i: Identity, fault: Fault) returns (steps: seq<Step>)
    requires id !in w.requests && orphan !in w.requests && id != orphan
    ensures Runs(w, steps)
    ensures var r := Handled(w.store, w.registry, w.relay, i, fault);
      Shows(w, if Submits(w, i, fault) then LeftBehind(w, orphan, i, fault) else w.requests, After(w, steps), id,
        r.store, r.registry, AtPhase(i, Finished(r.answer), Claims(w.store, i)))
  {
    steps := LoneClaim(w, id, i);
    if !IsDuplicate(w.store, i) {
      LoneCheck(w, After(w, steps), id, i, fault);
      hide Next, Enabled, Submitted, CheckStep, R.State.IsRegistered, LeftBehind, Runs, After;
      RunOneMore(w, steps, CheckStep(id, fault));
      steps := steps + [CheckStep(id, fault)];
      if Submits(w, i, fault) {
        var rest := LoneEnd(w, After(w, steps), id, orphan, i, fault);
        RunsCompose(w, steps, rest);
        steps := steps + rest;
      }
    }
  }
}
