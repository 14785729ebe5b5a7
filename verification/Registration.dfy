/**
 backend/src/routes/identityRegister.ts: the claim, check, register and release protocol of POST /register, with any
 number of requests interleaved over the claim store and the registry contract.
 */
module Registration {
  import opened ClaimStore
  import R = VoterRegistry

  type Id = nat
  type Country = R.Country

  datatype Option<T> = None | Some(value: T)

  /** Where a handler stands: the next thing it awaits. */
  datatype Phase =
    | SettingKey    // SET NX
    | GettingKey    // GET
    | Checking      // isRegistered
    | Submitting    // register and wait for the receipt
    | ReleasingKey  // compare and delete
    | Orphaned      // nobody waits for the transaction any more, but it may still be executed
    | Finished(answer: Answer)

  datatype Answer = Created | AlreadyRegistered | Duplicate | Failed | Died

  /** A verified identity without a sybil key makes no claim. */
  datatype Request = Request(key: Option<Key>, commitment: Commitment, country: Country, phase: Phase, claimed: bool) {
    predicate InFlight() {
      !phase.Orphaned? && !phase.Finished?
    }

    /** Past the claim, with a registration of the commitment still possible. */
    predicate MayRegister() {
      phase.Checking? || phase.Submitting? || phase.Orphaned?
    }

    /** Made the claim itself, and would give it back on a failure. */
    predicate OwnsClaim() {
      claimed && (phase.Checking? || phase.Submitting? || phase.ReleasingKey?)
    }
  }

  /** A document told that its commitment is registered, or whose commitment a request put on the chain. */
  datatype Served = Served(key: Key, commitment: Commitment)

  datatype World = World(
    relay: R.Address,
    store: Keyspace,
    registry: R.State,
    requests: map<Id, Request>,
    served: set<Served>)

  datatype Step =
    | Arrive(id: Id, key: Option<Key>, commitment: Commitment, country: Country)
    | Advance(id: Id)             // what the request awaits completes
    | ChainThrows(id: Id)         // a chain call throws and has no effect
    | ReceiptLost(id: Id, orphan: Id) // the wait for the receipt throws; the transaction lives on as an orphan
    | Crash(id: Id)               // the server dies
    | CrashAfterSending(id: Id)   // the server dies, its transaction does not
    | Mine(id: Id)                // an orphaned transaction is executed, sooner or later
    | OtherCall(call: R.Call)     // the rest of the world uses the registry

  predicate InFlight(w: World, id: Id) {
    id in w.requests && w.requests[id].InFlight()
  }

  predicate In(w: World, id: Id, phase: Phase) {
    id in w.requests && w.requests[id].phase == phase
  }

  predicate Enabled(w: World, step: Step) {
    match step
    case Arrive(id, _, _, _) => id !in w.requests
    case Advance(id) => InFlight(w, id)
    case ChainThrows(id) => In(w, id, Checking) || In(w, id, Submitting)
    case ReceiptLost(id, orphan) => In(w, id, Submitting) && orphan !in w.requests
    case Crash(id) => InFlight(w, id)
    case CrashAfterSending(id) => In(w, id, Submitting)
    case Mine(id) => In(w, id, Orphaned)
    case OtherCall(_) => true
  }

  function Goto(w: World, id: Id, phase: Phase): World
    requires id in w.requests
  {
    w.(requests := w.requests[id := w.requests[id].(phase := phase)])
  }

  function Serve(w: World, r: Request): World {
    if r.key.Some? then w.(served := w.served + {Served(r.key.value, r.commitment)}) else w
  }

  function Submission(w: World, r: Request): R.Call {
    R.Call.Register(w.relay, r.commitment, r.country)
  }

  /** The transaction is executed: the registry and what has been served change, the request does not. */
  function Execute(w: World, r: Request): World {
    var w' := w.(registry := R.Apply(w.registry, Submission(w, r)));
    if R.OutcomeOf(w.registry, Submission(w, r)) == R.Done then Serve(w', r) else w'
  }

  /** The inner catch: only a request that made the claim gives it back. */
  function AfterFailure(w: World, id: Id): World
    requires id in w.requests
  {
    var r := w.requests[id];
    Goto(w, id, if r.key.Some? && r.claimed then ReleasingKey else Finished(Failed))
  }

  /** The transaction of a request is left to itself. */
  function Abandon(w: World, id: Id, orphan: Id): World
    requires id in w.requests
  {
    w.(requests := w.requests[orphan := w.requests[id].(phase := Orphaned, claimed := false)])
  }

  function Advanced(w: World, id: Id): World
    requires InFlight(w, id)
  {
    var r := w.requests[id];
    match r.phase
    case SettingKey =>
      if r.key.None? then Goto(w, id, Checking)
      else if r.key.value in w.store then Goto(w, id, GettingKey)
      else w.(store := w.store[r.key.value := r.commitment],
              requests := w.requests[id := r.(phase := Checking, claimed := true)])
    case GettingKey =>
      if r.key.None? || r.key.value !in w.store then Goto(w, id, SettingKey)
      else if w.store[r.key.value] != r.commitment then Goto(w, id, Finished(Duplicate))
      else Goto(w, id, Checking)
    case Checking =>
      if w.registry.IsRegistered(r.commitment, r.country) then Serve(Goto(w, id, Finished(AlreadyRegistered)), r)
      else Goto(w, id, Submitting)
    case Submitting =>
      if R.OutcomeOf(w.registry, Submission(w, r)) == R.Done then Goto(Execute(w, r), id, Finished(Created))
      else AfterFailure(w, id)
    case ReleasingKey =>
      Goto(if r.key.Some? then w.(store := AfterRelease(w.store, r.key.value, r.commitment)) else w, id,
           Finished(Failed))
    case Orphaned => w
    case Finished(_) => w
  }

  function Next(w: World, step: Step): World
    requires Enabled(w, step)
  {
    match step
    case Arrive(id, key, commitment, country) =>
      var phase := if key.None? then Checking else SettingKey;
      w.(requests := w.requests[id := Request(key, commitment, country, phase, false)])
    case Advance(id) => Advanced(w, id)
    case ChainThrows(id) => // the read is outside the inner try: its failure does not release
      if In(w, id, Checking) then Goto(w, id, Finished(Failed)) else AfterFailure(w, id)
    case ReceiptLost(id, orphan) => AfterFailure(Abandon(w, id, orphan), id)
    case Crash(id) => Goto(w, id, Finished(Died))
    case CrashAfterSending(id) => Goto(w, id, Orphaned)
    case Mine(id) => Goto(Execute(w, w.requests[id]), id, Finished(Died))
    case OtherCall(call) => w.(registry := R.Apply(w.registry, call))
  }

  // ---------- one document, one voter ----------

  ghost predicate OneVoterPerDocument(w: World) {
    forall a, b :: a in w.served && b in w.served && a.key == b.key ==> a == b
  }

  predicate Holds(store: Keyspace, key: Key, commitment: Commitment) {
    key in store && store[key] == commitment
  }

  /** A request that may still register holds its key. */
  predicate Guarded(store: Keyspace, r: Request) {
    r.MayRegister() && r.key.Some? ==> Holds(store, r.key.value, r.commitment)
  }

  /** ... and so does every served document. */
  ghost predicate Backed(w: World) {
    && (forall id :: id in w.requests ==> Guarded(w.store, w.requests[id]))
    && (forall s :: s in w.served ==> Holds(w.store, s.key, s.commitment))
  }

  /** A request that may still register under the key. */
  ghost predicate MayYetRegister(w: World, key: Option<Key>) {
    exists id :: id in w.requests && w.requests[id].MayRegister() && w.requests[id].key == key
  }

  /** A release that gives up a key for which a commitment has been served or may still be registered. */
  ghost predicate Unsafe(w: World, step: Step) {
    if step.Advance? && In(w, step.id, ReleasingKey) then
      var r := w.requests[step.id];
      && r.key.Some? && Holds(w.store, r.key.value, r.commitment)
      && (Served(r.key.value, r.commitment) in w.served || MayYetRegister(w, r.key))
    else false
  }

  /** w' differs from w by one request, by keys added to the store and by what that request has served. */
  ghost predicate Touches(w: World, w': World, id: Id) {
    && id in w'.requests
    && w.store.Keys <= w'.store.Keys && (forall k :: k in w.store ==> w'.store[k] == w.store[k])
    && (forall j :: j in w'.requests && j != id ==> j in w.requests && w'.requests[j] == w.requests[j])
    && (forall s :: s in w'.served && s !in w.served ==> Holds(w'.store, s.key, s.commitment))
  }

  lemma StaysBacked(w: World, w': World, id: Id)
    requires Backed(w) && Touches(w, w', id) && Guarded(w'.store, w'.requests[id])
    ensures Backed(w')
  {
    forall j | j in w'.requests ensures Guarded(w'.store, w'.requests[j]) {
      if j != id { assert Guarded(w.store, w.requests[j]); }
    }
  }

  lemma ExecuteTouches(w: World, id: Id, phase: Phase)
    requires id in w.requests && w.requests[id].MayRegister() && Guarded(w.store, w.requests[id])
    ensures Touches(w, Goto(Execute(w, w.requests[id]), id, phase), id)
    ensures Execute(w, w.requests[id]).store == w.store
  {
    hide R.Apply, R.OutcomeOf;
  }

  lemma SubmissionTouches(w: World, id: Id)
    requires In(w, id, Submitting) && Guarded(w.store, w.requests[id])
    ensures Touches(w, Advanced(w, id), id)
  {
    hide R.Apply, R.OutcomeOf, Execute;
    assert Touches(w, AfterFailure(w, id), id);
    hide Touches;
    ExecuteTouches(w, id, Finished(Created));
  }

  lemma AdvanceTouches(w: World, id: Id)
    requires InFlight(w, id) && !In(w, id, ReleasingKey) && Guarded(w.store, w.requests[id])
    ensures Touches(w, Advanced(w, id), id)
  {
    hide R.Apply, R.OutcomeOf, Execute;
    if In(w, id, Submitting) { SubmissionTouches(w, id); }
  }

  lemma AdvanceGuards(w: World, id: Id)
    requires InFlight(w, id) && Guarded(w.store, w.requests[id])
    ensures Guarded(Advanced(w, id).store, Advanced(w, id).requests[id])
  {
    hide R.Apply, R.OutcomeOf, Execute;
  }

  lemma AdvanceStaysBacked(w: World, id: Id)
    requires Backed(w) && InFlight(w, id) && !In(w, id, ReleasingKey)
    ensures Backed(Advanced(w, id))
  {
    assert Guarded(w.store, w.requests[id]);
    hide Advanced, Backed, Guarded;
    AdvanceTouches(w, id);
    AdvanceGuards(w, id);
    StaysBacked(w, Advanced(w, id), id);
  }

  lemma ReleaseBackedExactly(w: World, id: Id)
    requires Backed(w) && In(w, id, ReleasingKey)
    ensures Backed(Advanced(w, id)) <==> !Unsafe(w, Advance(id))
  {
    hide R.Apply, R.OutcomeOf, Execute;
    var w' := Advanced(w, id);
    var r := w.requests[id];
    if Unsafe(w, Advance(id)) && MayYetRegister(w, r.key) {
      var j :| j in w.requests && w.requests[j].MayRegister() && w.requests[j].key == r.key;
      assert Guarded(w.store, w.requests[j]) && w'.requests[j] == w.requests[j];
    } else if !Unsafe(w, Advance(id)) {
      forall j | j in w'.requests ensures Guarded(w'.store, w'.requests[j]) {
        if j != id { assert Guarded(w.store, w.requests[j]) && w'.requests[j] == w.requests[j]; }
      }
    }
  }

  lemma AbandonStaysBacked(w: World, id: Id, orphan: Id)
    requires Backed(w) && In(w, id, Submitting) && orphan !in w.requests
    ensures Backed(AfterFailure(Abandon(w, id, orphan), id))
  {
    assert Guarded(w.store, w.requests[id]);
    hide Backed;
    StaysBacked(w, Abandon(w, id, orphan), orphan);
    StaysBacked(Abandon(w, id, orphan), AfterFailure(Abandon(w, id, orphan), id), id);
  }

  /** Every step but an unsafe release keeps every document backed, and an unsafe release does not. */
  lemma BackedExactly(w: World, step: Step)
    requires Backed(w) && Enabled(w, step)
    ensures Backed(Next(w, step)) <==> !Unsafe(w, step)
  {
    hide R.Apply, R.OutcomeOf, Execute, Advanced;
    if step.OtherCall? {
    } else if step.Advance? && In(w, step.id, ReleasingKey) {
      ReleaseBackedExactly(w, step.id);
    } else if step.Advance? {
      AdvanceStaysBacked(w, step.id);
    } else if step.ReceiptLost? {
      AbandonStaysBacked(w, step.id, step.orphan);
    } else {
      assert step.id in w.requests ==> Guarded(w.store, w.requests[step.id]);
      hide Backed;
      if step.Mine? {
        ExecuteTouches(w, step.id, Next(w, step).requests[step.id].phase);
      }
      StaysBacked(w, Next(w, step), step.id);
    }
  }

  // ---------- requests for the same document and commitment kept apart ----------

  /** No two requests in flight for the same sybil key and commitment. */
  ghost predicate PairsDiffer(w: World) {
    forall i, j :: InFlight(w, i) && InFlight(w, j) && i != j && w.requests[i].key.Some? ==>
      w.requests[i].key != w.requests[j].key || w.requests[i].commitment != w.requests[j].commitment
  }

  ghost predicate OrphanHas(w: World, key: Option<Key>) {
    exists id :: id in w.requests && w.requests[id].phase.Orphaned? && w.requests[id].key == key
  }

  ghost predicate ServedHas(w: World, key: Key) {
    exists s :: s in w.served && s.key == key
  }

  /** The request that made the claim still holds it, and nobody else has used or may use it. */
  ghost predicate OwnsAlone(w: World, r: Request) {
    && (r.OwnsClaim() ==>
          (r.key.Some? && Holds(w.store, r.key.value, r.commitment) && !ServedHas(w, r.key.value)
           && !OrphanHas(w, r.key)))
    && (r.claimed ==> !r.phase.SettingKey? && !r.phase.GettingKey?)
    && (r.phase.ReleasingKey? ==> r.claimed)
  }

  ghost predicate Apart(w: World) {
    PairsDiffer(w) && forall id :: id in w.requests ==> OwnsAlone(w, w.requests[id])
  }

  /** The environment of the property: exclusive pairs, and no receipt lost by a request that made the claim. */
  ghost predicate Civil(w: World, step: Step) {
    && (step.ReceiptLost? && step.id in w.requests ==> !w.requests[step.id].claimed)
    && (step.Arrive? && step.key.Some? ==>
          forall j :: InFlight(w, j) ==> w.requests[j].key != step.key || w.requests[j].commitment != step.commitment)
  }

  /** The request's next step may serve its key, give it up, or orphan it. */
  predicate Critical(w: World, id: Id) {
    id in w.requests && w.requests[id].key.Some? &&
    (w.requests[id].MayRegister()
     || (w.requests[id].phase.ReleasingKey? && Holds(w.store, w.requests[id].key.value, w.requests[id].commitment)))
  }

  lemma OwnerAndCriticalDiffer(w: World, i: Id, j: Id)
    requires Backed(w) && Apart(w) && i in w.requests && w.requests[i].OwnsClaim() && i != j && Critical(w, j)
    ensures w.requests[i].key != w.requests[j].key
  {
    assert Guarded(w.store, w.requests[j]) && OwnsAlone(w, w.requests[i]);
    if w.requests[i].key == w.requests[j].key {
      assert w.requests[i].commitment == w.requests[j].commitment;
      assert !w.requests[j].phase.Orphaned?;
      assert InFlight(w, i) && InFlight(w, j);
      assert false;
    }
  }

  /** What a step may do to the store, to what has been served and to the requests. */
  ghost predicate Disturbs(w: World, w': World, id: Id) {
    && id in w'.requests && w.requests.Keys + {id} == w'.requests.Keys
    && (forall j :: j in w.requests && j != id ==> w'.requests[j] == w.requests[j])
    && (id in w.requests ==>
          (w'.requests[id].key == w.requests[id].key && w'.requests[id].commitment == w.requests[id].commitment))
    && (if Critical(w, id) then
          var r := w.requests[id];
          && (forall k :: k != r.key.value && k in w.store ==> k in w'.store && w'.store[k] == w.store[k])
          && (forall s :: s in w'.served && s !in w.served ==> s.key == r.key.value)
        else
          && (forall k :: k in w.store ==> k in w'.store && w'.store[k] == w.store[k])
          && w'.served == w.served
          && !(w'.requests[id].phase.Orphaned? && w'.requests[id].key.Some?))
  }

  lemma ExecuteDisturbs(w: World, id: Id, phase: Phase)
    requires id in w.requests && w.requests[id].MayRegister() && (phase.Orphaned? ==> w.requests[id].phase.Orphaned?)
    ensures Disturbs(w, Goto(Execute(w, w.requests[id]), id, phase), id)
  {
    hide R.Apply, R.OutcomeOf;
  }

  lemma SubmissionDisturbs(w: World, id: Id)
    requires In(w, id, Submitting)
    ensures Disturbs(w, Advanced(w, id), id)
  {
    hide R.Apply, R.OutcomeOf, Execute;
    assert Disturbs(w, AfterFailure(w, id), id);
    hide Disturbs;
    ExecuteDisturbs(w, id, Finished(Created));
  }

  lemma SettingDisturbs(w: World, id: Id)
    requires In(w, id, SettingKey)
    ensures Disturbs(w, Advanced(w, id), id)
  {
  }

  lemma GettingDisturbs(w: World, id: Id)
    requires In(w, id, GettingKey)
    ensures Disturbs(w, Advanced(w, id), id)
  {
  }

  lemma OtherwiseDisturbs(w: World, id: Id)
    requires In(w, id, Checking) || In(w, id, ReleasingKey)
    ensures Disturbs(w, Advanced(w, id), id)
  {
    hide R.State.IsRegistered;
  }

  lemma AdvanceDisturbs(w: World, id: Id)
    requires InFlight(w, id)
    ensures Disturbs(w, Advanced(w, id), id)
  {
    hide Advanced, Disturbs;
    if In(w, id, Submitting) {
      SubmissionDisturbs(w, id);
    } else if In(w, id, SettingKey) {
      SettingDisturbs(w, id);
    } else if In(w, id, GettingKey) {
      GettingDisturbs(w, id);
    } else {
      OtherwiseDisturbs(w, id);
    }
  }

  lemma StepDisturbs(w: World, step: Step)
    requires Enabled(w, step) && !step.OtherCall? && !step.ReceiptLost?
    ensures Disturbs(w, Next(w, step), step.id)
  {
    hide R.Apply, R.OutcomeOf, Execute, Advanced;
    if step.Advance? {
      AdvanceDisturbs(w, step.id);
    } else if step.Mine? {
      ExecuteDisturbs(w, step.id, Next(w, step).requests[step.id].phase);
    }
  }

  /** A disturbance of another key leaves an owner alone. */
  lemma OwnerUndisturbed(w: World, w': World, id: Id, r: Request)
    requires OwnsAlone(w, r) && Disturbs(w, w', id)
    requires r.OwnsClaim() && Critical(w, id) ==> r.key != w.requests[id].key
    ensures OwnsAlone(w', r)
  {
    if r.OwnsClaim() {
      forall o | o in w'.requests && w'.requests[o].phase.Orphaned? ensures w'.requests[o].key != r.key {
        assert o == id || w'.requests[o] == w.requests[o];
      }
      forall s | s in w'.served ensures s.key != r.key.value {
        assert s in w.served || (Critical(w, id) && s.key == w.requests[id].key.value);
      }
    }
  }

  lemma OthersStayOwners(w: World, w': World, id: Id, j: Id)
    requires Backed(w) && Apart(w) && Disturbs(w, w', id) && j in w.requests && j != id
    ensures OwnsAlone(w', w'.requests[j])
  {
    assert OwnsAlone(w, w.requests[j]) && w'.requests[j] == w.requests[j];
    if Critical(w, id) && w.requests[j].OwnsClaim() { OwnerAndCriticalDiffer(w, j, id); }
    hide *;
    OwnerUndisturbed(w, w', id, w.requests[j]);
  }

  lemma ClaimOwns(w: World, id: Id)
    requires Backed(w) && In(w, id, SettingKey)
    requires w.requests[id].key.Some? && w.requests[id].key.value !in w.store
    ensures OwnsAlone(Advanced(w, id), Advanced(w, id).requests[id])
  {
    var w', r := Advanced(w, id), w.requests[id];
    forall o | o in w'.requests && w'.requests[o].phase.Orphaned? ensures w'.requests[o].key != r.key {
      assert Guarded(w.store, w.requests[o]);
    }
  }

  lemma ActorOwns(w: World, step: Step)
    requires Backed(w) && Apart(w) && Enabled(w, step) && !step.OtherCall? && !step.ReceiptLost?
    ensures OwnsAlone(Next(w, step), Next(w, step).requests[step.id])
  {
    hide R.Apply, R.OutcomeOf, Execute, PairsDiffer;
    if !step.Arrive? {
      assert OwnsAlone(w, w.requests[step.id]);
      if In(w, step.id, SettingKey) && step.Advance? && w.requests[step.id].key.Some?
         && w.requests[step.id].key.value !in w.store {
        ClaimOwns(w, step.id);
      }
    }
  }

  lemma StepKeepsPairsDifferent(w: World, step: Step)
    requires PairsDiffer(w) && Enabled(w, step) && Civil(w, step) && !step.ReceiptLost?
    ensures PairsDiffer(Next(w, step))
  {
    hide R.Apply, R.OutcomeOf, Execute, Advanced;
    var w' := Next(w, step);
    if !step.OtherCall? && !step.ReceiptLost? {
      StepDisturbs(w, step);
      forall j | InFlight(w', j) && j != step.id ensures InFlight(w, j) && w'.requests[j] == w.requests[j] {
      }
      ActorStaysInFlight(w, step);
    }
  }

  /** A step puts a request in flight only by its arrival. */
  lemma ActorStaysInFlight(w: World, step: Step)
    requires Enabled(w, step) && !step.OtherCall?
    ensures InFlight(Next(w, step), step.id) && !step.Arrive? ==> InFlight(w, step.id)
  {
    hide R.Apply, R.OutcomeOf, Execute;
  }

  /** An orphan under a key leaves the owner of another key alone. */
  lemma OrphanDisturbsOnlyItsKey(w: World, id: Id, orphan: Id, j: Id)
    requires Backed(w) && Apart(w) && In(w, id, Submitting) && orphan !in w.requests && j in w.requests
    requires !w.requests[id].claimed
    ensures OwnsAlone(Abandon(w, id, orphan), w.requests[j])
  {
    var w', r := Abandon(w, id, orphan), w.requests[j];
    assert OwnsAlone(w, r);
    if r.OwnsClaim() {
      if Critical(w, id) { OwnerAndCriticalDiffer(w, j, id); }
      forall o | o in w'.requests && w'.requests[o].phase.Orphaned? ensures w'.requests[o].key != r.key {
        assert o == orphan || w'.requests[o] == w.requests[o];
      }
    }
  }

  lemma AbandonStaysApart(w: World, id: Id, orphan: Id)
    requires Backed(w) && Apart(w) && In(w, id, Submitting) && orphan !in w.requests && !w.requests[id].claimed
    ensures Apart(Abandon(w, id, orphan))
  {
    var w' := Abandon(w, id, orphan);
    forall j | j in w'.requests ensures OwnsAlone(w', w'.requests[j]) {
      if j != orphan { OrphanDisturbsOnlyItsKey(w, id, orphan, j); }
    }
    hide Backed, OwnsAlone;
    assert forall j :: InFlight(w', j) ==> InFlight(w, j) && w'.requests[j] == w.requests[j];
  }

  lemma FinishStaysApart(w: World, id: Id, answer: Answer)
    requires Apart(w) && id in w.requests
    ensures Apart(Goto(w, id, Finished(answer)))
  {
    var w' := Goto(w, id, Finished(answer));
    forall j | j in w'.requests ensures OwnsAlone(w', w'.requests[j]) {
      assert OwnsAlone(w, w.requests[j]);
      assert forall o :: o in w'.requests && w'.requests[o].phase.Orphaned? ==> w'.requests[o] == w.requests[o];
    }
    assert forall j :: InFlight(w', j) ==> InFlight(w, j) && w'.requests[j] == w.requests[j];
  }

  lemma StepStaysApart(w: World, step: Step)
    requires Backed(w) && Apart(w) && Enabled(w, step) && Civil(w, step)
    ensures Apart(Next(w, step))
  {
    if step.ReceiptLost? {
      hide Backed, Apart;
      AbandonStaysApart(w, step.id, step.orphan);
      FinishStaysApart(Abandon(w, step.id, step.orphan), step.id, Failed);
    } else {
      OtherStepsStayApart(w, step);
    }
  }

  lemma OtherStepsStayApart(w: World, step: Step)
    requires Backed(w) && Apart(w) && Enabled(w, step) && Civil(w, step) && !step.ReceiptLost?
    ensures Apart(Next(w, step))
  {
    var w' := Next(w, step);
    StepKeepsPairsDifferent(w, step);
    if step.OtherCall? {
      forall j | j in w'.requests ensures OwnsAlone(w', w'.requests[j]) {
        assert OwnsAlone(w, w.requests[j]);
      }
    } else {
      hide R.Apply, R.OutcomeOf, Execute, Next, OwnsAlone, PairsDiffer, Backed;
      StepDisturbs(w, step);
      forall j | j in w'.requests ensures OwnsAlone(w', w'.requests[j]) {
        if j == step.id { ActorOwns(w, step); } else { OthersStayOwners(w, w', step.id, j); }
      }
    }
  }

  lemma CivilIsSafe(w: World, step: Step)
    requires Backed(w) && Apart(w) && Enabled(w, step)
    ensures !Unsafe(w, step)
  {
    hide R.Apply, R.OutcomeOf, Execute, Next;
    if step.Advance? && In(w, step.id, ReleasingKey) {
      var r := w.requests[step.id];
      assert OwnsAlone(w, r);
      forall j | j in w.requests && w.requests[j].MayRegister() ensures w.requests[j].key != r.key {
        if Critical(w, j) { OwnerAndCriticalDiffer(w, step.id, j); }
      }
    }
  }

  // ---------- whole runs ----------

  predicate Runs(w: World, steps: seq<Step>)
    decreases |steps|, 0
  {
    steps == [] || (Runs(w, steps[..|steps| - 1]) && Enabled(After(w, steps[..|steps| - 1]), steps[|steps| - 1]))
  }

  function After(w: World, steps: seq<Step>): World
    requires Runs(w, steps)
    decreases |steps|, 1
  {
    if steps == [] then w else Next(After(w, steps[..|steps| - 1]), steps[|steps| - 1])
  }

  ghost predicate NeverUnsafe(w: World, steps: seq<Step>)
    requires Runs(w, steps)
  {
    steps == [] ||
    (NeverUnsafe(w, steps[..|steps| - 1]) && !Unsafe(After(w, steps[..|steps| - 1]), steps[|steps| - 1]))
  }

  ghost predicate AlwaysCivil(w: World, steps: seq<Step>)
    requires Runs(w, steps)
  {
    steps == [] ||
    (AlwaysCivil(w, steps[..|steps| - 1]) && Civil(After(w, steps[..|steps| - 1]), steps[|steps| - 1]))
  }

  /** Nothing requested yet; the store may hold claims of an earlier run and the registry anything. */
  predicate Fresh(w: World) {
    w.requests == map[] && w.served == {}
  }

  /** Whatever the requests and the failures, one voter per document as long as no release is unsafe. */
  lemma {:induction false} SafeRunsServeOnce(w: World, steps: seq<Step>)
    requires Fresh(w) && Runs(w, steps) && NeverUnsafe(w, steps)
    ensures Backed(After(w, steps)) && OneVoterPerDocument(After(w, steps))
  {
    if steps != [] {
      SafeRunsServeOnce(w, steps[..|steps| - 1]);
      hide Next, Unsafe;
      BackedExactly(After(w, steps[..|steps| - 1]), steps[|steps| - 1]);
    }
  }

  lemma {:induction false} CivilRunsAreSafe(w: World, steps: seq<Step>)
    requires Fresh(w) && Runs(w, steps) && AlwaysCivil(w, steps)
    ensures NeverUnsafe(w, steps) && Backed(After(w, steps)) && Apart(After(w, steps))
  {
    if steps != [] {
      CivilRunsAreSafe(w, steps[..|steps| - 1]);
      hide Next, Unsafe, Civil, Backed, Apart;
      var before := After(w, steps[..|steps| - 1]);
      CivilIsSafe(before, steps[|steps| - 1]);
      BackedExactly(before, steps[|steps| - 1]);
      StepStaysApart(before, steps[|steps| - 1]);
    }
  }

  /**
   In every interleaving in which no two requests in flight share a sybil key and commitment and no request that
   made the claim loses its receipt, whatever crashes, chain failures, late transactions and other calls occur, a
   document is served for one commitment at most.
   */
  lemma OneDocumentOneVoter(w: World, steps: seq<Step>)
    requires Fresh(w) && Runs(w, steps) && AlwaysCivil(w, steps)
    ensures OneVoterPerDocument(After(w, steps))
  {
    CivilRunsAreSafe(w, steps);
    SafeRunsServeOnce(w, steps);
  }

  // ---------- what has been served is on the chain ----------

  ghost predicate OnChain(w: World) {
    && (forall id :: id in w.requests ==> w.requests[id].country != 0)
    && (forall s :: s in w.served ==> w.registry.CountryOf(s.commitment) != 0)
  }

  lemma ExecuteStaysOnChain(w: World, id: Id)
    requires OnChain(w) && id in w.requests
    ensures OnChain(Execute(w, w.requests[id]))
  {
    var call := Submission(w, w.requests[id]);
    forall s | s in w.served ensures R.Apply(w.registry, call).CountryOf(s.commitment) != 0 {
      R.StaysRegistered(w.registry, call, s.commitment);
    }
  }

  lemma GotoStaysOnChain(w: World, id: Id, phase: Phase)
    requires OnChain(w) && id in w.requests
    ensures OnChain(Goto(w, id, phase))
  {
  }

  lemma SubmissionStaysOnChain(w: World, id: Id)
    requires OnChain(w) && In(w, id, Submitting)
    ensures OnChain(Advanced(w, id))
  {
    hide R.Apply, R.OutcomeOf, OnChain, Execute;
    ExecuteStaysOnChain(w, id);
    ExecuteKeepsRequests(w, w.requests[id]);
    GotoStaysOnChain(Execute(w, w.requests[id]), id, Finished(Created));
    GotoStaysOnChain(w, id, ReleasingKey);
    GotoStaysOnChain(w, id, Finished(Failed));
  }

  lemma ExecuteKeepsRequests(w: World, r: Request)
    ensures Execute(w, r).requests == w.requests
  {
    hide R.Apply, R.OutcomeOf;
  }

  lemma AdvanceStaysOnChain(w: World, id: Id)
    requires OnChain(w) && InFlight(w, id)
    ensures OnChain(Advanced(w, id))
  {
    hide R.Apply, R.OutcomeOf, Execute;
    if In(w, id, Submitting) { SubmissionStaysOnChain(w, id); }
  }

  lemma StepStaysOnChain(w: World, step: Step)
    requires OnChain(w) && Enabled(w, step) && (step.Arrive? ==> step.country != 0)
    ensures OnChain(Next(w, step))
  {
    if step.OtherCall? {
      forall s | s in w.served ensures Next(w, step).registry.CountryOf(s.commitment) != 0 {
        R.StaysRegistered(w.registry, step.call, s.commitment);
      }
    } else if step.Advance? {
      hide Advanced, OnChain;
      AdvanceStaysOnChain(w, step.id);
    } else {
      if step.id in w.requests { ExecuteStaysOnChain(w, step.id); }
      hide R.Apply, R.OutcomeOf, R.State.CountryOf;
    }
  }

  lemma {:induction false} ServedAreRegistered(w: World, steps: seq<Step>)
    requires Fresh(w) && Runs(w, steps) && forall s :: s in steps && s.Arrive? ==> s.country != 0
    ensures OnChain(After(w, steps))
  {
    if steps != [] {
      ServedAreRegistered(w, steps[..|steps| - 1]);
      hide Next, OnChain;
      StepStaysOnChain(After(w, steps[..|steps| - 1]), steps[|steps| - 1]);
    }
  }

  // ---------- what the two conditions keep out ----------

  lemma RunOneMore(w: World, steps: seq<Step>, step: Step)
    requires Runs(w, steps) && Enabled(After(w, steps), step)
    ensures Runs(w, steps + [step]) && After(w, steps + [step]) == Next(After(w, steps), step)
  {
    hide Next, Enabled;
    assert (steps + [step])[..|steps|] == steps;
  }

  /** The conditions under which the four steps of a registration succeed. */
  predicate Acceptable(w: World, key: Key, commitment: Commitment, country: Country) {
    key !in w.store && country != 0
    && R.OutcomeOf(w.registry, R.Call.Register(w.relay, commitment, country)) == R.Done
  }

  function RegistrationSteps(id: Id, key: Option<Key>, commitment: Commitment, country: Country): seq<Step> {
    [Arrive(id, key, commitment, country), Advance(id), Advance(id), Advance(id)]
  }

  /** The world with a request that has claimed a free key. */
  function WithClaim(w: World, id: Id, key: Key, commitment: Commitment, country: Country, phase: Phase): World {
    w.(store := w.store[key := commitment],
       requests := w.requests[id := Request(Some(key), commitment, country, phase, true)])
  }

  lemma ArrivalClaims(w: World, id: Id, key: Key, commitment: Commitment, country: Country)
    requires id !in w.requests && key !in w.store
    ensures var w' := Next(w, Arrive(id, Some(key), commitment, country));
      Enabled(w', Advance(id)) && Next(w', Advance(id)) == WithClaim(w, id, key, commitment, country, Checking)
  {
    hide R.Apply, R.OutcomeOf, R.State.IsRegistered;
  }

  lemma CheckPasses(w: World, id: Id, key: Key, commitment: Commitment, country: Country)
    requires Acceptable(w, key, commitment, country)
    ensures var w' := WithClaim(w, id, key, commitment, country, Checking);
      Enabled(w', Advance(id)) && Next(w', Advance(id)) == WithClaim(w, id, key, commitment, country, Submitting)
  {
  }

  lemma ReachesSubmitting(w: World, id: Id, key: Key, commitment: Commitment, country: Country)
    requires id !in w.requests && Acceptable(w, key, commitment, country)
    ensures var steps := [Arrive(id, Some(key), commitment, country), Advance(id), Advance(id)];
      Runs(w, steps) && After(w, steps) == WithClaim(w, id, key, commitment, country, Submitting)
  {
    hide R.OutcomeOf, Runs, After, Next, WithClaim;
    var arrive := Arrive(id, Some(key), commitment, country);
    ArrivalClaims(w, id, key, commitment, country);
    CheckPasses(w, id, key, commitment, country);
    RunsNothing(w);
    RunOneMore(w, [], arrive);
    RunOneMore(w, [] + [arrive], Advance(id));
    RunOneMore(w, [] + [arrive] + [Advance(id)], Advance(id));
    assert [arrive, Advance(id), Advance(id)] == [] + [arrive] + [Advance(id)] + [Advance(id)];
  }

  lemma RunsNothing(w: World)
    ensures Runs(w, []) && After(w, []) == w
  {
  }

  /** A lone request whose key is free and whose registration the chain accepts is served. */
  lemma FreeKeyIsServed(w: World, id: Id, key: Key, commitment: Commitment, country: Country)
    requires id !in w.requests && Acceptable(w, key, commitment, country)
    ensures var steps := RegistrationSteps(id, Some(key), commitment, country);
      && Runs(w, steps) && After(w, steps).served == w.served + {Served(key, commitment)}
      && After(w, steps).relay == w.relay
      && After(w, steps).registry == R.Apply(w.registry, R.Call.Register(w.relay, commitment, country))
      && forall j :: j in w.requests ==> j in After(w, steps).requests && After(w, steps).requests[j] == w.requests[j]
  {
    ReachesSubmitting(w, id, key, commitment, country);
    hide R.Apply, R.OutcomeOf, Runs, After;
    var three := [Arrive(id, Some(key), commitment, country), Advance(id), Advance(id)];
    RunOneMore(w, three, Advance(id));
    assert three + [Advance(id)] == RegistrationSteps(id, Some(key), commitment, country);
  }

  lemma FourSteps(w: World, s: seq<Step>)
    requires |s| == 4 && Enabled(w, s[0]) && Enabled(Next(w, s[0]), s[1])
    requires Enabled(Next(Next(w, s[0]), s[1]), s[2]) && Enabled(Next(Next(Next(w, s[0]), s[1]), s[2]), s[3])
    ensures Runs(w, s) && After(w, s) == Next(Next(Next(Next(w, s[0]), s[1]), s[2]), s[3])
  {
    hide Next, Enabled;
    RunOneMore(w, [], s[0]);
    RunOneMore(w, [] + [s[0]], s[1]);
    RunOneMore(w, [] + [s[0]] + [s[1]], s[2]);
    RunOneMore(w, [] + [s[0]] + [s[1]] + [s[2]], s[3]);
    assert s == [] + [s[0]] + [s[1]] + [s[2]] + [s[3]];
  }

  /**
   Conversely, once the key of a served document has been given up, one more request of the document is served
   for any new commitment that the chain accepts.
   */
  lemma UnsafeReleaseReopens(w: World, step: Step, id: Id, commitment: Commitment, country: Country)
    requires Enabled(w, step) && Unsafe(w, step) && id !in w.requests && country != 0
    requires Served(w.requests[step.id].key.value, w.requests[step.id].commitment) in w.served
    requires commitment != w.requests[step.id].commitment
    requires R.OutcomeOf(w.registry, R.Call.Register(w.relay, commitment, country)) == R.Done
    ensures var more := RegistrationSteps(id, w.requests[step.id].key, commitment, country);
      Runs(Next(w, step), more) && !OneVoterPerDocument(After(Next(w, step), more))
  {
    var r := w.requests[step.id];
    var w' := Next(w, step);
    assert w'.registry == w.registry && w'.relay == w.relay && w'.served == w.served;
    assert r.key.value !in w'.store && id !in w'.requests;
    hide Next, Unsafe, R.OutcomeOf;
    FreeKeyIsServed(w', id, r.key.value, commitment, country);
    var after := After(w', RegistrationSteps(id, r.key, commitment, country));
    assert Served(r.key.value, r.commitment) in after.served && Served(r.key.value, commitment) in after.served;
  }

  /** What is left to do for a request that may still register. */
  function RemainingSteps(j: Id, phase: Phase): seq<Step> {
    if phase.Checking? then [Advance(j), Advance(j)] else if phase.Submitting? then [Advance(j)] else [Mine(j)]
  }

  lemma PendingRegisters(w: World, j: Id)
    requires j in w.requests && w.requests[j].MayRegister() && w.requests[j].key.Some? && w.requests[j].country != 0
    requires R.OutcomeOf(w.registry, Submission(w, w.requests[j])) == R.Done
    ensures var r, steps := w.requests[j], RemainingSteps(j, w.requests[j].phase);
      Runs(w, steps) && After(w, steps).served == w.served + {Served(r.key.value, r.commitment)}
  {
    assert !w.registry.IsRegistered(w.requests[j].commitment, w.requests[j].country);
    hide R.Apply, R.OutcomeOf, R.State.IsRegistered, Runs, After;
    RunsNothing(w);
    var first := RemainingSteps(j, w.requests[j].phase)[0];
    RunOneMore(w, [], first);
    assert [] + [first] == [first];
    if w.requests[j].phase.Checking? {
      RunOneMore(w, [first], Advance(j));
      assert [first] + [Advance(j)] == RemainingSteps(j, Checking);
    } else {
      assert [first] == RemainingSteps(j, w.requests[j].phase);
    }
  }

  lemma OtherRegistrationsStayPossible(s: R.State, call: R.Call, other: R.Call)
    requires call.Register? && other.Register? && call.commitment != other.commitment
    ensures R.OutcomeOf(R.Apply(s, other), call) == R.OutcomeOf(s, call)
  {
  }

  /**
   The same while another request may still register under the key: after the release a new commitment is served
   for the document, and then the pending one is served too.
   */
  lemma PendingReleaseReopens(w: World, step: Step, j: Id, id: Id, commitment: Commitment, country: Country)
    requires Enabled(w, step) && Unsafe(w, step) && id !in w.requests && country != 0
    requires j in w.requests && w.requests[j].MayRegister() && w.requests[j].key == w.requests[step.id].key
    requires w.requests[j].country != 0 && R.OutcomeOf(w.registry, Submission(w, w.requests[j])) == R.Done
    requires commitment != w.requests[j].commitment
    requires R.OutcomeOf(w.registry, R.Call.Register(w.relay, commitment, country)) == R.Done
    ensures var more := RegistrationSteps(id, w.requests[step.id].key, commitment, country)
                        + RemainingSteps(j, w.requests[j].phase);
      Runs(Next(w, step), more) && !OneVoterPerDocument(After(Next(w, step), more))
  {
    var r := w.requests[step.id];
    var w' := Next(w, step);
    ReleaseOnlyFrees(w, step, j);
    hide Next, Unsafe, R.OutcomeOf, R.Apply, Runs, After;
    var first := RegistrationSteps(id, r.key, commitment, country);
    FreeKeyIsServed(w', id, r.key.value, commitment, country);
    var v := After(w', first);
    OtherRegistrationsStayPossible(w.registry, Submission(w, w.requests[j]),
                                   R.Call.Register(w.relay, commitment, country));
    PendingRegisters(v, j);
    RunsCompose(w', first, RemainingSteps(j, w.requests[j].phase));
    var after := After(v, RemainingSteps(j, w.requests[j].phase));
    assert Served(r.key.value, commitment) in after.served;
    assert Served(r.key.value, w.requests[j].commitment) in after.served;
  }

  lemma ReleaseOnlyFrees(w: World, step: Step, j: Id)
    requires Enabled(w, step) && Unsafe(w, step) && j in w.requests && w.requests[j].MayRegister()
    ensures var w' := Next(w, step);
      && w'.registry == w.registry && w'.relay == w.relay && w'.served == w.served
      && w'.requests.Keys == w.requests.Keys && w'.requests[j] == w.requests[j]
      && w.requests[step.id].key.value !in w'.store
  {
  }

  /**
   A lost receipt is enough: a lone request reports a failure and gives its key up while its transaction may still
   be executed, or after it has been.
   */
  lemma LostReceiptIsUnsafe(w: World, id: Id, orphan: Id, key: Key, commitment: Commitment, country: Country)
    requires id !in w.requests && orphan !in w.requests && id != orphan && Acceptable(w, key, commitment, country)
    ensures var steps := LostSteps(id, orphan, key, commitment, country);
      && Runs(w, steps) && Enabled(After(w, steps), Advance(id)) && Unsafe(After(w, steps), Advance(id))
      && Runs(w, steps + [Mine(orphan)])
      && var v := After(w, steps + [Mine(orphan)]);
         Enabled(v, Advance(id)) && Unsafe(v, Advance(id)) && Served(key, commitment) in v.served
  {
    ReachesSubmitting(w, id, key, commitment, country);
    LostReceipt(WithClaim(w, id, key, commitment, country, Submitting), id, orphan);
    hide R.OutcomeOf, Runs, After, Unsafe, Next, Acceptable;
    var three := [Arrive(id, Some(key), commitment, country), Advance(id), Advance(id)];
    RunOneMore(w, three, ReceiptLost(id, orphan));
    assert three + [ReceiptLost(id, orphan)] == LostSteps(id, orphan, key, commitment, country);
    RunOneMore(w, LostSteps(id, orphan, key, commitment, country), Mine(orphan));
  }

  function LostSteps(id: Id, orphan: Id, key: Key, commitment: Commitment, country: Country): seq<Step> {
    [Arrive(id, Some(key), commitment, country), Advance(id), Advance(id), ReceiptLost(id, orphan)]
  }

  lemma LostReceipt(w: World, id: Id, orphan: Id)
    requires In(w, id, Submitting) && orphan !in w.requests && w.requests[id].claimed && w.requests[id].key.Some?
    requires Holds(w.store, w.requests[id].key.value, w.requests[id].commitment)
    requires R.OutcomeOf(w.registry, Submission(w, w.requests[id])) == R.Done
    ensures var w', r := Next(w, ReceiptLost(id, orphan)), w.requests[id];
      && Enabled(w', Advance(id)) && Unsafe(w', Advance(id)) && Enabled(w', Mine(orphan))
      && var v := Next(w', Mine(orphan));
         Enabled(v, Advance(id)) && Unsafe(v, Advance(id)) && Served(r.key.value, r.commitment) in v.served
  {
    hide R.Apply, R.OutcomeOf;
    var w' := Next(w, ReceiptLost(id, orphan));
    assert w'.requests[orphan].MayRegister() && w'.requests[orphan].key == w'.requests[id].key;
  }

  lemma {:induction false} RunsCompose(w: World, s: seq<Step>, t: seq<Step>)
    requires Runs(w, s) && Runs(After(w, s), t)
    ensures Runs(w, s + t) && After(w, s + t) == After(After(w, s), t)
    decreases |t|
  {
    hide Next, Enabled;
    if t == [] {
      assert s + t == s;
    } else {
      RunsCompose(w, s, t[..|t| - 1]);
      assert (s + t)[..|s + t| - 1] == s + t[..|t| - 1];
    }
  }

  /** Request a claims the key, then request b for the same pair arrives while a is about to submit. */
  function Overlap(a: Id, b: Id, key: Key, commitment: Commitment, country: Country): seq<Step> {
    [Arrive(a, Some(key), commitment, country), Advance(a), Advance(a), Arrive(b, Some(key), commitment, country)]
  }

  lemma OverlapState(w: World, a: Id, b: Id, key: Key, commitment: Commitment, country: Country)
    requires a != b && a !in w.requests && b !in w.requests && Acceptable(w, key, commitment, country)
    ensures var steps := Overlap(a, b, key, commitment, country);
      Runs(w, steps) &&
      var v := After(w, steps);
      && v.registry == w.registry && v.relay == w.relay && Holds(v.store, key, commitment)
      && a in v.requests && v.requests[a] == Request(Some(key), commitment, country, Submitting, true)
      && b in v.requests && v.requests[b] == Request(Some(key), commitment, country, SettingKey, false)
  {
    ReachesSubmitting(w, a, key, commitment, country);
    hide R.OutcomeOf, Runs, After;
    var three := [Arrive(a, Some(key), commitment, country), Advance(a), Advance(a)];
    RunOneMore(w, three, Arrive(b, Some(key), commitment, country));
    assert three + [Arrive(b, Some(key), commitment, country)] == Overlap(a, b, key, commitment, country);
  }

  /** Request b, which did not make the claim, registers; then a's own submission is refused. */
  lemma OverlapServes(v: World, a: Id, b: Id, key: Key, commitment: Commitment, country: Country)
    requires a != b && a in v.requests && b in v.requests && Holds(v.store, key, commitment) && country != 0
    requires v.requests[a] == Request(Some(key), commitment, country, Submitting, true)
    requires v.requests[b] == Request(Some(key), commitment, country, SettingKey, false)
    requires R.OutcomeOf(v.registry, R.Call.Register(v.relay, commitment, country)) == R.Done
    ensures var steps := [Advance(b), Advance(b), Advance(b), Advance(b)];
      && Runs(v, steps) && Served(key, commitment) in After(v, steps).served
      && After(v, steps).registry == R.Apply(v.registry, R.Call.Register(v.relay, commitment, country))
      && After(v, steps).relay == v.relay && After(v, steps).store == v.store
      && a in After(v, steps).requests && After(v, steps).requests[a] == v.requests[a]
  {
    assert !v.registry.IsRegistered(commitment, country);
    hide R.Apply, R.OutcomeOf, R.State.IsRegistered;
    var steps := [Advance(b), Advance(b), Advance(b), Advance(b)];
    var v2 := Next(Next(v, steps[0]), steps[1]);
    assert v2 == Goto(v, b, Checking);
    var v3 := Next(v2, steps[2]);
    assert v3 == Goto(v, b, Submitting);
    FourSteps(v, steps);
  }

  /** Two requests in flight for the same pair are enough, with no failure of the chain or of the server. */
  lemma SharedPairIsUnsafe(w: World, a: Id, b: Id, key: Key, commitment: Commitment, country: Country)
    requires a != b && a !in w.requests && b !in w.requests && Acceptable(w, key, commitment, country)
    ensures var steps := Overlap(a, b, key, commitment, country) + [Advance(b), Advance(b), Advance(b), Advance(b)]
        + [Advance(a)];
      && Runs(w, steps) && Enabled(After(w, steps), Advance(a)) && Unsafe(After(w, steps), Advance(a))
      && Served(key, commitment) in After(w, steps).served
  {
    var first, second := Overlap(a, b, key, commitment, country), [Advance(b), Advance(b), Advance(b), Advance(b)];
    OverlapState(w, a, b, key, commitment, country);
    var v := After(w, first);
    OverlapServes(v, a, b, key, commitment, country);
    var u := After(v, second);
    assert R.OutcomeOf(u.registry, R.Call.Register(u.relay, commitment, country)) != R.Done;
    assert Next(u, Advance(a)) == Goto(u, a, ReleasingKey);
    hide Next, R.Apply, R.OutcomeOf, Overlap, MayYetRegister;
    RunsCompose(w, first, second);
    RunOneMore(w, first + second, Advance(a));
  }
}
