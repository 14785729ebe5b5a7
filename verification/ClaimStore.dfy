/**
 backend/src/repositories/UsedIdentifierStore.ts: the in-memory store, whose operations are atomic, and the
 Redis store, whose claim is a SET NX that may be followed by a GET and by starting over.
 */
module ClaimStore {

  type Key = nat
  type Commitment = nat
  type Client = nat

  type Keyspace = map<Key, Commitment>

  datatype ClaimResult = Claimed | Held(existing: Commitment)

  // ---------- the atomic store ----------

  function ClaimAnswer(m: Keyspace, key: Key, commitment: Commitment): ClaimResult {
    if key in m then Held(m[key]) else Claimed
  }

  function AfterClaim(m: Keyspace, key: Key, commitment: Commitment): Keyspace {
    if key in m then m else m[key := commitment]
  }

  function AfterRelease(m: Keyspace, key: Key, commitment: Commitment): Keyspace {
    if key in m && m[key] == commitment then m - {key} else m
  }

  class InMemoryUsedIdentifierStore {
    var entries: Keyspace

    constructor ()
      ensures entries == map[]
    {
      entries := map[];
    }

    method Claim(key: Key, commitment: Commitment) returns (r: ClaimResult)
      modifies this
      ensures r == ClaimAnswer(old(entries), key, commitment) && entries == AfterClaim(old(entries), key, commitment)
    {
      if key in entries { return Held(entries[key]); }
      entries := entries[key := commitment];
      r := Claimed;
    }

    method Release(key: Key, commitment: Commitment)
      modifies this
      ensures entries == AfterRelease(old(entries), key, commitment)
    {
      if key in entries && entries[key] == commitment {
        entries := entries - {key};
      }
    }
  }

  // ---------- the Redis store, one command at a time ----------

  /** Where a client stands in its current call. */
  datatype Pending = Idle | Setting(key: Key, commitment: Commitment) | Getting(key: Key, commitment: Commitment)
    | Deleting(key: Key, commitment: Commitment)

  datatype State = State(keyspace: Keyspace, pending: map<Client, Pending>) {
    function At(c: Client): Pending {
      if c in pending then pending[c] else Idle
    }
  }

  datatype Step =
    | CallClaim(client: Client, key: Key, commitment: Commitment)
    | CallRelease(client: Client, key: Key, commitment: Commitment)
    | Command(client: Client) // the next Redis command of the client's call

  predicate Enabled(s: State, step: Step) {
    match step
    case CallClaim(client, _, _) => s.At(client).Idle?
    case CallRelease(client, _, _) => s.At(client).Idle?
    case Command(client) => !s.At(client).Idle?
  }

  function Next(s: State, step: Step): State
    requires Enabled(s, step)
  {
    match step
    case CallClaim(client, key, commitment) => s.(pending := s.pending[client := Setting(key, commitment)])
    case CallRelease(client, key, commitment) => s.(pending := s.pending[client := Deleting(key, commitment)])
    case Command(client) =>
      match s.At(client)
      case Setting(key, commitment) => // SET key commitment NX
        if key in s.keyspace then s.(pending := s.pending[client := Getting(key, commitment)])
        else State(s.keyspace[key := commitment], s.pending[client := Idle])
      case Getting(key, commitment) => // GET key; start over when it has vanished
        s.(pending := s.pending[client := if key in s.keyspace then Idle else Setting(key, commitment)])
      case Deleting(key, commitment) => // compare and delete
        State(AfterRelease(s.keyspace, key, commitment), s.pending[client := Idle])
  }

  // ---------- linearisation ----------

  /** An operation of the atomic store with the answer the client got. */
  datatype Operation =
    | Claim(client: Client, key: Key, commitment: Commitment, answer: ClaimResult)
    | Release(client: Client, key: Key, commitment: Commitment)

  /** The operation that takes effect in a step: a claim at its successful SET or its non-null GET. */
  function Effect(s: State, step: Step): seq<Operation>
    requires Enabled(s, step)
  {
    if !step.Command? then [] else
      match s.At(step.client)
      case Setting(key, commitment) => if key in s.keyspace then [] else [Claim(step.client, key, commitment, Claimed)]
      case Getting(key, commitment) =>
        if key in s.keyspace then [Claim(step.client, key, commitment, Held(s.keyspace[key]))] else []
      case Deleting(key, commitment) => [Release(step.client, key, commitment)]
  }

  predicate Runs(s: State, steps: seq<Step>)
    decreases |steps|, 0
  {
    steps == [] || (Runs(s, steps[..|steps| - 1]) && Enabled(After(s, steps[..|steps| - 1]), steps[|steps| - 1]))
  }

  function After(s: State, steps: seq<Step>): State
    requires Runs(s, steps)
    decreases |steps|, 1
  {
    if steps == [] then s else Next(After(s, steps[..|steps| - 1]), steps[|steps| - 1])
  }

  /** The sequential order of the operations of a run. */
  function Linearised(s: State, steps: seq<Step>): seq<Operation>
    requires Runs(s, steps)
  {
    if steps == [] then [] else
      var init := steps[..|steps| - 1];
      Linearised(s, init) + Effect(After(s, init), steps[|steps| - 1])
  }

  /** What one operation does to the atomic store. */
  function Performed(m: Keyspace, o: Operation): Keyspace {
    match o
    case Claim(_, key, commitment, _) => AfterClaim(m, key, commitment)
    case Release(_, key, commitment) => AfterRelease(m, key, commitment)
  }

  predicate Answers(m: Keyspace, o: Operation) {
    o.Claim? ==> o.answer == ClaimAnswer(m, o.key, o.commitment)
  }

  /** The contents of the atomic store after the operations. */
  function Replayed(start: Keyspace, ops: seq<Operation>): Keyspace {
    if ops == [] then start else Performed(Replayed(start, ops[..|ops| - 1]), ops[|ops| - 1])
  }

  /** The atomic store gives every recorded answer. */
  predicate AnswersAll(start: Keyspace, ops: seq<Operation>) {
    ops == [] || (AnswersAll(start, ops[..|ops| - 1]) && Answers(Replayed(start, ops[..|ops| - 1]), ops[|ops| - 1]))
  }

  lemma StepPerformsEffect(s: State, step: Step)
    requires Enabled(s, step)
    ensures Effect(s, step) == [] ==> Next(s, step).keyspace == s.keyspace
    ensures Effect(s, step) != [] ==>
      (|Effect(s, step)| == 1 && Answers(s.keyspace, Effect(s, step)[0])
       && Next(s, step).keyspace == Performed(s.keyspace, Effect(s, step)[0]))
  {
  }

  lemma ReplayOneMore(start: Keyspace, ops: seq<Operation>, o: Operation)
    ensures Replayed(start, ops + [o]) == Performed(Replayed(start, ops), o)
    ensures AnswersAll(start, ops + [o]) <==> AnswersAll(start, ops) && Answers(Replayed(start, ops), o)
  {
    hide Performed, Answers;
    assert (ops + [o])[..|ops|] == ops;
  }

  /**
   Every interleaving of the Redis commands of any number of clients has a sequential order in which the
   in-memory store gives the same answers and ends with the same contents.
   */
  lemma {:induction false} RedisRefinesAtomic(s: State, steps: seq<Step>)
    requires Runs(s, steps)
    ensures AnswersAll(s.keyspace, Linearised(s, steps))
    ensures Replayed(s.keyspace, Linearised(s, steps)) == After(s, steps).keyspace
  {
    hide Next, Effect, Performed, Answers, Enabled;
    if steps != [] {
      var init, step := steps[..|steps| - 1], steps[|steps| - 1];
      var t, before := After(s, init), Linearised(s, init);
      RedisRefinesAtomic(s, init);
      StepPerformsEffect(t, step);
      if Effect(t, step) == [] {
        assert before + [] == before;
      } else {
        assert Effect(t, step) == [Effect(t, step)[0]];
        ReplayOneMore(s.keyspace, before, Effect(t, step)[0]);
      }
    }
  }

  /** Each call takes effect exactly once, in its last step: the step that makes the client idle again. */
  lemma EffectIsCompletion(s: State, step: Step)
    requires Enabled(s, step)
    ensures |Effect(s, step)| == if step.Command? && Next(s, step).At(step.client).Idle? then 1 else 0
    ensures forall o :: o in Effect(s, step) ==>
      (o.client == step.client && o.key == s.At(step.client).key && o.commitment == s.At(step.client).commitment)
  {
  }

  /** While a call is running, it keeps its key and commitment and the other clients do not disturb it. */
  lemma CallKeepsArguments(s: State, step: Step, c: Client)
    requires Enabled(s, step) && !s.At(c).Idle? && !Next(s, step).At(c).Idle?
    ensures Next(s, step).At(c).key == s.At(c).key && Next(s, step).At(c).commitment == s.At(c).commitment
  {
  }
}
