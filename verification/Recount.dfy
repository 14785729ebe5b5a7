/**
 The recounts of the VoteCast events: backend/src/services/TallyService.ts, the independent auditor in
 cli/src/index.ts, and their agreement with each other and with the ledger.
 Options are numbered; 1, 2 and 3 stand for the three known option names.
 */
module Recount {
  import opened Sums

  type Id = nat

  const SUPPORT: Id := 1
  const OPPOSE: Id := 2
  const ABSTAIN: Id := 3

  datatype VoteEvent = VoteEvent(poll: Id, nullifier: Id, option: Id, block: nat)

  datatype PolicyTally = PolicyTally(support: nat, oppose: nat, abstain: nat, total: nat, lastBlock: nat,
                                     finalized: bool)

  const EMPTY_TALLY := PolicyTally(0, 0, 0, 0, 0, false)

  // ---------- the specification: first occurrence per nullifier ----------

  predicate First(es: seq<VoteEvent>, i: nat)
    requires i < |es|
  {
    forall j: nat :: j < i ==> es[j].nullifier != es[i].nullifier
  }

  ghost function FirstVotes(es: seq<VoteEvent>): set<nat> {
    set i: nat | i < |es| && First(es, i)
  }

  ghost function FirstVotesFor(es: seq<VoteEvent>, option: Id): set<nat> {
    set i | i in FirstVotes(es) && es[i].option == option
  }

  ghost predicate IsLastBlock(es: seq<VoteEvent>, block: nat) {
    && (forall i :: i in FirstVotes(es) ==> es[i].block <= block)
    && (block == 0 || exists i :: i in FirstVotes(es) && es[i].block == block)
  }

  ghost predicate Counts(t: PolicyTally, es: seq<VoteEvent>) {
    && t.support == |FirstVotesFor(es, SUPPORT)|
    && t.oppose == |FirstVotesFor(es, OPPOSE)|
    && t.abstain == |FirstVotesFor(es, ABSTAIN)|
    && t.total == |FirstVotes(es)|
    && IsLastBlock(es, t.lastBlock)
  }

  /** Two tallies with the same numbers of votes. */
  predicate SameCounts(t: PolicyTally, u: PolicyTally) {
    t.support == u.support && t.oppose == u.oppose && t.abstain == u.abstain && t.total == u.total
  }

  function Nullifiers(es: seq<VoteEvent>): set<Id> {
    set e | e in es :: e.nullifier
  }

  /** What one more event does to the specification. */
  lemma Extend(es: seq<VoteEvent>, e: VoteEvent)
    ensures var fs := es + [e];
            && FirstVotes(fs) == FirstVotes(es) + (if e.nullifier in Nullifiers(es) then {} else {|es|})
            && Nullifiers(fs) == Nullifiers(es) + {e.nullifier}
  {
    var fs := es + [e];
    assert forall j: nat :: j < |es| ==> fs[j] == es[j];
    if e.nullifier in Nullifiers(es) {
      var f :| f in es && f.nullifier == e.nullifier;
      var j :| 0 <= j < |es| && es[j] == f;
      assert fs[j].nullifier == e.nullifier && !First(fs, |es|);
    } else {
      forall j: nat | j < |es| ensures fs[j].nullifier != e.nullifier {
        assert es[j] in es;
      }
    }
    NullifiersExtend(es, e);
  }

  lemma NullifiersExtend(es: seq<VoteEvent>, e: VoteEvent)
    ensures Nullifiers(es + [e]) == Nullifiers(es) + {e.nullifier}
  {
    var fs := es + [e];
    assert fs[|es|] == e;
    forall n | n in Nullifiers(es) ensures n in Nullifiers(fs) {
      var f :| f in es && f.nullifier == n;
      assert f in fs;
    }
    assert e in fs;
  }

  lemma ExtendFor(es: seq<VoteEvent>, e: VoteEvent, option: Id)
    ensures FirstVotesFor(es + [e], option)
         == FirstVotesFor(es, option) + (if e.nullifier !in Nullifiers(es) && e.option == option then {|es|} else {})
  {
    hide First, FirstVotes, Nullifiers;
    Extend(es, e);
    FirstBelow(es);
    var fs := es + [e];
    assert forall i: nat :: i < |es| ==> fs[i] == es[i];
  }

  lemma FirstBelow(es: seq<VoteEvent>)
    ensures forall i :: i in FirstVotes(es) ==> i < |es|
  {
  }

  // ---------- one event of the loop ----------

  function Field(t: PolicyTally, option: Id): PolicyTally {
    if option == SUPPORT then t.(support := t.support + 1)
    else if option == OPPOSE then t.(oppose := t.oppose + 1)
    else if option == ABSTAIN then t.(abstain := t.abstain + 1)
    else t
  }

  function CountVote(t: PolicyTally, option: Id, block: nat): PolicyTally {
    var u := Field(t, option);
    u.(total := u.total + 1, lastBlock := if block > u.lastBlock then block else u.lastBlock)
  }

  lemma CountStep(t: PolicyTally, es: seq<VoteEvent>, e: VoteEvent)
    requires Counts(t, es)
    ensures Counts(if e.nullifier in Nullifiers(es) then t else CountVote(t, e.option, e.block), es + [e])
  {
    hide First, FirstVotes, FirstVotesFor, Nullifiers, IsLastBlock;
    Extend(es, e);
    FirstBelow(es);
    ForBelow(es);
    ExtendFor(es, e, SUPPORT);
    ExtendFor(es, e, OPPOSE);
    ExtendFor(es, e, ABSTAIN);
    LastBlockStep(es, e, t.lastBlock);
  }

  lemma ForBelow(es: seq<VoteEvent>)
    ensures forall o :: |es| !in FirstVotesFor(es, o)
  {
  }

  lemma LastBlockStep(es: seq<VoteEvent>, e: VoteEvent, block: nat)
    requires IsLastBlock(es, block)
    ensures IsLastBlock(es + [e], if e.nullifier !in Nullifiers(es) && e.block > block then e.block else block)
  {
    hide First, FirstVotes, Nullifiers;
    var fs := es + [e];
    Extend(es, e);
    FirstBelow(es);
    assert forall i: nat :: i < |es| ==> fs[i] == es[i];
    if block != 0 {
      var i :| i in FirstVotes(es) && es[i].block == block;
      assert i in FirstVotes(fs) && fs[i].block == block;
    }
    if e.nullifier !in Nullifiers(es) {
      assert |es| in FirstVotes(fs) && fs[|es|].block == e.block;
    }
  }

  lemma NothingCounted()
    ensures Counts(EMPTY_TALLY, [])
  {
    assert FirstVotes([]) == {};
    assert FirstVotesFor([], SUPPORT) == {} && FirstVotesFor([], OPPOSE) == {} && FirstVotesFor([], ABSTAIN) == {};
  }

  // ---------- TallyService ----------

  const CACHE_TTL_MS := 30_000

  datatype CacheEntry = CacheEntry(tally: PolicyTally, cachedAt: nat)

  function OfPoll(log: seq<VoteEvent>, poll: Id): seq<VoteEvent> {
    if log == [] then [] else
      OfPoll(log[..|log| - 1], poll) + (if log[|log| - 1].poll == poll then [log[|log| - 1]] else [])
  }

  /** The counting loop of getTally. */
  method CountEvents(events: seq<VoteEvent>) returns (tally: PolicyTally)
    ensures Counts(tally, events)
  {
    hide First, FirstVotes, FirstVotesFor, Nullifiers, Counts;
    tally := EMPTY_TALLY;
    var seen: set<Id> := {};
    NothingCounted();
    NothingSeen();
    assert events[..0] == [];
    var i := 0;
    while i < |events|
      invariant 0 <= i <= |events|
      invariant seen == Nullifiers(events[..i]) && Counts(tally, events[..i])
    {
      var e := events[i];
      assert events[..i + 1] == events[..i] + [e];
      CountStep(tally, events[..i], e);
      NullifiersExtend(events[..i], e);
      if e.nullifier !in seen {
        seen := seen + {e.nullifier};
        tally := CountVote(tally, e.option, e.block);
      } else {
        assert seen + {e.nullifier} == seen;
      }
      i := i + 1;
    }
    assert events[..i] == events;
  }

  lemma NothingSeen()
    ensures Nullifiers([]) == {}
  {
  }

  class TallyService {
    var cache: map<Id, CacheEntry>
    /** When the events behind a cache entry were read. */
    ghost var readAt: map<Id, nat>

    /** Every entry is the recount of the log as it was when the entry's events were read. */
    ghost predicate Valid(chain: nat -> seq<VoteEvent>)
      reads this
    {
      && cache.Keys == readAt.Keys
      && forall p :: p in cache ==>
        (readAt[p] <= cache[p].cachedAt && Counts(cache[p].tally, OfPoll(chain(readAt[p]), p)))
    }

    constructor (ghost chain: nat -> seq<VoteEvent>)
      ensures Valid(chain) && cache == map[]
    {
      cache, readAt := map[], map[];
    }

    /**
     getTally. The clock is read at `started`, the events are read at `queried`, and the entry is stamped at
     `finished`. The answer is the recount of the log at some moment `asOf`: now, or the moment the cache entry
     was read, which lies less than the TTL plus that entry's own reading delay in the past.
     */
    method GetTally(poll: Id, started: nat, queried: nat, finished: nat, finalizedSeen: bool,
                    chain: nat -> seq<VoteEvent>)
      returns (tally: PolicyTally, ghost asOf: nat)
      requires Valid(chain) && started <= queried <= finished
      modifies this
      ensures Valid(chain)
      ensures Counts(tally, OfPoll(chain(asOf), poll))
      ensures var hit := poll in old(cache) && started - old(cache)[poll].cachedAt < CACHE_TTL_MS;
              if hit
              then && cache == old(cache) && readAt == old(readAt) && tally == old(cache)[poll].tally
                   && asOf == old(readAt)[poll]
                   && started - asOf < CACHE_TTL_MS + (old(cache)[poll].cachedAt - asOf)
              else && asOf == queried && tally.finalized == finalizedSeen
                   && cache == old(cache)[poll := CacheEntry(tally, finished)] && readAt == old(readAt)[poll := queried]
    {
      if poll in cache && started - cache[poll].cachedAt < CACHE_TTL_MS {
        return cache[poll].tally, readAt[poll];
      }
      tally := CountEvents(OfPoll(chain(queried), poll));
      tally := tally.(finalized := finalizedSeen);
      cache := cache[poll := CacheEntry(tally, finished)];
      readAt := readAt[poll := queried];
      asOf := queried;
    }
  }

  /** getTally started at this moment answers from the cache. */
  predicate Hit(service: TallyService, poll: Id, started: nat)
    reads service
  {
    poll in service.cache && started - service.cache[poll].cachedAt < CACHE_TTL_MS
  }

  /**
   The answers that the service gives from a cache entry are all younger than the TTL exactly if the entry's events
   took no time to read: the entry is stamped when the events have arrived, not when the log was queried.
   */
  lemma CacheAge(service: TallyService, chain: nat -> seq<VoteEvent>, poll: Id)
    requires service.Valid(chain) && poll in service.cache
    ensures (forall started: nat :: Hit(service, poll, started) ==> started - service.readAt[poll] < CACHE_TTL_MS) <==>
            service.cache[poll].cachedAt == service.readAt[poll]
  {
    if service.cache[poll].cachedAt > service.readAt[poll] {
      assert Hit(service, poll, service.cache[poll].cachedAt + CACHE_TTL_MS - 1);
    }
  }

  /**
   Two calls for one poll: the first misses, queries the log and stamps its entry; the second starts within the TTL
   of the stamp. The second answers as of the first query, so at the last moment of the TTL it is 30 seconds old or
   more exactly if the query took any time.
   */
  method AskTwice(service: TallyService, poll: Id, started: nat, queried: nat, stamped: nat, again: nat,
                  finalizedSeen: bool, chain: nat -> seq<VoteEvent>) returns (tally: PolicyTally, ghost age: int)
    requires service.Valid(chain) && started <= queried <= stamped <= again < stamped + CACHE_TTL_MS
    requires !Hit(service, poll, started)
    modifies service
    ensures Counts(tally, OfPoll(chain(queried), poll)) && age == again - queried
    ensures again == stamped + CACHE_TTL_MS - 1 ==> (age >= CACHE_TTL_MS <==> queried < stamped)
  {
    var first, firstAsOf := service.GetTally(poll, started, queried, stamped, finalizedSeen, chain);
    var second, asOf := service.GetTally(poll, again, again, again, finalizedSeen, chain);
    tally, age := second, again - asOf;
  }

  // ---------- the auditor ----------

  /** audit-policy: a tally of all options seen. Its total is the number of events, duplicates included. */
  method AuditPolicy(events: seq<VoteEvent>) returns (tally: map<Id, nat>, total: nat)
    ensures forall o :: Get(tally, o) == |FirstVotesFor(events, o)|
    ensures total == |events|
  {
    hide First, FirstVotes, FirstVotesFor, Nullifiers;
    tally := map[];
    var seen: set<Id> := {};
    NothingCounted();
    NothingSeen();
    NoFirstVotes(events);
    var i := 0;
    while i < |events|
      invariant 0 <= i <= |events|
      invariant seen == Nullifiers(events[..i])
      invariant forall o :: Get(tally, o) == |FirstVotesFor(events[..i], o)|
    {
      var e := events[i];
      assert events[..i + 1] == events[..i] + [e];
      NullifiersExtend(events[..i], e);
      AuditStep(events[..i], e);
      if e.nullifier !in seen {
        seen := seen + {e.nullifier};
        tally := tally[e.option := Get(tally, e.option) + 1];
      } else {
        assert seen + {e.nullifier} == seen;
      }
      i := i + 1;
    }
    assert events[..i] == events;
    total := |events|;
  }

  lemma NoFirstVotes(es: seq<VoteEvent>)
    ensures es[..0] == [] && forall o :: |FirstVotesFor(es[..0], o)| == 0
  {
    forall o ensures |FirstVotesFor(es[..0], o)| == 0 {
      assert FirstVotesFor(es[..0], o) == {};
    }
  }

  lemma AuditStep(es: seq<VoteEvent>, e: VoteEvent)
    ensures forall o :: |FirstVotesFor(es + [e], o)|
                     == |FirstVotesFor(es, o)| + (if e.nullifier !in Nullifiers(es) && e.option == o then 1 else 0)
  {
    hide First, FirstVotes, FirstVotesFor, Nullifiers;
    forall o ensures |FirstVotesFor(es + [e], o)|
                  == |FirstVotesFor(es, o)| + (if e.nullifier !in Nullifiers(es) && e.option == o then 1 else 0) {
      ExtendFor(es, e, o);
      ForBelow(es);
    }
  }
}
