/** backend/src/services/LiveTallyService.ts: tallies kept up to date from a stream of VoteCast events. */
module LiveTally {
  import opened Recount
  import opened RecountAgreement

  type PolicyId = string

  datatype State = State(tallies: map<PolicyId, PolicyTally>, hashToId: map<Id, PolicyId>, lastSeenBlock: nat) {
    predicate Tracks(hash: Id, policy: PolicyId) {
      hash in hashToId && hashToId[hash] == policy && policy in tallies && policy != ""
    }
  }

  // ---------- what one call does ----------

  function Track(hash: Id, s: State, policy: PolicyId): State {
    s.(hashToId := s.hashToId[hash := policy],
       tallies := if policy in s.tallies then s.tallies else s.tallies[policy := EMPTY_TALLY])
  }

  /** applyVoteCast: count the event if its policy is tracked; an empty name counts as none. */
  function Count(s: State, e: VoteEvent): State {
    if e.poll in s.hashToId && s.hashToId[e.poll] != "" && s.hashToId[e.poll] in s.tallies then
      var policy := s.hashToId[e.poll];
      s.(tallies := s.tallies[policy := CountVote(s.tallies[policy], e.option, e.block)])
    else s
  }

  /** onVoteCast: drop the event unless its block is new. */
  function Deliver(s: State, e: VoteEvent): State {
    if e.block <= s.lastSeenBlock then s else Count(s.(lastSeenBlock := e.block), e)
  }

  function Finalize(s: State, hash: Id): State {
    if hash in s.hashToId && s.hashToId[hash] != "" && s.hashToId[hash] in s.tallies then
      var policy := s.hashToId[hash];
      s.(tallies := s.tallies[policy := s.tallies[policy].(finalized := true)])
    else s
  }

  function CountAll(s: State, es: seq<VoteEvent>): State {
    if es == [] then s else Count(CountAll(s, es[..|es| - 1]), es[|es| - 1])
  }

  function DeliverAll(s: State, es: seq<VoteEvent>): State {
    if es == [] then s else Deliver(DeliverAll(s, es[..|es| - 1]), es[|es| - 1])
  }

  /** start: catch up on the past events, which does not move lastSeenBlock beyond fromBlock. */
  function Start(s: State, fromBlock: nat, past: seq<VoteEvent>): State {
    var t := s.(lastSeenBlock := fromBlock);
    if fromBlock > 0 then CountAll(t, past) else t
  }

  class LiveTallyService {
    var tallies: map<PolicyId, PolicyTally>
    var hashToId: map<Id, PolicyId>
    var lastSeenBlock: nat

    function Fields(): State
      reads this
    {
      State(tallies, hashToId, lastSeenBlock)
    }

    constructor ()
      ensures Fields() == State(map[], map[], 0)
    {
      tallies, hashToId, lastSeenBlock := map[], map[], 0;
    }

    method TrackPolicy(hash: Id, policy: PolicyId)
      modifies this
      ensures Fields() == Track(hash, old(Fields()), policy)
    {
      hashToId := hashToId[hash := policy];
      if policy !in tallies {
        tallies := tallies[policy := EMPTY_TALLY];
      }
    }

    method StartFrom(fromBlock: nat, past: seq<VoteEvent>)
      modifies this
      ensures Fields() == Start(old(Fields()), fromBlock, past)
    {
      lastSeenBlock := fromBlock;
      if fromBlock > 0 {
        CatchUp(past);
      }
    }

    method CatchUp(events: seq<VoteEvent>)
      modifies this
      ensures Fields() == CountAll(old(Fields()), events)
    {
      var i := 0;
      while i < |events|
        invariant 0 <= i <= |events|
        invariant Fields() == CountAll(old(Fields()), events[..i])
      {
        assert events[..i + 1][..i] == events[..i];
        ApplyVoteCast(events[i]);
        i := i + 1;
      }
      assert events[..i] == events;
    }

    method ApplyVoteCast(e: VoteEvent)
      modifies this
      ensures Fields() == Count(old(Fields()), e)
    {
      if e.poll !in hashToId || hashToId[e.poll] == "" { return; }
      var policy := hashToId[e.poll];
      if policy !in tallies { return; }
      var tally := Field(tallies[policy], e.option);
      tally := tally.(total := tally.total + 1);
      if e.block > tally.lastBlock {
        tally := tally.(lastBlock := e.block);
      }
      tallies := tallies[policy := tally];
    }

    method OnVoteCast(e: VoteEvent)
      modifies this
      ensures Fields() == Deliver(old(Fields()), e)
    {
      if e.block <= lastSeenBlock { return; }
      lastSeenBlock := e.block;
      ApplyVoteCast(e);
    }

    method OnPolicyFinalized(hash: Id)
      modifies this
      ensures Fields() == Finalize(old(Fields()), hash)
    {
      if hash !in hashToId || hashToId[hash] == "" { return; }
      var policy := hashToId[hash];
      if policy !in tallies { return; }
      tallies := tallies[policy := tallies[policy].(finalized := true)];
    }
  }

  // ---------- which events count ----------

  /** The highest block delivered so far. */
  function MaxBlock(es: seq<VoteEvent>, last: nat): nat {
    if es == [] then last else
      var m := MaxBlock(es[..|es| - 1], last);
      if es[|es| - 1].block > m then es[|es| - 1].block else m
  }

  /** The events whose block exceeds every block delivered before them. */
  function RecordHighs(es: seq<VoteEvent>, last: nat): seq<VoteEvent> {
    if es == [] then [] else
      var n := |es| - 1;
      RecordHighs(es[..n], last) + (if es[n].block > MaxBlock(es[..n], last) then [es[n]] else [])
  }

  /** Each hash belongs to one policy and the other way round, as TrackPolicy sets them. */
  ghost predicate HashesMatch(s: State) {
    forall h, k :: h in s.hashToId && k in s.hashToId && s.hashToId[h] == s.hashToId[k] ==> h == k
  }

  /** t is u with the votes of es added. */
  predicate Adds(t: PolicyTally, u: PolicyTally, es: seq<VoteEvent>) {
    && t.support == u.support + Occurrences(es, SUPPORT)
    && t.oppose == u.oppose + Occurrences(es, OPPOSE)
    && t.abstain == u.abstain + Occurrences(es, ABSTAIN)
    && t.total == u.total + |es|
    && t.lastBlock == MaxBlock(es, u.lastBlock)
    && t.finalized == u.finalized
  }

  lemma {:induction false} OfPollConcat(es: seq<VoteEvent>, e: VoteEvent, poll: Id)
    ensures OfPoll(es + [e], poll) == OfPoll(es, poll) + (if e.poll == poll then [e] else [])
  {
    assert (es + [e])[..|es|] == es;
  }

  lemma AddOne(t: PolicyTally, u: PolicyTally, es: seq<VoteEvent>, e: VoteEvent)
    requires Adds(t, u, es)
    ensures Adds(CountVote(t, e.option, e.block), u, es + [e])
  {
    assert (es + [e])[..|es|] == es;
  }

  lemma CountAdds(s: State, s': State, e: VoteEvent, es: seq<VoteEvent>, hash: Id, policy: PolicyId)
    requires HashesMatch(s) && s.Tracks(hash, policy) && s'.hashToId == s.hashToId && policy in s'.tallies
    requires Adds(s'.tallies[policy], s.tallies[policy], OfPoll(es, hash))
    ensures var t := Count(s', e);
            t.hashToId == s.hashToId && policy in t.tallies && t.lastSeenBlock == s'.lastSeenBlock
            && Adds(t.tallies[policy], s.tallies[policy], OfPoll(es + [e], hash))
  {
    hide Adds, CountVote, OfPoll;
    OfPollConcat(es, e, hash);
    if e.poll == hash {
      AddOne(s'.tallies[policy], s.tallies[policy], OfPoll(es, hash), e);
    } else {
      assert OfPoll(es, hash) + [] == OfPoll(es, hash);
    }
  }

  /**
   On any stream of events, the snapshot of a tracked policy has gained exactly the events whose block exceeds
   every block delivered before, of whatever policy.
   */
  lemma {:induction false} LiveCharacterised(s: State, es: seq<VoteEvent>, hash: Id, policy: PolicyId)
    requires HashesMatch(s) && s.Tracks(hash, policy)
    ensures var s' := DeliverAll(s, es);
            && s'.lastSeenBlock == MaxBlock(es, s.lastSeenBlock) && s'.hashToId == s.hashToId && policy in s'.tallies
            && Adds(s'.tallies[policy], s.tallies[policy], OfPoll(RecordHighs(es, s.lastSeenBlock), hash))
  {
    if es != [] {
      hide Adds, Count, OfPoll;
      var n, last := |es| - 1, s.lastSeenBlock;
      LiveCharacterised(s, es[..n], hash, policy);
      var t := DeliverAll(s, es[..n]);
      if es[n].block > t.lastSeenBlock {
        CountAdds(s, t.(lastSeenBlock := es[n].block), es[n], RecordHighs(es[..n], last), hash, policy);
      } else {
        assert RecordHighs(es, last) == RecordHighs(es[..n], last);
      }
    } else {
      assert OfPoll(RecordHighs(es, s.lastSeenBlock), hash) == [];
    }
  }

  /** Events delivered again change nothing. */
  lemma {:induction false} RedeliveryIgnored(s: State, es: seq<VoteEvent>, again: seq<VoteEvent>)
    requires forall e :: e in again ==> e in es
    ensures DeliverAll(s, es + again) == DeliverAll(s, es)
    decreases |again|
  {
    if again == [] {
      assert es + again == es;
    } else {
      var n := |again| - 1;
      RedeliveryIgnored(s, es, again[..n]);
      assert (es + again)[..|es| + n] == es + again[..n];
      assert again[n] in es;
      DeliveredBlocks(s, es, again[n]);
    }
  }

  lemma {:induction false} DeliveredBlocks(s: State, es: seq<VoteEvent>, e: VoteEvent)
    requires e in es
    ensures e.block <= DeliverAll(s, es).lastSeenBlock
  {
    var n := |es| - 1;
    if e in es[..n] {
      DeliveredBlocks(s, es[..n], e);
    }
  }

  /** Every event of the policy has a later block than all events delivered before it, of whatever policy. */
  ghost predicate InNewBlocks(es: seq<VoteEvent>, hash: Id, last: nat) {
    && (forall i :: 0 <= i < |es| && es[i].poll == hash ==> last < es[i].block)
    && (forall i, j :: 0 <= j < i < |es| && es[i].poll == hash ==> es[j].block < es[i].block)
  }

  lemma {:induction false} AboveAll(es: seq<VoteEvent>, last: nat, block: nat)
    ensures block > MaxBlock(es, last) <==> block > last && forall j :: 0 <= j < |es| ==> block > es[j].block
  {
    if es != [] {
      var n := |es| - 1;
      AboveAll(es[..n], last, block);
      assert forall j :: 0 <= j < n ==> es[..n][j] == es[j];
    }
  }

  lemma InNewBlocksStep(es: seq<VoteEvent>, e: VoteEvent, hash: Id, last: nat)
    ensures InNewBlocks(es + [e], hash, last) <==>
      InNewBlocks(es, hash, last) && (e.poll == hash ==> e.block > MaxBlock(es, last))
  {
    AboveAll(es, last, e.block);
    var fs := es + [e];
    assert forall i :: 0 <= i < |es| ==> fs[i] == es[i];
    assert fs[|es|] == e;
  }

  /** The guard keeps at most the events of the policy, and all of them exactly if they are in new blocks. */
  lemma {:induction false} KeptExactly(es: seq<VoteEvent>, hash: Id, last: nat)
    ensures |OfPoll(RecordHighs(es, last), hash)| <= |OfPoll(es, hash)|
    ensures |OfPoll(RecordHighs(es, last), hash)| == |OfPoll(es, hash)| <==> InNewBlocks(es, hash, last)
    ensures InNewBlocks(es, hash, last) ==> OfPoll(RecordHighs(es, last), hash) == OfPoll(es, hash)
  {
    if es == [] {
    } else {
      hide OfPoll, InNewBlocks, MaxBlock;
      var n := |es| - 1;
      var highs := RecordHighs(es[..n], last);
      KeptExactly(es[..n], hash, last);
      InNewBlocksStep(es[..n], es[n], hash, last);
      OfPollConcat(es[..n], es[n], hash);
      OfPollConcat(highs, es[n], hash);
      assert es == es[..n] + [es[n]] && highs + [] == highs;
    }
  }

  /** A policy that a fresh service tracks and that has no votes yet. */
  ghost predicate FreshlyTracked(s: State, hash: Id, policy: PolicyId) {
    HashesMatch(s) && s.Tracks(hash, policy) && s.tallies[policy] == EMPTY_TALLY && s.lastSeenBlock == 0
  }

  /**
   From a fresh start, without repeated nullifiers in the policy, the live total is at most the recounted one, and
   the two tallies agree exactly if every event of the policy came in a later block than all events before it.
   */
  lemma LiveMatchesRecount(s: State, es: seq<VoteEvent>, hash: Id, policy: PolicyId, t: PolicyTally)
    requires FreshlyTracked(s, hash, policy) && OneVoteEach(OfPoll(es, hash)) && Counts(t, OfPoll(es, hash))
    ensures var live := DeliverAll(s, es).tallies;
      && policy in live && live[policy].total <= t.total
      && (live[policy].total == t.total <==> InNewBlocks(es, hash, 0))
      && (SameCounts(live[policy], t) <==> InNewBlocks(es, hash, 0))
  {
    hide First, FirstVotes, FirstVotesFor, OneVoteEach, Occurrences, DeliverAll, OfPoll, InNewBlocks;
    LiveCharacterised(s, es, hash, policy);
    KeptExactly(es, hash, 0);
    var events := OfPoll(es, hash);
    AllFirst(events);
    AllOccurrencesCount(events, SUPPORT);
    AllOccurrencesCount(events, OPPOSE);
    AllOccurrencesCount(events, ABSTAIN);
  }

  /** Two votes in one block: the second is dropped. */
  lemma SameBlockDropped(s: State, e: VoteEvent, f: VoteEvent)
    requires f.block == e.block
    ensures DeliverAll(s, [e, f]) == DeliverAll(s, [e])
  {
    assert [e, f][..1] == [e];
    DeliveredBlocks(s, [e], e);
  }

  // ---------- catching up ----------

  lemma {:induction false} CatchUpAdds(s: State, es: seq<VoteEvent>, hash: Id, policy: PolicyId)
    requires HashesMatch(s) && s.Tracks(hash, policy)
    ensures var t := CountAll(s, es);
            && t.hashToId == s.hashToId && policy in t.tallies && t.lastSeenBlock == s.lastSeenBlock
            && Adds(t.tallies[policy], s.tallies[policy], OfPoll(es, hash))
  {
    if es != [] {
      hide Adds, Count, OfPoll;
      var n := |es| - 1;
      CatchUpAdds(s, es[..n], hash, policy);
      CountAdds(s, CountAll(s, es[..n]), es[n], es[..n], hash, policy);
      assert es == es[..n] + [es[n]];
    }
  }

  /** Votes of two logs, one after the other. */
  lemma {:induction false} OccurrencesConcat(a: seq<VoteEvent>, b: seq<VoteEvent>, option: Id)
    ensures Occurrences(a + b, option) == Occurrences(a, option) + Occurrences(b, option)
    decreases |b|
  {
    if b == [] {
      assert a + b == a;
    } else {
      OccurrencesConcat(a, b[..|b| - 1], option);
      assert (a + b)[..|a + b| - 1] == a + b[..|b| - 1];
    }
  }

  lemma {:induction false} MaxBlockConcat(a: seq<VoteEvent>, b: seq<VoteEvent>, last: nat)
    ensures MaxBlock(a + b, last) == MaxBlock(b, MaxBlock(a, last))
    decreases |b|
  {
    if b == [] {
      assert a + b == a;
    } else {
      MaxBlockConcat(a, b[..|b| - 1], last);
      assert (a + b)[..|a + b| - 1] == a + b[..|b| - 1];
    }
  }

  /** Two gains, one after the other. */
  lemma AddsConcat(t: PolicyTally, u: PolicyTally, w: PolicyTally, a: seq<VoteEvent>, b: seq<VoteEvent>)
    requires Adds(u, t, a) && Adds(w, u, b)
    ensures Adds(w, t, a + b)
  {
    hide Occurrences, MaxBlock;
    OccurrencesConcat(a, b, SUPPORT);
    OccurrencesConcat(a, b, OPPOSE);
    OccurrencesConcat(a, b, ABSTAIN);
    MaxBlockConcat(a, b, t.lastBlock);
  }

  lemma {:induction false} OfPollSplits(a: seq<VoteEvent>, b: seq<VoteEvent>, poll: Id)
    ensures OfPoll(a + b, poll) == OfPoll(a, poll) + OfPoll(b, poll)
    decreases |b|
  {
    hide OfPoll;
    if b == [] {
      assert a + b == a;
      NoEvents(poll);
    } else {
      var init, e := b[..|b| - 1], b[|b| - 1];
      OfPollSplits(a, init, poll);
      OfPollConcat(a + init, e, poll);
      OfPollConcat(init, e, poll);
      assert a + b == (a + init) + [e] && b == init + [e];
    }
  }

  lemma NoEvents(poll: Id)
    ensures OfPoll([], poll) == []
  {
  }

  /** Starting from a block and then streaming: the catch-up counts all past events, the guard filters the rest. */
  lemma StartThenStream(s: State, fromBlock: nat, past: seq<VoteEvent>, es: seq<VoteEvent>, hash: Id, policy: PolicyId)
    requires HashesMatch(s) && s.Tracks(hash, policy) && fromBlock > 0
    ensures var t := DeliverAll(Start(s, fromBlock, past), es);
      && policy in t.tallies
      && Adds(t.tallies[policy], s.tallies[policy], OfPoll(past, hash) + OfPoll(RecordHighs(es, fromBlock), hash))
  {
    hide Adds, DeliverAll, CountAll, OfPoll, RecordHighs, MaxBlock;
    var u := CountAll(s.(lastSeenBlock := fromBlock), past);
    CatchUpAdds(s.(lastSeenBlock := fromBlock), past, hash, policy);
    LiveCharacterised(u, es, hash, policy);
    AddsConcat(s.tallies[policy], u.tallies[policy], DeliverAll(u, es).tallies[policy], OfPoll(past, hash),
               OfPoll(RecordHighs(es, fromBlock), hash));
  }

  /**
   From a fresh start at a block: `older` lies before the block, the catch-up reads `past`, the stream delivers the
   rest of the log. Without repeated nullifiers in the policy the live total is at most the recounted one, and the
   two tallies agree exactly if the policy has no older events and each of its streamed events has a later block than
   the starting one and than all streamed before it.
   */
  lemma CaughtUpMatchesRecount(s: State, fromBlock: nat, older: seq<VoteEvent>, past: seq<VoteEvent>,
                               es: seq<VoteEvent>, hash: Id, policy: PolicyId, t: PolicyTally)
    requires FreshlyTracked(s, hash, policy) && fromBlock > 0
    requires OneVoteEach(OfPoll(older + past + es, hash)) && Counts(t, OfPoll(older + past + es, hash))
    ensures var live := DeliverAll(Start(s, fromBlock, past), es).tallies;
      && policy in live && live[policy].total <= t.total
      && (live[policy].total == t.total <==> OfPoll(older, hash) == [] && InNewBlocks(es, hash, fromBlock))
      && (SameCounts(live[policy], t) <==> OfPoll(older, hash) == [] && InNewBlocks(es, hash, fromBlock))
  {
    hide First, FirstVotes, FirstVotesFor, OneVoteEach, Occurrences, DeliverAll, OfPoll, InNewBlocks, Start,
         RecordHighs;
    StartThenStream(s, fromBlock, past, es, hash, policy);
    KeptExactly(es, hash, fromBlock);
    OfPollSplits(older + past, es, hash);
    OfPollSplits(older, past, hash);
    var events := OfPoll(older + past + es, hash);
    AllFirst(events);
    AllOccurrencesCount(events, SUPPORT);
    AllOccurrencesCount(events, OPPOSE);
    AllOccurrencesCount(events, ABSTAIN);
    assert [] + OfPoll(past, hash) == OfPoll(past, hash);
  }

  /**
   Restarting in process: the catch-up adds every past event of the policy to what has already been counted, so
   the total stays right exactly if none of the replayed events belongs to the policy.
   */
  lemma RestartCounts(s: State, es: seq<VoteEvent>, fromBlock: nat, past: seq<VoteEvent>, hash: Id, policy: PolicyId)
    requires HashesMatch(s) && s.Tracks(hash, policy) && fromBlock > 0
    ensures var before, after := DeliverAll(s, es).tallies, Start(DeliverAll(s, es), fromBlock, past).tallies;
      && policy in before && policy in after
      && Adds(after[policy], before[policy], OfPoll(past, hash))
      && (after[policy].total == before[policy].total <==> OfPoll(past, hash) == [])
  {
    hide Occurrences, DeliverAll, CountAll, OfPoll, RecordHighs;
    LiveCharacterised(s, es, hash, policy);
    CatchUpAdds(DeliverAll(s, es).(lastSeenBlock := fromBlock), past, hash, policy);
  }

  // ---------- reachable states ----------

  /** What the outside world makes of the service; ethers.id hashes policy names. */
  datatype Call =
    | CallTrack(policy: PolicyId)
    | CallStart(fromBlock: nat, past: seq<VoteEvent>)
    | CallVote(event: VoteEvent)
    | CallFinalized(hash: Id)

  function Apply(id: PolicyId -> Id, s: State, call: Call): State {
    match call
    case CallTrack(policy) => Track(id(policy), s, policy)
    case CallStart(fromBlock, past) => Start(s, fromBlock, past)
    case CallVote(event) => Deliver(s, event)
    case CallFinalized(hash) => Finalize(s, hash)
  }

  function Run(id: PolicyId -> Id, calls: seq<Call>): State {
    if calls == [] then State(map[], map[], 0) else Apply(id, Run(id, calls[..|calls| - 1]), calls[|calls| - 1])
  }

  /** Hashes lead to policies that have them, and every such policy has a tally. */
  ghost predicate Mapped(id: PolicyId -> Id, s: State) {
    forall h :: h in s.hashToId ==> id(s.hashToId[h]) == h && s.hashToId[h] in s.tallies
  }

  lemma {:induction false} CountAllKeepsMapped(id: PolicyId -> Id, s: State, es: seq<VoteEvent>)
    requires Mapped(id, s)
    ensures Mapped(id, CountAll(s, es)) && CountAll(s, es).hashToId == s.hashToId
  {
    if es != [] {
      CountAllKeepsMapped(id, s, es[..|es| - 1]);
      hide CountVote;
    }
  }

  lemma StepKeepsMapped(id: PolicyId -> Id, s: State, call: Call)
    requires Mapped(id, s)
    ensures Mapped(id, Apply(id, s, call))
    ensures !call.CallTrack? ==> Apply(id, s, call).hashToId == s.hashToId
  {
    hide CountVote, CountAll;
    if call.CallStart? {
      CountAllKeepsMapped(id, s.(lastSeenBlock := call.fromBlock), call.past);
    }
  }

  /**
   In every state that calls can lead to, no two hashes lead to one policy, and if policy names do not collide
   each policy that was tracked, unless its name is empty, is found under its own hash.
   */
  lemma {:induction false} RunTracks(id: PolicyId -> Id, calls: seq<Call>)
    ensures Mapped(id, Run(id, calls)) && HashesMatch(Run(id, calls))
    ensures (forall p, q :: id(p) == id(q) ==> p == q) ==>
      forall c :: c in calls && c.CallTrack? && c.policy != "" ==> Run(id, calls).Tracks(id(c.policy), c.policy)
  {
    if calls != [] {
      var init, last := calls[..|calls| - 1], calls[|calls| - 1];
      RunTracks(id, init);
      StepKeepsMapped(id, Run(id, init), last);
      if forall p, q :: id(p) == id(q) ==> p == q {
        forall c | c in calls && c.CallTrack? && c.policy != "" ensures Run(id, calls).Tracks(id(c.policy), c.policy) {
          if c in init { StaysTracked(id, Run(id, init), last, c.policy); } else { assert c == last; }
        }
      }
    }
  }

  lemma StaysTracked(id: PolicyId -> Id, s: State, call: Call, policy: PolicyId)
    requires Mapped(id, s) && s.Tracks(id(policy), policy)
    requires call.CallTrack? && id(call.policy) == id(policy) ==> call.policy == policy
    ensures Apply(id, s, call).Tracks(id(policy), policy)
  {
    StepKeepsMapped(id, s, call);
    hide CountVote, CountAll;
  }
}
