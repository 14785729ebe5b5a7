/** The recounts against each other, against the order of the log, and against the ledger's own counters. */
module RecountAgreement {
  import opened Sequences
  import opened Recount
  import opened Sums
  import L = VoteLedger

  ghost predicate OneVoteEach(es: seq<VoteEvent>) {
    forall i, j :: 0 <= i < j < |es| ==> es[i].nullifier != es[j].nullifier
  }

  // ---------- TallyService and the auditor ----------

  /** The deduplicated total is the number of different nullifiers. */
  lemma {:induction false} TotalIsNullifiers(es: seq<VoteEvent>)
    ensures |FirstVotes(es)| == |Nullifiers(es)|
  {
    hide First, FirstVotes, Nullifiers;
    if es == [] {
      NothingCounted();
      NothingSeen();
    } else {
      var init, e := es[..|es| - 1], es[|es| - 1];
      assert es == init + [e];
      TotalIsNullifiers(init);
      Extend(init, e);
      FirstBelow(init);
    }
  }

  lemma {:induction false} AllFirst(es: seq<VoteEvent>)
    ensures |FirstVotes(es)| <= |es|
    ensures |FirstVotes(es)| == |es| <==> OneVoteEach(es)
  {
    hide First, FirstVotes, Nullifiers;
    if es == [] {
      NothingCounted();
    } else {
      var init, e := es[..|es| - 1], es[|es| - 1];
      assert es == init + [e];
      AllFirst(init);
      Extend(init, e);
      FirstBelow(init);
      LastIsNew(init, e);
    }
  }

  lemma LastIsNew(es: seq<VoteEvent>, e: VoteEvent)
    ensures OneVoteEach(es + [e]) <==> OneVoteEach(es) && e.nullifier !in Nullifiers(es)
  {
    var fs := es + [e];
    if e.nullifier in Nullifiers(es) {
      var f :| f in es && f.nullifier == e.nullifier;
      var j :| 0 <= j < |es| && es[j] == f;
      assert fs[j].nullifier == fs[|es|].nullifier;
    } else {
      forall j | 0 <= j < |es| ensures es[j].nullifier != e.nullifier {
        assert es[j] in es;
      }
    }
    if !OneVoteEach(es) {
      var i, j :| 0 <= i < j < |es| && es[i].nullifier == es[j].nullifier;
      assert fs[i].nullifier == fs[j].nullifier;
    }
  }

  /**
   Service and auditor agree on every known option, whatever the log. Their totals agree exactly when no
   nullifier occurs twice: the auditor prints the number of events as the total.
   */
  lemma AuditorAgrees(es: seq<VoteEvent>, t: PolicyTally, audit: map<Id, nat>, auditTotal: nat)
    requires Counts(t, es)
    requires forall o :: Get(audit, o) == |FirstVotesFor(es, o)|
    requires auditTotal == |es|
    ensures t.support == Get(audit, SUPPORT) && t.oppose == Get(audit, OPPOSE) && t.abstain == Get(audit, ABSTAIN)
    ensures t.total <= auditTotal
    ensures t.total == auditTotal <==> OneVoteEach(es)
  {
    hide First, FirstVotes, FirstVotesFor, OneVoteEach;
    AllFirst(es);
  }

  // ---------- order ----------

  function Occurrences(es: seq<VoteEvent>, option: Id): nat {
    if es == [] then 0 else Occurrences(es[..|es| - 1], option) + (if es[|es| - 1].option == option then 1 else 0)
  }

  /** Without repeated nullifiers, every occurrence of an option counts. */
  lemma {:induction false} AllOccurrencesCount(es: seq<VoteEvent>, option: Id)
    requires OneVoteEach(es)
    ensures |FirstVotesFor(es, option)| == Occurrences(es, option)
  {
    hide First, FirstVotes, FirstVotesFor, Nullifiers;
    if es == [] {
      NoFirstVotes(es);
      assert es[..0] == es;
    } else {
      var init, e := es[..|es| - 1], es[|es| - 1];
      assert es == init + [e];
      AllOccurrencesCount(init, option);
      LastIsNew(init, e);
      ExtendFor(init, e, option);
      ForBelow(init);
    }
  }

  lemma {:induction false} OccurrencesRemove(es: seq<VoteEvent>, i: nat, option: Id)
    requires i < |es|
    ensures Occurrences(es, option) == Occurrences(RemoveAt(es, i), option) + (if es[i].option == option then 1 else 0)
  {
    var n := |es| - 1;
    var rest := RemoveAt(es, i);
    if i == n {
      assert rest == es[..n];
    } else {
      OccurrencesRemove(es[..n], i, option);
      assert rest[..n - 1] == RemoveAt(es[..n], i) && rest[n - 1] == es[n];
    }
  }

  lemma {:induction false} OccurrencesPermute(es: seq<VoteEvent>, fs: seq<VoteEvent>, option: Id)
    requires multiset(es) == multiset(fs)
    ensures Occurrences(es, option) == Occurrences(fs, option)
    decreases |es|
  {
    if es == [] {
      PermutationEmpty(fs);
    } else {
      var i := MatchLast(es, fs);
      OccurrencesRemove(fs, i, option);
      OccurrencesPermute(es[..|es| - 1], RemoveAt(fs, i), option);
    }
  }

  lemma OneVoteEachPermutes(es: seq<VoteEvent>, fs: seq<VoteEvent>)
    requires multiset(es) == multiset(fs)
    ensures OneVoteEach(es) <==> OneVoteEach(fs)
  {
    hide First, FirstVotes, Nullifiers, OneVoteEach;
    AllFirst(es);
    AllFirst(fs);
    TotalIsNullifiers(es);
    TotalIsNullifiers(fs);
    SameNullifiers(es, fs);
    assert |es| == |multiset(es)| && |fs| == |multiset(fs)|;
  }

  lemma SameNullifiers(es: seq<VoteEvent>, fs: seq<VoteEvent>)
    requires multiset(es) == multiset(fs)
    ensures Nullifiers(es) == Nullifiers(fs)
  {
    assert forall e :: e in es <==> e in multiset(es);
    assert forall e :: e in fs <==> e in multiset(fs);
  }

  /** On a log without repeated nullifiers the order of the events does not matter. */
  lemma RecountPermutes(es: seq<VoteEvent>, fs: seq<VoteEvent>, t: PolicyTally, u: PolicyTally)
    requires multiset(es) == multiset(fs) && OneVoteEach(es) && Counts(t, es) && Counts(u, fs)
    ensures SameCounts(t, u)
  {
    hide First, FirstVotes, FirstVotesFor, Nullifiers, OneVoteEach, Occurrences;
    OneVoteEachPermutes(es, fs);
    AllOccurrencesCount(es, SUPPORT);
    AllOccurrencesCount(fs, SUPPORT);
    OccurrencesPermute(es, fs, SUPPORT);
    AllOccurrencesCount(es, OPPOSE);
    AllOccurrencesCount(fs, OPPOSE);
    OccurrencesPermute(es, fs, OPPOSE);
    AllOccurrencesCount(es, ABSTAIN);
    AllOccurrencesCount(fs, ABSTAIN);
    OccurrencesPermute(es, fs, ABSTAIN);
    TotalIsNullifiers(es);
    TotalIsNullifiers(fs);
    SameNullifiers(es, fs);
  }

  // ---------- the ledger ----------

  /** The log as the recounts read it; the block of each event is immaterial to the counts. */
  function Published(log: seq<L.VoteCast>, blocks: seq<nat>): seq<VoteEvent>
    requires |blocks| == |log|
  {
    seq(|log|, i requires 0 <= i < |log| => VoteEvent(log[i].poll, log[i].nullifier, log[i].option, blocks[i]))
  }

  lemma {:induction false} PollEventsAreDistinct(log: seq<L.VoteCast>, blocks: seq<nat>, poll: Id)
    requires |blocks| == |log|
    requires forall i, j :: 0 <= i < j < |log| ==> log[i].nullifier != log[j].nullifier
    ensures OneVoteEach(OfPoll(Published(log, blocks), poll))
    ensures forall e :: e in OfPoll(Published(log, blocks), poll) ==>
      exists i :: 0 <= i < |log| && log[i].nullifier == e.nullifier
  {
    if log != [] {
      var n := |log| - 1;
      PollEventsAreDistinct(log[..n], blocks[..n], poll);
      assert Published(log, blocks)[..n] == Published(log[..n], blocks[..n]);
      var before := OfPoll(Published(log[..n], blocks[..n]), poll);
      forall e | e in before ensures exists i :: 0 <= i < |log| && log[i].nullifier == e.nullifier && i < n {
        var i :| 0 <= i < |log[..n]| && log[..n][i].nullifier == e.nullifier;
        assert log[i].nullifier == e.nullifier;
      }
      assert log[n].nullifier == log[n].nullifier;
    }
  }

  lemma {:induction false} PollOccurrences(log: seq<L.VoteCast>, blocks: seq<nat>, poll: Id, option: Id)
    requires |blocks| == |log|
    ensures Occurrences(OfPoll(Published(log, blocks), poll), option) == L.VotesFor(log, poll, option)
    ensures |OfPoll(Published(log, blocks), poll)| == L.Votes(log, poll)
  {
    if log != [] {
      var n := |log| - 1;
      PollOccurrences(log[..n], blocks[..n], poll, option);
      assert Published(log, blocks)[..n] == Published(log[..n], blocks[..n]);
      var before, all := OfPoll(Published(log[..n], blocks[..n]), poll), OfPoll(Published(log, blocks), poll);
      if log[n].poll == poll {
        assert all[..|all| - 1] == before;
      } else {
        assert all == before;
      }
    }
  }

  /** On the log of any ledger run, the recount of a poll is what the ledger itself holds. */
  lemma RecountMatchesLedger(keccak: L.Keccak, es: seq<L.Event>, blocks: seq<nat>, poll: Id, t: PolicyTally)
    requires |blocks| == |L.Run(keccak, es).log|
    requires Counts(t, OfPoll(Published(L.Run(keccak, es).log, blocks), poll))
    ensures var s := L.Run(keccak, es);
            && t.support == s.Tally(poll, SUPPORT) && t.oppose == s.Tally(poll, OPPOSE)
            && t.abstain == s.Tally(poll, ABSTAIN)
            && t.total == s.PollAt(poll).totalVotes
            && OneVoteEach(OfPoll(Published(s.log, blocks), poll))
  {
    hide First, FirstVotes, FirstVotesFor, Nullifiers, OneVoteEach, Occurrences, L.Run, Published, OfPoll;
    L.RunConserves(keccak, es);
    var s := L.Run(keccak, es);
    var events := OfPoll(Published(s.log, blocks), poll);
    assert forall i, j :: 0 <= i < j < |s.log| ==> s.log[i].nullifier != s.log[j].nullifier;
    PollEventsAreDistinct(s.log, blocks, poll);
    AllFirst(events);
    LedgerOption(s, blocks, poll, SUPPORT);
    LedgerOption(s, blocks, poll, OPPOSE);
    LedgerOption(s, blocks, poll, ABSTAIN);
  }

  lemma LedgerOption(s: L.State, blocks: seq<nat>, poll: Id, option: Id)
    requires |blocks| == |s.log| && L.LogCounts(s) && OneVoteEach(OfPoll(Published(s.log, blocks), poll))
    ensures |FirstVotesFor(OfPoll(Published(s.log, blocks), poll), option)| == s.Tally(poll, option)
    ensures |OfPoll(Published(s.log, blocks), poll)| == s.PollAt(poll).totalVotes
  {
    hide FirstVotesFor, OneVoteEach, Occurrences, Published, OfPoll;
    AllOccurrencesCount(OfPoll(Published(s.log, blocks), poll), option);
    PollOccurrences(s.log, blocks, poll, option);
  }
}
