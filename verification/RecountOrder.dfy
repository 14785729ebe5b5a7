/**
 When the order of a log matters to a recount. TallyService watches the three known options, the auditor every
 option; both count the first event of each nullifier.
 */
module RecountOrder {
  import opened Sequences
  import opened Recount
  import opened RecountAgreement

  ghost const KNOWN: iset<Id> := iset{SUPPORT, OPPOSE, ABSTAIN}
  ghost const ANY: iset<Id> := iset o: Id | true

  /** All permutations of the log give every watched option the same count. */
  ghost predicate OrderIrrelevant(es: seq<VoteEvent>, watched: iset<Id>) {
    forall fs: seq<VoteEvent>, o :: multiset(fs) == multiset(es) && o in watched ==>
      |FirstVotesFor(fs, o)| == |FirstVotesFor(es, o)|
  }

  /** Events that share a nullifier name the same watched option, or no watched option at all. */
  ghost predicate RepeatsAgree(es: seq<VoteEvent>, watched: iset<Id>) {
    forall e, f :: e in es && f in es && e.nullifier == f.nullifier && e.option in watched ==> f.option == e.option
  }

  // ---------- agreeing repeats ----------

  ghost function NullifiersFor(es: seq<VoteEvent>, option: Id): set<Id> {
    set e | e in es && e.option == option :: e.nullifier
  }

  lemma NullifiersForExtend(es: seq<VoteEvent>, e: VoteEvent, watched: iset<Id>, option: Id)
    requires RepeatsAgree(es + [e], watched) && option in watched
    ensures RepeatsAgree(es, watched)
    ensures NullifiersFor(es + [e], option) ==
      NullifiersFor(es, option) + (if e.nullifier !in Nullifiers(es) && e.option == option then {e.nullifier} else {})
    ensures e.nullifier !in Nullifiers(es) ==> e.nullifier !in NullifiersFor(es, option)
  {
    var fs := es + [e];
    assert e in fs && forall f :: f in es ==> f in fs;
    if e.nullifier in Nullifiers(es) && e.option == option {
      var f :| f in es && f.nullifier == e.nullifier;
      assert f.option == option;
    }
    forall n | n in NullifiersFor(es, option) ensures n in NullifiersFor(fs, option) {
      var f :| f in es && f.option == option && f.nullifier == n;
      assert f in fs;
    }
  }

  /** Where repeats agree, a watched option is counted once for every nullifier that names it. */
  lemma {:induction false} CountsNullifiers(es: seq<VoteEvent>, watched: iset<Id>, option: Id)
    requires RepeatsAgree(es, watched) && option in watched
    ensures |FirstVotesFor(es, option)| == |NullifiersFor(es, option)|
  {
    hide First, FirstVotes, FirstVotesFor, Nullifiers, NullifiersFor, RepeatsAgree;
    if es == [] {
      NothingFor(option);
    } else {
      var init, e := es[..|es| - 1], es[|es| - 1];
      assert es == init + [e];
      NullifiersForExtend(init, e, watched, option);
      CountsNullifiers(init, watched, option);
      ExtendFor(init, e, option);
      ForBelow(init);
    }
  }

  lemma NothingFor(option: Id)
    ensures FirstVotesFor([], option) == {} && NullifiersFor([], option) == {}
  {
  }

  lemma AgreementPermutes(es: seq<VoteEvent>, fs: seq<VoteEvent>, watched: iset<Id>, option: Id)
    requires multiset(es) == multiset(fs) && RepeatsAgree(es, watched)
    ensures RepeatsAgree(fs, watched) && NullifiersFor(fs, option) == NullifiersFor(es, option)
  {
    assert forall e :: e in es <==> e in multiset(es);
    assert forall e :: e in fs <==> e in multiset(fs);
  }

  // ---------- disagreeing repeats ----------

  /** After two prefixes with the same nullifiers, the same events add the same. */
  lemma {:induction false} SameTail(a: seq<VoteEvent>, b: seq<VoteEvent>, rest: seq<VoteEvent>, option: Id)
    requires Nullifiers(a) == Nullifiers(b)
    ensures Nullifiers(a + rest) == Nullifiers(b + rest)
    ensures |FirstVotesFor(a + rest, option)| - |FirstVotesFor(a, option)|
         == |FirstVotesFor(b + rest, option)| - |FirstVotesFor(b, option)|
    decreases |rest|
  {
    hide First, FirstVotes, FirstVotesFor, Nullifiers;
    if rest == [] {
      assert a + rest == a && b + rest == b;
    } else {
      var init, e := rest[..|rest| - 1], rest[|rest| - 1];
      assert a + rest == (a + init) + [e] && b + rest == (b + init) + [e];
      SameTail(a, b, init, option);
      NullifiersExtend(a + init, e);
      NullifiersExtend(b + init, e);
      OneMoreFor(a + init, e, option);
      OneMoreFor(b + init, e, option);
    }
  }

  lemma OneMoreFor(es: seq<VoteEvent>, e: VoteEvent, option: Id)
    ensures |FirstVotesFor(es + [e], option)|
         == |FirstVotesFor(es, option)| + (if e.nullifier !in Nullifiers(es) && e.option == option then 1 else 0)
  {
    hide First, FirstVotes, FirstVotesFor, Nullifiers;
    ExtendFor(es, e, option);
    ForBelow(es);
  }

  /** Whichever of two events of one nullifier comes first is counted. */
  lemma FirstOfTwo(e: VoteEvent, f: VoteEvent)
    requires e.nullifier == f.nullifier && e.option != f.option
    ensures |FirstVotesFor([e, f], e.option)| == 1 && |FirstVotesFor([f, e], e.option)| == 0
    ensures Nullifiers([e, f]) == Nullifiers([f, e])
  {
    hide First, FirstVotes, FirstVotesFor;
    NothingFor(e.option);
    assert [] + [e] == [e] && [] + [f] == [f] && [e] + [f] == [e, f] && [f] + [e] == [f, e];
    assert e in [e] && f in [f];
    OneMoreFor([], e, e.option);
    OneMoreFor([], f, e.option);
    OneMoreFor([e], f, e.option);
    OneMoreFor([f], e, e.option);
  }

  /** Two different events of a log can be moved to the front. */
  lemma MoveToFront(es: seq<VoteEvent>, e: VoteEvent, f: VoteEvent) returns (rest: seq<VoteEvent>)
    requires e in es && f in es && e != f
    ensures multiset([e, f] + rest) == multiset(es) == multiset([f, e] + rest)
  {
    var others := TakeOut(es, e);
    rest := TakeOut(others, f);
    TwoInFront(e, f, rest);
    TwoInFront(f, e, rest);
  }

  lemma TakeOut(es: seq<VoteEvent>, e: VoteEvent) returns (rest: seq<VoteEvent>)
    requires e in es
    ensures multiset(es) == multiset(rest) + multiset{e}
    ensures forall f :: f in es && f != e ==> f in rest
  {
    var i :| 0 <= i < |es| && es[i] == e;
    rest := RemoveAt(es, i);
    RemoveAtMultiset(es, i);
    hide RemoveAt;
    forall f | f in es && f != e ensures f in rest {
      assert multiset(rest)[f] == multiset(es)[f];
      assert f in multiset(rest);
    }
  }

  lemma TwoInFront(e: VoteEvent, f: VoteEvent, rest: seq<VoteEvent>)
    ensures multiset([e, f] + rest) == multiset(rest) + multiset{f} + multiset{e}
  {
    assert multiset([e, f] + rest) == multiset([e, f]) + multiset(rest);
  }

  lemma DisagreementShows(es: seq<VoteEvent>, watched: iset<Id>, e: VoteEvent, f: VoteEvent)
    requires e in es && f in es && e.nullifier == f.nullifier && e.option in watched && f.option != e.option
    ensures !OrderIrrelevant(es, watched)
  {
    var rest := MoveToFront(es, e, f);
    FirstOfTwo(e, f);
    SameTail([e, f], [f, e], rest, e.option);
    hide FirstVotesFor;
    assert |FirstVotesFor([e, f] + rest, e.option)| != |FirstVotesFor([f, e] + rest, e.option)|;
  }

  // ---------- the exact condition ----------

  /** The order of a log is irrelevant exactly if events of one nullifier never name different watched options. */
  lemma OrderIrrelevantExactly(es: seq<VoteEvent>, watched: iset<Id>)
    ensures OrderIrrelevant(es, watched) <==> RepeatsAgree(es, watched)
  {
    hide FirstVotesFor, NullifiersFor;
    if RepeatsAgree(es, watched) {
      forall fs: seq<VoteEvent>, o | multiset(fs) == multiset(es) && o in watched
        ensures |FirstVotesFor(fs, o)| == |FirstVotesFor(es, o)|
      {
        AgreementPermutes(es, fs, watched, o);
        CountsNullifiers(es, watched, o);
        CountsNullifiers(fs, watched, o);
      }
    } else {
      var e, f :| e in es && f in es && e.nullifier == f.nullifier && e.option in watched && f.option != e.option;
      DisagreementShows(es, watched, e, f);
    }
  }

  /** The counting loop as a function of the log. */
  function Recounted(es: seq<VoteEvent>): PolicyTally {
    if es == [] then EMPTY_TALLY else
      var init, e := es[..|es| - 1], es[|es| - 1];
      if e.nullifier in Nullifiers(init) then Recounted(init) else CountVote(Recounted(init), e.option, e.block)
  }

  lemma {:induction false} RecountedCounts(es: seq<VoteEvent>)
    ensures Counts(Recounted(es), es)
  {
    hide Counts, CountVote, Nullifiers;
    if es == [] {
      NothingCounted();
    } else {
      RecountedCounts(es[..|es| - 1]);
      CountStep(Recounted(es[..|es| - 1]), es[..|es| - 1], es[|es| - 1]);
      assert es == es[..|es| - 1] + [es[|es| - 1]];
    }
  }

  /** Every permutation of the log gets the same counts from the service. */
  ghost predicate ServiceIgnoresOrder(es: seq<VoteEvent>) {
    forall fs: seq<VoteEvent> :: multiset(fs) == multiset(es) ==> SameCounts(Recounted(fs), Recounted(es))
  }

  /** The total never depends on the order. */
  lemma TotalPermutes(es: seq<VoteEvent>, fs: seq<VoteEvent>)
    requires multiset(fs) == multiset(es)
    ensures |FirstVotes(fs)| == |FirstVotes(es)|
  {
    hide FirstVotes, Nullifiers;
    SameNullifiers(fs, es);
    TotalIsNullifiers(es);
    TotalIsNullifiers(fs);
  }

  lemma RecountedFields(es: seq<VoteEvent>)
    ensures var t := Recounted(es);
      && t.support == |FirstVotesFor(es, SUPPORT)| && t.oppose == |FirstVotesFor(es, OPPOSE)|
      && t.abstain == |FirstVotesFor(es, ABSTAIN)| && t.total == |FirstVotes(es)|
  {
    hide First, FirstVotes, FirstVotesFor, IsLastBlock, Recounted;
    RecountedCounts(es);
  }

  /** TallyService: exactly if events of one nullifier name the same known option, or unknown ones only. */
  lemma ServiceIgnoresOrderExactly(es: seq<VoteEvent>)
    ensures ServiceIgnoresOrder(es) <==> RepeatsAgree(es, KNOWN)
  {
    OrderIrrelevantExactly(es, KNOWN);
    hide FirstVotes, FirstVotesFor, Recounted, RepeatsAgree;
    forall fs: seq<VoteEvent> | multiset(fs) == multiset(es)
      ensures SameCounts(Recounted(fs), Recounted(es)) <==> AgreeOn(fs, es)
    {
      RecountedFields(es);
      RecountedFields(fs);
      TotalPermutes(es, fs);
    }
    if OrderIrrelevant(es, KNOWN) {
      forall fs: seq<VoteEvent> | multiset(fs) == multiset(es) ensures SameCounts(Recounted(fs), Recounted(es)) {
        assert AgreeOn(fs, es);
      }
    }
    if ServiceIgnoresOrder(es) {
      forall fs: seq<VoteEvent>, o | multiset(fs) == multiset(es) && o in KNOWN
        ensures |FirstVotesFor(fs, o)| == |FirstVotesFor(es, o)|
      {
        assert SameCounts(Recounted(fs), Recounted(es));
        assert AgreeOn(fs, es);
      }
    }
  }

  /** The two logs give every known option the same count. */
  ghost predicate AgreeOn(fs: seq<VoteEvent>, es: seq<VoteEvent>) {
    forall o :: o in KNOWN ==> |FirstVotesFor(fs, o)| == |FirstVotesFor(es, o)|
  }

  /** The auditor, which prints every option: exactly if events of one nullifier all name the same option. */
  lemma AuditorIgnoresOrderExactly(es: seq<VoteEvent>)
    ensures (forall fs: seq<VoteEvent>, o :: multiset(fs) == multiset(es) ==>
               |FirstVotesFor(fs, o)| == |FirstVotesFor(es, o)|) <==>
            (forall e, f :: e in es && f in es && e.nullifier == f.nullifier ==> e.option == f.option)
  {
    OrderIrrelevantExactly(es, ANY);
  }
}
