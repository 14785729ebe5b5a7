/**
 The tally authority of backend/src/services/HomomorphicTallyService.ts: decrypt the accumulated
 ciphertext of one option, recover the count by discrete logarithm, post it to the contract.
 */
module TallyAuthority {
  import opened Primes
  import opened Edwards
  import opened CurveGroup
  import opened ElGamal
  import opened HomomorphicTally
  import opened TallyRuns
  import opened VoteCircuit
  import S = ServiceArithmetic

  const MAX_VOTERS: nat := 10_000_000

  /** Baby Jubjub and its base point, as the three files write them. */
  const BABY_JUBJUB := Curve(21888242871839275222246405745257275088548364400416034343698204186575808495617, 168700,
                             168696)
  const BASE8 := Point(5299619240641551281634865583518297030282874472190772894086521144482721001553,
                       16950150798460657717958625567821834550301663161624707787222815936182638968203)

  /** Every accepted ballot came with a witness of the circuit: soundness of the proof verifier. */
  ghost predicate VerifierSound(c: Curve, g: Point, pk: Point, ballots: seq<Ciphertext>)
    requires IsPrime(c.p)
  {
    forall i :: 0 <= i < |ballots| ==> Certified(c, g, pk, ballots[i])
  }

  ghost predicate Certified(c: Curve, g: Point, pk: Point, e: Ciphertext)
    requires IsPrime(c.p)
  {
    exists w :: Constraints(c, g, pk, e, w)
  }

  /**
   Soundness of the proof verifier over a run: whenever it accepts the proof of a submission to a registered poll,
   the ballot has a witness under the key of that poll.
   */
  ghost predicate ProofsAreSound(c: Curve, g: Point, es: seq<Event>)
    requires IsPrime(c.p)
  {
    forall i :: 0 <= i < |es| ==> SoundAt(c, g, es, i)
  }

  ghost predicate SoundAt(c: Curve, g: Point, es: seq<Event>, i: nat)
    requires IsPrime(c.p) && i < |es|
  {
    var s, call := Run(c, es[..i]), es[i].call;
    call.SubmitEncryptedVote? && call.proofValid && call.poll in s.polls ==>
      Certified(c, g, s.polls[call.poll].pk, call.ballot)
  }

  /** A registered poll keeps its key. */
  lemma {:induction false} KeyStays(c: Curve, es: seq<Event>, i: nat, poll: PollId)
    requires IsPrime(c.p) && i <= |es| && poll in Run(c, es[..i]).polls
    ensures poll in Run(c, es).polls && Run(c, es).polls[poll] == Run(c, es[..i]).polls[poll]
    decreases |es|
  {
    if i == |es| {
      assert es[..i] == es;
    } else {
      var n := |es| - 1;
      assert es[..n][..i] == es[..i];
      KeyStays(c, es[..n], i, poll);
      hide AddCiphertexts, InitialisedSlots, IsPrime;
    }
  }

  /** In every run, the ballots accepted for an option are certified under its poll's key: each passed the check. */
  lemma AcceptedAreCertified(c: Curve, g: Point, es: seq<Event>, poll: PollId, option: nat)
    requires IsPrime(c.p) && ProofsAreSound(c, g, es) && poll in Run(c, es).polls
    ensures VerifierSound(c, g, Run(c, es).polls[poll].pk, Accepted(c, es, poll, option))
  {
    hide Certified, Run, Accepted, IsPrime;
    var pk := Run(c, es).polls[poll].pk;
    forall b | 0 <= b < |Accepted(c, es, poll, option)| ensures Certified(c, g, pk, Accepted(c, es, poll, option)[b]) {
      var i := AcceptedHadProofs(c, es, poll, option, b);
      assert SoundAt(c, g, es, i);
      KeyStays(c, es, i, poll);
    }
  }

  /** A sound verifier gives every accepted ballot an opening to a bit. */
  lemma {:induction false} BallotsOpen(c: Curve, g: Point, pk: Point, ballots: seq<Ciphertext>)
    returns (os: seq<Opening>)
    requires c.Complete() && c.OnCurve(g) && c.OnCurve(pk) && VerifierSound(c, g, pk, ballots)
    ensures Opens(c, g, pk, ballots, os) && forall o :: o in os ==> o.v <= 1
  {
    hide Curve.Sum, Curve.OnCurve, Encrypt, AdditionConstraint;
    if ballots == [] {
      os := [];
    } else {
      var n := |ballots| - 1;
      os := BallotsOpen(c, g, pk, ballots[..n]);
      assert Certified(c, g, pk, ballots[n]);
      var w :| Constraints(c, g, pk, ballots[n], w);
      CircuitSound(c, g, pk, ballots[n], w);
      os := os + [Opening(w.v, BitsValue(w.bits[..SCALAR_BITS]))];
    }
  }

  /**
   The decrypted point of an accumulator over openings os has exactly one logarithm up to the bound,
   and it is the number of votes.
   */
  lemma TallyPoint(c: Curve, g: Point, sk: nat, ballots: seq<Ciphertext>, os: seq<Opening>, bound: nat)
    requires c.Complete() && c.OnCurve(g) && OrderAbove(c, g, bound)
    requires Opens(c, g, Times(c, sk, g), ballots, os)
    ensures var t := Decrypt(c, sk, Accumulate(c, ballots));
            && Valid(c, Accumulate(c, ballots)) && c.OnCurve(t) && t == Times(c, VoteSum(os), g)
            && (VoteSum(os) <= bound ==> forall k: nat :: k <= bound ==> (Times(c, k, g) == t <==> k == VoteSum(os)))
  {
    hide Curve.Sum, Curve.OnCurve;
    DecryptTally(c, g, sk, ballots, os);
    if VoteSum(os) <= bound {
      forall k: nat | k <= bound && Times(c, k, g) == Times(c, VoteSum(os), g)
        ensures k == VoteSum(os)
      {
        TimesInjective(c, g, bound, k, VoteSum(os));
      }
    }
  }

  /** T = C2 - sk*C1, computed with the service's own arithmetic; on the curve it is the decryption. */
  method ComputeT(c: Curve, sk: nat, e: Ciphertext) returns (t: Point)
    requires IsPrime(c.p) && 0 <= c.a && 0 <= c.d && Reduced(c, e.c1) && Reduced(c, e.c2)
    ensures Reduced(c, t) && t == Add(c, e.c2, c.Neg(S.DoubleAndAdd(c, sk, NEUTRAL, e.c1)))
    ensures c.Complete() && Valid(c, e) ==> t == Decrypt(c, sk, e) && c.OnCurve(t)
  {
    hide Curve.Sum, S.DoubleAndAdd, Add;
    var skC1x, skC1y := S.BjjScalarMul(c, sk, e.c1.x, e.c1.y);
    var neg := S.BjjNeg(c, skC1x, skC1y);
    AddReduced(c, e.c2, Point(neg.0, neg.1));
    var tx, ty := S.BjjAdd(c, e.c2.x, e.c2.y, neg.0, neg.1);
    t := Point(tx, ty);
    if c.Complete() && Valid(c, e) {
      NegOnCurve(c, Point(skC1x, skC1y));
      AddIsSum(c, e.c2, Point(neg.0, neg.1));
    }
  }

  /** A result of the search means that the sum of the votes is at most the bound, once the order exceeds it. */
  lemma SumAboveBound(c: Curve, g: Point, sum: nat, bound: nat, k: nat)
    requires c.Complete() && c.OnCurve(g) && OrderAbove(c, g, sum) && k <= bound
    requires Times(c, k, g) == Times(c, sum, g)
    ensures sum <= bound
  {
    hide Curve.Sum, Curve.OnCurve, Curve.Complete;
    if bound < sum {
      TimesInjective(c, g, sum, k, sum);
    }
  }

  /** The call that posts a result together with the decrypted point. */
  ghost function Finalisation(c: Curve, g: Point, poll: PollId, option: nat, now: nat, value: nat,
                              os: seq<Opening>): Event
    requires IsPrime(c.p)
  {
    Event(now, Call.FinaliseDecryption(true, poll, option, Decryption(value, Times(c, VoteSum(os), g))))
  }

  lemma RunOneMore(c: Curve, es: seq<Event>, e: Event)
    requires IsPrime(c.p)
    ensures Run(c, es + [e]) == Apply(c, Run(c, es), e)
  {
    hide Apply, IsPrime;
    assert (es + [e])[..|es|] == es;
  }

  lemma FinalisationApplies(c: Curve, s: State, poll: PollId, option: nat, now: nat, result: Decryption)
    requires IsPrime(c.p) && poll in s.polls && option < s.polls[poll].optionCount && s.polls[poll].closeTime <= now
    requires (poll, option) !in s.results
    ensures Apply(c, s, Event(now, Call.FinaliseDecryption(true, poll, option, result)))
         == s.(results := s.results[(poll, option) := result])
  {
  }

  /**
   _finaliseOption, end to end. When the proof verifier is sound over the run, the accepted ballots open to bits under
   the poll's key, and the value posted is exactly the number of votes, so it never exceeds the number of ballots. It
   is missing only if the option was finalised before or the votes exceed MAX_VOTERS, and in both cases it is.
   */
  method FinaliseOption(contract: TallyContract, g: Point, sk: nat, poll: PollId, option: nat, now: nat,
                        ghost es: seq<Event>) returns (posted: S.Option<nat>, ghost os: seq<Opening>)
    requires contract.Valid() && contract.curve.Complete() && contract.curve.OnCurve(g)
    requires OrderAbove(contract.curve, g, MAX_VOTERS)
    requires contract.Storage() == Run(contract.curve, es)
    requires poll in contract.polls && option < contract.polls[poll].optionCount
    requires contract.polls[poll].closeTime <= now
    requires contract.polls[poll].pk == Times(contract.curve, sk, g)
    requires ProofsAreSound(contract.curve, g, es)
    modifies contract
    ensures contract.Valid()
    ensures Opens(contract.curve, g, Times(contract.curve, sk, g), Accepted(contract.curve, es, poll, option), os)
    ensures forall o :: o in os ==> o.v <= 1
    ensures VoteSum(os) <= |os| == contract.Storage().SlotAt(poll, option).count
    ensures (poll, option) in old(contract.results) ==> posted == S.None
    ensures (poll, option) !in old(contract.results) && VoteSum(os) <= MAX_VOTERS ==> posted == S.Some(VoteSum(os))
    ensures MAX_VOTERS < VoteSum(os) && OrderAbove(contract.curve, g, VoteSum(os)) ==> posted == S.None
    ensures posted.None? ==> contract.Storage() == old(contract.Storage())
    ensures posted.Some? ==>
      contract.Storage() == Run(contract.curve,
                                es + [Finalisation(contract.curve, g, poll, option, now, posted.value, os)])
    ensures posted.Some? ==>
      (poll, option) in contract.results && contract.results[(poll, option)].tallyValue == posted.value
  {
    hide Curve.Sum, Curve.OnCurve, Curve.Complete, Encrypt, AddCiphertexts, InitialisedSlots, Accumulate, Accepted,
         VerifierSound, ProofsAreSound, Times, OrderAbove, IsPrime, Apply, OutcomeOf, Run;
    ghost var c := contract.curve;
    TimesOnCurve(c, sk, g);
    AcceptedAreCertified(c, g, es, poll, option);
    os := BallotsOpen(c, g, Times(c, sk, g), Accepted(c, es, poll, option));
    AccumulatorIsFold(c, es, poll, option);
    VoteSumBound(os);
    TallyPoint(c, g, sk, Accepted(c, es, poll, option), os, MAX_VOTERS);
    if (poll, option) in contract.results {
      posted := S.None;
      return;
    }
    var t := ComputeT(contract.curve, sk, contract.Storage().SlotAt(poll, option).sum);
    posted := S.Bsgs(contract.curve, g, t.x, t.y, MAX_VOTERS);
    if posted.Some? {
      if OrderAbove(c, g, VoteSum(os)) { SumAboveBound(c, g, VoteSum(os), MAX_VOTERS, posted.value); }
      RunOneMore(c, es, Finalisation(c, g, poll, option, now, posted.value, os));
      FinalisationApplies(c, contract.Storage(), poll, option, now, Decryption(posted.value, t));
      var r := contract.FinaliseDecryption(now, true, poll, option, posted.value, t);
    }
  }
}
