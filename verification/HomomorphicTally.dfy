/**
 blockchain/contracts/HomomorphicTally.sol: the poll state machine that accumulates encrypted votes.
 A call that reverts leaves the storage as it was.
 */
module HomomorphicTally {
  import opened Primes
  import opened Edwards
  import opened ElGamal
  import opened ContractArithmetic

  type PollId = nat
  type Nullifier = nat

  datatype PollConfig = PollConfig(pk: Point, optionCount: nat, closeTime: nat)

  datatype Slot = Slot(sum: Ciphertext, count: nat)

  /** What Solidity reads from a mapping entry that was never written. */
  const BLANK := Slot(Ciphertext(Point(0, 0), Point(0, 0)), 0)

  datatype Decryption = Decryption(tallyValue: nat, t: Point)

  datatype State = State(
    polls: map<PollId, PollConfig>,
    slots: map<(PollId, nat), Slot>,
    results: map<(PollId, nat), Decryption>,
    used: set<(PollId, Nullifier)>)
  {
    function SlotAt(poll: PollId, option: nat): Slot {
      if (poll, option) in slots then slots[(poll, option)] else BLANK
    }
  }

  const DEPLOYED := State(map[], map[], map[], {})

  /** The calls that change a poll; role checks and the verifier's answer are inputs. */
  datatype Call =
    | RegisterPoll(authorised: bool, poll: PollId, config: PollConfig)
    | SubmitEncryptedVote(poll: PollId, option: nat, ballot: Ciphertext, nullifier: Nullifier, proofValid: bool)
    | FinaliseDecryption(authorised: bool, poll: PollId, option: nat, result: Decryption)

  datatype Event = Event(now: nat, call: Call)

  datatype Outcome =
    | Done
    | MissingRole
    | PollAlreadyRegistered
    | PollNotFound
    | PollNotClosed
    | PollStillOpen
    | InvalidOptionIndex
    | ArithmeticPanic // the error argument optionCount - 1 underflows for a poll without options
    | NullifierAlreadyUsed
    | InvalidProof
    | AlreadyFinalised

  function OptionCheck(config: PollConfig, option: nat): Outcome {
    if option < config.optionCount then Done
    else if config.optionCount == 0 then ArithmeticPanic
    else InvalidOptionIndex
  }

  /** The first check that fails, in the order of the contract. */
  function OutcomeOf(s: State, e: Event): Outcome {
    match e.call
    case RegisterPoll(authorised, poll, _) =>
      if !authorised then MissingRole
      else if poll in s.polls then PollAlreadyRegistered
      else Done
    case SubmitEncryptedVote(poll, option, _, nullifier, proofValid) =>
      if poll !in s.polls then PollNotFound
      else if s.polls[poll].closeTime <= e.now then PollNotClosed
      else if OptionCheck(s.polls[poll], option) != Done then OptionCheck(s.polls[poll], option)
      else if (poll, nullifier) in s.used then NullifierAlreadyUsed
      else if !proofValid then InvalidProof
      else Done
    case FinaliseDecryption(authorised, poll, option, _) =>
      if !authorised then MissingRole
      else if poll !in s.polls then PollNotFound
      else if e.now < s.polls[poll].closeTime then PollStillOpen
      else if OptionCheck(s.polls[poll], option) != Done then OptionCheck(s.polls[poll], option)
      else if (poll, option) in s.results then AlreadyFinalised
      else Done
  }

  /** The accumulators of options 0..n-1 set to the neutral element; their counters are left alone. */
  function InitialisedSlots(s: State, poll: PollId, n: nat): map<(PollId, nat), Slot> {
    if n == 0 then s.slots
    else InitialisedSlots(s, poll, n - 1)[(poll, n - 1) := Slot(EMPTY, s.SlotAt(poll, n - 1).count)]
  }

  lemma {:induction false} InitialisedAt(s: State, poll: PollId, n: nat, k: (PollId, nat))
    ensures var slots := InitialisedSlots(s, poll, n);
            if k.0 == poll && k.1 < n then k in slots && slots[k] == Slot(EMPTY, s.SlotAt(poll, k.1).count)
            else (k in slots <==> k in s.slots) && (k in slots ==> slots[k] == s.slots[k])
  {
    if n != 0 {
      InitialisedAt(s, poll, n - 1, k);
    }
  }

  ghost function Apply(c: Curve, s: State, e: Event): State
    requires IsPrime(c.p)
  {
    if OutcomeOf(s, e) != Done then s else
      match e.call
      case RegisterPoll(_, poll, config) =>
        s.(polls := s.polls[poll := config], slots := InitialisedSlots(s, poll, config.optionCount))
      case SubmitEncryptedVote(poll, option, ballot, nullifier, _) =>
        var slot := s.SlotAt(poll, option);
        s.(used := s.used + {(poll, nullifier)},
           slots := s.slots[(poll, option) := Slot(AddCiphertexts(c, slot.sum, ballot), slot.count + 1)])
      case FinaliseDecryption(_, poll, option, result) =>
        s.(results := s.results[(poll, option) := result])
  }

  /** Coordinates are uint256 values. */
  predicate Natural(e: Ciphertext) {
    0 <= e.c1.x && 0 <= e.c1.y && 0 <= e.c2.x && 0 <= e.c2.y
  }

  class TallyContract {
    const curve: Curve
    var polls: map<PollId, PollConfig>
    var ciphertexts: map<(PollId, nat), Slot>
    var results: map<(PollId, nat), Decryption>
    var nullifiersUsed: set<(PollId, Nullifier)>

    function Storage(): State
      reads this
    {
      State(polls, ciphertexts, results, nullifiersUsed)
    }

    ghost predicate Valid()
      reads this
    {
      && IsPrime(curve.p) && curve.p != 2 && 0 <= curve.a && 0 <= curve.d
      && forall k :: k in ciphertexts ==> Natural(ciphertexts[k].sum)
    }

    constructor (curve: Curve)
      requires IsPrime(curve.p) && curve.p != 2 && 0 <= curve.a && 0 <= curve.d
      ensures Valid() && this.curve == curve && Storage() == DEPLOYED
    {
      this.curve := curve;
      polls, ciphertexts, results, nullifiersUsed := map[], map[], map[], {};
    }

    method RegisterPoll(now: nat, authorised: bool, poll: PollId, config: PollConfig) returns (r: Outcome)
      requires Valid()
      modifies this
      ensures Valid()
      ensures r == OutcomeOf(old(Storage()), Event(now, Call.RegisterPoll(authorised, poll, config)))
      ensures Storage() == Apply(curve, old(Storage()), Event(now, Call.RegisterPoll(authorised, poll, config)))
    {
      if !authorised { return MissingRole; }
      if poll in polls { return PollAlreadyRegistered; }
      ghost var before := Storage();
      polls := polls[poll := config];
      var i := 0;
      while i < config.optionCount
        invariant 0 <= i <= config.optionCount
        invariant Valid()
        invariant polls == before.polls[poll := config] && results == before.results && nullifiersUsed == before.used
        invariant ciphertexts == InitialisedSlots(before, poll, i)
      {
        InitialisedAt(before, poll, i, (poll, i));
        ciphertexts := ciphertexts[(poll, i) := Slot(EMPTY, Storage().SlotAt(poll, i).count)];
        i := i + 1;
      }
      r := Done;
    }

    method SubmitEncryptedVote(now: nat, poll: PollId, option: nat, ballot: Ciphertext, nullifier: Nullifier,
                               proofValid: bool) returns (r: Outcome)
      requires Valid() && Natural(ballot)
      modifies this
      ensures Valid()
      ensures r == OutcomeOf(old(Storage()),
                             Event(now, Call.SubmitEncryptedVote(poll, option, ballot, nullifier, proofValid)))
      ensures Storage() == Apply(curve, old(Storage()),
                                 Event(now, Call.SubmitEncryptedVote(poll, option, ballot, nullifier, proofValid)))
    {
      hide Curve.Sum, IsPrime, InitialisedSlots;
      if poll !in polls { return PollNotFound; }
      if now >= polls[poll].closeTime { return PollNotClosed; }
      if option >= polls[poll].optionCount {
        return if polls[poll].optionCount == 0 then ArithmeticPanic else InvalidOptionIndex;
      }
      if (poll, nullifier) in nullifiersUsed { return NullifierAlreadyUsed; }
      if !proofValid { return InvalidProof; }

      nullifiersUsed := nullifiersUsed + {(poll, nullifier)};
      var acc := Storage().SlotAt(poll, option);
      var newC1x, newC1y := BabyJubAdd(curve, acc.sum.c1.x, acc.sum.c1.y, ballot.c1.x, ballot.c1.y);
      var newC2x, newC2y := BabyJubAdd(curve, acc.sum.c2.x, acc.sum.c2.y, ballot.c2.x, ballot.c2.y);
      var sum := Ciphertext(Point(newC1x, newC1y), Point(newC2x, newC2y));
      ciphertexts := ciphertexts[(poll, option) := Slot(sum, acc.count + 1)];
      r := Done;
    }

    method FinaliseDecryption(now: nat, authorised: bool, poll: PollId, option: nat, tallyValue: nat, t: Point)
      returns (r: Outcome)
      requires Valid()
      modifies this
      ensures Valid()
      ensures var call := Call.FinaliseDecryption(authorised, poll, option, Decryption(tallyValue, t));
              r == OutcomeOf(old(Storage()), Event(now, call))
      ensures Storage() == Apply(curve, old(Storage()),
                                 Event(now, Call.FinaliseDecryption(authorised, poll, option,
                                                                    Decryption(tallyValue, t))))
    {
      if !authorised { return MissingRole; }
      if poll !in polls { return PollNotFound; }
      if now < polls[poll].closeTime { return PollStillOpen; }
      if option >= polls[poll].optionCount {
        return if polls[poll].optionCount == 0 then ArithmeticPanic else InvalidOptionIndex;
      }
      if (poll, option) in results { return AlreadyFinalised; }
      results := results[(poll, option) := Decryption(tallyValue, t)];
      r := Done;
    }
  }
}
