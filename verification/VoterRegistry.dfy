/** blockchain/contracts/VoterRegistry.sol: registered commitments. */
module VoterRegistry {

  type Commitment = nat
  type Country = nat
  type Address = nat

  /** Mappings are total in Solidity: absent entries read as 0, and address 0 means no registrar. */
  datatype State = State(
    countryOf: map<Commitment, Country>,
    commitments: seq<Commitment>,
    registrars: map<Country, Address>,
    paused: bool)
  {
    function CountryOf(c: Commitment): Country {
      if c in countryOf then countryOf[c] else 0
    }

    function Registrar(country: Country): Address {
      if country in registrars then registrars[country] else 0
    }

    predicate IsRegistered(c: Commitment, country: Country) {
      CountryOf(c) == country
    }
  }

  const DEPLOYED := State(map[], [], map[], false)

  datatype Call =
    | Register(sender: Address, commitment: Commitment, country: Country)
    | SetCountryRegistrar(byOwner: bool, country: Country, registrar: Address)
    | SetPaused(byOwner: bool, pause: bool)

  datatype Outcome =
    | Done | EnforcedPause | ExpectedPause | InvalidCommitment | AlreadyRegistered | UnauthorisedRegistrar | NotOwner

  /** The first check that fails, in the order of the contract. */
  function OutcomeOf(s: State, call: Call): Outcome {
    match call
    case Register(sender, commitment, country) =>
      if s.paused then EnforcedPause
      else if commitment == 0 then InvalidCommitment
      else if s.CountryOf(commitment) != 0 then AlreadyRegistered
      else if s.Registrar(country) == 0 || s.Registrar(country) != sender then UnauthorisedRegistrar
      else Done
    case SetCountryRegistrar(byOwner, _, _) => if byOwner then Done else NotOwner
    case SetPaused(byOwner, pause) =>
      if !byOwner then NotOwner
      else if s.paused == pause then (if pause then EnforcedPause else ExpectedPause)
      else Done
  }

  function Apply(s: State, call: Call): State {
    if OutcomeOf(s, call) != Done then s else
      match call
      case Register(_, commitment, country) =>
        s.(countryOf := s.countryOf[commitment := country], commitments := s.commitments + [commitment])
      case SetCountryRegistrar(_, country, registrar) => s.(registrars := s.registrars[country := registrar])
      case SetPaused(_, pause) => s.(paused := pause)
  }

  class Registry {
    var commitmentToCountry: map<Commitment, Country>
    var commitments: seq<Commitment>
    var countryRegistrar: map<Country, Address>
    var paused: bool

    function Storage(): State
      reads this
    {
      State(commitmentToCountry, commitments, countryRegistrar, paused)
    }

    constructor ()
      ensures Storage() == DEPLOYED
    {
      commitmentToCountry, commitments, countryRegistrar, paused := map[], [], map[], false;
    }

    method Register(sender: Address, commitment: Commitment, country: Country) returns (r: Outcome)
      modifies this
      ensures r == OutcomeOf(old(Storage()), Call.Register(sender, commitment, country))
      ensures Storage() == Apply(old(Storage()), Call.Register(sender, commitment, country))
    {
      if paused { return EnforcedPause; }
      if commitment == 0 { return InvalidCommitment; }
      if Storage().CountryOf(commitment) != 0 { return AlreadyRegistered; }
      var registrar := Storage().Registrar(country);
      if registrar == 0 || registrar != sender { return UnauthorisedRegistrar; }
      commitmentToCountry := commitmentToCountry[commitment := country];
      commitments := commitments + [commitment];
      r := Done;
    }

    method SetCountryRegistrar(byOwner: bool, country: Country, registrar: Address) returns (r: Outcome)
      modifies this
      ensures r == OutcomeOf(old(Storage()), Call.SetCountryRegistrar(byOwner, country, registrar))
      ensures Storage() == Apply(old(Storage()), Call.SetCountryRegistrar(byOwner, country, registrar))
    {
      if !byOwner { return NotOwner; }
      countryRegistrar := countryRegistrar[country := registrar];
      r := Done;
    }
  }

  // ---------- whole runs ----------

  function Run(calls: seq<Call>): State {
    if calls == [] then DEPLOYED else Apply(Run(calls[..|calls| - 1]), calls[|calls| - 1])
  }

  predicate Accepted(s: State, call: Call) {
    call.Register? && OutcomeOf(s, call) == Done
  }

  /** Some accepted registration names country 0. */
  predicate ZeroCountryAccepted(calls: seq<Call>) {
    if calls == [] then false else
      var init, last := calls[..|calls| - 1], calls[|calls| - 1];
      ZeroCountryAccepted(init) || (Accepted(Run(init), last) && last.country == 0)
  }

  predicate Distinct(s: seq<Commitment>) {
    forall i, j :: 0 <= i < j < |s| ==> s[i] != s[j]
  }

  ghost predicate ListsRegistered(s: State) {
    Distinct(s.commitments) && forall c :: c in s.commitments <==> s.CountryOf(c) != 0
  }

  /** A listed commitment that reads as unregistered, or a commitment listed twice. */
  ghost predicate Inconsistent(s: State) {
    (exists i :: 0 <= i < |s.commitments| && s.CountryOf(s.commitments[i]) == 0) || !Distinct(s.commitments)
  }

  lemma StepListsRegistered(s: State, call: Call)
    requires ListsRegistered(s) && !(Accepted(s, call) && call.country == 0)
    ensures ListsRegistered(Apply(s, call))
  {
  }

  lemma ZeroCountryBreaks(s: State, call: Call)
    requires Accepted(s, call) && call.country == 0
    ensures Inconsistent(Apply(s, call))
  {
    assert Apply(s, call).commitments[|s.commitments|] == call.commitment;
  }

  lemma StaysInconsistent(s: State, call: Call)
    requires Inconsistent(s)
    ensures Inconsistent(Apply(s, call))
  {
    var s' := Apply(s, call);
    if !Distinct(s.commitments) {
      var i, j :| 0 <= i < j < |s.commitments| && s.commitments[i] == s.commitments[j];
      assert s'.commitments[i] == s'.commitments[j];
    } else {
      var i :| 0 <= i < |s.commitments| && s.CountryOf(s.commitments[i]) == 0;
      assert s'.commitments[i] == s.commitments[i];
      if Accepted(s, call) && call.commitment == s.commitments[i] {
        assert s'.commitments[|s.commitments|] == s'.commitments[i];
      }
    }
  }

  /**
   The list is duplicate-free and lists exactly the registered commitments if and only if no registration for
   country 0 was ever accepted: such a registration is listed but reads as not registered.
   */
  lemma {:induction false} ListIsExact(calls: seq<Call>)
    ensures ListsRegistered(Run(calls)) <==> !ZeroCountryAccepted(calls)
    ensures ZeroCountryAccepted(calls) ==> Inconsistent(Run(calls))
  {
    if calls != [] {
      var init, last := calls[..|calls| - 1], calls[|calls| - 1];
      ListIsExact(init);
      if ZeroCountryAccepted(init) {
        StaysInconsistent(Run(init), last);
      } else if Accepted(Run(init), last) && last.country == 0 {
        ZeroCountryBreaks(Run(init), last);
      } else {
        StepListsRegistered(Run(init), last);
      }
    }
  }

  /** A registered commitment keeps its country for good, so it cannot be registered a second time. */
  lemma StaysRegistered(s: State, call: Call, c: Commitment)
    requires s.CountryOf(c) != 0
    ensures Apply(s, call).CountryOf(c) == s.CountryOf(c)
    ensures call.Register? && call.commitment == c ==> OutcomeOf(s, call) != Done
  {
  }

  // ---------- who registers ----------

  /** A registration is accepted exactly unpaused, from the country's registrar, for a new and nonzero commitment. */
  lemma RegistrationAcceptedExactly(s: State, call: Call)
    requires call.Register?
    ensures OutcomeOf(s, call) == Done <==>
      && !s.paused
      && call.commitment != 0
      && s.CountryOf(call.commitment) == 0
      && call.sender != 0 && s.Registrar(call.country) == call.sender
  {
  }

  /** The registrar that the owner set last for the country, or nobody. */
  function LastRegistrar(calls: seq<Call>, country: Country): Address {
    if calls == [] then 0 else
      var init, last := calls[..|calls| - 1], calls[|calls| - 1];
      if last.SetCountryRegistrar? && last.byOwner && last.country == country then last.registrar
      else LastRegistrar(init, country)
  }

  /** The owner's last call to pause or unpause, or false. */
  function LastSwitch(calls: seq<Call>): bool {
    if calls == [] then false else
      var init, last := calls[..|calls| - 1], calls[|calls| - 1];
      if last.SetPaused? && last.byOwner then last.pause else LastSwitch(init)
  }

  /** Call i registers a new commitment for the country, by the registrar whom the owner has set for it by then. */
  ghost predicate Registers(calls: seq<Call>, i: nat, c: Commitment, country: Country)
    requires i < |calls|
  {
    && calls[i].Register? && calls[i].commitment == c != 0 && calls[i].country == country
    && Run(calls[..i]).CountryOf(c) == 0
    && !LastSwitch(calls[..i])
    && calls[i].sender == LastRegistrar(calls[..i], country) != 0
  }

  /** In every run the owner decides who registers and when. */
  lemma {:induction false} OwnerDecides(calls: seq<Call>, country: Country)
    ensures Run(calls).Registrar(country) == LastRegistrar(calls, country)
    ensures Run(calls).paused == LastSwitch(calls)
  {
    if calls != [] {
      OwnerDecides(calls[..|calls| - 1], country);
    }
  }

  /** What a call changes about a commitment. */
  lemma CountryChangesExactly(s: State, call: Call, c: Commitment)
    ensures Apply(s, call).CountryOf(c) == if Accepted(s, call) && call.commitment == c then call.country
                                           else s.CountryOf(c)
  {
  }

  /**
   In every run a commitment is registered for a country exactly if the registrar of the country registered it, as
   new, while the registry was not paused.
   */
  lemma {:induction false} RegisteredExactly(calls: seq<Call>, c: Commitment, country: Country)
    requires country != 0
    ensures Run(calls).CountryOf(c) == country <==> exists i :: 0 <= i < |calls| && Registers(calls, i, c, country)
  {
    hide Apply, OutcomeOf, State.CountryOf, Registers;
    if calls == [] {
      NothingRegistered(c);
    } else {
      var n := |calls| - 1;
      var init := calls[..n];
      RegisteredExactly(init, c, country);
      CountryChangesExactly(Run(init), calls[n], c);
      forall i | 0 <= i < n ensures Registers(calls, i, c, country) <==> Registers(init, i, c, country) {
        RegistersInPrefix(calls, i, c, country);
      }
      AcceptedIsRegistered(calls, n, c, country);
      RefusedOnceRegistered(Run(init), calls[n]);
    }
  }

  lemma RegistersInPrefix(calls: seq<Call>, i: nat, c: Commitment, country: Country)
    requires i < |calls| - 1
    ensures Registers(calls, i, c, country) <==> Registers(calls[..|calls| - 1], i, c, country)
  {
    var init := calls[..|calls| - 1];
    assert init[..i] == calls[..i] && init[i] == calls[i];
  }

  lemma RefusedOnceRegistered(s: State, call: Call)
    ensures Accepted(s, call) ==> s.CountryOf(call.commitment) == 0
  {
  }

  lemma NothingRegistered(c: Commitment)
    ensures DEPLOYED.CountryOf(c) == 0
  {
  }

  lemma AcceptedIsRegistered(calls: seq<Call>, i: nat, c: Commitment, country: Country)
    requires i < |calls|
    ensures Registers(calls, i, c, country) <==>
      Accepted(Run(calls[..i]), calls[i]) && calls[i].commitment == c && calls[i].country == country
  {
    OwnerDecides(calls[..i], country);
  }
}
