/**
 backend/src/ussd/USSDVoteService.ts: voting from a feature phone. A session picks a policy, then an option, then
 confirms; Redis keeps the sessions for 90 seconds and the set of used nullifiers for good.
 */
module Ussd {

  datatype Option<T> = None | Some(value: T)

  const POLICIES: seq<string> := ["pol-001", "pol-002", "pol-003", "pol-004", "pol-005"]
  const OPTIONS: map<string, string> :=
    map["1" := "option-support", "2" := "option-oppose", "3" := "option-abstain"]

  datatype Session = Session(step: nat, policyIndex: int, policyId: Option<string>)

  const NEW_SESSION := Session(0, 0, None)

  datatype Vote = Vote(phone: string, policy: string, option: string)

  /**
   The parts of the platform: the hash in hexadecimal, the salt, parseInt in base 10 with None for NaN, and the
   strings of the truthy properties that every JavaScript object inherits, such as "constructor".
   */
  datatype Platform = Platform(
    hash: string -> string,
    salt: string,
    parse: string -> Option<int>,
    inherited: map<string, string>)
  {
    function Nullifier(phone: string, policy: string): string {
      "0x" + hash(phone + policy + salt)
    }

    /** optionMap[last]: the three own properties, then the inherited ones. */
    function OptionFor(last: string): Option<string> {
      if last in OPTIONS then Some(OPTIONS[last])
      else if last in inherited then Some(inherited[last])
      else None
    }
  }

  datatype State = State(sessions: map<string, Session>, nullifiers: set<string>, recorded: seq<Vote>) {
    function SessionOf(id: string): Session {
      if id in sessions then sessions[id] else NEW_SESSION
    }
  }

  const EMPTY := State(map[], {}, [])

  datatype Response =
    | Menu(offset: int)
    | InvalidChoice(offset: int)
    | Options(index: int)
    | InvalidOption
    | Confirm(policy: string, option: string)
    | Cancelled
    | AlreadyVoted
    | Recorded(nullifier: string)
    | Ended
    | Expired

  // ---------- strings ----------

  function Split(s: string, sep: char): (parts: seq<string>)
    ensures |parts| > 0
  {
    if s == [] then [[]] else
      var rest := Split(s[1..], sep);
      if s[0] == sep then [[]] + rest else [[s[0]] + rest[0]] + rest[1..]
  }

  function NonEmpty(parts: seq<string>): seq<string> {
    if parts == [] then [] else (if parts[0] == [] then [] else [parts[0]]) + NonEmpty(parts[1..])
  }

  lemma {:induction false} SplitWhole(s: string, sep: char)
    requires sep !in s
    ensures Split(s, sep) == [s]
  {
    if s != [] {
      SplitWhole(s[1..], sep);
      assert [s[0]] + s[1..] == s;
    }
  }

  lemma {:induction false} SplitPair(a: string, b: string, sep: char)
    requires sep !in a
    ensures Split(a + [sep] + b, sep) == [a] + Split(b, sep)
  {
    var s := a + [sep] + b;
    if a == [] {
      assert s[1..] == b;
    } else {
      SplitPair(a[1..], b, sep);
      assert s[1..] == a[1..] + [sep] + b;
      assert [a[0]] + a[1..] == a;
    }
  }

  // ---------- one request ----------

  datatype Reply = Reply(response: Response, state: State)

  function Save(s: State, id: string, session: Session): State {
    s.(sessions := s.sessions[id := session])
  }

  function Forget(s: State, id: string): State {
    s.(sessions := s.sessions - {id})
  }

  function ChoosePolicy(p: Platform, s: State, id: string, session: Session, last: string): Reply {
    if last == "0" then
      var index := (session.policyIndex + 3) % |POLICIES|;
      Reply(Menu(index), Save(s, id, session.(policyIndex := index)))
    else
      var choice := p.parse(last);
      var index := if choice.Some? then choice.value - 1 + session.policyIndex else -1;
      if 0 <= index < |POLICIES| then
        Reply(Options(index), Save(s, id, session.(policyId := Some(POLICIES[index]), step := 1)))
      else Reply(InvalidChoice(session.policyIndex), s)
  }

  function ChooseOption(p: Platform, s: State, id: string, session: Session, policyId: string, last: string): Reply {
    var option := p.OptionFor(last);
    if option.None? then Reply(InvalidOption, s) else
      var base := Split(policyId, ':')[0];
      Reply(Confirm(base, option.value), Save(s, id, session.(step := 2, policyId := Some(base + ":" + option.value))))
  }

  /** The vote that a session in its last step stands for: the first two parts around the colons. */
  function VoteOf(phone: string, policyId: string): Vote {
    var parts := Split(policyId, ':');
    Vote(phone, parts[0], if |parts| > 1 then parts[1] else "")
  }

  function Record(p: Platform, s: State, id: string, vote: Vote): State {
    State(s.sessions - {id}, s.nullifiers + {p.Nullifier(vote.phone, vote.policy)}, s.recorded + [vote])
  }

  function ConfirmVote(p: Platform, s: State, id: string, phone: string, policyId: string, last: string): Reply {
    var vote := VoteOf(phone, policyId);
    if last != "1" then Reply(Cancelled, Forget(s, id))
    else if p.Nullifier(phone, vote.policy) in s.nullifiers then Reply(AlreadyVoted, Forget(s, id))
    else Reply(Recorded(p.Nullifier(phone, vote.policy)), Record(p, s, id, vote))
  }

  function Handled(p: Platform, s: State, id: string, phone: string, text: string): Reply {
    var parts := NonEmpty(Split(text, '*'));
    var session := s.SessionOf(id);
    var saved := Save(s, id, session);
    if parts == [] then Reply(Menu(0), saved) else
      var last := parts[|parts| - 1];
      if last == "#" then Reply(Ended, Forget(s, id))
      else if session.policyId.None? then ChoosePolicy(p, saved, id, session, last)
      else if session.step == 1 then ChooseOption(p, saved, id, session, session.policyId.value, last)
      else if session.step == 2 then ConfirmVote(p, saved, id, phone, session.policyId.value, last)
      else Reply(Expired, saved)
  }

  class USSDVoteService {
    const platform: Platform
    var sessions: map<string, Session>
    var nullifiers: set<string>
    var recorded: seq<Vote>

    function Storage(): State
      reads this
    {
      State(sessions, nullifiers, recorded)
    }

    constructor (platform: Platform)
      ensures this.platform == platform && Storage() == EMPTY
    {
      this.platform, sessions, nullifiers, recorded := platform, map[], {}, [];
    }

    method Handle(id: string, phone: string, text: string) returns (r: Response)
      modifies this
      ensures Reply(r, Storage()) == Handled(platform, old(Storage()), id, phone, text)
    {
      var parts := NonEmpty(Split(text, '*'));
      var session := if id in sessions then sessions[id] else NEW_SESSION;
      sessions := sessions[id := session];
      if parts == [] { return Menu(0); }
      var last := parts[|parts| - 1];
      if last == "#" {
        sessions := sessions - {id};
        return Ended;
      }
      if session.policyId.None? {
        r := HandlePolicy(id, session, last);
      } else if session.step == 1 {
        r := HandleOption(id, session, last);
      } else if session.step == 2 {
        r := HandleConfirmation(id, session, phone, last);
      } else {
        r := Expired;
      }
    }

    method HandlePolicy(id: string, session: Session, last: string) returns (r: Response)
      modifies this`sessions
      ensures Reply(r, Storage()) == ChoosePolicy(platform, old(Storage()), id, session, last)
    {
      if last == "0" {
        var paged := session.(policyIndex := (session.policyIndex + 3) % |POLICIES|);
        sessions := sessions[id := paged];
        return Menu(paged.policyIndex);
      }
      var choice := platform.parse(last);
      if choice.None? { return InvalidChoice(session.policyIndex); }
      var index := choice.value - 1 + session.policyIndex;
      if index < 0 || |POLICIES| <= index { return InvalidChoice(session.policyIndex); }
      sessions := sessions[id := session.(policyId := Some(POLICIES[index]), step := 1)];
      r := Options(index);
    }

    method HandleOption(id: string, session: Session, last: string) returns (r: Response)
      requires session.policyId.Some?
      modifies this`sessions
      ensures Reply(r, Storage()) == ChooseOption(platform, old(Storage()), id, session, session.policyId.value, last)
    {
      var option := platform.OptionFor(last);
      if option.None? { return InvalidOption; }
      var base := Split(session.policyId.value, ':')[0];
      sessions := sessions[id := session.(step := 2, policyId := Some(base + ":" + option.value))];
      r := Confirm(base, option.value);
    }

    method HandleConfirmation(id: string, session: Session, phone: string, last: string) returns (r: Response)
      requires session.policyId.Some?
      modifies this
      ensures Reply(r, Storage()) == ConfirmVote(platform, old(Storage()), id, phone, session.policyId.value, last)
    {
      if last != "1" {
        sessions := sessions - {id};
        return Cancelled;
      }
      var vote := VoteOf(phone, session.policyId.value);
      var nullifier := platform.Nullifier(phone, vote.policy);
      if nullifier in nullifiers {
        sessions := sessions - {id};
        return AlreadyVoted;
      }
      nullifiers := nullifiers + {nullifier};
      sessions := sessions - {id};
      recorded := recorded + [vote];
      r := Recorded(nullifier);
    }
  }

  // ---------- sessions ----------

  ghost predicate IsPair(policyId: string, allowed: set<string>) {
    exists policy, option :: policy in POLICIES && option in allowed && policyId == policy + ":" + option
  }

  /** No policy at step 0, a listed one at step 1, a policy and an option at step 2, and no other step. */
  ghost predicate Sane(session: Session, allowed: set<string>) {
    && 0 <= session.policyIndex < |POLICIES|
    && (session.policyId.None? <==> session.step == 0)
    && (session.step == 1 ==> session.policyId.value in POLICIES)
    && (session.step == 2 ==> IsPair(session.policyId.value, allowed))
    && session.step <= 2
  }

  ghost predicate AllSane(s: State, allowed: set<string>) {
    forall id :: id in s.sessions ==> Sane(s.sessions[id], allowed)
  }

  /** The options that the request's last part can select are allowed. */
  predicate Selects(p: Platform, text: string, allowed: set<string>) {
    var parts := NonEmpty(Split(text, '*'));
    parts != [] && parts[|parts| - 1] != "#" && p.OptionFor(parts[|parts| - 1]).Some? ==>
      p.OptionFor(parts[|parts| - 1]).value in allowed
  }

  lemma PolicyHasNoColon(policy: string)
    requires policy in POLICIES
    ensures ':' !in policy && |policy| == 7 && Split(policy, ':') == [policy]
  {
    hide Split;
    SplitWhole(policy, ':');
  }

  /** A pair splits back into its policy and, when the option has no colon, its option. */
  lemma PairSplitsBack(phone: string, policy: string, option: string)
    requires policy in POLICIES
    ensures VoteOf(phone, policy + ":" + option).policy == policy
    ensures ':' !in option ==> VoteOf(phone, policy + ":" + option) == Vote(phone, policy, option)
  {
    PolicyHasNoColon(policy);
    SplitPair(policy, option, ':');
    if ':' !in option { SplitWhole(option, ':'); }
  }

  lemma ChooseOptionIsSane(p: Platform, s: State, id: string, session: Session, last: string, allowed: set<string>)
    requires AllSane(s, allowed) && Sane(session, allowed) && session.step == 1
    requires p.OptionFor(last).Some? ==> p.OptionFor(last).value in allowed
    ensures AllSane(ChooseOption(p, s, id, session, session.policyId.value, last).state, allowed)
  {
    var policy := session.policyId.value;
    PolicyHasNoColon(policy);
    if p.OptionFor(last).Some? {
      var option := p.OptionFor(last).value;
      hide POLICIES, Split, Platform.OptionFor;
      assert IsPair(policy + ":" + option, allowed);
    }
  }

  /** Sessions stay sane, and the fall-through at the end is never reached. */
  lemma HandledIsSane(p: Platform, s: State, id: string, phone: string, text: string, allowed: set<string>)
    requires AllSane(s, allowed) && Selects(p, text, allowed)
    ensures AllSane(Handled(p, s, id, phone, text).state, allowed)
    ensures Handled(p, s, id, phone, text).response != Expired
  {
    var session := s.SessionOf(id);
    var parts := NonEmpty(Split(text, '*'));
    hide Split, NonEmpty, IsPair, Platform.OptionFor, Platform.Nullifier;
    assert Sane(session, allowed);
    if parts != [] && parts[|parts| - 1] != "#" && session.step == 1 {
      hide ChooseOption;
      ChooseOptionIsSane(p, Save(s, id, session), id, session, parts[|parts| - 1], allowed);
    }
  }

  // ---------- runs ----------

  /** A confirmation between its SISMEMBER and its SADD. */
  datatype Pending = Pending(id: string, vote: Vote)

  datatype World = World(state: State, open: map<nat, Pending>)

  datatype Step =
    | Request(id: string, phone: string, text: string) // handled without interruption
    | Expire(id: string)
    | StartConfirm(call: nat, id: string, phone: string)
    | FinishConfirm(call: nat)

  predicate Enabled(p: Platform, w: World, step: Step) {
    match step
    case Request(_, _, _) => true
    case Expire(_) => true
    case StartConfirm(call, id, phone) =>
      var session := w.state.SessionOf(id);
      && call !in w.open && session.step == 2 && session.policyId.Some?
      && p.Nullifier(phone, VoteOf(phone, session.policyId.value).policy) !in w.state.nullifiers
    case FinishConfirm(call) => call in w.open
  }

  function Next(p: Platform, w: World, step: Step): World
    requires Enabled(p, w, step)
  {
    match step
    case Request(id, phone, text) => w.(state := Handled(p, w.state, id, phone, text).state)
    case Expire(id) => w.(state := Forget(w.state, id))
    case StartConfirm(call, id, phone) =>
      w.(open := w.open[call := Pending(id, VoteOf(phone, w.state.SessionOf(id).policyId.value))])
    case FinishConfirm(call) =>
      World(Record(p, w.state, w.open[call].id, w.open[call].vote), w.open - {call})
  }

  predicate Runs(p: Platform, w: World, steps: seq<Step>)
    decreases |steps|, 0
  {
    steps == [] ||
    (Runs(p, w, steps[..|steps| - 1]) && Enabled(p, After(p, w, steps[..|steps| - 1]), steps[|steps| - 1]))
  }

  function After(p: Platform, w: World, steps: seq<Step>): World
    requires Runs(p, w, steps)
    decreases |steps|, 1
  {
    if steps == [] then w else Next(p, After(p, w, steps[..|steps| - 1]), steps[|steps| - 1])
  }

  const START := World(EMPTY, map[])

  function NullifierOf(p: Platform, v: Vote): string {
    p.Nullifier(v.phone, v.policy)
  }

  // ---------- every recorded vote ----------

  ghost predicate IsListed(v: Vote, allowed: set<string>) {
    v.policy in POLICIES && exists option :: option in allowed && v.option == Split(option, ':')[0]
  }

  ghost predicate AllListed(w: World, allowed: set<string>) {
    && AllSane(w.state, allowed)
    && (forall v :: v in w.state.recorded ==> IsListed(v, allowed))
    && (forall c :: c in w.open ==> IsListed(w.open[c].vote, allowed))
  }

  lemma PairIsListed(phone: string, policyId: string, allowed: set<string>)
    requires IsPair(policyId, allowed)
    ensures IsListed(VoteOf(phone, policyId), allowed)
  {
    var policy, option :| policy in POLICIES && option in allowed && policyId == policy + ":" + option;
    PolicyHasNoColon(policy);
    SplitPair(policy, option, ':');
  }

  lemma HandledRecords(p: Platform, s: State, id: string, phone: string, text: string)
    ensures var r := Handled(p, s, id, phone, text);
      if r.response.Recorded? then
        && s.SessionOf(id).step == 2 && s.SessionOf(id).policyId.Some?
        && var vote := VoteOf(phone, s.SessionOf(id).policyId.value);
           r.response.nullifier == NullifierOf(p, vote) && r.response.nullifier !in s.nullifiers
           && r.state == Record(p, Save(s, id, s.SessionOf(id)), id, vote)
      else r.state.recorded == s.recorded && r.state.nullifiers == s.nullifiers
  {
    hide Split, NonEmpty, Platform.OptionFor, Platform.Nullifier, POLICIES;
  }

  lemma StepStaysListed(p: Platform, w: World, step: Step, allowed: set<string>)
    requires AllListed(w, allowed) && Enabled(p, w, step)
    requires step.Request? ==> Selects(p, step.text, allowed)
    ensures AllListed(Next(p, w, step), allowed)
  {
    hide Handled, VoteOf, IsListed, IsPair, Selects, POLICIES, Platform.Nullifier;
    if step.Request? {
      HandledIsSane(p, w.state, step.id, step.phone, step.text, allowed);
      HandledRecords(p, w.state, step.id, step.phone, step.text);
      if Handled(p, w.state, step.id, step.phone, step.text).response.Recorded? {
        PairIsListed(step.phone, w.state.SessionOf(step.id).policyId.value, allowed);
      }
    } else if step.StartConfirm? {
      PairIsListed(step.phone, w.state.SessionOf(step.id).policyId.value, allowed);
    }
  }

  /** In every run, votes are recorded for listed policies and for options that some request selected. */
  lemma {:induction false} RecordedAreListed(p: Platform, steps: seq<Step>, allowed: set<string>)
    requires Runs(p, START, steps) && forall s :: s in steps && s.Request? ==> Selects(p, s.text, allowed)
    ensures AllListed(After(p, START, steps), allowed)
  {
    if steps != [] {
      RecordedAreListed(p, steps[..|steps| - 1], allowed);
      hide Next, Enabled, AllListed, Selects;
      StepStaysListed(p, After(p, START, steps[..|steps| - 1]), steps[|steps| - 1], allowed);
    }
  }

  lemma OnePart(text: string)
    requires text != [] && '*' !in text
    ensures NonEmpty(Split(text, '*')) == [text]
  {
    SplitWhole(text, '*');
    assert [text][1..] == [];
  }

  /** What a text of one part does to a session without a policy. */
  lemma OnePartChooses(p: Platform, s: State, id: string, phone: string, last: string)
    requires last != [] && '*' !in last && last != "#" && s.SessionOf(id).policyId.None?
    ensures Handled(p, s, id, phone, last) ==
      ChoosePolicy(p, Save(s, id, s.SessionOf(id)), id, s.SessionOf(id), last)
  {
    OnePart(last);
    hide Split, NonEmpty, ChoosePolicy, ChooseOption, ConfirmVote;
  }

  lemma FirstPolicyChosen(p: Platform, id: string, phone: string)
    requires p.parse("1") == Some(1)
    ensures Handled(p, EMPTY, id, phone, "1").state == State(map[id := Session(1, 0, Some("pol-001"))], {}, [])
  {
    hide Handled;
    OnePartChooses(p, EMPTY, id, phone, "1");
  }

  /** What a text of one part does to the two later steps of a session. */
  lemma OnePartHandled(p: Platform, s: State, id: string, phone: string, session: Session, last: string)
    requires last != [] && '*' !in last && last != "#"
    requires session.policyId.Some? && s == State(map[id := session], {}, [])
    ensures session.step == 1 ==>
      Handled(p, s, id, phone, last) == ChooseOption(p, s, id, session, session.policyId.value, last)
    ensures session.step == 2 ==>
      Handled(p, s, id, phone, last) == ConfirmVote(p, s, id, phone, session.policyId.value, last)
  {
    OnePart(last);
    assert s.SessionOf(id) == session && Save(s, id, session) == s;
    hide Split, NonEmpty, ChoosePolicy, ChooseOption, ConfirmVote;
  }

  lemma NameChosen(p: Platform, id: string, phone: string, policy: string, name: string)
    requires name in p.inherited && name !in OPTIONS && name != [] && name != "#" && '*' !in name
    requires Split(policy, ':') == [policy]
    ensures var s := State(map[id := Session(1, 0, Some(policy))], {}, []);
      Handled(p, s, id, phone, name) == Reply(Confirm(policy, p.inherited[name]),
        State(map[id := Session(2, 0, Some(policy + ":" + p.inherited[name]))], {}, []))
  {
    hide Split, Handled, OPTIONS;
    OnePartHandled(p, State(map[id := Session(1, 0, Some(policy))], {}, []), id, phone, Session(1, 0, Some(policy)),
                   name);
  }

  lemma PairConfirmed(p: Platform, id: string, phone: string, policy: string, option: string)
    requires Split(policy + ":" + option, ':') == [policy] + Split(option, ':')
    ensures var s := State(map[id := Session(2, 0, Some(policy + ":" + option))], {}, []);
      Handled(p, s, id, phone, "1").state.recorded == [Vote(phone, policy, Split(option, ':')[0])]
  {
    hide Split, Handled, Platform.Nullifier;
    var session := Session(2, 0, Some(policy + ":" + option));
    OnePartHandled(p, State(map[id := session], {}, []), id, phone, session, "1");
  }

  /**
   The condition on the options is needed: an inherited property name passes for an option, so that three requests
   record a vote for its string.
   */
  lemma InheritedNameIsRecorded(p: Platform, id: string, phone: string, name: string)
    requires name in p.inherited && name !in OPTIONS && name != [] && name != "#" && '*' !in name
    requires p.parse("1") == Some(1)
    ensures
      var r1 := Handled(p, EMPTY, id, phone, "1");
      var r2 := Handled(p, r1.state, id, phone, name);
      var r3 := Handled(p, r2.state, id, phone, "1");
      r2.response == Confirm("pol-001", p.inherited[name])
      && r3.state.recorded == [Vote(phone, "pol-001", Split(p.inherited[name], ':')[0])]
  {
    PolicyHasNoColon("pol-001");
    FirstPolicyChosen(p, id, phone);
    NameChosen(p, id, phone, "pol-001", name);
    SplitPair("pol-001", p.inherited[name], ':');
    hide Handled, Split, OPTIONS;
    PairConfirmed(p, id, phone, "pol-001", p.inherited[name]);
  }

  // ---------- known options ----------

  /** A name that a request's last part can be, other than the digits of the menu and the exit. */
  predicate Enterable(name: string) {
    name !in OPTIONS && name != [] && name != "#" && '*' !in name
  }

  /** The options that requests can select. */
  function Selectable(p: Platform): set<string> {
    OPTIONS.Values + set name | name in p.inherited && Enterable(name) :: p.inherited[name]
  }

  lemma {:induction false} PartsAreClean(s: string, sep: char)
    ensures forall part :: part in Split(s, sep) ==> sep !in part
  {
    if s != [] {
      PartsAreClean(s[1..], sep);
      var rest := Split(s[1..], sep);
      assert rest[0] in rest;
    }
  }

  lemma {:induction false} NonEmptyParts(parts: seq<string>)
    ensures forall part :: part in NonEmpty(parts) ==> part != [] && part in parts
  {
    if parts != [] {
      NonEmptyParts(parts[1..]);
    }
  }

  lemma EverythingSelects(p: Platform, text: string)
    ensures Selects(p, text, Selectable(p))
  {
    var split := Split(text, '*');
    var parts := NonEmpty(split);
    PartsAreClean(text, '*');
    NonEmptyParts(split);
    hide Split, NonEmpty;
    if parts != [] && parts[|parts| - 1] != "#" && p.OptionFor(parts[|parts| - 1]).Some? {
      var last := parts[|parts| - 1];
      assert last in parts;
      SelectedIsSelectable(p, last);
    }
  }

  lemma SelectedIsSelectable(p: Platform, last: string)
    requires last != [] && last != "#" && '*' !in last && p.OptionFor(last).Some?
    ensures p.OptionFor(last).value in Selectable(p)
  {
    if last in OPTIONS {
      assert OPTIONS[last] in OPTIONS.Values;
    }
  }

  /** The option that is recorded: what stands before the first colon. */
  function Head(option: string): string {
    Split(option, ':')[0]
  }

  ghost predicate KnownOnly(w: World) {
    forall v :: v in w.state.recorded ==> v.option in OPTIONS.Values
  }

  lemma KnownHeads(option: string)
    requires option in OPTIONS.Values
    ensures Head(option) == option
  {
    assert option == "option-support" || option == "option-oppose" || option == "option-abstain";
    hide Split;
    SplitWhole(option, ':');
  }

  lemma KnownWhenHeadsAre(p: Platform, steps: seq<Step>)
    requires Runs(p, START, steps)
    requires forall name :: name in p.inherited && Enterable(name) ==> Head(p.inherited[name]) in OPTIONS.Values
    ensures KnownOnly(After(p, START, steps))
  {
    forall s | s in steps && s.Request? ensures Selects(p, s.text, Selectable(p)) {
      EverythingSelects(p, s.text);
    }
    hide Runs, After, Selects, OPTIONS;
    RecordedAreListed(p, steps, Selectable(p));
    var w := After(p, START, steps);
    forall v | v in w.state.recorded ensures v.option in OPTIONS.Values {
      assert IsListed(v, Selectable(p));
      var option :| option in Selectable(p) && v.option == Split(option, ':')[0];
      if option in OPTIONS.Values { KnownHeads(option); }
    }
  }

  /** The run of three requests that records an inherited name. */
  function NameSteps(id: string, phone: string, name: string): seq<Step> {
    [Request(id, phone, "1"), Request(id, phone, name), Request(id, phone, "1")]
  }

  lemma NameStepsRun(p: Platform, id: string, phone: string, name: string)
    ensures var steps := NameSteps(id, phone, name);
      && Runs(p, START, steps)
      && After(p, START, steps).state ==
           Handled(p, Handled(p, Handled(p, EMPTY, id, phone, "1").state, id, phone, name).state, id, phone, "1").state
  {
    hide Handled;
    var a, b := Request(id, phone, "1"), Request(id, phone, name);
    assert [a, b, a][..2] == [a, b] && [a, b][..1] == [a] && [a][..0] == [];
    assert Runs(p, START, [a]) && After(p, START, [a]) == Next(p, START, a);
    assert Runs(p, START, [a, b]) && After(p, START, [a, b]) == Next(p, Next(p, START, a), b);
  }

  /**
   All runs record known options only, exactly if no inherited name that can be entered stands for another string
   before its first colon.
   */
  lemma KnownOptionsExactly(p: Platform)
    requires p.parse("1") == Some(1)
    ensures (forall steps :: Runs(p, START, steps) ==> KnownOnly(After(p, START, steps))) <==>
            (forall name :: name in p.inherited && Enterable(name) ==> Head(p.inherited[name]) in OPTIONS.Values)
  {
    if forall name :: name in p.inherited && Enterable(name) ==> Head(p.inherited[name]) in OPTIONS.Values {
      forall steps | Runs(p, START, steps) ensures KnownOnly(After(p, START, steps)) {
        KnownWhenHeadsAre(p, steps);
      }
    } else {
      var name :| name in p.inherited && Enterable(name) && Head(p.inherited[name]) !in OPTIONS.Values;
      hide Runs, After, Handled, OPTIONS;
      UnknownIsRecorded(p, name);
    }
  }

  lemma UnknownIsRecorded(p: Platform, name: string)
    requires p.parse("1") == Some(1) && name in p.inherited && Enterable(name)
    requires Head(p.inherited[name]) !in OPTIONS.Values
    ensures var steps := NameSteps("", "", name); Runs(p, START, steps) && !KnownOnly(After(p, START, steps))
  {
    NameStepsRun(p, "", "", name);
    InheritedNameIsRecorded(p, "", "", name);
    hide Runs, After, Handled, OPTIONS, Split;
    var w := After(p, START, NameSteps("", "", name));
    assert w.state.recorded[0].option == Head(p.inherited[name]);
    assert w.state.recorded[0] in w.state.recorded;
  }

  // ---------- menus ----------

  /** The policies on a menu page. */
  function Shown(offset: int): seq<string>
    requires 0 <= offset < |POLICIES|
  {
    POLICIES[offset..if offset + 3 < |POLICIES| then offset + 3 else |POLICIES|]
  }

  /** Answering the page of the session with a number on it chooses the policy shown under that number. */
  lemma ChoiceIsShown(p: Platform, s: State, id: string, phone: string, last: string, k: int)
    requires last != [] && '*' !in last && last != "#" && last != "0" && p.parse(last) == Some(k)
    requires s.SessionOf(id).policyId.None? && 0 <= s.SessionOf(id).policyIndex < |POLICIES|
    requires 1 <= k <= |Shown(s.SessionOf(id).policyIndex)|
    ensures var chosen := Handled(p, s, id, phone, last).state.SessionOf(id);
      chosen.step == 1 && chosen.policyId == Some(Shown(s.SessionOf(id).policyIndex)[k - 1])
  {
    hide Handled;
    OnePartChooses(p, s, id, phone, last);
  }

  lemma NoParts()
    ensures NonEmpty(Split("", '*')) == []
  {
  }

  /** The welcome shows the first page whatever page the session is on, so it describes the choice only there. */
  lemma WelcomeShowsFirstPage(p: Platform, s: State, id: string, phone: string)
    requires 0 <= s.SessionOf(id).policyIndex < |POLICIES|
    ensures var r := Handled(p, s, id, phone, "");
      && r.response == Menu(0) && r.state.SessionOf(id) == s.SessionOf(id)
      && (Shown(0) == Shown(r.state.SessionOf(id).policyIndex) <==> s.SessionOf(id).policyIndex == 0)
  {
    NoParts();
    hide Split, NonEmpty, ChoosePolicy, ChooseOption, ConfirmVote;
    assert Shown(0)[0] == "pol-001";
    assert forall i :: 0 < i < |POLICIES| ==> Shown(i)[0] == POLICIES[i] && POLICIES[i][6] != '1';
  }

  // ---------- one vote ----------

  ghost predicate DistinctVotes(p: Platform, votes: seq<Vote>) {
    forall i, j :: 0 <= i < j < |votes| ==> NullifierOf(p, votes[i]) != NullifierOf(p, votes[j])
  }

  /** The nullifier set holds the nullifiers of the recorded votes. */
  ghost predicate Accounted(p: Platform, s: State) {
    && (forall v :: v in s.recorded ==> NullifierOf(p, v) in s.nullifiers)
    && (forall n :: n in s.nullifiers ==> exists v :: v in s.recorded && NullifierOf(p, v) == n)
  }

  ghost predicate OpenFor(p: Platform, w: World, nullifier: string) {
    exists c :: c in w.open && NullifierOf(p, w.open[c].vote) == nullifier
  }

  /** No two confirmations for the same nullifier overlap. */
  ghost predicate Exclusive(p: Platform, w: World, step: Step)
    requires Enabled(p, w, step)
  {
    match step
    case Request(id, phone, text) =>
      var r := Handled(p, w.state, id, phone, text).response;
      r.Recorded? ==> !OpenFor(p, w, r.nullifier)
    case StartConfirm(_, id, phone) =>
      !OpenFor(p, w, NullifierOf(p, VoteOf(phone, w.state.SessionOf(id).policyId.value)))
    case _ => true
  }

  /** Open confirmations are for nullifiers not yet used, and for different ones. */
  ghost predicate OpenApart(p: Platform, w: World) {
    && (forall c :: c in w.open ==> NullifierOf(p, w.open[c].vote) !in w.state.nullifiers)
    && (forall c, d :: c in w.open && d in w.open && c != d ==>
          NullifierOf(p, w.open[c].vote) != NullifierOf(p, w.open[d].vote))
  }

  lemma RecordOne(p: Platform, s: State, id: string, vote: Vote)
    requires Accounted(p, s) && DistinctVotes(p, s.recorded)
    ensures Accounted(p, Record(p, s, id, vote))
    ensures DistinctVotes(p, Record(p, s, id, vote).recorded) <==> NullifierOf(p, vote) !in s.nullifiers
  {
    var s' := Record(p, s, id, vote);
    hide Platform.Nullifier;
    forall n | n in s'.nullifiers ensures exists v :: v in s'.recorded && NullifierOf(p, v) == n {
      if n in s.nullifiers {
        var v :| v in s.recorded && NullifierOf(p, v) == n;
        assert v in s'.recorded;
      } else {
        assert vote in s'.recorded;
      }
    }
    if NullifierOf(p, vote) in s.nullifiers {
      var v :| v in s.recorded && NullifierOf(p, v) == NullifierOf(p, vote);
      var i :| 0 <= i < |s.recorded| && s.recorded[i] == v;
      assert s'.recorded[i] == v && s'.recorded[|s.recorded|] == vote;
    }
  }

  /** A step records a second vote for a nullifier exactly if it finishes a confirmation that was overtaken. */
  lemma StepKeepsDistinctExactly(p: Platform, w: World, step: Step)
    requires Enabled(p, w, step) && Accounted(p, w.state) && DistinctVotes(p, w.state.recorded)
    ensures Accounted(p, Next(p, w, step).state)
    ensures DistinctVotes(p, Next(p, w, step).state.recorded) <==>
      !(step.FinishConfirm? && NullifierOf(p, w.open[step.call].vote) in w.state.nullifiers)
  {
    if step.Request? {
      HandledRecords(p, w.state, step.id, step.phone, step.text);
      var session := w.state.SessionOf(step.id);
      hide Handled, VoteOf, NullifierOf, DistinctVotes;
      if Handled(p, w.state, step.id, step.phone, step.text).response.Recorded? {
        RecordOne(p, Save(w.state, step.id, session), step.id, VoteOf(step.phone, session.policyId.value));
      }
    } else if step.FinishConfirm? {
      hide NullifierOf, DistinctVotes, Accounted;
      RecordOne(p, w.state, w.open[step.call].id, w.open[step.call].vote);
    } else {
      hide NullifierOf, VoteOf, DistinctVotes;
    }
  }

  lemma StepStaysApart(p: Platform, w: World, step: Step)
    requires Enabled(p, w, step) && Exclusive(p, w, step) && OpenApart(p, w)
    ensures OpenApart(p, Next(p, w, step))
  {
    if step.Request? {
      HandledRecords(p, w.state, step.id, step.phone, step.text);
    }
    hide Handled, VoteOf, Platform.Nullifier;
  }

  ghost predicate AlwaysExclusive(p: Platform, w: World, steps: seq<Step>)
    requires Runs(p, w, steps)
  {
    steps == [] ||
    (AlwaysExclusive(p, w, steps[..|steps| - 1])
     && Exclusive(p, After(p, w, steps[..|steps| - 1]), steps[|steps| - 1]))
  }

  /** While confirmations of the same nullifier do not overlap, no nullifier gets a second recorded vote. */
  lemma {:induction false} ExclusiveRunsVoteOnce(p: Platform, steps: seq<Step>)
    requires Runs(p, START, steps) && AlwaysExclusive(p, START, steps)
    ensures var w := After(p, START, steps);
      Accounted(p, w.state) && DistinctVotes(p, w.state.recorded) && OpenApart(p, w)
  {
    if steps != [] {
      ExclusiveRunsVoteOnce(p, steps[..|steps| - 1]);
      var w, step := After(p, START, steps[..|steps| - 1]), steps[|steps| - 1];
      assert step.FinishConfirm? ==> NullifierOf(p, w.open[step.call].vote) !in w.state.nullifiers;
      hide Next, Exclusive, OpenApart, Accounted, DistinctVotes, NullifierOf;
      StepKeepsDistinctExactly(p, w, step);
      StepStaysApart(p, w, step);
    }
  }

  lemma {:induction false} AtomicRunsAreExclusive(p: Platform, steps: seq<Step>)
    requires Runs(p, START, steps) && forall s :: s in steps ==> !s.StartConfirm?
    ensures AlwaysExclusive(p, START, steps) && After(p, START, steps).open == map[]
  {
    if steps != [] {
      AtomicRunsAreExclusive(p, steps[..|steps| - 1]);
      hide Handled, NullifierOf, VoteOf;
    }
  }

  /** With requests handled one at a time, each phone gets one recorded vote per policy, and so does each nullifier. */
  lemma OneVotePerPhoneAndPolicy(p: Platform, steps: seq<Step>)
    requires Runs(p, START, steps) && forall s :: s in steps ==> !s.StartConfirm?
    ensures DistinctVotes(p, After(p, START, steps).state.recorded)
    ensures var votes := After(p, START, steps).state.recorded;
      forall i, j :: 0 <= i < j < |votes| ==> votes[i].phone != votes[j].phone || votes[i].policy != votes[j].policy
  {
    AtomicRunsAreExclusive(p, steps);
    ExclusiveRunsVoteOnce(p, steps);
    hide Platform.Nullifier, After, Runs;
  }

  // ---------- two confirmations at once ----------

  /** Two interleaved confirmations of one phone and policy are both recorded, even from the same session. */
  lemma OverlappingConfirmationsBothCount(p: Platform, w: World, a: string, b: string, phone: string)
    requires 0 !in w.open && 1 !in w.open
    requires Enabled(p, w, StartConfirm(0, a, phone)) && Enabled(p, w, StartConfirm(1, b, phone))
    requires VoteOf(phone, w.state.SessionOf(a).policyId.value).policy ==
             VoteOf(phone, w.state.SessionOf(b).policyId.value).policy
    ensures var w1 := Next(p, w, StartConfirm(0, a, phone));
      Enabled(p, w1, StartConfirm(1, b, phone)) &&
      var w2 := Next(p, w1, StartConfirm(1, b, phone));
      Enabled(p, w2, FinishConfirm(0)) && Enabled(p, Next(p, w2, FinishConfirm(0)), FinishConfirm(1)) &&
      !DistinctVotes(p, Next(p, Next(p, w2, FinishConfirm(0)), FinishConfirm(1)).state.recorded)
  {
    hide VoteOf, Platform.Nullifier;
    var w2 := Next(p, Next(p, w, StartConfirm(0, a, phone)), StartConfirm(1, b, phone));
    var votes := Next(p, Next(p, w2, FinishConfirm(0)), FinishConfirm(1)).state.recorded;
    var n := |w.state.recorded|;
    assert votes[n].policy == votes[n + 1].policy && votes[n].phone == votes[n + 1].phone by {
      assert forall policyId :: VoteOf(phone, policyId).phone == phone by { VotePhone(phone); }
    }
    assert NullifierOf(p, votes[n]) == NullifierOf(p, votes[n + 1]);
  }

  lemma VotePhone(phone: string)
    ensures forall policyId :: VoteOf(phone, policyId).phone == phone
  {
  }

  // ---------- nullifiers ----------

  /** Different phones or listed policies hash different strings: the concatenation loses nothing. */
  lemma NullifierInputInjective(p: Platform, phone1: string, policy1: string, phone2: string, policy2: string)
    requires policy1 in POLICIES && policy2 in POLICIES
    requires phone1 + policy1 + p.salt == phone2 + policy2 + p.salt
    ensures phone1 == phone2 && policy1 == policy2
  {
    PolicyHasNoColon(policy1);
    PolicyHasNoColon(policy2);
    hide POLICIES;
    var a, b := phone1 + policy1 + p.salt, phone2 + policy2 + p.salt;
    assert a[..|phone1|] == phone1 && b[..|phone2|] == phone2;
    assert a[|phone1|..|phone1| + 7] == policy1 && b[|phone2|..|phone2| + 7] == policy2;
  }

  /** A phone told that it has already voted on a listed policy has done so, or two hash inputs collide. */
  lemma RejectionMeansVoteOrCollision(p: Platform, s: State, vote: Vote)
    requires Accounted(p, s) && vote.policy in POLICIES && NullifierOf(p, vote) in s.nullifiers
    requires forall v :: v in s.recorded ==> v.policy in POLICIES
    ensures exists v :: (
      && v in s.recorded && p.hash(v.phone + v.policy + p.salt) == p.hash(vote.phone + vote.policy + p.salt)
      && ((v.phone == vote.phone && v.policy == vote.policy)
          || v.phone + v.policy + p.salt != vote.phone + vote.policy + p.salt))
  {
    var v :| v in s.recorded && NullifierOf(p, v) == NullifierOf(p, vote);
    assert NullifierOf(p, v)[2..] == NullifierOf(p, vote)[2..];
    if v.phone + v.policy + p.salt == vote.phone + vote.policy + p.salt {
      NullifierInputInjective(p, v.phone, v.policy, vote.phone, vote.policy);
    }
  }
}
