/**
 What the keys of a phone do: which option each of them records, how the pages turn, and that nothing is recorded
 without a confirmation.
 */
module UssdVotes {
  import opened Ussd

  // ---------- the text of a request ----------

  /** The part that decides: the gateway sends everything entered in a session, with stars in between. */
  function LastPart(text: string): Option<string> {
    var parts := NonEmpty(Split(text, '*'));
    if parts == [] then None else Some(parts[|parts| - 1])
  }

  lemma {:induction false} SplitAppends(s: string, last: string, sep: char)
    requires sep !in last
    ensures Split(s + [sep] + last, sep) == Split(s, sep) + [last]
  {
    if s == [] {
      SplitPair([], last, sep);
      SplitWhole(last, sep);
    } else {
      SplitAppends(s[1..], last, sep);
      assert (s + [sep] + last)[1..] == s[1..] + [sep] + last;
    }
  }

  lemma {:induction false} NonEmptyAppends(parts: seq<string>, last: string)
    requires last != []
    ensures NonEmpty(parts + [last]) == NonEmpty(parts) + [last]
  {
    if parts == [] {
      assert [last][1..] == [] && parts + [last] == [last];
    } else {
      NonEmptyAppends(parts[1..], last);
      assert (parts + [last])[1..] == parts[1..] + [last];
    }
  }

  /** Whatever was entered before, the part entered last decides. */
  lemma LastEnteredDecides(before: string, last: string)
    requires last != [] && '*' !in last
    ensures LastPart(last) == Some(last) && LastPart(before + "*" + last) == Some(last)
  {
    OnePart(last);
    SplitAppends(before, last, '*');
    NonEmptyAppends(Split(before, '*'), last);
    hide Split, NonEmpty;
  }

  // ---------- the three steps of a session ----------

  lemma SaveTwice(s: State, id: string, a: Session, b: Session)
    ensures Save(Save(s, id, a), id, b) == Save(s, id, b)
  {
  }

  lemma PolicyStep(p: Platform, s: State, id: string, phone: string, text: string)
    requires LastPart(text).Some? && LastPart(text).value != "#" && s.SessionOf(id).policyId.None?
    ensures var session := s.SessionOf(id);
      Handled(p, s, id, phone, text) == ChoosePolicy(p, Save(s, id, session), id, session, LastPart(text).value)
  {
    hide Split, NonEmpty, ChoosePolicy, ChooseOption, ConfirmVote;
  }

  lemma PolicyEntered(p: Platform, s: State, id: string, phone: string, text: string, k: int)
    requires LastPart(text).Some? && LastPart(text).value !in ["0", "#"] && p.parse(LastPart(text).value) == Some(k)
    requires s.SessionOf(id).policyId.None? && 0 <= s.SessionOf(id).policyIndex < |POLICIES|
    requires 1 <= k <= |Shown(s.SessionOf(id).policyIndex)|
    ensures var r, page := Handled(p, s, id, phone, text), s.SessionOf(id).policyIndex;
      && r.response == Options(page + k - 1) && POLICIES[page + k - 1] == Shown(page)[k - 1]
      && r.state == Save(s, id, Session(1, page, Some(Shown(page)[k - 1])))
  {
    hide Handled, LastPart, Save, State.SessionOf;
    PolicyStep(p, s, id, phone, text);
    var session := s.SessionOf(id);
    var page := session.policyIndex;
    SaveTwice(s, id, session, Session(1, page, Some(POLICIES[page + k - 1])));
  }

  /**
   A number chooses the policy that far from the start of the session's page, and that policy is on the page exactly
   if the number is: numbers that the page does not show can choose too. Anything else shows the page again and leaves
   the session as it is.
   */
  lemma PolicyChosenExactly(p: Platform, s: State, id: string, phone: string, text: string)
    requires LastPart(text).Some? && LastPart(text).value != "0" && LastPart(text).value != "#"
    requires s.SessionOf(id).policyId.None? && 0 <= s.SessionOf(id).policyIndex < |POLICIES|
    ensures var r, page := Handled(p, s, id, phone, text), s.SessionOf(id).policyIndex;
      var chosen, k := r.state.SessionOf(id), p.parse(LastPart(text).value);
      && (chosen.policyId.Some? <==> k.Some? && 0 <= page + k.value - 1 < |POLICIES|)
      && (if chosen.policyId.Some? then
            && r.response == Options(page + k.value - 1)
            && chosen.step == 1 && chosen.policyId == Some(POLICIES[page + k.value - 1])
            && (chosen.policyId.value in Shown(page) <==> 1 <= k.value <= |Shown(page)|)
          else r.response == InvalidChoice(page) && chosen == s.SessionOf(id))
  {
    PolicyStep(p, s, id, phone, text);
    var page := s.SessionOf(id).policyIndex;
    hide Handled, LastPart;
    forall j | 0 <= j < |POLICIES| ensures POLICIES[j] in Shown(page) <==> page <= j < page + |Shown(page)| {
      ShownExactly(page, j);
    }
  }

  lemma ShownExactly(page: nat, j: nat)
    requires page < |POLICIES| && j < |POLICIES|
    ensures POLICIES[j] in Shown(page) <==> page <= j < page + |Shown(page)|
  {
    assert forall i, k :: 0 <= i < k < |POLICIES| ==> POLICIES[i][6] != POLICIES[k][6];
    assert forall i :: 0 <= i < |Shown(page)| ==> Shown(page)[i] == POLICIES[page + i];
    if page <= j < page + |Shown(page)| {
      assert Shown(page)[j - page] == POLICIES[j];
    }
  }

  predicate IsKey(key: string) {
    key == "1" || key == "2" || key == "3"
  }

  /** The option that a key stands for on the menu "1. Support, 2. Oppose, 3. Abstain". */
  function Keyed(key: string): string
    requires IsKey(key)
  {
    if key == "1" then "option-support" else if key == "2" then "option-oppose" else "option-abstain"
  }

  lemma KeyIsOption(p: Platform, key: string)
    requires IsKey(key)
    ensures key != "#" && p.OptionFor(key) == Some(Keyed(key)) && ':' !in Keyed(key)
  {
  }

  lemma OptionEntered(p: Platform, s: State, id: string, phone: string, text: string, policy: string, key: string)
    requires LastPart(text) == Some(key) && IsKey(key) && policy in POLICIES
    requires s.SessionOf(id).step == 1 && s.SessionOf(id).policyId == Some(policy)
    ensures var r := Handled(p, s, id, phone, text);
      && r.response == Confirm(policy, Keyed(key))
      && r.state == Save(s, id, Session(2, s.SessionOf(id).policyIndex, Some(policy + ":" + Keyed(key))))
  {
    hide Handled, LastPart, POLICIES, OPTIONS, Platform.OptionFor, Keyed, ChooseOption, IsKey;
    KeyIsOption(p, key);
    PolicyHasNoColon(policy);
    OptionStep(p, s, id, phone, text, policy);
    OptionChosen(p, s, id, s.SessionOf(id), policy, key, Keyed(key));
  }

  lemma OptionChosen(
    p: Platform, s: State, id: string, session: Session, policy: string, key: string, option: string)
    requires p.OptionFor(key) == Some(option) && Split(policy, ':') == [policy]
    ensures var r := ChooseOption(p, Save(s, id, session), id, session, policy, key);
      && r.response == Confirm(policy, option)
      && r.state == Save(s, id, Session(2, session.policyIndex, Some(policy + ":" + option)))
  {
    hide Split, Platform.OptionFor, Save;
    SaveTwice(s, id, session, Session(2, session.policyIndex, Some(policy + ":" + option)));
  }

  /** At the option step a key moves the session on exactly if it stands for an option; any other is asked again. */
  lemma OptionChosenExactly(p: Platform, s: State, id: string, phone: string, text: string)
    requires LastPart(text).Some? && LastPart(text).value != "#"
    requires s.SessionOf(id).step == 1 && s.SessionOf(id).policyId.Some?
    ensures var r := Handled(p, s, id, phone, text);
      && id in r.state.sessions && r.state.recorded == s.recorded
      && (if p.OptionFor(LastPart(text).value).Some? then r.response.Confirm? && r.state.SessionOf(id).step == 2
          else r.response == InvalidOption && r.state.SessionOf(id) == s.SessionOf(id))
  {
    OptionStep(p, s, id, phone, text, s.SessionOf(id).policyId.value);
    hide Handled, LastPart, Platform.OptionFor, Split;
  }

  /** A request without input shows the first page and does nothing but renew the session, whatever its step. */
  lemma NoInputRenews(p: Platform, s: State, id: string, phone: string, text: string)
    requires LastPart(text).None?
    ensures Handled(p, s, id, phone, text) == Reply(Menu(0), s.(sessions := s.sessions[id := s.SessionOf(id)]))
  {
    hide Split, NonEmpty, ChoosePolicy, ChooseOption, ConfirmVote;
  }

  /** The exit forgets the session at every step and records nothing. */
  lemma ExitForgets(p: Platform, s: State, id: string, phone: string, text: string)
    requires LastPart(text) == Some("#")
    ensures Handled(p, s, id, phone, text) == Reply(Ended, s.(sessions := s.sessions - {id}))
  {
    hide Split, NonEmpty, ChoosePolicy, ChooseOption, ConfirmVote;
    assert Save(s, id, s.SessionOf(id)).sessions - {id} == s.sessions - {id};
  }

  lemma OptionStep(p: Platform, s: State, id: string, phone: string, text: string, policy: string)
    requires LastPart(text).Some? && LastPart(text).value != "#"
    requires s.SessionOf(id).step == 1 && s.SessionOf(id).policyId == Some(policy)
    ensures var session := s.SessionOf(id);
      Handled(p, s, id, phone, text) ==
      ChooseOption(p, Save(s, id, session), id, session, policy, LastPart(text).value)
  {
    hide Split, NonEmpty, ChoosePolicy, ChooseOption, ConfirmVote;
  }

  /** What the confirmation step does with each last part, and with none. */
  lemma ConfirmationExactly(p: Platform, s: State, id: string, phone: string, text: string)
    requires s.SessionOf(id).step == 2 && s.SessionOf(id).policyId.Some?
    ensures var r, vote := Handled(p, s, id, phone, text), VoteOf(phone, s.SessionOf(id).policyId.value);
      var unused := NullifierOf(p, vote) !in s.nullifiers;
      && r.response == (match LastPart(text)
                        case None => Menu(0)
                        case Some(last) =>
                          if last == "#" then Ended else if last != "1" then Cancelled
                          else if unused then Recorded(NullifierOf(p, vote)) else AlreadyVoted)
      && r.state.recorded == s.recorded + (if LastPart(text) == Some("1") && unused then [vote] else [])
      && (id in r.state.sessions <==> LastPart(text).None?)
  {
    hide Split, NonEmpty, Platform.Nullifier, VoteOf, ChoosePolicy, ChooseOption;
    VotePhone(phone);
    var session := s.SessionOf(id);
    if LastPart(text).Some? && LastPart(text).value != "#" {
      assert Handled(p, s, id, phone, text) ==
        ConfirmVote(p, Save(s, id, session), id, phone, session.policyId.value, LastPart(text).value);
    }
  }

  /** Nothing is recorded but by a confirmation: a key "1" in a session that stands at that step. */
  lemma OnlyConfirmationsRecord(p: Platform, s: State, id: string, phone: string, text: string)
    ensures Handled(p, s, id, phone, text).state.recorded != s.recorded ==>
      s.SessionOf(id).step == 2 && s.SessionOf(id).policyId.Some? && LastPart(text) == Some("1")
  {
    HandledRecords(p, s, id, phone, text);
    if s.SessionOf(id).step == 2 && s.SessionOf(id).policyId.Some? {
      ConfirmationExactly(p, s, id, phone, text);
    }
    hide Handled;
  }

  // ---------- what other sessions do meanwhile ----------

  /** No step concerns the session: the calls that are finished were started for others. */
  predicate Others(w: World, steps: seq<Step>, id: string) {
    && (forall s :: s in steps && !s.FinishConfirm? ==> s.id != id)
    && (forall c :: c in w.open ==> w.open[c].id != id)
  }

  lemma OneSessionPerRequest(p: Platform, s: State, id: string, phone: string, text: string, other: string)
    requires other != id
    ensures Handled(p, s, id, phone, text).state.SessionOf(other) == s.SessionOf(other)
  {
    hide Split, NonEmpty, VoteOf, Platform.Nullifier, Platform.OptionFor, POLICIES;
  }

  lemma {:induction false} OthersLeaveSession(p: Platform, w: World, steps: seq<Step>, id: string)
    requires Runs(p, w, steps) && Others(w, steps, id)
    ensures After(p, w, steps).state.SessionOf(id) == w.state.SessionOf(id)
    ensures forall c :: c in After(p, w, steps).open ==> After(p, w, steps).open[c].id != id
  {
    if steps != [] {
      var init, last := steps[..|steps| - 1], steps[|steps| - 1];
      OthersLeaveSession(p, w, init, id);
      assert last in steps;
      hide Handled, VoteOf;
      if last.Request? {
        OneSessionPerRequest(p, After(p, w, init).state, last.id, last.phone, last.text, id);
      }
    }
  }

  // ---------- a vote by three keys ----------

  /**
   A session shows a page and has chosen nothing. The phone enters the number of a policy on the page, then "1", "2"
   or "3", then "1", with any steps of other sessions in between. If its nullifier for the policy is unused by
   then, exactly the vote for that policy and for the option on that key is recorded.
   */
  lemma KeysRecordTheirOption(
    p: Platform, w: World, id: string, phone: string, k: int, key: string, a: Step, b: Step, c: Step,
    others1: seq<Step>, others2: seq<Step>)
    requires w.state.SessionOf(id).policyId.None? && 0 <= w.state.SessionOf(id).policyIndex < |POLICIES|
    requires a.Request? && b.Request? && c.Request? && a.id == b.id == c.id == id && c.phone == phone
    requires LastPart(a.text).Some? && LastPart(a.text).value !in ["0", "#"]
    requires p.parse(LastPart(a.text).value) == Some(k) && 1 <= k <= |Shown(w.state.SessionOf(id).policyIndex)|
    requires LastPart(b.text) == Some(key) && IsKey(key) && LastPart(c.text) == Some("1")
    requires Runs(p, Next(p, w, a), others1) && Others(Next(p, w, a), others1, id)
    requires var w2 := Next(p, After(p, Next(p, w, a), others1), b);
      && Runs(p, w2, others2) && Others(w2, others2, id)
      && p.Nullifier(phone, Shown(w.state.SessionOf(id).policyIndex)[k - 1]) !in After(p, w2, others2).state.nullifiers
    ensures var policy := Shown(w.state.SessionOf(id).policyIndex)[k - 1];
      var w3 := After(p, Next(p, After(p, Next(p, w, a), others1), b), others2);
      Next(p, w3, c).state.recorded == w3.state.recorded + [
        if key == "1" then Vote(phone, policy, "option-support")
        else if key == "2" then Vote(phone, policy, "option-oppose")
        else Vote(phone, policy, "option-abstain")]
  {
    hide Handled, Runs, After, Others, LastPart, VoteOf, Platform.Nullifier;
    var policy := Shown(w.state.SessionOf(id).policyIndex)[k - 1];
    var w1 := Next(p, w, a);
    PolicyEntered(p, w.state, id, a.phone, a.text, k);
    OthersLeaveSession(p, w1, others1, id);
    var w2 := Next(p, After(p, w1, others1), b);
    OptionEntered(p, After(p, w1, others1).state, id, b.phone, b.text, policy, key);
    OthersLeaveSession(p, w2, others2, id);
    var w3 := After(p, w2, others2);
    KeyIsOption(p, key);
    PairSplitsBack(phone, policy, Keyed(key));
    ConfirmationExactly(p, w3.state, id, phone, c.text);
  }

  // ---------- pages ----------

  lemma PageTurns(p: Platform, s: State, id: string, phone: string, text: string)
    requires LastPart(text) == Some("0") && s.SessionOf(id).policyId.None?
    ensures var r := Handled(p, s, id, phone, text);
      var page := (s.SessionOf(id).policyIndex + 3) % 5;
      r.response == Menu(page) && r.state == Save(s, id, s.SessionOf(id).(policyIndex := page))
  {
    hide Handled, LastPart, Save, State.SessionOf;
    PolicyStep(p, s, id, phone, text);
    var session := s.SessionOf(id);
    var paged := session.(policyIndex := (session.policyIndex + 3) % |POLICIES|);
    SaveTwice(s, id, session, paged);
  }

  /** The state after n requests of the session. */
  function Turned(p: Platform, s: State, id: string, phone: string, texts: nat -> string, n: nat): State {
    if n == 0 then s else Handled(p, Turned(p, s, id, phone, texts, n - 1), id, phone, texts(n - 1)).state
  }

  /** The page after n turns, three policies further each time. */
  function PageOf(n: nat): nat {
    if n == 0 then 0 else (PageOf(n - 1) + 3) % 5
  }

  lemma {:induction false} PageAfter(p: Platform, s: State, id: string, phone: string, texts: nat -> string, n: nat)
    requires (forall i: nat :: LastPart(texts(i)) == Some("0")) && s.SessionOf(id) == NEW_SESSION
    ensures Turned(p, s, id, phone, texts, n).SessionOf(id) == Session(0, PageOf(n), None)
  {
    if n > 0 {
      hide Handled, LastPart;
      PageAfter(p, s, id, phone, texts, n - 1);
      PageTurns(p, Turned(p, s, id, phone, texts, n - 1), id, phone, texts(n - 1));
    }
  }

  /** Five pages in a row are all different. */
  lemma FivePages()
    ensures PageOf(0) == 0 && PageOf(1) == 3 && PageOf(2) == 1 && PageOf(3) == 4 && PageOf(4) == 2
  {
    assert PageOf(1) == 3;
    assert PageOf(2) == 1;
    assert PageOf(3) == 4;
  }

  /** Every policy can be voted on: at most four turns bring it to the top of the page. */
  lemma EveryPolicyIsShown(p: Platform, s: State, id: string, phone: string, texts: nat -> string, policy: string)
    requires (forall i: nat :: LastPart(texts(i)) == Some("0")) && s.SessionOf(id) == NEW_SESSION && policy in POLICIES
    ensures exists n: nat {:trigger Turned(p, s, id, phone, texts, n)} :: (
      && n < 5 && 0 <= Turned(p, s, id, phone, texts, n).SessionOf(id).policyIndex < |POLICIES|
      && Shown(Turned(p, s, id, phone, texts, n).SessionOf(id).policyIndex)[0] == policy)
  {
    hide Turned, LastPart, State.SessionOf;
    var j :| 0 <= j < |POLICIES| && POLICIES[j] == policy;
    FivePages();
    var n := if j == 0 then 0 else if j == 3 then 1 else if j == 1 then 2 else if j == 4 then 3 else 4;
    PageAfter(p, s, id, phone, texts, n);
    assert Turned(p, s, id, phone, texts, n).SessionOf(id).policyIndex == j;
  }
}
