/**
 backend/src/middleware/rateLimitRedis.ts: a sliding window kept as a Redis sorted set that is evicted on every
 request and expires on its own. Rejected requests are recorded too.
 */
module RateLimit {

  type Member = nat

  /** A sorted set with scores, and the time at which Redis drops the whole key. */
  datatype Window = Window(scores: map<Member, int>, expiresAt: int)

  const NO_KEY := Window(map[], 0)

  datatype Request = Request(now: int, member: Member, limit: int)

  // ---------- one request ----------

  function Live(s: Window, now: int): map<Member, int> {
    if now < s.expiresAt then s.scores else map[]
  }

  /** ZREMRANGEBYSCORE from -inf to start removes start itself too. */
  function Evicted(scores: map<Member, int>, start: int): map<Member, int> {
    map k | k in scores && scores[k] > start :: scores[k]
  }

  function Count(s: Window, windowMs: int, now: int): nat {
    |Evicted(Live(s, now), now - windowMs)|
  }

  function After(s: Window, windowMs: int, r: Request): Window {
    Window(Evicted(Live(s, r.now), r.now - windowMs)[r.member := r.now], r.now + windowMs)
  }

  /** A request that Redis cannot judge is let through. */
  datatype Verdict = Judged(accepted: bool, remaining: int) | FailedOpen

  function Max(a: int, b: int): int {
    if a < b then b else a
  }

  /** What X-RateLimit-Remaining tells the client of a request. */
  function Remaining(s: Window, windowMs: int, r: Request): int {
    Max(0, r.limit - Count(s, windowMs, r.now) - 1)
  }

  /** The country's own limit if it has one. */
  function LimitFor(countryOverrides: map<string, int>, limit: int, country: string): int {
    if country in countryOverrides then countryOverrides[country] else limit
  }

  class RedisRateLimit {
    const windowMs: int
    const limit: int
    const countryOverrides: map<string, int>
    var windows: map<string, Window>

    constructor (windowMs: int, limit: int, countryOverrides: map<string, int>)
      ensures this.windowMs == windowMs && this.limit == limit && this.countryOverrides == countryOverrides
      ensures windows == map[]
    {
      this.windowMs, this.limit, this.countryOverrides, windows := windowMs, limit, countryOverrides, map[];
    }

    function At(key: string): Window
      reads this
    {
      if key in windows then windows[key] else NO_KEY
    }

    function RequestOf(country: string, now: int, member: Member): Request {
      Request(now, member, LimitFor(countryOverrides, limit, country))
    }

    /** The four commands run as one pipeline; the count is taken before the request is recorded. */
    method Handle(key: string, country: string, now: int, member: Member, redisUp: bool) returns (verdict: Verdict)
      modifies this
      ensures verdict.FailedOpen? <==> !redisUp
      ensures verdict.Judged? ==>
        && var r := RequestOf(country, now, member);
        && (verdict.accepted <==> Count(old(At(key)), windowMs, now) < r.limit)
        && verdict.remaining == Remaining(old(At(key)), windowMs, r)
      ensures windows ==
        if !redisUp then old(windows)
        else old(windows)[key := After(old(At(key)), windowMs, RequestOf(country, now, member))]
    {
      var effectiveLimit := if country in countryOverrides then countryOverrides[country] else limit;
      if !redisUp { return FailedOpen; }
      var scores := Evicted(Live(At(key), now), now - windowMs);
      var count := |scores|;
      windows := windows[key := Window(scores[member := now], now + windowMs)];
      verdict := Judged(count < effectiveLimit, Max(0, effectiveLimit - count - 1));
    }
  }

  // ---------- the requests of one key that Redis judges ----------

  function Run(windowMs: int, rs: seq<Request>): Window {
    if rs == [] then NO_KEY else After(Run(windowMs, rs[..|rs| - 1]), windowMs, rs[|rs| - 1])
  }

  /** The last request of rs is let through. */
  predicate Accepted(windowMs: int, rs: seq<Request>)
    requires rs != []
  {
    Count(Run(windowMs, rs[..|rs| - 1]), windowMs, rs[|rs| - 1].now) < rs[|rs| - 1].limit
  }

  /** The clock does not go back and the random members do not collide. */
  predicate Orderly(rs: seq<Request>) {
    forall i, j :: 0 <= i < j < |rs| ==> rs[i].now <= rs[j].now && rs[i].member != rs[j].member
  }

  /** The slow form: how many of all requests so far, accepted or not, came after start. */
  function Since(rs: seq<Request>, start: int): nat {
    if rs == [] then 0 else Since(rs[..|rs| - 1], start) + if rs[|rs| - 1].now > start then 1 else 0
  }

  /** The whole history as a sorted set, restricted to the requests after start. */
  function Kept(rs: seq<Request>, start: int): map<Member, int> {
    if rs == [] then map[] else
      var kept, last := Kept(rs[..|rs| - 1], start), rs[|rs| - 1];
      if last.now > start then kept[last.member := last.now] else kept
  }

  /** How many requests of the half-open interval from t of the window's length were let through. */
  function AcceptedIn(windowMs: int, rs: seq<Request>, t: int): nat {
    if rs == [] then 0 else
      AcceptedIn(windowMs, rs[..|rs| - 1], t) +
      if t <= rs[|rs| - 1].now < t + windowMs && Accepted(windowMs, rs) then 1 else 0
  }

  // ---------- the sorted set against the history ----------

  lemma {:induction false} KeptComesFrom(rs: seq<Request>, start: int)
    requires Orderly(rs)
    ensures forall k :: k in Kept(rs, start) ==>
      (start < Kept(rs, start)[k] && exists i :: 0 <= i < |rs| && rs[i].member == k)
    ensures |Kept(rs, start)| == Since(rs, start)
  {
    if rs != [] {
      var init, last := rs[..|rs| - 1], rs[|rs| - 1];
      KeptComesFrom(init, start);
      assert last.member !in Kept(init, start);
      forall k | k in Kept(rs, start) ensures exists i :: 0 <= i < |rs| && rs[i].member == k {
        if k == last.member {
          assert rs[|rs| - 1].member == k;
        } else {
          var i :| 0 <= i < |init| && init[i].member == k;
          assert rs[i].member == k;
        }
      }
    }
  }

  lemma {:induction false} EvictKept(rs: seq<Request>, start: int, later: int)
    requires Orderly(rs) && start <= later
    ensures Evicted(Kept(rs, start), later) == Kept(rs, later)
  {
    if rs != [] {
      var init, last := rs[..|rs| - 1], rs[|rs| - 1];
      EvictKept(init, start, later);
      KeptComesFrom(init, start);
      assert last.member !in Kept(init, start);
    }
  }

  lemma {:induction false} NothingKept(rs: seq<Request>, start: int)
    requires forall r :: r in rs ==> r.now <= start
    ensures Kept(rs, start) == map[]
  {
    if rs != [] {
      NothingKept(rs[..|rs| - 1], start);
    }
  }

  lemma OrderlyPrefix(rs: seq<Request>)
    requires Orderly(rs) && rs != []
    ensures Orderly(rs[..|rs| - 1])
    ensures forall r :: r in rs[..|rs| - 1] ==> r.now <= rs[|rs| - 1].now
  {
    var init := rs[..|rs| - 1];
    forall r | r in init ensures r.now <= rs[|rs| - 1].now {
      var i :| 0 <= i < |init| && init[i] == r;
      assert rs[i] == r;
    }
  }

  /** What the next request finds, from what this one found. */
  lemma NextView(s: Window, windowMs: int, r: Request, now: int)
    requires r.now <= now
    ensures var found := Evicted(Live(s, r.now), r.now - windowMs);
      Evicted(Live(After(s, windowMs, r), now), now - windowMs) ==
      if now < r.now + windowMs then Evicted(found, now - windowMs)[r.member := r.now] else map[]
  {
  }

  /** What a later request finds after evicting is what a full history would show it. */
  lemma {:induction false} ViewIsHistory(windowMs: int, rs: seq<Request>, now: int)
    requires Orderly(rs) && forall r :: r in rs ==> r.now <= now
    ensures Evicted(Live(Run(windowMs, rs), now), now - windowMs) == Kept(rs, now - windowMs)
  {
    hide Evicted, Live, After;
    if rs == [] {
      NothingLive(now, now - windowMs);
    } else {
      var init, last := rs[..|rs| - 1], rs[|rs| - 1];
      OrderlyPrefix(rs);
      ViewIsHistory(windowMs, init, last.now);
      NextView(Run(windowMs, init), windowMs, last, now);
      hide Orderly, Run;
      if now < last.now + windowMs {
        EvictKept(init, last.now - windowMs, now - windowMs);
      } else {
        NothingKept(rs, now - windowMs);
      }
    }
  }

  lemma NothingLive(now: int, start: int)
    ensures Evicted(Live(NO_KEY, now), start) == map[]
  {
  }

  /** The evicted, expiring set counts what filtering the full history counts, so it decides the same. */
  lemma LimiterCountsHistory(windowMs: int, rs: seq<Request>)
    requires Orderly(rs) && rs != []
    ensures var init, last := rs[..|rs| - 1], rs[|rs| - 1];
      Accepted(windowMs, rs) <==> Since(init, last.now - windowMs) < last.limit
  {
    hide Orderly, Evicted, Live, Run, Kept, Since;
    var init, last := rs[..|rs| - 1], rs[|rs| - 1];
    OrderlyPrefix(rs);
    ViewIsHistory(windowMs, init, last.now);
    KeptComesFrom(init, last.now - windowMs);
  }

  // ---------- the bound ----------

  lemma {:induction false} AcceptedAreRecent(windowMs: int, rs: seq<Request>, t: int, now: int)
    requires now < t + windowMs
    ensures AcceptedIn(windowMs, rs, t) <= Since(rs, now - windowMs)
  {
    if rs != [] {
      AcceptedAreRecent(windowMs, rs[..|rs| - 1], t, now);
    }
  }

  /** In every half-open interval of the window's length at most limit requests are let through. */
  lemma {:induction false} WindowBound(windowMs: int, rs: seq<Request>, t: int, limit: nat)
    requires Orderly(rs) && forall r :: r in rs ==> r.limit <= limit
    ensures AcceptedIn(windowMs, rs, t) <= limit
  {
    if rs != [] {
      var init, last := rs[..|rs| - 1], rs[|rs| - 1];
      WindowBound(windowMs, init, t, limit);
      if t <= last.now < t + windowMs {
        AcceptedAreRecent(windowMs, init, t, last.now);
        LimiterCountsHistory(windowMs, rs);
      }
    }
  }

  // ---------- who is let through ----------

  lemma {:induction false} SinceIsSuffix(rs: seq<Request>, start: int, limit: nat)
    requires Orderly(rs) && 0 < limit
    ensures Since(rs, start) < limit <==> |rs| < limit || rs[|rs| - limit].now <= start
  {
    if rs == [] {
    } else {
      var init, last := rs[..|rs| - 1], rs[|rs| - 1];
      OrderlyPrefix(rs);
      if last.now <= start {
        NoneSince(init, start);
        assert |rs| >= limit ==> rs[|rs| - limit].now <= last.now;
      } else if limit > 1 {
        SinceIsSuffix(init, start, limit - 1);
      }
    }
  }

  lemma {:induction false} NoneSince(rs: seq<Request>, start: int)
    requires forall r :: r in rs ==> r.now <= start
    ensures Since(rs, start) == 0
  {
    if rs != [] {
      NoneSince(rs[..|rs| - 1], start);
    }
  }

  /**
   A request is let through exactly if the one that came limit requests before it, let through or not, is at
   least a whole window old: a client that keeps asking stays locked out.
   */
  lemma AcceptedExactly(windowMs: int, rs: seq<Request>)
    requires Orderly(rs) && rs != []
    ensures var last := rs[|rs| - 1];
      Accepted(windowMs, rs) <==>
        last.limit > 0 && (|rs| <= last.limit || rs[|rs| - 1 - last.limit].now <= last.now - windowMs)
  {
    LimiterCountsHistory(windowMs, rs);
    OrderlyPrefix(rs);
    hide Orderly, Accepted, Since;
    if rs[|rs| - 1].limit > 0 {
      SinceIsSuffix(rs[..|rs| - 1], rs[|rs| - 1].now - windowMs, rs[|rs| - 1].limit);
    }
  }

  // ---------- what the client is told ----------

  /** More requests at the very same instant are let through exactly as long as the client was told they would be. */
  lemma RemainingIsExact(windowMs: int, rs: seq<Request>, more: seq<Request>)
    requires 0 < windowMs && rs != [] && more != [] && Orderly(rs + more)
    requires forall r :: r in more ==> r.now == rs[|rs| - 1].now && r.limit == rs[|rs| - 1].limit
    ensures Accepted(windowMs, rs + more) <==>
      |more| <= Remaining(Run(windowMs, rs[..|rs| - 1]), windowMs, rs[|rs| - 1])
  {
    var n, now := |more| - 1, rs[|rs| - 1].now;
    var earlier := more[..n];
    assert (rs + more)[..|rs + more| - 1] == rs + earlier;
    hide Run, Orderly, Accepted, Count;
    OrderlyPart(rs, more);
    LimiterCountsHistory(windowMs, rs + more);
    SinceAdds(rs, earlier, now - windowMs);
    HistoryCounted(windowMs, rs);
    assert Since(rs, now - windowMs) == Since(rs[..|rs| - 1], now - windowMs) + 1;
  }

  lemma OrderlyPart(rs: seq<Request>, more: seq<Request>)
    requires Orderly(rs + more)
    ensures Orderly(rs)
  {
    forall i, j | 0 <= i < j < |rs| ensures rs[i].now <= rs[j].now && rs[i].member != rs[j].member {
      assert (rs + more)[i] == rs[i] && (rs + more)[j] == rs[j];
    }
  }

  lemma HistoryCounted(windowMs: int, rs: seq<Request>)
    requires rs != [] && Orderly(rs)
    ensures Count(Run(windowMs, rs[..|rs| - 1]), windowMs, rs[|rs| - 1].now) ==
      Since(rs[..|rs| - 1], rs[|rs| - 1].now - windowMs)
  {
    hide Run, Evicted, Live, Orderly;
    OrderlyPrefix(rs);
    ViewIsHistory(windowMs, rs[..|rs| - 1], rs[|rs| - 1].now);
    KeptComesFrom(rs[..|rs| - 1], rs[|rs| - 1].now - windowMs);
  }

  lemma {:induction false} SinceAdds(rs: seq<Request>, more: seq<Request>, start: int)
    requires forall r :: r in more ==> r.now > start
    ensures Since(rs + more, start) == Since(rs, start) + |more|
    decreases |more|
  {
    if more == [] {
      assert rs + more == rs;
    } else {
      SinceAdds(rs, more[..|more| - 1], start);
      assert (rs + more)[..|rs + more| - 1] == rs + more[..|more| - 1];
      assert more[|more| - 1] in more;
    }
  }

  // ---------- limits by country ----------

  /** How many requests of the interval were let through with a limit of at most the given one. */
  function AcceptedUnder(windowMs: int, rs: seq<Request>, t: int, limit: int): nat {
    if rs == [] then 0 else
      var init, last := rs[..|rs| - 1], rs[|rs| - 1];
      AcceptedUnder(windowMs, init, t, limit) +
      if t <= last.now < t + windowMs && last.limit <= limit && Accepted(windowMs, rs) then 1 else 0
  }

  lemma {:induction false} AcceptedUnderAreRecent(windowMs: int, rs: seq<Request>, t: int, limit: int, now: int)
    requires now < t + windowMs
    ensures AcceptedUnder(windowMs, rs, t, limit) <= Since(rs, now - windowMs)
  {
    if rs != [] {
      AcceptedUnderAreRecent(windowMs, rs[..|rs| - 1], t, limit, now);
    }
  }

  /** Requests under a stricter limit keep to it, however many others of the same client are let through. */
  lemma {:induction false} StricterBound(windowMs: int, rs: seq<Request>, t: int, limit: nat)
    requires Orderly(rs)
    ensures AcceptedUnder(windowMs, rs, t, limit) <= limit
  {
    if rs != [] {
      var init, last := rs[..|rs| - 1], rs[|rs| - 1];
      StricterBound(windowMs, init, t, limit);
      if t <= last.now < t + windowMs {
        AcceptedUnderAreRecent(windowMs, init, t, limit, last.now);
        LimiterCountsHistory(windowMs, rs);
      }
    }
  }

  /** A vote request of one client: when, its random member, and the country its header claims, in upper case. */
  datatype VoteRequest = VoteRequest(now: int, member: Member, country: string)

  const VOTE_WINDOW := 60_000
  const VOTE_LIMIT := 5
  const VOTE_OVERRIDES: map<string, int> := map["NG" := 3, "IN" := 3]

  /** The requests as voteLimiter judges them. */
  function VoteRequests(vs: seq<VoteRequest>): (rs: seq<Request>)
    ensures |rs| == |vs|
  {
    if vs == [] then [] else
      var v := vs[|vs| - 1];
      VoteRequests(vs[..|vs| - 1]) + [Request(v.now, v.member, LimitFor(VOTE_OVERRIDES, VOTE_LIMIT, v.country))]
  }

  predicate VotesOrderly(vs: seq<VoteRequest>) {
    forall i, j :: 0 <= i < j < |vs| ==> vs[i].now <= vs[j].now && vs[i].member != vs[j].member
  }

  lemma {:induction false} VoteRequestAt(vs: seq<VoteRequest>, i: nat)
    requires i < |vs|
    ensures VoteRequests(vs)[i] == Request(vs[i].now, vs[i].member,
                                           if vs[i].country == "NG" || vs[i].country == "IN" then 3 else 5)
  {
    if i < |vs| - 1 {
      VoteRequestAt(vs[..|vs| - 1], i);
    }
  }

  /** Votes let through in the minute from t on. */
  function VotesAccepted(vs: seq<VoteRequest>, t: int): nat {
    AcceptedIn(VOTE_WINDOW, VoteRequests(vs), t)
  }

  /** Those among them that claim to come from Nigeria or India. */
  function StrictVotesAccepted(vs: seq<VoteRequest>, t: int): nat {
    if vs == [] then 0 else
      var init, last := vs[..|vs| - 1], vs[|vs| - 1];
      StrictVotesAccepted(init, t) +
      if t <= last.now < t + 60_000 && (last.country == "NG" || last.country == "IN")
         && Accepted(VOTE_WINDOW, VoteRequests(vs)) then 1 else 0
  }

  lemma VoteRequestsOrderly(vs: seq<VoteRequest>)
    requires VotesOrderly(vs)
    ensures Orderly(VoteRequests(vs)) && forall r :: r in VoteRequests(vs) ==> r.limit <= 5
  {
    hide VoteRequests;
    forall i | 0 <= i < |vs| ensures VoteRequests(vs)[i].now == vs[i].now && VoteRequests(vs)[i].member == vs[i].member
                                     && VoteRequests(vs)[i].limit <= 5 {
      VoteRequestAt(vs, i);
    }
  }

  lemma {:induction false} StrictVotesAreUnderThree(vs: seq<VoteRequest>, t: int)
    ensures StrictVotesAccepted(vs, t) == AcceptedUnder(VOTE_WINDOW, VoteRequests(vs), t, 3)
  {
    if vs != [] {
      StrictVotesAreUnderThree(vs[..|vs| - 1], t);
      VoteRequestAt(vs, |vs| - 1);
      assert VoteRequests(vs)[..|vs| - 1] == VoteRequests(vs[..|vs| - 1]);
      hide Accepted, LimitFor;
    }
  }

  /** At most five votes a minute from one client, and at most three of them claiming one of the two countries. */
  lemma VoteLimiterBounds(vs: seq<VoteRequest>, t: int)
    requires VotesOrderly(vs)
    ensures VotesAccepted(vs, t) <= 5 && StrictVotesAccepted(vs, t) <= 3
  {
    VoteRequestsOrderly(vs);
    StrictVotesAreUnderThree(vs, t);
    WindowBound(VOTE_WINDOW, VoteRequests(vs), t, 5);
    StricterBound(VOTE_WINDOW, VoteRequests(vs), t, 3);
  }

  /** A vote is let through exactly if its third or fifth predecessor, by its country, is a minute old or missing. */
  lemma VoteAcceptedExactly(vs: seq<VoteRequest>)
    requires VotesOrderly(vs) && vs != []
    ensures var n, last := |vs| - 1, vs[|vs| - 1];
      var limit := if last.country == "NG" || last.country == "IN" then 3 else 5;
      Accepted(VOTE_WINDOW, VoteRequests(vs)) <==> n < limit || last.now - vs[n - limit].now >= 60_000
  {
    hide VoteRequests, Accepted, VotesOrderly;
    VoteRequestsOrderly(vs);
    var n := |vs| - 1;
    VoteRequestAt(vs, n);
    var limit := VoteRequests(vs)[n].limit;
    if n >= limit { VoteRequestAt(vs, n - limit); }
    AcceptedExactly(VOTE_WINDOW, VoteRequests(vs));
  }
}
