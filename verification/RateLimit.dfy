/** The ceiling on the application API: a counter per tier, subject and aligned minute. */
module RateLimit {
  import opened Common

  const WINDOW: int := 60_000
  const EXPIRY: int := 120_000

  datatype Tier = Expensive | Mutation | Read

  datatype Limits = Limits(expensive: nat, mutation: nat, read: nat)

  function LimitOf(limits: Limits, tier: Tier): nat {
    match tier
    case Expensive => limits.expensive
    case Mutation => limits.mutation
    case Read => limits.read
  }

  // ---- Which tier a route is in ----

  predicate StartsWith(s: string, prefix: string) { |prefix| <= |s| && s[..|prefix|] == prefix }

  predicate EndsWith(s: string, suffix: string) { |suffix| <= |s| && s[|s| - |suffix|..] == suffix }

  /** The URL up to its query. */
  function PathOf(url: string): string {
    if url == [] || url[0] == '?' then [] else [url[0]] + PathOf(url[1..])
  }

  /** Routes with limiters of their own, and health checks. */
  predicate Exempt(path: string) {
    StartsWith(path, "/v1/auth") || StartsWith(path, "/v1/federation") || StartsWith(path, "/health")
  }

  predicate IsExpensive(path: string) {
    || EndsWith(path, "/calculate") || EndsWith(path, "/recalculate") || EndsWith(path, "/preview")
    || EndsWith(path, "/files/uploads") || EndsWith(path, "/onboard") || EndsWith(path, "/export")
  }

  function TierOf(verb: string, path: string): Tier {
    if IsExpensive(path) then Expensive
    else if verb == "GET" || verb == "HEAD" || verb == "OPTIONS" then Read
    else Mutation
  }

  /** What is asked after the path has no say in the tier, nor in whether there is one. */
  lemma {:induction false} QueryIsIgnored(path: string, query: string)
    requires '?' !in path
    ensures PathOf(path + "?" + query) == path
  {
    if path == [] {
      assert (path + "?" + query)[0] == '?';
    } else {
      QueryIsIgnored(path[1..], query);
      assert (path + "?" + query)[1..] == path[1..] + "?" + query;
    }
  }

  /** A URL without a query is its path. */
  lemma {:induction false} PathWithoutQuery(path: string)
    requires '?' !in path
    ensures PathOf(path) == path
  {
    if path != [] { PathWithoutQuery(path[1..]); }
  }

  ghost predicate Begins(path: string, prefix: string) { exists rest :: path == prefix + rest }

  ghost predicate Ends(path: string, suffix: string) { exists rest :: path == rest + suffix }

  lemma BeginsExactly(path: string, prefix: string)
    ensures StartsWith(path, prefix) <==> Begins(path, prefix)
  {
    if StartsWith(path, prefix) { assert path == prefix + path[|prefix|..]; }
    if rest :| path == prefix + rest { assert path[..|prefix|] == prefix; }
  }

  lemma EndsExactly(path: string, suffix: string)
    ensures EndsWith(path, suffix) <==> Ends(path, suffix)
  {
    if EndsWith(path, suffix) { assert path == path[..|path| - |suffix|] + suffix; }
    if rest :| path == rest + suffix { assert path[|path| - |suffix|..] == suffix; }
  }

  /** Sign-in, federation and health checks are never counted here. */
  lemma ExemptExactly(path: string)
    ensures Exempt(path) <==>
              exists prefix :: prefix in ["/v1/auth", "/v1/federation", "/health"] && Begins(path, prefix)
  {
    var prefixes := ["/v1/auth", "/v1/federation", "/health"];
    forall i | 0 <= i < 3 ensures StartsWith(path, prefixes[i]) <==> Begins(path, prefixes[i]) {
      BeginsExactly(path, prefixes[i]);
    }
    hide StartsWith, Begins;
    assert forall prefix :: prefix in prefixes <==>
             prefix == prefixes[0] || prefix == prefixes[1] || prefix == prefixes[2];
  }

  ghost const COSTLY: seq<string> :=
    ["/calculate", "/recalculate", "/preview", "/files/uploads", "/onboard", "/export"]

  /** What a request costs: the expensive endings whatever the verb, then reading by its verb, and all else writes. */
  lemma TierExactly(verb: string, path: string)
    ensures TierOf(verb, path) == Expensive <==> exists suffix :: suffix in COSTLY && Ends(path, suffix)
    ensures TierOf(verb, path) == Read <==>
              TierOf(verb, path) != Expensive && verb in ["GET", "HEAD", "OPTIONS"]
  {
    forall i | 0 <= i < 6 ensures EndsWith(path, COSTLY[i]) <==> Ends(path, COSTLY[i]) { EndsExactly(path, COSTLY[i]); }
    hide EndsWith, Ends;
    assert forall i :: 0 <= i < 6 ==> COSTLY[i] in COSTLY;
    if IsExpensive(path) {
      assert exists i :: 0 <= i < 6 && EndsWith(path, COSTLY[i]) by {
        assert EndsWith(path, COSTLY[0]) || EndsWith(path, COSTLY[1]) || EndsWith(path, COSTLY[2])
            || EndsWith(path, COSTLY[3]) || EndsWith(path, COSTLY[4]) || EndsWith(path, COSTLY[5]);
      }
    }
  }

  /** Each tier has a limit of its own. */
  lemma LimitsByTier(limits: Limits)
    ensures [LimitOf(limits, Expensive), LimitOf(limits, Mutation), LimitOf(limits, Read)]
         == [limits.expensive, limits.mutation, limits.read]
  {
  }

  // ---- The counter ----

  /** How the cache fares during a request: it may be down, or be lost between counting and expiring. */
  datatype Cache = Up | Down | LostAfterCounting

  datatype Request = Request(at: int, tier: Tier, subject: string, cache: Cache)

  datatype CounterKey = CounterKey(tier: Tier, subject: string, window: int)

  datatype Counter = Counter(count: nat, expiresAt: Option<int>)

  type Counters = map<CounterKey, Counter>

  function KeyOf(r: Request): CounterKey { CounterKey(r.tier, r.subject, r.at / WINDOW) }

  predicate Expired(c: Counter, now: int) { c.expiresAt.Some? && c.expiresAt.value <= now }

  /** What the cache still holds at a moment. */
  function Live(counters: Counters, now: int): Counters {
    map k | k in counters && !Expired(counters[k], now) :: counters[k]
  }

  /** The number `INCR` returns. */
  function Incremented(counters: Counters, r: Request): nat {
    var live := Live(counters, r.at);
    if KeyOf(r) in live then live[KeyOf(r)].count + 1 else 1
  }

  function Counted(counters: Counters, r: Request): Counters {
    if r.cache.Down? then Live(counters, r.at)
    else
      var live, count := Live(counters, r.at), Incremented(counters, r);
      var expiresAt :=
        if count == 1 && r.cache.Up? then Some(r.at + EXPIRY)
        else if KeyOf(r) in live then live[KeyOf(r)].expiresAt
        else None;
      live[KeyOf(r) := Counter(count, expiresAt)]
  }

  /** Let through: within the limit, or the cache failed before the limit was looked at. */
  predicate Admits(counters: Counters, r: Request, limits: Limits) {
    || r.cache.Down?
    || (r.cache.LostAfterCounting? && Incremented(counters, r) == 1)
    || Incremented(counters, r) <= LimitOf(limits, r.tier)
  }

  class RequestRateLimiter {
    const limits: Limits
    var counters: Counters

    constructor (limits: Limits)
      ensures this.limits == limits && counters == map[]
    {
      this.limits := limits;
      counters := map[];
    }

    method Intercept(verb: string, url: string, subject: string, now: int, cache: Cache) returns (admitted: bool)
      modifies `counters
      ensures Exempt(PathOf(url)) ==> admitted && counters == old(counters)
      ensures !Exempt(PathOf(url)) ==>
                var r := Request(now, TierOf(verb, PathOf(url)), subject, cache);
                admitted == Admits(old(counters), r, limits) && counters == Counted(old(counters), r)
    {
      var path := PathOf(url);
      if Exempt(path) {
        return true;
      }
      var tier := TierOf(verb, path);
      var key := CounterKey(tier, subject, now / WINDOW);
      counters := Live(counters, now);
      if cache.Down? {
        return true;
      }
      var count := if key in counters then counters[key].count + 1 else 1;
      var expiresAt := if key in counters then counters[key].expiresAt else None;
      counters := counters[key := Counter(count, expiresAt)];
      if count == 1 {
        if cache.LostAfterCounting? {
          return true;
        }
        counters := counters[key := Counter(count, Some(now + EXPIRY))];
      }
      admitted := count <= LimitOf(limits, tier);
    }
  }

  // ---- Over a trace of requests ----

  function After(trace: seq<Request>): Counters {
    if trace == [] then map[] else Counted(After(trace[..|trace| - 1]), trace[|trace| - 1])
  }

  ghost predicate ClockRunsForward(trace: seq<Request>) {
    forall i, j :: 0 <= i < j < |trace| ==> trace[i].at <= trace[j].at
  }

  /** The first request counted under a key gives it two minutes from then, whatever follows. */
  lemma ExpiryIsSetOnce(counters: Counters, r: Request)
    requires !r.cache.Down?
    ensures KeyOf(r) == CounterKey(r.tier, r.subject, KeyOf(r).window)
    ensures KeyOf(r).window * 60_000 <= r.at < (KeyOf(r).window + 1) * 60_000
    ensures KeyOf(r) in Counted(counters, r)
    ensures var before, after := Live(counters, r.at), Counted(counters, r)[KeyOf(r)];
            after.expiresAt == if KeyOf(r) in before && before[KeyOf(r)].count > 0 then before[KeyOf(r)].expiresAt
                               else if r.cache.Up? then Some(r.at + 120_000)
                               else if KeyOf(r) in before then before[KeyOf(r)].expiresAt else None
    ensures forall key :: key in Live(counters, r.at) <==>
                            key in counters && (counters[key].expiresAt.Some? ==> r.at < counters[key].expiresAt.value)
  {
  }

  /** Requests counted under this key. */
  ghost function Rank(trace: seq<Request>, key: CounterKey): nat {
    if trace == [] then 0
    else
      var last := trace[|trace| - 1];
      Rank(trace[..|trace| - 1], key) + if KeyOf(last) == key && !last.cache.Down? then 1 else 0
  }

  /** A counter outlives its own minute: it is kept until a whole minute after it. */
  ghost predicate OutlivesItsWindow(c: Counter, key: CounterKey) {
    c.expiresAt.Some? ==> c.expiresAt.value >= (key.window + 2) * WINDOW
  }

  ghost predicate CountsExactly(counters: Counters, trace: seq<Request>, key: CounterKey) {
    if Rank(trace, key) == 0 then key !in counters
    else key in counters && counters[key].count == Rank(trace, key) && OutlivesItsWindow(counters[key], key)
  }

  lemma LiveInItsWindow(counters: Counters, trace: seq<Request>, key: CounterKey, now: int)
    requires CountsExactly(counters, trace, key) && now / WINDOW <= key.window
    ensures CountsExactly(Live(counters, now), trace, key)
  {
  }

  /**
   * For a minute not yet over, the counter holds exactly the requests counted in it: nothing is lost
   * to the expiry and nothing comes from another tier, subject or minute.
   */
  lemma {:induction false} CounterIsExact(trace: seq<Request>, key: CounterKey)
    requires ClockRunsForward(trace) && (trace != [] ==> trace[|trace| - 1].at / WINDOW <= key.window)
    ensures CountsExactly(After(trace), trace, key)
  {
    if trace != [] {
      var front, last := trace[..|trace| - 1], trace[|trace| - 1];
      if front != [] {
        assert front[|front| - 1].at <= last.at;
        EarlierWindow(front[|front| - 1].at, last.at);
      }
      CounterIsExact(front, key);
      LiveInItsWindow(After(front), front, key, last.at);
      if KeyOf(last) == key { WindowOf(last.at); }
    }
  }

  lemma EarlierWindow(a: int, b: int)
    requires a <= b
    ensures a / WINDOW <= b / WINDOW
  {
  }

  lemma WindowOf(at: int)
    ensures (at / WINDOW) * WINDOW <= at < (at / WINDOW + 1) * WINDOW
  {
  }

  ghost predicate AdmittedAt(trace: seq<Request>, i: nat, limits: Limits)
    requires i < |trace|
  {
    Admits(After(trace[..i]), trace[i], limits)
  }

  /**
   * A request is let through exactly when it is among the first `limit` counted in its own minute,
   * or the cache failed it. Other tiers, subjects and minutes have no say.
   */
  lemma AdmittedByRank(trace: seq<Request>, i: nat, limits: Limits)
    requires ClockRunsForward(trace) && i < |trace|
    ensures AdmittedAt(trace, i, limits) <==>
              || trace[i].cache.Down?
              || (trace[i].cache.LostAfterCounting? && Rank(trace[..i], KeyOf(trace[i])) == 0)
              || Rank(trace[..i], KeyOf(trace[i])) < LimitOf(limits, trace[i].tier)
  {
    var r := trace[i];
    var before := trace[..i];
    if i > 0 { EarlierWindow(before[i - 1].at, r.at); }
    CounterIsExact(before, KeyOf(r));
    LiveInItsWindow(After(before), before, KeyOf(r), r.at);
  }

  // ---- What that means for one subject ----

  ghost predicate CacheStaysUp(trace: seq<Request>) { forall i :: 0 <= i < |trace| ==> trace[i].cache.Up? }

  ghost function Admissions(trace: seq<Request>, key: CounterKey, limits: Limits): nat {
    if trace == [] then 0
    else
      var n := |trace| - 1;
      Admissions(trace[..n], key, limits) + if KeyOf(trace[n]) == key && AdmittedAt(trace, n, limits) then 1 else 0
  }

  /** With the cache up, a minute admits its first `limit` requests and refuses the rest. */
  lemma {:induction false} MinuteAdmitsItsLimit(trace: seq<Request>, key: CounterKey, limits: Limits)
    requires ClockRunsForward(trace) && CacheStaysUp(trace)
    ensures var limit, asked := LimitOf(limits, key.tier), Rank(trace, key);
            Admissions(trace, key, limits) == if asked <= limit then asked else limit
  {
    if trace != [] {
      var n := |trace| - 1;
      MinuteAdmitsItsLimit(trace[..n], key, limits);
      AdmittedByRank(trace, n, limits);
    }
  }

  lemma {:induction false} RankGrows(trace: seq<Request>, i: nat, key: CounterKey)
    requires i <= |trace|
    ensures Rank(trace[..i], key) <= Rank(trace, key)
    decreases |trace|
  {
    if i < |trace| {
      RankGrows(trace[..|trace| - 1], i, key);
      assert trace[..|trace| - 1][..i] == trace[..i];
    } else {
      assert trace[..i] == trace;
    }
  }

  /** Nobody is refused in a minute in which they stay within the limit, whatever the cache does. */
  lemma NoneRefusedWithinLimit(trace: seq<Request>, i: nat, limits: Limits)
    requires ClockRunsForward(trace) && i < |trace|
    requires Rank(trace, KeyOf(trace[i])) <= LimitOf(limits, trace[i].tier)
    ensures AdmittedAt(trace, i, limits)
  {
    AdmittedByRank(trace, i, limits);
    if !trace[i].cache.Down? {
      RankGrows(trace, i + 1, KeyOf(trace[i]));
      assert trace[..i + 1][..i] == trace[..i];
    }
  }

  ghost predicate Concerns(r: Request, tier: Tier, subject: string, from: int) {
    r.tier == tier && r.subject == subject && from <= r.at < from + 60_000
  }

  /** Requests of one subject and tier let through within a minute from any moment. */
  ghost function AdmissionsWithin(trace: seq<Request>, tier: Tier, subject: string, from: int, limits: Limits): nat {
    if trace == [] then 0
    else
      var n := |trace| - 1;
      AdmissionsWithin(trace[..n], tier, subject, from, limits)
      + if Concerns(trace[n], tier, subject, from) && AdmittedAt(trace, n, limits) then 1 else 0
  }

  lemma {:induction false} WithinTwoWindows(trace: seq<Request>, tier: Tier, subject: string, from: int, limits: Limits)
    ensures AdmissionsWithin(trace, tier, subject, from, limits)
         <= Admissions(trace, CounterKey(tier, subject, from / WINDOW), limits)
          + Admissions(trace, CounterKey(tier, subject, from / WINDOW + 1), limits)
  {
    if trace != [] {
      var last := trace[|trace| - 1];
      WithinTwoWindows(trace[..|trace| - 1], tier, subject, from, limits);
      if Concerns(last, tier, subject, from) {
        WindowOf(from);
        WindowOf(last.at);
        assert last.at / WINDOW == from / WINDOW || last.at / WINDOW == from / WINDOW + 1;
      }
    }
  }

  /** Sixty seconds straddling two windows let through at most twice the limit. */
  lemma AnyMinuteAdmitsAtMostTwice(trace: seq<Request>, tier: Tier, subject: string, from: int, limits: Limits)
    requires ClockRunsForward(trace) && CacheStaysUp(trace)
    ensures AdmissionsWithin(trace, tier, subject, from, limits) <= 2 * LimitOf(limits, tier)
  {
    WithinTwoWindows(trace, tier, subject, from, limits);
    MinuteAdmitsItsLimit(trace, CounterKey(tier, subject, from / WINDOW), limits);
    MinuteAdmitsItsLimit(trace, CounterKey(tier, subject, from / WINDOW + 1), limits);
  }

  /** The first `n` requests of a burst in the last millisecond of a minute and one in the first of the next. */
  function TwoBursts(tier: Tier, subject: string, each: nat, n: nat): (trace: seq<Request>)
    ensures |trace| == n && ClockRunsForward(trace) && CacheStaysUp(trace)
    ensures forall i :: 0 <= i < n ==> trace[i] == Request(if i < each then WINDOW - 1 else WINDOW, tier, subject, Up)
  {
    if n == 0 then []
    else TwoBursts(tier, subject, each, n - 1) + [Request(if n <= each then WINDOW - 1 else WINDOW, tier, subject, Up)]
  }

  lemma OneMoreRequest(front: seq<Request>, r: Request, from: int, limits: Limits, key: CounterKey)
    requires ClockRunsForward(front + [r]) && r.cache.Up? && from <= r.at < from + 60_000
    ensures AdmissionsWithin(front + [r], r.tier, r.subject, from, limits)
         == AdmissionsWithin(front, r.tier, r.subject, from, limits)
          + if Rank(front, KeyOf(r)) < LimitOf(limits, r.tier) then 1 else 0
    ensures Rank(front + [r], key) == Rank(front, key) + if KeyOf(r) == key then 1 else 0
  {
    var trace := front + [r];
    assert trace[..|front|] == front && trace[|front|] == r;
    AdmittedByRank(trace, |front|, limits);
    hide AdmittedAt, ClockRunsForward;
  }

  /** All of them are admitted, the first `limit` in one minute and the others in the next. */
  ghost predicate AllAdmitted(trace: seq<Request>, tier: Tier, subject: string, limits: Limits) {
    var n, limit := |trace|, LimitOf(limits, tier);
    && Rank(trace, CounterKey(tier, subject, 0)) == (if n < limit then n else limit)
    && Rank(trace, CounterKey(tier, subject, 1)) == (if n < limit then 0 else n - limit)
    && AdmissionsWithin(trace, tier, subject, WINDOW - 1, limits) == n
  }

  lemma OneMoreAdmitted(front: seq<Request>, r: Request, limits: Limits)
    requires |front| < 2 * LimitOf(limits, r.tier) && AllAdmitted(front, r.tier, r.subject, limits)
    requires r.cache.Up? && r.at == (if |front| < LimitOf(limits, r.tier) then WINDOW - 1 else WINDOW)
    requires ClockRunsForward(front + [r])
    ensures AllAdmitted(front + [r], r.tier, r.subject, limits)
  {
    assert KeyOf(r).window == if |front| < LimitOf(limits, r.tier) then 0 else 1;
    hide ClockRunsForward, Rank, AdmissionsWithin, LimitOf;
    OneMoreRequest(front, r, WINDOW - 1, limits, CounterKey(r.tier, r.subject, 0));
    OneMoreRequest(front, r, WINDOW - 1, limits, CounterKey(r.tier, r.subject, 1));
  }

  lemma {:induction false} BurstsAreAdmitted(tier: Tier, subject: string, limits: Limits, n: nat)
    requires n <= 2 * LimitOf(limits, tier)
    ensures AllAdmitted(TwoBursts(tier, subject, LimitOf(limits, tier), n), tier, subject, limits)
  {
    var limit := LimitOf(limits, tier);
    if n > 0 {
      var front := TwoBursts(tier, subject, limit, n - 1);
      var r := Request(if n <= limit then WINDOW - 1 else WINDOW, tier, subject, Up);
      assert TwoBursts(tier, subject, limit, n) == front + [r];
      BurstsAreAdmitted(tier, subject, limits, n - 1);
      hide ClockRunsForward, AllAdmitted, TwoBursts;
      OneMoreAdmitted(front, r, limits);
    }
  }

  /** And twice the limit it can be, within two milliseconds, whatever the limits. */
  lemma TwiceTheLimitIsReached(tier: Tier, subject: string, limits: Limits)
    ensures var limit := LimitOf(limits, tier);
            var trace := TwoBursts(tier, subject, limit, 2 * limit);
            && ClockRunsForward(trace) && CacheStaysUp(trace)
            && AdmissionsWithin(trace, tier, subject, WINDOW - 1, limits) == 2 * limit
  {
    BurstsAreAdmitted(tier, subject, limits, 2 * LimitOf(limits, tier));
  }

  // ---- Nobody else matters ----

  /** One subject's own requests in one tier, alone. */
  ghost function Alone(trace: seq<Request>, tier: Tier, subject: string): seq<Request> {
    if trace == [] then []
    else
      var last := trace[|trace| - 1];
      Alone(trace[..|trace| - 1], tier, subject) + if last.tier == tier && last.subject == subject then [last] else []
  }

  lemma {:induction false} AloneKeepsRank(trace: seq<Request>, tier: Tier, subject: string, window: int)
    ensures Rank(Alone(trace, tier, subject), CounterKey(tier, subject, window)) ==
              Rank(trace, CounterKey(tier, subject, window))
  {
    if trace != [] {
      var front, last := trace[..|trace| - 1], trace[|trace| - 1];
      AloneKeepsRank(front, tier, subject, window);
      var before := Alone(front, tier, subject);
      assert (before + [last])[..|before|] == before;
      assert before + [] == before;
    }
  }

  lemma {:induction false} AloneRunsForward(trace: seq<Request>, tier: Tier, subject: string)
    requires ClockRunsForward(trace)
    ensures ClockRunsForward(Alone(trace, tier, subject))
    ensures forall r :: r in Alone(trace, tier, subject) ==> r in trace
  {
    if trace != [] {
      var front, last := trace[..|trace| - 1], trace[|trace| - 1];
      AloneRunsForward(front, tier, subject);
      forall r | r in Alone(front, tier, subject) ensures r in trace && r.at <= last.at {
        var i :| 0 <= i < |front| && front[i] == r;
        assert trace[i] == r;
      }
    }
  }

  /** A request fares as it would had nobody else made any. */
  lemma OthersNeverMatter(trace: seq<Request>, i: nat, limits: Limits)
    requires ClockRunsForward(trace) && i < |trace|
    ensures var r := trace[i];
            AdmittedAt(trace, i, limits) <==> Admits(After(Alone(trace[..i], r.tier, r.subject)), r, limits)
  {
    var r := trace[i];
    var alone := Alone(trace[..i], r.tier, r.subject);
    AdmittedByRank(trace, i, limits);
    AloneKeepsRank(trace[..i], r.tier, r.subject, r.at / WINDOW);
    AloneRunsForward(trace[..i], r.tier, r.subject);
    forall x | x in alone ensures x.at <= r.at {
      var j :| 0 <= j < i && trace[..i][j] == x;
      assert trace[j] == x;
    }
    assert ClockRunsForward(alone + [r]);
    AdmittedByRank(alone + [r], |alone|, limits);
    assert (alone + [r])[..|alone|] == alone;
  }
}
