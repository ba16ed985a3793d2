/**
 Cleanups of the per-route limiter (internal/policy/ratelimit.go:69-176): when they can change an
 answer of the pair of limiters. The global limit has equal rate and burst, so a full global bucket
 always refills within the eviction delay. A route's bucket need not; but what the global limit lets
 through drains it only where the global rate is the higher one.
 */
module PerRouteEviction {
  import opened Common
  import opened Eviction
  import opened PerRoute
  import opened RateLimit

  /** What a bucket lacks at time `t`. */
  function Owed(b: Level, t: real): real {
    b.maxTokens - b.Refilled(t)
  }

  /** The route refills no slower than the global limit, and in the eviction delay all that limit ever lets through. */
  predicate Outpaced(g: Config, c: Config) {
    g.rate <= c.rate && g.MaxTokens() + 1.0 <= 5.0 * c.rate as real
  }

  predicate Safe(g: Config, c: Config) {
    c.rate >= 1 && (RefillsInTime(c) || Outpaced(g, c))
  }

  // ---------------------------------------------------------------------------------------------
  // A route's bucket and the client's global one
  // ---------------------------------------------------------------------------------------------

  lemma RefilledLater(b: Level, t: real, u: real)
    requires b.refillRate >= 0.0 && t <= u
    ensures var more := b.Refilled(t) + Accrued(b.refillRate, u - t);
            b.Refilled(u) == if more > b.maxTokens then b.maxTokens else more
  {
    hide Accrued;
    AccruedSum(b.refillRate, t - b.lastCheck, u - t);
    AccruedSign(b.refillRate, u - t);
    assert u - b.lastCheck == (t - b.lastCheck) + (u - t);
  }

  lemma FasterAccrues(slow: real, fast: real, elapsed: real)
    requires 0.0 <= slow <= fast && elapsed >= 0.0
    ensures 0.0 <= Accrued(slow, elapsed) <= Accrued(fast, elapsed)
  {}

  /** A bucket that refills faster does not fall behind. */
  lemma OwedLater(a: Level, b: Level, t: real, u: real, d: real)
    requires 0.0 <= b.refillRate <= a.refillRate && t <= u && d >= 0.0
    requires Owed(a, t) <= Owed(b, t) + d
    ensures Owed(a, u) <= Owed(b, u) + d
  {
    RefilledLater(a, t, u);
    RefilledLater(b, t, u);
    FasterAccrues(b.refillRate, a.refillRate, u - t);
    hide Accrued;
  }

  lemma TakenAt(b: Level, now: real)
    ensures b.Taken(now).Refilled(now) == if b.Refilled(now) >= 1.0 then b.Refilled(now) - 1.0 else b.Refilled(now)
  {
    assert Accrued(b.refillRate, now - now) == 0.0;
    hide Accrued;
  }

  /** The route's bucket lacks at most one token more than the client's global one. */
  ghost predicate Tracks(route: Level, global: Level, t: real) {
    && Owed(route, t) <= Owed(global, t) + 1.0
    && route.maxTokens - route.tokens <= global.maxTokens + 1.0
  }

  /** Another request of the client, or time, only widens the distance. */
  lemma TracksOther(route: Level, global: Level, t: real, now: real, u: real)
    requires 0.0 <= global.refillRate <= route.refillRate && t <= now <= u && Tracks(route, global, t)
    ensures Tracks(route, global, u) && Tracks(route, global.Taken(now), u)
  {
    hide Accrued, Level.Refilled;
    OwedLater(route, global, t, now, 1.0);
    OwedLater(route, global, t, u, 1.0);
    TakenAt(global, now);
    OwedLater(route, global.Taken(now), now, u, 1.0);
  }

  /** A request the global limiter grants is charged to the route's bucket at a later time. */
  lemma TracksCharged(route: Level, global: Level, now: real, later: real)
    requires 0.0 <= global.refillRate <= route.refillRate && now <= later
    requires global.Refilled(now) >= 1.0 && Owed(route, now) <= Owed(global, now) + 1.0
    ensures Tracks(route.Taken(later), global.Taken(now), later)
  {
    var charged := global.Taken(now);
    TakenAt(global, now);
    TakenAt(route, later);
    FasterAccrues(0.0, charged.refillRate, later - now);
    assert charged.Refilled(later) >= 0.0;
    hide Accrued, Level.Refilled;
    OwedLater(route, charged, now, later, 0.0);
  }

  lemma IdleOutpaced(g: Config, c: Config, b: Level, now: real)
    requires c.rate >= 1 && Outpaced(g, c) && Healthy(c, b, now) && b.lastCheck < now - EVICT_AFTER
    requires b.maxTokens - b.tokens <= g.MaxTokens() + 1.0
    ensures b.Refilled(now) == c.MaxTokens()
  {
    hide Accrued;
    var idle := now - b.lastCheck;
    AccruedOverDelay(c);
    AccruedSum(b.refillRate, EVICT_AFTER, idle - EVICT_AFTER);
    assert idle == EVICT_AFTER + (idle - EVICT_AFTER);
    AccruedSign(b.refillRate, idle - EVICT_AFTER);
  }

  /** Every clock reading of a call is at or after t, and its own readings are in order. */
  ghost predicate Begins(call: Call, t: real) {
    match call
    case Ask(_, _, c) => t <= c.created <= c.now <= c.routeCreated <= c.routeNow
    case Clean(now, at) => t <= now && forall r :: t <= at(r)
    case Set(_, _, _) => true
  }

  ghost predicate Ends(call: Call, t: real) {
    match call
    case Ask(_, _, c) => c.routeNow <= t
    case Clean(now, at) => now <= t && forall r :: at(r) <= t
    case Set(_, _, _) => true
  }

  /** Call i happens between times[i] and times[i + 1]. */
  ghost predicate TimedCalls(calls: seq<Call>, times: seq<real>) {
    && |times| == |calls| + 1
    && (forall i :: 0 <= i < |calls| ==> times[i] <= times[i + 1])
    && forall i :: 0 <= i < |calls| ==> Begins(calls[i], times[i]) && Ends(calls[i], times[i + 1])
  }

  // ---------------------------------------------------------------------------------------------
  // The run with its cleanups and without them
  // ---------------------------------------------------------------------------------------------

  /** Two limiters that no request from time t on can tell apart. */
  ghost predicate Alike(a: Limiter, b: Limiter, t: real) {
    a.config == b.config && a.config.rate >= 1 && Indistinct(a.config, a.buckets, b.buckets, t)
  }

  lemma AlikeLater(a: Limiter, b: Limiter, t: real, u: real)
    requires Alike(a, b, t) && t <= u
    ensures Alike(a, b, u)
  {
    hide Level.Refilled;
    forall k | k in b.buckets && k !in a.buckets ensures b.buckets[k].Refilled(u) == a.config.MaxTokens() {
      StaysFull(a.config, b.buckets[k], t, u);
    }
  }

  lemma AlikeAsked(a: Limiter, b: Limiter, t: real, key: string, created: real, now: real, keys: set<string>)
    requires Alike(a, b, t) && t <= created <= now
    requires b.buckets.Keys <= keys && key in keys && |keys| <= MAX_BUCKETS
    ensures a.Lets(key, created, now) == b.Lets(key, created, now)
    ensures Alike(a.Asked(key, created, now), b.Asked(key, created, now), now)
    ensures b.Asked(key, created, now).buckets.Keys == b.buckets.Keys + {key} <= keys
  {
    hide Admits, AfterRequest, Indistinct;
    SubsetSize(b.buckets.Keys + {key}, keys);
    RequestKeepsIndistinct(a.config, a.buckets, b.buckets, t, key, created, now);
  }

  lemma AlikeSwept(a: Limiter, b: Limiter, t: real, now: real)
    requires Alike(a, b, t) && t <= now
    requires forall k :: k in b.buckets && b.buckets[k].lastCheck < now - EVICT_AFTER ==>
               b.buckets[k].Refilled(now) == b.config.MaxTokens()
    ensures Alike(a.Swept(now), b, now)
  {
    hide AfterSweep, Indistinct, Level.Refilled;
    IdleSweepKeepsIndistinct(a.config, a.buckets, b.buckets, t, now);
  }

  lemma RefillsSwept(a: Limiter, b: Limiter, t: real, now: real)
    requires Alike(a, b, t) && t <= now && RefillsInTime(a.config)
    ensures Alike(a.Swept(now), b, now)
  {
    hide AfterSweep, Indistinct;
    SweepKeepsIndistinct(a.config, a.buckets, b.buckets, t, now);
  }

  lemma AlikeNew(c: Config, t: real)
    requires c.rate >= 1
    ensures Alike(Limiter(c, map[]), Limiter(c, map[]), t)
  {}

  ghost predicate AlikePairs(p: Pair, q: Pair, t: real) {
    && Alike(p.global, q.global, t) && p.limiters.Keys == q.limiters.Keys
    && forall r :: r in p.limiters ==> Alike(p.limiters[r], q.limiters[r], t)
  }

  function RouteKeys(route: string, clients: set<string>): set<string> {
    set c | c in clients :: RouteKey(route, c)
  }

  lemma {:induction false} RouteKeysFew(route: string, clients: set<string>)
    ensures |RouteKeys(route, clients)| <= |clients|
    decreases |clients|
  {
    if clients != {} {
      var c :| c in clients;
      RouteKeysFew(route, clients - {c});
      assert RouteKeys(route, clients) == RouteKeys(route, clients - {c}) + {RouteKey(route, c)};
    }
  }

  lemma RouteKeyInjective(route: string, a: string, b: string)
    requires RouteKey(route, a) == RouteKey(route, b)
    ensures a == b
  {
    assert RouteKey(route, a)[|route| + 1..] == a && RouteKey(route, b)[|route| + 1..] == b;
  }

  /** Only these clients have buckets, and every limit is safe with the global one. */
  ghost predicate Serves(p: Pair, clients: set<string>) {
    && p.global.buckets.Keys <= clients
    && forall r :: r in p.limiters ==>
         p.limiters[r].buckets.Keys <= RouteKeys(r, clients) && Safe(p.global.config, p.limiters[r].config)
  }

  /** Where the global limit is outpaced, the buckets of the routes keep up with it. */
  ghost predicate Shadows(q: Pair, t: real) {
    forall r :: r in q.limiters && Outpaced(q.global.config, q.limiters[r].config) ==> Shadowed(q, r, t)
  }

  ghost predicate Shadowed(q: Pair, r: string, t: real)
    requires r in q.limiters
  {
    forall k :: RouteKey(r, k) in q.limiters[r].buckets ==>
      k in q.global.buckets && Tracks(q.limiters[r].buckets[RouteKey(r, k)], q.global.buckets[k], t)
  }

  /** Every bucket is as its configuration makes it. */
  ghost predicate Fit(l: Limiter, t: real) {
    l.config.rate >= 1 && forall k :: k in l.buckets ==> Healthy(l.config, l.buckets[k], t)
  }

  lemma AlikeFit(a: Limiter, b: Limiter, t: real)
    requires Alike(a, b, t)
    ensures Fit(b, t)
  {}

  lemma RatesOrdered(g: Config, c: Config)
    requires 1 <= g.rate <= c.rate
    ensures 0.0 <= g.RefillRate() <= c.RefillRate()
  {}

  /** A bucket that is not charged. */
  lemma ShadowOther(q: Pair, t: real, call: Call, u: real, r: string, k: string)
    requires call.Ask? && Begins(call, t) && Ends(call, u) && Fit(q.global, t)
    requires r in q.limiters && Fit(q.limiters[r], t) && Outpaced(q.global.config, q.limiters[r].config)
    requires Shadowed(q, r, t) && RouteKey(r, k) in q.limiters[r].buckets
    ensures var after := q.global.Asked(call.client, call.t.created, call.t.now).buckets;
            k in after && Tracks(q.limiters[r].buckets[RouteKey(r, k)], after[k], u)
  {
    RatesOrdered(q.global.config, q.limiters[r].config);
    hide Level.Refilled, Level.Taken, RouteKey, Tracks, Config.RefillRate;
    TracksOther(q.limiters[r].buckets[RouteKey(r, k)], q.global.buckets[k], t, call.t.now, u);
  }

  /** A bucket made for the request lacks one token. */
  lemma TracksNew(c: Config, created: real, global: Level, later: real)
    requires c.rate >= 1 && created <= later && global.maxTokens >= 0.0
    ensures Tracks(FullLevel(c, created).Taken(later), global, later)
  {
    BornFull(c, map[], "", created, later);
    TakenAt(FullLevel(c, created), later);
    hide Accrued;
  }

  /** The bucket a granted request is charged to. */
  lemma ShadowCharged(q: Pair, t: real, call: Call, u: real)
    requires call.Ask? && Begins(call, t) && Ends(call, u) && Fit(q.global, t)
    requires var r := call.route;
             && r in q.limiters && Fit(q.limiters[r], t)
             && Outpaced(q.global.config, q.limiters[r].config) && Shadowed(q, r, t)
    requires q.global.Lets(call.client, call.t.created, call.t.now)
    requires RouteKey(call.route, call.client) in PerRoute.Step(q, call).limiters[call.route].buckets
    ensures var after, key := PerRoute.Step(q, call), RouteKey(call.route, call.client);
            && call.client in after.global.buckets
            && Tracks(after.limiters[call.route].buckets[key], after.global.buckets[call.client], u)
  {
    var Ask(r, k, c) := call;
    var g, l, key := q.global, q.limiters[r], RouteKey(r, k);
    var charged := Charged(g.config, g.buckets, k, c.created);
    RatesOrdered(g.config, l.config);
    hide Level.Refilled, Level.Taken, RouteKey, Tracks, Config.RefillRate, Accrued, Owed;
    if key in l.buckets {
      assert charged == g.buckets[k];
      OwedTracked(l.buckets[key], charged, t, c.now);
      TracksCharged(l.buckets[key], charged, c.now, c.routeNow);
      TracksOther(l.buckets[key].Taken(c.routeNow), charged.Taken(c.now), c.routeNow, c.routeNow, u);
    } else {
      var born := FullLevel(l.config, c.routeCreated).Taken(c.routeNow);
      TracksNew(l.config, c.routeCreated, charged.Taken(c.now), c.routeNow);
      TracksOther(born, charged.Taken(c.now), c.routeNow, c.routeNow, u);
    }
  }

  lemma OwedTracked(route: Level, global: Level, t: real, now: real)
    requires 0.0 <= global.refillRate <= route.refillRate && t <= now && Tracks(route, global, t)
    ensures Owed(route, now) <= Owed(global, now) + 1.0
  {
    OwedLater(route, global, t, now, 1.0);
  }

  lemma ShadowLater(q: Pair, t: real, u: real)
    requires Shadows(q, t) && t <= u && Fit(q.global, t) && forall r :: r in q.limiters ==> Fit(q.limiters[r], t)
    ensures Shadows(q, u)
  {
    hide Tracks, RouteKey;
    forall r | r in q.limiters && Outpaced(q.global.config, q.limiters[r].config) ensures Shadowed(q, r, u) {
      assert Shadowed(q, r, t);
      RatesOrdered(q.global.config, q.limiters[r].config);
      forall k | RouteKey(r, k) in q.limiters[r].buckets
        ensures Tracks(q.limiters[r].buckets[RouteKey(r, k)], q.global.buckets[k], u)
      {
        TracksOther(q.limiters[r].buckets[RouteKey(r, k)], q.global.buckets[k], t, t, u);
      }
    }
  }

  lemma ShadowAsk(q: Pair, t: real, call: Call, u: real)
    requires call.Ask? && Begins(call, t) && Ends(call, u) && Shadows(q, t)
    requires Fit(q.global, t) && forall r :: r in q.limiters ==> Fit(q.limiters[r], t)
    ensures Shadows(PerRoute.Step(q, call), u)
  {
    hide Tracks, RouteKey, Begins, Ends, Fit;
    var after := PerRoute.Step(q, call);
    forall r | r in after.limiters && Outpaced(after.global.config, after.limiters[r].config)
      ensures Shadowed(after, r, u)
    {
      assert Shadowed(q, r, t);
      forall k | RouteKey(r, k) in after.limiters[r].buckets
        ensures k in after.global.buckets
        ensures Tracks(after.limiters[r].buckets[RouteKey(r, k)], after.global.buckets[k], u)
      {
        if r == call.route && k == call.client && q.global.Lets(k, call.t.created, call.t.now) {
          ShadowCharged(q, t, call, u);
        } else {
          NotCharged(q, call, r, k);
          ShadowOther(q, t, call, u, r, k);
        }
      }
    }
  }

  lemma NotCharged(q: Pair, call: Call, r: string, k: string)
    requires call.Ask? && r in q.limiters && RouteKey(r, k) in PerRoute.Step(q, call).limiters[r].buckets
    requires r != call.route || k != call.client || !q.global.Lets(k, call.t.created, call.t.now)
    ensures RouteKey(r, k) in q.limiters[r].buckets
    ensures PerRoute.Step(q, call).limiters[r].buckets[RouteKey(r, k)] == q.limiters[r].buckets[RouteKey(r, k)]
  {
    if r == call.route && RouteKey(r, k) == RouteKey(r, call.client) { RouteKeyInjective(r, k, call.client); }
    hide RouteKey;
  }

  lemma ShadowSet(q: Pair, t: real, call: Call, u: real)
    requires call.Set? && t <= u && Shadows(q, t)
    requires Fit(q.global, t) && forall r :: r in q.limiters ==> Fit(q.limiters[r], t)
    ensures Shadows(PerRoute.Step(q, call), u)
  {
    ShadowLater(q, t, u);
    hide Tracks, RouteKey;
    var after := PerRoute.Step(q, call);
    forall r | r in after.limiters && Outpaced(after.global.config, after.limiters[r].config)
      ensures Shadowed(after, r, u)
    {
      if r != call.route { assert Shadowed(q, r, u); }
    }
  }

  lemma RouteSwept(p: Pair, q: Pair, t: real, now: real, r: string, clients: set<string>)
    requires AlikePairs(p, q, t) && Serves(q, clients) && Shadows(q, t) && t <= now && r in p.limiters
    ensures Alike(p.limiters[r].Swept(now), q.limiters[r], now)
  {
    var a, b, g := p.limiters[r], q.limiters[r], q.global;
    AlikeFit(a, b, t);
    AlikeFit(p.global, g, t);
    hide Alike, Level.Refilled, Tracks, RouteKey;
    if RefillsInTime(b.config) {
      RefillsSwept(a, b, t, now);
    } else {
      assert Shadowed(q, r, t);
      forall x | x in b.buckets && b.buckets[x].lastCheck < now - EVICT_AFTER
        ensures b.buckets[x].Refilled(now) == b.config.MaxTokens()
      {
        var k :| k in clients && x == RouteKey(r, k);
        TracksBound(b.buckets[x], g.buckets[k], t);
        IdleOutpaced(g.config, b.config, b.buckets[x], now);
      }
      AlikeSwept(a, b, t, now);
    }
  }

  lemma TracksBound(route: Level, global: Level, t: real)
    requires Tracks(route, global, t)
    ensures route.maxTokens - route.tokens <= global.maxTokens + 1.0
  {}

  // ---------------------------------------------------------------------------------------------
  // One call on both
  // ---------------------------------------------------------------------------------------------

  /** The pair with its cleanups, and the one without them. */
  ghost predicate Twins(p: Pair, q: Pair, t: real, clients: set<string>) {
    && AlikePairs(p, q, t) && Serves(q, clients) && Shadows(q, t) && RefillsInTime(q.global.config)
  }

  lemma TwinsFit(p: Pair, q: Pair, t: real, clients: set<string>)
    requires Twins(p, q, t, clients)
    ensures Fit(q.global, t) && forall r :: r in q.limiters ==> Fit(q.limiters[r], t)
  {
    hide Alike, Fit;
    AlikeFit(p.global, q.global, t);
    forall r | r in q.limiters ensures Fit(q.limiters[r], t) { AlikeFit(p.limiters[r], q.limiters[r], t); }
  }

  lemma GlobalAsked(p: Pair, q: Pair, t: real, u: real, call: Call, clients: set<string>)
    requires Twins(p, q, t, clients) && |clients| <= MAX_BUCKETS
    requires call.Ask? && call.client in clients && Begins(call, t) && Ends(call, u)
    ensures var Ask(_, k, c) := call;
            && p.global.Lets(k, c.created, c.now) == q.global.Lets(k, c.created, c.now)
            && Alike(p.global.Asked(k, c.created, c.now), q.global.Asked(k, c.created, c.now), u)
            && q.global.Asked(k, c.created, c.now).buckets.Keys <= clients
  {
    hide Alike, Limiter.Lets, Limiter.Asked, Shadows, Safe;
    var Ask(_, k, c) := call;
    AlikeAsked(p.global, q.global, t, k, c.created, c.now, clients);
    AlikeLater(p.global.Asked(k, c.created, c.now), q.global.Asked(k, c.created, c.now), c.now, u);
  }

  lemma RouteAsked(p: Pair, q: Pair, t: real, u: real, call: Call, clients: set<string>)
    requires Twins(p, q, t, clients) && |clients| <= MAX_BUCKETS
    requires call.Ask? && call.client in clients && Begins(call, t) && Ends(call, u) && call.route in p.limiters
    ensures var Ask(r, client, c) := call; var a, b, key := p.limiters[r], q.limiters[r], RouteKey(r, client);
            && a.Lets(key, c.routeCreated, c.routeNow) == b.Lets(key, c.routeCreated, c.routeNow)
            && Alike(a.Asked(key, c.routeCreated, c.routeNow), b.Asked(key, c.routeCreated, c.routeNow), u)
            && b.Asked(key, c.routeCreated, c.routeNow).buckets.Keys <= RouteKeys(r, clients)
  {
    hide Alike, Limiter.Lets, Limiter.Asked, RouteKey, Shadows, Safe;
    var Ask(r, client, c) := call;
    var a, b, key := p.limiters[r], q.limiters[r], RouteKey(r, client);
    RouteKeysFew(r, clients);
    assert key in RouteKeys(r, clients);
    AlikeAsked(a, b, t, key, c.routeCreated, c.routeNow, RouteKeys(r, clients));
    AlikeLater(a.Asked(key, c.routeCreated, c.routeNow), b.Asked(key, c.routeCreated, c.routeNow), c.routeNow, u);
  }

  lemma GlobalReplaced(p: Pair, q: Pair, t: real, u: real, a: Limiter, b: Limiter, clients: set<string>)
    requires AlikePairs(p, q, t) && Serves(q, clients) && t <= u
    requires Alike(a, b, u) && b.config == q.global.config && b.buckets.Keys <= clients
    ensures AlikePairs(p.(global := a), q.(global := b), u) && Serves(q.(global := b), clients)
  {
    hide Alike, Safe, RouteKeys;
    forall r | r in p.limiters ensures Alike(p.limiters[r], q.limiters[r], u) {
      AlikeLater(p.limiters[r], q.limiters[r], t, u);
    }
  }

  lemma RouteReplaced(p: Pair, q: Pair, u: real, r: string, a: Limiter, b: Limiter, clients: set<string>)
    requires AlikePairs(p, q, u) && Serves(q, clients) && r in p.limiters
    requires Alike(a, b, u) && b.config == q.limiters[r].config && b.buckets.Keys <= RouteKeys(r, clients)
    ensures AlikePairs(p.(limiters := p.limiters[r := a]), q.(limiters := q.limiters[r := b]), u)
    ensures Serves(q.(limiters := q.limiters[r := b]), clients)
  {
    hide Alike, Safe, RouteKeys;
  }

  lemma TwinsAsk(p: Pair, q: Pair, t: real, u: real, call: Call, clients: set<string>)
    requires Twins(p, q, t, clients) && |clients| <= MAX_BUCKETS
    requires call.Ask? && call.client in clients && Begins(call, t) && Ends(call, u)
    ensures Passes(p, call.route, call.client, call.t) == Passes(q, call.route, call.client, call.t)
    ensures Twins(PerRoute.Step(p, call), PerRoute.Step(q, call), u, clients)
  {
    var Ask(r, k, c) := call;
    TwinsFit(p, q, t, clients);
    ShadowAsk(q, t, call, u);
    GlobalAsked(p, q, t, u, call, clients);
    var a, b := p.global.Asked(k, c.created, c.now), q.global.Asked(k, c.created, c.now);
    GlobalReplaced(p, q, t, u, a, b, clients);
    if r in p.limiters {
      RouteAsked(p, q, t, u, call, clients);
      var key := RouteKey(r, k);
      RouteReplaced(p.(global := a), q.(global := b), u, r,
                    p.limiters[r].Asked(key, c.routeCreated, c.routeNow),
                    q.limiters[r].Asked(key, c.routeCreated, c.routeNow), clients);
    }
    SameRoutes(p, q, t);
    hide AlikePairs, Serves, Shadows, Limiter.Lets, Fit, RouteKeys;
  }

  lemma SameRoutes(p: Pair, q: Pair, t: real)
    requires AlikePairs(p, q, t)
    ensures p.limiters.Keys == q.limiters.Keys
  {}

  lemma TwinsClean(p: Pair, q: Pair, t: real, u: real, call: Call, clients: set<string>)
    requires Twins(p, q, t, clients) && call.Clean? && Begins(call, t) && Ends(call, u)
    ensures Twins(PerRoute.Step(p, call), q, u, clients)
  {
    TwinsFit(p, q, t, clients);
    ShadowLater(q, t, u);
    hide Alike, Limiter.Swept, Shadows;
    RefillsSweptPair(p, q, t, call.now, clients);
    AlikeLater(p.global.Swept(call.now), q.global, call.now, u);
    forall r | r in p.limiters ensures Alike(p.limiters[r].Swept(call.at(r)), q.limiters[r], u) {
      RouteSwept(p, q, t, call.at(r), r, clients);
      AlikeLater(p.limiters[r].Swept(call.at(r)), q.limiters[r], call.at(r), u);
    }
  }

  lemma RefillsSweptPair(p: Pair, q: Pair, t: real, now: real, clients: set<string>)
    requires Twins(p, q, t, clients) && t <= now
    ensures Alike(p.global.Swept(now), q.global, now)
  {
    hide Limiter.Swept, Indistinct;
    RefillsSwept(p.global, q.global, t, now);
  }

  lemma RouteAdded(p: Pair, q: Pair, u: real, r: string, c: Config, clients: set<string>)
    requires AlikePairs(p, q, u) && Serves(q, clients) && Safe(q.global.config, c)
    ensures var l := Limiter(c, map[]);
            && AlikePairs(p.(limiters := p.limiters[r := l]), q.(limiters := q.limiters[r := l]), u)
            && Serves(q.(limiters := q.limiters[r := l]), clients)
  {
    AlikeNew(c, u);
    hide Alike, Safe, RouteKeys;
  }

  lemma TwinsSet(p: Pair, q: Pair, t: real, u: real, call: Call, clients: set<string>)
    requires Twins(p, q, t, clients) && t <= u
    requires call.Set? && Safe(q.global.config, Config(call.rate, call.burst))
    ensures Twins(PerRoute.Step(p, call), PerRoute.Step(q, call), u, clients)
  {
    TwinsFit(p, q, t, clients);
    ShadowSet(q, t, call, u);
    PairsLater(p, q, t, u);
    hide AlikePairs, Serves, Shadows, Fit, Safe;
    RouteAdded(p, q, u, call.route, Config(call.rate, call.burst), clients);
  }

  lemma PairsLater(p: Pair, q: Pair, t: real, u: real)
    requires AlikePairs(p, q, t) && t <= u
    ensures AlikePairs(p, q, u)
  {
    hide Alike;
    AlikeLater(p.global, q.global, t, u);
    forall r | r in p.limiters ensures Alike(p.limiters[r], q.limiters[r], u) {
      AlikeLater(p.limiters[r], q.limiters[r], t, u);
    }
  }

  // ---------------------------------------------------------------------------------------------
  // Whole runs
  // ---------------------------------------------------------------------------------------------

  /** The answers to the requests among the first j calls. */
  function Answers(g: Config, calls: seq<Call>, j: nat): seq<bool>
    requires j <= |calls|
  {
    if j == 0 then []
    else if calls[j - 1].Ask? then Answers(g, calls, j - 1) + [Allowed(g, calls, j - 1)]
    else Answers(g, calls, j - 1)
  }

  /** The first j calls without the cleanups. */
  function Uncleaned(calls: seq<Call>, j: nat): seq<Call>
    requires j <= |calls|
  {
    if j == 0 then []
    else if calls[j - 1].Clean? then Uncleaned(calls, j - 1)
    else Uncleaned(calls, j - 1) + [calls[j - 1]]
  }

  lemma {:induction false} PrefixCalls(g: Config, calls: seq<Call>, more: seq<Call>, j: nat)
    requires j <= |calls|
    ensures After(g, calls + more, j) == After(g, calls, j) && Answers(g, calls + more, j) == Answers(g, calls, j)
  {
    hide PerRoute.Step, Passes;
    if j > 0 {
      PrefixCalls(g, calls, more, j - 1);
      assert (calls + more)[j - 1] == calls[j - 1];
    }
  }

  lemma OneMoreCall(g: Config, calls: seq<Call>, call: Call)
    ensures var p := After(g, calls, |calls|);
            && After(g, calls + [call], |calls| + 1) == PerRoute.Step(p, call)
            && Answers(g, calls + [call], |calls| + 1) ==
                 Answers(g, calls, |calls|) + (if call.Ask? then [Passes(p, call.route, call.client, call.t)] else [])
  {
    hide PerRoute.Step, Passes;
    PrefixCalls(g, calls, [call], |calls|);
    assert Answers(g, calls, |calls|) + [] == Answers(g, calls, |calls|);
  }

  /** Every limit of the run is safe with the global one. */
  predicate AllSafe(g: Config, calls: seq<Call>) {
    && g.rate >= 1 && RefillsInTime(g)
    && forall i :: 0 <= i < |calls| && calls[i].Set? ==> Safe(g, Config(calls[i].rate, calls[i].burst))
  }

  ghost function Clients(calls: seq<Call>): set<string> {
    set i | 0 <= i < |calls| && calls[i].Ask? :: calls[i].client
  }

  /** The run up to call j with its cleanups and without them. */
  ghost predicate Together(g: Config, calls: seq<Call>, j: nat, t: real, clients: set<string>)
    requires j <= |calls|
  {
    var full := Uncleaned(calls, j);
    && Twins(After(g, calls, j), After(g, full, |full|), t, clients) && After(g, full, |full|).global.config == g
    && Answers(g, calls, j) == Answers(g, full, |full|)
  }

  lemma TogetherNext(g: Config, calls: seq<Call>, j: nat, t: real, u: real)
    requires j < |calls| && AllSafe(g, calls) && |Clients(calls)| <= MAX_BUCKETS && t <= u
    requires Begins(calls[j], t) && Ends(calls[j], u) && Together(g, calls, j, t, Clients(calls))
    ensures Together(g, calls, j + 1, u, Clients(calls))
  {
    var call, clients := calls[j], Clients(calls);
    assert call.Ask? ==> call.client in clients;
    assert call.Set? ==> Safe(g, Config(call.rate, call.burst));
    hide *;
    if call.Clean? {
      TogetherClean(g, calls, j, t, u, clients);
    } else {
      TogetherCall(g, calls, j, t, u, clients);
    }
  }

  lemma TogetherClean(g: Config, calls: seq<Call>, j: nat, t: real, u: real, clients: set<string>)
    requires j < |calls| && calls[j].Clean? && Together(g, calls, j, t, clients)
    requires Begins(calls[j], t) && Ends(calls[j], u)
    ensures Together(g, calls, j + 1, u, clients)
  {
    hide PerRoute.Step, Passes, Twins, Begins, Ends;
    var full := Uncleaned(calls, j);
    TwinsClean(After(g, calls, j), After(g, full, |full|), t, u, calls[j], clients);
  }

  lemma TogetherCall(g: Config, calls: seq<Call>, j: nat, t: real, u: real, clients: set<string>)
    requires j < |calls| && !calls[j].Clean? && Together(g, calls, j, t, clients) && |clients| <= MAX_BUCKETS
    requires t <= u && Begins(calls[j], t) && Ends(calls[j], u)
    requires calls[j].Ask? ==> calls[j].client in clients
    requires calls[j].Set? ==> Safe(g, Config(calls[j].rate, calls[j].burst))
    ensures Together(g, calls, j + 1, u, clients)
  {
    var call, full := calls[j], Uncleaned(calls, j);
    var p, q := After(g, calls, j), After(g, full, |full|);
    KeepsConfig(q, call);
    hide PerRoute.Step, Passes, Twins, Begins, Ends, Safe;
    TwinsNext(p, q, t, u, call, clients);
    NextCall(g, calls, j);
    OneMoreCall(g, full, call);
    hide After, Answers;
  }

  lemma TwinsNext(p: Pair, q: Pair, t: real, u: real, call: Call, clients: set<string>)
    requires Twins(p, q, t, clients) && |clients| <= MAX_BUCKETS && t <= u && Begins(call, t) && Ends(call, u)
    requires !call.Clean? && (call.Ask? ==> call.client in clients)
    requires call.Set? ==> Safe(q.global.config, Config(call.rate, call.burst))
    ensures Twins(PerRoute.Step(p, call), PerRoute.Step(q, call), u, clients)
    ensures call.Ask? ==>
              Passes(p, call.route, call.client, call.t) == Passes(q, call.route, call.client, call.t)
  {
    hide *;
    match call
    case Ask(_, _, _) => TwinsAsk(p, q, t, u, call, clients);
    case Set(_, _, _) => TwinsSet(p, q, t, u, call, clients);
  }

  lemma NextCall(g: Config, calls: seq<Call>, j: nat)
    requires j < |calls|
    ensures var p, call := After(g, calls, j), calls[j];
            && After(g, calls, j + 1) == PerRoute.Step(p, call)
            && Answers(g, calls, j + 1) ==
                 Answers(g, calls, j) + (if call.Ask? then [Passes(p, call.route, call.client, call.t)] else [])
            && Uncleaned(calls, j + 1) == if call.Clean? then Uncleaned(calls, j) else Uncleaned(calls, j) + [call]
  {
    hide PerRoute.Step, Passes;
    assert Answers(g, calls, j) + [] == Answers(g, calls, j);
  }

  lemma KeepsConfig(q: Pair, call: Call)
    ensures PerRoute.Step(q, call).global.config == q.global.config
  {}

  lemma TogetherFirst(g: Config, calls: seq<Call>, t: real)
    requires g.rate >= 1 && RefillsInTime(g)
    ensures Together(g, calls, 0, t, Clients(calls))
  {
    AlikeNew(g, t);
  }

  lemma {:induction false} CleanedRun(g: Config, calls: seq<Call>, times: seq<real>, j: nat)
    requires AllSafe(g, calls) && |Clients(calls)| <= MAX_BUCKETS && TimedCalls(calls, times) && j <= |calls|
    ensures Together(g, calls, j, times[j], Clients(calls))
  {
    hide Together, Begins, Ends, Clients;
    if j == 0 {
      TogetherFirst(g, calls, times[0]);
    } else {
      CleanedRun(g, calls, times, j - 1);
      TogetherNext(g, calls, j - 1, times[j - 1], times[j]);
    }
  }

  /**
   Cleanups anywhere among requests and new limits change no answer when the clients fit a table and
   every limit is safe: a full bucket refills within five minutes, or the route is outpaced.
   */
  lemma CleanupsUnobservable(g: Config, calls: seq<Call>, times: seq<real>)
    requires AllSafe(g, calls) && |Clients(calls)| <= MAX_BUCKETS && TimedCalls(calls, times)
    ensures Answers(g, calls, |calls|) == Answers(g, Uncleaned(calls, |calls|), |Uncleaned(calls, |calls|)|)
  {
    hide AllSafe, TimedCalls, Twins;
    CleanedRun(g, calls, times, |calls|);
  }
}
