/**
 Rate limits by route (internal/policy/ratelimit.go:115-176): a global limiter asked first with the
 client's address, then the limiter of the route, if it has one, with the route and the address.

 A run of the pair is a run of single limiters: the global one sees every request, a route's one
 sees the requests of that route the global one let through since its limit was set. What is proved
 of one limiter in RateLimit and Eviction then holds of each. The limiters are held as values.
 */
module PerRoute {
  import opened Common
  import opened Eviction
  import opened RateLimit

  datatype Limiter = Limiter(config: Config, buckets: Table) {
    predicate Lets(key: string, created: real, now: real) {
      Admits(config, buckets, key, created, now)
    }

    function Asked(key: string, created: real, now: real): Limiter {
      this.(buckets := AfterRequest(config, buckets, key, created, now))
    }

    function Swept(now: real): Limiter {
      this.(buckets := AfterSweep(buckets, now))
    }
  }

  datatype Pair = Pair(global: Limiter, limiters: map<string, Limiter>)

  /** The clock readings of the two calls, each as in RateLimiter.Allow. */
  datatype Clock = Clock(created: real, now: real, routeCreated: real, routeNow: real)

  function RouteKey(route: string, client: string): string { route + ":" + client }

  predicate Passes(p: Pair, route: string, client: string, t: Clock) {
    && p.global.Lets(client, t.created, t.now)
    && (route in p.limiters ==> p.limiters[route].Lets(RouteKey(route, client), t.routeCreated, t.routeNow))
  }

  /** The global bucket is charged in any case, the route's only when the global limiter lets the request through. */
  function AfterAsk(p: Pair, route: string, client: string, t: Clock): Pair {
    Pair(p.global.Asked(client, t.created, t.now),
         if route in p.limiters && p.global.Lets(client, t.created, t.now) then
           p.limiters[route := p.limiters[route].Asked(RouteKey(route, client), t.routeCreated, t.routeNow)]
         else p.limiters)
  }

  function AfterClean(p: Pair, now: real, at: string -> real): Pair {
    Pair(p.global.Swept(now), map r | r in p.limiters :: p.limiters[r].Swept(at(r)))
  }

  function AfterSet(p: Pair, route: string, rate: int, burst: int): Pair {
    p.(limiters := p.limiters[route := Limiter(Config(rate, burst), map[])])
  }

  class PerRouteLimiter {
    var global: Limiter
    var limiters: map<string, Limiter>

    ghost function View(): Pair
      reads this
    {
      Pair(global, limiters)
    }

    constructor (globalRate: int)
      ensures View() == Unused(Config(globalRate, globalRate))
    {
      global, limiters := Limiter(Config(globalRate, globalRate), map[]), map[];
    }

    method SetRoute(route: string, ratePerMinute: int, burst: int)
      modifies this`limiters
      ensures View() == AfterSet(old(View()), route, ratePerMinute, burst)
    {
      limiters := limiters[route := Limiter(Config(ratePerMinute, burst), map[])];
    }

    method Allow(route: string, client: string, t: Clock) returns (ok: bool)
      modifies this
      ensures ok == Passes(old(View()), route, client, t)
      ensures View() == AfterAsk(old(View()), route, client, t)
    {
      ok := global.Lets(client, t.created, t.now);
      global := global.Asked(client, t.created, t.now);
      if !ok {
        return;
      }
      if route in limiters {
        var limiter, key := limiters[route], route + ":" + client;
        ok := limiter.Lets(key, t.routeCreated, t.routeNow);
        limiters := limiters[route := limiter.Asked(key, t.routeCreated, t.routeNow)];
      }
    }

    /** `at` are the clock readings of the route limiters. */
    method Cleanup(now: real, at: string -> real)
      modifies this
      ensures View() == AfterClean(old(View()), now, at)
    {
      global := global.Swept(now);
      var todo := limiters.Keys;
      ghost var was := limiters;
      while todo != {}
        invariant todo <= was.Keys == limiters.Keys && global == old(global).Swept(now)
        invariant forall r :: r in was ==> limiters[r] == if r in todo then was[r] else was[r].Swept(at(r))
      {
        var r :| r in todo;
        limiters := limiters[r := limiters[r].Swept(at(r))];
        todo := todo - {r};
      }
    }
  }

  // ---------------------------------------------------------------------------------------------
  // Runs
  // ---------------------------------------------------------------------------------------------

  datatype Call =
    | Ask(route: string, client: string, t: Clock)
    | Clean(now: real, at: string -> real)
    | Set(route: string, rate: int, burst: int)

  function Unused(g: Config): Pair {
    Pair(Limiter(g, map[]), map[])
  }

  function Step(p: Pair, call: Call): Pair {
    match call
    case Ask(route, client, t) => AfterAsk(p, route, client, t)
    case Clean(now, at) => AfterClean(p, now, at)
    case Set(route, rate, burst) => AfterSet(p, route, rate, burst)
  }

  /** The limiters after the first j calls. */
  function After(g: Config, calls: seq<Call>, j: nat): Pair
    requires j <= |calls|
  {
    if j == 0 then Unused(g) else Step(After(g, calls, j - 1), calls[j - 1])
  }

  predicate Allowed(g: Config, calls: seq<Call>, j: nat)
    requires j < |calls|
  {
    calls[j].Ask? && Passes(After(g, calls, j), calls[j].route, calls[j].client, calls[j].t)
  }

  /** What the global limiter sees: every request and sweep. No limit of a route has a part in it. */
  function GlobalRun(calls: seq<Call>, j: nat): seq<Event>
    requires j <= |calls|
  {
    if j == 0 then []
    else
      match calls[j - 1]
      case Ask(_, client, t) => GlobalRun(calls, j - 1) + [Request(client, t.created, t.now)]
      case Clean(now, _) => GlobalRun(calls, j - 1) + [Sweep(now)]
      case Set(_, _, _) => GlobalRun(calls, j - 1)
  }

  /** The global limiter grants request j. */
  predicate Through(g: Config, calls: seq<Call>, j: nat)
    requires j < |calls| && calls[j].Ask?
  {
    var evs := GlobalRun(calls, j + 1);
    evs != [] && Granted(g, evs, |evs| - 1)
  }

  /** What the limiter of a route sees since it was set: the requests of the route that the global limiter grants. */
  function RouteRun(g: Config, calls: seq<Call>, route: string, j: nat): seq<Event>
    requires j <= |calls|
  {
    if j == 0 then []
    else
      var before := RouteRun(g, calls, route, j - 1);
      match calls[j - 1]
      case Ask(r, client, t) =>
        if r == route && Through(g, calls, j - 1)
        then before + [Request(RouteKey(route, client), t.routeCreated, t.routeNow)]
        else before
      case Clean(_, at) => before + [Sweep(at(route))]
      case Set(r, _, _) => if r == route then [] else before
  }

  lemma AppendEvent(l: Limiter, evs: seq<Event>, e: Event)
    requires l.buckets == TableAt(l.config, evs, |evs|)
    ensures var now := TableAt(l.config, evs + [e], |evs| + 1);
            if e.Request? then l.Asked(e.key, e.created, e.now).buckets == now else l.Swept(e.now).buckets == now
    ensures Granted(l.config, evs + [e], |evs|) <==> e.Request? && l.Lets(e.key, e.created, e.now)
  {
    hide Replies, AfterRequest, AfterSweep, Admits;
    PrefixRun(l.config, evs, [e], |evs|);
  }

  lemma {:induction false} GlobalRuns(g: Config, calls: seq<Call>, j: nat)
    requires j <= |calls|
    ensures var evs := GlobalRun(calls, j); After(g, calls, j).global == Limiter(g, TableAt(g, evs, |evs|))
  {
    hide AfterRequest, AfterSweep, Admits, TableAt;
    if j == 0 {
      NothingYet(g);
    } else {
      GlobalRuns(g, calls, j - 1);
      var evs, l := GlobalRun(calls, j - 1), After(g, calls, j - 1).global;
      match calls[j - 1]
      case Ask(_, client, t) => AppendEvent(l, evs, Request(client, t.created, t.now));
      case Clean(now, _) => AppendEvent(l, evs, Sweep(now));
      case Set(_, _, _) =>
    }
  }

  lemma GlobalGrants(g: Config, calls: seq<Call>, j: nat)
    requires j < |calls| && calls[j].Ask?
    ensures var Ask(_, client, t) := calls[j];
            Through(g, calls, j) <==> After(g, calls, j).global.Lets(client, t.created, t.now)
  {
    hide Admits, TableAt, Granted, After;
    GlobalRuns(g, calls, j);
    var Ask(_, client, t) := calls[j];
    AppendEvent(After(g, calls, j).global, GlobalRun(calls, j), Request(client, t.created, t.now));
  }

  /** The table of a route's limiter is that of a single limiter after the run of the route. */
  ghost predicate Follows(g: Config, calls: seq<Call>, route: string, j: nat)
    requires j <= |calls|
  {
    var p, evs := After(g, calls, j), RouteRun(g, calls, route, j);
    route in p.limiters ==> p.limiters[route].buckets == TableAt(p.limiters[route].config, evs, |evs|)
  }

  lemma FollowsAsk(g: Config, calls: seq<Call>, route: string, j: nat)
    requires j < |calls| && calls[j].Ask? && Follows(g, calls, route, j)
    ensures Follows(g, calls, route, j + 1)
  {
    hide AfterRequest, AfterSweep, Admits, TableAt, Granted, RouteKey, Through;
    var Ask(r, client, t) := calls[j];
    GlobalGrants(g, calls, j);
    var p := After(g, calls, j);
    if r == route && route in p.limiters && Through(g, calls, j) {
      var e := Request(RouteKey(route, client), t.routeCreated, t.routeNow);
      AppendEvent(p.limiters[route], RouteRun(g, calls, route, j), e);
    }
  }

  lemma FollowsClean(g: Config, calls: seq<Call>, route: string, j: nat)
    requires j < |calls| && calls[j].Clean? && Follows(g, calls, route, j)
    ensures Follows(g, calls, route, j + 1)
  {
    hide AfterRequest, AfterSweep, Admits, TableAt, Granted;
    var p := After(g, calls, j);
    if route in p.limiters {
      AppendEvent(p.limiters[route], RouteRun(g, calls, route, j), Sweep(calls[j].at(route)));
    }
  }

  lemma FollowsSet(g: Config, calls: seq<Call>, route: string, j: nat)
    requires j < |calls| && calls[j].Set? && Follows(g, calls, route, j)
    ensures Follows(g, calls, route, j + 1)
  {
    NothingYet(Config(calls[j].rate, calls[j].burst));
    hide TableAt;
  }

  lemma NothingFollows(g: Config, calls: seq<Call>, route: string)
    ensures Follows(g, calls, route, 0)
  {}

  lemma {:induction false} RouteRuns(g: Config, calls: seq<Call>, route: string, j: nat)
    requires j <= |calls|
    ensures Follows(g, calls, route, j)
  {
    hide *;
    if j == 0 {
      NothingFollows(g, calls, route);
    } else {
      RouteRuns(g, calls, route, j - 1);
      match calls[j - 1]
      case Ask(_, _, _) => FollowsAsk(g, calls, route, j - 1);
      case Clean(_, _) => FollowsClean(g, calls, route, j - 1);
      case Set(_, _, _) => FollowsSet(g, calls, route, j - 1);
    }
  }

  /** The run of the route's limiter, with request j at its end. */
  function Reaching(g: Config, calls: seq<Call>, j: nat): (evs: seq<Event>)
    requires j < |calls| && calls[j].Ask?
    ensures evs != []
  {
    var Ask(route, client, t) := calls[j];
    RouteRun(g, calls, route, j) + [Request(RouteKey(route, client), t.routeCreated, t.routeNow)]
  }

  /**
   A request is allowed exactly when it is granted in the run of the global limiter and, where its
   route has a limit, also in the run of the route's limiter.
   */
  lemma AllowedExactly(g: Config, calls: seq<Call>, j: nat)
    requires j < |calls| && calls[j].Ask?
    ensures var Ask(route, _, _) := calls[j]; var p, evs := After(g, calls, j), Reaching(g, calls, j);
            Allowed(g, calls, j) <==>
              && Through(g, calls, j)
              && (route in p.limiters ==> Granted(p.limiters[route].config, evs, |evs| - 1))
  {
    hide Admits, TableAt, Granted, After, Through;
    GlobalGrants(g, calls, j);
    var Ask(route, client, t) := calls[j];
    RouteRuns(g, calls, route, j);
    var p := After(g, calls, j);
    if route in p.limiters {
      AppendEvent(p.limiters[route], RouteRun(g, calls, route, j),
                  Request(RouteKey(route, client), t.routeCreated, t.routeNow));
    }
  }

  /** The bound of one limiter for the last request, over every window since event s that ends with it. */
  ghost predicate Within(c: Config, evs: seq<Event>, key: string, s: nat)
    requires s < |evs|
  {
    var k := |evs| - 1;
    forall i :: s <= i <= k && evs[i].Asks(key) ==>
      Grants(c, evs, key, i, k) as real + 1.0 <= c.MaxTokens() + Accrued(c.RefillRate(), evs[k].now - evs[i].now)
  }

  /** A timed run that ends with a request whose bucket has lived since event s. */
  ghost predicate Lives(c: Config, evs: seq<Event>, key: string, s: nat) {
    && c.rate >= 0 && Timed(evs)
    && s < |evs| && evs[|evs| - 1].Asks(key) && BucketLives(c, evs, key, s, |evs| - 1)
  }

  lemma GrantedWithin(c: Config, evs: seq<Event>, key: string, s: nat)
    requires Lives(c, evs, key, s)
    ensures Granted(c, evs, |evs| - 1) <==> Within(c, evs, key, s)
  {
    hide TableAt, Granted, BucketLives, Timed, Grants, Accrued;
    MinPlus(c, evs, key, s, |evs| - 1);
  }

  /**
   While the two buckets live, a request is allowed exactly when it keeps within the burst-plus-rate
   bound of the global limiter and within that of the route.
   */
  lemma AllowedWithinBoth(g: Config, calls: seq<Call>, j: nat, s: nat, s': nat)
    requires j < |calls| && calls[j].Ask? && calls[j].route in After(g, calls, j).limiters
    requires Lives(g, GlobalRun(calls, j + 1), calls[j].client, s)
    requires Lives(After(g, calls, j).limiters[calls[j].route].config, Reaching(g, calls, j),
                   RouteKey(calls[j].route, calls[j].client), s')
    ensures var Ask(route, client, _) := calls[j];
            Allowed(g, calls, j) <==>
              && Within(g, GlobalRun(calls, j + 1), client, s)
              && Within(After(g, calls, j).limiters[route].config, Reaching(g, calls, j), RouteKey(route, client), s')
  {
    hide Granted, After, Allowed, Lives, Within, RouteKey;
    AllowedExactly(g, calls, j);
    var Ask(route, client, _) := calls[j];
    GrantedWithin(g, GlobalRun(calls, j + 1), client, s);
    GrantedWithin(After(g, calls, j).limiters[route].config, Reaching(g, calls, j), RouteKey(route, client), s');
  }
}
