/**
 Runs of the per-route limiter that show a cleanup (internal/policy/ratelimit.go:44-176), and with
 them the exact condition: the global limit lets a single client drain a route's bucket when its rate
 is the higher one, one request per global token; a sweep then hands out a fresh burst.
 */
module PerRouteDrain {
  import opened Common
  import opened Eviction
  import opened PerRoute
  import opened PerRouteEviction
  import opened RateLimit

  // ---------------------------------------------------------------------------------------------
  // Runs from a given pair
  // ---------------------------------------------------------------------------------------------

  function Steps(p: Pair, calls: seq<Call>): Pair
    decreases |calls|
  {
    if calls == [] then p else Steps(PerRoute.Step(p, calls[0]), calls[1..])
  }

  function Replied(p: Pair, calls: seq<Call>): seq<bool>
    decreases |calls|
  {
    if calls == [] then []
    else
      (if calls[0].Ask? then [Passes(p, calls[0].route, calls[0].client, calls[0].t)] else [])
      + Replied(PerRoute.Step(p, calls[0]), calls[1..])
  }

  lemma {:induction false} AfterSteps(g: Config, calls: seq<Call>, more: seq<Call>)
    ensures After(g, calls + more, |calls + more|) == Steps(After(g, calls, |calls|), more)
    ensures Answers(g, calls + more, |calls + more|) ==
              Answers(g, calls, |calls|) + Replied(After(g, calls, |calls|), more)
    decreases |more|
  {
    hide PerRoute.Step, Passes, After, Answers;
    if more == [] {
      assert calls + more == calls;
    } else {
      OneMoreCall(g, calls, more[0]);
      AfterSteps(g, calls + [more[0]], more[1..]);
      assert (calls + [more[0]]) + more[1..] == calls + more;
      var p := After(g, calls, |calls|);
      Associate(Answers(g, calls, |calls|),
                if more[0].Ask? then [Passes(p, more[0].route, more[0].client, more[0].t)] else [],
                Replied(PerRoute.Step(p, more[0]), more[1..]));
    }
  }

  lemma {:induction false} StepsAppend(p: Pair, a: seq<Call>, b: seq<Call>)
    ensures Steps(p, a + b) == Steps(Steps(p, a), b)
    ensures Replied(p, a + b) == Replied(p, a) + Replied(Steps(p, a), b)
    decreases |a|
  {
    hide PerRoute.Step, Passes;
    if a == [] {
      assert a + b == b;
    } else {
      assert (a + b)[1..] == a[1..] + b && (a + b)[0] == a[0];
      StepsAppend(PerRoute.Step(p, a[0]), a[1..], b);
      Associate(if a[0].Ask? then [Passes(p, a[0].route, a[0].client, a[0].t)] else [],
                Replied(PerRoute.Step(p, a[0]), a[1..]),
                Replied(Steps(p, a), b));
    }
  }

  lemma StepsOne(p: Pair, call: Call)
    ensures Steps(p, [call]) == PerRoute.Step(p, call)
    ensures Replied(p, [call]) == if call.Ask? then [Passes(p, call.route, call.client, call.t)] else []
  {
    hide PerRoute.Step, Passes;
    assert [call][1..] == [];
    assert Replied(PerRoute.Step(p, call), []) == [];
  }

  lemma {:induction false} UncleanedAppend(a: seq<Call>, b: seq<Call>)
    ensures Uncleaned(a + b, |a + b|) == Uncleaned(a, |a|) + Uncleaned(b, |b|)
    decreases |b|
  {
    if b == [] {
      assert a + b == a;
      assert Uncleaned(a, |a|) + [] == Uncleaned(a, |a|);
    } else {
      var init, last := b[..|b| - 1], b[|b| - 1];
      UncleanedAppend(a, init);
      UncleanedPrefix(a + init, [last], |a + init|);
      UncleanedPrefix(init, [last], |init|);
      assert (a + init) + [last] == a + b && init + [last] == b;
    }
  }

  lemma {:induction false} UncleanedPrefix(calls: seq<Call>, more: seq<Call>, j: nat)
    requires j <= |calls|
    ensures Uncleaned(calls + more, j) == Uncleaned(calls, j)
  {
    if j > 0 { UncleanedPrefix(calls, more, j - 1); }
  }

  lemma {:induction false} NothingCleaned(calls: seq<Call>)
    requires forall i :: 0 <= i < |calls| ==> !calls[i].Clean?
    ensures Uncleaned(calls, |calls|) == calls
  {
    if calls != [] {
      var init, last := calls[..|calls| - 1], calls[|calls| - 1];
      NothingCleaned(init);
      assert calls == init + [last];
      UncleanedPrefix(init, [last], |init|);
    }
  }

  // ---------------------------------------------------------------------------------------------
  // Calls at one moment each
  // ---------------------------------------------------------------------------------------------

  function Moment(call: Call): real {
    match call
    case Ask(_, _, t) => t.created
    case Clean(now, _) => now
    case Set(_, _, _) => 0.0
  }

  ghost predicate Instant(call: Call) {
    match call
    case Ask(_, _, t) => t.created == t.now == t.routeCreated == t.routeNow
    case Clean(now, at) => forall r :: at(r) == now
    case Set(_, _, _) => true
  }

  ghost predicate Instants(calls: seq<Call>, lo: real, hi: real) {
    && lo <= hi
    && (forall i :: 0 <= i < |calls| ==> Instant(calls[i]) && lo <= Moment(calls[i]) <= hi)
    && forall i, j :: 0 <= i < j < |calls| ==> Moment(calls[i]) <= Moment(calls[j])
  }

  lemma InstantsAppend(a: seq<Call>, lo: real, mid: real, b: seq<Call>, hi: real)
    requires Instants(a, lo, mid) && Instants(b, mid, hi)
    ensures Instants(a + b, lo, hi)
  {
    hide Instant, Moment;
  }

  lemma InstantsTimed(calls: seq<Call>, hi: real) returns (times: seq<real>)
    requires Instants(calls, 0.0, hi)
    ensures TimedCalls(calls, times)
  {
    times := [0.0] + seq(|calls|, i requires 0 <= i < |calls| => Moment(calls[i]));
    forall i | 0 <= i < |calls| ensures times[i] <= times[i + 1] == Moment(calls[i]) {
      if i > 0 { assert times[i] == Moment(calls[i - 1]); }
    }
    forall i | 0 <= i < |calls| ensures Begins(calls[i], times[i]) && Ends(calls[i], times[i + 1]) {
      InstantFits(calls[i], times[i]);
    }
  }

  lemma InstantFits(call: Call, t: real)
    requires Instant(call) && t <= Moment(call)
    ensures Begins(call, t) && Ends(call, Moment(call))
  {}

  /** Nothing but requests of one client. */
  ghost predicate OneClient(calls: seq<Call>) {
    forall i :: 0 <= i < |calls| ==> calls[i].Ask? && calls[i].client == "c"
  }

  ghost predicate SetsOnly(calls: seq<Call>, cs: set<Config>) {
    forall i :: 0 <= i < |calls| && calls[i].Set? ==> Config(calls[i].rate, calls[i].burst) in cs
  }

  // ---------------------------------------------------------------------------------------------
  // One client on one route
  // ---------------------------------------------------------------------------------------------

  function AskAt(u: real): Call {
    Ask("r", "c", PerRoute.Clock(u, u, u, u))
  }

  /** The limit is set, and nobody has a bucket. */
  function Blank(g: Config, c: Config): Pair {
    Pair(Limiter(g, map[]), map["r" := Limiter(c, map[])])
  }

  function Single(c: Config, key: string, x: real, at: real): Limiter {
    Limiter(c, map[key := Level(x, c.MaxTokens(), c.RefillRate(), at)])
  }

  /** The client's two buckets, both last charged at the same time. */
  function State(g: Config, c: Config, tokens: real, x: real, at: real): Pair {
    Pair(Single(g, "c", tokens, at), map["r" := Single(c, RouteKey("r", "c"), x, at)])
  }

  function LevelAt(g: Config, tokens: real, at: real, u: real): real {
    Level(tokens, g.MaxTokens(), g.RefillRate(), at).Refilled(u)
  }

  lemma AskSingle(c: Config, key: string, x: real, at: real, u: real)
    ensures var l, y := Single(c, key, x, at), LevelAt(c, x, at, u);
            && (l.Lets(key, u, u) <==> y >= 1.0)
            && l.Asked(key, u, u) == Single(c, key, if y >= 1.0 then y - 1.0 else y, u)
  {
    hide Accrued, Level.Refilled, Config.MaxTokens, Config.RefillRate;
    var m := Single(c, key, x, at).buckets;
    assert !TurnedAway(m, key) && Charged(c, m, key, u) == m[key];
    assert m[key := m[key].Taken(u)] == map[key := m[key].Taken(u)];
  }

  lemma AskState(g: Config, c: Config, tokens: real, x: real, at: real, u: real)
    requires LevelAt(g, tokens, at, u) >= 1.0
    ensures var p, y := State(g, c, tokens, x, at), LevelAt(c, x, at, u);
            && (Passes(p, "r", "c", AskAt(u).t) <==> y >= 1.0)
            && PerRoute.Step(p, AskAt(u)) ==
                 State(g, c, LevelAt(g, tokens, at, u) - 1.0, if y >= 1.0 then y - 1.0 else y, u)
  {
    var key := RouteKey("r", "c");
    AskSingle(g, "c", tokens, at, u);
    AskSingle(c, key, x, at, u);
    hide LevelAt, RouteKey, Limiter.Asked, Limiter.Lets;
    var l, l' := Single(c, key, x, at), Single(c, key, x, at).Asked(key, u, u);
    assert map["r" := l]["r" := l'] == map["r" := l'];
  }

  lemma AskBlank(g: Config, c: Config, u: real)
    requires g.rate >= 1 && c.rate >= 1
    ensures Passes(Blank(g, c), "r", "c", AskAt(u).t)
    ensures PerRoute.Step(Blank(g, c), AskAt(u)) == State(g, c, g.MaxTokens() - 1.0, c.MaxTokens() - 1.0, u)
  {
    BornFull(g, map[], "c", u, u);
    BornFull(c, map[], RouteKey("r", "c"), u, u);
    hide Accrued, Level.Refilled, RouteKey;
  }

  lemma CleanState(g: Config, c: Config, tokens: real, x: real, at: real, s: real)
    requires at < s - EVICT_AFTER
    ensures PerRoute.Step(State(g, c, tokens, x, at), Clean(s, _ => s)) == Blank(g, c)
  {
    hide Config.MaxTokens, Config.RefillRate;
  }

  /** The global token comes back in `wait`, and with it a share `back` of the route's. */
  datatype Pace = Pace(wait: real, back: real)

  ghost predicate Paced(g: Config, c: Config, p: Pace) {
    && p.wait > 0.0 && 0.0 < p.back < 1.0
    && Accrued(g.RefillRate(), p.wait) == 1.0 && Accrued(c.RefillRate(), p.wait) == p.back
  }

  lemma SomePace(g: Config, c: Config) returns (p: Pace)
    requires 1 <= c.rate < g.rate
    ensures Paced(g, c, p) && Accrued(c.RefillRate(), p.wait / 2.0) == p.back / 2.0
  {
    var k, r := g.rate as real, c.rate as real;
    p := Pace(60.0 / k, r / k);
    assert (60.0 / k) * k == 60.0;
    assert (60.0 / k) * (k / 60.0) == 1.0;
    assert (60.0 / k) * (r / 60.0) == r / k;
    assert 0.0 < r / k < 1.0;
  }

  /** With a full global bucket behind it, the client asks again as soon as it has a global token. */
  lemma PacedAsk(g: Config, c: Config, p: Pace, x: real, at: real, more: real)
    requires Paced(g, c, p) && g.rate >= 1 && c.rate >= 1 && more >= 0.0
    requires x + p.back + Accrued(c.RefillRate(), more) <= c.MaxTokens()
    ensures var y, u := x + p.back + Accrued(c.RefillRate(), more), at + p.wait + more;
            var s := State(g, c, g.MaxTokens() - 1.0, x, at);
            && (Passes(s, "r", "c", AskAt(u).t) <==> y >= 1.0)
            && PerRoute.Step(s, AskAt(u)) == State(g, c, g.MaxTokens() - 1.0, if y >= 1.0 then y - 1.0 else y, u)
  {
    hide Accrued, PerRoute.Step, Passes, State;
    var u := at + p.wait + more;
    assert u - at == p.wait + more;
    AccruedSum(g.RefillRate(), p.wait, more);
    AccruedSum(c.RefillRate(), p.wait, more);
    AccruedSign(g.RefillRate(), more);
    AskState(g, c, g.MaxTokens() - 1.0, x, at, u);
  }

  function Shrink(n: nat, d: real): real {
    if n == 0 then 0.0 else Shrink(n - 1, d) + d
  }

  lemma {:induction false} ShrinkIs(n: nat, d: real)
    ensures Shrink(n, d) == n as real * d
  {
    if n > 0 {
      ShrinkIs(n - 1, d);
      assert (n - 1) as real == n as real - 1.0;
      assert (n as real - 1.0) * d + d == n as real * d;
    }
  }

  /** Enough steps cover any distance. */
  lemma Archimedes(x: real, d: real) returns (n: nat)
    requires d > 0.0 && x >= 0.0
    ensures x < Shrink(n, d)
  {
    var q := x / d;
    n := q.Floor + 1;
    ShrinkIs(n, d);
    var m := n as real;
    assert x == q * d && m - q > 0.0;
    assert (m - q) * d > 0.0;
    assert m * d == q * d + (m - q) * d;
  }

  /** A run of paced requests by the client on two pairs, which both grant them all. */
  ghost predicate Drains(g: Config, c: Config, x: real, y: real, at: real, calls: seq<Call>,
                         x': real, y': real, at': real)
  {
    var full := g.MaxTokens() - 1.0;
    && Steps(State(g, c, full, x, at), calls) == State(g, c, full, x', at')
    && Steps(State(g, c, full, y, at), calls) == State(g, c, full, y', at')
    && Replied(State(g, c, full, x, at), calls) == Replied(State(g, c, full, y, at), calls)
    && OneClient(calls) && Instants(calls, at, at')
  }

  /** Paced requests drain the route's bucket until the next would find it without a token. */
  lemma {:induction false} DrainBoth(g: Config, c: Config, p: Pace, x: real, y: real, at: real, n: nat)
    returns (calls: seq<Call>, x': real, y': real, at': real)
    requires Paced(g, c, p) && g.rate >= 1 && c.rate >= 1
    requires 0.0 <= x <= y <= c.MaxTokens() - 1.0 && x < Shrink(n, 1.0 - p.back)
    ensures Drains(g, c, x, y, at, calls, x', y', at')
    ensures 0.0 <= x' && x' + p.back < 1.0 && y' - x' == y - x && y' <= c.MaxTokens() - 1.0
    decreases n
  {
    hide Accrued, PerRoute.Step, Passes, State;
    var full := g.MaxTokens() - 1.0;
    if x + p.back < 1.0 {
      calls, x', y', at' := [], x, y, at;
    } else {
      var u := at + p.wait;
      AccruedSign(c.RefillRate(), 0.0);
      PacedAsk(g, c, p, x, at, 0.0);
      PacedAsk(g, c, p, y, at, 0.0);
      var more;
      more, x', y', at' := DrainBoth(g, c, p, x + p.back - 1.0, y + p.back - 1.0, u, n - 1);
      calls := [AskAt(u)] + more;
      hide Shrink;
      assert calls[1..] == more && calls[0] == AskAt(u);
      InstantsAppend([AskAt(u)], at, u, more, at');
    }
  }

  lemma WaitFor(c: Config, amount: real) returns (more: real)
    requires c.rate >= 1 && amount >= 0.0
    ensures more >= 0.0 && Accrued(c.RefillRate(), more) == amount
  {
    var r := c.rate as real;
    more := amount * 60.0 / r;
    assert more * r == amount * 60.0;
    assert more * (r / 60.0) == amount;
  }

  /** Of two drained buckets a request may find a token in the fuller one only. */
  lemma LastTells(g: Config, c: Config, p: Pace, x: real, y: real, at: real) returns (u: real)
    requires Paced(g, c, p) && g.rate >= 1 && c.rate >= 1
    requires 0.0 <= x < y <= c.MaxTokens() - 1.0 && x + p.back < 1.0
    ensures at <= u
    ensures var full := g.MaxTokens() - 1.0;
            && Passes(State(g, c, full, y, at), "r", "c", AskAt(u).t)
            && !Passes(State(g, c, full, x, at), "r", "c", AskAt(u).t)
  {
    hide Accrued, PerRoute.Step, Passes, State;
    var more := WaitFor(c, if y + p.back >= 1.0 then 0.0 else 1.0 - (y + p.back));
    PacedAsk(g, c, p, x, at, more);
    PacedAsk(g, c, p, y, at, more);
    u := at + p.wait + more;
  }

  lemma GlobalFull(g: Config, at: real, u: real)
    requires g.rate >= 1 && g.burst == g.rate && u - at >= EVICT_AFTER
    ensures LevelAt(g, g.MaxTokens() - 1.0, at, u) == g.MaxTokens() >= 1.0
  {
    AccruedSum(g.RefillRate(), EVICT_AFTER, u - at - EVICT_AFTER);
    assert u - at == EVICT_AFTER + (u - at - EVICT_AFTER);
    AccruedSign(g.RefillRate(), u - at - EVICT_AFTER);
    AccruedOverDelay(g);
    hide Accrued;
  }

  lemma RouteRefilled(c: Config, x: real, at: real, more: real, gained: real)
    requires Accrued(c.RefillRate(), more) == gained && x + 5.0 * c.rate as real + gained <= c.MaxTokens()
    ensures LevelAt(c, x, at, at + EVICT_AFTER + more) == x + 5.0 * c.rate as real + gained
  {
    AccruedSum(c.RefillRate(), EVICT_AFTER, more);
    assert (at + EVICT_AFTER + more) - at == EVICT_AFTER + more;
    AccruedOverDelay(c);
    hide Accrued;
  }

  /** The client waits until a full bucket could be taken away, and a little longer. */
  lemma Pause(g: Config, c: Config, p: Pace, x: real, at: real)
    requires Paced(g, c, p) && Accrued(c.RefillRate(), p.wait / 2.0) == p.back / 2.0
    requires g.rate >= 1 && g.burst == g.rate && c.rate >= 1 && !RefillsInTime(c)
    requires 0.0 <= x && x + p.back < 1.0
    ensures var s, full := at + EVICT_AFTER + p.wait / 2.0, g.MaxTokens() - 1.0;
            var z := x + 5.0 * c.rate as real + p.back / 2.0;
            && 1.0 <= z < c.MaxTokens()
            && Passes(State(g, c, full, x, at), "r", "c", AskAt(s).t)
            && PerRoute.Step(State(g, c, full, x, at), AskAt(s)) == State(g, c, full, z - 1.0, s)
  {
    OneMoreThanRefills(c);
    hide Accrued, PerRoute.Step, Passes, State, LevelAt, Config.MaxTokens, Config.RefillRate, RefillsInTime;
    var s := at + EVICT_AFTER + p.wait / 2.0;
    GlobalFull(g, at, s);
    RouteRefilled(c, x, at, p.wait / 2.0, p.back / 2.0);
    AskState(g, c, g.MaxTokens() - 1.0, x, at, s);
  }

  function Tail(s: real, calls: seq<Call>, u: real): seq<Call> {
    [AskAt(s)] + (calls + [AskAt(u)])
  }

  /** The answers after the pause, from either pair. */
  lemma TailReplies(start: Pair, next: Pair, s: real, calls: seq<Call>, end: Pair, u: real)
    requires Passes(start, "r", "c", AskAt(s).t) && PerRoute.Step(start, AskAt(s)) == next && Steps(next, calls) == end
    ensures Replied(start, Tail(s, calls, u)) == ([true] + Replied(next, calls)) + [Passes(end, "r", "c", AskAt(u).t)]
  {
    hide PerRoute.Step, Passes;
    StepsAppend(start, [AskAt(s)], calls + [AskAt(u)]);
    StepsOne(start, AskAt(s));
    StepsAppend(next, calls, [AskAt(u)]);
    StepsOne(end, AskAt(u));
    hide Steps, Replied;
    Associate([true], Replied(next, calls), [Passes(end, "r", "c", AskAt(u).t)]);
  }

  /** What comes before the pause: the limit is set, and the client asks until it is drained. */
  lemma Start(g: Config, c: Config, p: Pace) returns (pre: seq<Call>, x: real, at: real)
    requires Paced(g, c, p) && g.rate >= 1 && c.rate >= 1
    ensures After(g, pre, |pre|) == State(g, c, g.MaxTokens() - 1.0, x, at)
    ensures 0.0 <= x && x + p.back < 1.0
    ensures Instants(pre, 0.0, at) && Plain(pre, c)
  {
    var b := c.MaxTokens() - 1.0;
    var n := Archimedes(b, 1.0 - p.back);
    var calls, x', y', at' := DrainBoth(g, c, p, b, b, 0.0, n);
    pre, x, at := Starting(c, calls), x', at';
    hide Shrink;
    StartSteps(g, c, calls);
    StartInstants(c, calls, at');
  }

  function Starting(c: Config, calls: seq<Call>): seq<Call> {
    [Set("r", c.rate, c.burst)] + ([AskAt(0.0)] + calls)
  }

  lemma StartSteps(g: Config, c: Config, calls: seq<Call>)
    requires g.rate >= 1 && c.rate >= 1
    ensures var pre := Starting(c, calls);
            After(g, pre, |pre|) == Steps(State(g, c, g.MaxTokens() - 1.0, c.MaxTokens() - 1.0, 0.0), calls)
  {
    var limit, first := Set("r", c.rate, c.burst), AskAt(0.0);
    SetFirst(g, c);
    AskBlank(g, c, 0.0);
    hide *;
    AfterSteps(g, [], [limit] + ([first] + calls));
    StepsAppend(Unused(g), [limit], [first] + calls);
    StepsAppend(Blank(g, c), [first], calls);
    StepsOne(Unused(g), limit);
    StepsOne(Blank(g, c), first);
    assert [] + ([limit] + ([first] + calls)) == [limit] + ([first] + calls) == Starting(c, calls) by {
      StartingIs(c, calls);
    }
  }

  lemma StartingIs(c: Config, calls: seq<Call>)
    ensures Starting(c, calls) == [Set("r", c.rate, c.burst)] + ([AskAt(0.0)] + calls)
  {}

  lemma StartInstants(c: Config, calls: seq<Call>, at: real)
    requires OneClient(calls) && Instants(calls, 0.0, at)
    ensures Instants(Starting(c, calls), 0.0, at) && Plain(Starting(c, calls), c)
  {
    InstantsAppend([AskAt(0.0)], 0.0, 0.0, calls, at);
    InstantsAppend([Set("r", c.rate, c.burst)], 0.0, 0.0, [AskAt(0.0)] + calls, at);
  }

  lemma SetFirst(g: Config, c: Config)
    ensures PerRoute.Step(Unused(g), Set("r", c.rate, c.burst)) == Blank(g, c) && After(g, [], 0) == Unused(g)
  {
    assert map[]["r" := Limiter(c, map[])] == map["r" := Limiter(c, map[])];
  }

  /** Requests of one client, and no limit but this one. */
  ghost predicate Plain(calls: seq<Call>, c: Config) {
    forall i :: 0 <= i < |calls| ==>
      (calls[i].Ask? && calls[i].client == "c") || (calls[i].Set? && Config(calls[i].rate, calls[i].burst) == c)
  }

  /** The runs with a cleanup in the pause and without it. */
  lemma DrainReveals(g: Config, c: Config) returns (pre: seq<Call>, clean: Call, tail: seq<Call>, end: real)
    requires g.burst == g.rate && 1 <= c.rate < g.rate && !RefillsInTime(c)
    ensures clean.Clean? && Instants(pre + ([clean] + tail), 0.0, end) && Plain(pre, c) && Plain(tail, c)
    ensures var p := After(g, pre, |pre|); Replied(p, [clean] + tail) != Replied(p, tail)
  {
    hide Accrued, PerRoute.Step, Passes, State, Steps, Replied, Shrink, After;
    var p := SomePace(g, c);
    var full, b := g.MaxTokens() - 1.0, c.MaxTokens() - 1.0;
    var x, at;
    pre, x, at := Start(g, c, p);
    var s, z := at + EVICT_AFTER + p.wait / 2.0, x + 5.0 * c.rate as real + p.back / 2.0;
    Pause(g, c, p, x, at);
    var n := Archimedes(z - 1.0, 1.0 - p.back);
    var calls, x', y', at' := DrainBoth(g, c, p, z - 1.0, b, s, n);
    var u := LastTells(g, c, p, x', y', at');
    clean, tail, end := Clean(s, _ => s), Tail(s, calls, u), u;
    var start := State(g, c, full, x, at);
    TailReplies(start, State(g, c, full, z - 1.0, s), s, calls, State(g, c, full, x', at'), u);
    CleanState(g, c, full, x, at, s);
    AskBlank(g, c, s);
    TailReplies(Blank(g, c), State(g, c, full, b, s), s, calls, State(g, c, full, y', at'), u);
    StepsAppend(start, [clean], tail);
    StepsOne(start, clean);
    var same := [true] + Replied(State(g, c, full, b, s), calls);
    LastDiffers(same, same, true, false);
    assert [] + Replied(Blank(g, c), tail) == Replied(Blank(g, c), tail);
    InstantsAppend(calls, s, at', [AskAt(u)], u);
    InstantsAppend([AskAt(s)], s, s, calls + [AskAt(u)], u);
    InstantsAppend([clean], s, s, tail, u);
    Later(pre, at, s);
    InstantsAppend(pre, 0.0, s, [clean] + tail, u);
  }

  lemma Later(calls: seq<Call>, hi: real, later: real)
    requires Instants(calls, 0.0, hi) && hi <= later
    ensures Instants(calls, 0.0, later)
  {}

  // ---------------------------------------------------------------------------------------------
  // More clients than a table holds
  // ---------------------------------------------------------------------------------------------

  /** A request on a route that has no limit, or a cleanup. */
  function CallOf(e: Event): Call {
    match e
    case Request(k, created, now) => Ask("", k, PerRoute.Clock(created, now, now, now))
    case Sweep(now) => Clean(now, _ => now)
  }

  function Unlimited(evs: seq<Event>): seq<Call> {
    seq(|evs|, i requires 0 <= i < |evs| => CallOf(evs[i]))
  }

  function Alone(g: Config, m: Table): Pair {
    Pair(Limiter(g, m), map[])
  }

  lemma StepAlone(g: Config, m: Table, e: Event)
    ensures PerRoute.Step(Alone(g, m), CallOf(e)) == Alone(g, RateLimit.Step(g, m, e))
    ensures e.Request? ==>
              var call := CallOf(e);
              Passes(Alone(g, m), call.route, call.client, call.t) == Admits(g, m, e.key, e.created, e.now)
  {
    hide AfterRequest, Admits;
    if e.Sweep? {
      hide AfterSweep;
      assert AfterClean(Alone(g, m), e.now, CallOf(e).at).limiters == map[];
    }
  }

  lemma StepsTable(c: Config, evs: seq<Event>, e: Event)
    ensures var m, more := TableAt(c, evs, |evs|), evs + [e];
            && TableAt(c, more, |more|) == RateLimit.Step(c, m, e)
            && Replies(c, more, |more|) ==
                 Replies(c, evs, |evs|) + (if e.Request? then [Admits(c, m, e.key, e.created, e.now)] else [])
    ensures Unswept(evs + [e], |evs| + 1) == Unswept(evs, |evs|) + (if e.Request? then [e] else [])
  {
    hide AfterRequest, AfterSweep, Admits;
    PrefixRun(c, evs, [e], |evs|);
    UnsweptPrefix(evs, [e], |evs|);
    assert Replies(c, evs, |evs|) + [] == Replies(c, evs, |evs|) && Unswept(evs, |evs|) + [] == Unswept(evs, |evs|);
  }

  lemma UnlimitedSnoc(evs: seq<Event>, e: Event)
    ensures Unlimited(evs + [e]) == Unlimited(evs) + [CallOf(e)]
  {}

  lemma {:induction false} UnlimitedRun(g: Config, evs: seq<Event>)
    ensures var calls := Unlimited(evs);
            && After(g, calls, |calls|) == Alone(g, TableAt(g, evs, |evs|))
            && Answers(g, calls, |calls|) == Replies(g, evs, |evs|)
    decreases |evs|
  {
    if evs == [] {
      NothingYet(g);
    } else {
      var init, e := evs[..|evs| - 1], evs[|evs| - 1];
      UnlimitedRun(g, init);
      UnlimitedNext(g, init, e);
      assert evs == init + [e];
    }
  }

  lemma UnlimitedNext(g: Config, evs: seq<Event>, e: Event)
    requires var calls := Unlimited(evs);
             && After(g, calls, |calls|) == Alone(g, TableAt(g, evs, |evs|))
             && Answers(g, calls, |calls|) == Replies(g, evs, |evs|)
    ensures var calls, more := Unlimited(evs + [e]), evs + [e];
            && After(g, calls, |calls|) == Alone(g, TableAt(g, more, |more|))
            && Answers(g, calls, |calls|) == Replies(g, more, |more|)
  {
    UnlimitedSnoc(evs, e);
    assert e.Request? <==> CallOf(e).Ask?;
    hide *;
    StepsTable(g, evs, e);
    StepAlone(g, TableAt(g, evs, |evs|), e);
    OneMoreCall(g, Unlimited(evs), CallOf(e));
  }

  lemma {:induction false} UnlimitedUnswept(evs: seq<Event>)
    ensures Uncleaned(Unlimited(evs), |Unlimited(evs)|) == Unlimited(Unswept(evs, |evs|))
    decreases |evs|
  {
    if evs != [] {
      var init, e := evs[..|evs| - 1], evs[|evs| - 1];
      UnlimitedUnswept(init);
      assert evs == init + [e];
      UnlimitedSnoc(init, e);
      UnlimitedSnoc(Unswept(init, |init|), e);
      UnsweptPrefix(init, [e], |init|);
      hide Unlimited;
      UncleanedPrefix(Unlimited(init), [CallOf(e)], |Unlimited(init)|);
    }
  }

  lemma UnlimitedTimed(evs: seq<Event>) returns (times: seq<real>)
    requires Timed(evs) && forall i :: 0 <= i < |evs| ==> evs[i].Start() >= 0.0
    ensures TimedCalls(Unlimited(evs), times) && SetsOnly(Unlimited(evs), {})
  {
    times := [0.0] + seq(|evs|, i requires 0 <= i < |evs| => evs[i].now);
  }

  lemma UnlimitedClients(evs: seq<Event>)
    ensures Clients(Unlimited(evs)) == KeysOf(evs)
  {
    var calls := Unlimited(evs);
    forall i | 0 <= i < |evs| ensures calls[i].Ask? <==> evs[i].Request? {}
    forall i | 0 <= i < |evs| && evs[i].Request? ensures calls[i].client == evs[i].key {}
    forall k | k in KeysOf(evs) ensures k in Clients(calls) {
      var i :| 0 <= i < |evs| && evs[i].Request? && evs[i].key == k;
      assert calls[i].Ask? && calls[i].client == k;
    }
  }

  // ---------------------------------------------------------------------------------------------
  // The exact condition
  // ---------------------------------------------------------------------------------------------

  ghost predicate SameAnswers(g: Config, calls: seq<Call>) {
    Answers(g, calls, |calls|) == Answers(g, Uncleaned(calls, |calls|), |Uncleaned(calls, |calls|)|)
  }

  /** A timed run with at most `n` clients whose routes are limited only by `cs`. */
  ghost predicate Among(calls: seq<Call>, times: seq<real>, cs: set<Config>, n: nat) {
    TimedCalls(calls, times) && |Clients(calls)| <= n && SetsOnly(calls, cs)
  }

  /** Cleanups go unnoticed in all these runs. */
  ghost predicate Unseen(g: Config, cs: set<Config>, n: nat) {
    forall calls, times :: Among(calls, times, cs, n) ==> SameAnswers(g, calls)
  }

  lemma DrainSeen(g: Config, c: Config, cs: set<Config>, n: nat)
    requires g.burst == g.rate && 1 <= c.rate < g.rate && !RefillsInTime(c) && c in cs && n >= 1
    ensures !Unseen(g, cs, n)
  {
    var pre, clean, tail, end := DrainReveals(g, c);
    var calls := pre + ([clean] + tail);
    hide Replied, After, Answers, Uncleaned, SameAnswers, Instants, TimedCalls, RefillsInTime, SetsOnly, Clients;
    var times := InstantsTimed(calls, end);
    CleanShows(g, pre, clean, tail);
    FewClients(pre, clean, tail, c, cs);
    hide Plain;
    assert Among(calls, times, cs, n);
  }

  lemma CleanShows(g: Config, pre: seq<Call>, clean: Call, tail: seq<Call>)
    requires clean.Clean? && forall i :: 0 <= i < |pre| ==> !pre[i].Clean?
    requires forall i :: 0 <= i < |tail| ==> !tail[i].Clean?
    requires var p := After(g, pre, |pre|); Replied(p, [clean] + tail) != Replied(p, tail)
    ensures !SameAnswers(g, pre + ([clean] + tail))
  {
    hide Replied, After, Answers;
    NothingCleaned(pre);
    NothingCleaned(tail);
    UncleanedAppend(pre, [clean] + tail);
    UncleanedAppend([clean], tail);
    assert Uncleaned([clean], 1) == [] && [] + tail == tail;
    hide Uncleaned;
    AfterSteps(g, pre, [clean] + tail);
    AfterSteps(g, pre, tail);
    SameFront(Answers(g, pre, |pre|), Replied(After(g, pre, |pre|), [clean] + tail),
              Replied(After(g, pre, |pre|), tail));
  }

  lemma SameFront(a: seq<bool>, b: seq<bool>, c: seq<bool>)
    requires b != c
    ensures a + b != a + c
  {
    assert (a + b)[|a|..] == b && (a + c)[|a|..] == c;
  }

  lemma FewClients(pre: seq<Call>, clean: Call, tail: seq<Call>, c: Config, cs: set<Config>)
    requires Plain(pre, c) && Plain(tail, c) && clean.Clean? && c in cs
    ensures |Clients(pre + ([clean] + tail))| <= 1 && SetsOnly(pre + ([clean] + tail), cs)
  {
    var calls := pre + ([clean] + tail);
    forall i | 0 <= i < |calls| && !calls[i].Clean?
      ensures (calls[i].Ask? && calls[i].client == "c") || (calls[i].Set? && Config(calls[i].rate, calls[i].burst) == c)
    {
      if i < |pre| { assert calls[i] == pre[i]; } else { assert calls[i] == tail[i - |pre| - 1]; }
    }
    assert Clients(calls) <= {"c"};
    SubsetSize(Clients(calls), {"c"});
  }

  lemma OverfullSeen(g: Config, cs: set<Config>, n: nat)
    requires g.rate >= 1 && n > MAX_BUCKETS
    ensures !Unseen(g, cs, n)
  {
    hide TableAt, FullFor, Fill, Name, Replies, Unswept, Overfull;
    var k := TableFull(g);
    var evs := Overfull(k, 301.0);
    OverfullIsTimed(k, 301.0);
    OverfullReveals(g, k, 301.0);
    OverfullLater(k, 301.0);
    var times := UnlimitedTimed(evs);
    UnlimitedClients(evs);
    UnlimitedRun(g, evs);
    UnlimitedRun(g, Unswept(evs, |evs|));
    UnlimitedUnswept(evs);
    hide Unlimited, Answers;
    assert Among(Unlimited(evs), times, cs, n);
  }

  lemma OverfullLater(n: nat, t: real)
    requires t >= 0.0
    ensures forall i :: 0 <= i < |Overfull(n, t)| ==> Overfull(n, t)[i].Start() >= 0.0
  {
    FillEvents(n);
    hide Fill, Name;
  }

  /**
   Exactly when cleanups can never be noticed: the clients fit the table, and each limit either refills
   a full bucket within the eviction delay or has a rate no lower than the global one.
   */
  lemma CleanupsUnobservableIff(g: Config, cs: set<Config>, n: nat)
    requires g.rate >= 1 && g.burst == g.rate && n >= 1 && forall c :: c in cs ==> c.rate >= 1
    ensures Unseen(g, cs, n) <==>
              n <= MAX_BUCKETS && forall c :: c in cs ==> RefillsInTime(c) || g.rate <= c.rate
  {
    if n > MAX_BUCKETS {
      OverfullSeen(g, cs, n);
    } else if c :| c in cs && !RefillsInTime(c) && g.rate > c.rate {
      DrainSeen(g, c, cs, n);
    } else {
      forall calls, times | Among(calls, times, cs, n) ensures SameAnswers(g, calls) {
        AllOf(g, calls, cs);
        CleanupsUnobservable(g, calls, times);
      }
    }
  }

  lemma AllOf(g: Config, calls: seq<Call>, cs: set<Config>)
    requires g.rate >= 1 && g.burst == g.rate && SetsOnly(calls, cs)
    requires forall c :: c in cs ==> c.rate >= 1 && (RefillsInTime(c) || g.rate <= c.rate)
    ensures AllSafe(g, calls)
  {}
}
