/**
 Token-bucket rate limiting (internal/policy/ratelimit.go).

 A limiter keeps one bucket per client key, refilled continuously and capped. The class below
 updates its buckets in place and is proved against functions on tables of bucket values; the
 theorems are then about whole timed runs of those functions:

 - MinPlus: the bucket admits a request exactly when no window ending at that request would exceed
   the burst-plus-rate bound;
 - MostPermissive: no limiter that respects that bound ever lets more requests through.

 Time is in seconds and tokens are reals.
 */
module RateLimit {

  const MAX_BUCKETS: nat := 100_000
  const EVICT_AFTER: real := 300.0

  datatype Config = Config(rate: int, burst: int) {
    function MaxTokens(): real {
      if burst < 1 then rate as real else burst as real
    }

    function RefillRate(): real {
      rate as real / 60.0
    }
  }

  /** Tokens added over `elapsed` seconds. Proofs hide the product and use the two lemmas below. */
  function Accrued(refillRate: real, elapsed: real): real {
    elapsed * refillRate
  }

  lemma AccruedSum(refillRate: real, a: real, b: real)
    ensures Accrued(refillRate, a + b) == Accrued(refillRate, a) + Accrued(refillRate, b)
  {}

  lemma AccruedSign(refillRate: real, elapsed: real)
    requires refillRate >= 0.0 && elapsed >= 0.0
    ensures Accrued(refillRate, elapsed) >= 0.0
    ensures Accrued(refillRate, 0.0) == 0.0
  {}

  /** The value of one bucket. */
  datatype Level = Level(tokens: real, maxTokens: real, refillRate: real, lastCheck: real) {
    function Refilled(now: real): real {
      var t := tokens + Accrued(refillRate, now - lastCheck);
      if t > maxTokens then maxTokens else t
    }

    /** One request at `now` costs one token, if the refilled bucket holds one. */
    function Taken(now: real): Level {
      this.(tokens := Refilled(now) - (if Refilled(now) >= 1.0 then 1.0 else 0.0), lastCheck := now)
    }
  }

  type Table = map<string, Level>

  function FullLevel(c: Config, created: real): Level {
    Level(c.MaxTokens(), c.MaxTokens(), c.RefillRate(), created)
  }

  /** The bucket a request is charged to: the existing one, or a full one created for it. */
  function Charged(c: Config, m: Table, key: string, created: real): Level {
    if key in m then m[key] else FullLevel(c, created)
  }

  /** A key without a bucket is turned away once the table is at its cap. */
  predicate TurnedAway(m: Table, key: string) {
    key !in m && |m| >= MAX_BUCKETS
  }

  predicate Admits(c: Config, m: Table, key: string, created: real, now: real) {
    !TurnedAway(m, key) && Charged(c, m, key, created).Refilled(now) >= 1.0
  }

  function AfterRequest(c: Config, m: Table, key: string, created: real, now: real): Table {
    if TurnedAway(m, key) then m else m[key := Charged(c, m, key, created).Taken(now)]
  }

  function AfterSweep(m: Table, now: real): Table {
    map k | k in m && !(m[k].lastCheck < now - EVICT_AFTER) :: m[k]
  }

  // ---------------------------------------------------------------------------------------------
  // The limiter, updated in place
  // ---------------------------------------------------------------------------------------------

  class Bucket {
    var tokens: real
    var maxTokens: real
    var refillRate: real
    var lastCheck: real

    constructor (tokens: real, maxTokens: real, refillRate: real, lastCheck: real)
      ensures Value() == Level(tokens, maxTokens, refillRate, lastCheck)
    {
      this.tokens, this.maxTokens, this.refillRate, this.lastCheck := tokens, maxTokens, refillRate, lastCheck;
    }

    ghost function Value(): Level
      reads this
    {
      Level(tokens, maxTokens, refillRate, lastCheck)
    }

    /** Refill up to `now`, then take one token if there is one. */
    method Take(now: real) returns (ok: bool)
      modifies this
      ensures ok == (old(Value()).Refilled(now) >= 1.0)
      ensures Value() == old(Value()).Taken(now)
    {
      var elapsed := now - lastCheck;
      tokens := tokens + Accrued(refillRate, elapsed);
      if tokens > maxTokens {
        tokens := maxTokens;
      }
      lastCheck := now;
      if tokens < 1.0 {
        return false;
      }
      tokens := tokens - 1.0;
      return true;
    }
  }

  class RateLimiter {
    const config: Config
    var buckets: map<string, Bucket>

    /** No bucket is shared between two keys. */
    ghost predicate Valid()
      reads this
    {
      forall k, k' :: k in buckets && k' in buckets && k != k' ==> buckets[k] != buckets[k']
    }

    ghost function Footprint(): set<object>
      reads this
    {
      {this} + set k | k in buckets :: buckets[k]
    }

    ghost function View(): Table
      reads Footprint()
    {
      map k | k in buckets :: buckets[k].Value()
    }

    constructor (rate: int, burst: int)
      ensures Valid() && fresh(Footprint())
      ensures config == Config(rate, burst) && View() == map[]
    {
      config := Config(rate, burst);
      buckets := map[];
    }

    /** The bucket allocation inside Allow. */
    method Track(key: string, created: real) returns (b: Bucket)
      requires Valid() && key !in buckets
      modifies this
      ensures Valid() && fresh(b) && buckets == old(buckets)[key := b]
      ensures b.Value() == FullLevel(config, created)
    {
      var maxTokens := config.burst as real;
      if maxTokens < 1.0 {
        maxTokens := config.rate as real;
      }
      b := new Bucket(maxTokens, maxTokens, config.rate as real / 60.0, created);
      buckets := buckets[key := b];
    }

    /** `created` and `now` are the two clock readings; the first matters only for a new key. */
    method Allow(key: string, created: real, now: real) returns (ok: bool)
      requires Valid()
      modifies Footprint()
      ensures Valid() && fresh(Footprint() - old(Footprint()))
      ensures ok == Admits(config, old(View()), key, created, now)
      ensures View() == AfterRequest(config, old(View()), key, created, now)
    {
      hide Accrued, Level.Refilled, Level.Taken;
      ghost var before := View();
      assert |before| == |buckets| by { assert before.Keys == buckets.Keys; }
      var b;
      if key in buckets {
        b := buckets[key];
      } else {
        if |buckets| >= MAX_BUCKETS {
          return false;
        }
        b := Track(key, created);
      }
      assert b.Value() == Charged(config, before, key, created);
      ok := b.Take(now);
      assert View() == before[key := b.Value()];
    }

    method Cleanup(now: real)
      requires Valid()
      modifies this
      ensures Valid() && Footprint() <= old(Footprint())
      ensures View() == AfterSweep(old(View()), now)
    {
      var cutoff := now - EVICT_AFTER;
      var todo := buckets.Keys;
      ghost var was := buckets;
      while todo != {}
        invariant todo <= was.Keys && buckets.Keys <= was.Keys
        invariant forall k :: k in buckets ==> buckets[k] == was[k]
        invariant forall k :: k in was ==> (k in buckets <==> k in todo || !(was[k].lastCheck < cutoff))
      {
        var k :| k in todo;
        if buckets[k].lastCheck < cutoff {
          buckets := buckets - {k};
        }
        todo := todo - {k};
      }
    }
  }

  // ---------------------------------------------------------------------------------------------
  // Timed runs
  // ---------------------------------------------------------------------------------------------

  datatype Event =
    | Request(key: string, created: real, now: real)
    | Sweep(now: real)
  {
    /** The first clock reading of the event; `now` is the last. */
    function Start(): real {
      if Request? then created else now
    }

    predicate Asks(k: string) {
      Request? && key == k
    }
  }

  /** Clock readings never go back. */
  ghost predicate Timed(evs: seq<Event>) {
    && (forall i :: 0 <= i < |evs| ==> evs[i].Start() <= evs[i].now)
    && (forall i, j :: 0 <= i < j < |evs| ==> evs[i].now <= evs[j].Start())
  }

  function Step(c: Config, m: Table, e: Event): Table {
    match e
    case Request(key, created, now) => AfterRequest(c, m, key, created, now)
    case Sweep(now) => AfterSweep(m, now)
  }

  /** The table before event number `j`, starting from an empty limiter. */
  function TableAt(c: Config, evs: seq<Event>, j: nat): Table
    requires j <= |evs|
  {
    if j == 0 then map[] else Step(c, TableAt(c, evs, j - 1), evs[j - 1])
  }

  predicate Granted(c: Config, evs: seq<Event>, j: nat)
    requires j < |evs|
  {
    evs[j].Request? && Admits(c, TableAt(c, evs, j), evs[j].key, evs[j].created, evs[j].now)
  }

  /** How many requests of `key` were granted among events `i` to `j - 1`. */
  function Grants(c: Config, evs: seq<Event>, key: string, i: nat, j: nat): nat
    requires i <= j <= |evs|
  {
    if i == j then 0
    else Grants(c, evs, key, i, j - 1) + (if evs[j - 1].Asks(key) && Granted(c, evs, j - 1) then 1 else 0)
  }

  /** Event `s` created the bucket of `key` and nothing evicted it before event `k`. */
  ghost predicate BucketLives(c: Config, evs: seq<Event>, key: string, s: nat, k: nat)
    requires s <= k < |evs|
  {
    && evs[s].Asks(key)
    && key !in TableAt(c, evs, s)
    && !TurnedAway(TableAt(c, evs, s), key)
    && forall j :: s < j <= k ==> key in TableAt(c, evs, j)
  }

  /** What the burst-plus-rate bound leaves at time `t` for the window starting at event `i`. */
  function Slack(c: Config, evs: seq<Event>, key: string, i: nat, j: nat, t: real): real
    requires i <= j <= |evs| && i < |evs|
  {
    c.MaxTokens() + Accrued(c.RefillRate(), t - evs[i].now) - Grants(c, evs, key, i, j) as real
  }

  lemma LaterSlack(c: Config, evs: seq<Event>, key: string, i: nat, j: nat, u: real, t: real)
    requires i <= j <= |evs| && i < |evs|
    ensures Slack(c, evs, key, i, j, t) == Slack(c, evs, key, i, j, u) + Accrued(c.RefillRate(), t - u)
  {
    hide Accrued;
    AccruedSum(c.RefillRate(), u - evs[i].now, t - u);
    assert t - evs[i].now == (u - evs[i].now) + (t - u);
  }

  /** The refilled bucket is the least slack over all windows that began since it was created. */
  ghost predicate IsLeastSlack(c: Config, evs: seq<Event>, key: string, s: nat, j: nat, t: real, level: real)
    requires s < j <= |evs|
  {
    && level <= c.MaxTokens()
    && (forall i :: s <= i < j && evs[i].Asks(key) ==> level <= Slack(c, evs, key, i, j, t))
    && (level == c.MaxTokens()
        || exists i :: s <= i < j && evs[i].Asks(key) && level == Slack(c, evs, key, i, j, t))
  }

  /** A bucket that refills to `full` before being charged `cost` at `u` is worth this much at `t`. */
  lemma RefillAfter(b: Level, cost: real, u: real, t: real)
    requires cost == if b.Refilled(u) >= 1.0 then 1.0 else 0.0
    ensures b.Taken(u).Refilled(t)
         == if b.Refilled(u) - cost + Accrued(b.refillRate, t - u) > b.maxTokens then b.maxTokens
            else b.Refilled(u) - cost + Accrued(b.refillRate, t - u)
  {
    hide Accrued;
  }

  /** A new bucket is still full when its first request is charged to it. */
  lemma BornFull(c: Config, m: Table, key: string, created: real, now: real)
    requires c.rate >= 0 && created <= now && key !in m
    ensures Charged(c, m, key, created).Refilled(now) == c.MaxTokens()
  {
    hide Accrued;
    AccruedSign(c.RefillRate(), now - created);
  }

  function Cost(c: Config, evs: seq<Event>, j: nat): real
    requires j < |evs|
  {
    if Granted(c, evs, j) then 1.0 else 0.0
  }

  /** The invariant survives a request of the key itself ... */
  lemma LeastSlackRequest(c: Config, evs: seq<Event>, key: string, s: nat, j: nat, t: real, full: real, level: real)
    requires s <= j < |evs| && evs[j].Asks(key)
    requires if s == j then full == c.MaxTokens() else IsLeastSlack(c, evs, key, s, j, evs[j].now, full)
    requires var after := full - Cost(c, evs, j) + Accrued(c.RefillRate(), t - evs[j].now);
             level == if after > c.MaxTokens() then c.MaxTokens() else after
    ensures IsLeastSlack(c, evs, key, s, j + 1, t, level)
  {
    hide Accrued, TableAt, Granted;
    var u := evs[j].now;
    forall i | s <= i < j && evs[i].Asks(key)
      ensures Slack(c, evs, key, i, j + 1, t)
           == Slack(c, evs, key, i, j, u) + Accrued(c.RefillRate(), t - u) - Cost(c, evs, j)
    {
      LaterSlack(c, evs, key, i, j, u, t);
    }
    assert Grants(c, evs, key, j, j) == 0;
    assert Slack(c, evs, key, j, j + 1, t) == c.MaxTokens() + Accrued(c.RefillRate(), t - u) - Cost(c, evs, j);
    if level != c.MaxTokens() && full != c.MaxTokens() {
      var i :| s <= i < j && evs[i].Asks(key) && full == Slack(c, evs, key, i, j, u);
      assert level == Slack(c, evs, key, i, j + 1, t);
    }
  }

  /** ... and every other event that leaves the bucket alone. */
  lemma LeastSlackOther(c: Config, evs: seq<Event>, key: string, s: nat, j: nat, t: real, level: real)
    requires s < j < |evs| && !evs[j].Asks(key)
    requires IsLeastSlack(c, evs, key, s, j, t, level)
    ensures IsLeastSlack(c, evs, key, s, j + 1, t, level)
  {
    hide Accrued, TableAt, Granted;
    forall i | s <= i < j && evs[i].Asks(key)
      ensures Slack(c, evs, key, i, j + 1, t) == Slack(c, evs, key, i, j, t)
    {}
  }

  /** The table holds, after a request, the charged bucket with its token taken. */
  lemma AfterAsking(c: Config, evs: seq<Event>, key: string, j: nat)
    requires 0 < j <= |evs| && key in TableAt(c, evs, j)
    requires evs[j - 1].Asks(key) ==> !TurnedAway(TableAt(c, evs, j - 1), key)
    ensures var b := Charged(c, TableAt(c, evs, j - 1), key, evs[j - 1].Start());
            if evs[j - 1].Asks(key) then
              && TableAt(c, evs, j)[key] == b.Taken(evs[j - 1].now)
              && Cost(c, evs, j - 1) == if b.Refilled(evs[j - 1].now) >= 1.0 then 1.0 else 0.0
            else
              key in TableAt(c, evs, j - 1) && TableAt(c, evs, j)[key] == b
  {
    hide Accrued, Level.Refilled, Level.Taken;
  }

  lemma {:induction false} BucketIsLeastSlack(c: Config, evs: seq<Event>, key: string, s: nat, j: nat, t: real)
    requires Timed(evs) && c.rate >= 0
    requires s <= j < |evs| && BucketLives(c, evs, key, s, j)
    requires evs[j].now <= t
    ensures var b := Charged(c, TableAt(c, evs, j), key, evs[j].Start());
            && b.maxTokens == c.MaxTokens() && b.refillRate == c.RefillRate()
            && if s == j then b.Refilled(t) == c.MaxTokens() else IsLeastSlack(c, evs, key, s, j, t, b.Refilled(t))
  {
    hide Accrued, TableAt, Level.Refilled, IsLeastSlack, Cost, Granted;
    if s == j {
      BornFull(c, TableAt(c, evs, j), key, evs[j].created, t);
    } else {
      var e := evs[j - 1];
      var u := if e.Asks(key) then e.now else t;
      assert key in TableAt(c, evs, j) && BucketLives(c, evs, key, s, j - 1);
      BucketIsLeastSlack(c, evs, key, s, j - 1, u);
      var b := Charged(c, TableAt(c, evs, j - 1), key, e.Start());
      AfterAsking(c, evs, key, j);
      if e.Asks(key) {
        RefillAfter(b, Cost(c, evs, j - 1), u, t);
        LeastSlackRequest(c, evs, key, s, j - 1, t, b.Refilled(u), TableAt(c, evs, j)[key].Refilled(t));
      } else {
        LeastSlackOther(c, evs, key, s, j - 1, t, b.Refilled(t));
      }
    }
  }

  /** The least slack decides whether every window has room for one more. */
  lemma LeastSlackDecides(c: Config, evs: seq<Event>, key: string, s: nat, k: nat, level: real)
    requires c.rate >= 0 && s <= k < |evs| && evs[k].Asks(key)
    requires if s == k then level == c.MaxTokens() else IsLeastSlack(c, evs, key, s, k, evs[k].now, level)
    ensures level >= 1.0 <==>
            forall i :: s <= i <= k && evs[i].Asks(key) ==>
              Grants(c, evs, key, i, k) as real + 1.0
                <= c.MaxTokens() + Accrued(c.RefillRate(), evs[k].now - evs[i].now)
  {
    var t := evs[k].now;
    assert Grants(c, evs, key, k, k) == 0;
    hide Accrued, Grants;
    AccruedSign(c.RefillRate(), 0.0);
    assert t - evs[k].now == 0.0;
    assert Slack(c, evs, key, k, k, t) == c.MaxTokens();
    forall i | s <= i <= k && evs[i].Asks(key)
      ensures Slack(c, evs, key, i, k, t) >= 1.0 <==>
              Grants(c, evs, key, i, k) as real + 1.0 <= c.MaxTokens() + Accrued(c.RefillRate(), t - evs[i].now)
    {}
    if level != c.MaxTokens() {
      var i :| s <= i < k && evs[i].Asks(key) && level == Slack(c, evs, key, i, k, t);
      assert evs[i].Asks(key);
    }
  }

  /**
   While the bucket of `key` lives, request `k` is granted exactly when, for every request `i` of
   that key since the bucket was created, the grants in [i, k) plus this one stay within the burst
   plus what the rate adds over the window.
   */
  lemma MinPlus(c: Config, evs: seq<Event>, key: string, s: nat, k: nat)
    requires Timed(evs) && c.rate >= 0
    requires s <= k < |evs| && evs[k].Asks(key) && BucketLives(c, evs, key, s, k)
    ensures Granted(c, evs, k) <==>
            forall i :: s <= i <= k && evs[i].Asks(key) ==>
              Grants(c, evs, key, i, k) as real + 1.0
                <= c.MaxTokens() + Accrued(c.RefillRate(), evs[k].now - evs[i].now)
  {
    hide Accrued, TableAt, Level.Refilled, Charged, IsLeastSlack, Grants;
    var t := evs[k].now;
    BucketIsLeastSlack(c, evs, key, s, k, t);
    var level := Charged(c, TableAt(c, evs, k), key, evs[k].Start()).Refilled(t);
    assert Granted(c, evs, k) <==> level >= 1.0;
    LeastSlackDecides(c, evs, key, s, k, level);
  }

  // ---------------------------------------------------------------------------------------------
  // Other limiters with the same bound
  // ---------------------------------------------------------------------------------------------

  /** How many requests of `key` the decisions let through among events `i` to `j - 1`. */
  function Passed(d: seq<bool>, evs: seq<Event>, key: string, i: nat, j: nat): nat
    requires i <= j <= |evs| == |d|
  {
    if i == j then 0
    else Passed(d, evs, key, i, j - 1) + (if evs[j - 1].Asks(key) && d[j - 1] then 1 else 0)
  }

  /** Each request let through keeps every window since event `s` that ends with it within the bound. */
  ghost predicate Obeys(c: Config, d: seq<bool>, evs: seq<Event>, key: string, s: nat)
    requires |evs| == |d|
  {
    forall i, k :: s <= i <= k < |evs| && evs[i].Asks(key) && evs[k].Asks(key) && d[k] ==>
      Passed(d, evs, key, i, k) as real + 1.0 <= c.MaxTokens() + Accrued(c.RefillRate(), evs[k].now - evs[i].now)
  }

  lemma {:induction false} PassedSum(d: seq<bool>, evs: seq<Event>, key: string, i: nat, m: nat, j: nat)
    requires i <= m <= j <= |evs| == |d|
    ensures Passed(d, evs, key, i, j) == Passed(d, evs, key, i, m) + Passed(d, evs, key, m, j)
  {
    if m < j { PassedSum(d, evs, key, i, m, j - 1); }
  }

  lemma {:induction false} GrantsSum(c: Config, evs: seq<Event>, key: string, i: nat, m: nat, j: nat)
    requires i <= m <= j <= |evs|
    ensures Grants(c, evs, key, i, j) == Grants(c, evs, key, i, m) + Grants(c, evs, key, m, j)
  {
    hide Granted;
    if m < j { GrantsSum(c, evs, key, i, m, j - 1); }
  }

  /** A request that is refused has a window without room. */
  lemma RefusedWindow(c: Config, evs: seq<Event>, key: string, s: nat, k: nat) returns (i: nat)
    requires Timed(evs) && c.rate >= 0
    requires s <= k < |evs| && evs[k].Asks(key) && BucketLives(c, evs, key, s, k) && !Granted(c, evs, k)
    ensures s <= i <= k && evs[i].Asks(key)
    ensures Grants(c, evs, key, i, k) as real + 1.0 > c.MaxTokens() + Accrued(c.RefillRate(), evs[k].now - evs[i].now)
  {
    hide Accrued, TableAt, Granted, BucketLives, Timed, Grants;
    MinPlus(c, evs, key, s, k);
    i :| s <= i <= k && evs[i].Asks(key) &&
         Grants(c, evs, key, i, k) as real + 1.0 > c.MaxTokens() + Accrued(c.RefillRate(), evs[k].now - evs[i].now);
  }

  /**
   While the bucket lives, no decisions that obey the bound, made online or in hindsight, have let
   more requests through at any point of the run.
   */
  lemma {:induction false} MostPermissive(c: Config, d: seq<bool>, evs: seq<Event>, key: string, s: nat, j: nat)
    requires Timed(evs) && c.rate >= 0 && |evs| == |d|
    requires s < j <= |evs| && BucketLives(c, evs, key, s, j - 1) && Obeys(c, d, evs, key, s)
    ensures Passed(d, evs, key, s, j) <= Grants(c, evs, key, s, j)
    decreases j
  {
    hide Accrued, TableAt, Granted, Timed, Obeys;
    var k := j - 1;
    forall m: nat | s < m <= k ensures Passed(d, evs, key, s, m) <= Grants(c, evs, key, s, m) {
      MostPermissive(c, d, evs, key, s, m);
    }
    if evs[k].Asks(key) && d[k] && !Granted(c, evs, k) {
      var i := RefusedWindow(c, evs, key, s, k);
      FewerPassed(c, d, evs, key, s, i, k);
      PassedSum(d, evs, key, s, i, k);
      GrantsSum(c, evs, key, s, i, k);
      assert i > s ==> Passed(d, evs, key, s, i) <= Grants(c, evs, key, s, i);
    }
  }

  lemma FewerPassed(c: Config, d: seq<bool>, evs: seq<Event>, key: string, s: nat, i: nat, k: nat)
    requires |evs| == |d| && s <= i <= k < |evs| && evs[i].Asks(key) && evs[k].Asks(key) && d[k]
    requires Obeys(c, d, evs, key, s)
    requires Grants(c, evs, key, i, k) as real + 1.0 > c.MaxTokens() + Accrued(c.RefillRate(), evs[k].now - evs[i].now)
    ensures Passed(d, evs, key, i, k) < Grants(c, evs, key, i, k)
  {
    hide Passed, Grants, Accrued;
  }

  /** The bucket's own decisions are among those. */
  lemma OwnDecisionsObey(c: Config, d: seq<bool>, evs: seq<Event>, key: string, s: nat, k: nat)
    requires Timed(evs) && c.rate >= 0 && |evs| == |d| == k + 1 && s <= k
    requires BucketLives(c, evs, key, s, k) && forall j :: 0 <= j < |d| ==> d[j] == Granted(c, evs, j)
    ensures Obeys(c, d, evs, key, s)
  {
    hide Accrued, TableAt, Granted, Timed;
    forall i, m | s <= i <= m <= k && evs[i].Asks(key) && evs[m].Asks(key) && d[m]
      ensures Passed(d, evs, key, i, m) as real + 1.0
                <= c.MaxTokens() + Accrued(c.RefillRate(), evs[m].now - evs[i].now)
    {
      SameCount(c, d, evs, key, i, m);
      MinPlus(c, evs, key, s, m);
    }
  }

  lemma {:induction false} SameCount(c: Config, d: seq<bool>, evs: seq<Event>, key: string, i: nat, j: nat)
    requires i <= j <= |evs| == |d| && forall m :: 0 <= m < |d| ==> d[m] == Granted(c, evs, m)
    ensures Passed(d, evs, key, i, j) == Grants(c, evs, key, i, j)
  {
    hide Granted;
    if i < j { SameCount(c, d, evs, key, i, j - 1); }
  }
}
