/**
 Eviction of idle buckets (internal/policy/ratelimit.go:44-95): sweeps never change an answer exactly
 when a full bucket refills within the eviction delay and the keys fit the table.
 */
module Eviction {
  import opened Common
  import opened RateLimit

  /** The first `j` events without the sweeps. */
  function Unswept(evs: seq<Event>, j: nat): seq<Event>
    requires j <= |evs|
  {
    if j == 0 then []
    else if evs[j - 1].Request? then Unswept(evs, j - 1) + [evs[j - 1]]
    else Unswept(evs, j - 1)
  }

  /** The answers given to the requests among the first `j` events. */
  function Replies(c: Config, evs: seq<Event>, j: nat): seq<bool>
    requires j <= |evs|
  {
    if j == 0 then []
    else if evs[j - 1].Request? then Replies(c, evs, j - 1) + [Granted(c, evs, j - 1)]
    else Replies(c, evs, j - 1)
  }

  ghost function KeysOf(evs: seq<Event>): set<string> {
    set i | 0 <= i < |evs| && evs[i].Request? :: evs[i].key
  }

  /** A full bucket refills within the eviction delay. */
  predicate RefillsInTime(c: Config) {
    c.MaxTokens() <= 5.0 * c.rate as real
  }

  lemma {:induction false} PrefixRun(c: Config, evs: seq<Event>, more: seq<Event>, j: nat)
    requires j <= |evs|
    ensures TableAt(c, evs + more, j) == TableAt(c, evs, j)
    ensures Replies(c, evs + more, j) == Replies(c, evs, j)
  {
    if j > 0 {
      PrefixRun(c, evs, more, j - 1);
      assert (evs + more)[j - 1] == evs[j - 1];
    }
  }

  ghost predicate Healthy(c: Config, b: Level, t: real) {
    && b.maxTokens == c.MaxTokens()
    && b.refillRate == c.RefillRate()
    && b.tokens >= 0.0
    && b.lastCheck <= t
  }

  /** A swept table and an unswept one at time `t`: what is missing from the first is full in the second. */
  ghost predicate Indistinct(c: Config, swept: Table, full: Table, t: real) {
    && swept.Keys <= full.Keys
    && (forall k :: k in swept ==> swept[k] == full[k])
    && (forall k :: k in full ==> Healthy(c, full[k], t))
    && (forall k :: k in full && k !in swept ==> full[k].Refilled(t) == c.MaxTokens())
  }

  lemma StaysFull(c: Config, b: Level, t: real, u: real)
    requires c.rate >= 0 && t <= u
    requires Healthy(c, b, t) && b.Refilled(t) == c.MaxTokens()
    ensures b.Refilled(u) == c.MaxTokens()
  {
    hide Accrued;
    AccruedSum(b.refillRate, t - b.lastCheck, u - t);
    assert u - b.lastCheck == (t - b.lastCheck) + (u - t);
    AccruedSign(b.refillRate, u - t);
  }

  lemma IdleIsFull(c: Config, b: Level, t: real)
    requires c.rate >= 0 && RefillsInTime(c)
    requires Healthy(c, b, t) && b.lastCheck < t - EVICT_AFTER
    ensures b.Refilled(t) == c.MaxTokens()
  {
    hide Accrued;
    var idle := t - b.lastCheck;
    AccruedOverDelay(c);
    AccruedSum(b.refillRate, EVICT_AFTER, idle - EVICT_AFTER);
    assert idle == EVICT_AFTER + (idle - EVICT_AFTER);
    AccruedSign(b.refillRate, idle - EVICT_AFTER);
  }

  lemma AccruedOverDelay(c: Config)
    ensures Accrued(c.RefillRate(), EVICT_AFTER) == 5.0 * c.rate as real
  {}

  lemma TakenStaysHealthy(c: Config, b: Level, t: real, u: real)
    requires c.rate >= 1 && Healthy(c, b, t) && t <= u
    ensures Healthy(c, b.Taken(u), u)
  {
    hide Accrued;
    AccruedSign(b.refillRate, u - b.lastCheck);
  }

  /** The two tables charge a request to buckets that agree on everything it can observe. */
  lemma SameCharge(c: Config, swept: Table, full: Table, t: real, key: string, created: real, now: real)
    requires c.rate >= 1 && t <= created <= now
    requires Indistinct(c, swept, full, t)
    ensures var b, b' := Charged(c, swept, key, created), Charged(c, full, key, created);
            b.Refilled(now) == b'.Refilled(now) && b.Taken(now) == b'.Taken(now) && Healthy(c, b'.Taken(now), now)
  {
    hide Accrued, Level.Refilled;
    if key !in swept {
      BornFull(c, swept, key, created, now);
      if key in full { StaysFull(c, full[key], t, now); }
    }
    TakenStaysHealthy(c, Charged(c, full, key, created), created, now);
  }

  lemma RequestKeepsIndistinct(c: Config, swept: Table, full: Table, t: real, key: string, created: real, now: real)
    requires c.rate >= 1 && t <= created <= now
    requires Indistinct(c, swept, full, t)
    requires |full.Keys + {key}| <= MAX_BUCKETS
    ensures Admits(c, swept, key, created, now) == Admits(c, full, key, created, now)
    ensures Indistinct(c, AfterRequest(c, swept, key, created, now), AfterRequest(c, full, key, created, now), now)
    ensures AfterRequest(c, full, key, created, now).Keys == full.Keys + {key}
  {
    hide Accrued, Level.Refilled, Level.Taken, Charged;
    SubsetSize(swept.Keys + {key}, full.Keys + {key});
    assert !TurnedAway(swept, key) && !TurnedAway(full, key);
    SameCharge(c, swept, full, t, key, created, now);
    forall k | k in full && k !in swept ensures full[k].Refilled(now) == c.MaxTokens() {
      StaysFull(c, full[k], t, now);
    }
  }

  lemma SweepKeepsIndistinct(c: Config, swept: Table, full: Table, t: real, now: real)
    requires c.rate >= 1 && RefillsInTime(c) && t <= now
    requires Indistinct(c, swept, full, t)
    ensures Indistinct(c, AfterSweep(swept, now), full, now)
  {
    hide Accrued, Level.Refilled;
    forall k | k in full && full[k].lastCheck < now - EVICT_AFTER ensures full[k].Refilled(now) == c.MaxTokens() {
      IdleIsFull(c, full[k], now);
    }
    IdleSweepKeepsIndistinct(c, swept, full, t, now);
  }

  /** A sweep goes unnoticed where the buckets it may take away are full. */
  lemma IdleSweepKeepsIndistinct(c: Config, swept: Table, full: Table, t: real, now: real)
    requires c.rate >= 1 && t <= now && Indistinct(c, swept, full, t)
    requires forall k :: k in full && full[k].lastCheck < now - EVICT_AFTER ==> full[k].Refilled(now) == c.MaxTokens()
    ensures Indistinct(c, AfterSweep(swept, now), full, now)
  {
    hide Accrued, Level.Refilled;
    forall k | k in full && k !in AfterSweep(swept, now) ensures full[k].Refilled(now) == c.MaxTokens() {
      if k !in swept { StaysFull(c, full[k], t, now); }
    }
  }

  lemma {:induction false} SweptRun(c: Config, evs: seq<Event>, j: nat, t: real)
    requires c.rate >= 1 && RefillsInTime(c)
    requires Timed(evs) && |KeysOf(evs)| <= MAX_BUCKETS
    requires j <= |evs|
    requires if j == 0 then evs == [] || t == evs[0].Start() else t == evs[j - 1].now
    ensures var full := Unswept(evs, j);
            && Replies(c, evs, j) == Replies(c, full, |full|)
            && Indistinct(c, TableAt(c, evs, j), TableAt(c, full, |full|), t)
            && TableAt(c, full, |full|).Keys <= KeysOf(evs)
  {
    hide Accrued, Level.Refilled, AfterRequest, AfterSweep, Admits, Granted, Indistinct;
    if j == 0 {
      BothEmpty(c, evs, t);
    } else {
      hide TableAt, Replies, Unswept;
      var u := if j == 1 then evs[0].Start() else evs[j - 2].now;
      SweptRun(c, evs, j - 1, u);
      assert u <= evs[j - 1].Start();
      if evs[j - 1].Sweep? {
        SweptBySweep(c, evs, j, u);
      } else {
        SweptByRequest(c, evs, j, u);
      }
    }
  }

  lemma BothEmpty(c: Config, evs: seq<Event>, t: real)
    ensures Replies(c, evs, 0) == [] == Replies(c, [], 0) && Unswept(evs, 0) == []
    ensures Indistinct(c, TableAt(c, evs, 0), TableAt(c, [], 0), t) && TableAt(c, [], 0) == map[]
  {}

  lemma SweptBySweep(c: Config, evs: seq<Event>, j: nat, u: real)
    requires c.rate >= 1 && RefillsInTime(c) && 0 < j <= |evs| && evs[j - 1].Sweep? && u <= evs[j - 1].now
    requires var full := Unswept(evs, j - 1); Indistinct(c, TableAt(c, evs, j - 1), TableAt(c, full, |full|), u)
    ensures Unswept(evs, j) == Unswept(evs, j - 1) && Replies(c, evs, j) == Replies(c, evs, j - 1)
    ensures var full := Unswept(evs, j); Indistinct(c, TableAt(c, evs, j), TableAt(c, full, |full|), evs[j - 1].now)
  {
    hide Indistinct, AfterSweep;
    var full := Unswept(evs, j - 1);
    SweepKeepsIndistinct(c, TableAt(c, evs, j - 1), TableAt(c, full, |full|), u, evs[j - 1].now);
  }

  lemma AfterOneMore(c: Config, evs: seq<Event>, e: Event)
    requires e.Request?
    ensures var m := TableAt(c, evs, |evs|);
            && TableAt(c, evs + [e], |evs| + 1) == AfterRequest(c, m, e.key, e.created, e.now)
            && Replies(c, evs + [e], |evs| + 1) == Replies(c, evs, |evs|) + [Admits(c, m, e.key, e.created, e.now)]
  {
    hide AfterRequest, Admits;
    PrefixRun(c, evs, [e], |evs|);
  }

  lemma SweptByRequest(c: Config, evs: seq<Event>, j: nat, u: real)
    requires c.rate >= 1 && 0 < j <= |evs| && evs[j - 1].Request? && u <= evs[j - 1].created <= evs[j - 1].now
    requires |KeysOf(evs)| <= MAX_BUCKETS
    requires var full := Unswept(evs, j - 1);
             && Indistinct(c, TableAt(c, evs, j - 1), TableAt(c, full, |full|), u)
             && TableAt(c, full, |full|).Keys <= KeysOf(evs)
             && Replies(c, evs, j - 1) == Replies(c, full, |full|)
    ensures var full := Unswept(evs, j);
            && Indistinct(c, TableAt(c, evs, j), TableAt(c, full, |full|), evs[j - 1].now)
            && TableAt(c, full, |full|).Keys <= KeysOf(evs)
            && Replies(c, evs, j) == Replies(c, full, |full|)
  {
    hide Indistinct, AfterRequest, Admits;
    var e, full := evs[j - 1], Unswept(evs, j - 1);
    var m, m' := TableAt(c, evs, j - 1), TableAt(c, full, |full|);
    assert e.key in KeysOf(evs);
    SubsetSize(m'.Keys + {e.key}, KeysOf(evs));
    RequestKeepsIndistinct(c, m, m', u, e.key, e.created, e.now);
    assert Unswept(evs, j) == full + [e];
    AfterOneMore(c, full, e);
  }

  /**
   When a full bucket refills within five minutes and the table never fills up, sweeps may be put
   anywhere in a run without changing a single answer.
   */
  lemma SweepsUnobservable(c: Config, evs: seq<Event>)
    requires c.rate >= 1 && RefillsInTime(c)
    requires Timed(evs) && |KeysOf(evs)| <= MAX_BUCKETS
    ensures Replies(c, evs, |evs|) == Replies(c, Unswept(evs, |evs|), |Unswept(evs, |evs|)|)
  {
    SweptRun(c, evs, |evs|, if evs == [] then 0.0 else evs[|evs| - 1].now);
  }

  function Volley(key: string, t: real, n: nat): seq<Event> {
    if n == 0 then [] else Volley(key, t, n - 1) + [Request(key, t, t)]
  }

  function Yes(n: nat): seq<bool> {
    if n == 0 then [] else Yes(n - 1) + [true]
  }

  function Spent(c: Config, n: nat, t: real): Level {
    Level(c.MaxTokens() - n as real, c.MaxTokens(), c.RefillRate(), t)
  }

  lemma SpendOne(c: Config, n: nat, t: real)
    requires n < c.burst
    ensures Spent(c, n, t).Refilled(t) >= 1.0
    ensures Spent(c, n, t).Taken(t) == Spent(c, n + 1, t)
  {
    assert Accrued(c.RefillRate(), 0.0) == 0.0;
    hide Accrued;
    assert t - t == 0.0;
  }

  lemma AppendRequest(c: Config, evs: seq<Event>, key: string, t: real, b: Level)
    requires b.Refilled(t) >= 1.0
    requires var m := TableAt(c, evs, |evs|); !TurnedAway(m, key) && Charged(c, m, key, t) == b
    ensures var more := evs + [Request(key, t, t)];
            && Replies(c, more, |more|) == Replies(c, evs, |evs|) + [true]
            && TableAt(c, more, |more|) == TableAt(c, evs, |evs|)[key := b.Taken(t)]
  {
    hide Accrued, Level.Refilled, Level.Taken;
    PrefixRun(c, evs, [Request(key, t, t)], |evs|);
  }

  /** From an empty table, as many requests as the burst go through at one instant. */
  lemma {:induction false} Drain(c: Config, pre: seq<Event>, key: string, t: real, n: nat)
    requires n <= c.burst
    requires TableAt(c, pre, |pre|) == map[]
    ensures var evs := pre + Volley(key, t, n);
            && Replies(c, evs, |evs|) == Replies(c, pre, |pre|) + Yes(n)
            && TableAt(c, evs, |evs|) == if n == 0 then map[] else map[key := Spent(c, n, t)]
  {
    hide Accrued, Level.Refilled, Level.Taken, TableAt, Replies;
    if n == 0 {
      assert pre + [] == pre;
    } else {
      Drain(c, pre, key, t, n - 1);
      var evs := pre + Volley(key, t, n - 1);
      assert pre + Volley(key, t, n) == evs + [Request(key, t, t)];
      SpendOne(c, n - 1, t);
      AppendRequest(c, evs, key, t, Spent(c, n - 1, t));
      assert (Replies(c, pre, |pre|) + Yes(n - 1)) + [true] == Replies(c, pre, |pre|) + Yes(n);
    }
  }

  lemma {:induction false} UnsweptVolley(pre: seq<Event>, key: string, t: real, n: nat)
    ensures var evs := pre + Volley(key, t, n);
            Unswept(evs, |evs|) == Unswept(pre, |pre|) + Volley(key, t, n)
  {
    if n == 0 {
      assert pre + [] == pre;
    } else {
      UnsweptVolley(pre, key, t, n - 1);
      var evs := pre + Volley(key, t, n - 1);
      assert pre + Volley(key, t, n) == evs + [Request(key, t, t)];
      UnsweptPrefix(evs, [Request(key, t, t)], |evs|);
    }
  }

  lemma {:induction false} UnsweptPrefix(evs: seq<Event>, more: seq<Event>, j: nat)
    requires j <= |evs|
    ensures Unswept(evs + more, j) == Unswept(evs, j)
  {
    if j > 0 {
      UnsweptPrefix(evs, more, j - 1);
    }
  }

  lemma {:induction false} VolleyAt(key: string, t: real, n: nat)
    ensures |Volley(key, t, n)| == n
    ensures forall i :: 0 <= i < n ==> Volley(key, t, n)[i] == Request(key, t, t)
  {
    if n > 0 {
      VolleyAt(key, t, n - 1);
    }
  }

  lemma {:induction false} AllGranted(c: Config, evs: seq<Event>, key: string, j: nat)
    requires j <= |evs| && forall i :: 0 <= i < |evs| ==> evs[i].Asks(key)
    requires Replies(c, evs, j) == Yes(j)
    ensures Grants(c, evs, key, 0, j) == j && (j > 0 ==> Granted(c, evs, j - 1))
  {
    hide Granted;
    if j > 0 {
      var replies, yes := Replies(c, evs, j - 1), Yes(j - 1);
      assert evs[j - 1].Asks(key);
      assert Replies(c, evs, j) == replies + [Granted(c, evs, j - 1)];
      RepliesLength(c, evs, key, j - 1);
      YesLength(j - 1);
      assert (replies + [Granted(c, evs, j - 1)])[..j - 1] == (yes + [true])[..j - 1];
      assert (replies + [Granted(c, evs, j - 1)])[j - 1] == (yes + [true])[j - 1];
      AllGranted(c, evs, key, j - 1);
    }
  }

  lemma YesLength(n: nat)
    ensures |Yes(n)| == n
  {}

  lemma {:induction false} YesSum(m: nat, n: nat)
    ensures Yes(m) + Yes(n) == Yes(m + n)
  {
    if n > 0 {
      YesSum(m, n - 1);
      assert Yes(m) + Yes(n) == (Yes(m) + Yes(n - 1)) + [true];
    }
  }

  lemma {:induction false} RepliesLength(c: Config, evs: seq<Event>, key: string, j: nat)
    requires j <= |evs| && forall i :: 0 <= i < |evs| ==> evs[i].Asks(key)
    ensures |Replies(c, evs, j)| == j
  {
    if j > 0 {
      RepliesLength(c, evs, key, j - 1);
    }
  }

  lemma {:induction false} BucketStays(c: Config, evs: seq<Event>, key: string, j: nat)
    requires 1 <= j <= |evs| && forall i :: 0 <= i < |evs| ==> evs[i].Asks(key)
    ensures key in TableAt(c, evs, j)
  {
    hide Accrued;
    if j > 1 {
      BucketStays(c, evs, key, j - 1);
    }
  }

  /** Spend the burst, wait until `t`, sweep, and spend it again. */
  function Twice(c: Config, key: string, t: real): seq<Event>
    requires 1 <= c.burst
  {
    Volley(key, 0.0, c.burst) + [Sweep(t)] + Volley(key, t, c.burst)
  }

  lemma TwiceIsTimed(c: Config, key: string, t: real)
    requires 1 <= c.burst && t >= 0.0
    ensures Timed(Twice(c, key, t)) && |KeysOf(Twice(c, key, t))| <= 1
  {
    VolleyAt(key, 0.0, c.burst);
    VolleyAt(key, t, c.burst);
    assert KeysOf(Twice(c, key, t)) <= {key};
    SubsetSize(KeysOf(Twice(c, key, t)), {key});
  }

  lemma SweepEmpties(c: Config, evs: seq<Event>, key: string, level: Level, t: real)
    requires TableAt(c, evs, |evs|) == map[key := level] && level.lastCheck < t - EVICT_AFTER
    ensures TableAt(c, evs + [Sweep(t)], |evs| + 1) == map[]
    ensures Replies(c, evs + [Sweep(t)], |evs| + 1) == Replies(c, evs, |evs|)
  {
    PrefixRun(c, evs, [Sweep(t)], |evs|);
  }

  lemma NothingYet(c: Config)
    ensures TableAt(c, [], 0) == map[] && Replies(c, [], 0) == []
  {}

  lemma TwiceSucceedsSwept(c: Config, key: string, t: real)
    requires 1 <= c.burst && EVICT_AFTER < t
    ensures Replies(c, Twice(c, key, t), |Twice(c, key, t)|) == Yes(2 * c.burst)
  {
    NothingYet(c);
    hide Accrued, TableAt, Replies, Volley, Yes;
    var n := c.burst;
    var first := Volley(key, 0.0, n);
    assert [] + first == first;
    Drain(c, [], key, 0.0, n);
    SweepEmpties(c, first, key, Spent(c, n, 0.0), t);
    Drain(c, first + [Sweep(t)], key, t, n);
    assert [] + Yes(n) == Yes(n);
    YesSum(n, n);
  }

  lemma TwiceUnswept(c: Config, key: string, t: real)
    requires 1 <= c.burst
    ensures Unswept(Twice(c, key, t), |Twice(c, key, t)|) == Volley(key, 0.0, c.burst) + Volley(key, t, c.burst)
  {
    var first := Volley(key, 0.0, c.burst);
    assert [] + first == first;
    UnsweptVolley([], key, 0.0, c.burst);
    UnsweptPrefix(first, [Sweep(t)], |first|);
    UnsweptVolley(first + [Sweep(t)], key, t, c.burst);
  }

  /** A run of requests of one key that is granted throughout respects the bound over its whole length. */
  lemma GrantedThroughout(c: Config, evs: seq<Event>, key: string)
    requires Timed(evs) && c.rate >= 0 && evs != []
    requires forall i :: 0 <= i < |evs| ==> evs[i].Asks(key)
    requires Replies(c, evs, |evs|) == Yes(|evs|)
    ensures |evs| as real <= c.MaxTokens() + Accrued(c.RefillRate(), evs[|evs| - 1].now - evs[0].now)
  {
    hide Accrued, Granted, Replies, Yes;
    var n := |evs|;
    AllGranted(c, evs, key, n);
    assert BucketLives(c, evs, key, 0, n - 1) by {
      forall j | 1 <= j <= n ensures key in TableAt(c, evs, j) { BucketStays(c, evs, key, j); }
    }
    hide TableAt, BucketLives;
    assert evs[0].Asks(key);
    MinPlus(c, evs, key, 0, n - 1);
  }

  lemma TwoVolleys(key: string, t: real, n: nat)
    requires n >= 1 && t >= 0.0
    ensures var full := Volley(key, 0.0, n) + Volley(key, t, n);
            && |full| == 2 * n && Timed(full) && full[|full| - 1].now - full[0].now == t
            && forall i :: 0 <= i < |full| ==> full[i].Asks(key)
  {
    VolleyAt(key, 0.0, n);
    VolleyAt(key, t, n);
    hide Volley;
  }

  /** Without the sweep the second volley is too early if a full bucket has not yet refilled. */
  lemma TwiceFailsUnswept(c: Config, key: string, t: real)
    requires 1 <= c.burst && c.rate >= 0 && t >= 0.0
    requires Accrued(c.RefillRate(), t) < c.MaxTokens()
    ensures var full := Unswept(Twice(c, key, t), |Twice(c, key, t)|); Replies(c, full, |full|) != Yes(2 * c.burst)
  {
    hide Accrued, Replies, Unswept, Twice, Volley, Yes;
    TwiceUnswept(c, key, t);
    TwoVolleys(key, t, c.burst);
    var full := Volley(key, 0.0, c.burst) + Volley(key, t, c.burst);
    if Replies(c, full, |full|) == Yes(2 * c.burst) {
      GrantedThroughout(c, full, key);
      assert false;
    }
  }

  lemma HalfToken(rate: real) returns (wait: real)
    requires rate > 0.0
    ensures wait > 0.0 && Accrued(rate / 60.0, wait) == 0.5
  {
    wait := 30.0 / rate;
    assert wait * rate == 30.0;
  }

  lemma OneMoreThanRefills(c: Config)
    requires c.rate >= 1 && !RefillsInTime(c)
    ensures 6.0 <= 5.0 * c.rate as real + 1.0 <= c.MaxTokens()
  {
    assert c.burst >= 5 * c.rate + 1;
  }

  lemma JustTooEarly(c: Config) returns (t: real)
    requires c.rate >= 1 && !RefillsInTime(c)
    ensures EVICT_AFTER < t && Accrued(c.RefillRate(), t) < c.MaxTokens()
  {
    OneMoreThanRefills(c);
    AccruedOverDelay(c);
    var wait := HalfToken(c.rate as real);
    assert c.RefillRate() == c.rate as real / 60.0;
    hide Accrued, Config.MaxTokens, Config.RefillRate, RefillsInTime;
    AccruedSum(c.RefillRate(), EVICT_AFTER, wait);
    t := EVICT_AFTER + wait;
  }

  // ---------------------------------------------------------------------------------------------
  // A full table
  // ---------------------------------------------------------------------------------------------

  /** A different key for each number. */
  function Name(i: nat): string {
    if i == 0 then "" else Name(i - 1) + "k"
  }

  lemma {:induction false} NameLength(i: nat)
    ensures |Name(i)| == i
  {
    if i > 0 { NameLength(i - 1); }
  }

  ghost function Names(n: nat): set<string> {
    if n == 0 then {} else Names(n - 1) + {Name(n - 1)}
  }

  lemma {:induction false} NamesAre(n: nat)
    ensures |Names(n)| == n && forall key :: key in Names(n) ==> |key| < n
    ensures forall i: nat :: i < n ==> Name(i) in Names(n)
  {
    if n > 0 {
      NamesAre(n - 1);
      NameLength(n - 1);
    }
  }

  /** One request of each of the first n keys. */
  function Fill(n: nat): seq<Event> {
    if n == 0 then [] else Fill(n - 1) + [Request(Name(n - 1), 0.0, 0.0)]
  }

  lemma {:induction false} FillEvents(n: nat)
    ensures |Fill(n)| == n && forall i :: 0 <= i < n ==> Fill(n)[i] == Request(Name(i), 0.0, 0.0)
  {
    if n > 0 { FillEvents(n - 1); }
  }

  ghost predicate Untouched(m: Table, n: nat) {
    m.Keys == Names(n) && forall k :: k in m ==> m[k].lastCheck == 0.0
  }

  lemma {:induction false} FillTable(c: Config, n: nat)
    requires n <= MAX_BUCKETS
    ensures |Fill(n)| == n && Untouched(TableAt(c, Fill(n), n), n)
  {
    if n == 0 {
      NothingYet(c);
    } else {
      hide TableAt, Replies;
      FillTable(c, n - 1);
      var m := TableAt(c, Fill(n - 1), n - 1);
      AfterOneMore(c, Fill(n - 1), Request(Name(n - 1), 0.0, 0.0));
      OneMoreUntouched(c, m, n - 1);
    }
  }

  lemma OneMoreUntouched(c: Config, m: Table, n: nat)
    requires Untouched(m, n) && n < MAX_BUCKETS
    ensures Untouched(AfterRequest(c, m, Name(n), 0.0, 0.0), n + 1)
  {
    hide Level.Refilled;
    NamesAre(n);
    assert |m.Keys| == |m|;
  }

  /** Fill the table, wait, sweep, and let one more key ask. */
  function Overfull(n: nat, t: real): seq<Event> {
    Fill(n) + [Sweep(t)] + [Request(Name(n), t, t)]
  }

  lemma OverfullIsTimed(n: nat, t: real)
    requires t >= 0.0
    ensures Timed(Overfull(n, t)) && |KeysOf(Overfull(n, t))| <= n + 1
  {
    FillEvents(n);
    NamesAre(n + 1);
    hide Fill, Name, Names;
    var evs := Overfull(n, t);
    forall k | k in KeysOf(evs) ensures k in Names(n + 1) {
      var i :| 0 <= i < |evs| && evs[i].Request? && evs[i].key == k;
    }
    SubsetSize(KeysOf(evs), Names(n + 1));
  }

  /** The table is at its cap, refuses this key, and was last touched at time 0. */
  predicate FullFor(m: Table, key: string) {
    TurnedAway(m, key) && forall k :: k in m ==> m[k].lastCheck == 0.0
  }

  /** Where the first n keys fill the table, the sweep makes room for one more, which is else turned away. */
  lemma OverfullReveals(c: Config, n: nat, t: real)
    requires c.rate >= 1 && EVICT_AFTER < t
    ensures var evs, fill := Overfull(n, t), Fill(n);
            FullFor(TableAt(c, fill, |fill|), Name(n)) ==>
              Replies(c, evs, |evs|) != Replies(c, Unswept(evs, |evs|), |Unswept(evs, |evs|)|)
  {
    FillEvents(n);
    hide Name, Replies, TableAt, Fill, Unswept, AfterRequest;
    var fill, last := Fill(n), Request(Name(n), t, t);
    var m := TableAt(c, fill, n);
    if FullFor(m, Name(n)) {
      UnsweptOverfull(n, t);
      SweptEmpty(c, fill, t);
      AfterOneMore(c, fill + [Sweep(t)], last);
      AfterOneMore(c, fill, last);
      BornFull(c, map[], Name(n), t, t);
      assert !Admits(c, m, Name(n), t, t) && Admits(c, map[], Name(n), t, t);
      hide Admits;
      var swept, full := Replies(c, fill + [Sweep(t)], n + 1), Replies(c, fill, n);
      LastDiffers(swept, full, Admits(c, map[], Name(n), t, t), Admits(c, m, Name(n), t, t));
    }
  }

  /** The keys that fill the table, one bucket each, and one more. */
  lemma TableFull(c: Config) returns (n: nat)
    ensures n <= MAX_BUCKETS && FullFor(TableAt(c, Fill(n), |Fill(n)|), Name(n))
  {
    hide TableAt, Fill, Name, Names;
    n := MAX_BUCKETS;
    FillTable(c, n);
    NamesAre(n);
    NameLength(n);
    var m := TableAt(c, Fill(n), n);
    assert |m.Keys| == |m| && |Name(n)| == n;
  }

  lemma LastDiffers(a: seq<bool>, b: seq<bool>, x: bool, y: bool)
    requires x != y
    ensures a + [x] != b + [y]
  {
    assert (a + [x])[|a|] == x && (b + [y])[|b|] == y;
  }

  lemma SweptEmpty(c: Config, fill: seq<Event>, t: real)
    requires EVICT_AFTER < t
    requires var m := TableAt(c, fill, |fill|); forall k :: k in m ==> m[k].lastCheck == 0.0
    ensures TableAt(c, fill + [Sweep(t)], |fill| + 1) == map[]
  {
    PrefixRun(c, fill, [Sweep(t)], |fill|);
  }

  lemma {:induction false} UnsweptFill(n: nat)
    ensures |Fill(n)| == n && Unswept(Fill(n), n) == Fill(n)
  {
    if n > 0 {
      UnsweptFill(n - 1);
      UnsweptPrefix(Fill(n - 1), [Request(Name(n - 1), 0.0, 0.0)], n - 1);
    }
  }

  lemma UnsweptOverfull(n: nat, t: real)
    ensures Unswept(Overfull(n, t), |Overfull(n, t)|) == Fill(n) + [Request(Name(n), t, t)]
  {
    UnsweptFill(n);
    hide Fill, Name;
    UnsweptPrefix(Fill(n), [Sweep(t)], n);
    UnsweptPrefix(Fill(n) + [Sweep(t)], [Request(Name(n), t, t)], n + 1);
  }

  /** Sweeps of runs with at most `n` keys go unnoticed. */
  ghost predicate Unnoticed(c: Config, n: nat) {
    forall evs: seq<Event> :: Timed(evs) && |KeysOf(evs)| <= n ==>
      Replies(c, evs, |evs|) == Replies(c, Unswept(evs, |evs|), |Unswept(evs, |evs|)|)
  }

  /** Both conditions are exact: on the configuration, and on the number of keys. */
  lemma SweepsUnobservableIff(c: Config, n: nat)
    requires c.rate >= 1 && n >= 1
    ensures Unnoticed(c, n) <==> RefillsInTime(c) && n <= MAX_BUCKETS
  {
    hide Accrued, Replies, Unswept, Twice, Overfull;
    if RefillsInTime(c) && n <= MAX_BUCKETS {
      forall evs: seq<Event> | Timed(evs) && |KeysOf(evs)| <= n
        ensures Replies(c, evs, |evs|) == Replies(c, Unswept(evs, |evs|), |Unswept(evs, |evs|)|)
      {
        SweepsUnobservable(c, evs);
      }
    } else if !RefillsInTime(c) {
      var t := JustTooEarly(c);
      TwiceIsTimed(c, "k", t);
      TwiceSucceedsSwept(c, "k", t);
      TwiceFailsUnswept(c, "k", t);
    } else {
      hide TableAt, FullFor, Fill, Name;
      var k := TableFull(c);
      OverfullIsTimed(k, 301.0);
      OverfullReveals(c, k, 301.0);
    }
  }
}
