/**
 The numbers of the rate limiter (internal/policy/ratelimit.go): what a bucket holds and regains, when
 it is evicted and how many there may be, for all timed runs from an empty limiter.
 */
module LimitLaws {
  import opened Common
  import opened Eviction
  import opened RateLimit

  /** The size of a bucket: the burst, or the rate per minute where no burst of at least one is set. */
  function Cap(c: Config): int {
    if c.burst >= 1 then c.burst else c.rate
  }

  /**
   While its bucket lives a request is granted exactly when the grants of every window ending with it
   leave room for one more under the size of the bucket plus a sixtieth of the rate for each second.
   */
  lemma WindowsExactly(c: Config, evs: seq<Event>, key: string, s: nat, k: nat)
    requires Timed(evs) && c.rate >= 0
    requires s <= k < |evs| && evs[k].Asks(key) && BucketLives(c, evs, key, s, k)
    ensures Granted(c, evs, k) <==>
            forall i :: s <= i <= k && evs[i].Asks(key) ==>
              Grants(c, evs, key, i, k) as real + 1.0
                <= Cap(c) as real + (evs[k].now - evs[i].now) * (c.rate as real / 60.0)
  {
    hide Grants, Granted, BucketLives, Timed;
    MinPlus(c, evs, key, s, k);
  }

  // ---------------------------------------------------------------------------------------------
  // Many requests at once
  // ---------------------------------------------------------------------------------------------

  /** What is left of a bucket after n requests at one instant, if it lets `cap` of them through. */
  ghost predicate Left(c: Config, m: Table, key: string, n: nat, t: real) {
    if n == 0 then m == map[]
    else key in m && m.Keys == {key}
         && m[key].tokens == (Cap(c) - if n <= Cap(c) then n else if Cap(c) > 0 then Cap(c) else 0) as real
         && m[key].maxTokens == Cap(c) as real && m[key].lastCheck == t
  }

  lemma TakesOne(c: Config, m: Table, key: string, n: nat, t: real)
    requires Left(c, m, key, n, t)
    ensures Admits(c, m, key, t, t) <==> n < Cap(c)
    ensures Left(c, AfterRequest(c, m, key, t, t), key, n + 1, t)
  {
    var b := Charged(c, m, key, t);
    assert t - b.lastCheck == 0.0;
    NoTime(b.refillRate);
    hide Accrued;
    assert n == 0 ==> |m| == 0;
    assert n > 0 ==> m.Keys == {key};
  }

  lemma NoTime(refillRate: real)
    ensures Accrued(refillRate, 0.0) == 0.0
  {}

  lemma {:induction false} AfterSome(c: Config, key: string, t: real, n: nat, k: nat)
    requires k <= n
    ensures |Volley(key, t, n)| == n && Left(c, TableAt(c, Volley(key, t, n), k), key, k, t)
  {
    assert Left(c, map[], key, 0, t);
    hide Left, Admits, AfterRequest;
    VolleyAt(key, t, n);
    if k > 0 {
      AfterSome(c, key, t, n, k - 1);
      TakesOne(c, TableAt(c, Volley(key, t, n), k - 1), key, k - 1, t);
    }
  }

  /** From an empty limiter, request k of a volley is granted exactly when the bucket holds more than k tokens. */
  lemma GrantedAtOnce(c: Config, key: string, t: real, n: nat, k: nat)
    requires k < n
    ensures var evs := Volley(key, t, n);
            |evs| == n && evs[k] == Request(key, t, t) && (Granted(c, evs, k) <==> k < Cap(c))
  {
    hide Left, Admits, AfterRequest;
    VolleyAt(key, t, n);
    AfterSome(c, key, t, n, k);
    TakesOne(c, TableAt(c, Volley(key, t, n), k), key, k, t);
  }

  /** So as many are granted at one instant as the bucket holds, and no more. */
  lemma {:induction false} AtOnce(c: Config, key: string, t: real, n: nat, k: nat)
    requires k <= n
    ensures |Volley(key, t, n)| == n
    ensures Grants(c, Volley(key, t, n), key, 0, k) == if k <= Cap(c) then k else if Cap(c) > 0 then Cap(c) else 0
  {
    hide Granted;
    VolleyAt(key, t, n);
    if k > 0 {
      AtOnce(c, key, t, n, k - 1);
      GrantedAtOnce(c, key, t, n, k - 1);
    }
  }

  // ---------------------------------------------------------------------------------------------
  // Which keys have a bucket
  // ---------------------------------------------------------------------------------------------

  /** A request of the key found a bucket or made one. */
  ghost predicate Served(c: Config, evs: seq<Event>, key: string, i: nat) {
    i < |evs| && evs[i].Asks(key) && key in TableAt(c, evs, i + 1)
  }

  /** A bucket was last checked by a request of its key. */
  lemma {:induction false} LastServed(c: Config, evs: seq<Event>, key: string, j: nat) returns (i: nat)
    requires j <= |evs| && key in TableAt(c, evs, j)
    ensures i < j && Served(c, evs, key, i) && TableAt(c, evs, j)[key].lastCheck == evs[i].now
  {
    hide Level.Refilled;
    if evs[j - 1].Asks(key) && !TurnedAway(TableAt(c, evs, j - 1), key) {
      i := j - 1;
    } else {
      i := LastServed(c, evs, key, j - 1);
    }
  }

  /** A bucket stays at least 300 seconds after a request of its key. */
  lemma {:induction false} StillThere(c: Config, evs: seq<Event>, key: string, i: nat, j: nat)
    requires Timed(evs) && i < j < |evs| && Served(c, evs, key, i) && evs[j].now - evs[i].now <= 300.0
    ensures key in TableAt(c, evs, j) && TableAt(c, evs, j)[key].lastCheck >= evs[i].now
    decreases j
  {
    hide Level.Refilled;
    if j > i + 1 { StillThere(c, evs, key, i, j - 1); }
  }

  /**
   A request gives its key a bucket unless there are 100000 already, which there are never more than; a
   sweep leaves exactly the keys served within the last 300 seconds.
   */
  lemma TrackedExactly(c: Config, evs: seq<Event>, key: string, j: nat)
    requires Timed(evs) && j < |evs|
    ensures var before, after := TableAt(c, evs, j), TableAt(c, evs, j + 1);
            && |before| <= 100000
            && (evs[j].Request? ==>
                  (key in after <==> key in before || (evs[j].key == key && |before| < 100000)))
            && (evs[j].Sweep? ==>
                  (key in after <==>
                     exists i: nat :: i < j && Served(c, evs, key, i) && evs[j].now - evs[i].now <= 300.0))
  {
    hide Level.Refilled;
    NeverMore(c, evs, j);
    if evs[j].Sweep? {
      var now := evs[j].now;
      if key in TableAt(c, evs, j + 1) {
        var i := LastServed(c, evs, key, j);
      }
      if i: nat :| i < j && Served(c, evs, key, i) && now - evs[i].now <= 300.0 {
        StillThere(c, evs, key, i, j);
      }
    }
  }

  lemma {:induction false} NeverMore(c: Config, evs: seq<Event>, j: nat)
    requires j <= |evs|
    ensures |TableAt(c, evs, j)| <= 100000
  {
    hide Level.Taken;
    if j > 0 {
      NeverMore(c, evs, j - 1);
      var before, after := TableAt(c, evs, j - 1), TableAt(c, evs, j);
      if evs[j - 1].Sweep? {
        SubsetSize(after.Keys, before.Keys);
        assert |after| == |after.Keys| && |before| == |before.Keys|;
      }
    }
  }
}
