/**
 Request metrics (internal/observability/metrics.go): one histogram of durations for each series of
 method and route, a cap on the number of series, the cumulative buckets of the export, and the
 escaping of label values.

 Durations are reals; the counters are unbounded.
 */
module Metrics {
  import opened Common

  const MAX_SERIES := 512
  const OVERFLOW_ROUTE := "__overflow__"
  const UNMATCHED_ROUTE := "unmatched"

  const BUCKETS: seq<real> := [5.0, 10.0, 25.0, 50.0, 100.0, 250.0, 500.0, 1000.0, 2500.0, 5000.0]

  /** The bucket of what exceeds every bound. */
  const INF := 10

  datatype Hist = Hist(counts: seq<nat>, sum: real, count: nat)

  function Empty(): (h: Hist)
    ensures |h.counts| == INF + 1
  {
    Hist([0, 0, 0, 0, 0, 0, 0, 0, 0, 0, 0], 0.0, 0)
  }

  datatype Request = Request(verb: string, route: string, status: int, ms: real)

  // ---------------------------------------------------------------------------------------------
  // Specification
  // ---------------------------------------------------------------------------------------------

  /** The first bucket a value fits, or the last one. */
  function BucketOf(v: real, i: nat): (b: nat)
    requires i <= INF
    ensures i <= b <= INF
    decreases INF - i
  {
    if i == INF || v <= BUCKETS[i] then i else BucketOf(v, i + 1)
  }

  function Observed(h: Hist, v: real): (r: Hist)
    requires |h.counts| == INF + 1
    ensures |r.counts| == |h.counts|
  {
    var b := BucketOf(v, 0);
    Hist(h.counts[b := h.counts[b] + 1], h.sum + v, h.count + 1)
  }

  type Table = map<string, Hist>

  ghost predicate WellFormed(t: Table) {
    forall k :: k in t ==> |t[k].counts| == INF + 1
  }

  function Key(verb: string, route: string): string {
    verb + " " + (if route == "" then UNMATCHED_ROUTE else route)
  }

  /** The series a request is counted in. */
  function SeriesOf(keys: set<string>, verb: string, route: string): string {
    var key := Key(verb, route);
    if key !in keys && |keys| >= MAX_SERIES then Key(verb, OVERFLOW_ROUTE) else key
  }

  function Recorded(t: Table, verb: string, route: string, ms: real): Table
    requires WellFormed(t)
  {
    var key := SeriesOf(t.Keys, verb, route);
    t[key := Observed(if key in t then t[key] else Empty(), ms)]
  }

  /** A number of whole units, rounded toward zero. */
  function Truncated(x: real): int {
    if x >= 0.0 then x.Floor else -((-x).Floor)
  }

  lemma RecordedIn(t: Table, verb: string, route: string, ms: real)
    requires WellFormed(t)
    ensures var key, r := SeriesOf(t.Keys, verb, route), Recorded(t, verb, route, ms);
            && WellFormed(r)
            && (forall k :: k in r <==> k in t || k == key)
            && (forall k :: k in t && k != key ==> r[k] == t[k])
            && r[key] == Observed(if key in t then t[key] else Empty(), ms)
  {
    hide Observed, Empty, SeriesOf;
  }

  lemma RecordedOnTop(t: Table, key: string, first: Hist, second: Hist)
    ensures t[key := first][key := second] == t[key := second]
  {}

  // ---------------------------------------------------------------------------------------------
  // The collector
  // ---------------------------------------------------------------------------------------------

  class Histogram {
    ghost const name: string
    var counts: seq<nat>
    var sum: real
    var count: nat

    ghost function Value(): Hist
      reads this
    {
      Hist(counts, sum, count)
    }

    constructor (ghost name: string)
      ensures Value() == Empty() && this.name == name
    {
      this.name := name;
      counts := [0, 0, 0, 0, 0, 0, 0, 0, 0, 0, 0];
      sum := 0.0;
      count := 0;
    }

    method Record(value: real)
      requires |counts| == INF + 1
      modifies this
      ensures Value() == Observed(old(Value()), value)
    {
      sum := sum + value;
      count := count + 1;
      for i := 0 to INF
        invariant BucketOf(value, 0) == BucketOf(value, i) && counts == old(counts)
        invariant sum == old(sum) + value && count == old(count) + 1
      {
        if value <= BUCKETS[i] {
          counts := counts[i := counts[i] + 1];
          return;
        }
      }
      counts := counts[INF := counts[INF] + 1];
    }
  }

  class Collector {
    var requestsTotal: nat
    var errorsTotal: nat
    var responseTimeSum: int
    var responseCount: nat
    var histograms: map<string, Histogram>
    /** What the histograms hold, and the histograms themselves. */
    ghost var table: Table
    ghost var repr: set<Histogram>

    ghost predicate Valid()
      reads this, repr
    {
      && (forall k :: k in table <==> k in histograms) && WellFormed(table)
      && (forall k :: k in histograms ==> Holds(k, table[k]))
    }

    /** A histogram belongs to one key only. */
    ghost predicate Holds(k: string, h: Hist)
      requires k in histograms
      reads this, repr
    {
      histograms[k] in repr && histograms[k].name == k && histograms[k].Value() == h
    }

    constructor ()
      ensures Valid() && table == map[] && repr == {}
      ensures requestsTotal == errorsTotal == responseCount == 0 && responseTimeSum == 0
    {
      requestsTotal, errorsTotal, responseTimeSum, responseCount := 0, 0, 0, 0;
      histograms := map[];
      table, repr := map[], {};
    }

    method RecordRequest(verb: string, route: string, status: int, durationMs: real)
      requires Valid()
      modifies this, repr
      ensures Valid() && table == Recorded(old(table), verb, route, durationMs)
      ensures requestsTotal == old(requestsTotal) + 1 && responseCount == old(responseCount) + 1
      ensures errorsTotal == old(errorsTotal) + (if status >= 500 then 1 else 0)
      ensures responseTimeSum == old(responseTimeSum) + Truncated(durationMs * 1000.0)
      ensures fresh(repr - old(repr))
    {
      hide Observed, Truncated, Empty, Recorded, SeriesOf;
      Observe(verb, route, durationMs);
      Count(status, durationMs);
    }

    /** The counters, kept outside the lock. */
    method Count(status: int, durationMs: real)
      modifies this`requestsTotal, this`errorsTotal, this`responseTimeSum, this`responseCount
      ensures requestsTotal == old(requestsTotal) + 1 && responseCount == old(responseCount) + 1
      ensures errorsTotal == old(errorsTotal) + (if status >= 500 then 1 else 0)
      ensures responseTimeSum == old(responseTimeSum) + Truncated(durationMs * 1000.0)
    {
      requestsTotal := requestsTotal + 1;
      if status >= 500 {
        errorsTotal := errorsTotal + 1;
      }
      responseTimeSum := responseTimeSum + Truncated(durationMs * 1000.0);
      responseCount := responseCount + 1;
    }

    /** The histogram of the request, under the lock. */
    method Observe(verb: string, route: string, durationMs: real)
      requires Valid()
      modifies this`histograms, this`table, this`repr, repr
      ensures Valid() && table == Recorded(old(table), verb, route, durationMs)
      ensures fresh(repr - old(repr))
    {
      hide Observed, Empty, SeriesOf;
      var key := Series(verb, route);
      if key !in histograms {
        Make(key);
      }
      AddTo(key, durationMs);
      RecordedOnTop(old(table), key, Empty(), Observed(Empty(), durationMs));
    }

    /** One sample more in a series that exists. */
    method AddTo(key: string, durationMs: real)
      requires Valid() && key in histograms
      modifies this`table, repr
      ensures Valid() && table == old(table)[key := Observed(old(table)[key], durationMs)]
    {
      hide Observed;
      var h := histograms[key];
      ghost var after := Observed(table[key], durationMs);
      h.Record(durationMs);
      table := table[key := after];
    }

    method Make(key: string)
      requires Valid() && key !in histograms
      modifies this`histograms, this`table, this`repr
      ensures Valid() && fresh(repr - old(repr))
      ensures table == old(table)[key := Empty()]
    {
      hide Empty;
      var h := new Histogram(key);
      histograms := histograms[key := h];
      table, repr := table[key := Empty()], repr + {h};
    }

    /** The cumulative counts printed for a series, bound by bound, and the one for +Inf. */
    method ExportSeries(key: string, ghost reqs: seq<Request>) returns (lines: seq<nat>, infinity: nat, count: nat)
      requires Valid() && table == After(reqs) && key in histograms
      ensures var v := Samples(reqs, key);
              lines == [AtMost(v, 5.0), AtMost(v, 10.0), AtMost(v, 25.0), AtMost(v, 50.0), AtMost(v, 100.0),
                        AtMost(v, 250.0), AtMost(v, 500.0), AtMost(v, 1000.0), AtMost(v, 2500.0), AtMost(v, 5000.0)]
      ensures infinity == count == |Samples(reqs, key)|
    {
      hide After, Samples, AtMost;
      SeriesDescribesItsRequests(reqs, key);
      assert Holds(key, table[key]) && Describes(table[key], Samples(reqs, key));
      var counts := histograms[key].counts;
      count := histograms[key].count;
      var cumulative: nat := 0;
      lines := [];
      for i := 0 to INF
        invariant |lines| == i && cumulative == Sum(counts, i)
        invariant forall j :: 0 <= j < i ==> lines[j] == Sum(counts, j + 1)
      {
        cumulative := cumulative + counts[i];
        lines := lines + [cumulative];
      }
      infinity := cumulative + counts[INF];
      BoundByBound(lines, Samples(reqs, key));
    }

    /** The key to count a request under: its own, unless that would be one series too many. */
    method Series(verb: string, route: string) returns (key: string)
      requires Valid()
      ensures key == SeriesOf(table.Keys, verb, route)
    {
      var name := route;
      if name == "" {
        name := UNMATCHED_ROUTE;
      }
      key := verb + " " + name;
      if key !in histograms {
        assert table.Keys == histograms.Keys;
        if |histograms| >= MAX_SERIES {
          key := verb + " " + OVERFLOW_ROUTE;
        }
      }
    }
  }

  lemma BoundByBound(lines: seq<nat>, v: seq<real>)
    requires |lines| == INF && forall i :: 0 <= i < INF ==> lines[i] == AtMost(v, BUCKETS[i])
    ensures lines == [AtMost(v, 5.0), AtMost(v, 10.0), AtMost(v, 25.0), AtMost(v, 50.0), AtMost(v, 100.0),
                      AtMost(v, 250.0), AtMost(v, 500.0), AtMost(v, 1000.0), AtMost(v, 2500.0), AtMost(v, 5000.0)]
  {
    hide AtMost;
  }

  // ---------------------------------------------------------------------------------------------
  // What a series counts
  // ---------------------------------------------------------------------------------------------

  /** The table after these requests. */
  function After(reqs: seq<Request>): (t: Table)
    ensures WellFormed(t)
  {
    if reqs == [] then map[]
    else
      var init, last := reqs[..|reqs| - 1], reqs[|reqs| - 1];
      RecordedIn(After(init), last.verb, last.route, last.ms);
      Recorded(After(init), last.verb, last.route, last.ms)
  }

  /** The series that counts request i. */
  function CountedIn(reqs: seq<Request>, i: nat): string
    requires i < |reqs|
  {
    SeriesOf(After(reqs[..i]).Keys, reqs[i].verb, reqs[i].route)
  }

  /** The durations counted in a series. */
  function Samples(reqs: seq<Request>, key: string): seq<real> {
    if reqs == [] then []
    else
      var init := reqs[..|reqs| - 1];
      Samples(init, key) + (if CountedIn(reqs, |reqs| - 1) == key then [reqs[|reqs| - 1].ms] else [])
  }

  function AtMost(samples: seq<real>, bound: real): nat {
    if samples == [] then 0
    else AtMost(samples[..|samples| - 1], bound) + (if samples[|samples| - 1] <= bound then 1 else 0)
  }

  function Total(samples: seq<real>): real {
    if samples == [] then 0.0 else Total(samples[..|samples| - 1]) + samples[|samples| - 1]
  }

  /** The sum of the first n counts. */
  function Sum(counts: seq<nat>, n: nat): nat
    requires n <= |counts|
  {
    if n == 0 then 0 else Sum(counts, n - 1) + counts[n - 1]
  }

  ghost predicate Describes(h: Hist, samples: seq<real>)
    requires |h.counts| == INF + 1
  {
    && h.count == |samples| == Sum(h.counts, INF + 1)
    && h.sum == Total(samples)
    && forall i :: 0 <= i < INF ==> Sum(h.counts, i + 1) == AtMost(samples, BUCKETS[i])
  }

  lemma {:induction false} SumBumped(counts: seq<nat>, b: nat, n: nat)
    requires b < |counts| && n <= |counts|
    ensures Sum(counts[b := counts[b] + 1], n) == Sum(counts, n) + (if b < n then 1 else 0)
  {
    if n > 0 { SumBumped(counts, b, n - 1); }
  }

  lemma Increasing(i: nat, j: nat)
    requires i <= j < INF
    ensures BUCKETS[i] <= BUCKETS[j]
  {}

  lemma {:induction false} BucketFits(v: real, i: nat, j: nat)
    requires i <= INF && j < INF && forall k :: 0 <= k < i ==> v > BUCKETS[k]
    ensures BucketOf(v, i) <= j <==> v <= BUCKETS[j]
    decreases INF - i
  {
    if i < INF && v > BUCKETS[i] {
      BucketFits(v, i + 1, j);
    } else if i < INF && i <= j {
      Increasing(i, j);
    }
  }

  lemma {:induction false} SumZero(n: nat)
    requires n <= INF + 1
    ensures Sum(Empty().counts, n) == 0
  {
    if n > 0 {
      SumZero(n - 1);
      EmptyCounts(n - 1);
    }
  }

  lemma EmptyCounts(i: nat)
    requires i <= INF
    ensures Empty().counts[i] == 0
  {}

  lemma EmptyDescribes()
    ensures Describes(Empty(), [])
  {
    SumZero(INF + 1);
    forall i | 0 <= i < INF ensures Sum(Empty().counts, i + 1) == AtMost([], BUCKETS[i]) {
      SumZero(i + 1);
    }
  }

  lemma ObservedDescribes(h: Hist, samples: seq<real>, v: real)
    requires |h.counts| == INF + 1 && Describes(h, samples)
    ensures Describes(Observed(h, v), samples + [v])
  {
    hide Sum, BucketOf;
    var b := BucketOf(v, 0);
    assert (samples + [v])[..|samples|] == samples;
    SumBumped(h.counts, b, INF + 1);
    forall i | 0 <= i < INF ensures Sum(Observed(h, v).counts, i + 1) == AtMost(samples + [v], BUCKETS[i]) {
      SumBumped(h.counts, b, i + 1);
      BucketFits(v, 0, i);
    }
  }

  /** A series exists exactly when it counts some request, and describes exactly the requests it counts. */
  lemma {:induction false} SeriesDescribesItsRequests(reqs: seq<Request>, key: string)
    ensures key in After(reqs) <==> Samples(reqs, key) != []
    ensures key in After(reqs) ==> Describes(After(reqs)[key], Samples(reqs, key))
  {
    hide Describes, Observed, Empty, SeriesOf, Recorded;
    if reqs != [] {
      var init, last := reqs[..|reqs| - 1], reqs[|reqs| - 1];
      var t := After(init);
      RecordedIn(t, last.verb, last.route, last.ms);
      SeriesDescribesItsRequests(init, key);
      assert CountedIn(reqs, |reqs| - 1) == SeriesOf(t.Keys, last.verb, last.route);
      assert Samples(init, key) + [] == Samples(init, key);
      if SeriesOf(t.Keys, last.verb, last.route) == key {
        EmptyDescribes();
        var h := if key in t then t[key] else Empty();
        assert Describes(h, Samples(init, key));
        ObservedDescribes(h, Samples(init, key), last.ms);
        assert After(reqs)[key] == Observed(h, last.ms);
      }
    }
  }

  // ---------------------------------------------------------------------------------------------
  // Conservation and the cap
  // ---------------------------------------------------------------------------------------------

  /** The counts of every series in this set of keys. */
  ghost function Counted(t: Table, keys: set<string>): nat
    requires keys <= t.Keys && WellFormed(t)
    decreases |keys|
  {
    if keys == {} then 0
    else var k :| k in keys; Sum(t[k].counts, INF + 1) + Counted(t, keys - {k})
  }

  lemma {:induction false} CountedWithout(t: Table, keys: set<string>, k: string)
    requires keys <= t.Keys && WellFormed(t) && k in keys
    ensures Counted(t, keys) == Sum(t[k].counts, INF + 1) + Counted(t, keys - {k})
    decreases |keys|
  {
    hide Sum;
    var j :| j in keys && Counted(t, keys) == Sum(t[j].counts, INF + 1) + Counted(t, keys - {j});
    if j != k {
      CountedWithout(t, keys - {j}, k);
      CountedWithout(t, keys - {k}, j);
      assert keys - {j} - {k} == keys - {k} - {j};
    }
  }

  lemma {:induction false} CountedSame(t: Table, u: Table, keys: set<string>)
    requires keys <= t.Keys && keys <= u.Keys && WellFormed(t) && WellFormed(u)
    requires forall k :: k in keys ==> t[k] == u[k]
    ensures Counted(t, keys) == Counted(u, keys)
    decreases |keys|
  {
    hide Sum, WellFormed;
    if keys != {} {
      var k :| k in keys;
      CountedSame(t, u, keys - {k});
      CountedWithout(t, keys, k);
      CountedWithout(u, keys, k);
    }
  }

  /** No request is lost or counted twice, however the series collapse. */
  lemma {:induction false} CountsSumToRequests(reqs: seq<Request>)
    ensures Counted(After(reqs), After(reqs).Keys) == |reqs|
  {
    if reqs != [] {
      var init, last := reqs[..|reqs| - 1], reqs[|reqs| - 1];
      CountsSumToRequests(init);
      RecordedCounts(After(init), last.verb, last.route, last.ms);
    }
  }

  lemma RecordedCounts(t: Table, verb: string, route: string, ms: real)
    requires WellFormed(t)
    ensures var r := Recorded(t, verb, route, ms);
            WellFormed(r) && Counted(r, r.Keys) == Counted(t, t.Keys) + 1
  {
    hide Observed, Empty, Sum, SeriesOf, Recorded, WellFormed;
    RecordedIn(t, verb, route, ms);
    var key, r := SeriesOf(t.Keys, verb, route), Recorded(t, verb, route, ms);
    var others := t.Keys - {key};
    assert r.Keys == others + {key} && r.Keys - {key} == others;
    CountedWithout(r, r.Keys, key);
    CountedSame(t, r, others);
    if key in t {
      CountedWithout(t, t.Keys, key);
      ObservedCounts(t, key, ms);
    } else {
      assert others == t.Keys;
      SumZero(INF + 1);
      ObservedAdds(Empty(), ms);
    }
  }

  lemma ObservedCounts(t: Table, key: string, ms: real)
    requires WellFormed(t) && key in t
    ensures |t[key].counts| == INF + 1
    ensures Sum(Observed(t[key], ms).counts, INF + 1) == Sum(t[key].counts, INF + 1) + 1
  {
    ObservedAdds(t[key], ms);
  }

  lemma ObservedAdds(h: Hist, v: real)
    requires |h.counts| == INF + 1
    ensures Sum(Observed(h, v).counts, INF + 1) == Sum(h.counts, INF + 1) + 1
  {
    hide Sum, BucketOf;
    SumBumped(h.counts, BucketOf(v, 0), INF + 1);
  }

  function Verbs(reqs: seq<Request>): set<string> {
    set i | 0 <= i < |reqs| :: reqs[i].verb
  }

  function OverflowKeys(verbs: set<string>): set<string> {
    set v | v in verbs :: Key(v, OVERFLOW_ROUTE)
  }

  lemma {:induction false} OverflowKeysFew(verbs: set<string>)
    ensures |OverflowKeys(verbs)| <= |verbs|
    decreases |verbs|
  {
    if verbs != {} {
      var v :| v in verbs;
      OverflowKeysFew(verbs - {v});
      assert OverflowKeys(verbs) == OverflowKeys(verbs - {v}) + {Key(v, OVERFLOW_ROUTE)};
    }
  }

  lemma {:induction false} OrdinaryKeysCapped(reqs: seq<Request>)
    ensures |After(reqs).Keys - OverflowKeys(Verbs(reqs))| <= MAX_SERIES
  {
    if reqs != [] {
      var init, last := reqs[..|reqs| - 1], reqs[|reqs| - 1];
      OrdinaryKeysCapped(init);
      assert Verbs(reqs) == Verbs(init) + {last.verb};
      OneMoreKey(After(init), last, Verbs(init));
    }
  }

  lemma OneMoreKey(t: Table, q: Request, verbs: set<string>)
    requires WellFormed(t) && |t.Keys - OverflowKeys(verbs)| <= MAX_SERIES
    ensures |Recorded(t, q.verb, q.route, q.ms).Keys - OverflowKeys(verbs + {q.verb})| <= MAX_SERIES
  {
    hide Key, Recorded, WellFormed;
    RecordedIn(t, q.verb, q.route, q.ms);
    var key, r := SeriesOf(t.Keys, q.verb, q.route), Recorded(t, q.verb, q.route, q.ms);
    var before, now := t.Keys - OverflowKeys(verbs), r.Keys - OverflowKeys(verbs + {q.verb});
    assert OverflowKeys(verbs) <= OverflowKeys(verbs + {q.verb});
    if key in t.Keys || key in OverflowKeys(verbs + {q.verb}) {
      assert now <= before;
      SubsetSize(now, before);
    } else {
      assert now <= t.Keys + {key};
      SubsetSize(now, t.Keys + {key});
    }
  }

  /** The series stay within the cap but for one overflow series for each method. */
  lemma SeriesCapped(reqs: seq<Request>)
    ensures |After(reqs)| <= MAX_SERIES + |Verbs(reqs)|
  {
    OrdinaryKeysCapped(reqs);
    OverflowKeysFew(Verbs(reqs));
    var keys, over := After(reqs).Keys, OverflowKeys(Verbs(reqs));
    SubsetSize(keys, (keys - over) + over);
  }

  // ---------------------------------------------------------------------------------------------
  // Labels
  // ---------------------------------------------------------------------------------------------

  predicate Special(c: char) { c == '\\' || c == '"' || c == '\n' }

  function Escaped(c: char): string {
    if c == '\n' then "\\n" else if Special(c) then ['\\', c] else [c]
  }

  function Escape(s: string): string {
    if s == "" then "" else Escaped(s[0]) + Escape(s[1..])
  }

  lemma {:induction false} EscapeAppend(s: string, t: string)
    ensures Escape(s + t) == Escape(s) + Escape(t)
  {
    hide Escaped;
    if s == "" {
      assert s + t == t && Escape(s) + Escape(t) == Escape(t);
    } else {
      EscapeAppend(s[1..], t);
      assert (s + t)[0] == s[0] && (s + t)[1..] == s[1..] + t;
      Associate(Escaped(s[0]), Escape(s[1..]), Escape(t));
    }
  }

  lemma {:induction false} EscapePlain(s: string)
    requires forall i :: 0 <= i < |s| ==> !Special(s[i])
    ensures Escape(s) == s
  {
    if s != "" { EscapePlain(s[1..]); }
  }

  method EscapeLabelValue(s: string) returns (r: string)
    ensures r == Escape(s)
  {
    if !exists i :: 0 <= i < |s| && Special(s[i]) {
      EscapePlain(s);
      return s;
    }
    r := "";
    for i := 0 to |s|
      invariant r == Escape(s[..i])
    {
      EscapeAppend(s[..i], [s[i]]);
      assert s[..i + 1] == s[..i] + [s[i]];
      match s[i]
      case '\\' => r := r + "\\\\";
      case '"' => r := r + "\\\"";
      case '\n' => r := r + "\\n";
      case _ => r := r + [s[i]];
    }
    assert s[..|s|] == s;
  }

  /** A label value read from the text format up to its closing quote, and what follows. */
  function ReadLabel(text: string): Option<(string, string)> {
    if text == "" || text[0] == '\n' then None
    else if text[0] == '"' then Some(("", text[1..]))
    else if text[0] == '\\' then
      if |text| == 1 || text[1] !in "\\\"n" then None
      else Prepend(if text[1] == 'n' then '\n' else text[1], ReadLabel(text[2..]))
    else Prepend(text[0], ReadLabel(text[1..]))
  }

  function Prepend(c: char, r: Option<(string, string)>): Option<(string, string)> {
    if r.None? then None else Some(([c] + r.value.0, r.value.1))
  }

  lemma ReadsEscaped(c: char, text: string)
    ensures ReadLabel(Escaped(c) + text) == Prepend(c, ReadLabel(text))
  {
    assert (Escaped(c) + text)[|Escaped(c)|..] == text;
  }

  /** Whatever the value, a reader of the line gets it back and stops at its closing quote. */
  lemma {:induction false} LabelReadsBack(s: string, rest: string)
    ensures ReadLabel(Escape(s) + "\"" + rest) == Some((s, rest))
  {
    if s == "" {
      assert Escape(s) + "\"" + rest == "\"" + rest;
      assert ("\"" + rest)[1..] == rest;
    } else {
      hide Escaped, ReadLabel;
      LabelReadsBack(s[1..], rest);
      ReadsEscaped(s[0], Escape(s[1..]) + "\"" + rest);
      Associate(Escaped(s[0]), Escape(s[1..]), "\"");
      Associate(Escaped(s[0]), Escape(s[1..]) + "\"", rest);
      assert s == [s[0]] + s[1..];
    }
  }

  /** What stands before and after the first space. */
  function CutAtSpace(s: string): (string, string) {
    if s == "" then ("", "")
    else if s[0] == ' ' then ("", s[1..])
    else ([s[0]] + CutAtSpace(s[1..]).0, CutAtSpace(s[1..]).1)
  }

  lemma {:induction false} CutAtSpaceIs(a: string, b: string)
    requires ' ' !in a
    ensures CutAtSpace(a + " " + b) == (a, b)
  {
    if a != "" {
      CutAtSpaceIs(a[1..], b);
      assert (a + " " + b)[1..] == a[1..] + " " + b;
      assert a == [a[0]] + a[1..];
    }
  }

  lemma {:induction false} CutHasNoSpace(s: string)
    ensures ' ' !in CutAtSpace(s).0
  {
    if s != "" { CutHasNoSpace(s[1..]); }
  }

  /** The labels of a series are the method and route of its requests exactly when the method has no space. */
  lemma KeySplitsExactly(verb: string, route: string)
    ensures CutAtSpace(Key(verb, route)) == (verb, if route == "" then UNMATCHED_ROUTE else route) <==> ' ' !in verb
  {
    CutHasNoSpace(Key(verb, route));
    if ' ' !in verb {
      CutAtSpaceIs(verb, if route == "" then UNMATCHED_ROUTE else route);
    }
  }

  /** The labels at the head of every line of a series. */
  function Labels(key: string): string {
    "{method=\"" + Escape(CutAtSpace(key).0) + "\",route=\"" + Escape(CutAtSpace(key).1) + "\""
  }

  /** The text is t and what is returned. */
  function Behind(t: string, text: string): Option<string> {
    if t <= text then Some(text[|t|..]) else None
  }

  function ReadLabels(line: string): Option<(string, string, string)> {
    match Behind("{method=\"", line)
    case None => None
    case Some(first) =>
      match ReadLabel(first)
      case None => None
      case Some((verb, more)) =>
        match Behind(",route=\"", more)
        case None => None
        case Some(second) =>
          match ReadLabel(second)
          case None => None
          case Some((route, rest)) => Some((verb, route, rest))
  }

  /** No method or route can corrupt a line: both read back, and so does the rest of the line. */
  lemma LabelsReadBack(verb: string, route: string, rest: string)
    requires ' ' !in verb
    ensures ReadLabels(Labels(Key(verb, route)) + rest)
         == Some((verb, if route == "" then "unmatched" else route, rest))
  {
    hide ReadLabel, Escape, CutAtSpace;
    KeySplitsExactly(verb, route);
    var shown := if route == "" then UNMATCHED_ROUTE else route;
    var last := Escape(shown) + "\"" + rest;
    LabelReadsBack(verb, ",route=\"" + last);
    LabelReadsBack(shown, rest);
    var line := Labels(Key(verb, route)) + rest;
    assert line == "{method=\"" + (Escape(verb) + "\"" + (",route=\"" + last));
    BehindIs("{method=\"", Escape(verb) + "\"" + (",route=\"" + last));
    BehindIs(",route=\"", last);
  }

  lemma BehindIs(t: string, text: string)
    ensures Behind(t, t + text) == Some(text)
  {}

  // ---------------------------------------------------------------------------------------------
  // What is counted where, in numbers and names
  // ---------------------------------------------------------------------------------------------

  /** The series that count some of the first n requests. */
  ghost function Used(reqs: seq<Request>, n: nat): set<string>
    requires n <= |reqs|
  {
    if n == 0 then {} else Used(reqs, n - 1) + {CountedIn(reqs, n - 1)}
  }

  lemma {:induction false} UsedAre(reqs: seq<Request>, n: nat)
    requires n <= |reqs|
    ensures After(reqs[..n]).Keys == Used(reqs, n)
  {
    if n > 0 {
      hide After, CountedIn;
      UsedAre(reqs, n - 1);
      KeysNext(reqs, n - 1);
    }
  }

  lemma KeysNext(reqs: seq<Request>, n: nat)
    requires n < |reqs|
    ensures After(reqs[..n + 1]).Keys == After(reqs[..n]).Keys + {CountedIn(reqs, n)}
  {
    hide Recorded, SeriesOf;
    var q := reqs[n];
    assert reqs[..n + 1][..n] == reqs[..n] && reqs[..n + 1][n] == q;
    RecordedIn(After(reqs[..n]), q.verb, q.route, q.ms);
  }

  /**
   A request is counted under its method and route if earlier ones were, or as long as fewer than 512
   series are in use; otherwise under its method and "__overflow__". No route is "unmatched".
   */
  lemma CountedExactly(reqs: seq<Request>, i: nat)
    requires i < |reqs|
    ensures var q := reqs[i];
            var own := q.verb + " " + (if q.route == "" then "unmatched" else q.route);
            CountedIn(reqs, i) ==
              if own in Used(reqs, i) || |Used(reqs, i)| < 512 then own else q.verb + " " + "__overflow__"
  {
    UsedAre(reqs, i);
    hide Used, After;
  }

  /** The positions of the samples up to a bound. */
  ghost function Low(samples: seq<real>, bound: real): set<int> {
    set i | 0 <= i < |samples| && samples[i] <= bound
  }

  /** The number of samples up to a bound is the number of their positions. */
  lemma {:induction false} AtMostCounts(samples: seq<real>, bound: real)
    ensures AtMost(samples, bound) == |Low(samples, bound)|
  {
    if samples != [] {
      var n := |samples| - 1;
      AtMostCounts(samples[..n], bound);
      assert Low(samples, bound) == Low(samples[..n], bound) + if samples[n] <= bound then {n} else {};
    } else {
      assert Low(samples, bound) == {};
    }
  }

  /** Durations are added in whole microseconds, what is left over dropped whatever the sign. */
  lemma TruncatedDrops(x: real, n: int)
    ensures Truncated(x) == n <==>
            if x >= 1.0 then n as real <= x < n as real + 1.0
            else if x <= -1.0 then n as real - 1.0 < x <= n as real
            else n == 0
  {
    if x < 0.0 { assert (-x).Floor as real <= -x < (-x).Floor as real + 1.0; }
  }
}
