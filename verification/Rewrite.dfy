/**
 The bounded rewrite loop (internal/router/rewrite.go): the first targeted route that matches the
 current path rewrites it, until no route matches, a redirect is reached or the bound is used up.

 Regular expressions and the substitution of $n are parameters: `find` gives the captures of a
 pattern in a path (none when the pattern is invalid), `fill` the target with its captures filled in.
 */
module Rewrite {
  import opened Common

  datatype Route = Route(path: string, pathPrefix: string, regex: string, target: string, status: int) {
    predicate IsRedirect() { 300 <= status < 400 }
  }

  datatype Engine = Engine(routes: seq<Route>,
                           find: (string, string) -> Option<seq<string>>,
                           fill: (string, seq<string>, string) -> string)

  datatype RewriteResult = RewriteResult(path: string, rawQuery: string, redirectCode: int,
                                         isTerminal: bool, iterations: int)

  // ---------------------------------------------------------------------------------------------
  // One rewrite
  // ---------------------------------------------------------------------------------------------

  /** The captures with which a route matches. */
  function Match(e: Engine, r: Route, path: string): Option<seq<string>> {
    if r.regex != "" then e.find(r.regex, path)
    else if r.pathPrefix != "" then (if r.pathPrefix <= path then Some([]) else None)
    else if r.path != "" then (if path == r.path then Some([]) else None)
    else Some([])
  }

  predicate Takes(e: Engine, r: Route, path: string) {
    r.target != "" && Match(e, r, path).Some?
  }

  function Cut(s: string): (r: (string, string))
    ensures '?' !in r.0
    ensures s == (if '?' in s then r.0 + "?" + r.1 else r.0)
    ensures '?' !in s ==> r.1 == ""
  {
    if s == "" then ("", "")
    else if s[0] == '?' then ("", s[1..])
    else var (path, query) := Cut(s[1..]); ([s[0]] + path, query)
  }

  function Target(e: Engine, r: Route, path: string): (string, string)
    requires Takes(e, r, path)
  {
    Cut(e.fill(r.target, Match(e, r, path).value, path))
  }

  function Joined(added: string, query: string): string {
    if added == "" then query else if query == "" then added else added + "&" + query
  }

  /** The first route from position i on that takes the path. */
  function Taker(e: Engine, path: string, i: nat): Option<Route>
    requires i <= |e.routes|
    decreases |e.routes| - i
  {
    if i == |e.routes| then None
    else if Takes(e, e.routes[i], path) then Some(e.routes[i])
    else Taker(e, path, i + 1)
  }

  datatype Step = Stay | Go(path: string, added: string) | Redirect(path: string, added: string, status: int)

  /** What a path does next; the query plays no part. */
  function Next(e: Engine, path: string): Step {
    var r := Taker(e, path, 0);
    if r.None? then Stay
    else
      TakerTakes(e, path, 0);
      var (next, added) := Target(e, r.value, path);
      if r.value.IsRedirect() then Redirect(next, added, r.value.status) else Go(next, added)
  }

  lemma {:induction false} TakerTakes(e: Engine, path: string, i: nat)
    requires i <= |e.routes|
    ensures Taker(e, path, i).Some? ==> Taker(e, path, i).value in e.routes && Takes(e, Taker(e, path, i).value, path)
    ensures Taker(e, path, i).None? <==> forall j :: i <= j < |e.routes| ==> !Takes(e, e.routes[j], path)
    decreases |e.routes| - i
  {
    hide Takes;
    if i < |e.routes| {
      TakerTakes(e, path, i + 1);
    }
  }

  lemma StayTaken(e: Engine, path: string)
    ensures Next(e, path).Stay? <==> Taker(e, path, 0).None?
  {
    hide Takes;
  }

  lemma TakenNext(e: Engine, path: string, j: nat)
    requires j < |e.routes| && Takes(e, e.routes[j], path) && Taker(e, path, 0) == Taker(e, path, j)
    ensures var (next, added) := Target(e, e.routes[j], path);
            Next(e, path) ==
              if e.routes[j].IsRedirect() then Redirect(next, added, e.routes[j].status) else Go(next, added)
  {
    hide Takes;
  }

  // ---------------------------------------------------------------------------------------------
  // The loop
  // ---------------------------------------------------------------------------------------------

  /** The loop with `left` iterations to go; the flag is false when the bound is used up. */
  function Loop(e: Engine, path: string, query: string, done: nat, left: nat): (RewriteResult, bool)
    decreases left
  {
    if left == 0 then (RewriteResult(path, query, 0, false, done), false)
    else match Next(e, path)
      case Stay => (RewriteResult(path, query, 0, false, done + 1), true)
      case Redirect(next, added, status) =>
        (RewriteResult(next, Joined(added, query), status, true, done + 1), true)
      case Go(next, added) => Loop(e, next, Joined(added, query), done + 1, left - 1)
  }

  lemma LoopStep(e: Engine, path: string, query: string, done: nat, left: nat)
    ensures left == 0 ==> Loop(e, path, query, done, left) == (RewriteResult(path, query, 0, false, done), false)
    ensures left > 0 ==> Loop(e, path, query, done, left) == match Next(e, path)
              case Stay => (RewriteResult(path, query, 0, false, done + 1), true)
              case Redirect(next, added, status) =>
                (RewriteResult(next, Joined(added, query), status, true, done + 1), true)
              case Go(next, added) => Loop(e, next, Joined(added, query), done + 1, left - 1)
  {
    hide Next, Joined;
  }

  /** Whether a route matches, and with which captures. */
  method Matches(e: Engine, route: Route, currentPath: string) returns (captures: Option<seq<string>>)
    ensures captures == Match(e, route, currentPath)
  {
    captures := Some([]);
    if route.regex != "" {
      captures := e.find(route.regex, currentPath);
    } else if route.pathPrefix != "" {
      if !(route.pathPrefix <= currentPath) {
        captures := None;
      }
    } else if route.path != "" {
      if currentPath != route.path {
        captures := None;
      }
    }
  }

  method RewriteLoop(e: Engine, initialPath: string, initialQuery: string, maxIterations: int)
    returns (res: RewriteResult, ok: bool)
    ensures (res, ok) == Loop(e, initialPath, initialQuery, 0, if maxIterations <= 0 then 10 else maxIterations)
  {
    hide Loop, Next, Match, Cut;
    var bound := maxIterations;
    if bound <= 0 {
      bound := 10;
    }
    var currentPath, currentQuery := initialPath, initialQuery;
    res := RewriteResult(currentPath, currentQuery, 0, false, 0);

    for i := 0 to bound
      invariant res == RewriteResult(currentPath, currentQuery, 0, false, i)
      invariant Loop(e, initialPath, initialQuery, 0, bound) == Loop(e, currentPath, currentQuery, i, bound - i)
    {
      res := res.(iterations := i + 1);
      var matched := false;
      ghost var path, query := currentPath, currentQuery;
      LoopStep(e, path, query, i, bound - i);
      for j := 0 to |e.routes|
        invariant !matched && currentPath == path && currentQuery == query
        invariant res == RewriteResult(path, query, 0, false, i + 1)
        invariant Taker(e, path, 0) == Taker(e, path, j)
      {
        var route := e.routes[j];
        if route.target == "" {
          continue;
        }
        var captures := Matches(e, route, currentPath);
        if captures.None? {
          continue;
        }
        TakenNext(e, path, j);
        var (nextPath, nextQuery) := Cut(e.fill(route.target, captures.value, currentPath));
        if nextQuery != "" {
          if currentQuery != "" {
            currentQuery := nextQuery + "&" + currentQuery;
          } else {
            currentQuery := nextQuery;
          }
        }
        matched := true;
        if nextPath != currentPath {
          currentPath := nextPath;
        }
        res := res.(path := currentPath, rawQuery := currentQuery);
        if route.IsRedirect() {
          res := res.(redirectCode := route.status, isTerminal := true);
          return res, true;
        }
        break;
      }
      if !matched {
        StayTaken(e, path);
        return res, true;
      }
    }
    LoopStep(e, currentPath, currentQuery, bound, 0);
    return res, false;
  }

  // ---------------------------------------------------------------------------------------------
  // What the loop computes
  // ---------------------------------------------------------------------------------------------

  /** The path after k rewrites, none of them a redirect, if there are that many. */
  function After(e: Engine, path: string, k: nat): Option<string> {
    if k == 0 then Some(path)
    else
      var before := After(e, path, k - 1);
      if before.Some? && Next(e, before.value).Go? then Some(Next(e, before.value).path) else None
  }

  /** The query after k rewrites. */
  function Gathered(e: Engine, path: string, query: string, k: nat): string
    requires After(e, path, k).Some?
  {
    if k == 0 then query
    else Joined(Next(e, After(e, path, k - 1).value).added, Gathered(e, path, query, k - 1))
  }

  /** The loop after k of its iterations have rewritten. */
  lemma {:induction false} LoopAfter(e: Engine, path: string, query: string, n: nat, k: nat)
    requires k <= n && After(e, path, k).Some?
    ensures Loop(e, path, query, 0, n) == Loop(e, After(e, path, k).value, Gathered(e, path, query, k), k, n - k)
  {
    hide Next, Joined;
    if k > 0 {
      LoopAfter(e, path, query, n, k - 1);
    }
  }

  lemma {:induction false} AfterEarlier(e: Engine, path: string, k: nat, n: nat)
    requires k <= n && After(e, path, n).Some?
    ensures After(e, path, k).Some?
  {
    hide Next;
    if k < n {
      AfterEarlier(e, path, k, n - 1);
    }
  }

  /** The number of rewrites there are, up to n. */
  ghost function Rewrites(e: Engine, path: string, n: nat): (k: nat)
    ensures k <= n && After(e, path, k).Some?
    ensures k < n ==> After(e, path, k + 1).None?
  {
    if n == 0 then 0
    else
      var k := Rewrites(e, path, n - 1);
      if k < n - 1 then k else if After(e, path, n).Some? then n else n - 1
  }

  /**
   The loop uses its bound up exactly when there are that many rewrites, and then as many happened.
   Otherwise it ends where the rewrites end, with one more iteration that rewrote nothing or redirected.
   */
  lemma OutcomeExactly(e: Engine, path: string, query: string, n: nat)
    ensures var (res, ok) := Loop(e, path, query, 0, n);
            if After(e, path, n).Some? then
              !ok && res == RewriteResult(After(e, path, n).value, Gathered(e, path, query, n), 0, false, n)
            else
              var k := Rewrites(e, path, n);
              var end, gathered := After(e, path, k).value, Gathered(e, path, query, k);
              && ok && res.iterations == k + 1 <= n && res.isTerminal == Next(e, end).Redirect?
              && match Next(e, end)
                 case Stay => res.path == end && res.rawQuery == gathered && res.redirectCode == 0
                 case Redirect(next, added, status) =>
                   res.path == next && res.rawQuery == Joined(added, gathered) && res.redirectCode == status
                 case Go(_, _) => false
  {
    hide Next, Joined, Gathered;
    if After(e, path, n).Some? {
      LoopAfter(e, path, query, n, n);
    } else {
      var k := Rewrites(e, path, n);
      assert k < n;
      LoopAfter(e, path, query, n, k);
    }
  }

  /** A success that is not a redirect leaves a path that no route with a target matches. */
  lemma SuccessIsFinal(e: Engine, path: string, query: string, n: nat)
    ensures var (res, ok) := Loop(e, path, query, 0, n);
            ok && !res.isTerminal ==> forall r :: r in e.routes && r.target != "" ==> Match(e, r, res.path).None?
  {
    OutcomeExactly(e, path, query, n);
    if After(e, path, n).None? {
      StayTakesNone(e, After(e, path, Rewrites(e, path, n)).value);
    }
  }

  lemma StayTakesNone(e: Engine, path: string)
    ensures Next(e, path).Stay? <==> forall r :: r in e.routes && r.target != "" ==> Match(e, r, path).None?
  {
    hide Match, Target, Route.IsRedirect;
    TakerTakes(e, path, 0);
    if Next(e, path).Stay? {
      forall r | r in e.routes && r.target != "" ensures Match(e, r, path).None? {
        var j :| 0 <= j < |e.routes| && e.routes[j] == r;
        assert !Takes(e, e.routes[j], path);
      }
    }
  }

  /** With more iterations a success is the same success. */
  lemma {:induction false} FuelMonotone(e: Engine, path: string, query: string, done: nat, n: nat, m: nat)
    requires n <= m && Loop(e, path, query, done, n).1
    ensures Loop(e, path, query, done, m) == Loop(e, path, query, done, n)
    decreases n
  {
    hide Next, Joined;
    if Next(e, path).Go? {
      FuelMonotone(e, Next(e, path).path, Joined(Next(e, path).added, query), done + 1, n - 1, m - 1);
    }
  }

  // ---------------------------------------------------------------------------------------------
  // The query
  // ---------------------------------------------------------------------------------------------

  ghost predicate EndsWith(s: string, t: string) {
    |t| <= |s| && s[|s| - |t|..] == t
  }

  /** A query that was not empty is kept whole behind what was added. */
  ghost predicate Keeps(s: string, query: string) {
    s == query || query == "" || EndsWith(s, "&" + query)
  }

  lemma JoinedKeeps(added: string, s: string, query: string)
    requires Keeps(s, query)
    ensures Keeps(Joined(added, s), query)
  {
    if added != "" && query != "" {
      if s == query {
        assert Joined(added, s) == added + ("&" + query);
      } else {
        var t := "&" + query;
        assert s == s[..|s| - |t|] + t;
        assert Joined(added, s) == (added + "&" + s[..|s| - |t|]) + t;
      }
    }
  }

  /** Whatever the outcome, the initial query is a suffix of the final one. */
  lemma {:induction false} QueryKept(e: Engine, path: string, query: string, now: string, done: nat, left: nat)
    requires Keeps(now, query)
    ensures Keeps(Loop(e, path, now, done, left).0.rawQuery, query)
    ensures EndsWith(Loop(e, path, now, done, left).0.rawQuery, query)
    decreases left
  {
    hide Next, Joined;
    if left > 0 {
      var step := Next(e, path);
      if step.Go? {
        JoinedKeeps(step.added, now, query);
        QueryKept(e, step.path, query, Joined(step.added, now), done + 1, left - 1);
      } else if step.Redirect? {
        JoinedKeeps(step.added, now, query);
        KeepsEnds(Joined(step.added, now), query);
      } else {
        KeepsEnds(now, query);
      }
    } else {
      KeepsEnds(now, query);
    }
  }

  lemma KeepsEnds(s: string, query: string)
    requires Keeps(s, query)
    ensures EndsWith(s, query)
  {
    if s != query && query != "" {
      var t := "&" + query;
      assert s[|s| - |query|..] == s[|s| - |t|..][1..];
    }
  }

  // ---------------------------------------------------------------------------------------------
  // Loops among the routes
  // ---------------------------------------------------------------------------------------------

  lemma {:induction false} AfterShift(e: Engine, path: string, i: nat, j: nat, k: nat)
    requires After(e, path, i) == After(e, path, j)
    ensures After(e, path, i + k) == After(e, path, j + k)
  {
    hide Next;
    if k > 0 {
      AfterShift(e, path, i, j, k - 1);
    }
  }

  lemma {:induction false} CycleGoesOn(e: Engine, path: string, i: nat, j: nat, n: nat)
    requires i < j && After(e, path, i).Some? && After(e, path, i) == After(e, path, j)
    ensures After(e, path, n).Some?
    decreases n
  {
    hide After;
    if n <= j {
      AfterEarlier(e, path, n, j);
    } else {
      CycleGoesOn(e, path, i, j, n - (j - i));
      AfterShift(e, path, i, j, n - j);
    }
  }

  /** A path that comes back to itself, even by a single rewrite that changes nothing, fails for every bound. */
  lemma RepeatedPathFails(e: Engine, path: string, query: string, i: nat, j: nat, n: nat)
    requires i < j && After(e, path, i).Some? && After(e, path, i) == After(e, path, j)
    ensures !Loop(e, path, query, 0, n).1
  {
    hide *;
    CycleGoesOn(e, path, i, j, n);
    OutcomeExactly(e, path, query, n);
  }

  /** Rewrites stay among these paths. */
  ghost predicate Closed(e: Engine, paths: set<string>) {
    forall p :: p in paths && Next(e, p).Go? ==> Next(e, p).path in paths
  }

  lemma {:induction false} StaysIn(e: Engine, path: string, paths: set<string>, n: nat) returns (walk: seq<string>)
    requires path in paths && Closed(e, paths) && After(e, path, n).Some?
    ensures |walk| == n + 1
    ensures forall i: nat :: i <= n ==> walk[i] in paths && After(e, path, i) == Some(walk[i])
  {
    hide Next;
    if n == 0 {
      walk := [path];
    } else {
      walk := StaysIn(e, path, paths, n - 1);
      walk := walk + [After(e, path, n).value];
    }
  }

  lemma {:induction false} Pigeonhole(s: seq<string>, paths: set<string>) returns (i: nat, j: nat)
    requires |s| > |paths| && forall k :: 0 <= k < |s| ==> s[k] in paths
    ensures i < j < |s| && s[i] == s[j]
    decreases |s|
  {
    var init, last := s[..|s| - 1], s[|s| - 1];
    if last in init {
      i, j :| 0 <= i < |init| && init[i] == last && j == |s| - 1;
    } else {
      i, j := Pigeonhole(init, paths - {last});
    }
  }

  /** When rewrites stay among n paths, a bound of n decides: using it up means no bound would do. */
  lemma BoundDecides(e: Engine, path: string, query: string, paths: set<string>, n: nat)
    requires path in paths && Closed(e, paths) && |paths| <= n
    ensures Loop(e, path, query, 0, n).1 <==> exists m: nat :: Loop(e, path, query, 0, m).1
  {
    hide Next, Loop, Closed, Gathered, Joined, After;
    if !Loop(e, path, query, 0, n).1 {
      OutcomeExactly(e, path, query, n);
      var walk := StaysIn(e, path, paths, n);
      var i, j := Pigeonhole(walk, paths);
      assert After(e, path, i) == Some(walk[i]) && After(e, path, j) == Some(walk[j]);
      forall m: nat ensures !Loop(e, path, query, 0, m).1 {
        RepeatedPathFails(e, path, query, i, j, m);
      }
    }
  }

  function TargetPaths(routes: seq<Route>): (paths: set<string>)
    ensures |paths| <= |routes|
    ensures forall r :: r in routes ==> Cut(r.target).0 in paths
  {
    if routes == [] then {} else TargetPaths(routes[1..]) + {Cut(routes[0].target).0}
  }

  /** With literal targets, more iterations than there are routes are never of use. */
  lemma LiteralTargetsNeedFewRewrites(e: Engine, path: string, query: string, n: nat)
    requires forall r, captures, p :: r in e.routes ==> e.fill(r.target, captures, p) == r.target
    requires n > |e.routes|
    ensures Loop(e, path, query, 0, n).1 <==> exists m: nat :: Loop(e, path, query, 0, m).1
  {
    hide Loop, Cut, TargetPaths;
    var paths := TargetPaths(e.routes) + {path};
    forall p | p in paths && Next(e, p).Go? ensures Next(e, p).path in paths {
      TakerTakes(e, p, 0);
      var r := Taker(e, p, 0).value;
      assert Cut(r.target).0 in TargetPaths(e.routes);
    }
    BoundDecides(e, path, query, paths, n);
  }

  // ---------------------------------------------------------------------------------------------
  // What a route does to a request
  // ---------------------------------------------------------------------------------------------

  /** The route has a target, and its expression, else its prefix, else its path, fits; without any it always does. */
  predicate Fits(e: Engine, r: Route, path: string) {
    && r.target != ""
    && (if r.regex != "" then e.find(r.regex, path).Some?
        else if r.pathPrefix != "" then |r.pathPrefix| <= |path| && path[..|r.pathPrefix|] == r.pathPrefix
        else r.path == "" || r.path == path)
  }

  /** Route i is the first that fits, and its target comes to a path and the query behind its question mark. */
  ghost predicate Leads(e: Engine, path: string, i: nat, next: string, added: string) {
    && i < |e.routes| && Fits(e, e.routes[i], path) && (forall j :: 0 <= j < i ==> !Fits(e, e.routes[j], path))
    && var r := e.routes[i];
       var target := e.fill(r.target, if r.regex != "" then e.find(r.regex, path).value else [], path);
       '?' !in next && (target == next + "?" + added || (target == next && added == ""))
  }

  lemma FitsTakes(e: Engine, r: Route, path: string)
    ensures Fits(e, r, path) <==> Takes(e, r, path)
  {}

  lemma {:induction false} FirstFits(e: Engine, path: string, i: nat, from: nat)
    requires from <= i < |e.routes| && Takes(e, e.routes[i], path)
    requires forall j :: from <= j < i ==> !Takes(e, e.routes[j], path)
    ensures Taker(e, path, from) == Some(e.routes[i])
    decreases i - from
  {
    hide Takes;
    if from < i { FirstFits(e, path, i, from + 1); }
  }

  lemma {:induction false} CutAt(next: string, added: string)
    requires '?' !in next
    ensures Cut(next + "?" + added) == (next, added) && Cut(next) == (next, "")
  {
    if next != "" {
      CutAt(next[1..], added);
      assert (next + "?" + added)[1..] == next[1..] + "?" + added && [next[0]] + next[1..] == next;
    }
  }

  /** When any route fits there is such a route, path and query. */
  lemma SomeRouteLeads(e: Engine, path: string, j: nat) returns (i: nat, next: string, added: string)
    requires j < |e.routes| && Fits(e, e.routes[j], path)
    ensures i <= j && Leads(e, path, i, next, added)
  {
    hide Fits;
    i := 0;
    while !Fits(e, e.routes[i], path)
      invariant i <= j && forall k :: 0 <= k < i ==> !Fits(e, e.routes[k], path)
      decreases j - i
    {
      i := i + 1;
    }
    FitsFinds(e, e.routes[i], path);
    var r := e.routes[i];
    var target := e.fill(r.target, if r.regex != "" then e.find(r.regex, path).value else [], path);
    next, added := Cut(target).0, Cut(target).1;
  }

  lemma FitsFinds(e: Engine, r: Route, path: string)
    requires Fits(e, r, path)
    ensures r.regex != "" ==> e.find(r.regex, path).Some?
  {}

  /**
   The first route that fits decides: with a status from 300 to 399 the loop ends there with that code,
   otherwise it goes on from the new path with one iteration less. A query of the target goes in front.
   */
  lemma RouteDecides(e: Engine, path: string, query: string, done: nat, left: nat, i: nat, next: string, added: string)
    requires left > 0 && Leads(e, path, i, next, added)
    ensures var joined := if added != "" && query != "" then added + "&" + query else added + query;
            Loop(e, path, query, done, left) ==
              if 300 <= e.routes[i].status <= 399
              then (RewriteResult(next, joined, e.routes[i].status, true, done + 1), true)
              else Loop(e, next, joined, done + 1, left - 1)
  {
    var r := e.routes[i];
    forall j | 0 <= j <= i ensures Fits(e, e.routes[j], path) <==> Takes(e, e.routes[j], path) {
      FitsTakes(e, e.routes[j], path);
    }
    FirstFits(e, path, i, 0);
    CutAt(next, added);
    assert added + "" == added && "" + query == query;
    hide Loop, Taker, Fits;
    LoopStep(e, path, query, done, left);
  }

  /** Where no route fits, the loop ends with path and query as they are. */
  lemma NoRouteStays(e: Engine, path: string, query: string, done: nat, left: nat)
    requires left > 0 && forall j :: 0 <= j < |e.routes| ==> !Fits(e, e.routes[j], path)
    ensures Loop(e, path, query, done, left) == (RewriteResult(path, query, 0, false, done + 1), true)
  {
    forall j | 0 <= j < |e.routes| ensures !Takes(e, e.routes[j], path) { FitsTakes(e, e.routes[j], path); }
    hide Fits, Takes, Next;
    TakerTakes(e, path, 0);
    StayTaken(e, path);
  }
}
