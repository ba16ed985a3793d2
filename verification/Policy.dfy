/**
 The policy engine (internal/policy/engine.go, internal/policy/mode.go): rules kept in priority
 order by a bubbling insert, an evaluator in which the first applicable deny wins and otherwise the
 last applicable rule, and the built-in rule sets of the four modes.

 Case folding, regular expressions and addresses are functions of a library that is a parameter.
 */
module Policy {
  import opened Common
  import CgiResponse

  /** A mode outside the three known ones is ignored by the evaluator. */
  datatype Decision = Allow | Deny | Observe | Other(code: int)

  /** A kind outside the known ones matches nothing. */
  datatype Kind =
    | Method | Path | PathPrefix | PathRegex | Host | Header | QueryParam | BodySize | Ip | IpRange | Scheme
    | Unknown(name: string)

  datatype Condition = Condition(kind: Kind, values: seq<string>, negate: bool)

  datatype Exclusion = Exclusion(kind: Kind, values: seq<string>)

  datatype Rule = Rule(name: string, phase: string, mode: Decision, priority: int,
                       conditions: seq<Condition>, exclusions: seq<Exclusion>)

  const REQUEST := "request"

  /** A request; `params` is what the query parses to. */
  datatype Context = Context(phase: string, verb: string, path: string, host: string, headers: CgiResponse.Headers,
                             query: string, params: map<string, seq<string>>, bodySize: int, remoteIp: string,
                             tls: bool)

  /** Equality under case folding, and matching by expression, address and range; an invalid one matches nothing. */
  datatype Library = Library(fold: (string, string) -> bool, regex: (string, string) -> bool,
                             sameIp: (string, string) -> bool, inRange: (string, string) -> bool)

  // ---------------------------------------------------------------------------------------------
  // Whether one value matches
  // ---------------------------------------------------------------------------------------------

  /** What stands before and after the first separator, if there is one. */
  function Cut(s: string, sep: char): Option<(string, string)> {
    var k := CgiResponse.Find(s, [sep]);
    if k.None? then None else Some((s[..k.value], s[k.value + 1..]))
  }

  function Int64(s: string): Option<int> {
    var n := CgiResponse.Atoi(s);
    if n.Some? && -0x8000_0000_0000_0000 <= n.value < 0x8000_0000_0000_0000 then n else None
  }

  predicate HeaderMatches(value: string, headers: CgiResponse.Headers) {
    var parts := Cut(value, ':');
    parts.Some? &&
    CgiResponse.Get(headers, CgiResponse.TrimSpace(parts.value.0)) == CgiResponse.TrimSpace(parts.value.1)
  }

  /** A parameter by name, or by name and value; one that is not there may still occur in the raw query. */
  predicate QueryMatches(value: string, query: string, params: map<string, seq<string>>) {
    var parts := Cut(value, '=');
    var name := if parts.Some? then parts.value.0 else value;
    if name in params then parts.None? || parts.value.1 in params[name]
    else CgiResponse.Find(query, value).Some?
  }

  predicate ValueMatches(lib: Library, kind: Kind, value: string, ctx: Context) {
    match kind
    case Method => lib.fold(value, ctx.verb)
    case Path => value == ctx.path
    case PathPrefix => value <= ctx.path
    case PathRegex => lib.regex(value, ctx.path)
    case Host => lib.fold(value, ctx.host)
    case Header => HeaderMatches(value, ctx.headers)
    case QueryParam => QueryMatches(value, ctx.query, ctx.params)
    case BodySize => Int64(value).Some? && ctx.bodySize > Int64(value).value
    case Ip => lib.sameIp(value, ctx.remoteIp)
    case IpRange => lib.inRange(value, ctx.remoteIp)
    case Scheme => (value == "https" && ctx.tls) || (value == "http" && !ctx.tls)
    case Unknown(_) => false
  }

  /** Most theorems hold of any way to match one value. */
  type Matcher = (Kind, string, Context) -> bool

  function Matching(lib: Library): Matcher {
    (kind, value, ctx) => ValueMatches(lib, kind, value, ctx)
  }

  // ---------------------------------------------------------------------------------------------
  // Which rules apply
  // ---------------------------------------------------------------------------------------------

  predicate Matches(m: Matcher, c: Condition, ctx: Context) {
    (exists i :: 0 <= i < |c.values| && m(c.kind, c.values[i], ctx)) != c.negate
  }

  predicate Excluded(m: Matcher, e: Exclusion, ctx: Context) {
    Matches(m, Condition(e.kind, e.values, false), ctx)
  }

  predicate Applies(m: Matcher, r: Rule, ctx: Context) {
    && r.phase == ctx.phase
    && (forall i :: 0 <= i < |r.conditions| ==> Matches(m, r.conditions[i], ctx))
    && (forall i :: 0 <= i < |r.exclusions| ==> !Excluded(m, r.exclusions[i], ctx))
  }

  predicate Denies(m: Matcher, r: Rule, ctx: Context) {
    Applies(m, r, ctx) && r.mode == Deny
  }

  // ---------------------------------------------------------------------------------------------
  // Specifications of the two operations
  // ---------------------------------------------------------------------------------------------

  ghost predicate Sorted(rules: seq<Rule>) {
    forall i, j :: 0 <= i < j < |rules| ==> rules[i].priority <= rules[j].priority
  }

  /** After every rule of the same or a higher priority. */
  function Insert(rules: seq<Rule>, r: Rule): seq<Rule> {
    if rules == [] || rules[|rules| - 1].priority <= r.priority then rules + [r]
    else Insert(rules[..|rules| - 1], r) + [rules[|rules| - 1]]
  }

  function Inserted(added: seq<Rule>): seq<Rule> {
    if added == [] then [] else Insert(Inserted(added[..|added| - 1]), added[|added| - 1])
  }

  /** The evaluator after these rules, or the first deny among them. */
  function Evaluated(m: Matcher, rules: seq<Rule>, ctx: Context): (Decision, Option<Rule>) {
    if rules == [] then (Allow, None)
    else
      var (result, matched) := Evaluated(m, rules[..|rules| - 1], ctx);
      var last := rules[|rules| - 1];
      if result == Deny || !Applies(m, last, ctx) then (result, matched)
      else if last.mode == Deny then (Deny, Some(last))
      else if last.mode == Observe then (Observe, Some(last))
      else if last.mode == Allow && result == Observe then (Allow, Some(last))
      else (result, matched)
  }

  // ---------------------------------------------------------------------------------------------
  // The engine
  // ---------------------------------------------------------------------------------------------

  class Engine {
    const matcher: Matcher
    var rules: seq<Rule>

    ghost predicate Valid()
      reads this
    {
      Sorted(rules)
    }

    constructor (lib: Library)
      ensures Valid() && rules == [] && matcher == Matching(lib)
    {
      matcher := Matching(lib);
      rules := [];
    }

    method AddRule(rule: Rule)
      requires Valid()
      modifies this
      ensures Valid() && rules == Insert(old(rules), rule)
    {
      hide Insert;
      ghost var before := rules;
      rules := rules + [rule];
      var i := |rules| - 1;
      ghost var p := i;
      while i > 0
        invariant 0 <= i <= p <= |before|
        invariant rules == before[..p] + [rule] + before[p..]
        invariant i < p ==> before[p - 1].priority <= rule.priority
        invariant forall k :: p <= k < |before| ==> rule.priority < before[k].priority
      {
        SwapDown(before, rule, p);
        if rules[i].priority < rules[i - 1].priority {
          rules := rules[i := rules[i - 1]][i - 1 := rules[i]];
          p := i - 1;
        }
        i := i - 1;
      }
      InsertAt(before, rule, p);
      InsertSorted(before, rule);
    }

    method MatchesCondition(c: Condition, ctx: Context) returns (result: bool)
      ensures result == Matches(matcher, c, ctx)
    {
      result := false;
      for i := 0 to |c.values|
        invariant !result && forall j :: 0 <= j < i ==> !matcher(c.kind, c.values[j], ctx)
      {
        if matcher(c.kind, c.values[i], ctx) {
          result := true;
          break;
        }
      }
      if c.negate {
        result := !result;
      }
    }

    method MatchesConditions(rule: Rule, ctx: Context) returns (result: bool)
      ensures result <==> forall i :: 0 <= i < |rule.conditions| ==> Matches(matcher, rule.conditions[i], ctx)
    {
      for i := 0 to |rule.conditions|
        invariant forall j :: 0 <= j < i ==> Matches(matcher, rule.conditions[j], ctx)
      {
        var matched := MatchesCondition(rule.conditions[i], ctx);
        if !matched {
          return false;
        }
      }
      return true;
    }

    method MatchesExclusions(rule: Rule, ctx: Context) returns (result: bool)
      ensures result <==> exists i :: 0 <= i < |rule.exclusions| && Excluded(matcher, rule.exclusions[i], ctx)
    {
      for i := 0 to |rule.exclusions|
        invariant forall j :: 0 <= j < i ==> !Excluded(matcher, rule.exclusions[j], ctx)
      {
        var excl := rule.exclusions[i];
        var matched := MatchesCondition(Condition(excl.kind, excl.values, false), ctx);
        if matched {
          assert Excluded(matcher, rule.exclusions[i], ctx);
          return true;
        }
      }
      return false;
    }

    method EvaluateRule(ctx: Context) returns (result: Decision, matched: Option<Rule>)
      ensures (result, matched) == Evaluated(matcher, rules, ctx)
    {
      result, matched := Allow, None;
      assert rules[..|rules|] == rules;
      assert Evaluated(matcher, rules[..0], ctx) == (Allow, None);
      hide Evaluated, Matches, Excluded;
      for i := 0 to |rules|
        invariant (result, matched) == Evaluated(matcher, rules[..i], ctx) && result != Deny
      {
        var rule := rules[i];
        EvaluatedNext(matcher, rules, i, ctx);
        if rule.phase != ctx.phase {
          continue;
        }
        var conditions := MatchesConditions(rule, ctx);
        if !conditions {
          continue;
        }
        var excluded := MatchesExclusions(rule, ctx);
        if excluded {
          continue;
        }
        if rule.mode == Deny {
          DenyIsFinal(matcher, rules[..i + 1], rules[i + 1..], ctx);
          assert rules[..i + 1] + rules[i + 1..] == rules;
          return Deny, Some(rule);
        } else if rule.mode == Observe {
          result, matched := Observe, Some(rule);
        } else if rule.mode == Allow {
          if result == Observe {
            result, matched := Allow, Some(rule);
          }
        }
      }
    }
  }

  lemma EvaluatedNext(m: Matcher, rules: seq<Rule>, i: nat, ctx: Context)
    requires i < |rules| && Evaluated(m, rules[..i], ctx).0 != Deny
    ensures var (result, matched) := Evaluated(m, rules[..i], ctx);
            Evaluated(m, rules[..i + 1], ctx) ==
              if !Applies(m, rules[i], ctx) then (result, matched)
              else if rules[i].mode == Deny then (Deny, Some(rules[i]))
              else if rules[i].mode == Observe then (Observe, Some(rules[i]))
              else if rules[i].mode == Allow && result == Observe then (Allow, Some(rules[i]))
              else (result, matched)
  {
    hide Applies;
    assert rules[..i + 1][..i] == rules[..i];
  }

  lemma {:induction false} InsertAt(rules: seq<Rule>, r: Rule, p: nat)
    requires Sorted(rules) && p <= |rules|
    requires p > 0 ==> rules[p - 1].priority <= r.priority
    requires forall k :: p <= k < |rules| ==> r.priority < rules[k].priority
    ensures Insert(rules, r) == rules[..p] + [r] + rules[p..]
  {
    if p < |rules| {
      var init, last := rules[..|rules| - 1], rules[|rules| - 1];
      InsertAt(init, r, p);
      assert Insert(rules, r) == Insert(init, r) + [last];
      Regroup(rules, r, p);
    } else {
      assert rules[..p] == rules && rules[p..] == [];
    }
  }

  /** The rule at `p`, and one step of the bubbling pass. */
  lemma SwapDown(before: seq<Rule>, r: Rule, p: nat)
    requires p <= |before|
    ensures var rules := before[..p] + [r] + before[p..];
            && rules[p] == r
            && (forall i :: 0 <= i < p ==> rules[i] == before[i])
            && (p > 0 ==> rules[p := rules[p - 1]][p - 1 := rules[p]] == before[..p - 1] + [r] + before[p - 1..])
  {}

  lemma Regroup(rules: seq<Rule>, r: Rule, p: nat)
    requires p < |rules|
    ensures (rules[..|rules| - 1][..p] + [r] + rules[..|rules| - 1][p..]) + [rules[|rules| - 1]]
         == rules[..p] + [r] + rules[p..]
  {}

  lemma {:induction false} DenyIsFinal(m: Matcher, rules: seq<Rule>, more: seq<Rule>, ctx: Context)
    requires Evaluated(m, rules, ctx).0 == Deny
    ensures Evaluated(m, rules + more, ctx) == Evaluated(m, rules, ctx)
  {
    if more == [] {
      assert rules + more == rules;
    } else {
      DenyIsFinal(m, rules, more[..|more| - 1], ctx);
      assert (rules + more)[..|rules + more| - 1] == rules + more[..|more| - 1];
    }
  }

  // ---------------------------------------------------------------------------------------------
  // The stable sort
  // ---------------------------------------------------------------------------------------------

  /** The rules of one priority, in order. */
  function OfPriority(rules: seq<Rule>, p: int): seq<Rule> {
    if rules == [] then []
    else
      var rest := OfPriority(rules[..|rules| - 1], p);
      if rules[|rules| - 1].priority == p then rest + [rules[|rules| - 1]] else rest
  }

  lemma {:induction false} InsertHolds(rules: seq<Rule>, r: Rule)
    ensures forall x :: x in Insert(rules, r) <==> x in rules || x == r
  {
    if rules != [] && r.priority < rules[|rules| - 1].priority {
      var init, last := rules[..|rules| - 1], rules[|rules| - 1];
      InsertHolds(init, r);
      assert rules == init + [last];
    }
  }

  lemma SortedSnoc(rules: seq<Rule>, last: Rule)
    requires Sorted(rules) && forall x :: x in rules ==> x.priority <= last.priority
    ensures Sorted(rules + [last])
  {
    assert forall i :: 0 <= i < |rules| ==> rules[i] in rules;
  }

  lemma InitBelow(rules: seq<Rule>, x: Rule)
    requires Sorted(rules) && rules != [] && x in rules[..|rules| - 1]
    ensures Sorted(rules[..|rules| - 1]) && x.priority <= rules[|rules| - 1].priority
  {}

  lemma {:induction false} InsertSorted(rules: seq<Rule>, r: Rule)
    requires Sorted(rules)
    ensures Sorted(Insert(rules, r))
    ensures forall x :: x in Insert(rules, r) <==> x in rules || x == r
  {
    InsertHolds(rules, r);
    if rules == [] || rules[|rules| - 1].priority <= r.priority {
      assert forall i :: 0 <= i < |rules| ==> rules[i].priority <= r.priority;
    } else {
      var init, last := rules[..|rules| - 1], rules[|rules| - 1];
      assert Sorted(init);
      hide Sorted;
      InsertSorted(init, r);
      forall x | x in Insert(init, r) ensures x.priority <= last.priority {
        if x in init { InitBelow(rules, x); }
      }
      SortedSnoc(Insert(init, r), last);
    }
  }

  lemma {:induction false} InsertStable(rules: seq<Rule>, r: Rule, p: int)
    requires Sorted(rules)
    ensures OfPriority(Insert(rules, r), p) == OfPriority(rules, p) + (if r.priority == p then [r] else [])
  {
    if rules == [] || rules[|rules| - 1].priority <= r.priority {
      assert (rules + [r])[..|rules|] == rules;
    } else {
      var init, last := rules[..|rules| - 1], rules[|rules| - 1];
      InsertStable(init, r, p);
      assert (Insert(init, r) + [last])[..|Insert(init, r)|] == Insert(init, r);
    }
  }

  /** After any sequence of AddRule calls the rules are sorted, and rules of one priority keep their order. */
  lemma {:induction false} AddedIsStableSort(added: seq<Rule>, p: int)
    ensures Sorted(Inserted(added))
    ensures OfPriority(Inserted(added), p) == OfPriority(added, p)
    ensures forall x :: x in Inserted(added) <==> x in added
  {
    hide Insert;
    if added != [] {
      hide Sorted;
      var init, last := added[..|added| - 1], added[|added| - 1];
      AddedIsStableSort(init, p);
      InsertSorted(Inserted(init), last);
      InsertStable(Inserted(init), last, p);
      assert added == init + [last];
    }
  }

  /** There is only one such arrangement. */
  lemma {:induction false} StableSortIsUnique(a: seq<Rule>, b: seq<Rule>)
    requires Sorted(a) && Sorted(b) && forall p :: OfPriority(a, p) == OfPriority(b, p)
    ensures a == b
    decreases |a|
  {
    EmptyTogether(a, b);
    if a != [] {
      var a', b', x, y := a[..|a| - 1], b[..|b| - 1], a[|a| - 1], b[|b| - 1];
      LastOfPriority(a);
      LastOfPriority(b);
      LastIsGreatest(a, y.priority);
      LastIsGreatest(b, x.priority);
      assert x.priority == y.priority;
      SameEnd(OfPriority(a', x.priority), x, OfPriority(b', x.priority), y);
      forall p ensures OfPriority(a', p) == OfPriority(b', p) {
        assert OfPriority(a, p) == OfPriority(b, p);
      }
      StableSortIsUnique(a', b');
      assert a == a' + [x] && b == b' + [y];
    }
  }

  lemma SameEnd(a: seq<Rule>, x: Rule, b: seq<Rule>, y: Rule)
    requires a + [x] == b + [y]
    ensures a == b && x == y
  {
    assert |a + [x]| == |b + [y]| && (a + [x])[|a|] == (b + [y])[|b|];
    assert a == (a + [x])[..|a|] && b == (b + [y])[..|b|];
  }

  lemma EmptyTogether(a: seq<Rule>, b: seq<Rule>)
    requires forall p :: OfPriority(a, p) == OfPriority(b, p)
    ensures a == [] <==> b == []
  {
    if a != [] { assert OfPriority(a, a[|a| - 1].priority) != []; }
    if b != [] { assert OfPriority(b, b[|b| - 1].priority) != []; }
  }

  lemma LastOfPriority(rules: seq<Rule>)
    requires rules != []
    ensures var x, init := rules[|rules| - 1], rules[..|rules| - 1];
            OfPriority(rules, x.priority) == OfPriority(init, x.priority) + [x]
  {}

  lemma {:induction false} LastIsGreatest(rules: seq<Rule>, p: int)
    requires Sorted(rules) && rules != [] && OfPriority(rules, p) != []
    ensures p <= rules[|rules| - 1].priority
  {
    if rules[|rules| - 1].priority != p {
      assert OfPriority(rules[..|rules| - 1], p) != [];
      LastIsGreatest(rules[..|rules| - 1], p);
    }
  }

  // ---------------------------------------------------------------------------------------------
  // What the evaluator decides
  // ---------------------------------------------------------------------------------------------

  predicate Observes(m: Matcher, r: Rule, ctx: Context) {
    Applies(m, r, ctx) && r.mode == Observe
  }

  predicate Allows(m: Matcher, r: Rule, ctx: Context) {
    Applies(m, r, ctx) && r.mode == Allow
  }

  /** added[i] comes before added[j] once sorted. */
  predicate Precedes(added: seq<Rule>, i: nat, j: nat)
    requires i < |added| && j < |added|
  {
    added[i].priority < added[j].priority || (added[i].priority == added[j].priority && i <= j)
  }

  /** Of the rules that deny, added[i] is the least in (priority, insertion order). */
  ghost predicate FirstDenier(m: Matcher, added: seq<Rule>, i: nat, ctx: Context) {
    && i < |added| && Denies(m, added[i], ctx)
    && forall j :: 0 <= j < |added| && Denies(m, added[j], ctx) ==> Precedes(added, i, j)
  }

  /** The first rule of a sorted list that denies. */
  function FirstDeny(m: Matcher, rules: seq<Rule>, ctx: Context): Option<Rule> {
    if rules == [] then None
    else
      var earlier := FirstDeny(m, rules[..|rules| - 1], ctx);
      if earlier.Some? then earlier
      else if Denies(m, rules[|rules| - 1], ctx) then Some(rules[|rules| - 1])
      else None
  }

  lemma {:induction false} DeniesAsFirst(m: Matcher, rules: seq<Rule>, ctx: Context)
    ensures Evaluated(m, rules, ctx).0 == Deny <==> FirstDeny(m, rules, ctx).Some?
    ensures Evaluated(m, rules, ctx).0 == Deny ==> Evaluated(m, rules, ctx).1 == FirstDeny(m, rules, ctx)
  {
    hide Applies;
    if rules != [] {
      DeniesAsFirst(m, rules[..|rules| - 1], ctx);
    }
  }

  lemma {:induction false} FirstDenyIn(m: Matcher, rules: seq<Rule>, ctx: Context)
    ensures FirstDeny(m, rules, ctx).Some? ==> FirstDeny(m, rules, ctx).value in rules
  {
    hide Applies;
    if rules != [] {
      FirstDenyIn(m, rules[..|rules| - 1], ctx);
    }
  }

  lemma {:induction false} FirstDenyInsert(m: Matcher, rules: seq<Rule>, r: Rule, ctx: Context)
    requires Sorted(rules)
    ensures var first := FirstDeny(m, rules, ctx);
            FirstDeny(m, Insert(rules, r), ctx) ==
              if Denies(m, r, ctx) && (first.None? || r.priority < first.value.priority) then Some(r) else first
  {
    hide Applies, Denies;
    FirstDenyIn(m, rules, ctx);
    if rules == [] || rules[|rules| - 1].priority <= r.priority {
      assert (rules + [r])[..|rules|] == rules;
    } else {
      var init, last := rules[..|rules| - 1], rules[|rules| - 1];
      FirstDenyInsert(m, init, r, ctx);
      FirstDenyIn(m, init, ctx);
      assert (Insert(init, r) + [last])[..|Insert(init, r)|] == Insert(init, r);
    }
  }

  lemma {:induction false} FirstDenyAdded(m: Matcher, added: seq<Rule>, ctx: Context) returns (i: nat)
    ensures FirstDeny(m, Inserted(added), ctx).None? ==> forall j :: 0 <= j < |added| ==> !Denies(m, added[j], ctx)
    ensures FirstDeny(m, Inserted(added), ctx).Some? ==>
              FirstDenier(m, added, i, ctx) && FirstDeny(m, Inserted(added), ctx) == Some(added[i])
  {
    hide Applies, Denies, Insert, Sorted;
    i := 0;
    if added != [] {
      var init, last := added[..|added| - 1], added[|added| - 1];
      i := FirstDenyAdded(m, init, ctx);
      AddedIsStableSort(init, 0);
      FirstDenyInsert(m, Inserted(init), last, ctx);
      var first := FirstDeny(m, Inserted(init), ctx);
      if Denies(m, last, ctx) && (first.None? || last.priority < first.value.priority) {
        i := |added| - 1;
      }
    }
  }

  /** A request is denied exactly when some added rule that denies applies to it; the one named is the first. */
  lemma DeniedExactly(m: Matcher, added: seq<Rule>, ctx: Context)
    ensures Evaluated(m, Inserted(added), ctx).0 == Deny <==>
              exists j :: 0 <= j < |added| && Denies(m, added[j], ctx)
    ensures forall i: nat :: FirstDenier(m, added, i, ctx) ==>
              Evaluated(m, Inserted(added), ctx) == (Deny, Some(added[i]))
  {
    hide Applies, Denies, Insert, Evaluated, FirstDeny, Inserted;
    DeniesAsFirst(m, Inserted(added), ctx);
    var k := FirstDenyAdded(m, added, ctx);
    forall i: nat | FirstDenier(m, added, i, ctx) ensures Evaluated(m, Inserted(added), ctx) == (Deny, Some(added[i])) {
      assert Denies(m, added[i], ctx);
      assert Precedes(added, i, k) && Precedes(added, k, i);
    }
  }

  ghost predicate NoneFrom(p: (Matcher, Rule, Context) -> bool, m: Matcher, rules: seq<Rule>,
                           lo: nat, hi: nat, ctx: Context) {
    forall i :: lo <= i < hi && i < |rules| ==> !p(m, rules[i], ctx)
  }

  /** Without a deny or an observe the request is allowed, and no rule is named. */
  lemma {:induction false} NothingObserved(m: Matcher, rules: seq<Rule>, ctx: Context)
    requires NoneFrom(Denies, m, rules, 0, |rules|, ctx) && NoneFrom(Observes, m, rules, 0, |rules|, ctx)
    ensures Evaluated(m, rules, ctx) == (Allow, None)
  {
    hide Applies;
    if rules != [] {
      NothingObserved(m, rules[..|rules| - 1], ctx);
    }
  }

  /** Without a deny, the last observe stands when no allow follows it. */
  lemma {:induction false} LastObserveStands(m: Matcher, rules: seq<Rule>, j: nat, ctx: Context)
    requires j < |rules| && Observes(m, rules[j], ctx)
    requires NoneFrom(Denies, m, rules, 0, |rules|, ctx)
    requires NoneFrom(Observes, m, rules, j + 1, |rules|, ctx) && NoneFrom(Allows, m, rules, j + 1, |rules|, ctx)
    ensures Evaluated(m, rules, ctx) == (Observe, Some(rules[j]))
  {
    hide Applies;
    var init := rules[..|rules| - 1];
    if j < |init| {
      LastObserveStands(m, init, j, ctx);
    } else {
      NotDenied(m, init, ctx);
    }
  }

  lemma NotDenied(m: Matcher, rules: seq<Rule>, ctx: Context)
    requires NoneFrom(Denies, m, rules, 0, |rules|, ctx)
    ensures Evaluated(m, rules, ctx).0 != Deny
  {
    hide Applies;
    if rules != [] {
      NotDenied(m, rules[..|rules| - 1], ctx);
    }
  }

  /** Without a deny, an allow after the last observe overrides it, and the first such allow is named. */
  lemma {:induction false} FirstAllowAfterOverrides(m: Matcher, rules: seq<Rule>, j: nat, k: nat, ctx: Context)
    requires j < k < |rules| && Observes(m, rules[j], ctx) && Allows(m, rules[k], ctx)
    requires NoneFrom(Denies, m, rules, 0, |rules|, ctx)
    requires NoneFrom(Observes, m, rules, j + 1, |rules|, ctx) && NoneFrom(Allows, m, rules, j + 1, k, ctx)
    ensures Evaluated(m, rules, ctx) == (Allow, Some(rules[k]))
  {
    hide Applies;
    var init := rules[..|rules| - 1];
    if k < |init| {
      FirstAllowAfterOverrides(m, init, j, k, ctx);
    } else {
      LastObserveStands(m, init, j, ctx);
    }
  }

  // ---------------------------------------------------------------------------------------------
  // The decision in terms of the rules as they were added
  // ---------------------------------------------------------------------------------------------

  /** added[i] comes before added[j] once sorted, and is another one. */
  predicate Before(added: seq<Rule>, i: nat, j: nat)
    requires i < |added| && j < |added|
  {
    Precedes(added, i, j) && i != j
  }

  /** `order` lists the added rules, each once, as they stand in `rules`. */
  ghost predicate Arranges(added: seq<Rule>, rules: seq<Rule>, order: seq<nat>) {
    && |order| == |rules|
    && (forall a :: 0 <= a < |order| ==> order[a] < |added| && rules[a] == added[order[a]])
    && (forall i :: 0 <= i < |added| ==> i in order)
    && forall a, b :: 0 <= a < b < |order| ==> Before(added, order[a], order[b])
  }

  /** Where the bubbling pass stops. */
  lemma {:induction false} PlaceOf(rules: seq<Rule>, r: Rule) returns (p: nat)
    requires Sorted(rules)
    ensures p <= |rules|
    ensures forall a :: 0 <= a < p ==> rules[a].priority <= r.priority
    ensures forall a :: p <= a < |rules| ==> r.priority < rules[a].priority
  {
    p := |rules|;
    if rules != [] && r.priority < rules[|rules| - 1].priority {
      p := PlaceOf(rules[..|rules| - 1], r);
    }
  }

  lemma {:induction false} Arranged(added: seq<Rule>) returns (order: seq<nat>)
    ensures Arranges(added, Inserted(added), order)
  {
    if added == [] {
      order := [];
    } else {
      var init, last := added[..|added| - 1], added[|added| - 1];
      AddedIsStableSort(init, 0);
      assert Inserted(added) == Insert(Inserted(init), last) && added == init + [last];
      hide *;
      var prior := Arranged(init);
      order := ArrangedMore(init, last, Inserted(init), prior);
    }
  }

  lemma ArrangedMore(init: seq<Rule>, last: Rule, rules: seq<Rule>, prior: seq<nat>) returns (order: seq<nat>)
    requires Arranges(init, rules, prior) && Sorted(rules)
    ensures Arranges(init + [last], Insert(rules, last), order)
  {
    hide Insert, Before;
    var p := PlaceOf(rules, last);
    InsertAt(rules, last, p);
    order := MoreHolds(init, last, rules, prior, p);
    MoreOrdered(init, last, rules, prior, p, order);
  }

  /** The places before `p` and those behind it, moved up by one. */
  lemma MoreHolds(init: seq<Rule>, last: Rule, rules: seq<Rule>, prior: seq<nat>, p: nat) returns (order: seq<nat>)
    requires Arranges(init, rules, prior) && p <= |rules|
    ensures |order| == |rules| + 1 && order[p] == |init|
    ensures forall a :: 0 <= a < p ==> order[a] == prior[a]
    ensures forall a :: p < a <= |rules| ==> order[a] == prior[a - 1]
    ensures forall i :: 0 <= i <= |init| ==> i in order
  {
    hide Before;
    order := prior[..p] + [|init|] + prior[p..];
    forall i | 0 <= i <= |init| ensures i in order {
      if i == |init| {
        assert order[p] == i;
      } else {
        assert i in prior;
        var a :| 0 <= a < |prior| && prior[a] == i;
        assert order[if a < p then a else a + 1] == i;
      }
    }
  }

  lemma MoreOrdered(init: seq<Rule>, last: Rule, rules: seq<Rule>, prior: seq<nat>, p: nat, order: seq<nat>)
    requires Arranges(init, rules, prior) && p <= |rules|
    requires forall a :: 0 <= a < p ==> rules[a].priority <= last.priority
    requires forall a :: p <= a < |rules| ==> last.priority < rules[a].priority
    requires |order| == |rules| + 1 && order[p] == |init|
    requires forall a :: 0 <= a < p ==> order[a] == prior[a]
    requires forall a :: p < a <= |rules| ==> order[a] == prior[a - 1]
    ensures forall a :: 0 <= a < |order| ==> order[a] <= |init|
    ensures forall a, b :: 0 <= a < b < |order| ==> Before(init + [last], order[a], order[b])
  {
    forall a, b | 0 <= a < b < |order| ensures Before(init + [last], order[a], order[b]) {
      if b < p {
        assert Before(init, prior[a], prior[b]);
      } else if b > p && a < p {
        assert Before(init, prior[a], prior[b - 1]);
      } else if a > p {
        assert Before(init, prior[a - 1], prior[b - 1]);
      }
    }
  }

  ghost predicate NoneAdded(p: (Matcher, Rule, Context) -> bool, m: Matcher, added: seq<Rule>, ctx: Context) {
    forall i :: 0 <= i < |added| ==> !p(m, added[i], ctx)
  }

  /** Of the rules that observe, added[j] is the greatest in (priority, insertion order). */
  ghost predicate LastObserver(m: Matcher, added: seq<Rule>, j: nat, ctx: Context) {
    && j < |added| && Observes(m, added[j], ctx)
    && forall i :: 0 <= i < |added| && Observes(m, added[i], ctx) ==> Precedes(added, i, j)
  }

  ghost predicate NoAllowAfter(m: Matcher, added: seq<Rule>, j: nat, ctx: Context)
    requires j < |added|
  {
    forall i :: 0 <= i < |added| && Allows(m, added[i], ctx) ==> !Before(added, j, i)
  }

  /** Of the rules that allow and come after added[j], added[k] is the least. */
  ghost predicate FirstAllowAfter(m: Matcher, added: seq<Rule>, j: nat, k: nat, ctx: Context)
    requires j < |added|
  {
    && k < |added| && Allows(m, added[k], ctx) && Before(added, j, k)
    && forall i :: 0 <= i < |added| && Allows(m, added[i], ctx) && Before(added, j, i) ==> Precedes(added, k, i)
  }

  lemma NoneArranged(p: (Matcher, Rule, Context) -> bool, m: Matcher, added: seq<Rule>, rules: seq<Rule>,
                     order: seq<nat>, ctx: Context)
    requires Arranges(added, rules, order) && NoneAdded(p, m, added, ctx)
    ensures NoneFrom(p, m, rules, 0, |rules|, ctx)
  {}

  lemma OrderKept(added: seq<Rule>, rules: seq<Rule>, order: seq<nat>, a: nat, b: nat)
    requires Arranges(added, rules, order) && a < |order| && b < |order|
    ensures Before(added, order[a], order[b]) ==> a < b
  {
    if b < a { assert Before(added, order[b], order[a]); }
  }

  /** Behind the last observer's place nothing observes. */
  lemma LastObserverAt(m: Matcher, added: seq<Rule>, rules: seq<Rule>, order: seq<nat>, j: nat, ctx: Context)
    returns (a: nat)
    requires Arranges(added, rules, order) && LastObserver(m, added, j, ctx)
    ensures a < |rules| && order[a] == j && NoneFrom(Observes, m, rules, a + 1, |rules|, ctx)
  {
    hide Observes;
    assert j in order;
    a :| 0 <= a < |order| && order[a] == j;
    forall b | a < b < |rules| ensures !Observes(m, rules[b], ctx) {
      assert Before(added, order[a], order[b]);
    }
  }

  lemma ObserveStandsAdded(m: Matcher, added: seq<Rule>, rules: seq<Rule>, order: seq<nat>, j: nat, ctx: Context)
    requires Arranges(added, rules, order) && NoneAdded(Denies, m, added, ctx)
    requires LastObserver(m, added, j, ctx) && NoAllowAfter(m, added, j, ctx)
    ensures Evaluated(m, rules, ctx) == (Observe, Some(added[j]))
  {
    NoneArranged(Denies, m, added, rules, order, ctx);
    var a := LastObserverAt(m, added, rules, order, j, ctx);
    hide Applies, Observes, Allows, Evaluated;
    forall b | a < b < |rules| ensures !Allows(m, rules[b], ctx) {
      assert Before(added, order[a], order[b]);
    }
    LastObserveStands(m, rules, a, ctx);
  }

  lemma AllowOverridesAdded(m: Matcher, added: seq<Rule>, rules: seq<Rule>, order: seq<nat>,
                            j: nat, k: nat, ctx: Context)
    requires Arranges(added, rules, order) && NoneAdded(Denies, m, added, ctx)
    requires LastObserver(m, added, j, ctx) && FirstAllowAfter(m, added, j, k, ctx)
    ensures Evaluated(m, rules, ctx) == (Allow, Some(added[k]))
  {
    NoneArranged(Denies, m, added, rules, order, ctx);
    var a := LastObserverAt(m, added, rules, order, j, ctx);
    hide Applies, Observes, Allows, Evaluated;
    assert k in order;
    var c :| 0 <= c < |order| && order[c] == k;
    OrderKept(added, rules, order, a, c);
    forall b | a < b < c ensures !Allows(m, rules[b], ctx) {
      assert Before(added, order[a], order[b]) && Before(added, order[b], order[c]);
    }
    FirstAllowAfterOverrides(m, rules, a, c, ctx);
  }

  /** The greatest of the rules that observe, if any does. */
  lemma {:induction false} SomeLastObserver(m: Matcher, added: seq<Rule>, n: nat, ctx: Context) returns (j: nat)
    requires n <= |added| && exists i :: 0 <= i < n && Observes(m, added[i], ctx)
    ensures j < n && Observes(m, added[j], ctx)
    ensures forall i :: 0 <= i < n && Observes(m, added[i], ctx) ==> Precedes(added, i, j)
  {
    hide Observes;
    if exists i :: 0 <= i < n - 1 && Observes(m, added[i], ctx) {
      j := SomeLastObserver(m, added, n - 1, ctx);
      if Observes(m, added[n - 1], ctx) && added[n - 1].priority >= added[j].priority { j := n - 1; }
    } else {
      j := n - 1;
    }
  }

  /** The least of the rules that allow and come after added[j], if any does. */
  lemma {:induction false} SomeFirstAllow(m: Matcher, added: seq<Rule>, j: nat, n: nat, ctx: Context) returns (k: nat)
    requires j < |added| && n <= |added|
    requires exists i :: 0 <= i < n && Allows(m, added[i], ctx) && Before(added, j, i)
    ensures k < n && Allows(m, added[k], ctx) && Before(added, j, k)
    ensures forall i :: 0 <= i < n && Allows(m, added[i], ctx) && Before(added, j, i) ==> Precedes(added, k, i)
  {
    hide Allows;
    if exists i :: 0 <= i < n - 1 && Allows(m, added[i], ctx) && Before(added, j, i) {
      k := SomeFirstAllow(m, added, j, n - 1, ctx);
      var last := n - 1;
      if Allows(m, added[last], ctx) && Before(added, j, last) && added[last].priority < added[k].priority {
        k := last;
      }
    } else {
      k := n - 1;
    }
  }

  /**
   What becomes of a request that no added rule denies, in the order of (priority, insertion): the
   last rule to observe decides unless an allowing one comes after it, and then the first such one
   does. Without an observing rule no rule is named.
   */
  lemma ObservedExactly(m: Matcher, added: seq<Rule>, ctx: Context)
    requires NoneAdded(Denies, m, added, ctx)
    ensures var result := Evaluated(m, Inserted(added), ctx);
            && (NoneAdded(Observes, m, added, ctx) <==> result == (Allow, None))
            && (result.0 == Observe <==>
                  exists j: nat :: LastObserver(m, added, j, ctx) && NoAllowAfter(m, added, j, ctx))
            && (forall j: nat :: LastObserver(m, added, j, ctx) && NoAllowAfter(m, added, j, ctx) ==>
                  result == (Observe, Some(added[j])))
            && (forall j: nat, k: nat :: LastObserver(m, added, j, ctx) && FirstAllowAfter(m, added, j, k, ctx) ==>
                  result == (Allow, Some(added[k])))
  {
    var order := Arranged(added);
    var rules := Inserted(added);
    NoneArranged(Denies, m, added, rules, order, ctx);
    hide Applies, Observes, Allows, Denies, Evaluated, Inserted, Arranges, Before, Precedes;
    forall j: nat | LastObserver(m, added, j, ctx) && NoAllowAfter(m, added, j, ctx)
      ensures Evaluated(m, rules, ctx) == (Observe, Some(added[j]))
    {
      ObserveStandsAdded(m, added, rules, order, j, ctx);
    }
    forall j: nat, k: nat | LastObserver(m, added, j, ctx) && FirstAllowAfter(m, added, j, k, ctx)
      ensures Evaluated(m, rules, ctx) == (Allow, Some(added[k]))
    {
      AllowOverridesAdded(m, added, rules, order, j, k, ctx);
    }
    if NoneAdded(Observes, m, added, ctx) {
      NoneArranged(Observes, m, added, rules, order, ctx);
      NothingObserved(m, rules, ctx);
    } else {
      var j := SomeLastObserver(m, added, |added|, ctx);
      assert LastObserver(m, added, j, ctx);
      if !NoAllowAfter(m, added, j, ctx) {
        var k := SomeFirstAllow(m, added, j, |added|, ctx);
        assert FirstAllowAfter(m, added, j, k, ctx);
      }
    }
  }

  // ---------------------------------------------------------------------------------------------
  // Modes
  // ---------------------------------------------------------------------------------------------

  datatype Mode = Off | Observing | Balanced | Strict

  function OneCondition(name: string, mode: Decision, priority: int, kind: Kind, values: seq<string>): Rule {
    Rule(name, REQUEST, mode, priority, [Condition(kind, values, false)], [])
  }

  function CommonRules(mode: Decision): seq<Rule> {
    [OneCondition("deny-vcs-metadata", mode, 10, PathPrefix, ["/.git/", "/.svn/", "/.hg/", "/.bzr/"]),
     OneCondition("deny-dotenv", mode, 10, PathPrefix, ["/.env"]),
     OneCondition("deny-trace-methods", mode, 20, Method, ["TRACE", "TRACK"])]
  }

  function StrictRules(): seq<Rule> {
    [OneCondition("deny-connect-method", Deny, 20, Method, ["CONNECT"]),
     OneCondition("deny-editor-artifacts", Deny, 30, PathRegex, ["\\.(bak|swp|orig|rej|save|old)$"])]
  }

  function DefaultRules(mode: Mode): seq<Rule> {
    if mode == Off then []
    else CommonRules(if mode == Observing then Observe else Deny) + (if mode == Strict then StrictRules() else [])
  }

  lemma InsertedNext(added: seq<Rule>, i: nat)
    requires i < |added|
    ensures Inserted(added[..i + 1]) == Insert(Inserted(added[..i]), added[i])
  {
    assert added[..i + 1][..i] == added[..i];
  }

  method NewEngineForMode(lib: Library, mode: Mode) returns (e: Engine)
    ensures fresh(e) && e.Valid() && e.matcher == Matching(lib) && e.rules == Inserted(DefaultRules(mode))
  {
    e := new Engine(lib);
    var defaults := DefaultRules(mode);
    assert Inserted(defaults[..0]) == [];
    hide DefaultRules, Insert, Inserted, Sorted;
    for i := 0 to |defaults|
      invariant fresh(e) && e.Valid() && e.matcher == Matching(lib) && e.rules == Inserted(defaults[..i])
    {
      InsertedNext(defaults, i);
      e.AddRule(defaults[i]);
    }
    assert defaults[..|defaults|] == defaults;
  }

  datatype Outcome = Served | Flagged(rule: string) | Forbidden(rule: string)

  function Verdict(mode: Mode, decision: Decision, matched: Option<Rule>): Outcome {
    var name := if matched.Some? then matched.value.name else "unknown";
    if mode == Off then Served
    else if decision == Observe || (mode == Observing && decision == Deny) then Flagged(name)
    else if decision == Deny then Forbidden(name)
    else Served
  }

  method ModeMiddleware(e: Engine, mode: Mode, ctx: Context) returns (outcome: Outcome)
    ensures outcome == Verdict(mode, Evaluated(e.matcher, e.rules, ctx).0, Evaluated(e.matcher, e.rules, ctx).1)
  {
    if mode == Off {
      return Served;
    }
    var decision, rule := e.EvaluateRule(ctx);
    var ruleName := "unknown";
    if rule.Some? {
      ruleName := rule.value.name;
    }
    if mode == Observing && decision == Deny {
      decision := Observe;
    }
    if decision == Observe {
      return Flagged(ruleName);
    }
    if decision == Deny {
      return Forbidden(ruleName);
    }
    return Served;
  }

  /** Whatever rules were added, the handler runs unless the mode enforces and some rule that denies applies. */
  lemma ForbiddenExactly(m: Matcher, mode: Mode, added: seq<Rule>, ctx: Context)
    ensures var (decision, matched) := Evaluated(m, Inserted(added), ctx);
            Verdict(mode, decision, matched).Forbidden? <==>
              mode in {Balanced, Strict} && exists j :: 0 <= j < |added| && Denies(m, added[j], ctx)
    ensures forall i: nat :: mode in {Balanced, Strict} && FirstDenier(m, added, i, ctx) ==>
              Verdict(mode, Evaluated(m, Inserted(added), ctx).0, Evaluated(m, Inserted(added), ctx).1)
                == Forbidden(added[i].name)
  {
    hide Denies, Inserted, Evaluated;
    DeniedExactly(m, added, ctx);
  }

  function Softened(rules: seq<Rule>): (r: seq<Rule>)
    ensures |r| == |rules| && forall i :: 0 <= i < |rules| ==> r[i] == rules[i].(mode := Observe)
  {
    if rules == [] then [] else Softened(rules[..|rules| - 1]) + [rules[|rules| - 1].(mode := Observe)]
  }

  lemma {:induction false} SoftenedInsert(rules: seq<Rule>, r: Rule)
    ensures Softened(Insert(rules, r)) == Insert(Softened(rules), r.(mode := Observe))
  {
    var soft := Softened(rules);
    if rules == [] || rules[|rules| - 1].priority <= r.priority {
      assert Softened(rules + [r]) == soft + [r.(mode := Observe)];
    } else {
      var init, last := rules[..|rules| - 1], rules[|rules| - 1];
      SoftenedInsert(init, r);
      assert (Insert(init, r) + [last])[..|Insert(init, r)|] == Insert(init, r);
      assert soft[..|soft| - 1] == Softened(init);
    }
  }

  lemma {:induction false} SoftenedInserted(added: seq<Rule>)
    ensures Softened(Inserted(added)) == Inserted(Softened(added))
  {
    hide Insert;
    if added != [] {
      var init := added[..|added| - 1];
      SoftenedInserted(init);
      SoftenedInsert(Inserted(init), added[|added| - 1]);
      assert Softened(added)[..|added| - 1] == Softened(init);
    }
  }

  lemma {:induction false} SoftenedObserves(m: Matcher, rules: seq<Rule>, ctx: Context)
    requires forall i :: 0 <= i < |rules| ==> rules[i].mode == Deny
    ensures Evaluated(m, Softened(rules), ctx).0 == Observe <==> Evaluated(m, rules, ctx).0 == Deny
    ensures Evaluated(m, Softened(rules), ctx).0 in {Allow, Observe}
    ensures Evaluated(m, rules, ctx).0 in {Allow, Deny}
  {
    if rules != [] {
      var init, last := rules[..|rules| - 1], rules[|rules| - 1];
      SoftenedObserves(m, init, ctx);
      assert Softened(rules)[..|rules| - 1] == Softened(init);
      assert Applies(m, last.(mode := Observe), ctx) == Applies(m, last, ctx);
    }
  }

  /** Turning every deny into an observe flags exactly what was denied, for any rules that all deny. */
  lemma FlagsWhatWasDenied(m: Matcher, added: seq<Rule>, ctx: Context)
    requires forall r :: r in added ==> r.mode == Deny
    ensures var soft := Evaluated(m, Inserted(Softened(added)), ctx).0;
            && (soft == Observe <==> Evaluated(m, Inserted(added), ctx).0 == Deny)
            && (soft == Observe || soft == Allow)
  {
    hide Evaluated, Inserted, Softened, Sorted, OfPriority;
    SoftenedInserted(added);
    AddedIsStableSort(added, 0);
    assert forall i :: 0 <= i < |Inserted(added)| ==> Inserted(added)[i] in added;
    SoftenedObserves(m, Inserted(added), ctx);
  }

  lemma DefaultsSoften()
    ensures Softened(DefaultRules(Balanced)) == DefaultRules(Observing)
    ensures forall r :: r in DefaultRules(Balanced) ==> r.mode == Deny
  {
    hide Softened;
  }

  /** Observe mode flags a request exactly when the balanced rules deny it, and never denies. */
  lemma ObserveFlagsWhatBalancedDenies(m: Matcher, ctx: Context)
    ensures var observing := Evaluated(m, Inserted(DefaultRules(Observing)), ctx).0;
            && (observing == Observe <==> Evaluated(m, Inserted(DefaultRules(Balanced)), ctx).0 == Deny)
            && (observing == Observe || observing == Allow)
  {
    hide *;
    DefaultsSoften();
    FlagsWhatWasDenied(m, DefaultRules(Balanced), ctx);
  }

  /** Strict mode denies what balanced denies and, besides, exactly what its two further rules match. */
  lemma StrictDeniesMore(m: Matcher, ctx: Context)
    ensures Evaluated(m, Inserted(DefaultRules(Strict)), ctx).0 == Deny <==>
              || Evaluated(m, Inserted(DefaultRules(Balanced)), ctx).0 == Deny
              || Applies(m, StrictRules()[0], ctx) || Applies(m, StrictRules()[1], ctx)
  {
    hide Evaluated, Inserted, Applies, CommonRules;
    DeniedExactly(m, DefaultRules(Strict), ctx);
    DeniedExactly(m, DefaultRules(Balanced), ctx);
    var strict, balanced := DefaultRules(Strict), DefaultRules(Balanced);
    assert strict == balanced + StrictRules();
    assert forall i :: 0 <= i < |balanced| ==> strict[i] == balanced[i];
    assert strict[|balanced|] == StrictRules()[0] && strict[|balanced| + 1] == StrictRules()[1];
  }

  lemma AppliesAlone(m: Matcher, name: string, mode: Decision, priority: int,
                     kind: Kind, values: seq<string>, ctx: Context)
    ensures Applies(m, OneCondition(name, mode, priority, kind, values), ctx) <==>
              ctx.phase == REQUEST && exists i :: 0 <= i < |values| && m(kind, values[i], ctx)
  {
    var r := OneCondition(name, mode, priority, kind, values);
    assert r.conditions[0] == Condition(kind, values, false);
  }

  /** What the balanced rules deny, in terms of the request. */
  predicate Suspicious(lib: Library, ctx: Context) {
    || "/.git/" <= ctx.path || "/.svn/" <= ctx.path || "/.hg/" <= ctx.path || "/.bzr/" <= ctx.path
    || "/.env" <= ctx.path
    || lib.fold("TRACE", ctx.verb) || lib.fold("TRACK", ctx.verb)
  }

  lemma CommonApply(lib: Library, ctx: Context)
    ensures var m, rules := Matching(lib), CommonRules(Deny);
            Denies(m, rules[0], ctx) || Denies(m, rules[1], ctx) || Denies(m, rules[2], ctx) <==>
              ctx.phase == REQUEST && Suspicious(lib, ctx)
  {
    hide Applies;
    var m, vcs := Matching(lib), ["/.git/", "/.svn/", "/.hg/", "/.bzr/"];
    AppliesAlone(m, "deny-vcs-metadata", Deny, 10, PathPrefix, vcs, ctx);
    assert vcs[0] == "/.git/" && vcs[1] == "/.svn/" && vcs[2] == "/.hg/" && vcs[3] == "/.bzr/";
    AppliesAlone(m, "deny-dotenv", Deny, 10, PathPrefix, ["/.env"], ctx);
    assert ["/.env"][0] == "/.env";
    AppliesAlone(m, "deny-trace-methods", Deny, 20, Method, ["TRACE", "TRACK"], ctx);
    assert ["TRACE", "TRACK"][0] == "TRACE" && ["TRACE", "TRACK"][1] == "TRACK";
  }

  lemma OneOfThree(m: Matcher, rules: seq<Rule>, ctx: Context)
    requires |rules| == 3
    ensures (exists j :: 0 <= j < |rules| && Denies(m, rules[j], ctx)) <==>
              Denies(m, rules[0], ctx) || Denies(m, rules[1], ctx) || Denies(m, rules[2], ctx)
  {
    hide Denies;
  }

  /** The balanced mode denies exactly requests for repository data or a dotenv file and the tracing methods. */
  lemma BalancedDeniesExactly(lib: Library, ctx: Context)
    ensures Evaluated(Matching(lib), Inserted(DefaultRules(Balanced)), ctx).0 == Deny <==>
              ctx.phase == REQUEST && Suspicious(lib, ctx)
  {
    hide Evaluated, Inserted, Denies, Suspicious;
    CommonApply(lib, ctx);
    OneOfThree(Matching(lib), CommonRules(Deny), ctx);
    DeniedExactly(Matching(lib), DefaultRules(Balanced), ctx);
    assert DefaultRules(Balanced) == CommonRules(Deny);
  }

  /** With the rules off every request is allowed. */
  lemma OffAllowsAll(m: Matcher, ctx: Context)
    ensures Evaluated(m, Inserted(DefaultRules(Off)), ctx) == (Allow, None)
  {}
}
