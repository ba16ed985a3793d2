/**
 What the policy engine answers (internal/policy/engine.go:141-336, internal/policy/mode.go:53-199),
 told by the request: how one value of each kind matches, when a rule counts at all, and what becomes
 of a request in each of the four modes.
 */
module PolicyLaws {
  import opened Common
  import opened Policy
  import CgiLaws
  import CgiResponse

  // ---------------------------------------------------------------------------------------------
  // One value of each kind
  // ---------------------------------------------------------------------------------------------

  /** Does an engine with one rule of one value deny the request? */
  predicate DeniedBy(lib: Library, kind: Kind, value: string, ctx: Context) {
    Evaluated(Matching(lib), Inserted([OneCondition("rule", Deny, 0, kind, [value])]), ctx).0 == Deny
  }

  lemma OneValue(lib: Library, kind: Kind, value: string, ctx: Context)
    ensures DeniedBy(lib, kind, value, ctx) <==> ctx.phase == "request" && ValueMatches(lib, kind, value, ctx)
  {
    hide Evaluated, Inserted, ValueMatches, Applies;
    AppliesAlone(Matching(lib), "rule", Deny, 0, kind, [value], ctx);
    OneRule(Matching(lib), OneCondition("rule", Deny, 0, kind, [value]), ctx);
    assert [value][0] == value;
  }

  lemma OneRule(m: Matcher, rule: Rule, ctx: Context)
    ensures Evaluated(m, Inserted([rule]), ctx).0 == Deny <==> Denies(m, rule, ctx)
  {
    hide Evaluated, Inserted, Denies;
    DeniedExactly(m, [rule], ctx);
    assert [rule][0] == rule;
  }

  /** Path, method, host, address and scheme. */
  lemma PlainKinds(lib: Library, value: string, ctx: Context)
    requires ctx.phase == "request"
    ensures DeniedBy(lib, Path, value, ctx) <==> value == ctx.path
    ensures DeniedBy(lib, PathPrefix, value, ctx) <==> |value| <= |ctx.path| && ctx.path[..|value|] == value
    ensures DeniedBy(lib, PathRegex, value, ctx) <==> lib.regex(value, ctx.path)
    ensures DeniedBy(lib, Method, value, ctx) <==> lib.fold(value, ctx.verb)
    ensures DeniedBy(lib, Host, value, ctx) <==> lib.fold(value, ctx.host)
    ensures DeniedBy(lib, Ip, value, ctx) <==> lib.sameIp(value, ctx.remoteIp)
    ensures DeniedBy(lib, IpRange, value, ctx) <==> lib.inRange(value, ctx.remoteIp)
    ensures DeniedBy(lib, Scheme, value, ctx) <==> value == (if ctx.tls then "https" else "http")
    ensures forall name :: !DeniedBy(lib, Unknown(name), value, ctx)
  {
    hide DeniedBy;
    OneValue(lib, Path, value, ctx);
    OneValue(lib, PathPrefix, value, ctx);
    OneValue(lib, PathRegex, value, ctx);
    OneValue(lib, Method, value, ctx);
    OneValue(lib, Host, value, ctx);
    OneValue(lib, Ip, value, ctx);
    OneValue(lib, IpRange, value, ctx);
    OneValue(lib, Scheme, value, ctx);
    forall name ensures !DeniedBy(lib, Unknown(name), value, ctx) { OneValue(lib, Unknown(name), value, ctx); }
    assert "https"[4] == 's' && |"http"| == 4;
  }

  /** A header matches when the first of its values is the one asked for; without one, when none is asked for. */
  lemma HeaderKind(lib: Library, name: string, value: string, fields: seq<CgiResponse.Field>, ctx: Context)
    requires ctx.phase == "request" && ctx.headers == CgiResponse.Grouped(fields)
    requires ':' !in name && CgiResponse.Trimmed(name) && CgiResponse.Trimmed(value)
    ensures var values := CgiResponse.ValuesOf(fields, CgiResponse.Canonical(name));
            DeniedBy(lib, Header, name + ": " + value, ctx) <==>
              if values == [] then value == "" else values[0] == value
  {
    var whole, rest := name + ": " + value, " " + value;
    OneValue(lib, Header, whole, ctx);
    hide DeniedBy, CgiResponse.TrimSpace, CgiResponse.Find, CgiResponse.Grouped, CgiResponse.ValuesOf;
    hide CgiResponse.Trimmed, CgiResponse.Canonical;
    CutAt(name, ':', rest);
    assert name + ([':'] + rest) == whole;
    CgiResponse.TrimmedIsKept(name);
    CgiResponse.TrimmedIsKept(value);
    CgiResponse.GroupedByName(fields, CgiResponse.Canonical(name));
  }

  lemma CutAt(name: string, sep: char, rest: string)
    requires sep !in name
    ensures Cut(name + ([sep] + rest), sep) == Some((name, rest))
  {
    hide CgiResponse.Find;
    CgiResponse.FindSkip(name, [sep] + rest, [sep]);
    CgiResponse.FindHere([sep] + rest, [sep]);
    var s := name + ([sep] + rest);
    assert s[..|name|] == name && s[|name| + 1..] == rest;
  }

  /** A parameter by name and value; one that the query does not parse to may still stand in its text. */
  lemma QueryKind(lib: Library, name: string, value: string, ctx: Context)
    requires ctx.phase == "request" && '=' !in name
    ensures DeniedBy(lib, QueryParam, name + "=" + value, ctx) <==>
              if name in ctx.params then value in ctx.params[name] else Within(name + "=" + value, ctx.query)
    ensures DeniedBy(lib, QueryParam, name, ctx) <==> name in ctx.params || Within(name, ctx.query)
  {
    OneValue(lib, QueryParam, name + "=" + value, ctx);
    OneValue(lib, QueryParam, name, ctx);
    hide DeniedBy, CgiResponse.Find;
    CutAt(name, '=', value);
    assert name + (['='] + value) == name + "=" + value;
    CgiResponse.FindSkip(name, "", ['=']);
    CgiResponse.FindNone("", ['=']);
    assert name + "" == name;
    FindIsWithin(ctx.query, name);
    FindIsWithin(ctx.query, name + "=" + value);
  }

  predicate StandsAt(part: string, text: string, i: nat) {
    i + |part| <= |text| && text[i..i + |part|] == part
  }

  /** Some part of the text is this string. */
  ghost predicate Within(part: string, text: string) {
    exists i :: StandsAt(part, text, i)
  }

  lemma {:induction false} FindIsWithin(text: string, part: string)
    ensures CgiResponse.Find(text, part).Some? <==> Within(part, text)
    decreases |text|
  {
    hide CgiResponse.Find;
    if part <= text {
      CgiResponse.FindHere(text, part);
      assert StandsAt(part, text, 0);
    } else if text != "" {
      FindIsWithin(text[1..], part);
      CgiResponse.NotAtFront(text, part);
      if i: nat :| StandsAt(part, text, i) {
        assert i != 0;
        StandsLater(part, text, i - 1);
      }
      if i: nat :| StandsAt(part, text[1..], i) { StandsLater(part, text, i); }
    } else {
      CgiResponse.FindNone("", part);
    }
  }

  lemma StandsLater(part: string, text: string, i: nat)
    requires text != ""
    ensures StandsAt(part, text, i + 1) <==> StandsAt(part, text[1..], i)
  {
    if i + 1 + |part| <= |text| { assert text[i + 1..i + 1 + |part|] == text[1..][i..i + |part|]; }
  }

  /** A body larger than the number given, zeros in front and its sign included, if that fits 64 bits. */
  lemma BodyKind(lib: Library, n: nat, zeros: nat, ctx: Context)
    requires ctx.phase == "request"
    ensures var s := seq(zeros, _ => '0') + CgiLaws.Decimal(n);
            && (DeniedBy(lib, BodySize, s, ctx) <==> n < 9223372036854775808 && ctx.bodySize > n)
            && (DeniedBy(lib, BodySize, "+" + s, ctx) <==> n < 9223372036854775808 && ctx.bodySize > n)
            && (DeniedBy(lib, BodySize, "-" + s, ctx) <==> n <= 9223372036854775808 && ctx.bodySize + n > 0)
  {
    hide *;
    CgiLaws.NumberReads(n, zeros);
    var s := seq(zeros, _ => '0') + CgiLaws.Decimal(n);
    BodyValue(lib, s, n, ctx);
    BodyValue(lib, "+" + s, n, ctx);
    BodyValue(lib, "-" + s, CgiResponse.Atoi("-" + s).value, ctx);
  }

  lemma BodyValue(lib: Library, value: string, n: int, ctx: Context)
    requires ctx.phase == "request" && CgiResponse.Atoi(value) == Some(n)
    ensures DeniedBy(lib, BodySize, value, ctx) <==>
              -9223372036854775808 <= n < 9223372036854775808 && ctx.bodySize > n
  {
    OneValue(lib, BodySize, value, ctx);
    hide DeniedBy, CgiResponse.Atoi;
  }

  /** What is not a number matches no body. */
  lemma BodyNumber(lib: Library, value: string, ctx: Context)
    requires ctx.phase == "request" && DeniedBy(lib, BodySize, value, ctx)
    ensures var t := if value != "" && value[0] in "+-" then value[1..] else value;
            t != "" && forall i :: 0 <= i < |t| ==> t[i] in "0123456789"
  {
    OneValue(lib, BodySize, value, ctx);
    hide DeniedBy, CgiResponse.Atoi;
    CgiLaws.NumberRefused(value);
  }

  // ---------------------------------------------------------------------------------------------
  // Which rules count
  // ---------------------------------------------------------------------------------------------

  /** Some value of the kind matches. */
  ghost predicate SomeMatch(m: Matcher, kind: Kind, values: seq<string>, ctx: Context) {
    exists v :: v in values && m(kind, v, ctx)
  }

  /** In its phase, with every condition met (or, if negated, not met) and no exclusion. */
  ghost predicate Live(m: Matcher, r: Rule, ctx: Context) {
    && r.phase == ctx.phase
    && (forall c :: c in r.conditions ==> SomeMatch(m, c.kind, c.values, ctx) == !c.negate)
    && (forall e :: e in r.exclusions ==> !SomeMatch(m, e.kind, e.values, ctx))
  }

  lemma LiveApplies(m: Matcher, r: Rule, ctx: Context)
    ensures Live(m, r, ctx) <==> Applies(m, r, ctx)
  {
    forall c: Condition ensures SomeMatch(m, c.kind, c.values, ctx) == !c.negate <==> Matches(m, c, ctx) {
      SomeIsIndexed(m, c.kind, c.values, ctx);
    }
    forall e: Exclusion ensures SomeMatch(m, e.kind, e.values, ctx) <==> Excluded(m, e, ctx) {
      SomeIsIndexed(m, e.kind, e.values, ctx);
    }
    hide SomeMatch, Matches, Excluded;
  }

  lemma SomeIsIndexed(m: Matcher, kind: Kind, values: seq<string>, ctx: Context)
    ensures SomeMatch(m, kind, values, ctx) <==> exists i :: 0 <= i < |values| && m(kind, values[i], ctx)
  {
    if v :| v in values && m(kind, v, ctx) {
      var i :| 0 <= i < |values| && values[i] == v;
    }
  }

  lemma {:induction false} DeadIsIgnored(m: Matcher, front: seq<Rule>, r: Rule, back: seq<Rule>, ctx: Context)
    requires !Applies(m, r, ctx)
    ensures Evaluated(m, front + [r] + back, ctx) == Evaluated(m, front + back, ctx)
    decreases |back|
  {
    hide Applies;
    if back == [] {
      assert (front + [r] + back)[..|front|] == front && front + back == front;
    } else {
      var init, last := back[..|back| - 1], back[|back| - 1];
      DeadIsIgnored(m, front, r, init, ctx);
      assert (front + [r] + back)[..|front| + 1 + |init|] == front + [r] + init;
      assert (front + back)[..|front| + |init|] == front + init;
    }
  }

  /** Where a rule stands among the others once inserted. */
  lemma {:induction false} InsertedAround(a: seq<Rule>, r: Rule, b: seq<Rule>) returns (p: nat)
    ensures IsWithout(Inserted(a + [r] + b), Inserted(a + b), r, p)
    decreases |b|
  {
    hide *;
    if b == [] {
      assert a + [r] + b == a + [r] && a + b == a;
      p := InsertedLast(Inserted(a), r, a);
    } else {
      var init, last := b[..|b| - 1], b[|b| - 1];
      var q := InsertedAround(a, r, init);
      AddedIsStableSort(a + [r] + init, 0);
      AddedIsStableSort(a + init, 0);
      InsertedSnoc(a + [r] + init, last);
      InsertedSnoc(a + init, last);
      SplitLast(a, r, b);
      p := InsertBeside(Inserted(a + init), r, q, last, Inserted(a + [r] + init));
    }
  }

  lemma SplitLast(a: seq<Rule>, r: Rule, b: seq<Rule>)
    requires b != []
    ensures a + [r] + b == (a + [r] + b[..|b| - 1]) + [b[|b| - 1]] && a + b == (a + b[..|b| - 1]) + [b[|b| - 1]]
  {}

  lemma InsertedLast(rules: seq<Rule>, r: Rule, a: seq<Rule>) returns (p: nat)
    requires rules == Inserted(a)
    ensures IsWithout(Inserted(a + [r]), rules, r, p)
  {
    hide Insert, Inserted;
    AddedIsStableSort(a, 0);
    InsertedSnoc(a, r);
    p := PlaceOf(rules, r);
    InsertAt(rules, r, p);
  }

  /** `all` is `others` with this rule at place p. */
  predicate IsWithout(all: seq<Rule>, others: seq<Rule>, r: Rule, p: nat) {
    p <= |others| && all == others[..p] + [r] + others[p..]
  }

  lemma InsertedSnoc(added: seq<Rule>, last: Rule)
    ensures Inserted(added + [last]) == Insert(Inserted(added), last)
  {
    hide Insert;
    assert (added + [last])[..|added|] == added;
  }

  /** Inserting past a rule, or before it. */
  lemma InsertBeside(others: seq<Rule>, r: Rule, q: nat, last: Rule, all: seq<Rule>) returns (p: nat)
    requires IsWithout(all, others, r, q) && Sorted(others) && Sorted(all)
    ensures IsWithout(Insert(all, last), Insert(others, last), r, p)
  {
    hide Insert;
    var k := PlaceOf(all, last);
    var j := PlaceOf(others, last);
    InsertAt(all, last, k);
    InsertAt(others, last, j);
    BesidePlace(others, r, q, last, all, k, j);
    p := if j < q || (j == q && k == q) then q + 1 else q;
    hide Sorted;
    BesideEqual(others, r, q, last, k, j);
  }

  lemma BesidePlace(others: seq<Rule>, r: Rule, q: nat, last: Rule, all: seq<Rule>, k: nat, j: nat)
    requires q <= |others| && all == others[..q] + [r] + others[q..] && Sorted(all)
    requires k <= |all| && j <= |others|
    requires forall a :: 0 <= a < k ==> all[a].priority <= last.priority
    requires forall a :: k <= a < |all| ==> last.priority < all[a].priority
    requires forall a :: 0 <= a < j ==> others[a].priority <= last.priority
    requires forall a :: j <= a < |others| ==> last.priority < others[a].priority
    ensures k == if j < q then j else if j > q then j + 1 else if r.priority <= last.priority then q + 1 else q
  {
    var t := if j < q then j else if j > q then j + 1 else if r.priority <= last.priority then q + 1 else q;
    hide Sorted;
    assert all[q] == r;
    assert t > 0 ==> all[t - 1] == if j < q then others[j - 1] else if j > q then others[j - 1]
                                   else if t == q then others[q - 1] else r;
    assert t < |all| ==> all[t] == if j == t == q then r else others[j];
    assert t > 0 ==> all[t - 1].priority <= last.priority;
    assert t < |all| ==> last.priority < all[t].priority;
  }

  lemma BesideEqual(others: seq<Rule>, r: Rule, q: nat, last: Rule, k: nat, j: nat)
    requires q <= |others| && j <= |others|
    requires k == j < q || (k == q == j) || (k == j + 1 > q + 1) || (j == q && k == q + 1)
    ensures var all, more := others[..q] + [r] + others[q..], others[..j] + [last] + others[j..];
            var p := if j < q || (j == q && k == q) then q + 1 else q;
            all[..k] + [last] + all[k..] == more[..p] + [r] + more[p..]
  {
    var all, more := others[..q] + [r] + others[q..], others[..j] + [last] + others[j..];
    var p := if j < q || (j == q && k == q) then q + 1 else q;
    var x, y := all[..k] + [last] + all[k..], more[..p] + [r] + more[p..];
    assert |x| == |y| == |others| + 2;
    forall i | 0 <= i < |x| ensures x[i] == y[i] {
      PutIn(all, last, k, i);
      PutIn(more, r, p, i);
      if i != k { PutIn(others, r, q, if i < k then i else i - 1); }
      if i != p { PutIn(others, last, j, if i < p then i else i - 1); }
    }
  }

  lemma PutIn(rules: seq<Rule>, r: Rule, p: nat, i: nat)
    requires p <= |rules| && i <= |rules|
    ensures (rules[..p] + [r] + rules[p..])[i] == if i < p then rules[i] else if i == p then r else rules[i - 1]
  {}

  /** A rule that does not count is as good as never added, wherever it was. */
  lemma DeadDecidesNothing(m: Matcher, a: seq<Rule>, r: Rule, b: seq<Rule>, ctx: Context)
    requires !Live(m, r, ctx)
    ensures Evaluated(m, Inserted(a + [r] + b), ctx) == Evaluated(m, Inserted(a + b), ctx)
  {
    LiveApplies(m, r, ctx);
    hide Live, Applies, Inserted, Evaluated;
    var p := InsertedAround(a, r, b);
    var others := Inserted(a + b);
    DeadIsIgnored(m, others[..p], r, others[p..], ctx);
    assert others[..p] + others[p..] == others;
  }

  /** In particular one of the wrong phase, or one with an exclusion some value of which matches. */
  lemma ExcludedDecidesNothing(m: Matcher, a: seq<Rule>, r: Rule, b: seq<Rule>, e: Exclusion, v: string, ctx: Context)
    requires r.phase != ctx.phase || (e in r.exclusions && v in e.values && m(e.kind, v, ctx))
    ensures Evaluated(m, Inserted(a + [r] + b), ctx) == Evaluated(m, Inserted(a + b), ctx)
  {
    assert !Live(m, r, ctx) by { if r.phase == ctx.phase { assert SomeMatch(m, e.kind, e.values, ctx); } }
    hide *;
    DeadDecidesNothing(m, a, r, b, ctx);
  }

  /** And denied is exactly what some live rule that denies. */
  lemma DeniedByLive(m: Matcher, added: seq<Rule>, ctx: Context)
    ensures Evaluated(m, Inserted(added), ctx).0 == Deny <==>
              exists r :: r in added && r.mode == Deny && Live(m, r, ctx)
  {
    hide Evaluated, Inserted, Applies, Live;
    DeniedExactly(m, added, ctx);
    forall r ensures Live(m, r, ctx) <==> Applies(m, r, ctx) { LiveApplies(m, r, ctx); }
    if r :| r in added && r.mode == Deny && Live(m, r, ctx) {
      var j :| 0 <= j < |added| && added[j] == r;
      assert Denies(m, added[j], ctx);
    }
  }

  // ---------------------------------------------------------------------------------------------
  // The four modes
  // ---------------------------------------------------------------------------------------------

  /** What the two further rules of the strict mode deny. */
  predicate Stray(lib: Library, ctx: Context) {
    lib.fold("CONNECT", ctx.verb) || lib.regex("\\.(bak|swp|orig|rej|save|old)$", ctx.path)
  }

  lemma StrayApplies(lib: Library, ctx: Context)
    ensures var m, rules := Matching(lib), StrictRules();
            Applies(m, rules[0], ctx) || Applies(m, rules[1], ctx) <==> ctx.phase == "request" && Stray(lib, ctx)
  {
    hide Applies;
    var m, artifacts := Matching(lib), ["\\.(bak|swp|orig|rej|save|old)$"];
    AppliesAlone(m, "deny-connect-method", Deny, 20, Method, ["CONNECT"], ctx);
    assert ["CONNECT"][0] == "CONNECT";
    AppliesAlone(m, "deny-editor-artifacts", Deny, 30, PathRegex, artifacts, ctx);
    assert artifacts[0] == "\\.(bak|swp|orig|rej|save|old)$";
  }

  /** The strict mode denies, besides, the CONNECT method and the files that editors and backups leave. */
  lemma StrictDeniesExactly(lib: Library, ctx: Context)
    ensures Evaluated(Matching(lib), Inserted(DefaultRules(Strict)), ctx).0 == Deny <==>
              ctx.phase == "request" && (Suspicious(lib, ctx) || Stray(lib, ctx))
  {
    StrayApplies(lib, ctx);
    hide Evaluated, Inserted, Applies, Suspicious, Stray, DefaultRules;
    StrictDeniesMore(Matching(lib), ctx);
    BalancedDeniesExactly(lib, ctx);
  }

  /** The middleware with the rules of its mode. */
  function Answer(lib: Library, mode: Mode, ctx: Context): Outcome {
    var (decision, matched) := Evaluated(Matching(lib), Inserted(DefaultRules(mode)), ctx);
    Verdict(mode, decision, matched)
  }

  /** What becomes of a request: forbidden, flagged or served, by the mode and the request alone. */
  lemma AnswersExactly(lib: Library, mode: Mode, ctx: Context)
    ensures var caught := ctx.phase == "request" && (Suspicious(lib, ctx) || (mode == Strict && Stray(lib, ctx)));
            && (Answer(lib, mode, ctx).Forbidden? <==> caught && mode in {Balanced, Strict})
            && (Answer(lib, mode, ctx).Flagged? <==> caught && mode == Observing)
  {
    hide Evaluated, Inserted, Suspicious, Stray, DefaultRules;
    StrictDeniesExactly(lib, ctx);
    BalancedDeniesExactly(lib, ctx);
    ObserveFlagsWhatBalancedDenies(Matching(lib), ctx);
    if mode in {Balanced, Strict} { OnlyDenies(Matching(lib), mode, ctx); }
    if mode == Off { OffAllowsAll(Matching(lib), ctx); }
  }

  lemma OnlyDenies(m: Matcher, mode: Mode, ctx: Context)
    requires mode in {Balanced, Strict}
    ensures Evaluated(m, Inserted(DefaultRules(mode)), ctx).0 in {Allow, Deny}
  {
    AllDeny(mode);
    hide *;
    AddedIsStableSort(DefaultRules(mode), 0);
    DenyOrAllow(m, Inserted(DefaultRules(mode)), DefaultRules(mode), ctx);
  }

  lemma AllDeny(mode: Mode)
    requires mode in {Balanced, Strict}
    ensures forall r :: r in DefaultRules(mode) ==> r.mode == Deny
  {}

  lemma DenyOrAllow(m: Matcher, rules: seq<Rule>, added: seq<Rule>, ctx: Context)
    requires (forall r :: r in rules ==> r in added) && forall r :: r in added ==> r.mode == Deny
    ensures Evaluated(m, rules, ctx).0 in {Allow, Deny}
  {
    hide Evaluated, Softened;
    assert forall i :: 0 <= i < |rules| ==> rules[i] in rules;
    SoftenedObserves(m, rules, ctx);
  }

  /** Does the rule at this place of the strict rules catch the request? */
  predicate Catches(lib: Library, i: nat, ctx: Context) {
    match i
    case 0 => "/.git/" <= ctx.path || "/.svn/" <= ctx.path || "/.hg/" <= ctx.path || "/.bzr/" <= ctx.path
    case 1 => "/.env" <= ctx.path
    case 2 => lib.fold("TRACE", ctx.verb) || lib.fold("TRACK", ctx.verb)
    case 3 => lib.fold("CONNECT", ctx.verb)
    case 4 => lib.regex("\\.(bak|swp|orig|rej|save|old)$", ctx.path)
    case _ => false
  }

  const NAMES := ["deny-vcs-metadata", "deny-dotenv", "deny-trace-methods",
                  "deny-connect-method", "deny-editor-artifacts"]

  /** The rule that a forbidden request is told: the first that catches it. */
  lemma ForbiddenByName(lib: Library, mode: Mode, i: nat, ctx: Context)
    requires mode in {Balanced, Strict} && ctx.phase == "request" && i < (if mode == Strict then 5 else 3)
    requires Catches(lib, i, ctx) && forall j :: 0 <= j < i ==> !Catches(lib, j, ctx)
    ensures Answer(lib, mode, ctx) == Forbidden(NAMES[i])
  {
    var m, rules := Matching(lib), DefaultRules(mode);
    RulesInOrder(mode);
    forall j | 0 <= j < |rules| ensures Denies(m, rules[j], ctx) <==> Catches(lib, j, ctx) {
      CatchesExactly(lib, mode, j, ctx);
    }
    hide Evaluated, Inserted, Denies, Catches, DefaultRules;
    FirstIsFirst(m, rules, i, ctx);
    hide FirstDenier, NAMES;
    DeniedExactly(m, rules, ctx);
  }

  lemma FirstIsFirst(m: Matcher, rules: seq<Rule>, i: nat, ctx: Context)
    requires i < |rules| && Denies(m, rules[i], ctx) && forall j :: 0 <= j < i ==> !Denies(m, rules[j], ctx)
    requires forall j, k :: 0 <= j < k < |rules| ==> rules[j].priority <= rules[k].priority
    ensures FirstDenier(m, rules, i, ctx)
  {
    hide Denies;
  }

  lemma RulesInOrder(mode: Mode)
    requires mode in {Balanced, Strict}
    ensures var rules := DefaultRules(mode);
            && |rules| == (if mode == Strict then 5 else 3)
            && (forall i :: 0 <= i < |rules| ==> rules[i].name == NAMES[i])
            && (forall i, j :: 0 <= i < j < |rules| ==> rules[i].priority <= rules[j].priority)
  {}

  lemma CatchesExactly(lib: Library, mode: Mode, j: nat, ctx: Context)
    requires mode in {Balanced, Strict} && ctx.phase == "request" && j < |DefaultRules(mode)|
    ensures Denies(Matching(lib), DefaultRules(mode)[j], ctx) <==> Catches(lib, j, ctx)
  {
    hide Applies, ValueMatches;
    var r := DefaultRules(mode)[j];
    var c := r.conditions[0];
    AppliesAlone(Matching(lib), r.name, Deny, r.priority, c.kind, c.values, ctx);
    assert r == OneCondition(r.name, Deny, r.priority, c.kind, c.values);
    CatchesValues(lib, mode, j, ctx);
  }

  lemma CatchesValues(lib: Library, mode: Mode, j: nat, ctx: Context)
    requires mode in {Balanced, Strict} && j < |DefaultRules(mode)|
    ensures var c := DefaultRules(mode)[j].conditions[0];
            (exists i :: 0 <= i < |c.values| && ValueMatches(lib, c.kind, c.values[i], ctx)) <==> Catches(lib, j, ctx)
  {
    var c := DefaultRules(mode)[j].conditions[0];
    var hit := i => 0 <= i < |c.values| && ValueMatches(lib, c.kind, c.values[i], ctx);
    if j == 0 {
      assert |c.values| == 4;
      assert hit(0) <==> "/.git/" <= ctx.path;
      assert hit(1) <==> "/.svn/" <= ctx.path;
      assert hit(2) <==> "/.hg/" <= ctx.path;
      assert hit(3) <==> "/.bzr/" <= ctx.path;
    } else if j == 2 {
      assert |c.values| == 2;
      assert hit(0) <==> lib.fold("TRACE", ctx.verb);
      assert hit(1) <==> lib.fold("TRACK", ctx.verb);
    } else {
      assert |c.values| == 1;
      assert hit(0) <==> Catches(lib, j, ctx);
    }
  }
}
