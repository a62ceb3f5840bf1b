/** src/app/enterprise_authorization.py, with the startup side of the rule check from
    src/app/enterprise_readiness.py. */
module CapabilityRules {
  import opened Values
  import opened Ordering

  const WRITE_METHODS := {"POST", "PUT", "PATCH", "DELETE"}

  datatype Route = Route(verb: string, path: string)

  const SUPPORTED_WRITE_ROUTES := [
    Route("POST", "/analytics/risk/calculate"),
    Route("POST", "/analytics/risk/concentration"),
    Route("POST", "/analytics/risk/drawdown"),
    Route("POST", "/analytics/risk/historical-attribution"),
    Route("POST", "/analytics/risk/mandate-health-context"),
    Route("POST", "/analytics/risk/regime-scenario-pack/evaluate"),
    Route("POST", "/analytics/risk/regime-scenario-pack/jobs"),
    Route("POST", "/analytics/risk/risk-event-cohorts/evaluate"),
    Route("POST", "/analytics/risk/rolling-metrics")
  ]

  /** One entry of the rule dictionary; a list of them keeps the dictionary's order. */
  datatype Rule = Rule(key: string, capability: string)

  // ---------------------------------------------------------------- matching

  /** rstrip("/") */
  function Trimmed(path: string): string {
    if path != "" && path[|path| - 1] == '/' then Trimmed(path[..|path| - 1]) else path
  }

  function Normalized(rulePath: string): string {
    if Trimmed(rulePath) == "" then "/" else Trimmed(rulePath)
  }

  predicate AtOrBelow(path: string, top: string) {
    path == top || top + "/" <= path
  }

  predicate PathMatches(path: string, rulePath: string) {
    AtOrBelow(path, Normalized(rulePath))
  }

  function Prefix(verb: string): string {
    Upper(verb) + " "
  }

  /** The slice of the key after the method prefix, empty for a shorter key. */
  function RulePath(rule: Rule, verb: string): string {
    if |Prefix(verb)| <= |rule.key| then rule.key[|Prefix(verb)|..] else ""
  }

  predicate Applies(rule: Rule, verb: string, path: string) {
    Prefix(verb) <= Upper(rule.key) && PathMatches(path, RulePath(rule, verb))
  }

  function Specificity(rule: Rule, verb: string): nat {
    |Trimmed(RulePath(rule, verb))|
  }

  /** How specific a rule is for a request it applies to. */
  function Score(rule: Rule, verb: string, path: string): Option<nat> {
    if Applies(rule, verb, path) then Some(Specificity(rule, verb)) else None
  }

  function Scores(rules: seq<Rule>, verb: string, path: string): seq<Option<nat>> {
    seq(|rules|, i requires 0 <= i < |rules| => Score(rules[i], verb, path))
  }

  /** The first of the highest scores. */
  ghost predicate FirstBest(scores: seq<Option<nat>>, i: nat) {
    && i < |scores| && scores[i].Some?
    && (forall j | 0 <= j < |scores| && scores[j].Some? :: scores[j].value <= scores[i].value)
    && (forall j | 0 <= j < i && scores[j].Some? :: scores[j].value < scores[i].value)
  }

  /** One pass that keeps the first best score so far. */
  function Best(scores: seq<Option<nat>>): (r: Option<nat>)
    ensures r.None? <==> forall j | 0 <= j < |scores| :: scores[j].None?
    ensures r.Some? ==> FirstBest(scores, r.value)
  {
    if scores == [] then None
    else
      var last := |scores| - 1;
      var before := Best(scores[..last]);
      if scores[last].Some? && (before.None? || scores[before.value].value < scores[last].value)
      then Some(last) else before
  }

  /** The capability of the governing rule: the first of the most specific that apply. */
  function Required(rules: seq<Rule>, verb: string, path: string): Option<string> {
    match Best(Scores(rules, verb, path))
    case None => None
    case Some(i) => Some(rules[i].capability)
  }

  datatype Candidate = Candidate(specificity: nat, capability: string)

  method RequiredCapabilityFromRules(rules: seq<Rule>, verb: string, path: string) returns (capability: Option<string>)
    ensures capability == Required(rules, verb, path)
  {
    ghost var scores := Scores(rules, verb, path);
    var matching: seq<Candidate> := [];
    ghost var from: seq<nat> := [];
    for i := 0 to |rules|
      invariant Collected(scores, rules, i, matching, from)
    {
      var score := Score(rules[i], verb, path);
      assert score == scores[i];
      CollectedStep(scores, rules, i, matching, from);
      if score.Some? {
        matching := matching + [Candidate(score.value, rules[i].capability)];
        from := from + [i];
      }
    }
    if matching == [] {
      return None;
    }
    var best := FirstMaximum(matching);
    capability := Some(matching[best].capability);
    CollectedBest(scores, rules, matching, from, best);
  }

  /** The candidates are the scored rules among the first n, in order. */
  ghost predicate Collected(
      scores: seq<Option<nat>>, rules: seq<Rule>, n: nat, matching: seq<Candidate>, from: seq<nat>)
    requires |scores| == |rules|
  {
    && n <= |rules| && |from| == |matching|
    && (forall k | 0 <= k < |from| ::
          && from[k] < n && scores[from[k]] == Some(matching[k].specificity)
          && matching[k].capability == rules[from[k]].capability)
    && (forall k, l | 0 <= k < l < |from| :: from[k] < from[l])
    && (forall j | 0 <= j < n && scores[j].Some? :: exists k :: 0 <= k < |from| && from[k] == j)
  }

  lemma CollectedStep(scores: seq<Option<nat>>, rules: seq<Rule>, n: nat, matching: seq<Candidate>, from: seq<nat>)
    requires |scores| == |rules| && n < |rules| && Collected(scores, rules, n, matching, from)
    ensures if scores[n].Some? then
              Collected(scores, rules, n + 1, matching + [Candidate(scores[n].value, rules[n].capability)], from + [n])
            else
              Collected(scores, rules, n + 1, matching, from)
  {
    if scores[n].Some? {
      var longer := from + [n];
      forall j | 0 <= j < n + 1 && scores[j].Some? ensures exists k :: 0 <= k < |longer| && longer[k] == j {
        if j < n {
          var k :| 0 <= k < |from| && from[k] == j;
          assert longer[k] == j;
        } else {
          assert longer[|from|] == j;
        }
      }
    }
  }

  ghost predicate FirstMax(matching: seq<Candidate>, best: nat) {
    && best < |matching|
    && (forall l | 0 <= l < |matching| :: matching[l].specificity <= matching[best].specificity)
    && (forall l | 0 <= l < best :: matching[l].specificity < matching[best].specificity)
  }

  /** max(matching_rules, key=...): the first maximum. */
  method FirstMaximum(matching: seq<Candidate>) returns (best: nat)
    requires matching != []
    ensures FirstMax(matching, best)
  {
    best := 0;
    for k := 1 to |matching|
      invariant FirstMax(matching[..k], best)
    {
      if matching[best].specificity < matching[k].specificity {
        best := k;
      }
    }
    assert matching[..|matching|] == matching;
  }

  lemma CollectedBest(scores: seq<Option<nat>>, rules: seq<Rule>, matching: seq<Candidate>, from: seq<nat>, best: nat)
    requires |scores| == |rules| && Collected(scores, rules, |rules|, matching, from) && FirstMax(matching, best)
    ensures Best(scores) == Some(from[best])
  {
    forall j | 0 <= j < |scores| && scores[j].Some?
      ensures scores[j].value <= scores[from[best]].value
      ensures j < from[best] ==> scores[j].value < scores[from[best]].value
    {
      var k :| 0 <= k < |from| && from[k] == j;
    }
    assert FirstBest(scores, from[best]);
    assert FirstBest(scores, Best(scores).value);
  }

  // ---------------------------------------------------------------- what matching means

  /** Matching is by whole segments: the split rule path is a prefix of the split path. */
  lemma {:induction false} AtOrBelowIsSegmentPrefix(path: string, top: string)
    ensures AtOrBelow(path, top) <==> Split(top, '/') <= Split(path, '/')
  {
    if top == "" {
      if path != "" && path[0] != '/' {
        assert Split(path, '/')[0][0] == path[0];
      }
    } else if path == "" {
      if top[0] != '/' {
        assert Split(top, '/')[0][0] == top[0];
      }
    } else {
      AtOrBelowIsSegmentPrefix(path[1..], top[1..]);
      AtOrBelowHead(path, top);
      SplitHead(path, top);
    }
  }

  lemma AtOrBelowHead(path: string, top: string)
    requires path != "" && top != ""
    ensures AtOrBelow(path, top) <==> path[0] == top[0] && AtOrBelow(path[1..], top[1..])
  {
    assert path == [path[0]] + path[1..] && top == [top[0]] + top[1..];
    assert (top + "/")[1..] == top[1..] + "/";
  }

  lemma PrefixCons(x: string, xs: seq<string>, y: string, ys: seq<string>)
    ensures [y] + ys <= [x] + xs <==> y == x && ys <= xs
  {
    var longer, shorter := [x] + xs, [y] + ys;
    if shorter <= longer {
      assert longer[0] == shorter[0];
      assert forall i | 0 <= i < |ys| :: ys[i] == shorter[i + 1] == longer[i + 1] == xs[i];
    }
  }

  lemma SplitHead(path: string, top: string)
    requires path != "" && top != ""
    ensures Split(top, '/') <= Split(path, '/')
       <==> path[0] == top[0] && Split(top[1..], '/') <= Split(path[1..], '/')
  {
    var p, t := Split(path[1..], '/'), Split(top[1..], '/');
    var ph := if path[0] == '/' then "" else [path[0]] + p[0];
    var th := if top[0] == '/' then "" else [top[0]] + t[0];
    PrefixCons(ph, if path[0] == '/' then p else p[1..], th, if top[0] == '/' then t else t[1..]);
    if path[0] != '/' && top[0] != '/' {
      PrefixCons(p[0], p[1..], t[0], t[1..]);
      assert p == [p[0]] + p[1..] && t == [t[0]] + t[1..];
      assert ph[1..] == p[0] && th[1..] == t[0];
    }
  }

  lemma AtOrBelowTransitive(path: string, middle: string, top: string)
    requires AtOrBelow(path, middle) && AtOrBelow(middle, top)
    ensures AtOrBelow(path, top)
  {
  }

  /** Two rules that apply to one request with equal specificity name the same path. */
  lemma EqualSpecificitySamePath(a: Rule, b: Rule, verb: string, path: string)
    requires Applies(a, verb, path) && Applies(b, verb, path)
    requires Specificity(a, verb) == Specificity(b, verb)
    ensures Normalized(RulePath(a, verb)) == Normalized(RulePath(b, verb))
  {
    var x, y := Normalized(RulePath(a, verb)), Normalized(RulePath(b, verb));
    assert |x| == |y|;
    assert x == path[..|x|] && y == path[..|y|];
  }

  /** The order of the rules matters only among rules that name the same method and path:
      when those agree on the capability, every reordering gives the same answer. */
  lemma OrderIrrelevant(a: seq<Rule>, b: seq<Rule>, verb: string, path: string)
    requires multiset(a) == multiset(b)
    requires forall i, j | 0 <= i < |a| && 0 <= j < |a| && Applies(a[i], verb, path) && Applies(a[j], verb, path)
                           && Normalized(RulePath(a[i], verb)) == Normalized(RulePath(a[j], verb)) ::
               a[i].capability == a[j].capability
    ensures Required(a, verb, path) == Required(b, verb, path)
  {
    forall i | 0 <= i < |a| ensures a[i] in b {
      assert a[i] in multiset(b);
    }
    forall i | 0 <= i < |b| ensures b[i] in a {
      assert b[i] in multiset(a);
    }
    var x, y := Scores(a, verb, path), Scores(b, verb, path);
    if Best(x).Some? {
      var l :| 0 <= l < |b| && b[l] == a[Best(x).value];
      assert y[l] == x[Best(x).value];
    }
    if Best(y).Some? {
      var k :| 0 <= k < |a| && a[k] == b[Best(y).value];
      assert x[k] == y[Best(y).value];
      EqualSpecificitySamePath(a[Best(x).value], a[k], verb, path);
    }
  }

  /** Nothing is left of a rule path exactly when it is of slashes alone. */
  lemma {:induction false} TrimmedAwayExactly(rulePath: string)
    ensures Trimmed(rulePath) == "" <==> forall i | 0 <= i < |rulePath| :: rulePath[i] == '/'
  {
    if rulePath != "" && rulePath[|rulePath| - 1] == '/' {
      TrimmedAwayExactly(rulePath[..|rulePath| - 1]);
    }
  }

  /** A rule path of slashes alone is no catch-all: it reaches only "/" itself and paths that
      begin "//". */
  lemma RootRuleReachesOnlyRoot(path: string, rulePath: string)
    requires Trimmed(rulePath) == ""
    ensures PathMatches(path, rulePath) <==> path == "/" || "//" <= path
  {
    assert "/" + "/" == "//";
  }

  /** The rule path reaches, of the absolute paths, exactly those at or below it. */
  ghost predicate ReachesAllBelow(rulePath: string) {
    forall path: string | "/" <= path :: PathMatches(path, rulePath) <==> AtOrBelow(path, Trimmed(rulePath))
  }

  /** A rule path is the path prefix it is documented to be exactly when it is not of slashes
      alone: as the prefix of all absolute paths those would be reached by each of them. */
  lemma PrefixRuleExactly(rulePath: string)
    ensures ReachesAllBelow(rulePath) <==> Trimmed(rulePath) != ""
    ensures Trimmed(rulePath) == "" ==> forall path: string | "/" <= path :: AtOrBelow(path, Trimmed(rulePath))
  {
    if Trimmed(rulePath) == "" {
      var path := "/x";
      RootRuleReachesOnlyRoot(path, rulePath);
      assert "" + "/" == "/";
      assert path[1] == 'x' && AtOrBelow(path, "");
    }
  }

  // ---------------------------------------------------------------- loading

  /** str.partition(" "): the two sides of the first space. */
  function BeforeSpace(key: string): string {
    if key == "" || key[0] == ' ' then "" else [key[0]] + BeforeSpace(key[1..])
  }

  function AfterSpace(key: string): Option<string> {
    if key == "" then None
    else if key[0] == ' ' then Some(key[1..])
    else AfterSpace(key[1..])
  }

  predicate ValidRule(key: string, value: Json) {
    && value.Str? && Strip(value.text) != ""
    && key == Strip(key) && value.text == Strip(value.text)
    && AfterSpace(key).Some?
    && Upper(BeforeSpace(key)) in WRITE_METHODS
    && "/" <= AfterSpace(key).value
  }

  /** The well-formed entries of the configured dictionary, in its order. */
  function LoadRules(entries: seq<(string, Json)>): (rules: seq<Rule>)
    ensures forall key, value ::
              Rule(key, value) in rules <==> (key, Str(value)) in entries && ValidRule(key, Str(value))
  {
    if entries == [] then []
    else if ValidRule(entries[0].0, entries[0].1) then
      [Rule(entries[0].0, entries[0].1.text)] + LoadRules(entries[1..])
    else LoadRules(entries[1..])
  }

  lemma {:induction false} PartitionOf(verb: string, path: string)
    requires ' ' !in verb
    ensures BeforeSpace(verb + " " + path) == verb && AfterSpace(verb + " " + path) == Some(path)
  {
    var key := verb + " " + path;
    if verb == "" {
      assert key[0] == ' ' && key[1..] == path;
    } else {
      assert key[0] == verb[0] && key[1..] == verb[1..] + " " + path;
      PartitionOf(verb[1..], path);
    }
  }

  /** Rules of slashes alone are loaded like any other. */
  lemma SlashRuleIsValid(verb: string, path: string, capability: string)
    requires Upper(verb) in WRITE_METHODS && ' ' !in verb && !IsSpace(verb[0])
    requires path != "" && Trimmed(path) == ""
    requires capability != "" && Strip(capability) == capability
    ensures ValidRule(verb + " " + path, Str(capability))
  {
    var key := verb + " " + path;
    TrimmedAwayExactly(path);
    PartitionOf(verb, path);
    assert key[0] == verb[0] && key[|key| - 1] == path[|path| - 1] == '/';
    assert StripLeft(key) == key;
  }

  /** For a key that starts with the method prefix, the prefix slice used at request time and
      the partition used when loading yield the same method and path. */
  lemma {:induction false} SliceIsPartition(key: string, verb: string)
    requires Prefix(verb) <= Upper(key) && ' ' !in verb
    ensures AfterSpace(key) == Some(key[|Prefix(verb)|..])
    ensures Upper(BeforeSpace(key)) == Upper(verb)
  {
    assert Upper(key)[0] == Prefix(verb)[0] && UpperChar(key[0]) == Prefix(verb)[0];
    if verb == "" {
      assert key[0] == ' ';
    } else {
      assert verb[0] in verb;
      assert key[0] != ' ';
      var k, v := key[1..], verb[1..];
      assert Upper(k) == Upper(key)[1..] && Upper(v) == Upper(verb)[1..];
      assert Prefix(v) == Prefix(verb)[1..];
      SliceIsPartition(k, v);
      assert k[|Prefix(v)|..] == key[|Prefix(verb)|..];
      assert BeforeSpace(key) == [key[0]] + BeforeSpace(k);
      assert Upper(BeforeSpace(key)) == [UpperChar(key[0])] + Upper(BeforeSpace(k));
      assert Upper(verb) == [UpperChar(verb[0])] + Upper(v);
    }
  }

  // ---------------------------------------------------------------- startup

  function MissingRoutesAmong(routes: seq<Route>, rules: seq<Rule>): (missing: seq<Route>)
    ensures forall r :: r in missing <==> r in routes && Required(rules, r.verb, r.path).None?
  {
    if routes == [] then []
    else if Required(rules, routes[0].verb, routes[0].path).None? then
      [routes[0]] + MissingRoutesAmong(routes[1..], rules)
    else MissingRoutesAmong(routes[1..], rules)
  }

  function MissingSupportedWriteRoutes(rules: seq<Rule>): seq<Route> {
    MissingRoutesAmong(SUPPORTED_WRITE_ROUTES, rules)
  }

  datatype Issue = MissingCapabilityRules | MissingCapabilityRuleFor(route: Route) | OtherIssue(code: string)

  datatype Startup = Started(issues: seq<Issue>) | Refused(issues: seq<Issue>)

  /** list(dict.fromkeys(issues)): the first occurrence of each. */
  function Deduplicated(issues: seq<Issue>): (r: seq<Issue>)
    ensures forall x :: x in r <==> x in issues
    ensures forall i, j | 0 <= i < j < |r| :: r[i] != r[j]
  {
    if issues == [] then []
    else
      var init := Deduplicated(issues[..|issues| - 1]);
      if issues[|issues| - 1] in init then init else init + [issues[|issues| - 1]]
  }

  /** Each of the routes has a rule. */
  predicate Covered(routes: seq<Route>, rules: seq<Rule>) {
    forall i | 0 <= i < |routes| :: Required(rules, routes[i].verb, routes[i].path).Some?
  }

  lemma NoneMissingExactly(routes: seq<Route>, rules: seq<Rule>)
    ensures MissingRoutesAmong(routes, rules) == [] <==> Covered(routes, rules)
  {
    var missing := MissingRoutesAmong(routes, rules);
    if missing == [] {
      assert forall i | 0 <= i < |routes| :: routes[i] in routes && routes[i] !in missing;
    } else {
      assert missing[0] in missing;
    }
  }

  function RuleIssues(missing: seq<Route>): (issues: seq<Issue>) {
    seq(|missing|, i requires 0 <= i < |missing| => MissingCapabilityRuleFor(missing[i]))
  }

  function BankIssuesOver(routes: seq<Route>, rules: seq<Rule>, before: seq<Issue>, after: seq<Issue>): seq<Issue> {
    before + (if rules == [] then [MissingCapabilityRules] else [])
    + RuleIssues(MissingRoutesAmong(routes, rules)) + after
  }

  function BankIssues(rules: seq<Rule>, before: seq<Issue>, after: seq<Issue>): seq<Issue> {
    BankIssuesOver(SUPPORTED_WRITE_ROUTES, rules, before, after)
  }

  function StartupOutcome(
      enforced: bool, rules: seq<Rule>, base: seq<Issue>, before: seq<Issue>, after: seq<Issue>): Startup
  {
    var issues := Deduplicated(base + if enforced then BankIssues(rules, before, after) else []);
    if issues != [] && enforced then Refused(issues) else Started(issues)
  }

  method AppendRuleIssues(start: seq<Issue>, missing: seq<Route>) returns (issues: seq<Issue>)
    ensures issues == start + RuleIssues(missing)
  {
    issues := start;
    for i := 0 to |missing|
      invariant issues == start + RuleIssues(missing)[..i]
    {
      issues := issues + [MissingCapabilityRuleFor(missing[i])];
    }
  }

  /** The bank issues. Beside those of the other checks there is one for an empty rule set, and
      one for each supported write route that no rule covers. */
  method EnterpriseBankConfigIssues(rules: seq<Rule>, before: seq<Issue>, after: seq<Issue>)
    returns (issues: seq<Issue>)
    ensures issues == BankIssues(rules, before, after)
    ensures issues == [] <==> before == [] && after == [] && rules != [] && Covered(SUPPORTED_WRITE_ROUTES, rules)
    ensures forall route :: MissingCapabilityRuleFor(route) in issues <==>
              || MissingCapabilityRuleFor(route) in before + after
              || (route in SUPPORTED_WRITE_ROUTES && Required(rules, route.verb, route.path).None?)
  {
    issues := before;
    if rules == [] {
      issues := issues + [MissingCapabilityRules];
    } else {
      assert issues == issues + [];
    }
    issues := AppendRuleIssues(issues, MissingSupportedWriteRoutes(rules));
    issues := issues + after;
    NoBankIssuesExactly(SUPPORTED_WRITE_ROUTES, rules, before, after);
    forall route ensures MissingCapabilityRuleFor(route) in issues <==>
        || MissingCapabilityRuleFor(route) in before + after
        || (route in SUPPORTED_WRITE_ROUTES && Required(rules, route.verb, route.path).None?)
    {
      BankIssueFor(SUPPORTED_WRITE_ROUTES, rules, before, after, route);
    }
  }

  lemma NoBankIssuesExactly(routes: seq<Route>, rules: seq<Rule>, before: seq<Issue>, after: seq<Issue>)
    ensures BankIssuesOver(routes, rules, before, after) == []
       <==> before == [] && after == [] && rules != [] && Covered(routes, rules)
  {
    NoneMissingExactly(routes, rules);
  }

  lemma RuleIssuesMembers(missing: seq<Route>, route: Route)
    ensures MissingCapabilityRuleFor(route) in RuleIssues(missing) <==> route in missing
  {
    if route in missing {
      var i :| 0 <= i < |missing| && missing[i] == route;
      assert RuleIssues(missing)[i] == MissingCapabilityRuleFor(route);
    }
  }

  lemma BankIssueFor(routes: seq<Route>, rules: seq<Rule>, before: seq<Issue>, after: seq<Issue>, route: Route)
    ensures MissingCapabilityRuleFor(route) in BankIssuesOver(routes, rules, before, after) <==>
              || MissingCapabilityRuleFor(route) in before + after
              || (route in routes && Required(rules, route.verb, route.path).None?)
  {
    RuleIssuesMembers(MissingRoutesAmong(routes, rules), route);
  }

  /** The configuration checks. The issues of the checks that do not concern rules are the
      parameters `base`, `before` and `after`. Startup is refused exactly under enforcement with
      something to report, and what is reported is reported once. */
  method ValidateEnterpriseRuntimeConfig(
      enforced: bool, rules: seq<Rule>, base: seq<Issue>, before: seq<Issue>, after: seq<Issue>)
    returns (startup: Startup)
    ensures startup == StartupOutcome(enforced, rules, base, before, after)
    ensures startup.Started? <==>
              !enforced || (base == before == after == [] && rules != [] && Covered(SUPPORTED_WRITE_ROUTES, rules))
    ensures forall x :: x in startup.issues <==> x in base || (enforced && x in BankIssues(rules, before, after))
    ensures forall i, j | 0 <= i < j < |startup.issues| :: startup.issues[i] != startup.issues[j]
  {
    var issues := base;
    if enforced {
      var bank := EnterpriseBankConfigIssues(rules, before, after);
      issues := issues + bank;
      EnforcedStartupExactly(rules, base, before, after);
    }
    assert base + [] == base;
    issues := Deduplicated(issues);
    if issues != [] && enforced {
      return Refused(issues);
    }
    return Started(issues);
  }

  /** An enforced startup goes through exactly when there is nothing to report: in particular
      every supported write route then has a rule. */
  lemma EnforcedStartupExactly(rules: seq<Rule>, base: seq<Issue>, before: seq<Issue>, after: seq<Issue>)
    ensures StartupOutcome(true, rules, base, before, after).Started?
       <==> base == before == after == [] && rules != [] && Covered(SUPPORTED_WRITE_ROUTES, rules)
  {
    var all := base + BankIssues(rules, before, after);
    NoBankIssuesExactly(SUPPORTED_WRITE_ROUTES, rules, before, after);
    if all != [] {
      assert all[0] in Deduplicated(all);
    }
  }

  // ---------------------------------------------------------------- requests

  datatype Header = Header(name: string, value: string)

  /** The value under a lower-case name once the names are lower-cased: the last one wins. */
  function HeaderValue(headers: seq<Header>, name: string): string {
    if headers == [] then ""
    else if Lower(headers[|headers| - 1].name) == name then headers[|headers| - 1].value
    else HeaderValue(headers[..|headers| - 1], name)
  }

  /** _REQUIRED_HEADERS in sorted order. */
  const REQUIRED_HEADERS := ["x-actor-id", "x-correlation-id", "x-role", "x-tenant-id"]

  function MissingAmong(names: seq<string>, headers: seq<Header>): seq<string> {
    if names == [] then []
    else (if HeaderValue(headers, names[0]) == "" then [names[0]] else []) + MissingAmong(names[1..], headers)
  }

  /** The parts that are not blank, without the spaces around them. */
  function Stripped(parts: seq<string>): set<string> {
    set i | 0 <= i < |parts| && Strip(parts[i]) != "" :: Strip(parts[i])
  }

  function Capabilities(value: string): set<string> {
    Stripped(Split(value, ','))
  }

  function CapabilitySet(headers: seq<Header>): set<string> {
    Capabilities(HeaderValue(headers, "x-capabilities"))
  }

  datatype Decision =
    | Admitted
    | MissingHeaders(names: seq<string>)
    | MissingServiceIdentity
    | MissingCapabilityRule
    | MissingCapability(capability: string)

  function AuthorizeWriteRequest(
      enforced: bool, rules: seq<Rule>, verb: string, path: string, headers: seq<Header>): Decision
  {
    if !(Upper(verb) in WRITE_METHODS && enforced) then Admitted
    else if MissingAmong(REQUIRED_HEADERS, headers) != [] then MissingHeaders(MissingAmong(REQUIRED_HEADERS, headers))
    else if HeaderValue(headers, "x-service-identity") == "" && HeaderValue(headers, "authorization") == ""
    then MissingServiceIdentity
    else
      match Required(rules, verb, path)
      case None => MissingCapabilityRule
      case Some(capability) =>
        if capability != "" && capability !in CapabilitySet(headers) then MissingCapability(capability) else Admitted
  }

  // ---------------------------------------------------------------- exactly when a rule governs

  /** The rule path reaches the request path: without its final slashes it is a prefix of it by
      whole segments; of slashes alone it reaches the root only. */
  ghost predicate Reaches(rulePath: string, path: string) {
    exists kept, slashes ::
      && rulePath == kept + slashes && AllSlashes(slashes) && (kept != "" ==> kept[|kept| - 1] != '/')
      && if kept == "" then path == "/" || "//" <= path else Split(kept, '/') <= Split(path, '/')
  }

  predicate AllSlashes(s: string) {
    forall i | 0 <= i < |s| :: s[i] == '/'
  }

  /** The key of the rule is a method, a space and a path; the method is the verb in any case,
      and the path reaches the request path. */
  ghost predicate NamesRequest(rule: Rule, verb: string, path: string) {
    exists method', rulePath ::
      && rule.key == method' + " " + rulePath && ' ' !in method'
      && SameButCase(method', verb) && Reaches(rulePath, path)
  }

  lemma {:induction false} TrimmedParts(rulePath: string)
    ensures exists slashes :: AllSlashes(slashes) && rulePath == Trimmed(rulePath) + slashes
    ensures Trimmed(rulePath) != "" ==> Trimmed(rulePath)[|Trimmed(rulePath)| - 1] != '/'
  {
    if rulePath != "" && rulePath[|rulePath| - 1] == '/' {
      var init := rulePath[..|rulePath| - 1];
      TrimmedParts(init);
      var slashes :| AllSlashes(slashes) && init == Trimmed(init) + slashes;
      assert rulePath == Trimmed(rulePath) + (slashes + "/") && AllSlashes(slashes + "/");
    } else {
      assert rulePath == rulePath + "" && AllSlashes("");
    }
  }

  lemma {:induction false} TrimmedOf(kept: string, slashes: string)
    requires AllSlashes(slashes) && (kept != "" ==> kept[|kept| - 1] != '/')
    ensures Trimmed(kept + slashes) == kept
  {
    if slashes == "" {
      assert kept + slashes == kept;
    } else {
      TrimmedOf(kept, slashes[..|slashes| - 1]);
      assert (kept + slashes)[..|kept + slashes| - 1] == kept + slashes[..|slashes| - 1];
    }
  }

  lemma PathMatchesExactly(path: string, rulePath: string)
    ensures PathMatches(path, rulePath) <==> Reaches(rulePath, path)
  {
    TrimmedParts(rulePath);
    var slashes :| AllSlashes(slashes) && rulePath == Trimmed(rulePath) + slashes;
    AtOrBelowIsSegmentPrefix(path, Trimmed(rulePath));
    if Trimmed(rulePath) == "" {
      RootRuleReachesOnlyRoot(path, rulePath);
    }
    forall kept, rest | rulePath == kept + rest && AllSlashes(rest) && (kept != "" ==> kept[|kept| - 1] != '/')
      ensures kept == Trimmed(rulePath)
    {
      TrimmedOf(kept, rest);
    }
  }

  lemma {:induction false} PartitionParts(key: string)
    requires AfterSpace(key).Some?
    ensures key == BeforeSpace(key) + " " + AfterSpace(key).value && ' ' !in BeforeSpace(key)
  {
    assert key == [key[0]] + key[1..];
    if key[0] != ' ' {
      PartitionParts(key[1..]);
    }
  }

  lemma UpperAppend(a: string, b: string)
    ensures Upper(a + b) == Upper(a) + Upper(b)
  {
  }

  /** What a rule applies to, in terms of its key as it is written. */
  lemma AppliesExactly(rule: Rule, verb: string, path: string)
    requires ' ' !in verb
    ensures Applies(rule, verb, path) <==> NamesRequest(rule, verb, path)
    ensures Applies(rule, verb, path) ==> AfterSpace(rule.key) == Some(RulePath(rule, verb))
  {
    PathMatchesExactly(path, RulePath(rule, verb));
    if Applies(rule, verb, path) {
      SliceIsPartition(rule.key, verb);
      PartitionParts(rule.key);
      CaseForgotten(BeforeSpace(rule.key), verb);
      assert NamesRequest(rule, verb, path);
    }
    if NamesRequest(rule, verb, path) {
      var method', rulePath :|
        && rule.key == method' + " " + rulePath && ' ' !in method'
        && SameButCase(method', verb) && Reaches(rulePath, path);
      NamedApplies(rule, verb, path, method', rulePath);
    }
  }

  lemma NamedApplies(rule: Rule, verb: string, path: string, method': string, rulePath: string)
    requires rule.key == method' + " " + rulePath && SameButCase(method', verb) && Reaches(rulePath, path)
    ensures Applies(rule, verb, path)
  {
    CaseForgotten(method', verb);
    UpperAppend(method' + " ", rulePath);
    UpperAppend(method', " ");
    assert Upper(" ") == " ";
    assert RulePath(rule, verb) == rulePath;
    PathMatchesExactly(path, rulePath);
  }

  /** How much of its path a rule names. */
  function Weight(rule: Rule): nat {
    match AfterSpace(rule.key)
    case None => 0
    case Some(rulePath) => |Trimmed(rulePath)|
  }

  /** The rule is the first of those that name the most of the request. */
  ghost predicate Governs(rules: seq<Rule>, verb: string, path: string, i: nat) {
    && i < |rules| && NamesRequest(rules[i], verb, path)
    && (forall j | 0 <= j < |rules| && NamesRequest(rules[j], verb, path) :: Weight(rules[j]) <= Weight(rules[i]))
    && (forall j | 0 <= j < i && NamesRequest(rules[j], verb, path) :: Weight(rules[j]) < Weight(rules[i]))
  }

  lemma GovernsExactly(rules: seq<Rule>, verb: string, path: string, i: nat)
    requires ' ' !in verb
    ensures Governs(rules, verb, path, i) <==> FirstBest(Scores(rules, verb, path), i)
  {
    var scores := Scores(rules, verb, path);
    forall j | 0 <= j < |rules|
      ensures scores[j] == if NamesRequest(rules[j], verb, path) then Some(Weight(rules[j])) else None
    {
      AppliesExactly(rules[j], verb, path);
    }
  }

  lemma GovernorIsBest(rules: seq<Rule>, verb: string, path: string, i: nat)
    requires ' ' !in verb && Governs(rules, verb, path, i)
    ensures Required(rules, verb, path) == Some(rules[i].capability)
  {
    var scores := Scores(rules, verb, path);
    GovernsExactly(rules, verb, path, i);
    assert FirstBest(scores, Best(scores).value);
  }

  lemma BestGoverns(rules: seq<Rule>, verb: string, path: string) returns (i: nat)
    requires ' ' !in verb && Required(rules, verb, path).Some?
    ensures Governs(rules, verb, path, i) && Required(rules, verb, path) == Some(rules[i].capability)
  {
    i := Best(Scores(rules, verb, path)).value;
    GovernsExactly(rules, verb, path, i);
  }

  lemma NoneNamedExactly(rules: seq<Rule>, verb: string, path: string)
    requires ' ' !in verb
    ensures Required(rules, verb, path).None? <==> forall i | 0 <= i < |rules| :: !NamesRequest(rules[i], verb, path)
  {
    var scores := Scores(rules, verb, path);
    forall i | 0 <= i < |rules| ensures scores[i].Some? <==> NamesRequest(rules[i], verb, path) {
      AppliesExactly(rules[i], verb, path);
    }
  }

  /** Some governing rule has the capability. */
  ghost predicate GovernedBy(rules: seq<Rule>, verb: string, path: string, capability: string) {
    exists i: nat :: Governs(rules, verb, path, i) && rules[i].capability == capability
  }

  /** The required capability is that of the governing rule, and there is none exactly when no
      rule names the request. */
  lemma RequiredExactly(rules: seq<Rule>, verb: string, path: string)
    requires ' ' !in verb
    ensures Required(rules, verb, path).None? <==> forall i | 0 <= i < |rules| :: !NamesRequest(rules[i], verb, path)
    ensures forall capability ::
              Required(rules, verb, path) == Some(capability) <==> GovernedBy(rules, verb, path, capability)
  {
    NoneNamedExactly(rules, verb, path);
    forall capability
      ensures Required(rules, verb, path) == Some(capability) <==> GovernedBy(rules, verb, path, capability)
    {
      if Required(rules, verb, path) == Some(capability) {
        var i := BestGoverns(rules, verb, path);
      }
      if GovernedBy(rules, verb, path, capability) {
        var i: nat :| Governs(rules, verb, path, i) && rules[i].capability == capability;
        GovernorIsBest(rules, verb, path, i);
      }
    }
  }

  // ---------------------------------------------------------------- exactly when a request is admitted

  /** The value is that of the last header with the name, in any case. */
  ghost predicate Carries(headers: seq<Header>, name: string, value: string) {
    exists i :: 0 <= i < |headers| && LastNamed(headers, name, i) && headers[i].value == value
  }

  predicate LastNamed(headers: seq<Header>, name: string, i: nat)
    requires i < |headers|
  {
    SameButCase(headers[i].name, name) && forall j | i < j < |headers| :: !SameButCase(headers[j].name, name)
  }

  ghost predicate Present(headers: seq<Header>, name: string) {
    exists value :: value != "" && Carries(headers, name, value)
  }

  lemma {:induction false} HeaderValueExactly(headers: seq<Header>, name: string, value: string)
    requires Lower(name) == name && value != ""
    ensures HeaderValue(headers, name) == value <==> Carries(headers, name, value)
  {
    if headers != [] {
      var init, last := headers[..|headers| - 1], headers[|headers| - 1];
      CaseForgotten(last.name, name);
      if Lower(last.name) == name {
        assert LastNamed(headers, name, |init|);
      } else {
        HeaderValueExactly(init, name, value);
        CarriesInit(headers, name, value);
      }
    }
  }

  lemma CarriesInit(headers: seq<Header>, name: string, value: string)
    requires headers != [] && !SameButCase(headers[|headers| - 1].name, name)
    ensures Carries(headers, name, value) <==> Carries(headers[..|headers| - 1], name, value)
  {
    var init := headers[..|headers| - 1];
    forall i | 0 <= i < |init| ensures LastNamed(headers, name, i) <==> LastNamed(init, name, i) {
      assert headers[i] == init[i];
    }
    assert !LastNamed(headers, name, |init|);
  }

  lemma PresentExactly(headers: seq<Header>, name: string)
    requires Lower(name) == name
    ensures HeaderValue(headers, name) != "" <==> Present(headers, name)
  {
    var value := HeaderValue(headers, name);
    if value != "" {
      HeaderValueExactly(headers, name, value);
    }
    if Present(headers, name) {
      var v :| v != "" && Carries(headers, name, v);
      HeaderValueExactly(headers, name, v);
    }
  }

  /** The value, written as parts between commas, has the capability as one part, apart from
      spaces around it. */
  ghost predicate Lists(value: string, capability: string) {
    exists parts, i, before, after ::
      && 0 <= i < |parts| && Join(parts, ',') == value && (forall k | 0 <= k < |parts| :: ',' !in parts[k])
      && AllSpace(before) && AllSpace(after) && parts[i] == before + capability + after
  }

  lemma ListedIsHeld(value: string, capability: string, parts: seq<string>, i: nat, before: string, after: string)
    requires capability != "" && Tight(capability)
    requires i < |parts| && Join(parts, ',') == value && forall k | 0 <= k < |parts| :: ',' !in parts[k]
    requires AllSpace(before) && AllSpace(after) && parts[i] == before + capability + after
    ensures capability in Capabilities(value)
  {
    SplitOnly(parts, ',');
    StripBetween(before, capability, after);
    assert Strip(Split(value, ',')[i]) == capability;
  }

  lemma HeldIsListed(value: string, capability: string)
    requires capability in Capabilities(value)
    ensures Lists(value, capability)
  {
    var parts := Split(value, ',');
    SplitJoins(value, ',');
    var i :| 0 <= i < |parts| && Strip(parts[i]) == capability;
    StripParts(parts[i]);
    var before, after :| AllSpace(before) && AllSpace(after) && parts[i] == before + capability + after;
  }

  lemma CapabilitiesExactly(value: string, capability: string)
    requires capability != "" && Tight(capability)
    ensures capability in Capabilities(value) <==> Lists(value, capability)
  {
    if capability in Capabilities(value) {
      HeldIsListed(value, capability);
    }
    if Lists(value, capability) {
      var ps, i, before, after :|
        && 0 <= i < |ps| && Join(ps, ',') == value && (forall k | 0 <= k < |ps| :: ',' !in ps[k])
        && AllSpace(before) && AllSpace(after) && ps[i] == before + capability + after;
      ListedIsHeld(value, capability, ps, i, before, after);
    }
  }

  /** The caller holds the capability: the last x-capabilities header lists it. */
  ghost predicate HoldsCapability(headers: seq<Header>, capability: string) {
    exists value :: Carries(headers, "x-capabilities", value) && Lists(value, capability)
  }

  lemma HoldsExactly(headers: seq<Header>, capability: string)
    requires capability != "" && Tight(capability)
    ensures capability in CapabilitySet(headers) <==> HoldsCapability(headers, capability)
  {
    var value := HeaderValue(headers, "x-capabilities");
    CapabilitiesExactly(value, capability);
    NothingListed(capability);
    forall v | v != "" ensures v == value <==> Carries(headers, "x-capabilities", v) {
      HeaderValueExactly(headers, "x-capabilities", v);
    }
  }

  lemma NothingListed(capability: string)
    requires capability != "" && Tight(capability)
    ensures !Lists("", capability) && capability !in Capabilities("")
  {
    CapabilitiesExactly("", capability);
    assert Split("", ',') == [""];
    assert Strip("") == "";
  }

  ghost predicate IdentityPresent(headers: seq<Header>) {
    Present(headers, "x-service-identity") || Present(headers, "authorization")
  }

  ghost predicate AllPresent(names: seq<string>, headers: seq<Header>) {
    forall i | 0 <= i < |names| :: Present(headers, names[i])
  }

  lemma {:induction false} MissingExactly(names: seq<string>, headers: seq<Header>)
    requires forall i | 0 <= i < |names| :: Lower(names[i]) == names[i]
    ensures MissingAmong(names, headers) == [] <==> AllPresent(names, headers)
    ensures forall name :: name in MissingAmong(names, headers) <==> name in names && !Present(headers, name)
  {
    if names != [] {
      PresentExactly(headers, names[0]);
      MissingExactly(names[1..], headers);
      assert names == [names[0]] + names[1..];
    }
  }

  lemma {:induction false} MissingSorted(names: seq<string>, headers: seq<Header>)
    requires StrictlySorted(StringLess, names)
    ensures StrictlySorted(StringLess, MissingAmong(names, headers))
    ensures forall name | name in MissingAmong(names, headers) :: name in names
  {
    if names != [] {
      var rest := MissingAmong(names[1..], headers);
      MissingSorted(names[1..], headers);
      assert forall i | 0 <= i < |rest| :: rest[i] in names[1..];
      assert forall name | name in names[1..] :: StringLess(names[0], name);
    }
  }

  lemma FourSorted(a: string, b: string, c: string, d: string)
    requires StringLess(a, b) && StringLess(b, c) && StringLess(c, d)
    ensures StrictlySorted(StringLess, [a, b, c, d])
  {
    StringLessStrictTotal();
    assert StringLess(a, c) && StringLess(b, d);
    assert StringLess(a, d);
  }

  lemma LessAtThird(a: string, b: string)
    requires |a| > 2 && |b| > 2 && a[0] == b[0] && a[1] == b[1] && a[2] < b[2]
    ensures StringLess(a, b)
  {
    assert SeqLess(CharLess, a[1..][1..], b[1..][1..]);
    assert SeqLess(CharLess, a[1..], b[1..]);
  }

  lemma RequiredHeadersSorted()
    ensures StrictlySorted(StringLess, REQUIRED_HEADERS)
  {
    LessAtThird("x-actor-id", "x-correlation-id");
    LessAtThird("x-correlation-id", "x-role");
    LessAtThird("x-role", "x-tenant-id");
    FourSorted("x-actor-id", "x-correlation-id", "x-role", "x-tenant-id");
  }

  lemma LowerNames()
    ensures forall i | 0 <= i < |REQUIRED_HEADERS| :: Lower(REQUIRED_HEADERS[i]) == REQUIRED_HEADERS[i]
    ensures Lower("x-service-identity") == "x-service-identity" && Lower("authorization") == "authorization"
    ensures Lower("x-capabilities") == "x-capabilities"
  {
  }

  lemma WriteVerbsPlain(verb: string)
    requires Upper(verb) in WRITE_METHODS
    ensures ' ' !in verb
  {
    assert forall m | m in WRITE_METHODS :: ' ' !in m;
    forall i | 0 <= i < |verb| ensures verb[i] != ' ' {
      assert Upper(verb)[i] in Upper(verb) && Upper(verb)[i] == UpperChar(verb[i]);
    }
  }

  ghost predicate TightCapabilities(rules: seq<Rule>) {
    forall i | 0 <= i < |rules| :: Tight(rules[i].capability)
  }

  /** What the request still needs once it has a governing rule. */
  ghost predicate Satisfied(headers: seq<Header>, capability: string) {
    capability == "" || HoldsCapability(headers, capability)
  }

  /** The decision, case by case, on the headers and rules as they are written. */
  ghost predicate DecisionIsTrue(
      enforced: bool, rules: seq<Rule>, verb: string, path: string, headers: seq<Header>, decision: Decision)
  {
    var checked := enforced && Upper(verb) in WRITE_METHODS;
    match decision
    case Admitted =>
      checked ==>
        && AllPresent(REQUIRED_HEADERS, headers) && IdentityPresent(headers)
        && exists capability :: GovernedBy(rules, verb, path, capability) && Satisfied(headers, capability)
    case MissingHeaders(names) =>
      && checked && names != [] && StrictlySorted(StringLess, names)
      && forall name :: name in names <==> name in REQUIRED_HEADERS && !Present(headers, name)
    case MissingServiceIdentity =>
      checked && AllPresent(REQUIRED_HEADERS, headers) && !IdentityPresent(headers)
    case MissingCapabilityRule =>
      && checked && AllPresent(REQUIRED_HEADERS, headers) && IdentityPresent(headers)
      && forall i | 0 <= i < |rules| :: !NamesRequest(rules[i], verb, path)
    case MissingCapability(capability) =>
      && checked && AllPresent(REQUIRED_HEADERS, headers) && IdentityPresent(headers)
      && GovernedBy(rules, verb, path, capability) && !Satisfied(headers, capability)
  }

  /** The headers are all there, and an identity with them. */
  lemma HeadersExactly(headers: seq<Header>)
    ensures StrictlySorted(StringLess, MissingAmong(REQUIRED_HEADERS, headers))
    ensures MissingAmong(REQUIRED_HEADERS, headers) == [] <==> AllPresent(REQUIRED_HEADERS, headers)
    ensures forall name ::
              name in MissingAmong(REQUIRED_HEADERS, headers) <==> name in REQUIRED_HEADERS && !Present(headers, name)
    ensures HeaderValue(headers, "x-service-identity") == "" && HeaderValue(headers, "authorization") == ""
       <==> !IdentityPresent(headers)
  {
    LowerNames();
    RequiredHeadersSorted();
    MissingSorted(REQUIRED_HEADERS, headers);
    MissingExactly(REQUIRED_HEADERS, headers);
    PresentExactly(headers, "x-service-identity");
    PresentExactly(headers, "authorization");
  }

  lemma CapabilityExactly(rules: seq<Rule>, verb: string, path: string, headers: seq<Header>, capability: string)
    requires ' ' !in verb && TightCapabilities(rules) && Required(rules, verb, path) == Some(capability)
    ensures capability == "" || capability in CapabilitySet(headers) <==> Satisfied(headers, capability)
  {
    var i := BestGoverns(rules, verb, path);
    if capability != "" {
      HoldsExactly(headers, capability);
    }
  }

  /** Each decision is the true one: a request is admitted exactly when it is not checked, or has
      all headers, an identity, a governing rule and that rule's capability; and each denial
      names what is missing first. */
  lemma DecisionExactly(
      enforced: bool, rules: seq<Rule>, verb: string, path: string, headers: seq<Header>, decision: Decision)
    requires TightCapabilities(rules)
    ensures decision == AuthorizeWriteRequest(enforced, rules, verb, path, headers)
        ==> DecisionIsTrue(enforced, rules, verb, path, headers, decision)
    ensures DecisionIsTrue(enforced, rules, verb, path, headers, Admitted)
        ==> AuthorizeWriteRequest(enforced, rules, verb, path, headers) == Admitted
  {
    if enforced && Upper(verb) in WRITE_METHODS {
      WriteVerbsPlain(verb);
      HeadersExactly(headers);
      RequiredExactly(rules, verb, path);
      if Required(rules, verb, path).Some? {
        CapabilityExactly(rules, verb, path, headers, Required(rules, verb, path).value);
      }
    }
  }

  /** A rule that covers a route covers every path below it, for every spelling of the verb. */
  lemma CoverageReachesBelow(rules: seq<Rule>, route: Route, verb: string, path: string)
    requires Required(rules, route.verb, route.path).Some?
    requires Upper(verb) == Upper(route.verb) && AtOrBelow(path, route.path)
    ensures Required(rules, verb, path).Some?
  {
    var i :| 0 <= i < |rules| && Scores(rules, route.verb, route.path)[i].Some?;
    assert RulePath(rules[i], verb) == RulePath(rules[i], route.verb);
    AtOrBelowTransitive(path, route.path, Normalized(RulePath(rules[i], verb)));
    assert Scores(rules, verb, path)[i].Some?;
  }

  /** If startup succeeds under enforcement and the rules stay as they were, no request to a
      supported write route or below it is denied for want of a capability rule. */
  lemma StartupCoversWriteRoutes(
      rules: seq<Rule>, base: seq<Issue>, before: seq<Issue>, after: seq<Issue>,
      route: Route, verb: string, path: string, authz: bool, headers: seq<Header>)
    requires StartupOutcome(true, rules, base, before, after).Started?
    requires route in SUPPORTED_WRITE_ROUTES && Upper(verb) == Upper(route.verb) && AtOrBelow(path, route.path)
    ensures AuthorizeWriteRequest(authz, rules, verb, path, headers) != MissingCapabilityRule
  {
    EnforcedStartupExactly(rules, base, before, after);
    CoverageReachesBelow(rules, route, verb, path);
  }

  /** Loaded rules have no spaces around their capability. */
  lemma LoadedAreTight(entries: seq<(string, Json)>)
    ensures TightCapabilities(LoadRules(entries))
  {
    var rules := LoadRules(entries);
    forall i | 0 <= i < |rules| ensures Tight(rules[i].capability) {
      var rule := rules[i];
      assert Rule(rule.key, rule.capability) in rules;
      StripParts(rule.capability);
    }
  }

  /** Admission, exactly, under the configured rules. */
  lemma AdmittedExactly(enforced: bool, entries: seq<(string, Json)>, verb: string, path: string, headers: seq<Header>)
    ensures AuthorizeWriteRequest(enforced, LoadRules(entries), verb, path, headers) == Admitted
       <==> DecisionIsTrue(enforced, LoadRules(entries), verb, path, headers, Admitted)
  {
    LoadedAreTight(entries);
    DecisionExactly(enforced, LoadRules(entries), verb, path, headers, Admitted);
  }

  // ---------------------------------------------------------------- more capabilities

  /** The headers with one more capability text listed at the end of the last x-capabilities
      value. */
  function WithCapability(headers: seq<Header>, name: string, more: string): seq<Header> {
    headers + [Header(name, HeaderValue(headers, "x-capabilities") + [','] + more)]
  }

  lemma StrippedAppend(xs: seq<string>, ys: seq<string>)
    ensures Stripped(xs + ys) == Stripped(xs) + Stripped(ys)
  {
    var whole := xs + ys;
    assert forall i | 0 <= i < |xs| :: whole[i] == xs[i];
    assert forall i | 0 <= i < |ys| :: whole[|xs| + i] == ys[i];
    assert forall i | |xs| <= i < |whole| :: whole[i] == ys[i - |xs|];
  }

  lemma CapabilitiesAppend(value: string, more: string)
    ensures Capabilities(value + [','] + more) == Capabilities(value) + Capabilities(more)
  {
    SplitAppend(value, ',', more);
    StrippedAppend(Split(value, ','), Split(more, ','));
  }

  lemma {:induction false} SameValuesSameMissing(names: seq<string>, a: seq<Header>, b: seq<Header>)
    requires forall i | 0 <= i < |names| :: HeaderValue(a, names[i]) == HeaderValue(b, names[i])
    ensures MissingAmong(names, a) == MissingAmong(names, b)
  {
    if names != [] {
      SameValuesSameMissing(names[1..], a, b);
    }
  }

  lemma OtherHeadersStay(headers: seq<Header>, name: string, more: string, other: string)
    requires Lower(name) != other
    ensures HeaderValue(WithCapability(headers, name, more), other) == HeaderValue(headers, other)
  {
    assert WithCapability(headers, name, more)[..|headers|] == headers;
  }

  lemma CapabilitiesNameDiffers()
    ensures "x-capabilities" !in REQUIRED_HEADERS
    ensures "x-capabilities" != "x-service-identity" && "x-capabilities" != "authorization"
  {
    assert |"x-capabilities"| == 14 && |"x-service-identity"| == 18 && |"authorization"| == 13;
    assert forall i | 0 <= i < |REQUIRED_HEADERS| :: |REQUIRED_HEADERS[i]| != 14;
  }

  lemma OnlyCapabilitiesGrow(headers: seq<Header>, name: string, more: string)
    requires Lower(name) == "x-capabilities"
    ensures var longer := WithCapability(headers, name, more);
            && MissingAmong(REQUIRED_HEADERS, longer) == MissingAmong(REQUIRED_HEADERS, headers)
            && HeaderValue(longer, "x-service-identity") == HeaderValue(headers, "x-service-identity")
            && HeaderValue(longer, "authorization") == HeaderValue(headers, "authorization")
            && CapabilitySet(longer) == CapabilitySet(headers) + Capabilities(more)
  {
    var longer := WithCapability(headers, name, more);
    CapabilitiesNameDiffers();
    OtherHeadersStay(headers, name, more, "x-service-identity");
    OtherHeadersStay(headers, name, more, "authorization");
    forall i | 0 <= i < |REQUIRED_HEADERS|
      ensures HeaderValue(longer, REQUIRED_HEADERS[i]) == HeaderValue(headers, REQUIRED_HEADERS[i])
    {
      assert REQUIRED_HEADERS[i] in REQUIRED_HEADERS;
      OtherHeadersStay(headers, name, more, REQUIRED_HEADERS[i]);
    }
    SameValuesSameMissing(REQUIRED_HEADERS, longer, headers);
    CapabilitiesAppend(HeaderValue(headers, "x-capabilities"), more);
  }

  lemma PlainCapability(more: string)
    requires Tight(more) && ',' !in more && more != ""
    ensures more in Capabilities(more)
  {
    SplitPlain(more, ',');
    StripTight(more);
    assert Strip(Split(more, ',')[0]) == more;
  }

  /** Listing one more capability never turns an admission into a denial, and admits the caller
      whom only that capability was missing. */
  lemma MoreCapabilitiesAdmitMore(
      enforced: bool, rules: seq<Rule>, verb: string, path: string, headers: seq<Header>, name: string, more: string)
    requires Lower(name) == "x-capabilities"
    ensures var decision := AuthorizeWriteRequest(enforced, rules, verb, path, headers);
            var after := AuthorizeWriteRequest(enforced, rules, verb, path, WithCapability(headers, name, more));
            && (decision == Admitted ==> after == Admitted)
            && (decision == MissingCapability(more) && Tight(more) && ',' !in more ==> after == Admitted)
            && (!decision.MissingCapability? ==> after == decision)
  {
    OnlyCapabilitiesGrow(headers, name, more);
    if Tight(more) && ',' !in more && more != "" {
      PlainCapability(more);
    }
  }

  /** The key is written as a method, a space and an absolute path. */
  predicate WrittenAs(key: string, verb: string, rest: string) {
    key == verb + " " + ("/" + rest) && ' ' !in verb
  }

  lemma WrittenExactly(key: string, verb: string, rest: string)
    ensures WrittenAs(key, verb, rest)
       <==> AfterSpace(key) == Some("/" + rest) && BeforeSpace(key) == verb
  {
    if AfterSpace(key).Some? {
      PartitionParts(key);
    }
    if WrittenAs(key, verb, rest) {
      PartitionOf(verb, "/" + rest);
    }
  }

  lemma TightExactly(s: string)
    ensures Strip(s) == s <==> Tight(s)
  {
    StripParts(s);
    if Tight(s) {
      StripTight(s);
    }
  }

  /** A rule is loaded exactly when it is written as a write method in any case, a space and an
      absolute path, with a capability, and no spaces around either text. */
  lemma ValidRuleExactly(key: string, value: Json)
    ensures ValidRule(key, value)
       <==> && value.Str? && value.text != "" && Tight(value.text) && Tight(key)
            && exists verb, rest :: WrittenAs(key, verb, rest) && Upper(verb) in WRITE_METHODS
  {
    if value.Str? {
      TightExactly(value.text);
      TightExactly(key);
    }
    forall verb, rest
      ensures WrittenAs(key, verb, rest) <==> AfterSpace(key) == Some("/" + rest) && BeforeSpace(key) == verb
    {
      WrittenExactly(key, verb, rest);
    }
    if ValidRule(key, value) {
      var path := AfterSpace(key).value;
      assert path == "/" + path[1..];
      assert WrittenAs(key, BeforeSpace(key), path[1..]);
    }
  }
}
