/** The live policy, the canonical form its digest covers, and what that form determines. */
module PolicyCanonical {
  import opened Text
  import opened Findings
  import opened Policy
  import opened StableSort
  import opened Permutations
  import RateLimiter
  import Sorting

  type RouteBehavior = RateLimiter.RouteBehavior

  datatype RouteOverride = RouteOverride(pathPrefix: string, ruleModes: map<string, RuleMode>)

  datatype RateLimitRow = RateLimitRow(pathPrefix: string, requests: nat, windowSecs: nat)

  datatype BehaviorRow = BehaviorRow(
    pathPrefix: string, warmup: Option<nat>, threshold: Option<nat>, windowSecs: Option<nat>)

  datatype LivePolicy = LivePolicy(
    mode: PolicyMode,
    globalModes: map<string, RuleMode>,
    routeOverrides: seq<RouteOverride>,
    rateLimits: seq<RateLimitRow>,
    behaviorOverrides: seq<BehaviorRow>,
    exceptions: seq<DetectorException>)

  function OverrideKey(r: RouteOverride): string { r.pathPrefix }

  function RateLimitKey(r: RateLimitRow): string { r.pathPrefix }

  function BehaviorKey(r: BehaviorRow): string { r.pathPrefix }

  function ExceptionKey(e: DetectorException): string { e.detectorId }

  // Rule modes: a map, listed in any order and then sorted

  datatype ModeRow = ModeRow(ruleId: string, mode: RuleMode)

  function ModeKey(r: ModeRow): string { r.ruleId }

  ghost predicate Lists(rows: seq<ModeRow>, modes: map<string, RuleMode>) {
    && DistinctKeys(rows, ModeKey)
    && forall r :: r in rows <==> r.ruleId in modes && modes[r.ruleId] == r.mode
  }

  ghost predicate Canonicalises(rows: seq<ModeRow>, modes: map<string, RuleMode>) {
    exists listing :: Lists(listing, modes) && rows == Sort(listing, ModeKey)
  }

  lemma ListOneMore(rows: seq<ModeRow>, modes: map<string, RuleMode>, id: string, mode: RuleMode)
    requires Lists(rows, modes) && id !in modes
    ensures Lists(rows + [ModeRow(id, mode)], modes[id := mode])
  {
    var more := rows + [ModeRow(id, mode)];
    forall i, j | 0 <= i < j < |more|
      ensures ModeKey(more[i]) != ModeKey(more[j])
    {
      assert more[i] in rows;
    }
  }

  /** Copies the entries in whatever order the map yields them, then sorts by rule. */
  method CanonicalRuleModes(modes: map<string, RuleMode>) returns (rows: seq<ModeRow>)
    ensures Canonicalises(rows, modes)
  {
    rows := [];
    var left := modes.Keys;
    ghost var copied: map<string, RuleMode> := map[];
    while left != {}
      invariant left <= modes.Keys && copied.Keys == modes.Keys - left
      invariant forall id :: id in copied ==> copied[id] == modes[id]
      invariant Lists(rows, copied)
      decreases left
    {
      var id :| id in left;
      ListOneMore(rows, copied, id, modes[id]);
      rows := rows + [ModeRow(id, modes[id])];
      copied := copied[id := modes[id]];
      left := left - {id};
    }
    assert copied == modes;
    rows := Sort(rows, ModeKey);
  }

  lemma {:induction false} ListingExists(modes: map<string, RuleMode>) returns (rows: seq<ModeRow>)
    ensures Lists(rows, modes)
    decreases |modes|
  {
    if modes == map[] {
      rows := [];
    } else {
      var id :| id in modes;
      var fewer := modes - {id};
      assert fewer.Keys == modes.Keys - {id};
      assert |fewer.Keys| < |modes.Keys|;
      var rest := ListingExists(fewer);
      ListOneMore(rest, fewer, id, modes[id]);
      assert fewer[id := modes[id]] == modes;
      rows := rest + [ModeRow(id, modes[id])];
    }
  }

  /** Iteration order does not show, and nothing of the map is lost. */
  lemma CanonicalModesIdentify(a: seq<ModeRow>, m: map<string, RuleMode>, b: seq<ModeRow>, n: map<string, RuleMode>)
    requires Canonicalises(a, m) && Canonicalises(b, n)
    ensures a == b <==> m == n
  {
    var l :| Lists(l, m) && a == Sort(l, ModeKey);
    var k :| Lists(k, n) && b == Sort(k, ModeKey);
    if m == n {
      DistinctKeysSortAlike(l, k, ModeKey);
    }
    if a == b {
      forall id | id in m
        ensures id in n && m[id] == n[id]
      {
        var r := ModeRow(id, m[id]);
        Sorting.SortMember(l, ModeKey, Leq, r);
        Sorting.SortMember(k, ModeKey, Leq, r);
        assert r in l && r in k;
      }
      forall id | id in n
        ensures id in m
      {
        var r := ModeRow(id, n[id]);
        Sorting.SortMember(l, ModeKey, Leq, r);
        Sorting.SortMember(k, ModeKey, Leq, r);
        assert r in k && r in l;
      }
    }
  }

  // Route overrides: rows whose maps are canonicalised before the rows are sorted

  datatype CanonicalRoute = CanonicalRoute(pathPrefix: string, ruleModes: seq<ModeRow>)

  function RouteKey(r: CanonicalRoute): string { r.pathPrefix }

  ghost predicate CanonicalisesRoute(c: CanonicalRoute, r: RouteOverride) {
    c.pathPrefix == r.pathPrefix && Canonicalises(c.ruleModes, r.ruleModes)
  }

  ghost predicate CanonicalisesRoutes(rows: seq<CanonicalRoute>, items: seq<RouteOverride>) {
    |rows| == |items| && forall i :: 0 <= i < |rows| ==> CanonicalisesRoute(rows[i], items[i])
  }

  method CanonicalRoutes(items: seq<RouteOverride>) returns (rows: seq<CanonicalRoute>, ghost unsorted: seq<CanonicalRoute>)
    ensures CanonicalisesRoutes(unsorted, items) && rows == Sort(unsorted, RouteKey)
  {
    rows := [];
    for i := 0 to |items|
      invariant |rows| == i
      invariant forall j :: 0 <= j < i ==> CanonicalisesRoute(rows[j], items[j])
    {
      var modes := CanonicalRuleModes(items[i].ruleModes);
      rows := rows + [CanonicalRoute(items[i].pathPrefix, modes)];
    }
    unsorted := rows;
    rows := Sort(rows, RouteKey);
  }

  lemma {:induction false} RoutesExist(items: seq<RouteOverride>) returns (rows: seq<CanonicalRoute>)
    ensures CanonicalisesRoutes(rows, items)
  {
    if items == [] {
      rows := [];
    } else {
      var listing := ListingExists(items[0].ruleModes);
      var rest := RoutesExist(items[1..]);
      rows := [CanonicalRoute(items[0].pathPrefix, Sort(listing, ModeKey))] + rest;
      assert CanonicalisesRoute(rows[0], items[0]);
    }
  }

  lemma {:induction false} RoutesWithKey(rows: seq<CanonicalRoute>, items: seq<RouteOverride>, k: string)
    requires CanonicalisesRoutes(rows, items)
    ensures CanonicalisesRoutes(WithKey(rows, RouteKey, k), WithKey(items, OverrideKey, k))
  {
    if rows == [] {
    } else {
      assert CanonicalisesRoute(rows[0], items[0]);
      RoutesWithKey(rows[1..], items[1..], k);
    }
  }

  lemma RoutesIdentify(a: seq<CanonicalRoute>, p: seq<RouteOverride>, b: seq<CanonicalRoute>, q: seq<RouteOverride>)
    requires CanonicalisesRoutes(a, p) && CanonicalisesRoutes(b, q)
    ensures a == b <==> p == q
  {
    if |a| == |b| {
      forall i | 0 <= i < |a|
        ensures a[i] == b[i] <==> p[i] == q[i]
      {
        assert CanonicalisesRoute(a[i], p[i]) && CanonicalisesRoute(b[i], q[i]);
        CanonicalModesIdentify(a[i].ruleModes, p[i].ruleModes, b[i].ruleModes, q[i].ruleModes);
      }
    }
  }

  lemma RoutesSortAlike(a: seq<CanonicalRoute>, p: seq<RouteOverride>, b: seq<CanonicalRoute>, q: seq<RouteOverride>)
    requires CanonicalisesRoutes(a, p) && CanonicalisesRoutes(b, q)
    ensures Sort(a, RouteKey) == Sort(b, RouteKey) <==> SameRows(p, q, OverrideKey)
  {
    forall k
      ensures WithKey(a, RouteKey, k) == WithKey(b, RouteKey, k) <==> WithKey(p, OverrideKey, k) == WithKey(q, OverrideKey, k)
    {
      RoutesWithKey(a, p, k);
      RoutesWithKey(b, q, k);
      RoutesIdentify(WithKey(a, RouteKey, k), WithKey(p, OverrideKey, k), WithKey(b, RouteKey, k), WithKey(q, OverrideKey, k));
    }
    SortAgrees(a, b, RouteKey);
  }

  // The whole policy

  datatype Canonical = Canonical(
    mode: PolicyMode,
    globalModes: seq<ModeRow>,
    routeOverrides: seq<CanonicalRoute>,
    rateLimits: seq<RateLimitRow>,
    behaviorOverrides: seq<BehaviorRow>,
    exceptions: seq<DetectorException>)

  ghost predicate IsCanonicalOf(c: Canonical, p: LivePolicy) {
    && c.mode == p.mode
    && Canonicalises(c.globalModes, p.globalModes)
    && (exists unsorted :: CanonicalisesRoutes(unsorted, p.routeOverrides) && c.routeOverrides == Sort(unsorted, RouteKey))
    && c.rateLimits == Sort(p.rateLimits, RateLimitKey)
    && c.behaviorOverrides == Sort(p.behaviorOverrides, BehaviorKey)
    && c.exceptions == Sort(p.exceptions, ExceptionKey)
  }

  /** Equal up to moving rows with different sort keys past each other. */
  ghost predicate SamePolicy(p: LivePolicy, q: LivePolicy) {
    && p.mode == q.mode
    && p.globalModes == q.globalModes
    && SameRows(p.routeOverrides, q.routeOverrides, OverrideKey)
    && SameRows(p.rateLimits, q.rateLimits, RateLimitKey)
    && SameRows(p.behaviorOverrides, q.behaviorOverrides, BehaviorKey)
    && SameRows(p.exceptions, q.exceptions, ExceptionKey)
  }

  lemma FormsAgree(c: Canonical, p: LivePolicy, d: Canonical, q: LivePolicy)
    requires IsCanonicalOf(c, p) && IsCanonicalOf(d, q)
    ensures c == d <==> SamePolicy(p, q)
  {
    CanonicalModesIdentify(c.globalModes, p.globalModes, d.globalModes, q.globalModes);
    var a :| CanonicalisesRoutes(a, p.routeOverrides) && c.routeOverrides == Sort(a, RouteKey);
    var b :| CanonicalisesRoutes(b, q.routeOverrides) && d.routeOverrides == Sort(b, RouteKey);
    RoutesSortAlike(a, p.routeOverrides, b, q.routeOverrides);
    SortAgrees(p.rateLimits, q.rateLimits, RateLimitKey);
    SortAgrees(p.behaviorOverrides, q.behaviorOverrides, BehaviorKey);
    SortAgrees(p.exceptions, q.exceptions, ExceptionKey);
  }

  lemma FormExists(p: LivePolicy) returns (c: Canonical)
    ensures IsCanonicalOf(c, p)
  {
    var listing := ListingExists(p.globalModes);
    var routes := RoutesExist(p.routeOverrides);
    c := Canonical(
      p.mode, Sort(listing, ModeKey), Sort(routes, RouteKey), Sort(p.rateLimits, RateLimitKey),
      Sort(p.behaviorOverrides, BehaviorKey), Sort(p.exceptions, ExceptionKey));
  }

  lemma SomeForm(p: LivePolicy)
    ensures exists c :: IsCanonicalOf(c, p)
  {
    var c := FormExists(p);
  }

  ghost function CanonicalOf(p: LivePolicy): (c: Canonical)
    ensures IsCanonicalOf(c, p)
  {
    SomeForm(p);
    var c :| IsCanonicalOf(c, p);
    c
  }

  method Canonicalise(p: LivePolicy) returns (c: Canonical)
    ensures c == CanonicalOf(p)
  {
    var modes := CanonicalRuleModes(p.globalModes);
    var routes, unsorted := CanonicalRoutes(p.routeOverrides);
    c := Canonical(
      p.mode, modes, routes, Sort(p.rateLimits, RateLimitKey),
      Sort(p.behaviorOverrides, BehaviorKey), Sort(p.exceptions, ExceptionKey));
    FormsAgree(c, p, CanonicalOf(p), p);
  }

  /** The canonical form forgets the order of rows with different sort keys, and nothing else. */
  lemma CanonicalAgrees(p: LivePolicy, q: LivePolicy)
    ensures CanonicalOf(p) == CanonicalOf(q) <==> SamePolicy(p, q)
  {
    FormsAgree(CanonicalOf(p), p, CanonicalOf(q), q);
  }

  lemma DistinctOfReordered<T>(a: seq<T>, b: seq<T>, key: T -> string)
    requires DistinctKeys(a, key) && multiset(a) == multiset(b)
    ensures DistinctKeys(b, key)
  {
    forall i, j | 0 <= i < j < |b|
      ensures key(b[i]) != key(b[j])
    {
      if b[i] == b[j] {
        OccursTwice(b, i, j);
        assert NoRepeats(a);
        OccursOnce(a, b[i]);
        assert false;
      }
      SameMembers(a, b);
      assert b[i] in a && b[j] in a;
      var k :| 0 <= k < |a| && a[k] == b[i];
      var l :| 0 <= l < |a| && a[l] == b[j];
      assert k < l || l < k;
    }
  }

  lemma DistinctAgree<T>(a: seq<T>, b: seq<T>, key: T -> string)
    requires DistinctKeys(a, key) && multiset(a) == multiset(b)
    ensures SameRows(a, b, key)
  {
    DistinctOfReordered(a, b, key);
    SameMembers(a, b);
    DistinctKeysSortAlike(a, b, key);
    SortAgrees(a, b, key);
  }

  ghost predicate DistinctSortKeys(p: LivePolicy) {
    && DistinctKeys(p.routeOverrides, OverrideKey)
    && DistinctKeys(p.rateLimits, RateLimitKey)
    && DistinctKeys(p.behaviorOverrides, BehaviorKey)
    && DistinctKeys(p.exceptions, ExceptionKey)
  }

  ghost predicate Reordered(p: LivePolicy, q: LivePolicy) {
    && p.mode == q.mode
    && p.globalModes == q.globalModes
    && multiset(p.routeOverrides) == multiset(q.routeOverrides)
    && multiset(p.rateLimits) == multiset(q.rateLimits)
    && multiset(p.behaviorOverrides) == multiset(q.behaviorOverrides)
    && multiset(p.exceptions) == multiset(q.exceptions)
  }

  /** With distinct sort keys any reordering of the lists has the same canonical form. */
  lemma ReorderingIsInvisible(p: LivePolicy, q: LivePolicy)
    requires DistinctSortKeys(p) && Reordered(p, q)
    ensures CanonicalOf(p) == CanonicalOf(q)
  {
    DistinctAgree(p.routeOverrides, q.routeOverrides, OverrideKey);
    DistinctAgree(p.rateLimits, q.rateLimits, RateLimitKey);
    DistinctAgree(p.behaviorOverrides, q.behaviorOverrides, BehaviorKey);
    DistinctAgree(p.exceptions, q.exceptions, ExceptionKey);
    CanonicalAgrees(p, q);
  }

  lemma PairWithKey<T>(x: T, y: T, key: T -> string)
    requires key(x) == key(y)
    ensures WithKey([x, y], key, key(x)) == [x, y]
  {
    assert [x, y][1..] == [y];
    assert [y][1..] == [];
    assert WithKey([y], key, key(x)) == [y] + WithKey([], key, key(x));
  }

  /** Two rows of one detector: their order is part of the canonical form. */
  lemma EqualKeysKeepTheirOrder(p: LivePolicy, e: DetectorException, f: DetectorException)
    requires e.detectorId == f.detectorId && e != f && p.exceptions == [e, f]
    ensures CanonicalOf(p) != CanonicalOf(p.(exceptions := [f, e]))
  {
    CanonicalAgrees(p, p.(exceptions := [f, e]));
    var k := e.detectorId;
    PairWithKey(e, f, ExceptionKey);
    PairWithKey(f, e, ExceptionKey);
    assert WithKey(p.exceptions, ExceptionKey, k)[0] != WithKey([f, e], ExceptionKey, k)[0];
  }

  // What equal canonical forms mean for requests

  lemma SameExceptions(a: seq<DetectorException>, b: seq<DetectorException>, f: Finding, path: string)
    requires SameRows(a, b, ExceptionKey)
    ensures WithException(f, a, path) == WithException(f, b, path)
  {
    SameRowsSameMembers(a, b, ExceptionKey);
    FewerExceptions(f, a, b, path);
    FewerExceptions(f, b, a, path);
  }

  /** Policies with one canonical form treat every list of findings on every path alike. */
  lemma CanonicalFixesExceptions(p: LivePolicy, q: LivePolicy, fs: seq<Finding>, path: string)
    requires CanonicalOf(p) == CanonicalOf(q)
    ensures ApplyDetectorExceptions(fs, p.exceptions, path) == ApplyDetectorExceptions(fs, q.exceptions, path)
  {
    CanonicalAgrees(p, q);
    var a, b := ApplyDetectorExceptions(fs, p.exceptions, path), ApplyDetectorExceptions(fs, q.exceptions, path);
    forall i | 0 <= i < |fs|
      ensures a[i] == b[i]
    {
      SameExceptions(p.exceptions, q.exceptions, fs[i], path);
    }
  }

  function CoversPath(path: string): RateLimitRow -> bool {
    (r: RateLimitRow) => r.pathPrefix <= path
  }

  function Whole(): RateLimitRow -> RateLimitRow {
    (r: RateLimitRow) => r
  }

  /** The first row whose prefix covers the path, else the configured limit under the name "default". */
  function ResolveRateLimit(rows: seq<RateLimitRow>, path: string, requests: nat, windowSecs: nat): RateLimitRow {
    Found(rows, CoversPath(path), Whole(), RateLimitRow("default", requests, windowSecs))
  }

  ghost predicate OneCoveringPrefix(rows: seq<RateLimitRow>, path: string) {
    forall r, t :: r in rows && t in rows && r.pathPrefix <= path && t.pathPrefix <= path ==> r.pathPrefix == t.pathPrefix
  }

  lemma CoveringRow(rows: seq<RateLimitRow>, path: string, k: string)
    ensures var x := First(WithKey(rows, RateLimitKey, k), CoversPath(path));
      && (x.Some? ==> x.value in rows && x.value.pathPrefix == k && k <= path)
      && (x.None? ==> forall r :: r in rows && r.pathPrefix == k ==> !(k <= path))
  {
    FirstIsMember(WithKey(rows, RateLimitKey, k), CoversPath(path));
    var x := First(WithKey(rows, RateLimitKey, k), CoversPath(path));
    if x.Some? {
      WithKeyMember(rows, RateLimitKey, k, x.value);
    } else {
      forall r | r in rows && r.pathPrefix == k
        ensures !(k <= path)
      {
        WithKeyMember(rows, RateLimitKey, k, r);
        assert r in WithKey(rows, RateLimitKey, k);
      }
    }
  }

  /** The canonical form fixes the rate limit of a path exactly when one prefix alone covers it. */
  lemma RateLimitIsSettledExactly(rows: seq<RateLimitRow>, path: string, requests: nat, windowSecs: nat)
    ensures (forall t :: SameRows(rows, t, RateLimitKey)
              ==> ResolveRateLimit(t, path, requests, windowSecs) == ResolveRateLimit(rows, path, requests, windowSecs))
      <==> OneCoveringPrefix(rows, path)
  {
    var default := RateLimitRow("default", requests, windowSecs);
    FoundIsSettledExactly(rows, RateLimitKey, CoversPath(path), Whole(), default);
    assert FoundIsSettled(rows, RateLimitKey, CoversPath(path), Whole(), default) <==>
      (forall t :: SameRows(rows, t, RateLimitKey)
        ==> ResolveRateLimit(t, path, requests, windowSecs) == ResolveRateLimit(rows, path, requests, windowSecs));
    forall k
      ensures var x := First(WithKey(rows, RateLimitKey, k), CoversPath(path));
        && (x.Some? ==> x.value in rows && x.value.pathPrefix == k && k <= path)
        && (x.None? ==> forall r :: r in rows && r.pathPrefix == k ==> !(k <= path))
    {
      CoveringRow(rows, path, k);
    }
    if FirstMatchesAgree(rows, RateLimitKey, CoversPath(path), Whole()) {
      forall r, t | r in rows && t in rows && r.pathPrefix <= path && t.pathPrefix <= path
        ensures r.pathPrefix == t.pathPrefix
      {
        var x := First(WithKey(rows, RateLimitKey, r.pathPrefix), CoversPath(path));
        var y := First(WithKey(rows, RateLimitKey, t.pathPrefix), CoversPath(path));
        assert x.Some? && y.Some?;
        assert Whole()(x.value) == Whole()(y.value);
      }
    }
  }

  function CoversRule(path: string, ruleId: string): RouteOverride -> bool {
    (r: RouteOverride) => r.pathPrefix <= path && ruleId in r.ruleModes
  }

  function ModeFor(ruleId: string): RouteOverride -> RuleMode {
    (r: RouteOverride) => if ruleId in r.ruleModes then r.ruleModes[ruleId] else DetectOnly
  }

  function GlobalMode(modes: map<string, RuleMode>, ruleId: string): RuleMode {
    if ruleId in modes then modes[ruleId] else DetectOnly
  }

  /** The first override that covers the path and names the rule, else the global mode. */
  function ResolveRuleMode(p: LivePolicy, path: string, ruleId: string): RuleMode {
    Found(p.routeOverrides, CoversRule(path, ruleId), ModeFor(ruleId), GlobalMode(p.globalModes, ruleId))
  }

  /** Where no override names the rule its global mode holds, and it only detects when it has none. */
  lemma RuleModeDefaults(p: LivePolicy, path: string, ruleId: string)
    requires forall r :: r in p.routeOverrides && r.pathPrefix <= path ==> ruleId !in r.ruleModes
    ensures ruleId in p.globalModes ==> ResolveRuleMode(p, path, ruleId) == p.globalModes[ruleId]
    ensures ruleId !in p.globalModes ==> ResolveRuleMode(p, path, ruleId) == DetectOnly
  {
    FirstIsMember(p.routeOverrides, CoversRule(path, ruleId));
  }

  /** The first override of each prefix that covers the path and names the rule gives it the same mode. */
  ghost predicate PrefixesAgree(p: LivePolicy, path: string, ruleId: string) {
    FirstMatchesAgree(p.routeOverrides, OverrideKey, CoversRule(path, ruleId), ModeFor(ruleId))
  }

  /** The canonical form fixes a rule's mode on a path exactly when the covering prefixes agree on it. */
  lemma RuleModeIsSettledExactly(p: LivePolicy, path: string, ruleId: string)
    ensures (forall q :: CanonicalOf(p) == CanonicalOf(q) ==> ResolveRuleMode(q, path, ruleId) == ResolveRuleMode(p, path, ruleId))
      <==> PrefixesAgree(p, path, ruleId)
  {
    var pred, read, default := CoversRule(path, ruleId), ModeFor(ruleId), GlobalMode(p.globalModes, ruleId);
    FoundIsSettledExactly(p.routeOverrides, OverrideKey, pred, read, default);
    forall q | CanonicalOf(p) == CanonicalOf(q)
      ensures SamePolicy(p, q)
    {
      CanonicalAgrees(p, q);
    }
    if forall q :: CanonicalOf(p) == CanonicalOf(q) ==> ResolveRuleMode(q, path, ruleId) == ResolveRuleMode(p, path, ruleId) {
      forall t | SameRows(p.routeOverrides, t, OverrideKey)
        ensures Found(t, pred, read, default) == Found(p.routeOverrides, pred, read, default)
      {
        CanonicalAgrees(p, p.(routeOverrides := t));
      }
    }
  }

  function CoversBehavior(path: string): BehaviorRow -> bool {
    (r: BehaviorRow) => r.pathPrefix <= path
  }

  function Or(value: Option<nat>, default: nat): nat {
    if value.Some? then value.value else default
  }

  function BehaviorIn(default: RouteBehavior): BehaviorRow -> RouteBehavior {
    (r: BehaviorRow) => RateLimiter.RouteBehavior(
      Or(r.warmup, default.warmup), Or(r.threshold, default.threshold), Or(r.windowSecs, default.windowSecs))
  }

  /** The first override that covers the path, with the configured values for what it leaves open. */
  function ResolveRouteBehavior(rows: seq<BehaviorRow>, path: string, default: RouteBehavior): RouteBehavior {
    Found(rows, CoversBehavior(path), BehaviorIn(default), default)
  }

  /** Both halves of the condition occur: nested prefixes resolve by list order. */
  lemma NestedPrefixesResolveByOrder(outer: RateLimitRow, inner: RateLimitRow, requests: nat, windowSecs: nat)
    requires outer.pathPrefix < inner.pathPrefix
    ensures Sort([outer, inner], RateLimitKey) == Sort([inner, outer], RateLimitKey)
    ensures ResolveRateLimit([outer, inner], inner.pathPrefix, requests, windowSecs) == outer
    ensures ResolveRateLimit([inner, outer], inner.pathPrefix, requests, windowSecs) == inner
  {
    DistinctKeysSortAlike([outer, inner], [inner, outer], RateLimitKey);
  }
}
