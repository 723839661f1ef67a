/** The live policy's versions and its saved bundles, over every run of the control plane's handlers. */
module PolicyStore {
  import opened Text
  import opened Findings
  import opened Policy
  import opened StableSort
  import opened PolicyCanonical
  import opened PolicyImport

  const MAX_VERSION: nat := 0xFFFF_FFFF_FFFF_FFFF
  const TAMPER_MARKER: string := "phase14.tamper.marker"

  datatype Bundle = Bundle(policy: LivePolicy, digest: string)

  datatype State = State(version: nat, previous: Option<nat>, policy: LivePolicy, bundles: map<string, Bundle>)

  datatype Event =
    | SetGlobal(ruleId: string, mode: RuleMode)
    | UpsertOverride(override: RouteOverride)
    | DeleteOverride(prefix: string)
    | UpsertLimit(limit: RateLimitRow)
    | DeleteLimit(prefix: string)
    | UpsertBehavior(behavior: BehaviorRow)
    | DeleteBehavior(prefix: string)
    | ImportPolicy(body: Import)
    | Save(id: string)
    | Restore(id: string)
    | Tamper(id: string)

  type Digest = Canonical -> string

  ghost function DigestOf(p: LivePolicy, hash: Digest): string {
    hash(CanonicalOf(p))
  }

  /** The digest does not tell the two policies apart although their canonical forms differ. */
  ghost predicate Collide(p: LivePolicy, q: LivePolicy, hash: Digest) {
    CanonicalOf(p) != CanonicalOf(q) && DigestOf(p, hash) == DigestOf(q, hash)
  }

  function NextVersion(version: nat): nat {
    if version < MAX_VERSION then version + 1 else version
  }

  function Edited(s: State, p: LivePolicy): State {
    State(NextVersion(s.version), Some(s.version), p, s.bundles)
  }

  /** A bundle as read back: an empty digest is recomputed. */
  ghost function Loaded(b: Bundle, hash: Digest): Bundle {
    if b.digest == "" then b.(digest := DigestOf(b.policy, hash)) else b
  }

  datatype Outcome = NotFound | DigestMismatch | FailsValidation | Restored

  ghost function OutcomeFor(stored: Bundle, hash: Digest): Outcome {
    var b := Loaded(stored, hash);
    if DigestOf(b.policy, hash) != b.digest then DigestMismatch
    else if !ValidImport(ImportOf(b.policy)) then FailsValidation
    else Restored
  }

  ghost function RestoreOutcome(s: State, id: string, hash: Digest): Outcome {
    if id !in s.bundles then NotFound else OutcomeFor(s.bundles[id], hash)
  }

  function Marked(p: LivePolicy): LivePolicy {
    p.(globalModes := p.globalModes[TAMPER_MARKER := DetectOnly])
  }

  function Tampered(b: Bundle): Bundle {
    b.(policy := Marked(b.policy))
  }

  function WithoutOverride(p: LivePolicy, prefix: string): LivePolicy {
    p.(routeOverrides := WithoutKey(p.routeOverrides, OverrideKey, prefix))
  }

  function WithoutLimit(p: LivePolicy, prefix: string): LivePolicy {
    p.(rateLimits := WithoutKey(p.rateLimits, RateLimitKey, prefix))
  }

  function WithoutBehavior(p: LivePolicy, prefix: string): LivePolicy {
    p.(behaviorOverrides := WithoutKey(p.behaviorOverrides, BehaviorKey, prefix))
  }

  function Saved(s: State, id: string, digest: string): State {
    if id in s.bundles then s else s.(bundles := s.bundles[id := Bundle(s.policy, digest)])
  }

  ghost function Step(s: State, e: Event, hash: Digest): State {
    var p := s.policy;
    match e
    case SetGlobal(ruleId, mode) => Edited(s, p.(globalModes := p.globalModes[ruleId := mode]))
    case UpsertOverride(r) => Edited(s, p.(routeOverrides := Upsert(p.routeOverrides, r, OverrideKey)))
    case UpsertLimit(r) => Edited(s, p.(rateLimits := Upsert(p.rateLimits, r, RateLimitKey)))
    case UpsertBehavior(r) => Edited(s, p.(behaviorOverrides := Upsert(p.behaviorOverrides, r, BehaviorKey)))
    case DeleteOverride(prefix) => if WithoutOverride(p, prefix) != p then Edited(s, WithoutOverride(p, prefix)) else s
    case DeleteLimit(prefix) => if WithoutLimit(p, prefix) != p then Edited(s, WithoutLimit(p, prefix)) else s
    case DeleteBehavior(prefix) => if WithoutBehavior(p, prefix) != p then Edited(s, WithoutBehavior(p, prefix)) else s
    case ImportPolicy(body) => if ValidImport(body) then Edited(s, Imported(p, body)) else s
    case Save(id) => Saved(s, id, DigestOf(p, hash))
    case Restore(id) => if RestoreOutcome(s, id, hash) == Restored then Edited(s, s.bundles[id].policy) else s
    case Tamper(id) => if id in s.bundles then s.(bundles := s.bundles[id := Tampered(s.bundles[id])]) else s
  }

  ghost function Run(s: State, es: seq<Event>, hash: Digest): State {
    if es == [] then s else Step(Run(s, es[..|es| - 1], hash), es[|es| - 1], hash)
  }

  // Saved bundles over runs

  lemma BundleAfterStep(s: State, id: string, e: Event, hash: Digest)
    requires id in s.bundles
    ensures id in Step(s, e, hash).bundles
    ensures Step(s, e, hash).bundles[id] == if e == Tamper(id) then Tampered(s.bundles[id]) else s.bundles[id]
  {
  }

  lemma TamperOnce(b: Bundle)
    ensures Tampered(Tampered(b)) == Tampered(b)
  {
    assert Marked(Marked(b.policy)).globalModes == Marked(b.policy).globalModes;
  }

  /** A saved bundle survives every run, changed by nothing but tampering with it. */
  lemma {:induction false} BundleAfter(s: State, id: string, es: seq<Event>, hash: Digest)
    requires id in s.bundles
    ensures id in Run(s, es, hash).bundles
    ensures Run(s, es, hash).bundles[id] == if Tamper(id) in es then Tampered(s.bundles[id]) else s.bundles[id]
  {
    if es == [] {
    } else {
      var before, e := es[..|es| - 1], es[|es| - 1];
      BundleAfter(s, id, before, hash);
      BundleAfterStep(Run(s, before, hash), id, e, hash);
      TamperOnce(s.bundles[id]);
      assert Tamper(id) in es <==> Tamper(id) in before || e == Tamper(id);
    }
  }

  predicate AlreadyMarked(p: LivePolicy) {
    "phase14.tamper.marker" in p.globalModes && p.globalModes["phase14.tamper.marker"] == DetectOnly
  }

  lemma MarkerIsValidName()
    ensures ValidName(TAMPER_MARKER, 80)
  {
    forall c | c in TAMPER_MARKER
      ensures c in LOWER_LETTERS || c in UPPER_LETTERS || c in DIGITS || c in "._-"
    {
      IdCharExactly(c);
    }
  }

  lemma MarkedIsSame(p: LivePolicy)
    ensures AlreadyMarked(p) <==> Marked(p) == p
  {
    if AlreadyMarked(p) {
      assert Marked(p).globalModes == p.globalModes;
    } else {
      assert Marked(p).globalModes[TAMPER_MARKER] == DetectOnly;
    }
  }

  /** Marking shows in the canonical form exactly when it changes the policy. */
  lemma MarkedShows(p: LivePolicy)
    ensures CanonicalOf(Marked(p)) == CanonicalOf(p) <==> AlreadyMarked(p)
  {
    MarkedIsSame(p);
    CanonicalAgrees(Marked(p), p);
  }

  /** Marking never changes whether a policy is a valid import. */
  lemma MarkedIsValid(p: LivePolicy)
    ensures ValidImport(ImportOf(Marked(p))) <==> ValidImport(ImportOf(p))
  {
    MarkerIsValidName();
    assert forall id :: id in Marked(p).globalModes <==> id in p.globalModes || id == TAMPER_MARKER;
    assert ValidModes(Marked(p).globalModes) <==> ValidModes(p.globalModes);
  }

  lemma TamperedOutcome(p: LivePolicy, hash: Digest)
    ensures OutcomeFor(Tampered(Bundle(p, DigestOf(p, hash))), hash) ==
      if !AlreadyMarked(p) && DigestOf(p, hash) != "" && !Collide(p, Marked(p), hash) then DigestMismatch
      else if !ValidImport(ImportOf(p)) then FailsValidation
      else Restored
  {
    MarkedShows(p);
    MarkedIsValid(p);
  }

  lemma SavedOutcome(p: LivePolicy, hash: Digest)
    ensures OutcomeFor(Bundle(p, DigestOf(p, hash)), hash) == if !ValidImport(ImportOf(p)) then FailsValidation else Restored
  {
  }

  lemma SavedBundleAfter(s: State, id: string, es: seq<Event>, hash: Digest)
    requires id !in s.bundles
    ensures var t, saved := Run(Step(s, Save(id), hash), es, hash), Bundle(s.policy, DigestOf(s.policy, hash));
      id in t.bundles && t.bundles[id] == if Tamper(id) in es then Tampered(saved) else saved
  {
    BundleAfter(Step(s, Save(id), hash), id, es, hash);
  }

  /**
   * The outcome of restoring a bundle saved before the run, under any digest: refused exactly when the
   * bundle was tampered with, the marker was new and the digest shows it, and otherwise rejected exactly
   * when the policy is not a valid import. An empty digest is recomputed and so shows nothing.
   */
  lemma RestoreAfterRun(s: State, id: string, es: seq<Event>, hash: Digest)
    requires id !in s.bundles
    ensures RestoreOutcome(Run(Step(s, Save(id), hash), es, hash), id, hash) ==
      if Tamper(id) in es && !AlreadyMarked(s.policy) && DigestOf(s.policy, hash) != ""
         && !Collide(s.policy, Marked(s.policy), hash) then DigestMismatch
      else if !ValidImport(ImportOf(s.policy)) then FailsValidation
      else Restored
  {
    SavedBundleAfter(s, id, es, hash);
    SavedOutcome(s.policy, hash);
    TamperedOutcome(s.policy, hash);
  }

  /** Save, any run that leaves the bundle alone, restore: the saved policy is live again, or nothing changed. */
  lemma SaveRunRestore(s: State, id: string, es: seq<Event>, hash: Digest)
    requires id !in s.bundles && Tamper(id) !in es
    ensures var t := Run(Step(s, Save(id), hash), es, hash);
      var u := Step(t, Restore(id), hash);
      if ValidImport(ImportOf(s.policy)) then
        && id in t.bundles
        && u == State(NextVersion(t.version), Some(t.version), s.policy, t.bundles)
        && !ComputeDiff(u.policy, u.bundles[id].policy).hasChanges
        && Verify(u.bundles[id], u.policy, hash).digestMatch
        && Verify(u.bundles[id], u.policy, hash).matchesLive
      else u == t
  {
    SavedBundleAfter(s, id, es, hash);
    SavedOutcome(s.policy, hash);
  }

  lemma {:induction false} RunConcat(s: State, a: seq<Event>, b: seq<Event>, hash: Digest)
    ensures Run(s, a + b, hash) == Run(Run(s, a, hash), b, hash)
  {
    if b == [] {
      assert a + b == a;
    } else {
      assert (a + b)[..|a + b| - 1] == a + b[..|b| - 1];
      RunConcat(s, a, b[..|b| - 1], hash);
    }
  }

  /** A restore that is refused, rejected or finds no bundle might as well not have been asked for. */
  lemma FailedRestoreIsInvisible(s: State, before: seq<Event>, id: string, after: seq<Event>, hash: Digest)
    requires RestoreOutcome(Run(s, before, hash), id, hash) != Restored
    ensures Run(s, before + [Restore(id)] + after, hash) == Run(s, before + after, hash)
  {
    RunConcat(s, before + [Restore(id)], after, hash);
    RunConcat(s, before, after, hash);
    assert (before + [Restore(id)])[..|before|] == before;
  }

  // Versions

  /** The event changes the live policy's version. */
  ghost predicate TakesEffect(s: State, e: Event, hash: Digest) {
    match e
    case DeleteOverride(prefix) => exists r :: r in s.policy.routeOverrides && r.pathPrefix == prefix
    case DeleteLimit(prefix) => exists r :: r in s.policy.rateLimits && r.pathPrefix == prefix
    case DeleteBehavior(prefix) => exists r :: r in s.policy.behaviorOverrides && r.pathPrefix == prefix
    case ImportPolicy(body) => ValidImport(body)
    case Restore(id) => RestoreOutcome(s, id, hash) == Restored
    case Save(_) => false
    case Tamper(_) => false
    case _ => true
  }

  lemma RemovedRow<T>(rows: seq<T>, key: T -> string, k: string)
    ensures WithoutKey(rows, key, k) != rows <==> exists r :: r in rows && key(r) == k
  {
    WithoutKeyKeepsAll(rows, key, k);
  }

  lemma StepVersion(s: State, e: Event, hash: Digest)
    ensures var t := Step(s, e, hash);
      if TakesEffect(s, e, hash) then t.version == NextVersion(s.version) && t.previous == Some(s.version)
      else t.version == s.version && t.previous == s.previous && t.policy == s.policy
  {
    match e
    case DeleteOverride(prefix) => RemovedRow(s.policy.routeOverrides, OverrideKey, prefix);
    case DeleteLimit(prefix) => RemovedRow(s.policy.rateLimits, RateLimitKey, prefix);
    case DeleteBehavior(prefix) => RemovedRow(s.policy.behaviorOverrides, BehaviorKey, prefix);
    case _ =>
  }

  ghost function Effective(s: State, es: seq<Event>, hash: Digest): nat {
    if es == [] then 0
    else
      var before := es[..|es| - 1];
      Effective(s, before, hash) + if TakesEffect(Run(s, before, hash), es[|es| - 1], hash) then 1 else 0
  }

  /** The version counts the events that took effect, up to saturation. */
  lemma {:induction false} VersionCounts(s: State, es: seq<Event>, hash: Digest)
    requires s.version <= 18_446_744_073_709_551_615
    ensures var n := s.version + Effective(s, es, hash);
      Run(s, es, hash).version == if n <= 18_446_744_073_709_551_615 then n else 18_446_744_073_709_551_615
    ensures Effective(s, es, hash) == 0 ==>
      Run(s, es, hash).policy == s.policy && Run(s, es, hash).previous == s.previous
  {
    if es == [] {
    } else {
      var before := es[..|es| - 1];
      VersionCounts(s, before, hash);
      StepVersion(Run(s, before, hash), es[|es| - 1], hash);
    }
  }

  /** Below saturation an unchanged version means an unchanged policy. */
  lemma SameVersionSamePolicy(s: State, es: seq<Event>, hash: Digest)
    requires s.version < MAX_VERSION && Run(s, es, hash).version == s.version
    ensures Run(s, es, hash).policy == s.policy
  {
    VersionCounts(s, es, hash);
  }

  // Comparing a bundle with the live policy

  datatype Diff = Diff(
    hasChanges: bool, mode: bool, globalModes: bool, routeOverrides: bool,
    rateLimits: bool, behaviorOverrides: bool, exceptions: bool)

  /** The live policy with the flagged fields taken from the saved one. */
  function Patch(live: LivePolicy, saved: LivePolicy, d: Diff): LivePolicy {
    LivePolicy(
      if d.mode then saved.mode else live.mode,
      if d.globalModes then saved.globalModes else live.globalModes,
      if d.routeOverrides then saved.routeOverrides else live.routeOverrides,
      if d.rateLimits then saved.rateLimits else live.rateLimits,
      if d.behaviorOverrides then saved.behaviorOverrides else live.behaviorOverrides,
      if d.exceptions then saved.exceptions else live.exceptions)
  }

  /** Every field flagged in `d` is flagged in `e`. */
  predicate FlagsWithin(d: Diff, e: Diff) {
    && (d.mode ==> e.mode) && (d.globalModes ==> e.globalModes) && (d.routeOverrides ==> e.routeOverrides)
    && (d.rateLimits ==> e.rateLimits) && (d.behaviorOverrides ==> e.behaviorOverrides) && (d.exceptions ==> e.exceptions)
  }

  /** The flags are the fewest that turn the live policy into the saved one. */
  function ComputeDiff(live: LivePolicy, saved: LivePolicy): (d: Diff)
    ensures d.hasChanges <==> live != saved
    ensures Patch(live, saved, d) == saved
    ensures forall e :: Patch(live, saved, e) == saved ==> FlagsWithin(d, e)
  {
    Diff(
      || live.globalModes != saved.globalModes
      || live.mode != saved.mode
      || live.routeOverrides != saved.routeOverrides
      || live.rateLimits != saved.rateLimits
      || live.behaviorOverrides != saved.behaviorOverrides
      || live.exceptions != saved.exceptions,
      live.mode != saved.mode,
      live.globalModes != saved.globalModes,
      live.routeOverrides != saved.routeOverrides,
      live.rateLimits != saved.rateLimits,
      live.behaviorOverrides != saved.behaviorOverrides,
      live.exceptions != saved.exceptions)
  }

  datatype Verification = Verification(stored: string, recomputed: string, live: string, digestMatch: bool, matchesLive: bool)

  ghost function Verify(b: Bundle, live: LivePolicy, hash: Digest): Verification {
    var stored, recomputed := Loaded(b, hash).digest, DigestOf(b.policy, hash);
    Verification(stored, recomputed, DigestOf(live, hash), stored == recomputed, recomputed == DigestOf(live, hash))
  }

  /**
   * Verification accepts exactly the policies equal up to row order, and those whose digest collides;
   * the difference report is finer.
   */
  lemma VerifyAgainstDiff(b: Bundle, live: LivePolicy, hash: Digest)
    ensures Verify(b, live, hash).matchesLive <==> SamePolicy(b.policy, live) || Collide(b.policy, live, hash)
    ensures !ComputeDiff(live, b.policy).hasChanges ==> Verify(b, live, hash).matchesLive
    ensures DistinctSortKeys(live) && Reordered(live, b.policy) ==> Verify(b, live, hash).matchesLive
  {
    CanonicalAgrees(b.policy, live);
    if DistinctSortKeys(live) && Reordered(live, b.policy) {
      ReorderingIsInvisible(live, b.policy);
    }
  }

  // What an edit does to requests

  /** An upserted limit governs the paths that its prefix alone covers, and deleting it restores the default there. */
  lemma UpsertedLimitGoverns(s: State, r: RateLimitRow, path: string, requests: nat, windowSecs: nat, hash: Digest)
    requires r.pathPrefix <= path
    requires var rows := Step(s, UpsertLimit(r), hash).policy.rateLimits;
      OnlyKeyMatches(rows, RateLimitKey, CoversPath(path), r.pathPrefix)
    ensures var t := Step(s, UpsertLimit(r), hash);
      && ResolveRateLimit(t.policy.rateLimits, path, requests, windowSecs) == r
      && ResolveRateLimit(Step(t, DeleteLimit(r.pathPrefix), hash).policy.rateLimits, path, requests, windowSecs)
         == RateLimitRow("default", requests, windowSecs)
  {
    UpsertedRowIsFound(s.policy.rateLimits, r, RateLimitKey, CoversPath(path), Whole(), RateLimitRow("default", requests, windowSecs));
  }

  /** An upserted override sets its rules' modes on the paths it alone covers; deleting it leaves the global mode. */
  lemma UpsertedOverrideGoverns(s: State, r: RouteOverride, path: string, ruleId: string, hash: Digest)
    requires r.pathPrefix <= path && ruleId in r.ruleModes
    requires var rows := Step(s, UpsertOverride(r), hash).policy.routeOverrides;
      OnlyKeyMatches(rows, OverrideKey, CoversRule(path, ruleId), r.pathPrefix)
    ensures var t := Step(s, UpsertOverride(r), hash);
      && ResolveRuleMode(t.policy, path, ruleId) == r.ruleModes[ruleId]
      && ResolveRuleMode(Step(t, DeleteOverride(r.pathPrefix), hash).policy, path, ruleId)
         == GlobalMode(s.policy.globalModes, ruleId)
  {
    UpsertedRowIsFound(s.policy.routeOverrides, r, OverrideKey, CoversRule(path, ruleId), ModeFor(ruleId),
                       GlobalMode(s.policy.globalModes, ruleId));
  }

  /** An upserted behaviour override sets what it states and leaves the rest to the configuration. */
  lemma UpsertedBehaviorGoverns(s: State, r: BehaviorRow, path: string, default: RouteBehavior, hash: Digest)
    requires r.pathPrefix <= path
    requires var rows := Step(s, UpsertBehavior(r), hash).policy.behaviorOverrides;
      OnlyKeyMatches(rows, BehaviorKey, CoversBehavior(path), r.pathPrefix)
    ensures var t := Step(s, UpsertBehavior(r), hash);
      var b := ResolveRouteBehavior(t.policy.behaviorOverrides, path, default);
      && (r.warmup.Some? ==> b.warmup == r.warmup.value) && (r.warmup.None? ==> b.warmup == default.warmup)
      && (r.threshold.Some? ==> b.threshold == r.threshold.value) && (r.threshold.None? ==> b.threshold == default.threshold)
      && (r.windowSecs.Some? ==> b.windowSecs == r.windowSecs.value) && (r.windowSecs.None? ==> b.windowSecs == default.windowSecs)
      && ResolveRouteBehavior(Step(t, DeleteBehavior(r.pathPrefix), hash).policy.behaviorOverrides, path, default) == default
  {
    UpsertedRowIsFound(s.policy.behaviorOverrides, r, BehaviorKey, CoversBehavior(path), BehaviorIn(default), default);
  }

  /** Setting a global mode decides the rule wherever no override does, and no other rule anywhere. */
  lemma GlobalModeGoverns(s: State, ruleId: string, mode: RuleMode, path: string, other: string, hash: Digest)
    ensures var p, q := s.policy, Step(s, SetGlobal(ruleId, mode), hash).policy;
      && ((forall r :: r in p.routeOverrides && r.pathPrefix <= path ==> ruleId !in r.ruleModes)
            ==> ResolveRuleMode(q, path, ruleId) == mode)
      && ((other != ruleId || exists r :: r in p.routeOverrides && r.pathPrefix <= path && ruleId in r.ruleModes)
            ==> ResolveRuleMode(q, path, other) == ResolveRuleMode(p, path, other))
  {
    FirstIsMember(s.policy.routeOverrides, CoversRule(path, ruleId));
    if exists r :: r in s.policy.routeOverrides && r.pathPrefix <= path && ruleId in r.ruleModes {
      var r :| r in s.policy.routeOverrides && r.pathPrefix <= path && ruleId in r.ruleModes;
      assert CoversRule(path, ruleId)(r);
    }
  }

  // The handlers

  class LivePolicyStore {
    const hash: Digest
    var version: nat
    var previous: Option<nat>
    var policy: LivePolicy
    var bundles: map<string, Bundle>

    constructor (configured: LivePolicy, stored: map<string, Bundle>, hash: Digest)
      ensures View() == State(1, None, configured, stored) && this.hash == hash
    {
      version, previous, policy, bundles := 1, None, configured, stored;
      this.hash := hash;
    }

    ghost function View(): State
      reads this
    {
      State(version, previous, policy, bundles)
    }

    method BumpPolicyVersion()
      modifies this`version, this`previous
      ensures version == NextVersion(old(version)) && previous == Some(old(version))
    {
      previous := Some(version);
      version := NextVersion(version);
    }

    method ComputeDigest(p: LivePolicy) returns (digest: string)
      ensures digest == DigestOf(p, hash)
    {
      var c := Canonicalise(p);
      digest := hash(c);
    }

    method SetGlobalRuleMode(ruleId: string, mode: RuleMode)
      modifies this
      ensures View() == Step(old(View()), SetGlobal(ruleId, mode), hash)
    {
      policy := policy.(globalModes := policy.globalModes[ruleId := mode]);
      BumpPolicyVersion();
    }

    method UpsertRouteOverride(row: RouteOverride)
      modifies this
      ensures View() == Step(old(View()), UpsertOverride(row), hash)
    {
      var rows := UpsertRow(policy.routeOverrides, row, OverrideKey);
      policy := policy.(routeOverrides := rows);
      BumpPolicyVersion();
    }

    method UpsertRouteRateLimit(row: RateLimitRow)
      modifies this
      ensures View() == Step(old(View()), UpsertLimit(row), hash)
    {
      var rows := UpsertRow(policy.rateLimits, row, RateLimitKey);
      policy := policy.(rateLimits := rows);
      BumpPolicyVersion();
    }

    method UpsertRouteBehaviorOverride(row: BehaviorRow)
      modifies this
      ensures View() == Step(old(View()), UpsertBehavior(row), hash)
    {
      var rows := UpsertRow(policy.behaviorOverrides, row, BehaviorKey);
      policy := policy.(behaviorOverrides := rows);
      BumpPolicyVersion();
    }

    method DeleteRouteOverride(prefix: string) returns (removed: bool)
      modifies this
      ensures View() == Step(old(View()), DeleteOverride(prefix), hash)
      ensures removed <==> TakesEffect(old(View()), DeleteOverride(prefix), hash)
    {
      RemovedRow(policy.routeOverrides, OverrideKey, prefix);
      WithoutKeyKeepsAll(policy.routeOverrides, OverrideKey, prefix);
      var before := |policy.routeOverrides|;
      policy := WithoutOverride(policy, prefix);
      removed := before != |policy.routeOverrides|;
      if removed {
        BumpPolicyVersion();
      }
    }

    method DeleteRouteRateLimit(prefix: string) returns (removed: bool)
      modifies this
      ensures View() == Step(old(View()), DeleteLimit(prefix), hash)
      ensures removed <==> TakesEffect(old(View()), DeleteLimit(prefix), hash)
    {
      RemovedRow(policy.rateLimits, RateLimitKey, prefix);
      WithoutKeyKeepsAll(policy.rateLimits, RateLimitKey, prefix);
      var before := |policy.rateLimits|;
      policy := WithoutLimit(policy, prefix);
      removed := before != |policy.rateLimits|;
      if removed {
        BumpPolicyVersion();
      }
    }

    method DeleteRouteBehaviorOverride(prefix: string) returns (removed: bool)
      modifies this
      ensures View() == Step(old(View()), DeleteBehavior(prefix), hash)
      ensures removed <==> TakesEffect(old(View()), DeleteBehavior(prefix), hash)
    {
      RemovedRow(policy.behaviorOverrides, BehaviorKey, prefix);
      WithoutKeyKeepsAll(policy.behaviorOverrides, BehaviorKey, prefix);
      var before := |policy.behaviorOverrides|;
      policy := WithoutBehavior(policy, prefix);
      removed := before != |policy.behaviorOverrides|;
      if removed {
        BumpPolicyVersion();
      }
    }

    method ImportLivePolicy(body: Import) returns (ok: bool)
      modifies this
      ensures View() == Step(old(View()), ImportPolicy(body), hash)
      ensures ok <==> ValidImport(body)
      ensures ok ==>
        && policy.mode == (if body.mode.Some? then body.mode.value else old(policy).mode)
        && policy == LivePolicy(policy.mode, body.globalModes, body.routeOverrides, body.rateLimits, body.behaviorOverrides, body.exceptions)
      ensures !ok ==> policy == old(policy) && version == old(version)
    {
      ok := ValidateLivePolicyImport(body);
      if ok {
        BumpPolicyVersion();
        if body.mode.Some? {
          policy := policy.(mode := body.mode.value);
        }
        policy := policy.(
          globalModes := body.globalModes, routeOverrides := body.routeOverrides, rateLimits := body.rateLimits,
          behaviorOverrides := body.behaviorOverrides, exceptions := body.exceptions);
      }
    }

    /** The bundle table refuses a second row with the same id. */
    method SavePolicyBundle(id: string) returns (ok: bool)
      modifies this`bundles
      ensures View() == Step(old(View()), Save(id), hash)
      ensures ok <==> id !in old(bundles)
    {
      var digest := ComputeDigest(policy);
      ok := id !in bundles;
      if ok {
        bundles := bundles[id := Bundle(policy, digest)];
      }
    }

    method GetPolicyBundle(id: string) returns (found: Option<Bundle>)
      ensures found == if id in bundles then Some(Loaded(bundles[id], hash)) else None
    {
      if id !in bundles {
        return None;
      }
      var b := bundles[id];
      if b.digest == "" {
        var digest := ComputeDigest(b.policy);
        b := b.(digest := digest);
      }
      found := Some(b);
    }

    method RestorePolicyBundle(id: string) returns (outcome: Outcome)
      modifies this
      ensures View() == Step(old(View()), Restore(id), hash)
      ensures outcome == RestoreOutcome(old(View()), id, hash)
    {
      var found := GetPolicyBundle(id);
      if found.None? {
        return NotFound;
      }
      var b := found.value;
      var recomputed := ComputeDigest(b.policy);
      if recomputed != b.digest {
        return DigestMismatch;
      }
      var ok := ValidateLivePolicyImport(ImportOf(b.policy));
      if !ok {
        return FailsValidation;
      }
      BumpPolicyVersion();
      policy := b.policy;
      outcome := Restored;
    }

    method VerifyPolicyBundle(id: string) returns (result: Option<Verification>)
      ensures result == if id in bundles then Some(Verify(bundles[id], policy, hash)) else None
    {
      var found := GetPolicyBundle(id);
      if found.None? {
        return None;
      }
      var b := found.value;
      var recomputed := ComputeDigest(b.policy);
      var live := ComputeDigest(policy);
      result := Some(Verification(b.digest, recomputed, live, b.digest == recomputed, recomputed == live));
    }

    method TamperPolicyBundle(id: string) returns (found: bool)
      modifies this`bundles
      ensures View() == Step(old(View()), Tamper(id), hash)
      ensures found <==> id in old(bundles)
    {
      found := id in bundles;
      if found {
        bundles := bundles[id := Tampered(bundles[id])];
      }
    }
  }
}
