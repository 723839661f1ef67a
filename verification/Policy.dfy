/** The decision over a request's findings. */
module Policy {
  import opened Text
  import opened Findings
  import opened Numbers
  import opened Permutations

  datatype DetectorException = DetectorException(
    detectorId: string, pathPrefix: Option<string>, parameter: Option<string>,
    minConfidence: Option<real>, monitorOnly: bool, reason: Option<string>)

  datatype SecurityConfig = SecurityConfig(
    minBlockConfidence: real, minBlockScore: real, tempSuspiciousSecs: nat, tempBanSecs: nat)

  // Risk

  function SeverityWeight(s: Severity): real {
    match s
    case Low => 1.0
    case Medium => 2.0
    case High => 3.5
    case Critical => 5.0
  }

  function ClassFactor(c: AttackClass): real {
    match c
    case SchemaViolation => 2.0
    case JwtAbuse => 2.0
    case BrokenAuthentication => 2.0
    case ObjectEnumeration => 2.5
    case TenantBoundaryViolation => 2.5
    case BehaviorAnomaly => 2.5
    case BruteForce => 2.5
    case RateLimitExceeded => 2.5
    case _ => 0.0
  }

  function RiskOf(): Finding -> real {
    (f: Finding) => ClassFactor(f.class_) * SeverityWeight(f.severity)
  }

  function ReputationRisk(reputation: int): real {
    (if reputation > 0 then reputation else 0) as real * 1.5
  }

  /** The risk of a request, each finding weighed on its own. */
  function Risk(fs: seq<Finding>, reputation: int): real {
    Total(fs, RiskOf()) + ReputationRisk(reputation)
  }

  lemma RiskOfNext(fs: seq<Finding>, i: nat)
    requires i < |fs|
    ensures Total(fs[..i + 1], RiskOf()) ==
      Total(fs[..i], RiskOf()) + ClassFactor(fs[i].class_) * SeverityWeight(fs[i].severity)
  {
    assert fs[..i + 1] == fs[..i] + [fs[i]];
    TotalAppend(fs[..i], fs[i], RiskOf());
  }

  /** The accumulators by group of attack classes add up to the same. */
  method CalculateRisk(fs: seq<Finding>, reputation: int) returns (risk: real)
    ensures risk == Risk(fs, reputation)
  {
    var schemaViolation, behaviorAnomaly, tokenRisk, objectAbuse := 0.0, 0.0, 0.0, 0.0;
    assert fs[..0] == [];
    for i := 0 to |fs|
      invariant schemaViolation * 2.0 + behaviorAnomaly * 2.5 + objectAbuse * 2.5 + tokenRisk * 2.0
             == Total(fs[..i], RiskOf())
    {
      var weight := SeverityWeight(fs[i].severity);
      RiskOfNext(fs, i);
      match fs[i].class_
      case SchemaViolation => schemaViolation := schemaViolation + weight;
      case JwtAbuse => tokenRisk := tokenRisk + weight;
      case BrokenAuthentication => tokenRisk := tokenRisk + weight;
      case ObjectEnumeration => objectAbuse := objectAbuse + weight;
      case TenantBoundaryViolation => objectAbuse := objectAbuse + weight;
      case BehaviorAnomaly => behaviorAnomaly := behaviorAnomaly + weight;
      case BruteForce => behaviorAnomaly := behaviorAnomaly + weight;
      case RateLimitExceeded => behaviorAnomaly := behaviorAnomaly + weight;
      case _ =>
    }
    assert fs[..|fs|] == fs;
    risk := schemaViolation * 2.0 + behaviorAnomaly * 2.5 + objectAbuse * 2.5 + tokenRisk * 2.0
          + (if reputation > 0 then reputation else 0) as real * 1.5;
  }

  /** How many findings of the severity belong to one of the classes. */
  function CountIn(fs: seq<Finding>, classes: set<AttackClass>, severity: Severity): nat {
    if fs == [] then 0
    else
      var last := fs[|fs| - 1];
      CountIn(fs[..|fs| - 1], classes, severity) + if last.class_ in classes && last.severity == severity then 1 else 0
  }

  /** Schema, token and authentication findings count double, those of abuse and anomaly two and a half times. */
  function Weighed(fs: seq<Finding>, severity: Severity): real {
    2.0 * CountIn(fs, {SchemaViolation, JwtAbuse, BrokenAuthentication}, severity) as real
    + 2.5 * CountIn(fs, {ObjectEnumeration, TenantBoundaryViolation, BehaviorAnomaly, BruteForce, RateLimitExceeded}, severity) as real
  }

  lemma WeighedAppend(fs: seq<Finding>, severity: Severity)
    requires fs != []
    ensures var last := fs[|fs| - 1];
      Weighed(fs, severity) == Weighed(fs[..|fs| - 1], severity) + if last.severity == severity then ClassFactor(last.class_) else 0.0
  {
  }

  /** The risk in terms of how many findings of each class and severity there are, and of the reputation. */
  lemma {:induction false} RiskByCounts(fs: seq<Finding>, reputation: int)
    ensures Risk(fs, reputation) ==
      Weighed(fs, Low) + 2.0 * Weighed(fs, Medium) + 3.5 * Weighed(fs, High) + 5.0 * Weighed(fs, Critical)
      + if reputation > 0 then 1.5 * reputation as real else 0.0
  {
    if fs == [] {
    } else {
      RiskByCounts(fs[..|fs| - 1], reputation);
      WeighedAppend(fs, Low);
      WeighedAppend(fs, Medium);
      WeighedAppend(fs, High);
      WeighedAppend(fs, Critical);
      RiskOfLast(fs);
    }
  }

  lemma RiskOfLast(fs: seq<Finding>)
    requires fs != []
    ensures var f := fs[|fs| - 1];
      Total(fs, RiskOf()) == Total(fs[..|fs| - 1], RiskOf()) + ClassFactor(f.class_) *
        (match f.severity case Low => 1.0 case Medium => 2.0 case High => 3.5 case Critical => 5.0)
  {
  }

  // Modes and exceptions

  function EffectiveRuleMode(policy: PolicyMode, rule: RuleMode): RuleMode {
    match policy
    case Monitor => DetectOnly
    case Balanced => rule
    case Strict => if rule == DetectOnly then Recommend else rule
  }

  predicate MatchesParameter(f: Finding, parameter: string) {
    var normalized := Lower(Trim(parameter));
    normalized != "" &&
    exists i :: 0 <= i < |f.locations| &&
      var location := Lower(f.locations[i]);
      location == normalized || EndsWith(location, "." + normalized) || EndsWith(location, "[" + normalized + "]")
  }

  predicate Applies(e: DetectorException, f: Finding, path: string) {
    && e.detectorId == f.ruleId
    && (e.pathPrefix.Some? ==> e.pathPrefix.value <= path)
    && (e.minConfidence.Some? ==> f.confidence >= e.minConfidence.value)
    && (e.parameter.Some? ==> MatchesParameter(f, e.parameter.value))
    && e.monitorOnly
  }

  /** A location of the finding is the parameter, or ends in it after a dot or within brackets, in any case. */
  ghost predicate Names(f: Finding, parameter: string) {
    parameter != "" && exists i, before :: 0 <= i < |f.locations| && NamedAt(f.locations[i], parameter, before)
  }

  ghost predicate NamedAt(location: string, parameter: string, before: string) {
    || EqIgnoreCase(location, parameter)
    || EqIgnoreCase(location, before + "." + parameter)
    || EqIgnoreCase(location, before + "[" + parameter + "]")
  }

  lemma EndsIgnoringCase(location: string, suffix: string)
    ensures EndsWith(Lower(location), Lower(suffix)) <==> exists before :: EqIgnoreCase(location, before + suffix)
  {
    if EndsWith(Lower(location), Lower(suffix)) {
      var before := location[..|location| - |suffix|];
      LowerConcat(before, suffix);
      assert Lower(location) == Lower(before) + Lower(suffix);
    }
    if exists before :: EqIgnoreCase(location, before + suffix) {
      var before :| EqIgnoreCase(location, before + suffix);
      LowerConcat(before, suffix);
    }
  }

  lemma LocationMatches(location: string, parameter: string)
    ensures var l, p := Lower(location), Lower(parameter);
      (l == p || EndsWith(l, "." + p) || EndsWith(l, "[" + p + "]")) <==> exists before :: NamedAt(location, parameter, before)
  {
    EndsIgnoringCase(location, "." + parameter);
    EndsIgnoringCase(location, "[" + parameter + "]");
    assert Lower("." + parameter) == "." + Lower(parameter);
    assert Lower("[" + parameter + "]") == "[" + Lower(parameter) + "]";
    forall before: string
      ensures before + ("." + parameter) == before + "." + parameter
      ensures before + ("[" + parameter + "]") == before + "[" + parameter + "]"
    {
    }
    if EqIgnoreCase(location, parameter) {
      assert NamedAt(location, parameter, "");
    }
    if before :| EqIgnoreCase(location, before + ("." + parameter)) {
      assert NamedAt(location, parameter, before);
    }
    if before :| EqIgnoreCase(location, before + ("[" + parameter + "]")) {
      assert NamedAt(location, parameter, before);
    }
  }

  lemma MatchesExactly(f: Finding, parameter: string)
    ensures MatchesParameter(f, parameter) <==> Names(f, Trim(parameter))
  {
    var p := Trim(parameter);
    forall i | 0 <= i < |f.locations|
      ensures (Lower(f.locations[i]) == Lower(p) || EndsWith(Lower(f.locations[i]), "." + Lower(p))
               || EndsWith(Lower(f.locations[i]), "[" + Lower(p) + "]"))
        <==> exists before :: NamedAt(f.locations[i], p, before)
    {
      LocationMatches(f.locations[i], p);
    }
  }

  /** An exception applies to the findings of its detector within all the limits it states, if it is monitor-only. */
  lemma AppliesExactly(e: DetectorException, f: Finding, path: string)
    ensures Applies(e, f, path) <==>
      && e.monitorOnly && e.detectorId == f.ruleId
      && (e.pathPrefix == None || exists rest :: path == e.pathPrefix.value + rest)
      && (e.minConfidence == None || e.minConfidence.value <= f.confidence)
      && (e.parameter == None || Names(f, Trim(e.parameter.value)))
  {
    if e.parameter.Some? {
      MatchesExactly(f, e.parameter.value);
    }
    if e.pathPrefix.Some? && e.pathPrefix.value <= path {
      assert path == e.pathPrefix.value + path[|e.pathPrefix.value|..];
    }
  }

  predicate Excepted(f: Finding, exceptions: seq<DetectorException>, path: string) {
    exists i :: 0 <= i < |exceptions| && Applies(exceptions[i], f, path)
  }

  function WithException(f: Finding, exceptions: seq<DetectorException>, path: string): Finding {
    if Excepted(f, exceptions, path) then f.(mode := DetectOnly) else f
  }

  function ApplyDetectorExceptions(fs: seq<Finding>, exceptions: seq<DetectorException>, path: string): (r: seq<Finding>)
    ensures |r| == |fs| && forall i :: 0 <= i < |fs| ==> r[i] == WithException(fs[i], exceptions, path)
  {
    seq(|fs|, i requires 0 <= i < |fs| => WithException(fs[i], exceptions, path))
  }

  function MinConfidence(config: SecurityConfig, policy: PolicyMode): real {
    if policy == Strict then Max(config.minBlockConfidence - 0.15, 0.55) else config.minBlockConfidence
  }

  function MinScore(config: SecurityConfig, policy: PolicyMode): real {
    if policy == Strict then Max(config.minBlockScore - 15.0, 35.0) else config.minBlockScore
  }

  predicate IsBlockingConfidenceMet(config: SecurityConfig, policy: PolicyMode, f: Finding) {
    && policy != Monitor
    && (f.severity == High || f.severity == Critical)
    && f.confidence >= MinConfidence(config, policy)
    && Score(f) >= MinScore(config, policy)
  }

  function BlockingRiskThreshold(policy: PolicyMode): real
    requires policy != Monitor
  {
    if policy == Balanced then 20.0 else 12.5
  }

  // The decision

  datatype Situation = Situation(
    config: SecurityConfig, policy: PolicyMode, exceptions: seq<DetectorException>, path: string, reputation: int)

  predicate BlocksBy(f: Finding, s: Situation) {
    && EffectiveRuleMode(s.policy, WithException(f, s.exceptions, s.path).mode) == BlockRule
    && IsBlockingConfidenceMet(s.config, s.policy, f)
  }

  ghost predicate HasCritical(fs: seq<Finding>) {
    exists f :: f in fs && f.severity == Critical
  }

  /** A request is rejected by one confident blocking finding, or by its risk if a finding is critical. */
  ghost predicate Rejects(fs: seq<Finding>, s: Situation) {
    || (exists f :: f in fs && BlocksBy(f, s))
    || (s.policy != Monitor && Risk(fs, s.reputation) >= BlockingRiskThreshold(s.policy) && HasCritical(fs))
  }

  /** The rule of the finding blocks: outside Monitor, in block mode and not excepted. */
  predicate Enforced(f: Finding, s: Situation) {
    s.policy != Monitor && f.mode == BlockRule && !Excepted(f, s.exceptions, s.path)
  }

  /** The score, `weight` times the confidence within [0, 1], is at least `floor`. */
  predicate Reaches(confidence: real, weight: real, floor: real) {
    if confidence < 0.0 then floor <= 0.0 else if confidence > 1.0 then weight >= floor else weight * confidence >= floor
  }

  function ScoreWeight(s: Severity): real {
    match s case Low => 20.0 case Medium => 45.0 case High => 70.0 case Critical => 90.0
  }

  lemma ScoreExactly(f: Finding, floor: real)
    ensures Score(f) >= floor <==> Reaches(f.confidence, ScoreWeight(f.severity), floor)
  {
  }

  /** An enforced finding of high severity that reaches the floors of the policy mode. */
  predicate Convicts(f: Finding, s: Situation) {
    && Enforced(f, s)
    && (f.severity == High || f.severity == Critical)
    && var c, w := f.confidence, ScoreWeight(f.severity);
      if s.policy == Strict then
        && c >= s.config.minBlockConfidence - 0.15 && c >= 0.55
        && Reaches(c, w, s.config.minBlockScore - 15.0) && Reaches(c, w, 35.0)
      else c >= s.config.minBlockConfidence && Reaches(c, w, s.config.minBlockScore)
  }

  /** What rejects a request, read off its findings, the exceptions and the configuration. */
  ghost predicate MustReject(fs: seq<Finding>, s: Situation) {
    || (exists f :: f in fs && Convicts(f, s))
    || ((exists f :: f in fs && f.severity == Critical)
        && ((s.policy == Balanced && Risk(fs, s.reputation) >= 20.0) || (s.policy == Strict && Risk(fs, s.reputation) >= 12.5)))
  }

  lemma BlocksExactly(f: Finding, s: Situation)
    ensures BlocksBy(f, s) <==> Convicts(f, s)
  {
    ScoreExactly(f, s.config.minBlockScore);
    ScoreExactly(f, s.config.minBlockScore - 15.0);
    ScoreExactly(f, 35.0);
  }

  /** The decision rejects exactly for a convicting finding, or for the risk of a request with a critical one. */
  lemma RejectsExactly(fs: seq<Finding>, s: Situation)
    ensures Rejects(fs, s) <==> MustReject(fs, s)
  {
    forall f | f in fs
      ensures BlocksBy(f, s) <==> Convicts(f, s)
    {
      BlocksExactly(f, s);
    }
  }

  /** Without a critical finding only a convicting one of high severity rejects. */
  lemma WithoutCritical(fs: seq<Finding>, s: Situation)
    requires forall f :: f in fs ==> f.severity != Critical
    ensures Rejects(fs, s) <==> exists f :: f in fs && f.severity == High && Convicts(f, s)
  {
    RejectsExactly(fs, s);
  }

  lemma MembersOfMore(fs: seq<Finding>, gs: seq<Finding>)
    requires multiset(fs) <= multiset(gs)
    ensures forall f :: f in fs ==> f in gs
  {
    forall f | f in fs
      ensures f in gs
    {
      assert f in multiset(fs);
      assert f in multiset(gs);
    }
  }

  /**
   * More findings in any order, a higher reputation and fewer detector exceptions never turn a
   * rejection into an admission.
   */
  lemma RejectionIsMonotone(fs: seq<Finding>, gs: seq<Finding>, s: Situation, t: Situation)
    requires multiset(fs) <= multiset(gs)
    requires t.config == s.config && t.policy == s.policy && t.path == s.path && s.reputation <= t.reputation
    requires forall e :: e in t.exceptions ==> e in s.exceptions
    ensures Rejects(fs, s) ==> Rejects(gs, t)
  {
    MembersOfMore(fs, gs);
    TotalOfMore(fs, gs, RiskOf());
    if Rejects(fs, s) && exists f :: f in fs && BlocksBy(f, s) {
      var f :| f in fs && BlocksBy(f, s);
      FewerExceptions(f, s.exceptions, t.exceptions, s.path);
      assert BlocksBy(f, t);
    }
  }

  lemma FewerExceptions(f: Finding, more: seq<DetectorException>, fewer: seq<DetectorException>, path: string)
    requires forall e :: e in fewer ==> e in more
    ensures Excepted(f, fewer, path) ==> Excepted(f, more, path)
  {
    if Excepted(f, fewer, path) {
      var i :| 0 <= i < |fewer| && Applies(fewer[i], f, path);
      assert fewer[i] in fewer;
      var j :| 0 <= j < |more| && more[j] == fewer[i];
    }
  }

  /** The outcome does not depend on the order of the findings or of the exceptions. */
  lemma OutcomeIgnoresOrder(fs: seq<Finding>, gs: seq<Finding>, s: Situation, exceptions: seq<DetectorException>)
    requires multiset(fs) == multiset(gs) && multiset(s.exceptions) == multiset(exceptions)
    ensures Rejects(fs, s) <==> Rejects(gs, s.(exceptions := exceptions))
  {
    SameMembers(s.exceptions, exceptions);
    RejectionIsMonotone(fs, gs, s, s.(exceptions := exceptions));
    RejectionIsMonotone(gs, fs, s.(exceptions := exceptions), s);
  }

  lemma MonitorNeverRejects(fs: seq<Finding>, s: Situation)
    requires s.policy == Monitor
    ensures !Rejects(fs, s)
  {
  }

  /** Below this, Strict's floor of 0.55 asks for more confidence than Balanced does. */
  predicate StrictFloorIsHarmless(config: SecurityConfig) {
    config.minBlockConfidence >= 0.55 || config.minBlockScore >= 49.5
  }

  lemma StrictBlocksMore(f: Finding, s: Situation)
    requires s.policy == Balanced && StrictFloorIsHarmless(s.config)
    ensures BlocksBy(f, s) ==> BlocksBy(f, s.(policy := Strict))
  {
  }

  lemma StrictRejectsMore(fs: seq<Finding>, s: Situation)
    requires s.policy == Balanced && StrictFloorIsHarmless(s.config)
    ensures Rejects(fs, s) ==> Rejects(fs, s.(policy := Strict))
  {
    if exists f :: f in fs && BlocksBy(f, s) {
      var f :| f in fs && BlocksBy(f, s);
      StrictBlocksMore(f, s);
    }
  }

  /** A finding that Balanced blocks on and Strict does not, under a configuration with lower floors. */
  function WeakCritical(config: SecurityConfig): Finding {
    Finding("UZ-SQLI-001", SqlInjection, Critical, Max(config.minBlockConfidence, config.minBlockScore / 90.0), [], BlockRule)
  }

  lemma StrictMissesWeakCritical(s: Situation)
    requires s.policy == Balanced && !StrictFloorIsHarmless(s.config) && s.exceptions == [] && s.reputation == 0
    ensures Rejects([WeakCritical(s.config)], s) && !Rejects([WeakCritical(s.config)], s.(policy := Strict))
  {
    var f := WeakCritical(s.config);
    assert f in [f] && BlocksBy(f, s);
    assert [f][..0] == [] && Total([f], RiskOf()) == 0.0;
  }

  ghost predicate StrictCoversBalanced(config: SecurityConfig) {
    forall fs: seq<Finding>, s: Situation ::
      s.config == config && s.policy == Balanced && Rejects(fs, s) ==> Rejects(fs, s.(policy := Strict))
  }

  /** Strict rejects everything Balanced does exactly for the configurations its floors do not exceed. */
  lemma StrictCoversBalancedExactly(config: SecurityConfig)
    ensures StrictCoversBalanced(config) <==> StrictFloorIsHarmless(config)
  {
    if StrictFloorIsHarmless(config) {
      forall fs: seq<Finding>, s: Situation | s.config == config && s.policy == Balanced && Rejects(fs, s)
        ensures Rejects(fs, s.(policy := Strict))
      {
        StrictRejectsMore(fs, s);
      }
    } else {
      var s := Situation(config, Balanced, [], "/", 0);
      StrictMissesWeakCritical(s);
    }
  }

  // Actions

  function ClassActions(c: AttackClass, config: SecurityConfig): seq<MitigationAction> {
    match c
    case SqlInjection | CommandInjection | HeaderInjection | PathTraversal | Xss | BrokenAuthentication
       | JwtAbuse | SchemaViolation | TenantBoundaryViolation | AuthAbuse =>
      [BlockRequest, MarkSourceSuspicious(config.tempSuspiciousSecs)]
    case BruteForce | RateLimitExceeded | BehaviorAnomaly | ObjectEnumeration | ResourceAbuse =>
      [ThrottleSource(config.tempSuspiciousSecs)]
    case PayloadEvasion => [MarkSourceSuspicious(config.tempSuspiciousSecs)]
    case MethodAbuse => [BlockRequest]
    case _ => []
  }

  function BlockActions(f: Finding, config: SecurityConfig): seq<MitigationAction> {
    ClassActions(f.class_, config)
    + if f.severity == Critical then [BlockSourceIpTemporary(config.tempBanSecs)] else []
  }

  /** The action follows from the class of the finding, or is the ban for a critical one. */
  predicate CallsFor(f: Finding, config: SecurityConfig, a: MitigationAction) {
    var judged := {SqlInjection, CommandInjection, HeaderInjection, PathTraversal, Xss, BrokenAuthentication,
                   JwtAbuse, SchemaViolation, TenantBoundaryViolation, AuthAbuse};
    || (a == BlockRequest && f.class_ in judged + {MethodAbuse})
    || (a == MarkSourceSuspicious(config.tempSuspiciousSecs) && f.class_ in judged + {PayloadEvasion})
    || (a == ThrottleSource(config.tempSuspiciousSecs)
        && f.class_ in {BruteForce, RateLimitExceeded, BehaviorAnomaly, ObjectEnumeration, ResourceAbuse})
    || (a == BlockSourceIpTemporary(config.tempBanSecs) && f.severity == Critical)
  }

  /** The actions for a finding are those it calls for, the request's own block first and the ban last. */
  lemma BlockActionsExactly(f: Finding, config: SecurityConfig, a: MitigationAction)
    ensures a in BlockActions(f, config) <==> CallsFor(f, config, a)
    ensures NoRepeats(BlockActions(f, config))
    ensures BlockRequest in BlockActions(f, config) ==> BlockActions(f, config)[0] == BlockRequest
    ensures f.severity == Critical ==>
      BlockActions(f, config)[|BlockActions(f, config)| - 1] == BlockSourceIpTemporary(config.tempBanSecs)
  {
    var c := ClassActions(f.class_, config);
    assert a in BlockActions(f, config) <==> a in c || (f.severity == Critical && a == BlockSourceIpTemporary(config.tempBanSecs));
  }

  lemma BlockRuledExactly(f: Finding, s: Situation)
    ensures BlockRuled(f, s) <==> Enforced(f, s)
  {
  }

  /** Findings that are not enforced take no action and reject nothing, in any mode, unless the risk of a critical one does. */
  lemma UnenforcedIsQuiet(fs: seq<Finding>, s: Situation)
    requires forall f :: f in fs ==> f.mode != BlockRule || Excepted(f, s.exceptions, s.path)
    ensures forall a :: a !in AllActions(fs, s)
    ensures (forall f :: f in fs ==> f.severity != Critical) ==> !Rejects(fs, s)
  {
    forall a
      ensures a !in AllActions(fs, s)
    {
      ActionsComeFromFindings(fs, s, a);
    }
    RejectsExactly(fs, s);
  }

  predicate BlockRuled(f: Finding, s: Situation) {
    EffectiveRuleMode(s.policy, WithException(f, s.exceptions, s.path).mode) == BlockRule
  }

  /** The actions one finding calls for. */
  function ActionsOf(f: Finding, s: Situation): seq<MitigationAction> {
    if BlockRuled(f, s) then BlockActions(f, s.config) else []
  }

  function AllActions(fs: seq<Finding>, s: Situation): seq<MitigationAction> {
    if fs == [] then [] else AllActions(fs[..|fs| - 1], s) + ActionsOf(fs[|fs| - 1], s)
  }

  /** The first occurrence of each action, in order. */
  function Dedupe(actions: seq<MitigationAction>): seq<MitigationAction> {
    if actions == [] then []
    else
      var rest, last := Dedupe(actions[..|actions| - 1]), actions[|actions| - 1];
      if last in rest then rest else rest + [last]
  }

  lemma {:induction false} DedupeSpec(actions: seq<MitigationAction>)
    ensures NoRepeats(Dedupe(actions))
    ensures forall a :: a in Dedupe(actions) <==> a in actions
  {
    if actions == [] {
    } else {
      DedupeSpec(actions[..|actions| - 1]);
      assert actions == actions[..|actions| - 1] + [actions[|actions| - 1]];
    }
  }

  /** The position of the first occurrence. */
  function FirstIndex(actions: seq<MitigationAction>, a: MitigationAction): (i: nat)
    requires a in actions
    ensures i < |actions| && actions[i] == a && forall j :: 0 <= j < i ==> actions[j] != a
  {
    if actions[0] == a then 0 else 1 + FirstIndex(actions[1..], a)
  }

  /** Deduplication keeps the order of first occurrences. */
  lemma {:induction false} DedupeInOrder(actions: seq<MitigationAction>, i: nat, j: nat)
    requires i < j < |Dedupe(actions)|
    ensures var d := Dedupe(actions);
      d[i] in actions && d[j] in actions && FirstIndex(actions, d[i]) < FirstIndex(actions, d[j])
  {
    var before, last := actions[..|actions| - 1], actions[|actions| - 1];
    assert actions == before + [last];
    var d, rest := Dedupe(actions), Dedupe(before);
    DedupeSpec(before);
    assert d[i] == rest[i] && rest[i] in before;
    FirstIndexInPrefix(before, last, d[i]);
    if j < |rest| {
      DedupeInOrder(before, i, j);
      FirstIndexInPrefix(before, last, d[j]);
    } else {
      assert d[j] == last && last !in before;
    }
  }

  lemma FirstIndexInPrefix(before: seq<MitigationAction>, last: MitigationAction, a: MitigationAction)
    requires a in before
    ensures a in before + [last] && FirstIndex(before + [last], a) == FirstIndex(before, a)
  {
    var i, k := FirstIndex(before, a), FirstIndex(before + [last], a);
    assert (before + [last])[i] == a;
    assert k < |before| ==> before[k] == a;
  }

  lemma ActionsAppend(fs: seq<Finding>, f: Finding, s: Situation)
    ensures AllActions(fs + [f], s) == AllActions(fs, s) + ActionsOf(f, s)
  {
    assert (fs + [f])[..|fs|] == fs;
  }

  /** The actions of the findings come one finding after the other. */
  lemma {:induction false} ActionsInOrder(fs: seq<Finding>, gs: seq<Finding>, s: Situation)
    ensures AllActions(fs + gs, s) == AllActions(fs, s) + AllActions(gs, s)
  {
    if gs == [] {
      assert fs + gs == fs;
    } else {
      var before, last := gs[..|gs| - 1], gs[|gs| - 1];
      ActionsInOrder(fs, before, s);
      SplitLast(fs, gs);
      ActionsAppend(fs + before, last, s);
      ConcatAssociates(AllActions(fs, s), AllActions(before, s), ActionsOf(last, s));
    }
  }

  lemma SplitLast(fs: seq<Finding>, gs: seq<Finding>)
    requires gs != []
    ensures fs + gs == (fs + gs[..|gs| - 1]) + [gs[|gs| - 1]]
  {
  }

  lemma CalledAppend(fs: seq<Finding>, last: Finding, s: Situation, a: MitigationAction)
    ensures (exists f :: f in fs + [last] && BlockRuled(f, s) && a in BlockActions(f, s.config)) <==>
            (exists f :: f in fs && BlockRuled(f, s) && a in BlockActions(f, s.config)) || a in ActionsOf(last, s)
  {
    assert forall f :: f in fs + [last] <==> f in fs || f == last;
  }

  lemma {:induction false} ActionsComeFromFindings(fs: seq<Finding>, s: Situation, a: MitigationAction)
    ensures a in AllActions(fs, s) <==> exists f :: f in fs && BlockRuled(f, s) && a in BlockActions(f, s.config)
  {
    if fs == [] {
    } else {
      var before, last := fs[..|fs| - 1], fs[|fs| - 1];
      ActionsComeFromFindings(before, s, a);
      ActionsAppend(before, last, s);
      CalledAppend(before, last, s, a);
      assert fs == before + [last];
    }
  }

  datatype Decision = Decision(rejected: bool, actions: seq<MitigationAction>, risk: real)

  /**
   * The loop over the findings decides as `Rejects` says; each action is taken once, for a finding in
   * block mode, in the order in which the findings first call for them; the source is banned exactly
   * when such a finding is critical; no findings, no risk.
   */
  method EvaluateFindings(fs: seq<Finding>, s: Situation) returns (d: Decision)
    ensures d.rejected <==> Rejects(fs, s)
    ensures d.rejected <==> MustReject(fs, s)
    ensures d.risk == if fs == [] then 0.0 else Risk(fs, s.reputation)
    ensures d.actions == Dedupe(AllActions(fs, s)) && NoRepeats(d.actions)
    ensures forall a :: a in d.actions <==> exists f :: f in fs && Enforced(f, s) && CallsFor(f, s.config, a)
    ensures BlockSourceIpTemporary(s.config.tempBanSecs) in d.actions <==>
            exists f :: f in fs && Enforced(f, s) && f.severity == Critical
  {
    RejectsExactly(fs, s);
    if fs == [] {
      return Decision(false, [], 0.0);
    }
    var risk := CalculateRisk(fs, s.reputation);
    var shouldReject, critical, actions := ScanFindings(fs, s);
    if s.policy != Monitor && risk >= BlockingRiskThreshold(s.policy) && critical {
      shouldReject := true;
    }
    DedupeSpec(actions);
    forall a
      ensures a in actions <==> exists f :: f in fs && Enforced(f, s) && CallsFor(f, s.config, a)
    {
      CalledExactly(fs, s, a);
    }
    actions := DedupeActions(actions);
    d := Decision(shouldReject, actions, risk);
  }

  ghost predicate SomeBlocks(fs: seq<Finding>, s: Situation) {
    exists f :: f in fs && BlocksBy(f, s)
  }

  lemma OneMoreFinding(fs: seq<Finding>, f: Finding, s: Situation)
    ensures SomeBlocks(fs + [f], s) <==> SomeBlocks(fs, s) || BlocksBy(f, s)
    ensures HasCritical(fs + [f]) <==> HasCritical(fs) || f.severity == Critical
    ensures AllActions(fs + [f], s) == AllActions(fs, s) + ActionsOf(f, s)
  {
    ActionsAppend(fs, f, s);
    assert forall x :: x in fs + [f] <==> x in fs || x == f;
  }

  /** The loop of the decision: a flag, the actions of the findings in block mode, and whether one is critical. */
  method ScanFindings(fs: seq<Finding>, s: Situation)
    returns (shouldReject: bool, critical: bool, actions: seq<MitigationAction>)
    ensures shouldReject <==> SomeBlocks(fs, s)
    ensures critical <==> HasCritical(fs)
    ensures actions == AllActions(fs, s)
  {
    var effective := ApplyDetectorExceptions(fs, s.exceptions, s.path);
    shouldReject, critical, actions := false, false, [];
    assert fs[..0] == [];
    for i := 0 to |fs|
      invariant actions == AllActions(fs[..i], s)
      invariant shouldReject <==> SomeBlocks(fs[..i], s)
      invariant critical <==> HasCritical(fs[..i])
    {
      OneMoreFinding(fs[..i], fs[i], s);
      assert fs[..i + 1] == fs[..i] + [fs[i]];
      var f := effective[i];
      if EffectiveRuleMode(s.policy, f.mode) == BlockRule {
        actions := actions + BlockActions(f, s.config);
        if IsBlockingConfidenceMet(s.config, s.policy, f) {
          shouldReject := true;
        }
      } else {
        assert actions + [] == actions;
      }
      if f.severity == Critical {
        critical := true;
      }
    }
    assert fs[..|fs|] == fs;
  }

  lemma CalledExactly(fs: seq<Finding>, s: Situation, a: MitigationAction)
    ensures a in AllActions(fs, s) <==> exists f :: f in fs && Enforced(f, s) && CallsFor(f, s.config, a)
  {
    ActionsComeFromFindings(fs, s, a);
    forall f: Finding
      ensures BlockRuled(f, s) && a in BlockActions(f, s.config) <==> Enforced(f, s) && CallsFor(f, s.config, a)
    {
      BlockRuledExactly(f, s);
      BlockActionsExactly(f, s.config, a);
    }
  }

  method DedupeActions(actions: seq<MitigationAction>) returns (kept: seq<MitigationAction>)
    ensures kept == Dedupe(actions)
  {
    kept := [];
    var seen: set<MitigationAction> := {};
    for i := 0 to |actions|
      invariant kept == Dedupe(actions[..i]) && forall a :: a in seen <==> a in kept
    {
      assert actions[..i + 1][..i] == actions[..i];
      if actions[i] !in seen {
        seen := seen + {actions[i]};
        kept := kept + [actions[i]];
      }
    }
    assert actions[..|actions|] == actions;
  }
}
