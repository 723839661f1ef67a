/** Findings, modes and actions: the records shared by the policy and the mitigation store. */
module Findings {
  import opened Numbers

  datatype Severity = Low | Medium | High | Critical

  datatype AttackClass =
    | SqlInjection | Xss | CommandInjection | PathTraversal | HeaderInjection | RequestSmuggling | Ssrf
    | BrokenAuthentication | BruteForce | RateLimitExceeded | MethodAbuse | PayloadEvasion
    | MissingSecurityHeaders | SchemaViolation | JwtAbuse | ObjectEnumeration | BehaviorAnomaly
    | ResponseLeak | ShadowApi | TenantBoundaryViolation | ApiInventory | AuthAbuse | ResourceAbuse
    | SecurityMisconfiguration

  datatype RuleMode = DetectOnly | Recommend | BlockRule

  datatype PolicyMode = Monitor | Balanced | Strict

  datatype Finding = Finding(
    ruleId: string, class_: AttackClass, severity: Severity, confidence: real,
    locations: seq<string>, mode: RuleMode)

  datatype MitigationAction =
    | BlockRequest
    | BlockSourceIpTemporary(ttlSecs: nat)
    | ThrottleSource(ttlSecs: nat)
    | MarkSourceSuspicious(ttlSecs: nat)

  function Score(f: Finding): real {
    var severity := match f.severity
      case Low => 20.0
      case Medium => 45.0
      case High => 70.0
      case Critical => 90.0;
    Clamp(severity * Clamp(f.confidence, 0.0, 1.0), 0.0, 100.0)
  }
}
