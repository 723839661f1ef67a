/** What an imported or restored policy must satisfy before it replaces the live one. */
module PolicyImport {
  import opened Text
  import Utf8
  import opened Findings
  import opened Policy
  import opened PolicyCanonical

  datatype Import = Import(
    mode: Option<PolicyMode>,
    globalModes: map<string, RuleMode>,
    routeOverrides: seq<RouteOverride>,
    rateLimits: seq<RateLimitRow>,
    behaviorOverrides: seq<BehaviorRow>,
    exceptions: seq<DetectorException>)

  function ImportOf(p: LivePolicy): Import {
    Import(Some(p.mode), p.globalModes, p.routeOverrides, p.rateLimits, p.behaviorOverrides, p.exceptions)
  }

  function Imported(p: LivePolicy, i: Import): LivePolicy {
    LivePolicy(
      if i.mode.Some? then i.mode.value else p.mode,
      i.globalModes, i.routeOverrides, i.rateLimits, i.behaviorOverrides, i.exceptions)
  }

  /** The length of the UTF-8 encoding. */
  function ByteLength(s: string): nat {
    if s == "" then 0 else EncodedLength(s[0]) + ByteLength(s[1..])
  }

  function EncodedLength(c: char): nat {
    if c < '\U{80}' then 1 else if c < '\U{800}' then 2 else if c < '\U{10000}' then 3 else 4
  }

  lemma {:induction false} AsciiByteLength(s: string)
    requires forall i :: 0 <= i < |s| ==> IdChar(s[i])
    ensures ByteLength(s) == |s|
  {
    if s == "" {
    } else {
      AsciiByteLength(s[1..]);
    }
  }

  predicate IdChar(c: char) {
    'a' <= c <= 'z' || 'A' <= c <= 'Z' || '0' <= c <= '9' || c == '.' || c == '_' || c == '-'
  }

  /** One to `limit` letters, digits, dots, underscores and dashes. */
  ghost predicate ValidName(s: string, limit: nat) {
    1 <= |s| <= limit && forall c :: c in s ==> c in LOWER_LETTERS || c in UPPER_LETTERS || c in DIGITS || c in "._-"
  }

  /** An absolute path of at most 512 bytes that does not climb. */
  ghost predicate ValidPrefix(s: string) {
    && (exists rest :: s == "/" + rest)
    && |Utf8.EncodeText(Scalars(s))| <= 512
    && !exists a, b :: s == a + ".." + b
  }

  ghost predicate ValidModes(modes: map<string, RuleMode>) {
    forall id :: id in modes ==> ValidName(id, 80)
  }

  ghost predicate ValidOverride(r: RouteOverride) {
    ValidPrefix(r.pathPrefix) && ValidModes(r.ruleModes)
  }

  /** One request to a million, within a second to a day. */
  ghost predicate ValidRateLimit(r: RateLimitRow) {
    ValidPrefix(r.pathPrefix) && 1 <= r.requests <= 1_000_000 && 1 <= r.windowSecs <= 24 * 60 * 60
  }

  ghost predicate ValidBehavior(r: BehaviorRow) {
    ValidPrefix(r.pathPrefix) && (r.threshold.Some? ==> r.threshold.value >= 1) && (r.windowSecs.Some? ==> r.windowSecs.value >= 1)
  }

  ghost predicate ValidException(e: DetectorException) {
    && ValidName(e.detectorId, 80)
    && (e.pathPrefix.Some? ==> ValidPrefix(e.pathPrefix.value))
    && (e.minConfidence.Some? ==> 0.0 <= e.minConfidence.value <= 1.0)
    && (e.parameter.Some? ==> ValidName(e.parameter.value, 120))
  }

  ghost predicate ValidImport(i: Import) {
    && ValidModes(i.globalModes)
    && (forall r :: r in i.routeOverrides ==> ValidOverride(r))
    && (forall r :: r in i.rateLimits ==> ValidRateLimit(r))
    && (forall r :: r in i.behaviorOverrides ==> ValidBehavior(r))
    && (forall e :: e in i.exceptions ==> ValidException(e))
  }

  function Scalars(s: string): seq<Utf8.Scalar> {
    seq(|s|, i requires 0 <= i < |s| => s[i] as int)
  }

  /** The byte count is the length of the encoding of section 3 of RFC 3629. */
  lemma {:induction false} ByteLengthExactly(s: string)
    ensures ByteLength(s) == |Utf8.EncodeText(Scalars(s))|
  {
    if s == "" {
    } else {
      ByteLengthExactly(s[1..]);
      assert Scalars(s)[1..] == Scalars(s[1..]);
      assert EncodedLength(s[0]) == |Utf8.EncodeScalar(s[0] as int)|;
    }
  }

  lemma IdCharExactly(c: char)
    ensures IdChar(c) <==> c in LOWER_LETTERS || c in UPPER_LETTERS || c in DIGITS || c in "._-"
  {
    Alphabets(c);
    assert c in "._-" <==> c == '.' || c == '_' || c == '-';
  }

  /** Refuses an empty name, a long one, and one with any other character. */
  method ValidateName(s: string, limit: nat) returns (ok: bool)
    ensures ok <==> ValidName(s, limit)
  {
    var i := 0;
    while i < |s| && IdChar(s[i])
      invariant i <= |s| && forall j :: 0 <= j < i ==> IdChar(s[j])
    {
      i := i + 1;
    }
    ok := i == |s| && s != "" && ByteLength(s) <= limit;
    forall c | c in s
      ensures IdChar(c) <==> c in LOWER_LETTERS || c in UPPER_LETTERS || c in DIGITS || c in "._-"
    {
      IdCharExactly(c);
    }
    if i == |s| {
      AsciiByteLength(s);
      assert forall c :: c in s ==> IdChar(c);
    } else {
      assert s[i] in s;
    }
  }

  method ValidatePathPrefix(s: string) returns (ok: bool)
    ensures ok <==> ValidPrefix(s)
  {
    ok := !(!("/" <= s) || ByteLength(s) > 512 || Contains(s, ".."));
    ByteLengthExactly(s);
    ContainsExactly(s, "..");
    if "/" <= s {
      assert s == "/" + s[1..];
    }
  }

  method ValidateRateLimit(r: RateLimitRow) returns (ok: bool)
    ensures ok <==> ValidRateLimit(r)
  {
    ok := ValidatePathPrefix(r.pathPrefix);
    if r.requests == 0 || r.requests > 1_000_000 {
      return false;
    }
    if r.windowSecs == 0 || r.windowSecs > 86_400 {
      return false;
    }
  }

  method ValidateBehavior(r: BehaviorRow) returns (ok: bool)
    ensures ok <==> ValidBehavior(r)
  {
    ok := ValidatePathPrefix(r.pathPrefix);
    if r.threshold == Some(0) || r.windowSecs == Some(0) {
      return false;
    }
  }

  method ValidateException(e: DetectorException) returns (ok: bool)
    ensures ok <==> ValidException(e)
  {
    ok := ValidateName(e.detectorId, 80);
    if ok && e.pathPrefix.Some? {
      ok := ValidatePathPrefix(e.pathPrefix.value);
    }
    if ok && e.minConfidence.Some? {
      ok := !(e.minConfidence.value < 0.0 || e.minConfidence.value > 1.0);
    }
    if ok && e.parameter.Some? {
      ok := ValidateName(e.parameter.value, 120);
    }
  }

  method ValidateModes(modes: map<string, RuleMode>) returns (ok: bool)
    ensures ok <==> ValidModes(modes)
  {
    var left := modes.Keys;
    while left != {}
      invariant left <= modes.Keys
      invariant forall id :: id in modes && id !in left ==> ValidName(id, 80)
      decreases left
    {
      var id :| id in left;
      var idOk := ValidateName(id, 80);
      if !idOk {
        return false;
      }
      left := left - {id};
    }
    ok := true;
  }

  method ValidateOverrides(rows: seq<RouteOverride>) returns (ok: bool)
    ensures ok <==> forall r :: r in rows ==> ValidOverride(r)
  {
    for i := 0 to |rows|
      invariant forall j :: 0 <= j < i ==> ValidOverride(rows[j])
    {
      var prefixOk := ValidatePathPrefix(rows[i].pathPrefix);
      var modesOk := ValidateModes(rows[i].ruleModes);
      if !prefixOk || !modesOk {
        assert rows[i] in rows;
        return false;
      }
    }
    ok := true;
  }

  method ValidateRateLimits(rows: seq<RateLimitRow>) returns (ok: bool)
    ensures ok <==> forall r :: r in rows ==> ValidRateLimit(r)
  {
    for i := 0 to |rows|
      invariant forall j :: 0 <= j < i ==> ValidRateLimit(rows[j])
    {
      var rowOk := ValidateRateLimit(rows[i]);
      if !rowOk {
        assert rows[i] in rows;
        return false;
      }
    }
    ok := true;
  }

  method ValidateBehaviors(rows: seq<BehaviorRow>) returns (ok: bool)
    ensures ok <==> forall r :: r in rows ==> ValidBehavior(r)
  {
    for i := 0 to |rows|
      invariant forall j :: 0 <= j < i ==> ValidBehavior(rows[j])
    {
      var rowOk := ValidateBehavior(rows[i]);
      if !rowOk {
        assert rows[i] in rows;
        return false;
      }
    }
    ok := true;
  }

  method ValidateExceptions(rows: seq<DetectorException>) returns (ok: bool)
    ensures ok <==> forall e :: e in rows ==> ValidException(e)
  {
    for i := 0 to |rows|
      invariant forall j :: 0 <= j < i ==> ValidException(rows[j])
    {
      var rowOk := ValidateException(rows[i]);
      if !rowOk {
        assert rows[i] in rows;
        return false;
      }
    }
    ok := true;
  }

  method ValidateLivePolicyImport(i: Import) returns (ok: bool)
    ensures ok <==> ValidImport(i)
  {
    ok := ValidateModes(i.globalModes);
    if ok {
      ok := ValidateOverrides(i.routeOverrides);
    }
    if ok {
      ok := ValidateRateLimits(i.rateLimits);
    }
    if ok {
      ok := ValidateBehaviors(i.behaviorOverrides);
    }
    if ok {
      ok := ValidateExceptions(i.exceptions);
    }
  }
}
