/** Per-route JSON schemas learned from bodies, and the findings of a body against them. */
module SchemaLearning {
  import opened Text
  import opened Json
  import opened Redaction

  datatype LearnedField = LearnedField(seen: nat, types: map<Kind, nat>, sensitive: bool)

  datatype Schema = Schema(samples: nat, fields: map<string, LearnedField>, maxDepth: nat, maxArrayLen: nat, maxBytes: nat)

  const NEW_SCHEMA := Schema(0, map[], 0, 0, 0)

  /** One parsed body, measured. */
  datatype Sample = Sample(fields: FieldMap, depth: nat, arrayLen: nat, bytes: nat)

  function NewField(field: string): LearnedField {
    LearnedField(0, map[], IsSensitiveKey(field))
  }

  function CountKind(f: LearnedField, kind: Kind): LearnedField {
    f.(seen := f.seen + 1, types := f.types[kind := TypeCount(f, kind) + 1])
  }

  function TypeCount(f: LearnedField, kind: Kind): nat {
    if kind in f.types then f.types[kind] else 0
  }

  function FieldOf(s: Schema, field: string): LearnedField {
    if field in s.fields then s.fields[field] else NewField(field)
  }

  function Learn(s: Schema, x: Sample): Schema {
    Schema(
      s.samples + 1,
      map field | field in s.fields.Keys + x.fields.Keys ::
        if field in x.fields then CountKind(FieldOf(s, field), x.fields[field]) else s.fields[field],
      Max(s.maxDepth, x.depth), Max(s.maxArrayLen, x.arrayLen), Max(s.maxBytes, x.bytes))
  }

  function LearnAll(log: seq<Sample>): Schema {
    if log == [] then NEW_SCHEMA else Learn(LearnAll(log[..|log| - 1]), log[|log| - 1])
  }

  lemma FieldAfter(s: Schema, x: Sample, field: string)
    ensures FieldOf(Learn(s, x), field) ==
            if field in x.fields then CountKind(FieldOf(s, field), x.fields[field]) else FieldOf(s, field)
    ensures field in Learn(s, x).fields <==> field in s.fields || field in x.fields
  {
  }

  // The log

  /** The kinds the field had, in the samples that contained it. */
  function KindsSeen(log: seq<Sample>, field: string): seq<Kind> {
    if log == [] then []
    else if field in log[|log| - 1].fields then KindsSeen(log[..|log| - 1], field) + [log[|log| - 1].fields[field]]
    else KindsSeen(log[..|log| - 1], field)
  }

  ghost predicate IsMaximum(m: nat, values: set<nat>) {
    (forall v :: v in values ==> v <= m) && (m in values || (values == {} && m == 0))
  }

  function Depths(log: seq<Sample>): set<nat> { set i | 0 <= i < |log| :: log[i].depth }

  function ArrayLens(log: seq<Sample>): set<nat> { set i | 0 <= i < |log| :: log[i].arrayLen }

  function Sizes(log: seq<Sample>): set<nat> { set i | 0 <= i < |log| :: log[i].bytes }

  /** A learned field counts exactly the samples that had it, and how often it had each kind. */
  ghost predicate FieldRefines(s: Schema, log: seq<Sample>, field: string) {
    var kinds := KindsSeen(log, field);
    && (field in s.fields <==> kinds != [])
    && FieldOf(s, field).seen == |kinds|
    && FieldOf(s, field).sensitive == IsSensitiveKey(field)
    && forall kind :: TypeCount(FieldOf(s, field), kind) == multiset(kinds)[kind]
  }

  ghost predicate MeasuresRefine(s: Schema, log: seq<Sample>) {
    && s.samples == |log|
    && IsMaximum(s.maxDepth, Depths(log))
    && IsMaximum(s.maxArrayLen, ArrayLens(log))
    && IsMaximum(s.maxBytes, Sizes(log))
  }

  lemma {:induction false} LearnedFieldRefines(log: seq<Sample>, field: string)
    ensures FieldRefines(LearnAll(log), log, field)
    ensures |KindsSeen(log, field)| <= |log|
  {
    if log == [] {
    } else {
      var before, x := log[..|log| - 1], log[|log| - 1];
      LearnedFieldRefines(before, field);
      FieldAfter(LearnAll(before), x, field);
      var kinds := KindsSeen(before, field);
      if field in x.fields {
        assert multiset(kinds + [x.fields[field]]) == multiset(kinds) + multiset{x.fields[field]};
      }
    }
  }

  lemma MaximumAfter(m: nat, values: set<nat>, v: nat)
    requires IsMaximum(m, values)
    ensures IsMaximum(Max(m, v), values + {v})
  {
  }

  lemma {:induction false} LearnedMeasuresRefine(log: seq<Sample>)
    ensures MeasuresRefine(LearnAll(log), log)
  {
    if log == [] {
    } else {
      var before, x := log[..|log| - 1], log[|log| - 1];
      var s := LearnAll(before);
      LearnedMeasuresRefine(before);
      MaximumAfter(s.maxDepth, Depths(before), x.depth);
      MaximumAfter(s.maxArrayLen, ArrayLens(before), x.arrayLen);
      MaximumAfter(s.maxBytes, Sizes(before), x.bytes);
      assert log == before + [x];
      assert Depths(log) == Depths(before) + {x.depth} by { AllBut(log); }
      assert ArrayLens(log) == ArrayLens(before) + {x.arrayLen} by { AllBut(log); }
      assert Sizes(log) == Sizes(before) + {x.bytes} by { AllBut(log); }
    }
  }

  lemma AllBut(log: seq<Sample>)
    requires log != []
    ensures forall i :: 0 <= i < |log| - 1 ==> log[..|log| - 1][i] == log[i]
  {
  }

  // Dominant types, by the greatest count and then by the last kind name

  const KINDS: seq<Kind> := [KArray, KBoolean, KNull, KNumber, KObject, KString]

  function TypeTotal(f: LearnedField): nat {
    TypeCount(f, KArray) + TypeCount(f, KBoolean) + TypeCount(f, KNull) + TypeCount(f, KNumber)
    + TypeCount(f, KObject) + TypeCount(f, KString)
  }

  lemma {:induction false} CountsSumToLength(kinds: seq<Kind>)
    ensures multiset(kinds)[KArray] + multiset(kinds)[KBoolean] + multiset(kinds)[KNull]
          + multiset(kinds)[KNumber] + multiset(kinds)[KObject] + multiset(kinds)[KString] == |kinds|
  {
    if kinds == [] {
    } else {
      var last := kinds[|kinds| - 1];
      CountsSumToLength(kinds[..|kinds| - 1]);
      assert kinds == kinds[..|kinds| - 1] + [last];
      assert forall k: Kind :: multiset(kinds)[k] == multiset(kinds[..|kinds| - 1])[k] + if k == last then 1 else 0;
      assert last.KArray? || last.KBoolean? || last.KNull? || last.KNumber? || last.KObject? || last.KString?;
    }
  }

  /** The counters of a learned field are consistent: its type counts sum to `seen`, at most `samples`. */
  lemma LearnedCounters(log: seq<Sample>, field: string)
    ensures var s := LearnAll(log);
      && TypeTotal(FieldOf(s, field)) == FieldOf(s, field).seen <= s.samples
      && MeasuresRefine(s, log) && FieldRefines(s, log, field)
  {
    LearnedFieldRefines(log, field);
    LearnedMeasuresRefine(log);
    CountsSumToLength(KindsSeen(log, field));
  }

  function DominantFrom(f: LearnedField, i: nat, best: Option<Kind>): Option<Kind>
    requires i <= |KINDS|
    decreases |KINDS| - i
  {
    if i == |KINDS| then best
    else if KINDS[i] in f.types && (best.None? || f.types[KINDS[i]] >= TypeCount(f, best.value)) then
      DominantFrom(f, i + 1, Some(KINDS[i]))
    else DominantFrom(f, i + 1, best)
  }

  function DominantType(f: LearnedField): Option<Kind> {
    DominantFrom(f, 0, None)
  }

  function Rank(k: Kind): nat {
    match k
    case KArray => 0 case KBoolean => 1 case KNull => 2 case KNumber => 3 case KObject => 4 case KString => 5
  }

  /** No kind counts more, and none that comes later by name counts as much. */
  ghost predicate Dominates(f: LearnedField, k: Kind) {
    k in f.types && forall other :: other in f.types ==>
      f.types[other] <= f.types[k] && (f.types[other] == f.types[k] ==> Rank(other) <= Rank(k))
  }

  ghost predicate DominatesBelow(f: LearnedField, i: nat, best: Option<Kind>) {
    if best.None? then forall other :: other in f.types ==> Rank(other) >= i
    else
      && best.value in f.types
      && Rank(best.value) < i
      && forall other :: other in f.types && Rank(other) < i ==>
           f.types[other] <= f.types[best.value] && (f.types[other] == f.types[best.value] ==> Rank(other) <= Rank(best.value))
  }

  lemma {:induction false} DominantFromSpec(f: LearnedField, i: nat, best: Option<Kind>)
    requires i <= |KINDS| && DominatesBelow(f, i, best)
    ensures DominatesBelow(f, |KINDS|, DominantFrom(f, i, best))
    decreases |KINDS| - i
  {
    if i == |KINDS| {
    } else {
      assert Rank(KINDS[i]) == i;
      assert forall k: Kind :: Rank(k) == i ==> k == KINDS[i];
      DominantFromSpec(f, i + 1,
        if KINDS[i] in f.types && (best.None? || f.types[KINDS[i]] >= TypeCount(f, best.value)) then Some(KINDS[i]) else best);
    }
  }

  lemma RankIdentifies(a: Kind, b: Kind)
    ensures Rank(a) < |KINDS| && (Rank(a) == Rank(b) <==> a == b)
  {
  }

  lemma OneDominates(f: LearnedField, a: Kind, b: Kind)
    requires Dominates(f, a) && Dominates(f, b)
    ensures a == b
  {
    RankIdentifies(a, b);
  }

  lemma DominatesAll(f: LearnedField, best: Option<Kind>)
    requires DominatesBelow(f, |KINDS|, best)
    ensures if best.None? then f.types == map[] else Dominates(f, best.value)
  {
    forall other | other in f.types
      ensures Rank(other) < |KINDS|
    {
      RankIdentifies(other, other);
    }
  }

  /** The dominant type is the one with the most samples, the last by name among equals. */
  lemma DominantTypeSpec(f: LearnedField, k: Kind)
    ensures DominantType(f) == Some(k) <==> Dominates(f, k)
    ensures DominantType(f) == None <==> f.types == map[]
  {
    DominantFromSpec(f, 0, None);
    var d := DominantType(f);
    DominatesAll(f, d);
    if d.Some? && Dominates(f, k) {
      OneDominates(f, d.value, k);
    }
  }

  // Findings

  datatype Finding =
    | UnexpectedField(field: string)
    | MissingField(field: string)
    | TypeDiffers(field: string, expected: Option<Kind>, actual: Kind)
    | MalformedJson
    | TooDeep
    | ArrayTooLong
    | BodyTooLarge
    | NotJson

  function FieldFindings(s: Schema, x: Sample): set<Finding> {
    (set field | field in x.fields && field !in s.fields && !IsSensitiveKey(field) :: UnexpectedField(field))
    + (set field | field in x.fields && field in s.fields && !s.fields[field].sensitive
         && DominantType(s.fields[field]) != Some(x.fields[field])
         :: TypeDiffers(field, DominantType(s.fields[field]), x.fields[field]))
    + (set field | field in s.fields && field !in x.fields && !s.fields[field].sensitive
         && 10 * s.fields[field].seen >= 9 * Max(s.samples, 1) :: MissingField(field))
  }

  function SizeFindings(s: Schema, x: Sample): set<Finding> {
    if s.maxBytes > 0 && x.bytes > 4 * s.maxBytes then {BodyTooLarge} else {}
  }

  /** The findings that compare a body with what its route has learned, once there are enough samples. */
  function Detect(s: Schema, x: Sample, minSamples: nat): set<Finding> {
    if s.samples >= minSamples then FieldFindings(s, x) + SizeFindings(s, x) else {}
  }

  ghost predicate NeverSeen(log: seq<Sample>, field: string) {
    forall x :: x in log ==> field !in x.fields
  }

  lemma {:induction false} SeenOrNot(log: seq<Sample>, field: string)
    ensures KindsSeen(log, field) == [] <==> NeverSeen(log, field)
  {
    if log == [] {
    } else {
      SeenOrNot(log[..|log| - 1], field);
      assert log == log[..|log| - 1] + [log[|log| - 1]];
    }
  }

  /** The kind a field has had most often, the last by name among those. */
  ghost predicate MostOften(kinds: seq<Kind>, k: Kind) {
    k in kinds && forall other: Kind :: other in kinds ==>
      multiset(kinds)[other] <= multiset(kinds)[k]
      && (multiset(kinds)[other] == multiset(kinds)[k] ==> Rank(other) <= Rank(k))
  }

  lemma DominantOfKinds(f: LearnedField, kinds: seq<Kind>, k: Kind)
    requires forall other :: TypeCount(f, other) == multiset(kinds)[other]
    requires forall other :: other in f.types ==> f.types[other] > 0
    ensures DominantType(f) == Some(k) <==> MostOften(kinds, k)
  {
    DominantTypeSpec(f, k);
    forall other: Kind
      ensures other in f.types <==> other in kinds
    {
      assert other in kinds <==> multiset(kinds)[other] > 0;
      assert TypeCount(f, other) == multiset(kinds)[other];
    }
  }

  lemma DominantOfLog(log: seq<Sample>, field: string, k: Kind)
    requires field in LearnAll(log).fields
    ensures DominantType(LearnAll(log).fields[field]) == Some(k) <==> MostOften(KindsSeen(log, field), k)
  {
    LearnedFieldRefines(log, field);
    TypesArePositive(log, field);
    DominantOfKinds(LearnAll(log).fields[field], KindsSeen(log, field), k);
  }

  lemma {:induction false} TypesArePositive(log: seq<Sample>, field: string)
    ensures forall kind :: kind in FieldOf(LearnAll(log), field).types ==> FieldOf(LearnAll(log), field).types[kind] > 0
  {
    if log == [] {
    } else {
      TypesArePositive(log[..|log| - 1], field);
      FieldAfter(LearnAll(log[..|log| - 1]), log[|log| - 1], field);
    }
  }

  lemma FindingsOfField(s: Schema, x: Sample, minSamples: nat, field: string)
    ensures var found := Detect(s, x, minSamples);
      && (UnexpectedField(field) in found <==>
            s.samples >= minSamples && field in x.fields && field !in s.fields && !IsSensitiveKey(field))
      && (MissingField(field) in found <==>
            s.samples >= minSamples && field in s.fields && field !in x.fields && !s.fields[field].sensitive
            && 10 * s.fields[field].seen >= 9 * Max(s.samples, 1))
      && (forall e, a :: TypeDiffers(field, e, a) in found <==>
            s.samples >= minSamples && field in x.fields && field in s.fields && !s.fields[field].sensitive
            && e == DominantType(s.fields[field]) != Some(x.fields[field]) && a == x.fields[field])
  {
  }

  /** Each comparison finding, stated on the samples the route has seen. */
  lemma FindingsFollowLog(log: seq<Sample>, x: Sample, minSamples: nat, field: string)
    ensures var found, kinds := Detect(LearnAll(log), x, minSamples), KindsSeen(log, field);
      && (UnexpectedField(field) in found <==>
            |log| >= minSamples && field in x.fields && NeverSeen(log, field) && !IsSensitiveKey(field))
      && (MissingField(field) in found <==>
            |log| >= minSamples && field !in x.fields && kinds != [] && 10 * |kinds| >= 9 * |log| && !IsSensitiveKey(field))
      && ((exists e, a :: TypeDiffers(field, e, a) in found) <==>
            |log| >= minSamples && field in x.fields && kinds != [] && !MostOften(kinds, x.fields[field])
            && !IsSensitiveKey(field))
  {
    var s := LearnAll(log);
    LearnedFieldRefines(log, field);
    assert s.samples == |log| by {
      LearnedMeasuresRefine(log);
    }
    SeenOrNot(log, field);
    FindingsOfField(s, x, minSamples, field);
    if field in s.fields && field in x.fields {
      DominantOfLog(log, field, x.fields[field]);
    }
  }

  // A body like every earlier one

  ghost predicate AllLike(log: seq<Sample>, fields: FieldMap) {
    forall x :: x in log ==> x.fields == fields
  }

  lemma {:induction false} KindsOfAllLike(log: seq<Sample>, fields: FieldMap, field: string)
    requires AllLike(log, fields)
    ensures field !in fields ==> KindsSeen(log, field) == []
    ensures field in fields ==> |KindsSeen(log, field)| == |log| && forall k :: k in KindsSeen(log, field) ==> k == fields[field]
  {
    if log == [] {
    } else {
      assert log[|log| - 1] in log && forall x :: x in log[..|log| - 1] ==> x in log;
      KindsOfAllLike(log[..|log| - 1], fields, field);
    }
  }

  predicate Comparison(f: Finding) {
    f == BodyTooLarge || f.UnexpectedField? || f.MissingField? || f.TypeDiffers?
  }

  lemma DetectCompares(s: Schema, x: Sample, minSamples: nat)
    ensures forall f :: f in Detect(s, x, minSamples) ==> Comparison(f)
  {
  }

  /** The field is reported as unexpected before anything is learned. */
  predicate Premature(log: seq<Sample>, x: Sample, minSamples: nat, field: string) {
    log == [] && minSamples == 0 && field in x.fields && !IsSensitiveKey(field)
  }

  ghost predicate OnlyPremature(found: set<Finding>, log: seq<Sample>, x: Sample, minSamples: nat, field: string) {
    && MissingField(field) !in found
    && (UnexpectedField(field) in found <==> Premature(log, x, minSamples, field))
    && forall e, a :: TypeDiffers(field, e, a) !in found
  }

  lemma QuietUnlessPremature(found: set<Finding>, log: seq<Sample>, x: Sample, minSamples: nat)
    requires forall f :: f in found ==> Comparison(f)
    requires forall field :: OnlyPremature(found, log, x, minSamples, field)
    ensures found <= {BodyTooLarge} <==> !exists field :: Premature(log, x, minSamples, field)
  {
    if field :| Premature(log, x, minSamples, field) {
      assert OnlyPremature(found, log, x, minSamples, field);
      assert UnexpectedField(field) in found;
    } else {
      forall f | f in found
        ensures f == BodyTooLarge
      {
        assert Comparison(f);
        assert f != BodyTooLarge ==> OnlyPremature(found, log, x, minSamples, f.field);
      }
    }
  }

  lemma FamiliarField(log: seq<Sample>, x: Sample, minSamples: nat, field: string)
    requires AllLike(log, x.fields)
    ensures OnlyPremature(Detect(LearnAll(log), x, minSamples), log, x, minSamples, field)
  {
    FindingsFollowLog(log, x, minSamples, field);
    KindsOfAllLike(log, x.fields, field);
    SeenOrNot(log, field);
    var kinds := KindsSeen(log, field);
    if field in x.fields && kinds != [] {
      assert kinds[0] in kinds;
    }
  }

  /**
   * A body with the same fields and kinds as every earlier sample is reported for its fields exactly
   * when there is no earlier sample, none is asked for, and it has a field that is not sensitive.
   */
  lemma FamiliarBodyIsQuiet(log: seq<Sample>, x: Sample, minSamples: nat)
    requires AllLike(log, x.fields)
    ensures Detect(LearnAll(log), x, minSamples) <= {BodyTooLarge} <==>
            !exists field :: Premature(log, x, minSamples, field)
  {
    DetectCompares(LearnAll(log), x, minSamples);
    forall field
      ensures OnlyPremature(Detect(LearnAll(log), x, minSamples), log, x, minSamples, field)
    {
      FamiliarField(log, x, minSamples, field);
    }
    QuietUnlessPremature(Detect(LearnAll(log), x, minSamples), log, x, minSamples);
  }

  lemma DetectsSize(s: Schema, x: Sample, minSamples: nat)
    ensures BodyTooLarge in Detect(s, x, minSamples) <==>
      s.samples >= minSamples && s.maxBytes > 0 && x.bytes > 4 * s.maxBytes
  {
  }

  lemma LargestBody(log: seq<Sample>)
    ensures var s := LearnAll(log);
      && s.samples == |log|
      && (forall y :: y in log ==> y.bytes <= s.maxBytes)
      && (s.maxBytes > 0 ==> exists y :: y in log && y.bytes == s.maxBytes)
  {
    LearnedMeasuresRefine(log);
    assert forall y :: y in log ==> y.bytes in Sizes(log);
  }

  /** A body is too large when some earlier sample had one and none had a quarter of it. */
  lemma SizeFindingFollowsLog(log: seq<Sample>, x: Sample, minSamples: nat)
    ensures BodyTooLarge in Detect(LearnAll(log), x, minSamples) <==>
      && |log| >= minSamples
      && (exists y :: y in log && y.bytes > 0)
      && forall y :: y in log ==> x.bytes > 4 * y.bytes
  {
    DetectsSize(LearnAll(log), x, minSamples);
    LargestBody(log);
  }

  /** The failing input: {"a": null} as the first body of a route, when no sample is asked for. */
  lemma FirstBodyIsReported(bytes: nat, config: Config)
    requires config.minSamples == 0 && config.maxFields > 0
    ensures var x := Measure(Object([("a", Null)]), bytes, config);
      && AllLike([], x.fields) && Premature([], x, config.minSamples, "a")
      && UnexpectedField("a") in Detect(LearnAll([]), x, config.minSamples)
  {
    var v := Object([("a", Null)]);
    assert CleanKey("a") == "a";
    assert "a" in Flatten(v, "", config.maxFields, map[]);
    assert !IsSensitiveKey("a");
  }

  // The memory

  type Memory = map<string, Schema>

  ghost predicate Fewest(m: Memory, route: string) {
    route in m && forall r :: r in m ==> m[route].samples <= m[r].samples
  }

  type Log = map<string, seq<Sample>>

  ghost predicate Agrees(s: Schema, log: seq<Sample>) {
    s == LearnAll(log)
  }

  ghost predicate Learned(m: Memory, log: Log) {
    && log.Keys == m.Keys
    && forall route {:trigger Agrees(m[route], log[route])} :: route in m ==> Agrees(m[route], log[route])
  }

  function SchemaOf(m: Memory, route: string): Schema {
    if route in m then m[route] else NEW_SCHEMA
  }

  ghost function SamplesOf(log: Log, route: string): seq<Sample> {
    if route in log then log[route] else []
  }

  lemma LearnedSchema(m: Memory, log: Log, route: string)
    requires Learned(m, log)
    ensures SchemaOf(m, route) == LearnAll(SamplesOf(log, route))
  {
    assert route in m ==> Agrees(m[route], log[route]);
  }

  lemma LearnedWithout(m: Memory, log: Log, victim: string)
    requires Learned(m, log)
    ensures Learned(m - {victim}, log - {victim})
  {
    forall r | r in m - {victim}
      ensures Agrees((m - {victim})[r], (log - {victim})[r])
    {
      assert Agrees(m[r], log[r]);
    }
  }

  lemma LearnedUpdate(m: Memory, log: Log, route: string, s: Schema, samples: seq<Sample>)
    requires Learned(m, log) && Agrees(s, samples)
    ensures Learned(m[route := s], log[route := samples])
  {
    var m', log' := m[route := s], log[route := samples];
    forall r | r in m'
      ensures Agrees(m'[r], log'[r])
    {
      if r != route {
        assert Agrees(m[r], log[r]);
      }
    }
  }

  lemma AgreesAppend(s: Schema, before: seq<Sample>, x: Sample)
    requires s == LearnAll(before)
    ensures Agrees(Learn(s, x), before + [x])
  {
    assert (before + [x])[..|before|] == before;
  }

  lemma LearnedWith(m: Memory, log: Log, route: string, x: Sample)
    requires Learned(m, log)
    ensures Learned(m[route := Learn(SchemaOf(m, route), x)], log[route := SamplesOf(log, route) + [x]])
  {
    LearnedSchema(m, log, route);
    AgreesAppend(SchemaOf(m, route), SamplesOf(log, route), x);
    LearnedUpdate(m, log, route, Learn(SchemaOf(m, route), x), SamplesOf(log, route) + [x]);
  }

  datatype Config = Config(minSamples: nat, maxRoutes: nat, maxFields: nat, maxDepth: nat, maxArrayLen: nat)

  function Measure(v: Json, bytes: nat, config: Config): Sample {
    Sample(Flatten(v, "", config.maxFields, map[]), Depth(v), MaxArrayLen(v), bytes)
  }

  function LimitFindings(x: Sample, config: Config): set<Finding> {
    (if x.depth > config.maxDepth then {TooDeep} else {})
    + (if x.arrayLen > config.maxArrayLen then {ArrayTooLong} else {})
  }

  /** The limits are exceeded by a path longer, or an array anywhere in the body longer, than allowed. */
  lemma LimitsExactly(v: Json, bytes: nat, config: Config)
    ensures var found := LimitFindings(Measure(v, bytes, config), config);
      && found <= {TooDeep, ArrayTooLong}
      && (TooDeep in found <==> exists p :: At(v, p).Some? && |p| >= config.maxDepth)
      && (ArrayTooLong in found <==> exists p, n: nat :: ArrayAt(v, p, n) && n > config.maxArrayLen)
  {
    DepthIsLongestPath(v);
    ArrayLenIsMaximum(v);
    var found := LimitFindings(Measure(v, bytes, config), config);
    if TooDeep in found {
      var p :| At(v, p).Some? && |p| + 1 == Depth(v);
    }
    if ArrayTooLong in found {
      var p :| ArrayAt(v, p, MaxArrayLen(v));
    }
  }

  predicate IsJsonBody(body: string, contentType: Option<string>) {
    Trim(body) != "" && contentType.Some? && Contains(contentType.value, "application/json")
  }

  /** A body is learned when it is not blank and its content type mentions JSON. */
  lemma JsonBodyExactly(body: string, contentType: Option<string>)
    ensures IsJsonBody(body, contentType) <==>
      && (exists i :: 0 <= i < |body| && !IsSpace(body[i]))
      && contentType.Some? && exists a, b :: contentType.value == a + "application/json" + b
  {
    var a, b := TrimParts(body);
    if contentType.Some? {
      ContainsExactly(contentType.value, "application/json");
    }
  }

  class SchemaMemory {
    const config: Config
    var schemas: Memory

    /** The samples of each route since its schema was inserted. */
    ghost var log: Log

    function Capacity(): nat {
      Max(config.maxRoutes, 1)
    }

    ghost predicate Valid()
      reads this
    {
      Learned(schemas, log) && |schemas| <= Capacity()
    }

    constructor (config: Config)
      ensures Valid() && schemas == map[] && this.config == config
    {
      this.config := config;
      schemas, log := map[], map[];
    }

    method EvictLowestSample() returns (ghost evicted: Option<string>)
      requires Valid()
      modifies this
      ensures Valid()
      ensures evicted.None? <==> old(schemas) == map[]
      ensures evicted.None? ==> schemas == map[] && log == old(log)
      ensures evicted.Some? ==>
        && |schemas| == |old(schemas)| - 1
        && Fewest(old(schemas), evicted.value)
        && schemas == old(schemas) - {evicted.value} && log == old(log) - {evicted.value}
    {
      evicted := None;
      if schemas.Keys == {} {
        return;
      }
      var victim :| victim in schemas.Keys;
      var rest := schemas.Keys - {victim};
      while rest != {}
        invariant victim in schemas && rest <= schemas.Keys
        invariant forall r :: r in schemas && r !in rest ==> schemas[victim].samples <= schemas[r].samples
      {
        var r :| r in rest;
        if schemas[r].samples < schemas[victim].samples {
          victim := r;
        }
        rest := rest - {r};
      }
      assert Fewest(schemas, victim);
      assert schemas.Keys == (schemas - {victim}).Keys + {victim};
      LearnedWithout(schemas, log, victim);
      schemas, log := schemas - {victim}, log - {victim};
      evicted := Some(victim);
    }

    /**
     * One body: the comparison findings are those against the samples of the route since it was
     * inserted, and the body then joins those samples. Only JSON bodies that parse are learned. A new
     * route takes the place of one with the fewest samples when the memory is full, and of no other.
     */
    method LearnAndDetect(route: string, body: string, contentType: Option<string>, parsed: Option<Json>, bytes: nat)
      returns (found: set<Finding>, ghost evicted: Option<string>)
      requires Valid()
      modifies this
      ensures Valid()
      ensures !IsJsonBody(body, contentType) || parsed.None? ==>
        && schemas == old(schemas) && log == old(log)
        && found == (if Trim(body) == "" || contentType.None? then {}
                     else if !IsJsonBody(body, contentType) then {NotJson} else {MalformedJson})
      ensures IsJsonBody(body, contentType) && parsed.Some? ==>
        var x, before := Measure(parsed.value, bytes, config), SamplesOf(old(log), route);
        && found == LimitFindings(x, config) + Detect(LearnAll(before), x, config.minSamples)
        && MadeRoom(old(schemas), route, evicted)
        && log == Remaining(old(log), evicted)[route := before + [x]]
    {
      evicted := None;
      found := {};
      if Trim(body) == "" {
        return;
      }
      if !IsJsonBody(body, contentType) {
        found := if contentType.Some? then {NotJson} else {};
        return;
      }
      if parsed.None? {
        found := {MalformedJson};
        return;
      }
      var x, limits := MeasureBody(parsed.value, bytes);
      var compared;
      compared, evicted := CompareAndLearn(route, x);
      found := limits + compared;
    }

    method MeasureBody(v: Json, bytes: nat) returns (x: Sample, limits: set<Finding>)
      ensures x == Measure(v, bytes, config) && limits == LimitFindings(x, config)
    {
      var fields := FlattenInner(v, "", config.maxFields, map[]);
      x := Sample(fields, Depth(v), MaxArrayLen(v), bytes);
      limits := CheckLimits(x);
    }

    method CheckLimits(x: Sample) returns (limits: set<Finding>)
      ensures limits == LimitFindings(x, config)
    {
      limits := {};
      if x.depth > config.maxDepth {
        limits := limits + {TooDeep};
      }
      if x.arrayLen > config.maxArrayLen {
        limits := limits + {ArrayTooLong};
      }
    }

    /** The schema evicted for the route, if any, is one with the fewest samples. */
    ghost predicate MadeRoom(was: Memory, route: string, evicted: Option<string>) {
      && (evicted.Some? <==> route !in was && |was| >= config.maxRoutes && was != map[])
      && (evicted.Some? ==> Fewest(was, evicted.value))
    }

    method MakeRoom(route: string) returns (ghost evicted: Option<string>)
      requires Valid()
      modifies this
      ensures Valid() && (route in schemas || |schemas| < Capacity())
      ensures MadeRoom(old(schemas), route, evicted)
      ensures schemas == Remaining(old(schemas), evicted) && log == Remaining(old(log), evicted)
      ensures SamplesOf(log, route) == SamplesOf(old(log), route)
    {
      evicted := None;
      if route !in schemas && |schemas| >= config.maxRoutes {
        evicted := EvictLowestSample();
      }
    }

    method CompareAndLearn(route: string, x: Sample) returns (found: set<Finding>, ghost evicted: Option<string>)
      requires Valid()
      modifies this
      ensures Valid()
      ensures found == Detect(LearnAll(SamplesOf(old(log), route)), x, config.minSamples)
      ensures MadeRoom(old(schemas), route, evicted)
      ensures log == Remaining(old(log), evicted)[route := SamplesOf(old(log), route) + [x]]
    {
      evicted := MakeRoom(route);
      LearnedSchema(schemas, log, route);
      var schema := SchemaOf(schemas, route);
      found := {};
      if schema.samples >= config.minSamples {
        found := FieldFindings(schema, x) + SizeFindings(schema, x);
      }
      LearnedWith(schemas, log, route, x);
      RouteCount(schemas, route, Learn(schema, x));
      schemas := schemas[route := Learn(schema, x)];
      log := log[route := SamplesOf(log, route) + [x]];
    }
  }

  function Remaining<V>(m: map<string, V>, evicted: Option<string>): map<string, V> {
    if evicted.Some? then m - {evicted.value} else m
  }

  lemma RouteCount(m: Memory, route: string, s: Schema)
    ensures |m[route := s]| == if route in m then |m| else |m| + 1
  {
    assert m[route := s].Keys == m.Keys + {route};
  }
}
