# Verified model of an API firewall

A Dafny model of the stateful core of an API firewall: request counters and behaviour baselines, text
normalisation and redaction, learned routes and their matching, the JSON schema learner, temporary blocks
that outlive a restart, the blocking decision, live policy versions with saved bundles, telemetry delivery,
and the evidence from which a response contract can be rebuilt.

Most components come in three layers. A *specification* says what a state means in terms of the history that
led to it: samples, visits, touches, events. A *step function* is the state machine of the source. A *class or
method* does the updates in place, with the source's loops, and is proved equal to the step function. Lemmas by
induction over runs connect the step function with the history. Small tests and tables (what is a hex digit, a
sensitive key, an identifier, a spike, a blocking finding) have a lemma, named `...Exactly`, that says what they mean
without using their definition. Clocks are an explicit `now`, database tables
are maps, and the iteration order of a hash map is a nondeterministic choice.

| files | component |
|---|---|
| `RateWindow`, `SlidingQueue`, `Welford`, `Baselines`, `RateLimiter` | fixed-window counter, behaviour baselines |
| `Utf8`, `Decoding`, `Redaction` | bounded text, percent-decoding, redaction |
| `Recency`, `RouteSummary`, `RouteMemory`, `RouteMatching` | learned routes, path normalisation, templates |
| `Json`, `SchemaLearning` | JSON flattening and the schema learner |
| `Findings`, `Policy` | the decision on the findings of one request |
| `Mitigation` | blocks and reputations in memory and on disk |
| `Sorting`, `StableSort`, `PolicyCanonical`, `PolicyImport`, `PolicyStore` | canonical policy, versions, saved bundles |
| `Telemetry` | bounded queue, one worker, retries |
| `ContractEvidence` | printing and parsing of contract mismatch evidence |
| `Text`, `Permutations`, `Numbers` | strings, split and join; sums, repetitions and reordering; real arithmetic |

## Results that differ from what one may expect

- The bound on admitted requests in *any* interval of one window length is 2·max(L, 1) − 1, one less than two
  aligned windows suggest, and it is attained. Each operator clear of the key in the interval adds one quota.
  Conversely a request is refused only when some such interval around it has used up its quota.
- Everything Balanced rejects, Strict rejects exactly when `min_block_confidence` ≥ 0.55 or `min_block_score`
  ≥ 49.5; otherwise one weak critical finding is a counterexample (`Policy.StrictMissesWeakCritical`).
- A body that looks like every earlier one is still reported (SCHEMA-001) when it is the first body, no minimum
  number of samples is asked for and it has a field that is not sensitive. That is the only case;
  `SchemaLearning.FirstBodyIsReported` gives the body.
- A restart changes no answer to a lookup, but the "removed" flag of an unblock does see it when an expired
  block is waiting in memory (`Mitigation.UnblockReportChanges`).
- The root path matches a template that is a single placeholder, because both split into one segment.
- A digest identifies a policy up to the order of rows with different sort keys. It fixes the rate limit of a
  path exactly when one prefix alone covers that path, since resolution takes the first match in list order.
- Tampering with a saved bundle goes unnoticed exactly when the policy already had the tamper marker as a
  detect-only rule, when the digest of the marked policy collides with the saved one, or when the saved digest
  is empty. Neither lemma about digests assumes that there are no collisions; a collision is a case of its own.

## Model

| member | source | states |
|---|---|---|
| RateWindow.SlidingBound | src/rate_limit/mod.rs:83-109 | In every chronological run, any half-open interval as long as the window admits at most (2 + clears of the key in it)·max(L, 1) − 1 requests of one key |
| RateWindow.SlidingBoundIsTight | src/rate_limit/mod.rs:83-109 | For every limit and every window of at least two ticks some run attains that bound |
| RateWindow.RefusedOnlyAtQuota | src/rate_limit/mod.rs:83-109 | In every chronological run a request is refused only when some interval of one window length that contains it already admitted max(L, 1) requests |
| RateWindow.BudgetHolds | src/rate_limit/mod.rs:83-109 | The invariant behind the bound: what a counter and the start of its window say about the admissions so far in an interval |
| SlidingQueue.PurgeOfCapped | src/rate_limit/mod.rs:315-320 | Purging a capped queue at a later time gives the capped in-window part of the whole history, so interleaved purges lose nothing |
| SlidingQueue.PurgeAppendCap | src/rate_limit/mod.rs:420-439 | Purge, append and cap of the capped queue gives the last `cap` in-window items of the extended history |
| SlidingQueue.InWindowExactly | src/rate_limit/mod.rs:601-629 | An item is in the window as long as its age does not exceed the window's length |
| SlidingQueue.PurgeOld | src/rate_limit/mod.rs:601-629 | The popping loop removes exactly the expired front of the queue |
| SlidingQueue.PopFrontTo | src/rate_limit/mod.rs:434-439 | The capping loop leaves the last `cap` items |
| Welford.FoldIsExact | src/rate_limit/mod.rs:631-637 | After any samples the mean is the sum over n and m2 the sum of squared deviations, which is not negative |
| Welford.FoldIgnoresOrder | src/rate_limit/mod.rs:631-637 | The running moments do not depend on the order of the samples |
| Welford.StdDevIsSampleDeviation | src/rate_limit/mod.rs:639-645 | The square of the deviation is the sample variance from two samples on, and it is zero before |
| Baselines.ReplayRefines | src/rate_limit/mod.rs:296-473 | After any chronological mix of the three evaluators the queues are the in-window (capped) histories and the moments those of all samples |
| Baselines.ThresholdAboveCapNeverFires | src/rate_limit/mod.rs:428-445 | With a threshold above the cap the enumeration check sees too few distinct ids on every history |
| Baselines.SteadyTraffic | src/rate_limit/mod.rs:322-385 | Perfectly constant traffic is anomalous exactly when a configured z-score limit is not positive |
| Baselines.AnomalyExactly | src/rate_limit/mod.rs:322-385 | With enough samples a value is a spike exactly from the mean plus limit times the deviation on; without spread, from the stated jump on; before warm-up never for positive limits |
| Baselines.LargerStillSpikes | src/rate_limit/mod.rs:330-354 | A larger value never withdraws a spike |
| Baselines.NoSpikeBeforeWarmup | src/rate_limit/mod.rs:330-354 | Below the warm-up count positive limits raise nothing |
| Welford.ZScoreExactly | src/rate_limit/mod.rs:647-653 | A score reaches a limit exactly when the value lies that many deviations above the mean |
| RateLimiter.RateLimiter.Check | src/rate_limit/mod.rs:83-109 | The in-place counter update is the step of the window model and the answer is its admission test |
| RateLimiter.RateLimiter.ClearSourceState | src/rate_limit/mod.rs:111-137 | Exactly the counters and entries with the source's prefix go; the result counts them; the memory stays consistent with its history |
| RateLimiter.RateLimiter.EnforceCapacity | src/rate_limit/mod.rs:554-575 | Some entries, exactly as many as the excess, are evicted with their histories; below capacity none |
| RateLimiter.RateLimiter.EvaluateBehavior | src/rate_limit/mod.rs:296-409 | A visit is an anomaly exactly when its rate over the last minute or its size is a spike over all samples since insertion, in terms of their mean and deviation |
| RateLimiter.RateLimiter.EvaluateObjectEnumeration | src/rate_limit/mod.rs:411-473 | The finding fires exactly when the last `cap` in-window ids of the history since insertion hold `threshold` distinct ones, and never with a threshold above the cap |
| RateLimiter.RateLimiter.EvaluateAuthAbuse | src/rate_limit/mod.rs:475-552 | Spraying or brute force is reported from exactly the in-window attempts of the history since insertion, spraying first |
| RouteMemory.EvictOldestIsLru | src/core/mod.rs:1686-1738 | Over every run with a strictly growing clock a route is stored exactly when fewer than max(1, limit) other keys were touched since its last touch, and it is the exact summary of its residence |
| RouteMemory.RouteMemory.RememberRoute | src/core/mod.rs:1686-1738 | One touch updates the route, or inserts it after evicting a least recently seen one when full |
| RouteMemory.RouteMemory.EvictOldestRoute | src/core/mod.rs:1786-1794 | Removes one route with the least `last_seen`, whatever the iteration order |
| RouteMemory.RouteMemory.ObserveRouteResponse | src/core/mod.rs:1740-1772 | A response updates the codes, types, sizes and status of a known route and nothing else |
| Recency.KeptByReuseDistance | src/core/mod.rs:1723-1738 | A key is among the n most recent exactly when fewer than n distinct keys were touched since |
| RouteSummary.SummaryIsExact | src/core/mod.rs:1686-1772 | Every field of the learned route read off its observations: times, hits, auth, the 16 smallest codes, the last 8 type insertions, byte ranges, and Known exactly when some response came after enough touches |
| RouteSummary.AddCodeKeepsSmallest | src/core/mod.rs:1752-1760 | The code list stays the sorted 16 smallest codes ever observed, even when a dropped code returns |
| RouteSummary.SmallestIsUnique | src/core/mod.rs:1752-1760 | Only one list is the ascending list of the n smallest members of a set |
| RouteSummary.PushKeepsTypes | src/core/mod.rs:1796-1812 | The list is the last `max` insertions in order, an offer being inserted when it is not among the last `max` inserted; so a full list drops the one inserted first, and no two are equal ignoring case |
| RouteSummary.WidenSpans | src/core/mod.rs:1814-1817 | The range is the exact minimum and maximum of the sizes observed |
| RouteMemory.PushUnique | src/core/mod.rs:1796-1812 | The in-place list update is the bounded case-insensitive insertion |
| RouteMatching.NormalizeIsIdempotent | src/core/mod.rs:1563-1576 | Normalising a normalised path changes nothing |
| RouteMatching.MatchIsSegmentwise | src/core/mod.rs:1588-1614 | A compiled template matches a normalised path exactly when the segments agree one by one, or one placeholder meets the root path |
| RouteMatching.FilledTemplateIsMatched | src/core/mod.rs:1592-1614 | Any filling of a template, with any case and repeated slashes, is matched after normalisation by that route or an earlier one |
| RouteMatching.SpecMatchExactly | src/core/mod.rs:1592-1614 | The route found is the first whose method agrees ignoring case and whose template accepts the path segment by segment; none is found when none does |
| RouteMatching.ProxyPrefixIsDropped | src/core/mod.rs:1578-1586 | The proxy prefix is removed and the rest of the path kept |
| RouteMatching.OtherPathsKeepTheirName | src/core/mod.rs:1578-1586 | Only paths under the proxy prefix are renamed |
| RouteMatching.IdSegmentExactly | src/core/mod.rs:36-38 | Which segments count as identifiers, by length and alphabet |
| RouteMatching.NormalizeIdentifies | src/core/mod.rs:1563-1576 | Two paths are one route exactly when their segments agree one by one: both identifiers, or equal ignoring case |
| RouteMatching.NormalizedShows | src/core/mod.rs:1563-1576 | A normalised path shows a placeholder for each identifier and the other segments in lower case |
| RouteMatching.NormalizePath | src/core/mod.rs:1563-1576 | The loop over the pieces computes the normalised path |
| Utf8.PrefixValid | src/detection/normalization.rs:186-196 | A prefix of valid UTF-8 is valid exactly at a character boundary |
| Utf8.BoundedIsLongest | src/detection/normalization.rs:186-196 | The bounded text is the longest valid prefix within the limit and at most 3 bytes shorter than the limit when it was exceeded |
| Utf8.ValidExactly | src/detection/normalization.rs:186-196 | The valid byte strings are exactly the encodings of sequences of Unicode scalar values |
| Utf8.Bound | src/detection/normalization.rs:186-196 | The loop that steps back to a boundary computes that prefix |
| Utf8.Truncate | src/core/mod.rs:2010-2020 | A longer text becomes its longest valid prefix and an ellipsis, a shorter one is unchanged |
| Decoding.UnescapeShortens | src/detection/normalization.rs:99-114 | A pass that finds a triplet shortens the text by at least two bytes; otherwise it changes nothing |
| Decoding.DecodingSettles | src/detection/normalization.rs:99-114 | The result is valid text within the limit, and it is a fixpoint or not decodable unless every allowed pass shortened it |
| Decoding.DecodeUndoesEncoding | src/detection/normalization.rs:99-114 | With n = min(passes, 4), decoding any n-fold percent-encoding that fits, its hex digits in either case, gives back the text |
| Decoding.RoundTrip | src/detection/normalization.rs:99-114 | In particular for the usual encoder of section 2.1 of RFC 3986, whichever case it chooses for each digit |
| Decoding.HexDigitExactly | src/detection/normalization.rs:99-114 | A byte is read as the value of a hex digit exactly when it is the digit of that value, in one of the two cases |
| Decoding.UnescapeExactly | src/detection/normalization.rs:99-114 | What one pass does to any text: a triplet becomes its byte, and every byte that starts none stays |
| Decoding.DecodeBounded | src/detection/normalization.rs:99-114 | The loop computes the bounded repeated decoding |
| Redaction.RedactedPairs | src/detection/normalization.rs:116-136 | The output parses to the input's pairs, leading empty ones aside: the same keys, and the same values except that those of sensitive keys are the marker |
| Redaction.RedactIsIdempotent | src/detection/normalization.rs:116-136 | Redacting twice is redacting once |
| Redaction.RedactionHidesExactlySecrets | src/detection/normalization.rs:116-148 | Two texts redact alike exactly when their pairs differ in values of sensitive keys only |
| Redaction.SecretValueDoesNotShow | src/detection/normalization.rs:116-148 | Replacing a value of a sensitive key anywhere in a text leaves the output unchanged |
| Redaction.NormalizedQueryHidesSecrets | src/detection/normalization.rs:150-173 | Queries that differ in decoded secret values only normalise alike, within the bound, with every sensitive value replaced |
| Redaction.QueryReportsExactly | src/detection/normalization.rs:150-173 | The normalised query reports, in order, exactly those of the first max pairs with a non-empty decoded key: under the key in lower case, with the decoded value unless the key is sensitive |
| Redaction.SensitiveExactly | src/detection/normalization.rs:138-148 | A key is sensitive exactly when one of the words stands anywhere in it, case and punctuation aside |
| Redaction.PairExactly | src/detection/normalization.rs:116-121 | A pair is what stands before the first equals sign and what stands after it, if there is one |
| Redaction.RedactSensitiveText | src/detection/normalization.rs:116-136 | The appending loop computes the redaction |
| Json.FlattenIsBoundedTree | src/detection/schema_learning.rs:256-296 | Flattening returns min(limit, number of paths) paths of the tree with their kinds, closed under taking parents |
| Json.FieldsExactly | src/detection/schema_learning.rs:262-296 | The paths of a body are the clean keys, none empty, on the way through objects, joined by dots, each with the kind of the value reached |
| Json.KindsExactly | src/detection/schema_learning.rs:306-315 | The kind says how a value was built |
| Json.DepthIsLongestPath | src/detection/schema_learning.rs:317-323 | The depth is the number of values on the longest path into the body |
| Json.ArrayLenIsMaximum | src/detection/schema_learning.rs:325-333 | The array length is that of the longest array anywhere in the body |
| Json.CleanKeyExactly | src/detection/schema_learning.rs:276-281 | A key keeps its letters in lower case, digits, underscores and dashes, and nothing else |
| Json.FlattenInner | src/detection/schema_learning.rs:262-296 | The accumulating walk computes the flattening |
| SchemaLearning.LearnedCounters | src/detection/schema_learning.rs:115-206 | The schema refines its sample log: `seen` counts the samples with the field, type counts sum to it, maxima are attained maxima |
| SchemaLearning.DominantTypeSpec | src/detection/schema_learning.rs:298-304 | The dominant type is the one with the largest count, the last by name among equals, and absent only without types |
| SchemaLearning.FindingsFollowLog | src/detection/schema_learning.rs:115-180 | When each field finding is reported, in terms of the sample log alone, in both directions |
| SchemaLearning.SizeFindingFollowsLog | src/detection/schema_learning.rs:171-186 | A body is too large exactly when it exceeds four times every earlier size and some earlier body was not empty |
| SchemaLearning.LimitsExactly | src/detection/schema_learning.rs:88-113 | Depth and array findings by the paths and arrays of the body |
| SchemaLearning.JsonBodyExactly | src/detection/schema_learning.rs:57-66 | A body is learned when it is not blank and its content type mentions JSON |
| SchemaLearning.FamiliarBodyIsQuiet | src/detection/schema_learning.rs:115-206 | A body with the fields of every earlier sample is reported for its fields exactly in the first-body case above |
| SchemaLearning.FirstBodyIsReported | src/detection/schema_learning.rs:115-180 | The failing input: the first body {"a": null} raises SCHEMA-001 when no sample is asked for |
| SchemaLearning.SchemaMemory.LearnAndDetect | src/detection/schema_learning.rs:50-207 | Findings compare the body with its route's samples since insertion, the body joins exactly that log, and when the memory is full a new route evicts exactly one schema, one with the fewest samples |
| SchemaLearning.SchemaMemory.EvictLowestSample | src/detection/schema_learning.rs:335-342 | Removes one schema with the fewest samples, and its log |
| Mitigation.AlwaysInSync | src/mitigation/mod.rs:43-112 | In every run a block in memory equals its row, an unexpired row is in memory, reputations agree |
| Mitigation.AnswersFollowHistory | src/mitigation/mod.rs:43-139 | A lookup finds a block exactly when the latest block, unblock or clear was a block that has not expired; the reputation is the score since its reset |
| Mitigation.RestartIsUnobservable | src/app/mod.rs:62-116 | Removing all restarts, sweeps and lookups from a run changes no later lookup, list or reputation |
| Mitigation.RestartSeenByUnblock | src/mitigation/mod.rs:110-112 | The removal flag survives a restart exactly when no expired block waits in memory |
| Mitigation.UnblockReportChanges | src/mitigation/mod.rs:110-112 | A run in which that flag changes |
| Mitigation.SplitSweep | src/app/mod.rs:91-116 | A sweep in two steps keeps agreement exactly when no deleted row belongs to a block in memory |
| Mitigation.SplitSweepLosesBlock | src/app/mod.rs:91-116 | A fresh block between the two steps is lost by the next restart |
| Mitigation.MitigationStore.GetActiveBlock | src/mitigation/mod.rs:43-54 | Answers the unexpired block and removes an expired one from memory only |
| Mitigation.MitigationStore.ClearSourceState | src/mitigation/mod.rs:273-287 | Removes block and reputation on both sides and reports each |
| Mitigation.MitigationStore.CleanupExpired | src/mitigation/mod.rs:70-89 | Together with the row deletion of the background task it removes exactly the expired blocks |
| Mitigation.MitigationStore.Hydrate | src/app/mod.rs:62-89 | Loading the tables gives the unexpired rows and all reputations |
| Mitigation.MitigationStore.AddSuspiciousScore | src/mitigation/mod.rs:114-139 | The score is added in memory and in the table alike |
| Mitigation.MitigationStore.FinalizeBlockingDecision | src/mitigation/mod.rs:189-252 | Without a ban among the actions the blocks are unchanged; otherwise the source holds the block of the last ban, in memory and table, until its time to live has passed; the reputation rises by the points; no other address is touched |
| Mitigation.FinalizeEffect | src/mitigation/mod.rs:189-228 | The same of the steps it takes, so that the laws over runs apply to it |
| Mitigation.BlockLastsItsTime | src/mitigation/mod.rs:56-68 | After any run a block answers lookups for exactly its time to live |
| Mitigation.PointsByCount | src/mitigation/mod.rs:345-358 | One, two, four or six points for each finding by its severity |
| Mitigation.CalculateReputationDelta | src/mitigation/mod.rs:345-358 | The loop counts one, two, four or six points by severity; any finding costs reputation |
| Policy.RejectionIsMonotone | src/policy/mod.rs:12-89 | More findings, a worse reputation or fewer exceptions never turn a rejection into an allowance |
| Policy.OutcomeIgnoresOrder | src/policy/mod.rs:12-89 | The outcome does not depend on the order of findings or exceptions |
| Policy.MonitorNeverRejects | src/policy/mod.rs:91-100 | Monitor mode rejects nothing |
| Policy.StrictCoversBalancedExactly | src/policy/mod.rs:156-176 | Strict rejects whatever Balanced does exactly under the condition above |
| Policy.StrictMissesWeakCritical | src/policy/mod.rs:156-176 | The finding that Balanced rejects and Strict does not otherwise |
| Policy.CalculateRisk | src/core/mod.rs:447-477 | The loop computes the weighted sum of the scores with its clamp |
| Policy.EvaluateFindings | src/policy/mod.rs:12-89 | Rejects exactly when some finding in block mode, not excepted, of high severity reaches the floors of the policy mode, or a critical one meets enough risk; the actions are those such block-mode findings call for, without repeats, in order of first call |
| Policy.RejectsExactly | src/policy/mod.rs:12-176 | The decision in terms of each finding's own mode, severity and confidence, the exceptions and the configured floors |
| Policy.WithoutCritical | src/policy/mod.rs:12-176 | Without a critical finding a request is rejected exactly for a high one in block mode, not excepted, that reaches the floors |
| Policy.UnenforcedIsQuiet | src/policy/mod.rs:91-140 | Findings that only detect, only recommend or are excepted take no action in any mode, and reject nothing unless one is critical |
| Policy.BlockActionsExactly | src/policy/mod.rs:288-343 | Which actions each class of finding calls for; the request's own block comes first and the ban of a critical finding last |
| Policy.AppliesExactly | src/policy/mod.rs:115-134 | An exception applies to its detector's findings within the prefix, confidence and parameter it states, if it is monitor-only |
| Policy.MatchesExactly | src/policy/mod.rs:142-154 | A parameter matches a location that is it, or ends in it after a dot or in brackets, in any case |
| Policy.RiskByCounts | src/core/mod.rs:447-477 | The risk in terms of how many findings of each group of classes and each severity there are, and of the reputation |
| Policy.ActionsComeFromFindings | src/policy/mod.rs:288-343 | An action is taken exactly when some block-ruled finding calls for it |
| Policy.ActionsInOrder | src/policy/mod.rs:47-62 | The actions of two lists of findings, one after the other, are those of the first and then those of the second |
| Policy.DedupeInOrder | src/policy/mod.rs:345-348 | Deduplicated actions stand in the order of their first occurrences |
| Policy.DedupeSpec | src/policy/mod.rs:345-363 | Deduplication keeps each action once and loses none |
| StableSort.SortAgrees | src/core/mod.rs:1160-1274 | Two lists sort alike exactly when, for every key, they hold the same rows in the same order |
| StableSort.LeqExactly | src/core/mod.rs:1160-1166 | The order of the sort keys: extensions come later, and otherwise the first difference decides |
| StableSort.FoundIsSettledExactly | src/types/mod.rs:366-402 | A first-match search answers alike on all lists that sort alike exactly when the first matches of all keys agree |
| PolicyCanonical.CanonicalAgrees | src/core/mod.rs:1143-1274 | Two policies have one canonical form exactly when they differ at most in the order of rows with different keys |
| PolicyCanonical.ReorderingIsInvisible | src/core/mod.rs:1143-1274 | With pairwise distinct sort keys every reordering has the same canonical form |
| PolicyCanonical.EqualKeysKeepTheirOrder | src/core/mod.rs:1248-1274 | Swapping two different exceptions of one detector changes the canonical form |
| PolicyCanonical.CanonicalFixesExceptions | src/policy/mod.rs:102-140 | Equal canonical forms give the same findings after exceptions, for all findings and paths |
| PolicyCanonical.RateLimitIsSettledExactly | src/types/mod.rs:384-402 | The form fixes the rate limit of a path exactly when one prefix alone covers it |
| PolicyCanonical.RuleModeIsSettledExactly | src/types/mod.rs:366-382 | The form fixes a rule's mode on a path exactly when the covering prefixes agree on it |
| PolicyCanonical.RuleModeDefaults | src/types/mod.rs:366-382 | Where no override names the rule its global mode holds, and it only detects when it has none |
| PolicyCanonical.NestedPrefixesResolveByOrder | src/types/mod.rs:384-402 | Two nested prefixes: same canonical rows, different limits |
| PolicyCanonical.CanonicalModesIdentify | src/core/mod.rs:1160-1166 | The sorted listing of a mode map does not show iteration order and loses nothing |
| PolicyCanonical.Canonicalise | src/core/mod.rs:1143-1274 | The copying and sorting code computes the canonical form |
| PolicyImport.ValidateLivePolicyImport | src/core/mod.rs:1276-1357 | Accepts exactly the imports all of whose ids, prefixes, limits, thresholds and selectors are within bounds |
| PolicyImport.ValidateName | src/core/mod.rs:1328-1357 | Accepts exactly names of one to the allowed number of letters, digits, dots, underscores and dashes |
| PolicyImport.ValidatePathPrefix | src/core/mod.rs:1340-1345 | Accepts exactly absolute paths of at most 512 bytes of UTF-8 without two dots in a row |
| PolicyImport.ValidateRateLimit | src/core/mod.rs:1290-1298 | Accepts exactly one to a million requests in one second to one day |
| PolicyImport.ValidateException | src/core/mod.rs:1310-1323 | Accepts exactly exceptions with valid names and prefix and a confidence within [0, 1] |
| PolicyStore.SaveRunRestore | src/control_plane/mod.rs:611-750 | Save, any run that does not tamper with the bundle, restore: the saved policy is live with the next version, no difference and a matching digest, or nothing changed when it is not a valid import |
| PolicyStore.RestoreAfterRun | src/control_plane/mod.rs:651-750 | The outcome of restoring a saved bundle after any run, under any digest: refused exactly when tampering changed it and the digest shows that, otherwise rejected exactly when it is not a valid import |
| PolicyStore.BundleAfter | src/storage/mod.rs:2152-2204 | A bundle survives every run and only tampering with it changes it |
| PolicyStore.FailedRestoreIsInvisible | src/control_plane/mod.rs:651-750 | A refused, rejected or unknown restore can be cut out of any run |
| PolicyStore.VersionCounts | src/control_plane/mod.rs:2299-2303 | The version is the starting version plus the events that took effect, saturating; without one the policy and previous version are unchanged |
| PolicyStore.StepVersion | src/control_plane/mod.rs:2299-2303 | An event that takes effect raises the version by one and records the old one; others leave all three alone |
| PolicyStore.SameVersionSamePolicy | src/control_plane/mod.rs:101-274 | Below saturation a run that ends on the same version ends on the same policy |
| PolicyStore.VerifyAgainstDiff | src/core/mod.rs:1359-1378 | Verification matches live exactly for policies equal up to row order and for collisions of the digest; no reported difference, or a reordering with distinct keys, implies a match |
| PolicyStore.ComputeDiff | src/core/mod.rs:1433-1455 | A difference is reported exactly when the policies differ, and the six field flags are the fewest that turn the live policy into the saved one |
| PolicyStore.UpsertedLimitGoverns | src/control_plane/mod.rs:201-274 | An upserted limit governs the paths its prefix alone covers, and deleting it gives them the default back |
| PolicyStore.UpsertedOverrideGoverns | src/control_plane/mod.rs:131-199 | An upserted override sets its rules' modes on the paths it alone covers, and deleting it gives them the global mode back |
| PolicyStore.UpsertedBehaviorGoverns | src/rate_limit/mod.rs:270-294 | An upserted behaviour override sets what it states on the paths it alone covers and leaves the rest to the configuration |
| PolicyStore.GlobalModeGoverns | src/control_plane/mod.rs:101-129 | A global mode decides its rule where no override does, and no other rule anywhere |
| StableSort.UpsertedRowIsFound | src/types/mod.rs:366-402 | Where the key of an upserted row alone matches, a first-match search finds that row, and the default once the key is deleted |
| StableSort.UpsertRows | src/control_plane/mod.rs:131-165 | An upsert replaces the first row of its key or adds one, and leaves the rows of all other keys in order |
| StableSort.DeleteUndoesUpsert | src/control_plane/mod.rs:131-199 | Deleting after an upsert leaves what deleting before it would have left |
| PolicyStore.LivePolicyStore.UpsertRouteRateLimit | src/control_plane/mod.rs:201-240 | The searching update of the list is the upsert step |
| PolicyStore.LivePolicyStore.DeleteRouteRateLimit | src/control_plane/mod.rs:242-274 | The filter is the delete step, and the version moves only when a row went |
| PolicyStore.LivePolicyStore.ImportLivePolicy | src/control_plane/mod.rs:1573-1616 | A valid import replaces the policy under the next version, an invalid one changes nothing |
| PolicyStore.LivePolicyStore.SavePolicyBundle | src/storage/mod.rs:1457-1478 | Stores the live policy with its digest, unless the id is taken |
| PolicyStore.LivePolicyStore.RestorePolicyBundle | src/control_plane/mod.rs:651-750 | The handler takes the modelled step and reports its outcome |
| PolicyStore.LivePolicyStore.VerifyPolicyBundle | src/control_plane/mod.rs:871-884 | Reads the bundle back and compares stored, recomputed and live digests |
| Telemetry.Conservation | src/telemetry_delivery.rs:130-193 | Over every interleaving: offered = dropped + queued + in flight + sent + failed (+ lost once the worker is gone), queue ≤ capacity, retried ≤ 3·(sent + failed) + 3·(in flight) |
| Telemetry.NoDropsWithinCapacity | src/telemetry_delivery.rs:130-147 | While no more events were offered than the queue holds and the worker lives, all are accepted and none is dropped |
| Telemetry.FirstInFirstOut | src/telemetry_delivery.rs:168-193 | Payloads are resolved in the order of acceptance, sent ones are a subsequence, each after one to four replies that end it |
| Telemetry.InvariantHolds | src/telemetry_delivery.rs:130-193 | The invariant of producers and worker: counts, order, and the replies heard for the payload in flight |
| Telemetry.WorkerDrains | src/telemetry_delivery.rs:168-193 | Left alone the worker empties its queue within five steps a payload, whatever replies it hears |
| Telemetry.DeliverWithRetries | src/telemetry_delivery.rs:277-314 | The retry loop hears exactly the replies up to the one that ends the delivery, and reports its fate, retries and sleeping time |
| Telemetry.HeardIsUnique | src/telemetry_delivery.rs:277-314 | Those replies are determined, so every delivery has one fate |
| Telemetry.StatusClasses | src/telemetry_delivery.rs:316-354 | Success is 2xx; 5xx, 408, 429 and network errors are tried again; every other status ends the delivery |
| Telemetry.RefusalEndsAtOnce | src/telemetry_delivery.rs:277-314 | A first reply of another class ends the delivery at once, and server errors use up all four attempts |
| Telemetry.TotalBackoffIsBounded | src/telemetry_delivery.rs:356-360 | The sleeps add up to 137, 361 and 772 ms over one, two and three retries |
| Telemetry.TelemetryDelivery.Enqueue | src/telemetry_delivery.rs:130-147 | Drops the newest payload when the queue is full or closed, ignores it when disabled |
| Telemetry.TelemetryDelivery.HearReply | src/telemetry_delivery.rs:284-313 | One turn of the retry loop is the modelled step |
| Telemetry.TelemetryDelivery.Snapshot | src/telemetry_delivery.rs:149-156 | What a reader may conclude from the counters: at most capacity + 1 events are unaccounted for while the worker lives |
| ContractEvidence.RebuiltFields | src/core/mod.rs:628-680 | What parsing the printed evidence yields, field by field |
| ContractEvidence.KeptExactly | src/proxy/mod.rs:221-246 | No mismatch is reported exactly when status, content-type prefix and every required header are as agreed |
| ContractEvidence.PrintedInDecimal | src/proxy/mod.rs:247-256 | The status is printed in decimal |
| ContractEvidence.HeadersRoundTrip | src/core/mod.rs:628-680 | The missing headers come back exactly when each is non-empty, comma-free and trimmed |
| ContractEvidence.PrefixRoundTrip | src/core/mod.rs:628-680 | The content-type prefix comes back exactly when it has no comma and no trailing white space |
| ContractEvidence.ContractRoundTrip | src/proxy/mod.rs:221-279 | The status always comes back, and the whole contract exactly when its prefix and headers do and all headers were missing |
| ContractEvidence.BuildFromMismatch | src/core/mod.rs:628-680 | The loop over the evidence computes that parse |

## Left out

- Handlers are atomic steps. The sweep is one step too; `Mitigation.SplitSweep` says what is lost without that.
- Database writes succeed, and tables are maps by primary key; SQL, JSON serialisation and time formats are not modelled.
- Numbers: `real` for floats, so no rounding, NaN or infinities; counters and scores are unbounded, except the policy version, which saturates as in the source; clock range limits are not modelled.
- SHA-256 is a parameter of the policy store: any function from canonical forms to strings. Nothing is assumed about it; what a collision or an empty digest would do is stated.
- Regex detectors, URL and IP parsing, JWT decoding and header access are parameters or absent; the id-segment patterns are modelled as their character classes.
- `urlencoding::decode` is modelled as section 2.1 of RFC 3986 with malformed triplets left alone and a failure on invalid UTF-8; for query values it is a parameter.
- `RateWindow.SlidingBound` assumes one limit and window per key and a clock that does not run backwards, as the source's callers provide between policy edits.
- `RateLimiter.RateLimiter.EvaluateObjectEnumeration`: what the route overrides resolve to for a key, its window, threshold and warm-up, is fixed for the life of the object, so a live policy edit that changes them is not modelled for the behaviour memory either.
- `RouteMemory.EvictOldestIsLru` starts from empty memory with a strictly growing clock; restoring more learned routes than the capacity at startup is not modelled.
- The key of a learned route stands for its method and path fields.
- `SchemaLearning` collects findings in a set: their order and message texts are not modelled.
- Policy: recommendation texts and finding evidence previews are not modelled; an action is its kind and duration.
- Policy store: audit records, refusal alerts, notes, authors and timestamps of bundles, and the choice of the latest bundle are not modelled; bundle ids are inputs.
- Validation: which error is reported first is not modelled, only acceptance.
- Telemetry: the mapping of security events to payloads is not modelled; stopping the worker is one step that loses what it held.
- Proxying, routers, middleware, exports, metrics, allowlists, release channels and list endpoints carry no state property beyond copying fields.
