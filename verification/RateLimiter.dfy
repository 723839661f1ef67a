/** The limiter object: request counters and the capacity-bounded behaviour memory. */
module RateLimiter {
  import opened RateWindow
  import opened SlidingQueue
  import opened Welford
  import opened Baselines

  /** What the route overrides resolve to for one principal and route. */
  datatype RouteBehavior = RouteBehavior(warmup: nat, threshold: nat, windowSecs: nat)

  datatype BehaviorConfig = BehaviorConfig(
    enabled: bool, spike: SpikeConfig, authWindowSecs: nat,
    bruteforceThreshold: nat, sprayThreshold: nat, maxEntries: nat, maxIds: nat)

  datatype AuthFinding = Nothing | PasswordSpray(subjects: nat) | BruteForce(attempts: nat)

  type Memory = map<string, BehaviorState>
  type Log = map<string, seq<Visit>>

  function SettingsFor(config: BehaviorConfig, route: RouteBehavior): Settings {
    Settings(Secs(route.windowSecs), Secs(config.authWindowSecs), config.maxIds)
  }

  /** Every entry in memory is the replay of its visits since it was last inserted. */
  ghost predicate Consistent(m: Memory, log: Log, config: BehaviorConfig, routeOf: string -> RouteBehavior, clock: nat) {
    && log.Keys == m.Keys
    && forall key {:trigger Agrees(m[key], log[key], SettingsFor(config, routeOf(key)), clock)} ::
         key in m ==> Agrees(m[key], log[key], SettingsFor(config, routeOf(key)), clock)
  }

  /** The visits of `key` since its last insertion, once `evicted` are gone. */
  ghost function History(was: Log, evicted: set<string>, key: string): seq<Visit> {
    if key in was && key !in evicted then was[key] else []
  }

  function EntryOf(m: Memory, key: string): BehaviorState {
    if key in m then m[key] else FRESH
  }

  lemma ConsistentWithout(m: Memory, log: Log, config: BehaviorConfig, routeOf: string -> RouteBehavior, clock: nat, gone: set<string>)
    requires Consistent(m, log, config, routeOf, clock)
    ensures Consistent(m - gone, log - gone, config, routeOf, clock)
  {
    forall k | k in m - gone
      ensures Agrees((m - gone)[k], (log - gone)[k], SettingsFor(config, routeOf(k)), clock)
    {
      assert Agrees(m[k], log[k], SettingsFor(config, routeOf(k)), clock);
    }
  }

  lemma ConsistentUpdate(m: Memory, log: Log, config: BehaviorConfig, routeOf: string -> RouteBehavior, clock: nat,
                         key: string, st: BehaviorState, h: seq<Visit>, now: nat)
    requires Consistent(m, log, config, routeOf, clock) && clock <= now
    requires Agrees(st, h, SettingsFor(config, routeOf(key)), now)
    ensures Consistent(m[key := st], log[key := h], config, routeOf, now)
  {
    forall k | k in m && k != key
      ensures Agrees(m[k], log[k], SettingsFor(config, routeOf(k)), now)
    {
      assert Agrees(m[k], log[k], SettingsFor(config, routeOf(k)), clock);
      AgreesLater(m[k], log[k], SettingsFor(config, routeOf(k)), clock, now);
    }
  }

  lemma ConsistentWith(m: Memory, log: Log, config: BehaviorConfig, routeOf: string -> RouteBehavior, clock: nat,
                       key: string, v: Visit)
    requires Consistent(m, log, config, routeOf, clock) && clock <= v.now
    ensures var s := SettingsFor(config, routeOf(key));
            Consistent(m[key := Apply(EntryOf(m, key), v, s)], log[key := History(log, {}, key) + [v]], config, routeOf, v.now)
  {
    var s, h := SettingsFor(config, routeOf(key)), History(log, {}, key);
    assert Agrees(EntryOf(m, key), h, s, clock) by {
      assert key in m ==> Agrees(m[key], log[key], s, clock);
    }
    AgreesAfterVisit(EntryOf(m, key), h, v, s, clock);
    ConsistentUpdate(m, log, config, routeOf, clock, key, Apply(EntryOf(m, key), v, s), h + [v], v.now);
  }

  /** The entry of `key` in a consistent memory, read as a summary of its history. */
  lemma EntryRefines(m: Memory, log: Log, config: BehaviorConfig, routeOf: string -> RouteBehavior, clock: nat, key: string)
    requires Consistent(m, log, config, routeOf, clock)
    ensures var h, s := History(log, {}, key), SettingsFor(config, routeOf(key));
            InOrder(h, clock) && QueuesRefine(EntryOf(m, key), h, s) && MomentsRefine(EntryOf(m, key), h)
  {
    assert key in m ==> Agrees(m[key], log[key], SettingsFor(config, routeOf(key)), clock);
    AgreesRefines(EntryOf(m, key), History(log, {}, key), SettingsFor(config, routeOf(key)), clock);
  }

  lemma IdsAfterCheck(m: Memory, log: Log, config: BehaviorConfig, routeOf: string -> RouteBehavior, clock: nat, key: string,
                      before: seq<Visit>, now: nat, ids: seq<string>)
    requires Consistent(m, log, config, routeOf, clock)
    requires key in m && log[key] == before + [Objects(now, ids)]
    ensures var recent := RecentIds(log[key], now, SettingsFor(config, routeOf(key)));
      m[key].objectIds == recent && Distinct(recent) <= |recent| <= config.maxIds
  {
    EntryRefines(m, log, config, routeOf, clock, key);
    HistoryAppend(before, Objects(now, ids));
    DistinctAtMostLength(RecentIds(log[key], now, SettingsFor(config, routeOf(key))));
  }

  lemma AttemptsAfterCheck(m: Memory, log: Log, config: BehaviorConfig, routeOf: string -> RouteBehavior, clock: nat, key: string,
                           before: seq<Visit>, now: nat, subject: string)
    requires Consistent(m, log, config, routeOf, clock)
    requires key in m && log[key] == before + [Attempt(now, subject)]
    ensures m[key].attempts == InWindow(Attempts(log[key]), now, Secs(config.authWindowSecs))
  {
    EntryRefines(m, log, config, routeOf, clock, key);
    HistoryAppend(before, Attempt(now, subject));
  }

  /** Any `n` of the keys, as an iterator over the map happens to yield them. */
  method TakeKeys(keys: set<string>, n: nat) returns (taken: set<string>)
    requires n <= |keys|
    ensures taken <= keys && |taken| == n
  {
    taken := {};
    var rest := keys;
    while |taken| < n
      invariant taken <= keys && rest == keys - taken && |taken| <= n
      invariant |rest| + |taken| == |keys|
    {
      var key :| key in rest;
      taken, rest := taken + {key}, rest - {key};
    }
  }

  lemma MinusPrefix<V>(m: map<string, V>, prefix: string, keys: set<string>)
    requires keys == set k | k in m && prefix <= k
    ensures m - keys == Outside(m, prefix)
    ensures |Outside(m, prefix)| == |m| - |keys|
  {
    var kept := Outside(m, prefix);
    assert (m - keys).Keys == kept.Keys;
    assert forall k :: k in kept ==> (m - keys)[k] == m[k] == kept[k];
    MinusSize(m, keys);
  }

  lemma ConsistentOutside(m: Memory, log: Log, config: BehaviorConfig, routeOf: string -> RouteBehavior, clock: nat, prefix: string)
    requires Consistent(m, log, config, routeOf, clock)
    ensures Consistent(Outside(m, prefix), Outside(log, prefix), config, routeOf, clock)
  {
    var gone := set k | k in m && prefix <= k;
    MinusPrefix(m, prefix, gone);
    MinusPrefix(log, prefix, gone);
    ConsistentWithout(m, log, config, routeOf, clock, gone);
  }

  method RemoveAll<V>(m: map<string, V>, keys: set<string>) returns (kept: map<string, V>)
    ensures kept == m - keys
  {
    kept := m;
    var rest := keys;
    while rest != {}
      invariant rest <= keys
      invariant kept == m - (keys - rest)
    {
      var key :| key in rest;
      assert keys - (rest - {key}) == (keys - rest) + {key};
      kept, rest := kept - {key}, rest - {key};
    }
    assert keys - rest == keys;
  }

  /** Collects the keys with the prefix, then removes them one by one. */
  method WithoutPrefix<V>(m: map<string, V>, prefix: string) returns (kept: map<string, V>, removed: nat)
    ensures kept == Outside(m, prefix)
    ensures removed == |m| - |kept|
  {
    var keys := set k | k in m && prefix <= k;
    kept := RemoveAll(m, keys);
    MinusPrefix(m, prefix, keys);
    removed := |keys|;
  }

  /** The anomaly test on the moments, read as a test on the visits before. */
  method Judge(rps: Moments, body: Moments, currentRps: real, now: nat, bodySize: nat, warmup: nat, spike: SpikeConfig,
               sqrt: real -> real, ghost before: seq<Visit>) returns (anomaly: bool)
    requires rps == Fold(RpsSamples(before)) && body == Fold(BodySizes(before))
    requires currentRps == |InWindow(Hits(before) + Stamp(now, [()]), now, Secs(60))| as real
    ensures anomaly == Anomaly(rps, body, currentRps, bodySize as real, warmup, spike, sqrt)
    ensures IsSqrt(sqrt) ==> (anomaly <==> Anomalous(before, now, bodySize, warmup, spike))
  {
    anomaly := Anomaly(rps, body, currentRps, bodySize as real, warmup, spike, sqrt);
    if IsSqrt(sqrt) {
      AnomalousExactly(before, now, bodySize, warmup, spike, sqrt);
    }
  }

  class RateLimiter {
    const config: BehaviorConfig
    const routeOf: string -> RouteBehavior

    var entries: Entries
    var behavior: Memory

    ghost var log: Log
    ghost var clock: nat

    function Capacity(): nat {
      if config.maxEntries == 0 then 1 else config.maxEntries
    }

    function SettingsOf(key: string): Settings {
      SettingsFor(config, routeOf(key))
    }

    ghost predicate Valid()
      reads this
    {
      Consistent(behavior, log, config, routeOf, clock) && |behavior| <= Capacity()
    }

    constructor (config: BehaviorConfig, routeOf: string -> RouteBehavior)
      ensures Valid() && behavior == map[] && entries == map[] && clock == 0
      ensures this.config == config && this.routeOf == routeOf
    {
      this.config, this.routeOf := config, routeOf;
      entries, behavior, log, clock := map[], map[], map[], 0;
    }

    method Check(key: string, limit: nat, windowSecs: nat, now: int) returns (allowed: bool)
      modifies this`entries
      ensures entries == Step(old(entries), Event.Check(key, limit, windowSecs * 1_000_000_000, now))
      ensures allowed == Admits(old(entries), key, limit, windowSecs * 1_000_000_000, now)
    {
      var window := Secs(windowSecs);
      if key in entries {
        var entry := entries[key];
        if Elapsed(now, entry.windowStart) >= window {
          entries := entries[key := RateState(1, now)];
          allowed := true;
        } else {
          entry := entry.(count := entry.count + 1);
          entries := entries[key := entry];
          allowed := entry.count <= limit;
        }
      } else {
        entries := entries[key := RateState(1, now)];
        allowed := true;
      }
    }

    /** Forgets every counter and every entry whose key starts with the source's prefix. */
    method ClearSourceState(prefix: string, now: int) returns (removed: nat)
      requires Valid()
      modifies this`entries, this`behavior, this`log
      ensures Valid()
      ensures entries == Step(old(entries), Event.Clear(prefix, now))
      ensures behavior == Outside(old(behavior), prefix) && log == Outside(old(log), prefix)
      ensures removed == |old(entries)| - |entries| + |old(behavior)| - |behavior|
    {
      var rates, rateCount := WithoutPrefix(entries, prefix);
      var memory, memoryCount := WithoutPrefix(behavior, prefix);
      ConsistentOutside(behavior, log, config, routeOf, clock, prefix);
      entries, behavior, log := rates, memory, Outside(log, prefix);
      removed := rateCount + memoryCount;
    }

    method ClearBehaviorState() returns (removed: nat)
      requires Valid()
      modifies this`behavior, this`log
      ensures Valid() && behavior == map[] && removed == |old(behavior)|
    {
      removed := |behavior|;
      behavior, log := map[], map[];
    }

    /** Makes room for one entry; which entries go is left to the iteration order of the map. */
    method EnforceCapacity() returns (evicted: set<string>)
      requires Valid()
      modifies this`behavior, this`log
      ensures Valid() && |behavior| < Capacity()
      ensures evicted <= old(behavior).Keys
      ensures |evicted| == if |old(behavior)| < Capacity() then 0 else |old(behavior)| - (Capacity() - 1)
      ensures behavior == old(behavior) - evicted && log == old(log) - evicted
    {
      evicted := {};
      if |behavior| < Capacity() {
        return;
      }
      evicted := TakeKeys(behavior.Keys, |behavior| - (Capacity() - 1));
      MinusSize(behavior, evicted);
      ConsistentWithout(behavior, log, config, routeOf, clock, evicted);
      behavior, log := behavior - evicted, log - evicted;
    }

    /** The memory after the visit `v`: the entry's log is one visit longer. */
    ghost predicate Recorded(was: Log, evicted: set<string>, key: string, v: Visit)
      reads this
    {
      && Valid()
      && key in log
      && log == (was - evicted)[key := History(was, evicted, key) + [v]]
      && clock == v.now
    }

    method Store(key: string, st: BehaviorState, ghost v: Visit)
      requires Valid() && |behavior| < Capacity() && v.now >= clock
      requires st == Apply(EntryOf(behavior, key), v, SettingsOf(key))
      modifies this`behavior, this`log, this`clock
      ensures Valid() && clock == v.now
      ensures behavior == old(behavior)[key := st]
      ensures log == old(log)[key := History(old(log), {}, key) + [v]]
    {
      ConsistentWith(behavior, log, config, routeOf, clock, key, v);
      SizeAfterUpdate(behavior, key, st);
      behavior := behavior[key := st];
      log := log[key := History(log, {}, key) + [v]];
      clock := v.now;
    }

    /**
     * The anomaly test reads the exact moments of every sample since the entry was inserted, and the
     * number of its requests within the last minute.
     */
    method EvaluateBehavior(key: string, now: nat, bodySize: nat, sqrt: real -> real)
      returns (anomaly: bool, evicted: set<string>)
      requires Valid() && now >= clock
      modifies this`behavior, this`log, this`clock
      ensures !config.enabled ==> !anomaly && behavior == old(behavior) && log == old(log) && Valid()
      ensures config.enabled ==>
        var before := History(old(log), evicted, key);
        && Recorded(old(log), evicted, key, Request(now, bodySize))
        && anomaly == Anomaly(Fold(RpsSamples(before)), Fold(BodySizes(before)),
                              |InWindow(Hits(before) + Stamp(now, [()]), now, Secs(60))| as real, bodySize as real,
                              routeOf(key).warmup, config.spike, sqrt)
      ensures config.enabled && IsSqrt(sqrt) ==>
        (anomaly <==> Anomalous(History(old(log), evicted, key), now, bodySize, routeOf(key).warmup, config.spike))
    {
      anomaly, evicted := false, {};
      if !config.enabled {
        return;
      }
      evicted := EnforceCapacity();
      var entry := EntryOf(behavior, key);
      ghost var before := History(log, {}, key);
      EntryRefines(behavior, log, config, routeOf, clock, key);
      HitsAfterRequest(before, now);

      var hits := PurgeOld(entry.hits, now, Secs(60));
      var ids := PurgeOld(entry.objectIds, now, Secs(routeOf(key).windowSecs));
      hits := hits + Stamp(now, [()]);
      var currentRps := |hits| as real;
      anomaly := Judge(entry.rps, entry.body, currentRps, now, bodySize, routeOf(key).warmup, config.spike, sqrt, before);
      var rps := Update(entry.rps, currentRps);
      var body := Update(entry.body, bodySize as real);
      Store(key, BehaviorState(rps, body, hits, ids, entry.attempts), Request(now, bodySize));
    }

    /** Fires exactly when the last `maxIds` in-window ids of the whole history hold enough distinct ones. */
    method EvaluateObjectEnumeration(key: string, now: nat, ids: seq<string>)
      returns (fires: bool, evicted: set<string>)
      requires Valid() && now >= clock
      modifies this`behavior, this`log, this`clock
      ensures ids == [] ==> !fires && behavior == old(behavior) && log == old(log) && Valid()
      ensures ids != [] ==>
        && Recorded(old(log), evicted, key, Objects(now, ids))
        && var recent := Last(InWindow(ObjectIds(log[key]), now, routeOf(key).windowSecs * 1_000_000_000), config.maxIds);
           && behavior[key].objectIds == recent
           && fires == (Distinct(recent) >= routeOf(key).threshold)
           && (routeOf(key).threshold > config.maxIds ==> !fires)
    {
      fires, evicted := false, {};
      if ids == [] {
        return;
      }
      evicted := EnforceCapacity();
      var entry := EntryOf(behavior, key);

      var queue := PurgeOld(entry.objectIds, now, Secs(routeOf(key).windowSecs));
      queue := PopFrontTo(queue + Stamp(now, ids), config.maxIds);
      fires := Distinct(queue) >= routeOf(key).threshold;
      ghost var before := History(log, {}, key);
      Store(key, entry.(objectIds := queue), Objects(now, ids));
      IdsAfterCheck(behavior, log, config, routeOf, clock, key, before, now, ids);
    }

    /** Reports spraying first, then brute force, from the in-window attempts of the whole history. */
    method EvaluateAuthAbuse(key: string, now: nat, subject: string, isAttempt: bool)
      returns (finding: AuthFinding, evicted: set<string>)
      requires Valid() && now >= clock
      modifies this`behavior, this`log, this`clock
      ensures !(config.enabled && isAttempt) ==> finding == Nothing && behavior == old(behavior) && log == old(log) && Valid()
      ensures config.enabled && isAttempt ==>
        && Recorded(old(log), evicted, key, Attempt(now, subject))
        && var recent := InWindow(Attempts(log[key]), now, config.authWindowSecs * 1_000_000_000);
           finding == if Distinct(recent) >= config.sprayThreshold then PasswordSpray(Distinct(recent))
                      else if |recent| >= config.bruteforceThreshold then BruteForce(|recent|)
                      else Nothing
    {
      finding, evicted := Nothing, {};
      if !config.enabled || !isAttempt {
        return;
      }
      evicted := EnforceCapacity();
      var entry := EntryOf(behavior, key);
      var queue := PurgeOld(entry.attempts, now, Secs(config.authWindowSecs));
      queue := queue + Stamp(now, [subject]);
      var subjects := Distinct(queue);
      if subjects >= config.sprayThreshold {
        finding := PasswordSpray(subjects);
      } else if |queue| >= config.bruteforceThreshold {
        finding := BruteForce(|queue|);
      }
      ghost var before := History(log, {}, key);
      Store(key, entry.(attempts := queue), Attempt(now, subject));
      AttemptsAfterCheck(behavior, log, config, routeOf, clock, key, before, now, subject);
    }
  }

  lemma MinusSize<V>(m: map<string, V>, gone: set<string>)
    requires gone <= m.Keys
    ensures |m - gone| == |m| - |gone|
  {
    assert (m - gone).Keys == m.Keys - gone;
    assert |m.Keys - gone| == |m.Keys| - |gone|;
  }

  lemma SizeAfterUpdate<V>(m: map<string, V>, key: string, v: V)
    ensures |m[key := v]| == if key in m then |m| else |m| + 1
  {
    assert m[key := v].Keys == m.Keys + {key};
  }
}
