/** The bounded memory of learned routes: evicting the oldest `lastSeen` is exactly LRU. */
module RouteMemory {
  import opened Text
  import opened Permutations
  import opened Recency
  import opened RouteSummary
  import Sorting

  /** Routes by method and normalised path. */
  type Routes = map<string, LearnedRoute>

  datatype Event = Event(key: string, o: Observation)

  /** What the minimum search may return, whatever the iteration order of the map. */
  ghost predicate Oldest(m: Routes, key: string) {
    key in m && forall k :: k in m ==> m[key].lastSeen <= m[k].lastSeen
  }

  ghost predicate Remembered(before: Routes, after: Routes, key: string, t: Observation, max: nat)
    requires t.Touch?
  {
    if key in before then after == before[key := Observe(before[key], t)]
    else if |before| >= max && before != map[] then
      exists victim :: Oldest(before, victim) && after == (before - {victim})[key := Insert(t)]
    else after == before[key := Insert(t)]
  }

  function Answered(before: Routes, key: string, a: Observation): Routes {
    if key in before then before[key := Observe(before[key], a)] else before
  }

  ghost predicate StepOf(before: Routes, after: Routes, e: Event, max: nat) {
    if e.o.Touch? then Remembered(before, after, e.key, e.o, max) else after == Answered(before, e.key, e.o)
  }

  /** A run from empty memory, with every choice of victim the search could make. */
  ghost predicate IsRun(states: seq<Routes>, es: seq<Event>, max: nat) {
    && |states| == |es| + 1 && states[0] == map[]
    && forall i :: 0 <= i < |es| ==> StepOf(states[i], states[i + 1], es[i], max)
  }

  function TouchedKeys(es: seq<Event>): seq<string> {
    if es == [] then []
    else if es[|es| - 1].o.Touch? then TouchedKeys(es[..|es| - 1]) + [es[|es| - 1].key]
    else TouchedKeys(es[..|es| - 1])
  }

  /** No two touches carry the same clock reading, and readings only grow. */
  ghost predicate StrictClock(es: seq<Event>) {
    forall i, j :: 0 <= i < j < |es| && es[i].o.Touch? && es[j].o.Touch? ==> es[i].o.now < es[j].o.now
  }

  function Capacity(max: nat): nat {
    if max == 0 then 1 else max
  }

  /** What happened to `key` since it last entered the `n` most recently touched keys. */
  function Residence(es: seq<Event>, key: string, n: nat): seq<Observation> {
    if es == [] then []
    else
      var before, e := es[..|es| - 1], es[|es| - 1];
      if key !in Kept(TouchedKeys(es), n) then []
      else if e.key != key then Residence(before, key, n)
      else if key in Kept(TouchedKeys(before), n) then Residence(before, key, n) + [e.o]
      else [e.o]
  }

  ghost predicate NewestFirst(m: Routes, kept: seq<string>) {
    && NoRepeats(kept) && m.Keys == Members(kept)
    && forall i, j :: 0 <= i < j < |kept| ==> m[kept[i]].lastSeen > m[kept[j]].lastSeen
  }

  /** The memory holds the `n` most recently touched keys, each the summary of its residence. */
  ghost predicate IsLru(m: Routes, es: seq<Event>, n: nat) {
    && NewestFirst(m, Kept(TouchedKeys(es), n))
    && forall key :: key in m ==>
         var log := Residence(es, key, n);
         log != [] && log[0].Touch? && m[key] == Summary(log)
  }

  /** Every touch before `now` in the memory. */
  ghost predicate SeenBefore(m: Routes, now: int) {
    forall key :: key in m ==> m[key].lastSeen < now
  }

  lemma EvictsLast(m: Routes, kept: seq<string>, victim: string)
    requires NewestFirst(m, kept) && Oldest(m, victim)
    ensures kept != [] && victim == kept[|kept| - 1]
  {
    assert victim in Members(kept);
    var i :| 0 <= i < |kept| && kept[i] == victim;
    assert kept[|kept| - 1] in Members(kept);
  }

  lemma SizeOfKept(m: Routes, kept: seq<string>)
    requires NewestFirst(m, kept)
    ensures |m| == |kept|
  {
    SetOfDistinct(kept);
    assert |m| == |m.Keys|;
  }

  lemma MissPushesFront(m: Routes, kept: seq<string>, key: string, r: LearnedRoute)
    requires NewestFirst(m, kept) && key !in m && SeenBefore(m, r.lastSeen)
    ensures NewestFirst(m[key := r], [key] + kept)
  {
    assert forall j :: 0 <= j < |kept| ==> kept[j] in Members(kept);
    assert m[key := r].Keys == Members([key] + kept);
  }

  lemma RemovedItems(kept: seq<string>, i: nat)
    requires NoRepeats(kept) && i < |kept|
    ensures var rest := kept[..i] + kept[i + 1..];
            NoRepeats(rest) && Members(rest) == Members(kept) - {kept[i]}
  {
    WithoutAt(kept, i);
    WithoutMembers(kept, kept[i]);
  }

  lemma DropAt(m: Routes, kept: seq<string>, i: nat)
    requires NewestFirst(m, kept) && i < |kept|
    ensures NewestFirst(m - {kept[i]}, kept[..i] + kept[i + 1..])
  {
    var rest := kept[..i] + kept[i + 1..];
    var less := m - {kept[i]};
    RemovedItems(kept, i);
    assert less.Keys == Members(rest);
    forall j, l | 0 <= j < l < |rest|
      ensures less[rest[j]].lastSeen > less[rest[l]].lastSeen
    {
      assert rest[j] in less && rest[l] in less;
      DropAtOrder(m, kept, i, j, l);
    }
  }

  lemma DropAtOrder(m: Routes, kept: seq<string>, i: nat, j: nat, l: nat)
    requires NewestFirst(m, kept) && i < |kept| && j < l < |kept| - 1
    ensures var rest := kept[..i] + kept[i + 1..];
      rest[j] in m && rest[l] in m && m[rest[j]].lastSeen > m[rest[l]].lastSeen
  {
    var a, b := if j < i then j else j + 1, if l < i then l else l + 1;
    var rest := kept[..i] + kept[i + 1..];
    assert rest[j] == kept[a] && rest[l] == kept[b];
    assert kept[a] in Members(kept) && kept[b] in Members(kept);
  }

  lemma HitMovesToFront(m: Routes, kept: seq<string>, key: string, r: LearnedRoute)
    requires NewestFirst(m, kept) && key in m && SeenBefore(m, r.lastSeen)
    ensures NewestFirst(m[key := r], [key] + Without(kept, key))
  {
    assert key in Members(kept);
    var i :| 0 <= i < |kept| && kept[i] == key;
    WithoutAt(kept, i);
    DropAt(m, kept, i);
    MissPushesFront(m - {key}, Without(kept, key), key, r);
    assert m[key := r] == (m - {key})[key := r];
  }

  lemma MissEvicts(before: Routes, kept: seq<string>, victim: string, key: string, t: Observation)
    requires t.Touch? && NewestFirst(before, kept) && SeenBefore(before, t.now)
    requires key !in before && Oldest(before, victim)
    ensures kept != [] && NewestFirst((before - {victim})[key := Insert(t)], [key] + kept[..|kept| - 1])
  {
    EvictsLast(before, kept, victim);
    DropAt(before, kept, |kept| - 1);
    assert kept[..|kept| - 1] + kept[|kept|..] == kept[..|kept| - 1];
    MissPushesFront(before - {victim}, kept[..|kept| - 1], key, Insert(t));
  }

  lemma MissKeepsOrder(before: Routes, after: Routes, kept: seq<string>, key: string, t: Observation, max: nat)
    requires t.Touch? && NewestFirst(before, kept) && |kept| <= Capacity(max) && SeenBefore(before, t.now)
    requires key !in before && Remembered(before, after, key, t, max)
    ensures NewestFirst(after, [key] + Take(kept, Capacity(max) - 1))
  {
    SizeOfKept(before, kept);
    if |before| >= max && before != map[] {
      var victim :| Oldest(before, victim) && after == (before - {victim})[key := Insert(t)];
      MissEvicts(before, kept, victim, key, t);
      assert Take(kept, Capacity(max) - 1) == kept[..|kept| - 1];
    } else {
      MissPushesFront(before, kept, key, Insert(t));
      assert Take(kept, Capacity(max) - 1) == kept;
    }
  }

  lemma MissKeepsOthers(before: Routes, after: Routes, key: string, t: Observation, max: nat)
    requires t.Touch? && key !in before && Remembered(before, after, key, t, max)
    ensures key in after && after[key] == Insert(t)
    ensures forall k :: k in after && k != key ==> k in before && after[k] == before[k]
  {
    if |before| >= max && before != map[] {
      var victim :| Oldest(before, victim) && after == (before - {victim})[key := Insert(t)];
    }
  }

  /** The keys after a touch are again the most recently touched ones. */
  lemma TouchKeepsOrder(before: Routes, after: Routes, h: seq<string>, key: string, t: Observation, max: nat)
    requires t.Touch? && NewestFirst(before, Kept(h, Capacity(max))) && SeenBefore(before, t.now)
    requires Remembered(before, after, key, t, max)
    ensures NewestFirst(after, Kept(h + [key], Capacity(max)))
    ensures key in after && forall k :: k in after && k != key ==> k in before && after[k] == before[k]
    ensures after[key] == if key in before then Observe(before[key], t) else Insert(t)
  {
    var kept := Kept(h, Capacity(max));
    KeptAfterTouch(h, key, Capacity(max));
    KeptIsKeys(before, kept, key);
    if key in before {
      HitMovesToFront(before, kept, key, after[key]);
    } else {
      MissKeepsOrder(before, after, kept, key, t, max);
      MissKeepsOthers(before, after, key, t, max);
    }
  }

  lemma EventsAppend(es: seq<Event>, e: Event)
    ensures TouchedKeys(es + [e]) == if e.o.Touch? then TouchedKeys(es) + [e.key] else TouchedKeys(es)
    ensures (es + [e])[..|es|] == es
  {
    assert (es + [e])[..|es|] == es;
  }

  lemma ResidenceAppend(es: seq<Event>, e: Event, key: string, n: nat)
    requires key in Kept(TouchedKeys(es + [e]), n)
    ensures Residence(es + [e], key, n) ==
            if e.key != key then Residence(es, key, n)
            else if key in Kept(TouchedKeys(es), n) then Residence(es, key, n) + [e.o]
            else [e.o]
  {
    EventsAppend(es, e);
  }

  lemma SummaryAppend(log: seq<Observation>, o: Observation)
    requires log != [] && log[0].Touch?
    ensures Summary(log + [o]) == Observe(Summary(log), o)
  {
    assert (log + [o])[..|log|] == log;
  }

  lemma KeptIsKeys(m: Routes, kept: seq<string>, key: string)
    requires NewestFirst(m, kept)
    ensures key in m <==> key in kept
  {
    assert key in Members(kept) <==> key in kept;
  }

  lemma TouchKeepsLru(before: Routes, after: Routes, es: seq<Event>, e: Event, max: nat)
    requires e.o.Touch? && IsLru(before, es, Capacity(max)) && SeenBefore(before, e.o.now)
    requires Remembered(before, after, e.key, e.o, max)
    ensures IsLru(after, es + [e], Capacity(max))
  {
    var n := Capacity(max);
    EventsAppend(es, e);
    TouchKeepsOrder(before, after, TouchedKeys(es), e.key, e.o, max);
    forall key | key in after
      ensures var log := Residence(es + [e], key, n); log != [] && log[0].Touch? && after[key] == Summary(log)
    {
      KeptIsKeys(after, Kept(TouchedKeys(es + [e]), n), key);
      KeptIsKeys(before, Kept(TouchedKeys(es), n), key);
      ResidenceAppend(es, e, key, n);
      if key == e.key && key in before {
        SummaryAppend(Residence(es, key, n), e.o);
      }
    }
  }

  lemma ResponseKeepsLru(before: Routes, es: seq<Event>, e: Event, n: nat)
    requires e.o.Response? && IsLru(before, es, n)
    ensures IsLru(Answered(before, e.key, e.o), es + [e], n)
  {
    var after := Answered(before, e.key, e.o);
    EventsAppend(es, e);
    assert after.Keys == before.Keys;
    forall key | key in after
      ensures var log := Residence(es + [e], key, n); log != [] && log[0].Touch? && after[key] == Summary(log)
    {
      KeptIsKeys(before, Kept(TouchedKeys(es), n), key);
      ResidenceAppend(es, e, key, n);
      if key == e.key {
        SummaryAppend(Residence(es, key, n), e.o);
      }
    }
  }

  ghost predicate TouchedBefore(es: seq<Event>, now: int) {
    forall i :: 0 <= i < |es| && es[i].o.Touch? ==> es[i].o.now < now
  }

  lemma StepKeepsLru(m: Routes, after: Routes, es: seq<Event>, e: Event, max: nat, seen: int, now: int)
    requires IsLru(m, es, Capacity(max)) && SeenBefore(m, seen) && StepOf(m, after, e, max)
    requires if e.o.Touch? then seen == e.o.now < now else seen == now
    ensures IsLru(after, es + [e], Capacity(max)) && SeenBefore(after, now)
  {
    if e.o.Touch? {
      TouchKeepsLru(m, after, es, e, max);
      TouchKeepsOrder(m, after, TouchedKeys(es), e.key, e.o, max);
    } else {
      ResponseKeepsLru(m, es, e, Capacity(max));
    }
  }

  lemma {:induction false} RunIsLruAndSeen(states: seq<Routes>, es: seq<Event>, max: nat, now: int)
    requires IsRun(states, es, max) && StrictClock(es) && TouchedBefore(es, now)
    ensures IsLru(states[|es|], es, Capacity(max)) && SeenBefore(states[|es|], now)
  {
    if es == [] {
      assert states[0] == map[];
    } else {
      var before, e := es[..|es| - 1], es[|es| - 1];
      var seen := if e.o.Touch? then e.o.now else now;
      RunIsLruAndSeen(states[..|es|], before, max, seen);
      assert StepOf(states[|es| - 1], states[|es|], e, max);
      StepKeepsLru(states[|es| - 1], states[|es|], before, e, max, seen, now);
      assert es == before + [e];
    }
  }

  /**
   * From empty memory and a strictly increasing clock, after any run of touches and responses the
   * keys in memory are exactly the max(1, max_learned_routes) most recently touched distinct ones,
   * and each route is the exact summary of its touches and responses since its last insertion.
   */
  lemma EvictOldestIsLru(states: seq<Routes>, es: seq<Event>, max: nat, key: string)
    requires IsRun(states, es, max) && StrictClock(es)
    ensures var m, h, n := states[|es|], TouchedKeys(es), Capacity(max);
            && (key in m <==> key in h && |Since(h, key)| < n)
            && (key in m ==> Exact(m[key], Residence(es, key, n)))
            && |m| <= n
  {
    var n := Capacity(max);
    var now := LatestTouch(es) + 1;
    RunIsLruAndSeen(states, es, max, now);
    var m, h := states[|es|], TouchedKeys(es);
    KeptIsKeys(m, Kept(h, n), key);
    KeptByReuseDistance(h, key, n);
    SizeOfKept(m, Kept(h, n));
    if key in m {
      SummaryIsExact(Residence(es, key, n));
    }
  }

  function LatestTouch(es: seq<Event>): (now: int)
    ensures TouchedBefore(es, now + 1)
  {
    if es == [] then 0
    else
      var rest := LatestTouch(es[1..]);
      if es[0].o.Touch? && es[0].o.now > rest then es[0].o.now else rest
  }

  class RouteMemory {
    var routes: Routes
    const maxLearnedRoutes: nat
    const shadowMinHits: nat
    const enabled: bool

    constructor (maxLearnedRoutes: nat, shadowMinHits: nat, enabled: bool)
      ensures routes == map[]
      ensures this.maxLearnedRoutes == maxLearnedRoutes && this.shadowMinHits == shadowMinHits && this.enabled == enabled
    {
      this.maxLearnedRoutes, this.shadowMinHits, this.enabled := maxLearnedRoutes, shadowMinHits, enabled;
      routes := map[];
    }

    method RememberRoute(key: string, now: int, hasAuth: bool, contentType: Option<string>, size: nat) returns (hits: nat)
      modifies this
      ensures Remembered(old(routes), routes, key, Touch(now, hasAuth, contentType, size), maxLearnedRoutes)
      ensures key in routes && hits == routes[key].hits
    {
      if key in routes {
        var route := routes[key];
        var types := PushUnique(route.requestTypes, contentType, MAX_TYPES);
        route := route.(lastSeen := now, hits := route.hits + 1, hasAuth := route.hasAuth || hasAuth,
                        requestTypes := types, requestBytes := Widen(route.requestBytes, size));
        routes := routes[key := route];
      } else {
        if |routes| >= maxLearnedRoutes {
          EvictOldestRoute();
        }
        var types := PushUnique([], contentType, MAX_TYPES);
        routes := routes[key := LearnedRoute(now, now, 1, hasAuth, types, [], [],
                                             Range(Some(size), Some(size)), Range(None, None), New)];
      }
      hits := routes[key].hits;
    }

    method EvictOldestRoute()
      modifies this
      ensures old(routes) == map[] ==> routes == map[]
      ensures old(routes) != map[] ==> exists victim :: Oldest(old(routes), victim) && routes == old(routes) - {victim}
    {
      if routes.Keys == {} {
        return;
      }
      var victim :| victim in routes.Keys;
      var rest := routes.Keys - {victim};
      while rest != {}
        invariant victim in routes && rest <= routes.Keys
        invariant forall k :: k in routes && k !in rest ==> routes[victim].lastSeen <= routes[k].lastSeen
      {
        var k :| k in rest;
        if routes[k].lastSeen < routes[victim].lastSeen {
          victim := k;
        }
        rest := rest - {k};
      }
      assert Oldest(routes, victim);
      routes := routes - {victim};
    }

    method ObserveRouteResponse(key: string, code: nat, contentType: Option<string>, size: nat)
      modifies this
      ensures routes == if enabled then Answered(old(routes), key, Response(code, contentType, size, shadowMinHits))
                        else old(routes)
    {
      if !enabled || key !in routes {
        return;
      }
      var route := routes[key];
      var codes := AddObservedCode(route.codes, code);
      var types := PushUnique(route.responseTypes, contentType, MAX_TYPES);
      route := route.(codes := codes, responseTypes := types, responseBytes := Widen(route.responseBytes, size));
      if route.status == New && route.hits >= shadowMinHits {
        route := route.(status := Known);
      }
      routes := routes[key := route];
    }
  }

  /** A new code is appended, the list sorted and cut to its first sixteen codes. */
  method AddObservedCode(codes: seq<nat>, code: nat) returns (r: seq<nat>)
    ensures r == AddCode(codes, code)
  {
    r := codes;
    if code !in r {
      r := SortUnstable(r + [code]);
      r := if |r| <= MAX_CODES then r else r[..MAX_CODES];
    }
  }

  /** Insertion sort stands in for the library's sort; equal numbers cannot be told apart. */
  method SortUnstable(s: seq<nat>) returns (r: seq<nat>)
    ensures r == Sort(s) && Ascending(r) && multiset(r) == multiset(s)
  {
    r := [];
    var i := |s|;
    assert s[|s|..] == [];
    while i > 0
      invariant 0 <= i <= |s| && r == Sort(s[i..])
    {
      i := i - 1;
      assert s[i..][1..] == s[i + 1..];
      r := Sorting.Insert(s[i], r, Itself, AtMost);
    }
    assert s[0..] == s;
    SortSpec(s);
  }

  method PushUnique(values: seq<string>, value: Option<string>, max: nat) returns (r: seq<string>)
    requires max > 0
    ensures r == PushUniqueBounded(values, value, max)
  {
    r := values;
    if value.None? {
      return;
    }
    var v := Trim(value.value);
    if v == [] {
      return;
    }
    var i := 0;
    while i < |values|
      invariant 0 <= i <= |values|
      invariant forall j :: 0 <= j < i ==> !EqIgnoreCase(values[j], v)
    {
      if EqIgnoreCase(values[i], v) {
        return;
      }
      i := i + 1;
    }
    if |r| >= max {
      r := r[1..];
    }
    r := r + [Lower(v)];
  }
}
