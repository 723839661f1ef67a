/** What one learned route remembers of the traffic seen since it was inserted. */
module RouteSummary {
  import opened Text
  import opened Recency
  import opened Permutations
  import SlidingQueue
  import Sorting

  const MAX_TYPES := 8
  const MAX_CODES := 16

  datatype Status = New | Known | Approved | Deprecated | Unknown

  datatype Range = Range(min: Option<nat>, max: Option<nat>)

  /** A learned route; its method and path are its key in the memory. */
  datatype LearnedRoute = LearnedRoute(
    firstSeen: int, lastSeen: int, hits: nat, hasAuth: bool,
    requestTypes: seq<string>, responseTypes: seq<string>, codes: seq<nat>,
    requestBytes: Range, responseBytes: Range, status: Status)

  datatype Observation =
    | Touch(now: int, hasAuth: bool, contentType: Option<string>, size: nat)
    | Response(code: nat, contentType: Option<string>, size: nat, shadowMinHits: nat)

  // Byte ranges

  function Widen(r: Range, value: nat): Range {
    Range(
      Some(if r.min.Some? && r.min.value < value then r.min.value else value),
      Some(if r.max.Some? && r.max.value > value then r.max.value else value))
  }

  /** The range is exactly the least and the greatest of the values. */
  ghost predicate Spans(r: Range, values: set<nat>) {
    if values == {} then r == Range(None, None)
    else
      && r.min.Some? && r.min.value in values && (forall v :: v in values ==> r.min.value <= v)
      && r.max.Some? && r.max.value in values && (forall v :: v in values ==> v <= r.max.value)
  }

  lemma WidenSpans(r: Range, values: set<nat>, value: nat)
    requires Spans(r, values)
    ensures Spans(Widen(r, value), values + {value})
  {
  }

  // Content types

  function PushUniqueBounded(values: seq<string>, value: Option<string>, max: nat): seq<string>
    requires max > 0
  {
    if value.None? || Trim(value.value) == [] then values
    else
      var v := Trim(value.value);
      if exists i :: 0 <= i < |values| && EqIgnoreCase(values[i], v) then values
      else (if |values| >= max then values[1..] else values) + [Lower(v)]
  }

  /** The content type offered, trimmed and folded to lower case, unless it is blank. */
  function Offered(value: Option<string>): seq<string> {
    if value.None? || Trim(value.value) == [] then [] else [Lower(Trim(value.value))]
  }

  /** The types inserted over a history of offers: each that was not among the last `max` inserted before it. */
  function Insertions(offers: seq<string>, max: nat): seq<string> {
    if offers == [] then []
    else
      var before, v := Insertions(offers[..|offers| - 1], max), offers[|offers| - 1];
      if v in SlidingQueue.Last(before, max) then before else before + [v]
  }

  /**
   * The list is the last `max` insertions in order, so a full list drops the one inserted first. No two
   * are equal ignoring case, each was offered, and all are listed while there are no more than `max`.
   */
  ghost predicate ListsTypes(values: seq<string>, offers: seq<string>, max: nat) {
    && values == SlidingQueue.Last(Insertions(offers, max), max)
    && (forall i, j :: 0 <= i < j < |values| ==> !EqIgnoreCase(values[i], values[j]))
    && (forall v :: v in values ==> v in offers)
    && (forall v :: v in offers ==> Lower(v) == v)
    && (|Members(offers)| <= max ==> forall v :: v in offers ==> v in values)
  }

  lemma InsertionsAppend(offers: seq<string>, v: string, max: nat)
    ensures var before := Insertions(offers, max);
      Insertions(offers + [v], max) == if v in SlidingQueue.Last(before, max) then before else before + [v]
  {
    assert (offers + [v])[..|offers|] == offers;
  }

  lemma LastAppend<T>(s: seq<T>, x: T, max: nat)
    requires max > 0
    ensures var last := SlidingQueue.Last(s, max);
      SlidingQueue.Last(s + [x], max) == (if |last| >= max then last[1..] else last) + [x]
  {
  }

  /** What a push does, in terms of the lower-case type it offers. */
  lemma PushOffers(values: seq<string>, value: Option<string>, max: nat, v: string)
    requires max > 0 && Offered(value) == [v] && forall x :: x in values ==> Lower(x) == x
    ensures Lower(v) == v
    ensures PushUniqueBounded(values, value, max) == Pushed(values, v, max)
  {
    LowerIdempotent(Trim(value.value));
    assert forall i :: 0 <= i < |values| ==> values[i] in values;
    assert (exists i :: 0 <= i < |values| && EqIgnoreCase(values[i], Trim(value.value))) <==> v in values;
  }

  lemma PushIsInsertion(values: seq<string>, offers: seq<string>, value: Option<string>, max: nat)
    requires max > 0 && values == SlidingQueue.Last(Insertions(offers, max), max)
    requires forall x :: x in values ==> Lower(x) == x
    ensures PushUniqueBounded(values, value, max) == SlidingQueue.Last(Insertions(offers + Offered(value), max), max)
  {
    if Offered(value) == [] {
      assert offers + Offered(value) == offers;
    } else {
      var v := Offered(value)[0];
      PushOffers(values, value, max, v);
      InsertionsAppend(offers, v, max);
      LastAppend(Insertions(offers, max), v, max);
    }
  }

  lemma PushKeepsTypes(values: seq<string>, offers: seq<string>, value: Option<string>, max: nat)
    requires max > 0 && ListsTypes(values, offers, max)
    ensures ListsTypes(PushUniqueBounded(values, value, max), offers + Offered(value), max)
    ensures forall v :: v in Offered(value) ==> v in PushUniqueBounded(values, value, max)
  {
    PushIsInsertion(values, offers, value, max);
    if Offered(value) == [] {
      assert offers + Offered(value) == offers;
    } else {
      var v := Offered(value)[0];
      PushOffers(values, value, max, v);
      PushedDiffer(values, v, max);
      PushLists(values, offers, v, max);
    }
  }

  function Pushed(values: seq<string>, v: string, max: nat): seq<string>
    requires max > 0
  {
    if v in values then values else (if |values| >= max then values[1..] else values) + [v]
  }

  lemma PushedDiffer(values: seq<string>, v: string, max: nat)
    requires max > 0 && Lower(v) == v && forall x :: x in values ==> Lower(x) == x
    requires forall i, j :: 0 <= i < j < |values| ==> !EqIgnoreCase(values[i], values[j])
    ensures var pushed := Pushed(values, v, max);
      forall i, j :: 0 <= i < j < |pushed| ==> !EqIgnoreCase(pushed[i], pushed[j])
  {
    assert forall i :: 0 <= i < |values| ==> values[i] in values;
  }

  lemma PushedMembers(values: seq<string>, v: string, max: nat, x: string)
    requires max > 0
    ensures x in Pushed(values, v, max) ==> x == v || x in values
    ensures v in Pushed(values, v, max)
    ensures (v in values || |values| < max) && x in values ==> x in Pushed(values, v, max)
  {
  }

  lemma PushLists(values: seq<string>, offers: seq<string>, v: string, max: nat)
    requires max > 0 && ListsTypes(values, offers, max) && Lower(v) == v
    ensures var pushed := Pushed(values, v, max);
      && (forall x :: x in pushed ==> x in offers + [v])
      && (|Members(offers + [v])| <= max ==> forall x :: x in offers + [v] ==> x in pushed)
  {
    forall x
      ensures x in Pushed(values, v, max) ==> x in offers + [v]
      ensures (v in values || |values| < max) && (x in values || x == v) ==> x in Pushed(values, v, max)
    {
      PushedMembers(values, v, max, x);
    }
    if |Members(offers + [v])| <= max {
      RoomForOffer(values, offers, v, max);
    }
  }

  lemma RoomForOffer(values: seq<string>, offers: seq<string>, v: string, max: nat)
    requires ListsTypes(values, offers, max) && |Members(offers + [v])| <= max
    ensures |Members(offers)| <= max && (v in values || |values| < max)
  {
    assert Members(offers + [v]) == Members(offers) + {v};
    SubsetSize(Members(offers), Members(offers + [v]));
    if v !in values {
      assert v !in Members(offers);
      DistinctTypesCount(values, Members(offers));
    }
  }

  lemma DistinctTypesCount(values: seq<string>, offered: set<string>)
    requires forall i, j :: 0 <= i < j < |values| ==> !EqIgnoreCase(values[i], values[j])
    requires forall v :: v in values ==> v in offered
    ensures |values| <= |offered|
  {
    assert NoRepeats(values);
    SetOfDistinct(values);
    SubsetSize(Members(values), offered);
  }

  lemma SubsetSize<T>(a: set<T>, b: set<T>)
    requires a <= b
    ensures |a| <= |b|
  {
    assert b == a + (b - a);
  }

  // Status codes

  function Itself(n: nat): nat {
    n
  }

  predicate AtMost(a: nat, b: nat) {
    a <= b
  }

  function Sort(s: seq<nat>): seq<nat> {
    Sorting.Sort(s, Itself, AtMost)
  }

  ghost predicate Ascending(s: seq<nat>) {
    forall i, j :: 0 <= i < j < |s| ==> s[i] <= s[j]
  }

  lemma SortSpec(s: seq<nat>)
    ensures Ascending(Sort(s)) && multiset(Sort(s)) == multiset(s)
  {
    Sorting.SortSorts(s, Itself, AtMost);
    Sorting.SortItems(s, Itself, AtMost);
    assert forall n: nat :: Itself(n) == n;
    assert forall i, j :: 0 <= i < j < |Sort(s)| ==> AtMost(Itself(Sort(s)[i]), Itself(Sort(s)[j]));
  }

  function AddCode(codes: seq<nat>, code: nat): seq<nat> {
    if code in codes then codes else Take(Sort(codes + [code]), MAX_CODES)
  }

  /** The list is the `n` smallest members of `all`, in ascending order. */
  ghost predicate Smallest(list: seq<nat>, all: set<nat>, n: nat) {
    && |list| <= n
    && (forall i, j :: 0 <= i < j < |list| ==> list[i] < list[j])
    && (forall x :: x in list ==> x in all)
    && (forall x :: x in all && x !in list ==> |list| == n && forall y :: y in list ==> y < x)
  }

  lemma HeadIsLeast(a: seq<nat>, all: set<nat>, n: nat)
    requires Smallest(a, all, n)
    ensures a == [] <==> all == {} || n == 0
    ensures a != [] ==> a[0] in all && forall x :: x in all ==> a[0] <= x
  {
    if a != [] {
      assert a[0] in a;
      forall x | x in all
        ensures a[0] <= x
      {
        if x in a {
          var i :| 0 <= i < |a| && a[i] == x;
        }
      }
    }
  }

  /** Only one list meets the description. */
  lemma {:induction false} SmallestIsUnique(a: seq<nat>, b: seq<nat>, all: set<nat>, n: nat)
    requires Smallest(a, all, n) && Smallest(b, all, n)
    ensures a == b
  {
    HeadIsLeast(a, all, n);
    HeadIsLeast(b, all, n);
    if a == [] {
    } else {
      SmallestTail(a, all, n);
      SmallestTail(b, all, n);
      SmallestIsUnique(a[1..], b[1..], all - {a[0]}, n - 1);
    }
  }

  lemma SmallestTail(a: seq<nat>, all: set<nat>, n: nat)
    requires a != [] && Smallest(a, all, n)
    ensures n > 0 && Smallest(a[1..], all - {a[0]}, n - 1)
  {
    assert forall y :: y in a <==> y == a[0] || y in a[1..];
  }

  /** Adding a code, even one that was dropped before, leaves the smallest codes of the larger set. */
  lemma AddCodeKeepsSmallest(codes: seq<nat>, all: set<nat>, code: nat)
    requires Smallest(codes, all, 16)
    ensures Smallest(AddCode(codes, code), all + {code}, 16)
  {
    if code !in codes {
      var sorted := Sort(codes + [code]);
      SortSpec(codes + [code]);
      assert forall y :: y in sorted <==> y in multiset(sorted);
      assert forall y :: y in codes <==> y in multiset(codes);
      assert forall y :: y in sorted <==> y in codes || y == code;
      assert |sorted| == |multiset(sorted)| == |codes| + 1;
      StrictlyAscending(sorted, codes, code);
      TakeIsSmallest(sorted, codes, all, code);
    }
  }

  lemma StrictlyAscending(sorted: seq<nat>, codes: seq<nat>, code: nat)
    requires Ascending(sorted) && multiset(sorted) == multiset(codes) + multiset{code}
    requires code !in codes && forall i, j :: 0 <= i < j < |codes| ==> codes[i] < codes[j]
    ensures forall i, j :: 0 <= i < j < |sorted| ==> sorted[i] < sorted[j]
  {
    assert code !in multiset(codes);
    forall i, j | 0 <= i < j < |sorted|
      ensures sorted[i] < sorted[j]
    {
      if sorted[i] == sorted[j] {
        OccursTwice(sorted, i, j);
        assert NoRepeats(codes);
        OccursOnce(codes, sorted[i]);
        assert false;
      }
    }
  }

  lemma TakeIsSmallest(sorted: seq<nat>, codes: seq<nat>, all: set<nat>, code: nat)
    requires Smallest(codes, all, MAX_CODES) && code !in codes
    requires forall i, j :: 0 <= i < j < |sorted| ==> sorted[i] < sorted[j]
    requires forall y :: y in sorted <==> y in codes || y == code
    requires |sorted| == |codes| + 1
    ensures Smallest(Take(sorted, MAX_CODES), all + {code}, MAX_CODES)
  {
    var list := Take(sorted, MAX_CODES);
    assert forall y :: y in list ==> y in sorted;
    if |codes| == MAX_CODES {
      var dropped := sorted[MAX_CODES];
      assert dropped in sorted;
      assert forall y :: y in list ==> y < dropped;
      assert forall y :: y in sorted ==> y in list || y == dropped;
    } else {
      assert list == sorted;
    }
  }

  // The route

  function Insert(t: Observation): LearnedRoute
    requires t.Touch?
  {
    LearnedRoute(t.now, t.now, 1, t.hasAuth, PushUniqueBounded([], t.contentType, MAX_TYPES), [], [],
                 Range(Some(t.size), Some(t.size)), Range(None, None), New)
  }

  function Observe(r: LearnedRoute, o: Observation): LearnedRoute {
    match o
    case Touch(now, hasAuth, contentType, size) =>
      r.(lastSeen := now, hits := r.hits + 1, hasAuth := r.hasAuth || hasAuth,
         requestTypes := PushUniqueBounded(r.requestTypes, contentType, MAX_TYPES),
         requestBytes := Widen(r.requestBytes, size))
    case Response(code, contentType, size, shadowMinHits) =>
      r.(codes := AddCode(r.codes, code),
         responseTypes := PushUniqueBounded(r.responseTypes, contentType, MAX_TYPES),
         responseBytes := Widen(r.responseBytes, size),
         status := if r.status == New && r.hits >= shadowMinHits then Known else r.status)
  }

  /** The route after the observations made since it was inserted, the first of which is a touch. */
  function Summary(log: seq<Observation>): LearnedRoute
    requires log != [] && log[0].Touch?
  {
    if |log| == 1 then Insert(log[0]) else Observe(Summary(log[..|log| - 1]), log[|log| - 1])
  }

  function Touches(log: seq<Observation>): seq<Observation> {
    if log == [] then []
    else if log[|log| - 1].Touch? then Touches(log[..|log| - 1]) + [log[|log| - 1]]
    else Touches(log[..|log| - 1])
  }

  function Responses(log: seq<Observation>): seq<Observation> {
    if log == [] then []
    else if log[|log| - 1].Response? then Responses(log[..|log| - 1]) + [log[|log| - 1]]
    else Responses(log[..|log| - 1])
  }

  function SizesOf(os: seq<Observation>): set<nat> {
    set i | 0 <= i < |os| :: os[i].size
  }

  function CodesOf(os: seq<Observation>): set<nat> {
    set i | 0 <= i < |os| && os[i].Response? :: os[i].code
  }

  /** The content types offered, in order. */
  function TypesOf(os: seq<Observation>): seq<string> {
    if os == [] then [] else TypesOf(os[..|os| - 1]) + Offered(os[|os| - 1].contentType)
  }

  ghost predicate SummarizesTouches(r: LearnedRoute, touches: seq<Observation>) {
    && r.hits == |touches|
    && (forall t :: t in touches ==> t.Touch?)
    && touches != [] && r.firstSeen == touches[0].now && r.lastSeen == touches[|touches| - 1].now
    && (r.hasAuth <==> exists t :: t in touches && t.hasAuth)
    && Spans(r.requestBytes, SizesOf(touches))
    && ListsTypes(r.requestTypes, TypesOf(touches), 8)
  }

  ghost predicate SummarizesResponses(r: LearnedRoute, responses: seq<Observation>) {
    && Spans(r.responseBytes, SizesOf(responses))
    && Smallest(r.codes, CodesOf(responses), 16)
    && ListsTypes(r.responseTypes, TypesOf(responses), 8)
  }

  lemma SetsAfter(os: seq<Observation>, o: Observation)
    ensures SizesOf(os + [o]) == SizesOf(os) + {o.size}
    ensures TypesOf(os + [o]) == TypesOf(os) + Offered(o.contentType)
    ensures CodesOf(os + [o]) == CodesOf(os) + if o.Response? then {o.code} else {}
  {
    var more := os + [o];
    assert more[..|os|] == os;
    assert more[|os|] == o && forall i :: 0 <= i < |os| ==> more[i] == os[i];
    assert o.size in SizesOf(more);
    assert o.Response? ==> o.code in CodesOf(more);
  }

  /** A touch leaves what is known of the responses alone, and a response what is known of the touches. */
  lemma OthersUnchanged(r: LearnedRoute, o: Observation, os: seq<Observation>)
    ensures o.Touch? && SummarizesResponses(r, os) ==> SummarizesResponses(Observe(r, o), os)
    ensures o.Response? && SummarizesTouches(r, os) ==> SummarizesTouches(Observe(r, o), os)
  {
  }

  lemma TypesAfter(values: seq<string>, os: seq<Observation>, o: Observation)
    requires ListsTypes(values, TypesOf(os), MAX_TYPES)
    ensures ListsTypes(PushUniqueBounded(values, o.contentType, MAX_TYPES), TypesOf(os + [o]), MAX_TYPES)
  {
    SetsAfter(os, o);
    PushKeepsTypes(values, TypesOf(os), o.contentType, MAX_TYPES);
  }

  lemma RangeAfter(r: Range, os: seq<Observation>, o: Observation)
    requires Spans(r, SizesOf(os))
    ensures Spans(Widen(r, o.size), SizesOf(os + [o]))
  {
    SetsAfter(os, o);
    WidenSpans(r, SizesOf(os), o.size);
  }

  lemma ObserveTouch(r: LearnedRoute, touches: seq<Observation>, t: Observation)
    requires SummarizesTouches(r, touches) && t.Touch?
    ensures SummarizesTouches(Observe(r, t), touches + [t])
  {
    assert forall o :: o in touches + [t] <==> o in touches || o == t;
    RangeAfter(r.requestBytes, touches, t);
    TypesAfter(r.requestTypes, touches, t);
  }

  lemma ObserveResponse(r: LearnedRoute, responses: seq<Observation>, a: Observation)
    requires SummarizesResponses(r, responses) && a.Response?
    ensures SummarizesResponses(Observe(r, a), responses + [a])
  {
    SetsAfter(responses, a);
    RangeAfter(r.responseBytes, responses, a);
    AddCodeKeepsSmallest(r.codes, CodesOf(responses), a.code);
    TypesAfter(r.responseTypes, responses, a);
  }

  lemma NothingObserved()
    ensures ListsTypes([], TypesOf([]), MAX_TYPES) && SizesOf([]) == {} && CodesOf([]) == {}
  {
  }

  lemma FirstTypes(values: seq<string>, os: seq<Observation>, t: Observation)
    requires values == [] && os == []
    ensures ListsTypes(PushUniqueBounded(values, t.contentType, MAX_TYPES), TypesOf(os + [t]), MAX_TYPES)
  {
    NothingObserved();
    TypesAfter(values, os, t);
  }

  lemma InsertSummarizesTouches(t: Observation)
    requires t.Touch?
    ensures SummarizesTouches(Insert(t), [t])
  {
    FirstTypes([], [], t);
    assert [] + [t] == [t];
    assert SizesOf([t]) == {t.size};
  }

  lemma InsertSummarizesResponses(t: Observation)
    requires t.Touch?
    ensures SummarizesResponses(Insert(t), [])
  {
    NothingObserved();
  }

  /** The response at position `i` came when the route had been touched often enough. */
  ghost predicate Promotes(log: seq<Observation>, i: nat) {
    i < |log| && log[i].Response? && |Touches(log[..i])| >= log[i].shadowMinHits
  }

  ghost function StatusOf(log: seq<Observation>): Status {
    if exists i :: Promotes(log, i) then Known else New
  }

  lemma StatusAfter(log: seq<Observation>, o: Observation)
    ensures StatusOf(log + [o]) ==
      if StatusOf(log) == Known || (o.Response? && |Touches(log)| >= o.shadowMinHits) then Known else New
  {
    var more := log + [o];
    assert more[..|log|] == log;
    forall i: nat | i < |log|
      ensures Promotes(more, i) <==> Promotes(log, i)
    {
      assert more[..i] == log[..i];
    }
    assert Promotes(more, |log|) <==> o.Response? && |Touches(log)| >= o.shadowMinHits;
  }

  /** Every field of the route, in terms of the touches and responses since its insertion. */
  ghost predicate Exact(r: LearnedRoute, log: seq<Observation>) {
    && SummarizesTouches(r, Touches(log))
    && SummarizesResponses(r, Responses(log))
    && r.status == StatusOf(log)
  }

  lemma PartsAppend(log: seq<Observation>, o: Observation)
    ensures Touches(log + [o]) == if o.Touch? then Touches(log) + [o] else Touches(log)
    ensures Responses(log + [o]) == if o.Response? then Responses(log) + [o] else Responses(log)
  {
    assert (log + [o])[..|log|] == log;
  }

  lemma ExactAfter(r: LearnedRoute, log: seq<Observation>, o: Observation)
    requires Exact(r, log)
    ensures Exact(Observe(r, o), log + [o])
  {
    PartsAppend(log, o);
    StatusAfter(log, o);
    if o.Touch? {
      ObserveTouch(r, Touches(log), o);
      OthersUnchanged(r, o, Responses(log));
    } else {
      ObserveResponse(r, Responses(log), o);
      OthersUnchanged(r, o, Touches(log));
    }
  }

  lemma ExactAtFirst(t: Observation)
    requires t.Touch?
    ensures Exact(Insert(t), [t])
  {
    InsertSummarizesTouches(t);
    InsertSummarizesResponses(t);
    PartsAppend([], t);
    assert [] + [t] == [t];
  }

  lemma LastOfLog(log: seq<Observation>)
    requires log != []
    ensures log == log[..|log| - 1] + [log[|log| - 1]]
  {
  }

  /** Whatever is observed, the learned route is the exact summary of it. */
  lemma {:induction false} SummaryIsExact(log: seq<Observation>)
    requires log != [] && log[0].Touch?
    ensures Exact(Summary(log), log)
    decreases |log|
  {
    if |log| == 1 {
      ExactAtFirst(log[0]);
      assert log == [log[0]];
    } else {
      SummaryIsExact(log[..|log| - 1]);
      LastOfLog(log);
      ExactAfter(Summary(log[..|log| - 1]), log[..|log| - 1], log[|log| - 1]);
    }
  }
}
