/** The fixed-window request counter, as a function of the stream of checks and clears. */
module RateWindow {
  datatype RateState = RateState(count: nat, windowStart: int)

  type Entries = map<string, RateState>

  /** What reaches the limiter: a check of one key, or an operator clearing the keys of a source. */
  datatype Event =
    | Check(key: string, limit: nat, window: nat, now: int)
    | Clear(prefix: string, now: int)

  /** Time since `start`; an earlier clock reading counts as no time at all. */
  function Elapsed(now: int, start: int): nat {
    if now < start then 0 else now - start
  }

  predicate Expired(entry: RateState, window: nat, now: int) {
    Elapsed(now, entry.windowStart) >= window
  }

  function Counted(m: Entries, key: string, window: nat, now: int): RateState {
    if key !in m || Expired(m[key], window, now) then RateState(1, now)
    else m[key].(count := m[key].count + 1)
  }

  /** The first request of a window passes whatever the limit is. */
  predicate Admits(m: Entries, key: string, limit: nat, window: nat, now: int) {
    key !in m || Expired(m[key], window, now) || m[key].count + 1 <= limit
  }

  /** The entries whose key does not start with `prefix`. */
  function Outside<V>(m: map<string, V>, prefix: string): map<string, V> {
    map k | k in m && !(prefix <= k) :: m[k]
  }

  function Step(m: Entries, e: Event): Entries {
    match e
    case Check(key, _, window, now) => m[key := Counted(m, key, window, now)]
    case Clear(prefix, _) => Outside(m, prefix)
  }

  function Run(es: seq<Event>): Entries {
    if es == [] then map[] else Step(Run(es[..|es| - 1]), es[|es| - 1])
  }

  ghost predicate Chronological(es: seq<Event>) {
    forall i, j :: 0 <= i < j < |es| ==> es[i].now <= es[j].now
  }

  /** Every check of `key` uses the same limit and window. */
  ghost predicate Fixed(es: seq<Event>, key: string, limit: nat, window: nat) {
    forall e :: e in es && e.Check? && e.key == key ==> e.limit == limit && e.window == window
  }

  predicate Within(now: int, t: int, w: nat) {
    t <= now < t + w
  }

  function Counts(m: Entries, e: Event, key: string, t: int, w: nat): nat {
    if e.Check? && e.key == key && Within(e.now, t, w) && Admits(m, key, e.limit, e.window, e.now) then 1 else 0
  }

  function Charge(e: Event, key: string, t: int, w: nat): nat {
    if e.Clear? && e.prefix <= key && Within(e.now, t, w) then 1 else 0
  }

  /** Requests for `key` admitted at a time in [t, t + w). */
  function Admitted(es: seq<Event>, key: string, t: int, w: nat): nat {
    if es == [] then 0
    else Admitted(es[..|es| - 1], key, t, w) + Counts(Run(es[..|es| - 1]), es[|es| - 1], key, t, w)
  }

  /** Clears of `key` at a time in [t, t + w). */
  function Clears(es: seq<Event>, key: string, t: int, w: nat): nat {
    if es == [] then 0 else Clears(es[..|es| - 1], key, t, w) + Charge(es[|es| - 1], key, t, w)
  }

  /** At least one request per window passes, even with limit zero. */
  function Quota(limit: nat): nat {
    if limit == 0 then 1 else limit
  }

  /**
   * What the entry of `key` says about the admissions in [t, t + w) so far. `carried` is one quota for
   * each clear of the key in the interval, `last` a clock reading not before any event of the run.
   */
  ghost predicate Budget(m: Entries, key: string, admitted: nat, carried: nat, q: nat, t: int, w: nat, last: int) {
    && admitted <= 2 * q - 1 + carried
    && (last < t ==> admitted == 0 && carried == 0)
    && (last < t + w && key !in m ==> admitted <= q - 1 + carried)
    && (key in m ==> 1 <= m[key].count && m[key].windowStart <= last)
    && (last < t + w && key in m ==>
      admitted <= carried + (if m[key].count < q then m[key].count else q)
                          + (if m[key].windowStart < t then -1 else q - 1))
  }

  lemma BudgetAfterCheck(m: Entries, key: string, e: Event, admitted: nat, carried: nat, t: int, last: int)
    requires e.Check? && e.key == key && last <= e.now
    requires Budget(m, key, admitted, carried, Quota(e.limit), t, e.window, last)
    ensures Budget(Step(m, e), key, admitted + Counts(m, e, key, t, e.window), carried, Quota(e.limit), t, e.window, e.now)
  {
  }

  lemma BudgetAfterClear(m: Entries, key: string, e: Event, admitted: nat, carried: nat, q: nat, t: int, w: nat, last: int)
    requires e.Clear? && last <= e.now && q >= 1
    requires Budget(m, key, admitted, carried, q, t, w, last)
    ensures Budget(Step(m, e), key, admitted, carried + Charge(e, key, t, w) * q, q, t, w, e.now)
  {
  }

  lemma BudgetAfterStep(m: Entries, key: string, e: Event, limit: nat, admitted: nat, carried: nat, t: int, w: nat, last: int)
    requires last <= e.now
    requires e.Check? && e.key == key ==> e.limit == limit && e.window == w
    requires Budget(m, key, admitted, carried, Quota(limit), t, w, last)
    ensures Budget(Step(m, e), key, admitted + Counts(m, e, key, t, w), carried + Charge(e, key, t, w) * Quota(limit),
                   Quota(limit), t, w, e.now)
  {
    if e.Clear? {
      BudgetAfterClear(m, key, e, admitted, carried, Quota(limit), t, w, last);
    } else if e.key == key {
      BudgetAfterCheck(m, key, e, admitted, carried, t, last);
    }
  }

  lemma CarryOver(c: nat, d: nat, q: nat)
    ensures (c + d) * q == c * q + d * q
  {
  }

  lemma BudgetAtLast(es: seq<Event>, key: string, limit: nat, window: nat, t: int, last: int, carried: nat)
    requires es != [] && last <= es[|es| - 1].now
    requires var e := es[|es| - 1]; e.Check? && e.key == key ==> e.limit == limit && e.window == window
    requires var before := es[..|es| - 1];
      Budget(Run(before), key, Admitted(before, key, t, window), carried, Quota(limit), t, window, last)
    ensures var e := es[|es| - 1];
      Budget(Run(es), key, Admitted(es, key, t, window), carried + Charge(e, key, t, window) * Quota(limit),
             Quota(limit), t, window, e.now)
  {
    var before, e := es[..|es| - 1], es[|es| - 1];
    BudgetAfterStep(Run(before), key, e, limit, Admitted(before, key, t, window), carried, t, window, last);
  }

  lemma {:induction false} BudgetHolds(es: seq<Event>, key: string, limit: nat, window: nat, t: int)
    requires Chronological(es) && Fixed(es, key, limit, window) && es != []
    ensures Budget(Run(es), key, Admitted(es, key, t, window), Clears(es, key, t, window) * Quota(limit),
                   Quota(limit), t, window, es[|es| - 1].now)
    decreases |es|
  {
    var before, e := es[..|es| - 1], es[|es| - 1];
    var q, c := Quota(limit), Clears(before, key, t, window);
    assert e in es;
    CarryOver(c, Charge(e, key, t, window), q);
    if before == [] {
      assert Run(before) == map[] && Admitted(before, key, t, window) == 0 && c == 0;
      BudgetAtLast(es, key, limit, window, t, e.now, c * q);
    } else {
      assert forall x :: x in before ==> x in es;
      BudgetHolds(before, key, limit, window, t);
      BudgetAtLast(es, key, limit, window, t, before[|before| - 1].now, c * q);
    }
  }

  /**
   * Over every run of checks and clears, no interval as long as the window, wherever it starts,
   * holds more than two quotas less one admitted requests, plus one quota for each clear inside it.
   */
  lemma SlidingBound(es: seq<Event>, key: string, limit: nat, window: nat, t: int)
    requires Chronological(es) && Fixed(es, key, limit, window)
    ensures Admitted(es, key, t, window) <= (2 + Clears(es, key, t, window)) * Quota(limit) - 1
  {
    if es != [] {
      BudgetHolds(es, key, limit, window, t);
      var q, c := Quota(limit), Clears(es, key, t, window);
      assert (2 + c) * q == 2 * q + c * q;
    }
  }

  /** The run `es` and then `n` checks of `key` at one time. */
  function Burst(es: seq<Event>, key: string, limit: nat, window: nat, now: int, n: nat): seq<Event> {
    if n == 0 then es else Burst(es, key, limit, window, now, n - 1) + [Check(key, limit, window, now)]
  }

  lemma AdmittedAppend(es: seq<Event>, e: Event, key: string, t: int, w: nat)
    ensures Run(es + [e]) == Step(Run(es), e)
    ensures Admitted(es + [e], key, t, w) == Admitted(es, key, t, w) + Counts(Run(es), e, key, t, w)
  {
    assert (es + [e])[..|es|] == es;
  }

  /** After the run the entry of `key` is `entry`, and `admitted` of its requests were admitted in [t, t + window). */
  ghost predicate Stands(es: seq<Event>, key: string, entry: RateState, t: int, window: nat, admitted: nat) {
    key in Run(es) && Run(es)[key] == entry && Admitted(es, key, t, window) == admitted
  }

  lemma OneMoreInWindow(es: seq<Event>, key: string, limit: nat, window: nat, now: int,
                        entry: RateState, t: int, admitted: nat)
    requires Stands(es, key, entry, t, window, admitted) && !Expired(entry, window, now)
    requires Within(now, t, window) && entry.count + 1 <= limit
    ensures Stands(es + [Check(key, limit, window, now)], key, entry.(count := entry.count + 1), t, window, admitted + 1)
  {
    AdmittedAppend(es, Check(key, limit, window, now), key, t, window);
  }

  lemma {:induction false} BurstInWindow(es: seq<Event>, key: string, limit: nat, window: nat, now: int, n: nat,
                                         entry: RateState, t: int, admitted: nat)
    requires Stands(es, key, entry, t, window, admitted) && !Expired(entry, window, now)
    requires Within(now, t, window) && (n == 0 || entry.count + n <= limit)
    ensures Stands(Burst(es, key, limit, window, now, n), key, entry.(count := entry.count + n), t, window, admitted + n)
  {
    if n == 0 {
    } else {
      BurstInWindow(es, key, limit, window, now, n - 1, entry, t, admitted);
      OneMoreInWindow(Burst(es, key, limit, window, now, n - 1), key, limit, window, now,
                      entry.(count := entry.count + n - 1), t, admitted + n - 1);
    }
  }

  lemma NextWindow(es: seq<Event>, key: string, limit: nat, window: nat, now: int, t: int)
    requires key !in Run(es) || Expired(Run(es)[key], window, now)
    ensures Stands(es + [Check(key, limit, window, now)], key, RateState(1, now), t, window,
                   Admitted(es, key, t, window) + if Within(now, t, window) then 1 else 0)
  {
    AdmittedAppend(es, Check(key, limit, window, now), key, t, window);
  }

  /** One request at time 0 and the rest of that window's quota at its end. */
  function TightStart(key: string, limit: nat, window: nat): seq<Event>
    requires window > 0
  {
    Burst([] + [Check(key, limit, window, 0)], key, limit, window, window - 1, Quota(limit) - 1)
  }

  /** A full quota right after the first window. */
  function TightRun(key: string, limit: nat, window: nat): seq<Event>
    requires window > 0
  {
    Burst(TightStart(key, limit, window) + [Check(key, limit, window, window)], key, limit, window, window, Quota(limit) - 1)
  }

  lemma TightStartAdmits(key: string, limit: nat, window: nat)
    requires window >= 2
    ensures Stands(TightStart(key, limit, window), key, RateState(Quota(limit), 0), 1, window, Quota(limit) - 1)
  {
    NextWindow([], key, limit, window, 0, 1);
    BurstInWindow([] + [Check(key, limit, window, 0)], key, limit, window, window - 1, Quota(limit) - 1, RateState(1, 0), 1, 0);
  }

  lemma TightRunAdmits(key: string, limit: nat, window: nat)
    requires window >= 2
    ensures Stands(TightRun(key, limit, window), key, RateState(Quota(limit), window), 1, window, 2 * Quota(limit) - 1)
  {
    var q, start := Quota(limit), TightStart(key, limit, window);
    TightStartAdmits(key, limit, window);
    NextWindow(start, key, limit, window, window, 1);
    BurstInWindow(start + [Check(key, limit, window, window)], key, limit, window, window, q - 1, RateState(1, window), 1, q);
  }

  /** A chronological run of checks of one key with one limit, ending at time `last`. */
  ghost predicate Checks(es: seq<Event>, key: string, limit: nat, window: nat, last: int) {
    && (forall i, j :: 0 <= i < j < |es| ==> es[i].now <= es[j].now)
    && (forall i :: 0 <= i < |es| ==> es[i].now <= last && es[i] == Check(key, limit, window, es[i].now))
  }

  lemma {:induction false} BurstChecks(es: seq<Event>, key: string, limit: nat, window: nat, last: int, now: int, n: nat)
    requires Checks(es, key, limit, window, last) && last <= now
    ensures Checks(Burst(es, key, limit, window, now, n), key, limit, window, now)
  {
    if n == 0 {
    } else {
      BurstChecks(es, key, limit, window, last, now, n - 1);
    }
  }

  lemma TightRunChecks(key: string, limit: nat, window: nat)
    requires window > 0
    ensures Checks(TightRun(key, limit, window), key, limit, window, window)
  {
    var start := TightStart(key, limit, window);
    BurstChecks([] + [Check(key, limit, window, 0)], key, limit, window, 0, window - 1, Quota(limit) - 1);
    assert Checks(start, key, limit, window, window - 1);
    BurstChecks(start + [Check(key, limit, window, window)], key, limit, window, window, window, Quota(limit) - 1);
  }

  lemma ChecksAreFixed(es: seq<Event>, key: string, limit: nat, window: nat, last: int)
    requires Checks(es, key, limit, window, last)
    ensures Chronological(es) && Fixed(es, key, limit, window) && forall e :: e in es ==> e.Check?
  {
  }

  lemma TightRunAttains(key: string, limit: nat, window: nat)
    requires window >= 2
    ensures var es := TightRun(key, limit, window);
      && Chronological(es) && Fixed(es, key, limit, window)
      && Admitted(es, key, 1, window) == 2 * Quota(limit) - 1 && Clears(es, key, 1, window) == 0
  {
    var es := TightRun(key, limit, window);
    TightRunAdmits(key, limit, window);
    TightRunChecks(key, limit, window);
    ChecksAreFixed(es, key, limit, window, window);
    NoClears(es, key, 1, window);
  }

  /** The bound is reached for every limit and every window of at least two clock ticks. */
  lemma SlidingBoundIsTight(key: string, limit: nat, window: nat)
    requires window >= 2
    ensures exists es: seq<Event>, t: int :: Chronological(es) && Fixed(es, key, limit, window)
              && Admitted(es, key, t, window) == (2 + Clears(es, key, t, window)) * Quota(limit) - 1
  {
    var es := TightRun(key, limit, window);
    TightRunAttains(key, limit, window);
    var q, c := Quota(limit), Clears(es, key, 1, window);
    assert (2 + c) * q == 2 * q;
  }

  lemma {:induction false} NoClears(es: seq<Event>, key: string, t: int, w: nat)
    requires forall e :: e in es ==> e.Check?
    ensures Clears(es, key, t, w) == 0
  {
    if es == [] {
    } else {
      assert es[|es| - 1] in es;
      assert forall x :: x in es[..|es| - 1] ==> x in es;
      NoClears(es[..|es| - 1], key, t, w);
    }
  }

  function Min(a: nat, b: nat): nat {
    if a <= b then a else b
  }

  /** One step keeps the entry, opens a window with an admitted request, or counts one more in the window. */
  lemma StepUses(m: Entries, e: Event, key: string, limit: nat, window: nat)
    requires e.Check? && e.key == key ==> e.limit == limit && e.window == window
    requires key in m ==> m[key].windowStart <= e.now
    requires window > 0 && key in Step(m, e)
    ensures var now := Step(m, e)[key];
      || (key in m && now == m[key])
      || (now == RateState(1, e.now) && Counts(m, e, key, e.now, window) == 1)
      || (key in m && now == m[key].(count := m[key].count + 1)
          && (now.count <= limit ==> Counts(m, e, key, now.windowStart, window) == 1))
  {
  }

  /** The entry counts no more than the requests admitted since its window started, up to the quota. */
  ghost predicate Used(es: seq<Event>, key: string, limit: nat, window: nat) {
    key in Run(es) ==>
      var entry := Run(es)[key];
      && es != [] && entry.count >= 1 && entry.windowStart <= es[|es| - 1].now
      && Admitted(es, key, entry.windowStart, window) >= Min(entry.count, Quota(limit))
  }

  lemma UsedAfterStep(es: seq<Event>, key: string, limit: nat, window: nat)
    requires es != [] && Used(es[..|es| - 1], key, limit, window) && window > 0
    requires var e := es[|es| - 1]; e.Check? && e.key == key ==> e.limit == limit && e.window == window
    requires |es| > 1 ==> es[|es| - 2].now <= es[|es| - 1].now
    ensures Used(es, key, limit, window)
  {
    var before, e := es[..|es| - 1], es[|es| - 1];
    if key in Run(es) {
      StepUses(Run(before), e, key, limit, window);
    }
  }

  lemma {:induction false} WindowIsUsed(es: seq<Event>, key: string, limit: nat, window: nat)
    requires Chronological(es) && Fixed(es, key, limit, window) && window > 0
    ensures Used(es, key, limit, window)
  {
    if es == [] {
    } else {
      var before := es[..|es| - 1];
      assert es[|es| - 1] in es;
      assert forall x :: x in before ==> x in es;
      WindowIsUsed(before, key, limit, window);
      UsedAfterStep(es, key, limit, window);
    }
  }

  /** A request is refused only when some interval of one window's length that contains it has used up the quota. */
  lemma RefusedOnlyAtQuota(es: seq<Event>, key: string, limit: nat, window: nat, now: int)
    requires Chronological(es + [Check(key, limit, window, now)]) && Fixed(es, key, limit, window)
    requires !Admits(Run(es), key, limit, window, now)
    ensures exists t :: Within(now, t, window) && Admitted(es, key, t, window) >= Quota(limit)
  {
    var all := es + [Check(key, limit, window, now)];
    assert all[..|es|] == es && all[|es|].now == now;
    assert Chronological(es) by {
      assert forall i :: 0 <= i < |es| ==> all[i] == es[i];
    }
    WindowIsUsed(es, key, limit, window);
    assert all[|es| - 1] == es[|es| - 1];
    var start := Run(es)[key].windowStart;
    assert Within(now, start, window) && Admitted(es, key, start, window) >= Quota(limit);
  }
}
