/** Queues of time-stamped items, purged of stale items at the front and capped in length. */
module SlidingQueue {
  import opened RateWindow

  type Stamped<T> = (int, T)

  predicate Stale<T>(item: Stamped<T>, now: int, ttl: nat) {
    Elapsed(now, item.0) > ttl
  }

  /** What the purge loop leaves: stale items are dropped from the front until a fresh one shows. */
  function Purge<T>(q: seq<Stamped<T>>, now: int, ttl: nat): seq<Stamped<T>> {
    if q != [] && Stale(q[0], now, ttl) then Purge(q[1..], now, ttl) else q
  }

  /** The items of a history that are still fresh. */
  function InWindow<T>(h: seq<Stamped<T>>, now: int, ttl: nat): seq<Stamped<T>> {
    if h == [] then []
    else InWindow(h[..|h| - 1], now, ttl) + if Stale(h[|h| - 1], now, ttl) then [] else [h[|h| - 1]]
  }

  /** An item stays in the window as long as its age does not exceed the window's length. */
  lemma InWindowExactly<T>(h: seq<Stamped<T>>, t: int, x: T, now: int, ttl: nat)
    requires t <= now
    ensures InWindow<T>([], now, ttl) == []
    ensures InWindow(h + [(t, x)], now, ttl) == if now - t <= ttl then InWindow(h, now, ttl) + [(t, x)] else InWindow(h, now, ttl)
  {
    assert (h + [(t, x)])[..|h|] == h;
  }

  function Last<T>(s: seq<T>, n: nat): seq<T> {
    if |s| <= n then s else s[|s| - n..]
  }

  function Stamp<T>(now: int, items: seq<T>): seq<Stamped<T>> {
    seq(|items|, i requires 0 <= i < |items| => (now, items[i]))
  }

  ghost predicate Ordered<T>(h: seq<Stamped<T>>) {
    forall i, j :: 0 <= i < j < |h| ==> h[i].0 <= h[j].0
  }

  /** Everything before position `cut` is stale and everything from there on is fresh. */
  ghost predicate IsCut<T>(h: seq<Stamped<T>>, now: int, ttl: nat, cut: nat) {
    cut <= |h| && forall i :: 0 <= i < |h| ==> (Stale(h[i], now, ttl) <==> i < cut)
  }

  lemma {:induction false} CutExists<T>(h: seq<Stamped<T>>, now: int, ttl: nat) returns (cut: nat)
    requires Ordered(h)
    ensures IsCut(h, now, ttl, cut)
  {
    cut := |h|;
    while cut > 0 && !Stale(h[cut - 1], now, ttl)
      invariant 0 <= cut <= |h|
      invariant forall i :: cut <= i < |h| ==> !Stale(h[i], now, ttl)
    {
      cut := cut - 1;
    }
  }

  lemma {:induction false} PurgeAtCut<T>(h: seq<Stamped<T>>, now: int, ttl: nat, cut: nat)
    requires IsCut(h, now, ttl, cut)
    ensures Purge(h, now, ttl) == h[cut..]
  {
    if h != [] && Stale(h[0], now, ttl) {
      PurgeAtCut(h[1..], now, ttl, cut - 1);
      assert h[1..][cut - 1..] == h[cut..];
    }
  }

  lemma {:induction false} InWindowAtCut<T>(h: seq<Stamped<T>>, now: int, ttl: nat, cut: nat)
    requires IsCut(h, now, ttl, cut)
    ensures InWindow(h, now, ttl) == h[cut..]
  {
    if h == [] {
    } else {
      var shorter := h[..|h| - 1];
      InWindowAtCut(shorter, now, ttl, if cut == |h| then cut - 1 else cut);
      if cut < |h| {
        assert h[cut..] == shorter[cut..] + [h[|h| - 1]];
      }
    }
  }

  function LastFrom<T>(s: seq<T>, from: nat, n: nat): nat
    requires from <= |s|
  {
    if |s| - from <= n then from else |s| - n
  }

  lemma LastFromIsLast<T>(s: seq<T>, from: nat, n: nat)
    requires from <= |s|
    ensures Last(s[from..], n) == s[LastFrom(s, from, n)..]
  {
  }

  lemma CutOfSuffix<T>(h: seq<Stamped<T>>, now: int, ttl: nat, cut: nat, start: nat)
    requires IsCut(h, now, ttl, cut) && start <= |h|
    ensures IsCut(h[start..], now, ttl, if cut <= start then 0 else cut - start)
    ensures var c := if cut <= start then 0 else cut - start;
            h[start..][c..] == h[if cut <= start then start else cut..]
  {
    assert forall i :: 0 <= i < |h[start..]| ==> h[start..][i] == h[start + i];
  }

  /**
   * Purging the capped queue of an older moment gives the capped queue of the new moment: the items
   * lost to the cap would have gone before any that the purge removes.
   */
  lemma PurgeOfCapped<T>(h: seq<Stamped<T>>, before: int, now: int, ttl: nat, cap: nat)
    requires Ordered(h) && before <= now
    ensures Purge(Last(InWindow(h, before, ttl), cap), now, ttl) == Last(InWindow(h, now, ttl), cap)
  {
    var oldCut := CutExists(h, before, ttl);
    var cut := CutExists(h, now, ttl);
    InWindowAtCut(h, before, ttl, oldCut);
    InWindowAtCut(h, now, ttl, cut);
    if oldCut > cut {
      assert Stale(h[cut], before, ttl) && Stale(h[cut], now, ttl);
    }
    var start := LastFrom(h, oldCut, cap);
    CutOfSuffix(h, now, ttl, cut, start);
    PurgeAtCut(h[start..], now, ttl, if cut <= start then 0 else cut - start);
    LastFromIsLast(h, oldCut, cap);
    LastFromIsLast(h, cut, cap);
  }

  lemma InWindowAppendFresh<T>(h: seq<Stamped<T>>, now: int, ttl: nat, item: T)
    ensures InWindow(h + [(now, item)], now, ttl) == InWindow(h, now, ttl) + [(now, item)]
  {
    assert (h + [(now, item)])[..|h|] == h;
  }

  lemma StampLast<T>(now: int, items: seq<T>)
    requires items != []
    ensures Stamp(now, items) == Stamp(now, items[..|items| - 1]) + [(now, items[|items| - 1])]
  {
  }

  lemma {:induction false} InWindowOfFresh<T>(h: seq<Stamped<T>>, now: int, ttl: nat, items: seq<T>)
    ensures InWindow(h + Stamp(now, items), now, ttl) == InWindow(h, now, ttl) + Stamp(now, items)
  {
    if items == [] {
      assert h + Stamp(now, items) == h;
      assert InWindow(h, now, ttl) + Stamp(now, items) == InWindow(h, now, ttl);
    } else {
      var before, last := Stamp(now, items[..|items| - 1]), items[|items| - 1];
      InWindowOfFresh(h, now, ttl, items[..|items| - 1]);
      StampLast(now, items);
      InWindowAppendFresh(h + before, now, ttl, last);
      assert h + Stamp(now, items) == (h + before) + [(now, last)];
    }
  }

  lemma LastOfAppend<T>(s: seq<T>, t: seq<T>, n: nat)
    ensures Last(Last(s, n) + t, n) == Last(s + t, n)
  {
  }

  /** Purge, append, cap: the queue stays the last `cap` in-window items of the longer history. */
  lemma PurgeAppendCap<T>(h: seq<Stamped<T>>, before: int, now: int, ttl: nat, cap: nat, items: seq<T>)
    requires Ordered(h) && before <= now
    ensures Last(Purge(Last(InWindow(h, before, ttl), cap), now, ttl) + Stamp(now, items), cap)
         == Last(InWindow(h + Stamp(now, items), now, ttl), cap)
  {
    PurgeOfCapped(h, before, now, ttl, cap);
    InWindowOfFresh(h, now, ttl, items);
    LastOfAppend(InWindow(h, now, ttl), Stamp(now, items), cap);
  }

  lemma {:induction false} InWindowLength<T>(h: seq<Stamped<T>>, now: int, ttl: nat)
    ensures |InWindow(h, now, ttl)| <= |h|
  {
    if h == [] {
    } else {
      InWindowLength(h[..|h| - 1], now, ttl);
    }
  }

  /** The same for a queue without a cap. */
  lemma PurgeUncapped<T>(h: seq<Stamped<T>>, before: int, now: int, ttl: nat)
    requires Ordered(h) && before <= now
    ensures Purge(InWindow(h, before, ttl), now, ttl) == InWindow(h, now, ttl)
  {
    InWindowLength(h, before, ttl);
    InWindowLength(h, now, ttl);
    PurgeOfCapped(h, before, now, ttl, |h|);
  }

  function Distinct<T(==)>(q: seq<Stamped<T>>): nat {
    |set i | 0 <= i < |q| :: q[i].1|
  }

  lemma {:induction false} DistinctAtMostLength<T>(q: seq<Stamped<T>>)
    ensures Distinct(q) <= |q|
  {
    if q == [] {
    } else {
      DistinctAtMostLength(q[1..]);
      var ids, rest := set i | 0 <= i < |q| :: q[i].1, set i | 0 <= i < |q[1..]| :: q[1..][i].1;
      assert ids == rest + {q[0].1} by {
        assert forall i :: 1 <= i < |q| ==> q[i] == q[1..][i - 1];
      }
    }
  }

  method PurgeOld<T>(q: seq<Stamped<T>>, now: int, ttl: nat) returns (kept: seq<Stamped<T>>)
    ensures kept == Purge(q, now, ttl)
  {
    kept := q;
    while kept != [] && Stale(kept[0], now, ttl)
      invariant Purge(kept, now, ttl) == Purge(q, now, ttl)
    {
      kept := kept[1..];
    }
  }

  method PopFrontTo<T>(q: seq<T>, cap: nat) returns (kept: seq<T>)
    ensures kept == Last(q, cap)
  {
    kept := q;
    while |kept| > cap
      invariant |kept| <= |q| && kept == q[|q| - |kept|..]
      invariant |kept| < |q| ==> |kept| >= cap
    {
      kept := kept[1..];
    }
  }
}
