/** Sorting rows by a string key, keeping rows with equal keys in their order. */
module StableSort {
  import opened Text
  import Sorting

  /** Lexicographic order by code point. */
  predicate Leq(a: string, b: string) {
    a == "" || (b != "" && (a[0] < b[0] || (a[0] == b[0] && Leq(a[1..], b[1..]))))
  }

  lemma {:induction false} LeqTotal(a: string, b: string)
    ensures Leq(a, b) || Leq(b, a)
    ensures Leq(a, b) && Leq(b, a) ==> a == b
  {
    if a != "" && b != "" && a[0] == b[0] {
      LeqTotal(a[1..], b[1..]);
      assert a == [a[0]] + a[1..] && b == [b[0]] + b[1..];
    }
  }

  lemma {:induction false} LeqTransitive(a: string, b: string, c: string)
    requires Leq(a, b) && Leq(b, c)
    ensures Leq(a, c)
  {
    if a != "" && a[0] == b[0] == c[0] {
      LeqTransitive(a[1..], b[1..], c[1..]);
    }
  }

  /** The first difference of two texts is at `i`. */
  ghost predicate DifferAt(a: string, b: string, i: nat) {
    i < |a| && i < |b| && a[..i] == b[..i] && a[i] != b[i]
  }

  lemma DifferInTail(a: string, b: string, i: nat)
    requires a != "" && b != "" && a[0] == b[0]
    ensures DifferAt(a[1..], b[1..], i) <==> DifferAt(a, b, i + 1)
  {
    if i < |a| - 1 && i < |b| - 1 {
      assert a[..i + 1] == [a[0]] + a[1..][..i] && b[..i + 1] == [b[0]] + b[1..][..i];
      assert a[1..][..i] == a[..i + 1][1..] && b[1..][..i] == b[..i + 1][1..];
    }
  }

  /** A text comes before its extensions, and otherwise the first difference decides. */
  lemma {:induction false} LeqExactly(a: string, b: string)
    ensures Leq(a, b) <==> a <= b || exists i: nat :: DifferAt(a, b, i) && a[i] < b[i]
  {
    if a == "" || b == "" {
    } else if a[0] != b[0] {
      assert DifferAt(a, b, 0);
    } else {
      LeqExactly(a[1..], b[1..]);
      assert a <= b <==> a[1..] <= b[1..];
      forall i: nat
        ensures DifferAt(a[1..], b[1..], i) <==> DifferAt(a, b, i + 1)
      {
        DifferInTail(a, b, i);
      }
      if i: nat :| DifferAt(a, b, i) && a[i] < b[i] {
        assert DifferAt(a, b, (i - 1) + 1);
      }
    }
  }

  lemma LeqIsTotalOrder()
    ensures Sorting.TotalOrder(Leq)
  {
    forall a, b
      ensures Leq(a, b) || Leq(b, a)
    {
      LeqTotal(a, b);
    }
    forall a, b, c | Leq(a, b) && Leq(b, c)
      ensures Leq(a, c)
    {
      LeqTransitive(a, b, c);
    }
  }

  function Sort<T>(s: seq<T>, key: T -> string): seq<T> {
    Sorting.Sort(s, key, Leq)
  }

  /** The rows with key `k`, in their order. */
  function WithKey<T>(s: seq<T>, key: T -> string, k: string): seq<T> {
    if s == [] then []
    else if key(s[0]) == k then [s[0]] + WithKey(s[1..], key, k)
    else WithKey(s[1..], key, k)
  }

  ghost predicate Sorted<T>(s: seq<T>, key: T -> string) {
    Sorting.Sorted(s, key, Leq)
  }

  lemma SortSpec<T>(s: seq<T>, key: T -> string)
    ensures Sorted(Sort(s, key), key)
  {
    LeqIsTotalOrder();
    Sorting.SortSorts(s, key, Leq);
  }

  lemma {:induction false} InsertIsStable<T>(x: T, s: seq<T>, key: T -> string, k: string)
    ensures WithKey(Sorting.Insert(x, s, key, Leq), key, k) == if key(x) == k then [x] + WithKey(s, key, k) else WithKey(s, key, k)
  {
    if s != [] && !Leq(key(x), key(s[0])) {
      InsertIsStable(x, s[1..], key, k);
      LeqTotal(key(x), key(x));
    }
  }

  lemma {:induction false} SortIsStable<T>(s: seq<T>, key: T -> string, k: string)
    ensures WithKey(Sort(s, key), key, k) == WithKey(s, key, k)
  {
    if s == [] {
    } else {
      SortIsStable(s[1..], key, k);
      InsertIsStable(s[0], Sort(s[1..], key), key, k);
    }
  }

  lemma {:induction false} WithKeyMember<T>(s: seq<T>, key: T -> string, k: string, x: T)
    ensures x in WithKey(s, key, k) <==> x in s && key(x) == k
  {
    if s == [] {
    } else {
      WithKeyMember(s[1..], key, k, x);
    }
  }

  ghost predicate SameRows<T>(a: seq<T>, b: seq<T>, key: T -> string) {
    forall k :: WithKey(a, key, k) == WithKey(b, key, k)
  }

  lemma HeadsAgree<T>(a: seq<T>, b: seq<T>, key: T -> string)
    requires Sorted(a, key) && Sorted(b, key) && SameRows(a, b, key) && a != []
    ensures b != [] && a[0] == b[0]
  {
    var k := key(a[0]);
    assert WithKey(a, key, k) == WithKey(b, key, k);
    WithKeyMember(b, key, k, a[0]);
    assert WithKey(a, key, k)[0] == a[0];
    assert a[0] in b;
    var l := key(b[0]);
    assert WithKey(a, key, l) == WithKey(b, key, l);
    WithKeyMember(a, key, l, b[0]);
    assert WithKey(b, key, l)[0] == b[0];
    assert b[0] in a;
    FirstIsLeast(a, key, b[0]);
    FirstIsLeast(b, key, a[0]);
    LeqTotal(k, l);
  }

  lemma FirstIsLeast<T>(s: seq<T>, key: T -> string, x: T)
    requires Sorted(s, key) && x in s
    ensures Leq(key(s[0]), key(x))
  {
    LeqTotal(key(x), key(x));
    var i :| 0 <= i < |s| && s[i] == x;
  }

  lemma SameTail<T>(x: T, a: seq<T>, b: seq<T>)
    ensures [x] + a == [x] + b ==> a == b
  {
    assert ([x] + a)[1..] == a && ([x] + b)[1..] == b;
  }

  /** A sorted list is determined by the order of its rows with each key. */
  lemma {:induction false} SortedIsUnique<T>(a: seq<T>, b: seq<T>, key: T -> string)
    requires Sorted(a, key) && Sorted(b, key) && SameRows(a, b, key)
    ensures a == b
  {
    if a == [] {
      if b != [] {
        HeadsAgree(b, a, key);
        assert false;
      }
    } else {
      HeadsAgree(a, b, key);
      forall k
        ensures WithKey(a[1..], key, k) == WithKey(b[1..], key, k)
      {
        assert WithKey(a, key, k) == WithKey(b, key, k);
        assert WithKey(a, key, k) == if key(a[0]) == k then [a[0]] + WithKey(a[1..], key, k) else WithKey(a[1..], key, k);
        assert WithKey(b, key, k) == if key(a[0]) == k then [a[0]] + WithKey(b[1..], key, k) else WithKey(b[1..], key, k);
        SameTail(a[0], WithKey(a[1..], key, k), WithKey(b[1..], key, k));
      }
      SortedIsUnique(a[1..], b[1..], key);
    }
  }

  /** Two lists sort alike exactly when, for every key, they have the same rows in the same order. */
  lemma SortAgrees<T>(a: seq<T>, b: seq<T>, key: T -> string)
    ensures Sort(a, key) == Sort(b, key) <==> SameRows(a, b, key)
  {
    SortSpec(a, key);
    SortSpec(b, key);
    forall k
      ensures WithKey(Sort(a, key), key, k) == WithKey(a, key, k)
      ensures WithKey(Sort(b, key), key, k) == WithKey(b, key, k)
    {
      SortIsStable(a, key, k);
      SortIsStable(b, key, k);
    }
    if SameRows(a, b, key) {
      SortedIsUnique(Sort(a, key), Sort(b, key), key);
    }
    if Sort(a, key) == Sort(b, key) {
      forall k
        ensures WithKey(a, key, k) == WithKey(b, key, k)
      {
      }
    }
  }

  ghost predicate DistinctKeys<T>(s: seq<T>, key: T -> string) {
    forall i, j :: 0 <= i < j < |s| ==> key(s[i]) != key(s[j])
  }

  lemma {:induction false} WithDistinctKey<T>(s: seq<T>, key: T -> string, x: T)
    requires DistinctKeys(s, key) && x in s
    ensures WithKey(s, key, key(x)) == [x]
  {
    if s[0] == x {
      var rest := WithKey(s[1..], key, key(x));
      if rest != [] {
        WithKeyMember(s[1..], key, key(x), rest[0]);
        assert false;
      }
    } else {
      assert x in s[1..];
      var i :| 0 <= i < |s[1..]| && s[1..][i] == x;
      assert key(s[0]) != key(s[i + 1]);
      WithDistinctKey(s[1..], key, x);
    }
  }

  lemma DistinctRow<T>(a: seq<T>, b: seq<T>, key: T -> string, k: string)
    requires DistinctKeys(a, key) && DistinctKeys(b, key) && forall x :: x in a <==> x in b
    ensures WithKey(a, key, k) != [] ==> WithKey(a, key, k) == WithKey(b, key, k)
  {
    var rows := WithKey(a, key, k);
    if rows != [] {
      var x := rows[0];
      WithKeyMember(a, key, k, x);
      assert x in rows && x in a && key(x) == k;
      WithDistinctKey(a, key, x);
      WithDistinctKey(b, key, x);
    }
  }

  /** With pairwise distinct keys the order of the list does not matter. */
  lemma DistinctKeysSortAlike<T>(a: seq<T>, b: seq<T>, key: T -> string)
    requires DistinctKeys(a, key) && DistinctKeys(b, key) && forall x :: x in a <==> x in b
    ensures Sort(a, key) == Sort(b, key)
  {
    forall k
      ensures WithKey(a, key, k) == WithKey(b, key, k)
    {
      DistinctRow(a, b, key, k);
      DistinctRow(b, a, key, k);
    }
    SortAgrees(a, b, key);
  }

  lemma {:induction false} SameRowsSameMembers<T>(a: seq<T>, b: seq<T>, key: T -> string)
    requires SameRows(a, b, key)
    ensures forall x :: x in a <==> x in b
  {
    forall x
      ensures x in a <==> x in b
    {
      WithKeyMember(a, key, key(x), x);
      WithKeyMember(b, key, key(x), x);
      assert WithKey(a, key, key(x)) == WithKey(b, key, key(x));
    }
  }

  // Editing a list by key

  /** Replaces the first row with the same key, or adds the row at the end. */
  function Upsert<T>(s: seq<T>, x: T, key: T -> string): seq<T> {
    if s == [] then [x]
    else if key(s[0]) == key(x) then [x] + s[1..]
    else [s[0]] + Upsert(s[1..], x, key)
  }

  lemma {:induction false} UpsertRows<T>(s: seq<T>, x: T, key: T -> string, k: string)
    ensures WithKey(Upsert(s, x, key), key, k) ==
      if k != key(x) then WithKey(s, key, k)
      else if WithKey(s, key, k) == [] then [x] else [x] + WithKey(s, key, k)[1..]
  {
    if s == [] {
    } else {
      if key(s[0]) != key(x) {
        UpsertRows(s[1..], x, key, k);
      } else {
        assert ([x] + s[1..])[1..] == s[1..];
      }
    }
  }

  lemma {:induction false} UpsertSplits<T>(before: seq<T>, after: seq<T>, x: T, key: T -> string)
    requires forall y :: y in before ==> key(y) != key(x)
    ensures Upsert(before + after, x, key) == before + Upsert(after, x, key)
  {
    if before == [] {
      assert before + after == after;
    } else {
      assert (before + after)[1..] == before[1..] + after;
      UpsertSplits(before[1..], after, x, key);
    }
  }

  method UpsertRow<T>(s: seq<T>, x: T, key: T -> string) returns (r: seq<T>)
    ensures r == Upsert(s, x, key)
  {
    var i := 0;
    while i < |s| && key(s[i]) != key(x)
      invariant i <= |s|
      invariant forall j :: 0 <= j < i ==> key(s[j]) != key(x)
    {
      i := i + 1;
    }
    UpsertSplits(s[..i], s[i..], x, key);
    assert s == s[..i] + s[i..];
    if i < |s| {
      assert s[i..][1..] == s[i + 1..];
      r := s[i := x];
      assert r == s[..i] + ([x] + s[i + 1..]);
    } else {
      r := s + [x];
    }
  }

  // Searching a list for its first match

  function First<T>(s: seq<T>, pred: T -> bool): Option<T> {
    if s == [] then None else if pred(s[0]) then Some(s[0]) else First(s[1..], pred)
  }

  lemma {:induction false} FirstIsMember<T>(s: seq<T>, pred: T -> bool)
    ensures First(s, pred).None? <==> forall x :: x in s ==> !pred(x)
    ensures First(s, pred).Some? ==> First(s, pred).value in s && pred(First(s, pred).value)
  {
    if s == [] {
    } else {
      FirstIsMember(s[1..], pred);
      assert forall x :: x in s <==> x == s[0] || x in s[1..];
    }
  }

  lemma {:induction false} FirstIsFirstOfItsKey<T>(s: seq<T>, key: T -> string, pred: T -> bool)
    requires First(s, pred).Some?
    ensures First(WithKey(s, key, key(First(s, pred).value)), pred) == First(s, pred)
  {
    if !pred(s[0]) {
      FirstIsFirstOfItsKey(s[1..], key, pred);
    }
  }

  function WithoutKey<T>(s: seq<T>, key: T -> string, k: string): seq<T> {
    if s == [] then []
    else if key(s[0]) == k then WithoutKey(s[1..], key, k)
    else [s[0]] + WithoutKey(s[1..], key, k)
  }

  lemma {:induction false} WithoutKeyRows<T>(s: seq<T>, key: T -> string, k: string, l: string)
    ensures WithKey(WithoutKey(s, key, k), key, l) == if k == l then [] else WithKey(s, key, l)
  {
    if s == [] {
    } else {
      WithoutKeyRows(s[1..], key, k, l);
    }
  }

  lemma {:induction false} WithoutKeyKeepsAll<T>(s: seq<T>, key: T -> string, k: string)
    ensures |WithoutKey(s, key, k)| <= |s|
    ensures |WithoutKey(s, key, k)| == |s| ==> WithoutKey(s, key, k) == s
    ensures |WithoutKey(s, key, k)| == |s| <==> forall x :: x in s ==> key(x) != k
  {
    if s == [] {
    } else {
      WithoutKeyKeepsAll(s[1..], key, k);
      assert forall x :: x in s <==> x == s[0] || x in s[1..];
    }
  }

  /** Deleting the key of an upserted row leaves what deleting it before would have left. */
  lemma {:induction false} DeleteUndoesUpsert<T>(s: seq<T>, x: T, key: T -> string)
    ensures WithoutKey(Upsert(s, x, key), key, key(x)) == WithoutKey(s, key, key(x))
  {
    if s == [] {
    } else {
      if key(s[0]) == key(x) {
        assert ([x] + s[1..])[1..] == s[1..];
      } else {
        DeleteUndoesUpsert(s[1..], x, key);
        assert ([s[0]] + Upsert(s[1..], x, key))[1..] == Upsert(s[1..], x, key);
      }
    }
  }

  lemma {:induction false} WithKeyRows<T>(s: seq<T>, key: T -> string, k: string, l: string)
    ensures WithKey(WithKey(s, key, k), key, l) == if k == l then WithKey(s, key, k) else []
  {
    if s == [] {
    } else {
      WithKeyRows(s[1..], key, k, l);
    }
  }

  lemma {:induction false} WithKeyConcat<T>(a: seq<T>, b: seq<T>, key: T -> string, k: string)
    ensures WithKey(a + b, key, k) == WithKey(a, key, k) + WithKey(b, key, k)
  {
    if a == [] {
      assert a + b == b;
    } else {
      assert (a + b)[1..] == a[1..] + b;
      WithKeyConcat(a[1..], b, key, k);
    }
  }

  lemma {:induction false} FirstOfConcat<T>(a: seq<T>, b: seq<T>, pred: T -> bool)
    ensures First(a, pred).Some? ==> First(a + b, pred) == First(a, pred)
  {
    if a == [] {
    } else {
      assert (a + b)[1..] == a[1..] + b;
      FirstOfConcat(a[1..], b, pred);
    }
  }

  /** The rows with key `k` moved to the front. */
  function Fronted<T>(s: seq<T>, key: T -> string, k: string): seq<T> {
    WithKey(s, key, k) + WithoutKey(s, key, k)
  }

  lemma FrontedSameRows<T>(s: seq<T>, key: T -> string, k: string)
    ensures SameRows(s, Fronted(s, key, k), key)
  {
    forall l
      ensures WithKey(s, key, l) == WithKey(Fronted(s, key, k), key, l)
    {
      WithKeyConcat(WithKey(s, key, k), WithoutKey(s, key, k), key, l);
      WithKeyRows(s, key, k, l);
      WithoutKeyRows(s, key, k, l);
    }
  }

  /** What the search answers on `s`, read off the row it finds. */
  function Found<T, U>(s: seq<T>, pred: T -> bool, read: T -> U, default: U): U {
    var first := First(s, pred);
    if first.None? then default else read(first.value)
  }

  /** The first matches of any two keys read the same. */
  ghost predicate FirstMatchesAgree<T, U>(s: seq<T>, key: T -> string, pred: T -> bool, read: T -> U) {
    forall k, l {:trigger WithKey(s, key, k), WithKey(s, key, l)} ::
      var x, y := First(WithKey(s, key, k), pred), First(WithKey(s, key, l), pred);
      x.Some? && y.Some? ==> read(x.value) == read(y.value)
  }

  ghost predicate FoundIsSettled<T(!new), U>(s: seq<T>, key: T -> string, pred: T -> bool, read: T -> U, default: U) {
    forall t :: SameRows(s, t, key) ==> Found(t, pred, read, default) == Found(s, pred, read, default)
  }

  lemma FoundInSameRows<T, U>(s: seq<T>, t: seq<T>, key: T -> string, pred: T -> bool, read: T -> U, default: U)
    requires SameRows(s, t, key) && FirstMatchesAgree(s, key, pred, read)
    ensures Found(t, pred, read, default) == Found(s, pred, read, default)
  {
    FirstIsMember(s, pred);
    FirstIsMember(t, pred);
    SameRowsSameMembers(s, t, key);
    var x, y := First(s, pred), First(t, pred);
    if x.Some? && y.Some? {
      FirstIsFirstOfItsKey(s, key, pred);
      FirstIsFirstOfItsKey(t, key, pred);
      assert WithKey(s, key, key(y.value)) == WithKey(t, key, key(y.value));
      assert First(WithKey(s, key, key(x.value)), pred) == x;
      assert First(WithKey(s, key, key(y.value)), pred) == y;
    }
  }

  lemma FirstMatchCanBeFronted<T(!new), U>(s: seq<T>, key: T -> string, pred: T -> bool, read: T -> U, default: U, k: string)
    requires FoundIsSettled(s, key, pred, read, default)
    ensures var x := First(WithKey(s, key, k), pred);
      x.Some? ==> Found(s, pred, read, default) == read(x.value)
  {
    FrontedSameRows(s, key, k);
    FirstOfConcat(WithKey(s, key, k), WithoutKey(s, key, k), pred);
    assert Found(Fronted(s, key, k), pred, read, default) == Found(s, pred, read, default);
  }

  /** A search has the same answer on every list that sorts like `s` exactly when first matches agree across keys. */
  lemma FoundIsSettledExactly<T(!new), U>(s: seq<T>, key: T -> string, pred: T -> bool, read: T -> U, default: U)
    ensures FoundIsSettled(s, key, pred, read, default) <==> FirstMatchesAgree(s, key, pred, read)
  {
    if FirstMatchesAgree(s, key, pred, read) {
      forall t | SameRows(s, t, key)
        ensures Found(t, pred, read, default) == Found(s, pred, read, default)
      {
        FoundInSameRows(s, t, key, pred, read, default);
      }
    }
    if FoundIsSettled(s, key, pred, read, default) {
      forall k, l {:trigger WithKey(s, key, k), WithKey(s, key, l)}
        ensures var x, y := First(WithKey(s, key, k), pred), First(WithKey(s, key, l), pred);
          x.Some? && y.Some? ==> read(x.value) == read(y.value)
      {
        FirstMatchCanBeFronted(s, key, pred, read, default, k);
        FirstMatchCanBeFronted(s, key, pred, read, default, l);
      }
    }
  }

  /** All matches have the key `k`. */
  ghost predicate OnlyKeyMatches<T>(s: seq<T>, key: T -> string, pred: T -> bool, k: string) {
    forall x :: x in s && pred(x) ==> key(x) == k
  }

  /** Where an upserted row's key alone matches, the search finds that row, and nothing once its key is deleted. */
  lemma UpsertedRowIsFound<T, U>(s: seq<T>, x: T, key: T -> string, pred: T -> bool, read: T -> U, default: U)
    requires pred(x) && OnlyKeyMatches(Upsert(s, x, key), key, pred, key(x))
    ensures Found(Upsert(s, x, key), pred, read, default) == read(x)
    ensures Found(WithoutKey(Upsert(s, x, key), key, key(x)), pred, read, default) == default
  {
    var k, now := key(x), Upsert(s, x, key);
    UpsertRows(s, x, key, k);
    assert WithKey(now, key, k)[0] == x;
    assert First(WithKey(now, key, k), pred) == Some(x);
    WithKeyMember(now, key, k, x);
    FirstIsMember(now, pred);
    FirstIsFirstOfItsKey(now, key, pred);
    var left := WithoutKey(now, key, k);
    FirstIsMember(left, pred);
    if First(left, pred).Some? {
      var y := First(left, pred).value;
      WithoutKeyRows(now, key, k, key(y));
      WithKeyMember(left, key, key(y), y);
      WithKeyMember(now, key, key(y), y);
      assert false;
    }
  }
}
