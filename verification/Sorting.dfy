/** Stable insertion sort by a key, under any total order of the keys. */
module Sorting {

  ghost predicate TotalOrder<K(!new)>(leq: (K, K) -> bool) {
    && (forall a, b :: leq(a, b) || leq(b, a))
    && (forall a, b, c :: leq(a, b) && leq(b, c) ==> leq(a, c))
  }

  function Insert<T, K>(x: T, s: seq<T>, key: T -> K, leq: (K, K) -> bool): seq<T> {
    if s == [] || leq(key(x), key(s[0])) then [x] + s else [s[0]] + Insert(x, s[1..], key, leq)
  }

  function Sort<T, K>(s: seq<T>, key: T -> K, leq: (K, K) -> bool): seq<T> {
    if s == [] then [] else Insert(s[0], Sort(s[1..], key, leq), key, leq)
  }

  ghost predicate Sorted<T, K>(s: seq<T>, key: T -> K, leq: (K, K) -> bool) {
    forall i, j :: 0 <= i < j < |s| ==> leq(key(s[i]), key(s[j]))
  }

  lemma {:induction false} InsertItems<T, K>(x: T, s: seq<T>, key: T -> K, leq: (K, K) -> bool)
    ensures multiset(Insert(x, s, key, leq)) == multiset(s) + multiset{x}
  {
    if s == [] || leq(key(x), key(s[0])) {
    } else {
      InsertItems(x, s[1..], key, leq);
      assert s == [s[0]] + s[1..];
      assert multiset(Insert(x, s, key, leq)) == multiset{s[0]} + multiset(Insert(x, s[1..], key, leq));
    }
  }

  lemma {:induction false} SortItems<T, K>(s: seq<T>, key: T -> K, leq: (K, K) -> bool)
    ensures multiset(Sort(s, key, leq)) == multiset(s)
  {
    if s == [] {
    } else {
      SortItems(s[1..], key, leq);
      InsertItems(s[0], Sort(s[1..], key, leq), key, leq);
      assert s == [s[0]] + s[1..];
    }
  }

  lemma SortMember<T, K>(s: seq<T>, key: T -> K, leq: (K, K) -> bool, x: T)
    ensures x in Sort(s, key, leq) <==> x in s
  {
    SortItems(s, key, leq);
    assert x in Sort(s, key, leq) <==> x in multiset(Sort(s, key, leq));
    assert x in s <==> x in multiset(s);
  }

  lemma {:induction false} InsertMember<T, K>(x: T, s: seq<T>, key: T -> K, leq: (K, K) -> bool, i: nat)
    requires i < |Insert(x, s, key, leq)|
    ensures var y := Insert(x, s, key, leq)[i]; y == x || exists j :: 0 <= j < |s| && s[j] == y
  {
    if s == [] || leq(key(x), key(s[0])) {
      assert i > 0 ==> Insert(x, s, key, leq)[i] == s[i - 1];
    } else if i > 0 {
      InsertMember(x, s[1..], key, leq, i - 1);
      assert forall j :: 0 <= j < |s| - 1 ==> s[1..][j] == s[j + 1];
    }
  }

  lemma {:induction false} InsertSorts<T, K(!new)>(x: T, s: seq<T>, key: T -> K, leq: (K, K) -> bool)
    requires TotalOrder(leq) && Sorted(s, key, leq)
    ensures Sorted(Insert(x, s, key, leq), key, leq)
  {
    if s == [] || leq(key(x), key(s[0])) {
      assert forall i :: 0 <= i < |s| ==> leq(key(x), key(s[i]));
    } else {
      InsertSorts(x, s[1..], key, leq);
      var rest := Insert(x, s[1..], key, leq);
      forall i | 0 <= i < |rest|
        ensures leq(key(s[0]), key(rest[i]))
      {
        InsertMember(x, s[1..], key, leq, i);
      }
    }
  }

  lemma {:induction false} SortSorts<T, K(!new)>(s: seq<T>, key: T -> K, leq: (K, K) -> bool)
    requires TotalOrder(leq)
    ensures Sorted(Sort(s, key, leq), key, leq)
  {
    if s == [] {
    } else {
      SortSorts(s[1..], key, leq);
      InsertSorts(s[0], Sort(s[1..], key, leq), key, leq);
    }
  }
}
