/** Sums over sequences, repetitions in them, and what is left unchanged when a sequence is reordered. */
module Permutations {

  lemma CutAt<T>(ys: seq<T>, x: T) returns (left: seq<T>, right: seq<T>)
    requires x in multiset(ys)
    ensures ys == left + [x] + right
    ensures multiset(left + right) == multiset(ys) - multiset{x}
  {
    var i :| 0 <= i < |ys| && ys[i] == x;
    left, right := ys[..i], ys[i + 1..];
    assert ys == left + [x] + right;
    assert multiset(ys) == multiset(left) + multiset{x} + multiset(right);
  }

  lemma WithoutLast<T>(xs: seq<T>)
    requires xs != []
    ensures multiset(xs) == multiset(xs[..|xs| - 1]) + multiset{xs[|xs| - 1]}
  {
    assert xs == xs[..|xs| - 1] + [xs[|xs| - 1]];
  }

  lemma TakeOut<T>(xs: seq<T>, ys: seq<T>) returns (left: seq<T>, right: seq<T>)
    requires multiset(xs) == multiset(ys) && xs != []
    ensures ys == left + [xs[|xs| - 1]] + right
    ensures multiset(xs[..|xs| - 1]) == multiset(left + right)
  {
    WithoutLast(xs);
    left, right := CutAt(ys, xs[|xs| - 1]);
  }

  lemma TakeOutOfMore<T>(xs: seq<T>, ys: seq<T>) returns (left: seq<T>, right: seq<T>)
    requires multiset(xs) <= multiset(ys) && xs != []
    ensures ys == left + [xs[|xs| - 1]] + right
    ensures multiset(xs[..|xs| - 1]) <= multiset(left + right)
  {
    WithoutLast(xs);
    assert xs[|xs| - 1] in multiset(xs);
    left, right := CutAt(ys, xs[|xs| - 1]);
  }

  lemma SameLength<T>(xs: seq<T>, ys: seq<T>)
    requires multiset(xs) == multiset(ys)
    ensures |xs| == |ys|
  {
    assert |multiset(xs)| == |xs| && |multiset(ys)| == |ys|;
  }

  lemma SameMembers<T>(xs: seq<T>, ys: seq<T>)
    requires multiset(xs) == multiset(ys)
    ensures forall x :: x in xs <==> x in ys
  {
    assert forall x :: x in xs <==> x in multiset(xs);
    assert forall x :: x in ys <==> x in multiset(ys);
  }

  ghost predicate NoRepeats<T>(s: seq<T>) {
    forall i, j :: 0 <= i < j < |s| ==> s[i] != s[j]
  }

  lemma {:induction false} OccursOnce<T>(s: seq<T>, x: T)
    requires NoRepeats(s)
    ensures multiset(s)[x] <= 1
  {
    if s == [] {
    } else {
      OccursOnce(s[1..], x);
      assert s == [s[0]] + s[1..];
      assert s[0] !in s[1..];
    }
  }

  lemma OccursTwice<T>(s: seq<T>, i: nat, j: nat)
    requires i < j < |s| && s[i] == s[j]
    ensures multiset(s)[s[i]] >= 2
  {
    assert s == s[..j] + s[j..];
    assert s[..j][i] == s[i] && s[j..][0] == s[i];
    assert multiset(s) == multiset(s[..j]) + multiset(s[j..]);
    assert s[i] in multiset(s[..j]) && s[i] in multiset(s[j..]);
  }

  /** The sum of `f` over the items. */
  function Total<T>(xs: seq<T>, f: T -> real): real {
    if xs == [] then 0.0 else Total(xs[..|xs| - 1], f) + f(xs[|xs| - 1])
  }

  lemma {:induction false} TotalConcat<T>(xs: seq<T>, ys: seq<T>, f: T -> real)
    ensures Total(xs + ys, f) == Total(xs, f) + Total(ys, f)
  {
    if ys == [] {
      assert xs + ys == xs;
    } else {
      TotalConcat(xs, ys[..|ys| - 1], f);
      assert (xs + ys)[..|xs + ys| - 1] == xs + ys[..|ys| - 1];
    }
  }

  lemma TotalAppend<T>(xs: seq<T>, x: T, f: T -> real)
    ensures Total(xs + [x], f) == Total(xs, f) + f(x)
  {
    assert (xs + [x])[..|xs|] == xs;
  }

  /** A sum does not depend on the order of its terms. */
  lemma {:induction false} TotalOfPermutation<T>(xs: seq<T>, ys: seq<T>, f: T -> real)
    requires multiset(xs) == multiset(ys)
    ensures Total(xs, f) == Total(ys, f)
  {
    SameLength(xs, ys);
    if xs == [] {
    } else {
      var x := xs[|xs| - 1];
      var left, right := TakeOut(xs, ys);
      TotalOfPermutation(xs[..|xs| - 1], left + right, f);
      TotalTakesOut(left, x, right, f);
    }
  }

  lemma TotalTakesOut<T>(left: seq<T>, x: T, right: seq<T>, f: T -> real)
    ensures Total(left + [x] + right, f) == Total(left + right, f) + f(x)
  {
    TotalConcat(left, right, f);
    TotalAppend(left, x, f);
    TotalConcat(left + [x], right, f);
  }

  lemma {:induction false} TotalNonNegative<T>(xs: seq<T>, f: T -> real)
    requires forall x :: f(x) >= 0.0
    ensures Total(xs, f) >= 0.0
  {
    if xs == [] {
    } else {
      TotalNonNegative(xs[..|xs| - 1], f);
    }
  }

  /** More terms, in whatever order, make a larger sum when no term is negative. */
  lemma {:induction false} TotalOfMore<T>(xs: seq<T>, ys: seq<T>, f: T -> real)
    requires multiset(xs) <= multiset(ys) && forall x :: f(x) >= 0.0
    ensures Total(xs, f) <= Total(ys, f)
  {
    if xs == [] {
      TotalNonNegative(ys, f);
    } else {
      var left, right := TakeOutOfMore(xs, ys);
      TotalOfMore(xs[..|xs| - 1], left + right, f);
      TotalTakesOut(left, xs[|xs| - 1], right, f);
    }
  }
}
