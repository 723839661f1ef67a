/** Least-recently-used order, read off a history of touches. */
module Recency {
  import opened Permutations

  function Without<K(==)>(s: seq<K>, k: K): seq<K> {
    if s == [] then [] else (if s[0] == k then [] else [s[0]]) + Without(s[1..], k)
  }

  /** The distinct keys of a history, the most recently touched first. */
  function Recent<K(==)>(h: seq<K>): seq<K> {
    if h == [] then [] else [h[|h| - 1]] + Without(Recent(h[..|h| - 1]), h[|h| - 1])
  }

  function Take<K>(s: seq<K>, n: nat): seq<K> {
    if |s| <= n then s else s[..n]
  }

  /** The `n` most recently touched distinct keys. */
  function Kept<K(==)>(h: seq<K>, n: nat): seq<K> {
    Take(Recent(h), n)
  }

  lemma {:induction false} WithoutAbsent<K>(s: seq<K>, k: K)
    requires k !in s
    ensures Without(s, k) == s
  {
    if s == [] {
    } else {
      WithoutAbsent(s[1..], k);
    }
  }

  lemma {:induction false} WithoutAt<K>(s: seq<K>, i: nat)
    requires NoRepeats(s) && i < |s|
    ensures Without(s, s[i]) == s[..i] + s[i + 1..]
  {
    if i == 0 {
      assert s[0] !in s[1..];
      WithoutAbsent(s[1..], s[0]);
      assert s[..0] + s[1..] == s[1..];
    } else {
      WithoutAt(s[1..], i - 1);
      assert s[1..][..i - 1] == s[1..i] && s[1..][i..] == s[i + 1..];
      assert s[..i] == [s[0]] + s[1..i];
    }
  }

  lemma WithoutMembers<K>(s: seq<K>, k: K)
    requires NoRepeats(s)
    ensures NoRepeats(Without(s, k)) && k !in Without(s, k)
    ensures forall x :: x in Without(s, k) <==> x in s && x != k
  {
    if k in s {
      var i :| 0 <= i < |s| && s[i] == k;
      WithoutAt(s, i);
      var r := s[..i] + s[i + 1..];
      assert forall j :: 0 <= j < |r| ==> r[j] == s[if j < i then j else j + 1];
      assert forall x :: x in s ==> x == k || x in s[..i] || x in s[i + 1..];
    } else {
      WithoutAbsent(s, k);
    }
  }

  lemma {:induction false} RecentMembers<K>(h: seq<K>)
    ensures NoRepeats(Recent(h))
    ensures forall x :: x in Recent(h) <==> x in h
  {
    if h == [] {
    } else {
      RecentMembers(h[..|h| - 1]);
      WithoutMembers(Recent(h[..|h| - 1]), h[|h| - 1]);
      assert h == h[..|h| - 1] + [h[|h| - 1]];
    }
  }

  lemma RecentAppend<K>(h: seq<K>, k: K)
    ensures Recent(h + [k]) == [k] + Without(Recent(h), k)
  {
    assert (h + [k])[..|h|] == h;
  }

  lemma SliceOfRemoved<K>(s: seq<K>, i: nat, n: nat)
    requires i < n <= |s|
    ensures (s[..i] + s[i + 1..])[..n - 1] == s[..n][..i] + s[..n][i + 1..]
  {
  }

  lemma TakeWithoutInside<K>(s: seq<K>, i: nat, n: nat)
    requires NoRepeats(s) && i < |s| && i < n
    ensures Take(Without(s, s[i]), n - 1) == Without(Take(s, n), s[i])
  {
    WithoutAt(s, i);
    if n < |s| {
      WithoutAt(s[..n], i);
      SliceOfRemoved(s, i, n);
    }
  }

  lemma TakeWithoutBeyond<K>(s: seq<K>, i: nat, n: nat)
    requires NoRepeats(s) && n <= i < |s| && n > 0
    ensures Take(Without(s, s[i]), n - 1) == Take(s, n - 1)
  {
    WithoutAt(s, i);
    assert (s[..i] + s[i + 1..])[..n - 1] == s[..n - 1];
  }

  /** A touch moves a kept key to the front; a new key pushes out the last one when there is no room. */
  lemma KeptAfterTouch<K>(h: seq<K>, k: K, n: nat)
    requires n > 0
    ensures Kept(h + [k], n) ==
            [k] + if k in Kept(h, n) then Without(Kept(h, n), k) else Take(Kept(h, n), n - 1)
  {
    RecentAppend(h, k);
    RecentMembers(h);
    var s := Recent(h);
    assert Kept(h + [k], n) == [k] + Take(Without(s, k), n - 1);
    assert Take(Take(s, n), n - 1) == Take(s, n - 1);
    if k in s {
      var i :| 0 <= i < |s| && s[i] == k;
      if i < n {
        TakeWithoutInside(s, i, n);
      } else {
        TakeWithoutBeyond(s, i, n);
      }
      assert k in Take(s, n) <==> i < n by {
        if i < n {
          assert Take(s, n)[i] == k;
        }
      }
    } else {
      WithoutAbsent(s, k);
    }
  }

  /** How many different keys have been touched since the last touch of `k`. */
  function Since<K(==)>(h: seq<K>, k: K): set<K> {
    if h == [] || h[|h| - 1] == k then {} else Since(h[..|h| - 1], k) + {h[|h| - 1]}
  }

  function Members<K(==)>(s: seq<K>): set<K> {
    set x | x in s
  }

  /** Moving another key to the front puts it before position `j`, and changes nothing else there. */
  lemma MoveToFront<K>(s: seq<K>, last: K, j: nat) returns (i: nat)
    requires NoRepeats(s) && j < |s| && s[j] != last
    ensures var r := [last] + Without(s, last);
            i < |r| && r[i] == s[j] && Members(r[..i]) == Members(s[..j]) + {last}
  {
    var r := [last] + Without(s, last);
    if last in s {
      var l :| 0 <= l < |s| && s[l] == last;
      WithoutAt(s, l);
      if l < j {
        i := j;
        assert s[..j] == s[..l] + [last] + s[l + 1..j];
        assert r[..i] == [last] + (s[..l] + s[l + 1..j]);
      } else {
        i := j + 1;
        assert r[..i] == [last] + s[..j];
      }
    } else {
      WithoutAbsent(s, last);
      i := j + 1;
      assert r[..i] == [last] + s[..j];
    }
  }

  lemma {:induction false} RecentPosition<K>(h: seq<K>, k: K) returns (i: nat)
    requires k in h
    ensures i < |Recent(h)| && Recent(h)[i] == k && Members(Recent(h)[..i]) == Since(h, k)
  {
    var before, last := h[..|h| - 1], h[|h| - 1];
    assert h == before + [last];
    if last == k {
      i := 0;
    } else {
      var j := RecentPosition(before, k);
      RecentMembers(before);
      i := MoveToFront(Recent(before), last, j);
    }
  }

  lemma {:induction false} SetOfDistinct<K>(s: seq<K>)
    requires NoRepeats(s)
    ensures |Members(s)| == |s|
  {
    if s == [] {
    } else {
      SetOfDistinct(s[1..]);
      assert Members(s) == Members(s[1..]) + {s[0]};
    }
  }

  /** A key is kept exactly when it was touched and fewer than `n` others have been touched since. */
  lemma KeptByReuseDistance<K>(h: seq<K>, k: K, n: nat)
    ensures k in Kept(h, n) <==> k in h && |Since(h, k)| < n
  {
    RecentMembers(h);
    if k in h {
      var i := RecentPosition(h, k);
      SetOfDistinct(Recent(h)[..i]);
      if i < n {
        assert Kept(h, n)[i] == k;
      }
    }
  }
}
