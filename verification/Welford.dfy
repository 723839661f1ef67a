/** The running mean and squared deviation, exact over the reals. */
module Welford {
  import opened Permutations

  datatype Moments = Moments(samples: nat, mean: real, m2: real)

  const EMPTY := Moments(0, 0.0, 0.0)

  /** One sample folded in: the second deviation is taken from the already updated mean. */
  function Update(m: Moments, value: real): Moments {
    var n := m.samples + 1;
    var delta := value - m.mean;
    var mean := m.mean + delta / n as real;
    Moments(n, mean, m.m2 + delta * (value - mean))
  }

  function Fold(xs: seq<real>): Moments {
    if xs == [] then EMPTY else Update(Fold(xs[..|xs| - 1]), xs[|xs| - 1])
  }

  function Identity(): real -> real {
    x => x
  }

  function SquaredFrom(center: real): real -> real {
    x => (x - center) * (x - center)
  }

  function Sum(xs: seq<real>): real {
    Total(xs, Identity())
  }

  /** The sum of the squared distances of the samples from `center`. */
  function Deviations(xs: seq<real>, center: real): real {
    Total(xs, SquaredFrom(center))
  }

  /** Moving the center changes the sum of squares by a term in the sum of the samples. */
  lemma {:induction false} DeviationsShift(xs: seq<real>, a: real, b: real)
    ensures Deviations(xs, b) == Deviations(xs, a) - 2.0 * (b - a) * Sum(xs) + |xs| as real * (b * b - a * a)
  {
    if xs == [] {
    } else {
      var ys, x := xs[..|xs| - 1], xs[|xs| - 1];
      DeviationsShift(ys, a, b);
      var n := |ys| as real;
      assert |xs| as real == n + 1.0;
      assert (x - b) * (x - b) == (x - a) * (x - a) - 2.0 * (b - a) * x + (b * b - a * a);
      assert (n + 1.0) * (b * b - a * a) == n * (b * b - a * a) + (b * b - a * a);
      assert 2.0 * (b - a) * (Sum(ys) + x) == 2.0 * (b - a) * Sum(ys) + 2.0 * (b - a) * x;
    }
  }

  /** How much the squared deviations grow when x joins n samples of mean a, and the mean becomes b. */
  lemma DeviationGain(a: real, b: real, n: real, x: real, sum: real)
    requires (b - a) * (n + 1.0) == x - a && sum == a * n
    ensures n * (b * b - a * a) - 2.0 * (b - a) * sum + (x - b) * (x - b) == (x - a) * (x - b)
  {
    var e := b - a;
    assert x - b == n * e;
    assert b * b - a * a == 2.0 * (a * e) + e * e;
    assert n * (b * b - a * a) == 2.0 * (n * (a * e)) + (n * e) * e;
    assert (b - a) * sum == n * (a * e);
    assert 2.0 * (b - a) * sum == 2.0 * ((b - a) * sum);
    assert (x - a) * (x - b) == (x - b) * (x - b) + e * (x - b);
  }

  lemma NewMean(a: real, n: real, x: real) returns (b: real)
    requires n >= 0.0
    ensures b == a + (x - a) / (n + 1.0)
    ensures (b - a) * (n + 1.0) == x - a && b * (n + 1.0) == a * n + x
  {
    var step := (x - a) / (n + 1.0);
    assert step * (n + 1.0) == x - a;
    b := a + step;
    assert b * (n + 1.0) == a * n + a + step * (n + 1.0);
  }

  /** The number, the exact mean and the exact sum of squared deviations of the samples. */
  ghost predicate Exact(m: Moments, xs: seq<real>) {
    && m.samples == |xs|
    && m.mean * |xs| as real == Sum(xs)
    && m.m2 == Deviations(xs, m.mean)
    && (xs == [] ==> m == EMPTY)
  }

  lemma DeviationsAppend(ys: seq<real>, x: real, c: real)
    ensures Sum(ys + [x]) == Sum(ys) + x
    ensures Deviations(ys + [x], c) == Deviations(ys, c) + (x - c) * (x - c)
  {
    TotalAppend(ys, x, Identity());
    TotalAppend(ys, x, SquaredFrom(c));
  }

  lemma DeviationsAfter(ys: seq<real>, x: real, a: real, b: real, gain: real)
    requires gain == |ys| as real * (b * b - a * a) - 2.0 * (b - a) * Sum(ys) + (x - b) * (x - b)
    ensures Deviations(ys + [x], b) == Deviations(ys, a) + gain
  {
    DeviationsShift(ys, a, b);
    DeviationsAppend(ys, x, b);
  }

  lemma UpdatedFields(m: Moments, x: real) returns (b: real, gain: real)
    ensures b == m.mean + (x - m.mean) / (m.samples as real + 1.0)
    ensures gain == (x - m.mean) * (x - b)
    ensures Update(m, x).mean == b && Update(m, x).m2 == m.m2 + gain
  {
    assert (m.samples + 1) as real == m.samples as real + 1.0;
    b := Update(m, x).mean;
    gain := (x - m.mean) * (x - b);
  }

  lemma UpdatedDeviations(ys: seq<real>, x: real, a: real, b: real, gain: real)
    requires Sum(ys) == a * |ys| as real && (b - a) * (|ys| as real + 1.0) == x - a
    requires gain == (x - a) * (x - b)
    ensures Deviations(ys + [x], b) == Deviations(ys, a) + gain
  {
    DeviationGain(a, b, |ys| as real, x, Sum(ys));
    DeviationsAfter(ys, x, a, b, gain);
  }

  lemma UpdatedMean(m: Moments, x: real, n: real, more: real)
    requires n == m.samples as real && more == n + 1.0
    ensures var b := Update(m, x).mean; b * more == m.mean * n + x && (b - m.mean) * more == x - m.mean
  {
    var b := NewMean(m.mean, n, x);
    var c, _ := UpdatedFields(m, x);
  }

  lemma UpdatedMeanIsExact(ys: seq<real>, x: real, m: Moments)
    requires m.samples == |ys| && m.mean * |ys| as real == Sum(ys)
    ensures Update(m, x).mean * |ys + [x]| as real == Sum(ys + [x])
  {
    UpdatedMean(m, x, |ys| as real, |ys + [x]| as real);
    DeviationsAppend(ys, x, 0.0);
  }

  lemma UpdatedM2IsExact(ys: seq<real>, x: real, m: Moments)
    requires m.samples == |ys| && m.mean * |ys| as real == Sum(ys) && m.m2 == Deviations(ys, m.mean)
    ensures Update(m, x).m2 == Deviations(ys + [x], Update(m, x).mean)
  {
    UpdatedMean(m, x, |ys| as real, |ys| as real + 1.0);
    var b, gain := UpdatedFields(m, x);
    UpdatedDeviations(ys, x, m.mean, b, gain);
  }

  /** After any samples the state is exact. */
  lemma {:induction false} FoldIsExact(xs: seq<real>)
    ensures Exact(Fold(xs), xs)
  {
    if xs == [] {
    } else {
      var ys, x := xs[..|xs| - 1], xs[|xs| - 1];
      FoldIsExact(ys);
      UpdatedMeanIsExact(ys, x, Fold(ys));
      UpdatedM2IsExact(ys, x, Fold(ys));
      assert xs == ys + [x];
    }
  }

  lemma SquareNonNegative(d: real)
    ensures d * d >= 0.0
  {
    if d < 0.0 {
      assert d * d == (-d) * (-d);
    }
  }

  lemma {:induction false} DeviationsNonNegative(xs: seq<real>, center: real)
    ensures Deviations(xs, center) >= 0.0
  {
    if xs == [] {
    } else {
      DeviationsNonNegative(xs[..|xs| - 1], center);
      SquareNonNegative(xs[|xs| - 1] - center);
    }
  }

  lemma ExactIsUnique(m: Moments, k: Moments, xs: seq<real>, ys: seq<real>)
    requires Exact(m, xs) && Exact(k, ys) && multiset(xs) == multiset(ys)
    ensures m == k
  {
    TotalOfPermutation(xs, ys, Identity());
    TotalOfPermutation(xs, ys, SquaredFrom(m.mean));
    SameLength(xs, ys);
    if xs != [] {
      SameFactor(m.mean, k.mean, |xs| as real);
    }
  }

  lemma SameFactor(a: real, b: real, n: real)
    requires n > 0.0 && a * n == b * n
    ensures a == b
  {
    assert (a - b) * n == 0.0;
  }

  /** The state does not depend on the order of the samples. */
  lemma FoldIgnoresOrder(xs: seq<real>, ys: seq<real>)
    requires multiset(xs) == multiset(ys)
    ensures Fold(xs) == Fold(ys)
  {
    FoldIsExact(xs);
    FoldIsExact(ys);
    ExactIsUnique(Fold(xs), Fold(ys), xs, ys);
  }

  function Variance(m: Moments): real {
    if m.samples < 2 then 0.0 else m.m2 / (m.samples as real - 1.0)
  }

  /** What is asked of the square root taken by the standard deviation. */
  ghost predicate IsSqrt(sqrt: real -> real) {
    forall v {:trigger sqrt(v)} :: v >= 0.0 ==> sqrt(v) >= 0.0 && sqrt(v) * sqrt(v) == v
  }

  function StdDev(m: Moments, sqrt: real -> real): real {
    if m.samples < 2 then 0.0 else sqrt(Variance(m))
  }

  lemma Quotient(a: real, k: real) returns (v: real)
    requires a >= 0.0 && k > 0.0
    ensures v == a / k && v >= 0.0 && v * k == a
  {
    v := a / k;
  }

  /** The reported deviation is the non-negative root of the sample variance, and zero below two samples. */
  lemma StdDevIsSampleDeviation(xs: seq<real>, sqrt: real -> real)
    requires IsSqrt(sqrt)
    ensures var sd := StdDev(Fold(xs), sqrt);
            && sd >= 0.0
            && (|xs| < 2 ==> sd == 0.0)
            && (|xs| >= 2 ==> sd * sd * (|xs| as real - 1.0) == Deviations(xs, Fold(xs).mean))
  {
    var m, k := Fold(xs), |xs| as real - 1.0;
    assert m.samples == |xs| && m.m2 == Deviations(xs, m.mean) by {
      FoldIsExact(xs);
    }
    if |xs| >= 2 {
      DeviationsNonNegative(xs, m.mean);
      var v := Quotient(m.m2, k);
      var sd := sqrt(v);
      assert sd >= 0.0 && sd * sd == v;
      assert StdDev(m, sqrt) == sd;
    }
  }

  function ZScore(value: real, mean: real, stddev: real): real {
    if stddev <= 0.0001 then 0.0 else (value - mean) / stddev
  }

  ghost predicate Constant(xs: seq<real>, c: real) {
    forall i :: 0 <= i < |xs| ==> xs[i] == c
  }

  lemma {:induction false} FoldOfConstant(xs: seq<real>, c: real)
    requires Constant(xs, c) && xs != []
    ensures Fold(xs).mean == c && Fold(xs).m2 == 0.0
  {
    if |xs| > 1 {
      FoldOfConstant(xs[..|xs| - 1], c);
    } else {
      assert xs[..0] == [];
    }
  }

  /** The mean and the sample deviation, said of the samples alone. */
  ghost predicate MeanAndDeviation(xs: seq<real>, mean: real, sd: real) {
    && mean * |xs| as real == Sum(xs) && (xs == [] ==> mean == 0.0)
    && sd >= 0.0 && (|xs| < 2 ==> sd == 0.0)
    && (|xs| >= 2 ==> sd * sd * (|xs| as real - 1.0) == Deviations(xs, mean))
  }

  lemma FoldMean(xs: seq<real>)
    ensures Fold(xs).samples == |xs| && Fold(xs).mean * |xs| as real == Sum(xs) && (xs == [] ==> Fold(xs).mean == 0.0)
  {
    FoldIsExact(xs);
  }

  lemma FoldMeasures(xs: seq<real>, sqrt: real -> real)
    requires IsSqrt(sqrt)
    ensures MeanAndDeviation(xs, Fold(xs).mean, StdDev(Fold(xs), sqrt))
  {
    FoldMean(xs);
    StdDevIsSampleDeviation(xs, sqrt);
  }

  lemma SameRoot(a: real, b: real, k: real)
    requires a >= 0.0 && b >= 0.0 && k > 0.0 && a * a * k == b * b * k
    ensures a == b
  {
    SameFactor(a * a, b * b, k);
    SameSquare(a, b);
  }

  lemma SameSquare(a: real, b: real)
    requires a >= 0.0 && b >= 0.0 && a * a == b * b
    ensures a == b
  {
    var sum := a + b;
    assert a * sum == a * a + a * b && b * sum == a * b + b * b;
    if sum > 0.0 {
      SameFactor(a, b, sum);
    }
  }

  lemma OneMean(xs: seq<real>, mean: real, sd: real, other: real, s: real)
    requires MeanAndDeviation(xs, mean, sd) && MeanAndDeviation(xs, other, s)
    ensures mean == other
  {
    if xs != [] {
      SameFactor(mean, other, |xs| as real);
    }
  }

  /** The samples have one mean and one deviation. */
  lemma MeasuresAgree(xs: seq<real>, mean: real, sd: real, other: real, s: real)
    requires MeanAndDeviation(xs, mean, sd) && MeanAndDeviation(xs, other, s)
    ensures mean == other && sd == s
  {
    OneMean(xs, mean, sd, other, s);
    if |xs| >= 2 {
      SameRoot(sd, s, |xs| as real - 1.0);
    }
  }

  lemma Scaled(a: real, b: real, k: real)
    requires k > 0.0
    ensures a >= b <==> a * k >= b * k
  {
    assert a * k - b * k == (a - b) * k;
  }

  /** A value's score reaches a limit when it lies that many deviations above the mean. */
  lemma ZScoreExactly(value: real, mean: real, sd: real, limit: real)
    requires sd > 0.0001
    ensures ZScore(value, mean, sd) >= limit <==> value >= mean + limit * sd
  {
    var z := (value - mean) / sd;
    assert z * sd == value - mean;
    Scaled(z, limit, sd);
  }
}
