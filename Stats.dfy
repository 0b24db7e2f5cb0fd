/** Sample statistics over a sequence of temperatures, as pandas computes
    them: the arithmetic mean and the sample variance with denominator n - 1
    (ddof = 1), which is missing for fewer than two values. The standard
    deviation is the square root of that variance; Dafny's reals have no
    square root, so statistics carry the variance and the band tests compare
    squares (see OutsideBandIffSquareExceeds). */
module Stats {
  import opened Maybe

  /** Sum of the values, added from the left. */
  function Sum(s: seq<real>): real
  {
    if |s| == 0 then 0.0 else Sum(s[..|s| - 1]) + s[|s| - 1]
  }

  function Mean(s: seq<real>): real
    requires |s| > 0
  {
    Sum(s) / (|s| as real)
  }

  /** Sum of squared deviations from m. */
  function SumSqDev(s: seq<real>, m: real): (r: real)
    ensures r >= 0.0
  {
    if |s| == 0 then 0.0
    else
      var d := s[|s| - 1] - m;
      SumSqDev(s[..|s| - 1], m) + d * d
  }

  /** pandas' Series.std() squared: missing (NaN) below two values. */
  function SampleVariance(s: seq<real>): (v: Option<real>)
    ensures v.Some? <==> |s| >= 2
    ensures v.Some? ==> v.value >= 0.0
  {
    if |s| < 2 then None else Some(SumSqDev(s, Mean(s)) / ((|s| - 1) as real))
  }

  lemma SumAppend(s: seq<real>, x: real)
    ensures Sum(s + [x]) == Sum(s) + x
  {
    assert (s + [x])[..|s|] == s;
  }

  lemma SumSqDevAppend(s: seq<real>, x: real, m: real)
    ensures SumSqDev(s + [x], m) == SumSqDev(s, m) + (x - m) * (x - m)
  {
    assert (s + [x])[..|s|] == s;
  }

  lemma {:induction false} SumDropFirst(s: seq<real>)
    requires |s| > 0
    ensures Sum(s) == s[0] + Sum(s[1..])
  {
    if |s| > 1 {
      var init := s[..|s| - 1];
      SumDropFirst(init);
      assert init[1..] == s[1..][..|s| - 2];
    }
  }

  /** A slice grows by its next element. */
  lemma SumSliceExtend(s: seq<real>, lo: int, hi: int)
    requires 0 <= lo <= hi < |s|
    ensures Sum(s[lo..hi + 1]) == Sum(s[lo..hi]) + s[hi]
  {
    assert s[lo..hi + 1][..hi - lo] == s[lo..hi];
  }

  /** A slice shrinks by its first element. */
  lemma SumSliceShrink(s: seq<real>, lo: int, hi: int)
    requires 0 <= lo < hi <= |s|
    ensures Sum(s[lo..hi]) == s[lo] + Sum(s[lo + 1..hi])
  {
    SumDropFirst(s[lo..hi]);
    assert s[lo..hi][1..] == s[lo + 1..hi];
  }

  lemma SumSqDevSliceExtend(s: seq<real>, lo: int, hi: int, m: real)
    requires 0 <= lo <= hi < |s|
    ensures SumSqDev(s[lo..hi + 1], m) == SumSqDev(s[lo..hi], m) + (s[hi] - m) * (s[hi] - m)
  {
    assert s[lo..hi + 1][..hi - lo] == s[lo..hi];
  }

  ghost predicate Constant(s: seq<real>, c: real)
  {
    forall i :: 0 <= i < |s| ==> s[i] == c
  }

  lemma {:induction false} SumConstant(s: seq<real>, c: real)
    requires Constant(s, c)
    ensures Sum(s) == (|s| as real) * c
  {
    if |s| > 0 {
      SumConstant(s[..|s| - 1], c);
    }
  }

  lemma {:induction false} SumSqDevConstant(s: seq<real>, c: real)
    requires Constant(s, c)
    ensures SumSqDev(s, c) == 0.0
  {
    if |s| > 0 {
      SumSqDevConstant(s[..|s| - 1], c);
    }
  }

  lemma {:induction false} SumSqDevOfConstant(s: seq<real>, c: real, m: real)
    requires Constant(s, c)
    ensures SumSqDev(s, m) == (|s| as real) * ((c - m) * (c - m))
  {
    if |s| > 0 {
      SumSqDevOfConstant(s[..|s| - 1], c, m);
    }
  }

  /** The mean of n equal values is that value, and their sample variance is
      zero (or missing, for a single value). */
  lemma ConstantStatistics(s: seq<real>, c: real)
    requires |s| > 0 && Constant(s, c)
    ensures Mean(s) == c
    ensures SampleVariance(s) == if |s| < 2 then None else Some(0.0)
  {
    SumConstant(s, c);
    assert Mean(s) == (|s| as real) * c / (|s| as real);
    SumSqDevConstant(s, c);
  }

  /** s is a standard deviation whose square is the variance v. */
  ghost predicate IsStdOf(s: real, v: real)
  {
    s >= 0.0 && s * s == v
  }

  lemma SquareMonotone(a: real, b: real)
    requires 0.0 <= a <= b
    ensures a * a <= b * b
  {
    assert a * a <= a * b;
    assert a * b <= b * b;
  }

  lemma ProductPositive(a: real, b: real, q: real)
    requires a > 0.0 && b > 0.0 && q == a * b
    ensures q > 0.0
  {
  }

  /** The square q of a non-zero value is positive. */
  lemma SquarePositive(x: real, q: real)
    requires x != 0.0 && q == x * x
    ensures q > 0.0
  {
    if x < 0.0 {
      ProductPositive(-x, -x, q);
    } else {
      ProductPositive(x, x, q);
    }
  }

  lemma SquareStrictMonotone(a: real, b: real)
    requires 0.0 <= a < b
    ensures a * a < b * b
  {
    assert a * (b - a) >= 0.0;
    assert (b - a) * b > 0.0;
    assert b * b - a * a == a * (b - a) + (b - a) * b;
  }

  /** Being strictly outside [m - 2s, m + 2s] is the same as the squared
      deviation exceeding four times the variance s * s. */
  lemma OutsideBandIffSquareExceeds(t: real, m: real, s: real, v: real)
    requires IsStdOf(s, v)
    ensures (t > m + 2.0 * s || t < m - 2.0 * s) <==> (t - m) * (t - m) > 4.0 * v
  {
    var a := if t >= m then t - m else m - t;
    assert a * a == (t - m) * (t - m);
    assert 4.0 * v == (2.0 * s) * (2.0 * s);
    if a > 2.0 * s {
      SquareStrictMonotone(2.0 * s, a);
    } else {
      SquareMonotone(a, 2.0 * s);
    }
  }

  /** The same test written as in the live-reading check: |t - m| > 2s. */
  lemma AbsDeviationIffSquareExceeds(t: real, m: real, s: real, v: real)
    requires IsStdOf(s, v)
    ensures (if t - m >= 0.0 then t - m else m - t) > 2.0 * s <==> (t - m) * (t - m) > 4.0 * v
  {
    OutsideBandIffSquareExceeds(t, m, s, v);
  }
}
