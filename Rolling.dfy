/** pandas' trailing rolling window: Series.rolling(window).mean() and
    .std(), with the default min_periods = window, so every index before
    window - 1 is missing. */
module RollingStatistics {
  import opened Maybe
  import opened Stats

  /** The window size the analysis uses. */
  const DefaultWindow: nat := 30

  /** The w values ending at index i, in row order. */
  function Window(t: seq<real>, w: nat, i: int): seq<real>
    requires 1 <= w && w - 1 <= i < |t|
  {
    t[i - w + 1..i + 1]
  }

  /** Specification of the rolling mean. */
  function RollingMean(t: seq<real>, w: nat): seq<Option<real>>
    requires w >= 1
  {
    seq(|t|, i requires 0 <= i < |t| => if i < w - 1 then None else Some(Mean(Window(t, w, i))))
  }

  /** Specification of the rolling variance (the rolling std squared). */
  function RollingVariance(t: seq<real>, w: nat): seq<Option<real>>
    requires w >= 1
  {
    seq(|t|, i requires 0 <= i < |t| => if i < w - 1 then None else SampleVariance(Window(t, w, i)))
  }

  /** Both series are aligned with the input; exactly the first w - 1
      entries are missing (the variance also everywhere when w = 1, as a
      single value has no sample deviation); defined variances are >= 0. */
  lemma RollingShape(t: seq<real>, w: nat)
    requires w >= 1
    ensures |RollingMean(t, w)| == |t| && |RollingVariance(t, w)| == |t|
    ensures forall i :: 0 <= i < |t| ==> (RollingMean(t, w)[i].Some? <==> i >= w - 1)
    ensures forall i :: 0 <= i < |t| ==> (RollingVariance(t, w)[i].Some? <==> i >= w - 1 && w >= 2)
    ensures forall i :: 0 <= i < |t| && RollingVariance(t, w)[i].Some? ==> RollingVariance(t, w)[i].value >= 0.0
  {
  }

  /** A defined rolling mean is the average of the w most recent values, in
      row order: the sum of t[i - w + 1 .. i] divided by w. */
  lemma RollingMeanIsWindowAverage(t: seq<real>, w: nat, i: int)
    requires w >= 1 && w - 1 <= i < |t|
    ensures RollingMean(t, w)[i] == Some(Sum(t[i - w + 1..i + 1]) / (w as real))
  {
  }

  /** The window trails: appending later values never changes an earlier
      entry of either series. */
  lemma RollingIsCausal(t: seq<real>, u: seq<real>, w: nat)
    requires w >= 1
    ensures RollingMean(t + u, w)[..|t|] == RollingMean(t, w)
    ensures RollingVariance(t + u, w)[..|t|] == RollingVariance(t, w)
  {
    forall i | w - 1 <= i < |t|
      ensures Window(t + u, w, i) == Window(t, w, i)
    {
    }
  }

  /** On a constant series every defined mean is the constant and every
      defined variance is 0. */
  lemma RollingConstant(t: seq<real>, w: nat, c: real)
    requires w >= 1 && Constant(t, c)
    ensures forall i :: w - 1 <= i < |t| ==> RollingMean(t, w)[i] == Some(c)
    ensures forall i :: w - 1 <= i < |t| && w >= 2 ==> RollingVariance(t, w)[i] == Some(0.0)
  {
    forall i | w - 1 <= i < |t|
      ensures RollingMean(t, w)[i] == Some(c)
      ensures w >= 2 ==> RollingVariance(t, w)[i] == Some(0.0)
    {
      ConstantStatistics(Window(t, w, i), c);
    }
  }

  /** Sum of squared deviations of t[lo..hi] from m, one value at a time. */
  method WindowSumSqDev(t: seq<real>, lo: nat, hi: nat, m: real) returns (acc: real)
    requires lo <= hi <= |t|
    ensures acc == SumSqDev(t[lo..hi], m)
  {
    acc := 0.0;
    var j := lo;
    while j < hi
      invariant lo <= j <= hi
      invariant acc == SumSqDev(t[lo..j], m)
    {
      SumSqDevSliceExtend(t, lo, j, m);
      acc := acc + (t[j] - m) * (t[j] - m);
      j := j + 1;
    }
  }

  /** calculate_rolling_stats: one pass with a sliding window sum for the
      mean, and a pass over each full window for the deviations. */
  method CalculateRollingStats(t: seq<real>, w: nat) returns (mean: seq<Option<real>>, variance: seq<Option<real>>)
    requires w >= 1
    ensures mean == RollingMean(t, w)
    ensures variance == RollingVariance(t, w)
  {
    mean, variance := [], [];
    // sum of the (at most w - 1) values just before index i
    var windowSum := 0.0;
    var i := 0;
    while i < |t|
      invariant 0 <= i <= |t|
      invariant mean == RollingMean(t, w)[..i]
      invariant variance == RollingVariance(t, w)[..i]
      invariant windowSum == Sum(t[if i >= w - 1 then i - w + 1 else 0..i])
    {
      var lo := if i >= w - 1 then i - w + 1 else 0;
      SumSliceExtend(t, lo, i);
      var full := windowSum + t[i];
      if i < w - 1 {
        mean, variance := mean + [None], variance + [None];
        windowSum := full;
      } else {
        var m := full / (w as real);
        assert Some(m) == RollingMean(t, w)[i];
        var v: Option<real> := None;
        if w >= 2 {
          var ssd := WindowSumSqDev(t, lo, i + 1, m);
          v := Some(ssd / ((w - 1) as real));
        }
        assert v == RollingVariance(t, w)[i];
        mean, variance := mean + [Some(m)], variance + [v];
        SumSliceShrink(t, lo, i + 1);
        windowSum := full - t[lo];
      }
      i := i + 1;
    }
  }
}
