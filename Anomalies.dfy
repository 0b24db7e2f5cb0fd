/** detect_anomalies: the rows strictly outside the rolling band
    mean +- 2 std, in row order, with the band itself. */
module AnomalyDetection {
  import opened Maybe
  import opened Stats
  import opened Records
  import opened Masks

  /** Width of the band in standard deviations (fixed in the source). */
  const Sigmas: real := 2.0

  /** The rows at the given positions, in that order. */
  function Pick(rows: seq<Row>, idx: seq<nat>): (r: seq<Row>)
    requires forall j :: 0 <= j < |idx| ==> idx[j] < |rows|
    ensures idx == seq(|rows|, i => i) ==> r == rows
  {
    seq(|idx|, j requires 0 <= j < |idx| => rows[idx[j]])
  }

  /** mean + 2 * std, missing wherever either operand is missing (NaN). */
  function UpperBound(mean: seq<Option<real>>, std: seq<Option<real>>): (u: seq<Option<real>>)
    requires |mean| == |std|
    ensures |u| == |mean|
  {
    seq(|mean|, i requires 0 <= i < |mean| =>
      if mean[i].Some? && std[i].Some? then Some(mean[i].value + Sigmas * std[i].value) else None)
  }

  /** mean - 2 * std, missing wherever either operand is missing (NaN). */
  function LowerBound(mean: seq<Option<real>>, std: seq<Option<real>>): (l: seq<Option<real>>)
    requires |mean| == |std|
    ensures |l| == |mean|
  {
    seq(|mean|, i requires 0 <= i < |mean| =>
      if mean[i].Some? && std[i].Some? then Some(mean[i].value - Sigmas * std[i].value) else None)
  }

  /** temperature > upper or temperature < lower; a comparison with a
      missing bound is false. */
  predicate OutsideBand(t: real, upper: Option<real>, lower: Option<real>)
  {
    (upper.Some? && t > upper.value) || (lower.Some? && t < lower.value)
  }

  /** The positions of the rows the mask of detect_anomalies selects. */
  function AnomalyIndices(rows: seq<Row>, mean: seq<Option<real>>, std: seq<Option<real>>): seq<nat>
    requires |mean| == |rows| && |std| == |rows|
  {
    var upper, lower := UpperBound(mean, std), LowerBound(mean, std);
    Positions(|rows|, (i: nat) => i < |rows| && OutsideBand(rows[i].temperature, upper[i], lower[i]))
  }

  datatype AnomalyReport = AnomalyReport(anomalies: seq<Row>, upperBound: seq<Option<real>>, lowerBound: seq<Option<real>>)

  /** detect_anomalies(data, rolling_mean, rolling_std). */
  function DetectAnomalies(rows: seq<Row>, mean: seq<Option<real>>, std: seq<Option<real>>): (r: AnomalyReport)
    requires |mean| == |rows| && |std| == |rows|
    ensures |r.anomalies| <= |rows|
    ensures |r.upperBound| == |rows| && |r.lowerBound| == |rows|
  {
    AnomalyReport(Pick(rows, AnomalyIndices(rows, mean, std)), UpperBound(mean, std), LowerBound(mean, std))
  }

  /** The bounds lie 2 std either side of the mean, are defined exactly
      where both mean and std are, and never cross for a std >= 0. */
  lemma BoundsAroundMean(rows: seq<Row>, mean: seq<Option<real>>, std: seq<Option<real>>, i: int)
    requires |mean| == |rows| && |std| == |rows| && 0 <= i < |rows|
    ensures var r := DetectAnomalies(rows, mean, std);
      && (r.upperBound[i].Some? <==> mean[i].Some? && std[i].Some?)
      && (r.lowerBound[i].Some? <==> mean[i].Some? && std[i].Some?)
      && (r.upperBound[i].Some? ==>
            r.upperBound[i].value - mean[i].value == 2.0 * std[i].value == mean[i].value - r.lowerBound[i].value)
      && (r.upperBound[i].Some? && std[i].value >= 0.0 ==> r.lowerBound[i].value <= r.upperBound[i].value)
  {
  }

  /** The anomalies are the input rows at strictly increasing positions (an
      order-preserving subsequence), and a position is among them exactly
      when its temperature is strictly above its upper bound or strictly
      below its lower bound. */
  lemma AnomaliesAreRowsOutsideBand(rows: seq<Row>, mean: seq<Option<real>>, std: seq<Option<real>>)
    requires |mean| == |rows| && |std| == |rows|
    ensures var r := DetectAnomalies(rows, mean, std);
      var idx := AnomalyIndices(rows, mean, std);
      && (forall j :: 0 <= j < |idx| ==> idx[j] < |rows| && r.anomalies[j] == rows[idx[j]])
      && |r.anomalies| == |idx|
      && (forall j, k :: 0 <= j < k < |idx| ==> idx[j] < idx[k])
      && (forall i :: 0 <= i < |rows| ==>
            (i in idx <==> OutsideBand(rows[i].temperature, r.upperBound[i], r.lowerBound[i])))
  {
  }

  /** A row whose mean or std is missing is never an anomaly. */
  lemma MissingBoundNeverFlags(rows: seq<Row>, mean: seq<Option<real>>, std: seq<Option<real>>, i: int)
    requires |mean| == |rows| && |std| == |rows| && 0 <= i < |rows|
    requires mean[i].None? || std[i].None?
    ensures i !in AnomalyIndices(rows, mean, std)
  {
  }

  /** The band test on the variance: (t - mean)^2 > 4 * variance. */
  predicate ExceedsVarianceBand(t: real, mean: Option<real>, variance: Option<real>)
  {
    mean.Some? && variance.Some? &&
    (t - mean.value) * (t - mean.value) > Sigmas * Sigmas * variance.value
  }

  function VarianceAnomalyIndices(rows: seq<Row>, mean: seq<Option<real>>, variance: seq<Option<real>>): seq<nat>
    requires |mean| == |rows| && |variance| == |rows|
  {
    Positions(|rows|, (i: nat) => i < |rows| && ExceedsVarianceBand(rows[i].temperature, mean[i], variance[i]))
  }

  /** The anomaly filter driven by rolling variances instead of rolling
      standard deviations. */
  function AnomaliesByVariance(rows: seq<Row>, mean: seq<Option<real>>, variance: seq<Option<real>>): (r: seq<Row>)
    requires |mean| == |rows| && |variance| == |rows|
    ensures |r| <= |rows|
  {
    Pick(rows, VarianceAnomalyIndices(rows, mean, variance))
  }

  /** std is, entry by entry, the square root of variance. */
  ghost predicate IsStdSeries(std: seq<Option<real>>, variance: seq<Option<real>>)
  {
    && |std| == |variance|
    && (forall i :: 0 <= i < |std| ==> (std[i].Some? <==> variance[i].Some?))
    && (forall i :: 0 <= i < |std| && std[i].Some? ==> IsStdOf(std[i].value, variance[i].value))
  }

  /** Fed with the square roots of the variances, detect_anomalies flags
      exactly the rows the variance test flags. */
  lemma StdAndVarianceDetectorsAgree(rows: seq<Row>, mean: seq<Option<real>>, std: seq<Option<real>>, variance: seq<Option<real>>)
    requires |mean| == |rows| && |std| == |rows| && IsStdSeries(std, variance)
    ensures DetectAnomalies(rows, mean, std).anomalies == AnomaliesByVariance(rows, mean, variance)
  {
    var upper, lower := UpperBound(mean, std), LowerBound(mean, std);
    var f := (i: nat) => i < |rows| && OutsideBand(rows[i].temperature, upper[i], lower[i]);
    var g := (i: nat) => i < |rows| && ExceedsVarianceBand(rows[i].temperature, mean[i], variance[i]);
    forall i | 0 <= i < |rows|
      ensures f(i) == g(i)
    {
      if mean[i].Some? && std[i].Some? {
        OutsideBandIffSquareExceeds(rows[i].temperature, mean[i].value, std[i].value, variance[i].value);
      }
    }
    PositionsAgree(|rows|, f, g);
  }

  /** Where every row sits exactly on its defined mean, nothing is flagged:
      a zero deviation never exceeds a band of width >= 0. */
  lemma NoDeviationNoAnomalies(rows: seq<Row>, mean: seq<Option<real>>, variance: seq<Option<real>>)
    requires |mean| == |rows| && |variance| == |rows|
    requires forall i :: 0 <= i < |rows| && mean[i].Some? && variance[i].Some? ==>
      rows[i].temperature == mean[i].value && variance[i].value >= 0.0
    ensures AnomaliesByVariance(rows, mean, variance) == []
  {
    PositionsNone(|rows|, (i: nat) => i < |rows| && ExceedsVarianceBand(rows[i].temperature, mean[i], variance[i]));
  }
}
