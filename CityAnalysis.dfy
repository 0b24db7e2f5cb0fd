/** analyze_city_data and analyze_long_term_trend: the per-city report,
    built from the rolling statistics, the anomaly filter, the yearly
    grouping and the (season, year) grouping of one city's rows. */
module CityAnalysis {
  import opened Maybe
  import opened Stats
  import opened Records
  import opened RollingStatistics
  import opened AnomalyDetection
  import opened Grouping
  import opened Ordering

  /** What analyze_city_data computes: the anomalies and the seasonal table
      it returns, plus the series its figures are drawn from (rolling mean,
      rolling variance, yearly table). */
  datatype CityReport = CityReport(
    rollingMean: seq<Option<real>>,
    rollingVariance: seq<Option<real>>,
    anomalies: seq<Row>,
    yearlyTrends: seq<GroupStats<int>>,
    seasonalStats: seq<GroupStats<(string, int)>>)

  /** Each temperature keyed by the calendar year of its timestamp. */
  function YearKeyed(rows: seq<Row>): seq<(int, real)>
  {
    seq(|rows|, i requires 0 <= i < |rows| => (rows[i].timestamp.year, rows[i].temperature))
  }

  /** Each temperature keyed by (season label, calendar year). */
  function SeasonYearKeyed(rows: seq<Row>): seq<((string, int), real)>
  {
    seq(|rows|, i requires 0 <= i < |rows| => ((rows[i].season, rows[i].timestamp.year), rows[i].temperature))
  }

  /** The temperatures of the rows of year y, in row order. */
  function TemperaturesInYear(rows: seq<Row>, y: int): seq<real>
  {
    Select(YearKeyed(rows), y)
  }

  /** The yearly_trends table of analyze_long_term_trend: grouped by year,
      mean and std (here its square) of the temperatures. */
  function YearlyTrends(rows: seq<Row>): seq<GroupStats<int>>
  {
    GroupBy(YearKeyed(rows), YearLess)
  }

  /** The seasonal_stats table of analyze_city_data. */
  function SeasonalStats(rows: seq<Row>): seq<GroupStats<(string, int)>>
  {
    GroupBy(SeasonYearKeyed(rows), SeasonYearLess)
  }

  /** Positions of the rows that are anomalies in the city's report. */
  function AnomalyPositions(rows: seq<Row>): seq<nat>
  {
    var t := Temperatures(rows);
    VarianceAnomalyIndices(rows, RollingMean(t, DefaultWindow), RollingVariance(t, DefaultWindow))
  }

  /** analyze_city_data on one city's rows (window 30). */
  function AnalyzeCity(rows: seq<Row>): CityReport
  {
    var t := Temperatures(rows);
    var mean := RollingMean(t, DefaultWindow);
    var variance := RollingVariance(t, DefaultWindow);
    CityReport(mean, variance, AnomaliesByVariance(rows, mean, variance), YearlyTrends(rows), SeasonalStats(rows))
  }

  /** The report's anomalies are the ones detect_anomalies returns when it is
      given the rolling mean and the rolling std (whatever square roots of
      the rolling variances are used): the rows strictly outside
      mean +- 2 std at their index, in row order. */
  lemma ReportAnomaliesMatchDetector(rows: seq<Row>, std: seq<Option<real>>)
    requires IsStdSeries(std, AnalyzeCity(rows).rollingVariance)
    ensures var r := AnalyzeCity(rows);
      r.anomalies == DetectAnomalies(rows, r.rollingMean, std).anomalies
  {
    var r := AnalyzeCity(rows);
    StdAndVarianceDetectorsAgree(rows, r.rollingMean, std, r.rollingVariance);
  }

  /** Some row falls in calendar year y. */
  ghost predicate HasYear(rows: seq<Row>, y: int)
  {
    exists i :: 0 <= i < |rows| && rows[i].timestamp.year == y
  }

  /** Year grouping: exactly one row per distinct calendar year (each year
      of the data appears, no other and none twice), in ascending order. */
  lemma YearlyTrendsOnePerYear(rows: seq<Row>)
    ensures var g := YearlyTrends(rows);
      && (forall y :: HasYear(rows, y) <==> exists j :: 0 <= j < |g| && g[j].key == y)
      && (forall i, j :: 0 <= i < j < |g| ==> g[i].key < g[j].key)
  {
    var ps := YearKeyed(rows);
    GroupByRows(ps, YearLess);
    YearLessIsStrictTotalOrder();
    GroupBySorted(ps, YearLess);
    forall y
      ensures HasYear(rows, y) <==> HasKey(ps, y)
    {
      if HasYear(rows, y) {
        var i :| 0 <= i < |rows| && rows[i].timestamp.year == y;
        assert ps[i].0 == y;
      }
    }
  }

  /** Each year's row holds the mean and the count of that year's
      temperatures, and the counts add up to the number of rows. */
  lemma YearlyTrendsMeans(rows: seq<Row>)
    ensures var g := YearlyTrends(rows);
      && (forall j :: 0 <= j < |g| ==>
            |TemperaturesInYear(rows, g[j].key)| == g[j].count >= 1 &&
            g[j].mean == Mean(TemperaturesInYear(rows, g[j].key)))
      && TotalCount(g) == |rows|
  {
    GroupByRows(YearKeyed(rows), YearLess);
    GroupCountsCoverRows(YearKeyed(rows), YearLess);
  }

  /** The group of year y holds exactly the temperatures of the rows of
      that year, in row order. */
  lemma {:induction false} TemperaturesInYearAreThatYears(rows: seq<Row>, y: int)
    ensures TemperaturesInYear(rows, y) == Temperatures(RowsInYear(rows, y))
  {
    if |rows| > 0 {
      var init := rows[..|rows| - 1];
      TemperaturesInYearAreThatYears(init, y);
      assert YearKeyed(rows) == YearKeyed(init) + [YearKeyed(rows)[|rows| - 1]];
      SelectAppend(YearKeyed(init), YearKeyed(rows)[|rows| - 1], y);
    }
  }

  /** data[data['timestamp'].dt.year == y]. */
  function RowsInYear(rows: seq<Row>, y: int): seq<Row>
  {
    if |rows| == 0 then []
    else RowsInYear(rows[..|rows| - 1], y) + (if rows[|rows| - 1].timestamp.year == y then [rows[|rows| - 1]] else [])
  }

  /** Some row carries season label s in calendar year y. */
  ghost predicate HasSeasonYear(rows: seq<Row>, s: string, y: int)
  {
    exists i :: 0 <= i < |rows| && rows[i].season == s && rows[i].timestamp.year == y
  }

  /** (season, year) grouping: one row per distinct (season label, year)
      pair, ordered by label then year. */
  lemma SeasonalStatsOnePerSeasonYear(rows: seq<Row>)
    ensures var g := SeasonalStats(rows);
      && (forall s, y :: HasSeasonYear(rows, s, y) <==> exists j :: 0 <= j < |g| && g[j].key == (s, y))
      && (forall i, j :: 0 <= i < j < |g| ==> SeasonYearLess(g[i].key, g[j].key))
  {
    var ps := SeasonYearKeyed(rows);
    GroupByRows(ps, SeasonYearLess);
    SeasonYearLessIsStrictTotalOrder();
    GroupBySorted(ps, SeasonYearLess);
    forall s, y
      ensures HasSeasonYear(rows, s, y) <==> HasKey(ps, (s, y))
    {
      if HasSeasonYear(rows, s, y) {
        var i :| 0 <= i < |rows| && rows[i].season == s && rows[i].timestamp.year == y;
        assert ps[i].0 == (s, y);
      }
    }
  }

  /** No (season, year) group is empty, and the counts add up to the number
      of rows. */
  lemma SeasonalStatsCounts(rows: seq<Row>)
    ensures var g := SeasonalStats(rows);
      && (forall j :: 0 <= j < |g| ==> g[j].count >= 1)
      && TotalCount(g) == |rows|
  {
    GroupByRows(SeasonYearKeyed(rows), SeasonYearLess);
    GroupCountsCoverRows(SeasonYearKeyed(rows), SeasonYearLess);
  }

  /** A constant-temperature series has rolling variance 0 wherever it is
      defined, so the strict band test flags nothing. */
  lemma ConstantSeriesHasNoAnomalies(rows: seq<Row>, c: real)
    requires forall i :: 0 <= i < |rows| ==> rows[i].temperature == c
    ensures AnalyzeCity(rows).anomalies == []
  {
    var t := Temperatures(rows);
    RollingConstant(t, DefaultWindow, c);
    RollingShape(t, DefaultWindow);
    NoDeviationNoAnomalies(rows, RollingMean(t, DefaultWindow), RollingVariance(t, DefaultWindow));
  }

  /** The statistics of a full window of 29 equal values followed by one
      value d away from them: mean c + d/30, sample variance d^2/30, and the
      last value is outside the band. */
  lemma SpikeWindowStatistics(w: seq<real>, c: real, d: real)
    requires |w| == 30 && d != 0.0
    requires Constant(w[..29], c) && w[29] == c + d
    ensures Mean(w) == c + d / 30.0
    ensures SampleVariance(w) == Some(d * d / 30.0)
    ensures ExceedsVarianceBand(w[29], Some(Mean(w)), SampleVariance(w))
  {
    var e := d / 30.0;
    assert w == w[..29] + [w[29]];
    SumConstant(w[..29], c);
    SumAppend(w[..29], w[29]);
    assert Sum(w) == 30.0 * c + d;
    assert Mean(w) == c + e;
    SumSqDevOfConstant(w[..29], c, c + e);
    SumSqDevAppend(w[..29], w[29], c + e);
    assert c - (c + e) == -e;
    assert w[29] - (c + e) == 29.0 * e;
    assert SumSqDev(w, c + e) == 870.0 * (e * e);
    assert d * d / 30.0 == 30.0 * (e * e);
    var q := e * e;
    SquarePositive(e, q);
    assert (w[29] - Mean(w)) * (w[29] - Mean(w)) == 841.0 * q;
    assert Sigmas * Sigmas * SampleVariance(w).value == 120.0 * q;
  }

  /** In an otherwise constant series, one value that differs is an anomaly
      exactly when its index has a full 30-value window behind it. */
  lemma SpikeFlaggedOnceWindowIsFull(rows: seq<Row>, c: real, d: real, p: nat)
    requires p < |rows| && d != 0.0
    requires forall i :: 0 <= i < |rows| && i != p ==> rows[i].temperature == c
    requires rows[p].temperature == c + d
    ensures p in AnomalyPositions(rows) <==> p >= DefaultWindow - 1
  {
    var t := Temperatures(rows);
    RollingShape(t, DefaultWindow);
    if p >= DefaultWindow - 1 {
      var w := Window(t, DefaultWindow, p);
      assert Constant(w[..29], c) by {
        forall k | 0 <= k < 29
          ensures w[..29][k] == c
        {
          assert w[k] == t[p - 29 + k];
        }
      }
      SpikeWindowStatistics(w, c, d);
    }
  }

  /** The column analyze_city_data adds in place: the month of each row. */
  function Months(rows: seq<Row>): (m: seq<int>)
    ensures |m| == |rows|
  {
    seq(|rows|, i requires 0 <= i < |rows| => rows[i].timestamp.month)
  }

  /** The city's slice of the table, which analyze_city_data extends in
      place with a month column. */
  class CityFrame {
    var rows: seq<Row>
    var month: Option<seq<int>>

    constructor (rows: seq<Row>)
      ensures this.rows == rows && month == None
    {
      this.rows := rows;
      month := None;
    }

    /** city_data['month'] = city_data['timestamp'].dt.month */
    method AddMonthColumn()
      modifies this
      ensures rows == old(rows)
      ensures month == Some(Months(rows))
    {
      var m := [];
      var i := 0;
      while i < |rows|
        invariant 0 <= i <= |rows|
        invariant m == Months(rows)[..i]
      {
        m := m + [rows[i].timestamp.month];
        i := i + 1;
      }
      assert Months(rows)[..i] == Months(rows);
      month := Some(m);
    }

    /** analyze_city_data(city_data): computes the rolling statistics step
        by step, and leaves the frame with its month column added and its
        rows unchanged. */
    method AnalyzeCityData() returns (report: CityReport)
      modifies this
      ensures report == AnalyzeCity(old(rows))
      ensures rows == old(rows)
      ensures month == Some(Months(rows))
    {
      var t := Temperatures(rows);
      var mean, variance := CalculateRollingStats(t, DefaultWindow);
      var anomalies := AnomaliesByVariance(rows, mean, variance);
      var yearly := YearlyTrends(rows);
      AddMonthColumn();
      var seasonal := SeasonalStats(rows);
      report := CityReport(mean, variance, anomalies, yearly, seasonal);
    }
  }
}
