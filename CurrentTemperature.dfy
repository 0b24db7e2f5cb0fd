/** get_current_season and check_current_temperature: a live reading
    compared with the city's history for the current season. The month of
    the current date is a parameter instead of a clock read. */
module CurrentTemperature {
  import opened Maybe
  import opened Stats
  import opened Records
  import opened AnomalyDetection
  import opened Masks

  datatype Season = Winter | Spring | Summer | Autumn

  /** The label the table uses for a season. */
  function Label(s: Season): string
  {
    match s
    case Winter => "winter"
    case Spring => "spring"
    case Summer => "summer"
    case Autumn => "autumn"
  }

  /** get_current_season(), given the month of today's date: an if/elif
      chain whose last branch catches every other month. */
  function GetCurrentSeason(month: int): (s: Season)
    ensures s == Winter <==> month == 12 || month == 1 || month == 2
    ensures s == Spring <==> month == 3 || month == 4 || month == 5
    ensures s == Summer <==> month == 6 || month == 7 || month == 8
    ensures s == Autumn <==> !(month == 12 || 1 <= month <= 8)
  {
    if month in [12, 1, 2] then Winter
    else if month in [3, 4, 5] then Spring
    else if month in [6, 7, 8] then Summer
    else Autumn
  }

  /** Independent reference: meteorological seasons are consecutive
      three-month blocks starting in December. */
  lemma SeasonsAreThreeMonthBlocks(month: int)
    requires 1 <= month <= 12
    ensures GetCurrentSeason(month) == [Winter, Spring, Summer, Autumn][(month % 12) / 3]
  {
  }

  /** The calendar months a season covers. */
  function MonthsOf(s: Season): set<int>
  {
    set m | 1 <= m <= 12 && GetCurrentSeason(m) == s
  }

  /** The table is total on the calendar and splits it evenly: every month
      has exactly one season, and each season has three months. */
  lemma SeasonsPartitionCalendar()
    ensures MonthsOf(Winter) == {12, 1, 2} && MonthsOf(Spring) == {3, 4, 5}
    ensures MonthsOf(Summer) == {6, 7, 8} && MonthsOf(Autumn) == {9, 10, 11}
    ensures forall s :: |MonthsOf(s)| == 3
    ensures forall m :: 1 <= m <= 12 ==> m in MonthsOf(GetCurrentSeason(m))
  {
    assert MonthsOf(Winter) == {12, 1, 2};
    assert MonthsOf(Spring) == {3, 4, 5};
    assert MonthsOf(Summer) == {6, 7, 8};
    assert MonthsOf(Autumn) == {9, 10, 11};
  }

  /** The positions of the rows labelled with the given season. */
  function SeasonPositions(rows: seq<Row>, tag: string): seq<nat>
  {
    Positions(|rows|, (i: nat) => i < |rows| && rows[i].season == tag)
  }

  /** city_data[city_data['season'] == current_season]. */
  function SeasonalSlice(rows: seq<Row>, tag: string): seq<Row>
  {
    Pick(rows, SeasonPositions(rows, tag))
  }

  /** The seasonal slice is exactly the rows carrying the tag, in their
      original order; it is empty exactly when no row carries it. */
  lemma SeasonalSliceIsMatchingRows(rows: seq<Row>, tag: string)
    ensures var idx := SeasonPositions(rows, tag);
      var slice := SeasonalSlice(rows, tag);
      && |slice| == |idx|
      && (forall j :: 0 <= j < |idx| ==> idx[j] < |rows| && slice[j] == rows[idx[j]])
      && (forall j, k :: 0 <= j < k < |idx| ==> idx[j] < idx[k])
      && (forall i :: 0 <= i < |rows| ==> (i in idx <==> rows[i].season == tag))
      && (|slice| == 0 <==> forall i :: 0 <= i < |rows| ==> rows[i].season != tag)
  {
    var idx := SeasonPositions(rows, tag);
    if |idx| > 0 {
      assert rows[idx[0]].season == tag;
    }
  }

  /** The dict check_current_temperature returns: the error entry, or the
      season, mean, anomaly flag and difference. */
  datatype CheckResult =
    | NoSeasonalData(season: Season)
    | Reading(season: Season, meanTemp: real, isAnomaly: bool, difference: real)

  /** check_current_temperature(current_temp, city_data) on the given month.
      The seasonal std is represented by its square, the sample variance;
      NaN (a single row) makes the comparison false. */
  function CheckCurrentTemperature(currentTemp: real, cityRows: seq<Row>, month: int): (r: CheckResult)
    ensures r.season == GetCurrentSeason(month)
    ensures r.NoSeasonalData? <==> forall i :: 0 <= i < |cityRows| ==> cityRows[i].season != Label(r.season)
    ensures r.Reading? ==> r.difference == currentTemp - r.meanTemp
  {
    var season := GetCurrentSeason(month);
    var slice := SeasonalSlice(cityRows, Label(season));
    SeasonalSliceIsMatchingRows(cityRows, Label(season));
    if |slice| == 0 then NoSeasonalData(season)
    else
      var temps := Temperatures(slice);
      var meanTemp := Mean(temps);
      var variance := SampleVariance(temps);
      var d := currentTemp - meanTemp;
      Reading(season, meanTemp, variance.Some? && d * d > Sigmas * Sigmas * variance.value, d)
  }

  /** The season's temperatures, in row order. */
  function SeasonTemperatures(cityRows: seq<Row>, month: int): seq<real>
  {
    Temperatures(SeasonalSlice(cityRows, Label(GetCurrentSeason(month))))
  }

  /** With history for the season, the reading is compared with the mean
      of exactly the season's temperatures, and is an anomaly iff
      |current - mean| > 2 std, strictly, for the std of those temperatures
      (sample std, square root of the sample variance). */
  lemma ReadingAgainstSeasonalStd(currentTemp: real, cityRows: seq<Row>, month: int, std: real)
    requires |SeasonTemperatures(cityRows, month)| >= 2
    requires IsStdOf(std, SampleVariance(SeasonTemperatures(cityRows, month)).value)
    ensures var r := CheckCurrentTemperature(currentTemp, cityRows, month);
      && r.Reading?
      && r.meanTemp == Mean(SeasonTemperatures(cityRows, month))
      && (r.isAnomaly <==> (if r.difference >= 0.0 then r.difference else -r.difference) > 2.0 * std)
  {
    var r := CheckCurrentTemperature(currentTemp, cityRows, month);
    AbsDeviationIffSquareExceeds(currentTemp, r.meanTemp, std, SampleVariance(SeasonTemperatures(cityRows, month)).value);
  }

  /** A single matching row has no sample std (NaN), so the reading is
      never an anomaly, whatever its value. */
  lemma SingleSeasonalRowNeverAnomalous(currentTemp: real, cityRows: seq<Row>, month: int)
    requires |SeasonTemperatures(cityRows, month)| == 1
    ensures var r := CheckCurrentTemperature(currentTemp, cityRows, month);
      r.Reading? && !r.isAnomaly && r.meanTemp == SeasonTemperatures(cityRows, month)[0]
  {
    var t := SeasonTemperatures(cityRows, month);
    assert t[..0] == [];
    assert Sum(t) == t[0];
  }

  /** When every row carries the label, the slice is the whole history. */
  lemma SeasonalSliceOfUniformHistory(rows: seq<Row>, tag: string)
    requires forall i :: 0 <= i < |rows| ==> rows[i].season == tag
    ensures SeasonalSlice(rows, tag) == rows
  {
    PositionsAll(|rows|, (i: nat) => i < |rows| && rows[i].season == tag);
  }

  /** Three summers of 23, 25 and 27 degrees. */
  function SummerHistory(): seq<Row>
  {
    [ Row("Moscow", Timestamp(2020, 6, 1), "summer", 23.0),
      Row("Moscow", Timestamp(2021, 7, 1), "summer", 25.0),
      Row("Moscow", Timestamp(2022, 8, 1), "summer", 27.0) ]
  }

  lemma SumOfThree(a: real, b: real, c: real, m: real)
    ensures Sum([a, b, c]) == a + b + c
    ensures SumSqDev([a, b, c], m) == (a - m) * (a - m) + (b - m) * (b - m) + (c - m) * (c - m)
  {
    assert [] + [a] == [a] && [a] + [b] == [a, b] && [a, b] + [c] == [a, b, c];
    SumAppend([], a);
    SumAppend([a], b);
    SumAppend([a, b], c);
    SumSqDevAppend([], a, m);
    SumSqDevAppend([a], b, m);
    SumSqDevAppend([a, b], c, m);
  }

  lemma SummerHistorySlice()
    ensures SeasonTemperatures(SummerHistory(), 7) == [23.0, 25.0, 27.0]
  {
    SeasonalSliceOfUniformHistory(SummerHistory(), "summer");
  }

  lemma SummerHistoryStatistics()
    ensures Mean([23.0, 25.0, 27.0]) == 25.0
    ensures SampleVariance([23.0, 25.0, 27.0]) == Some(4.0)
  {
    SumOfThree(23.0, 25.0, 27.0, 25.0);
  }

  /** With history for the season, the result is computed from exactly
      the season's temperatures. */
  lemma CheckOnSeasonTemperatures(currentTemp: real, cityRows: seq<Row>, month: int)
    requires |SeasonTemperatures(cityRows, month)| > 0
    ensures var t := SeasonTemperatures(cityRows, month);
      var m := Mean(t);
      var v := SampleVariance(t);
      CheckCurrentTemperature(currentTemp, cityRows, month) ==
        Reading(GetCurrentSeason(month), m, v.Some? && (currentTemp - m) * (currentTemp - m) > 4.0 * v.value, currentTemp - m)
  {
  }

  /** A summer history with mean 25 and std 2: in July a reading of 30 is
      an anomaly 5 degrees above the mean. */
  lemma SummerScenarioAnomaly()
    ensures CheckCurrentTemperature(30.0, SummerHistory(), 7) == Reading(Summer, 25.0, true, 5.0)
  {
    SummerHistorySlice();
    SummerHistoryStatistics();
    CheckOnSeasonTemperatures(30.0, SummerHistory(), 7);
  }

  /** On the same history a reading of 26 is within two std of the mean. */
  lemma SummerScenarioNormal()
    ensures CheckCurrentTemperature(26.0, SummerHistory(), 7) == Reading(Summer, 25.0, false, 1.0)
  {
    SummerHistorySlice();
    SummerHistoryStatistics();
    CheckOnSeasonTemperatures(26.0, SummerHistory(), 7);
  }

  /** In April the same history has no spring rows: an error, no statistics. */
  lemma SummerScenarioNoSpring()
    ensures CheckCurrentTemperature(0.0, SummerHistory(), 4) == NoSeasonalData(Spring)
  {
  }
}
