/** analyze_all_cities and analyze_city_data_for_city: the per-city report
    for every distinct city of the table, built either by a dict
    comprehension or by mapping over the city list in a process pool and
    turning the (city, report) pairs into a dict. */
module MultiCity {
  import opened Records
  import opened Grouping
  import opened Masks
  import opened CityAnalysis

  /** Each row keyed by its city. */
  function CityKeyed(data: seq<Row>): seq<(string, Row)>
  {
    seq(|data|, i requires 0 <= i < |data| => (data[i].city, data[i]))
  }

  /** data[data['city'] == city]: that city's rows, in table order. */
  function CitySlice(data: seq<Row>, city: string): seq<Row>
  {
    Select(CityKeyed(data), city)
  }

  /** data['city'].unique(): each city of the table once. The body keeps
      them in order of first appearance; no contract depends on that order. */
  function Cities(data: seq<Row>): seq<string>
  {
    Unique(seq(|data|, i requires 0 <= i < |data| => data[i].city))
  }

  /** Some row belongs to city. */
  ghost predicate HasCity(data: seq<Row>, city: string)
  {
    exists i :: 0 <= i < |data| && data[i].city == city
  }

  /** analyze_city_data_for_city(data, city). */
  function AnalyzeCityDataForCity(data: seq<Row>, city: string): (string, CityReport)
  {
    (city, AnalyzeCity(CitySlice(data, city)))
  }

  /** The sequential path: {city: analyze_city_data(data[data['city'] == city]) for city in cities}. */
  function SequentialResults(data: seq<Row>, cities: seq<string>): map<string, CityReport>
  {
    map city | city in cities :: AnalyzeCity(CitySlice(data, city))
  }

  /** dict(pairs): one entry per key, a later pair overriding an earlier one. */
  function DictOf<K, V>(pairs: seq<(K, V)>): map<K, V>
  {
    if |pairs| == 0 then map[]
    else DictOf(pairs[..|pairs| - 1])[pairs[|pairs| - 1].0 := pairs[|pairs| - 1].1]
  }

  /** The parallel path: dict(list(executor.map(partial(analyze_city_data_for_city, data), cities))).
      executor.map yields the results in the order of its input. */
  function ParallelResults(data: seq<Row>, cities: seq<string>): map<string, CityReport>
  {
    DictOf(seq(|cities|, i requires 0 <= i < |cities| => AnalyzeCityDataForCity(data, cities[i])))
  }

  /** analyze_all_cities(data, parallel), without the elapsed time. */
  function AnalyzeAllCities(data: seq<Row>, parallel: bool): map<string, CityReport>
  {
    var cities := Cities(data);
    if parallel then ParallelResults(data, cities) else SequentialResults(data, cities)
  }

  /** dict(pairs) holds exactly the keys of the pairs, and each key is
      mapped to the value of its last pair. */
  lemma {:induction false} DictOfLookup<K, V>(pairs: seq<(K, V)>, k: K)
    ensures k in DictOf(pairs) <==> exists i :: 0 <= i < |pairs| && pairs[i].0 == k
    ensures k in DictOf(pairs) ==>
      exists i :: 0 <= i < |pairs| && pairs[i] == (k, DictOf(pairs)[k]) && forall j :: i < j < |pairs| ==> pairs[j].0 != k
  {
    if |pairs| > 0 {
      var n := |pairs|;
      var init := pairs[..n - 1];
      DictOfLookup(init, k);
      if k != pairs[n - 1].0 && k in DictOf(pairs) {
        var i :| 0 <= i < n - 1 && init[i] == (k, DictOf(init)[k]) && forall j :: i < j < n - 1 ==> init[j].0 != k;
        assert pairs[i] == (k, DictOf(pairs)[k]);
        forall j | i < j < n
          ensures pairs[j].0 != k
        {
          if j < n - 1 {
            assert init[j] == pairs[j];
          }
        }
      }
      if exists i :: 0 <= i < n && pairs[i].0 == k {
        var i :| 0 <= i < n && pairs[i].0 == k;
        if i < n - 1 {
          assert init[i].0 == k;
        }
      }
    }
  }

  /** The two paths build the same mapping from any list of cities. */
  lemma ParallelMatchesSequential(data: seq<Row>, cities: seq<string>)
    ensures ParallelResults(data, cities) == SequentialResults(data, cities)
  {
    var pairs := seq(|cities|, i requires 0 <= i < |cities| => AnalyzeCityDataForCity(data, cities[i]));
    var par := ParallelResults(data, cities);
    var direct := SequentialResults(data, cities);
    forall k
      ensures k in par <==> k in direct
      ensures k in par ==> par[k] == direct[k]
    {
      DictOfLookup(pairs, k);
      if k in par {
        var i :| 0 <= i < |pairs| && pairs[i] == (k, par[k]);
        assert cities[i] == k;
      }
      if k in direct {
        var i :| 0 <= i < |cities| && cities[i] == k;
        assert pairs[i].0 == k;
      }
    }
  }

  /** The result maps each distinct city of the table, and nothing else, to
      the analysis of exactly that city's rows, whichever path is taken. */
  lemma AnalyzeAllCitiesMapsEachCity(data: seq<Row>, parallel: bool)
    ensures var m := AnalyzeAllCities(data, parallel);
      && (forall c :: c in m <==> HasCity(data, c))
      && (forall c :: c in m ==> m[c] == AnalyzeCity(CitySlice(data, c)))
  {
    var names := seq(|data|, i requires 0 <= i < |data| => data[i].city);
    ParallelMatchesSequential(data, Cities(data));
    forall c
      ensures c in Cities(data) <==> HasCity(data, c)
    {
      if HasCity(data, c) {
        var i :| 0 <= i < |data| && data[i].city == c;
        assert names[i] == c;
      }
    }
  }

  /** The parallel and the sequential run give the same result. */
  lemma ParallelFlagIrrelevant(data: seq<Row>)
    ensures AnalyzeAllCities(data, true) == AnalyzeAllCities(data, false)
  {
    ParallelMatchesSequential(data, Cities(data));
  }

  /** Each city's slice holds only rows of that city, and the sizes of the
      slices of the distinct cities add up to the number of rows. */
  lemma CitySlicesPartitionTable(data: seq<Row>)
    ensures forall c, j :: 0 <= j < |CitySlice(data, c)| ==> CitySlice(data, c)[j].city == c
    ensures TotalSelected(CityKeyed(data), Cities(data)) == |data|
  {
    forall c
      ensures forall j :: 0 <= j < |CitySlice(data, c)| ==> CitySlice(data, c)[j].city == c
    {
      SliceHasOnlyCity(data, c);
    }
    var ps := CityKeyed(data);
    forall i | 0 <= i < |ps|
      ensures ps[i].0 in Cities(data)
    {
      var names := seq(|data|, k requires 0 <= k < |data| => data[k].city);
      assert names[i] == ps[i].0;
    }
    SelectionsPartition(ps, Cities(data));
  }

  /** data[data['city'] == city] is exactly the rows of that city, in
      table order: the rows at the positions the mask selects, and a row
      is selected exactly when it belongs to the city. */
  lemma CitySliceIsCityRows(data: seq<Row>, c: string)
    ensures var idx := Positions(|data|, (i: nat) => i < |data| && data[i].city == c);
      var slice := CitySlice(data, c);
      && |slice| == |idx|
      && (forall j :: 0 <= j < |idx| ==> idx[j] < |data| && slice[j] == data[idx[j]])
      && (forall j, k :: 0 <= j < k < |idx| ==> idx[j] < idx[k])
      && (forall i :: 0 <= i < |data| ==> (i in idx <==> data[i].city == c))
  {
    var ps := CityKeyed(data);
    var g := (i: nat) => i < |data| && data[i].city == c;
    SelectIsMaskedValues(ps, c);
    assert |ps| == |data|;
    PositionsAgree(|data|, KeyMask(ps, c), g);
    var idx := Positions(|data|, g);
    assert |CitySlice(data, c)| == |idx|;
    forall j | 0 <= j < |idx|
      ensures CitySlice(data, c)[j] == data[idx[j]]
    {
      assert ps[idx[j]] == (data[idx[j]].city, data[idx[j]]);
    }
  }

  lemma {:induction false} SliceHasOnlyCity(data: seq<Row>, c: string)
    ensures forall j :: 0 <= j < |CitySlice(data, c)| ==> CitySlice(data, c)[j].city == c
  {
    if |data| > 0 {
      var init := data[..|data| - 1];
      SliceHasOnlyCity(init, c);
      assert CityKeyed(data) == CityKeyed(init) + [(data[|data| - 1].city, data[|data| - 1])];
      var last := data[|data| - 1];
      SelectAppend(CityKeyed(init), (last.city, last), c);
      assert CitySlice(data, c) == CitySlice(init, c) + (if last.city == c then [last] else []);
    }
  }
}
