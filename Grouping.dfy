/** DataFrame.groupby(key)[column].agg(['mean', 'std', 'count']) with
    pandas' default sort=True: one row per distinct key, in ascending key
    order, each summarising exactly the values of that key. Also
    Series.unique(): each distinct value once. */
module Grouping {
  import opened Maybe
  import opened Stats
  import opened Masks

  ghost predicate NoDuplicates<K>(ks: seq<K>)
  {
    forall i, j :: 0 <= i < j < |ks| ==> ks[i] != ks[j]
  }

  ghost predicate SortedBy<K>(ks: seq<K>, less: (K, K) -> bool)
  {
    forall i, j :: 0 <= i < j < |ks| ==> less(ks[i], ks[j])
  }

  ghost predicate StrictTotalOrder<K(!new)>(less: (K, K) -> bool)
  {
    && (forall a :: !less(a, a))
    && (forall a, b, c :: less(a, b) && less(b, c) ==> less(a, c))
    && (forall a, b :: a != b ==> less(a, b) || less(b, a))
  }

  /** Some row has key k. */
  ghost predicate HasKey<K, V>(ps: seq<(K, V)>, k: K)
  {
    exists i :: 0 <= i < |ps| && ps[i].0 == k
  }

  /** The values of the rows whose key is k, in row order: the group of k. */
  function Select<K(==,!new), V>(ps: seq<(K, V)>, k: K): (r: seq<V>)
    ensures |r| <= |ps|
    ensures |r| > 0 <==> HasKey(ps, k)
  {
    if |ps| == 0 then []
    else
      var init := ps[..|ps| - 1];
      assert forall i :: 0 <= i < |init| ==> init[i] == ps[i];
      Select(init, k) + (if ps[|ps| - 1].0 == k then [ps[|ps| - 1].1] else [])
  }

  lemma SelectAppend<K(!new), V>(ps: seq<(K, V)>, p: (K, V), k: K)
    ensures Select(ps + [p], k) == Select(ps, k) + (if p.0 == k then [p.1] else [])
  {
    assert (ps + [p])[..|ps|] == ps;
  }

  /** The mask key == k over the rows. */
  function KeyMask<K(==), V>(ps: seq<(K, V)>, k: K): nat -> bool
  {
    (i: nat) => i < |ps| && ps[i].0 == k
  }

  /** The group of k holds exactly the values of the rows that the mask
      key == k selects, in row order. */
  lemma {:induction false} SelectIsMaskedValues<K(!new), V>(ps: seq<(K, V)>, k: K)
    ensures var idx := Positions(|ps|, KeyMask(ps, k));
      Select(ps, k) == seq(|idx|, j requires 0 <= j < |idx| => ps[idx[j]].1)
  {
    if |ps| > 0 {
      var n := |ps|;
      var init := ps[..n - 1];
      SelectIsMaskedValues(init, k);
      var f, g := KeyMask(ps, k), KeyMask(init, k);
      forall i | 0 <= i < n - 1
        ensures f(i) == g(i)
      {
        assert init[i] == ps[i];
      }
      PositionsAgree(n - 1, f, g);
      var idx, front := Positions(n, f), Positions(n - 1, g);
      assert idx == front + (if ps[n - 1].0 == k then [n - 1] else []);
      var vals := seq(|idx|, j requires 0 <= j < |idx| => ps[idx[j]].1);
      assert vals[..|front|] == seq(|front|, j requires 0 <= j < |front| => init[front[j]].1);
    }
  }

  /** Series.unique(): each value once, and no other value. The body keeps
      them in order of first appearance; the contract does not state the order. */
  function Unique<K(==,!new)>(s: seq<K>): (u: seq<K>)
    ensures NoDuplicates(u)
    ensures forall x :: x in u <==> x in s
  {
    if |s| == 0 then []
    else
      var u := Unique(s[..|s| - 1]);
      assert forall x :: x in s <==> x in s[..|s| - 1] || x == s[|s| - 1];
      if s[|s| - 1] in u then u else u + [s[|s| - 1]]
  }

  /** Inserts k at its place in an ascending key list. */
  function InsertSorted<K(==,!new)>(ks: seq<K>, k: K, less: (K, K) -> bool): (r: seq<K>)
    ensures |r| == |ks| + 1
    ensures forall x :: x in r <==> x in ks || x == k
    ensures NoDuplicates(ks) && k !in ks ==> NoDuplicates(r)
  {
    if |ks| == 0 || less(k, ks[0]) then [k] + ks
    else
      var rest := InsertSorted(ks[1..], k, less);
      assert forall x :: x in ks <==> x == ks[0] || x in ks[1..];
      assert NoDuplicates(ks) && k !in ks ==> NoDuplicates(ks[1..]) && ks[0] !in rest && NoDuplicates([ks[0]] + rest);
      [ks[0]] + rest
  }

  lemma {:induction false} InsertSortedKeepsOrder<K(!new)>(ks: seq<K>, k: K, less: (K, K) -> bool)
    requires StrictTotalOrder(less) && SortedBy(ks, less) && k !in ks
    ensures SortedBy(InsertSorted(ks, k, less), less)
  {
    if |ks| > 0 && !less(k, ks[0]) {
      InsertSortedKeepsOrder(ks[1..], k, less);
      var rest := InsertSorted(ks[1..], k, less);
      assert less(ks[0], k);
      forall x | x in rest
        ensures less(ks[0], x)
      {
        if x != k {
          var j :| 1 <= j < |ks| && ks[j] == x;
        }
      }
    }
  }

  /** The distinct keys of the rows, ascending under less. */
  function DistinctKeys<K(==,!new), V>(ps: seq<(K, V)>, less: (K, K) -> bool): (ks: seq<K>)
    ensures NoDuplicates(ks)
    ensures forall k :: k in ks <==> HasKey(ps, k)
  {
    if |ps| == 0 then []
    else
      var init := ps[..|ps| - 1];
      var ks := DistinctKeys(init, less);
      var k := ps[|ps| - 1].0;
      assert forall x :: HasKey(ps, x) <==> HasKey(init, x) || x == k by {
        forall x | HasKey(ps, x) && x != k
          ensures HasKey(init, x)
        {
          var i :| 0 <= i < |ps| && ps[i].0 == x;
          assert init[i] == ps[i];
        }
        forall x | HasKey(init, x)
          ensures HasKey(ps, x)
        {
          var i :| 0 <= i < |init| && init[i].0 == x;
          assert ps[i] == init[i];
        }
      }
      if k in ks then ks else InsertSorted(ks, k, less)
  }

  lemma {:induction false} DistinctKeysSorted<K(!new), V>(ps: seq<(K, V)>, less: (K, K) -> bool)
    requires StrictTotalOrder(less)
    ensures SortedBy(DistinctKeys(ps, less), less)
  {
    if |ps| > 0 {
      var init := ps[..|ps| - 1];
      DistinctKeysSorted(init, less);
      var k := ps[|ps| - 1].0;
      if k !in DistinctKeys(init, less) {
        InsertSortedKeepsOrder(DistinctKeys(init, less), k, less);
      }
    }
  }

  /** One output row of the aggregation: mean, variance (std squared) and
      count of one group. */
  datatype GroupStats<K> = GroupStats(key: K, mean: real, variance: Option<real>, count: nat)

  function Summarize<K>(k: K, vals: seq<real>): GroupStats<K>
    requires |vals| > 0
  {
    GroupStats(k, Mean(vals), SampleVariance(vals), |vals|)
  }

  /** groupby(key).agg(['mean', 'std', 'count']).reset_index(). */
  function GroupBy<K(==,!new)>(ps: seq<(K, real)>, less: (K, K) -> bool): (g: seq<GroupStats<K>>)
  {
    var ks := DistinctKeys(ps, less);
    seq(|ks|, i requires 0 <= i < |ks| => Summarize(ks[i], Select(ps, ks[i])))
  }

  /** One row per distinct key (each key of the input appears, none twice,
      no other), each summarising exactly the values of its key in row
      order; a group is never empty. */
  lemma GroupByRows<K(!new)>(ps: seq<(K, real)>, less: (K, K) -> bool)
    ensures var g := GroupBy(ps, less);
      && (forall k :: HasKey(ps, k) <==> exists j :: 0 <= j < |g| && g[j].key == k)
      && (forall i, j :: 0 <= i < j < |g| ==> g[i].key != g[j].key)
      && (forall j :: 0 <= j < |g| ==>
            var vals := Select(ps, g[j].key);
            && g[j].count == |vals| >= 1
            && g[j].mean == Mean(vals)
            && g[j].variance == SampleVariance(vals))
  {
    var ks := DistinctKeys(ps, less);
    var g := GroupBy(ps, less);
    forall k | HasKey(ps, k)
      ensures exists j :: 0 <= j < |g| && g[j].key == k
    {
      var j :| 0 <= j < |ks| && ks[j] == k;
      assert g[j].key == k;
    }
  }

  /** The groups come out in ascending key order. */
  lemma GroupBySorted<K(!new)>(ps: seq<(K, real)>, less: (K, K) -> bool)
    requires StrictTotalOrder(less)
    ensures var g := GroupBy(ps, less);
      forall i, j :: 0 <= i < j < |g| ==> less(g[i].key, g[j].key)
  {
    DistinctKeysSorted(ps, less);
  }

  /** Total size of the groups of the given keys. */
  function TotalSelected<K(==,!new), V>(ps: seq<(K, V)>, ks: seq<K>): nat
  {
    if |ks| == 0 then 0 else TotalSelected(ps, ks[..|ks| - 1]) + |Select(ps, ks[|ks| - 1])|
  }

  lemma {:induction false} TotalSelectedAppendRow<K(!new), V>(ps: seq<(K, V)>, p: (K, V), ks: seq<K>)
    requires NoDuplicates(ks)
    ensures TotalSelected(ps + [p], ks) == TotalSelected(ps, ks) + (if p.0 in ks then 1 else 0)
  {
    if |ks| > 0 {
      var init := ks[..|ks| - 1];
      var k := ks[|ks| - 1];
      TotalSelectedAppendRow(ps, p, init);
      SelectAppend(ps, p, k);
      assert k !in init;
      assert p.0 in ks <==> p.0 in init || p.0 == k;
    }
  }

  /** Grouping partitions the rows: over a duplicate-free list of keys
      that covers every row's key, the group sizes add up to the number of
      rows. */
  lemma {:induction false} SelectionsPartition<K(!new), V>(ps: seq<(K, V)>, ks: seq<K>)
    requires NoDuplicates(ks)
    requires forall i :: 0 <= i < |ps| ==> ps[i].0 in ks
    ensures TotalSelected(ps, ks) == |ps|
  {
    if |ps| > 0 {
      var init := ps[..|ps| - 1];
      var p := ps[|ps| - 1];
      assert forall i :: 0 <= i < |init| ==> init[i] == ps[i];
      assert p.0 in ks;
      SelectionsPartition(init, ks);
      TotalSelectedAppendRow(init, p, ks);
      assert init + [p] == ps;
    } else {
      TotalSelectedNoRows(ps, ks);
    }
  }

  lemma {:induction false} TotalSelectedNoRows<K(!new), V>(ps: seq<(K, V)>, ks: seq<K>)
    requires |ps| == 0
    ensures TotalSelected(ps, ks) == 0
  {
    if |ks| > 0 {
      TotalSelectedNoRows(ps, ks[..|ks| - 1]);
    }
  }

  /** Sum of the count column. */
  function TotalCount<K>(g: seq<GroupStats<K>>): nat
  {
    if |g| == 0 then 0 else TotalCount(g[..|g| - 1]) + g[|g| - 1].count
  }

  /** The counts of the aggregation add up to the number of input rows. */
  lemma GroupCountsCoverRows<K(!new)>(ps: seq<(K, real)>, less: (K, K) -> bool)
    ensures TotalCount(GroupBy(ps, less)) == |ps|
  {
    var ks := DistinctKeys(ps, less);
    var g := GroupBy(ps, less);
    forall i | 0 <= i < |ps|
      ensures ps[i].0 in ks
    {
      assert HasKey(ps, ps[i].0);
    }
    SelectionsPartition(ps, ks);
    CountPrefix(ps, less, |ks|);
    assert |g| == |ks|;
    assert g[..|ks|] == g;
    assert ks[..|ks|] == ks;
  }

  lemma {:induction false} CountPrefix<K(!new)>(ps: seq<(K, real)>, less: (K, K) -> bool, m: nat)
    requires m <= |DistinctKeys(ps, less)|
    ensures var ks := DistinctKeys(ps, less);
      TotalCount(GroupBy(ps, less)[..m]) == TotalSelected(ps, ks[..m])
  {
    var ks := DistinctKeys(ps, less);
    var g := GroupBy(ps, less);
    if m > 0 {
      CountPrefix(ps, less, m - 1);
      assert g[..m][..m - 1] == g[..m - 1];
      assert ks[..m][..m - 1] == ks[..m - 1];
    }
  }
}
