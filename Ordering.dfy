/** The key orders pandas sorts group keys by: integers ascending, and
    strings by Python's comparison (code point by code point, a proper
    prefix first), tuples component by component. */
module Ordering {
  import opened Grouping

  function YearLess(a: int, b: int): bool
  {
    a < b
  }

  /** Python's str < str. */
  function LexLess(a: string, b: string): bool
  {
    if |a| == 0 then |b| > 0
    else if |b| == 0 then false
    else a[0] < b[0] || (a[0] == b[0] && LexLess(a[1..], b[1..]))
  }

  /** (season, year) tuples compared component by component. */
  function SeasonYearLess(a: (string, int), b: (string, int)): bool
  {
    LexLess(a.0, b.0) || (a.0 == b.0 && a.1 < b.1)
  }

  lemma YearLessIsStrictTotalOrder()
    ensures StrictTotalOrder(YearLess)
  {
  }

  lemma {:induction false} LexLessIrreflexive(a: string)
    ensures !LexLess(a, a)
  {
    if |a| > 0 {
      LexLessIrreflexive(a[1..]);
    }
  }

  lemma {:induction false} LexLessTransitive(a: string, b: string, c: string)
    requires LexLess(a, b) && LexLess(b, c)
    ensures LexLess(a, c)
  {
    if |a| > 0 && a[0] == b[0] && b[0] == c[0] {
      LexLessTransitive(a[1..], b[1..], c[1..]);
    }
  }

  lemma {:induction false} LexLessConnected(a: string, b: string)
    requires a != b
    ensures LexLess(a, b) || LexLess(b, a)
  {
    if |a| > 0 && |b| > 0 && a[0] == b[0] {
      assert a == [a[0]] + a[1..] && b == [b[0]] + b[1..];
      LexLessConnected(a[1..], b[1..]);
    }
  }

  /** The order groupby(['season', year]) sorts its keys by is a strict
      total order, so its output rows are well ordered. */
  lemma SeasonYearLessIsStrictTotalOrder()
    ensures StrictTotalOrder(SeasonYearLess)
  {
    forall a: (string, int)
      ensures !SeasonYearLess(a, a)
    {
      LexLessIrreflexive(a.0);
    }
    forall a: (string, int), b: (string, int), c: (string, int) | SeasonYearLess(a, b) && SeasonYearLess(b, c)
      ensures SeasonYearLess(a, c)
    {
      if LexLess(a.0, b.0) && LexLess(b.0, c.0) {
        LexLessTransitive(a.0, b.0, c.0);
      }
    }
    forall a: (string, int), b: (string, int) | a != b
      ensures SeasonYearLess(a, b) || SeasonYearLess(b, a)
    {
      if a.0 != b.0 {
        LexLessConnected(a.0, b.0);
      }
    }
  }
}
