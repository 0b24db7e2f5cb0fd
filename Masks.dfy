/** Boolean-mask selection: the positions a mask such as
    data[data['city'] == city] keeps, in row order. */
module Masks {
  /** The indices below n at which flag holds, in ascending order: the row
      positions that a boolean mask selects. */
  function Positions(n: nat, flag: nat -> bool): (r: seq<nat>)
    ensures |r| <= n
    ensures forall j :: 0 <= j < |r| ==> r[j] < n && flag(r[j])
    ensures forall j, k :: 0 <= j < k < |r| ==> r[j] < r[k]
    ensures forall i :: 0 <= i < n && flag(i) ==> i in r
  {
    if n == 0 then [] else Positions(n - 1, flag) + (if flag(n - 1) then [n - 1] else [])
  }

  /** Two masks that agree on every row select the same positions. */
  lemma {:induction false} PositionsAgree(n: nat, f: nat -> bool, g: nat -> bool)
    requires forall i :: 0 <= i < n ==> f(i) == g(i)
    ensures Positions(n, f) == Positions(n, g)
  {
    if n > 0 {
      PositionsAgree(n - 1, f, g);
    }
  }

  /** A mask that selects no row gives no positions. */
  lemma {:induction false} PositionsNone(n: nat, flag: nat -> bool)
    requires forall i :: 0 <= i < n ==> !flag(i)
    ensures Positions(n, flag) == []
  {
    if n > 0 {
      PositionsNone(n - 1, flag);
    }
  }

  /** A mask that selects every row gives every position. */
  lemma {:induction false} PositionsAll(n: nat, flag: nat -> bool)
    requires forall i :: 0 <= i < n ==> flag(i)
    ensures Positions(n, flag) == seq(n, i => i)
  {
    if n > 0 {
      PositionsAll(n - 1, flag);
      assert seq(n, i => i) == seq(n - 1, i => i) + [n - 1];
    }
  }
}
