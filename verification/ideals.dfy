/** The ideal and negative-ideal solutions: per criterion column, the best
    and the worst value any row attains, where "best" is the largest value for
    a column whose impact symbol is "+" and the smallest for any other
    (after validation: "-") column. */
module Ideals {
  import opened Dataset

  /** Largest element, as pandas' `Series.max()` computes it. */
  function Max(s: seq<real>): (m: real)
    requires |s| > 0
    ensures exists k :: 0 <= k < |s| && s[k] == m
    ensures forall k :: 0 <= k < |s| ==> s[k] <= m
  {
    if |s| == 1 then s[0]
    else
      var m' := Max(s[..|s| - 1]);
      if s[|s| - 1] > m' then s[|s| - 1] else m'
  }

  /** Smallest element, as pandas' `Series.min()` computes it. */
  function Min(s: seq<real>): (m: real)
    requires |s| > 0
    ensures exists k :: 0 <= k < |s| && s[k] == m
    ensures forall k :: 0 <= k < |s| ==> m <= s[k]
  {
    if |s| == 1 then s[0]
    else
      var m' := Min(s[..|s| - 1]);
      if s[|s| - 1] < m' then s[|s| - 1] else m'
  }

  /** Some row has value `v` in criterion column `j`. */
  predicate Attained(t: Table, j: nat, v: real)
    requires WellFormed(t) && j < Criteria(t)
  {
    exists k :: 0 <= k < |t.rows| && t.rows[k].values[j] == v
  }

  /** The extreme value of criterion column `j`: its largest value when
      `largest` holds, its smallest otherwise. Some row attains it and no row
      lies beyond it. */
  function Extreme(t: Table, j: nat, largest: bool): (v: real)
    requires WellFormed(t) && |t.rows| > 0 && j < Criteria(t)
    ensures Attained(t, j, v)
    ensures forall k :: 0 <= k < |t.rows| ==>
              if largest then t.rows[k].values[j] <= v else v <= t.rows[k].values[j]
  {
    var c := Column(t, j);
    var v := if largest then Max(c) else Min(c);
    assert exists k :: 0 <= k < |c| && c[k] == v;
    v
  }

  /** Value in every column attained by some row and no row beats: the
      largest for a "+" column, the smallest otherwise. */
  function PositiveIdeal(t: Table, impacts: seq<string>): (p: seq<real>)
    requires WellFormed(t) && |t.rows| > 0 && Criteria(t) <= |impacts|
    ensures |p| == Criteria(t)
    ensures forall j :: 0 <= j < |p| ==> Attained(t, j, p[j])
    ensures forall j, k :: 0 <= j < |p| && 0 <= k < |t.rows| && impacts[j] == "+" ==> t.rows[k].values[j] <= p[j]
    ensures forall j, k :: 0 <= j < |p| && 0 <= k < |t.rows| && impacts[j] != "+" ==> p[j] <= t.rows[k].values[j]
  {
    var r := seq(Criteria(t), j requires 0 <= j < Criteria(t) => Extreme(t, j, impacts[j] == "+"));
    forall j | 0 <= j < |r|
      ensures Attained(t, j, r[j])
      ensures forall k :: 0 <= k < |t.rows| && impacts[j] == "+" ==> t.rows[k].values[j] <= r[j]
      ensures forall k :: 0 <= k < |t.rows| && impacts[j] != "+" ==> r[j] <= t.rows[k].values[j]
    {
      var e := Extreme(t, j, impacts[j] == "+");
      assert r[j] == e;
    }
    r
  }

  /** Value in every column attained by some row and beating no row: the
      smallest for a "+" column, the largest otherwise. */
  function NegativeIdeal(t: Table, impacts: seq<string>): (n: seq<real>)
    requires WellFormed(t) && |t.rows| > 0 && Criteria(t) <= |impacts|
    ensures |n| == Criteria(t)
    ensures forall j :: 0 <= j < |n| ==> Attained(t, j, n[j])
    ensures forall j, k :: 0 <= j < |n| && 0 <= k < |t.rows| && impacts[j] == "+" ==> n[j] <= t.rows[k].values[j]
    ensures forall j, k :: 0 <= j < |n| && 0 <= k < |t.rows| && impacts[j] != "+" ==> t.rows[k].values[j] <= n[j]
  {
    var r := seq(Criteria(t), j requires 0 <= j < Criteria(t) => Extreme(t, j, impacts[j] != "+"));
    forall j | 0 <= j < |r|
      ensures Attained(t, j, r[j])
      ensures forall k :: 0 <= k < |t.rows| && impacts[j] == "+" ==> r[j] <= t.rows[k].values[j]
      ensures forall k :: 0 <= k < |t.rows| && impacts[j] != "+" ==> t.rows[k].values[j] <= r[j]
    {
      var e := Extreme(t, j, impacts[j] != "+");
      assert r[j] == e;
    }
    r
  }

  /** Builds both ideal vectors column by column, appending the column's
      maximum and minimum in the order the impact symbol asks for. */
  method IdealSolutions(t: Table, impacts: seq<string>) returns (pos: seq<real>, neg: seq<real>)
    requires WellFormed(t) && |t.rows| > 0 && Criteria(t) <= |impacts|
    ensures pos == PositiveIdeal(t, impacts) && neg == NegativeIdeal(t, impacts)
  {
    pos, neg := [], [];
    for i := 1 to |t.header|
      invariant |pos| == |neg| == i - 1
      invariant forall j :: 0 <= j < i - 1 ==>
                  pos[j] == Extreme(t, j, impacts[j] == "+") && neg[j] == Extreme(t, j, impacts[j] != "+")
    {
      var column := Column(t, i - 1);
      if impacts[i - 1] == "+" {
        pos := pos + [Max(column)];
        neg := neg + [Min(column)];
      } else {
        pos := pos + [Min(column)];
        neg := neg + [Max(column)];
      }
    }
  }

  /** Every row lies between the two ideals, column by column, in the
      direction the impact symbol gives. */
  lemma IdealsBracketRows(t: Table, impacts: seq<string>, k: nat, j: nat)
    requires WellFormed(t) && |t.rows| > 0 && Criteria(t) <= |impacts|
    requires k < |t.rows| && j < Criteria(t)
    ensures impacts[j] == "+" ==>
              NegativeIdeal(t, impacts)[j] <= t.rows[k].values[j] <= PositiveIdeal(t, impacts)[j]
    ensures impacts[j] != "+" ==>
              PositiveIdeal(t, impacts)[j] <= t.rows[k].values[j] <= NegativeIdeal(t, impacts)[j]
  {
  }

  /** A criterion column is constant when all rows agree on it. */
  predicate ColumnConstant(t: Table, j: nat)
    requires WellFormed(t) && j < Criteria(t)
  {
    forall a, b :: 0 <= a < |t.rows| && 0 <= b < |t.rows| ==> t.rows[a].values[j] == t.rows[b].values[j]
  }

  /** The two ideals agree on a column exactly when that column is constant. */
  lemma IdealsMeetIffConstant(t: Table, impacts: seq<string>, j: nat)
    requires WellFormed(t) && |t.rows| > 0 && Criteria(t) <= |impacts|
    requires j < Criteria(t)
    ensures PositiveIdeal(t, impacts)[j] == NegativeIdeal(t, impacts)[j] <==> ColumnConstant(t, j)
  {
    var p, n := PositiveIdeal(t, impacts)[j], NegativeIdeal(t, impacts)[j];
    if ColumnConstant(t, j) {
      var a :| 0 <= a < |t.rows| && t.rows[a].values[j] == p;
      var b :| 0 <= b < |t.rows| && t.rows[b].values[j] == n;
    } else {
      var a, b :| 0 <= a < |t.rows| && 0 <= b < |t.rows| && t.rows[a].values[j] != t.rows[b].values[j];
      IdealsBracketRows(t, impacts, a, j);
      IdealsBracketRows(t, impacts, b, j);
    }
  }
}
