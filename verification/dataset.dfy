/** The in-memory data set the TOPSIS stages work on.

    The pandas frame has a header of column names; column 0 holds the row's
    identifier and columns 1 .. N hold numeric criterion values. Here a row is
    its identifier plus the criterion values, so criterion column i of the
    frame (1-based) is `values[i - 1]` of every row. */
module Dataset {

  datatype Row = Row(id: string, values: seq<real>)

  datatype Table = Table(header: seq<string>, rows: seq<Row>)

  /** The frame has an identifier column and every row has one value per
      criterion column. */
  predicate WellFormed(t: Table) {
    1 <= |t.header| &&
    forall k :: 0 <= k < |t.rows| ==> |t.rows[k].values| == |t.header| - 1
  }

  /** Number of criterion columns: every column but the identifier. */
  function Criteria(t: Table): nat
    requires WellFormed(t)
  {
    |t.header| - 1
  }

  /** The `j`-th criterion column (0-based), top to bottom. */
  function Column(t: Table, j: nat): (c: seq<real>)
    requires WellFormed(t) && j < Criteria(t)
    ensures |c| == |t.rows|
    ensures forall k :: 0 <= k < |c| ==> c[k] == t.rows[k].values[j]
  {
    seq(|t.rows|, k requires 0 <= k < |t.rows| => t.rows[k].values[j])
  }

  /** The square of a real, never negative. */
  function Sq(x: real): (r: real)
    ensures r >= 0.0
  {
    x * x
  }

  /** Only zero squares to zero. */
  lemma SqSign(x: real)
    ensures x == 0.0 || Sq(x) > 0.0
  {
    if x != 0.0 {
      calc {
        Sq(x);
        x * x;
      >
        0.0;
      }
    }
  }

  /** Sum of squares of a column: the square of its Euclidean norm. */
  function SumSq(s: seq<real>): (r: real)
    ensures r >= 0.0
  {
    if |s| == 0 then 0.0 else SumSq(s[..|s| - 1]) + Sq(s[|s| - 1])
  }

  /** Squared Euclidean distance between a row's criterion values and an
      ideal vector. */
  function SqDist(a: seq<real>, b: seq<real>): (r: real)
    requires |a| == |b|
    ensures r >= 0.0
  {
    if |a| == 0 then 0.0
    else SqDist(a[..|a| - 1], b[..|b| - 1]) + Sq(a[|a| - 1] - b[|b| - 1])
  }

  /** The sum of squares is at least the square of any one entry. */
  lemma {:induction false} SumSqDominates(s: seq<real>, k: nat)
    requires k < |s|
    ensures Sq(s[k]) <= SumSq(s)
  {
    var n := |s| - 1;
    if k < n {
      assert s[..n][k] == s[k];
      SumSqDominates(s[..n], k);
    }
  }

  /** The squared distance is at least the squared difference in any one
      column. */
  lemma {:induction false} SqDistDominates(a: seq<real>, b: seq<real>, k: nat)
    requires |a| == |b| && k < |a|
    ensures Sq(a[k] - b[k]) <= SqDist(a, b)
  {
    var n := |a| - 1;
    if k < n {
      assert a[..n][k] == a[k] && b[..n][k] == b[k];
      SqDistDominates(a[..n], b[..n], k);
    }
  }

  /** `r` is the non-negative square root of `x`, as `x ** 0.5` computes it. */
  predicate IsSqrt(r: real, x: real) {
    0.0 <= r && Sq(r) == x
  }

  /** A column with at least one nonzero value has a positive sum of squares,
      so its norm can be divided by. */
  lemma {:induction false} SumSqPositive(s: seq<real>, k: nat)
    requires k < |s| && s[k] != 0.0
    ensures SumSq(s) > 0.0
  {
    var n := |s| - 1;
    if k < n {
      assert s[..n][k] == s[k];
      SumSqPositive(s[..n], k);
    } else {
      SqSign(s[k]);
    }
  }

  /** The squared distance vanishes exactly when the two vectors coincide. */
  lemma {:induction false} SqDistZero(a: seq<real>, b: seq<real>)
    requires |a| == |b|
    ensures SqDist(a, b) == 0.0 <==> a == b
  {
    if |a| > 0 {
      var n := |a| - 1;
      SqDistZero(a[..n], b[..n]);
      if SqDist(a, b) == 0.0 {
        SqSign(a[n] - b[n]);
        assert a == a[..n] + [a[n]] && b == b[..n] + [b[n]];
      }
      if a == b {
        assert a[..n] == b[..n];
      }
    }
  }

  /** The square root of zero is zero, and only zero has that root. */
  lemma SqrtZero(r: real, x: real)
    requires IsSqrt(r, x)
    ensures r == 0.0 <==> x == 0.0
  {
    SqSign(r);
  }
}
