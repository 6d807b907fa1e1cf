/** Weighted column normalisation: every criterion value is divided by the
    Euclidean norm of its column and multiplied by the column's weight. The
    norms are supplied by the caller (Dafny has no square root on `real`);
    `NormsOf` says what they must be. */
module Normalization {
  import opened Dataset

  /** `norms[j]` is the (nonzero) Euclidean norm of criterion column `j`. */
  predicate NormsOf(t: Table, norms: seq<real>)
    requires WellFormed(t)
  {
    |norms| == Criteria(t) &&
    forall j :: 0 <= j < |norms| ==> IsSqrt(norms[j], SumSq(Column(t, j))) && norms[j] != 0.0
  }

  /** The normalised frame: same header, same identifiers, every criterion
      cell rescaled by its column's weight over its column's norm. */
  function Normalized(t: Table, norms: seq<real>, weights: seq<int>): (r: Table)
    requires WellFormed(t) && NormsOf(t, norms) && Criteria(t) <= |weights|
    ensures WellFormed(r) && r.header == t.header && |r.rows| == |t.rows|
  {
    Table(t.header,
          seq(|t.rows|, k requires 0 <= k < |t.rows| =>
            Row(t.rows[k].id,
                seq(Criteria(t), j requires 0 <= j < Criteria(t) =>
                  t.rows[k].values[j] / norms[j] * (weights[j] as real)))))
  }

  /** `row` with its first `m` criterion cells normalised and the others
      as they were: the state of a row after `m` rounds of the column loop. */
  function PartlyNormalized(row: Row, norms: seq<real>, weights: seq<int>, m: nat): Row
    requires m <= |row.values| <= |norms| && |row.values| <= |weights|
    requires forall j :: 0 <= j < |norms| ==> norms[j] != 0.0
  {
    Row(row.id, seq(|row.values|, j requires 0 <= j < |row.values| =>
                      if j < m then row.values[j] / norms[j] * (weights[j] as real) else row.values[j]))
  }

  /** Copies the frame, then overwrites one criterion column at a time with
      its rescaled values, reading from the original frame. */
  method Normalize(t: Table, norms: seq<real>, weights: seq<int>) returns (r: Table)
    requires WellFormed(t) && NormsOf(t, norms) && Criteria(t) <= |weights|
    ensures WellFormed(r) && r.header == t.header && |r.rows| == |t.rows|
    ensures forall k :: 0 <= k < |r.rows| ==> r.rows[k].id == t.rows[k].id
    ensures forall k, j :: 0 <= k < |r.rows| && 0 <= j < Criteria(t) ==>
              r.rows[k].values[j] == t.rows[k].values[j] / norms[j] * (weights[j] as real)
    ensures r == Normalized(t, norms, weights)
  {
    r := t;
    for i := 1 to |t.header|
      invariant r.header == t.header && |r.rows| == |t.rows|
      invariant forall k :: 0 <= k < |r.rows| ==> r.rows[k] == PartlyNormalized(t.rows[k], norms, weights, i - 1)
    {
      var rows := RescaleColumn(r.rows, t.rows, i - 1, norms[i - 1], weights[i - 1] as real);
      forall k | 0 <= k < |rows|
        ensures rows[k] == PartlyNormalized(t.rows[k], norms, weights, i)
      {
        RescaleStep(t.rows[k], norms, weights, i - 1);
      }
      r := r.(rows := rows);
    }
    ghost var n := Normalized(t, norms, weights);
    forall k | 0 <= k < |r.rows|
      ensures r.rows[k] == n.rows[k]
    {
      assert n.rows[k].values == PartlyNormalized(t.rows[k], norms, weights, Criteria(t)).values;
    }
    assert r.rows == n.rows;
    NormalizedCells(t, norms, weights);
  }

  /** Normalisation leaves the identifier column alone and rescales every
      criterion cell of every row. */
  lemma NormalizedCells(t: Table, norms: seq<real>, weights: seq<int>)
    requires WellFormed(t) && NormsOf(t, norms) && Criteria(t) <= |weights|
    ensures forall k :: 0 <= k < |t.rows| ==> Normalized(t, norms, weights).rows[k].id == t.rows[k].id
    ensures forall k, j :: 0 <= k < |t.rows| && 0 <= j < Criteria(t) ==>
              Normalized(t, norms, weights).rows[k].values[j] == t.rows[k].values[j] / norms[j] * (weights[j] as real)
  {
  }

  /** `row` with cell `j` replaced by the matching cell of `source` divided
      by `norm` and multiplied by `weight`. */
  function Rescaled(row: Row, source: Row, j: nat, norm: real, weight: real): Row
    requires j < |row.values| && j < |source.values| && norm != 0.0
  {
    row.(values := row.values[j := source.values[j] / norm * weight])
  }

  /** One round of the column loop takes a row from `m` normalised cells to `m + 1`. */
  lemma RescaleStep(row: Row, norms: seq<real>, weights: seq<int>, m: nat)
    requires m < |row.values| <= |norms| && |row.values| <= |weights|
    requires forall j :: 0 <= j < |norms| ==> norms[j] != 0.0
    ensures Rescaled(PartlyNormalized(row, norms, weights, m), row, m, norms[m], weights[m] as real)
            == PartlyNormalized(row, norms, weights, m + 1)
  {
    var before := PartlyNormalized(row, norms, weights, m);
    var after := PartlyNormalized(row, norms, weights, m + 1);
    var stepped := Rescaled(before, row, m, norms[m], weights[m] as real);
    forall j | 0 <= j < |row.values|
      ensures stepped.values[j] == after.values[j]
    {
      if j < m {
        assert stepped.values[j] == before.values[j];
      }
    }
    assert stepped.values == after.values;
  }

  /** Overwrites cell `j` of every row with the matching cell of `source`
      divided by `norm` and multiplied by `weight`; nothing else changes. */
  method RescaleColumn(rows: seq<Row>, source: seq<Row>, j: nat, norm: real, weight: real)
    returns (out: seq<Row>)
    requires |rows| == |source| && norm != 0.0
    requires forall p :: 0 <= p < |rows| ==> j < |rows[p].values| && j < |source[p].values|
    ensures |out| == |rows|
    ensures forall p :: 0 <= p < |out| ==> out[p] == Rescaled(rows[p], source[p], j, norm, weight)
  {
    out := rows;
    for k := 0 to |rows|
      invariant |out| == |rows|
      invariant forall p :: 0 <= p < k ==> out[p] == Rescaled(rows[p], source[p], j, norm, weight)
      invariant forall p :: k <= p < |out| ==> out[p] == rows[p]
    {
      out := out[k := Rescaled(out[k], source[k], j, norm, weight)];
    }
  }

  /** Scaling every entry by `f` scales the sum of squares by `f` squared. */
  lemma {:induction false} SumSqScaled(s: seq<real>, u: seq<real>, f: real)
    requires |s| == |u|
    requires forall k :: 0 <= k < |s| ==> u[k] == s[k] * f
    ensures SumSq(u) == SumSq(s) * Sq(f)
  {
    if |s| > 0 {
      var n := |s| - 1;
      var s', u' := s[..n], u[..n];
      assert forall k :: 0 <= k < n ==> u'[k] == s'[k] * f;
      SumSqScaled(s', u', f);
      assert Sq(u[n]) == Sq(s[n]) * Sq(f) by {
        SqMul(s[n], f);
      }
      Distribute(SumSq(s'), Sq(s[n]), Sq(f));
    }
  }

  lemma Distribute(a: real, b: real, c: real)
    ensures a * c + b * c == (a + b) * c
  {
  }

  lemma SqMul(a: real, f: real)
    ensures Sq(a * f) == Sq(a) * Sq(f)
  {
    calc {
      Sq(a * f);
      (a * f) * (a * f);
      (a * a) * (f * f);
    }
  }

  /** After normalisation criterion column `j` has Euclidean norm equal to
      the absolute value of its weight: its sum of squares is the weight
      squared. */
  lemma NormalizedColumnNorm(t: Table, norms: seq<real>, weights: seq<int>, j: nat)
    requires WellFormed(t) && NormsOf(t, norms) && Criteria(t) <= |weights|
    requires j < Criteria(t)
    ensures SumSq(Column(Normalized(t, norms, weights), j)) == Sq(weights[j] as real)
  {
    var c, n, w := Column(t, j), norms[j], weights[j] as real;
    var u := Column(Normalized(t, norms, weights), j);
    forall k | 0 <= k < |c|
      ensures u[k] == c[k] * (w / n)
    {
      Regroup(c[k], n, w);
    }
    SumSqScaled(c, u, w / n);
    NormCancels(SumSq(c), n, w);
  }

  lemma Regroup(x: real, n: real, w: real)
    requires n != 0.0
    ensures x / n * w == x * (w / n)
  {
  }

  /** Scaling a column of squared norm `n * n` by `w / n` leaves squared norm `w * w`. */
  lemma NormCancels(s: real, n: real, w: real)
    requires n != 0.0 && Sq(n) == s
    ensures s * Sq(w / n) == Sq(w)
  {
    calc {
      s * Sq(w / n);
      (n * n) * ((w / n) * (w / n));
      (n * (w / n)) * (n * (w / n));
      { assert n * (w / n) == w; }
      w * w;
    }
  }

  /** A nonzero weight keeps two cells of a column apart: normalisation
      with a nonzero weight is one-to-one on each column. */
  lemma NormalizedSeparates(t: Table, norms: seq<real>, weights: seq<int>, j: nat, a: nat, b: nat)
    requires WellFormed(t) && NormsOf(t, norms) && Criteria(t) <= |weights|
    requires j < Criteria(t) && a < |t.rows| && b < |t.rows|
    requires weights[j] != 0
    ensures Normalized(t, norms, weights).rows[a].values[j] == Normalized(t, norms, weights).rows[b].values[j]
            <==> t.rows[a].values[j] == t.rows[b].values[j]
  {
    var x, y, n, w := t.rows[a].values[j], t.rows[b].values[j], norms[j], weights[j] as real;
    if x / n * w == y / n * w {
      calc {
        x;
        (x / n * w) / w * n;
        (y / n * w) / w * n;
        y;
      }
    }
  }

  /** A zero weight flattens its column: every normalised cell is zero. */
  lemma ZeroWeightFlattens(t: Table, norms: seq<real>, weights: seq<int>, j: nat, k: nat)
    requires WellFormed(t) && NormsOf(t, norms) && Criteria(t) <= |weights|
    requires j < Criteria(t) && k < |t.rows|
    requires weights[j] == 0
    ensures Normalized(t, norms, weights).rows[k].values[j] == 0.0
  {
  }
}
