/** The TOPSIS score: a row's relative closeness to the ideal, computed from
    its Euclidean distances to the ideal and to the negative ideal. The
    distances are supplied by the caller; `IsSqrt` ties each one to the
    squared distance it is the root of. */
module Scoring {
  import opened Dataset

  /** `dn / (dp + dn)`: 0 at the negative ideal, 1 at the ideal, and in
      between otherwise. */
  function Closeness(dp: real, dn: real): (r: real)
    requires 0.0 <= dp && 0.0 <= dn && dp + dn > 0.0
    ensures 0.0 <= r <= 1.0
    ensures r == 0.0 <==> dn == 0.0
    ensures r == 1.0 <==> dp == 0.0
  {
    dn / (dp + dn)
  }

  /** Closeness grows as the distance to the ideal shrinks, for a fixed
      distance to the negative ideal. */
  lemma CloserIsBetter(dp1: real, dp2: real, dn: real)
    requires 0.0 <= dp1 <= dp2 && 0.0 < dn
    ensures Closeness(dp2, dn) <= Closeness(dp1, dn)
  {
    calc {
      Closeness(dp2, dn);
      dn / (dp2 + dn);
    <= { DivideByLarger(dn, dp1 + dn, dp2 + dn); }
      dn / (dp1 + dn);
      Closeness(dp1, dn);
    }
  }

  lemma DivideByLarger(x: real, a: real, b: real)
    requires 0.0 <= x && 0.0 < a <= b
    ensures x / b <= x / a
  {
    calc {
      x / b;
      (x / (a * b)) * a;
    <= { assert x / (a * b) >= 0.0; }
      (x / (a * b)) * b;
      x / a;
    }
  }

  /** `d` is the distance from a row's criterion values to an ideal vector. */
  predicate DistanceTo(d: real, row: seq<real>, ideal: seq<real>)
    requires |row| == |ideal|
  {
    IsSqrt(d, SqDist(row, ideal))
  }

  /** A row scores 0 exactly when it is the negative ideal and 1 exactly when
      it is the ideal. */
  lemma ClosenessAtIdeals(row: seq<real>, pos: seq<real>, neg: seq<real>, dp: real, dn: real)
    requires |row| == |pos| == |neg| && pos != neg
    requires DistanceTo(dp, row, pos) && DistanceTo(dn, row, neg)
    ensures dp + dn > 0.0
    ensures Closeness(dp, dn) == 0.0 <==> row == neg
    ensures Closeness(dp, dn) == 1.0 <==> row == pos
  {
    SqrtZero(dp, SqDist(row, pos));
    SqrtZero(dn, SqDist(row, neg));
    SqDistZero(row, pos);
    SqDistZero(row, neg);
  }

  /** One score per row, in row order, each the row's closeness. */
  method TopsisScores(t: Table, pos: seq<real>, neg: seq<real>, dPos: seq<real>, dNeg: seq<real>)
    returns (scores: seq<real>)
    requires WellFormed(t) && |pos| == |neg| == Criteria(t) && pos != neg
    requires |dPos| == |dNeg| == |t.rows|
    requires forall k :: 0 <= k < |t.rows| ==>
               DistanceTo(dPos[k], t.rows[k].values, pos) && DistanceTo(dNeg[k], t.rows[k].values, neg)
    ensures |scores| == |t.rows|
    ensures forall k :: 0 <= k < |t.rows| ==>
              0.0 <= dPos[k] && 0.0 <= dNeg[k] && dPos[k] + dNeg[k] > 0.0 &&
              scores[k] == Closeness(dPos[k], dNeg[k])
    ensures forall k :: 0 <= k < |t.rows| ==> 0.0 <= scores[k] <= 1.0
    ensures forall k :: 0 <= k < |t.rows| ==> (scores[k] == 0.0 <==> t.rows[k].values == neg)
    ensures forall k :: 0 <= k < |t.rows| ==> (scores[k] == 1.0 <==> t.rows[k].values == pos)
  {
    scores := [];
    for k := 0 to |t.rows|
      invariant |scores| == k
      invariant forall p :: 0 <= p < k ==>
                  0.0 <= dPos[p] && 0.0 <= dNeg[p] && dPos[p] + dNeg[p] > 0.0 &&
                  scores[p] == Closeness(dPos[p], dNeg[p])
      invariant forall p :: 0 <= p < k ==> (scores[p] == 0.0 <==> t.rows[p].values == neg)
      invariant forall p :: 0 <= p < k ==> (scores[p] == 1.0 <==> t.rows[p].values == pos)
    {
      ClosenessAtIdeals(t.rows[k].values, pos, neg, dPos[k], dNeg[k]);
      scores := scores + [Closeness(dPos[k], dNeg[k])];
    }
  }
}
