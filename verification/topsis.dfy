/** The whole TOPSIS run on a validated data set: normalise, pick the ideal
    and negative-ideal solutions, score every row by closeness, rank the
    scores. The square root is a parameter obeying `SqrtLaw`. */
module Topsis {
  import opened Dataset
  import opened Normalization
  import opened Ideals
  import opened Scoring
  import opened Ranking
  import opened Validation

  /** `sqrt` returns the non-negative square root of every non-negative real. */
  ghost predicate SqrtLaw(sqrt: real -> real) {
    forall x :: 0.0 <= x ==> IsSqrt(sqrt(x), x)
  }

  predicate HasNonzero(c: seq<real>) {
    exists k :: 0 <= k < |c| && c[k] != 0.0
  }

  /** No criterion column is all zeros, so no column norm is zero. */
  predicate NoZeroColumn(t: Table)
    requires WellFormed(t)
  {
    forall j :: 0 <= j < Criteria(t) ==> HasNonzero(Column(t, j))
  }

  /** Some weighted column tells two rows apart. */
  predicate Discriminating(t: Table, weights: seq<int>)
    requires WellFormed(t) && Criteria(t) <= |weights|
  {
    exists j :: 0 <= j < Criteria(t) && weights[j] != 0 && !ColumnConstant(t, j)
  }

  /** The Euclidean norm of every criterion column. */
  function Norms(t: Table, sqrt: real -> real): (n: seq<real>)
    requires WellFormed(t) && SqrtLaw(sqrt) && NoZeroColumn(t)
    ensures NormsOf(t, n)
  {
    NormsPositive(t);
    seq(Criteria(t), j requires 0 <= j < Criteria(t) => sqrt(SumSq(Column(t, j))))
  }

  lemma NormsPositive(t: Table)
    requires WellFormed(t) && NoZeroColumn(t)
    ensures forall j :: 0 <= j < Criteria(t) ==> SumSq(Column(t, j)) > 0.0
  {
    forall j | 0 <= j < Criteria(t)
      ensures SumSq(Column(t, j)) > 0.0
    {
      var k :| 0 <= k < |Column(t, j)| && Column(t, j)[k] != 0.0;
      SumSqPositive(Column(t, j), k);
    }
  }

  /** After normalisation the ideal and negative-ideal solutions differ
      exactly when some column with a nonzero weight is not constant. When
      they coincide every row is at distance 0 from both and its score is
      0 / 0. */
  lemma IdealsDifferIffDiscriminating(t: Table, norms: seq<real>, weights: seq<int>, impacts: seq<string>)
    requires WellFormed(t) && |t.rows| > 0 && NormsOf(t, norms)
    requires Criteria(t) <= |weights| && Criteria(t) <= |impacts|
    ensures var nt := Normalized(t, norms, weights);
            PositiveIdeal(nt, impacts) != NegativeIdeal(nt, impacts) <==> Discriminating(t, weights)
  {
    var nt := Normalized(t, norms, weights);
    var pos, neg := PositiveIdeal(nt, impacts), NegativeIdeal(nt, impacts);
    if Discriminating(t, weights) {
      var j :| 0 <= j < Criteria(t) && weights[j] != 0 && !ColumnConstant(t, j);
      var a, b :| 0 <= a < |t.rows| && 0 <= b < |t.rows| && t.rows[a].values[j] != t.rows[b].values[j];
      NormalizedSeparates(t, norms, weights, j, a, b);
      IdealsMeetIffConstant(nt, impacts, j);
      assert pos[j] != neg[j];
    } else {
      forall j | 0 <= j < Criteria(t)
        ensures pos[j] == neg[j]
      {
        forall a, b | 0 <= a < |t.rows| && 0 <= b < |t.rows|
          ensures nt.rows[a].values[j] == nt.rows[b].values[j]
        {
          if weights[j] == 0 {
            ZeroWeightFlattens(t, norms, weights, j, a);
            ZeroWeightFlattens(t, norms, weights, j, b);
          } else {
            NormalizedSeparates(t, norms, weights, j, a, b);
          }
        }
        IdealsMeetIffConstant(nt, impacts, j);
      }
      assert pos == neg;
    }
  }

  /** When no weighted column tells two rows apart, every normalised row is
      both the ideal and the negative ideal: both its distances are 0, and its
      closeness `dn / (dp + dn)` is `0 / 0`. */
  lemma IndiscriminateRowsAreBothIdeals(t: Table, norms: seq<real>, weights: seq<int>, impacts: seq<string>)
    requires WellFormed(t) && |t.rows| > 0 && NormsOf(t, norms)
    requires Criteria(t) <= |weights| && Criteria(t) <= |impacts|
    requires !Discriminating(t, weights)
    ensures var nt := Normalized(t, norms, weights);
            forall k :: 0 <= k < |t.rows| ==>
              nt.rows[k].values == PositiveIdeal(nt, impacts) == NegativeIdeal(nt, impacts) &&
              SqDist(nt.rows[k].values, PositiveIdeal(nt, impacts)) == 0.0 &&
              SqDist(nt.rows[k].values, NegativeIdeal(nt, impacts)) == 0.0
  {
    var nt := Normalized(t, norms, weights);
    var pos, neg := PositiveIdeal(nt, impacts), NegativeIdeal(nt, impacts);
    IdealsDifferIffDiscriminating(t, norms, weights, impacts);
    forall k | 0 <= k < |t.rows|
      ensures nt.rows[k].values == pos && SqDist(nt.rows[k].values, pos) == 0.0
    {
      forall j | 0 <= j < Criteria(t)
        ensures nt.rows[k].values[j] == pos[j]
      {
        IdealsBracketRows(nt, impacts, k, j);
      }
      SqDistZero(nt.rows[k].values, pos);
    }
  }

  /** A run that passes validation has one weight and one impact per
      criterion column of its data set, as `ApplyTopsis` needs. */
  lemma AcceptedRunFits(t: Table, weights: seq<int>, impacts: seq<string>)
    requires WellFormed(t) && Validate(|t.header|, weights, impacts) == Accepted
    ensures Criteria(t) == |weights| == |impacts| >= 2
  {
    AcceptedShape(|t.header|, weights, impacts);
  }

  /** Picks the ideals of a normalised frame and scores every row by its
      closeness to them. */
  method ScoreRows(nt: Table, impacts: seq<string>, sqrt: real -> real) returns (scores: seq<real>)
    requires WellFormed(nt) && |nt.rows| > 0 && Criteria(nt) <= |impacts|
    requires SqrtLaw(sqrt) && PositiveIdeal(nt, impacts) != NegativeIdeal(nt, impacts)
    ensures |scores| == |nt.rows|
    ensures forall k :: 0 <= k < |nt.rows| ==> 0.0 <= scores[k] <= 1.0
    ensures forall k :: 0 <= k < |nt.rows| ==>
              var dp := sqrt(SqDist(nt.rows[k].values, PositiveIdeal(nt, impacts)));
              var dn := sqrt(SqDist(nt.rows[k].values, NegativeIdeal(nt, impacts)));
              0.0 <= dp && 0.0 <= dn && dp + dn > 0.0 && scores[k] == Closeness(dp, dn)
  {
    var pos, neg := IdealSolutions(nt, impacts);
    var dPos := seq(|nt.rows|, k requires 0 <= k < |nt.rows| => sqrt(SqDist(nt.rows[k].values, pos)));
    var dNeg := seq(|nt.rows|, k requires 0 <= k < |nt.rows| => sqrt(SqDist(nt.rows[k].values, neg)));
    forall k | 0 <= k < |nt.rows|
      ensures DistanceTo(dPos[k], nt.rows[k].values, pos) && DistanceTo(dNeg[k], nt.rows[k].values, neg)
    {
      assert IsSqrt(sqrt(SqDist(nt.rows[k].values, pos)), SqDist(nt.rows[k].values, pos));
      assert IsSqrt(sqrt(SqDist(nt.rows[k].values, neg)), SqDist(nt.rows[k].values, neg));
    }
    scores := TopsisScores(nt, pos, neg, dPos, dNeg);
  }

  /** Normalises, picks the ideals, scores every row and ranks the scores. */
  method ApplyTopsis(t: Table, weights: seq<int>, impacts: seq<string>, sqrt: real -> real)
    returns (scores: seq<real>, ranks: seq<int>)
    requires WellFormed(t) && |t.rows| > 0
    requires Criteria(t) == |weights| == |impacts|
    requires SqrtLaw(sqrt) && NoZeroColumn(t) && Discriminating(t, weights)
    ensures |scores| == |t.rows| && |ranks| == |t.rows|
    ensures forall k :: 0 <= k < |t.rows| ==> 0.0 <= scores[k] <= 1.0
    ensures forall k :: 0 <= k < |t.rows| ==>
              var nt := Normalized(t, Norms(t, sqrt), weights);
              var dp := sqrt(SqDist(nt.rows[k].values, PositiveIdeal(nt, impacts)));
              var dn := sqrt(SqDist(nt.rows[k].values, NegativeIdeal(nt, impacts)));
              0.0 <= dp && 0.0 <= dn && dp + dn > 0.0 && scores[k] == Closeness(dp, dn)
    ensures forall i :: 0 <= i < |t.rows| ==> ranks[i] == MaxRank(scores, i) && 1 <= ranks[i] <= |t.rows|
  {
    var norms := Norms(t, sqrt);
    var nt := Normalize(t, norms, weights);
    assert nt == Normalized(t, Norms(t, sqrt), weights);
    IdealsDifferIffDiscriminating(t, norms, weights, impacts);
    scores := ScoreRows(nt, impacts, sqrt);
    ranks := RankScores(scores);
  }
}
