/** Descending "max" ranking of the scores, as pandas'
    `rank(method='max', ascending=False)` assigns it: a row's rank is the
    number of rows whose score is at least its own, so tied rows share the
    largest position their group occupies. */
module Ranking {

  /** Number of entries of `s` that are at least `x`. */
  function CountAtLeast(s: seq<real>, x: real): (c: nat)
    ensures c <= |s|
  {
    if |s| == 0 then 0
    else CountAtLeast(s[..|s| - 1], x) + (if s[|s| - 1] >= x then 1 else 0)
  }

  /** The positions of `s` whose entry is at least `x`. */
  function AtLeast(s: seq<real>, x: real): set<int> {
    set k | 0 <= k < |s| && s[k] >= x
  }

  /** The rank pandas gives row `i`: how many rows score at least as high. */
  function MaxRank(scores: seq<real>, i: nat): (r: nat)
    requires i < |scores|
    ensures r == |AtLeast(scores, scores[i])|
  {
    CountIsCardinality(scores, scores[i]);
    CountAtLeast(scores, scores[i])
  }

  /** The recursive count is the size of the set it counts. */
  lemma {:induction false} CountIsCardinality(s: seq<real>, x: real)
    ensures CountAtLeast(s, x) == |AtLeast(s, x)|
  {
    if |s| == 0 {
      assert AtLeast(s, x) == {};
    } else {
      var n := |s| - 1;
      CountIsCardinality(s[..n], x);
      var before := AtLeast(s[..n], x);
      assert n !in before;
      if s[n] >= x {
        assert AtLeast(s, x) == before + {n};
      } else {
        assert AtLeast(s, x) == before;
      }
    }
  }

  /** Counts over a concatenation add up. */
  lemma {:induction false} CountAppend(a: seq<real>, b: seq<real>, x: real)
    ensures CountAtLeast(a + b, x) == CountAtLeast(a, x) + CountAtLeast(b, x)
  {
    if |b| > 0 {
      var n := |b| - 1;
      assert (a + b)[..|a + b| - 1] == a + b[..n];
      CountAppend(a, b[..n], x);
    } else {
      assert a + b == a;
    }
  }

  /** No entry reaches `x` exactly when the count is zero. */
  lemma {:induction false} CountZero(s: seq<real>, x: real)
    ensures CountAtLeast(s, x) == 0 <==> forall k :: 0 <= k < |s| ==> s[k] < x
  {
    if |s| > 0 {
      var n := |s| - 1;
      CountZero(s[..n], x);
      assert forall k :: 0 <= k < n ==> s[..n][k] == s[k];
    }
  }

  /** Every entry reaches `x` exactly when the count is the full length. */
  lemma {:induction false} CountAll(s: seq<real>, x: real)
    ensures CountAtLeast(s, x) == |s| <==> forall k :: 0 <= k < |s| ==> x <= s[k]
  {
    if |s| > 0 {
      var n := |s| - 1;
      CountAll(s[..n], x);
      assert forall k :: 0 <= k < n ==> s[..n][k] == s[k];
    }
  }

  /** Raising the threshold never raises the count. */
  lemma {:induction false} CountAntitone(s: seq<real>, x: real, y: real)
    requires y <= x
    ensures CountAtLeast(s, x) <= CountAtLeast(s, y)
  {
    if |s| > 0 {
      CountAntitone(s[..|s| - 1], x, y);
    }
  }

  /** Raising the threshold past an entry strictly lowers the count. */
  lemma {:induction false} CountDrops(s: seq<real>, x: real, y: real, k: nat)
    requires k < |s| && y <= s[k] < x
    ensures CountAtLeast(s, x) < CountAtLeast(s, y)
  {
    var n := |s| - 1;
    CountAntitone(s[..n], x, y);
    if k < n {
      assert s[..n][k] == s[k];
      CountDrops(s[..n], x, y, k);
    }
  }

  /** Entry `i` splits the sequence into the part before, itself, and after. */
  lemma CountAround(s: seq<real>, i: nat, x: real)
    requires i < |s|
    ensures CountAtLeast(s, x) ==
            CountAtLeast(s[..i], x) + (if s[i] >= x then 1 else 0) + CountAtLeast(s[i + 1..], x)
  {
    assert s == s[..i] + [s[i]] + s[i + 1..];
    CountAppend(s[..i] + [s[i]], s[i + 1..], x);
    CountAppend(s[..i], [s[i]], x);
    assert [s[i]][..0] == [];
  }

  /** Every rank lies in 1 .. n. */
  lemma RankBounds(scores: seq<real>, i: nat)
    requires i < |scores|
    ensures 1 <= MaxRank(scores, i) <= |scores|
  {
    CountAround(scores, i, scores[i]);
  }

  /** Rank 1 goes to a row exactly when its score is strictly above every
      other row's; rows tied for the top share the rank of the tie's size. */
  lemma RankOneIffStrictlyBest(scores: seq<real>, i: nat)
    requires i < |scores|
    ensures MaxRank(scores, i) == 1 <==> forall k :: 0 <= k < |scores| && k != i ==> scores[k] < scores[i]
  {
    var x := scores[i];
    CountAround(scores, i, x);
    CountZero(scores[..i], x);
    CountZero(scores[i + 1..], x);
    if MaxRank(scores, i) == 1 {
      forall k | 0 <= k < |scores| && k != i
        ensures scores[k] < x
      {
        if k < i {
          assert scores[..i][k] == scores[k];
        } else {
          assert scores[i + 1..][k - i - 1] == scores[k];
        }
      }
    }
  }

  /** Rank n (the number of rows) goes to a row exactly when no row scores
      below it; in a full tie every row gets rank n. */
  lemma RankLastIffWorst(scores: seq<real>, i: nat)
    requires i < |scores|
    ensures MaxRank(scores, i) == |scores| <==> forall k :: 0 <= k < |scores| ==> scores[i] <= scores[k]
  {
    CountAll(scores, scores[i]);
  }

  /** A higher score never gets a worse (larger) rank, a strictly higher score
      gets a strictly better one, and equal scores get equal ranks. */
  lemma RankOrder(scores: seq<real>, i: nat, k: nat)
    requires i < |scores| && k < |scores|
    ensures scores[i] >= scores[k] ==> MaxRank(scores, i) <= MaxRank(scores, k)
    ensures scores[i] > scores[k] ==> MaxRank(scores, i) < MaxRank(scores, k)
    ensures scores[i] == scores[k] ==> MaxRank(scores, i) == MaxRank(scores, k)
  {
    if scores[i] >= scores[k] {
      CountAntitone(scores, scores[i], scores[k]);
    }
    if scores[i] > scores[k] {
      CountDrops(scores, scores[i], scores[k], k);
    }
  }

  /** Counts, for every row, the rows whose score is at least its own. */
  method RankScores(scores: seq<real>) returns (ranks: seq<int>)
    ensures |ranks| == |scores|
    ensures forall i :: 0 <= i < |scores| ==> ranks[i] == MaxRank(scores, i)
    ensures forall i :: 0 <= i < |scores| ==> 1 <= ranks[i] <= |scores|
  {
    ranks := [];
    for i := 0 to |scores|
      invariant |ranks| == i
      invariant forall p :: 0 <= p < i ==> ranks[p] == MaxRank(scores, p)
      invariant forall p :: 0 <= p < i ==> 1 <= ranks[p] <= |scores|
    {
      var count := 0;
      for k := 0 to |scores|
        invariant count == CountAtLeast(scores[..k], scores[i])
      {
        assert scores[..k + 1][..k] == scores[..k];
        if scores[k] >= scores[i] {
          count := count + 1;
        }
      }
      assert scores[..|scores|] == scores;
      RankBounds(scores, i);
      ranks := ranks + [count];
    }
  }
}
