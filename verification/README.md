# TOPSIS ranking, modelled in Dafny

This project models the TOPSIS command-line tool in `102117061.py`. The tool
ranks the rows of a table by how close they are to an ideal profile. It reads
a CSV data set whose first column identifies each row and whose other columns
are numeric criteria. It takes one integer weight and one impact symbol (`+`
or `-`) per criterion. It then runs four stages:

1. Normalisation. Every criterion value is divided by its column's Euclidean
   norm and multiplied by the column's weight.
2. Ideal selection. For each column, the ideal value is the column's best value
   and the negative-ideal value is its worst. "Best" means the largest value
   for a `+` column and the smallest for a `-` column.
3. Scoring. Each row gets `dn / (dp + dn)`, where `dp` is its Euclidean
   distance to the ideal and `dn` its distance to the negative ideal.
4. Ranking. pandas `rank(method='max', ascending=False)` ranks the scores in
   descending order.

Before any of this, the tool checks the shape of the table and the weight and
impact lists.

Modules, one per stage:

- `Dataset` (`dataset.dfy`): the frame as `Table(header, rows)`. Each `Row` has
  an identifier and its criterion values. The file also holds sums of squares,
  squared distances, and the `IsSqrt` relation.
- `Normalization` (`normalize.dfy`): `Normalize` copies the frame and rewrites
  one column at a time, as the source's `for` loop does. `Normalized` is the
  value it must produce.
- `Ideals` (`ideals.dfy`): `IdealSolutions` appends to two lists column by
  column. `PositiveIdeal` and `NegativeIdeal` characterise those lists.
- `Scoring` (`score.dfy`): the closeness formula, and a loop that produces one
  score per row.
- `Ranking` (`rank.dfy`): max-rank as a count, a nested-loop method proved
  equal to it (`RankScores`), and the ordering facts about ranks.
- `Validation` (`validate.dfy`): the argument checks, in the order the source
  makes them.
- `Topsis` (`topsis.dfy`): the whole pipeline, plus the condition under which
  no score is `0 / 0`.

Dafny has no square root on `real`, so square roots are never computed here.
The stage methods take the column norms and the row distances as parameters.
`IsSqrt(r, x)` (`r >= 0` and `r * r == x`) ties each such value to the sum of
squares it is the root of. The pipeline takes a `sqrt` function obeying that law.

Consequences of the code worth stating, each proved or made a precondition:

- **Tie ranks.** `rank(method='max', ascending=False)` gives a row the number of
  rows whose score is at least its own (`MaxRank`, `RankScores`).
- **Top score with ties.** Rows tied at the top share a rank equal to the size
  of the tie, so rank 1 goes to a row exactly when its score is strictly the
  highest (`RankOneIffStrictlyBest`).
- **Identical rows.** When no criterion column is all zeros and no column with
  a nonzero weight varies between rows, the two ideals coincide and every
  normalised row equals both of them (`IdealsDifferIffDiscriminating`,
  `IndiscriminateRowsAreBothIdeals`). Both distances at line 102 are then the
  Python float `0.0`, and the run stops with `ZeroDivisionError` there on the
  first row. The model makes this a
  precondition of the pipeline. A column of zeros instead makes the distances
  NaN rather than 0; that case is described under "Left out".
- **Weights.** `int()` accepts zero and negative weights, and the model allows
  any integer weight. A zero weight flattens its column to 0
  (`ZeroWeightFlattens`).

## Model

| member | source | states |
|---|---|---|
| `Normalization.Normalized` | 102117061.py:76-81 | the normalised frame is well formed and keeps the header and the number of rows |
| `Normalization.Normalize` | 102117061.py:76-81 | the result has the same header, row count and identifiers as the input; every criterion cell `(k, j)` becomes `original / norms[j] * weights[j]`; and the result equals `Normalized` |
| `Normalization.RescaleColumn` | 102117061.py:80 | one pass over the rows overwrites cell `j` of each row with the rescaled source cell and changes nothing else |
| `Normalization.NormalizedColumnNorm` | 102117061.py:79-80 | when `norms[j]` is the Euclidean norm of column `j`, the normalised column's sum of squares is `weights[j]` squared, so its norm is the weight's magnitude |
| `Normalization.NormalizedSeparates` | 102117061.py:80 | with a nonzero weight, two cells of a column are equal after normalisation if and only if they were equal before |
| `Normalization.ZeroWeightFlattens` | 102117061.py:80 | a column with weight 0 becomes all zeros |
| `Ideals.Max` | 102117061.py:89 | the column maximum is attained by some row and is at least every value in the column |
| `Ideals.Min` | 102117061.py:90 | the column minimum is attained by some row and is at most every value in the column |
| `Ideals.PositiveIdeal` | 102117061.py:84-94 | one entry per criterion column; each entry is attained by some row; it is no smaller than any row's value in a `+` column and no larger in any other column |
| `Ideals.NegativeIdeal` | 102117061.py:84-94 | one entry per criterion column; each entry is attained by some row; it is no larger than any row's value in a `+` column and no smaller in any other column |
| `Ideals.Extreme` | 102117061.py:89-93 | the column extreme chosen by the impact is attained by some row, and every row lies on the correct side of it |
| `Ideals.IdealSolutions` | 102117061.py:84-94 | the two lists built column by column, appending (max, min) for a `+` column and (min, max) otherwise, are exactly `PositiveIdeal` and `NegativeIdeal` |
| `Ideals.IdealsBracketRows` | 102117061.py:87-93 | every row's value lies between the two ideals, in the direction its column's impact gives |
| `Ideals.IdealsMeetIffConstant` | 102117061.py:87-93 | the two ideals agree on a column if and only if every row has the same value in that column |
| `Scoring.Closeness` | 102117061.py:102 | if `dp, dn >= 0` and `dp + dn > 0`, the score is in `[0, 1]`; it is 0 iff `dn = 0` and 1 iff `dp = 0` |
| `Scoring.CloserIsBetter` | 102117061.py:102 | with the distance to the negative ideal fixed and positive, a smaller distance to the ideal never lowers the score |
| `Scoring.ClosenessAtIdeals` | 102117061.py:100-102 | if the two ideals differ, the distances of a row never both vanish; the row scores 0 iff it equals the negative ideal and 1 iff it equals the ideal |
| `Scoring.TopsisScores` | 102117061.py:97-103 | exactly one score per row, in row order; score `k` is row `k`'s closeness; each score is in `[0, 1]`, is 0 iff the row is the negative ideal, and is 1 iff it is the ideal |
| `Ranking.MaxRank` | 102117061.py:70 | the max-rank of row `i` is the size of the set of rows whose score is at least score `i` |
| `Ranking.CountIsCardinality` | 102117061.py:70 | the row-by-row count of scores at least `x` equals the size of the set of such rows |
| `Ranking.RankScores` | 102117061.py:70 | one rank per score; rank `i` is the number of rows whose score is at least score `i`; every rank is in `1..n` |
| `Ranking.RankBounds` | 102117061.py:70 | every max-rank lies between 1 and the number of rows |
| `Ranking.RankOneIffStrictlyBest` | 102117061.py:70 | a row has rank 1 if and only if its score is strictly greater than every other row's |
| `Ranking.RankLastIffWorst` | 102117061.py:70 | a row has rank n if and only if no row scores below it, so a full tie gives every row rank n |
| `Ranking.RankOrder` | 102117061.py:70 | a score at least as high never gets a larger rank; a strictly higher score gets a strictly smaller rank; equal scores get equal ranks |
| `Validation.Validate` | 102117061.py:23-46 | the run is accepted iff there are at least 3 columns, every impact is `+` or `-`, `len(weights) == len(impacts)` and `columns == len(weights) + 1`; a rejection names the first failing check, in source order |
| `Validation.AllValid` | 102117061.py:39 | true iff every impact symbol is `+` or `-` |
| `Validation.AcceptedShape` | 102117061.py:39-46 | an accepted run has at least two criteria, one weight and one impact per criterion, and every non-`+` impact is `-` |
| `Topsis.Norms` | 102117061.py:79 | when no criterion column is all zeros, the computed column norms are the nonzero Euclidean norms the normalisation needs |
| `Topsis.IdealsDifferIffDiscriminating` | 102117061.py:100-102 | after normalisation the two ideals differ iff some column with a nonzero weight is not constant |
| `Topsis.IndiscriminateRowsAreBothIdeals` | 102117061.py:100-102 | when no column with a nonzero weight varies, every normalised row equals both ideals and both its squared distances are 0, so line 102 divides 0 by 0 |
| `Topsis.AcceptedRunFits` | 102117061.py:39-46 | a data set that passes validation has one weight and one impact per criterion column and at least two criteria, which the pipeline requires |
| `Topsis.ScoreRows` | 102117061.py:65-68 | picks the ideals of the normalised frame, then gives each row a score in `[0, 1]` equal to the closeness computed from its two distances |
| `Topsis.ApplyTopsis` | 102117061.py:60-70 | one score and one rank per row; each score is in `[0, 1]` and is the closeness of the normalised row to the ideals of the normalised frame; each rank is that row's max-rank |
| `Dataset.SumSq` | 102117061.py:79 | the sum of squares of a column is non-negative, so `** 0.5` is defined on it |
| `Dataset.SumSqDominates` | 102117061.py:79 | the sum of squares of a column is at least the square of any single entry |
| `Dataset.SqDist` | 102117061.py:100-101 | the squared distance between a row and an ideal is non-negative, so `** 0.5` is defined on it |
| `Dataset.SqDistDominates` | 102117061.py:100-101 | the squared distance is at least the squared difference in any single column |
| `Dataset.SqDistZero` | 102117061.py:100-101 | the squared distance between a row and an ideal is 0 iff they are equal |
| `Dataset.SumSqPositive` | 102117061.py:79 | a column with a nonzero value has a positive sum of squares, so its norm can be divided by |
| `Dataset.SqrtZero` | 102117061.py:79 | a square root is 0 iff its argument is 0 |

## Left out

- CSV reading and writing (lines 22 and 73) are file I/O. Appending the `Topsis Score` and `Rank` columns to the frame is left out too; `ApplyTopsis` returns the scores and ranks as two sequences aligned with the rows.
- The checks that the input file exists and ends in `.csv`, that the output name ends in `.csv`, and the removal of an existing output file (lines 15-20, 49-54) are filesystem operations.
- The argument-count check, the messages, and `sys.exit` (lines 8-11 and every exit) are process plumbing. `Validate` returns a verdict instead.
- `pd.to_numeric(..., errors='coerce').fillna(mean)` (line 29) is pandas coercion over floats. The model takes an already numeric table.
- `int(w)` weight parsing and `split(',')` of the two argument strings (lines 33-38) are Python's string parsers. The model takes a list of integers and a list of symbols.
- Floating-point rounding, NaN and `** 0.5` (lines 79, 100-101) are not modelled. Values are exact reals, and square roots are parameters related by `IsSqrt`.
- A criterion column of zeros has norm 0, and pandas' division at line 80 makes the column NaN; `astype(int)` then rejects the NaN scores at line 70. The model rules this out with the precondition `NoZeroColumn`, or a nonzero norm in `NormsOf`. A row at distance 0 from both ideals makes line 102 divide the Python float `0.0` by `0.0`, which raises `ZeroDivisionError`. The model rules this out with `Discriminating` for the pipeline, or `pos != neg` for the scoring stage.
- An empty data set (a header and no rows) gives NaN ideals in pandas, but the score loop at line 99 never runs, so the source writes an empty result table. The model does not cover this case: `IdealSolutions` and `ApplyTopsis` require at least one row.
- `Topsis.ApplyTopsis`, `Topsis.ScoreRows`, `Topsis.Norms`: their preconditions quantify over the `sqrt` function, so their contracts are stated for any function obeying `SqrtLaw` and not for Python's floating-point root.
