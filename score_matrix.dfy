/**
 * The scorer: `create_score_matrix` fills the dynamic-programming matrix row
 * by row and records the first cell, in row-major order, whose score is
 * strictly larger than every score before it.
 *
 * `Score` is the specification of the matrix: the value the recurrence gives
 * to cell (i, j), where row i stands for `seq1[i-1]` and column j for
 * `seq2[j-1]`.  `CreateScoreMatrix` is the fill loop proved against it.
 */
module ScoreMatrix {
  import opened Scoring

  datatype Option<T> = None | Some(value: T)

  /** A (row, column) position in the matrix. */
  type Cell = (nat, nat)

  /** The failures of the scorer. */
  datatype ScoreError =
    | NoMaximumCell    // `assert max_pos is not None`: every cell is 0
    | IndexOutOfRange  // a read past the end of seq1 or seq2

  datatype ScoreResult =
    | Scored(matrix: Matrix, maxPos: Cell)
    | Failed(error: ScoreError)

  /**
   * The score of cell (i, j): 0 on row 0 and column 0, and otherwise the
   * recurrence applied to the upper, left and diagonal cells.
   */
  function Score(seq1: string, seq2: string, matchScore: int, mismatch: int, gap: int,
                 i: nat, j: nat): (r: int)
    requires i <= |seq1| && j <= |seq2|
    ensures r >= 0
    decreases i + j
  {
    if i == 0 || j == 0 then 0
    else
      CalcScore(Score(seq1, seq2, matchScore, mismatch, gap, i - 1, j),
                Score(seq1, seq2, matchScore, mismatch, gap, i, j - 1),
                Score(seq1, seq2, matchScore, mismatch, gap, i - 1, j - 1),
                seq1[i - 1], seq2[j - 1], matchScore, mismatch, gap)
  }

  /** Cell (a, b) is filled before cell (i, j) in row-major order. */
  predicate Before(a: nat, b: nat, i: nat, j: nat)
  {
    a < i || (a == i && b < j)
  }

  /**
   * `p` is the cell the fill records as its maximum: an interior cell with a
   * positive score that no cell exceeds and that every cell before it falls
   * short of, so that among tied maxima the first one wins.
   */
  ghost predicate FirstMaximum(seq1: string, seq2: string, matchScore: int, mismatch: int, gap: int,
                               p: Cell)
  {
    1 <= p.0 <= |seq1| && 1 <= p.1 <= |seq2| &&
    Score(seq1, seq2, matchScore, mismatch, gap, p.0, p.1) > 0 &&
    forall i, j :: 0 <= i <= |seq1| && 0 <= j <= |seq2| ==>
      Score(seq1, seq2, matchScore, mismatch, gap, i, j) <= Score(seq1, seq2, matchScore, mismatch, gap, p.0, p.1) &&
      (Before(i, j, p.0, p.1) ==>
        Score(seq1, seq2, matchScore, mismatch, gap, i, j) < Score(seq1, seq2, matchScore, mismatch, gap, p.0, p.1))
  }

  /** Every cell of the matrix scores 0. */
  ghost predicate AllZero(seq1: string, seq2: string, matchScore: int, mismatch: int, gap: int)
  {
    forall i, j :: 0 <= i <= |seq1| && 0 <= j <= |seq2| ==>
      Score(seq1, seq2, matchScore, mismatch, gap, i, j) == 0
  }

  /** `m` is the score matrix: one row per symbol of seq1 and one column per symbol of seq2, plus row and column 0, each cell holding its score. */
  ghost predicate IsScoreMatrix(m: Matrix, seq1: string, seq2: string, matchScore: int, mismatch: int, gap: int)
  {
    IsMatrix(m, |seq1| + 1, |seq2| + 1) &&
    forall i, j :: 0 <= i <= |seq1| && 0 <= j <= |seq2| ==>
      m[i][j] == Score(seq1, seq2, matchScore, mismatch, gap, i, j)
  }

  /** At most one cell is the first maximum. */
  lemma FirstMaximumUnique(seq1: string, seq2: string, matchScore: int, mismatch: int, gap: int,
                           p: Cell, q: Cell)
    requires FirstMaximum(seq1, seq2, matchScore, mismatch, gap, p)
    requires FirstMaximum(seq1, seq2, matchScore, mismatch, gap, q)
    ensures p == q
  {
  }

  /** The cells of `m` filled before (i, j), and all of column 0, hold their scores. */
  ghost predicate FilledBefore(m: Matrix, seq1: string, seq2: string, matchScore: int, mismatch: int, gap: int,
                               i: nat, j: nat)
    requires IsMatrix(m, |seq1| + 1, |seq2| + 1)
  {
    forall a, b :: 0 <= a <= |seq1| && 0 <= b <= |seq2| && (b == 0 || Before(a, b, i, j)) ==>
      m[a][b] == Score(seq1, seq2, matchScore, mismatch, gap, a, b)
  }

  /** No cell filled before (i, j), nor any of column 0, scores more than `bound`. */
  ghost predicate BoundedBefore(seq1: string, seq2: string, matchScore: int, mismatch: int, gap: int,
                                i: nat, j: nat, bound: int)
  {
    forall a, b :: 0 <= a <= |seq1| && 0 <= b <= |seq2| && (b == 0 || Before(a, b, i, j)) ==>
      Score(seq1, seq2, matchScore, mismatch, gap, a, b) <= bound
  }

  /** `maxScore` and `maxPos` are what the fill has recorded once it reaches (i, j). */
  ghost predicate Recorded(seq1: string, seq2: string, matchScore: int, mismatch: int, gap: int,
                           i: nat, j: nat, maxScore: int, maxPos: Option<Cell>)
  {
    maxScore >= 0 &&
    (maxPos.None? ==> maxScore == 0) &&
    (maxPos.Some? ==>
      var p := maxPos.value;
      1 <= p.0 <= |seq1| && 1 <= p.1 <= |seq2| && Before(p.0, p.1, i, j) &&
      Score(seq1, seq2, matchScore, mismatch, gap, p.0, p.1) == maxScore && maxScore > 0 &&
      forall a, b :: 0 <= a <= |seq1| && 0 <= b <= |seq2| && Before(a, b, p.0, p.1) ==>
        Score(seq1, seq2, matchScore, mismatch, gap, a, b) < maxScore)
  }

  /**
   * The fill loop with the matrix sized as the recurrence needs it: one row
   * per symbol of seq1 and one column per symbol of seq2, plus the zero row
   * and column.  See `CreateScoreMatrixAsWritten` for the source's sizing.
   */
  method CreateScoreMatrix(seq1: string, seq2: string, matchScore: int := 2, mismatch: int := -1, gap: int := -1)
    returns (r: ScoreResult)
    ensures r.Failed? <==> AllZero(seq1, seq2, matchScore, mismatch, gap)
    ensures r.Failed? ==> r.error == NoMaximumCell
    ensures r.Scored? ==>
      IsScoreMatrix(r.matrix, seq1, seq2, matchScore, mismatch, gap) &&
      FirstMaximum(seq1, seq2, matchScore, mismatch, gap, r.maxPos)
  {
    var rows, cols := |seq1| + 1, |seq2| + 1;
    var m: Matrix := seq(rows, _ => seq(cols, _ => 0));
    var maxScore := 0;
    var maxPos: Option<Cell> := None;
    for i := 1 to rows
      invariant IsMatrix(m, rows, cols)
      invariant FilledBefore(m, seq1, seq2, matchScore, mismatch, gap, i, 0)
      invariant BoundedBefore(seq1, seq2, matchScore, mismatch, gap, i, 0, maxScore)
      invariant Recorded(seq1, seq2, matchScore, mismatch, gap, i, 0, maxScore, maxPos)
    {
      for j := 1 to cols
        invariant IsMatrix(m, rows, cols)
        invariant FilledBefore(m, seq1, seq2, matchScore, mismatch, gap, i, j)
        invariant BoundedBefore(seq1, seq2, matchScore, mismatch, gap, i, j, maxScore)
        invariant Recorded(seq1, seq2, matchScore, mismatch, gap, i, j, maxScore, maxPos)
      {
        var score := CalcScore(m[i - 1][j], m[i][j - 1], m[i - 1][j - 1], seq1[i - 1], seq2[j - 1],
                               matchScore, mismatch, gap);
        FilledNeighbours(m, seq1, seq2, matchScore, mismatch, gap, i, j);
        RecordStep(seq1, seq2, matchScore, mismatch, gap, i, j, maxScore, maxPos);
        if score > maxScore {
          maxScore := score;
          maxPos := Some((i, j));
        }
        WriteCell(m, seq1, seq2, matchScore, mismatch, gap, i, j);
        m := m[i := m[i][j := score]];
      }
      RowDone(m, seq1, seq2, matchScore, mismatch, gap, i, maxScore, maxPos);
    }
    if maxPos.None? {
      return Failed(NoMaximumCell);
    }
    r := Scored(m, maxPos.value);
  }

  /** The read of `seq1[i-1]` and `seq2[j-1]` at cell (i, j) is in range. */
  predicate ReadInRange(len1: nat, len2: nat, i: nat, j: nat)
  {
    1 <= i <= len1 && 1 <= j <= len2
  }

  /**
   * Every read of the source's loop nest is in range.  The source makes
   * len(seq2) + 1 rows and len(seq1) + 1 columns, while cell (i, j) reads
   * `seq1[i-1]` and `seq2[j-1]`.
   */
  predicate AsWrittenReadsInRange(len1: nat, len2: nat)
  {
    forall i, j :: 1 <= i <= len2 && 1 <= j <= len1 ==> ReadInRange(len1, len2, i, j)
  }

  /**
   * The source's sizing reads out of range exactly when both sequences are
   * non-empty and their lengths differ (for instance seq1 = "A", seq2 = "AC").
   */
  lemma AsWrittenReadsInRangeIff(len1: nat, len2: nat)
    ensures AsWrittenReadsInRange(len1, len2) <==> len1 == 0 || len2 == 0 || len1 == len2
  {
    if len1 != 0 && len2 != 0 && len1 < len2 {
      assert !ReadInRange(len1, len2, len2, 1);
    } else if len1 != 0 && len2 != 0 && len2 < len1 {
      assert !ReadInRange(len1, len2, 1, len1);
    }
  }

  /**
   * `create_score_matrix` as the source sizes it.  When a read falls out of
   * range the source raises IndexError part-way through the fill and returns
   * nothing, so the outcome depends on the lengths alone; when every read is
   * in range the two sizings agree and the fill is `CreateScoreMatrix`.
   */
  method CreateScoreMatrixAsWritten(seq1: string, seq2: string, matchScore: int := 2, mismatch: int := -1, gap: int := -1)
    returns (r: ScoreResult)
    ensures r == Failed(IndexOutOfRange) <==> !AsWrittenReadsInRange(|seq1|, |seq2|)
    ensures r == Failed(NoMaximumCell) <==>
            AsWrittenReadsInRange(|seq1|, |seq2|) && AllZero(seq1, seq2, matchScore, mismatch, gap)
    ensures r.Scored? ==>
      |seq1| == |seq2| && IsMatrix(r.matrix, |seq2| + 1, |seq1| + 1) &&
      IsScoreMatrix(r.matrix, seq1, seq2, matchScore, mismatch, gap) &&
      FirstMaximum(seq1, seq2, matchScore, mismatch, gap, r.maxPos)
  {
    if !AsWrittenReadsInRange(|seq1|, |seq2|) {
      return Failed(IndexOutOfRange);
    }
    r := CreateScoreMatrix(seq1, seq2, matchScore, mismatch, gap);
    AsWrittenReadsInRangeIff(|seq1|, |seq2|);
  }

  /**
   * On sequences of the same length the source's sizing never reads out of
   * range, so its outcome meets the contract of `CreateScoreMatrix`.
   */
  lemma AsWrittenEqualLengths(seq1: string, seq2: string, matchScore: int, mismatch: int, gap: int,
                              r: ScoreResult)
    requires |seq1| == |seq2|
    requires r == Failed(IndexOutOfRange) <==> !AsWrittenReadsInRange(|seq1|, |seq2|)
    requires r == Failed(NoMaximumCell) <==>
             AsWrittenReadsInRange(|seq1|, |seq2|) && AllZero(seq1, seq2, matchScore, mismatch, gap)
    ensures r.Failed? <==> AllZero(seq1, seq2, matchScore, mismatch, gap)
    ensures r.Failed? ==> r.error == NoMaximumCell
  {
    AsWrittenReadsInRangeIff(|seq1|, |seq2|);
    assert AsWrittenReadsInRange(|seq1|, |seq2|);
    if r.Failed? {
      assert r.error == NoMaximumCell;
    }
  }

  /**
   * `m` is a table of the recurrence: zero on row 0 and column 0, and every
   * interior cell is `CalcScore` of its upper, left and diagonal neighbours.
   */
  ghost predicate SatisfiesRecurrence(m: Matrix, seq1: string, seq2: string,
                                      matchScore: int, mismatch: int, gap: int)
  {
    IsMatrix(m, |seq1| + 1, |seq2| + 1) &&
    (forall i :: 0 <= i <= |seq1| ==> m[i][0] == 0) &&
    (forall j :: 0 <= j <= |seq2| ==> m[0][j] == 0) &&
    forall i, j :: 1 <= i <= |seq1| && 1 <= j <= |seq2| ==>
      CellFits(m, seq1, seq2, matchScore, mismatch, gap, i, j)
  }

  /** Interior cell (i, j) of `m` is `CalcScore` of its upper, left and diagonal neighbours. */
  ghost predicate CellFits(m: Matrix, seq1: string, seq2: string,
                           matchScore: int, mismatch: int, gap: int, i: nat, j: nat)
    requires IsMatrix(m, |seq1| + 1, |seq2| + 1)
    requires 1 <= i <= |seq1| && 1 <= j <= |seq2|
  {
    m[i][j] == CalcScore(m[i - 1][j], m[i][j - 1], m[i - 1][j - 1], seq1[i - 1], seq2[j - 1],
                         matchScore, mismatch, gap)
  }

  /** Two tables of the recurrence agree on cell (i, j). */
  lemma {:induction false} TablesAgree(m: Matrix, n: Matrix, seq1: string, seq2: string,
                                       matchScore: int, mismatch: int, gap: int, i: nat, j: nat)
    requires SatisfiesRecurrence(m, seq1, seq2, matchScore, mismatch, gap)
    requires SatisfiesRecurrence(n, seq1, seq2, matchScore, mismatch, gap)
    requires i <= |seq1| && j <= |seq2|
    ensures m[i][j] == n[i][j]
    decreases i + j
  {
    if i == 0 || j == 0 {
      assert m[i][j] == 0 && n[i][j] == 0;
    } else {
      TablesAgree(m, n, seq1, seq2, matchScore, mismatch, gap, i - 1, j);
      TablesAgree(m, n, seq1, seq2, matchScore, mismatch, gap, i, j - 1);
      TablesAgree(m, n, seq1, seq2, matchScore, mismatch, gap, i - 1, j - 1);
      assert CellFits(m, seq1, seq2, matchScore, mismatch, gap, i, j);
      assert CellFits(n, seq1, seq2, matchScore, mismatch, gap, i, j);
    }
  }

  /** The matrix of scores, cell by cell. */
  ghost function ScoreTable(seq1: string, seq2: string, matchScore: int, mismatch: int, gap: int): (t: Matrix)
    ensures IsMatrix(t, |seq1| + 1, |seq2| + 1)
    ensures forall i, j :: 0 <= i <= |seq1| && 0 <= j <= |seq2| ==>
      t[i][j] == Score(seq1, seq2, matchScore, mismatch, gap, i, j)
  {
    seq(|seq1| + 1, i requires 0 <= i <= |seq1| =>
      seq(|seq2| + 1, j requires 0 <= j <= |seq2| => Score(seq1, seq2, matchScore, mismatch, gap, i, j)))
  }

  /**
   * The recurrence has exactly one table: a matrix satisfies it if and only
   * if it is the score matrix.
   */
  lemma RecurrenceDeterminesScore(m: Matrix, seq1: string, seq2: string,
                                  matchScore: int, mismatch: int, gap: int)
    ensures SatisfiesRecurrence(m, seq1, seq2, matchScore, mismatch, gap) <==>
      IsScoreMatrix(m, seq1, seq2, matchScore, mismatch, gap)
  {
    var t := ScoreTable(seq1, seq2, matchScore, mismatch, gap);
    assert SatisfiesRecurrence(t, seq1, seq2, matchScore, mismatch, gap);
    if SatisfiesRecurrence(m, seq1, seq2, matchScore, mismatch, gap) {
      forall i, j | 0 <= i <= |seq1| && 0 <= j <= |seq2|
        ensures m[i][j] == Score(seq1, seq2, matchScore, mismatch, gap, i, j)
      {
        TablesAgree(m, t, seq1, seq2, matchScore, mismatch, gap, i, j);
      }
    }
  }

  /** Two tables of the recurrence are the same matrix. */
  lemma SameTable(m: Matrix, n: Matrix, seq1: string, seq2: string,
                  matchScore: int, mismatch: int, gap: int)
    requires SatisfiesRecurrence(m, seq1, seq2, matchScore, mismatch, gap)
    requires SatisfiesRecurrence(n, seq1, seq2, matchScore, mismatch, gap)
    ensures m == n
  {
    forall i | 0 <= i <= |seq1|
      ensures m[i] == n[i]
    {
      forall j | 0 <= j <= |seq2|
        ensures m[i][j] == n[i][j]
      {
        TablesAgree(m, n, seq1, seq2, matchScore, mismatch, gap, i, j);
      }
    }
  }

  /**
   * `p` is the first maximum of the matrix `m` itself: an interior cell with
   * a positive value that no cell exceeds and every cell before it falls
   * short of.
   */
  predicate FirstMaximumIn(m: Matrix, p: Cell)
  {
    0 < |m| && IsMatrix(m, |m|, |m[0]|) &&
    1 <= p.0 < |m| && 1 <= p.1 < |m[0]| && m[p.0][p.1] > 0 &&
    forall i, j :: 0 <= i < |m| && 0 <= j < |m[0]| ==>
      m[i][j] <= m[p.0][p.1] && (Before(i, j, p.0, p.1) ==> m[i][j] < m[p.0][p.1])
  }

  /** On the score matrix, the first maximum of the scores is the first maximum of the cells. */
  lemma FirstMaximumInScores(m: Matrix, seq1: string, seq2: string,
                             matchScore: int, mismatch: int, gap: int, p: Cell)
    requires IsScoreMatrix(m, seq1, seq2, matchScore, mismatch, gap)
    ensures FirstMaximum(seq1, seq2, matchScore, mismatch, gap, p) <==> FirstMaximumIn(m, p)
  {
  }

  /** The value the fill computes for (i, j) from its filled neighbours is the cell's score. */
  lemma FilledNeighbours(m: Matrix, seq1: string, seq2: string, matchScore: int, mismatch: int, gap: int,
                         i: nat, j: nat)
    requires IsMatrix(m, |seq1| + 1, |seq2| + 1)
    requires 1 <= i <= |seq1| && 1 <= j <= |seq2|
    requires FilledBefore(m, seq1, seq2, matchScore, mismatch, gap, i, j)
    ensures CalcScore(m[i - 1][j], m[i][j - 1], m[i - 1][j - 1], seq1[i - 1], seq2[j - 1], matchScore, mismatch, gap)
            == Score(seq1, seq2, matchScore, mismatch, gap, i, j)
  {
    assert m[i - 1][j] == Score(seq1, seq2, matchScore, mismatch, gap, i - 1, j);
    assert m[i][j - 1] == Score(seq1, seq2, matchScore, mismatch, gap, i, j - 1);
    assert m[i - 1][j - 1] == Score(seq1, seq2, matchScore, mismatch, gap, i - 1, j - 1);
  }

  /** Writing the score of (i, j) into the matrix extends the filled part by one cell. */
  lemma WriteCell(m: Matrix, seq1: string, seq2: string, matchScore: int, mismatch: int, gap: int,
                  i: nat, j: nat)
    requires IsMatrix(m, |seq1| + 1, |seq2| + 1)
    requires 1 <= i <= |seq1| && 1 <= j <= |seq2|
    requires FilledBefore(m, seq1, seq2, matchScore, mismatch, gap, i, j)
    ensures var m' := m[i := m[i][j := Score(seq1, seq2, matchScore, mismatch, gap, i, j)]];
            IsMatrix(m', |seq1| + 1, |seq2| + 1) &&
            FilledBefore(m', seq1, seq2, matchScore, mismatch, gap, i, j + 1)
  {
    var m' := m[i := m[i][j := Score(seq1, seq2, matchScore, mismatch, gap, i, j)]];
    forall a, b | 0 <= a <= |seq1| && 0 <= b <= |seq2| && (b == 0 || Before(a, b, i, j + 1))
      ensures m'[a][b] == Score(seq1, seq2, matchScore, mismatch, gap, a, b)
    {
      if a != i || b != j {
        assert m'[a][b] == m[a][b];
      }
    }
  }

  /**
   * Visiting interior cell (i, j) keeps the record: the maximum moves to
   * (i, j) exactly when its score is strictly larger.
   */
  lemma RecordStep(seq1: string, seq2: string, matchScore: int, mismatch: int, gap: int,
                   i: nat, j: nat, maxScore: int, maxPos: Option<Cell>)
    requires 1 <= i <= |seq1| && 1 <= j <= |seq2|
    requires BoundedBefore(seq1, seq2, matchScore, mismatch, gap, i, j, maxScore)
    requires Recorded(seq1, seq2, matchScore, mismatch, gap, i, j, maxScore, maxPos)
    ensures var score := Score(seq1, seq2, matchScore, mismatch, gap, i, j);
            if score > maxScore then
              BoundedBefore(seq1, seq2, matchScore, mismatch, gap, i, j + 1, score) &&
              Recorded(seq1, seq2, matchScore, mismatch, gap, i, j + 1, score, Some((i, j)))
            else
              BoundedBefore(seq1, seq2, matchScore, mismatch, gap, i, j + 1, maxScore) &&
              Recorded(seq1, seq2, matchScore, mismatch, gap, i, j + 1, maxScore, maxPos)
  {
    var score := Score(seq1, seq2, matchScore, mismatch, gap, i, j);
    if score > maxScore {
      RecordRaise(seq1, seq2, matchScore, mismatch, gap, i, j, maxScore, maxPos, score);
    } else {
      RecordKeep(seq1, seq2, matchScore, mismatch, gap, i, j, maxScore, maxPos, score);
    }
  }

  /** A strictly larger score at (i, j) becomes the new record. */
  lemma RecordRaise(seq1: string, seq2: string, matchScore: int, mismatch: int, gap: int,
                    i: nat, j: nat, maxScore: int, maxPos: Option<Cell>, score: int)
    requires 1 <= i <= |seq1| && 1 <= j <= |seq2|
    requires score == Score(seq1, seq2, matchScore, mismatch, gap, i, j) && score > maxScore
    requires BoundedBefore(seq1, seq2, matchScore, mismatch, gap, i, j, maxScore)
    requires Recorded(seq1, seq2, matchScore, mismatch, gap, i, j, maxScore, maxPos)
    ensures BoundedBefore(seq1, seq2, matchScore, mismatch, gap, i, j + 1, score)
    ensures Recorded(seq1, seq2, matchScore, mismatch, gap, i, j + 1, score, Some((i, j)))
  {
  }

  /** A score at (i, j) no larger than the record leaves the record as it is. */
  lemma RecordKeep(seq1: string, seq2: string, matchScore: int, mismatch: int, gap: int,
                   i: nat, j: nat, maxScore: int, maxPos: Option<Cell>, score: int)
    requires 1 <= i <= |seq1| && 1 <= j <= |seq2|
    requires score == Score(seq1, seq2, matchScore, mismatch, gap, i, j) && score <= maxScore
    requires BoundedBefore(seq1, seq2, matchScore, mismatch, gap, i, j, maxScore)
    requires Recorded(seq1, seq2, matchScore, mismatch, gap, i, j, maxScore, maxPos)
    ensures BoundedBefore(seq1, seq2, matchScore, mismatch, gap, i, j + 1, maxScore)
    ensures Recorded(seq1, seq2, matchScore, mismatch, gap, i, j + 1, maxScore, maxPos)
  {
  }

  /** Finishing row i is reaching the start of row i + 1. */
  lemma RowDone(m: Matrix, seq1: string, seq2: string, matchScore: int, mismatch: int, gap: int,
                i: nat, maxScore: int, maxPos: Option<Cell>)
    requires IsMatrix(m, |seq1| + 1, |seq2| + 1)
    requires FilledBefore(m, seq1, seq2, matchScore, mismatch, gap, i, |seq2| + 1)
    requires BoundedBefore(seq1, seq2, matchScore, mismatch, gap, i, |seq2| + 1, maxScore)
    requires Recorded(seq1, seq2, matchScore, mismatch, gap, i, |seq2| + 1, maxScore, maxPos)
    ensures FilledBefore(m, seq1, seq2, matchScore, mismatch, gap, i + 1, 0)
    ensures BoundedBefore(seq1, seq2, matchScore, mismatch, gap, i + 1, 0, maxScore)
    ensures Recorded(seq1, seq2, matchScore, mismatch, gap, i + 1, 0, maxScore, maxPos)
  {
  }
}
