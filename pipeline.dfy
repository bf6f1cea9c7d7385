/**
 * How the scorer and the reconstructor fit together: the scorer's matrix
 * and best cell are a valid start for the walk back, and the walk from
 * there yields an alignment of a substring of seq1 with a substring of
 * seq2 that both end at the best cell.
 */
module Pipeline {
  import opened Scoring
  import opened ScoreMatrix
  import opened Traceback

  /**
   * The scorer's output is a valid start for the walk: the matrix has its
   * zero row and column and the recorded maximum is an interior cell.
   */
  lemma ScoredWalkable(seq1: string, seq2: string, matchScore: int, mismatch: int, gap: int,
                       m: Matrix, p: Cell)
    requires IsScoreMatrix(m, seq1, seq2, matchScore, mismatch, gap)
    requires FirstMaximum(seq1, seq2, matchScore, mismatch, gap, p)
    ensures Walkable(m, seq1, seq2, p.0, p.1)
  {
  }

  /**
   * End to end: for inputs without the gap marker, the walk from the
   * scorer's best cell gives two aligned sequences of equal length with no
   * column of two gaps, which, gaps removed, are the stretches of seq1 and
   * seq2 from the cell where the walk stops up to the best cell.
   */
  lemma ScoredAlignment(seq1: string, seq2: string, matchScore: int, mismatch: int, gap: int,
                        m: Matrix, p: Cell)
    requires IsScoreMatrix(m, seq1, seq2, matchScore, mismatch, gap)
    requires FirstMaximum(seq1, seq2, matchScore, mismatch, gap, p)
    requires Gap !in seq1 && Gap !in seq2
    ensures Walkable(m, seq1, seq2, p.0, p.1)
    ensures var r := Align(m, seq1, seq2, p.0, p.1);
            |r.aligned1| == |r.aligned2| >= 1 &&
            1 <= r.x <= p.0 && 1 <= r.y <= p.1 &&
            (forall k :: 0 <= k < |r.aligned1| ==> r.aligned1[k] != Gap || r.aligned2[k] != Gap) &&
            RemoveGaps(r.aligned1) == seq1[r.x - 1 .. p.0] &&
            RemoveGaps(r.aligned2) == seq2[r.y - 1 .. p.1]
  {
    ScoredWalkable(seq1, seq2, matchScore, mismatch, gap, m, p);
    AlignShape(m, seq1, seq2, p.0, p.1);
    AlignNoGapPair(m, seq1, seq2, p.0, p.1);
    AlignSlices(m, seq1, seq2, p.0, p.1);
  }
}
