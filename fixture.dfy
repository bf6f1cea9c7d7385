/**
 * The worked example of the repository's test: the two sequences of the
 * Smith-Waterman article on Wikipedia, scored with match 2, mismatch -1 and
 * gap -1, together with the matrix the test expects.
 */
module Fixture {
  import opened Scoring
  import opened ScoreMatrix
  import opened Traceback
  import opened Annotation

  const Seq1: string := "AGCACACA"
  const Seq2: string := "ACACACTA"

  /** The expected matrix; row i stands for Seq1[i-1], column j for Seq2[j-1]. */
  const Known: Matrix := [
      [ 0,  0,  0,  0,  0,  0,  0,  0,  0],
      [ 0,  2,  1,  2,  1,  2,  1,  0,  2],
      [ 0,  1,  1,  1,  1,  1,  1,  0,  1],
      [ 0,  0,  3,  2,  3,  2,  3,  2,  1],
      [ 0,  2,  2,  5,  4,  5,  4,  3,  4],
      [ 0,  1,  4,  4,  7,  6,  7,  6,  5],
      [ 0,  2,  3,  6,  6,  9,  8,  7,  8],
      [ 0,  1,  4,  5,  8,  8, 11, 10,  9],
      [ 0,  2,  3,  6,  7, 10, 10, 10, 12]]

  /** Every cell of row i of the expected matrix is `CalcScore` of its neighbours. */
  ghost predicate RowFits(i: nat)
    requires 1 <= i <= 8
  {
    forall j :: 1 <= j <= 8 ==> CellFits(Known, Seq1, Seq2, 2, -1, -1, i, j)
  }

  lemma Row1Fits()
    ensures RowFits(1)
  {
  }

  lemma Row2Fits()
    ensures RowFits(2)
  {
  }

  lemma Row3Fits()
    ensures RowFits(3)
  {
  }

  lemma Row4Fits()
    ensures RowFits(4)
  {
  }

  lemma Row5Fits()
    ensures RowFits(5)
  {
  }

  lemma Row6Fits()
    ensures RowFits(6)
  {
  }

  lemma Row7Fits()
    ensures RowFits(7)
  {
  }

  lemma Row8Fits()
    ensures RowFits(8)
  {
  }

  /** The expected matrix is a table of the recurrence. */
  lemma KnownFits()
    ensures SatisfiesRecurrence(Known, Seq1, Seq2, 2, -1, -1)
  {
    Row1Fits(); Row2Fits(); Row3Fits(); Row4Fits();
    Row5Fits(); Row6Fits(); Row7Fits(); Row8Fits();
    forall i, j | 1 <= i <= 8 && 1 <= j <= 8
      ensures CellFits(Known, Seq1, Seq2, 2, -1, -1, i, j)
    {
      assert RowFits(i);
    }
  }

  /**
   * The expected matrix peaks at its last cell: 12 there and less in every
   * cell before it (which is every other cell).
   */
  lemma KnownPeak()
    ensures IsMatrix(Known, 9, 9)
    ensures Known[8][8] == 12
    ensures forall i, j :: 0 <= i <= 8 && 0 <= j <= 8 && Before(i, j, 8, 8) ==> Known[i][j] < 12
  {
  }

  /** The first four steps of the walk, counted from where it ends. */
  lemma KnownAlignStart()
    ensures Walkable(Known, Seq1, Seq2, 4, 3)
    ensures Align(Known, Seq1, Seq2, 4, 3) == Alignment("AGCA", "A-CA", 1, 1)
  {
  }

  /** The walk back from (8, 8) through the expected matrix. */
  lemma KnownAlign()
    ensures Walkable(Known, Seq1, Seq2, 8, 8)
    ensures Align(Known, Seq1, Seq2, 8, 8) == Alignment("AGCACAC-A", "A-CACACTA", 1, 1)
  {
    KnownAlignStart();
  }

  /** The example's sequences do not score 0 everywhere: their first symbols match. */
  lemma KnownNotAllZero()
    ensures !AllZero(Seq1, Seq2, 2, -1, -1)
  {
    assert Score(Seq1, Seq2, 2, -1, -1, 1, 1) == 2;
  }

  /** The only first maximum of the expected matrix is its last cell. */
  lemma KnownFirstMaximumIn(p: Cell)
    ensures FirstMaximumIn(Known, p) <==> p == (8, 8)
  {
    KnownPeak();
  }

  /** The annotation of the example's alignment. */
  lemma KnownAnnotation(a: string)
    requires |a| == 9
    requires forall k :: 0 <= k < 9 ==> a[k] == Mark("AGCACAC-A"[k], "A-CACACTA"[k])
    ensures a == "| ||||| |"
  {
    assert a[0] == '|' && a[1] == ' ' && a[2] == '|' && a[3] == '|' && a[4] == '|';
    assert a[5] == '|' && a[6] == '|' && a[7] == ' ' && a[8] == '|';
  }

  /** The annotation has seven identities, two gaps and no mismatch. */
  lemma KnownCounts()
    ensures Count("| ||||| |", '|') == 7
    ensures Count("| ||||| |", ' ') == 2
    ensures Count("| ||||| |", ':') == 0
  {
    CountIsMultiplicity("| ||||| |", '|');
    CountIsMultiplicity("| ||||| |", ' ');
    CountIsMultiplicity("| ||||| |", ':');
  }

  /** The matrix of the example's scores is the expected matrix. */
  lemma ScoresAreKnown(m: Matrix)
    requires IsScoreMatrix(m, Seq1, Seq2, 2, -1, -1)
    ensures m == Known
  {
    RecurrenceDeterminesScore(m, Seq1, Seq2, 2, -1, -1);
    KnownFits();
    SameTable(m, Known, Seq1, Seq2, 2, -1, -1);
  }

  /** The example's first maximum is the last cell. */
  lemma FirstMaximumIsLast(p: Cell)
    requires FirstMaximum(Seq1, Seq2, 2, -1, -1, p)
    ensures p == (8, 8)
  {
    KnownFits();
    RecurrenceDeterminesScore(Known, Seq1, Seq2, 2, -1, -1);
    FirstMaximumInScores(Known, Seq1, Seq2, 2, -1, -1, p);
    KnownFirstMaximumIn(p);
  }

  /** What the scorer promises for the example pins its result down to the expected one. */
  lemma KnownScored(r: ScoreResult)
    requires r.Failed? <==> AllZero(Seq1, Seq2, 2, -1, -1)
    requires r.Scored? ==>
      IsScoreMatrix(r.matrix, Seq1, Seq2, 2, -1, -1) &&
      FirstMaximum(Seq1, Seq2, 2, -1, -1, r.maxPos)
    ensures r == Scored(Known, (8, 8))
  {
    KnownNotAllZero();
    ScoresAreKnown(r.matrix);
    FirstMaximumIsLast(r.maxPos);
  }

  /**
   * The test's scoring step, with the source's own sizing: the two sequences
   * have the same length, so every read is in range; the matrix is the
   * expected one and its best cell the last.
   */
  method ScoreFixture() returns (matrix: Matrix, maxPos: Cell)
    ensures matrix == Known && maxPos == (8, 8)
  {
    var r := CreateScoreMatrixAsWritten(Seq1, Seq2, 2, -1, -1);
    AsWrittenEqualLengths(Seq1, Seq2, 2, -1, -1, r);
    KnownScored(r);
    matrix, maxPos := r.matrix, r.maxPos;
  }

  /**
   * The test's run: score the two sequences, walk back from the best cell
   * and annotate the alignment.  The alignment has seven identities, two
   * gaps and no mismatch.
   */
  method FixtureRun() returns (aligned1: string, aligned2: string,
                               annotation: string, idents: nat, gaps: nat, mismatches: nat)
    ensures aligned1 == "AGCACAC-A" && aligned2 == "A-CACACTA"
    ensures |aligned1| == |aligned2|
    ensures annotation == "| ||||| |"
    ensures idents == 7 && gaps == 2 && mismatches == 0
  {
    var matrix, maxPos := ScoreFixture();
    KnownAlign();
    aligned1, aligned2 := Traceback.Traceback(matrix, maxPos, Seq1, Seq2);
    annotation, idents, gaps, mismatches := AlignmentString(aligned1, aligned2);
    KnownAnnotation(annotation);
    KnownCounts();
  }
}
