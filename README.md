# Weighted Smith-Waterman local alignment, modelled in Dafny

This project models the alignment engine of `weightedSmithWaterman.py`: a
Smith-Waterman local aligner for two nucleotide sequences. Its five pieces
are:

- `calc_score`: the cell recurrence.
- `create_score_matrix`: fills the dynamic-programming matrix row by row and
  records the first cell holding its largest score.
- `next_move`: the tie-breaking move rule.
- `traceback`: walks back from the best cell and builds the two aligned
  sequences.
- `alignment_string`: the `|` / blank / `:` annotation line and its counts.

It also models the repository's worked example from `test.py`.

Modules:

- `Scoring` (scoring.dfy): `CalcScore` and `NextMove` as pure functions. The
  move codes `END, DIAG, UP, LEFT` become the datatype `Move`.
- `ScoreMatrix` (score_matrix.dfy):
  - `Score` is the recurrence as a specification function.
  - `CreateScoreMatrix` is the fill loop proved against `Score` and against
    the first-maximum rule.
  - `CreateScoreMatrixAsWritten` is the fill with the source's own sizing
    (see Findings).
  - The lemmas state that the recurrence has exactly one table.
- `Traceback` (traceback.dfy):
  - `Align` is the alignment a walk produces, in forward order, as a
    specification function.
  - `Traceback` is the source's `while` loop, which builds reversed lists,
    proved against `Align`.
  - The lemmas state what an alignment consists of.
- `Annotation` (annotation.dfy): `AlignmentString` is the annotation loop,
  proved against the column rule `Mark` and the count function `Count`.
- `Pipeline` (pipeline.dfy): the scorer's output is a valid start for the
  walk, and the walk from there aligns two contiguous stretches of the inputs.
- `Fixture` (fixture.dfy): the test's sequences `AGCACACA` / `ACACACTA` with
  match 2, mismatch -1 and gap -1. The model proves:
  - the scorer returns exactly the expected 9×9 matrix, with its best cell at
    (8, 8);
  - the walk gives `AGCACAC-A` / `A-CACACTA`;
  - the annotation is `| ||||| |`, with 7 identities, 2 gaps and 0 mismatches.

Where the code and its comments disagree, the model follows the code:

- An UP move pairs `seq1[x-1]` with the gap marker `-`, although the
  docstring calls it a gap in sequence 1.
- The annotation marks a gap column with a blank, although the docstring
  mentions `-`.

## Model

| member | source | states |
|---|---|---|
| Scoring.CalcScore | weightedSmithWaterman.py:78-90 | The cell value is at least 0, at least the diagonal plus the similarity (match when the symbols are equal, mismatch otherwise), and at least either other neighbour plus the gap. It equals one of those four candidates. |
| Scoring.NextMove | weightedSmithWaterman.py:139-149 | The rule is total: the `ValueError` branch cannot be reached. END holds exactly when the largest predecessor is 0. DIAG holds exactly when the diagonal is non-zero and ties the largest. UP holds exactly when up is non-zero, strictly above the diagonal and at least left. LEFT holds exactly when left is non-zero and strictly above both. |
| ScoreMatrix.Score | weightedSmithWaterman.py:59-71 | Every cell of the matrix is non-negative. |
| ScoreMatrix.CreateScoreMatrix | weightedSmithWaterman.py:49-75 | The scoring parameters default to match 2, mismatch -1 and gap -1, as in the source. The fill fails (the `max_pos` assertion) exactly when every cell scores 0. Otherwise the matrix has one row per symbol of seq1 and one column per symbol of seq2, plus a zero row and column. Each cell is its score, and the recorded position is the first cell in row-major order holding the largest score. |
| ScoreMatrix.CreateScoreMatrixAsWritten | weightedSmithWaterman.py:49-75 | With the source's sizing (len(seq2)+1 rows of len(seq1)+1 columns), the fill reads out of range exactly when the in-range condition fails. It fails its assertion exactly when reads stay in range and all scores are 0. Any result it returns has equal-length inputs and is the score matrix with its first maximum. |
| ScoreMatrix.AsWrittenEqualLengths | weightedSmithWaterman.py:58-73 | On sequences of the same length, the source's sizing never reads out of range. Its outcome fails exactly when every score is 0, and then only by the `max_pos` assertion. |
| ScoreMatrix.AsWrittenReadsInRangeIff | weightedSmithWaterman.py:58-67 | The source's loop nest reads only in range if and only if one sequence is empty or both have the same length. |
| ScoreMatrix.FirstMaximumUnique | weightedSmithWaterman.py:68-70 | The strict `>` comparison singles out one cell: two first maxima are the same cell. |
| ScoreMatrix.RecordStep | weightedSmithWaterman.py:68-70 | Visiting a cell moves the record to it exactly when its score beats the record, and keeps every score seen so far at or below the record. |
| ScoreMatrix.RecordRaise | weightedSmithWaterman.py:68-70 | A strictly larger score becomes the new record and bounds every cell seen so far. |
| ScoreMatrix.RecordKeep | weightedSmithWaterman.py:68-70 | A score no larger than the record leaves the record unchanged. |
| ScoreMatrix.WriteCell | weightedSmithWaterman.py:66-71 | Writing the computed value into cell (i, j) extends the filled prefix by that cell. |
| ScoreMatrix.TablesAgree | weightedSmithWaterman.py:64-71 | Two matrices that are zero on row and column 0 and whose interior cells are `calc_score` of their neighbours agree cell by cell. |
| ScoreMatrix.SameTable | weightedSmithWaterman.py:64-71 | Two such matrices are equal. |
| ScoreMatrix.RecurrenceDeterminesScore | weightedSmithWaterman.py:59-71 | A matrix satisfies the recurrence with a zero boundary if and only if every cell holds its score. |
| ScoreMatrix.FirstMaximumInScores | weightedSmithWaterman.py:68-73 | On the score matrix, the first maximum of the scores is the first maximum of the stored cells, and the reverse. |
| Traceback.NextWalkable | weightedSmithWaterman.py:112-131 | From an interior cell of a matrix with a zero boundary, a non-final move leads to an interior cell. So no read at `x-1` or `y-1` uses a negative index. |
| Traceback.Traceback | weightedSmithWaterman.py:93-136 | The loop ends, and the two strings it returns are the forward-order alignment of the walk from the start cell. They have equal length, at least 1. |
| Traceback.AlignShape | weightedSmithWaterman.py:115-136 | The walk stops at a cell no later in either coordinate, where the move is END. The two aligned sequences have equal length and begin with that cell's symbols. |
| Traceback.AlignNoGapPair | weightedSmithWaterman.py:116-128 | When neither input holds `-`, no column pairs a gap with a gap. |
| Traceback.AlignSlices | weightedSmithWaterman.py:115-136 | When neither input holds `-`, removing the gaps from the aligned sequences gives the contiguous stretches of seq1 and seq2 from the stop cell to the start cell. |
| Traceback.ReversedAppend | weightedSmithWaterman.py:136 | Reversing a list after an append puts the appended symbol first. |
| Annotation.Mark | weightedSmithWaterman.py:169-177 | A bar exactly for equal symbols. A blank exactly for different symbols where one is `-`. `:` exactly for two different symbols that are not `-`. |
| Annotation.AlignmentString | weightedSmithWaterman.py:152-179 | The annotation has one mark per zipped column, stopping at the shorter sequence, and each mark follows the column rule. The three counts are the numbers of bar, blank and `:` marks, and they sum to the annotation's length. |
| Annotation.CountsPartition | weightedSmithWaterman.py:166-179 | In a string of annotation marks, the identities, gaps and mismatches together count every column. |
| Annotation.CountIsMultiplicity | weightedSmithWaterman.py:166-177 | The count of a mark is its multiplicity in the annotation. |
| Pipeline.ScoredWalkable | test.py:22-24 | The scorer's matrix and recorded cell are a valid start for `traceback`. |
| Pipeline.ScoredAlignment | test.py:22-25 | Assume neither input holds `-`. Then the walk from the scorer's best cell yields equal-length aligned sequences with no gap-against-gap column. With the gaps removed, they are the stretches of seq1 and seq2 ending at the best cell. |
| Fixture.ScoresAreKnown | test.py:9-22 | The score matrix of the test's sequences is the expected 9×9 matrix. |
| Fixture.FirstMaximumIsLast | test.py:9-22 | The test's first maximum is cell (8, 8), holding 12. |
| Fixture.KnownFirstMaximumIn | test.py:9-17 | The expected matrix has (8, 8) as its only first maximum. |
| Fixture.KnownScored | test.py:22 | Any result meeting the scorer's contract on the test's inputs is the expected matrix with best cell (8, 8). |
| Fixture.ScoreFixture | test.py:22 | Scoring the test's sequences with the source's own sizing returns the expected matrix and the position (8, 8). |
| Fixture.KnownAlign | test.py:24 | The walk back from (8, 8) through the expected matrix gives `AGCACAC-A` over `A-CACACTA`. |
| Fixture.KnownAnnotation | test.py:26 | The annotation of that alignment is a bar, a blank, five bars, a blank and a bar. |
| Fixture.KnownCounts | test.py:26 | That annotation has 7 identities, 2 gaps and no mismatch. |
| Fixture.FixtureRun | test.py:19-27 | The test's run yields the aligned pair `AGCACAC-A` / `A-CACACTA` of equal length, the annotation a bar, a blank, five bars, a blank and a bar, and counts 7, 2 and 0. |

## Left out

- `do_one` (weightedSmithWaterman.py:11-46) is not modelled.
  - It is command-line glue with BLAST-style printing.
  - It calls a `parse_cmd_line` that the file does not define, and passes row and column counts where `create_score_matrix` expects sequences.
  - The end-to-end chain it intends is stated by `Pipeline.ScoredAlignment` instead.
- `print_matrix`, the `__main__` / `argparse` stub and the printing in test.py:27-38 are not modelled: they are console output.
- The quality weight `seq2_qual = 1.0` is not modelled.
  - It makes the Python scores floats with integral values.
  - Scores are modelled as integers, and the similarity is match or mismatch unscaled.
- `CreateScoreMatrix` and `Traceback` work on the matrix as a sequence of rows, updated by value.
  - The source mutates a list of lists in place.
  - Aliasing between its rows plays no part, because every row is built separately.
- `Traceback` requires the precondition `Walkable`, which the source does not check. Its parts are:
  - the matrix is non-empty and rectangular;
  - row 0 and column 0 are zero;
  - the matrix has at most |seq1|+1 rows and at most |seq2|+1 columns;
  - the start cell is interior.
  The scorer always supplies such a matrix and cell (`Pipeline.ScoredWalkable`).
- The `ValueError` branch of `next_move` has no counterpart, because it is unreachable (`Scoring.NextMove`).
- `ScoreMatrix.CreateScoreMatrixAsWritten`: when a read falls out of range, the source raises `IndexError` part-way through the fill. The model returns `Failed(IndexOutOfRange)` and does not capture the partly filled matrix.

## Findings

| source | as written | input that shows it | evidently intended | confidence | as-written member | corrected member |
|---|---|---|---|---|---|---|
| weightedSmithWaterman.py:58-67 | The matrix gets len(seq2)+1 rows of len(seq1)+1 columns, but cell (i, j) reads `seq1[i-1]` and `seq2[j-1]`. Any two non-empty sequences of different lengths index past the end of the shorter one. | seq1 = "A", seq2 = "AC": row 2 reads `seq1[1]` | len(seq1)+1 rows of len(seq2)+1 columns, which aligns sequences of any lengths | not executed | ScoreMatrix.CreateScoreMatrixAsWritten (with ScoreMatrix.AsWrittenReadsInRangeIff) | ScoreMatrix.CreateScoreMatrix |
