/**
 * The two scoring rules of the Smith-Waterman engine: the recurrence that
 * gives one cell of the dynamic-programming matrix (`calc_score`) and the
 * move-selection rule that the traceback applies at each cell (`next_move`).
 * Both are pure functions of a few integers and two symbols.
 */
module Scoring {

  /** The score matrix, as a sequence of rows. */
  type Matrix = seq<seq<int>>

  /** The gap marker of an aligned sequence. */
  const Gap: char := '-'

  /** `m` has `rows` rows of `cols` cells each. */
  predicate IsMatrix(m: Matrix, rows: nat, cols: nat)
  {
    |m| == rows && forall i :: 0 <= i < rows ==> |m[i]| == cols
  }

  function Max(x: int, y: int): int
  {
    if x >= y then x else y
  }

  /**
   * The reward for aligning symbol `a` with symbol `b`: `matchScore` when they are
   * equal, `mismatch` otherwise.  The source multiplies this by a quality
   * weight of seq2 that is the constant 1.0, so the weight does not appear.
   */
  function Similarity(a: char, b: char, matchScore: int, mismatch: int): int
  {
    if a == b then matchScore else mismatch
  }

  /**
   * The value of one interior cell from its upper neighbour `xpy`, its left
   * neighbour `xyp` and its diagonal neighbour `xpyp`: the largest of 0, the
   * diagonal extended by the similarity of `a` and `b`, and either of the
   * other two neighbours extended by a gap.
   */
  function CalcScore(xpy: int, xyp: int, xpyp: int, a: char, b: char,
                     matchScore: int, mismatch: int, gap: int): (r: int)
    ensures r >= 0
    ensures r >= xpyp + Similarity(a, b, matchScore, mismatch)
    ensures r >= xpy + gap && r >= xyp + gap
    ensures r == 0 || r == xpyp + Similarity(a, b, matchScore, mismatch) ||
            r == xpy + gap || r == xyp + gap
  {
    Max(Max(Max(0, xpyp + Similarity(a, b, matchScore, mismatch)), xpy + gap), xyp + gap)
  }

  /**
   * A traceback step.  The source encodes these as the integers
   * END = 0, DIAG = 1, UP = 2 and LEFT = 3.
   */
  datatype Move = End | Diag | Up | Left

  /**
   * The move chosen from the diagonal, upper and left predecessors of a cell.
   * The largest of the three is selected, ties going to DIAG first and UP
   * second, and the walk ends when the selected value is 0.  The source's
   * final `raise ValueError` branch cannot be reached on integers: the three
   * guards cover every ordering of the three values.
   */
  function NextMove(diag: int, up: int, left: int): (m: Move)
    ensures m == End <==> Max(Max(diag, up), left) == 0
    ensures m == Diag <==> diag != 0 && diag >= up && diag >= left
    ensures m == Up <==> up != 0 && up > diag && up >= left
    ensures m == Left <==> left != 0 && left > diag && left > up
  {
    if diag >= up && diag >= left then
      if diag != 0 then Diag else End
    else if up > diag && up >= left then
      if up != 0 then Up else End
    else if left > diag && left > up then
      if left != 0 then Left else End
    else
      assert false; End
  }
}
