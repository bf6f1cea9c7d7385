/**
 * The reconstructor: `traceback` walks back from the best cell of the matrix,
 * one move per step as `next_move` chooses, appending one symbol (or the gap
 * marker '-') per sequence and step, until the move is END; it then appends
 * the symbols of the cell it stopped at and reverses both lists.
 *
 * `Align` is the specification: the aligned pair in forward order, together
 * with the cell at which the alignment begins.  `Traceback` is the source's
 * loop proved against it.
 */
module Traceback {
  import opened Scoring

  /** Row 0 and column 0 of the matrix are zero. */
  ghost predicate ZeroBoundary(m: Matrix)
    requires IsMatrix(m, |m|, if |m| == 0 then 0 else |m[0]|)
  {
    (forall j :: 0 < |m| && 0 <= j < |m[0]| ==> m[0][j] == 0) &&
    (forall i :: 0 <= i < |m| ==> 0 < |m[i]| ==> m[i][0] == 0)
  }

  /**
   * The walk may stand at (x, y): the matrix is rectangular with a zero
   * boundary, the cell is interior, and row x (column y) has a symbol
   * `seq1[x-1]` (`seq2[y-1]`).
   */
  ghost predicate Walkable(m: Matrix, seq1: string, seq2: string, x: int, y: int)
  {
    0 < |m| && IsMatrix(m, |m|, |m[0]|) && ZeroBoundary(m) &&
    |m| <= |seq1| + 1 && |m[0]| <= |seq2| + 1 &&
    1 <= x < |m| && 1 <= y < |m[0]|
  }

  /** The move `next_move` chooses at (x, y) from its three predecessors. */
  function MoveAt(m: Matrix, x: nat, y: nat): Move
    requires 0 < |m| && IsMatrix(m, |m|, |m[0]|) && 1 <= x < |m| && 1 <= y < |m[0]|
  {
    NextMove(m[x - 1][y - 1], m[x - 1][y], m[x][y - 1])
  }

  /** The cell a non-final move leads to. */
  function Next(move: Move, x: nat, y: nat): (nat, nat)
    requires move != End && 1 <= x && 1 <= y
  {
    match move
    case Diag => (x - 1, y - 1)
    case Up => (x - 1, y)
    case Left => (x, y - 1)
  }

  /** The pair of symbols a non-final move at (x, y) appends: '-' on the side that stays. */
  function Emitted(move: Move, seq1: string, seq2: string, x: nat, y: nat): (char, char)
    requires move != End && 1 <= x <= |seq1| && 1 <= y <= |seq2|
  {
    match move
    case Diag => (seq1[x - 1], seq2[y - 1])
    case Up => (seq1[x - 1], Gap)
    case Left => (Gap, seq2[y - 1])
  }

  /** A move from a walkable cell leads to a walkable cell. */
  lemma NextWalkable(m: Matrix, seq1: string, seq2: string, x: nat, y: nat)
    requires Walkable(m, seq1, seq2, x, y) && MoveAt(m, x, y) != End
    ensures Walkable(m, seq1, seq2, Next(MoveAt(m, x, y), x, y).0, Next(MoveAt(m, x, y), x, y).1)
  {
    if x == 1 {
      assert m[0][y - 1] == 0 && m[0][y] == 0;
    }
    if y == 1 {
      assert m[x - 1][0] == 0 && m[x][0] == 0;
    }
  }

  /**
   * An aligned pair in forward order; (x, y) is the cell at which it begins,
   * so its first pair is `seq1[x-1]`, `seq2[y-1]`.
   */
  datatype Alignment = Alignment(aligned1: string, aligned2: string, x: nat, y: nat)

  /** The alignment the walk from (x, y) produces. */
  function Align(m: Matrix, seq1: string, seq2: string, x: nat, y: nat): Alignment
    requires Walkable(m, seq1, seq2, x, y)
    decreases x + y
  {
    var move := MoveAt(m, x, y);
    if move == End then
      Alignment([seq1[x - 1]], [seq2[y - 1]], x, y)
    else
      NextWalkable(m, seq1, seq2, x, y);
      var next := Next(move, x, y);
      var pair := Emitted(move, seq1, seq2, x, y);
      var r := Align(m, seq1, seq2, next.0, next.1);
      Alignment(r.aligned1 + [pair.0], r.aligned2 + [pair.1], r.x, r.y)
  }

  /** `reversed` on a list of symbols. */
  function Reversed(s: string): string
  {
    if s == [] then [] else [s[|s| - 1]] + Reversed(s[..|s| - 1])
  }

  /** Appending to the list prepends to its reversal. */
  lemma ReversedAppend(s: string, c: char)
    ensures Reversed(s + [c]) == [c] + Reversed(s)
  {
    assert (s + [c])[..|s|] == s;
  }

  /** The symbols of `s` with every gap marker removed. */
  function RemoveGaps(s: string): string
  {
    if s == [] then []
    else RemoveGaps(s[..|s| - 1]) + (if s[|s| - 1] == Gap then [] else [s[|s| - 1]])
  }

  /** Appending a symbol appends it to the gap-free projection; appending '-' does not. */
  lemma RemoveGapsAppend(s: string, c: char)
    ensures RemoveGaps(s + [c]) == RemoveGaps(s) + (if c == Gap then [] else [c])
  {
    assert (s + [c])[..|s|] == s;
  }

  /** One move appends the emitted pair to the alignment from the next cell. */
  lemma AlignUnfold(m: Matrix, seq1: string, seq2: string, x: nat, y: nat)
    requires Walkable(m, seq1, seq2, x, y) && MoveAt(m, x, y) != End
    ensures var next := Next(MoveAt(m, x, y), x, y);
            var pair := Emitted(MoveAt(m, x, y), seq1, seq2, x, y);
            Walkable(m, seq1, seq2, next.0, next.1) &&
            var r := Align(m, seq1, seq2, next.0, next.1);
            Align(m, seq1, seq2, x, y) == Alignment(r.aligned1 + [pair.0], r.aligned2 + [pair.1], r.x, r.y)
  {
    NextWalkable(m, seq1, seq2, x, y);
  }

  /**
   * The walk from (x, y) stops at a cell (r.x, r.y) no later in either
   * coordinate, where the move is END; the two aligned sequences have the
   * same length and begin with the symbols of that cell.
   */
  lemma {:induction false} AlignShape(m: Matrix, seq1: string, seq2: string, x: nat, y: nat)
    requires Walkable(m, seq1, seq2, x, y)
    ensures var r := Align(m, seq1, seq2, x, y);
            |r.aligned1| == |r.aligned2| >= 1 &&
            1 <= r.x <= x && 1 <= r.y <= y && MoveAt(m, r.x, r.y) == End &&
            r.aligned1[0] == seq1[r.x - 1] && r.aligned2[0] == seq2[r.y - 1]
    decreases x + y
  {
    var move := MoveAt(m, x, y);
    if move != End {
      NextWalkable(m, seq1, seq2, x, y);
      var next := Next(move, x, y);
      AlignShape(m, seq1, seq2, next.0, next.1);
    }
  }

  /**
   * When neither input holds the gap marker, no column of the alignment pairs
   * a gap with a gap: each column is two symbols, or one symbol and '-'.
   */
  lemma {:induction false} AlignNoGapPair(m: Matrix, seq1: string, seq2: string, x: nat, y: nat)
    requires Walkable(m, seq1, seq2, x, y)
    requires Gap !in seq1 && Gap !in seq2
    ensures var r := Align(m, seq1, seq2, x, y);
            |r.aligned1| == |r.aligned2| &&
            forall k :: 0 <= k < |r.aligned1| ==> r.aligned1[k] != Gap || r.aligned2[k] != Gap
    decreases x + y
  {
    var move := MoveAt(m, x, y);
    if move != End {
      NextWalkable(m, seq1, seq2, x, y);
      var next := Next(move, x, y);
      AlignNoGapPair(m, seq1, seq2, next.0, next.1);
    }
  }

  /**
   * When neither input holds the gap marker, removing the gaps from the
   * aligned sequences gives back the contiguous stretches of seq1 and seq2
   * between the cell where the alignment begins and the start cell.
   */
  lemma {:induction false} AlignSlices(m: Matrix, seq1: string, seq2: string, x: nat, y: nat)
    requires Walkable(m, seq1, seq2, x, y)
    requires Gap !in seq1 && Gap !in seq2
    ensures var r := Align(m, seq1, seq2, x, y);
            1 <= r.x <= x && 1 <= r.y <= y &&
            RemoveGaps(r.aligned1) == seq1[r.x - 1 .. x] &&
            RemoveGaps(r.aligned2) == seq2[r.y - 1 .. y]
    decreases x + y
  {
    var move := MoveAt(m, x, y);
    if move == End {
      assert RemoveGaps([seq1[x - 1]]) == RemoveGaps([]) + [seq1[x - 1]];
      assert RemoveGaps([seq2[y - 1]]) == RemoveGaps([]) + [seq2[y - 1]];
    } else {
      AlignUnfold(m, seq1, seq2, x, y);
      var next, pair := Next(move, x, y), Emitted(move, seq1, seq2, x, y);
      var r := Align(m, seq1, seq2, next.0, next.1);
      AlignSlices(m, seq1, seq2, next.0, next.1);
      GapFreeStep(seq1, r.aligned1, r.x - 1, next.0, x, pair.0);
      GapFreeStep(seq2, r.aligned2, r.y - 1, next.1, y, pair.1);
    }
  }

  /**
   * One step of `AlignSlices` on one side: the side either consumes the next
   * symbol of its sequence or receives the gap marker and stays.
   */
  lemma GapFreeStep(s: string, a: string, lo: nat, k: nat, k': nat, c: char)
    requires lo <= k <= |s|
    requires RemoveGaps(a) == s[lo .. k]
    requires (k' == k + 1 && k < |s| && c == s[k] && c != Gap) || (k' == k && c == Gap)
    ensures RemoveGaps(a + [c]) == s[lo .. k']
  {
    RemoveGapsAppend(a, c);
    if k' == k + 1 {
      assert s[lo .. k'] == s[lo .. k] + [s[k]];
    }
  }

  /**
   * One move of the walk keeps the relation between the alignment from the
   * start cell, the alignment from the current cell and the symbols appended
   * so far (which are in backward order).
   */
  lemma WalkStep(m: Matrix, seq1: string, seq2: string, start: (nat, nat), x: nat, y: nat,
                 rev1: string, rev2: string)
    requires Walkable(m, seq1, seq2, start.0, start.1)
    requires Walkable(m, seq1, seq2, x, y) && MoveAt(m, x, y) != End
    requires Align(m, seq1, seq2, start.0, start.1).aligned1 == Align(m, seq1, seq2, x, y).aligned1 + Reversed(rev1)
    requires Align(m, seq1, seq2, start.0, start.1).aligned2 == Align(m, seq1, seq2, x, y).aligned2 + Reversed(rev2)
    ensures var next := Next(MoveAt(m, x, y), x, y);
            var pair := Emitted(MoveAt(m, x, y), seq1, seq2, x, y);
            Walkable(m, seq1, seq2, next.0, next.1) &&
            Align(m, seq1, seq2, start.0, start.1).aligned1 ==
              Align(m, seq1, seq2, next.0, next.1).aligned1 + Reversed(rev1 + [pair.0]) &&
            Align(m, seq1, seq2, start.0, start.1).aligned2 ==
              Align(m, seq1, seq2, next.0, next.1).aligned2 + Reversed(rev2 + [pair.1])
  {
    AlignUnfold(m, seq1, seq2, x, y);
    var move := MoveAt(m, x, y);
    var next, pair := Next(move, x, y), Emitted(move, seq1, seq2, x, y);
    var there := Align(m, seq1, seq2, next.0, next.1);
    ReversedAppend(rev1, pair.0);
    ReversedAppend(rev2, pair.1);
  }

  /**
   * `traceback(score_matrix, start_pos, seq1, seq2)`.  Every read of the
   * matrix is at a cell whose row and column are at least 1, so no index
   * wraps around, and x + y falls at every move, so the walk ends.
   */
  method Traceback(m: Matrix, start: (nat, nat), seq1: string, seq2: string)
    returns (aligned1: string, aligned2: string)
    requires Walkable(m, seq1, seq2, start.0, start.1)
    ensures aligned1 == Align(m, seq1, seq2, start.0, start.1).aligned1
    ensures aligned2 == Align(m, seq1, seq2, start.0, start.1).aligned2
    ensures |aligned1| == |aligned2| >= 1
  {
    var rev1: string, rev2: string := [], [];
    var x, y := start.0, start.1;
    var move := NextMove(m[x - 1][y - 1], m[x - 1][y], m[x][y - 1]);
    while move != End
      invariant Walkable(m, seq1, seq2, x, y)
      invariant move == MoveAt(m, x, y)
      invariant Align(m, seq1, seq2, start.0, start.1).aligned1 ==
                Align(m, seq1, seq2, x, y).aligned1 + Reversed(rev1)
      invariant Align(m, seq1, seq2, start.0, start.1).aligned2 ==
                Align(m, seq1, seq2, x, y).aligned2 + Reversed(rev2)
      decreases x + y
    {
      WalkStep(m, seq1, seq2, start, x, y, rev1, rev2);
      if move == Diag {
        assert Next(move, x, y) == (x - 1, y - 1) && Emitted(move, seq1, seq2, x, y) == (seq1[x - 1], seq2[y - 1]);
        rev1, rev2 := rev1 + [seq1[x - 1]], rev2 + [seq2[y - 1]];
        x, y := x - 1, y - 1;
      } else if move == Up {
        assert Next(move, x, y) == (x - 1, y) && Emitted(move, seq1, seq2, x, y) == (seq1[x - 1], Gap);
        rev1, rev2 := rev1 + [seq1[x - 1]], rev2 + [Gap];
        x := x - 1;
      } else {
        assert Next(move, x, y) == (x, y - 1) && Emitted(move, seq1, seq2, x, y) == (Gap, seq2[y - 1]);
        rev1, rev2 := rev1 + [Gap], rev2 + [seq2[y - 1]];
        y := y - 1;
      }
      move := NextMove(m[x - 1][y - 1], m[x - 1][y], m[x][y - 1]);
    }
    ReversedAppend(rev1, seq1[x - 1]);
    ReversedAppend(rev2, seq2[y - 1]);
    rev1, rev2 := rev1 + [seq1[x - 1]], rev2 + [seq2[y - 1]];
    aligned1, aligned2 := Reversed(rev1), Reversed(rev2);
    AlignShape(m, seq1, seq2, start.0, start.1);
  }
}
