/**
 * The static part of src/fifteenpuzzle/PuzzleSolver.java that works on arrays:
 * the permutation-parity test isSolvable and the goal test isSolved.
 */
module Solver {
  import opened Wrappers
  import opened Moves
  import opened Grids
  import opened Boards
  import opened Solvability
  import opened BoardArrays

  /** Cell (i, j) holds the value that belongs there, or the blank. */
  ghost predicate Settled(g: Grid, i: int, j: int, cols: int)
    requires 0 <= i < |g| && 0 <= j < |g[i]|
  {
    g[i][j] == i * cols + j + 1 || g[i][j] == BLANK
  }

  /** Every cell before (r, c) in row-major order is settled. */
  ghost predicate SettledBefore(g: Grid, r: int, c: int, cols: int)
    requires Uniform(g, cols)
  {
    forall i, j :: 0 <= i < |g| && 0 <= j < cols && (i < r || (i == r && j < c)) ==> Settled(g, i, j, cols)
  }

  lemma SettledNext(g: Grid, r: int, c: int, cols: int)
    requires Uniform(g, cols) && 0 <= r < |g| && 0 <= c < cols
    requires SettledBefore(g, r, c, cols) && Settled(g, r, c, cols)
    ensures SettledBefore(g, r, c + 1, cols)
  {
  }

  /** The cells that do not hold i*cols+j+1 (the blank's cell always counts, except in the last cell). */
  ghost function Misplaced(g: Grid, rows: int, cols: int): set<(int, int)>
    requires |g| == rows && Uniform(g, cols)
  {
    set i, j | 0 <= i < rows && 0 <= j < cols && g[i][j] != i * cols + j + 1 :: (i, j)
  }

  /**
   * PuzzleSolver.isSolved: compares every cell with the goal board, from the
   * last cell backwards, and fails at the first difference.
   */
  method CheckSolved(values: Grid) returns (solved: bool)
    requires |values| >= 1 && Uniform(values, |values[0]|)
    ensures solved <==> values == SolvedState(|values|, |values[0]|)
  {
    var numRows, numCols := |values|, |values[0]|;
    var solvedState := SolvedState(numRows, numCols);
    var r := numRows - 1;
    while r >= 0
      invariant -1 <= r < numRows
      invariant forall i, j :: r < i < numRows && 0 <= j < numCols ==> values[i][j] == solvedState[i][j]
    {
      var c := numCols - 1;
      while c >= 0
        invariant -1 <= c < numCols
        invariant forall j :: c < j < numCols ==> values[r][j] == solvedState[r][j]
      {
        if values[r][c] != solvedState[r][c] {
          IsSolvedIff(values);
          return false;
        }
        c := c - 1;
      }
      r := r - 1;
    }
    IsSolvedIff(values);
    return true;
  }

  /**
   * PuzzleSolver.isSolvable: on a copy, swaps every value into the cell
   * (v-1)/cols, (v-1)%cols where it belongs and reports whether the number of
   * swaps is even. The result is the parity of the board's permutation with the
   * blank ranked last; it says nothing about where the blank is.
   */
  method IsSolvable(pattern: Grid) returns (solvable: bool)
    requires IsBoard(pattern)
    ensures solvable <==> EvenPermutation(pattern)
  {
    var copiedValues := CloneArray(pattern);
    ViewCells(copiedValues);
    var numRows, numCols := copiedValues.Length0, copiedValues.Length1;
    var swaps := 0;
    ghost var cur := pattern;
    for r := 0 to numRows
      invariant Progress(copiedValues, pattern, cur, swaps) && SettledBefore(cur, r, 0, numCols)
    {
      for c := 0 to numCols
        invariant Progress(copiedValues, pattern, cur, swaps) && SettledBefore(cur, r, c, numCols)
      {
        swaps, cur := SettleCell(copiedValues, pattern, r, c, swaps, cur);
      }
    }
    SettledIsSolved(cur);
    SolvedEven(numRows, numCols);
    solvable := swaps % 2 == 0;
  }

  /**
   * The state isSolvable keeps: the array holds cur, a board whose parity
   * differs from the pattern's exactly when an odd number of swaps was made.
   */
  ghost predicate Progress(a: array2<int>, pattern: Grid, cur: Grid, swaps: int)
    reads a
  {
    Tracked(pattern, cur, swaps) && Mirrors(a, cur)
  }

  ghost predicate Tracked(pattern: Grid, cur: Grid, swaps: int)
  {
    IsBoard(pattern) && IsBoard(cur) && |cur| == |pattern| && |cur[0]| == |pattern[0]| &&
    ((swaps % 2 == 0) <==> (Parity(cur) == Parity(pattern)))
  }

  /** The array holds the grid g cell by cell. */
  ghost predicate Mirrors(a: array2<int>, g: Grid)
    reads a
  {
    |g| == a.Length0 && Uniform(g, a.Length1) &&
    forall i, j :: 0 <= i < a.Length0 && 0 <= j < a.Length1 ==> a[i, j] == g[i][j]
  }

  /**
   * The inner loop of isSolvable for cell (r, c): while the cell neither holds
   * its own value nor the blank, swap its value into that value's home cell.
   */
  method SettleCell(a: array2<int>, ghost pattern: Grid, r: int, c: int, swaps: int, ghost cur: Grid)
    returns (swaps': int, ghost cur': Grid)
    requires Progress(a, pattern, cur, swaps) && 0 <= r < a.Length0 && 0 <= c < a.Length1
    requires SettledBefore(cur, r, c, a.Length1)
    modifies a
    ensures Progress(a, pattern, cur', swaps') && SettledBefore(cur', r, c + 1, a.Length1)
  {
    var numCols := a.Length1;
    swaps', cur' := swaps, cur;
    while a[r, c] != r * numCols + c + 1
      invariant Progress(a, pattern, cur', swaps') && SettledBefore(cur', r, c, numCols)
      decreases |Misplaced(cur', a.Length0, numCols)|
    {
      if a[r, c] == BLANK {
        break;
      }
      swaps', cur' := SwapIntoPlace(a, pattern, r, c, swaps', cur');
    }
    SettledNext(cur', r, c, numCols);
  }

  /** One pass of that loop: the value at (r, c) trades places with the one in its home cell. */
  method SwapIntoPlace(a: array2<int>, ghost pattern: Grid, r: int, c: int, swaps: int, ghost cur: Grid)
    returns (swaps': int, ghost cur': Grid)
    requires Progress(a, pattern, cur, swaps) && 0 <= r < a.Length0 && 0 <= c < a.Length1
    requires SettledBefore(cur, r, c, a.Length1)
    requires a[r, c] != BLANK && a[r, c] != r * a.Length1 + c + 1
    modifies a
    ensures Progress(a, pattern, cur', swaps') && SettledBefore(cur', r, c, a.Length1)
    ensures |Misplaced(cur', a.Length0, a.Length1)| < |Misplaced(cur, a.Length0, a.Length1)|
  {
    var numCols := a.Length1;
    var val := a[r, c];
    var targetRow := (val - 1) / numCols;
    var targetCol := (val - 1) % numCols;
    cur' := SwapStep(pattern, cur, swaps, r, c, targetRow, targetCol);
    SwapCells(a, cur, cur', r, c, targetRow, targetCol);
    swaps' := swaps + 1;
  }

  /** The two array updates of one isSolvable swap, in the source's order. */
  method SwapCells(a: array2<int>, ghost g: Grid, ghost h: Grid, r: int, c: int, tr: int, tc: int)
    requires Mirrors(a, g) && |h| == |g| && Uniform(h, a.Length1)
    requires 0 <= r < a.Length0 && 0 <= c < a.Length1 && 0 <= tr < a.Length0 && 0 <= tc < a.Length1
    requires (tr, tc) != (r, c) && h[r][c] == g[tr][tc] && h[tr][tc] == g[r][c]
    requires forall i, j :: 0 <= i < |g| && 0 <= j < a.Length1 && (i, j) != (r, c) && (i, j) != (tr, tc) ==> h[i][j] == g[i][j]
    modifies a
    ensures Mirrors(a, h)
  {
    var val := a[r, c];
    a[r, c] := a[tr, tc];
    a[tr, tc] := val;
  }

  /**
   * The facts about one swap of isSolvable: the value v at (r, c) trades
   * places with the one in its home cell ((v-1)/cols, (v-1)%cols), which is
   * another cell of the board. That cell becomes settled, the result is a
   * board whose parity flips with that of the swap count, and fewer cells are
   * misplaced.
   */
  lemma SwapStep(pattern: Grid, g: Grid, swaps: int, r: int, c: int, tr: int, tc: int) returns (h: Grid)
    requires Tracked(pattern, g, swaps) && 0 <= r < |g| && 0 <= c < |g[0]|
    requires g[r][c] != BLANK && g[r][c] != r * |g[0]| + c + 1 && SettledBefore(g, r, c, |g[0]|)
    requires tr == (g[r][c] - 1) / |g[0]| && tc == (g[r][c] - 1) % |g[0]|
    ensures 0 <= tr < |g| && 0 <= tc < |g[0]| && (tr, tc) != (r, c)
    ensures |h| == |g| && Uniform(h, |g[0]|) && h[r][c] == g[tr][tc] && h[tr][tc] == g[r][c]
    ensures forall i, j :: 0 <= i < |g| && 0 <= j < |g[0]| && (i, j) != (r, c) && (i, j) != (tr, tc) ==> h[i][j] == g[i][j]
    ensures Tracked(pattern, h, swaps + 1) && SettledBefore(h, r, c, |g[0]|)
    ensures |Misplaced(h, |g|, |g[0]|)| < |Misplaced(g, |g|, |g[0]|)|
  {
    HomeTarget(g, r, c, tr, tc);
    SwapPreservesBoard(g, r, c, tr, tc);
    SwapParity(pattern, g, r, c, tr, tc, swaps);
    SwapSettles(g, r, c, tr, tc);
    h := Swapped(g, r, c, tr, tc);
  }

  /** g with the values in cells (r1, c1) and (r2, c2) exchanged. */
  ghost function Swapped(g: Grid, r1: int, c1: int, r2: int, c2: int): (h: Grid)
    requires Rect(g) && 0 <= r1 < |g| && 0 <= c1 < |g[0]| && 0 <= r2 < |g| && 0 <= c2 < |g[0]|
    ensures Rect(h) && |h| == |g| && |h[0]| == |g[0]|
    ensures h[r1][c1] == g[r2][c2] && h[r2][c2] == g[r1][c1]
    ensures forall i, j :: 0 <= i < |g| && 0 <= j < |g[0]| && (i, j) != (r1, c1) && (i, j) != (r2, c2) ==> h[i][j] == g[i][j]
  {
    Put(Put(g, r1, c1, g[r2][c2]), r2, c2, g[r1][c1])
  }

  /**
   * The home cell ((v-1)/cols, (v-1)%cols) of a value v that is neither the
   * blank nor already at home is on the board, is another cell, and does not
   * hold v.
   */
  lemma HomeTarget(g: Grid, r: int, c: int, tr: int, tc: int)
    requires IsBoard(g) && 0 <= r < |g| && 0 <= c < |g[0]|
    requires g[r][c] != BLANK && g[r][c] != r * |g[0]| + c + 1
    requires tr == (g[r][c] - 1) / |g[0]| && tc == (g[r][c] - 1) % |g[0]|
    ensures 0 <= tr < |g| && 0 <= tc < |g[0]| && tr * |g[0]| + tc + 1 == g[r][c]
    ensures (tr, tc) != (r, c) && g[tr][tc] != g[r][c]
  {
    var v := g[r][c];
    BoardCells(g);
    assert 1 <= v < |g| * |g[0]|;
    FlatIndexCell(v - 1, |g|, |g[0]|);
    assert (tr, tc) != (r, c);
  }

  /** Swapping two distinct cells flips the board's parity, and so the swap count keeps step. */
  lemma SwapParity(pattern: Grid, g: Grid, r: int, c: int, tr: int, tc: int, swaps: int)
    requires IsBoard(pattern) && IsBoard(g)
    requires 0 <= r < |g| && 0 <= c < |g[0]| && 0 <= tr < |g| && 0 <= tc < |g[0]| && (r, c) != (tr, tc)
    requires (swaps % 2 == 0) <==> (Parity(g) == Parity(pattern))
    ensures ((swaps + 1) % 2 == 0) <==> (Parity(Swapped(g, r, c, tr, tc)) == Parity(pattern))
  {
    var h := Swapped(g, r, c, tr, tc);
    CellSwapFlipsParity(g, r, c, tr, tc);
    CountStep(swaps, Parity(pattern), Parity(g), Parity(h));
  }

  /**
   * Sending the value at (r, c) to its home (tr, tc) settles (tr, tc), keeps
   * the cells before (r, c) settled and leaves fewer cells misplaced.
   */
  lemma SwapSettles(g: Grid, r: int, c: int, tr: int, tc: int)
    requires Rect(g) && 0 <= r < |g| && 0 <= c < |g[0]| && 0 <= tr < |g| && 0 <= tc < |g[0]|
    requires g[r][c] != r * |g[0]| + c + 1 && g[r][c] == tr * |g[0]| + tc + 1 && g[tr][tc] != g[r][c]
    requires SettledBefore(g, r, c, |g[0]|)
    ensures var h := Swapped(g, r, c, tr, tc);
      SettledBefore(h, r, c, |g[0]|) && |Misplaced(h, |g|, |g[0]|)| < |Misplaced(g, |g|, |g[0]|)|
  {
    var cols := |g[0]|;
    var h := Swapped(g, r, c, tr, tc);
    MisplacedShrinks(g, h, r, c, tr, tc);
    forall i, j | 0 <= i < |g| && 0 <= j < cols && (i < r || (i == r && j < c))
      ensures Settled(h, i, j, cols)
    {
      if (i, j) != (tr, tc) {
        assert Settled(g, i, j, cols);
      }
    }
  }

  /** One more swap flips both the swap count's parity and the board's. */
  lemma CountStep(swaps: int, p: int, q: int, q': int)
    requires 0 <= p < 2 && 0 <= q < 2 && q' == 1 - q
    requires (swaps % 2 == 0) <==> (q == p)
    ensures ((swaps + 1) % 2 == 0) <==> (q' == p)
  {
  }

  lemma MisplacedShrinks(g: Grid, h: Grid, r: int, c: int, tr: int, tc: int)
    requires |g| >= 1 && Uniform(g, |g[0]|) && |h| == |g| && Uniform(h, |g[0]|)
    requires 0 <= r < |g| && 0 <= c < |g[0]| && 0 <= tr < |g| && 0 <= tc < |g[0]|
    requires g[r][c] != r * |g[0]| + c + 1
    requires g[tr][tc] != tr * |g[0]| + tc + 1 && h[tr][tc] == tr * |g[0]| + tc + 1
    requires forall i, j :: 0 <= i < |g| && 0 <= j < |g[0]| && (i, j) != (r, c) && (i, j) != (tr, tc) ==> h[i][j] == g[i][j]
    ensures |Misplaced(h, |g|, |g[0]|)| < |Misplaced(g, |g|, |g[0]|)|
  {
    var rows, cols := |g|, |g[0]|;
    assert (tr, tc) in Misplaced(g, rows, cols);
    assert (tr, tc) !in Misplaced(h, rows, cols);
    forall p | p in Misplaced(h, rows, cols)
      ensures p in Misplaced(g, rows, cols)
    {
      var (i, j) := p;
      if (i, j) != (r, c) && (i, j) != (tr, tc) {
        assert h[i][j] == g[i][j];
      }
    }
    var rest := Misplaced(g, rows, cols) - {(tr, tc)};
    assert Misplaced(h, rows, cols) <= rest;
    SubsetCard(Misplaced(h, rows, cols), rest);
  }

  lemma {:induction false} SubsetCard<T>(a: set<T>, b: set<T>)
    requires a <= b
    ensures |a| <= |b|
    decreases |a|
  {
    if a != {} {
      var x :| x in a;
      SubsetCard(a - {x}, b - {x});
    }
  }

  /** A valid board on which every cell is settled is the goal board. */
  lemma SettledIsSolved(g: Grid)
    requires IsBoard(g)
    requires SettledBefore(g, |g|, 0, |g[0]|)
    ensures g == SolvedState(|g|, |g[0]|)
  {
    var rows, cols := |g|, |g[0]|;
    var goal := SolvedState(rows, cols);
    BoardCells(g);
    assert g[rows - 1][cols - 1] == BLANK by {
      assert Settled(g, rows - 1, cols - 1, cols);
      MulPred(rows, cols);
    }
    forall i, j | 0 <= i < rows && 0 <= j < cols
      ensures g[i][j] == goal[i][j]
    {
      assert Settled(g, i, j, cols);
      if (i, j) != (rows - 1, cols - 1) {
        assert g[i][j] != g[rows - 1][cols - 1];
      }
    }
    GridExt(g, goal, cols);
  }
}
