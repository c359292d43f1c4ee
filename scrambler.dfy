/**
 * The scramble of src/fifteenpuzzle/PuzzleScrambler.java: a random solvable
 * board with the blank in the bottom-right cell, and the sequence of moves that
 * leads from the solved board to it.
 */
module Scrambler {
  import opened Wrappers
  import opened Moves
  import opened Grids
  import opened Boards
  import opened Solvability
  import opened Solver
  import opened Solving

  /**
   * rand(k, bound) is the k-th call rgen.nextInt(bound) of java.util.Random:
   * a value in 0 .. bound-1. Nothing is assumed about its distribution.
   */
  ghost predicate Draws(rand: (nat, nat) -> nat)
  {
    forall k: nat, bound: nat :: 0 < bound ==> rand(k, bound) < bound
  }

  /**
   * The fill loop of generateScrambleState: every cell but the last takes a
   * value drawn from the values 1 .. rows*cols-1 not placed yet, the k-th
   * draw being rand(k, number left); the last cell takes the blank. The
   * result is a valid board, whatever the draws are.
   */
  method Deal(numRows: int, numCols: int, rand: (nat, nat) -> nat, draws: nat)
    returns (values: Grid, drawsAfter: nat)
    requires numRows >= MIN_ROWS && numCols >= MIN_COLS && Draws(rand)
    ensures IsBoard(values) && |values| == numRows && |values[0]| == numCols
    ensures values[numRows - 1][numCols - 1] == BLANK
    ensures drawsAfter == draws + numRows * numCols - 1
  {
    var n := numRows * numCols;
    var availableValues := Range(1, n);
    CellsInProduct(numRows, numCols);
    values := [];
    drawsAfter := draws;
    for r := 0 to numRows
      invariant Dealing(values, availableValues, multiset(Range(1, n)), numRows, numCols, r)
      invariant drawsAfter + |availableValues| == draws + n - 1
    {
      var row, rest;
      row, rest, drawsAfter := FillRow(values, multiset(Range(1, n)), numRows, numCols, r, rand, availableValues, drawsAfter);
      values, availableValues := values + [row], rest;
    }
    DealtBoard(values, n);
  }

  /**
   * The state of the fill after r rows: values holds them, and it and
   * availableValues together hold 1 .. rows*cols-1, and the blank once every
   * row is filled, in its last cell.
   */
  ghost predicate Dealing(values: Grid, availableValues: seq<int>, pool: multiset<int>, numRows: int, numCols: int, r: int)
  {
    numCols >= 1 && 0 <= r <= numRows && |values| == r && Uniform(values, numCols) &&
    multiset(Flatten(values)) + multiset(availableValues) == pool + Blanks(r == numRows) &&
    (r < numRows ==> |availableValues| == CellsIn(numRows - r, numCols) - 1) &&
    (r == numRows ==> |availableValues| == 0 && r >= 1 && values[r - 1][numCols - 1] == BLANK)
  }

  /** Before row r is filled, enough values are left for it. */
  lemma DealingRoom(values: Grid, availableValues: seq<int>, pool: multiset<int>, numRows: int, numCols: int, r: int)
    requires Dealing(values, availableValues, pool, numRows, numCols, r) && r < numRows && numCols >= 1
    ensures |availableValues| >= if r == numRows - 1 then numCols - 1 else numCols
  {
    RowsLeft(numRows, r, numCols);
  }

  /** Filling row r takes the fill from r rows to r + 1. */
  lemma DealingStep(values: Grid, availableValues: seq<int>, pool: multiset<int>, numRows: int, numCols: int, r: int,
                    row: seq<int>, rest: seq<int>)
    requires Dealing(values, availableValues, pool, numRows, numCols, r) && r < numRows && numCols >= 1
    requires |row| == numCols
    requires multiset(row) + multiset(rest) == multiset(availableValues) + Blanks(r == numRows - 1)
    requires |rest| == |availableValues| - numCols + (if r == numRows - 1 then 1 else 0)
    requires r == numRows - 1 ==> row[numCols - 1] == BLANK
    ensures Dealing(values + [row], rest, pool, numRows, numCols, r + 1)
  {
    var next := values + [row];
    assert Uniform(next, numCols);
    assert multiset(Flatten(next)) + multiset(rest) == pool + Blanks(r + 1 == numRows) by {
      FlattenSnoc(values, row);
      PlaceRow(Flatten(values), row, availableValues, rest, pool, r == numRows - 1);
    }
    assert r + 1 < numRows ==> |rest| == CellsIn(numRows - (r + 1), numCols) - 1 by {
      RowsLeft(numRows, r, numCols);
    }
  }

  /**
   * One pass of the inner loop of the fill: the cells of row r, left to
   * right, each taking the value at a drawn index of availableValues, which
   * loses it; in the last row the last cell takes the blank instead. The fill
   * goes from r rows to r + 1, each draw using up one value.
   */
  method FillRow(ghost values: Grid, ghost pool: multiset<int>, numRows: int, numCols: int, r: int,
                 rand: (nat, nat) -> nat, availableValues: seq<int>, draws: nat)
    returns (row: seq<int>, rest: seq<int>, drawsAfter: nat)
    requires Dealing(values, availableValues, pool, numRows, numCols, r) && r < numRows && Draws(rand)
    ensures Dealing(values + [row], rest, pool, numRows, numCols, r + 1)
    ensures drawsAfter + |rest| == draws + |availableValues|
  {
    var lastRow := r == numRows - 1;
    DealingRoom(values, availableValues, pool, numRows, numCols, r);
    row, rest, drawsAfter := [], availableValues, draws;
    for c := 0 to numCols
      invariant |row| == c
      invariant multiset(row) + multiset(rest) ==
        multiset(availableValues) + Blanks(lastRow && c == numCols)
      invariant |rest| == |availableValues| - c + (if lastRow && c == numCols then 1 else 0)
      invariant drawsAfter + |rest| == draws + |availableValues|
      invariant lastRow && c == numCols ==> row[numCols - 1] == BLANK
    {
      if lastRow && c == numCols - 1 {
        PutBlank(row, rest, availableValues);
        row := row + [BLANK];
      } else {
        var randIndex := rand(drawsAfter, |rest|);
        TakeAt(row, rest, randIndex, availableValues, false);
        row := row + [rest[randIndex]];
        rest := rest[..randIndex] + rest[randIndex + 1..];
        drawsAfter := drawsAfter + 1;
      }
    }
    DealingStep(values, availableValues, pool, numRows, numCols, r, row, rest);
  }

  /** The blank when b holds, nothing otherwise. */
  ghost function Blanks(b: bool): multiset<int>
  {
    if b then multiset{BLANK} else multiset{}
  }

  /** Filling a row moves values from availableValues onto the board. */
  lemma PlaceRow(placed: seq<int>, row: seq<int>, availableValues: seq<int>, rest: seq<int>,
                 all: multiset<int>, lastRow: bool)
    requires multiset(placed) + multiset(availableValues) == all
    requires multiset(row) + multiset(rest) == multiset(availableValues) + Blanks(lastRow)
    ensures multiset(placed + row) + multiset(rest) == all + Blanks(lastRow)
  {
    assert multiset(placed + row) == multiset(placed) + multiset(row);
    var left, right := multiset(placed + row) + multiset(rest), all + Blanks(lastRow);
    forall x
      ensures left[x] == right[x]
    {
      assert (multiset(placed) + multiset(availableValues))[x] == all[x];
      assert (multiset(row) + multiset(rest))[x] == (multiset(availableValues) + Blanks(lastRow))[x];
    }
  }

  /** The number of cells in k rows of cols cells, counted row by row. */
  function CellsIn(k: int, cols: int): (cells: int)
    ensures cols >= 0 ==> cells >= 0
    decreases k
  {
    if k <= 0 then 0 else cols + CellsIn(k - 1, cols)
  }

  /** Counting row by row gives the product. */
  lemma {:induction false} CellsInProduct(k: nat, cols: int)
    ensures CellsIn(k, cols) == k * cols
  {
    if k > 0 {
      CellsInProduct(k - 1, cols);
      MulPred(k, cols);
    }
  }

  /** Rows r .. rows-1 still to fill: their cells less the blank, and one row fewer after row r. */
  lemma RowsLeft(rows: int, r: int, cols: int)
    requires 0 <= r < rows && cols >= 1
    ensures CellsIn(rows - r, cols) - 1 >= (if r == rows - 1 then cols - 1 else cols)
    ensures CellsIn(rows - r, cols) - 1 - cols == CellsIn(rows - (r + 1), cols) - 1
  {
    if r < rows - 1 {
      assert CellsIn(rows - (r + 1), cols) >= cols;
    }
  }

  /** Moving the element at i of s to the end of row keeps the values in play. */
  lemma TakeAt(row: seq<int>, s: seq<int>, i: int, availableValues: seq<int>, b: bool)
    requires 0 <= i < |s|
    requires multiset(row) + multiset(s) == multiset(availableValues) + Blanks(b)
    ensures multiset(row + [s[i]]) + multiset(s[..i] + s[i + 1..]) == multiset(availableValues) + Blanks(b)
    ensures |s[..i] + s[i + 1..]| == |s| - 1
  {
    assert s == s[..i] + [s[i]] + s[i + 1..];
    var left, right := multiset(row + [s[i]]) + multiset(s[..i] + s[i + 1..]), multiset(availableValues) + Blanks(b);
    forall x
      ensures left[x] == right[x]
    {
      assert (multiset(row) + multiset(s))[x] == right[x];
    }
  }

  /** Putting the blank at the end of row adds it to the values in play. */
  lemma PutBlank(row: seq<int>, s: seq<int>, availableValues: seq<int>)
    requires multiset(row) + multiset(s) == multiset(availableValues) + Blanks(false)
    ensures multiset(row + [BLANK]) + multiset(s) == multiset(availableValues) + Blanks(true)
  {
    var left, right := multiset(row + [BLANK]) + multiset(s), multiset(availableValues) + Blanks(true);
    forall x
      ensures left[x] == right[x]
    {
      assert (multiset(row) + multiset(s))[x] == (multiset(availableValues) + Blanks(false))[x];
    }
  }

  /** Cells holding 1 .. n-1 and one blank make a valid board. */
  lemma DealtBoard(g: Grid, n: int)
    requires Rect(g) && n == |g| * |g[0]|
    requires multiset(Flatten(g)) == multiset(Range(1, n)) + multiset{BLANK}
    ensures IsBoard(g)
  {
    assert Range(0, n) == [BLANK] + Range(1, n);
  }

  /**
   * One pass of the do-while body of generateScrambleState: the fill, then,
   * when isSolvable rejects the board, the swap of its first two cells. The
   * result is a valid board with the blank bottom-right and an even permutation.
   */
  method Attempt(numRows: int, numCols: int, rand: (nat, nat) -> nat, draws: nat)
    returns (values: Grid, drawsAfter: nat)
    requires numRows >= MIN_ROWS && numCols >= MIN_COLS && Draws(rand)
    ensures IsBoard(values) && |values| == numRows && |values[0]| == numCols
    ensures values[numRows - 1][numCols - 1] == BLANK
    ensures EvenPermutation(values)
    ensures drawsAfter == draws + numRows * numCols - 1
  {
    values, drawsAfter := Deal(numRows, numCols, rand, draws);
    var solvable := IsSolvable(values);
    if !solvable {
      CellSwapFlipsParity(values, 0, 0, 0, 1);
      SwapPreservesBoard(values, 0, 0, 0, 1);
      var temp := values[0][0];
      values := Put(Put(values, 0, 0, values[0][1]), 0, 1, temp);
    }
  }

  /**
   * generateScrambleState: attempts are repeated while the board comes out
   * solved. The source repeats without bound; here at most maxAttempts times,
   * and scrambled reports whether the board returned differs from the solved one.
   */
  method GenerateScrambleState(numRows: int, numCols: int, rand: (nat, nat) -> nat, maxAttempts: nat)
    returns (values: Grid, scrambled: bool)
    requires numRows >= MIN_ROWS && numCols >= MIN_COLS && Draws(rand) && maxAttempts >= 1
    ensures IsBoard(values) && |values| == numRows && |values[0]| == numCols
    ensures values[numRows - 1][numCols - 1] == BLANK
    ensures EvenPermutation(values)
    ensures scrambled <==> values != SolvedState(numRows, numCols)
  {
    var draws;
    values, draws := Attempt(numRows, numCols, rand, 0);
    var solved := CheckSolved(values);
    var attempts := 1;
    while solved && attempts < maxAttempts
      invariant IsBoard(values) && |values| == numRows && |values[0]| == numCols
      invariant values[numRows - 1][numCols - 1] == BLANK && EvenPermutation(values)
      invariant solved <==> values == SolvedState(numRows, numCols)
      decreases maxAttempts - attempts
    {
      values, draws := Attempt(numRows, numCols, rand, draws);
      solved := CheckSolved(values);
      attempts := attempts + 1;
    }
    scrambled := !solved;
  }

  /**
   * ms scrambles the solved board into g: applied to the solved board of g's
   * size it gives g, every move moves a tile, and no move undoes the one before.
   */
  ghost predicate Scrambles(ms: seq<Move>, g: Grid)
    requires Rect(g)
  {
    var start := SolvedState(|g|, |g[0]|);
    SolvedStateIsBoard(|g|, |g[0]|);
    ApplySequence(start, ms) == g && EffectiveFrom(start, ms) && NoUndo(ms)
  }

  /** The reversed sequence of a solution of g scrambles the solved board into g. */
  lemma ReversedSolutionScrambles(g: Grid, solution: seq<Move>)
    requires IsBoard(g) && Leads(g, solution) && EffectiveFrom(g, solution) && NoUndo(solution)
    ensures Scrambles(ReversedSequence(solution), g)
  {
    var rows, cols := |g|, |g[0]|;
    var back := ReversedSequence(solution);
    SolvedStateIsBoard(rows, cols);
    BoardOneBlank(g);
    ReversedUndoes(g, solution);
    NoUndoReversed(solution);
    var (r, c) := BlankCell(g).value;
    SlideAllOneBlank(g, solution);
    ReversedEffective(rows, cols, r, c, solution);
  }

  /**
   * generateScrambleSequence: the moves that take the solved board to a
   * generated one, found by solving the generated board and reversing the
   * solution. None when the search runs out of fuel; the generated board has
   * an even permutation, so solve never rejects it.
   */
  method GenerateScrambleSequence(numRows: int, numCols: int, rand: (nat, nat) -> nat, maxAttempts: nat, fuel: nat)
    returns (sequence: Option<seq<Move>>, ghost scrambleState: Grid)
    requires numRows >= MIN_ROWS && numCols >= MIN_COLS && Draws(rand) && maxAttempts >= 1
    ensures IsBoard(scrambleState) && |scrambleState| == numRows && |scrambleState[0]| == numCols
    ensures scrambleState[numRows - 1][numCols - 1] == BLANK && EvenPermutation(scrambleState)
    ensures sequence.Some? ==> Scrambles(sequence.value, scrambleState)
  {
    var values, scrambled := GenerateScrambleState(numRows, numCols, rand, maxAttempts);
    scrambleState := values;
    var solution := Solve(values, fuel);
    if solution.Solution? {
      ReversedSolutionScrambles(scrambleState, solution.moves);
      sequence := Some(ReversedSequence(solution.moves));
    } else {
      sequence := None;
    }
  }
}
