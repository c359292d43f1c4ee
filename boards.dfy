/**
 * Board states as values: the goal board, home cells, the blank lookup, and
 * moves applied to a copy of a board (the pure side of
 * src/fifteenpuzzle/PuzzleSolver.java and src/fifteenpuzzle/PuzzleScrambler.java).
 */
module Boards {
  import opened Wrappers
  import opened Moves
  import opened Grids

  /** Puzzle.BLANK_TILE. */
  const BLANK: int := 0
  /** Settings.MIN_ROWS and Settings.MIN_COLS. */
  const MIN_ROWS: int := 2
  const MIN_COLS: int := 2

  /** A rectangular grid of at least MIN_ROWS x MIN_COLS cells. */
  ghost predicate Rect(g: Grid)
  {
    |g| >= MIN_ROWS && |g[0]| >= MIN_COLS && Uniform(g, |g[0]|)
  }

  /** The board invariant: the cells hold 0 .. rows*cols-1, each exactly once (0 is the blank). */
  ghost predicate IsBoard(g: Grid)
  {
    Rect(g) && multiset(Flatten(g)) == multiset(Range(0, |g| * |g[0]|))
  }

  /** The value the goal board holds at (r, c). */
  function Goal(r: int, c: int, rows: int, cols: int): int
  {
    if r == rows - 1 && c == cols - 1 then BLANK else r * cols + c + 1
  }

  /** The goal board: r*cols+c+1 at (r, c), the blank in the last cell. */
  function SolvedState(rows: int, cols: int): (g: Grid)
    requires rows >= 0 && cols >= 0
    ensures |g| == rows && Uniform(g, cols)
  {
    seq(rows, r => seq(cols, c => Goal(r, c, rows, cols)))
  }

  /** Every cell equals the goal board's cell. */
  predicate IsSolved(g: Grid)
    requires |g| >= 1 && Uniform(g, |g[0]|)
  {
    var goal := SolvedState(|g|, |g[0]|);
    forall r, c :: 0 <= r < |g| && 0 <= c < |g[0]| ==> g[r][c] == goal[r][c]
  }

  /** Where a value belongs on the goal board; None is the source's NO_CELL. */
  function HomeCell(value: int, rows: int, cols: int): (h: Option<(int, int)>)
    requires rows >= 1 && cols >= 1
    ensures value == BLANK ==> h == Some((rows - 1, cols - 1))
    ensures h.Some? <==> 0 <= value < rows * cols
    ensures h.Some? ==> 0 <= h.value.0 < rows && 0 <= h.value.1 < cols &&
                        SolvedState(rows, cols)[h.value.0][h.value.1] == value
  {
    if value == BLANK then
      Some((rows - 1, cols - 1))
    else if value >= rows * cols || value <= 0 then
      None
    else
      FlatIndexCell(value - 1, rows, cols);
      var r, c := (value - 1) / cols, (value - 1) % cols;
      assert r == rows - 1 && c == cols - 1 ==> value == rows * cols by {
        if r == rows - 1 && c == cols - 1 {
          MulPred(rows, cols);
        }
      }
      Some((r, c))
  }

  // ---------------------------------------------------------------------------
  // Locating the blank

  /** Cell (r1, c1) is at or before (r2, c2) in row-major order. */
  predicate AtOrBefore(r1: int, c1: int, r2: int, c2: int)
  {
    r1 < r2 || (r1 == r2 && c1 <= c2)
  }

  /** Scans cells backwards from (r, c) in row-major order for the blank. */
  function FindBlank(g: Grid, r: int, c: int): (b: Option<(int, int)>)
    requires Rect(g) && -1 <= r < |g| && -1 <= c < |g[0]|
    ensures b.None? <==>
      forall i, j :: 0 <= i < |g| && 0 <= j < |g[0]| && AtOrBefore(i, j, r, c) ==> g[i][j] != BLANK
    ensures b.Some? ==>
      var (br, bc) := b.value;
      0 <= br < |g| && 0 <= bc < |g[0]| && AtOrBefore(br, bc, r, c) && g[br][bc] == BLANK &&
      forall i, j :: 0 <= i < |g| && 0 <= j < |g[0]| && AtOrBefore(i, j, r, c) && !AtOrBefore(i, j, br, bc) ==> g[i][j] != BLANK
    decreases r + 1, c + 1
  {
    if r < 0 then None
    else if c < 0 then FindBlank(g, r - 1, |g[0]| - 1)
    else if g[r][c] == BLANK then Some((r, c))
    else FindBlank(g, r, c - 1)
  }

  /**
   * The blank cell, found by scanning from the bottom-right cell backwards; None
   * (the source's {-1}) when there is no blank.
   */
  function BlankCell(g: Grid): (b: Option<(int, int)>)
    requires Rect(g)
    ensures b.None? <==> forall i, j :: 0 <= i < |g| && 0 <= j < |g[0]| ==> g[i][j] != BLANK
    ensures b.Some? ==>
      var (br, bc) := b.value;
      0 <= br < |g| && 0 <= bc < |g[0]| && g[br][bc] == BLANK &&
      forall i, j :: 0 <= i < |g| && 0 <= j < |g[0]| && !AtOrBefore(i, j, br, bc) ==> g[i][j] != BLANK
  {
    FindBlank(g, |g| - 1, |g[0]| - 1)
  }

  ghost predicate HasBlank(g: Grid)
    requires Rect(g)
  {
    BlankCell(g).Some?
  }

  // ---------------------------------------------------------------------------
  // Moves on values

  /** The cell the blank moves to under m (a LEFT move slides a tile left, so the blank goes right). */
  function Neighbour(r: int, c: int, m: Move): (int, int)
  {
    match m
    case Left => (r, c + 1)
    case Right => (r, c - 1)
    case Up => (r + 1, c)
    case Down => (r - 1, c)
  }

  /** m is not a no-op for a blank at (r, c): the blank is not on the edge m pushes it past. */
  predicate CanMove(rows: int, cols: int, r: int, c: int, m: Move)
  {
    match m
    case Left => c != cols - 1
    case Right => c != 0
    case Up => r != rows - 1
    case Down => r != 0
  }

  /** The blank cell applyMoveLeft/Right/Up/Down returns: the neighbour, or (r, c) at the edge. */
  function NextBlank(rows: int, cols: int, r: int, c: int, m: Move): (b: (int, int))
    ensures 0 <= r < rows && 0 <= c < cols ==> 0 <= b.0 < rows && 0 <= b.1 < cols
  {
    if CanMove(rows, cols, r, c, m) then Neighbour(r, c, m) else (r, c)
  }

  /**
   * applyMoveLeft/Right/Up/Down on a copy: the tile next to the blank at (r, c)
   * moves into it and its cell becomes the blank; at the edge nothing changes.
   */
  function Slide(g: Grid, r: int, c: int, m: Move): (h: Grid)
    requires Rect(g) && 0 <= r < |g| && 0 <= c < |g[0]| && g[r][c] == BLANK
    ensures Rect(h) && |h| == |g| && |h[0]| == |g[0]|
    ensures var (r', c') := NextBlank(|g|, |g[0]|, r, c, m); h[r'][c'] == BLANK
  {
    if !CanMove(|g|, |g[0]|, r, c, m) then
      g
    else
      var (tr, tc) := Neighbour(r, c, m);
      Put(Put(g, r, c, g[tr][tc]), tr, tc, BLANK)
  }

  /** The tracked blank cell after every move of ms. */
  function EndBlank(rows: int, cols: int, r: int, c: int, ms: seq<Move>): (int, int)
    decreases |ms|
  {
    if ms == [] then (r, c)
    else
      var (r', c') := NextBlank(rows, cols, r, c, ms[0]);
      EndBlank(rows, cols, r', c', ms[1..])
  }

  /** The loop of applySequence: each move slides from the blank cell the previous one returned. */
  function SlideAll(g: Grid, r: int, c: int, ms: seq<Move>): (h: Grid)
    requires Rect(g) && 0 <= r < |g| && 0 <= c < |g[0]| && g[r][c] == BLANK
    ensures Rect(h) && |h| == |g| && |h[0]| == |g[0]|
    ensures var (r', c') := EndBlank(|g|, |g[0]|, r, c, ms);
      0 <= r' < |g| && 0 <= c' < |g[0]| && h[r'][c'] == BLANK
    decreases |ms|
  {
    if ms == [] then
      g
    else
      var (r', c') := NextBlank(|g|, |g[0]|, r, c, ms[0]);
      SlideAll(Slide(g, r, c, ms[0]), r', c', ms[1..])
  }

  /** PuzzleScrambler.applyMove: one move relative to the blank that BlankCell finds. */
  function ApplyMove(g: Grid, m: Move): (h: Grid)
    requires Rect(g) && HasBlank(g)
    ensures Rect(h) && |h| == |g| && |h[0]| == |g[0]|
  {
    var (r, c) := BlankCell(g).value;
    Slide(g, r, c, m)
  }

  /** PuzzleScrambler.applySequence: the moves applied in order, starting from the blank BlankCell finds. */
  function ApplySequence(g: Grid, ms: seq<Move>): (h: Grid)
    requires Rect(g) && HasBlank(g)
    ensures Rect(h) && |h| == |g| && |h[0]| == |g[0]|
  {
    var (r, c) := BlankCell(g).value;
    SlideAll(g, r, c, ms)
  }

  /** Every move of ms, tracked from a blank at (r, c), actually moves a tile. */
  predicate Effective(rows: int, cols: int, r: int, c: int, ms: seq<Move>)
    decreases |ms|
  {
    ms == [] ||
    (CanMove(rows, cols, r, c, ms[0]) &&
     var (r', c') := Neighbour(r, c, ms[0]);
     Effective(rows, cols, r', c', ms[1..]))
  }

  /** Every move of ms, tracked from the blank of g, actually moves a tile. */
  ghost predicate EffectiveFrom(g: Grid, ms: seq<Move>)
    requires Rect(g) && HasBlank(g)
  {
    Effective(|g|, |g[0]|, BlankCell(g).value.0, BlankCell(g).value.1, ms)
  }

  /** m moves a tile of g: the blank is not on the edge m pushes it past. */
  ghost predicate MovesTile(g: Grid, m: Move)
    requires Rect(g) && HasBlank(g)
  {
    CanMove(|g|, |g[0]|, BlankCell(g).value.0, BlankCell(g).value.1, m)
  }

  /** No move is immediately followed by its inverse. */
  ghost predicate NoUndo(ms: seq<Move>)
  {
    forall i :: 0 <= i < |ms| - 1 ==> ms[i + 1] != Inverse(ms[i])
  }

  // ---------------------------------------------------------------------------
  // Facts about valid boards

  /** A valid board's cells hold values in range, pairwise distinct. */
  lemma BoardCells(g: Grid)
    requires IsBoard(g)
    ensures forall r, c :: 0 <= r < |g| && 0 <= c < |g[0]| ==> 0 <= g[r][c] < |g| * |g[0]|
    ensures forall r1, c1, r2, c2 ::
      0 <= r1 < |g| && 0 <= c1 < |g[0]| && 0 <= r2 < |g| && 0 <= c2 < |g[0]| && (r1, c1) != (r2, c2) ==>
      g[r1][c1] != g[r2][c2]
  {
    var cols, f := |g[0]|, Flatten(g);
    RangeDistinct(0, |g| * cols);
    DistinctByMultiset(f, Range(0, |g| * cols));
    forall r, c | 0 <= r < |g| && 0 <= c < cols
      ensures 0 <= g[r][c] < |g| * cols
    {
      FlattenAt(g, cols, r, c);
      assert g[r][c] in multiset(f);
      RangeMember(0, |g| * cols, g[r][c]);
    }
    forall r1, c1, r2, c2 |
      0 <= r1 < |g| && 0 <= c1 < cols && 0 <= r2 < |g| && 0 <= c2 < cols && (r1, c1) != (r2, c2)
      ensures g[r1][c1] != g[r2][c2]
    {
      FlattenAt(g, cols, r1, c1);
      FlattenAt(g, cols, r2, c2);
      if r1 * cols + c1 == r2 * cols + c2 {
        FlatIndexInjective(r1, c1, r2, c2, cols);
      }
      FlatIndexBound(r1, c1, |g|, cols);
      FlatIndexBound(r2, c2, |g|, cols);
    }
  }

  /** Every value 0 .. rows*cols-1 sits in some cell of a valid board. */
  lemma BoardHasValue(g: Grid, v: int) returns (r: int, c: int)
    requires IsBoard(g) && 0 <= v < |g| * |g[0]|
    ensures 0 <= r < |g| && 0 <= c < |g[0]| && g[r][c] == v
  {
    RangeMember(0, |g| * |g[0]|, v);
    assert v in multiset(Flatten(g));
    r, c := FlattenMember(g, v);
  }

  /** A valid board has exactly one blank, and BlankCell finds it. */
  lemma BoardBlank(g: Grid)
    requires IsBoard(g)
    ensures HasBlank(g)
    ensures forall r, c :: 0 <= r < |g| && 0 <= c < |g[0]| && g[r][c] == BLANK ==> BlankCell(g) == Some((r, c))
  {
    MulLeq(1, |g|, |g[0]|);
    var r0, c0 := BoardHasValue(g, BLANK);
    BoardCells(g);
    var b := BlankCell(g);
    forall r, c | 0 <= r < |g| && 0 <= c < |g[0]| && g[r][c] == BLANK
      ensures b == Some((r, c))
    {
      var (br, bc) := b.value;
      assert g[br][bc] == g[r][c];
    }
  }

  /** Reading the goal board row by row gives 1, 2, ..., rows*cols-1 and then the blank. */
  lemma FlattenSolved(rows: int, cols: int)
    requires rows >= 1 && cols >= 1
    ensures Flatten(SolvedState(rows, cols)) == Range(1, rows * cols) + [BLANK]
  {
    var g, n := SolvedState(rows, cols), rows * cols;
    MulLeq(1, rows, cols);
    FlattenLength(g, cols);
    var f, e := Flatten(g), Range(1, n) + [BLANK];
    forall i | 0 <= i < n
      ensures f[i] == e[i]
    {
      FlatIndexCell(i, rows, cols);
      var r, c := i / cols, i % cols;
      FlattenAt(g, cols, r, c);
      MulPred(rows, cols);
      if i == n - 1 {
        FlatIndexInjective(r, c, rows - 1, cols - 1, cols);
      }
    }
  }

  /** The goal board is a valid board with its blank in the bottom-right cell. */
  lemma SolvedStateIsBoard(rows: int, cols: int)
    requires rows >= MIN_ROWS && cols >= MIN_COLS
    ensures IsBoard(SolvedState(rows, cols))
    ensures BlankCell(SolvedState(rows, cols)) == Some((rows - 1, cols - 1))
  {
    var g := SolvedState(rows, cols);
    FlattenSolved(rows, cols);
    assert Range(0, rows * cols) == [0] + Range(1, rows * cols);
    BoardBlank(g);
  }

  /** isSolved holds exactly for the goal board. */
  lemma IsSolvedIff(g: Grid)
    requires |g| >= 1 && Uniform(g, |g[0]|)
    ensures IsSolved(g) <==> g == SolvedState(|g|, |g[0]|)
  {
    if IsSolved(g) {
      GridExt(g, SolvedState(|g|, |g[0]|), |g[0]|);
    }
  }

  /** Swapping two cells keeps a valid board valid. */
  lemma SwapPreservesBoard(g: Grid, r1: int, c1: int, r2: int, c2: int)
    requires IsBoard(g)
    requires 0 <= r1 < |g| && 0 <= c1 < |g[0]| && 0 <= r2 < |g| && 0 <= c2 < |g[0]|
    ensures IsBoard(Put(Put(g, r1, c1, g[r2][c2]), r2, c2, g[r1][c1]))
  {
    var cols := |g[0]|;
    FlattenSwap(g, cols, r1, c1, r2, c2);
    var f := Flatten(g);
    var i, j := r1 * cols + c1, r2 * cols + c2;
    SwapMultiset(f, i, j);
  }

  lemma SwapMultiset(s: seq<int>, i: int, j: int)
    requires 0 <= i < |s| && 0 <= j < |s|
    ensures multiset(s[i := s[j]][j := s[i]]) == multiset(s)
  {
  }

  /** A move keeps a valid board valid: it swaps the blank with a neighbour, or changes nothing. */
  lemma SlidePreservesBoard(g: Grid, r: int, c: int, m: Move)
    requires IsBoard(g) && 0 <= r < |g| && 0 <= c < |g[0]| && g[r][c] == BLANK
    ensures IsBoard(Slide(g, r, c, m))
  {
    if CanMove(|g|, |g[0]|, r, c, m) {
      var (tr, tc) := Neighbour(r, c, m);
      SwapPreservesBoard(g, r, c, tr, tc);
    }
  }

  // ---------------------------------------------------------------------------
  // Moves on boards with a single blank

  /** The grid has a blank, and BlankCell's is the only one. */
  ghost predicate OneBlank(g: Grid)
    requires Rect(g)
  {
    HasBlank(g) &&
    forall r, c :: 0 <= r < |g| && 0 <= c < |g[0]| && g[r][c] == BLANK ==> (r, c) == BlankCell(g).value
  }

  /** A valid board has exactly one blank. */
  lemma BoardOneBlank(g: Grid)
    requires IsBoard(g)
    ensures OneBlank(g)
  {
    BoardBlank(g);
  }

  /** The neighbour a possible move targets is on the board, and the inverse move leads back. */
  lemma NeighbourInverse(rows: int, cols: int, r: int, c: int, m: Move)
    requires 0 <= r < rows && 0 <= c < cols && CanMove(rows, cols, r, c, m)
    ensures var (tr, tc) := Neighbour(r, c, m);
      0 <= tr < rows && 0 <= tc < cols && (tr, tc) != (r, c) &&
      CanMove(rows, cols, tr, tc, Inverse(m)) && Neighbour(tr, tc, Inverse(m)) == (r, c)
  {
  }

  /** Sliding swaps the cell (r, c) with its neighbour, leaving every other cell alone. */
  lemma SlideCells(g: Grid, r: int, c: int, m: Move)
    requires Rect(g) && 0 <= r < |g| && 0 <= c < |g[0]| && g[r][c] == BLANK && CanMove(|g|, |g[0]|, r, c, m)
    ensures var (tr, tc) := Neighbour(r, c, m);
      var h := Slide(g, r, c, m);
      h[r][c] == g[tr][tc] && h[tr][tc] == BLANK &&
      forall i, j :: 0 <= i < |g| && 0 <= j < |g[0]| && (i, j) != (r, c) && (i, j) != (tr, tc) ==> h[i][j] == g[i][j]
  {
    NeighbourInverse(|g|, |g[0]|, r, c, m);
  }

  /** With a single blank, the tracked blank is where BlankCell finds it after the move. */
  lemma SlideOneBlank(g: Grid, m: Move)
    requires Rect(g) && OneBlank(g)
    ensures var (r, c) := BlankCell(g).value;
      var h := Slide(g, r, c, m);
      OneBlank(h) && BlankCell(h) == Some(NextBlank(|g|, |g[0]|, r, c, m))
  {
    var (r, c) := BlankCell(g).value;
    if CanMove(|g|, |g[0]|, r, c, m) {
      var h := Slide(g, r, c, m);
      var (tr, tc) := Neighbour(r, c, m);
      NeighbourInverse(|g|, |g[0]|, r, c, m);
      SlideCells(g, r, c, m);
      assert BlankCell(h).Some?;
      assert forall i, j :: 0 <= i < |g| && 0 <= j < |g[0]| && h[i][j] == BLANK ==> (i, j) == (tr, tc);
    }
  }

  /**
   * A move is relative to the blank BlankCell finds: at the edge it changes
   * nothing, otherwise exactly the blank and the neighbour in the move's
   * direction trade places, and the blank is then found in the neighbour's cell.
   */
  lemma ApplyMoveEffect(g: Grid, m: Move)
    requires Rect(g) && OneBlank(g)
    ensures var (r, c) := BlankCell(g).value;
      !CanMove(|g|, |g[0]|, r, c, m) ==> ApplyMove(g, m) == g
    ensures var (r, c) := BlankCell(g).value;
      var (tr, tc) := Neighbour(r, c, m);
      CanMove(|g|, |g[0]|, r, c, m) ==>
        0 <= tr < |g| && 0 <= tc < |g[0]| && (tr, tc) != (r, c) &&
        var h := ApplyMove(g, m);
        h[r][c] == g[tr][tc] && h[tr][tc] == BLANK &&
        (forall i, j :: 0 <= i < |g| && 0 <= j < |g[0]| && (i, j) != (r, c) && (i, j) != (tr, tc) ==> h[i][j] == g[i][j]) &&
        BlankCell(h) == Some((tr, tc))
  {
    var (r, c) := BlankCell(g).value;
    if CanMove(|g|, |g[0]|, r, c, m) {
      NeighbourInverse(|g|, |g[0]|, r, c, m);
      SlideCells(g, r, c, m);
      SlideOneBlank(g, m);
    }
  }

  /** A move that is not a no-op, followed by its inverse, restores the board. */
  lemma MoveThenInverse(g: Grid, m: Move)
    requires Rect(g) && OneBlank(g)
    requires CanMove(|g|, |g[0]|, BlankCell(g).value.0, BlankCell(g).value.1, m)
    ensures OneBlank(ApplyMove(g, m))
    ensures var h := ApplyMove(g, m);
      var (r, c) := BlankCell(h).value;
      CanMove(|g|, |g[0]|, r, c, Inverse(m)) && ApplyMove(h, Inverse(m)) == g
  {
    var (r, c) := BlankCell(g).value;
    var (tr, tc) := Neighbour(r, c, m);
    NeighbourInverse(|g|, |g[0]|, r, c, m);
    var h := ApplyMove(g, m);
    assert OneBlank(h) && BlankCell(h) == Some((tr, tc)) by {
      SlideOneBlank(g, m);
    }
    var k := ApplyMove(h, Inverse(m));
    assert k == Slide(h, tr, tc, Inverse(m));
    SlideCells(g, r, c, m);
    SlideCells(h, tr, tc, Inverse(m));
    forall i, j | 0 <= i < |g| && 0 <= j < |g[0]|
      ensures k[i][j] == g[i][j]
    {
      if (i, j) != (r, c) && (i, j) != (tr, tc) {
        assert k[i][j] == h[i][j];
      }
    }
    GridExt(k, g, |g[0]|);
  }

  /**
   * PuzzleScrambler.reversedSequence: the inverse moves in reverse order, the
   * sequence that undoes ms.
   */
  function ReversedSequence(ms: seq<Move>): (out: seq<Move>)
    ensures |out| == |ms|
    ensures forall i :: 0 <= i < |ms| ==> out[i] == Inverse(ms[|ms| - 1 - i])
  {
    if ms == [] then [] else ReversedSequence(ms[1..]) + [Inverse(ms[0])]
  }

  /** Reversing twice gives back the original sequence. */
  lemma ReversedTwice(ms: seq<Move>)
    ensures ReversedSequence(ReversedSequence(ms)) == ms
  {
    forall i | 0 <= i < |ms|
      ensures ReversedSequence(ReversedSequence(ms))[i] == ms[i]
    {
      InverseInvolutive(ms[i]);
    }
  }

  lemma {:induction false} EndBlankInRange(rows: int, cols: int, r: int, c: int, ms: seq<Move>)
    requires 0 <= r < rows && 0 <= c < cols
    ensures var (r', c') := EndBlank(rows, cols, r, c, ms); 0 <= r' < rows && 0 <= c' < cols
    decreases |ms|
  {
    if ms != [] {
      var (r', c') := NextBlank(rows, cols, r, c, ms[0]);
      EndBlankInRange(rows, cols, r', c', ms[1..]);
    }
  }

  /** An effective path stays effective when a move that is possible where it ends is added. */
  lemma {:induction false} EffectiveAppend(rows: int, cols: int, r: int, c: int, ms: seq<Move>, m: Move)
    requires Effective(rows, cols, r, c, ms)
    requires CanMove(rows, cols, EndBlank(rows, cols, r, c, ms).0, EndBlank(rows, cols, r, c, ms).1, m)
    ensures Effective(rows, cols, r, c, ms + [m])
    decreases |ms|
  {
    if ms == [] {
      assert ms + [m] == [m] && [m][1..] == [];
    } else {
      var (r', c') := Neighbour(r, c, ms[0]);
      assert NextBlank(rows, cols, r, c, ms[0]) == (r', c');
      EffectiveAppend(rows, cols, r', c', ms[1..], m);
      assert (ms + [m])[0] == ms[0] && (ms + [m])[1..] == ms[1..] + [m];
    }
  }

  /** Sliding along a + b is sliding along a, then along b from where the blank ended up. */
  lemma {:induction false} SlideAllAppend(g: Grid, r: int, c: int, a: seq<Move>, b: seq<Move>)
    requires Rect(g) && 0 <= r < |g| && 0 <= c < |g[0]| && g[r][c] == BLANK
    ensures var (r', c') := EndBlank(|g|, |g[0]|, r, c, a);
      0 <= r' < |g| && 0 <= c' < |g[0]| &&
      SlideAll(g, r, c, a + b) == SlideAll(SlideAll(g, r, c, a), r', c', b)
    decreases |a|
  {
    EndBlankInRange(|g|, |g[0]|, r, c, a);
    if a == [] {
      assert a + b == b;
    } else {
      var (r1, c1) := NextBlank(|g|, |g[0]|, r, c, a[0]);
      assert (a + b)[0] == a[0] && (a + b)[1..] == a[1..] + b;
      SlideAllAppend(Slide(g, r, c, a[0]), r1, c1, a[1..], b);
    }
  }

  /** With a single blank, applySequence's tracked blank is always the one BlankCell finds. */
  lemma {:induction false} SlideAllOneBlank(g: Grid, ms: seq<Move>)
    requires Rect(g) && OneBlank(g)
    ensures var (r, c) := BlankCell(g).value;
      var h := SlideAll(g, r, c, ms);
      OneBlank(h) && BlankCell(h) == Some(EndBlank(|g|, |g[0]|, r, c, ms))
    decreases |ms|
  {
    if ms != [] {
      SlideOneBlank(g, ms[0]);
      var (r, c) := BlankCell(g).value;
      SlideAllOneBlank(Slide(g, r, c, ms[0]), ms[1..]);
    }
  }

  /** applySequence keeps a valid board valid. */
  lemma {:induction false} ApplySequenceBoard(g: Grid, ms: seq<Move>)
    requires IsBoard(g)
    ensures OneBlank(g) && IsBoard(ApplySequence(g, ms)) && OneBlank(ApplySequence(g, ms))
    decreases |ms|
  {
    BoardOneBlank(g);
    SlideAllOneBlank(g, ms);
    if ms != [] {
      var (r, c) := BlankCell(g).value;
      SlideOneBlank(g, ms[0]);
      SlidePreservesBoard(g, r, c, ms[0]);
      ApplySequenceBoard(Slide(g, r, c, ms[0]), ms[1..]);
    }
  }

  /** Applying a + b is applying a, then b. */
  lemma ApplySequenceAppend(g: Grid, a: seq<Move>, b: seq<Move>)
    requires Rect(g) && OneBlank(g)
    ensures OneBlank(ApplySequence(g, a))
    ensures ApplySequence(g, a + b) == ApplySequence(ApplySequence(g, a), b)
  {
    SlideAllOneBlank(g, a);
    var (r, c) := BlankCell(g).value;
    SlideAllAppend(g, r, c, a, b);
  }

  lemma ApplySequenceSingle(g: Grid, m: Move)
    requires Rect(g) && HasBlank(g)
    ensures ApplySequence(g, [m]) == ApplyMove(g, m)
  {
    var (r, c) := BlankCell(g).value;
    var (r', c') := NextBlank(|g|, |g[0]|, r, c, m);
    assert [m][1..] == [];
    assert SlideAll(g, r, c, [m]) == SlideAll(Slide(g, r, c, m), r', c', []);
  }

  /** One step of ReversedUndoes: undoing rest and then the first move m. */
  lemma ReversedStep(g: Grid, m: Move, rest: seq<Move>)
    requires Rect(g) && OneBlank(g)
    requires CanMove(|g|, |g[0]|, BlankCell(g).value.0, BlankCell(g).value.1, m)
    requires OneBlank(ApplyMove(g, m)) && HasBlank(ApplySequence(ApplyMove(g, m), rest))
    requires ApplySequence(ApplySequence(ApplyMove(g, m), rest), ReversedSequence(rest)) == ApplyMove(g, m)
    ensures HasBlank(ApplySequence(g, [m] + rest))
    ensures ApplySequence(ApplySequence(g, [m] + rest), ReversedSequence([m] + rest)) == g
  {
    var h := ApplyMove(g, m);
    var k := ApplySequence(h, rest);
    assert ApplySequence(g, [m] + rest) == k by {
      ApplySequenceAppend(g, [m], rest);
      ApplySequenceSingle(g, m);
    }
    assert ReversedSequence([m] + rest) == ReversedSequence(rest) + [Inverse(m)] by {
      assert ([m] + rest)[1..] == rest;
    }
    assert ApplySequence(k, ReversedSequence(rest) + [Inverse(m)]) == ApplyMove(h, Inverse(m)) by {
      ApplySequenceAppend(h, rest, []);
      ApplySequenceAppend(k, ReversedSequence(rest), [Inverse(m)]);
      ApplySequenceSingle(h, Inverse(m));
    }
    MoveThenInverse(g, m);
  }

  /** The reversed sequence of an effective path leads back to where it started. */
  lemma {:induction false} ReversedUndoes(g: Grid, ms: seq<Move>)
    requires Rect(g) && OneBlank(g) && EffectiveFrom(g, ms)
    ensures OneBlank(ApplySequence(g, ms))
    ensures ApplySequence(ApplySequence(g, ms), ReversedSequence(ms)) == g
    decreases |ms|
  {
    ApplySequenceAppend(g, ms, []);
    if ms != [] {
      var m, rest := ms[0], ms[1..];
      assert ms == [m] + rest;
      SlideOneBlank(g, m);
      ReversedUndoes(ApplyMove(g, m), rest);
      ReversedStep(g, m, rest);
    }
  }

  /** Tracking the blank along a + b is tracking it along a, then along b from where it ended. */
  lemma {:induction false} EndBlankAppend(rows: int, cols: int, r: int, c: int, a: seq<Move>, b: seq<Move>)
    ensures var (r', c') := EndBlank(rows, cols, r, c, a);
      EndBlank(rows, cols, r, c, a + b) == EndBlank(rows, cols, r', c', b)
    decreases |a|
  {
    if a == [] {
      assert a + b == b;
    } else {
      var (r1, c1) := NextBlank(rows, cols, r, c, a[0]);
      assert (a + b)[0] == a[0] && (a + b)[1..] == a[1..] + b;
      EndBlankAppend(rows, cols, r1, c1, a[1..], b);
    }
  }

  /**
   * The reversed sequence of an effective path is effective from the cell where
   * the path leaves the blank, and takes the blank back to where it started.
   */
  lemma {:induction false} ReversedEffective(rows: int, cols: int, r: int, c: int, ms: seq<Move>)
    requires 0 <= r < rows && 0 <= c < cols && Effective(rows, cols, r, c, ms)
    ensures var (r', c') := EndBlank(rows, cols, r, c, ms);
      Effective(rows, cols, r', c', ReversedSequence(ms)) &&
      EndBlank(rows, cols, r', c', ReversedSequence(ms)) == (r, c)
    decreases |ms|
  {
    if ms != [] {
      var m, rest := ms[0], ms[1..];
      NeighbourInverse(rows, cols, r, c, m);
      var (r1, c1) := Neighbour(r, c, m);
      assert NextBlank(rows, cols, r, c, m) == (r1, c1);
      ReversedEffective(rows, cols, r1, c1, rest);
      var (e0, e1) := EndBlank(rows, cols, r1, c1, rest);
      var back := ReversedSequence(rest);
      assert ReversedSequence(ms) == back + [Inverse(m)];
      EffectiveAppend(rows, cols, e0, e1, back, Inverse(m));
      EndBlankAppend(rows, cols, e0, e1, back, [Inverse(m)]);
      assert [Inverse(m)][1..] == [];
    }
  }

  /** Reversing a sequence in which no move undoes the one before keeps that property. */
  lemma NoUndoReversed(ms: seq<Move>)
    requires NoUndo(ms)
    ensures NoUndo(ReversedSequence(ms))
  {
    var out, n := ReversedSequence(ms), |ms|;
    forall k | 0 <= k < n - 1
      ensures out[k + 1] != Inverse(out[k])
    {
      var i := n - 2 - k;
      assert ms[i + 1] != Inverse(ms[i]);
      InverseInvolutive(ms[i + 1]);
    }
  }
}
