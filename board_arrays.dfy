/**
 * The array side of src/fifteenpuzzle/PuzzleScrambler.java: boards are cloned
 * into a fresh `int[][]` (here an `array2<int>`) and moves are made in place on
 * the clone, each move returning the blank cell it leaves behind. Every method
 * is proved against the value model of module Boards.
 */
module BoardArrays {
  import opened Wrappers
  import opened Moves
  import opened Grids
  import opened Boards

  /** The board an array currently holds. */
  ghost function View(a: array2<int>): (g: Grid)
    reads a
    ensures |g| == a.Length0 && Uniform(g, a.Length1)
  {
    seq(a.Length0, i requires 0 <= i < a.Length0 reads a =>
      seq(a.Length1, j requires 0 <= j < a.Length1 reads a => a[i, j]))
  }

  lemma ViewCells(a: array2<int>)
    ensures forall i, j :: 0 <= i < a.Length0 && 0 <= j < a.Length1 ==> View(a)[i][j] == a[i, j]
  {
  }

  /** PuzzleScrambler.cloneArray: a fresh array holding the same board. */
  method CloneArray(values: Grid) returns (copied: array2<int>)
    requires |values| >= 1 && Uniform(values, |values[0]|)
    ensures fresh(copied) && View(copied) == values
  {
    copied := new int[|values|, |values[0]|];
    for i := 0 to |values|
      invariant forall r, c :: 0 <= r < i && 0 <= c < copied.Length1 ==> copied[r, c] == values[r][c]
    {
      for j := 0 to |values[0]|
        invariant forall c :: 0 <= c < j ==> copied[i, c] == values[i][c]
        invariant forall r, c :: 0 <= r < i && 0 <= c < copied.Length1 ==> copied[r, c] == values[r][c]
      {
        copied[i, j] := values[i][j];
      }
    }
    ViewCells(copied);
    GridExt(View(copied), values, |values[0]|);
  }

  /**
   * PuzzleScrambler.getBlankCell: scans from the bottom-right cell backwards
   * and reports the first blank it meets; None is the source's {-1}.
   */
  method GetBlankCell(a: array2<int>) returns (b: Option<(int, int)>)
    requires Rect(View(a))
    ensures b == BlankCell(View(a))
  {
    ghost var g := View(a);
    ViewCells(a);
    for r := a.Length0 downto 0
      invariant forall i, j :: r <= i < a.Length0 && 0 <= j < a.Length1 ==> a[i, j] != BLANK
    {
      for c := a.Length1 downto 0
        invariant forall j :: c <= j < a.Length1 ==> a[r, j] != BLANK
      {
        if a[r, c] == BLANK {
          assert g[r][c] == BLANK;
          assert forall i, j :: 0 <= i < |g| && 0 <= j < |g[0]| && !AtOrBefore(i, j, r, c) ==> g[i][j] != BLANK;
          var (br, bc) := BlankCell(g).value;
          assert AtOrBefore(br, bc, r, c) && AtOrBefore(r, c, br, bc);
          return Some((r, c));
        }
      }
    }
    return None;
  }

  /** PuzzleScrambler.applyMoveLeft: the tile right of the blank slides left, unless the blank is in the last column. */
  method ApplyMoveLeft(a: array2<int>, blankCell: (int, int)) returns (next: (int, int))
    requires Rect(View(a)) && 0 <= blankCell.0 < a.Length0 && 0 <= blankCell.1 < a.Length1
    requires a[blankCell.0, blankCell.1] == BLANK
    modifies a
    ensures View(a) == Slide(old(View(a)), blankCell.0, blankCell.1, Left)
    ensures next == NextBlank(a.Length0, a.Length1, blankCell.0, blankCell.1, Left)
  {
    ghost var g := View(a);
    ViewCells(a);
    var numCols := a.Length1;
    var (blankRow, blankCol) := blankCell;
    if blankCol == numCols - 1 {
      return blankCell;
    }
    a[blankRow, blankCol] := a[blankRow, blankCol + 1];
    a[blankRow, blankCol + 1] := BLANK;
    next := (blankRow, blankCol + 1);
    ViewCells(a);
    GridExt(View(a), Slide(g, blankRow, blankCol, Left), numCols);
  }

  /** PuzzleScrambler.applyMoveRight: the tile left of the blank slides right, unless the blank is in the first column. */
  method ApplyMoveRight(a: array2<int>, blankCell: (int, int)) returns (next: (int, int))
    requires Rect(View(a)) && 0 <= blankCell.0 < a.Length0 && 0 <= blankCell.1 < a.Length1
    requires a[blankCell.0, blankCell.1] == BLANK
    modifies a
    ensures View(a) == Slide(old(View(a)), blankCell.0, blankCell.1, Right)
    ensures next == NextBlank(a.Length0, a.Length1, blankCell.0, blankCell.1, Right)
  {
    ghost var g := View(a);
    ViewCells(a);
    var (blankRow, blankCol) := blankCell;
    if blankCol == 0 {
      return blankCell;
    }
    a[blankRow, blankCol] := a[blankRow, blankCol - 1];
    a[blankRow, blankCol - 1] := BLANK;
    next := (blankRow, blankCol - 1);
    ViewCells(a);
    GridExt(View(a), Slide(g, blankRow, blankCol, Right), a.Length1);
  }

  /** PuzzleScrambler.applyMoveDown: the tile above the blank slides down, unless the blank is in the first row. */
  method ApplyMoveDown(a: array2<int>, blankCell: (int, int)) returns (next: (int, int))
    requires Rect(View(a)) && 0 <= blankCell.0 < a.Length0 && 0 <= blankCell.1 < a.Length1
    requires a[blankCell.0, blankCell.1] == BLANK
    modifies a
    ensures View(a) == Slide(old(View(a)), blankCell.0, blankCell.1, Down)
    ensures next == NextBlank(a.Length0, a.Length1, blankCell.0, blankCell.1, Down)
  {
    ghost var g := View(a);
    ViewCells(a);
    var (blankRow, blankCol) := blankCell;
    if blankRow == 0 {
      return blankCell;
    }
    a[blankRow, blankCol] := a[blankRow - 1, blankCol];
    a[blankRow - 1, blankCol] := BLANK;
    next := (blankRow - 1, blankCol);
    ViewCells(a);
    GridExt(View(a), Slide(g, blankRow, blankCol, Down), a.Length1);
  }

  /** PuzzleScrambler.applyMoveUp: the tile below the blank slides up, unless the blank is in the last row. */
  method ApplyMoveUp(a: array2<int>, blankCell: (int, int)) returns (next: (int, int))
    requires Rect(View(a)) && 0 <= blankCell.0 < a.Length0 && 0 <= blankCell.1 < a.Length1
    requires a[blankCell.0, blankCell.1] == BLANK
    modifies a
    ensures View(a) == Slide(old(View(a)), blankCell.0, blankCell.1, Up)
    ensures next == NextBlank(a.Length0, a.Length1, blankCell.0, blankCell.1, Up)
  {
    ghost var g := View(a);
    ViewCells(a);
    var numRows := a.Length0;
    var (blankRow, blankCol) := blankCell;
    if blankRow == numRows - 1 {
      return blankCell;
    }
    a[blankRow, blankCol] := a[blankRow + 1, blankCol];
    a[blankRow + 1, blankCol] := BLANK;
    next := (blankRow + 1, blankCol);
    ViewCells(a);
    GridExt(View(a), Slide(g, blankRow, blankCol, Up), a.Length1);
  }

  /**
   * PuzzleScrambler.applyMove: a fresh copy of the board with one move made.
   * The source fails on a board without a blank, hence the precondition.
   */
  method ApplyMove(currentState: Grid, move: Move) returns (copiedState: array2<int>)
    requires Rect(currentState) && HasBlank(currentState)
    ensures fresh(copiedState) && View(copiedState) == Boards.ApplyMove(currentState, move)
  {
    copiedState := CloneArray(currentState);
    var found := GetBlankCell(copiedState);
    var blankCell := found.value;
    match move {
      case Left => blankCell := ApplyMoveLeft(copiedState, blankCell);
      case Right => blankCell := ApplyMoveRight(copiedState, blankCell);
      case Down => blankCell := ApplyMoveDown(copiedState, blankCell);
      case Up => blankCell := ApplyMoveUp(copiedState, blankCell);
    }
  }

  /**
   * PuzzleScrambler.applySequence: a fresh copy of the board with the moves
   * made in order, each from the blank cell the previous move returned.
   */
  method ApplySequence(currentState: Grid, sequence: seq<Move>) returns (copiedState: array2<int>)
    requires Rect(currentState) && HasBlank(currentState)
    ensures fresh(copiedState) && View(copiedState) == Boards.ApplySequence(currentState, sequence)
  {
    copiedState := CloneArray(currentState);
    var found := GetBlankCell(copiedState);
    var blankCell := found.value;
    ghost var (r0, c0) := blankCell;
    var rows, cols := copiedState.Length0, copiedState.Length1;
    assert rows == |currentState| && cols == |currentState[0]|;
    assert sequence[..0] == [];
    assert SlideAll(currentState, r0, c0, []) == currentState;
    for i := 0 to |sequence|
      invariant 0 <= blankCell.0 < rows && 0 <= blankCell.1 < cols
      invariant View(copiedState) == SlideAll(currentState, r0, c0, sequence[..i])
      invariant blankCell == EndBlank(rows, cols, r0, c0, sequence[..i])
    {
      var m := sequence[i];
      ghost var done := sequence[..i];
      PrefixStep(sequence, i);
      ghost var before, br, bc := View(copiedState), blankCell.0, blankCell.1;
      assert Rect(before) && before[br][bc] == BLANK;
      ViewCells(copiedState);
      match m {
        case Left => blankCell := ApplyMoveLeft(copiedState, blankCell);
        case Right => blankCell := ApplyMoveRight(copiedState, blankCell);
        case Down => blankCell := ApplyMoveDown(copiedState, blankCell);
        case Up => blankCell := ApplyMoveUp(copiedState, blankCell);
      }
      assert View(copiedState) == Slide(before, br, bc, m) && blankCell == NextBlank(rows, cols, br, bc, m);
      SlideAllStep(currentState, r0, c0, done, m);
      assert SlideAll(currentState, r0, c0, done + [m]) == Slide(before, br, bc, m);
      assert EndBlank(rows, cols, r0, c0, done + [m]) == NextBlank(rows, cols, br, bc, m);
    }
    assert sequence[..|sequence|] == sequence;
  }

  lemma PrefixStep<T>(s: seq<T>, i: int)
    requires 0 <= i < |s|
    ensures s[..i + 1] == s[..i] + [s[i]]
  {
  }

  /** One more move at the end of a tracked sequence. */
  lemma SlideAllStep(g: Grid, r: int, c: int, a: seq<Move>, m: Move)
    requires Rect(g) && 0 <= r < |g| && 0 <= c < |g[0]| && g[r][c] == BLANK
    ensures var (r', c') := EndBlank(|g|, |g[0]|, r, c, a);
      0 <= r' < |g| && 0 <= c' < |g[0]| &&
      SlideAll(g, r, c, a + [m]) == Slide(SlideAll(g, r, c, a), r', c', m) &&
      EndBlank(|g|, |g[0]|, r, c, a + [m]) == NextBlank(|g|, |g[0]|, r', c', m)
  {
    var (r', c') := EndBlank(|g|, |g[0]|, r, c, a);
    SlideAllAppend(g, r, c, a, [m]);
    var h := SlideAll(g, r, c, a);
    assert [m][1..] == [];
    assert SlideAll(h, r', c', [m]) == SlideAll(Slide(h, r', c', m), NextBlank(|g|, |g[0]|, r', c', m).0, NextBlank(|g|, |g[0]|, r', c', m).1, []);
    Boards.EndBlankAppend(|g|, |g[0]|, r, c, a, [m]);
    assert EndBlank(|g|, |g[0]|, r', c', [m]) == EndBlank(|g|, |g[0]|, NextBlank(|g|, |g[0]|, r', c', m).0, NextBlank(|g|, |g[0]|, r', c', m).1, []);
  }
}
