/**
 * The grid bookkeeping of src/fifteenpuzzle/Puzzle.java: the on-screen puzzle
 * keeps a 2-D array of tiles (null for the empty cell) and the position of the
 * empty cell, and updates both in place when a tile slides. A Tile is modelled
 * by its value alone, Some(v) for a tile showing v and None for null.
 */
module Puzzles {
  import opened Wrappers
  import opened Moves
  import opened Grids
  import opened Boards
  import opened BoardArrays

  /** The value a cell of the tile array stands for: BLANK_TILE for the empty cell. */
  function CellValue(tile: Option<int>): int
  {
    match tile
    case None => BLANK
    case Some(v) => v
  }

  /** (br, bc) is the only empty cell of t, and no tile shows BLANK_TILE's value. */
  ghost predicate Tracks(t: array2<Option<int>>, br: int, bc: int)
    reads t
  {
    forall r, c :: 0 <= r < t.Length0 && 0 <= c < t.Length1 ==>
      (t[r, c].None? <==> r == br && c == bc) && t[r, c] != Some(BLANK)
  }

  /** The board a tile array shows, BLANK_TILE standing for each empty cell. */
  ghost function Shown(t: array2<Option<int>>): (g: Grid)
    reads t
    ensures |g| == t.Length0 && Uniform(g, t.Length1)
    ensures forall r, c :: 0 <= r < t.Length0 && 0 <= c < t.Length1 ==> g[r][c] == CellValue(t[r, c])
  {
    seq(t.Length0, r requires 0 <= r < t.Length0 reads t =>
      seq(t.Length1, c requires 0 <= c < t.Length1 reads t => CellValue(t[r, c])))
  }

  /**
   * The layout makeTiles builds: a tile for every cell of the solved board
   * but (blankRow, blankCol), which stays empty.
   */
  method MakeTiles(numRows: int, numCols: int, blankRow: int, blankCol: int) returns (tiles: array2<Option<int>>)
    requires numRows >= 0 && numCols >= 0
    ensures fresh(tiles) && tiles.Length0 == numRows && tiles.Length1 == numCols
    ensures forall r, c :: 0 <= r < numRows && 0 <= c < numCols ==>
      tiles[r, c] == if (r, c) == (blankRow, blankCol) then None else Some(SolvedState(numRows, numCols)[r][c])
  {
    tiles := new Option<int>[numRows, numCols];
    var solvedState := SolvedState(numRows, numCols);
    for r := 0 to numRows
      invariant forall i, j :: 0 <= i < r && 0 <= j < numCols ==>
        tiles[i, j] == if (i, j) == (blankRow, blankCol) then None else Some(solvedState[i][j])
    {
      for c := 0 to numCols
        invariant forall j :: 0 <= j < c ==>
          tiles[r, j] == if (r, j) == (blankRow, blankCol) then None else Some(solvedState[r][j])
        invariant forall i, j :: 0 <= i < r && 0 <= j < numCols ==>
          tiles[i, j] == if (i, j) == (blankRow, blankCol) then None else Some(solvedState[i][j])
      {
        if r != blankRow || c != blankCol {
          tiles[r, c] := Some(solvedState[r][c]);
        } else {
          tiles[r, c] := None;
        }
      }
    }
  }

  class Puzzle {
    const numRows: int
    const numCols: int
    var blankRow: int
    var blankCol: int
    var tiles: array2<Option<int>>
    var scrambleComplete: bool

    /** The tile array has the puzzle's dimensions. */
    ghost predicate Shaped()
      reads this
    {
      numRows >= MIN_ROWS && numCols >= MIN_COLS && tiles.Length0 == numRows && tiles.Length1 == numCols
    }

    /**
     * The bookkeeping the move methods keep: (blankRow, blankCol) is the only
     * empty cell, and no tile shows the blank's value.
     */
    ghost predicate Valid()
      reads this, tiles
    {
      Shaped() && 0 <= blankRow < numRows && 0 <= blankCol < numCols && Tracks(tiles, blankRow, blankCol)
    }

    /** The board the tiles show, the value that currentState returns. */
    ghost function State(): (g: Grid)
      reads this, tiles
      requires Shaped()
      ensures Rect(g) && |g| == numRows && |g[0]| == numCols
    {
      Shown(tiles)
    }

    /** A new puzzle is solved: every tile at home and the empty cell bottom-right. */
    constructor (numRows: int, numCols: int)
      requires numRows >= MIN_ROWS && numCols >= MIN_COLS
      ensures Valid() && State() == SolvedState(numRows, numCols) && scrambleComplete
      ensures this.numRows == numRows && this.numCols == numCols
      ensures blankRow == numRows - 1 && blankCol == numCols - 1
    {
      var made := MakeTiles(numRows, numCols, numRows - 1, numCols - 1);
      this.numRows := numRows;
      this.numCols := numCols;
      blankRow := numRows - 1;
      blankCol := numCols - 1;
      scrambleComplete := true;
      tiles := made;
      new;
      SolvedStateIsBoard(numRows, numCols);
      BoardOneBlank(SolvedState(numRows, numCols));
      GridExt(State(), SolvedState(numRows, numCols), numCols);
    }

    /** The empty cell is the blank that getBlankCell finds in the board the tiles show. */
    lemma TrackedBlank()
      requires Valid()
      ensures OneBlank(State()) && BlankCell(State()) == Some((blankRow, blankCol))
    {
      var g := State();
      assert g[blankRow][blankCol] == BLANK;
      var (r, c) := BlankCell(g).value;
      assert tiles[r, c].None?;
    }

    /** Under Valid, every cell holds the tile for the value shown, and only the empty cell shows BLANK_TILE. */
    lemma TilesShown()
      requires Valid()
      ensures forall r, c :: 0 <= r < numRows && 0 <= c < numCols ==>
        tiles[r, c] == TileFor(State()[r][c]) && (State()[r][c] == BLANK <==> r == blankRow && c == blankCol)
    {
    }

    /**
     * Puzzle.move: refused while a scramble is in progress; otherwise the
     * move of that direction, which behaves on the board the tiles show as
     * PuzzleScrambler.applyMove does.
     */
    method Move(m: Move) returns (success: bool)
      requires Valid()
      modifies this, tiles
      ensures Valid() && tiles == old(tiles) && scrambleComplete == old(scrambleComplete)
      ensures !old(scrambleComplete) ==> !success && unchanged(this) && unchanged(tiles)
      ensures old(scrambleComplete) ==>
        old(OneBlank(State())) && State() == Boards.ApplyMove(old(State()), m) &&
        (success <==> MovesTile(old(State()), m))
    {
      if !scrambleComplete {
        return false;
      }
      TrackedBlank();
      match m {
        case Left => success := MoveLeft();
        case Right => success := MoveRight();
        case Up => success := MoveUp();
        case Down => success := MoveDown();
      }
    }

    /**
     * Puzzle.moveRight: the tile left of the empty cell slides right into it;
     * fails when the empty cell is in the first column.
     */
    method MoveRight() returns (success: bool)
      requires Valid()
      modifies this, tiles
      ensures Valid() && tiles == old(tiles) && scrambleComplete == old(scrambleComplete)
      ensures success <==> old(blankCol) != 0
      ensures (blankRow, blankCol) == NextBlank(numRows, numCols, old(blankRow), old(blankCol), Right)
      ensures State() == Slide(old(State()), old(blankRow), old(blankCol), Right)
    {
      ghost var g, br, bc := State(), blankRow, blankCol;
      TilesShown();
      if blankCol == 0 {
        return false;
      }
      blankCol := blankCol - 1;
      tiles[blankRow, blankCol + 1] := tiles[blankRow, blankCol];
      tiles[blankRow, blankCol] := None;
      SlidTiles(tiles, g, br, bc, Right);
      return true;
    }

    /**
     * Puzzle.moveLeft: the tile right of the empty cell slides left into it;
     * fails when the empty cell is in the last column.
     */
    method MoveLeft() returns (success: bool)
      requires Valid()
      modifies this, tiles
      ensures Valid() && tiles == old(tiles) && scrambleComplete == old(scrambleComplete)
      ensures success <==> old(blankCol) != numCols - 1
      ensures (blankRow, blankCol) == NextBlank(numRows, numCols, old(blankRow), old(blankCol), Left)
      ensures State() == Slide(old(State()), old(blankRow), old(blankCol), Left)
    {
      ghost var g, br, bc := State(), blankRow, blankCol;
      TilesShown();
      if blankCol == numCols - 1 {
        return false;
      }
      blankCol := blankCol + 1;
      tiles[blankRow, blankCol - 1] := tiles[blankRow, blankCol];
      tiles[blankRow, blankCol] := None;
      SlidTiles(tiles, g, br, bc, Left);
      return true;
    }

    /**
     * Puzzle.moveUp: the tile below the empty cell slides up into it; fails
     * when the empty cell is in the last row.
     */
    method MoveUp() returns (success: bool)
      requires Valid()
      modifies this, tiles
      ensures Valid() && tiles == old(tiles) && scrambleComplete == old(scrambleComplete)
      ensures success <==> old(blankRow) != numRows - 1
      ensures (blankRow, blankCol) == NextBlank(numRows, numCols, old(blankRow), old(blankCol), Up)
      ensures State() == Slide(old(State()), old(blankRow), old(blankCol), Up)
    {
      ghost var g, br, bc := State(), blankRow, blankCol;
      TilesShown();
      if blankRow == numRows - 1 {
        return false;
      }
      blankRow := blankRow + 1;
      tiles[blankRow - 1, blankCol] := tiles[blankRow, blankCol];
      tiles[blankRow, blankCol] := None;
      SlidTiles(tiles, g, br, bc, Up);
      return true;
    }

    /**
     * Puzzle.moveDown: the tile above the empty cell slides down into it;
     * fails when the empty cell is in the first row.
     */
    method MoveDown() returns (success: bool)
      requires Valid()
      modifies this, tiles
      ensures Valid() && tiles == old(tiles) && scrambleComplete == old(scrambleComplete)
      ensures success <==> old(blankRow) != 0
      ensures (blankRow, blankCol) == NextBlank(numRows, numCols, old(blankRow), old(blankCol), Down)
      ensures State() == Slide(old(State()), old(blankRow), old(blankCol), Down)
    {
      ghost var g, br, bc := State(), blankRow, blankCol;
      TilesShown();
      if blankRow == 0 {
        return false;
      }
      blankRow := blankRow - 1;
      tiles[blankRow + 1, blankCol] := tiles[blankRow, blankCol];
      tiles[blankRow, blankCol] := None;
      SlidTiles(tiles, g, br, bc, Down);
      return true;
    }

    /**
     * Puzzle.isSolved: compares every cell with the solved board from the last
     * cell backwards, the empty cell standing for BLANK_TILE.
     */
    method IsSolved() returns (solved: bool)
      requires Shaped()
      ensures solved <==> State() == SolvedState(numRows, numCols)
    {
      var solvedState := SolvedState(numRows, numCols);
      ghost var g := State();
      var r := numRows - 1;
      while r >= 0
        invariant -1 <= r < numRows
        invariant forall i, j :: r < i < numRows && 0 <= j < numCols ==> g[i][j] == solvedState[i][j]
      {
        var c := numCols - 1;
        while c >= 0
          invariant -1 <= c < numCols
          invariant forall j :: c < j < numCols ==> g[r][j] == solvedState[r][j]
        {
          if tiles[r, c].None? && solvedState[r][c] != BLANK {
            return false;
          }
          if tiles[r, c].Some? && tiles[r, c].value != solvedState[r][c] {
            return false;
          }
          c := c - 1;
        }
        r := r - 1;
      }
      GridExt(g, solvedState, numCols);
      return true;
    }

    /** Puzzle.currentState: a new array holding BLANK_TILE for the empty cell and every tile's value. */
    method CurrentState() returns (out: array2<int>)
      requires Shaped()
      ensures fresh(out) && View(out) == State()
    {
      out := new int[numRows, numCols];
      for r := 0 to numRows
        invariant forall i, j :: 0 <= i < r && 0 <= j < numCols ==> out[i, j] == CellValue(tiles[i, j])
      {
        for c := 0 to numCols
          invariant forall j :: 0 <= j < c ==> out[r, j] == CellValue(tiles[r, j])
          invariant forall i, j :: 0 <= i < r && 0 <= j < numCols ==> out[i, j] == CellValue(tiles[i, j])
        {
          if tiles[r, c].None? {
            out[r, c] := BLANK;
          } else {
            out[r, c] := tiles[r, c].value;
          }
        }
      }
      ViewCells(out);
      GridExt(View(out), State(), numCols);
    }

    /**
     * The state-setting part of Puzzle.applyStateInstant: new tiles for the
     * cells of pattern that are not BLANK_TILE, and the empty cell where
     * getBlankCell finds the blank. The source fails on a pattern without one.
     */
    method ApplyStateInstant(pattern: Grid)
      requires Shaped() && Rect(pattern) && |pattern| == numRows && |pattern[0]| == numCols
      requires HasBlank(pattern)
      modifies this
      ensures Shaped() && State() == pattern && scrambleComplete
      ensures (blankRow, blankCol) == BlankCell(pattern).value
      ensures OneBlank(pattern) ==> Valid()
    {
      scrambleComplete := false;
      tiles := LayTiles(pattern);
      var blankCell := BlankCell(pattern).value;
      blankRow := blankCell.0;
      blankCol := blankCell.1;
      scrambleComplete := true;
      LaidShown(tiles, pattern);
      if OneBlank(pattern) {
        LaidTracked(tiles, pattern);
      }
    }
  }

  /** The tile applyStateInstant creates for a value: none for BLANK_TILE. */
  function TileFor(v: int): (tile: Option<int>)
    ensures CellValue(tile) == v && (tile.None? <==> v == BLANK)
  {
    if v != BLANK then Some(v) else None
  }

  /** A fresh tile array with TileFor of each cell of pattern. */
  method LayTiles(pattern: Grid) returns (tiles: array2<Option<int>>)
    requires Rect(pattern)
    ensures fresh(tiles) && tiles.Length0 == |pattern| && tiles.Length1 == |pattern[0]|
    ensures forall r, c :: 0 <= r < |pattern| && 0 <= c < |pattern[0]| ==> tiles[r, c] == TileFor(pattern[r][c])
  {
    var numRows, numCols := |pattern|, |pattern[0]|;
    tiles := new Option<int>[numRows, numCols];
    for r := 0 to numRows
      invariant forall i, j :: 0 <= i < r && 0 <= j < numCols ==> tiles[i, j] == TileFor(pattern[i][j])
    {
      for c := 0 to numCols
        invariant forall j :: 0 <= j < c ==> tiles[r, j] == TileFor(pattern[r][j])
        invariant forall i, j :: 0 <= i < r && 0 <= j < numCols ==> tiles[i, j] == TileFor(pattern[i][j])
      {
        if pattern[r][c] != BLANK {
          tiles[r, c] := Some(pattern[r][c]);
        } else {
          tiles[r, c] := None;
        }
      }
    }
  }

  /** Tiles laid out from a pattern show that pattern. */
  lemma LaidShown(t: array2<Option<int>>, pattern: Grid)
    requires Rect(pattern) && t.Length0 == |pattern| && t.Length1 == |pattern[0]|
    requires forall r, c :: 0 <= r < |pattern| && 0 <= c < |pattern[0]| ==> t[r, c] == TileFor(pattern[r][c])
    ensures Shown(t) == pattern
  {
    GridExt(Shown(t), pattern, |pattern[0]|);
  }

  /** Tiles laid out from a pattern with one blank are empty exactly at the blank getBlankCell finds. */
  lemma LaidTracked(t: array2<Option<int>>, pattern: Grid)
    requires Rect(pattern) && t.Length0 == |pattern| && t.Length1 == |pattern[0]| && OneBlank(pattern)
    requires forall r, c :: 0 <= r < |pattern| && 0 <= c < |pattern[0]| ==> t[r, c] == TileFor(pattern[r][c])
    ensures var (br, bc) := BlankCell(pattern).value;
      forall r, c :: 0 <= r < |pattern| && 0 <= c < |pattern[0]| ==>
        (t[r, c].None? <==> r == br && c == bc) && t[r, c] != Some(BLANK)
  {
  }

  /**
   * A move as the tile array makes it: the neighbour's tile goes into the empty
   * cell and the neighbour's cell becomes empty, everything else staying put.
   * On the boards shown, that is Slide, and the neighbour is the new empty cell.
   */
  lemma SlidTiles(t: array2<Option<int>>, g: Grid, r: int, c: int, m: Move)
    requires Rect(g) && t.Length0 == |g| && t.Length1 == |g[0]|
    requires 0 <= r < |g| && 0 <= c < |g[0]| && CanMove(|g|, |g[0]|, r, c, m)
    requires forall i, j :: 0 <= i < |g| && 0 <= j < |g[0]| ==> (g[i][j] == BLANK <==> i == r && j == c)
    requires var (tr, tc) := Neighbour(r, c, m);
      t[r, c] == TileFor(g[tr][tc]) && t[tr, tc].None? &&
      forall i, j :: 0 <= i < |g| && 0 <= j < |g[0]| && !(i == r && j == c) && !(i == tr && j == tc) ==>
        t[i, j] == TileFor(g[i][j])
    ensures var (tr, tc) := Neighbour(r, c, m); Shown(t) == Slide(g, r, c, m) && Tracks(t, tr, tc)
  {
    var (tr, tc) := Neighbour(r, c, m);
    NeighbourInverse(|g|, |g[0]|, r, c, m);
    SlideCells(g, r, c, m);
    GridExt(Shown(t), Slide(g, r, c, m), |g[0]|);
  }
}
