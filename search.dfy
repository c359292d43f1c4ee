/**
 * The search half of src/fifteenpuzzle/PuzzleSolver.java: the search node
 * State (with its Manhattan priority and its neighbours), the
 * PriorityQueue kept as a sorted doubly-linked list of Nodes, and solve,
 * a best-first search followed by a walk back along the parent links.
 */
module Search {
  import opened Wrappers
  import opened Moves
  import opened Grids
  import opened Boards
  import opened Solvability
  import opened Solver

  // ---------------------------------------------------------------------------
  // Boards a search state may hold

  /** A rectangle with exactly one blank whose cells hold 0 .. rows*cols-1. */
  ghost predicate Tiles(g: Grid)
  {
    Rect(g) && OneBlank(g) && CellsInRange(g)
  }

  /** Every cell holds one of 0 .. rows*cols-1. */
  ghost predicate CellsInRange(g: Grid)
    requires Rect(g)
  {
    forall i, j :: 0 <= i < |g| && 0 <= j < |g[0]| ==> 0 <= g[i][j] < |g| * |g[0]|
  }

  lemma BoardTiles(g: Grid)
    requires IsBoard(g)
    ensures Tiles(g)
  {
    BoardOneBlank(g);
    BoardCells(g);
  }

  /** A move keeps the single blank and the range of the cells. */
  lemma MoveTiles(g: Grid, m: Move)
    requires Tiles(g)
    ensures Tiles(ApplyMove(g, m))
  {
    var (r, c) := BlankCell(g).value;
    ApplyMoveEffect(g, m);
    SlideOneBlank(g, m);
  }

  // ---------------------------------------------------------------------------
  // The Manhattan priority

  function Abs(x: int): int
  {
    if x < 0 then -x else x
  }

  /**
   * How far the tile v at (r, c) is from its home cell; the blank counts 0.
   * Values without a home cell (the source would fail on them) also count 0.
   */
  function TileDistance(v: int, r: int, c: int, rows: int, cols: int): (d: int)
    ensures d >= 0
  {
    if v == BLANK || rows < 1 || cols < 1 then
      0
    else
      match HomeCell(v, rows, cols)
      case None => 0
      case Some((hr, hc)) => Abs(r - hr) + Abs(c - hc)
  }

  /** The distances of the tiles of row r, summed over its first |row| cells. */
  function RowDistance(row: seq<int>, r: int, rows: int, cols: int): (d: int)
    ensures d >= 0
  {
    if row == [] then 0
    else RowDistance(row[..|row| - 1], r, rows, cols) + TileDistance(row[|row| - 1], r, |row| - 1, rows, cols)
  }

  /** The distances of the tiles of the first |g| rows. */
  function GridDistance(g: Grid, rows: int, cols: int): (d: int)
    ensures d >= 0
  {
    if g == [] then 0
    else GridDistance(g[..|g| - 1], rows, cols) + RowDistance(g[|g| - 1], |g| - 1, rows, cols)
  }

  /** The sum of the Manhattan distances of the tiles from their home cells. */
  function Manhattan(g: Grid): int
  {
    GridDistance(g, |g|, if g == [] then 0 else |g[0]|)
  }

  /** A row sums to 0 exactly when each of its tiles is home (or is the blank). */
  lemma {:induction false} RowDistanceZero(row: seq<int>, r: int, rows: int, cols: int)
    ensures RowDistance(row, r, rows, cols) == 0 <==>
      forall j :: 0 <= j < |row| ==> TileDistance(row[j], r, j, rows, cols) == 0
    decreases |row|
  {
    if row != [] {
      var init := row[..|row| - 1];
      RowDistanceZero(init, r, rows, cols);
      assert forall j :: 0 <= j < |init| ==> init[j] == row[j];
    }
  }

  /** The grid sums to 0 exactly when each of its tiles is home (or is the blank). */
  lemma {:induction false} GridDistanceZero(g: Grid, rows: int, cols: int)
    ensures GridDistance(g, rows, cols) == 0 <==>
      forall i, j :: 0 <= i < |g| && 0 <= j < |g[i]| ==> TileDistance(g[i][j], i, j, rows, cols) == 0
    decreases |g|
  {
    if g != [] {
      var init := g[..|g| - 1];
      GridDistanceZero(init, rows, cols);
      RowDistanceZero(g[|g| - 1], |g| - 1, rows, cols);
      assert forall i :: 0 <= i < |init| ==> init[i] == g[i];
    }
  }

  /** On a valid board a tile is at distance 0 exactly when it is settled. */
  lemma TileDistanceZero(g: Grid, i: int, j: int)
    requires IsBoard(g) && 0 <= i < |g| && 0 <= j < |g[0]|
    ensures TileDistance(g[i][j], i, j, |g|, |g[0]|) == 0 <==> Settled(g, i, j, |g[0]|)
  {
    var rows, cols, v := |g|, |g[0]|, g[i][j];
    BoardCells(g);
    if v != BLANK {
      var (hr, hc) := HomeCell(v, rows, cols).value;
      var goal := SolvedState(rows, cols);
      if TileDistance(v, i, j, rows, cols) == 0 {
        assert (hr, hc) == (i, j);
        assert goal[i][j] == v;
      }
      if v == i * cols + j + 1 {
        assert goal[i][j] == v by {
          FlatIndexBound(i, j, rows, cols);
        }
        SolvedStateIsBoard(rows, cols);
        BoardCells(goal);
        assert goal[hr][hc] == goal[i][j];
      }
    }
  }

  /**
   * The heuristic is exact at the goal: on a valid board the Manhattan sum is 0
   * exactly when the board is solved.
   */
  lemma ManhattanZero(g: Grid)
    requires IsBoard(g)
    ensures Manhattan(g) == 0 <==> g == SolvedState(|g|, |g[0]|)
  {
    var rows, cols := |g|, |g[0]|;
    GridDistanceZero(g, rows, cols);
    if Manhattan(g) == 0 {
      forall i, j | 0 <= i < rows && 0 <= j < cols
        ensures Settled(g, i, j, cols)
      {
        TileDistanceZero(g, i, j);
      }
      SettledIsSolved(g);
    }
    if g == SolvedState(rows, cols) {
      forall i, j | 0 <= i < rows && 0 <= j < |g[i]|
        ensures TileDistance(g[i][j], i, j, rows, cols) == 0
      {
        TileDistanceZero(g, i, j);
      }
    }
  }

  /** A nonempty sequence is its prefix followed by its last element. */
  lemma LastSplit<T>(s: seq<T>)
    requires |s| >= 1
    ensures s == s[..|s| - 1] + [s[|s| - 1]]
  {
  }

  // ---------------------------------------------------------------------------
  // Search states

  /** The priority of s: moves made so far plus the Manhattan sum (see State.Ready). */
  ghost function Key(s: State): int
  {
    s.key
  }

  /**
   * PuzzleSolver.State: a board, the number of moves that led to it, the last
   * move and the state it was made from. The board is never changed after
   * construction, so it is a value here. The ghost fields origin and trail
   * record the board the search started from and the moves that lead from it.
   */
  class State {
    const board: Grid
    const numMoves: int
    const prevMove: Option<Move>
    const prevState: State?
    const numRows: int
    const numCols: int
    ghost const origin: Grid
    ghost const trail: seq<Move>
    /** The priority getPriority computes for this state. */
    ghost const key: int

    /**
     * The board holds valid tiles and is origin after the moves of trail, one
     * per step back along prevState; numMoves counts them, no move undoes
     * the one before it, and key is the priority of the state.
     */
    ghost predicate Ready()
      decreases |trail|
    {
      Tiles(board) && numRows == |board| && numCols == |board[0]| &&
      key == numMoves + Manhattan(board) &&
      Rect(origin) && OneBlank(origin) && board == ApplySequence(origin, trail) &&
      numMoves == |trail| && NoUndo(trail) && EffectiveFrom(origin, trail) &&
      (prevState == null <==> prevMove.None?) && (prevState == null <==> trail == []) &&
      (prevState != null ==>
        |trail| >= 1 && prevMove == Some(trail[|trail| - 1]) &&
        prevState.origin == origin && prevState.trail == trail[..|trail| - 1] && prevState.Ready())
    }

    /**
     * The state for board, reached by prevMove from prevState (the initial
     * state has neither).
     */
    constructor (board: Grid, numMoves: int, prevMove: Option<Move>, prevState: State?)
      requires prevState == null ==> Tiles(board) && numMoves == 0 && prevMove.None?
      requires prevState != null ==>
        prevState.Ready() && prevMove.Some? && MovesTile(prevState.board, prevMove.value) &&
        board == ApplyMove(prevState.board, prevMove.value) &&
        numMoves == prevState.numMoves + 1 &&
        (prevState.prevMove.Some? ==> prevMove.value != Inverse(prevState.prevMove.value))
      ensures this.board == board && this.numMoves == numMoves && this.prevMove == prevMove
      ensures this.prevState == prevState
      ensures Ready() && (prevState == null ==> origin == board && trail == [])
      ensures prevState != null ==> origin == prevState.origin && trail == prevState.trail + [prevMove.value]
    {
      this.board := board;
      this.numMoves := numMoves;
      this.prevMove := prevMove;
      this.prevState := prevState;
      numRows := |board|;
      numCols := |board[0]|;
      key := numMoves + Manhattan(board);
      if prevState == null {
        origin := board;
        trail := [];
      } else {
        var m := prevMove.value;
        origin := prevState.origin;
        trail := prevState.trail + [m];
        ExtendTrail(prevState.origin, prevState.trail, m);
      }
    }

    /**
     * State.getPriority: numMoves plus the sum, over the tiles, of the row
     * and column distances to their home cells; at least numMoves.
     */
    method GetPriority() returns (p: int)
      requires Rect(board) && CellsInRange(board) && numRows == |board| && numCols == |board[0]|
      requires numMoves >= 0 && key == numMoves + Manhattan(board)
      ensures p == numMoves + Manhattan(board) && p == Key(this) && p >= numMoves
    {
      var sum := 0;
      for r := 0 to numRows
        invariant sum == GridDistance(board[..r], numRows, numCols)
      {
        for c := 0 to numCols
          invariant sum == GridDistance(board[..r], numRows, numCols) + RowDistance(board[r][..c], r, numRows, numCols)
        {
          RowStep(board[r], r, c, numRows, numCols);
          if board[r][c] == BLANK {
            continue;
          }
          var homeCell := HomeCell(board[r][c], numRows, numCols).value;
          sum := sum + Abs(r - homeCell.0) + Abs(c - homeCell.1);
        }
        GridStep(board, r, numRows, numCols);
      }
      assert board[..numRows] == board;
      p := numMoves + sum;
    }

    /** The parent of a well-formed state is well formed, and its trail is one move shorter. */
    lemma Parent()
      requires Ready()
      ensures prevMove.None? ==> prevState == null && trail == []
      ensures prevMove.Some? ==>
        prevState != null && prevState.Ready() && prevState.origin == origin &&
        trail == prevState.trail + [prevMove.value]
    {
      if prevMove.Some? {
        var n := |trail|;
        var last := trail[n - 1];
        assert prevMove.value == last;
        LastSplit(trail);
      }
    }

    /**
     * s is the state reached from this one by m: its board is this board after
     * m, one move more, m as its last move and this state as its parent.
     */
    ghost predicate Child(s: State, m: Move)
      requires Ready()
    {
      s.board == ApplyMove(board, m) && s.numMoves == numMoves + 1 && s.prevMove == Some(m) &&
      s.prevState == this && s.numRows == numRows && s.numCols == numCols &&
      s.key == s.numMoves + Manhattan(s.board) && s.origin == origin && s.trail == trail + [m]
    }

    /** The states of nextStates are the children of this one by the moves of moves, in order. */
    ghost predicate Children(nextStates: seq<State>, moves: seq<Move>)
      requires Ready()
    {
      |nextStates| == |moves| && forall k :: 0 <= k < |moves| ==> Child(nextStates[k], moves[k])
    }

    /** A child by a move that does not undo prevMove is itself a well-formed state. */
    lemma ChildReady(s: State, m: Move)
      requires Ready() && Child(s, m) && prevMove != Some(Inverse(m)) && MovesTile(board, m)
      ensures s.Ready()
    {
      if trail != [] {
        InverseInvolutive(m);
      }
      ExtendTrail(origin, trail, m);
    }

    /**
     * The neighbours are well formed, and there is at least one: a board of
     * at least two rows and columns always lets the blank move somewhere
     * other than back.
     */
    lemma ChildrenReady(nextStates: seq<State>)
      requires Ready() && Children(nextStates, NeighbourMoves(numRows, numCols, BlankCell(board).value, prevMove))
      ensures |nextStates| >= 1 && forall k :: 0 <= k < |nextStates| ==> nextStates[k].Ready()
    {
      var b := BlankCell(board).value;
      var ms := NeighbourMoves(numRows, numCols, b, prevMove);
      NeighbourMovesSpec(numRows, numCols, b, prevMove);
      forall k | 0 <= k < |nextStates|
        ensures nextStates[k].Ready()
      {
        assert ms[k] in ms;
        ChildReady(nextStates[k], ms[k]);
      }
    }

    /**
     * State.getNeighbors: one new state per move that the blank's position
     * allows and that does not undo prevMove, in the order LEFT, RIGHT, DOWN, UP.
     */
    method GetNeighbors() returns (nextStates: seq<State>)
      requires Ready()
      ensures Children(nextStates, NeighbourMoves(numRows, numCols, BlankCell(board).value, prevMove))
    {
      var blankCell := BlankCell(board).value;
      ghost var moves: seq<Move>;
      nextStates, moves := AddIfAllowed([], [], blankCell, Left, blankCell.1 != numCols - 1 && prevMove != Some(Right));
      nextStates, moves := AddIfAllowed(nextStates, moves, blankCell, Right, blankCell.1 != 0 && prevMove != Some(Left));
      nextStates, moves := AddIfAllowed(nextStates, moves, blankCell, Down, blankCell.0 != 0 && prevMove != Some(Up));
      nextStates, moves := AddIfAllowed(nextStates, moves, blankCell, Up, blankCell.0 != numRows - 1 && prevMove != Some(Down));
      assert [] + Candidate(numRows, numCols, blankCell, prevMove, Left) == Candidate(numRows, numCols, blankCell, prevMove, Left);
    }

    /**
     * One guarded nextStates.add of getNeighbors: when allowed holds, the
     * child by m is appended; moves tracks the moves of the children so far.
     */
    method AddIfAllowed(nextStates: seq<State>, ghost moves: seq<Move>, ghost blankCell: (int, int), m: Move, allowed: bool)
      returns (nextStates': seq<State>, ghost moves': seq<Move>)
      requires Ready() && Children(nextStates, moves) && blankCell == BlankCell(board).value
      requires allowed <==> CanMove(numRows, numCols, blankCell.0, blankCell.1, m) && prevMove != Some(Inverse(m))
      ensures moves' == moves + Candidate(numRows, numCols, blankCell, prevMove, m)
      ensures Children(nextStates', moves')
      ensures |nextStates'| >= |nextStates| && forall k :: 0 <= k < |nextStates| ==> nextStates'[k] == nextStates[k]
    {
      if allowed {
        var next := NewChild(m);
        nextStates', moves' := nextStates + [next], moves + [m];
      } else {
        nextStates', moves' := nextStates, moves;
        assert moves + [] == moves;
      }
    }

    /** new State(applyMove(board, m), numMoves + 1, m, this). */
    method NewChild(m: Move) returns (next: State)
      requires Ready() && prevMove != Some(Inverse(m)) && MovesTile(board, m)
      ensures Child(next, m)
    {
      next := new State(ApplyMove(board, m), numMoves + 1, Some(m), this);
    }
  }

  /**
   * One more move on a trail of valid tiles: the board after it is the
   * origin after the longer trail, its tiles stay valid, and the longer trail
   * still never undoes a move when the new move does not undo the last one.
   */
  lemma ExtendTrail(origin: Grid, trail: seq<Move>, m: Move)
    requires Rect(origin) && OneBlank(origin) && Tiles(ApplySequence(origin, trail)) && NoUndo(trail)
    requires trail != [] ==> m != Inverse(trail[|trail| - 1])
    requires EffectiveFrom(origin, trail) && MovesTile(ApplySequence(origin, trail), m)
    ensures Tiles(ApplyMove(ApplySequence(origin, trail), m))
    ensures ApplyMove(ApplySequence(origin, trail), m) == ApplySequence(origin, trail + [m])
    ensures NoUndo(trail + [m]) && (trail + [m])[..|trail|] == trail
    ensures EffectiveFrom(origin, trail + [m])
  {
    var g := ApplySequence(origin, trail);
    SlideAllOneBlank(origin, trail);
    var (r, c) := BlankCell(origin).value;
    EffectiveAppend(|origin|, |origin[0]|, r, c, trail, m);
    MoveTiles(g, m);
    ApplySequenceAppend(origin, trail, [m]);
    ApplySequenceSingle(g, m);
    assert (trail + [m])[..|trail|] == trail;
    NoUndoStep(trail, m);
  }

  /** Extending a sequence without undoing its last move keeps NoUndo. */
  lemma NoUndoStep(ms: seq<Move>, m: Move)
    requires NoUndo(ms) && (ms != [] ==> m != Inverse(ms[|ms| - 1]))
    ensures NoUndo(ms + [m])
  {
    var t := ms + [m];
    forall i | 0 <= i < |t| - 1
      ensures t[i + 1] != Inverse(t[i])
    {
      if i < |ms| - 1 {
        assert t[i] == ms[i] && t[i + 1] == ms[i + 1];
      }
    }
  }

  /** One more cell of a row in the sum. */
  lemma RowStep(row: seq<int>, r: int, c: int, rows: int, cols: int)
    requires 0 <= c < |row|
    ensures RowDistance(row[..c + 1], r, rows, cols) == RowDistance(row[..c], r, rows, cols) + TileDistance(row[c], r, c, rows, cols)
  {
    assert row[..c + 1][..c] == row[..c];
  }

  /** One more full row in the sum. */
  lemma GridStep(g: Grid, r: int, rows: int, cols: int)
    requires 0 <= r < |g|
    ensures GridDistance(g[..r + 1], rows, cols) == GridDistance(g[..r], rows, cols) + RowDistance(g[r][..|g[r]|], r, rows, cols)
  {
    assert g[..r + 1][..r] == g[..r];
    assert g[r][..|g[r]|] == g[r];
  }

  // ---------------------------------------------------------------------------
  // Neighbour moves

  /** [m] when m moves a tile for a blank at b and does not undo prev, else []. */
  function Candidate(rows: int, cols: int, b: (int, int), prev: Option<Move>, m: Move): seq<Move>
  {
    if CanMove(rows, cols, b.0, b.1, m) && prev != Some(Inverse(m)) then [m] else []
  }

  /** The moves getNeighbors tries, in its order. */
  function NeighbourMoves(rows: int, cols: int, b: (int, int), prev: Option<Move>): seq<Move>
  {
    Candidate(rows, cols, b, prev, Left) + Candidate(rows, cols, b, prev, Right) +
    Candidate(rows, cols, b, prev, Down) + Candidate(rows, cols, b, prev, Up)
  }

  /**
   * A move is offered exactly when it is possible and does not undo the
   * previous move; none is offered twice; and on a board of at least 2 x 2
   * there is always one, since a blank can move in two directions at least.
   */
  lemma NeighbourMovesSpec(rows: int, cols: int, b: (int, int), prev: Option<Move>)
    requires rows >= MIN_ROWS && cols >= MIN_COLS && 0 <= b.0 < rows && 0 <= b.1 < cols
    ensures var ms := NeighbourMoves(rows, cols, b, prev);
      (forall m :: m in ms <==> CanMove(rows, cols, b.0, b.1, m) && prev != Some(Inverse(m))) &&
      (forall i, j :: 0 <= i < j < |ms| ==> ms[i] != ms[j]) &&
      |ms| >= 1
  {
    NeighbourMovesMember(rows, cols, b, prev);
    NeighbourMovesDistinct(rows, cols, b, prev);
    var ms := NeighbourMoves(rows, cols, b, prev);
    if b.0 != 0 && prev != Some(Up) {
      assert Down in ms;
    } else if b.0 != rows - 1 && prev != Some(Down) {
      assert Up in ms;
    } else {
      assert Left in ms || Right in ms;
    }
  }

  /** A move is offered exactly when it is possible and does not undo the previous move. */
  lemma NeighbourMovesMember(rows: int, cols: int, b: (int, int), prev: Option<Move>)
    ensures var ms := NeighbourMoves(rows, cols, b, prev);
      forall m :: m in ms <==> CanMove(rows, cols, b.0, b.1, m) && prev != Some(Inverse(m))
  {
    var ms := NeighbourMoves(rows, cols, b, prev);
    var l, r, d, u := Candidate(rows, cols, b, prev, Left), Candidate(rows, cols, b, prev, Right),
      Candidate(rows, cols, b, prev, Down), Candidate(rows, cols, b, prev, Up);
    assert ms == l + r + d + u;
    forall m
      ensures m in ms <==> CanMove(rows, cols, b.0, b.1, m) && prev != Some(Inverse(m))
    {
      match m {
        case Left => assert m !in r + d + u;
        case Right => assert m !in l + d + u;
        case Down => assert m !in l + r + u;
        case Up => assert m !in l + r + d;
      }
    }
  }

  /** No move is offered twice. */
  lemma NeighbourMovesDistinct(rows: int, cols: int, b: (int, int), prev: Option<Move>)
    ensures var ms := NeighbourMoves(rows, cols, b, prev);
      forall i, j :: 0 <= i < j < |ms| ==> ms[i] != ms[j]
  {
    var l, r, d, u := Candidate(rows, cols, b, prev, Left), Candidate(rows, cols, b, prev, Right),
      Candidate(rows, cols, b, prev, Down), Candidate(rows, cols, b, prev, Up);
    assert NeighbourMoves(rows, cols, b, prev) == l + r + d + u;
  }

}
