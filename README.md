# Fifteen-puzzle engine, modelled in Dafny

This project models the engine of a sliding-tile puzzle game (the "15-puzzle" on
any board of at least 2 x 2 cells) and proves properties of it. The game keeps a
board as rows of integers. Tiles are 1 .. rows*cols-1, the blank is 0, and the
goal board holds the tiles in row-major order with the blank in the
bottom-right cell. The modelled parts are:

- the `Move` enum and its letter codes;
- the scrambler's board operations (`applyMove`, `applySequence`,
  `reversedSequence`, the move and board text codecs, random board
  generation and scramble sequences);
- the solver: the goal board, the solvability test, `isSolved`,
  `getHomeCell`, and the best-first search `solve` with its search states and
  its sorted doubly linked priority queue;
- the on-screen puzzle's grid of tiles: its construction, the four slide
  operations, `move`, `isSolved`, `currentState` and the state-setting part of
  `applyStateInstant`;
- the timed session's averages (`currentAvg`, `isBestAvg`, `indexOf`, the
  personal-best update and the append of a solve);
- the timer's `millisToString`.

Boards are values (`Grid = seq<seq<int>>`) wherever the source only reads
them. The code that changes a board in place (the `applyMove*` helpers,
`applySequence`, `cloneArray`, `getBlankCell`, `isSolvable`)
works on an `array2<int>` and is proved against the value-level functions. The
search state, the priority queue and its nodes, the on-screen puzzle and the
timed session are classes whose methods update their fields.

Results the model establishes:

- A move that is not a no-op, followed by its inverse, restores the board.
  The reversed sequence of a path undoes it.
- A move, and so any sequence of moves, keeps a valid board valid.
- The solvability test reports whether the board's permutation is even, with
  the blank ranked above every tile (`Solver.IsSolvable`). Every board
  reached from the goal with the blank back home passes it. The test does not
  look at where the blank is, so a board with the blank elsewhere can be
  rejected even though moves reach it from the goal. `1 2 3 / 4 5 6 / 7 0 8`,
  one move from the goal, is rejected (`Solvability.BlankOffCornerExample`).
  The scrambler always puts the blank in the home cell, so its use of the
  test is sound. The model keeps the test as the source writes it.
- `solve` returns "unsolvable" exactly when that test fails. A solution it
  returns leads from the board to the goal, every move in it moves a tile,
  and no move undoes the one before. The goal board gives the empty solution.
- The priority queue stays sorted by priority, inserting behind entries of
  equal priority. Dequeue returns a minimum.
- The Manhattan heuristic is zero exactly on the goal board.
- Text codecs round-trip: `stringToSequence(sequenceToString(ms))` is `ms`,
  and `stringToState(stateToString(b))` is `b` for every valid board `b`.
  A state the parser accepts holds each value 0 .. rows*cols-1 exactly once.
- A generated board is a valid, even permutation with the blank home. It is
  scrambled exactly when it differs from the goal. A scramble sequence takes
  the goal board to that board.
- `currentAvg` is the truncated mean of the last `len` solves, or `-1` when
  there are fewer. The best average of each length is the minimum over the
  session's prefixes, and it never increases.
- `millisToString` gives fields in range that read back to within 100 ms.
  Two durations print the same text exactly when they agree in tenths of a
  second.

## Model

| member | source | states |
|---|---|---|
| Moves.Str | src/fifteenpuzzle/Move.java:10-13 | each move's code is one character long |
| Moves.Inverse | src/fifteenpuzzle/Move.java:22-37 | the inverse swaps LEFT with RIGHT and UP with DOWN, and no move is its own inverse |
| Moves.InverseInvolutive | src/fifteenpuzzle/Move.java:22-37 | inverting twice gives back the move |
| Moves.ToUpper | src/fifteenpuzzle/Move.java:41 | upper-casing maps each ASCII lower-case letter to its capital and leaves every other character alone |
| Moves.ParseMoveCases | src/fifteenpuzzle/Move.java:39-55 | L, R, U, D in either case read as their moves, and every other character gives null |
| Moves.ParseMoveCaseInsensitive | src/fifteenpuzzle/Move.java:41-54 | reading a character and reading its upper-case form give the same result |
| Moves.ParseMoveStr | src/fifteenpuzzle/Move.java:10-55 | each move's code reads back as that move, and distinct moves have distinct codes |
| Boards.SolvedState | src/fifteenpuzzle/PuzzleSolver.java:22-38 | the goal board has the requested number of rows and columns |
| Boards.FlattenSolved | src/fifteenpuzzle/PuzzleSolver.java:22-38 | read row by row, the goal board is 1, 2, ..., rows*cols-1 followed by the blank |
| Boards.SolvedStateIsBoard | src/fifteenpuzzle/PuzzleSolver.java:22-38 | the goal board holds every value once and its blank is in the bottom-right cell |
| Boards.IsSolvedIff | src/fifteenpuzzle/PuzzleSolver.java:73-89 | a board counts as solved exactly when it equals the goal board |
| Boards.HomeCell | src/fifteenpuzzle/PuzzleSolver.java:91-103 | a value has a home cell exactly when it is in 0 .. rows*cols-1; the goal board holds the value in that cell; the blank's home is the bottom-right cell; any other value gives NO_CELL |
| Boards.FindBlank | src/fifteenpuzzle/PuzzleScrambler.java:251-266 | scanning backwards from a cell finds the last blank at or before it, or reports that there is none |
| Boards.BlankCell | src/fifteenpuzzle/PuzzleScrambler.java:251-266 | the blank cell found is a blank, and no cell after it in row-major order is one; with no blank the result is the {-1} marker |
| Boards.NextBlank | src/fifteenpuzzle/PuzzleScrambler.java:268-324 | the blank cell a one-cell move returns is on the board |
| Boards.Slide | src/fifteenpuzzle/PuzzleScrambler.java:268-324 | a move keeps the board's shape and leaves the blank in the cell it reports |
| Boards.SlideAll | src/fifteenpuzzle/PuzzleScrambler.java:200-225 | applying moves in turn keeps the shape and leaves the blank in the tracked cell |
| Boards.ApplyMove | src/fifteenpuzzle/PuzzleScrambler.java:227-249 | applying one move keeps the board's shape |
| Boards.ApplySequence | src/fifteenpuzzle/PuzzleScrambler.java:200-225 | applying a sequence keeps the board's shape |
| Boards.BoardCells | src/fifteenpuzzle/PuzzleSolver.java:41-71 | a valid board's cells hold values 0 .. rows*cols-1, pairwise distinct |
| Boards.BoardHasValue | src/fifteenpuzzle/PuzzleSolver.java:41-71 | every value 0 .. rows*cols-1 sits in some cell of a valid board |
| Boards.BoardBlank | src/fifteenpuzzle/PuzzleScrambler.java:251-266 | a valid board has a blank, and the backward scan finds that blank |
| Boards.SwapPreservesBoard | src/fifteenpuzzle/PuzzleSolver.java:58-64 | exchanging two cells keeps a board valid |
| Boards.SlidePreservesBoard | src/fifteenpuzzle/PuzzleScrambler.java:268-324 | a move keeps a valid board valid |
| Boards.BoardOneBlank | src/fifteenpuzzle/PuzzleScrambler.java:251-266 | a valid board has exactly one blank |
| Boards.NeighbourInverse | src/fifteenpuzzle/Move.java:22-37 | the cell a possible move sends the blank to is on the board, and the inverse move from there sends it back |
| Boards.SlideCells | src/fifteenpuzzle/PuzzleScrambler.java:268-324 | a possible move swaps the blank with its neighbour and changes no other cell |
| Boards.SlideOneBlank | src/fifteenpuzzle/PuzzleScrambler.java:227-249 | after a move the board still has one blank, and it is the cell the move reports |
| Boards.ApplyMoveEffect | src/fifteenpuzzle/PuzzleScrambler.java:227-324 | at the edge a move changes nothing; otherwise the blank and its neighbour in the move's direction trade places and nothing else changes |
| Boards.MoveThenInverse | src/fifteenpuzzle/PuzzleScrambler.java:227-249 | a move that moves a tile, followed by its inverse, restores the board |
| Boards.ReversedSequence | src/fifteenpuzzle/PuzzleScrambler.java:62-72 | the reversed sequence has the same length, and its i-th move is the inverse of the i-th move from the end |
| Boards.ReversedTwice | src/fifteenpuzzle/PuzzleScrambler.java:62-72 | reversing twice gives back the original sequence |
| Boards.EndBlankInRange | src/fifteenpuzzle/PuzzleScrambler.java:200-225 | the tracked blank cell never leaves the board |
| Boards.EffectiveAppend | src/fifteenpuzzle/PuzzleScrambler.java:200-225 | a path in which every move moves a tile stays so when a further possible move is added |
| Boards.SlideAllAppend | src/fifteenpuzzle/PuzzleScrambler.java:200-225 | applying a + b is applying a, then b from where the blank ended |
| Boards.SlideAllOneBlank | src/fifteenpuzzle/PuzzleScrambler.java:200-225 | on a board with one blank, the cell applySequence tracks is the one a fresh scan would find |
| Boards.ApplySequenceBoard | src/fifteenpuzzle/PuzzleScrambler.java:200-225 | a sequence of moves keeps a valid board valid |
| Boards.ApplySequenceAppend | src/fifteenpuzzle/PuzzleScrambler.java:200-225 | applying a + b is applying a, then applying b to the result |
| Boards.ApplySequenceSingle | src/fifteenpuzzle/PuzzleScrambler.java:200-249 | a one-move sequence acts like applyMove |
| Boards.ReversedStep | src/fifteenpuzzle/PuzzleScrambler.java:62-72 | if the reversed tail undoes the tail, the reversed whole undoes the whole |
| Boards.ReversedUndoes | src/fifteenpuzzle/PuzzleScrambler.java:62-72 | applying a path in which every move moves a tile, then its reversed sequence, restores the board |
| Boards.EndBlankAppend | src/fifteenpuzzle/PuzzleScrambler.java:200-225 | the blank tracked along a + b is the blank tracked along a, then along b |
| Boards.ReversedEffective | src/fifteenpuzzle/PuzzleScrambler.java:62-72 | the reversed sequence of such a path moves a tile at every step and takes the blank back to its start |
| Boards.NoUndoReversed | src/fifteenpuzzle/PuzzleScrambler.java:62-72 | if no move of a path undoes the one before, the same holds for its reversed sequence |
| Solvability.CountLessAdjacentSwap | src/fifteenpuzzle/PuzzleSolver.java:41-71 | swapping two neighbours does not change how many elements are below a value |
| Solvability.InversionsAdjacentSwap | src/fifteenpuzzle/PuzzleSolver.java:41-71 | swapping two distinct neighbours adds or removes exactly one inversion |
| Solvability.SwapFlipsParity | src/fifteenpuzzle/PuzzleSolver.java:58-66 | any exchange of two distinct values flips the parity of the inversion count |
| Solvability.RankedDistinct | src/fifteenpuzzle/PuzzleSolver.java:41-71 | with the blank ranked last, a valid board's cells are still pairwise distinct |
| Solvability.CellSwapFlipsParity | src/fifteenpuzzle/PuzzleSolver.java:58-66 | exchanging two cells of a valid board flips whether its permutation is even |
| Solvability.SolvedEven | src/fifteenpuzzle/PuzzleSolver.java:22-71 | the goal board has an even permutation, so it passes the solvability test |
| Solvability.BlankOffCornerExample | src/fifteenpuzzle/PuzzleSolver.java:41-71 | 1 2 3 / 4 5 6 / 7 0 8 is a valid board with an odd permutation, so the test rejects it, yet one LEFT move solves it |
| Solvability.FirstTwoSwappedExample | src/fifteenpuzzle/PuzzleSolver.java:41-71 | 2 1 3 / 4 5 6 / 7 8 0 has an odd permutation, so the test rejects it |
| Solvability.MoveFlipsParity | src/fifteenpuzzle/PuzzleScrambler.java:227-249 | a move that moves a tile flips the permutation's parity |
| Solvability.MoveBlankDistance | src/fifteenpuzzle/PuzzleScrambler.java:227-249 | a move that moves a tile takes the blank one step nearer to or farther from home |
| Solvability.MoveKeepsAdjustedParity | src/fifteenpuzzle/PuzzleScrambler.java:227-249 | the parity plus the blank's distance from home is the same after any move |
| Solvability.SequenceKeepsAdjustedParity | src/fifteenpuzzle/PuzzleScrambler.java:200-225 | the same quantity is the same after any sequence of moves |
| Solvability.ReachableWithBlankHomeIsEven | src/fifteenpuzzle/PuzzleSolver.java:41-71 | every board reached from the goal by moves, with the blank back in the bottom-right cell, passes the solvability test |
| BoardArrays.CloneArray | src/fifteenpuzzle/PuzzleScrambler.java:190-198 | the copy is a fresh array holding the same board |
| BoardArrays.GetBlankCell | src/fifteenpuzzle/PuzzleScrambler.java:251-266 | the backward scan returns the blank cell, or the {-1} marker when there is none |
| BoardArrays.ApplyMoveLeft | src/fifteenpuzzle/PuzzleScrambler.java:268-281 | the array now holds the board after a LEFT move, and the returned cell is where the blank went |
| BoardArrays.ApplyMoveRight | src/fifteenpuzzle/PuzzleScrambler.java:283-295 | the same for a RIGHT move |
| BoardArrays.ApplyMoveDown | src/fifteenpuzzle/PuzzleScrambler.java:297-309 | the same for a DOWN move |
| BoardArrays.ApplyMoveUp | src/fifteenpuzzle/PuzzleScrambler.java:311-324 | the same for an UP move |
| BoardArrays.ApplyMove | src/fifteenpuzzle/PuzzleScrambler.java:227-249 | a fresh array holds the board after the move; the caller's board is not changed |
| BoardArrays.ApplySequence | src/fifteenpuzzle/PuzzleScrambler.java:200-225 | a fresh array holds the board after the moves, each made from the cell the previous move returned |
| Solver.CheckSolved | src/fifteenpuzzle/PuzzleSolver.java:73-89 | the backward comparison reports true exactly when the board is the goal board |
| Solver.IsSolvable | src/fifteenpuzzle/PuzzleSolver.java:41-71 | counting the swaps that sort a copy of the board gives an even count exactly when the permutation is even, with the blank ranked last |
| Solver.SettleCell | src/fifteenpuzzle/PuzzleSolver.java:54-67 | the inner loop leaves every cell up to and including the current one holding its goal value or the blank, and keeps the count's parity in step with the board's |
| Solver.SwapIntoPlace | src/fifteenpuzzle/PuzzleSolver.java:58-66 | one swap keeps the earlier cells settled and leaves fewer cells out of place |
| Solver.SwapStep | src/fifteenpuzzle/PuzzleSolver.java:58-66 | the swapped value's home cell is another cell on the board, and the swap settles that cell and flips the parity |
| Solver.HomeTarget | src/fifteenpuzzle/PuzzleSolver.java:58-62 | the cell (v-1)/cols, (v-1)%cols of a misplaced tile v is on the board, and it is another cell holding another value |
| Solver.SwapParity | src/fifteenpuzzle/PuzzleSolver.java:58-66 | one more swap keeps the swap count's parity in step with the board's |
| Solver.SwapSettles | src/fifteenpuzzle/PuzzleSolver.java:58-66 | sending a value home settles its home cell and leaves fewer cells misplaced |
| Solver.SettledIsSolved | src/fifteenpuzzle/PuzzleSolver.java:41-71 | a valid board whose cells all hold their goal values or the blank is the goal board |
| Search.BoardTiles | src/fifteenpuzzle/PuzzleSolver.java:174-195 | a valid board's cells are in range, as the heuristic needs |
| Search.MoveTiles | src/fifteenpuzzle/PuzzleSolver.java:197-215 | a move keeps that property |
| Search.ManhattanZero | src/fifteenpuzzle/PuzzleSolver.java:174-195 | the sum of the tiles' distances from home is zero exactly on the goal board |
| Search.TileDistanceZero | src/fifteenpuzzle/PuzzleSolver.java:174-195 | a tile's distance from home is zero exactly when it sits at home; the blank counts nothing |
| Search.State.constructor | src/fifteenpuzzle/PuzzleSolver.java:161-172 | a new state records its board, move count, last move and parent; its moves from the start are the parent's moves plus its own |
| Search.State.GetPriority | src/fifteenpuzzle/PuzzleSolver.java:174-195 | the priority is the number of moves plus the Manhattan distance, and at least the number of moves |
| Search.State.Parent | src/fifteenpuzzle/PuzzleSolver.java:151-172 | a state with no last move is the root; otherwise its parent is well formed and its path is one move shorter |
| Search.State.ChildrenReady | src/fifteenpuzzle/PuzzleSolver.java:197-215 | every state has at least one neighbour, and each neighbour is well formed |
| Search.State.GetNeighbors | src/fifteenpuzzle/PuzzleSolver.java:197-215 | the neighbours are one state per possible move that does not undo the last move, in the order LEFT, RIGHT, DOWN, UP |
| Search.State.NewChild | src/fifteenpuzzle/PuzzleSolver.java:204-213 | the child holds the board after the move, one more move, and this state as its parent |
| Search.ExtendTrail | src/fifteenpuzzle/PuzzleSolver.java:197-215 | adding a move that moves a tile and does not undo the last one keeps the path effective and free of undos |
| Search.NeighbourMovesSpec | src/fifteenpuzzle/PuzzleSolver.java:197-215 | a move is offered exactly when it is possible and does not undo the last move; offers are distinct and there is always at least one |
| PriorityQueues.InsertSpec | src/fifteenpuzzle/PuzzleSolver.java:223-268 | inserting into a sorted list splices the state in at one position, behind every entry of equal or lower priority and in front of every entry of higher priority, keeps the list sorted and adds only that state |
| PriorityQueues.InsertPosSplit | src/fifteenpuzzle/PuzzleSolver.java:234-250 | in a sorted list, walking from the rear past every higher priority stops behind exactly the entries of equal or lower priority |
| PriorityQueues.InsertAllSpec | src/fifteenpuzzle/PuzzleSolver.java:223-268 | inserting states one by one keeps the list sorted and adds exactly those states |
| PriorityQueues.InsertMembers | src/fifteenpuzzle/PuzzleSolver.java:223-268 | after an insert the list holds the old entries and the new state |
| PriorityQueues.FrontIsMinimum | src/fifteenpuzzle/PuzzleSolver.java:270-294 | the front of a sorted list has the lowest priority, and the rest stays sorted |
| PriorityQueues.PriorityQueue.Enqueue | src/fifteenpuzzle/PuzzleSolver.java:223-268 | the linked list now holds the old entries with the state inserted behind every entry of equal or lower priority |
| PriorityQueues.PriorityQueue.Walk | src/fifteenpuzzle/PuzzleSolver.java:243-250 | walking back from the rear stops at the last entry whose priority is at most the new one, or runs off the front |
| PriorityQueues.PriorityQueue.PopFront | src/fifteenpuzzle/PuzzleSolver.java:270-294 | removing the front returns a state of lowest priority and keeps the rest in order |
| PriorityQueues.PriorityQueue.Dequeue | src/fifteenpuzzle/PuzzleSolver.java:270-294 | an empty queue gives null; otherwise the front state, of lowest priority, is returned and its neighbours are inserted in order |
| PriorityQueues.PriorityQueue.EnqueueAll | src/fifteenpuzzle/PuzzleSolver.java:286-291 | inserting several states keeps the queue valid and inserts each one in turn |
| Solving.Solve | src/fifteenpuzzle/PuzzleSolver.java:105-133 | the answer is "unsolvable" exactly when the permutation is odd; a solution leads from the board to the goal, moves a tile at every step and never undoes the previous move; the goal board gives the empty solution |
| Solving.BestFirst | src/fifteenpuzzle/PuzzleSolver.java:110-120 | a state the search returns holds the goal board and descends from the starting board |
| Solving.Step | src/fifteenpuzzle/PuzzleSolver.java:115-120 | one turn of the loop takes the minimum state and keeps every queued state rooted at the start |
| Solving.Trace | src/fifteenpuzzle/PuzzleSolver.java:122-130 | following the parents back gives the moves from the start in order |
| Scrambler.Deal | src/fifteenpuzzle/PuzzleScrambler.java:17-39 | the random fill is a valid board with the blank in the bottom-right cell |
| Scrambler.DealtBoard | src/fifteenpuzzle/PuzzleScrambler.java:17-39 | a grid holding 1 .. n-1 and the blank once each is a valid board |
| Scrambler.Attempt | src/fifteenpuzzle/PuzzleScrambler.java:17-47 | after the repair swap the board is a valid, even permutation with the blank home |
| Scrambler.GenerateScrambleState | src/fifteenpuzzle/PuzzleScrambler.java:11-51 | the result is a valid, even permutation with the blank home, and it is scrambled exactly when it differs from the goal |
| Scrambler.ReversedSolutionScrambles | src/fifteenpuzzle/PuzzleScrambler.java:54-72 | reversing a solution of a board gives moves that take the goal to that board |
| Scrambler.GenerateScrambleSequence | src/fifteenpuzzle/PuzzleScrambler.java:54-60 | the sequence, when there is one, takes the goal board to the generated board, moves a tile at every step and never undoes the previous move |
| Text.NatStr | src/fifteenpuzzle/PuzzleScrambler.java:128 | a number's decimal text is digits, without a leading zero, and "0" only for zero |
| Text.DigitsValueNatStr | src/fifteenpuzzle/PuzzleScrambler.java:150 | parsing a number's decimal text gives back the number |
| Text.NatStrInjective | src/fifteenpuzzle/PuzzleScrambler.java:148-151 | distinct numbers have distinct decimal texts |
| Text.ZeroPad | src/fifteenpuzzle/PuzzleTimer.java:137 | padding ends with the text, fills the front with zeros and reaches the width |
| Text.Delete | src/fifteenpuzzle/PuzzleScrambler.java:76-77 | removing a character leaves every other character and none of that one |
| Text.Replace | src/fifteenpuzzle/PuzzleScrambler.java:133 | replacing a character changes exactly its occurrences |
| Text.StripLeading | src/fifteenpuzzle/PuzzleScrambler.java:141 | the result is a suffix that starts with a non-blank character |
| Text.StripTrailing | src/fifteenpuzzle/PuzzleScrambler.java:141 | the result is a prefix that ends with a non-blank character |
| Text.StripFramed | src/fifteenpuzzle/PuzzleScrambler.java:141 | stripping one space from either side of a text that has no outer spaces gives back the text |
| Text.Pieces | src/fifteenpuzzle/PuzzleScrambler.java:134 | splitting gives at least one piece and no piece contains the separator |
| Text.DropTrailingEmpty | src/fifteenpuzzle/PuzzleScrambler.java:134 | splitting then drops only trailing empty pieces |
| Text.Split | src/fifteenpuzzle/PuzzleScrambler.java:134 | no piece of a split contains the separator |
| Text.PiecesJoin | src/fifteenpuzzle/PuzzleScrambler.java:134 | splitting the pieces joined by a separator gives back the pieces |
| Text.SplitJoin | src/fifteenpuzzle/PuzzleScrambler.java:134 | the same holds for the split that drops trailing empties when the last piece is not empty |
| Codec.Upper | src/fifteenpuzzle/PuzzleScrambler.java:76 | upper-casing keeps the length and upper-cases each character |
| Codec.Letters | src/fifteenpuzzle/PuzzleScrambler.java:76-77 | the cleaned text holds no spaces and no line breaks |
| Codec.ParseMovesSpec | src/fifteenpuzzle/PuzzleScrambler.java:79-86 | reading fails exactly when some character is not a move letter, and otherwise gives one move per character |
| Codec.StringToSequenceFails | src/fifteenpuzzle/PuzzleScrambler.java:74-89 | stringToSequence gives null exactly when, after removing spaces and line breaks, some character is not a move letter in either case |
| Codec.StringToSequenceReads | src/fifteenpuzzle/PuzzleScrambler.java:74-89 | when it succeeds it reads one move per remaining character, in order |
| Codec.StringToSequenceEmpty | src/fifteenpuzzle/PuzzleScrambler.java:74-89 | the empty text reads as the empty sequence |
| Codec.SequenceText | src/fifteenpuzzle/PuzzleScrambler.java:98-105 | a line break precedes the move at the start of every row |
| Codec.CleanedConcat | src/fifteenpuzzle/PuzzleScrambler.java:76-77 | removing spaces and line breaks works piece by piece |
| Codec.ParseMovesConcat | src/fifteenpuzzle/PuzzleScrambler.java:79-86 | reading two texts one after the other gives their moves one after the other |
| Codec.SequenceTextReads | src/fifteenpuzzle/PuzzleScrambler.java:98-105 | the text written from position i reads back as the moves from i on |
| Codec.SequenceRoundTrip | src/fifteenpuzzle/PuzzleScrambler.java:74-108 | reading back the text sequenceToString writes gives the same moves, for any row length |
| Codec.SequenceToStringLayout | src/fifteenpuzzle/PuzzleScrambler.java:91-108 | the empty sequence gives the empty text; each move is its letter and a space, and a line break starts each further row |
| Codec.StateText | src/fifteenpuzzle/PuzzleScrambler.java:177-184 | a board of at least one row writes at least two characters before the final cut |
| Codec.RemoveFirst | src/fifteenpuzzle/PuzzleScrambler.java:151 | removing a listed number leaves the list one shorter, with only that one occurrence gone |
| Codec.ParseRows | src/fifteenpuzzle/PuzzleScrambler.java:139-157 | a successful parse has one row per line |
| Codec.StringToStatePermutation | src/fifteenpuzzle/PuzzleScrambler.java:121-161 | a board the parser accepts has the requested shape and holds each value 0 .. rows*cols-1 exactly once |
| Codec.StateToStringBody | src/fifteenpuzzle/PuzzleScrambler.java:171-188 | on a rectangular grid, the text is the rows' cells separated by spaces, rows separated by " / ", with no trailing separator |
| Codec.RowsOfStateText | src/fifteenpuzzle/PuzzleScrambler.java:133-141 | on a rectangular grid, the parser's row split of that text gives back each row's text |
| Codec.ParseRowsTokens | src/fifteenpuzzle/PuzzleScrambler.java:139-157 | rows whose cells are distinct numbers still on offer parse back to those rows |
| Codec.StateRoundTrip | src/fifteenpuzzle/PuzzleScrambler.java:121-188 | parsing the text stateToString writes for a valid board gives back that board |
| Puzzles.Shown | src/fifteenpuzzle/Puzzle.java:419-435 | the board shown is each cell's tile value, with 0 for a cell without a tile |
| Puzzles.MakeTiles | src/fifteenpuzzle/Puzzle.java:65-80 | every cell but the blank's gets a tile holding the goal value for that cell |
| Puzzles.Puzzle.constructor | src/fifteenpuzzle/Puzzle.java:47-63 | a new puzzle shows the goal board, with the blank in the bottom-right cell |
| Puzzles.Puzzle.TrackedBlank | src/fifteenpuzzle/Puzzle.java:30-33 | the recorded blank cell is the board's only blank |
| Puzzles.Puzzle.TilesShown | src/fifteenpuzzle/Puzzle.java:30-33 | each cell holds the tile for the shown value, and only the recorded blank cell is empty |
| Puzzles.Puzzle.Move | src/fifteenpuzzle/Puzzle.java:213-247 | before the scramble is complete nothing moves; otherwise the move is applied to the shown board and success means a tile moved |
| Puzzles.Puzzle.MoveRight | src/fifteenpuzzle/Puzzle.java:257-278 | unless the blank is in the first column, the tile on its left slides right; the board changes exactly as the scrambler's RIGHT move |
| Puzzles.Puzzle.MoveLeft | src/fifteenpuzzle/Puzzle.java:288-309 | the same for LEFT, unless the blank is in the last column |
| Puzzles.Puzzle.MoveUp | src/fifteenpuzzle/Puzzle.java:319-340 | the same for UP, unless the blank is in the last row |
| Puzzles.Puzzle.MoveDown | src/fifteenpuzzle/Puzzle.java:350-371 | the same for DOWN, unless the blank is in the first row |
| Puzzles.Puzzle.IsSolved | src/fifteenpuzzle/Puzzle.java:391-406 | the puzzle reports solved exactly when the shown board is the goal board |
| Puzzles.Puzzle.CurrentState | src/fifteenpuzzle/Puzzle.java:419-435 | the returned array is a new one holding the shown board |
| Puzzles.Puzzle.ApplyStateInstant | src/fifteenpuzzle/Puzzle.java:120-140 | the puzzle shows the given board, records its blank, and is ready for moves again |
| Puzzles.TileFor | src/fifteenpuzzle/Puzzle.java:126-131 | a value gets a tile showing it, and only the blank gets none |
| Puzzles.LayTiles | src/fifteenpuzzle/Puzzle.java:122-133 | every cell gets the tile for the given board's value there |
| Puzzles.LaidShown | src/fifteenpuzzle/Puzzle.java:122-133 | the tiles laid show exactly the given board |
| Puzzles.SlidTiles | src/fifteenpuzzle/Puzzle.java:257-371 | moving the neighbour's tile into the blank cell shows the board after the move and keeps only the new blank cell empty |
| JavaInt.Quot | src/fifteenpuzzle/PuzzleTimer.java:128-134 | integer division rounds toward zero |
| JavaInt.QuotRem | src/fifteenpuzzle/TimedSession.java:360 | quotient times divisor plus remainder is the dividend, and the remainder has the dividend's sign and is smaller than the divisor |
| JavaInt.Int32 | src/fifteenpuzzle/PuzzleTimer.java:128 | the cast to int keeps the value in the 32-bit range, is the identity there and agrees with the value modulo 2^32 |
| Timer.MillisToString | src/fifteenpuzzle/PuzzleTimer.java:126-138 | the text is padded by a space on both sides and is at least ten characters long |
| Timer.ClockOfDuration | src/fifteenpuzzle/PuzzleTimer.java:126-136 | for a non-negative duration, minutes and seconds are 0 .. 59, tenths 0 .. 9, and the fields add up to the duration rounded down to a tenth |
| Timer.ClockFields | src/fifteenpuzzle/PuzzleTimer.java:128-135 | the hours are the whole hours of the duration and the tenths are the tenths digit of its milliseconds |
| Timer.ClockOfNegative | src/fifteenpuzzle/PuzzleTimer.java:126-136 | for a negative duration every field is zero or negative, and the fields add up to the duration rounded toward zero |
| Timer.ClockOfOdd | src/fifteenpuzzle/PuzzleTimer.java:126-136 | a negated duration gives the negated fields |
| Timer.MillisToStringShape | src/fifteenpuzzle/PuzzleTimer.java:137 | the text is " H:MM:SS.T " with the hours unpadded |
| Timer.ClockTenths | src/fifteenpuzzle/PuzzleTimer.java:126-136 | the fields of a non-negative duration spell out its number of tenths |
| Timer.SameClock | src/fifteenpuzzle/PuzzleTimer.java:126-136 | two non-negative durations give the same fields exactly when they agree in tenths |
| Timer.SameText | src/fifteenpuzzle/PuzzleTimer.java:126-138 | two non-negative durations print the same text exactly when they agree in tenths |
| Sessions.SumLastBounds | src/fifteenpuzzle/TimedSession.java:353-358 | the sum of k durations between lo and hi is between k*lo and k*hi |
| Sessions.AverageWithin | src/fifteenpuzzle/TimedSession.java:345-361 | an average of durations between lo and hi is between lo and hi |
| Sessions.AverageSingle | src/fifteenpuzzle/TimedSession.java:345-361 | the average of one is the last solve |
| Sessions.AverageMissing | src/fifteenpuzzle/TimedSession.java:345-361 | the average is NO_AVG exactly when there are fewer solves than its length, and otherwise not negative |
| Sessions.ImprovesStrictly | src/fifteenpuzzle/TimedSession.java:363-369 | a tie is not a new best, NO_AVG never is, and with a previous best only a strictly lower average is |
| Sessions.BestIsSmallest | src/fifteenpuzzle/TimedSession.java:312-318 | the best average is NO_AVG exactly while there are too few solves, is at most the average at every earlier point, and equals one of them |
| Sessions.BestNeverIncreases | src/fifteenpuzzle/TimedSession.java:312-318 | saving a solve never raises the best average |
| Sessions.TimedSession.constructor | src/fifteenpuzzle/TimedSession.java:236-238 | a new session has no solves and every best average is NO_AVG |
| Sessions.TimedSession.CurrentAvg | src/fifteenpuzzle/TimedSession.java:345-361 | the result is the truncated mean of the last len solves, of all solves for AVG_ALL_SOLVES, or NO_AVG when there are too few |
| Sessions.TimedSession.IndexOf | src/fifteenpuzzle/TimedSession.java:371-379 | the result is the first position of the key, or -1 exactly when the key is absent |
| Sessions.TimedSession.IsBestAvg | src/fifteenpuzzle/TimedSession.java:363-369 | an average is a new best exactly when it is not NO_AVG and the stored best is NO_AVG or higher |
| Sessions.TimedSession.UpdateBestAvgs | src/fifteenpuzzle/TimedSession.java:300-343 | each fixed-length best average is replaced exactly when the current average improves on it; the all-solves slot is left alone |
| Sessions.TimedSession.SaveSolve | src/fifteenpuzzle/TimedSession.java:164-168 | the solve is appended and every best average is again the minimum over the session |

## Left out

- Drawing, animation, threads and waiting: Swing panels, `Tile` objects beyond the value they show (size, position, colour, `isDark`, the sliding animation in Puzzle.java:447-629), `setBusy`, the `moveSync` wait loop in `move`, `applySequenceAnimated`, and the background thread around `applyStateInstant`.
- Randomness is a parameter: the random draws are an oracle function that returns an index in range. Nothing is claimed about uniformity.
- Scrambler.GenerateScrambleState: the source's do-while loop repeats until the board is not the goal. The model stops after `maxAttempts` tries and reports whether the board is scrambled, because a loop that may run forever has no termination measure.
- Solving.Solve: the source's `while (true)` search has a `fuel` bound. When the fuel runs out the result is `OutOfSteps`, which the source never returns. The model does not prove that the search always finds a solution, or that the solution is shortest.
- Scrambler.GenerateScrambleSequence: when the search runs out of fuel the result is None, where the source would keep searching.
- Search.State: the source caches the priority in a field on first use. The model recomputes it each time, which gives the same value.
- Scrambler.Deal builds the board as a sequence of rows rather than filling an `int[][]` in place.
- Moves.ToUpper: `Character.toUpperCase` is modelled on ASCII letters only. No other character upper-cases to L, R, U or D, so this does not change what parses.
- Codec.Upper: models `String.toUpperCase` (PuzzleScrambler.java:76) character by character with `Moves.ToUpper`, so it keeps the length. Java's version can lengthen the text ("ß" becomes "SS"); no such expansion yields only move letters, so `stringToSequence` returns null on those inputs either way.
- Codec.StateToString: requires a rectangular grid. Java takes the column count from the first row and reads every row with it, so on a ragged grid it drops the extra cells of a longer row or throws `ArrayIndexOutOfBoundsException` on a shorter one; the model does not describe ragged grids. Every caller (TimedSession.java:147, 153) passes a board.
- Sessions.TimedSession.CurrentAvg: requires a length of at least 1, or AVG_ALL_SOLVES with at least one solve. The source divides by zero on an empty session for AVG_ALL_SOLVES and for a length of 0, and no caller passes another negative length.
- Sessions.TimedSession.CurrentAvg: the sum is an unbounded integer, so `long` overflow on sums above 2^63 is not modelled.
- A solve is modelled by its duration. `Solve.java` is not part of this model.
- `updateAverages` is modelled only for its best-average update; the label text and personal-best highlighting are left out.
- `saveSolve` is modelled only for appending the solve; writing the solve to the session file is left out.
- Timer.ClockOfDuration: the millisToString lemmas assume |millis| < 3600000 * 2^31. Beyond that bound the `(int)` cast wraps the hours. `Timer.ClockOf` computes the wrap, but no lemma describes it.
- A negative duration prints negative fields, as in " 0:00:-1.-5 " (`Timer.ClockOfNegative`). Callers never pass one; the model keeps the source's output.
- BoardArrays.ApplyMove: requires a board with a blank. On a board without one the source's `getBlankCell` returns {-1} and the move's array access fails; the model does not describe that failure.
- BoardArrays.ApplySequence: requires a board with a blank, for the same reason; the source fails on the first move of a board without one.
- Puzzles.Puzzle.ApplyStateInstant: requires a pattern with a blank. For one without, `getBlankCell` returns the one-element {-1}, so the source stores -1 as the blank row and then fails reading the blank column; the model does not describe that failure.
