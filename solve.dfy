/**
 * PuzzleSolver.solve: the best-first search over States, ordered by the
 * priority queue, and the walk back along prevState that lists the moves.
 */
module Solving {
  import opened Wrappers
  import opened Moves
  import opened Grids
  import opened Boards
  import opened Solvability
  import opened Solver
  import opened Search
  import opened PriorityQueues

  /**
   * What solve returns: null for a board of odd parity, or the list of moves.
   * The search loop of the source has no bound; here it stops after fuel
   * dequeues and reports OutOfSteps.
   */
  datatype Outcome = Unsolvable | Solution(moves: seq<Move>) | OutOfSteps

  /** Every state descends from the board the search started with. */
  ghost predicate Rooted(items: seq<State>, values: Grid)
  {
    forall s :: s in items ==> s.origin == values
  }

  /** The moves take values to the solved state of its size. */
  ghost predicate Leads(values: Grid, moves: seq<Move>)
  {
    Rect(values) && HasBlank(values) && ApplySequence(values, moves) == SolvedState(|values|, |values[0]|)
  }

  /**
   * solve: null when isSolvable fails; otherwise the moves that lead from
   * values to the solved state, none undoing the one before it. A board that
   * is already solved gives the empty list.
   */
  method Solve(values: Grid, fuel: nat) returns (r: Outcome)
    requires IsBoard(values)
    ensures r.Unsolvable? <==> !EvenPermutation(values)
    ensures r.Solution? ==> NoUndo(r.moves) && Leads(values, r.moves) && EffectiveFrom(values, r.moves)
    ensures EvenPermutation(values) && values == SolvedState(|values|, |values[0]|) && fuel >= 1 ==>
      r == Solution([])
  {
    var solvable := IsSolvable(values);
    if !solvable {
      return Unsolvable;
    }
    var found := BestFirst(values, fuel);
    if found.None? {
      return OutOfSteps;
    }
    var moves := Trace(found.value);
    return Solution(moves);
  }

  /**
   * The dequeue loop of solve: starting from a queue holding the initial
   * state, dequeue until a solved board comes out (at most fuel times).
   */
  method BestFirst(values: Grid, fuel: nat) returns (found: Option<State>)
    requires IsBoard(values)
    ensures found.Some? ==>
      found.value.Ready() && found.value.origin == values &&
      found.value.board == SolvedState(|found.value.board|, |found.value.board[0]|)
    ensures values == SolvedState(|values|, |values[0]|) && fuel >= 1 ==>
      found.Some? && found.value.trail == []
  {
    var queue := new PriorityQueue();
    BoardTiles(values);
    var start := new State(values, 0, None, null);
    ghost var first := queue.Enqueue(start);
    assert queue.items == [start];
    found := None;
    var steps := 0;
    while steps < fuel
      invariant queue.Valid() && queue.items != [] && Rooted(queue.items, values)
      invariant fresh(queue) && forall n :: n in queue.NodeSet ==> fresh(n)
      invariant steps == 0 ==> queue.items == [start]
      invariant found.None? && (steps > 0 ==> values != SolvedState(|values|, |values[0]|))
    {
      var out := Step(queue, values);
      var solved := CheckSolved(out.board);
      if solved {
        found := Some(out);
        break;
      }
      steps := steps + 1;
    }
  }

  /** One round of the loop: dequeue the front state, whose neighbours join the queue. */
  method Step(queue: PriorityQueue, ghost values: Grid) returns (out: State)
    requires queue.Valid() && queue.items != [] && Rooted(queue.items, values)
    modifies queue, queue.NodeSet
    ensures queue.Valid() && queue.items != [] && Rooted(queue.items, values)
    ensures out == old(queue.items)[0] && out.Ready() && out.origin == values
    ensures forall n :: n in queue.NodeSet ==> n in old(queue.NodeSet) || fresh(n)
  {
    ghost var xs := queue.items;
    var o, nextStates := queue.Dequeue();
    out := o.value;
    assert xs[0] in xs;
    InsertAllMembers(xs[1..], nextStates);
    forall s | s in queue.items
      ensures s.origin == values
    {
      if s in nextStates {
        var k :| 0 <= k < |nextStates| && nextStates[k] == s;
        assert out.Child(s, NeighbourMoves(out.numRows, out.numCols, BlankCell(out.board).value, out.prevMove)[k]);
      } else {
        assert s in xs;
      }
    }
  }

  /**
   * The trace loop of solve: from the solved state back to the initial one,
   * each prevMove is put at the head of the list, which ends as the moves
   * that lead from the initial board to this state's board.
   */
  method Trace(out: State) returns (solution: seq<Move>)
    requires out.Ready()
    ensures solution == out.trail
  {
    solution := [];
    var cur: State := out;
    while cur.prevMove.Some?
      invariant cur.Ready() && cur.trail + solution == out.trail
      decreases |cur.trail|
    {
      cur.Parent();
      var parent: State := cur.prevState;
      ghost var rest := solution;
      solution := [cur.prevMove.value] + solution;
      PrependStep(parent.trail, cur.prevMove.value, cur.trail, rest);
      cur := parent;
    }
    cur.Parent();
  }

  /** Putting the last move of a trail in front of the moves after it. */
  lemma PrependStep<T>(init: seq<T>, last: T, whole: seq<T>, rest: seq<T>)
    requires whole == init + [last]
    ensures init + ([last] + rest) == whole + rest
  {
  }
}
