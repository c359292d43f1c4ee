/**
 * The permutation-parity test of PuzzleSolver.isSolvable, in closed form.
 *
 * The source sorts a copy of the board by swapping each value into its home
 * cell and reports whether the number of swaps is even. The blank is treated
 * as if its home were the bottom-right cell, i.e. as the largest value. The
 * closed form here: the row-major reading of the board, with the blank ranked
 * above every tile, has an even number of inversions.
 */
module Solvability {
  import opened Wrappers
  import opened Moves
  import opened Grids
  import opened Boards

  /** How many elements of s are below x. */
  function CountLess(s: seq<int>, x: int): (k: nat)
    ensures k <= |s|
  {
    if s == [] then 0 else (if s[0] < x then 1 else 0) + CountLess(s[1..], x)
  }

  /** The number of pairs i < j with s[i] > s[j]. */
  function Inversions(s: seq<int>): nat
  {
    if s == [] then 0 else CountLess(s[1..], s[0]) + Inversions(s[1..])
  }

  /** A value's rank in the sorting order of isSolvable: the blank ranks above all n-1 tiles. */
  function Rank(v: int, n: int): int
  {
    if v == BLANK then n else v
  }

  function Ranked(s: seq<int>, n: int): (t: seq<int>)
    ensures |t| == |s| && forall i :: 0 <= i < |s| ==> t[i] == Rank(s[i], n)
  {
    seq(|s|, i requires 0 <= i < |s| => Rank(s[i], n))
  }

  /** The parity of the board's permutation, the blank counted as the largest value. */
  ghost function Parity(g: Grid): int
    requires Rect(g)
  {
    Inversions(Ranked(Flatten(g), |g| * |g[0]|)) % 2
  }

  ghost predicate EvenPermutation(g: Grid)
    requires Rect(g)
  {
    Parity(g) == 0
  }

  function Swap(s: seq<int>, i: int, j: int): seq<int>
    requires 0 <= i < |s| && 0 <= j < |s|
  {
    s[i := s[j]][j := s[i]]
  }

  // ---------------------------------------------------------------------------
  // Transpositions flip the parity

  /** Swapping two neighbours does not change how many elements are below x. */
  lemma {:induction false} CountLessAdjacentSwap(s: seq<int>, i: int, x: int)
    requires 0 <= i < |s| - 1
    ensures CountLess(Swap(s, i, i + 1), x) == CountLess(s, x)
    decreases i
  {
    var t := Swap(s, i, i + 1);
    if i == 0 {
      assert t[1..][1..] == s[1..][1..];
    } else {
      assert t[1..] == Swap(s[1..], i - 1, i);
      CountLessAdjacentSwap(s[1..], i - 1, x);
    }
  }

  /** Swapping two different neighbours adds or removes exactly one inversion. */
  lemma {:induction false} InversionsAdjacentSwap(s: seq<int>, i: int)
    requires 0 <= i < |s| - 1 && s[i] != s[i + 1]
    ensures Inversions(Swap(s, i, i + 1)) == Inversions(s) + (if s[i] < s[i + 1] then 1 else -1)
    decreases i
  {
    var t := Swap(s, i, i + 1);
    if i == 0 {
      var u := s[2..];
      assert s[1..] == [s[1]] + u && t[1..] == [s[0]] + u;
      assert s[1..][1..] == u && t[1..][1..] == u;
    } else {
      assert t[0] == s[0];
      assert t[1..] == Swap(s[1..], i - 1, i);
      CountLessAdjacentSwap(s[1..], i - 1, s[0]);
      InversionsAdjacentSwap(s[1..], i - 1);
    }
  }

  lemma SwapDistinct(s: seq<int>, i: int, j: int)
    requires Distinct(s) && 0 <= i < |s| && 0 <= j < |s|
    ensures Distinct(Swap(s, i, j))
  {
    var t := Swap(s, i, j);
    forall p, q | 0 <= p < q < |t|
      ensures t[p] != t[q]
    {
    }
  }

  /** A far swap is three swaps that are adjacent or closer together. */
  lemma SwapDecompose(s: seq<int>, i: int, j: int)
    requires 0 <= i && i + 1 < j < |s|
    ensures Swap(Swap(Swap(s, i, i + 1), i + 1, j), i, i + 1) == Swap(s, i, j)
  {
  }

  lemma AdjacentSwapFlips(s: seq<int>, i: int)
    requires Distinct(s) && 0 <= i < |s| - 1
    ensures Distinct(Swap(s, i, i + 1))
    ensures Inversions(Swap(s, i, i + 1)) % 2 != Inversions(s) % 2
  {
    SwapDistinct(s, i, i + 1);
    InversionsAdjacentSwap(s, i);
  }

  /** Any transposition of distinct values flips the parity of the inversion count. */
  lemma {:induction false} SwapFlipsParity(s: seq<int>, i: int, j: int)
    requires Distinct(s) && 0 <= i < j < |s|
    ensures Inversions(Swap(s, i, j)) % 2 != Inversions(s) % 2
    decreases j - i
  {
    if j == i + 1 {
      AdjacentSwapFlips(s, i);
    } else {
      var s1 := Swap(s, i, i + 1);
      AdjacentSwapFlips(s, i);
      var s2 := Swap(s1, i + 1, j);
      SwapFlipsParity(s1, i + 1, j);
      SwapDistinct(s1, i + 1, j);
      AdjacentSwapFlips(s2, i);
      SwapDecompose(s, i, j);
    }
  }

  lemma RankedSwap(s: seq<int>, n: int, i: int, j: int)
    requires 0 <= i < |s| && 0 <= j < |s|
    ensures Ranked(Swap(s, i, j), n) == Swap(Ranked(s, n), i, j)
  {
  }

  /** Ranking keeps the values of a valid board distinct. */
  lemma RankedDistinct(g: Grid)
    requires IsBoard(g)
    ensures Distinct(Ranked(Flatten(g), |g| * |g[0]|))
  {
    var n, f := |g| * |g[0]|, Flatten(g);
    RangeDistinct(0, n);
    DistinctByMultiset(f, Range(0, n));
    forall i | 0 <= i < |f|
      ensures 0 <= f[i] < n
    {
      assert f[i] in multiset(f);
      RangeMember(0, n, f[i]);
    }
  }

  /** Swapping two positions of a sequence whose ranks are distinct flips the parity. */
  lemma RankedSwapFlips(f: seq<int>, n: int, i: int, j: int)
    requires Distinct(Ranked(f, n)) && 0 <= i < |f| && 0 <= j < |f| && i != j
    ensures Inversions(Ranked(Swap(f, i, j), n)) % 2 != Inversions(Ranked(f, n)) % 2
  {
    RankedSwap(f, n, i, j);
    if i < j {
      SwapFlipsParity(Ranked(f, n), i, j);
    } else {
      assert Swap(Ranked(f, n), i, j) == Swap(Ranked(f, n), j, i);
      SwapFlipsParity(Ranked(f, n), j, i);
    }
  }

  /** Swapping any two cells of a valid board flips the parity. */
  lemma CellSwapFlipsParity(g: Grid, r1: int, c1: int, r2: int, c2: int)
    requires IsBoard(g)
    requires 0 <= r1 < |g| && 0 <= c1 < |g[0]| && 0 <= r2 < |g| && 0 <= c2 < |g[0]| && (r1, c1) != (r2, c2)
    ensures EvenPermutation(Put(Put(g, r1, c1, g[r2][c2]), r2, c2, g[r1][c1])) <==> !EvenPermutation(g)
  {
    var cols, n := |g[0]|, |g| * |g[0]|;
    var f, h := Flatten(g), Put(Put(g, r1, c1, g[r2][c2]), r2, c2, g[r1][c1]);
    var i, j := r1 * cols + c1, r2 * cols + c2;
    assert Distinct(Ranked(f, n)) by {
      RankedDistinct(g);
    }
    assert 0 <= i < |f| && 0 <= j < |f| && i != j && Flatten(h) == Swap(f, i, j) by {
      FlattenSwap(g, cols, r1, c1, r2, c2);
      if i == j {
        FlatIndexInjective(r1, c1, r2, c2, cols);
      }
    }
    RankedSwapFlips(f, n, i, j);
    assert |h| * |h[0]| == n;
  }

  // ---------------------------------------------------------------------------
  // The goal board

  lemma {:induction false} IncreasingNoInversions(s: seq<int>)
    requires forall i, j :: 0 <= i < j < |s| ==> s[i] < s[j]
    ensures Inversions(s) == 0
  {
    if s != [] {
      CountLessNone(s[1..], s[0]);
      IncreasingNoInversions(s[1..]);
    }
  }

  lemma {:induction false} CountLessNone(s: seq<int>, x: int)
    requires forall i :: 0 <= i < |s| ==> x < s[i]
    ensures CountLess(s, x) == 0
  {
    if s != [] {
      CountLessNone(s[1..], x);
    }
  }

  /** The goal board has an even permutation: isSolvable(solvedState) holds. */
  lemma SolvedEven(rows: int, cols: int)
    requires rows >= MIN_ROWS && cols >= MIN_COLS
    ensures EvenPermutation(SolvedState(rows, cols))
  {
    var n := rows * cols;
    FlattenSolved(rows, cols);
    var t := Ranked(Flatten(SolvedState(rows, cols)), n);
    assert forall i :: 0 <= i < |t| ==> t[i] == i + 1;
    IncreasingNoInversions(t);
  }

  // ---------------------------------------------------------------------------
  // Examples: the test only agrees with solvability when the blank is bottom-right

  /** The 3 x 3 board 1 2 3 / 4 5 6 / 7 0 8. */
  function OffCorner(): Grid
  {
    [[1, 2, 3], [4, 5, 6], [7, 0, 8]]
  }

  /** OffCorner is the goal board with the blank swapped with the tile on its left. */
  lemma OffCornerFromGoal()
    ensures var s := SolvedState(3, 3);
      OffCorner() == Put(Put(s, 2, 2, s[2][1]), 2, 1, s[2][2])
  {
    var s := SolvedState(3, 3);
    GridExt(OffCorner(), Put(Put(s, 2, 2, s[2][1]), 2, 1, s[2][2]), 3);
  }

  lemma OffCornerIsBoard()
    ensures IsBoard(OffCorner())
  {
    OffCornerFromGoal();
    SolvedStateIsBoard(3, 3);
    SwapPreservesBoard(SolvedState(3, 3), 2, 2, 2, 1);
  }

  lemma OffCornerOdd()
    ensures !EvenPermutation(OffCorner())
  {
    OffCornerFromGoal();
    SolvedStateIsBoard(3, 3);
    SolvedEven(3, 3);
    CellSwapFlipsParity(SolvedState(3, 3), 2, 2, 2, 1);
  }

  lemma OffCornerOneMove()
    ensures BlankCell(OffCorner()) == Some((2, 1))
    ensures ApplyMove(OffCorner(), Left) == SolvedState(3, 3)
  {
    var g := OffCorner();
    assert g[2][1] == BLANK && g[2][2] != BLANK;
    GridExt(ApplyMove(g, Left), SolvedState(3, 3), 3);
  }

  /** 1 2 3 / 4 5 6 / 7 0 8 is one move from the goal, yet the test reports it unsolvable. */
  lemma BlankOffCornerExample()
    ensures IsBoard(OffCorner()) && !EvenPermutation(OffCorner())
    ensures ApplyMove(OffCorner(), Left) == SolvedState(3, 3)
  {
    OffCornerIsBoard();
    OffCornerOdd();
    OffCornerOneMove();
  }

  /** The 3 x 3 board 2 1 3 / 4 5 6 / 7 8 0: the goal with its first two tiles swapped. */
  function FirstTwoSwapped(): Grid
  {
    [[2, 1, 3], [4, 5, 6], [7, 8, 0]]
  }

  /** Swapping two tiles of the goal board makes the test fail, as it should. */
  lemma FirstTwoSwappedExample()
    ensures IsBoard(FirstTwoSwapped()) && !EvenPermutation(FirstTwoSwapped())
  {
    var s := SolvedState(3, 3);
    GridExt(FirstTwoSwapped(), Put(Put(s, 0, 0, s[0][1]), 0, 1, s[0][0]), 3);
    SolvedStateIsBoard(3, 3);
    SolvedEven(3, 3);
    SwapPreservesBoard(s, 0, 0, 0, 1);
    CellSwapFlipsParity(s, 0, 0, 0, 1);
  }

  // ---------------------------------------------------------------------------
  // Boards reached from the goal with the blank back home pass the test

  /** The blank's row and column distance from the bottom-right cell. */
  ghost function BlankDistance(g: Grid): int
    requires Rect(g) && HasBlank(g)
  {
    var (r, c) := BlankCell(g).value;
    (|g| - 1 - r) + (|g[0]| - 1 - c)
  }

  /** The parity plus the blank's distance from home, which moves preserve. */
  ghost function AdjustedParity(g: Grid): int
    requires Rect(g) && HasBlank(g)
  {
    (Parity(g) + BlankDistance(g)) % 2
  }

  /** A move that is not a no-op swaps the blank with a tile, so it flips the parity. */
  lemma MoveFlipsParity(g: Grid, m: Move)
    requires IsBoard(g) && HasBlank(g)
    requires CanMove(|g|, |g[0]|, BlankCell(g).value.0, BlankCell(g).value.1, m)
    ensures Parity(ApplyMove(g, m)) != Parity(g)
  {
    var (r, c) := BlankCell(g).value;
    var (tr, tc) := Neighbour(r, c, m);
    NeighbourInverse(|g|, |g[0]|, r, c, m);
    assert ApplyMove(g, m) == Put(Put(g, r, c, g[tr][tc]), tr, tc, g[r][c]);
    CellSwapFlipsParity(g, r, c, tr, tc);
  }

  /** A move that is not a no-op takes the blank one step nearer to or farther from home. */
  lemma MoveBlankDistance(g: Grid, m: Move)
    requires Rect(g) && OneBlank(g)
    requires CanMove(|g|, |g[0]|, BlankCell(g).value.0, BlankCell(g).value.1, m)
    ensures HasBlank(ApplyMove(g, m))
    ensures BlankDistance(ApplyMove(g, m)) == BlankDistance(g) + 1 ||
            BlankDistance(ApplyMove(g, m)) == BlankDistance(g) - 1
  {
    SlideOneBlank(g, m);
  }

  lemma FlipAndStep(p: int, q: int, d: int, e: int)
    requires 0 <= p < 2 && 0 <= q < 2 && p != q && (e == d + 1 || e == d - 1)
    ensures (p + d) % 2 == (q + e) % 2
  {
  }

  /** A move flips the parity exactly when it moves the blank, so the adjusted parity stays. */
  lemma MoveKeepsAdjustedParity(g: Grid, m: Move)
    requires IsBoard(g)
    ensures HasBlank(g) && HasBlank(ApplyMove(g, m))
    ensures AdjustedParity(ApplyMove(g, m)) == AdjustedParity(g)
  {
    assert OneBlank(g) by {
      BoardOneBlank(g);
    }
    var (r, c) := BlankCell(g).value;
    if CanMove(|g|, |g[0]|, r, c, m) {
      var h := ApplyMove(g, m);
      MoveFlipsParity(g, m);
      MoveBlankDistance(g, m);
      FlipAndStep(Parity(g), Parity(h), BlankDistance(g), BlankDistance(h));
    } else {
      assert ApplyMove(g, m) == g;
    }
  }

  lemma {:induction false} SequenceKeepsAdjustedParity(g: Grid, ms: seq<Move>)
    requires IsBoard(g)
    ensures HasBlank(g) && HasBlank(ApplySequence(g, ms))
    ensures AdjustedParity(ApplySequence(g, ms)) == AdjustedParity(g)
    decreases |ms|
  {
    assert OneBlank(g) && OneBlank(ApplySequence(g, ms)) by {
      ApplySequenceBoard(g, ms);
    }
    if ms != [] {
      var m, rest := ms[0], ms[1..];
      assert ms == [m] + rest;
      var h := ApplyMove(g, m);
      assert IsBoard(h) by {
        var (r, c) := BlankCell(g).value;
        SlidePreservesBoard(g, r, c, m);
      }
      assert ApplySequence(g, ms) == ApplySequence(h, rest) by {
        ApplySequenceAppend(g, [m], rest);
        ApplySequenceSingle(g, m);
      }
      MoveKeepsAdjustedParity(g, m);
      SequenceKeepsAdjustedParity(h, rest);
    }
  }

  /**
   * Every board reached from the goal by moves, with the blank back in the
   * bottom-right cell, passes the test: isSolvable accepts every such board.
   */
  lemma ReachableWithBlankHomeIsEven(rows: int, cols: int, ms: seq<Move>)
    requires rows >= MIN_ROWS && cols >= MIN_COLS
    ensures HasBlank(SolvedState(rows, cols))
    ensures var g := ApplySequence(SolvedState(rows, cols), ms);
      BlankCell(g) == Some((rows - 1, cols - 1)) ==> EvenPermutation(g)
  {
    var s := SolvedState(rows, cols);
    SolvedStateIsBoard(rows, cols);
    SolvedEven(rows, cols);
    SequenceKeepsAdjustedParity(s, ms);
  }
}
