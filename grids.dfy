/**
 * Generic facts about rectangular integer grids (the source's `int[][]`) and
 * their row-major reading: flattening, flat indices, multisets.
 */
module Grids {

  type Grid = seq<seq<int>>

  /** Every row has `cols` cells. */
  ghost predicate Uniform(g: Grid, cols: int)
  {
    forall r :: 0 <= r < |g| ==> |g[r]| == cols
  }

  /** The grid read row by row. */
  function Flatten(g: Grid): seq<int>
  {
    if |g| == 0 then [] else g[0] + Flatten(g[1..])
  }

  /** The integers lo, lo+1, ..., hi-1. */
  function Range(lo: int, hi: int): (s: seq<int>)
    ensures |s| == if lo < hi then hi - lo else 0
    ensures forall i :: 0 <= i < |s| ==> s[i] == lo + i
    decreases hi - lo
  {
    if lo >= hi then [] else [lo] + Range(lo + 1, hi)
  }

  /** `g` with cell (r, c) replaced by v. */
  function Put(g: Grid, r: int, c: int, v: int): (h: Grid)
    requires 0 <= r < |g| && 0 <= c < |g[r]|
    ensures |h| == |g| && forall i :: 0 <= i < |g| ==> |h[i]| == |g[i]|
    ensures h[r][c] == v
    ensures forall i, j :: 0 <= i < |g| && 0 <= j < |g[i]| && (i, j) != (r, c) ==> h[i][j] == g[i][j]
  {
    g[r := g[r][c := v]]
  }

  ghost predicate Distinct(s: seq<int>)
  {
    forall i, j :: 0 <= i < j < |s| ==> s[i] != s[j]
  }

  // ---------------------------------------------------------------------------
  // Flat indices

  lemma FlatIndexBound(r: int, c: int, rows: int, cols: int)
    requires 0 <= r < rows && 0 <= c < cols
    ensures 0 <= r * cols + c < rows * cols
  {
    assert r * cols <= (rows - 1) * cols by {
      MulLeq(r, rows - 1, cols);
    }
  }

  lemma MulLeq(a: int, b: int, k: int)
    requires a <= b && k >= 0
    ensures a * k <= b * k
  {
  }

  /** Distinct cells have distinct flat indices. */
  lemma FlatIndexInjective(r1: int, c1: int, r2: int, c2: int, cols: int)
    requires 0 <= c1 < cols && 0 <= c2 < cols && 0 <= r1 && 0 <= r2
    requires r1 * cols + c1 == r2 * cols + c2
    ensures r1 == r2 && c1 == c2
  {
    if r1 < r2 {
      MulLeq(r1 + 1, r2, cols);
      assert false;
    } else if r2 < r1 {
      MulLeq(r2 + 1, r1, cols);
      assert false;
    }
  }

  /** Every flat index is the index of a cell. */
  lemma FlatIndexCell(i: int, rows: int, cols: int)
    requires cols > 0 && 0 <= i < rows * cols
    ensures 0 <= i / cols < rows && 0 <= i % cols < cols
    ensures (i / cols) * cols + i % cols == i
  {
    if i / cols >= rows {
      MulLeq(rows, i / cols, cols);
      assert false;
    }
  }

  // ---------------------------------------------------------------------------
  // Flattening

  lemma FlattenLength(g: Grid, cols: int)
    requires Uniform(g, cols)
    ensures |Flatten(g)| == |g| * cols
  {
    if |g| > 0 {
      FlattenLength(g[1..], cols);
      assert |g| * cols == cols + (|g| - 1) * cols;
    }
  }

  /** Adding a row at the bottom appends its cells to the row-major reading. */
  lemma {:induction false} FlattenSnoc(g: Grid, row: seq<int>)
    ensures Flatten(g + [row]) == Flatten(g) + row
    decreases |g|
  {
    if |g| == 0 {
      assert g + [row] == [row] && [row][1..] == [];
    } else {
      assert (g + [row])[0] == g[0] && (g + [row])[1..] == g[1..] + [row];
      FlattenSnoc(g[1..], row);
    }
  }

  lemma MulPred(r: int, cols: int)
    ensures r * cols == (r - 1) * cols + cols
  {
  }

  lemma FlattenAt(g: Grid, cols: int, r: int, c: int)
    requires Uniform(g, cols)
    requires 0 <= r < |g| && 0 <= c < cols
    ensures r * cols + c < |Flatten(g)|
    ensures Flatten(g)[r * cols + c] == g[r][c]
  {
    if r == 0 {
      assert Flatten(g) == g[0] + Flatten(g[1..]);
    } else {
      FlattenAt(g[1..], cols, r - 1, c);
      MulLeq(0, r - 1, cols);
      var k := (r - 1) * cols + c;
      assert r * cols + c == cols + k by {
        MulPred(r, cols);
      }
      var f := Flatten(g[1..]);
      assert Flatten(g) == g[0] + f;
      assert Flatten(g)[cols + k] == f[k];
    }
  }

  lemma UpdateConcat(a: seq<int>, b: seq<int>, k: int, v: int)
    requires 0 <= k < |b|
    ensures (a + b)[|a| + k := v] == a + b[k := v]
  {
  }

  lemma PutTail(g: Grid, r: int, c: int, v: int)
    requires 0 < r < |g| && 0 <= c < |g[r]|
    ensures Put(g, r, c, v)[0] == g[0]
    ensures Put(g, r, c, v)[1..] == Put(g[1..], r - 1, c, v)
  {
  }

  lemma UpdateConcatLeft(a: seq<int>, b: seq<int>, k: int, v: int)
    requires 0 <= k < |a|
    ensures (a + b)[k := v] == a[k := v] + b
  {
  }

  lemma FlattenPut(g: Grid, cols: int, r: int, c: int, v: int)
    requires Uniform(g, cols)
    requires 0 <= r < |g| && 0 <= c < cols
    ensures Uniform(Put(g, r, c, v), cols)
    ensures r * cols + c < |Flatten(g)|
    ensures Flatten(Put(g, r, c, v)) == Flatten(g)[r * cols + c := v]
  {
    FlattenAt(g, cols, r, c);
    var h := Put(g, r, c, v);
    var f, f' := Flatten(g[1..]), Flatten(h[1..]);
    assert Flatten(g) == g[0] + f;
    assert Flatten(h) == h[0] + f';
    if r == 0 {
      assert h[1..] == g[1..];
      UpdateConcatLeft(g[0], f, c, v);
    } else {
      PutTail(g, r, c, v);
      FlattenPut(g[1..], cols, r - 1, c, v);
      var k := (r - 1) * cols + c;
      assert r * cols + c == cols + k by {
        MulPred(r, cols);
      }
      MulLeq(0, r - 1, cols);
      UpdateConcat(g[0], f, k, v);
    }
  }

  /** Every value of the flattened grid sits in some cell. */
  lemma FlattenMember(g: Grid, v: int) returns (r: int, c: int)
    requires v in Flatten(g)
    ensures 0 <= r < |g| && 0 <= c < |g[r]| && g[r][c] == v
  {
    if v in g[0] {
      r := 0;
      c :| 0 <= c < |g[0]| && g[0][c] == v;
    } else {
      r, c := FlattenMember(g[1..], v);
      r := r + 1;
    }
  }

  /** Swapping two cells swaps the corresponding flat positions. */
  lemma FlattenSwap(g: Grid, cols: int, r1: int, c1: int, r2: int, c2: int)
    requires Uniform(g, cols)
    requires 0 <= r1 < |g| && 0 <= c1 < cols && 0 <= r2 < |g| && 0 <= c2 < cols
    ensures Uniform(Put(Put(g, r1, c1, g[r2][c2]), r2, c2, g[r1][c1]), cols)
    ensures var f := Flatten(g);
            var i, j := r1 * cols + c1, r2 * cols + c2;
            0 <= i < |f| && 0 <= j < |f| &&
            Flatten(Put(Put(g, r1, c1, g[r2][c2]), r2, c2, g[r1][c1])) == f[i := f[j]][j := f[i]]
  {
    var h := Put(g, r1, c1, g[r2][c2]);
    FlattenPut(g, cols, r1, c1, g[r2][c2]);
    FlattenPut(h, cols, r2, c2, g[r1][c1]);
    FlattenAt(g, cols, r1, c1);
    FlattenAt(g, cols, r2, c2);
    FlatIndexBound(r1, c1, |g|, cols);
    FlatIndexBound(r2, c2, |g|, cols);
  }

  // ---------------------------------------------------------------------------
  // Multisets and distinctness

  lemma RangeDistinct(lo: int, hi: int)
    ensures Distinct(Range(lo, hi))
  {
  }

  lemma RangeMember(lo: int, hi: int, x: int)
    ensures x in Range(lo, hi) <==> lo <= x < hi
  {
    if lo <= x < hi {
      assert Range(lo, hi)[x - lo] == x;
    }
  }

  lemma DistinctCount(s: seq<int>, x: int)
    requires Distinct(s)
    ensures multiset(s)[x] <= 1
  {
    if |s| > 0 {
      assert s == [s[0]] + s[1..];
      assert Distinct(s[1..]);
      DistinctCount(s[1..], x);
      if s[0] == x {
        assert x !in s[1..];
      }
    }
  }

  /** A sequence with the same elements as a sequence without repetitions has none either. */
  lemma DistinctByMultiset(s: seq<int>, t: seq<int>)
    requires multiset(s) == multiset(t) && Distinct(t)
    ensures Distinct(s)
  {
    forall i, j | 0 <= i < j < |s|
      ensures s[i] != s[j]
    {
      if s[i] == s[j] {
        assert s == s[..i] + [s[i]] + s[i + 1..j] + [s[j]] + s[j + 1..];
        assert multiset(s)[s[i]] >= 2;
        DistinctCount(t, s[i]);
      }
    }
  }

  /** Two grids of the same shape with equal cells are equal. */
  lemma GridExt(a: Grid, b: Grid, cols: int)
    requires |a| == |b| && Uniform(a, cols) && Uniform(b, cols)
    requires forall r, c :: 0 <= r < |a| && 0 <= c < cols ==> a[r][c] == b[r][c]
    ensures a == b
  {
    forall r | 0 <= r < |a|
      ensures a[r] == b[r]
    {
    }
  }
}
