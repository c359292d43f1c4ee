/**
 * The text forms of move sequences and board states
 * (src/fifteenpuzzle/PuzzleScrambler.java, stringToSequence,
 * sequenceToString, stringToState and stateToString).
 */
module Codec {
  import opened Wrappers
  import opened Moves
  import opened Grids
  import opened Boards
  import opened Text

  // ---------------------------------------------------------------------------
  // Move sequences

  /** `String.toUpperCase`, character by character. */
  function Upper(s: string): (t: string)
    ensures |t| == |s| && forall i :: 0 <= i < |s| ==> t[i] == ToUpper(s[i])
  {
    seq(|s|, i requires 0 <= i < |s| => ToUpper(s[i]))
  }

  /** The characters stringToSequence reads: the input without its spaces and line breaks. */
  function Letters(str: string): (letters: string)
    ensures ' ' !in letters && '\n' !in letters
  {
    Delete(Delete(str, ' '), '\n')
  }

  /** The same characters upper-cased, as the loop of stringToSequence sees them. */
  function Cleaned(str: string): string
  {
    Upper(Letters(str))
  }

  /** The loop of stringToSequence: None at the first character that is not a move letter. */
  function ParseMoves(t: string): Option<seq<Move>>
  {
    if t == [] then Some([])
    else
      match ParseMove(t[0])
      case None => None
      case Some(m) =>
        match ParseMoves(t[1..])
        case None => None
        case Some(ms) => Some([m] + ms)
  }

  /** The loop fails exactly at a character that is not a move letter, and otherwise reads each one. */
  lemma {:induction false} ParseMovesSpec(t: string)
    ensures ParseMoves(t).None? <==> exists i :: 0 <= i < |t| && !IsMoveLetter(t[i])
    ensures ParseMoves(t).Some? ==>
      |ParseMoves(t).value| == |t| && forall i :: 0 <= i < |t| ==> ParseMove(t[i]) == Some(ParseMoves(t).value[i])
  {
    if t != [] {
      ParseMoveCases(t[0]);
      ParseMovesSpec(t[1..]);
      if ParseMove(t[0]).Some? && ParseMoves(t[1..]).None? {
        var i :| 0 <= i < |t[1..]| && !IsMoveLetter(t[1..][i]);
        assert !IsMoveLetter(t[i + 1]);
      }
      if ParseMoves(t).Some? {
        assert forall i :: 1 <= i < |t| ==> t[i] == t[1..][i - 1];
      }
    }
  }

  /** stringToSequence: None (the source's null) when some character is not a move letter. */
  function StringToSequence(str: string): Option<seq<Move>>
  {
    ParseMoves(Cleaned(str))
  }

  /**
   * stringToSequence ignores spaces and newlines and fails exactly when some
   * other character is not a move letter in either case.
   */
  lemma StringToSequenceFails(str: string)
    ensures StringToSequence(str).None? <==>
      exists i :: 0 <= i < |Letters(str)| && !IsMoveLetter(Letters(str)[i])
  {
    var letters := Letters(str);
    var t := Cleaned(str);
    ParseMovesSpec(t);
    UpperReadsAlike(letters);
    if ParseMoves(t).None? {
      var i :| 0 <= i < |t| && !IsMoveLetter(t[i]);
      assert !IsMoveLetter(letters[i]);
    } else {
      assert forall i :: 0 <= i < |letters| ==> IsMoveLetter(t[i]);
    }
  }

  /** When it succeeds, stringToSequence reads one move per remaining character, in order. */
  lemma StringToSequenceReads(str: string)
    requires StringToSequence(str).Some?
    ensures |StringToSequence(str).value| == |Letters(str)|
    ensures forall i :: 0 <= i < |Letters(str)| ==>
      ParseMove(Letters(str)[i]) == Some(StringToSequence(str).value[i])
  {
    var t := Cleaned(str);
    ParseMovesSpec(t);
    UpperReadsAlike(Letters(str));
  }

  /** The empty string reads as no moves. */
  lemma StringToSequenceEmpty()
    ensures StringToSequence("") == Some([])
  {
    assert Cleaned("") == [];
  }

  /** Upper-casing changes neither which characters are move letters nor the moves they read as. */
  lemma UpperReadsAlike(letters: string)
    ensures |Upper(letters)| == |letters|
    ensures forall i :: 0 <= i < |letters| ==>
      (IsMoveLetter(Upper(letters)[i]) <==> IsMoveLetter(letters[i])) &&
      ParseMove(Upper(letters)[i]) == ParseMove(letters[i])
  {
    var t := Upper(letters);
    forall i | 0 <= i < |letters|
      ensures IsMoveLetter(t[i]) <==> IsMoveLetter(letters[i])
      ensures ParseMove(t[i]) == ParseMove(letters[i])
    {
      ParseMoveCaseInsensitive(letters[i]);
      ParseMoveCases(t[i]);
      ParseMoveCases(letters[i]);
    }
  }

  /** The text sequenceToString builds from index i on, before its first character is dropped. */
  function SequenceText(ms: seq<Move>, perRow: int, i: int): (t: string)
    requires perRow != 0 && 0 <= i <= |ms|
    ensures i < |ms| && i % perRow == 0 ==> |t| >= 1 && t[0] == '\n'
    decreases |ms| - i
  {
    if i == |ms| then ""
    else (if i % perRow == 0 then "\n" else "") + Str(ms[i]) + " " + SequenceText(ms, perRow, i + 1)
  }

  /**
   * sequenceToString: each move's letter and a space, with a line break
   * before every move whose index is a multiple of perRow except the first.
   */
  function SequenceToString(ms: seq<Move>, perRow: int): string
    requires perRow != 0
  {
    if |ms| == 0 then "" else SequenceText(ms, perRow, 0)[1..]
  }

  lemma {:induction false} DeleteConcat(a: string, b: string, ch: char)
    ensures Delete(a + b, ch) == Delete(a, ch) + Delete(b, ch)
  {
    if a != [] {
      assert (a + b)[0] == a[0];
      assert (a + b)[1..] == a[1..] + b;
      DeleteConcat(a[1..], b, ch);
    } else {
      assert a + b == b;
    }
  }

  lemma CleanedConcat(a: string, b: string)
    ensures Cleaned(a + b) == Cleaned(a) + Cleaned(b)
  {
    DeleteConcat(a, b, ' ');
    DeleteConcat(Delete(a, ' '), Delete(b, ' '), '\n');
  }

  lemma {:induction false} ParseMovesConcat(a: string, b: string, x: seq<Move>, y: seq<Move>)
    requires ParseMoves(a) == Some(x) && ParseMoves(b) == Some(y)
    ensures ParseMoves(a + b) == Some(x + y)
  {
    if a == [] {
      assert a + b == b && x + y == y;
    } else {
      var m := ParseMove(a[0]).value;
      var rest := ParseMoves(a[1..]).value;
      assert x == [m] + rest;
      assert (a + b)[0] == a[0];
      assert (a + b)[1..] == a[1..] + b;
      ParseMovesConcat(a[1..], b, rest, y);
      ConsAppend(m, rest, y);
    }
  }

  lemma ConsAppend(m: Move, rest: seq<Move>, y: seq<Move>)
    ensures [m] + (rest + y) == ([m] + rest) + y
  {
  }

  lemma CleanedLetter(c: char)
    requires c in "LRUD"
    ensures Cleaned([c]) == [c]
  {
    assert [c][1..] == [];
    assert Delete([c], ' ') == [c];
    assert Delete([c], '\n') == [c];
  }

  lemma CleanedSpacing(s: string)
    requires s == "" || s == " " || s == "\n"
    ensures Cleaned(s) == []
  {
    if s != "" {
      var e: string := [];
      assert s[1..] == e && Delete(e, ' ') == e && Delete(e, '\n') == e;
      var once := Delete(s, ' ');
      assert once == (if s[0] == ' ' then e else [s[0]]) + e;
      if once != [] {
        assert once[1..] == e && once[0] == '\n';
      }
    }
  }

  /** One move's letter with a space after it, and perhaps a line break before. */
  lemma ReadsOneMove(brk: string, m: Move)
    requires brk == "" || brk == "\n"
    ensures ParseMoves(Cleaned(brk + Str(m) + " ")) == Some([m])
  {
    CleanedConcat(brk + Str(m), " ");
    CleanedConcat(brk, Str(m));
    CleanedSpacing(brk);
    CleanedSpacing(" ");
    CleanedStr(m);
    ParseMovesStr(m);
    assert Cleaned(brk + Str(m) + " ") == Str(m);
  }

  lemma CleanedStr(m: Move)
    ensures Cleaned(Str(m)) == Str(m)
  {
    CleanedLetter(Str(m)[0]);
    assert Str(m) == [Str(m)[0]];
  }

  lemma ParseMovesStr(m: Move)
    ensures ParseMoves(Str(m)) == Some([m])
  {
    ParseMoveStr(m, m);
    var t := Str(m);
    assert t[1..] == [];
    assert ParseMoves(t[1..]) == Some([]);
    assert ParseMove(t[0]) == Some(m);
    assert [m] + [] == [m];
  }

  /** What the text from index i on reads back as. */
  lemma {:induction false} SequenceTextReads(ms: seq<Move>, perRow: int, i: int)
    requires perRow != 0 && 0 <= i <= |ms|
    ensures ParseMoves(Cleaned(SequenceText(ms, perRow, i))) == Some(ms[i..])
    decreases |ms| - i
  {
    if i < |ms| {
      var m := ms[i];
      var brk: string := if i % perRow == 0 then "\n" else "";
      var rest := SequenceText(ms, perRow, i + 1);
      SequenceTextReads(ms, perRow, i + 1);
      CleanedConcat(brk + Str(m) + " ", rest);
      ReadsOneMove(brk, m);
      ParseMovesConcat(Cleaned(brk + Str(m) + " "), Cleaned(rest), [m], ms[i + 1..]);
      assert SequenceText(ms, perRow, i) == brk + Str(m) + " " + rest;
      assert [m] + ms[i + 1..] == ms[i..];
    } else {
      assert Cleaned("") == "";
      assert ms[i..] == [];
    }
  }

  /** Reading back the text of a move sequence gives the sequence (for any nonzero perRow). */
  lemma SequenceRoundTrip(ms: seq<Move>, perRow: int)
    requires perRow != 0
    ensures StringToSequence(SequenceToString(ms, perRow)) == Some(ms)
  {
    if |ms| > 0 {
      var t := SequenceText(ms, perRow, 0);
      SequenceTextReads(ms, perRow, 0);
      assert t == "\n" + t[1..];
      CleanedConcat("\n", t[1..]);
      assert Cleaned("\n") == "";
      assert Cleaned(t) == Cleaned(t[1..]);
      assert StringToSequence(SequenceToString(ms, perRow)) == ParseMoves(Cleaned(t[1..]));
      assert ms[0..] == ms;
    } else {
      assert Cleaned("") == "";
    }
  }

  lemma {:induction false} SequenceTextAppend(ms: seq<Move>, m: Move, perRow: int, i: int)
    requires perRow != 0 && 0 <= i <= |ms|
    ensures SequenceText(ms + [m], perRow, i) ==
      SequenceText(ms, perRow, i) + (if |ms| % perRow == 0 then "\n" else "") + Str(m) + " "
    decreases |ms| - i
  {
    var xs := ms + [m];
    if i < |ms| {
      SequenceTextAppend(ms, m, perRow, i + 1);
      assert xs[i] == ms[i];
    } else {
      assert xs[i] == m;
    }
  }

  /**
   * The layout of sequenceToString, built from the end: one move gives its
   * letter and a space, and each further move adds its letter and a space,
   * after a line break when its index is a multiple of perRow.
   */
  lemma SequenceToStringLayout(ms: seq<Move>, m: Move, perRow: int)
    requires perRow != 0
    ensures SequenceToString([], perRow) == ""
    ensures ms == [] ==> SequenceToString([m], perRow) == Str(m) + " "
    ensures ms != [] ==> (SequenceToString(ms + [m], perRow) ==
      SequenceToString(ms, perRow) + (if |ms| % perRow == 0 then "\n" else "") + Str(m) + " ")
  {
    SequenceTextAppend(ms, m, perRow, 0);
    if ms == [] {
      assert ms + [m] == [m];
    }
  }

  // ---------------------------------------------------------------------------
  // Board states

  /** The text of one row: every value followed by a space. */
  function RowText(row: seq<int>): string
  {
    if row == [] then "" else IntStr(row[0]) + " " + RowText(row[1..])
  }

  /** The text stateToString builds: every row's text followed by "/ ". */
  function StateText(g: Grid): (t: string)
    ensures |g| >= 1 ==> |t| >= 2
  {
    if g == [] then "" else RowText(g[0]) + "/ " + StateText(g[1..])
  }

  /** stateToString on a rectangular grid: the rows' values separated by spaces and the rows by " / ". */
  function StateToString(g: Grid): string
    requires |g| >= 1 && |g[0]| >= 1 && Uniform(g, |g[0]|)
  {
    var t := StateText(g);
    assert |t| >= 3 by {
      assert t == IntStr(g[0][0]) + " " + RowText(g[0][1..]) + "/ " + StateText(g[1..]);
    }
    t[..|t| - 3]
  }

  /** The decimal strings of 1 .. n-1 and then of the blank: validNumbers before the first token. */
  function ValidNumbers(n: int): (valid: seq<string>)
  {
    seq(if n > 1 then n - 1 else 0, i => IntStr(i + 1)) + [IntStr(BLANK)]
  }

  /** `ArrayList.remove(Object)`: the first occurrence of s taken out. */
  function RemoveFirst(valid: seq<string>, s: string): (rest: seq<string>)
    ensures s in valid ==> |rest| == |valid| - 1
    ensures forall x :: x in rest ==> x in valid
    ensures forall x :: x in valid && x != s ==> x in rest
  {
    if valid == [] then []
    else if valid[0] == s then valid[1..]
    else [valid[0]] + RemoveFirst(valid[1..], s)
  }

  /** The inner loop of stringToState: each token must be a number not used yet. */
  function ParseCells(tokens: seq<string>, valid: seq<string>): Option<(seq<int>, seq<string>)>
  {
    if tokens == [] then Some(([], valid))
    else if tokens[0] in valid then
      match ParseCells(tokens[1..], RemoveFirst(valid, tokens[0]))
      case None => None
      case Some((row, rest)) => Some(([DigitsValue(tokens[0])] + row, rest))
    else None
  }

  /**
   * The outer loop of stringToState: each row is stripped and split on
   * single spaces and must give exactly numCols tokens.
   */
  function ParseRows(rows: seq<string>, numCols: int, valid: seq<string>): (r: Option<(Grid, seq<string>)>)
    ensures r.Some? ==> |r.value.0| == |rows|
  {
    if rows == [] then Some(([], valid))
    else
      var tokens := Split(Strip(rows[0]), ' ');
      if |tokens| != numCols then None
      else
        match ParseCells(tokens, valid)
        case None => None
        case Some((row, rest)) =>
          match ParseRows(rows[1..], numCols, rest)
          case None => None
          case Some((g, left)) => Some(([row] + g, left))
  }

  /**
   * stringToState: rows are separated by '/' or a line break and tiles by
   * single spaces; None (the source's null) when the shape is wrong or a
   * token is not a number of the board not used before.
   */
  function StringToState(str: string, numRows: int, numCols: int): Option<Grid>
    requires numRows >= 0 && numCols >= 0
  {
    var rows := Split(Replace(str, '\n', '/'), '/');
    if |rows| != numRows then None
    else
      match ParseRows(rows, numCols, ValidNumbers(numRows * numCols))
      case None => None
      case Some((g, _)) => Some(g)
  }

  // ---------------------------------------------------------------------------
  // What a successful parse holds

  /** The values the remaining decimal strings stand for. */
  function Values(valid: seq<string>): (vs: seq<int>)
    ensures |vs| == |valid|
  {
    if valid == [] then [] else [DigitsValue(valid[0]) as int] + Values(valid[1..])
  }

  lemma {:induction false} RemoveFirstValues(valid: seq<string>, s: string)
    requires s in valid
    ensures multiset(Values(RemoveFirst(valid, s))) + multiset{DigitsValue(s) as int} == multiset(Values(valid))
  {
    if valid[0] != s {
      RemoveFirstValues(valid[1..], s);
    }
  }

  lemma {:induction false} ParseCellsLength(tokens: seq<string>, valid: seq<string>)
    requires ParseCells(tokens, valid).Some?
    ensures |ParseCells(tokens, valid).value.0| == |tokens|
  {
    if tokens != [] {
      ParseCellsLength(tokens[1..], RemoveFirst(valid, tokens[0]));
    }
  }

  lemma {:induction false} ParseCellsCounts(tokens: seq<string>, valid: seq<string>)
    requires ParseCells(tokens, valid).Some?
    ensures var (row, rest) := ParseCells(tokens, valid).value;
      multiset(row) + multiset(Values(rest)) == multiset(Values(valid))
  {
    if tokens != [] {
      var t := tokens[0];
      var shorter := RemoveFirst(valid, t);
      ParseCellsCounts(tokens[1..], shorter);
      RemoveFirstValues(valid, t);
    }
  }

  lemma {:induction false} ParseRowsShape(rows: seq<string>, numCols: int, valid: seq<string>)
    requires numCols >= 0 && ParseRows(rows, numCols, valid).Some?
    ensures var g := ParseRows(rows, numCols, valid).value.0;
      |g| == |rows| && Uniform(g, numCols)
  {
    if rows != [] {
      var tokens := Split(Strip(rows[0]), ' ');
      ParseCellsLength(tokens, valid);
      var (row, rest) := ParseCells(tokens, valid).value;
      ParseRowsShape(rows[1..], numCols, rest);
      var (h, left) := ParseRows(rows[1..], numCols, rest).value;
      assert ParseRows(rows, numCols, valid).value == ([row] + h, left);
      UniformCons(row, h, numCols);
    }
  }

  lemma UniformCons(row: seq<int>, h: Grid, cols: int)
    requires |row| == cols && Uniform(h, cols)
    ensures Uniform([row] + h, cols)
  {
    assert forall r :: 1 <= r < |[row] + h| ==> ([row] + h)[r] == h[r - 1];
  }

  lemma {:induction false} ParseRowsCounts(rows: seq<string>, numCols: int, valid: seq<string>)
    requires numCols >= 0 && ParseRows(rows, numCols, valid).Some?
    ensures var (g, rest) := ParseRows(rows, numCols, valid).value;
      multiset(Flatten(g)) + multiset(Values(rest)) == multiset(Values(valid))
  {
    if rows != [] {
      var tokens := Split(Strip(rows[0]), ' ');
      ParseCellsCounts(tokens, valid);
      var (row, rest) := ParseCells(tokens, valid).value;
      ParseRowsCounts(rows[1..], numCols, rest);
      var (h, left) := ParseRows(rows[1..], numCols, rest).value;
      assert ParseRows(rows, numCols, valid).value == ([row] + h, left);
      var g := [row] + h;
      assert g[1..] == h;
      assert Flatten(g) == row + Flatten(h);
    }
  }

  lemma ValidNumbersValues(n: int)
    requires n >= 1
    ensures |ValidNumbers(n)| == n
    ensures multiset(Values(ValidNumbers(n))) == multiset(Range(0, n))
  {
    var valid := ValidNumbers(n);
    var vs := Values(valid);
    forall i | 0 <= i < n
      ensures vs[i] == (Range(1, n) + [0])[i]
    {
      ValuesAt(valid, i);
      if i < n - 1 {
        DigitsValueNatStr(i + 1);
      }
    }
    assert vs == Range(1, n) + [0];
    assert Range(0, n) == [0] + Range(1, n);
  }

  lemma {:induction false} ValuesAt(valid: seq<string>, i: int)
    requires 0 <= i < |valid|
    ensures Values(valid)[i] == DigitsValue(valid[i]) as int
  {
    if i > 0 {
      ValuesAt(valid[1..], i - 1);
    }
  }

  /**
   * A board stringToState accepts has the requested shape and holds every
   * value 0 .. numRows*numCols-1 exactly once (a valid board when it is at
   * least 2 x 2).
   */
  lemma StringToStatePermutation(str: string, numRows: int, numCols: int)
    requires numRows >= 0 && numCols >= 0
    ensures var r := StringToState(str, numRows, numCols);
      r.Some? ==>
        |r.value| == numRows && Uniform(r.value, numCols) &&
        multiset(Flatten(r.value)) == multiset(Range(0, numRows * numCols)) &&
        (numRows >= MIN_ROWS && numCols >= MIN_COLS ==> IsBoard(r.value))
  {
    var r := StringToState(str, numRows, numCols);
    if r.Some? {
      var rows := Split(Replace(str, '\n', '/'), '/');
      var n := numRows * numCols;
      var valid := ValidNumbers(n);
      ParseRowsShape(rows, numCols, valid);
      ParseRowsCounts(rows, numCols, valid);
      var (g, rest) := ParseRows(rows, numCols, valid).value;
      FlattenLength(g, numCols);
      if n >= 1 {
        ValidNumbersValues(n);
        assert |multiset(Flatten(g))| + |multiset(Values(rest))| == |multiset(Values(valid))|;
        assert |rest| == 0;
      } else {
        assert |Flatten(g)| == 0;
      }
    }
  }


  // ---------------------------------------------------------------------------
  // Reading back what stateToString writes

  /** The decimal strings of a row's values. */
  function Tokens(row: seq<int>): (ts: seq<string>)
    ensures |ts| == |row|
  {
    seq(|row|, i requires 0 <= i < |row| => IntStr(row[i]))
  }

  /** A row's values separated by single spaces. */
  function RowLine(row: seq<int>): string
    requires |row| >= 1
  {
    Join(Tokens(row), ' ')
  }

  /** Lines joined by " / ". */
  function Body(lines: seq<string>): string
    requires |lines| >= 1
  {
    if |lines| == 1 then lines[0] else lines[0] + " / " + Body(lines[1..])
  }

  /** The line of every row of a grid. */
  function Lines(g: Grid): (lines: seq<string>)
    requires NonEmptyRows(g)
    ensures |lines| == |g|
  {
    seq(|g|, r requires 0 <= r < |g| => RowLine(g[r]))
  }

  ghost predicate NonNegative(s: seq<int>)
  {
    forall v :: v in s ==> v >= 0
  }

  ghost predicate NonEmptyRows(g: Grid)
  {
    forall r :: 0 <= r < |g| ==> |g[r]| >= 1
  }

  /** A line that stripping leaves alone and that holds neither row separator. */
  ghost predicate Framable(line: string)
  {
    |line| >= 1 && !IsWhitespace(line[0]) && !IsWhitespace(line[|line| - 1]) &&
    '/' !in line && '\n' !in line
  }

  lemma RowLineCons(row: seq<int>)
    requires |row| >= 2
    ensures RowLine(row) == IntStr(row[0]) + " " + RowLine(row[1..])
  {
    assert Tokens(row)[1..] == Tokens(row[1..]);
  }

  /** A row of non-negative values prints as digits and spaces, with a digit at each end. */
  lemma {:induction false} RowLineChars(row: seq<int>)
    requires |row| >= 1 && NonNegative(row)
    ensures var s := RowLine(row);
      |s| >= 1 && IsDigit(s[0]) && IsDigit(s[|s| - 1]) &&
      forall ch :: ch in s ==> IsDigit(ch) || ch == ' '
  {
    var s := RowLine(row);
    var first := IntStr(row[0]);
    assert row[0] in row;
    if |row| == 1 {
      assert s == first;
    } else {
      RowLineCons(row);
      assert forall v :: v in row[1..] ==> v in row;
      RowLineChars(row[1..]);
      var tail := RowLine(row[1..]);
      assert s == first + " " + tail;
      assert s[|s| - 1] == tail[|tail| - 1];
    }
    assert s[0] == first[0];
  }

  lemma RowLineFramable(row: seq<int>)
    requires |row| >= 1 && NonNegative(row)
    ensures Framable(RowLine(row))
  {
    RowLineChars(row);
  }

  /** Splitting a row's line on spaces gives its tokens back. */
  lemma RowLineSplit(row: seq<int>)
    requires |row| >= 1 && NonNegative(row)
    ensures Split(RowLine(row), ' ') == Tokens(row)
  {
    var ts := Tokens(row);
    forall k | 0 <= k < |ts|
      ensures ' ' !in ts[k]
    {
      assert row[k] in row;
    }
    SplitJoin(ts, ' ');
  }

  lemma {:induction false} RowTextLine(row: seq<int>)
    requires |row| >= 1
    ensures RowText(row) == RowLine(row) + " "
  {
    if |row| >= 2 {
      RowTextLine(row[1..]);
      RowLineCons(row);
    } else {
      assert RowLine(row) == IntStr(row[0]);
    }
  }

  lemma Regroup(line: string, rest: string)
    ensures (line + " ") + "/ " + (rest + " / ") == (line + " / " + rest) + " / "
  {
  }

  /** stateToString builds the rows' lines joined by " / ", and then " / ". */
  lemma {:induction false} StateTextBody(g: Grid)
    requires |g| >= 1 && NonEmptyRows(g)
    ensures StateText(g) == Body(Lines(g)) + " / "
  {
    var lines := Lines(g);
    RowTextLine(g[0]);
    var line := RowLine(g[0]);
    if |g| > 1 {
      LinesTail(g);
      StateTextBody(g[1..]);
      var rest := Body(lines[1..]);
      assert StateText(g) == (line + " ") + "/ " + (rest + " / ");
      Regroup(line, rest);
    } else {
      assert StateText(g) == (line + " ") + "/ " + "";
    }
  }

  lemma LinesTail(g: Grid)
    requires |g| >= 2 && NonEmptyRows(g)
    ensures NonEmptyRows(g[1..]) && Lines(g)[1..] == Lines(g[1..])
    ensures Body(Lines(g)) == RowLine(g[0]) + " / " + Body(Lines(g[1..]))
  {
    assert forall r :: 0 <= r < |g| - 1 ==> g[1..][r] == g[r + 1];
    assert Lines(g)[1..] == Lines(g[1..]);
  }

  /** stateToString writes exactly the rows' lines joined by " / ". */
  lemma StateToStringBody(g: Grid)
    requires |g| >= 1 && NonEmptyRows(g) && Uniform(g, |g[0]|)
    ensures StateToString(g) == Body(Lines(g))
  {
    StateTextBody(g);
    var b := Body(Lines(g));
    assert StateText(g)[..|StateText(g)| - 3] == b;
  }

  /** Joining lines without line breaks makes no line break. */
  lemma {:induction false} BodyNoBreak(lines: seq<string>)
    requires |lines| >= 1 && forall k :: 0 <= k < |lines| ==> Framable(lines[k])
    ensures '\n' !in Body(lines)
  {
    assert Framable(lines[0]);
    if |lines| > 1 {
      BodyNoBreak(lines[1..]);
    }
  }

  /** The first line, with its framing, is the first piece of the text split on '/'. */
  lemma BodyPiecesCons(lines: seq<string>, lead: string)
    requires |lines| >= 2 && '/' !in lines[0] && '/' !in lead
    ensures Pieces(lead + Body(lines), '/') == [lead + lines[0] + " "] + Pieces(" " + Body(lines[1..]), '/')
  {
    var a, b := lead + lines[0] + " ", " " + Body(lines[1..]);
    assert lead + Body(lines) == a + ['/'] + b;
    PiecesFirst(a, '/', b);
  }

  /** The pieces of the text between the slashes: each line with the spaces around it. */
  function Framed(lines: seq<string>, lead: string): (ps: seq<string>)
    ensures |ps| == |lines|
  {
    seq(|lines|, k requires 0 <= k < |lines| =>
      (if k == 0 then lead else " ") + lines[k] + (if k == |lines| - 1 then "" else " "))
  }

  /** Splitting on '/' gives the framed lines. */
  lemma {:induction false} BodyPieces(lines: seq<string>, lead: string)
    requires |lines| >= 1 && forall k :: 0 <= k < |lines| ==> '/' !in lines[k]
    requires lead == "" || lead == " "
    ensures Pieces(lead + Body(lines), '/') == Framed(lines, lead)
  {
    if |lines| == 1 {
      assert '/' !in lead + lines[0];
      PiecesNoSep(lead + lines[0], '/');
      assert Framed(lines, lead)[0] == lead + lines[0] + "";
      assert lead + lines[0] + "" == lead + lines[0];
    } else {
      BodyPiecesCons(lines, lead);
      assert forall k :: 0 <= k < |lines| - 1 ==> lines[1..][k] == lines[k + 1];
      BodyPieces(lines[1..], " ");
      FramedCons(lines, lead);
    }
  }

  lemma FramedCons(lines: seq<string>, lead: string)
    requires |lines| >= 2
    ensures Framed(lines, lead) == [lead + lines[0] + " "] + Framed(lines[1..], " ")
  {
    var ps, tail := Framed(lines, lead), Framed(lines[1..], " ");
    forall k | 1 <= k < |lines|
      ensures ps[k] == tail[k - 1]
    {
      assert lines[1..][k - 1] == lines[k];
    }
  }

  /** Each framed line strips to the line, and the last one is not empty. */
  lemma FramedStrip(lines: seq<string>, lead: string)
    requires |lines| >= 1 && forall k :: 0 <= k < |lines| ==> Framable(lines[k])
    requires lead == "" || lead == " "
    ensures Framed(lines, lead)[|lines| - 1] != []
    ensures forall k :: 0 <= k < |lines| ==> Strip(Framed(lines, lead)[k]) == lines[k]
  {
    var ps := Framed(lines, lead);
    forall k | 0 <= k < |lines|
      ensures Strip(ps[k]) == lines[k]
    {
      assert Framable(lines[k]);
      StripFramed(if k == 0 then lead else " ", lines[k], if k == |lines| - 1 then "" else " ");
    }
    assert Framable(lines[|lines| - 1]);
  }

  /** stringToState cuts the text stateToString writes into the rows' lines. */
  lemma RowsOfStateText(g: Grid)
    requires |g| >= 1 && NonEmptyRows(g) && Uniform(g, |g[0]|) && forall r :: 0 <= r < |g| ==> NonNegative(g[r])
    ensures var rows := Split(Replace(StateToString(g), '\n', '/'), '/');
      |rows| == |g| && forall r :: 0 <= r < |g| ==> Strip(rows[r]) == RowLine(g[r])
  {
    var lines := Lines(g);
    forall k | 0 <= k < |lines|
      ensures Framable(lines[k])
    {
      RowLineFramable(g[k]);
    }
    StateToStringBody(g);
    var body := Body(lines);
    BodyNoBreak(lines);
    assert Replace(body, '\n', '/') == body;
    assert "" + body == body;
    assert forall k :: 0 <= k < |lines| ==> '/' !in lines[k];
    BodyPieces(lines, "");
    FramedStrip(lines, "");
    var ps := Pieces(body, '/');
    SplitKeepsLast(body, '/');
    assert Split(Replace(StateToString(g), '\n', '/'), '/') == ps;
    forall r | 0 <= r < |g|
      ensures Strip(ps[r]) == RowLine(g[r])
    {
      assert Strip(ps[r]) == lines[r];
    }
  }

  /** Each row's tokens are read back as the row, provided every value is still on offer. */
  lemma {:induction false} ParseCellsTokens(row: seq<int>, others: seq<int>, valid: seq<string>)
    requires Distinct(row + others) && NonNegative(row + others)
    requires forall v :: v in row + others ==> IntStr(v) in valid
    ensures ParseCells(Tokens(row), valid).Some?
    ensures ParseCells(Tokens(row), valid).value.0 == row
    ensures forall v :: v in others ==> IntStr(v) in ParseCells(Tokens(row), valid).value.1
  {
    if row != [] {
      var shorter := RemoveFirst(valid, IntStr(row[0]));
      StillOnOffer(row, others, valid);
      ParseCellsTokens(row[1..], others, shorter);
      var rest := ParseCells(Tokens(row[1..]), shorter).value.1;
      DigitsValueNatStr(row[0]);
      ParseCellsCons(Tokens(row), valid, row[1..], rest);
      RowConsTail(row);
    }
  }

  /** After the first value is read, the others are still on offer. */
  lemma StillOnOffer(row: seq<int>, others: seq<int>, valid: seq<string>)
    requires |row| >= 1 && Distinct(row + others) && NonNegative(row + others)
    requires forall v :: v in row + others ==> IntStr(v) in valid
    ensures row[0] >= 0 && IntStr(row[0]) in valid && Tokens(row)[1..] == Tokens(row[1..])
    ensures var more, shorter := row[1..] + others, RemoveFirst(valid, IntStr(row[0]));
      Distinct(more) && NonNegative(more) && forall v :: v in more ==> IntStr(v) in shorter
  {
    var shorter := RemoveFirst(valid, IntStr(row[0]));
    var all, more := row + others, row[1..] + others;
    assert all == [row[0]] + more;
    DistinctHead(all);
    DistinctSuffix([row[0]], more);
    assert forall v :: v in more ==> v in all;
    forall v | v in more
      ensures IntStr(v) in shorter
    {
      assert v in all && row[0] in all;
      NatStrInjective(v, row[0]);
    }
    assert Tokens(row)[1..] == Tokens(row[1..]);
  }

  /** One token read, then the rest. */
  lemma ParseCellsCons(tokens: seq<string>, valid: seq<string>, row: seq<int>, rest: seq<string>)
    requires tokens != [] && tokens[0] in valid
    requires ParseCells(tokens[1..], RemoveFirst(valid, tokens[0])) == Some((row, rest))
    ensures ParseCells(tokens, valid) == Some(([DigitsValue(tokens[0]) as int] + row, rest))
  {
  }

  /** Each of the lines stripped and split on spaces gives the tokens of the grid's row. */
  ghost predicate ReadsAs(rows: seq<string>, g: Grid)
  {
    |rows| == |g| && forall r :: 0 <= r < |g| ==> Split(Strip(rows[r]), ' ') == Tokens(g[r])
  }

  lemma ReadsAsTail(rows: seq<string>, g: Grid, cols: int)
    requires |g| >= 1 && ReadsAs(rows, g) && Uniform(g, cols)
    ensures ReadsAs(rows[1..], g[1..]) && Uniform(g[1..], cols)
    ensures Split(Strip(rows[0]), ' ') == Tokens(g[0]) && |Tokens(g[0])| == cols
  {
    assert forall r :: 0 <= r < |g| - 1 ==> rows[1..][r] == rows[r + 1] && g[1..][r] == g[r + 1];
  }

  /** The rows of a board are read back as the board. */
  lemma {:induction false} ParseRowsTokens(g: Grid, rows: seq<string>, cols: int, valid: seq<string>)
    requires ReadsAs(rows, g) && Uniform(g, cols)
    requires Distinct(Flatten(g)) && NonNegative(Flatten(g))
    requires forall v :: v in Flatten(g) ==> IntStr(v) in valid
    ensures ParseRows(rows, cols, valid).Some? && ParseRows(rows, cols, valid).value.0 == g
  {
    if g != [] {
      var f, later := Flatten(g), Flatten(g[1..]);
      assert f == g[0] + later;
      ParseCellsTokens(g[0], later, valid);
      var rest := ParseCells(Tokens(g[0]), valid).value.1;
      assert forall v :: v in later ==> v in f;
      DistinctSuffix(g[0], later);
      ReadsAsTail(rows, g, cols);
      ParseRowsTokens(g[1..], rows[1..], cols, rest);
      var left := ParseRows(rows[1..], cols, rest).value.1;
      ParseRowsCons(rows, cols, valid, g[0], rest, g[1..], left);
      ConsTail(g);
    }
  }

  lemma RowConsTail(row: seq<int>)
    requires |row| >= 1
    ensures [row[0]] + row[1..] == row
  {
  }

  lemma ConsTail(g: Grid)
    requires |g| >= 1
    ensures [g[0]] + g[1..] == g
  {
  }

  /** One row read, then the rest. */
  lemma ParseRowsCons(rows: seq<string>, cols: int, valid: seq<string>, row: seq<int>, rest: seq<string>, h: Grid, left: seq<string>)
    requires rows != [] && |Split(Strip(rows[0]), ' ')| == cols
    requires ParseCells(Split(Strip(rows[0]), ' '), valid) == Some((row, rest))
    requires ParseRows(rows[1..], cols, rest) == Some((h, left))
    ensures ParseRows(rows, cols, valid) == Some(([row] + h, left))
  {
  }

  lemma {:induction false} RowInFlatten(g: Grid, r: int)
    requires 0 <= r < |g|
    ensures forall v :: v in g[r] ==> v in Flatten(g)
  {
    if r > 0 {
      RowInFlatten(g[1..], r - 1);
    }
  }

  lemma DistinctHead(s: seq<int>)
    requires |s| >= 1 && Distinct(s)
    ensures s[0] !in s[1..]
  {
  }

  lemma DistinctSuffix(a: seq<int>, b: seq<int>)
    requires Distinct(a + b)
    ensures Distinct(b)
  {
    assert forall i :: 0 <= i < |b| ==> b[i] == (a + b)[|a| + i];
  }

  /** Every value of a board of n cells is among the strings stringToState accepts first. */
  lemma ValidNumbersHas(n: int, v: int)
    requires 0 <= v < n
    ensures IntStr(v) in ValidNumbers(n)
  {
    var valid := ValidNumbers(n);
    if v == 0 {
      assert valid[|valid| - 1] == IntStr(v);
    } else {
      assert valid[v - 1] == IntStr(v);
    }
  }

  /** stringToState reads back every valid board that stateToString writes. */
  lemma StateRoundTrip(g: Grid)
    requires IsBoard(g)
    ensures StringToState(StateToString(g), |g|, |g[0]|) == Some(g)
  {
    var cols, n := |g[0]|, |g| * |g[0]|;
    var f := Flatten(g);
    RangeDistinct(0, n);
    DistinctByMultiset(f, Range(0, n));
    forall v | v in f
      ensures 0 <= v < n && IntStr(v) in ValidNumbers(n)
    {
      assert v in multiset(Range(0, n));
      RangeMember(0, n, v);
      ValidNumbersHas(n, v);
    }
    forall r | 0 <= r < |g|
      ensures |g[r]| >= 1 && NonNegative(g[r])
    {
      RowInFlatten(g, r);
    }
    RowsOfStateText(g);
    var rows := Split(Replace(StateToString(g), '\n', '/'), '/');
    forall r | 0 <= r < |g|
      ensures Split(Strip(rows[r]), ' ') == Tokens(g[r])
    {
      RowLineSplit(g[r]);
    }
    ParseRowsTokens(g, rows, cols, ValidNumbers(n));
  }
}
