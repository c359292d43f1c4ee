/**
 * The four moves of the puzzle, named by the direction in which a tile slides,
 * with their one-letter codes and inverses (src/fifteenpuzzle/Move.java).
 */
module Moves {
  import opened Wrappers

  datatype Move = Left | Right | Up | Down

  /** The move's one-letter code, the enum's `str` field. */
  function Str(m: Move): (s: string)
    ensures |s| == 1
  {
    match m
    case Left => "L"
    case Right => "R"
    case Up => "U"
    case Down => "D"
  }

  /** The move that undoes `m`. */
  function Inverse(m: Move): (r: Move)
    ensures r != m
    ensures (m == Left <==> r == Right) && (m == Up <==> r == Down)
  {
    match m
    case Left => Right
    case Right => Left
    case Down => Up
    case Up => Down
  }

  /** `Character.toUpperCase` on the ASCII letters; every other character is left as it is. */
  function ToUpper(c: char): (u: char)
    ensures 'a' <= c <= 'z' ==> u as int == c as int - 32
    ensures !('a' <= c <= 'z') ==> u == c
  {
    if 'a' <= c <= 'z' then (c as int - 32) as char else c
  }

  /** Reads one move letter, ignoring case; None (the source's null) for any other character. */
  function ParseMove(c: char): Option<Move>
  {
    match ToUpper(c)
    case 'L' => Some(Left)
    case 'R' => Some(Right)
    case 'D' => Some(Down)
    case 'U' => Some(Up)
    case _ => None
  }

  /** The letters ParseMove accepts, in either case. */
  predicate IsMoveLetter(c: char)
  {
    c in "LRUDlrud"
  }

  lemma InverseInvolutive(m: Move)
    ensures Inverse(Inverse(m)) == m
  {
  }

  lemma ParseMoveCases(c: char)
    ensures c == 'L' || c == 'l' ==> ParseMove(c) == Some(Left)
    ensures c == 'R' || c == 'r' ==> ParseMove(c) == Some(Right)
    ensures c == 'U' || c == 'u' ==> ParseMove(c) == Some(Up)
    ensures c == 'D' || c == 'd' ==> ParseMove(c) == Some(Down)
    ensures ParseMove(c).None? <==> !IsMoveLetter(c)
  {
  }

  /** Upper-casing the input first never changes what ParseMove reads. */
  lemma ParseMoveCaseInsensitive(c: char)
    ensures ParseMove(ToUpper(c)) == ParseMove(c)
  {
  }

  /** The letter of a move reads back as that move, and distinct moves have distinct letters. */
  lemma ParseMoveStr(m: Move, n: Move)
    ensures ParseMove(Str(m)[0]) == Some(m)
    ensures Str(m) == Str(n) ==> m == n
  {
  }
}
