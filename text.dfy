/**
 * The few java.lang.String and java.lang.Integer operations the codecs and
 * the clock display rely on, written out over `seq<char>`: decimal
 * conversion (`Integer.toString`, `Integer.parseInt`, `%0Nd`), character
 * replacement, `strip` and `split` on a single character.
 */
module Text {

  // ---------------------------------------------------------------------------
  // Decimal numbers

  function DigitChar(d: int): (ch: char)
    requires 0 <= d < 10
    ensures '0' <= ch <= '9'
  {
    ('0' as int + d) as char
  }

  predicate IsDigit(ch: char)
  {
    '0' <= ch <= '9'
  }

  /** The decimal digits of n, most significant first, without leading zeros. */
  function NatStr(n: nat): (s: string)
    ensures |s| >= 1 && forall i :: 0 <= i < |s| ==> IsDigit(s[i])
    ensures n == 0 <==> s == "0"
    ensures |s| >= 2 ==> s[0] != '0'
  {
    if n < 10 then [DigitChar(n)] else NatStr(n / 10) + [DigitChar(n % 10)]
  }

  /** `Integer.toString`: a minus sign before the digits of a negative number. */
  function IntStr(n: int): (s: string)
    ensures |s| >= 1 && (n >= 0 <==> IsDigit(s[0]))
  {
    if n < 0 then "-" + NatStr(-n) else NatStr(n)
  }

  /** `Integer.parseInt` on a string of decimal digits. */
  function DigitsValue(s: string): (v: nat)
  {
    if s == [] then 0
    else
      var d := s[|s| - 1] as int - '0' as int;
      DigitsValue(s[..|s| - 1]) * 10 + (if 0 <= d < 10 then d else 0)
  }

  /** Reading back the digits of n gives n. */
  lemma {:induction false} DigitsValueNatStr(n: nat)
    ensures DigitsValue(NatStr(n)) == n
  {
    if n >= 10 {
      DigitsValueNatStr(n / 10);
      var s := NatStr(n);
      assert s[..|s| - 1] == NatStr(n / 10);
    }
  }

  /** Distinct numbers have distinct decimal strings. */
  lemma NatStrInjective(m: nat, n: nat)
    ensures NatStr(m) == NatStr(n) ==> m == n
  {
    if NatStr(m) == NatStr(n) {
      DigitsValueNatStr(m);
      DigitsValueNatStr(n);
    }
  }

  /** Zeros in front of the digits until there are at least `width` characters. */
  function ZeroPad(s: string, width: int): (t: string)
    ensures |t| >= |s| && |t| >= width
    ensures t[|t| - |s|..] == s
    ensures forall i :: 0 <= i < |t| - |s| ==> t[i] == '0'
    decreases width - |s|
  {
    if |s| >= width then s else ZeroPad("0" + s, width)
  }

  /** `String.format("%0<width>d", n)`: the sign first, then zeros, then the digits. */
  function Padded(n: int, width: int): (s: string)
  {
    if n < 0 then "-" + ZeroPad(NatStr(-n), width - 1) else ZeroPad(NatStr(n), width)
  }

  // ---------------------------------------------------------------------------
  // Characters

  /** `String.replace(ch, "")`: every `ch` deleted. */
  function Delete(s: string, ch: char): (t: string)
    ensures ch !in t
    ensures forall x :: x != ch ==> (x in t <==> x in s)
  {
    if s == [] then [] else (if s[0] == ch then [] else [s[0]]) + Delete(s[1..], ch)
  }

  /** `String.replace(from, to)` for single characters. */
  function Replace(s: string, from: char, to: char): (t: string)
    ensures |t| == |s|
    ensures forall i :: 0 <= i < |s| ==> t[i] == if s[i] == from then to else s[i]
  {
    seq(|s|, i requires 0 <= i < |s| => if s[i] == from then to else s[i])
  }

  /** `Character.isWhitespace`, the test `String.strip` applies at both ends. */
  predicate IsWhitespace(ch: char)
  {
    var k := ch as int;
    k == 0x20 || 0x09 <= k <= 0x0D || 0x1C <= k <= 0x1F || k == 0x1680 ||
    (0x2000 <= k <= 0x200A && k != 0x2007) || k == 0x2028 || k == 0x2029 ||
    k == 0x205F || k == 0x3000
  }

  function StripLeading(s: string): (t: string)
    ensures |t| <= |s| && t == s[|s| - |t|..]
    ensures t != [] ==> !IsWhitespace(t[0])
  {
    if s != [] && IsWhitespace(s[0]) then StripLeading(s[1..]) else s
  }

  function StripTrailing(s: string): (t: string)
    ensures |t| <= |s| && t == s[..|t|]
    ensures t != [] ==> !IsWhitespace(t[|t| - 1])
  {
    if s != [] && IsWhitespace(s[|s| - 1]) then StripTrailing(s[..|s| - 1]) else s
  }

  /** `String.strip`: leading and trailing whitespace removed. */
  function Strip(s: string): (t: string)
  {
    StripTrailing(StripLeading(s))
  }

  /** Stripping removes one space on either side of text that neither starts nor ends with whitespace. */
  lemma StripFramed(lead: string, s: string, trail: string)
    requires lead == "" || lead == " "
    requires trail == "" || trail == " "
    requires |s| >= 1 && !IsWhitespace(s[0]) && !IsWhitespace(s[|s| - 1])
    ensures Strip(lead + s + trail) == s
  {
    assert lead + s + trail == lead + (s + trail);
    StripLeadingFramed(lead, s + trail);
    StripTrailingFramed(s, trail);
  }

  lemma StripLeadingFramed(lead: string, s: string)
    requires lead == "" || lead == " "
    requires |s| >= 1 && !IsWhitespace(s[0])
    ensures StripLeading(lead + s) == s
  {
    if lead == " " {
      assert (lead + s)[1..] == s;
    } else {
      assert lead + s == s;
    }
  }

  lemma StripTrailingFramed(s: string, trail: string)
    requires trail == "" || trail == " "
    requires |s| >= 1 && !IsWhitespace(s[|s| - 1])
    ensures StripTrailing(s + trail) == s
  {
    if trail == " " {
      assert (s + trail)[..|s + trail| - 1] == s;
    } else {
      assert s + trail == s;
    }
  }

  // ---------------------------------------------------------------------------
  // Splitting on one character

  /** The pieces between the occurrences of sep, empty pieces included. */
  function Pieces(s: string, sep: char): (ps: seq<string>)
    ensures |ps| >= 1
    ensures forall k :: 0 <= k < |ps| ==> sep !in ps[k]
  {
    if s == [] then [[]]
    else
      var rest := Pieces(s[1..], sep);
      if s[0] == sep then [[]] + rest else [[s[0]] + rest[0]] + rest[1..]
  }

  function DropTrailingEmpty(ps: seq<string>): (qs: seq<string>)
    ensures |qs| <= |ps| && qs == ps[..|qs|]
    ensures qs != [] ==> qs[|qs| - 1] != []
  {
    if ps != [] && ps[|ps| - 1] == [] then DropTrailingEmpty(ps[..|ps| - 1]) else ps
  }

  /**
   * `String.split` with a one-character pattern: the pieces without the
   * trailing empty ones, except that the empty string splits into itself.
   */
  function Split(s: string, sep: char): (ps: seq<string>)
    ensures forall k :: 0 <= k < |ps| ==> sep !in ps[k]
  {
    if s == [] then [[]] else DropTrailingEmpty(Pieces(s, sep))
  }

  /** When the last piece is not empty, Split keeps every piece. */
  lemma SplitKeepsLast(s: string, sep: char)
    requires Pieces(s, sep)[|Pieces(s, sep)| - 1] != []
    ensures Split(s, sep) == Pieces(s, sep)
  {
  }

  /** Pieces with sep between them. */
  function Join(ps: seq<string>, sep: char): (s: string)
    requires |ps| >= 1
  {
    if |ps| == 1 then ps[0] else ps[0] + [sep] + Join(ps[1..], sep)
  }

  lemma {:induction false} PiecesNoSep(s: string, sep: char)
    requires sep !in s
    ensures Pieces(s, sep) == [s]
  {
    if s != [] {
      PiecesNoSep(s[1..], sep);
      assert [s[0]] + s[1..] == s;
    }
  }

  lemma {:induction false} PiecesFirst(a: string, sep: char, b: string)
    requires sep !in a
    ensures Pieces(a + [sep] + b, sep) == [a] + Pieces(b, sep)
  {
    if a != [] {
      assert (a + [sep] + b)[1..] == a[1..] + [sep] + b;
      PiecesFirst(a[1..], sep, b);
      assert [a[0]] + a[1..] == a;
    } else {
      assert (a + [sep] + b)[1..] == b;
    }
  }

  /** Splitting a join of sep-free pieces gives the pieces back. */
  lemma {:induction false} PiecesJoin(ps: seq<string>, sep: char)
    requires |ps| >= 1 && forall k :: 0 <= k < |ps| ==> sep !in ps[k]
    ensures Pieces(Join(ps, sep), sep) == ps
  {
    if |ps| == 1 {
      PiecesNoSep(ps[0], sep);
    } else {
      PiecesJoin(ps[1..], sep);
      PiecesFirst(ps[0], sep, Join(ps[1..], sep));
    }
  }

  /** The same when the last piece is not empty, through Split. */
  lemma SplitJoin(ps: seq<string>, sep: char)
    requires |ps| >= 1 && forall k :: 0 <= k < |ps| ==> sep !in ps[k]
    requires ps[|ps| - 1] != []
    ensures Split(Join(ps, sep), sep) == ps
  {
    PiecesJoin(ps, sep);
    JoinEndsWithLast(ps, sep);
  }

  lemma {:induction false} JoinEndsWithLast(ps: seq<string>, sep: char)
    requires |ps| >= 1
    ensures |Join(ps, sep)| >= |ps[|ps| - 1]|
  {
    if |ps| > 1 {
      JoinEndsWithLast(ps[1..], sep);
    }
  }
}
