/**
 * PuzzleTimer.millisToString: a duration in milliseconds shown as
 * " H:MM:SS.T ", hours unpadded, minutes and seconds on two digits and the
 * tenth of a second truncated. The arithmetic is Java's: `/` and `%` on a
 * long truncate toward zero and each field is cast to int.
 */
module Timer {
  import opened Text
  import opened JavaInt

  // The units are written out as numbers (an hour is 3600000 ms, a minute
  // 60000, a second 1000, a tenth 100) so that the arithmetic stays linear.

  /** Durations whose hour count fits in an int (3600000 * 2^31), so that the cast keeps it. */
  const MILLIS_LIMIT: int := 7_730_941_132_800_000

  datatype Clock = Clock(hours: int, minutes: int, seconds: int, tenths: int)

  /** Milliseconds covered by the fields of a clock reading. */
  function ClockMillis(k: Clock): int
  {
    k.hours * 3600000 + k.minutes * 60000 + k.seconds * 1000 + k.tenths * 100
  }

  /** The fields millisToString prints: each the quotient of what the larger units left. */
  function ClockOf(millis: int): (k: Clock)
  {
    var hours := Int32(Quot(millis, 3600000));
    var afterHours := Rem(millis, 3600000);
    var minutes := Int32(Quot(afterHours, 60000));
    var afterMinutes := Rem(afterHours, 60000);
    var seconds := Int32(Quot(afterMinutes, 1000));
    var afterSeconds := Rem(afterMinutes, 1000);
    Clock(hours, minutes, seconds, Quot(afterSeconds, 100))
  }

  /** `String.format(" %01d:%02d:%02d.%01d ", ...)` of a clock reading. */
  function ClockText(k: Clock): (s: string)
    ensures |s| >= 10 && s[0] == ' ' && s[|s| - 1] == ' '
  {
    " " + Padded(k.hours, 1) + (":" + Padded(k.minutes, 2) + ":" + Padded(k.seconds, 2) + "." + Padded(k.tenths, 1) + " ")
  }

  /** PuzzleTimer.millisToString. */
  function MillisToString(millis: int): (s: string)
    ensures |s| >= 10 && s[0] == ' ' && s[|s| - 1] == ' '
  {
    ClockText(ClockOf(millis))
  }

  /** For a dividend that is not negative, Java's `/` and `%` are Dafny's. */
  lemma Divide(x: int, unit: int)
    requires 0 <= x && 0 < unit
    ensures Quot(x, unit) == x / unit && Rem(x, unit) == x % unit
    ensures x == unit * Quot(x, unit) + Rem(x, unit) && 0 <= Rem(x, unit) < unit
  {
  }

  /**
   * For a duration that is not negative, minutes and seconds lie in 0..59,
   * the tenth in 0..9, and the fields account for the duration to within a
   * tenth of a second.
   */
  lemma ClockOfDuration(millis: int)
    requires 0 <= millis < MILLIS_LIMIT
    ensures var k := ClockOf(millis);
      0 <= k.hours && 0 <= k.minutes < 60 && 0 <= k.seconds < 60 && 0 <= k.tenths < 10 &&
      ClockMillis(k) <= millis < ClockMillis(k) + 100
  {
    var h, afterHours := Quot(millis, 3600000), Rem(millis, 3600000);
    assert millis == 3600000 * h + afterHours && 0 <= afterHours < 3600000 by {
      Divide(millis, 3600000);
    }
    var m, afterMinutes := Quot(afterHours, 60000), Rem(afterHours, 60000);
    assert afterHours == 60000 * m + afterMinutes && 0 <= afterMinutes < 60000 by {
      Divide(afterHours, 60000);
    }
    var sec, afterSeconds := Quot(afterMinutes, 1000), Rem(afterMinutes, 1000);
    assert afterMinutes == 1000 * sec + afterSeconds && 0 <= afterSeconds < 1000 by {
      Divide(afterMinutes, 1000);
    }
    var t := Quot(afterSeconds, 100);
    assert afterSeconds == 100 * t + Rem(afterSeconds, 100) && 0 <= Rem(afterSeconds, 100) < 100 by {
      Divide(afterSeconds, 100);
    }
    Int32Negated(h);
    Int32Negated(m);
    Int32Negated(sec);
    assert ClockOf(millis) == Clock(h, m, sec, t);
  }

  /**
   * The hours are the whole hours in a duration that is not negative, and
   * the tenth is the hundreds digit of its milliseconds, truncated.
   */
  lemma ClockFields(millis: int)
    requires 0 <= millis < MILLIS_LIMIT
    ensures var k := ClockOf(millis);
      k.hours == millis / 3600000 && k.tenths == (millis % 1000) / 100
  {
    ClockOfDuration(millis);
    ReadingFields(millis, ClockOf(millis));
  }

  /** A reading in range that accounts for a duration has its whole hours and its truncated tenth. */
  lemma ReadingFields(millis: int, k: Clock)
    requires 0 <= k.hours && 0 <= k.minutes < 60 && 0 <= k.seconds < 60 && 0 <= k.tenths < 10
    requires ClockMillis(k) <= millis < ClockMillis(k) + 100
    ensures k.hours == millis / 3600000 && k.tenths == (millis % 1000) / 100
  {
    var rest := millis - ClockMillis(k);
    assert millis == 3600000 * k.hours + (60000 * k.minutes + 1000 * k.seconds + 100 * k.tenths + rest);
    assert millis % 1000 == 100 * k.tenths + rest;
  }

  /**
   * A negative duration, which Java's truncating division splits into
   * fields that are all zero or negative: the fields account for it from
   * above, to within a tenth of a second.
   */
  lemma ClockOfNegative(millis: int)
    requires -MILLIS_LIMIT < millis < 0
    ensures var k := ClockOf(millis);
      k.hours == -((-millis) / 3600000) &&
      -60 < k.minutes <= 0 && -60 < k.seconds <= 0 && -10 < k.tenths <= 0 &&
      ClockMillis(k) - 100 < millis <= ClockMillis(k)
  {
    var k := ClockOf(-millis);
    ClockOfDuration(-millis);
    ClockFields(-millis);
    ClockOfOdd(millis);
    NegatedReading(-millis, k);
  }

  /** Negating every field of a reading negates the milliseconds it accounts for. */
  lemma NegatedReading(x: int, k: Clock)
    requires 0 <= k.minutes < 60 && 0 <= k.seconds < 60 && 0 <= k.tenths < 10
    requires ClockMillis(k) <= x < ClockMillis(k) + 100
    ensures var n := Clock(-k.hours, -k.minutes, -k.seconds, -k.tenths);
      -60 < n.minutes <= 0 && -60 < n.seconds <= 0 && -10 < n.tenths <= 0 &&
      ClockMillis(n) - 100 < -x <= ClockMillis(n)
  {
  }

  /** The clock reading of y <= 0 is that of -y with every field negated. */
  lemma ClockOfOdd(y: int)
    requires -MILLIS_LIMIT < y <= 0
    ensures var k := ClockOf(-y); ClockOf(y) == Clock(-k.hours, -k.minutes, -k.seconds, -k.tenths)
  {
    var h, afterHours := Quot(-y, 3600000), Rem(-y, 3600000);
    assert 0 <= h <= INT_MAX && 0 <= afterHours < 3600000 by { Divide(-y, 3600000); }
    assert Quot(y, 3600000) == -h && Rem(y, 3600000) == -afterHours by { Negate(y, 3600000); }
    var m, afterMinutes := Quot(afterHours, 60000), Rem(afterHours, 60000);
    assert 0 <= m <= INT_MAX && 0 <= afterMinutes < 60000 by { Divide(afterHours, 60000); }
    assert Quot(-afterHours, 60000) == -m && Rem(-afterHours, 60000) == -afterMinutes by { Negate(afterHours, 60000); }
    var sec, afterSeconds := Quot(afterMinutes, 1000), Rem(afterMinutes, 1000);
    assert 0 <= sec <= INT_MAX by { Divide(afterMinutes, 1000); }
    assert Quot(-afterMinutes, 1000) == -sec && Rem(-afterMinutes, 1000) == -afterSeconds by { Negate(afterMinutes, 1000); }
    var t := Quot(afterSeconds, 100);
    assert Quot(-afterSeconds, 100) == -t by { Negate(afterSeconds, 100); }
    Int32Negated(h);
    Int32Negated(m);
    Int32Negated(sec);
    assert ClockOf(-y) == Clock(h, m, sec, t);
    assert ClockOf(y) == Clock(-h, -m, -sec, -t);
  }

  /** The cast to int keeps a value in range and its negation. */
  lemma Int32Negated(v: int)
    requires 0 <= v <= INT_MAX
    ensures Int32(v) == v && Int32(-v) == -v
  {
  }

  /** Java's `/` and `%` are odd in the dividend. */
  lemma Negate(x: int, unit: int)
    requires 0 < unit
    ensures Quot(-x, unit) == -Quot(x, unit) && Rem(-x, unit) == -Rem(x, unit)
  {
  }

  /** A value in 0..99 on exactly two digits. */
  function TwoDigits(n: int): (s: string)
    requires 0 <= n < 100
    ensures |s| == 2 && IsDigit(s[0]) && IsDigit(s[1])
  {
    [DigitChar(n / 10), DigitChar(n % 10)]
  }

  /** Two-digit texts are alike only for equal values. */
  lemma TwoDigitsInjective(x: int, y: int)
    requires 0 <= x < 100 && 0 <= y < 100
    ensures TwoDigits(x) == TwoDigits(y) ==> x == y
  {
  }

  /** `%01d` of a value in 0..9 is its one digit. */
  lemma PaddedDigit(n: int)
    requires 0 <= n < 10
    ensures Padded(n, 1) == [DigitChar(n)]
  {
    assert NatStr(n) == [DigitChar(n)];
  }

  /** `%02d` of a value in 0..99 is its two digits. */
  lemma PaddedTwo(n: int)
    requires 0 <= n < 100
    ensures Padded(n, 2) == TwoDigits(n)
  {
    if n >= 10 {
      assert NatStr(n / 10) == [DigitChar(n / 10)];
      assert NatStr(n) == NatStr(n / 10) + [DigitChar(n % 10)];
    } else {
      assert NatStr(n) == [DigitChar(n)];
      assert ZeroPad([DigitChar(n)], 2) == ZeroPad("0" + [DigitChar(n)], 2);
    }
  }

  /**
   * The text of a duration that is not negative: a space, the hours, the
   * minutes and seconds on two digits each, the tenth, and a space.
   */
  lemma MillisToStringShape(millis: int)
    requires 0 <= millis < MILLIS_LIMIT
    ensures var k := ClockOf(millis);
      MillisToString(millis) == " " + NatStr(k.hours) + ClockTail(k.minutes, k.seconds, k.tenths)
  {
    ClockOfDuration(millis);
    TextOfFields(ClockOf(millis));
  }

  /** The clock text of fields in range: the hours' digits, then the fixed-width tail. */
  lemma TextOfFields(k: Clock)
    requires 0 <= k.hours && 0 <= k.minutes < 60 && 0 <= k.seconds < 60 && 0 <= k.tenths < 10
    ensures ClockText(k) == " " + NatStr(k.hours) + ClockTail(k.minutes, k.seconds, k.tenths)
  {
    assert Padded(k.minutes, 2) == TwoDigits(k.minutes) by { PaddedTwo(k.minutes); }
    assert Padded(k.seconds, 2) == TwoDigits(k.seconds) by { PaddedTwo(k.seconds); }
    assert Padded(k.tenths, 1) == [DigitChar(k.tenths)] by { PaddedDigit(k.tenths); }
    assert Padded(k.hours, 1) == NatStr(k.hours);
  }

  /** The fields of a clock reading in range are fixed by the number of tenths it stands for. */
  lemma ClockTenths(millis: int)
    requires 0 <= millis < MILLIS_LIMIT
    ensures var k := ClockOf(millis);
      k.hours * 36000 + k.minutes * 600 + k.seconds * 10 + k.tenths == millis / 100
  {
    ClockOfDuration(millis);
  }

  /** A reading with minutes and seconds in 0..59 and the tenth in 0..9 is fixed by its count of tenths. */
  lemma ClockUnique(k1: Clock, k2: Clock)
    requires 0 <= k1.minutes < 60 && 0 <= k1.seconds < 60 && 0 <= k1.tenths < 10
    requires 0 <= k2.minutes < 60 && 0 <= k2.seconds < 60 && 0 <= k2.tenths < 10
    requires k1.hours * 36000 + k1.minutes * 600 + k1.seconds * 10 + k1.tenths ==
             k2.hours * 36000 + k2.minutes * 600 + k2.seconds * 10 + k2.tenths
    ensures k1 == k2
  {
  }

  /** Durations in range have the same clock reading exactly when they fall in the same tenth of a second. */
  lemma SameClock(a: int, b: int)
    requires 0 <= a < MILLIS_LIMIT && 0 <= b < MILLIS_LIMIT
    ensures ClockOf(a) == ClockOf(b) <==> a / 100 == b / 100
  {
    ClockOfDuration(a);
    ClockOfDuration(b);
    ClockTenths(a);
    ClockTenths(b);
    if a / 100 == b / 100 {
      ClockUnique(ClockOf(a), ClockOf(b));
    }
  }

  /**
   * The part of the clock text after the hours, fixed at nine characters:
   * ":MM:SS.T ".
   */
  function ClockTail(minutes: int, seconds: int, tenths: int): (s: string)
    requires 0 <= minutes < 60 && 0 <= seconds < 60 && 0 <= tenths < 10
    ensures |s| == 9 && s[1..3] == TwoDigits(minutes) && s[4..6] == TwoDigits(seconds) && s[7] == DigitChar(tenths)
  {
    ":" + TwoDigits(minutes) + ":" + TwoDigits(seconds) + "." + [DigitChar(tenths)] + " "
  }

  /** Two concatenations with tails of one length split alike. */
  lemma SplitAlike(x: string, y: string, x': string, y': string)
    requires x + y == x' + y' && |y| == |y'|
    ensures x == x' && y == y'
  {
    assert x == (x + y)[..|x|];
    assert x' == (x' + y')[..|x'|];
    assert y == (x + y)[|x|..];
    assert y' == (x' + y')[|x'|..];
  }

  /** The clock text of fields in range can be read back field by field. */
  lemma ReadFields(h1: nat, m1: int, s1: int, t1: int, h2: nat, m2: int, s2: int, t2: int)
    requires 0 <= m1 < 60 && 0 <= s1 < 60 && 0 <= t1 < 10
    requires 0 <= m2 < 60 && 0 <= s2 < 60 && 0 <= t2 < 10
    requires " " + NatStr(h1) + ClockTail(m1, s1, t1) == " " + NatStr(h2) + ClockTail(m2, s2, t2)
    ensures h1 == h2 && m1 == m2 && s1 == s2 && t1 == t2
  {
    SplitAlike(" " + NatStr(h1), ClockTail(m1, s1, t1), " " + NatStr(h2), ClockTail(m2, s2, t2));
    assert NatStr(h1) == (" " + NatStr(h1))[1..];
    assert NatStr(h2) == (" " + NatStr(h2))[1..];
    NatStrInjective(h1, h2);
    TwoDigitsInjective(m1, m2);
    TwoDigitsInjective(s1, s2);
  }

  /** The text of a duration in range determines its clock reading. */
  lemma TextFixesClock(a: int, b: int)
    requires 0 <= a < MILLIS_LIMIT && 0 <= b < MILLIS_LIMIT
    requires MillisToString(a) == MillisToString(b)
    ensures ClockOf(a) == ClockOf(b)
  {
    var ka, kb := ClockOf(a), ClockOf(b);
    ClockOfDuration(a);
    ClockOfDuration(b);
    MillisToStringShape(a);
    MillisToStringShape(b);
    ReadFields(ka.hours, ka.minutes, ka.seconds, ka.tenths, kb.hours, kb.minutes, kb.seconds, kb.tenths);
  }

  /**
   * Two durations are shown alike exactly when they fall in the same tenth
   * of a second: the display drops the hundredths and nothing else.
   */
  lemma SameText(a: int, b: int)
    requires 0 <= a < MILLIS_LIMIT && 0 <= b < MILLIS_LIMIT
    ensures MillisToString(a) == MillisToString(b) <==> a / 100 == b / 100
  {
    SameClock(a, b);
    if MillisToString(a) == MillisToString(b) {
      TextFixesClock(a, b);
    }
  }
}
