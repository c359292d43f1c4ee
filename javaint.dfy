/**
 * Java's integer arithmetic where it differs from Dafny's: `/` and `%`
 * truncate toward zero (section 15.17.2 and 15.17.3 of the Java Language
 * Specification), and a cast from long to int keeps the low 32 bits
 * (section 5.1.3).
 */
module JavaInt {

  const INT_MIN: int := -0x8000_0000
  const INT_MAX: int := 0x7fff_ffff

  /** Java's `a / b`: the quotient rounded toward zero. */
  function Quot(a: int, b: int): (q: int)
    requires b != 0
    ensures 0 <= a && 0 < b ==> q == a / b
    ensures (0 <= a) == (0 < b) || a == 0 || q <= 0
  {
    if 0 <= a then
      if 0 < b then a / b else -(a / -b)
    else
      if 0 < b then -((-a) / b) else (-a) / (-b)
  }

  /** Java's `a % b`: what is left after taking Quot(a, b) times b. */
  function Rem(a: int, b: int): (r: int)
    requires b != 0
  {
    a - Quot(a, b) * b
  }

  /**
   * The remainder has the sign of the dividend and is smaller than the
   * divisor in magnitude, so the quotient is the one rounded toward zero.
   */
  lemma QuotRem(a: int, b: int)
    requires b != 0
    ensures Quot(a, b) * b + Rem(a, b) == a
    ensures 0 <= a ==> 0 <= Rem(a, b) < (if 0 < b then b else -b)
    ensures a < 0 ==> -(if 0 < b then b else -b) < Rem(a, b) <= 0
  {
    if 0 <= a {
      if 0 < b {
      } else {
        assert Quot(a, b) * b == (a / -b) * -b;
      }
    } else {
      if 0 < b {
        assert Quot(a, b) * b == -(((-a) / b) * b);
      } else {
        assert Quot(a, b) * b == -(((-a) / (-b)) * -b);
      }
    }
  }

  /** `(int) x` for a long x: the low 32 bits read as a two's-complement int. */
  function Int32(x: int): (y: int)
    ensures INT_MIN <= y <= INT_MAX
    ensures INT_MIN <= x <= INT_MAX ==> y == x
    ensures (x - y) % 0x1_0000_0000 == 0
  {
    var low := x % 0x1_0000_0000;
    if low <= INT_MAX then low else low - 0x1_0000_0000
  }
}
