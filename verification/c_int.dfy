/** Integer behaviour of the C/C++ target that the menu code depends on.

    The menu fields are `int8_t` and `short`, and the marker position is
    computed with C's `/` and `%`, which truncate toward zero (section 6.5.5
    of ISO/IEC 9899:1999). Dafny's `/` and `%` are Euclidean, so the C
    operators are written out here as `Quot` and `Rem`.
 */
module CInt {

  /** The range of an `int8_t`. */
  type Int8 = x: int | -128 <= x < 128

  /** The range of a `short int` on the 8-bit AVR target (16 bits). */
  type Int16 = x: int | -32768 <= x < 32768

  function Abs(x: int): nat
  {
    if x < 0 then -x else x
  }

  /** Euclidean division of a non-negative dividend by a positive divisor:
      the quotient and remainder recompose the dividend. */
  lemma {:induction false} NatDivMod(x: int, y: int)
    requires 0 <= x && 0 < y
    ensures x == (x / y) * y + x % y
    ensures 0 <= x / y && 0 <= x % y < y
  {
  }

  /** Euclidean division is unique: a dividend written as `q * c + r` with
      `0 <= r < c` has quotient `q` and remainder `r`. */
  lemma {:induction false} DivModUnique(n: int, c: int, q: int, r: int)
    requires 0 < c && 0 <= r < c && n == q * c + r
    ensures n / c == q && n % c == r
  {
    var q', r' := n / c, n % c;
    assert n == q' * c + r' && 0 <= r' < c;
    assert (q - q') * c == r' - r;
    if q > q' {
      MulAtLeast(q - q', c);
    } else if q < q' {
      MulAtLeast(q' - q, c);
    }
  }

  lemma {:induction false} MulAtLeast(k: int, c: int)
    requires k >= 1 && c > 0
    ensures k * c >= c
  {
  }

  /** C's `a / b`: the quotient truncated toward zero. */
  function Quot(a: int, b: int): (q: int)
    requires b != 0
    ensures Abs(q) == Abs(a) / Abs(b)
    ensures q > 0 ==> (a < 0 <==> b < 0)
    ensures q < 0 ==> (a < 0 <==> b > 0)
  {
    var x, y := Abs(a), Abs(b);
    NatDivMod(x, y);
    var n := x / y;
    if (a < 0) == (b < 0) then n else -n
  }

  /** C's `a % b`: the remainder that goes with the truncated quotient. */
  function Rem(a: int, b: int): (r: int)
    requires b != 0
    ensures Quot(a, b) * b + r == a
    ensures Abs(r) < Abs(b)
    ensures r > 0 ==> a > 0
    ensures r < 0 ==> a < 0
  {
    var x, y := Abs(a), Abs(b);
    NatDivMod(x, y);
    var q, m := x / y, x % y;
    if a < 0 then
      assert Quot(a, b) * b == -(q * y);
      -m
    else
      assert Quot(a, b) * b == q * y;
      m
  }

  /** On a non-negative dividend and a positive divisor the C operators
      agree with Dafny's Euclidean ones. */
  lemma {:induction false} TruncationAgreesWhenNonNegative(a: int, b: int)
    requires 0 <= a && 0 < b
    ensures Quot(a, b) == a / b
    ensures Rem(a, b) == a % b
  {
  }

  /** The quotient and the remainder together determine the dividend:
      two dividends with the same C quotient and remainder are equal. */
  lemma {:induction false} QuotRemDetermine(a1: int, a2: int, b: int)
    requires b != 0
    requires Quot(a1, b) == Quot(a2, b) && Rem(a1, b) == Rem(a2, b)
    ensures a1 == a2
  {
  }
}
