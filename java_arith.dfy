/**
 * Java's 32-bit integer arithmetic, written out, for the places where the
 * program's result depends on it: the remainder operator `%` (which truncates
 * toward zero, unlike Dafny's Euclidean `%`), wrap-around of `int`
 * multiplication, and the saturating `(int)` cast of a `double`.
 */
module JavaArith {

  const INT_MIN: int := -0x8000_0000
  const INT_MAX: int := 0x7fff_ffff
  const TWO_32: int := 0x1_0000_0000

  predicate IsInt32(x: int) {
    INT_MIN <= x <= INT_MAX
  }

  function Abs(x: int): nat {
    if x < 0 then -x else x
  }

  /** Java's `a / b` on integers: the quotient truncated toward zero. */
  function Quot(a: int, b: int): int
    requires b != 0
  {
    if (a >= 0) == (b > 0) then Abs(a) / Abs(b) else -(Abs(a) / Abs(b))
  }

  /**
   * Java's `a % b`: what is left of `a` after the truncating division by `b`.
   * It is smaller than `b` in magnitude and takes the sign of the dividend.
   */
  function Rem(a: int, b: int): (r: int)
    requires b != 0
    ensures Abs(r) < Abs(b)
    ensures a >= 0 ==> r >= 0
    ensures a <= 0 ==> r <= 0
  {
    if a >= 0 then a % Abs(b) else -((-a) % Abs(b))
  }

  /** The quotient and remainder recompose the dividend: `a == (a / b) * b + a % b` in Java. */
  lemma QuotRem(a: int, b: int)
    requires b != 0
    ensures a == b * Quot(a, b) + Rem(a, b)
  {
    var m, n := Abs(a), Abs(b);
    assert m == n * (m / n) + m % n;
  }

  /** On a non-negative dividend Java's remainder is Dafny's, for either sign of the divisor. */
  lemma RemOfNatural(a: int, b: int)
    requires a >= 0 && b != 0
    ensures Rem(a, b) == a % Abs(b)
    ensures b > 0 ==> Rem(a, b) == a % b
  {
  }

  /** The `int` result of a 32-bit multiplication or addition whose exact value is `x`. */
  function Wrap32(x: int): (r: int)
    ensures IsInt32(r)
    ensures (x - r) % TWO_32 == 0
    ensures IsInt32(x) ==> r == x
  {
    (x - INT_MIN) % TWO_32 + INT_MIN
  }

  /** Java's `(int)` cast of a `double` holding the integral value `x`: it saturates. */
  function SaturatedInt(x: int): (r: int)
    ensures IsInt32(r)
    ensures IsInt32(x) ==> r == x
    ensures x > INT_MAX ==> r == INT_MAX
    ensures x < INT_MIN ==> r == INT_MIN
  {
    if x > INT_MAX then INT_MAX else if x < INT_MIN then INT_MIN else x
  }

  /** Ten to the power `e` (Math.pow(10, e) is exact for the exponents the program can reach). */
  function Pow10(e: nat): (p: nat)
    ensures p >= 1
  {
    if e == 0 then 1 else 10 * Pow10(e - 1)
  }

  lemma {:induction false} Pow10Monotone(e1: nat, e2: nat)
    requires e1 <= e2
    ensures Pow10(e1) <= Pow10(e2)
    decreases e2
  {
    if e1 < e2 {
      Pow10Monotone(e1, e2 - 1);
    }
  }
}
