/**
 The firmware's integer arithmetic. The sketch is C++ on signed integers,
 where `/` rounds the quotient toward zero and `%` takes the sign of the
 dividend (section 5.6 of ISO/IEC 14882:2011). Dafny's own `/` and `%` are
 Euclidean, so the two operators are written out here and used wherever the
 firmware divides.
 */
module CInt {

  /** `a / b` for a positive divisor: the quotient rounded toward zero. */
  function Quot(a: int, b: int): (q: int)
    requires b > 0
    ensures a >= 0 ==> 0 <= a - q * b < b
    ensures a < 0 ==> -b < a - q * b <= 0
  {
    if a >= 0 then a / b else -((-a) / b)
  }

  /** `a % b` for a positive divisor: what is left after `Quot`, carrying the sign of `a`. */
  function Rem(a: int, b: int): (r: int)
    requires b > 0
    ensures a == Quot(a, b) * b + r
    ensures a >= 0 ==> 0 <= r < b
    ensures a < 0 ==> -b < r <= 0
  {
    a - Quot(a, b) * b
  }

  /** On a non-negative dividend the C operators agree with Dafny's. */
  lemma NonNegativeDivision(a: int, b: int)
    requires a >= 0 && b > 0
    ensures Quot(a, b) == a / b && Rem(a, b) == a % b
  {
  }

  /** Euclid's division is unique: a quotient and remainder that fit are the quotient and remainder. */
  lemma DivideExactly(x: int, d: int, q: int, r: int)
    requires d > 0 && 0 <= r < d && x == q * d + r
    ensures x / d == q && x % d == r
  {
    var q', r' := x / d, x % d;
    assert (q - q') * d == r' - r;
    if q > q' {
      AtLeastOneMultiple(q - q', d);
      assert false;
    } else if q < q' {
      AtLeastOneMultiple(q' - q, d);
      assert false;
    }
  }

  lemma AtLeastOneMultiple(k: int, d: int)
    requires k >= 1 && d > 0
    ensures k * d >= d
  {
    assert k * d == (k - 1) * d + d;
  }
}
