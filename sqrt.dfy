/** The square root of f64, abstracted over the reals. */
module SquareRoot {

  /** Any function that returns the non-negative square root of a non-negative argument.
      Operations that take a square root receive such a function as a parameter. */
  ghost predicate IsSqrt(sqrt: real -> real) {
    forall t: real :: 0.0 <= t ==> 0.0 <= sqrt(t) && sqrt(t) * sqrt(t) == t
  }

  /** The defining property of `sqrt`, at one argument. */
  lemma SqrtOf(sqrt: real -> real, t: real)
    requires IsSqrt(sqrt) && 0.0 <= t
    ensures 0.0 <= sqrt(t) && sqrt(t) * sqrt(t) == t
  {
  }

  /** A product with a non-zero factor vanishes only when the other factor does. */
  lemma MulZero(a: real, b: real)
    requires a * b == 0.0 && b != 0.0
    ensures a == 0.0
  {
    assert a == (a * b) / b;
  }

  /** Non-negative square roots are unique. */
  lemma SqrtUnique(s: real, t: real)
    requires 0.0 <= s && 0.0 <= t && s * s == t * t
    ensures s == t
  {
    if s + t != 0.0 {
      assert (s - t) * (s + t) == s * s - t * t;
      MulZero(s - t, s + t);
    }
  }

  /** `sqrt` is determined at every perfect square: `sqrt(t * t) == t` for `t >= 0`. */
  lemma SqrtOfSquare(sqrt: real -> real, t: real)
    requires IsSqrt(sqrt) && 0.0 <= t
    ensures sqrt(t * t) == t
  {
    SqrtOf(sqrt, t * t);
    SqrtUnique(sqrt(t * t), t);
  }

  /** Dividing `a` by a root `len` of `l2`, squaring and scaling by `l2` gives `a * a`. */
  lemma ScaledSquare(a: real, len: real, l2: real)
    requires len != 0.0 && len * len == l2
    ensures (a / len) * (a / len) * l2 == a * a
  {
    var q := a / len;
    assert q * len == a;
    calc {
      q * q * l2;
      == q * q * (len * len);
      == (q * len) * (q * len);
    }
  }
}
