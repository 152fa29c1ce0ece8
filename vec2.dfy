/** Two-component vectors (src/core/math/vec2.rs), over the reals. */
module Vec2Math {
  import opened SquareRoot

  datatype Vec2 = Vec2(x: real, y: real)

  /** The zero vector, which the source writes `from_scalar(0.0)`: the identity of addition. */
  function Zero(): (r: Vec2)
    ensures forall v: Vec2 :: Add(v, r) == v
  {
    Vec2(0.0, 0.0)
  }

  /** `Vec2::from_scalar` */
  function FromScalar(s: real): (r: Vec2)
    ensures r.x == s && r.y == s
  {
    Vec2(s, s)
  }

  /** `-v` */
  function Neg(v: Vec2): (r: Vec2)
    ensures r.x + v.x == 0.0 && r.y + v.y == 0.0
  {
    Vec2(-v.x, -v.y)
  }

  /** `u + v` */
  function Add(u: Vec2, v: Vec2): (r: Vec2)
    ensures r.x - v.x == u.x && r.y - v.y == u.y
  {
    Vec2(u.x + v.x, u.y + v.y)
  }

  /** `v + s` */
  function AddScalar(v: Vec2, s: real): (r: Vec2)
    ensures r.x - s == v.x && r.y - s == v.y
  {
    Vec2(v.x + s, v.y + s)
  }

  /** `s + v`, which the source writes as `v + s`. */
  function ScalarAdd(s: real, v: Vec2): (r: Vec2)
    ensures r == Vec2(s + v.x, s + v.y)
  {
    AddScalar(v, s)
  }

  /** `u - v`, which the source writes as `u + (-v)`. */
  function Sub(u: Vec2, v: Vec2): (r: Vec2)
    ensures r == Vec2(u.x - v.x, u.y - v.y)
  {
    Add(u, Neg(v))
  }

  /** `v - s`, which the source writes as `v + (-s)`. */
  function SubScalar(v: Vec2, s: real): (r: Vec2)
    ensures r == Vec2(v.x - s, v.y - s)
  {
    AddScalar(v, -s)
  }

  /** `s - v`, which the source writes as `(-v) + s`. */
  function ScalarSub(s: real, v: Vec2): (r: Vec2)
    ensures r == Vec2(s - v.x, s - v.y)
  {
    AddScalar(Neg(v), s)
  }

  /** Componentwise `u * v`. */
  function Mul(u: Vec2, v: Vec2): (r: Vec2)
    ensures v.x != 0.0 && v.y != 0.0 ==> Div(r, v) == u
  {
    Vec2(u.x * v.x, u.y * v.y)
  }

  /** `v * s` */
  function MulScalar(v: Vec2, s: real): (r: Vec2)
    ensures r == Mul(v, FromScalar(s))
  {
    Vec2(v.x * s, v.y * s)
  }

  /** `s * v`, which the source writes as `v * s`. */
  function ScalarMul(s: real, v: Vec2): (r: Vec2)
    ensures r == Vec2(s * v.x, s * v.y)
  {
    MulScalar(v, s)
  }

  /** Componentwise `u / v`; the divisor's components must be non-zero over the reals. */
  function Div(u: Vec2, v: Vec2): (r: Vec2)
    requires v.x != 0.0 && v.y != 0.0
    ensures r.x * v.x == u.x && r.y * v.y == u.y
  {
    Vec2(u.x / v.x, u.y / v.y)
  }

  /** `v / s` */
  function DivScalar(v: Vec2, s: real): (r: Vec2)
    requires s != 0.0
    ensures r.x * s == v.x && r.y * s == v.y
  {
    Vec2(v.x / s, v.y / s)
  }

  /** `s / v`: the scalar divided by each component. */
  function ScalarDiv(s: real, v: Vec2): (r: Vec2)
    requires v.x != 0.0 && v.y != 0.0
    ensures r.x * v.x == s && r.y * v.y == s
  {
    Vec2(s / v.x, s / v.y)
  }

  /** `length`: the square root of the sum of squares. */
  function Length(v: Vec2, sqrt: real -> real): (r: real)
    ensures IsSqrt(sqrt) ==> 0.0 <= r && r * r == v.x * v.x + v.y * v.y
  {
    sqrt(v.x * v.x + v.y * v.y)
  }

  /** `normalized`: the vector itself when its length is zero, otherwise `v / length`. */
  function Normalized(v: Vec2, sqrt: real -> real): (r: Vec2)
    ensures v == Zero() ==> r == v
    ensures Length(v, sqrt) != 0.0 ==> r == DivScalar(v, Length(v, sqrt))
  {
    var len := Length(v, sqrt);
    if len == 0.0 then v else DivScalar(v, len)
  }

  /** Scaling the normalized vector back by the length restores the original. */
  lemma NormalizedRoundTrip(v: Vec2, sqrt: real -> real)
    requires Length(v, sqrt) != 0.0
    ensures MulScalar(Normalized(v, sqrt), Length(v, sqrt)) == v
  {
    var len := Length(v, sqrt);
    var n := Normalized(v, sqrt);
    assert n.x * len == v.x && n.y * len == v.y;
  }

  /** A vector of non-zero length normalizes to a vector of length one. */
  lemma UnitLength(v: Vec2, sqrt: real -> real)
    requires IsSqrt(sqrt) && Length(v, sqrt) != 0.0
    ensures var n := Normalized(v, sqrt); n.x * n.x + n.y * n.y == 1.0
  {
    var l2 := v.x * v.x + v.y * v.y;
    var len := Length(v, sqrt);
    var n := Normalized(v, sqrt);
    assert n == DivScalar(v, len);
    ScaledSquare(v.x, len, l2);
    ScaledSquare(v.y, len, l2);
    var sum := n.x * n.x + n.y * n.y;
    assert sum * l2 == n.x * n.x * l2 + n.y * n.y * l2;
    assert ((sum - 1.0) * len) * len == 0.0;
    MulZero((sum - 1.0) * len, len);
    MulZero(sum - 1.0, len);
  }

  /** Negation is an involution, and a vector plus its negation is zero. */
  lemma NegInvolution(v: Vec2)
    ensures Neg(Neg(v)) == v
    ensures Add(v, Neg(v)) == Zero()
  {
  }

  /** Scalar broadcast commutes. */
  lemma ScalarOpsCommute(s: real, v: Vec2)
    ensures ScalarAdd(s, v) == AddScalar(v, s)
    ensures ScalarMul(s, v) == MulScalar(v, s)
    ensures ScalarSub(s, v) == AddScalar(Neg(v), s)
  {
  }

  /** The expectations of the `neg` unit test in vec2.rs. */
  lemma NegTestValues()
    ensures Neg(Vec2(1.0, 2.0)) == Vec2(-1.0, -2.0)
  {
  }

  /** Negation fixes the zero vector, the other expectation of the `neg` unit test. */
  lemma NegZero()
    ensures Neg(FromScalar(0.0)) == FromScalar(0.0)
  {
  }

  /** The expectations of the `add_vec2` and `add_f64` unit tests in vec2.rs. */
  lemma AddTestValues()
    ensures Add(Vec2(2.0, 2.0), Vec2(-1.0, 1.0)) == Vec2(1.0, 3.0)
    ensures AddScalar(Vec2(1.0, 2.0), 3.0) == Vec2(4.0, 5.0)
    ensures ScalarAdd(3.0, Vec2(1.0, 2.0)) == Vec2(4.0, 5.0)
  {
  }

  /** The expectations of the `sub_vec2` and `sub_f64` unit tests in vec2.rs. */
  lemma SubTestValues()
    ensures Sub(Vec2(1.0, 2.0), Vec2(5.0, 6.0)) == Vec2(-4.0, -4.0)
    ensures SubScalar(Vec2(1.0, 2.0), 5.0) == Vec2(-4.0, -3.0)
    ensures ScalarSub(5.0, Vec2(1.0, 2.0)) == Vec2(4.0, 3.0)
  {
  }

  /** The expectations of the `mul_vec2` and `mul_f64` unit tests in vec2.rs. */
  lemma MulTestValues()
    ensures Mul(Vec2(10.0, 20.0), Vec2(0.2, 0.1)) == FromScalar(2.0)
    ensures MulScalar(Vec2(5.0, 6.0), 2.0) == Vec2(10.0, 12.0)
    ensures ScalarMul(2.0, Vec2(5.0, 6.0)) == Vec2(10.0, 12.0)
  {
  }

  /** The expectations of the `div_vec2` and `div_f64` unit tests in vec2.rs. */
  lemma DivTestValues()
    ensures Div(Vec2(10.0, 12.0), Vec2(2.0, 6.0)) == Vec2(5.0, 2.0)
    ensures DivScalar(Vec2(10.0, 12.0), 2.0) == Vec2(5.0, 6.0)
    ensures ScalarDiv(12.0, Vec2(2.0, 3.0)) == Vec2(6.0, 4.0)
  {
  }

  /** The length and normalization expectations of the unit tests in vec2.rs. */
  lemma LengthTestValues(sqrt: real -> real)
    requires IsSqrt(sqrt)
    ensures Length(FromScalar(0.0), sqrt) == 0.0
    ensures Normalized(FromScalar(0.0), sqrt) == FromScalar(0.0)
    ensures Length(Vec2(3.0, 4.0), sqrt) == 5.0
    ensures Normalized(Vec2(3.0, 4.0), sqrt) == Vec2(0.6, 0.8)
  {
    SqrtOfSquare(sqrt, 0.0);
    SqrtOfSquare(sqrt, 5.0);
    assert Length(Vec2(3.0, 4.0), sqrt) == sqrt(5.0 * 5.0);
  }
}
