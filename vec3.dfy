/** Three-component vectors and colours (src/core/math/vec3.rs), over the reals. */
module Vec3Math {
  import opened SquareRoot

  datatype Vec3 = Vec3(x: real, y: real, z: real)

  /** The zero vector, which the source writes `from_scalar(0.0)`: the identity of addition. */
  function Zero(): (r: Vec3)
    ensures forall v: Vec3 :: Add(v, r) == v
  {
    Vec3(0.0, 0.0, 0.0)
  }

  /** `Vec3::from_scalar` */
  function FromScalar(s: real): (r: Vec3)
    ensures r.x == s && r.y == s && r.z == s
  {
    Vec3(s, s, s)
  }

  /** `-v` */
  function Neg(v: Vec3): (r: Vec3)
    ensures r.x + v.x == 0.0 && r.y + v.y == 0.0 && r.z + v.z == 0.0
  {
    Vec3(-v.x, -v.y, -v.z)
  }

  /** `u + v` */
  function Add(u: Vec3, v: Vec3): (r: Vec3)
    ensures r.x - v.x == u.x && r.y - v.y == u.y && r.z - v.z == u.z
  {
    Vec3(u.x + v.x, u.y + v.y, u.z + v.z)
  }

  /** `v + s` */
  function AddScalar(v: Vec3, s: real): (r: Vec3)
    ensures r.x - s == v.x && r.y - s == v.y && r.z - s == v.z
  {
    Vec3(v.x + s, v.y + s, v.z + s)
  }

  /** `s + v`, which the source writes as `v + s`. */
  function ScalarAdd(s: real, v: Vec3): (r: Vec3)
    ensures r == Vec3(s + v.x, s + v.y, s + v.z)
  {
    AddScalar(v, s)
  }

  /** `u - v`, which the source writes as `u + (-v)`. */
  function Sub(u: Vec3, v: Vec3): (r: Vec3)
    ensures r == Vec3(u.x - v.x, u.y - v.y, u.z - v.z)
  {
    Add(u, Neg(v))
  }

  /** `v - s`, which the source writes as `v + (-s)`. */
  function SubScalar(v: Vec3, s: real): (r: Vec3)
    ensures r == Vec3(v.x - s, v.y - s, v.z - s)
  {
    AddScalar(v, -s)
  }

  /** `s - v`, which the source writes as `(-v) + s`. */
  function ScalarSub(s: real, v: Vec3): (r: Vec3)
    ensures r == Vec3(s - v.x, s - v.y, s - v.z)
  {
    AddScalar(Neg(v), s)
  }

  /** Componentwise `u * v` (used for colour attenuation). */
  function Mul(u: Vec3, v: Vec3): (r: Vec3)
    ensures v.x != 0.0 && v.y != 0.0 && v.z != 0.0 ==> Div(r, v) == u
  {
    Vec3(u.x * v.x, u.y * v.y, u.z * v.z)
  }

  /** `v * s` */
  function MulScalar(v: Vec3, s: real): (r: Vec3)
    ensures r == Mul(v, FromScalar(s))
  {
    Vec3(v.x * s, v.y * s, v.z * s)
  }

  /** `s * v`, which the source writes as `v * s`. */
  function ScalarMul(s: real, v: Vec3): (r: Vec3)
    ensures r == Vec3(s * v.x, s * v.y, s * v.z)
  {
    MulScalar(v, s)
  }

  /** Componentwise `u / v`; the divisor's components must be non-zero over the reals. */
  function Div(u: Vec3, v: Vec3): (r: Vec3)
    requires v.x != 0.0 && v.y != 0.0 && v.z != 0.0
    ensures r.x * v.x == u.x && r.y * v.y == u.y && r.z * v.z == u.z
  {
    Vec3(u.x / v.x, u.y / v.y, u.z / v.z)
  }

  /** `v / s` */
  function DivScalar(v: Vec3, s: real): (r: Vec3)
    requires s != 0.0
    ensures r.x * s == v.x && r.y * s == v.y && r.z * s == v.z
  {
    Vec3(v.x / s, v.y / s, v.z / s)
  }

  /** `s / v` */
  function ScalarDiv(s: real, v: Vec3): (r: Vec3)
    requires v.x != 0.0 && v.y != 0.0 && v.z != 0.0
    ensures r.x * v.x == s && r.y * v.y == s && r.z * v.z == s
  {
    Vec3(s / v.x, s / v.y, s / v.z)
  }

  /** `dot`: a vector's product with itself is never negative. */
  function Dot(u: Vec3, v: Vec3): (r: real)
    ensures u == v ==> r >= 0.0
  {
    u.x * v.x + u.y * v.y + u.z * v.z
  }

  /** `cross`: orthogonal to both operands. */
  function Cross(u: Vec3, v: Vec3): (r: Vec3)
    ensures Dot(r, u) == 0.0 && Dot(r, v) == 0.0
  {
    Vec3(u.y * v.z - u.z * v.y,
         u.z * v.x - u.x * v.z,
         u.x * v.y - u.y * v.x)
  }

  /** `length_square`: the sum of squares, never negative. */
  function LengthSquare(v: Vec3): (r: real)
    ensures r >= 0.0
    ensures r == Dot(v, v)
  {
    v.x * v.x + v.y * v.y + v.z * v.z
  }

  /** The zero vector has squared length zero. */
  lemma ZeroHasNoLength(v: Vec3)
    ensures v == Zero() ==> LengthSquare(v) == 0.0
  {
  }

  /** `length`: the non-negative root of the squared length. */
  function Length(v: Vec3, sqrt: real -> real): (r: real)
    ensures IsSqrt(sqrt) ==> 0.0 <= r && r * r == LengthSquare(v)
  {
    sqrt(LengthSquare(v))
  }

  /** `normalized`: the vector itself when its length is zero, otherwise `v / length`. */
  function Normalized(v: Vec3, sqrt: real -> real): (r: Vec3)
    ensures v == Zero() ==> r == v
    ensures Length(v, sqrt) != 0.0 ==> r == DivScalar(v, Length(v, sqrt))
  {
    var len := Length(v, sqrt);
    if len == 0.0 then v else DivScalar(v, len)
  }

  /** Scaling the normalized vector back by the length restores the original. */
  lemma NormalizedRoundTrip(v: Vec3, sqrt: real -> real)
    requires Length(v, sqrt) != 0.0
    ensures MulScalar(Normalized(v, sqrt), Length(v, sqrt)) == v
  {
    var len := Length(v, sqrt);
    var n := Normalized(v, sqrt);
    assert n.x * len == v.x && n.y * len == v.y && n.z * len == v.z;
  }

  lemma DotSymmetric(u: Vec3, v: Vec3)
    ensures Dot(u, v) == Dot(v, u)
  {
  }

  /** Scalar broadcast commutes. */
  lemma ScalarOpsCommute(s: real, v: Vec3)
    ensures ScalarAdd(s, v) == AddScalar(v, s)
    ensures ScalarMul(s, v) == MulScalar(v, s)
    ensures ScalarSub(s, v) == AddScalar(Neg(v), s)
  {
  }

  /** The expectations of the addition and subtraction unit tests in vec3.rs. */
  lemma AddSubTestValues()
    ensures Neg(Vec3(1.0, 2.0, 3.0)) == Vec3(-1.0, -2.0, -3.0)
    ensures Add(Vec3(1.0, 2.0, 3.0), FromScalar(-1.0)) == Vec3(0.0, 1.0, 2.0)
    ensures AddScalar(Vec3(10.0, 5.0, 0.0), 2.0) == Vec3(12.0, 7.0, 2.0)
    ensures ScalarAdd(2.0, Vec3(10.0, 5.0, 0.0)) == Vec3(12.0, 7.0, 2.0)
    ensures Sub(Vec3(1.0, 2.0, 3.0), FromScalar(-1.0)) == Vec3(2.0, 3.0, 4.0)
    ensures SubScalar(Vec3(1.0, 2.0, 3.0), 2.0) == Vec3(-1.0, 0.0, 1.0)
    ensures ScalarSub(2.0, Vec3(1.0, 2.0, 3.0)) == Vec3(1.0, 0.0, -1.0)
  {
  }

  /** The expectations of the multiplication and division unit tests in vec3.rs. */
  lemma MulDivTestValues()
    ensures Mul(Vec3(1.0, 2.0, 3.0), Vec3(2.0, 1.0, 0.0)) == Vec3(2.0, 2.0, 0.0)
    ensures MulScalar(Vec3(1.0, 2.0, 3.0), 3.0) == Vec3(3.0, 6.0, 9.0)
    ensures ScalarMul(3.0, Vec3(1.0, 2.0, 3.0)) == Vec3(3.0, 6.0, 9.0)
    ensures Div(Vec3(2.0, 4.0, 6.0), FromScalar(2.0)) == Vec3(1.0, 2.0, 3.0)
    ensures DivScalar(Vec3(2.0, 4.0, 6.0), 2.0) == Vec3(1.0, 2.0, 3.0)
    ensures ScalarDiv(12.0, Vec3(2.0, 4.0, 6.0)) == Vec3(6.0, 3.0, 2.0)
  {
  }

  /** The expectation of the dot product unit test in vec3.rs. */
  lemma DotTestValue()
    ensures Dot(Vec3(1.0, 2.0, 3.0), Vec3(0.0, 1.0, 2.0)) == 8.0
  {
  }

  /** The expectation of the cross product unit test in vec3.rs. */
  lemma CrossTestValue()
    ensures Cross(Vec3(1.0, 2.0, 3.0), Vec3(0.0, 1.0, 2.0)) == Vec3(1.0, -2.0, 1.0)
  {
  }

  /** The zero vector has length zero and normalizes to itself. */
  lemma ZeroLength(sqrt: real -> real)
    requires IsSqrt(sqrt)
    ensures Length(Zero(), sqrt) == 0.0
    ensures Normalized(Zero(), sqrt) == Zero()
  {
    SqrtOf(sqrt, 0.0);
    SqrtUnique(sqrt(0.0), 0.0);
  }

  /** A vector of non-zero length normalizes to a vector of length one. */
  lemma UnitLength(v: Vec3, sqrt: real -> real)
    requires IsSqrt(sqrt) && Length(v, sqrt) != 0.0
    ensures LengthSquare(Normalized(v, sqrt)) == 1.0
  {
    var l2 := LengthSquare(v);
    var len := Length(v, sqrt);
    var n := Normalized(v, sqrt);
    assert n == DivScalar(v, len);
    ScaledSquare(v.x, len, l2);
    ScaledSquare(v.y, len, l2);
    ScaledSquare(v.z, len, l2);
    var sum := n.x * n.x + n.y * n.y + n.z * n.z;
    assert sum * l2 == n.x * n.x * l2 + n.y * n.y * l2 + n.z * n.z * l2;
    assert ((sum - 1.0) * len) * len == 0.0;
    MulZero((sum - 1.0) * len, len);
    MulZero(sum - 1.0, len);
  }

  /** The components of a unit-length normalized vector lie in `[-1, 1]`. */
  lemma NormalizedBounds(v: Vec3, sqrt: real -> real)
    requires IsSqrt(sqrt) && Length(v, sqrt) != 0.0
    ensures var n := Normalized(v, sqrt);
      -1.0 <= n.x <= 1.0 && -1.0 <= n.y <= 1.0 && -1.0 <= n.z <= 1.0
  {
    var n := Normalized(v, sqrt);
    UnitLength(v, sqrt);
    SquareBound(n.x, n.y * n.y + n.z * n.z);
    SquareBound(n.y, n.x * n.x + n.z * n.z);
    SquareBound(n.z, n.x * n.x + n.y * n.y);
  }

  /** `a * a + rest == 1` with `rest >= 0` confines `a` to `[-1, 1]`. */
  lemma SquareBound(a: real, rest: real)
    requires 0.0 <= rest && a * a + rest == 1.0
    ensures -1.0 <= a <= 1.0
  {
  }

  /** The length and normalization expectations of the unit tests in vec3.rs. */
  lemma LengthTestValues(sqrt: real -> real)
    requires IsSqrt(sqrt)
    ensures Length(Vec3(0.0, 3.0, 4.0), sqrt) == 5.0
    ensures Normalized(Vec3(0.0, 3.0, 4.0), sqrt) == Vec3(0.0, 0.6, 0.8)
  {
    var v := Vec3(0.0, 3.0, 4.0);
    assert LengthSquare(v) == 25.0;
    SqrtOf(sqrt, 25.0);
    SqrtUnique(sqrt(25.0), 5.0);
    assert Length(v, sqrt) == 5.0;
    var n := DivScalar(v, 5.0);
    assert n.x == 0.0 && n.y == 0.6 && n.z == 0.8;
  }
}
