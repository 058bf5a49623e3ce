/**
 * Two- and three-dimensional vectors over the reals, standing in for the
 * engine's single-precision `Vec2`/`Vec3`. Square roots are not computable
 * here, so a vector's length is passed in by the caller together with the
 * fact that it is the non-negative root of the squared length.
 */
module Geometry {
  datatype Vec2 = Vec2(x: real, y: real)
  datatype Vec3 = Vec3(x: real, y: real, z: real)

  const ZERO2: Vec2 := Vec2(0.0, 0.0)

  function Add(a: Vec2, b: Vec2): Vec2 { Vec2(a.x + b.x, a.y + b.y) }
  function Sub(a: Vec2, b: Vec2): Vec2 { Vec2(a.x - b.x, a.y - b.y) }
  function Scale(v: Vec2, k: real): Vec2 { Vec2(v.x * k, v.y * k) }

  /** `Vec2 / f32`: each component divided by `k`. */
  function DivBy(v: Vec2, k: real): Vec2
    requires k != 0.0
  {
    Vec2(v.x / k, v.y / k)
  }

  /** Moving for `dt` at the average velocity over `dt` covers the displacement. */
  lemma AverageVelocityCovers(from: Vec2, to: Vec2, dt: real)
    requires dt > 0.0
    ensures Add(from, Scale(DivBy(Sub(to, from), dt), dt)) == to
  {
    DivMul(to.x - from.x, dt);
    DivMul(to.y - from.y, dt);
  }

  lemma ScaleZero(k: real)
    ensures Scale(ZERO2, k) == ZERO2
  {
    assert 0.0 * k == 0.0;
  }

  lemma ScaleScale(v: Vec2, a: real, b: real)
    ensures Scale(Scale(v, a), b) == Scale(v, a * b)
  {
    assert (v.x * a) * b == v.x * (a * b);
    assert (v.y * a) * b == v.y * (a * b);
  }

  /** The x,y part of a translation (`translation.xy()`). */
  function Xy(v: Vec3): Vec2 { Vec2(v.x, v.y) }

  function Add3(a: Vec3, b: Vec3): Vec3 { Vec3(a.x + b.x, a.y + b.y, a.z + b.z) }
  function Scale3(v: Vec3, k: real): Vec3 { Vec3(v.x * k, v.y * k, v.z * k) }

  /** `f32::abs`. */
  function Abs(a: real): (r: real)
    ensures r >= 0.0 && (r == a || r == -a)
  {
    if a < 0.0 then -a else a
  }

  /**
   * The square of a real: never negative, and zero only at zero. The second
   * factor goes through `Id` so that the solver treats the product like any
   * other product of two terms.
   */
  function Sq(a: real): (r: real)
    ensures r >= 0.0
    ensures a != 0.0 ==> r > 0.0
  {
    a * Id(a)
  }

  function Id(a: real): real { a }

  lemma SqMul(a: real, b: real)
    ensures Sq(a * b) == Sq(a) * Sq(b)
  {
  }

  lemma SqNeg(a: real)
    ensures Sq(-a) == Sq(a)
  {
  }

  lemma MulNonNeg(a: real, b: real)
    requires a >= 0.0 && b >= 0.0
    ensures a * b >= 0.0
  {
  }

  lemma MulPos(a: real, b: real)
    requires a > 0.0 && b > 0.0
    ensures a * b > 0.0
  {
  }

  lemma MulLe(a: real, b: real, t: real)
    requires a <= b && t > 0.0
    ensures a * t <= b * t
  {
    MulNonNeg(b - a, t);
  }

  lemma MulLt(a: real, b: real, t: real)
    requires a < b && t > 0.0
    ensures a * t < b * t
  {
    MulPos(b - a, t);
  }

  lemma DivMul(a: real, t: real)
    requires t > 0.0
    ensures (a / t) * t == a
  {
  }

  lemma InvMul(a: real, t: real)
    requires t > 0.0
    ensures (1.0 / t) * a == a / t
  {
  }

  /** k <= a/t gives k*t <= a for positive t. */
  lemma DivLe(a: real, k: real, t: real)
    requires t > 0.0 && k <= a / t
    ensures k * t <= a
  {
    MulLe(k, a / t, t);
    DivMul(a, t);
  }

  /** a/t < k gives a < k*t for positive t. */
  lemma DivLt(a: real, k: real, t: real)
    requires t > 0.0 && a / t < k
    ensures a < k * t
  {
    MulLt(a / t, k, t);
    DivMul(a, t);
  }

  /** k*t <= a gives k <= a/t for positive t. */
  lemma LeDiv(a: real, k: real, t: real)
    requires t > 0.0 && k * t <= a
    ensures k <= a / t
  {
    if k > a / t {
      MulLt(a / t, k, t);
      DivMul(a, t);
    }
  }

  /** a < k*t gives a/t < k for positive t. */
  lemma LtDiv(a: real, k: real, t: real)
    requires t > 0.0 && a < k * t
    ensures a / t < k
  {
    if a / t >= k {
      MulLe(k, a / t, t);
      DivMul(a, t);
    }
  }

  /** a <= k*t gives a/t <= k for positive t. */
  lemma DivLeOfMul(a: real, k: real, t: real)
    requires t > 0.0 && a <= k * t
    ensures a / t <= k
  {
    if a / t > k {
      MulLt(k, a / t, t);
      DivMul(a, t);
    }
  }

  /** Squaring is monotone on the non-negative reals. */
  lemma SqMono(a: real, b: real)
    requires a >= b >= 0.0
    ensures Sq(a) >= Sq(b)
  {
    MulNonNeg(a - b, a + b);
    assert Sq(a) - Sq(b) == (a - b) * (a + b);
  }

  lemma SqMonoStrict(a: real, b: real)
    requires a > b >= 0.0
    ensures Sq(a) > Sq(b)
  {
    SqMono(a, b);
    if Sq(a) == Sq(b) {
      MulPos(a - b, a + b);
    }
  }

  /** |a| < b follows from a^2 < b^2 when b is non-negative. */
  lemma SqLessAbs(a: real, b: real)
    requires b >= 0.0 && Sq(a) < Sq(b)
    ensures -b < a < b
  {
    if a >= b {
      SqMono(a, b);
    } else if a <= -b {
      SqMono(-a, b);
      SqNeg(a);
    }
  }

  function LengthSquared(v: Vec2): real { Sq(v.x) + Sq(v.y) }
  function DistanceSquared(a: Vec2, b: Vec2): real { LengthSquared(Sub(a, b)) }

  lemma LengthSquaredZero(v: Vec2)
    ensures LengthSquared(v) >= 0.0
    ensures LengthSquared(v) == 0.0 <==> v == ZERO2
  {
  }

  lemma LengthSquaredScale(v: Vec2, k: real)
    ensures LengthSquared(Scale(v, k)) == Sq(k) * LengthSquared(v)
  {
    SqMul(v.x, k);
    SqMul(v.y, k);
  }

  /** Scaling a vector of length `l` by `k` gives squared length `(k*l)^2`. */
  lemma LengthSquaredScaleOf(v: Vec2, k: real, l: real)
    requires Sq(l) == LengthSquared(v)
    ensures LengthSquared(Scale(v, k)) == Sq(k * l)
  {
    LengthSquaredScale(v, k);
    SqMul(k, l);
  }

  /** `l` is the Euclidean length of `v`: the non-negative root of its squared length. */
  ghost predicate IsLengthOf(l: real, v: Vec2) {
    l >= 0.0 && Sq(l) == LengthSquared(v)
  }

  /** `length` computes Euclidean lengths (the engine's `Vec2::length`). */
  ghost predicate IsLength(length: Vec2 -> real) {
    forall v: Vec2 :: IsLengthOf(length(v), v)
  }

  lemma LengthZero(l: real, v: Vec2)
    requires IsLengthOf(l, v)
    ensures l == 0.0 <==> v == ZERO2
  {
  }

  /** `f32::clamp`: the value limited to [lo, hi]. */
  function Clamp(v: real, lo: real, hi: real): (r: real)
    requires lo <= hi
    ensures lo <= r <= hi
    ensures lo <= v <= hi ==> r == v
    ensures v < lo ==> r == lo
    ensures v > hi ==> r == hi
  {
    if v < lo then lo else if v > hi then hi else v
  }

  /** The clamped value is the nearest point of [lo, hi] to `v`. */
  lemma ClampNearest(v: real, lo: real, hi: real, q: real)
    requires lo <= q <= hi
    ensures Sq(v - q) >= Sq(v - Clamp(v, lo, hi))
  {
    var c := Clamp(v, lo, hi);
    if v < lo {
      SqMono(q - v, c - v);
      SqNeg(q - v);
      SqNeg(c - v);
    } else if v > hi {
      SqMono(v - q, v - c);
    }
  }

  /** `f32::ceil` on the reals. */
  function Ceil(r: real): (c: int)
    ensures c as real - 1.0 < r <= c as real
  {
    -((-r).Floor)
  }

  /** Dividing a non-zero vector by its length gives a vector of length one. */
  lemma ScaleByInverseLength(v: Vec2, length: real)
    requires IsLengthOf(length, v) && length > 0.0
    ensures LengthSquared(Scale(v, 1.0 / length)) == 1.0
  {
    LengthSquaredScaleOf(v, 1.0 / length, length);
    assert (1.0 / length) * length == 1.0;
  }

  /**
   * `Vec2::normalize_or_zero`, given the vector's length: the unit vector in
   * the direction of `v`, or zero when `v` is zero.
   */
  function NormalizeOrZero(v: Vec2, length: real): (r: Vec2)
    requires IsLengthOf(length, v)
    ensures r == ZERO2 <==> v == ZERO2
    ensures v != ZERO2 ==> LengthSquared(r) == 1.0
    ensures v != ZERO2 ==> exists k: real :: k > 0.0 && r == Scale(v, k)
  {
    LengthZero(length, v);
    if length > 0.0 then
      ScaleByInverseLength(v, length);
      LengthSquaredZero(Scale(v, 1.0 / length));
      Scale(v, 1.0 / length)
    else ZERO2
  }

  /** `direction.normalize() * speed * dt`: the step of a body moving at `speed` for `dt`. */
  function Displacement(direction: Vec2, len: real, speed: real, dt: real): Vec2
    requires IsLengthOf(len, direction)
  {
    Scale(Scale(NormalizeOrZero(direction, len), speed), dt)
  }

  /** A step towards a direction covers `speed * dt`. */
  lemma DisplacementLength(direction: Vec2, len: real, speed: real, dt: real)
    requires IsLengthOf(len, direction) && direction != ZERO2
    ensures LengthSquared(Displacement(direction, len, speed, dt)) == Sq(speed * dt)
  {
    var n := NormalizeOrZero(direction, len);
    ScaleScale(n, speed, dt);
    assert Sq(1.0) == 1.0;
    LengthSquaredScaleOf(n, speed * dt, 1.0);
    assert speed * dt * 1.0 == speed * dt;
  }
}
