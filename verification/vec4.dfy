/** Four-component tuples (src/vectors/vec4d.rs): a spacetime position,
    Cartesian (t, x, y, z) or spherical (t, r, θ, φ). */
module Vec4D {
  import opened Constants
  import opened Elementary
  import Vec2D

  datatype Vec4 = Vec4(a: real, b: real, c: real, d: real) {
    function t(): real { a }
    function x(): real { b }
    function y(): real { c }
    function z(): real { d }
    function r(): real { b }
    function theta(): real { c }
    function phi(): real { d }
  }

  const Zero: Vec4 := Vec4(0.0, 0.0, 0.0, 0.0)

  /** `unpack`: the four fields in order. */
  function Unpack(p: Vec4): (t: (real, real, real, real))
    ensures Vec4(t.0, t.1, t.2, t.3) == p
  {
    (p.a, p.b, p.c, p.d)
  }

  /** `unpack_xy`: the x and y coordinates, dropping t and z. */
  function UnpackXY(p: Vec4): (xy: (real, real))
    ensures Vec4(p.t(), xy.0, xy.1, p.z()) == p
  {
    (p.x(), p.y())
  }

  function Add(p: Vec4, q: Vec4): Vec4
  {
    Vec4(p.a + q.a, p.b + q.b, p.c + q.c, p.d + q.d)
  }

  function Sub(p: Vec4, q: Vec4): Vec4
  {
    Vec4(p.a - q.a, p.b - q.b, p.c - q.c, p.d - q.d)
  }

  /** Component-wise product (`Mul<Self>`). */
  function Mul(p: Vec4, q: Vec4): Vec4
  {
    Vec4(p.a * q.a, p.b * q.b, p.c * q.c, p.d * q.d)
  }

  /** Product with a scalar (`Mul<T>`). */
  function Scale(p: Vec4, k: real): Vec4
  {
    Vec4(p.a * k, p.b * k, p.c * k, p.d * k)
  }

  /** The divisors a component-wise division really uses. */
  function Clamped(q: Vec4): Vec4
  {
    Vec4(AtLeastEpsilon(q.a), AtLeastEpsilon(q.b), AtLeastEpsilon(q.c), AtLeastEpsilon(q.d))
  }

  /** Component-wise division (`Div<Self>`), each divisor component clamped
      to at least DIV_EPSILON on its own. */
  function Div(p: Vec4, q: Vec4): (r: Vec4)
    ensures Mul(r, Clamped(q)) == p
  {
    Vec4(p.a / AtLeastEpsilon(q.a), p.b / AtLeastEpsilon(q.b), p.c / AtLeastEpsilon(q.c), p.d / AtLeastEpsilon(q.d))
  }

  /** Division by a scalar (`Div<T>`), the divisor clamped once. */
  function DivScalar(p: Vec4, k: real): (r: Vec4)
    ensures Scale(r, AtLeastEpsilon(k)) == p
  {
    var v := AtLeastEpsilon(k);
    Vec4(p.a / v, p.b / v, p.c / v, p.d / v)
  }

  /** `magnitude`: the Euclidean length over all four components, t included. */
  function Magnitude(m: Funcs, p: Vec4): real
  {
    Hypot4(m, p.a, p.b, p.c, p.d)
  }

  /** `Add<CartesianCoords2D>`: shifts x and y by a planar offset. */
  function AddPlanar(p: Vec4, q: Vec2D.Vec2): Vec4
  {
    Vec4(p.t(), p.x() + q.x(), p.y() + q.y(), p.z())
  }

  /** `SphericalCoords4D::to_cartesian`: converts the spatial part and keeps t. */
  function ToCartesian(m: Funcs, s: Vec4): Vec4
  {
    var rSinTheta := s.r() * m.sin(s.theta());
    Vec4(s.t(), rSinTheta * m.cos(s.phi()), rSinTheta * m.sin(s.phi()), s.r() * m.cos(s.theta()))
  }

  /** The spherical coordinates of a Cartesian point, given the radius to use. */
  function SphericalWithRadius(m: Funcs, p: Vec4, r: real): Vec4
  {
    Vec4(p.t(), r, PolarAngle(m, p.z(), r), m.atan2(p.y(), p.x()))
  }

  /** `CartesianCoords4D::to_spherical` as written: the radius is
      `magnitude()`, which sums the square of t along with x, y and z. */
  function ToSpherical(m: Funcs, p: Vec4): Vec4
  {
    SphericalWithRadius(m, p, Magnitude(m, p))
  }

  /** The conversion with the spatial radius sqrt(x² + y² + z²), as
      `CartesianState4D::to_spherical` computes it for the same position. */
  function ToSphericalSpatial(m: Funcs, p: Vec4): Vec4
  {
    SphericalWithRadius(m, p, Hypot3(m, p.x(), p.y(), p.z()))
  }

  // ---------------------------------------------------------------------
  // Operators

  /** Addition and subtraction are component-wise inverses. */
  lemma AddSubInverse(p: Vec4, q: Vec4)
    ensures Sub(Add(p, q), q) == p
    ensures Add(Sub(p, q), q) == p
  {
  }

  /** Scalar division undoes scaling whenever the divisor is not clamped,
      and any divisor at or below DIV_EPSILON divides like DIV_EPSILON. */
  lemma DivScalarClamps(p: Vec4, k: real)
    ensures k >= DIV_EPSILON ==> DivScalar(Scale(p, k), k) == p
    ensures k <= DIV_EPSILON ==> DivScalar(p, k) == Scale(p, 1.0 / DIV_EPSILON)
  {
    if k >= DIV_EPSILON {
      var r := DivScalar(Scale(p, k), k);
      assert AtLeastEpsilon(k) == k;
      assert r.a == p.a by { DivUndoesMul(p.a, k); }
      assert r.b == p.b by { DivUndoesMul(p.b, k); }
      assert r.c == p.c by { DivUndoesMul(p.c, k); }
      assert r.d == p.d by { DivUndoesMul(p.d, k); }
    }
    if k <= DIV_EPSILON {
      assert AtLeastEpsilon(k) == DIV_EPSILON;
    }
  }

  /** Component-wise division undoes component-wise multiplication when no
      divisor component is clamped, and each component is clamped alone. */
  lemma DivClampsEachComponent(p: Vec4, q: Vec4)
    ensures q.a >= DIV_EPSILON && q.b >= DIV_EPSILON && q.c >= DIV_EPSILON && q.d >= DIV_EPSILON
            ==> Div(Mul(p, q), q) == p
    ensures Div(p, q) == Div(p, Clamped(q))
  {
    ClampIdempotent(q.a);
    ClampIdempotent(q.b);
    ClampIdempotent(q.c);
    ClampIdempotent(q.d);
    if q.a >= DIV_EPSILON && q.b >= DIV_EPSILON && q.c >= DIV_EPSILON && q.d >= DIV_EPSILON {
      DivUndoesMul(p.a, q.a);
      DivUndoesMul(p.b, q.b);
      DivUndoesMul(p.c, q.c);
      DivUndoesMul(p.d, q.d);
    }
  }

  /** The planar offset changes x and y only, and adding it then its
      negation gives the point back. */
  lemma AddPlanarOnlyMovesXY(p: Vec4, q: Vec2D.Vec2)
    ensures AddPlanar(p, q).t() == p.t() && AddPlanar(p, q).z() == p.z()
    ensures UnpackXY(AddPlanar(p, q)) == (p.x() + q.x(), p.y() + q.y())
    ensures AddPlanar(AddPlanar(p, q), Vec2D.Scale(q, -1.0)) == p
  {
  }

  // ---------------------------------------------------------------------
  // Coordinates

  /** The length is non-negative and vanishes exactly at the all-zero tuple. */
  lemma MagnitudeZeroIff(m: Funcs, p: Vec4)
    requires SqrtLaws(m)
    ensures 0.0 <= Magnitude(m, p)
    ensures Magnitude(m, p) == 0.0 <==> p == Zero
  {
    Hypot4ZeroIff(m, p.a, p.b, p.c, p.d);
  }

  /** Spherical to Cartesian keeps t, and a point of radius 0 lands on the
      spatial origin. */
  lemma ToCartesianKeepsTime(m: Funcs, s: Vec4)
    ensures ToCartesian(m, s).t() == s.t()
    ensures s.r() == 0.0 ==> ToCartesian(m, s) == Vec4(s.t(), 0.0, 0.0, 0.0)
  {
  }

  /** Cartesian to spherical as written keeps t, takes r as the
      four-component length (so r >= 0, and r = 0 only at the all-zero
      tuple) and then θ = 0. */
  lemma ToSphericalRadius(m: Funcs, p: Vec4)
    requires SqrtLaws(m)
    ensures ToSpherical(m, p).t() == p.t()
    ensures ToSpherical(m, p).r() == Hypot4(m, p.t(), p.x(), p.y(), p.z()) >= 0.0
    ensures ToSpherical(m, p).r() == 0.0 <==> p == Zero
    ensures p == Zero ==> ToSpherical(m, p).theta() == 0.0
    ensures ToSpherical(m, p).phi() == m.atan2(p.y(), p.x())
  {
    MagnitudeZeroIff(m, p);
  }

  /** The corrected conversion keeps t, and its radius is the spatial
      distance: non-negative, and 0 exactly on the time axis, where θ = 0. */
  lemma ToSphericalSpatialRadius(m: Funcs, p: Vec4)
    requires SqrtLaws(m)
    ensures ToSphericalSpatial(m, p).t() == p.t()
    ensures ToSphericalSpatial(m, p).r() >= 0.0
    ensures ToSphericalSpatial(m, p).r() == 0.0 <==> p.x() == 0.0 && p.y() == 0.0 && p.z() == 0.0
    ensures p.x() == 0.0 && p.y() == 0.0 && p.z() == 0.0 ==> ToSphericalSpatial(m, p).theta() == 0.0
  {
    Hypot3ZeroIff(m, p.b, p.c, p.d);
  }

  /** The point (t, x, y, z) = (1, 1, 0, 0) lies at spatial distance 1 from
      the origin, but the conversion as written gives it r = √2. */
  lemma ToSphericalCountsTime(m: Funcs)
    requires SqrtLaws(m)
    ensures ToSpherical(m, Vec4(1.0, 1.0, 0.0, 0.0)).r() != 1.0
    ensures ToSphericalSpatial(m, Vec4(1.0, 1.0, 0.0, 0.0)).r() == 1.0
  {
    assert 0.0 <= 1.0 * 1.0 + 1.0 * 1.0 + 0.0 * 0.0 + 0.0 * 0.0;
    assert 0.0 <= 1.0 * 1.0 + 0.0 * 0.0 + 0.0 * 0.0;
    SqrtUnique(m, 1.0, 1.0);
  }

  /** The two conversions agree exactly when t = 0. */
  lemma ToSphericalAgreesIffTimeZero(m: Funcs, p: Vec4)
    requires SqrtLaws(m)
    ensures ToSpherical(m, p) == ToSphericalSpatial(m, p) <==> p.t() == 0.0
  {
    var full, spatial := Magnitude(m, p), Hypot3(m, p.x(), p.y(), p.z());
    assert 0.0 <= p.a * p.a + p.b * p.b + p.c * p.c + p.d * p.d;
    assert 0.0 <= p.b * p.b + p.c * p.c + p.d * p.d;
    assert full * full == p.a * p.a + p.b * p.b + p.c * p.c + p.d * p.d;
    assert spatial * spatial == p.b * p.b + p.c * p.c + p.d * p.d;
    if p.t() == 0.0 {
      NonNegativeSquareInjective(full, spatial);
    } else {
      RootsDiffer(full, spatial, p.a, p.b * p.b + p.c * p.c + p.d * p.d);
      assert ToSpherical(m, p).r() == full && ToSphericalSpatial(m, p).r() == spatial;
    }
  }
}
