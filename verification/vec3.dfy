/** Three-component tuples: the Cartesian position (x, y, z) and the spherical
    position (r, θ, φ). src/vectors/vec3d.rs and src/tensors/tensor3d.rs define
    the same operators and conversions twice; this module states them once,
    and Tensor3D adds what only tensor3d.rs has. */
module Vec3D {
  import opened Constants
  import opened Elementary

  datatype Vec3 = Vec3(a: real, b: real, c: real) {
    function x(): real { a }
    function y(): real { b }
    function z(): real { c }
    function r(): real { a }
    function theta(): real { b }
    function phi(): real { c }
  }

  const Zero: Vec3 := Vec3(0.0, 0.0, 0.0)

  /** `unpack`: the three fields in order; rebuilding from them gives the tuple back. */
  function Unpack(p: Vec3): (t: (real, real, real))
    ensures Vec3(t.0, t.1, t.2) == p
  {
    (p.a, p.b, p.c)
  }

  function Add(p: Vec3, q: Vec3): Vec3
  {
    Vec3(p.a + q.a, p.b + q.b, p.c + q.c)
  }

  function Sub(p: Vec3, q: Vec3): Vec3
  {
    Vec3(p.a - q.a, p.b - q.b, p.c - q.c)
  }

  /** Component-wise product (`Mul<Self>`). */
  function Mul(p: Vec3, q: Vec3): Vec3
  {
    Vec3(p.a * q.a, p.b * q.b, p.c * q.c)
  }

  /** Product with a scalar (`Mul<f64>`). */
  function Scale(p: Vec3, k: real): Vec3
  {
    Vec3(p.a * k, p.b * k, p.c * k)
  }

  /** The divisors a component-wise division really uses. */
  function Clamped(q: Vec3): Vec3
  {
    Vec3(AtLeastEpsilon(q.a), AtLeastEpsilon(q.b), AtLeastEpsilon(q.c))
  }

  /** Component-wise division (`Div<Self>`): every divisor component is
      clamped to at least DIV_EPSILON on its own, so the quotient multiplied
      back by the clamped divisors is the dividend. */
  function Div(p: Vec3, q: Vec3): (r: Vec3)
    ensures Mul(r, Clamped(q)) == p
  {
    Vec3(p.a / AtLeastEpsilon(q.a), p.b / AtLeastEpsilon(q.b), p.c / AtLeastEpsilon(q.c))
  }

  /** Division by a scalar (`Div<f64>`): the divisor is clamped once, so the
      quotient scaled back by the clamped divisor is the dividend. */
  function DivScalar(p: Vec3, k: real): (r: Vec3)
    ensures Scale(r, AtLeastEpsilon(k)) == p
  {
    var d := AtLeastEpsilon(k);
    Vec3(p.a / d, p.b / d, p.c / d)
  }

  /** `magnitude` (vec3d.rs) and `norm` (tensor3d.rs): the Euclidean length. */
  function Magnitude(m: Funcs, p: Vec3): real
  {
    Hypot3(m, p.a, p.b, p.c)
  }

  /** `SphericalCoords3D::to_cartesian`. */
  function ToCartesian(m: Funcs, s: Vec3): Vec3
  {
    var rSinTheta := s.r() * m.sin(s.theta());
    Vec3(rSinTheta * m.cos(s.phi()), rSinTheta * m.sin(s.phi()), s.r() * m.cos(s.theta()))
  }

  /** `CartesianCoords3D::to_spherical`: θ is forced to 0 at the origin
      instead of dividing by a zero radius. */
  function ToSpherical(m: Funcs, p: Vec3): Vec3
  {
    var r := Magnitude(m, p);
    Vec3(r, PolarAngle(m, p.z(), r), m.atan2(p.y(), p.x()))
  }

  // ---------------------------------------------------------------------
  // Properties

  /** Addition and subtraction are component-wise inverses. */
  lemma AddSubInverse(p: Vec3, q: Vec3)
    ensures Sub(Add(p, q), q) == p
    ensures Add(Sub(p, q), q) == p
  {
  }

  /** Scalar division undoes scalar multiplication whenever the divisor is
      not clamped. */
  lemma ScaleDivScalarInverse(p: Vec3, k: real)
    requires k >= DIV_EPSILON
    ensures DivScalar(Scale(p, k), k) == p
  {
  }

  /** Component-wise division undoes component-wise multiplication whenever
      no divisor component is clamped. */
  lemma MulDivInverse(p: Vec3, q: Vec3)
    requires q.a >= DIV_EPSILON && q.b >= DIV_EPSILON && q.c >= DIV_EPSILON
    ensures Div(Mul(p, q), q) == p
  {
  }

  /** Each divisor component is clamped on its own: dividing by the clamped
      divisors is the same division. */
  lemma DivClampsEachComponent(p: Vec3, q: Vec3)
    ensures Div(p, q) == Div(p, Clamped(q))
    ensures q.a < DIV_EPSILON <= q.b && DIV_EPSILON <= q.c ==> Div(p, q) == Vec3(p.a / DIV_EPSILON, p.b / q.b, p.c / q.c)
    ensures q.c < DIV_EPSILON <= q.a && DIV_EPSILON <= q.b ==> Div(p, q) == Vec3(p.a / q.a, p.b / q.b, p.c / DIV_EPSILON)
  {
  }

  /** Any divisor at or below DIV_EPSILON, zero and negatives included,
      divides exactly like DIV_EPSILON itself. */
  lemma DivScalarBelowEpsilon(p: Vec3, k: real)
    requires k <= DIV_EPSILON
    ensures DivScalar(p, k) == DivScalar(p, DIV_EPSILON)
    ensures DivScalar(p, k) == Scale(p, 1.0 / DIV_EPSILON)
  {
  }

  /** The length is non-negative and vanishes exactly at the origin. */
  lemma MagnitudeZeroIff(m: Funcs, p: Vec3)
    requires SqrtLaws(m)
    ensures 0.0 <= Magnitude(m, p)
    ensures Magnitude(m, p) == 0.0 <==> p == Zero
  {
    Hypot3ZeroIff(m, p.a, p.b, p.c);
  }

  /** Cartesian to spherical: r is the length (so r >= 0), θ is 0 exactly at
      the origin's branch, and φ is the azimuth of (x, y). */
  lemma ToSphericalRadius(m: Funcs, p: Vec3)
    requires SqrtLaws(m)
    ensures ToSpherical(m, p).r() == Magnitude(m, p) >= 0.0
    ensures p == Zero ==> ToSpherical(m, p).r() == 0.0 && ToSpherical(m, p).theta() == 0.0
    ensures p != Zero ==> ToSpherical(m, p).r() > 0.0
    ensures ToSpherical(m, p).phi() == m.atan2(p.y(), p.x())
  {
    MagnitudeZeroIff(m, p);
  }

  /** A spherical point of radius 0 is the Cartesian origin, whatever its
      angles; in particular the origin survives the round trip. */
  lemma ZeroRadiusIsOrigin(m: Funcs, s: Vec3)
    requires s.r() == 0.0
    ensures ToCartesian(m, s) == Zero
  {
  }

  lemma OriginRoundTrip(m: Funcs)
    requires SqrtLaws(m)
    ensures ToCartesian(m, ToSpherical(m, Zero)) == Zero
  {
    ToSphericalRadius(m, Zero);
    ZeroRadiusIsOrigin(m, ToSpherical(m, Zero));
  }

  /** Spherical to Cartesian is homogeneous in the radius: scaling r scales
      the Cartesian point by the same factor. */
  lemma ToCartesianHomogeneous(m: Funcs, s: Vec3, k: real)
    ensures ToCartesian(m, Vec3(s.r() * k, s.theta(), s.phi())) == Scale(ToCartesian(m, s), k)
  {
    var st, ct, sp, cp := m.sin(s.b), m.cos(s.b), m.sin(s.c), m.cos(s.c);
    assert (s.a * k) * st * cp == (s.a * st * cp) * k;
    assert (s.a * k) * st * sp == (s.a * st * sp) * k;
    assert (s.a * k) * ct == (s.a * ct) * k;
  }
}
