/** Eight-component tuples (src/vectors/vec8d.rs): the state of a ray in
    spacetime, a position (t, x, y, z) or (t, r, θ, φ) followed by its
    derivative with respect to the affine parameter. */
module Vec8D {
  import opened Constants
  import opened Elementary
  import Vec3D
  import Vec4D
  import Tensor3D

  datatype Vec8 = Vec8(a: real, b: real, c: real, d: real, e: real, f: real, g: real, h: real) {
    // Shared by both readings.
    function t(): real { a }
    function dt(): real { e }
    // `SphericalState4D`.
    function r(): real { b }
    function theta(): real { c }
    function phi(): real { d }
    function dr(): real { f }
    function dtheta(): real { g }
    function dphi(): real { h }
    // `CartesianState4D`.
    function x(): real { b }
    function y(): real { c }
    function z(): real { d }
    function dx(): real { f }
    function dy(): real { g }
    function dz(): real { h }
  }

  const Zero: Vec8 := Vec8(0.0, 0.0, 0.0, 0.0, 0.0, 0.0, 0.0, 0.0)

  /** `unpack`: the eight fields in order; rebuilding from them gives the tuple back. */
  function Unpack(p: Vec8): (u: (real, real, real, real, real, real, real, real))
    ensures Vec8(u.0, u.1, u.2, u.3, u.4, u.5, u.6, u.7) == p
  {
    (p.a, p.b, p.c, p.d, p.e, p.f, p.g, p.h)
  }

  function Add(p: Vec8, q: Vec8): Vec8
  {
    Vec8(p.a + q.a, p.b + q.b, p.c + q.c, p.d + q.d, p.e + q.e, p.f + q.f, p.g + q.g, p.h + q.h)
  }

  function Sub(p: Vec8, q: Vec8): Vec8
  {
    Vec8(p.a - q.a, p.b - q.b, p.c - q.c, p.d - q.d, p.e - q.e, p.f - q.f, p.g - q.g, p.h - q.h)
  }

  /** Component-wise product (`Mul<Self>`). */
  function Mul(p: Vec8, q: Vec8): Vec8
  {
    Vec8(p.a * q.a, p.b * q.b, p.c * q.c, p.d * q.d, p.e * q.e, p.f * q.f, p.g * q.g, p.h * q.h)
  }

  /** Product with a scalar (`Mul<T>`). */
  function Scale(p: Vec8, k: real): Vec8
  {
    Vec8(p.a * k, p.b * k, p.c * k, p.d * k, p.e * k, p.f * k, p.g * k, p.h * k)
  }

  /** The divisors a component-wise division really uses. */
  function Clamped(q: Vec8): Vec8
  {
    Vec8(AtLeastEpsilon(q.a), AtLeastEpsilon(q.b), AtLeastEpsilon(q.c), AtLeastEpsilon(q.d),
         AtLeastEpsilon(q.e), AtLeastEpsilon(q.f), AtLeastEpsilon(q.g), AtLeastEpsilon(q.h))
  }

  /** Component-wise division (`Div<Self>`), each divisor component clamped
      to at least DIV_EPSILON on its own. */
  function Div(p: Vec8, q: Vec8): (r: Vec8)
    ensures Mul(r, Clamped(q)) == p
  {
    Vec8(p.a / AtLeastEpsilon(q.a), p.b / AtLeastEpsilon(q.b), p.c / AtLeastEpsilon(q.c), p.d / AtLeastEpsilon(q.d),
         p.e / AtLeastEpsilon(q.e), p.f / AtLeastEpsilon(q.f), p.g / AtLeastEpsilon(q.g), p.h / AtLeastEpsilon(q.h))
  }

  /** Division by a scalar (`Div<T>`), the divisor clamped once. */
  function DivScalar(p: Vec8, k: real): (r: Vec8)
    ensures Scale(r, AtLeastEpsilon(k)) == p
  {
    var v := AtLeastEpsilon(k);
    Vec8(p.a / v, p.b / v, p.c / v, p.d / v, p.e / v, p.f / v, p.g / v, p.h / v)
  }

  /** `magnitude`: the Euclidean length over all eight components. */
  function Magnitude(m: Funcs, p: Vec8): real
  {
    m.sqrt(p.a * p.a + p.b * p.b + p.c * p.c + p.d * p.d + p.e * p.e + p.f * p.f + p.g * p.g + p.h * p.h)
  }

  /** `position`: the four coordinates, the velocities dropped. The same
      function serves `SphericalState4D` and `CartesianState4D`. */
  function Position(p: Vec8): (q: Vec4D.Vec4)
    ensures Vec8(q.t(), q.b, q.c, q.d, p.dt(), p.f, p.g, p.h) == p
  {
    Vec4D.Vec4(p.a, p.b, p.c, p.d)
  }

  /** `SphericalState4D::to_cartesian`: the position by the usual formulas
      and the velocity by the chain rule; t and dt are carried over. */
  function ToCartesian(m: Funcs, s: Vec8): Vec8
  {
    var sinTheta, cosTheta := m.sin(s.theta()), m.cos(s.theta());
    var sinPhi, cosPhi := m.sin(s.phi()), m.cos(s.phi());
    var sinThetaCosPhi := sinTheta * cosPhi;
    var r := s.r();
    var v := CartesianVelocity(r, s.dr(), s.dtheta(), s.dphi(), sinTheta, cosTheta, sinPhi, cosPhi);
    Vec8(s.t(),
         r * sinThetaCosPhi,
         r * sinTheta * sinPhi,
         r * cosTheta,
         s.dt(),
         v.x(), v.y(), v.z())
  }

  /** The chain rule behind the velocity half of `to_cartesian`: the rates
      (dr, dθ, dφ) at radius r and at angles with the given sines and
      cosines, as (dx, dy, dz). */
  function CartesianVelocity(r: real, dr: real, dtheta: real, dphi: real,
                             sinTheta: real, cosTheta: real, sinPhi: real, cosPhi: real): Vec3D.Vec3
  {
    var sinThetaCosPhi := sinTheta * cosPhi;
    var sinThetaSinPhi := sinTheta * sinPhi;
    Vec3D.Vec3(dr * sinThetaCosPhi + r * dtheta * cosTheta * cosPhi - r * dphi * sinThetaSinPhi,
               dr * sinThetaSinPhi + r * dtheta * cosTheta * sinPhi + r * dphi * sinThetaCosPhi,
               dr * cosTheta - r * dtheta * sinTheta)
  }

  /** The spatial coordinates (x, y, z), or (r, θ, φ), of a state. */
  function Spatial(p: Vec8): (q: Vec3D.Vec3)
    ensures q == Vec3D.Vec3(p.x(), p.y(), p.z())
  {
    Vec3D.Vec3(p.b, p.c, p.d)
  }

  /** The spatial velocity (dx, dy, dz), or (dr, dθ, dφ), of a state. */
  function Velocity(p: Vec8): (v: Vec3D.Vec3)
    ensures v == Vec3D.Vec3(p.dx(), p.dy(), p.dz())
  {
    Vec3D.Vec3(p.f, p.g, p.h)
  }

  /** x² + y², the squared distance from the z-axis. */
  function AxialSquare(pos: Vec3D.Vec3): real
  {
    pos.x() * pos.x() + pos.y() * pos.y()
  }

  /** dr is a radial rate at radius r: 0 when r is at most DIV_EPSILON,
      otherwise the solution of r·dr = position · velocity. */
  ghost predicate RadialSolves(dr: real, r: real, pos: Vec3D.Vec3, vel: Vec3D.Vec3)
  {
    (r <= DIV_EPSILON ==> dr == 0.0) && (r > DIV_EPSILON ==> dr * r == Tensor3D.Dot(pos, vel))
  }

  /** dθ is a polar rate at radii r and ρ: 0 unless both exceed
      DIV_EPSILON, otherwise the solution of r²ρ·dθ = z(x·dx + y·dy) − ρ²·dz. */
  ghost predicate PolarSolves(dtheta: real, r: real, rho: real, pos: Vec3D.Vec3, vel: Vec3D.Vec3)
  {
    (r <= DIV_EPSILON || rho <= DIV_EPSILON ==> dtheta == 0.0) &&
    (r > DIV_EPSILON && rho > DIV_EPSILON ==> dtheta * (r * r * rho) == PolarNumerator(pos, vel))
  }

  /** dφ is an azimuthal rate: 0 when ρ² is at most DIV_EPSILON, otherwise
      the solution of ρ²·dφ = x·dy − y·dx, the z-component of
      position × velocity. */
  ghost predicate AzimuthalSolves(dphi: real, pos: Vec3D.Vec3, vel: Vec3D.Vec3)
  {
    (AxialSquare(pos) <= DIV_EPSILON ==> dphi == 0.0) &&
    (AxialSquare(pos) > DIV_EPSILON ==> dphi * AxialSquare(pos) == Tensor3D.Cross(pos, vel).z())
  }

  /** dr/dλ = (x·dx + y·dy + z·dz) / r, or 0 when r is at most DIV_EPSILON. */
  function RadialRate(pos: Vec3D.Vec3, vel: Vec3D.Vec3, r: real): (dr: real)
    ensures RadialSolves(dr, r, pos, vel)
  {
    if r > DIV_EPSILON then
      var d := pos.x() * vel.x() + pos.y() * vel.y() + pos.z() * vel.z();
      assert (d / r) * r == d;
      d / r
    else 0.0
  }

  /** z·(x·dx + y·dy) − ρ²·dz: r²ρ times the polar rate. */
  function PolarNumerator(pos: Vec3D.Vec3, vel: Vec3D.Vec3): real
  {
    pos.z() * (pos.x() * vel.x() + pos.y() * vel.y()) - AxialSquare(pos) * vel.z()
  }

  /** dθ/dλ = (z·(x·dx + y·dy) − ρ²·dz) / (r²·ρ), or 0 unless both r and ρ
      exceed DIV_EPSILON. */
  function PolarRate(pos: Vec3D.Vec3, vel: Vec3D.Vec3, r: real, rho: real): (dtheta: real)
    ensures PolarSolves(dtheta, r, rho, pos, vel)
  {
    if r > DIV_EPSILON && rho > DIV_EPSILON then
      var denominator := r * r * rho;
      assert denominator > 0.0 by { ProductPositive(r, r); ProductPositive(r * r, rho); }
      var n := PolarNumerator(pos, vel);
      assert (n / denominator) * denominator == n;
      n / denominator
    else 0.0
  }

  /** dφ/dλ = (x·dy − y·dx) / ρ², or 0 when ρ² is at most DIV_EPSILON. */
  function AzimuthalRate(pos: Vec3D.Vec3, vel: Vec3D.Vec3): (dphi: real)
    ensures AzimuthalSolves(dphi, pos, vel)
  {
    var rhoSq := AxialSquare(pos);
    if rhoSq > DIV_EPSILON then
      var n := pos.x() * vel.y() - pos.y() * vel.x();
      assert (n / rhoSq) * rhoSq == n;
      n / rhoSq
    else 0.0
  }

  /** `CartesianState4D::to_spherical`: r is the spatial distance
      sqrt(x² + y² + z²) (t is not counted), θ is 0 at the origin, and each
      rate is 0 wherever its divisor would be at most DIV_EPSILON. */
  function ToSpherical(m: Funcs, p: Vec8): Vec8
  {
    var pos, vel := Spatial(p), Velocity(p);
    var r := Vec3D.Magnitude(m, pos);
    var rho := m.sqrt(AxialSquare(pos));
    Vec8(p.t(), r, PolarAngle(m, pos.z(), r), m.atan2(pos.y(), pos.x()),
         p.dt(), RadialRate(pos, vel, r), PolarRate(pos, vel, r, rho), AzimuthalRate(pos, vel))
  }

  // ---------------------------------------------------------------------
  // Operators

  /** Addition and subtraction act on all eight fields: (s + k) − k = s. */
  lemma AddSubInverse(p: Vec8, q: Vec8)
    ensures Sub(Add(p, q), q) == p
    ensures Add(Sub(p, q), q) == p
  {
  }

  /** Scalar division undoes scaling whenever the divisor is not clamped. */
  lemma ScaleDivScalarInverse(p: Vec8, k: real)
    requires k >= DIV_EPSILON
    ensures DivScalar(Scale(p, k), k) == p
  {
  }

  /** Any divisor at or below DIV_EPSILON, zero and negatives included,
      divides like DIV_EPSILON itself. */
  lemma DivScalarBelowEpsilon(p: Vec8, k: real)
    requires k <= DIV_EPSILON
    ensures DivScalar(p, k) == Scale(p, 1.0 / DIV_EPSILON)
  {
  }

  /** Component-wise division undoes component-wise multiplication when no
      divisor component is clamped, and clamps each component alone. */
  lemma DivClampsEachComponent(p: Vec8, q: Vec8)
    ensures Clamped(q) == q ==> Div(Mul(p, q), q) == p
    ensures Div(p, q) == Div(p, Clamped(q))
  {
    DivOfClamped(p, q);
    if Clamped(q) == q {
      MulDivInverse(p, q);
    }
  }

  /** Clamping the divisor first changes nothing: the division clamps it
      anyway, component by component. */
  lemma DivOfClamped(p: Vec8, q: Vec8)
    ensures Div(p, q) == Div(p, Clamped(q))
  {
    ClampIdempotent(q.a);
    ClampIdempotent(q.b);
    ClampIdempotent(q.c);
    ClampIdempotent(q.d);
    ClampIdempotent(q.e);
    ClampIdempotent(q.f);
    ClampIdempotent(q.g);
    ClampIdempotent(q.h);
  }

  /** Dividing by divisors the clamp leaves alone undoes multiplying by
      them. */
  lemma MulDivInverse(p: Vec8, q: Vec8)
    requires Clamped(q) == q
    ensures Div(Mul(p, q), q) == p
  {
    var r := Div(Mul(p, q), q);
    assert r.a == p.a by { DivUndoesMul(p.a, q.a); }
    assert r.b == p.b by { DivUndoesMul(p.b, q.b); }
    assert r.c == p.c by { DivUndoesMul(p.c, q.c); }
    assert r.d == p.d by { DivUndoesMul(p.d, q.d); }
    assert r.e == p.e by { DivUndoesMul(p.e, q.e); }
    assert r.f == p.f by { DivUndoesMul(p.f, q.f); }
    assert r.g == p.g by { DivUndoesMul(p.g, q.g); }
    assert r.h == p.h by { DivUndoesMul(p.h, q.h); }
  }

  /** The length is non-negative and vanishes exactly at the all-zero tuple. */
  lemma MagnitudeZeroIff(m: Funcs, p: Vec8)
    requires SqrtLaws(m)
    ensures 0.0 <= Magnitude(m, p)
    ensures Magnitude(m, p) == 0.0 <==> p == Zero
  {
    var sum := p.a * p.a + p.b * p.b + p.c * p.c + p.d * p.d + p.e * p.e + p.f * p.f + p.g * p.g + p.h * p.h;
    assert 0.0 <= sum;
    assert 0.0 < m.sqrt(sum) <==> 0.0 < sum;
  }

  // ---------------------------------------------------------------------
  // Coordinates

  /** Spherical to Cartesian carries t and dt over, and its position part is
      exactly the four-component conversion of the spherical position. */
  lemma ToCartesianPosition(m: Funcs, s: Vec8)
    ensures ToCartesian(m, s).t() == s.t() && ToCartesian(m, s).dt() == s.dt()
    ensures Position(ToCartesian(m, s)) == Vec4D.ToCartesian(m, Position(s))
  {
    var c, c4 := ToCartesian(m, s), Vec4D.ToCartesian(m, Position(s));
    assert c.x() == c4.x() by {
      var sinTheta, cosPhi := m.sin(s.theta()), m.cos(s.phi());
      assert s.r() * (sinTheta * cosPhi) == (s.r() * sinTheta) * cosPhi;
    }
    assert c.y() == c4.y();
    assert c.z() == c4.z();
  }

  /** The velocity conversion is linear in (dr, dθ, dφ): a state with no
      spatial velocity converts to one with no spatial velocity, and scaling
      the spatial velocity scales the Cartesian one. */
  lemma ToCartesianVelocityLinear(m: Funcs, s: Vec8, k: real)
    ensures s.dr() == 0.0 && s.dtheta() == 0.0 && s.dphi() == 0.0 ==>
              ToCartesian(m, s).dx() == 0.0 && ToCartesian(m, s).dy() == 0.0 && ToCartesian(m, s).dz() == 0.0
    ensures var c, c' := ToCartesian(m, s), ToCartesian(m, ScaleRates(s, k));
            c'.dx() == c.dx() * k && c'.dy() == c.dy() * k && c'.dz() == c.dz() * k
  {
    VelocityScales(m, s, k);
    if s.dr() == 0.0 && s.dtheta() == 0.0 && s.dphi() == 0.0 {
      assert ScaleRates(s, 0.0) == s;
      VelocityScales(m, s, 0.0);
    }
  }

  /** The state with its spatial rates (dr, dθ, dφ) multiplied by k. */
  function ScaleRates(s: Vec8, k: real): (s': Vec8)
    ensures Position(s') == Position(s) && s'.dt() == s.dt()
    ensures s'.dr() == s.dr() * k && s'.dtheta() == s.dtheta() * k && s'.dphi() == s.dphi() * k
  {
    s.(f := s.f * k, g := s.g * k, h := s.h * k)
  }

  lemma VelocityScales(m: Funcs, s: Vec8, k: real)
    ensures var c, c' := ToCartesian(m, s), ToCartesian(m, ScaleRates(s, k));
            c'.dx() == c.dx() * k && c'.dy() == c.dy() * k && c'.dz() == c.dz() * k
  {
    var s' := ScaleRates(s, k);
    assert s'.r() == s.r() && s'.theta() == s.theta() && s'.phi() == s.phi();
    var sinTheta, cosTheta := m.sin(s.theta()), m.cos(s.theta());
    var sinPhi, cosPhi := m.sin(s.phi()), m.cos(s.phi());
    CartesianVelocityLinear(s.r(), s.dr(), s.dtheta(), s.dphi(), sinTheta, cosTheta, sinPhi, cosPhi, k);
  }

  /** The chain rule is linear in the rates: scaling (dr, dθ, dφ) by k
      scales (dx, dy, dz) by k. */
  lemma CartesianVelocityLinear(r: real, dr: real, dtheta: real, dphi: real,
                                sinTheta: real, cosTheta: real, sinPhi: real, cosPhi: real, k: real)
    ensures CartesianVelocity(r, dr * k, dtheta * k, dphi * k, sinTheta, cosTheta, sinPhi, cosPhi)
            == Vec3D.Scale(CartesianVelocity(r, dr, dtheta, dphi, sinTheta, cosTheta, sinPhi, cosPhi), k)
  {
    var stcp, stsp := sinTheta * cosPhi, sinTheta * sinPhi;
    assert (dr * k) * stcp == (dr * stcp) * k && (dr * k) * stsp == (dr * stsp) * k;
    assert (dr * k) * cosTheta == (dr * cosTheta) * k;
    assert r * (dtheta * k) * cosTheta * cosPhi == (r * dtheta * cosTheta * cosPhi) * k;
    assert r * (dtheta * k) * cosTheta * sinPhi == (r * dtheta * cosTheta * sinPhi) * k;
    assert r * (dtheta * k) * sinTheta == (r * dtheta * sinTheta) * k;
    assert r * (dphi * k) * stsp == (r * dphi * stsp) * k && r * (dphi * k) * stcp == (r * dphi * stcp) * k;
  }

  /** Cartesian to spherical carries t and dt over, yields r >= 0 (0 only on
      the time axis, where θ = 0), and its position is the four-component
      conversion with the spatial radius, not the one with t counted. */
  lemma ToSphericalPosition(m: Funcs, p: Vec8)
    requires SqrtLaws(m)
    ensures ToSpherical(m, p).t() == p.t() && ToSpherical(m, p).dt() == p.dt()
    ensures ToSpherical(m, p).r() >= 0.0
    ensures ToSpherical(m, p).r() == 0.0 <==> p.x() == 0.0 && p.y() == 0.0 && p.z() == 0.0
    ensures ToSpherical(m, p).r() == 0.0 ==> ToSpherical(m, p).theta() == 0.0
    ensures Position(ToSpherical(m, p)) == Vec4D.ToSphericalSpatial(m, Position(p))
  {
    var pos := Spatial(p);
    var r := Vec3D.Magnitude(m, pos);
    Vec3D.MagnitudeZeroIff(m, pos);
    assert ToSpherical(m, p).r() == r && ToSpherical(m, p).theta() == PolarAngle(m, pos.z(), r);
    assert Vec4D.ToSphericalSpatial(m, Position(p)) == Vec4D.SphericalWithRadius(m, Position(p), r);
  }

  /** The converted dr is 0 when r is at most DIV_EPSILON and otherwise
      solves r·dr = position · velocity. */
  lemma ToSphericalRadialRate(m: Funcs, p: Vec8)
    ensures RadialSolves(ToSpherical(m, p).dr(), ToSpherical(m, p).r(), Spatial(p), Velocity(p))
  {
    var s, pos, vel := ToSpherical(m, p), Spatial(p), Velocity(p);
    assert s.r() == Vec3D.Magnitude(m, pos) && s.dr() == RadialRate(pos, vel, s.r());
  }

  /** The converted dθ is 0 unless r and ρ = sqrt(x² + y²) both exceed
      DIV_EPSILON, and then solves r²ρ·dθ = z(x·dx + y·dy) − ρ²·dz. */
  lemma ToSphericalPolarRate(m: Funcs, p: Vec8)
    ensures PolarSolves(ToSpherical(m, p).dtheta(), ToSpherical(m, p).r(), m.sqrt(AxialSquare(Spatial(p))),
                        Spatial(p), Velocity(p))
  {
    var s, pos, vel := ToSpherical(m, p), Spatial(p), Velocity(p);
    var rho := m.sqrt(AxialSquare(pos));
    assert s.r() == Vec3D.Magnitude(m, pos) && s.dtheta() == PolarRate(pos, vel, s.r(), rho);
  }

  /** The converted dφ is 0 when ρ² is at most DIV_EPSILON and otherwise
      solves ρ²·dφ = x·dy − y·dx, the z-component of position × velocity. */
  lemma ToSphericalAzimuthalRate(m: Funcs, p: Vec8)
    ensures AzimuthalSolves(ToSpherical(m, p).dphi(), Spatial(p), Velocity(p))
  {
    assert ToSpherical(m, p).dphi() == AzimuthalRate(Spatial(p), Velocity(p));
  }

  /** On the z-axis (x = y = 0) the polar and azimuthal rates are both 0. */
  lemma ToSphericalOnAxis(m: Funcs, p: Vec8)
    requires SqrtLaws(m)
    requires p.x() == 0.0 && p.y() == 0.0
    ensures ToSpherical(m, p).dtheta() == 0.0 && ToSpherical(m, p).dphi() == 0.0
  {
    assert AxialSquare(Spatial(p)) == 0.0;
    assert m.sqrt(0.0) * m.sqrt(0.0) == 0.0;
    ProductZero(m.sqrt(0.0), m.sqrt(0.0));
  }
}
