/** Six-component tuples (src/tensors/tensor6d.rs): the state of a ray in
    space without time, a position (x, y, z) or (r, θ, φ) followed by its
    velocity, and its lift to a spacetime state. */
module Vec6D {
  import opened Constants
  import opened Elementary
  import Vec3D
  import Vec8D
  import Tensor3D

  datatype Vec6 = Vec6(a: real, b: real, c: real, d: real, e: real, f: real) {
    // `SphericalState3D`.
    function r(): real { a }
    function theta(): real { b }
    function phi(): real { c }
    function dr(): real { d }
    function dtheta(): real { e }
    function dphi(): real { f }
    // `CartesianState3D`.
    function x(): real { a }
    function y(): real { b }
    function z(): real { c }
    function dx(): real { d }
    function dy(): real { e }
    function dz(): real { f }
  }

  const Zero: Vec6 := Vec6(0.0, 0.0, 0.0, 0.0, 0.0, 0.0)

  /** `unpack`: the six fields in order; rebuilding from them gives the tuple back. */
  function Unpack(p: Vec6): (u: (real, real, real, real, real, real))
    ensures Vec6(u.0, u.1, u.2, u.3, u.4, u.5) == p
  {
    (p.a, p.b, p.c, p.d, p.e, p.f)
  }

  function Add(p: Vec6, q: Vec6): Vec6
  {
    Vec6(p.a + q.a, p.b + q.b, p.c + q.c, p.d + q.d, p.e + q.e, p.f + q.f)
  }

  function Sub(p: Vec6, q: Vec6): Vec6
  {
    Vec6(p.a - q.a, p.b - q.b, p.c - q.c, p.d - q.d, p.e - q.e, p.f - q.f)
  }

  /** Component-wise product (`Mul<Self>`). */
  function Mul(p: Vec6, q: Vec6): Vec6
  {
    Vec6(p.a * q.a, p.b * q.b, p.c * q.c, p.d * q.d, p.e * q.e, p.f * q.f)
  }

  /** Product with a scalar (`Mul<T>`). */
  function Scale(p: Vec6, k: real): Vec6
  {
    Vec6(p.a * k, p.b * k, p.c * k, p.d * k, p.e * k, p.f * k)
  }

  /** The divisors a component-wise division really uses. */
  function Clamped(q: Vec6): Vec6
  {
    Vec6(AtLeastEpsilon(q.a), AtLeastEpsilon(q.b), AtLeastEpsilon(q.c),
         AtLeastEpsilon(q.d), AtLeastEpsilon(q.e), AtLeastEpsilon(q.f))
  }

  /** Component-wise division (`Div<Self>`), each divisor component clamped
      to at least DIV_EPSILON on its own. */
  function Div(p: Vec6, q: Vec6): (r: Vec6)
    ensures Mul(r, Clamped(q)) == p
  {
    Vec6(p.a / AtLeastEpsilon(q.a), p.b / AtLeastEpsilon(q.b), p.c / AtLeastEpsilon(q.c),
         p.d / AtLeastEpsilon(q.d), p.e / AtLeastEpsilon(q.e), p.f / AtLeastEpsilon(q.f))
  }

  /** Division by a scalar (`Div<T>`), the divisor clamped once. */
  function DivScalar(p: Vec6, k: real): (r: Vec6)
    ensures Scale(r, AtLeastEpsilon(k)) == p
  {
    var v := AtLeastEpsilon(k);
    Vec6(p.a / v, p.b / v, p.c / v, p.d / v, p.e / v, p.f / v)
  }

  /** `magnitude`: the Euclidean length over all six components. */
  function Magnitude(m: Funcs, p: Vec6): real
  {
    m.sqrt(p.a * p.a + p.b * p.b + p.c * p.c + p.d * p.d + p.e * p.e + p.f * p.f)
  }

  /** `position`: the three coordinates, the velocity dropped. */
  function Position(p: Vec6): (q: Vec3D.Vec3)
    ensures Vec6(q.a, q.b, q.c, p.d, p.e, p.f) == p
  {
    Vec3D.Vec3(p.a, p.b, p.c)
  }

  /** The velocity (dx, dy, dz), or (dr, dθ, dφ). */
  function Velocity(p: Vec6): (v: Vec3D.Vec3)
    ensures Vec6(p.a, p.b, p.c, v.a, v.b, v.c) == p
  {
    Vec3D.Vec3(p.d, p.e, p.f)
  }

  /** The spacetime state with t = 0 and dt = 0 around a spatial state. */
  function Lift(p: Vec6): (q: Vec8D.Vec8)
    ensures q.t() == 0.0 && q.dt() == 0.0
  {
    Vec8D.Vec8(0.0, p.a, p.b, p.c, 0.0, p.d, p.e, p.f)
  }

  /** The spatial state inside a spacetime state: t and dt dropped. */
  function Drop(q: Vec8D.Vec8): (p: Vec6)
    ensures Lift(p) == Vec8D.Vec8(0.0, q.b, q.c, q.d, 0.0, q.f, q.g, q.h)
  {
    Vec6(q.b, q.c, q.d, q.f, q.g, q.h)
  }

  /** `SphericalState3D::to_cartesian`. Its formulas are, line for line,
      those of `SphericalState4D::to_cartesian` without t and dt, so the
      conversion is that one on the lifted state. */
  function ToCartesian(m: Funcs, s: Vec6): Vec6
  {
    Drop(Vec8D.ToCartesian(m, Lift(s)))
  }

  /** `CartesianState3D::to_spherical`, likewise the spacetime conversion
      without t and dt: r = sqrt(x² + y² + z²), θ = 0 at the origin, and
      every rate 0 where its divisor would be at most DIV_EPSILON. */
  function ToSpherical(m: Funcs, p: Vec6): Vec6
  {
    Drop(Vec8D.ToSpherical(m, Lift(p)))
  }

  /** 1 − rs/r, the factor of the Schwarzschild metric (infinite at r = 0). */
  function MetricFactor(m: Funcs, s: Vec6, rs: real): real
  {
    1.0 - Quot(m, rs, s.r())
  }

  /** `initial_dt`: the dt that makes the state a null (light-like) vector of
      the Schwarzschild metric, sqrt((dr²/f + r²dθ² + r²(sin θ·dφ)²) / f)
      with f = 1 − rs/r. */
  function InitialDt(m: Funcs, s: Vec6, rs: real): real
  {
    var denom := MetricFactor(m, s, rs);
    var r2 := s.r() * s.r();
    var sinThetaDphi := m.sin(s.theta()) * s.dphi();
    var num := Quot(m, 1.0, denom) * (s.dr() * s.dr()) + r2 * (s.dtheta() * s.dtheta()) + r2 * (sinThetaDphi * sinThetaDphi);
    m.sqrt(Quot(m, num, denom))
  }

  /** `to_4d`: the spacetime state at t = 0 with the null dt; dropping t and
      dt again gives the spatial state back. */
  function To4D(m: Funcs, s: Vec6, rs: real): (q: Vec8D.Vec8)
    ensures q.t() == 0.0 && q.dt() == InitialDt(m, s, rs)
    ensures Drop(q) == s
  {
    Vec8D.Vec8(0.0, s.r(), s.theta(), s.phi(), InitialDt(m, s, rs), s.dr(), s.dtheta(), s.dphi())
  }

  // ---------------------------------------------------------------------
  // Operators

  /** Addition and subtraction act on all six fields: (s + k) − k = s. */
  lemma AddSubInverse(p: Vec6, q: Vec6)
    ensures Sub(Add(p, q), q) == p
    ensures Add(Sub(p, q), q) == p
  {
  }

  /** Scalar division undoes scaling whenever the divisor is not clamped. */
  lemma ScaleDivScalarInverse(p: Vec6, k: real)
    requires k >= DIV_EPSILON
    ensures DivScalar(Scale(p, k), k) == p
  {
  }

  /** Any divisor at or below DIV_EPSILON, zero and negatives included,
      divides like DIV_EPSILON itself. */
  lemma DivScalarBelowEpsilon(p: Vec6, k: real)
    requires k <= DIV_EPSILON
    ensures DivScalar(p, k) == Scale(p, 1.0 / DIV_EPSILON)
  {
  }

  /** Component-wise division undoes component-wise multiplication when no
      divisor component is clamped, and clamps each component alone. */
  lemma DivClampsEachComponent(p: Vec6, q: Vec6)
    ensures Clamped(q) == q ==> Div(Mul(p, q), q) == p
    ensures Div(p, q) == Div(p, Clamped(q))
  {
    DivOfClamped(p, q);
    if Clamped(q) == q {
      MulDivInverse(p, q);
    }
  }

  /** Clamping the divisor first changes nothing: the division clamps it
      anyway, component by component. */
  lemma DivOfClamped(p: Vec6, q: Vec6)
    ensures Div(p, q) == Div(p, Clamped(q))
  {
    ClampIdempotent(q.a);
    ClampIdempotent(q.b);
    ClampIdempotent(q.c);
    ClampIdempotent(q.d);
    ClampIdempotent(q.e);
    ClampIdempotent(q.f);
  }

  /** Dividing by divisors the clamp leaves alone undoes multiplying by
      them. */
  lemma MulDivInverse(p: Vec6, q: Vec6)
    requires Clamped(q) == q
    ensures Div(Mul(p, q), q) == p
  {
    DivUndoesMul(p.a, q.a);
    DivUndoesMul(p.b, q.b);
    DivUndoesMul(p.c, q.c);
    DivUndoesMul(p.d, q.d);
    DivUndoesMul(p.e, q.e);
    DivUndoesMul(p.f, q.f);
  }

  /** The length is non-negative and vanishes exactly at the all-zero tuple. */
  lemma MagnitudeZeroIff(m: Funcs, p: Vec6)
    requires SqrtLaws(m)
    ensures 0.0 <= Magnitude(m, p)
    ensures Magnitude(m, p) == 0.0 <==> p == Zero
  {
    var sum := p.a * p.a + p.b * p.b + p.c * p.c + p.d * p.d + p.e * p.e + p.f * p.f;
    assert 0.0 <= sum;
    assert 0.0 < m.sqrt(sum) <==> 0.0 < sum;
  }

  // ---------------------------------------------------------------------
  // Coordinates

  /** Lifting and dropping are inverse on spatial states. */
  lemma DropLift(p: Vec6)
    ensures Drop(Lift(p)) == p
  {
  }

  /** Spherical to Cartesian puts the position where the three-component
      conversion does. */
  lemma ToCartesianPosition(m: Funcs, s: Vec6)
    ensures Position(ToCartesian(m, s)) == Vec3D.ToCartesian(m, Position(s))
  {
    var sinTheta, cosPhi := m.sin(s.theta()), m.cos(s.phi());
    assert s.r() * (sinTheta * cosPhi) == (s.r() * sinTheta) * cosPhi;
  }

  /** Cartesian to spherical: r >= 0, 0 exactly at the origin, where θ = 0,
      and the position is the three-component conversion of the position. */
  lemma ToSphericalPosition(m: Funcs, p: Vec6)
    requires SqrtLaws(m)
    ensures ToSpherical(m, p).r() >= 0.0
    ensures ToSpherical(m, p).r() == 0.0 <==> p.x() == 0.0 && p.y() == 0.0 && p.z() == 0.0
    ensures ToSpherical(m, p).r() == 0.0 ==> ToSpherical(m, p).theta() == 0.0
    ensures Position(ToSpherical(m, p)) == Vec3D.ToSpherical(m, Position(p))
  {
    var pos := Position(p);
    assert Vec8D.Spatial(Lift(p)) == pos;
    var r := Vec3D.Magnitude(m, pos);
    Vec3D.MagnitudeZeroIff(m, pos);
    assert ToSpherical(m, p).r() == r && ToSpherical(m, p).theta() == PolarAngle(m, pos.z(), r);
    assert ToSpherical(m, p).phi() == m.atan2(pos.y(), pos.x());
  }

  /** The converted dr is 0 when r is at most DIV_EPSILON and otherwise
      solves r·dr = position · velocity. */
  lemma ToSphericalRadialRate(m: Funcs, p: Vec6)
    ensures Vec8D.RadialSolves(ToSpherical(m, p).dr(), ToSpherical(m, p).r(), Position(p), Velocity(p))
  {
    var q := Vec8D.ToSpherical(m, Lift(p));
    Vec8D.ToSphericalRadialRate(m, Lift(p));
    assert Vec8D.Spatial(Lift(p)) == Position(p) && Vec8D.Velocity(Lift(p)) == Velocity(p);
    assert ToSpherical(m, p).r() == q.r() && ToSpherical(m, p).dr() == q.dr();
  }

  /** The converted dθ is 0 unless r and ρ = sqrt(x² + y²) both exceed
      DIV_EPSILON, and then solves r²ρ·dθ = z(x·dx + y·dy) − ρ²·dz. */
  lemma ToSphericalPolarRate(m: Funcs, p: Vec6)
    ensures Vec8D.PolarSolves(ToSpherical(m, p).dtheta(), ToSpherical(m, p).r(),
                              m.sqrt(Vec8D.AxialSquare(Position(p))), Position(p), Velocity(p))
  {
    var q := Vec8D.ToSpherical(m, Lift(p));
    Vec8D.ToSphericalPolarRate(m, Lift(p));
    assert Vec8D.Spatial(Lift(p)) == Position(p) && Vec8D.Velocity(Lift(p)) == Velocity(p);
    assert ToSpherical(m, p).r() == q.r() && ToSpherical(m, p).dtheta() == q.dtheta();
  }

  /** The converted dφ is 0 when ρ² is at most DIV_EPSILON and otherwise
      solves ρ²·dφ = x·dy − y·dx, the z-component of position × velocity. */
  lemma ToSphericalAzimuthalRate(m: Funcs, p: Vec6)
    ensures Vec8D.AzimuthalSolves(ToSpherical(m, p).dphi(), Position(p), Velocity(p))
  {
    var q := Vec8D.ToSpherical(m, Lift(p));
    Vec8D.ToSphericalAzimuthalRate(m, Lift(p));
    assert Vec8D.Spatial(Lift(p)) == Position(p) && Vec8D.Velocity(Lift(p)) == Velocity(p);
    assert ToSpherical(m, p).dphi() == q.dphi();
  }

  /** On the z-axis (x = y = 0) the converted dθ and dφ are both 0. */
  lemma ToSphericalOnAxis(m: Funcs, p: Vec6)
    requires SqrtLaws(m)
    requires p.x() == 0.0 && p.y() == 0.0
    ensures ToSpherical(m, p).dtheta() == 0.0 && ToSpherical(m, p).dphi() == 0.0
  {
    Vec8D.ToSphericalOnAxis(m, Lift(p));
  }

  // ---------------------------------------------------------------------
  // The null condition

  /** Outside the horizon (r > rs > 0) the metric factor lies in (0, 1), the
      derived dt is non-negative, and the lifted state is a null vector:
      (1 − rs/r)·dt² = dr²/(1 − rs/r) + r²dθ² + r²(sin θ·dφ)². */
  lemma InitialDtIsNull(m: Funcs, s: Vec6, rs: real)
    requires SqrtLaws(m)
    requires s.r() > rs > 0.0
    ensures 0.0 < MetricFactor(m, s, rs) < 1.0
    ensures InitialDt(m, s, rs) >= 0.0
    ensures var f, dt, st := MetricFactor(m, s, rs), InitialDt(m, s, rs), m.sin(s.theta()) * s.dphi();
            f * (dt * dt) == (s.dr() * s.dr()) / f + s.r() * s.r() * (s.dtheta() * s.dtheta()) + s.r() * s.r() * (st * st)
  {
    var r := s.r();
    var q := Quot(m, rs, r);
    assert q * r == rs;
    QuotientBelowOne(q, rs, r);
    var f := MetricFactor(m, s, rs);
    assert 0.0 < f < 1.0;
    var inv := Quot(m, 1.0, f);
    assert inv * f == 1.0;
    var dr2 := s.dr() * s.dr();
    var st := m.sin(s.theta()) * s.dphi();
    var p1, p2, p3 := inv * dr2, r * r * (s.dtheta() * s.dtheta()), r * r * (st * st);
    assert p1 == dr2 / f;
    assert 0.0 <= p1 && 0.0 <= p2 && 0.0 <= p3;
    var num := p1 + p2 + p3;
    var v := Quot(m, num, f);
    assert v * f == num;
    assert 0.0 <= v;
    var dt := m.sqrt(v);
    assert dt * dt == v;
  }

  /** A state with no spatial velocity gets dt = 0 (r must differ from 0
      and from rs, so that the divisions are by non-zero numbers). */
  lemma InitialDtAtRest(m: Funcs, s: Vec6, rs: real)
    requires SqrtLaws(m)
    requires s.r() != 0.0 && MetricFactor(m, s, rs) != 0.0
    requires s.dr() == 0.0 && s.dtheta() == 0.0 && s.dphi() == 0.0
    ensures InitialDt(m, s, rs) == 0.0
  {
    var f := MetricFactor(m, s, rs);
    var st := m.sin(s.theta()) * s.dphi();
    assert st == 0.0;
    var num := Quot(m, 1.0, f) * (s.dr() * s.dr()) + s.r() * s.r() * (s.dtheta() * s.dtheta()) + s.r() * s.r() * (st * st);
    assert num == 0.0;
    assert Quot(m, num, f) == 0.0;
    var z := m.sqrt(0.0);
    assert z * z == 0.0;
    ProductZero(z, z);
  }
}
