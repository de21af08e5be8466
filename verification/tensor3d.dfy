/** What src/tensors/tensor3d.rs and the `Norm` trait of src/tensors/mod.rs add
    to the three-component tuple: the dot and cross products, the default
    `normalize` (division by the norm, clamped like every division) and
    Rodrigues' rotation about an axis. */
module Tensor3D {
  import opened Constants
  import opened Elementary
  import opened Vec3D

  function Dot(p: Vec3, q: Vec3): real
  {
    p.a * q.a + p.b * q.b + p.c * q.c
  }

  function Cross(p: Vec3, q: Vec3): Vec3
  {
    Vec3(p.b * q.c - p.c * q.b, p.c * q.a - p.a * q.c, p.a * q.b - p.b * q.a)
  }

  /** `Norm::normalize`: the tuple divided by its own norm with the clamped
      scalar division, so the zero tuple and tiny tuples never divide by 0.
      Scaling back by the clamped norm recovers the tuple. */
  function Normalize(m: Funcs, p: Vec3): (u: Vec3)
    ensures Scale(u, AtLeastEpsilon(Magnitude(m, p))) == p
  {
    DivScalar(p, Magnitude(m, p))
  }

  /** `rotate_around_axis`: Rodrigues' formula
      v·cos + (u × v)·sin + u·(u·v)·(1 − cos) with u the normalised axis.
      `sin_cos` of the angle is the pair (m.sin(angle), m.cos(angle)). */
  function RotateAroundAxis(m: Funcs, v: Vec3, axis: Vec3, angle: real): Vec3
  {
    Rodrigues(v, Normalize(m, axis), m.sin(angle), m.cos(angle))
  }

  /** The formula with the sine, the cosine and the unit axis already at hand. */
  function Rodrigues(v: Vec3, u: Vec3, s: real, c: real): Vec3
  {
    var term1 := Scale(v, c);
    var term2 := Scale(Cross(u, v), s);
    var term3 := Scale(Scale(u, Dot(u, v)), 1.0 - c);
    Add(Add(term1, term2), term3)
  }

  // ---------------------------------------------------------------------
  // Products

  lemma DotSymmetric(p: Vec3, q: Vec3)
    ensures Dot(p, q) == Dot(q, p)
  {
  }

  /** The norm is the square root of the tuple's dot product with itself, so
      its square is that dot product. */
  lemma MagnitudeSquared(m: Funcs, p: Vec3)
    requires SqrtLaws(m)
    ensures Magnitude(m, p) * Magnitude(m, p) == Dot(p, p)
  {
    assert 0.0 <= p.a * p.a + p.b * p.b + p.c * p.c;
  }

  /** The cross product is orthogonal to both of its operands. */
  lemma CrossOrthogonal(p: Vec3, q: Vec3)
    ensures Dot(p, Cross(p, q)) == 0.0
    ensures Dot(q, Cross(p, q)) == 0.0
  {
    assert p.a * (p.b * q.c - p.c * q.b) == p.a * p.b * q.c - p.a * p.c * q.b;
    assert p.b * (p.c * q.a - p.a * q.c) == p.b * p.c * q.a - p.a * p.b * q.c;
    assert p.c * (p.a * q.b - p.b * q.a) == p.a * p.c * q.b - p.b * p.c * q.a;
    assert q.a * (p.b * q.c - p.c * q.b) == p.b * q.a * q.c - p.c * q.a * q.b;
    assert q.b * (p.c * q.a - p.a * q.c) == p.c * q.a * q.b - p.a * q.b * q.c;
    assert q.c * (p.a * q.b - p.b * q.a) == p.a * q.b * q.c - p.b * q.a * q.c;
  }

  lemma CrossAntiCommutative(p: Vec3, q: Vec3)
    ensures Cross(p, q) == Scale(Cross(q, p), -1.0)
    ensures Cross(p, p) == Zero
  {
  }

  /** The cross product is bilinear: scaling one operand scales the product. */
  lemma CrossScaleLeft(p: Vec3, q: Vec3, k: real)
    ensures Cross(Scale(p, k), q) == Scale(Cross(p, q), k)
  {
    var l, r := Cross(Scale(p, k), q), Scale(Cross(p, q), k);
    assert l.a == r.a by { ScaledDifference(p.b, q.c, p.c, q.b, k); }
    assert l.b == r.b by { ScaledDifference(p.c, q.a, p.a, q.c, k); }
    assert l.c == r.c by { ScaledDifference(p.a, q.b, p.b, q.a, k); }
  }

  /** One component of CrossScaleLeft: k factors out of a difference of products. */
  lemma ScaledDifference(a: real, b: real, c: real, d: real, k: real)
    ensures (a * k) * b - (c * k) * d == (a * b - c * d) * k
  {
  }

  // ---------------------------------------------------------------------
  // Normalisation

  /** The normalised tuple's norm is the norm divided by the clamped norm. */
  lemma NormalizeMagnitude(m: Funcs, p: Vec3)
    requires SqrtLaws(m)
    ensures Magnitude(m, Normalize(m, p)) == Magnitude(m, p) / AtLeastEpsilon(Magnitude(m, p))
  {
    var n, u := Magnitude(m, p), Normalize(m, p);
    var d := AtLeastEpsilon(n);
    MagnitudeZeroIff(m, p);
    MagnitudeZeroIff(m, u);
    MagnitudeSquared(m, p);
    MagnitudeSquared(m, u);
    LengthOfScaled(Magnitude(m, u), n, d, u, p);
  }

  /** If u·d = p with d > 0, a non-negative square root of u·u is one of
      p·p divided by d. */
  lemma LengthOfScaled(s: real, n: real, d: real, u: Vec3, p: Vec3)
    requires 0.0 <= s && 0.0 <= n && 0.0 < d
    requires s * s == Dot(u, u) && n * n == Dot(p, p)
    requires Scale(u, d) == p
    ensures s == n / d
  {
    assert u.a * d == p.a && u.b * d == p.b && u.c * d == p.c;
    SquareScale(u.a, p.a, d);
    SquareScale(u.b, p.b, d);
    SquareScale(u.c, p.c, d);
    RootOfQuotient(s, n, d, Dot(p, p), Dot(u, u));
  }

  /** The zero tuple normalises to itself rather than to a NaN tuple. */
  lemma NormalizeZero(m: Funcs)
    requires SqrtLaws(m)
    ensures Normalize(m, Zero) == Zero
  {
    MagnitudeZeroIff(m, Zero);
  }

  /** A tuple whose norm is at least DIV_EPSILON normalises to norm 1, and
      normalising again changes nothing. */
  lemma NormalizeUnit(m: Funcs, p: Vec3)
    requires SqrtLaws(m)
    requires Magnitude(m, p) >= DIV_EPSILON
    ensures Magnitude(m, Normalize(m, p)) == 1.0
    ensures Normalize(m, Normalize(m, p)) == Normalize(m, p)
  {
    NormalizeMagnitude(m, p);
    var n := Magnitude(m, p);
    var u := Normalize(m, p);
    QuotientByItself(Magnitude(m, u), n, AtLeastEpsilon(n));
    assert AtLeastEpsilon(1.0) == 1.0;
  }

  /** Whatever the tuple, its normalisation has norm at most 1; it is
      strictly shorter exactly when the norm was below DIV_EPSILON. */
  lemma NormalizeAtMostOne(m: Funcs, p: Vec3)
    requires SqrtLaws(m)
    ensures Magnitude(m, Normalize(m, p)) <= 1.0
    ensures Magnitude(m, Normalize(m, p)) < 1.0 <==> Magnitude(m, p) < DIV_EPSILON
  {
    MagnitudeZeroIff(m, p);
    NormalizeMagnitude(m, p);
    var n := Magnitude(m, p);
    var s := Magnitude(m, Normalize(m, p));
    if n < DIV_EPSILON {
      QuotientBelowOne(s, n, AtLeastEpsilon(n));
    } else {
      QuotientByItself(s, n, AtLeastEpsilon(n));
    }
  }

  // ---------------------------------------------------------------------
  // Rotation

  /** With sin = 0 and cos = 1 (a zero angle) the rotation is the identity,
      whatever the axis. */
  lemma RotateByNothing(m: Funcs, v: Vec3, axis: Vec3, angle: real)
    requires m.sin(angle) == 0.0 && m.cos(angle) == 1.0
    ensures RotateAroundAxis(m, v, axis, angle) == v
  {
  }

  /** When the unit axis is parallel to v (their cross product vanishes and
      the projection of v on the axis is v itself) the formula returns v. */
  lemma RodriguesParallel(v: Vec3, u: Vec3, s: real, c: real)
    requires Cross(u, v) == Zero
    requires Scale(u, Dot(u, v)) == v
    ensures Rodrigues(v, u, s, c) == v
  {
  }

  /** v divided by its own (positive) norm is parallel to v. */
  lemma ParallelToOwnDirection(v: Vec3, n: real)
    requires 0.0 < n && n * n == Dot(v, v)
    ensures Cross(Vec3(v.a / n, v.b / n, v.c / n), v) == Zero
    ensures Scale(Vec3(v.a / n, v.b / n, v.c / n), Dot(Vec3(v.a / n, v.b / n, v.c / n), v)) == v
  {
    var u := Vec3(v.a / n, v.b / n, v.c / n);
    assert Dot(u, v) * n == Dot(v, v);
    assert Dot(u, v) == n;
  }

  /** Rotating v about itself, through any angle, leaves it where it is (as
      long as its norm is not below DIV_EPSILON, so the axis is exactly
      v's direction). */
  lemma RotateAboutItself(m: Funcs, v: Vec3, angle: real)
    requires SqrtLaws(m)
    requires Magnitude(m, v) >= DIV_EPSILON
    ensures RotateAroundAxis(m, v, v, angle) == v
  {
    var n := Magnitude(m, v);
    MagnitudeSquared(m, v);
    assert Normalize(m, v) == Vec3(v.a / n, v.b / n, v.c / n);
    ParallelToOwnDirection(v, n);
    RodriguesParallel(v, Normalize(m, v), m.sin(angle), m.cos(angle));
  }

  /** The unit axis itself is a fixed point of every rotation about it. */
  lemma RotateUnitAxisFixed(m: Funcs, u: Vec3, angle: real)
    requires SqrtLaws(m)
    requires Magnitude(m, u) == 1.0
    ensures Normalize(m, u) == u
    ensures RotateAroundAxis(m, u, u, angle) == u
  {
    RotateAboutItself(m, u, angle);
  }

  lemma DotAdd(u: Vec3, x: Vec3, y: Vec3)
    ensures Dot(u, Add(x, y)) == Dot(u, x) + Dot(u, y)
  {
  }

  lemma DotScale(u: Vec3, x: Vec3, k: real)
    ensures Dot(u, Scale(x, k)) == Dot(u, x) * k
  {
  }

  /** Rotation keeps the component along a unit axis: u·(Rv) = u·v. */
  lemma RodriguesKeepsAxialComponent(v: Vec3, u: Vec3, s: real, c: real)
    requires Dot(u, u) == 1.0
    ensures Dot(u, Rodrigues(v, u, s, c)) == Dot(u, v)
  {
    var d := Dot(u, v);
    var t1, t2, t3 := Scale(v, c), Scale(Cross(u, v), s), Scale(Scale(u, d), 1.0 - c);
    DotAdd(u, Add(t1, t2), t3);
    DotAdd(u, t1, t2);
    DotScale(u, v, c);
    DotScale(u, Cross(u, v), s);
    CrossOrthogonal(u, v);
    DotScale(u, Scale(u, d), 1.0 - c);
    DotScale(u, u, d);
  }
}
