/** The elementary real functions the renderer takes from Rust's `f64`/`f32`
    (sqrt, sin, cos, acos, atan2, exp, powf), and what IEEE division does with
    a zero divisor. None of them can be computed exactly over the reals, so
    they travel as one bundle of uninterpreted functions; every lemma that
    needs a fact about them names the law it assumes. */
module Elementary {

  datatype Funcs = Funcs(
    sqrt: real -> real,
    sin: real -> real,
    cos: real -> real,
    acos: real -> real,
    atan2: (real, real) -> real,
    exp: real -> real,
    powf: (real, real) -> real,
    /** The value of `x / 0.0`: an IEEE infinity or NaN, which no real denotes. */
    overZero: real -> real)

  /** Division as `f64` computes it: exact for a non-zero divisor,
      unconstrained for a zero one. */
  function Quot(m: Funcs, x: real, y: real): (q: real)
    ensures y != 0.0 ==> q * y == x
  {
    if y != 0.0 then x / y else m.overZero(x)
  }

  /** `sqrt` returns the non-negative square root of a non-negative argument,
      and that root is positive exactly when the argument is. */
  ghost predicate SqrtLaws(m: Funcs)
  {
    forall x: real :: 0.0 <= x ==>
      && 0.0 <= m.sqrt(x)
      && m.sqrt(x) * m.sqrt(x) == x
      && (0.0 < m.sqrt(x) <==> 0.0 < x)
  }

  /** The Euclidean length of a triple, sqrt(x² + y² + z²). */
  function Hypot3(m: Funcs, x: real, y: real, z: real): real
  {
    m.sqrt(x * x + y * y + z * z)
  }

  /** The Euclidean length of a quadruple. */
  function Hypot4(m: Funcs, w: real, x: real, y: real, z: real): real
  {
    m.sqrt(w * w + x * x + y * y + z * z)
  }

  /** The polar angle of a point at height z and distance r from the origin,
      taken as 0 at the origin instead of dividing by a zero radius. */
  function PolarAngle(m: Funcs, z: real, r: real): real
  {
    if r == 0.0 then 0.0 else m.acos(z / r)
  }

  /** `exp` is positive everywhere. */
  ghost predicate ExpPositive(m: Funcs)
  {
    forall x: real :: 0.0 < m.exp(x)
  }

  /** A length is non-negative and vanishes exactly when every coordinate does. */
  lemma Hypot3ZeroIff(m: Funcs, x: real, y: real, z: real)
    requires SqrtLaws(m)
    ensures 0.0 <= Hypot3(m, x, y, z)
    ensures Hypot3(m, x, y, z) == 0.0 <==> x == 0.0 && y == 0.0 && z == 0.0
  {
    assert 0.0 <= x * x + y * y + z * z;
    assert 0.0 < m.sqrt(x * x + y * y + z * z) <==> 0.0 < x * x + y * y + z * z;
  }

  lemma Hypot4ZeroIff(m: Funcs, w: real, x: real, y: real, z: real)
    requires SqrtLaws(m)
    ensures 0.0 <= Hypot4(m, w, x, y, z)
    ensures Hypot4(m, w, x, y, z) == 0.0 <==> w == 0.0 && x == 0.0 && y == 0.0 && z == 0.0
  {
    assert 0.0 <= w * w + x * x + y * y + z * z;
    assert 0.0 < m.sqrt(w * w + x * x + y * y + z * z) <==> 0.0 < w * w + x * x + y * y + z * z;
  }

  /** The non-negative root is unique: it is the only candidate `y`. */
  lemma SqrtUnique(m: Funcs, x: real, y: real)
    requires SqrtLaws(m)
    requires 0.0 <= y && y * y == x
    ensures m.sqrt(x) == y
  {
    var s := m.sqrt(x);
    assert 0.0 <= s && s * s == x;
    NonNegativeSquareInjective(s, y);
  }

  /** Two non-negative reals with the same square are equal. */
  lemma NonNegativeSquareInjective(x: real, y: real)
    requires 0.0 <= x && 0.0 <= y && x * x == y * y
    ensures x == y
  {
    assert (x - y) * (x + y) == 0.0;
    if x + y != 0.0 {
      assert x - y == ((x - y) * (x + y)) / (x + y);
    }
  }

  /** A root of a quotient: if s² = e' and e'·d² = n² with s, n >= 0 and
      d > 0, then s = n / d. */
  lemma RootOfQuotient(s: real, n: real, d: real, e: real, eu: real)
    requires 0.0 <= s && 0.0 <= n && 0.0 < d
    requires s * s == eu && n * n == e
    requires eu * (d * d) == e
    ensures s == n / d
  {
    assert (s * d) * (s * d) == (s * s) * (d * d);
    assert (s * d) * (s * d) == n * n;
    NonNegativeSquareInjective(s * d, n);
  }

  lemma SquareScale(x: real, a: real, d: real)
    requires x * d == a
    ensures (x * x) * (d * d) == a * a
  {
    assert (x * x) * (d * d) == (x * d) * (x * d);
  }

  /** A positive number divided by itself is 1. */
  lemma QuotientByItself(q: real, n: real, d: real)
    requires 0.0 < n && d == n && q == n / d
    ensures q == 1.0
  {
    assert n / n == 1.0;
  }

  /** A non-negative number divided by a larger one is below 1. */
  lemma QuotientBelowOne(q: real, n: real, d: real)
    requires 0.0 <= n < d && q == n / d
    ensures q < 1.0
  {
    assert q * d == n;
  }

  lemma SqrtOfSquare(m: Funcs, y: real)
    requires SqrtLaws(m)
    requires 0.0 <= y
    ensures m.sqrt(y * y) == y
  {
    SqrtUnique(m, y * y, y);
  }

  lemma SqrtMonotone(m: Funcs, x: real, y: real)
    requires SqrtLaws(m)
    requires 0.0 <= x <= y
    ensures m.sqrt(x) <= m.sqrt(y)
  {
    var sx, sy := m.sqrt(x), m.sqrt(y);
    assert 0.0 <= sx && sx * sx == x;
    assert 0.0 <= sy && sy * sy == y;
    if sx > sy {
      SquareStrictMonotone(sy, sx);
    }
  }

  lemma SquareStrictMonotone(a: real, b: real)
    requires 0.0 <= a < b
    ensures a * a < b * b
  {
    ProductPositive(b - a, b + a);
    assert (b - a) * (b + a) == b * b - a * a;
  }

  /** A product vanishes only when a factor does. */
  lemma ProductZero(a: real, b: real)
    requires a * b == 0.0
    ensures a == 0.0 || b == 0.0
  {
    if b != 0.0 {
      assert a == (a * b) / b;
    }
  }

  /** Adding a non-zero square under a root changes the root: if f² = e + t²
      and s² = e with t != 0, then f != s. */
  lemma RootsDiffer(f: real, s: real, t: real, e: real)
    requires f * f == e + t * t && s * s == e && t != 0.0
    ensures f != s
  {
    if f == s {
      assert t * t == 0.0;
      ProductZero(t, t);
    }
  }

  lemma ProductPositive(x: real, y: real)
    requires 0.0 < x && 0.0 < y
    ensures 0.0 < x * y
  {
  }

  /** Multiplying both sides by the same natural number keeps their order. */
  lemma MulLeftMonotone(a: nat, b: nat, k: nat)
    requires a <= b
    ensures a * k <= b * k
  {
    assert b * k == a * k + (b - a) * k;
  }

  /** A product of non-negative factors is non-negative. */
  lemma ProductNonNegative(a: real, b: real)
    requires 0.0 <= a && 0.0 <= b
    ensures 0.0 <= a * b
  {
  }

  /** Squaring keeps the order of non-negative numbers. */
  lemma MulMonotone(a: real, b: real)
    requires 0.0 <= a <= b
    ensures a * a <= b * b
  {
    if a < b { SquareStrictMonotone(a, b); }
  }

  /** A common non-zero factor cancels. */
  lemma CancelRatio(a: real, b: real, k: real)
    requires k != 0.0 && a * k == b * k
    ensures a == b
  {
    assert (a - b) * k == 0.0;
    ProductZero(a - b, k);
  }

  /** A positive product with one positive factor has the other positive. */
  lemma PositiveFactor(a: real, b: real, c: real)
    requires a * b == c && b > 0.0 && c > 0.0
    ensures a > 0.0
  {
    SignOfFactor(a, b);
  }

  /** With b > 0, the sign of a·b is the sign of a. */
  lemma SignOfFactor(a: real, b: real)
    requires b > 0.0
    ensures a * b > 0.0 <==> a > 0.0
    ensures a * b >= 0.0 <==> a >= 0.0
  {
    if a > 0.0 { ProductPositive(a, b); }
    if a < 0.0 { ProductPositive(-a, b); }
  }
}
