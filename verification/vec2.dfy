/** Two-component tuples (src/tensors/tensor2d.rs): screen and scene
    positions in the plane. */
module Vec2D {
  import opened Constants

  datatype Vec2 = Vec2(a: real, b: real) {
    function x(): real { a }
    function y(): real { b }
  }

  const Zero: Vec2 := Vec2(0.0, 0.0)

  /** `unpack`: the two fields in order; rebuilding from them gives the tuple back. */
  function Unpack(p: Vec2): (t: (real, real))
    ensures Vec2(t.0, t.1) == p
    ensures t.0 == p.x() && t.1 == p.y()
  {
    (p.a, p.b)
  }

  function Add(p: Vec2, q: Vec2): Vec2
  {
    Vec2(p.a + q.a, p.b + q.b)
  }

  function Sub(p: Vec2, q: Vec2): Vec2
  {
    Vec2(p.a - q.a, p.b - q.b)
  }

  /** Component-wise product (`Mul<Self>`). */
  function Mul(p: Vec2, q: Vec2): Vec2
  {
    Vec2(p.a * q.a, p.b * q.b)
  }

  /** Product with a scalar (`Mul<T>`). */
  function Scale(p: Vec2, k: real): Vec2
  {
    Vec2(p.a * k, p.b * k)
  }

  /** Component-wise division (`Div<Self>`): each divisor component is
      clamped to at least DIV_EPSILON on its own, so the quotient times the
      clamped divisors is the dividend. */
  function Div(p: Vec2, q: Vec2): (r: Vec2)
    ensures Mul(r, Vec2(AtLeastEpsilon(q.a), AtLeastEpsilon(q.b))) == p
  {
    Vec2(p.a / AtLeastEpsilon(q.a), p.b / AtLeastEpsilon(q.b))
  }

  /** Division by a scalar (`Div<T>`): the divisor is clamped once, so the
      quotient scaled back by the clamped divisor is the dividend. */
  function DivScalar(p: Vec2, k: real): (r: Vec2)
    ensures Scale(r, AtLeastEpsilon(k)) == p
  {
    var d := AtLeastEpsilon(k);
    Vec2(p.a / d, p.b / d)
  }

  // ---------------------------------------------------------------------
  // Properties

  /** Addition and subtraction are component-wise inverses. */
  lemma AddSubInverse(p: Vec2, q: Vec2)
    ensures Sub(Add(p, q), q) == p
    ensures Add(Sub(p, q), q) == p
  {
  }

  /** Each component of a product depends on that component alone: changing
      the other component of either operand leaves it as it was. */
  lemma MulComponentsIndependent(p: Vec2, q: Vec2, e: real, k: real)
    ensures Mul(Vec2(p.a, e), q).a == Mul(p, q).a
    ensures Mul(Vec2(e, p.b), q).b == Mul(p, q).b
    ensures Scale(Vec2(p.a, e), k).a == Scale(p, k).a
    ensures Scale(Vec2(e, p.b), k).b == Scale(p, k).b
    ensures Scale(p, k) == Mul(p, Vec2(k, k))
  {
  }

  /** Component-wise division undoes component-wise multiplication whenever
      no divisor component is clamped. */
  lemma MulDivInverse(p: Vec2, q: Vec2)
    requires q.a >= DIV_EPSILON && q.b >= DIV_EPSILON
    ensures Div(Mul(p, q), q) == p
  {
  }

  /** The divisor components are clamped separately: each quotient uses
      its own clamped divisor, so a clamped component, first or second,
      does not disturb the quotient of the other. */
  lemma DivClampsEachComponent(p: Vec2, q: Vec2)
    ensures Div(p, q) == Vec2(p.a / AtLeastEpsilon(q.a), p.b / AtLeastEpsilon(q.b))
    ensures q.a < DIV_EPSILON <= q.b ==> Div(p, q) == Vec2(p.a / DIV_EPSILON, p.b / q.b)
    ensures q.b < DIV_EPSILON <= q.a ==> Div(p, q) == Vec2(p.a / q.a, p.b / DIV_EPSILON)
  {
  }

  /** Scalar division undoes scaling whenever the divisor is not clamped. */
  lemma ScaleDivScalarInverse(p: Vec2, k: real)
    requires k >= DIV_EPSILON
    ensures DivScalar(Scale(p, k), k) == p
  {
  }

  /** Dividing by zero, or by anything at or below DIV_EPSILON, divides by
      DIV_EPSILON: the result is a finite multiple of the dividend. */
  lemma DivScalarByZero(p: Vec2, k: real)
    requires k <= DIV_EPSILON
    ensures DivScalar(p, k) == Scale(p, 1.0 / DIV_EPSILON)
    ensures DivScalar(p, 0.0) == DivScalar(p, k)
  {
  }
}
