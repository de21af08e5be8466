/** The null-geodesic equations of the Schwarzschild metric and the adaptive
    Runge–Kutta–Fehlberg 4(5) stepper that integrates them (src/geodesic.rs).
    The stepper is generic in the source; its only instance integrates the
    eight-component spherical state, which is the type used here. */
module Geodesic {
  import opened Constants
  import opened Elementary
  import opened Vec8D
  import Vec4D

  /** `max(r − rs, DIV_EPSILON)`: the distance to the horizon, clamped so
      that it can divide even at or inside the horizon. */
  function Altitude(s: Vec8, rs: real): (alt: real)
    ensures alt >= DIV_EPSILON
    ensures s.r() - rs > DIV_EPSILON ==> alt == s.r() - rs
    ensures s.r() - rs <= DIV_EPSILON ==> alt == DIV_EPSILON
  {
    AtLeastEpsilon(s.r() - rs)
  }

  /** `geodesic`: the derivative of a state (t, r, θ, φ, ṫ, ṙ, θ̇, φ̇) along the
      affine parameter. Its first half is the velocity; its second half is
      the acceleration the Christoffel symbols give, with r − rs replaced by
      the clamped altitude. A division by a zero r or sin θ is IEEE's. */
  function Geodesic(m: Funcs, s: Vec8, rs: real): Vec8
  {
    var sinTheta, cosTheta := m.sin(s.theta()), m.cos(s.theta());
    var alt := Altitude(s, rs);
    var r := s.r();
    var d2t := Quot(m, -rs * s.dr() * s.dt(), r * alt);
    var d2r :=
      var term1 := Quot(m, rs * alt * (s.dt() * s.dt()), 2.0 * (r * r * r));
      var term2 := Quot(m, rs, 2.0 * r * alt) * (s.dr() * s.dr());
      var term3 := s.dtheta() * s.dtheta() + (sinTheta * s.dphi()) * (sinTheta * s.dphi());
      -term1 + term2 + alt * term3;
    var d2theta :=
      var term1 := Quot(m, -2.0 * s.dr() * s.dtheta(), r);
      var term2 := sinTheta * cosTheta * (s.dphi() * s.dphi());
      term1 + term2;
    var d2phi :=
      var term1 := Quot(m, s.dr() * s.dphi(), r);
      var term2 := Quot(m, s.dtheta() * s.dphi() * cosTheta, sinTheta);
      -2.0 * (term1 + term2);
    Vec8(s.dt(), s.dr(), s.dtheta(), s.dphi(), d2t, d2r, d2theta, d2phi)
  }

  // ---------------------------------------------------------------------
  // The embedded Fehlberg pair

  /** The six stage derivatives k1..k6 of one step. */
  datatype Stages = Stages(k1: Vec8, k2: Vec8, k3: Vec8, k4: Vec8, k5: Vec8, k6: Vec8)

  /** The states at which the field is evaluated for k2..k6, each the state
      plus the earlier stages weighted by a row of the Butcher tableau. */
  function Input2(s: Vec8, k1: Vec8, h: real): Vec8
  {
    Add(s, Scale(k1, h * (1.0 / 4.0)))
  }

  function Input3(s: Vec8, k1: Vec8, k2: Vec8, h: real): Vec8
  {
    Add(Add(s, Scale(k1, h * (3.0 / 32.0))), Scale(k2, h * (9.0 / 32.0)))
  }

  function Input4(s: Vec8, k1: Vec8, k2: Vec8, k3: Vec8, h: real): Vec8
  {
    Add(Sub(Add(s, Scale(k1, h * (1932.0 / 2197.0))), Scale(k2, h * (7200.0 / 2197.0))),
        Scale(k3, h * (7296.0 / 2197.0)))
  }

  function Input5(s: Vec8, k1: Vec8, k2: Vec8, k3: Vec8, k4: Vec8, h: real): Vec8
  {
    Sub(Add(Sub(Add(s, Scale(k1, h * (439.0 / 216.0))), Scale(k2, h * 8.0)), Scale(k3, h * (3680.0 / 513.0))),
        Scale(k4, h * (845.0 / 4104.0)))
  }

  function Input6(s: Vec8, k1: Vec8, k2: Vec8, k3: Vec8, k4: Vec8, k5: Vec8, h: real): Vec8
  {
    Sub(Add(Sub(Add(Sub(s, Scale(k1, h * (8.0 / 27.0))), Scale(k2, h * 2.0)), Scale(k3, h * (3544.0 / 2565.0))),
            Scale(k4, h * (1859.0 / 4104.0))),
        Scale(k5, h * (11.0 / 40.0)))
  }

  /** The six evaluations of the field `f` for a step of size h from s.
      Every stage input is s itself when h is 0, so every stage is then the
      field at s; a constant field gives six equal stages whatever h is. */
  function ComputeStages(f: Vec8 -> Vec8, s: Vec8, h: real): (k: Stages)
    ensures h == 0.0 ==> k == Stages(f(s), f(s), f(s), f(s), f(s), f(s))
    ensures (forall x :: f(x) == f(s)) ==> k == Stages(f(s), f(s), f(s), f(s), f(s), f(s))
  {
    var k1 := f(s);
    var k2 := f(Input2(s, k1, h));
    var k3 := f(Input3(s, k1, k2, h));
    var k4 := f(Input4(s, k1, k2, k3, h));
    var k5 := f(Input5(s, k1, k2, k3, k4, h));
    var k6 := f(Input6(s, k1, k2, k3, k4, k5, h));
    Stages(k1, k2, k3, k4, k5, k6)
  }

  /** The fourth-order estimate (k2 and k6 carry weight 0). */
  function Order4(s: Vec8, k: Stages, h: real): Vec8
  {
    Sub(Add(Add(Add(s, Scale(k.k1, h * (25.0 / 216.0))), Scale(k.k3, h * (1408.0 / 2565.0))),
            Scale(k.k4, h * (2197.0 / 4104.0))),
        Scale(k.k5, h * (1.0 / 5.0)))
  }

  /** The fifth-order estimate, the one a step returns. */
  function Order5(s: Vec8, k: Stages, h: real): Vec8
  {
    Add(Sub(Add(Add(Add(s, Scale(k.k1, h * (16.0 / 135.0))), Scale(k.k3, h * (6656.0 / 12825.0))),
                Scale(k.k4, h * (28561.0 / 56430.0))),
            Scale(k.k5, h * (9.0 / 50.0))),
        Scale(k.k6, h * (2.0 / 55.0)))
  }

  /** What one trial step reports: the fifth-order state, the error estimate
      and the suggested next step size. */
  datatype Trial = Trial(state: Vec8, error: real, newH: real)

  /** `runge_kutta_fehlberg_45_pseudo_step`: the error is the norm of the
      difference of the two estimates, and the suggested step is
      0.9·h·(tol / error)^0.2 (an IEEE infinity when the error is 0). The
      state's `Norm` is a parameter. Both weight rows sum to 1, so a step
      of size 0 returns the state itself and a constant field c returns
      exactly s + h·c; in both cases the two estimates agree and the error
      is the norm of the zero tuple. */
  function PseudoStep(m: Funcs, norm: Vec8 -> real, f: Vec8 -> Vec8, s: Vec8, h: real, tol: real): (t: Trial)
    ensures h == 0.0 ==> t.state == s && t.error == norm(Zero)
    ensures (forall x :: f(x) == f(s)) ==> t.state == Add(s, Scale(f(s), h)) && t.error == norm(Zero)
  {
    var k := ComputeStages(f, s, h);
    var o4, o5 := Order4(s, k, h), Order5(s, k, h);
    EstimatesOfConstantStages(s, f(s), h);
    assert h == 0.0 || (forall x :: f(x) == f(s)) ==> Sub(o4, o5) == Zero;
    assert h == 0.0 ==> Add(s, Scale(f(s), h)) == s;
    var error := norm(Sub(o4, o5));
    Trial(o5, error, 0.9 * h * m.powf(Quot(m, tol, error), 0.2))
  }

  /** The step a successful trial of size h hands on: the suggestion,
      capped at twice h. */
  function CappedStep(t: Trial, h: real): (next: real)
    ensures next <= h * 2.0
    ensures next == t.newH || next == h * 2.0
    ensures t.newH <= h * 2.0 ==> next == t.newH
  {
    if t.newH > h * 2.0 then h * 2.0 else t.newH
  }

  /** The trials of a fixed initial state, as a function of the step size. */
  function Trials(m: Funcs, norm: Vec8 -> real, f: Vec8 -> Vec8, initial: Vec8, tol: real): real -> Trial
  {
    hh => PseudoStep(m, norm, f, initial, hh, tol)
  }

  /** Everything `runge_kutta_fehlberg_45` promises, given the trial of each
      step size and the sizes it tried in order: the first is h; each
      rejected trial's suggestion is the next size, and a trial is rejected
      only when error >= tol and its suggestion is at least min_h; there are
      at most max_retries + 1 trials; and the last one decides: accepted
      (error < tol) it yields its state and the capped step, otherwise the
      untouched initial state, the last size tried and `false`. */
  ghost predicate Rkf45Outcome(trial: real -> Trial, initial: Vec8, h: real, tol: real, minH: real,
                               maxRetries: nat, tried: seq<real>, state: Vec8, hOut: real, ok: bool)
  {
    && 1 <= |tried| <= maxRetries + 1
    && tried[0] == h
    && (forall i :: 0 <= i < |tried| - 1 ==>
          !(trial(tried[i]).error < tol) && !(trial(tried[i]).newH < minH) && tried[i + 1] == trial(tried[i]).newH)
    && var hl := tried[|tried| - 1];
       && (ok <==> trial(hl).error < tol)
       && (ok ==> state == trial(hl).state && hOut == CappedStep(trial(hl), hl))
       && (!ok ==> state == initial && hOut == hl && (trial(hl).newH < minH || |tried| > maxRetries))
  }

  /** The loop of `runge_kutta_fehlberg_45` for any trial function: retry
      with the suggested step until a trial is accepted, the suggestion drops
      below min_h, or the retries run out. `tried` lists the step sizes
      tried, in order. */
  method Retry(trial: real -> Trial, initial: Vec8, h: real, tol: real, minH: real, maxRetries: nat)
    returns (state: Vec8, hOut: real, ok: bool, ghost tried: seq<real>)
    ensures Rkf45Outcome(trial, initial, h, tol, minH, maxRetries, tried, state, hOut, ok)
    ensures ok ==> exists hl :: trial(hl).error < tol && state == trial(hl).state && hOut == CappedStep(trial(hl), hl)
    ensures !ok ==> state == initial
  {
    var currentH := h;
    var counter: nat := 0;
    tried := [];
    while true
      invariant counter == |tried| <= maxRetries
      invariant |tried| == 0 ==> currentH == h
      invariant |tried| > 0 ==> tried[0] == h && currentH == trial(tried[|tried| - 1]).newH
      invariant forall i :: 0 <= i < |tried| ==>
                  !(trial(tried[i]).error < tol) && !(trial(tried[i]).newH < minH)
                  && (i + 1 < |tried| ==> tried[i + 1] == trial(tried[i]).newH)
      decreases maxRetries - counter
    {
      var t := trial(currentH);
      if t.error < tol {
        tried := tried + [currentH];
        return t.state, CappedStep(t, currentH), true, tried;
      }
      counter := counter + 1;
      tried := tried + [currentH];
      if t.newH < minH || counter > maxRetries {
        return initial, currentH, false, tried;
      }
      currentH := t.newH;
    }
  }

  /** `runge_kutta_fehlberg_45`: the retry loop over the pseudo-steps from
      the initial state. */
  method Rkf45(m: Funcs, norm: Vec8 -> real, f: Vec8 -> Vec8, initial: Vec8, h: real,
               tol: real, minH: real, maxRetries: nat)
    returns (state: Vec8, hOut: real, ok: bool, ghost tried: seq<real>)
    ensures Rkf45Outcome(Trials(m, norm, f, initial, tol), initial, h, tol, minH, maxRetries, tried, state, hOut, ok)
    ensures ok ==> exists hl :: var t := PseudoStep(m, norm, f, initial, hl, tol);
                     t.error < tol && state == t.state && hOut == CappedStep(t, hl)
    ensures !ok ==> state == initial
  {
    var trial := Trials(m, norm, f, initial, tol);
    state, hOut, ok, tried := Retry(trial, initial, h, tol, minH, maxRetries);
    if ok {
      var hl :| trial(hl).error < tol && state == trial(hl).state && hOut == CappedStep(trial(hl), hl);
      assert trial(hl) == PseudoStep(m, norm, f, initial, hl, tol);
    }
  }

  /** The geodesic field of a hole of Schwarzschild radius rs, as the
      function of the state the stepper integrates. */
  function Field(m: Funcs, rs: real): Vec8 -> Vec8
  {
    s => Geodesic(m, s, rs)
  }

  /** `solve_geodesic_rkf45`: the stepper on the geodesic field of a hole of
      Schwarzschild radius rs, with tolerance and minimum step proportional
      to rs. The three constants it reads are parameters here. */
  method SolveGeodesic(m: Funcs, norm: Vec8 -> real, initial: Vec8, rs: real, h: real,
                       toleranceFactor: real, minStepFactor: real, retries: nat)
    returns (state: Vec8, hOut: real, ok: bool, ghost tried: seq<real>)
    ensures Rkf45Outcome(Trials(m, norm, Field(m, rs), initial, rs * toleranceFactor), initial, h,
                         rs * toleranceFactor, rs * minStepFactor, retries, tried, state, hOut, ok)
    ensures ok ==> exists hl, tol :: tol == rs * toleranceFactor &&
                     var t := PseudoStep(m, norm, Field(m, rs), initial, hl, tol);
                     t.error < tol && state == t.state && hOut == CappedStep(t, hl)
    ensures !ok ==> state == initial
  {
    state, hOut, ok, tried := Rkf45(m, norm, Field(m, rs), initial, h,
                                    rs * toleranceFactor, rs * minStepFactor, retries);
  }

  // ---------------------------------------------------------------------
  // The geodesic field

  /** The first half of the derivative is the velocity, unchanged; the
      altitude the field divides by is never below DIV_EPSILON. */
  lemma GeodesicCarriesVelocity(m: Funcs, s: Vec8, rs: real)
    ensures Position(Geodesic(m, s, rs)) == Vec4D.Vec4(s.dt(), s.dr(), s.dtheta(), s.dphi())
    ensures Altitude(s, rs) >= DIV_EPSILON
  {
  }

  /** A state at rest (r != 0, sin θ != 0) has derivative zero: nothing
      accelerates it. */
  lemma GeodesicAtRest(m: Funcs, s: Vec8, rs: real)
    requires s.r() != 0.0 && m.sin(s.theta()) != 0.0
    requires s.dt() == 0.0 && s.dr() == 0.0 && s.dtheta() == 0.0 && s.dphi() == 0.0
    ensures Geodesic(m, s, rs) == Zero
  {
    var alt := Altitude(s, rs);
    ProductPositive(s.r() * s.r(), s.r() * s.r());
    assert s.r() * alt != 0.0 by {
      if s.r() * alt == 0.0 { ProductZero(s.r(), alt); }
    }
    assert 2.0 * (s.r() * s.r() * s.r()) != 0.0 by {
      if s.r() * s.r() * s.r() == 0.0 {
        ProductZero(s.r() * s.r(), s.r());
        ProductZero(s.r(), s.r());
      }
    }
  }

  /** In the equatorial plane (cos θ = 0) with no polar velocity, the polar
      acceleration is zero, so motion in that plane stays in it. */
  lemma GeodesicEquatorial(m: Funcs, s: Vec8, rs: real)
    requires s.r() != 0.0 && m.cos(s.theta()) == 0.0 && s.dtheta() == 0.0
    ensures Geodesic(m, s, rs).dtheta() == 0.0
  {
  }

  // ---------------------------------------------------------------------
  // The Fehlberg pair

  /** Each row of the tableau sums to its node: under a constant field c the
      five stage inputs are s + (c_i·h)·c with c_i = 1/4, 3/8, 12/13, 1, 1/2. */
  lemma StageInputsAtNodes(s: Vec8, c: Vec8, h: real)
    ensures Input2(s, c, h) == Add(s, Scale(c, h * (1.0 / 4.0)))
    ensures Input3(s, c, c, h) == Add(s, Scale(c, h * (3.0 / 8.0)))
    ensures Input4(s, c, c, c, h) == Add(s, Scale(c, h * (12.0 / 13.0)))
    ensures Input5(s, c, c, c, c, h) == Add(s, Scale(c, h))
    ensures Input6(s, c, c, c, c, c, h) == Add(s, Scale(c, h * (1.0 / 2.0)))
  {
  }

  /** Both weight rows sum to 1: with every stage equal to c, both estimates
      are s + h·c. */
  lemma EstimatesOfConstantStages(s: Vec8, c: Vec8, h: real)
    ensures Order4(s, Stages(c, c, c, c, c, c), h) == Add(s, Scale(c, h))
    ensures Order5(s, Stages(c, c, c, c, c, c), h) == Add(s, Scale(c, h))
  {
  }

  // ---------------------------------------------------------------------
  // The retry loop

  /** Consequences of the outcome: an accepted step's error is below tol and
      its successor step at most twice its size; a failure hands back the
      initial state and a size it tried; and no more than max_retries + 1
      trials run. */
  lemma Rkf45OutcomeConsequences(trial: real -> Trial, initial: Vec8, h: real, tol: real, minH: real,
                                 maxRetries: nat, tried: seq<real>, state: Vec8, hOut: real, ok: bool)
    requires Rkf45Outcome(trial, initial, h, tol, minH, maxRetries, tried, state, hOut, ok)
    ensures |tried| <= maxRetries + 1
    ensures ok ==> exists hTried :: trial(hTried).error < tol && state == trial(hTried).state && hOut <= hTried * 2.0
    ensures !ok ==> state == initial && hOut in tried
  {
    var hl := tried[|tried| - 1];
    if ok {
      assert trial(hl).error < tol;
    }
  }

  /** When the first trial already meets the tolerance the loop accepts at
      once: one trial, its state, the capped suggestion. */
  lemma Rkf45FirstTrialAccepted(trial: real -> Trial, initial: Vec8, h: real, tol: real, minH: real,
                                maxRetries: nat, tried: seq<real>, state: Vec8, hOut: real, ok: bool)
    requires Rkf45Outcome(trial, initial, h, tol, minH, maxRetries, tried, state, hOut, ok)
    requires trial(h).error < tol
    ensures tried == [h] && ok
    ensures state == trial(h).state && hOut == CappedStep(trial(h), h)
  {
  }

  /** With no retries allowed a rejected first trial is final: the loop
      gives up after one trial with the initial state. */
  lemma Rkf45NoRetries(trial: real -> Trial, initial: Vec8, h: real, tol: real, minH: real,
                       tried: seq<real>, state: Vec8, hOut: real, ok: bool)
    requires Rkf45Outcome(trial, initial, h, tol, minH, 0, tried, state, hOut, ok)
    requires !(trial(h).error < tol)
    ensures tried == [h] && !ok && state == initial && hOut == h
  {
  }

  /** A step size the trials reject for good (error >= tol, suggestion
      below min_h) makes the loop fail on its first trial, whatever the
      retry budget. */
  lemma Rkf45GivesUpBelowMinimum(trial: real -> Trial, initial: Vec8, h: real, tol: real, minH: real,
                                 maxRetries: nat, tried: seq<real>, state: Vec8, hOut: real, ok: bool)
    requires Rkf45Outcome(trial, initial, h, tol, minH, maxRetries, tried, state, hOut, ok)
    requires !(trial(h).error < tol) && trial(h).newH < minH
    ensures tried == [h] && !ok && state == initial && hOut == h
  {
  }
}
