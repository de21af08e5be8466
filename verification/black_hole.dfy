/** The black hole of the 2-D scene (src/black_hole.rs): a position, a mass,
    its Schwarzschild radius and a colour. */
module BlackHoles {
  import opened Elementary
  import Raster
  import Vec4D
  import Vec6D

  datatype BlackHole = BlackHole(coords: Vec4D.Vec4, radius: real, mass: real, color: Raster.Color)

  /** macroquad's `RED`. */
  const Red: Raster.Color := Raster.Color(0.90, 0.16, 0.22, 1.00)

  /** `compute_schwarzschild_radius`: 2GM/c² in units where G = c = 1. */
  function SchwarzschildRadius(mass: real): (rs: real)
    ensures rs / 2.0 == mass
    ensures rs > 0.0 <==> mass > 0.0
  {
    2.0 * mass
  }

  /** `BlackHole::new`: the position and mass as given, the radius derived
      from the mass, the colour red. */
  function New(coords: Vec4D.Vec4, mass: real): (bh: BlackHole)
    ensures bh.coords == coords && bh.mass == mass && bh.color == Red
    ensures bh.radius == SchwarzschildRadius(mass)
  {
    BlackHole(coords, SchwarzschildRadius(mass), mass, Red)
  }

  /** `sagittarius`: unit mass at the all-zero origin. */
  function Sagittarius(): (bh: BlackHole)
    ensures bh.coords == Vec4D.Zero && bh.mass == 1.0 && bh.radius == 2.0 && bh.color == Red
  {
    New(Vec4D.Vec4(0.0, 0.0, 0.0, 0.0), 1.0)
  }

  function Coords(bh: BlackHole): Vec4D.Vec4 { bh.coords }
  function Mass(bh: BlackHole): real { bh.mass }
  function Radius(bh: BlackHole): real { bh.radius }
  function Color(bh: BlackHole): Raster.Color { bh.color }

  // ---------------------------------------------------------------------
  // Properties

  /** The accessors of a black hole built by `new` give back what it was
      built from. */
  lemma AccessorsRoundTrip(coords: Vec4D.Vec4, mass: real)
    ensures Coords(New(coords, mass)) == coords && Mass(New(coords, mass)) == mass
    ensures Radius(New(coords, mass)) == 2.0 * Mass(New(coords, mass))
    ensures Color(New(coords, mass)) == Red
  {
  }

  /** For a positive mass, the radius is the horizon of the metric the
      geodesic integrates: at radial distance r > 0, the factor 1 − rs/r is
      positive exactly outside it, zero on it and negative inside. */
  lemma RadiusIsHorizon(m: Funcs, bh: BlackHole, s: Vec6D.Vec6)
    requires bh == New(bh.coords, bh.mass) && bh.mass > 0.0 && s.r() > 0.0
    ensures Vec6D.MetricFactor(m, s, Radius(bh)) > 0.0 <==> s.r() > Radius(bh)
    ensures Vec6D.MetricFactor(m, s, Radius(bh)) == 0.0 <==> s.r() == Radius(bh)
  {
    var r, rs := s.r(), Radius(bh);
    var q := Quot(m, rs, r);
    assert q * r == rs;
    assert Vec6D.MetricFactor(m, s, rs) == 1.0 - q;
    assert (1.0 - q) * r == r - q * r && (q - 1.0) * r == q * r - r;
    if q < 1.0 {
      ProductPositive(1.0 - q, r);
    } else if q > 1.0 {
      ProductPositive(q - 1.0, r);
    }
  }
}
