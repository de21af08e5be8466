/** The 2-D demonstration scene (src/scene.rs): a world-sized rectangle
    holding a black hole and some rays, and the map from world coordinates
    to the window. */
module Scenes {
  import opened Constants
  import opened Elementary
  import opened Vec3D
  import BlackHoles
  import Rays

  datatype Scene = Scene(sceneSize: Vec3, blackHole: BlackHoles.BlackHole, rays: seq<Rays.Ray>, dt: real)

  /** `Scene::new`: a scene of the given width and height (depth 0), no
      rays, and a time step of 1. */
  function New(sceneWidth: real, sceneHeight: real, blackHole: BlackHoles.BlackHole): (s: Scene)
    ensures s.sceneSize == Vec3(sceneWidth, sceneHeight, 0.0)
    ensures s.blackHole == blackHole && s.rays == [] && s.dt == 1.0
  {
    Scene(Vec3(sceneWidth, sceneHeight, 0.0), blackHole, [], 1.0)
  }

  /** `screen_size`: the window's size as a depth-0 vector. The window size
      comes from macroquad and is a parameter here. */
  function ScreenSize(screenWidth: real, screenHeight: real): (v: Vec3)
    ensures v.x() == screenWidth && v.y() == screenHeight && v.z() == 0.0
  {
    Vec3(screenWidth, screenHeight, 0.0)
  }

  /** `center_coords`: half the scene size; twice it is the scene size. */
  function CenterCoords(s: Scene): (c: Vec3)
    ensures Scale(c, 2.0) == s.sceneSize
  {
    DivScalar(s.sceneSize, 2.0)
  }

  /** `size_ratios`: the scene size over the window size, component by
      component, each window component clamped to at least DIV_EPSILON. */
  function SizeRatios(s: Scene, screenWidth: real, screenHeight: real): (ratios: Vec3)
    ensures Mul(ratios, Clamped(ScreenSize(screenWidth, screenHeight))) == s.sceneSize
  {
    Div(s.sceneSize, ScreenSize(screenWidth, screenHeight))
  }

  /** `min_size_ratio`: the smaller of the horizontal and vertical ratios. */
  function MinSizeRatio(s: Scene, screenWidth: real, screenHeight: real): (ratio: real)
    ensures var ratios := SizeRatios(s, screenWidth, screenHeight);
            ratio <= ratios.x() && ratio <= ratios.y() && (ratio == ratios.x() || ratio == ratios.y())
  {
    var ratios := SizeRatios(s, screenWidth, screenHeight);
    if ratios.x() <= ratios.y() then ratios.x() else ratios.y()
  }

  /** `to_screen_coords`: shift by the centre, divide by the uniform ratio
      (clamped), then centre the scaled scene in the window. The offset
      divides the scene size by the ratio unclamped, with IEEE semantics. */
  function ToScreenCoords(m: Funcs, s: Scene, screenWidth: real, screenHeight: real, coords: Vec3): Vec3
  {
    var ratio := MinSizeRatio(s, screenWidth, screenHeight);
    var transformed := DivScalar(Add(coords, CenterCoords(s)), ratio);
    var offset := Vec3((screenWidth - Quot(m, s.sceneSize.x(), ratio)) / 2.0,
                       (screenHeight - Quot(m, s.sceneSize.y(), ratio)) / 2.0,
                       0.0);
    Add(transformed, offset)
  }

  /** `add_ray`: the ray goes at the end; everything else is unchanged. */
  function AddRay(s: Scene, ray: Rays.Ray): (t: Scene)
    ensures |t.rays| == |s.rays| + 1 && t.rays[..|s.rays|] == s.rays && t.rays[|s.rays|] == ray
    ensures t.sceneSize == s.sceneSize && t.blackHole == s.blackHole && t.dt == s.dt
  {
    s.(rays := s.rays + [ray])
  }

  // ---------------------------------------------------------------------
  // Properties

  /** The screen map scales x and y by the same factor: the difference of
      two mapped points, times the (clamped) uniform ratio, is the
      difference of the points. Shapes keep their aspect. */
  lemma ToScreenUniformScale(m: Funcs, s: Scene, screenWidth: real, screenHeight: real, p: Vec3, q: Vec3)
    ensures var k := AtLeastEpsilon(MinSizeRatio(s, screenWidth, screenHeight));
            var P := ToScreenCoords(m, s, screenWidth, screenHeight, p);
            var Q := ToScreenCoords(m, s, screenWidth, screenHeight, q);
            (P.x() - Q.x()) * k == p.x() - q.x() && (P.y() - Q.y()) * k == p.y() - q.y()
  {
    var ratio := MinSizeRatio(s, screenWidth, screenHeight);
    var k := AtLeastEpsilon(ratio);
    var c := CenterCoords(s);
    var tp := DivScalar(Add(p, c), ratio);
    var tq := DivScalar(Add(q, c), ratio);
    assert Scale(tp, k) == Add(p, c);
    assert Scale(tq, k) == Add(q, c);
    assert (tp.x() - tq.x()) * k == tp.x() * k - tq.x() * k;
    assert (tp.y() - tq.y()) * k == tp.y() * k - tq.y() * k;
  }

  /** For a scene made by `new` whose uniform ratio is at least DIV_EPSILON,
      the world origin lands on the middle of the window. */
  lemma OriginToWindowCentre(m: Funcs, sceneWidth: real, sceneHeight: real, bh: BlackHoles.BlackHole,
                             screenWidth: real, screenHeight: real)
    requires MinSizeRatio(New(sceneWidth, sceneHeight, bh), screenWidth, screenHeight) >= DIV_EPSILON
    ensures ToScreenCoords(m, New(sceneWidth, sceneHeight, bh), screenWidth, screenHeight, Zero)
            == Vec3(screenWidth / 2.0, screenHeight / 2.0, 0.0)
  {
    var s := New(sceneWidth, sceneHeight, bh);
    var ratio := MinSizeRatio(s, screenWidth, screenHeight);
    var c := CenterCoords(s);
    var t := DivScalar(Add(Zero, c), ratio);
    assert AtLeastEpsilon(ratio) == ratio;
    assert Scale(t, ratio) == c;
    assert c == Vec3(sceneWidth / 2.0, sceneHeight / 2.0, 0.0);
    CentreAxis(t.x(), Quot(m, sceneWidth, ratio), sceneWidth, ratio, screenWidth);
    CentreAxis(t.y(), Quot(m, sceneHeight, ratio), sceneHeight, ratio, screenHeight);
    CancelRatio(t.z(), 0.0, ratio);
  }

  /** On one axis: the shifted origin t, with t·ratio = size/2, plus the
      centring offset (screen − q)/2, with q·ratio = size, is screen/2. */
  lemma CentreAxis(t: real, q: real, size: real, ratio: real, screen: real)
    requires ratio != 0.0 && t * ratio == size / 2.0 && q * ratio == size
    ensures t + (screen - q) / 2.0 == screen / 2.0
  {
    assert (q / 2.0) * ratio == size / 2.0;
    CancelRatio(t, q / 2.0, ratio);
  }

  /** For positive scene sizes and a window at least DIV_EPSILON wide and
      high, the scene scaled by the uniform ratio covers the window on both
      axes and fits it exactly on one: the smaller ratio is the one used. */
  lemma ScaledSceneCoversWindow(m: Funcs, sceneWidth: real, sceneHeight: real, bh: BlackHoles.BlackHole,
                                screenWidth: real, screenHeight: real)
    requires sceneWidth > 0.0 && sceneHeight > 0.0
    requires screenWidth > DIV_EPSILON && screenHeight > DIV_EPSILON
    ensures var ratio := MinSizeRatio(New(sceneWidth, sceneHeight, bh), screenWidth, screenHeight);
            Quot(m, sceneWidth, ratio) >= screenWidth && Quot(m, sceneHeight, ratio) >= screenHeight &&
            (Quot(m, sceneWidth, ratio) == screenWidth || Quot(m, sceneHeight, ratio) == screenHeight)
  {
    var s := New(sceneWidth, sceneHeight, bh);
    var ratios := SizeRatios(s, screenWidth, screenHeight);
    var ratio := MinSizeRatio(s, screenWidth, screenHeight);
    assert Clamped(ScreenSize(screenWidth, screenHeight)) == Vec3(screenWidth, screenHeight, DIV_EPSILON);
    assert ratios.x() * screenWidth == sceneWidth;
    assert ratios.y() * screenHeight == sceneHeight;
    PositiveFactor(ratios.x(), screenWidth, sceneWidth);
    PositiveFactor(ratios.y(), screenHeight, sceneHeight);
    var qx, qy := Quot(m, sceneWidth, ratio), Quot(m, sceneHeight, ratio);
    assert qx * ratio == sceneWidth && qy * ratio == sceneHeight;
    CoverAxis(qx, ratio, ratios.x(), screenWidth, sceneWidth);
    CoverAxis(qy, ratio, ratios.y(), screenHeight, sceneHeight);
  }

  /** On one axis: q·ratio = size and ratio ≤ axisRatio with
      axisRatio·screen = size give q ≥ screen, with equality when the ratio
      is this axis's own. */
  lemma CoverAxis(q: real, ratio: real, axisRatio: real, screen: real, size: real)
    requires 0.0 < ratio <= axisRatio && q * ratio == size && axisRatio * screen == size && screen > 0.0
    ensures q >= screen
    ensures ratio == axisRatio ==> q == screen
  {
    assert screen * ratio <= screen * axisRatio by {
      if ratio < axisRatio { ProductPositive(axisRatio - ratio, screen); }
    }
    assert (q - screen) * ratio >= 0.0;
    SignOfFactor(q - screen, ratio);
    if ratio == axisRatio {
      CancelRatio(q, screen, ratio);
    }
  }
}
