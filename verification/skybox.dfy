/** The background sky (src/skybox.rs): a grid of RGB texels, either loaded
    from a picture or generated as a random star field, sampled by the
    direction a ray escapes in. */
module Skybox {
  import opened Constants
  import opened Elementary
  import opened Machine
  import Raster
  import Vec3D
  import Tensor3D
  import Backend

  datatype Rgb = Rgb(r: real, g: real, b: real)

  const Dark: Rgb := Rgb(0.0, 0.0, 0.0)

  /** `data[y * width + x]` is the texel at column x, row y. */
  datatype Skybox = Skybox(data: seq<Rgb>, width: u32, height: u32)

  /** `as_f32_slice`: the texels' channels one after another. */
  function AsF32Slice(sky: Skybox): (flat: seq<real>)
    ensures |flat| == 3 * |sky.data|
    ensures forall i :: 0 <= i < |sky.data| ==>
              flat[3 * i] == sky.data[i].r && flat[3 * i + 1] == sky.data[i].g && flat[3 * i + 2] == sky.data[i].b
  {
    Flatten(sky.data)
  }

  function Flatten(data: seq<Rgb>): (flat: seq<real>)
    ensures |flat| == 3 * |data|
    ensures forall i :: 0 <= i < |data| ==>
              flat[3 * i] == data[i].r && flat[3 * i + 1] == data[i].g && flat[3 * i + 2] == data[i].b
  {
    if data == [] then []
    else
      var rest := Flatten(data[1..]);
      assert forall i :: 1 <= i < |data| ==> data[i] == data[1..][i - 1];
      [data[0].r, data[0].g, data[0].b] + rest
  }

  // ---------------------------------------------------------------------
  // Sampling

  /** `std::f32::consts::PI`. */
  const PI: real := 3.14159265358979323846

  /** The texel `sample` reads for a direction: the direction is normalised,
      u = 0.5 + atan2(z, x)/2π and v = acos(y)/π, and the column and row are
      u·width and v·height cast `as u32` and capped at the last column and
      row. The index y·width + x is computed in u32, so it wraps when the
      grid holds more than 2^32 texels; it stays below width·height either
      way. The width and the height must be at least 1 (`width - 1` would
      underflow). */
  function SampleIndex(m: Funcs, sky: Skybox, direction: Vec3D.Vec3): (index: nat)
    requires sky.width >= 1 && sky.height >= 1
    ensures index < sky.width * sky.height && index < U32_LIMIT
  {
    var d := Tensor3D.Normalize(m, direction);
    var u := 0.5 + m.atan2(d.z(), d.x()) / (2.0 * PI);
    var v := m.acos(d.y()) / PI;
    var x := Min(SaturateU32(u * sky.width as real), sky.width - 1);
    var y := Min(SaturateU32(v * sky.height as real), sky.height - 1);
    Raster.RowMajorInBounds(x, y, sky.width, sky.height);
    WrapU32(y * sky.width + x)
  }

  function Min(a: nat, b: nat): (c: nat)
    ensures c <= a && c <= b && (c == a || c == b)
  {
    if a <= b then a else b
  }

  /** `sample`: the texel's colour, opaque. The data must hold
      width·height texels, as both constructors make it. */
  function Sample(m: Funcs, sky: Skybox, direction: Vec3D.Vec3): (c: Raster.Color)
    requires sky.width >= 1 && sky.height >= 1 && |sky.data| == sky.width * sky.height
    ensures c.a == 1.0
    ensures exists i :: 0 <= i < |sky.data| && c == Raster.Color(sky.data[i].r, sky.data[i].g, sky.data[i].b, 1.0)
  {
    var t := sky.data[SampleIndex(m, sky, direction)];
    Raster.Color(t.r, t.g, t.b, 1.0)
  }

  // ---------------------------------------------------------------------
  // The star field

  /** The random draws for one star: its centre, its size, the brightness
      roll and the colour-temperature roll. */
  datatype Star = Star(cx: int, cy: int, size: real, brightnessRoll: real, temperature: real)

  /** The ranges the random draws lie in: size in [0.1, 1.5), brightness
      roll in [0.2, 1.0), temperature in [0, 1), and the centre inside the
      grid. `gen_range(3, width − 3)` puts the centre at least three pixels
      inside every border once the grid is 7 or more wide; for a narrower
      grid that range is empty or reversed, and only a centre inside the
      grid is assumed. */
  ghost predicate Drawn(s: Star, width: nat, height: nat)
  {
    0 <= s.cx < width && 0 <= s.cy < height &&
    0.1 <= s.size < 1.5 && 0.2 <= s.brightnessRoll < 1.0 && 0.0 <= s.temperature < 1.0
  }

  /** The number of stars the generator draws. */
  const STAR_COUNT: nat := 100000

  /** brightness = roll · min(size/4, 1): within [0, roll], and positive for
      a star of positive size and roll. */
  function Brightness(s: Star): (b: real)
    ensures 0.0 <= s.size && 0.0 <= s.brightnessRoll ==> 0.0 <= b && b <= s.brightnessRoll
    ensures 0.0 < s.size && 0.0 < s.brightnessRoll ==> 0.0 < b
  {
    var fraction := SizeFraction(s.size);
    if 0.0 <= s.size && 0.0 <= s.brightnessRoll then
      FractionOf(s.brightnessRoll, fraction);
      s.brightnessRoll * fraction
    else
      s.brightnessRoll * fraction
  }

  /** `min(size/4, 1)`: the share of the full brightness a star of this size gets. */
  function SizeFraction(size: real): (f: real)
    ensures 0.0 <= size ==> 0.0 <= f <= 1.0
    ensures 0.0 < size ==> 0.0 < f
    ensures f <= 1.0 && (f == size / 4.0 || f == 1.0)
  {
    if size / 4.0 < 1.0 then size / 4.0 else 1.0
  }

  /** A fraction in [0, 1] of a non-negative amount lies between 0 and the
      amount, and is positive when both are. */
  lemma FractionOf(a: real, fraction: real)
    requires 0.0 <= a && 0.0 <= fraction <= 1.0
    ensures 0.0 <= a * fraction <= a
    ensures 0.0 < a && 0.0 < fraction ==> 0.0 < a * fraction
  {
    ProductNonNegative(a, fraction);
    ProductNonNegative(a, 1.0 - fraction);
    if 0.0 < a && 0.0 < fraction { ProductPositive(a, fraction); }
  }

  /** The star's colour: reddish below temperature 0.3, bluish above 0.7,
      white between. */
  function StarColor(s: Star): (c: Rgb)
    ensures 0.0 <= s.size && 0.0 <= s.brightnessRoll ==>
              0.0 <= c.r <= Brightness(s) && 0.0 <= c.g <= Brightness(s) && 0.0 <= c.b <= Brightness(s)
    ensures c.r == Brightness(s) || c.b == Brightness(s)
    ensures 0.0 <= Brightness(s) && s.temperature < 0.3 ==> c.r >= c.g >= c.b
    ensures 0.0 <= Brightness(s) && s.temperature > 0.7 ==> c.b >= c.g >= c.r
    ensures 0.3 <= s.temperature <= 0.7 ==> c.r == c.g == c.b
  {
    var b := Brightness(s);
    if s.temperature < 0.3 then Rgb(b, b * 0.7, b * 0.4)
    else if s.temperature > 0.7 then Rgb(b * 0.7, b * 0.85, b)
    else Rgb(b, b, b)
  }

  /** `ceil(size) + 1`: how far, in whole pixels, the star's square reaches. */
  function MaxRadius(s: Star): int
  {
    -((-s.size).Floor) + 1
  }

  /** The distance √(dx² + dy²) from the centre to an offset. */
  function Distance(m: Funcs, dx: int, dy: int): real
  {
    m.sqrt((dx * dx + dy * dy) as real)
  }

  /** Pixel (x, y) lies within the star's size of its centre. */
  ghost predicate Near(m: Funcs, s: Star, x: int, y: int)
  {
    Distance(m, x - s.cx, y - s.cy) <= s.size
  }

  /** Pixel (x, y) lies near one of the first n stars. */
  ghost predicate NearSomeStar(m: Funcs, stars: seq<Star>, n: nat, x: int, y: int)
    requires n <= |stars|
  {
    exists j :: 0 <= j < n && Near(m, stars[j], x, y)
  }

  /** Adding light to a texel: each channel gains colour × intensity and is
      capped at 1. */
  function Brighten(t: Rgb, c: Rgb, intensity: real): (out: Rgb)
    ensures out.r <= 1.0 && out.g <= 1.0 && out.b <= 1.0
    ensures 0.0 <= c.r && 0.0 <= c.g && 0.0 <= c.b && 0.0 <= intensity &&
            t.r <= 1.0 && t.g <= 1.0 && t.b <= 1.0 ==>
              t.r <= out.r && t.g <= out.g && t.b <= out.b
  {
    Rgb(Cap(t.r + c.r * intensity), Cap(t.g + c.g * intensity), Cap(t.b + c.b * intensity))
  }

  /** `min(1.0)`. */
  function Cap(x: real): (y: real)
    ensures y <= 1.0 && y <= x && (y == x || y == 1.0)
  {
    if x < 1.0 then x else 1.0
  }

  /** Some channel is positive: with channels in [0, 1], the texel is not dark. */
  ghost predicate Lit(t: Rgb)
  {
    0.0 < t.r || 0.0 < t.g || 0.0 < t.b
  }

  /** The texel at a drawn star's centre. */
  function CentreIndex(s: Star, width: nat, height: nat): (k: nat)
    requires Drawn(s, width, height)
    ensures k < width * height
  {
    Raster.RowMajorInBounds(s.cx, s.cy, width, height);
    s.cy * width + s.cx
  }

  /** Every texel that differs between the two grids lies within star s's
      size of its centre. */
  ghost predicate ChangesOnlyNear(m: Funcs, before: seq<Rgb>, after: seq<Rgb>, width: nat, s: Star)
    requires width > 0 && |before| == |after|
  {
    forall k :: 0 <= k < |before| && after[k] != before[k] ==> Near(m, s, k % width, k / width)
  }

  /** Every texel that differs between the two grids lies in the given row. */
  ghost predicate ChangesOnlyInRow(before: seq<Rgb>, after: seq<Rgb>, width: nat, row: int)
    requires width > 0 && |before| == |after|
  {
    forall k :: 0 <= k < |before| && after[k] != before[k] ==> k / width == row
  }

  /** Every channel of every texel lies in [0, 1]. */
  ghost predicate Saturated(data: seq<Rgb>)
  {
    forall k :: 0 <= k < |data| ==>
      0.0 <= data[k].r <= 1.0 && 0.0 <= data[k].g <= 1.0 && 0.0 <= data[k].b <= 1.0
  }

  /** Texels that are not dark lie near one of the first n stars. */
  ghost predicate LitOnlyNearStars(m: Funcs, data: seq<Rgb>, width: nat, stars: seq<Star>, n: nat)
    requires width > 0 && n <= |stars|
  {
    forall k :: 0 <= k < |data| && data[k] != Dark ==> NearSomeStar(m, stars, n, k % width, k / width)
  }

  /** One star's square of pixels, rows dy and columns dx in
      [−R, R] with R = ceil(size) + 1: every pixel inside the image and
      within the star's size of its centre gains the star's light, fading
      as exp(−5·d²/size²). No other texel changes. The centre is at
      distance 0, so it is always lit, and no texel that was lit goes dark. */
  method DrawStar(m: Funcs, data: seq<Rgb>, width: u32, height: u32, stars: seq<Star>, i: nat)
    returns (out: seq<Rgb>)
    requires ExpPositive(m) && SqrtLaws(m)
    requires width > 0 && |data| == width * height && i < |stars| && Drawn(stars[i], width, height)
    requires Saturated(data) && LitOnlyNearStars(m, data, width, stars, i)
    ensures |out| == |data| && Saturated(out) && LitOnlyNearStars(m, out, width, stars, i + 1)
    ensures Lit(out[CentreIndex(stars[i], width, height)])
    ensures forall k :: 0 <= k < |data| && Lit(data[k]) ==> Lit(out[k])
    ensures ChangesOnlyNear(m, data, out, width, stars[i])
  {
    var radius := MaxRadius(stars[i]);
    var centre := CentreIndex(stars[i], width, height);
    out := data;
    var dy := -radius;
    while dy <= radius
      invariant dy <= radius + 1
      invariant |out| == |data| && Saturated(out) && LitOnlyNearStars(m, out, width, stars, i + 1)
      invariant forall k :: 0 <= k < |data| && Lit(data[k]) ==> Lit(out[k])
      invariant 0 < dy ==> Lit(out[centre])
      invariant ChangesOnlyNear(m, data, out, width, stars[i])
    {
      var before := out;
      out := DrawStarRow(m, out, width, height, stars, i, dy);
      assert forall k :: 0 <= k < |data| && Lit(before[k]) ==> Lit(out[k]);
      assert forall k :: 0 <= k < |data| && out[k] != data[k] ==> out[k] != before[k] || before[k] != data[k];
      dy := dy + 1;
    }
  }

  /** Row dy of star i's square: columns dx in [−R, R]. Only texels of row
      cy + dy near the star change; the row through the centre lights the
      centre, and no texel that was lit goes dark. */
  method DrawStarRow(m: Funcs, data: seq<Rgb>, width: u32, height: u32, stars: seq<Star>, i: nat, dy: int)
    returns (out: seq<Rgb>)
    requires ExpPositive(m) && SqrtLaws(m)
    requires width > 0 && |data| == width * height && i < |stars| && Drawn(stars[i], width, height)
    requires Saturated(data) && LitOnlyNearStars(m, data, width, stars, i + 1)
    ensures |out| == |data| && Saturated(out) && LitOnlyNearStars(m, out, width, stars, i + 1)
    ensures dy == 0 ==> Lit(out[CentreIndex(stars[i], width, height)])
    ensures forall k :: 0 <= k < |data| && Lit(data[k]) ==> Lit(out[k])
    ensures ChangesOnlyNear(m, data, out, width, stars[i])
    ensures ChangesOnlyInRow(data, out, width, stars[i].cy + dy)
  {
    var radius := MaxRadius(stars[i]);
    var centre := CentreIndex(stars[i], width, height);
    out := data;
    var dx := -radius;
    while dx <= radius
      invariant dx <= radius + 1
      invariant |out| == |data| && Saturated(out) && LitOnlyNearStars(m, out, width, stars, i + 1)
      invariant forall k :: 0 <= k < |data| && Lit(data[k]) ==> Lit(out[k])
      invariant dy == 0 && 0 < dx ==> Lit(out[centre])
      invariant ChangesOnlyNear(m, data, out, width, stars[i]) && ChangesOnlyInRow(data, out, width, stars[i].cy + dy)
    {
      var before := out;
      out := DrawStarTexel(m, out, width, height, stars, i, dx, dy);
      assert forall k :: 0 <= k < |data| && Lit(before[k]) ==> Lit(out[k]);
      assert forall k :: 0 <= k < |data| && out[k] != data[k] ==> out[k] != before[k] || before[k] != data[k];
      dx := dx + 1;
    }
  }

  /** Offset (dx, dy) of star i's square: when the pixel there lies inside
      the image and within the star's size of its centre, its texel gains
      the star's colour times exp(−5·d²/size²); nothing else changes. */
  method DrawStarTexel(m: Funcs, data: seq<Rgb>, width: u32, height: u32, stars: seq<Star>, i: nat, dx: int, dy: int)
    returns (out: seq<Rgb>)
    requires ExpPositive(m) && SqrtLaws(m)
    requires width > 0 && |data| == width * height && i < |stars| && Drawn(stars[i], width, height)
    requires Saturated(data) && LitOnlyNearStars(m, data, width, stars, i + 1)
    ensures |out| == |data| && Saturated(out) && LitOnlyNearStars(m, out, width, stars, i + 1)
    ensures dx == 0 && dy == 0 ==> Lit(out[CentreIndex(stars[i], width, height)])
    ensures forall k :: 0 <= k < |data| && Lit(data[k]) ==> Lit(out[k])
    ensures ChangesOnlyNear(m, data, out, width, stars[i])
    ensures ChangesOnlyInRow(data, out, width, stars[i].cy + dy)
  {
    var s := stars[i];
    var color := StarColor(s);
    out := data;
    var x, y := s.cx + dx, s.cy + dy;
    if x >= 0 && x < width as int && y >= 0 && y < height as int {
      var distance := Distance(m, dx, dy);
      if dx == 0 && dy == 0 {
        CentreIsNear(m, s);
      }
      if distance <= s.size {
        var intensity := m.exp(-distance * distance * 5.0 / (s.size * s.size));
        Raster.RowMajorInBounds(x, y, width, height);
        var idx := y * width + x;
        LightTexel(m, data, width, stars, i, x, y, color, intensity);
        ChangeNearInRow(m, data, data, width, s, x, y, Brighten(data[idx], color, intensity));
        if dx == 0 && dy == 0 {
          CentreLights(data[idx], color, intensity);
        }
        out := data[idx := Brighten(data[idx], color, intensity)];
      }
    }
  }

  /** The centre lies at distance 0, inside the star's size, and the fade
      there is exp(0), which is positive. */
  lemma CentreIsNear(m: Funcs, s: Star)
    requires ExpPositive(m) && SqrtLaws(m) && 0.0 < s.size
    ensures Distance(m, 0, 0) == 0.0 && Distance(m, 0, 0) <= s.size
    ensures 0.0 < m.exp(-Distance(m, 0, 0) * Distance(m, 0, 0) * 5.0 / (s.size * s.size))
  {
    ProductZero(m.sqrt(0.0), m.sqrt(0.0));
  }

  /** Light of a positive colour and a positive intensity lights any texel
      whose channels lie in [0, 1]. */
  lemma CentreLights(t: Rgb, c: Rgb, intensity: real)
    requires 0.0 <= t.r <= 1.0 && 0.0 <= t.g <= 1.0 && 0.0 <= t.b <= 1.0
    requires 0.0 <= c.r && 0.0 <= c.g && 0.0 <= c.b && Lit(c) && 0.0 < intensity
    ensures Lit(Brighten(t, c, intensity))
  {
    if 0.0 < c.r { ProductPositive(c.r, intensity); }
    else if 0.0 < c.g { ProductPositive(c.g, intensity); }
    else { ProductPositive(c.b, intensity); }
  }

  /** Lighting texel (x, y), which lies near star i, with a non-negative
      colour keeps every channel in [0, 1] and every lit texel near one of
      the first i + 1 stars. */
  lemma LightTexel(m: Funcs, data: seq<Rgb>, width: nat, stars: seq<Star>, i: nat, x: nat, y: nat,
                   color: Rgb, intensity: real)
    requires width > 0 && i < |stars| && x < width && y * width + x < |data|
    requires Near(m, stars[i], x, y)
    requires 0.0 <= color.r && 0.0 <= color.g && 0.0 <= color.b && 0.0 <= intensity
    requires Saturated(data) && LitOnlyNearStars(m, data, width, stars, i + 1)
    ensures var out := data[y * width + x := Brighten(data[y * width + x], color, intensity)];
            Saturated(out) && LitOnlyNearStars(m, out, width, stars, i + 1)
    ensures var out := data[y * width + x := Brighten(data[y * width + x], color, intensity)];
            forall k :: 0 <= k < |data| && Lit(data[k]) ==> Lit(out[k])
  {
    DivModOfRowMajor(x, y, width);
  }

  /** Writing texel (x, y), near star s, keeps every change since `before`
      near s and in row y. */
  lemma ChangeNearInRow(m: Funcs, before: seq<Rgb>, data: seq<Rgb>, width: nat, s: Star, x: nat, y: nat, t: Rgb)
    requires width > 0 && |before| == |data| && x < width && y * width + x < |data|
    requires Near(m, s, x, y)
    requires ChangesOnlyNear(m, before, data, width, s) && ChangesOnlyInRow(before, data, width, y)
    ensures ChangesOnlyNear(m, before, data[y * width + x := t], width, s)
    ensures ChangesOnlyInRow(before, data[y * width + x := t], width, y)
  {
    DivModOfRowMajor(x, y, width);
  }

  lemma DivModOfRowMajor(x: nat, y: nat, width: nat)
    requires x < width
    ensures (y * width + x) % width == x && (y * width + x) / width == y
  {
    var k := y * width + x;
    var q, r := k / width, k % width;
    Raster.RowMajorSplit(k, width);
    assert q * width + r == y * width + x;
    assert (y + 1) * width == y * width + width;
    assert (q + 1) * width == q * width + width;
    if q > y {
      MulLeftMonotone(y + 1, q, width);
    } else if q < y {
      MulLeftMonotone(q + 1, y, width);
    }
  }

  /** `generate_star_field`: a dark grid of width·height texels with each of
      the drawn stars added in turn. The area must fit in 32 bits (the
      source multiplies in u32). Every lit texel lies near a star, and
      every star's centre is lit. */
  method GenerateStarField(m: Funcs, width: u32, height: u32, stars: seq<Star>) returns (sky: Skybox)
    requires ExpPositive(m) && SqrtLaws(m)
    requires width * height < U32_LIMIT
    requires |stars| == STAR_COUNT && forall i :: 0 <= i < |stars| ==> Drawn(stars[i], width, height)
    ensures sky.width == width && sky.height == height && |sky.data| == width * height
    ensures Saturated(sky.data)
    ensures width > 0 && LitOnlyNearStars(m, sky.data, width, stars, |stars|)
    ensures forall j :: 0 <= j < |stars| ==> Lit(sky.data[CentreIndex(stars[j], width, height)])
  {
    assert Drawn(stars[0], width, height);
    var data := seq(width * height, _ => Dark);
    var i := 0;
    while i < |stars|
      invariant 0 <= i <= |stars|
      invariant |data| == width * height && Saturated(data) && LitOnlyNearStars(m, data, width, stars, i)
      invariant forall j :: 0 <= j < i ==> Lit(data[CentreIndex(stars[j], width, height)])
    {
      data := DrawStar(m, data, width, height, stars, i);
      i := i + 1;
    }
    sky := Skybox(data, width, height);
  }

  // ---------------------------------------------------------------------
  // Properties

  /** A star field starts as width·height dark texels: before any star is
      drawn nothing is lit. */
  lemma EmptyFieldIsDark(m: Funcs, width: nat, height: nat, stars: seq<Star>)
    requires width > 0
    ensures LitOnlyNearStars(m, seq(width * height, _ => Dark), width, stars, 0)
    ensures Saturated(seq(width * height, _ => Dark))
  {
  }

  /** With SqrtLaws, "near" is the squared-distance test dx² + dy² <= size². */
  lemma NearIffSquared(m: Funcs, s: Star, x: int, y: int)
    requires SqrtLaws(m) && s.size >= 0.0
    ensures Near(m, s, x, y) <==> (((x - s.cx) * (x - s.cx) + (y - s.cy) * (y - s.cy)) as real) <= s.size * s.size
  {
    var dx, dy := x - s.cx, y - s.cy;
    assert dx * dx >= 0 && dy * dy >= 0;
    var d2 := (dx * dx + dy * dy) as real;
    assert 0.0 <= d2;
    var d := Distance(m, x - s.cx, y - s.cy);
    assert d == m.sqrt(d2);
    assert 0.0 <= d && d * d == d2;
    if d <= s.size {
      MulMonotone(d, s.size);
    } else {
      SquareStrictMonotone(s.size, d);
    }
  }

  /** The flat slice of a sky, cut into chunks of three the way
      `Backend::to_image` cuts a buffer, gives back the texels: chunk i is
      texel i made opaque, and no chunk is left ragged. */
  lemma FlattenChunks(sky: Skybox, i: nat)
    requires i < |sky.data|
    ensures |AsF32Slice(sky)| % 3 == 0 && |AsF32Slice(sky)| / 3 == |sky.data|
    ensures 3 * i + 2 < |AsF32Slice(sky)|
    ensures Backend.ChunkColor(AsF32Slice(sky), i) == Raster.Color(sky.data[i].r, sky.data[i].g, sky.data[i].b, 1.0)
  {
  }
}
