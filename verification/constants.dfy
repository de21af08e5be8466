/** Physical and numerical constants (src/constants.rs), the divisor clamp
    every tuple division shares, and the configuration record
    (src/hyperparameters.rs). */
module Constants {

  /** Smallest divisor any clamped division uses: 1e-14. */
  const DIV_EPSILON: real := 0.00000000000001

  const SPEED_OF_LIGHT: real := 299792458.0
  const SQUARED_SPEED_OF_LIGHT: real := SPEED_OF_LIGHT * SPEED_OF_LIGHT
  const GRAVITATIONAL_CONSTANT: real := 0.0000000000667430
  const SCENE_WIDTH: real := 150000000000.0
  const SCENE_HEIGHT: real := 150000000000.0

  /** `x.max(DIV_EPSILON)`: the divisor a clamped division really uses.
      Zero and negative divisors become DIV_EPSILON as well as tiny ones. */
  function AtLeastEpsilon(x: real): (d: real)
    ensures d >= DIV_EPSILON && d >= x
    ensures d == x || d == DIV_EPSILON
  {
    if x > DIV_EPSILON then x else DIV_EPSILON
  }

  /** Clamping a clamped divisor changes nothing. */
  lemma ClampIdempotent(x: real)
    ensures AtLeastEpsilon(AtLeastEpsilon(x)) == AtLeastEpsilon(x)
  {
  }

  /** Dividing by a divisor the clamp leaves alone undoes multiplying by it. */
  lemma DivUndoesMul(x: real, d: real)
    requires AtLeastEpsilon(d) == d
    ensures (x * d) / AtLeastEpsilon(d) == x
  {
    assert d != 0.0;
    assert (x * d) / d == x;
  }

  /** The integration settings, mirrored field by field. */
  datatype Hyperparameters = Hyperparameters(
    dLambda0: real,
    boundingBoxRadius: real,
    numIntegrationSteps: nat,
    normalizationInterval: nat,
    integrationErrorTolerance: real,
    minDLambda: real,
    maxDLambda: real,
    maxDLambdaRatio: real,
    maxRetries: nat)
}

/** Fixed-width integer conversions the host code performs with `as`. */
module Machine {

  const U16_LIMIT: nat := 0x1_0000
  const U32_LIMIT: nat := 0x1_0000_0000

  type u16 = x: int | 0 <= x < 0x1_0000
  type u32 = x: int | 0 <= x < 0x1_0000_0000

  /** An integer cast `as u32` (and wrapping u32 arithmetic): keep the low 32 bits. */
  function WrapU32(x: int): (y: u32)
    ensures 0 <= x < U32_LIMIT ==> y == x
  {
    x % U32_LIMIT
  }

  /** A float cast `as u32`: truncation toward zero, saturating at both ends. */
  function SaturateU32(x: real): (y: u32)
    ensures x <= 0.0 ==> y == 0
    ensures 0.0 <= x < (U32_LIMIT - 1) as real ==> y as real <= x < y as real + 1.0
    ensures (U32_LIMIT - 1) as real <= x ==> y == U32_LIMIT - 1
  {
    if x <= 0.0 then 0
    else if x >= (U32_LIMIT - 1) as real then U32_LIMIT - 1
    else x.Floor
  }
}
