# Black-hole renderer core, in Dafny

This project models the host-side core of a Schwarzschild black-hole ray
tracer written in Rust. It covers four pieces of that host code:

- **The null-geodesic field and its adaptive Runge–Kutta–Fehlberg 4(5)
  stepper** (`Geodesic`). This covers the derivative of an eight-component
  spherical state, the Butcher combination of one pseudo-step, and the
  bounded retry loop that accepts a step, caps its growth at 2× or gives up.
- **The coordinate tuples**, two to eight components (`Vec2D`, `Vec3D`,
  `Tensor3D`, `Vec4D`, `Vec6D`, `Vec8D`). They include component-wise
  operators and division whose divisors are clamped to at least
  `DIV_EPSILON = 1e-14`. They also cover the guarded Cartesian/spherical
  conversions of positions and states, and the null-condition time rate
  `initial_dt`.
- **Pixel buffers** (`Raster`, `Backend`, `Skybox`):
  - how both backends turn a flat output buffer into an image;
  - the dispatch arithmetic of the GPU backend;
  - how the sky texture is sampled;
  - the random star field.
- **The small 2-D demonstration objects** (`Scenes`, `Rays`, `BlackHoles`):
  - the map from world coordinates to the window;
  - the ray's bounded trail of recent positions;
  - the Schwarzschild radius of a black hole.

`f64` and `f32` are modelled as exact `real`. `sqrt`, `sin`, `cos`, `acos`,
`atan2`, `exp` and `powf` are fields of a record `Elementary.Funcs` passed
to every member that needs them. A lemma that relies on a law of one of
them takes that law as a precondition (`SqrtLaws`, `ExpPositive`). An
unclamped IEEE division is `Elementary.Quot`: it is the real quotient
unless the divisor is zero, and otherwise an unspecified value, which
stands for infinity or NaN. Casts `as u32` are written out in the `Machine`
module: an integer cast keeps the low 32 bits in every build, and a float
cast truncates and saturates. u32 multiplications (the star-field area and
texel index, the sampled texel index, the output buffer size) wrap the
same way where the model lets them overflow, as a release build computes
them; a debug build panics on that overflow instead.

The source keeps two overlapping trees of tuple types (`src/tensors` and
`src/vectors`). This model has one datatype per arity. `Vec3D` serves both
3-D trees, whose conversions are the same formulas. `Tensor3D` adds
`dot`, `cross`, `rotate_around_axis` and `normalize`. `Vec6D` conversions
reuse the eight-component ones with t = dt = 0, which is exactly what the
six-component formulas compute.

## Model

| member | source | states |
|---|---|---|
| Constants.AtLeastEpsilon | src/vectors/vec3d.rs:88-95 | the divisor a clamped division uses is at least DIV_EPSILON and at least the given divisor, and it is one of the two |
| Constants.ClampIdempotent | src/vectors/vec3d.rs:88-95 | clamping a divisor that is already clamped changes nothing |
| Constants.DivUndoesMul | src/vectors/vec3d.rs:76-95 | dividing by a divisor the clamp leaves unchanged undoes multiplying by it |
| Machine.WrapU32 | src/gpu/backend.rs:172 | a u32 computation that fits in 32 bits is unchanged by the wrap |
| Machine.SaturateU32 | src/gpu/backend.rs:139 | a float cast `as u32` is 0 for non-positive input, the integer part of the input below 2^32 − 1, and 2^32 − 1 from there up |
| Vec2D.Unpack | src/tensors/tensor2d.rs:22-24 | unpack yields (x, y) and rebuilding from it gives the tuple back |
| Vec2D.Div | src/tensors/tensor2d.rs:70-79 | the quotient times the per-component clamped divisors is the dividend |
| Vec2D.DivScalar | src/tensors/tensor2d.rs:81-88 | the quotient times the clamped scalar is the dividend |
| Vec2D.AddSubInverse | src/tensors/tensor2d.rs:37-51 | (p + q) − q = p and (p − q) + q = p |
| Vec2D.MulComponentsIndependent | src/tensors/tensor2d.rs:53-68 | each product component depends only on the matching input component; scalar product is product by (k, k) |
| Vec2D.MulDivInverse | src/tensors/tensor2d.rs:53-79 | dividing a product by divisors of at least DIV_EPSILON undoes it |
| Vec2D.DivClampsEachComponent | src/tensors/tensor2d.rs:70-79 | each quotient component divides by its own divisor component clamped to at least DIV_EPSILON, so clamping either component, first or second, leaves the other quotient as it was |
| Vec2D.ScaleDivScalarInverse | src/tensors/tensor2d.rs:61-88 | dividing by a scalar of at least DIV_EPSILON undoes scaling by it |
| Vec2D.DivScalarByZero | src/tensors/tensor2d.rs:81-88 | division by a scalar at most DIV_EPSILON, 0 included, is multiplication by 1/DIV_EPSILON: never infinite |
| Vec3D.Unpack | src/vectors/vec3d.rs:28-30 | unpack yields (a, b, c) and rebuilding from it gives the tuple back |
| Vec3D.Div | src/vectors/vec3d.rs:76-86 | the quotient times the per-component clamped divisors is the dividend |
| Vec3D.DivScalar | src/vectors/vec3d.rs:88-95 | the quotient times the clamped scalar is the dividend |
| Vec3D.AddSubInverse | src/vectors/vec3d.rs:43-57 | (p + q) − q = p and (p − q) + q = p |
| Vec3D.ScaleDivScalarInverse | src/vectors/vec3d.rs:67-95 | dividing by a scalar of at least DIV_EPSILON undoes scaling by it |
| Vec3D.MulDivInverse | src/vectors/vec3d.rs:59-86 | dividing a component-wise product by divisors of at least DIV_EPSILON undoes it |
| Vec3D.DivClampsEachComponent | src/vectors/vec3d.rs:76-86 | dividing by q is dividing by q with each component clamped on its own: a small first (or last) divisor becomes DIV_EPSILON while the others divide unchanged |
| Vec3D.DivScalarBelowEpsilon | src/vectors/vec3d.rs:88-95 | any divisor at most DIV_EPSILON, zero and negatives included, acts as DIV_EPSILON |
| Vec3D.MagnitudeZeroIff | src/vectors/vec3d.rs:24-26 | the magnitude is non-negative and zero exactly for the zero tuple |
| Vec3D.ToCartesian | src/vectors/vec3d.rs:126-136 | no contract of its own; characterised by Vec3D.ZeroRadiusIsOrigin, Vec3D.ToCartesianHomogeneous and Vec3D.OriginRoundTrip |
| Vec3D.ToSpherical | src/vectors/vec3d.rs:164-169 | no contract of its own; characterised by Vec3D.ToSphericalRadius and Vec3D.OriginRoundTrip |
| Vec3D.ToSphericalRadius | src/vectors/vec3d.rs:164-169 | r is the magnitude, r = 0 and θ = 0 at the origin, r > 0 elsewhere, φ = atan2(y, x) |
| Vec3D.ZeroRadiusIsOrigin | src/vectors/vec3d.rs:126-137 | a spherical point of radius 0 converts to the Cartesian origin |
| Vec3D.OriginRoundTrip | src/vectors/vec3d.rs:126-169 | the origin survives Cartesian → spherical → Cartesian |
| Vec3D.ToCartesianHomogeneous | src/vectors/vec3d.rs:126-137 | scaling the radius scales the Cartesian point by the same factor |
| Tensor3D.Normalize | src/tensors/mod.rs:23-25 | the unit vector times the clamped norm is the vector |
| Tensor3D.Dot | src/tensors/tensor3d.rs:25-27 | no contract of its own; characterised by Tensor3D.DotSymmetric, Tensor3D.DotAdd, Tensor3D.DotScale and Tensor3D.MagnitudeSquared |
| Tensor3D.Cross | src/tensors/tensor3d.rs:29-35 | no contract of its own; characterised by Tensor3D.CrossOrthogonal, Tensor3D.CrossAntiCommutative and Tensor3D.CrossScaleLeft |
| Tensor3D.RotateAroundAxis | src/tensors/tensor3d.rs:37-46 | no contract of its own; characterised by Tensor3D.RotateByNothing, Tensor3D.RotateAboutItself, Tensor3D.RotateUnitAxisFixed and Tensor3D.RodriguesKeepsAxialComponent |
| Tensor3D.DotSymmetric | src/tensors/tensor3d.rs:25-27 | a·b = b·a |
| Tensor3D.MagnitudeSquared | src/tensors/tensor3d.rs:108-112 | the norm squared is the dot product of the vector with itself |
| Tensor3D.CrossOrthogonal | src/tensors/tensor3d.rs:29-35 | a·(a×b) = 0 and b·(a×b) = 0 |
| Tensor3D.CrossAntiCommutative | src/tensors/tensor3d.rs:29-35 | a×b = −(b×a) and a×a = 0 |
| Tensor3D.CrossScaleLeft | src/tensors/tensor3d.rs:29-35 | (k·a)×b = k·(a×b) |
| Tensor3D.ScaledDifference | src/tensors/tensor3d.rs:29-35 | a common factor comes out of each component difference of the cross product |
| Tensor3D.NormalizeMagnitude | src/tensors/mod.rs:23-25 | the norm of the normalised vector is norm / max(norm, DIV_EPSILON) |
| Tensor3D.NormalizeZero | src/tensors/mod.rs:23-25 | normalising the zero vector gives the zero vector, not NaN |
| Tensor3D.NormalizeUnit | src/tensors/mod.rs:23-25 | for norm at least DIV_EPSILON the result has norm 1 and normalising again changes nothing |
| Tensor3D.NormalizeAtMostOne | src/tensors/mod.rs:20-26 | every normalised vector has norm at most 1, below 1 exactly when the norm is below DIV_EPSILON |
| Tensor3D.RotateByNothing | src/tensors/tensor3d.rs:37-46 | with sin = 0 and cos = 1 the rotation returns the vector, whatever the axis |
| Tensor3D.RodriguesParallel | src/tensors/tensor3d.rs:37-46 | Rodrigues' formula fixes a vector lying along a unit axis |
| Tensor3D.ParallelToOwnDirection | src/tensors/tensor3d.rs:37-46 | a vector lies along its own direction: zero cross product, and its projection on it is itself |
| Tensor3D.RotateAboutItself | src/tensors/tensor3d.rs:37-46 | rotating a vector of norm at least DIV_EPSILON about itself leaves it unchanged, for any angle |
| Tensor3D.RotateUnitAxisFixed | src/tensors/tensor3d.rs:37-46 | a unit vector is its own normalisation and is fixed by rotation about itself |
| Tensor3D.DotAdd | src/tensors/tensor3d.rs:25-27 | the dot product distributes over addition |
| Tensor3D.DotScale | src/tensors/tensor3d.rs:25-27 | the dot product is linear in scaling |
| Tensor3D.RodriguesKeepsAxialComponent | src/tensors/tensor3d.rs:37-46 | rotation about a unit axis keeps the component along the axis |
| Vec4D.Unpack | src/vectors/vec4d.rs:32-34 | unpack yields (t, x, y, z) and rebuilding gives the tuple back |
| Vec4D.UnpackXY | src/vectors/vec4d.rs:196-198 | unpack_xy yields exactly x and y: with t and z they rebuild the point |
| Vec4D.Div | src/vectors/vec4d.rs:95-106 | the quotient times the per-component clamped divisors is the dividend |
| Vec4D.DivScalar | src/vectors/vec4d.rs:108-115 | the quotient times the clamped scalar is the dividend |
| Vec4D.AddSubInverse | src/vectors/vec4d.rs:47-71 | (p + q) − q = p and (p − q) + q = p |
| Vec4D.DivScalarClamps | src/vectors/vec4d.rs:86-115 | dividing by a scalar of at least DIV_EPSILON undoes scaling; a smaller one acts as DIV_EPSILON |
| Vec4D.DivClampsEachComponent | src/vectors/vec4d.rs:73-106 | division undoes a product by divisors of at least DIV_EPSILON, and clamps each component on its own |
| Vec4D.AddPlanar | src/vectors/vec4d.rs:211-216 | no contract of its own; characterised by Vec4D.AddPlanarOnlyMovesXY |
| Vec4D.ToCartesian | src/vectors/vec4d.rs:152-162 | no contract of its own; characterised by Vec4D.ToCartesianKeepsTime |
| Vec4D.ToSpherical | src/vectors/vec4d.rs:203-208 | no contract of its own; characterised by Vec4D.ToSphericalRadius, Vec4D.ToSphericalCountsTime and Vec4D.ToSphericalAgreesIffTimeZero |
| Vec4D.AddPlanarOnlyMovesXY | src/vectors/vec4d.rs:211-217 | adding a 2-D offset keeps t and z, adds to x and y, and is undone by adding the opposite offset |
| Vec4D.MagnitudeZeroIff | src/vectors/vec4d.rs:28-30 | the magnitude is non-negative and zero exactly for the zero tuple |
| Vec4D.ToCartesianKeepsTime | src/vectors/vec4d.rs:152-162 | spherical → Cartesian keeps t; radius 0 lands on the spatial origin |
| Vec4D.ToSphericalRadius | src/vectors/vec4d.rs:203-208 | as written: keeps t, r = sqrt(t² + x² + y² + z²) ≥ 0, zero only for the zero tuple, θ = 0 there |
| Vec4D.ToSphericalSpatialRadius | src/vectors/vec4d.rs:203-208 | corrected: keeps t, r ≥ 0, r = 0 exactly at the spatial origin, θ = 0 there |
| Vec4D.ToSphericalCountsTime | src/vectors/vec4d.rs:204 | (t, x, y, z) = (1, 1, 0, 0) gets r ≠ 1 as written, but its spatial radius is 1 |
| Vec4D.ToSphericalAgreesIffTimeZero | src/vectors/vec4d.rs:203-208 | the written and the corrected conversion agree exactly when t = 0 |
| Vec6D.Unpack | src/tensors/tensor6d.rs:43-45 | unpack yields the six fields in order and rebuilds the tuple |
| Vec6D.Div | src/tensors/tensor6d.rs:133-146 | the quotient times the per-component clamped divisors is the dividend |
| Vec6D.DivScalar | src/tensors/tensor6d.rs:148-162 | the quotient times the clamped scalar is the dividend |
| Vec6D.Position | src/tensors/tensor6d.rs:211-213 | position keeps exactly (r, θ, φ): with the velocities it rebuilds the state |
| Vec6D.Velocity | src/tensors/tensor6d.rs:183-191 | the rates are fields d, e, f: with the position they rebuild the state |
| Vec6D.Lift | src/tensors/tensor6d.rs:229-240 | the eight-component state of a six-component one has t = dt = 0 |
| Vec6D.Drop | src/tensors/tensor6d.rs:229-240 | dropping t and dt and lifting again zeroes exactly t and dt |
| Vec6D.To4D | src/tensors/tensor6d.rs:229-240 | to_4d sets t = 0 and dt = initial_dt, and copies r, θ, φ, dr, dθ, dφ unchanged |
| Vec6D.AddSubInverse | src/tensors/tensor6d.rs:72-100 | (p + q) − q = p and (p − q) + q = p |
| Vec6D.ScaleDivScalarInverse | src/tensors/tensor6d.rs:117-162 | dividing by a scalar of at least DIV_EPSILON undoes scaling by it |
| Vec6D.DivScalarBelowEpsilon | src/tensors/tensor6d.rs:148-162 | a zero or negative divisor acts as DIV_EPSILON |
| Vec6D.DivClampsEachComponent | src/tensors/tensor6d.rs:133-146 | each divisor component is clamped on its own; unclamped divisors undo a product |
| Vec6D.DivOfClamped | src/tensors/tensor6d.rs:133-146 | dividing by divisors clamped beforehand is the same as dividing by the raw divisors |
| Vec6D.MulDivInverse | src/tensors/tensor6d.rs:117-146 | when no divisor component is clamped, dividing a component-wise product by the divisors gives the other factor back |
| Vec6D.MagnitudeZeroIff | src/tensors/tensor6d.rs:32-41 | the magnitude is non-negative and zero exactly for the zero tuple |
| Vec6D.DropLift | src/tensors/tensor6d.rs:229-240 | lifting to eight components and dropping back is the identity |
| Vec6D.ToCartesian | src/tensors/tensor6d.rs:242-272 | no contract of its own; characterised by Vec6D.ToCartesianPosition |
| Vec6D.ToSpherical | src/tensors/tensor6d.rs:322-356 | no contract of its own; characterised by Vec6D.ToSphericalPosition, the three Vec6D.ToSpherical…Rate lemmas and Vec6D.ToSphericalOnAxis |
| Vec6D.InitialDt | src/tensors/tensor6d.rs:215-227 | no contract of its own; characterised by Vec6D.InitialDtIsNull and Vec6D.InitialDtAtRest |
| Vec6D.ToCartesianPosition | src/tensors/tensor6d.rs:242-272 | the converted position is the 3-D spherical → Cartesian conversion of the position |
| Vec6D.ToSphericalPosition | src/tensors/tensor6d.rs:322-356 | r ≥ 0, r = 0 exactly at the origin and θ = 0 there; the position part is the 3-D conversion |
| Vec6D.ToSphericalRadialRate | src/tensors/tensor6d.rs:334-338 | dr = 0 when r ≤ ε, else dr·r = position · velocity |
| Vec6D.ToSphericalPolarRate | src/tensors/tensor6d.rs:340-347 | dθ = 0 when r or ρ ≤ ε, else dθ·r²ρ = z(x·dx + y·dy) − ρ²·dz |
| Vec6D.ToSphericalAzimuthalRate | src/tensors/tensor6d.rs:349-353 | dφ = 0 when ρ² ≤ ε, else dφ·ρ² = x·dy − y·dx |
| Vec6D.ToSphericalOnAxis | src/tensors/tensor6d.rs:340-353 | on the z-axis dθ and dφ are both 0 |
| Vec6D.InitialDtIsNull | src/tensors/tensor6d.rs:215-227 | for r > rs > 0: 0 < 1 − rs/r < 1, dt ≥ 0, and (1 − rs/r)·dt² = dr²/(1 − rs/r) + r²dθ² + r²(sin θ·dφ)², so the state is light-like |
| Vec6D.InitialDtAtRest | src/tensors/tensor6d.rs:215-227 | zero spatial velocity gives dt = 0 |
| Vec8D.Unpack | src/vectors/vec8d.rs:49-53 | unpack yields the eight fields in order and rebuilds the tuple |
| Vec8D.Div | src/vectors/vec8d.rs:153-168 | the quotient times the per-component clamped divisors is the dividend |
| Vec8D.DivScalar | src/vectors/vec8d.rs:170-186 | the quotient times the clamped scalar is the dividend |
| Vec8D.Position | src/vectors/vec8d.rs:256-258 | position drops the four velocities and keeps (t, r, θ, φ): with them it rebuilds the state |
| Vec8D.Spatial | src/vectors/vec8d.rs:302-310 | the spatial part is (x, y, z) |
| Vec8D.Velocity | src/vectors/vec8d.rs:314-322 | the spatial velocity is (dx, dy, dz) |
| Vec8D.AddSubInverse | src/vectors/vec8d.rs:84-116 | (s + k) − k = s and (s − k) + k = s on all eight fields |
| Vec8D.ScaleDivScalarInverse | src/vectors/vec8d.rs:135-186 | dividing by a scalar of at least DIV_EPSILON undoes scaling by it |
| Vec8D.DivScalarBelowEpsilon | src/vectors/vec8d.rs:170-186 | a divisor at most DIV_EPSILON acts as DIV_EPSILON |
| Vec8D.DivClampsEachComponent | src/vectors/vec8d.rs:153-168 | every divisor component is clamped on its own; unclamped divisors undo a product |
| Vec8D.DivOfClamped | src/vectors/vec8d.rs:153-168 | dividing by divisors clamped beforehand is the same as dividing by the raw divisors |
| Vec8D.MulDivInverse | src/vectors/vec8d.rs:135-168 | when no divisor component is clamped, dividing a component-wise product by the divisors gives the other factor back |
| Vec8D.MagnitudeZeroIff | src/vectors/vec8d.rs:36-47 | the magnitude is ≥ 0 and 0 only for the all-zero tuple |
| Vec8D.ToCartesian | src/vectors/vec8d.rs:260-290 | no contract of its own; characterised by Vec8D.ToCartesianPosition, Vec8D.ToCartesianVelocityLinear and Vec8D.VelocityScales |
| Vec8D.ToSpherical | src/vectors/vec8d.rs:352-386 | no contract of its own; characterised by Vec8D.ToSphericalPosition, the three Vec8D.ToSpherical…Rate lemmas and Vec8D.ToSphericalOnAxis |
| Vec8D.ToCartesianPosition | src/vectors/vec8d.rs:260-290 | t and dt are carried through, and the position is the 4-D spherical → Cartesian conversion |
| Vec8D.ToCartesianVelocityLinear | src/vectors/vec8d.rs:260-290 | zero angular and radial rates give zero Cartesian velocity; scaling the rates scales it |
| Vec8D.VelocityScales | src/vectors/vec8d.rs:260-290 | scaling (dr, dθ, dφ) by k scales the converted (dx, dy, dz) by k |
| Vec8D.CartesianVelocityLinear | src/vectors/vec8d.rs:281-287 | the chain-rule velocity is linear in the rates: (dr, dθ, dφ)·k gives (dx, dy, dz)·k at the same position |
| Vec8D.ToSphericalPosition | src/vectors/vec8d.rs:352-386 | t and dt carried, r ≥ 0, r = 0 exactly at the spatial origin with θ = 0, position equal to the spatial-radius 4-D conversion |
| Vec8D.RadialRate | src/vectors/vec8d.rs:364-368 | the radial rate is 0 when r ≤ ε and otherwise solves r·dr = position · velocity |
| Vec8D.PolarRate | src/vectors/vec8d.rs:370-377 | the polar rate is 0 unless r and ρ exceed ε, and otherwise solves r²ρ·dθ = z(x·dx + y·dy) − ρ²·dz |
| Vec8D.AzimuthalRate | src/vectors/vec8d.rs:379-383 | the azimuthal rate is 0 when ρ² ≤ ε and otherwise solves ρ²·dφ = x·dy − y·dx |
| Vec8D.ToSphericalRadialRate | src/vectors/vec8d.rs:360-368 | dr = 0 when r ≤ ε, else dr·r = position · velocity |
| Vec8D.ToSphericalPolarRate | src/vectors/vec8d.rs:360-377 | dθ = 0 when r or ρ ≤ ε, else dθ·r²ρ = z(x·dx + y·dy) − ρ²·dz |
| Vec8D.ToSphericalAzimuthalRate | src/vectors/vec8d.rs:378-383 | dφ = 0 when ρ² ≤ ε, else dφ·ρ² is the z-component of position × velocity |
| Vec8D.ToSphericalOnAxis | src/vectors/vec8d.rs:361-383 | on the z-axis dθ = dφ = 0 |
| Geodesic.Altitude | src/geodesic.rs:7 | the altitude is at least DIV_EPSILON: r − rs above that, DIV_EPSILON at or inside the horizon |
| Geodesic.Geodesic | src/geodesic.rs:5-40 | no contract of its own; characterised by Geodesic.GeodesicCarriesVelocity, Geodesic.GeodesicAtRest and Geodesic.GeodesicEquatorial |
| Geodesic.GeodesicCarriesVelocity | src/geodesic.rs:30-39 | the derivative's first four components are (dt, dr, dθ, dφ) |
| Geodesic.GeodesicAtRest | src/geodesic.rs:9-39 | with r ≠ 0, sin θ ≠ 0 and all four velocities zero, the whole derivative is zero |
| Geodesic.GeodesicEquatorial | src/geodesic.rs:18-22 | with r ≠ 0, cos θ = 0 and dθ = 0, d²θ = 0: equatorial motion stays equatorial |
| Geodesic.ComputeStages | src/geodesic.rs:47-62 | a step of size 0 evaluates the field six times at the state itself, and a constant field gives six equal stages |
| Geodesic.StageInputsAtNodes | src/geodesic.rs:47-62 | each tableau row sums to its node: equal stages c give inputs s + c·h·(1/4, 3/8, 12/13, 1, 1/2) |
| Geodesic.EstimatesOfConstantStages | src/geodesic.rs:64-75 | both weight rows sum to 1: equal stages c give both estimates s + h·c |
| Geodesic.PseudoStep | src/geodesic.rs:42-82 | a step of size 0 returns the state itself and a constant field c returns state + h·c; in both cases the two estimates agree, so the error is the norm of the zero tuple |
| Geodesic.CappedStep | src/geodesic.rs:104-106 | the next step is the suggestion, capped at twice the accepted step |
| Geodesic.Retry | src/geodesic.rs:96-116 | the loop tries h first and each rejected suggestion next, at most max_retries + 1 times; accepted (error < tol) it returns that state and the capped step, otherwise the untouched initial state, the last step tried and false |
| Geodesic.Rkf45 | src/geodesic.rs:84-117 | the same outcome, with trials being pseudo-steps from the initial state |
| Geodesic.SolveGeodesic | src/geodesic.rs:119-134 | the same outcome, on the geodesic field with tolerance and minimum step proportional to rs |
| Geodesic.Rkf45OutcomeConsequences | src/geodesic.rs:96-116 | at most max_retries + 1 trials; success means some trial had error < tol, its state is returned and the next step is at most twice it; failure returns the initial state and a step that was tried |
| Geodesic.Rkf45FirstTrialAccepted | src/geodesic.rs:103-107 | if the first trial passes, it is the only trial and its state and capped step are returned |
| Geodesic.Rkf45NoRetries | src/geodesic.rs:110-113 | with max_retries = 0 a failed first trial ends the loop: the initial state, h and false |
| Geodesic.Rkf45GivesUpBelowMinimum | src/geodesic.rs:111-112 | a failed first trial suggesting a step below min_h ends the loop at once |
| Raster.Filled | src/backend.rs:22 | a new image has width·height pixels, all in the one colour |
| Raster.SetPixel | src/gpu/backend.rs:104 | exactly the pixel at row-major position y·width + x changes |
| Raster.RowMajorInBounds | src/backend.rs:34-35 | a column below the width and a row below the height give a position below width·height |
| Raster.RowMajorSplit | src/backend.rs:31-32 | position k is column k mod width of row k div width |
| Backend.RowBelowHeightIff | src/backend.rs:31-34 | chunk k's row is below the height exactly when k < width·height |
| Backend.PaintKeepsPrefix | src/backend.rs:28-35 | painting chunk i at its own position extends "first i chunks painted, rest black" to i + 1 |
| Backend.ToImage | src/backend.rs:21-39 | the error for a ragged tail comes exactly when the length is not a multiple of 3, and reports its length; otherwise chunk k is pixel k in opacity 1 for k below the chunk count, and pixels past it stay black |
| Backend.GpuToImage | src/gpu/backend.rs:96-108 | never fails; item k is copied verbatim to pixel k, uncovered pixels stay black, rows past the height are skipped |
| Backend.NumPixels | src/gpu/backend.rs:139 | the pixel count is 0 for a non-positive area, the integer part of width·height below 2^32 − 1, and 2^32 − 1 for any larger area |
| Backend.Workgroups | src/gpu/backend.rs:294 | 64·groups ≥ num_pixels, 64·(groups − 1) < num_pixels when num_pixels > 0, and 0 groups for 0 pixels |
| Backend.DistinctChunksDistinctPixels | src/backend.rs:31-32 | distinct chunk indices below width·height land on distinct pixels |
| Backend.ChunkLandsOnItsPixel | src/backend.rs:28-35 | a decoded image holds chunk i at (i mod width, i div width), opaque, whenever that row exists |
| Backend.BufferSize | src/gpu/backend.rs:172 | no contract of its own; characterised by Backend.BufferSizeExactIff and Backend.BufferSizeWrapsAtLargeScreens |
| Backend.BufferSizeExactIff | src/gpu/backend.rs:172 | the output buffer holds num_pixels × 16 bytes exactly when num_pixels < 2^28; beyond, the u32 product wraps |
| Backend.BufferSizeWrapsAtLargeScreens | src/gpu/backend.rs:139-172 | a 16384 × 16384 window gets a 0-byte output buffer |
| Backend.WorkgroupsLeast | src/gpu/backend.rs:294 | no smaller workgroup count covers every pixel |
| Skybox.AsF32Slice | src/skybox.rs:24-26 | the slice has 3·len(data) floats, texel i's channels at 3i, 3i + 1, 3i + 2 |
| Skybox.Flatten | src/skybox.rs:24-26 | laying texels out flat puts texel i's r, g, b at 3i, 3i + 1, 3i + 2 |
| Skybox.FlattenChunks | src/skybox.rs:24-26 | read back in chunks of three, as `to_image` reads a buffer, the slice gives texel i, opaque, as chunk i, and has no ragged tail |
| Skybox.SampleIndex | src/skybox.rs:117-121 | for width, height ≥ 1 the sampled index, computed in wrapping u32 arithmetic, is below width·height for any direction |
| Skybox.Sample | src/skybox.rs:112-123 | the sampled colour is opaque and is one of the texels |
| Skybox.Brightness | src/skybox.rs:52 | a star's brightness is between 0 and its brightness roll, and positive when its size and roll are |
| Skybox.SizeFraction | src/skybox.rs:52 | the size share min(size/4, 1) lies in [0, 1] and is positive for a positive size |
| Skybox.FractionOf | src/skybox.rs:52 | a share in [0, 1] of a non-negative roll lies between 0 and the roll, and is positive when both are |
| Skybox.StarColor | src/skybox.rs:54-61 | every channel lies between 0 and the brightness, the red or blue channel equals it, and the channels are ordered red ≥ green ≥ blue below temperature 0.3, blue ≥ green ≥ red above 0.7, and equal between |
| Skybox.Brighten | src/skybox.rs:76-78 | every channel ends at most 1, and a non-negative addition never darkens a channel that was at most 1 |
| Skybox.Cap | src/skybox.rs:76-78 | `min(1.0)` gives a value at most 1 and at most its input |
| Skybox.DrawStar | src/skybox.rs:63-80 | drawing one star keeps the texel count, keeps every channel in [0, 1], lights only texels within the star's size of its centre, always lights the centre texel, darkens no texel that was lit, and changes no texel farther than the star's size from its centre |
| Skybox.DrawStarRow | src/skybox.rs:65-79 | one row dy of the star's square keeps the texel count and the channel range, lights only texels near the star, lights the centre when dy = 0, darkens no texel that was lit, and changes only texels of row cy + dy near the star |
| Skybox.DrawStarTexel | src/skybox.rs:66-79 | one offset (dx, dy) of the star's square keeps the texel count and the channel range, lights the centre at offset (0, 0), darkens no texel that was lit, and changes only a texel of row cy + dy near the star |
| Skybox.ChangeNearInRow | src/skybox.rs:74-78 | writing the texel at (x, y), which is near the star, keeps the promise that only texels near the star and in row y differ from the original grid |
| Skybox.CentreIndex | src/skybox.rs:74 | the index of a drawn star's centre lies inside the width·height grid |
| Skybox.CentreIsNear | src/skybox.rs:66-73 | the centre offset (0, 0) is at distance 0, within the star's size, and its fade exp(0) is positive |
| Skybox.CentreLights | src/skybox.rs:76-78 | light of a non-negative, not-dark colour at positive intensity lights any texel whose channels lie in [0, 1] |
| Skybox.LightTexel | src/skybox.rs:69-78 | lighting an in-bounds texel near star i with a non-negative colour keeps every channel in [0, 1], every lit texel near one of the first i + 1 stars, and every lit texel lit |
| Skybox.DivModOfRowMajor | src/skybox.rs:74 | position y·width + x, x < width, is column x of row y |
| Skybox.GenerateStarField | src/skybox.rs:36-90 | the field has width·height texels, every channel in [0, 1], a texel is lit only within a star's size of that star's centre, and every star's centre texel is lit |
| Skybox.EmptyFieldIsDark | src/skybox.rs:37 | the field starts as width·height black texels, none lit |
| Skybox.NearIffSquared | src/skybox.rs:70-71 | "within the star's size" is dx² + dy² ≤ size² |
| Scenes.New | src/scene.rs:18-27 | a new scene has size (w, h, 0), the given black hole, no rays and dt = 1 |
| Scenes.ScreenSize | src/scene.rs:47-49 | the window size vector is (width, height, 0) |
| Scenes.CenterCoords | src/scene.rs:51-53 | twice the centre is the scene size |
| Scenes.SizeRatios | src/scene.rs:55-58 | the ratios times the clamped window size are the scene size |
| Scenes.MinSizeRatio | src/scene.rs:60-63 | the uniform ratio is the smaller of the x and y ratios |
| Scenes.AddRay | src/scene.rs:82-84 | the ray is appended, earlier rays and all other fields unchanged |
| Scenes.ToScreenCoords | src/scene.rs:65-80 | no contract of its own; characterised by Scenes.ToScreenUniformScale, Scenes.OriginToWindowCentre and Scenes.CentreAxis |
| Scenes.ToScreenUniformScale | src/scene.rs:65-80 | x and y differences are scaled by the same factor 1/ratio: aspect is kept |
| Scenes.OriginToWindowCentre | src/scene.rs:65-80 | with a uniform ratio of at least DIV_EPSILON, the world origin maps to the window centre |
| Scenes.CentreAxis | src/scene.rs:70-79 | on one axis, the shifted origin plus the centring offset is half the window |
| Scenes.ScaledSceneCoversWindow | src/scene.rs:60-76 | for positive sizes, the scaled scene is at least as large as the window on both axes and equal on one |
| Scenes.CoverAxis | src/scene.rs:60-76 | on one axis, the scene divided by a ratio no larger than that axis's own ratio covers the window, exactly when the ratio is its own |
| Rays.New | src/ray.rs:23-30 | a new ray has the given position and direction, an empty trail and counter 0 |
| Rays.Window | src/ray.rs:36-39 | the kept trail is the last min(len, 256) entries |
| Rays.Step | src/ray.rs:32-41 | a step moves by direction × 300 000 000, keeps the direction, adds 1 to the counter, and leaves the last 256 entries of the trail plus the new position |
| Rays.Path | src/ray.rs:32-33 | the k-th position visited is the start plus k steps |
| Rays.StepTrailBounded | src/ray.rs:35-39 | after a step the trail has at most 256 entries and ends with the new position |
| Rays.PositionAfterStep | src/ray.rs:33 | k steps after one step is k + 1 steps |
| Rays.PathStep | src/ray.rs:32-33 | the path of n + 1 steps is the first new position followed by the path of n steps from there |
| Rays.WindowConcat | src/ray.rs:36-39 | trimming the trail early and trimming at the end give the same window |
| Rays.StepsMotion | src/ray.rs:32-34 | after n steps the counter has grown by n, the direction is kept and the position has advanced n steps |
| Rays.StepsTrail | src/ray.rs:32-41 | after n steps the trail is the last 256 of the old trail followed by all visited positions, the oldest dropped first |
| Rays.WindowOfPath | src/ray.rs:35-39 | the last 256 positions of a path are its latest positions, in order |
| Rays.TrailFromNew | src/ray.rs:23-41 | from `new`, after n steps the trail holds min(n, 256) entries, the latest positions in order |
| Rays.Segments | src/ray.rs:57-74 | an empty trail draws nothing; otherwise segment k joins entries len − 2 − k and len − 1 − k, both in bounds |
| Rays.SegmentAlphas | src/ray.rs:67 | on a trail of at most 256 entries every alpha is strictly between 0 and 1, and older segments are fainter |
| Rays.SegmentsFollowPath | src/ray.rs:61-66 | every segment of a ray's trail joins two consecutive positions the ray took |
| Rays.SegmentsOfLatest | src/ray.rs:61-64 | segment k of a trail of the latest positions joins the positions n − k − 1 and n − k steps on |
| BlackHoles.SchwarzschildRadius | src/black_hole.rs:46-49 | the radius is twice the mass, positive exactly for a positive mass |
| BlackHoles.New | src/black_hole.rs:20-28 | coordinates and mass are stored unchanged, the radius is derived from the mass, the colour is red |
| BlackHoles.Sagittarius | src/black_hole.rs:16-18 | mass 1 at the all-zero origin, hence radius 2 |
| BlackHoles.AccessorsRoundTrip | src/black_hole.rs:30-44 | the accessors give back what `new` stored, with radius twice the mass |
| BlackHoles.RadiusIsHorizon | src/black_hole.rs:46-49 | for positive mass the radius is the horizon of the metric the geodesic integrates: 1 − rs/r > 0 exactly outside it and = 0 on it |

## Left out

- I/O and rendering: window handling and frame loop (src/lib.rs, src/main.rs), macroquad drawing (`Scene::render`, the `Draw` implementations, the circles and lines `draw` strokes), and picture loading and gamma conversion in `Skybox::from_path`/`from_image`. The model keeps only the index and alpha arithmetic of `Ray::draw`.
- Concurrency: the worker pool of src/threading.rs.
- Foreign calls: the wgpu device, pipeline and buffer setup in src/gpu/backend.rs, the CUDA backend, build.rs, and the host/device marshalling types. The shaders and kernels that hold the actual ray marching are not part of this model.
- `Scene::step` calls `ray.step(black_hole, dt)`, which src/ray.rs does not define; it is left out.
- Floating point: f64 and f32 are exact reals. There is no rounding, no f32 narrowing of sky texels or alphas, and no convergence claims for the integrator. IEEE infinities and NaNs from unclamped divisions appear only as the unspecified `Quot` value.
- Geodesic.PseudoStep: the `Norm` of the eight-component state comes from src/tensors/tensor8d.rs, which is not part of this model, so the norm is a parameter. The suggested step uses `powf` as an uninterpreted function, so only its placement in the formula is modelled.
- Geodesic.SolveGeodesic: `RKF45_TOLERANCE_FACTOR`, `RKF45_MIN_STEP_FACTOR` and `RFK45_RETRIES` are not defined in the constants file, so they are parameters.
- Backend.ToImage: when a buffer holds more than 2^32 chunks, `index as u32` wraps and later chunks overwrite earlier pixels. The exact pixel contents are stated only up to 2^32 chunks; the error and dimension clauses hold for every length.
- Backend.GpuToImage: likewise, exact pixel contents are stated only for at most 2^32 items.
- Backend.ToImage: the width must be positive whenever the buffer holds a whole chunk, because `index % width` panics on a zero width; that panic is not modelled.
- Backend.GpuToImage: the width must be positive whenever there is an item, for the same `% width`; that panic is not modelled.
- Backend.BufferSize: `num_pixels * 16` is computed in u32 and wraps as a release build does. A debug build panics on this overflow, from 2^28 pixels up; that panic is not modelled.
- Backend.BufferSizeExactIff: states the release-build wrap; in a debug build the sizes at or above 2^28 pixels panic instead of wrapping.
- Backend.BufferSizeWrapsAtLargeScreens: the 0-byte buffer is the release-build result; a debug build panics on that multiplication.
- Raster.SetPixel: macroquad stores colours as bytes. The model keeps the four real channels, with no rounding to 8 bits.
- Skybox.GenerateStarField: the random draws are an input sequence, each within the range its `gen_range` call uses. The width must be positive and width·height must fit in 32 bits, because the source computes it in u32. Each star's centre is assumed to lie inside the grid. `gen_range(3, width − 3)` guarantees that from 7 columns and rows up. For a narrower grid the source calls `gen_range` on an empty or reversed range (and below 3 the u32 subtraction underflows), which is not modelled.
- Skybox.Sample: the width and height must be at least 1, since `width − 1` would underflow. The data must hold width·height texels, as both constructors make it.
- Skybox.SampleIndex: `y * width + x` is u32 arithmetic and wraps past 2^32, as a release build computes it. A debug build panics there instead, once width·height exceeds 2^32; that panic is not modelled.
- Scenes: the window size read from macroquad is a parameter.
- The plain record of hyperparameters and the physical constants are mirrored as a datatype and constants, with no behaviour.

## Findings

| source | as written | input that shows it | evidently intended | confidence | as-written member | corrected member |
|---|---|---|---|---|---|---|
| src/vectors/vec4d.rs:204 | `CartesianCoords4D::to_spherical` takes r as `magnitude()`, which sums t² with x², y² and z² | (t, x, y, z) = (1, 1, 0, 0) gets r = √2, although the point is at spatial distance 1; θ is then acos(0/√2) as well | r = sqrt(x² + y² + z²), as `CartesianState4D::to_spherical` computes for the same position (src/vectors/vec8d.rs:352-386) | medium, not executed | Vec4D.ToSpherical, Vec4D.ToSphericalCountsTime | Vec4D.ToSphericalSpatial, Vec4D.ToSphericalAgreesIffTimeZero, Vec8D.ToSphericalPosition |
