# A verified model of a small ray tracer's core

This project models, in Dafny, the core of a Rust ray tracer that follows the
"Ray Tracing in One Weekend" design. It covers:

- **Vector algebra** (`Vector`, from `src/vec3.rs`): the operators, dot and cross product,
  the near-zero test, the unit vector with its zero-length guard, reflection, refraction and
  the hemisphere flip.
- **Rays** (`Rays`, from `src/ray.rs`): an origin and a direction, and `at(t)`.
- **Intervals** (`Intervals`, from `src/interval.rs`): inclusive `contains`, exclusive
  `surrounds`, `clamp`, and the empty and universal intervals. Infinite ends are values of
  an extended-real type.
- **Hit records and spheres** (`Hittable`, from `src/hittable.rs`).
  - A hit record is a class whose fields `set_face_normal` and `Sphere::hit` update in place.
  - The sphere test selects the nearer root of the ray–sphere quadratic that lies strictly
    inside the interval.
- **The scene** (`HittableLists`, from `src/hittable_list.rs`).
  - A class holding a sequence of spheres, with `add`, `with_object` and `clear`.
  - The nearest-hit scan is a loop proved against a recursive specification function.
- **Materials** (`Materials`, from `src/material.rs`).
  - Lambertian, metal and dielectric scattering.
  - Schlick's reflectance approximation.
  - The fuzz cap of `Metal::new`.
- **The camera** (`Cameras`, from `src/camera.rs`): `Camera::new` with its image-height
  clamp, the primary ray through a pixel, the pixel jitter, and the recursive `ray_color`.

Scalars (`f32` in the source) are Dafny `real`s. Some inputs become explicit parameters:

- **Square roots** are a parameter `sqrt: real -> real`. The lemmas that need its meaning
  require `SqrtOracle(sqrt)`: on every non-negative argument it returns the non-negative
  root.
- **Random draws** are also parameters:
  - a `Materials.Draw` holds the random unit vector and the uniform number of one bounce;
  - a `Cameras.SampleDraw` holds the two jitter numbers and the lens-disk point of one
    primary ray;
  - `ray_color` takes one `Draw` per bounce.
- **The panic** in `ray_color` on a hit without a material is the `None` result of
  `Cameras.RayColorOf`.

## Model

| member | source | states |
|---|---|---|
| Vector.WithComponent | src/vec3.rs:106-115 | `index_mut` on index `i < 3` sets that component to the new value and leaves the other two unchanged |
| Vector.Index | src/vec3.rs:94-104 | `v[i]` reads x, y or z for `i < 3`; a larger index panics and is excluded. `WithComponent` writes exactly the component `Index` reads |
| Vector.Neg | src/vec3.rs:64-69 | componentwise negation; `DotNeg` moves it out of the dot product and `NearZeroSmall` keeps a near-zero vector near zero under it |
| Vector.Add | src/vec3.rs:125-130 | componentwise sum; `ArithmeticExamples` gives (1,2,3)+(4,5,6)=(5,7,9), and `DotAdd` and `LengthSquaredAdd` relate it to the dot product |
| Vector.Sub | src/vec3.rs:132-137 | componentwise difference; `ArithmeticExamples` gives (1,2,3)-(4,5,6)=(-3,-3,-3), and `DotSub` and `LengthSquaredSub` relate it to the dot product |
| Vector.Mul | src/vec3.rs:139-144 | componentwise product; `ArithmeticExamples` gives (1,2,3)*(4,5,6)=(4,10,18), and `Cameras.MulUnitCube` keeps colours in the unit cube |
| Vector.Scale | src/vec3.rs:146-158 | `s * v` and `v * s` alike; `DotScaleLeft`, `DotScaleRight` and `LengthSquaredScale` carry its properties |
| Vector.Div | src/vec3.rs:160-165 | the componentwise quotient by a vector with no zero component: multiplying back by the divisor recovers the dividend |
| Vector.Dot | src/vec3.rs:178-180 | the sum of the component products; `DotExamples` gives the test values, `DotSymmetric` and `DotAdd` its algebra, `Lagrange` the Cauchy–Schwarz bound |
| Vector.Cross | src/vec3.rs:182-188 | the cross product; `CrossExamples` gives the test values, `CrossOrthogonal` orthogonality and anti-commutativity, `Lagrange` its length |
| Vector.NearZero | src/vec3.rs:56-61 | every component has absolute value below 1e-8; `NearZeroExamples` gives the test cases and `NearZeroSmall` bounds the squared length |
| Vector.UnitVector | src/vec3.rs:190-196 | zero when the length is not positive, else `v / \|v\|`; `UnitVectorSpec` and `UnitVectorComponents` carry its properties |
| Vector.Reflect | src/vec3.rs:236-239 | `v - 2 (v·n) n`; `ReflectExamples`, `ReflectLength` and `ReflectSpec` carry its properties |
| Vector.Refract | src/vec3.rs:241-247 | the perpendicular part `η (uv + cosθ n)` plus the parallel part `-√\|1 - \|perp\|²\| n`; `RefractPerp` and `RefractUnit` carry its properties |
| Vector.DivScalar | src/vec3.rs:167-176 | dividing by a non-zero scalar is undone by scaling back: `s * (v / s) == v` |
| Vector.MulDivCancel | src/vec3.rs:167-176 | the scalar cancellation `s * (a * 1/s) == a` for `s != 0`, which `DivScalar` uses to scale its result back |
| Vector.AddAssign | src/vec3.rs:71-77 | `+=` leaves the componentwise sum |
| Vector.MulAssign | src/vec3.rs:79-85 | `*=` by a scalar leaves the scaled vector |
| Vector.DivAssign | src/vec3.rs:86-92 | `/=` by a non-zero scalar leaves the quotient, which scales back to the original vector |
| Vector.LengthSquared | src/vec3.rs:33-36 | the squared length is the vector's dot product with itself and is never negative |
| Vector.OnHemisphere | src/vec3.rs:226-234 | `random_on_hemisphere` returns the sample or its negation; the result never points against the normal; it keeps the sample exactly when the sample points strictly into the normal's side, and negates it otherwise, a sample in the tangent plane included |
| Vector.ArithmeticExamples | src/vec3.rs:125-176 | (1,2,3)+(4,5,6)=(5,7,9); (1,2,3)-(4,5,6)=(-3,-3,-3); (1,2,3)*(4,5,6)=(4,10,18); 2*(1,2,3)=(2,4,6); componentwise and scalar division; \|(1,2,3)\|² = 14 |
| Vector.DotExamples | src/vec3.rs:315-324 | dot((1,2,3),(4,5,6)) = 32 and dot((-1,0,-1),(1,-2,1)) = -2 |
| Vector.CrossExamples | src/vec3.rs:326-343 | cross((1,2,3),(4,5,6)) = (-3,6,-3) and cross((-1,0,-1),(1,-2,1)) = (-2,0,2) |
| Vector.CrossOrthogonal | src/vec3.rs:182-188 | the cross product is orthogonal to both factors and anti-commutative |
| Vector.Lagrange | src/vec3.rs:178-188 | \|a×b\|² = \|a\|²\|b\|² − (a·b)², hence the Cauchy–Schwarz inequality |
| Vector.DotSymmetric | src/vec3.rs:178-180 | the dot product is symmetric |
| Vector.DotAdd | src/vec3.rs:178-180 | the dot product distributes over a sum |
| Vector.DotScaleLeft | src/vec3.rs:178-180 | a scalar factor moves out of the dot product |
| Vector.LengthSquaredScale | src/vec3.rs:33-36 | scaling by `s` multiplies the squared length by `s²` |
| Vector.LengthSquaredZero | src/vec3.rs:33-36 | the squared length is zero exactly for the zero vector and positive otherwise |
| Vector.NearZeroExamples | src/vec3.rs:345-355 | (0,0,0) and (1e-9,1e-9,1e-9) are near zero; (1,2,3) is not |
| Vector.NearZeroSmall | src/vec3.rs:56-61 | a near-zero vector has squared length below 3·(1e-8)², and so does its negation |
| Vector.UnitVectorSpec | src/vec3.rs:190-196 | the zero vector maps to zero; any other vector has positive length, is its length times its unit vector, and has a unit vector of length 1 |
| Vector.UnitVectorComponents | src/vec3.rs:190-196 | every component of `unit_vector(v)` lies in [-1, 1] |
| Vector.ReflectExamples | src/vec3.rs:357-380 | reflecting zero gives zero; a unit normal reflects about itself to its negation, e.g. (0,1,0) to (0,-1,0); for the third test case, the unit vector (k,k,0) of (1,1,0) reflects about (1,0,1) to (-k,k,-2k), which for k = 1/√2 is the expected (-0.7071, 0.7071, -1.4142) |
| Vector.ReflectLength | src/vec3.rs:236-239 | the squared length of `reflect(v, n)` in terms of \|v\|², v·n and \|n\|² |
| Vector.ReflectSpec | src/vec3.rs:236-239 | about a unit normal, reflection negates the normal component, preserves length and is an involution |
| Vector.RefractPerp | src/vec3.rs:241-247 | for unit `uv` and `n`, the perpendicular part of the refracted ray is orthogonal to `n` and has squared length η²(1 − cos²θ) |
| Vector.RefractUnit | src/vec3.rs:241-247 | when η²(1 − cos²θ) ≤ 1 (no total internal reflection), the refracted direction of a unit vector is a unit vector |
| Rays.Ray.At | src/ray.rs:27-31 | the point at `t` is the origin displaced by `t` times the direction |
| Rays.New | src/ray.rs:10-25 | `origin()` and `direction()` return exactly the values given to `new` |
| Rays.AtEnds | src/ray.rs:27-31 | `at(0)` is the origin and `at(1)` is origin plus direction |
| Rays.AtShift | src/ray.rs:27-31 | `at` is affine: `at(t + s) = at(t) + s·dir` |
| Intervals.Interval.Contains | src/interval.rs:22-25 | `min <= x <= max`, inclusive at both ends; `SurroundsContains` and `ClampSpec` relate it to `surrounds` and `clamp` |
| Intervals.Interval.Surrounds | src/interval.rs:27-30 | `min < x < max`, exclusive; `SurroundsContains` shows it implies `contains` |
| Intervals.Default | src/interval.rs:8-15 | `Default` is from plus to minus infinity and contains or surrounds no value |
| Intervals.Empty | src/interval.rs:41-44 | `empty()` contains or surrounds no value |
| Intervals.Universe | src/interval.rs:46-49 | `universe()` contains and surrounds every value |
| Intervals.Interval.Clamp | src/interval.rs:32-39 | `clamp` returns the lower end, the upper end or `x` itself |
| Intervals.New | src/interval.rs:18-20 | `new` stores the two bounds |
| Intervals.ClampSpec | src/interval.rs:32-39 | `clamp(x) == x` exactly when the interval contains `x`; on a non-empty interval the result lies inside it; clamping is idempotent |
| Intervals.SurroundsContains | src/interval.rs:22-30 | `surrounds` implies `contains`, and the two differ only at the end points |
| Intervals.EmptyAndUniverse | src/interval.rs:8-15 | `Default` equals `empty()`; `empty()` contains and surrounds nothing; `universe()` surrounds every real |
| Intervals.AtMostTotal | src/interval.rs:22-30 | the order on extended reals is total and antisymmetric |
| Intervals.AtMostTransitive | src/interval.rs:22-30 | the order on extended reals is transitive |
| Intervals.SurroundsNarrowed | src/hittable_list.rs:42 | narrowing the upper end to `c` surrounds exactly the points surrounded before that lie strictly below `c` |
| Hittable.FaceNormal | src/hittable.rs:26-35 | `front_face` holds iff the ray opposes the outward normal; the stored normal is the outward normal on the front face and its negation otherwise (a ray orthogonal to the normal included), never points along the ray, and keeps its length |
| Hittable.HitRecord.constructor | src/hittable.rs:13-25 | a fresh record holds the default (zero) values and no material |
| Hittable.HitRecord.SetFaceNormal | src/hittable.rs:26-35 | sets `front_face` and `normal` as `FaceNormal` says and leaves `p`, `t` and the material unchanged |
| Hittable.HitRecord.CopyFrom | src/hittable_list.rs:46 | the record becomes a copy of the other record |
| Hittable.Sphere.HitAt | src/hittable.rs:77-82 | the record of a hit at `t` has `p = r.at(t)`, the sphere's material and the oriented normal `(p - center) / radius` |
| Hittable.Sphere.HitOf | src/hittable.rs:55-85 | a reported hit lies strictly inside the interval and carries that parameter's record; a zero direction never hits |
| Hittable.Sphere.Hit | src/hittable.rs:55-85 | returns true exactly when `HitOf` finds a root; then the record holds that hit, otherwise it is untouched |
| Hittable.Roots | src/hittable.rs:56-75 | with `a ≠ 0` and `s = √disc`, `t` solves the quadratic exactly when it is one of the two roots the code computes |
| Hittable.NoRoot | src/hittable.rs:60-64 | a negative discriminant leaves the quadratic without a real root |
| Hittable.RootsOrdered | src/hittable.rs:69-71 | the first root tried is never larger than the second |
| Hittable.SurfaceQuadratic | src/hittable.rs:56-60 | `r.at(t)` lies on the sphere exactly when `t` solves `a t² + 2 half_b t + c = 0` |
| Hittable.SphereMissed | src/hittable.rs:60-64 | with a negative discriminant no point of the ray lies on the sphere |
| Hittable.SphereRoots | src/hittable.rs:66-75 | the ray meets the sphere exactly at the two computed roots, the nearer one first |
| Hittable.HitSpec | src/hittable.rs:55-85 | a reported hit lies on the sphere at the smallest parameter inside the interval where the ray meets it; with a non-zero direction, no hit means no such parameter |
| Hittable.HitAtNormal | src/hittable.rs:77-81 | at a surface point the stored normal has unit length and never points along the ray; with a positive radius `front_face` means the ray comes from outside |
| Hittable.SphereExample | src/hittable.rs:55-85 | the sphere of radius 0.5 at (0,0,-1), met by the ray from the origin along -z, is hit at t = 0.5, at the point (0,0,-0.5) |
| Hittable.NewSphere | src/hittable.rs:44-51 | `Sphere::new` stores centre, radius and material |
| HittableLists.Closest | src/hittable_list.rs:34-50 | the scan's winner is an index of the list, and its record carries that object's material |
| HittableLists.ScanStep | src/hittable_list.rs:39-48 | one iteration, testing the last object below the nearest hit so far, preserves the scan's answer |
| HittableLists.ScanAnswerHolds | src/hittable_list.rs:34-50 | by induction over the list, the scan's result satisfies the nearest-hit answer |
| HittableLists.ClosestSpec | src/hittable_list.rs:34-50 | a hit belongs to the object it names and is the smallest parameter inside the interval at which the ray meets any object; earlier objects meet the ray only strictly further away, so ties go to the earlier object; a miss means no object meets the ray inside the interval |
| HittableLists.HittableList.constructor | src/hittable_list.rs:13-15 | a new list is empty |
| HittableLists.HittableList.Add | src/hittable_list.rs:22-25 | the object is appended after the earlier ones, which keep their order |
| HittableLists.HittableList.WithObject | src/hittable_list.rs:17-20 | the same as `add` |
| HittableLists.HittableList.Clear | src/hittable_list.rs:27-30 | the list becomes empty |
| HittableLists.HittableList.Hit | src/hittable_list.rs:34-50 | the loop returns true exactly when the scan finds a hit; the record then holds the nearest hit, otherwise it is untouched |
| Materials.NewMetal | src/material.rs:58-62 | fuzz below 1 is kept, fuzz of 1 or more becomes 1, so the stored fuzz is at most 1 |
| Materials.ReflectanceNormal | src/material.rs:44-49 | at normal incidence (cosine 1) the reflectance is `r0 = ((1-η)/(1+η))²` |
| Materials.ReflectanceGrazing | src/material.rs:44-49 | at grazing incidence (cosine 0) the reflectance is 1 |
| Materials.R0Unit | src/material.rs:46-47 | for η ≥ 0, `r0` lies in [0, 1] |
| Materials.ReflectanceBounds | src/material.rs:44-49 | for η ≥ 0 and a cosine in [0, 1], the reflectance lies between `r0` and 1 |
| Materials.Reflectance | src/material.rs:44-49 | Schlick's approximation `r0 + (1 - r0)(1 - cos)⁵`; `ReflectanceNormal`, `ReflectanceGrazing` and `ReflectanceBounds` carry its properties |
| Materials.TotalInternalReflection | src/material.rs:106-108 | `ratio · sin_theta > 1` with `sin_theta = √(1 - cos²)`; a negative radicand gives NaN in the source, which fails the comparison; `NoTotalReflection` gives its negation's meaning |
| Materials.ScatterOf | src/material.rs:66-120 | what `scatter` writes for each material; `LambertianSpec`, `MetalSpec`, `DielectricSpec` and `DielectricUnit` carry its properties |
| Materials.Scatter | src/material.rs:66-120 | scattering succeeds for every material, and the attenuation and scattered ray are those `ScatterOf` describes |
| Materials.LambertianSpec | src/material.rs:74-84 | attenuation is the albedo and the ray starts at the hit point; the direction is the normal when `normal + sample` is near zero and `normal + sample` otherwise; with a unit normal it is never zero |
| Materials.MetalSpec | src/material.rs:86-95 | attenuation is the albedo and the ray starts at the hit point; with zero fuzz the draw is irrelevant, and the direction is a unit reflection of the incoming direction |
| Materials.MetalMayScatterInward | src/material.rs:86-95 | with fuzz 1 and a sample opposite the normal, the scattered ray points into the surface, yet `scatter` still succeeds |
| Materials.DielectricSpec | src/material.rs:97-118 | attenuation is white and the ray starts at the hit point; the ratio is `1/ir` on the front face and `ir` on the back; a negative radicand `1 - cos²` never counts as total internal reflection; total internal reflection always reflects; otherwise the ray reflects when the reflectance exceeds the draw and refracts when it does not |
| Materials.NoTotalReflection | src/material.rs:104-108 | without total internal reflection, η²(1 − cos²θ) ≤ 1 |
| Materials.RefractedUnit | src/material.rs:104-113 | without total internal reflection a unit direction refracts to a unit direction |
| Materials.DielectricUnit | src/material.rs:97-118 | for a positive index, a unit normal and a non-zero incoming direction, the dielectric's scattered direction has unit length |
| Cameras.Truncate | src/camera.rs:83 | the float-to-integer cast rounds toward zero |
| Cameras.SaturatingCast | src/camera.rs:83 | the `as i32` cast truncates in range and saturates at the `i32` bounds outside it |
| Cameras.ImageHeight | src/camera.rs:81-89 | the height is at least 1; it is the truncated `width / aspect` when that lies in [1, 2³¹); it saturates above; it is 1 when the quotient is below 2; a zero aspect ratio gives the saturated or the clamped value |
| Cameras.New | src/camera.rs:67-104 | the given settings are stored unchanged, the height is the clamped one, and the derived fields take the default camera's values |
| Cameras.DefaultHeight | src/camera.rs:34-65 | the default camera's stored height is the one its width and aspect ratio give |
| Cameras.SampleCoefficient | src/camera.rs:179-184 | as written, the jitter coefficient for a draw in [0, 1) lies in [0.5, 1.5) |
| Cameras.CentredCoefficient | src/camera.rs:179-184 | the corrected jitter coefficient for a draw in [0, 1) lies in [-0.5, 0.5) |
| Cameras.PixelSampleSquare | src/camera.rs:179-184 | as written: the pixel deltas scaled by `0.5 + draw`; `SampleCoefficient` bounds the coefficient and `ShiftedSample` shows the shift by one pixel |
| Cameras.DefocusDiskSample | src/camera.rs:174-177 | the centre moved by the disk point's first two coordinates along the disk vectors; `DefocusDiskSpread` bounds its distance from the centre |
| Cameras.GetRayAsWritten | src/camera.rs:161-172 | `get_ray` as written, through `PixelSampleSquare`; `SampleOffByOnePixel` equates it with `GetRay` one pixel further along each axis |
| Cameras.RayThrough | src/camera.rs:165-171 | the ray starts at the camera centre when the defocus angle is not positive and at the lens sample otherwise; it reaches the pixel sample at `t = 1` |
| Cameras.GetRay | src/camera.rs:161-172 | `get_ray` (with the corrected jitter) starts at the centre or the lens sample as the defocus angle says, and reaches the jittered point of pixel `(i, j)` at `t = 1` |
| Cameras.SampleOffByOnePixel | src/camera.rs:179-184 | the as-written ray for pixel `(i, j)` equals the corrected ray for pixel `(i+1, j+1)` with the same draws |
| Cameras.ShiftedSample | src/camera.rs:162-164 | the as-written sample point of pixel `(i, j)` is the corrected sample point of pixel `(i+1, j+1)` |
| Cameras.DefocusDiskSpread | src/camera.rs:174-177 | with orthogonal disk vectors of equal length, a lens sample lies at distance² (x² + y²)·\|u\|² from the centre, inside the lens disk for a point of the unit disk |
| Cameras.SkyBlend | src/camera.rs:209-211 | the background `(1 - a) white + a (0.5, 0.7, 1)` with `a = 0.5 (unit_dir.y + 1)`; `SkySpec` bounds it |
| Cameras.SkySpec | src/camera.rs:209-211 | the blend factor lies in [0, 1], so the background has red in [0.5, 1], green in [0.7, 1] and blue 1 |
| Cameras.RayColorOf | src/camera.rs:186-212 | black at depth 0, the background on a miss, `None` for the panic on a hit without a material, else the attenuation times the colour of the scattered ray one bounce shallower; `RayColorNoPanic`, `RayColorDraws`, `RayColorBounded` and `RayColorFirstHit` carry its properties |
| Cameras.RayColor | src/camera.rs:186-212 | the recursive method, with a fresh record, the scene query and the scatter call, returns the colour `RayColorOf` describes |
| Cameras.RayColorNoPanic | src/camera.rs:198-201 | when every sphere has a material, `ray_color` never panics |
| Cameras.RayColorDraws | src/camera.rs:186-212 | a call with `depth` bounces left consumes only the first `depth` draws |
| Cameras.MulUnitCube | src/camera.rs:204 | the componentwise product of two colours in the unit cube stays in it |
| Cameras.RayColorBounded | src/camera.rs:186-212 | when every albedo lies in the unit cube, every colour `ray_color` returns does too |
| Cameras.RayColorFirstHit | src/camera.rs:194-211 | with bounces left, a ray that meets no object inside (0.001, +∞) gets the sky colour; a hit lies beyond 0.001 on the sphere it names |

## Left out

- `f32` rounding, NaN and infinities are not modelled; scalars are exact reals. The NaN
  outcomes the source reaches are modelled where they decide a branch:
  - a zero ray direction makes both sphere roots 0/0, which no interval surrounds, so the
    sphere is missed;
  - a negative radicand makes `sin_theta` NaN, so the total-internal-reflection test is false;
  - a zero aspect ratio makes `width / aspect` infinite or NaN, which the `as i32` cast
    saturates or turns into 0.

  Other divisions by zero are excluded by preconditions:
  - a dielectric index of 0 or -1, through `Materials.ScatterDefined`;
  - a zero sphere radius, through `HittableLists.NonDegenerate`;
  - a zero divisor in `/`.

  A negative zero aspect ratio is treated as zero.
- `Vec3::new`, `with_vec`, `Lambertian::new` and `Dielectric::new` are the datatype
  constructors. `Display` for `Vec3` is formatting.
- Vector.AddAssign, Vector.MulAssign and Vector.DivAssign return the new value instead
  of updating `self` in place; the caller's variable is not mutated through a reference.
- `length` and `unit_vector` depend on the `sqrt` parameter. The lemmas require it to be the
  exact square root.
- The random samplers and their rejection loops are not part of this model:
  - `random_vector`, `random_vector_range`, `random_in_unit_sphere`, `random_in_unit_disk`
    and `random_unit_vector`;
  - `random_double`, which lives in `src/rtweekend.rs`.

  Their outputs enter as parameters. Nothing constrains a draw beyond what a lemma requires.
- Materials.Scatter: the dielectric consumes a uniform draw only when there is no total
  internal reflection. The model takes a draw on every bounce, so it does not capture how
  many numbers the generator yields.
- Materials.NewMetal: a negative fuzz is stored as given, which is what the code does; a
  description of clamping to [0, 1] is not followed.
- Cameras.RayColorOf: a depth of 0 gives black, as the code does, not the background.
- Cameras.GetRay uses the corrected pixel jitter. The code's jitter is kept as
  `Cameras.GetRayAsWritten` (see Findings).
- `Camera::initialize` is not modelled. It uses `tan`, square roots of the view geometry and
  an integer division at `src/camera.rs:114`. Cameras built by `Cameras.New` therefore keep
  the default derived fields, as the code leaves them until `initialize` runs.
- `Camera::render` (`src/camera.rs:141-159`) and the colour output in `src/color.rs` only
  print pixels and are not modelled.
- `src/render.rs` is not part of this model: it repeats the camera logic inside a parallel
  fold, which is concurrency.
- `src/main.rs`, `src/lib.rs` (an older vector type), `src/generate_scene.rs` and `src/bin/`
  are not part of this model. They are a demo, a duplicate and scene or command-line wiring.
- The `Hittable` trait's dynamic dispatch is not modelled. The scene is a list of spheres,
  which is the only implementor besides the list itself, and materials are one datatype.
- The vector tests with inexact float literals are not modelled; only their integer-valued
  cases are restated as lemmas.

## Findings

| source | as written | input that shows it | evidently intended | confidence | as-written member | corrected member |
|---|---|---|---|---|---|---|
| src/camera.rs:179-184 | `offset = -0.5` and `px = -offset + random_double()`, so the coefficients lie in [0.5, 1.5) | any pixel `(i, j)` and any draws: the ray equals the centred-jitter ray of pixel `(i+1, j+1)`; with draws 0 and 0 the sample is the corner of the next pixel | a coefficient in [-0.5, 0.5), so the sample stays in the square centred on the pixel | high, not executed | Cameras.SampleOffByOnePixel | Cameras.GetRay |
