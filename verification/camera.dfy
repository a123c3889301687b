/**
 * The camera (src/camera.rs): its construction, the primary ray through a pixel, and the
 * recursive colour of a ray.
 *
 * The random numbers the camera consumes are parameters: a `SampleDraw` holds the two
 * `random_double()` values of the pixel jitter and the `random_in_unit_disk()` point of the
 * lens, and `ray_color` receives one material `Draw` per bounce. The scene is the list of
 * spheres, and the square root is a parameter as everywhere else.
 */
module Cameras {
  import opened Options
  import opened Vector
  import opened Rays
  import opened Intervals
  import opened Hittable
  import opened HittableLists
  import opened Materials

  /** The source's `i32` and `u32`. */
  type I32 = x: int | -0x8000_0000 <= x < 0x8000_0000
  type U32 = x: int | 0 <= x < 0x1_0000_0000

  const I32Min: I32 := -0x8000_0000
  const I32Max: I32 := 0x7fff_ffff

  // ------------------------------------------------------------ image height

  /** Rounds toward zero, as a float-to-integer cast does. */
  function Truncate(q: real): (n: int)
    ensures 0.0 <= q ==> n as real <= q < n as real + 1.0
    ensures q < 0.0 ==> n as real - 1.0 < q <= n as real
  {
    if q < 0.0 then -((-q).Floor) else q.Floor
  }

  /** `q as i32` for a finite `q`: truncated toward zero, then saturated at the bounds of `i32`. */
  function SaturatingCast(q: real): (n: I32)
    ensures I32Min as real <= Truncate(q) as real <= I32Max as real ==> n == Truncate(q)
    ensures Truncate(q) > I32Max ==> n == I32Max
    ensures Truncate(q) < I32Min ==> n == I32Min
  {
    var t := Truncate(q);
    if t < I32Min then I32Min else if t > I32Max then I32Max else t
  }

  /**
   * The image height of `Camera::new`: `image_width / aspect_ratio` cast to `i32`, and at least 1.
   * A zero aspect ratio gives an infinite quotient for a non-zero width (saturated to the bound
   * of its sign) and NaN for a zero width (cast to 0).
   */
  function ImageHeight(imageWidth: I32, aspectRatio: real): (h: I32)
    ensures 1 <= h
    ensures aspectRatio != 0.0 && 1.0 <= imageWidth as real / aspectRatio < 0x8000_0000 as real ==>
      h as real <= imageWidth as real / aspectRatio < h as real + 1.0
    ensures aspectRatio != 0.0 && 0x8000_0000 as real <= imageWidth as real / aspectRatio ==> h == I32Max
    ensures aspectRatio != 0.0 && imageWidth as real / aspectRatio < 2.0 ==> h == 1
    ensures aspectRatio == 0.0 ==> h == if 0 < imageWidth then I32Max else 1
  {
    var size :=
      if aspectRatio == 0.0 then
        (if 0 < imageWidth then I32Max else if imageWidth < 0 then I32Min else 0)
      else SaturatingCast(imageWidth as real / aspectRatio);
    if size < 1 then 1 else size
  }

  // ------------------------------------------------------------ the camera

  datatype Camera = Camera(
    imageWidth: I32,
    aspectRatio: real,
    imageHeight: I32,
    center: Point3,
    pixel00Loc: Point3,
    pixelDeltaU: Vec3,
    pixelDeltaV: Vec3,
    samplePerPixel: U32,
    maxDepth: U32,
    vfov: real,
    lookFrom: Point3,
    lookAt: Point3,
    vup: Vec3,
    defocusAngle: real,
    focusDistance: real,
    defocusDiskU: Vec3,
    defocusDiskV: Vec3)

  /** `Camera::default()`: a 100 by 100 image, three samples, depth 10, a 90 degree view from `(0, 0, -1)`. */
  const Default: Camera := Camera(
    100, 1.0, 100, Zero, Zero, Zero, Zero, 3, 10, 90.0,
    Vec3(0.0, 0.0, -1.0), Zero, Vec3(0.0, 1.0, 0.0), 0.0, 10.0, Zero, Zero)

  /**
   * `Camera::new`: the given settings are stored unchanged, the height is derived from the
   * width and the aspect ratio, and the fields `initialize` computes keep their defaults.
   */
  function New(imageWidth: I32, aspectRatio: real, samplePerPixel: U32, maxDepth: U32, vfov: real,
               lookFrom: Point3, lookAt: Point3, vup: Vec3, defocusAngle: real, focalDistance: real): (cam: Camera)
    ensures cam.imageWidth == imageWidth && cam.aspectRatio == aspectRatio
    ensures cam.samplePerPixel == samplePerPixel && cam.maxDepth == maxDepth && cam.vfov == vfov
    ensures cam.lookFrom == lookFrom && cam.lookAt == lookAt && cam.vup == vup
    ensures cam.defocusAngle == defocusAngle && cam.focusDistance == focalDistance
    ensures cam.imageHeight == ImageHeight(imageWidth, aspectRatio) && 1 <= cam.imageHeight
    ensures cam.center == Default.center && cam.pixel00Loc == Default.pixel00Loc
    ensures cam.pixelDeltaU == Default.pixelDeltaU && cam.pixelDeltaV == Default.pixelDeltaV
    ensures cam.defocusDiskU == Default.defocusDiskU && cam.defocusDiskV == Default.defocusDiskV
  {
    Default.(imageWidth := imageWidth, imageHeight := ImageHeight(imageWidth, aspectRatio),
             aspectRatio := aspectRatio, samplePerPixel := samplePerPixel, maxDepth := maxDepth,
             vfov := vfov, lookFrom := lookFrom, lookAt := lookAt, vup := vup,
             defocusAngle := defocusAngle, focusDistance := focalDistance)
  }

  /** The default camera's height is the one `Camera::new` derives for its width and aspect ratio. */
  lemma DefaultHeight()
    ensures ImageHeight(Default.imageWidth, Default.aspectRatio) == Default.imageHeight
  {
    assert Default.imageWidth as real / Default.aspectRatio == 100.0;
  }

  // ------------------------------------------------------------ primary rays

  /** The random values one primary ray uses: two `random_double()` and a `random_in_unit_disk()`. */
  datatype SampleDraw = SampleDraw(jitterU: real, jitterV: real, disk: Vec3)

  /** `offset` of `pixel_sample_square`. */
  const SampleOffset: real := -0.5

  /** The jitter coefficient as written: `-offset + draw`, which for a draw in [0, 1) lies in [0.5, 1.5). */
  function SampleCoefficient(draw: real): (c: real)
    ensures 0.0 <= draw < 1.0 ==> 0.5 <= c < 1.5
  {
    -SampleOffset + draw
  }

  /** The centred jitter coefficient `offset + draw`, which for a draw in [0, 1) lies in [-0.5, 0.5). */
  function CentredCoefficient(draw: real): (c: real)
    ensures 0.0 <= draw < 1.0 ==> -0.5 <= c < 0.5
  {
    SampleOffset + draw
  }

  /** `pixel_sample_square` as written: the pixel deltas scaled by `0.5 + draw`. */
  function PixelSampleSquare(cam: Camera, jitterU: real, jitterV: real): Vec3 {
    Add(Scale(SampleCoefficient(jitterU), cam.pixelDeltaU), Scale(SampleCoefficient(jitterV), cam.pixelDeltaV))
  }

  /** The square of jitter centred on the pixel: the pixel deltas scaled by `draw - 0.5`. */
  function CentredPixelSample(cam: Camera, jitterU: real, jitterV: real): Vec3 {
    Add(Scale(CentredCoefficient(jitterU), cam.pixelDeltaU), Scale(CentredCoefficient(jitterV), cam.pixelDeltaV))
  }

  /** The centre of pixel `(i, j)`: `pixel00_loc + i * pixel_delta_u + j * pixel_delta_v`. */
  function PixelCenter(cam: Camera, i: I32, j: I32): Point3 {
    Add(Add(cam.pixel00Loc, Scale(i as real, cam.pixelDeltaU)), Scale(j as real, cam.pixelDeltaV))
  }

  /** `defocus_disk_sample`: the centre moved by the disk point's first two coordinates along the disk vectors. */
  function DefocusDiskSample(cam: Camera, p: Vec3): Point3 {
    Add(Add(cam.center, Scale(p.x, cam.defocusDiskU)), Scale(p.y, cam.defocusDiskV))
  }

  /**
   * The ray from the camera through `pixelSample`: it starts at the centre when the defocus
   * angle is not positive and at a lens sample otherwise, and reaches the sample at `t = 1`.
   */
  function RayThrough(cam: Camera, pixelSample: Point3, disk: Vec3): (r: Ray)
    ensures cam.defocusAngle <= 0.0 ==> r.orig == cam.center
    ensures 0.0 < cam.defocusAngle ==> r.orig == DefocusDiskSample(cam, disk)
    ensures r.At(1.0) == pixelSample
  {
    var rayOrigin := if cam.defocusAngle <= 0.0 then cam.center else DefocusDiskSample(cam, disk);
    var rayDirection := Sub(pixelSample, rayOrigin);
    assert Scale(1.0, rayDirection) == rayDirection;
    Rays.New(rayOrigin, rayDirection)
  }

  /** `get_ray` as written, with the jitter of `pixel_sample_square`. */
  function GetRayAsWritten(cam: Camera, i: I32, j: I32, draw: SampleDraw): Ray {
    RayThrough(cam, Add(PixelCenter(cam, i, j), PixelSampleSquare(cam, draw.jitterU, draw.jitterV)), draw.disk)
  }

  /**
   * `get_ray` with the jitter centred on the pixel: a pinhole camera shoots from its centre, a
   * lens camera from its lens sample, and the ray reaches the jittered point of pixel `(i, j)`
   * at `t = 1`.
   */
  function GetRay(cam: Camera, i: I32, j: I32, draw: SampleDraw): (r: Ray)
    ensures cam.defocusAngle <= 0.0 ==> r.orig == cam.center
    ensures 0.0 < cam.defocusAngle ==> r.orig == DefocusDiskSample(cam, draw.disk)
    ensures r.At(1.0) == Add(PixelCenter(cam, i, j), CentredPixelSample(cam, draw.jitterU, draw.jitterV))
  {
    RayThrough(cam, Add(PixelCenter(cam, i, j), CentredPixelSample(cam, draw.jitterU, draw.jitterV)), draw.disk)
  }

  /** One coordinate of the shift: a whole pixel step moved from the jitter into the pixel index. */
  lemma ShiftComponent(p: real, k: real, l: real, cu: real, cv: real, a: real, b: real)
    ensures p + k * a + l * b + ((cu + 1.0) * a + (cv + 1.0) * b) ==
      p + (k + 1.0) * a + (l + 1.0) * b + (cu * a + cv * b)
  {
  }

  /**
   * The as-written jitter is the centred jitter plus one whole pixel step in each direction, so
   * the as-written ray for pixel `(i, j)` is the centred ray for pixel `(i + 1, j + 1)`.
   */
  lemma {:induction false} SampleOffByOnePixel(cam: Camera, i: I32, j: I32, draw: SampleDraw)
    requires i < I32Max && j < I32Max
    ensures GetRayAsWritten(cam, i, j, draw) == GetRay(cam, i + 1, j + 1, draw)
  {
    ShiftedSample(cam, i, j, draw.jitterU, draw.jitterV);
  }

  /** The jittered point of pixel `(i, j)` as written is the centred one of pixel `(i + 1, j + 1)`. */
  lemma {:induction false} ShiftedSample(cam: Camera, i: I32, j: I32, ju: real, jv: real)
    requires i < I32Max && j < I32Max
    ensures Add(PixelCenter(cam, i, j), PixelSampleSquare(cam, ju, jv)) ==
      Add(PixelCenter(cam, i + 1, j + 1), CentredPixelSample(cam, ju, jv))
  {
    var du, dv, p := cam.pixelDeltaU, cam.pixelDeltaV, cam.pixel00Loc;
    var cu, cv := CentredCoefficient(ju), CentredCoefficient(jv);
    var k, l := i as real, j as real;
    assert (i + 1) as real == k + 1.0 && (j + 1) as real == l + 1.0;
    assert SampleCoefficient(ju) == cu + 1.0 && SampleCoefficient(jv) == cv + 1.0;
    ShiftComponent(p.x, k, l, cu, cv, du.x, dv.x);
    ShiftComponent(p.y, k, l, cu, cv, du.y, dv.y);
    ShiftComponent(p.z, k, l, cu, cv, du.z, dv.z);
  }

  /**
   * The lens sample lies in the plane of the disk vectors. When they are orthogonal and of equal
   * squared length `rho2`, as `initialize` makes them, the sample's squared distance from the
   * centre is `(x^2 + y^2) rho2`, which is below `rho2` for a point of the unit disk.
   */
  lemma {:induction false} DefocusDiskSpread(cam: Camera, p: Vec3)
    requires Dot(cam.defocusDiskU, cam.defocusDiskV) == 0.0
    requires LengthSquared(cam.defocusDiskU) == LengthSquared(cam.defocusDiskV)
    ensures LengthSquared(Sub(DefocusDiskSample(cam, p), cam.center)) ==
      (p.x * p.x + p.y * p.y) * LengthSquared(cam.defocusDiskU)
    ensures p.x * p.x + p.y * p.y < 1.0 && 0.0 < LengthSquared(cam.defocusDiskU) ==>
      LengthSquared(Sub(DefocusDiskSample(cam, p), cam.center)) < LengthSquared(cam.defocusDiskU)
  {
    var du, dv := cam.defocusDiskU, cam.defocusDiskV;
    var a, b := Scale(p.x, du), Scale(p.y, dv);
    assert Sub(DefocusDiskSample(cam, p), cam.center) == Add(a, b);
    LengthSquaredAdd(a, b);
    DotScaleLeft(p.x, du, b);
    DotScaleRight(du, p.y, dv);
    TimesZero(p.y, Dot(du, dv));
    TimesZero(p.x, Dot(du, b));
    LengthSquaredScale(p.x, du);
    LengthSquaredScale(p.y, dv);
    var k, rho2 := p.x * p.x + p.y * p.y, LengthSquared(du);
    assert LengthSquared(Add(a, b)) == k * rho2;
    if k < 1.0 && 0.0 < rho2 {
      ProductPositive(1.0 - k, rho2);
    }
  }

  // ------------------------------------------------------------ the colour of a ray

  const Black: Color := Zero
  const White: Color := Vec3(1.0, 1.0, 1.0)
  const SkyBlue: Color := Vec3(0.5, 0.7, 1.0)

  /** `EPSILON`: the scene is queried on `(0.001, +inf)`, so a ray does not hit its own origin. */
  const Epsilon: real := 0.001

  /** The interval of the scene query. */
  const QueryInterval: Interval := Interval(Finite(Epsilon), PosInf)

  /** The background blend of white and sky blue by `a = 0.5 (unit_direction.y + 1)`. */
  function SkyBlend(r: Ray, sqrt: real -> real): Color {
    var unitDirection := UnitVector(r.dir, sqrt);
    var a := 0.5 * (unitDirection.y + 1.0);
    Add(Scale(1.0 - a, White), Scale(a, SkyBlue))
  }

  /**
   * The blend factor lies in [0, 1], so the background lies between white (a ray pointing
   * straight down) and sky blue (straight up): red in [0.5, 1], green in [0.7, 1], blue 1.
   */
  lemma {:induction false} SkySpec(r: Ray, sqrt: real -> real)
    requires SqrtOracle(sqrt)
    ensures var a := 0.5 * (UnitVector(r.dir, sqrt).y + 1.0); 0.0 <= a <= 1.0
    ensures var c := SkyBlend(r, sqrt);
      0.5 <= c.x <= 1.0 && 0.7 <= c.y <= 1.0 && c.z == 1.0
  {
    UnitVectorComponents(r.dir, sqrt);
  }

  /**
   * The scene can be coloured: every sphere has a non-zero radius, and every material it
   * carries can scatter (a dielectric's index is neither 0 nor -1).
   */
  predicate SceneDefined(objects: seq<Sphere<Material>>) {
    NonDegenerate(objects) &&
    forall k :: 0 <= k < |objects| && objects[k].material.Some? ==> ScatterDefined(objects[k].material.value)
  }

  /**
   * What `ray_color` returns for ray `r` with `depth` bounces left, bounce `k` using
   * `draws[k]`; `None` is the panic on a hit without a material. No depth left gives black;
   * a miss gives the background; a hit scatters and multiplies the attenuation into the
   * colour of the scattered ray, one bounce shallower.
   */
  function RayColorOf(r: Ray, depth: nat, objects: seq<Sphere<Material>>, draws: seq<Draw>, sqrt: real -> real): Option<Color>
    requires SceneDefined(objects) && depth <= |draws|
    decreases depth
  {
    if depth == 0 then Some(Black)
    else
      match Closest(objects, r, QueryInterval, sqrt)
      case None => Some(SkyBlend(r, sqrt))
      case Some(nearest) =>
        if nearest.hit.material.None? then None
        else
          var s := ScatterOf(nearest.hit.material.value, r, nearest.hit, draws[0], sqrt);
          var rest := RayColorOf(s.scattered, depth - 1, objects, draws[1..], sqrt);
          if rest.None? then None else Some(Mul(s.attenuation, rest.value))
  }

  /**
   * `Camera::ray_color`: queries the scene with a fresh record and recurses on the scattered
   * ray; the colour is the one `RayColorOf` describes.
   */
  method RayColor(r: Ray, depth: nat, world: HittableList<Material>, draws: seq<Draw>, sqrt: real -> real)
    returns (color: Option<Color>)
    requires SceneDefined(world.objects) && depth <= |draws|
    ensures color == RayColorOf(r, depth, world.objects, draws, sqrt)
    decreases depth
  {
    var rec := new HitRecord<Material>();
    if depth == 0 {
      return Some(Black);
    }
    var hit := world.Hit(r, QueryInterval, rec, sqrt);
    if hit {
      if rec.material.None? {
        return None;
      }
      var scatters, attenuation, scattered := Scatter(rec.material.value, r, rec.Value(), draws[0], sqrt);
      if scatters {
        var rest := RayColor(scattered, depth - 1, world, draws[1..], sqrt);
        if rest.None? {
          return None;
        }
        return Some(Mul(attenuation, rest.value));
      }
      return Some(Black);
    }
    return Some(SkyBlend(r, sqrt));
  }

  // ------------------------------------------------------------ properties of the colour

  /** Every sphere of the scene carries a material. */
  predicate AllMaterials(objects: seq<Sphere<Material>>) {
    forall k :: 0 <= k < |objects| ==> objects[k].material.Some?
  }

  /** A scene whose spheres all carry a material never reaches the panic. */
  lemma {:induction false} RayColorNoPanic(r: Ray, depth: nat, objects: seq<Sphere<Material>>, draws: seq<Draw>, sqrt: real -> real)
    requires SceneDefined(objects) && depth <= |draws| && AllMaterials(objects)
    ensures RayColorOf(r, depth, objects, draws, sqrt).Some?
    decreases depth
  {
    if depth != 0 {
      var res := Closest(objects, r, QueryInterval, sqrt);
      if res.Some? {
        var s := ScatterOf(res.value.hit.material.value, r, res.value.hit, draws[0], sqrt);
        RayColorNoPanic(s.scattered, depth - 1, objects, draws[1..], sqrt);
      }
    }
  }

  /** Only the first `depth` draws are used: the recursion makes at most `depth` bounces. */
  lemma {:induction false} RayColorDraws(r: Ray, depth: nat, objects: seq<Sphere<Material>>, draws: seq<Draw>, sqrt: real -> real)
    requires SceneDefined(objects) && depth <= |draws|
    ensures RayColorOf(r, depth, objects, draws, sqrt) == RayColorOf(r, depth, objects, draws[..depth], sqrt)
    decreases depth
  {
    if depth != 0 {
      var res := Closest(objects, r, QueryInterval, sqrt);
      if res.Some? && res.value.hit.material.Some? {
        var s := ScatterOf(res.value.hit.material.value, r, res.value.hit, draws[0], sqrt);
        RayColorDraws(s.scattered, depth - 1, objects, draws[1..], sqrt);
        RayColorDraws(s.scattered, depth - 1, objects, draws[..depth][1..], sqrt);
        assert draws[1..][..depth - 1] == draws[..depth][1..][..depth - 1];
      }
    }
  }

  /** Every component lies in [0, 1]. */
  predicate InUnitCube(c: Color) {
    0.0 <= c.x <= 1.0 && 0.0 <= c.y <= 1.0 && 0.0 <= c.z <= 1.0
  }

  /** The attenuation a material applies lies in the unit cube (glass attenuates by white). */
  predicate AttenuationBounded(m: Material) {
    match m
    case Lambertian(albedo) => InUnitCube(albedo)
    case Metal(albedo, _) => InUnitCube(albedo)
    case Dielectric(_) => true
  }

  lemma MulUnitCube(a: Color, b: Color)
    requires InUnitCube(a) && InUnitCube(b)
    ensures InUnitCube(Mul(a, b))
  {
    ProductBetween(a.x, b.x);
    ProductBetween(a.y, b.y);
    ProductBetween(a.z, b.z);
  }

  /**
   * With albedos in the unit cube, every colour a ray gathers lies in the unit cube: the
   * background does, black does, and attenuating a colour in the cube keeps it there.
   */
  lemma {:induction false} RayColorBounded(r: Ray, depth: nat, objects: seq<Sphere<Material>>, draws: seq<Draw>, sqrt: real -> real)
    requires SceneDefined(objects) && depth <= |draws| && SqrtOracle(sqrt)
    requires forall k :: 0 <= k < |objects| && objects[k].material.Some? ==> AttenuationBounded(objects[k].material.value)
    ensures var c := RayColorOf(r, depth, objects, draws, sqrt); c.Some? ==> InUnitCube(c.value)
    decreases depth
  {
    if depth != 0 {
      var res := Closest(objects, r, QueryInterval, sqrt);
      if res.None? {
        SkySpec(r, sqrt);
      } else if res.value.hit.material.Some? {
        var m := res.value.hit.material.value;
        assert AttenuationBounded(m);
        var s := ScatterOf(m, r, res.value.hit, draws[0], sqrt);
        assert InUnitCube(s.attenuation);
        RayColorBounded(s.scattered, depth - 1, objects, draws[1..], sqrt);
        var rest := RayColorOf(s.scattered, depth - 1, objects, draws[1..], sqrt);
        if rest.Some? {
          MulUnitCube(s.attenuation, rest.value);
        }
      }
    }
  }

  /**
   * A ray that misses every sphere inside the query interval is coloured by the background, and
   * a ray that hits one is coloured through the nearest hit beyond `0.001`.
   */
  lemma {:induction false} RayColorFirstHit(r: Ray, depth: nat, objects: seq<Sphere<Material>>, draws: seq<Draw>, sqrt: real -> real)
    requires SceneDefined(objects) && 0 < depth <= |draws| && SqrtOracle(sqrt) && r.dir != Zero
    ensures (forall k, t :: 0 <= k < |objects| ==> !Meets(objects[k], r, QueryInterval, t)) ==>
      RayColorOf(r, depth, objects, draws, sqrt) == Some(SkyBlend(r, sqrt))
    ensures var res := Closest(objects, r, QueryInterval, sqrt);
      res.Some? ==> Epsilon < res.value.hit.t && objects[res.value.index].OnSurface(r.At(res.value.hit.t))
  {
    ClosestSpec(objects, r, QueryInterval, sqrt);
  }
}
