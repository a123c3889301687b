/**
 * Materials (src/material.rs): how a ray that hit a surface is scattered. Diffuse
 * (Lambertian) surfaces scatter around the normal, metals reflect with some fuzz, and
 * dielectrics (glass) reflect or refract, choosing by total internal reflection and
 * Schlick's reflectance against a uniform random number.
 *
 * The random values a scatter consumes are passed in as a `Draw`; the square root is a
 * parameter, assumed to be the real square root only by the lemmas that need it.
 */
module Materials {
  import opened Options
  import opened Vector
  import opened Rays
  import opened Hittable

  /** `MaterialType`: the three kinds of surface. */
  datatype Material =
    | Lambertian(albedo: Color)
    | Metal(albedo: Color, fuzz: real)
    | Dielectric(ir: real)

  /** The random values one scatter uses: a `random_unit_vector()` and a `random_double()`. */
  datatype Draw = Draw(unitVector: Vec3, uniform: real)

  /** What `scatter` writes to its two out-parameters. */
  datatype Scattering = Scattering(attenuation: Color, scattered: Ray)

  /** `Metal::new`: a fuzz of 1 or more is capped at 1; smaller values, negative ones too, are kept. */
  function NewMetal(albedo: Color, fuzz: real): (m: Material)
    ensures m.Metal? && m.albedo == albedo
    ensures m.fuzz <= 1.0
    ensures fuzz < 1.0 ==> m.fuzz == fuzz
    ensures 1.0 <= fuzz ==> m.fuzz == 1.0
  {
    Metal(albedo, if fuzz < 1.0 then fuzz else 1.0)
  }

  // ------------------------------------------------------------ Schlick's reflectance

  function Pow5(x: real): real { x * x * x * x * x }

  /** The reflectance at normal incidence, `((1 - n) / (1 + n))^2`. */
  function SchlickR0(refIdx: real): real
    requires refIdx != -1.0
  {
    var r0 := (1.0 - refIdx) / (1.0 + refIdx);
    r0 * r0
  }

  /** `Dielectric::reflectance`: Schlick's approximation `r0 + (1 - r0) (1 - cos)^5`. */
  function Reflectance(cosine: real, refIdx: real): real
    requires refIdx != -1.0
  {
    var r0 := SchlickR0(refIdx);
    r0 + (1.0 - r0) * Pow5(1.0 - cosine)
  }

  /** `a p` lies between 0 and `a` for `a >= 0` and `p` in [0, 1]. */
  lemma ProductBetween(a: real, p: real)
    requires 0.0 <= a && 0.0 <= p <= 1.0
    ensures 0.0 <= a * p <= a
  {
    if 0.0 < a && 0.0 < p {
      ProductPositive(a, p);
      if p < 1.0 {
        ProductPositive(a, 1.0 - p);
      }
    }
  }

  lemma Pow5Unit(x: real)
    requires 0.0 <= x <= 1.0
    ensures 0.0 <= Pow5(x) <= 1.0
  {
    ProductBetween(x, x);
    ProductBetween(x * x, x);
    ProductBetween(x * x * x, x);
    ProductBetween(x * x * x * x, x);
  }

  lemma SquareUnit(r: real)
    requires -1.0 <= r <= 1.0
    ensures 0.0 <= r * Same(r) <= 1.0
  {
    SquareNonNegative(r);
    if 0.0 <= r {
      ProductBetween(r, r);
    } else {
      ProductBetween(-r, -r);
    }
  }

  /** For a non-negative index of refraction the normal-incidence reflectance is in [0, 1]. */
  lemma {:induction false} R0Unit(refIdx: real)
    requires 0.0 <= refIdx
    ensures 0.0 <= SchlickR0(refIdx) <= 1.0
  {
    var r0 := (1.0 - refIdx) / (1.0 + refIdx);
    assert (1.0 + refIdx) * r0 == 1.0 - refIdx;
    if r0 > 1.0 {
      ProductPositive(1.0 + refIdx, r0 - 1.0);
    }
    if r0 < -1.0 {
      ProductPositive(1.0 + refIdx, -1.0 - r0);
    }
    SquareUnit(r0);
  }

  lemma SchlickBetween(r0: real, p: real, r: real)
    requires 0.0 <= r0 <= 1.0 && 0.0 <= p <= 1.0
    requires r == r0 + (1.0 - r0) * p
    ensures r0 <= r <= 1.0
  {
    var q := (1.0 - r0) * p;
    ProductBetween(1.0 - r0, p);
    assert 0.0 <= q <= 1.0 - r0;
    assert r == r0 + q;
  }

  /** At normal incidence (cosine 1) the reflectance is exactly `r0`. */
  lemma ReflectanceNormal(refIdx: real)
    requires refIdx != -1.0
    ensures Reflectance(1.0, refIdx) == SchlickR0(refIdx)
  {
    var p := Pow5(1.0 - 1.0);
    assert p == 0.0;
    TimesZero(1.0 - SchlickR0(refIdx), p);
  }

  /** At grazing incidence (cosine 0) everything is reflected. */
  lemma ReflectanceGrazing(refIdx: real)
    requires refIdx != -1.0
    ensures Reflectance(0.0, refIdx) == 1.0
  {
    var p := Pow5(1.0 - 0.0);
    assert p == 1.0;
    TimesOne(1.0 - SchlickR0(refIdx), p);
  }

  /** For a cosine in [0, 1] the reflectance lies between `r0` and 1: it is a probability. */
  lemma {:induction false} ReflectanceBounds(cosine: real, refIdx: real)
    requires 0.0 <= refIdx && 0.0 <= cosine <= 1.0
    ensures SchlickR0(refIdx) <= Reflectance(cosine, refIdx) <= 1.0
  {
    R0Unit(refIdx);
    Pow5Unit(1.0 - cosine);
    SchlickBetween(SchlickR0(refIdx), Pow5(1.0 - cosine), Reflectance(cosine, refIdx));
  }

  // ------------------------------------------------------------ scattering

  /** `scatter` divides by `1 + ratio` and, on a front face, by the index of refraction. */
  predicate ScatterDefined(m: Material) {
    m.Dielectric? ==> m.ir != 0.0 && m.ir != -1.0
  }

  /** The Lambertian direction: `normal + sample`, or the normal when that is near zero. */
  function LambertianDirection(normal: Vec3, sample: Vec3): Vec3 {
    var d := Add(normal, sample);
    if NearZero(d) then normal else d
  }

  /** The metal direction: the reflected unit direction plus `fuzz` times the sample. */
  function MetalDirection(dir: Vec3, normal: Vec3, fuzz: real, sample: Vec3, sqrt: real -> real): Vec3 {
    Add(Reflect(UnitVector(dir, sqrt), normal), Scale(fuzz, sample))
  }

  /** `1/ir` when the ray enters through the front face, `ir` when it leaves. */
  function RefractionRatio(ir: real, frontFace: bool): real
    requires ir != 0.0
  {
    if frontFace then 1.0 / ir else ir
  }

  /** `min(dot(-unit_direction, normal), 1)`. */
  function CosTheta(unitDirection: Vec3, normal: Vec3): real {
    Min(Dot(Neg(unitDirection), normal), 1.0)
  }

  /**
   * `ratio * sin_theta > 1`: Snell's law has no solution and the ray must reflect. A negative
   * radicand makes `sin_theta` NaN, and a comparison with NaN is false.
   */
  predicate TotalInternalReflection(ratio: real, cosTheta: real, sqrt: real -> real) {
    var radicand := 1.0 - cosTheta * cosTheta;
    0.0 <= radicand && ratio * sqrt(radicand) > 1.0
  }

  /** The dielectric direction: reflect under total internal reflection or when the draw falls below the reflectance, else refract. */
  function DielectricDirection(dir: Vec3, normal: Vec3, frontFace: bool, ir: real, uniform: real, sqrt: real -> real): Vec3
    requires ir != 0.0 && ir != -1.0
  {
    var ratio := RefractionRatio(ir, frontFace);
    var unitDirection := UnitVector(dir, sqrt);
    var cosTheta := CosTheta(unitDirection, normal);
    if TotalInternalReflection(ratio, cosTheta, sqrt) || Reflectance(cosTheta, ratio) > uniform then
      Reflect(unitDirection, normal)
    else
      Refract(unitDirection, normal, ratio, sqrt)
  }

  /** What `scatter` writes for material `m`, incoming ray `rIn`, hit `rec` and draw `draw`. */
  function ScatterOf(m: Material, rIn: Ray, rec: HitInfo<Material>, draw: Draw, sqrt: real -> real): Scattering
    requires ScatterDefined(m)
  {
    match m
    case Lambertian(albedo) =>
      Scattering(albedo, Ray(rec.p, LambertianDirection(rec.normal, draw.unitVector)))
    case Metal(albedo, fuzz) =>
      Scattering(albedo, Ray(rec.p, MetalDirection(rIn.dir, rec.normal, fuzz, draw.unitVector, sqrt)))
    case Dielectric(ir) =>
      Scattering(Vec3(1.0, 1.0, 1.0),
        Ray(rec.p, DielectricDirection(rIn.dir, rec.normal, rec.frontFace, ir, draw.uniform, sqrt)))
  }

  /**
   * `MaterialType::scatter`: fills the attenuation and the scattered ray and reports whether
   * the ray scattered, which every variant does.
   */
  method Scatter(m: Material, rIn: Ray, rec: HitInfo<Material>, draw: Draw, sqrt: real -> real)
    returns (scatters: bool, attenuation: Color, scattered: Ray)
    requires ScatterDefined(m)
    ensures scatters
    ensures Scattering(attenuation, scattered) == ScatterOf(m, rIn, rec, draw, sqrt)
  {
    match m
    case Lambertian(albedo) =>
      var scatterDirection := Add(rec.normal, draw.unitVector);
      if NearZero(scatterDirection) {
        scatterDirection := rec.normal;
      }
      scattered := Rays.New(rec.p, scatterDirection);
      attenuation := albedo;
      return true, attenuation, scattered;
    case Metal(albedo, fuzz) =>
      var reflected := Reflect(UnitVector(rIn.Direction(), sqrt), rec.normal);
      scattered := Rays.New(rec.p, Add(reflected, Scale(fuzz, draw.unitVector)));
      attenuation := albedo;
      return true, attenuation, scattered;
    case Dielectric(ir) =>
      attenuation := Vec3(1.0, 1.0, 1.0);
      var refractionRatio := if rec.frontFace then 1.0 / ir else ir;
      var unitDirection := UnitVector(rIn.Direction(), sqrt);
      var cosTheta := Min(Dot(Neg(unitDirection), rec.normal), 1.0);
      var direction;
      if TotalInternalReflection(refractionRatio, cosTheta, sqrt) || Reflectance(cosTheta, refractionRatio) > draw.uniform {
        direction := Reflect(unitDirection, rec.normal);
      } else {
        direction := Refract(unitDirection, rec.normal, refractionRatio, sqrt);
      }
      scattered := Rays.New(rec.p, direction);
      return true, attenuation, scattered;
  }

  // ------------------------------------------------------------ properties of scattering

  /**
   * A diffuse surface keeps the albedo and scatters from the hit point, along `normal + sample`
   * unless that is near zero, in which case along the normal; the guard against a degenerate
   * direction means that for a unit normal the scattered direction is never zero.
   */
  lemma {:induction false} LambertianSpec(albedo: Color, rIn: Ray, rec: HitInfo<Material>, draw: Draw, sqrt: real -> real)
    ensures var s := ScatterOf(Lambertian(albedo), rIn, rec, draw, sqrt);
      s.attenuation == albedo && s.scattered.orig == rec.p
    ensures var s := ScatterOf(Lambertian(albedo), rIn, rec, draw, sqrt);
      NearZero(Add(rec.normal, draw.unitVector)) ==> s.scattered.dir == rec.normal
    ensures var s := ScatterOf(Lambertian(albedo), rIn, rec, draw, sqrt);
      !NearZero(Add(rec.normal, draw.unitVector)) ==> s.scattered.dir == Add(rec.normal, draw.unitVector)
    ensures var s := ScatterOf(Lambertian(albedo), rIn, rec, draw, sqrt);
      LengthSquared(rec.normal) == 1.0 ==> s.scattered.dir != Zero
  {
    var d := Add(rec.normal, draw.unitVector);
    NearZeroExamples();
    if LengthSquared(rec.normal) == 1.0 && !NearZero(d) {
      assert d != Zero;
    }
  }

  /**
   * A metal keeps the albedo and scatters from the hit point. Without fuzz the direction
   * does not depend on the draw and, for a unit normal and a non-zero incoming direction,
   * is the mirror image of the unit incoming direction: a unit vector making the opposite
   * angle with the normal.
   */
  lemma {:induction false} MetalSpec(albedo: Color, fuzz: real, rIn: Ray, rec: HitInfo<Material>, draw: Draw, other: Draw, sqrt: real -> real)
    requires SqrtOracle(sqrt)
    ensures var s := ScatterOf(Metal(albedo, fuzz), rIn, rec, draw, sqrt);
      s.attenuation == albedo && s.scattered.orig == rec.p
    ensures fuzz == 0.0 ==>
      ScatterOf(Metal(albedo, fuzz), rIn, rec, draw, sqrt) == ScatterOf(Metal(albedo, fuzz), rIn, rec, other, sqrt)
    ensures var s := ScatterOf(Metal(albedo, fuzz), rIn, rec, draw, sqrt);
      fuzz == 0.0 && LengthSquared(rec.normal) == 1.0 && rIn.dir != Zero ==>
        LengthSquared(s.scattered.dir) == 1.0 &&
        Dot(s.scattered.dir, rec.normal) == -Dot(UnitVector(rIn.dir, sqrt), rec.normal)
  {
    var u := UnitVector(rIn.dir, sqrt);
    var reflected := Reflect(u, rec.normal);
    if fuzz == 0.0 {
      assert Scale(fuzz, draw.unitVector) == Zero;
      assert Scale(fuzz, other.unitVector) == Zero;
      assert Add(reflected, Zero) == reflected;
      if LengthSquared(rec.normal) == 1.0 && rIn.dir != Zero {
        UnitVectorSpec(rIn.dir, sqrt);
        ReflectSpec(u, rec.normal);
      }
    }
  }

  /**
   * Because the source does not check the scattered direction against the normal, a fuzzy
   * metal can scatter into the surface: with fuzz 1 and the sample pointing straight into
   * the surface, every incidence except the head-on one leaves below the surface.
   */
  lemma {:induction false} MetalMayScatterInward(albedo: Color, rIn: Ray, rec: HitInfo<Material>, sqrt: real -> real)
    requires SqrtOracle(sqrt) && LengthSquared(rec.normal) == 1.0
    ensures var s := ScatterOf(NewMetal(albedo, 1.0), rIn, rec, Draw(Neg(rec.normal), 0.0), sqrt);
      Dot(s.scattered.dir, rec.normal) == -(Dot(UnitVector(rIn.dir, sqrt), rec.normal) + 1.0)
    ensures var s := ScatterOf(NewMetal(albedo, 1.0), rIn, rec, Draw(Neg(rec.normal), 0.0), sqrt);
      Dot(UnitVector(rIn.dir, sqrt), rec.normal) > -1.0 ==> Dot(s.scattered.dir, rec.normal) < 0.0
  {
    var n := rec.normal;
    var u := UnitVector(rIn.dir, sqrt);
    ReflectSpec(u, n);
    assert Scale(1.0, Neg(n)) == Neg(n);
    DotAdd(Reflect(u, n), Neg(n), n);
    DotNeg(n, n);
  }

  /**
   * Glass never absorbs: the attenuation is white and the ray leaves from the hit point. The
   * refraction ratio is `1/ir` through the front face and `ir` through the back, and under
   * total internal reflection the ray is reflected whatever the draw.
   */
  lemma {:induction false} DielectricSpec(ir: real, rIn: Ray, rec: HitInfo<Material>, draw: Draw, sqrt: real -> real)
    requires ir != 0.0 && ir != -1.0
    ensures var s := ScatterOf(Dielectric(ir), rIn, rec, draw, sqrt);
      s.attenuation == Vec3(1.0, 1.0, 1.0) && s.scattered.orig == rec.p
    ensures RefractionRatio(ir, rec.frontFace) == if rec.frontFace then 1.0 / ir else ir
    ensures var c := CosTheta(UnitVector(rIn.dir, sqrt), rec.normal);
      1.0 - c * c < 0.0 ==> !TotalInternalReflection(RefractionRatio(ir, rec.frontFace), c, sqrt)
    ensures var u := UnitVector(rIn.dir, sqrt);
      TotalInternalReflection(RefractionRatio(ir, rec.frontFace), CosTheta(u, rec.normal), sqrt) ==>
        ScatterOf(Dielectric(ir), rIn, rec, draw, sqrt).scattered.dir == Reflect(u, rec.normal)
    ensures var u := UnitVector(rIn.dir, sqrt);
      var ratio := RefractionRatio(ir, rec.frontFace);
      !TotalInternalReflection(ratio, CosTheta(u, rec.normal), sqrt) ==>
        ScatterOf(Dielectric(ir), rIn, rec, draw, sqrt).scattered.dir ==
          if Reflectance(CosTheta(u, rec.normal), ratio) > draw.uniform then Reflect(u, rec.normal)
          else Refract(u, rec.normal, ratio, sqrt)
  {
  }

  lemma NotTotalInternalReflection(ratio: real, cosTheta: real, sqrt: real -> real)
    requires 0.0 <= 1.0 - cosTheta * cosTheta
    requires !TotalInternalReflection(ratio, cosTheta, sqrt)
    ensures ratio * sqrt(1.0 - cosTheta * cosTheta) <= 1.0
  {
  }

  /**
   * Without total internal reflection, and for a positive ratio and a cosine in [-1, 1],
   * `ratio^2 (1 - cos^2) <= 1`: the premise under which refraction gives a unit vector.
   */
  lemma {:induction false} NoTotalReflection(ratio: real, cosTheta: real, sqrt: real -> real)
    requires 0.0 < ratio && -1.0 <= cosTheta <= 1.0 && SqrtOracle(sqrt)
    requires !TotalInternalReflection(ratio, cosTheta, sqrt)
    ensures ratio * ratio * (1.0 - cosTheta * cosTheta) <= 1.0
  {
    SquareUnit(cosTheta);
    NotTotalInternalReflection(ratio, cosTheta, sqrt);
    var x := 1.0 - cosTheta * cosTheta;
    var s := sqrt(x);
    assert IsSqrt(s, x);
    var y := ratio * s;
    if 0.0 < s {
      ProductPositive(ratio, s);
    }
    ProductBetween(y, y);
    assert y * y == ratio * ratio * (s * Same(s));
  }

  /** Without total internal reflection, refracting a unit vector through a unit normal gives a unit vector. */
  lemma {:induction false} RefractedUnit(ratio: real, u: Vec3, n: Vec3, sqrt: real -> real)
    requires 0.0 < ratio && LengthSquared(u) == 1.0 && LengthSquared(n) == 1.0 && SqrtOracle(sqrt)
    requires !TotalInternalReflection(ratio, CosTheta(u, n), sqrt)
    ensures LengthSquared(Refract(u, n, ratio, sqrt)) == 1.0
  {
    DotNeg(u, n);
    RefractPerp(u, n, ratio);
    var c := CosTheta(u, n);
    NoTotalReflection(ratio, c, sqrt);
    RefractUnit(u, n, ratio, c, sqrt);
  }

  /**
   * For a positive index of refraction, a unit normal and a non-zero incoming direction,
   * glass sends the ray on along a unit vector, whether it reflects or refracts.
   */
  lemma {:induction false} DielectricUnit(ir: real, rIn: Ray, rec: HitInfo<Material>, draw: Draw, sqrt: real -> real)
    requires 0.0 < ir && LengthSquared(rec.normal) == 1.0 && rIn.dir != Zero && SqrtOracle(sqrt)
    ensures LengthSquared(ScatterOf(Dielectric(ir), rIn, rec, draw, sqrt).scattered.dir) == 1.0
  {
    var n := rec.normal;
    var u := UnitVector(rIn.dir, sqrt);
    UnitVectorSpec(rIn.dir, sqrt);
    var ratio := RefractionRatio(ir, rec.frontFace);
    assert 0.0 < ratio;
    var dir := DielectricDirection(rIn.dir, n, rec.frontFace, ir, draw.uniform, sqrt);
    if dir == Reflect(u, n) {
      ReflectSpec(u, n);
    } else {
      RefractedUnit(ratio, u, n, sqrt);
    }
  }
}
