/**
 * Ray-object intersection (src/hittable.rs): the hit record that an intersection test fills
 * in, the outward/front-face normal convention, and the sphere.
 *
 * The module is generic in the material type `M`, which the hit record only carries along.
 */
module Hittable {
  import opened Options
  import opened Vector
  import opened Rays
  import opened Intervals

  /** The contents of a hit record: point, normal, ray parameter, side, material. */
  datatype HitInfo<M> = HitInfo(p: Point3, normal: Vec3, t: real, frontFace: bool, material: Option<M>)

  /**
   * `set_face_normal` as a value: the ray hits the front face when its direction points
   * against the outward normal, and the stored normal always points against the ray.
   */
  function FaceNormal(dir: Vec3, outward: Vec3): (r: (bool, Vec3))
    ensures r.0 <==> Dot(dir, outward) < 0.0
    ensures r.1 == outward || r.1 == Neg(outward)
    ensures r.0 ==> r.1 == outward
    ensures !r.0 ==> r.1 == Neg(outward)
    ensures Dot(dir, r.1) <= 0.0
    ensures LengthSquared(r.1) == LengthSquared(outward)
  {
    DotNeg(outward, dir);
    DotSymmetric(dir, outward);
    DotSymmetric(dir, Neg(outward));
    var front := Dot(dir, outward) < 0.0;
    (front, if front then outward else Neg(outward))
  }

  /** `HitRecord`: filled in place by the intersection tests. */
  class HitRecord<M> {
    var p: Point3
    var normal: Vec3
    var t: real
    var frontFace: bool
    var material: Option<M>

    /** `HitRecord::new()` / `default()`: zero vectors, zero parameter, back face, no material. */
    constructor ()
      ensures Value() == HitInfo(Zero, Zero, 0.0, false, None)
    {
      p := Zero;
      normal := Zero;
      t := 0.0;
      frontFace := false;
      material := None;
    }

    function Value(): HitInfo<M>
      reads this
    {
      HitInfo(p, normal, t, frontFace, material)
    }

    /** `set_face_normal`: only the side and the normal change. */
    method SetFaceNormal(r: Ray, outward: Vec3)
      modifies this
      ensures (frontFace, normal) == FaceNormal(r.dir, outward)
      ensures p == old(p) && t == old(t) && material == old(material)
    {
      frontFace := Dot(r.Direction(), outward) < 0.0;
      normal := if frontFace then outward else Neg(outward);
    }

    /** `*rec = other.clone()`: every field is copied. */
    method CopyFrom(other: HitRecord<M>)
      modifies this
      ensures Value() == old(other.Value())
    {
      p, normal, t, frontFace, material := other.p, other.normal, other.t, other.frontFace, other.material;
    }
  }

  datatype Sphere<M> = Sphere(center: Point3, radius: real, material: Option<M>)
  {
    /** The point lies on the sphere's surface. */
    ghost predicate OnSurface(q: Point3) {
      LengthSquared(Sub(q, center)) == radius * radius
    }

    /** Half the linear coefficient of the quadratic in `t`: `(orig - center) . dir`. */
    function HalfB(r: Ray): real {
      Dot(Sub(r.orig, center), r.dir)
    }

    /** The constant coefficient: `|orig - center|^2 - radius^2`. */
    function C(r: Ray): real {
      LengthSquared(Sub(r.orig, center)) - radius * radius
    }

    /** The quarter discriminant `half_b^2 - a c`. */
    function Discriminant(r: Ray): real {
      HalfB(r) * HalfB(r) - LengthSquared(r.dir) * C(r)
    }

    /** The record of a hit at parameter `t`: the point, the side and normal, the material. */
    function HitAt(r: Ray, t: real): (h: HitInfo<M>)
      requires radius != 0.0
      ensures h.t == t && h.p == r.At(t) && h.material == material
      ensures (h.frontFace, h.normal) == FaceNormal(r.dir, DivScalar(Sub(r.At(t), center), radius))
    {
      var q := r.At(t);
      var face := FaceNormal(r.dir, DivScalar(Sub(q, center), radius));
      HitInfo(q, face.1, t, face.0, material)
    }

    /**
     * What `hit` reports: the smaller root of |orig + t dir - center|^2 = radius^2 if the
     * interval surrounds it, else the larger one if the interval surrounds that, else nothing.
     * A negative discriminant has no root; a zero direction makes both roots 0/0, which no
     * interval surrounds.
     */
    function HitOf(r: Ray, rayT: Interval, sqrt: real -> real): (res: Option<HitInfo<M>>)
      requires radius != 0.0
      ensures res.Some? ==> rayT.Surrounds(res.value.t) && res.value == HitAt(r, res.value.t)
      ensures LengthSquared(r.dir) == 0.0 ==> res.None?
    {
      var a := LengthSquared(r.dir);
      var halfB := HalfB(r);
      var discriminant := Discriminant(r);
      if discriminant < 0.0 || a == 0.0 then None
      else
        var sqrtd := sqrt(discriminant);
        var near := (-halfB - sqrtd) / a;
        var far := (-halfB + sqrtd) / a;
        if rayT.Surrounds(near) then Some(HitAt(r, near))
        else if rayT.Surrounds(far) then Some(HitAt(r, far))
        else None
    }

    /**
     * `Sphere::hit`: on a hit, `rec` holds the nearest root's record and the result is true;
     * otherwise `rec` is untouched and the result is false.
     */
    method Hit(r: Ray, rayT: Interval, rec: HitRecord<M>, sqrt: real -> real) returns (hit: bool)
      requires radius != 0.0
      modifies rec
      ensures hit <==> HitOf(r, rayT, sqrt).Some?
      ensures hit ==> rec.Value() == HitOf(r, rayT, sqrt).value
      ensures !hit ==> rec.Value() == old(rec.Value())
    {
      var oc := Sub(r.Origin(), center);
      var a := LengthSquared(r.Direction());
      var halfB := Dot(oc, r.Direction());
      var c := LengthSquared(oc) - radius * radius;
      var discriminant := halfB * halfB - a * c;
      assert discriminant == Discriminant(r);
      if discriminant < 0.0 {
        return false;
      }
      var sqrtd := sqrt(discriminant);
      if a == 0.0 {
        // Both roots are 0/0, a NaN that no interval surrounds.
        return false;
      }
      var root := (-halfB - sqrtd) / a;
      if !rayT.Surrounds(root) {
        root := (-halfB + sqrtd) / a;
        if !rayT.Surrounds(root) {
          return false;
        }
      }
      rec.t := root;
      rec.p := r.At(rec.t);
      rec.normal := DivScalar(Sub(rec.p, center), radius);
      var outward := DivScalar(Sub(rec.p, center), radius);
      rec.SetFaceNormal(r, outward);
      rec.material := material;
      return true;
    }
  }

  // ------------------------------------------------------------ the sphere's quadratic

  /** Completing the square: `a q(t) = (a t + half_b)^2 - (half_b^2 - a c)`. */
  lemma QuadraticIdentity(a: real, halfB: real, c: real, t: real)
    ensures a * (a * t * t + 2.0 * halfB * t + c) == (a * t + halfB) * (a * t + halfB) - (halfB * halfB - a * c)
  {
  }

  lemma ZeroProduct(x: real, y: real)
    requires x * y == 0.0
    ensures x == 0.0 || y == 0.0
  {
  }

  lemma DivExact(a: real, x: real, t: real)
    requires a != 0.0
    ensures a * t == x <==> t == x / a
  {
  }

  /** With a negative discriminant the quadratic has no real root. */
  lemma {:induction false} NoRoot(a: real, halfB: real, c: real, d: real, t: real)
    requires d == halfB * halfB - a * c && d < 0.0
    ensures a * t * t + 2.0 * halfB * t + c != 0.0
  {
    var q := a * t * t + 2.0 * halfB * t + c;
    QuadraticIdentity(a, halfB, c, t);
    SquareNonNegative(a * t + halfB);
    if q == 0.0 {
      TimesZero(a, q);
    }
  }

  /**
   * With `a != 0` and `s` the square root of the discriminant, the roots of the quadratic
   * are exactly `(-half_b - s) / a` and `(-half_b + s) / a`.
   */
  lemma {:induction false} Roots(a: real, halfB: real, c: real, s: real, t: real)
    requires a != 0.0 && IsSqrt(s, halfB * halfB - a * c)
    ensures a * t * t + 2.0 * halfB * t + c == 0.0 <==> t == (-halfB - s) / a || t == (-halfB + s) / a
  {
    var q := a * t * t + 2.0 * halfB * t + c;
    var u := a * t + halfB;
    QuadraticIdentity(a, halfB, c, t);
    assert (u - s) * (u + s) == u * u - s * s;
    DivExact(a, -halfB - s, t);
    DivExact(a, -halfB + s, t);
    if q == 0.0 {
      TimesZero(a, q);
      ZeroProduct(u - s, u + s);
    } else if a * q == 0.0 {
      ZeroProduct(a, q);
    }
  }

  /** For a positive leading coefficient the `-` root is the nearer one. */
  lemma {:induction false} RootsOrdered(a: real, halfB: real, s: real)
    requires 0.0 < a && 0.0 <= s
    ensures (-halfB - s) / a <= (-halfB + s) / a
  {
    DivExact(a, -halfB - s, (-halfB - s) / a);
    DivExact(a, -halfB + s, (-halfB + s) / a);
  }

  /** The squared distance from the centre along the ray is a quadratic in `t`. */
  lemma {:induction false} DistanceQuadratic<M>(sp: Sphere<M>, r: Ray, t: real)
    ensures LengthSquared(Sub(r.At(t), sp.center)) ==
      LengthSquared(Sub(r.orig, sp.center)) + 2.0 * (t * sp.HalfB(r)) + t * t * LengthSquared(r.dir)
  {
    var oc := Sub(r.orig, sp.center);
    var step := Scale(t, r.dir);
    assert Sub(r.At(t), sp.center) == Add(oc, step);
    LengthSquaredAdd(oc, step);
    DotScaleRight(oc, t, r.dir);
    LengthSquaredScale(t, r.dir);
    assert sp.HalfB(r) == Dot(oc, r.dir);
  }

  /** The point at `t` lies on the sphere exactly when `t` is a root of the sphere's quadratic. */
  lemma {:induction false} SurfaceQuadratic<M>(sp: Sphere<M>, r: Ray, t: real)
    ensures sp.OnSurface(r.At(t)) <==>
      LengthSquared(r.dir) * t * t + 2.0 * sp.HalfB(r) * t + sp.C(r) == 0.0
  {
    DistanceQuadratic(sp, r, t);
  }

  /** A ray with a negative discriminant meets the sphere nowhere. */
  lemma {:induction false} SphereMissed<M>(sp: Sphere<M>, r: Ray, t: real)
    requires sp.Discriminant(r) < 0.0
    ensures !sp.OnSurface(r.At(t))
  {
    SurfaceQuadratic(sp, r, t);
    NoRoot(LengthSquared(r.dir), sp.HalfB(r), sp.C(r), sp.Discriminant(r), t);
  }

  /**
   * A ray with a non-zero direction and a non-negative discriminant meets the sphere at
   * exactly the two roots `(-half_b -+ sqrt(d)) / a`, the `-` one first.
   */
  lemma {:induction false} SphereRoots<M>(sp: Sphere<M>, r: Ray, s: real, t: real)
    requires LengthSquared(r.dir) != 0.0 && IsSqrt(s, sp.Discriminant(r))
    ensures sp.OnSurface(r.At(t)) <==>
      t == (-sp.HalfB(r) - s) / LengthSquared(r.dir) || t == (-sp.HalfB(r) + s) / LengthSquared(r.dir)
    ensures (-sp.HalfB(r) - s) / LengthSquared(r.dir) <= (-sp.HalfB(r) + s) / LengthSquared(r.dir)
  {
    SurfaceQuadratic(sp, r, t);
    Roots(LengthSquared(r.dir), sp.HalfB(r), sp.C(r), s, t);
    RootsOrdered(LengthSquared(r.dir), sp.HalfB(r), s);
  }

  /**
   * What a sphere hit means: the reported point lies on the sphere, and its parameter is the
   * smallest surrounded parameter at which the ray meets the sphere. For a non-zero direction
   * a miss means the ray meets the sphere at no surrounded parameter.
   */
  lemma {:induction false} HitSpec<M>(sp: Sphere<M>, r: Ray, rayT: Interval, sqrt: real -> real)
    requires sp.radius != 0.0 && SqrtOracle(sqrt)
    ensures var res := sp.HitOf(r, rayT, sqrt);
      res.Some? ==> sp.OnSurface(res.value.p)
    ensures var res := sp.HitOf(r, rayT, sqrt);
      res.Some? ==> forall t :: rayT.Surrounds(t) && sp.OnSurface(r.At(t)) ==> res.value.t <= t
    ensures var res := sp.HitOf(r, rayT, sqrt);
      r.dir != Zero && res.None? ==> forall t :: rayT.Surrounds(t) ==> !sp.OnSurface(r.At(t))
  {
    var res := sp.HitOf(r, rayT, sqrt);
    var a := LengthSquared(r.dir);
    var d := sp.Discriminant(r);
    if a == 0.0 {
      LengthSquaredZero(r.dir);
      return;
    }
    if d < 0.0 {
      forall t | rayT.Surrounds(t)
        ensures !sp.OnSurface(r.At(t))
      {
        SphereMissed(sp, r, t);
      }
      return;
    }
    var s := sqrt(d);
    assert IsSqrt(s, d);
    var near := (-sp.HalfB(r) - s) / a;
    var far := (-sp.HalfB(r) + s) / a;
    forall t | sp.OnSurface(r.At(t))
      ensures t == near || t == far
    {
      SphereRoots(sp, r, s, t);
    }
    SphereRoots(sp, r, s, near);
    SphereRoots(sp, r, s, far);
  }

  lemma CancelFactor(p: real, k: real, q: real)
    requires p != 0.0
    requires q == p * k
    requires q == p
    ensures k == 1.0
  {
    assert p * (k - 1.0) == 0.0;
    ZeroProduct(p, k - 1.0);
  }

  /** A non-zero square cancels: `q = rad^2 k` and `q = rad^2` force `k = 1`. */
  lemma CancelSquare(rad: real, k: real, q: real)
    requires rad != 0.0
    requires q == rad * rad * k
    requires q == rad * rad
    ensures k == 1.0
  {
    SquarePositive(rad);
    CancelFactor(rad * Same(rad), k, q);
  }

  /**
   * At a point on the sphere the recorded normal has unit length and points against the ray;
   * for a positive radius the ray hits the front face exactly when it approaches the centre.
   */
  lemma {:induction false} HitAtNormal<M>(sp: Sphere<M>, r: Ray, t: real)
    requires sp.radius != 0.0 && sp.OnSurface(r.At(t))
    ensures LengthSquared(sp.HitAt(r, t).normal) == 1.0
    ensures Dot(r.dir, sp.HitAt(r, t).normal) <= 0.0
    ensures 0.0 < sp.radius ==> (sp.HitAt(r, t).frontFace <==> Dot(r.dir, Sub(r.At(t), sp.center)) < 0.0)
  {
    var v := Sub(r.At(t), sp.center);
    var outward := DivScalar(v, sp.radius);
    LengthSquaredScale(sp.radius, outward);
    CancelSquare(sp.radius, LengthSquared(outward), LengthSquared(v));
    DotScaleRight(r.dir, sp.radius, outward);
    if 0.0 < sp.radius {
      var d := Dot(r.dir, outward);
      if d < 0.0 {
        ProductPositive(sp.radius, -d);
      } else if 0.0 < d {
        ProductPositive(sp.radius, d);
      }
    }
  }

  /** A square root of 0.25 is 0.5. */
  lemma QuarterRoot(s: real)
    requires IsSqrt(s, 0.25)
    ensures s == 0.5
  {
    assert IsSqrt(0.5, 0.25);
    SqrtMonotone(s, 0.25, 0.5, 0.25);
    SqrtMonotone(0.5, 0.25, s, 0.25);
  }

  /** When the interval surrounds the nearer root, `hit` reports that root. */
  lemma NearRootHit<M>(sp: Sphere<M>, r: Ray, rayT: Interval, sqrt: real -> real, near: real)
    requires sp.radius != 0.0 && LengthSquared(r.dir) != 0.0 && 0.0 <= sp.Discriminant(r)
    requires near == (-sp.HalfB(r) - sqrt(sp.Discriminant(r))) / LengthSquared(r.dir)
    requires rayT.Surrounds(near)
    ensures sp.HitOf(r, rayT, sqrt) == Some(sp.HitAt(r, near))
  {
  }

  /**
   * The sphere of radius 0.5 centred at (0, 0, -1), met by the ray from the origin along -z,
   * is hit at parameter 0.5, at the point (0, 0, -0.5).
   */
  lemma {:induction false} SphereExample<M>(sp: Sphere<M>, r: Ray, rayT: Interval, sqrt: real -> real)
    requires sp.center == Vec3(0.0, 0.0, -1.0) && sp.radius == 0.5
    requires r.orig == Zero && r.dir == Vec3(0.0, 0.0, -1.0) && rayT == Interval(Finite(0.0), PosInf)
    requires SqrtOracle(sqrt)
    ensures var res := sp.HitOf(r, rayT, sqrt);
      res.Some? && res.value.t == 0.5 && res.value.p == Vec3(0.0, 0.0, -0.5)
  {
    assert LengthSquared(r.dir) == 1.0;
    assert sp.HalfB(r) == -1.0;
    assert sp.Discriminant(r) == 0.25;
    QuarterRoot(sqrt(0.25));
    NearRootHit(sp, r, rayT, sqrt, 0.5);
    assert r.At(0.5) == Vec3(0.0, 0.0, -0.5);
  }

  /** `Sphere::new`. */
  function NewSphere<M>(center: Point3, radius: real, material: Option<M>): (s: Sphere<M>)
    ensures s.center == center && s.radius == radius && s.material == material
  {
    Sphere(center, radius, material)
  }
}
