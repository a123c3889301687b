/**
 * Rays (src/ray.rs): an origin and a direction; `At(t)` is the point reached after travelling
 * `t` times the direction from the origin.
 */
module Rays {
  import opened Vector

  datatype Ray = Ray(orig: Point3, dir: Vec3)
  {
    function Origin(): Point3 { orig }

    function Direction(): Vec3 { dir }

    /** `orig + dir * t`: the displacement from the origin is `t` times the direction. */
    function At(t: real): (p: Point3)
      ensures Sub(p, orig) == Scale(t, dir)
    {
      Add(orig, Scale(t, dir))
    }
  }

  /** `Ray::new` copies the origin and the direction, which the accessors give back. */
  function New(orig: Point3, dir: Vec3): (r: Ray)
    ensures r.Origin() == orig && r.Direction() == dir
  {
    Ray(orig, dir)
  }

  /** The ray starts at its origin, and at parameter 1 it has travelled exactly one direction. */
  lemma AtEnds(r: Ray)
    ensures r.At(0.0) == r.orig
    ensures r.At(1.0) == Add(r.orig, r.dir)
  {
    assert Scale(0.0, r.dir) == Zero;
    assert Scale(1.0, r.dir) == r.dir;
  }

  /** Advancing the parameter by `s` moves the point by `s` directions. */
  lemma AtShift(r: Ray, t: real, s: real)
    ensures r.At(t + s) == Add(r.At(t), Scale(s, r.dir))
  {
    assert Scale(t + s, r.dir) == Add(Scale(t, r.dir), Scale(s, r.dir));
  }
}
