/**
 * The scene (src/hittable_list.rs): a list of spheres that a ray is tested against, keeping
 * the nearest hit. Each object is tested on the interval from the ray's lower bound up to the
 * nearest hit found so far, so a later object replaces the record only when it is strictly
 * nearer.
 */
module HittableLists {
  import opened Options
  import opened Vector
  import opened Rays
  import opened Intervals
  import opened Hittable

  /** Which object of the list the nearest hit belongs to, and its record. */
  datatype Nearest<M> = Nearest(index: nat, hit: HitInfo<M>)

  /** Every sphere of the list has a non-zero radius (the normal divides by it). */
  predicate NonDegenerate<M>(objects: seq<Sphere<M>>) {
    forall k :: 0 <= k < |objects| ==> objects[k].radius != 0.0
  }

  /** The upper end of the interval the next object is tested on. */
  function Bound<M>(rayT: Interval, sofar: Option<Nearest<M>>): Ext {
    if sofar.Some? then Finite(sofar.value.hit.t) else rayT.max
  }

  /**
   * The outcome of scanning `objects` from first to last: each object is tested on
   * `(rayT.min, nearest so far)` and a hit replaces the record.
   */
  function Closest<M>(objects: seq<Sphere<M>>, r: Ray, rayT: Interval, sqrt: real -> real): (res: Option<Nearest<M>>)
    requires NonDegenerate(objects)
    ensures res.Some? ==> res.value.index < |objects|
    ensures res.Some? ==> res.value.hit.material == objects[res.value.index].material
    decreases |objects|
  {
    if |objects| == 0 then None
    else
      var prev := Closest(objects[..|objects| - 1], r, rayT, sqrt);
      var h := objects[|objects| - 1].HitOf(r, Interval(rayT.min, Bound(rayT, prev)), sqrt);
      if h.Some? then Some(Nearest(|objects| - 1, h.value)) else prev
  }

  /** The ray meets sphere `sp` at a parameter `t` that `rayT` surrounds. */
  ghost predicate Meets<M>(sp: Sphere<M>, r: Ray, rayT: Interval, t: real) {
    rayT.Surrounds(t) && sp.OnSurface(r.At(t))
  }

  /** What `HitSpec` says of one sphere's answer `h` on the interval `rayT`. */
  ghost predicate SphereAnswer<M>(sp: Sphere<M>, r: Ray, rayT: Interval, h: Option<HitInfo<M>>) {
    sp.radius != 0.0 &&
    (h.Some? ==>
      r.dir != Zero && Meets(sp, r, rayT, h.value.t) && h.value == sp.HitAt(r, h.value.t) &&
      forall t :: Meets(sp, r, rayT, t) ==> h.value.t <= t) &&
    (r.dir != Zero && h.None? ==> forall t :: !Meets(sp, r, rayT, t))
  }

  /** What `ClosestSpec` says of a scan's answer `res` over `objects`. */
  ghost predicate ScanAnswer<M>(objects: seq<Sphere<M>>, r: Ray, rayT: Interval, res: Option<Nearest<M>>) {
    (res.Some? ==>
      res.value.index < |objects| &&
      r.dir != Zero &&
      Meets(objects[res.value.index], r, rayT, res.value.hit.t) &&
      objects[res.value.index].radius != 0.0 &&
      res.value.hit == objects[res.value.index].HitAt(r, res.value.hit.t) &&
      (forall j, t :: 0 <= j < |objects| && Meets(objects[j], r, rayT, t) ==> res.value.hit.t <= t) &&
      (forall j, t :: 0 <= j < res.value.index && Meets(objects[j], r, rayT, t) ==> res.value.hit.t < t)) &&
    (r.dir != Zero && res.None? ==> forall j, t :: 0 <= j < |objects| ==> !Meets(objects[j], r, rayT, t))
  }

  lemma SphereAnswerHolds<M>(sp: Sphere<M>, r: Ray, rayT: Interval, sqrt: real -> real)
    requires sp.radius != 0.0 && SqrtOracle(sqrt)
    ensures SphereAnswer(sp, r, rayT, sp.HitOf(r, rayT, sqrt))
  {
    HitSpec(sp, r, rayT, sqrt);
  }

  /** One step of the scan: the last object is tested below the nearest hit of the others. */
  lemma {:induction false} ScanStep<M>(objects: seq<Sphere<M>>, r: Ray, rayT: Interval,
                                       prev: Option<Nearest<M>>, h: Option<HitInfo<M>>)
    requires 0 < |objects|
    requires ScanAnswer(objects[..|objects| - 1], r, rayT, prev)
    requires SphereAnswer(objects[|objects| - 1], r, Interval(rayT.min, Bound(rayT, prev)), h)
    ensures ScanAnswer(objects, r, rayT, if h.Some? then Some(Nearest(|objects| - 1, h.value)) else prev)
  {
    var n := |objects| - 1;
    var prefix := objects[..n];
    var bound := Bound(rayT, prev);
    var narrowed := Interval(rayT.min, bound);
    forall t
      ensures narrowed.Surrounds(t) <==> rayT.Surrounds(t) && Below(Finite(t), bound)
    {
      SurroundsNarrowed(rayT, bound, t);
    }
    forall j | 0 <= j < n
      ensures prefix[j] == objects[j]
    {
    }
    if h.Some? {
      var ht := h.value.t;
      forall j, t | 0 <= j < |objects| && Meets(objects[j], r, rayT, t)
        ensures ht <= t
      {
        if j < n {
          assert Meets(prefix[j], r, rayT, t);
        } else if narrowed.Surrounds(t) {
          assert Meets(objects[n], r, narrowed, t);
        } else {
          AtMostTotal(Finite(t), bound);
          AtMostTransitive(Finite(ht), bound, Finite(t));
        }
      }
      forall j, t | 0 <= j < n && Meets(objects[j], r, rayT, t)
        ensures ht < t
      {
        assert Meets(prefix[j], r, rayT, t);
      }
    } else if prev.Some? {
      var k := prev.value.index;
      forall j, t | 0 <= j < |objects| && Meets(objects[j], r, rayT, t)
        ensures prev.value.hit.t <= t
      {
        if j < n {
          assert Meets(prefix[j], r, rayT, t);
        } else {
          assert !Meets(objects[n], r, narrowed, t);
          AtMostTotal(Finite(t), bound);
        }
      }
      forall j, t | 0 <= j < k && Meets(objects[j], r, rayT, t)
        ensures prev.value.hit.t < t
      {
        assert Meets(prefix[j], r, rayT, t);
      }
    } else {
      forall j, t | 0 <= j < |objects| && r.dir != Zero
        ensures !Meets(objects[j], r, rayT, t)
      {
        if j < n {
          assert !Meets(prefix[j], r, rayT, t);
        }
      }
    }
  }

  /** The scan's answer satisfies `ScanAnswer`, by induction on the number of objects. */
  lemma {:induction false} ScanAnswerHolds<M>(objects: seq<Sphere<M>>, r: Ray, rayT: Interval, sqrt: real -> real)
    requires NonDegenerate(objects) && SqrtOracle(sqrt)
    ensures ScanAnswer(objects, r, rayT, Closest(objects, r, rayT, sqrt))
  {
    if |objects| == 0 {
      return;
    }
    var n := |objects| - 1;
    var prefix := objects[..n];
    ScanAnswerHolds(prefix, r, rayT, sqrt);
    var prev := Closest(prefix, r, rayT, sqrt);
    var narrowed := Interval(rayT.min, Bound(rayT, prev));
    SphereAnswerHolds(objects[n], r, narrowed, sqrt);
    ScanStep(objects, r, rayT, prev, objects[n].HitOf(r, narrowed, sqrt));
  }

  /**
   * What the scan finds. A hit belongs to the object it names: its record is that sphere's
   * record at its parameter, which the interval surrounds and at which the ray meets the
   * sphere. Its parameter is the smallest at which the ray meets any object inside the
   * interval, and every object listed before the winner meets the ray only further away, so
   * ties go to the earlier object. A ray with a non-zero direction that hits nothing meets
   * no object inside the interval.
   */
  lemma ClosestSpec<M>(objects: seq<Sphere<M>>, r: Ray, rayT: Interval, sqrt: real -> real)
    requires NonDegenerate(objects) && SqrtOracle(sqrt)
    ensures var res := Closest(objects, r, rayT, sqrt);
      res.Some? ==>
        r.dir != Zero &&
        Meets(objects[res.value.index], r, rayT, res.value.hit.t) &&
        res.value.hit == objects[res.value.index].HitAt(r, res.value.hit.t)
    ensures var res := Closest(objects, r, rayT, sqrt);
      res.Some? ==> forall j, t :: 0 <= j < |objects| && Meets(objects[j], r, rayT, t) ==> res.value.hit.t <= t
    ensures var res := Closest(objects, r, rayT, sqrt);
      res.Some? ==> forall j, t :: 0 <= j < res.value.index && Meets(objects[j], r, rayT, t) ==> res.value.hit.t < t
    ensures var res := Closest(objects, r, rayT, sqrt);
      r.dir != Zero && res.None? ==> forall j, t :: 0 <= j < |objects| ==> !Meets(objects[j], r, rayT, t)
  {
    ScanAnswerHolds(objects, r, rayT, sqrt);
  }

  class HittableList<M> {
    var objects: seq<Sphere<M>>

    /** `HittableList::new()` / `default()`: no objects. */
    constructor ()
      ensures objects == []
    {
      objects := [];
    }

    /** `add`: the object is appended at the end. */
    method Add(obj: Sphere<M>)
      modifies this
      ensures objects == old(objects) + [obj]
    {
      objects := objects + [obj];
    }

    /** `with_object`: the same as `add`. */
    method WithObject(obj: Sphere<M>)
      modifies this
      ensures objects == old(objects) + [obj]
    {
      Add(obj);
    }

    /** `clear`: no objects are left. */
    method Clear()
      modifies this
      ensures objects == []
    {
      objects := [];
    }

    /**
     * `hit` for the list: true exactly when some object is hit, in which case `rec` holds the
     * record of the scan's nearest hit; otherwise `rec` is untouched.
     */
    method Hit(r: Ray, rayT: Interval, rec: HitRecord<M>, sqrt: real -> real) returns (hitAnything: bool)
      requires NonDegenerate(objects)
      modifies rec
      ensures hitAnything <==> Closest(objects, r, rayT, sqrt).Some?
      ensures hitAnything ==> rec.Value() == Closest(objects, r, rayT, sqrt).value.hit
      ensures !hitAnything ==> rec.Value() == old(rec.Value())
    {
      var tempRec := new HitRecord<M>();
      hitAnything := false;
      var closestSoFar := rayT.max;
      var i := 0;
      while i < |objects|
        invariant 0 <= i <= |objects|
        invariant NonDegenerate(objects[..i])
        invariant hitAnything <==> Closest(objects[..i], r, rayT, sqrt).Some?
        invariant closestSoFar == Bound(rayT, Closest(objects[..i], r, rayT, sqrt))
        invariant hitAnything ==> rec.Value() == Closest(objects[..i], r, rayT, sqrt).value.hit
        invariant !hitAnything ==> rec.Value() == old(rec.Value())
      {
        var obj := objects[i];
        assert objects[..i + 1][..i] == objects[..i];
        var h := obj.Hit(r, Interval(rayT.min, closestSoFar), tempRec, sqrt);
        if h {
          hitAnything := true;
          closestSoFar := Finite(tempRec.t);
          rec.CopyFrom(tempRec);
        }
        i := i + 1;
      }
      assert objects[..|objects|] == objects;
    }
  }
}
