/**
 * src/world.rs: a list of objects and the linear scan that keeps the closest hit.  The
 * scan is also the reference the bounding volume hierarchy is proved to agree with.  The
 * objects are `Box<dyn Hittable>` in the source; here they are values of any type `T`
 * together with the trait's operations `ops`.
 */
module World {
  import opened Base
  import opened Vectors
  import opened Hittable

  /**
   * One step of the scan: a candidate replaces the best record so far only when its `t`
   * is strictly below the closest `t` seen, which starts at `tmax` (world.rs:19, 24).
   */
  function Closer(best: Option<HitRecord>, candidate: Option<HitRecord>, tmax: real): (r: Option<HitRecord>)
    ensures r == best || r == candidate
    ensures r.None? <==> best.None? && !(candidate.Some? && candidate.value.t < tmax)
    ensures best.Some? && r.Some? ==> r.value.t <= best.value.t
  {
    var closest := if best.Some? then best.value.t else tmax;
    if candidate.Some? && candidate.value.t < closest then candidate else best
  }

  /** The record the scan over `objs` ends with, as a left fold of `Closer`. */
  function Nearest<T>(ops: HittableOps<T>, objs: seq<T>, ray: Ray, tmin: real, tmax: real): Option<HitRecord>
  {
    if |objs| == 0 then None
    else Closer(Nearest(ops, objs[..|objs| - 1], ray, tmin, tmax), ops.hit(objs[|objs| - 1], ray, tmin, tmax), tmax)
  }

  /**
   * `r` is a nearest hit among `objs`: it is absent exactly when no object is hit, and
   * otherwise it is some object's record with a `t` no larger than any other object's.
   */
  predicate MinimalHit<T>(ops: HittableOps<T>, r: Option<HitRecord>, objs: seq<T>, ray: Ray, tmin: real, tmax: real)
  {
    (r.None? <==> forall i :: 0 <= i < |objs| ==> ops.hit(objs[i], ray, tmin, tmax).None?) &&
    (r.Some? ==> (exists i :: 0 <= i < |objs| && ops.hit(objs[i], ray, tmin, tmax) == r) &&
                 forall i :: 0 <= i < |objs| && ops.hit(objs[i], ray, tmin, tmax).Some? ==>
                   r.value.t <= ops.hit(objs[i], ray, tmin, tmax).value.t)
  }

  /** Two query results agree on whether something is hit and, if so, at which `t`. */
  predicate SameNearest(a: Option<HitRecord>, b: Option<HitRecord>)
  {
    a.Some? == b.Some? && (a.Some? ==> a.value.t == b.value.t)
  }

  /** Among objects hit at the same `t` as `r`, the one `r` comes from is the earliest in `objs`. */
  predicate EarliestHit<T>(ops: HittableOps<T>, r: Option<HitRecord>, objs: seq<T>, ray: Ray, tmin: real, tmax: real)
  {
    r.Some? ==> exists i :: 0 <= i < |objs| && ops.hit(objs[i], ray, tmin, tmax) == r &&
                  forall j :: 0 <= j < i && ops.hit(objs[j], ray, tmin, tmax).Some? ==>
                    ops.hit(objs[j], ray, tmin, tmax).value.t > r.value.t
  }

  /** One step of the scan keeps a nearest, earliest record, given that the new object's hit is below `tmax`. */
  lemma CloserStep<T>(ops: HittableOps<T>, prefix: seq<T>, o: T, best: Option<HitRecord>, ray: Ray, tmin: real, tmax: real)
    requires MinimalHit(ops, best, prefix, ray, tmin, tmax) && EarliestHit(ops, best, prefix, ray, tmin, tmax)
    requires ops.hit(o, ray, tmin, tmax).Some? ==> ops.hit(o, ray, tmin, tmax).value.t < tmax
    requires best.Some? ==> best.value.t < tmax
    ensures var r := Closer(best, ops.hit(o, ray, tmin, tmax), tmax);
            MinimalHit(ops, r, prefix + [o], ray, tmin, tmax) && EarliestHit(ops, r, prefix + [o], ray, tmin, tmax) &&
            (r.Some? ==> r.value.t < tmax)
  {
    var objs := prefix + [o];
    var n := |prefix|;
    assert forall i :: 0 <= i < n ==> objs[i] == prefix[i];
    assert objs[n] == o;
    var r := Closer(best, ops.hit(o, ray, tmin, tmax), tmax);
    if r == best && best.Some? {
      var i :| 0 <= i < n && ops.hit(prefix[i], ray, tmin, tmax) == best &&
               forall j :: 0 <= j < i && ops.hit(prefix[j], ray, tmin, tmax).Some? ==>
                 ops.hit(prefix[j], ray, tmin, tmax).value.t > best.value.t;
      assert ops.hit(objs[i], ray, tmin, tmax) == r;
    }
  }

  /**
   * When every object's hit lies in the window, the scan finds a nearest hit, and among
   * objects hit at that same `t` the earliest one in the list wins.
   */
  lemma {:induction false} NearestIsMinimal<T>(ops: HittableOps<T>, objs: seq<T>, ray: Ray, tmin: real, tmax: real)
    requires HitsInWindow(ops, objs, ray, tmin, tmax)
    ensures var r := Nearest(ops, objs, ray, tmin, tmax);
            MinimalHit(ops, r, objs, ray, tmin, tmax) && EarliestHit(ops, r, objs, ray, tmin, tmax) &&
            (r.Some? ==> r.value.t < tmax)
  {
    if |objs| > 0 {
      var n := |objs| - 1;
      assert forall i :: 0 <= i < n ==> objs[..n][i] == objs[i];
      NearestIsMinimal(ops, objs[..n], ray, tmin, tmax);
      CloserStep(ops, objs[..n], objs[n], Nearest(ops, objs[..n], ray, tmin, tmax), ray, tmin, tmax);
      assert objs[..n] + [objs[n]] == objs;
    }
  }

  /**
   * Whatever the objects report, the scan finds a hit exactly when some object reports one
   * with `t` strictly below `tmax`, and the hit it keeps is below `tmax` (world.rs:19-35).
   */
  lemma {:induction false} NearestFound<T>(ops: HittableOps<T>, objs: seq<T>, ray: Ray, tmin: real, tmax: real)
    ensures var r := Nearest(ops, objs, ray, tmin, tmax);
            (r.Some? <==> exists i :: 0 <= i < |objs| && ops.hit(objs[i], ray, tmin, tmax).Some? &&
                                      ops.hit(objs[i], ray, tmin, tmax).value.t < tmax) &&
            (r.Some? ==> r.value.t < tmax)
  {
    if |objs| > 0 {
      var n := |objs| - 1;
      assert forall i :: 0 <= i < n ==> objs[..n][i] == objs[i];
      NearestFound(ops, objs[..n], ray, tmin, tmax);
    }
  }

  /** Any two nearest hits over the same objects, in any order, are at the same `t`. */
  lemma MinimalHitsAgree<T>(ops: HittableOps<T>, r1: Option<HitRecord>, objs1: seq<T>, r2: Option<HitRecord>, objs2: seq<T>,
                            ray: Ray, tmin: real, tmax: real)
    requires multiset(objs1) == multiset(objs2)
    requires MinimalHit(ops, r1, objs1, ray, tmin, tmax) && MinimalHit(ops, r2, objs2, ray, tmin, tmax)
    ensures SameNearest(r1, r2)
  {
    if r1.Some? {
      var i :| 0 <= i < |objs1| && ops.hit(objs1[i], ray, tmin, tmax) == r1;
      assert objs1[i] in multiset(objs2);
      var i2 :| 0 <= i2 < |objs2| && objs2[i2] == objs1[i];
    }
    if r2.Some? {
      var j :| 0 <= j < |objs2| && ops.hit(objs2[j], ray, tmin, tmax) == r2;
      assert objs2[j] in multiset(objs1);
      var j1 :| 0 <= j1 < |objs1| && objs1[j1] == objs2[j];
    }
  }

  /** Reordering the objects may change which of several equally near records is kept, never its `t`. */
  lemma NearestOrderIndependent<T>(ops: HittableOps<T>, objs1: seq<T>, objs2: seq<T>, ray: Ray, tmin: real, tmax: real)
    requires multiset(objs1) == multiset(objs2)
    requires HitsInWindow(ops, objs1, ray, tmin, tmax) && HitsInWindow(ops, objs2, ray, tmin, tmax)
    ensures SameNearest(Nearest(ops, objs1, ray, tmin, tmax), Nearest(ops, objs2, ray, tmin, tmax))
  {
    NearestIsMinimal(ops, objs1, ray, tmin, tmax);
    NearestIsMinimal(ops, objs2, ray, tmin, tmax);
    MinimalHitsAgree(ops, Nearest(ops, objs1, ray, tmin, tmax), objs1, Nearest(ops, objs2, ray, tmin, tmax), objs2,
                     ray, tmin, tmax);
  }

  /** `rec` after the scan has copied `t`, `p`, `normal` and `material` from `h` (world.rs:26-29). */
  function CopyHit(rec: HitRecord, h: HitRecord): HitRecord
  {
    rec.(t := h.t, p := h.p, normal := h.normal, material := h.material)
  }

  class World<T> {
    var objects: seq<T>

    /** `World::default()`: no objects. */
    constructor ()
      ensures objects == []
    {
      objects := [];
    }

    /** world.rs:11-13: the object is pushed at the end. */
    method AddObject(obj: T)
      modifies this
      ensures objects == old(objects) + [obj]
    {
      objects := objects + [obj];
    }

    /**
     * world.rs:17-36.  The result is true exactly when the scan finds a hit; then the hit's
     * `t`, `p`, `normal` and `material` are written into `rec` and its `u`, `v` are kept,
     * and otherwise `rec` comes back unchanged.
     */
    method Hit(ops: HittableOps<T>, ray: Ray, tmin: real, tmax: real, rec: HitRecord) returns (found: bool, out: HitRecord)
      ensures found <==> Nearest(ops, objects, ray, tmin, tmax).Some?
      ensures found ==> out == CopyHit(rec, Nearest(ops, objects, ray, tmin, tmax).value)
      ensures !found ==> out == rec
    {
      found := false;
      var closest := tmax;
      out := rec;
      for i := 0 to |objects|
        invariant found <==> Nearest(ops, objects[..i], ray, tmin, tmax).Some?
        invariant found ==> closest == Nearest(ops, objects[..i], ray, tmin, tmax).value.t &&
                            out == CopyHit(rec, Nearest(ops, objects[..i], ray, tmin, tmax).value)
        invariant !found ==> closest == tmax && out == rec
      {
        assert objects[..i + 1][..i] == objects[..i];
        var tmp := ops.hit(objects[i], ray, tmin, tmax);
        if tmp.Some? && tmp.value.t < closest {
          found := true;
          closest := tmp.value.t;
          out := out.(t := tmp.value.t, p := tmp.value.p, normal := tmp.value.normal, material := tmp.value.material);
        }
      }
      assert objects[..|objects|] == objects;
    }
  }

  /**
   * When every object's hit lies in the window, a world hit, when there is one, is at the
   * smallest `t` of any object's hit, and there is one exactly when some object is hit.
   */
  lemma WorldHitIsNearest<T>(ops: HittableOps<T>, objs: seq<T>, ray: Ray, tmin: real, tmax: real)
    requires HitsInWindow(ops, objs, ray, tmin, tmax)
    ensures var r := Nearest(ops, objs, ray, tmin, tmax);
            (r.Some? <==> exists i :: 0 <= i < |objs| && ops.hit(objs[i], ray, tmin, tmax).Some?) &&
            (r.Some? ==> tmin < r.value.t < tmax &&
                         forall i :: 0 <= i < |objs| && ops.hit(objs[i], ray, tmin, tmax).Some? ==>
                           r.value.t <= ops.hit(objs[i], ray, tmin, tmax).value.t)
  {
    NearestIsMinimal(ops, objs, ray, tmin, tmax);
    var r := Nearest(ops, objs, ray, tmin, tmax);
    if r.Some? {
      var i :| 0 <= i < |objs| && ops.hit(objs[i], ray, tmin, tmax) == r;
    }
  }
}
