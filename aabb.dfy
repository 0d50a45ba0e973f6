/**
 * src/aabb.rs: axis-aligned bounding boxes, the per-axis slab test and box union.
 * `AABB::new` is the datatype constructor: it stores `min` and `max` unchanged.
 */
module Aabb {
  import opened Base
  import opened Vectors

  datatype AABB = AABB(min: Vec3, max: Vec3) {

    /**
     * The ray's entry and exit parameters for this box's slab on `axis`
     * (aabb.rs:17-28): the two slab distances multiplied by `1.0 / dir[axis]`,
     * smaller first.
     */
    function SlabInterval(ray: Ray, axis: nat): (r: (real, real))
      requires axis < 3 && ray.dir.Get(axis) != 0.0
      ensures r.0 <= r.1
      ensures var inv := 1.0 / ray.dir.Get(axis);
              var a := (min.Get(axis) - ray.origin.Get(axis)) * inv;
              var b := (max.Get(axis) - ray.origin.Get(axis)) * inv;
              (r.0 == a && r.1 == b) || (r.0 == b && r.1 == a)
    {
      var o := ray.origin.Get(axis);
      var inv := 1.0 / ray.dir.Get(axis);
      var a := (min.Get(axis) - o) * inv;
      var b := (max.Get(axis) - o) * inv;
      (Min(a, b), Max(a, b))
    }

    /**
     * One iteration of the loop in `AABB::hit` (aabb.rs:17-35) does not return false.
     * The `let t_min`/`let t_max` of aabb.rs:30-31 shadow the parameters inside the
     * loop body, so every axis is compared with the ORIGINAL window `(tmin, tmax)`.
     * A zero direction component is the case of `ParallelAxisOverlaps`.
     */
    predicate AxisOverlaps(ray: Ray, axis: nat, tmin: real, tmax: real)
      requires axis < 3
    {
      var o := ray.origin.Get(axis);
      if ray.dir.Get(axis) != 0.0 then
        var slab := SlabInterval(ray, axis);
        Min(slab.1, tmax) > Max(slab.0, tmin)
      else
        ParallelAxisOverlaps(min.Get(axis), max.Get(axis), o, tmin, tmax)
    }

    /** The value `AABB::hit` returns: no axis made the loop return false. */
    predicate SlabHit(ray: Ray, tmin: real, tmax: real)
    {
      AxisOverlaps(ray, 0, tmin, tmax) && AxisOverlaps(ray, 1, tmin, tmax) && AxisOverlaps(ray, 2, tmin, tmax)
    }

    /** aabb.rs:15-39, the loop over the three axes with its early `return false`. */
    method Hit(ray: Ray, tmin: real, tmax: real) returns (hit: bool)
      ensures hit == SlabHit(ray, tmin, tmax)
    {
      for axis := 0 to 3
        invariant forall k :: 0 <= k < axis ==> AxisOverlaps(ray, k, tmin, tmax)
      {
        var rOrigin := ray.origin.Get(axis);
        if ray.dir.Get(axis) != 0.0 {
          var (t0, t1) := SlabInterval(ray, axis);
          var tMinAxis := Max(t0, tmin);
          var tMaxAxis := Min(t1, tmax);
          if tMaxAxis <= tMinAxis {
            return false;
          }
        } else {
          if !ParallelAxisOverlaps(min.Get(axis), max.Get(axis), rOrigin, tmin, tmax) {
            return false;
          }
        }
      }
      return true;
    }

    /** aabb.rs:41-54 */
    function Union(other: AABB): (u: AABB)
      ensures forall axis: nat :: axis < 3 ==>
                u.min.Get(axis) == Min(min.Get(axis), other.min.Get(axis)) &&
                u.max.Get(axis) == Max(max.Get(axis), other.max.Get(axis))
    {
      AABB(Vec3(Min(min.x, other.min.x), Min(min.y, other.min.y), Min(min.z, other.min.z)),
           Vec3(Max(max.x, other.max.x), Max(max.y, other.max.y), Max(max.z, other.max.z)))
    }

    /** This box spans `inner` on every axis. */
    predicate Contains(inner: AABB)
    {
      forall axis: nat :: axis < 3 ==>
        min.Get(axis) <= inner.min.Get(axis) && inner.max.Get(axis) <= max.Get(axis)
    }

    /** `min < max` on every axis: a box of positive extent. */
    predicate Proper()
    {
      forall axis: nat :: axis < 3 ==> min.Get(axis) < max.Get(axis)
    }

    predicate InBox(p: Vec3)
    {
      forall axis: nat :: axis < 3 ==> min.Get(axis) <= p.Get(axis) <= max.Get(axis)
    }
  }

  /**
   * The outcome of one axis of `AABB::hit` when `dir[axis]` is zero: `1.0 / dir[axis]` is
   * infinite in f32, each slab distance `(bound - o) * inf` is -inf, +inf or (for a zero
   * distance) NaN, and `f32::min`/`f32::max` return their non-NaN operand.  The window
   * survives exactly when the two distances have opposite infinite signs, or are both NaN
   * (a flat slab through the origin), and the window itself is not empty.
   */
  predicate ParallelAxisOverlaps(lo: real, hi: real, o: real, tmin: real, tmax: real)
  {
    tmax > tmin && ((lo < o && o < hi) || (hi < o && o < lo) || (lo == o && hi == o))
  }

  /** The union spans both of its inputs. */
  lemma UnionContainsBoth(a: AABB, b: AABB)
    ensures a.Union(b).Contains(a) && a.Union(b).Contains(b)
  {
  }

  /** The union is the tightest box spanning both inputs. */
  lemma UnionTightest(a: AABB, b: AABB, c: AABB)
    requires c.Contains(a) && c.Contains(b)
    ensures c.Contains(a.Union(b))
  {
  }

  lemma UnionCommutative(a: AABB, b: AABB)
    ensures a.Union(b) == b.Union(a)
  {
  }

  lemma UnionIdempotent(a: AABB)
    ensures a.Union(a) == a
  {
  }

  lemma UnionProper(a: AABB, b: AABB)
    requires a.Proper() && b.Proper()
    ensures a.Union(b).Proper()
  {
  }

  lemma ContainsTransitive(a: AABB, b: AABB, c: AABB)
    requires a.Contains(b) && b.Contains(c)
    ensures a.Contains(c)
  {
  }

  /** A box spanning a box of positive extent has positive extent. */
  lemma ContainsProper(outer: AABB, inner: AABB)
    requires outer.Contains(inner) && inner.Proper()
    ensures outer.Proper()
  {
  }

  lemma InBoxContained(outer: AABB, inner: AABB, p: Vec3)
    requires outer.Contains(inner) && inner.InBox(p)
    ensures outer.InBox(p)
  {
  }

  /** An empty or inverted window never hits (aabb.rs:30-34). */
  lemma EmptyWindowMisses(b: AABB, ray: Ray, tmin: real, tmax: real)
    requires tmax <= tmin
    ensures !b.SlabHit(ray, tmin, tmax)
  {
  }

  /**
   * The textbook slab test, which narrows ONE running window over the three axes,
   * for rays without a zero direction component.
   */
  predicate RunningSlabHit(b: AABB, ray: Ray, tmin: real, tmax: real)
    requires NonZeroDirection(ray)
  {
    var x := b.SlabInterval(ray, 0);
    var y := b.SlabInterval(ray, 1);
    var z := b.SlabInterval(ray, 2);
    Min(Min(Min(x.1, y.1), z.1), tmax) > Max(Max(Max(x.0, y.0), z.0), tmin)
  }

  /** Because of the shadowing, `AABB::hit` answers true at least whenever the running test does. */
  lemma RunningSlabHitImpliesSlabHit(b: AABB, ray: Ray, tmin: real, tmax: real)
    requires NonZeroDirection(ray)
    requires RunningSlabHit(b, ray, tmin, tmax)
    ensures b.SlabHit(ray, tmin, tmax)
  {
  }

  /**
   * ... and strictly more often: this ray's three slab intervals each meet the window
   * but have no common point, so the box is missed yet `AABB::hit` returns true.
   */
  lemma SlabHitLooserThanRunning()
    ensures var b := AABB(Vec3(0.0, 0.0, 0.0), Vec3(1.0, 1.0, 1.0));
            var ray := Ray(Vec3(-1.0, 2.5, 0.5), Vec3(1.0, -1.0, 1.0), 0.0);
            b.SlabHit(ray, 0.0, 10.0) && !RunningSlabHit(b, ray, 0.0, 10.0)
  {
    var b := AABB(Vec3(0.0, 0.0, 0.0), Vec3(1.0, 1.0, 1.0));
    var ray := Ray(Vec3(-1.0, 2.5, 0.5), Vec3(1.0, -1.0, 1.0), 0.0);
    assert b.SlabInterval(ray, 0) == (1.0, 2.0);
    assert b.SlabInterval(ray, 1) == (1.5, 2.5);
    assert b.SlabInterval(ray, 2) == (-0.5, 0.5);
  }

  /** A point of a proper box reached at a parameter inside the window passes the axis test. */
  lemma {:induction false} AxisOverlapsAtPoint(b: AABB, ray: Ray, axis: nat, t: real, tmin: real, tmax: real)
    requires axis < 3 && ray.dir.Get(axis) != 0.0
    requires b.min.Get(axis) < b.max.Get(axis)
    requires b.min.Get(axis) <= ray.origin.Get(axis) + t * ray.dir.Get(axis) <= b.max.Get(axis)
    requires tmin < t < tmax
    ensures b.AxisOverlaps(ray, axis, tmin, tmax)
  {
    var o, d := ray.origin.Get(axis), ray.dir.Get(axis);
    var lo, hi := b.min.Get(axis), b.max.Get(axis);
    var inv := 1.0 / d;
    assert d * inv == 1.0;
    var ea, eb := (lo - o) * inv, (hi - o) * inv;
    assert ea - t == (lo - o - t * d) * inv;
    assert eb - t == (hi - o - t * d) * inv;
    assert eb - ea == (hi - lo) * inv;
    var slab := b.SlabInterval(ray, axis);
    if d > 0.0 {
      assert inv > 0.0;
      assert ea <= t <= eb && ea < eb;
    } else {
      assert inv < 0.0;
      assert eb <= t <= ea && eb < ea;
    }
    assert slab.0 <= t <= slab.1 && slab.0 < slab.1;
  }

  /**
   * Conservative pruning: when the ray reaches a point of a proper box at a parameter
   * strictly inside the window, `AABB::hit` reports a hit.
   */
  lemma {:induction false} SlabHitAtPoint(b: AABB, ray: Ray, t: real, tmin: real, tmax: real)
    requires NonZeroDirection(ray) && b.Proper()
    requires tmin < t < tmax && b.InBox(PointAt(ray, t))
    ensures b.SlabHit(ray, tmin, tmax)
  {
    var p := PointAt(ray, t);
    forall axis: nat | axis < 3
      ensures b.AxisOverlaps(ray, axis, tmin, tmax)
    {
      assert b.min.Get(axis) <= p.Get(axis) <= b.max.Get(axis);
      assert p.Get(axis) == ray.origin.Get(axis) + t * ray.dir.Get(axis);
      AxisOverlapsAtPoint(b, ray, axis, t, tmin, tmax);
    }
  }
}
