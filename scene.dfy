/**
 * The scene as src/main.rs renders it: spheres and moving spheres held by a bounding
 * volume hierarchy, which agrees with the linear scan of a world of the same spheres.
 */
module Scene {
  import opened Base
  import opened Vectors
  import opened Hittable
  import opened Shapes
  import opened World
  import opened Bvh

  /**
   * A tree built over spheres of positive radius, with the exact square root, answers a
   * query by a ray whose time lies between the build times and whose direction has no
   * zero component at the same `t` as the linear scan over the same spheres in any order.
   */
  lemma ShapeTreeAgreesWithScan(num: Numerics, t: Bvh<Shape>, objects: seq<Shape>, ray: Ray,
                                tmin: real, tmax: real, t0: real, t1: real)
    requires WellFormed(ShapeOps(num), t, t0, t1) && multiset(Leaves(t)) == multiset(objects)
    requires AllPositive(objects) && SqrtExact(num) && NonZeroDirection(ray) && t0 <= ray.time <= t1
    ensures SameNearest(t.Hit(ShapeOps(num), ray, tmin, tmax), Nearest(ShapeOps(num), objects, ray, tmin, tmax))
  {
    ShapesHitInWindow(num, objects, ray, tmin, tmax);
    ShapesBoundHits(num, objects, ray, tmin, tmax, t0, t1);
    AgreesWithScan(ShapeOps(num), t, objects, ray, tmin, tmax, t0, t1);
  }

  /** A hit of a tree of shapes is always some shape's hit, so it always carries a material. */
  lemma TreeHitHasMaterial(num: Numerics, t: Bvh<Shape>, ray: Ray, tmin: real, tmax: real)
    ensures var r := t.Hit(ShapeOps(num), ray, tmin, tmax);
            r.Some? ==> r.value.material.Some? && tmin < r.value.t < tmax
  {
    var r := t.Hit(ShapeOps(num), ray, tmin, tmax);
    if r.Some? {
      var i :| 0 <= i < |Leaves(t)| && ShapeOps(num).hit(Leaves(t)[i], ray, tmin, tmax) == r;
      assert Leaves(t)[i].Hit(ray, tmin, tmax, num) == r;
    }
  }
}
