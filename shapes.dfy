/**
 * The primitives the scene is built from (src/hittable.rs:15-18 implemented by
 * src/sphere.rs and src/moving_sphere.rs), as one closed variant.
 */
module Shapes {
  import opened Base
  import opened Vectors
  import opened Aabb
  import opened Hittable
  import opened Spheres
  import opened MovingSpheres

  /** A moving sphere whose two key times differ, so its centre is defined at every time. */
  type TimedSphere = m: MovingSphere | m.t0 != m.t1
    witness MovingSphere(Zero, Zero, 0.0, 1.0, 1.0, Lambertian(Zero))

  datatype Shape = Static(sphere: Sphere) | Moving(moving: TimedSphere) {

    function Radius(): real
    {
      match this
      case Static(s) => s.radius
      case Moving(m) => m.radius
    }

    function Material(): Material
    {
      match this
      case Static(s) => s.material
      case Moving(m) => m.material
    }

    /** `Hittable::hit` (hittable.rs:16), dispatched to sphere.rs:25-59 or moving_sphere.rs:46-89. */
    function Hit(ray: Ray, tmin: real, tmax: real, num: Numerics): (r: Option<HitRecord>)
      ensures r.Some? ==> tmin < r.value.t < tmax && r.value.material == Some(Material())
      ensures r.Some? ==> r.value.p == PointAt(ray, r.value.t)
    {
      match this
      case Static(s) => s.Hit(ray, tmin, tmax, num)
      case Moving(m) => m.Hit(ray, tmin, tmax, num)
    }

    /** `Hittable::bounding_box` (hittable.rs:17), dispatched to sphere.rs:61-64 or moving_sphere.rs:91-97. */
    function BoundingBox(t0: real, t1: real): (b: AABB)
    {
      match this
      case Static(s) => s.BoundingBox(t0, t1)
      case Moving(m) => m.BoundingBox(t0, t1)
    }
  }

  /**
   * With the exact square root and a positive radius, a hit by a ray whose time lies
   * between the box times is a point of the shape's bounding box, which has positive extent.
   */
  lemma ShapeHitInBox(o: Shape, ray: Ray, tmin: real, tmax: real, num: Numerics, t0: real, t1: real)
    requires SqrtExact(num) && o.Radius() > 0.0
    requires t0 <= ray.time <= t1
    requires o.Hit(ray, tmin, tmax, num).Some?
    ensures var h := o.Hit(ray, tmin, tmax, num).value;
            o.BoundingBox(t0, t1).InBox(h.p) && o.BoundingBox(t0, t1).Proper()
  {
    match o
    case Static(s) => HitInBox(s, ray, tmin, tmax, num, t0, t1);
    case Moving(m) => HitInSweptBox(m, ray, tmin, tmax, num, t0, t1);
  }

  /** A shape of positive radius has a bounding box of positive extent. */
  lemma ShapeBoxProper(o: Shape, t0: real, t1: real)
    requires o.Radius() > 0.0
    ensures o.BoundingBox(t0, t1).Proper()
  {
    match o
    case Static(s) =>
    case Moving(m) =>
      UnionProper(RadiusBox(m.Center(t0), m.radius), RadiusBox(m.Center(t1), m.radius));
  }

  /** The shapes as `Hittable` objects, with the square root and surface lookup `num`. */
  function ShapeOps(num: Numerics): HittableOps<Shape>
  {
    HittableOps((o: Shape, ray: Ray, tmin: real, tmax: real) => o.Hit(ray, tmin, tmax, num),
                (o: Shape, t0: real, t1: real) => o.BoundingBox(t0, t1))
  }

  /** Every object has a positive radius. */
  predicate AllPositive(objs: seq<Shape>)
  {
    forall i :: 0 <= i < |objs| ==> objs[i].Radius() > 0.0
  }

  /** Shapes report hits strictly inside the window, whatever the query. */
  lemma ShapesHitInWindow(num: Numerics, objs: seq<Shape>, ray: Ray, tmin: real, tmax: real)
    ensures HitsInWindow(ShapeOps(num), objs, ray, tmin, tmax)
  {
  }

  /**
   * With the exact square root and positive radii, every hit of a ray whose time lies
   * between the box times is in the shape's bounding box, which has positive extent.
   */
  lemma ShapesBoundHits(num: Numerics, objs: seq<Shape>, ray: Ray, tmin: real, tmax: real, t0: real, t1: real)
    requires SqrtExact(num) && AllPositive(objs) && t0 <= ray.time <= t1
    ensures BoxesBoundHits(ShapeOps(num), objs, ray, tmin, tmax, t0, t1)
  {
    forall i | 0 <= i < |objs| && objs[i].Hit(ray, tmin, tmax, num).Some?
      ensures objs[i].BoundingBox(t0, t1).Proper()
      ensures objs[i].BoundingBox(t0, t1).InBox(PointAt(ray, objs[i].Hit(ray, tmin, tmax, num).value.t))
    {
      ShapeHitInBox(objs[i], ray, tmin, tmax, num, t0, t1);
    }
  }
}
