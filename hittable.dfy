/** src/hittable.rs: the hit record every primitive produces, and the `Hittable` trait. */
module Hittable {
  import opened Base
  import opened Vectors
  import opened Aabb

  /** src/material.rs:9-13, as data only: scattering is an opaque collaborator of the integrator. */
  datatype Material =
    | Lambertian(albedo: Vec3)
    | Metal(albedo: Vec3, fuzz: real)
    | Dielectric(refIdx: real)

  /** hittable.rs:6-13 */
  datatype HitRecord = HitRecord(p: Vec3, normal: Vec3, t: real, u: real, v: real, material: Option<Material>)

  /**
   * hittable.rs:15-18: the trait's two operations over objects of type `T`, the way a
   * `Box<dyn Hittable>` carries them.
   */
  datatype HittableOps<-T> = HittableOps(hit: (T, Ray, real, real) -> Option<HitRecord>,
                                        boundingBox: (T, real, real) -> AABB)

  /** Every hit an object of `objs` reports lies strictly inside the window `(tmin, tmax)`. */
  predicate HitsInWindow<T>(ops: HittableOps<T>, objs: seq<T>, ray: Ray, tmin: real, tmax: real)
  {
    forall i :: 0 <= i < |objs| && ops.hit(objs[i], ray, tmin, tmax).Some? ==>
      tmin < ops.hit(objs[i], ray, tmin, tmax).value.t < tmax
  }

  /**
   * Every hit an object of `objs` reports is the point of the ray at the hit's `t`, and it
   * lies in that object's bounding box for the times `t0`, `t1`, a box of positive extent.
   */
  predicate BoxesBoundHits<T>(ops: HittableOps<T>, objs: seq<T>, ray: Ray, tmin: real, tmax: real, t0: real, t1: real)
  {
    forall i :: 0 <= i < |objs| && ops.hit(objs[i], ray, tmin, tmax).Some? ==>
      ops.boundingBox(objs[i], t0, t1).Proper() &&
      ops.boundingBox(objs[i], t0, t1).InBox(PointAt(ray, ops.hit(objs[i], ray, tmin, tmax).value.t))
  }
}
