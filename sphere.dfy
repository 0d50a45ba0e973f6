/**
 * src/sphere.rs: a static sphere, and the ray-sphere quadratic that src/moving_sphere.rs
 * solves the same way.
 */
module Spheres {
  import opened Base
  import opened Vectors
  import opened Aabb
  import opened Hittable

  /**
   * `a t^2 + 2 b t + c = 0` for `|origin + t dir - center|^2 = radius^2`
   * (sphere.rs:26-30, moving_sphere.rs:47-51).
   */
  datatype Quadratic = Quadratic(a: real, b: real, c: real) {
    function Discriminant(): real { b * b - a * c }

    /** The smaller root `(-b - sqrt(b*b - a*c)) / a` (sphere.rs:35). */
    function NearRoot(num: Numerics): real
      requires a != 0.0
    {
      (-b - num.sqrt(Discriminant())) / a
    }

    /** The larger root `(-b + sqrt(b*b - a*c)) / a` (sphere.rs:45). */
    function FarRoot(num: Numerics): real
      requires a != 0.0
    {
      (-b + num.sqrt(Discriminant())) / a
    }
  }

  lemma RootsScaled(q: Quadratic, num: Numerics)
    requires q.a != 0.0
    ensures q.NearRoot(num) * q.a == -q.b - num.sqrt(q.Discriminant())
    ensures q.FarRoot(num) * q.a == -q.b + num.sqrt(q.Discriminant())
  {
    DivMul(-q.b - num.sqrt(q.Discriminant()), q.a);
    DivMul(-q.b + num.sqrt(q.Discriminant()), q.a);
  }

  function Coefficients(ray: Ray, center: Vec3, radius: real): Quadratic
  {
    var oc := Sub(ray.origin, center);
    Quadratic(Dot(ray.dir, ray.dir), Dot(oc, ray.dir), Dot(oc, oc) - radius * radius)
  }

  /** `|u|^2 |v|^2 - (u.v)^2`, the squared length of `u x v`. */
  function CrossNormSquared(u: Vec3, v: Vec3): real
  {
    var cx := u.y * v.z - u.z * v.y;
    var cy := u.z * v.x - u.x * v.z;
    var cz := u.x * v.y - u.y * v.x;
    cx * cx + cy * cy + cz * cz
  }

  lemma LagrangeIdentity(u: Vec3, v: Vec3)
    ensures Dot(u, u) * Dot(v, v) - Dot(u, v) * Dot(u, v) == CrossNormSquared(u, v)
  {
  }

  /**
   * A positive discriminant forces a non-zero direction and a non-zero radius, so the
   * divisions by `a` and by `radius` that follow it in both sphere types are defined.
   */
  lemma PositiveDiscriminant(ray: Ray, center: Vec3, radius: real)
    requires Coefficients(ray, center, radius).Discriminant() > 0.0
    ensures Coefficients(ray, center, radius).a > 0.0 && radius != 0.0
  {
    var oc := Sub(ray.origin, center);
    var q := Coefficients(ray, center, radius);
    LagrangeIdentity(oc, ray.dir);
    assert q.Discriminant() == q.a * (radius * radius) - CrossNormSquared(oc, ray.dir);
    SquareNonNegative(oc.y * ray.dir.z - oc.z * ray.dir.y);
    SquareNonNegative(oc.z * ray.dir.x - oc.x * ray.dir.z);
    SquareNonNegative(oc.x * ray.dir.y - oc.y * ray.dir.x);
    DotSelfNonNegative(ray.dir);
    assert q.a * (radius * radius) > 0.0;
  }

  /**
   * Root selection shared by sphere.rs:34-56 and moving_sphere.rs:58-86: the smaller root
   * if it lies strictly inside `(tmin, tmax)`, else the larger root if that does, else none.
   */
  function FirstRootInWindow(q: Quadratic, tmin: real, tmax: real, num: Numerics): (r: Option<real>)
    requires q.a != 0.0
    ensures r.Some? ==> tmin < r.value < tmax
    ensures r.Some? ==> r.value == q.NearRoot(num) || r.value == q.FarRoot(num)
    ensures tmin < q.NearRoot(num) < tmax ==> r == Some(q.NearRoot(num))
    ensures r.None? <==> !(tmin < q.NearRoot(num) < tmax) && !(tmin < q.FarRoot(num) < tmax)
  {
    var near := q.NearRoot(num);
    if near < tmax && near > tmin then Some(near)
    else
      var far := q.FarRoot(num);
      if far < tmax && far > tmin then Some(far) else None
  }

  /** The record both sphere types build at parameter `t` (sphere.rs:37-43, moving_sphere.rs:61-70). */
  function Record(ray: Ray, t: real, center: Vec3, radius: real, material: Material, num: Numerics): HitRecord
    requires radius != 0.0
  {
    var p := PointAt(ray, t);
    var uv := num.surfaceUV(p);
    HitRecord(p, DivBy(Sub(p, center), radius), t, uv.0, uv.1, Some(material))
  }

  /** The box `center - r` to `center + r` (sphere.rs:62-63, moving_sphere.rs:92-94). */
  function RadiusBox(center: Vec3, radius: real): (b: AABB)
    ensures forall axis: nat :: axis < 3 ==>
              b.max.Get(axis) - b.min.Get(axis) == 2.0 * radius &&
              b.min.Get(axis) + b.max.Get(axis) == 2.0 * center.Get(axis)
  {
    AABB(Sub(center, Splat(radius)), Add(center, Splat(radius)))
  }

  datatype Sphere = Sphere(center: Vec3, radius: real, material: Material) {

    /** sphere.rs:25-59 */
    function Hit(ray: Ray, tmin: real, tmax: real, num: Numerics): (r: Option<HitRecord>)
      ensures var q := Coefficients(ray, center, radius);
              r.Some? ==> q.Discriminant() > 0.0 && q.a != 0.0 && radius != 0.0 &&
                          tmin < r.value.t < tmax &&
                          (r.value.t == q.NearRoot(num) ||
                           (r.value.t == q.FarRoot(num) && !(tmin < q.NearRoot(num) < tmax))) &&
                          r.value == Record(ray, r.value.t, center, radius, material, num)
      ensures var q := Coefficients(ray, center, radius);
              r.None? <==> q.Discriminant() <= 0.0 ||
                           (q.a != 0.0 && !(tmin < q.NearRoot(num) < tmax) && !(tmin < q.FarRoot(num) < tmax))
      ensures r.Some? ==> r.value.material == Some(material)
    {
      var q := Coefficients(ray, center, radius);
      if q.Discriminant() > 0.0 then
        PositiveDiscriminant(ray, center, radius);
        match FirstRootInWindow(q, tmin, tmax, num)
        case Some(t) => Some(Record(ray, t, center, radius, material, num))
        case None => None
      else
        None
    }

    /** sphere.rs:61-64: the time arguments are ignored. */
    function BoundingBox(t0: real, t1: real): (b: AABB)
      ensures forall axis: nat :: axis < 3 ==>
                b.min.Get(axis) == center.Get(axis) - radius && b.max.Get(axis) == center.Get(axis) + radius
    {
      RadiusBox(center, radius)
    }
  }

  /** With a non-negative square root the smaller root is tried first: `near <= far`. */
  lemma NearRootFirst(q: Quadratic, num: Numerics)
    requires SqrtNonNegative(num)
    requires q.a > 0.0 && q.Discriminant() > 0.0
    ensures q.NearRoot(num) <= q.FarRoot(num)
  {
    var s := num.sqrt(q.Discriminant());
    assert s >= 0.0;
    RootsScaled(q, num);
    assert (q.FarRoot(num) - q.NearRoot(num)) * q.a == 2.0 * s;
  }

  /**
   * With the exact square root, either root puts the point on the sphere:
   * `|point_at(t) - center|^2 = radius^2`.
   */
  lemma {:induction false} RootOnSurface(ray: Ray, center: Vec3, radius: real, num: Numerics, t: real)
    requires SqrtExact(num)
    requires Coefficients(ray, center, radius).Discriminant() > 0.0
    requires Coefficients(ray, center, radius).a != 0.0
    requires t == Coefficients(ray, center, radius).NearRoot(num) || t == Coefficients(ray, center, radius).FarRoot(num)
    ensures var d := Sub(PointAt(ray, t), center); Dot(d, d) == radius * radius
  {
    var q := Coefficients(ray, center, radius);
    var a, b, c := q.a, q.b, q.c;
    var s := num.sqrt(q.Discriminant());
    assert s * s == b * b - a * c;
    var u := a * t + b;
    RootsScaled(q, num);
    assert u == s || u == -s;
    assert u * u == b * b - a * c;
    assert a * (a * t * t + 2.0 * b * t) == u * u - b * b;
    assert a * t * t + 2.0 * b * t == -c;
    var oc := Sub(ray.origin, center);
    var d := Sub(PointAt(ray, t), center);
    assert d == Add(oc, Scale(t, ray.dir));
    assert Dot(d, d) == Dot(oc, oc) + 2.0 * t * b + t * t * a;
  }

  /** A vector of length `|r|`, divided by `r`, has unit length. */
  lemma DivideByLength(d: Vec3, r: real)
    requires r != 0.0 && Dot(d, d) == r * r
    ensures var n := DivBy(d, r); Dot(n, n) == 1.0
  {
    var n := DivBy(d, r);
    DivMul(d.x, r);
    DivMul(d.y, r);
    DivMul(d.z, r);
    assert (n.x * n.x) * (r * r) == (n.x * r) * (n.x * r) == d.x * d.x;
    assert (n.y * n.y) * (r * r) == (n.y * r) * (n.y * r) == d.y * d.y;
    assert (n.z * n.z) * (r * r) == (n.z * r) * (n.z * r) == d.z * d.z;
    assert ((Dot(n, n) - 1.0) * r) * r == 0.0;
    ZeroProduct((Dot(n, n) - 1.0) * r, r);
    ZeroProduct(Dot(n, n) - 1.0, r);
  }

  /** Consequently the normal `(p - center) / radius` has unit length. */
  lemma {:induction false} UnitNormal(s: Sphere, ray: Ray, tmin: real, tmax: real, num: Numerics)
    requires SqrtExact(num)
    requires s.Hit(ray, tmin, tmax, num).Some?
    ensures var n := s.Hit(ray, tmin, tmax, num).value.normal; Dot(n, n) == 1.0
  {
    var h := s.Hit(ray, tmin, tmax, num).value;
    RootOnSurface(ray, s.center, s.radius, num, h.t);
    DivideByLength(Sub(h.p, s.center), s.radius);
  }

  /** Every point of a ball of positive radius lies in its radius box. */
  lemma BallInBox(center: Vec3, radius: real, p: Vec3)
    requires radius > 0.0
    requires var d := Sub(p, center); Dot(d, d) <= radius * radius
    ensures RadiusBox(center, radius).InBox(p) && RadiusBox(center, radius).Proper()
  {
    var d := Sub(p, center);
    forall axis: nat | axis < 3
      ensures center.Get(axis) - radius <= p.Get(axis) <= center.Get(axis) + radius
    {
      ComponentSquareBounded(d, axis);
      AbsBoundedBySquare(d.Get(axis), radius);
    }
  }

  /** A hit of a sphere of positive radius lies in its bounding box (exact square root). */
  lemma {:induction false} HitInBox(s: Sphere, ray: Ray, tmin: real, tmax: real, num: Numerics, t0: real, t1: real)
    requires SqrtExact(num) && s.radius > 0.0
    requires s.Hit(ray, tmin, tmax, num).Some?
    ensures var h := s.Hit(ray, tmin, tmax, num).value;
            h.p == PointAt(ray, h.t) && s.BoundingBox(t0, t1).InBox(h.p) && s.BoundingBox(t0, t1).Proper()
  {
    var h := s.Hit(ray, tmin, tmax, num).value;
    RootOnSurface(ray, s.center, s.radius, num, h.t);
    BallInBox(s.center, s.radius, h.p);
  }
}
