/**
 * src/moving_sphere.rs: a sphere whose centre moves linearly from `center0` at time `t0`
 * to `center1` at time `t1`.  A ray is intersected with the sphere frozen at the ray's
 * own time.
 */
module MovingSpheres {
  import opened Base
  import opened Vectors
  import opened Aabb
  import opened Hittable
  import opened Spheres

  /** `c + ((x - t0) / d) * e`: one coordinate of the interpolated centre. */
  function Lerp(c: real, e: real, t0: real, d: real, x: real): real
    requires d != 0.0
  {
    c + ((x - t0) / d) * e
  }

  datatype MovingSphere = MovingSphere(center0: Vec3, center1: Vec3, t0: real, t1: real,
                                       radius: real, material: Material) {

    /**
     * moving_sphere.rs:39-42.  With `t0 == t1` the source divides by zero: the centre is
     * all NaN at `t == t0`, and elsewhere ±inf on axes where the key positions differ and
     * NaN where they agree, so `hit` finds a NaN discriminant and never hits.  That case
     * is excluded here.
     */
    function Center(t: real): Vec3
      requires t0 != t1
    {
      Add(center0, Scale((t - t0) / (t1 - t0), Sub(center1, center0)))
    }

    /** The static sphere this one is at time `t`. */
    function Snapshot(t: real): Sphere
      requires t0 != t1
    {
      Sphere(Center(t), radius, material)
    }

    /**
     * moving_sphere.rs:46-89.  A negative discriminant returns early, a positive one tries
     * the smaller root and then the larger one, and a zero one falls through to no hit.
     * The outcome is that of the static sphere frozen at `ray.time`, whose contract states
     * root selection, the window and the record.
     */
    function Hit(ray: Ray, tmin: real, tmax: real, num: Numerics): (r: Option<HitRecord>)
      requires t0 != t1
      ensures r == Snapshot(ray.time).Hit(ray, tmin, tmax, num)
      ensures r.Some? ==> radius != 0.0 && tmin < r.value.t < tmax &&
                          r.value.p == PointAt(ray, r.value.t) &&
                          r.value.normal == DivBy(Sub(r.value.p, Center(ray.time)), radius) &&
                          r.value.material == Some(material)
      ensures Coefficients(ray, Center(ray.time), radius).Discriminant() <= 0.0 ==> r.None?
    {
      var center := Center(ray.time);
      var q := Coefficients(ray, center, radius);
      if q.Discriminant() < 0.0 then
        None
      else if q.Discriminant() > 0.0 then
        PositiveDiscriminant(ray, center, radius);
        match FirstRootInWindow(q, tmin, tmax, num)
        case Some(t) => Some(Record(ray, t, center, radius, material, num))
        case None => None
      else
        None
    }

    /**
     * moving_sphere.rs:91-97: the union of the radius boxes at the two times, so each
     * extent runs from the smaller centre coordinate minus the radius to the larger plus it.
     */
    function BoundingBox(T0: real, T1: real): (b: AABB)
      requires t0 != t1
      ensures b.Contains(RadiusBox(Center(T0), radius)) && b.Contains(RadiusBox(Center(T1), radius))
      ensures forall axis: nat :: axis < 3 ==>
                b.min.Get(axis) == Min(Center(T0).Get(axis), Center(T1).Get(axis)) - radius &&
                b.max.Get(axis) == Max(Center(T0).Get(axis), Center(T1).Get(axis)) + radius
    {
      var b := RadiusBox(Center(T0), radius).Union(RadiusBox(Center(T1), radius));
      UnionContainsBoth(RadiusBox(Center(T0), radius), RadiusBox(Center(T1), radius));
      b
    }
  }

  /** The centre is `center0` at `t0` and `center1` at `t1`. */
  lemma CenterAtKeyframes(m: MovingSphere)
    requires m.t0 != m.t1
    ensures m.Center(m.t0) == m.center0 && m.Center(m.t1) == m.center1
  {
    var d := m.t1 - m.t0;
    DivMul(d, d);
    assert (d / d - 1.0) * d == 0.0;
    ZeroProduct(d / d - 1.0, d);
  }

  /** Each coordinate of the centre is the interpolation of that coordinate. */
  lemma CenterComponent(m: MovingSphere, t: real, axis: nat)
    requires m.t0 != m.t1 && axis < 3
    ensures m.Center(t).Get(axis) ==
            Lerp(m.center0.Get(axis), m.center1.Get(axis) - m.center0.Get(axis), m.t0, m.t1 - m.t0, t)
  {
  }

  /** An interpolated coordinate at a time between `lo` and `hi` lies between its values there. */
  lemma {:induction false} LerpBetween(c: real, e: real, t0: real, d: real, lo: real, t: real, hi: real)
    requires d != 0.0 && lo <= t <= hi
    ensures Min(Lerp(c, e, t0, d, lo), Lerp(c, e, t0, d, hi)) <= Lerp(c, e, t0, d, t)
    ensures Lerp(c, e, t0, d, t) <= Max(Lerp(c, e, t0, d, lo), Lerp(c, e, t0, d, hi))
  {
    var k := e / d;
    DivMul(e, d);
    DivMul(lo - t0, d);
    DivMul(t - t0, d);
    DivMul(hi - t0, d);
    assert Lerp(c, e, t0, d, t) - Lerp(c, e, t0, d, lo) == (t - lo) * k;
    assert Lerp(c, e, t0, d, hi) - Lerp(c, e, t0, d, t) == (hi - t) * k;
    if k >= 0.0 {
      MulNonNegative(t - lo, k);
      MulNonNegative(hi - t, k);
    } else {
      MulNonNegative(t - lo, -k);
      MulNonNegative(hi - t, -k);
    }
  }

  /**
   * At any time between the two box times the sphere's radius box lies inside the swept
   * bounding box: the motion is linear, so the centre stays between its two end positions.
   */
  lemma SweptBoxContains(m: MovingSphere, T0: real, T1: real, t: real)
    requires m.t0 != m.t1 && T0 <= t <= T1
    ensures m.BoundingBox(T0, T1).Contains(RadiusBox(m.Center(t), m.radius))
  {
    forall axis: nat | axis < 3
      ensures Min(m.Center(T0).Get(axis), m.Center(T1).Get(axis)) <= m.Center(t).Get(axis)
      ensures m.Center(t).Get(axis) <= Max(m.Center(T0).Get(axis), m.Center(T1).Get(axis))
    {
      CenterComponent(m, T0, axis);
      CenterComponent(m, t, axis);
      CenterComponent(m, T1, axis);
      LerpBetween(m.center0.Get(axis), m.center1.Get(axis) - m.center0.Get(axis), m.t0, m.t1 - m.t0, T0, t, T1);
    }
  }

  /**
   * With the exact square root and a positive radius, a hit by a ray whose time lies between
   * the box times is inside the swept bounding box, and that box has positive extent.
   */
  lemma HitInSweptBox(m: MovingSphere, ray: Ray, tmin: real, tmax: real, num: Numerics, T0: real, T1: real)
    requires m.t0 != m.t1 && SqrtExact(num) && m.radius > 0.0
    requires T0 <= ray.time <= T1
    requires m.Hit(ray, tmin, tmax, num).Some?
    ensures var h := m.Hit(ray, tmin, tmax, num).value;
            h.p == PointAt(ray, h.t) && m.BoundingBox(T0, T1).InBox(h.p) && m.BoundingBox(T0, T1).Proper()
  {
    var h := m.Hit(ray, tmin, tmax, num).value;
    var s := m.Snapshot(ray.time);
    HitInBox(s, ray, tmin, tmax, num, T0, T1);
    SweptBoxContains(m, T0, T1, ray.time);
    InBoxContained(m.BoundingBox(T0, T1), RadiusBox(m.Center(ray.time), m.radius), h.p);
    var b0 := RadiusBox(m.Center(T0), m.radius);
    var b1 := RadiusBox(m.Center(T1), m.radius);
    UnionProper(b0, b1);
  }
}
