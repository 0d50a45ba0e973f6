/**
 * The vector and ray glue the core is written against (glam's `Vec3A` and src/ray.rs),
 * over the reals instead of f32.  Square root and the sphere's surface mapping are
 * floating-point library calls this model does not compute: they are carried in a
 * `Numerics` record, and only the facts stated by `SqrtNonNegative` and `SqrtExact`
 * are ever assumed of them, by the lemmas that need them.
 */
module Vectors {

  datatype Vec3 = Vec3(x: real, y: real, z: real) {
    /** `v[axis]` */
    function Get(axis: nat): real
      requires axis < 3
    {
      if axis == 0 then x else if axis == 1 then y else z
    }
  }

  const Zero := Vec3(0.0, 0.0, 0.0)

  function Add(a: Vec3, b: Vec3): Vec3 { Vec3(a.x + b.x, a.y + b.y, a.z + b.z) }
  function Sub(a: Vec3, b: Vec3): Vec3 { Vec3(a.x - b.x, a.y - b.y, a.z - b.z) }
  /** Component-wise product (glam's `Vec3A * Vec3A`). */
  function Mul(a: Vec3, b: Vec3): Vec3 { Vec3(a.x * b.x, a.y * b.y, a.z * b.z) }
  function Scale(k: real, v: Vec3): Vec3 { Vec3(k * v.x, k * v.y, k * v.z) }
  function DivBy(v: Vec3, k: real): Vec3
    requires k != 0.0
  {
    Vec3(v.x / k, v.y / k, v.z / k)
  }
  function Dot(a: Vec3, b: Vec3): real { a.x * b.x + a.y * b.y + a.z * b.z }
  /** A vector with the same value on every axis (`Vec3A::new(r, r, r)`). */
  function Splat(r: real): Vec3 { Vec3(r, r, r) }

  /** src/ray.rs: a plain record; `Ray::new` normalises `dir`, which is left to the producer of the ray. */
  datatype Ray = Ray(origin: Vec3, dir: Vec3, time: real)

  function PointAt(ray: Ray, t: real): Vec3 { Add(ray.origin, Scale(t, ray.dir)) }

  /** Floating-point operations the core calls and this model keeps uninterpreted. */
  datatype Numerics = Numerics(sqrt: real -> real, surfaceUV: Vec3 -> (real, real))

  ghost predicate SqrtNonNegative(num: Numerics)
  {
    forall x: real :: x >= 0.0 ==> num.sqrt(x) >= 0.0
  }

  /** The idealisation of `f32::sqrt` as the exact square root. */
  ghost predicate SqrtExact(num: Numerics)
  {
    forall x: real :: x >= 0.0 ==> num.sqrt(x) >= 0.0 && num.sqrt(x) * num.sqrt(x) == x
  }

  /** Every component of the direction is non-zero, so `1.0 / dir[axis]` is finite. */
  predicate NonZeroDirection(ray: Ray)
  {
    ray.dir.x != 0.0 && ray.dir.y != 0.0 && ray.dir.z != 0.0
  }

  lemma {:induction false} SquareNonNegative(x: real)
    ensures x * x >= 0.0
  {
    if x < 0.0 {
      assert (-x) * (-x) == x * x;
    }
  }

  lemma DotSelfNonNegative(v: Vec3)
    ensures Dot(v, v) >= 0.0
  {
    SquareNonNegative(v.x);
    SquareNonNegative(v.y);
    SquareNonNegative(v.z);
  }

  lemma DivMul(x: real, k: real)
    requires k != 0.0
    ensures (x / k) * k == x
  {
  }

  lemma MulNonNegative(a: real, b: real)
    requires a >= 0.0 && b >= 0.0
    ensures a * b >= 0.0
  {
  }

  lemma ZeroProduct(x: real, k: real)
    requires x * k == 0.0
    requires k != 0.0
    ensures x == 0.0
  {
  }

  /** A coordinate bounded by the squared length: `v[axis]^2 <= |v|^2`. */
  lemma ComponentSquareBounded(v: Vec3, axis: nat)
    requires axis < 3
    ensures v.Get(axis) * v.Get(axis) <= Dot(v, v)
  {
    SquareNonNegative(v.x);
    SquareNonNegative(v.y);
    SquareNonNegative(v.z);
  }

  /** From `x^2 <= r^2` and `r > 0`: `-r <= x <= r`. */
  lemma AbsBoundedBySquare(x: real, r: real)
    requires r > 0.0 && x * x <= r * r
    ensures -r <= x <= r
  {
    assert (x - r) * (x + r) == x * x - r * r;
  }
}
