/**
 * src/main.rs:35-60: `color_at`, the recursive path tracer.  A ray that misses the scene
 * sees the sky gradient; a hit scatters off the material up to a fixed depth, and each
 * bounce multiplies by the material's attenuation.  `material::scatter` draws on the
 * random number generator and is a parameter here.
 */
module Integrator {
  import opened Base
  import opened Vectors
  import opened Hittable
  import opened Shapes
  import opened Bvh
  import opened Scene

  /** main.rs:46: no scattering at depth 50 or more. */
  const MaxDepth: nat := 50

  /** main.rs:36: the query window, from 0.001 to the largest finite `f32`. */
  const HitEpsilon: real := 0.001
  const F32Max: real := 340282346638528859811704183484516925440.0

  /** The outcome of `material::scatter`: whether the ray scatters, the attenuation and the new ray. */
  datatype Scattered = Scattered(scatters: bool, attenuation: Vec3, ray: Ray)

  /** What `color_at` calls but the model keeps opaque: the numerics and `material::scatter`. */
  datatype Env = Env(num: Numerics, scatter: (Material, Ray, HitRecord) -> Scattered)

  /** Every component lies in `[0, 1]`. */
  predicate InUnitCube(c: Vec3)
  {
    0.0 <= c.x <= 1.0 && 0.0 <= c.y <= 1.0 && 0.0 <= c.z <= 1.0
  }

  /** main.rs:57-58: the sky, blending white into light blue as the direction turns up. */
  function Background(ray: Ray): Vec3
  {
    var t := 0.5 * (ray.dir.y + 1.0);
    Add(Scale(1.0 - t, Vec3(1.0, 1.0, 1.0)), Scale(t, Vec3(0.5, 0.7, 1.0)))
  }

  /**
   * For a unit direction the sky lies between white (straight down) and `(0.5, 0.7, 1.0)`
   * (straight up), which are its two ends.
   */
  lemma BackgroundGradient(ray: Ray)
    requires -1.0 <= ray.dir.y <= 1.0
    ensures var c := Background(ray);
            0.5 <= c.x <= 1.0 && 0.7 <= c.y <= 1.0 && c.z == 1.0 && InUnitCube(c)
    ensures ray.dir.y == -1.0 ==> Background(ray) == Vec3(1.0, 1.0, 1.0)
    ensures ray.dir.y == 1.0 ==> Background(ray) == Vec3(0.5, 0.7, 1.0)
  {
    var t := 0.5 * (ray.dir.y + 1.0);
    assert 0.0 <= t <= 1.0;
    assert Background(ray) == Vec3(1.0 - 0.5 * t, 1.0 - 0.3 * t, 1.0);
  }

  /** What `color_at` does once it has queried the tree (main.rs:36-58). */
  datatype Outcome =
    | Sky                                  // a miss: the background gradient
    | NoMaterial                           // a hit without a material: `panic!`
    | Absorbed                             // depth exhausted or the material absorbs: black
    | Bounce(attenuation: Vec3, next: Ray) // the material scatters into `next`

  /**
   * main.rs:36-54: the branch `color_at` takes.  The material sees the record with its
   * material cleared (main.rs:39-44).  A bounce only happens below depth 50, which is what
   * bounds the recursion of `ColorAt` and `Bounces`.
   */
  function Next(ray: Ray, tree: Bvh<Shape>, depth: nat, env: Env): (o: Outcome)
    ensures o.Bounce? ==> depth < MaxDepth
    ensures o.Sky? <==> tree.Hit(ShapeOps(env.num), ray, HitEpsilon, F32Max).None?
    ensures o.NoMaterial? <==> tree.Hit(ShapeOps(env.num), ray, HitEpsilon, F32Max).Some? &&
                               tree.Hit(ShapeOps(env.num), ray, HitEpsilon, F32Max).value.material.None?
  {
    match tree.Hit(ShapeOps(env.num), ray, HitEpsilon, F32Max)
    case None => Sky
    case Some(rec) =>
      match rec.material
      case None => NoMaterial
      case Some(material) =>
        var s := env.scatter(material, ray, rec.(material := None));
        if depth < MaxDepth && s.scatters then Bounce(s.attenuation, s.ray) else Absorbed
  }

  /**
   * main.rs:35-60.  A miss returns the sky and a hit without a material panics.  A bounce
   * multiplies the scattered ray's colour by the attenuation; otherwise the colour is black.
   */
  function ColorAt(ray: Ray, tree: Bvh<Shape>, depth: nat, env: Env): Result<Vec3>
    decreases MaxDepth - depth
  {
    match Next(ray, tree, depth, env)
    case Sky => Ok(Background(ray))
    case NoMaterial => Panic("No material wtf!")
    case Absorbed => Ok(Zero)
    case Bounce(attenuation, next) =>
      match ColorAt(next, tree, depth + 1, env)
      case Ok(c) => Ok(Mul(attenuation, c))
      case Panic(m) => Panic(m)
  }

  /**
   * The number of nested `color_at` calls a ray leads to: one more than the scattered
   * ray's on a bounce, none otherwise.  With the first call at depth 0 there are at most
   * 51 calls in all.
   */
  function Bounces(ray: Ray, tree: Bvh<Shape>, depth: nat, env: Env): (n: nat)
    ensures n > 0 <==> Next(ray, tree, depth, env).Bounce?
    ensures depth <= MaxDepth ==> n <= MaxDepth - depth
    ensures depth >= MaxDepth ==> n == 0
    decreases MaxDepth - depth
  {
    match Next(ray, tree, depth, env)
    case Bounce(_, next) => 1 + Bounces(next, tree, depth + 1, env)
    case _ => 0
  }

  /** Every hit of a tree of spheres carries a material, so `color_at` never panics. */
  lemma {:induction false} ColorAtNeverPanics(ray: Ray, tree: Bvh<Shape>, depth: nat, env: Env)
    ensures ColorAt(ray, tree, depth, env).Ok?
    decreases MaxDepth - depth
  {
    TreeHitHasMaterial(env.num, tree, ray, HitEpsilon, F32Max);
    match Next(ray, tree, depth, env)
    case Bounce(_, next) => ColorAtNeverPanics(next, tree, depth + 1, env);
    case _ =>
  }

  /** A ray that hits none of the tree's shapes inside `(0.001, f32::MAX)` sees the sky. */
  lemma MissShowsSky(ray: Ray, tree: Bvh<Shape>, depth: nat, env: Env)
    requires forall i :: 0 <= i < |Leaves(tree)| ==> Leaves(tree)[i].Hit(ray, HitEpsilon, F32Max, env.num).None?
    ensures ColorAt(ray, tree, depth, env) == Ok(Background(ray))
  {
  }

  /** At depth 50 or more a hit is black and a miss is the sky: no further ray is traced. */
  lemma DepthCutOff(ray: Ray, tree: Bvh<Shape>, depth: nat, env: Env)
    requires depth >= MaxDepth
    ensures var h := tree.Hit(ShapeOps(env.num), ray, HitEpsilon, F32Max);
            ColorAt(ray, tree, depth, env) == if h.Some? then Ok(Zero) else Ok(Background(ray))
  {
    TreeHitHasMaterial(env.num, tree, ray, HitEpsilon, F32Max);
  }

  /**
   * Materials attenuate by factors in `[0, 1]` and scatter into unit directions, as
   * `Ray::new` normalises them.
   */
  ghost predicate ScatterBounded(env: Env)
  {
    forall m, r, h :: env.scatter(m, r, h).scatters ==>
      InUnitCube(env.scatter(m, r, h).attenuation) && -1.0 <= env.scatter(m, r, h).ray.dir.y <= 1.0
  }

  lemma UnitProduct(a: real, b: real)
    requires 0.0 <= a <= 1.0 && 0.0 <= b <= 1.0
    ensures 0.0 <= a * b <= 1.0
  {
    MulNonNegative(a, b);
    MulNonNegative(1.0 - a, b);
    assert (1.0 - a) * b == b - a * b;
  }

  /** Attenuating a colour in the unit cube by factors in `[0, 1]` keeps it there. */
  lemma AttenuateInUnitCube(a: Vec3, c: Vec3)
    requires InUnitCube(a) && InUnitCube(c)
    ensures InUnitCube(Mul(a, c))
  {
    UnitProduct(a.x, c.x);
    UnitProduct(a.y, c.y);
    UnitProduct(a.z, c.z);
  }

  /**
   * With attenuations in `[0, 1]` and a unit direction, every colour `color_at` returns has
   * components in `[0, 1]`: the sky does, black does, and attenuating keeps it so.
   */
  lemma {:induction false} ColorAtInUnitCube(ray: Ray, tree: Bvh<Shape>, depth: nat, env: Env)
    requires ScatterBounded(env) && -1.0 <= ray.dir.y <= 1.0
    ensures ColorAt(ray, tree, depth, env).Ok? && InUnitCube(ColorAt(ray, tree, depth, env).value)
    decreases MaxDepth - depth
  {
    ColorAtNeverPanics(ray, tree, depth, env);
    TreeHitHasMaterial(env.num, tree, ray, HitEpsilon, F32Max);
    match Next(ray, tree, depth, env)
    case Sky => BackgroundGradient(ray);
    case NoMaterial =>
    case Absorbed =>
    case Bounce(attenuation, next) =>
      ColorAtInUnitCube(next, tree, depth + 1, env);
      AttenuateInUnitCube(attenuation, ColorAt(next, tree, depth + 1, env).value);
  }
}
