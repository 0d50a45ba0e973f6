# raytracing-rs: the ray–scene query path, in Dafny

This project models the rendering kernel of the `raytracing-rs` path tracer:

- the axis-aligned bounding boxes and their slab test (`src/aabb.rs`);
- the two primitives, a sphere and a sphere moving linearly between two times (`src/sphere.rs`, `src/moving_sphere.rs`), behind the `Hittable` interface of `src/hittable.rs`;
- the linear scan of a world's objects that keeps the closest hit (`src/world.rs`);
- the bounding volume hierarchy that replaces that scan (`src/bvh.rs`): built by sorting along the longest axis and splitting at the median, traversed by pruning on each node's box;
- `color_at`, the recursive integrator (`src/main.rs:35-60`);
- the pixel loop that turns buffer positions into pixels, averages samples and packs the colour into a `u32` word (`src/main.rs:165-195`).

`f32` is modelled as `real`. The square root and the sphere's surface coordinates (`Sphere::get_uv`) are function-valued fields of a `Numerics` record. Lemmas that need facts about the square root say so in their preconditions (`SqrtNonNegative`, `SqrtExact`). `dyn Hittable` is modelled by `HittableOps<T>`, a pair of functions `hit` and `boundingBox`. The world and the tree are generic over it. `Shapes.ShapeOps` instantiates it with the two sphere kinds.

The main result is `Bvh.AgreesWithScan`, which `Scene.ShapeTreeAgreesWithScan` specialises to spheres. A tree that `Bvh.Build` produced answers every query at the same `t` as `World.World.Hit` over the same objects, in any order. This holds for rays without a zero direction component and for objects whose hits lie in their own boxes.

Two details of the code differ from the textbook algorithms, and the model follows the code:

- **The slab test.** The textbook slab test narrows one running interval across the three axes (`Aabb.RunningSlabHit` is that test). In `src/aabb.rs:30-31`, `let t_min`/`let t_max` shadow the parameters inside the loop body, so each axis is tested against the original window. `Aabb.AABB.Hit` models the code. `Aabb.RunningSlabHitImpliesSlabHit` and `Aabb.SlabHitLooserThanRunning` relate it to the running test: the code's test is strictly looser. Pruning therefore stays conservative (`Aabb.SlabHitAtPoint`).
- **The row of a pixel.** The usual bottom-up raster index is `(height-1-y)*width+x`, with `y` in `[0, height)`. The code computes `y = HEIGHT - pos / WIDTH`, which ranges over `[1, HEIGHT]`, so the index is `(HEIGHT-y)*WIDTH+x` (`Pixels.PixelCoordinates`).

## Model

| member | source | states |
|---|---|---|
| Aabb.AABB.SlabInterval | src/aabb.rs:17-28 | the slab entry is no later than the slab exit, and the pair is the two slab distances times `1/dir[axis]`, in one order or the other |
| Aabb.AABB.Hit | src/aabb.rs:15-39 | the loop returns true exactly when every axis overlaps the ORIGINAL window `(t_min, t_max)`, because of the shadowing at lines 30-31 |
| Aabb.AABB.Union | src/aabb.rs:41-54 | each component of the union's `min` is the smaller input's, and each component of its `max` the larger input's |
| Aabb.UnionContainsBoth | src/aabb.rs:41-54 | the union spans both input boxes on every axis |
| Aabb.UnionTightest | src/aabb.rs:41-54 | any box spanning both inputs spans their union |
| Aabb.UnionCommutative | src/aabb.rs:41-54 | union does not depend on the order of its arguments |
| Aabb.UnionIdempotent | src/aabb.rs:41-54 | the union of a box with itself is that box |
| Aabb.UnionProper | src/aabb.rs:41-54 | the union of two boxes of positive extent has positive extent |
| Aabb.EmptyWindowMisses | src/aabb.rs:30-34 | an empty or inverted window (`t_max <= t_min`) never passes the test |
| Aabb.RunningSlabHitImpliesSlabHit | src/aabb.rs:30-31 | whenever the textbook running-window test passes, the code's test passes too |
| Aabb.SlabHitLooserThanRunning | src/aabb.rs:16-38 | a concrete box and ray pass the code's test although the running-window test fails |
| Aabb.SlabHitAtPoint | src/aabb.rs:15-39 | a ray that reaches a point of a box of positive extent at a parameter strictly inside the window passes the test |
| Spheres.PositiveDiscriminant | src/sphere.rs:32-35 | a positive discriminant implies `a > 0` and a non-zero radius, so the divisions that follow are defined |
| Spheres.Coefficients | src/sphere.rs:26-30 | the coefficients `a = dir·dir`, `b = oc·dir`, `c = oc·oc - r²` of the ray–sphere quadratic; `Spheres.PositiveDiscriminant` and `Spheres.RootOnSurface` state what they mean |
| Spheres.Record | src/sphere.rs:37-43 | the record built at a root: `p = point_at(t)`, normal `(p - center)/radius`, `Some(material)`; stated by `Spheres.Sphere.Hit` and `Spheres.UnitNormal` |
| Spheres.FirstRootInWindow | src/sphere.rs:34-56 | the result lies strictly in the window and is one of the roots; the smaller root is taken whenever it is in the window; there is none exactly when neither root is |
| Spheres.RadiusBox | src/sphere.rs:61-64 | each axis of the box has width `2r` and is centred on the centre |
| Spheres.Sphere.Hit | src/sphere.rs:25-59 | no hit exactly when the discriminant is at most 0 or neither root is in the window; otherwise `t` is strictly in the window, the smaller root unless only the larger qualifies; the record has `p = point_at(t)`, normal `(p - center)/radius` and `Some(material)` |
| Spheres.Sphere.BoundingBox | src/sphere.rs:61-64 | on every axis the box runs from the centre minus `r` to the centre plus `r`, whatever the times |
| Spheres.NearRootFirst | src/sphere.rs:35-45 | with a non-negative square root, the root tried first is the smaller one |
| Spheres.RootOnSurface | src/sphere.rs:26-45 | with the exact square root, either root puts `point_at(t)` at distance `radius` from the centre |
| Spheres.UnitNormal | src/sphere.rs:41 | with the exact square root, the normal of a hit has unit length |
| Spheres.HitInBox | src/sphere.rs:37-64 | for a positive radius, a hit point lies in the sphere's bounding box, which has positive extent |
| MovingSpheres.MovingSphere.Hit | src/moving_sphere.rs:46-89 | the result is the static sphere's at `center(ray.time)`: `t` strictly in the window, `p = point_at(t)`, normal `(p - center(time))/radius`, `Some(material)`; no hit for a discriminant of at most 0 |
| MovingSpheres.MovingSphere.BoundingBox | src/moving_sphere.rs:91-97 | the box contains the radius boxes at both times; each axis runs from the smaller centre coordinate minus `r` to the larger plus `r` |
| MovingSpheres.MovingSphere.Center | src/moving_sphere.rs:39-42 | the linearly interpolated centre; `MovingSpheres.CenterAtKeyframes` and `MovingSpheres.CenterComponent` state its values |
| MovingSpheres.MovingSphere.Snapshot | src/moving_sphere.rs:47-86 | the static sphere at `center(ray.time)`; `MovingSpheres.MovingSphere.Hit` is proved equal to its hit |
| MovingSpheres.CenterAtKeyframes | src/moving_sphere.rs:39-42 | the centre is `center0` at `t0` and `center1` at `t1` |
| MovingSpheres.CenterComponent | src/moving_sphere.rs:39-42 | each coordinate of the centre is the linear interpolation of that coordinate |
| MovingSpheres.LerpBetween | src/moving_sphere.rs:39-42 | a linearly interpolated value at a time between two times lies between its values at those times |
| MovingSpheres.SweptBoxContains | src/moving_sphere.rs:91-97 | at every time between the box times, the sphere's radius box lies inside the swept box |
| MovingSpheres.HitInSweptBox | src/moving_sphere.rs:46-97 | for a positive radius and a ray time between the box times, the hit point lies in the swept box, which has positive extent |
| Shapes.Shape.Hit | src/hittable.rs:16 | a shape's hit is strictly inside the window, lies at `point_at(t)` and carries the shape's material |
| Shapes.ShapeHitInBox | src/hittable.rs:16-17 | for a positive radius and a ray time between the box times, a shape's hit lies in its bounding box of positive extent |
| Shapes.ShapeBoxProper | src/hittable.rs:17 | a shape of positive radius has a bounding box of positive extent |
| Shapes.ShapesHitInWindow | src/hittable.rs:16 | every shape's hit is strictly inside the query window |
| Shapes.ShapesBoundHits | src/hittable.rs:15-18 | positive radii and a ray time between the box times make every shape's hit lie in its box of positive extent |
| World.CloserStep | src/world.rs:23-31 | one step of the scan keeps a nearest hit, the earliest one among equal `t`, below `tmax` |
| World.Closer | src/world.rs:19-31 | one step keeps either the best record so far or the candidate; the result is absent only when both the best is absent and the candidate is not below `tmax`; it never moves the best `t` up |
| World.Nearest | src/world.rs:19-31 | the record the scan ends with; `World.NearestIsMinimal` and `World.NearestFound` state that it is the nearest, earliest hit below `tmax` |
| World.CopyHit | src/world.rs:27-30 | `rec` with `t`, `p`, `normal` and `material` taken from the hit; `World.World.Hit` states when it is written |
| World.NearestIsMinimal | src/world.rs:19-31 | the scan's record is an object's hit at the smallest `t` (none exactly when no object is hit), and among equal `t` it comes from the earliest object, because the comparison is strict |
| World.NearestFound | src/world.rs:19-35 | the scan finds a hit exactly when some object reports one with `t < tmax`, and the hit it keeps has `t < tmax` |
| World.NearestOrderIndependent | src/world.rs:20-31 | reordering the objects never changes whether something is hit, nor the `t` of the hit |
| World.World.constructor | src/world.rs:5-8 | a default world has no objects |
| World.World.AddObject | src/world.rs:11-13 | the object is appended at the end of the list |
| World.World.Hit | src/world.rs:17-36 | the result is true exactly when the scan finds a hit; then `t`, `p`, `normal` and `material` of `rec` are those of the nearest hit and `u`, `v` are kept; otherwise `rec` is unchanged, in particular for an empty world |
| World.WorldHitIsNearest | src/world.rs:17-35 | a hit exists exactly when some object is hit; it lies strictly in the window and at a `t` no larger than any object's hit |
| Sorting.Insert | src/bvh.rs:49-56 | inserting an element into a sorted prefix keeps the prefix sorted, permutes the array and leaves the rest alone |
| Sorting.SortBy | src/bvh.rs:49-56 | the array ends up sorted by the key and is a permutation of its old contents |
| Bvh.ExtentOrdered | src/bvh.rs:27-29 | an object's extent on an axis is its box's two bounds, the smaller first |
| Bvh.Extent | src/bvh.rs:27-29 | an object's extent on an axis; `Bvh.ExtentOrdered` states it |
| Bvh.Span | src/bvh.rs:24-32 | the fold of the extents; `Bvh.SpanBounds` and `Bvh.SpanOrderIndependent` state it |
| Bvh.AxisRange | src/bvh.rs:23-35 | the length of the span on an axis, never negative |
| Bvh.Key | src/bvh.rs:50-54 | the sort key `min[axis] + max[axis]`; `Bvh.SortedHalvesSplit` and `Bvh.Build` state the order it induces |
| Bvh.SpanBounds | src/bvh.rs:24-32 | the fold yields a low end no larger and a high end no smaller than every object's extent, and both ends are attained by some object |
| Bvh.SpanOrderIndependent | src/bvh.rs:24-32 | the folded span does not depend on the order of the objects |
| Bvh.LargestRange | src/bvh.rs:39-46 | after sorting the `(axis, range)` pairs by descending range, the first axis has a range no smaller than the other two |
| Bvh.LargestFirst | src/bvh.rs:45-46 | after sorting by descending range, the first pair is one of the inputs and has the largest range |
| Bvh.ChooseAxis | src/bvh.rs:38-47 | the chosen axis's range is at least that of each of the three axes |
| Bvh.LongestAxisPermuted | src/bvh.rs:23-47 | a longest axis of the objects is a longest axis of the same objects in any order |
| Bvh.Leaves | src/bvh.rs:10-13 | every tree has at least one leaf object |
| Bvh.Bvh.Hit | src/bvh.rs:84-108 | a hit requires the node's box test to pass and is always the hit of one of the tree's objects |
| Bvh.Bvh.BoundingBox | src/bvh.rs:110-112 | the stored box is returned, whatever the times |
| Bvh.PickNearer | src/bvh.rs:92-101 | the result is one of the two children's hits and is absent only when both are; of two hits it has the smaller `t`, and ties go to the right child |
| Bvh.Build | src/bvh.rs:22-81 | the build panics exactly on an empty input; otherwise the leaves are a permutation of the input, the size is the input length, each leaf stores its object's box and size 1, each node stores the union of its children's boxes and the sum of their sizes, the left child holds `n/2` objects, and the split is ordered by key along a longest axis |
| Bvh.MakeNode | src/bvh.rs:74-78 | a node's leaves are the left child's followed by the right child's |
| Bvh.NodeBuilt | src/bvh.rs:65-78 | the node made from the built halves of the sorted objects has every property `Build` promises |
| Bvh.NodeSplitOrdered | src/bvh.rs:38-72 | the two halves of objects sorted along a longest axis are split by key on that axis, which stays a longest axis of the node's objects |
| Bvh.SortedHalvesSplit | src/bvh.rs:49-72 | after sorting and cutting at `n/2`, no key in the left part exceeds a key in the right part, in whatever order each part is held |
| Bvh.KeysSplitPermuted | src/bvh.rs:66-72 | that key split survives reordering either side |
| Bvh.SizeCountsLeaves | src/bvh.rs:60-76 | the stored size is the number of leaf objects |
| Bvh.LeafBoxContained | src/bvh.rs:61-75 | every leaf object's box lies inside the tree's box |
| Bvh.LeafHitPassesBox | src/bvh.rs:86 | a hit of any leaf object that lies in its box of positive extent passes the tree's box test |
| Bvh.PickNearerIsMinimal | src/bvh.rs:88-101 | keeping the nearer of the children's nearest hits gives a nearest hit of all their objects |
| Bvh.HitIsMinimal | src/bvh.rs:85-108 | the tree's hit is absent exactly when no object is hit, and otherwise is an object's hit at the smallest `t` |
| Bvh.AgreesWithScan | src/bvh.rs:84-108 | a built tree and the linear scan over the same objects, in any order, agree on whether something is hit and at which `t` |
| Scene.ShapeTreeAgreesWithScan | src/bvh.rs:84-108 | for spheres of positive radius, the exact square root and a ray time between the build times, the tree and the scan agree on the hit and its `t` |
| Scene.TreeHitHasMaterial | src/bvh.rs:84-108 | a hit of a tree of shapes carries a material and lies strictly in the window |
| Integrator.BackgroundGradient | src/main.rs:56-58 | for `dir.y` in `[-1, 1]` the sky colour lies between white (at `dir.y = -1`) and `(0.5, 0.7, 1.0)` (at `dir.y = 1`) |
| Integrator.Background | src/main.rs:56-58 | the sky gradient; `Integrator.BackgroundGradient` states its range and its two ends |
| Integrator.Next | src/main.rs:36-54 | the branch `color_at` takes: the sky exactly on a miss, the panic exactly on a hit without a material, and a bounce only below depth 50 |
| Integrator.ColorAt | src/main.rs:35-60 | `color_at` itself, recursing on `Next`; `Integrator.MissShowsSky`, `Integrator.DepthCutOff`, `Integrator.ColorAtNeverPanics` and `Integrator.ColorAtInUnitCube` state its behaviour |
| Integrator.MissShowsSky | src/main.rs:56-58 | a ray that hits no shape inside `(0.001, f32::MAX)` gets the sky colour |
| Integrator.Bounces | src/main.rs:46-49 | counts the nested calls through the same step `Next` that `ColorAt` recurses on: positive exactly when that step bounces, at most `50 - d` from depth `d`, and none at depth 50 or more |
| Integrator.ColorAtNeverPanics | src/main.rs:45-55 | shapes always carry a material, so the panic is never reached |
| Integrator.DepthCutOff | src/main.rs:46-51 | at depth 50 or more, a hit gives black and a miss gives the sky |
| Integrator.ColorAtInUnitCube | src/main.rs:35-60 | with attenuations in `[0, 1]` and unit directions, every colour has components in `[0, 1]` |
| Pixels.ChunkIndexInBuffer | src/main.rs:169-175 | every `chunk * chunk_size + local` of an element of a chunk is a buffer position |
| Pixels.ChunkOfIndex | src/main.rs:169-175 | every buffer position is element `pos % chunk_size` of chunk `pos / chunk_size` |
| Pixels.ChunkIndexUnique | src/main.rs:175 | two chunk elements never share a position |
| Pixels.ChunksEndAtBuffer | src/main.rs:169-171 | the chunks cover the buffer and the last one starts inside it |
| Pixels.PixelCoordinates | src/main.rs:176-177 | `x < WIDTH`, `1 <= y <= HEIGHT`, and `pos = (HEIGHT - y) * WIDTH + x` |
| Pixels.PixelX | src/main.rs:176 | the column is below `WIDTH` |
| Pixels.PixelY | src/main.rs:177 | the row `HEIGHT - pos / WIDTH` lies in `[1, HEIGHT]` for a position inside the buffer |
| Pixels.AsU32 | src/main.rs:190-192 | Rust's `f32 as u32` stays within `u32` and truncates in-range values toward zero |
| Pixels.ChannelFitsByte | src/main.rs:190-192 | a channel value in `[0, 1]` scales to below 256 |
| Pixels.Channel | src/main.rs:190-192 | `(f * 255.99) as u32`; `Pixels.AsU32` and `Pixels.ChannelFitsByte` state its range |
| Pixels.Pack | src/main.rs:193 | `r << 16`, `g << 8` and `b` or-ed into one word; `Pixels.UnpackPack` and `Pixels.PackUnpack` state that it is invertible on bytes |
| Pixels.ChannelsDecode | src/main.rs:190-193 | a colour in the unit cube gives channels below 256, and its packed word unpacks to them |
| Pixels.UnpackPack | src/main.rs:193 | channels below 256 occupy disjoint bytes of the word and can be read back |
| Pixels.PackUnpack | src/main.rs:193 | every word with a clear top byte is the packing of its three bytes |
| Pixels.ShadePixel | src/main.rs:174-193 | the sample loop's word is the packed, square-rooted average of the 30 samples of pixel `(x, y)` |
| Pixels.RenderFrame | src/main.rs:169-195 | every buffer position ends up holding its pixel's word |
| Pixels.SampleSumBounded | src/main.rs:178-187 | the running total of `n` samples has components in `[0, n]` |
| Pixels.PixelColourInUnitCube | src/main.rs:178-189 | with bounded attenuations, unit camera directions and the exact square root, the averaged, square-rooted colour lies in the unit cube |
| Pixels.SampleSum | src/main.rs:178-187 | the running `total` after `n` samples; `Pixels.SampleSumBounded` bounds it and `Pixels.ShadePixel` computes it |
| Pixels.PixelColour | src/main.rs:188-189 | the averaged, square-rooted colour; `Pixels.PixelWordDecodes` bounds its channels |
| Pixels.PixelWord | src/main.rs:190-193 | the packed word of a position; `Pixels.ShadePixel`, `Pixels.RenderFrame` and `Pixels.PixelWordDecodes` state it |
| Pixels.PixelWordDecodes | src/main.rs:188-193 | with bounded attenuations, unit camera directions and the exact square root, each channel is below 256 and the word decodes back to the three channels |

## Left out

- IEEE-754 arithmetic: rounding, infinities and NaN are not modelled. The one place the code relies on them is a zero direction component in the slab test. That case is written out explicitly as `Aabb.ParallelAxisOverlaps`, but the equivalence of the tree and the scan is proved only for rays without zero direction components.
- NaN panics from `partial_cmp().unwrap()` in the two sorts (`src/bvh.rs:45, 55`) cannot occur over reals.
- The `f32::MAX`/`f32::MIN` seeds of the `axis_range` fold are not modelled. `Bvh.Span` starts from the first object, which gives the same result for a non-empty list.
- `Bvh.Build` checks for an empty input first. The source chooses an axis and sorts before it panics, and that difference cannot be observed.
- `Bvh.ChooseAxis`: when several axes have the same range, `sort_unstable_by` leaves their order unspecified. The contract promises only a longest axis.
- `Sorting.SortBy`: `sort_unstable_by` is modelled by an insertion sort. Only "sorted and a permutation" is promised, which is all the source relies on.
- `Bvh.Bvh.Hit` does not itself promise that a hit lies in the window; that follows from the objects' hits (`Scene.TreeHitHasMaterial` for shapes).
- `Bvh.AgreesWithScan` and `World.WorldHitIsNearest` require the `Hittable` objects to report hits inside the window (`HitsInWindow`). `Bvh.AgreesWithScan` also requires those hits to lie in the object's box of positive extent (`BoxesBoundHits`). `Shapes.ShapesHitInWindow` and `Shapes.ShapesBoundHits` prove these for spheres, with positive radii, the exact square root and a ray time between the build times. For a negative radius the sphere's box is inverted and the tree may prune a hit.
- `Bvh.AgreesWithScan` promises the same `t` and the same presence of a hit, not the same record: among equal-`t` hits the tree prefers the right child and the scan the earliest object.
- `MovingSpheres.MovingSphere.Hit` requires `t0 != t1`. When the two key times are equal, the source's `center(t)` divides by zero. At `t == t0` every coordinate is `0/0`, which is NaN. At any other `t` a coordinate is ±inf where `center1` and `center0` differ and NaN where they agree. The discriminant is then NaN, both comparisons with 0 fail, and `hit` returns `None` for every ray. The bounding box is non-finite too, so the build's sort key can be NaN and `partial_cmp().unwrap()` (`src/bvh.rs:55`) can panic. None of this is modelled.
- `Spheres.Sphere.Hit`: the record literal at `src/sphere.rs:38-43` has no `u`/`v`. The model fills them from the same surface-coordinate function as `src/moving_sphere.rs:62`, which is kept uninterpreted (`Numerics.surfaceUV`).
- `World.World.Hit` models the four-argument `hit` of `src/world.rs:17` with the `Option`-returning `hit` of `src/hittable.rs:16`; the record is passed in and returned rather than mutated through a reference.
- `World::generate_bvh`, which `src/main.rs:161` calls, is not in `src/world.rs` and is not part of this model; `Bvh.Build` stands for it.
- `material::scatter` (random reflection, refraction and Schlick's approximation) is the parameter `Env.scatter`. The initial values of its `&mut` out-parameters and the `u`, `v` left unset in `rec_c` (`src/main.rs:37-44`) are not modelled.
- The camera and its random jitter are the parameter `camera` of `Pixels.ShadePixel`. The random number generator, the texture module and the vector module are not part of this model.
- rayon's parallel iteration: `Pixels.RenderFrame` renders the chunks one after another. The chunks write disjoint positions (`Pixels.ChunkIndexUnique`).
- The window, the key handling, the timing and the random scene set-up in `src/main.rs:62-159` and `src/main.rs:196-227` are I/O or data entry, and are not part of this model.
- `Pixels.AsU32` is exact for values that are not NaN. The truncation's rounding of huge `f32` values is not modelled.
