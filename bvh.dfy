/**
 * src/bvh.rs: the bounding volume hierarchy.  `Build` sorts the objects along the axis of
 * largest extent and splits them at the median; `Hit` prunes on each node's box and keeps
 * the nearer of the two children's hits.  The tree is proved to find a hit at the same `t`
 * as the linear scan of src/world.rs over the same objects.  As in world.dfy, the objects
 * are values of any type `T` with the `Hittable` operations `ops`.
 */
module Bvh {
  import opened Base
  import opened Vectors
  import opened Aabb
  import opened Hittable
  import opened World
  import opened Sorting

  // ---------------------------------------------------------------------------------------
  // Axis choice (bvh.rs:23-47)

  /** bvh.rs:27-29: an object's extent on `axis`, whichever way round its box stores it. */
  function Extent<T>(ops: HittableOps<T>, o: T, axis: nat, t0: real, t1: real): (real, real)
    requires axis < 3
  {
    var bb := ops.boundingBox(o, t0, t1);
    (Min(bb.min.Get(axis), bb.max.Get(axis)), Max(bb.min.Get(axis), bb.max.Get(axis)))
  }

  /** The extent is the box's two bounds on `axis`, the smaller first. */
  lemma ExtentOrdered<T>(ops: HittableOps<T>, o: T, axis: nat, t0: real, t1: real)
    requires axis < 3
    ensures var e := Extent(ops, o, axis, t0, t1);
            var lo, hi := ops.boundingBox(o, t0, t1).min.Get(axis), ops.boundingBox(o, t0, t1).max.Get(axis);
            e.0 <= e.1 && ((e.0 == lo && e.1 == hi) || (e.0 == hi && e.1 == lo))
  {
  }

  /**
   * bvh.rs:24-32: the fold of the extents of `objs`, which is the smallest low end and the
   * largest high end among them.
   */
  function Span<T>(objs: seq<T>, extent: T -> (real, real)): (real, real)
    requires |objs| > 0
  {
    var n := |objs| - 1;
    var e := extent(objs[n]);
    if n == 0 then e
    else
      var s := Span(objs[..n], extent);
      (Min(s.0, e.0), Max(s.1, e.1))
  }

  /** The extent on `axis` as a function of the object. */
  function AxisExtent<T>(ops: HittableOps<T>, axis: nat, t0: real, t1: real): T -> (real, real)
    requires axis < 3
  {
    (o: T) => Extent(ops, o, axis, t0, t1)
  }

  /** bvh.rs:23-35: `axis_range`, the length of the span of the objects' extents on `axis`. */
  function AxisRange<T>(ops: HittableOps<T>, objs: seq<T>, axis: nat, t0: real, t1: real): (r: real)
    requires axis < 3 && |objs| > 0
    ensures r >= 0.0
  {
    var s := Span(objs, AxisExtent(ops, axis, t0, t1));
    SpanBounds(objs, AxisExtent(ops, axis, t0, t1));
    assert s.0 <= Extent(ops, objs[0], axis, t0, t1).0 <= Extent(ops, objs[0], axis, t0, t1).1 <= s.1;
    s.1 - s.0
  }

  /** `axis` has an extent at least as large as the other two. */
  predicate IsLongestAxis<T>(ops: HittableOps<T>, objs: seq<T>, axis: nat, t0: real, t1: real)
    requires |objs| > 0
  {
    axis < 3 &&
    AxisRange(ops, objs, 0, t0, t1) <= AxisRange(ops, objs, axis, t0, t1) &&
    AxisRange(ops, objs, 1, t0, t1) <= AxisRange(ops, objs, axis, t0, t1) &&
    AxisRange(ops, objs, 2, t0, t1) <= AxisRange(ops, objs, axis, t0, t1)
  }

  /** The span reaches from the smallest low end to the largest high end of the objects' extents. */
  lemma {:induction false} SpanBounds<T>(objs: seq<T>, extent: T -> (real, real))
    requires |objs| > 0
    ensures var s := Span(objs, extent);
            (forall i :: 0 <= i < |objs| ==> s.0 <= extent(objs[i]).0 && extent(objs[i]).1 <= s.1) &&
            (exists i :: 0 <= i < |objs| && s.0 == extent(objs[i]).0) &&
            (exists i :: 0 <= i < |objs| && s.1 == extent(objs[i]).1)
  {
    var n := |objs| - 1;
    if n > 0 {
      var prefix := objs[..n];
      SpanBounds(prefix, extent);
      assert forall i :: 0 <= i < n ==> prefix[i] == objs[i];
      var s, e := Span(prefix, extent), extent(objs[n]);
      var lo :| 0 <= lo < n && s.0 == extent(prefix[lo]).0;
      var hi :| 0 <= hi < n && s.1 == extent(prefix[hi]).1;
      var r := Span(objs, extent);
      assert r == (Min(s.0, e.0), Max(s.1, e.1));
      if s.0 <= e.0 {
        assert r.0 == extent(objs[lo]).0;
      } else {
        assert r.0 == extent(objs[n]).0;
      }
      if s.1 >= e.1 {
        assert r.1 == extent(objs[hi]).1;
      } else {
        assert r.1 == extent(objs[n]).1;
      }
    } else {
      assert Span(objs, extent) == extent(objs[0]);
    }
  }

  /** The span of the extents does not depend on the order of the objects. */
  lemma SpanOrderIndependent<T>(a: seq<T>, b: seq<T>, extent: T -> (real, real))
    requires |a| > 0 && multiset(a) == multiset(b)
    ensures |b| > 0 && Span(a, extent) == Span(b, extent)
  {
    assert a[0] in multiset(b);
    SpanBounds(a, extent);
    SpanBounds(b, extent);
    var sa, sb := Span(a, extent), Span(b, extent);
    var i :| 0 <= i < |a| && sa.0 == extent(a[i]).0;
    var j :| 0 <= j < |b| && sb.0 == extent(b[j]).0;
    assert a[i] in multiset(b);
    assert b[j] in multiset(a);
    var i' :| 0 <= i' < |b| && b[i'] == a[i];
    var j' :| 0 <= j' < |a| && a[j'] == b[j];
    var k :| 0 <= k < |a| && sa.1 == extent(a[k]).1;
    var m :| 0 <= m < |b| && sb.1 == extent(b[m]).1;
    assert a[k] in multiset(b);
    assert b[m] in multiset(a);
    var k' :| 0 <= k' < |b| && b[k'] == a[k];
    var m' :| 0 <= m' < |a| && a[m'] == b[m];
  }

  /**
   * bvh.rs:38-47: the three `(axis, range)` pairs are sorted by descending range and the
   * first axis is taken.  Which of several equally long axes comes first is not fixed by
   * `sort_unstable_by`; any of them satisfies the postcondition.
   */
  method ChooseAxis<T>(ops: HittableOps<T>, objects: seq<T>, t0: real, t1: real) returns (axis: nat)
    requires |objects| > 0
    ensures IsLongestAxis(ops, objects, axis, t0, t1)
  {
    var r0, r1, r2 := AxisRange(ops, objects, 0, t0, t1), AxisRange(ops, objects, 1, t0, t1), AxisRange(ops, objects, 2, t0, t1);
    axis := LargestRange(r0, r1, r2);
  }

  /**
   * bvh.rs:39-46: the pairs `(axis, range)` go into a three-element array, which is sorted
   * by descending range; the axis of the first pair is returned.
   */
  method LargestRange(r0: real, r1: real, r2: real) returns (axis: nat)
    ensures axis < 3
    ensures axis == 0 ==> r1 <= r0 && r2 <= r0
    ensures axis == 1 ==> r0 <= r1 && r2 <= r1
    ensures axis == 2 ==> r0 <= r2 && r1 <= r2
  {
    var ranges := new (nat, real)[3];
    ranges[0] := (0, r0);
    ranges[1] := (1, r1);
    ranges[2] := (2, r2);
    ghost var initial := ranges[..];
    assert initial == [(0, r0), (1, r1), (2, r2)];
    SortBy(ranges, Descending);
    axis := ranges[0].0;
    LargestFirst(initial, ranges[..]);
  }

  /** Sort key putting larger ranges first. */
  function Descending(p: (nat, real)): real { -p.1 }

  /** After sorting by descending range, the first pair is one of the input pairs, with the largest range. */
  lemma LargestFirst(initial: seq<(nat, real)>, sorted: seq<(nat, real)>)
    requires |initial| == 3 && multiset(sorted) == multiset(initial) && SortedBy(sorted, Descending)
    ensures sorted[0] == initial[0] || sorted[0] == initial[1] || sorted[0] == initial[2]
    ensures forall k :: 0 <= k < 3 ==> initial[k].1 <= sorted[0].1
  {
    assert sorted[0] in multiset(initial);
    forall k | 0 <= k < 3
      ensures initial[k].1 <= sorted[0].1
    {
      assert initial[k] in multiset(sorted);
      var m :| 0 <= m < |sorted| && sorted[m] == initial[k];
      if m > 0 {
        assert Descending(sorted[0]) <= Descending(sorted[m]);
      }
    }
  }

  // ---------------------------------------------------------------------------------------
  // The tree (bvh.rs:10-19)

  /** bvh.rs:53-54: the sort key, twice the midpoint of the object's box on `axis`. */
  function Key<T>(ops: HittableOps<T>, o: T, axis: nat, t0: real, t1: real): real
    requires axis < 3
  {
    var bb := ops.boundingBox(o, t0, t1);
    bb.min.Get(axis) + bb.max.Get(axis)
  }

  /** The sort key on `axis` as a function of the object. */
  function AxisKey<T>(ops: HittableOps<T>, axis: nat, t0: real, t1: real): T -> real
    requires axis < 3
  {
    (o: T) => Key(ops, o, axis, t0, t1)
  }

  /** Every element of `lower` has a key no larger than every element of `upper`. */
  predicate KeysSplit<T>(lower: seq<T>, upper: seq<T>, key: T -> real)
  {
    forall i, j :: 0 <= i < |lower| && 0 <= j < |upper| ==> key(lower[i]) <= key(upper[j])
  }

  datatype Bvh<T> = Bvh(box: AABB, contents: Contents<T>, size: nat) {

    /**
     * bvh.rs:85-108: no hit when the box test fails; otherwise a leaf asks its object and a
     * node asks both children and keeps the nearer hit.  A hit is always the hit of one of
     * the tree's objects, on a ray that passes the root's box test.
     */
    function Hit(ops: HittableOps<T>, ray: Ray, tmin: real, tmax: real): (r: Option<HitRecord>)
      ensures r.Some? ==> box.SlabHit(ray, tmin, tmax)
      ensures r.Some? ==> exists i :: 0 <= i < |Leaves(this)| && ops.hit(Leaves(this)[i], ray, tmin, tmax) == r
    {
      if !box.SlabHit(ray, tmin, tmax) then None
      else
        match contents
        case Node(left, right) =>
          var r := PickNearer(left.Hit(ops, ray, tmin, tmax), right.Hit(ops, ray, tmin, tmax));
          assert forall i :: 0 <= i < |Leaves(left)| ==> Leaves(this)[i] == Leaves(left)[i];
          assert forall i :: 0 <= i < |Leaves(right)| ==> Leaves(this)[|Leaves(left)| + i] == Leaves(right)[i];
          r
        case Leaf(obj) =>
          assert Leaves(this)[0] == obj;
          ops.hit(obj, ray, tmin, tmax)
    }

    /** bvh.rs:110-112: the stored box, whatever the times asked for. */
    function BoundingBox(t0: real, t1: real): (b: AABB)
      ensures b == box
    {
      box
    }
  }

  datatype Contents<T> = Node(left: Bvh<T>, right: Bvh<T>) | Leaf(obj: T)

  /** The objects of the tree's leaves, left to right. */
  function Leaves<T>(t: Bvh<T>): (objs: seq<T>)
    ensures |objs| >= 1
  {
    match t.contents
    case Node(left, right) => Leaves(left) + Leaves(right)
    case Leaf(obj) => [obj]
  }

  /**
   * bvh.rs:60-63 and 74-78: a leaf stores its object's box at the build times and size 1; a
   * node stores the union of its children's boxes and the sum of their sizes.
   */
  predicate WellFormed<T>(ops: HittableOps<T>, t: Bvh<T>, t0: real, t1: real)
  {
    match t.contents
    case Leaf(obj) => t.box == ops.boundingBox(obj, t0, t1) && t.size == 1
    case Node(left, right) =>
      t.box == left.box.Union(right.box) && t.size == left.size + right.size &&
      WellFormed(ops, left, t0, t1) && WellFormed(ops, right, t0, t1)
  }

  /** bvh.rs:66-72: the left child of every node holds `n / 2` of its `n` objects, the right one the rest. */
  predicate MedianSplit<T>(t: Bvh<T>)
  {
    match t.contents
    case Leaf(_) => true
    case Node(left, right) =>
      |Leaves(left)| == |Leaves(t)| / 2 && MedianSplit(left) && MedianSplit(right)
  }

  /**
   * bvh.rs:38-56: at every node, the objects were sorted along a longest axis of that
   * node's objects, so no left object has a larger key on it than any right object.
   */
  predicate SplitOrdered<T>(ops: HittableOps<T>, t: Bvh<T>, t0: real, t1: real)
  {
    match t.contents
    case Leaf(_) => true
    case Node(left, right) =>
      (exists axis: nat | axis < 3 :: IsLongestAxis(ops, Leaves(t), axis, t0, t1) &&
                           KeysSplit(Leaves(left), Leaves(right), AxisKey(ops, axis, t0, t1))) &&
      SplitOrdered(ops, left, t0, t1) && SplitOrdered(ops, right, t0, t1)
  }

  /**
   * bvh.rs:92-101: one hit if only one child has one; of two hits the left one only when
   * its `t` is strictly smaller, so ties go to the right child.
   */
  function PickNearer(hitLeft: Option<HitRecord>, hitRight: Option<HitRecord>): (r: Option<HitRecord>)
    ensures r == hitLeft || r == hitRight
    ensures r.None? <==> hitLeft.None? && hitRight.None?
    ensures hitLeft.Some? && hitRight.Some? ==>
              r.value.t <= hitLeft.value.t && r.value.t <= hitRight.value.t &&
              (hitLeft.value.t == hitRight.value.t ==> r == hitRight)
  {
    match (hitLeft, hitRight)
    case (h, None) => h
    case (None, h) => h
    case (Some(hl), Some(hr)) => if hl.t < hr.t then hitLeft else hitRight
  }

  // ---------------------------------------------------------------------------------------
  // Construction (bvh.rs:22-81)

  /** Reordering both sides keeps every key on the left no larger than every key on the right. */
  lemma KeysSplitPermuted<T>(lower: seq<T>, upper: seq<T>, lower': seq<T>, upper': seq<T>, key: T -> real)
    requires multiset(lower) == multiset(lower') && multiset(upper) == multiset(upper')
    requires KeysSplit(lower, upper, key)
    ensures KeysSplit(lower', upper', key)
  {
    forall i, j | 0 <= i < |lower'| && 0 <= j < |upper'|
      ensures key(lower'[i]) <= key(upper'[j])
    {
      assert lower'[i] in multiset(lower);
      assert upper'[j] in multiset(upper);
      var p :| 0 <= p < |lower| && lower[p] == lower'[i];
      var q :| 0 <= q < |upper| && upper[q] == upper'[j];
    }
  }

  /** A longest axis of some objects is a longest axis of the same objects in any order. */
  lemma LongestAxisPermuted<T>(ops: HittableOps<T>, a: seq<T>, b: seq<T>, axis: nat, t0: real, t1: real)
    requires |a| > 0 && multiset(a) == multiset(b) && IsLongestAxis(ops, a, axis, t0, t1)
    ensures |b| > 0 && IsLongestAxis(ops, b, axis, t0, t1)
  {
    forall k: nat | k < 3
      ensures AxisRange(ops, b, k, t0, t1) == AxisRange(ops, a, k, t0, t1)
    {
      SpanOrderIndependent(a, b, AxisExtent(ops, k, t0, t1));
    }
  }

  /**
   * bvh.rs:22-81.  An empty input panics.  Otherwise the objects are sorted by key along a
   * longest axis; one object makes a leaf, and more are split at `n / 2`, the upper part
   * built first as the right child.  The tree holds exactly the input objects, has the
   * stored sizes and boxes of `WellFormed`, and splits at the median of a sorted order.
   */
  method Build<T>(ops: HittableOps<T>, objects: seq<T>, t0: real, t1: real) returns (r: Result<Bvh<T>>)
    ensures r.Panic? <==> |objects| == 0
    ensures r.Ok? ==> WellFormed(ops, r.value, t0, t1) && r.value.size == |objects| &&
                      multiset(Leaves(r.value)) == multiset(objects) &&
                      MedianSplit(r.value) && SplitOrdered(ops, r.value, t0, t1)
    decreases |objects|
  {
    if |objects| == 0 {
      return Panic("Must have at least 1 object to insert");
    }
    var axis := ChooseAxis(ops, objects, t0, t1);
    var buf := new T[|objects|](i requires 0 <= i < |objects| => objects[i]);
    assert buf[..] == objects;
    var key := AxisKey(ops, axis, t0, t1);
    SortBy(buf, key);
    if buf.Length == 1 {
      var obj := buf[0];
      assert buf[..] == [obj];
      return Ok(Bvh(ops.boundingBox(obj, t0, t1), Leaf(obj), 1));
    }
    var sorted := buf[..];
    var half := buf.Length / 2;
    var right := Build(ops, sorted[half..], t0, t1);
    var left := Build(ops, sorted[..half], t0, t1);
    NodeBuilt(ops, objects, sorted, axis, left.value, right.value, t0, t1);
    return Ok(MakeNode(left.value, right.value));
  }

  /** bvh.rs:74-78: a node over two subtrees. */
  function MakeNode<T>(left: Bvh<T>, right: Bvh<T>): (t: Bvh<T>)
    ensures Leaves(t) == Leaves(left) + Leaves(right)
  {
    Bvh(left.box.Union(right.box), Node(left, right), left.size + right.size)
  }

  /**
   * The node `Build` makes from the two halves of the sorted objects has all the properties
   * its contract promises, given that the two subtrees have them.
   */
  lemma NodeBuilt<T>(ops: HittableOps<T>, objects: seq<T>, sorted: seq<T>, axis: nat, left: Bvh<T>, right: Bvh<T>, t0: real, t1: real)
    requires |objects| >= 2 && IsLongestAxis(ops, objects, axis, t0, t1)
    requires multiset(sorted) == multiset(objects) && SortedBy(sorted, AxisKey(ops, axis, t0, t1))
    requires var half := |sorted| / 2;
             WellFormed(ops, left, t0, t1) && left.size == half && multiset(Leaves(left)) == multiset(sorted[..half]) &&
             MedianSplit(left) && SplitOrdered(ops, left, t0, t1)
    requires var half := |sorted| / 2;
             WellFormed(ops, right, t0, t1) && right.size == |sorted| - half && multiset(Leaves(right)) == multiset(sorted[half..]) &&
             MedianSplit(right) && SplitOrdered(ops, right, t0, t1)
    ensures var t := MakeNode(left, right);
            WellFormed(ops, t, t0, t1) && t.size == |objects| && multiset(Leaves(t)) == multiset(objects) &&
            MedianSplit(t) && SplitOrdered(ops, t, t0, t1)
  {
    var half := |sorted| / 2;
    var t := MakeNode(left, right);
    HalvesPermute(sorted, half, Leaves(left), Leaves(right));
    assert |sorted| == |objects| by {
      assert |multiset(sorted)| == |multiset(objects)|;
    }
    SizeCountsLeaves(ops, left, t0, t1);
    NodeSplitOrdered(ops, objects, sorted, half, axis, Leaves(left), Leaves(right), t0, t1);
  }

  /** The two parts of a sequence cut at `half`, each in any order, hold its elements together. */
  lemma HalvesPermute<T>(s: seq<T>, half: int, lower: seq<T>, upper: seq<T>)
    requires 0 <= half <= |s|
    requires multiset(lower) == multiset(s[..half]) && multiset(upper) == multiset(s[half..])
    ensures multiset(lower + upper) == multiset(s)
  {
    assert s[..half] + s[half..] == s;
  }

  /**
   * The objects of a node made from the two halves of the objects sorted along a longest
   * axis are split by key on that axis, which is still a longest axis of the node's objects.
   */
  lemma NodeSplitOrdered<T>(ops: HittableOps<T>, objects: seq<T>, sorted: seq<T>, half: int, axis: nat,
                            lower: seq<T>, upper: seq<T>, t0: real, t1: real)
    requires |objects| > 0 && IsLongestAxis(ops, objects, axis, t0, t1)
    requires 0 <= half <= |sorted| && SortedBy(sorted, AxisKey(ops, axis, t0, t1))
    requires multiset(lower) == multiset(sorted[..half]) && multiset(upper) == multiset(sorted[half..])
    requires multiset(lower + upper) == multiset(objects)
    ensures |lower + upper| > 0 && IsLongestAxis(ops, lower + upper, axis, t0, t1)
    ensures KeysSplit(lower, upper, AxisKey(ops, axis, t0, t1))
  {
    SortedHalvesSplit(sorted, half, lower, upper, AxisKey(ops, axis, t0, t1));
    LongestAxisPermuted(ops, objects, lower + upper, axis, t0, t1);
  }

  /**
   * Cutting a sorted sequence at `half` and reordering each part leaves no key on the left
   * above a key on the right.
   */
  lemma SortedHalvesSplit<T>(sorted: seq<T>, half: int, lower: seq<T>, upper: seq<T>, key: T -> real)
    requires 0 <= half <= |sorted| && SortedBy(sorted, key)
    requires multiset(lower) == multiset(sorted[..half]) && multiset(upper) == multiset(sorted[half..])
    ensures KeysSplit(lower, upper, key)
  {
    var lo, hi := sorted[..half], sorted[half..];
    assert KeysSplit(lo, hi, key) by {
      forall i, j | 0 <= i < |lo| && 0 <= j < |hi|
        ensures key(lo[i]) <= key(hi[j])
      {
        assert lo[i] == sorted[i] && hi[j] == sorted[half + j];
      }
    }
    KeysSplitPermuted(lo, hi, lower, upper, key);
  }

  // ---------------------------------------------------------------------------------------
  // Properties of a built tree

  /** The stored size is the number of leaves (bvh.rs:63, 76). */
  lemma {:induction false} SizeCountsLeaves<T>(ops: HittableOps<T>, t: Bvh<T>, t0: real, t1: real)
    requires WellFormed(ops, t, t0, t1)
    ensures t.size == |Leaves(t)|
  {
    match t.contents
    case Leaf(_) =>
    case Node(left, right) =>
      SizeCountsLeaves(ops, left, t0, t1);
      SizeCountsLeaves(ops, right, t0, t1);
  }

  /** Every leaf object's box lies inside the box of the tree, and so of every ancestor. */
  lemma {:induction false} LeafBoxContained<T>(ops: HittableOps<T>, t: Bvh<T>, i: int, t0: real, t1: real)
    requires WellFormed(ops, t, t0, t1) && 0 <= i < |Leaves(t)|
    ensures t.BoundingBox(t0, t1).Contains(ops.boundingBox(Leaves(t)[i], t0, t1))
  {
    match t.contents
    case Leaf(obj) =>
      assert Leaves(t)[i] == obj;
      UnionIdempotent(t.box);
      UnionContainsBoth(t.box, t.box);
    case Node(left, right) =>
      UnionContainsBoth(left.box, right.box);
      var nl := |Leaves(left)|;
      if i < nl {
        assert Leaves(t)[i] == Leaves(left)[i];
        LeafBoxContained(ops, left, i, t0, t1);
        ContainsTransitive(t.box, left.box, ops.boundingBox(Leaves(t)[i], t0, t1));
      } else {
        assert Leaves(t)[i] == Leaves(right)[i - nl];
        LeafBoxContained(ops, right, i - nl, t0, t1);
        ContainsTransitive(t.box, right.box, ops.boundingBox(Leaves(t)[i], t0, t1));
      }
  }

  /**
   * A hit of any leaf object passes the tree's box test, provided the hit lies in the
   * window and in the object's box of positive extent, and no direction component is zero.
   */
  lemma LeafHitPassesBox<T>(ops: HittableOps<T>, t: Bvh<T>, i: int, ray: Ray, tmin: real, tmax: real, t0: real, t1: real)
    requires WellFormed(ops, t, t0, t1) && 0 <= i < |Leaves(t)|
    requires NonZeroDirection(ray)
    requires HitsInWindow(ops, Leaves(t), ray, tmin, tmax) && BoxesBoundHits(ops, Leaves(t), ray, tmin, tmax, t0, t1)
    requires ops.hit(Leaves(t)[i], ray, tmin, tmax).Some?
    ensures t.box.SlabHit(ray, tmin, tmax)
  {
    var o := Leaves(t)[i];
    var h := ops.hit(o, ray, tmin, tmax).value;
    LeafBoxContained(ops, t, i, t0, t1);
    InBoxContained(t.box, ops.boundingBox(o, t0, t1), PointAt(ray, h.t));
    ContainsProper(t.box, ops.boundingBox(o, t0, t1));
    SlabHitAtPoint(t.box, ray, h.t, tmin, tmax);
  }

  /** Keeping the nearer of two nearest hits gives a nearest hit of both lists together. */
  lemma PickNearerIsMinimal<T>(ops: HittableOps<T>, hl: Option<HitRecord>, a: seq<T>, hr: Option<HitRecord>, b: seq<T>,
                               ray: Ray, tmin: real, tmax: real)
    requires MinimalHit(ops, hl, a, ray, tmin, tmax) && MinimalHit(ops, hr, b, ray, tmin, tmax)
    ensures MinimalHit(ops, PickNearer(hl, hr), a + b, ray, tmin, tmax)
  {
    var ab := a + b;
    assert forall i :: 0 <= i < |a| ==> ab[i] == a[i];
    assert forall i :: 0 <= i < |b| ==> ab[|a| + i] == b[i];
    assert forall i :: |a| <= i < |ab| ==> ab[i] == b[i - |a|];
  }

  /**
   * The tree's hit is a nearest hit among its objects: absent exactly when no object is
   * hit, and otherwise an object's hit at the smallest `t`.  This needs every object hit to
   * lie in the window and inside the object's box of positive extent, and a direction
   * without zero components, so that no box on the way prunes it.
   */
  lemma {:induction false} HitIsMinimal<T>(ops: HittableOps<T>, t: Bvh<T>, ray: Ray, tmin: real, tmax: real, t0: real, t1: real)
    requires WellFormed(ops, t, t0, t1) && NonZeroDirection(ray)
    requires HitsInWindow(ops, Leaves(t), ray, tmin, tmax) && BoxesBoundHits(ops, Leaves(t), ray, tmin, tmax, t0, t1)
    ensures MinimalHit(ops, t.Hit(ops, ray, tmin, tmax), Leaves(t), ray, tmin, tmax)
  {
    if !t.box.SlabHit(ray, tmin, tmax) {
      forall i | 0 <= i < |Leaves(t)|
        ensures ops.hit(Leaves(t)[i], ray, tmin, tmax).None?
      {
        if ops.hit(Leaves(t)[i], ray, tmin, tmax).Some? {
          LeafHitPassesBox(ops, t, i, ray, tmin, tmax, t0, t1);
        }
      }
    } else {
      match t.contents
      case Leaf(obj) =>
        assert Leaves(t) == [obj];
      case Node(left, right) =>
        assert forall i :: 0 <= i < |Leaves(left)| ==> Leaves(t)[i] == Leaves(left)[i];
        assert forall i :: 0 <= i < |Leaves(right)| ==> Leaves(t)[|Leaves(left)| + i] == Leaves(right)[i];
        HitIsMinimal(ops, left, ray, tmin, tmax, t0, t1);
        HitIsMinimal(ops, right, ray, tmin, tmax, t0, t1);
        PickNearerIsMinimal(ops, left.Hit(ops, ray, tmin, tmax), Leaves(left),
                            right.Hit(ops, ray, tmin, tmax), Leaves(right), ray, tmin, tmax);
    }
  }

  /** The two conditions on the objects' hits hold of any reordering of the objects. */
  lemma HitConditionsPermuted<T>(ops: HittableOps<T>, a: seq<T>, b: seq<T>, ray: Ray, tmin: real, tmax: real, t0: real, t1: real)
    requires multiset(a) == multiset(b)
    requires HitsInWindow(ops, a, ray, tmin, tmax) && BoxesBoundHits(ops, a, ray, tmin, tmax, t0, t1)
    ensures HitsInWindow(ops, b, ray, tmin, tmax) && BoxesBoundHits(ops, b, ray, tmin, tmax, t0, t1)
  {
    forall i | 0 <= i < |b|
      ensures exists j :: 0 <= j < |a| && a[j] == b[i]
    {
      assert b[i] in multiset(a);
    }
  }

  /**
   * A tree built from `objects` answers every query at the same `t` as the linear scan of
   * a world holding the same objects, in whatever order.
   */
  lemma AgreesWithScan<T>(ops: HittableOps<T>, t: Bvh<T>, objects: seq<T>, ray: Ray, tmin: real, tmax: real, t0: real, t1: real)
    requires WellFormed(ops, t, t0, t1) && multiset(Leaves(t)) == multiset(objects) && NonZeroDirection(ray)
    requires HitsInWindow(ops, objects, ray, tmin, tmax) && BoxesBoundHits(ops, objects, ray, tmin, tmax, t0, t1)
    ensures SameNearest(t.Hit(ops, ray, tmin, tmax), Nearest(ops, objects, ray, tmin, tmax))
  {
    HitConditionsPermuted(ops, objects, Leaves(t), ray, tmin, tmax, t0, t1);
    HitIsMinimal(ops, t, ray, tmin, tmax, t0, t1);
    NearestIsMinimal(ops, objects, ray, tmin, tmax);
    MinimalHitsAgree(ops, t.Hit(ops, ray, tmin, tmax), Leaves(t), Nearest(ops, objects, ray, tmin, tmax), objects,
                     ray, tmin, tmax);
  }
}
