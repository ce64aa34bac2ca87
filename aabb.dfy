/** Axis-aligned bounding boxes of src/aabb.rs: the slab test and the union of two boxes. */
module Aabb {
  import opened Vectors
  import opened Rays

  datatype AABB = AABB(min: Vec3, max: Vec3)

  /** `fmin`: the smaller argument, the second one on ties. */
  function FMin(a: real, b: real): (r: real)
    ensures r == a || r == b
    ensures r <= a && r <= b
  {
    if a < b then a else b
  }

  /** `fmax`: the larger argument, the second one on ties. */
  function FMax(a: real, b: real): (r: real)
    ensures r == a || r == b
    ensures r >= a && r >= b
  {
    if a > b then a else b
  }

  /** `outer` contains `inner` on every axis. */
  predicate Contains(outer: AABB, inner: AABB) {
    forall i :: 0 <= i < 3 ==> outer.min.At(i) <= inner.min.At(i) && inner.max.At(i) <= outer.max.At(i)
  }

  /** The union of two boxes: it contains both, and each of its bounds is a
      bound of one of them, so it is the smallest box containing both. */
  function SurroundingBox(box0: AABB, box1: AABB): (s: AABB)
    ensures Contains(s, box0) && Contains(s, box1)
    ensures forall i :: 0 <= i < 3 ==>
      (s.min.At(i) == box0.min.At(i) || s.min.At(i) == box1.min.At(i)) &&
      (s.max.At(i) == box0.max.At(i) || s.max.At(i) == box1.max.At(i))
  {
    var small := Vec3(FMin(box0.min.x, box1.min.x), FMin(box0.min.y, box1.min.y), FMin(box0.min.z, box1.min.z));
    var big := Vec3(FMax(box0.max.x, box1.max.x), FMax(box0.max.y, box1.max.y), FMax(box0.max.z, box1.max.z));
    AABB(small, big)
  }

  lemma SurroundingBoxCommutative(a: AABB, b: AABB)
    ensures SurroundingBox(a, b) == SurroundingBox(b, a)
  {
  }

  lemma SurroundingBoxAssociative(a: AABB, b: AABB, c: AABB)
    ensures SurroundingBox(SurroundingBox(a, b), c) == SurroundingBox(a, SurroundingBox(b, c))
  {
  }

  lemma SurroundingBoxIdempotent(a: AABB)
    ensures SurroundingBox(a, a) == a
  {
  }

  /** The ray's direction has no zero component, so every slab parameter is finite. */
  predicate FiniteSlabs(r: Ray) {
    r.direction.x != 0.0 && r.direction.y != 0.0 && r.direction.z != 0.0
  }

  /** Entry and exit parameters of the ray through the slab of `axis`, after the swap. */
  function SlabInterval(box: AABB, r: Ray, axis: nat): (real, real)
    requires axis < 3 && FiniteSlabs(r)
  {
    var invD := 1.0 / r.direction.At(axis);
    var t0 := (box.min.At(axis) - r.origin.At(axis)) * invD;
    var t1 := (box.max.At(axis) - r.origin.At(axis)) * invD;
    if invD < 0.0 then (t1, t0) else (t0, t1)
  }

  /** What one iteration of the slab loop tests: the slab interval, narrowed by
      the caller's window (the inner `let` shadows tmin/tmax, so the window is the
      caller's original one on every axis), is non-empty. */
  predicate SlabOpen(box: AABB, r: Ray, axis: nat, tMin: real, tMax: real)
    requires axis < 3 && FiniteSlabs(r)
  {
    var (t0, t1) := SlabInterval(box, r, axis);
    var tmin := if t0 > tMin then t0 else tMin;
    var tmax := if t1 < tMax then t1 else tMax;
    tmin < tmax
  }

  /** The slab is open exactly when the interval (t0, t1) clipped to the window is non-empty. */
  lemma SlabOpenAt(box: AABB, r: Ray, axis: nat, tMin: real, tMax: real, t0: real, t1: real)
    requires axis < 3 && FiniteSlabs(r)
    requires t0 == SlabInterval(box, r, axis).0 && t1 == SlabInterval(box, r, axis).1
    ensures SlabOpen(box, r, axis, tMin, tMax) <==> (if t0 > tMin then t0 else tMin) < (if t1 < tMax then t1 else tMax)
  {
  }

  /** `AABB::hit`: the slab loop over the three axes with an early exit. */
  method Hit(box: AABB, r: Ray, tMin: real, tMax: real) returns (hit: bool)
    requires FiniteSlabs(r)
    ensures hit <==> forall axis :: 0 <= axis < 3 ==> SlabOpen(box, r, axis, tMin, tMax)
  {
    for a := 0 to 3
      invariant forall axis :: 0 <= axis < a ==> SlabOpen(box, r, axis, tMin, tMax)
    {
      var invD := 1.0 / r.direction.At(a);
      var t0 := (box.min.At(a) - r.origin.At(a)) * invD;
      var t1 := (box.max.At(a) - r.origin.At(a)) * invD;
      if invD < 0.0 {
        t0, t1 := t1, t0;
      }
      var tmin := if t0 > tMin then t0 else tMin;
      var tmax := if t1 < tMax then t1 else tMax;
      assert t0 == SlabInterval(box, r, a).0 && t1 == SlabInterval(box, r, a).1;
      SlabOpenAt(box, r, a, tMin, tMax, t0, t1);
      if tmax <= tmin {
        assert !SlabOpen(box, r, a, tMin, tMax);
        return false;
      }
    }
    return true;
  }

  /** After the swap the slab interval is ordered whenever the box is. */
  lemma SlabIntervalOrdered(box: AABB, r: Ray, axis: nat)
    requires axis < 3 && FiniteSlabs(r)
    requires box.min.At(axis) <= box.max.At(axis)
    ensures SlabInterval(box, r, axis).0 <= SlabInterval(box, r, axis).1
  {
    var d := r.direction.At(axis);
    var lo := box.min.At(axis) - r.origin.At(axis);
    var hi := box.max.At(axis) - r.origin.At(axis);
    assert lo <= hi;
    if d > 0.0 {
      assert 1.0 / d > 0.0;
      assert lo * (1.0 / d) <= hi * (1.0 / d);
    } else {
      assert 1.0 / d < 0.0;
      assert hi * (1.0 / d) <= lo * (1.0 / d);
    }
  }

  /** An empty window (tMax <= tMin) never hits. */
  lemma EmptyWindowMisses(box: AABB, r: Ray, tMin: real, tMax: real)
    requires FiniteSlabs(r) && tMax <= tMin
    ensures !SlabOpen(box, r, 0, tMin, tMax)
    ensures !(forall axis :: 0 <= axis < 3 ==> SlabOpen(box, r, axis, tMin, tMax))
  {
    assert !SlabOpen(box, r, 0, tMin, tMax);
  }

  /** The scalar core of the slab test: lo < t·d < hi places t strictly between
      the two slab parameters lo/d and hi/d, in whichever order d's sign gives. */
  lemma ScaledBetween(lo: real, hi: real, d: real, t: real)
    requires d != 0.0 && lo < t * d < hi
    ensures d > 0.0 ==> lo * (1.0 / d) < t < hi * (1.0 / d)
    ensures d < 0.0 ==> hi * (1.0 / d) < t < lo * (1.0 / d)
  {
    var inv := 1.0 / d;
    assert d * inv == 1.0;
    assert (t * d) * inv == t * (d * inv);
    if d > 0.0 {
      assert lo * inv < (t * d) * inv < hi * inv;
    } else {
      assert hi * inv < (t * d) * inv < lo * inv;
    }
  }

  /** One axis: a parameter t inside the window whose point lies strictly inside
      the slab opens that slab. */
  lemma InsideSlabOpens(box: AABB, r: Ray, axis: nat, tMin: real, tMax: real, t: real)
    requires axis < 3 && FiniteSlabs(r)
    requires tMin < t < tMax
    requires box.min.At(axis) < PointAtParameter(r, t).At(axis) < box.max.At(axis)
    ensures SlabOpen(box, r, axis, tMin, tMax)
  {
    var d := r.direction.At(axis);
    var o := r.origin.At(axis);
    assert PointAtParameter(r, t).At(axis) == o + t * d;
    ScaledBetween(box.min.At(axis) - o, box.max.At(axis) - o, d, t);
  }

  /** The slab test never rejects a box the ray passes through inside the window. */
  lemma InsideImpliesHit(box: AABB, r: Ray, tMin: real, tMax: real, t: real)
    requires FiniteSlabs(r)
    requires tMin < t < tMax
    requires forall axis :: 0 <= axis < 3 ==>
      box.min.At(axis) < PointAtParameter(r, t).At(axis) < box.max.At(axis)
    ensures forall axis :: 0 <= axis < 3 ==> SlabOpen(box, r, axis, tMin, tMax)
  {
    forall axis | 0 <= axis < 3
      ensures SlabOpen(box, r, axis, tMin, tMax)
    {
      InsideSlabOpens(box, r, axis, tMin, tMax, t);
    }
  }

  /** Because each axis is checked against the caller's window rather than the
      running one, the test also accepts rays whose slab intervals overlap the
      window but not each other: this ray misses the unit box, yet every slab is open. */
  lemma ShadowedWindowAcceptsMiss()
    ensures var box := AABB(Vec3(0.0, 0.0, 0.0), Vec3(1.0, 1.0, 1.0));
            var r := Ray(Vec3(-1.0, -3.0, -5.0), Vec3(1.0, 1.0, 1.0), 0.0);
            && (forall axis :: 0 <= axis < 3 ==> SlabOpen(box, r, axis, 0.0, 10.0))
            && (forall t :: !(0.0 <= PointAtParameter(r, t).x <= 1.0 && 0.0 <= PointAtParameter(r, t).y <= 1.0))
  {
    var box := AABB(Vec3(0.0, 0.0, 0.0), Vec3(1.0, 1.0, 1.0));
    var r := Ray(Vec3(-1.0, -3.0, -5.0), Vec3(1.0, 1.0, 1.0), 0.0);
    assert SlabInterval(box, r, 0) == (1.0, 2.0);
    assert SlabInterval(box, r, 1) == (3.0, 4.0);
    assert SlabInterval(box, r, 2) == (5.0, 6.0);
  }
}
