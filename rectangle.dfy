/** Axis-aligned rectangles of src/rectangle.rs. */
module Rectangles {
  import opened Numerics
  import opened Options
  import opened Vectors
  import opened Rays
  import opened Aabb
  import opened HitRecords
  import opened RealFacts

  datatype Plane = XY | YZ | ZX

  /** A rectangle spanning [a0, a1] × [b0, b1] on the plane `axis k == k`. */
  datatype Rect = Rect(plane: Plane, a0: real, a1: real, b0: real, b1: real, k: real)

  /** The (a, b, k) axis indices of each plane. */
  function Axes(plane: Plane): (axes: (nat, nat, nat))
    ensures axes.0 < 3 && axes.1 < 3 && axes.2 < 3
    ensures axes.0 != axes.1 && axes.1 != axes.2 && axes.0 != axes.2
  {
    match plane
    case XY => (0, 1, 2)
    case YZ => (1, 2, 0)
    case ZX => (2, 0, 1)
  }

  /** Component i of the ray's point at t. */
  lemma PointAtComponent(r: Ray, t: real, i: nat)
    requires i < 3
    ensures PointAtParameter(r, t).At(i) == r.origin.At(i) + t * r.direction.At(i)
  {
  }

  /** The point p lies on the rectangle: on its plane and inside both closed spans. */
  predicate OnRect(rect: Rect, p: Vec3) {
    var (a, b, k) := Axes(rect.plane);
    && p.At(k) == rect.k
    && rect.a0 <= p.At(a) <= rect.a1
    && rect.b0 <= p.At(b) <= rect.b1
  }

  /** The parameter at which the ray crosses the rectangle's plane. */
  function PlaneParameter(rect: Rect, r: Ray): real {
    var k := Axes(rect.plane).2;
    Quot(rect.k - r.origin.At(k), r.direction.At(k))
  }

  /** `Rectangle::hit`: the plane crossing, accepted when it is inside the
      closed window [tMin, tMax] and inside both spans. A ray parallel to the
      plane gets no hit. */
  function Hit<M>(rect: Rect, material: M, r: Ray, tMin: real, tMax: real): (rec: Option<HitRecord<M>>)
    ensures r.direction.At(Axes(rect.plane).2) == 0.0 ==> rec.None?
    ensures rec.Some? ==>
      && tMin <= rec.value.t <= tMax
      && rec.value.p == PointAtParameter(r, rec.value.t)
      && OnRect(rect, rec.value.p)
      && rec.value.normal == UnitAxis(Axes(rect.plane).2)
      && rec.value.material == material
    ensures rec.Some? && rect.a0 < rect.a1 && rect.b0 < rect.b1 ==>
      0.0 <= rec.value.u <= 1.0 && 0.0 <= rec.value.v <= 1.0
  {
    var (aAxis, bAxis, kAxis) := Axes(rect.plane);
    if r.direction.At(kAxis) == 0.0 then None
    else
      var t := PlaneParameter(rect, r);
      if t < tMin || t > tMax then None
      else
        var a := r.origin.At(aAxis) + t * r.direction.At(aAxis);
        var b := r.origin.At(bAxis) + t * r.direction.At(bAxis);
        if a < rect.a0 || a > rect.a1 || b < rect.b0 || b > rect.b1 then None
        else
          var u := Quot(a - rect.a0, rect.a1 - rect.a0);
          var v := Quot(b - rect.b0, rect.b1 - rect.b0);
          var p := PointAtParameter(r, t);
          PointAtComponent(r, t, aAxis);
          PointAtComponent(r, t, bAxis);
          PointAtComponent(r, t, kAxis);
          FractionInUnit(a, rect.a0, rect.a1);
          FractionInUnit(b, rect.b0, rect.b1);
          Some(HitRecord(t, u, v, p, UnitAxis(kAxis), material))
  }

  /** (x − lo)/(hi − lo) lies in [0, 1] for lo <= x <= hi and lo < hi. */
  lemma FractionInUnit(x: real, lo: real, hi: real)
    ensures lo < hi && lo <= x <= hi ==> 0.0 <= Quot(x - lo, hi - lo) <= 1.0
  {
    if lo < hi && lo <= x <= hi {
      QuotInUnit(x - lo, hi - lo);
    }
  }

  /** Completeness: whenever the ray, not parallel to the plane, reaches a point
      of the rectangle at a parameter inside the closed window, the rectangle
      reports a hit at exactly that parameter. */
  lemma HitFindsEveryCrossing<M>(rect: Rect, material: M, r: Ray, tMin: real, tMax: real, t: real)
    requires r.direction.At(Axes(rect.plane).2) != 0.0
    requires tMin <= t <= tMax && OnRect(rect, PointAtParameter(r, t))
    ensures var rec := Hit(rect, material, r, tMin, tMax);
      rec.Some? && rec.value.t == t
  {
    var (aAxis, bAxis, kAxis) := Axes(rect.plane);
    PlaneParameterUnique(rect, r, t);
    PointAtComponent(r, t, aAxis);
    PointAtComponent(r, t, bAxis);
  }

  /** The only parameter at which a ray not parallel to the plane is on it. */
  lemma PlaneParameterUnique(rect: Rect, r: Ray, t: real)
    requires r.direction.At(Axes(rect.plane).2) != 0.0
    requires PointAtParameter(r, t).At(Axes(rect.plane).2) == rect.k
    ensures PlaneParameter(rect, r) == t
  {
    var kAxis := Axes(rect.plane).2;
    var d := r.direction.At(kAxis);
    var o := r.origin.At(kAxis);
    PointAtComponent(r, t, kAxis);
    var q := PlaneParameter(rect, r);
    assert q * d == rect.k - o;
    assert t * d == rect.k - o;
    Cancel(q, t, d);
  }

  /** The crossing does not depend on the window, so any window whose far end
      is at or past a hit gives the same hit. */
  lemma WindowStable<M>(rect: Rect, material: M, r: Ray, tMin: real, t1: real, t2: real)
    ensures var first := Hit(rect, material, r, tMin, t1);
      first.Some? && first.value.t <= t2 ==> Hit(rect, material, r, tMin, t2) == first
  {
  }

  /** `Rectangle::bounding_box` as written: it puts a0 and b1 in both of the
      first two coordinates and pads k on the z axis whatever the plane. */
  function Box(rect: Rect): AABB {
    AABB(Vec3(rect.a0, rect.a0, rect.k - 0.0001), Vec3(rect.b1, rect.b1, rect.k + 0.0001))
  }

  /** The point p lies in the closed box. */
  predicate InBox(box: AABB, p: Vec3) {
    && box.min.x <= p.x <= box.max.x
    && box.min.y <= p.y <= box.max.y
    && box.min.z <= p.z <= box.max.z
  }

  /** The reported box holds every point of the rectangle. */
  ghost predicate BoxBounds(rect: Rect) {
    forall p :: OnRect(rect, p) ==> InBox(Box(rect), p)
  }

  /** The point of the rectangle's plane with in-plane coordinates a and b. */
  function PlanePoint(rect: Rect, a: real, b: real): (p: Vec3)
    ensures var (aAxis, bAxis, kAxis) := Axes(rect.plane);
      p.At(aAxis) == a && p.At(bAxis) == b && p.At(kAxis) == rect.k
  {
    match rect.plane
    case XY => Vec3(a, b, rect.k)
    case YZ => Vec3(rect.k, a, b)
    case ZX => Vec3(b, rect.k, a)
  }

  /** When the reported box holds a non-empty rectangle: an XY rectangle needs
      only a1 <= b1 and a0 <= b0; a YZ or ZX rectangle also needs k inside
      [a0, b1] and its whole extent along z (b for YZ, a for ZX) within
      0.0001 of k, since the box pads k on z whatever the plane. */
  lemma BoxBoundsIff(rect: Rect)
    requires rect.a0 <= rect.a1 && rect.b0 <= rect.b1
    ensures BoxBounds(rect) <==>
      match rect.plane
      case XY => rect.a1 <= rect.b1 && rect.a0 <= rect.b0
      case YZ => rect.a0 <= rect.k <= rect.b1 && rect.a1 <= rect.b1
                 && rect.k - 0.0001 <= rect.b0 && rect.b1 <= rect.k + 0.0001
      case ZX => rect.a0 <= rect.k <= rect.b1 && rect.a0 <= rect.b0
                 && rect.k - 0.0001 <= rect.a0 && rect.a1 <= rect.k + 0.0001
  {
    var low, high := PlanePoint(rect, rect.a0, rect.b0), PlanePoint(rect, rect.a1, rect.b1);
    assert OnRect(rect, low) && OnRect(rect, high);
    forall p | OnRect(rect, p)
      ensures match rect.plane
        case XY => p == PlanePoint(rect, p.x, p.y)
        case YZ => p == PlanePoint(rect, p.y, p.z)
        case ZX => p == PlanePoint(rect, p.z, p.x)
    {
    }
  }

  /** Hence a YZ or ZX rectangle more than 0.0002 tall along z always has a
      point outside the box it reports. */
  lemma TallRectEscapesBox(rect: Rect)
    requires rect.a0 <= rect.a1 && rect.b0 <= rect.b1
    requires (rect.plane == YZ && rect.b1 - rect.b0 > 0.0002) || (rect.plane == ZX && rect.a1 - rect.a0 > 0.0002)
    ensures exists p :: OnRect(rect, p) && !InBox(Box(rect), p)
  {
    BoxBoundsIff(rect);
  }

  /** The box does not bound the rectangle: a YZ rectangle at x = 5 spanning
      [0, 1] × [0, 1] is hit at (5, 0.5, 0.5), outside its box in x. */
  lemma BoxMissesHitPoint()
    ensures var rect := Rect(YZ, 0.0, 1.0, 0.0, 1.0, 5.0);
            var r := Ray(Vec3(0.0, 0.5, 0.5), Vec3(1.0, 0.0, 0.0), 0.0);
            var rec := Hit(rect, 0, r, 0.0, 10.0);
      && rec.Some? && rec.value.p == Vec3(5.0, 0.5, 0.5)
      && rec.value.p.x > Box(rect).max.x
  {
    var rect := Rect(YZ, 0.0, 1.0, 0.0, 1.0, 5.0);
    var r := Ray(Vec3(0.0, 0.5, 0.5), Vec3(1.0, 0.0, 0.0), 0.0);
    HitFindsEveryCrossing(rect, 0, r, 0.0, 10.0, 5.0);
  }
}
