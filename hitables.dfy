/** The `Hitable` interface of src/hitable.rs as one closed datatype: every
    scene object of the core, its `hit` query and its `bounding_box`. */
module Hitables {
  import opened Numerics
  import opened Options
  import opened Vectors
  import opened Rays
  import opened Aabb
  import opened HitRecords
  import opened Materials
  import Spheres
  import Rectangles
  import Transforms
  import Media

  type Record = HitRecord<Material>

  datatype Hitable =
    | Sphere(center: Vec3, radius: real, material: Material)
    | MovingSphere(center0: Vec3, center1: Vec3, time0: real, time1: real, radius: real, material: Material)
    | Rectangle(rect: Rectangles.Rect, material: Material)
    | FlipNormals(hitable: Hitable)
    | Block(pmin: Vec3, pmax: Vec3, hitablelist: HitableList)
    | Translate(hitable: Hitable, offset: Vec3)
    | Rotate(hitable: Hitable, sinTheta: real, cosTheta: real, bbox: Option<AABB>)
    | ConstantMedium(boundary: Hitable, density: real, phaseFunction: Material)

  /** src/hitable_list.rs: the scene list. */
  datatype HitableList = HitableList(hitables: seq<Hitable>)

  /** The medium's two boundary queries: over the whole f32 line, then past the entry. */
  const Everywhere: real := F32Max
  const BoundaryGap: real := 0.0001

  /** `hit` of every object. `flight` is the uniform number the constant medium
      draws for its free-flight distance (every medium in one query sees the same). */
  function Hit(h: Hitable, r: Ray, tMin: real, tMax: real, m: Math, flight: real): (rec: Option<Record>)
    ensures tMax < tMin ==> rec.None?
    decreases h, 0
  {
    match h
    case Sphere(center, radius, material) =>
      Spheres.Hit(center, radius, material, r, tMin, tMax, m)
    case MovingSphere(center0, center1, time0, time1, radius, material) =>
      Spheres.Hit(Spheres.CenterAtTime(center0, center1, time0, time1, r.time), radius, material, r, tMin, tMax, m)
    case Rectangle(rect, material) =>
      Rectangles.Hit(rect, material, r, tMin, tMax)
    case FlipNormals(child) =>
      Hit(child, r, tMin, tMax, m, flight)
    case Block(_, _, list) =>
      ListFold(list, 0, r, tMin, tMax, None, m, flight)
    case Translate(child, offset) =>
      (match Hit(child, Transforms.TranslateRay(r, offset), tMin, tMax, m, flight)
       case Some(rec) => Some(Transforms.TranslateRecord(rec, offset))
       case None => None)
    case Rotate(child, s, c, _) =>
      (match Hit(child, Transforms.RotateRay(r, s, c), tMin, tMax, m, flight)
       case Some(rec) => Some(Transforms.RotateRecord(rec, s, c))
       case None => None)
    case ConstantMedium(boundary, density, phase) =>
      (match Hit(boundary, r, -Everywhere, Everywhere, m, flight)
       case None => None
       case Some(rec1) =>
         (match Hit(boundary, r, rec1.t + BoundaryGap, Everywhere, m, flight)
          case None => None
          case Some(rec2) =>
            Media.Sample(rec1.t, rec2.t, r, tMin, tMax, Media.HitDistance(density, m.ln(flight)), phase, m)))
  }

  /** The closest-so-far fold of `HitableList::hit` from member i on, with the
      window's far end `closest` and the best record so far `acc`. */
  function ListFold(l: HitableList, i: nat, r: Ray, tMin: real, closest: real, acc: Option<Record>, m: Math, flight: real)
    : (res: Option<Record>)
    requires i <= |l.hitables|
    ensures closest < tMin ==> res == acc
    decreases l, |l.hitables| - i
  {
    if i == |l.hitables| then acc
    else
      match Hit(l.hitables[i], r, tMin, closest, m, flight)
      case Some(rec) => ListFold(l, i + 1, r, tMin, rec.t, Some(rec), m, flight)
      case None => ListFold(l, i + 1, r, tMin, closest, acc, m, flight)
  }

  /** `HitableList::hit`: the fold from the first member with the caller's window. */
  function ListHit(l: HitableList, r: Ray, tMin: real, tMax: real, m: Math, flight: real): (rec: Option<Record>)
    ensures |l.hitables| == 0 || tMax < tMin ==> rec.None?
  {
    ListFold(l, 0, r, tMin, tMax, None, m, flight)
  }

  /** Every rotation met on the way down through flips, translations and
      medium boundaries stores a box (as `Rotate::new` always does). */
  predicate RotationsBoxed(h: Hitable) {
    match h
    case Rotate(_, _, _, bbox) => bbox.Some?
    case FlipNormals(child) => RotationsBoxed(child)
    case Translate(child, _) => RotationsBoxed(child)
    case ConstantMedium(boundary, _, _) => RotationsBoxed(boundary)
    case _ => true
  }

  /** `bounding_box` of every object; the list's own is a loop, in HitableLists.
      Spheres, rectangles and blocks always report a box, so an object has one
      exactly when its rotations do. */
  function BoundingBox(h: Hitable, t0: real, t1: real): (box: Option<AABB>)
    ensures box.Some? <==> RotationsBoxed(h)
  {
    match h
    case Sphere(center, radius, _) => Some(Spheres.Box(center, radius))
    case MovingSphere(center0, center1, time0, time1, radius, _) =>
      Some(SurroundingBox(
        Spheres.Box(Spheres.CenterAtTime(center0, center1, time0, time1, t0), radius),
        Spheres.Box(Spheres.CenterAtTime(center0, center1, time0, time1, t1), radius)))
    case Rectangle(rect, _) => Some(Rectangles.Box(rect))
    case FlipNormals(child) => BoundingBox(child, t0, t1)
    case Block(pmin, pmax, _) => Some(AABB(pmin, pmax))
    case Translate(child, offset) =>
      (match BoundingBox(child, t0, t1)
       case Some(box) => Some(Transforms.TranslateBox(box, offset))
       case None => None)
    case Rotate(_, _, _, bbox) => bbox
    case ConstantMedium(boundary, _, _) => BoundingBox(boundary, t0, t1)
  }

  /** FlipNormals passes the same ray and window to its child and returns the
      child's record unchanged (the normal is not negated), and its box is the child's. */
  lemma FlipIsTransparent(child: Hitable, r: Ray, tMin: real, tMax: real, m: Math, flight: real, t0: real, t1: real)
    ensures Hit(FlipNormals(child), r, tMin, tMax, m, flight) == Hit(child, r, tMin, tMax, m, flight)
    ensures BoundingBox(FlipNormals(child), t0, t1) == BoundingBox(child, t0, t1)
  {
  }

  /** Translate: the child is asked about the moved ray; the answer keeps t,
      u, v, normal and material and moves p back by the offset; the box is shifted. */
  lemma TranslateHit(child: Hitable, offset: Vec3, r: Ray, tMin: real, tMax: real, m: Math, flight: real)
    ensures var inner := Hit(child, Transforms.TranslateRay(r, offset), tMin, tMax, m, flight);
            var outer := Hit(Translate(child, offset), r, tMin, tMax, m, flight);
      && (outer.None? <==> inner.None?)
      && (outer.Some? ==>
            && outer.value.t == inner.value.t && outer.value.normal == inner.value.normal
            && outer.value.u == inner.value.u && outer.value.v == inner.value.v
            && outer.value.material == inner.value.material
            && outer.value.p == inner.value.p.Plus(offset))
  {
  }

  lemma TranslateBounds(child: Hitable, offset: Vec3, t0: real, t1: real)
    ensures var inner := BoundingBox(child, t0, t1);
            var outer := BoundingBox(Translate(child, offset), t0, t1);
      && (outer.None? <==> inner.None?)
      && (outer.Some? ==> outer.value.min == inner.value.min.Plus(offset) && outer.value.max == inner.value.max.Plus(offset))
  {
  }

  /** Rotate: the child is asked about the turned ray, which keeps the y of
      origin and direction and the time; the result is None exactly when the
      child's is, and the box is the one stored at construction. */
  lemma RotateHit(child: Hitable, s: real, c: real, bbox: Option<AABB>, r: Ray, tMin: real, tMax: real, m: Math, flight: real, t0: real, t1: real)
    ensures var turned := Transforms.RotateRay(r, s, c);
            var inner := Hit(child, turned, tMin, tMax, m, flight);
            var outer := Hit(Rotate(child, s, c, bbox), r, tMin, tMax, m, flight);
      && turned.origin.y == r.origin.y && turned.direction.y == r.direction.y && turned.time == r.time
      && (outer.None? <==> inner.None?)
      && (outer.Some? ==> outer.value == Transforms.RotateRecord(inner.value, s, c))
    ensures BoundingBox(Rotate(child, s, c, bbox), t0, t1) == bbox
  {
  }

  /** ConstantMedium: no hit when the boundary is missed or has no second
      crossing past the first; otherwise the clipped sample between the two. */
  lemma MediumHit(boundary: Hitable, density: real, phase: Material, r: Ray, tMin: real, tMax: real, m: Math, flight: real, t0: real, t1: real)
    ensures var rec1 := Hit(boundary, r, -F32Max, F32Max, m, flight);
            var outer := Hit(ConstantMedium(boundary, density, phase), r, tMin, tMax, m, flight);
      && (rec1.None? ==> outer.None?)
      && (rec1.Some? && Hit(boundary, r, rec1.value.t + 0.0001, F32Max, m, flight).None? ==> outer.None?)
      && (outer.Some? ==>
            var rec2 := Hit(boundary, r, rec1.value.t + 0.0001, F32Max, m, flight);
            && rec1.value.t < tMax
            && (if rec1.value.t < tMin then tMin else rec1.value.t) < Media.Exit(rec2.value.t, tMax)
            && outer.value.material == phase && outer.value.normal == Vec3(1.0, 0.0, 0.0)
            && outer.value.u == 0.0 && outer.value.v == 0.0)
    ensures BoundingBox(ConstantMedium(boundary, density, phase), t0, t1) == BoundingBox(boundary, t0, t1)
  {
  }

  /** The moving sphere's box contains its boxes at both times. */
  lemma MovingSphereBoxContains(center0: Vec3, center1: Vec3, time0: real, time1: real, radius: real, material: Material, t0: real, t1: real)
    ensures var box := BoundingBox(MovingSphere(center0, center1, time0, time1, radius, material), t0, t1);
      && box.Some?
      && Contains(box.value, Spheres.Box(Spheres.CenterAtTime(center0, center1, time0, time1, t0), radius))
      && Contains(box.value, Spheres.Box(Spheres.CenterAtTime(center0, center1, time0, time1, t1), radius))
  {
  }
}
