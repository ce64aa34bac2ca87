/** src/hitable_list.rs: the scene list's `hit` loop and its `bounding_box` loop. */
module HitableLists {
  import opened Numerics
  import opened Options
  import opened Rays
  import opened Hitables
  import Aabb
  import NearestHit

  /** `HitableList::size`. */
  function Size(list: HitableList): nat {
    |list.hitables|
  }

  /** `HitableList::hit`: every member is asked about the window that ends at
      the closest hit so far. The answer is the fold of `Hitables.ListHit`; it
      is None exactly when no member has a hit in the caller's window, and
      when the square root is one and every medium's sampled distance is
      non-negative it is the nearest hit of any member in the window. */
  method Hit(list: HitableList, r: Ray, tMin: real, tMax: real, m: Math, flight: real) returns (hitAnything: Option<Record>)
    ensures hitAnything == ListHit(list, r, tMin, tMax, m, flight)
    ensures hitAnything.None? <==>
      forall j :: 0 <= j < |list.hitables| ==> Hitables.Hit(list.hitables[j], r, tMin, tMax, m, flight).None?
    ensures SqrtLaw(m) && (forall j :: 0 <= j < |list.hitables| ==> NearestHit.Sampled(list.hitables[j], m, flight)) ==>
      && (hitAnything.Some? ==> tMin <= hitAnything.value.t <= tMax)
      && forall j :: 0 <= j < |list.hitables| && Hitables.Hit(list.hitables[j], r, tMin, tMax, m, flight).Some? ==>
           hitAnything.Some? && hitAnything.value.t <= Hitables.Hit(list.hitables[j], r, tMin, tMax, m, flight).value.t
  {
    var closestSoFar := tMax;
    hitAnything := None;
    for i := 0 to Size(list)
      invariant ListFold(list, i, r, tMin, closestSoFar, hitAnything, m, flight) == ListHit(list, r, tMin, tMax, m, flight)
    {
      var hitRecord := Hitables.Hit(list.hitables[i], r, tMin, closestSoFar, m, flight);
      if hitRecord.Some? {
        closestSoFar := hitRecord.value.t;
        hitAnything := hitRecord;
      }
    }
    NearestHit.ListNoneIff(list, r, tMin, tMax, m, flight);
    if SqrtLaw(m) && (forall j :: 0 <= j < |list.hitables| ==> NearestHit.Sampled(list.hitables[j], m, flight)) {
      NearestHit.WorldNearest(list, r, tMin, tMax, m, flight);
    }
  }

  /** `HitableList::bounding_box` as written: the union computed inside the
      loop is bound to a fresh variable that shadows the first member's box and
      is dropped, so the list reports no box when it is empty or some member
      has none, and otherwise the first member's box alone. */
  method BoundingBox(list: HitableList, t0: real, t1: real) returns (box: Option<Aabb.AABB>)
    ensures box.None? <==>
      |list.hitables| == 0 || exists j :: 0 <= j < |list.hitables| && Hitables.BoundingBox(list.hitables[j], t0, t1).None?
    ensures box.Some? ==> box == Hitables.BoundingBox(list.hitables[0], t0, t1)
  {
    if Size(list) > 0 {
      var firstBox := Hitables.BoundingBox(list.hitables[0], t0, t1);
      if firstBox.Some? {
        var bbox := firstBox.value;
        for i := 1 to Size(list)
          invariant forall j :: 0 <= j < i ==> Hitables.BoundingBox(list.hitables[j], t0, t1).Some?
        {
          var tempBox := Hitables.BoundingBox(list.hitables[i], t0, t1);
          if tempBox.Some? {
            var bbox := Aabb.SurroundingBox(bbox, tempBox.value);
          } else {
            return None;
          }
        }
        return Some(bbox);
      } else {
        return None;
      }
    } else {
      return None;
    }
  }

  /** The box the list reports for two unit spheres centred at the origin and
      at (5, 0, 0) is the first sphere's box, which does not contain the
      second sphere's box. */
  method ShadowedUnionDropsSecondMember(material: Materials.Material) returns (box: Option<Aabb.AABB>)
    ensures var first := Hitables.BoundingBox(Sphere(Vectors.Vec3(0.0, 0.0, 0.0), 1.0, material), 0.0, 1.0);
            var second := Hitables.BoundingBox(Sphere(Vectors.Vec3(5.0, 0.0, 0.0), 1.0, material), 0.0, 1.0);
      && box.Some? && box == first && second.Some?
      && !Aabb.Contains(box.value, second.value)
  {
    var near := Sphere(Vectors.Vec3(0.0, 0.0, 0.0), 1.0, material);
    var far := Sphere(Vectors.Vec3(5.0, 0.0, 0.0), 1.0, material);
    box := BoundingBox(HitableList([near, far]), 0.0, 1.0);
    var second := Hitables.BoundingBox(far, 0.0, 1.0);
    assert second.value.max.At(0) == 6.0;
  }
}
