/** Why the closest-so-far search of src/hitable_list.rs finds the nearest
    hit: every scene object answers window queries consistently, and the fold
    over a list of consistent members is nearest and consistent itself. */
module NearestHit {
  import opened Numerics
  import opened Options
  import opened Vectors
  import opened Rays
  import opened HitRecords
  import opened Materials
  import Aabb
  import opened Hitables
  import Spheres
  import Rectangles
  import Transforms
  import Media

  /** A hit lies inside the closed window [tMin, T]. */
  ghost predicate Bounded(h: Hitable, r: Ray, tMin: real, m: Math, flight: real) {
    forall T :: Hit(h, r, tMin, T, m, flight).Some? ==> tMin <= Hit(h, r, tMin, T, m, flight).value.t <= T
  }

  /** Pulling the far end in to a point past a hit still finds a hit, no farther. */
  ghost predicate Narrows(h: Hitable, r: Ray, tMin: real, m: Math, flight: real) {
    forall T1, T2 :: T2 <= T1 && Hit(h, r, tMin, T1, m, flight).Some? && Hit(h, r, tMin, T1, m, flight).value.t < T2 ==>
      Hit(h, r, tMin, T2, m, flight).Some? && Hit(h, r, tMin, T2, m, flight).value.t <= Hit(h, r, tMin, T1, m, flight).value.t
  }

  /** Pushing the far end out keeps finding a hit, no farther. */
  ghost predicate Widens(h: Hitable, r: Ray, tMin: real, m: Math, flight: real) {
    forall T1, T2 :: T2 <= T1 && Hit(h, r, tMin, T2, m, flight).Some? ==>
      Hit(h, r, tMin, T1, m, flight).Some? && Hit(h, r, tMin, T1, m, flight).value.t <= Hit(h, r, tMin, T2, m, flight).value.t
  }

  /** The object answers every window on this ray as a nearest-hit query would. */
  ghost predicate Consistent(h: Hitable, r: Ray, tMin: real, m: Math, flight: real) {
    Bounded(h, r, tMin, m, flight) && Narrows(h, r, tMin, m, flight) && Widens(h, r, tMin, m, flight)
  }

  ghost predicate MembersConsistent(l: HitableList, r: Ray, tMin: real, m: Math, flight: real) {
    forall j :: 0 <= j < |l.hitables| ==> Consistent(l.hitables[j], r, tMin, m, flight)
  }

  /** Once the fold has a record it keeps one. */
  lemma {:induction false} FoldKeeps(l: HitableList, i: nat, r: Ray, tMin: real, c: real, acc: Option<Record>, m: Math, flight: real)
    requires i <= |l.hitables| && acc.Some?
    ensures ListFold(l, i, r, tMin, c, acc, m, flight).Some?
    decreases |l.hitables| - i
  {
    if i < |l.hitables| {
      match Hit(l.hitables[i], r, tMin, c, m, flight)
      case Some(rec) => FoldKeeps(l, i + 1, r, tMin, rec.t, Some(rec), m, flight);
      case None => FoldKeeps(l, i + 1, r, tMin, c, acc, m, flight);
    }
  }

  /** The fold's answer is the record it started with or some member's
      answer to some window. */
  lemma {:induction false} FoldSource(l: HitableList, i: nat, r: Ray, tMin: real, c: real, acc: Option<Record>, m: Math, flight: real)
    requires i <= |l.hitables|
    ensures var res := ListFold(l, i, r, tMin, c, acc, m, flight);
      res == acc || exists j, c' :: i <= j < |l.hitables| && Hit(l.hitables[j], r, tMin, c', m, flight) == res
    decreases |l.hitables| - i
  {
    if i < |l.hitables| {
      match Hit(l.hitables[i], r, tMin, c, m, flight)
      case Some(rec) =>
        FoldSource(l, i + 1, r, tMin, rec.t, Some(rec), m, flight);
        var res := ListFold(l, i, r, tMin, c, acc, m, flight);
        assert res == ListFold(l, i + 1, r, tMin, rec.t, Some(rec), m, flight);
        if res == Some(rec) {
          assert i <= i < |l.hitables| && Hit(l.hitables[i], r, tMin, c, m, flight) == res;
        }
      case None => FoldSource(l, i + 1, r, tMin, c, acc, m, flight);
    }
  }

  /** From member i on with nothing found yet, the fold finds nothing exactly
      when no remaining member has a hit in the window. */
  lemma {:induction false} FoldNone(l: HitableList, i: nat, r: Ray, tMin: real, c: real, m: Math, flight: real)
    requires i <= |l.hitables|
    ensures ListFold(l, i, r, tMin, c, None, m, flight).None? <==>
      forall j :: i <= j < |l.hitables| ==> Hit(l.hitables[j], r, tMin, c, m, flight).None?
    decreases |l.hitables| - i
  {
    if i < |l.hitables| {
      match Hit(l.hitables[i], r, tMin, c, m, flight)
      case Some(rec) => FoldKeeps(l, i + 1, r, tMin, rec.t, Some(rec), m, flight);
      case None => FoldNone(l, i + 1, r, tMin, c, m, flight);
    }
  }

  /** The fold from member i with far end c and best record acc (at t = c when
      present): a record found lies in [tMin, c], is no farther than any
      remaining member's hit in [tMin, c], and is acc or some member's answer
      to a window no wider than c. */
  lemma {:induction false} FoldNearest(l: HitableList, i: nat, r: Ray, tMin: real, c: real, acc: Option<Record>, m: Math, flight: real)
    requires i <= |l.hitables| && MembersConsistent(l, r, tMin, m, flight)
    requires acc.Some? ==> tMin <= acc.value.t == c
    ensures var res := ListFold(l, i, r, tMin, c, acc, m, flight);
      && (acc.Some? ==> res.Some?)
      && (res.Some? ==> tMin <= res.value.t <= c)
      && (forall j :: i <= j < |l.hitables| && Hit(l.hitables[j], r, tMin, c, m, flight).Some? ==>
            res.Some? && res.value.t <= Hit(l.hitables[j], r, tMin, c, m, flight).value.t)
      && (res.Some? && res != acc ==>
            exists j, c' :: i <= j < |l.hitables| && c' <= c && Hit(l.hitables[j], r, tMin, c', m, flight) == res)
    decreases |l.hitables| - i
  {
    if i < |l.hitables| {
      var res := ListFold(l, i, r, tMin, c, acc, m, flight);
      match Hit(l.hitables[i], r, tMin, c, m, flight)
      case Some(y) =>
        assert Bounded(l.hitables[i], r, tMin, m, flight);
        FoldNearest(l, i + 1, r, tMin, y.t, Some(y), m, flight);
        forall j | i < j < |l.hitables| && Hit(l.hitables[j], r, tMin, c, m, flight).Some?
          ensures res.Some? && res.value.t <= Hit(l.hitables[j], r, tMin, c, m, flight).value.t
        {
          var z := Hit(l.hitables[j], r, tMin, c, m, flight).value;
          if z.t < y.t {
            assert Narrows(l.hitables[j], r, tMin, m, flight);
            assert Hit(l.hitables[j], r, tMin, y.t, m, flight).Some?;
          }
        }
        if res.Some? && res != acc && res != Some(y) {
          var j, c' :| i + 1 <= j < |l.hitables| && c' <= y.t && Hit(l.hitables[j], r, tMin, c', m, flight) == res;
          assert c' <= c;
        }
      case None =>
        FoldNearest(l, i + 1, r, tMin, c, acc, m, flight);
    }
  }

  /** `HitableList::hit` finds nothing exactly when no member has a hit in
      the caller's window; in particular the empty list finds nothing. */
  lemma ListNoneIff(l: HitableList, r: Ray, tMin: real, tMax: real, m: Math, flight: real)
    ensures ListHit(l, r, tMin, tMax, m, flight).None? <==>
      forall j :: 0 <= j < |l.hitables| ==> Hit(l.hitables[j], r, tMin, tMax, m, flight).None?
  {
    FoldNone(l, 0, r, tMin, tMax, m, flight);
  }

  /** With consistent members, `HitableList::hit` returns a hit inside the
      window that is no farther than any member's hit in that window. */
  lemma ListNearest(l: HitableList, r: Ray, tMin: real, tMax: real, m: Math, flight: real)
    requires MembersConsistent(l, r, tMin, m, flight)
    ensures var res := ListHit(l, r, tMin, tMax, m, flight);
      && (res.Some? ==> tMin <= res.value.t <= tMax)
      && forall j :: 0 <= j < |l.hitables| && Hit(l.hitables[j], r, tMin, tMax, m, flight).Some? ==>
           res.Some? && res.value.t <= Hit(l.hitables[j], r, tMin, tMax, m, flight).value.t
  {
    FoldNearest(l, 0, r, tMin, tMax, None, m, flight);
  }

  /** A list of consistent members is consistent: so a Block is. */
  lemma BlockConsistent(pmin: Vec3, pmax: Vec3, l: HitableList, r: Ray, tMin: real, m: Math, flight: real)
    requires MembersConsistent(l, r, tMin, m, flight)
    ensures Consistent(Block(pmin, pmax, l), r, tMin, m, flight)
  {
    var b := Block(pmin, pmax, l);
    forall T | Hit(b, r, tMin, T, m, flight).Some?
      ensures tMin <= Hit(b, r, tMin, T, m, flight).value.t <= T
    {
      FoldNearest(l, 0, r, tMin, T, None, m, flight);
    }
    forall T1, T2 | T2 <= T1 && Hit(b, r, tMin, T1, m, flight).Some? && Hit(b, r, tMin, T1, m, flight).value.t < T2
      ensures Hit(b, r, tMin, T2, m, flight).Some? && Hit(b, r, tMin, T2, m, flight).value.t <= Hit(b, r, tMin, T1, m, flight).value.t
    {
      var x := Hit(b, r, tMin, T1, m, flight).value;
      FoldNearest(l, 0, r, tMin, T1, None, m, flight);
      var k, c' :| 0 <= k < |l.hitables| && c' <= T1 && Hit(l.hitables[k], r, tMin, c', m, flight) == Some(x);
      assert Consistent(l.hitables[k], r, tMin, m, flight);
      if c' >= T2 {
        assert Narrows(l.hitables[k], r, tMin, m, flight);
      } else {
        assert Widens(l.hitables[k], r, tMin, m, flight);
      }
      assert Hit(l.hitables[k], r, tMin, T2, m, flight).Some?;
      FoldNearest(l, 0, r, tMin, T2, None, m, flight);
    }
    forall T1, T2 | T2 <= T1 && Hit(b, r, tMin, T2, m, flight).Some?
      ensures Hit(b, r, tMin, T1, m, flight).Some? && Hit(b, r, tMin, T1, m, flight).value.t <= Hit(b, r, tMin, T2, m, flight).value.t
    {
      var y := Hit(b, r, tMin, T2, m, flight).value;
      FoldNearest(l, 0, r, tMin, T2, None, m, flight);
      var k, c' :| 0 <= k < |l.hitables| && c' <= T2 && Hit(l.hitables[k], r, tMin, c', m, flight) == Some(y);
      assert Widens(l.hitables[k], r, tMin, m, flight);
      assert Hit(l.hitables[k], r, tMin, T1, m, flight).Some?;
      FoldNearest(l, 0, r, tMin, T1, None, m, flight);
    }
  }

  /** A sphere (with a square root that is one) is consistent. */
  lemma SphereConsistent(center: Vec3, radius: real, material: Material, r: Ray, tMin: real, m: Math, flight: real)
    requires SqrtLaw(m)
    ensures Consistent(Sphere(center, radius, material), r, tMin, m, flight)
  {
    forall T1, T2 | T2 <= T1
      ensures Hit(Sphere(center, radius, material), r, tMin, T1, m, flight).Some? && Hit(Sphere(center, radius, material), r, tMin, T1, m, flight).value.t < T2 ==>
        Hit(Sphere(center, radius, material), r, tMin, T2, m, flight) == Hit(Sphere(center, radius, material), r, tMin, T1, m, flight)
      ensures Hit(Sphere(center, radius, material), r, tMin, T2, m, flight).Some? ==> Hit(Sphere(center, radius, material), r, tMin, T1, m, flight) == Hit(Sphere(center, radius, material), r, tMin, T2, m, flight)
    {
      Spheres.WindowNarrowing(center, radius, material, r, tMin, T1, T2, m);
      Spheres.WindowWidening(center, radius, material, r, tMin, T1, T2, m);
    }
  }

  /** A moving sphere is the sphere at its centre for the ray's time. */
  lemma MovingSphereConsistent(center0: Vec3, center1: Vec3, time0: real, time1: real, radius: real, material: Material,
                               r: Ray, tMin: real, m: Math, flight: real)
    requires SqrtLaw(m)
    ensures Consistent(MovingSphere(center0, center1, time0, time1, radius, material), r, tMin, m, flight)
  {
    var center := Spheres.CenterAtTime(center0, center1, time0, time1, r.time);
    forall T1, T2 | T2 <= T1
      ensures Hit(MovingSphere(center0, center1, time0, time1, radius, material), r, tMin, T1, m, flight).Some? && Hit(MovingSphere(center0, center1, time0, time1, radius, material), r, tMin, T1, m, flight).value.t < T2 ==>
        Hit(MovingSphere(center0, center1, time0, time1, radius, material), r, tMin, T2, m, flight) == Hit(MovingSphere(center0, center1, time0, time1, radius, material), r, tMin, T1, m, flight)
      ensures Hit(MovingSphere(center0, center1, time0, time1, radius, material), r, tMin, T2, m, flight).Some? ==> Hit(MovingSphere(center0, center1, time0, time1, radius, material), r, tMin, T1, m, flight) == Hit(MovingSphere(center0, center1, time0, time1, radius, material), r, tMin, T2, m, flight)
    {
      Spheres.WindowNarrowing(center, radius, material, r, tMin, T1, T2, m);
      Spheres.WindowWidening(center, radius, material, r, tMin, T1, T2, m);
    }
  }

  /** A rectangle's crossing does not depend on the window. */
  lemma RectangleConsistent(rect: Rectangles.Rect, material: Material, r: Ray, tMin: real, m: Math, flight: real)
    ensures Consistent(Rectangle(rect, material), r, tMin, m, flight)
  {
    forall T1, T2 | T2 <= T1
      ensures Hit(Rectangle(rect, material), r, tMin, T1, m, flight).Some? && Hit(Rectangle(rect, material), r, tMin, T1, m, flight).value.t < T2 ==>
        Hit(Rectangle(rect, material), r, tMin, T2, m, flight) == Hit(Rectangle(rect, material), r, tMin, T1, m, flight)
      ensures Hit(Rectangle(rect, material), r, tMin, T2, m, flight).Some? ==> Hit(Rectangle(rect, material), r, tMin, T1, m, flight) == Hit(Rectangle(rect, material), r, tMin, T2, m, flight)
    {
      Rectangles.WindowStable(rect, material, r, tMin, T1, T2);
      Rectangles.WindowStable(rect, material, r, tMin, T2, T1);
    }
  }

  /** A constant medium whose sampled distance is non-negative is consistent:
      its two boundary queries ignore the caller's window. */
  lemma MediumConsistent(boundary: Hitable, density: real, phase: Material, r: Ray, tMin: real, m: Math, flight: real)
    requires SqrtLaw(m) && Media.HitDistance(density, m.ln(flight)) >= 0.0
    ensures Consistent(ConstantMedium(boundary, density, phase), r, tMin, m, flight)
  {
    MediumBounded(boundary, density, phase, r, tMin, m, flight);
    MediumNarrows(boundary, density, phase, r, tMin, m, flight);
    MediumWidens(boundary, density, phase, r, tMin, m, flight);
  }

  /** The medium's answer for the window [tMin, T] is the sample between its
      two boundary hits, which do not depend on T. */
  lemma MediumIsSample(boundary: Hitable, density: real, phase: Material, r: Ray, tMin: real, T: real, m: Math, flight: real)
    ensures var rec1 := Hit(boundary, r, -Everywhere, Everywhere, m, flight);
      && (rec1.None? ==> Hit(ConstantMedium(boundary, density, phase), r, tMin, T, m, flight).None?)
      && (rec1.Some? ==>
            var rec2 := Hit(boundary, r, rec1.value.t + BoundaryGap, Everywhere, m, flight);
            Hit(ConstantMedium(boundary, density, phase), r, tMin, T, m, flight) ==
              if rec2.None? then None
              else Media.Sample(rec1.value.t, rec2.value.t, r, tMin, T, Media.HitDistance(density, m.ln(flight)), phase, m))
  {
  }

  lemma MediumBounded(boundary: Hitable, density: real, phase: Material, r: Ray, tMin: real, m: Math, flight: real)
    requires SqrtLaw(m) && Media.HitDistance(density, m.ln(flight)) >= 0.0
    ensures Bounded(ConstantMedium(boundary, density, phase), r, tMin, m, flight)
  {
    var h := ConstantMedium(boundary, density, phase);
    var d := Media.HitDistance(density, m.ln(flight));
    forall T | Hit(h, r, tMin, T, m, flight).Some?
      ensures tMin <= Hit(h, r, tMin, T, m, flight).value.t <= T
    {
      MediumIsSample(boundary, density, phase, r, tMin, T, m, flight);
      var rec1 := Hit(boundary, r, -Everywhere, Everywhere, m, flight).value;
      var rec2 := Hit(boundary, r, rec1.t + BoundaryGap, Everywhere, m, flight).value;
      Media.SampleInsideSegment(rec1.t, rec2.t, r, tMin, T, d, phase, m);
    }
  }

  lemma MediumNarrows(boundary: Hitable, density: real, phase: Material, r: Ray, tMin: real, m: Math, flight: real)
    requires SqrtLaw(m) && Media.HitDistance(density, m.ln(flight)) >= 0.0
    ensures Narrows(ConstantMedium(boundary, density, phase), r, tMin, m, flight)
  {
    var h := ConstantMedium(boundary, density, phase);
    var d := Media.HitDistance(density, m.ln(flight));
    forall T1, T2 | T2 <= T1 && Hit(h, r, tMin, T1, m, flight).Some? && Hit(h, r, tMin, T1, m, flight).value.t < T2
      ensures Hit(h, r, tMin, T2, m, flight) == Hit(h, r, tMin, T1, m, flight)
    {
      MediumIsSample(boundary, density, phase, r, tMin, T1, m, flight);
      MediumIsSample(boundary, density, phase, r, tMin, T2, m, flight);
      var rec1 := Hit(boundary, r, -Everywhere, Everywhere, m, flight).value;
      var rec2 := Hit(boundary, r, rec1.t + BoundaryGap, Everywhere, m, flight).value;
      Media.SampleWindowStable(rec1.t, rec2.t, r, tMin, T1, T2, d, phase, m);
    }
  }

  lemma MediumWidens(boundary: Hitable, density: real, phase: Material, r: Ray, tMin: real, m: Math, flight: real)
    requires SqrtLaw(m) && Media.HitDistance(density, m.ln(flight)) >= 0.0
    ensures Widens(ConstantMedium(boundary, density, phase), r, tMin, m, flight)
  {
    var h := ConstantMedium(boundary, density, phase);
    var d := Media.HitDistance(density, m.ln(flight));
    forall T1, T2 | T2 <= T1 && Hit(h, r, tMin, T2, m, flight).Some?
      ensures Hit(h, r, tMin, T1, m, flight) == Hit(h, r, tMin, T2, m, flight)
    {
      MediumIsSample(boundary, density, phase, r, tMin, T1, m, flight);
      MediumIsSample(boundary, density, phase, r, tMin, T2, m, flight);
      var rec1 := Hit(boundary, r, -Everywhere, Everywhere, m, flight).value;
      var rec2 := Hit(boundary, r, rec1.t + BoundaryGap, Everywhere, m, flight).value;
      Media.SampleWindowStable(rec1.t, rec2.t, r, tMin, T1, T2, d, phase, m);
    }
  }

  /** FlipNormals answers as its child does. */
  lemma FlipConsistent(child: Hitable, r: Ray, tMin: real, m: Math, flight: real)
    requires Consistent(child, r, tMin, m, flight)
    ensures Consistent(FlipNormals(child), r, tMin, m, flight)
  {
    assert Bounded(child, r, tMin, m, flight) && Narrows(child, r, tMin, m, flight) && Widens(child, r, tMin, m, flight);
  }

  /** Translate keeps the child's t for the moved ray. */
  lemma TranslateConsistent(child: Hitable, offset: Vec3, r: Ray, tMin: real, m: Math, flight: real)
    requires Consistent(child, Transforms.TranslateRay(r, offset), tMin, m, flight)
    ensures Consistent(Translate(child, offset), r, tMin, m, flight)
  {
    var moved := Transforms.TranslateRay(r, offset);
    assert Bounded(child, moved, tMin, m, flight) && Narrows(child, moved, tMin, m, flight) && Widens(child, moved, tMin, m, flight);
  }

  /** Rotate keeps the child's t for the turned ray. */
  lemma RotateConsistent(child: Hitable, s: real, c: real, bbox: Option<Aabb.AABB>, r: Ray, tMin: real, m: Math, flight: real)
    requires Consistent(child, Transforms.RotateRay(r, s, c), tMin, m, flight)
    ensures Consistent(Rotate(child, s, c, bbox), r, tMin, m, flight)
  {
    var turned := Transforms.RotateRay(r, s, c);
    assert Bounded(child, turned, tMin, m, flight) && Narrows(child, turned, tMin, m, flight) && Widens(child, turned, tMin, m, flight);
  }

  /** Every constant medium inside h draws a non-negative free-flight distance
      (so with density > 0 it holds when ln of the draw is negative). */
  ghost predicate Sampled(h: Hitable, m: Math, flight: real)
    decreases h
  {
    match h
    case FlipNormals(child) => Sampled(child, m, flight)
    case Block(_, _, l) => forall j :: 0 <= j < |l.hitables| ==> Sampled(l.hitables[j], m, flight)
    case Translate(child, _) => Sampled(child, m, flight)
    case Rotate(child, _, _, _) => Sampled(child, m, flight)
    case ConstantMedium(_, density, _) => Media.HitDistance(density, m.ln(flight)) >= 0.0
    case _ => true
  }

  /** Every scene object is consistent on every ray, by structural induction. */
  lemma {:induction false} AllConsistent(h: Hitable, r: Ray, tMin: real, m: Math, flight: real)
    requires SqrtLaw(m) && Sampled(h, m, flight)
    ensures Consistent(h, r, tMin, m, flight)
    decreases h
  {
    match h
    case Sphere(center, radius, material) => SphereConsistent(center, radius, material, r, tMin, m, flight);
    case MovingSphere(center0, center1, time0, time1, radius, material) =>
      MovingSphereConsistent(center0, center1, time0, time1, radius, material, r, tMin, m, flight);
    case Rectangle(rect, material) => RectangleConsistent(rect, material, r, tMin, m, flight);
    case FlipNormals(child) =>
      AllConsistent(child, r, tMin, m, flight);
      FlipConsistent(child, r, tMin, m, flight);
    case Block(pmin, pmax, l) =>
      forall j | 0 <= j < |l.hitables| ensures Consistent(l.hitables[j], r, tMin, m, flight) {
        AllConsistent(l.hitables[j], r, tMin, m, flight);
      }
      BlockConsistent(pmin, pmax, l, r, tMin, m, flight);
    case Translate(child, offset) =>
      AllConsistent(child, Transforms.TranslateRay(r, offset), tMin, m, flight);
      TranslateConsistent(child, offset, r, tMin, m, flight);
    case Rotate(child, s, c, bbox) =>
      AllConsistent(child, Transforms.RotateRay(r, s, c), tMin, m, flight);
      RotateConsistent(child, s, c, bbox, r, tMin, m, flight);
    case ConstantMedium(boundary, density, phase) => MediumConsistent(boundary, density, phase, r, tMin, m, flight);
  }

  /** The world's `hit`: the record returned lies in the window and no member
      of the scene has a hit in that window nearer than it. */
  lemma WorldNearest(world: HitableList, r: Ray, tMin: real, tMax: real, m: Math, flight: real)
    requires SqrtLaw(m) && forall j :: 0 <= j < |world.hitables| ==> Sampled(world.hitables[j], m, flight)
    ensures var res := ListHit(world, r, tMin, tMax, m, flight);
      && (res.Some? ==> tMin <= res.value.t <= tMax)
      && forall j :: 0 <= j < |world.hitables| && Hit(world.hitables[j], r, tMin, tMax, m, flight).Some? ==>
           res.Some? && res.value.t <= Hit(world.hitables[j], r, tMin, tMax, m, flight).value.t
  {
    forall j | 0 <= j < |world.hitables| ensures Consistent(world.hitables[j], r, tMin, m, flight) {
      AllConsistent(world.hitables[j], r, tMin, m, flight);
    }
    ListNearest(world, r, tMin, tMax, m, flight);
  }
}
