/** src/color.rs: the recursive path-tracing integrator. */
module Integrator {
  import opened Numerics
  import opened Options
  import opened Vectors
  import opened Rays
  import opened Textures
  import opened Materials
  import opened Hitables
  import HitableLists
  import NearestHit
  import Transforms

  /** The random numbers one bounce consumes: the medium's free-flight
      uniform, the point random_in_unit_sphere returned, and the uniform
      Dielectric compares with Schlick's reflectance. */
  datatype Draw = Draw(flight: real, inSphere: Vec3, choice: real)

  /** The bounce limit and the near end of every query window. */
  const MaxDepth: nat := 50
  const TMin: real := 0.001

  /** The colour `color` returns, as a function: zero on a miss; on a hit the
      material's emission plus, below the bounce limit and when the material
      scatters, the attenuation times the colour of the scattered ray.
      `draws(d)` are the random numbers of bounce d. */
  function Radiance(r: Ray, world: HitableList, depth: nat, draws: nat -> Draw, m: Math): Vec3
    decreases if depth < MaxDepth then MaxDepth - depth else 0
  {
    var d := draws(depth);
    match ListHit(world, r, TMin, F32Max, m, d.flight)
    case None => Zero
    case Some(rec) =>
      var emitted := Emitted(rec.material, rec.u, rec.v, rec.p, m);
      if depth < MaxDepth then
        match Scatter(rec.material, r, rec, d.inSphere, d.choice, m)
        case Some(sr) => emitted.Plus(sr.attenuation.Mul(Radiance(sr.scattered, world, depth + 1, draws, m)))
        case None => emitted
      else emitted
  }

  /** `color`: the recursion of the source, asking the scene list's `hit`
      loop at every bounce; it returns the colour Radiance defines. */
  method Color(r: Ray, world: HitableList, depth: nat, draws: nat -> Draw, m: Math) returns (c: Vec3)
    ensures c == Radiance(r, world, depth, draws, m)
    ensures ListHit(world, r, TMin, F32Max, m, draws(depth).flight).None? ==> c == Zero
    decreases if depth < MaxDepth then MaxDepth - depth else 0
  {
    var d := draws(depth);
    var hit := HitableLists.Hit(world, r, TMin, F32Max, m, d.flight);
    match hit
    case None =>
      c := Zero;
    case Some(rec) =>
      var emitted := Emitted(rec.material, rec.u, rec.v, rec.p, m);
      c := emitted;
      if depth < MaxDepth {
        match Scatter(rec.material, r, rec, d.inSphere, d.choice, m)
        case Some(sr) =>
          var next := Color(sr.scattered, world, depth + 1, draws, m);
          c := emitted.Plus(sr.attenuation.Mul(next));
        case None =>
      }
  }

  /** A ray that misses every object is black; one that hits returns at
      least its emission term: at the bounce limit, or off a material that
      absorbs, exactly the emission. */
  lemma RadianceCases(r: Ray, world: HitableList, depth: nat, draws: nat -> Draw, m: Math)
    ensures var d := draws(depth);
            var hit := ListHit(world, r, TMin, F32Max, m, d.flight);
            var c := Radiance(r, world, depth, draws, m);
      && (hit.None? ==> c == Zero)
      && (hit.Some? && (depth >= MaxDepth || Scatter(hit.value.material, r, hit.value, d.inSphere, d.choice, m).None?) ==>
            c == Emitted(hit.value.material, hit.value.u, hit.value.v, hit.value.p, m))
  {
  }

  /** A ray whose nearest hit is on a light returns the light's texture value
      there, whatever the depth: lights emit and never scatter. */
  lemma LightIsItsTexture(r: Ray, world: HitableList, depth: nat, draws: nat -> Draw, m: Math)
    ensures var hit := ListHit(world, r, TMin, F32Max, m, draws(depth).flight);
      hit.Some? && hit.value.material.DiffuseLight? ==>
        Radiance(r, world, depth, draws, m) == Value(hit.value.material.emit, hit.value.u, hit.value.v, hit.value.p, m)
  {
  }

  /** Lambertian surfaces, metals, glass and media emit nothing: the colour of
      a ray off them is the attenuated colour of the scattered ray, or black. */
  lemma NonLightReflects(r: Ray, world: HitableList, depth: nat, draws: nat -> Draw, m: Math)
    ensures var d := draws(depth);
            var hit := ListHit(world, r, TMin, F32Max, m, d.flight);
      hit.Some? && !hit.value.material.DiffuseLight? ==>
        var s := Scatter(hit.value.material, r, hit.value, d.inSphere, d.choice, m);
        Radiance(r, world, depth, draws, m) ==
          if depth < MaxDepth && s.Some?
          then s.value.attenuation.Mul(Radiance(s.value.scattered, world, depth + 1, draws, m))
          else Zero
  {
  }

  /** A scene object with no light anywhere inside it. */
  predicate Dark(h: Hitable)
    decreases h, 1
  {
    match h
    case Sphere(_, _, material) => !material.DiffuseLight?
    case MovingSphere(_, _, _, _, _, material) => !material.DiffuseLight?
    case Rectangle(_, material) => !material.DiffuseLight?
    case FlipNormals(child) => Dark(child)
    case Block(_, _, list) => DarkList(list)
    case Translate(child, _) => Dark(child)
    case Rotate(child, _, _, _) => Dark(child)
    case ConstantMedium(boundary, _, phase) => Dark(boundary) && !phase.DiffuseLight?
  }

  predicate DarkList(l: HitableList)
    decreases l, 0
  {
    forall j :: 0 <= j < |l.hitables| ==> Dark(l.hitables[j])
  }

  /** Whatever the ray and window, a dark object's record never carries a light. */
  lemma {:induction false} DarkHit(h: Hitable, r: Ray, tMin: real, tMax: real, m: Math, flight: real)
    requires Dark(h)
    ensures var rec := Hit(h, r, tMin, tMax, m, flight);
      rec.Some? ==> !rec.value.material.DiffuseLight?
    decreases h
  {
    match h
    case Sphere(_, _, _) =>
    case MovingSphere(_, _, _, _, _, _) =>
    case Rectangle(_, _) =>
    case FlipNormals(child) => DarkHit(child, r, tMin, tMax, m, flight);
    case Block(_, _, list) =>
      var res := ListFold(list, 0, r, tMin, tMax, None, m, flight);
      NearestHit.FoldSource(list, 0, r, tMin, tMax, None, m, flight);
      if res.Some? {
        var j, c' :| 0 <= j < |list.hitables| && Hit(list.hitables[j], r, tMin, c', m, flight) == res;
        DarkHit(list.hitables[j], r, tMin, c', m, flight);
      }
    case Translate(child, offset) =>
      DarkHit(child, Transforms.TranslateRay(r, offset), tMin, tMax, m, flight);
    case Rotate(child, s, c, _) =>
      DarkHit(child, Transforms.RotateRay(r, s, c), tMin, tMax, m, flight);
    case ConstantMedium(_, _, _) =>
  }

  /** A world without lights renders black: every ray, at every depth and
      for every draw of random numbers, has colour zero. */
  lemma {:induction false} DarkWorldIsBlack(r: Ray, world: HitableList, depth: nat, draws: nat -> Draw, m: Math)
    requires DarkList(world)
    ensures Radiance(r, world, depth, draws, m) == Zero
    decreases if depth < MaxDepth then MaxDepth - depth else 0
  {
    var d := draws(depth);
    var hit := ListHit(world, r, TMin, F32Max, m, d.flight);
    if hit.Some? {
      var rec := hit.value;
      DarkListHit(world, r, TMin, F32Max, m, d.flight);
      var emitted := Emitted(rec.material, rec.u, rec.v, rec.p, m);
      assert emitted == Zero;
      if depth < MaxDepth {
        var s := Scatter(rec.material, r, rec, d.inSphere, d.choice, m);
        if s.Some? {
          DarkWorldIsBlack(s.value.scattered, world, depth + 1, draws, m);
          assert s.value.attenuation.Mul(Zero) == Zero;
        }
      }
    }
  }

  /** The scene list's answer, like each member's, never carries a light. */
  lemma DarkListHit(world: HitableList, r: Ray, tMin: real, tMax: real, m: Math, flight: real)
    requires DarkList(world)
    ensures var rec := ListHit(world, r, tMin, tMax, m, flight);
      rec.Some? ==> !rec.value.material.DiffuseLight?
  {
    var res := ListHit(world, r, tMin, tMax, m, flight);
    NearestHit.FoldSource(world, 0, r, tMin, tMax, None, m, flight);
    if res.Some? {
      var j, c' :| 0 <= j < |world.hitables| && Hit(world.hitables[j], r, tMin, c', m, flight) == res;
      DarkHit(world.hitables[j], r, tMin, c', m, flight);
    }
  }
}
