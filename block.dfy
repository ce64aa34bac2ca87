/** src/block.rs: an axis-aligned box made of six rectangles. */
module Blocks {
  import opened Numerics
  import opened Options
  import opened Vectors
  import opened Rays
  import opened Materials
  import opened Hitables
  import Aabb
  import Rectangles
  import NearestHit

  /** The six faces in `Block::new`'s order: the far and (flipped) near face
      across z, then across y, then across x. */
  function Faces(pmin: Vec3, pmax: Vec3, material: Material): seq<Hitable> {
    [ Rectangle(Rectangles.Rect(Rectangles.XY, pmin.x, pmax.x, pmin.y, pmax.y, pmax.z), material),
      FlipNormals(Rectangle(Rectangles.Rect(Rectangles.XY, pmin.x, pmax.x, pmin.y, pmax.y, pmin.z), material)),
      Rectangle(Rectangles.Rect(Rectangles.ZX, pmin.z, pmax.z, pmin.x, pmax.x, pmax.y), material),
      FlipNormals(Rectangle(Rectangles.Rect(Rectangles.ZX, pmin.z, pmax.z, pmin.x, pmax.x, pmin.y), material)),
      Rectangle(Rectangles.Rect(Rectangles.YZ, pmin.y, pmax.y, pmin.z, pmax.z, pmax.x), material),
      FlipNormals(Rectangle(Rectangles.Rect(Rectangles.YZ, pmin.y, pmax.y, pmin.z, pmax.z, pmin.x), material)) ]
  }

  /** `Block::new`. */
  function NewBlock(pmin: Vec3, pmax: Vec3, material: Material): Hitable {
    Block(pmin, pmax, HitableList(Faces(pmin, pmax, material)))
  }

  /** The point lies in the closed box [pmin, pmax] and on one of its six faces. */
  predicate OnBoxSurface(pmin: Vec3, pmax: Vec3, p: Vec3) {
    && pmin.x <= p.x <= pmax.x && pmin.y <= p.y <= pmax.y && pmin.z <= p.z <= pmax.z
    && (p.x == pmin.x || p.x == pmax.x || p.y == pmin.y || p.y == pmax.y || p.z == pmin.z || p.z == pmax.z)
  }

  /** Every face is a (possibly flipped) rectangle whose hits lie on the box's surface. */
  lemma FaceHitOnSurface(pmin: Vec3, pmax: Vec3, material: Material, j: nat, r: Ray, tMin: real, c: real, m: Math, flight: real)
    requires pmin.x <= pmax.x && pmin.y <= pmax.y && pmin.z <= pmax.z
    requires j < 6
    ensures var rec := Hit(Faces(pmin, pmax, material)[j], r, tMin, c, m, flight);
      rec.Some? ==> OnBoxSurface(pmin, pmax, rec.value.p) && rec.value.material == material
  {
  }

  /** A hit on the block is a point of the box's surface (for pmin <= pmax),
      inside the box the block reports, with the block's material. */
  lemma BlockHitOnSurface(pmin: Vec3, pmax: Vec3, material: Material, r: Ray, tMin: real, tMax: real, m: Math, flight: real)
    requires pmin.x <= pmax.x && pmin.y <= pmax.y && pmin.z <= pmax.z
    ensures var rec := Hit(NewBlock(pmin, pmax, material), r, tMin, tMax, m, flight);
      rec.Some? ==>
        && OnBoxSurface(pmin, pmax, rec.value.p)
        && rec.value.material == material
    ensures forall t0, t1 :: BoundingBox(NewBlock(pmin, pmax, material), t0, t1) == Some(Aabb.AABB(pmin, pmax))
  {
    var l := HitableList(Faces(pmin, pmax, material));
    NearestHit.FoldSource(l, 0, r, tMin, tMax, None, m, flight);
    var rec := Hit(NewBlock(pmin, pmax, material), r, tMin, tMax, m, flight);
    if rec.Some? {
      var j, c :| 0 <= j < 6 && Hit(l.hitables[j], r, tMin, c, m, flight) == rec;
      FaceHitOnSurface(pmin, pmax, material, j, r, tMin, c, m, flight);
    }
  }

  /** The block reports a hit exactly when one of its faces has one in the
      window, and then the nearest of them. */
  lemma BlockNearestFace(pmin: Vec3, pmax: Vec3, material: Material, r: Ray, tMin: real, tMax: real, m: Math, flight: real)
    ensures var faces := Faces(pmin, pmax, material);
            var rec := Hit(NewBlock(pmin, pmax, material), r, tMin, tMax, m, flight);
      && (rec.None? <==> forall j :: 0 <= j < 6 ==> Hit(faces[j], r, tMin, tMax, m, flight).None?)
      && (rec.Some? ==> tMin <= rec.value.t <= tMax)
      && forall j :: 0 <= j < 6 && Hit(faces[j], r, tMin, tMax, m, flight).Some? ==>
           rec.Some? && rec.value.t <= Hit(faces[j], r, tMin, tMax, m, flight).value.t
  {
    var l := HitableList(Faces(pmin, pmax, material));
    forall j | 0 <= j < 6 ensures NearestHit.Consistent(l.hitables[j], r, tMin, m, flight) {
      var face := l.hitables[j];
      if face.Rectangle? {
        NearestHit.RectangleConsistent(face.rect, face.material, r, tMin, m, flight);
      } else {
        NearestHit.RectangleConsistent(face.hitable.rect, face.hitable.material, r, tMin, m, flight);
        NearestHit.FlipConsistent(face.hitable, r, tMin, m, flight);
      }
    }
    NearestHit.ListNoneIff(l, r, tMin, tMax, m, flight);
    NearestHit.ListNearest(l, r, tMin, tMax, m, flight);
  }
}
