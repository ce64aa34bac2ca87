/** The instance transforms of src/translate.rs: `Translate` moves the ray
    into the child's frame and the record back out; `Rotate` turns them about
    the y axis and precomputes the child's rotated box. */
module Transforms {
  import opened Numerics
  import opened Vectors
  import opened Rays
  import opened Aabb
  import opened HitRecords

  /** The ray `Translate::hit` gives its child: origin − offset, same direction and time. */
  function TranslateRay(r: Ray, offset: Vec3): (moved: Ray)
    ensures moved.direction == r.direction && moved.time == r.time
    ensures moved.origin.Plus(offset) == r.origin
  {
    Ray(r.origin.Minus(offset), r.direction, r.time)
  }

  /** The child's record with `p += offset`; t, u, v, normal and material kept. */
  function TranslateRecord<M>(rec: HitRecord<M>, offset: Vec3): (moved: HitRecord<M>)
    ensures moved.p.Minus(offset) == rec.p
    ensures moved.t == rec.t && moved.u == rec.u && moved.v == rec.v
    ensures moved.normal == rec.normal && moved.material == rec.material
  {
    rec.(p := rec.p.Plus(offset))
  }

  /** `Translate::bounding_box` on a present child box: both corners shifted. */
  function TranslateBox(box: AABB, offset: Vec3): (moved: AABB)
    ensures moved.min.Minus(offset) == box.min && moved.max.Minus(offset) == box.max
  {
    AABB(box.min.Plus(offset), box.max.Plus(offset))
  }

  /** A point the child finds on the moved ray, shifted back by the offset, is
      the original ray's point at the same parameter. */
  lemma TranslatedPointOnRay(r: Ray, offset: Vec3, t: real)
    ensures PointAtParameter(TranslateRay(r, offset), t).Plus(offset) == PointAtParameter(r, t)
  {
  }

  /** A point lies in the child's box exactly when the shifted point lies in the shifted box. */
  lemma TranslateBoxContains(box: AABB, offset: Vec3, q: Vec3)
    ensures var moved := TranslateBox(box, offset);
            var s := q.Plus(offset);
      (forall i :: 0 <= i < 3 ==> box.min.At(i) <= q.At(i) <= box.max.At(i)) <==>
      (forall i :: 0 <= i < 3 ==> moved.min.At(i) <= s.At(i) <= moved.max.At(i))
  {
    var moved := TranslateBox(box, offset);
    var s := q.Plus(offset);
    assert forall i :: 0 <= i < 3 ==>
      s.At(i) == q.At(i) + offset.At(i) && moved.min.At(i) == box.min.At(i) + offset.At(i)
      && moved.max.At(i) == box.max.At(i) + offset.At(i);
  }

  /** Rotation about y by the angle with sine s and cosine c, the form
      `Rotate::hit` applies to the ray's origin and direction. */
  function RotateY(v: Vec3, s: real, c: real): (w: Vec3)
    ensures w.y == v.y
  {
    Vec3(c * v.x - s * v.z, v.y, s * v.x + c * v.z)
  }

  /** For a true sine/cosine pair, rotating by −θ undoes rotating by θ. */
  lemma RotateYRoundTrip(v: Vec3, s: real, c: real)
    requires s * s + c * c == 1.0
    ensures RotateY(RotateY(v, s, c), -s, c) == v
  {
    var w := RotateY(v, s, c);
    var u := RotateY(w, -s, c);
    assert u.x == (c * c + s * s) * v.x;
    assert u.z == (s * s + c * c) * v.z;
  }

  /** Rotation about y keeps squared length when s² + c² = 1. */
  lemma RotateYKeepsLength(v: Vec3, s: real, c: real)
    requires s * s + c * c == 1.0
    ensures RotateY(v, s, c).SquaredLength() == v.SquaredLength()
  {
    var w := RotateY(v, s, c);
    assert w.x * w.x + w.z * w.z == (c * c + s * s) * (v.x * v.x + v.z * v.z);
  }

  /** The ray `Rotate::hit` gives its child. */
  function RotateRay(r: Ray, s: real, c: real): (rotated: Ray)
    ensures rotated.origin == RotateY(r.origin, s, c) && rotated.direction == RotateY(r.direction, s, c)
    ensures rotated.origin.y == r.origin.y && rotated.direction.y == r.direction.y && rotated.time == r.time
  {
    Ray(Vec3(c * r.origin.x - s * r.origin.z, r.origin.y, s * r.origin.x + c * r.origin.z),
        Vec3(c * r.direction.x - s * r.direction.z, r.direction.y, s * r.direction.x + c * r.direction.z),
        r.time)
  }

  /** The record `Rotate::hit` returns, with its formulas as written: p.x and
      normal.x use the same rotation as the ray; p.z is s·x + s·z and normal.z
      is s·z + c·z. Only y, t, u, v and the material are kept as they are. */
  function RotateRecord<M>(rec: HitRecord<M>, s: real, c: real): (rotated: HitRecord<M>)
    ensures rotated.p == Vec3(c * rec.p.x - s * rec.p.z, rec.p.y, s * rec.p.x + s * rec.p.z)
    ensures rotated.normal == Vec3(c * rec.normal.x - s * rec.normal.z, rec.normal.y, s * rec.normal.z + c * rec.normal.z)
    ensures rotated.t == rec.t && rotated.u == rec.u && rotated.v == rec.v && rotated.material == rec.material
  {
    var p := Vec3(c * rec.p.x - s * rec.p.z, rec.p.y, s * rec.p.x + s * rec.p.z);
    var normal := Vec3(c * rec.normal.x - s * rec.normal.z, rec.normal.y, s * rec.normal.z + c * rec.normal.z);
    rec.(p := p, normal := normal)
  }

  /** The returned point is not the child's point turned back into world space:
      even at angle 0 (s = 0, c = 1), where the ray is passed on unchanged, the
      record's z is forced to 0. */
  lemma RotateRecordFlattensZ<M>(rec: HitRecord<M>)
    ensures RotateRay(Ray(rec.p, rec.normal, rec.t), 0.0, 1.0) == Ray(rec.p, rec.normal, rec.t)
    ensures RotateRecord(rec, 0.0, 1.0).p == Vec3(rec.p.x, rec.p.y, 0.0)
    ensures rec.p.z != 0.0 ==> RotateRecord(rec, 0.0, 1.0).p != RotateY(rec.p, -0.0, 1.0)
  {
  }

  /** At a quarter turn (s = 1, c = 0) both slips show. The child's point is
      turned back with the ray's own rotation rather than its inverse, so x
      comes out wrong whenever z is non-zero; z comes out as x + z rather than
      −x; and normal.z stays n.z rather than becoming −n.x, so a unit normal
      (0, 0, 1) is returned as (−1, 0, 1), which is not a unit vector. */
  lemma RotateRecordQuarterTurn<M>(rec: HitRecord<M>)
    ensures var out := RotateRecord(rec, 1.0, 0.0);
            var back := RotateY(rec.p, -1.0, 0.0);
      && out.p.x == RotateY(rec.p, 1.0, 0.0).x
      && (rec.p.z != 0.0 ==> out.p.x != back.x)
      && out.p.z == rec.p.x + rec.p.z && back.z == -rec.p.x
      && out.normal.z == rec.normal.z && RotateY(rec.normal, -1.0, 0.0).z == -rec.normal.x
      && (rec.normal == Vec3(0.0, 0.0, 1.0) ==>
            out.normal == Vec3(-1.0, 0.0, 1.0) && out.normal.SquaredLength() == 2.0)
  {
  }

  /** The corner of `bbox` picked by i, j, k ∈ {0, 1} (1 takes the max). */
  function Corner(bbox: AABB, i: nat, j: nat, k: nat): Vec3 {
    Vec3(i as real * bbox.max.x + (1.0 - i as real) * bbox.min.x,
         j as real * bbox.max.y + (1.0 - j as real) * bbox.min.y,
         k as real * bbox.max.z + (1.0 - k as real) * bbox.min.z)
  }

  /** `tester` in `Rotate::new`: the corner turned by (c·x + s·z, y, −s·x + c·z). */
  function Tester(bbox: AABB, s: real, c: real, i: nat, j: nat, k: nat): (t: Vec3)
    ensures t.y == Corner(bbox, i, j, k).y
  {
    var q := Corner(bbox, i, j, k);
    Vec3(c * q.x + s * q.z, q.y, -s * q.x + c * q.z)
  }

  /** The n-th tester in the loops' order (i outermost, k innermost). */
  function NthTester(bbox: AABB, s: real, c: real, n: nat): Vec3 {
    Tester(bbox, s, c, n / 4, n / 2 % 2, n % 2)
  }

  /** Component `comp` of [lo, hi] bounds the first n testers, and each end is
      either still its sentinel (±f32::MAX) or the value of one of them. */
  predicate AxisBounds(bbox: AABB, s: real, c: real, lo: real, hi: real, comp: nat, n: nat)
    requires comp < 3
  {
    && (forall m :: 0 <= m < n ==> lo <= NthTester(bbox, s, c, m).At(comp) <= hi)
    && (lo == F32Max || exists m :: 0 <= m < n && lo == NthTester(bbox, s, c, m).At(comp))
    && (hi == -F32Max || exists m :: 0 <= m < n && hi == NthTester(bbox, s, c, m).At(comp))
  }

  predicate CornerBounds(bbox: AABB, s: real, c: real, lo: Vec3, hi: Vec3, n: nat) {
    forall comp :: 0 <= comp < 3 ==> AxisBounds(bbox, s, c, lo.At(comp), hi.At(comp), comp, n)
  }

  /** One component update of the loop body keeps the bounds, now over n + 1 testers. */
  lemma AxisStep(bbox: AABB, s: real, c: real, lo: real, hi: real, comp: nat, n: nat)
    requires comp < 3 && AxisBounds(bbox, s, c, lo, hi, comp, n)
    ensures var x := NthTester(bbox, s, c, n).At(comp);
      AxisBounds(bbox, s, c, if x < lo then x else lo, if x > hi then x else hi, comp, n + 1)
  {
    var x := NthTester(bbox, s, c, n).At(comp);
    var lo' := if x < lo then x else lo;
    var hi' := if x > hi then x else hi;
    if lo' != F32Max {
      if x < lo {
        assert lo' == NthTester(bbox, s, c, n).At(comp);
      } else {
        var m :| 0 <= m < n && lo == NthTester(bbox, s, c, m).At(comp);
        assert lo' == NthTester(bbox, s, c, m).At(comp);
      }
    }
    if hi' != -F32Max {
      if x > hi {
        assert hi' == NthTester(bbox, s, c, n).At(comp);
      } else {
        var m :| 0 <= m < n && hi == NthTester(bbox, s, c, m).At(comp);
        assert hi' == NthTester(bbox, s, c, m).At(comp);
      }
    }
  }

  /** The loop over the three components: each end moves out to the tester's
      component when that lies beyond it, so the bounds now cover tester n. */
  method Absorb(bbox: AABB, s: real, c: real, min: Vec3, max: Vec3, n: nat, tester: Vec3)
    returns (min': Vec3, max': Vec3)
    requires tester == NthTester(bbox, s, c, n)
    requires CornerBounds(bbox, s, c, min, max, n)
    ensures CornerBounds(bbox, s, c, min', max', n + 1)
    ensures forall comp :: 0 <= comp < 3 ==>
      && max'.At(comp) == (if tester.At(comp) > max.At(comp) then tester.At(comp) else max.At(comp))
      && min'.At(comp) == (if tester.At(comp) < min.At(comp) then tester.At(comp) else min.At(comp))
  {
    min', max' := min, max;
    for comp := 0 to 3
      invariant forall q :: 0 <= q < comp ==> AxisBounds(bbox, s, c, min'.At(q), max'.At(q), q, n + 1)
      invariant forall q :: comp <= q < 3 ==> AxisBounds(bbox, s, c, min'.At(q), max'.At(q), q, n)
      invariant forall q :: 0 <= q < comp ==>
        && max'.At(q) == (if tester.At(q) > max.At(q) then tester.At(q) else max.At(q))
        && min'.At(q) == (if tester.At(q) < min.At(q) then tester.At(q) else min.At(q))
      invariant forall q :: comp <= q < 3 ==> max'.At(q) == max.At(q) && min'.At(q) == min.At(q)
    {
      AxisStep(bbox, s, c, min'.At(comp), max'.At(comp), comp, n);
      if tester.At(comp) > max'.At(comp) {
        max' := max'.With(comp, tester.At(comp));
      }
      if tester.At(comp) < min'.At(comp) {
        min' := min'.With(comp, tester.At(comp));
      }
    }
  }

  /** The min/max loops of `Rotate::new` over the eight turned corners. The
      result bounds every tester, and each of its ends is the sentinel or is
      attained by a tester: it is the tightest such box. */
  method RotatedBounds(bbox: AABB, s: real, c: real) returns (rotated: AABB)
    ensures CornerBounds(bbox, s, c, rotated.min, rotated.max, 8)
  {
    var min := Vec3(F32Max, F32Max, F32Max);
    var max := Vec3(-F32Max, -F32Max, -F32Max);
    for i := 0 to 2
      invariant CornerBounds(bbox, s, c, min, max, 4 * i)
    {
      for j := 0 to 2
        invariant CornerBounds(bbox, s, c, min, max, 4 * i + 2 * j)
      {
        for k := 0 to 2
          invariant CornerBounds(bbox, s, c, min, max, 4 * i + 2 * j + k)
        {
          var n := 4 * i + 2 * j + k;
          var x := i as real * bbox.max.x + (1.0 - i as real) * bbox.min.x;
          var y := j as real * bbox.max.y + (1.0 - j as real) * bbox.min.y;
          var z := k as real * bbox.max.z + (1.0 - k as real) * bbox.min.z;
          var newX := c * x + s * z;
          var newZ := -s * x + c * z;
          var tester := Vec3(newX, y, newZ);
          assert tester == NthTester(bbox, s, c, n) by {
            assert n / 4 == i && n / 2 % 2 == j && n % 2 == k;
          }
          min, max := Absorb(bbox, s, c, min, max, n, tester);
        }
      }
    }
    rotated := AABB(min, max);
  }

  /** Rotation about y leaves heights alone, so for a child box whose y extent
      is ordered and finite the rotated box has the same y extent. */
  lemma RotatedKeepsYExtent(bbox: AABB, s: real, c: real, rotated: AABB)
    requires -F32Max <= bbox.min.y <= bbox.max.y <= F32Max
    requires CornerBounds(bbox, s, c, rotated.min, rotated.max, 8)
    ensures rotated.min.y == bbox.min.y && rotated.max.y == bbox.max.y
  {
    var lo, hi := rotated.min.At(1), rotated.max.At(1);
    assert AxisBounds(bbox, s, c, lo, hi, 1, 8);
    TesterHeight(bbox, s, c, 0);
    TesterHeight(bbox, s, c, 2);
    assert lo <= NthTester(bbox, s, c, 0).At(1) && NthTester(bbox, s, c, 2).At(1) <= hi;
    if lo != F32Max {
      var k :| 0 <= k < 8 && lo == NthTester(bbox, s, c, k).At(1);
      TesterHeight(bbox, s, c, k);
    }
    if hi != -F32Max {
      var k :| 0 <= k < 8 && hi == NthTester(bbox, s, c, k).At(1);
      TesterHeight(bbox, s, c, k);
    }
  }

  /** A tester's height is the bottom or the top of the box, as its j bit says. */
  lemma TesterHeight(bbox: AABB, s: real, c: real, n: nat)
    ensures NthTester(bbox, s, c, n).y == if n / 2 % 2 == 0 then bbox.min.y else bbox.max.y
  {
    var j := n / 2 % 2;
    if j == 0 {
      assert Corner(bbox, n / 4, j, n % 2).y == bbox.min.y;
    } else {
      assert j == 1;
      assert Corner(bbox, n / 4, j, n % 2).y == bbox.max.y;
    }
  }
}
