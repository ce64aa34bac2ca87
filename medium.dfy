/** The constant-density participating medium of src/medium.rs, once its
    boundary has been queried twice: the clipping of the entry and exit
    parameters and the free-flight test. */
module Media {
  import opened Numerics
  import opened RealFacts
  import opened Options
  import opened Vectors
  import opened Rays
  import opened HitRecords

  /** `hit_distance`: −(1/density) divided by the logarithm of the uniform draw
      (the source divides by ln u; `lnU` is that logarithm). */
  function HitDistance(density: real, lnU: real): (d: real)
    ensures density > 0.0 && lnU < 0.0 ==> d > 0.0
    ensures density != 0.0 && lnU != 0.0 ==> d * lnU * density == -1.0
  {
    var inv := Quot(1.0, density);
    QuotientSigns(inv, density, lnU);
    Quot(-inv, lnU)
  }

  lemma QuotientSigns(inv: real, density: real, lnU: real)
    requires inv == Quot(1.0, density)
    ensures density > 0.0 && lnU < 0.0 ==> Quot(-inv, lnU) > 0.0
    ensures density != 0.0 && lnU != 0.0 ==> Quot(-inv, lnU) * lnU * density == -1.0
  {
    var q := Quot(-inv, lnU);
    if density > 0.0 && lnU < 0.0 {
      assert inv * density == 1.0;
      assert inv > 0.0 by {
        if inv <= 0.0 {
          MulNonNegative(-inv, density);
        }
      }
      assert q * lnU == -inv;
      if q <= 0.0 {
        MulNonNegative(-q, -lnU);
      }
    }
  }

  /** The entry parameter after both clamps: raised to t_min, then to 0. */
  function Entry(entry: real, tMin: real): (e: real)
    ensures e >= entry && e >= tMin && e >= 0.0
    ensures e == entry || e == tMin || e == 0.0
  {
    var e := if entry < tMin then tMin else entry;
    if e < 0.0 then 0.0 else e
  }

  /** The exit parameter lowered to t_max. */
  function Exit(exit: real, tMax: real): (x: real)
    ensures x <= exit && x <= tMax && (x == exit || x == tMax)
  {
    if exit > tMax then tMax else exit
  }

  /** The free-flight decision on the clipped segment: with `lo` the entry
      clipped to t_min, `e` that raised to 0, and `x` the clipped exit, the ray
      scatters at e + d/len when the segment is non-empty and the sampled
      distance d is shorter than the path (x − e)·len through it. */
  function FreeFlight(lo: real, e: real, x: real, d: real, len: real): Option<real> {
    if lo < x then
      var distanceInsideBoundary := (x - e) * len;
      if d < distanceInsideBoundary then Some(e + Quot(d, len)) else None
    else None
  }

  /** The body of `ConstantMedium::hit` after the two boundary hits at
      `entry` and `exit`: clip to the window, raise the entry to 0, and decide
      the free flight. The record has u = v = 0, normal (1, 0, 0) and the phase function. */
  function Sample<M>(entry: real, exit: real, r: Ray, tMin: real, tMax: real, hitDistance: real, phase: M, m: Math)
    : (rec: Option<HitRecord<M>>)
    ensures var lo := if entry < tMin then tMin else entry;
      rec.Some? <==> lo < Exit(exit, tMax) && hitDistance < (Exit(exit, tMax) - Entry(entry, tMin)) * Length(r.direction, m)
    ensures rec.Some? ==>
      && rec.value.p == PointAtParameter(r, rec.value.t)
      && rec.value.u == 0.0 && rec.value.v == 0.0
      && rec.value.normal == Vec3(1.0, 0.0, 0.0) && rec.value.material == phase
  {
    var lo := if entry < tMin then tMin else entry;
    match FreeFlight(lo, Entry(entry, tMin), Exit(exit, tMax), hitDistance, Length(r.direction, m))
    case Some(t) => Some(HitRecord(t, 0.0, 0.0, PointAtParameter(r, t), Vec3(1.0, 0.0, 0.0), phase))
    case None => None
  }

  /** With a non-negative sampled distance and a non-negative length, the ray
      scatters exactly when the clipped segment is non-empty and the sampled
      distance is shorter than the path through it; the scattering parameter
      then lies in [e, x), the path from e to it has exactly the sampled
      length, and the length is positive. */
  lemma FlightInside(lo: real, e: real, x: real, d: real, len: real)
    requires d >= 0.0 && len >= 0.0
    ensures FreeFlight(lo, e, x, d, len).Some? <==> lo < x && d < (x - e) * len
    ensures var f := FreeFlight(lo, e, x, d, len);
      f.Some? ==> e <= f.value < x && (f.value - e) * len == d && len > 0.0
  {
    var f := FreeFlight(lo, e, x, d, len);
    if f.Some? {
      assert d < (x - e) * len;
      assert len != 0.0;
      var q := Quot(d, len);
      assert q * len == d;
      FlightBounds(q, len, d, x - e);
    }
  }

  /** Narrowing the exit to a point past the flight keeps it. */
  lemma FlightNarrowing(lo: real, e: real, x1: real, x2: real, d: real, len: real)
    requires d >= 0.0 && len >= 0.0 && lo <= e
    ensures var f := FreeFlight(lo, e, x1, d, len);
      f.Some? && f.value < x2 ==> FreeFlight(lo, e, x2, d, len) == f
  {
    var f := FreeFlight(lo, e, x1, d, len);
    if f.Some? && f.value < x2 {
      FlightInside(lo, e, x1, d, len);
      StrictMulMonotone(f.value - e, x2 - e, len);
    }
  }

  /** Widening the exit keeps a flight found on the shorter segment. */
  lemma FlightWidening(lo: real, e: real, x1: real, x2: real, d: real, len: real)
    requires len >= 0.0 && x2 <= x1
    ensures var f := FreeFlight(lo, e, x2, d, len);
      f.Some? ==> FreeFlight(lo, e, x1, d, len) == f
  {
    MulMonotone(x2 - e, x1 - e, len);
  }

  /** With a non-negative sampled distance, the scattering parameter lies in
      the clipped segment [entry, exit) and the path from the entry to it has
      exactly the sampled length. */
  lemma SampleInsideSegment<M>(entry: real, exit: real, r: Ray, tMin: real, tMax: real, hitDistance: real, phase: M, m: Math)
    requires SqrtLaw(m) && hitDistance >= 0.0
    ensures var rec := Sample(entry, exit, r, tMin, tMax, hitDistance, phase, m);
      rec.Some? ==>
        && Entry(entry, tMin) <= rec.value.t < Exit(exit, tMax)
        && (rec.value.t - Entry(entry, tMin)) * Length(r.direction, m) == hitDistance
  {
    DotSelfNonNegative(r.direction);
    var lo := if entry < tMin then tMin else entry;
    FlightInside(lo, Entry(entry, tMin), Exit(exit, tMax), hitDistance, Length(r.direction, m));
  }

  /** The sample depends on t_max only through the clipped exit: narrowing the
      window to a point past the sample, or widening it, keeps the same record. */
  lemma SampleWindowStable<M>(entry: real, exit: real, r: Ray, tMin: real, t1: real, t2: real, hitDistance: real, phase: M, m: Math)
    requires SqrtLaw(m) && hitDistance >= 0.0 && t2 <= t1
    ensures var wide := Sample(entry, exit, r, tMin, t1, hitDistance, phase, m);
            var narrow := Sample(entry, exit, r, tMin, t2, hitDistance, phase, m);
      && (wide.Some? && wide.value.t < t2 ==> narrow == wide)
      && (narrow.Some? ==> wide == narrow)
  {
    DotSelfNonNegative(r.direction);
    var lo := if entry < tMin then tMin else entry;
    var e, len := Entry(entry, tMin), Length(r.direction, m);
    var x1, x2 := Exit(exit, t1), Exit(exit, t2);
    FlightInside(lo, e, x1, hitDistance, len);
    FlightNarrowing(lo, e, x1, x2, hitDistance, len);
    FlightWidening(lo, e, x1, x2, hitDistance, len);
  }

  lemma StrictMulMonotone(x: real, y: real, a: real)
    requires x < y && a > 0.0
    ensures x * a < y * a
  {
    MulPositive(y - x, a);
  }

  lemma MulMonotone(x: real, y: real, a: real)
    requires x <= y && a >= 0.0
    ensures x * a <= y * a
  {
    MulNonNegative(y - x, a);
  }

  lemma FlightBounds(q: real, len: real, d: real, span: real)
    requires len > 0.0 && d >= 0.0 && q * len == d && d < span * len
    ensures 0.0 <= q < span
  {
    if q < 0.0 {
      MulPositive(-q, len);
    }
    StrictOrderByPositive(q, span, len);
  }
}
