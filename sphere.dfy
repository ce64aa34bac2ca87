/** Sphere and moving-sphere intersection of src/sphere.rs: the quadratic's
    roots and which one is reported. */
module Spheres {
  import opened Numerics
  import opened Options
  import opened Vectors
  import opened Rays
  import opened Aabb
  import opened HitRecords
  import opened RealFacts

  /** The coefficients a, b, c of a·t² + 2·b·t + c, whose roots are the
      parameters where the ray meets the sphere (b is the half coefficient). */
  function Coefficients(center: Vec3, radius: real, r: Ray): (real, real, real) {
    var oc := r.origin.Minus(center);
    (r.direction.Dot(r.direction), oc.Dot(r.direction), oc.Dot(oc) - radius * radius)
  }

  function Discriminant(center: Vec3, radius: real, r: Ray): real {
    QuadDiscriminant(Coefficients(center, radius, r))
  }

  /** b² − a·c of the half-coefficient quadratic a·t² + 2·b·t + c. */
  function QuadDiscriminant(q: (real, real, real)): real {
    q.1 * q.1 - q.0 * q.2
  }

  /** temp1, the nearer root. */
  function NearRoot(center: Vec3, radius: real, r: Ray, m: Math): real {
    var (a, b, _) := Coefficients(center, radius, r);
    Quot(-b - m.sqrt(Discriminant(center, radius, r)), a)
  }

  /** temp2, the farther root. */
  function FarRoot(center: Vec3, radius: real, r: Ray, m: Math): real {
    var (a, b, _) := Coefficients(center, radius, r);
    Quot(-b + m.sqrt(Discriminant(center, radius, r)), a)
  }

  /** The open window test `t_max > t && t > t_min`. */
  predicate InWindow(t: real, tMin: real, tMax: real) {
    tMax > t && t > tMin
  }

  /** The ray's point at t lies on the sphere. */
  predicate OnSphere(center: Vec3, radius: real, r: Ray, t: real) {
    PointAtParameter(r, t).Minus(center).SquaredLength() == radius * radius
  }

  /** `Sphere::hit`: the nearer root if it is strictly inside the window, else
      the farther one if it is; no hit when the discriminant is not positive.
      The source builds the record without u and v; the model sets them to 0. */
  function Hit<M>(center: Vec3, radius: real, material: M, r: Ray, tMin: real, tMax: real, m: Math)
    : (rec: Option<HitRecord<M>>)
    ensures Discriminant(center, radius, r) <= 0.0 ==> rec.None?
    ensures rec.Some? ==> InWindow(rec.value.t, tMin, tMax)
    ensures rec.Some? ==>
      rec.value.t == if InWindow(NearRoot(center, radius, r, m), tMin, tMax)
                     then NearRoot(center, radius, r, m) else FarRoot(center, radius, r, m)
    ensures rec.None? && Discriminant(center, radius, r) > 0.0 ==>
      !InWindow(NearRoot(center, radius, r, m), tMin, tMax) && !InWindow(FarRoot(center, radius, r, m), tMin, tMax)
    ensures rec.Some? ==>
      && rec.value.p == PointAtParameter(r, rec.value.t)
      && rec.value.normal == rec.value.p.Minus(center).Div(radius)
      && rec.value.material == material
  {
    var discriminant := Discriminant(center, radius, r);
    if discriminant > 0.0 then
      var temp1 := NearRoot(center, radius, r, m);
      var temp2 := FarRoot(center, radius, r, m);
      var b1 := InWindow(temp1, tMin, tMax);
      var b2 := InWindow(temp2, tMin, tMax);
      if b1 || b2 then
        var t := if b1 then temp1 else temp2;
        var p := PointAtParameter(r, t);
        Some(HitRecord(t, 0.0, 0.0, p, p.Minus(center).Div(radius), material))
      else
        None
    else
      None
  }

  /** The squared distance from the sphere's surface along the ray is the quadratic. */
  lemma SurfaceQuadratic(center: Vec3, radius: real, r: Ray, t: real)
    ensures var (a, b, c) := Coefficients(center, radius, r);
      PointAtParameter(r, t).Minus(center).SquaredLength() - radius * radius == a * t * t + 2.0 * b * t + c
  {
    var oc := r.origin.Minus(center);
    var d := r.direction;
    assert PointAtParameter(r, t).Minus(center) == oc.Plus(d.Scale(t));
  }

  /** A positive discriminant forces a non-zero direction, so a > 0. */
  lemma PositiveDiscriminantLeading(center: Vec3, radius: real, r: Ray)
    requires Discriminant(center, radius, r) > 0.0
    ensures Coefficients(center, radius, r).0 > 0.0
  {
    DotSelfNonNegative(r.direction);
    ZeroSquares(r.direction);
    FlatWithoutDirection(center, radius, r);
  }

  lemma FlatWithoutDirection(center: Vec3, radius: real, r: Ray)
    ensures r.direction == Zero ==> Discriminant(center, radius, r) == 0.0
  {
    var q := Coefficients(center, radius, r);
    if r.direction == Zero {
      assert q.0 == 0.0 && q.1 == 0.0;
      FlatScalar(q);
    }
  }

  lemma FlatScalar(q: (real, real, real))
    requires q.0 == 0.0 && q.1 == 0.0
    ensures QuadDiscriminant(q) == 0.0
  {
  }

  /** With a > 0 and sqrt non-negative, temp1 <= temp2. */
  lemma RootsOrdered(center: Vec3, radius: real, r: Ray, m: Math)
    requires SqrtLaw(m) && Discriminant(center, radius, r) > 0.0
    ensures NearRoot(center, radius, r, m) <= FarRoot(center, radius, r, m)
  {
    PositiveDiscriminantLeading(center, radius, r);
    var (a, b, _) := Coefficients(center, radius, r);
    var s := m.sqrt(Discriminant(center, radius, r));
    assert s >= 0.0;
    var near, far := NearRoot(center, radius, r, m), FarRoot(center, radius, r, m);
    assert near * a == -b - s && far * a == -b + s;
    OrderByPositive(near, far, a);
  }

  /** The roots of a·t² + 2·b·t + c for a > 0 and s = √(b² − a·c). */
  lemma ScalarQuadraticRoots(a: real, b: real, c: real, s: real, t: real)
    requires a > 0.0 && s * s == b * b - a * c
    ensures a * t * t + 2.0 * b * t + c == 0.0 <==> t * a == -b - s || t * a == -b + s
  {
    var q := a * t * t + 2.0 * b * t + c;
    var u := a * t + b;
    CompletedSquare(a, b, c, t);
    assert a * q == u * u - s * s;
    assert u * u - s * s == (u - s) * (u + s);
    ProductZero(a, q);
    ProductZero(u - s, u + s);
  }

  /** Both roots of a positive discriminant solve the quadratic, and no other t does. */
  lemma QuadraticRoots(center: Vec3, radius: real, r: Ray, m: Math, t: real)
    requires SqrtLaw(m) && Discriminant(center, radius, r) > 0.0
    ensures var (a, b, c) := Coefficients(center, radius, r);
      a * t * t + 2.0 * b * t + c == 0.0 <==>
        t == NearRoot(center, radius, r, m) || t == FarRoot(center, radius, r, m)
  {
    PositiveDiscriminantLeading(center, radius, r);
    var (a, b, c) := Coefficients(center, radius, r);
    var s := m.sqrt(Discriminant(center, radius, r));
    assert s * s == b * b - a * c;
    assert NearRoot(center, radius, r, m) == Quot(-b - s, a);
    assert FarRoot(center, radius, r, m) == Quot(-b + s, a);
    ScalarRootsAreQuotients(a, b, c, s, t);
  }

  /** The roots of a·t² + 2·b·t + c for a > 0 are (−b ∓ s)/a. */
  lemma ScalarRootsAreQuotients(a: real, b: real, c: real, s: real, t: real)
    requires a > 0.0 && s * s == b * b - a * c
    ensures a * t * t + 2.0 * b * t + c == 0.0 <==> t == Quot(-b - s, a) || t == Quot(-b + s, a)
  {
    var near, far := Quot(-b - s, a), Quot(-b + s, a);
    assert near * a == -b - s && far * a == -b + s;
    ScalarQuadraticRoots(a, b, c, s, t);
    if t * a == -b - s {
      Cancel(t, near, a);
    }
    if t * a == -b + s {
      Cancel(t, far, a);
    }
  }

  lemma CompletedSquare(a: real, b: real, c: real, t: real)
    ensures a * (a * t * t + 2.0 * b * t + c) == (a * t + b) * (a * t + b) - (b * b - a * c)
  {
  }

  /** The reported t is the nearest parameter strictly inside the window at
      which the ray meets the sphere. Without a hit, the ray does not meet the
      sphere inside the window unless it only grazes it (zero discriminant):
      that tangent case is the one the strict `discriminant > 0.` test drops. */
  lemma HitIsNearestIntersection<M>(center: Vec3, radius: real, material: M, r: Ray, tMin: real, tMax: real, m: Math)
    requires SqrtLaw(m)
    ensures var rec := Hit(center, radius, material, r, tMin, tMax, m);
      && (rec.Some? ==> OnSphere(center, radius, r, rec.value.t))
      && (rec.Some? ==> forall t :: InWindow(t, tMin, tMax) && OnSphere(center, radius, r, t) ==> rec.value.t <= t)
      && (rec.None? ==>
            forall t :: InWindow(t, tMin, tMax) && OnSphere(center, radius, r, t) ==> Discriminant(center, radius, r) == 0.0)
  {
    var rec := Hit(center, radius, material, r, tMin, tMax, m);
    if Discriminant(center, radius, r) > 0.0 {
      RootsOrdered(center, radius, r, m);
      forall t | true
        ensures OnSphere(center, radius, r, t) <==>
          t == NearRoot(center, radius, r, m) || t == FarRoot(center, radius, r, m)
      {
        SurfaceQuadratic(center, radius, r, t);
        QuadraticRoots(center, radius, r, m, t);
      }
    } else if Discriminant(center, radius, r) < 0.0 {
      forall t | true
        ensures !OnSphere(center, radius, r, t)
      {
        NoRealRoot(center, radius, r, t);
      }
    }
  }

  /** A reported hit lies on the sphere. */
  lemma HitOnSphere<M>(center: Vec3, radius: real, material: M, r: Ray, tMin: real, tMax: real, m: Math)
    requires SqrtLaw(m)
    ensures var rec := Hit(center, radius, material, r, tMin, tMax, m);
      rec.Some? ==> OnSphere(center, radius, r, rec.value.t)
  {
    var rec := Hit(center, radius, material, r, tMin, tMax, m);
    if rec.Some? {
      SurfaceQuadratic(center, radius, r, rec.value.t);
      QuadraticRoots(center, radius, r, m, rec.value.t);
    }
  }

  /** A negative discriminant: the ray never meets the sphere. */
  lemma NoRealRoot(center: Vec3, radius: real, r: Ray, t: real)
    requires Discriminant(center, radius, r) < 0.0
    ensures !OnSphere(center, radius, r, t)
  {
    var (a, b, c) := Coefficients(center, radius, r);
    DotSelfNonNegative(r.direction);
    ZeroSquares(r.direction);
    FlatWithoutDirection(center, radius, r);
    SurfaceQuadratic(center, radius, r, t);
    ScalarNoRoot(a, b, c, t);
  }

  /** A ray that grazes the sphere (zero discriminant, moving ray) touches it at
      t = −b/a, yet `hit` reports nothing for any window, even one holding that t. */
  lemma TangentMissed<M>(center: Vec3, radius: real, material: M, r: Ray, tMin: real, tMax: real, m: Math)
    requires Discriminant(center, radius, r) == 0.0 && r.direction != Zero
    ensures var (a, b, _) := Coefficients(center, radius, r);
      && OnSphere(center, radius, r, Quot(-b, a))
      && Hit(center, radius, material, r, tMin, tMax, m).None?
  {
    var (a, b, c) := Coefficients(center, radius, r);
    DotSelfNonNegative(r.direction);
    ZeroSquares(r.direction);
    var t := Quot(-b, a);
    assert t * a == -b;
    SurfaceQuadratic(center, radius, r, t);
    ScalarDoubleRoot(a, b, c, t);
  }

  /** a·t² + 2·b·t + c has no root when a > 0 and b² − a·c < 0. */
  lemma ScalarNoRoot(a: real, b: real, c: real, t: real)
    requires a > 0.0 && b * b - a * c < 0.0
    ensures a * t * t + 2.0 * b * t + c != 0.0
  {
    var u := a * t + b;
    CompletedSquare(a, b, c, t);
    SquareNonNegative(u);
    ProductZero(a, a * t * t + 2.0 * b * t + c);
  }

  /** With b² − a·c = 0, t·a = −b is a (double) root. */
  lemma ScalarDoubleRoot(a: real, b: real, c: real, t: real)
    requires a > 0.0 && b * b - a * c == 0.0 && t * a == -b
    ensures a * t * t + 2.0 * b * t + c == 0.0
  {
    CompletedSquare(a, b, c, t);
    assert a * t + b == 0.0;
    ProductZero(a, a * t * t + 2.0 * b * t + c);
  }

  /** Hit points lie on the sphere, so for a non-zero radius the normal is a unit vector. */
  lemma UnitNormal<M>(center: Vec3, radius: real, material: M, r: Ray, tMin: real, tMax: real, m: Math)
    requires SqrtLaw(m) && radius != 0.0
    ensures var rec := Hit(center, radius, material, r, tMin, tMax, m);
      rec.Some? ==> rec.value.normal.SquaredLength() == 1.0
  {
    var rec := Hit(center, radius, material, r, tMin, tMax, m);
    if rec.Some? {
      HitOnSphere(center, radius, material, r, tMin, tMax, m);
      UnitOverRadius(rec.value.p.Minus(center), radius);
    }
  }

  /** A vector as long as the radius, divided by the radius, is a unit vector. */
  lemma UnitOverRadius(q: Vec3, radius: real)
    requires radius != 0.0 && q.SquaredLength() == radius * radius
    ensures q.Div(radius).SquaredLength() == 1.0
  {
    var sq := q.SquaredLength();
    SquarePositive(radius);
    calc {
      sq;
    ==
      radius * radius;
    >
      0.0;
    }
    DivSquaredLength(q, radius);
    UnitFromLength(q.Div(radius).SquaredLength(), radius, sq);
  }

  /** Narrowing the window's far end to a point past the hit keeps the same
      hit: the property the scene list's closest-so-far search relies on. */
  lemma WindowNarrowing<M>(center: Vec3, radius: real, material: M, r: Ray, tMin: real, t1: real, t2: real, m: Math)
    requires t2 <= t1
    ensures var wide := Hit(center, radius, material, r, tMin, t1, m);
            var narrow := Hit(center, radius, material, r, tMin, t2, m);
      wide.Some? && wide.value.t < t2 ==> narrow == wide
  {
  }

  /** Widening the window's far end keeps a hit found in the narrower window:
      with temp1 <= temp2 no nearer root can appear. */
  lemma WindowWidening<M>(center: Vec3, radius: real, material: M, r: Ray, tMin: real, t1: real, t2: real, m: Math)
    requires SqrtLaw(m) && t2 <= t1
    ensures var wide := Hit(center, radius, material, r, tMin, t1, m);
            var narrow := Hit(center, radius, material, r, tMin, t2, m);
      narrow.Some? ==> wide == narrow
  {
    if Discriminant(center, radius, r) > 0.0 {
      RootsOrdered(center, radius, r, m);
    }
  }

  /** `center_at_time`: linear interpolation between the two centres over [time0, time1]. */
  function CenterAtTime(center0: Vec3, center1: Vec3, time0: real, time1: real, time: real): (c: Vec3)
    ensures time == time0 ==> c == center0
    ensures time == time1 && time1 != time0 ==> c == center1
  {
    center0.Plus(center1.Minus(center0).Scale(Quot(time - time0, time1 - time0)))
  }

  /** The sphere's box, centre ± (r, r, r); it ignores the time arguments. */
  function Box(center: Vec3, radius: real): AABB {
    var rr := Vec3(radius, radius, radius);
    AABB(center.Minus(rr), center.Plus(rr))
  }

  /** Every point of a sphere of non-negative radius lies in its box. */
  lemma BoxBoundsSphere(center: Vec3, radius: real, q: Vec3)
    requires radius >= 0.0 && q.Minus(center).SquaredLength() <= radius * radius
    ensures var b := Box(center, radius);
      forall i :: 0 <= i < 3 ==> b.min.At(i) <= q.At(i) <= b.max.At(i)
  {
    var e := q.Minus(center);
    DotSelfNonNegative(e);
    SquareBound(e.x, radius);
    SquareBound(e.y, radius);
    SquareBound(e.z, radius);
  }

  lemma SquareBound(x: real, r: real)
    requires r >= 0.0 && x * x <= r * r
    ensures -r <= x <= r
  {
    if x > r {
      SquareGrows(r, x);
    } else if x < -r {
      SquareGrowsNegative(r, x);
    }
  }

  lemma SquareGrows(r: real, x: real)
    requires 0.0 <= r < x
    ensures r * r < x * x
  {
    assert x * x - r * r == (x - r) * (x + r);
    MulPositive(x - r, x + r);
  }

  lemma SquareGrowsNegative(r: real, x: real)
    requires x < -r && 0.0 <= r
    ensures r * r < x * x
  {
    SquareGrows(r, -x);
    assert (-x) * (-x) == x * x;
  }

}
