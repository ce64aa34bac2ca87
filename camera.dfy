/** src/camera.rs: the thin-lens camera with a shutter interval. */
module Cameras {
  import opened Numerics
  import opened Vectors
  import opened Rays
  import RealFacts

  datatype Camera = Camera(origin: Vec3, lowerLeftCorner: Vec3, horizontal: Vec3, vertical: Vec3,
                           u: Vec3, v: Vec3, w: Vec3, lensRadius: real, time0: real, time1: real)

  /** `Camera::new`. The basis (u, v, w) is pairwise orthogonal for every
      input; the viewport lies at the focus distance along −w, centred on the
      view axis, with v = w × u and a width `aspect` times its height. */
  function NewCamera(lookfrom: Vec3, lookat: Vec3, vup: Vec3, vfov: real, aspect: real, aperture: real,
                     focusDist: real, t0: real, t1: real, m: Math): (cam: Camera)
    ensures cam.origin == lookfrom && cam.time0 == t0 && cam.time1 == t1
    ensures cam.lensRadius * 2.0 == aperture
    ensures cam.v == cam.w.Cross(cam.u)
    ensures cam.u.Dot(cam.w) == 0.0 && cam.v.Dot(cam.w) == 0.0 && cam.v.Dot(cam.u) == 0.0
    ensures cam.lowerLeftCorner.Plus(cam.horizontal.Scale(0.5)).Plus(cam.vertical.Scale(0.5))
            == cam.origin.Minus(cam.w.Scale(focusDist))
    ensures var height := 2.0 * m.tan(vfov * Pi / 180.0 / 2.0) * focusDist;
      cam.vertical == cam.v.Scale(height) && cam.horizontal == cam.u.Scale(aspect * height)
  {
    var lensRadius := aperture / 2.0;
    var theta := vfov * Pi / 180.0;
    var halfHeight := m.tan(theta / 2.0);
    var halfWidth := aspect * halfHeight;
    var w := UnitVector(lookfrom.Minus(lookat), m);
    var u := UnitVector(vup.Cross(w), m);
    var v := w.Cross(u);
    var lowerLeftCorner := lookfrom.Minus(u.Scale(halfWidth * focusDist)).Minus(v.Scale(halfHeight * focusDist)).Minus(w.Scale(focusDist));
    var horizontal := u.Scale(2.0 * halfWidth * focusDist);
    var vertical := v.Scale(2.0 * halfHeight * focusDist);
    CrossOrthogonal(vup, w);
    DivKeepsOrthogonal(vup.Cross(w), Length(vup.Cross(w), m), w);
    CrossOrthogonal(w, u);
    assert 2.0 * halfWidth * focusDist == aspect * (2.0 * halfHeight * focusDist);
    Camera(lookfrom, lowerLeftCorner, horizontal, vertical, u, v, w, lensRadius, t0, t1)
  }

  /** With a real square root, a look direction and an up vector not parallel
      to it, the camera basis is orthonormal: u, v and w have unit length. */
  lemma NewCameraOrthonormal(lookfrom: Vec3, lookat: Vec3, vup: Vec3, vfov: real, aspect: real,
                             aperture: real, focusDist: real, t0: real, t1: real, m: Math)
    requires SqrtLaw(m) && lookfrom != lookat
    requires vup.Cross(UnitVector(lookfrom.Minus(lookat), m)) != Zero
    ensures var cam := NewCamera(lookfrom, lookat, vup, vfov, aspect, aperture, focusDist, t0, t1, m);
      cam.w.SquaredLength() == 1.0 && cam.u.SquaredLength() == 1.0 && cam.v.SquaredLength() == 1.0
  {
    var cam := NewCamera(lookfrom, lookat, vup, vfov, aspect, aperture, focusDist, t0, t1, m);
    assert lookfrom.Minus(lookat) != Zero;
    UnitVectorIsUnit(lookfrom.Minus(lookat), m);
    UnitVectorIsUnit(vup.Cross(cam.w), m);
    CrossSquaredLength(cam.w, cam.u);
    assert cam.w.Dot(cam.u) == 0.0;
    assert cam.v.SquaredLength() == cam.w.SquaredLength() * cam.u.SquaredLength() - 0.0 * 0.0;
  }

  /** a × b is orthogonal to a and to b. */
  lemma CrossOrthogonal(a: Vec3, b: Vec3)
    ensures a.Cross(b).Dot(a) == 0.0 && a.Cross(b).Dot(b) == 0.0
  {
  }

  /** Dividing by a scalar (through Quot) keeps a vector orthogonal to b. */
  lemma DivKeepsOrthogonal(a: Vec3, k: real, b: Vec3)
    requires a.Dot(b) == 0.0
    ensures a.Div(k).Dot(b) == 0.0
  {
    if k != 0.0 {
      var q := a.Div(k);
      assert q.x * k == a.x && q.y * k == a.y && q.z * k == a.z;
      assert q.Dot(b) * k == a.Dot(b);
      RealFacts.ProductZero(q.Dot(b), k);
    }
  }

  /** A fraction r ∈ [0, 1] of a non-negative span d lies within [0, d]: the
      shutter time `time0 + r·(time1 − time0)` stays in the shutter interval. */
  lemma ShutterTimeInInterval(d: real, r: real)
    requires 0.0 <= r <= 1.0 && 0.0 <= d
    ensures 0.0 <= r * d <= d
  {
    RealFacts.MulNonNegative(r, d);
    RealFacts.MulNonNegative(1.0 - r, d);
    assert (1.0 - r) * d == d - r * d;
  }

  /** `random_in_unit_disk`'s candidate from the two uniform draws. */
  function DiskCandidate(d: (real, real)): (p: Vec3)
    ensures p.z == 0.0
    ensures 0.0 <= d.0 <= 1.0 && 0.0 <= d.1 <= 1.0 ==> -1.0 <= p.x <= 1.0 && -1.0 <= p.y <= 1.0
  {
    Vec3(2.0 * d.0, 2.0 * d.1, 0.0).Minus(Vec3(1.0, 1.0, 0.0))
  }

  /** `random_in_unit_disk`: starting from (1.1, 1.1, 1.1), which lies outside,
      candidates are drawn until one has squared length below 1. The draws are
      an input; the source assumes the generator eventually yields an accepted
      candidate. */
  method RandomInUnitDisk(draws: seq<(real, real)>) returns (p: Vec3)
    requires exists k :: 0 <= k < |draws| && DiskCandidate(draws[k]).SquaredLength() < 1.0
    ensures p.z == 0.0 && p.SquaredLength() < 1.0
    ensures exists k :: 0 <= k < |draws| && p == DiskCandidate(draws[k]) &&
                        (forall e :: 0 <= e < k ==> DiskCandidate(draws[e]).SquaredLength() >= 1.0)
  {
    p := Vec3(1.1, 1.1, 1.1);
    var i := 0;
    while p.SquaredLength() >= 1.0
      invariant 0 <= i <= |draws|
      invariant forall e :: 0 <= e < i - 1 ==> DiskCandidate(draws[e]).SquaredLength() >= 1.0
      invariant i == 0 ==> p == Vec3(1.1, 1.1, 1.1)
      invariant i > 0 ==> p == DiskCandidate(draws[i - 1])
      decreases |draws| - i
    {
      assert forall e :: 0 <= e < i ==> DiskCandidate(draws[e]).SquaredLength() >= 1.0;
      p := DiskCandidate(draws[i]);
      i := i + 1;
    }
  }

  /** The shutter time `time0 + r·(time1 − time0)` for the uniform draw r. */
  function ShutterTime(cam: Camera, r: real): (time: real)
    ensures 0.0 <= r <= 1.0 && cam.time0 <= cam.time1 ==> cam.time0 <= time <= cam.time1
    ensures r == 0.0 ==> time == cam.time0
  {
    var time := cam.time0 + r * (cam.time1 - cam.time0);
    if 0.0 <= r <= 1.0 && cam.time0 <= cam.time1 then
      ShutterTimeInInterval(cam.time1 - cam.time0, r);
      time
    else
      time
  }

  /** The lens offset `u·rd.x + v·rd.y` with rd = lensRadius·disk: it lies in
      the lens plane (orthogonal to w) and, for an orthonormal u, v and a point
      of the unit disk, within the lens radius of the origin. */
  function LensOffset(cam: Camera, disk: Vec3): (offset: Vec3)
    ensures cam.u.Dot(cam.w) == 0.0 && cam.v.Dot(cam.w) == 0.0 ==> offset.Dot(cam.w) == 0.0
    ensures cam.u.SquaredLength() == 1.0 && cam.v.SquaredLength() == 1.0 && cam.u.Dot(cam.v) == 0.0 &&
            disk.x * disk.x + disk.y * disk.y < 1.0 ==>
              offset.SquaredLength() <= cam.lensRadius * cam.lensRadius
  {
    var rd := disk.Scale(cam.lensRadius);
    var offset := cam.u.Scale(rd.x).Plus(cam.v.Scale(rd.y));
    OffsetInPlane(cam.u, cam.v, cam.w, rd.x, rd.y);
    assert offset == cam.u.Scale(cam.lensRadius * disk.x).Plus(cam.v.Scale(cam.lensRadius * disk.y));
    if cam.u.SquaredLength() == 1.0 && cam.v.SquaredLength() == 1.0 && cam.u.Dot(cam.v) == 0.0 &&
       disk.x * disk.x + disk.y * disk.y < 1.0 then
      OffsetWithinLens(cam.u, cam.v, cam.lensRadius, disk.x, disk.y);
      offset
    else
      offset
  }

  /** `Camera::get_ray`: the ray leaves a point of the lens, offset from the
      origin within the lens plane, and passes through the viewport point
      (s, t); its time is drawn from the shutter interval. `diskDraws` feed
      `random_in_unit_disk`, `timeDraw` is the uniform draw for the time. */
  method GetRay(cam: Camera, s: real, t: real, diskDraws: seq<(real, real)>, timeDraw: real)
    returns (ray: Ray)
    requires exists k :: 0 <= k < |diskDraws| && DiskCandidate(diskDraws[k]).SquaredLength() < 1.0
    ensures ray.origin.Plus(ray.direction)
            == cam.lowerLeftCorner.Plus(cam.horizontal.Scale(s)).Plus(cam.vertical.Scale(t))
    ensures 0.0 <= timeDraw <= 1.0 && cam.time0 <= cam.time1 ==> cam.time0 <= ray.time <= cam.time1
    ensures cam.u.Dot(cam.w) == 0.0 && cam.v.Dot(cam.w) == 0.0 ==>
              ray.origin.Minus(cam.origin).Dot(cam.w) == 0.0
    ensures cam.u.SquaredLength() == 1.0 && cam.v.SquaredLength() == 1.0 && cam.u.Dot(cam.v) == 0.0 ==>
              ray.origin.Minus(cam.origin).SquaredLength() <= cam.lensRadius * cam.lensRadius
  {
    var disk := RandomInUnitDisk(diskDraws);
    var offset := LensOffset(cam, disk);
    ray := Ray(cam.origin.Plus(offset),
               cam.lowerLeftCorner.Plus(cam.horizontal.Scale(s)).Plus(cam.vertical.Scale(t))
                 .Minus(cam.origin).Minus(offset),
               ShutterTime(cam, timeDraw));
    assert ray.origin.Minus(cam.origin) == offset;
  }

  /** a·u + b·v is orthogonal to w when u and v are. */
  lemma OffsetInPlane(u: Vec3, v: Vec3, w: Vec3, a: real, b: real)
    ensures u.Dot(w) == 0.0 && v.Dot(w) == 0.0 ==> u.Scale(a).Plus(v.Scale(b)).Dot(w) == 0.0
  {
    assert u.Scale(a).Plus(v.Scale(b)).Dot(w) == a * u.Dot(w) + b * v.Dot(w);
  }

  /** |a·u + b·v|² = a² + b² for an orthonormal pair u, v. */
  lemma OffsetInLens(u: Vec3, v: Vec3, a: real, b: real)
    requires u.SquaredLength() == 1.0 && v.SquaredLength() == 1.0 && u.Dot(v) == 0.0
    ensures u.Scale(a).Plus(v.Scale(b)).SquaredLength() == a * a + b * b
  {
    assert u.Scale(a).Plus(v.Scale(b)).SquaredLength()
        == a * a * u.SquaredLength() + b * b * v.SquaredLength() + 2.0 * a * b * u.Dot(v);
  }

  /** For an orthonormal pair u, v and a point (x, y) of the unit disk,
      |(r·x)·u + (r·y)·v|² ≤ r². */
  lemma OffsetWithinLens(u: Vec3, v: Vec3, r: real, x: real, y: real)
    requires u.SquaredLength() == 1.0 && v.SquaredLength() == 1.0 && u.Dot(v) == 0.0
    requires x * x + y * y < 1.0
    ensures u.Scale(r * x).Plus(v.Scale(r * y)).SquaredLength() <= r * r
  {
    var a, b := r * x, r * y;
    OffsetInLens(u, v, a, b);
    LensBound(r, x, y, a, b);
  }

  /** a² + b² ≤ r² for (a, b) = r·(x, y) with (x, y) in the unit disk. */
  lemma LensBound(r: real, x: real, y: real, a: real, b: real)
    requires x * x + y * y < 1.0 && a == r * x && b == r * y
    ensures a * a + b * b <= r * r
  {
    ScaledSquare(r, x, a);
    ScaledSquare(r, y, b);
    var rr, n := r * r, x * x + y * y;
    RealFacts.SquareNonNegative(r);
    RealFacts.MulNonNegative(rr, 1.0 - n);
    assert rr * (1.0 - n) == rr - rr * n;
    assert a * a + b * b == rr * n;
  }

  lemma ScaledSquare(r: real, x: real, a: real)
    requires a == r * x
    ensures a * a == (r * r) * (x * x)
  {
  }
}
