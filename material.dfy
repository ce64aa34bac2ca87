/** Surface response of src/material.rs: scatter and emission per material,
    with the reflection, refraction and Schlick helpers. Random draws are inputs. */
module Materials {
  import opened Numerics
  import opened Options
  import opened Vectors
  import opened Rays
  import opened HitRecords
  import opened Textures

  /** Isotropic is the phase function of a constant medium (src/medium.rs);
      its definition is not in material.rs. */
  datatype Material =
    | Lambertian(albedo: Texture)
    | Metal(color: Vec3, fuzz: real)
    | Dielectric(refractIdx: real)
    | DiffuseLight(emit: Texture)
    | Isotropic(albedo: Texture)

  datatype ScatterRecord = ScatterRecord(attenuation: Vec3, scattered: Ray)

  /** `reflect(v, n) = v - 2 (v·n) n`. */
  function Reflect(v: Vec3, n: Vec3): Vec3 {
    v.Minus(n.Scale(2.0 * v.Dot(n)))
  }

  /** Against a unit normal, reflection negates the normal component of v. */
  lemma ReflectNegatesNormalComponent(v: Vec3, n: Vec3)
    requires n.SquaredLength() == 1.0
    ensures Reflect(v, n).Dot(n) == -v.Dot(n)
  {
    var k := 2.0 * v.Dot(n);
    assert n.Scale(k).Dot(n) == k * n.SquaredLength();
  }

  /** Against a unit normal, reflecting twice gives v back. */
  lemma ReflectInvolution(v: Vec3, n: Vec3)
    requires n.SquaredLength() == 1.0
    ensures Reflect(Reflect(v, n), n) == v
  {
    ReflectNegatesNormalComponent(v, n);
    var w := Reflect(v, n);
    var k := 2.0 * v.Dot(n);
    assert w.Dot(n) == -v.Dot(n);
    assert Reflect(w, n) == w.Minus(n.Scale(-k));
  }

  /** The Snell discriminant `1 - r^2 (1 - dt^2)` for the unit incoming direction. */
  function RefractDiscriminant(v: Vec3, n: Vec3, niOverNt: real, m: Math): real {
    var dt := UnitVector(v, m).Dot(n);
    1.0 - niOverNt * niOverNt * (1.0 - dt * dt)
  }

  /** `refract`: the refracted direction, or None on total internal reflection. */
  function Refract(v: Vec3, n: Vec3, niOverNt: real, m: Math): (r: Option<Vec3>)
    ensures r.Some? <==> RefractDiscriminant(v, n, niOverNt, m) > 0.0
  {
    var uv := UnitVector(v, m);
    var dt := uv.Dot(n);
    var discriminant := RefractDiscriminant(v, n, niOverNt, m);
    if discriminant > 0.0 then
      Some(uv.Minus(n.Scale(dt)).Scale(niOverNt).Minus(n.Scale(m.sqrt(discriminant))))
    else
      None
  }

  /** Schlick's reflectance at normal incidence, `((1 - idx) / (1 + idx))^2`. */
  function NormalReflectance(refractIdx: real): (r0: real)
    ensures 0.0 <= r0
    ensures refractIdx > 0.0 ==> r0 < 1.0
  {
    var q := Quot(1.0 - refractIdx, 1.0 + refractIdx);
    ReflectanceBelowOne(refractIdx, q);
    q * q
  }

  lemma ReflectanceBelowOne(refractIdx: real, q: real)
    requires q == Quot(1.0 - refractIdx, 1.0 + refractIdx)
    ensures refractIdx > 0.0 ==> -1.0 < q < 1.0 && q * q < 1.0
  {
    if refractIdx > 0.0 {
      var d := 1.0 + refractIdx;
      assert q * d == 1.0 - refractIdx;
      assert -d < q * d < d;
      QuotientBelowOne(q, d);
    }
  }

  /** -d < q·d < d with d > 0 places q in (-1, 1), so q² < 1. */
  lemma QuotientBelowOne(q: real, d: real)
    requires d > 0.0 && -d < q * d < d
    ensures -1.0 < q < 1.0 && q * q < 1.0
  {
    if q >= 0.0 {
      assert q * q <= q * 1.0;
    } else {
      assert q * q <= (-q) * 1.0;
    }
  }

  function Pow5(x: real): real {
    x * x * x * x * x
  }

  /** `schlick(cosine, idx) = r0 + (1 - r0)(1 - cosine)^5`. */
  function Schlick(cosine: real, refractIdx: real): real {
    var r0 := NormalReflectance(refractIdx);
    r0 + (1.0 - r0) * Pow5(1.0 - cosine)
  }

  /** At cosine 1 Schlick's approximation is the normal-incidence reflectance. */
  lemma SchlickAtNormalIncidence(refractIdx: real)
    ensures Schlick(1.0, refractIdx) == NormalReflectance(refractIdx)
  {
  }

  /** For a positive index and a cosine in [0, 1] the reflectance lies in [r0, 1]. */
  lemma SchlickBounds(cosine: real, refractIdx: real)
    requires refractIdx > 0.0 && 0.0 <= cosine <= 1.0
    ensures NormalReflectance(refractIdx) <= Schlick(cosine, refractIdx) <= 1.0
  {
    var r0 := NormalReflectance(refractIdx);
    var x := 1.0 - cosine;
    ScaleWithinUnit(x, x);
    ScaleWithinUnit(x * x, x);
    ScaleWithinUnit(x * x * x, x);
    ScaleWithinUnit(x * x * x * x, x);
    ScaleWithinUnit(1.0 - r0, Pow5(x));
  }

  /** 0 <= c and 0 <= f <= 1 give 0 <= c·f <= c. */
  lemma ScaleWithinUnit(c: real, f: real)
    requires 0.0 <= c && 0.0 <= f <= 1.0
    ensures 0.0 <= c * f <= c
  {
  }

  /** One rejection-sampling candidate: `2 (r1, r2, r3) - (1, 1, 1)`. */
  function SphereCandidate(draw: Vec3): Vec3 {
    draw.Scale(2.0).Minus(One)
  }

  /** `random_in_unit_sphere`: starting from `Vec3::make_unit_vector()` (taken
      to be (1, 1, 1), which lies outside), candidates are drawn until one has
      squared length at most 1. The draws are an input; the source assumes the
      generator eventually yields an accepted candidate. */
  method RandomInUnitSphere(draws: seq<Vec3>) returns (p: Vec3)
    requires exists k :: 0 <= k < |draws| && SphereCandidate(draws[k]).SquaredLength() <= 1.0
    ensures p.SquaredLength() <= 1.0
    ensures exists k :: 0 <= k < |draws| && p == SphereCandidate(draws[k]) &&
                        (forall e :: 0 <= e < k ==> SphereCandidate(draws[e]).SquaredLength() > 1.0)
  {
    p := One;
    var i := 0;
    while p.SquaredLength() > 1.0
      invariant 0 <= i <= |draws|
      invariant forall e :: 0 <= e < i - 1 ==> SphereCandidate(draws[e]).SquaredLength() > 1.0
      invariant i == 0 ==> p == One
      invariant i > 0 ==> p == SphereCandidate(draws[i - 1])
      decreases |draws| - i
    {
      assert forall e :: 0 <= e < i ==> SphereCandidate(draws[e]).SquaredLength() > 1.0;
      p := SphereCandidate(draws[i]);
      i := i + 1;
    }
  }

  /** `emitted`: the light's texture value for DiffuseLight, zero for the rest. */
  function Emitted(mat: Material, u: real, v: real, p: Vec3, m: Math): (e: Vec3)
    ensures mat.DiffuseLight? ==> e == Value(mat.emit, u, v, p, m)
    ensures !mat.DiffuseLight? ==> e == Zero
  {
    match mat
    case DiffuseLight(emit) => Value(emit, u, v, p, m)
    case _ => Zero
  }

  /** The frame Dielectric::scatter picks: the outward normal, the index ratio
      and the cosine, by the side the ray arrives from. */
  function DielectricFrame(refractIdx: real, rIn: Ray, normal: Vec3, m: Math): (real, Vec3, real)
  {
    var d := rIn.direction;
    if d.Dot(normal) > 0.0 then
      (refractIdx, normal.Neg(), Quot(refractIdx * d.Dot(normal), Length(d, m)))
    else
      (Quot(1.0, refractIdx), normal, Quot(-d.Dot(normal), Length(d, m)))
  }

  /** `scatter` for every material; `inSphere` is the point random_in_unit_sphere
      returned and `draw` the uniform number Dielectric compares with Schlick's
      reflectance. */
  function Scatter(mat: Material, rIn: Ray, rec: HitRecord<Material>, inSphere: Vec3, draw: real, m: Math)
    : (s: Option<ScatterRecord>)
    // Lambertian and Isotropic always scatter from the hit point, at the ray's time,
    // attenuated by their texture at (u, v, p).
    ensures (mat.Lambertian? || mat.Isotropic?) ==>
      s.Some? && s.value.scattered.origin == rec.p && s.value.scattered.time == rIn.time &&
      s.value.attenuation == Value(mat.albedo, rec.u, rec.v, rec.p, m)
    ensures mat.Lambertian? ==> s.value.scattered.direction == rec.normal.Plus(inSphere)
    // Metal: attenuation is the albedo, fuzz is capped at 1, and it scatters
    // exactly when the fuzzed reflection leaves on the normal's side.
    ensures mat.Metal? ==>
      var f := if mat.fuzz < 1.0 then mat.fuzz else 1.0;
      var dir := Reflect(UnitVector(rIn.direction, m), rec.normal).Plus(inSphere.Scale(f));
      && f <= 1.0
      && (s.Some? <==> dir.Dot(rec.normal) > 0.0)
      && (s.Some? ==> s.value == ScatterRecord(mat.color, Ray(rec.p, dir, rIn.time)))
    // Dielectric: always scatters, never absorbs, from the hit point at the
    // ray's time, either reflected or refracted; reflected on total internal reflection.
    ensures mat.Dielectric? ==>
      var (niOverNt, outward, cosine) := DielectricFrame(mat.refractIdx, rIn, rec.normal, m);
      var refracted := Refract(rIn.direction, outward, niOverNt, m);
      && s.Some? && s.value.attenuation == One
      && s.value.scattered.origin == rec.p && s.value.scattered.time == rIn.time
      && (refracted.None? ==> s.value.scattered.direction == Reflect(rIn.direction, rec.normal))
      && (refracted.Some? ==>
            s.value.scattered.direction ==
              if draw > Schlick(cosine, mat.refractIdx) then refracted.value else Reflect(rIn.direction, rec.normal))
    // A light never scatters.
    ensures mat.DiffuseLight? ==> s.None?
  {
    match mat
    case Lambertian(albedo) =>
      var target := rec.p.Plus(rec.normal).Plus(inSphere);
      var scattered := Ray(rec.p, target.Minus(rec.p), rIn.time);
      assert scattered.direction == rec.normal.Plus(inSphere);
      Some(ScatterRecord(Value(albedo, rec.u, rec.v, rec.p, m), scattered))
    case Metal(color, fuzz) =>
      var f := if fuzz < 1.0 then fuzz else 1.0;
      var reflected := Reflect(UnitVector(rIn.direction, m), rec.normal);
      var scattered := Ray(rec.p, reflected.Plus(inSphere.Scale(f)), rIn.time);
      if scattered.direction.Dot(rec.normal) > 0.0 then Some(ScatterRecord(color, scattered)) else None
    case Dielectric(refractIdx) =>
      var reflected := Reflect(rIn.direction, rec.normal);
      var (niOverNt, outward, cosine) := DielectricFrame(refractIdx, rIn, rec.normal, m);
      (match Refract(rIn.direction, outward, niOverNt, m)
       case Some(refracted) =>
         if draw > Schlick(cosine, refractIdx) then Some(ScatterRecord(One, Ray(rec.p, refracted, rIn.time)))
         else Some(ScatterRecord(One, Ray(rec.p, reflected, rIn.time)))
       case None => Some(ScatterRecord(One, Ray(rec.p, reflected, rIn.time))))
    case DiffuseLight(_) => None
    case Isotropic(albedo) =>
      Some(ScatterRecord(Value(albedo, rec.u, rec.v, rec.p, m), Ray(rec.p, inSphere, rIn.time)))
  }

  /** Dielectric's frame: against the normal when the ray leaves through the
      surface (dir·n > 0) with ratio idx, along it otherwise with ratio 1/idx. */
  lemma DielectricFrameChoice(refractIdx: real, rIn: Ray, normal: Vec3, m: Math)
    requires refractIdx != 0.0
    ensures var (niOverNt, outward, _) := DielectricFrame(refractIdx, rIn, normal, m);
      if rIn.direction.Dot(normal) > 0.0 then outward == normal.Neg() && niOverNt == refractIdx
      else outward == normal && niOverNt * refractIdx == 1.0
  {
  }
}
