/** The parametric ray of src/ray.rs: origin, direction and time of cast. */
module Rays {
  import opened Vectors

  /** `Ray::new` is this constructor; the accessors are its fields. */
  datatype Ray = Ray(origin: Vec3, direction: Vec3, time: real)

  function PointAtParameter(r: Ray, t: real): Vec3 {
    r.origin.Plus(r.direction.Scale(t))
  }

  /** The point at parameter 0 is the origin. */
  lemma PointAtZero(r: Ray)
    ensures PointAtParameter(r, 0.0) == r.origin
  {
  }

  /** The point moves affinely in t: advancing by t adds t times the direction. */
  lemma PointAtAffine(r: Ray, s: real, t: real)
    ensures PointAtParameter(r, s + t) == PointAtParameter(r, s).Plus(r.direction.Scale(t))
  {
  }

  /** The offset from the origin is t times the direction. */
  lemma PointAtOffset(r: Ray, t: real)
    ensures PointAtParameter(r, t).Minus(r.origin) == r.direction.Scale(t)
  {
  }

  /** The commented-out unit test: origin 0, direction (1,2,3), t = 2. */
  lemma PointAtExample()
    ensures PointAtParameter(Ray(Zero, Vec3(1.0, 2.0, 3.0), 0.0), 2.0) == Vec3(2.0, 4.0, 6.0)
  {
  }
}
