/** The constructors of src/translate.rs that compute something: `Rotate::new`. */
module Instances {
  import opened Numerics
  import opened Options
  import opened Hitables
  import Aabb
  import Transforms

  /** `Rotate::new`: the angle in degrees becomes radians, whose sine and
      cosine are stored with a box around the child's box (taken over the time
      span [0, 1]) turned about y. The source unwraps the child's box, so a
      child without one is outside what it accepts. The stored box bounds the
      eight turned corners tightly, keeps the child's y extent when that is
      ordered and finite, and is what the rotated object reports at every time. */
  method NewRotate(child: Hitable, angle: real, m: Math) returns (rotated: Hitable)
    requires BoundingBox(child, 0.0, 1.0).Some?
    ensures var radians := (Pi / 180.0) * angle;
      && rotated.Rotate? && rotated.hitable == child
      && rotated.sinTheta == m.sin(radians) && rotated.cosTheta == m.cos(radians)
    ensures var inner := BoundingBox(child, 0.0, 1.0).value;
      && rotated.bbox.Some?
      && Transforms.CornerBounds(inner, rotated.sinTheta, rotated.cosTheta, rotated.bbox.value.min, rotated.bbox.value.max, 8)
      && (-F32Max <= inner.min.y <= inner.max.y <= F32Max ==>
            rotated.bbox.value.min.y == inner.min.y && rotated.bbox.value.max.y == inner.max.y)
    ensures forall t0, t1 :: BoundingBox(rotated, t0, t1) == rotated.bbox
  {
    var radians := (Pi / 180.0) * angle;
    var sinTheta := m.sin(radians);
    var cosTheta := m.cos(radians);
    var bbox := BoundingBox(child, 0.0, 1.0).value;
    var box := Transforms.RotatedBounds(bbox, sinTheta, cosTheta);
    if -F32Max <= bbox.min.y <= bbox.max.y <= F32Max {
      Transforms.RotatedKeepsYExtent(bbox, sinTheta, cosTheta, box);
    }
    rotated := Rotate(child, sinTheta, cosTheta, Some(box));
  }
}
