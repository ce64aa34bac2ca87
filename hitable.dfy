/** The hit record of src/hitable.rs. The record is generic in the material so
    that materials (which read records) and primitives (which build them) can
    live in separate modules. */
module HitRecords {
  import opened Vectors

  datatype HitRecord<M> = HitRecord(t: real, u: real, v: real, p: Vec3, normal: Vec3, material: M)
}
