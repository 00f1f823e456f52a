/** What a successful intersection test reports, and the shape of an intersection test. */
module Visible {
  import opened Vec
  import opened Rays
  import Materials

  /** The ray parameter, the point, the surface normal there and the surface's material. */
  datatype HitRecord = HitRecord(t: real, p: Vec3f, normal: Vec3f, material: Materials.Material)

  /** `HitRecord::default()`: everything zero, with the default material. */
  function DefaultRecord(): HitRecord {
    HitRecord(0.0, Zero, Zero, Materials.Default())
  }

  /** An object that can be hit: given a ray, the open interval `(t_min, t_max)` and the record to
      write into, it answers whether it was hit and what the record holds afterwards. */
  type HitOracle = (Ray, real, real, HitRecord) -> (bool, HitRecord)
}
