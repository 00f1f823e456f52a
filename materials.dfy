/** The surface materials and the mirror reflection the metal uses. */
module Materials {
  import opened Vec

  /** Both variants carry an `albedo`, the per-channel fraction of light they return. */
  datatype Material = Lambertian(albedo: Vec3f) | Metal(albedo: Vec3f)

  /** `Material::default()`: a light grey diffuse surface. */
  function Default(): (m: Material)
    ensures m.Lambertian? && m.albedo == Vec3f(0.8, 0.8, 0.8)
  {
    Lambertian(Vec3f(0.8, 0.8, 0.8))
  }

  /** `v - n * (v . n) * 2`: mirrors `v` in the plane whose normal is `n`. */
  function Reflect(v: Vec3f, n: Vec3f): (r: Vec3f)
    ensures Dot(n, n) == 1.0 ==> Dot(r, n) == -Dot(v, n)
  {
    MirrorDot(v.x, v.y, v.z, n.x, n.y, n.z);
    Sub(v, Scale(Scale(n, Dot(v, n)), 2.0))
  }

  lemma MirrorDot(vx: real, vy: real, vz: real, nx: real, ny: real, nz: real)
    ensures var k := (vx * nx + vy * ny + vz * nz) * 2.0;
      (vx - nx * k) * nx + (vy - ny * k) * ny + (vz - nz * k) * nz
      == (vx * nx + vy * ny + vz * nz) - k * (nx * nx + ny * ny + nz * nz)
  {
  }

  /** For a unit normal, reflecting twice gives the original vector back. */
  lemma ReflectInvolution(v: Vec3f, n: Vec3f)
    requires Dot(n, n) == 1.0
    ensures Reflect(Reflect(v, n), n) == v
  {
    var r := Reflect(v, n);
    assert Dot(r, n) == -Dot(v, n);
    var k, k' := Dot(v, n) * 2.0, Dot(r, n) * 2.0;
    assert k' == -k;
    assert r == Vec3f(v.x - n.x * k, v.y - n.y * k, v.z - n.z * k);
  }

  /** For a unit normal, reflection keeps the vector's length. */
  lemma ReflectPreservesLength(v: Vec3f, n: Vec3f)
    requires Dot(n, n) == 1.0
    ensures Dot(Reflect(v, n), Reflect(v, n)) == Dot(v, v)
  {
    var vx, vy, vz, nx, ny, nz := v.x, v.y, v.z, n.x, n.y, n.z;
    var d := vx * nx + vy * ny + vz * nz;
    var k := d * 2.0;
    assert nx * nx + ny * ny + nz * nz == 1.0;
    MirrorLength(vx, vy, vz, nx, ny, nz, k);
  }

  lemma MirrorLength(vx: real, vy: real, vz: real, nx: real, ny: real, nz: real, k: real)
    requires nx * nx + ny * ny + nz * nz == 1.0
    requires k == (vx * nx + vy * ny + vz * nz) * 2.0
    ensures (vx - nx * k) * (vx - nx * k) + (vy - ny * k) * (vy - ny * k) + (vz - nz * k) * (vz - nz * k)
         == vx * vx + vy * vy + vz * vz
  {
    var d := vx * nx + vy * ny + vz * nz;
    assert (vx - nx * k) * (vx - nx * k) + (vy - ny * k) * (vy - ny * k) + (vz - nz * k) * (vz - nz * k)
        == (vx * vx + vy * vy + vz * vz) - 2.0 * k * d + k * k * (nx * nx + ny * ny + nz * nz);
  }
}
