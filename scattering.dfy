/** How a material turns an incoming ray at a hit point into a scattered ray and a colour factor. */
module Scattering {
  import opened Vec
  import opened Rays
  import opened Materials
  import opened Visible

  /** `Material::scatter`. `rnd` is the point `random_in_unit_sphere()` returned; the two
      out-parameters and the boolean answer are the method's three results. */
  method Scatter(m: Material, rIn: Ray, rec: HitRecord, rnd: Vec3f)
    returns (ok: bool, attenuation: Vec3f, scattered: Ray)
    ensures attenuation == m.albedo
    ensures scattered.Origin() == rec.p
    ensures m.Metal? ==> scattered.Direction() == Reflect(rIn.Direction(), rec.normal)
    ensures m.Metal? ==> (ok <==> Dot(scattered.Direction(), rec.normal) > 0.0)
    ensures m.Metal? && Dot(rec.normal, rec.normal) == 1.0 ==> (ok <==> Dot(rIn.Direction(), rec.normal) < 0.0)
    ensures m.Lambertian? ==> ok && scattered.Direction() == Add(rec.normal, rnd)
  {
    match m {
      case Metal(albedo) =>
        var reflected := Reflect(rIn.Direction(), rec.normal);
        scattered := Ray.NewFromVec(rec.p, reflected);
        attenuation := albedo;
        ok := Dot(scattered.Direction(), rec.normal) > 0.0;
      case Lambertian(albedo) =>
        var target := Add(Add(rec.p, rec.normal), rnd);
        scattered := Ray.NewFromVec(rec.p, Sub(target, rec.p));
        attenuation := albedo;
        ok := true;
    }
  }
}
