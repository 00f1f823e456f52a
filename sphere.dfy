/** A sphere and its ray intersection test, written with the half-b form of the quadratic. */
module Spheres {
  import opened Vec
  import opened Rays
  import opened Materials
  import opened Visible

  /** The two facts about `f64::sqrt` the intersection test relies on. */
  ghost predicate IsSqrt(sqrt: real -> real) {
    forall x :: 0.0 <= x ==> 0.0 <= sqrt(x) && sqrt(x) * sqrt(x) == x
  }

  /** `a = d . d`, `b = oc . d` and `c = oc . oc - r^2`, with `oc = origin - center`. */
  function QuadA(ray: Ray): real {
    Dot(ray.Direction(), ray.Direction())
  }

  function QuadB(ray: Ray, center: Vec3f): real {
    Dot(Sub(ray.Origin(), center), ray.Direction())
  }

  function QuadC(ray: Ray, center: Vec3f, radius: real): real {
    Dot(Sub(ray.Origin(), center), Sub(ray.Origin(), center)) - radius * radius
  }

  function Discriminant(ray: Ray, center: Vec3f, radius: real): real {
    QuadB(ray, center) * QuadB(ray, center) - QuadA(ray) * QuadC(ray, center, radius)
  }

  /** `p` lies on the sphere: its squared distance from the center is the squared radius. */
  ghost predicate OnSphere(center: Vec3f, radius: real, p: Vec3f) {
    Dot(Sub(p, center), Sub(p, center)) == radius * radius
  }

  class Sphere {
    var center: Vec3f
    var radius: real
    /** Only the `material` of this record is ever read; it is the sphere's material. */
    var record: HitRecord

    constructor (center: Vec3f, radius: real, record: HitRecord)
      ensures this.center == center && this.radius == radius && this.record == record
    {
      this.center := center;
      this.radius := radius;
      this.record := record;
    }

    method SetMaterial(material: Material)
      modifies this
      ensures record == old(record).(material := material)
      ensures center == old(center) && radius == old(radius)
    {
      record := record.(material := material);
    }

    /** The intersection test. `rec` is the record passed in through `&mut`; `out` is what it
        holds afterwards. `normalize` stands for normalising a vector in place. */
    method Hit(ray: Ray, tMin: real, tMax: real, rec: HitRecord, sqrt: real -> real, normalize: Vec3f -> Vec3f)
      returns (hit: bool, out: HitRecord)
      requires IsSqrt(sqrt)
      // no real root, or a tangent ray: a miss that leaves the record alone
      ensures Discriminant(ray, center, radius) <= 0.0 ==> !hit && out == rec
      // two real roots but neither in range: a miss that has already written the material
      ensures Discriminant(ray, center, radius) > 0.0 && !hit ==> out == rec.(material := record.material)
      ensures hit ==> tMin < out.t < tMax
      ensures hit ==> out.p == ray.PointAtParameter(out.t) && OnSphere(center, radius, out.p)
      ensures hit ==> out.normal == normalize(Sub(out.p, center)) && out.material == record.material
      // the reported hit is the nearest point of the sphere inside the interval
      ensures hit ==> forall t :: tMin < t < tMax && OnSphere(center, radius, ray.PointAtParameter(t)) ==> out.t <= t
      ensures hit <==> Discriminant(ray, center, radius) > 0.0 &&
                       exists t :: tMin < t < tMax && OnSphere(center, radius, ray.PointAtParameter(t))
    {
      var oc := Sub(ray.Origin(), center);
      var a := Dot(ray.Direction(), ray.Direction());
      var b := Dot(oc, ray.Direction());
      var c := Dot(oc, oc) - radius * radius;
      var discriminant := b * b - a * c;
      hit, out := false, rec;

      if discriminant > 0.0 {
        out := out.(material := record.material);
        var sd := sqrt(b * b - a * c);
        SphereRoots(ray, center, radius, sd);

        var temp := (-b - sd) / a;
        if temp < tMax && temp > tMin {
          var p := ray.PointAtParameter(temp);
          out := out.(t := temp, p := p, normal := normalize(Sub(p, center)));
          hit := true;
          return;
        }
        temp := (-b + sd) / a;
        if temp < tMax && temp > tMin {
          var p := ray.PointAtParameter(temp);
          out := out.(t := temp, p := p, normal := normalize(Sub(p, center)));
          hit := true;
          return;
        }
      }
      forall t | tMin < t < tMax
        ensures !(discriminant > 0.0 && OnSphere(center, radius, ray.PointAtParameter(t)))
      {
        if discriminant > 0.0 {
          SphereRoots(ray, center, radius, sqrt(discriminant));
        }
      }
    }
  }

  /** With a positive discriminant the points of the ray on the sphere are exactly the two
      roots `(-b - sd) / a <= (-b + sd) / a`, where `sd` is the discriminant's square root. */
  lemma SphereRoots(ray: Ray, center: Vec3f, radius: real, sd: real)
    requires Discriminant(ray, center, radius) > 0.0
    requires sd >= 0.0 && sd * sd == Discriminant(ray, center, radius)
    ensures QuadA(ray) > 0.0
    ensures (-QuadB(ray, center) - sd) / QuadA(ray) <= (-QuadB(ray, center) + sd) / QuadA(ray)
    ensures forall t :: OnSphere(center, radius, ray.PointAtParameter(t)) <==>
      t == (-QuadB(ray, center) - sd) / QuadA(ray) || t == (-QuadB(ray, center) + sd) / QuadA(ray)
  {
    var a, b, c := QuadA(ray), QuadB(ray, center), QuadC(ray, center, radius);
    DirectionNonZero(ray, center, radius);
    RootsOrdered(a, b, sd);
    forall t
      ensures OnSphere(center, radius, ray.PointAtParameter(t)) <==> t == (-b - sd) / a || t == (-b + sd) / a
    {
      OnSphereIffRoot(ray, center, radius, t);
      QuadraticSolutions(a, b, c, sd, t);
    }
  }

  /** A positive discriminant is impossible for a zero direction, so `a` is then positive. */
  lemma DirectionNonZero(ray: Ray, center: Vec3f, radius: real)
    requires Discriminant(ray, center, radius) > 0.0
    ensures QuadA(ray) > 0.0
  {
    if QuadA(ray) <= 0.0 {
      DotSelfZero(ray.dir);
    }
  }

  /** A point of the ray is on the sphere exactly when its parameter solves `a t^2 + 2 b t + c = 0`. */
  lemma OnSphereIffRoot(ray: Ray, center: Vec3f, radius: real, t: real)
    ensures OnSphere(center, radius, ray.PointAtParameter(t)) <==>
            QuadA(ray) * t * t + 2.0 * QuadB(ray, center) * t + QuadC(ray, center, radius) == 0.0
  {
    var dx, dy, dz := ray.dir.x, ray.dir.y, ray.dir.z;
    var ux, uy, uz := ray.orig.x - center.x, ray.orig.y - center.y, ray.orig.z - center.z;
    var q := Sub(ray.PointAtParameter(t), center);
    assert q == Vec3f(ux + dx * t, uy + dy * t, uz + dz * t);
    ExpandSquares(ux, uy, uz, dx, dy, dz, t);
    assert Dot(q, q) == (ux + dx * t) * (ux + dx * t) + (uy + dy * t) * (uy + dy * t) + (uz + dz * t) * (uz + dz * t);
    assert QuadA(ray) == dx * dx + dy * dy + dz * dz;
    assert QuadB(ray, center) == ux * dx + uy * dy + uz * dz;
    assert QuadC(ray, center, radius) == ux * ux + uy * uy + uz * uz - radius * radius;
  }

  lemma ExpandSquares(ux: real, uy: real, uz: real, dx: real, dy: real, dz: real, t: real)
    ensures (ux + dx * t) * (ux + dx * t) + (uy + dy * t) * (uy + dy * t) + (uz + dz * t) * (uz + dz * t)
         == (dx * dx + dy * dy + dz * dz) * t * t + 2.0 * (ux * dx + uy * dy + uz * dz) * t + (ux * ux + uy * uy + uz * uz)
  {
  }

  /** With `sd^2 = b^2 - a c` and `a > 0`, `t` solves `a t^2 + 2 b t + c = 0` exactly when it is
      one of the two roots `(-b -/+ sd) / a`. */
  lemma QuadraticSolutions(a: real, b: real, c: real, sd: real, t: real)
    requires a > 0.0 && sd >= 0.0 && sd * sd == b * b - a * c
    ensures a * t * t + 2.0 * b * t + c == 0.0 <==> (t == (-b - sd) / a || t == (-b + sd) / a)
  {
    var u := a * t + b;
    var q := a * t * t + 2.0 * b * t + c;
    assert u * u - sd * sd == a * q;
    assert u * u - sd * sd == (u - sd) * (u + sd);
    var t1, t2 := (-b - sd) / a, (-b + sd) / a;
    assert a * t1 == -b - sd;
    assert a * t2 == -b + sd;
    if q == 0.0 {
      ProductZero(u - sd, u + sd);
      if u == sd { MulCancel(a, t - t2, 0.0); } else { MulCancel(a, t - t1, 0.0); }
    }
    if t == t1 || t == t2 {
      assert u * u == sd * sd;
      ProductZero(a, q);
    }
  }

  /** The root with `-sd` is never the larger one. */
  lemma RootsOrdered(a: real, b: real, sd: real)
    requires a > 0.0 && sd >= 0.0
    ensures (-b - sd) / a <= (-b + sd) / a
  {
    var t1, t2 := (-b - sd) / a, (-b + sd) / a;
    assert a * t1 == -b - sd;
    assert a * t2 == -b + sd;
    MulCancel(a, t2 - t1, 2.0 * sd);
  }

  /** Multiplying by a positive `a` keeps order and equality. */
  lemma MulCancel(a: real, x: real, y: real)
    requires a > 0.0 && y >= 0.0 && a * x == y
    ensures x >= 0.0 && (y == 0.0 ==> x == 0.0)
  {
  }
}
