/** A ray: an origin and a direction, and the point reached after parameter `t`. */
module Rays {
  import opened Vec

  datatype Ray = Ray(orig: Vec3f, dir: Vec3f) {

    /** `Ray::new()`: the ray from the origin along (1, 1, 1). */
    static function New(): Ray {
      Ray(Vec3f(0.0, 0.0, 0.0), Vec3f(1.0, 1.0, 1.0))
    }

    static function NewFromVec(o: Vec3f, d: Vec3f): Ray {
      Ray(o, d)
    }

    function Origin(): Vec3f { orig }

    function Direction(): Vec3f { dir }

    /** `orig + dir * t`; the intersection code calls this `point_at`. */
    function PointAtParameter(t: real): Vec3f {
      Add(orig, Scale(dir, t))
    }
  }

  /** The argument-less constructor starts at the origin and points along (1, 1, 1). */
  lemma NewDefaults()
    ensures Ray.New().Origin() == Vec3f(0.0, 0.0, 0.0)
    ensures Ray.New().Direction() == Vec3f(1.0, 1.0, 1.0)
  {
  }

  /** The accessors give back exactly what the two-argument constructor was given. */
  lemma NewFromVecAccessors(o: Vec3f, d: Vec3f)
    ensures Ray.NewFromVec(o, d).Origin() == o
    ensures Ray.NewFromVec(o, d).Direction() == d
  {
  }

  /** Parameter zero is the origin. */
  lemma PointAtZero(r: Ray)
    ensures r.PointAtParameter(0.0) == r.Origin()
  {
  }

  /** Advancing the parameter by `t` moves the point by `t` times the direction. */
  lemma PointAtShift(r: Ray, s: real, t: real)
    ensures r.PointAtParameter(s + t) == Add(r.PointAtParameter(s), Scale(r.Direction(), t))
  {
    var o, d := r.orig, r.dir;
    assert o.x + d.x * (s + t) == (o.x + d.x * s) + d.x * t;
    assert o.y + d.y * (s + t) == (o.y + d.y * s) + d.y * t;
    assert o.z + d.z * (s + t) == (o.z + d.z * s) + d.z * t;
  }
}
