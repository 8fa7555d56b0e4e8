/** Rays `A + t B` (src/ray.rs). */
module Rays {
  import opened Vectors

  /** A ray with origin `a` and (not necessarily unit) direction `b`. */
  datatype Ray = Ray(a: Vec3, b: Vec3)
  {
    function Origin(): Vec3
    {
      a
    }

    function Direction(): Vec3
    {
      b
    }

    /** The point at parameter `t`: it lies `t` direction-lengths from the
        origin. */
    function PointAt(t: real): (p: Vec3)
      ensures Sub(p, Origin()) == Scale(Direction(), t)
      ensures t == 0.0 ==> p == Origin()
    {
      Add(a, Scale(b, t))
    }
  }

  /** Walking `t1 + t2` along a ray is walking `t1` and then `t2` more. */
  lemma PointAtAdditive(r: Ray, t1: real, t2: real)
    ensures r.PointAt(t1 + t2) == Add(r.PointAt(t1), Scale(r.Direction(), t2))
  {
  }

  /** The accessors give back the stored fields. */
  lemma AccessorsReturnFields(o: Vec3, d: Vec3)
    ensures Ray(o, d).Origin() == o
    ensures Ray(o, d).Direction() == d
  {
  }
}
