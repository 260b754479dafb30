/** Rays (src/ray.rs): an origin, a direction and the shutter time of the sample. */
module Rays {
  import opened Wrappers
  import opened Vectors

  datatype Ray = Ray(orig: Vec3, dir: Vec3, tm: real)

  /** `Ray::new`: a missing time is stored as 0. */
  function NewRay(orig: Vec3, dir: Vec3, time: Option<real>): Ray {
    Ray(orig, dir, time.GetOr(0.0))
  }

  function Origin(r: Ray): Vec3 { r.orig }

  function Direction(r: Ray): Vec3 { r.dir }

  function Time(r: Ray): real { r.tm }

  /** The accessors give back what `Ray::new` was handed. */
  lemma NewRayAccessors(orig: Vec3, dir: Vec3, time: Option<real>)
    ensures Origin(NewRay(orig, dir, time)) == orig
    ensures Direction(NewRay(orig, dir, time)) == dir
    ensures time.None? ==> Time(NewRay(orig, dir, time)) == 0.0
    ensures time.Some? ==> Time(NewRay(orig, dir, time)) == time.value
  {
  }

  /** The point at parameter `t`. */
  function At(r: Ray, t: real): (p: Vec3)
    ensures t == 0.0 ==> p == r.orig
  {
    Add(r.orig, Scale(r.dir, t))
  }

  lemma AtCoordinates(r: Ray, t: real)
    ensures At(r, t).x == r.orig.x + t * r.dir.x
    ensures At(r, t).y == r.orig.y + t * r.dir.y
    ensures At(r, t).z == r.orig.z + t * r.dir.z
  {
  }

  /** `at` is affine in its parameter. */
  lemma AtAffine(r: Ray, s: real, t: real)
    ensures Sub(At(r, s), At(r, t)) == Scale(r.dir, s - t)
    ensures At(r, s + t) == Add(At(r, s), Scale(r.dir, t))
  {
  }
}
