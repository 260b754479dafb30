/** The moving sphere of src/moving_sphere.rs. Its centre formula has no
    `time0 == time1` guard, so it is only defined for distinct times. The
    hit and box code is the sphere's, and the lemmas here show it behaves as a
    `Sphere` with the same fields. */
module MovingSpheres {
  import opened Wrappers
  import opened Vectors
  import opened Rays
  import opened Aabbs
  import opened Hittables
  import opened Spheres

  datatype MovingSphere<M> = MovingSphere(
    center0: Vec3,
    center1: Vec3,
    time0: real,
    time1: real,
    radius: real,
    material: M)

  /** The sphere with the same fields. */
  function AsSphere<M>(ms: MovingSphere<M>): Sphere<M> {
    Sphere(ms.center0, ms.center1, ms.time0, ms.time1, ms.radius, ms.material)
  }

  /** `MovingSphere::center`: `center0` at `time0`, `center1` at `time1`. */
  function MovingCenter<M>(ms: MovingSphere<M>, time: real): (c: Vec3)
    requires ms.time0 != ms.time1
    ensures time == ms.time0 ==> c == ms.center0
    ensures time == ms.time1 ==> c == ms.center1
  {
    Interpolate(ms.center0, ms.center1, ms.time0, ms.time1, time)
  }

  /** The centre is affine in time: the midpoint time gives the midpoint. */
  lemma MovingCenterMidpoint<M>(ms: MovingSphere<M>)
    requires ms.time0 != ms.time1
    ensures MovingCenter(ms, (ms.time0 + ms.time1) / 2.0) == Scale(Add(ms.center0, ms.center1), 0.5)
  {
    InterpolateMidpoint(ms.center0, ms.center1, ms.time0, ms.time1);
  }

  /** `MovingSphere::hit`, with `uv` for the texture coordinates the record is
      given. */
  function MovingSphereHit<M>(ms: MovingSphere<M>, sqrt: real -> real, uv: (real, real), r: Ray,
                              tMin: real, tMax: real): (res: Option<HitRecord<M>>)
    requires ms.time0 != ms.time1 && LengthSquared(r.dir) != 0.0 && ms.radius != 0.0
    ensures res.Some? ==> tMin <= res.value.t <= tMax
    ensures res.Some? ==> res.value.p == At(r, res.value.t) && res.value.mat == ms.material
  {
    var center := MovingCenter(ms, Time(r));
    match NearestRoot(Sub(Origin(r), center), Direction(r), ms.radius, sqrt, tMin, tMax)
    case None => None
    case Some(t) =>
      var p := At(r, t);
      Some(NewHitRecord(t, uv, r, Div(Sub(p, center), ms.radius), ms.material))
  }

  /** `MovingSphere::bounding_box`. */
  function MovingSphereBox<M>(ms: MovingSphere<M>, time0: real, time1: real): (res: Option<Aabb>)
    requires ms.time0 != ms.time1
    ensures res.Some?
    ensures Contains(res.value, RadiusBox(MovingCenter(ms, time0), ms.radius))
    ensures Contains(res.value, RadiusBox(MovingCenter(ms, time1), ms.radius))
  {
    var box0 := RadiusBox(MovingCenter(ms, time0), ms.radius);
    var box1 := RadiusBox(MovingCenter(ms, time1), ms.radius);
    Some(SurroundingBox(box0, box1))
  }

  /** With distinct times the moving sphere is the sphere with the same fields:
      same centre, same hits, same box. */
  lemma MovingSphereIsSphere<M>(ms: MovingSphere<M>, sqrt: real -> real, uv: (real, real), r: Ray,
                                tMin: real, tMax: real, time: real, time0: real, time1: real)
    requires ms.time0 != ms.time1 && LengthSquared(r.dir) != 0.0 && ms.radius != 0.0
    ensures MovingCenter(ms, time) == Center(AsSphere(ms), time)
    ensures MovingSphereHit(ms, sqrt, uv, r, tMin, tMax) == SphereHit(AsSphere(ms), sqrt, uv, r, tMin, tMax)
    ensures MovingSphereBox(ms, time0, time1) == SphereBox(AsSphere(ms), time0, time1)
  {
  }

  /** `hit` reports the nearest point of the moving surface within
      `[tMin, tMax]`, and `None` exactly when there is none. */
  lemma MovingSphereHitNearest<M>(ms: MovingSphere<M>, sqrt: real -> real, uv: (real, real), r: Ray,
                                  tMin: real, tMax: real)
    requires IsSqrt(sqrt)
    requires ms.time0 != ms.time1 && LengthSquared(r.dir) != 0.0 && ms.radius != 0.0
    ensures var res := MovingSphereHit(ms, sqrt, uv, r, tMin, tMax);
            (res.Some? ==>
               OnSurface(AsSphere(ms), r, res.value.t) &&
               forall t :: tMin <= t <= tMax && OnSurface(AsSphere(ms), r, t) ==> res.value.t <= t) &&
            (res.None? ==> forall t :: tMin <= t <= tMax ==> !OnSurface(AsSphere(ms), r, t))
  {
    MovingSphereIsSphere(ms, sqrt, uv, r, tMin, tMax, 0.0, 0.0, 0.0);
    SphereHitNearest(AsSphere(ms), sqrt, uv, r, tMin, tMax);
  }

  /** The box over `[time0, time1]` encloses the radius box at every time in
      between. */
  lemma MovingSphereBoxCoversMotion<M>(ms: MovingSphere<M>, time0: real, time1: real, time: real)
    requires ms.time0 != ms.time1 && time0 <= time <= time1
    ensures Contains(MovingSphereBox(ms, time0, time1).value, RadiusBox(MovingCenter(ms, time), ms.radius))
  {
    SphereBoxCoversMotion(AsSphere(ms), time0, time1, time);
  }
}
