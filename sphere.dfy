/** Spheres of src/sphere.rs, stationary or moving linearly between two
    centres, and the quadratic root selection their `hit` shares with the
    moving sphere of src/moving_sphere.rs. */
module Spheres {
  import opened Wrappers
  import opened Vectors
  import opened Rays
  import opened Aabbs
  import opened Hittables

  datatype Sphere<M> = Sphere(
    center0: Vec3,
    center1: Vec3,
    time0: real,
    time1: real,
    radius: real,
    material: M)

  /** `Sphere::moving` keeps every argument as given. */
  function Moving<M>(center0: Vec3, center1: Vec3, time0: real, time1: real, radius: real, material: M)
    : (s: Sphere<M>)
    ensures s.center0 == center0 && s.center1 == center1
    ensures s.time0 == time0 && s.time1 == time1
    ensures s.radius == radius && s.material == material
  {
    Sphere(center0, center1, time0, time1, radius, material)
  }

  /** `Sphere::stationary`: both centres equal and both times zero. */
  function Stationary<M>(center: Vec3, radius: real, material: M): (s: Sphere<M>)
    ensures s.center0 == center && s.center1 == center
    ensures s.time0 == 0.0 && s.time1 == 0.0
    ensures s.radius == radius && s.material == material
  {
    Sphere(center, center, 0.0, 0.0, radius, material)
  }

  // ----- Centre interpolation -----

  /** `center0 + ((time - time0) / (time1 - time0)) * (center1 - center0)`, the
      centre formula shared by both kinds of sphere. */
  function Interpolate(center0: Vec3, center1: Vec3, time0: real, time1: real, time: real): (c: Vec3)
    requires time0 != time1
    ensures time == time0 ==> c == center0
    ensures time == time1 ==> c == center1
  {
    Add(center0, Scale(Sub(center1, center0), (time - time0) / (time1 - time0)))
  }

  /** The centre is affine in time: halfway through the shutter it is halfway
      between the two centres. */
  lemma InterpolateMidpoint(center0: Vec3, center1: Vec3, time0: real, time1: real)
    requires time0 != time1
    ensures Interpolate(center0, center1, time0, time1, (time0 + time1) / 2.0)
            == Scale(Add(center0, center1), 0.5)
  {
    var d := time1 - time0;
    var q := ((time0 + time1) / 2.0 - time0) / d;
    assert q * d == (time0 + time1) / 2.0 - time0;
    assert 0.5 * d == (time0 + time1) / 2.0 - time0;
    CancelFactor(q, 0.5, d);
  }

  /** `Sphere::center`: a sphere whose two times coincide never moves. */
  function Center<M>(s: Sphere<M>, time: real): (c: Vec3)
    ensures s.time0 == s.time1 ==> c == s.center0
    ensures s.time0 != s.time1 && time == s.time0 ==> c == s.center0
    ensures s.time0 != s.time1 && time == s.time1 ==> c == s.center1
  {
    if s.time0 == s.time1 then s.center0
    else Interpolate(s.center0, s.center1, s.time0, s.time1, time)
  }

  /** A stationary sphere has the given centre at every time. */
  lemma StationaryCenter<M>(center: Vec3, radius: real, material: M, time: real)
    ensures Center(Stationary(center, radius, material), time) == center
  {
  }

  // ----- Root selection -----

  /** The reference the root selection is proved against: the ray point at `t`,
      written relative to the centre (`oc + t dir`), lies on the sphere. */
  predicate OnSphere(oc: Vec3, dir: Vec3, radius: real, t: real) {
    LengthSquared(Add(oc, Scale(dir, t))) == radius * radius
  }

  /** The body of `hit` up to the choice of `t`: `None` on a negative
      discriminant, else the smaller root if it lies in `[tMin, tMax]`, else
      the larger one if that does, else `None`. `sqrt` is the square root
      the source calls. */
  function NearestRoot(oc: Vec3, dir: Vec3, radius: real, sqrt: real -> real, tMin: real, tMax: real)
    : (root: Option<real>)
    requires LengthSquared(dir) != 0.0
    ensures root.Some? ==> tMin <= root.value <= tMax
  {
    var a := LengthSquared(dir);
    var halfB := Dot(oc, dir);
    var discriminant := Discriminant(oc, dir, radius);
    if discriminant < 0.0 then None
    else
      var sqrtd := sqrt(discriminant);
      var smaller := (-halfB - sqrtd) / a;
      if smaller < tMin || tMax < smaller then
        var larger := (-halfB + sqrtd) / a;
        if larger < tMin || tMax < larger then None else Some(larger)
      else Some(smaller)
  }

  /** `half_b * half_b - a * c` for `a = |dir|^2`, `half_b = oc . dir` and
      `c = |oc|^2 - radius^2`. */
  function Discriminant(oc: Vec3, dir: Vec3, radius: real): real {
    var a := LengthSquared(dir);
    var halfB := Dot(oc, dir);
    var c := LengthSquared(oc) - radius * radius;
    halfB * halfB - a * c
  }

  /** The quadratic `a t^2 + 2 half_b t + c` whose roots the source computes. */
  function Quadratic(a: real, halfB: real, c: real, t: real): real {
    a * t * t + 2.0 * halfB * t + c
  }

  /** Expanding `|oc + t dir|^2` gives the quadratic the source solves. */
  lemma ExpandOnSphere(oc: Vec3, dir: Vec3, radius: real, t: real)
    ensures var a := LengthSquared(dir);
            var halfB := Dot(oc, dir);
            var c := LengthSquared(oc) - radius * radius;
            OnSphere(oc, dir, radius, t) <==> Quadratic(a, halfB, c, t) == 0.0
  {
    var w := Add(oc, Scale(dir, t));
    assert LengthSquared(w) == LengthSquared(oc) + 2.0 * t * Dot(oc, dir) + t * t * LengthSquared(dir);
  }

  /** `a * q(t)` completes the square: `(a t + halfB)^2 - discriminant`. */
  lemma CompleteSquare(a: real, halfB: real, c: real, t: real)
    ensures a * Quadratic(a, halfB, c, t) == (a * t + halfB) * (a * t + halfB) - (halfB * halfB - a * c)
  {
  }

  /** With a square root `s` of the discriminant, the roots are exactly
      `(-halfB - s) / a` and `(-halfB + s) / a`. */
  lemma QuadraticRoots(a: real, halfB: real, c: real, s: real, t: real)
    requires a != 0.0 && s * s == halfB * halfB - a * c
    ensures Quadratic(a, halfB, c, t) == 0.0 <==> t == (-halfB - s) / a || t == (-halfB + s) / a
  {
    var q := Quadratic(a, halfB, c, t);
    var u := a * t + halfB;
    CompleteSquare(a, halfB, c, t);
    DifferenceOfSquares(s, u);
    assert a * q == (u - s) * (u + s);
    ProductZero(a, q);
    ProductZero(u - s, u + s);
    assert u - s == 0.0 <==> t == (-halfB + s) / a;
    assert u + s == 0.0 <==> t == (-halfB - s) / a;
  }

  /** A negative discriminant leaves the quadratic without a root. */
  lemma NoRealRoot(a: real, halfB: real, c: real, t: real)
    requires a > 0.0 && halfB * halfB - a * c < 0.0
    ensures Quadratic(a, halfB, c, t) != 0.0
  {
    var u := a * t + halfB;
    CompleteSquare(a, halfB, c, t);
    assert u * u >= 0.0;
    assert a * Quadratic(a, halfB, c, t) > 0.0;
  }

  lemma RootsOrdered(a: real, halfB: real, s: real)
    requires a > 0.0 && s >= 0.0
    ensures (-halfB - s) / a <= (-halfB + s) / a
  {
    assert (-halfB + s) / a - (-halfB - s) / a == (2.0 * s) / a;
  }

  /** Root selection returns the nearest point of the ray on the sphere within
      `[tMin, tMax]`, and `None` exactly when there is none. */
  lemma NearestRootMeaning(oc: Vec3, dir: Vec3, radius: real, sqrt: real -> real, tMin: real, tMax: real)
    requires IsSqrt(sqrt) && LengthSquared(dir) != 0.0
    ensures var root := NearestRoot(oc, dir, radius, sqrt, tMin, tMax);
            (root.Some? ==>
               OnSphere(oc, dir, radius, root.value) &&
               forall t :: tMin <= t <= tMax && OnSphere(oc, dir, radius, t) ==> root.value <= t) &&
            (root.None? ==> forall t :: tMin <= t <= tMax ==> !OnSphere(oc, dir, radius, t))
  {
    var a := LengthSquared(dir);
    var halfB := Dot(oc, dir);
    var c := LengthSquared(oc) - radius * radius;
    var discriminant := Discriminant(oc, dir, radius);
    assert discriminant == halfB * halfB - a * c;
    var root := NearestRoot(oc, dir, radius, sqrt, tMin, tMax);
    if discriminant < 0.0 {
      forall t | tMin <= t <= tMax
        ensures !OnSphere(oc, dir, radius, t)
      {
        ExpandOnSphere(oc, dir, radius, t);
        NoRealRoot(a, halfB, c, t);
      }
    } else {
      var s := sqrt(discriminant);
      assert s >= 0.0 && s * s == discriminant;
      var smaller := (-halfB - s) / a;
      var larger := (-halfB + s) / a;
      RootsOrdered(a, halfB, s);
      forall t
        ensures OnSphere(oc, dir, radius, t) <==> t == smaller || t == larger
      {
        ExpandOnSphere(oc, dir, radius, t);
        QuadraticRoots(a, halfB, c, s, t);
      }
      assert OnSphere(oc, dir, radius, smaller) && OnSphere(oc, dir, radius, larger);
      assert root == if smaller < tMin || tMax < smaller then
                       (if larger < tMin || tMax < larger then None else Some(larger))
                     else Some(smaller);
    }
  }

  // ----- Sphere::hit -----

  /** The ray relative to the centre at the ray's time. */
  function CenterOffset<M>(s: Sphere<M>, r: Ray): Vec3 {
    Sub(Origin(r), Center(s, Time(r)))
  }

  /** `Sphere::hit`. The source builds the record without texture coordinates;
      `uv` stands for the ones the record is given. */
  function SphereHit<M>(s: Sphere<M>, sqrt: real -> real, uv: (real, real), r: Ray, tMin: real, tMax: real)
    : (res: Option<HitRecord<M>>)
    requires LengthSquared(r.dir) != 0.0 && s.radius != 0.0
    ensures res.Some? ==> tMin <= res.value.t <= tMax
    ensures res.Some? ==> res.value.p == At(r, res.value.t) && res.value.mat == s.material
    ensures res.Some? ==> Dot(r.dir, res.value.normal) <= 0.0
  {
    match NearestRoot(CenterOffset(s, r), Direction(r), s.radius, sqrt, tMin, tMax)
    case None => None
    case Some(t) =>
      var p := At(r, t);
      var outwardNormal := Div(Sub(p, Center(s, Time(r))), s.radius);
      Some(NewHitRecord(t, uv, r, outwardNormal, s.material))
  }

  /** A point of the ray lies on the sphere at the ray's time. */
  predicate OnSurface<M>(s: Sphere<M>, r: Ray, t: real) {
    LengthSquared(Sub(At(r, t), Center(s, r.tm))) == s.radius * s.radius
  }

  lemma OnSurfaceOffset<M>(s: Sphere<M>, r: Ray, t: real)
    ensures OnSurface(s, r, t) <==> OnSphere(CenterOffset(s, r), r.dir, s.radius, t)
  {
    assert Sub(At(r, t), Center(s, r.tm)) == Add(CenterOffset(s, r), Scale(r.dir, t));
  }

  /** `hit` reports the nearest surface point within `[tMin, tMax]`, and `None`
      exactly when the ray meets the surface nowhere in that interval. */
  lemma SphereHitNearest<M>(s: Sphere<M>, sqrt: real -> real, uv: (real, real), r: Ray, tMin: real, tMax: real)
    requires IsSqrt(sqrt) && LengthSquared(r.dir) != 0.0 && s.radius != 0.0
    ensures var res := SphereHit(s, sqrt, uv, r, tMin, tMax);
            (res.Some? ==>
               OnSurface(s, r, res.value.t) &&
               forall t :: tMin <= t <= tMax && OnSurface(s, r, t) ==> res.value.t <= t) &&
            (res.None? ==> forall t :: tMin <= t <= tMax ==> !OnSurface(s, r, t))
  {
    NearestRootMeaning(CenterOffset(s, r), r.dir, s.radius, sqrt, tMin, tMax);
    forall t {
      OnSurfaceOffset(s, r, t);
    }
  }

  lemma LengthSquaredDiv(v: Vec3, k: real)
    requires k != 0.0
    ensures LengthSquared(Div(v, k)) * (k * k) == LengthSquared(v)
  {
    var q := 1.0 / k;
    assert q * k == 1.0;
    assert LengthSquared(Div(v, k)) == LengthSquared(v) * (q * q);
    assert (q * q) * (k * k) == (q * k) * (q * k);
  }

  /** The reported normal has unit length: it is the radius vector of a
      surface point divided by the radius, possibly negated. */
  lemma SphereHitNormalUnit<M>(s: Sphere<M>, sqrt: real -> real, uv: (real, real), r: Ray, tMin: real, tMax: real)
    requires IsSqrt(sqrt) && LengthSquared(r.dir) != 0.0 && s.radius != 0.0
    ensures var res := SphereHit(s, sqrt, uv, r, tMin, tMax);
            res.Some? ==> LengthSquared(res.value.normal) == 1.0
  {
    var res := SphereHit(s, sqrt, uv, r, tMin, tMax);
    if res.Some? {
      SphereHitNearest(s, sqrt, uv, r, tMin, tMax);
      var w := Sub(At(r, res.value.t), Center(s, r.tm));
      var n := Div(w, s.radius);
      LengthSquaredDiv(w, s.radius);
      assert LengthSquared(n) * (s.radius * s.radius) == s.radius * s.radius;
      assert LengthSquared(n) == 1.0 by {
        var k2 := s.radius * s.radius;
        assert k2 > 0.0 by { if s.radius > 0.0 { MulPositive(s.radius, s.radius); } else { MulPositive(-s.radius, -s.radius); } }
        assert (LengthSquared(n) - 1.0) * k2 == 0.0;
        ProductZero(LengthSquared(n) - 1.0, k2);
      }
      NegKeepsLength(n);
    }
  }

  // ----- Sphere::bounding_box -----

  /** The box of half-width `radius` around `center`. */
  function RadiusBox(center: Vec3, radius: real): Aabb {
    var half := Vec3(radius, radius, radius);
    Aabb(Sub(center, half), Add(center, half))
  }

  /** `Sphere::bounding_box`: always present, enclosing the radius boxes at both
      times. */
  function SphereBox<M>(s: Sphere<M>, time0: real, time1: real): (res: Option<Aabb>)
    ensures res.Some?
    ensures Contains(res.value, RadiusBox(Center(s, time0), s.radius))
    ensures Contains(res.value, RadiusBox(Center(s, time1), s.radius))
  {
    Some(SurroundingBox(RadiusBox(Center(s, time0), s.radius), RadiusBox(Center(s, time1), s.radius)))
  }

  /** One coordinate of `Interpolate`. */
  function Lerp1(c0: real, c1: real, t0: real, t1: real, time: real): real
    requires t0 != t1
  {
    c0 + (c1 - c0) * ((time - t0) / (t1 - t0))
  }

  lemma InterpolateCoordinates(center0: Vec3, center1: Vec3, time0: real, time1: real, time: real)
    requires time0 != time1
    ensures Interpolate(center0, center1, time0, time1, time).x == Lerp1(center0.x, center1.x, time0, time1, time)
    ensures Interpolate(center0, center1, time0, time1, time).y == Lerp1(center0.y, center1.y, time0, time1, time)
    ensures Interpolate(center0, center1, time0, time1, time).z == Lerp1(center0.z, center1.z, time0, time1, time)
  {
    var f := (time - time0) / (time1 - time0);
    assert Interpolate(center0, center1, time0, time1, time)
        == Vec3(center0.x + (center1.x - center0.x) * f, center0.y + (center1.y - center0.y) * f,
                center0.z + (center1.z - center0.z) * f);
  }

  /** The slope form of one coordinate. */
  lemma Lerp1Slope(c0: real, c1: real, t0: real, t1: real, time: real)
    requires t0 != t1
    ensures Lerp1(c0, c1, t0, t1, time) == c0 + (time - t0) * ((c1 - c0) / (t1 - t0))
  {
  }

  /** One coordinate of a linear motion: at a time between `s0` and `s1` it lies
      between its values at `s0` and `s1`. */
  lemma LerpBetween(c0: real, c1: real, t0: real, t1: real, s0: real, s1: real, time: real)
    requires t0 != t1 && s0 <= time <= s1
    ensures FMin(Lerp1(c0, c1, t0, t1, s0), Lerp1(c0, c1, t0, t1, s1)) <= Lerp1(c0, c1, t0, t1, time)
    ensures Lerp1(c0, c1, t0, t1, time) <= FMax(Lerp1(c0, c1, t0, t1, s0), Lerp1(c0, c1, t0, t1, s1))
  {
    var m := (c1 - c0) / (t1 - t0);
    Lerp1Slope(c0, c1, t0, t1, s0);
    Lerp1Slope(c0, c1, t0, t1, s1);
    Lerp1Slope(c0, c1, t0, t1, time);
    if m >= 0.0 {
      MulNonNegative(time - s0, m);
      MulNonNegative(s1 - time, m);
    } else {
      MulNonNegative(time - s0, -m);
      MulNonNegative(s1 - time, -m);
    }
    assert (time - t0) * m - (s0 - t0) * m == (time - s0) * m;
    assert (s1 - t0) * m - (time - t0) * m == (s1 - time) * m;
  }

  /** At a time between `s0` and `s1` the centre lies between its positions at
      `s0` and `s1` on every axis. */
  lemma CenterBetween<M>(s: Sphere<M>, s0: real, s1: real, time: real)
    requires s0 <= time <= s1
    ensures var c0 := Center(s, s0); var c1 := Center(s, s1); var c := Center(s, time);
            FMin(c0.x, c1.x) <= c.x <= FMax(c0.x, c1.x) &&
            FMin(c0.y, c1.y) <= c.y <= FMax(c0.y, c1.y) &&
            FMin(c0.z, c1.z) <= c.z <= FMax(c0.z, c1.z)
  {
    if s.time0 != s.time1 {
      InterpolateCoordinates(s.center0, s.center1, s.time0, s.time1, s0);
      InterpolateCoordinates(s.center0, s.center1, s.time0, s.time1, s1);
      InterpolateCoordinates(s.center0, s.center1, s.time0, s.time1, time);
      LerpBetween(s.center0.x, s.center1.x, s.time0, s.time1, s0, s1, time);
      LerpBetween(s.center0.y, s.center1.y, s.time0, s.time1, s0, s1, time);
      LerpBetween(s.center0.z, s.center1.z, s.time0, s.time1, s0, s1, time);
    }
  }

  /** The box over `[time0, time1]` encloses the sphere's radius box at every
      time of the shutter interval, not only at its ends. */
  lemma SphereBoxCoversMotion<M>(s: Sphere<M>, time0: real, time1: real, time: real)
    requires time0 <= time <= time1
    ensures Contains(SphereBox(s, time0, time1).value, RadiusBox(Center(s, time), s.radius))
  {
    CenterBetween(s, time0, time1, time);
  }

  /** A point at distance `radius >= 0` from `center` lies in its radius box. */
  lemma SurfaceInRadiusBox(center: Vec3, radius: real, p: Vec3)
    requires radius >= 0.0 && LengthSquared(Sub(p, center)) == radius * radius
    ensures Inside(RadiusBox(center, radius), p)
  {
    var w := Sub(p, center);
    CoordinateWithin(w.x, Square(w.y) + Square(w.z), radius);
    CoordinateWithin(w.y, Square(w.x) + Square(w.z), radius);
    CoordinateWithin(w.z, Square(w.x) + Square(w.y), radius);
  }

  lemma SquareMonotone(a: real, b: real)
    requires 0.0 <= a && 0.0 <= b
    ensures a < b ==> a * a < b * b
  {
    if a < b {
      SquareIncreasing(a, b);
    }
  }

  lemma CoordinateWithin(a: real, rest: real, radius: real)
    requires radius >= 0.0 && rest >= 0.0 && Square(a) + rest == radius * radius
    ensures -radius <= a <= radius
  {
    assert Abs(a) * Abs(a) == Square(a);
    SquareMonotone(radius, Abs(a));
  }

  /** Every point `hit` reports lies in the sphere's box whenever the ray's time
      is within the box's shutter interval. */
  lemma SphereHitInBox<M>(s: Sphere<M>, sqrt: real -> real, uv: (real, real), r: Ray, tMin: real, tMax: real,
                          time0: real, time1: real)
    requires IsSqrt(sqrt) && LengthSquared(r.dir) != 0.0 && s.radius > 0.0
    requires time0 <= r.tm <= time1
    ensures var res := SphereHit(s, sqrt, uv, r, tMin, tMax);
            res.Some? ==> Inside(SphereBox(s, time0, time1).value, res.value.p)
  {
    var res := SphereHit(s, sqrt, uv, r, tMin, tMax);
    if res.Some? {
      SphereHitNearest(s, sqrt, uv, r, tMin, tMax);
      SurfaceInRadiusBox(Center(s, r.tm), s.radius, res.value.p);
      SphereBoxCoversMotion(s, time0, time1, r.tm);
      InsideContained(SphereBox(s, time0, time1).value, RadiusBox(Center(s, r.tm), s.radius), res.value.p);
    }
  }
}
