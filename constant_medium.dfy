/** The constant-density volume of src/constant_medium.rs: a boundary object
    filled with a participating medium, and its isotropic phase function.

    The boundary is any hittable, reached through a `HitFn`/`BoxFn` pair. The
    uniform draw and the natural logarithm applied to it are parameters; the
    ray length is `sqrt` of the squared direction length. */
module Media {
  import opened Wrappers
  import opened Vectors
  import opened Rays
  import opened Aabbs
  import opened Hittables
  import opened Textures

  /** `f64::MAX`, `(2^53 - 1) * 2^971`. */
  const MaxFinite: real := 179769313486231570814527423731704356798070567525844996598917476803157260780028538760589558632766878171540458953514382464234321326889464182768467546703537516986049910576551282076245490090389328944075868508455133942304583236903222948165808559332123348274797826204144723168738177180919299881250404026184124858368.0

  /** `Isotropic`: scatters uniformly, coloured by its texture. */
  datatype Isotropic = Isotropic(albedo: Texture)

  datatype ConstantMedium<H> = ConstantMedium(boundary: H, phaseFunction: Isotropic, negInvDensity: real)

  /** `ConstantMedium::new`: stores `-1/density`; a zero density would divide
      by zero. */
  function NewMedium<H>(boundary: H, texture: Texture, density: real): (m: ConstantMedium<H>)
    requires density != 0.0
    ensures m.boundary == boundary && m.phaseFunction == Isotropic(texture)
    ensures m.negInvDensity * density == -1.0
  {
    ConstantMedium(boundary, Isotropic(texture), -1.0 / density)
  }

  /** A positive density gives a negative `negInvDensity`. */
  lemma NewMediumSign<H>(boundary: H, texture: Texture, density: real)
    requires density > 0.0
    ensures NewMedium(boundary, texture, density).negInvDensity < 0.0
  {
  }

  /** The facts the model relies on about the logarithm the source calls: it
      is never positive on `(0, 1]`. */
  ghost predicate LnNonPositive(ln: real -> real) {
    forall x {:trigger ln(x)} :: 0.0 < x <= 1.0 ==> ln(x) <= 0.0
  }

  /** The two boundary crossings: the first anywhere along the line, the second
      beyond the first. `None` when either query misses. */
  function Crossings<H, M>(cm: ConstantMedium<H>, hit: HitFn<H, M>, r: Ray)
    : (c: Option<(HitRecord<M>, HitRecord<M>)>)
    ensures c.Some? <==>
              hit(cm.boundary, r, -MaxFinite, MaxFinite).Some? &&
              hit(cm.boundary, r, hit(cm.boundary, r, -MaxFinite, MaxFinite).value.t + 0.0001, MaxFinite).Some?
    ensures c.Some? ==>
              c.value.0 == hit(cm.boundary, r, -MaxFinite, MaxFinite).value &&
              c.value.1 == hit(cm.boundary, r, c.value.0.t + 0.0001, MaxFinite).value
  {
    match hit(cm.boundary, r, -MaxFinite, MaxFinite)
    case None => None
    case Some(rec1) =>
      match hit(cm.boundary, r, rec1.t + 0.0001, MaxFinite)
      case None => None
      case Some(rec2) => Some((rec1, rec2))
  }

  /** The entry parameter raised to `tMin`. */
  function Entry(t1: real, tMin: real): (e: real)
    ensures e >= tMin && e >= t1 && (e == t1 || e == tMin)
  {
    if t1 < tMin then tMin else t1
  }

  /** The exit parameter lowered to `tMax`. */
  function Exit(t2: real, tMax: real): (e: real)
    ensures e <= tMax && e <= t2 && (e == t2 || e == tMax)
  {
    if t2 > tMax then tMax else t2
  }

  /** The entry, after the emptiness check, raised to 0. */
  function NonNegative(t: real): (e: real)
    ensures e >= 0.0 && e >= t && (e == t || e == 0.0)
  {
    if t < 0.0 then 0.0 else t
  }

  /** `r.direction().length()`. */
  function RayLength(sqrt: real -> real, r: Ray): real {
    sqrt(LengthSquared(Direction(r)))
  }

  /** `neg_inv_density * draw.ln()`. */
  function HitDistance<H>(cm: ConstantMedium<H>, ln: real -> real, draw: real): real {
    cm.negInvDensity * ln(draw)
  }

  /** The distance through the medium between two parameters. */
  function DistanceInside(entry: real, exit: real, length: real): real {
    (exit - entry) * length
  }

  /** A nonzero direction has a positive length. */
  lemma RayLengthPositive(sqrt: real -> real, r: Ray)
    requires IsSqrt(sqrt) && LengthSquared(r.dir) != 0.0
    ensures RayLength(sqrt, r) > 0.0
  {
    var x := LengthSquared(r.dir);
    assert 0.0 <= sqrt(x) && sqrt(x) * sqrt(x) == x;
  }

  /** With a positive density and a draw in `(0, 1]`, the sampled distance is
      not negative. */
  lemma HitDistanceNonNegative<H>(cm: ConstantMedium<H>, ln: real -> real, draw: real)
    requires cm.negInvDensity <= 0.0 && LnNonPositive(ln) && 0.0 < draw <= 1.0
    ensures HitDistance(cm, ln, draw) >= 0.0
  {
    assert ln(draw) <= 0.0;
    MulNonNegative(-cm.negInvDensity, -ln(draw));
  }

  /** A distance within `(exit - entry) * length`, walked at `length` per unit
      of `t` from `entry`, stays within `[entry, exit]`. */
  lemma StepWithin(entry: real, exit: real, length: real, d: real)
    requires length > 0.0 && 0.0 <= d <= DistanceInside(entry, exit, length)
    ensures entry <= entry + d / length <= exit
  {
    var q := d / length;
    assert q * length == d;
    QuotientSign(d, length);
    if q > exit - entry {
      MulPositive(q - (exit - entry), length);
    }
  }

  /** `ConstantMedium::hit`. The entry and exit records are clamped in place
      (`rec1.t` up to `tMin`, `rec2.t` down to `tMax`, then `rec1.t` up to 0)
      before the sampled distance decides between a hit and a pass-through.
      `draw` is the uniform draw in `[0, 1)` and `ln` the logarithm applied to
      it. */
  method Hit<H, M>(cm: ConstantMedium<H>, hit: HitFn<H, M>, sqrt: real -> real, ln: real -> real,
                   draw: real, r: Ray, tMin: real, tMax: real)
    returns (res: Option<HitRecord<Isotropic>>)
    requires IsSqrt(sqrt) && LengthSquared(r.dir) != 0.0
    // either boundary query misses: no hit
    ensures Crossings(cm, hit, r).None? ==> res.None?
    // the clamped interval is empty or inverted: no hit
    ensures Crossings(cm, hit, r).Some? ==>
              var c := Crossings(cm, hit, r).value;
              Entry(c.0.t, tMin) >= Exit(c.1.t, tMax) ==> res.None?
    // otherwise the sampled distance decides
    ensures Crossings(cm, hit, r).Some? ==>
              var c := Crossings(cm, hit, r).value;
              var entry := NonNegative(Entry(c.0.t, tMin));
              var exit := Exit(c.1.t, tMax);
              Entry(c.0.t, tMin) < exit ==>
                (res.Some? <==>
                   HitDistance(cm, ln, draw) <= DistanceInside(entry, exit, RayLength(sqrt, r)))
    // what a hit reports
    ensures res.Some? ==>
              Crossings(cm, hit, r).Some? &&
              var c := Crossings(cm, hit, r).value;
              var entry := NonNegative(Entry(c.0.t, tMin));
              res.value.t == entry + HitDistance(cm, ln, draw) / RayLength(sqrt, r) &&
              res.value.u == c.0.u && res.value.v == c.0.v &&
              res.value.p == At(r, res.value.t) && res.value.mat == cm.phaseFunction &&
              res.value.normal == (if res.value.frontFace then Vec3(1.0, 0.0, 0.0) else Vec3(-1.0, 0.0, 0.0))
    // with a positive density and a draw in (0, 1], a hit lies in the clamped interval
    ensures res.Some? && cm.negInvDensity <= 0.0 && LnNonPositive(ln) && 0.0 < draw <= 1.0 ==>
              var c := Crossings(cm, hit, r).value;
              NonNegative(Entry(c.0.t, tMin)) <= res.value.t <= Exit(c.1.t, tMax) &&
              tMin <= res.value.t <= tMax
  {
    var first := hit(cm.boundary, r, -MaxFinite, MaxFinite);
    if first.None? {
      return None;
    }
    var rec1 := first.value;
    var second := hit(cm.boundary, r, rec1.t + 0.0001, MaxFinite);
    if second.None? {
      return None;
    }
    var rec2 := second.value;

    if rec1.t < tMin {
      rec1 := rec1.(t := tMin);
    }
    if rec2.t > tMax {
      rec2 := rec2.(t := tMax);
    }
    if rec1.t >= rec2.t {
      return None;
    }
    if rec1.t < 0.0 {
      rec1 := rec1.(t := 0.0);
    }

    var rayLength := RayLength(sqrt, r);
    RayLengthPositive(sqrt, r);
    var distanceInsideBoundary := DistanceInside(rec1.t, rec2.t, rayLength);
    var hitDistance := HitDistance(cm, ln, draw);

    if hitDistance > distanceInsideBoundary {
      return None;
    }

    if cm.negInvDensity <= 0.0 && LnNonPositive(ln) && 0.0 < draw <= 1.0 {
      HitDistanceNonNegative(cm, ln, draw);
      StepWithin(rec1.t, rec2.t, rayLength, hitDistance);
    }
    var t := rec1.t + hitDistance / rayLength;
    res := Some(NewHitRecord(t, (rec1.u, rec1.v), r, Vec3(1.0, 0.0, 0.0), cm.phaseFunction));
  }

  /** `ConstantMedium::bounding_box`: exactly the boundary's box. */
  function MediumBox<H>(cm: ConstantMedium<H>, boxOf: BoxFn<H>, time0: real, time1: real): (res: Option<Aabb>)
    ensures res == boxOf(cm.boundary, time0, time1)
  {
    boxOf(cm.boundary, time0, time1)
  }

  /** `Isotropic::scatter`, given the unit-sphere sample it draws: it always
      scatters, from the hit point, at the incoming ray's time, tinted by the
      texture at the hit. */
  function IsotropicScatter<M>(iso: Isotropic, sin: real -> real, rIn: Ray, rec: HitRecord<M>,
                               inUnitSphere: Vec3): (res: Option<(Vec3, Ray)>)
    ensures res.Some?
    ensures res.value.0 == Value(iso.albedo, sin, rec.u, rec.v, rec.p)
    ensures res.value.1 == Ray(rec.p, inUnitSphere, rIn.tm)
  {
    Some((Value(iso.albedo, sin, rec.u, rec.v, rec.p), NewRay(rec.p, inUnitSphere, Some(Time(rIn)))))
  }

  /** The attenuation is always one of the texture's solid colours. */
  lemma IsotropicScatterColor<M>(iso: Isotropic, sin: real -> real, rIn: Ray, rec: HitRecord<M>,
                                 inUnitSphere: Vec3)
    ensures IsotropicScatter(iso, sin, rIn, rec, inUnitSphere).value.0 in Colors(iso.albedo)
  {
    ValueAmongColors(iso.albedo, sin, rec.u, rec.v, rec.p);
  }
}
