/** The materials of src/material.rs and Schlick's reflectance approximation.

    The calls the source makes into code this model does not see are the
    fields of `Numerics`; the random draws one scatter consumes are the fields
    of `Draws`. The source builds every scattered ray with the two-argument
    form of `Ray::new`, and `rayTime` stands for the time such a call gives. */
module Materials {
  import opened Wrappers
  import opened Vectors
  import opened Rays
  import opened Hittables

  datatype Material =
    | DiffuseHack(albedo: Vec3)
    | DiffuseLambertian(albedo: Vec3)
    | DiffuseHemispherical(albedo: Vec3)
    | Metal(albedo: Vec3, fuzz: real)
    | Dielectric(ir: real)

  /** `f64::sqrt`, `Vec3::to_unit` and `Vec3::refract`. */
  datatype Numerics = Numerics(sqrt: real -> real, toUnit: Vec3 -> Vec3, refract: (Vec3, Vec3, real) -> Vec3)

  /** `Vec3::random_in_unit_sphere`, `Vec3::random_unit_vector` and
      `random_double(0.0, 1.0)`. */
  datatype Draws = Draws(inUnitSphere: Vec3, unitVector: Vec3, uniform: real)

  predicate IsDiffuse(m: Material) {
    m.DiffuseHack? || m.DiffuseLambertian? || m.DiffuseHemispherical?
  }

  /** The direction a diffuse material proposes before the `near_zero` check. */
  function DiffuseCandidate(m: Material, normal: Vec3, draws: Draws): Vec3
    requires IsDiffuse(m)
  {
    match m
    case DiffuseHack(_) => Add(normal, draws.inUnitSphere)
    case DiffuseLambertian(_) => Add(normal, draws.unitVector)
    case DiffuseHemispherical(_) => RandomInHemisphere(normal, draws.inUnitSphere)
  }

  /** The fallback that avoids a degenerate scatter direction: a direction that
      is nearly zero is replaced by the normal. */
  function AvoidDegenerate(candidate: Vec3, normal: Vec3): (d: Vec3)
    ensures d == candidate || d == normal
    ensures NearZero(d) ==> d == normal && NearZero(normal)
  {
    if NearZero(candidate) then normal else candidate
  }

  /** `Metal`: the reflected unit direction perturbed by `fuzz` times a point
      of the unit ball. */
  function MetalDirection(rIn: Ray, normal: Vec3, fuzz: real, num: Numerics, draws: Draws): Vec3 {
    Add(Reflect(num.toUnit(Direction(rIn)), normal), Scale(draws.inUnitSphere, fuzz))
  }

  /** The refraction ratio: `1 / ir` entering through the front face, `ir`
      leaving. */
  function RefractionRatio(frontFace: bool, ir: real): real
    requires ir != 0.0
  {
    if frontFace then 1.0 / ir else ir
  }

  /** The ratios for entering and for leaving are reciprocal. */
  lemma RefractionRatiosReciprocal(ir: real)
    requires ir != 0.0
    ensures RefractionRatio(true, ir) * RefractionRatio(false, ir) == 1.0
    ensures RefractionRatio(true, 1.0) == 1.0 && RefractionRatio(false, 1.0) == 1.0
  {
  }

  /** `sin_theta` from `cos_theta`. */
  function SinTheta(num: Numerics, cosTheta: real): real {
    num.sqrt(1.0 - cosTheta * cosTheta)
  }

  /** `cos_theta`, clamped above at 1. */
  function CosTheta(unitDirection: Vec3, normal: Vec3): (c: real)
    ensures c <= 1.0
  {
    var d := Dot(Neg(unitDirection), normal);
    if d < 1.0 then d else 1.0
  }

  /** Snell's law has no solution: the ray must be reflected. */
  predicate CannotRefract(ratio: real, sinTheta: real) {
    ratio * sinTheta > 1.0
  }

  /** `Dielectric`: reflect when refraction is impossible or when the uniform
      draw falls below the reflectance; refract otherwise. */
  function DielectricDirection(rIn: Ray, rec: HitRecord, ir: real, num: Numerics, draws: Draws): Vec3
    requires ir != 0.0 && ir != -1.0
  {
    var ratio := RefractionRatio(rec.frontFace, ir);
    var unitDirection := num.toUnit(Direction(rIn));
    var cosTheta := CosTheta(unitDirection, rec.normal);
    var sinTheta := SinTheta(num, cosTheta);
    if CannotRefract(ratio, sinTheta) || Reflectance(cosTheta, ratio) > draws.uniform then
      Reflect(unitDirection, rec.normal)
    else
      num.refract(unitDirection, rec.normal, ratio)
  }

  /** `Material::scatter`: the attenuation and the scattered ray, or `None`
      when the ray is absorbed. */
  function Scatter<M>(m: Material, rIn: Ray, rec: HitRecord<M>, num: Numerics, draws: Draws,
                      rayTime: Option<real>): (res: Option<(Vec3, Ray)>)
    requires m.Dielectric? ==> m.ir != 0.0 && m.ir != -1.0
    ensures !m.Metal? ==> res.Some?
    ensures res.Some? ==> res.value.1.orig == rec.p && res.value.1.tm == rayTime.GetOr(0.0)
    ensures IsDiffuse(m) ==>
              res.value.0 == m.albedo &&
              res.value.1.dir == AvoidDegenerate(DiffuseCandidate(m, rec.normal, draws), rec.normal)
    ensures m.Metal? ==>
              (res.Some? <==> Dot(MetalDirection(rIn, rec.normal, m.fuzz, num, draws), rec.normal) > 0.0)
    ensures m.Metal? && res.Some? ==>
              res.value.0 == m.albedo && res.value.1.dir == MetalDirection(rIn, rec.normal, m.fuzz, num, draws)
    ensures m.Dielectric? ==>
              res.value.0 == One() && res.value.1.dir == DielectricDirection(rIn, rec, m.ir, num, draws)
  {
    match m
    case DiffuseHack(albedo) =>
      Some((albedo, NewRay(rec.p, AvoidDegenerate(DiffuseCandidate(m, rec.normal, draws), rec.normal), rayTime)))
    case DiffuseLambertian(albedo) =>
      Some((albedo, NewRay(rec.p, AvoidDegenerate(DiffuseCandidate(m, rec.normal, draws), rec.normal), rayTime)))
    case DiffuseHemispherical(albedo) =>
      Some((albedo, NewRay(rec.p, AvoidDegenerate(DiffuseCandidate(m, rec.normal, draws), rec.normal), rayTime)))
    case Metal(albedo, fuzz) =>
      var scattered := NewRay(rec.p, MetalDirection(rIn, rec.normal, fuzz, num, draws), rayTime);
      if Dot(Direction(scattered), rec.normal) > 0.0 then Some((albedo, scattered)) else None
    case Dielectric(ir) =>
      Some((Vec3(1.0, 1.0, 1.0), NewRay(rec.p, DielectricDirection(rIn, rec, ir, num, draws), rayTime)))
  }

  /** A diffuse scatter never goes nearly nowhere when the normal is not nearly
      zero. */
  lemma DiffuseScatterNonDegenerate<M>(m: Material, rIn: Ray, rec: HitRecord<M>, num: Numerics, draws: Draws,
                                       rayTime: Option<real>)
    requires IsDiffuse(m) && !NearZero(rec.normal)
    ensures !NearZero(Scatter(m, rIn, rec, num, draws, rayTime).value.1.dir)
  {
  }

  /** The hemispherical scatter never goes below the surface. */
  lemma HemisphericalScatterAbove<M>(albedo: Vec3, rIn: Ray, rec: HitRecord<M>, num: Numerics, draws: Draws,
                                     rayTime: Option<real>)
    ensures Dot(Scatter(DiffuseHemispherical(albedo), rIn, rec, num, draws, rayTime).value.1.dir, rec.normal) >= 0.0
  {
    var candidate := RandomInHemisphere(rec.normal, draws.inUnitSphere);
    assert Dot(rec.normal, rec.normal) == LengthSquared(rec.normal);
    assert Scatter(DiffuseHemispherical(albedo), rIn, rec, num, draws, rayTime).value.1.dir
        == AvoidDegenerate(candidate, rec.normal);
  }

  /** A metal scatter always leaves above the surface. A perfect mirror
      (`fuzz == 0`) hit from the front of a unit normal always scatters. */
  lemma MetalScatter<M>(albedo: Vec3, fuzz: real, rIn: Ray, rec: HitRecord<M>, num: Numerics, draws: Draws,
                        rayTime: Option<real>)
    ensures var res := Scatter(Metal(albedo, fuzz), rIn, rec, num, draws, rayTime);
            res.Some? ==> Dot(res.value.1.dir, rec.normal) > 0.0
    ensures fuzz == 0.0 && Dot(rec.normal, rec.normal) == 1.0 && Dot(num.toUnit(rIn.dir), rec.normal) < 0.0 ==>
              Scatter(Metal(albedo, fuzz), rIn, rec, num, draws, rayTime).Some?
  {
    if fuzz == 0.0 && Dot(rec.normal, rec.normal) == 1.0 {
      var v := num.toUnit(rIn.dir);
      ReflectFlipsNormalComponent(v, rec.normal);
      assert MetalDirection(rIn, rec.normal, fuzz, num, draws) == Reflect(v, rec.normal);
    }
  }

  /** When refraction is impossible the dielectric reflects, whatever the
      draw. */
  lemma DielectricTotalInternalReflection<M>(ir: real, rIn: Ray, rec: HitRecord<M>, num: Numerics, draws: Draws)
    requires ir != 0.0 && ir != -1.0
    requires var unitDirection := num.toUnit(rIn.dir);
             var cosTheta := CosTheta(unitDirection, rec.normal);
             CannotRefract(RefractionRatio(rec.frontFace, ir), SinTheta(num, cosTheta))
    ensures DielectricDirection(rIn, rec, ir, num, draws) == Reflect(num.toUnit(rIn.dir), rec.normal)
  {
  }

  /** When refraction is possible the dielectric refracts exactly when the draw
      is at least the reflectance. */
  lemma DielectricRefracts<M>(ir: real, rIn: Ray, rec: HitRecord<M>, num: Numerics, draws: Draws)
    requires ir != 0.0 && ir != -1.0
    requires var unitDirection := num.toUnit(rIn.dir);
             var cosTheta := CosTheta(unitDirection, rec.normal);
             var ratio := RefractionRatio(rec.frontFace, ir);
             !CannotRefract(ratio, SinTheta(num, cosTheta)) && Reflectance(cosTheta, ratio) <= draws.uniform
    ensures DielectricDirection(rIn, rec, ir, num, draws)
            == num.refract(num.toUnit(rIn.dir), rec.normal, RefractionRatio(rec.frontFace, ir))
  {
  }

  // ----- reflectance -----

  /** `((1 - ref_idx) / (1 + ref_idx))^2`, the reflectance at normal
      incidence. */
  function R0(refIdx: real): (r: real)
    requires refIdx != -1.0
    ensures r >= 0.0
  {
    Square((1.0 - refIdx) / (1.0 + refIdx))
  }

  /** `x.powi(5)`. */
  function Pow5(x: real): real {
    x * x * x * x * x
  }

  /** Schlick's approximation. */
  function Reflectance(cosine: real, refIdx: real): real
    requires refIdx != -1.0
  {
    var r0 := R0(refIdx);
    r0 + (1.0 - r0) * Pow5(1.0 - cosine)
  }

  lemma UnitProduct(a: real, b: real)
    requires 0.0 <= a <= 1.0 && 0.0 <= b <= 1.0
    ensures 0.0 <= a * b <= 1.0
  {
    MulNonNegative(a, b);
    MulNonNegative(1.0 - a, b);
    assert a * b == b - (1.0 - a) * b;
  }

  lemma Pow5Unit(x: real)
    requires 0.0 <= x <= 1.0
    ensures 0.0 <= Pow5(x) <= 1.0
  {
    UnitProduct(x, x);
    UnitProduct(x * x, x);
    UnitProduct(x * x * x, x);
    UnitProduct(x * x * x * x, x);
  }

  /** For a non-negative index, normal incidence reflects at most everything. */
  lemma R0Unit(refIdx: real)
    requires refIdx >= 0.0
    ensures R0(refIdx) <= 1.0
  {
    var q := (1.0 - refIdx) / (1.0 + refIdx);
    var d := 1.0 + refIdx;
    assert q * d == 1.0 - refIdx;
    assert -1.0 <= q <= 1.0 by {
      if q > 1.0 {
        MulPositive(q - 1.0, d);
      } else if q < -1.0 {
        MulPositive(-1.0 - q, d);
      }
    }
    UnitProduct(Abs(q), Abs(q));
    assert Abs(q) * Abs(q) == q * q;
  }

  /** For a cosine in `[0, 1]` and a non-negative index the reflectance lies
      between its normal-incidence value and 1; it is that value head-on
      (`cosine == 1`) and total at grazing incidence (`cosine == 0`). */
  lemma ReflectanceBounds(cosine: real, refIdx: real)
    requires 0.0 <= cosine <= 1.0 && refIdx >= 0.0
    ensures R0(refIdx) <= Reflectance(cosine, refIdx) <= 1.0
    ensures cosine == 1.0 ==> Reflectance(cosine, refIdx) == R0(refIdx)
    ensures cosine == 0.0 ==> Reflectance(cosine, refIdx) == 1.0
  {
    var r0 := R0(refIdx);
    var x := Pow5(1.0 - cosine);
    R0Unit(refIdx);
    Pow5Unit(1.0 - cosine);
    MulNonNegative(1.0 - r0, x);
    MulNonNegative(1.0 - r0, 1.0 - x);
    assert (1.0 - r0) * x == (1.0 - r0) - (1.0 - r0) * (1.0 - x);
  }

  /** The source's formula at `cosine == 1`: `((1 - ir) / (1 + ir))^2`. */
  lemma ReflectanceHeadOn(refIdx: real)
    requires refIdx != -1.0
    ensures Reflectance(1.0, refIdx) == ((1.0 - refIdx) / (1.0 + refIdx)) * ((1.0 - refIdx) / (1.0 + refIdx))
  {
  }
}
