/** The shading recursion and the per-row pixel loop of src/main.rs.

    The world is any hittable, reached through a `HitFn`. The scatter of the
    material a ray hits is a parameter `scatter(depth, rIn, rec)`, keyed by the
    remaining depth so that each bounce may draw afresh; `toUnit` is
    `Vec3::to_unit` and `infinity` the `INFINITY` passed as the far bound. In
    the row loop, `sample(j, i, s)` is the colour `ray_color` returns for sample
    `s` of pixel `i` of row `j` (camera ray, jitter and shading together). */
module Render {
  import opened Wrappers
  import opened Vectors
  import opened Rays
  import opened Hittables
  import opened Colors
  import Materials

  /** `RayColorMode`. */
  datatype RayColorMode =
    | BlockColor(color: Vec3)
    | ShadeNormal
    | Depth(maxT: real)
    | MaterialMode(depth: int)

  /** `Material::scatter` of the material in a record, at a remaining depth. */
  type ScatterFn<!M> = (int, Ray, HitRecord<M>) -> Option<(Vec3, Ray)>

  /** The closest `t` a ray is searched from, to skip self-intersection. */
  const TMin: real := 0.001

  /** Depth mode divides by `maxT`. */
  predicate ModeDefined(mode: RayColorMode) {
    mode.Depth? ==> mode.maxT != 0.0
  }

  /** The bound on the recursion: the remaining depth in material mode. */
  function Remaining(mode: RayColorMode): nat {
    if mode.MaterialMode? && mode.depth > 0 then mode.depth else 0
  }

  /** The background of a ray that hits nothing, from its unit direction:
      white at the bottom, sky blue at the top. */
  function Sky(unitDirection: Vec3): Vec3 {
    Lerp(0.5 * (unitDirection.y + 1.0), Vec3(1.0, 1.0, 1.0), Vec3(0.5, 0.7, 1.0))
  }

  /** `ray_color`. */
  function RayColor<W, M>(r: Ray, world: W, hit: HitFn<W, M>, scatter: ScatterFn<M>,
                          toUnit: Vec3 -> Vec3, infinity: real, mode: RayColorMode): Vec3
    requires ModeDefined(mode)
    decreases Remaining(mode)
  {
    if mode.MaterialMode? && mode.depth <= 0 then Zero()
    else
      match hit(world, r, TMin, infinity)
      case Some(rec) =>
        (match mode
         case BlockColor(color) => color
         case ShadeNormal => Scale(Add(rec.normal, Vec3(1.0, 1.0, 1.0)), 0.5)
         case Depth(maxT) => Sub(One(), Scale(One(), rec.t / maxT))
         case MaterialMode(depth) =>
           match scatter(depth, r, rec)
           case Some((attenuation, scattered)) =>
             Mul(attenuation, RayColor(scattered, world, hit, scatter, toUnit, infinity, MaterialMode(depth - 1)))
           case None => Zero())
      case None => Sky(toUnit(Direction(r)))
  }

  /** Out of depth, material mode returns black whatever the world. */
  lemma RayColorOutOfDepth<W, M>(r: Ray, world: W, hit: HitFn<W, M>, scatter: ScatterFn<M>,
                                 toUnit: Vec3 -> Vec3, infinity: real, depth: int)
    requires depth <= 0
    ensures RayColor(r, world, hit, scatter, toUnit, infinity, MaterialMode(depth)) == Zero()
  {
  }

  /** A ray that hits nothing gets the sky, in every mode (with depth left). */
  lemma RayColorMiss<W, M>(r: Ray, world: W, hit: HitFn<W, M>, scatter: ScatterFn<M>,
                           toUnit: Vec3 -> Vec3, infinity: real, mode: RayColorMode)
    requires ModeDefined(mode) && !(mode.MaterialMode? && mode.depth <= 0)
    requires hit(world, r, TMin, infinity).None?
    ensures RayColor(r, world, hit, scatter, toUnit, infinity, mode) == Sky(toUnit(Direction(r)))
    ensures var u := toUnit(Direction(r)); var t := 0.5 * (u.y + 1.0);
            RayColor(r, world, hit, scatter, toUnit, infinity, mode) ==
              Vec3(1.0 - 0.5 * t, 1.0 - 0.3 * t, 1.0)
  {
  }

  /** The shade of a hit in the three debugging modes. */
  lemma RayColorDebugModes<W, M>(r: Ray, world: W, hit: HitFn<W, M>, scatter: ScatterFn<M>,
                                 toUnit: Vec3 -> Vec3, infinity: real, mode: RayColorMode)
    requires ModeDefined(mode) && !mode.MaterialMode?
    requires hit(world, r, TMin, infinity).Some?
    ensures var rec := hit(world, r, TMin, infinity).value;
            var c := RayColor(r, world, hit, scatter, toUnit, infinity, mode);
            (mode.BlockColor? ==> c == mode.color) &&
            (mode.ShadeNormal? ==>
               c == Vec3(0.5 * (rec.normal.x + 1.0), 0.5 * (rec.normal.y + 1.0), 0.5 * (rec.normal.z + 1.0))) &&
            (mode.Depth? ==> var f := 1.0 - rec.t / mode.maxT; c == Vec3(f, f, f))
  {
  }

  /** In material mode a hit is black when absorbed, and otherwise the
      attenuation times the colour of the scattered ray one level deeper. */
  lemma RayColorMaterial<W, M>(r: Ray, world: W, hit: HitFn<W, M>, scatter: ScatterFn<M>,
                               toUnit: Vec3 -> Vec3, infinity: real, depth: int)
    requires depth > 0 && hit(world, r, TMin, infinity).Some?
    ensures var rec := hit(world, r, TMin, infinity).value;
            var c := RayColor(r, world, hit, scatter, toUnit, infinity, MaterialMode(depth));
            (scatter(depth, r, rec).None? ==> c == Zero()) &&
            (scatter(depth, r, rec).Some? ==>
               var (attenuation, scattered) := scatter(depth, r, rec).value;
               c == Mul(attenuation, RayColor(scattered, world, hit, scatter, toUnit, infinity, MaterialMode(depth - 1))))
  {
  }

  /** Recursion is bounded by the initial depth: the colour depends on the
      scatter only at remaining depths `depth, depth - 1, ..., 1`. */
  lemma {:induction false} RayColorBoundedDepth<W, M(!new)>(r: Ray, world: W, hit: HitFn<W, M>,
                                                      scatter: ScatterFn<M>, scatter': ScatterFn<M>,
                                                      toUnit: Vec3 -> Vec3, infinity: real, depth: int)
    requires AgreeUpTo(scatter, scatter', depth)
    ensures RayColor(r, world, hit, scatter, toUnit, infinity, MaterialMode(depth)) ==
            RayColor(r, world, hit, scatter', toUnit, infinity, MaterialMode(depth))
    decreases Remaining(MaterialMode(depth))
  {
    if depth > 0 {
      var h := hit(world, r, TMin, infinity);
      if h.Some? {
        var s := scatter(depth, r, h.value);
        AgreeAt(scatter, scatter', depth, depth, r, h.value);
        if s.Some? {
          RayColorBoundedDepth(s.value.1, world, hit, scatter, scatter', toUnit, infinity, depth - 1);
        }
      }
    }
  }

  /** Two scatters that agree at every remaining depth `1..depth`. */
  ghost predicate AgreeUpTo<M(!new)>(scatter: ScatterFn<M>, scatter': ScatterFn<M>, depth: int) {
    forall k: int, rIn: Ray, rec: HitRecord<M> :: 1 <= k <= depth ==> scatter(k, rIn, rec) == scatter'(k, rIn, rec)
  }

  lemma AgreeAt<M(!new)>(scatter: ScatterFn<M>, scatter': ScatterFn<M>, depth: int, k: int, rIn: Ray, rec: HitRecord<M>)
    requires AgreeUpTo(scatter, scatter', depth) && 1 <= k <= depth
    ensures scatter(k, rIn, rec) == scatter'(k, rIn, rec)
  {
  }

  /** Every component in `[0, 1]`. */
  predicate InUnitCube(c: Vec3) {
    0.0 <= c.x <= 1.0 && 0.0 <= c.y <= 1.0 && 0.0 <= c.z <= 1.0
  }

  /** Attenuations in the unit cube keep material-mode colours in it: every
      bounce can only darken, and the sky is within `[0.5, 1]`. */
  lemma {:induction false} RayColorInUnitCube<W, M(!new)>(r: Ray, world: W, hit: HitFn<W, M>,
                                                    scatter: ScatterFn<M>, toUnit: Vec3 -> Vec3,
                                                    infinity: real, depth: int)
    requires Darkens(scatter)
    requires forall d :: -1.0 <= toUnit(d).y <= 1.0
    ensures InUnitCube(RayColor(r, world, hit, scatter, toUnit, infinity, MaterialMode(depth)))
    decreases Remaining(MaterialMode(depth))
  {
    if depth > 0 {
      var h := hit(world, r, TMin, infinity);
      if h.Some? {
        var s := scatter(depth, r, h.value);
        if s.Some? {
          RayColorInUnitCube(s.value.1, world, hit, scatter, toUnit, infinity, depth - 1);
          var c := RayColor(s.value.1, world, hit, scatter, toUnit, infinity, MaterialMode(depth - 1));
          DarkensAt(scatter, depth, r, h.value);
          UnitProducts(s.value.0, c);
        }
      } else {
        SkyInUnitCube(toUnit(Direction(r)));
      }
    }
  }

  /** Every attenuation a scatter returns lies in the unit cube. */
  ghost predicate Darkens<M(!new)>(scatter: ScatterFn<M>) {
    forall k: int, rIn: Ray, rec: HitRecord<M> :: scatter(k, rIn, rec).Some? ==> InUnitCube(scatter(k, rIn, rec).value.0)
  }

  lemma DarkensAt<M(!new)>(scatter: ScatterFn<M>, k: int, rIn: Ray, rec: HitRecord<M>)
    requires Darkens(scatter) && scatter(k, rIn, rec).Some?
    ensures InUnitCube(scatter(k, rIn, rec).value.0)
  {
  }

  lemma SkyInUnitCube(u: Vec3)
    requires -1.0 <= u.y <= 1.0
    ensures InUnitCube(Sky(u))
  {
  }

  lemma UnitProducts(a: Vec3, b: Vec3)
    requires InUnitCube(a) && InUnitCube(b)
    ensures InUnitCube(Mul(a, b))
  {
    Materials.UnitProduct(a.x, b.x);
    Materials.UnitProduct(a.y, b.y);
    Materials.UnitProduct(a.z, b.z);
  }

  // ----- The render task -----

  /** `RenderConfig`, the fields the row loop uses. The sample count is a
      `u32` here and an `i32` where `color_as_rgb8` takes it; the model uses one
      integer for both. */
  datatype RenderConfig = RenderConfig(imageWidth: nat, imageHeight: nat, samplesPerPixel: nat)

  /** `RenderConfig::image_pixel_count`. */
  function ImagePixelCount(config: RenderConfig): nat {
    config.imageWidth * config.imageHeight
  }

  /** The pixels in the first `rows` rows, counted row by row. */
  function RowPixels(config: RenderConfig, rows: nat): nat {
    if rows == 0 then 0 else RowPixels(config, rows - 1) + config.imageWidth
  }

  /** The pixel count is the number of pixels the rows of the image hold,
      `image_width` per row over `image_height` rows. */
  lemma {:induction false} PixelCountIsRows(config: RenderConfig, rows: nat)
    ensures RowPixels(config, rows) == config.imageWidth * rows
    ensures rows == config.imageHeight ==> RowPixels(config, rows) == ImagePixelCount(config)
  {
    if rows > 0 {
      PixelCountIsRows(config, rows - 1);
      assert config.imageWidth * rows == config.imageWidth * (rows - 1) + config.imageWidth;
    }
  }

  /** The sum of the first `n` samples of pixel `i` in row `j`. */
  function SampleSum(sample: (nat, nat, nat) -> Vec3, j: nat, i: nat, n: nat): Vec3 {
    if n == 0 then Zero() else Add(SampleSum(sample, j, i, n - 1), sample(j, i, n - 1))
  }

  /** The pixel `i` of row `j`: the quantised sum of its samples. */
  function Pixel(config: RenderConfig, sample: (nat, nat, nat) -> Vec3, j: nat, i: nat): Rgb8 {
    ColorAsRgb8(SampleSum(sample, j, i, config.samplesPerPixel), config.samplesPerPixel)
  }

  /** The body run for row `j` of the render: nothing when the abort flag is
      set before the row is started (`abortBefore`) or when it is found set
      after the pixel loop (`abortAfter`); otherwise the line of pixels to
      send. */
  method RenderRow(config: RenderConfig, sample: (nat, nat, nat) -> Vec3, j: nat,
                   abortBefore: bool, abortAfter: bool) returns (line: Option<seq<Rgb8>>)
    ensures line.None? <==> abortBefore || abortAfter
    ensures line.Some? ==> |line.value| == config.imageWidth
    ensures line.Some? ==> forall i :: 0 <= i < config.imageWidth ==> line.value[i] == Pixel(config, sample, j, i)
  {
    if abortBefore {
      return None;
    }
    var linePixels: seq<Rgb8> := [];
    for i := 0 to config.imageWidth
      invariant |linePixels| == i
      invariant forall k :: 0 <= k < i ==> linePixels[k] == Pixel(config, sample, j, k)
    {
      var pixelColor := Zero();
      for s := 0 to config.samplesPerPixel
        invariant pixelColor == SampleSum(sample, j, i, s)
      {
        pixelColor := Add(pixelColor, sample(j, i, s));
      }
      var rgb8 := ColorAsRgb8(pixelColor, config.samplesPerPixel);
      linePixels := linePixels + [rgb8];
    }
    if abortAfter {
      return None;
    }
    return Some(linePixels);
  }

  /** Samples that are all black give a black pixel, for any sample count. */
  lemma {:induction false} BlackSamplesBlackPixel(config: RenderConfig, sample: (nat, nat, nat) -> Vec3,
                                                  j: nat, i: nat)
    requires forall s :: 0 <= s < config.samplesPerPixel ==> sample(j, i, s) == Zero()
    ensures Pixel(config, sample, j, i) == Rgb8(0, 0, 0)
  {
    BlackSum(sample, j, i, config.samplesPerPixel);
    if config.samplesPerPixel > 0 {
      ColorAsRgb8Channels(Zero(), config.samplesPerPixel);
    }
  }

  lemma {:induction false} BlackSum(sample: (nat, nat, nat) -> Vec3, j: nat, i: nat, n: nat)
    requires forall s :: 0 <= s < n ==> sample(j, i, s) == Zero()
    ensures SampleSum(sample, j, i, n) == Zero()
  {
    if n > 0 {
      BlackSum(sample, j, i, n - 1);
    }
  }
}
