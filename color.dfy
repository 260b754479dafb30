/** Pixel quantisation, src/color.rs: a summed sample colour is averaged over
    the sample count, clamped to `[0, 0.999]` and scaled to a byte. The code
    applies no gamma correction, and neither does the model. */
module Colors {
  import opened Vectors

  type Byte = b: int | 0 <= b < 256

  datatype Rgb8 = Rgb8(r: Byte, g: Byte, b: Byte)

  /** `f64::clamp(x, lo, hi)`. */
  function Clamp(x: real, lo: real, hi: real): (c: real)
    requires lo <= hi
    ensures lo <= c <= hi
    ensures lo <= x <= hi ==> c == x
  {
    if x < lo then lo else if x > hi then hi else x
  }

  /** The cast `as u8` of a value in `[0, 256)`: truncation toward zero,
      counted out one unit at a time. */
  function Truncate(x: real): nat
    requires 0.0 <= x
    decreases x.Floor
  {
    if x < 1.0 then 0 else 1 + Truncate(x - 1.0)
  }

  /** Truncation gives the integer part. */
  lemma {:induction false} TruncateBounds(x: real)
    requires 0.0 <= x
    ensures Truncate(x) as real <= x < Truncate(x) as real + 1.0
    decreases x.Floor
  {
    if x >= 1.0 {
      TruncateBounds(x - 1.0);
    }
  }

  lemma {:induction false} TruncateMonotone(x: real, y: real)
    requires 0.0 <= x <= y
    ensures Truncate(x) <= Truncate(y)
    decreases y.Floor
  {
    if x >= 1.0 {
      TruncateMonotone(x - 1.0, y - 1.0);
    }
  }

  /** `(256.0 * x.clamp(0.0, 0.999)) as u8`. */
  function Channel(x: real): (b: int)
    ensures 0 <= b <= 255
    ensures x <= 0.0 ==> b == 0
    ensures x >= 0.999 ==> b == 255
  {
    var scaled := 256.0 * Clamp(x, 0.0, 0.999);
    TruncateBounds(scaled);
    Truncate(scaled)
  }

  /** A larger input never gives a smaller byte. */
  lemma ChannelMonotone(x: real, y: real)
    requires x <= y
    ensures Channel(x) <= Channel(y)
  {
    TruncateMonotone(256.0 * Clamp(x, 0.0, 0.999), 256.0 * Clamp(y, 0.0, 0.999));
  }

  /** Each byte is the bucket of width `1/256` its clamped value falls in. */
  lemma ChannelBucket(x: real)
    ensures Channel(x) as real <= 256.0 * Clamp(x, 0.0, 0.999) < Channel(x) as real + 1.0
  {
    TruncateBounds(256.0 * Clamp(x, 0.0, 0.999));
  }

  /** `x *= scale`. */
  function Scaled(x: real, scale: real): real {
    x * scale
  }

  /** Every channel multiplied by `scale`, then quantised. */
  function ScaleChannels(c: Vec3, scale: real): Rgb8 {
    Rgb8(Channel(Scaled(c.x, scale)), Channel(Scaled(c.y, scale)), Channel(Scaled(c.z, scale)))
  }

  /** A channel scaled by `1.0 / 0.0`, which is infinite: a positive value
      becomes `+inf` and saturates, a negative one becomes `-inf` and clamps to
      0, and zero becomes NaN, which `clamp` keeps and `as u8` turns into 0. */
  function InfiniteScaleChannel(x: real): (b: Byte)
    ensures b == 255 <==> x > 0.0
    ensures b == 0 <==> x <= 0.0
  {
    if x > 0.0 then 255 else 0
  }

  /** `color_as_rgb8`. The sample count is an `i32`; a count of 0 makes the
      scale `1.0 / 0.0`, which is infinite. */
  function ColorAsRgb8(pixelColor: Vec3, samplesPerPixel: int): Rgb8 {
    if samplesPerPixel == 0 then
      Rgb8(InfiniteScaleChannel(pixelColor.x), InfiniteScaleChannel(pixelColor.y),
           InfiniteScaleChannel(pixelColor.z))
    else
      ScaleChannels(pixelColor, 1.0 / samplesPerPixel as real)
  }

  /** Scaling by `1/n` is the mean over `n` samples; it keeps the order of two
      sums and keeps a non-positive sum non-positive. */
  lemma ScaledMean(x: real, n: real)
    requires n > 0.0
    ensures Scaled(x, 1.0 / n) == x / n
    ensures x <= 0.0 ==> Scaled(x, 1.0 / n) <= 0.0
  {
  }

  lemma ScaledMonotone(x: real, y: real, s: real)
    requires x <= y && s >= 0.0
    ensures Scaled(x, s) <= Scaled(y, s)
  {
    MulNonNegative(y - x, s);
  }

  /** Each channel is the mean of the samples, quantised: black at or below
      0. */
  lemma ColorAsRgb8Channels(pixelColor: Vec3, samplesPerPixel: int)
    requires samplesPerPixel > 0
    ensures var c := ColorAsRgb8(pixelColor, samplesPerPixel);
            var n := samplesPerPixel as real;
            c.r == Channel(pixelColor.x / n) && c.g == Channel(pixelColor.y / n) &&
            c.b == Channel(pixelColor.z / n)
    ensures var c := ColorAsRgb8(pixelColor, samplesPerPixel);
            (pixelColor.x <= 0.0 ==> c.r == 0) && (pixelColor.y <= 0.0 ==> c.g == 0) &&
            (pixelColor.z <= 0.0 ==> c.b == 0)
  {
    var n := samplesPerPixel as real;
    ScaledMean(pixelColor.x, n);
    ScaledMean(pixelColor.y, n);
    ScaledMean(pixelColor.z, n);
  }

  /** Channel `a` of a pixel: red, green or blue. */
  function ChannelOf(c: Rgb8, a: Axis): Byte {
    if a == 0 then c.r else if a == 1 then c.g else c.b
  }

  /** Quantisation is monotone in each summed channel for a fixed sample count:
      a larger sum on an axis never gives a smaller byte on that axis. */
  lemma ColorAsRgb8Monotone(p: Vec3, q: Vec3, samplesPerPixel: int, a: Axis)
    requires samplesPerPixel > 0
    requires Component(p, a) <= Component(q, a)
    ensures ChannelOf(ColorAsRgb8(p, samplesPerPixel), a) <= ChannelOf(ColorAsRgb8(q, samplesPerPixel), a)
  {
    var s := 1.0 / samplesPerPixel as real;
    assert s > 0.0;
    ScaledMonotone(Component(p, a), Component(q, a), s);
    ChannelMonotone(Scaled(Component(p, a), s), Scaled(Component(q, a), s));
  }

  /** A mean of at least `0.999` saturates the channel. */
  lemma ColorAsRgb8Saturates(pixelColor: Vec3, samplesPerPixel: int)
    requires samplesPerPixel > 0
    requires pixelColor.x >= 0.999 * samplesPerPixel as real
    ensures ColorAsRgb8(pixelColor, samplesPerPixel).r == 255
  {
    var n := samplesPerPixel as real;
    var s := 1.0 / n;
    assert s > 0.0;
    ScaledMonotone(0.999 * n, pixelColor.x, s);
    ScaledMean(0.999 * n, n);
    assert (0.999 * n) / n == 0.999;
  }
}
