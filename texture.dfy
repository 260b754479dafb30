/** The textures of src/texture.rs: a solid colour, and a checker pattern that
    picks one of two textures by the sign of a product of sines. */
module Textures {
  import opened Vectors

  /** `ColorTexture` and `CheckerTexture`; a checker's two textures may be any
      texture, checkers included. */
  datatype Texture =
    | Solid(colorValue: Vec3)
    | Checker(scale: real, odd: Texture, even: Texture)

  /** `ColorTexture::from_rgb`. */
  function FromRgb(r: real, g: real, b: real): (t: Texture)
    ensures t.Solid? && t.colorValue == Vec3(r, g, b)
  {
    Solid(Vec3(r, g, b))
  }

  /** `CheckerTexture::from_colors`: odd squares `a`, even squares `b`. */
  function FromColors(scale: real, a: Vec3, b: Vec3): (t: Texture)
    ensures t.Checker? && t.scale == scale && t.odd == Solid(a) && t.even == Solid(b)
  {
    Checker(scale, Solid(a), Solid(b))
  }

  /** `sin(scale x) sin(scale y) sin(scale z)` with `sin` the sine the source
      calls. */
  function Sines(sin: real -> real, scale: real, p: Vec3): real {
    sin(scale * p.x) * sin(scale * p.y) * sin(scale * p.z)
  }

  /** `Texture::value`. */
  function Value(t: Texture, sin: real -> real, u: real, v: real, p: Vec3): Vec3 {
    match t
    case Solid(colorValue) => colorValue
    case Checker(scale, odd, even) =>
      if Sines(sin, scale, p) < 0.0 then Value(odd, sin, u, v, p) else Value(even, sin, u, v, p)
  }

  /** The solid colours a texture is built from. */
  function Colors(t: Texture): set<Vec3> {
    match t
    case Solid(c) => {c}
    case Checker(_, odd, even) => Colors(odd) + Colors(even)
  }

  /** Every value a texture returns is one of its solid colours, whatever the
      point and the sine. */
  lemma {:induction false} ValueAmongColors(t: Texture, sin: real -> real, u: real, v: real, p: Vec3)
    ensures Value(t, sin, u, v, p) in Colors(t)
  {
    match t
    case Solid(_) =>
    case Checker(_, odd, even) =>
      ValueAmongColors(odd, sin, u, v, p);
      ValueAmongColors(even, sin, u, v, p);
  }

  /** A checker from two colours returns `a` exactly where the sine product is
      negative and `b` everywhere else. */
  lemma FromColorsValue(scale: real, a: Vec3, b: Vec3, sin: real -> real, u: real, v: real, p: Vec3)
    ensures Value(FromColors(scale, a, b), sin, u, v, p) == if Sines(sin, scale, p) < 0.0 then a else b
    ensures Value(FromColors(scale, a, b), sin, u, v, p) in {a, b}
  {
  }

  /** A solid texture returns its colour at every coordinate. */
  lemma SolidValue(c: Vec3, sin: real -> real, u: real, v: real, p: Vec3)
    ensures Value(Solid(c), sin, u, v, p) == c
  {
  }

  /** A checker delegates to `odd` where the sine product is negative and to
      `even` elsewhere, at the same coordinates. */
  lemma CheckerValue(scale: real, odd: Texture, even: Texture, sin: real -> real, u: real, v: real, p: Vec3)
    ensures Value(Checker(scale, odd, even), sin, u, v, p)
            == if Sines(sin, scale, p) < 0.0 then Value(odd, sin, u, v, p) else Value(even, sin, u, v, p)
  {
  }
}
