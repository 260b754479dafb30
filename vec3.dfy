/** Three-component vectors (src/vec3.rs), used as points, directions and colours.
    Rust's f64 is modelled as an exact real. */
module Vectors {
  import opened Wrappers

  datatype Vec3 = Vec3(x: real, y: real, z: real)

  /** The three valid indices of a vector. */
  type Axis = a: int | 0 <= a < 3

  function Zero(): Vec3 { Vec3(0.0, 0.0, 0.0) }

  function One(): Vec3 { Vec3(1.0, 1.0, 1.0) }

  function Add(a: Vec3, b: Vec3): Vec3 { Vec3(a.x + b.x, a.y + b.y, a.z + b.z) }

  function Sub(a: Vec3, b: Vec3): Vec3 { Vec3(a.x - b.x, a.y - b.y, a.z - b.z) }

  function Neg(a: Vec3): Vec3 { Vec3(-a.x, -a.y, -a.z) }

  /** Component-wise product (`Mul<Self>`), used to attenuate colours. */
  function Mul(a: Vec3, b: Vec3): Vec3 { Vec3(a.x * b.x, a.y * b.y, a.z * b.z) }

  /** Scalar product, both `v * s` and `s * v`. */
  function Scale(v: Vec3, s: real): Vec3 { Vec3(v.x * s, v.y * s, v.z * s) }

  /** `v / s` is `v * (1 / s)`. */
  function Div(v: Vec3, s: real): Vec3
    requires s != 0.0
  {
    Scale(v, 1.0 / s)
  }

  /** `v *= s`: the new value of the vector. */
  function MulAssign(v: Vec3, s: real): Vec3 { Vec3(v.x * s, v.y * s, v.z * s) }

  /** `v /= s` multiplies in place by `1 / s`. */
  function DivAssign(v: Vec3, s: real): Vec3
    requires s != 0.0
  {
    MulAssign(v, 1.0 / s)
  }

  lemma DivAssignUndoneByMulAssign(v: Vec3, s: real)
    requires s != 0.0
    ensures MulAssign(DivAssign(v, s), s) == v
    ensures DivAssign(v, s) == Div(v, s)
  {
    assert 1.0 / s * s == 1.0;
  }

  lemma AddUndoneBySub(a: Vec3, b: Vec3)
    ensures Sub(Add(a, b), b) == a
    ensures Add(Sub(a, b), b) == a
    ensures Neg(Neg(a)) == a
  {
  }

  function Dot(a: Vec3, b: Vec3): real { a.x * b.x + a.y * b.y + a.z * b.z }

  function Cross(a: Vec3, b: Vec3): Vec3 {
    Vec3(a.y * b.z - a.z * b.y, a.z * b.x - a.x * b.z, a.x * b.y - a.y * b.x)
  }

  /** Over the reals the cross product is orthogonal to both operands. */
  lemma CrossOrthogonal(a: Vec3, b: Vec3)
    ensures Dot(Cross(a, b), a) == 0.0 && Dot(Cross(a, b), b) == 0.0
  {
  }

  /** The test vectors of the source's unit tests. */
  lemma DotCrossExamples()
    ensures Dot(Vec3(1.0, 2.0, 3.0), Vec3(4.0, 5.0, 6.0)) == 32.0
    ensures Cross(Vec3(1.0, 2.0, 3.0), Vec3(4.0, 5.0, 6.0)) == Vec3(-3.0, 6.0, -3.0)
    ensures LengthSquared(Vec3(1.0, 2.0, 3.0)) == 14.0
  {
  }

  function LengthSquared(v: Vec3): (r: real)
    ensures r >= 0.0
    ensures r == Dot(v, v)
  {
    Square(v.x) + Square(v.y) + Square(v.z)
  }

  function Square(a: real): (r: real)
    ensures r >= 0.0
  {
    a * a
  }

  lemma MulPositive(a: real, b: real)
    requires a > 0.0 && b > 0.0
    ensures a * b > 0.0
  {
  }

  lemma MulNonNegative(a: real, b: real)
    requires a >= 0.0 && b >= 0.0
    ensures a * b >= 0.0
  {
    if a > 0.0 && b > 0.0 {
      MulPositive(a, b);
    }
  }

  lemma ProductZero(x: real, y: real)
    ensures x * y == 0.0 <==> x == 0.0 || y == 0.0
  {
    if x != 0.0 && y != 0.0 {
      if x > 0.0 && y > 0.0 {
        MulPositive(x, y);
      } else if x > 0.0 {
        MulPositive(x, -y);
      } else if y > 0.0 {
        MulPositive(-x, y);
      } else {
        MulPositive(-x, -y);
      }
    }
  }

  /** Cancelling a non-zero factor. */
  lemma CancelFactor(x: real, y: real, d: real)
    requires d != 0.0 && x * d == y * d
    ensures x == y
  {
    assert (x - y) * d == 0.0;
    ProductZero(x - y, d);
  }

  lemma DivSelf(d: real)
    requires d != 0.0
    ensures d / d == 1.0
  {
  }

  /** Quotients by the same non-zero divisor add. */
  lemma DivAdd(a: real, b: real, d: real)
    requires d != 0.0
    ensures a / d + b / d == (a + b) / d
  {
    assert (a / d) * d == a && (b / d) * d == b && ((a + b) / d) * d == a + b;
    assert (a / d + b / d) * d == (a / d) * d + (b / d) * d;
    CancelFactor(a / d + b / d, (a + b) / d, d);
  }

  /** A non-negative quotient by a positive divisor is non-negative. */
  lemma QuotientSign(a: real, d: real)
    requires 0.0 <= a && 0.0 < d
    ensures 0.0 <= a / d
  {
  }

  lemma DifferenceOfSquares(a: real, b: real)
    ensures b * b - a * a == (b - a) * (b + a)
  {
  }

  /** Squaring is strictly increasing on the non-negative reals. */
  lemma SquareIncreasing(a: real, b: real)
    requires 0.0 <= a < b
    ensures a * a < b * b
  {
    DifferenceOfSquares(a, b);
    MulPositive(b - a, b + a);
  }

  /** A magnitude below `s` squares to below `s * s`. */
  lemma SquareBelow(a: real, s: real)
    requires Abs(a) < s
    ensures Square(a) < s * s
  {
    if a >= 0.0 {
      SquareIncreasing(a, s);
    } else {
      SquareIncreasing(-a, s);
      assert (-a) * (-a) == a * a;
    }
  }

  /** `v[i]`: indices 0, 1 and 2 read x, y and z; any other index panics (None). */
  function Index(v: Vec3, i: nat): (r: Option<real>)
    ensures r.Some? <==> i < 3
    ensures i == 0 ==> r == Some(v.x)
    ensures i == 1 ==> r == Some(v.y)
    ensures i == 2 ==> r == Some(v.z)
  {
    if i == 0 then Some(v.x)
    else if i == 1 then Some(v.y)
    else if i == 2 then Some(v.z)
    else None
  }

  /** `v[a]` for an index already known to be valid. */
  function Component(v: Vec3, a: Axis): (r: real)
    ensures Index(v, a) == Some(r)
  {
    if a == 0 then v.x else if a == 1 then v.y else v.z
  }

  /** `v[i] = value` through `IndexMut`: the vector after the write, or None
      where the source panics. */
  function SetIndex(v: Vec3, i: nat, value: real): (r: Option<Vec3>)
    ensures r.Some? <==> i < 3
    ensures r.Some? ==> Index(r.value, i) == Some(value)
    ensures r.Some? ==> forall j :: 0 <= j < 3 && j != i ==> Index(r.value, j) == Index(v, j)
  {
    if i == 0 then Some(Vec3(value, v.y, v.z))
    else if i == 1 then Some(Vec3(v.x, value, v.z))
    else if i == 2 then Some(Vec3(v.x, v.y, value))
    else None
  }

  /** The `index`, `indexmut`, `mul_scalar` and `div` unit tests. */
  lemma IndexExamples()
    ensures Index(Vec3(1.0, 2.0, 3.0), 0) == Some(1.0)
    ensures Index(Vec3(1.0, 2.0, 3.0), 2) == Some(3.0)
    ensures Index(Vec3(1.0, 2.0, 3.0), 3) == None
    ensures SetIndex(Zero(), 0, 1.0).Some?
    ensures SetIndex(SetIndex(SetIndex(Zero(), 0, 1.0).value, 1, 2.0).value, 2, 3.0)
              == Some(Vec3(1.0, 2.0, 3.0))
    ensures MulAssign(Vec3(1.0, 2.0, 3.0), 3.0) == Vec3(3.0, 6.0, 9.0)
    ensures DivAssign(Vec3(3.0, 6.0, 9.0), 3.0) == Vec3(1.0, 2.0, 3.0)
  {
  }

  /** Mirror `v` about the plane with normal `n`. */
  function Reflect(v: Vec3, n: Vec3): Vec3 {
    Sub(v, Scale(n, 2.0 * Dot(v, n)))
  }

  lemma DotSymmetric(a: Vec3, b: Vec3)
    ensures Dot(a, b) == Dot(b, a)
  {
  }

  lemma DotSubScale(v: Vec3, n: Vec3, k: real, m: Vec3)
    ensures Dot(Sub(v, Scale(n, k)), m) == Dot(v, m) - k * Dot(n, m)
  {
  }

  /** For a unit normal the reflection flips the normal component and keeps the length. */
  lemma ReflectFlipsNormalComponent(v: Vec3, n: Vec3)
    requires Dot(n, n) == 1.0
    ensures Dot(Reflect(v, n), n) == -Dot(v, n)
    ensures LengthSquared(Reflect(v, n)) == LengthSquared(v)
  {
    var d := Dot(v, n);
    var k := 2.0 * d;
    var w := Reflect(v, n);
    DotSubScale(v, n, k, n);
    assert Dot(w, n) == d - k;
    DotSubScale(v, n, k, w);
    DotSymmetric(v, w);
    DotSymmetric(n, w);
    DotSubScale(v, n, k, v);
    DotSymmetric(n, v);
    assert Dot(w, w) == Dot(v, v);
  }

  /** True when every component is below 1e-8 in magnitude. */
  function NearZero(v: Vec3): (r: bool)
    ensures r ==> LengthSquared(v) < 0.0000000000000003
    ensures v == Zero() ==> r
  {
    var s := 0.00000001;
    var r := Abs(v.x) < s && Abs(v.y) < s && Abs(v.z) < s;
    if r then
      SquareBelow(v.x, s);
      SquareBelow(v.y, s);
      SquareBelow(v.z, s);
      r
    else
      r
  }

  function Abs(a: real): (r: real)
    ensures r >= 0.0 && (r == a || r == -a)
  {
    if a < 0.0 then -a else a
  }

  /** Linear interpolation `(1 - t) a + t b`. */
  function Lerp(t: real, a: Vec3, b: Vec3): (r: Vec3)
    ensures t == 0.0 ==> r == a
    ensures t == 1.0 ==> r == b
  {
    Add(Scale(a, 1.0 - t), Scale(b, t))
  }

  /** The value the rejection loop returns for a sequence of `Vec3::random(-1, 1)`
      draws: the first one strictly inside the unit ball. */
  function FirstInUnitSphere(draws: seq<Vec3>): Option<Vec3> {
    if draws == [] then None
    else if LengthSquared(draws[0]) < 1.0 then Some(draws[0])
    else FirstInUnitSphere(draws[1..])
  }

  lemma {:induction false} FirstInUnitSphereInside(draws: seq<Vec3>)
    ensures FirstInUnitSphere(draws).Some? ==>
              LengthSquared(FirstInUnitSphere(draws).value) < 1.0 && FirstInUnitSphere(draws).value in draws
    ensures FirstInUnitSphere(draws).None? <==> forall k :: 0 <= k < |draws| ==> LengthSquared(draws[k]) >= 1.0
  {
    if draws != [] {
      FirstInUnitSphereInside(draws[1..]);
      if LengthSquared(draws[0]) >= 1.0 {
        assert forall k :: 1 <= k < |draws| ==> draws[k] == draws[1..][k - 1];
      }
    }
  }

  /** `random_in_unit_sphere`: the loop draws until a point lands strictly
      inside the unit ball. `draws` are the successive draws; the result is None
      only when the draws run out before one lands inside (the source keeps drawing). */
  method RandomInUnitSphere(draws: seq<Vec3>) returns (p: Option<Vec3>)
    ensures p == FirstInUnitSphere(draws)
    ensures p.Some? ==> LengthSquared(p.value) < 1.0
  {
    var k := 0;
    while k < |draws|
      invariant 0 <= k <= |draws|
      invariant FirstInUnitSphere(draws[k..]) == FirstInUnitSphere(draws)
    {
      if LengthSquared(draws[k]) < 1.0 {
        return Some(draws[k]);
      }
      assert draws[k..][1..] == draws[k + 1..];
      k := k + 1;
    }
    FirstInUnitSphereInside(draws);
    return None;
  }

  /** `random_in_hemisphere`, given the unit-sphere sample it draws. */
  function RandomInHemisphere(normal: Vec3, inUnitSphere: Vec3): (r: Vec3)
    ensures Dot(r, normal) >= 0.0
    ensures r == inUnitSphere || r == Neg(inUnitSphere)
    ensures LengthSquared(r) == LengthSquared(inUnitSphere)
  {
    assert LengthSquared(Neg(inUnitSphere)) == LengthSquared(inUnitSphere) by {
      NegKeepsLength(inUnitSphere);
    }
    if Dot(inUnitSphere, normal) > 0.0 then inUnitSphere else Neg(inUnitSphere)
  }

  lemma NegKeepsLength(v: Vec3)
    ensures Dot(Neg(v), Neg(v)) == Dot(v, v)
  {
  }

  /** The facts the model relies on about the square root the source calls. */
  ghost predicate IsSqrt(sqrt: real -> real) {
    forall x {:trigger sqrt(x)} :: 0.0 <= x ==> 0.0 <= sqrt(x) && sqrt(x) * sqrt(x) == x
  }
}
