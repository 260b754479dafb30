/** Axis-aligned bounding boxes (src/aabb.rs). */
module Aabbs {
  import opened Vectors
  import opened Rays

  datatype Aabb = Aabb(minimum: Vec3, maximum: Vec3)

  /** `min()`: the stored minimum corner. */
  function Min(b: Aabb): (p: Vec3)
    ensures p == b.minimum
  {
    b.minimum
  }

  /** `max()`: the stored maximum corner. */
  function Max(b: Aabb): (p: Vec3)
    ensures p == b.maximum
  {
    b.maximum
  }

  /** `f64::min` on non-NaN values. */
  function FMin(a: real, b: real): (r: real)
    ensures r <= a && r <= b && (r == a || r == b)
  {
    if a <= b then a else b
  }

  /** `f64::max` on non-NaN values. */
  function FMax(a: real, b: real): (r: real)
    ensures r >= a && r >= b && (r == a || r == b)
  {
    if a >= b then a else b
  }

  /** The values the slab divisions can produce: a finite quotient, an infinity
      from a non-zero numerator over a zero direction component, or NaN from 0/0. */
  datatype F64 = Finite(val: real) | PosInf | NegInf | NaN

  /** IEEE division of a finite numerator by a finite divisor. */
  function Quotient(x: real, d: real): (q: F64)
    ensures d != 0.0 ==> q == Finite(x / d)
    ensures d == 0.0 ==> (q == PosInf <==> x > 0.0) && (q == NegInf <==> x < 0.0) && (q == NaN <==> x == 0.0)
  {
    if d != 0.0 then Finite(x / d)
    else if x > 0.0 then PosInf
    else if x < 0.0 then NegInf
    else NaN
  }

  /** IEEE `a <= b`: false whenever either side is NaN. */
  predicate LessEq(a: F64, b: F64) {
    match (a, b)
    case (NaN, _) => false
    case (_, NaN) => false
    case (NegInf, _) => true
    case (_, PosInf) => true
    case (Finite(x), Finite(y)) => x <= y
    case (_, _) => false
  }

  /** `f64::min`: a NaN operand yields the other operand. */
  function F64Min(a: F64, b: F64): F64 {
    if a.NaN? then b else if b.NaN? then a else if LessEq(a, b) then a else b
  }

  /** `f64::max`: a NaN operand yields the other operand. */
  function F64Max(a: F64, b: F64): F64 {
    if a.NaN? then b else if b.NaN? then a else if LessEq(a, b) then b else a
  }

  /** The ray parameters at which the ray crosses the two planes of axis `a`. */
  function PlaneCrossing(b: Aabb, r: Ray, a: Axis): (F64, F64) {
    var d := Component(Direction(r), a);
    (Quotient(Component(Min(b), a) - Component(Origin(r), a), d),
     Quotient(Component(Max(b), a) - Component(Origin(r), a), d))
  }

  /** The narrowed `(t_min, t_max)` of one loop iteration. They are fresh `let`
      bindings, so every axis narrows the CALLER's interval. */
  function NarrowedInterval(b: Aabb, r: Ray, tMin: real, tMax: real, a: Axis): (F64, F64) {
    var (p, q) := PlaneCrossing(b, r, a);
    var t0 := F64Min(p, q);
    var t1 := F64Max(p, q);
    (F64Max(t0, Finite(tMin)), F64Min(t1, Finite(tMax)))
  }

  /** The iteration for axis `a` does not return false. */
  predicate AxisOverlaps(b: Aabb, r: Ray, tMin: real, tMax: real, a: Axis) {
    var (lo, hi) := NarrowedInterval(b, r, tMin, tMax, a);
    !LessEq(hi, lo)
  }

  /** The loop of `hit` from axis `a` on. */
  function HitFrom(b: Aabb, r: Ray, tMin: real, tMax: real, a: nat): bool
    requires a <= 3
    decreases 3 - a
  {
    if a == 3 then true
    else
      var (lo, hi) := NarrowedInterval(b, r, tMin, tMax, a);
      if LessEq(hi, lo) then false else HitFrom(b, r, tMin, tMax, a + 1)
  }

  /** `Aabb::hit`. */
  function Hit(b: Aabb, r: Ray, tMin: real, tMax: real): bool {
    HitFrom(b, r, tMin, tMax, 0)
  }

  lemma {:induction false} HitFromMeaning(b: Aabb, r: Ray, tMin: real, tMax: real, a: nat)
    requires a <= 3
    ensures HitFrom(b, r, tMin, tMax, a) <==>
              forall k: Axis :: a <= k ==> AxisOverlaps(b, r, tMin, tMax, k)
    decreases 3 - a
  {
    if a < 3 {
      HitFromMeaning(b, r, tMin, tMax, a + 1);
      assert HitFrom(b, r, tMin, tMax, a) ==
             (AxisOverlaps(b, r, tMin, tMax, a) && HitFrom(b, r, tMin, tMax, a + 1));
      assert (forall k: Axis :: a <= k ==> AxisOverlaps(b, r, tMin, tMax, k)) <==>
             AxisOverlaps(b, r, tMin, tMax, a) &&
             (forall k: Axis :: a + 1 <= k ==> AxisOverlaps(b, r, tMin, tMax, k));
    }
  }

  /** `hit` holds iff every axis, taken on its own, overlaps the caller's interval. */
  lemma HitMeaning(b: Aabb, r: Ray, tMin: real, tMax: real)
    ensures Hit(b, r, tMin, tMax) <==>
              AxisOverlaps(b, r, tMin, tMax, 0) && AxisOverlaps(b, r, tMin, tMax, 1) &&
              AxisOverlaps(b, r, tMin, tMax, 2)
  {
    HitFromMeaning(b, r, tMin, tMax, 0);
    assert AxisOverlaps(b, r, tMin, tMax, 0) && AxisOverlaps(b, r, tMin, tMax, 1) &&
           AxisOverlaps(b, r, tMin, tMax, 2) ==>
             forall k: Axis :: 0 <= k ==> AxisOverlaps(b, r, tMin, tMax, k);
  }

  /** On an axis the ray is not parallel to, the test is the textbook one on
      reals: the later of entry and `tMin` is before the earlier of exit and `tMax`. */
  lemma AxisOverlapsMoving(b: Aabb, r: Ray, tMin: real, tMax: real, a: Axis)
    requires Component(r.dir, a) != 0.0
    ensures var d := Component(r.dir, a);
            var p := (Component(b.minimum, a) - Component(r.orig, a)) / d;
            var q := (Component(b.maximum, a) - Component(r.orig, a)) / d;
            AxisOverlaps(b, r, tMin, tMax, a) <==> FMax(FMin(p, q), tMin) < FMin(FMax(p, q), tMax)
  {
  }

  /** On an axis the ray runs parallel to, the infinities and NaNs of the
      division make the test: the origin strictly between the two planes (or on
      a zero-width slab), and a non-empty interval. */
  lemma AxisOverlapsParallel(b: Aabb, r: Ray, tMin: real, tMax: real, a: Axis)
    requires Component(r.dir, a) == 0.0
    requires Component(b.minimum, a) <= Component(b.maximum, a)
    ensures var lo := Component(b.minimum, a);
            var hi := Component(b.maximum, a);
            var o := Component(r.orig, a);
            AxisOverlaps(b, r, tMin, tMax, a) <==> (lo < o < hi || lo == o == hi) && tMin < tMax
  {
  }

  /** An empty or inverted interval never hits, whatever the direction. */
  lemma HitEmptyInterval(b: Aabb, r: Ray, tMin: real, tMax: real)
    requires tMax <= tMin
    ensures !Hit(b, r, tMin, tMax)
  {
  }

  /** Point `p` lies in the closed box. */
  predicate Inside(b: Aabb, p: Vec3) {
    b.minimum.x <= p.x <= b.maximum.x &&
    b.minimum.y <= p.y <= b.maximum.y &&
    b.minimum.z <= p.z <= b.maximum.z
  }

  /** Point `p` lies strictly inside the box. */
  predicate InsideOpen(b: Aabb, p: Vec3) {
    b.minimum.x < p.x < b.maximum.x &&
    b.minimum.y < p.y < b.maximum.y &&
    b.minimum.z < p.z < b.maximum.z
  }

  lemma DivBelow(x: real, t: real, d: real)
    requires d > 0.0 && x < t * d
    ensures x / d < t
  {
  }

  lemma DivAbove(x: real, t: real, d: real)
    requires d > 0.0 && t * d < x
    ensures t < x / d
  {
  }

  lemma DivBelowNegative(x: real, t: real, d: real)
    requires d < 0.0 && t * d < x
    ensures x / d < t
  {
  }

  lemma DivAboveNegative(x: real, t: real, d: real)
    requires d < 0.0 && x < t * d
    ensures t < x / d
  {
  }

  /** A point of the ray strictly inside a slab has its parameter strictly
      between the slab's entry and exit. */
  lemma WithinSlab(lo: real, hi: real, o: real, d: real, t: real)
    requires d != 0.0
    requires lo < o + t * d < hi
    ensures FMin((lo - o) / d, (hi - o) / d) < t < FMax((lo - o) / d, (hi - o) / d)
  {
    if d > 0.0 {
      DivBelow(lo - o, t, d);
      DivAbove(hi - o, t, d);
    } else {
      DivAboveNegative(lo - o, t, d);
      DivBelowNegative(hi - o, t, d);
    }
  }

  /** One axis of the soundness argument, on the coordinates of that axis. */
  lemma SlabOverlap(lo: real, hi: real, o: real, d: real, tMin: real, tMax: real, t: real)
    requires d != 0.0
    requires tMin <= t <= tMax && tMin < tMax && lo < o + t * d < hi
    ensures FMax(FMin((lo - o) / d, (hi - o) / d), tMin) < FMin(FMax((lo - o) / d, (hi - o) / d), tMax)
  {
    WithinSlab(lo, hi, o, d, t);
  }

  lemma AxisOverlapsX(b: Aabb, r: Ray, tMin: real, tMax: real, t: real)
    requires tMin <= t <= tMax && tMin < tMax
    requires b.minimum.x < r.orig.x + t * r.dir.x < b.maximum.x
    ensures AxisOverlaps(b, r, tMin, tMax, 0)
  {
    assert Component(r.dir, 0) == r.dir.x && Component(r.orig, 0) == r.orig.x;
    assert Component(b.minimum, 0) == b.minimum.x && Component(b.maximum, 0) == b.maximum.x;
    if r.dir.x != 0.0 {
      SlabOverlap(b.minimum.x, b.maximum.x, r.orig.x, r.dir.x, tMin, tMax, t);
      AxisOverlapsMoving(b, r, tMin, tMax, 0);
    } else {
      AxisOverlapsParallel(b, r, tMin, tMax, 0);
    }
  }

  lemma AxisOverlapsY(b: Aabb, r: Ray, tMin: real, tMax: real, t: real)
    requires tMin <= t <= tMax && tMin < tMax
    requires b.minimum.y < r.orig.y + t * r.dir.y < b.maximum.y
    ensures AxisOverlaps(b, r, tMin, tMax, 1)
  {
    assert Component(r.dir, 1) == r.dir.y && Component(r.orig, 1) == r.orig.y;
    assert Component(b.minimum, 1) == b.minimum.y && Component(b.maximum, 1) == b.maximum.y;
    if r.dir.y != 0.0 {
      SlabOverlap(b.minimum.y, b.maximum.y, r.orig.y, r.dir.y, tMin, tMax, t);
      AxisOverlapsMoving(b, r, tMin, tMax, 1);
    } else {
      AxisOverlapsParallel(b, r, tMin, tMax, 1);
    }
  }

  lemma AxisOverlapsZ(b: Aabb, r: Ray, tMin: real, tMax: real, t: real)
    requires tMin <= t <= tMax && tMin < tMax
    requires b.minimum.z < r.orig.z + t * r.dir.z < b.maximum.z
    ensures AxisOverlaps(b, r, tMin, tMax, 2)
  {
    assert Component(r.dir, 2) == r.dir.z && Component(r.orig, 2) == r.orig.z;
    assert Component(b.minimum, 2) == b.minimum.z && Component(b.maximum, 2) == b.maximum.z;
    if r.dir.z != 0.0 {
      SlabOverlap(b.minimum.z, b.maximum.z, r.orig.z, r.dir.z, tMin, tMax, t);
      AxisOverlapsMoving(b, r, tMin, tMax, 2);
    } else {
      AxisOverlapsParallel(b, r, tMin, tMax, 2);
    }
  }

  /** Soundness: if the ray is strictly inside the box at some parameter of a
      non-empty interval, `hit` reports it, so a BVH that skips a missed box
      never loses such a hit. */
  lemma HitSound(b: Aabb, r: Ray, tMin: real, tMax: real, t: real)
    requires tMin <= t <= tMax && tMin < tMax && InsideOpen(b, At(r, t))
    ensures Hit(b, r, tMin, tMax)
  {
    AtCoordinates(r, t);
    AxisOverlapsX(b, r, tMin, tMax, t);
    AxisOverlapsY(b, r, tMin, tMax, t);
    AxisOverlapsZ(b, r, tMin, tMax, t);
    HitMeaning(b, r, tMin, tMax);
  }

  /** The converse fails, because nothing accumulates across axes: this ray is
      inside the x-slab only for t in [1, 2] and inside the y-slab only for t in
      [3, 4], so it never enters the unit cube, yet `hit` reports a hit. */
  lemma HitOverApproximates()
    ensures var b := Aabb(Zero(), One());
            var r := Ray(Vec3(-1.0, -3.0, 0.5), Vec3(1.0, 1.0, 0.01), 0.0);
            Hit(b, r, 0.0, 10.0) &&
            forall t :: !Inside(b, At(r, t))
  {
    var b := Aabb(Zero(), One());
    var r := Ray(Vec3(-1.0, -3.0, 0.5), Vec3(1.0, 1.0, 0.01), 0.0);
    assert PlaneCrossing(b, r, 0) == (Finite(1.0), Finite(2.0));
    assert PlaneCrossing(b, r, 1) == (Finite(3.0), Finite(4.0));
    assert PlaneCrossing(b, r, 2) == (Finite(-50.0), Finite(50.0));
    HitMeaning(b, r, 0.0, 10.0);
  }

  /** `surrounding_box`: the per-axis minimum of the minimum corners and maximum of
      the maximum corners. */
  function SurroundingBox(box0: Aabb, box1: Aabb): (r: Aabb)
    ensures Contains(r, box0) && Contains(r, box1)
  {
    Aabb(Vec3(FMin(Min(box0).x, Min(box1).x), FMin(Min(box0).y, Min(box1).y),
              FMin(Min(box0).z, Min(box1).z)),
         Vec3(FMax(Max(box0).x, Max(box1).x), FMax(Max(box0).y, Max(box1).y),
              FMax(Max(box0).z, Max(box1).z)))
  }

  /** `outer` encloses `inner` on every axis. */
  predicate Contains(outer: Aabb, inner: Aabb) {
    outer.minimum.x <= inner.minimum.x && outer.minimum.y <= inner.minimum.y &&
    outer.minimum.z <= inner.minimum.z &&
    inner.maximum.x <= outer.maximum.x && inner.maximum.y <= outer.maximum.y &&
    inner.maximum.z <= outer.maximum.z
  }

  /** min <= max on every axis. */
  predicate Valid(b: Aabb) {
    b.minimum.x <= b.maximum.x && b.minimum.y <= b.maximum.y && b.minimum.z <= b.maximum.z
  }

  lemma ContainsReflexive(b: Aabb)
    ensures Contains(b, b)
  {
  }

  lemma ContainsTransitive(a: Aabb, b: Aabb, c: Aabb)
    requires Contains(a, b) && Contains(b, c)
    ensures Contains(a, c)
  {
  }

  lemma InsideContained(outer: Aabb, inner: Aabb, p: Vec3)
    requires Contains(outer, inner)
    ensures Inside(inner, p) ==> Inside(outer, p)
    ensures InsideOpen(inner, p) ==> InsideOpen(outer, p)
  {
  }

  /** Minimality: any box enclosing both inputs encloses their surrounding box. */
  lemma SurroundingBoxMinimal(box0: Aabb, box1: Aabb, c: Aabb)
    requires Contains(c, box0) && Contains(c, box1)
    ensures Contains(c, SurroundingBox(box0, box1))
  {
  }

  lemma SurroundingBoxCommutative(box0: Aabb, box1: Aabb)
    ensures SurroundingBox(box0, box1) == SurroundingBox(box1, box0)
  {
  }

  lemma SurroundingBoxIdempotent(b: Aabb)
    ensures SurroundingBox(b, b) == b
  {
  }

  lemma SurroundingBoxAssociative(a: Aabb, b: Aabb, c: Aabb)
    ensures SurroundingBox(SurroundingBox(a, b), c) == SurroundingBox(a, SurroundingBox(b, c))
  {
  }

  /** A box that already encloses the other is the surrounding box. */
  lemma SurroundingBoxAbsorbs(a: Aabb, b: Aabb)
    requires Contains(a, b)
    ensures SurroundingBox(a, b) == a
  {
  }

  lemma SurroundingBoxValid(box0: Aabb, box1: Aabb)
    requires Valid(box0) && Valid(box1)
    ensures Valid(SurroundingBox(box0, box1))
  {
  }
}
