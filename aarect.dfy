/** The axis-aligned rectangle of src/aarect.rs: `[x0, x1] x [y0, y1]` in the
    plane `z = k`. */
module Rects {
  import opened Wrappers
  import opened Vectors
  import opened Rays
  import opened Aabbs
  import opened Hittables
  import Bvh

  datatype XyRect<M> = XyRect(x0: real, x1: real, y0: real, y1: real, k: real, material: M)

  /** The reference `hit` is proved against: the ray point at `t` lies on the
      rectangle and `t` in `[tMin, tMax]`. */
  predicate OnRect<M>(rect: XyRect<M>, r: Ray, tMin: real, tMax: real, t: real) {
    var p := At(r, t);
    tMin <= t <= tMax && p.z == rect.k && rect.x0 <= p.x <= rect.x1 && rect.y0 <= p.y <= rect.y1
  }

  /** `XyRect::hit`: the parameter where the ray meets the plane, rejected when
      outside `[tMin, tMax]` or outside the rectangle; `u` and `v` are the
      hit point's fractions of the two extents. The outward normal is
      `(0, 0, 1)`. */
  function XyRectHit<M>(rect: XyRect<M>, r: Ray, tMin: real, tMax: real): (res: Option<HitRecord<M>>)
    requires r.dir.z != 0.0 && rect.x0 != rect.x1 && rect.y0 != rect.y1
    ensures res.Some? ==> tMin <= res.value.t <= tMax
    ensures res.Some? ==> 0.0 <= res.value.u <= 1.0 && 0.0 <= res.value.v <= 1.0
    ensures res.Some? ==> res.value.p == At(r, res.value.t) && res.value.mat == rect.material
  {
    var t := PlaneParameter(r, rect.k);
    if t < tMin || t > tMax then None
    else
      // `origin + t * direction`, coordinate by coordinate
      var x := At(r, t).x;
      var y := At(r, t).y;
      if x < rect.x0 || x > rect.x1 || y < rect.y0 || y > rect.y1 then None
      else
        var u := Fraction(x, rect.x0, rect.x1);
        var v := Fraction(y, rect.y0, rect.y1);
        Some(NewHitRecord(t, (u, v), r, Vec3(0.0, 0.0, 1.0), rect.material))
  }

  /** How far `x` lies from `lo` to `hi`, as a fraction of the extent: in
      `[0, 1]` for `x` in `[lo, hi]`, 0 at `lo` and 1 at `hi`. */
  function Fraction(x: real, lo: real, hi: real): (f: real)
    requires lo != hi
    ensures lo <= x <= hi ==> 0.0 <= f <= 1.0
    ensures x == lo ==> f == 0.0
    ensures x == hi ==> f == 1.0
  {
    FractionEnds(x, lo, hi);
    (x - lo) / (hi - lo)
  }

  lemma FractionEnds(x: real, lo: real, hi: real)
    requires lo != hi
    ensures lo <= x <= hi ==> 0.0 <= (x - lo) / (hi - lo) <= 1.0
    ensures x == lo ==> (x - lo) / (hi - lo) == 0.0
    ensures x == hi ==> (x - lo) / (hi - lo) == 1.0
  {
    if lo <= x <= hi {
      FractionBounds(x, lo, hi);
    }
    if x == hi {
      assert x - lo == hi - lo;
      DivSelf(hi - lo);
    }
  }

  lemma FractionBounds(x: real, lo: real, hi: real)
    requires lo < hi && lo <= x <= hi
    ensures 0.0 <= (x - lo) / (hi - lo) <= 1.0
  {
    var d := hi - lo;
    DivSelf(d);
    QuotientSign(x - lo, d);
    QuotientSign(hi - x, d);
    DivAdd(x - lo, hi - x, d);
    assert (x - lo) + (hi - x) == d;
  }

  /** `(k - o.z) / d.z`, where the ray meets the plane `z = k`. */
  function PlaneParameter(r: Ray, k: real): real
    requires r.dir.z != 0.0
  {
    (k - Origin(r).z) / Direction(r).z
  }

  /** The ray meets the plane `z = k` at `PlaneParameter` and nowhere else. */
  lemma PlaneCrossingUnique(r: Ray, k: real, t: real)
    requires r.dir.z != 0.0
    ensures At(r, t).z == k <==> t == PlaneParameter(r, k)
  {
    AtCoordinates(r, t);
    var t0 := PlaneParameter(r, k);
    assert t0 * r.dir.z == k - r.orig.z;
    if r.orig.z + t * r.dir.z == k {
      CancelFactor(t, t0, r.dir.z);
    }
  }

  /** `hit` reports the one point where the ray meets the rectangle within
      `[tMin, tMax]`, and `None` exactly when there is no such point. */
  lemma XyRectHitExact<M>(rect: XyRect<M>, r: Ray, tMin: real, tMax: real)
    requires r.dir.z != 0.0 && rect.x0 != rect.x1 && rect.y0 != rect.y1
    ensures var res := XyRectHit(rect, r, tMin, tMax);
            (res.Some? ==>
               OnRect(rect, r, tMin, tMax, res.value.t) &&
               forall t :: OnRect(rect, r, tMin, tMax, t) ==> t == res.value.t) &&
            (res.None? ==> forall t :: !OnRect(rect, r, tMin, tMax, t))
  {
    var t0 := PlaneParameter(r, rect.k);
    PlaneCrossingUnique(r, rect.k, t0);
    forall t | OnRect(rect, r, tMin, tMax, t)
      ensures t == t0
    {
      PlaneCrossingUnique(r, rect.k, t);
    }
  }

  /** The outward normal is `(0, 0, 1)`: a ray coming down onto the plane hits
      the front face, and the stored normal faces the ray. */
  lemma XyRectHitNormal<M>(rect: XyRect<M>, r: Ray, tMin: real, tMax: real)
    requires r.dir.z != 0.0 && rect.x0 != rect.x1 && rect.y0 != rect.y1
    ensures var res := XyRectHit(rect, r, tMin, tMax);
            res.Some? ==>
              (res.value.frontFace <==> r.dir.z < 0.0) &&
              res.value.normal == if r.dir.z < 0.0 then Vec3(0.0, 0.0, 1.0) else Vec3(0.0, 0.0, -1.0)
  {
  }

  /** `XyRect::bounding_box`: the rectangle padded by `0.0001` on each side of
      the plane. */
  function XyRectBox<M>(rect: XyRect<M>, time0: real, time1: real): (res: Option<Aabb>)
    ensures res.Some?
    ensures res.value.minimum == Vec3(rect.x0, rect.y0, rect.k - 0.0001)
    ensures res.value.maximum == Vec3(rect.x1, rect.y1, rect.k + 0.0001)
  {
    Some(Aabb(Vec3(rect.x0, rect.y0, rect.k - 0.0001), Vec3(rect.x1, rect.y1, rect.k + 0.0001)))
  }

  /** The box has positive thickness and holds every point of the rectangle
      strictly between its two z faces. */
  lemma XyRectBoxEncloses<M>(rect: XyRect<M>, time0: real, time1: real, p: Vec3)
    ensures var b := XyRectBox(rect, time0, time1).value;
            b.minimum.z < rect.k < b.maximum.z &&
            (p.z == rect.k && rect.x0 <= p.x <= rect.x1 && rect.y0 <= p.y <= rect.y1 ==> Inside(b, p))
  {
  }

  /** Every reported hit point lies in the rectangle's box. */
  lemma XyRectHitInBox<M>(rect: XyRect<M>, r: Ray, tMin: real, tMax: real, time0: real, time1: real)
    requires r.dir.z != 0.0 && rect.x0 != rect.x1 && rect.y0 != rect.y1
    ensures var res := XyRectHit(rect, r, tMin, tMax);
            res.Some? ==> Inside(XyRectBox(rect, time0, time1).value, res.value.p)
  {
    XyRectHitExact(rect, r, tMin, tMax);
  }

  /** `XyRect::hit` as a hittable over every rectangle and ray. Where its
      divisions would be by zero the source computes a record holding NaN or
      an infinity; this model answers `None` there. */
  function RectHit<M>(rect: XyRect<M>, r: Ray, tMin: real, tMax: real): (res: Option<HitRecord<M>>)
    ensures r.dir.z != 0.0 && rect.x0 != rect.x1 && rect.y0 != rect.y1 ==> res == XyRectHit(rect, r, tMin, tMax)
    ensures res.Some? ==> tMin <= res.value.t <= tMax && res.value.p == At(r, res.value.t)
  {
    if r.dir.z != 0.0 && rect.x0 != rect.x1 && rect.y0 != rect.y1 then XyRectHit(rect, r, tMin, tMax) else None
  }

  lemma RectHitBoundsRespected<M(!new)>()
    ensures BoundsRespected<XyRect<M>, M>(RectHit)
  {
  }

  /** The ray meets the rectangle's plane, if at all, beyond `tMin` and off the
      lines of the rectangle's four edges. */
  predicate MetAwayFromEdges<M>(rect: XyRect<M>, r: Ray, tMin: real) {
    r.dir.z != 0.0 ==>
      var t := PlaneParameter(r, rect.k);
      t != tMin &&
      At(r, t).x != rect.x0 && At(r, t).x != rect.x1 && At(r, t).y != rect.y0 && At(r, t).y != rect.y1
  }

  /** Rectangles met away from their edges report hits beyond `tMin` and
      strictly inside their boxes. */
  lemma RectHitsInsideBoxes<M(!new)>(rects: seq<XyRect<M>>, r: Ray, tMin: real, time0: real, time1: real)
    requires forall o :: o in rects ==> MetAwayFromEdges(o, r, tMin)
    ensures Bvh.HitsInsideBoxes(rects, RectHit, XyRectBox, time0, time1, r, tMin)
  {
    forall o, hi | o in rects && RectHit(o, r, tMin, hi).Some?
      ensures tMin < RectHit(o, r, tMin, hi).value.t
      ensures InsideOpen(XyRectBox(o, time0, time1).value, At(r, RectHit(o, r, tMin, hi).value.t))
    {
      var t := PlaneParameter(r, o.k);
      assert RectHit(o, r, tMin, hi).value.t == t;
      PlaneCrossingUnique(r, o.k, t);
    }
  }

  /** A BVH over rectangles that the ray meets away from their edges and
      beyond `tMin` answers exactly as the list scan of its leaves. */
  lemma RectBvhHitIsScan<M(!new)>(n: Bvh.BvhNode<XyRect<M>>, r: Ray, tMin: real, tMax: real,
                                  time0: real, time1: real)
    requires Bvh.Cached(n, XyRectBox, time0, time1)
    requires forall o :: o in Bvh.NodeLeaves(n) ==> MetAwayFromEdges(o, r, tMin)
    ensures Bvh.NodeHit(n, RectHit, r, tMin, tMax) == Scan(Bvh.NodeLeaves(n), RectHit, r, tMin, tMax, None)
  {
    RectHitBoundsRespected<M>();
    RectHitsInsideBoxes(Bvh.NodeLeaves(n), r, tMin, time0, time1);
    Bvh.BuiltTreeHitIsScan(n, RectHit, XyRectBox, time0, time1, r, tMin, tMax);
  }

  /** The equality has hits to agree on: the leaf over the unit rectangle
      returns the hit at `t = 1` of a ray through its centre. */
  lemma RectBvhHitsCentre<M(!new)>(mat: M)
    ensures var rect := XyRect(0.0, 1.0, 0.0, 1.0, 0.0, mat);
            var r := Ray(Vec3(0.5, 0.5, 1.0), Vec3(0.0, 0.0, -1.0), 0.0);
            var n := Bvh.BvhNode(Bvh.Object(rect), None, XyRectBox(rect, 0.0, 0.0).value);
            Bvh.Cached(n, XyRectBox, 0.0, 0.0) && MetAwayFromEdges(rect, r, 0.001) &&
            Bvh.NodeHit(n, RectHit, r, 0.001, 10.0).Some? && Bvh.NodeHit(n, RectHit, r, 0.001, 10.0).value.t == 1.0
  {
    var rect := XyRect(0.0, 1.0, 0.0, 1.0, 0.0, mat);
    var r := Ray(Vec3(0.5, 0.5, 1.0), Vec3(0.0, 0.0, -1.0), 0.0);
    var n := Bvh.BvhNode(Bvh.Object(rect), None, XyRectBox(rect, 0.0, 0.0).value);
    assert PlaneParameter(r, 0.0) == 1.0;
    assert Bvh.NodeLeaves(n) == [rect];
    RectBvhHitIsScan(n, r, 0.001, 10.0, 0.0, 0.0);
    assert [rect][1..] == [];
  }

  /** The BVH can lose a hit on a box face. A ray running along the plane
      `x = x0` meets the unit rectangle on its edge at `t = 1`, and `hit`
      reports it. On x its own box's slab test divides `0/0` and `1/0`, giving
      NaN and `+inf`, so the narrowed interval is `[+inf, 10]` and the box
      misses. A BVH leaf over this rectangle (the node `BvhNode::new` builds
      for it, by `Cached`) returns nothing where `HittableList::hit` returns
      the hit. */
  lemma BvhPrunesEdgeHit<M>(mat: M)
    ensures var rect := XyRect(0.0, 1.0, 0.0, 1.0, 0.0, mat);
            var r := Ray(Vec3(0.0, 0.5, 1.0), Vec3(0.0, 0.0, -1.0), 0.0);
            var n := Bvh.BvhNode(Bvh.Object(rect), None, XyRectBox(rect, 0.0, 0.0).value);
            Bvh.Cached(n, XyRectBox, 0.0, 0.0) &&
            RectHit(rect, r, 0.001, 10.0).Some? && RectHit(rect, r, 0.001, 10.0).value.t == 1.0 &&
            Bvh.NodeHit(n, RectHit, r, 0.001, 10.0) == None &&
            Scan(Bvh.NodeLeaves(n), RectHit, r, 0.001, 10.0, None) == RectHit(rect, r, 0.001, 10.0)
  {
    var rect := XyRect(0.0, 1.0, 0.0, 1.0, 0.0, mat);
    var r := Ray(Vec3(0.0, 0.5, 1.0), Vec3(0.0, 0.0, -1.0), 0.0);
    var b := XyRectBox(rect, 0.0, 0.0).value;
    assert PlaneParameter(r, 0.0) == 1.0;
    assert PlaneCrossing(b, r, 0) == (NaN, PosInf);
    assert NarrowedInterval(b, r, 0.001, 10.0, 0) == (PosInf, Finite(10.0));
    assert !Hit(b, r, 0.001, 10.0);
    assert Bvh.NodeLeaves(Bvh.BvhNode(Bvh.Object(rect), None, b)) == [rect];
    assert [rect][1..] == [];
  }
}
