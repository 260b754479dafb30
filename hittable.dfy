/** Hit records, the `Hittable` interface and the aggregate and decorator
    hittables of src/hittable.rs.

    The `Hittable` trait becomes a pair of function values: `HitFn` for `hit`
    and `BoxFn` for `bounding_box`, over a type `H` of objects. Records are
    generic in the material type `M`. */
module Hittables {
  import opened Wrappers
  import opened Vectors
  import opened Rays
  import opened Aabbs

  datatype HitRecord<M> = HitRecord(
    t: real,
    u: real,
    v: real,
    p: Vec3,
    normal: Vec3,
    frontFace: bool,
    mat: M)

  /** `Hittable::hit`: the object, the ray and the open interval to search. */
  type HitFn<-H, M> = (H, Ray, real, real) -> Option<HitRecord<M>>

  /** `Hittable::bounding_box` over the shutter interval. */
  type BoxFn<-H> = (H, real, real) -> Option<Aabb>

  /** `HitRecord::new`: orients the normal against the incoming ray. */
  function NewHitRecord<M>(t: real, uv: (real, real), r: Ray, outwardNormal: Vec3, material: M)
    : (h: HitRecord<M>)
    ensures h.frontFace <==> Dot(r.dir, outwardNormal) < 0.0
    ensures h.normal == if h.frontFace then outwardNormal else Neg(outwardNormal)
    ensures Dot(r.dir, h.normal) <= 0.0
    ensures h.t == t && h.u == uv.0 && h.v == uv.1 && h.mat == material
    ensures h.p == At(r, t)
  {
    var frontFace := Dot(Direction(r), outwardNormal) < 0.0;
    assert Dot(r.dir, Neg(outwardNormal)) == -Dot(r.dir, outwardNormal);
    HitRecord(t, uv.0, uv.1, At(r, t), if frontFace then outwardNormal else Neg(outwardNormal),
              frontFace, material)
  }

  /** Every reported hit lies in the closed interval the caller asked about, as
      every primitive of this model guarantees. */
  ghost predicate BoundsRespected<H(!new), M>(hit: HitFn<H, M>) {
    forall o, r, tMin, tMax :: hit(o, r, tMin, tMax).Some? ==>
      tMin <= hit(o, r, tMin, tMax).value.t <= tMax
  }

  // ----- HittableList::hit -----

  /** The bound an object is queried with: the best `t` so far, else `tMax`. */
  function Bound<M>(best: Option<HitRecord<M>>, tMax: real): real {
    if best.Some? then best.value.t else tMax
  }

  /** The loop of `HittableList::hit`, continued over `objs` from the best hit so far. */
  function Scan<H, M>(objs: seq<H>, hit: HitFn<H, M>, r: Ray, tMin: real, tMax: real,
                      best: Option<HitRecord<M>>): Option<HitRecord<M>>
    decreases |objs|
  {
    if objs == [] then best
    else
      var next := hit(objs[0], r, tMin, Bound(best, tMax));
      Scan(objs[1..], hit, r, tMin, tMax, if next.Some? then next else best)
  }

  /** Scanning a concatenation scans the second part from where the first ended. */
  lemma {:induction false} ScanAppend<H, M>(a: seq<H>, b: seq<H>, hit: HitFn<H, M>, r: Ray,
                                          tMin: real, tMax: real, best: Option<HitRecord<M>>)
    ensures Scan(a + b, hit, r, tMin, tMax, best) ==
            Scan(b, hit, r, tMin, tMax, Scan(a, hit, r, tMin, tMax, best))
    decreases |a|
  {
    if a == [] {
      assert a + b == b;
    } else {
      assert (a + b)[1..] == a[1..] + b;
      var next := hit(a[0], r, tMin, Bound(best, tMax));
      ScanAppend(a[1..], b, hit, r, tMin, tMax, if next.Some? then next else best);
    }
  }

  /** Once a hit is held, `tMax` no longer matters. */
  lemma {:induction false} ScanHeldIgnoresTMax<H, M>(objs: seq<H>, hit: HitFn<H, M>, r: Ray,
                                                   tMin: real, tMax: real, tMax': real,
                                                   h: HitRecord<M>)
    ensures Scan(objs, hit, r, tMin, tMax, Some(h)) == Scan(objs, hit, r, tMin, tMax', Some(h))
    decreases |objs|
  {
    if objs != [] {
      var next := hit(objs[0], r, tMin, h.t);
      ScanHeldIgnoresTMax(objs[1..], hit, r, tMin, tMax, tMax', if next.Some? then next.value else h);
    }
  }

  /** A held hit is kept unless a fresh scan bounded by its `t` finds one. */
  lemma {:induction false} ScanFromHeld<H, M>(objs: seq<H>, hit: HitFn<H, M>, r: Ray,
                                            tMin: real, tMax: real, h: HitRecord<M>)
    ensures Scan(objs, hit, r, tMin, tMax, Some(h)) ==
            if Scan(objs, hit, r, tMin, h.t, None).Some? then Scan(objs, hit, r, tMin, h.t, None)
            else Some(h)
    decreases |objs|
  {
    if objs != [] {
      var next := hit(objs[0], r, tMin, h.t);
      if next.Some? {
        ScanHeldIgnoresTMax(objs[1..], hit, r, tMin, tMax, h.t, next.value);
        ScanKeepsHit(objs[1..], hit, r, tMin, h.t, next.value);
      } else {
        ScanFromHeld(objs[1..], hit, r, tMin, tMax, h);
      }
    }
  }

  /** A scan that holds a hit ends holding one. */
  lemma {:induction false} ScanKeepsHit<H, M>(objs: seq<H>, hit: HitFn<H, M>, r: Ray,
                                            tMin: real, tMax: real, h: HitRecord<M>)
    ensures Scan(objs, hit, r, tMin, tMax, Some(h)).Some?
    decreases |objs|
  {
    if objs != [] {
      var next := hit(objs[0], r, tMin, h.t);
      ScanKeepsHit(objs[1..], hit, r, tMin, tMax, if next.Some? then next.value else h);
    }
  }

  /** The scan finds nothing iff every object misses the whole interval. */
  lemma {:induction false} ScanNoneIffAllMiss<H, M>(objs: seq<H>, hit: HitFn<H, M>, r: Ray,
                                                  tMin: real, tMax: real)
    ensures Scan(objs, hit, r, tMin, tMax, None).None? <==>
            forall i :: 0 <= i < |objs| ==> hit(objs[i], r, tMin, tMax).None?
    decreases |objs|
  {
    if objs != [] {
      var next := hit(objs[0], r, tMin, tMax);
      if next.Some? {
        ScanKeepsHit(objs[1..], hit, r, tMin, tMax, next.value);
      } else {
        ScanNoneIffAllMiss(objs[1..], hit, r, tMin, tMax);
        assert forall i :: 1 <= i < |objs| ==> objs[i] == objs[1..][i - 1];
      }
    }
  }

  /** With bound-respecting objects the result lies in `[tMin, Bound(best, tMax)]`,
      never later than the hit already held, and is either that hit or one some
      object reported. */
  lemma {:induction false} ScanBounds<H(!new), M>(objs: seq<H>, hit: HitFn<H, M>, r: Ray,
                                          tMin: real, tMax: real, best: Option<HitRecord<M>>)
    requires BoundsRespected(hit)
    requires best.Some? ==> tMin <= best.value.t
    ensures var res := Scan(objs, hit, r, tMin, tMax, best);
            res.Some? ==> tMin <= res.value.t <= Bound(best, tMax)
    ensures var res := Scan(objs, hit, r, tMin, tMax, best);
            res == best || exists i, hi :: 0 <= i < |objs| && res == hit(objs[i], r, tMin, hi)
    decreases |objs|
  {
    if objs != [] {
      var next := hit(objs[0], r, tMin, Bound(best, tMax));
      var best' := if next.Some? then next else best;
      ScanBounds(objs[1..], hit, r, tMin, tMax, best');
      var res := Scan(objs, hit, r, tMin, tMax, best);
      if res != best' {
        var i, hi :| 0 <= i < |objs[1..]| && res == hit(objs[1..][i], r, tMin, hi);
        assert res == hit(objs[i + 1], r, tMin, hi);
      } else if next.Some? {
        assert res == hit(objs[0], r, tMin, Bound(best, tMax));
      }
    }
  }

  // ----- HittableList::bounding_box -----

  /** The loop of `HittableList::bounding_box` from the box accumulated so far:
      `None` as soon as an object has no box. */
  function ListBoxFrom<H>(objs: seq<H>, boxOf: BoxFn<H>, time0: real, time1: real,
                          acc: Option<Aabb>): Option<Aabb>
    decreases |objs|
  {
    if objs == [] then acc
    else
      var b := boxOf(objs[0], time0, time1);
      if b.None? then None
      else
        ListBoxFrom(objs[1..], boxOf, time0, time1,
                    Some(if acc.Some? then SurroundingBox(acc.value, b.value) else b.value))
  }

  /** Every object has a box over the interval. */
  predicate AllBoxed<H>(objs: seq<H>, boxOf: BoxFn<H>, time0: real, time1: real) {
    forall i :: 0 <= i < |objs| ==> boxOf(objs[i], time0, time1).Some?
  }

  /** The all-or-nothing union: `None` exactly when there is nothing to bound or
      some object has no box, and otherwise the least box containing the
      accumulated box and the box of every object. */
  lemma {:induction false} ListBoxFromMeaning<H>(objs: seq<H>, boxOf: BoxFn<H>,
                                               time0: real, time1: real, acc: Option<Aabb>)
    ensures var res := ListBoxFrom(objs, boxOf, time0, time1, acc);
            res.Some? <==> AllBoxed(objs, boxOf, time0, time1) && (acc.Some? || objs != [])
    ensures var res := ListBoxFrom(objs, boxOf, time0, time1, acc);
            res.Some? ==>
              (acc.Some? ==> Contains(res.value, acc.value)) &&
              forall i :: 0 <= i < |objs| ==> Contains(res.value, boxOf(objs[i], time0, time1).value)
    ensures var res := ListBoxFrom(objs, boxOf, time0, time1, acc);
            forall c :: res.Some? && (acc.Some? ==> Contains(c, acc.value)) &&
                        (forall i :: 0 <= i < |objs| ==> Contains(c, boxOf(objs[i], time0, time1).value))
                        ==> Contains(c, res.value)
    decreases |objs|
  {
    if objs == [] {
    } else {
      var b := boxOf(objs[0], time0, time1);
      if b.Some? {
        var acc' := Some(if acc.Some? then SurroundingBox(acc.value, b.value) else b.value);
        ListBoxFromMeaning(objs[1..], boxOf, time0, time1, acc');
        var res := ListBoxFrom(objs, boxOf, time0, time1, acc);
        assert forall i :: 1 <= i < |objs| ==> objs[i] == objs[1..][i - 1];
        assert AllBoxed(objs, boxOf, time0, time1) <==> AllBoxed(objs[1..], boxOf, time0, time1);
        if res.Some? {
          ContainsTransitive(res.value, acc'.value, b.value);
          if acc.Some? {
            ContainsTransitive(res.value, acc'.value, acc.value);
          }
          forall c | (acc.Some? ==> Contains(c, acc.value)) &&
                     (forall i :: 0 <= i < |objs| ==> Contains(c, boxOf(objs[i], time0, time1).value))
            ensures Contains(c, res.value)
          {
            assert Contains(c, b.value);
            if acc.Some? {
              SurroundingBoxMinimal(acc.value, b.value, c);
            }
            assert Contains(c, acc'.value);
          }
        }
      } else {
        assert !AllBoxed(objs, boxOf, time0, time1);
      }
    }
  }

  /** `HittableList`: `objects` is the `Vec` that `add` pushes onto. */
  class HittableList<H> {
    var objects: seq<H>

    /** `HittableList::new`: the empty list. */
    constructor ()
      ensures objects == []
    {
      objects := [];
    }

    /** `add` appends exactly one object at the end. */
    method Add(obj: H)
      modifies this
      ensures objects == old(objects) + [obj]
    {
      objects := objects + [obj];
    }

    /** `HittableList::hit`: query every object, each bounded by the best hit so far. */
    method Hit<M>(hit: HitFn<H, M>, r: Ray, tMin: real, tMax: real) returns (best: Option<HitRecord<M>>)
      ensures best == Scan(objects, hit, r, tMin, tMax, None)
      ensures best.None? <==> forall i :: 0 <= i < |objects| ==> hit(objects[i], r, tMin, tMax).None?
    {
      best := None;
      for k := 0 to |objects|
        invariant Scan(objects[k..], hit, r, tMin, tMax, best) == Scan(objects, hit, r, tMin, tMax, None)
      {
        var newTMax := if best.Some? then best.value.t else tMax;
        var newHit := hit(objects[k], r, tMin, newTMax);
        if newHit.Some? {
          best := newHit;
        }
        assert objects[k..][1..] == objects[k + 1..];
      }
      ScanNoneIffAllMiss(objects, hit, r, tMin, tMax);
    }

    /** `HittableList::bounding_box`: the union of all boxes, or `None` when the
        list is empty or an object has no box. */
    method BoundingBox(boxOf: BoxFn<H>, time0: real, time1: real) returns (result: Option<Aabb>)
      ensures result == ListBoxFrom(objects, boxOf, time0, time1, None)
      ensures result.Some? <==> objects != [] && AllBoxed(objects, boxOf, time0, time1)
      ensures result.Some? ==>
                forall i :: 0 <= i < |objects| ==> Contains(result.value, boxOf(objects[i], time0, time1).value)
    {
      ListBoxFromMeaning(objects, boxOf, time0, time1, None);
      result := None;
      for k := 0 to |objects|
        invariant ListBoxFrom(objects[k..], boxOf, time0, time1, result) ==
                  ListBoxFrom(objects, boxOf, time0, time1, None)
      {
        var newBox := boxOf(objects[k], time0, time1);
        if newBox.Some? {
          result := Some(if result.Some? then SurroundingBox(result.value, newBox.value) else newBox.value);
        } else {
          return None;
        }
        assert objects[k..][1..] == objects[k + 1..];
      }
    }
  }

  // ----- Translate -----

  datatype Translate<H> = Translate(offset: Vec3, obj: H)

  /** The ray `Translate::hit` hands the wrapped object: origin moved by `-offset`,
      same direction and time. */
  function MovedRay(tr: Translate, r: Ray): (m: Ray)
    ensures m.dir == r.dir && m.tm == r.tm && Add(m.orig, tr.offset) == r.orig
  {
    NewRay(Sub(Origin(r), tr.offset), Direction(r), Some(Time(r)))
  }

  /** `Translate::hit`: the wrapped object's hit with its point moved back by `offset`. */
  function TranslateHit<H, M>(tr: Translate<H>, hit: HitFn<H, M>, r: Ray, tMin: real, tMax: real)
    : (res: Option<HitRecord<M>>)
    ensures res.Some? <==> hit(tr.obj, MovedRay(tr, r), tMin, tMax).Some?
    ensures res.Some? ==>
              var h := hit(tr.obj, MovedRay(tr, r), tMin, tMax).value;
              res.value.t == h.t && res.value.normal == h.normal && res.value.mat == h.mat &&
              res.value.u == h.u && res.value.v == h.v && res.value.frontFace == h.frontFace
    ensures res.Some? ==> res.value.p == Add(hit(tr.obj, MovedRay(tr, r), tMin, tMax).value.p, tr.offset)
  {
    match hit(tr.obj, MovedRay(tr, r), tMin, tMax)
    case None => None
    case Some(h) => Some(h.(p := Add(h.p, tr.offset)))
  }

  /** A hit point on the moved ray becomes the point at the same `t` on the
      caller's ray. */
  lemma TranslateHitOnRay<H, M>(tr: Translate<H>, hit: HitFn<H, M>, r: Ray, tMin: real, tMax: real)
    requires var h := hit(tr.obj, MovedRay(tr, r), tMin, tMax);
             h.Some? ==> h.value.p == At(MovedRay(tr, r), h.value.t)
    ensures var res := TranslateHit(tr, hit, r, tMin, tMax);
            res.Some? ==> res.value.p == At(r, res.value.t)
  {
  }

  /** `Translate::bounding_box`: the wrapped box with both corners moved by `offset`. */
  function TranslateBox<H>(tr: Translate<H>, boxOf: BoxFn<H>, time0: real, time1: real): (res: Option<Aabb>)
    ensures res.Some? <==> boxOf(tr.obj, time0, time1).Some?
    ensures res.Some? ==> Sub(res.value.minimum, tr.offset) == boxOf(tr.obj, time0, time1).value.minimum
    ensures res.Some? ==> Sub(res.value.maximum, tr.offset) == boxOf(tr.obj, time0, time1).value.maximum
  {
    match boxOf(tr.obj, time0, time1)
    case None => None
    case Some(b) => Some(Aabb(Add(Min(b), tr.offset), Add(Max(b), tr.offset)))
  }

  /** A point is in the wrapped box iff the moved point is in the translated box. */
  lemma TranslateBoxInside<H>(tr: Translate<H>, boxOf: BoxFn<H>, time0: real, time1: real, q: Vec3)
    requires boxOf(tr.obj, time0, time1).Some?
    ensures Inside(boxOf(tr.obj, time0, time1).value, q) <==>
            Inside(TranslateBox(tr, boxOf, time0, time1).value, Add(q, tr.offset))
  {
  }

  // ----- RotateY -----

  /** The part of `RotateY` this model keeps: the box computed once in
      `RotateY::new`. */
  datatype RotateY<H> = RotateY(obj: H, sinTheta: real, cosTheta: real, boundingBox: Option<Aabb>)

  /** `RotateY::bounding_box` returns the cached box whatever the interval. */
  function RotateYBox<H>(rot: RotateY<H>, time0: real, time1: real): (res: Option<Aabb>)
    ensures res == rot.boundingBox
  {
    rot.boundingBox
  }
}
