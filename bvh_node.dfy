/** Bounding-volume hierarchy (src/bvh_node.rs).

    A node has a left child, an optional right child and the box cached at
    construction. A child is either one of the scene's objects or a nested
    node (the source boxes both as `dyn Hittable`). */
module Bvh {
  import opened Wrappers
  import opened Vectors
  import opened Rays
  import opened Aabbs
  import opened Hittables

  datatype Child<H> = Object(obj: H) | Inner(node: BvhNode<H>)

  datatype BvhNode<H> = BvhNode(left: Child<H>, right: Option<Child<H>>, abox: Aabb)

  /** The panics of `BvhNode::new`: the `assert!` on an empty list, and the
      `expect`/`unwrap` on an object without a bounding box. */
  datatype BuildError = EmptyObjects | MissingBoundingBox

  /** The objects below a child, left to right. */
  function ChildLeaves<H>(c: Child<H>): seq<H>
    decreases c
  {
    match c
    case Object(o) => [o]
    case Inner(n) => NodeLeaves(n)
  }

  /** The objects below a node, left to right. */
  function NodeLeaves<H>(n: BvhNode<H>): seq<H>
    decreases n
  {
    ChildLeaves(n.left) + if n.right.Some? then ChildLeaves(n.right.value) else []
  }

  // ----- box_compare and the sort -----

  /** The comparator the match on `random_int(0, 2)` selects: 0 is x, 1 is y,
      anything else z. */
  function AxisOf(draw: int): Axis {
    if draw == 0 then 0 else if draw == 1 then 1 else 2
  }

  /** What `box_compare` compares: the minimum corner's coordinate on `axis` of
      the object's box over `[0, 0]` (0 stands in where the source panics). */
  function Key<H>(boxOf: BoxFn<H>, axis: Axis, o: H): real {
    var b := boxOf(o, 0.0, 0.0);
    if b.Some? then Component(Min(b.value), axis) else 0.0
  }

  /** `box_compare(a, b, axis) == Ordering::Less`. */
  predicate ComparesLess<H>(boxOf: BoxFn<H>, axis: Axis, a: H, b: H) {
    Key(boxOf, axis, a) < Key(boxOf, axis, b)
  }

  predicate SortedByKey<H>(s: seq<H>, boxOf: BoxFn<H>, axis: Axis) {
    forall i, j :: 0 <= i < j < |s| ==> Key(boxOf, axis, s[i]) <= Key(boxOf, axis, s[j])
  }

  /** Insert `x` before the first element whose key is not smaller. */
  function Insert<H>(x: H, s: seq<H>, boxOf: BoxFn<H>, axis: Axis): seq<H>
    decreases |s|
  {
    if s == [] then [x]
    else if Key(boxOf, axis, x) <= Key(boxOf, axis, s[0]) then [x] + s
    else [s[0]] + Insert(x, s[1..], boxOf, axis)
  }

  /** `sort_by` with the comparator: a stable sort by key. Each element is
      inserted in front of the equal keys that came after it in the input, so
      equal keys keep their input order. */
  function SortByKey<H>(s: seq<H>, boxOf: BoxFn<H>, axis: Axis): seq<H>
    decreases |s|
  {
    if s == [] then [] else Insert(s[0], SortByKey(s[1..], boxOf, axis), boxOf, axis)
  }

  lemma {:induction false} InsertPermutes<H>(x: H, s: seq<H>, boxOf: BoxFn<H>, axis: Axis)
    ensures multiset(Insert(x, s, boxOf, axis)) == multiset(s) + multiset{x}
    ensures |Insert(x, s, boxOf, axis)| == |s| + 1
    decreases |s|
  {
    if s != [] && Key(boxOf, axis, x) > Key(boxOf, axis, s[0]) {
      InsertPermutes(x, s[1..], boxOf, axis);
      assert s == [s[0]] + s[1..];
    }
  }

  /** Every key of `Insert(x, s)` is at least `k` when `k` bounds `x` and `s`. */
  lemma {:induction false} InsertLowerBound<H>(x: H, s: seq<H>, boxOf: BoxFn<H>, axis: Axis, k: real)
    requires k <= Key(boxOf, axis, x)
    requires forall i :: 0 <= i < |s| ==> k <= Key(boxOf, axis, s[i])
    ensures forall i :: 0 <= i < |Insert(x, s, boxOf, axis)| ==> k <= Key(boxOf, axis, Insert(x, s, boxOf, axis)[i])
    decreases |s|
  {
    if s != [] && Key(boxOf, axis, x) > Key(boxOf, axis, s[0]) {
      InsertLowerBound(x, s[1..], boxOf, axis, k);
    }
  }

  lemma {:induction false} InsertSorted<H>(x: H, s: seq<H>, boxOf: BoxFn<H>, axis: Axis)
    requires SortedByKey(s, boxOf, axis)
    ensures SortedByKey(Insert(x, s, boxOf, axis), boxOf, axis)
    decreases |s|
  {
    if s != [] && Key(boxOf, axis, x) > Key(boxOf, axis, s[0]) {
      InsertSorted(x, s[1..], boxOf, axis);
      InsertLowerBound(x, s[1..], boxOf, axis, Key(boxOf, axis, s[0]));
    }
  }

  /** The sorted list is ordered by key and a permutation of the input. */
  lemma {:induction false} SortByKeySpec<H>(s: seq<H>, boxOf: BoxFn<H>, axis: Axis)
    ensures SortedByKey(SortByKey(s, boxOf, axis), boxOf, axis)
    ensures multiset(SortByKey(s, boxOf, axis)) == multiset(s)
    ensures |SortByKey(s, boxOf, axis)| == |s|
    decreases |s|
  {
    if s != [] {
      SortByKeySpec(s[1..], boxOf, axis);
      InsertSorted(s[0], SortByKey(s[1..], boxOf, axis), boxOf, axis);
      InsertPermutes(s[0], SortByKey(s[1..], boxOf, axis), boxOf, axis);
      assert s == [s[0]] + s[1..];
    }
  }

  /** Two sequences with the same elements agree on whether every element has a box. */
  lemma AllBoxedPermutation<H>(s: seq<H>, t: seq<H>, boxOf: BoxFn<H>, time0: real, time1: real)
    requires multiset(s) == multiset(t)
    ensures AllBoxed(s, boxOf, time0, time1) <==> AllBoxed(t, boxOf, time0, time1)
  {
    forall i | 0 <= i < |s| ensures s[i] in t {
      assert s[i] in multiset(s);
    }
    forall i | 0 <= i < |t| ensures t[i] in s {
      assert t[i] in multiset(t);
    }
  }

  lemma AllBoxedSplit<H>(s: seq<H>, mid: nat, boxOf: BoxFn<H>, time0: real, time1: real)
    requires mid <= |s|
    ensures AllBoxed(s, boxOf, time0, time1) <==>
            AllBoxed(s[..mid], boxOf, time0, time1) && AllBoxed(s[mid..], boxOf, time0, time1)
  {
    if AllBoxed(s[..mid], boxOf, time0, time1) && AllBoxed(s[mid..], boxOf, time0, time1) {
      forall i | 0 <= i < |s| ensures boxOf(s[i], time0, time1).Some? {
        if i < mid { assert s[i] == s[..mid][i]; } else { assert s[i] == s[mid..][i - mid]; }
      }
    }
  }

  // ----- the cached box -----

  /** `BvhNode::bounding_box`: the box cached at construction, whatever the interval. */
  function NodeBox<H>(n: BvhNode<H>, time0: real, time1: real): (b: Option<Aabb>)
    ensures b == Some(n.abox)
  {
    Some(n.abox)
  }

  /** `bounding_box(time0, time1)` of a child. */
  function ChildBox<H>(c: Child<H>, boxOf: BoxFn<H>, time0: real, time1: real): Option<Aabb> {
    match c
    case Object(o) => boxOf(o, time0, time1)
    case Inner(n) => NodeBox(n, time0, time1)
  }

  /** Every node's box is the union of its children's boxes, or its only child's box. */
  predicate Cached<H>(n: BvhNode<H>, boxOf: BoxFn<H>, time0: real, time1: real)
    decreases n
  {
    var lb := ChildBox(n.left, boxOf, time0, time1);
    lb.Some? &&
    (if n.right.Some? then
       var rb := ChildBox(n.right.value, boxOf, time0, time1);
       rb.Some? && n.abox == SurroundingBox(lb.value, rb.value)
     else n.abox == lb.value) &&
    (n.left.Inner? ==> Cached(n.left.node, boxOf, time0, time1)) &&
    (n.right.Some? && n.right.value.Inner? ==> Cached(n.right.value.node, boxOf, time0, time1))
  }

  /** A cached box contains the box of every object below it, and all of those exist. */
  lemma {:induction false} CachedBoxContainsLeaves<H>(n: BvhNode<H>, boxOf: BoxFn<H>, time0: real, time1: real)
    requires Cached(n, boxOf, time0, time1)
    ensures AllBoxed(NodeLeaves(n), boxOf, time0, time1)
    ensures forall i :: 0 <= i < |NodeLeaves(n)| ==>
              Contains(n.abox, boxOf(NodeLeaves(n)[i], time0, time1).value)
    decreases n
  {
    var lb := ChildBox(n.left, boxOf, time0, time1).value;
    assert Contains(n.abox, lb) by {
      if n.right.Some? { } else { ContainsReflexive(lb); }
    }
    ChildContainsLeaves(n.left, boxOf, time0, time1);
    var L := ChildLeaves(n.left);
    var R := if n.right.Some? then ChildLeaves(n.right.value) else [];
    if n.right.Some? {
      ChildContainsLeaves(n.right.value, boxOf, time0, time1);
    }
    forall i | 0 <= i < |NodeLeaves(n)|
      ensures boxOf(NodeLeaves(n)[i], time0, time1).Some?
      ensures Contains(n.abox, boxOf(NodeLeaves(n)[i], time0, time1).value)
    {
      if i < |L| {
        assert NodeLeaves(n)[i] == L[i];
        ContainsTransitive(n.abox, lb, boxOf(L[i], time0, time1).value);
      } else {
        var rb := ChildBox(n.right.value, boxOf, time0, time1).value;
        assert NodeLeaves(n)[i] == R[i - |L|];
        ContainsTransitive(n.abox, rb, boxOf(R[i - |L|], time0, time1).value);
      }
    }
  }

  lemma {:induction false} ChildContainsLeaves<H>(c: Child<H>, boxOf: BoxFn<H>, time0: real, time1: real)
    requires ChildBox(c, boxOf, time0, time1).Some?
    requires c.Inner? ==> Cached(c.node, boxOf, time0, time1)
    ensures AllBoxed(ChildLeaves(c), boxOf, time0, time1)
    ensures forall i :: 0 <= i < |ChildLeaves(c)| ==>
              Contains(ChildBox(c, boxOf, time0, time1).value, boxOf(ChildLeaves(c)[i], time0, time1).value)
    decreases c, 0
  {
    match c
    case Object(o) => ContainsReflexive(ChildBox(c, boxOf, time0, time1).value);
    case Inner(m) => CachedBoxContainsLeaves(m, boxOf, time0, time1);
  }

  // ----- key ordering -----

  /** At every node built from two or more objects, each key on the node's axis
      in the left subtree is at most each key in the right subtree. The node
      reached by `path` (false = left, true = right) drew axis `axisDraw(path)`. */
  predicate KeyOrdered<H>(n: BvhNode<H>, boxOf: BoxFn<H>, axisDraw: seq<bool> -> int, path: seq<bool>)
    decreases n
  {
    var axis := AxisOf(axisDraw(path));
    (n.right.Some? ==>
       var L := ChildLeaves(n.left);
       var R := ChildLeaves(n.right.value);
       forall i, j :: 0 <= i < |L| && 0 <= j < |R| ==> Key(boxOf, axis, L[i]) <= Key(boxOf, axis, R[j])) &&
    (n.left.Inner? ==> KeyOrdered(n.left.node, boxOf, axisDraw, path + [false])) &&
    (n.right.Some? && n.right.value.Inner? ==> KeyOrdered(n.right.value.node, boxOf, axisDraw, path + [true]))
  }

  /** Objects failing construction: none at all, or one without a box. With
      two or more objects every one is compared, so each needs a box over
      `[0, 0]`; every object is a direct child of some node, whose box needs
      the object's box over `[time0, time1]`. */
  predicate BuildFails<H>(objects: seq<H>, boxOf: BoxFn<H>, time0: real, time1: real) {
    objects == [] ||
    (|objects| >= 2 && !AllBoxed(objects, boxOf, 0.0, 0.0)) ||
    !AllBoxed(objects, boxOf, time0, time1)
  }

  /** Keys of a sorted list split at `mid`: left ones never exceed right ones,
      carried over to any rearrangement of the two halves. */
  lemma SplitOrdered<H>(sorted: seq<H>, mid: nat, L: seq<H>, R: seq<H>, boxOf: BoxFn<H>, axis: Axis)
    requires mid <= |sorted| && SortedByKey(sorted, boxOf, axis)
    requires multiset(L) == multiset(sorted[..mid]) && multiset(R) == multiset(sorted[mid..])
    ensures forall i, j :: 0 <= i < |L| && 0 <= j < |R| ==> Key(boxOf, axis, L[i]) <= Key(boxOf, axis, R[j])
  {
    forall i, j | 0 <= i < |L| && 0 <= j < |R|
      ensures Key(boxOf, axis, L[i]) <= Key(boxOf, axis, R[j])
    {
      assert L[i] in multiset(sorted[..mid]) by { assert L[i] in multiset(L); }
      assert R[j] in multiset(sorted[mid..]) by { assert R[j] in multiset(R); }
      var a :| 0 <= a < mid && sorted[..mid][a] == L[i];
      var b :| 0 <= b < |sorted| - mid && sorted[mid..][b] == R[j];
      assert sorted[a] == L[i] && sorted[mid + b] == R[j];
    }
  }

  /** The objects below an optional right child. */
  function RightLeaves<H>(right: Option<Child<H>>): seq<H> {
    if right.Some? then ChildLeaves(right.value) else []
  }

  /** What the children chosen for `objects` satisfy: together they hold the
      same objects; every key on the node's axis on the left is at most every
      key on the right; one object is the left child alone; two are ordered by
      `box_compare`; more are two built nodes, the left one over `len / 2`
      objects. */
  ghost predicate ChildrenSpec<H>(objects: seq<H>, left: Child<H>, right: Option<Child<H>>, boxOf: BoxFn<H>,
                               time0: real, time1: real, axisDraw: seq<bool> -> int, path: seq<bool>)
  {
    var axis := AxisOf(axisDraw(path));
    multiset(ChildLeaves(left) + RightLeaves(right)) == multiset(objects) &&
    (right.Some? ==>
       var L := ChildLeaves(left);
       var R := ChildLeaves(right.value);
       forall i, j :: 0 <= i < |L| && 0 <= j < |R| ==> Key(boxOf, axis, L[i]) <= Key(boxOf, axis, R[j])) &&
    (|objects| == 1 ==> left == Object(objects[0]) && right == None) &&
    (|objects| == 2 ==>
       if ComparesLess(boxOf, axis, objects[0], objects[1])
       then left == Object(objects[0]) && right == Some(Object(objects[1]))
       else left == Object(objects[1]) && right == Some(Object(objects[0]))) &&
    (|objects| >= 3 ==>
       left.Inner? && right.Some? && right.value.Inner? &&
       |ChildLeaves(left)| == |objects| / 2 &&
       Cached(left.node, boxOf, time0, time1) && Cached(right.value.node, boxOf, time0, time1) &&
       KeyOrdered(left.node, boxOf, axisDraw, path + [false]) &&
       KeyOrdered(right.value.node, boxOf, axisDraw, path + [true]))
  }

  lemma OneObjectSpec<H>(o: H, boxOf: BoxFn<H>, time0: real, time1: real,
                                 axisDraw: seq<bool> -> int, path: seq<bool>)
    ensures ChildrenSpec([o], Object(o), None, boxOf, time0, time1, axisDraw, path)
  {
    assert ChildLeaves(Object(o)) + RightLeaves(None) == [o];
  }

  /** Two objects: the first stays on the left only when it compares `Less`. */
  method OrderPair<H>(first: H, second: H, boxOf: BoxFn<H>, time0: real, time1: real,
                          axisDraw: seq<bool> -> int, path: seq<bool>)
    returns (left: Child<H>, right: Option<Child<H>>)
    ensures ChildrenSpec([first, second], left, right, boxOf, time0, time1, axisDraw, path)
  {
    var axis := AxisOf(axisDraw(path));
    if ComparesLess(boxOf, axis, first, second) {
      left, right := Object(first), Some(Object(second));
    } else {
      left, right := Object(second), Some(Object(first));
    }
    assert ChildLeaves(left) + RightLeaves(right) == [left.obj, right.value.obj];
  }

  /** The children part of `BvhNode::new`: one object is the left child alone;
      two are ordered by `box_compare`; more are sorted, split and built
      recursively, the left half first. */
  method BuildChildren<H>(objects: seq<H>, time0: real, time1: real, boxOf: BoxFn<H>,
                              axisDraw: seq<bool> -> int, path: seq<bool>)
    returns (res: Result<(Child<H>, Option<Child<H>>), BuildError>)
    ensures res.Err? <==>
              objects == [] || (|objects| >= 2 && !AllBoxed(objects, boxOf, 0.0, 0.0)) ||
              (|objects| >= 3 && !AllBoxed(objects, boxOf, time0, time1))
    ensures res.Err? ==> (res.error == EmptyObjects <==> objects == [])
    ensures res.Ok? ==> ChildrenSpec(objects, res.value.0, res.value.1, boxOf, time0, time1, axisDraw, path)
    decreases |objects|, 1
  {
    if |objects| == 0 {
      return Err(EmptyObjects);
    }
    if |objects| == 1 {
      OneObjectSpec(objects[0], boxOf, time0, time1, axisDraw, path);
      assert objects == [objects[0]];
      return Ok((Object(objects[0]), None));
    }
    if !AllBoxed(objects, boxOf, 0.0, 0.0) {
      return Err(MissingBoundingBox);
    }
    if |objects| == 2 {
      var second := objects[1];
      var first := objects[0];
      assert objects == [first, second];
      var l, r := OrderPair(first, second, boxOf, time0, time1, axisDraw, path);
      return Ok((l, r));
    }
    res := BuildHalves(objects, time0, time1, boxOf, axisDraw, path);
  }

  /** Three or more objects: sort by the node's key, split at `len / 2`, and
      build the left half, then the right half. */
  method BuildHalves<H>(objects: seq<H>, time0: real, time1: real, boxOf: BoxFn<H>,
                            axisDraw: seq<bool> -> int, path: seq<bool>)
    returns (res: Result<(Child<H>, Option<Child<H>>), BuildError>)
    requires |objects| >= 3 && AllBoxed(objects, boxOf, 0.0, 0.0)
    ensures res.Err? <==> !AllBoxed(objects, boxOf, time0, time1)
    ensures res.Err? ==> res.error == MissingBoundingBox
    ensures res.Ok? ==> ChildrenSpec(objects, res.value.0, res.value.1, boxOf, time0, time1, axisDraw, path)
    decreases |objects|, 0
  {
    var axis := AxisOf(axisDraw(path));
    var sorted := SortByKey(objects, boxOf, axis);
    SortByKeySpec(objects, boxOf, axis);
    var mid := |sorted| / 2;
    var half1 := sorted[..mid];
    var half2 := sorted[mid..];
    assert sorted == half1 + half2;
    AllBoxedPermutation(objects, sorted, boxOf, time0, time1);
    AllBoxedPermutation(objects, sorted, boxOf, 0.0, 0.0);
    AllBoxedSplit(sorted, mid, boxOf, time0, time1);
    AllBoxedSplit(sorted, mid, boxOf, 0.0, 0.0);
    var l := Build(half1, time0, time1, boxOf, axisDraw, path + [false]);
    if l.Err? {
      return Err(l.error);
    }
    var r := Build(half2, time0, time1, boxOf, axisDraw, path + [true]);
    if r.Err? {
      return Err(r.error);
    }
    SplitOrdered(sorted, mid, NodeLeaves(l.value), NodeLeaves(r.value), boxOf, axis);
    assert ChildLeaves(Inner(l.value)) + RightLeaves(Some(Inner(r.value))) ==
           NodeLeaves(l.value) + NodeLeaves(r.value);
    return Ok((Inner(l.value), Some(Inner(r.value))));
  }

  /** `BvhNode::new`. `objects` is consumed as the source's `Vec` is; the axis
      of the node at `path` is `axisDraw(path)`. */
  method Build<H>(objects: seq<H>, time0: real, time1: real, boxOf: BoxFn<H>,
                      axisDraw: seq<bool> -> int, path: seq<bool>)
    returns (res: Result<BvhNode<H>, BuildError>)
    ensures res.Err? <==> BuildFails(objects, boxOf, time0, time1)
    ensures res.Err? ==> (res.error == EmptyObjects <==> objects == [])
    ensures res.Ok? ==> multiset(NodeLeaves(res.value)) == multiset(objects)
    ensures res.Ok? ==> Cached(res.value, boxOf, time0, time1)
    ensures res.Ok? ==> KeyOrdered(res.value, boxOf, axisDraw, path)
    ensures res.Ok? && |objects| == 1 ==> res.value.left == Object(objects[0]) && res.value.right == None
    ensures res.Ok? && |objects| == 2 ==>
              if ComparesLess(boxOf, AxisOf(axisDraw(path)), objects[0], objects[1])
              then res.value.left == Object(objects[0]) && res.value.right == Some(Object(objects[1]))
              else res.value.left == Object(objects[1]) && res.value.right == Some(Object(objects[0]))
    ensures res.Ok? && |objects| >= 3 ==>
              res.value.left.Inner? && res.value.right.Some? && res.value.right.value.Inner? &&
              |ChildLeaves(res.value.left)| == |objects| / 2
    decreases |objects|, 2
  {
    var children := BuildChildren(objects, time0, time1, boxOf, axisDraw, path);
    if children.Err? {
      return Err(children.error);
    }
    var (left, right) := children.value;
    var leftBox := ChildBox(left, boxOf, time0, time1);
    if leftBox.None? {
      return Err(MissingBoundingBox);
    }
    var abox;
    if right.Some? {
      var rightBox := ChildBox(right.value, boxOf, time0, time1);
      if rightBox.None? {
        return Err(MissingBoundingBox);
      }
      abox := SurroundingBox(leftBox.value, rightBox.value);
    } else {
      abox := leftBox.value;
    }
    res := Ok(BvhNode(left, right, abox));
    assert NodeLeaves(res.value) == ChildLeaves(left) + RightLeaves(right);
    if |objects| <= 2 {
      assert AllBoxed(objects, boxOf, time0, time1);
    }
  }

  // ----- traversal -----

  /** `hit` of a child: the object's own `hit`, or the nested node's. */
  function ChildHit<H, M>(c: Child<H>, hit: HitFn<H, M>, r: Ray, tMin: real, tMax: real): Option<HitRecord<M>>
    decreases c
  {
    match c
    case Object(o) => hit(o, r, tMin, tMax)
    case Inner(n) => NodeHit(n, hit, r, tMin, tMax)
  }

  /** `BvhNode::hit`: nothing if the cached box misses; otherwise the left
      child, then the right child bounded by the left hit's `t`, keeping the
      left hit only when it is strictly nearer. */
  function NodeHit<H, M>(n: BvhNode<H>, hit: HitFn<H, M>, r: Ray, tMin: real, tMax: real)
    : (res: Option<HitRecord<M>>)
    decreases n
  {
    if !Hit(n.abox, r, tMin, tMax) then None
    else
      var hitLeft := ChildHit(n.left, hit, r, tMin, tMax);
      var hitRight :=
        if n.right.Some? then ChildHit(n.right.value, hit, r, tMin, Bound(hitLeft, tMax)) else None;
      match (hitLeft, hitRight)
      case (None, right) => right
      case (left, None) => left
      case (Some(left), Some(right)) => if left.t < right.t then Some(left) else Some(right)
  }

  /** A missed box ends the search: neither child is probed. */
  lemma NodeHitBoxMiss<H, M>(n: BvhNode<H>, hit: HitFn<H, M>, r: Ray, tMin: real, tMax: real)
    requires !Hit(n.abox, r, tMin, tMax)
    ensures NodeHit(n, hit, r, tMin, tMax) == None
  {
  }

  /** Each node's box is trustworthy for this ray: when it misses an interval,
      every object below misses that interval too. */
  ghost predicate BoxesSound<H, M>(n: BvhNode<H>, hit: HitFn<H, M>, r: Ray, tMin: real)
    decreases n
  {
    (forall tMax, i :: 0 <= i < |NodeLeaves(n)| && !Hit(n.abox, r, tMin, tMax) ==>
       hit(NodeLeaves(n)[i], r, tMin, tMax).None?) &&
    (n.left.Inner? ==> BoxesSound(n.left.node, hit, r, tMin)) &&
    (n.right.Some? && n.right.value.Inner? ==> BoxesSound(n.right.value.node, hit, r, tMin))
  }

  /** Traversal agrees with the list scan of the leaves in order: pruning by
      boxes loses nothing, and the right-child bound plus the tie rule pick the
      same hit as `HittableList::hit`. */
  lemma {:induction false} NodeHitIsScan<H(!new), M>(n: BvhNode<H>, hit: HitFn<H, M>, r: Ray, tMin: real, tMax: real)
    requires BoundsRespected(hit) && BoxesSound(n, hit, r, tMin)
    ensures NodeHit(n, hit, r, tMin, tMax) == Scan(NodeLeaves(n), hit, r, tMin, tMax, None)
    decreases n
  {
    var leaves := NodeLeaves(n);
    if !Hit(n.abox, r, tMin, tMax) {
      ScanNoneIffAllMiss(leaves, hit, r, tMin, tMax);
    } else {
      var L := ChildLeaves(n.left);
      var hitLeft := ChildHit(n.left, hit, r, tMin, tMax);
      ChildHitIsScan(n.left, hit, r, tMin, tMax);
      if n.right.Some? {
        var R := ChildLeaves(n.right.value);
        var bound := Bound(hitLeft, tMax);
        ChildHitIsScan(n.right.value, hit, r, tMin, bound);
        ScanAppend(L, R, hit, r, tMin, tMax, None);
        if hitLeft.Some? {
          ScanFromHeld(R, hit, r, tMin, tMax, hitLeft.value);
          ScanBounds(R, hit, r, tMin, bound, None);
        }
      } else {
        assert leaves == L;
      }
    }
  }

  lemma {:induction false} ChildHitIsScan<H(!new), M>(c: Child<H>, hit: HitFn<H, M>, r: Ray, tMin: real, tMax: real)
    requires BoundsRespected(hit)
    requires c.Inner? ==> BoxesSound(c.node, hit, r, tMin)
    ensures ChildHit(c, hit, r, tMin, tMax) == Scan(ChildLeaves(c), hit, r, tMin, tMax, None)
    decreases c, 0
  {
    match c
    case Object(o) =>
      assert [o][1..] == [];
    case Inner(m) =>
      NodeHitIsScan(m, hit, r, tMin, tMax);
  }

  /** For this ray and lower bound, every hit a leaf reports lies beyond
      `tMin` and strictly inside the leaf's box. A hit exactly at `tMin` is
      excluded because the right child's interval `[tMin, left.t]` is then
      empty and its box test fails; a hit on a box face because the slab test
      can miss it. */
  ghost predicate HitsInsideBoxes<H(!new), M>(leaves: seq<H>, hit: HitFn<H, M>, boxOf: BoxFn<H>,
                                              time0: real, time1: real, r: Ray, tMin: real) {
    forall o, hi :: o in leaves && hit(o, r, tMin, hi).Some? ==>
      tMin < hit(o, r, tMin, hi).value.t && boxOf(o, time0, time1).Some? &&
      InsideOpen(boxOf(o, time0, time1).value, At(r, hit(o, r, tMin, hi).value.t))
  }

  /** The hypothesis passes from a node to the nodes below it. */
  lemma HitsInsideBoxesChild<H(!new), M>(n: BvhNode<H>, c: Child<H>, hit: HitFn<H, M>, boxOf: BoxFn<H>,
                                         time0: real, time1: real, r: Ray, tMin: real)
    requires c == n.left || n.right == Some(c)
    requires HitsInsideBoxes(NodeLeaves(n), hit, boxOf, time0, time1, r, tMin)
    ensures HitsInsideBoxes(ChildLeaves(c), hit, boxOf, time0, time1, r, tMin)
  {
    forall o | o in ChildLeaves(c)
      ensures o in NodeLeaves(n)
    {
    }
  }

  /** Boxes cached by construction are sound for any ray whose hits lie beyond
      `tMin` and strictly inside the leaves' boxes. */
  lemma {:induction false} CachedBoxesSound<H(!new), M>(n: BvhNode<H>, hit: HitFn<H, M>, boxOf: BoxFn<H>,
                                                      time0: real, time1: real, r: Ray, tMin: real)
    requires Cached(n, boxOf, time0, time1)
    requires BoundsRespected(hit) && HitsInsideBoxes(NodeLeaves(n), hit, boxOf, time0, time1, r, tMin)
    ensures BoxesSound(n, hit, r, tMin)
    decreases n
  {
    CachedBoxContainsLeaves(n, boxOf, time0, time1);
    forall tMax, i | 0 <= i < |NodeLeaves(n)| && !Hit(n.abox, r, tMin, tMax)
      ensures hit(NodeLeaves(n)[i], r, tMin, tMax).None?
    {
      var o := NodeLeaves(n)[i];
      if hit(o, r, tMin, tMax).Some? {
        var t := hit(o, r, tMin, tMax).value.t;
        InsideContained(n.abox, boxOf(o, time0, time1).value, At(r, t));
        HitSound(n.abox, r, tMin, tMax, t);
      }
    }
    if n.left.Inner? {
      HitsInsideBoxesChild(n, n.left, hit, boxOf, time0, time1, r, tMin);
      CachedBoxesSound(n.left.node, hit, boxOf, time0, time1, r, tMin);
    }
    if n.right.Some? && n.right.value.Inner? {
      HitsInsideBoxesChild(n, n.right.value, hit, boxOf, time0, time1, r, tMin);
      CachedBoxesSound(n.right.value.node, hit, boxOf, time0, time1, r, tMin);
    }
  }

  /** A tree whose boxes were cached by `Build` answers a ray exactly as the
      list scan of its leaves, provided the leaves' hits lie beyond `tMin` and
      strictly inside their own boxes. */
  lemma BuiltTreeHitIsScan<H(!new), M>(n: BvhNode<H>, hit: HitFn<H, M>, boxOf: BoxFn<H>,
                                       time0: real, time1: real, r: Ray, tMin: real, tMax: real)
    requires Cached(n, boxOf, time0, time1)
    requires BoundsRespected(hit) && HitsInsideBoxes(NodeLeaves(n), hit, boxOf, time0, time1, r, tMin)
    ensures NodeHit(n, hit, r, tMin, tMax) == Scan(NodeLeaves(n), hit, r, tMin, tMax, None)
  {
    CachedBoxesSound(n, hit, boxOf, time0, time1, r, tMin);
    NodeHitIsScan(n, hit, r, tMin, tMax);
  }

  /** Traversal keeps within the interval it was asked about. */
  lemma {:induction false} NodeHitWithinBounds<H(!new), M>(n: BvhNode<H>, hit: HitFn<H, M>, r: Ray,
                                                         tMin: real, tMax: real)
    requires BoundsRespected(hit)
    ensures var res := NodeHit(n, hit, r, tMin, tMax);
            res.Some? ==> tMin <= res.value.t <= tMax
    decreases n
  {
    if Hit(n.abox, r, tMin, tMax) {
      var hitLeft := ChildHit(n.left, hit, r, tMin, tMax);
      ChildHitWithinBounds(n.left, hit, r, tMin, tMax);
      if n.right.Some? {
        ChildHitWithinBounds(n.right.value, hit, r, tMin, Bound(hitLeft, tMax));
      }
    }
  }

  lemma {:induction false} ChildHitWithinBounds<H(!new), M>(c: Child<H>, hit: HitFn<H, M>, r: Ray,
                                                          tMin: real, tMax: real)
    requires BoundsRespected(hit)
    ensures var res := ChildHit(c, hit, r, tMin, tMax);
            res.Some? ==> tMin <= res.value.t <= tMax
    decreases c, 0
  {
    if c.Inner? {
      NodeHitWithinBounds(c.node, hit, r, tMin, tMax);
    }
  }

  /** Once the box is hit, a hit of the right child always wins: it was
      searched only up to the left hit's `t`, and a tie goes to the right. */
  lemma NodeHitPrefersRight<H(!new), M>(n: BvhNode<H>, hit: HitFn<H, M>, r: Ray, tMin: real, tMax: real)
    requires BoundsRespected(hit) && Hit(n.abox, r, tMin, tMax)
    ensures var hitLeft := ChildHit(n.left, hit, r, tMin, tMax);
            var hitRight :=
              if n.right.Some? then ChildHit(n.right.value, hit, r, tMin, Bound(hitLeft, tMax)) else None;
            NodeHit(n, hit, r, tMin, tMax) == if hitRight.Some? then hitRight else hitLeft
  {
    var hitLeft := ChildHit(n.left, hit, r, tMin, tMax);
    if n.right.Some? {
      ChildHitWithinBounds(n.right.value, hit, r, tMin, Bound(hitLeft, tMax));
    }
  }
}
