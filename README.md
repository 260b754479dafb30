# A verified model of the core of a Rust path tracer

This project is a Dafny model of the core of a small Rust path tracer ("ray
tracing in one weekend" style). It covers:

- vectors, rays, axis-aligned bounding boxes (AABBs) and the AABB slab test;
- hit records, hittable lists, `Translate` and the cached box of `RotateY`;
- the bounding volume hierarchy (BVH): its recursive construction and its
  nearest-hit traversal;
- stationary and moving spheres, the `XyRect` rectangle and the
  constant-density medium with its isotropic phase function;
- the material scatter rules, Schlick reflectance and textures;
- the Perlin noise tables and turbulence;
- pixel quantisation (`color_as_rgb8`), the depth-bounded `ray_color`
  recursion and the per-row pixel loop of the renderer.

Numbers:
- `f64` is modelled as `real`.
- The AABB slab test is the one place where IEEE-754 behaviour matters. A
  ray parallel to a slab divides by zero, so there the model carries an
  explicit `F64` value (finite, `+inf`, `-inf`, NaN) with IEEE `min`, `max`
  and comparisons.
- The `i32` arithmetic of the Perlin lattice indices is modelled with 32-bit
  bit-vectors.
- `sqrt`, `sin`, `ln`, `to_unit` and `refract` are function parameters. The
  facts the proofs need about them are stated as predicates, e.g. `IsSqrt`:
  the result is non-negative and squares back to the argument.

Randomness: every random draw is a parameter.

Hittables: a hittable object is a value of a generic type `H`, together with
the functions `hit: (H, Ray, tMin, tMax) -> Option<HitRecord>` and
`boxOf: (H, time0, time1) -> Option<Aabb>`. The model reasons about dynamic
dispatch only through facts stated about those functions:
- `BoundsRespected`: a reported `t` lies in `[tMin, tMax]`;
- `HitsInsideBoxes(leaves, …, r, tMin)`: for this ray and lower bound, every
  hit a leaf reports on an interval `[tMin, hi]` has `t > tMin` and its point
  STRICTLY inside the leaf's box (`InsideOpen`). `Rects.RectHitsInsideBoxes`
  shows that rectangles the ray meets away from their edges and beyond `tMin`
  satisfy it.

Shape of the model:
- `HittableList` is a class whose `objects` sequence `Add` appends to.
- Its `hit` and `bounding_box` loops are methods proved against the
  recursive functions `Scan` and `ListBoxFrom`.
- The BVH constructor, the Fisher–Yates `permute` (over an `array`), the
  turbulence loop, the noise corner loops, the constant-medium clamping and
  the row loop are methods, each with loop invariants or step-by-step state.
- Everything else is functions and lemmas.

The files follow the source: `vec3.dfy`, `ray.dfy`, `aabb.dfy`,
`hittable.dfy`, `bvh_node.dfy`, `sphere.dfy`, `moving_sphere.dfy`,
`aarect.dfy`, `constant_medium.dfy`, `material.dfy`, `texture.dfy`,
`perlin.dfy`, `color.dfy`, and `render.dfy` for the parts of `src/main.rs`.
`wrappers.dfy` holds `Option` and `Result`.

## Model

| member | source | states |
|---|---|---|
| Vectors.Add | src/vec3.rs:14-20 | componentwise sum (derived `Add`); specified by `Vectors.AddUndoneBySub` |
| Vectors.Sub | src/vec3.rs:14-20 | componentwise difference (derived `Sub`); specified by `Vectors.AddUndoneBySub` |
| Vectors.Dot | src/vec3.rs:103-105 | specified by `Vectors.DotSymmetric`, `Vectors.DotSubScale` and the unit-test values of `Vectors.DotCrossExamples` |
| Vectors.Cross | src/vec3.rs:108-114 | specified by `Vectors.CrossOrthogonal` and `Vectors.DotCrossExamples` |
| Vectors.Reflect | src/vec3.rs:86-88 | specified by `Vectors.ReflectFlipsNormalComponent` |
| Vectors.MulAssign | src/vec3.rs:159-165 | `v *= s` as the updated vector; specified by `Vectors.DivAssignUndoneByMulAssign` and `Vectors.IndexExamples` |
| Vectors.DivAssign | src/vec3.rs:175-179 | `v /= s` as the updated vector; specified by `Vectors.DivAssignUndoneByMulAssign` |
| Vectors.DivAssignUndoneByMulAssign | src/vec3.rs:159-179 | `*= s` undoes `/= s` for `s != 0`, and `/=` is the same as `/` |
| Vectors.AddUndoneBySub | src/vec3.rs:14-20 | subtraction undoes addition and negation is an involution |
| Vectors.CrossOrthogonal | src/vec3.rs:108-114 | the cross product is orthogonal to both operands |
| Vectors.DotCrossExamples | src/vec3.rs:227-245 | the values the unit tests in `src/vec3.rs` assert: `(1,2,3)·(4,5,6) = 32`, `(1,2,3)×(4,5,6) = (-3,6,-3)`, `length_squared(1,2,3) = 14` |
| Vectors.LengthSquared | src/vec3.rs:95-97 | the squared length is non-negative and equals `v·v` |
| Vectors.Square | src/vec3.rs:95-97 | a square is non-negative |
| Vectors.Index | src/vec3.rs:181-192 | indices 0, 1 and 2 read `x`, `y` and `z`; any other index fails (`None`, standing for the panic) |
| Vectors.Component | src/vec3.rs:181-192 | an in-range axis reads the same value as `Index` |
| Vectors.SetIndex | src/vec3.rs:194-203 | writing index `i < 3` sets exactly that component and leaves the other two unchanged; any other index fails |
| Vectors.IndexExamples | src/vec3.rs:306-321 | the values the unit tests in `src/vec3.rs` assert for indexing, mutable indexing, `*=` and `/=` |
| Vectors.DotSymmetric | src/vec3.rs:103-105 | the dot product is symmetric |
| Vectors.DotSubScale | src/vec3.rs:86-88 | the dot product is linear in the reflected vector `v - k n` |
| Vectors.ReflectFlipsNormalComponent | src/vec3.rs:86-88 | for a unit normal, `reflect` negates the normal component and keeps the length |
| Vectors.NearZero | src/vec3.rs:90-93 | a near-zero vector has squared length below `3·10⁻¹⁶`, and the zero vector is near zero |
| Vectors.Abs | src/vec3.rs:90-93 | `abs` is non-negative and is `a` or `-a` |
| Vectors.Lerp | src/vec3.rs:205-207 | `lerp(0, a, b) == a` and `lerp(1, a, b) == b` |
| Vectors.FirstInUnitSphereInside | src/vec3.rs:64-71 | the rejection loop returns the first draw strictly inside the unit sphere, and returns nothing only when every draw is outside |
| Vectors.RandomInUnitSphere | src/vec3.rs:64-71 | the loop's result is the first accepted draw and has squared length `< 1` |
| Vectors.RandomInHemisphere | src/vec3.rs:77-84 | the result has a non-negative dot product with the normal, has the sample's length, and is the sample or its negation |
| Vectors.NegKeepsLength | src/vec3.rs:77-84 | negation keeps the squared length |
| Rays.NewRay | src/ray.rs:11-17 | `Ray::new`; specified by `Rays.NewRayAccessors` |
| Rays.NewRayAccessors | src/ray.rs:11-29 | `new` stores origin and direction; time `None` becomes 0 and `Some(t)` becomes `t`; the accessors return the stored fields |
| Rays.At | src/ray.rs:31-33 | `at(0)` is the origin |
| Rays.AtCoordinates | src/ray.rs:31-33 | each coordinate of `at(t)` is `orig + t·dir` |
| Rays.AtAffine | src/ray.rs:31-33 | `at(s) - at(t) == dir·(s - t)` and `at(s + t) == at(s) + dir·t` |
| Aabbs.Min | src/aabb.rs:12-14 | `min()` returns the stored minimum corner |
| Aabbs.Max | src/aabb.rs:16-18 | `max()` returns the stored maximum corner |
| Aabbs.FMin | src/aabb.rs:41-43 | `f64::min` is at most both arguments and equals one of them |
| Aabbs.FMax | src/aabb.rs:46-48 | `f64::max` is at least both arguments and equals one of them |
| Aabbs.Quotient | src/aabb.rs:23-28 | a slab division is finite for a non-zero divisor; by zero it is `+inf`, `-inf` or NaN according to the numerator's sign |
| Aabbs.HitFrom | src/aabb.rs:21-36 | the axis loop from a given axis on; specified by `Aabbs.HitFromMeaning` |
| Aabbs.Hit | src/aabb.rs:20-37 | `Aabb::hit`; specified by `Aabbs.HitMeaning`, `Aabbs.HitSound`, `Aabbs.HitEmptyInterval` and `Aabbs.HitOverApproximates` |
| Aabbs.HitFromMeaning | src/aabb.rs:21-36 | the axis loop from axis `a` on succeeds iff every remaining axis overlaps by itself |
| Aabbs.HitMeaning | src/aabb.rs:20-37 | `hit` is true iff each axis on its own overlaps the caller's `[t_min, t_max]`; nothing carries over between axes |
| Aabbs.AxisOverlapsMoving | src/aabb.rs:22-34 | on a non-parallel axis the test is `max(t0, t_min) < min(t1, t_max)` over the two plane crossings |
| Aabbs.AxisOverlapsParallel | src/aabb.rs:22-34 | on a parallel axis the test passes iff the origin lies strictly between the planes (or on a zero-width slab) and `t_min < t_max` |
| Aabbs.HitEmptyInterval | src/aabb.rs:30-34 | with `t_max <= t_min`, `hit` is false |
| Aabbs.WithinSlab | src/aabb.rs:22-29 | a point strictly inside a slab is reached at a `t` strictly between the two plane crossings |
| Aabbs.SlabOverlap | src/aabb.rs:22-34 | such a `t` inside `[t_min, t_max]` makes that axis's test pass |
| Aabbs.AxisOverlapsX | src/aabb.rs:21-34 | a point of the ray strictly inside the x slab makes axis 0 overlap |
| Aabbs.AxisOverlapsY | src/aabb.rs:21-34 | a point of the ray strictly inside the y slab makes axis 1 overlap |
| Aabbs.AxisOverlapsZ | src/aabb.rs:21-34 | a point of the ray strictly inside the z slab makes axis 2 overlap |
| Aabbs.HitSound | src/aabb.rs:20-37 | a ray that passes through the open box at some `t` in a non-empty `[t_min, t_max]` makes `hit` true |
| Aabbs.HitOverApproximates | src/aabb.rs:20-37 | because each axis is checked on its own, `hit` can be true for a ray that never enters the box (a concrete ray and box) |
| Aabbs.SurroundingBox | src/aabb.rs:39-51 | the surrounding box contains both input boxes |
| Aabbs.ContainsReflexive | src/aabb.rs:39-51 | every box contains itself |
| Aabbs.ContainsTransitive | src/aabb.rs:39-51 | containment is transitive |
| Aabbs.InsideContained | src/aabb.rs:39-51 | a point inside a contained box is inside the containing box |
| Aabbs.SurroundingBoxMinimal | src/aabb.rs:39-51 | any box containing both inputs contains the surrounding box |
| Aabbs.SurroundingBoxCommutative | src/aabb.rs:39-51 | `surrounding_box(a, b) == surrounding_box(b, a)` |
| Aabbs.SurroundingBoxIdempotent | src/aabb.rs:39-51 | `surrounding_box(a, a) == a` |
| Aabbs.SurroundingBoxAssociative | src/aabb.rs:39-51 | folding boxes in either grouping gives the same box |
| Aabbs.SurroundingBoxAbsorbs | src/aabb.rs:39-51 | a box that already contains another is its own surrounding box with it |
| Aabbs.SurroundingBoxValid | src/aabb.rs:39-51 | if both inputs have `min <= max` on every axis, so does the result |
| Hittables.NewHitRecord | src/hittable.rs:25-48 | `front_face` iff `dir·outward < 0`; the normal is `outward` on the front face and `-outward` otherwise, so `dir·normal <= 0`; `t`, `u`, `v` and the material are stored unchanged and `p = r.at(t)` |
| Hittables.Scan | src/hittable.rs:72-83 | the list scan from a held hit; specified by `Hittables.ScanNoneIffAllMiss`, `Hittables.ScanBounds` and `Hittables.ScanAppend` |
| Hittables.ScanAppend | src/hittable.rs:72-83 | scanning `a + b` is scanning `b` from the result of scanning `a` |
| Hittables.ScanHeldIgnoresTMax | src/hittable.rs:75-79 | once a hit is held, the caller's `t_max` no longer matters |
| Hittables.ScanFromHeld | src/hittable.rs:75-79 | scanning from a held hit is the scan whose bound is that hit's `t` |
| Hittables.ScanKeepsHit | src/hittable.rs:75-82 | once a hit is held the scan never returns `None` |
| Hittables.ScanNoneIffAllMiss | src/hittable.rs:73-82 | the scan returns `None` iff every object misses on `[t_min, t_max]`; an empty list returns `None` |
| Hittables.ScanBounds | src/hittable.rs:73-82 | with bound-respecting objects the result lies in `[t_min, current best t]`, so the best `t` never increases; the result is the held hit or one some object reported |
| Hittables.ListBoxFrom | src/hittable.rs:85-99 | the box fold from an accumulated box; specified by `Hittables.ListBoxFromMeaning` |
| Hittables.ListBoxFromMeaning | src/hittable.rs:85-99 | the box fold is `Some` iff every object has a box (and the list is non-empty); the result contains every object's box and is contained in any box that contains them all |
| Hittables.HittableList.constructor | src/hittable.rs:62-64 | a new list is empty |
| Hittables.HittableList.Add | src/hittable.rs:66-68 | `add` appends exactly the one object at the end |
| Hittables.HittableList.Hit | src/hittable.rs:72-83 | the loop computes `Scan`, tightening the bound to the best `t` so far; the result is `None` iff every object misses |
| Hittables.HittableList.BoundingBox | src/hittable.rs:85-99 | the loop computes `ListBoxFrom`: `None` for an empty list or when an object has no box, and otherwise a box containing every object's box |
| Hittables.MovedRay | src/hittable.rs:116 | the probe ray has the origin moved by `-offset`, with the same direction and time |
| Hittables.TranslateHit | src/hittable.rs:115-121 | `Translate::hit` hits iff the wrapped object hits the moved ray; it moves the point by `+offset` and keeps `t`, normal, face, `u`, `v` and material |
| Hittables.TranslateHitOnRay | src/hittable.rs:115-121 | a hit point on the moved ray, shifted by `+offset`, is the point at the same `t` on the caller's ray |
| Hittables.TranslateBox | src/hittable.rs:123-127 | `Translate::bounding_box` is `None` iff the inner box is `None`, and otherwise shifts both corners by `offset` |
| Hittables.TranslateBoxInside | src/hittable.rs:123-127 | `q` is in the inner box iff `q + offset` is in the translated box |
| Hittables.RotateYBox | src/hittable.rs:206-208 | `RotateY::bounding_box` returns the cached box |
| Bvh.Key | src/bvh_node.rs:81-89 | `box_compare`'s key: the minimum corner on the axis of the box at times `(0, 0)`; ordered by `Bvh.SortByKeySpec` |
| Bvh.Insert | src/bvh_node.rs:46 | one step of the stable sort; specified by `Bvh.InsertPermutes`, `Bvh.InsertLowerBound` and `Bvh.InsertSorted` |
| Bvh.SortByKey | src/bvh_node.rs:46 | `sort_by(box_compare)`; specified by `Bvh.SortByKeySpec` |
| Bvh.InsertPermutes | src/bvh_node.rs:46 | inserting into the sorted list adds exactly the one element |
| Bvh.InsertLowerBound | src/bvh_node.rs:46 | insertion keeps a common lower bound on the keys |
| Bvh.InsertSorted | src/bvh_node.rs:46 | insertion keeps the list sorted by key |
| Bvh.SortByKeySpec | src/bvh_node.rs:81-89 | `sort_by` with `box_compare` yields a permutation sorted by the minimum corner on the axis |
| Bvh.AllBoxedPermutation | src/bvh_node.rs:46 | whether every object has a box does not depend on the order |
| Bvh.AllBoxedSplit | src/bvh_node.rs:48-49 | every object has a box iff every object of both halves does |
| Bvh.NodeBox | src/bvh_node.rs:120-122 | `bounding_box` is the cached `abox`, whatever the times |
| Bvh.CachedBoxContainsLeaves | src/bvh_node.rs:55-62 | the cached box of a built tree contains the box of every leaf object |
| Bvh.ChildContainsLeaves | src/bvh_node.rs:55-62 | a child's box contains the boxes of all its leaves |
| Bvh.SplitOrdered | src/bvh_node.rs:45-53 | after sorting and splitting at `mid`, every key in the left half is at most every key in the right half |
| Bvh.OneObjectSpec | src/bvh_node.rs:31-33 | a single object becomes the left leaf, with no right child |
| Bvh.OrderPair | src/bvh_node.rs:34-44 | two objects keep their order when the first compares strictly less, and are swapped otherwise |
| Bvh.BuildChildren | src/bvh_node.rs:28-53 | the child split fails iff the list is empty or an object lacks a box; otherwise the children hold exactly the objects, ordered by key |
| Bvh.BuildHalves | src/bvh_node.rs:45-53 | three or more objects are sorted, split at `len/2` and built recursively; the halves hold exactly the objects and are key-ordered |
| Bvh.Build | src/bvh_node.rs:18-69 | construction fails exactly on an empty list (the assertion) or a missing box; a built tree holds the input multiset of objects, caches the union of its children's boxes, is key-ordered at every node, has the leaf, pair and `len/2` shapes of the three cases, and terminates |
| Bvh.ChildHit | src/bvh_node.rs:100-106 | the `hit` of a child, an object or a subtree; specified by `Bvh.ChildHitIsScan` and `Bvh.ChildHitWithinBounds` |
| Bvh.NodeHit | src/bvh_node.rs:94-118 | `BvhNode::hit`; specified by `Bvh.NodeHitBoxMiss`, `Bvh.NodeHitPrefersRight`, `Bvh.NodeHitIsScan` and `Bvh.NodeHitWithinBounds` |
| Bvh.NodeHitBoxMiss | src/bvh_node.rs:95-97 | a missed box returns `None` without probing either child |
| Bvh.NodeHitIsScan | src/bvh_node.rs:94-118 | with sound boxes, traversal returns what the hittable-list scan over the tree's leaves returns |
| Bvh.ChildHitIsScan | src/bvh_node.rs:94-118 | the same for a child (a leaf object or a subtree) |
| Bvh.CachedBoxesSound | src/bvh_node.rs:94-97 | when every leaf's hits lie beyond `tMin` and strictly inside its box (`HitsInsideBoxes`), the cached boxes never prune a hit |
| Bvh.HitsInsideBoxesChild | src/bvh_node.rs:99-106 | the hypothesis holds for each child when it holds for the node |
| Bvh.BuiltTreeHitIsScan | src/bvh_node.rs:94-118 | under `HitsInsideBoxes` (the leaves' hits lie beyond `tMin` and strictly inside their boxes), a built tree's traversal equals the linear scan over its leaves |
| Bvh.NodeHitWithinBounds | src/bvh_node.rs:94-118 | a reported `t` lies in `[t_min, t_max]` |
| Bvh.ChildHitWithinBounds | src/bvh_node.rs:94-118 | the same for a child |
| Bvh.NodeHitPrefersRight | src/bvh_node.rs:99-117 | once the box is hit, the right child is probed up to the left hit's `t` (or `t_max`) and its hit wins, ties included |
| Spheres.Moving | src/sphere.rs:20-36 | `moving` stores every field unchanged |
| Spheres.Stationary | src/sphere.rs:38-51 | `stationary` sets both centres to the centre and both times to 0 |
| Spheres.Interpolate | src/sphere.rs:57-58 | the interpolated centre is `center0` at `time0` and `center1` at `time1` |
| Spheres.InterpolateMidpoint | src/sphere.rs:57-58 | the midpoint time gives the midpoint of the two centres |
| Spheres.Center | src/sphere.rs:53-60 | `center` is `center0` when `time0 == time1`; otherwise `center(time0) = center0` and `center(time1) = center1` |
| Spheres.StationaryCenter | src/sphere.rs:38-60 | a stationary sphere's centre is the given centre at every time |
| Spheres.NearestRoot | src/sphere.rs:71-84 | a selected root lies in `[t_min, t_max]` |
| Spheres.ExpandOnSphere | src/sphere.rs:66-71 | a point of the ray is on the sphere iff `t` solves `a t² + 2 half_b t + c = 0` |
| Spheres.CompleteSquare | src/sphere.rs:71 | completing the square with the discriminant `half_b² - a c` |
| Spheres.QuadraticRoots | src/sphere.rs:75-79 | the solutions are exactly `(-half_b ∓ sqrtd)/a` |
| Spheres.NoRealRoot | src/sphere.rs:71-74 | a negative discriminant means no `t` is on the sphere |
| Spheres.RootsOrdered | src/sphere.rs:77-79 | the `-sqrtd` root is the smaller one |
| Spheres.NearestRootMeaning | src/sphere.rs:71-84 | a selected root is on the sphere and is the smallest such `t` in range; `None` means no `t` in range is on the sphere |
| Spheres.SphereHit | src/sphere.rs:65-89 | a reported `t` lies in `[t_min, t_max]`, `p = r.at(t)`, the material is the sphere's, and the normal faces the ray |
| Spheres.OnSurfaceOffset | src/sphere.rs:66 | a point is on the surface iff the offset origin `oc` solves the root equation |
| Spheres.SphereHitNearest | src/sphere.rs:65-89 | a hit is on the surface at the nearest in-range `t`; no hit means no surface point in range |
| Spheres.SphereHitNormalUnit | src/sphere.rs:86-88 | the stored normal has unit length |
| Spheres.SphereBox | src/sphere.rs:91-102 | the box contains the radius boxes at `time0` and at `time1` |
| Spheres.InterpolateCoordinates | src/sphere.rs:57-58 | each coordinate of the centre interpolates linearly |
| Spheres.Lerp1Slope | src/sphere.rs:57-58 | linear interpolation in slope form |
| Spheres.LerpBetween | src/sphere.rs:57-58 | a time between two times gives a value between their values |
| Spheres.CenterBetween | src/sphere.rs:53-60 | the centre at a time between `s0` and `s1` lies coordinate-wise between the centres at `s0` and `s1` |
| Spheres.SphereBoxCoversMotion | src/sphere.rs:91-102 | the box contains the radius box at every time in `[time0, time1]` |
| Spheres.SurfaceInRadiusBox | src/sphere.rs:92-95 | a point on the sphere lies in its radius box |
| Spheres.SphereHitInBox | src/sphere.rs:65-102 | every hit point at a time in `[time0, time1]` lies in the bounding box |
| MovingSpheres.MovingCenter | src/moving_sphere.rs:22-25 | `center(time0) = center0` and `center(time1) = center1` |
| MovingSpheres.MovingCenterMidpoint | src/moving_sphere.rs:22-25 | the midpoint time gives the midpoint of the two centres |
| MovingSpheres.MovingSphereHit | src/moving_sphere.rs:30-54 | a reported `t` lies in `[t_min, t_max]`, `p = r.at(t)` and the material is the sphere's |
| MovingSpheres.MovingSphereBox | src/moving_sphere.rs:56-67 | the box contains the radius boxes at `time0` and at `time1` |
| MovingSpheres.MovingSphereIsSphere | src/moving_sphere.rs:22-67 | centre, hit and box agree with a moving `Sphere` holding the same fields |
| MovingSpheres.MovingSphereHitNearest | src/moving_sphere.rs:36-50 | a hit is at the nearest in-range surface `t`; no hit means none in range |
| MovingSpheres.MovingSphereBoxCoversMotion | src/moving_sphere.rs:56-67 | the box contains the radius box at every time in `[time0, time1]` |
| Rects.XyRectHit | src/aarect.rs:22-43 | a reported `t` lies in `[t_min, t_max]`, `u` and `v` lie in `[0, 1]`, `p = r.at(t)` and the material is the rectangle's |
| Rects.Fraction | src/aarect.rs:33-34 | the texture coordinate lies in `[0, 1]` for a point in range, and is 0 and 1 at the two edges |
| Rects.FractionEnds | src/aarect.rs:33-34 | the same facts about `(x - lo)/(hi - lo)` |
| Rects.FractionBounds | src/aarect.rs:33-34 | for `lo < hi`, a point in `[lo, hi]` gives a fraction in `[0, 1]` |
| Rects.PlaneCrossingUnique | src/aarect.rs:23 | `at(t).z == k` iff `t == (k - origin.z)/dir.z` |
| Rects.XyRectHitExact | src/aarect.rs:22-43 | a hit is the unique `t` in range where the ray meets the rectangle (`z = k`, `x0 <= x <= x1`, `y0 <= y <= y1`); no hit means no such `t` |
| Rects.XyRectHitNormal | src/aarect.rs:36-42 | the outward normal is `(0,0,1)`: front face iff `dir.z < 0`, and the stored normal faces the ray |
| Rects.XyRectBox | src/aarect.rs:45-52 | the box spans `[x0,x1]×[y0,y1]×[k-0.0001, k+0.0001]` |
| Rects.XyRectBoxEncloses | src/aarect.rs:45-52 | the box has positive z-extent and contains every point of the rectangle |
| Rects.XyRectHitInBox | src/aarect.rs:22-52 | every hit point lies in the box |
| Rects.RectHit | src/aarect.rs:22-43 | `XyRect::hit` over every rectangle and ray: equal to `XyRectHit` where its divisions are defined, and every hit in `[t_min, t_max]` on the ray |
| Rects.RectHitBoundsRespected | src/aarect.rs:22-43 | the rectangle's hit respects the caller's interval (`BoundsRespected`) |
| Rects.RectHitsInsideBoxes | src/aarect.rs:22-52 | rectangles the ray meets beyond `tMin` and off their edge lines report hits beyond `tMin` and strictly inside their boxes |
| Rects.RectBvhHitIsScan | src/bvh_node.rs:94-118 | a cached BVH over such rectangles answers the ray exactly as `HittableList::hit` over its leaves |
| Rects.RectBvhHitsCentre | src/bvh_node.rs:94-118 | a concrete tree that meets the hypothesis and does report a hit, at `t = 1` |
| Rects.BvhPrunesEdgeHit | src/bvh_node.rs:94-97 | a concrete edge hit of a rectangle, by a ray parallel to the x faces, that the rectangle reports and its own box's slab test (NaN and `+inf` on x) misses, so a BVH leaf built over it returns `None` where the list scan returns the hit |
| Media.NewMedium | src/constant_medium.rs:18-28 | `new` keeps the boundary, wraps the texture in an `Isotropic` phase function and stores `neg_inv_density` with `neg_inv_density · density = -1` |
| Media.NewMediumSign | src/constant_medium.rs:26 | a positive density gives a negative `neg_inv_density` |
| Media.Crossings | src/constant_medium.rs:33-34 | the two boundary queries: the first over all `t`, the second from `rec1.t + 0.0001`; `None` iff either misses |
| Media.Entry | src/constant_medium.rs:36-38 | the entry is raised to `t_min` |
| Media.Exit | src/constant_medium.rs:39-41 | the exit is lowered to `t_max` |
| Media.NonNegative | src/constant_medium.rs:45-47 | the entry is then raised to 0 |
| Media.RayLengthPositive | src/constant_medium.rs:49 | a non-zero direction has a positive length |
| Media.HitDistanceNonNegative | src/constant_medium.rs:51 | with a positive density and a draw in `(0, 1]`, the sampled distance is non-negative |
| Media.StepWithin | src/constant_medium.rs:49-58 | a distance no larger than the distance inside, walked from the entry, stays between entry and exit |
| Media.Hit | src/constant_medium.rs:32-64 | `None` if either crossing is missing or the clamped interval is empty or inverted; otherwise a hit iff `hit_distance <= distance_inside_boundary`; a hit has `t = rec1.t + hit_distance/length`, the `u, v` of `rec1`, `p = r.at(t)`, normal `±(1,0,0)` and the phase-function material; for a positive density and a draw in `(0,1]`, `t` lies in the clamped interval, hence in `[t_min, t_max]` |
| Media.MediumBox | src/constant_medium.rs:66-68 | the box is exactly the boundary's box |
| Media.IsotropicScatter | src/constant_medium.rs:83-88 | `Isotropic::scatter` always scatters, with the texture's value at `(u, v, p)`, from `p`, at the incoming ray's time |
| Media.IsotropicScatterColor | src/constant_medium.rs:83-88 | the attenuation is one of the texture's solid colours |
| Materials.MetalDirection | src/material.rs:63-65 | the fuzzed reflection; specified by `Materials.MetalScatter` |
| Materials.DielectricDirection | src/material.rs:72-89 | reflect or refract; specified by `Materials.DielectricTotalInternalReflection` and `Materials.DielectricRefracts` |
| Materials.Reflectance | src/material.rs:98-103 | Schlick's approximation; specified by `Materials.ReflectanceBounds` and `Materials.ReflectanceHeadOn` |
| Materials.AvoidDegenerate | src/material.rs:37-39 | the direction is the candidate or the normal, and it is near zero only when it is the normal and the normal is near zero |
| Materials.RefractionRatiosReciprocal | src/material.rs:75 | the front-face ratio `1/ir` and the back-face ratio `ir` are reciprocal, and both are 1 for `ir = 1` |
| Materials.CosTheta | src/material.rs:78 | `cos_theta` is at most 1 |
| Materials.Scatter | src/material.rs:31-95 | only Metal can absorb; every scattered ray starts at `rec.p`; the diffuse variants return the albedo and the candidate direction, replaced by the normal when near zero; Metal scatters iff the fuzzed reflection has a positive dot product with the normal; Dielectric returns `(1,1,1)` with its reflect-or-refract direction |
| Materials.DiffuseScatterNonDegenerate | src/material.rs:33-62 | with a normal that is not near zero, a diffuse scatter direction is not near zero |
| Materials.HemisphericalScatterAbove | src/material.rs:53-62 | the hemispherical scatter direction lies on the normal's side |
| Materials.MetalScatter | src/material.rs:63-72 | a metal scatter goes away from the surface; a mirror (fuzz 0) with a unit normal always scatters an incoming ray |
| Materials.DielectricTotalInternalReflection | src/material.rs:81-86 | when `ratio · sin_theta > 1` the dielectric reflects, whatever the draw |
| Materials.DielectricRefracts | src/material.rs:81-89 | when refraction is possible and the draw is at least the reflectance, the dielectric refracts |
| Materials.R0 | src/material.rs:100-101 | `r0` is non-negative |
| Materials.Pow5Unit | src/material.rs:102 | `x⁵` maps `[0, 1]` into `[0, 1]` |
| Materials.R0Unit | src/material.rs:100-101 | for a non-negative index, `r0 <= 1` |
| Materials.ReflectanceBounds | src/material.rs:98-103 | for a cosine in `[0, 1]` the reflectance lies in `[r0, 1]`; it is `r0` at cosine 1 and 1 at cosine 0 |
| Materials.ReflectanceHeadOn | src/material.rs:98-103 | `reflectance(1, ir) = ((1 - ir)/(1 + ir))²` |
| Textures.Value | src/texture.rs:22-53 | `Texture::value` of both kinds; specified by `Textures.ValueAmongColors`, `Textures.SolidValue` and `Textures.CheckerValue` |
| Textures.FromRgb | src/texture.rs:15-19 | `from_rgb(r, g, b)` stores the colour `(r, g, b)` |
| Textures.FromColors | src/texture.rs:36-43 | `from_colors(s, a, b)` stores the scale with solid `a` as odd and solid `b` as even |
| Textures.ValueAmongColors | src/texture.rs:22-53 | a texture's value is always one of its solid colours |
| Textures.FromColorsValue | src/texture.rs:36-53 | a checker from `from_colors(s, a, b)` yields `a` where the sine product is negative and `b` elsewhere |
| Textures.SolidValue | src/texture.rs:22-26 | a solid texture returns its colour for any `u`, `v`, `p` |
| Textures.CheckerValue | src/texture.rs:46-53 | a checker delegates to `odd` when the sine product is negative and to `even` otherwise |
| Noise.Swap | src/perlin.rs:43 | `swap(i, j)` exchanges the two positions and changes nothing else |
| Noise.SwapPermutes | src/perlin.rs:43 | a swap keeps the multiset |
| Noise.Shuffle | src/perlin.rs:40-45 | the downward Fisher–Yates pass; specified by `Noise.ShufflePermutes` and `Noise.ShuffleKeepsTail` |
| Noise.ShufflePermutes | src/perlin.rs:40-45 | the Fisher–Yates pass keeps the length and the multiset |
| Noise.ShuffleKeepsTail | src/perlin.rs:40-45 | positions at or beyond `point_count` are untouched |
| Noise.Permute | src/perlin.rs:40-45 | in place, the array ends as the shuffle of its old contents (step `i` swaps `i` with a target in `[0, i]`, from `point_count - 1` down to 0), a permutation of them |
| Noise.Range | src/perlin.rs:32-35 | the pushes produce `0, 1, ..., n-1` |
| Noise.RangeCounts | src/perlin.rs:32-35 | `0..n` holds each of its values once and nothing else |
| Noise.PermutationTableMeaning | src/perlin.rs:31-38 | a permutation table has entries in `[0, 256)`, each value once |
| Noise.GeneratePerm | src/perlin.rs:31-38 | `perlin_generate_perm` is the shuffle of `0..255` and a permutation of it |
| Noise.NewPerlin | src/perlin.rs:17-29 | `new` stores 256 random points and three permutation tables of `0..255` |
| Noise.FloorI32 | src/perlin.rs:69-71 | `floor() as i32` saturates to the `i32` range and is the floor inside it |
| Noise.LatticeIndex | src/perlin.rs:77-79 | `(i + d) & 255` lies in `[0, 256)`, also for negative `i` |
| Noise.Xor3InRange | src/perlin.rs:81-82 | `x ^ y ^ z` of three table values in `[0, 256)` lies in `[0, 256)` |
| Noise.CornerIndex | src/perlin.rs:77-82 | the corner's index into `ran_float` is in bounds |
| Noise.SmoothBounds | src/perlin.rs:65-67 | `u·u·(3 - 2u)` maps `[0, 1]` into `[0, 1]`, with 0 to 0 and 1 to 1 |
| Noise.CellOffset | src/perlin.rs:60-62 | `x - floor(x)` lies in `[0, 1)` |
| Noise.NoiseLattice | src/perlin.rs:59-85 | the smoothed offsets `u`, `v`, `w` lie in `[0, 1]`, and each of the 2×2×2 corners holds the `ran_float` entry its indices select |
| Noise.Corners | src/perlin.rs:72-85 | the three nested loops fill every corner `c[di][dj][dk]` with `ran_float[perm_x[..] ^ perm_y[..] ^ perm_z[..]]` |
| Noise.Iterations | src/perlin.rs:51 | `0..depth` runs no iteration for `depth <= 0` and `depth` iterations otherwise |
| Noise.SampleTurbulence | src/perlin.rs:47-57 | the loop's result is the absolute value of the weighted octave sum (weight `0.5^k` at point `p·2^k`), is non-negative, and is 0 for `depth <= 0` |
| Noise.ScaleTwice | src/perlin.rs:54 | doubling `temp_p = p·s` gives `p·(2s)`, so after `k` iterations the point is `p·2^k` |
| Noise.Octaves | src/perlin.rs:50-55 | the octave sum of turbulence; specified by `Noise.OctavesBound` and `Noise.SampleTurbulence` |
| Noise.OctavesBound | src/perlin.rs:47-57 | with noise in `[-1, 1]`, `n` octaves are bounded by `2 - 2·0.5^n`, hence below 2 |
| Colors.Clamp | src/color.rs:16-18 | `clamp` lands in `[lo, hi]` and keeps values already inside |
| Colors.TruncateBounds | src/color.rs:16-18 | the cast `as u8` of a value in range is its integer part |
| Colors.TruncateMonotone | src/color.rs:16-18 | the cast is monotone |
| Colors.Channel | src/color.rs:16-18 | each channel lies in `[0, 255]`; a value `<= 0` gives 0 and a value `>= 0.999` gives 255 |
| Colors.ChannelMonotone | src/color.rs:16-18 | a larger value never gives a smaller byte |
| Colors.ChannelBucket | src/color.rs:16-18 | the byte is the bucket of width `1/256` of the clamped value |
| Colors.InfiniteScaleChannel | src/color.rs:10-18 | with 0 samples the scale is `1/0 = +inf`: a positive channel saturates to 255, and zero (NaN) or a negative channel gives 0 |
| Colors.ScaledMean | src/color.rs:10-13 | scaling by `1/n` is the mean and keeps a non-positive sum non-positive |
| Colors.ScaledMonotone | src/color.rs:10-13 | scaling by a non-negative factor keeps the order |
| Colors.ColorAsRgb8 | src/color.rs:5-20 | `color_as_rgb8`; specified by `Colors.ColorAsRgb8Channels`, `Colors.ColorAsRgb8Monotone`, `Colors.ColorAsRgb8Saturates` and `Colors.InfiniteScaleChannel` |
| Colors.ColorAsRgb8Channels | src/color.rs:5-20 | for `n > 0` samples each channel is the quantised mean, and black where the sum is `<= 0` |
| Colors.ColorAsRgb8Monotone | src/color.rs:5-20 | for a fixed sample count, a larger sum on an axis never gives a smaller byte on that axis |
| Colors.ColorAsRgb8Saturates | src/color.rs:5-20 | a mean of at least 0.999 saturates the channel to 255 |
| Render.RayColor | src/main.rs:241-269 | `ray_color` in every mode; specified by the `Render.RayColor...` lemmas below |
| Render.RayColorOutOfDepth | src/main.rs:242-246 | in material mode with `depth <= 0` the colour is black, whatever the world |
| Render.RayColorMiss | src/main.rs:264-268 | on a miss the colour is `lerp(0.5·(unit.y + 1), white, sky)`, i.e. `(1 - 0.5t, 1 - 0.3t, 1)` |
| Render.RayColorDebugModes | src/main.rs:249-252 | on a hit, BlockColor returns its colour, ShadeNormal `0.5·(normal + (1,1,1))` and Depth `(1,1,1) - (t/max_t)·(1,1,1)` |
| Render.RayColorMaterial | src/main.rs:253-259 | in material mode an absorbed ray gives black and a scattered one `attenuation · ray_color(depth - 1)` |
| Render.RayColorBoundedDepth | src/main.rs:241-269 | the colour depends on the scatter only at depths `depth, ..., 1`, so the recursion is bounded by the initial depth |
| Render.RayColorInUnitCube | src/main.rs:241-269 | with attenuations and sky colours in `[0, 1]³`, the material-mode colour stays in `[0, 1]³` |
| Render.SkyInUnitCube | src/main.rs:264-268 | the sky gradient lies in `[0, 1]³` |
| Render.ImagePixelCount | src/main.rs:180-182 | `width · height`; specified by `Render.PixelCountIsRows` |
| Render.PixelCountIsRows | src/main.rs:180-182 | the rows emitted hold `width · rows` pixels, which is `image_pixel_count` for all `image_height` rows |
| Render.RenderRow | src/main.rs:489-520 | no line is emitted if the abort flag is set before or after the loop; otherwise the line holds exactly `image_width` pixels, pixel `i` being the quantised sum of its samples |
| Render.BlackSum | src/main.rs:496-504 | black samples sum to black |
| Render.BlackSamplesBlackPixel | src/main.rs:494-507 | a pixel whose samples are all black is quantised to `(0, 0, 0)` |

## Left out

- Floating point: everything except the slab test uses exact reals, so rounding, overflow to infinity and NaN propagation are not modelled there.
- `INFINITY` (the far bound of `ray_color`) and `f64::MAX` (the constant medium's probes) are a finite parameter and the exact value of `f64::MAX`.
- Division by zero outside the slab test becomes a precondition: a non-zero ray direction (spheres and the medium's ray length) and radius (spheres), `time0 != time1` (moving sphere and the interpolated centre), `ir` not 0 or -1 (dielectric), `dir.z != 0`, `x0 != x1` and `y0 != y1` (rectangle), `density != 0` (medium), `max_t != 0` (depth mode), and `s != 0` (`Vectors.Div` and `Vectors.DivAssign`). The source would produce infinities or NaN there.
- Rects.RectHit: where `dir.z == 0`, `x0 == x1` or `y0 == y1` it answers `None`. The source instead divides by zero there and can return a record whose `t`, `u` or `v` is NaN or infinite, e.g. `t = 0/0` for a ray lying in the plane.
- Bvh.CachedBoxesSound: proved only for rays whose leaf hits lie beyond `tMin` and strictly inside the leaves' boxes (`HitsInsideBoxes`). Rectangles are shown to meet it when the ray avoids their edges (`Rects.RectHitsInsideBoxes`); for spheres it is not proved.
- Bvh.BuiltTreeHitIsScan: the equality with the list scan is proved only under `HitsInsideBoxes`. Outside it the source's traversal can differ from the scan. A hit on a box face can be pruned by the slab test (`Rects.BvhPrunesEdgeHit` gives one). A negative-radius sphere inverts its box. A left hit exactly at `t_min` gives the right child the empty interval `[t_min, t_min]`, whose box test always fails, while the scan still probes the right objects at that `t`.
- Spheres.SurfaceInRadiusBox: the box lemmas assume `radius >= 0`; a negative radius gives an inverted box in the source.
- Sqrt, sine, logarithm, `to_unit` and `refract` are parameters with the facts stated; their numerical values are not modelled.
- Randomness (`random_double`, `random_int`, `Vec3::random`, the uniform draws of the medium and the dielectric) comes in as parameters. `random_int` is imported from `util` by `src/perlin.rs` and `src/bvh_node.rs` but is not defined in this snapshot of `src/util.rs`; that its result lies in `[0, i]` is the `TargetsInRange` precondition of the shuffle.
- Media.HitDistanceNonNegative: needs the draw in `(0, 1]`; `random_double(0.0, 1.0)` can return 0, whose logarithm is `-inf`, and then `hit_distance` is `+inf` for a positive density, so the source returns `None`; only a negative density gives a record, at `t = -inf`.
- Vectors.RandomInUnitSphere: takes a finite sequence of draws and returns `None` when every draw is outside the unit ball; the source keeps drawing until one lands inside.
- Noise.LatticeIndex: proves that the index lies in `[0, 256)`, not that it equals `(i + d) mod 256`. The sum `i + d` wraps silently to 32 bits; for `i = i32::MAX` (reachable because `floor() as i32` saturates) the source's `i + di` overflows, which panics in a debug build and wraps in a release build.
- Perlin `trilinear_interpolate` and the gradient arithmetic are not modelled (floating point only); turbulence takes the noise value as a function parameter.
- `RotateY::new` and `RotateY::hit` (the sine/cosine rotation and the corner sweep) are not modelled; only the cached box is.
- Camera, scenes, the user interface, `src/util.rs`, `src/box3d.rs`, argument parsing, threads, channels and the atomic abort switch are not part of this model. The row loop takes the two abort checks as inputs and the camera ray plus `ray_color` of each sample as a function parameter.
- `image_pixel_count` is computed over unbounded naturals; `usize` overflow is not modelled.
- `sort_by` is modelled as a stable insertion sort on the boxes' minimum corners; `partial_cmp(...).unwrap()` panicking on NaN keys is not modelled.
- `MulAssign`, `DivAssign` and `IndexMut` are modelled as functions returning the updated vector rather than mutation through `&mut self`.
- The sample count is `u32` in the render configuration and `i32` in `color_as_rgb8`; the model uses a natural in the configuration and an integer in quantisation, so the `u32`-to-`i32` conversion of counts above `2^31 - 1` is not modelled.
- No gamma correction is applied, because `color_as_rgb8` applies none.
- The sphere's `(u, v)` are a parameter of its hit, because this snapshot of `HitRecord::new` takes the pair while `src/sphere.rs` omits it; `Ray::new`'s third argument in `src/material.rs` is likewise a parameter `rayTime`.
- `Material` is an enum in `src/material.rs` but a trait elsewhere. The model keeps the enum for `Scatter`, makes `HitRecord` generic in its material, gives `Isotropic` its own type, and in `ray_color` takes the scatter as a function of the remaining depth, the ray and the record.
