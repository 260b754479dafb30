/** The Perlin noise tables of src/perlin.rs: three permutation tables of
    `0..255` built by a Fisher–Yates shuffle, 256 random gradient vectors, the
    lattice lookup of `sample_noise` and the turbulence sum over octaves.

    The random draws are parameters: `targets[i]` is the value
    `random_int(0, i)` returns at step `i` of the shuffle, and `points` the
    256 vectors `Vec3::random(-1.0, 1.0)` returns. The noise value itself
    (gradient dot products and trilinear interpolation) is a parameter of the
    turbulence sum. */
module Noise {
  import opened Vectors

  /** `POINT_COUNT`. */
  const PointCount: nat := 256

  // ----- Permutation tables -----

  /** `Vec::swap(i, j)` on the table's contents. */
  function Swap(s: seq<int>, i: nat, j: nat): (t: seq<int>)
    requires i < |s| && j < |s|
    ensures |t| == |s| && t[i] == s[j] && t[j] == s[i]
    ensures forall k :: 0 <= k < |s| && k != i && k != j ==> t[k] == s[k]
  {
    s[i := s[j]][j := s[i]]
  }

  lemma SwapPermutes(s: seq<int>, i: nat, j: nat)
    requires i < |s| && j < |s|
    ensures multiset(Swap(s, i, j)) == multiset(s)
  {
  }

  /** Every shuffle target lies in `[0, i]`, as `random_int(0, i)` returns. */
  predicate TargetsInRange(targets: seq<nat>, n: nat) {
    n <= |targets| && forall i :: 0 <= i < n ==> targets[i] <= i
  }

  /** The Fisher–Yates shuffle over the first `n` positions: step `i` runs
      from `n - 1` down to 0 and swaps position `i` with `targets[i]`. */
  function Shuffle(s: seq<int>, targets: seq<nat>, n: nat): seq<int>
    requires n <= |s| && TargetsInRange(targets, n)
    decreases n
  {
    if n == 0 then s else Shuffle(Swap(s, n - 1, targets[n - 1]), targets, n - 1)
  }

  /** Shuffling keeps the length and the multiset of entries. */
  lemma {:induction false} ShufflePermutes(s: seq<int>, targets: seq<nat>, n: nat)
    requires n <= |s| && TargetsInRange(targets, n)
    ensures |Shuffle(s, targets, n)| == |s|
    ensures multiset(Shuffle(s, targets, n)) == multiset(s)
    decreases n
  {
    if n > 0 {
      SwapPermutes(s, n - 1, targets[n - 1]);
      ShufflePermutes(Swap(s, n - 1, targets[n - 1]), targets, n - 1);
    }
  }

  /** The shuffle only moves entries among the first `n` positions. */
  lemma {:induction false} ShuffleKeepsTail(s: seq<int>, targets: seq<nat>, n: nat, k: nat)
    requires n <= k < |s| && TargetsInRange(targets, n)
    ensures |Shuffle(s, targets, n)| == |s| && Shuffle(s, targets, n)[k] == s[k]
    decreases n
  {
    ShufflePermutes(s, targets, n);
    if n > 0 {
      ShuffleKeepsTail(Swap(s, n - 1, targets[n - 1]), targets, n - 1, k);
    }
  }

  /** `Perlin::permute`: the shuffle, in place. */
  method Permute(p: array<int>, pointCount: nat, targets: seq<nat>)
    requires pointCount <= p.Length && TargetsInRange(targets, pointCount)
    modifies p
    ensures p[..] == Shuffle(old(p[..]), targets, pointCount)
    ensures multiset(p[..]) == multiset(old(p[..]))
  {
    ghost var original := p[..];
    var i := pointCount;
    while i > 0
      invariant 0 <= i <= pointCount
      invariant Shuffle(p[..], targets, i) == Shuffle(original, targets, pointCount)
    {
      i := i - 1;
      var target := targets[i];
      ghost var before := p[..];
      p[i], p[target] := p[target], p[i];
      assert p[..] == Swap(before, i, target);
    }
    ShufflePermutes(original, targets, pointCount);
  }

  /** `0, 1, ..., n - 1`. */
  function Range(n: nat): (r: seq<int>)
    ensures |r| == n && forall i :: 0 <= i < n ==> r[i] == i
  {
    seq(n, i => i)
  }

  /** Each of `0..n-1` occurs once in `Range(n)`, and nothing else occurs. */
  lemma {:induction false} RangeCounts(n: nat, v: int)
    ensures multiset(Range(n))[v] == if 0 <= v < n then 1 else 0
  {
    if n > 0 {
      RangeCounts(n - 1, v);
      assert Range(n) == Range(n - 1) + [n - 1];
      assert multiset(Range(n)) == multiset(Range(n - 1)) + multiset{n - 1};
    }
  }

  /** A permutation of `0..255`. */
  ghost predicate IsPermutationTable(s: seq<int>) {
    |s| == PointCount && forall v :: multiset(s)[v] == if 0 <= v < PointCount then 1 else 0
  }

  /** A permutation table holds each of `0..255` exactly once and nothing
      outside that range. */
  lemma PermutationTableMeaning(s: seq<int>)
    requires IsPermutationTable(s)
    ensures forall i :: 0 <= i < |s| ==> 0 <= s[i] < PointCount
    ensures forall v :: 0 <= v < PointCount ==> multiset(s)[v] == 1
  {
    forall i | 0 <= i < |s|
      ensures 0 <= s[i] < PointCount
    {
      assert s[i] in multiset(s);
    }
  }

  /** `Perlin::perlin_generate_perm`: `0..255` pushed in order, then
      shuffled. */
  method GeneratePerm(targets: seq<nat>) returns (perm: seq<int>)
    requires TargetsInRange(targets, PointCount)
    ensures perm == Shuffle(Range(PointCount), targets, PointCount)
    ensures IsPermutationTable(perm)
  {
    var p := new int[PointCount];
    for i := 0 to PointCount
      invariant p[..i] == Range(i)
    {
      p[i] := i;
      assert p[..i + 1] == p[..i] + [p[i]];
    }
    assert p[..] == p[..PointCount];
    Permute(p, PointCount, targets);
    perm := p[..];
    ShufflePermutes(Range(PointCount), targets, PointCount);
    forall v
      ensures multiset(perm)[v] == if 0 <= v < PointCount then 1 else 0
    {
      RangeCounts(PointCount, v);
    }
  }

  /** `Perlin`: the gradient table and the three permutation tables. */
  datatype Perlin = Perlin(ranFloat: seq<Vec3>, permX: seq<int>, permY: seq<int>, permZ: seq<int>)

  /** What `Perlin::new` establishes and `sample_noise` relies on. */
  ghost predicate Valid(perlin: Perlin) {
    |perlin.ranFloat| == PointCount &&
    IsPermutationTable(perlin.permX) && IsPermutationTable(perlin.permY) && IsPermutationTable(perlin.permZ)
  }

  /** `Perlin::new`: the 256 gradient draws pushed in order and three
      independently shuffled tables. */
  method NewPerlin(points: seq<Vec3>, targetsX: seq<nat>, targetsY: seq<nat>, targetsZ: seq<nat>)
    returns (perlin: Perlin)
    requires |points| == PointCount
    requires TargetsInRange(targetsX, PointCount) && TargetsInRange(targetsY, PointCount)
    requires TargetsInRange(targetsZ, PointCount)
    ensures Valid(perlin)
    ensures perlin.ranFloat == points
    ensures perlin.permX == Shuffle(Range(PointCount), targetsX, PointCount)
    ensures perlin.permY == Shuffle(Range(PointCount), targetsY, PointCount)
    ensures perlin.permZ == Shuffle(Range(PointCount), targetsZ, PointCount)
  {
    var ranFloat: seq<Vec3> := [];
    for i := 0 to PointCount
      invariant ranFloat == points[..i]
    {
      ranFloat := ranFloat + [points[i]];
    }
    var permX := GeneratePerm(targetsX);
    var permY := GeneratePerm(targetsY);
    var permZ := GeneratePerm(targetsZ);
    perlin := Perlin(ranFloat, permX, permY, permZ);
  }

  // ----- Lattice lookup in sample_noise -----

  /** The 32 bits of an `i32` value, two's complement. */
  function Bits(x: int): bv32 {
    (x % 0x1_0000_0000) as bv32
  }

  /** The `i32` an unsigned 32-bit pattern stands for. */
  function Signed(b: bv32): int {
    if b as int < 0x8000_0000 then b as int else b as int - 0x1_0000_0000
  }

  /** `f64::floor(x) as i32`: Rust's cast saturates at the `i32` bounds. */
  function FloorI32(x: real): (i: int)
    ensures -0x8000_0000 <= i < 0x8000_0000
    ensures -0x8000_0000 <= x.Floor < 0x8000_0000 ==> i == x.Floor
  {
    if x.Floor < -0x8000_0000 then -0x8000_0000
    else if x.Floor >= 0x8000_0000 then 0x7fff_ffff
    else x.Floor
  }

  /** `((i + d) & 255) as usize`: the low eight bits of the two's complement
      value, in `[0, 255]` also for negative `i`. */
  function LatticeIndex(i: int, d: int): (k: int)
    ensures 0 <= k < PointCount
  {
    (Bits(i + d) & 0xFF) as int
  }

  /** `x ^ y ^ z` on `i32` values. */
  function Xor3(x: int, y: int, z: int): int {
    Signed(Bits(x) ^ Bits(y) ^ Bits(z))
  }

  lemma SmallXor(a: bv32, b: bv32, c: bv32)
    requires a < 256 && b < 256 && c < 256
    ensures a ^ b ^ c < 256
  {
  }

  lemma SmallBits(x: int)
    requires 0 <= x < 256
    ensures Bits(x) < 256
  {
    assert x % 0x1_0000_0000 == x;
  }

  /** Table entries in `[0, 255]` combine into an index in `[0, 255]`. */
  lemma Xor3InRange(x: int, y: int, z: int)
    requires 0 <= x < 256 && 0 <= y < 256 && 0 <= z < 256
    ensures 0 <= Xor3(x, y, z) < PointCount
  {
    SmallBits(x);
    SmallBits(y);
    SmallBits(z);
    SmallXor(Bits(x), Bits(y), Bits(z));
    SmallSigned(Bits(x) ^ Bits(y) ^ Bits(z));
  }

  lemma SmallSigned(b: bv32)
    requires b < 256
    ensures 0 <= Signed(b) < 256
  {
  }

  /** The gradient index of the lattice corner `(i + di, j + dj, k + dk)`. */
  function CornerIndex(perlin: Perlin, i: int, j: int, k: int, di: int, dj: int, dk: int): (idx: int)
    requires Valid(perlin)
    ensures 0 <= idx < |perlin.ranFloat|
  {
    PermutationTableMeaning(perlin.permX);
    PermutationTableMeaning(perlin.permY);
    PermutationTableMeaning(perlin.permZ);
    var x := perlin.permX[LatticeIndex(i, di)];
    var y := perlin.permY[LatticeIndex(j, dj)];
    var z := perlin.permZ[LatticeIndex(k, dk)];
    Xor3InRange(x, y, z);
    Xor3(x, y, z)
  }

  /** The gradient of corner `(di, dj, dk)`. */
  function CornerGradient(perlin: Perlin, i: int, j: int, k: int, di: int, dj: int, dk: int): Vec3
    requires Valid(perlin)
  {
    perlin.ranFloat[CornerIndex(perlin, i, j, k, di, dj, dk)]
  }

  /** The Hermite smoothing `u u (3 - 2u)`. */
  function Smooth(u: real): real {
    u * u * (3.0 - 2.0 * u)
  }

  /** Smoothing maps `[0, 1]` into itself and fixes both ends. */
  lemma SmoothBounds(u: real)
    ensures Smooth(0.0) == 0.0 && Smooth(1.0) == 1.0
    ensures 0.0 <= u <= 1.0 ==> 0.0 <= Smooth(u) <= 1.0
  {
    if 0.0 <= u <= 1.0 {
      MulNonNegative(u * u, 3.0 - 2.0 * u);
      assert 1.0 - Smooth(u) == (1.0 - u) * (1.0 - u) * (1.0 + 2.0 * u);
      MulNonNegative((1.0 - u) * (1.0 - u), 1.0 + 2.0 * u);
    }
  }

  /** `x - x.floor()`, the offset of `x` in its lattice cell. */
  function CellOffset(x: real): (f: real)
    ensures 0.0 <= f < 1.0
  {
    x - x.Floor as real
  }

  /** The index and smoothing part of `Perlin::sample_noise`: the smoothed
      offsets of `p` in its cell and the gradients of the cell's eight
      corners, `c[di][dj][dk]` for the corner `(di, dj, dk)`. */
  method NoiseLattice(perlin: Perlin, p: Vec3) returns (u: real, v: real, w: real, c: seq<seq<seq<Vec3>>>)
    requires Valid(perlin)
    ensures 0.0 <= u <= 1.0 && 0.0 <= v <= 1.0 && 0.0 <= w <= 1.0
    ensures u == Smooth(CellOffset(p.x)) && v == Smooth(CellOffset(p.y)) && w == Smooth(CellOffset(p.z))
    ensures |c| == 2 && forall di :: 0 <= di < 2 ==>
              CornerPlane(perlin, FloorI32(p.x), FloorI32(p.y), FloorI32(p.z), di, c[di])
  {
    u := CellOffset(p.x);
    v := CellOffset(p.y);
    w := CellOffset(p.z);
    SmoothBounds(u);
    SmoothBounds(v);
    SmoothBounds(w);
    u := Smooth(u);
    v := Smooth(v);
    w := Smooth(w);

    c := Corners(perlin, FloorI32(p.x), FloorI32(p.y), FloorI32(p.z));
  }

  /** `c[di][dj][dk]` holds the gradient of corner `(di, dj, dk)` of the cell
      at `(i, j, k)`. */
  ghost predicate CornerLine(perlin: Perlin, i: int, j: int, k: int, di: int, dj: int, line: seq<Vec3>)
    requires Valid(perlin)
  {
    |line| == 2 && forall dk :: 0 <= dk < 2 ==> line[dk] == CornerGradient(perlin, i, j, k, di, dj, dk)
  }

  ghost predicate CornerPlane(perlin: Perlin, i: int, j: int, k: int, di: int, plane: seq<seq<Vec3>>)
    requires Valid(perlin)
  {
    |plane| == 2 && forall dj :: 0 <= dj < 2 ==> CornerLine(perlin, i, j, k, di, dj, plane[dj])
  }

  /** The three nested loops of `sample_noise` that gather the eight corner
      gradients of the cell at `(i, j, k)` into `c[di][dj][dk]`. */
  method Corners(perlin: Perlin, i: int, j: int, k: int) returns (c: seq<seq<seq<Vec3>>>)
    requires Valid(perlin)
    ensures |c| == 2 && forall di :: 0 <= di < 2 ==> CornerPlane(perlin, i, j, k, di, c[di])
  {
    c := [];
    for di := 0 to 2
      invariant |c| == di && forall a :: 0 <= a < di ==> CornerPlane(perlin, i, j, k, a, c[a])
    {
      var plane: seq<seq<Vec3>> := [];
      for dj := 0 to 2
        invariant |plane| == dj && forall b :: 0 <= b < dj ==> CornerLine(perlin, i, j, k, di, b, plane[b])
      {
        var line: seq<Vec3> := [];
        for dk := 0 to 2
          invariant |line| == dk && forall e :: 0 <= e < dk ==> line[e] == CornerGradient(perlin, i, j, k, di, dj, e)
        {
          line := line + [CornerGradient(perlin, i, j, k, di, dj, dk)];
        }
        plane := plane + [line];
      }
      c := c + [plane];
    }
  }

  // ----- Turbulence -----

  /** `b^n`. */
  function Pow(b: real, n: nat): real {
    if n == 0 then 1.0 else b * Pow(b, n - 1)
  }

  /** The first `n` octaves: `sum over k < n of 0.5^k noise(p 2^k)`. */
  function Octaves(noise: Vec3 -> real, p: Vec3, n: nat): real {
    if n == 0 then 0.0 else Octaves(noise, p, n - 1) + Pow(0.5, n - 1) * noise(Scale(p, Pow(2.0, n - 1)))
  }

  /** `for _ in 0..depth` runs `depth` times, and never for `depth <= 0`. */
  function Iterations(depth: int): (n: nat)
    ensures depth <= 0 ==> n == 0
    ensures depth > 0 ==> n == depth
  {
    if depth <= 0 then 0 else depth
  }

  /** `Perlin::sample_turbulence`: after `k` rounds the weight is `0.5^k` and
      the sample point `p 2^k`; the result is the absolute value of the sum,
      never negative and 0 when `depth <= 0`. `noise` is `sample_noise`. */
  method SampleTurbulence(noise: Vec3 -> real, p: Vec3, depth: int) returns (t: real)
    ensures t == Abs(Octaves(noise, p, Iterations(depth)))
    ensures t >= 0.0
    ensures depth <= 0 ==> t == 0.0
  {
    var accum := 0.0;
    var tempP := p;
    var weight := 1.0;
    for n := 0 to Iterations(depth)
      invariant accum == Octaves(noise, p, n)
      invariant weight == Pow(0.5, n)
      invariant tempP == Scale(p, Pow(2.0, n))
    {
      accum := accum + weight * noise(tempP);
      weight := weight * 0.5;
      ScaleTwice(p, Pow(2.0, n));
      tempP := MulAssign(tempP, 2.0);
    }
    t := Abs(accum);
  }

  lemma ScaleTwice(p: Vec3, s: real)
    ensures MulAssign(Scale(p, s), 2.0) == Scale(p, 2.0 * s)
  {
  }

  /** With noise in `[-1, 1]`, `n` octaves stay within `2 - 2 * 0.5^n` of 0,
      so the turbulence is below 2 at any depth. */
  lemma {:induction false} OctavesBound(noise: Vec3 -> real, p: Vec3, n: nat)
    requires forall q :: -1.0 <= noise(q) <= 1.0
    ensures Abs(Octaves(noise, p, n)) <= 2.0 - 2.0 * Pow(0.5, n)
    ensures Abs(Octaves(noise, p, n)) < 2.0
  {
    HalfPowerPositive(n);
    if n > 0 {
      OctavesBound(noise, p, n - 1);
      var w := Pow(0.5, n - 1);
      HalfPowerPositive(n - 1);
      var x := noise(Scale(p, Pow(2.0, n - 1)));
      assert Pow(0.5, n) == 0.5 * w;
      var a := Octaves(noise, p, n - 1);
      var y := w * x;
      assert Octaves(noise, p, n) == a + y;
      WeightedWithin(w, x, y);
      SumWithin(a, w, y, Octaves(noise, p, n), Pow(0.5, n));
    }
  }

  lemma {:induction false} HalfPowerPositive(n: nat)
    ensures 0.0 < Pow(0.5, n) <= 1.0
  {
    if n > 0 {
      HalfPowerPositive(n - 1);
    }
  }

  lemma SumWithin(a: real, w: real, y: real, total: real, half: real)
    requires Abs(a) <= 2.0 - 2.0 * w && -w <= y <= w && total == a + y && half == 0.5 * w
    ensures Abs(total) <= 2.0 - 2.0 * half
  {
  }

  lemma WeightedWithin(w: real, x: real, y: real)
    requires w > 0.0 && -1.0 <= x <= 1.0 && y == w * x
    ensures -w <= y <= w
  {
    MulNonNegative(w, 1.0 - x);
    MulNonNegative(w, 1.0 + x);
  }
}
