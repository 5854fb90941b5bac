/**
 * The octree's node record and its geometry: the cubic bounding box of the
 * input, the 3-bit octant code of a position, the box of each octant child
 * and the distribution of a node's raw splat indices over its eight octants.
 * Coordinates are exact reals.
 */
module OctreeNodes {
  import opened Common
  import opened BoundingBox
  import opened Splats

  /**
   * Octree::Node. `children` holds arena slots (the shared pointers of the
   * source); `indices` are positions in the generated splat vector and
   * `indicesRaw` positions in the raw input.
   */
  datatype ONode = ONode(depth: nat, bb: Box, indices: seq<nat>, indicesRaw: seq<nat>, children: seq<nat>)

  /** Node::is_leaf: no children. */
  predicate IsLeaf(n: ONode) { n.children == [] }

  /** The defaults of Octree::max_depth and Octree::max_splats_per_node. */
  const DefaultMaxDepth: nat := 10
  const DefaultMaxSplatsPerNode: nat := 1

  // ---------------------------------------------------------------- get_bb

  /** The running minimum of get_bb: starts at the origin, then one splat at a time. */
  function LowCorner(raw: seq<SplatSplit>): (lo: Vec3)
    ensures Le(lo, Origin)
    ensures forall i :: 0 <= i < |raw| ==> Le(lo, raw[i].position)
  {
    if raw == [] then Origin
    else MinV(LowCorner(raw[..|raw| - 1]), raw[|raw| - 1].position)
  }

  /** The running maximum of get_bb: starts at the origin, then one splat at a time. */
  function HighCorner(raw: seq<SplatSplit>): (hi: Vec3)
    ensures Le(Origin, hi)
    ensures forall i :: 0 <= i < |raw| ==> Le(raw[i].position, hi)
  {
    if raw == [] then Origin
    else MaxV(HighCorner(raw[..|raw| - 1]), raw[|raw| - 1].position)
  }

  /** The largest of three extents (std::max over an initializer list). */
  function Largest(a: real, b: real, c: real): (r: real)
    ensures r >= a && r >= b && r >= c
    ensures r == a || r == b || r == c
  {
    MaxR(MaxR(a, b), c)
  }

  /** The cube centred on the midpoint of [lo, hi] whose side is the largest extent. */
  function CubeAround(lo: Vec3, hi: Vec3): Box
  {
    var center := Half(Add(hi, lo));
    var side := Largest(hi.x - lo.x, hi.y - lo.y, hi.z - lo.z);
    var h := Vec3(side / 2.0, side / 2.0, side / 2.0);
    FromAabb(Sub(center, h), Add(center, h))
  }

  /**
   * The box get_bb returns contains every position and the origin (its
   * shape, a cube around the corners, is CubeCovers).
   */
  lemma CubeContains(raw: seq<SplatSplit>)
    ensures var b := CubeAround(LowCorner(raw), HighCorner(raw));
      Within(Origin, Min(b), Max(b)) &&
      forall i :: 0 <= i < |raw| ==> Within(raw[i].position, Min(b), Max(b))
  {
    var lo := LowCorner(raw);
    var hi := HighCorner(raw);
    WidenWithin(Origin, lo, hi, lo, hi);
    CubeCovers(lo, hi);
    var mn, mx := Min(CubeAround(lo, hi)), Max(CubeAround(lo, hi));
    WidenWithin(Origin, lo, hi, mn, mx);
    forall i | 0 <= i < |raw| ensures Within(raw[i].position, mn, mx) {
      WidenWithin(raw[i].position, lo, hi, mn, mx);
    }
  }

  /** A point within [lo, hi] is within every box [mn, mx] around [lo, hi]. */
  lemma WidenWithin(p: Vec3, lo: Vec3, hi: Vec3, mn: Vec3, mx: Vec3)
    requires Within(p, lo, hi) && Le(mn, lo) && Le(hi, mx)
    ensures Within(p, mn, mx) && Le(lo, hi)
  {
  }

  /** The cube around [lo, hi] has the largest extent as its side and covers [lo, hi]. */
  lemma CubeCovers(lo: Vec3, hi: Vec3)
    requires Le(lo, hi)
    ensures var side := Largest(hi.x - lo.x, hi.y - lo.y, hi.z - lo.z);
      Size(CubeAround(lo, hi)) == Vec3(side, side, side) &&
      Le(Min(CubeAround(lo, hi)), lo) && Le(hi, Max(CubeAround(lo, hi)))
  {
    var side := Largest(hi.x - lo.x, hi.y - lo.y, hi.z - lo.z);
    var center := Half(Add(hi, lo));
    var h := Vec3(side / 2.0, side / 2.0, side / 2.0);
    var mn := Sub(center, h);
    var mx := Add(center, h);
    CubeAxis(lo.x, hi.x, side);
    CubeAxis(lo.y, hi.y, side);
    CubeAxis(lo.z, hi.z, side);
    FromAabbBounds(mn, mx);
  }

  /** One axis of the cube: the interval of width `side` about the midpoint covers [lo, hi]. */
  lemma CubeAxis(lo: real, hi: real, side: real)
    requires lo <= hi && side >= hi - lo
    ensures (hi + lo) / 2.0 - side / 2.0 <= lo && hi <= (hi + lo) / 2.0 + side / 2.0
    ensures ((hi + lo) / 2.0 + side / 2.0) - ((hi + lo) / 2.0 - side / 2.0) == side
  {
  }

  // ---------------------------------------------------------------- octants

  /**
   * The octant code of a position relative to a center: bit 0 set when x is
   * above the center, bit 1 for y, bit 2 for z. The source ORs the bits in;
   * as they are distinct that is their sum (OctantIsBitwiseOr).
   */
  function Octant(p: Vec3, c: Vec3): (code: nat)
    ensures code < 8
  {
    (if p.x > c.x then 1 else 0) + (if p.y > c.y then 2 else 0) + (if p.z > c.z then 4 else 0)
  }

  /** `i & bit` for a child number and a single-bit mask 1, 2 or 4. */
  predicate HasBit(i: nat, bit: nat)
    requires bit > 0
  {
    (i / bit) % 2 == 1
  }

  /** The sum of the octant code is the `index |= 1; index |= 2; index |= 4` of the source. */
  lemma OctantIsBitwiseOr(p: Vec3, c: Vec3)
    ensures Octant(p, c) as bv8 ==
      (if p.x > c.x then 1 else 0) | (if p.y > c.y then 2 else 0) | (if p.z > c.z then 4 else 0)
  {
  }

  /** HasBit is the source's `i & bit` on child numbers below 8. */
  lemma HasBitIsBitwiseAnd(i: nat, bit: nat)
    requires i < 8 && (bit == 1 || bit == 2 || bit == 4)
    ensures HasBit(i, bit) <==> (i as bv8) & (bit as bv8) != 0
  {
  }

  /** Each bit of the octant code records one comparison with the center. */
  lemma OctantBits(p: Vec3, c: Vec3)
    ensures HasBit(Octant(p, c), 1) <==> p.x > c.x
    ensures HasBit(Octant(p, c), 2) <==> p.y > c.y
    ensures HasBit(Octant(p, c), 4) <==> p.z > c.z
  {
  }

  /**
   * The box of child i: the parent's [min, max] with, on each axis, the
   * lower or upper half kept according to bit i of the code.
   */
  function ChildBox(parent: Box, c: Vec3, i: nat): Box
    requires i < 8
  {
    var lo := Min(parent);
    var hi := Max(parent);
    FromAabb(
      Vec3(if HasBit(i, 1) then c.x else lo.x,
           if HasBit(i, 2) then c.y else lo.y,
           if HasBit(i, 4) then c.z else lo.z),
      Vec3(if HasBit(i, 1) then hi.x else c.x,
           if HasBit(i, 2) then hi.y else c.y,
           if HasBit(i, 4) then hi.z else c.z))
  }

  /** The eight child boxes of a parent box split at its center, in octant order. */
  function ChildBoxes(parent: Box): (r: seq<Box>)
    ensures |r| == 8 && forall i :: 0 <= i < 8 ==> r[i] == ChildBox(parent, Center(parent), i)
  {
    seq(8, i requires 0 <= i < 8 => ChildBox(parent, Center(parent), i))
  }

  /**
   * Split at the parent's center, a child box is the parent halved on each
   * axis, and a position of the parent box that has octant code i lies in
   * child i's box.
   */
  lemma ChildBoxHalves(parent: Box, p: Vec3)
    ensures forall i :: 0 <= i < 8 ==> Size(ChildBox(parent, Center(parent), i)) == Half(Size(parent))
    ensures Within(p, Min(parent), Max(parent)) ==>
      var i := Octant(p, Center(parent));
      Within(p, Min(ChildBox(parent, Center(parent), i)), Max(ChildBox(parent, Center(parent), i)))
  {
    forall i | 0 <= i < 8 ensures Size(ChildBox(parent, Center(parent), i)) == Half(Size(parent)) {
      ChildBoxShape(parent, i);
    }
    var c := Center(parent);
    var i := Octant(p, c);
    OctantBits(p, c);
    ChildBoxShape(parent, i);
    var h := Half(Size(parent));
    HalfAxis(c.x, h.x, p.x > c.x, p.x);
    HalfAxis(c.y, h.y, p.y > c.y, p.y);
    HalfAxis(c.z, h.z, p.z > c.z, p.z);
  }

  /**
   * The corners of child i's box: on each axis the upper half [c, c + h] or
   * the lower half [c - h, c] of the parent, by the bit of i for that axis.
   */
  lemma ChildBoxShape(parent: Box, i: nat)
    requires i < 8
    ensures var c := Center(parent);
      var h := Half(Size(parent));
      var b := ChildBox(parent, c, i);
      Size(b) == h &&
      Min(b) == Vec3(if HasBit(i, 1) then c.x else c.x - h.x, if HasBit(i, 2) then c.y else c.y - h.y,
                     if HasBit(i, 4) then c.z else c.z - h.z) &&
      Max(b) == Vec3(if HasBit(i, 1) then c.x + h.x else c.x, if HasBit(i, 2) then c.y + h.y else c.y,
                     if HasBit(i, 4) then c.z + h.z else c.z)
  {
    var c := Center(parent);
    var h := Half(Size(parent));
    var ux, uy, uz := HasBit(i, 1), HasBit(i, 2), HasBit(i, 4);
    HalfAxis(c.x, h.x, ux, c.x);
    HalfAxis(c.y, h.y, uy, c.y);
    HalfAxis(c.z, h.z, uz, c.z);
  }

  /**
   * One axis of a split: the half of [c - h, c + h] on the side `upper`
   * selects has width h, and holds p when p lies in the parent interval on
   * that side of c.
   */
  lemma HalfAxis(c: real, h: real, upper: bool, p: real)
    requires h >= 0.0
    ensures var a := if upper then c else c - h;
      var b := if upper then c + h else c;
      Abs(b - a) == h && (a + b) / 2.0 - Abs(b - a) / 2.0 == a && (a + b) / 2.0 + Abs(b - a) / 2.0 == b &&
      (c - h <= p <= c + h && (p > c <==> upper) ==> a <= p <= b)
  {
  }

  // ---------------------------------------------------------------- distribution

  /** Every raw index of `idxs` names an input splat. */
  predicate IndicesIn(idxs: seq<nat>, n: nat) {
    forall k :: 0 <= k < |idxs| ==> idxs[k] < n
  }

  /** The octant of the raw splat `idx` relative to center c. */
  function OctantOf(raw: seq<SplatSplit>, idx: nat, c: Vec3): (code: nat)
    requires idx < |raw|
    ensures code < 8
  {
    Octant(raw[idx].position, c)
  }

  /** The raw indices of `idxs` whose splat falls in octant i, in their original order. */
  function Bucket(raw: seq<SplatSplit>, idxs: seq<nat>, c: Vec3, i: nat): (b: seq<nat>)
    requires IndicesIn(idxs, |raw|)
    ensures |b| <= |idxs|
    ensures forall k :: 0 <= k < |b| ==> b[k] in idxs && b[k] < |raw| && OctantOf(raw, b[k], c) == i
  {
    if idxs == [] then []
    else
      var last := idxs[|idxs| - 1];
      Bucket(raw, idxs[..|idxs| - 1], c, i) + (if OctantOf(raw, last, c) == i then [last] else [])
  }

  /** The eight buckets of a split, child 0 first. */
  function Buckets(raw: seq<SplatSplit>, idxs: seq<nat>, c: Vec3): (bs: seq<seq<nat>>)
    requires IndicesIn(idxs, |raw|)
    ensures |bs| == 8 && forall i :: 0 <= i < 8 ==> bs[i] == Bucket(raw, idxs, c, i)
  {
    seq(8, i requires 0 <= i => Bucket(raw, idxs, c, i))
  }

  /** All indices held by the first n buckets, with multiplicity. */
  function BagUpTo(bs: seq<seq<nat>>, n: nat): multiset<nat>
    requires n <= |bs|
  {
    if n == 0 then multiset{} else BagUpTo(bs, n - 1) + multiset(bs[n - 1])
  }

  /** Empty buckets hold nothing. */
  lemma {:induction false} BagUpToEmpty(bs: seq<seq<nat>>, n: nat)
    requires n <= |bs| && forall i :: 0 <= i < |bs| ==> bs[i] == []
    ensures BagUpTo(bs, n) == multiset{}
  {
    if n > 0 {
      BagUpToEmpty(bs, n - 1);
    }
  }

  /** Appending x to bucket o adds x once to every prefix bag that includes bucket o. */
  lemma {:induction false} BagUpToUpdate(bs: seq<seq<nat>>, o: nat, x: nat, n: nat)
    requires o < |bs| && n <= |bs|
    ensures BagUpTo(bs[o := bs[o] + [x]], n) == BagUpTo(bs, n) + (if o < n then multiset{x} else multiset{})
  {
    if n > 0 {
      BagUpToUpdate(bs, o, x, n - 1);
      var bs2 := bs[o := bs[o] + [x]];
      if n - 1 == o {
        assert multiset(bs2[n - 1]) == multiset(bs[n - 1]) + multiset{x};
      } else {
        assert bs2[n - 1] == bs[n - 1];
      }
    }
  }

  /** Distributing one more index appends it to the bucket of its octant only. */
  lemma BucketsSnoc(raw: seq<SplatSplit>, idxs: seq<nat>, c: Vec3)
    requires IndicesIn(idxs, |raw|) && idxs != []
    ensures var init := idxs[..|idxs| - 1];
      var last := idxs[|idxs| - 1];
      var o := OctantOf(raw, last, c);
      Buckets(raw, idxs, c) == Buckets(raw, init, c)[o := Bucket(raw, init, c, o) + [last]]
  {
    var init := idxs[..|idxs| - 1];
    var last := idxs[|idxs| - 1];
    var o := OctantOf(raw, last, c);
    forall i | 0 <= i < 8
      ensures Bucket(raw, idxs, c, i) == if i == o then Bucket(raw, init, c, i) + [last] else Bucket(raw, init, c, i)
    {
    }
  }

  /**
   * The eight buckets partition the parent's indices: every index lands in
   * exactly the bucket of its octant, as often as it occurs in the parent.
   */
  lemma {:induction false} BucketsPartition(raw: seq<SplatSplit>, idxs: seq<nat>, c: Vec3)
    requires IndicesIn(idxs, |raw|)
    ensures BagUpTo(Buckets(raw, idxs, c), 8) == multiset(idxs)
  {
    var bs := Buckets(raw, idxs, c);
    if idxs == [] {
      BagUpToEmpty(bs, 8);
    } else {
      var init := idxs[..|idxs| - 1];
      var last := idxs[|idxs| - 1];
      BucketsPartition(raw, init, c);
      var o := OctantOf(raw, last, c);
      var before := Buckets(raw, init, c);
      BucketsSnoc(raw, idxs, c);
      assert bs == before[o := before[o] + [last]];
      BagUpToUpdate(before, o, last, 8);
      SnocParts(idxs);
    }
  }
}
