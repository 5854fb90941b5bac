/**
 * The bounding box of BB.hpp. The source stores a 4x4 affine transform; the
 * only entries `from_aabb` ever writes are the translation column (the box
 * center) and the three diagonal entries of the linear part (the box
 * extents, possibly negative when min > max). Every other linear entry keeps
 * the identity's zero, so a box is fully described by a center and a
 * diagonal, and the length of a linear column is the absolute value of its
 * diagonal entry. Coordinates are exact reals.
 */
module BoundingBox {

  datatype Vec3 = Vec3(x: real, y: real, z: real)

  const Origin := Vec3(0.0, 0.0, 0.0)

  function Add(a: Vec3, b: Vec3): Vec3 { Vec3(a.x + b.x, a.y + b.y, a.z + b.z) }

  function Sub(a: Vec3, b: Vec3): Vec3 { Vec3(a.x - b.x, a.y - b.y, a.z - b.z) }

  function Half(a: Vec3): Vec3 { Vec3(a.x / 2.0, a.y / 2.0, a.z / 2.0) }

  function Abs(r: real): (a: real)
    ensures a >= 0.0 && (a == r || a == -r)
  {
    if r < 0.0 then -r else r
  }

  function MinR(a: real, b: real): real { if a <= b then a else b }

  function MaxR(a: real, b: real): real { if a >= b then a else b }

  /** Componentwise minimum and maximum (glm::min, glm::max). */
  function MinV(a: Vec3, b: Vec3): Vec3 { Vec3(MinR(a.x, b.x), MinR(a.y, b.y), MinR(a.z, b.z)) }

  function MaxV(a: Vec3, b: Vec3): Vec3 { Vec3(MaxR(a.x, b.x), MaxR(a.y, b.y), MaxR(a.z, b.z)) }

  /** a <= b on every axis. */
  predicate Le(a: Vec3, b: Vec3) { a.x <= b.x && a.y <= b.y && a.z <= b.z }

  /** p lies in the closed axis-aligned region [lo, hi]. */
  predicate Within(p: Vec3, lo: Vec3, hi: Vec3) { Le(lo, p) && Le(p, hi) }

  datatype Box = Box(center: Vec3, diag: Vec3)

  /** BB::from_aabb: translation = midpoint, diagonal = max - min. */
  function FromAabb(lo: Vec3, hi: Vec3): Box {
    Box(Half(Add(lo, hi)), Sub(hi, lo))
  }

  /** BB::center: the translation column. */
  function Center(b: Box): Vec3 { b.center }

  /** BB::size: the lengths of the three linear columns. */
  function Size(b: Box): (s: Vec3)
    ensures Le(Origin, s)
    ensures s.x == b.diag.x || s.x == -b.diag.x
    ensures s.y == b.diag.y || s.y == -b.diag.y
    ensures s.z == b.diag.z || s.z == -b.diag.z
  {
    Vec3(Abs(b.diag.x), Abs(b.diag.y), Abs(b.diag.z))
  }

  /** BB::min: center - size / 2. */
  function Min(b: Box): Vec3 { Sub(b.center, Half(Size(b))) }

  /** BB::max: center + size / 2. */
  function Max(b: Box): Vec3 { Add(b.center, Half(Size(b))) }

  /** A box never has min above max, whatever the sign of its diagonal. */
  lemma MinBelowMax(b: Box)
    ensures Le(Min(b), Max(b))
    ensures Max(b) == Add(Min(b), Size(b))
  {
  }

  /** BB::corners, in the source's order of sign patterns. */
  function Corners(b: Box): (r: seq<Vec3>)
    ensures |r| == 8
    ensures r[0] == Min(b) && r[6] == Max(b)
    ensures forall k :: 0 <= k < 8 ==> Within(r[k], Min(b), Max(b))
  {
    var h := Half(Size(b));
    var c := b.center;
    [ Vec3(c.x - h.x, c.y - h.y, c.z - h.z),
      Vec3(c.x + h.x, c.y - h.y, c.z - h.z),
      Vec3(c.x + h.x, c.y + h.y, c.z - h.z),
      Vec3(c.x - h.x, c.y + h.y, c.z - h.z),
      Vec3(c.x - h.x, c.y - h.y, c.z + h.z),
      Vec3(c.x + h.x, c.y - h.y, c.z + h.z),
      Vec3(c.x + h.x, c.y + h.y, c.z + h.z),
      Vec3(c.x - h.x, c.y + h.y, c.z + h.z) ]
  }

  /** from_aabb(lo, hi).center() is the midpoint of lo and hi. */
  lemma FromAabbCenter(lo: Vec3, hi: Vec3)
    ensures Center(FromAabb(lo, hi)) == Vec3((lo.x + hi.x) / 2.0, (lo.y + hi.y) / 2.0, (lo.z + hi.z) / 2.0)
  {
  }

  /** from_aabb(lo, hi).size() is |hi - lo| on each axis. */
  lemma FromAabbSize(lo: Vec3, hi: Vec3)
    ensures Size(FromAabb(lo, hi)) == Vec3(Abs(hi.x - lo.x), Abs(hi.y - lo.y), Abs(hi.z - lo.z))
  {
  }

  /**
   * min() and max() of from_aabb(lo, hi) are the componentwise minimum and
   * maximum of lo and hi; so when lo <= hi they give lo and hi back.
   */
  lemma FromAabbBounds(lo: Vec3, hi: Vec3)
    ensures Min(FromAabb(lo, hi)) == MinV(lo, hi)
    ensures Max(FromAabb(lo, hi)) == MaxV(lo, hi)
    ensures Le(lo, hi) ==> Min(FromAabb(lo, hi)) == lo && Max(FromAabb(lo, hi)) == hi
  {
  }

  /** The eight corners of a box with positive extents are pairwise distinct. */
  lemma CornersDistinct(b: Box)
    requires b.diag.x != 0.0 && b.diag.y != 0.0 && b.diag.z != 0.0
    ensures forall i, j :: 0 <= i < j < 8 ==> Corners(b)[i] != Corners(b)[j]
  {
  }
}
