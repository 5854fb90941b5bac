/**
 * The splat records of Splat.h and the splat numerics the hierarchy builders
 * call. The numerics (weight, pairwise merge, divergence, n-ary merge,
 * decomposed-to-splat conversion, bounds of a splat set) are defined in files
 * that are not part of this model, so they are carried as a record of
 * function values: every builder takes one and treats its members as
 * uninterpreted.
 */
module Splats {
  import opened BoundingBox

  /** A 3x3 matrix by columns. */
  datatype Mat3 = Mat3(c0: Vec3, c1: Vec3, c2: Vec3)

  /** RGBA colour; alpha is opacity. */
  datatype Rgba = Rgba(r: real, g: real, b: real, a: real)

  /**
   * The rendered splat: the linear part of its affine transform (the
   * covariance) plus the translation (the mean position), and a colour.
   */
  datatype Splat = Splat(covariance: Mat3, position: Vec3, color: Rgba)

  /** The decomposed form used while loading (position, scale, rotation, colour). */
  datatype SplatSplit = SplatSplit(position: Vec3, scale: Vec3, rotation: Rgba, color: Rgba)

  /** The splat numerics the core calls but that are defined elsewhere. */
  datatype SplatMath = SplatMath(
    weight: Splat -> real,                          // Splat::weight
    mergeSplats: (Splat, Splat, real, real) -> Splat, // merge_splats(a, b, w_a, w_b)
    divergence: (Splat, Splat) -> real,             // splat_divergence(a, b)
    mergeAll: seq<SplatSplit> -> Splat,             // merge(splats) of a node's raw splats
    splitToSplat: SplatSplit -> Splat,              // split_to_splat
    boundsOf: seq<Splat> -> Box                     // BB::from_splats
  )

  /**
   * The assumption the agglomerative build needs of the numerics: every splat
   * has a positive weight, so the normalising division in merge_nodes is
   * defined (the source would produce NaN for a zero total).
   */
  ghost predicate PositiveWeights(m: SplatMath) {
    forall s :: m.weight(s) > 0.0
  }
}
