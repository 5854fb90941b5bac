/**
 * The cell arithmetic of GridHC: the flattened cell index get_index computes
 * in 32-bit unsigned arithmetic, its range check, and the cell coordinates
 * build derives from a splat position in exact real arithmetic.
 */
module GridIndex {
  import opened Common
  import opened BoundingBox

  /** glm::uvec3 subdivisions: the number of cells along x, y and z. */
  datatype Dims = Dims(x: nat, y: nat, z: nat)

  /** The default grid: 20 cells along every axis. */
  const DefaultSubdivisions: Dims := Dims(20, 20, 20)

  const TwoTo32: nat := 0x1_0000_0000

  /** A uint32_t result: the value modulo 2^32. */
  function U32(v: nat): (r: nat)
    ensures r < TwoTo32
    ensures v < TwoTo32 ==> r == v
  {
    v % 0x1_0000_0000
  }

  /** The number of cells, sx * sy * sz, as exact integers. */
  function CellCount(d: Dims): nat {
    d.x * d.y * d.z
  }

  /** The cell index of (i, j, k) as exact integers: x-major, then y, then z. */
  function Flat(d: Dims, i: nat, j: nat, k: nat): nat {
    i * d.y * d.z + j * d.z + k
  }

  /** The expression of get_index evaluated as uint32_t, operation by operation. */
  function IndexU32(d: Dims, i: nat, j: nat, k: nat): nat {
    U32(U32(U32(U32(i * d.y) * d.z) + U32(j * d.z)) + k)
  }

  /** Why get_index throws. */
  datatype IndexError = OutOfRange

  /** GridHC::get_index: the computed index, or out_of_range when it is not below the number of cells. */
  function GetIndex(d: Dims, cellsSize: nat, i: nat, j: nat, k: nat): (r: Result<nat, IndexError>)
    ensures r.Ok? <==> IndexU32(d, i, j, k) < cellsSize
    ensures r.Ok? ==> r.value == IndexU32(d, i, j, k)
  {
    var index := IndexU32(d, i, j, k);
    if index >= cellsSize then Err(OutOfRange) else Ok(index)
  }

  /** The cell (i, j, k) lies inside the grid. */
  predicate InGrid(d: Dims, i: nat, j: nat, k: nat) {
    i < d.x && j < d.y && k < d.z
  }

  /** A position inside a row of y rows of z: j * z + k stays below y * z. */
  lemma RowBelow(j: nat, k: nat, y: nat, z: nat)
    requires j < y && k < z
    ensures j * z + k < y * z
  {
    MulMono(j + 1, y, z);
    MulSucc(j, z);
  }

  /** A position inside plane i of x planes of y * z: i * y * z + r stays below x * y * z. */
  lemma PlaneBelow(i: nat, r: nat, x: nat, y: nat, z: nat)
    requires i < x && r < y * z
    ensures i * y * z + r < x * y * z && i * y < x * y
  {
    MulMono(i + 1, x, y);
    MulSucc(i, y);
    MulMono(i * y + y, x * y, z);
    MulAdd(i * y, y, z);
  }

  /** Inside the grid the flat index is below the cell count. */
  lemma {:induction false} FlatBelow(d: Dims, i: nat, j: nat, k: nat)
    requires InGrid(d, i, j, k)
    ensures i * d.y * d.z <= Flat(d, i, j, k) < CellCount(d)
    ensures i * d.y < d.x * d.y && j * d.z < d.y * d.z
  {
    RowBelow(j, k, d.y, d.z);
    PlaneBelow(i, j * d.z + k, d.x, d.y, d.z);
  }

  /**
   * With fewer than 2^32 cells, no step of get_index wraps inside the grid:
   * it returns the flat index, which is in range for a cell vector of that
   * size.
   */
  lemma GetIndexInGrid(d: Dims, i: nat, j: nat, k: nat)
    requires InGrid(d, i, j, k) && CellCount(d) < TwoTo32
    ensures IndexU32(d, i, j, k) == Flat(d, i, j, k)
    ensures GetIndex(d, CellCount(d), i, j, k) == Ok(Flat(d, i, j, k))
  {
    GridBounds(d, i, j, k);
    var a := i * d.y;
    assert U32(a) == a;
    NoWrap(a * d.z, j * d.z, k);
  }

  /** Inside the grid every partial product of get_index is below the cell count. */
  lemma GridBounds(d: Dims, i: nat, j: nat, k: nat)
    requires InGrid(d, i, j, k)
    ensures i * d.y < CellCount(d) && j * d.z < CellCount(d)
    ensures i * d.y * d.z + j * d.z + k < CellCount(d)
  {
    FlatBelow(d, i, j, k);
    var a: nat := i * d.y;
    var b: nat := a * d.z;
    MulMono(1, d.z, a);
    assert a <= b;
    assert j * d.z <= Flat(d, i, j, k) == b + j * d.z + k;
  }

  /** Adding values whose sum is below 2^32 never wraps. */
  lemma NoWrap(b: nat, c: nat, k: nat)
    requires b + c + k < TwoTo32
    ensures U32(U32(U32(b) + U32(c)) + k) == b + c + k
  {
  }

  /** The cell coordinates of a flat index: the inverse of Flat on the grid. */
  function Unflat(d: Dims, index: nat): (r: (nat, nat, nat))
    requires d.y > 0 && d.z > 0
  {
    ((index / d.z) / d.y, (index / d.z) % d.y, index % d.z)
  }

  /** Euclidean division recovers quotient and remainder. */
  lemma {:induction false} DivModOf(a: nat, n: nat, b: nat)
    requires 0 <= b < n
    ensures (a * n + b) / n == a && (a * n + b) % n == b
  {
    var q, r := (a * n + b) / n, (a * n + b) % n;
    assert a * n + b == q * n + r;
    if q < a {
      MulMono(q + 1, a, n);
      MulSucc(q, n);
    } else if q > a {
      MulMono(a + 1, q, n);
      MulSucc(a, n);
    }
  }

  /** Unflat undoes Flat inside the grid: distinct cells get distinct indices. */
  lemma UnflatFlat(d: Dims, i: nat, j: nat, k: nat)
    requires InGrid(d, i, j, k)
    ensures Unflat(d, Flat(d, i, j, k)) == (i, j, k)
  {
    assert Flat(d, i, j, k) == (i * d.y + j) * d.z + k;
    DivModOf(i * d.y + j, d.z, k);
    DivModOf(i, d.y, j);
  }

  /** A quotient stays below m when the dividend is below m * n. */
  lemma {:induction false} DivBelow(a: nat, n: nat, m: nat)
    requires n > 0 && a < m * n
    ensures a / n < m
  {
    var q := a / n;
    assert a == q * n + a % n;
    if q >= m {
      MulMono(m, q, n);
    }
  }

  /** Flat undoes Unflat below the cell count: every slot of the cell vector is some cell's index. */
  lemma FlatUnflat(d: Dims, index: nat)
    requires index < CellCount(d)
    ensures d.y > 0 && d.z > 0
    ensures var (i, j, k) := Unflat(d, index); InGrid(d, i, j, k) && Flat(d, i, j, k) == index
  {
    if d.y == 0 || d.z == 0 {
      assert false;
    }
    var xy := d.x * d.y;
    assert CellCount(d) == xy * d.z;
    var t := index / d.z;
    DivBelow(index, d.z, xy);
    DivBelow(t, d.y, d.x);
    var (i, j, k) := Unflat(d, index);
    assert index == t * d.z + k;
    assert t == i * d.y + j;
    assert Flat(d, i, j, k) == (i * d.y + j) * d.z + k;
  }

  /** Distinct cells of the grid have distinct indices. */
  lemma FlatInjective(d: Dims, i: nat, j: nat, k: nat, i2: nat, j2: nat, k2: nat)
    requires InGrid(d, i, j, k) && InGrid(d, i2, j2, k2)
    requires Flat(d, i, j, k) == Flat(d, i2, j2, k2)
    ensures i == i2 && j == j2 && k == k2
  {
    UnflatFlat(d, i, j, k);
    UnflatFlat(d, i2, j2, k2);
  }

  // ---------------------------------------------------------------- cell coordinates

  /** The cell edge along one axis: 1.1 times the extent over the subdivisions (none for an empty axis). */
  function CellEdge(extent: real, n: nat): real {
    if n == 0 then 0.0 else 1.1 * extent / (n as real)
  }

  /** The grid origin along one axis: the box minimum moved down by a tenth of the padding. */
  function GridMin(lo: real, edge: real): real {
    lo - edge * (0.1 / 1.1)
  }

  /**
   * The cell coordinate of a position along one axis: (p - min) / cell_size
   * cast to uint32, which truncates toward zero, so a quotient in (-1, 0)
   * gives 0. None where that cast is undefined in C++: a quotient of -1 or
   * less, or a cell edge that is not positive (a flat box makes it 0).
   */
  function Coord(p: real, origin: real, edge: real): (r: Option<nat>)
    ensures r.Some? <==> edge > 0.0 && (p - origin) / edge > -1.0
    ensures r.Some? && (p - origin) / edge >= 0.0 ==>
      (r.value as real) <= (p - origin) / edge < (r.value as real) + 1.0
    ensures r.Some? && (p - origin) / edge < 0.0 ==> r.value == 0
  {
    if edge <= 0.0 || (p - origin) / edge <= -1.0 then None
    else if (p - origin) / edge < 0.0 then Some(0)
    else Some(((p - origin) / edge).Floor as nat)
  }

  /**
   * The padding keeps every position of the box inside the grid: with a
   * positive extent and at least two subdivisions, a position between the
   * box minimum and maximum falls in a cell coordinate below n.
   */
  lemma {:induction false} PaddingInRange(p: real, lo: real, extent: real, n: nat)
    requires extent > 0.0 && n >= 2 && lo <= p <= lo + extent
    ensures var edge := CellEdge(extent, n);
      Coord(p, GridMin(lo, edge), edge).Some? && Coord(p, GridMin(lo, edge), edge).value < n
  {
    var nr := n as real;
    var edge := CellEdge(extent, n);
    var origin := GridMin(lo, edge);
    assert edge == 1.1 * extent / nr;
    assert edge > 0.0;
    assert edge * (0.1 / 1.1) == 0.1 * extent / nr;
    var v := (p - origin) / edge;
    assert p - origin == (p - lo) + 0.1 * extent / nr;
    assert v * edge == p - origin;
    assert v >= 0.0;
    // (p - origin) <= extent + extent / (10 n) < 1.1 * extent == n * edge
    assert p - origin <= extent + 0.1 * extent / nr;
    assert 0.1 * extent / nr < 0.1 * extent by {
      assert nr >= 2.0;
      assert 0.1 * extent / nr * nr == 0.1 * extent;
    }
    assert nr * edge == 1.1 * extent;
    assert v * edge < nr * edge;
    assert v < nr;
  }
}
