/**
 * The integer topology of Cloth.h: the distance-constraint pairs the
 * constructor lays over a width x height particle grid, and the triangle
 * index buffer `initializeIndexBuffer` generates. Particle positions, masses,
 * rest lengths and the simulation step are floating-point and not modelled;
 * a constraint is the pair of particles it joins.
 */
module ClothTopology {
  import opened Common

  /**
   * What a constraint endpoint points at: a grid particle by its index in
   * `particles`, one of the two anchor particles, or nothing (the null
   * pointer a freshly resized vector holds).
   */
  datatype ParticleRef = Unset | Grid(index: nat) | Anchor1 | Anchor2

  datatype Constraint = Constraint(p1: ParticleRef, p2: ParticleRef)

  function Link(a: nat, b: nat): Constraint { Constraint(Grid(a), Grid(b)) }

  /** Row i of the horizontal constraints: (i*w + j, i*w + j + 1) for j < w - 1. */
  function HorizontalRow(w: nat, i: nat): (r: seq<Constraint>)
    requires w >= 1
    ensures |r| == w - 1
  {
    seq(w - 1, j requires 0 <= j < w - 1 => Link(i * w + j, i * w + j + 1))
  }

  /** Row i of the vertical constraints: (i*w + j, (i+1)*w + j) for j < w. */
  function VerticalRow(w: nat, i: nat): (r: seq<Constraint>)
    ensures |r| == w
  {
    seq(w, j requires 0 <= j < w => Link(i * w + j, (i + 1) * w + j))
  }

  function Horizontal(w: nat, rows: nat): seq<Constraint>
    requires w >= 1
  {
    if rows == 0 then [] else Horizontal(w, rows - 1) + HorizontalRow(w, rows - 1)
  }

  function Vertical(w: nat, rows: nat): seq<Constraint> {
    if rows == 0 then [] else Vertical(w, rows - 1) + VerticalRow(w, rows - 1)
  }

  /** All grid constraints in the order the constructor's two loop nests write them. */
  function GridLinks(w: nat, h: nat): seq<Constraint>
    requires w >= 1 && h >= 1
  {
    Horizontal(w, h) + Vertical(w, h - 1)
  }

  lemma {:induction false} HorizontalLength(w: nat, rows: nat)
    requires w >= 1
    ensures |Horizontal(w, rows)| == rows * (w - 1)
  {
    if rows > 0 {
      HorizontalLength(w, rows - 1);
      assert (rows - 1) * (w - 1) + (w - 1) == rows * (w - 1);
    }
  }

  lemma {:induction false} VerticalLength(w: nat, rows: nat)
    ensures |Vertical(w, rows)| == rows * w
  {
    if rows > 0 {
      VerticalLength(w, rows - 1);
      assert (rows - 1) * w + w == rows * w;
    }
  }

  /** A shorter run of rows is a prefix of a longer one. */
  lemma {:induction false} HorizontalPrefix(w: nat, i: nat, rows: nat)
    requires w >= 1 && i <= rows
    ensures |Horizontal(w, i)| <= |Horizontal(w, rows)|
    decreases rows - i
  {
    if i < rows {
      HorizontalPrefix(w, i, rows - 1);
    }
  }

  lemma {:induction false} VerticalPrefix(w: nat, i: nat, rows: nat)
    requires i <= rows
    ensures |Vertical(w, i)| <= |Vertical(w, rows)|
    decreases rows - i
  {
    if i < rows {
      VerticalPrefix(w, i, rows - 1);
    }
  }

  /** Writing the slot just past the written prefix extends the prefix by one. */
  lemma WriteSlot(cs: seq<Constraint>, index: nat, written: seq<Constraint>, c: Constraint)
    requires index < |cs| && cs[..index] == written
    ensures cs[index := c][..index + 1] == written + [c]
  {
    assert cs[index := c][..index + 1] == cs[..index] + [c];
  }

  lemma HorizontalStep(w: nat, i: nat, j: nat)
    requires w >= 1 && j < w - 1
    ensures HorizontalRow(w, i)[..j + 1] == HorizontalRow(w, i)[..j] + [Link(i * w + j, i * w + j + 1)]
  {
  }

  lemma VerticalStep(w: nat, i: nat, j: nat)
    requires j < w
    ensures VerticalRow(w, i)[..j + 1] == VerticalRow(w, i)[..j] + [Link(i * w + j, (i + 1) * w + j)]
  {
  }

  /**
   * The constructor's fill of the resized constraint vector through the
   * running `index` counter: every slot is written exactly once, so no
   * constraint is left with null endpoints, and the result is the horizontal
   * constraints row by row followed by the vertical ones.
   */
  method FillGridConstraints(width: nat, height: nat) returns (constraints: seq<Constraint>)
    requires width >= 1 && height >= 1
    ensures |constraints| == (width - 1) * height + (height - 1) * width
    ensures constraints == GridLinks(width, height)
    ensures forall k :: 0 <= k < |constraints| ==> constraints[k].p1 != Unset && constraints[k].p2 != Unset
  {
    var total := (width - 1) * height + (height - 1) * width;
    assert total == |Horizontal(width, height)| + |Vertical(width, height - 1)| by {
      HorizontalLength(width, height);
      VerticalLength(width, height - 1);
    }
    constraints := seq(total, _ => Constraint(Unset, Unset));
    var index;
    constraints, index := FillHorizontal(constraints, width, height);
    constraints := FillVertical(constraints, index, width, height);
    forall k | 0 <= k < |constraints| ensures constraints[k].p1 != Unset && constraints[k].p2 != Unset {
      GridLinksAreLinks(width, height, k);
    }
  }

  /** The first loop nest: one constraint per pair of horizontal neighbours, from slot 0 on. */
  method FillHorizontal(cs: seq<Constraint>, width: nat, height: nat) returns (constraints: seq<Constraint>, index: nat)
    requires width >= 1 && |Horizontal(width, height)| <= |cs|
    ensures |constraints| == |cs|
    ensures index == |Horizontal(width, height)|
    ensures constraints[..index] == Horizontal(width, height)
  {
    constraints := cs;
    index := 0;
    for i := 0 to height
      invariant |constraints| == |cs|
      invariant index == |Horizontal(width, i)| <= |cs|
      invariant constraints[..index] == Horizontal(width, i)
    {
      assert |Horizontal(width, i)| + (width - 1) <= |cs| by {
        HorizontalPrefix(width, i + 1, height);
      }
      for j := 0 to width - 1
        invariant |constraints| == |cs|
        invariant index == |Horizontal(width, i)| + j
        invariant constraints[..index] == Horizontal(width, i) + HorizontalRow(width, i)[..j]
      {
        var p1Index := i * width + j;
        var p2Index := i * width + j + 1;
        WriteSlot(constraints, index, Horizontal(width, i) + HorizontalRow(width, i)[..j], Link(p1Index, p2Index));
        HorizontalStep(width, i, j);
        constraints := constraints[index := Link(p1Index, p2Index)];
        index := index + 1;
      }
      assert HorizontalRow(width, i)[..width - 1] == HorizontalRow(width, i);
    }
  }

  /**
   * The second loop nest: one constraint per pair of vertical neighbours,
   * continuing from where the first nest left `index`, up to the last slot.
   */
  method FillVertical(cs: seq<Constraint>, start: nat, width: nat, height: nat) returns (constraints: seq<Constraint>)
    requires width >= 1 && height >= 1
    requires start == |Horizontal(width, height)|
    requires |cs| == start + |Vertical(width, height - 1)|
    requires cs[..start] == Horizontal(width, height)
    ensures constraints == GridLinks(width, height)
  {
    constraints := cs;
    var index := start;
    for i := 0 to height - 1
      invariant |constraints| == |cs|
      invariant index == start + |Vertical(width, i)| <= |cs|
      invariant constraints[..index] == Horizontal(width, height) + Vertical(width, i)
    {
      assert start + |Vertical(width, i)| + width <= |cs| by {
        VerticalPrefix(width, i + 1, height - 1);
      }
      for j := 0 to width
        invariant |constraints| == |cs|
        invariant index == start + |Vertical(width, i)| + j
        invariant constraints[..index] == Horizontal(width, height) + Vertical(width, i) + VerticalRow(width, i)[..j]
      {
        var p1Index := i * width + j;
        var p2Index := (i + 1) * width + j;
        WriteSlot(constraints, index, Horizontal(width, height) + Vertical(width, i) + VerticalRow(width, i)[..j], Link(p1Index, p2Index));
        VerticalStep(width, i, j);
        constraints := constraints[index := Link(p1Index, p2Index)];
        index := index + 1;
      }
      assert VerticalRow(width, i)[..width] == VerticalRow(width, i);
    }
    assert constraints[..index] == constraints;
  }

  lemma GridLinksAreLinks(w: nat, h: nat, k: nat)
    requires w >= 1 && h >= 1 && k < |GridLinks(w, h)|
    ensures GridLinks(w, h)[k].p1.Grid? && GridLinks(w, h)[k].p2.Grid?
  {
    HorizontalLinks(w, h);
    VerticalLinks(w, h - 1);
    var hs := Horizontal(w, h);
    if k >= |hs| {
      assert GridLinks(w, h)[k] == Vertical(w, h - 1)[k - |hs|];
    }
  }

  /** Horizontal constraints join a particle and its right neighbour in rows below `rows`. */
  lemma {:induction false} HorizontalLinks(w: nat, rows: nat)
    requires w >= 1
    ensures forall k :: 0 <= k < |Horizontal(w, rows)| ==>
      Horizontal(w, rows)[k].p1.Grid? && Horizontal(w, rows)[k].p2.Grid? &&
      Horizontal(w, rows)[k].p2.index == Horizontal(w, rows)[k].p1.index + 1 &&
      Horizontal(w, rows)[k].p2.index < rows * w
  {
    if rows > 0 {
      HorizontalLinks(w, rows - 1);
      var prev := Horizontal(w, rows - 1);
      var cur := Horizontal(w, rows);
      MulMono(rows - 1, rows, w);
      assert (rows - 1) * w + w == rows * w;
      forall k | 0 <= k < |cur|
        ensures cur[k].p1.Grid? && cur[k].p2.Grid?
        ensures cur[k].p2.index == cur[k].p1.index + 1 && cur[k].p2.index < rows * w
      {
        if k < |prev| {
          assert cur[k] == prev[k];
          assert prev[k].p1.Grid?;
        } else {
          var j := k - |prev|;
          assert cur[k] == HorizontalRow(w, rows - 1)[j];
          assert cur[k] == Link((rows - 1) * w + j, (rows - 1) * w + j + 1);
        }
      }
    }
  }

  /** Vertical constraints join a particle and the one below it, within `rows` + 1 rows. */
  lemma {:induction false} VerticalLinks(w: nat, rows: nat)
    ensures forall k :: 0 <= k < |Vertical(w, rows)| ==>
      Vertical(w, rows)[k].p1.Grid? && Vertical(w, rows)[k].p2.Grid? &&
      Vertical(w, rows)[k].p2.index == Vertical(w, rows)[k].p1.index + w &&
      Vertical(w, rows)[k].p2.index < (rows + 1) * w
  {
    if rows > 0 {
      VerticalLinks(w, rows - 1);
      var prev := Vertical(w, rows - 1);
      var cur := Vertical(w, rows);
      MulMono(rows, rows + 1, w);
      assert rows * w + w == (rows + 1) * w;
      forall k | 0 <= k < |cur|
        ensures cur[k].p1.Grid? && cur[k].p2.Grid?
        ensures cur[k].p2.index == cur[k].p1.index + w && cur[k].p2.index < (rows + 1) * w
      {
        if k < |prev| {
          assert cur[k] == prev[k];
          assert prev[k].p1.Grid?;
        } else {
          var j := k - |prev|;
          assert cur[k] == VerticalRow(w, rows - 1)[j];
          assert cur[k] == Link((rows - 1) * w + j, rows * w + j);
        }
      }
    }
  }

  /**
   * Every grid constraint joins two particles of the grid: horizontal ones a
   * particle and its right neighbour, vertical ones a particle and the one
   * below it, all below particleCount = width * height.
   */
  lemma GridLinksInGrid(w: nat, h: nat)
    requires w >= 1 && h >= 1
    ensures forall k :: 0 <= k < |GridLinks(w, h)| ==>
      var c := GridLinks(w, h)[k];
      c.p1.Grid? && c.p2.Grid? && c.p1.index < c.p2.index < w * h &&
      (c.p2.index == c.p1.index + 1 || c.p2.index == c.p1.index + w)
  {
    HorizontalLinks(w, h);
    VerticalLinks(w, h - 1);
    assert (h - 1 + 1) * w == w * h;
    assert h * w == w * h;
    var hs := Horizontal(w, h);
    forall k | 0 <= k < |GridLinks(w, h)|
      ensures GridLinks(w, h)[k].p1.Grid? && GridLinks(w, h)[k].p2.Grid?
      ensures GridLinks(w, h)[k].p1.index < GridLinks(w, h)[k].p2.index < w * h
      ensures GridLinks(w, h)[k].p2.index == GridLinks(w, h)[k].p1.index + 1 ||
              GridLinks(w, h)[k].p2.index == GridLinks(w, h)[k].p1.index + w
    {
      if k >= |hs| {
        assert GridLinks(w, h)[k] == Vertical(w, h - 1)[k - |hs|];
      } else {
        assert GridLinks(w, h)[k] == hs[k];
      }
    }
  }

  /**
   * The six indices of the grid cell whose upper-left particle is
   * top + j, where `top` is the first particle of its row and `below` the
   * first of the next row: two triangles sharing a diagonal.
   */
  function Quad(top: nat, below: nat, j: nat): seq<nat> {
    [top + j, top + j + 1, below + j,
     top + j + 1, below + j + 1, below + j]
  }

  /** The first `cols` cells of one row. */
  function QuadRow(top: nat, below: nat, cols: nat): seq<nat> {
    if cols == 0 then [] else QuadRow(top, below, cols - 1) + Quad(top, below, cols - 1)
  }

  /** The cells of the first `rows` rows of a grid `w` particles wide. */
  function Triangles(w: nat, rows: nat): seq<nat>
    requires w >= 1
  {
    if rows == 0 then [] else Triangles(w, rows - 1) + QuadRow((rows - 1) * w, rows * w, w - 1)
  }

  lemma {:induction false} QuadRowShape(top: nat, below: nat, cols: nat)
    requires top <= below
    ensures |QuadRow(top, below, cols)| == 6 * cols
    ensures forall t :: 0 <= t < |QuadRow(top, below, cols)| ==> QuadRow(top, below, cols)[t] <= below + cols
    ensures forall j, t :: 0 <= j < cols && 0 <= t < 6 ==> QuadRow(top, below, cols)[6 * j + t] == Quad(top, below, j)[t]
  {
    if cols > 0 {
      QuadRowShape(top, below, cols - 1);
      var prev := QuadRow(top, below, cols - 1);
      forall j, t | 0 <= j < cols && 0 <= t < 6
        ensures QuadRow(top, below, cols)[6 * j + t] == Quad(top, below, j)[t]
      {
        if j < cols - 1 {
          assert 6 * j + t < |prev|;
        }
      }
    }
  }

  /** The first `rows` rows of cells hold six indices per cell. */
  lemma {:induction false} TrianglesLength(w: nat, rows: nat)
    requires w >= 1
    ensures |Triangles(w, rows)| == 6 * (rows * (w - 1))
  {
    if rows > 0 {
      var k := rows - 1;
      TrianglesLength(w, k);
      MulMono(k, rows, w);
      QuadRowShape(k * w, rows * w, w - 1);
      assert |Triangles(w, rows)| == 6 * (k * (w - 1)) + 6 * (w - 1);
      MulSucc(k, w - 1);
    }
  }

  /** Every index of the first `rows` rows of cells names a particle of the first rows + 1 rows. */
  lemma {:induction false} TrianglesBound(w: nat, rows: nat)
    requires w >= 1
    ensures forall t :: 0 <= t < |Triangles(w, rows)| ==> Triangles(w, rows)[t] < (rows + 1) * w
  {
    if rows > 0 {
      TrianglesBound(w, rows - 1);
      var prev := Triangles(w, rows - 1);
      var row := QuadRow((rows - 1) * w, rows * w, w - 1);
      MulMono(rows - 1, rows, w);
      QuadRowShape((rows - 1) * w, rows * w, w - 1);
      assert rows * w + w == (rows + 1) * w;
      assert Triangles(w, rows) == prev + row;
      forall t | 0 <= t < |prev + row| ensures (prev + row)[t] < (rows + 1) * w {
        if t < |prev| {
          assert (prev + row)[t] == prev[t];
        } else {
          assert (prev + row)[t] == row[t - |prev|];
        }
      }
    }
  }

  /**
   * Row i of the grid occupies the 6 * (w - 1) slots that follow the rows
   * above it, cell (i, j) the six slots from 6 * j on within that row.
   */
  lemma {:induction false} TrianglesRow(w: nat, rows: nat, i: nat)
    requires w >= 1 && i < rows
    ensures |Triangles(w, i + 1)| <= |Triangles(w, rows)|
    ensures Triangles(w, rows)[|Triangles(w, i)|..|Triangles(w, i + 1)|] == QuadRow(i * w, (i + 1) * w, w - 1)
    decreases rows - i
  {
    if i < rows - 1 {
      TrianglesRow(w, rows - 1, i);
    }
  }

  /** The loop nest of initializeIndexBuffer: cells row by row, six indices each. */
  method GridTriangles(width: nat, height: nat) returns (indexData: seq<nat>)
    requires width >= 1 && height >= 1
    ensures indexData == Triangles(width, height - 1)
  {
    indexData := [];
    for i := 0 to height - 1
      invariant indexData == Triangles(width, i)
    {
      // i * width and (i + 1) * width: the first particle of this row and of the next
      var top := i * width;
      var below := (i + 1) * width;
      for j := 0 to width - 1
        invariant indexData == Triangles(width, i) + QuadRow(top, below, j)
      {
        // the two triangles of the cell, pushed in this order
        indexData := indexData + [top + j, top + j + 1, below + j, top + j + 1, below + j + 1, below + j];
      }
    }
  }

  class Cloth {
    var width: nat
    var height: nat
    var particleCount: nat
    var indexCount: nat
    var constraints: seq<Constraint>

    ghost predicate Valid()
      reads this
    {
      width >= 1 && height >= 1 &&
      particleCount == width * height &&
      indexCount == (width - 1) * (height - 1) * 6
    }

    /**
     * Cloth(params): sets the counts, fills the resized constraint vector
     * and appends the two anchor constraints for particles 0 and width - 1.
     */
    constructor (width: nat, height: nat)
      requires width >= 1 && height >= 1
      ensures Valid()
      ensures this.width == width && this.height == height
      ensures constraints == GridLinks(width, height) + [Constraint(Grid(0), Anchor1), Constraint(Grid(width - 1), Anchor2)]
    {
      this.width := width;
      this.height := height;
      indexCount := (width - 1) * (height - 1) * 6;
      particleCount := width * height;
      var grid := FillGridConstraints(width, height);
      constraints := grid;
      constraints := constraints + [Constraint(Grid(0), Anchor1)];
      constraints := constraints + [Constraint(Grid(width - 1), Anchor2)];
    }

    /**
     * initializeIndexBuffer's index generation: two triangles per grid cell,
     * exactly indexCount indices, each naming a particle of the grid.
     */
    method InitializeIndexBuffer() returns (indexData: seq<nat>)
      requires Valid()
      ensures indexData == Triangles(width, height - 1)
      ensures |indexData| == indexCount
      ensures forall t :: 0 <= t < |indexData| ==> indexData[t] < particleCount
    {
      indexData := GridTriangles(width, height);
      assert |indexData| == indexCount && forall t :: 0 <= t < |indexData| ==> indexData[t] < particleCount by {
        TrianglesLength(width, height - 1);
        TrianglesBound(width, height - 1);
        assert 6 * ((height - 1) * (width - 1)) == (width - 1) * (height - 1) * 6;
        assert (height - 1 + 1) * width == width * height;
      }
    }
  }
}
