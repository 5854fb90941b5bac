/**
 * GridHC: a uniform grid of cells over the splat bounding box, one
 * agglomerative hierarchy per non-empty cell, the per-cell splat arrays
 * concatenated in cell order and the per-cell query results re-based onto
 * that concatenation by a running uint32_t offset.
 */
module GridHCModel {
  import opened Common
  import opened BoundingBox
  import opened Splats
  import opened HCNodes
  import opened HCTree
  import opened GridIndex

  // ---------------------------------------------------------------- splat assignment

  /** The padded grid of a build: its lower corner and the cell edge along each axis. */
  datatype Frame = Frame(origin: Vec3, edge: Vec3)

  /** cell_size = 1.1 * size / subdivisions and min = bb.min() - cell_size * (0.1 / 1.1). */
  function GridFrame(bb: Box, d: Dims): Frame {
    var size := Size(bb);
    var lo := Min(bb);
    var edge := Vec3(CellEdge(size.x, d.x), CellEdge(size.y, d.y), CellEdge(size.z, d.z));
    Frame(Vec3(GridMin(lo.x, edge.x), GridMin(lo.y, edge.y), GridMin(lo.z, edge.z)), edge)
  }

  /**
   * The cell a splat is pushed into: the index of its truncated coordinates
   * when all three are inside the grid; None for a splat that is reported
   * out of bounds and skipped.
   */
  function CellOf(d: Dims, f: Frame, s: Splat): (r: Option<nat>)
    ensures r.Some? ==> r.value < CellCount(d)
    ensures r.Some? <==>
      var i, j, k := Coord(s.position.x, f.origin.x, f.edge.x), Coord(s.position.y, f.origin.y, f.edge.y),
        Coord(s.position.z, f.origin.z, f.edge.z);
      i.Some? && j.Some? && k.Some? && InGrid(d, i.value, j.value, k.value)
  {
    var i := Coord(s.position.x, f.origin.x, f.edge.x);
    var j := Coord(s.position.y, f.origin.y, f.edge.y);
    var k := Coord(s.position.z, f.origin.z, f.edge.z);
    if i.Some? && j.Some? && k.Some? && InGrid(d, i.value, j.value, k.value) then
      FlatBelow(d, i.value, j.value, k.value);
      Some(Flat(d, i.value, j.value, k.value))
    else None
  }

  /** The splats that land in some cell, in input order. */
  function Placed(d: Dims, f: Frame, ss: seq<Splat>): (r: seq<Splat>)
    ensures |r| <= |ss|
    ensures forall n :: 0 <= n < |r| ==> CellOf(d, f, r[n]).Some?
  {
    if ss == [] then []
    else
      var init := Placed(d, f, ss[..|ss| - 1]);
      if CellOf(d, f, ss[|ss| - 1]).Some? then init + [ss[|ss| - 1]] else init
  }

  /** The splats cell c receives, in input order. */
  function Bucket(d: Dims, f: Frame, ss: seq<Splat>, c: nat): (r: seq<Splat>)
    ensures forall n :: 0 <= n < |r| ==> CellOf(d, f, r[n]) == Some(c)
  {
    if ss == [] then []
    else
      var init := Bucket(d, f, ss[..|ss| - 1], c);
      if CellOf(d, f, ss[|ss| - 1]) == Some(c) then init + [ss[|ss| - 1]] else init
  }

  /** The buckets of every cell of the grid, in cell order. */
  function Buckets(d: Dims, f: Frame, ss: seq<Splat>): (r: seq<seq<Splat>>)
    ensures |r| == CellCount(d)
  {
    seq(CellCount(d), (c: int) requires 0 <= c => Bucket(d, f, ss, c))
  }

  /** The parts laid end to end. */
  function Concat<T>(ps: seq<seq<T>>): seq<T> {
    if ps == [] then [] else Concat(ps[..|ps| - 1]) + ps[|ps| - 1]
  }

  /** Appending to one part appends the value to the concatenation's contents. */
  lemma {:induction false} ConcatGrow<T>(ps: seq<seq<T>>, c: nat, x: T)
    requires c < |ps|
    ensures multiset(Concat(ps[c := ps[c] + [x]])) == multiset(Concat(ps)) + multiset{x}
    decreases |ps|
  {
    var ps' := ps[c := ps[c] + [x]];
    var last := |ps| - 1;
    var init := Concat(ps[..last]);
    assert Concat(ps) == init + ps[last];
    if c == last {
      assert ps'[..last] == ps[..last];
      assert Concat(ps') == init + (ps[last] + [x]);
      assert init + (ps[last] + [x]) == (init + ps[last]) + [x];
    } else {
      var init' := Concat(ps'[..last]);
      assert ps'[..last] == ps[..last][c := ps[c] + [x]];
      ConcatGrow(ps[..last], c, x);
      assert multiset(init') == multiset(init) + multiset{x};
      assert Concat(ps') == init' + ps[last];
    }
  }

  /**
   * The cells together hold exactly the placed splats: every splat whose
   * coordinates are inside the grid is in exactly one cell, the one its
   * coordinates name, and nothing else is in any cell.
   */
  lemma {:induction false} BucketsHoldPlaced(d: Dims, f: Frame, ss: seq<Splat>)
    ensures multiset(Concat(Buckets(d, f, ss))) == multiset(Placed(d, f, ss))
    decreases |ss|
  {
    if ss == [] {
      var bs := Buckets(d, f, ss);
      assert forall c :: 0 <= c < |bs| ==> bs[c] == [];
      EmptyParts(bs);
    } else {
      var init, s := ss[..|ss| - 1], ss[|ss| - 1];
      BucketsHoldPlaced(d, f, init);
      var before, after := Buckets(d, f, init), Buckets(d, f, ss);
      match CellOf(d, f, s)
      case None =>
        assert after == before;
      case Some(c0) =>
        assert after == before[c0 := before[c0] + [s]];
        ConcatGrow(before, c0, s);
    }
  }

  /** Parts that are all empty concatenate to nothing. */
  lemma {:induction false} EmptyParts<T>(ps: seq<seq<T>>)
    requires forall c :: 0 <= c < |ps| ==> ps[c] == []
    ensures Concat(ps) == []
    decreases |ps|
  {
    if ps != [] {
      EmptyParts(ps[..|ps| - 1]);
    }
  }

  /** The cells hold at most as many splats as the input: the skipped ones are dropped. */
  lemma CellsAtMostInput(d: Dims, f: Frame, ss: seq<Splat>)
    ensures |Concat(Buckets(d, f, ss))| <= |ss|
  {
    BucketsHoldPlaced(d, f, ss);
    assert |multiset(Concat(Buckets(d, f, ss)))| == |multiset(Placed(d, f, ss))|;
  }

  /**
   * In exact arithmetic the padding places every splat: when the box holds
   * every position, has a positive extent along every axis and every axis
   * has at least two subdivisions, nothing is skipped.
   */
  lemma {:induction false} AllPlaced(d: Dims, bb: Box, ss: seq<Splat>)
    requires forall n :: 0 <= n < |ss| ==> Within(ss[n].position, Min(bb), BoundingBox.Max(bb))
    requires Size(bb).x > 0.0 && Size(bb).y > 0.0 && Size(bb).z > 0.0
    requires d.x >= 2 && d.y >= 2 && d.z >= 2
    ensures Placed(d, GridFrame(bb, d), ss) == ss
    decreases |ss|
  {
    if ss != [] {
      var init, s := ss[..|ss| - 1], ss[|ss| - 1];
      AllPlaced(d, bb, init);
      var size, lo := Size(bb), Min(bb);
      assert Within(s.position, lo, BoundingBox.Max(bb));
      PaddingInRange(s.position.x, lo.x, size.x, d.x);
      PaddingInRange(s.position.y, lo.y, size.y, d.y);
      PaddingInRange(s.position.z, lo.z, size.z, d.z);
      assert CellOf(d, GridFrame(bb, d), s).Some?;
      assert init + [s] == ss;
    }
  }

  // ---------------------------------------------------------------- offset re-basing

  /** The running offset after the given cells: their splat counts summed in uint32_t. */
  function Offset<T>(ps: seq<seq<T>>): (r: nat)
    ensures r < TwoTo32
  {
    if ps == [] then 0 else U32(Offset(ps[..|ps| - 1]) + |ps[|ps| - 1]|)
  }

  /** A cell's query result with the offset added to every index, in uint32_t. */
  function Shift(ls: seq<nat>, off: nat): (r: seq<nat>)
    ensures |r| == |ls|
  {
    seq(|ls|, i requires 0 <= i < |ls| => U32(ls[i] + off))
  }

  /** The i-th shifted index. */
  lemma ShiftAt(ls: seq<nat>, off: nat, i: nat)
    requires i < |ls|
    ensures Shift(ls, off)[i] == U32(ls[i] + off)
  {
  }

  /**
   * The global query result: for each cell in order, its local result
   * shifted by the running offset of the cells before it.
   */
  function Rebase<T>(locals: seq<seq<nat>>, ps: seq<seq<T>>): seq<nat>
    requires |locals| == |ps|
  {
    if ps == [] then []
    else
      var n := |ps| - 1;
      Rebase(locals[..n], ps[..n]) + Shift(locals[n], Offset(ps[..n]))
  }

  /** Every local index names a splat of its own cell. */
  ghost predicate LocalsInRange<T>(locals: seq<seq<nat>>, ps: seq<seq<T>>) {
    |locals| == |ps| &&
    forall c, i :: 0 <= c < |ps| && 0 <= i < |locals[c]| ==> locals[c][i] < |ps[c]|
  }

  /** The splats the cells' own queries select, cell by cell. */
  function Picked<T>(locals: seq<seq<nat>>, ps: seq<seq<T>>): (r: seq<T>)
    requires LocalsInRange(locals, ps)
  {
    if ps == [] then []
    else
      var n := |ps| - 1;
      Picked(locals[..n], ps[..n]) + seq(|locals[n]|, i requires 0 <= i < |locals[n]| => ps[n][locals[n][i]])
  }

  /** Below 2^32 splats in all, the running offset is the cells' start in the concatenation. */
  lemma {:induction false} OffsetIsStart<T>(ps: seq<seq<T>>)
    requires |Concat(ps)| < TwoTo32
    ensures Offset(ps) == |Concat(ps)|
    decreases |ps|
  {
    if ps != [] {
      OffsetIsStart(ps[..|ps| - 1]);
    }
  }

  /**
   * Re-basing is sound: below 2^32 concatenated splats, the k-th global
   * index addresses in the concatenation exactly the splat the cell-local
   * query selected in its own cell.
   */
  lemma {:induction false} RebaseAddresses<T>(locals: seq<seq<nat>>, ps: seq<seq<T>>)
    requires LocalsInRange(locals, ps) && |Concat(ps)| < TwoTo32
    ensures |Rebase(locals, ps)| == |Picked(locals, ps)|
    ensures forall k :: 0 <= k < |Rebase(locals, ps)| ==>
      Rebase(locals, ps)[k] < |Concat(ps)| && Concat(ps)[Rebase(locals, ps)[k]] == Picked(locals, ps)[k]
    decreases |ps|
  {
    if ps != [] {
      var n := |ps| - 1;
      var li, pi := locals[..n], ps[..n];
      assert LocalsInRange(li, pi) by {
        forall c, i | 0 <= c < |pi| && 0 <= i < |li[c]|
          ensures li[c][i] < |pi[c]|
        {
          assert li[c] == locals[c] && pi[c] == ps[c];
        }
      }
      var whole, start := Concat(ps), Concat(pi);
      assert whole == start + ps[n];
      RebaseAddresses(li, pi);
      OffsetIsStart(pi);
      var r, p := Rebase(locals, ps), Picked(locals, ps);
      var r0, p0 := Rebase(li, pi), Picked(li, pi);
      assert r == r0 + Shift(locals[n], |start|);
      forall k | 0 <= k < |r|
        ensures r[k] < |whole| && whole[r[k]] == p[k]
      {
        if k < |r0| {
          assert r[k] == r0[k] && p[k] == p0[k];
        } else {
          var i := k - |r0|;
          assert locals[n][i] < |ps[n]|;
          ShiftAt(locals[n], |start|, i);
          assert r[k] == U32(locals[n][i] + |start|);
          assert r[k] == |start| + locals[n][i];
          assert p[k] == ps[n][locals[n][i]];
        }
      }
    }
  }

  /** One more cell: its local result shifted by the offset of the cells before it, and the offset grown by its size. */
  lemma RebaseSnoc<T>(locals: seq<seq<nat>>, ps: seq<seq<T>>, c: nat)
    requires |locals| == |ps| && c < |ps|
    ensures Rebase(locals[..c + 1], ps[..c + 1]) == Rebase(locals[..c], ps[..c]) + Shift(locals[c], Offset(ps[..c]))
  {
    assert locals[..c + 1][..c] == locals[..c];
    assert ps[..c + 1][..c] == ps[..c];
  }

  /** An empty cell leaves the running offset where it was. */
  lemma OffsetSkip<T>(ps: seq<seq<T>>, c: nat)
    requires c < |ps| && ps[c] == []
    ensures Offset(ps[..c + 1]) == Offset(ps[..c])
  {
    assert ps[..c + 1][..c] == ps[..c];
  }

  // ---------------------------------------------------------------- cells

  /** A default-constructed HC: no nodes, no splats, no build yet. */
  ghost predicate Unbuilt(h: HC)
    reads h
  {
    h.arena == [] && h.processed == [] && h.nodes == [] && h.splats == [] && h.leafCount == 0
  }

  /**
   * The hierarchy HC::build leaves for the splats ss: one leaf per splat in
   * the first slots, and for at least one splat a single root over
   * 2 |ss| - 1 nodes whose leaves are every slot below |ss| exactly once.
   */
  ghost predicate BuiltFrom(h: HC, ss: seq<Splat>)
    reads h
  {
    h.leafCount == |ss| && |ss| <= |h.arena| && |ss| <= |h.splats| &&
    (forall k :: 0 <= k < |ss| ==> h.arena[k] == Leaf(ss[k], k) && h.splats[k] == ss[k]) &&
    (|ss| >= 1 ==>
      |h.nodes| == 1 && |h.arena| == 2 * |ss| - 1 && Forest(h.arena) && h.nodes[0] < |h.arena| &&
      LeafBag(h.arena, h.nodes[0]) == Slots(|ss|))
  }

  class Cell {
    var splats: seq<Splat>
    const hc: HC

    /** A fresh cell: no splats and a default-constructed hierarchy of its own. */
    constructor ()
      ensures splats == [] && fresh(hc) && Unbuilt(hc)
    {
      splats := [];
      hc := new HC();
    }

    /** Cell::empty: the cell received no splat. */
    predicate Empty()
      reads this
      ensures Empty() <==> |splats| == 0
    {
      splats == []
    }
  }

  /** A cell straight from its constructor. */
  ghost predicate Blank(cell: Cell)
    reads cell, cell.hc
  {
    cell.splats == [] && Unbuilt(cell.hc)
  }

  /** A cell and its hierarchy as a build leaves them: an empty cell's HC is never built. */
  ghost predicate CellOk(cell: Cell)
    reads cell, cell.hc
  {
    if cell.splats == [] then Unbuilt(cell.hc) else cell.hc.Valid() && BuiltFrom(cell.hc, cell.splats)
  }

  /**
   * What GridHC::build leaves: separate cells, each as a build leaves it,
   * recorded in order in vs, and all their hierarchies' splats laid end to end.
   */
  ghost predicate GridOk(cs: seq<Cell>, vs: seq<View>, all: seq<Splat>)
    reads cs, Hcs(cs)
  {
    Separate(cs) && CellsOk(cs) && vs == Views(cs) && ViewsOk(vs) && all == Concat(Parts(vs))
  }

  /** Every cell is as a build leaves it. */
  ghost predicate CellsOk(cs: seq<Cell>)
    reads cs, Hcs(cs)
  {
    forall c {:trigger CellOk(cs[c])} :: 0 <= c < |cs| ==> CellOk(cs[c])
  }

  /** The hierarchies of the cells. */
  ghost function Hcs(cs: seq<Cell>): set<HC> {
    set c | c in cs :: c.hc
  }

  /** Distinct cells own distinct hierarchies: no two slots share a shared_ptr. */
  ghost predicate Separate(cs: seq<Cell>) {
    forall s, t :: 0 <= s < t < |cs| ==> cs[s] != cs[t] && cs[s].hc != cs[t].hc
  }

  /** A cell's state as a value: its splats, and its hierarchy's nodes, active roots and splat array. */
  datatype View = View(splats: seq<Splat>, arena: seq<Node>, nodes: seq<nat>, hcSplats: seq<Splat>)

  ghost function ViewOf(cell: Cell): View
    reads cell, cell.hc
  {
    View(cell.splats, cell.hc.arena, cell.hc.nodes, cell.hc.splats)
  }

  /** The cells' states, in cell order. */
  ghost function Views(cs: seq<Cell>): (r: seq<View>)
    reads cs, Hcs(cs)
    ensures |r| == |cs| && forall c :: 0 <= c < |cs| ==> r[c] == ViewOf(cs[c])
  {
    if cs == [] then [] else Views(cs[..|cs| - 1]) + [ViewOf(cs[|cs| - 1])]
  }

  /**
   * The shape of a cell's hierarchy the queries rely on: a merge forest
   * whose node indices are their slots, active roots inside it, one splat
   * per node, and nothing at all in an empty cell.
   */
  ghost predicate ViewOk(v: View) {
    Forest(v.arena) && Indexed(v.arena) && InArena(v.arena, v.nodes) && |v.hcSplats| == |v.arena| &&
    (v.splats == [] ==> v.hcSplats == [] && v.nodes == [])
  }

  /** A non-empty cell's hierarchy has every internal node the merge_nodes result of its two children. */
  ghost predicate MergedView(m: SplatMath, v: View) {
    v.splats != [] ==> Merged(m, v.arena, v.hcSplats, |v.splats|)
  }

  ghost predicate ViewsMerged(m: SplatMath, vs: seq<View>) {
    forall c :: 0 <= c < |vs| ==> MergedView(m, vs[c])
  }

  ghost predicate ViewsOk(vs: seq<View>) {
    forall c :: 0 <= c < |vs| ==> ViewOk(vs[c])
  }

  /** A cell as a build leaves it has the shape the queries rely on. */
  lemma CellView(cell: Cell)
    requires CellOk(cell)
    ensures ViewOk(ViewOf(cell))
  {
    if cell.splats != [] {
      assert cell.hc.Valid();
    }
  }

  /** The per-cell hc.splats arrays, in cell order. */
  function Parts(vs: seq<View>): (r: seq<seq<Splat>>)
    ensures |r| == |vs| && forall c :: 0 <= c < |vs| ==> r[c] == vs[c].hcSplats
  {
    seq(|vs|, c requires 0 <= c < |vs| => vs[c].hcSplats)
  }

  /** One more cell's array at the end. */
  lemma PartsSnoc(vs: seq<View>, v: View)
    ensures Parts(vs + [v]) == Parts(vs) + [v.hcSplats]
  {
  }

  /** Views is the cell-by-cell state. */
  lemma ViewsAre(cs: seq<Cell>, vs: seq<View>)
    requires |vs| == |cs| && forall t :: 0 <= t < |cs| ==> vs[t] == ViewOf(cs[t])
    ensures Views(cs) == vs
  {
  }

  /** What each cell's get_indices_depth(depth) returns; nothing for an empty cell, which is skipped. */
  ghost function DepthLocals(vs: seq<View>, depth: nat): (r: seq<seq<nat>>)
    requires ViewsOk(vs)
    ensures |r| == |vs|
    ensures forall c :: 0 <= c < |vs| ==>
      r[c] == if vs[c].splats == [] then [] else EmitStack(vs[c].arena, vs[c].nodes, depth)
  {
    seq(|vs|, c requires 0 <= c < |vs| && ViewOk(vs[c]) =>
      if vs[c].splats == [] then [] else EmitStack(vs[c].arena, vs[c].nodes, depth))
  }

  /**
   * What each cell's adaptive query returns: HC::get_indices is not part of
   * this model, so it is an oracle of the hierarchy and its roots (the
   * camera, threshold and weights are fixed inside it).
   */
  function ViewLocals(vs: seq<View>, query: (seq<Node>, seq<nat>) -> seq<nat>): (r: seq<seq<nat>>)
    ensures |r| == |vs|
    ensures forall c :: 0 <= c < |vs| ==>
      r[c] == if vs[c].splats == [] then [] else query(vs[c].arena, vs[c].nodes)
  {
    seq(|vs|, c requires 0 <= c < |vs| =>
      if vs[c].splats == [] then [] else query(vs[c].arena, vs[c].nodes))
  }

  /** Every index a cell's depth query returns names a splat of that cell's own array. */
  lemma DepthLocalsInRange(vs: seq<View>, depth: nat)
    requires ViewsOk(vs)
    ensures LocalsInRange(DepthLocals(vs, depth), Parts(vs))
  {
    var locals, ps := DepthLocals(vs, depth), Parts(vs);
    forall c, i | 0 <= c < |ps| && 0 <= i < |locals[c]|
      ensures locals[c][i] < |ps[c]|
    {
      EmitDepth(vs[c].arena, vs[c].nodes, depth);
    }
  }

  class GridHC {
    var subdivisions: Dims
    var cells: seq<Cell>
    var splats: seq<Splat>
    /** The cells' states as values. */
    ghost var views: seq<View>

    /**
     * The cells are distinct and own distinct hierarchies; every non-empty
     * cell's hierarchy is built from the cell's splats and every empty one
     * is untouched; splats is the cells' hc.splats laid end to end.
     */
    ghost predicate Valid()
      reads this, cells, Hcs(cells)
    {
      GridOk(cells, views, splats)
    }

    /** GridHC(): 20 subdivisions along every axis, no cells, no splats. */
    constructor ()
      ensures Valid()
      ensures subdivisions == DefaultSubdivisions && cells == [] && splats == []
    {
      subdivisions := DefaultSubdivisions;
      cells := [];
      splats := [];
      views := [];
    }

    /**
     * GridHC::build: a fresh cell in every slot of the grid, every splat
     * pushed into the cell its truncated coordinates name (the others are
     * skipped), a hierarchy built for every non-empty cell and the cells'
     * hc.splats concatenated in cell order.
     */
    method Build(m: SplatMath, splatsInit: seq<Splat>)
      requires PositiveWeights(m) && CellCount(subdivisions) < TwoTo32
      modifies this
      ensures forall c :: 0 <= c < |cells| ==> fresh(cells[c]) && fresh(cells[c].hc)
      ensures subdivisions == old(subdivisions)
      ensures Valid() && |cells| == CellCount(subdivisions) && ViewsMerged(m, views)
      ensures forall c :: 0 <= c < |cells| && cells[c].splats != [] ==>
        Merged(m, cells[c].hc.arena, cells[c].hc.splats, |cells[c].splats|)
      ensures forall c :: 0 <= c < |cells| ==>
        cells[c].splats == Bucket(subdivisions, GridFrame(m.boundsOf(splatsInit), subdivisions), splatsInit, c)
    {
      var cs, all, vs := MakeGrid(m, subdivisions, splatsInit);
      cells, splats, views := cs, all, vs;
    }

    /**
     * GridHC::get_indices_error: for every non-empty cell in order, its
     * get_indices_depth(depth) shifted by the running offset, which then
     * grows by the cell's hc.splats size. The error bound is not read.
     */
    method GetIndicesError(depth: nat, error: real) returns (indices: seq<nat>)
      requires Valid()
      ensures indices == Rebase(DepthLocals(views, depth), Parts(views))
      ensures LocalsInRange(DepthLocals(views, depth), Parts(views))
      ensures |splats| < TwoTo32 ==>
        var picked := Picked(DepthLocals(views, depth), Parts(views));
        |indices| == |picked| &&
        forall k :: 0 <= k < |indices| ==> indices[k] < |splats| && splats[indices[k]] == picked[k]
    {
      ghost var locals, parts := DepthLocals(views, depth), Parts(views);
      indices := [];
      var offset: nat := 0;
      for c := 0 to |cells|
        invariant indices == Rebase(locals[..c], parts[..c])
        invariant offset == Offset(parts[..c])
      {
        var cell := cells[c];
        assert ViewOf(cell) == views[c] && ViewOk(views[c]);
        ghost var size := |parts[c]|;
        var empty := cell.Empty();
        assert empty ==> size == 0;
        assert !empty ==> size == |cell.hc.splats|;
        var local: seq<nat> := [];
        if !empty {
          local := DepthQuery(cell, depth);
        }
        assert local == locals[c];
        indices := Rebased(indices, local, offset);
        if !empty {
          offset := Advance(parts, c, offset, |cell.hc.splats|);
        } else {
          OffsetSkip(parts, c);
        }
        RebaseSnoc(locals, parts, c);
      }
      assert locals[..|cells|] == locals && parts[..|cells|] == parts;
      DepthLocalsInRange(views, depth);
      if |splats| < TwoTo32 {
        RebaseAddresses(locals, parts);
      }
    }

    /**
     * GridHC::get_indices: the same offset scheme over every non-empty
     * cell's adaptive query.
     */
    method GetIndices(query: (seq<Node>, seq<nat>) -> seq<nat>) returns (indices: seq<nat>)
      requires Valid()
      ensures indices == Rebase(ViewLocals(views, query), Parts(views))
      ensures |splats| < TwoTo32 && LocalsInRange(ViewLocals(views, query), Parts(views)) ==>
        var picked := Picked(ViewLocals(views, query), Parts(views));
        |indices| == |picked| &&
        forall k :: 0 <= k < |indices| ==> indices[k] < |splats| && splats[indices[k]] == picked[k]
    {
      ghost var locals, parts := ViewLocals(views, query), Parts(views);
      indices := [];
      var offset: nat := 0;
      for c := 0 to |cells|
        invariant indices == Rebase(locals[..c], parts[..c])
        invariant offset == Offset(parts[..c])
      {
        var cell := cells[c];
        assert ViewOf(cell) == views[c] && ViewOk(views[c]);
        ghost var size := |parts[c]|;
        var empty := cell.Empty();
        assert empty ==> size == 0;
        assert !empty ==> size == |cell.hc.splats|;
        var local: seq<nat> := [];
        if !empty {
          local := query(cell.hc.arena, cell.hc.nodes);
        }
        assert local == locals[c];
        indices := Rebased(indices, local, offset);
        if !empty {
          offset := Advance(parts, c, offset, |cell.hc.splats|);
        } else {
          OffsetSkip(parts, c);
        }
        RebaseSnoc(locals, parts, c);
      }
      assert locals[..|cells|] == locals && parts[..|cells|] == parts;
      if |splats| < TwoTo32 && LocalsInRange(locals, parts) {
        RebaseAddresses(locals, parts);
      }
    }
  }

  /** cell->hc.get_indices_depth(depth) on a non-empty cell. */
  method DepthQuery(cell: Cell, depth: nat) returns (local: seq<nat>)
    requires CellOk(cell) && cell.splats != []
    ensures ViewOk(ViewOf(cell)) && local == EmitStack(cell.hc.arena, cell.hc.nodes, depth)
  {
    CellView(cell);
    local := cell.hc.GetIndicesDepth(depth);
  }

  /** offset += cell->hc->splats.size() in uint32_t: the running offset past cell c. */
  method Advance<T>(ghost ps: seq<seq<T>>, c: nat, offset: nat, n: nat) returns (r: nat)
    requires c < |ps| && offset == Offset(ps[..c]) && n == |ps[c]|
    ensures r == Offset(ps[..c + 1])
  {
    r := U32(offset + n);
    assert ps[..c + 1][..c] == ps[..c];
  }

  /** The inner loop of the queries: push every local index plus the offset, in uint32_t. */
  method Rebased(indices: seq<nat>, local: seq<nat>, offset: nat) returns (r: seq<nat>)
    ensures r == indices + Shift(local, offset)
  {
    r := indices;
    for i := 0 to |local|
      invariant r == indices + Shift(local[..i], offset)
    {
      r := r + [U32(local[i] + offset)];
      assert Shift(local[..i + 1], offset) == Shift(local[..i], offset) + [U32(local[i] + offset)];
    }
    assert local[..|local|] == local;
  }

  /** Slots below filled hold distinct blank cells with distinct hierarchies; the rest are still null. */
  ghost predicate Made(slots: seq<Cell?>, filled: nat)
    reads set t | 0 <= t < |slots| && slots[t] != null :: slots[t]
    reads set t | 0 <= t < |slots| && slots[t] != null :: slots[t].hc
  {
    filled <= |slots| &&
    (forall t :: 0 <= t < filled ==> slots[t] != null && Blank(slots[t])) &&
    (forall t :: filled <= t < |slots| ==> slots[t] == null) &&
    (forall s, t :: 0 <= s < t < filled ==> slots[s] != slots[t] && slots[s].hc != slots[t].hc)
  }

  /** The innermost creation loop of build: a new cell at get_index(i, j, k) for every k. */
  method MakeRow(d: Dims, i: nat, j: nat, slots: seq<Cell?>, ghost filled: nat) returns (r: seq<Cell?>)
    requires i < d.x && j < d.y && CellCount(d) < TwoTo32
    requires |slots| == CellCount(d) && filled == Flat(d, i, j, 0) && Made(slots, filled)
    ensures |r| == |slots| && Made(r, filled + d.z)
    ensures forall t :: 0 <= t < filled ==> r[t] == slots[t]
    ensures forall t :: filled <= t < filled + d.z ==> r[t] != null && fresh(r[t]) && fresh(r[t].hc)
  {
    r := slots;
    for k := 0 to d.z
      invariant |r| == |slots| && Made(r, filled + k)
      invariant forall t :: 0 <= t < filled ==> r[t] == slots[t]
      invariant forall t :: filled <= t < filled + k ==> r[t] != null && fresh(r[t]) && fresh(r[t].hc)
    {
      var cell := new Cell();
      GetIndexInGrid(d, i, j, k);
      var index := GetIndex(d, |r|, i, j, k).value;
      r := r[index := cell];
    }
  }

  /** The middle creation loop of build: the rows of plane i, one innermost loop per j. */
  method MakePlane(d: Dims, i: nat, slots: seq<Cell?>, ghost filled: nat) returns (r: seq<Cell?>)
    requires i < d.x && CellCount(d) < TwoTo32
    requires |slots| == CellCount(d) && filled == i * d.y * d.z && Made(slots, filled)
    ensures |r| == |slots| && Made(r, filled + d.y * d.z)
    ensures forall t :: 0 <= t < filled ==> r[t] == slots[t]
    ensures forall t :: filled <= t < filled + d.y * d.z ==> r[t] != null && fresh(r[t]) && fresh(r[t].hc)
  {
    r := slots;
    ghost var f: nat := filled;
    for j := 0 to d.y
      invariant |r| == |slots| && f == filled + j * d.z && Made(r, f)
      invariant forall t :: 0 <= t < filled ==> r[t] == slots[t]
      invariant forall t :: filled <= t < f ==> r[t] != null && fresh(r[t]) && fresh(r[t].hc)
    {
      r := MakeRow(d, i, j, r, f);
      f := f + d.z;
      MulSucc(j, d.z);
    }
  }

  /** The creation loops of build: cells.resize(sx * sy * sz), then a new cell at get_index(i, j, k) for every cell. */
  method MakeCells(d: Dims) returns (cs: seq<Cell>)
    requires CellCount(d) < TwoTo32
    ensures |cs| == CellCount(d) && Separate(cs)
    ensures forall c :: 0 <= c < |cs| ==> fresh(cs[c]) && fresh(cs[c].hc) && Blank(cs[c])
  {
    var n := d.x * d.y * d.z;
    var slots: seq<Cell?> := seq(n, _ => null);
    ghost var filled: nat := 0;
    for i := 0 to d.x
      invariant |slots| == n && filled == i * d.y * d.z && Made(slots, filled)
      invariant forall t :: 0 <= t < filled ==> slots[t] != null && fresh(slots[t]) && fresh(slots[t].hc)
    {
      slots := MakePlane(d, i, slots, filled);
      filled := filled + d.y * d.z;
      MulSucc(i, d.y);
      assert (i * d.y + d.y) * d.z == i * d.y * d.z + d.y * d.z;
    }
    cs := seq(n, t requires 0 <= t < n && slots[t] != null => slots[t] as Cell);
  }

  /**
   * The body of build on fresh cells: create them, distribute the splats,
   * build every non-empty cell and concatenate the hierarchies' arrays.
   */
  method MakeGrid(m: SplatMath, d: Dims, ss: seq<Splat>) returns (cs: seq<Cell>, all: seq<Splat>, ghost vs: seq<View>)
    requires PositiveWeights(m) && CellCount(d) < TwoTo32
    ensures |cs| == CellCount(d) && Separate(cs)
    ensures forall c :: 0 <= c < |cs| ==> fresh(cs[c]) && fresh(cs[c].hc)
    ensures forall c :: 0 <= c < |cs| ==> cs[c].splats == Bucket(d, GridFrame(m.boundsOf(ss), d), ss, c)
    ensures GridOk(cs, vs, all) && ViewsMerged(m, vs)
  {
    var frame := GridFrame(m.boundsOf(ss), d);
    cs := MakeCells(d);
    Distribute(d, frame, cs, ss);
    all, vs := BuildCells(m, cs);
  }

  /** The distribution loop: each splat pushed onto the cell its coordinates name, or skipped. */
  method Distribute(d: Dims, f: Frame, cs: seq<Cell>, ss: seq<Splat>)
    requires |cs| == CellCount(d) && CellCount(d) < TwoTo32 && Separate(cs)
    requires forall c :: 0 <= c < |cs| ==> cs[c].splats == [] && Unbuilt(cs[c].hc)
    modifies cs
    ensures forall c :: 0 <= c < |cs| ==> cs[c].splats == Bucket(d, f, ss, c) && Unbuilt(cs[c].hc)
  {
    for n := 0 to |ss|
      invariant forall c :: 0 <= c < |cs| ==> cs[c].splats == Bucket(d, f, ss[..n], c) && Unbuilt(cs[c].hc)
    {
      var s := ss[n];
      var i := Coord(s.position.x, f.origin.x, f.edge.x);
      var j := Coord(s.position.y, f.origin.y, f.edge.y);
      var k := Coord(s.position.z, f.origin.z, f.edge.z);
      assert ss[..n + 1][..n] == ss[..n];
      if i.Some? && j.Some? && k.Some? && i.value < d.x && j.value < d.y && k.value < d.z {
        GetIndexInGrid(d, i.value, j.value, k.value);
        var index := GetIndex(d, |cs|, i.value, j.value, k.value).value;
        cs[index].splats := cs[index].splats + [s];
      }
    }
    assert ss[..|ss|] == ss;
  }

  /** if (!cell->empty()) cell->hc.build(cell->splats): one cell brought to the state a build leaves. */
  method BuildCell(m: SplatMath, cell: Cell)
    requires PositiveWeights(m) && Unbuilt(cell.hc)
    modifies cell.hc
    ensures CellOk(cell) && ViewOk(ViewOf(cell)) && MergedView(m, ViewOf(cell))
  {
    if !cell.Empty() {
      cell.hc.Build(m, cell.splats);
    }
    CellView(cell);
  }

  /**
   * The first c cells are built and recorded in vs, the rest untouched, and
   * all is the recorded cells' hc.splats laid end to end.
   */
  ghost predicate BuiltUpTo(cs: seq<Cell>, c: nat, vs: seq<View>, all: seq<Splat>)
    reads cs, Hcs(cs)
  {
    c <= |cs| && |vs| == c &&
    (forall t {:trigger CellOk(cs[t])} :: 0 <= t < c ==> CellOk(cs[t])) &&
    (forall t :: c <= t < |cs| ==> Unbuilt(cs[t].hc)) &&
    (forall t :: 0 <= t < c ==> vs[t] == ViewOf(cs[t])) &&
    ViewsOk(vs) && all == Concat(Parts(vs))
  }

  /** One pass of the per-cell loop: cell c built and its hc.splats appended. */
  method BuildStep(m: SplatMath, cs: seq<Cell>, c: nat, ghost vs: seq<View>, all: seq<Splat>)
    returns (ghost vs': seq<View>, all': seq<Splat>)
    requires PositiveWeights(m) && Separate(cs) && c < |cs| && BuiltUpTo(cs, c, vs, all) && ViewsMerged(m, vs)
    modifies cs[c].hc
    ensures BuiltUpTo(cs, c + 1, vs', all') && ViewsMerged(m, vs')
  {
    var cell := cs[c];
    BuildCell(m, cell);
    all' := all;
    if !cell.Empty() {
      all' := all + cell.hc.splats;
    }
    PartsSnoc(vs, ViewOf(cell));
    vs' := vs + [ViewOf(cell)];
  }

  /** The per-cell loop of build: every non-empty cell's HC built from its splats, and the arrays concatenated. */
  method BuildCells(m: SplatMath, cs: seq<Cell>) returns (all: seq<Splat>, ghost vs: seq<View>)
    requires PositiveWeights(m) && Separate(cs)
    requires forall c :: 0 <= c < |cs| ==> Unbuilt(cs[c].hc)
    modifies Hcs(cs)
    ensures CellsOk(cs) && vs == Views(cs) && ViewsOk(vs) && ViewsMerged(m, vs)
    ensures all == Concat(Parts(vs))
    ensures forall c :: 0 <= c < |cs| ==> cs[c].splats == old(cs[c].splats)
  {
    all, vs := [], [];
    for c := 0 to |cs|
      invariant BuiltUpTo(cs, c, vs, all) && ViewsMerged(m, vs)
    {
      vs, all := BuildStep(m, cs, c, vs, all);
    }
    ViewsAre(cs, vs);
  }
}
