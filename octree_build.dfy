/**
 * The steps of Octree::build on an arena of nodes: the cubic bounding box,
 * the distribution of a node's raw indices over its octants, the split of
 * one node, the breadth-first split loop and the pass that collapses
 * single-child chains.
 */
module OctreeBuild {
  import opened Common
  import opened BoundingBox
  import opened Splats
  import opened OctreeNodes
  import opened OctreeShape
  import opened OctreeGrow

  /** Octree::get_bb: the running min/max of the positions (from the origin), expanded to a cube. */
  method GetBB(raw: seq<SplatSplit>) returns (bb: Box)
    ensures bb == CubeAround(LowCorner(raw), HighCorner(raw))
  {
    var lo := Origin;
    var hi := Origin;
    for i := 0 to |raw|
      invariant lo == LowCorner(raw[..i]) && hi == HighCorner(raw[..i])
    {
      assert raw[..i + 1][..i] == raw[..i];
      var p := raw[i].position;
      lo := MinV(lo, p);
      hi := MaxV(hi, p);
    }
    assert raw[..|raw|] == raw;
    bb := CubeAround(lo, hi);
  }

  /** The distribution loop of a split: each raw index is appended to the bucket of its octant. */
  method Distribute(raw: seq<SplatSplit>, idxs: seq<nat>, c: Vec3) returns (bs: seq<seq<nat>>)
    requires IndicesIn(idxs, |raw|)
    ensures bs == Buckets(raw, idxs, c)
  {
    bs := [[], [], [], [], [], [], [], []];
    assert bs == Buckets(raw, idxs[..0], c);
    for k := 0 to |idxs|
      invariant bs == Buckets(raw, idxs[..k], c)
    {
      var idx := idxs[k];
      var index := Octant(raw[idx].position, c);
      BucketsSnoc(raw, idxs[..k + 1], c);
      assert idxs[..k + 1][..k] == idxs[..k];
      bs := bs[index := bs[index] + [idx]];
    }
    assert idxs[..|idxs|] == idxs;
  }

  /**
   * The attach loop of a split: every non-empty bucket, in octant order,
   * becomes a child node one level deeper with the octant's half box.
   */
  method MakeChildren(node: ONode, bs: seq<seq<nat>>) returns (kids: seq<ONode>)
    requires |bs| == 8
    ensures kids == Kids(node.depth, ChildBoxes(node.bb), bs, 8)
  {
    var center := Center(node.bb);
    kids := [];
    for i := 0 to 8
      invariant kids == Kids(node.depth, ChildBoxes(node.bb), bs, i)
    {
      if bs[i] != [] {
        var child := ONode(node.depth + 1, ChildBox(node.bb, center, i), [], bs[i], []);
        kids := kids + [child];
      }
    }
  }

  /**
   * Octree::build's split of the node at slot s: its raw indices are
   * distributed over the eight octants of its box's center; the children
   * are appended to the arena, attached to s in octant order and pushed
   * onto the queue (whose entries are the slots in creation order). The
   * children's bag is s's bag, and the potential drops by s's index count.
   */
  method SplitNode(raw: seq<SplatSplit>, t0: seq<ONode>, q0: seq<nat>, s: nat, ghost maxDepth: nat)
    returns (t: seq<ONode>, q: seq<nat>)
    requires s < |t0| && q0 == Range(0, |t0|) && t0[s].children == []
    requires IndicesIn(t0[s].indicesRaw, |raw|) && t0[s].depth < maxDepth
    ensures |t0| <= |t| && t[..|t0|] == t0[s := t0[s].(children := Range(|t0|, |t|))]
    ensures t[|t0|..] == Kids(t0[s].depth, ChildBoxes(t0[s].bb), Buckets(raw, t0[s].indicesRaw, Center(t0[s].bb)), 8)
    ensures q == Range(0, |t|)
    ensures ChildBag(t, t[s].children, |t[s].children|) == multiset(t0[s].indicesRaw)
    ensures Pot(t, s + 1, maxDepth) + |t0[s].indicesRaw| == Pot(t0, s, maxDepth)
  {
    var node := t0[s];
    var bs := Distribute(raw, node.indicesRaw, Center(node.bb));
    var kids := MakeChildren(node, bs);
    t := t0[s := node.(children := Range(|t0|, |t0| + |kids|))] + kids;
    q := q0 + Range(|t0|, |t|);
    SplitFacts(raw, t0, s, maxDepth, bs, kids, t);
    RangeAppend(0, |t0|, |t|);
  }

  /** What a split of slot s makes of the arena t0, given its buckets bs and the children kids made from them. */
  lemma SplitFacts(raw: seq<SplatSplit>, t0: seq<ONode>, s: nat, maxDepth: nat, bs: seq<seq<nat>>, kids: seq<ONode>,
                   t: seq<ONode>)
    requires s < |t0| && IndicesIn(t0[s].indicesRaw, |raw|) && t0[s].depth < maxDepth
    requires bs == Buckets(raw, t0[s].indicesRaw, Center(t0[s].bb))
    requires kids == Kids(t0[s].depth, ChildBoxes(t0[s].bb), bs, 8)
    requires t == t0[s := t0[s].(children := Range(|t0|, |t0| + |kids|))] + kids
    ensures |t0| <= |t| && t[..|t0|] == t0[s := t0[s].(children := Range(|t0|, |t|))]
    ensures t[|t0|..] == kids
    ensures ChildBag(t, t[s].children, |t[s].children|) == multiset(t0[s].indicesRaw)
    ensures Pot(t, s + 1, maxDepth) + |t0[s].indicesRaw| == Pot(t0, s, maxDepth)
  {
    var node := t0[s];
    var v := t0[s := node.(children := Range(|t0|, |t0| + |kids|))];
    assert t[..|t0|] == v && t[|t0|..] == kids;
    BucketsPartition(raw, node.indicesRaw, Center(node.bb));
    SplitBag(v, s, kids, node.depth, ChildBoxes(node.bb), bs);
    SplitPot(t0, v, s, kids, ChildBoxes(node.bb), bs, maxDepth);
  }

  /**
   * The breadth-first split loop of Octree::build. The queue holds the
   * slots in creation order (so it is always 0, 1, ..., |t| - 1); each
   * dequeued slot is split when it is above the depth bound and holds more
   * than maxPer raw indices. It ends with every slot dequeued: the tree is
   * Grown with all slots done. It terminates because a split hands each of
   * the node's indices one level down, which the potential Pot counts.
   */
  method SplitAll(raw: seq<SplatSplit>, bb: Box, maxDepth: nat, maxPer: nat)
    returns (t: seq<ONode>, ghost par: seq<nat>, ghost code: seq<nat>)
    requires forall i :: 0 <= i < |raw| ==> Within(raw[i].position, Min(bb), Max(bb))
    ensures Grown(t, par, code, raw, maxDepth, maxPer, |t|)
    ensures t[0].bb == bb
  {
    var root := ONode(0, bb, [], Range(0, |raw|), []);
    t := [root];
    var q := [0];
    par := [0];
    code := [0];
    var counter := 0;
    GrownInit(raw, maxDepth, maxPer, bb, root);
    while counter < |q|
      invariant q == Range(0, |t|) && counter <= |t|
      invariant Grown(t, par, code, raw, maxDepth, maxPer, counter)
      invariant t[0].bb == bb
      decreases Pot(t, counter, maxDepth), |t| - counter
    {
      var s := q[counter];
      counter := counter + 1;
      var node := t[s];
      assert NodeOk(t, raw, maxDepth, s);
      if node.depth >= maxDepth || |node.indicesRaw| <= maxPer {
        SkipKeepsGrown(t, par, code, raw, maxDepth, maxPer, s);
        continue;
      }
      ghost var t0 := t;
      t, q := SplitNode(raw, t, q, s, maxDepth);
      assert SplitInto(t0, s, ChildBoxes(node.bb), SplitBuckets(raw, node), t);
      assert t[0] == t[..|t0|][0];
      SplitKeepsGrown(t0, par, code, raw, maxDepth, maxPer, s, t);
      par := par + Repeat(s, |t| - |t0|);
      code := code + Codes(SplitBuckets(raw, node), 8);
    }
  }
}
