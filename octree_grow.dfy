/**
 * Why the split loop of Octree::build keeps its invariant: the one-node tree
 * it starts from is Grown, and dequeuing a slot (splitting it or not)
 * keeps the tree Grown with one more slot done, while the potential drops.
 */
module OctreeGrow {
  import opened Common
  import opened BoundingBox
  import opened Splats
  import opened OctreeNodes
  import opened OctreeShape

  /** The eight buckets the split of node n distributes its raw indices into. */
  function SplitBuckets(raw: seq<SplatSplit>, n: ONode): (bs: seq<seq<nat>>)
    requires IndicesIn(n.indicesRaw, |raw|)
    ensures |bs| == 8
  {
    Buckets(raw, n.indicesRaw, Center(n.bb))
  }

  /**
   * t is t0 after the split of slot s into the children Kids makes from
   * the child boxes `boxes` and the buckets `bs`: slot s now lists the
   * appended slots as its children, and the appended slots are those children.
   */
  ghost predicate SplitInto(t0: seq<ONode>, s: nat, boxes: seq<Box>, bs: seq<seq<nat>>, t: seq<ONode>) {
    s < |t0| && |boxes| == 8 && |bs| == 8 && |t0| <= |t| &&
    t[..|t0|] == t0[s := t0[s].(children := Range(|t0|, |t|))] &&
    t[|t0|..] == Kids(t0[s].depth, boxes, bs, 8)
  }

  /** Node n is the child made at depth d + 1 from the non-empty bucket `code` and its box. */
  ghost predicate KidSlot(n: ONode, d: nat, boxes: seq<Box>, bs: seq<seq<nat>>, code: nat) {
    code < 8 && code < |boxes| && code < |bs| && bs[code] != [] && n == ONode(d + 1, boxes[code], [], bs[code], [])
  }

  /** The split slot by slot: the old slots but s are unchanged and new slot |t0| + j is child Codes[j]. */
  lemma SplitSlots(t0: seq<ONode>, s: nat, boxes: seq<Box>, bs: seq<seq<nat>>, t: seq<ONode>)
    requires SplitInto(t0, s, boxes, bs, t)
    ensures forall k :: 0 <= k < |t0| && k != s ==> t[k] == t0[k]
    ensures t[s] == t0[s].(children := Range(|t0|, |t|))
    ensures |t| == |t0| + |Codes(bs, 8)|
    ensures forall k :: |t0| <= k < |t| ==> KidSlot(t[k], t0[s].depth, boxes, bs, Codes(bs, 8)[k - |t0|])
  {
    KidAt(t0[s].depth, boxes, bs, 8, 0);
    forall k | |t0| <= k < |t|
      ensures KidSlot(t[k], t0[s].depth, boxes, bs, Codes(bs, 8)[k - |t0|])
    {
      KidAt(t0[s].depth, boxes, bs, 8, k - |t0|);
      assert t[k] == t[|t0|..][k - |t0|];
    }
    forall k | 0 <= k < |t0|
      ensures t[k] == t0[s := t0[s].(children := Range(|t0|, |t|))][k]
    {
      assert t[k] == t[..|t0|][k];
    }
  }

  /** A split keeps the tree shape: the new slots are s's children, in increasing order. */
  lemma SplitTree(t0: seq<ONode>, par0: seq<nat>, s: nat, boxes: seq<Box>, bs: seq<seq<nat>>, t: seq<ONode>)
    requires SplitInto(t0, s, boxes, bs, t) && Tree(t0, par0) && t0[s].children == []
    ensures Tree(t, par0 + Repeat(s, |t| - |t0|))
  {
    SplitSlots(t0, s, boxes, bs, t);
    var par := par0 + Repeat(s, |t| - |t0|);
    forall p, k | 0 <= p < |t| && 0 <= k < |t[p].children|
      ensures p < t[p].children[k] < |t| && par[t[p].children[k]] == p
    {
      if p < |t0| && p != s {
        assert t[p] == t0[p];
      }
    }
    forall p | 0 <= p < |t| ensures Increasing(t[p].children) {
      if p < |t0| && p != s {
        assert t[p] == t0[p] && Increasing(t0[p].children);
      }
    }
  }

  /** A split keeps the children's codes increasing: s's children get the increasing Codes. */
  lemma SplitCodes(t0: seq<ONode>, code0: seq<nat>, s: nat, boxes: seq<Box>, bs: seq<seq<nat>>, t: seq<ONode>)
    requires SplitInto(t0, s, boxes, bs, t) && Ordered(t0) && Ordered(t) && |code0| == |t0| && t0[s].children == []
    requires forall p, i, j {:trigger t0[p].children[i], t0[p].children[j]} ::
      0 <= p < |t0| && 0 <= i < j < |t0[p].children| ==> code0[t0[p].children[i]] < code0[t0[p].children[j]]
    ensures var code := code0 + Codes(bs, 8);
      |code| == |t| &&
      forall p, i, j {:trigger t[p].children[i], t[p].children[j]} ::
        0 <= p < |t| && 0 <= i < j < |t[p].children| ==> code[t[p].children[i]] < code[t[p].children[j]]
  {
    SplitSlots(t0, s, boxes, bs, t);
    CodesIncrease(bs, 8);
    var code := code0 + Codes(bs, 8);
    forall p, i, j | 0 <= p < |t| && 0 <= i < j < |t[p].children|
      ensures code[t[p].children[i]] < code[t[p].children[j]]
    {
      if p < |t0| && p != s {
        assert t[p] == t0[p];
        assert t0[p].children[i] < |t0| && t0[p].children[j] < |t0|;
      } else if p == s {
        assert code[t[p].children[i]] == Codes(bs, 8)[i];
      }
    }
  }

  /**
   * The child a split makes from octant `code` of node n is ChildNode's
   * description of it, and every raw index it holds lies in its half box.
   */
  lemma KidGeometry(raw: seq<SplatSplit>, n: ONode, code: nat)
    requires IndicesIn(n.indicesRaw, |raw|) && InBox(raw, n) && code < 8
    ensures var kid := ONode(n.depth + 1, ChildBoxes(n.bb)[code], [], SplitBuckets(raw, n)[code], []);
      kid == ChildNode(raw, Bare(n), code) && InBox(raw, kid) && IndicesIn(kid.indicesRaw, |raw|)
  {
    var c := Center(n.bb);
    var b := Bucket(raw, n.indicesRaw, c, code);
    var box := ChildBox(n.bb, c, code);
    forall x | x in b
      ensures x < |raw| && Within(raw[x].position, Min(box), Max(box))
    {
      ChildBoxHalves(n.bb, raw[x].position);
    }
  }

  /** After a split, every slot still satisfies NodeOk and ChildOk, the new ones as children of s. */
  lemma SplitNodes(t0: seq<ONode>, par0: seq<nat>, code0: seq<nat>, raw: seq<SplatSplit>, maxDepth: nat,
                   s: nat, t: seq<ONode>)
    requires s < |t0| == |par0| == |code0| && t0[s].depth < maxDepth && IndicesIn(t0[s].indicesRaw, |raw|)
    requires forall k :: 0 <= k < |t0| ==> NodeOk(t0, raw, maxDepth, k) && ChildOk(t0, par0, code0, raw, k)
    requires SplitInto(t0, s, ChildBoxes(t0[s].bb), SplitBuckets(raw, t0[s]), t)
    ensures var par := par0 + Repeat(s, |t| - |t0|);
      var code := code0 + Codes(SplitBuckets(raw, t0[s]), 8);
      |par| == |code| == |t| &&
      forall k :: 0 <= k < |t| ==> NodeOk(t, raw, maxDepth, k) && ChildOk(t, par, code, raw, k)
  {
    var n := t0[s];
    var boxes := ChildBoxes(n.bb);
    var bs := SplitBuckets(raw, n);
    SplitSlots(t0, s, boxes, bs, t);
    var par := par0 + Repeat(s, |t| - |t0|);
    var code := code0 + Codes(bs, 8);
    assert NodeOk(t0, raw, maxDepth, s);
    assert Bare(t[s]) == Bare(n);
    forall k | 0 <= k < |t|
      ensures NodeOk(t, raw, maxDepth, k) && ChildOk(t, par, code, raw, k)
    {
      if k < |t0| {
        assert NodeOk(t0, raw, maxDepth, k) && ChildOk(t0, par0, code0, raw, k);
        assert Bare(t[k]) == Bare(t0[k]);
        if 0 < k {
          assert Bare(t[par[k]]) == Bare(t0[par0[k]]);
        }
      } else {
        var cd := Codes(bs, 8)[k - |t0|];
        assert KidSlot(t[k], n.depth, boxes, bs, cd);
        KidGeometry(raw, n, cd);
      }
    }
  }

  /**
   * The split slot s, above the depth bound and holding more than maxPer
   * indices, satisfies SplitOk afterwards: it has children, and they hold
   * its raw indices.
   */
  lemma SplitHere(t0: seq<ONode>, raw: seq<SplatSplit>, maxDepth: nat, maxPer: nat, s: nat,
                  boxes: seq<Box>, t: seq<ONode>)
    requires s < |t0| && IndicesIn(t0[s].indicesRaw, |raw|)
    requires t0[s].depth < maxDepth && |t0[s].indicesRaw| > maxPer
    requires SplitInto(t0, s, boxes, SplitBuckets(raw, t0[s]), t) && Ordered(t)
    ensures SplitOk(t, raw, maxDepth, maxPer, s)
  {
    var n := t0[s];
    var bs := SplitBuckets(raw, n);
    var v := t[..|t0|];
    var kids := t[|t0|..];
    assert t == v + kids;
    assert v[s] == t[s] == n.(children := Range(|t0|, |t|));
    BucketsPartition(raw, n.indicesRaw, Center(n.bb));
    SplitBag(v, s, kids, n.depth, boxes, bs);
    if |kids| == 0 {
      assert false;
    }
  }

  /** A split leaves SplitOk of the slots before s alone, and the slots after s childless. */
  lemma SplitBefore(t0: seq<ONode>, raw: seq<SplatSplit>, maxDepth: nat, maxPer: nat, s: nat,
                    boxes: seq<Box>, bs: seq<seq<nat>>, t: seq<ONode>)
    requires SplitInto(t0, s, boxes, bs, t) && Ordered(t0) && Ordered(t)
    requires forall k :: 0 <= k < s ==> SplitOk(t0, raw, maxDepth, maxPer, k)
    requires forall k :: s <= k < |t0| ==> t0[k].children == []
    ensures forall k :: 0 <= k < s ==> SplitOk(t, raw, maxDepth, maxPer, k)
    ensures forall k :: s < k < |t| ==> t[k].children == []
  {
    SplitSlots(t0, s, boxes, bs, t);
    forall k | 0 <= k < s
      ensures SplitOk(t, raw, maxDepth, maxPer, k)
    {
      assert SplitOk(t0, raw, maxDepth, maxPer, k);
      assert t[k] == t0[k];
      var cs := t0[k].children;
      ChildBagFrame(t0, cs, t, cs, |cs|);
    }
    forall k | s < k < |t|
      ensures t[k].children == []
    {
      if k < |t0| {
        assert t[k] == t0[k];
      } else {
        assert KidSlot(t[k], t0[s].depth, boxes, bs, Codes(bs, 8)[k - |t0|]);
      }
    }
  }

  /** The split loop starts from the root alone: depth 0, every raw index, a box holding every position. */
  lemma GrownInit(raw: seq<SplatSplit>, maxDepth: nat, maxPer: nat, bb: Box, root: ONode)
    requires forall i :: 0 <= i < |raw| ==> Within(raw[i].position, Min(bb), Max(bb))
    requires root == ONode(0, bb, [], Range(0, |raw|), [])
    ensures Grown([root], [0], [0], raw, maxDepth, maxPer, 0)
  {
    forall x | x in root.indicesRaw
      ensures x < |raw| && Within(raw[x].position, Min(root.bb), Max(root.bb))
    {
    }
    assert NodeOk([root], raw, maxDepth, 0);
  }

  /** Dequeuing slot s without splitting it (depth bound reached or few indices) keeps the tree Grown. */
  lemma SkipKeepsGrown(t: seq<ONode>, par: seq<nat>, code: seq<nat>, raw: seq<SplatSplit>,
                       maxDepth: nat, maxPer: nat, s: nat)
    requires Grown(t, par, code, raw, maxDepth, maxPer, s) && s < |t|
    requires !(t[s].depth < maxDepth && |t[s].indicesRaw| > maxPer)
    ensures Grown(t, par, code, raw, maxDepth, maxPer, s + 1)
  {
    assert t[s].children == [];
    assert SplitOk(t, raw, maxDepth, maxPer, s);
  }

  /** Dequeuing slot s and splitting it keeps the tree Grown, with the new slots s's children. */
  lemma SplitKeepsGrown(t0: seq<ONode>, par0: seq<nat>, code0: seq<nat>, raw: seq<SplatSplit>,
                        maxDepth: nat, maxPer: nat, s: nat, t: seq<ONode>)
    requires Grown(t0, par0, code0, raw, maxDepth, maxPer, s) && s < |t0|
    requires t0[s].depth < maxDepth && |t0[s].indicesRaw| > maxPer
    requires IndicesIn(t0[s].indicesRaw, |raw|)
    requires SplitInto(t0, s, ChildBoxes(t0[s].bb), SplitBuckets(raw, t0[s]), t)
    ensures Grown(t, par0 + Repeat(s, |t| - |t0|), code0 + Codes(SplitBuckets(raw, t0[s]), 8),
                  raw, maxDepth, maxPer, s + 1)
  {
    SplitKeepsTree(t0, par0, code0, raw, maxDepth, maxPer, s, t);
    var boxes := ChildBoxes(t0[s].bb);
    SplitHere(t0, raw, maxDepth, maxPer, s, boxes, t);
    SplitBefore(t0, raw, maxDepth, maxPer, s, boxes, SplitBuckets(raw, t0[s]), t);
  }

  /** The tree half of SplitKeepsGrown. */
  lemma SplitKeepsTree(t0: seq<ONode>, par0: seq<nat>, code0: seq<nat>, raw: seq<SplatSplit>,
                       maxDepth: nat, maxPer: nat, s: nat, t: seq<ONode>)
    requires Grown(t0, par0, code0, raw, maxDepth, maxPer, s) && s < |t0|
    requires t0[s].depth < maxDepth && IndicesIn(t0[s].indicesRaw, |raw|)
    requires SplitInto(t0, s, ChildBoxes(t0[s].bb), SplitBuckets(raw, t0[s]), t)
    ensures GrownTree(t, par0 + Repeat(s, |t| - |t0|), code0 + Codes(SplitBuckets(raw, t0[s]), 8), raw, maxDepth)
  {
    var boxes := ChildBoxes(t0[s].bb);
    var bs := SplitBuckets(raw, t0[s]);
    SplitSlots(t0, s, boxes, bs, t);
    SplitTree(t0, par0, s, boxes, bs, t);
    SplitCodes(t0, code0, s, boxes, bs, t);
    SplitNodes(t0, par0, code0, raw, maxDepth, s, t);
    assert t[0].depth == t0[0].depth && t[0].indicesRaw == t0[0].indicesRaw;
  }

  /** After a split of slot s, s's children hold what the buckets they were made from hold. */
  lemma SplitBag(v: seq<ONode>, s: nat, kids: seq<ONode>, d: nat, boxes: seq<Box>, bs: seq<seq<nat>>)
    requires s < |v| && |bs| == 8 && |boxes| == 8
    requires kids == Kids(d, boxes, bs, 8) && v[s].children == Range(|v|, |v| + |kids|)
    ensures ChildBag(v + kids, v[s].children, |kids|) == BagUpTo(bs, 8)
  {
    KidsBag(v, d, boxes, bs, 8);
    ChildBagRange(v + kids, |v|, |kids|);
  }

  /**
   * After a split of slot s, whose buckets hold as many indices as s, the
   * potential from s + 1 on is s's old potential less its index count.
   */
  lemma SplitPot(t0: seq<ONode>, v: seq<ONode>, s: nat, kids: seq<ONode>, boxes: seq<Box>, bs: seq<seq<nat>>,
                 maxDepth: nat)
    requires s < |t0| == |v| && |bs| == 8 && |boxes| == 8 && t0[s].depth < maxDepth
    requires forall k :: s < k < |t0| ==> v[k] == t0[k]
    requires |BagUpTo(bs, 8)| == |t0[s].indicesRaw| && kids == Kids(t0[s].depth, boxes, bs, 8)
    ensures Pot(v + kids, s + 1, maxDepth) + |t0[s].indicesRaw| == Pot(t0, s, maxDepth)
  {
    var node := t0[s];
    KidsPot(v, s, node.depth, boxes, bs, 8, maxDepth);
    SizeUpToBag(bs, 8);
    PotFrame(t0, v, s + 1, maxDepth);
    var n := |node.indicesRaw|;
    assert Pot(t0, s, maxDepth) == PotNode(node, maxDepth) + Pot(t0, s + 1, maxDepth);
    assert PotNode(node, maxDepth) == n + Rep(n, maxDepth - node.depth);
  }

  /** Appended after the arena v, the children Kids makes from the first i buckets hold those buckets' indices. */
  lemma KidsBag(v: seq<ONode>, d: nat, boxes: seq<Box>, bs: seq<seq<nat>>, i: nat)
    requires i <= |bs| && i <= |boxes|
    ensures SlotBag(v + Kids(d, boxes, bs, i), |v|, |Kids(d, boxes, bs, i)|) == BagUpTo(bs, i)
  {
    var kids := Kids(d, boxes, bs, i);
    KidsOwnBag(d, boxes, bs, i);
    SlotBagShift(v, kids, |kids|);
  }

  /** The children Kids makes from the first i buckets hold those buckets' indices. */
  lemma {:induction false} KidsOwnBag(d: nat, boxes: seq<Box>, bs: seq<seq<nat>>, i: nat)
    requires i <= |bs| && i <= |boxes|
    ensures SlotBag(Kids(d, boxes, bs, i), 0, |Kids(d, boxes, bs, i)|) == BagUpTo(bs, i)
  {
    if i > 0 {
      KidsOwnBag(d, boxes, bs, i - 1);
      if bs[i - 1] != [] {
        KidsBagStep(Kids(d, boxes, bs, i - 1), ONode(d + 1, boxes[i - 1], [], bs[i - 1], []), bs, i);
      } else {
        BagUpToSkip(bs, i);
      }
    }
  }

  /** An empty bucket adds nothing to the bag. */
  lemma BagUpToSkip(bs: seq<seq<nat>>, i: nat)
    requires 0 < i <= |bs| && bs[i - 1] == []
    ensures BagUpTo(bs, i) == BagUpTo(bs, i - 1)
  {
    assert multiset(bs[i - 1]) == multiset{};
  }

  /** One more child, made from bucket i - 1, adds that bucket's indices to the bag. */
  lemma KidsBagStep(kids: seq<ONode>, child: ONode, bs: seq<seq<nat>>, i: nat)
    requires 0 < i <= |bs| && child.indicesRaw == bs[i - 1]
    requires SlotBag(kids, 0, |kids|) == BagUpTo(bs, i - 1)
    ensures SlotBag(kids + [child], 0, |kids| + 1) == BagUpTo(bs, i)
  {
    SlotBagPrefix(kids, kids + [child], 0, |kids|);
  }

  /** The bag of slots lo.. of u is the bag of the same slots of v + u, shifted by |v|. */
  lemma {:induction false} SlotBagShift(v: seq<ONode>, u: seq<ONode>, n: nat)
    requires n <= |u|
    ensures SlotBag(v + u, |v|, n) == SlotBag(u, 0, n)
  {
    if n > 0 {
      SlotBagShift(v, u, n - 1);
      assert (v + u)[|v| + n - 1] == u[n - 1];
    }
  }

  /** How many indices the first n buckets hold. */
  function SizeUpTo(bs: seq<seq<nat>>, n: nat): nat
    requires n <= |bs|
  {
    if n == 0 then 0 else SizeUpTo(bs, n - 1) + |bs[n - 1]|
  }

  lemma {:induction false} SizeUpToBag(bs: seq<seq<nat>>, n: nat)
    requires n <= |bs|
    ensures |BagUpTo(bs, n)| == SizeUpTo(bs, n)
  {
    if n > 0 {
      SizeUpToBag(bs, n - 1);
    }
  }

  /** Appending the children of a node above the depth bound adds one level less per index than the node owes. */
  lemma {:induction false} KidsPot(v: seq<ONode>, s: nat, d: nat, boxes: seq<Box>, bs: seq<seq<nat>>, i: nat, maxDepth: nat)
    requires s < |v| && i <= |bs| && i <= |boxes| && d < maxDepth
    ensures Pot(v + Kids(d, boxes, bs, i), s + 1, maxDepth) ==
      Pot(v, s + 1, maxDepth) + Rep(SizeUpTo(bs, i), maxDepth - d)
  {
    if i == 0 {
      RepZero(maxDepth - d);
      assert v + Kids(d, boxes, bs, i) == v;
    } else {
      KidsPot(v, s, d, boxes, bs, i - 1, maxDepth);
      var w := v + Kids(d, boxes, bs, i - 1);
      if bs[i - 1] != [] {
        var child := ONode(d + 1, boxes[i - 1], [], bs[i - 1], []);
        assert v + Kids(d, boxes, bs, i) == w + [child];
        PotSnocChild(v, w, child, s, SizeUpTo(bs, i - 1), SizeUpTo(bs, i), maxDepth - d, maxDepth);
      } else {
        assert Kids(d, boxes, bs, i) == Kids(d, boxes, bs, i - 1);
      }
    }
  }

  /** Appending a child at depth maxDepth + 1 - k adds Rep(its index count, k) to the potential. */
  lemma PotSnocChild(v: seq<ONode>, w: seq<ONode>, child: ONode, s: nat, b: nat, b2: nat, k: nat, maxDepth: nat)
    requires s < |v| <= |w| && 0 < child.depth <= maxDepth && k == maxDepth + 1 - child.depth
    requires b2 == b + |child.indicesRaw|
    requires Pot(w, s + 1, maxDepth) == Pot(v, s + 1, maxDepth) + Rep(b, k)
    ensures Pot(w + [child], s + 1, maxDepth) == Pot(v, s + 1, maxDepth) + Rep(b2, k)
  {
    PotSnoc(w, child, s + 1, maxDepth);
    RepAdd(b, |child.indicesRaw|, k);
  }
}
