/**
 * The Octree class: build (split then collapse), generate (one merged splat
 * per node, breadth first), get_indices_depth, get_indices (the walk that
 * stops at leaves and at nodes whose box covers too little of the screen)
 * and generate_debug (one splat per raw splat, per queue entry).
 *
 * Nodes live in an arena: `arena[x]` is the node in slot x, slot 0 is the
 * root, and `queue` holds slots. The breadth-first order build leaves is
 * kept as the ghost `bfs`, with its children ranges `starts` and parent
 * positions `up` (OctreeCollapse.Layout).
 */
module SplatOctree {
  import opened Common
  import opened BoundingBox
  import opened Splats
  import opened OctreeNodes
  import opened OctreeShape
  import opened OctreeBuild
  import opened OctreeCollapse
  import opened OctreeBuilt
  import opened OctreeQuery

  /** The raw splats a node's indices name, in order (the vector generate merges). */
  function RawSplats(raw: seq<SplatSplit>, idxs: seq<nat>): (r: seq<SplatSplit>)
    requires IndicesIn(idxs, |raw|)
  {
    seq(|idxs|, i requires 0 <= i < |idxs| => raw[idxs[i]])
  }

  /** The splat generate merges for each of the first n queue entries. */
  function Merged(m: SplatMath, raw: seq<SplatSplit>, a: seq<ONode>, q: seq<nat>, n: nat): (r: seq<Splat>)
    requires n <= |q| && RawIn(a, q, |raw|)
  {
    seq(n, k requires 0 <= k < n => m.mergeAll(RawSplats(raw, a[q[k]].indicesRaw)))
  }

  /** The arena once generate has stamped the first n queue entries: entry k gets splat k. */
  ghost function Stamped(a: seq<ONode>, q: seq<nat>, n: nat): (r: seq<ONode>)
    requires n <= |q| && forall k :: 0 <= k < |q| ==> q[k] < |a|
    ensures |r| == |a|
  {
    if n == 0 then a
    else
      var b := Stamped(a, q, n - 1);
      b[q[n - 1] := b[q[n - 1]].(indices := b[q[n - 1]].indices + [n - 1])]
  }

  /** Stamping changes only the indices field of a node. */
  lemma {:induction false} StampedShape(a: seq<ONode>, q: seq<nat>, n: nat, x: nat)
    requires n <= |q| && (forall k :: 0 <= k < |q| ==> q[k] < |a|) && x < |a|
    ensures Stamped(a, q, n)[x] == a[x].(indices := Stamped(a, q, n)[x].indices)
  {
    if n > 0 {
      StampedShape(a, q, n - 1, x);
    }
  }

  /**
   * With distinct queue entries, stamping n entries gives entry k < n the
   * single new index k, and leaves every other slot alone.
   */
  lemma {:induction false} StampedAt(a: seq<ONode>, q: seq<nat>, n: nat)
    requires n <= |q| && (forall k :: 0 <= k < |q| ==> q[k] < |a|) && Distinct(q)
    ensures forall k :: 0 <= k < n ==> Stamped(a, q, n)[q[k]] == a[q[k]].(indices := a[q[k]].indices + [k])
    ensures forall x :: 0 <= x < |a| && x !in q[..n] ==> Stamped(a, q, n)[x] == a[x]
  {
    if n > 0 {
      StampedAt(a, q, n - 1);
      assert q[..n] == q[..n - 1] + [q[n - 1]];
      assert q[n - 1] !in q[..n - 1];
    }
  }

  /** No node the order q reaches has been given a splat yet. */
  ghost predicate Unstamped(a: seq<ONode>, q: seq<nat>) {
    forall k :: 0 <= k < |q| ==> q[k] < |a| && a[q[k]].indices == []
  }

  /**
   * a is a0 with the node of each entry k of q given splat index k after
   * its old ones; slots q does not name keep their node.
   */
  ghost predicate StampedFrom(a0: seq<ONode>, a: seq<ONode>, q: seq<nat>) {
    |a| == |a0| &&
    (forall k :: 0 <= k < |q| ==> q[k] < |a0| && a[q[k]] == a0[q[k]].(indices := a0[q[k]].indices + [k])) &&
    (forall x :: 0 <= x < |a0| && x !in q ==> a[x] == a0[x])
  }

  /**
   * The queue a walk that dequeued the positions w of the order q leaves
   * behind: its prefix holds those nodes in order, the rest is what was there.
   */
  ghost predicate Rewritten(qu: seq<nat>, q0: seq<nat>, q: seq<nat>, w: seq<nat>) {
    |w| <= |q0| && (forall i :: 0 <= i < |w| ==> w[i] < |q|) && qu == SlotsAt(q, w) + q0[|w|..]
  }

  /** The slots at the positions w of the order q. */
  ghost function SlotsAt(q: seq<nat>, w: seq<nat>): (r: seq<nat>)
    ensures |r| == |w|
  {
    seq(|w|, i requires 0 <= i < |w| => if w[i] < |q| then q[w[i]] else 0)
  }

  /** A queue entry before the rewritten tail is the slot at its position. */
  lemma SlotAt(q: seq<nat>, w: seq<nat>, q0: seq<nat>, qu: seq<nat>, i: nat)
    requires |w| <= |q0| && qu == SlotsAt(q, w) + q0[|w|..] && i < |w| && w[i] < |q|
    ensures qu[i] == q[w[i]]
  {
    assert qu[i] == SlotsAt(q, w)[i];
  }

  /** The merged splats depend on the nodes' raw indices only. */
  lemma MergedKeep(m: SplatMath, raw: seq<SplatSplit>, a: seq<ONode>, a2: seq<ONode>, q: seq<nat>)
    requires RawIn(a, q, |raw|) && RawIn(a2, q, |raw|) && |a2| == |a|
    requires forall x :: 0 <= x < |a| ==> a2[x] == a[x].(indices := a2[x].indices)
    ensures Merged(m, raw, a, q, |q|) == Merged(m, raw, a2, q, |q|)
  {
    forall k | 0 <= k < |q| ensures a2[q[k]].indicesRaw == a[q[k]].indicesRaw {
      assert a2[q[k]] == a[q[k]].(indices := a2[q[k]].indices);
    }
  }

  /** Changing only the indices of nodes keeps the built shape. */
  lemma BuiltKeep(a: seq<ONode>, a2: seq<ONode>, q: seq<nat>, starts: seq<nat>, up: seq<nat>,
                  raw: seq<SplatSplit>, maxDepth: nat, maxPer: nat)
    requires Built(a, q, starts, up, raw, maxDepth, maxPer) == true && |a2| == |a|
    requires forall x :: 0 <= x < |a| ==> a2[x] == a[x].(indices := a2[x].indices)
    ensures Built(a2, q, starts, up, raw, maxDepth, maxPer)
  {
    forall x | 0 <= x < |a| ensures a2[x].children == a[x].children && a2[x].indicesRaw == a[x].indicesRaw {
      assert a2[x] == a[x].(indices := a2[x].indices);
    }
    assert Layout(a2, q, starts, up) by {
      forall k | 0 <= k < |q| ensures k < starts[k] && starts[k + 1] == starts[k] + |a2[q[k]].children| {
        assert a2[q[k]].children == a[q[k]].children;
      }
      forall k, i | 0 <= k < |q| && 0 <= i < |a2[q[k]].children|
        ensures HoldsAt(q, starts[k] + i, |q|, a2[q[k]].children[i])
      {
        assert a2[q[k]].children[i] == a[q[k]].children[i];
      }
    }
    forall k | 0 <= k < |q| ensures Partitioned(a2, q[k]) {
      assert Partitioned(a, q[k]);
      var cs := a[q[k]].children;
      if cs != [] {
        ChildBagFrame(a, cs, a2, cs, |cs|);
      }
    }
    forall k | 0 <= k < |q| ensures NodeBuilt(a2, raw, maxDepth, maxPer, q[k]) {
      assert NodeBuilt(a, raw, maxDepth, maxPer, q[k]);
      assert a2[q[k]] == a[q[k]].(indices := a2[q[k]].indices);
    }
  }

  /** The raw indices of every node the order q reaches name raw splats. */
  lemma BuiltRawIn(a: seq<ONode>, q: seq<nat>, starts: seq<nat>, up: seq<nat>,
                   raw: seq<SplatSplit>, maxDepth: nat, maxPer: nat)
    requires Built(a, q, starts, up, raw, maxDepth, maxPer) == true
    ensures RawIn(a, q, |raw|)
  {
    forall k | 0 <= k < |q| ensures q[k] < |a| && IndicesIn(a[q[k]].indicesRaw, |raw|) {
      assert NodeBuilt(a, raw, maxDepth, maxPer, q[k]);
    }
  }

  /** The indices of the nodes at depth d among the first n queue entries, in queue order. */
  ghost function DepthSeq(a: seq<ONode>, q: seq<nat>, d: nat, n: nat): seq<nat>
    requires n <= |q| && forall k :: 0 <= k < |q| ==> q[k] < |a|
  {
    if n == 0 then []
    else DepthSeq(a, q, d, n - 1) + (if a[q[n - 1]].depth == d then a[q[n - 1]].indices else [])
  }

  /**
   * Once every queue entry k holds the single splat index k (as after build
   * then generate), the depth query returns, increasing, exactly the queue
   * positions of the nodes at that depth.
   */
  lemma {:induction false} DepthPositions(a: seq<ONode>, q: seq<nat>, d: nat, n: nat)
    requires n <= |q| && forall k :: 0 <= k < |q| ==> q[k] < |a| && a[q[k]].indices == [k]
    ensures Increasing(DepthSeq(a, q, d, n))
    ensures forall p: nat :: p in DepthSeq(a, q, d, n) <==> p < n && a[q[p]].depth == d
  {
    if n > 0 {
      DepthPositions(a, q, d, n - 1);
      var s := DepthSeq(a, q, d, n - 1);
      if a[q[n - 1]].depth == d {
        assert DepthSeq(a, q, d, n) == s + [n - 1];
        forall i | 0 <= i < |s| ensures s[i] < n - 1 {
          assert s[i] in s;
        }
      }
    }
  }

  /**
   * With every queue entry k holding the single splat index k, the walk
   * returns the emitted positions, increasing, each below the number of
   * splats generate made; and the raw splats merged into them cover every
   * raw index exactly once.
   */
  lemma IndicesCoverRaw(v: View, a: seq<ONode>, q: seq<nat>, starts: seq<nat>, up: seq<nat>,
                        raw: seq<SplatSplit>, maxDepth: nat, maxPer: nat)
    requires Built(a, q, starts, up, raw, maxDepth, maxPer) == true
    requires forall k :: 0 <= k < |q| ==> a[q[k]].indices == [k]
    ensures Walkable(a, q, up)
    ensures CutSeq(v, a, q, up, |q|) == EmitList(v, a, q, up, |q|)
    ensures Increasing(CutSeq(v, a, q, up, |q|))
    ensures forall i :: 0 <= i < |CutSeq(v, a, q, up, |q|)| ==> CutSeq(v, a, q, up, |q|)[i] < |q|
    ensures forall x: nat :: PosCount(a, q, CutSeq(v, a, q, up, |q|), x) == if x < |raw| then 1 else 0
  {
    Cover(v, a, q, starts, up, raw, maxDepth, maxPer);
    assert Layout(a, q, starts, up);
    CutIsPositions(v, a, q, up, |q|);
    EmitIncreasing(v, a, q, up, |q|);
    EmitListBelow(v, a, q, up, |q|);
  }

  // ---------------------------------------------------------------- the walk's steps

  /** A position the walk does not reach adds nothing to the dequeue order, the output or the queue. */
  lemma WalkSkip(v: View, a: seq<ONode>, q: seq<nat>, starts: seq<nat>, up: seq<nat>, p: nat)
    requires Layout(a, q, starts, up) == true && p < |q|
    requires Walkable(a, q, up) && !Visited(v, a, q, up, p)
    ensures VisList(v, a, q, up, p + 1) == VisList(v, a, q, up, p)
    ensures CutSeq(v, a, q, up, p + 1) == CutSeq(v, a, q, up, p)
    ensures VisList(v, a, q, up, starts[p + 1]) == VisList(v, a, q, up, starts[p])
  {
    LayoutFamily(a, q, starts, up, p);
    forall j | starts[p] <= j < starts[p + 1] ensures !Visited(v, a, q, up, j) {
      var i := j - starts[p];
      assert q[starts[p] + i] == a[q[p]].children[i] && up[starts[p] + i] == p;
    }
    NoneReached(v, a, q, up, starts[p], starts[p + 1]);
  }

  /** A reached position is the next one dequeued, and the queue already holds it. */
  lemma WalkAt(v: View, a: seq<ONode>, q: seq<nat>, starts: seq<nat>, up: seq<nat>, p: nat)
    requires Layout(a, q, starts, up) == true && p < |q|
    requires Walkable(a, q, up) && Visited(v, a, q, up, p)
    ensures VisList(v, a, q, up, p + 1) == VisList(v, a, q, up, p) + [p]
    ensures |VisList(v, a, q, up, p)| < |VisList(v, a, q, up, starts[p])|
    ensures VisList(v, a, q, up, starts[p])[|VisList(v, a, q, up, p)|] == p
  {
    LayoutFamily(a, q, starts, up, p);
    VisListPrefix(v, a, q, up, p + 1, starts[p]);
  }

  /** A reached node that stops the walk adds its indices and enqueues nothing. */
  lemma WalkStop(v: View, a: seq<ONode>, q: seq<nat>, starts: seq<nat>, up: seq<nat>, p: nat)
    requires Layout(a, q, starts, up) == true && p < |q|
    requires Walkable(a, q, up) && Visited(v, a, q, up, p) && Stops(v, a[q[p]])
    ensures CutSeq(v, a, q, up, p + 1) == CutSeq(v, a, q, up, p) + a[q[p]].indices
    ensures VisList(v, a, q, up, starts[p + 1]) == VisList(v, a, q, up, starts[p])
  {
    LayoutFamily(a, q, starts, up, p);
    forall j | starts[p] <= j < starts[p + 1] ensures !Visited(v, a, q, up, j) {
      var i := j - starts[p];
      assert q[starts[p] + i] == a[q[p]].children[i] && up[starts[p] + i] == p;
    }
    NoneReached(v, a, q, up, starts[p], starts[p + 1]);
  }

  /**
   * A reached node that does not stop adds nothing and enqueues all its
   * children, in order, after what was queued before.
   */
  lemma WalkExpand(v: View, a: seq<ONode>, q: seq<nat>, starts: seq<nat>, up: seq<nat>, p: nat)
    requires Layout(a, q, starts, up) == true && p < |q|
    requires Walkable(a, q, up) && Visited(v, a, q, up, p) && !Stops(v, a[q[p]])
    ensures CutSeq(v, a, q, up, p + 1) == CutSeq(v, a, q, up, p)
    ensures var w, w2, cs := VisList(v, a, q, up, starts[p]), VisList(v, a, q, up, starts[p + 1]), a[q[p]].children;
      |w2| == |w| + |cs| &&
      (forall j :: 0 <= j < |w| ==> w2[j] == w[j]) &&
      (forall i :: 0 <= i < |cs| ==> w2[|w| + i] < |q| && q[w2[|w| + i]] == cs[i])
  {
    ChildrenReached(v, a, q, starts, up, p);
    var w, w2, cs := VisList(v, a, q, up, starts[p]), VisList(v, a, q, up, starts[p + 1]), a[q[p]].children;
    forall i | 0 <= i < |cs| ensures w2[|w| + i] < |q| && q[w2[|w| + i]] == cs[i] {
      assert w2[|w| + i] == Range(starts[p], starts[p + 1])[i];
    }
  }

  /** The children of a reached node that does not stop are all reached. */
  lemma ChildrenReached(v: View, a: seq<ONode>, q: seq<nat>, starts: seq<nat>, up: seq<nat>, p: nat)
    requires Layout(a, q, starts, up) == true && p < |q|
    requires Walkable(a, q, up) && Visited(v, a, q, up, p) && !Stops(v, a[q[p]])
    ensures Family(a, q, starts, up, p)
    ensures VisList(v, a, q, up, starts[p + 1]) == VisList(v, a, q, up, starts[p]) + Range(starts[p], starts[p + 1])
  {
    LayoutFamily(a, q, starts, up, p);
    forall j | starts[p] <= j < starts[p + 1] ensures Visited(v, a, q, up, j) {
      var i := j - starts[p];
      assert q[starts[p] + i] == a[q[p]].children[i] && up[starts[p] + i] == p;
    }
    AllReached(v, a, q, up, starts[p], starts[p + 1]);
  }

  /** A position's children come after it; the children range of the end is empty. */
  lemma LayoutAhead(a: seq<ONode>, q: seq<nat>, starts: seq<nat>, up: seq<nat>, p: nat)
    requires Layout(a, q, starts, up) == true && p <= |q|
    ensures p < starts[p] || p == |q|
  {
    if p < |q| {
      LayoutFamily(a, q, starts, up, p);
    }
  }

  /** Before the walk ends, the next position to look at exists. */
  lemma WalkGoes(v: View, a: seq<ONode>, q: seq<nat>, starts: seq<nat>, up: seq<nat>, p: nat)
    requires Layout(a, q, starts, up) == true && p <= |q| && Walkable(a, q, up)
    requires |VisList(v, a, q, up, p)| < |VisList(v, a, q, up, starts[p])|
    ensures p < |q|
  {
  }

  /** The first position from p on that the walk reaches, or |q| when there is none. */
  ghost function NextVisited(v: View, a: seq<ONode>, q: seq<nat>, up: seq<nat>, p: nat): (r: nat)
    requires Walkable(a, q, up) && p <= |q|
    ensures p <= r <= |q|
    decreases |q| - p
  {
    if p == |q| || Visited(v, a, q, up, p) then p else NextVisited(v, a, q, up, p + 1)
  }

  /**
   * While the queue still holds entries, the walk's next dequeue is at a
   * reached position, and the positions skipped on the way change nothing.
   */
  lemma {:induction false} SkipTo(v: View, a: seq<ONode>, q: seq<nat>, starts: seq<nat>, up: seq<nat>, p: nat)
    requires Layout(a, q, starts, up) == true && p <= |q| && Walkable(a, q, up)
    requires |VisList(v, a, q, up, p)| < |VisList(v, a, q, up, starts[p])|
    ensures var n := NextVisited(v, a, q, up, p);
      n < |q| && Visited(v, a, q, up, n) &&
      VisList(v, a, q, up, n) == VisList(v, a, q, up, p) &&
      CutSeq(v, a, q, up, n) == CutSeq(v, a, q, up, p) &&
      VisList(v, a, q, up, starts[n]) == VisList(v, a, q, up, starts[p])
    decreases |q| - p
  {
    WalkGoes(v, a, q, starts, up, p);
    if !Visited(v, a, q, up, p) {
      WalkSkip(v, a, q, starts, up, p);
      SkipTo(v, a, q, starts, up, p + 1);
    }
  }

  /** Before an expanding node's children are pushed: the output is unchanged and the queue has room for them. */
  lemma ExpandRoom(v: View, a: seq<ONode>, q: seq<nat>, starts: seq<nat>, up: seq<nat>, p: nat)
    requires Layout(a, q, starts, up) == true && p < |q|
    requires Walkable(a, q, up) && Visited(v, a, q, up, p) && !Stops(v, a[q[p]])
    ensures CutSeq(v, a, q, up, p + 1) == CutSeq(v, a, q, up, p)
    ensures |VisList(v, a, q, up, starts[p + 1])| == |VisList(v, a, q, up, starts[p])| + |a[q[p]].children| <= |q|
  {
    WalkExpand(v, a, q, starts, up, p);
    LayoutFamily(a, q, starts, up, p);
  }

  /**
   * Once an expanding node's children are pushed after the queue's first
   * |VisList(starts[p])| entries, the queue tracks the dequeue order up to
   * the end of p's children range.
   */
  lemma ExpandQueue(v: View, a: seq<ONode>, q: seq<nat>, starts: seq<nat>, up: seq<nat>, p: nat,
                    w: seq<nat>, cs: seq<nat>, qu0: seq<nat>, qu: seq<nat>, qu2: seq<nat>)
    requires Layout(a, q, starts, up) == true && p < |q|
    requires Walkable(a, q, up) && Visited(v, a, q, up, p) && !Stops(v, a[q[p]])
    requires w == VisList(v, a, q, up, starts[p]) && cs == a[q[p]].children
    requires |w| + |cs| <= |qu0| && qu == SlotsAt(q, w) + qu0[|w|..]
    requires qu2 == qu[..|w|] + cs + qu[|w| + |cs|..]
    ensures var w2 := VisList(v, a, q, up, starts[p + 1]);
      |w2| <= |qu0| && qu2 == SlotsAt(q, w2) + qu0[|w2|..]
  {
    WalkExpand(v, a, q, starts, up, p);
    var w2 := VisList(v, a, q, up, starts[p + 1]);
    LayoutFamily(a, q, starts, up, p);
    VisListBelow(v, a, q, up, starts[p + 1]);
    assert forall i :: 0 <= i < |w2| ==> w2[i] < |q|;
    assert SlotsAt(q, w2) == SlotsAt(q, w) + cs by {
      forall i | 0 <= i < |w2| ensures SlotsAt(q, w2)[i] == (SlotsAt(q, w) + cs)[i] {
        if i >= |w| {
          assert q[w2[|w| + (i - |w|)]] == cs[i - |w|];
        }
      }
    }
    assert qu[..|w|] == SlotsAt(q, w);
    assert qu[|w| + |cs|..] == qu0[|w2|..];
  }

  /**
   * One dequeue of get_indices: the entry at counter is the slot of the next
   * reached position n; stopping there adds its indices and keeps the
   * dequeue order, expanding adds nothing and leaves room for its children.
   */
  lemma Visit(v: View, a: seq<ONode>, q: seq<nat>, starts: seq<nat>, up: seq<nat>, p: nat,
              w: seq<nat>, qu0: seq<nat>, qu: seq<nat>, counter: nat) returns (n: nat)
    requires Layout(a, q, starts, up) == true && Walkable(a, q, up) && p <= |q|
    requires w == VisList(v, a, q, up, starts[p]) && |w| <= |qu0| && qu == SlotsAt(q, w) + qu0[|w|..]
    requires counter == |VisList(v, a, q, up, p)| < |w|
    ensures p <= n < |q| && Visited(v, a, q, up, n) && qu[counter] == q[n]
    ensures w == VisList(v, a, q, up, starts[n]) && counter + 1 == |VisList(v, a, q, up, n + 1)|
    ensures Stops(v, a[q[n]]) ==>
      CutSeq(v, a, q, up, n + 1) == CutSeq(v, a, q, up, p) + a[q[n]].indices &&
      VisList(v, a, q, up, starts[n + 1]) == w
    ensures !Stops(v, a[q[n]]) ==>
      CutSeq(v, a, q, up, n + 1) == CutSeq(v, a, q, up, p) &&
      |VisList(v, a, q, up, starts[n + 1])| == |w| + |a[q[n]].children| <= |q|
  {
    SkipTo(v, a, q, starts, up, p);
    n := NextVisited(v, a, q, up, p);
    WalkAt(v, a, q, starts, up, n);
    VisListBelow(v, a, q, up, starts[n]);
    LayoutFamily(a, q, starts, up, n);
    SlotAt(q, w, qu0, qu, counter);
    if Stops(v, a[q[n]]) {
      WalkStop(v, a, q, starts, up, n);
    } else {
      ExpandRoom(v, a, q, starts, up, n);
    }
  }

  // ---------------------------------------------------------------- the class

  /**
   * What build fixes about the tree, kept as ghost state: the breadth-first
   * order of slots, its children ranges and parent positions, and the bounds
   * it split with.
   */
  datatype Order = Order(bfs: seq<nat>, starts: seq<nat>, up: seq<nat>, depthBound: nat, perBound: nat)

  /**
   * The tree the split loop of build grows before the collapse pass, by
   * slot, with each slot's parent and octant code.
   */
  datatype Split = Split(tree: seq<ONode>, par: seq<nat>, code: seq<nat>)

  class Octree {
    /** The nodes, by slot; slot 0 is the root. */
    var arena: seq<ONode>
    var splats: seq<Splat>
    var maxDepth: nat
    var maxSplatsPerNode: nat
    var splatsRaw: seq<SplatSplit>
    /** Slots; build leaves them in breadth-first order, the walks rewrite a prefix. */
    var queue: seq<nat>
    ghost var order: Order
    /** What build split before collapsing; only build changes it. */
    ghost var split: Split

    /** The state build leaves, kept by every other operation. */
    ghost predicate Valid()
      reads this
    {
      Built(arena, order.bfs, order.starts, order.up, splatsRaw, order.depthBound, order.perBound) == true &&
      |queue| == |order.bfs| && RawIn(arena, order.bfs, |splatsRaw|) && RawIn(arena, queue, |splatsRaw|)
    }

    /** An empty octree with the default bounds: depth 10, one splat per node. */
    constructor ()
      ensures maxDepth == DefaultMaxDepth && maxSplatsPerNode == DefaultMaxSplatsPerNode
      ensures arena == [] && splats == [] && splatsRaw == [] && queue == []
    {
      arena, splats, splatsRaw, queue := [], [], [], [];
      maxDepth, maxSplatsPerNode := DefaultMaxDepth, DefaultMaxSplatsPerNode;
      order := Order([], [], [], 0, 0);
      split := Split([], [], []);
    }

    /**
     * Octree::build: a cube around the positions, split breadth first, then
     * collapsed; the queue is the breadth-first order of what remains, no
     * node has been given a splat yet, and no splats are kept.
     */
    method Build(raw: seq<SplatSplit>)
      modifies this`arena, this`splats, this`splatsRaw, this`queue, this`order, this`split
      ensures Valid() && queue == order.bfs && splats == [] && splatsRaw == raw
      ensures order.depthBound == maxDepth && order.perBound == maxSplatsPerNode
      ensures Unstamped(arena, order.bfs)
      ensures Grown(split.tree, split.par, split.code, raw, maxDepth, maxSplatsPerNode, |split.tree|)
      ensures split.tree[0].bb == CubeAround(LowCorner(raw), HighCorner(raw))
      ensures |arena| == |split.tree| && forall k :: 0 <= k < |queue| ==>
        Head(split.tree, split.par, queue[k]) && arena[queue[k]] == split.tree[Chase(split.tree, queue[k])]
    {
      var a, q, st, u, g, par, code := Grow(raw, maxDepth, maxSplatsPerNode);
      splats, splatsRaw, arena, queue := [], raw, a, q;
      order := Order(q, st, u, maxDepth, maxSplatsPerNode);
      split := Split(g, par, code);
    }

    /**
     * The body of Octree::build: the root spans get_bb's cube and holds every
     * raw index, the split loop grows the tree, and the collapse pass leaves
     * the queue in breadth-first order.
     */
    static method Grow(raw: seq<SplatSplit>, maxDepth: nat, maxPer: nat)
      returns (a: seq<ONode>, q: seq<nat>, ghost st: seq<nat>, ghost u: seq<nat>,
               g: seq<ONode>, ghost par: seq<nat>, ghost code: seq<nat>)
      ensures Built(a, q, st, u, raw, maxDepth, maxPer) == true && RawIn(a, q, |raw|)
      ensures Unstamped(a, q)
      ensures Grown(g, par, code, raw, maxDepth, maxPer, |g|)
      ensures g[0].bb == CubeAround(LowCorner(raw), HighCorner(raw))
      ensures |a| == |g| && forall k :: 0 <= k < |q| ==> Head(g, par, q[k]) && a[q[k]] == g[Chase(g, q[k])]
    {
      var bb := GetBB(raw);
      CubeContains(raw);
      g, par, code := SplitAll(raw, bb, maxDepth, maxPer);
      a, q, st, u := Collapse(g, par);
      BuildShape(g, par, code, raw, maxDepth, maxPer, a, q, st, u);
      BuiltRawIn(a, q, st, u, raw, maxDepth, maxPer);
    }

    /**
     * Octree::generate: walking the whole tree breadth first, the k-th node
     * reached gets the merge of its raw splats as splat k; the queue is back
     * in breadth-first order.
     */
    method Generate(m: SplatMath)
      requires Valid()
      modifies this`arena, this`queue, this`splats
      ensures Valid() && queue == order.bfs
      ensures StampedFrom(old(arena), arena, order.bfs)
      ensures splats == Merged(m, splatsRaw, arena, order.bfs, |order.bfs|)
    {
      BuiltRawIn(arena, order.bfs, order.starts, order.up, splatsRaw, order.depthBound, order.perBound);
      var a, qu, out := GenerateWalk(m, splatsRaw, arena, queue, order.bfs, order.starts, order.up);
      GenerateEnd(m, splatsRaw, arena, a, order.bfs, order.starts, order.up, order.depthBound, order.perBound, out);
      arena, queue, splats := a, qu, out;
    }

    /**
     * The loop of Octree::generate over the nodes a0, starting from the
     * queue qu0: it rewrites the queue into the breadth-first order q,
     * stamps the k-th node it dequeues with splat index k, and merges the
     * raw splats of each into splat k.
     */
    static method GenerateWalk(m: SplatMath, raw: seq<SplatSplit>, a0: seq<ONode>, qu0: seq<nat>,
                               ghost q: seq<nat>, ghost st: seq<nat>, ghost u: seq<nat>)
      returns (a: seq<ONode>, qu: seq<nat>, out: seq<Splat>)
      requires Layout(a0, q, st, u) == true && RawIn(a0, q, |raw|) && |qu0| == |q|
      ensures qu == q && a == Stamped(a0, q, |q|) && out == Merged(m, raw, a0, q, |q|)
    {
      qu := qu0[0 := 0];
      a := a0;
      out := [];
      var counter: nat, size: nat := 0, 1;
      while counter < size
        invariant counter <= |q| && size == st[counter] && |qu| == |q|
        invariant forall i :: 0 <= i < size ==> qu[i] == q[i]
        invariant a == Stamped(a0, q, counter)
        invariant out == Merged(m, raw, a0, q, counter)
        decreases |q| - counter
      {
        LayoutFamily(a0, q, st, u, counter);
        StartsMono(a0, q, st, u, counter + 1, |q|);
        var x := qu[counter];
        StampedShape(a0, q, counter, x);
        var node := a[x];
        counter := counter + 1;

        var splatsNew := GatherRaw(raw, node.indicesRaw);
        var merged := m.mergeAll(splatsNew);
        assert splatsNew == RawSplats(raw, a0[q[counter - 1]].indicesRaw);
        out := out + [merged];
        a := a[x := node.(indices := node.indices + [|out| - 1])];

        if IsLeaf(node) {
          continue;
        }
        ghost var s0 := size;
        for i := 0 to |node.children|
          invariant size == s0 + i && |qu| == |q|
          invariant forall j :: 0 <= j < size ==> qu[j] == q[j]
        {
          qu := qu[size := node.children[i]];
          size := size + 1;
        }
      }
      LayoutAhead(a0, q, st, u, counter);
      assert qu[..|q|] == q[..|q|];
    }

    /** The pushes of a node's children cs onto the queue qu, whose first size entries are in use. */
    static method PushAll(qu: seq<nat>, size: nat, cs: seq<nat>) returns (r: seq<nat>)
      requires size + |cs| <= |qu|
      ensures r == qu[..size] + cs + qu[size + |cs|..]
    {
      r := qu;
      for i := 0 to |cs|
        invariant r == qu[..size] + cs[..i] + qu[size + i..]
      {
        assert cs[..i + 1] == cs[..i] + [cs[i]];
        r := r[size + i := cs[i]];
      }
      assert cs[..|cs|] == cs;
    }

    /**
     * The splats_new buffer of Octree::generate: the raw splat each index
     * names, copied in order into a buffer of the same length.
     */
    static method GatherRaw(raw: seq<SplatSplit>, idxs: seq<nat>) returns (r: seq<SplatSplit>)
      requires IndicesIn(idxs, |raw|)
      ensures |r| == |idxs| && forall i :: 0 <= i < |idxs| ==> r[i] == raw[idxs[i]]
    {
      var buf := new SplatSplit[|idxs|];
      for i := 0 to |idxs|
        invariant forall j :: 0 <= j < i ==> buf[j] == raw[idxs[j]]
      {
        buf[i] := raw[idxs[i]];
      }
      r := buf[..];
    }

    /** Octree::get_indices_depth: the indices of every queued node at that depth, in queue order. */
    method GetIndicesDepth(depth: nat) returns (indices: seq<nat>)
      requires Valid()
      ensures indices == DepthSeq(arena, queue, depth, |queue|)
    {
      indices := [];
      for i := 0 to |queue|
        invariant indices == DepthSeq(arena, queue, depth, i)
      {
        var node := arena[queue[i]];
        if node.depth == depth {
          indices := indices + node.indices;
        }
      }
    }

    /**
     * Octree::get_indices: the walk from the root that stops at leaves and
     * at nodes whose screen area is below the threshold, returning the
     * indices of the nodes it stops at in breadth-first order. The queue's
     * prefix holds the nodes it dequeued, in order.
     */
    method GetIndices(v: View) returns (indices: seq<nat>)
      requires Valid()
      modifies this`queue
      ensures Valid() && Walkable(arena, order.bfs, order.up)
      ensures indices == CutSeq(v, arena, order.bfs, order.up, |order.bfs|)
      ensures Rewritten(queue, old(queue), order.bfs, VisList(v, arena, order.bfs, order.up, |order.bfs|))
    {
      assert Layout(arena, order.bfs, order.starts, order.up) == true;
      var qu;
      indices, qu := CutWalk(v, arena, queue, order.bfs, order.starts, order.up);
      WalkQueue(arena, order.bfs, order.starts, order.up, splatsRaw, order.depthBound, order.perBound,
                VisList(v, arena, order.bfs, order.up, |order.bfs|), queue, qu);
      queue := qu;
    }

    /**
     * The loop of Octree::get_indices over the nodes a, starting from the
     * queue qu0: it returns what the walk emits and the queue it leaves.
     */
    static method CutWalk(v: View, a: seq<ONode>, qu0: seq<nat>, ghost q: seq<nat>, ghost st: seq<nat>, ghost u: seq<nat>)
      returns (indices: seq<nat>, qu: seq<nat>)
      requires Layout(a, q, st, u) == true && |qu0| == |q|
      ensures Walkable(a, q, u)
      ensures indices == CutSeq(v, a, q, u, |q|)
      ensures Rewritten(qu, qu0, q, VisList(v, a, q, u, |q|))
    {
      LayoutWalkable(a, q, st, u);
      qu := qu0[0 := 0];
      var counter: nat, size: nat := 0, 1;
      indices := [];
      ghost var p: nat := 0;
      ghost var w: seq<nat> := [0];
      assert VisList(v, a, q, u, 1) == [0];
      assert qu == SlotsAt(q, w) + qu0[1..];
      while counter < size
        invariant p <= |q| && counter <= size
        invariant w == VisList(v, a, q, u, st[p]) && size == |w| <= |qu0|
        invariant counter == |VisList(v, a, q, u, p)|
        invariant qu == SlotsAt(q, w) + qu0[|w|..]
        invariant indices == CutSeq(v, a, q, u, p)
        decreases |q| - p
      {
        p := Visit(v, a, q, st, u, p, w, qu0, qu, counter);
        var node := a[qu[counter]];
        counter := counter + 1;

        if IsLeaf(node) || v.screenArea(node.bb) < v.minScreenArea {
          indices := indices + node.indices;
          p := p + 1;
          continue;
        }

        ghost var qu1 := qu;
        qu := PushAll(qu, size, node.children);
        ExpandQueue(v, a, q, st, u, p, w, node.children, qu0, qu1, qu);
        size := size + |node.children|;
        p, w := p + 1, VisList(v, a, q, u, st[p + 1]);
      }
      WalkEnd(v, a, q, st, u, p, w);
      VisListBelow(v, a, q, u, |q|);
    }

    /**
     * Octree::generate_debug: for each queue entry in turn, one splat per raw
     * index of its node, appended to the splats, with its index appended to
     * the node's indices.
     */
    method GenerateDebug(m: SplatMath)
      requires Valid()
      modifies this`arena, this`splats
      ensures Valid() && RawIn(old(arena), queue, |splatsRaw|)
      ensures splats == old(splats) + DebugSplats(m, splatsRaw, old(arena), queue, |queue|)
      ensures arena == DebugArena(m, splatsRaw, old(arena), queue, |queue|, |old(splats)|)
    {
      var a, out := DebugWalk(m, splatsRaw, arena, queue, splats);
      DebugEnd(m, splatsRaw, arena, a, queue, order.bfs, order.starts, order.up, order.depthBound, order.perBound, |splats|);
      arena, splats := a, out;
    }

    /**
     * The loops of Octree::generate_debug over the nodes a0, the queue qs
     * and the splats s0 made so far.
     */
    static method DebugWalk(m: SplatMath, raw: seq<SplatSplit>, a0: seq<ONode>, qs: seq<nat>, s0: seq<Splat>)
      returns (a: seq<ONode>, out: seq<Splat>)
      requires RawIn(a0, qs, |raw|)
      ensures a == DebugArena(m, raw, a0, qs, |qs|, |s0|)
      ensures out == s0 + DebugSplats(m, raw, a0, qs, |qs|)
    {
      a := a0;
      out := s0;
      for n := 0 to |qs|
        invariant a == DebugArena(m, raw, a0, qs, n, |s0|)
        invariant out == s0 + DebugSplats(m, raw, a0, qs, n)
      {
        var x := qs[n];
        DebugStep(m, raw, a0, qs, n, s0, a, out);
        a, out := DebugNode(m, raw, a, x, a[x].indicesRaw, out);
      }
    }

    /**
     * The inner loop of Octree::generate_debug for the node in slot x with
     * raw indices idxs: one splat per raw index appended to out, and the
     * index of each appended to the node's indices.
     */
    static method DebugNode(m: SplatMath, raw: seq<SplatSplit>, b: seq<ONode>, x: nat, idxs: seq<nat>, out: seq<Splat>)
      returns (b2: seq<ONode>, out2: seq<Splat>)
      requires x < |b| && IndicesIn(idxs, |raw|)
      ensures out2 == out + SplitEach(m, raw, idxs)
      ensures b2 == b[x := b[x].(indices := b[x].indices + Range(|out|, |out| + |idxs|))]
    {
      b2, out2 := b, out;
      ghost var c := |out|;
      assert b[x].indices + Range(c, c) == b[x].indices;
      for j := 0 to |idxs|
        invariant b2 == b[x := b[x].(indices := b[x].indices + Range(c, c + j))]
        invariant out2 == out + SplitEach(m, raw, idxs[..j])
      {
        var splat := m.splitToSplat(raw[idxs[j]]);
        out2 := out2 + [splat];
        b2 := b2[x := b2[x].(indices := b2[x].indices + [|out2| - 1])];
        RangeSnoc(c, c + j);
        assert b[x].indices + Range(c, c + j + 1) == b[x].indices + Range(c, c + j) + [c + j];
        assert SplitEach(m, raw, idxs[..j + 1]) == SplitEach(m, raw, idxs[..j]) + [splat];
      }
      assert idxs[..|idxs|] == idxs;
    }
  }

  /** What generate's loop leaves is a stamped arena that keeps the built shape. */
  lemma GenerateEnd(m: SplatMath, raw: seq<SplatSplit>, a0: seq<ONode>, a: seq<ONode>, q: seq<nat>,
                    starts: seq<nat>, up: seq<nat>, maxDepth: nat, maxPer: nat, out: seq<Splat>)
    requires Built(a0, q, starts, up, raw, maxDepth, maxPer) == true && RawIn(a0, q, |raw|)
    requires a == Stamped(a0, q, |q|) && out == Merged(m, raw, a0, q, |q|)
    ensures Built(a, q, starts, up, raw, maxDepth, maxPer) && RawIn(a, q, |raw|)
    ensures StampedFrom(a0, a, q) && out == Merged(m, raw, a, q, |q|)
  {
    assert Layout(a0, q, starts, up);
    StampedAt(a0, q, |q|);
    assert q[..|q|] == q;
    forall x | 0 <= x < |a0| ensures a[x] == a0[x].(indices := a[x].indices) {
      StampedShape(a0, q, |q|, x);
    }
    BuiltKeep(a0, a, q, starts, up, raw, maxDepth, maxPer);
    RawInKeep(a0, a, q, |raw|);
    MergedKeep(m, raw, a0, a, q);
  }

  /** When get_indices' walk ends, it has emitted and dequeued all the whole walk does. */
  lemma WalkEnd(v: View, a: seq<ONode>, q: seq<nat>, starts: seq<nat>, up: seq<nat>, p: nat, w: seq<nat>)
    requires Layout(a, q, starts, up) == true && Walkable(a, q, up) && p <= |q|
    requires w == VisList(v, a, q, up, starts[p]) && |VisList(v, a, q, up, p)| == |w|
    ensures CutSeq(v, a, q, up, |q|) == CutSeq(v, a, q, up, p)
    ensures VisList(v, a, q, up, |q|) == w
  {
    Exhausted(v, a, q, starts, up, p);
    LayoutAhead(a, q, starts, up, p);
    VisListPrefix(v, a, q, up, p, starts[p]);
  }

  /** The queue get_indices leaves names built nodes only. */
  lemma WalkQueue(a: seq<ONode>, q: seq<nat>, starts: seq<nat>, up: seq<nat>,
                  raw: seq<SplatSplit>, maxDepth: nat, maxPer: nat, w: seq<nat>, q0: seq<nat>, qu: seq<nat>)
    requires Built(a, q, starts, up, raw, maxDepth, maxPer) == true && RawIn(a, q0, |raw|)
    requires Rewritten(qu, q0, q, w)
    ensures |qu| == |q0| && RawIn(a, qu, |raw|)
  {
    BuiltRawIn(a, q, starts, up, raw, maxDepth, maxPer);
    forall i | 0 <= i < |qu| ensures qu[i] < |a| && IndicesIn(a[qu[i]].indicesRaw, |raw|) {
      if i < |w| {
        SlotAt(q, w, q0, qu, i);
      } else {
        assert qu[i] == q0[i];
      }
    }
  }

  /** What generate_debug's loops leave keeps the built shape. */
  lemma DebugEnd(m: SplatMath, raw: seq<SplatSplit>, a0: seq<ONode>, a: seq<ONode>, qs: seq<nat>,
                 q: seq<nat>, starts: seq<nat>, up: seq<nat>, maxDepth: nat, maxPer: nat, base: nat)
    requires Built(a0, q, starts, up, raw, maxDepth, maxPer) == true
    requires RawIn(a0, q, |raw|) && RawIn(a0, qs, |raw|)
    requires a == DebugArena(m, raw, a0, qs, |qs|, base)
    ensures Built(a, q, starts, up, raw, maxDepth, maxPer) && RawIn(a, q, |raw|) && RawIn(a, qs, |raw|)
  {
    DebugKeep(m, raw, a0, qs, |qs|, base);
    BuiltKeep(a0, a, q, starts, up, raw, maxDepth, maxPer);
    RawInKeep(a0, a, qs, |raw|);
    RawInKeep(a0, a, q, |raw|);
  }

  /** Changing only node indices keeps RawIn. */
  lemma RawInKeep(a: seq<ONode>, a2: seq<ONode>, q: seq<nat>, n: nat)
    requires RawIn(a, q, n) && |a2| == |a|
    requires forall x :: 0 <= x < |a| ==> a2[x] == a[x].(indices := a2[x].indices)
    ensures RawIn(a2, q, n)
  {
    forall k | 0 <= k < |q| ensures q[k] < |a2| && IndicesIn(a2[q[k]].indicesRaw, n) {
      assert a2[q[k]] == a[q[k]].(indices := a2[q[k]].indices);
    }
  }

  // ---------------------------------------------------------------- generate_debug's specification

  /** Every queued slot is in the arena and names raw indices below n. */
  ghost predicate RawIn(a: seq<ONode>, q: seq<nat>, n: nat) {
    forall k :: 0 <= k < |q| ==> q[k] < |a| && IndicesIn(a[q[k]].indicesRaw, n)
  }

  /** split_to_splat of each raw splat the indices name, in order. */
  function SplitEach(m: SplatMath, raw: seq<SplatSplit>, idxs: seq<nat>): (r: seq<Splat>)
    requires IndicesIn(idxs, |raw|)
  {
    seq(|idxs|, i requires 0 <= i < |idxs| => m.splitToSplat(raw[idxs[i]]))
  }

  /** The splats generate_debug appends for the first n queue entries. */
  ghost function DebugSplats(m: SplatMath, raw: seq<SplatSplit>, a: seq<ONode>, q: seq<nat>, n: nat): seq<Splat>
    requires n <= |q| && RawIn(a, q, |raw|)
  {
    if n == 0 then []
    else DebugSplats(m, raw, a, q, n - 1) + SplitEach(m, raw, a[q[n - 1]].indicesRaw)
  }

  /**
   * The arena once generate_debug has handled the first n queue entries,
   * starting from `base` splats: each entry's node gets the indices of the
   * splats made for it.
   */
  ghost function DebugArena(m: SplatMath, raw: seq<SplatSplit>, a: seq<ONode>, q: seq<nat>, n: nat, base: nat): (r: seq<ONode>)
    requires n <= |q| && RawIn(a, q, |raw|)
    ensures |r| == |a|
  {
    if n == 0 then a
    else
      var b := DebugArena(m, raw, a, q, n - 1, base);
      var x := q[n - 1];
      var c := base + DebugCount(a, q, n - 1);
      b[x := b[x].(indices := b[x].indices + Range(c, c + |a[x].indicesRaw|))]
  }

  /** How many splats generate_debug makes for the first n queue entries: one per raw index. */
  ghost function DebugCount(a: seq<ONode>, q: seq<nat>, n: nat): nat
    requires n <= |q|
  {
    if n == 0 then 0
    else DebugCount(a, q, n - 1) + (if q[n - 1] < |a| then |a[q[n - 1]].indicesRaw| else 0)
  }

  /** The splats made for the first n entries number DebugCount. */
  lemma {:induction false} DebugSplatsCount(m: SplatMath, raw: seq<SplatSplit>, a: seq<ONode>, q: seq<nat>, n: nat)
    requires n <= |q| && RawIn(a, q, |raw|)
    ensures |DebugSplats(m, raw, a, q, n)| == DebugCount(a, q, n)
  {
    if n > 0 {
      DebugSplatsCount(m, raw, a, q, n - 1);
    }
  }

  /**
   * The (n+1)-th queue entry of generate_debug, from the arena b and the
   * splats out after n entries: its node gets the next |indicesRaw| splat
   * indices and the splats of its raw indices are appended.
   */
  lemma DebugStep(m: SplatMath, raw: seq<SplatSplit>, a: seq<ONode>, q: seq<nat>, n: nat, s0: seq<Splat>,
                  b: seq<ONode>, out: seq<Splat>)
    requires n < |q| && RawIn(a, q, |raw|)
    requires b == DebugArena(m, raw, a, q, n, |s0|) && out == s0 + DebugSplats(m, raw, a, q, n)
    ensures q[n] < |b| && IndicesIn(b[q[n]].indicesRaw, |raw|)
    ensures DebugArena(m, raw, a, q, n + 1, |s0|) ==
            b[q[n] := b[q[n]].(indices := b[q[n]].indices + Range(|out|, |out| + |b[q[n]].indicesRaw|))]
    ensures s0 + DebugSplats(m, raw, a, q, n + 1) == out + SplitEach(m, raw, b[q[n]].indicesRaw)
  {
    DebugArenaRaw(m, raw, a, q, n, |s0|, q[n]);
    DebugSplatsCount(m, raw, a, q, n);
    var d, e := DebugSplats(m, raw, a, q, n), SplitEach(m, raw, a[q[n]].indicesRaw);
    assert DebugSplats(m, raw, a, q, n + 1) == d + e;
    assert s0 + (d + e) == s0 + d + e;
  }

  /** generate_debug changes only the indices field of a node. */
  lemma {:induction false} DebugArenaRaw(m: SplatMath, raw: seq<SplatSplit>, a: seq<ONode>, q: seq<nat>, n: nat, base: nat, x: nat)
    requires n <= |q| && RawIn(a, q, |raw|) && x < |a|
    ensures DebugArena(m, raw, a, q, n, base)[x] == a[x].(indices := DebugArena(m, raw, a, q, n, base)[x].indices)
  {
    if n > 0 {
      DebugArenaRaw(m, raw, a, q, n - 1, base, x);
    }
  }

  /** generate_debug keeps the built shape. */
  lemma DebugKeep(m: SplatMath, raw: seq<SplatSplit>, a: seq<ONode>, q: seq<nat>, n: nat, base: nat)
    requires n <= |q| && RawIn(a, q, |raw|)
    ensures forall x :: 0 <= x < |a| ==>
      DebugArena(m, raw, a, q, n, base)[x] == a[x].(indices := DebugArena(m, raw, a, q, n, base)[x].indices)
  {
    forall x | 0 <= x < |a|
      ensures DebugArena(m, raw, a, q, n, base)[x] == a[x].(indices := DebugArena(m, raw, a, q, n, base)[x].indices)
    {
      DebugArenaRaw(m, raw, a, q, n, base, x);
    }
  }

  /** The splats appended for earlier entries stay where they are. */
  lemma {:induction false} DebugSplatsPrefix(m: SplatMath, raw: seq<SplatSplit>, a: seq<ONode>, q: seq<nat>, n: nat, l: nat)
    requires n <= l <= |q| && RawIn(a, q, |raw|)
    ensures |DebugSplats(m, raw, a, q, n)| <= |DebugSplats(m, raw, a, q, l)|
    ensures DebugSplats(m, raw, a, q, l)[..|DebugSplats(m, raw, a, q, n)|] == DebugSplats(m, raw, a, q, n)
    decreases l - n
  {
    if n < l {
      DebugSplatsPrefix(m, raw, a, q, n, l - 1);
    }
  }

  /** Slots no handled entry names keep their node. */
  lemma {:induction false} DebugUntouched(m: SplatMath, raw: seq<SplatSplit>, a: seq<ONode>, q: seq<nat>, n: nat, base: nat, x: nat)
    requires n <= |q| && RawIn(a, q, |raw|) && x < |a| && forall i :: 0 <= i < n ==> q[i] != x
    ensures DebugArena(m, raw, a, q, n, base)[x] == a[x]
  {
    if n > 0 {
      DebugUntouched(m, raw, a, q, n - 1, base, x);
    }
  }

  /**
   * With distinct queue entries, the node of entry j ends up with its old
   * indices followed by one new index per raw index, numbered from where the
   * splats of entry j begin (DebugSplatAt says which splat each addresses),
   * and nothing else about it changes.
   */
  lemma DebugAddresses(m: SplatMath, raw: seq<SplatSplit>, a: seq<ONode>, q: seq<nat>, n: nat, base: nat, j: nat)
    requires n <= |q| && RawIn(a, q, |raw|) && Distinct(q) && j < n
    ensures var c := base + DebugCount(a, q, j);
      DebugArena(m, raw, a, q, n, base)[q[j]] == a[q[j]].(indices := a[q[j]].indices + Range(c, c + |a[q[j]].indicesRaw|))
  {
    DebugEntry(m, raw, a, q, j, base);
    var c := base + DebugCount(a, q, j);
    DebugLater(m, raw, a, q, j + 1, n, base, q[j], a[q[j]].(indices := a[q[j]].indices + Range(c, c + |a[q[j]].indicesRaw|)));
  }

  /** Handling entry p, whose slot no earlier entry names, appends the next splat indices to its node's indices. */
  lemma DebugEntry(m: SplatMath, raw: seq<SplatSplit>, a: seq<ONode>, q: seq<nat>, p: nat, base: nat)
    requires p < |q| && RawIn(a, q, |raw|) && Distinct(q)
    ensures var b, c := a[q[p]], base + DebugCount(a, q, p);
      DebugArena(m, raw, a, q, p + 1, base)[q[p]] == b.(indices := b.indices + Range(c, c + |b.indicesRaw|))
  {
    DebugUntouched(m, raw, a, q, p, base, q[p]);
  }

  /** Entries lo .. n - 1 name other slots than y, so they leave its node alone. */
  lemma {:induction false} DebugLater(m: SplatMath, raw: seq<SplatSplit>, a: seq<ONode>, q: seq<nat>, lo: nat, n: nat, base: nat,
                                      y: nat, node: ONode)
    requires lo <= n <= |q| && RawIn(a, q, |raw|) && y < |a| && forall i :: lo <= i < n ==> q[i] != y
    requires DebugArena(m, raw, a, q, lo, base)[y] == node
    ensures DebugArena(m, raw, a, q, n, base)[y] == node
    decreases n
  {
    if n != lo {
      DebugLater(m, raw, a, q, lo, n - 1, base, y, node);
    }
  }

  /** The i-th splat made for entry j is split_to_splat of that node's i-th raw splat. */
  lemma DebugSplatAt(m: SplatMath, raw: seq<SplatSplit>, a: seq<ONode>, q: seq<nat>, j: nat, i: nat)
    requires j < |q| && RawIn(a, q, |raw|) && i < |a[q[j]].indicesRaw|
    ensures DebugCount(a, q, j) + i < |DebugSplats(m, raw, a, q, |q|)|
    ensures DebugSplats(m, raw, a, q, |q|)[DebugCount(a, q, j) + i] == m.splitToSplat(raw[a[q[j]].indicesRaw[i]])
  {
    DebugSplatsPrefix(m, raw, a, q, j + 1, |q|);
    DebugSplatsCount(m, raw, a, q, j);
  }
}
