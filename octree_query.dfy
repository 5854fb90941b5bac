/**
 * The screen-area query of Octree::get_indices over a breadth-first layout:
 * a walk from the root that stops at a leaf or at a node whose box covers
 * less than the minimum screen area, and emits the node's splat indices
 * there. Positions are indices into the layout's queue; `up[p]` is the
 * position whose children include p.
 */
module OctreeQuery {
  import opened Common
  import opened BoundingBox
  import opened Splats
  import opened OctreeNodes
  import opened OctreeShape
  import opened OctreeCollapse
  import opened OctreeBuilt

  /** The camera as get_indices sees it: BB::screen_area for that camera, and min_screen_area. */
  datatype View = View(screenArea: Box -> real, minScreenArea: real)

  /** The query emits node n and does not descend: n is a leaf or too small on screen. */
  predicate Stops(v: View, n: ONode) {
    IsLeaf(n) || v.screenArea(n.bb) < v.minScreenArea
  }

  /** The part of a layout the walk needs: slots inside the arena, each position's parent before it. */
  ghost predicate Walkable(a: seq<ONode>, q: seq<nat>, up: seq<nat>) {
    q != [] && |up| == |q| && (forall j :: 0 <= j < |q| ==> q[j] < |a|) &&
    (forall j :: 1 <= j < |q| ==> up[j] < j)
  }

  lemma LayoutWalkable(a: seq<ONode>, q: seq<nat>, starts: seq<nat>, up: seq<nat>)
    requires Layout(a, q, starts, up) == true
    ensures Walkable(a, q, up)
  {
  }

  /** The walk reaches position p: p is the root, or its parent is reached and does not stop. */
  ghost predicate Visited(v: View, a: seq<ONode>, q: seq<nat>, up: seq<nat>, p: nat)
    requires Walkable(a, q, up) && p < |q|
    decreases p
  {
    p == 0 || (Visited(v, a, q, up, up[p]) && !Stops(v, a[q[up[p]]]))
  }

  /** The walk emits position p: it reaches p and stops there. */
  ghost predicate Emitted(v: View, a: seq<ONode>, q: seq<nat>, up: seq<nat>, p: nat)
    requires Walkable(a, q, up) && p < |q|
  {
    Visited(v, a, q, up, p) && Stops(v, a[q[p]])
  }

  /** The splat indices the walk emits from the first n positions, in queue order. */
  ghost function CutSeq(v: View, a: seq<ONode>, q: seq<nat>, up: seq<nat>, n: nat): seq<nat>
    requires Walkable(a, q, up) && n <= |q|
  {
    if n == 0 then []
    else CutSeq(v, a, q, up, n - 1) + (if Emitted(v, a, q, up, n - 1) then a[q[n - 1]].indices else [])
  }

  /** The emitted positions among the first n, increasing. */
  ghost function EmitList(v: View, a: seq<ONode>, q: seq<nat>, up: seq<nat>, n: nat): seq<nat>
    requires Walkable(a, q, up) && n <= |q|
  {
    if n == 0 then []
    else EmitList(v, a, q, up, n - 1) + (if Emitted(v, a, q, up, n - 1) then [n - 1] else [])
  }

  /** The emitted positions among the first n lie below n. */
  lemma {:induction false} EmitListBelow(v: View, a: seq<ONode>, q: seq<nat>, up: seq<nat>, n: nat)
    requires Walkable(a, q, up) && n <= |q|
    ensures forall i :: 0 <= i < |EmitList(v, a, q, up, n)| ==> EmitList(v, a, q, up, n)[i] < n
  {
    if n > 0 {
      EmitListBelow(v, a, q, up, n - 1);
    }
  }

  /** The reached positions among the first n, increasing: the order the walk dequeues them. */
  ghost function VisList(v: View, a: seq<ONode>, q: seq<nat>, up: seq<nat>, n: nat): (r: seq<nat>)
    requires Walkable(a, q, up) && n <= |q|
    ensures |r| <= n
  {
    if n == 0 then []
    else VisList(v, a, q, up, n - 1) + (if Visited(v, a, q, up, n - 1) then [n - 1] else [])
  }

  /** The reached positions among the first n lie below n. */
  lemma {:induction false} VisListBelow(v: View, a: seq<ONode>, q: seq<nat>, up: seq<nat>, n: nat)
    requires Walkable(a, q, up) && n <= |q|
    ensures forall i :: 0 <= i < |VisList(v, a, q, up, n)| ==> VisList(v, a, q, up, n)[i] < n
  {
    if n > 0 {
      VisListBelow(v, a, q, up, n - 1);
    }
  }

  // ---------------------------------------------------------------- the layout's children ranges

  /** The children ranges follow one another. */
  lemma {:induction false} StartsMono(a: seq<ONode>, q: seq<nat>, starts: seq<nat>, up: seq<nat>, k: nat, l: nat)
    requires Layout(a, q, starts, up) == true && k <= l <= |q|
    ensures starts[k] <= starts[l]
    decreases l - k
  {
    if k < l {
      StartsMono(a, q, starts, up, k + 1, l);
      assert starts[k + 1] == starts[k] + |a[q[k]].children|;
    }
  }

  /** The position whose children range holds j is up[j]. */
  lemma UpIs(a: seq<ONode>, q: seq<nat>, starts: seq<nat>, up: seq<nat>, p: nat, j: nat)
    requires Layout(a, q, starts, up) == true && p < |q| && starts[p] <= j < starts[p + 1]
    ensures 1 <= j < |q| && up[j] == p
  {
    StartsMono(a, q, starts, up, 0, p);
    if up[j] < p {
      StartsMono(a, q, starts, up, up[j] + 1, p);
    } else if up[j] > p {
      StartsMono(a, q, starts, up, p + 1, up[j]);
    }
  }

  /**
   * The children range of position p: the children of q[p] sit, in order,
   * at positions starts[p] .. starts[p + 1], each with up == p.
   */
  ghost predicate Family(a: seq<ONode>, q: seq<nat>, starts: seq<nat>, up: seq<nat>, p: nat) {
    p < |q| && |starts| == |q| + 1 && q[p] < |a| && p < starts[p] <= starts[p + 1] <= |q| && |up| == |q| &&
    starts[p + 1] == starts[p] + |a[q[p]].children| &&
    forall i :: 0 <= i < |a[q[p]].children| ==> q[starts[p] + i] == a[q[p]].children[i] && up[starts[p] + i] == p
  }

  lemma LayoutFamily(a: seq<ONode>, q: seq<nat>, starts: seq<nat>, up: seq<nat>, p: nat)
    requires Layout(a, q, starts, up) == true && p < |q|
    ensures Family(a, q, starts, up, p)
  {
    var cs := a[q[p]].children;
    StartsMono(a, q, starts, up, p, p + 1);
    forall i | 0 <= i < |cs| ensures q[starts[p] + i] == cs[i] && up[starts[p] + i] == p {
      assert HoldsAt(q, starts[p] + i, |q|, cs[i]);
      UpIs(a, q, starts, up, p, starts[p] + i);
    }
  }

  // ---------------------------------------------------------------- the dequeue order

  /** Positions up to m are dequeued after those up to n. */
  lemma {:induction false} VisListPrefix(v: View, a: seq<ONode>, q: seq<nat>, up: seq<nat>, n: nat, m: nat)
    requires Walkable(a, q, up) && n <= m <= |q|
    ensures |VisList(v, a, q, up, n)| <= |VisList(v, a, q, up, m)|
    ensures VisList(v, a, q, up, m)[..|VisList(v, a, q, up, n)|] == VisList(v, a, q, up, n)
    decreases m - n
  {
    if n < m {
      VisListPrefix(v, a, q, up, n, m - 1);
    }
  }

  /** Over a stretch of positions none of which is reached, nothing is dequeued or emitted. */
  lemma {:induction false} NoneReached(v: View, a: seq<ONode>, q: seq<nat>, up: seq<nat>, lo: nat, hi: nat)
    requires Walkable(a, q, up) && lo <= hi <= |q|
    requires forall j :: lo <= j < hi ==> !Visited(v, a, q, up, j)
    ensures VisList(v, a, q, up, hi) == VisList(v, a, q, up, lo)
    ensures CutSeq(v, a, q, up, hi) == CutSeq(v, a, q, up, lo)
    ensures EmitList(v, a, q, up, hi) == EmitList(v, a, q, up, lo)
    decreases hi - lo
  {
    if lo < hi {
      NoneReached(v, a, q, up, lo, hi - 1);
    }
  }

  /** Over a stretch of positions all of which are reached, each is dequeued in turn. */
  lemma {:induction false} AllReached(v: View, a: seq<ONode>, q: seq<nat>, up: seq<nat>, lo: nat, hi: nat)
    requires Walkable(a, q, up) && lo <= hi <= |q|
    requires forall j :: lo <= j < hi ==> Visited(v, a, q, up, j)
    ensures VisList(v, a, q, up, hi) == VisList(v, a, q, up, lo) + Range(lo, hi)
    decreases hi - lo
  {
    if lo < hi {
      AllReached(v, a, q, up, lo, hi - 1);
      RangeSnoc(lo, hi - 1);
    }
  }

  /**
   * Once every reached position below starts[n] is below n, no position from n
   * on is reached: a reached position's parent is reached and sits before it.
   */
  lemma {:induction false} NoneBeyond(v: View, a: seq<ONode>, q: seq<nat>, starts: seq<nat>, up: seq<nat>, n: nat, j: nat)
    requires Layout(a, q, starts, up) == true && n <= j < |q|
    requires forall i :: n <= i < starts[n] ==> !Visited(v, a, q, up, i)
    ensures !Visited(v, a, q, up, j)
    decreases j
  {
    StartsMono(a, q, starts, up, 0, n);
    if starts[n] <= j {
      var p := up[j];
      if p < n {
        StartsMono(a, q, starts, up, p + 1, n);
      } else {
        NoneBeyond(v, a, q, starts, up, n, p);
      }
    }
  }

  /** The walk's queue is exhausted at n when nothing from n on is reached. */
  lemma Exhausted(v: View, a: seq<ONode>, q: seq<nat>, starts: seq<nat>, up: seq<nat>, n: nat)
    requires Layout(a, q, starts, up) == true && n <= |q|
    requires |VisList(v, a, q, up, n)| == |VisList(v, a, q, up, starts[n])|
    ensures VisList(v, a, q, up, |q|) == VisList(v, a, q, up, n)
    ensures CutSeq(v, a, q, up, |q|) == CutSeq(v, a, q, up, n)
    ensures EmitList(v, a, q, up, |q|) == EmitList(v, a, q, up, n)
  {
    if n < |q| {
      forall i | n <= i < starts[n] ensures !Visited(v, a, q, up, i) {
        if Visited(v, a, q, up, i) {
          VisListPrefix(v, a, q, up, n, i);
          VisListPrefix(v, a, q, up, i + 1, starts[n]);
          assert false;
        }
      }
      forall j | n <= j < |q| ensures !Visited(v, a, q, up, j) {
        NoneBeyond(v, a, q, starts, up, n, j);
      }
      NoneReached(v, a, q, up, n, |q|);
    }
  }

  // ---------------------------------------------------------------- every raw index once

  /** The copies of raw index x held by the nodes at positions ps. */
  ghost function PosCount(a: seq<ONode>, q: seq<nat>, ps: seq<nat>, x: nat): nat
  {
    if ps == [] then 0
    else PosCount(a, q, ps[..|ps| - 1], x) + NodeCount(a, q, ps[|ps| - 1], x)
  }

  /** The copies of raw index x held by the node at position p (none outside the queue). */
  ghost function NodeCount(a: seq<ONode>, q: seq<nat>, p: nat, x: nat): nat {
    if p < |q| && q[p] < |a| then multiset(a[q[p]].indicesRaw)[x] else 0
  }

  lemma PosCountSnoc(a: seq<ONode>, q: seq<nat>, ps: seq<nat>, p: nat, x: nat)
    requires p < |q| && q[p] < |a|
    ensures PosCount(a, q, ps + [p], x) == PosCount(a, q, ps, x) + multiset(a[q[p]].indicesRaw)[x]
  {
    assert (ps + [p])[..|ps|] == ps;
  }

  /** The copies of raw index x emitted from the first n positions. */
  ghost function EmitCount(v: View, a: seq<ONode>, q: seq<nat>, up: seq<nat>, n: nat, x: nat): nat
    requires Walkable(a, q, up) && n <= |q|
  {
    if n == 0 then 0
    else EmitCount(v, a, q, up, n - 1, x) + (if Emitted(v, a, q, up, n - 1) then NodeCount(a, q, n - 1, x) else 0)
  }

  /** Counting over the emitted positions is counting position by position. */
  lemma {:induction false} EmitCountIs(v: View, a: seq<ONode>, q: seq<nat>, up: seq<nat>, n: nat, x: nat)
    requires Walkable(a, q, up) && n <= |q|
    ensures PosCount(a, q, EmitList(v, a, q, up, n), x) == EmitCount(v, a, q, up, n, x)
  {
    if n > 0 {
      EmitCountIs(v, a, q, up, n - 1, x);
      EmitCountStep(v, a, q, up, n - 1, x);
    }
  }

  lemma EmitCountStep(v: View, a: seq<ONode>, q: seq<nat>, up: seq<nat>, p: nat, x: nat)
    requires Walkable(a, q, up) && p < |q|
    ensures PosCount(a, q, EmitList(v, a, q, up, p + 1), x) ==
            PosCount(a, q, EmitList(v, a, q, up, p), x) + (if Emitted(v, a, q, up, p) then NodeCount(a, q, p, x) else 0)
  {
    var before := EmitList(v, a, q, up, p);
    if Emitted(v, a, q, up, p) {
      PosCountSnoc(a, q, before, p, x);
    } else {
      assert EmitList(v, a, q, up, p + 1) == before + [] == before;
    }
  }

  /** The copies of raw index x held by the reached positions in [lo, hi). */
  ghost function VisCount(v: View, a: seq<ONode>, q: seq<nat>, up: seq<nat>, lo: nat, hi: nat, x: nat): nat
    requires Walkable(a, q, up) && hi <= |q|
    decreases hi
  {
    if hi <= lo then 0
    else VisCount(v, a, q, up, lo, hi - 1, x) + (if Visited(v, a, q, up, hi - 1) then multiset(a[q[hi - 1]].indicesRaw)[x] else 0)
  }

  lemma {:induction false} VisCountSplit(v: View, a: seq<ONode>, q: seq<nat>, up: seq<nat>, lo: nat, mid: nat, hi: nat, x: nat)
    requires Walkable(a, q, up) && lo <= mid <= hi <= |q|
    ensures VisCount(v, a, q, up, lo, hi, x) == VisCount(v, a, q, up, lo, mid, x) + VisCount(v, a, q, up, mid, hi, x)
    decreases hi
  {
    if mid < hi {
      VisCountSplit(v, a, q, up, lo, mid, hi - 1, x);
    }
  }

  /** The reached children of a reached node that does not stop hold what their parent holds. */
  lemma {:induction false} VisCountChildren(v: View, a: seq<ONode>, q: seq<nat>, starts: seq<nat>, up: seq<nat>,
                                            p: nat, i: nat, x: nat)
    requires Walkable(a, q, up) && Family(a, q, starts, up, p) && i <= |a[q[p]].children|
    ensures starts[p] + i <= |q| && forall c :: 0 <= c < |a[q[p]].children| ==> a[q[p]].children[c] < |a|
    ensures VisCount(v, a, q, up, starts[p], starts[p] + i, x) ==
      if Visited(v, a, q, up, p) && !Stops(v, a[q[p]]) then ChildBag(a, a[q[p]].children, i)[x] else 0
  {
    var cs := a[q[p]].children;
    assert forall c :: 0 <= c < |cs| ==> q[starts[p] + c] == cs[c];
    if i > 0 {
      VisCountChildren(v, a, q, starts, up, p, i - 1, x);
      assert q[starts[p] + (i - 1)] == cs[i - 1] && up[starts[p] + (i - 1)] == p;
    }
  }

  /**
   * The walk's frontier after n positions, counted for one raw index x: the
   * copies of x emitted from the first n positions, plus those held by
   * reached positions still waiting in the queue, are the root's.
   */
  ghost predicate FrontierHolds(v: View, a: seq<ONode>, q: seq<nat>, starts: seq<nat>, up: seq<nat>, n: nat, x: nat) {
    Walkable(a, q, up) && n < |starts| && n <= starts[n] <= |q| &&
    EmitCount(v, a, q, up, n, x) + VisCount(v, a, q, up, n, starts[n], x) ==
    multiset(a[q[0]].indicesRaw)[x]
  }

  /** The frontier count holds after every number of positions. */
  lemma Frontier(v: View, a: seq<ONode>, q: seq<nat>, starts: seq<nat>, up: seq<nat>, n: nat, x: nat)
    requires Layout(a, q, starts, up) == true && AllPartitioned(a, q) && n <= |q|
    ensures FrontierHolds(v, a, q, starts, up, n, x) == true
  {
    FrontierStart(v, a, q, starts, up, x);
    var p := 0;
    while p < n
      invariant p <= n
      invariant FrontierHolds(v, a, q, starts, up, p, x) == true
    {
      FrontierStep(v, a, q, starts, up, p, x);
      p := p + 1;
    }
  }

  /** At the start only the root waits in the queue. */
  lemma FrontierStart(v: View, a: seq<ONode>, q: seq<nat>, starts: seq<nat>, up: seq<nat>, x: nat)
    requires Layout(a, q, starts, up) == true
    ensures FrontierHolds(v, a, q, starts, up, 0, x)
  {
    LayoutWalkable(a, q, starts, up);
    assert VisCount(v, a, q, up, 0, 1, x) == multiset(a[q[0]].indicesRaw)[x];
  }

  /** Dequeuing position p moves its raw indices to the output, or hands them to its children. */
  lemma FrontierStep(v: View, a: seq<ONode>, q: seq<nat>, starts: seq<nat>, up: seq<nat>, p: nat, x: nat)
    requires Layout(a, q, starts, up) == true && AllPartitioned(a, q) && p < |q|
    requires FrontierHolds(v, a, q, starts, up, p, x) == true
    ensures FrontierHolds(v, a, q, starts, up, p + 1, x) == true
  {
    LayoutFamily(a, q, starts, up, p);
    assert Partitioned(a, q[p]);
    FrontierMove(v, a, q, starts, up, p, x);
  }

  lemma FrontierMove(v: View, a: seq<ONode>, q: seq<nat>, starts: seq<nat>, up: seq<nat>, p: nat, x: nat)
    requires Walkable(a, q, up) && Family(a, q, starts, up, p) && Partitioned(a, q[p])
    ensures EmitCount(v, a, q, up, p + 1, x) + VisCount(v, a, q, up, p + 1, starts[p + 1], x) ==
            EmitCount(v, a, q, up, p, x) + VisCount(v, a, q, up, p, starts[p], x)
  {
    var n := p + 1;
    var own := multiset(a[q[p]].indicesRaw)[x];
    VisCountSplit(v, a, q, up, p, n, starts[p], x);
    VisCountSplit(v, a, q, up, n, starts[p], starts[n], x);
    VisCountChildren(v, a, q, starts, up, p, |a[q[p]].children|, x);
    var kids := VisCount(v, a, q, up, starts[p], starts[n], x);
    if Emitted(v, a, q, up, p) {
      assert kids == 0;
    } else if Visited(v, a, q, up, p) {
      assert kids == own;
    } else {
      assert kids == 0;
    }
  }

  /**
   * Over the whole queue the nodes the walk emits hold every raw index
   * exactly once, and nothing else.
   */
  lemma Cover(v: View, a: seq<ONode>, q: seq<nat>, starts: seq<nat>, up: seq<nat>,
              raw: seq<SplatSplit>, maxDepth: nat, maxPer: nat)
    requires Built(a, q, starts, up, raw, maxDepth, maxPer) == true
    ensures Walkable(a, q, up)
    ensures forall x: nat :: PosCount(a, q, EmitList(v, a, q, up, |q|), x) == if x < |raw| then 1 else 0
  {
    LayoutWalkable(a, q, starts, up);
    RangeCount(|raw|);
    forall x: nat ensures PosCount(a, q, EmitList(v, a, q, up, |q|), x) == if x < |raw| then 1 else 0 {
      Frontier(v, a, q, starts, up, |q|, x);
      EmitCountIs(v, a, q, up, |q|, x);
    }
  }

  /** When no node is small on screen, the walk reaches every position and emits exactly the leaves. */
  lemma {:induction false} NothingSmall(v: View, a: seq<ONode>, q: seq<nat>, starts: seq<nat>, up: seq<nat>, p: nat)
    requires Layout(a, q, starts, up) == true && p < |q|
    requires forall k :: 0 <= k < |q| ==> !(v.screenArea(a[q[k]].bb) < v.minScreenArea)
    ensures Walkable(a, q, up)
    ensures Visited(v, a, q, up, p) && (Emitted(v, a, q, up, p) <==> IsLeaf(a[q[p]]))
    decreases p
  {
    LayoutWalkable(a, q, starts, up);
    if p > 0 {
      NothingSmall(v, a, q, starts, up, up[p]);
      assert starts[up[p]] <= p < starts[up[p] + 1];
    }
  }

  /** A node whose splat indices are its own queue position: the walk then emits exactly the emitted positions. */
  lemma {:induction false} CutIsPositions(v: View, a: seq<ONode>, q: seq<nat>, up: seq<nat>, n: nat)
    requires Walkable(a, q, up) && n <= |q|
    requires forall k :: 0 <= k < |q| ==> a[q[k]].indices == [k]
    ensures CutSeq(v, a, q, up, n) == EmitList(v, a, q, up, n)
  {
    if n > 0 {
      CutIsPositions(v, a, q, up, n - 1);
    }
  }

  /** The emitted positions increase, so none is emitted twice. */
  lemma {:induction false} EmitIncreasing(v: View, a: seq<ONode>, q: seq<nat>, up: seq<nat>, n: nat)
    requires Walkable(a, q, up) && n <= |q|
    ensures Increasing(EmitList(v, a, q, up, n))
  {
    if n > 0 {
      EmitIncreasing(v, a, q, up, n - 1);
      EmitListBelow(v, a, q, up, n - 1);
    }
  }
}
