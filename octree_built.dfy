/**
 * What Octree::build guarantees of the nodes its queue holds once the
 * collapse pass is done: none keeps a single child, each respects the depth
 * bound and holds raw indices whose positions lie in its box, a node was
 * split exactly when it was above the depth bound and over the per-node
 * limit, its children's raw indices partition its own, and the root holds
 * every raw index once.
 */
module OctreeBuilt {
  import opened Common
  import opened Splats
  import opened OctreeNodes
  import opened OctreeShape
  import opened OctreeCollapse

  /** The facts of one reachable node x of the collapsed arena a. */
  ghost predicate NodeBuilt(a: seq<ONode>, raw: seq<SplatSplit>, maxDepth: nat, maxPer: nat, x: nat)
    requires x < |a|
  {
    |a[x].children| != 1 && a[x].depth <= maxDepth &&
    IndicesIn(a[x].indicesRaw, |raw|) && InBox(raw, a[x]) &&
    (a[x].children != [] <==> a[x].depth < maxDepth && |a[x].indicesRaw| > maxPer)
  }

  /** The children of node x hold, together, exactly the raw indices of x. */
  ghost predicate Partitioned(a: seq<ONode>, x: nat)
    requires x < |a|
  {
    var cs := a[x].children;
    cs != [] ==> (forall i :: 0 <= i < |cs| ==> cs[i] < |a|) && ChildBag(a, cs, |cs|) == multiset(a[x].indicesRaw)
  }

  /** Every reachable node satisfies NodeBuilt. */
  ghost predicate AllBuilt(a: seq<ONode>, q: seq<nat>, raw: seq<SplatSplit>, maxDepth: nat, maxPer: nat) {
    forall k {:trigger NodeBuilt(a, raw, maxDepth, maxPer, q[k])} :: 0 <= k < |q| && q[k] < |a| ==>
      NodeBuilt(a, raw, maxDepth, maxPer, q[k])
  }

  /** Every reachable node is Partitioned. */
  ghost predicate AllPartitioned(a: seq<ONode>, q: seq<nat>) {
    forall k {:trigger Partitioned(a, q[k])} :: 0 <= k < |q| && q[k] < |a| ==> Partitioned(a, q[k])
  }

  /** The state build leaves: a breadth-first layout whose nodes satisfy NodeBuilt and Partitioned. */
  ghost predicate Built(a: seq<ONode>, q: seq<nat>, starts: seq<nat>, up: seq<nat>,
                        raw: seq<SplatSplit>, maxDepth: nat, maxPer: nat)
  {
    Layout(a, q, starts, up) &&
    multiset(a[0].indicesRaw) == multiset(Range(0, |raw|)) &&
    AllBuilt(a, q, raw, maxDepth, maxPer) && AllPartitioned(a, q)
  }

  /** Following a single-child chain keeps the raw indices, as a multiset. */
  lemma {:induction false} ChainBag(g: seq<ONode>, par: seq<nat>, code: seq<nat>, raw: seq<SplatSplit>,
                                    maxDepth: nat, maxPer: nat, x: nat)
    requires Grown(g, par, code, raw, maxDepth, maxPer, |g|) && x < |g|
    ensures multiset(g[Chase(g, x)].indicesRaw) == multiset(g[x].indicesRaw)
    decreases |g| - x
  {
    if |g[x].children| == 1 {
      var c := g[x].children[0];
      assert SplitOk(g, raw, maxDepth, maxPer, x);
      assert ChildBag(g, g[x].children, 1) == multiset(g[c].indicesRaw);
      ChainBag(g, par, code, raw, maxDepth, maxPer, c);
    }
  }

  /** A collapsed node holds the node its chain ends at, which the split loop has dequeued. */
  lemma NodeFromGrown(g: seq<ONode>, par: seq<nat>, code: seq<nat>, raw: seq<SplatSplit>,
                      maxDepth: nat, maxPer: nat, a: seq<ONode>, x: nat)
    requires Grown(g, par, code, raw, maxDepth, maxPer, |g|) && |a| == |g| && x < |g|
    requires a[x] == g[Chase(g, x)]
    ensures NodeBuilt(a, raw, maxDepth, maxPer, x) && a[x].indices == []
  {
    var e := Chase(g, x);
    assert NodeOk(g, raw, maxDepth, e) && SplitOk(g, raw, maxDepth, maxPer, e);
  }

  /** The children of a collapsed node hold what the children of its chain's end held. */
  lemma PartitionFromGrown(g: seq<ONode>, par: seq<nat>, code: seq<nat>, raw: seq<SplatSplit>,
                           maxDepth: nat, maxPer: nat, a: seq<ONode>, q: seq<nat>, starts: seq<nat>, up: seq<nat>, k: nat)
    requires Grown(g, par, code, raw, maxDepth, maxPer, |g|) && |a| == |g|
    requires Layout(a, q, starts, up) == true && k < |q|
    requires forall j :: 0 <= j < |q| ==> a[q[j]] == g[Chase(g, q[j])]
    ensures Partitioned(a, q[k])
  {
    var x := q[k];
    var e := Chase(g, x);
    var cs := a[x].children;
    if cs != [] {
      assert SplitOk(g, raw, maxDepth, maxPer, e);
      forall i | 0 <= i < |cs| ensures multiset(a[cs[i]].indicesRaw) == multiset(g[cs[i]].indicesRaw) {
        assert HoldsAt(q, starts[k] + i, |q|, cs[i]);
        ChainBag(g, par, code, raw, maxDepth, maxPer, cs[i]);
      }
      ChildBagFrame(g, cs, a, cs, |cs|);
    }
  }

  /**
   * Split then collapse gives a Built arena: the collapse's ends-of-chains
   * carry the facts the split loop established, and chains keep raw bags.
   */
  lemma {:induction false} BuildShape(g: seq<ONode>, par: seq<nat>, code: seq<nat>, raw: seq<SplatSplit>,
                                      maxDepth: nat, maxPer: nat, a: seq<ONode>, q: seq<nat>, starts: seq<nat>, up: seq<nat>)
    requires Grown(g, par, code, raw, maxDepth, maxPer, |g|)
    requires |a| == |g| && Layout(a, q, starts, up) == true
    requires forall k :: 0 <= k < |q| ==> a[q[k]] == g[Chase(g, q[k])]
    ensures Built(a, q, starts, up, raw, maxDepth, maxPer)
    ensures forall k :: 0 <= k < |q| ==> a[q[k]].indices == []
  {
    forall k | 0 <= k < |q| ensures NodeBuilt(a, raw, maxDepth, maxPer, q[k]) && Partitioned(a, q[k]) && a[q[k]].indices == [] {
      NodeFromGrown(g, par, code, raw, maxDepth, maxPer, a, q[k]);
      PartitionFromGrown(g, par, code, raw, maxDepth, maxPer, a, q, starts, up, k);
    }
    assert q[0] == 0;
    ChainBag(g, par, code, raw, maxDepth, maxPer, 0);
  }
}
