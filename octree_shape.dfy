/**
 * The shape of an octree held in an arena (slot 0 is the root): the tree the
 * split phase grows, the single-child chains the collapse pass follows, the
 * breadth-first layout of the queue after collapse, and the cut that the
 * screen-area query emits.
 */
module OctreeShape {
  import opened Common
  import opened BoundingBox
  import opened Splats
  import opened OctreeNodes

  // ---------------------------------------------------------------- trees

  /** Every child slot lies after its parent and inside the arena. */
  ghost predicate Ordered(t: seq<ONode>) {
    forall p, k {:trigger t[p].children[k]} :: 0 <= p < |t| && 0 <= k < |t[p].children| ==>
      p < t[p].children[k] < |t|
  }

  /**
   * `par` names the parent of every child slot, and each child list is
   * strictly increasing; so every slot has at most one parent.
   */
  ghost predicate Tree(t: seq<ONode>, par: seq<nat>) {
    Ordered(t) && |par| == |t| &&
    (forall p, k {:trigger t[p].children[k]} :: 0 <= p < |t| && 0 <= k < |t[p].children| ==>
      par[t[p].children[k]] == p) &&
    (forall p {:trigger Increasing(t[p].children)} :: 0 <= p < |t| ==> Increasing(t[p].children))
  }

  /** Each value is smaller than every later one. */
  ghost predicate Increasing(s: seq<nat>) {
    forall k, l :: 0 <= k < l < |s| ==> s[k] < s[l]
  }

  /** The node the collapse pass ends at from x: follow only children until a node has none or several. */
  ghost function Chase(t: seq<ONode>, x: nat): (e: nat)
    requires Ordered(t) && x < |t|
    ensures x <= e < |t| && |t[e].children| != 1
    decreases |t| - x
  {
    if |t[x].children| == 1 then Chase(t, t[x].children[0]) else x
  }

  /** x is reached from a by following only children. */
  ghost predicate OnChain(t: seq<ONode>, a: nat, x: nat)
    requires Ordered(t) && a < |t|
    decreases |t| - a
  {
    x == a || (|t[a].children| == 1 && OnChain(t, t[a].children[0], x))
  }

  lemma {:induction false} ChaseOnChain(t: seq<ONode>, a: nat)
    requires Ordered(t) && a < |t|
    ensures OnChain(t, a, Chase(t, a))
    decreases |t| - a
  {
    if |t[a].children| == 1 {
      ChaseOnChain(t, t[a].children[0]);
    }
  }

  lemma {:induction false} ChainAfter(t: seq<ONode>, a: nat, x: nat)
    requires Ordered(t) && a < |t| && OnChain(t, a, x)
    ensures a <= x
    decreases |t| - a
  {
    if x != a {
      ChainAfter(t, t[a].children[0], x);
    }
  }

  /** The parent of a node strictly down a chain from a is itself on the chain and has one child. */
  lemma {:induction false} ChainParent(t: seq<ONode>, par: seq<nat>, a: nat, b: nat)
    requires Tree(t, par) && a < b < |t| && OnChain(t, a, b)
    ensures a <= par[b] < b && |t[par[b]].children| == 1
    decreases |t| - a
  {
    var d := t[a].children[0];
    if d != b {
      ChainAfter(t, d, b);
      ChainParent(t, par, d, b);
    }
  }

  /** Two chains that reach the same node are nested: the earlier start leads to the later one. */
  lemma {:induction false} ChainsMeet(t: seq<ONode>, par: seq<nat>, a: nat, b: nat, e: nat)
    requires Tree(t, par) && a < b < |t| && OnChain(t, a, e) && OnChain(t, b, e)
    ensures OnChain(t, a, b)
    decreases |t| - a
  {
    ChainAfter(t, b, e);
    var d := t[a].children[0];
    if d < b {
      ChainsMeet(t, par, d, b, e);
    } else if d > b {
      ChainsMeet(t, par, b, d, e);
      ChainParent(t, par, b, d);
      assert false;
    }
  }

  /** One more step down a chain stays on it. */
  lemma {:induction false} ChainStep(t: seq<ONode>, a: nat, x: nat)
    requires Ordered(t) && a < |t| && x < |t| && OnChain(t, a, x) && |t[x].children| == 1
    ensures OnChain(t, a, t[x].children[0])
    decreases |t| - a
  {
    if x != a {
      ChainStep(t, t[a].children[0], x);
    }
  }

  /** Every node on the chain from a ends where a ends. */
  lemma {:induction false} ChaseAlong(t: seq<ONode>, a: nat, x: nat)
    requires Ordered(t) && a < |t| && OnChain(t, a, x)
    ensures x < |t| && Chase(t, x) == Chase(t, a)
    decreases |t| - a
  {
    if x != a {
      ChaseAlong(t, t[a].children[0], x);
    }
  }

  /** A slot the collapse pass can dequeue: the root, or a child of a node that does not have one child. */
  ghost predicate Head(t: seq<ONode>, par: seq<nat>, x: nat)
    requires |par| == |t| && x < |t|
  {
    x == 0 || (par[x] < |t| && |t[par[x]].children| != 1)
  }

  /** Distinct heads end at distinct nodes. */
  lemma ChaseDistinct(t: seq<ONode>, par: seq<nat>, a: nat, b: nat)
    requires Tree(t, par) && a < |t| && b < |t| && Head(t, par, a) && Head(t, par, b) && a != b
    ensures Chase(t, a) != Chase(t, b)
  {
    if a < b {
      HeadsApart(t, par, a, b);
    } else {
      HeadsApart(t, par, b, a);
    }
  }

  lemma HeadsApart(t: seq<ONode>, par: seq<nat>, a: nat, b: nat)
    requires Tree(t, par) && a < b < |t| && Head(t, par, b)
    ensures Chase(t, a) != Chase(t, b)
  {
    var e := Chase(t, a);
    ChaseOnChain(t, a);
    ChaseOnChain(t, b);
    if e == Chase(t, b) {
      ChainsMeet(t, par, a, b, e);
      ChainParent(t, par, a, b);
    }
  }

  // ---------------------------------------------------------------- bags and potential

  /** The raw indices held by the nodes at the first n slots of `cs`, with multiplicity. */
  ghost function ChildBag(t: seq<ONode>, cs: seq<nat>, n: nat): multiset<nat>
    requires n <= |cs| && forall k :: 0 <= k < |cs| ==> cs[k] < |t|
  {
    if n == 0 then multiset{} else ChildBag(t, cs, n - 1) + multiset(t[cs[n - 1]].indicesRaw)
  }

  /** ChildBag only looks at the raw-index multisets of the slots it names. */
  lemma {:induction false} ChildBagFrame(t: seq<ONode>, cs: seq<nat>, u: seq<ONode>, ds: seq<nat>, n: nat)
    requires n <= |cs| && forall k :: 0 <= k < |cs| ==> cs[k] < |t|
    requires n <= |ds| && forall k :: 0 <= k < |ds| ==> ds[k] < |u|
    requires forall k :: 0 <= k < n ==> multiset(u[ds[k]].indicesRaw) == multiset(t[cs[k]].indicesRaw)
    ensures ChildBag(u, ds, n) == ChildBag(t, cs, n)
  {
    if n > 0 {
      ChildBagFrame(t, cs, u, ds, n - 1);
    }
  }

  /** The raw indices held by the n consecutive slots from lo, with multiplicity. */
  ghost function SlotBag(t: seq<ONode>, lo: nat, n: nat): multiset<nat>
    requires lo + n <= |t|
  {
    if n == 0 then multiset{} else SlotBag(t, lo, n - 1) + multiset(t[lo + n - 1].indicesRaw)
  }

  /** SlotBag of slots below the end of a common prefix does not see what follows. */
  lemma {:induction false} SlotBagPrefix(t: seq<ONode>, u: seq<ONode>, lo: nat, n: nat)
    requires lo + n <= |t| <= |u| && t == u[..|t|]
    ensures SlotBag(u, lo, n) == SlotBag(t, lo, n)
  {
    if n > 0 {
      SlotBagPrefix(t, u, lo, n - 1);
    }
  }

  /** Over a range of slots, ChildBag is SlotBag. */
  lemma {:induction false} ChildBagRange(t: seq<ONode>, lo: nat, n: nat)
    requires lo + n <= |t|
    ensures ChildBag(t, Range(lo, lo + n), n) == SlotBag(t, lo, n)
  {
    if n > 0 {
      var cs := Range(lo, lo + n);
      ChildBagRange(t, lo, n - 1);
      ChildBagFrame(t, Range(lo, lo + n - 1), t, cs, n - 1);
    }
  }

  /** a added to itself k times: the potential is kept free of multiplication. */
  function Rep(a: nat, k: nat): nat
  {
    if k == 0 then 0 else a + Rep(a, k - 1)
  }

  lemma {:induction false} RepAdd(a: nat, b: nat, k: nat)
    ensures Rep(a + b, k) == Rep(a, k) + Rep(b, k)
  {
    if k > 0 {
      RepAdd(a, b, k - 1);
    }
  }

  lemma {:induction false} RepZero(k: nat)
    ensures Rep(0, k) == 0
  {
    if k > 0 {
      RepZero(k - 1);
    }
  }

  /**
   * What a node still owes the split loop: each raw index it holds may be
   * pushed down once per level left above the depth bound.
   */
  function PotNode(n: ONode, maxDepth: nat): nat
  {
    if n.depth <= maxDepth then Rep(|n.indicesRaw|, maxDepth + 1 - n.depth) else 0
  }

  /** The potential of the slots from `from` on. */
  function Pot(t: seq<ONode>, from: nat, maxDepth: nat): nat
    decreases |t| - from
  {
    if from >= |t| then 0 else PotNode(t[from], maxDepth) + Pot(t, from + 1, maxDepth)
  }

  lemma {:induction false} PotSnoc(t: seq<ONode>, n: ONode, from: nat, maxDepth: nat)
    requires from <= |t|
    ensures Pot(t + [n], from, maxDepth) == Pot(t, from, maxDepth) + PotNode(n, maxDepth)
    decreases |t| - from
  {
    if from < |t| {
      PotSnoc(t, n, from + 1, maxDepth);
      assert (t + [n])[from] == t[from];
    } else {
      assert (t + [n])[from] == n;
    }
  }

  lemma {:induction false} PotFrame(t: seq<ONode>, u: seq<ONode>, from: nat, maxDepth: nat)
    requires |t| == |u| && forall k :: from <= k < |t| ==> u[k] == t[k]
    ensures Pot(u, from, maxDepth) == Pot(t, from, maxDepth)
    decreases |t| - from
  {
    if from < |t| {
      PotFrame(t, u, from + 1, maxDepth);
    }
  }

  // ---------------------------------------------------------------- the grown tree

  /** Every raw index of node n names an input splat whose position lies in n's box. */
  ghost predicate InBox(raw: seq<SplatSplit>, n: ONode) {
    forall x :: x in n.indicesRaw ==> x < |raw| && Within(raw[x].position, Min(n.bb), Max(n.bb))
  }

  /** Facts of every node the split loop makes: no splat indices yet, depth bound, box. */
  ghost predicate NodeOk(t: seq<ONode>, raw: seq<SplatSplit>, maxDepth: nat, k: nat)
    requires k < |t|
  {
    t[k].indices == [] && t[k].depth <= maxDepth &&
    IndicesIn(t[k].indicesRaw, |raw|) && InBox(raw, t[k])
  }

  /**
   * The octant-i child the split makes of node n: one level deeper, its box
   * n's box halved on that side, its raw indices that octant's bucket of
   * n's, in order; no splat indices and no children yet.
   */
  function ChildNode(raw: seq<SplatSplit>, n: ONode, i: nat): ONode
    requires IndicesIn(n.indicesRaw, |raw|) && i < 8
  {
    var c := Center(n.bb);
    ONode(n.depth + 1, ChildBox(n.bb, c, i), [], Bucket(raw, n.indicesRaw, c, i), [])
  }

  /** A node with its children list emptied: what the split made before attaching children. */
  function Bare(n: ONode): ONode {
    n.(children := [])
  }

  /**
   * The children a split makes from the first i buckets `bs` of a node at
   * depth d whose child boxes are `boxes`: one per non-empty bucket, in
   * octant order, one level deeper, with that octant's box and bucket.
   */
  function Kids(d: nat, boxes: seq<Box>, bs: seq<seq<nat>>, i: nat): (kids: seq<ONode>)
    requires i <= |bs| && i <= |boxes|
  {
    if i == 0 then []
    else if bs[i - 1] == [] then Kids(d, boxes, bs, i - 1)
    else Kids(d, boxes, bs, i - 1) + [ONode(d + 1, boxes[i - 1], [], bs[i - 1], [])]
  }

  /** The octant of each child Kids makes. */
  function Codes(bs: seq<seq<nat>>, i: nat): (codes: seq<nat>)
    requires i <= |bs|
  {
    if i == 0 then []
    else if bs[i - 1] == [] then Codes(bs, i - 1)
    else Codes(bs, i - 1) + [i - 1]
  }

  /** Kids and Codes line up: child j is made from bucket Codes[j], and the codes increase. */
  lemma {:induction false} KidAt(d: nat, boxes: seq<Box>, bs: seq<seq<nat>>, i: nat, j: nat)
    requires i <= |bs| && i <= |boxes|
    ensures |Kids(d, boxes, bs, i)| == |Codes(bs, i)|
    ensures j < |Codes(bs, i)| ==>
      var code := Codes(bs, i)[j];
      code < i && bs[code] != [] &&
      Kids(d, boxes, bs, i)[j] == ONode(d + 1, boxes[code], [], bs[code], [])
  {
    if i > 0 {
      KidAt(d, boxes, bs, i - 1, j);
    }
  }

  /** The codes of Kids strictly increase. */
  lemma {:induction false} CodesIncrease(bs: seq<seq<nat>>, i: nat)
    requires i <= |bs|
    ensures forall j :: 0 <= j < |Codes(bs, i)| ==> Codes(bs, i)[j] < i
    ensures forall j, l :: 0 <= j < l < |Codes(bs, i)| ==> Codes(bs, i)[j] < Codes(bs, i)[l]
  {
    if i > 0 {
      CodesIncrease(bs, i - 1);
    }
  }

  /** A non-root node is the non-empty octant `code[k]` child of its parent, made before it. */
  ghost predicate ChildOk(t: seq<ONode>, par: seq<nat>, code: seq<nat>, raw: seq<SplatSplit>, k: nat)
    requires k < |t| && |par| == |t| && |code| == |t|
  {
    0 < k ==>
      par[k] < k && code[k] < 8 && IndicesIn(t[par[k]].indicesRaw, |raw|) &&
      Bare(t[k]) == ChildNode(raw, Bare(t[par[k]]), code[k]) && t[k].indicesRaw != []
  }

  /**
   * A node the split loop has dequeued: it was split exactly when it is
   * above the depth bound and holds more than the per-node limit, and then
   * its children's raw indices partition its own.
   */
  ghost predicate SplitOk(t: seq<ONode>, raw: seq<SplatSplit>, maxDepth: nat, maxPer: nat, k: nat)
    requires Ordered(t) && k < |t|
  {
    (t[k].children != [] <==> t[k].depth < maxDepth && |t[k].indicesRaw| > maxPer) &&
    (t[k].children != [] ==> ChildBag(t, t[k].children, |t[k].children|) == multiset(t[k].indicesRaw))
  }

  /**
   * The shape the split loop keeps: a tree whose root holds every raw index
   * at depth 0, whose nodes satisfy NodeOk and ChildOk, and whose children
   * lists have increasing octant codes.
   */
  ghost predicate GrownTree(t: seq<ONode>, par: seq<nat>, code: seq<nat>, raw: seq<SplatSplit>, maxDepth: nat)
  {
    t != [] && Tree(t, par) && |code| == |t| &&
    t[0].depth == 0 && t[0].indicesRaw == Range(0, |raw|) &&
    (forall k :: 0 <= k < |t| ==> NodeOk(t, raw, maxDepth, k) && ChildOk(t, par, code, raw, k)) &&
    (forall p, i, j {:trigger t[p].children[i], t[p].children[j]} ::
      0 <= p < |t| && 0 <= i < j < |t[p].children| ==> code[t[p].children[i]] < code[t[p].children[j]])
  }

  /** The progress of the split loop: the first `done` slots satisfy SplitOk, the others have no children yet. */
  ghost predicate GrownDone(t: seq<ONode>, raw: seq<SplatSplit>, maxDepth: nat, maxPer: nat, done: nat)
  {
    Ordered(t) && done <= |t| &&
    (forall k :: done <= k < |t| ==> t[k].children == []) &&
    (forall k :: 0 <= k < done ==> SplitOk(t, raw, maxDepth, maxPer, k))
  }

  /** The invariant of the split loop after `done` slots have been dequeued. */
  ghost predicate Grown(t: seq<ONode>, par: seq<nat>, code: seq<nat>, raw: seq<SplatSplit>,
                        maxDepth: nat, maxPer: nat, done: nat)
  {
    GrownTree(t, par, code, raw, maxDepth) && GrownDone(t, raw, maxDepth, maxPer, done)
  }
}
