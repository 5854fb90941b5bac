/**
 * The node records of the agglomerative hierarchy (HC.hpp) and the pure
 * operations on them: `merge_nodes`, `is_leaf`, the queue comparator, and the
 * shape of the finished merge forest. Nodes live in an arena (a sequence);
 * a node's two children are arena slots, standing for the shared pointers
 * of the source.
 */
module HCNodes {
  import opened Common
  import opened BoundingBox
  import opened Splats

  /** The two child pointers of a node: both null, or both set. */
  datatype Children = NoChildren | Children(a: nat, b: nat)

  /** HC::Node. `index` addresses the node's splat in HC::splats. */
  datatype Node = Node(depth: nat, splat: Splat, index: nat, children: Children, error: real)

  /** Node::is_leaf: both children are null. */
  predicate IsLeaf(n: Node) { n.children.NoChildren? }

  function Max(a: nat, b: nat): (r: nat)
    ensures r >= a && r >= b && (r == a || r == b)
  {
    if a >= b then a else b
  }

  /** A freshly made leaf of build's first loop: depth 0, error 0, no children. */
  function Leaf(s: Splat, index: nat): (r: Node)
    ensures IsLeaf(r) && r.depth == 0 && r.error == 0.0 && r.index == index
  {
    Node(0, s, index, NoChildren, 0.0)
  }

  /**
   * The weight normalisation of merge_nodes: each weight divided by the total.
   * A zero total is a division by zero, reported as an error.
   */
  function NormalizedWeights(wa: real, wb: real): (r: Result<(real, real), string>)
    ensures r.Err? <==> wa + wb == 0.0
    ensures r.Ok? ==> r.value.0 + r.value.1 == 1.0
    ensures r.Ok? ==> r.value.0 * (wa + wb) == wa && r.value.1 * (wa + wb) == wb
    ensures r.Ok? && wa > 0.0 && wb > 0.0 ==> 0.0 < r.value.0 < 1.0 && 0.0 < r.value.1 < 1.0
  {
    if wa + wb == 0.0 then Err("zero total weight")
    else
      var t := wa + wb;
      assert wa / t + wb / t == (wa + wb) / t;
      Ok((wa / t, wb / t))
  }

  /** A value scaled by a weight in [0, 1] stays between 0 and the value. */
  lemma Scale(w: real, d: real)
    requires 0.0 <= w <= 1.0 && d >= 0.0
    ensures 0.0 <= w * d <= d
  {
    assert d - w * d == (1.0 - w) * d;
  }

  /** Weights summing to one move lo toward hi by the second weight. */
  lemma Shift(wa: real, wb: real, lo: real, hi: real)
    requires wa + wb == 1.0
    ensures wa * lo + wb * hi == lo + wb * (hi - lo)
  {
    assert wa == 1.0 - wb;
  }

  /** A convex combination of two values lies between them. */
  lemma Convex(wa: real, wb: real, da: real, db: real)
    requires wa >= 0.0 && wb >= 0.0 && wa + wb == 1.0
    ensures MinR(da, db) <= wa * da + wb * db <= MaxR(da, db)
  {
    if da <= db {
      Shift(wa, wb, da, db);
      Scale(wb, db - da);
    } else {
      Shift(wb, wa, db, da);
      Scale(wa, da - db);
    }
  }

  /**
   * merge_nodes(a, b) for the nodes in slots x and y: the pairwise merge of
   * their splats under normalised weights, the weighted divergence of each
   * input from the merged splat as error, depth one more than the deeper
   * child, and children [a, b]. The index is left value-initialised (0);
   * build decides it when the candidate is accepted.
   */
  function MergeNodes(m: SplatMath, splats: seq<Splat>, arena: seq<Node>, x: nat, y: nat): (r: Node)
    requires x < |arena| && y < |arena|
    requires arena[x].index < |splats| && arena[y].index < |splats|
    requires m.weight(splats[arena[x].index]) + m.weight(splats[arena[y].index]) != 0.0
    ensures !IsLeaf(r) && r.children == Children(x, y)
    ensures r.depth == Max(arena[x].depth, arena[y].depth) + 1
    ensures r.depth > arena[x].depth && r.depth > arena[y].depth
    ensures r.index == 0
    ensures var sa := splats[arena[x].index];
            var sb := splats[arena[y].index];
            m.weight(sa) > 0.0 && m.weight(sb) > 0.0 ==>
              MinR(m.divergence(sa, r.splat), m.divergence(sb, r.splat)) <= r.error <=
              MaxR(m.divergence(sa, r.splat), m.divergence(sb, r.splat))
    ensures var sa := splats[arena[x].index];
            var sb := splats[arena[y].index];
            (m.weight(sa) > 0.0 && m.weight(sb) > 0.0 &&
             m.divergence(sa, r.splat) >= 0.0 && m.divergence(sb, r.splat) >= 0.0) ==> r.error >= 0.0
  {
    var sa := splats[arena[x].index];
    var sb := splats[arena[y].index];
    var w := NormalizedWeights(m.weight(sa), m.weight(sb)).value;
    var sc := m.mergeSplats(sa, sb, w.0, w.1);
    var da := m.divergence(sa, sc);
    var db := m.divergence(sb, sc);
    var error := w.0 * da + w.1 * db;
    assert m.weight(sa) > 0.0 && m.weight(sb) > 0.0 ==> MinR(da, db) <= error <= MaxR(da, db) by {
      if m.weight(sa) > 0.0 && m.weight(sb) > 0.0 {
        Convex(w.0, w.1, da, db);
      }
    }
    Node(Max(arena[x].depth, arena[y].depth) + 1, sc, 0, Children(x, y), error)
  }

  /**
   * HCComparator(a, b): a ranks below b when its error is larger, so the
   * priority queue's top is a candidate of smallest error.
   */
  predicate RanksBelow(a: Node, b: Node) { a.error > b.error }

  /** The element std::priority_queue::top returns: nothing in the queue ranks above it. */
  predicate IsTop(t: Node, queue: multiset<Node>) {
    t in queue && forall c :: c in queue ==> !RanksBelow(t, c)
  }

  /** A non-empty queue has a top, and it carries the smallest error. */
  lemma {:induction false} TopExists(queue: multiset<Node>)
    requires queue != multiset{}
    ensures exists t :: IsTop(t, queue)
    decreases |queue|
  {
    var x :| x in queue;
    var rest := queue - multiset{x};
    assert queue == rest + multiset{x};
    if rest == multiset{} {
      assert IsTop(x, queue);
    } else {
      TopExists(rest);
      var t :| IsTop(t, rest);
      forall c | c in queue ensures c in rest || c == x {
        assert queue[c] == rest[c] + multiset{x}[c];
      }
      if t.error <= x.error {
        assert IsTop(t, queue);
      } else {
        assert IsTop(x, queue);
      }
    }
  }

  /**
   * std::priority_queue::top on a non-empty queue: an element of smallest
   * error (which one among equal errors is left open).
   */
  method Top(queue: multiset<Node>) returns (t: Node)
    requires queue != multiset{}
    ensures IsTop(t, queue)
    ensures forall c :: c in queue ==> t.error <= c.error
  {
    TopExists(queue);
    t :| IsTop(t, queue);
  }

  /**
   * The arena is a merge forest: leaves have depth 0; a merged node has two
   * distinct children in earlier slots and is one deeper than the deeper
   * child.
   */
  ghost predicate Forest(arena: seq<Node>) {
    forall s {:trigger arena[s].children} :: 0 <= s < |arena| ==>
      match arena[s].children
      case NoChildren => arena[s].depth == 0
      case Children(a, b) =>
        a < s && b < s && a != b && arena[s].depth == Max(arena[a].depth, arena[b].depth) + 1
  }

  /** Every node's index is its own slot, so indices are distinct. */
  ghost predicate Indexed(arena: seq<Node>) {
    forall s :: 0 <= s < |arena| ==> arena[s].index == s
  }

  ghost predicate InArena(arena: seq<Node>, roots: seq<nat>) {
    forall i :: 0 <= i < |roots| ==> roots[i] < |arena|
  }

  /** The leaf slots under slot s, each once per path to it. */
  ghost function LeafBag(arena: seq<Node>, s: nat): multiset<nat>
    requires Forest(arena) && s < |arena|
    decreases s
  {
    match arena[s].children
    case NoChildren => multiset{s}
    case Children(a, b) => LeafBag(arena, a) + LeafBag(arena, b)
  }

  /** The leaf slots under all of `roots`. */
  ghost function ForestLeaves(arena: seq<Node>, roots: seq<nat>): multiset<nat>
    requires Forest(arena) && InArena(arena, roots)
  {
    if roots == [] then multiset{} else LeafBag(arena, roots[0]) + ForestLeaves(arena, roots[1..])
  }

  /** The number of nodes in the subtree at slot s. */
  ghost function TreeSize(arena: seq<Node>, s: nat): nat
    requires Forest(arena) && s < |arena|
    decreases s
  {
    match arena[s].children
    case NoChildren => 1
    case Children(a, b) => 1 + TreeSize(arena, a) + TreeSize(arena, b)
  }

  ghost function StackSize(arena: seq<Node>, stack: seq<nat>): nat
    requires Forest(arena) && InArena(arena, stack)
  {
    if stack == [] then 0 else StackSize(arena, stack[..|stack| - 1]) + TreeSize(arena, stack[|stack| - 1])
  }

  /** The worklist after popping its last node and pushing that node's two children. */
  ghost function ExpandLast(arena: seq<Node>, stack: seq<nat>): (next: seq<nat>)
    requires Forest(arena) && InArena(arena, stack) && stack != []
    requires arena[stack[|stack| - 1]].children.Children?
    ensures InArena(arena, next)
    ensures StackSize(arena, next) < StackSize(arena, stack)
  {
    var s := stack[|stack| - 1];
    var rest := stack[..|stack| - 1];
    var next := rest + [arena[s].children.a] + [arena[s].children.b];
    assert next[..|next| - 1] == rest + [arena[s].children.a];
    assert (rest + [arena[s].children.a])[..|rest|] == rest;
    next
  }

  /**
   * What get_indices_depth emits from a worklist `stack`: pop the last
   * node; emit its index if its depth is d, push its two children if it is
   * deeper, drop it otherwise.
   */
  ghost function EmitStack(arena: seq<Node>, stack: seq<nat>, d: nat): seq<nat>
    requires Forest(arena) && InArena(arena, stack)
    decreases StackSize(arena, stack)
  {
    if stack == [] then []
    else
      var s := stack[|stack| - 1];
      if arena[s].depth == d then [arena[s].index] + EmitStack(arena, stack[..|stack| - 1], d)
      else if arena[s].depth > d then EmitStack(arena, ExpandLast(arena, stack), d)
      else EmitStack(arena, stack[..|stack| - 1], d)
  }

  /**
   * The depth-d cut under slot s, independently of any traversal order:
   * the node itself when its depth is d, the cuts of both children when it
   * is deeper, nothing when it is shallower.
   */
  ghost function Cut(arena: seq<Node>, s: nat, d: nat): multiset<nat>
    requires Forest(arena) && s < |arena|
    decreases s
  {
    if arena[s].depth == d then multiset{s}
    else if arena[s].depth > d then Cut(arena, arena[s].children.a, d) + Cut(arena, arena[s].children.b, d)
    else multiset{}
  }

  ghost function CutAll(arena: seq<Node>, roots: seq<nat>, d: nat): multiset<nat>
    requires Forest(arena) && InArena(arena, roots)
  {
    if roots == [] then multiset{} else CutAll(arena, roots[..|roots| - 1], d) + Cut(arena, roots[|roots| - 1], d)
  }

  /** The leaves under the nodes of the depth-d cut. */
  ghost function CutLeaves(arena: seq<Node>, s: nat, d: nat): multiset<nat>
    requires Forest(arena) && s < |arena|
    decreases s
  {
    if arena[s].depth == d then LeafBag(arena, s)
    else if arena[s].depth > d then CutLeaves(arena, arena[s].children.a, d) + CutLeaves(arena, arena[s].children.b, d)
    else multiset{}
  }

  /** A node of depth d has at least d + 1 leaves below it. */
  lemma {:induction false} DepthBound(arena: seq<Node>, s: nat)
    requires Forest(arena) && s < |arena|
    ensures |LeafBag(arena, s)| >= arena[s].depth + 1
    decreases s
  {
    match arena[s].children
    case NoChildren =>
    case Children(a, b) =>
      DepthBound(arena, a);
      DepthBound(arena, b);
  }

  /** Expanding a node deeper than d replaces it by its children without changing the cut. */
  lemma ExpandKeepsCut(arena: seq<Node>, stack: seq<nat>, d: nat)
    requires Forest(arena) && InArena(arena, stack) && stack != []
    requires arena[stack[|stack| - 1]].depth > d
    ensures CutAll(arena, ExpandLast(arena, stack), d) == CutAll(arena, stack, d)
  {
    var s := stack[|stack| - 1];
    var rest := stack[..|stack| - 1];
    var next := ExpandLast(arena, stack);
    assert next[..|next| - 1] == rest + [arena[s].children.a];
    assert (rest + [arena[s].children.a])[..|rest|] == rest;
  }

  /**
   * Whatever the worklist order, the traversal emits exactly the depth-d
   * cut of the roots, as a multiset.
   */
  lemma {:induction false} EmitIsCut(arena: seq<Node>, stack: seq<nat>, d: nat)
    requires Forest(arena) && Indexed(arena) && InArena(arena, stack)
    ensures multiset(EmitStack(arena, stack, d)) == CutAll(arena, stack, d)
    decreases StackSize(arena, stack)
  {
    if stack != [] {
      var s := stack[|stack| - 1];
      var rest := stack[..|stack| - 1];
      if arena[s].depth == d {
        EmitIsCut(arena, rest, d);
      } else if arena[s].depth > d {
        EmitIsCut(arena, ExpandLast(arena, stack), d);
        ExpandKeepsCut(arena, stack, d);
      } else {
        EmitIsCut(arena, rest, d);
      }
    }
  }

  /** Every emitted index is the slot of a node of depth exactly d. */
  lemma {:induction false} EmitDepth(arena: seq<Node>, stack: seq<nat>, d: nat)
    requires Forest(arena) && Indexed(arena) && InArena(arena, stack)
    ensures forall i :: 0 <= i < |EmitStack(arena, stack, d)| ==>
      EmitStack(arena, stack, d)[i] < |arena| && arena[EmitStack(arena, stack, d)[i]].depth == d
    decreases StackSize(arena, stack)
  {
    if stack != [] {
      var s := stack[|stack| - 1];
      var rest := stack[..|stack| - 1];
      if arena[s].depth == d {
        EmitDepth(arena, rest, d);
        var e := EmitStack(arena, stack, d);
        assert e == [s] + EmitStack(arena, rest, d);
        assert forall i :: 1 <= i < |e| ==> e[i] == EmitStack(arena, rest, d)[i - 1];
      } else if arena[s].depth > d {
        EmitDepth(arena, ExpandLast(arena, stack), d);
      } else {
        EmitDepth(arena, rest, d);
      }
    }
  }

  /** The subtrees of the cut nodes are disjoint pieces of the subtree at s. */
  lemma {:induction false} CutLeavesWithin(arena: seq<Node>, s: nat, d: nat)
    requires Forest(arena) && s < |arena|
    ensures CutLeaves(arena, s, d) <= LeafBag(arena, s)
    decreases s
  {
    if arena[s].depth > d {
      var a := arena[s].children.a;
      var b := arena[s].children.b;
      CutLeavesWithin(arena, a, d);
      CutLeavesWithin(arena, b, d);
    }
  }

  /** At depth 0 the cut is exactly the set of leaves, each once. */
  lemma {:induction false} CutZeroIsLeaves(arena: seq<Node>, s: nat)
    requires Forest(arena) && s < |arena|
    ensures Cut(arena, s, 0) == LeafBag(arena, s)
    ensures CutLeaves(arena, s, 0) == LeafBag(arena, s)
    decreases s
  {
    match arena[s].children
    case NoChildren =>
    case Children(a, b) =>
      CutZeroIsLeaves(arena, a);
      CutZeroIsLeaves(arena, b);
  }

  /** The depth-0 cut of a list of roots is all the leaves under them. */
  lemma {:induction false} CutAllZero(arena: seq<Node>, roots: seq<nat>)
    requires Forest(arena) && InArena(arena, roots)
    ensures CutAll(arena, roots, 0) == ForestLeaves(arena, roots)
    decreases |roots|
  {
    if roots != [] {
      var last := roots[|roots| - 1];
      var init := roots[..|roots| - 1];
      CutAllZero(arena, init);
      CutZeroIsLeaves(arena, last);
      ForestLeavesSnoc(arena, init, last);
      SnocParts(roots);
    }
  }

  lemma {:induction false} ForestLeavesSnoc(arena: seq<Node>, roots: seq<nat>, x: nat)
    requires Forest(arena) && InArena(arena, roots) && x < |arena|
    ensures InArena(arena, roots + [x])
    ensures ForestLeaves(arena, roots + [x]) == ForestLeaves(arena, roots) + LeafBag(arena, x)
    decreases |roots|
  {
    if roots != [] {
      ForestLeavesSnoc(arena, roots[1..], x);
      TailSnoc(roots, x);
    } else {
      TailCons(x, []);
    }
  }

  /** The leaves of [x] + roots are x's leaves and those of roots. */
  lemma ForestLeavesCons(arena: seq<Node>, x: nat, roots: seq<nat>)
    requires Forest(arena) && x < |arena| && InArena(arena, roots)
    ensures InArena(arena, [x] + roots)
    ensures ForestLeaves(arena, [x] + roots) == LeafBag(arena, x) + ForestLeaves(arena, roots)
  {
    TailCons(x, roots);
  }

  /** Erasing an active root removes exactly its leaves from the forest's leaves. */
  lemma {:induction false} ForestLeavesWithout(arena: seq<Node>, roots: seq<nat>, v: nat)
    requires Forest(arena) && InArena(arena, roots) && Distinct(roots) && v in roots
    ensures InArena(arena, Without(roots, v))
    ensures ForestLeaves(arena, Without(roots, v)) + LeafBag(arena, v) == ForestLeaves(arena, roots)
    decreases |roots|
  {
    var tail := roots[1..];
    assert roots == [roots[0]] + tail;
    assert Distinct(tail) && InArena(arena, tail);
    ForestLeavesCons(arena, roots[0], tail);
    if roots[0] == v {
      WithoutHead(roots);
    } else {
      ForestLeavesWithout(arena, tail, v);
      var w := Without(tail, v);
      assert Without(roots, v) == [roots[0]] + w;
      ForestLeavesCons(arena, roots[0], w);
    }
  }

  /** Appending nodes to the arena leaves every existing subtree as it was. */
  lemma {:induction false} LeafBagExtend(arena: seq<Node>, extra: seq<Node>, s: nat)
    requires Forest(arena) && Forest(arena + extra) && s < |arena|
    ensures LeafBag(arena + extra, s) == LeafBag(arena, s)
    decreases s
  {
    assert (arena + extra)[s] == arena[s];
    match arena[s].children
    case NoChildren =>
    case Children(a, b) =>
      LeafBagExtend(arena, extra, a);
      LeafBagExtend(arena, extra, b);
  }

  lemma {:induction false} ForestLeavesExtend(arena: seq<Node>, extra: seq<Node>, roots: seq<nat>)
    requires Forest(arena) && Forest(arena + extra) && InArena(arena, roots)
    ensures InArena(arena + extra, roots)
    ensures ForestLeaves(arena + extra, roots) == ForestLeaves(arena, roots)
    decreases |roots|
  {
    if roots != [] {
      LeafBagExtend(arena, extra, roots[0]);
      ForestLeavesExtend(arena, extra, roots[1..]);
    }
  }
}
