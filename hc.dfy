/**
 * HC::build and HC::get_indices_depth (HC.cpp). The node graph the source
 * links with shared pointers is an arena: `arena[s]` is the node in slot s,
 * `processed[s]` its processed flag, `nodes` the active list (std::list of
 * node pointers) as a sequence of slots. The candidate priority queue is a
 * multiset of candidate nodes popped at a smallest error.
 *
 * The source never gives an accepted merged node an index and never stores
 * its splat (HC.cpp:47-76): merge_nodes leaves `index` value-initialised to
 * 0. Here the accepted node gets the next free slot of `splats` as its index
 * and its splat is appended there, which is what `splats.reserve(2 * n)` and
 * the grid hierarchy's offsets rely on; `AsWrittenMergedIndexCollides` shows
 * what the source's behaviour leads to.
 */
module HCTree {
  import opened Common
  import BoundingBox
  import opened Splats
  import opened HCNodes

  /** A queue entry is merge_nodes of two distinct nodes already in the arena. */
  ghost predicate CandidateOk(m: SplatMath, splats: seq<Splat>, arena: seq<Node>, c: Node) {
    c.children.Children? &&
    c.children.a < |arena| && c.children.b < |arena| && c.children.a != c.children.b &&
    arena[c.children.a].index < |splats| && arena[c.children.b].index < |splats| &&
    m.weight(splats[arena[c.children.a].index]) + m.weight(splats[arena[c.children.b].index]) != 0.0 &&
    c == MergeNodes(m, splats, arena, c.children.a, c.children.b)
  }

  ghost predicate QueueOk(m: SplatMath, splats: seq<Splat>, arena: seq<Node>, queue: multiset<Node>) {
    forall c :: c in queue ==> CandidateOk(m, splats, arena, c)
  }

  /** Some pending candidate merges x (first child) with y (second child). */
  ghost predicate HasCandidate(queue: multiset<Node>, x: nat, y: nat) {
    exists c :: c in queue && c.children == Children(x, y)
  }

  /** Every unordered pair of distinct active nodes has a pending candidate. */
  ghost predicate Covered(queue: multiset<Node>, nodes: seq<nat>) {
    forall x, y :: x in nodes && y in nodes && x != y ==> HasCandidate(queue, x, y) || HasCandidate(queue, y, x)
  }

  /** Slots 0 .. n - 1 are the leaves of a merge forest, and each node's index is its slot. */
  ghost predicate Shaped(arena: seq<Node>, n: nat) {
    Forest(arena) && Indexed(arena) && n <= |arena| &&
    forall s {:trigger IsLeaf(arena[s])} :: 0 <= s < |arena| ==> (IsLeaf(arena[s]) <==> s < n)
  }

  /** splats[s] is the splat of the node in slot s. */
  ghost predicate Stored(arena: seq<Node>, splats: seq<Splat>) {
    |splats| == |arena| && forall s :: 0 <= s < |arena| ==> splats[s] == arena[s].splat
  }

  /** The active list holds each unprocessed slot exactly once. */
  ghost predicate Active(arena: seq<Node>, processed: seq<bool>, nodes: seq<nat>) {
    |processed| == |arena| && Distinct(nodes) && InArena(arena, nodes) &&
    forall s :: 0 <= s < |arena| ==> (s in nodes <==> !processed[s])
  }

  /** The active trees hold every one of the n leaves exactly once between them. */
  ghost predicate Partitioned(arena: seq<Node>, nodes: seq<nat>, n: nat) {
    Forest(arena) && InArena(arena, nodes) && ForestLeaves(arena, nodes) == Slots(n)
  }

  /** The state build keeps between steps, for n input splats. */
  ghost predicate Consistent(arena: seq<Node>, processed: seq<bool>, nodes: seq<nat>, splats: seq<Splat>, n: nat) {
    Shaped(arena, n) && Stored(arena, splats) && Active(arena, processed, nodes) && Partitioned(arena, nodes, n)
  }

  /**
   * An accepted candidate as this model stores it: its index is the next
   * free slot of `splats`, where build appends its splat.
   */
  function Accepted(c: Node, splats: seq<Splat>): (r: Node)
    ensures r.index == |splats|
    ensures r.children == c.children && r.depth == c.depth && r.splat == c.splat && r.error == c.error
    ensures (splats + [c.splat])[r.index] == r.splat
  {
    c.(index := |splats|)
  }

  /**
   * The node in slot s is the candidate merge_nodes computes for its two
   * children, accepted at slot s.
   */
  ghost predicate MergedAt(m: SplatMath, arena: seq<Node>, splats: seq<Splat>, s: nat)
    requires s < |arena| && s <= |splats|
  {
    var c := arena[s].(index := 0);
    CandidateOk(m, splats, arena, c) && arena[s] == Accepted(c, splats[..s])
  }

  /** Every node above the n leaves is a merge of its two children. */
  ghost predicate Merged(m: SplatMath, arena: seq<Node>, splats: seq<Splat>, n: nat) {
    |arena| <= |splats| && forall s :: n <= s < |arena| ==> MergedAt(m, arena, splats, s)
  }

  /**
   * Two splats 2 apart merged with equal weights. As written, build accepts
   * the candidate unchanged and leaves `splats` as it is: the merged node
   * keeps index 0, the index of the first leaf, and splats[0] is that leaf's
   * splat rather than the merged one; a later merge_nodes with this node
   * reads the wrong splat, and get_indices_depth(1) reports leaf 0.
   */
  lemma AsWrittenMergedIndexCollides()
    ensures var m := ExampleMath();
            var s0 := ExampleSplat(0.0);
            var s1 := ExampleSplat(2.0);
            var arena := [Leaf(s0, 0), Leaf(s1, 1)];
            var c := MergeNodes(m, [s0, s1], arena, 0, 1);
            c.index == arena[0].index && [s0, s1][c.index] != c.splat
  {
    var m := ExampleMath();
    var s0 := ExampleSplat(0.0);
    var s1 := ExampleSplat(2.0);
    var arena := [Leaf(s0, 0), Leaf(s1, 1)];
    var w := NormalizedWeights(1.0, 1.0).value;
    assert w == (0.5, 0.5);
    var c := MergeNodes(m, [s0, s1], arena, 0, 1);
    assert c.splat == m.mergeSplats(s0, s1, 0.5, 0.5);
    assert c.splat.position.x == 1.0;
  }

  /** The corrected acceptance: every node's index addresses its own splat, and no two nodes share one. */
  lemma AcceptedIndexAddressesSplat(arena: seq<Node>, processed: seq<bool>, nodes: seq<nat>, splats: seq<Splat>, n: nat)
    requires Consistent(arena, processed, nodes, splats, n)
    ensures forall s :: 0 <= s < |arena| ==> arena[s].index < |splats| && splats[arena[s].index] == arena[s].splat
    ensures forall s, t :: 0 <= s < t < |arena| ==> arena[s].index != arena[t].index
  {
  }

  /** A splat at (x, 0, 0), for the example above. */
  function ExampleSplat(x: real): Splat {
    Splat(Mat3(BoundingBox.Origin, BoundingBox.Origin, BoundingBox.Origin), BoundingBox.Vec3(x, 0.0, 0.0), Rgba(1.0, 1.0, 1.0, 1.0))
  }

  /** Unit weights, and a merge that takes the weighted mean position. */
  function ExampleMath(): SplatMath {
    SplatMath(
      s => 1.0,
      (a: Splat, b: Splat, wa: real, wb: real) =>
        Splat(a.covariance, BoundingBox.Vec3(wa * a.position.x + wb * b.position.x,
                                 wa * a.position.y + wb * b.position.y,
                                 wa * a.position.z + wb * b.position.z), a.color),
      (a: Splat, b: Splat) => 0.0,
      raw => ExampleSplat(0.0),
      raw => ExampleSplat(0.0),
      ss => BoundingBox.Box(BoundingBox.Origin, BoundingBox.Origin))
  }

  /** Growing the arena and the splats does not change a candidate computed from older slots. */
  lemma CandidateOkExtend(m: SplatMath, splats: seq<Splat>, arena: seq<Node>, c: Node, node: Node, s: Splat)
    requires CandidateOk(m, splats, arena, c)
    ensures CandidateOk(m, splats + [s], arena + [node], c)
  {
    var a := c.children.a;
    var b := c.children.b;
    assert (arena + [node])[a] == arena[a] && (arena + [node])[b] == arena[b];
    assert (splats + [s])[arena[a].index] == splats[arena[a].index];
    assert (splats + [s])[arena[b].index] == splats[arena[b].index];
  }

  /** Growing the arena and the splats keeps every queued candidate proper. */
  lemma QueueOkExtend(m: SplatMath, splats: seq<Splat>, arena: seq<Node>, queue: multiset<Node>, node: Node, s: Splat)
    requires QueueOk(m, splats, arena, queue)
    ensures QueueOk(m, splats + [s], arena + [node], queue)
  {
    forall c | c in queue ensures CandidateOk(m, splats + [s], arena + [node], c) {
      CandidateOkExtend(m, splats, arena, c, node, s);
    }
  }

  /** Accepting a proper candidate into the next slot keeps every merged node a merge of its children. */
  lemma AcceptKeepsMerged(m: SplatMath, arena: seq<Node>, splats: seq<Splat>, n: nat, c: Node)
    requires Merged(m, arena, splats, n) && |splats| == |arena| && CandidateOk(m, splats, arena, c)
    ensures Merged(m, arena + [Accepted(c, splats)], splats + [c.splat], n)
  {
    var node := Accepted(c, splats);
    var arena', splats' := arena + [node], splats + [c.splat];
    forall s | n <= s < |arena'| ensures MergedAt(m, arena', splats', s) {
      if s < |arena| {
        assert MergedAt(m, arena, splats, s);
        assert arena'[s] == arena[s] && splats'[..s] == splats[..s];
        CandidateOkExtend(m, splats, arena, arena[s].(index := 0), node, c.splat);
      } else {
        assert arena'[s].(index := 0) == c;
        CandidateOkExtend(m, splats, arena, c, node, c.splat);
      }
    }
  }

  /** A stale candidate (one child no longer active) covers no active pair. */
  lemma CoveredAfterStale(queue: multiset<Node>, nodes: seq<nat>, c: Node)
    requires Covered(queue, nodes) && c in queue && c.children.Children?
    requires c.children.a !in nodes || c.children.b !in nodes
    ensures Covered(queue - multiset{c}, nodes)
  {
    forall x, y | x in nodes && y in nodes && x != y
      ensures HasCandidate(queue - multiset{c}, x, y) || HasCandidate(queue - multiset{c}, y, x)
    {
      if HasCandidate(queue, x, y) {
        var w :| w in queue && w.children == Children(x, y);
        assert w != c;
        assert w in queue - multiset{c};
      } else {
        var w :| w in queue && w.children == Children(y, x);
        assert w != c;
        assert w in queue - multiset{c};
      }
    }
  }

  /** Popping a stale candidate keeps the queue proper and the active pairs covered. */
  lemma DropStale(m: SplatMath, splats: seq<Splat>, arena: seq<Node>, processed: seq<bool>, nodes: seq<nat>,
                  queue: multiset<Node>, c: Node)
    requires Active(arena, processed, nodes) && QueueOk(m, splats, arena, queue) && Covered(queue, nodes)
    requires c in queue && (processed[c.children.a] || processed[c.children.b])
    ensures QueueOk(m, splats, arena, queue - multiset{c}) && Covered(queue - multiset{c}, nodes)
  {
    CoveredAfterStale(queue, nodes, c);
  }

  /**
   * After accepting c = (a, b): the pairs among the remaining active nodes
   * keep their candidates, and the new node has a candidate with each of them.
   */
  lemma CoveredAfterAccept(queue: multiset<Node>, nodes: seq<nat>, c: Node, rest: seq<nat>, slot: nat,
                            row: multiset<Node>, queue2: multiset<Node>)
    requires Covered(queue, nodes) && c in queue && c.children.Children?
    requires forall x :: x in rest ==> x in nodes && x != c.children.a && x != c.children.b
    requires queue2 == (queue - multiset{c}) + row
    requires forall u :: u in rest ==> HasCandidate(row, slot, u)
    requires slot !in rest
    ensures Covered(queue2, rest + [slot])
  {
    forall x, y | x in rest + [slot] && y in rest + [slot] && x != y
      ensures HasCandidate(queue2, x, y) || HasCandidate(queue2, y, x)
    {
      if x == slot {
        assert y in rest;
        var w :| w in row && w.children == Children(x, y);
        assert w in queue2;
      } else if y == slot {
        assert x in rest;
        var w :| w in row && w.children == Children(y, x);
        assert w in queue2;
      } else {
        assert x in rest && y in rest;
        if HasCandidate(queue, x, y) {
          var w :| w in queue && w.children == Children(x, y);
          assert w != c;
          assert w in queue2;
        } else {
          var w :| w in queue && w.children == Children(y, x);
          assert w != c;
          assert w in queue2;
        }
      }
    }
  }

  /** With an empty queue, coverage leaves at most one active node. */
  lemma CoveredEmpty(nodes: seq<nat>)
    requires Distinct(nodes)
    ensures Covered(multiset{}, nodes) ==> |nodes| <= 1
  {
    if |nodes| >= 2 {
      assert nodes[0] in nodes && nodes[1] in nodes && nodes[0] != nodes[1];
      assert !HasCandidate(multiset{}, nodes[0], nodes[1]) && !HasCandidate(multiset{}, nodes[1], nodes[0]);
    }
  }

  /** The state of a fresh HC. */
  lemma EmptyConsistent()
    ensures Consistent([], [], [], [], 0)
  {
    var none: seq<Node> := [];
    assert Forest(none) && Indexed(none);
    assert Distinct([]) && InArena(none, []);
    assert ForestLeaves(none, []) == multiset{};
  }

  /** When slots 0 .. k - 1 are leaves, the trees rooted there hold exactly those leaves. */
  lemma {:induction false} LeafRange(arena: seq<Node>, k: nat)
    requires Forest(arena) && k <= |arena|
    requires forall s :: 0 <= s < k ==> IsLeaf(arena[s])
    ensures InArena(arena, Range(0, k))
    ensures ForestLeaves(arena, Range(0, k)) == Slots(k)
  {
    if k > 0 {
      var init := Range(0, k - 1);
      LeafRange(arena, k - 1);
      RangeSnoc(0, k - 1);
      ForestLeavesSnoc(arena, init, k - 1);
      assert IsLeaf(arena[k - 1]);
      assert LeafBag(arena, k - 1) == multiset{k - 1};
    }
  }

  /** One leaf per splat, every slot active and unprocessed: a consistent state. */
  lemma LeavesConsistent(arena: seq<Node>, processed: seq<bool>, splats: seq<Splat>)
    requires |arena| == |splats| == |processed|
    requires forall s :: 0 <= s < |arena| ==> arena[s] == Leaf(splats[s], s) && !processed[s]
    ensures Consistent(arena, processed, Range(0, |arena|), splats, |arena|)
  {
    var n := |arena|;
    var nodes := Range(0, n);
    forall s | 0 <= s < n ensures nodes[s] == s && s in nodes {
    }
    LeafRange(arena, n);
  }

  /** Appending a node that merges two distinct earlier slots keeps the arena a merge forest. */
  lemma AppendKeepsForest(arena: seq<Node>, node: Node)
    requires Forest(arena) && node.children.Children?
    requires node.children.a < |arena| && node.children.b < |arena| && node.children.a != node.children.b
    requires node.depth == Max(arena[node.children.a].depth, arena[node.children.b].depth) + 1
    ensures Forest(arena + [node])
  {
    var arena' := arena + [node];
    forall s | 0 <= s < |arena'|
      ensures match arena'[s].children
        case NoChildren => arena'[s].depth == 0
        case Children(x, y) => x < s && y < s && x != y && arena'[s].depth == Max(arena'[x].depth, arena'[y].depth) + 1
    {
      if s < |arena| {
        assert arena'[s] == arena[s];
        match arena[s].children
        case NoChildren =>
        case Children(x, y) =>
          assert arena'[x] == arena[x] && arena'[y] == arena[y];
      } else {
        assert arena'[node.children.a] == arena[node.children.a];
        assert arena'[node.children.b] == arena[node.children.b];
      }
    }
  }

  /** Replacing two active roots by their new parent keeps the leaves the forest holds. */
  lemma AcceptKeepsLeaves(arena: seq<Node>, nodes: seq<nat>, node: Node)
    requires Forest(arena) && InArena(arena, nodes) && Distinct(nodes) && node.children.Children?
    requires node.children.a in nodes && node.children.b in nodes && node.children.a != node.children.b
    requires Forest(arena + [node])
    ensures InArena(arena, Without(Without(nodes, node.children.a), node.children.b))
    ensures InArena(arena + [node], Without(Without(nodes, node.children.a), node.children.b) + [|arena|])
    ensures ForestLeaves(arena + [node], Without(Without(nodes, node.children.a), node.children.b) + [|arena|])
         == ForestLeaves(arena, nodes)
  {
    var a := node.children.a;
    var b := node.children.b;
    var arena' := arena + [node];
    var rest1 := Without(nodes, a);
    WithoutDistinct(nodes, a);
    ForestLeavesWithout(arena, nodes, a);
    assert b in rest1;
    var rest := Without(rest1, b);
    ForestLeavesWithout(arena, rest1, b);
    ForestLeavesExtend(arena, [node], rest);
    LeafBagExtend(arena, [node], a);
    LeafBagExtend(arena, [node], b);
    ForestLeavesSnoc(arena', rest, |arena|);
    assert LeafBag(arena', |arena|) == LeafBag(arena', a) + LeafBag(arena', b);
  }

  /** A new merged node in the next slot keeps the leaves at slots 0 .. n - 1 and indices equal to slots. */
  lemma AppendKeepsShaped(arena: seq<Node>, n: nat, node: Node)
    requires Shaped(arena, n) && node.children.Children? && node.index == |arena|
    requires node.children.a < |arena| && node.children.b < |arena| && node.children.a != node.children.b
    requires node.depth == Max(arena[node.children.a].depth, arena[node.children.b].depth) + 1
    ensures Shaped(arena + [node], n)
  {
    AppendKeepsForest(arena, node);
    var arena' := arena + [node];
    forall s | 0 <= s < |arena'| ensures arena'[s].index == s && (IsLeaf(arena'[s]) <==> s < n) {
      if s < |arena| {
        assert arena'[s] == arena[s];
      }
    }
  }

  /** Appending a node together with its splat keeps each slot's splat stored. */
  lemma AppendKeepsStored(arena: seq<Node>, splats: seq<Splat>, node: Node)
    requires Stored(arena, splats)
    ensures Stored(arena + [node], splats + [node.splat])
  {
    var arena' := arena + [node];
    var splats' := splats + [node.splat];
    forall s | 0 <= s < |arena'| ensures splats'[s] == arena'[s].splat {
      if s < |arena| {
        assert arena'[s] == arena[s] && splats'[s] == splats[s];
      }
    }
  }

  /**
   * Marking a and b processed, erasing them from the active list and
   * appending the new slot, unprocessed, keeps the active list exact.
   */
  lemma AcceptKeepsActive(arena: seq<Node>, processed: seq<bool>, nodes: seq<nat>, a: nat, b: nat, node: Node)
    requires Active(arena, processed, nodes)
    requires a < |arena| && b < |arena| && a != b && !processed[a] && !processed[b]
    ensures var rest := Without(Without(nodes, a), b);
            |rest| == |nodes| - 2 &&
            (forall x :: x in rest <==> x in nodes && x != a && x != b) &&
            Active(arena + [node], processed[a := true][b := true] + [false], rest + [|arena|])
  {
    var rest1 := Without(nodes, a);
    WithoutDistinct(nodes, a);
    assert b in rest1;
    var rest := Without(rest1, b);
    WithoutDistinct(rest1, b);
    var processed' := processed[a := true][b := true] + [false];
    var nodes' := rest + [|arena|];
    forall s | 0 <= s < |processed'| ensures s in nodes' <==> !processed'[s] {
      if s == |processed| {
      } else if s == a || s == b {
        assert s !in rest;
      } else {
        assert processed'[s] == processed[s];
        assert s in rest <==> s in nodes;
      }
    }
    assert Distinct(nodes') by {
      assert |arena| !in rest;
    }
    assert InArena(arena + [node], nodes') by {
      forall i | 0 <= i < |nodes'| ensures nodes'[i] < |arena| + 1 {
        if i < |rest| {
          assert nodes'[i] in rest;
        }
      }
    }
  }

  /** Accepting a candidate whose children are both active keeps the state consistent. */
  lemma AcceptKeepsConsistent(arena: seq<Node>, processed: seq<bool>, nodes: seq<nat>,
                              splats: seq<Splat>, n: nat, c: Node)
    requires Consistent(arena, processed, nodes, splats, n)
    requires c.children.Children?
    requires c.children.a < |arena| && c.children.b < |arena| && c.children.a != c.children.b
    requires c.depth == Max(arena[c.children.a].depth, arena[c.children.b].depth) + 1
    requires !processed[c.children.a] && !processed[c.children.b]
    ensures var a := c.children.a;
            var b := c.children.b;
            var rest := Without(Without(nodes, a), b);
            |rest| == |nodes| - 2 &&
            (forall x :: x in rest <==> x in nodes && x != a && x != b) &&
            InArena(arena, rest) && |arena| !in rest &&
            Consistent(arena + [Accepted(c, splats)], processed[a := true][b := true] + [false],
                       rest + [|arena|], splats + [c.splat], n)
  {
    var node := Accepted(c, splats);
    AppendKeepsShaped(arena, n, node);
    AppendKeepsStored(arena, splats, node);
    AcceptKeepsActive(arena, processed, nodes, c.children.a, c.children.b, node);
    AcceptKeepsLeaves(arena, nodes, node);
    var rest := Without(Without(nodes, c.children.a), c.children.b);
    forall i | 0 <= i < |rest| ensures rest[i] < |arena| {
      assert rest[i] in nodes;
    }
  }

  /** A consistent state lets merge_nodes pair any two of its slots. */
  lemma ConsistentMergeable(m: SplatMath, arena: seq<Node>, processed: seq<bool>, nodes: seq<nat>,
                            splats: seq<Splat>, n: nat)
    requires Consistent(arena, processed, nodes, splats, n) && PositiveWeights(m)
    ensures Mergeable(m, splats, arena) && InArena(arena, nodes) && Distinct(nodes)
  {
  }

  /** The preconditions under which merge_nodes may pair any two slots of the arena. */
  ghost predicate Mergeable(m: SplatMath, splats: seq<Splat>, arena: seq<Node>) {
    PositiveWeights(m) && Indexed(arena) && |splats| == |arena|
  }

  /** merge_nodes(a, y) for each y of ys, in order: the candidates one row of build's pairing adds. */
  ghost function Row(m: SplatMath, splats: seq<Splat>, arena: seq<Node>, a: nat, ys: seq<nat>): (r: multiset<Node>)
    requires Mergeable(m, splats, arena) && a < |arena| && InArena(arena, ys)
    ensures |r| == |ys|
    decreases |ys|
  {
    if ys == [] then multiset{}
    else
      assert arena[a].index == a && arena[ys[0]].index == ys[0];
      multiset{MergeNodes(m, splats, arena, a, ys[0])} + Row(m, splats, arena, a, ys[1..])
  }

  /** All candidates of build's pairing loops: each node with every later one. */
  ghost function Seed(m: SplatMath, splats: seq<Splat>, arena: seq<Node>, nodes: seq<nat>): multiset<Node>
    requires Mergeable(m, splats, arena) && InArena(arena, nodes)
    decreases |nodes|
  {
    if nodes == [] then multiset{}
    else Row(m, splats, arena, nodes[0], nodes[1..]) + Seed(m, splats, arena, nodes[1..])
  }

  /** A row pairs a with each y of ys through a proper candidate. */
  lemma {:induction false} RowOk(m: SplatMath, splats: seq<Splat>, arena: seq<Node>, a: nat, ys: seq<nat>)
    requires Mergeable(m, splats, arena) && a < |arena| && InArena(arena, ys) && a !in ys
    ensures QueueOk(m, splats, arena, Row(m, splats, arena, a, ys))
    ensures forall y :: y in ys ==> HasCandidate(Row(m, splats, arena, a, ys), a, y)
    decreases |ys|
  {
    if ys != [] {
      var rest := ys[1..];
      RowOk(m, splats, arena, a, rest);
      var c := MergeNodes(m, splats, arena, a, ys[0]);
      var r := Row(m, splats, arena, a, ys);
      assert r == multiset{c} + Row(m, splats, arena, a, rest);
      assert c in r;
      forall y | y in ys ensures HasCandidate(r, a, y) {
        if y != ys[0] {
          assert y in rest;
          var w :| w in Row(m, splats, arena, a, rest) && w.children == Children(a, y);
          assert w in r;
        }
      }
    }
  }

  /** The seeded candidates are proper ones. */
  lemma {:induction false} SeedOk(m: SplatMath, splats: seq<Splat>, arena: seq<Node>, nodes: seq<nat>)
    requires Mergeable(m, splats, arena) && InArena(arena, nodes) && Distinct(nodes)
    ensures QueueOk(m, splats, arena, Seed(m, splats, arena, nodes))
    decreases |nodes|
  {
    if nodes != [] {
      RowOk(m, splats, arena, nodes[0], nodes[1..]);
      SeedOk(m, splats, arena, nodes[1..]);
    }
  }

  /** The seeded candidates cover every pair of distinct nodes. */
  lemma {:induction false} SeedCovers(m: SplatMath, splats: seq<Splat>, arena: seq<Node>, nodes: seq<nat>)
    requires Mergeable(m, splats, arena) && InArena(arena, nodes) && Distinct(nodes)
    ensures Covered(Seed(m, splats, arena, nodes), nodes)
    decreases |nodes|
  {
    if nodes != [] {
      var a := nodes[0];
      var rest := nodes[1..];
      assert nodes == [a] + rest;
      RowOk(m, splats, arena, a, rest);
      SeedCovers(m, splats, arena, rest);
      CoveredCons(a, rest, Row(m, splats, arena, a, rest), Seed(m, splats, arena, rest));
    }
  }

  /**
   * Coverage of a ∪ b over [a] + rest: the pairs with a from `row`, the
   * pairs within rest from `later`.
   */
  lemma CoveredCons(a: nat, rest: seq<nat>, row: multiset<Node>, later: multiset<Node>)
    requires forall y :: y in rest ==> HasCandidate(row, a, y)
    requires Covered(later, rest)
    ensures Covered(row + later, [a] + rest)
  {
    var q := row + later;
    forall x, y | x in [a] + rest && y in [a] + rest && x != y
      ensures HasCandidate(q, x, y) || HasCandidate(q, y, x)
    {
      if x == a {
        assert y in rest;
        var w :| w in row && w.children == Children(x, y);
        assert w in q;
      } else if y == a {
        assert x in rest;
        var w :| w in row && w.children == Children(y, x);
        assert w in q;
      } else if HasCandidate(later, x, y) {
        var w :| w in later && w.children == Children(x, y);
        assert w in q;
      } else {
        assert x in rest && y in rest;
        var w :| w in later && w.children == Children(y, x);
        assert w in q;
      }
    }
  }

  /** Adding a node to k others adds k pairs: k(k - 1)/2 + k = (k + 1)k/2. */
  lemma PairsStep(k: nat, pairs: nat)
    requires 2 * pairs == k * (k - 1)
    ensures 2 * (k + pairs) == (k + 1) * k
  {
  }

  /** n nodes are seeded with n(n - 1)/2 candidates. */
  lemma {:induction false} SeedSize(m: SplatMath, splats: seq<Splat>, arena: seq<Node>, nodes: seq<nat>)
    requires Mergeable(m, splats, arena) && InArena(arena, nodes)
    ensures 2 * |Seed(m, splats, arena, nodes)| == |nodes| * (|nodes| - 1)
    decreases |nodes|
  {
    if nodes != [] {
      SeedSize(m, splats, arena, nodes[1..]);
      PairsStep(|nodes| - 1, |Seed(m, splats, arena, nodes[1..])|);
    }
  }

  /** The candidates seeded from position i on: the row of nodes[i], then the rest. */
  lemma SeedFrom(m: SplatMath, splats: seq<Splat>, arena: seq<Node>, nodes: seq<nat>, i: nat)
    requires Mergeable(m, splats, arena) && InArena(arena, nodes) && i < |nodes|
    ensures Seed(m, splats, arena, nodes[i..]) ==
            Row(m, splats, arena, nodes[i], nodes[i + 1..]) + Seed(m, splats, arena, nodes[i + 1..])
  {
    assert nodes[i..][1..] == nodes[i + 1..];
  }

  /**
   * The second loop of build: one merge_nodes candidate for each pair of
   * active nodes, the earlier one in the list as first child.
   */
  method SeedPairs(m: SplatMath, splats: seq<Splat>, arena: seq<Node>, nodes: seq<nat>) returns (queue: multiset<Node>)
    requires Mergeable(m, splats, arena) && InArena(arena, nodes)
    ensures queue == Seed(m, splats, arena, nodes)
  {
    queue := multiset{};
    var n := |nodes|;
    for i := 0 to n
      invariant queue + Seed(m, splats, arena, nodes[i..]) == Seed(m, splats, arena, nodes)
    {
      SeedFrom(m, splats, arena, nodes, i);
      queue := MergeWithActive(m, splats, arena, nodes[i], nodes[i + 1..], queue);
    }
  }

  /**
   * The pairing loop over `rest` for one node in `slot` (the first child of
   * each candidate), adding to `queue`: the inner loop of both of build's
   * pairing steps.
   */
  method MergeWithActive(m: SplatMath, splats: seq<Splat>, arena: seq<Node>, slot: nat, rest: seq<nat>,
                         queue: multiset<Node>) returns (queue': multiset<Node>)
    requires Mergeable(m, splats, arena) && slot < |arena| && InArena(arena, rest)
    ensures queue' == queue + Row(m, splats, arena, slot, rest)
  {
    queue' := queue;
    for k := 0 to |rest|
      invariant queue' + Row(m, splats, arena, slot, rest[k..]) == queue + Row(m, splats, arena, slot, rest)
    {
      assert rest[k..][1..] == rest[k + 1..];
      assert arena[slot].index == slot && arena[rest[k]].index == rest[k];
      var node := MergeNodes(m, splats, arena, slot, rest[k]);
      queue' := queue' + multiset{node};
    }
    assert rest[|rest|..] == [];
  }

  /**
   * One accepted merge of build: both children are marked processed and
   * erased from the active list, the merged node takes the next slot (and
   * its splat the next splat), gets a candidate with every remaining
   * active node, and becomes active itself.
   */
  method AcceptMerge(m: SplatMath, arena: seq<Node>, processed: seq<bool>, nodes: seq<nat>, splats: seq<Splat>,
                     ghost n: nat, merged: Node, queue: multiset<Node>)
    returns (arena': seq<Node>, processed': seq<bool>, nodes': seq<nat>, splats': seq<Splat>, queue': multiset<Node>)
    requires Consistent(arena, processed, nodes, splats, n) && PositiveWeights(m) && Merged(m, arena, splats, n)
    requires merged in queue && QueueOk(m, splats, arena, queue) && Covered(queue, nodes)
    requires !processed[merged.children.a] && !processed[merged.children.b]
    ensures arena' == arena + [Accepted(merged, splats)] && splats' == splats + [merged.splat]
    ensures processed' == processed[merged.children.a := true][merged.children.b := true] + [false]
    ensures nodes' == Without(Without(nodes, merged.children.a), merged.children.b) + [|arena|]
    ensures Consistent(arena', processed', nodes', splats', n) && |nodes'| == |nodes| - 1
    ensures Merged(m, arena', splats', n)
    ensures Mergeable(m, splats', arena') && InArena(arena', Without(Without(nodes, merged.children.a), merged.children.b))
    ensures queue' == (queue - multiset{merged}) +
      Row(m, splats', arena', |arena|, Without(Without(nodes, merged.children.a), merged.children.b))
    ensures QueueOk(m, splats', arena', queue') && Covered(queue', nodes')
  {
    var a := merged.children.a;
    var b := merged.children.b;
    var rest := queue - multiset{merged};
    AcceptKeepsConsistent(arena, processed, nodes, splats, n, merged);
    processed' := processed[a := true][b := true];
    var others := Without(Without(nodes, a), b);
    var slot := |arena|;
    var node := Accepted(merged, splats);
    QueueOkExtend(m, splats, arena, rest, node, merged.splat);
    AcceptKeepsMerged(m, arena, splats, n, merged);
    arena' := arena + [node];
    splats' := splats + [merged.splat];
    processed' := processed' + [false];
    ConsistentMergeable(m, arena', processed', others + [slot], splats', n);
    assert InArena(arena', others);
    queue' := MergeWithActive(m, splats', arena', slot, others, rest);
    RowOk(m, splats', arena', slot, others);
    CoveredAfterAccept(queue, nodes, merged, others, slot, Row(m, splats', arena', slot, others), queue');
    nodes' := others + [slot];
  }

  /**
   * One iteration of build's main loop: pop a candidate of least error;
   * skip it when either child was already merged (only the queue changes),
   * accept it otherwise (AcceptMerge). Returns the candidate popped.
   */
  method MergeStep(m: SplatMath, arena: seq<Node>, processed: seq<bool>, nodes: seq<nat>, splats: seq<Splat>,
                   ghost n: nat, queue: multiset<Node>)
    returns (arena': seq<Node>, processed': seq<bool>, nodes': seq<nat>, splats': seq<Splat>, queue': multiset<Node>,
             top: Node)
    requires Consistent(arena, processed, nodes, splats, n) && PositiveWeights(m) && Merged(m, arena, splats, n)
    requires QueueOk(m, splats, arena, queue) && Covered(queue, nodes) && queue != multiset{}
    ensures Consistent(arena', processed', nodes', splats', n) && Merged(m, arena', splats', n)
    ensures QueueOk(m, splats', arena', queue') && Covered(queue', nodes')
    ensures IsTop(top, queue) && CandidateOk(m, splats, arena, top)
    ensures processed[top.children.a] || processed[top.children.b] ==>
      arena' == arena && processed' == processed && nodes' == nodes && splats' == splats &&
      queue' == queue - multiset{top}
    ensures !processed[top.children.a] && !processed[top.children.b] ==>
      arena' == arena + [Accepted(top, splats)] && splats' == splats + [top.splat] &&
      processed' == processed[top.children.a := true][top.children.b := true] + [false] &&
      nodes' == Without(Without(nodes, top.children.a), top.children.b) + [|arena|] &&
      Mergeable(m, splats', arena') && InArena(arena', Without(Without(nodes, top.children.a), top.children.b)) &&
      queue' == (queue - multiset{top}) + Row(m, splats', arena', |arena|, Without(Without(nodes, top.children.a), top.children.b))
    ensures |nodes'| < |nodes| || (nodes' == nodes && |queue'| < |queue|)
    ensures |nodes'| + |arena'| == |nodes| + |arena|
    ensures |arena| <= |arena'| && forall k :: 0 <= k < |arena| ==> arena'[k] == arena[k] && splats'[k] == splats[k]
  {
    top := Top(queue);
    if processed[top.children.a] || processed[top.children.b] {
      DropStale(m, splats, arena, processed, nodes, queue, top);
      arena', processed', nodes', splats', queue' := arena, processed, nodes, splats, queue - multiset{top};
    } else {
      arena', processed', nodes', splats', queue' := AcceptMerge(m, arena, processed, nodes, splats, n, top, queue);
    }
  }

  /**
   * The main loop of build: merge steps until the queue is empty. Each
   * acceptance removes one active root, so at most one is left.
   */
  method MergeUntilEmpty(m: SplatMath, arena: seq<Node>, processed: seq<bool>, nodes: seq<nat>, splats: seq<Splat>,
                         ghost n: nat, queue: multiset<Node>)
    returns (arena': seq<Node>, processed': seq<bool>, nodes': seq<nat>, splats': seq<Splat>)
    requires Consistent(arena, processed, nodes, splats, n) && PositiveWeights(m) && Merged(m, arena, splats, n)
    requires QueueOk(m, splats, arena, queue) && Covered(queue, nodes)
    ensures Consistent(arena', processed', nodes', splats', n) && Merged(m, arena', splats', n)
    ensures |nodes'| <= 1 && |nodes'| + |arena'| == |nodes| + |arena|
    ensures |arena| <= |arena'| && forall k :: 0 <= k < |arena| ==> arena'[k] == arena[k] && splats'[k] == splats[k]
  {
    arena', processed', nodes', splats' := arena, processed, nodes, splats;
    var q := queue;
    while q != multiset{}
      invariant Consistent(arena', processed', nodes', splats', n) && Merged(m, arena', splats', n)
      invariant QueueOk(m, splats', arena', q) && Covered(q, nodes')
      invariant |nodes'| + |arena'| == |nodes| + |arena|
      invariant |arena| <= |arena'| && forall k :: 0 <= k < |arena| ==> arena'[k] == arena[k] && splats'[k] == splats[k]
      decreases |nodes'|, |q|
    {
      var top;
      arena', processed', nodes', splats', q, top := MergeStep(m, arena', processed', nodes', splats', n, q);
    }
    CoveredEmpty(nodes');
  }

  /**
   * The steps of build after the leaves are in place: seed a candidate for
   * every pair of leaves, then merge until the queue is empty. From n >= 1
   * leaves a single root remains whose tree holds every leaf exactly once.
   */
  method SeedAndMerge(m: SplatMath, arena: seq<Node>, processed: seq<bool>, nodes: seq<nat>, splats: seq<Splat>,
                      ghost n: nat)
    returns (arena': seq<Node>, processed': seq<bool>, nodes': seq<nat>, splats': seq<Splat>)
    requires Consistent(arena, processed, nodes, splats, n) && PositiveWeights(m) && Merged(m, arena, splats, n)
    ensures Consistent(arena', processed', nodes', splats', n) && Merged(m, arena', splats', n)
    ensures |nodes'| <= 1 && |nodes'| + |arena'| == |nodes| + |arena|
    ensures |arena| <= |arena'| && forall k :: 0 <= k < |arena| ==> arena'[k] == arena[k] && splats'[k] == splats[k]
    ensures n >= 1 ==> |nodes'| == 1 && LeafBag(arena', nodes'[0]) == Slots(n)
  {
    ConsistentMergeable(m, arena, processed, nodes, splats, n);
    var queue := SeedPairs(m, splats, arena, nodes);
    SeedOk(m, splats, arena, nodes);
    SeedCovers(m, splats, arena, nodes);
    arena', processed', nodes', splats' := MergeUntilEmpty(m, arena, processed, nodes, splats, n, queue);
    if n >= 1 {
      assert n - 1 in Slots(n);
      assert nodes' == [nodes'[0]];
      assert ForestLeaves(arena', nodes') == LeafBag(arena', nodes'[0]) + ForestLeaves(arena', []);
    }
  }

  /**
   * get_indices_depth's worklist loop over the roots `stack`: a popped node
   * is emitted when its depth is `depth`, replaced by its two children when
   * it is deeper, and dropped when it is shallower.
   */
  method EmitCut(arena: seq<Node>, roots: seq<nat>, depth: nat) returns (indices: seq<nat>)
    requires Forest(arena) && InArena(arena, roots)
    ensures indices == EmitStack(arena, roots, depth)
  {
    indices := [];
    var queue: seq<nat> := [];
    for i := 0 to |roots|
      invariant queue == roots[..i]
    {
      queue := queue + [roots[i]];
    }
    assert queue == roots;
    while queue != []
      invariant InArena(arena, queue)
      invariant indices + EmitStack(arena, queue, depth) == EmitStack(arena, roots, depth)
      decreases StackSize(arena, queue)
    {
      var node := queue[|queue| - 1];
      ghost var before := queue;
      queue := queue[..|queue| - 1];
      if arena[node].depth == depth {
        indices := indices + [arena[node].index];
      } else if arena[node].depth > depth {
        queue := queue + [arena[node].children.a];
        queue := queue + [arena[node].children.b];
        assert queue == ExpandLast(arena, before);
      }
    }
  }

  class HC {
    /** Every node ever accepted, by slot; leaves first. */
    var arena: seq<Node>
    /** Node::processed, by slot. */
    var processed: seq<bool>
    /** The active list: the roots not yet merged. */
    var nodes: seq<nat>
    var splats: seq<Splat>
    /** The number of input splats of the last build. */
    ghost var leafCount: nat

    ghost predicate Valid()
      reads this
    {
      Consistent(arena, processed, nodes, splats, leafCount)
    }

    /** HC(): no nodes, no splats. */
    constructor ()
      ensures Valid()
      ensures arena == [] && processed == [] && nodes == [] && splats == [] && leafCount == 0
    {
      arena := [];
      processed := [];
      nodes := [];
      splats := [];
      leafCount := 0;
      EmptyConsistent();
    }

    /** The first loop of build: one leaf per input splat, each its own active root. */
    method AddLeaves(splatsInit: seq<Splat>)
      requires arena == [] && processed == [] && nodes == [] && splats == []
      modifies this
      ensures Valid() && leafCount == |splatsInit|
      ensures |arena| == |splatsInit| && nodes == Range(0, |splatsInit|) && splats == splatsInit
      ensures forall k :: 0 <= k < |splatsInit| ==> arena[k] == Leaf(splatsInit[k], k)
    {
      var n := |splatsInit|;
      for k := 0 to n
        invariant |arena| == k && |processed| == k && nodes == Range(0, k) && splats == splatsInit[..k]
        invariant forall s :: 0 <= s < k ==> arena[s] == Leaf(splatsInit[s], s) && !processed[s]
      {
        var node := Leaf(splatsInit[k], |nodes|);
        arena := arena + [node];
        processed := processed + [false];
        RangeSnoc(0, k);
        nodes := nodes + [k];
        assert splatsInit[..k + 1] == splatsInit[..k] + [splatsInit[k]];
        splats := splats + [splatsInit[k]];
      }
      leafCount := n;
      assert splatsInit[..n] == splatsInit;
      LeavesConsistent(arena, processed, splatsInit);
    }

    /**
     * HC::build on a fresh HC: one leaf per input splat, then greedy merging
     * of a cheapest pending pair until no candidate is left. For n >= 1
     * inputs exactly n - 1 merges are accepted and a single root remains
     * whose tree holds every input splat exactly once.
     */
    method Build(m: SplatMath, splatsInit: seq<Splat>)
      requires PositiveWeights(m)
      requires arena == [] && processed == [] && nodes == [] && splats == []
      modifies this
      ensures Valid() && leafCount == |splatsInit|
      ensures forall k :: 0 <= k < |splatsInit| ==> arena[k] == Leaf(splatsInit[k], k) && splats[k] == splatsInit[k]
      ensures Merged(m, arena, splats, |splatsInit|)
      ensures |splatsInit| == 0 ==> arena == [] && nodes == []
      ensures |splatsInit| >= 1 ==>
        |nodes| == 1 && |arena| == 2 * |splatsInit| - 1 &&
        LeafBag(arena, nodes[0]) == Slots(|splatsInit|)
    {
      AddLeaves(splatsInit);
      ghost var leaves := arena;
      var arena', processed', nodes', splats' := SeedAndMerge(m, arena, processed, nodes, splats, leafCount);
      assert forall k :: 0 <= k < |splatsInit| ==> arena'[k] == leaves[k] && splats'[k] == splatsInit[k];
      arena, processed, nodes, splats := arena', processed', nodes', splats';
    }

    /**
     * HC::get_indices_depth: the depth cut of the forest of active roots,
     * as the worklist produces it; at depth 0 it is every leaf exactly once.
     */
    method GetIndicesDepth(depth: nat) returns (indices: seq<nat>)
      requires Valid()
      ensures indices == EmitStack(arena, nodes, depth)
      ensures multiset(indices) == CutAll(arena, nodes, depth)
      ensures forall i :: 0 <= i < |indices| ==> indices[i] < |splats| && arena[indices[i]].depth == depth
      ensures depth == 0 ==> multiset(indices) == Slots(leafCount)
    {
      indices := EmitCut(arena, nodes, depth);
      EmitIsCut(arena, nodes, depth);
      EmitDepth(arena, nodes, depth);
      if depth == 0 {
        CutAllZero(arena, nodes);
      }
    }
  }
}
