/**
 * The second pass of building an octree: a breadth-first walk from the
 * root over the grown arena that replaces every node having exactly one
 * child by that child, so that no node reachable from the root keeps a
 * single child, and that leaves the reachable nodes in the queue in
 * breadth-first order.
 */
module OctreeCollapse {
  import opened Common
  import opened OctreeNodes
  import opened OctreeShape

  /**
   * The breadth-first layout of a queue q over arena a: q starts at the
   * root and holds distinct slots; the children of q[k] sit, in order, at
   * q[starts[k] .. starts[k + 1]], always after position k; up[j] is the
   * position whose children include position j.
   */
  ghost predicate Layout(a: seq<ONode>, q: seq<nat>, starts: seq<nat>, up: seq<nat>) {
    q != [] && q[0] == 0 && Distinct(q) && (forall j :: 0 <= j < |q| ==> q[j] < |a|) &&
    |starts| == |q| + 1 && starts[0] == 1 && starts[|q|] == |q| &&
    (forall k :: 0 <= k <= |q| ==> starts[k] <= |q|) &&
    (forall k {:trigger starts[k], q[k]} :: 0 <= k < |q| ==> k < starts[k] && starts[k + 1] == starts[k] + |a[q[k]].children|) &&
    (forall k, i {:trigger a[q[k]].children[i]} :: 0 <= k < |q| && 0 <= i < |a[q[k]].children| ==>
      HoldsAt(q, starts[k] + i, |q|, a[q[k]].children[i])) &&
    |up| == |q| &&
    (forall j :: 1 <= j < |q| ==> up[j] < j && starts[up[j]] <= j < starts[up[j] + 1])
  }

  /** The first n entries of q are slots below `bound`. */
  ghost predicate Below(q: seq<nat>, n: nat, bound: nat) {
    n <= |q| && forall j :: 0 <= j < n ==> q[j] < bound
  }

  /** Position p of s lies below `bound` and holds v. */
  ghost predicate HoldsAt(s: seq<nat>, p: nat, bound: nat, v: nat) {
    p < bound && p < |s| && s[p] == v
  }

  /** Where the queue's children lists start, for the first `counter` dequeued positions. */
  ghost predicate Starts(a: seq<ONode>, q: seq<nat>, counter: nat, size: nat, starts: seq<nat>)
    requires counter <= size && Below(q, size, |a|)
  {
    |starts| == counter + 1 && starts[0] == 1 && starts[counter] == size &&
    (forall k :: 0 <= k <= counter ==> starts[k] <= size) &&
    (forall k {:trigger starts[k], q[k]} :: 0 <= k < counter ==> k < starts[k] && starts[k + 1] == starts[k] + |a[q[k]].children|) &&
    (forall k, i {:trigger a[q[k]].children[i]} :: 0 <= k < counter && 0 <= i < |a[q[k]].children| ==>
      HoldsAt(q, starts[k] + i, size, a[q[k]].children[i]))
  }

  /** Starts only looks at the dequeued entries' nodes. */
  lemma StartsFrame(a: seq<ONode>, a2: seq<ONode>, q: seq<nat>, counter: nat, size: nat, starts: seq<nat>)
    requires counter <= size && |a2| == |a| && Below(q, size, |a|)
    requires forall k :: 0 <= k < counter ==> a2[q[k]] == a[q[k]]
    requires Starts(a, q, counter, size, starts)
    ensures Starts(a2, q, counter, size, starts)
  {
    forall k | 0 <= k < counter ensures k < starts[k] && starts[k + 1] == starts[k] + |a2[q[k]].children| {
      assert a2[q[k]] == a[q[k]];
    }
    forall k, i | 0 <= k < counter && 0 <= i < |a2[q[k]].children|
      ensures HoldsAt(q, starts[k] + i, size, a2[q[k]].children[i])
    {
      assert a2[q[k]].children[i] == a[q[k]].children[i];
    }
  }

  /**
   * The state of the collapse loop over the grown arena g: the queue's
   * first `size` entries are distinct heads of g; the first `counter` of
   * them have been collapsed (each now holds the node its chain ends at)
   * and their children enqueued; the entry at `counter` holds g[cur], some
   * node down its chain; every slot not yet enqueued is as grown.
   */
  ghost predicate CollapseInv(g: seq<ONode>, par: seq<nat>, a: seq<ONode>, q: seq<nat>,
                              counter: nat, size: nat, cur: nat, starts: seq<nat>, up: seq<nat>)
  {
    QueueOk(g, par, q, size) && counter <= size && |a| == |g| &&
    Fresh(g, a, q, counter, size) && CurOk(g, a, q, counter, size, cur) && DoneOk(g, a, q, counter, size) &&
    Starts(a, q, counter, size, starts) && UpOk(starts, up, counter, size)
  }

  /** The queue's first `size` entries are distinct heads of g, the root first. */
  ghost predicate QueueOk(g: seq<ONode>, par: seq<nat>, q: seq<nat>, size: nat) {
    Tree(g, par) && g != [] && |q| == |g| && 0 < size <= |g| && q[0] == 0 &&
    Below(q, size, |g|) &&
    (forall j {:trigger Head(g, par, q[j])} :: 0 <= j < size ==> Head(g, par, q[j])) &&
    Distinct(q[..size])
  }

  /** Slots not enqueued, and entries enqueued after `counter`, still hold their grown node. */
  ghost predicate Fresh(g: seq<ONode>, a: seq<ONode>, q: seq<nat>, counter: nat, size: nat)
    requires |a| == |g| && Below(q, size, |g|)
  {
    (forall y :: 0 <= y < |g| && y !in q[..size] ==> a[y] == g[y]) &&
    (forall j {:trigger a[q[j]]} :: counter < j < size ==> a[q[j]] == g[q[j]])
  }

  /** The entry at `counter` holds g[cur], a node down its own chain. */
  ghost predicate CurOk(g: seq<ONode>, a: seq<ONode>, q: seq<nat>, counter: nat, size: nat, cur: nat)
    requires Ordered(g) && |a| == |g| && Below(q, size, |g|)
  {
    counter < size ==> cur < |g| && OnChain(g, q[counter], cur) && a[q[counter]] == g[cur]
  }

  /** Each dequeued entry holds the node its chain ends at. */
  ghost predicate DoneOk(g: seq<ONode>, a: seq<ONode>, q: seq<nat>, counter: nat, size: nat)
    requires Ordered(g) && |a| == |g| && counter <= size && Below(q, size, |g|)
  {
    forall k {:trigger a[q[k]]} :: 0 <= k < counter ==> a[q[k]] == g[Chase(g, q[k])]
  }

  /** Each enqueued entry but the root lies in the children range of an earlier dequeued entry. */
  ghost predicate UpOk(starts: seq<nat>, up: seq<nat>, counter: nat, size: nat)
    requires |starts| == counter + 1
  {
    |up| == size &&
    (forall j :: 1 <= j < size ==> up[j] < counter && starts[up[j]] <= j < starts[up[j] + 1])
  }

  /** The loop starts with the root alone in the queue. */
  lemma CollapseStart(g: seq<ONode>, par: seq<nat>, q: seq<nat>)
    requires Tree(g, par) && g != [] && q == Range(0, |g|)[0 := 0]
    ensures CollapseInv(g, par, g, q, 0, 1, 0, [1], [0])
  {
    assert q[..1] == [0];
  }

  /**
   * Collapsing one step: the node at `counter` has one child c, which no
   * queue entry names (it is not a head), and it takes c's contents.
   */
  lemma CollapseStep(g: seq<ONode>, par: seq<nat>, a: seq<ONode>, q: seq<nat>,
                     counter: nat, size: nat, cur: nat, starts: seq<nat>, up: seq<nat>)
    requires CollapseInv(g, par, a, q, counter, size, cur, starts, up) == true
    requires counter < size && |a[q[counter]].children| == 1
    ensures cur < a[q[counter]].children[0] < |g|
    ensures a[a[q[counter]].children[0]] == g[a[q[counter]].children[0]]
    ensures CollapseInv(g, par, a[q[counter] := a[a[q[counter]].children[0]]], q,
                        counter, size, a[q[counter]].children[0], starts, up)
  {
    var x, c := q[counter], g[cur].children[0];
    assert par[c] == cur && c != 0;
    forall j | 0 <= j < size ensures q[..size][j] != c {
      assert Head(g, par, q[j]);
    }
    ChainStep(g, x, cur);
    PrefixOthers(q, size, counter);
    StepFresh(g, a, q, counter, size, c);
    StepDone(g, a, q, counter, size, a[c]);
    StartsFrame(a, a[x := a[c]], q, counter, size, starts);
  }

  /** In a duplicate-free prefix, the entry at position p occurs nowhere else in it. */
  lemma PrefixOthers(q: seq<nat>, size: nat, p: nat)
    requires p < size <= |q| && Distinct(q[..size])
    ensures forall k :: 0 <= k < size && k != p ==> q[k] != q[p]
  {
    forall k | 0 <= k < size && k != p ensures q[k] != q[p] {
      assert q[..size][k] == q[k] && q[..size][p] == q[p];
    }
  }

  /** Overwriting the entry at `counter` with a slot's node that is not enqueued keeps Fresh. */
  lemma StepFresh(g: seq<ONode>, a: seq<ONode>, q: seq<nat>, counter: nat, size: nat, c: nat)
    requires |a| == |g| && counter < size && Below(q, size, |g|)
    requires Fresh(g, a, q, counter, size) && c < |g| && c !in q[..size]
    requires forall k :: 0 <= k < size && k != counter ==> q[k] != q[counter]
    ensures Fresh(g, a[q[counter] := a[c]], q, counter, size)
  {
    assert q[counter] == q[..size][counter];
  }

  /** Overwriting the entry at `counter` leaves the dequeued entries alone. */
  lemma StepDone(g: seq<ONode>, a: seq<ONode>, q: seq<nat>, counter: nat, size: nat, v: ONode)
    requires Ordered(g) && |a| == |g| && counter < size && Below(q, size, |g|)
    requires DoneOk(g, a, q, counter, size)
    requires forall k :: 0 <= k < counter ==> q[k] != q[counter]
    ensures DoneOk(g, a[q[counter] := v], q, counter, size)
  {
  }

  /**
   * The children of a node that does not have one child are heads, differ
   * from every entry already enqueued (their parent is where this entry's
   * chain ends, which no earlier entry's chain reaches), and so still fit
   * in the queue.
   */
  lemma PushFits(g: seq<ONode>, par: seq<nat>, a: seq<ONode>, q: seq<nat>,
                 counter: nat, size: nat, cur: nat, starts: seq<nat>, up: seq<nat>)
    requires CollapseInv(g, par, a, q, counter, size, cur, starts, up) == true
    requires counter < size && |a[q[counter]].children| != 1
    ensures Chase(g, q[counter]) == cur
    ensures forall i :: 0 <= i < |g[cur].children| ==>
      g[cur].children[i] < |g| && Head(g, par, g[cur].children[i]) && g[cur].children[i] !in q[..size]
    ensures Distinct(q[..size] + g[cur].children)
    ensures size + |g[cur].children| <= |g|
  {
    var x, cs := q[counter], g[cur].children;
    ChaseAlong(g, x, cur);
    ChildrenHeads(g, par, cur);
    OthersParents(g, par, a, q, counter, size, cur, starts, up);
    forall i | 0 <= i < |cs| ensures cs[i] !in q[..size] {
      forall j | 0 <= j < size ensures q[..size][j] != cs[i] {
        if j == 0 {
          assert cs[i] > cur;
        } else {
          assert par[q[j]] != cur;
        }
      }
    }
    DistinctAppend(q[..size], cs);
    DistinctBounded(q[..size] + cs, |g|);
  }

  /** The children of a node that does not have one child are heads below it, in increasing order. */
  lemma ChildrenHeads(g: seq<ONode>, par: seq<nat>, e: nat)
    requires Tree(g, par) && e < |g| && |g[e].children| != 1
    ensures Distinct(g[e].children)
    ensures forall i :: 0 <= i < |g[e].children| ==>
      e < g[e].children[i] < |g| && par[g[e].children[i]] == e && Head(g, par, g[e].children[i])
  {
    assert Increasing(g[e].children);
  }

  /**
   * No entry enqueued after the root has the node where the entry at
   * `counter` ends as its parent: each was enqueued as a child of the end
   * of an earlier, different head's chain.
   */
  lemma OthersParents(g: seq<ONode>, par: seq<nat>, a: seq<ONode>, q: seq<nat>,
                      counter: nat, size: nat, cur: nat, starts: seq<nat>, up: seq<nat>)
    requires CollapseInv(g, par, a, q, counter, size, cur, starts, up) == true
    requires counter < size && Chase(g, q[counter]) == cur
    ensures forall j :: 1 <= j < size ==> par[q[j]] != cur
  {
    PrefixOthers(q, size, counter);
    forall j | 1 <= j < size ensures par[q[j]] != cur {
      var k := up[j];
      EnqueuedParent(g, par, a, q, counter, size, starts, up, j);
      ChaseDistinct(g, par, q[k], q[counter]);
    }
  }

  /** An entry enqueued after the root is a child of where the chain of the entry `up` names ends. */
  lemma EnqueuedParent(g: seq<ONode>, par: seq<nat>, a: seq<ONode>, q: seq<nat>,
                       counter: nat, size: nat, starts: seq<nat>, up: seq<nat>, j: nat)
    requires QueueOk(g, par, q, size) && counter <= size && |a| == |g|
    requires DoneOk(g, a, q, counter, size) && Starts(a, q, counter, size, starts) && UpOk(starts, up, counter, size)
    requires 1 <= j < size
    ensures up[j] < counter && par[q[j]] == Chase(g, q[up[j]])
  {
    var k := up[j];
    var i := j - starts[k];
    assert i < |a[q[k]].children|;
    assert HoldsAt(q, starts[k] + i, size, a[q[k]].children[i]);
    assert a[q[k]] == g[Chase(g, q[k])];
  }

  /**
   * Finishing an entry, first half: the children of an entry whose node has
   * no or several children are enqueued as fresh heads.
   */
  lemma AdvanceHeads(g: seq<ONode>, par: seq<nat>, a: seq<ONode>, q: seq<nat>,
                     counter: nat, size: nat, cur: nat, starts: seq<nat>, up: seq<nat>, q2: seq<nat>)
    requires CollapseInv(g, par, a, q, counter, size, cur, starts, up) == true
    requires counter < size && |a[q[counter]].children| != 1
    requires Pushed(q, size, a[q[counter]].children, q2) == true
    ensures QueueOk(g, par, q2, size + |a[q[counter]].children|)
  {
    PushFits(g, par, a, q, counter, size, cur, starts, up);
    AdvQueue(g, par, q, size, a[q[counter]].children, q2);
  }

  /**
   * Finishing an entry, second half: the entry is done, the enqueued
   * children are untouched, and the next entry is visited from its own node.
   */
  lemma AdvanceDone(g: seq<ONode>, par: seq<nat>, a: seq<ONode>, q: seq<nat>,
                    counter: nat, size: nat, cur: nat, starts: seq<nat>, up: seq<nat>, q2: seq<nat>)
    requires CollapseInv(g, par, a, q, counter, size, cur, starts, up) == true
    requires counter < size && |a[q[counter]].children| != 1
    requires Pushed(q, size, a[q[counter]].children, q2) == true
    ensures Below(q2, size + |a[q[counter]].children|, |g|)
    ensures DoneOk(g, a, q2, counter + 1, size + |a[q[counter]].children|)
    ensures Fresh(g, a, q2, counter + 1, size + |a[q[counter]].children|)
    ensures CurOk(g, a, q2, counter + 1, size + |a[q[counter]].children|,
                  if counter + 1 < size + |a[q[counter]].children| then q2[counter + 1] else 0)
  {
    var cs := a[q[counter]].children;
    PushFits(g, par, a, q, counter, size, cur, starts, up);
    AdvFresh(g, a, q, counter, size, cs, q2);
    AdvDone(g, a, q, counter, size, cur, q2, |cs|);
  }

  /**
   * Finishing an entry, second half: the entry at `counter` holds where its
   * chain ends, and its children's range starts where the queue ended.
   */
  lemma AdvanceLayout(g: seq<ONode>, a: seq<ONode>, q: seq<nat>,
                      counter: nat, size: nat, starts: seq<nat>, up: seq<nat>, q2: seq<nat>)
    requires |a| == |g| && counter < size && Below(q, size, |g|)
    requires Starts(a, q, counter, size, starts) && UpOk(starts, up, counter, size)
    requires Pushed(q, size, a[q[counter]].children, q2) == true
    requires Below(q2, size + |a[q[counter]].children|, |g|)
    ensures Starts(a, q2, counter + 1, size + |a[q[counter]].children|, starts + [size + |a[q[counter]].children|])
    ensures UpOk(starts + [size + |a[q[counter]].children|], up + Repeat(counter, |a[q[counter]].children|),
                 counter + 1, size + |a[q[counter]].children|)
  {
    var cs := a[q[counter]].children;
    StartsPush(a, q, counter, size, cs, starts, q2, starts + [size + |cs|]);
    AdvUp(starts, up, counter, size, |cs|);
  }

  /** The children of the entry at `counter`, if it does not have one child, fit in the queue. */
  lemma RoomFor(g: seq<ONode>, par: seq<nat>, a: seq<ONode>, q: seq<nat>,
                counter: nat, size: nat, cur: nat, starts: seq<nat>, up: seq<nat>)
    requires CollapseInv(g, par, a, q, counter, size, cur, starts, up) == true
    requires counter < size && |a[q[counter]].children| != 1
    ensures size + |a[q[counter]].children| <= |q|
  {
    PushFits(g, par, a, q, counter, size, cur, starts, up);
  }

  /**
   * Finishing an entry whose node has no or several children: it is done
   * (its chain ends here), its children are enqueued behind the others,
   * and the next entry, if any, is looked at from its own slot.
   */
  lemma Advance(g: seq<ONode>, par: seq<nat>, a: seq<ONode>, q: seq<nat>,
                counter: nat, size: nat, cur: nat, starts: seq<nat>, up: seq<nat>,
                q2: seq<nat>, size2: nat, cur2: nat, starts2: seq<nat>, up2: seq<nat>)
    requires CollapseInv(g, par, a, q, counter, size, cur, starts, up) == true
    requires counter < size && |a[q[counter]].children| != 1
    requires Pushed(q, size, a[q[counter]].children, q2) == true
    requires size2 == size + |a[q[counter]].children| && counter + 1 <= size2 <= |q2|
    requires cur2 == if counter + 1 < size2 then q2[counter + 1] else 0
    requires starts2 == starts + [size2] && up2 == up + Repeat(counter, |a[q[counter]].children|)
    ensures CollapseInv(g, par, a, q2, counter + 1, size2, cur2, starts2, up2) == true
  {
    AdvanceHeads(g, par, a, q, counter, size, cur, starts, up, q2);
    AdvanceDone(g, par, a, q, counter, size, cur, starts, up, q2);
    AdvanceLayout(g, a, q, counter, size, starts, up, q2);
  }

  /** Enqueuing new heads keeps the queue's prefix a duplicate-free list of heads. */
  lemma AdvQueue(g: seq<ONode>, par: seq<nat>, q: seq<nat>, size: nat, cs: seq<nat>, q2: seq<nat>)
    requires QueueOk(g, par, q, size) && size + |cs| <= |g|
    requires forall i :: 0 <= i < |cs| ==> cs[i] < |g| && Head(g, par, cs[i])
    requires Distinct(q[..size] + cs)
    requires Pushed(q, size, cs, q2) == true
    ensures QueueOk(g, par, q2, size + |cs|)
  {
    assert q2[..size + |cs|] == q[..size] + cs;
    forall j | size <= j < size + |cs| ensures q2[j] < |g| && Head(g, par, q2[j]) {
      assert q2[j] == cs[j - size];
    }
  }

  /** q2 is q with the children list `cs` written in from position `size` on. */
  ghost predicate Pushed(q: seq<nat>, size: nat, cs: seq<nat>, q2: seq<nat>) {
    size + |cs| <= |q| == |q2| &&
    (forall j :: 0 <= j < size ==> q2[j] == q[j]) &&
    (forall i :: 0 <= i < |cs| ==> q2[size + i] == cs[i]) &&
    (forall j :: size + |cs| <= j < |q| ==> q2[j] == q[j])
  }

  /** Enqueuing children that were not enqueued keeps Fresh one position further on. */
  lemma AdvFresh(g: seq<ONode>, a: seq<ONode>, q: seq<nat>, counter: nat, size: nat, cs: seq<nat>, q2: seq<nat>)
    requires |a| == |g| && counter < size && Below(q, size, |g|)
    requires Fresh(g, a, q, counter, size)
    requires forall i :: 0 <= i < |cs| ==> cs[i] < |g| && cs[i] !in q[..size]
    requires Pushed(q, size, cs, q2) == true
    ensures Below(q2, size + |cs|, |g|)
    ensures Fresh(g, a, q2, counter + 1, size + |cs|)
    ensures counter + 1 < size + |cs| ==> a[q2[counter + 1]] == g[q2[counter + 1]]
  {
    forall j | 0 <= j < size + |cs| ensures q2[j] < |g| && (counter < j ==> a[q2[j]] == g[q2[j]]) {
      if j >= size {
        assert q2[j] == cs[j - size];
      }
    }
    assert q2[..size + |cs|] == q[..size] + cs;
    forall y | 0 <= y < |g| && y !in q2[..size + |cs|] ensures a[y] == g[y] {
      assert y !in q[..size];
    }
  }

  /** The entry at `counter`, whose chain ends at cur and which holds g[cur], is done. */
  lemma AdvDone(g: seq<ONode>, a: seq<ONode>, q: seq<nat>, counter: nat, size: nat, cur: nat, q2: seq<nat>, n: nat)
    requires Ordered(g) && |a| == |g| && counter < size && Below(q, size, |g|) && Below(q2, size + n, |g|)
    requires DoneOk(g, a, q, counter, size)
    requires Chase(g, q[counter]) == cur && a[q[counter]] == g[cur]
    requires forall j :: 0 <= j < size ==> q2[j] == q[j]
    ensures DoneOk(g, a, q2, counter + 1, size + n)
  {
  }

  /** The children of the entry at `counter`, written in where the queue ended, start there. */
  lemma StartsPush(a: seq<ONode>, q: seq<nat>, counter: nat, size: nat, cs: seq<nat>, starts: seq<nat>,
                    q2: seq<nat>, s2: seq<nat>)
    requires counter < size && Pushed(q, size, cs, q2)
    requires Below(q, size, |a|) && Below(q2, size + |cs|, |a|)
    requires Starts(a, q, counter, size, starts) && a[q[counter]].children == cs
    requires |s2| == counter + 2 && s2[counter + 1] == size + |cs|
    requires forall k :: 0 <= k <= counter ==> s2[k] == starts[k]
    ensures Starts(a, q2, counter + 1, size + |cs|, s2)
  {
    forall k | 0 <= k <= counter + 1 ensures s2[k] <= size + |cs| {
      if k <= counter {
        assert s2[k] == starts[k];
      }
    }
    StartsPushSteps(a, q, counter, size, cs, starts, q2, s2);
    StartsPushHolds(a, q, counter, size, cs, starts, q2, s2);
  }

  /** Each dequeued entry's children range still ends where the next one starts. */
  lemma StartsPushSteps(a: seq<ONode>, q: seq<nat>, counter: nat, size: nat, cs: seq<nat>, starts: seq<nat>,
                        q2: seq<nat>, s2: seq<nat>)
    requires counter < size && Pushed(q, size, cs, q2)
    requires Below(q, size, |a|) && Below(q2, size + |cs|, |a|)
    requires Starts(a, q, counter, size, starts) && a[q[counter]].children == cs
    requires |s2| == counter + 2 && s2[counter + 1] == size + |cs|
    requires forall k :: 0 <= k <= counter ==> s2[k] == starts[k]
    ensures forall k :: 0 <= k < counter + 1 ==> k < s2[k] && s2[k + 1] == s2[k] + |a[q2[k]].children|
  {
    forall k | 0 <= k < counter + 1 ensures k < s2[k] && s2[k + 1] == s2[k] + |a[q2[k]].children| {
      assert s2[k] == starts[k] && q2[k] == q[k];
      if k < counter {
        assert s2[k + 1] == starts[k + 1];
      }
    }
  }

  /** Each dequeued entry's children sit in the queue from its start on. */
  lemma StartsPushHolds(a: seq<ONode>, q: seq<nat>, counter: nat, size: nat, cs: seq<nat>, starts: seq<nat>,
                        q2: seq<nat>, s2: seq<nat>)
    requires counter < size && Pushed(q, size, cs, q2)
    requires Below(q, size, |a|) && Below(q2, size + |cs|, |a|)
    requires Starts(a, q, counter, size, starts) && a[q[counter]].children == cs
    requires |s2| == counter + 2 && s2[counter + 1] == size + |cs|
    requires forall k :: 0 <= k <= counter ==> s2[k] == starts[k]
    ensures forall k, i {:trigger a[q2[k]].children[i]} :: 0 <= k < counter + 1 && 0 <= i < |a[q2[k]].children| ==>
      HoldsAt(q2, s2[k] + i, size + |cs|, a[q2[k]].children[i])
  {
    forall k, i | 0 <= k < counter + 1 && 0 <= i < |a[q2[k]].children|
      ensures HoldsAt(q2, s2[k] + i, size + |cs|, a[q2[k]].children[i])
    {
      if k < counter {
        assert s2[k] == starts[k] && a[q2[k]].children[i] == a[q[k]].children[i];
        assert HoldsAt(q, starts[k] + i, size, a[q[k]].children[i]);
        assert q2[starts[k] + i] == q[starts[k] + i];
      } else {
        assert k == counter && s2[counter] == starts[counter] == size;
        assert q2[k] == q[k] && q2[size + i] == cs[i];
      }
    }
  }

  /** The positions the new children take have the entry at `counter` as the one above them. */
  lemma AdvUp(starts: seq<nat>, up: seq<nat>, counter: nat, size: nat, n: nat)
    requires |starts| == counter + 1 && starts[counter] == size
    requires UpOk(starts, up, counter, size)
    ensures UpOk(starts + [size + n], up + Repeat(counter, n), counter + 1, size + n)
  {
    var up2 := up + Repeat(counter, n);
    forall j | 1 <= j < size + n
      ensures up2[j] < counter + 1 && (starts + [size + n])[up2[j]] <= j < (starts + [size + n])[up2[j] + 1]
    {
      if j < size {
        assert up2[j] == up[j];
      } else {
        assert up2[j] == counter;
      }
    }
  }

  /** The first n queue entries, once all of them are dequeued, are laid out breadth-first. */
  lemma LayoutTake(a: seq<ONode>, q: seq<nat>, n: nat, starts: seq<nat>, up: seq<nat>)
    requires 0 < n && Below(q, n, |a|) && q[0] == 0 && Distinct(q[..n])
    requires Starts(a, q, n, n, starts) && UpOk(starts, up, n, n)
    ensures Layout(a, q[..n], starts, up)
  {
    var r := q[..n];
    forall k | 0 <= k < n ensures k < starts[k] && starts[k + 1] == starts[k] + |a[r[k]].children| {
      assert r[k] == q[k];
    }
    forall k, i | 0 <= k < n && 0 <= i < |a[r[k]].children|
      ensures HoldsAt(r, starts[k] + i, n, a[r[k]].children[i])
    {
      assert r[k] == q[k];
      assert starts[k] + i < starts[k + 1] <= n;
    }
    forall j | 1 <= j < n ensures up[j] < j {
      assert up[j] < starts[up[j]] by { assert r[up[j]] == q[up[j]]; }
    }
  }

  /** When the queue is exhausted, its dequeued part is laid out breadth-first and fully collapsed. */
  lemma CollapseEnd(g: seq<ONode>, par: seq<nat>, a: seq<ONode>, q: seq<nat>,
                    counter: nat, size: nat, cur: nat, starts: seq<nat>, up: seq<nat>)
    requires CollapseInv(g, par, a, q, counter, size, cur, starts, up) == true && size <= counter
    ensures Layout(a, q[..size], starts, up)
    ensures forall k :: 0 <= k < |q[..size]| ==> Head(g, par, q[..size][k]) && a[q[..size][k]] == g[Chase(g, q[..size][k])]
  {
    LayoutTake(a, q, size, starts, up);
    forall k | 0 <= k < |q[..size]| ensures Head(g, par, q[..size][k]) && a[q[..size][k]] == g[Chase(g, q[..size][k])] {
      assert q[..size][k] == q[k] && Head(g, par, q[k]);
    }
  }

  /** Writes the children list `cs` into the queue from position `size` on; the queue has room for them. */
  method Enqueue(q: seq<nat>, size: nat, cs: seq<nat>) returns (q2: seq<nat>, size2: nat)
    requires size + |cs| <= |q|
    ensures size2 == size + |cs| && Pushed(q, size, cs, q2) == true
  {
    q2, size2 := q, size;
    for i := 0 to |cs|
      invariant size2 == size + i && |q2| == |q|
      invariant forall j :: 0 <= j < size ==> q2[j] == q[j]
      invariant forall k :: 0 <= k < i ==> q2[size + k] == cs[k]
      invariant forall j :: size2 <= j < |q| ==> q2[j] == q[j]
    {
      q2 := q2[size2 := cs[i]];
      size2 := size2 + 1;
    }
  }

  /** The visited node has exactly one child: it takes over every field of that child and is visited again. */
  method Absorb(g: seq<ONode>, ghost par: seq<nat>, a: seq<ONode>, q: seq<nat>, counter: nat, size: nat,
                ghost cur: nat, ghost starts: seq<nat>, ghost up: seq<nat>) returns (a2: seq<ONode>, ghost cur2: nat)
    requires CollapseInv(g, par, a, q, counter, size, cur, starts, up) == true
    requires counter < size && |a[q[counter]].children| == 1
    ensures a2 == a[q[counter] := a[a[q[counter]].children[0]]]
    ensures cur < cur2 < |g| && CollapseInv(g, par, a2, q, counter, size, cur2, starts, up)
  {
    CollapseStep(g, par, a, q, counter, size, cur, starts, up);
    var x := q[counter];
    a2, cur2 := a[x := a[a[x].children[0]]], a[x].children[0];
  }

  /**
   * The visited node has no child or several: its children are enqueued behind the others and
   * the next entry is looked at from its own slot.
   */
  method Expand(g: seq<ONode>, ghost par: seq<nat>, a: seq<ONode>, q: seq<nat>, counter: nat, size: nat,
                ghost cur: nat, ghost starts: seq<nat>, ghost up: seq<nat>)
    returns (q2: seq<nat>, size2: nat, ghost cur2: nat, ghost starts2: seq<nat>, ghost up2: seq<nat>)
    requires CollapseInv(g, par, a, q, counter, size, cur, starts, up) == true
    requires counter < size && |a[q[counter]].children| != 1
    ensures size2 == size + |a[q[counter]].children| && Pushed(q, size, a[q[counter]].children, q2) == true
    ensures CollapseInv(g, par, a, q2, counter + 1, size2, cur2, starts2, up2) == true
    ensures counter < |g|
  {
    var cs := a[q[counter]].children;
    RoomFor(g, par, a, q, counter, size, cur, starts, up);
    q2, size2 := Enqueue(q, size, cs);
    cur2 := if counter + 1 < size2 then q2[counter + 1] else 0;
    starts2, up2 := starts + [size2], up + Repeat(counter, |cs|);
    Advance(g, par, a, q, counter, size, cur, starts, up, q2, size2, cur2, starts2, up2);
  }

  /** One turn of the collapse loop: absorb the only child of the visited node, or enqueue its children and move on. */
  method CollapseVisit(g: seq<ONode>, ghost par: seq<nat>, a: seq<ONode>, q: seq<nat>, counter: nat, size: nat,
               ghost cur: nat, ghost starts: seq<nat>, ghost up: seq<nat>)
    returns (a2: seq<ONode>, q2: seq<nat>, counter2: nat, size2: nat,
             ghost cur2: nat, ghost starts2: seq<nat>, ghost up2: seq<nat>)
    requires CollapseInv(g, par, a, q, counter, size, cur, starts, up) == true && counter < size
    ensures CollapseInv(g, par, a2, q2, counter2, size2, cur2, starts2, up2) == true
    ensures |a[q[counter]].children| == 1 ==>
      a2 == a[q[counter] := a[a[q[counter]].children[0]]] && q2 == q && counter2 == counter && size2 == size
    ensures |a[q[counter]].children| != 1 ==>
      a2 == a && counter2 == counter + 1 &&
      size2 == size + |a[q[counter]].children| && Pushed(q, size, a[q[counter]].children, q2) == true
    ensures counter2 <= |g|
    ensures counter < counter2 || (counter2 == counter && cur < cur2 < |g|)
  {
    if |a[q[counter]].children| == 1 {
      a2, cur2 := Absorb(g, par, a, q, counter, size, cur, starts, up);
      q2, counter2, size2, starts2, up2 := q, counter, size, starts, up;
    } else {
      q2, size2, cur2, starts2, up2 := Expand(g, par, a, q, counter, size, cur, starts, up);
      a2, counter2 := a, counter + 1;
    }
  }

  /**
   * Collapses every chain of single-child nodes of the split tree `g` into its head, visiting the
   * heads breadth-first from the root; returns the rewritten arena and the visited heads in order.
   */
  method Collapse(g: seq<ONode>, ghost par: seq<nat>) returns (a: seq<ONode>, q: seq<nat>,
                                                             ghost starts: seq<nat>, ghost up: seq<nat>)
    requires Tree(g, par) && g != []
    ensures |a| == |g| && Layout(a, q, starts, up)
    ensures forall k :: 0 <= k < |q| ==> Head(g, par, q[k]) && a[q[k]] == g[Chase(g, q[k])]
  {
    a, q := g, Range(0, |g|)[0 := 0];
    var counter: nat, size: nat := 0, 1;
    ghost var cur: nat := 0;
    starts, up := [1], [0];
    CollapseStart(g, par, q);
    while counter < size
      invariant CollapseInv(g, par, a, q, counter, size, cur, starts, up) == true
      decreases |g| - counter, |g| - cur
    {
      a, q, counter, size, cur, starts, up := CollapseVisit(g, par, a, q, counter, size, cur, starts, up);
    }
    CollapseEnd(g, par, a, q, counter, size, cur, starts, up);
    q := q[..size];
  }
}
