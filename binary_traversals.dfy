/**
 * The traversals of components/articles/BinaryTrees/binary/traversals.js over
 * binary trees, where Nil stands for a null `left`, `right` or root.
 * Stacks have their top at the end; the post-order queue has its head at
 * the front (`shift`) and grows at the end (`push`).
 */
module BinaryTraversals {
  import opened Wrappers
  import opened Trees
  import opened Animation

  // ---------------------------------------------------------------- pre-order

  /** What a pre-order stack still emits: the top's pre-order first. */
  function PendingPreorder(q: seq<BTree>): seq<int> {
    if q == [] then [] else BPreorder(q[|q| - 1]) + PendingPreorder(q[..|q| - 1])
  }

  /** `if (current.right) push(right); if (current.left) push(left)`. */
  function PushChildren(q: seq<BTree>, t: BTree): seq<BTree>
    requires t.BNode?
  {
    q + (if t.right.BNode? then [t.right] else []) + (if t.left.BNode? then [t.left] else [])
  }

  lemma PendingPreorderPush(q: seq<BTree>, t: BTree)
    requires t.BNode?
    ensures PendingPreorder(PushChildren(q, t))
         == BPreorder(t.left) + BPreorder(t.right) + PendingPreorder(q)
  {
    var r := q + (if t.right.BNode? then [t.right] else []);
    assert PendingPreorder(r) == BPreorder(t.right) + PendingPreorder(q) by {
      if t.right.BNode? {
        assert r[..|r| - 1] == q;
      } else {
        assert r == q;
      }
    }
    var l := PushChildren(q, t);
    if t.left.BNode? {
      assert l[..|l| - 1] == r;
    } else {
      assert l == r;
    }
  }

  /**
   * The pre-order loop's state: what is already in `output`, then what the
   * stack will emit, is the whole traversal.
   */
  predicate PreorderState(output: seq<int>, q: seq<BTree>, total: seq<int>) {
    output + PendingPreorder(q) == total
  }

  /** Popping a null entry emits nothing. */
  lemma PreorderSkip(output: seq<int>, q: seq<BTree>, total: seq<int>)
    requires |q| > 0 && q[|q| - 1].Nil?
    requires PreorderState(output, q, total)
    ensures PreorderState(output, q[..|q| - 1], total)
  {
    assert BPreorder(q[|q| - 1]) == [];
    assert [] + PendingPreorder(q[..|q| - 1]) == PendingPreorder(q[..|q| - 1]);
  }

  /** Popping a node emits its value; its children's pre-orders come next. */
  lemma PreorderVisit(output: seq<int>, q: seq<BTree>, total: seq<int>)
    requires |q| > 0 && q[|q| - 1].BNode?
    requires PreorderState(output, q, total)
    ensures PreorderState(output + [q[|q| - 1].val], PushChildren(q[..|q| - 1], q[|q| - 1]), total)
    ensures |output| < |total|
  {
    var t := q[|q| - 1];
    var init := q[..|q| - 1];
    PendingPreorderPush(init, t);
    assert PendingPreorder(q) == BPreorder(t) + PendingPreorder(init);
    assert BPreorder(t) == [t.val] + BPreorder(t.left) + BPreorder(t.right);
    Assoc([t.val], BPreorder(t.left), BPreorder(t.right));
    Regroup(output, [t.val], BPreorder(t.left) + BPreorder(t.right), PendingPreorder(init));
    Assoc(output + [t.val], BPreorder(t.left) + BPreorder(t.right), PendingPreorder(init));
  }

  /**
   * `binaryPreorderTraverse`: the node, the left pre-order, the right
   * pre-order.  Null entries are skipped, so a null root gives `[]`.
   */
  method BinaryPreorderTraverse(node: BTree) returns (output: seq<int>)
    ensures output == BPreorder(node)
  {
    ghost var total := BPreorder(node);
    var queue := [node];
    output := [];
    assert PreorderState(output, queue, total) by {
      assert queue[..0] == [];
      assert PendingPreorder(queue) == BPreorder(node) + [];
    }
    while |queue| > 0
      invariant PreorderState(output, queue, total)
      invariant |output| <= |total|
      decreases |total| - |output|, |queue|
    {
      var current := queue[|queue| - 1];
      if current.Nil? {
        PreorderSkip(output, queue, total);
        queue := queue[..|queue| - 1];
        continue;
      }
      PreorderVisit(output, queue, total);
      queue := queue[..|queue| - 1];
      ghost var rest := queue;
      output := output + [current.val];
      if current.right.BNode? {
        queue := queue + [current.right];
      }
      if current.left.BNode? {
        queue := queue + [current.left];
      }
      assert queue == PushChildren(rest, current);
    }
    assert output + [] == output;
  }

  /** The returned array has one entry per node, every node exactly once, and is empty for a null root. */
  lemma BinaryPreorderCounts(t: BTree)
    ensures |BPreorder(t)| == BSize(t)
    ensures multiset(BPreorder(t)) == BNodes(t)
    ensures t.Nil? ==> BPreorder(t) == []
    ensures t.BNode? ==> BPreorder(t)[0] == t.val
  {
    BPreorderNodes(t);
  }

  // ---------------------------------------------------------------- in-order

  /** What an in-order stack still reports: each popped node's value, then its right subtree. */
  function PendingInorder(q: seq<BTree>): seq<int> {
    if q == [] then []
    else if q[|q| - 1].Nil? then PendingInorder(q[..|q| - 1])
    else [q[|q| - 1].val] + BInorder(q[|q| - 1].right) + PendingInorder(q[..|q| - 1])
  }

  /** The push branch: descending left after pushing the current node. */
  lemma InorderPushStep(visited: seq<int>, q: seq<BTree>, c: BTree, total: seq<int>)
    requires c.BNode?
    requires visited + BInorder(c) + PendingInorder(q) == total
    ensures visited + BInorder(c.left) + PendingInorder(q + [c]) == total
    ensures BSize(c.left) < BSize(c)
  {
    assert (q + [c])[..|q|] == q;
    Regroup(visited, BInorder(c.left), [c.val] + BInorder(c.right), PendingInorder(q));
    Assoc(BInorder(c.left), [c.val], BInorder(c.right));
  }

  /** The pop branch: reporting the top node, then descending right. */
  lemma InorderPopStep(visited: seq<int>, q: seq<BTree>, total: seq<int>)
    requires |q| > 0 && q[|q| - 1].BNode?
    requires visited + BInorder(Nil) + PendingInorder(q) == total
    ensures var c := q[|q| - 1];
            (visited + [c.val]) + BInorder(c.right) + PendingInorder(q[..|q| - 1]) == total
  {
    var c := q[|q| - 1];
    assert visited + BInorder(Nil) == visited;
    Regroup(visited, [c.val], BInorder(c.right), PendingInorder(q[..|q| - 1]));
  }

  /**
   * `binaryInOrderTraverse`: a pause and then `setVisited(val, true)` for
   * each node in left-node-right order; no calls for a null root.
   */
  method BinaryInOrderTraverse(node: BTree) returns (trace: seq<Event>)
    ensures trace == Visits(BInorder(node))
  {
    var queue: seq<BTree> := [];
    var current := node;
    trace := [];
    ghost var visited: seq<int> := [];
    while current.BNode? || |queue| > 0
      invariant forall i :: 0 <= i < |queue| ==> queue[i].BNode?
      invariant trace == Visits(visited)
      invariant visited + BInorder(current) + PendingInorder(queue) == BInorder(node)
      decreases |BInorder(node)| - |visited|, BSize(current)
    {
      if current.BNode? {
        InorderPushStep(visited, queue, current, BInorder(node));
        queue := queue + [current];
        current := current.left;
      } else {
        InorderPopStep(visited, queue, BInorder(node));
        current := queue[|queue| - 1];
        queue := queue[..|queue| - 1];
        VisitsAppend(visited, [current.val]);
        trace := trace + [Pause, SetVisited(current.val, true)];
        visited := visited + [current.val];
        current := current.right;
      }
    }
    assert visited + [] + [] == visited;
  }

  /** Each node is reported exactly once, each call preceded by exactly one pause. */
  lemma BinaryInOrderCounts(t: BTree)
    ensures |BInorder(t)| == BSize(t)
    ensures |Visits(BInorder(t))| == 2 * BSize(t)
    ensures multiset(BInorder(t)) == BNodes(t)
    ensures forall i :: 0 <= i < |BInorder(t)| ==>
      Visits(BInorder(t))[2 * i] == Pause && Visits(BInorder(t))[2 * i + 1] == SetVisited(BInorder(t)[i], true)
    ensures t.Nil? ==> Visits(BInorder(t)) == []
  {
    BInorderNodes(t);
    VisitsAt(BInorder(t));
  }

  // ---------------------------------------------------------------- "post-order"

  /** How a bounded run of `binaryPostorderTraverse` ends. */
  datatype RunStatus = Finished | OutOfFuel | Threw(error: JsError)

  /** `queue.shift()` then `if (left) push(current, left); if (right) push(right)`. */
  function Requeue(rest: seq<BTree>, c: BTree): seq<BTree>
    requires c.BNode?
  {
    rest + (if c.left.BNode? then [c, c.left] else []) + (if c.right.BNode? then [c.right] else [])
  }

  /**
   * At most `fuel` iterations of the loop in `binaryPostorderTraverse`, started
   * from `queue`: the events emitted and how the run ended.  A null head is
   * only dereferenced after its pause.
   */
  function PostorderRun(queue: seq<BTree>, fuel: nat): (r: (seq<Event>, RunStatus))
    decreases fuel
  {
    if queue == [] then ([], Finished)
    else if fuel == 0 then ([], OutOfFuel)
    else if queue[0].Nil? then ([Pause], Threw(ReadOfNull("val")))
    else
      var next := PostorderRun(Requeue(queue[1..], queue[0]), fuel - 1);
      ([Pause, SetVisited(queue[0].val, true)] + next.0, next.1)
  }

  /**
   * `binaryPostorderTraverse`, run for at most `fuel` iterations, since the
   * loop itself need not stop.
   */
  method BinaryPostorderTraverse(node: BTree, fuel: nat) returns (trace: seq<Event>, status: RunStatus)
    ensures (trace, status) == PostorderRun([node], fuel)
  {
    var queue := [node];
    var steps := 0;
    trace := [];
    while |queue| > 0 && steps < fuel
      invariant steps <= fuel
      invariant trace + PostorderRun(queue, fuel - steps).0 == PostorderRun([node], fuel).0
      invariant PostorderRun(queue, fuel - steps).1 == PostorderRun([node], fuel).1
      decreases fuel - steps
    {
      var current := queue[0];
      queue := queue[1..];
      ghost var rest := queue;
      if current.Nil? {
        // setVisited(current.val, true) reads `val` of null after the pause
        return trace + [Pause], Threw(ReadOfNull("val"));
      }
      ghost var next := PostorderRun(Requeue(queue, current), fuel - steps - 1);
      Assoc(trace, [Pause, SetVisited(current.val, true)], next.0);
      trace := trace + [Pause, SetVisited(current.val, true)];
      if current.left.BNode? {
        queue := queue + [current];
        queue := queue + [current.left];
      }
      if current.right.BNode? {
        queue := queue + [current.right];
      }
      assert queue == Requeue(rest, current);
      steps := steps + 1;
    }
    assert trace + [] == trace;
    if |queue| == 0 {
      return trace, Finished;
    }
    return trace, OutOfFuel;
  }

  /** The first dequeued node is the root, visited at once: a null root throws after one pause. */
  lemma PostorderRootFirst(t: BTree, fuel: nat)
    requires fuel >= 1
    ensures t.BNode? ==>
      (|PostorderRun([t], fuel).0| >= 2 && PostorderRun([t], fuel).0[..2] == [Pause, SetVisited(t.val, true)])
    ensures t.Nil? ==> PostorderRun([t], fuel) == ([Pause], Threw(ReadOfNull("val")))
  {
  }

  predicate AllNodes(q: seq<BTree>) {
    forall i :: 0 <= i < |q| ==> q[i].BNode?
  }

  /** Some queued node has a left child. */
  predicate SomeLeft(q: seq<BTree>) {
    exists i :: 0 <= i < |q| && q[i].BNode? && q[i].left.BNode?
  }

  /**
   * Once a node with a left child is queued the queue never empties: that
   * node is pushed back behind its left child each time it is dequeued.
   */
  lemma {:induction false} StuckForever(q: seq<BTree>, fuel: nat)
    requires AllNodes(q) && SomeLeft(q)
    ensures PostorderRun(q, fuel).1 == OutOfFuel
    ensures |PostorderRun(q, fuel).0| == 2 * fuel
    decreases fuel
  {
    if fuel > 0 {
      var c := q[0];
      var next := Requeue(q[1..], c);
      assert AllNodes(next);
      if c.left.BNode? {
        assert next[|q| - 1] == c;
      } else {
        var i :| 0 <= i < |q| && q[i].BNode? && q[i].left.BNode?;
        assert next[i - 1] == q[i];
      }
      StuckForever(next, fuel - 1);
    }
  }

  /** A tree that is not left-free never finishes: every iteration emits a pause and a call. */
  lemma {:induction false} PostorderNeverFinishes(t: BTree, fuel: nat)
    requires !LeftFree(t)
    ensures PostorderRun([t], fuel).1 == OutOfFuel
    ensures |PostorderRun([t], fuel).0| == 2 * fuel
    decreases t
  {
    if t.left.BNode? {
      assert [t][0] == t;
      StuckForever([t], fuel);
    } else if fuel > 0 {
      assert Requeue([t][1..], t) == [t.right];
      PostorderNeverFinishes(t.right, fuel - 1);
    }
  }

  /**
   * With no left children the queue holds one node at a time, so the run
   * visits the root and then the right chain downwards, and stops after
   * BSize(t) iterations.
   */
  lemma {:induction false} LeftFreeRun(t: BTree, fuel: nat)
    requires LeftFree(t) && t.BNode?
    ensures |BPreorder(t)| == BSize(t)
    ensures fuel >= BSize(t) ==> PostorderRun([t], fuel) == (Visits(BPreorder(t)), Finished)
    ensures fuel < BSize(t) ==> PostorderRun([t], fuel) == (Visits(BPreorder(t)[..fuel]), OutOfFuel)
    decreases t
  {
    BPreorderNodes(t);
    if fuel == 0 {
      assert BPreorder(t)[..0] == [];
    } else if t.right.Nil? {
      LeftFreeLeaf(t, fuel);
    } else {
      LeftFreeRun(t.right, fuel - 1);
      LeftFreeStep(t, fuel);
    }
  }

  /** One iteration on a single queued node without a left child. */
  lemma RunOneNode(t: BTree, fuel: nat)
    requires t.BNode? && t.left.Nil? && fuel > 0
    ensures PostorderRun([t], fuel).1 == PostorderRun(if t.right.Nil? then [] else [t.right], fuel - 1).1
    ensures PostorderRun([t], fuel).0 == [Pause, SetVisited(t.val, true)] + PostorderRun(if t.right.Nil? then [] else [t.right], fuel - 1).0
  {
    assert Requeue([t][1..], t) == if t.right.Nil? then [] else [t.right];
  }

  /** The last node of a right chain: one visit and the queue is empty. */
  lemma LeftFreeLeaf(t: BTree, fuel: nat)
    requires t.BNode? && t.left.Nil? && t.right.Nil? && fuel > 0
    ensures PostorderRun([t], fuel) == (Visits(BPreorder(t)), Finished)
  {
    RunOneNode(t, fuel);
    assert BPreorder(t) == [t.val];
    assert Visits([t.val]) == [Pause, SetVisited(t.val, true)] + Visits([]);
  }

  /** A chain node with a right child: its visit, then the run on the right child. */
  lemma LeftFreeStep(t: BTree, fuel: nat)
    requires t.BNode? && t.left.Nil? && t.right.BNode? && fuel > 0
    requires |BPreorder(t)| == BSize(t) && |BPreorder(t.right)| == BSize(t.right)
    requires fuel - 1 >= BSize(t.right) ==> PostorderRun([t.right], fuel - 1) == (Visits(BPreorder(t.right)), Finished)
    requires fuel - 1 < BSize(t.right) ==> PostorderRun([t.right], fuel - 1) == (Visits(BPreorder(t.right)[..fuel - 1]), OutOfFuel)
    ensures fuel >= BSize(t) ==> PostorderRun([t], fuel) == (Visits(BPreorder(t)), Finished)
    ensures fuel < BSize(t) ==> PostorderRun([t], fuel) == (Visits(BPreorder(t)[..fuel]), OutOfFuel)
  {
    var v := t.val;
    var p := BPreorder(t.right);
    RunOneNode(t, fuel);
    assert BPreorder(t) == [v] + p;
    assert BSize(t) == 1 + BSize(t.right);
    assert Visits([v] + p) == [Pause, SetVisited(v, true)] + Visits(p);
    if fuel < BSize(t) {
      assert ([v] + p)[..fuel] == [v] + p[..fuel - 1];
      assert Visits([v] + p[..fuel - 1]) == [Pause, SetVisited(v, true)] + Visits(p[..fuel - 1]);
    }
  }

  /** The run finishes exactly on non-null left-free trees given at least one iteration per node. */
  lemma PostorderFinishesIff(t: BTree, fuel: nat)
    ensures PostorderRun([t], fuel).1 == Finished <==> t.BNode? && LeftFree(t) && fuel >= BSize(t)
  {
    if !LeftFree(t) {
      PostorderNeverFinishes(t, fuel);
    } else if t.BNode? {
      LeftFreeRun(t, fuel);
    }
  }

  /** What a finished run reports is the true post-order backwards, not the post-order. */
  lemma LeftFreeReportsReversedPostorder(t: BTree, fuel: nat)
    requires LeftFree(t) && t.BNode? && fuel >= BSize(t)
    ensures PostorderRun([t], fuel).0 == Visits(Reversed(BPostorder(t)))
  {
    LeftFreeRun(t, fuel);
    LeftFreePostorder(t);
    ReversedTwice(BPreorder(t));
  }
}
