/**
 * The animated N-ary `preorderTraverse` of components/articles/BinaryTrees/traversals.js.
 * Its stack may hold a null entry (only the root can be one, since children
 * are node objects), which is skipped; every other pop waits one pause and
 * then reports the node through `setVisited(val, true)`.
 */
module AnimatedTraversals {
  import opened Wrappers
  import opened Trees
  import opened Animation
  import NaryTraversals

  /** The nodes of a stack that are not null, bottom to top. */
  function Present(q: seq<Option<NTree>>): (p: seq<NTree>)
    ensures |p| <= |q|
  {
    if q == [] then []
    else Present(q[..|q| - 1]) + (if q[|q| - 1].Some? then [q[|q| - 1].value] else [])
  }

  /** Children pushed onto the stack: all of them are present. */
  function Lift(ts: seq<NTree>): seq<Option<NTree>> {
    seq(|ts|, i requires 0 <= i < |ts| => Some(ts[i]))
  }

  lemma {:induction false} PresentLift(q: seq<Option<NTree>>, ts: seq<NTree>)
    ensures Present(q + Lift(ts)) == Present(q) + ts
  {
    if ts == [] {
      assert q + Lift(ts) == q;
    } else {
      var init := ts[..|ts| - 1];
      PresentLift(q, init);
      assert (q + Lift(ts))[..|q + Lift(ts)| - 1] == q + Lift(init);
      assert Present(q) + init + [ts[|ts| - 1]] == Present(q) + ts;
    }
  }

  /** The values the trace has still to report for a stack. */
  function Pending(q: seq<Option<NTree>>): seq<int> {
    PreorderForest(Reversed(Present(q)))
  }

  /** The pre-order of a possibly null root. */
  function OptPreorder(node: Option<NTree>): seq<int> {
    if node.None? then [] else Preorder(node.value)
  }

  /** The initial stack `[node]` holds exactly the root's pre-order. */
  lemma PendingStart(node: Option<NTree>)
    ensures Pending([node]) == OptPreorder(node)
  {
    var q := [node];
    assert q[..0] == [];
    if node.Some? {
      var v := node.value;
      assert Present(q) == [] + [v] == [v];
      ReversedSingleton(v);
      assert [v][1..] == [];
      assert PreorderForest([v]) == Preorder(v) + PreorderForest([]);
      assert Preorder(v) + [] == Preorder(v);
    } else {
      assert Present(q) == [] + [] == [];
    }
  }

  /** Popping a null entry reports nothing. */
  lemma SkipStep(q: seq<Option<NTree>>)
    requires |q| > 0 && q[|q| - 1].None?
    ensures Pending(q[..|q| - 1]) == Pending(q)
  {
    var p := Present(q[..|q| - 1]);
    assert Present(q) == p + [];
    assert p + [] == p;
  }

  /** Popping a node reports its value, then what its reversed children and the rest of the stack hold. */
  lemma VisitStep(trace: seq<Event>, q: seq<Option<NTree>>, total: seq<Event>)
    requires |q| > 0 && q[|q| - 1].Some?
    requires trace + Visits(Pending(q)) == total
    ensures var t := q[|q| - 1].value;
            (trace + [Pause, SetVisited(t.val, true)])
              + Visits(Pending(q[..|q| - 1] + Lift(Reversed(t.children)))) == total
  {
    var t := q[|q| - 1].value;
    var init := q[..|q| - 1];
    assert Present(q) == Present(init) + [t];
    NaryTraversals.PreorderPop(Present(init), t);
    PresentLift(init, Reversed(t.children));
    var rest := Pending(init + Lift(Reversed(t.children)));
    assert Pending(q) == [t.val] + rest;
    assert Visits([t.val] + rest) == [Pause, SetVisited(t.val, true)] + Visits(rest);
    Assoc(trace, [Pause, SetVisited(t.val, true)], Visits(rest));
  }

  /**
   * The animated `preorderTraverse`: a pause and a `setVisited(val, true)`
   * for each node in pre-order, and nothing at all for a null root.
   */
  method PreorderTraverse(node: Option<NTree>) returns (trace: seq<Event>)
    ensures trace == Visits(OptPreorder(node))
  {
    var queue := [node];
    trace := [];
    PendingStart(node);
    while |queue| > 0
      invariant trace + Visits(Pending(queue)) == Visits(OptPreorder(node))
      decreases |Visits(OptPreorder(node))| - |trace|, |queue|
    {
      var current := queue[|queue| - 1];
      if current.None? {
        SkipStep(queue);
        queue := queue[..|queue| - 1];
        continue;
      }
      VisitStep(trace, queue, Visits(OptPreorder(node)));
      queue := queue[..|queue| - 1];
      trace := trace + [Pause, SetVisited(current.value.val, true)];
      queue := queue + Lift(Reversed(current.value.children));
    }
    assert trace + [] == trace;
  }

  /** The calls report every node of a non-null tree exactly once, in the order the array version returns. */
  lemma AnimatedReportsEachNode(t: NTree)
    ensures |Preorder(t)| == Size(t)
    ensures |Visits(OptPreorder(Some(t)))| == 2 * Size(t)
    ensures forall i :: 0 <= i < |Preorder(t)| ==>
      Visits(OptPreorder(Some(t)))[2 * i] == Pause &&
      Visits(OptPreorder(Some(t)))[2 * i + 1] == SetVisited(Preorder(t)[i], true)
    ensures multiset(Preorder(t)) == Nodes(t)
  {
    PreorderNodes(t);
    VisitsAt(Preorder(t));
  }
}
