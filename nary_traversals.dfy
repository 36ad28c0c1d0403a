/**
 * The stack-driven traversals of components/articles/BinaryTrees/nary/traversals.js,
 * each proved equal to a recursive order from module Trees.
 *
 * A stack (`queue` in the source) is a sequence whose last element is the
 * top.  What the nodes still on the stack are going to emit is the recursive
 * order of the stack read from the top down, i.e. of `Reversed(queue)`.
 */
module NaryTraversals {
  import opened Wrappers
  import opened Trees

  /**
   * `children.slice(1, children.length - 1)`: every child but the first and
   * the last, in order; none when there are fewer than three children.
   */
  function MiddleChildren(cs: seq<NTree>): seq<NTree>
  {
    if |cs| >= 2 then cs[1..|cs| - 1] else []
  }

  /** `children[0]`, undefined (None) without children. */
  function FirstChild(cs: seq<NTree>): Option<NTree> {
    if |cs| == 0 then None else Some(cs[0])
  }

  /** `children.slice(-1)[0]`, undefined (None) without children. */
  function LastChild(cs: seq<NTree>): Option<NTree> {
    if |cs| == 0 then None else Some(cs[|cs| - 1])
  }

  /** What the in-order loop emits for its `current` pointer: nothing when it is undefined. */
  function Run(current: Option<NTree>): seq<int> {
    if current.None? then [] else Inorder(current.value)
  }

  function OptSize(current: Option<NTree>): nat {
    if current.None? then 0 else Size(current.value)
  }

  // ---------------------------------------------------------------- pre-order

  /** Popping t and pushing its children in reverse leaves the pending pre-order unchanged after t's value. */
  lemma PreorderPop(init: seq<NTree>, t: NTree)
    ensures PreorderForest(Reversed(init + [t]))
         == [t.val] + PreorderForest(Reversed(init + Reversed(t.children)))
  {
    ReversedAppend(init, [t]);
    ReversedSingleton(t);
    assert ([t] + Reversed(init))[1..] == Reversed(init);
    ReversedAppend(init, Reversed(t.children));
    ReversedTwice(t.children);
    PreorderForestAppend(t.children, Reversed(init));
  }

  /**
   * `preorderTraverse`: the values in recursive pre-order (the node, then each
   * child's pre-order from left to right).  The first pop reads `val` of the
   * root, so a null root throws.
   */
  method PreorderTraverse(node: Option<NTree>) returns (r: Result<seq<int>>)
    ensures node.None? ==> r == Throws(ReadOfNull("val"))
    ensures node.Some? ==> r == Ok(Preorder(node.value))
  {
    if node.None? {
      return Throws(ReadOfNull("val"));
    }
    var root := node.value;
    var queue := [root];
    var output := [];
    assert Reversed(queue) == [root];
    while |queue| > 0
      invariant output + PreorderForest(Reversed(queue)) == Preorder(root)
      decreases |Preorder(root)| - |output|
    {
      ghost var before := queue;
      var current := queue[|queue| - 1];
      queue := queue[..|queue| - 1];
      assert before == queue + [current];
      PreorderPop(queue, current);
      output := output + [current.val];
      queue := queue + Reversed(current.children);
    }
    assert output + [] == output;
    return Ok(output);
  }

  // ---------------------------------------------------------------- in-order

  /** What the nodes on the stack still emit, popped from the top (the end) down. */
  function StackOutput(q: seq<NTree>): seq<int> {
    if q == [] then [] else InorderPopped(q[|q| - 1]) + StackOutput(q[..|q| - 1])
  }

  /** Pushing r on top of q: r's nodes are popped first. */
  lemma {:induction false} StackOutputAppend(q: seq<NTree>, r: seq<NTree>)
    ensures StackOutput(q + r) == StackOutput(r) + StackOutput(q)
    decreases |r|
  {
    if r == [] {
      assert q + r == q;
    } else {
      var init := r[..|r| - 1];
      assert (q + r)[..|q + r| - 1] == q + init;
      StackOutputAppend(q, init);
      Assoc(InorderPopped(r[|r| - 1]), StackOutput(init), StackOutput(q));
    }
  }

  /** Children pushed in reverse are popped in their own order. */
  lemma {:induction false} StackOutputReversed(m: seq<NTree>)
    ensures StackOutput(Reversed(m)) == PoppedForest(m)
    decreases |m|
  {
    if m != [] {
      assert m == [m[0]] + m[1..];
      ReversedAppend([m[0]], m[1..]);
      ReversedSingleton(m[0]);
      StackOutputReversed(m[1..]);
      StackOutputAppend(Reversed(m[1..]), [m[0]]);
      assert StackOutput([m[0]]) == InorderPopped(m[0]) + StackOutput([]);
    }
  }

  /** Inorder in terms of the three things the push branch separates. */
  lemma InorderSplit(c: NTree)
    ensures Inorder(c) == Run(FirstChild(c.children)) + PoppedForest(MiddleChildren(c.children)) + InorderPopped(c)
  {
    var cs := c.children;
    var n := |cs|;
    var first := if n == 0 then [] else Inorder(cs[0]);
    var middles := InorderMiddles(c, 1, if n >= 1 then n - 1 else 0);
    assert Inorder(c) == first + middles + InorderPopped(c);
    assert Run(FirstChild(cs)) == first;
    if n >= 2 {
      MiddlesAsForest(c, 1, n - 1);
      assert MiddleChildren(cs) == cs[1..n - 1];
    } else {
      assert middles == [] == PoppedForest(MiddleChildren(cs));
    }
  }

  /**
   * The push branch: pushing `current` and then its middle children in
   * reverse, before descending into the first child, keeps what is still to
   * be emitted.
   */
  lemma InorderPush(q: seq<NTree>, c: NTree)
    ensures Inorder(c) + StackOutput(q)
         == Run(FirstChild(c.children)) + StackOutput(q + [c] + Reversed(MiddleChildren(c.children)))
  {
    var m := MiddleChildren(c.children);
    var first, middles, popped, rest := Run(FirstChild(c.children)), PoppedForest(m), InorderPopped(c), StackOutput(q);
    InorderSplit(c);
    assert StackOutput([c]) == popped + [];
    StackOutputAppend(q, [c]);
    StackOutputReversed(m);
    StackOutputAppend(q + [c], Reversed(m));
    assert StackOutput(q + [c] + Reversed(m)) == middles + (popped + rest);
    Assoc(first + middles, popped, rest);
    Assoc(first, middles, popped + rest);
  }

  /**
   * The in-order loop's state: what is already in `output`, then what
   * `current` and the stack will emit, is the whole traversal.
   */
  predicate InorderState(output: seq<int>, current: Option<NTree>, q: seq<NTree>, total: seq<int>) {
    output + Run(current) + StackOutput(q) == total
  }

  /** The loop's push branch keeps the state and descends into a smaller subtree. */
  lemma InorderPushStep(output: seq<int>, q: seq<NTree>, c: NTree, total: seq<int>)
    requires InorderState(output, Some(c), q, total)
    ensures InorderState(output, FirstChild(c.children), q + [c] + Reversed(MiddleChildren(c.children)), total)
    ensures OptSize(FirstChild(c.children)) < OptSize(Some(c))
  {
    InorderPush(q, c);
    var m := StackOutput(q + [c] + Reversed(MiddleChildren(c.children)));
    assert Run(Some(c)) == Inorder(c);
    Assoc(output, Inorder(c), StackOutput(q));
    Assoc(output, Run(FirstChild(c.children)), m);
    if |c.children| > 0 {
      ChildSmaller(c, 0);
    }
  }

  /** The loop's pop branch: the top node's value is emitted, then a run on its last child. */
  lemma InorderPopStep(output: seq<int>, q: seq<NTree>, total: seq<int>)
    requires |q| > 0
    requires InorderState(output, None, q, total)
    ensures InorderState(output + [q[|q| - 1].val], LastChild(q[|q| - 1].children), q[..|q| - 1], total)
    ensures |output| < |total|
  {
    var c := q[|q| - 1];
    assert StackOutput(q) == InorderPopped(c) + StackOutput(q[..|q| - 1]);
    assert InorderPopped(c) == [c.val] + Run(LastChild(c.children));
    Regroup(output, [c.val], Run(LastChild(c.children)), StackOutput(q[..|q| - 1]));
  }

  /**
   * `inorderTraverse`: the values in the order Inorder defines (first child's
   * run, middle children as popped nodes, the node, the last child's run).
   * It only enters the loop while `current` is set or the stack is non-empty,
   * so a null root gives the empty array.
   */
  method InorderTraverse(node: Option<NTree>) returns (output: seq<int>)
    ensures output == Run(node)
    ensures node.Some? ==> output == Inorder(node.value)
    ensures node.None? ==> output == []
  {
    ghost var total := Run(node);
    var queue: seq<NTree> := [];
    output := [];
    var current := node;
    assert InorderState(output, current, queue, total) by {
      assert output + Run(current) + StackOutput(queue) == total;
    }
    while current.Some? || |queue| > 0
      invariant InorderState(output, current, queue, total)
      invariant |output| <= |total|
      decreases |total| - |output|, OptSize(current)
    {
      if current.Some? {
        var c := current.value;
        InorderPushStep(output, queue, c, total);
        queue := queue + [c] + Reversed(MiddleChildren(c.children));
        current := FirstChild(c.children);
      } else {
        InorderPopStep(output, queue, total);
        var c := queue[|queue| - 1];
        queue := queue[..|queue| - 1];
        output := output + [c.val];
        current := LastChild(c.children);
      }
    }
    assert output + [] + [] == output;
  }

  // ---------------------------------------------------------------- post-order

  /** Popping t and pushing its children in order moves t's value in front of the output. */
  lemma PostorderPop(init: seq<NTree>, t: NTree)
    ensures PostorderForest(init + [t]) == PostorderForest(init + t.children) + [t.val]
  {
    PostorderForestAppend(init, [t]);
    PostorderForestAppend(init, t.children);
    assert [t][1..] == [];
  }

  /**
   * `postorderTraverse`: the values in recursive post-order (each child's
   * post-order from left to right, then the node), built by `unshift`.  A
   * null root throws on the first read of `val`.
   */
  method PostorderTraverse(node: Option<NTree>) returns (r: Result<seq<int>>)
    ensures node.None? ==> r == Throws(ReadOfNull("val"))
    ensures node.Some? ==> r == Ok(Postorder(node.value))
  {
    if node.None? {
      return Throws(ReadOfNull("val"));
    }
    var root := node.value;
    var queue := [root];
    var output := [];
    assert queue == [] + [root];
    PostorderForestAppend([], queue);
    while |queue| > 0
      invariant PostorderForest(queue) + output == Postorder(root)
      decreases |Postorder(root)| - |output|
    {
      ghost var before := queue;
      var current := queue[|queue| - 1];
      queue := queue[..|queue| - 1];
      assert before == queue + [current];
      PostorderPop(queue, current);
      output := [current.val] + output;
      queue := queue + current.children;
    }
    assert [] + output == output;
    return Ok(output);
  }
}
