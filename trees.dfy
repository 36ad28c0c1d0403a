/**
 * Finite trees as values, and the recursive traversal orders that the
 * stack-driven traversals in components/articles/BinaryTrees are measured
 * against.
 */
module Trees {

  /** An N-ary node `{val, children}`. */
  datatype NTree = NNode(val: int, children: seq<NTree>)

  /** A binary node `{val, left, right}`; Nil is `null`. */
  datatype BTree = Nil | BNode(val: int, left: BTree, right: BTree)

  // ---------------------------------------------------------------- N-ary trees

  function Size(t: NTree): nat
    decreases t
  {
    1 + ForestSize(t.children)
  }

  function ForestSize(ts: seq<NTree>): nat
    decreases ts
  {
    if ts == [] then 0 else Size(ts[0]) + ForestSize(ts[1..])
  }

  /** The multiset of node values: what "every node exactly once" is measured against. */
  function Nodes(t: NTree): multiset<int>
    decreases t
  {
    multiset{t.val} + ForestNodes(t.children)
  }

  function ForestNodes(ts: seq<NTree>): multiset<int>
    decreases ts
  {
    if ts == [] then multiset{} else Nodes(ts[0]) + ForestNodes(ts[1..])
  }

  /** Pre-order: the node, then each child's pre-order from left to right. */
  function Preorder(t: NTree): seq<int>
    decreases t
  {
    [t.val] + PreorderForest(t.children)
  }

  function PreorderForest(ts: seq<NTree>): seq<int>
    decreases ts
  {
    if ts == [] then [] else Preorder(ts[0]) + PreorderForest(ts[1..])
  }

  /** Post-order: each child's post-order from left to right, then the node. */
  function Postorder(t: NTree): seq<int>
    decreases t
  {
    PostorderForest(t.children) + [t.val]
  }

  function PostorderForest(ts: seq<NTree>): seq<int>
    decreases ts
  {
    if ts == [] then [] else Postorder(ts[0]) + PostorderForest(ts[1..])
  }

  /**
   * The order produced by `inorderTraverse` in nary/traversals.js, written
   * recursively: the first child's run, then the middle children (indices
   * 1 .. n-2) each as a popped node, then the node itself as a popped node.
   */
  function Inorder(t: NTree): seq<int>
    decreases t, 2, 0
  {
    var n := |t.children|;
    (if n == 0 then [] else Inorder(t.children[0]))
    + InorderMiddles(t, 1, if n >= 1 then n - 1 else 0)
    + InorderPopped(t)
  }

  /**
   * What popping t off the stack emits: t's value, then the run of its last
   * child (`children.slice(-1)[0]`), if it has children.
   */
  function InorderPopped(t: NTree): seq<int>
    decreases t, 1, 0
  {
    [t.val] + (if |t.children| == 0 then [] else Inorder(t.children[|t.children| - 1]))
  }

  /** InorderPopped of children lo .. hi-1, in order. */
  function InorderMiddles(t: NTree, lo: nat, hi: nat): seq<int>
    requires hi <= |t.children|
    decreases t, 0, hi - lo
  {
    if lo >= hi then [] else InorderPopped(t.children[lo]) + InorderMiddles(t, lo + 1, hi)
  }

  /** InorderPopped of each tree of a forest, in order. */
  function PoppedForest(ts: seq<NTree>): seq<int>
    decreases ts
  {
    if ts == [] then [] else InorderPopped(ts[0]) + PoppedForest(ts[1..])
  }

  /**
   * A reference generalisation of in-order to N children: the first child's
   * subtree, the node, then the remaining children's subtrees in order.
   */
  function GeneralInorder(t: NTree): seq<int>
    decreases t, 1
  {
    if |t.children| == 0 then [t.val]
    else GeneralInorder(t.children[0]) + [t.val] + GeneralInorderRest(t, 1)
  }

  function GeneralInorderRest(t: NTree, k: nat): seq<int>
    requires k <= |t.children|
    decreases t, 0, |t.children| - k
  {
    if k == |t.children| then [] else GeneralInorder(t.children[k]) + GeneralInorderRest(t, k + 1)
  }

  /** Every node has zero or two children. */
  predicate ZeroOrTwo(t: NTree)
    decreases t
  {
    (|t.children| == 0 || |t.children| == 2) &&
    forall k :: 0 <= k < |t.children| ==> ZeroOrTwo(t.children[k])
  }

  /** The binary tree with the same shape as a zero-or-two-children tree. */
  function AsBinary(t: NTree): BTree
    requires ZeroOrTwo(t)
    decreases t
  {
    if |t.children| == 0 then BNode(t.val, Nil, Nil)
    else BNode(t.val, AsBinary(t.children[0]), AsBinary(t.children[1]))
  }

  // ---------------------------------------------------------------- binary trees

  function BSize(t: BTree): nat {
    if t.Nil? then 0 else 1 + BSize(t.left) + BSize(t.right)
  }

  function BNodes(t: BTree): multiset<int> {
    if t.Nil? then multiset{} else multiset{t.val} + BNodes(t.left) + BNodes(t.right)
  }

  function BPreorder(t: BTree): seq<int> {
    if t.Nil? then [] else [t.val] + BPreorder(t.left) + BPreorder(t.right)
  }

  function BInorder(t: BTree): seq<int> {
    if t.Nil? then [] else BInorder(t.left) + [t.val] + BInorder(t.right)
  }

  function BPostorder(t: BTree): seq<int> {
    if t.Nil? then [] else BPostorder(t.left) + BPostorder(t.right) + [t.val]
  }

  /** No node of t has a left child. */
  predicate LeftFree(t: BTree) {
    t.Nil? || (t.left.Nil? && LeftFree(t.right))
  }

  /** s backwards: a stack read from the top down. */
  function Reversed<T>(s: seq<T>): seq<T> {
    if s == [] then [] else [s[|s| - 1]] + Reversed(s[..|s| - 1])
  }

  // ---------------------------------------------------------------- lemmas

  lemma {:induction false} ForestSizeAppend(a: seq<NTree>, b: seq<NTree>)
    ensures ForestSize(a + b) == ForestSize(a) + ForestSize(b)
  {
    if a == [] {
      assert a + b == b;
    } else {
      assert (a + b)[1..] == a[1..] + b;
      ForestSizeAppend(a[1..], b);
    }
  }

  lemma {:induction false} PreorderForestAppend(a: seq<NTree>, b: seq<NTree>)
    ensures PreorderForest(a + b) == PreorderForest(a) + PreorderForest(b)
  {
    if a == [] {
      assert a + b == b;
    } else {
      assert (a + b)[1..] == a[1..] + b;
      PreorderForestAppend(a[1..], b);
    }
  }

  lemma {:induction false} PostorderForestAppend(a: seq<NTree>, b: seq<NTree>)
    ensures PostorderForest(a + b) == PostorderForest(a) + PostorderForest(b)
  {
    if a == [] {
      assert a + b == b;
    } else {
      assert (a + b)[1..] == a[1..] + b;
      PostorderForestAppend(a[1..], b);
    }
  }

  lemma {:induction false} PoppedForestAppend(a: seq<NTree>, b: seq<NTree>)
    ensures PoppedForest(a + b) == PoppedForest(a) + PoppedForest(b)
  {
    if a == [] {
      assert a + b == b;
    } else {
      assert (a + b)[1..] == a[1..] + b;
      PoppedForestAppend(a[1..], b);
    }
  }

  /** A child is strictly smaller than its parent. */
  lemma ChildSmaller(t: NTree, k: nat)
    requires k < |t.children|
    ensures Size(t.children[k]) < Size(t)
  {
    ForestMember(t.children, k);
  }

  lemma {:induction false} ForestMember(ts: seq<NTree>, k: nat)
    requires k < |ts|
    ensures Size(ts[k]) <= ForestSize(ts)
  {
    if k > 0 {
      ForestMember(ts[1..], k - 1);
    }
  }

  /** Pre-order lists every node exactly once, the root first. */
  lemma {:induction false} PreorderNodes(t: NTree)
    ensures |Preorder(t)| == Size(t)
    ensures multiset(Preorder(t)) == Nodes(t)
    ensures Preorder(t)[0] == t.val
    decreases t
  {
    PreorderForestNodes(t.children);
  }

  lemma {:induction false} PreorderForestNodes(ts: seq<NTree>)
    ensures |PreorderForest(ts)| == ForestSize(ts)
    ensures multiset(PreorderForest(ts)) == ForestNodes(ts)
    decreases ts
  {
    if ts != [] {
      PreorderNodes(ts[0]);
      PreorderForestNodes(ts[1..]);
    }
  }

  /** Post-order lists every node exactly once, the root last. */
  lemma {:induction false} PostorderNodes(t: NTree)
    ensures |Postorder(t)| == Size(t)
    ensures multiset(Postorder(t)) == Nodes(t)
    ensures Postorder(t)[|Postorder(t)| - 1] == t.val
    decreases t
  {
    PostorderForestNodes(t.children);
  }

  lemma {:induction false} PostorderForestNodes(ts: seq<NTree>)
    ensures |PostorderForest(ts)| == ForestSize(ts)
    ensures multiset(PostorderForest(ts)) == ForestNodes(ts)
    decreases ts
  {
    if ts != [] {
      PostorderNodes(ts[0]);
      PostorderForestNodes(ts[1..]);
    }
  }

  /** The middle-children run, by index range, is PoppedForest of that slice. */
  lemma {:induction false} MiddlesAsForest(t: NTree, lo: nat, hi: nat)
    requires lo <= hi <= |t.children|
    ensures InorderMiddles(t, lo, hi) == PoppedForest(t.children[lo..hi])
    decreases hi - lo
  {
    if lo < hi {
      MiddlesAsForest(t, lo + 1, hi);
      assert t.children[lo..hi][1..] == t.children[lo + 1..hi];
    }
  }

  /** On zero-or-two-children trees the traversal is the ordinary binary in-order. */
  lemma {:induction false} InorderZeroOrTwo(t: NTree)
    requires ZeroOrTwo(t)
    ensures Inorder(t) == BInorder(AsBinary(t))
    ensures Inorder(t) == GeneralInorder(t)
    decreases t
  {
    if |t.children| == 2 {
      InorderZeroOrTwo(t.children[0]);
      InorderZeroOrTwo(t.children[1]);
      assert GeneralInorderRest(t, 2) == [];
    }
  }

  /** A lone child's run is emitted both before and after the node. */
  lemma InorderLoneChild(t: NTree)
    requires |t.children| == 1
    ensures Inorder(t) == Inorder(t.children[0]) + [t.val] + Inorder(t.children[0])
  {
  }

  /**
   * For leaf children [a, b, c] the middle child comes before the node:
   * a, b, node, c, where the reference generalisation gives a, node, b, c.
   */
  lemma InorderThreeLeaves(v: int, a: int, b: int, c: int)
    ensures Inorder(NNode(v, [NNode(a, []), NNode(b, []), NNode(c, [])])) == [a, b, v, c]
    ensures GeneralInorder(NNode(v, [NNode(a, []), NNode(b, []), NNode(c, [])])) == [a, v, b, c]
  {
    var t := NNode(v, [NNode(a, []), NNode(b, []), NNode(c, [])]);
    LeafOrders(a);
    LeafOrders(b);
    LeafOrders(c);
    assert InorderMiddles(t, 1, 2) == [b] by {
      assert InorderMiddles(t, 2, 2) == [];
    }
    assert InorderPopped(t) == [v, c];
    assert GeneralInorderRest(t, 1) == [b, c] by {
      assert GeneralInorderRest(t, 3) == [];
      assert GeneralInorderRest(t, 2) == [c];
    }
  }

  /** Replacing one tree of a forest by one that pops the same values keeps the forest's run. */
  lemma PoppedForestReplace(pre: seq<NTree>, c: NTree, c': NTree, suf: seq<NTree>)
    requires InorderPopped(c) == InorderPopped(c')
    ensures PoppedForest(pre + [c] + suf) == PoppedForest(pre + [c'] + suf)
  {
    assert PoppedForest([c]) == InorderPopped(c) + PoppedForest([]);
    assert PoppedForest([c']) == InorderPopped(c') + PoppedForest([]);
    PoppedForestAppend(pre + [c], suf);
    PoppedForestAppend(pre, [c]);
    PoppedForestAppend(pre + [c'], suf);
    PoppedForestAppend(pre, [c']);
  }

  /** With two or more children, the middle run is that of the forest of middle children. */
  lemma InorderForestForm(t: NTree)
    requires |t.children| >= 2
    ensures Inorder(t) == Inorder(t.children[0]) + PoppedForest(t.children[1..|t.children| - 1]) + InorderPopped(t)
  {
    MiddlesAsForest(t, 1, |t.children| - 1);
  }

  /** Two nodes with the same value, first child, last child and middle run emit the same. */
  lemma InorderCongruence(t: NTree, u: NTree)
    requires |t.children| == |u.children| >= 2 && t.val == u.val
    requires t.children[0] == u.children[0] && t.children[|t.children| - 1] == u.children[|u.children| - 1]
    requires PoppedForest(t.children[1..|t.children| - 1]) == PoppedForest(u.children[1..|u.children| - 1])
    ensures Inorder(t) == Inorder(u)
  {
    InorderForestForm(t);
    InorderForestForm(u);
    var last := t.children[|t.children| - 1];
    assert InorderPopped(t) == [t.val] + Inorder(last);
    assert InorderPopped(u) == [u.val] + Inorder(last);
  }

  /** Replacing a middle child by a tree that pops the same values leaves the traversal unchanged. */
  lemma InorderReplaceMiddle(t: NTree, k: nat, c': NTree)
    requires 1 <= k < |t.children| - 1
    requires InorderPopped(c') == InorderPopped(t.children[k])
    ensures Inorder(t) == Inorder(NNode(t.val, t.children[k := c']))
  {
    var n := |t.children|;
    var u := NNode(t.val, t.children[k := c']);
    var pre, suf := t.children[1..k], t.children[k + 1..n - 1];
    assert t.children[1..n - 1] == pre + [t.children[k]] + suf;
    assert u.children[1..n - 1] == pre + [c'] + suf;
    PoppedForestReplace(pre, t.children[k], c', suf);
    InorderCongruence(t, u);
  }

  /** A node whose children but the last are replaced by `ds`. */
  function KeepLastChild(c: NTree, ds: seq<NTree>): NTree
    requires |c.children| >= 1
  {
    NNode(c.val, ds + [c.children[|c.children| - 1]])
  }

  /** Popping a node with children emits it and then descends its last child. */
  lemma PoppedLastChild(c: NTree)
    requires |c.children| >= 1
    ensures InorderPopped(c) == [c.val] + Inorder(c.children[|c.children| - 1])
  {
  }

  /** So only a node's value and last child decide what popping it emits. */
  lemma PoppedByLastChild(c: NTree, r: NTree)
    requires |c.children| >= 1 && |r.children| >= 1 && r.val == c.val
    requires r.children[|r.children| - 1] == c.children[|c.children| - 1]
    ensures InorderPopped(r) == InorderPopped(c)
  {
    PoppedLastChild(c);
    PoppedLastChild(r);
  }

  /** So keeping a node's value and last child keeps what popping it emits. */
  lemma KeepLastChildPops(c: NTree, ds: seq<NTree>)
    requires |c.children| >= 1
    ensures InorderPopped(KeepLastChild(c, ds)) == InorderPopped(c)
  {
    var r := KeepLastChild(c, ds);
    assert r.children[|ds|] == c.children[|c.children| - 1];
    PoppedByLastChild(c, r);
  }

  /**
   * A middle child is emitted as soon as it is popped and only its last child
   * is descended: replacing all of its other children by any trees `ds`
   * leaves the traversal unchanged, so they are never emitted.
   */
  lemma InorderDropsMiddleGrandchildren(t: NTree, k: nat, ds: seq<NTree>)
    requires 1 <= k < |t.children| - 1 && |t.children[k].children| >= 1
    ensures Inorder(t) == Inorder(NNode(t.val, t.children[k := KeepLastChild(t.children[k], ds)]))
  {
    KeepLastChildPops(t.children[k], ds);
    InorderReplaceMiddle(t, k, KeepLastChild(t.children[k], ds));
  }

  /** For example, in v -> (a, m -> (x, y), c) the grandchild x is never emitted. */
  lemma InorderDropsGrandchildExample(v: int, a: int, m: int, x: int, y: int, c: int)
    ensures Inorder(NNode(v, [NNode(a, []), NNode(m, [NNode(x, []), NNode(y, [])]), NNode(c, [])]))
         == [a, m, y, v, c]
  {
    var mid := NNode(m, [NNode(x, []), NNode(y, [])]);
    var t := NNode(v, [NNode(a, []), mid, NNode(c, [])]);
    LeafOrders(a);
    LeafOrders(y);
    LeafOrders(c);
    assert InorderPopped(mid) == [m, y];
    assert InorderMiddles(t, 1, 2) == [m, y] by {
      assert InorderMiddles(t, 2, 2) == [];
    }
    assert InorderPopped(t) == [v, c];
  }

  /** A leaf is emitted once by each order. */
  lemma LeafOrders(v: int)
    ensures Inorder(NNode(v, [])) == [v] && InorderPopped(NNode(v, [])) == [v]
    ensures GeneralInorder(NNode(v, [])) == [v]
  {
    assert InorderMiddles(NNode(v, []), 1, 0) == [];
  }

  /** Binary pre-order lists every node exactly once. */
  lemma {:induction false} BPreorderNodes(t: BTree)
    ensures |BPreorder(t)| == BSize(t) && multiset(BPreorder(t)) == BNodes(t)
  {
    if t.BNode? {
      BPreorderNodes(t.left);
      BPreorderNodes(t.right);
    }
  }

  /** Binary in-order lists every node exactly once. */
  lemma {:induction false} BInorderNodes(t: BTree)
    ensures |BInorder(t)| == BSize(t) && multiset(BInorder(t)) == BNodes(t)
  {
    if t.BNode? {
      BInorderNodes(t.left);
      BInorderNodes(t.right);
    }
  }

  /** With no left children, the true post-order is pre-order reversed (the right chain upwards). */
  lemma {:induction false} LeftFreePostorder(t: BTree)
    requires LeftFree(t)
    ensures BPostorder(t) == Reversed(BPreorder(t))
  {
    if t.BNode? {
      LeftFreePostorder(t.right);
      ReversedAppend([t.val], BPreorder(t.right));
      ReversedSingleton(t.val);
    }
  }

  lemma {:induction false} ReversedAppend<T>(a: seq<T>, b: seq<T>)
    ensures Reversed(a + b) == Reversed(b) + Reversed(a)
  {
    if b == [] {
      assert a + b == a;
    } else {
      assert (a + b)[..|a + b| - 1] == a + b[..|b| - 1];
      ReversedAppend(a, b[..|b| - 1]);
    }
  }

  lemma {:induction false} ReversedTwice<T>(s: seq<T>)
    ensures Reversed(Reversed(s)) == s
  {
    if s != [] {
      var init := s[..|s| - 1];
      ReversedTwice(init);
      ReversedAppend([s[|s| - 1]], Reversed(init));
      assert init + [s[|s| - 1]] == s;
    }
  }

  lemma ReversedSingleton<T>(x: T)
    ensures Reversed([x]) == [x]
  {
  }

  /** Reading a stack from the top down: the top element comes first. */
  lemma ReversedPop<T>(q: seq<T>)
    requires |q| > 0
    ensures Reversed(q) == [q[|q| - 1]] + Reversed(q[..|q| - 1])
  {
  }

  lemma Assoc<T>(a: seq<T>, b: seq<T>, c: seq<T>)
    ensures (a + b) + c == a + (b + c)
  {
  }

  /** Regrouping a concatenation of four sequences. */
  lemma Regroup<T>(a: seq<T>, b: seq<T>, c: seq<T>, d: seq<T>)
    ensures a + (b + c + d) == (a + b) + c + d
  {
  }
}
