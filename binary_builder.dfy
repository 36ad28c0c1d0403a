/**
 * convertBinaryTreeArrayToObject (components/articles/BinaryTrees/binary/util.js):
 * the flat array to binary tree builder.
 *
 * As in the N-ary builder, `parents` is the arena and `left` / `right` hold
 * arena ids.  The super-root is created as `{children: []}`; its unused
 * `children` list is not modelled, and the real root lands in its `left`.
 */
module BinaryTreeBuilder {
  import opened Wrappers
  import opened FlatTree
  import opened Trees
  import Nary = NaryTreeBuilder

  /** A binary node object: `val` is absent on the super-root only. */
  datatype BinaryNode = BinaryNode(val: Option<int>, left: Option<nat>, right: Option<nat>)

  /** The first attached child goes to `left`; the last of two or more goes to `right`. */
  function Slots(val: Option<int>, cs: seq<nat>): BinaryNode {
    BinaryNode(val, if |cs| >= 1 then Some(cs[0]) else None, if |cs| >= 2 then Some(cs[|cs| - 1]) else None)
  }

  /** The binary view of an N-ary arena: each node keeps its first and last child. */
  function Project(a: seq<Nary.NaryNode>): (b: seq<BinaryNode>)
    ensures |b| == |a|
  {
    seq(|a|, i requires 0 <= i < |a| => Slots(a[i].val, a[i].children))
  }

  /**
   * The arena the loop leaves behind: the same attachment as the N-ary
   * builder, with only the first and the last child of each node kept.
   */
  function BinaryArena(tree: seq<Entry>): seq<BinaryNode> {
    Project(Nary.NaryArena(tree))
  }

  /** The assignment the loop makes on the selected parent: `right` once `left` is set. */
  function Attach(p: BinaryNode, id: nat): BinaryNode {
    if p.left.Some? then p.(right := Some(id)) else p.(left := Some(id))
  }

  /** Attaching one more child to a parent whose children were cs. */
  lemma AttachSlots(val: Option<int>, cs: seq<nat>, id: nat)
    ensures Attach(Slots(val, cs), id) == Slots(val, cs + [id])
  {
  }

  /** Pushing a childless node and attaching it to k commutes with Project. */
  lemma ProjectStep(a: seq<Nary.NaryNode>, v: Option<int>, k: nat)
    requires k <= |a|
    ensures var n := a + [Nary.NaryNode(v, [])];
            var b := Project(a) + [BinaryNode(v, None, None)];
            Project(n[k := n[k].(children := n[k].children + [|n| - 1])])
              == b[k := Attach(b[k], |b| - 1)]
  {
    var n := a + [Nary.NaryNode(v, [])];
    AttachSlots(n[k].val, n[k].children, |n| - 1);
  }

  /**
   * One loop step on a truthy entry whose parent exists: the new node is
   * appended with both slots null, and only the selected parent's `left` or
   * `right` changes.
   */
  lemma BinaryArenaStep(tree: seq<Entry>, e: Entry)
    requires Truthy(e) && Attachable(ParentIndices(tree))
    requires Separators(tree) <= |Values(tree)| + 1
    ensures Separators(tree + [e]) == Separators(tree)
    ensures Attachable(ParentIndices(tree + [e]))
    ensures var a := BinaryArena(tree) + [BinaryNode(Some(e.value), None, None)];
            var k := Separators(tree);
            BinaryArena(tree + [e]) == a[k := Attach(a[k], |a| - 1)]
  {
    var a := Nary.NaryArena(tree);
    var k := Separators(tree);
    Nary.NaryArenaNodes(tree);
    ValuesCount(tree);
    Nary.NaryArenaStep(tree, e);
    ProjectStep(a, Some(e.value), k);
  }

  /** A falsy entry adds a separator and leaves the arena as it was. */
  lemma BinaryArenaSeparator(tree: seq<Entry>, e: Entry)
    requires !Truthy(e)
    ensures Separators(tree + [e]) == Separators(tree) + 1
    ensures ParentIndices(tree + [e]) == ParentIndices(tree)
    ensures BinaryArena(tree + [e]) == BinaryArena(tree)
  {
    Nary.NaryArenaSeparator(tree, e);
  }

  /** The loop's view of BinaryArenaStep and BinaryArenaSeparator: entry i of the array. */
  lemma BinaryLoopStep(tree: seq<Entry>, i: nat)
    requires i < |tree| && Attachable(ParentIndices(tree[..i]))
    ensures !Truthy(tree[i]) ==>
      Separators(tree[..i + 1]) == Separators(tree[..i]) + 1 &&
      ParentIndices(tree[..i + 1]) == ParentIndices(tree[..i]) &&
      BinaryArena(tree[..i + 1]) == BinaryArena(tree[..i])
    ensures Truthy(tree[i]) && Separators(tree[..i]) <= |Values(tree[..i])| + 1 ==>
      Separators(tree[..i + 1]) == Separators(tree[..i]) &&
      Attachable(ParentIndices(tree[..i + 1])) &&
      var a := BinaryArena(tree[..i]) + [BinaryNode(Some(tree[i].value), None, None)];
      var k := Separators(tree[..i]);
      BinaryArena(tree[..i + 1]) == a[k := Attach(a[k], |a| - 1)]
  {
    assert tree[..i + 1] == tree[..i] + [tree[i]];
    if Truthy(tree[i]) {
      if Separators(tree[..i]) <= |Values(tree[..i])| + 1 {
        BinaryArenaStep(tree[..i], tree[i]);
      }
    } else {
      BinaryArenaSeparator(tree[..i], tree[i]);
    }
  }

  /**
   * The builder.  It throws exactly when some truthy entry finds at least as
   * many separators before it as there are elements in `parents` after its push;
   * otherwise node i's `left` is its first attached child and its `right` the
   * last of two or more (a third child overwrites `right`).
   */
  method ConvertBinaryTreeArrayToObject(tree: seq<Entry>) returns (r: Result<seq<BinaryNode>>)
    ensures r.Ok? <==> Attachable(ParentIndices(tree))
    ensures r.Ok? ==> r.value == BinaryArena(tree)
    ensures r.Throws? ==> r.error == ReadOfUndefined("left")
  {
    var parents := [BinaryNode(None, None, None)];
    var currentParentIndex := 0;
    var i := 0;
    while i < |tree|
      invariant 0 <= i <= |tree|
      invariant currentParentIndex == Separators(tree[..i])
      invariant Attachable(ParentIndices(tree[..i]))
      invariant parents == BinaryArena(tree[..i])
    {
      BinaryLoopStep(tree, i);
      var node := tree[i];
      if Truthy(node) {
        var newNode := BinaryNode(Some(node.value), None, None);
        parents := parents + [newNode];
        if currentParentIndex >= |parents| {
          // parents[currentParentIndex] is undefined: reading its left throws
          LookupPastEnd(tree, i);
          return Throws(ReadOfUndefined("left"));
        }
        var currentParent := parents[currentParentIndex];
        if currentParent.left.Some? {
          parents := parents[currentParentIndex := currentParent.(right := Some(|parents| - 1))];
        } else {
          parents := parents[currentParentIndex := currentParent.(left := Some(|parents| - 1))];
        }
      } else {
        currentParentIndex := currentParentIndex + 1;
      }
      i := i + 1;
    }
    assert tree[..i] == tree;
    return Ok(parents);
  }

  // ---------------------------------------------------------------- properties of the result

  /**
   * One node per truthy entry below a super-root without a value; `left` is
   * never overwritten (it is the first child), `right` holds the last of two
   * or more children, and a node with a single child has `right` null.
   */
  lemma BinaryArenaSlots(tree: seq<Entry>, i: nat)
    requires i < |BinaryArena(tree)|
    ensures |BinaryArena(tree)| == CountTruthy(tree) + 1
    ensures BinaryArena(tree)[0].val == None
    ensures i >= 1 ==> BinaryArena(tree)[i].val == Some(Values(tree)[i - 1])
    ensures var cs := ChildIds(ParentIndices(tree), i);
            (BinaryArena(tree)[i].left.Some? <==> |cs| >= 1) &&
            (BinaryArena(tree)[i].left.Some? ==> BinaryArena(tree)[i].left.value == cs[0]) &&
            (BinaryArena(tree)[i].right.Some? <==> |cs| >= 2) &&
            (BinaryArena(tree)[i].right.Some? ==> BinaryArena(tree)[i].right.value == cs[|cs| - 1])
  {
    ValuesCount(tree);
    BinaryArenaAt(tree, 0);
    BinaryArenaAt(tree, i);
    SlotsFacts(if i == 0 then None else Some(Values(tree)[i - 1]), ChildIds(ParentIndices(tree), i));
  }

  /** Node i of the arena: the binary view of its value and of the ids attached to it. */
  lemma BinaryArenaAt(tree: seq<Entry>, i: nat)
    requires i < |BinaryArena(tree)|
    ensures |BinaryArena(tree)| == |Values(tree)| + 1
    ensures BinaryArena(tree)[i] ==
      Slots(if i == 0 then None else Some(Values(tree)[i - 1]), ChildIds(ParentIndices(tree), i))
  {
    var a := Nary.NaryArena(tree);
    assert a[i] == Nary.NaryNode(if i == 0 then None else Some(Values(tree)[i - 1]), ChildIds(ParentIndices(tree), i));
  }

  /** What each slot of Slots(val, cs) holds. */
  lemma SlotsFacts(val: Option<int>, cs: seq<nat>)
    ensures Slots(val, cs).val == val
    ensures Slots(val, cs).left.Some? <==> |cs| >= 1
    ensures Slots(val, cs).left.Some? ==> Slots(val, cs).left.value == cs[0]
    ensures Slots(val, cs).right.Some? <==> |cs| >= 2
    ensures Slots(val, cs).right.Some? ==> Slots(val, cs).right.value == cs[|cs| - 1]
  {
  }

  /**
   * Node j's `left` points at itself exactly when the separators seen before
   * its entry equal j, the number of nodes created up to and including it.
   */
  lemma BinarySelfChild(tree: seq<Entry>, j: nat)
    requires Attachable(ParentIndices(tree))
    requires 1 <= j < |BinaryArena(tree)|
    ensures BinaryArena(tree)[j].left == Some(j) <==> ParentIndices(tree)[j - 1] == j
  {
    var ps := ParentIndices(tree);
    var cs := ChildIds(ps, j);
    ChildIdsSpec(ps, j);
    if ps[j - 1] == j {
      // every child c of j has j == ps[c - 1] <= c, so j comes first
      assert j in cs;
      assert cs[0] in cs;
    } else if |cs| >= 1 {
      assert cs[0] in cs;
    }
  }

  /** Every slot id points strictly forward in the arena, and real nodes carry values. */
  predicate Forward(a: seq<BinaryNode>) {
    forall i :: 0 <= i < |a| ==>
      (i >= 1 ==> a[i].val.Some?) &&
      (a[i].left.Some? ==> i < a[i].left.value < |a|) &&
      (a[i].right.Some? ==> i < a[i].right.value < |a|)
  }

  /** When every parent precedes its child, both slots of node i point past i and into the arena. */
  lemma SlotsForward(tree: seq<Entry>, i: nat)
    requires StrictlyEarlier(ParentIndices(tree)) && i < |BinaryArena(tree)|
    ensures BinaryArena(tree)[i].left.Some? ==> i < BinaryArena(tree)[i].left.value < |BinaryArena(tree)|
    ensures BinaryArena(tree)[i].right.Some? ==> i < BinaryArena(tree)[i].right.value < |BinaryArena(tree)|
  {
    var ps := ParentIndices(tree);
    var cs := ChildIds(ps, i);
    BinaryArenaAt(tree, i);
    SlotsFacts(if i == 0 then None else Some(Values(tree)[i - 1]), cs);
    if |cs| >= 1 {
      ChildIdsSpec(ps, i);
      var first, last := cs[0], cs[|cs| - 1];
      assert first in cs && last in cs;
      assert ps[first - 1] == i && ps[last - 1] == i;
      assert i < first <= last <= |ps|;
    }
  }

  /** When every parent precedes its child, the arena is forward. */
  lemma EarlierIsForward(tree: seq<Entry>)
    requires StrictlyEarlier(ParentIndices(tree))
    ensures Forward(BinaryArena(tree))
  {
    var a := BinaryArena(tree);
    forall i | 0 <= i < |a|
      ensures (i >= 1 ==> a[i].val.Some?) &&
              (a[i].left.Some? ==> i < a[i].left.value < |a|) &&
              (a[i].right.Some? ==> i < a[i].right.value < |a|)
    {
      BinaryArenaSlots(tree, i);
      SlotsForward(tree, i);
    }
  }

  /** A built arena is acyclic exactly when every node's parent was created before it. */
  lemma BinaryForwardIff(tree: seq<Entry>)
    requires Attachable(ParentIndices(tree))
    ensures Forward(BinaryArena(tree)) <==> StrictlyEarlier(ParentIndices(tree))
  {
    var ps := ParentIndices(tree);
    if StrictlyEarlier(ps) {
      EarlierIsForward(tree);
    } else {
      var k :| 0 <= k < |ps| && ps[k] > k;
      ValuesCount(tree);
      BinaryArenaSlots(tree, 0);
      BinarySelfChild(tree, k + 1);
      assert BinaryArena(tree)[k + 1].left == Some(k + 1);
    }
  }

  /** The node at id i of a forward arena, as a finite tree; a null slot is Nil. */
  function TreeAt(a: seq<BinaryNode>, i: nat): BTree
    requires Forward(a) && 1 <= i < |a|
    decreases |a| - i
  {
    BNode(a[i].val.value,
          if a[i].left.Some? then TreeAt(a, a[i].left.value) else Nil,
          if a[i].right.Some? then TreeAt(a, a[i].right.value) else Nil)
  }

  /** The sample array [2, null, 1, 4, null, null, 3, 5]. */
  const SampleArray: seq<Entry> := [Some(2), None, Some(1), Some(4), None, None, Some(3), Some(5)]

  const SampleArena: seq<BinaryNode> := [
    BinaryNode(None, Some(1), None),
    BinaryNode(Some(2), Some(2), Some(3)),
    BinaryNode(Some(1), None, None),
    BinaryNode(Some(4), Some(4), Some(5)),
    BinaryNode(Some(3), None, None),
    BinaryNode(Some(5), None, None)
  ]

  /** The encoding state after the first four entries of the binary sample. */
  lemma SampleEncodingHalf()
    ensures Separators([Some(2), None, Some(1), Some(4)]) == 1
    ensures Values([Some(2), None, Some(1), Some(4)]) == [2, 1, 4]
    ensures ParentIndices([Some(2), None, Some(1), Some(4)]) == [0, 1, 1]
  {
    var t0: seq<Entry> := [];
    var t1 := t0 + [Some(2)];
    Snoc(t0, Some(2));
    assert Separators(t1) == 0 && Values(t1) == [2] && ParentIndices(t1) == [0];
    var t2 := t1 + [None];
    Snoc(t1, None);
    assert Separators(t2) == 1 && Values(t2) == [2] && ParentIndices(t2) == [0];
    var t3 := t2 + [Some(1)];
    Snoc(t2, Some(1));
    assert Separators(t3) == 1 && Values(t3) == [2, 1] && ParentIndices(t3) == [0, 1];
    var t4 := t3 + [Some(4)];
    Snoc(t3, Some(4));
    assert t4 == [Some(2), None, Some(1), Some(4)];
  }

  lemma SampleEncoding()
    ensures Values(SampleArray) == [2, 1, 4, 3, 5]
    ensures ParentIndices(SampleArray) == [0, 1, 1, 3, 3]
  {
    SampleEncodingHalf();
    var t4: seq<Entry> := [Some(2), None, Some(1), Some(4)];
    var t5 := t4 + [None];
    Snoc(t4, None);
    assert Separators(t5) == 2 && Values(t5) == [2, 1, 4] && ParentIndices(t5) == [0, 1, 1];
    var t6 := t5 + [None];
    Snoc(t5, None);
    assert Separators(t6) == 3 && Values(t6) == [2, 1, 4] && ParentIndices(t6) == [0, 1, 1];
    var t7 := t6 + [Some(3)];
    Snoc(t6, Some(3));
    assert Separators(t7) == 3 && Values(t7) == [2, 1, 4, 3] && ParentIndices(t7) == [0, 1, 1, 3];
    var t8 := t7 + [Some(5)];
    Snoc(t7, Some(5));
    assert t8 == SampleArray;
  }

  lemma SampleChildIds(i: nat)
    ensures ChildIds([0, 1, 1, 3, 3], i) ==
      if i == 0 then [1] else if i == 1 then [2, 3] else if i == 3 then [4, 5] else []
  {
    var p0: seq<nat> := [];
    var p1 := p0 + [0];  ChildIdsSnoc(p0, 0, i);
    var p2 := p1 + [1];  ChildIdsSnoc(p1, 1, i);
    var p3 := p2 + [1];  ChildIdsSnoc(p2, 1, i);
    var p4 := p3 + [3];  ChildIdsSnoc(p3, 3, i);
    var p5 := p4 + [3];  ChildIdsSnoc(p4, 3, i);
    assert p5 == [0, 1, 1, 3, 3];
  }

  /**
   * [2, null, 1, 4, null, null, 3, 5] stores the root 2 in the super-root's
   * left, with 2 -> (1, 4) and 4 -> (3, 5).
   */
  lemma BinaryExample()
    ensures BinaryArena(SampleArray) == SampleArena
  {
    SampleEncoding();
    BinaryArenaAt(SampleArray, 0);
    forall i | 0 <= i < 6
      ensures BinaryArena(SampleArray)[i] == SampleArena[i]
    {
      SampleChildIds(i);
      BinaryArenaAt(SampleArray, i);
    }
  }

  /** The sample arena is the tree drawn in BinaryTree.js: 2 -> (1, 4 -> (3, 5)). */
  lemma BinaryExampleTree()
    ensures Forward(SampleArena)
    ensures TreeAt(SampleArena, 1)
         == BNode(2, BNode(1, Nil, Nil), BNode(4, BNode(3, Nil, Nil), BNode(5, Nil, Nil)))
  {
    var a := SampleArena;
    assert Forward(a);
    assert TreeAt(a, 2) == BNode(1, Nil, Nil);
    assert TreeAt(a, 4) == BNode(3, Nil, Nil) && TreeAt(a, 5) == BNode(5, Nil, Nil);
    assert TreeAt(a, 3) == BNode(4, TreeAt(a, 4), TreeAt(a, 5));
  }
}
