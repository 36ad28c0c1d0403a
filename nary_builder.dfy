/**
 * convertTreeArrayToObject (components/articles/BinaryTrees/util.js):
 * the flat array to N-ary tree builder.
 *
 * The builder's `parents` array is the arena: element 0 is the synthetic
 * super-root `{children: []}` (no `val`), element j is the node created from
 * the j-th truthy entry, and a `children` list holds arena ids.  An id can
 * point back at its own node, which is how the model keeps the source's
 * self-child case.
 */
module NaryTreeBuilder {
  import opened Wrappers
  import opened FlatTree
  import opened Trees

  /** An N-ary node object: `val` is absent on the super-root only. */
  datatype NaryNode = NaryNode(val: Option<int>, children: seq<nat>)

  /** The arena the loop leaves behind, stated declaratively. */
  function NaryArena(tree: seq<Entry>): seq<NaryNode> {
    var vals := Values(tree);
    seq(|vals| + 1, i requires 0 <= i <= |vals| =>
      NaryNode(if i == 0 then None else Some(vals[i - 1]), ChildIds(ParentIndices(tree), i)))
  }

  /**
   * One loop step on a truthy entry whose parent exists changes the arena in
   * exactly two ways: the new node is appended, and the parent at
   * `currentParentIndex` gets the new id at the end of its children.
   * Nothing else changes.
   */
  lemma NaryArenaStep(tree: seq<Entry>, e: Entry)
    requires Truthy(e) && Attachable(ParentIndices(tree))
    requires Separators(tree) <= |Values(tree)| + 1
    ensures Separators(tree + [e]) == Separators(tree)
    ensures Attachable(ParentIndices(tree + [e]))
    ensures var a := NaryArena(tree) + [NaryNode(Some(e.value), [])];
            var k := Separators(tree);
            NaryArena(tree + [e]) == a[k := a[k].(children := a[k].children + [|a| - 1])]
  {
    Snoc(tree, e);
    var ps := ParentIndices(tree);
    var k := Separators(tree);
    var a := NaryArena(tree) + [NaryNode(Some(e.value), [])];
    var b := a[k := a[k].(children := a[k].children + [|a| - 1])];
    var c := NaryArena(tree + [e]);
    assert |c| == |b|;
    forall i | 0 <= i < |c| ensures c[i] == b[i] {
      ChildIdsSnoc(ps, k, i);
      if i == |ps| + 1 {
        NoChildrenYet(ps, i);
      }
    }
  }

  /** The loop's view of NaryArenaStep and NaryArenaSeparator: entry i of the array. */
  lemma NaryLoopStep(tree: seq<Entry>, i: nat)
    requires i < |tree| && Attachable(ParentIndices(tree[..i]))
    ensures !Truthy(tree[i]) ==>
      Separators(tree[..i + 1]) == Separators(tree[..i]) + 1 &&
      ParentIndices(tree[..i + 1]) == ParentIndices(tree[..i]) &&
      NaryArena(tree[..i + 1]) == NaryArena(tree[..i])
    ensures Truthy(tree[i]) && Separators(tree[..i]) <= |Values(tree[..i])| + 1 ==>
      Separators(tree[..i + 1]) == Separators(tree[..i]) &&
      Attachable(ParentIndices(tree[..i + 1])) &&
      var a := NaryArena(tree[..i]) + [NaryNode(Some(tree[i].value), [])];
      var k := Separators(tree[..i]);
      NaryArena(tree[..i + 1]) == a[k := a[k].(children := a[k].children + [|a| - 1])]
  {
    assert tree[..i + 1] == tree[..i] + [tree[i]];
    if Truthy(tree[i]) {
      if Separators(tree[..i]) <= |Values(tree[..i])| + 1 {
        NaryArenaStep(tree[..i], tree[i]);
      }
    } else {
      NaryArenaSeparator(tree[..i], tree[i]);
    }
  }

  /** A falsy entry adds a separator and leaves the arena as it was. */
  lemma NaryArenaSeparator(tree: seq<Entry>, e: Entry)
    requires !Truthy(e)
    ensures Separators(tree + [e]) == Separators(tree) + 1
    ensures ParentIndices(tree + [e]) == ParentIndices(tree)
    ensures NaryArena(tree + [e]) == NaryArena(tree)
  {
    Snoc(tree, e);
  }

  /** While parents can still be looked up, no node has a parent past the newest node. */
  lemma {:induction false} NoChildrenYet(ps: seq<nat>, i: nat)
    requires Attachable(ps) && i > |ps|
    ensures ChildIds(ps, i) == []
  {
    if ps != [] {
      NoChildrenYet(ps[..|ps| - 1], i);
    }
  }

  /**
   * The builder.  It throws exactly when some truthy entry finds at least as
   * many separators before it as there are elements in `parents` after its push;
   * otherwise it returns the arena whose node j carries the j-th truthy value
   * and whose node i has as children, in array order, every node whose
   * parent index is i.
   */
  method ConvertTreeArrayToObject(tree: seq<Entry>) returns (r: Result<seq<NaryNode>>)
    ensures r.Ok? <==> Attachable(ParentIndices(tree))
    ensures r.Ok? ==> r.value == NaryArena(tree)
    ensures r.Throws? ==> r.error == ReadOfUndefined("children")
  {
    var parents := [NaryNode(None, [])];
    var currentParentIndex := 0;
    var i := 0;
    while i < |tree|
      invariant 0 <= i <= |tree|
      invariant currentParentIndex == Separators(tree[..i])
      invariant Attachable(ParentIndices(tree[..i]))
      invariant parents == NaryArena(tree[..i])
    {
      NaryLoopStep(tree, i);
      var node := tree[i];
      if Truthy(node) {
        var newNode := NaryNode(Some(node.value), []);
        parents := parents + [newNode];
        if currentParentIndex >= |parents| {
          // parents[currentParentIndex] is undefined: reading its children throws
          LookupPastEnd(tree, i);
          return Throws(ReadOfUndefined("children"));
        }
        var currentParent := parents[currentParentIndex];
        parents := parents[currentParentIndex := currentParent.(children := currentParent.children + [|parents| - 1])];
      } else {
        currentParentIndex := currentParentIndex + 1;
      }
      i := i + 1;
    }
    assert tree[..i] == tree;
    return Ok(parents);
  }

  // ---------------------------------------------------------------- properties of the result

  /**
   * The result is the synthetic super-root followed by exactly one node per
   * truthy entry, each carrying its entry's value and created with no val on
   * the super-root only.
   */
  lemma NaryArenaNodes(tree: seq<Entry>)
    ensures |NaryArena(tree)| == CountTruthy(tree) + 1
    ensures NaryArena(tree)[0].val == None
    ensures forall j :: 1 <= j < |NaryArena(tree)| ==> NaryArena(tree)[j].val.Some?
  {
    ValuesCount(tree);
  }

  /**
   * The truthy entry at position p becomes node |Values(tree[..p])| + 1 with
   * that value, and it is a child of node Separators(tree[..p]): after k
   * falsy entries the current parent is the k-th node created, counting the
   * super-root as node 0.
   */
  lemma NaryEntryPlacement(tree: seq<Entry>, p: nat)
    requires p < |tree| && Truthy(tree[p])
    ensures var j := |Values(tree[..p])| + 1;
            var k := Separators(tree[..p]);
            j < |NaryArena(tree)| && NaryArena(tree)[j].val == tree[p] &&
            (k < |NaryArena(tree)| ==> j in NaryArena(tree)[k].children)
  {
    EntryCreatesNode(tree, p);
    var j := |Values(tree[..p])| + 1;
    ChildIdsSpec(ParentIndices(tree), Separators(tree[..p]));
  }

  /**
   * Node j is its own child exactly when the separators seen before its entry
   * equal j, the number of nodes created up to and including it.
   */
  lemma NarySelfChild(tree: seq<Entry>, j: nat)
    requires 1 <= j < |NaryArena(tree)|
    ensures j in NaryArena(tree)[j].children <==> ParentIndices(tree)[j - 1] == j
  {
    ChildIdsSpec(ParentIndices(tree), j);
  }

  /** Every child id points strictly forward in the arena, and real nodes carry values. */
  predicate Forward(a: seq<NaryNode>) {
    (forall i :: 1 <= i < |a| ==> a[i].val.Some?) &&
    (forall i, k :: 0 <= i < |a| && 0 <= k < |a[i].children| ==> i < a[i].children[k] < |a|)
  }

  /**
   * A built arena is acyclic (every child id is larger than its parent's)
   * exactly when every node found strictly fewer separators before it than
   * the number of nodes created up to and including it.
   */
  lemma NaryForwardIff(tree: seq<Entry>)
    requires Attachable(ParentIndices(tree))
    ensures Forward(NaryArena(tree)) <==> StrictlyEarlier(ParentIndices(tree))
  {
    var a := NaryArena(tree);
    var ps := ParentIndices(tree);
    if StrictlyEarlier(ps) {
      forall i, k | 0 <= i < |a| && 0 <= k < |a[i].children|
        ensures i < a[i].children[k] < |a|
      {
        ChildIdsSpec(ps, i);
        assert a[i].children[k] in ChildIds(ps, i);
      }
    } else {
      var k :| 0 <= k < |ps| && ps[k] > k;
      ChildIdsSpec(ps, k + 1);
      assert k + 1 in a[k + 1].children;
      var x :| 0 <= x < |a[k + 1].children| && a[k + 1].children[x] == k + 1;
      assert !(k + 1 < a[k + 1].children[x]);
    }
  }

  /** The node at id i of a forward arena, as a finite tree. */
  function TreeAt(a: seq<NaryNode>, i: nat): NTree
    requires Forward(a) && 1 <= i < |a|
    decreases |a| - i
  {
    NNode(a[i].val.value, seq(|a[i].children|, k requires 0 <= k < |a[i].children| => TreeAt(a, a[i].children[k])))
  }

  /** The sample array [1, null, 3, 2, 4, null, 5, 6]. */
  const SampleArray: seq<Entry> := [Some(1), None, Some(3), Some(2), Some(4), None, Some(5), Some(6)]

  /** The encoding state after the first four entries of the N-ary sample. */
  lemma SampleEncodingHalf()
    ensures Separators([Some(1), None, Some(3), Some(2)]) == 1
    ensures Values([Some(1), None, Some(3), Some(2)]) == [1, 3, 2]
    ensures ParentIndices([Some(1), None, Some(3), Some(2)]) == [0, 1, 1]
  {
    var t0: seq<Entry> := [];
    var t1 := t0 + [Some(1)];
    Snoc(t0, Some(1));
    assert Separators(t1) == 0 && Values(t1) == [1] && ParentIndices(t1) == [0];
    var t2 := t1 + [None];
    Snoc(t1, None);
    assert Separators(t2) == 1 && Values(t2) == [1] && ParentIndices(t2) == [0];
    var t3 := t2 + [Some(3)];
    Snoc(t2, Some(3));
    assert Separators(t3) == 1 && Values(t3) == [1, 3] && ParentIndices(t3) == [0, 1];
    var t4 := t3 + [Some(2)];
    Snoc(t3, Some(2));
    assert t4 == [Some(1), None, Some(3), Some(2)];
  }

  lemma SampleEncoding()
    ensures Values(SampleArray) == [1, 3, 2, 4, 5, 6]
    ensures ParentIndices(SampleArray) == [0, 1, 1, 1, 2, 2]
  {
    SampleEncodingHalf();
    var t4: seq<Entry> := [Some(1), None, Some(3), Some(2)];
    var t5 := t4 + [Some(4)];
    Snoc(t4, Some(4));
    assert Separators(t5) == 1 && Values(t5) == [1, 3, 2, 4] && ParentIndices(t5) == [0, 1, 1, 1];
    var t6 := t5 + [None];
    Snoc(t5, None);
    assert Separators(t6) == 2 && Values(t6) == [1, 3, 2, 4] && ParentIndices(t6) == [0, 1, 1, 1];
    var t7 := t6 + [Some(5)];
    Snoc(t6, Some(5));
    assert Separators(t7) == 2 && Values(t7) == [1, 3, 2, 4, 5] && ParentIndices(t7) == [0, 1, 1, 1, 2];
    var t8 := t7 + [Some(6)];
    Snoc(t7, Some(6));
    assert t8 == SampleArray;
  }

  lemma SampleChildIds(i: nat)
    ensures ChildIds([0, 1, 1, 1, 2, 2], i) ==
      if i == 0 then [1] else if i == 1 then [2, 3, 4] else if i == 2 then [5, 6] else []
  {
    var p0: seq<nat> := [];
    var p1 := p0 + [0];  ChildIdsSnoc(p0, 0, i);
    var p2 := p1 + [1];  ChildIdsSnoc(p1, 1, i);
    var p3 := p2 + [1];  ChildIdsSnoc(p2, 1, i);
    var p4 := p3 + [1];  ChildIdsSnoc(p3, 1, i);
    var p5 := p4 + [2];  ChildIdsSnoc(p4, 2, i);
    var p6 := p5 + [2];  ChildIdsSnoc(p5, 2, i);
    assert p6 == [0, 1, 1, 1, 2, 2];
  }

  /** The arena drawn as a table: super-root, then the nodes 1, 3, 2, 4, 5, 6. */
  const SampleArena: seq<NaryNode> := [
    NaryNode(None, [1]),
    NaryNode(Some(1), [2, 3, 4]),
    NaryNode(Some(3), [5, 6]),
    NaryNode(Some(2), []),
    NaryNode(Some(4), []),
    NaryNode(Some(5), []),
    NaryNode(Some(6), [])
  ]

  /**
   * [1, null, 3, 2, 4, null, 5, 6] puts 1 under the super-root, 3, 2 and 4
   * under 1, and 5 and 6 under 3.
   */
  lemma NaryExample()
    ensures NaryArena(SampleArray) == SampleArena
  {
    SampleEncoding();
    forall i | 0 <= i < 7 {
      SampleChildIds(i);
    }
  }

  /** The sample arena is acyclic, and node 1 is the tree 1 -> (3 -> (5, 6), 2, 4). */
  lemma NaryExampleTree()
    ensures Forward(SampleArena)
    ensures TreeAt(SampleArena, 1)
         == NNode(1, [NNode(3, [NNode(5, []), NNode(6, [])]), NNode(2, []), NNode(4, [])])
  {
    var a := SampleArena;
    assert Forward(a);
    var t5, t6 := TreeAt(a, 5), TreeAt(a, 6);
    assert t5 == NNode(5, []) && t6 == NNode(6, []);
    assert TreeAt(a, 2) == NNode(3, [t5, t6]);
    assert TreeAt(a, 3) == NNode(2, []) && TreeAt(a, 4) == NNode(4, []);
    assert TreeAt(a, 1) == NNode(1, [TreeAt(a, 2), TreeAt(a, 3), TreeAt(a, 4)]);
  }
}
