/**
 * The flat level-order encoding read by both tree builders
 * (components/articles/BinaryTrees/util.js and binary/util.js).
 *
 * Each entry is a JavaScript value judged by its truthiness: `null` and `0` are
 * falsy.  A truthy entry creates one node; a falsy entry advances
 * `currentParentIndex`.  Node ids are positions in the builders' `parents`
 * array: id 0 is the synthetic super-root, id j >= 1 is the node made from the
 * j-th truthy entry.
 */
module FlatTree {
  import opened Wrappers

  type Entry = Option<int>

  /** JavaScript truthiness of an entry: `null` and `0` are falsy. */
  predicate Truthy(e: Entry) {
    e.Some? && e.value != 0
  }

  /** Number of falsy entries: the final value of `currentParentIndex`. */
  function Separators(tree: seq<Entry>): nat {
    if tree == [] then 0
    else Separators(tree[..|tree| - 1]) + (if Truthy(tree[|tree| - 1]) then 0 else 1)
  }

  /** The values of the truthy entries in order: node j carries Values(tree)[j - 1]. */
  function Values(tree: seq<Entry>): seq<int> {
    if tree == [] then []
    else if Truthy(tree[|tree| - 1]) then Values(tree[..|tree| - 1]) + [tree[|tree| - 1].value]
    else Values(tree[..|tree| - 1])
  }

  /**
   * For each truthy entry in order, the number of falsy entries before it:
   * the index into `parents` that the builder looks the new node's parent up at.
   */
  function ParentIndices(tree: seq<Entry>): (ps: seq<nat>)
    ensures |ps| == |Values(tree)|
    ensures forall k :: 0 <= k < |ps| ==> ps[k] <= Separators(tree)
  {
    if tree == [] then []
    else if Truthy(tree[|tree| - 1]) then ParentIndices(tree[..|tree| - 1]) + [Separators(tree[..|tree| - 1])]
    else ParentIndices(tree[..|tree| - 1])
  }

  /** Number of truthy entries, counted from the front. */
  function CountTruthy(tree: seq<Entry>): nat {
    if tree == [] then 0 else (if Truthy(tree[0]) then 1 else 0) + CountTruthy(tree[1..])
  }

  /**
   * The ids of the nodes attached to parent i, in creation order: exactly the
   * ids c with ps[c - 1] == i, strictly increasing.
   */
  function ChildIds(ps: seq<nat>, i: nat): seq<nat> {
    if ps == [] then []
    else ChildIds(ps[..|ps| - 1], i) + (if ps[|ps| - 1] == i then [|ps|] else [])
  }

  /**
   * ChildIds(ps, i) holds exactly the ids c with ps[c - 1] == i, each in
   * range, in strictly increasing order: siblings keep their array order.
   */
  lemma {:induction false} ChildIdsSpec(ps: seq<nat>, i: nat)
    ensures forall c :: c in ChildIds(ps, i) <==> 1 <= c <= |ps| && ps[c - 1] == i
    ensures forall a :: 0 <= a < |ChildIds(ps, i)| ==> 1 <= ChildIds(ps, i)[a] <= |ps|
    ensures forall a, b :: 0 <= a < b < |ChildIds(ps, i)| ==> ChildIds(ps, i)[a] < ChildIds(ps, i)[b]
  {
    if ps != [] {
      var init := ps[..|ps| - 1];
      ChildIdsSpec(init, i);
    }
  }

  /**
   * No creation step looks its parent up past the end of `parents`: when node
   * k + 1 is pushed, `parents` has k + 2 elements.
   */
  predicate Attachable(ps: seq<nat>) {
    forall k :: 0 <= k < |ps| ==> ps[k] <= k + 1
  }

  /** Every node's parent was created strictly before it (no node is its own child). */
  predicate StrictlyEarlier(ps: seq<nat>) {
    forall k :: 0 <= k < |ps| ==> ps[k] <= k
  }

  /** Appending one entry: a falsy entry adds one separator and no node; a truthy one adds one node. */
  lemma {:induction false} Snoc(tree: seq<Entry>, e: Entry)
    ensures Separators(tree + [e]) == Separators(tree) + (if Truthy(e) then 0 else 1)
    ensures Values(tree + [e]) == Values(tree) + (if Truthy(e) then [e.value] else [])
    ensures ParentIndices(tree + [e]) == ParentIndices(tree) + (if Truthy(e) then [Separators(tree)] else [])
  {
    assert (tree + [e])[..|tree|] == tree;
  }

  /** ChildIds after one more node is created with parent index p. */
  lemma ChildIdsSnoc(ps: seq<nat>, p: nat, i: nat)
    ensures ChildIds(ps + [p], i) == ChildIds(ps, i) + (if p == i then [|ps| + 1] else [])
  {
    assert (ps + [p])[..|ps|] == ps;
  }

  /** Truthy entries are counted the same from either end. */
  lemma {:induction false} ValuesCount(tree: seq<Entry>)
    ensures |Values(tree)| == CountTruthy(tree)
  {
    if tree != [] {
      ValuesCount(tree[1..]);
      if |tree| == 1 {
        assert tree[1..] == [] && tree[..0] == [];
      } else {
        var init := tree[..|tree| - 1];
        ValuesCount(init);
        ValuesCount(init[1..]);
        assert init[1..] == tree[1..][..|tree[1..]| - 1];
        assert tree[1..][|tree[1..]| - 1] == tree[|tree| - 1];
        assert init[0] == tree[0];
      }
    }
  }

  /** The encodings of a prefix are prefixes of the encodings of the whole array. */
  lemma {:induction false} PrefixEncoding(tree: seq<Entry>, m: nat)
    requires m <= |tree|
    ensures Values(tree[..m]) <= Values(tree)
    ensures ParentIndices(tree[..m]) <= ParentIndices(tree)
    ensures Separators(tree[..m]) <= Separators(tree)
    decreases |tree| - m
  {
    if m < |tree| {
      var init := tree[..|tree| - 1];
      assert tree[..m] == init[..m];
      PrefixEncoding(init, m);
    } else {
      assert tree[..m] == tree;
    }
  }

  /**
   * Each truthy entry at position p creates node j + 1, where j is the number of
   * truthy entries before p: its value is the entry and its parent index is the
   * number of falsy entries before p.
   */
  lemma EntryCreatesNode(tree: seq<Entry>, p: nat)
    requires p < |tree| && Truthy(tree[p])
    ensures |Values(tree[..p])| < |Values(tree)|
    ensures Values(tree)[|Values(tree[..p])|] == tree[p].value
    ensures ParentIndices(tree)[|Values(tree[..p])|] == Separators(tree[..p])
  {
    assert tree[..p + 1] == tree[..p] + [tree[p]];
    Snoc(tree[..p], tree[p]);
    PrefixEncoding(tree, p + 1);
  }

  /**
   * Once a truthy entry at position p finds its parent index past the end of
   * `parents`, the whole array is not attachable.
   */
  lemma LookupPastEnd(tree: seq<Entry>, p: nat)
    requires p < |tree| && Truthy(tree[p])
    requires Separators(tree[..p]) > |Values(tree[..p])| + 1
    ensures !Attachable(ParentIndices(tree))
  {
    EntryCreatesNode(tree, p);
  }

  /** Parent indices never decrease: siblings are contiguous in the array. */
  lemma {:induction false} ParentIndicesSorted(tree: seq<Entry>)
    ensures forall a, b :: 0 <= a < b < |ParentIndices(tree)| ==> ParentIndices(tree)[a] <= ParentIndices(tree)[b]
  {
    if tree != [] {
      ParentIndicesSorted(tree[..|tree| - 1]);
    }
  }
}
