# Tree builders, traversals and the elementary cellular automaton

This project is a Dafny model of the two algorithmic widgets of a personal
website's articles, with proofs about that model.

**Binary trees article** (`components/articles/BinaryTrees`):
- Two builders turn a flat level-order array into a linked tree. A falsy
  entry (`null` or `0`) means "advance to the next parent".
- Stack-driven traversals cover pre-, in- and post-order, each in an
  N-ary form and a binary form. Some return an array of values. Others
  pause and then call `setVisited(val, true)` once per visit.

**Wolfram pattern article** (`components/articles/WolframPattern`):
- A 50 × 101 grid of cells starts from a single centre 1.
- The "Run" button recomputes every row from the row above it, using one
  of three row-update functions:
  - a named rule predicate;
  - an editable 8-entry lookup table keyed by the `"lcr"` neighbourhood
    string;
  - a custom rule assembled from tokens.

The model keeps the source's form, file by file.

- **Builders.** The builders are methods with loops. The builder's
  `parents` array is modelled as an arena: index 0 is the synthetic
  super-root, index j is the node made from the j-th truthy entry, and
  children are arena ids. A node that becomes its own child is therefore
  representable. Each method is proved equal to a declarative arena,
  `NaryArena` or `BinaryArena`, built from the flat encoding. The
  properties are proved about that arena.
- **Traversals.** The traversals are methods with loops over an explicit
  stack or queue. Each is proved equal to a recursive order on finite
  datatype trees.
- **Visits.** The `setVisited` callback and the pause before it are an
  emitted trace: `Pause` followed by `SetVisited(v, true)`.
- **Binary "post-order".** This loop need not stop, so it runs under a
  bound on the number of iterations (fuel). Its run reports whether it
  finished, ran out of fuel, or threw.
- **Rules and row updates.** The rule predicates and row-update functions
  are pure functions. They are related to Wolfram's numbering: under code
  N the new cell for neighbourhood (l, c, r) is bit 4l + 2c + r of N.
- **Component state.** The React state of the `Binary`, `Custom` and
  `Pattern` components is modelled as a class per component. Their
  handlers are methods that assign those fields.
- **Grid loop.** `getUpdatedRows` is a loop, proved equal to a recursive
  cascade. The cascade in turn is proved to produce the successive
  generations of the first row.

Where the code does something an idealised description would not, the
model follows the code and states the quirk as a lemma:
- **Super-root.** Both builders return the super-root, not the first real
  node. They never return null, not even for an empty or all-null array.
- **Throwing builders.** The builders can throw: a truthy entry that finds
  more separators before it than there were nodes in `parents` before
  its own push (so the index lands past the end of `parents`) reads
  `children` (or `left`) of `undefined`.
- **Self-child.** When the number of separators equals the number of
  nodes, the new node becomes its own child.
- **Null roots.** The N-ary `preorderTraverse` and `postorderTraverse`,
  and the binary post-order, throw on a null root. The other traversals
  return or report nothing for one.
- **N-ary in-order.** It is not "first child's subtree, node, remaining
  children's subtrees":
  - a lone child is emitted before and after its parent;
  - a middle child is emitted as soon as it is popped, before its parent;
  - only a middle child's last child is descended into.

  `Trees.GeneralInorder` is that reference order. The two agree exactly
  on trees whose nodes have zero or two children (`InorderZeroOrTwo`) and
  differ on `[a, b, c]` leaf children (`InorderThreeLeaves`).
- **Binary "post-order".** It is a breadth-first-like visit order that
  re-enqueues any node with a left child and then never terminates
  (`PostorderNeverFinishes`). On trees without left children it finishes.
  What it reports there is the true post-order reversed
  (`LeftFreeReportsReversedPostorder`).
- **Sample array.** `[1, null, 3, 2, 4, null, 5, 6]` read as an N-ary
  tree puts 1 under the super-root, 3, 2 and 4 under 1, and 5 and 6 under
  3 (`NaryExample`). It is not a tree rooted at 2.
- **No playback controller.** No play/replay state machine or double-start
  guard exists in the code, so none is modelled.
- **Keys 1 and 2 are labels.** The rule keys 1 and 2 are not Wolfram
  codes: `RULES[1]` is code 204 and `RULES[2]` is code 240.

## Model

| member | source | states |
|---|---|---|
| FlatTree.ParentIndices | components/articles/BinaryTrees/util.js:7-18 | one parent index per created node, none beyond the final value of the parent index |
| FlatTree.ChildIdsSpec | components/articles/BinaryTrees/util.js:14-16 | the children of parent i are exactly the nodes created while the index was i, in increasing order, so siblings keep their array order |
| FlatTree.Snoc | components/articles/BinaryTrees/util.js:9-19 | one more entry: a falsy one adds one separator and no node; a truthy one adds one node with its value, whose parent index is the number of separators so far |
| FlatTree.EntryCreatesNode | components/articles/BinaryTrees/util.js:9-16 | the truthy entry at position p creates node j + 1 (j = truthy entries before p) with that value and with parent index the number of falsy entries before p |
| FlatTree.LookupPastEnd | components/articles/BinaryTrees/util.js:14-16 | once an entry's parent lookup lands past the end of `parents`, the array is not buildable |
| FlatTree.ParentIndicesSorted | components/articles/BinaryTrees/util.js:17-19 | parent indices never decrease: the index only ever advances |
| FlatTree.PrefixEncoding | components/articles/BinaryTrees/util.js:8-20 | the values, parent indices and separator count of a prefix of the array are prefixes of those of the whole array |
| NaryTreeBuilder.NaryArenaStep | components/articles/BinaryTrees/util.js:9-16 | a truthy entry whose parent exists appends a node with that value and no children, and appends its id to that parent's children; nothing else changes |
| NaryTreeBuilder.NaryArenaSeparator | components/articles/BinaryTrees/util.js:17-19 | a falsy entry adds one separator and leaves the arena and the parent indices unchanged |
| NaryTreeBuilder.NaryLoopStep | components/articles/BinaryTrees/util.js:8-20 | one `forEach` iteration on entry i keeps the arena equal to the declarative arena of the prefix, or detects the throwing lookup |
| NaryTreeBuilder.NoChildrenYet | components/articles/BinaryTrees/util.js:14-16 | while lookups succeed, no node beyond the newest has children |
| NaryTreeBuilder.ConvertTreeArrayToObject | components/articles/BinaryTrees/util.js:1-23 | throws (reading `children` of undefined) exactly when some lookup passes the end of `parents`; otherwise returns the declarative arena |
| NaryTreeBuilder.NaryArenaNodes | components/articles/BinaryTrees/util.js:2-22 | the result is a value-less super-root plus exactly one valued node per truthy entry |
| NaryTreeBuilder.NaryEntryPlacement | components/articles/BinaryTrees/util.js:6-16 | the truthy entry at p becomes node j with its value and is a child of node k, where k counts the falsy entries before p and the super-root is node 0 |
| NaryTreeBuilder.NarySelfChild | components/articles/BinaryTrees/util.js:14-16 | node j is its own child exactly when the separators before it equal j |
| NaryTreeBuilder.NaryForwardIff | components/articles/BinaryTrees/util.js:14-16 | a built arena is acyclic (child ids point forward and real nodes carry values) exactly when every node saw strictly fewer separators than nodes created |
| NaryTreeBuilder.SampleEncoding | components/articles/BinaryTrees/util.js:8-20 | the values and parent indices the sample array encodes |
| NaryTreeBuilder.NaryExample | components/articles/BinaryTrees/util.js:8-20 | `[1, null, 3, 2, 4, null, 5, 6]` puts 1 under the super-root, 3, 2 and 4 under 1, and 5 and 6 under 3 |
| NaryTreeBuilder.NaryExampleTree | components/articles/BinaryTrees/util.js:8-20 | the sample arena is acyclic and node 1 is the tree 1 → (3 → (5, 6), 2, 4) |
| BinaryTreeBuilder.AttachSlots | components/articles/BinaryTrees/binary/util.js:17-21 | the left-else-right assignment on a parent is the first/last-child view of its child list with the new id appended |
| BinaryTreeBuilder.BinaryArenaStep | components/articles/BinaryTrees/binary/util.js:9-21 | a truthy entry whose parent exists appends a node with both slots null, and changes only the selected parent's `left` or `right` |
| BinaryTreeBuilder.BinaryArenaSeparator | components/articles/BinaryTrees/binary/util.js:22-24 | a falsy entry adds one separator and leaves the arena unchanged |
| BinaryTreeBuilder.BinaryLoopStep | components/articles/BinaryTrees/binary/util.js:8-25 | one `forEach` iteration keeps the arena equal to the declarative arena of the prefix, or detects the throwing lookup |
| BinaryTreeBuilder.ConvertBinaryTreeArrayToObject | components/articles/BinaryTrees/binary/util.js:1-28 | throws (reading `left` of undefined) exactly when some lookup passes the end of `parents`; otherwise returns the declarative arena |
| BinaryTreeBuilder.BinaryArenaSlots | components/articles/BinaryTrees/binary/util.js:2-27 | one node per truthy entry below a value-less super-root; `left` is the first attached child and never overwritten; `right` is the last of two or more and null with one child |
| BinaryTreeBuilder.BinarySelfChild | components/articles/BinaryTrees/binary/util.js:15-21 | node j's `left` is j itself exactly when the separators before it equal j |
| BinaryTreeBuilder.SlotsForward | components/articles/BinaryTrees/binary/util.js:15-21 | when every parent precedes its child, both slots of a node point past it and into the arena |
| BinaryTreeBuilder.EarlierIsForward | components/articles/BinaryTrees/binary/util.js:15-21 | when every parent precedes its child, the arena is acyclic |
| BinaryTreeBuilder.BinaryForwardIff | components/articles/BinaryTrees/binary/util.js:15-21 | a built arena is acyclic exactly when every node saw strictly fewer separators than nodes created |
| BinaryTreeBuilder.SampleEncoding | components/articles/BinaryTrees/binary/util.js:8-25 | the values and parent indices the binary sample array encodes |
| BinaryTreeBuilder.BinaryExample | components/articles/BinaryTrees/binary/util.js:8-25 | `[2, null, 1, 4, null, null, 3, 5]` stores 2 in the super-root's `left`, with 2 → (1, 4) and 4 → (3, 5) |
| BinaryTreeBuilder.BinaryExampleTree | components/articles/BinaryTrees/BinaryTree.js:9-30 | the sample arena is acyclic and node 1 is the drawn tree 2 → (1, 4 → (3, 5)) |
| Trees.PreorderNodes | components/articles/BinaryTrees/nary/traversals.js:7-20 | N-ary pre-order lists every node exactly once (length and multiset), the root first |
| Trees.PostorderNodes | components/articles/BinaryTrees/nary/traversals.js:53-62 | N-ary post-order lists every node exactly once, the root last |
| Trees.InorderZeroOrTwo | components/articles/BinaryTrees/nary/traversals.js:29-44 | on trees whose nodes have zero or two children the loop's order is binary in-order, and it equals the reference generalisation |
| Trees.InorderLoneChild | components/articles/BinaryTrees/nary/traversals.js:38-42 | a lone child's run is emitted both before and after its parent |
| Trees.InorderThreeLeaves | components/articles/BinaryTrees/nary/traversals.js:32-42 | leaf children a, b, c give a, b, node, c, where the reference generalisation gives a, node, b, c |
| Trees.InorderForestForm | components/articles/BinaryTrees/nary/traversals.js:29-44 | with two or more children, the output is the first child's run, then what popping each middle child emits, then the node and its last child's run |
| Trees.InorderCongruence | components/articles/BinaryTrees/nary/traversals.js:32-42 | two nodes with the same value, first child, last child and middle-children output emit the same |
| Trees.PoppedLastChild | components/articles/BinaryTrees/nary/traversals.js:39-43 | popping a node with children emits its value and then descends only its last child |
| Trees.PoppedByLastChild | components/articles/BinaryTrees/nary/traversals.js:39-43 | two nodes with the same value and last child emit the same when popped |
| Trees.PoppedForestReplace | components/articles/BinaryTrees/nary/traversals.js:29-44 | replacing one popped tree by another that emits the same keeps a run of pops unchanged |
| Trees.InorderReplaceMiddle | components/articles/BinaryTrees/nary/traversals.js:32-42 | replacing any middle child by a tree that emits the same when popped leaves the whole output unchanged |
| Trees.KeepLastChildPops | components/articles/BinaryTrees/nary/traversals.js:39-43 | replacing all of a node's children but its last by any trees does not change what popping it emits |
| Trees.InorderDropsMiddleGrandchildren | components/articles/BinaryTrees/nary/traversals.js:32-42 | for every tree, middle child and trees `ds`: replacing all of that middle child's children but its last by `ds` leaves the output unchanged, so only its last child is ever descended |
| Trees.InorderDropsGrandchildExample | components/articles/BinaryTrees/nary/traversals.js:32-42 | for example, in v -> (a, m -> (x, y), c) the output is a, m, y, v, c: the grandchild x is never emitted |
| Trees.LeafOrders | components/articles/BinaryTrees/nary/traversals.js:29-44 | a leaf is emitted once by the loop's order and by the reference order |
| Trees.BPreorderNodes | components/articles/BinaryTrees/binary/traversals.js:7-25 | binary pre-order lists every node exactly once |
| Trees.BInorderNodes | components/articles/BinaryTrees/binary/traversals.js:32-43 | binary in-order lists every node exactly once |
| Trees.LeftFreePostorder | components/articles/BinaryTrees/binary/traversals.js:49-62 | on a tree without left children the true post-order is pre-order reversed |
| NaryTraversals.PreorderPop | components/articles/BinaryTrees/nary/traversals.js:8-17 | popping a node and pushing its children reversed keeps what the stack still emits, after the node's value |
| NaryTraversals.PreorderTraverse | components/articles/BinaryTrees/nary/traversals.js:3-21 | returns the recursive pre-order; a null root throws reading `val` |
| NaryTraversals.StackOutputReversed | components/articles/BinaryTrees/nary/traversals.js:32-37 | middle children pushed in reverse are popped in their own order |
| NaryTraversals.InorderSplit | components/articles/BinaryTrees/nary/traversals.js:32-42 | the loop's order for a node is first child's run, then middle children as popped nodes, then the node popped |
| NaryTraversals.InorderPush | components/articles/BinaryTrees/nary/traversals.js:31-38 | the push branch keeps what current and the stack still emit |
| NaryTraversals.InorderPushStep | components/articles/BinaryTrees/nary/traversals.js:30-38 | the push branch keeps the loop state and descends into a strictly smaller subtree |
| NaryTraversals.InorderPopStep | components/articles/BinaryTrees/nary/traversals.js:39-43 | the pop branch emits the top node's value, continues with its last child and keeps the loop state |
| NaryTraversals.InorderTraverse | components/articles/BinaryTrees/nary/traversals.js:23-47 | returns the in-order the code defines for a non-null root and `[]` for a null root |
| NaryTraversals.PostorderPop | components/articles/BinaryTrees/nary/traversals.js:54-59 | popping a node and pushing its children in order puts its value in front of the rest of the output |
| NaryTraversals.PostorderTraverse | components/articles/BinaryTrees/nary/traversals.js:49-63 | returns the recursive post-order built by `unshift`; a null root throws reading `val` |
| BinaryTraversals.PendingPreorderPush | components/articles/BinaryTrees/binary/traversals.js:16-22 | pushing right and then left makes the left pre-order come out first |
| BinaryTraversals.PreorderSkip | components/articles/BinaryTrees/binary/traversals.js:10-12 | popping a null entry keeps the loop state |
| BinaryTraversals.PreorderVisit | components/articles/BinaryTrees/binary/traversals.js:14-22 | popping a node emits its value and keeps the loop state, with strictly more output |
| BinaryTraversals.BinaryPreorderTraverse | components/articles/BinaryTrees/binary/traversals.js:3-26 | returns node, left pre-order, right pre-order; null entries are skipped |
| BinaryTraversals.BinaryPreorderCounts | components/articles/BinaryTrees/binary/traversals.js:7-25 | the result has one entry per node, every node exactly once, the root first, and is `[]` for a null root |
| BinaryTraversals.InorderPushStep | components/articles/BinaryTrees/binary/traversals.js:33-35 | pushing current and going left keeps what is still to be reported, into a smaller subtree |
| BinaryTraversals.InorderPopStep | components/articles/BinaryTrees/binary/traversals.js:36-41 | popping reports the node and continues with its right subtree, keeping what is still to be reported |
| BinaryTraversals.BinaryInOrderTraverse | components/articles/BinaryTrees/binary/traversals.js:28-44 | the trace is a pause and `setVisited(val, true)` per node in left-node-right order |
| BinaryTraversals.BinaryInOrderCounts | components/articles/BinaryTrees/binary/traversals.js:32-43 | each node is reported exactly once, each call preceded by exactly one pause, and a null root gives no events |
| BinaryTraversals.BinaryPostorderTraverse | components/articles/BinaryTrees/binary/traversals.js:46-63 | the loop's trace and end state equal the bounded run of the queue machine |
| BinaryTraversals.PostorderRootFirst | components/articles/BinaryTrees/binary/traversals.js:50-53 | the root is visited first; a null root throws right after one pause |
| BinaryTraversals.StuckForever | components/articles/BinaryTrees/binary/traversals.js:55-58 | once a node with a left child is queued, every iteration emits two events and the queue never empties |
| BinaryTraversals.PostorderNeverFinishes | components/articles/BinaryTrees/binary/traversals.js:49-62 | a tree with any left child never finishes, whatever the bound |
| BinaryTraversals.RunOneNode | components/articles/BinaryTrees/binary/traversals.js:50-61 | one iteration with a single queued node without a left child: its visit, then the run on its right child |
| BinaryTraversals.LeftFreeLeaf | components/articles/BinaryTrees/binary/traversals.js:49-62 | the end of a right chain is visited and the run finishes |
| BinaryTraversals.LeftFreeStep | components/articles/BinaryTrees/binary/traversals.js:49-62 | a right-chain node's visit followed by its right child's run |
| BinaryTraversals.LeftFreeRun | components/articles/BinaryTrees/binary/traversals.js:49-62 | without left children the run visits the root and then the right chain, and finishes after one iteration per node (or stops at the bound) |
| BinaryTraversals.PostorderFinishesIff | components/articles/BinaryTrees/binary/traversals.js:49-62 | the run finishes exactly on a non-null tree without left children given one iteration per node |
| BinaryTraversals.LeftFreeReportsReversedPostorder | components/articles/BinaryTrees/binary/traversals.js:49-62 | a finished run reports the true post-order backwards |
| Animation.VisitsAt | components/articles/BinaryTrees/traversals.js:13-14 | pauses at the even positions, `setVisited(v, true)` at the odd ones, twice as many events as values |
| Animation.VisitsInjective | components/articles/BinaryTrees/traversals.js:13-14 | the trace determines the visited values |
| AnimatedTraversals.PresentLift | components/articles/BinaryTrees/traversals.js:16-21 | pushed children are all present on the stack |
| AnimatedTraversals.PendingStart | components/articles/BinaryTrees/traversals.js:4 | the initial stack still reports exactly the root's pre-order, nothing for a null root |
| AnimatedTraversals.SkipStep | components/articles/BinaryTrees/traversals.js:9-11 | popping a null entry reports nothing |
| AnimatedTraversals.VisitStep | components/articles/BinaryTrees/traversals.js:13-21 | popping a node reports it, then what its reversed children and the rest of the stack hold |
| AnimatedTraversals.PreorderTraverse | components/articles/BinaryTrees/traversals.js:3-23 | the trace is a pause and a call per node in N-ary pre-order, empty for a null root |
| AnimatedTraversals.AnimatedReportsEachNode | components/articles/BinaryTrees/traversals.js:3-23 | each node reported exactly once, in the order the array-returning pre-order gives |
| WolframRules.Rules | components/articles/WolframPattern/constants.js:1-19 | `RULES[key]` is defined exactly for keys 1, 2, 30, 90 and 254 |
| WolframRules.Rule30IsCode30 | components/articles/WolframPattern/constants.js:4-9 | on bits: Wolfram code 30, on exactly for 100, 011, 010, 001, and l XOR (c OR r) |
| WolframRules.Rule90IsCode90 | components/articles/WolframPattern/constants.js:10-15 | on bits: Wolfram code 90, l XOR r |
| WolframRules.Rule90IgnoresCentre | components/articles/WolframPattern/constants.js:10-15 | the centre is never read |
| WolframRules.Rule254IsCode254 | components/articles/WolframPattern/constants.js:16-18 | on bits: Wolfram code 254, on unless all three cells are 0 |
| WolframRules.Rule1IsCode204 | components/articles/WolframPattern/constants.js:2 | copying the centre is Wolfram code 204 |
| WolframRules.Rule2IsCode240 | components/articles/WolframPattern/constants.js:3 | copying the left neighbour is Wolfram code 240 |
| WolframRules.Rules1And2AreLabels | components/articles/WolframPattern/constants.js:2-3 | keys 1 and 2 disagree with Wolfram codes 1 and 2 on some neighbourhood |
| WolframRules.BinaryRulesKeys | components/articles/WolframPattern/constants.js:21-30 | eight distinct 3-character keys, entry i the 3-bit form of 7 - i |
| WolframRows.EmptyRowCells | components/articles/WolframPattern/util.js:1-5 | 101 cells, all 0 |
| WolframRows.FirstRowCells | components/articles/WolframPattern/util.js:7-16 | 101 cells, index 50 is 1 and every other cell 0 |
| WolframRows.InitialRowsShape | components/articles/WolframPattern/util.js:18-21 | 50 rows, each an empty row of 101 cells |
| WolframBase.UpdateRowCells | components/articles/WolframPattern/Base.js:6-13 | same length, cells 0 or 1, cell i is 1 exactly when the rule holds for the cell above and its neighbours, edges read 0 |
| WolframBase.UpdateRowIgnoresCells | components/articles/WolframPattern/Base.js:7 | only the length of `row` is used |
| WolframBase.RuleCodes | components/articles/WolframPattern/constants.js:1-19 | the rules of keys 30, 90, 254, 1 and 2 have Wolfram codes 30, 90, 254, 204 and 240 |
| WolframBase.UpdateRowIsGeneration | components/articles/WolframPattern/Base.js:6-13 | on a row of bits, a rule with code N computes the next generation of elementary automaton N, cells past the edges dead |
| WolframBinary.Binary.constructor | components/articles/WolframPattern/Binary.js:45-54 | the table starts with all eight keys off |
| WolframBinary.Binary.UpdateBinaryRules | components/articles/WolframPattern/Binary.js:56-60 | the table becomes the old table with the key set to 0 if it was truthy and 1 otherwise |
| WolframBinary.TableUpdateRowCells | components/articles/WolframPattern/Binary.js:7-15 | same length, cells 0 or 1, and cell i is 1 exactly when the table is truthy at the "lcr" key of the cell above |
| WolframBinary.KeyOfBits | components/articles/WolframPattern/Binary.js:9-12 | on a row of bits the key is the neighbourhood's 3-bit form, with edges reading 0 |
| WolframBinary.InitialTableRowIsZero | components/articles/WolframPattern/Binary.js:45-54 | the initial table yields an all-zero row |
| WolframBinary.ToggleFlips | components/articles/WolframPattern/Binary.js:56-59 | a toggle flips the chosen key's truthiness and leaves every other key as it was |
| WolframBinary.ToggleTwice | components/articles/WolframPattern/Binary.js:56-59 | toggling the same key twice restores every key's truthiness |
| WolframBinary.TableRowIsRuleRow | components/articles/WolframPattern/Binary.js:7-15 | a table realising code N computes the same row as any rule predicate with code N |
| WolframBinary.Rule30TableRealises | components/articles/WolframPattern/Binary.js:56-60 | four toggles of the initial table realise Wolfram code 30 |
| WolframBinary.Rule30TableIsRule30 | components/articles/WolframPattern/Binary.js:7-15 | that table reproduces `RULES[30]` on rows of bits |
| WolframCustom.MapFromSpec | components/articles/WolframPattern/Custom.js:7-14 | the map succeeds exactly when no cell's rule throws, keeps the length, and cell i is the outcome's truthiness |
| WolframCustom.CustomAgreesWithBase | components/articles/WolframPattern/Custom.js:7-14 | with a rule that never throws, it is exactly Base.js's update |
| WolframCustom.CustomRuleEvalRows | components/articles/WolframPattern/Custom.js:19-21 | the custom rule fills a row uniformly with 1 or 0, or throws as soon as the row has a cell |
| WolframCustom.Custom.constructor | components/articles/WolframPattern/Custom.js:17 | the token list starts empty |
| WolframCustom.Custom.AddToRule | components/articles/WolframPattern/Custom.js:23-26 | the list becomes the old list with the token appended |
| WolframCustom.Custom.DeleteFromRule | components/articles/WolframPattern/Custom.js:28-32 | the list becomes the old list without its last token |
| WolframCustom.Custom.ClearCustomRule | components/articles/WolframPattern/Custom.js:34-36 | the list becomes empty |
| WolframCustom.WithTokenAppends | components/articles/WolframPattern/Custom.js:23-26 | exactly one token appended at the end, the rest unchanged |
| WolframCustom.WithoutLastTokenDrops | components/articles/WolframPattern/Custom.js:28-32 | only the last token removed; an empty list stays empty |
| WolframCustom.DeleteUndoesAdd | components/articles/WolframPattern/Custom.js:23-32 | delete after add restores the list |
| WolframCustom.JoinWithToken | components/articles/WolframPattern/Custom.js:47 | the displayed rule grows by a space and the new token, with no leading space for the first |
| WolframCustom.JoinSpaces | components/articles/WolframPattern/Custom.js:47 | joining a non-empty token list puts exactly one separating space fewer than there are tokens in the text, besides the spaces inside the tokens (such as "=== 1"); an empty list joins to the empty text |
| WolframCustom.SpacelessSpacesIn | components/articles/WolframPattern/Custom.js:47 | tokens without spaces of their own contribute no spaces, so their join has exactly one space fewer than there are tokens |
| WolframPattern.ApplyThrows | components/articles/WolframPattern/Base.js:20-22 | a call throws exactly on a non-empty row when the rule key is unknown or the custom evaluation throws; otherwise it keeps the row's length |
| WolframPattern.ApplyIgnoresCells | components/articles/WolframPattern/Base.js:7 | only the length of `row` matters to any of the three updaters |
| WolframPattern.FreshInitialRows | components/articles/WolframPattern/Pattern.js:6-7 | the initial rows with row 0 replaced by the first row |
| WolframPattern.InitialGridShape | components/articles/WolframPattern/Pattern.js:6-7 | 50 rows of 101 cells: the centred single 1, then empty rows |
| WolframPattern.CascadeTo | components/articles/WolframPattern/Pattern.js:12-15 | a loop prefix keeps the number of rows and leaves the rows not yet reached unchanged |
| WolframPattern.CascadeToFails | components/articles/WolframPattern/Pattern.js:13-15 | once a call has thrown, the run has failed |
| WolframPattern.CascadeToSteps | components/articles/WolframPattern/Pattern.js:12-15 | row 0 is kept and every later row is the call on its old cells and the new row above |
| WolframPattern.CascadeToWidths | components/articles/WolframPattern/Pattern.js:13-15 | recomputed rows keep the width of the rows they replace |
| WolframPattern.CascadeKeepsGrid | components/articles/WolframPattern/Pattern.js:11-17 | running keeps a grid of 101-cell rows |
| WolframPattern.GenerationWidth | components/articles/WolframPattern/Pattern.js:13-15 | every generation has the first row's width; a never-throwing updater always gets there |
| WolframPattern.GenerationThrows | components/articles/WolframPattern/Pattern.js:13-15 | a throwing updater on a non-empty row fails from the first generation on |
| WolframPattern.CascadeToGenerations | components/articles/WolframPattern/Pattern.js:13-15 | after the loop, row i is the i-th generation of row 0, and the loop fails exactly when some generation does |
| WolframPattern.CascadeIsGenerations | components/articles/WolframPattern/Pattern.js:11-17 | the whole run as generations of row 0 |
| WolframPattern.TestRuleIff | components/articles/WolframPattern/Pattern.js:19-26 | on a grid the trial passes exactly for an updater that never throws, and then the run succeeds |
| WolframPattern.FailedTrialFailsRun | components/articles/WolframPattern/Pattern.js:19-36 | the trial rejects no rule that the run would accept |
| WolframPattern.BaseRunIsAutomaton | components/articles/WolframPattern/Pattern.js:13-15 | on the Base page with a rule of code N, every row after "Run" is elementary automaton N's next generation of the row above |
| WolframPattern.Pattern.constructor | components/articles/WolframPattern/Pattern.js:6-9 | the initial grid and an empty error |
| WolframPattern.Pattern.GetUpdatedRows | components/articles/WolframPattern/Pattern.js:11-17 | returns the cascade of the rows without changing them; None when a call throws |
| WolframPattern.Pattern.UpdateRows | components/articles/WolframPattern/Pattern.js:28-39 | a failed trial leaves the rows and sets "Unable to process rule"; otherwise the error is cleared and the rows become the run's result |
| WolframPattern.Pattern.ResetRows | components/articles/WolframPattern/Pattern.js:41-44 | clears the error and restores the initial grid |

## Left out

- Timing: each `setTimeout` pause of `PAUSE_DURATION` (700 ms) is a `Pause`
  event. Wall-clock time and the asynchronous scheduling of `await` are not
  modelled.
- What `setVisited` does to the page's state, and every React component,
  stylesheet, button and rendered element, are not modelled. Only the
  order and arguments of the calls are kept.
- React's `useState`: a state setter is an immediate field assignment.
  Batching and re-rendering are not modelled.
- The `hideButtons` prop, the button labels and the token strings the
  Custom page's buttons offer are not modelled. `AddToRule` takes any
  string.
- `console.log` in `updateRows` is not modelled.
- The safe-eval library called by `customRuleEval` is foreign code. The
  model takes the evaluation's outcome as a parameter: None when it
  throws, otherwise the truthiness of its value.
  - `WolframCustom.Custom.Rule` takes the evaluator itself as a parameter.
  - `WolframCustom.Custom.DisplayedRule` states the displayed text.
  - Neither has a contract of its own of any consequence. The properties
    are proved about `Join` and `CustomRuleEval`.
- JavaScript exceptions are values: `Throws(ReadOfUndefined(..))`,
  `Throws(ReadOfNull(..))` or `Threw(..)` in results, and None for an
  `updateRow` call that throws.
  - A throw inside `getUpdatedRows` escapes `updateRows`. The model
    leaves the rows as they were, the error already cleared.
  - On a grid this cannot happen after a passed trial (`TestRuleIff`).
- BinaryTraversals.BinaryPostorderTraverse: runs at most `fuel`
  iterations, because the source loop need not stop. Runs longer than
  the bound are described only through `StuckForever` and
  `PostorderNeverFinishes`.
- Traversing a cyclic arena is not modelled. When a builder makes a node
  its own child, the traversals in the source loop forever on it.
  - The traversals are modelled on finite datatype trees.
  - `TreeAt` turns an acyclic arena into such a tree.
  - `NaryForwardIff` and `BinaryForwardIff` say exactly when an arena is
    acyclic.
- The traversals take trees of real nodes only. The builders'
  value-less super-root is never a traversal input: `TreeAt` under
  `Forward` gives the tree from node 1 down. Calling a traversal on the
  super-root itself, which in the source would emit `undefined` first, is
  not modelled.
- BinaryTreeBuilder.ConvertBinaryTreeArrayToObject: the super-root's
  unused `children: []` field is not kept. The model keeps only `val`,
  `left` and `right`.
- Object identity and aliasing: node objects are arena entries, and rows
  are values. The model does not capture that `[...rows]` in
  `getUpdatedRows` is a shallow copy that shares the row arrays. No row is
  ever changed in place, so nothing observable depends on the sharing.
- WolframBase.UpdateRow: past the end of the previous row the source
  passes `undefined` as the previous cell; the model passes 0.
  - Every rule of `RULES` treats the two alike.
  - `customRuleEval` ignores its arguments.
  - The lookup table's key is built from the actual text ("undefined")
    by `WolframBinary.CellText`.
- WolframBinary.Binary.constructor: the initial table's `false` values
  are 0, which is falsy in the same way.
- Numbers are mathematical integers. Array entries are `Option<int>`,
  with 0 and `null` both falsy. Floating-point `val`s and cells are not
  modelled.
