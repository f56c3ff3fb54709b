# Red-black tree on linked sentinel nodes

This project models the C red-black tree in `rbtree.c` / `rbtree.h`. It
stores a set of `int` keys. A `struct RBTree` holds `proot`, the root node,
and `size`, the number of keys. Each `struct TreeNode` has a colour, a key
(`value`), an `isLeaf` flag and three pointers: `parent`, `lchild` and
`rchild`.

Empty positions are not NULL pointers. They are BLACK sentinel nodes with
`isLeaf` set.
- An insert turns the sentinel it reaches into a RED inner node and gives it
  two new sentinels.
- A removal turns an inner node back into a sentinel.
- `proot` is NULL only after the last key has been removed.

The model has two levels.

- **Values** (modules `RedBlack`, `InsertSpec`, `RemoveSpec`).
  - `Tree<N>` is `Leaf(node)` or `Node(node, color, key, left, right)`.
    Every position remembers the heap node that holds it.
  - A `Path` of `Left`/`Right` steps addresses a position. `Sub` reads a
    position and `Replace` rewrites it.
  - `InOrder`, `Keys`, `Ordered`, `NoRedRed`, `BlackHeight` and `IsRB` state
    the five properties listed at `rbtree.c:7-12`.
  - `InsertSpec.InsertFixup` and `RemoveSpec.RemoveFixup` follow the C fix-up
    loops case by case. They move up a path, one iteration of the C loop per
    recursive call.
  - `RemoveSpec.RemoveFixup` is the removal fix-up as intended, in two
    respects. Case 2.4 paints the brother RED. The loop ends at the real root,
    as if `proot` followed the rotations of cases 1 and 2.2. `AsWritten`
    models the code as written for both.
- **Heap** (modules `Nodes`, `Removal`, `Operations`).
  - `Nodes.TreeNode` and `Operations.RBTree` are classes with the C fields.
  - `Nodes.Linked(t)` says that the nodes' fields spell out the value tree
    `t`: colours, keys, leaf flags, child pointers and parent pointers.
  - Every heap method is proved to write exactly the value tree that the
    value-level function computes. `RBTree.Valid()` ties `proot` and `size`
    to a ghost tree `T` that is a valid red-black tree.

`AsWritten` models three places where the C code differs from what the
algorithm intends (see "## Findings"). It models the code exactly as
written, with `proot` as a node identity and a `Crash` outcome for a NULL
dereference. The lemmas there compute concrete runs.

The driver `test.c` inserts the 17 values of its `data` array (line 8). Only
12 of them are distinct, so by the code `size` is 12. After it removes
`rdata` (line 9), of which 4 keys are present, `size` is 8. The module
`Driver` runs these calls on the value model, one lemma per call, and
`Driver.TestRun` states the trees and key sequences that result.

## Model

| member | source | states |
|---|---|---|
| Operations.RBTree.constructor | rbtree.c:17-30 | newRBTree: the new tree is valid, its root is one fresh BLACK sentinel, it holds no keys and `size` is 0 |
| Nodes.TreeNode.Leaf | rbtree.c:32-42 | newLeafNode: a BLACK sentinel with `isLeaf` set and all three pointers NULL |
| Nodes.AddLeafChildren | rbtree.c:44-54 | addLeafChildren: the node gets two distinct fresh BLACK sentinels as children, whose parent is the node; its own colour, key, parent and leaf flag are unchanged |
| Nodes.ChangeToLeaf | rbtree.c:56-63 | changeToLeaf: the node becomes a BLACK sentinel with no children and keeps its parent and key |
| Nodes.ChangeToLeafAt | rbtree.c:56-63 | changeToLeaf on a linked tree: the tree with that position replaced by a sentinel is still linked |
| Nodes.NodeAt | rbtree.c:72-75 | isLeaf is true exactly at sentinel positions; the node's colour and parent pointer match its position in the tree, and the root's parent is NULL |
| Nodes.IsLeftChildAt | rbtree.c:65-70 | isLeftChild holds exactly when the node is reached by a last `Left` step, so never for the root |
| Nodes.UncleAt | rbtree.c:78-85 | getUncle returns the grandparent's child on the other side from the parent |
| Nodes.BrotherAt | rbtree.c:88-94 | getBrother returns the parent's other child |
| Nodes.NephewsAt | rbtree.c:97-108 | getNearNephew returns the brother's child on the node's own side; getFarNephew returns the brother's child on the other side |
| RedBlack.RotateLeft | rbtree.c:111-129 | leftRotate on values keeps the in-order key sequence and the set of nodes |
| RedBlack.RotateRight | rbtree.c:132-150 | rightRotate on values keeps the in-order key sequence and the set of nodes |
| RedBlack.RotateSame | rbtree.c:111-150 | a rotation keeps the in-order key sequence and the node set, and creates no shared node |
| Nodes.LeftRotate | rbtree.c:111-129 | leftRotate rewires exactly the node, its right child, that child's left child and the parent; every field written is stated, and every other node is unchanged |
| Nodes.RightRotate | rbtree.c:132-150 | the mirror image of leftRotate, stated field by field |
| Nodes.LeftRotateAt | rbtree.c:111-129 | leftRotate at a position of a linked tree leaves the heap spelling out the tree with that subtree rotated, so the rotation is local |
| Nodes.RightRotateAt | rbtree.c:132-150 | the same for rightRotate |
| RedBlack.Descend | rbtree.c:211-220 | the search path is valid and stops at a sentinel or at the node holding the key |
| RedBlack.DescendFinds | rbtree.c:211-220 | in an ordered tree the search stops at an inner node exactly when the key is present |
| Operations.SearchEnd | rbtree.c:297-302 | the heap search loop ends on the path `Descend` computes, at a sentinel exactly when the key is absent |
| Operations.RBTree.Search | rbtree.c:211-220 | the loop walks down the heap to the node `Descend` finds, which is a sentinel exactly when the key is not in the tree |
| Operations.RootCase | rbtree.c:157-163 | case 1 of insertFixup: the heap write paints the root BLACK, which is what the value-level fix-up does |
| Operations.RecolorCase | rbtree.c:175-182 | case 3.1: the heap writes do one fix-up step, the walk moves to the grandparent, the remaining fix-up result is the same and the measure decreases |
| Operations.LineCase | rbtree.c:184-194 | case 3.2: the heap writes give the final fix-up result, and the parent becomes the root when the grandparent was the root |
| Operations.ZigZagCase | rbtree.c:196-203 | case 3.3: the rotation at the parent turns a zig-zag into a line and keeps the remaining fix-up result |
| Operations.RBTree.LineFix | rbtree.c:184-194 | case 3.2 with `proot` moved to the rotated parent when the grandparent was the root |
| Operations.RBTree.RedParent | rbtree.c:170-203 | one iteration of the insertFixup loop under a RED parent: either it finishes the fix-up, or the fix-up continues from a node higher up with the same final result |
| Operations.RBTree.InsertFixup | rbtree.c:152-205 | the heap loop ends with the heap spelling out `InsertSpec.InsertFixup` of the tree it started from, and `proot` at its root |
| InsertSpec.InsertFixupSame | rbtree.c:152-205 | insertFixup only recolours and rotates: the in-order key sequence and the node set are unchanged, and no node becomes shared |
| InsertSpec.RecolorUpValid | rbtree.c:175-182 | case 3.1 moves the RED two levels up and keeps the black height |
| InsertSpec.LineRotateValid | rbtree.c:184-194 | case 3.2 leaves a BLACK top over two RED children with the same black height and no RED-RED edge |
| InsertSpec.ZigZagValid | rbtree.c:196-203 | case 3.3 produces the shape case 3.2 handles, with the same black height |
| InsertSpec.InsertStepValid | rbtree.c:155-204 | one fix-up iteration either ends with a valid red-black tree or keeps the loop invariant one level higher |
| InsertSpec.InsertFixupValid | rbtree.c:152-205 | from a tree whose only fault is one RED node under a RED parent, insertFixup gives a BLACK root, no RED-RED edge and equal black heights (possibly one higher) |
| InsertSpec.InsertFresh | rbtree.c:222-228 | inserting an absent key keeps the tree valid, adds the key, adds one element to the sequence and adds exactly the two new sentinels |
| InsertSpec.InsertValid | rbtree.c:208-229 | insertElement keeps a valid tree valid, and its keys become the old ones plus the new key; a duplicate key gives the same tree; a fresh key gives one more element |
| Operations.RBTree.AddAt | rbtree.c:222-228 | the sentinel found by the search becomes a RED node with two new sentinels, insertFixup runs, and `size` grows by one |
| Operations.RBTree.InsertElement | rbtree.c:208-229 | the tree stays valid and its keys become the old keys plus the new one; a duplicate insert changes nothing; a fresh key adds one to `size`; the heap holds exactly `InsertSpec.Insert` of the old tree |
| RemoveSpec.Case1Same | rbtree.c:240-246 | case 1 of removeFixup recolours and rotates without changing the key sequence or the node set |
| RemoveSpec.Case1Stops | rbtree.c:240-273 | after case 1 the brother is BLACK, and the next round under a RED parent always stops |
| RemoveSpec.Case1Valid | rbtree.c:240-246 | case 1 turns the RED brother case into a BLACK brother under a RED parent, with the same deficit |
| RemoveSpec.Case21Valid | rbtree.c:251-258 | case 2.1 turns a RED near nephew into a RED far nephew, keeping black heights |
| RemoveSpec.Case22Valid | rbtree.c:262-273 | case 2.2 removes the deficit: the subtree is valid again with its old black height and old top colour |
| RemoveSpec.Case23Valid | rbtree.c:277-283 | case 2.3 removes the deficit by swapping the RED parent and the BLACK brother |
| RemoveSpec.Case24Valid | rbtree.c:285-287 | case 2.4 as intended (brother painted RED) moves the whole deficit up to the parent |
| RemoveSpec.Case2Same | rbtree.c:249-287 | each case under a BLACK brother keeps the key sequence and the node set |
| RemoveSpec.RemoveStep | rbtree.c:235-288 | one iteration either finishes or continues at a strictly shorter path, which is why removeFixup terminates |
| RemoveSpec.RemoveStepValid | rbtree.c:235-288 | one iteration either ends with a valid tree or keeps a one-BLACK deficit one level higher |
| RemoveSpec.RemoveFixupValid | rbtree.c:231-289 | from a tree one BLACK short on the paths through one position, removeFixup gives a BLACK root, no RED-RED edge and equal black heights (possibly one lower) |
| RemoveSpec.RemoveFixupSame | rbtree.c:231-289 | removeFixup keeps the in-order key sequence and the node set, and creates no shared node |
| RemoveSpec.RemoveFixupRB | rbtree.c:231-289 | on an ordered tree with a deficit, removeFixup yields a valid red-black tree with the same keys |
| RemoveSpec.Leftmost | rbtree.c:307-311 | the successor search ends at an inner node whose left child is a sentinel, and no key comes before it |
| RemoveSpec.Target | rbtree.c:304-314 | the node actually unlinked is an inner node with at least one sentinel child |
| RemoveSpec.TargetBelow | rbtree.c:304-314 | with two inner children, the unlinked node is the leftmost of the right subtree |
| RemoveSpec.SuccessorKeys | rbtree.c:312-313 | copying the successor's key up and unlinking the successor removes exactly the original key from the sequence |
| RemoveSpec.UnlinkValid | rbtree.c:317-355 | cases 2, 3.1 and 3.2.2 leave a valid tree without the key, one element shorter, with no new nodes |
| RemoveSpec.ShortUnlink | rbtree.c:351-355 | case 3.2.2: the BLACK node with two sentinel children becomes a sentinel, the tree is one BLACK short there, and removeFixup then restores validity without the key |
| RemoveSpec.RemoveAbsent | rbtree.c:300-302 | removing an absent key gives back the same tree |
| RemoveSpec.RemovePresent | rbtree.c:292-356 | removing a present key gives no tree exactly when it was the only key; otherwise a valid tree without that key, one element shorter, with no new nodes |
| Removal.Successor | rbtree.c:307-311 | the heap loop for the in-order successor stops at the node `Target` names, and returns its key |
| Removal.ToTarget | rbtree.c:304-314 | case 1: the key moves from the successor into the node to delete, and the walk moves to the successor |
| Removal.DropChild | rbtree.c:326-338 | case 3.1: the BLACK node takes its only inner child's key and the child becomes a sentinel, which is the detached value tree |
| Removal.Unhook | rbtree.c:317-338 | cases 2 and 3.1 on the heap write exactly the detached value tree |
| Removal.Shorten | rbtree.c:351-354 | case 3.2.2: the node becomes a sentinel; the result is the unlinked tree with a one-BLACK deficit at that position |
| Removal.BrotherRedCase | rbtree.c:240-246 | the writes of case 1 spell out `Case1` of the parent's subtree |
| Removal.NearRedCase | rbtree.c:251-258 | the writes of case 2.1 spell out `Case21` |
| Removal.FarRedCase | rbtree.c:262-273 | the writes of case 2.2 spell out `Case22` |
| Removal.ParentRedCase | rbtree.c:277-283 | the writes of case 2.3 spell out `Case23` |
| Removal.ClimbCase | rbtree.c:285-287 | case 2.4 with the brother painted RED spells out `Case24`, and the walk moves to the parent |
| Operations.RBTree.BrotherRedFix | rbtree.c:240-246 | case 1 with `proot` moved to the brother when the parent was the root |
| Operations.RBTree.FarRedFix | rbtree.c:262-273 | case 2.2 with `proot` moved to the brother when the parent was the root |
| Operations.RBTree.BlackBrother | rbtree.c:249-287 | the cases under a BLACK brother write `Case2` of the parent's subtree, and the result reports whether the loop stops |
| Operations.RBTree.FixupStep | rbtree.c:237-287 | one heap iteration computes exactly `RemoveStep` |
| Operations.RBTree.RemoveFixup | rbtree.c:231-289 | the heap loop ends with the heap spelling out `RemoveSpec.RemoveFixup` of the tree it started from, and `proot` at its root |
| Operations.RBTree.TakeInner | rbtree.c:317-338 | cases 2 and 3.1: the tree stays valid, it is the unlinked tree, and `size` drops by one |
| Operations.RBTree.TakeShort | rbtree.c:351-355 | case 3.2.2: the tree is the fixed-up unlinked tree, it is valid, and `size` drops by one |
| Operations.RBTree.Rebalance | rbtree.c:354-355 | `size` drops by one and removeFixup restores a valid tree |
| Operations.RBTree.TakeOut | rbtree.c:317-355 | `proot` becomes NULL exactly when the lone BLACK root goes (case 3.2.1); otherwise the tree is the unlinked, fixed-up tree; `size` drops by one either way |
| Operations.RBTree.RemoveElement | rbtree.c:292-356 | the tree stays valid and the key is gone; an absent key, or a NULL root, changes nothing; a present key lowers `size` by one; `proot` is NULL exactly when the value-level removal gives no tree |
| AsWritten.Inserted | rbtree.c:208-229 | inserting 2, 1, 3, 4 into a new tree with the code as written gives a concrete tree `Built(4)` |
| AsWritten.Remove4 | rbtree.c:317-324 | removing the RED key 4 from that tree (case 2) gives the tree with that node as a sentinel |
| AsWritten.Unbalanced | rbtree.c:285-287 | as written, case 2.4 leaves the brother BLACK: removing 1 after 4 gives a tree whose black heights differ |
| AsWritten.Rebalanced | rbtree.c:285-287 | with the brother painted RED, the same removal gives a valid red-black tree |
| AsWritten.StaleRoot | rbtree.c:262-272 | as written, removing 1 from `Built(4)` rotates the root away in case 2.2, but `proot` still names the old root node |
| AsWritten.LostKey | rbtree.c:292-302 | after that, removing the key 4, which is in the tree, finds nothing and changes nothing |
| AsWritten.KeyFound | rbtree.c:292-302 | with `proot` kept at the root, the same key is found and removed |
| AsWritten.StaleAfterCase1 | rbtree.c:240-246 | as written, removing 1 from a valid tree whose root has a RED right child runs case 1 at the root; the rotation lowers the node `proot` names, and `proot` stays on it |
| AsWritten.LostAfterCase1 | rbtree.c:292-302 | after that, removing the key 5, which is in the tree, starts below the real root, reaches a sentinel and changes nothing |
| AsWritten.FoundAfterCase1 | rbtree.c:292-302 | with `proot` kept at the root, the same key is found and removed |
| Driver.TestRun | test.c:8-16 | the 17 inserts of test.c on a new tree give a tree holding the 12 distinct values in order; the 6 removals then give a tree holding 1, 3, 4, 5, 10, 12, 17, 31 |
| AsWritten.NullRoot | rbtree.c:208-212 | as written, inserting 5, removing it and then inserting 7 dereferences the NULL `proot` |

## Left out

- printTree (`rbtree.c:358` onward) and the `printf` calls are output only and are not modelled. `test.c` is run on the value model by `Driver`; the heap objects and `size` of that run are not computed.
- `malloc` and `free` become `new` and dropping nodes from the tree's node set. The model does not state that freed nodes are gone or that memory is not leaked.
- The `value` field of a sentinel is uninitialised in C. The model gives it whatever the node last held, and nothing reads it.
- `size` is an `unsigned int` in C. The model uses a natural number and does not model wrap-around past 2^32 - 1 keys.
- The height bound (at most 2·log2(size+1)) follows from the proved invariants and is not proved here.
- Operations.RBTree.RemoveFixup: requires a one-BLACK deficit at the start node, which holds at its only call site (`rbtree.c:355`). Calls from anywhere else are not modelled.
- Operations.RBTree.InsertElement: on a NULL `proot` it first creates a fresh sentinel root. This is the corrected behaviour; the C code dereferences NULL there (see `AsWritten.NullRoot`).
- Operations.RBTree.BrotherRedFix and Operations.RBTree.FarRedFix: move `proot` when the rotation lowers the root. This is the corrected behaviour; the C code leaves `proot` stale (see `AsWritten.StaleRoot`).
- RemoveSpec.Case24 / RemoveSpec.RemoveFixup: the value model is the corrected removal fix-up. Case 2.4 paints the brother RED, which the C code omits. `RemoveStep` stops at the real root, where the C loop stops at the node `proot` names, which its rotations leave stale. The as-written behaviour is in `AsWritten.AwCase2` and `AsWritten.AwRemoveStep`.
- Removal.ClimbCase: paints the brother RED before moving up. This is the corrected behaviour; the C code omits it (see `AsWritten.Unbalanced`).
- The getters `IsLeftChild`, `IsLeaf`, `GetUncle`, `GetBrother`, `GetNearNephew` and `GetFarNephew` are functions without contracts of their own. What they return on a linked tree is stated by `Nodes.NodeAt`, `Nodes.IsLeftChildAt`, `Nodes.UncleAt`, `Nodes.BrotherAt` and `Nodes.NephewsAt`.
- Heap methods whose contracts speak of `old`, `fresh` or `modifies`, the constructors and the twostate frame lemmas (`Nodes.Rotated`, `Nodes.Rewritten`, `Nodes.Grew`) relate the heap before and after a write. They are proved, but they do not stand alone as properties of values.

## Findings

| source | as written | input that shows it | evidently intended | confidence | as-written member | corrected member |
|---|---|---|---|---|---|---|
| rbtree.c:285-287 | case 2.4 of removeFixup moves up to the parent without painting the brother RED | insert 2, 1, 3, 4, remove 4, then remove 1: the left paths of the root have one BLACK node and the right paths two | paint the brother RED, then move up | not executed | AsWritten.Unbalanced | Removal.ClimbCase, AsWritten.Rebalanced |
| rbtree.c:245, rbtree.c:269 | the rotations of cases 1 and 2.2 in removeFixup never update `proot` when they rotate the root away; insertFixup does this at rbtree.c:191-192 | case 2.2: insert 2, 1, 3, 4, then remove 1; `proot` stays at the old root, which is now a child, and removing 4 afterwards finds nothing. Case 1: remove 1 from the valid tree 2B(1B, 4R(3B, 5B)); removing 5 afterwards finds nothing | set `proot` to the node that rose when the rotated node was the root | not executed | AsWritten.StaleRoot, AsWritten.LostKey, AsWritten.StaleAfterCase1, AsWritten.LostAfterCase1 | Operations.RBTree.BrotherRedFix, Operations.RBTree.FarRedFix, AsWritten.KeyFound, AsWritten.FoundAfterCase1 |
| rbtree.c:342-348, rbtree.c:211-212 | removing the last key sets `proot` to NULL, and insertElement then reads `proot` without a NULL check | insert 5, remove 5, insert 7 | a NULL `proot` behaves like an empty tree: start again from one sentinel root | not executed | AsWritten.NullRoot | Operations.RBTree.InsertElement |
