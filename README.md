# Red-black tree over integer keys

This project models `RBTree.rs`, a red-black tree of `i32` keys whose nodes
carry `value`, `color`, `parent`, `left` and `right` links. The model covers
these operations:

- the validator `check_red_black_tree`;
- insertion: `insert_norm_bst`, then `red_black_tree_insertion_cover`, run by
  `insert`;
- deletion: `delete_norm_bst`, then `red_black_tree_deletion_cover` with its
  helper `rotate_on_parent`, run by `delete`;
- the extreme-node helpers `find_first_right_none` and `find_first_left_none`.

The model proves that insertion keeps the tree a red-black binary search
tree holding exactly the expected keys, and that the validator accepts
every tree it produces. It proves the same for the corrected deletion: the
successor branch as in `Deletion.DeleteBst` and the mirrored case 3 of the
repair as in `Repair.NearNephewRotation`. Deletion as written loses keys and
breaks the search-tree order, and `Findings.DeleteAsWrittenCounterexample`
exhibits this on a valid tree (see Findings).

The layers:

- `trees.dfy` (module `Trees`) holds the value model:
  - a tree is `Nil | Node(color, left, key, right)`;
  - the red-black invariants, search-tree order, keys and rotations.

  A node's `parent` link is modelled by a *path*. A path lists the frames
  from the node's parent up to the root. Each frame holds the side the node
  hangs on, the ancestor's colour and key, and the ancestor's other child.
  `Plug` rebuilds the whole tree from a subtree and its path. `Fits` says
  which subtrees a path accepts without breaking an invariant.
- `validator.dfy` holds the validator.
- `insertion.dfy` holds insertion and its repair.
- `deletion.dfy` holds the helpers and the search-tree removal.
- `repair.dfy` holds the rotation, the double-black repair and `delete`.
- `findings.dfy` holds the defects described under Findings.
- `properties.dfy` holds the properties the driver in `main` relies on,
  plus a worked insertion sequence.
- `linked.dfy` (module `LinkedTree`) holds the linked form: a `Node` class
  with `key`, `color`, `parent`, `left` and `right` fields, updated in
  place. A ghost *shape* lists which node sits where. `Linked` says that the
  child links and the back-links agree with the shape and that no node
  appears twice. `Abs` reads the value tree off the nodes. A *trail* lists
  the links from a node up to the root, and `AbsTrail` reads the path off
  it.
- `linked_rotate.dfy` holds the single rotations on nodes.
- `linked_insert.dfy` holds `insert_norm_bst`, the insertion cover and
  `insert` as methods on nodes. Each is proved to leave the linked tree
  whose value the matching function of `Insertion` returns, and to end the
  process exactly when that function does.
- `linked_repair.dfy` holds `rotate_on_parent` on nodes, proved against
  `Repair.RotateOnParent` in the same way.

Process exits and panics on an absent link are modelled by the result
`Fatal`. `Done(t)` is a normal return with the new root `t`. The lemmas
prove that `Fatal` only arises where the source exits on purpose: a
duplicate key on insertion, or an absent key on the corrected deletion.

Inserting 50, 30, 55, 60, 62, 53, 35 into the empty tree keeps 50 at the
root throughout; `Properties.InsertScenario` proves each step.

## Model

| member | source | states |
|---|---|---|
| Validator.Check | RBTree.rs:58-101 | The result is -1 or a natural number. It is non-negative exactly when there is no Red-Red edge, the black-heights agree and (for a parentless node) the node is not Red; it is then the black-height. |
| Validator.CheckWholeTree | RBTree.rs:58-101 | On a whole tree the validator succeeds exactly on red-black trees, returning their black-height, and returns -1 otherwise. |
| Validator.CheckFailures | RBTree.rs:64-96 | Each of the three failures gives -1: a parentless Red node, a Red node with a Red child, and children whose black-heights differ. |
| Insertion.InsertBst | RBTree.rs:103-145 | `insert_norm_bst`: the keys afterwards are the old keys plus `x`, and when no node is recorded the key was already present and the tree is unchanged. `Insertion.InsertBstSpec` states the full placement. |
| Insertion.InsertBstSpec | RBTree.rs:103-145 | A duplicate key leaves the tree unchanged and records no node. Otherwise the new tree is the old one with a Red leaf `x` in one empty slot. The recorded path locates that leaf, the keys grow by exactly `x`, and search-tree order is kept. |
| Insertion.RedUncleRecolor | RBTree.rs:203-215 | Red uncle: the rebuilt grandparent is a Red node with the grandparent's key. Repair continues there. |
| Insertion.RedUncleStep | RBTree.rs:203-215 | The recolouring keeps the insertion invariant, now at the grandparent, and keeps the in-order keys of the whole tree. |
| Insertion.Straighten | RBTree.rs:221-245 | The inner-shape pre-rotation keeps the in-order (key, colour) sequence of parent and node. |
| Insertion.StraightenShape | RBTree.rs:221-245 | After the pre-rotation, the Red top has two balanced children of the node's black-height. The one on the grandparent's side is not Red. |
| Insertion.BlackUncleRotation | RBTree.rs:217-327 | The rotated top is Black. Its (key, colour) sequence is the grandparent's, with the grandparent Red and the straightened parent Black. |
| Insertion.BlackUncleRotationCorrect | RBTree.rs:217-327 | The rotated top is a red-black subtree one Black node taller than the inserted node. It holds the same in-order keys as grandparent, parent and node. |
| Insertion.InsertInvariantUnfold | RBTree.rs:164-201 | A Red node under a Red parent has a Black grandparent. The uncle (possibly absent) has the right black-height. |
| Insertion.BlackUncleStep | RBTree.rs:217-336 | In the Black-uncle case the repair ends without exiting. It yields a red-black tree with the same in-order keys. |
| Insertion.InsertFix | RBTree.rs:147-336 | `red_black_tree_insertion_cover`: a normal return is a non-empty tree, and an exit happens only below a Red parent. `Insertion.InsertFixCorrect` states that from the insertion invariant it never exits and yields a red-black tree with the same keys. |
| Insertion.InsertFixCorrect | RBTree.rs:147-336 | From a Red node whose only possible defect is a Red parent, the repair never exits. It yields a red-black tree with the same in-order keys. |
| Insertion.Insert | RBTree.rs:338-365 | `insert`: a normal return is a non-empty tree. `Insertion.InsertCorrect` states its full behaviour on valid trees. |
| Insertion.InsertCorrect | RBTree.rs:338-365 | On a valid tree, a duplicate key ends the process. Otherwise the result is valid and holds exactly the old keys plus `x`. |
| Deletion.FindFirstRightNone | RBTree.rs:367-374 | The node reached has no right child and its key is in the tree. |
| Deletion.FindFirstRightNoneMax | RBTree.rs:367-374 | On a search tree that node holds the largest key. |
| Deletion.FindFirstLeftNone | RBTree.rs:376-383 | As written: the node reached has a key in the tree. When a left child exists, the node has no right child and lies in the left subtree. |
| Deletion.FindFirstLeftNoneIsLeftMax | RBTree.rs:376-383 | On a search tree with a left child, it returns the largest key of the left subtree, which is smaller than the root. It does not return the smallest key. |
| Deletion.FindLeftmost | RBTree.rs:549-556 | The node reached has no left child and its key is in the tree. |
| Deletion.FindLeftmostMin | RBTree.rs:549-556 | On a search tree that node holds the smallest key. |
| Deletion.DeleteBst | RBTree.rs:385-574 | `delete_norm_bst`: on any tree an absent key changes nothing and records nothing, and the removal never adds a key. `Deletion.DeleteBstSpec` states the full removal on search trees. |
| Deletion.DeleteBstSpec | RBTree.rs:385-574 | An absent key leaves the tree unchanged and records nothing. A present key is removed: the keys lose exactly `item`, order is kept, and the recorded node and path rebuild the new tree. The outermost ancestor keeps the old root's colour, and a recorded stand-in carries the side code of its slot. |
| Deletion.LiftSite | RBTree.rs:400-423 | Adding an ancestor on the way back up keeps the recorded node and side, and makes that ancestor the outermost frame. |
| Deletion.FitsNoRedder | RBTree.rs:456-477 | A subtree that fits its ancestors still fits when replaced by one of equal black-height that is no redder. |
| Deletion.FitsUnder | RBTree.rs:400-423 | A subtree fits under one more ancestor exactly when that ancestor's rebuilt node is red-black and fits the rest of the path. |
| Deletion.DeleteBstRB | RBTree.rs:385-574 | Removing a present key from a red-black subtree: if the removed node was Red, the result is still red-black with the same black-height. If it was Black, the recorded node and path satisfy the double-black invariant that the repair expects. |
| Deletion.DeleteBstDown | RBTree.rs:400-423 | The inductive step of the above through one descent level, for either side and either policy. |
| Deletion.BHZeroIsRedLeaf | RBTree.rs:456-477 | A red-black subtree of black-height 0 is a single Red node. So the only child of a Black node is a Red leaf. |
| Repair.RotateOnParent | RBTree.rs:577-631 | Exits exactly when the parent is a right child under a grandparent with no left child. Otherwise: the sibling takes the parent's slot, the parent becomes the sibling's child keeping its colour and key, and the rest of the path is untouched. |
| Repair.RotateOnParentEntries | RBTree.rs:585-630 | The rotation keeps the in-order (key, colour) sequence of the whole tree. |
| Repair.RedSibling | RBTree.rs:689-696 | Case 1 (Red sibling): after the recolouring and the rotation, the node is one level deeper under a Red parent on the same side. |
| Repair.RedSiblingPath | RBTree.rs:689-696 | Case 1 never exits. The new path has the parent, made Red, over the sibling's near child, and the sibling, made Black, over its far child. |
| Repair.RedSiblingCorrect | RBTree.rs:689-702 | Case 1 keeps the double-black invariant, gives the node a non-Red sibling and keeps the in-order keys. |
| Repair.BlackSiblingCorrect | RBTree.rs:703-711 | Case 2 (sibling with no Red child): reddening the sibling and moving up keeps the invariant at the parent and keeps the keys. |
| Repair.NearNephewRotation | RBTree.rs:713-733 | Case 3 (near child Red, far child not Red): the rotation at the sibling keeps the in-order keys. |
| Repair.FarChildRed | RBTree.rs:712-738 | After case 3 where needed, the sibling keeps its keys. |
| Repair.NearNephewShape | RBTree.rs:712-738 | After case 3 the sibling's far child is Red and both children keep black-height. |
| Repair.CaseFourLeft | RBTree.rs:739-749 | Case 4 with the node on the left (far child Red) yields a red-black subtree with the deficit repaired. It keeps the parent's colour and black-height and the in-order keys. |
| Repair.CaseFourRight | RBTree.rs:792-811 | The mirror of case 4, with the same guarantees. |
| Repair.FarNephew | RBTree.rs:712-811 | Cases 3 and 4 (corrected): they exit exactly when the rotation unwraps an absent grandparent left link, and otherwise return a non-empty tree. `Repair.FarNephewCorrect` states what they achieve. |
| Repair.FarNephewPlug | RBTree.rs:739-749 | Case 4 exits exactly where the rotation does. Otherwise it rebuilds the tree around the rotated top. |
| Repair.FarNephewCorrect | RBTree.rs:739-749 | For the corrected repair (case 3 as in `Repair.NearNephewRotation`), from the double-black invariant, cases 3 and 4 never exit. They yield a red-black tree with the same keys. |
| Repair.DelInvUnfold | RBTree.rs:653-687 | Under the double-black invariant, the sibling exists and is one Black node taller than the node. The parent fits the rest of the path. |
| Repair.DeleteFix | RBTree.rs:633-819 | `red_black_tree_deletion_cover` (corrected): a normal return is empty exactly when the whole tree was empty. `Repair.DeleteFixCorrect` states what the repair achieves. |
| Repair.DeleteFixCorrect | RBTree.rs:633-819 | For the corrected repair (case 3 as in `Repair.NearNephewRotation`), from the state that `delete_norm_bst` leaves behind, the repair never exits. It yields a red-black tree with the same in-order keys. |
| Repair.SiblingCases | RBTree.rs:703-811 | Cases 2 to 4 once the sibling is not Red (corrected): a normal return is a non-empty tree. `Repair.SiblingCasesCorrect` states what they achieve. |
| Repair.SiblingCasesCorrect | RBTree.rs:703-811 | For the corrected repair (case 3 as in `Repair.NearNephewRotation`), from a non-Red sibling, cases 2 to 4 never exit. They yield a red-black tree with the same keys. |
| Repair.Delete | RBTree.rs:821-863 | `delete` (corrected): on any tree an absent key ends the process. `Repair.DeleteCorrect` states its full behaviour on valid trees. |
| Repair.DeleteCorrect | RBTree.rs:821-863 | For the corrected deletion (cases as in `Repair.NearNephewRotation` and `Deletion.DeleteBst`), on a valid tree and under either policy, an absent key ends the process. Otherwise the result is valid and holds exactly the old keys minus `item`. |
| Properties.InsertThenDelete | RBTree.rs:871-887 | Inserting a fresh key and deleting it again with the corrected `delete` gives back the original in-order keys. |
| Properties.DeleteThenInsert | RBTree.rs:871-887 | Deleting a key with the corrected `delete` and inserting it again gives back the original in-order keys. |
| Properties.DeletePoliciesAgree | RBTree.rs:479-567 | The predecessor and (corrected) successor policies leave the same keys. |
| Properties.InsertOrderIrrelevant | RBTree.rs:338-365 | Inserting two fresh keys in either order gives the same in-order keys. |
| Properties.ValidatorAcceptsInsert | RBTree.rs:874-878 | After an insertion, the validator returns the tree's black-height and not -1. |
| Properties.ValidatorAcceptsDelete | RBTree.rs:880-885 | After a deletion by the corrected `delete`, the validator returns the tree's black-height and not -1. |
| Properties.InsertScenario | RBTree.rs:871-878 | The first seven insertions of the driver give the listed trees. The root stays 50. |
| LinkedTree.Node.constructor | RBTree.rs:24-32 | A new node carries the given key and colour and has no links. |
| LinkedInsert.DescentAbs | RBTree.rs:103-145 | The descent of `insert_norm_bst` through the nodes meets the key exactly when `Insertion.InsertBst` records no site. Otherwise it leads to the recorded path, ends at an empty slot, and a Red node hung there gives the tree `InsertBst` builds. |
| LinkedInsert.DescentNone | RBTree.rs:103-145 | The descent meets the key exactly when `InsertBst` records no site. |
| LinkedInsert.InsertNormBst | RBTree.rs:103-145 | On an equal key nothing changes and nothing is recorded. Otherwise a fresh Red node with the key and a back-link to its parent is recorded and hangs in the empty slot the descent reaches. Every other link is as before. |
| LinkedInsert.InsertLeftOf | RBTree.rs:125-132 | Going left: the same, with the left link rewritten to the result of the recursive call. |
| LinkedInsert.InsertRightOf | RBTree.rs:133-140 | Going right: the mirror. |
| LinkedInsert.InsertionCover | RBTree.rs:147-336 | Ends the process exactly when `Insertion.InsertFix` does on the value of the node and its path. Otherwise the nodes form a linked tree whose value is the one `InsertFix` returns, and the returned root is its top. |
| LinkedInsert.RedParent | RBTree.rs:166-328 | Below a Red parent: the uncle is found as the source does, an absent one counting as Black. The result is the one `InsertFix` gives. |
| LinkedInsert.RedUncle | RBTree.rs:203-215 | Red uncle: the three colour writes, then the cover again at the grandparent, give what `InsertFix` gives. |
| LinkedInsert.RedUncleColors | RBTree.rs:212-214 | The colour writes make the grandparent Red and uncle and parent Black. The values of every other piece stay as they were. |
| LinkedInsert.InsertFixBlackUncle | RBTree.rs:216-327 | With a Black uncle, `InsertFix` straightens, rotates at the grandparent and plugs the result into the rest of the path, unless that unwraps an absent left link. |
| LinkedInsert.BlackUncleLeft | RBTree.rs:221-273 | Parent on the left: the straightening and the outer rotation give what `InsertFix` gives, including the exit. |
| LinkedInsert.StraightenLeft | RBTree.rs:222-244 | When the node is its parent's right child it is rotated into the parent's place. The subtree under the grandparent then has the value `Insertion.Straighten` gives, and the uncle and the ancestors keep their values. |
| LinkedInsert.OuterLeft | RBTree.rs:253-273 | Parent Black, grandparent Red, then a right rotation at the grandparent. It exits exactly when the great-grandparent's left link is absent. Otherwise the tree's value is the rotated subtree plugged into the rest of the path. |
| LinkedInsert.BlackUncleRight | RBTree.rs:274-327 | The mirror of `BlackUncleLeft`. |
| LinkedInsert.StraightenRight | RBTree.rs:275-297 | The mirror of `StraightenLeft`. |
| LinkedInsert.OuterRight | RBTree.rs:306-326 | The mirror of `OuterLeft`. |
| LinkedInsert.Insert | RBTree.rs:338-365 | Ends the process exactly when `Insertion.Insert` does on the tree's value, a duplicate key. Otherwise the nodes form a linked tree whose value is what `Insertion.Insert` returns. |
| LinkedRotation.RotateLeftAt | RBTree.rs:232-242 | The right child takes the node's place under the node above, or as the root. The subtree's value becomes `Trees.RotateLeft` of the old one, and the moved subtrees and the ancestors keep their values. |
| LinkedRotation.RotateRightAt | RBTree.rs:285-295 | The mirror: `Trees.RotateRight`. |
| LinkedRotation.RotateLeftLinks | RBTree.rs:308-326 | The pointer writes of a rotation: each named link points where the rotation puts it, and the node above keeps its other link. |
| LinkedRepair.RotateOnParent | RBTree.rs:577-631 | Ends the process exactly when `Repair.RotateOnParent` does on the path of the repaired node. Otherwise the sibling and parent are relinked so that the new ancestors stand for the path `Repair.RotateOnParent` returns, and the returned root is the top of the tree. |
| LinkedRepair.Relink | RBTree.rs:585-628 | It gives up exactly when the parent is the grandparent's right child and the grandparent's left link is absent. Otherwise it relinks the parent below the sibling, and keys, colours and the values of the moved subtrees and the ancestors stay as they were. |
| LinkedRepair.RotateOnParentPath | RBTree.rs:585-628 | `Repair.RotateOnParent` on the path read off the nodes fails exactly on that grandparent link. Otherwise it returns the path read off the relinked nodes. |
| Findings.SuccessorSpliceAsWritten | RBTree.rs:526-567 | As written, the successor splice keeps the left child and the node's colour. |
| Findings.SuccessorKeyCounterexample | RBTree.rs:549-556 | On a valid tree, the as-written successor key breaks search-tree order. The corrected one keeps it. |
| Findings.SuccessorParentCounterexample | RBTree.rs:529-547 | On a valid tree, the as-written site hangs under the removed node, so following its parent links rebuilds a tree that still holds the removed key. The corrected site rebuilds the new tree. |
| Findings.NearNephewRotationAsWritten | RBTree.rs:775-790 | The mirrored case-3 rotation as written links the same subtree twice. |
| Findings.NearNephewAsWrittenLosesKeys | RBTree.rs:775-790 | On any search tree the as-written rotation drops the near child's left key. The corrected rotation keeps every key. |
| Findings.NearNephewCounterexample | RBTree.rs:775-811 | Deleting 35 from a valid tree of eight keys reaches the mirrored case 3. As written, key 12 is lost there. |
| Findings.FarChildRedAsWritten | RBTree.rs:712-790 | The sibling after case 3 as written agrees with the corrected one except in the mirrored case 3. |
| Findings.FarNephewAsWritten | RBTree.rs:712-811 | Cases 3 and 4 as written exit exactly when the corrected ones do, and otherwise return a non-empty tree. |
| Findings.DeleteFixAsWritten | RBTree.rs:633-819 | The repair as written exits exactly when the corrected one does, and a normal return is empty exactly when the whole tree was empty. |
| Findings.SiblingCasesAsWritten | RBTree.rs:703-811 | Cases 2 to 4 as written exit exactly when the corrected ones do, and otherwise return a non-empty tree. |
| Findings.DeleteAsWritten | RBTree.rs:821-863 | `delete` as written under the predecessor policy that `main` uses (RBTree.rs:881) exits exactly when the corrected `delete` does under that policy. It differs only in the tree it returns, as `Findings.DeleteAsWrittenCounterexample` shows. |
| Findings.DeleteAsWrittenCounterexample | RBTree.rs:633-863 | `delete` as written (`Findings.DeleteAsWritten`, the repair with the as-written mirrored case 3), removing 35 from the valid eight-key tree, returns a tree that lacks 12 and is not a search tree, yet the validator returns a black-height for it. The corrected `delete` returns a valid tree with exactly the old keys but 35. |

## Left out

- `main`, `preorder` and all `debug > 0` printing (RBTree.rs:42-56, 865-887) are console output. `main` appears only through the properties of its insert/delete/validate loop.
- The process exits and `unwrap` panics are all one result, `Fatal`. The message printed before an exit is not modelled.
- `Rc`/`RefCell` sharing, `drop` of stand-in nodes and `std::mem::take` are memory management, so they are not modelled.
- Insertion (`insert_norm_bst`, the insertion cover, `insert`) and `rotate_on_parent` are modelled on linked nodes, with in-place field updates and back-links. Within one rotation, the order of the independent link writes is not kept: the model writes the link from above first.
- `delete_norm_bst`, `red_black_tree_deletion_cover` and `delete` are modelled on values only (modules `Deletion` and `Repair`). In these, the parent links are the path of the node being repaired, so the in-place updates, the aliasing between `Rc` handles and the order of link writes are not modelled. A stale back-link is therefore visible only as a wrong path (see Findings).
- The phantom uncle (RBTree.rs:196-201, 330-332) is not allocated: an absent uncle is read as Black where the source reads the phantom's colour, which is the same.
- The `i32::MAX` stand-in key is not modelled. The stand-in is the focus `Nil` together with its side code. A real key equal to `i32::MAX` would be mistaken for the stand-in at RBTree.rs:330 and RBTree.rs:657, and that case is not modelled.
- Keys are unbounded integers. `i32` bounds never matter, since keys are only compared.
- The early return of the insertion cover on an absent node or root (RBTree.rs:152-154) cannot occur when `insert` calls it, so it is not modelled. The exit for a non-root node without a parent (RBTree.rs:160-163) is proved unreachable in a linked tree.
- The exit at RBTree.rs:446-447 (a leaf whose parent has neither link to it) cannot occur in a tree, so it is not modelled.
- Deletion.DeleteBst: the successor branch is modelled in its corrected form (leftmost key of the right subtree, site under the replacement node). The as-written form is `Findings.SuccessorSpliceAsWritten`.
- Repair.NearNephewRotation: the mirrored case 3 is modelled in its corrected form. The as-written form is `Findings.NearNephewRotationAsWritten`, and the whole as-written deletion under the predecessor policy is `Findings.DeleteAsWritten`.
- Findings.DeleteAsWritten: covers the predecessor policy only. Under the successor policy the as-written removal is `Findings.SuccessorSpliceAsWritten`, and the repair that follows it on the stale parent chain (which panics at RBTree.rs:672) is not composed into a whole `delete`.
- Repair.DeleteCorrect: holds for the corrected deletion only. `delete` as written can lose keys (Findings, third row), so no correctness is claimed for it.
- Repair.FarNephewCorrect: holds for the corrected cases 3 and 4 only; as written, the mirrored case 3 can drop a subtree (`Findings.FarNephewAsWritten`).
- Repair.SiblingCasesCorrect: holds for the corrected cases 2 to 4 only, for the same reason (`Findings.SiblingCasesAsWritten`).
- Repair.DeleteFixCorrect: holds for the corrected repair only; the as-written repair `Findings.DeleteFixAsWritten` can drop a subtree in the mirrored case 3.
- Properties.ValidatorAcceptsDelete: holds for the corrected deletion only. The validator also accepts the broken as-written result, since it checks colours and black-heights and not key order.

## Findings

| source | as written | input that shows it | evidently intended | confidence | as-written member | corrected member |
|---|---|---|---|---|---|---|
| RBTree.rs:376-383, 549-556 | The successor key comes from `find_first_left_none`, which recurses into `find_first_right_none` and returns the largest key of the right child's left subtree. | Delete 5 from 5B(2R(1B,3B),10R(7B(-,8R),12B)) with `successor = 1`: the new root key is 8 but 7 stays to its right. | The smallest key of the right subtree (the leftmost node). | high, not executed | Findings.SuccessorKeyCounterexample | Deletion.FindLeftmostMin |
| RBTree.rs:529-547 | When the right child has no left child, its removal gets the old node as parent, and the promoted subtree's back-link is never repointed to the new node. On the input shown, the repair then climbs by case 2 to the detached old node, which has no parent, and the `parent` unwrap at RBTree.rs:672 panics; the model exhibits only the stale chain. | Delete 5 from 5B(2B,10B) with `successor = 1`: the stand-in's parent chain leads to the node holding 5, which is no longer in the tree. | Removal under the replacement node, with the back-link set to it. | high, not executed | Findings.SuccessorParentCounterexample | Deletion.DeleteBstSpec |
| RBTree.rs:775-790 | In the mirrored case 3, the sibling's new right child is the near child's right subtree, when it should be its left. | Delete 35 from 20B(10B(5B,15R(12B,17B)),30B(25B,35B)) with `successor = 0`: key 12 is lost. | `s.right = new_left.left`. | high, not executed | Findings.NearNephewAsWrittenLosesKeys, Findings.DeleteAsWrittenCounterexample | Repair.FarNephewCorrect |
