# Left-leaning red-black tree and naive BST, modelled in Dafny

This project models the balanced-tree engine of `redblacktrees.py` and the
baseline `NaiveBST` class of `experiment.py`.

The engine is a left-leaning red-black tree (LLRB). Its parts are:

- the rotations, the colour flip and the fix-up step;
- the red-borrowing helpers used on the way down a deletion;
- recursive insert and delete, with their public wrappers;
- the membership search and the bulk constructor `fromList`;
- the validators `is_bst` and `is_rbt`.

Modelling choices:

- A node is an immutable `Tree` value (`Leaf` stands for Python's `None`), and keys are `int`.
- Every mutator returns the new subtree root, as the source's private methods do.
- The three `RuntimeError`s become `Error` values in a `Result`.

The main results are:

- Insert and delete keep the full left-leaning red-black invariant (`IsLlrb`, which implies the source's `is_rbt`).
- Insert of a new value adds exactly that value; delete of a present value removes exactly that value.
- Delete of an absent value removes no value and raises no error, but the tree may still be rebalanced (`RbDelete.DeleteAbsentReshapes`).
- The "tree became empty" error of `delete` can never happen on a valid tree.
- `contains` answers exactly membership on a search tree.

Module layout:

| module | file | what it holds |
|---|---|---|
| `Outcomes` | outcomes.dfy | `Option`, the error kinds, `Result` |
| `Lists` | lists.dfy | duplicate-freedom and the value set of an input list |
| `RbTree` | rb_tree.dfy | the node record; the element set, search-tree ordering, black height, settled shape |
| `RbPrimitives` | rb_primitives.dfy | rotations, flip, fix-up, move-red helpers and their shape lemmas |
| `RbValidators` | rb_validators.dfy | `is_bst`, `no_red_red`, `black_height`, `is_rbt` as written, tied to the abstractions |
| `RbInsert` | rb_insert.dfy | `_insert_rec`, `insert` |
| `RbDelete` | rb_delete.dfy | `_min_node`, `_delete_min`, `_delete_rec`, `delete` |
| `RbQueries` | rb_queries.dfy | `contains`, `fromList` |
| `RbInPlace` | rb_in_place.dfy | the node objects as heap cells, for the in-place copy of `insert` |
| `NaiveBst` | naive_bst.dfy | `NaiveBST`: `insert`, `contains`, `fromList` |

Two differences from the common textbook LLRB matter for the proofs:

- The Python `delete` does not check membership first.
- It does not colour the root Red before descending.

The model follows the code. `RbDelete.DeleteRecRootColour` shows that the recursive delete never reads the colour of the node it starts at. That is why starting from a Black root still works.

## Model

| member | source | states |
|---|---|---|
| RbTree.Blacken | redblacktrees.py:213 | recolouring the root Black keeps the in-order values, the element set, the ordering and the settled shape, and leaves a Black node |
| RbPrimitives.RotateLeft | redblacktrees.py:49-56 | needs a right child; the lifted child takes the old root's colour, the old root becomes its Red left child; in-order values, element set and ordering unchanged |
| RbPrimitives.RotateRight | redblacktrees.py:58-65 | mirror of the left rotation: needs a left child, same colour hand-over, same preservation |
| RbPrimitives.RotateLeftInverse | redblacktrees.py:49-65 | a right rotation undoes a left rotation exactly when the lifted child was Red |
| RbPrimitives.RotateRightInverse | redblacktrees.py:49-65 | a left rotation undoes a right rotation exactly when the lifted child was Red |
| RbPrimitives.FlipColours | redblacktrees.py:67-72 | the node's colour and each present child's colour are toggled; values, grandchildren and ordering unchanged |
| RbPrimitives.FlipColoursInvolution | redblacktrees.py:67-72 | flipping twice gives back the node |
| RbPrimitives.FixUp | redblacktrees.py:74-81 | fix-up returns a present node with the same in-order values and element set, ordered when the input was |
| RbPrimitives.FixUpSettles | redblacktrees.py:74-81 | over settled, equally black children, fix-up returns a settled tree of the same black height, Red exactly when the node was or both children were |
| RbPrimitives.FixUpSplitsTopHeavy | redblacktrees.py:74-81 | below a Black node, two consecutive left Reds are split into a settled Red node of the same black height |
| RbPrimitives.FixUpRedNode | redblacktrees.py:74-81 | at a Red node with one Red child the result is Red, of the same black height, settled or top-heavy |
| RbPrimitives.FixUpRootColour | redblacktrees.py:74-81 | fix-up's decisions do not depend on the colour of the node it is given |
| RbPrimitives.MoveRedLeft | redblacktrees.py:83-89 | keeps values, element set, ordering and a present left child; the node value does not decrease |
| RbPrimitives.MoveRedRight | redblacktrees.py:91-96 | keeps values, element set, ordering and a present right child; the node value does not increase |
| RbPrimitives.MoveRedLeftShape | redblacktrees.py:83-89 | borrowing at a settled Red node makes the left child (or its left child) Red, keeps both sides settled and the black height |
| RbPrimitives.MoveRedRightShape | redblacktrees.py:91-96 | borrowing at a settled Red node either leaves a Red right child under the same value or lifts the left child and leaves a right-leaning node on the right |
| RbPrimitives.MoveRedLeftRootColour | redblacktrees.py:83-89 | move-red-left's result depends on the node's own colour only in its root colour |
| RbPrimitives.MoveRedRightRootColour | redblacktrees.py:91-96 | move-red-right's result depends on the node's own colour only in its root colour |
| RbPrimitives.RotateRightShape | redblacktrees.py:139-141 | the right rotation deletion does at a Black node over a Red left child leaves a right-leaning node of the same black height |
| RbValidators.BstWithinIff | redblacktrees.py:166-173 | the bounded check `go` holds exactly of search trees whose values all lie between the bounds |
| RbValidators.IsBstIff | redblacktrees.py:163-175 | `is_bst` holds exactly of search trees |
| RbValidators.BlackHeightIff | redblacktrees.py:192-199 | `black_height` is defined exactly on balanced trees, and is then the leftmost path's black count |
| RbValidators.BalancedPaths | redblacktrees.py:192-199 | a tree is balanced exactly when every root-to-absent-child path has the same black count |
| RbValidators.SettledIff | redblacktrees.py:184-199 | the settled shape is balance plus no red-red pair plus no Red right child |
| RbValidators.IsRbtIff | redblacktrees.py:177-201 | `is_rbt` holds exactly when the root is Black, the tree is ordered, no Red node has a Red child, and all paths have one black count |
| RbValidators.IsLlrbIff | redblacktrees.py:177-201 | `is_rbt` plus left-leaning is exactly: present Black root, ordered, settled |
| RbInsert.InsertRec | redblacktrees.py:115-129 | success adds exactly `x` and one node; failure is the duplicate error on a present `x` |
| RbInsert.InsertRecOrdered | redblacktrees.py:115-129 | on an ordered tree, insertion fails exactly when `x` is present, and otherwise returns an ordered tree |
| RbInsert.InsertRecBalance | redblacktrees.py:115-129 | below a Black node the result is settled; below a Red node it is Red and settled or top-heavy; black height kept |
| RbInsert.Insert | redblacktrees.py:203-213 | the root comes back Black with the element set grown by `x`; a duplicate is refused and adds nothing |
| RbInsert.InsertKeepsLlrb | redblacktrees.py:203-213 | on a valid LLRB, insert succeeds exactly for a new value and returns a valid LLRB holding the old values plus `x` |
| RbInsert.InsertKeepsRbt | redblacktrees.py:177-213 | on the trees the engine builds, insert of a new value keeps `is_rbt` |
| RbInsert.RbtNotKeptByInsert | redblacktrees.py:177-201 | a tree that passes `is_rbt` but has a Red right child fails `is_rbt` after one insert |
| RbDelete.MinNode | redblacktrees.py:98-102 | the leftmost node has no left child and holds the first in-order value, the minimum of an ordered tree |
| RbDelete.BorrowLeft | redblacktrees.py:135-136 | the conditional move-red-left keeps in-order values, element set, ordering and a present left child; the node value does not decrease |
| RbDelete.LeanRight | redblacktrees.py:140-141 | the conditional right rotation keeps the element set and ordering; the node value does not increase |
| RbDelete.BorrowRight | redblacktrees.py:149-150 | the conditional move-red-right keeps the element set, ordering and a present right child; the node value does not increase |
| RbDelete.DeleteMin | redblacktrees.py:104-113 | removes at least one node and adds no values |
| RbDelete.DeleteMinOrdered | redblacktrees.py:104-113 | on any ordered tree, whatever its colours, the result is ordered and no longer holds the minimum |
| RbDelete.DeleteMinBalanced | redblacktrees.py:104-113 | from a borrowed subtree the result is settled, of the same black height, not Red under a Black root |
| RbDelete.DeleteMinElems | redblacktrees.py:104-113 | from a borrowed search tree exactly the minimum is removed |
| RbDelete.LeftStep | redblacktrees.py:135-136 | the borrow before descending left leaves a borrowed left child and a node ready for fix-up |
| RbDelete.RotateStep | redblacktrees.py:140-141 | the rotation before looking right leaves a settled Red node or a right-leaning one, of the same colour and black height |
| RbDelete.RightStep | redblacktrees.py:149-150 | the borrow before descending right leaves a right child a deletion may splice from or enter |
| RbDelete.DeleteRec | redblacktrees.py:131-159 | the recursive delete never adds values |
| RbDelete.DeleteLeft | redblacktrees.py:132-138 | the left branch never adds values |
| RbDelete.DeleteRight | redblacktrees.py:139-150 | the rotation and early-return branch never adds values |
| RbDelete.DeleteBelow | redblacktrees.py:152-159 | the splice or right descent never adds values |
| RbDelete.DeleteRecOrdered | redblacktrees.py:131-159 | on any ordered tree, whatever its colours, the result is ordered and does not hold `x` |
| RbDelete.DeleteLeftOrdered | redblacktrees.py:132-138 | ordering and removal of `x` for the left branch |
| RbDelete.DeleteRightOrdered | redblacktrees.py:139-150 | ordering and removal of `x` for the rotation and early returns |
| RbDelete.DeleteBelowOrdered | redblacktrees.py:152-159 | ordering and removal of `x` for the splice and the right descent |
| RbDelete.SpliceOrdered | redblacktrees.py:152-155 | successor splicing keeps the ordering and drops the node's own value |
| RbDelete.DeleteRecBalanced | redblacktrees.py:131-159 | from a node a recursive call can receive, the result is settled, of the same black height, not Red under a Black root |
| RbDelete.DeleteLeftBalanced | redblacktrees.py:132-138 | the shape result for the left branch |
| RbDelete.DeleteRightBalanced | redblacktrees.py:139-150 | the shape result for the rotation and early returns |
| RbDelete.DeleteBelowBalanced | redblacktrees.py:152-159 | the shape result for the splice and the right descent |
| RbDelete.DeleteRecElems | redblacktrees.py:131-159 | from such a node exactly `x` is removed, and nothing when `x` is absent |
| RbDelete.DeleteLeftElems | redblacktrees.py:132-138 | the element result for the left branch |
| RbDelete.DeleteRightElems | redblacktrees.py:139-150 | the element result for the rotation and early returns |
| RbDelete.DeleteBelowElems | redblacktrees.py:152-159 | the element result for the splice and the right descent |
| RbDelete.SpliceElems | redblacktrees.py:152-155 | successor splicing removes exactly the node's own value |
| RbDelete.DeleteRecRootColour | redblacktrees.py:131-159 | recolouring the starting node changes at most the colour of the recursive delete's result |
| RbDelete.DeleteLeftRootColour | redblacktrees.py:132-138 | the colour independence for the left branch |
| RbDelete.DeleteRightRootColour | redblacktrees.py:139-150 | the colour independence for the rotation and early returns |
| RbDelete.DeleteBelowRootColour | redblacktrees.py:152-159 | the colour independence for the splice and the right descent |
| RbDelete.Delete | redblacktrees.py:215-231 | the last-node error occurs exactly for a single node holding `x`; errors are only the two named ones; success gives a Black root, no new values, and on an ordered tree an ordered result without `x` |
| RbDelete.DeleteAbsentReshapes | redblacktrees.py:131-159 | the tree `fromList([2, 1, 3, 0])` builds is a valid LLRB without 5, and deleting 5 returns a different tree with the same values |
| RbDelete.SingletonTree | redblacktrees.py:218-219 | in a search tree the values are exactly `{x}` only for a single node holding `x` |
| RbDelete.DeleteKeepsLlrb | redblacktrees.py:215-231 | on a valid LLRB, delete fails only with the last-node error and only when the values are `{x}`; otherwise it returns a valid LLRB holding the old values minus `x` |
| RbDelete.DeleteKeepsRbt | redblacktrees.py:215-231 | on the trees the engine builds, delete keeps `is_rbt` |
| RbQueries.Contains | redblacktrees.py:233-243 | a positive answer means `x` is present; on an ordered tree the answer is exactly membership |
| RbQueries.FromList | redblacktrees.py:30-41 | succeeds exactly on duplicate-free lists, failing with the duplicate error otherwise; the empty list gives no tree; otherwise a valid LLRB holding exactly the list's values |
| RbInPlace.RotateLeftAt | redblacktrees.py:49-56 | on heap cells, the returned cell is the old right child; when it is not the root cell itself, it takes the old root as its left child and the old root's colour, and the old root takes the lifted cell's former left child as its right child and turns Red; no other cell changes and no value moves |
| RbInPlace.RotateRightAt | redblacktrees.py:58-65 | the mirror image: the lifted left child takes the old root as its right child and its colour; the old root takes the lifted cell's former right child as its left child and turns Red; no other cell changes |
| RbInPlace.RotateLeftAtInverse | redblacktrees.py:49-65 | on heap cells, a right rotation of the lifted cell restores every cell exactly when the lifted cell was Red |
| RbInPlace.FlipAt | redblacktrees.py:67-72 | only colours change; when the node and its present children are distinct cells, each of them is toggled, and no other cell changes |
| RbInPlace.FixUpAt | redblacktrees.py:74-81 | on heap cells, fix-up keeps every address and every cell's value |
| RbInPlace.AttachAt | redblacktrees.py:116-129 | storing a child reference and fixing up keeps every address and every cell's value |
| RbInPlace.InsertRecAt | redblacktrees.py:115-129 | on heap cells, a duplicate is reported only when some cell holds `x`; success adds exactly one fresh cell, which holds `x`, and no existing cell's value changes |
| RbInPlace.InsertInPlace | redblacktrees.py:203-213 | the root cell takes the value and children of the cell the recursive insert returned, coloured Black; every other cell is left as that insert left it; one fresh cell holds `x`, and only the root cell's value can change |
| RbInPlace.ContainsAt | redblacktrees.py:233-243 | on heap cells, a positive answer comes only from a present start cell and only when some cell holds `x` |
| RbInPlace.SelfLoopTraps | redblacktrees.py:233-243 | a cell that is its own left child makes the search for any smaller value run forever |
| RbInPlace.InsertTwoAfterOne | redblacktrees.py:203-213 | inserting 2 into the one-node tree 1 makes the root cell its own left child holding 2; a search for 1 never ends |
| NaiveBst.Insert | experiment.py:29-45 | success adds exactly `x`; failure is the duplicate error on a present `x`; on an ordered tree it fails exactly when `x` is present and keeps ordering |
| NaiveBst.InsertGrowsAtLeaf | experiment.py:29-45 | a successful insert fills the first absent slot on the search path with a fresh childless node and changes nothing else |
| NaiveBst.Contains | experiment.py:47-56 | a positive answer means `x` is present; on an ordered tree the answer is exactly membership |
| NaiveBst.FromList | experiment.py:21-27 | succeeds exactly on duplicate-free lists; the empty list gives no tree; otherwise an ordered tree holding exactly the list's values |

## Left out

- Timing, statistics and plotting (experiment.py:58-159): wall-clock measurement, floating point and chart output.
- Generic `T`: keys are `int`, whose `<` is the total order the source's comparisons assume.
- The source's `assert` statements (redblacktrees.py:51, 60, 111, 137) become `requires` clauses on the helpers.
- Asymptotic claims about height and cost: nothing in the code states them as a checkable contract.
- Object identity: the functional model returns the new root value. Only `insert`'s field copy is followed cell by cell (`RbInPlace`). The same copy in `delete` (redblacktrees.py:226-229) is not modelled on the heap.
- RbInPlace.InsertRecAt: a `fuel` bound stands in for Python's recursion. Running out of fuel gives `Unfinished` rather than a `RecursionError`.
- RbInPlace.FixUpAt: it states only that addresses and values stay in place. Its rebalancing is proved on the functional model (`RbPrimitives.FixUp` and the lemmas after it).
- RbInPlace.RotateLeftAt: when the root cell is its own right child, the contract states only which cell is returned and that it points back to the root. Such a heap never arises from the functional model.
- RbInPlace.RotateRightAt: the same applies when the root cell is its own left child.
- RbInPlace.FlipAt: when the node is its own child, or both children are one cell, the contract states only that values and links stay in place.
- RbInPlace.AttachAt: it states only that addresses and values stay in place. How cells are relinked is proved on the functional model (`RbInsert.InsertRecBalance`).
- RbInPlace.InsertRecAt: it states which cells exist and what values they hold, not how they are linked. The linking is proved on the functional model (`RbInsert.InsertRec`).
- RbInPlace.InsertInPlace: beyond the copy into the root cell, the same applies.
- RbInPlace.ContainsAt: a positive answer is tied to some cell holding `x`, not to one on the search path; a negative answer is not characterised. The exact answer is proved on the functional model (`RbQueries.Contains`).
- RbDelete.DeleteRec: its own contract only promises that no value is added. Exact removal needs the tree's shape on entry and is stated by `DeleteRecElems`. On trees with arbitrary colours the early return at redblacktrees.py:143-144 can drop a left subtree.
- RbDelete.DeleteLeft: the same applies to this part of the recursive delete, whose exact effect is stated by `DeleteLeftElems`.
- RbDelete.DeleteRight: the same applies; its exact effect is stated by `DeleteRightElems`.
- RbDelete.DeleteBelow: the same applies; its exact effect is stated by `DeleteBelowElems`.
- RbDelete.DeleteMin: its own contract only promises that no value is added; `DeleteMinOrdered` and `DeleteMinElems` state the rest.
- RbDelete.DeleteMinElems: requires a borrowed subtree, for the same reason.
- RbDelete.Delete: the empty-tree error is excluded only for valid trees, by `DeleteKeepsLlrb`.
- RbQueries.FromList: on a duplicate the source leaves the values inserted so far in its partly built tree. The model returns only the error.
- NaiveBst.FromList: the same applies to the partly built tree.
- NaiveBst.Insert: the source's descent loop is written as recursion on the immutable tree.

## Findings

| source | as written | input that shows it | evidently intended | confidence | as-written member | corrected member |
|---|---|---|---|---|---|---|
| redblacktrees.py:203-213 | `insert` copies the returned root's fields into the original root object. When the recursive insert rotated that object under the returned root, the copy makes the root its own child. `delete` does the same at lines 226-229. | `fromList([1, 2])`: after inserting 2 the root holds 2, its left child is itself, 1 is lost, and `contains(1)` loops forever. For `delete`, by reading alone (no member shows it): `fromList([2, 1, 3])` then `delete(1)` leaves the root holding 3 as its own left child, and 2 is lost | the tree object afterwards holds the rebalanced tree with every value kept | high; not executed | RbInPlace.InsertTwoAfterOne | RbInsert.Insert |
| redblacktrees.py:177-201 | `is_rbt` does not reject a Red right child, which the left-leaning algorithms never expect | the tree Black 5 with a Red right child 7 passes `is_rbt`; inserting 8 gives a Red 5 with a Red right child 7, which fails it | the validated invariant is one that insertion keeps: `is_rbt` plus left-leaning | medium; not executed | RbInsert.RbtNotKeptByInsert | RbInsert.InsertKeepsLlrb |
