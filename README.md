# pact-ae sequential search trees, in Dafny

The pact-ae benchmark suite measures concurrent search trees: binary search
trees, AVL trees and red-black trees, internal (every node holds a key) and
external (keys live in the leaves, internal nodes only route).  Each tree
offers `lookup`, `insert`, `delete`, `validate` and a `warmup` that fills
it with `rand() % max_key` keys.  Python scripts turn the benchmark logs
into averages and plots.

This project models the sequential trees that the concurrent variants
are built around, and the log-processing scripts:

- `bst_external.dfy`, `bst_partial.dfy`: the external BST, and the
  partially external BST that only marks a deleted node with two children.
- `avl_core.dfy`, `avl_external.dfy`, `avl_internal.dfy`,
  `avl_validate.dfy`, `avl_warmup.dfy`: the AVL node and its rotations,
  the bottom-up external and internal AVL trees, the shared validator and
  the recursive warm-up.
- `rbt_core.dfy`: the red-black rules, painting, colour flips and the
  validator shared by the external trees.
- `rbt_td_ext.dfy`: the top-down external red-black tree.
- `rbt_tarjan.dfy`: Tarjan's top-down external tree with update windows.
- `rbt_bottom_up.dfy`, `rbt_bu_ext.dfy`, `rbt_bu_string.dfy`,
  `c_strings.dfy`: the bottom-up fix-up steps and the external bottom-up
  tree with string keys (`strncmp`, `sprintf("%030d")`).
- `rbt_internal.dfy`, `rbt_bu_int.dfy`, `rbt_bu_sentinel.dfy`: the
  internal bottom-up trees, with NULL links and with CLRS sentinels.
- `rbt_jsw.dfy`: Julienne Walker's top-down internal tree.
- `hash_table.dfy`, `pointer_word.dfy`: the fixed-size address hash table
  and the tagged pointer words of the lock-free tree.
- `average_nthreads.dfy`, `plot_nthreads.dfy`, `plot_bars.dfy`,
  `script_text.dfy`: the three scripts and the Python 2 string handling
  they use.
- `trees.dfy`, `search_order.dfy`, `warmup_keys.dfy`, `wrappers.dfy`: the
  shared tree datatype with zipper paths (a node stack as a sequence of
  frames), search order and descents, the warm-up draw, and Option/Result.

Trees are values.  The walks that push nodes onto a `node_stack` and fix
the tree up going back are methods with loops over a zipper path, proved
against the invariant that the fix-up restores.  Every operation is proved
to keep the tree's invariant (search order, and the red-black or AVL
rules) and to change its key set exactly as a set operation would, with
the 0/1 result telling whether it did.

## Model

| member | source | states |
|---|---|---|
| SearchOrder.ExtDescendFinds | bst/bst-sequential-external.c:68-94 | in a full external search tree, a key is a leaf key iff the descent that goes left on `key <= node key` reaches the leaf holding it |
| SearchOrder.IntDescendFinds | avl/avl-sequential-internal.c:129-172 | in an internal search tree, a key is held iff the descent that goes left on `key < node key` stops at a node |
| SearchOrder.LeftmostRemoves | rbt/rbt_links_bu_int_iterative.c:317-328 | the leftmost node holds the least key, and replacing it by its right subtree leaves a search tree without that key |
| SearchOrder.SuccessorOrder | rbt/rbt_links_bu_int_iterative.c:340-363 | copying the successor's key into a node with a right subtree and unlinking the successor leaves a search tree without the node's key |
| BstExternal.Traverse | bst/bst-sequential-external.c:68-86 | the walk goes left iff `key <= node key` and returns the path and the reached node, the descent `ExtDescend`, which ends at a leaf of a non-empty tree and at NULL for an empty one |
| BstExternal.Lookup | bst/bst-sequential-external.c:88-94 | true iff the reached leaf holds the key; on a valid tree, iff the key is among the leaf keys |
| BstExternal.Split | bst/bst-sequential-external.c:112-130 | the replacing node is keyed with the smaller of the two keys, its left leaf holds the smaller and its right leaf the larger key, and the old leaf is one of them |
| BstExternal.SplitValid | bst/bst-sequential-external.c:112-130 | the replacing subtree is an external search tree whose leaves are exactly the old and the new key |
| BstExternal.Insert | bst/bst-sequential-external.c:96-131 | the loop-free insert computes `InsertSpec`: a single leaf for an empty tree, no change for a present key, the split leaf otherwise |
| BstExternal.InsertCorrect | bst/bst-sequential-external.c:96-131 | insert keeps the tree a valid external search tree, adds exactly the key to the leaf keys, and reports 1 iff the key was absent |
| BstExternal.Delete | bst/bst-sequential-external.c:133-158 | the delete computes `DeleteSpec`: no change unless the reached leaf holds the key, an empty tree for the only leaf, else the sibling takes the parent's place |
| BstExternal.DeleteCorrect | bst/bst-sequential-external.c:133-158 | delete keeps the tree valid, removes exactly the key from the leaf keys, and reports 1 iff the key was present |
| BstExternal.SiblingHoisted | bst/bst-sequential-external.c:150-157 | unlinking a leaf and its parent and putting the sibling in the parent's place leaves a valid tree without that one key |
| BstExternal.ValidateRec | bst/bst-sequential-external.c:179-215 | counts every node and one path per node with two NULL links, and adds a violation exactly where a left child's key exceeds its parent's or a right child's key does not |
| BstExternal.Validate | bst/bst-sequential-external.c:217-242 | the verdict is "no violation" iff every parent-child pair is in order |
| BstExternal.ValidPassesValidator | bst/bst-sequential-external.c:179-242 | every valid external search tree passes the validator |
| BstExternal.PathsAreKeys | bst/bst-sequential-external.c:186-190 | on a valid tree the validator counts one path per key |
| BstExternal.ValidatorIsLocal | bst/bst-sequential-external.c:192-205 | for all keys: a three-leaf tree with a left leaf above the root's key passes the validator, though it is a search tree only when that leaf is at most the root's key |
| BstPartial.Traverse | bst/bst-sequential-partially_external.c:68-82 | the walk goes left iff `key < node key`, stops at the node holding the key or at NULL, and returns the descent `IntDescend` with the parent as the last frame |
| BstPartial.Lookup | bst/bst-sequential-partially_external.c:84-90 | true iff the key is held by an unmarked node of the tree |
| BstPartial.Insert | bst/bst-sequential-partially_external.c:92-120 | the insert computes `InsertSpec`: a new root for an empty tree, unmarking a marked node, no change for an unmarked one, else a new leaf on the key's side of the parent |
| BstPartial.InsertCorrect | bst/bst-sequential-partially_external.c:92-120 | insert keeps the order, adds exactly the key to the unmarked keys and to all keys, and reports 1 iff the key was not among the unmarked keys |
| BstPartial.InsertUnmarks | bst/bst-sequential-partially_external.c:104-108 | unmarking a marked node holding the key makes it live again and allocates no key |
| BstPartial.InsertHangs | bst/bst-sequential-partially_external.c:114-119 | a new leaf hung at the reached NULL keeps the order and adds exactly the key |
| BstPartial.Delete | bst/bst-sequential-partially_external.c:122-149 | the delete computes `DeleteSpec`: no change for an absent or marked key, a node with at most one child spliced out, a node with two children marked |
| BstPartial.DeleteCorrect | bst/bst-sequential-partially_external.c:122-149 | delete keeps the order, removes exactly the key from the unmarked keys, drops no other key, and reports 1 iff the key was unmarked and present |
| BstPartial.DeleteRemoves | bst/bst-sequential-partially_external.c:136-146 | splicing out a node with at most one child, or marking one with two, removes exactly that key from the live keys |
| BstPartial.ValidateRec | bst/bst-sequential-partially_external.c:170-205 | counts every node, every marked node and one path per node with a NULL link, and adds a violation exactly where a left child's key is not below, or a right child's not above, its parent's |
| BstPartial.Validate | bst/bst-sequential-partially_external.c:207-231 | the verdict is "no violation" iff every parent-child pair is strictly in order, marked nodes included |
| BstPartial.OrderedPassesValidator | bst/bst-sequential-partially_external.c:170-231 | every ordered tree passes the validator |
| BstPartial.SizeIsKeys | bst/bst-sequential-partially_external.c:170-205 | on an ordered tree the validator's node count is the number of keys |
| AvlCore.NewTree | avl/avl_types.h:55-71 | a new tree is empty: no keys, height -1, and it satisfies the AVL invariant |
| AvlCore.Balance | avl/avl_utils.h:36-44 | a missing or external node has balance 0 |
| AvlCore.Lean | avl/avl_utils.h:36-44 | the balance of an internal node seen from one side is that child's height minus the other child's |
| AvlCore.Fix | avl/avl_utils.h:19-20 | refreshing a node's height keeps its key, value and children and stores 1 + the larger child height |
| AvlCore.NewNodeValid | avl/avl_types.h:37-46 | a new node is a leaf of height 0 holding exactly the given key, and is a valid AVL tree |
| AvlCore.StoredIsHeight | avl/avl_utils.h:19-20 | when every node stores max(child heights) + 1, the stored height is the tree's height minus one |
| AvlCore.RotateFix | avl/avl_utils.h:11-28 | a single rotation makes root's former link[!dir] child the new root, root its link[dir] child, hands over the inner grandchild, and gives both moved nodes max(child heights) + 1 |
| AvlCore.DoubleFix | avl/avl_utils.h:30-34 | a double rotation lifts the inner grandchild to the root with the old root and the old child as its children and the grandchild's subtrees shared out, all heights refreshed |
| AvlCore.RotateFixKeeps | avl/avl_utils.h:11-28 | a single rotation keeps the key set, the search order (internal or external) and the leaf keys |
| AvlCore.RefreshKeeps | avl/avl_utils.h:19-20 | refreshing heights changes neither keys, leaf keys, fullness nor order |
| AvlCore.DoubleFixKeeps | avl/avl_utils.h:30-34 | a double rotation keeps the key set, the search order and the leaf keys |
| AvlCore.ReplaceExternal | avl/avl_utils.h:56-71 | the leaf becomes an internal node of height 1 keyed with the smaller key, over two height-0 leaves holding the smaller and the larger of the two keys |
| AvlCore.ReplaceExternalValid | avl/avl_utils.h:56-71 | the replacing subtree is a valid external AVL tree of height 1 whose leaves are exactly the old and the new key |
| AvlCore.AvlFocus | avl/avl_links_bu_ext_iterative.c:48-116 | every subtree on a path of a valid AVL tree is a valid AVL tree |
| AvlCore.AvlReplace | avl/avl_links_bu_ext_iterative.c:48-116 | replacing a subtree by a valid one of the same height keeps the whole tree valid, which is why a fixup may stop early |
| AvlCore.GrowAbsorbed | avl/avl_links_bu_ext_iterative.c:64-72 | after a child grew by one, a node still within balance is valid and either keeps its height or grew by one leaning to that side |
| AvlCore.GrowRotate | avl/avl_links_bu_ext_iterative.c:74-102 | after a child grew, an out-of-balance node leans 2 to that side and the child leans +-1 (never 0, the source's assert); the single rotation (same side) or the double rotation (other side) restores the invariant and the height before the insert |
| AvlCore.ShrinkAbsorbed | avl/avl_links_bu_ext_iterative.c:175-190 | after a child shrank, a node still within balance is valid and its height is unchanged or one less |
| AvlCore.ShrinkRotate | avl/avl_links_bu_ext_iterative.c:191-211 | after a child shrank, the heavy side leans 2; a single rotation when the heavy child's balance is 0 or of the same sign, a double one otherwise, restores validity with the height unchanged or one less |
| AvlCore.SingleRotateAvl | avl/avl_utils.h:11-28 | a single rotation of a node leaning 2 over a child leaning 0 or 1 the same way yields a valid AVL tree whose height drops by the child's lean |
| AvlCore.DoubleRotateAvl | avl/avl_utils.h:30-34 | a double rotation of a node leaning 2 over a child leaning the other way yields a valid AVL tree of the child's height |
| AvlExternal.Lookup | avl/avl_links_bu_ext_iterative.c:21-42 | returns the number of internal nodes passed on the descent and `found` iff the reached leaf holds the key; on a search tree, iff the key is among the leaf keys |
| AvlExternal.Insert | avl/avl_links_bu_ext_iterative.c:118-154 | keeps the tree a valid external AVL tree (order, heights, balance), adds exactly the key to the leaf keys, and reports 1 iff the key was absent (a single leaf for an empty tree, no change for a duplicate) |
| AvlExternal.InsertFixup | avl/avl_links_bu_ext_iterative.c:48-116 | climbing from the new internal node's parent, refreshing heights until one is unchanged or rotating once, yields a valid AVL tree with the same leaf keys |
| AvlExternal.RebalanceGrown | avl/avl_links_bu_ext_iterative.c:65-102 | the single or double rotation chosen by the heavy child's balance makes the node valid again at its height before the insert, with the same leaf keys |
| AvlExternal.Delete | avl/avl_links_bu_ext_iterative.c:226-279 | keeps the tree a valid external AVL tree, removes exactly the key from the leaf keys, and reports 1 iff it was present (empty tree for the sole leaf, the sibling as root for a leaf under the root, else the sibling spliced into the grandparent) |
| AvlExternal.Unhang | avl/avl_links_bu_ext_iterative.c:266-274 | splicing the sibling into the grandparent leaves a search tree without the key, in which only the grandparent's subtree may have lost one level of height |
| AvlExternal.DeleteFixup | avl/avl_links_bu_ext_iterative.c:159-224 | climbing from the grandparent, rotating and continuing, or refreshing heights until one is unchanged, yields a valid AVL tree with the same leaf keys |
| AvlExternal.RebalanceShrunk | avl/avl_links_bu_ext_iterative.c:174-208 | a single rotation when the heavy child's balance is 0 or of the heavy side, a double one otherwise, makes the node valid with its height unchanged or one less |
| AvlWarmup.WarmupHelper | avl/avl_warmup.h:110-132 | inserting `rand() % max_key` until `nr_nodes` inserts succeed leaves a valid AVL tree holding the old keys and every drawn key, counts exactly the inserts that added a key, and stops at `nr_nodes` (or when the random numbers run out) |
| AvlWarmup.WarmupRound | avl/avl_warmup.h:117-128 | one draw keeps the warmup's progress: the count grows by one iff the drawn key was absent |
| WarmupKeys.DrawnKeys | avl/avl_warmup.h:118 | the drawn keys are exactly the remainders `rand() % max_key` of the random numbers used, each in [0, max_key) |
| WarmupKeys.ProgressStep | avl/avl_warmup.h:122-123 | a round adds the drawn key to the tree and counts one more insert exactly when the key was new |
| WarmupKeys.AddKey | avl/avl_warmup.h:122-123 | adding a key grows the key set by one iff it was absent |
| AvlInternal.NodeBalanceAsWritten | avl/avl-sequential-internal.c:70-79 | the file's `node_balance` differs from the height difference exactly by counting a missing child as 0: one more for a missing left child, one less for a missing right child |
| AvlInternal.Lookup | avl/avl-sequential-internal.c:129-172 | found iff the walk that goes left on a smaller key stops at a node rather than at NULL; on a search tree, iff the key is in the tree |
| AvlInternal.TraverseWithStack | avl/avl-sequential-internal.c:144-164 | the stacked walk yields exactly the search path to the key and the node (or NULL) where it stops |
| AvlInternal.Insert | avl/avl-sequential-internal.c:232-259 | with the height-based balance, insert keeps the tree an AVL search tree, adds exactly the key, and reports 1 iff it was absent (new root for an empty tree, a new leaf on the side given by `key < place->key` otherwise) (the intended behaviour; the file's own balance test is `InsertAsWritten`) |
| AvlInternal.InsertFixup | avl/avl-sequential-internal.c:174-230 | climbing the stack, refreshing heights until one is unchanged or rotating once (LEFT-LEFT, LEFT-RIGHT, RIGHT-RIGHT, RIGHT-LEFT), yields a valid AVL tree with the same keys |
| AvlInternal.RebalanceGrown | avl/avl-sequential-internal.c:186-219 | the rotation chosen by the heavy child's balance restores the AVL invariant at the node's height before the insert and keeps the keys |
| AvlInternal.InsertFixupAsWritten | avl/avl-sequential-internal.c:174-230 | the fixup with the file's own `node_balance` keeps the keys and the order whenever it gets through (none means it reached the source's `assert(0)`) |
| AvlInternal.KeepsInPlace | avl/avl-sequential-internal.c:191-193 | hanging a subtree with the same keys in a node's place keeps the tree's keys and its order |
| AvlInternal.InsertAsWritten | avl/avl-sequential-internal.c:174-259 | insert with the file's `node_balance` adds exactly the key, keeps the order and reports 1 iff the key was absent, but not balance |
| AvlInternal.AsWrittenBuildsChain | avl/avl-sequential-internal.c:174-259 | inserting 1, 2, 3 with the file's `node_balance` builds the chain 1-2-3, which is not an AVL tree (with `node_balance` at lines 70-79 counting a missing child as height 0) |
| AvlInternal.ChainSecond | avl/avl-sequential-internal.c:174-259 | inserting 2 under 1 gives node 1 the written balance 0 - 0 = 0, so no rotation, height 1 |
| AvlInternal.ChainThird | avl/avl-sequential-internal.c:174-259 | inserting 3 then gives node 2 balance 0 - 0 and node 1 balance 0 - 1 = -1, so no rotation and the chain stays |
| AvlInternal.Delete | avl/avl-sequential-internal.c:337-382 | with the height-based balance, delete keeps the tree an AVL search tree, removes exactly the key, and reports 1 iff it was present |
| AvlInternal.DeleteFixup | avl/avl-sequential-internal.c:278-335 | climbing the stack with rotations and height refreshes yields a valid AVL tree with the same keys |
| AvlInternal.RebalanceShrunk | avl/avl-sequential-internal.c:278-335 | after a child shrank, the chosen rotation restores the AVL invariant with the height unchanged or one less, keeping the keys |
| AvlInternal.FindSuccessor | avl/avl-sequential-internal.c:261-276 | the successor search from the right child returns the leftmost node of the right subtree and the path to it |
| AvlInternal.SuccessorSplice | avl/avl-sequential-internal.c:365-378 | moving the successor's key into a two-child node and splicing out the successor leaves a search tree without the key in which only the successor's place lost one level |
| AvlInternal.SuccessorHeights | avl/avl-sequential-internal.c:365-374 | rekeying with the successor keeps heights and balance, and the successor's right child is one level lower than the successor |
| AvlInternal.ChildSplice | avl/avl-sequential-internal.c:356-364 | a node with at most one child is replaced by that child, one level lower, leaving a search tree without the key |
| AvlInternal.DeleteFixupAsWritten | avl/avl-sequential-internal.c:278-335 | the delete fixup with the file's own `node_balance` (rotations continue the climb, an unchanged height ends it) keeps the keys and the order whenever it gets through (none means it reached `assert(0)`), but not balance |
| AvlInternal.DeleteAsWritten | avl/avl-sequential-internal.c:337-382 | delete with the file's `node_balance` removes exactly the key, keeps the order and reports 1 iff the key was present, but not balance (see `DeleteAsWrittenLeavesImbalance`) |
| AvlInternal.DeleteAsWrittenLeavesImbalance | avl/avl-sequential-internal.c:278-335 | deleting 5 from the AVL tree 4(2(1, 3), 5) with the file's `node_balance` leaves 4(2(1, 3), NULL), whose balance is 2: the written balance 1 asks for no rotation, the stored height 2 is unchanged so the climb stops, and the written validator accepts the result while the height-based one rejects it |
| AvlInternal.DeleteFiveAsWritten | avl/avl-sequential-internal.c:337-382 | in that tree 5 is a leaf right of the root, and the fixup stops at the root with its height unchanged |
| AvlInternal.WarmupHelper | avl/avl-sequential-internal.c:384-398 | inserting `rand() % max_key` until `nr_nodes` inserts succeed leaves a valid AVL tree holding the old and all drawn keys, and counts exactly the inserts that added a key |
| AvlInternal.WarmupRound | avl/avl-sequential-internal.c:390-395 | one draw counts one more insert iff the drawn key was absent, and keeps the tree valid |
| AvlInternal.ValidateRec | avl/avl-sequential-internal.c:402-439 | counts every node and every node with a NULL link as a path, and adds a BST violation exactly where a child is out of local order and an AVL violation exactly where the balance leaves [-1, 1] |
| AvlInternal.ValidateAsWritten | avl/avl-sequential-internal.c:441-468 | the verdict with the file's `node_balance` is "locally ordered and every written balance in [-1, 1]" |
| AvlInternal.Validate | avl/avl-sequential-internal.c:441-468 | the verdict with the height-based balance is "locally ordered and every node balanced" |
| AvlInternal.BalancedByBalance | avl/avl-sequential-internal.c:424-426 | checking the height-based balance at every node is the AVL balance condition |
| AvlInternal.OrderedIsLocal | avl/avl-sequential-internal.c:414-418 | a search tree has no local order violation |
| AvlInternal.ValidPasses | avl/avl-sequential-internal.c:441-468 | every AVL search tree the operations produce passes the validator |
| AvlInternal.ChainGoesUnnoticed | avl/avl-sequential-internal.c:424-426 | the chain 1-2-3 is ordered with right heights, has balance -2 at its root, yet the written validator accepts it and the height-based one rejects it (its balance check rests on the same `node_balance`, lines 70-79) |
| AvlValidate.ValidateRec | avl/avl_validate.h:10-50 | with bounds as options, returns the height (-1 for NULL), counts every node and every node with a NULL link as a path, adds AVL violations exactly where child heights differ by more than one, and BST violations only for keys out of their bounds |
| AvlValidate.Enter | avl/avl_validate.h:19-36 | entering a node counts it, counts a path iff a link is NULL, and adds a BST violation iff the key lies outside [range_min, range_max] |
| AvlValidate.Leave | avl/avl_validate.h:45-47 | leaving a node adds an AVL violation iff the child heights differ by more than one |
| AvlValidate.ValidateRanges | avl/avl_validate.h:23-43 | no BST violation is counted iff every key lies within the bounds passed down: at most the node key on the left, at least key+1 on the right |
| AvlValidate.RangesSplit | avl/avl_validate.h:40-43 | a subtree is within its bounds iff its root is and its left subtree is within (lo, key) and its right within (key+1, hi) |
| AvlValidate.Validate | avl/avl_validate.h:52-83 | the verdict is 1 iff every key is within the bounds from its ancestors and every node's child heights differ by at most one |
| AvlValidate.ValidateRecAsWritten | avl/avl_validate.h:10-50 | with -1 as "no bound", the validator still returns the height and counts every node |
| AvlValidate.EnterAsWritten | avl/avl_validate.h:23-26 | with both bounds other than -1, a BST violation is added iff the key lies outside them |
| AvlValidate.AsWrittenAgrees | avl/avl_validate.h:10-50 | as long as no key is -1 or -2 and no bound given is -1, the -1-coded validator computes the same as the option-coded one |
| AvlValidate.SentinelKeyEscapes | avl/avl_validate.h:23-63 | a full AVL tree with routing key -1 over leaves 7 and 0 is not a search tree, yet the -1-coded validator accepts it (bounds compared at lines 23-26, set at 43 and 63) |
| AvlValidate.AvlIsHeightBalanced | avl/avl_validate.h:45-47 | every tree satisfying the AVL invariant has no AVL violation |
| AvlValidate.KeyBetweenLeaves | avl/avl_validate.h:40-43 | in an external search tree each routing key lies between two of its leaf keys |
| AvlValidate.KeysBracketed | avl/avl_validate.h:40-43 | in an external search tree every key lies between two leaf keys |
| AvlValidate.RangesAreLeafOrder | avl/avl_validate.h:23-43 | for a full tree the validator's range check holds iff the tree is an external search tree (left keys at most the node key, right keys above it) |
| AvlValidate.ValidPasses | avl/avl_validate.h:52-83 | every valid external AVL tree passes the validator |
| RbCore.NewNode | rbt/rbt_links_td_ext.c:40-52 | a new node is a red leaf holding the given key and value |
| RbCore.Paint | rbt/rbt_links_td_ext.c:160-162 | recolouring a node changes its colour only, keeping key, value and children |
| RbCore.PaintKeeps | rbt/rbt_links_td_ext.c:160-162 | recolouring keeps keys, leaf keys, shape, order and black balance, and sets the black height to the children's plus one iff painted black |
| RbCore.RotateDouble | rbt/rbt_links_td_ext.c:78-82 | the double rotation lifts the inner grandchild, with its colour and value, to the root |
| RbCore.RotateDoubleShape | rbt/rbt_links_td_ext.c:78-82 | after the double rotation the old root and the old child sit under the grandchild, each taking one of the grandchild's subtrees |
| RbCore.RotateDoubleKeeps | rbt/rbt_links_td_ext.c:78-82 | the double rotation keeps the key set, the search order (internal or external) and the leaf keys |
| Trees.Rotate | rbt/rbt_links_td_ext.c:68-76 | a single rotation returns root's link[!dir] child with root as its link[dir] child and the inner grandchild handed over |
| Trees.RotateKeys | rbt/rbt_links_td_ext.c:68-76 | a single rotation keeps the key set |
| Trees.RotateLeaves | rbt/rbt_links_td_ext.c:68-76 | a single rotation keeps the leaf keys and fullness |
| Trees.RotateBack | rbt/rbt_links_td_ext.c:68-76 | rotating back the other way undoes a rotation |
| SearchOrder.RotateOrdered | rbt/rbt_links_td_ext.c:68-76 | a single rotation keeps the search order, internal or external |
| RbCore.PathsAtBalanced | rbt/rbt_links_td_ext.c:357-363 | every path ending at a node with a NULL link meets `b` black nodes iff the subtree is black-balanced with `d` plus its black height equal to `b` |
| RbCore.FirstPathBalanced | rbt/rbt_links_td_ext.c:357-360 | in a black-balanced tree the first path the validator meets has exactly the tree's black height |
| RbCore.Visit | rbt/rbt_links_td_ext.c:340-369 | at one node the validator counts the node, counts a path iff a link is NULL, records the first path's black count or a difference from it, and adds a red-red violation iff a red node has a red child and a BST violation iff a child is out of order |
| RbCore.ValidateRec | rbt/rbt_links_td_ext.c:332-375 | over a subtree: counts every node and path, and finds no red-red violation iff no red node has a red child, no BST violation iff every parent-child pair is in order |
| RbCore.ValidateRecPaths | rbt/rbt_links_td_ext.c:357-363 | no black-height difference is recorded iff every path meets as many black nodes as the first one |
| RbCore.KnownHeightKept | rbt/rbt_links_td_ext.c:357-363 | once a black height is recorded it stays, and differences are counted against it |
| RbCore.FirstPathFixes | rbt/rbt_links_td_ext.c:357-360 | the first path the validator reaches fixes the recorded black height |
| RbCore.Validate | rbt/rbt_links_td_ext.c:377-414 | the verdict is 1 iff the tree is black-balanced, has no red node with a red child and every parent-child pair is in order; the validator of rbt/rbt_links_td_tarjan_ext.c:734-816 is the same code and is modelled by this member |
| RbCore.ExternalLocallyOrdered | rbt/rbt_links_td_ext.c:347-351 | an external search tree has no BST violation in the validator's sense (left child key at most the parent's) |
| RbCore.MaxLeaf | rbt/rbt_links_td_ext.c:347-351 | in an external search tree some leaf key is at least the routing key |
| RbCore.MinLeaf | rbt/rbt_links_td_ext.c:347-351 | in an external search tree some leaf key is at most the routing key |
| RbCore.InternalLocallyOrdered | rbt/rbt_links_td_ext.c:347-351 | an internal search tree has no BST violation with either left test |
| RbCore.ColorFlip | rbt/rbt_links_td_ext.c:145-150 | the colour flip makes the node red and its children black, keeping its key, keys and leaf keys |
| RbCore.ColorFlipKeeps | rbt/rbt_links_td_ext.c:145-150 | flipping a black node over two red children keeps the shape, the order, the black balance and the black height |
| RbCore.StripFacts | rbt/rbt_links_td_ext.c:21-29 | forgetting colours keeps keys, leaf keys, shape, height and order |
| RbCore.Recoloured | rbt/rbt_links_td_ext.c:21-29 | two trees that differ only in colours have the same keys, leaf keys, shape, height and order |
| RbCore.PaintFrame | rbt/rbt_links_td_ext.c:160-162 | recolouring the node of a path step changes only its colour |
| RbCore.RbFocus | rbt/rbt_links_td_ext.c:332-375 | every subtree of a valid red-black tree is valid, and its colour is one its parent allows |
| RbCore.RbReplace | rbt/rbt_links_td_ext.c:332-375 | replacing a subtree by a valid one of the same black height, whose colour the parent allows, keeps the tree valid |
| RbTdExt.ValidPasses | rbt/rbt_links_td_ext.c:332-414 | every valid external red-black tree passes the validator |
| RbTdExt.Lookup | rbt/rbt_links_td_ext.c:84-101 | found iff the leaf reached by going right on `key > node key` holds the key; on a search tree, iff the key is a leaf key; rbt/rbt_links_td_tarjan_ext.c:84-101 is the same code and is modelled by this member |
| RbTdExt.Way | rbt/rbt_links_td_ext.c:195 | the descent goes right exactly when the node key is smaller than the key |
| RbTdExt.Split | rbt/rbt_links_td_ext.c:130-144 | the reached leaf becomes a red node keyed with the smaller key over two black leaves holding the smaller and the larger of the two keys |
| RbTdExt.SplitValid | rbt/rbt_links_td_ext.c:130-144 | the split subtree is an external search tree of black height 1 with exactly the two keys, and satisfies the red-black rules |
| RbTdExt.AttachRb | rbt/rbt_links_td_ext.c:332-375 | a node is red-black valid iff both subtrees are, with equal black heights and no red child under a red node |
| RbTdExt.VisitSplit | rbt/rbt_links_td_ext.c:130-144 | on the search path, splitting the leaf adds exactly the new key, keeps order and black height, and leaves the way on quiet |
| RbTdExt.VisitFlip | rbt/rbt_links_td_ext.c:145-150 | the colour flip of a black node over two red children keeps order, keys, black height and the red rule inside the subtree |
| RbTdExt.VisitFacts | rbt/rbt_links_td_ext.c:128-150 | whatever the visit does (split, flip or nothing) keeps the search order and black height, adds the key only at a leaf, and a changed node is red over black children |
| RbTdExt.NoFixStep | rbt/rbt_links_td_ext.c:195-206 | when no red pair appears the walk steps one level down and the insert invariant holds there |
| RbTdExt.FixFacts | rbt/rbt_links_td_ext.c:156-159 | a red node under a red parent always has a black grandparent whose other child is black |
| RbTdExt.SingleFix | rbt/rbt_links_td_ext.c:160-175 | the outside case recolours the grandparent red and the parent black and rotates the parent up |
| RbTdExt.DoubleFix | rbt/rbt_links_td_ext.c:176-190 | the inside case recolours the grandparent red and the node black and lifts the node above parent and grandparent |
| RbTdExt.SingleFixRb | rbt/rbt_links_td_ext.c:160-175 | the single rotation repairs the red pair with the black height kept |
| RbTdExt.DoubleFixRb | rbt/rbt_links_td_ext.c:176-190 | the double rotation repairs the red pair with the black height kept |
| RbTdExt.Regraft | rbt/rbt_links_td_ext.c:163-178 | hanging a repaired subtree with the same leaves in the great-grandparent keeps the whole tree valid and ordered |
| RbTdExt.SingleFixOrder | rbt/rbt_links_td_ext.c:160-175 | the single rotation keeps order and leaf keys |
| RbTdExt.DoubleFixOrder | rbt/rbt_links_td_ext.c:176-190 | the double rotation keeps order and leaf keys |
| RbTdExt.FixPlace | rbt/rbt_links_td_ext.c:156-192 | a red pair sits two levels under a black grandparent, the site the fix works on |
| RbTdExt.SingleFixStep | rbt/rbt_links_td_ext.c:160-175 | after the single fix the walk resumes one level down with the insert invariant |
| RbTdExt.DoubleFixStep | rbt/rbt_links_td_ext.c:176-190 | after the double fix the walk resumes under the lifted node with the insert invariant |
| RbTdExt.VisitKeys | rbt/rbt_links_td_ext.c:128-150 | a visit adds the key only at a leaf without it, and otherwise the walk gets lower |
| RbTdExt.RepairAndDescend | rbt/rbt_links_td_ext.c:155-206 | one round of the insert loop keeps the insert invariant and the leaf keys of the tree |
| RbTdExt.Insert | rbt/rbt_links_td_ext.c:103-217 | keeps the tree a valid external red-black tree with a black root, adds exactly the key to the leaf keys, and reports 1 iff it was absent |
| RbTdExt.BHPositive | rbt/rbt_links_td_ext.c:332-375 | a non-empty tree with black leaves has black height at least 1 |
| RbTdExt.ChildKeys | rbt/rbt_links_td_ext.c:247 | in an external search tree the left child's leaves are at most the node key and the right child's above it |
| RbTdExt.GrandchildKey | rbt/rbt_links_td_ext.c:276-279 | a grandchild's key lies on the side of its grandparent it hangs under |
| RbTdExt.PassStep | rbt/rbt_links_td_ext.c:243-256 | when the node or its next child is red the delete walk steps down with its invariant (one red on each level it leaves) |
| RbTdExt.LiftRed | rbt/rbt_links_td_ext.c:257-260 | pushing down a black node with a red child on the far side rotates that child up black and the node down red |
| RbTdExt.LiftRedRb | rbt/rbt_links_td_ext.c:257-260 | that rotation keeps the red-black rules and the black height and leaves a red node on the way down |
| RbTdExt.LiftRedOrder | rbt/rbt_links_td_ext.c:257-260 | that rotation keeps the order and leaf keys and the direction of the walk |
| RbTdExt.LiftStep | rbt/rbt_links_td_ext.c:257-260 | after it the walk continues below the lowered node with its invariant |
| RbTdExt.BorrowPlace | rbt/rbt_links_td_ext.c:264-267 | a black node over two black children has a sibling, the site where it borrows a red |
| RbTdExt.RecolourStep | rbt/rbt_links_td_ext.c:268-271 | when the sibling's children are black, colouring parent black and node and sibling red keeps the invariant |
| RbTdExt.BorrowDouble | rbt/rbt_links_td_ext.c:278-281 | with a red near nephew the parent is double-rotated, the parent turns black and the node red |
| RbTdExt.BorrowSingle | rbt/rbt_links_td_ext.c:285-290 | with only a red far nephew the parent is rotated, parent black, node and sibling red, the nephew black |
| RbTdExt.BorrowDoubleRb | rbt/rbt_links_td_ext.c:278-281 | the double-rotation borrow keeps the red-black rules and the black height |
| RbTdExt.BorrowSingleRb | rbt/rbt_links_td_ext.c:285-290 | the single-rotation borrow keeps the red-black rules and the black height |
| RbTdExt.BorrowDoubleOrder | rbt/rbt_links_td_ext.c:278-281 | the double-rotation borrow keeps order and leaf keys and the walk's direction |
| RbTdExt.BorrowSingleOrder | rbt/rbt_links_td_ext.c:285-290 | the single-rotation borrow keeps order and leaf keys and the walk's direction |
| RbTdExt.BorrowDescend | rbt/rbt_links_td_ext.c:275-294 | after a borrow the walk continues below the reddened node with its invariant |
| RbTdExt.BorrowDoubleStep | rbt/rbt_links_td_ext.c:278-281 | the double-rotation borrow step keeps the invariant and the leaf keys |
| RbTdExt.BorrowSingleStep | rbt/rbt_links_td_ext.c:285-290 | the single-rotation borrow step keeps the invariant and the leaf keys |
| RbTdExt.DeleteStep | rbt/rbt_links_td_ext.c:240-299 | one round of the delete loop keeps the invariant and the leaf keys and gets lower |
| RbTdExt.DeleteFinal | rbt/rbt_links_td_ext.c:301-321 | the intended final step: removing the leaf and its parent leaves a valid tree with exactly the key removed, reporting 1 iff it was there |
| RbTdExt.RemoveLeaf | rbt/rbt_links_td_ext.c:310-316 | putting the sibling in the parent's place removes exactly the key and keeps the tree valid, thanks to the red the walk brought down |
| RbTdExt.DeleteFinalAsWritten | rbt/rbt_links_td_ext.c:301-321 | the final delete step as written unlinks through the dummy `head`, whose key is 0, and then takes the root back from `head.link[1]`: a lone root leaf stays there, and deleting a key at most 0 from a leaf right under the root hangs the sibling on `head.link[0]` |
| RbTdExt.DeleteFinalAgrees | rbt/rbt_links_td_ext.c:301-321 | away from those two cases the as-written step computes the intended one |
| RbTdExt.OnlyLeafKept | rbt/rbt_links_td_ext.c:303-306 | deleting the only leaf reports 1 but leaves the tree unchanged, because `head.link[1]` still holds it |
| RbTdExt.NonPositiveKeyKept | rbt/rbt_links_td_ext.c:308-315 | deleting key 0 from a leaf under the root reports 1 but changes only the zeroed `head` (its key 0 routes left) |
| RbTdExt.Delete | rbt/rbt_links_td_ext.c:219-324 | the intended delete keeps the tree a valid external red-black tree, removes exactly the key, and reports 1 iff it was present (the intended behaviour; the final step as written is `DeleteFinalAsWritten`) |
| RbTdExt.WarmupFix | rbt/rbt_links_td_ext.c:455-483 | the warmup repair returns a node (flip, single or double rotation) |
| RbTdExt.WarmupRec | rbt/rbt_links_td_ext.c:416-486 | the recursive warmup insert returns a non-empty tree, and the tree itself when the key is found; rbt/rbt_links_td_tarjan_ext.c:818-888 is the same code |
| RbTdExt.WarmupFixOrder | rbt/rbt_links_td_ext.c:455-483 | the warmup repair keeps order, leaf keys and black leaves |
| RbTdExt.WarmupFixLeaves | rbt/rbt_links_td_ext.c:462-481 | the rotating repairs keep every leaf black |
| RbTdExt.WarmupRecKeys | rbt/rbt_links_td_ext.c:416-486 | the recursive warmup insert adds exactly the key, keeps the order, and sets found iff the key was present |
| RbTdExt.WarmupFlipRb | rbt/rbt_links_td_ext.c:462-467 | case 1 (red uncle) recolours without breaking black balance or creating a red pair below |
| RbTdExt.WarmupSingleRb | rbt/rbt_links_td_ext.c:469-474 | case 2 (outer red grandchild) rotates to a black-balanced tree with no red pair |
| RbTdExt.WarmupDoubleRb | rbt/rbt_links_td_ext.c:475-480 | case 3 (inner red grandchild) double-rotates to a black-balanced tree with no red pair |
| RbTdExt.WarmupFixRb | rbt/rbt_links_td_ext.c:444-483 | after a child's recursive insert, the repair leaves at most a red root over a red child for the parent to fix |
| RbTdExt.WarmupRecRb | rbt/rbt_links_td_ext.c:416-486 | the recursive insert keeps black balance and leaves at most one red pair at its root |
| RbTdExt.WarmupInsert | rbt/rbt_links_td_ext.c:488-500 | the warmup insert, with the root painted black, keeps the tree valid, adds exactly the key and reports 1 iff it was absent; rbt/rbt_links_td_tarjan_ext.c:890-902 is the same code |
| RbTdExt.WarmupHelper | rbt/rbt_links_td_ext.c:502-524 | drawing `rand() % max_key` until `nr_nodes` inserts succeed leaves a valid tree with the old and all drawn keys, counting exactly the inserts that added a key; rbt/rbt_links_td_tarjan_ext.c:904-926 is the same code |
| RbTdExt.WarmupRound | rbt/rbt_links_td_ext.c:508-520 | one draw counts one more insert iff its key was absent |
| RbTarjan.ReplaceExternal | rbt/rbt_links_td_tarjan_ext.c:158-178 | returns 0 and keeps the leaf iff it holds the key; otherwise 1 and a red node of black height 1 over two black leaves holding exactly the old and the new key |
| RbTarjan.EnterWindow | rbt/rbt_links_td_tarjan_ext.c:224-234 | the first step below a window root starts the walk inside the window |
| RbTarjan.PassRed | rbt/rbt_links_td_tarjan_ext.c:231-252 | a red node met in the window is passed, and the walk stays in the window one level lower |
| RbTarjan.AnchorWindow | rbt/rbt_links_td_tarjan_ext.c:245-252 | a black node with a black child becomes the next window root |
| RbTarjan.FlipLeavesAnchor | rbt/rbt_links_td_tarjan_ext.c:254-266 | after the colour flip of a 4-node the child on the key's side is an anchor with black children, lower than the flipped node |
| RbTarjan.WindowFixSite | rbt/rbt_links_td_tarjan_ext.c:113-134 | a red pair two levels under the window root sits under a black grandparent with a black other child, the site the fix-up repairs |
| RbTarjan.WindowSingleFix | rbt/rbt_links_td_tarjan_ext.c:134-141 | the single rotation of the fix-up leaves a valid tree with the same leaves |
| RbTarjan.WindowDoubleFix | rbt/rbt_links_td_tarjan_ext.c:142-149 | the double rotation leaves a valid tree with the same leaves, and the node on the key's side is red over the flipped node's child |
| RbTarjan.FixNotNeeded | rbt/rbt_links_td_tarjan_ext.c:113-117 | when the flipped node's parent is black, or it is the window root's child, the tree is already valid (the fix-up returns 0) |
| RbTarjan.FixTurns | rbt/rbt_links_td_tarjan_ext.c:123-134 | a red parent under the window root has a black sibling, and the red child is on the outside iff the two steps go the same way |
| RbTarjan.FixSingle | rbt/rbt_links_td_tarjan_ext.c:134-141 | outside case: one rotation at the grandparent yields a valid tree with the same leaves |
| RbTarjan.FixDouble | rbt/rbt_links_td_tarjan_ext.c:142-149 | inside case: the double rotation yields a valid tree with the same leaves |
| RbTarjan.InsertFixViolation | rbt/rbt_links_td_tarjan_ext.c:104-156 | the fix-up after a flip leaves a valid tree with the same leaves and returns the number of rotations: 0 with nothing moved, 1 with the node one level up, 2 with the node two levels up and a red node above its child |
| RbTarjan.FlipWindow | rbt/rbt_links_td_tarjan_ext.c:254-268 | whatever the fix-up returned, the flipped node's child on the key's side is the next window root |
| RbTarjan.InsertWalk | rbt/rbt_links_td_tarjan_ext.c:220-271 | one window of the insert either finishes (a valid tree with the key added, 1 iff it was absent) or hands on a lower window with the same leaves |
| RbTarjan.RootWindow | rbt/rbt_links_td_tarjan_ext.c:203-218 | blackening a red root, or the red children of a black root, makes the root the first window root, with the same leaves |
| RbTarjan.RedRootAnchor | rbt/rbt_links_td_tarjan_ext.c:203-207 | a red root painted black is a sound anchor |
| RbTarjan.FlipRootAnchor | rbt/rbt_links_td_tarjan_ext.c:208-214 | a black root whose red children are painted black is a sound anchor |
| RbTarjan.SoundWindow | rbt/rbt_links_td_tarjan_ext.c:216-218 | a sound anchor is an insert window at the root |
| RbTarjan.Insert | rbt/rbt_links_td_tarjan_ext.c:184-381 | keeps the tree valid, adds exactly the key to the leaf keys and returns 1 iff it was absent, 0 otherwise (a black leaf for an empty tree, a red split for a lone leaf) |
| RbTarjan.DeleteExternal | rbt/rbt_links_td_tarjan_ext.c:383-401 | returns 1 iff the leaf holds the key, and then the parent's other child takes the parent's place one level up |
| RbTarjan.DeleteExternalOk | rbt/rbt_links_td_tarjan_ext.c:559-573 | unlinking the reached leaf returns 1 iff the tree holds the key; the result is valid without the key if the parent was red, and one black node short at the hoisted sibling if it was black |
| RbTarjan.BlackenShort | rbt/rbt_links_td_tarjan_ext.c:414-424 | a short subtree that is red, or the whole tree, painted black leaves a valid tree with the same leaves |
| RbTarjan.DeleteFixViolation | rbt/rbt_links_td_tarjan_ext.c:407-497 | from a subtree one black node short, the four cases leave a valid tree with the same leaves, returning 0, 1 or 2 rotations |
| RbTarjan.EnterDeleteWindow | rbt/rbt_links_td_tarjan_ext.c:547-557 | the first step below a delete window root enters the window |
| RbTarjan.PassBlack | rbt/rbt_links_td_tarjan_ext.c:576-595 | a black node that is neither a window root nor a 2-node over 2-nodes is a node over two leaves, and the walk passes it |
| RbTarjan.RedShort | rbt/rbt_links_td_tarjan_ext.c:598-601 | a 2-node over 2-nodes painted red keeps the red-black rules itself and leaves its side one black node short |
| RbTarjan.MergeUnderRed | rbt/rbt_links_td_tarjan_ext.c:575-595 | a window root over a 2-node over 2-nodes and a black sibling with black children is red |
| RbTarjan.TurnKeepsParent | rbt/rbt_links_td_tarjan_ext.c:457-491 | cases 3 and 4 keep the old parent above the short subtree on its side |
| RbTarjan.BesideRoutes | rbt/rbt_links_td_tarjan_ext.c:427-428 | the sibling and its near child lie on the sibling's side of the key |
| RbTarjan.MergeTurn | rbt/rbt_links_td_tarjan_ext.c:457-491 | with a red nephew, the rotation of case 3 or 4 leaves a valid tree with the same leaves whose old parent stays over the short subtree |
| RbTarjan.MergeFinish | rbt/rbt_links_td_tarjan_ext.c:606-607 | the reddened node under its parent is the next delete window |
| RbTarjan.MergeDown | rbt/rbt_links_td_tarjan_ext.c:589-611 | the intended bb step: painting the 2-node red and repairing at the window root leaves the node red under its old parent as the next window root, with the same leaves |
| RbTarjan.MergeAsWritten | rbt/rbt_links_td_tarjan_ext.c:598-602 | as written, for a red window root: both children turn red and the fix-up only blackens the root (the recolouring of lines 414-416 is left undone) |
| RbTarjan.MergeAsWrittenBreaksRedRule | rbt/rbt_links_td_tarjan_ext.c:598-602 | for every k, in the valid tree MergeExample(k) the step as written puts the red sibling over its own red child |
| RbTarjan.ExampleChild | rbt/rbt_links_td_tarjan_ext.c:589-595 | the example's left child is a valid 2-node over 2-nodes of black height 3 with keys at most k + 4 |
| RbTarjan.ExampleSibling | rbt/rbt_links_td_tarjan_ext.c:576-582 | the example's sibling is a valid black node of black height 3 with a red child, keys above k + 4 |
| RbTarjan.ExampleNephew | rbt/rbt_links_td_tarjan_ext.c:576-582 | the sibling's red child is valid with black height 2 and keys in (k + 4, k + 8] |
| RbTarjan.PairFacts | rbt/rbt_links_td_tarjan_ext.c:589-595 | a black node over two leaves is valid with black height 2 and no red below |
| RbTarjan.JoinFacts | rbt/rbt_links_td_tarjan_ext.c:734-777 | joining two valid trees of equal black height with separated keys gives a valid tree with both key sets |
| RbTarjan.DeleteWalk | rbt/rbt_links_td_tarjan_ext.c:543-613 | one delete window either finishes (a valid tree without the key, 1 iff it was present) or hands on a lower window with the same leaves |
| RbTarjan.DeleteRootWindow | rbt/rbt_links_td_tarjan_ext.c:520-541 | reddening a black root over black children with no red grandchild makes the root the first delete window, with the same leaves |
| RbTarjan.Delete | rbt/rbt_links_td_tarjan_ext.c:499-726 | keeps the tree valid, removes exactly the key from the leaf keys, returns 1 iff it was present (an empty tree for the lone leaf) |
| RbBottomUp.AttachOk | rbt/rbt_links_bu_ext_iterative_string.c:465-510 | a node keeps the red-black rules iff its subtrees do with equal black heights and no red child under red, and its black height then grows by one iff it is black |
| RbBottomUp.PlugOk | rbt/rbt_links_bu_ext_iterative_string.c:465-510 | the whole tree keeps the rules iff the subtree at the bottom of the stack does, fits the black heights above it, and meets no red pair on the way |
| RbBottomUp.FitsSnoc | rbt/rbt_links_bu_ext_iterative_string.c:465-510 | fitting under one more stack frame means balancing that frame's other child and fitting one level up |
| RbBottomUp.CleanSnoc | rbt/rbt_links_bu_ext_iterative_string.c:465-510 | no red pair under one more frame means none in its other child, none at the frame, and none above |
| RbBottomUp.CleanUnderBlack | rbt/rbt_links_bu_ext_iterative_string.c:465-510 | a black subtree meets no red pair on its stack as long as the stack had none |
| RbBottomUp.StripPlug | rbt/rbt_links_bu_ext_iterative_string.c:465-510 | recolouring the bottom subtree recolours nothing else |
| RbBottomUp.RecolourIn | rbt/rbt_links_bu_ext_iterative_string.c:188-191 | recolouring a subtree keeps keys, leaves, shape and order of the whole tree |
| RbBottomUp.RotateIn | rbt/rbt_links_bu_ext_iterative_string.c:70-78 | rotating a subtree in place keeps the order, content and keys of the whole tree |
| RbBottomUp.NewLeafClimbing | rbt/rbt_links_bu_ext_iterative_string.c:168-171 | a new red node at the bottom of the stack starts the insert fix-up's invariant |
| RbBottomUp.ClimbDone | rbt/rbt_links_bu_ext_iterative_string.c:176-178 | when the parent is black the fix-up is done and the tree keeps the rules |
| RbBottomUp.ClimbToRoot | rbt/rbt_links_bu_ext_iterative_string.c:229-230 | when the climb reaches the root, painting the root black gives a valid tree one black level higher |
| RbBottomUp.FlipUp | rbt/rbt_links_bu_ext_iterative_string.c:188-191 | case 1 makes the grandparent red and parent and uncle black, changing colours only |
| RbBottomUp.FlipUpStep | rbt/rbt_links_bu_ext_iterative_string.c:188-196 | after case 1 the invariant holds two levels up |
| RbBottomUp.TurnOuter | rbt/rbt_links_bu_ext_iterative_string.c:201-210 | case 2 makes the grandparent red and the parent black and rotates the parent up |
| RbBottomUp.TurnOuterStep | rbt/rbt_links_bu_ext_iterative_string.c:201-210 | case 2 restores the rules and leaves a black subtree root |
| RbBottomUp.TurnOuterOrder | rbt/rbt_links_bu_ext_iterative_string.c:201-210 | case 2 keeps order, content and keys |
| RbBottomUp.InnerToOuter | rbt/rbt_links_bu_ext_iterative_string.c:211-220 | the first half of case 3 rotates the inner grandchild above the parent |
| RbBottomUp.InnerToOuterStep | rbt/rbt_links_bu_ext_iterative_string.c:211-220 | after that rotation the red pair is on the outside and the climb invariant holds |
| RbBottomUp.TurnInner | rbt/rbt_links_bu_ext_iterative_string.c:211-220 | case 3 makes the node black over parent and red grandparent |
| RbBottomUp.TurnInnerIsTwoTurns | rbt/rbt_links_bu_ext_iterative_string.c:80-84 | case 3's double rotation is the inner rotation followed by case 2 |
| RbBottomUp.TurnInnerStep | rbt/rbt_links_bu_ext_iterative_string.c:211-220 | case 3 restores the rules |
| RbBottomUp.TurnInnerOrder | rbt/rbt_links_bu_ext_iterative_string.c:211-220 | case 3 keeps order, content and keys |
| RbBottomUp.Blacken | rbt/rbt_links_bu_ext_iterative_string.c:288-290 | blackening makes a node black and changes nothing else, nothing at all for a black node |
| RbBottomUp.SpliceOk | rbt/rbt_links_bu_ext_iterative_string.c:439-450 | unlinking a node with one child: a red node had none, and the tree stays valid; a black node leaves its place one black node short |
| RbBottomUp.OnlyChild | rbt/rbt_links_bu_ext_iterative_string.c:439-447 | the child of a node with one subtree keeps the rules, one black level lower if the node was black, and is empty if the node was red |
| RbBottomUp.ShortRed | rbt/rbt_links_bu_ext_iterative_string.c:288-293 | a red subtree one black node short, painted black, leaves a valid tree |
| RbBottomUp.ShortAtRoot | rbt/rbt_links_bu_ext_iterative_string.c:286 | a short subtree at the root leaves a valid tree |
| RbBottomUp.SiblingExists | rbt/rbt_links_bu_ext_iterative_string.c:296-299 | a short subtree always has a sibling |
| RbBottomUp.LiftSibling | rbt/rbt_links_bu_ext_iterative_string.c:301-321 | case 1 rotates the red sibling up black over the red parent, and the parent becomes the short subtree's new parent |
| RbBottomUp.LiftSiblingPlug | rbt/rbt_links_bu_ext_iterative_string.c:301-321 | case 1's recolouring and rotation is the stack change |
| RbBottomUp.LiftSiblingStep | rbt/rbt_links_bu_ext_iterative_string.c:301-321 | after case 1 the subtree is still short, under a red parent with a black sibling |
| RbBottomUp.LiftSiblingOrder | rbt/rbt_links_bu_ext_iterative_string.c:301-321 | case 1 keeps order, content and keys |
| RbBottomUp.PushUp | rbt/rbt_links_bu_ext_iterative_string.c:329-331 | case 2 reddens the sibling and keeps everything else |
| RbBottomUp.PushUpStep | rbt/rbt_links_bu_ext_iterative_string.c:323-331 | after case 2 the parent is the short subtree, one level up |
| RbBottomUp.TurnNear | rbt/rbt_links_bu_ext_iterative_string.c:356-370 | the first half of case 4 rotates the near red nephew above the sibling |
| RbBottomUp.TurnNearStep | rbt/rbt_links_bu_ext_iterative_string.c:356-370 | after it the subtree is still short and the sibling's far child is red |
| RbBottomUp.TurnNearSibling | rbt/rbt_links_bu_ext_iterative_string.c:80-84 | that rotation keeps the sibling's rules and black height, with a black root and a red far child |
| RbBottomUp.TurnNearOrder | rbt/rbt_links_bu_ext_iterative_string.c:356-370 | that rotation keeps order, content and keys |
| RbBottomUp.Settle | rbt/rbt_links_bu_ext_iterative_string.c:348-350 | the new subtree root takes the parent's colour and its children turn black |
| RbBottomUp.TurnFar | rbt/rbt_links_bu_ext_iterative_string.c:332-355 | case 3 rotates the sibling up with the parent's colour |
| RbBottomUp.TurnFarStep | rbt/rbt_links_bu_ext_iterative_string.c:332-355 | case 3 restores the rules in the whole tree |
| RbBottomUp.TurnFarOrder | rbt/rbt_links_bu_ext_iterative_string.c:332-355 | case 3 keeps order, content and keys |
| RbBottomUp.TurnNearFar | rbt/rbt_links_bu_ext_iterative_string.c:356-380 | case 4 lifts the near nephew with the parent's colour |
| RbBottomUp.TurnNearFarIsTwoTurns | rbt/rbt_links_bu_ext_iterative_string.c:80-84 | case 4's double rotation is the near rotation followed by case 3 |
| RbBuExt.LeavesBlackPlug | rbt/rbt_links_bu_ext_iterative_string.c:465-510 | every leaf of the whole tree is black iff every leaf of the stack and of the bottom subtree is |
| RbBuExt.PathLeavesBlackPrefix | rbt/rbt_links_bu_ext_iterative_string.c:465-510 | a part of the stack nearer the root keeps its leaves black |
| RbBuExt.BlackenOk | rbt/rbt_links_bu_ext_iterative_string.c:229-230 | blackening the root keeps the rules and the black leaves |
| RbBuExt.RedOverLeaves | rbt/rbt_links_bu_ext_iterative_string.c:465-510 | a red node of black height one in a full tree with black leaves has two leaves under it |
| RbBuExt.RoutedSide | rbt/rbt_links_bu_ext_iterative_string.c:88-93 | along the search path the descent went left exactly where the key is at most the node key |
| RbBuExt.RootBlack | rbt/rbt_links_bu_ext_iterative_string.c:229-230 | in a valid tree with at least two levels above a node, the root is black |
| RbBuExt.StartClimb | rbt/rbt_links_bu_ext_iterative_string.c:136-152 | replacing the reached leaf by a red node over the old and the new leaf starts the climb with the old leaves plus the key |
| RbBuExt.ClimbStop | rbt/rbt_links_bu_ext_iterative_string.c:174-178 | when the parent is black or the root is reached, blackening the root gives a valid tree with the new leaves |
| RbBuExt.FlipUpLeaves | rbt/rbt_links_bu_ext_iterative_string.c:188-191 | case 1 keeps the leaves black and makes an internal node |
| RbBuExt.ClimbFlip | rbt/rbt_links_bu_ext_iterative_string.c:188-196 | after case 1 the climb continues two levels up |
| RbBuExt.TurnOuterLeaves | rbt/rbt_links_bu_ext_iterative_string.c:201-210 | case 2 keeps the leaves black |
| RbBuExt.ClimbOuter | rbt/rbt_links_bu_ext_iterative_string.c:201-210 | case 2 ends the insert with a valid tree holding the new leaves |
| RbBuExt.TurnInnerLeaves | rbt/rbt_links_bu_ext_iterative_string.c:211-220 | case 3 keeps the leaves black |
| RbBuExt.ClimbInner | rbt/rbt_links_bu_ext_iterative_string.c:211-220 | case 3 ends the insert with a valid tree holding the new leaves |
| RbBuExt.HoistOk | rbt/rbt_links_bu_ext_iterative_string.c:439-450 | removing a leaf with its parent leaves the sibling sound; one black node short when the parent was black, a tree keeping the rules when it was red |
| RbBuExt.StartMend | rbt/rbt_links_bu_ext_iterative_string.c:433-453 | deleting a leaf deeper than the root's child starts the fix-up iff the parent was black, and otherwise gives a valid tree without the key |
| RbBuExt.SiblingRoot | rbt/rbt_links_bu_ext_iterative_string.c:425-432 | when the leaf hangs under the root, the sibling alone is a valid tree without the key, unpainted |
| RbBuExt.MendRed | rbt/rbt_links_bu_ext_iterative_string.c:288-294 | a red short subtree painted black ends the delete with a sound tree without the key |
| RbBuExt.MendRoot | rbt/rbt_links_bu_ext_iterative_string.c:284-286 | a short subtree that is the root is a valid tree without the key |
| RbBuExt.RoutesLift | rbt/rbt_links_bu_ext_iterative_string.c:301-321 | case 1's rotation keeps the stack a search path for the deleted key |
| RbBuExt.MendLift | rbt/rbt_links_bu_ext_iterative_string.c:301-321 | after case 1 the fix-up goes on one level deeper under a red parent with a black sibling |
| RbBuExt.MendPush | rbt/rbt_links_bu_ext_iterative_string.c:323-331 | after case 2 the fix-up goes on at the parent |
| RbBuExt.SettleLeaves | rbt/rbt_links_bu_ext_iterative_string.c:348-350 | giving the new subtree root the parent's colour keeps the leaves black |
| RbBuExt.TurnFarLeaves | rbt/rbt_links_bu_ext_iterative_string.c:332-355 | case 3 keeps the leaves black |
| RbBuExt.TurnNearLeaves | rbt/rbt_links_bu_ext_iterative_string.c:356-370 | the first rotation of case 4 keeps the sibling's leaves black |
| RbBuExt.MendFar | rbt/rbt_links_bu_ext_iterative_string.c:332-380 | cases 3 and 4 end the delete with a sound tree without the key |
| CStrings.Tail | rbt/rbt_links_bu_ext_iterative_string.c:89-93 | the tail of a string is one byte shorter, and empty stays empty |
| CStrings.Cmp | rbt/rbt_links_bu_ext_iterative_string.c:89-93 | the `strncmp` loop yields -1, 0 or 1, and 0 only when the front bytes agree or the limit is reached |
| CStrings.Pow256 | rbt/rbt_links_bu_ext_iterative_string.c:89-93 | a power of 256 is positive |
| CStrings.RankN | rbt/rbt_links_bu_ext_iterative_string.c:89-93 | the rank of the first n bytes is below 256^n |
| CStrings.DigitBound | rbt/rbt_links_bu_ext_iterative_string.c:89-93 | a byte followed by a smaller place value stays below the next place |
| CStrings.DigitOrder | rbt/rbt_links_bu_ext_iterative_string.c:89-93 | a smaller leading byte gives a smaller rank whatever follows |
| CStrings.RankSplit | rbt/rbt_links_bu_ext_iterative_string.c:89-93 | a rank is the first byte's place value plus the rank of the rest |
| CStrings.CmpRank | rbt/rbt_links_bu_ext_iterative_string.c:89-93 | comparing n bytes as `strncmp` does agrees with comparing their ranks, both for "less" and for "equal" |
| CStrings.StrncmpRank | rbt/rbt_links_bu_ext_iterative_string.c:89-93 | `strncmp(a, b, 256)` is negative, zero or positive exactly as rank(a) is below, equal to or above rank(b) |
| CStrings.Pow10 | rbt/rbt_links_bu_ext_iterative_string.c:657 | a power of ten is positive |
| CStrings.Digits | rbt/rbt_links_bu_ext_iterative_string.c:657 | the n-digit decimal of a number below 10^n has n bytes, all digits |
| CStrings.LeadingDigit | rbt/rbt_links_bu_ext_iterative_string.c:657 | the leading decimal digit of a number below 10p and its remainder |
| CStrings.WarmupKey | rbt/rbt_links_bu_ext_iterative_string.c:657 | `sprintf(key, "%030d", x)` gives a 30-byte string |
| CStrings.DigitsSplit | rbt/rbt_links_bu_ext_iterative_string.c:657 | the decimal string is the leading digit followed by the decimal of the rest |
| CStrings.DigitsStep | rbt/rbt_links_bu_ext_iterative_string.c:657 | two zero-padded decimals compare by their leading digits first and then by their rests |
| CStrings.DigitsOrder | rbt/rbt_links_bu_ext_iterative_string.c:657 | zero-padded decimals of equal width compare under `strncmp` as their numbers do |
| CStrings.PlaceOrder | rbt/rbt_links_bu_ext_iterative_string.c:657 | numbers written as digit times place plus a smaller rest compare digit first |
| CStrings.WarmupKeyOrder | rbt/rbt_links_bu_ext_iterative_string.c:657 | the warm-up's key strings compare under `strncmp` and by rank exactly as the numbers they print |
| RbBuString.DirNext | rbt/rbt_links_bu_ext_iterative_string.c:88-93 | `dir_next` goes left iff `strncmp(node->key, key) >= 0`, that is iff the key's rank is at most the node key's |
| RbBuString.Traverse | rbt/rbt_links_bu_ext_iterative_string.c:250-258 | the descent that stacks every node it passes yields the search path and the leaf of `ExtDescend` |
| RbBuString.Lookup | rbt/rbt_links_bu_ext_iterative_string.c:96-124 | returns the number of internal nodes passed and found iff the reached leaf compares equal; on a search tree iff the key is held |
| RbBuString.InsertFixup | rbt/rbt_links_bu_ext_iterative_string.c:158-235 | from a split leaf, recolouring while the uncle is red and rotating once otherwise, then blackening the root, leaves a valid tree with a black root and the same leaves |
| RbBuString.Restructure | rbt/rbt_links_bu_ext_iterative_string.c:197-225 | case 2 (single rotation) and case 3 (double rotation) end the fix-up with a valid tree and the same leaves |
| RbBuString.Insert | rbt/rbt_links_bu_ext_iterative_string.c:237-270 | keeps the tree valid, adds exactly the key's rank to the leaves, returns 1 iff it was absent, changes nothing for a duplicate and leaves the root black after an insert |
| RbBuString.DeleteFixup | rbt/rbt_links_bu_ext_iterative_string.c:275-386 | from a subtree one black node short, cases 1-4 leave a valid tree with the same leaves |
| RbBuString.RotateAway | rbt/rbt_links_bu_ext_iterative_string.c:332-380 | cases 3 and 4 (a black sibling with a red child) end the fix-up with a valid tree |
| RbBuString.Delete | rbt/rbt_links_bu_ext_iterative_string.c:388-457 | keeps the tree valid, removes exactly the key's rank, returns 1 iff it was present and changes nothing otherwise (empty tree for a lone leaf; the sibling as root without repainting; else unlink and fix up if the parent was black) |
| RbBuString.ValidPasses | rbt/rbt_links_bu_ext_iterative_string.c:465-549 | every valid tree passes the validator |
| RbBuString.IntFitsKey | rbt/rbt_links_bu_ext_iterative_string.c:657 | every non-negative C `int` has at most 30 decimal digits |
| RbBuString.Pow10Grows | rbt/rbt_links_bu_ext_iterative_string.c:657 | powers of ten grow with the exponent |
| RbBuString.KeyString | rbt/rbt_links_bu_ext_iterative_string.c:651-657 | the key of a drawn number is its 30-byte zero-padded decimal |
| RbBuString.KeyStringRank | rbt/rbt_links_bu_ext_iterative_string.c:651-657 | two drawn numbers give equal key ranks iff they are equal and smaller ranks iff they are smaller |
| RbBuString.DrawnRanksMatch | rbt/rbt_links_bu_ext_iterative_string.c:650-668 | a number is drawn iff its key's rank is, and the warm-up draws as many distinct ranks as numbers |
| RbBuString.DrawOne | rbt/rbt_links_bu_ext_iterative_string.c:651-662 | one more draw keeps numbers and ranks in step |
| RbBuString.WarmupInsert | rbt/rbt_links_bu_ext_iterative_string.c:551-639 | the recursive warm-up insert with the root painted black keeps the tree valid, adds exactly the key's rank and returns 1 iff it was absent |
| RbBuString.WarmupHelper | rbt/rbt_links_bu_ext_iterative_string.c:643-671 | drawing numbers until `nr_nodes` inserts succeed leaves a valid tree holding the old keys and every drawn key's rank, counting exactly the new ones |
| RbBuString.WarmupRound | rbt/rbt_links_bu_ext_iterative_string.c:650-668 | one draw counts one more insert iff its key was absent |
| RbInternal.RepairRed | rbt/rbt_links_bu_int_iterative_no_sentinels.c:346-348 | a red subtree standing one black node short, painted black, gives a valid tree with the remaining keys |
| RbInternal.RepairRoot | rbt/rbt_links_bu_int_iterative_no_sentinels.c:350-352 | a black short subtree at the root is a valid tree with the remaining keys |
| RbInternal.RepairDone | rbt/rbt_links_bu_int_iterative_no_sentinels.c:465-467 | a valid tree is a finished repair, so a red node's unlinking needs no fix-up |
| RbInternal.RepairLift | rbt/rbt_links_bu_int_iterative_no_sentinels.c:359-378 | case 1 (red sibling) rotates the sibling up black over the red parent and the repair goes on one level deeper under a red parent with a black sibling |
| RbInternal.RepairPush | rbt/rbt_links_bu_int_iterative_no_sentinels.c:380-382 | case 2 (black sibling, black nephews) reddens the sibling and the repair goes on at the parent |
| RbInternal.RepairFar | rbt/rbt_links_bu_int_iterative_no_sentinels.c:383-401 | case 4's rotation of the sibling when only the near nephew is red, then case 3's rotation of the parent, give a valid tree with the remaining keys |
| RbBuInt.ValidPasses | rbt/rbt_links_bu_int_iterative_no_sentinels.c:527-566 | every tree the operations keep passes the validator, which lets a left child equal its parent |
| RbBuInt.Lookup | rbt/rbt_links_bu_int_iterative_no_sentinels.c:151-156 | found iff the descent stops at a node; on an internal search tree iff the key is held |
| RbBuInt.TraverseWithStack | rbt/rbt_links_bu_int_iterative_no_sentinels.c:126-146 | the stack and the node it stops at are exactly the search path and the stop of `IntDescend` |
| RbBuInt.RoutedSide | rbt/rbt_links_bu_int_iterative_no_sentinels.c:174-183 | along the search path the descent went left exactly where the key is below the node key, so `key < grandparent->key` finds the side |
| RbBuInt.InsertRebalance | rbt/rbt_links_bu_int_iterative_no_sentinels.c:158-254 | from a new red node on its search path, recolouring and single or double rotations with the root painted black give a valid tree with the same keys |
| RbBuInt.Insert | rbt/rbt_links_bu_int_iterative_no_sentinels.c:272-283 | keeps the tree valid, adds exactly the key and returns 1 iff it was absent |
| RbBuInt.RoutesSteer | rbt/rbt_links_bu_int_iterative_no_sentinels.c:357 | the inserted key's search path also steers the fix-up's comparisons |
| RbBuInt.SteersAppend | rbt/rbt_links_bu_int_iterative_no_sentinels.c:299-306 | two stacks that each steer the key steer it joined |
| RbBuInt.SteersPrefix | rbt/rbt_links_bu_int_iterative_no_sentinels.c:345 | popping the stack keeps it steering the key |
| RbBuInt.SteersLift | rbt/rbt_links_bu_int_iterative_no_sentinels.c:362-376 | case 1's rotation keeps the stack steering the key |
| RbBuInt.LiftKeeps | rbt/rbt_links_bu_int_iterative_no_sentinels.c:359-378 | case 1 keeps the repair invariant one level deeper, under a red parent with a black sibling |
| RbBuInt.PushKeeps | rbt/rbt_links_bu_int_iterative_no_sentinels.c:380-382 | case 2 keeps the repair invariant at the parent |
| RbBuInt.DeleteRebalance | rbt/rbt_links_bu_int_iterative_no_sentinels.c:339-451 | the fix-up loop from a subtree one black node short gives a valid tree with the remaining keys |
| RbBuInt.PaintBlack | rbt/rbt_links_bu_int_iterative_no_sentinels.c:346-348 | painting a red short subtree black ends the fix-up with a valid tree |
| RbBuInt.RotateFar | rbt/rbt_links_bu_int_iterative_no_sentinels.c:383-401 | cases 4 and 3 end the fix-up with a valid tree |
| RbBuInt.FindSuccessor | rbt/rbt_links_bu_int_iterative_no_sentinels.c:299-306 | the walk from the right child down the left links yields the stack and node of the right subtree's leftmost node |
| RbBuInt.RekeyOk | rbt/rbt_links_bu_int_iterative_no_sentinels.c:329-332 | copying the successor's key into the node keeps the red-black rules |
| RbBuInt.SuccessorStack | rbt/rbt_links_bu_int_iterative_no_sentinels.c:298-332 | after copying the successor's key, the stack down to the successor keeps the rules, steers the successor's key, and unlinking it leaves the keys without the deleted one |
| RbBuInt.Delete | rbt/rbt_links_bu_int_iterative_no_sentinels.c:453-469 | keeps the tree valid, removes exactly the key and returns 1 iff it was present; the fix-up runs only when the unlinked node was black |
| RbBuInt.WarmupHelper | rbt/rbt_links_bu_int_iterative_no_sentinels.c:568-581 | inserting `rand() % max_key` until `nr_nodes` inserts succeed gives a valid tree with the old keys and every drawn key, counting exactly the new ones |
| RbBuInt.WarmupRound | rbt/rbt_links_bu_int_iterative_no_sentinels.c:572-578 | one draw adds its key and counts one more insert iff the key was absent |
| RbBuSentinel.NewTree | rbt/rbt_links_bu_int_iterative.c:67-88 | the new tree, only the head sentinel, is valid and holds nothing |
| RbBuSentinel.ValidPasses | rbt/rbt_links_bu_int_iterative.c:406-488 | every tree the operations keep passes the validator, which wants a left child strictly below its parent |
| RbBuSentinel.FindNode | rbt/rbt_links_bu_int_iterative.c:371-386 | the descent stops on the search path at the node holding the key, and on a search tree finds a node iff the key is held |
| RbBuSentinel.Lookup | rbt/rbt_links_bu_int_iterative.c:133-147 | found iff the key is held (a sentinel is recognised by what it is; the key test as written is `LookupAsWritten`) |
| RbBuSentinel.BinaryInsert | rbt/rbt_links_bu_int_iterative.c:198-230 | links a node iff the key is absent, at the sentinel its search path ends in, giving a search tree with the key added |
| RbBuSentinel.FixingStarts | rbt/rbt_links_bu_int_iterative.c:236-239 | a new red node linked into a valid tree starts the insert fix-up's invariant |
| RbBuSentinel.FlipKeeps | rbt/rbt_links_bu_int_iterative.c:157-161 | case 1 (red uncle) keeps the invariant two levels up |
| RbBuSentinel.InnerKeeps | rbt/rbt_links_bu_int_iterative.c:163-166 | case 2 rotates the parent so that the red pair lies on the outside, keeping the invariant |
| RbBuSentinel.Settled | rbt/rbt_links_bu_int_iterative.c:167-169 | case 3's rotation leaves the stack one shorter, unchanged above the grandparent's place, with a black node in it |
| RbBuSentinel.OuterKeeps | rbt/rbt_links_bu_int_iterative.c:167-169 | case 3 keeps the invariant with a black parent, which ends the loop |
| RbBuSentinel.FixingEnds | rbt/rbt_links_bu_int_iterative.c:190-192 | once the parent is black, painting a red root black gives a valid tree with the new keys |
| RbBuSentinel.InsertFixup | rbt/rbt_links_bu_int_iterative.c:152-193 | the fix-up from a new red node gives a valid tree with the same keys |
| RbBuSentinel.Insert | rbt/rbt_links_bu_int_iterative.c:232-243 | keeps the tree valid, adds exactly the key and counts 1 iff it was absent |
| RbBuSentinel.DeleteFixup | rbt/rbt_links_bu_int_iterative.c:248-315 | from a node one black node short, cases 1-4 and the final blackening give a valid tree with the remaining keys |
| RbBuSentinel.TurnToRoot | rbt/rbt_links_bu_int_iterative.c:266-279 | cases 4 and 3 end the loop at the root with a valid tree |
| RbBuSentinel.MinimumNode | rbt/rbt_links_bu_int_iterative.c:317-328 | yields the sentinel for an empty subtree and otherwise the leftmost node and the stack down to it |
| RbBuSentinel.RekeyOk | rbt/rbt_links_bu_int_iterative.c:360-363 | copying the successor's key and data into the node keeps the red-black rules |
| RbBuSentinel.SuccessorStack | rbt/rbt_links_bu_int_iterative.c:340-363 | for a node with two children, the stack down to its successor keeps the rules, and unlinking the successor leaves the keys without the deleted one |
| RbBuSentinel.DoDelete | rbt/rbt_links_bu_int_iterative.c:330-369 | splicing out the node or its successor, with the fix-up when the spliced node was black, gives a valid tree without the key |
| RbBuSentinel.Delete | rbt/rbt_links_bu_int_iterative.c:388-398 | keeps the tree valid, removes exactly the key and returns 1 iff it was present |
| RbBuSentinel.WarmupHelper | rbt/rbt_links_bu_int_iterative.c:490-514 | inserting `rand() % max_key` until `nr_nodes` inserts succeed gives a valid tree with the old keys and every drawn key, counting exactly the new ones |
| RbBuSentinel.WarmupRound | rbt/rbt_links_bu_int_iterative.c:497-511 | one draw adds its key and counts one more insert iff the key was absent |
| RbBuSentinel.WarmupAvoidsSentinelKey | rbt/rbt_links_bu_int_iterative.c:498 | no key the warm-up draws is SENTINEL_KEY |
| RbBuSentinel.DescendAsWritten | rbt/rbt_links_bu_int_iterative.c:136-144 | the descent whose sentinel test reads the key stays on the search path and stops at a node passing that test or holding the key; without a real node keyed SENTINEL_KEY it is the plain descent |
| RbBuSentinel.LookupAsWritten | rbt/rbt_links_bu_int_iterative.c:133-147 | the lookup as written finds only keys that are held and are not SENTINEL_KEY, and finds every held key when no node is keyed SENTINEL_KEY |
| RbBuSentinel.BinaryInsertAsWritten | rbt/rbt_links_bu_int_iterative.c:198-230 | the insert as written changes nothing when it links nothing, and without a node keyed SENTINEL_KEY links exactly the absent keys |
| RbBuSentinel.FindsWithoutSentinelKey | rbt/rbt_links_bu_int_iterative.c:49 | without a node keyed SENTINEL_KEY the key test tells sentinels apart |
| RbBuSentinel.SentinelKeyNotFound | rbt/rbt_links_bu_int_iterative.c:49-50 | once SENTINEL_KEY is inserted, the lookup as written does not find it |
| RbBuSentinel.SentinelKeyDropped | rbt/rbt_links_bu_int_iterative.c:207-221 | inserting 5 after SENTINEL_KEY hangs it where the real node stood, losing SENTINEL_KEY |
| RbJsw.MakeNode | rbt/rbt_mappouras_fg_tsx.c:48-60 | a new node is a red node with no children holding just the key, valid with black height 0 |
| RbJsw.JswSingle | rbt/rbt_mappouras_fg_tsx.c:30-41 | the single rotation lifts the child opposite `dir` black over the old root turned red, and has the shape of a plain rotation |
| RbJsw.JswDouble | rbt/rbt_mappouras_fg_tsx.c:43-46 | the double rotation lifts the inner grandchild black over two red nodes, and has the shape of a double rotation |
| RbJsw.JswRotationsKeep | rbt/rbt_mappouras_fg_tsx.c:30-46 | both rotations keep the keys and the search order |
| RbJsw.Lookup2 | rbt/rbt_mappouras_fg_tsx.c:724-742 | on a non-empty tree returns 1 iff the descent stops at a node, on a search tree iff the key is held |
| RbJsw.RbAssert | rbt/rbt_mappouras_fg_tsx.c:886-926 | `jsw_rb_assert` is non-zero iff the tree keeps the red-black rules with keys strictly increasing from left to right, and then it is the black height plus one |
| RbJsw.ValidPasses | rbt/rbt_mappouras_fg_tsx.c:1122-1128 | every tree the operations keep passes `jsw_rb_assert` with its black height plus one |
| RbJsw.Visit | rbt/rbt_mappouras_fg_tsx.c:86-97 | the node the insert stands on after linking a new node or flipping colours holds the key it had, or the new key |
| RbJsw.UnderRed | rbt/rbt_mappouras_fg_tsx.c:99-107 | under a red parent the node and its sibling are black, and the grandparent is black |
| RbJsw.SwapOk | rbt/rbt_mappouras_fg_tsx.c:92-97 | replacing a subtree by one of the same black height keeps the rules unless it puts red under red |
| RbJsw.VisitFacts | rbt/rbt_mappouras_fg_tsx.c:86-97 | linking a new red node adds exactly the missing key, and a colour flip keeps shape, keys and black height with both children black |
| RbJsw.NewLeafVisit | rbt/rbt_mappouras_fg_tsx.c:86-91 | a new node is linked only where the key is missing, adding exactly that key |
| RbJsw.NodeVisit | rbt/rbt_mappouras_fg_tsx.c:92-97 | the colour flip keeps keys, shape and black height and leaves no red pair below |
| RbJsw.FlipQuiets | rbt/rbt_mappouras_fg_tsx.c:92-97 | a flip of a node with two red children leaves both children black and no red pair under it |
| RbJsw.FixFacts | rbt/rbt_mappouras_fg_tsx.c:99-107 | a red violation after the visit happens only under a black grandparent with a black uncle, at a node that was just linked or flipped |
| RbJsw.Descend | rbt/rbt_mappouras_fg_tsx.c:113-120 | stepping down keeps the insert invariant and the tree |
| RbJsw.NoFixStep | rbt/rbt_mappouras_fg_tsx.c:99-111 | without a red violation the walk stays where it is, with the keys and the rules kept |
| RbJsw.NoFixDescend | rbt/rbt_mappouras_fg_tsx.c:113-120 | without a red violation, stepping down keeps the invariant and shortens the remaining walk |
| RbJsw.SingleRb | rbt/rbt_mappouras_fg_tsx.c:103-104 | the single rotation at the grandparent removes an outer red violation and keeps the black height |
| RbJsw.DoubleRb | rbt/rbt_mappouras_fg_tsx.c:105-106 | the double rotation at the grandparent removes an inner red violation and keeps the black height |
| RbJsw.FixLands | rbt/rbt_mappouras_fg_tsx.c:101-106 | the rotated subtree hung back under `t` gives a search tree that keeps the rules and holds the keys plus the new one |
| RbJsw.SingleFixStep | rbt/rbt_mappouras_fg_tsx.c:103-104 | after the single rotation the walk continues from the rotated subtree with keys and rules kept |
| RbJsw.SingleFixTop | rbt/rbt_mappouras_fg_tsx.c:103-104 | the single rotation's tree is ordered, keeps the rules and holds the keys plus the new one |
| RbJsw.DoubleFixStep | rbt/rbt_mappouras_fg_tsx.c:105-106 | after the double rotation the walk continues from its new root |
| RbJsw.DoubleDescend | rbt/rbt_mappouras_fg_tsx.c:105-120 | after the double rotation, stepping down keeps the invariant and shortens the remaining walk |
| RbJsw.RootBlack | rbt/rbt_mappouras_fg_tsx.c:127-128 | painting the root black gives a valid tree with the same keys |
| RbJsw.InsertVisit | rbt/rbt_mappouras_fg_tsx.c:86-111 | one pass of the loop body keeps the tree's keys and rules and links a node iff it stood at NULL |
| RbJsw.Insert2 | rbt/rbt_mappouras_fg_tsx.c:62-131 | keeps the tree valid, adds exactly the key and returns 1 iff it was absent |
| RbJsw.TopFrame | rbt/rbt_mappouras_fg_tsx.c:411-414 | the node rotated up stays red above the parent, with the other side black |
| RbJsw.ParentFrame | rbt/rbt_mappouras_fg_tsx.c:411-414 | the old parent ends black below it |
| RbJsw.FrameParts | rbt/rbt_mappouras_fg_tsx.c:390 | both children of a node keep the rules at equal black height, and a red node's are black |
| RbJsw.RedUnderBlack | rbt/rbt_mappouras_fg_tsx.c:398-401 | a black node with black children repainted red loses one black level |
| RbJsw.BlackOver | rbt/rbt_mappouras_fg_tsx.c:399 | a black node over two balanced subtrees is one black level higher |
| RbJsw.TwoLevelsOk | rbt/rbt_mappouras_fg_tsx.c:411-414 | a red node over a black node over the red `q` keeps the rules and the black height |
| RbJsw.RemoveFlipRb | rbt/rbt_mappouras_fg_tsx.c:397-402 | the remove's colour flip keeps the rules and the black height |
| RbJsw.RotateRbSingle | rbt/rbt_mappouras_fg_tsx.c:408-414 | the single rotation at the parent, with the recolouring, keeps the rules and the black height and reddens `q` |
| RbJsw.RotateRbDouble | rbt/rbt_mappouras_fg_tsx.c:406-414 | the double rotation at the parent, with the recolouring, keeps the rules and the black height and reddens `q` |
| RbJsw.PushAtQ | rbt/rbt_mappouras_fg_tsx.c:391-392 | rotating `q`'s red child up keeps the keys and leaves the walk at `q`, now red |
| RbJsw.PushFlip | rbt/rbt_mappouras_fg_tsx.c:397-402 | the flip reddens `q` and keeps the keys |
| RbJsw.RemoveTop | rbt/rbt_mappouras_fg_tsx.c:404-409 | the node rotated to the parent's place is the sibling's red near child if it has one, else the sibling |
| RbJsw.RotatedRb | rbt/rbt_mappouras_fg_tsx.c:404-414 | rotating at the parent and recolouring keeps the rules and the black height |
| RbJsw.RotatedOrder | rbt/rbt_mappouras_fg_tsx.c:404-414 | rotating at the parent keeps the search order and the keys |
| RbJsw.PushRotate | rbt/rbt_mappouras_fg_tsx.c:404-414 | the rotation reddens `q` and keeps the keys |
| RbJsw.BlackHasSibling | rbt/rbt_mappouras_fg_tsx.c:394-396 | a black `q` below the root has a sibling |
| RbJsw.PushRed | rbt/rbt_mappouras_fg_tsx.c:389-418 | pushing a red down leaves `q` red or with a red child on the way, keeping the keys, `q`'s key and the child the walk goes to |
| RbJsw.RemoveDescend | rbt/rbt_mappouras_fg_tsx.c:377-383 | stepping down keeps the walk's invariant |
| RbJsw.RemoveStep | rbt/rbt_mappouras_fg_tsx.c:383-387 | the key is below the new `q` iff `q` holds it or it lies on the way down, and the remaining height shrinks |
| RbJsw.OnWay | rbt/rbt_mappouras_fg_tsx.c:383-387 | in a search tree a key is held iff it is at the node or down the way the comparison picks |
| RbJsw.Rekey | rbt/rbt_mappouras_fg_tsx.c:423 | copying the last node's key into the found node changes only that key on the stack |
| RbJsw.Splice | rbt/rbt_mappouras_fg_tsx.c:424-425 | unlinking a node with at most one child hangs that child in its place |
| RbJsw.RightSpine | rbt/rbt_mappouras_fg_tsx.c:422-425 | when every key is below the removed key, the last node holds the largest key |
| RbJsw.PredecessorSplice | rbt/rbt_mappouras_fg_tsx.c:422-425 | moving the predecessor's key into the found node and unlinking the predecessor keeps the order and removes the key |
| RbJsw.SpineSplice | rbt/rbt_mappouras_fg_tsx.c:422-425 | unlinking the last node of the search path removes its key and keeps the order |
| RbJsw.RemoveFoundOrder | rbt/rbt_mappouras_fg_tsx.c:421-427 | copying the last node's key into the found one and unlinking the last node keeps the order and removes exactly the key |
| RbJsw.FoundOnPath | rbt/rbt_mappouras_fg_tsx.c:421-427 | the same when the found node lies on the stack |
| RbJsw.FoundAtFrame | rbt/rbt_mappouras_fg_tsx.c:421-427 | the same when the found node is the first frame |
| RbJsw.FoundAtRoot | rbt/rbt_mappouras_fg_tsx.c:421-427 | the same when the last node is itself the found one |
| RbJsw.FoundBelow | rbt/rbt_mappouras_fg_tsx.c:421-427 | the same when the found node lies below the first frame |
| RbJsw.RekeyFits | rbt/rbt_mappouras_fg_tsx.c:423 | changing a key changes no colour and no black height |
| RbJsw.SpliceRb | rbt/rbt_mappouras_fg_tsx.c:424-425 | unlinking the red last node keeps the rules |
| RbJsw.RemoveFound | rbt/rbt_mappouras_fg_tsx.c:421-427 | removing a found key gives an ordered tree keeping the rules, without the key |
| RbJsw.Remove2 | rbt/rbt_mappouras_fg_tsx.c:364-436 | keeps the tree valid, removes exactly the key, and returns 1 whether or not the key was there |
| RbJsw.WarmupHelper | rbt/rbt_mappouras_fg_tsx.c:963-977 | inserting `rand() % max_key` until `nr_nodes` inserts succeed gives a valid tree with the old keys and every drawn key, counting exactly the new ones |
| RbJsw.WarmupRound | rbt/rbt_mappouras_fg_tsx.c:969-974 | one draw adds its key and counts one more insert iff the key was absent |
| HashTable.CRem | rbt/rbt_links_bu_ext_rcu_htm.c:13 | C's `%` by 16: the remainder differs from the operand by a multiple of 16, lies strictly between -16 and 16 and takes the operand's sign |
| HashTable.MultipleRem | rbt/rbt_links_bu_ext_rcu_htm.c:13 | a multiple of 16 leaves no remainder |
| HashTable.Bucket | rbt/rbt_links_bu_ext_rcu_htm.c:13 | the bucket number lies strictly between -16 and 16 and is not negative for a non-negative key |
| HashTable.BucketPeriodic | rbt/rbt_links_bu_ext_rcu_htm.c:13 | non-negative keys 256 apart share a bucket |
| HashTable.Find | rbt/rbt_links_bu_ext_rcu_htm.c:54-56 | the scan finds nothing iff no pair holds the key, and otherwise the value of the earliest pair with the key |
| HashTable.FindAppend | rbt/rbt_links_bu_ext_rcu_htm.c:36-47 | an appended pair never hides an earlier pair with the same key |
| HashTable.Table.constructor | rbt/rbt_links_bu_ext_rcu_htm.c:20-29 | a new table has every bucket empty and every slot zeroed |
| HashTable.Table.Reset | rbt/rbt_links_bu_ext_rcu_htm.c:31-34 | resetting empties every bucket and leaves the slots as they were |
| HashTable.Table.Insert | rbt/rbt_links_bu_ext_rcu_htm.c:36-47 | the pair is appended to its bucket, written into the next two slots, and nothing else changes |
| HashTable.Table.Get | rbt/rbt_links_bu_ext_rcu_htm.c:49-59 | returns the value of the earliest pair with the key in its bucket, or NULL |
| PointerWord.AddrIsValid | rbt/rbt_natarajan_ext.h:30 | an address is valid iff its two low bits are 0 |
| PointerWord.Combine | rbt/rbt_natarajan_ext.h:31-32 | an aligned address and a two-bit flag are recovered from the combined word |
| PointerWord.GetAddr | rbt/rbt_natarajan_ext.h:33 | the address is aligned, at or at most 3 below the word |
| PointerWord.GetFlag | rbt/rbt_natarajan_ext.h:34 | the flag is below 4 and adds to the address to give the word |
| PointerWord.SplitCombine | rbt/rbt_natarajan_ext.h:31-34 | every word is the combination of its address and its flag |
| PointerWord.FlagWord | rbt/rbt_natarajan_ext.h:56-59 | FREE is 0 and OWNED 1 |
| PointerWord.PointerNode.Flag | rbt/rbt_natarajan_ext.h:37 | the flag reads as FREE or OWNED iff its bits are 0 or 1, and gives those bits back |
| PointerWord.PointerNode.SetFlag | rbt/rbt_natarajan_ext.h:40-43 | the flag bits are replaced and the address kept |
| PointerWord.NewPointerNode | rbt/rbt_natarajan_ext.h:63-75 | fails iff the address is not aligned, and otherwise makes a fresh node with that address and flag |
| PointerWord.DataNode.constructor | rbt/rbt_natarajan_ext.h:116-127 | a new data node holds the colour, key and value, with null links and zeroed records |
| PointerWord.DataNode.NextChild | rbt/rbt_natarajan_ext.h:89-90 | the link the external search for the key follows: left iff the key is at most the node's |
| PointerWord.DataNode.OtherChild | rbt/rbt_natarajan_ext.h:93-94 | the other link, so the two name both links |
| AverageNThreads.Step | scripts/get_average_nthreads.py:19-27 | reading one line keeps the state's invariant and never drops a thread count |
| AverageNThreads.Run | scripts/get_average_nthreads.py:17-29 | reading lines keeps the invariant and never drops a thread count |
| AverageNThreads.FlattenSplit | scripts/get_average_nthreads.py:14 | reading the files one after another reads their lines in order |
| AverageNThreads.RunAppend | scripts/get_average_nthreads.py:14-29 | reading two runs of lines is reading the first and then the second from where it stopped, and an error ends the reading |
| AverageNThreads.OtherLinesIgnored | scripts/get_average_nthreads.py:21-27 | a line starting with neither prefix changes nothing |
| AverageNThreads.BucketsHoldSamples | scripts/get_average_nthreads.py:21-27 | after a successful read the dictionary's keys are exactly the announced thread counts, each holding the samples read while it was the current one, and the current count is the last announced |
| AverageNThreads.DescribesStep | scripts/get_average_nthreads.py:21-27 | one more line keeps the state describing the lines read |
| AverageNThreads.UnannouncedHasNoSamples | scripts/get_average_nthreads.py:21-27 | a thread count never announced has no samples |
| AverageNThreads.LastIsAnnounced | scripts/get_average_nthreads.py:21-24 | the current thread count has been announced |
| AverageNThreads.SampleWithoutContextFails | scripts/get_average_nthreads.py:25-27 | a throughput line before any "  num_threads:" line makes the script fail, as `nthreads` is then undefined |
| AverageNThreads.NoAnnouncementNoContext | scripts/get_average_nthreads.py:21-24 | without any "  num_threads:" line there is no current thread count |
| AverageNThreads.Averages | scripts/get_average_nthreads.py:31-34 | the report fails with ZeroDivisionError iff some announced thread count has no sample, and otherwise lists every thread count once in ascending order with the mean of its samples |
| AverageNThreads.SortedAverages | scripts/get_average_nthreads.py:31-34 | reporting the keys in ascending order gives that report |
| AverageNThreads.SameElements | scripts/get_average_nthreads.py:31-32 | sorting keeps the keys |
| AverageNThreads.AveragesOf | scripts/get_average_nthreads.py:33-34 | for the given key order, fails iff some key has no sample and otherwise pairs each key with the mean of its samples |
| AverageNThreads.Report | scripts/get_average_nthreads.py:31-34 | the printing loop computes that report |
| AverageNThreads.MeanBetween | scripts/get_average_nthreads.py:9-10 | `avg(a)` lies between any lower and any upper bound of the samples |
| AverageNThreads.SumBetween | scripts/get_average_nthreads.py:10 | the sum of n samples bounded by lo and hi lies between n*lo and n*hi |
| AverageNThreads.MeansInOrder | scripts/get_average_nthreads.py:33-34 | the loop over the keys computes the means in order |
| AverageNThreads.ReadLine | scripts/get_average_nthreads.py:19-27 | reading a line is `Step` |
| AverageNThreads.AverageByThreads | scripts/get_average_nthreads.py:5-34 | the whole script computes the sorted report of all files' lines, or the error that stopped it |
| AverageNThreads.ReadLines | scripts/get_average_nthreads.py:17-29 | the read loop computes the reading of all lines |
| AverageNThreads.ReadNext | scripts/get_average_nthreads.py:18-29 | one pass of the loop reads one more line |
| AverageNThreads.NextLine | scripts/get_average_nthreads.py:18-29 | the reading of one more line is one more `Step` |
| AverageNThreads.LaterLines | scripts/get_average_nthreads.py:18-29 | once reading has failed, later lines change nothing |
| AverageNThreads.FlattenNext | scripts/get_average_nthreads.py:14 | one more file appends its lines |
| AverageNThreads.RunLastLine | scripts/get_average_nthreads.py:18-29 | reading one more line is one `Step` from the state before |
| AverageNThreads.FailureSticks | scripts/get_average_nthreads.py:14-29 | a failure in one file is the script's failure |
| PlotNThreads.Power | scripts/plot-nthreads-VS-throughput_averages.py:14-20 | a power of a positive base is positive |
| PlotNThreads.Scale | scripts/plot-nthreads-VS-throughput_averages.py:14-20 | dividing while the quotient is at least 1 fails with an exit iff a remainder is met, and otherwise leaves a mantissa below the divider, at least 1 when divided at all |
| PlotNThreads.ScaleSound | scripts/plot-nthreads-VS-throughput_averages.py:14-20 | the mantissa times the divider to the count of divisions gives the number back |
| PlotNThreads.ScaleStep | scripts/plot-nthreads-VS-throughput_averages.py:14-20 | one division shifts the count of divisions by one |
| PlotNThreads.PrefixLargeNumber | scripts/plot-nthreads-VS-throughput_averages.py:9-22 | the loop computes the label of the number |
| PlotNThreads.ScaleOfMultiple | scripts/plot-nthreads-VS-throughput_averages.py:14-20 | a mantissa below the divider times a power of it is scaled back to that mantissa and power |
| PlotNThreads.LabelRoundTrip | scripts/plot-nthreads-VS-throughput_averages.py:9-22 | reading the label back as a number with a K, M or G suffix gives the number |
| PlotNThreads.EndsInDigit | scripts/plot-nthreads-VS-throughput_averages.py:22 | the decimal of a number ends in a digit, so a prefix letter can be told apart |
| PlotNThreads.AddArrays | scripts/plot-nthreads-VS-throughput_averages.py:27 | numpy's elementwise sum fails with ValueError iff the lengths differ and neither is 1, and adds equal-length arrays elementwise |
| PlotNThreads.GetAverage | scripts/plot-nthreads-VS-throughput_averages.py:24-30 | the loop computes the elementwise average of the runs |
| PlotNThreads.SumFailureSticks | scripts/plot-nthreads-VS-throughput_averages.py:26-27 | once a sum has failed the result stays failed |
| PlotNThreads.AverageOfEqualRuns | scripts/plot-nthreads-VS-throughput_averages.py:24-30 | runs of equal length average to their column sums divided by the number of runs |
| PlotNThreads.ColumnSums | scripts/plot-nthreads-VS-throughput_averages.py:25-27 | summing runs of equal length gives the column sums |
| PlotNThreads.FirstMatch | scripts/plot-nthreads-VS-throughput_averages.py:32-74 | the style is the one of the first rule whose pattern the name contains, or the error style when none does |
| PlotNThreads.LabelOf | scripts/plot-nthreads-VS-throughput_averages.py:32-74 | the if/elif chain gives the style of the first rule, in table order, whose pattern the name contains, and the error style when it contains none |
| PlotNThreads.Skip | scripts/plot-nthreads-VS-throughput_averages.py:32-74 | rules whose pattern is not in the name can be skipped |
| PlotNThreads.UnknownNameGetsErrorLabel | scripts/plot-nthreads-VS-throughput_averages.py:68-72 | a name matching no pattern gets "ERROR LABEL", which no known pattern gives |
| PlotNThreads.ErrorLabelUnused | scripts/plot-nthreads-VS-throughput_averages.py:33-72 | no rule's legend is "ERROR LABEL" |
| PlotNThreads.Basename | scripts/plot-nthreads-VS-throughput_averages.py:84 | the base name is the part after the last slash |
| PlotNThreads.JoinAppend | scripts/plot-nthreads-VS-throughput_averages.py:84 | joining two lists is joining each with a separator between |
| PlotNThreads.GroupKeyDropsTwoFields | scripts/plot-nthreads-VS-throughput_averages.py:84 | the group key is the base name without its last two dot-separated fields, or empty when there are at most two |
| PlotNThreads.GroupKeyIsPrefix | scripts/plot-nthreads-VS-throughput_averages.py:84 | the group key is a prefix of the file's base name, so it has no slash |
| PlotNThreads.PrefixKeepsOut | scripts/plot-nthreads-VS-throughput_averages.py:84 | a character missing from a string is missing from its prefixes |
| PlotNThreads.JoinInitIsPrefix | scripts/plot-nthreads-VS-throughput_averages.py:84 | joining all fields but the last two gives a prefix of joining them all |
| PlotNThreads.DropLastTwo | scripts/plot-nthreads-VS-throughput_averages.py:84 | joining all fields is joining all but two and then the last two |
| PlotNThreads.LineStep | scripts/plot-nthreads-VS-throughput_averages.py:94-105 | a line never touches the groups |
| PlotNThreads.Scan | scripts/plot-nthreads-VS-throughput_averages.py:92-107 | reading a file's lines never touches the groups |
| PlotNThreads.OpenFile | scripts/plot-nthreads-VS-throughput_averages.py:84-90 | opening a file creates its group if it is new, keeping the invariant |
| PlotNThreads.FileStep | scripts/plot-nthreads-VS-throughput_averages.py:81-110 | reading a file keeps the invariant |
| PlotNThreads.ReadAll | scripts/plot-nthreads-VS-throughput_averages.py:81-110 | reading all files keeps the invariant |
| PlotNThreads.ReadAllAfter | scripts/plot-nthreads-VS-throughput_averages.py:81-110 | after one more file either the files so far have been read, or the failure is the result of the whole read |
| PlotNThreads.ReadNext | scripts/plot-nthreads-VS-throughput_averages.py:81-110 | one pass of the loop over files reads the next file and keeps the invariant, or yields the error that ends the whole read |
| PlotNThreads.ScanFillsAxes | scripts/plot-nthreads-VS-throughput_averages.py:94-98 | after a file the axes hold exactly its thread counts and throughputs in order |
| PlotNThreads.StepFillsAxes | scripts/plot-nthreads-VS-throughput_averages.py:95-98 | one line appends its thread count or throughput |
| PlotNThreads.FileStepParts | scripts/plot-nthreads-VS-throughput_averages.py:84-109 | reading a file is opening its group, scanning the lines and appending the throughputs |
| PlotNThreads.FileAppendsRun | scripts/plot-nthreads-VS-throughput_averages.py:109 | the file's throughputs are appended as one run to its group, and the thread axis is the last file's |
| PlotNThreads.FileKeepsOtherGroups | scripts/plot-nthreads-VS-throughput_averages.py:86-109 | reading a file changes no other group and adds only its own |
| PlotNThreads.Title | scripts/plot-nthreads-VS-throughput_averages.py:130 | the title fails with NameError when no maximum key was read, fails when the key count cannot be labelled or no lookup percentage was read, and otherwise ends with the lookup percentage followed by "% lookups" |
| PlotNThreads.AppendRunKeeps | scripts/plot-nthreads-VS-throughput_averages.py:109 | appending a run changes no other group |
| PlotNThreads.DeletesFromLastLookup | scripts/plot-nthreads-VS-throughput_averages.py:101-103 | an insert line before any lookup line is a NameError, and otherwise sets the delete percentage to 100 minus both |
| PlotNThreads.InsertLineIsNoOther | scripts/plot-nthreads-VS-throughput_averages.py:95-103 | an insert line matches no earlier branch |
| PlotNThreads.Curves | scripts/plot-nthreads-VS-throughput_averages.py:116-121 | one curve per group in order, the group's label and average, or the first group's averaging error |
| PlotNThreads.ReadLine | scripts/plot-nthreads-VS-throughput_averages.py:94-105 | reading a line is `LineStep` |
| PlotNThreads.ScanFailureSticks | scripts/plot-nthreads-VS-throughput_averages.py:93-107 | once a line fails, the file fails |
| PlotNThreads.ReadAllFailureSticks | scripts/plot-nthreads-VS-throughput_averages.py:81-110 | once a file fails, the script fails |
| PlotNThreads.ReadAllNext | scripts/plot-nthreads-VS-throughput_averages.py:81-110 | one more file is one more `FileStep` |
| PlotNThreads.ReadFile | scripts/plot-nthreads-VS-throughput_averages.py:82-110 | the file's loop computes `FileStep` |
| PlotNThreads.ScanLines | scripts/plot-nthreads-VS-throughput_averages.py:92-107 | the line loop computes `Scan` |
| PlotNThreads.ScanOne | scripts/plot-nthreads-VS-throughput_averages.py:93-107 | one pass reads one more line |
| PlotNThreads.ScanNextLine | scripts/plot-nthreads-VS-throughput_averages.py:93-107 | scanning one more line is one more `LineStep` |
| PlotNThreads.ReadFiles | scripts/plot-nthreads-VS-throughput_averages.py:81-110 | the file loop computes `ReadAll` |
| PlotNThreads.Draw | scripts/plot-nthreads-VS-throughput_averages.py:113-141 | the figure holds the curves, the thread axis of the last file, the title and the output file, or the first error met |
| PlotNThreads.CurvesNext | scripts/plot-nthreads-VS-throughput_averages.py:116-121 | one more group adds its curve |
| PlotNThreads.CurvesFailureSticks | scripts/plot-nthreads-VS-throughput_averages.py:116-117 | a group whose average fails is the drawing's error |
| PlotNThreads.CurvesExtend | scripts/plot-nthreads-VS-throughput_averages.py:116-117 | a failed drawing stays failed |
| PlotNThreads.CurvesStayFailed | scripts/plot-nthreads-VS-throughput_averages.py:116-117 | a failed prefix of the groups fails the drawing |
| PlotNThreads.PlotNThreadsScript | scripts/plot-nthreads-VS-throughput_averages.py:78-141 | the whole script computes the figure of all files, or the error that stopped it |
| PlotBars.CheckArgs | scripts/plotbars_performance_evaluation.py:20-35 | the checks pass iff all four environment lists are non-empty, there are exactly two arguments and the type is one of the three names, and otherwise exit |
| PlotBars.LineStep | scripts/plotbars_performance_evaluation.py:44-54 | a measurement line is read iff it has four fields and a number last, else ValueError |
| PlotBars.ReadLoop | scripts/plotbars_performance_evaluation.py:43-56 | reading the measurement lines can fail only with ValueError |
| PlotBars.ReadLoopOk | scripts/plotbars_performance_evaluation.py:43-56 | reading succeeds iff every line is well formed |
| PlotBars.ReadLoopLast | scripts/plotbars_performance_evaluation.py:43-56 | reading one more line succeeds iff the reading before did and the line is well formed |
| PlotBars.ReadLoopBuckets | scripts/plotbars_performance_evaluation.py:46-54 | after reading, each key of the dictionary holds exactly the throughputs of the lines with that key, in order, and no other key is present |
| PlotBars.AddSample | scripts/plotbars_performance_evaluation.py:44-54 | the loop body computes `LineStep` |
| PlotBars.ReadSamples | scripts/plotbars_performance_evaluation.py:42-56 | the read loop computes `ReadLoop` |
| PlotBars.ReadSample | scripts/plotbars_performance_evaluation.py:43-56 | one pass reads one more line |
| PlotBars.ReadNextLine | scripts/plotbars_performance_evaluation.py:43-56 | reading one more line is one more `LineStep` |
| PlotBars.ReadFailureSticks | scripts/plotbars_performance_evaluation.py:43-56 | once a line fails, the reading fails |
| PlotBars.Row | scripts/plotbars_performance_evaluation.py:67-71 | a category's row fails with KeyError iff some executable has no bucket for it, and otherwise holds each executable's geomean in order |
| PlotBars.Rows | scripts/plotbars_performance_evaluation.py:58-78 | the rows fail with KeyError iff some executable lacks a bucket for some category, and otherwise hold the geomean of each category and executable |
| PlotBars.BuildRow | scripts/plotbars_performance_evaluation.py:67-71 | the inner loop computes `Row` |
| PlotBars.RowsFail | scripts/plotbars_performance_evaluation.py:58-78 | a failed row fails all rows |
| PlotBars.RowsNext | scripts/plotbars_performance_evaluation.py:58-78 | one more category appends its row |
| PlotBars.Aggregate | scripts/plotbars_performance_evaluation.py:58-78 | the three loops compute the rows for the categories of the statistic |
| PlotBars.MinLength | scripts/plotbars_performance_evaluation.py:80 | `zip` stops at the shortest row |
| PlotBars.Zip | scripts/plotbars_performance_evaluation.py:80 | the i-th column holds the i-th entry of every row, for as many columns as the shortest row has entries |
| PlotBars.ZipTwice | scripts/plotbars_performance_evaluation.py:80 | zipping rows of equal length twice gives them back |
| PlotBars.Series | scripts/plotbars_performance_evaluation.py:106-109 | the bars fail with IndexError iff there are more columns than colours or labels, and otherwise column i is drawn at offset i times the width with colour, hatch and label i |
| PlotBars.ThreadCount | scripts/plotbars_performance_evaluation.py:41 | reading the header fails with IndexError iff it has fewer than three tokens, otherwise with ValueError or with a number bounded by the third token's length |
| PlotBars.ThreadCountReadsThirdToken | scripts/plotbars_performance_evaluation.py:41 | a header whose third token is `str(n)` announces n threads |
| PlotBars.Key | scripts/plotbars_performance_evaluation.py:46-51 | the dictionary key starts with the executable and is exactly the executable iff the statistic is "total" |
| PlotBars.KeySeparates | scripts/plotbars_performance_evaluation.py:46-51 | for executables without '_', two lines share a key only if they agree on the executable and on the field the statistic groups by |
| PlotBars.SplitAtFirstSep | scripts/plotbars_performance_evaluation.py:48-51 | `a + "_" + x` determines `a` and `x` when `a` has no '_' |
| PlotBars.FirstSepAt | scripts/plotbars_performance_evaluation.py:48-51 | the first '_' of `a + "_" + x` is right after `a` when `a` has no '_' |
| PlotBars.Ticks | scripts/plotbars_performance_evaluation.py:95-104 | there is one tick per tree size, one for "total" (the title's thread label) and one per workload, each workload tick ending in "% lookups" |
| PlotBars.FirstField | scripts/plotbars_performance_evaluation.py:102 | the first part of a split is the text before the first separator |
| PlotBars.WorkloadTicks | scripts/plotbars_performance_evaluation.py:101-104 | each workload tick is the workload's text up to its first underscore followed by "% lookups" |
| PlotBars.PlotBarsScript | scripts/plotbars_performance_evaluation.py:12-119 | the whole script computes the chart, or the error that stopped it |
| PlotBars.SeriesPerExecutable | scripts/plotbars_performance_evaluation.py:58-109 | there is one bar series per executable, labelled in order, whose heights are the geomeans of that executable's buckets per category |
| PlotBars.ZippedSeries | scripts/plotbars_performance_evaluation.py:80-109 | bars drawn from zipped rows of equal length give series i the i-th entry of each row |
| PlotBars.ThreadsFromHeader | scripts/plotbars_performance_evaluation.py:40-41 | the title and file name carry the thread count read from the header's third field |
| PlotBars.TooManyExecutables | scripts/plotbars_performance_evaluation.py:17-18 | a drawn chart has at most seven executables and no more than the labels |
| ScriptText.TokenLength | scripts/get_average_nthreads.py:19 | a token is the longest run of non-space characters |
| ScriptText.RemoveSpacesOfToken | scripts/get_average_nthreads.py:19 | removing spaces keeps a token |
| ScriptText.Split | scripts/get_average_nthreads.py:19 | `str.split()` yields non-empty tokens without spaces that make up the string without its spaces |
| ScriptText.SplitAtSpace | scripts/get_average_nthreads.py:19 | `str.split()` cuts at every whitespace character: the tokens of `a + c + b` for whitespace `c` are those of `a` followed by those of `b` |
| ScriptText.SplitToken | scripts/get_average_nthreads.py:19 | a non-empty string without whitespace is one token, so tokens are maximal runs and never cut inside a run |
| ScriptText.SplitJoin | scripts/get_average_nthreads.py:19 | non-empty whitespace-free tokens joined by single spaces split back into the same tokens |
| ScriptText.SplitOn | scripts/plot-nthreads-VS-throughput_averages.py:84 | `str.split(sep)` yields at least one part, none holding the separator |
| ScriptText.JoinSplitOn | scripts/plot-nthreads-VS-throughput_averages.py:84 | joining the parts with the separator gives the string back |
| ScriptText.PrefixesExclusive | scripts/get_average_nthreads.py:21-25 | no line starts with both "  num_threads:" and "Throughput(Ops/usec):" |
| ScriptText.DigitChar | scripts/get_average_nthreads.py:34 | a digit below 10 is written as its character |
| ScriptText.NatToString | scripts/get_average_nthreads.py:34 | `str` of a natural number is digits with no leading zero |
| ScriptText.DigitsOfNat | scripts/get_average_nthreads.py:34 | the digits of `str(n)` read back as n |
| ScriptText.IntToString | scripts/get_average_nthreads.py:34 | `str` of an integer is never empty |
| ScriptText.ParseInt | scripts/get_average_nthreads.py:22 | `int()` of a token fails only with ValueError, accepts only a non-empty token without spaces or dot, and a negative value comes from a leading '-' and is bounded by the token's length |
| ScriptText.DigitsBound | scripts/get_average_nthreads.py:22 | n decimal digits are worth less than 10^n |
| ScriptText.IntRoundTrip | scripts/get_average_nthreads.py:22 | `int(str(n)) == n` |
| ScriptText.Pow10 | scripts/get_average_nthreads.py:26 | a power of ten is positive |
| ScriptText.DotIndex | scripts/get_average_nthreads.py:26 | the index of the first dot, or the length when there is none |
| ScriptText.ParseUnsignedReal | scripts/get_average_nthreads.py:26 | an unsigned decimal fails only with ValueError and, when it parses, is a non-empty token without spaces whose value is not negative |
| ScriptText.ParseFloat | scripts/get_average_nthreads.py:26 | `float()` of a token fails only with ValueError, accepts only a non-empty token without spaces, and a negative value comes from a leading '-' |
| ScriptText.FloatIsScaledInt | scripts/get_average_nthreads.py:26 | `float(s)` is `int` of s without its dot divided by ten to the number of digits after the dot |
| ScriptText.SignedScaled | scripts/get_average_nthreads.py:26 | the same for a token with a sign |
| ScriptText.UnsignedScaled | scripts/get_average_nthreads.py:26 | the same for an unsigned token, whose dotless digits are not empty |
| ScriptText.UnsignedValue | scripts/get_average_nthreads.py:26 | an unsigned decimal is its whole part plus its fraction digits over a power of ten |
| ScriptText.SignMovesDot | scripts/get_average_nthreads.py:26 | dropping the dot commutes with a leading sign and keeps the number of fraction digits |
| ScriptText.SignedInt | scripts/get_average_nthreads.py:22 | `int` of a sign followed by digits is the digits' value, negated for '-' |
| ScriptText.DigitsAppend | scripts/get_average_nthreads.py:22-26 | the value of two digit strings put together is the first shifted by the second's length plus the second |
| ScriptText.IntTokenIsFloat | scripts/get_average_nthreads.py:26 | `float` of an integer token is that integer |
| ScriptText.NoDotInDigits | scripts/get_average_nthreads.py:26 | a digit string has no dot |
| ScriptText.FloatOfIntString | scripts/get_average_nthreads.py:26 | `float(str(n)) == n` |
| ScriptText.InsertAscending | scripts/get_average_nthreads.py:32 | inserting into an ascending list keeps it ascending and adds exactly the element |
| ScriptText.PrependAscending | scripts/get_average_nthreads.py:32 | a smallest element before an ascending list keeps it ascending |
| ScriptText.PrependCounts | scripts/get_average_nthreads.py:32 | prepending keeps the counts |
| ScriptText.SortInts | scripts/get_average_nthreads.py:31-32 | `keys.sort()` yields an ascending permutation of the keys |

## Left out

- Concurrency: locks, RCU, hardware transactions (`SYNC_CG_HTM`, `SYNC_CG_SPINLOCK`), the per-thread statistics they keep, and the concurrent trees themselves are not modelled; only the sequential code paths are.
- Input and output: `printf`, `puts` and file handling are not modelled. Log files are given as sequences of lines, and the scripts' printed output and plots become values.
- Trees are values with zipper paths. Aliasing, parent pointers, the CLRS sentinel object and memory reuse are therefore not captured; every node is reached only from its parent.
- Memory: `malloc` failure in `make_node` and `XMALLOC` is not modelled (an allocation always succeeds). The freeing of `nodes_to_delete` and of the nodes a delete unlinks is not modelled either.
- C `int` width: keys are unbounded integers. `key + 1` in the AVL validator's bounds and `rand() % max_key` never overflow in the model.
- `rand()` is an input sequence of natural numbers. Every warm-up (`WarmupHelper` in each module) also stops when that sequence runs out, where the source loops until `nr_nodes` inserts have succeeded.
- Fixed stack sizes: the 100-entry `node_stack` of the string tree, the 40-entry stack of the Tarjan tree and `MAX_HEIGHT` elsewhere are not modelled; the paths are unbounded.
- `USE_VERSIONING` (avl/avl_types.h, avl/avl_utils.h) is off in the sequential trees; the version counters are not modelled.
- The validators' statistics: path counts, minimum and maximum path lengths, red and black node counts and the `key_in_max_path` bookkeeping are only printed by the source and are not modelled beyond what the validator members state.
- The warm-ups of the two BSTs (bst/bst-sequential-external.c:160-174, bst/bst-sequential-partially_external.c:151-165) are not modelled: they only repeat the modelled inserts.
- RbBuString: string keys are held as their ranks (`CStrings.Rank`); `strncmp` on the 256-byte buffers is proved to order them the same way (`CStrings.StrncmpRank`), but the byte buffers themselves are not kept in the nodes.
- RbJsw: nodes carry no value (`data` is the key), so every value is 0.
- RbJsw.Insert2: the great-grandparent pointer `t` of `jsw_insert2` lags a step behind at the top of the tree; the model reattaches a rotated subtree through the zipper, which is where `t->link[dir2]` points.
- RbJsw.Remove2: the first pass of the loop, which starts from the zeroed `head`, is unrolled. The test `else if (is_red(s->link[!last]))` at line 408 always holds there, so the model has no branch for the case where it fails.
- RbJsw.Lookup2: requires a non-empty tree, because `jsw_lookup2` dereferences the root without testing it for NULL; on an empty tree the source crashes.
- RbJsw: the verdict of `_rbt_validate_helper` is only printed (rbt/rbt_mappouras_fg_tsx.c:1122-1128 returns `jsw_rb_assert`), so only `jsw_rb_assert` is modelled.
- RbTarjan: `ACCESS_PATH_MAX_DEPTH` keeps its default 0. The `VERBOSE_STATISTICS` counters `level` and `restructures_at_level`, including `level += top + ret % 2`, are not modelled.
- RbTarjan: the read of `next` at line 605, which is not set on that path, is not modelled; the model goes on from the window root the step leaves.
- RbTarjan: the loop of `_insert_fix_violation` runs at most once within a window, and is modelled as an `if`.
- RbTarjan.DeleteFixViolation: the source's stack ends at the window root's parent and hits `assert(0)` if it runs out; the model's stack reaches the root, where it blackens and returns.
- RbTarjan.MergeAsWritten: models only the bb step under a red window root. The step also breaks the red rule under a black window root whose sibling subtree has a red grandchild: the window test (rbt/rbt_links_td_tarjan_ext.c:582-590) accepts that root, the bb step paints the sibling red over its red child, and `_delete_fix_violation` starts at the black window root and repairs the other child of the window root's parent, never the red pair. That black-root case is not modelled.
- RbTarjan: the dummy `head` node is the empty path.
- HashTable.Table.Insert: requires a non-negative bucket and a bucket with room. A negative address would index outside the array in C, and a full bucket fails the source's `assert`.
- HashTable.Table.Get: requires a non-negative bucket for the same reason: a negative key whose truncating `key / 16 % 16` is negative would index outside the array in C.
- AverageNThreads.Averages: when a later bucket is empty, the result is only the ZeroDivisionError; the lines Python has already printed for the smaller thread counts before the error are not part of it.
- PlotNThreads.Scale: requires `divider >= 2`. The script calls it only with the default 1000; a divider of 1 loops forever and 0 raises ZeroDivisionError.
- ScriptText.ParseFloat: accepts only an optional sign, digits and at most one dot; Python's `float()` also accepts exponents, `inf`, `nan` and surrounding whitespace.
- PlotNThreads.Curves: iterates the groups in the order they were first seen. Python 2's `dict` iteration order is arbitrary, so the source may draw the same curves in another order.
- PlotNThreads.Draw: matplotlib raises an error when the thread axis of the last file and a group's averages differ in length; the model does not check this.
- PlotBars.PlotBarsScript: `geomean` is a total parameter, because its real root (`** (1.0/len(N))`) has no exact counterpart; Python 2's ValueError for a bucket of two or more samples whose product is negative (a negative number raised to a fractional power) is therefore not modelled. The figure sizes, axis limits and aspect ratios are not modelled either.
- Python floats are exact reals: the rounding of `float()`, of the sums and of the divisions (`ScriptText.ParseFloat`, `AverageNThreads.Mean`, `PlotNThreads.AddArrays`, `PlotNThreads.GetAverage`) is not modelled.

## Findings

| source | as written | input that shows it | evidently intended | confidence | as-written member | corrected member |
|---|---|---|---|---|---|---|
| rbt/rbt_links_td_ext.c:301-321 | the final delete step unlinks the leaf through `head`, whose key is 0: a lone root leaf stays in `head.link[1]`, and deleting a key at most 0 from a leaf right under the root hangs the sibling on `head.link[0]` | deleting the only leaf of a one-leaf tree; deleting key 0 (a key the warm-up draws) from a leaf right under the root | the leaf and its parent are removed and the sibling becomes the root | not executed | `RbTdExt.DeleteFinalAsWritten`, `RbTdExt.OnlyLeafKept`, `RbTdExt.NonPositiveKeyKept` | `RbTdExt.DeleteFinal` |
| avl/avl-sequential-internal.c:70-79 | `node_balance` counts a missing child as height 0, the same as a leaf; both the insert fixup and the delete fixup (lines 278-335) decide their rotations with it | inserting 1, 2, 3 builds the chain 1-2-3, and the validator accepts it; deleting 5 from 4(2(1, 3), 5) leaves 4(2(1, 3), NULL), of balance 2, and the validator accepts it | a missing child counts as height -1, so the third insert and the delete rotate | not executed | `AvlInternal.InsertAsWritten`, `AvlInternal.AsWrittenBuildsChain`, `AvlInternal.ChainGoesUnnoticed`, `AvlInternal.DeleteAsWritten`, `AvlInternal.DeleteFixupAsWritten`, `AvlInternal.DeleteAsWrittenLeavesImbalance` | `AvlInternal.Insert`, `AvlInternal.Delete` |
| avl/avl_validate.h:23-26 | -1 stands for "no bound", so a bound of -1 is ignored | a routing key -1 over leaves 7 and 0 | a bound of -1 is checked like any other | not executed | `AvlValidate.ValidateRecAsWritten`, `AvlValidate.SentinelKeyEscapes` | `AvlValidate.ValidateRec` |
| rbt/rbt_links_bu_int_iterative.c:49-50 | a node is a sentinel iff its key is SENTINEL_KEY (-999999) | inserting -999999: the lookup then misses it, and inserting 5 afterwards drops it | a sentinel is recognised as the sentinel object, whatever real keys are stored | not executed | `RbBuSentinel.LookupAsWritten`, `RbBuSentinel.SentinelKeyNotFound`, `RbBuSentinel.SentinelKeyDropped` | `RbBuSentinel.Lookup`, `RbBuSentinel.BinaryInsert` |
| rbt/rbt_links_td_tarjan_ext.c:598-611 | the bb step paints both children of the window root red and leaves the repair to `_delete_fix_violation`, which for a red window root only paints it black (lines 414-416) | `MergeExample(k)`: a red window root over a 2-node over 2-nodes, whose sibling has a red child | the 2-node is merged and the tree repaired so that no red node has a red child | not executed | `RbTarjan.MergeAsWritten`, `RbTarjan.MergeAsWrittenBreaksRedRule` | `RbTarjan.MergeDown` |
