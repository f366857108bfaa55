# AVL tree engine in Dafny

A model of the AVL tree engine of `avltree/avl.c`. The engine is an ordered map from opaque keys to opaque values. Keys are compared only through the caller's `cmp` callback, copied with `dup` and released with `rel`. The entries sit in a binary search tree whose nodes cache their heights and are re-balanced by rotations.

The model has five modules:

- `Order` (`order.dfy`): the comparator. `cmp` is an arbitrary `(K, K) -> int`. The ordering lemmas assume `ValidCmp`: swapping arguments flips the sign, and "less than or equal" is transitive. The lemmas about insertion order and the insert-then-find round trips also assume `DupKeepsOrder`: the stored copy `dup(key)` compares equal to `key` (`AvlLemmas.DefDupKeepsOrder` proves it for the default `dup`).
- `Avl` (`avl.dfy`): every node routine as a function on tree values.
  - A routine that rewrites a child slot through `avlnode_t **` maps the subtree in the slot to the subtree the slot holds afterwards.
  - Values are `Ptr<V>` (`Null` or `Ref(v)`). This keeps the NULL tests on `*old_out` that decide whether re-balancing runs.
- `AvlLemmas` (`avl_lemmas.dfy`): what those functions guarantee. This covers the search-tree order, the entries each operation adds, keeps or removes, its results and `*old_out`, and the keys passed to `rel`.
- `AvlHeap` (`avl_heap.dfy`): the same routines as imperative methods on heap nodes (`class Node`), which rewrite fields in place as the C code does.
  - A method for an `avlnode_t **ptr` routine receives the node in the slot and returns the node the slot then holds; the caller stores it back.
  - A ghost `Layout` records which object sits at each position. Each method is proved equal, on the tree value the layout spells out, to an `Avl` function or a composition of them: a routine such as `AvlHeap.Insert` to `Avl.Insert`, a child-slot helper such as `AvlHeap.InsertIntoLeft` to the same function applied to one child, `AvlHeap.Rebalance` to `Avl.Rotate` after `Avl.UpdateHeight`, `CopyChild` and `TakeSuccessor` to the one-child and two-child cases of `Avl.Unlink`, `SetEntry` to the layout with only the key and value replaced, and `AvlHeap.Delete` to `Avl.ReleaseOrder`.
- `AvlApi` (`avl_tree.dfy`): `struct avltree_s` as the class `AvlTree`, with the public wrappers as its methods and functions.

`AvlFindings` (`avl_findings.dfy`) holds six defects found while proving the model. Each has the behaviour as written, an input that shows it, and a corrected definition with the intended property proved.

Conventions the code fixes and the model keeps:

- **Inverted order.** Insertion and erasure go left when `cmp(node key, key) < 0`, so a left subtree holds the greater keys and the in-order walk is descending (`AvlLemmas.OrderedIffDescending`).
- **The 10, 20, 30 example.** In a textbook AVL tree, with smaller keys on the left, 10 would end as the root's left child. This code keeps greater keys on the left, so inserting 10, 20, 30 puts 20 at the root, 30 on its left and 10 on its right (`AvlLemmas.AscendingInsertsRotate`).
- **Find stops on 1.** `_avltree_find` treats a comparison result of 1 as a match.
- **Insert results.** A fresh node gives result 0 with `*old_out` NULL. An existing key reports its stored value, and `replace` gives result 1.
- **NULL-gated re-balancing.** After the recursive call, insertion re-balances a node only when `*old_out` is NULL, and erasure only when it is not NULL.
- **`size` is never written** after `avltree_new`.
- **`rel` is recorded, not run.** The keys handed to `rel` are collected, in order, as the `released` sequence.

## Model

| member | source | states |
|---|---|---|
| Avl.Height | avltree/avl.c:164-169 | -1 exactly for an empty slot, the cached field otherwise; never below -1 once heights are non-negative |
| Avl.UpdateHeight | avltree/avl.c:171-179 | only the node's height changes, to 1 + the larger child height; entries and node count are kept |
| Avl.LRotation | avltree/avl.c:198-213 | no change without a node or a right child; otherwise the right child is promoted with its height kept, and the demoted node's height becomes max(old - 2, 0); in-order entries, count and non-negative heights are kept |
| Avl.RRotation | avltree/avl.c:215-229 | the mirror image: no change without a left child; the left child is promoted, the demoted node's height becomes max(old - 2, 0); in-order entries and count are kept |
| Avl.Rotate | avltree/avl.c:231-257 | an empty slot stays empty; a node whose cached child heights differ by at most one is left unchanged; in every case the in-order entries and count are kept |
| Avl.Leftmost | avltree/avl.c:186 | the leftmost node of a subtree has no left child |
| Avl.RemoveMin | avltree/avl.c:181-195 | an empty slot gives (empty, empty); otherwise the detached node is the leftmost one with both links cleared, and its entry followed by the remaining in-order walk is the original walk |
| Avl.Insert | avltree/avl.c:261-291 | the resulting subtree is never empty, its heights stay non-negative, and the result is 0 or 1 |
| Avl.Unlink | avltree/avl.c:308-327 | the slot holds the left walk followed by the right walk, one node fewer, and is empty exactly when the node was a leaf |
| Avl.Remove | avltree/avl.c:293-337 | heights stay non-negative and the result is 0 or 1 |
| Avl.Find | avltree/avl.c:339-352 | a found node's entry is stored in the tree and compares to the key as 0 or 1 |
| AvlLemmas.OrderedIffDescending | avltree/avl.c:272-276 | a tree ordered with greater keys on the left is exactly one whose in-order walk strictly descends |
| AvlLemmas.OneMatch | avltree/avl.c:272-276 | in a descending walk at most one entry compares equal to a given key, and it occurs once |
| AvlLemmas.RebalanceKeepsOrder | avltree/avl.c:278-281 | height update then rotation keeps a subtree ordered, in both directions |
| AvlLemmas.RemoveMinTakesGreatest | avltree/avl.c:181-195 | in an ordered tree the detached leftmost key is greater than every key left behind, and the rest stays ordered |
| AvlLemmas.InsertFresh | avltree/avl.c:261-281 | a key unequal to every stored key adds exactly the entry (dup(key), value) and one node, with result 0 and `*old_out` NULL |
| AvlLemmas.InsertAddsOnlyKey | avltree/avl.c:264-269 | every entry after insertion was stored before or compares equal to the inserted key |
| AvlLemmas.InsertKeepsOrder | avltree/avl.c:261-291 | insertion keeps a tree ordered when `dup` keeps a key's order |
| AvlLemmas.InsertExisting | avltree/avl.c:282-288 | a key equal to a stored entry reports that entry's value, with result 1 under `replace` and 0 without |
| AvlLemmas.InsertExistingEntries | avltree/avl.c:282-288 | with `replace` only that entry's value changes; without it the in-order walk is unchanged; no key is duplicated |
| AvlLemmas.InsertExistingCount | avltree/avl.c:282-288 | inserting an existing key adds no node |
| AvlLemmas.InsertExistingShape | avltree/avl.c:278-288 | when the stored value is not NULL no re-balancing runs: shape, keys and heights are kept, and without `replace` the tree is unchanged |
| AvlLemmas.EraseAbsent | avltree/avl.c:293-304 | erasing a key unequal to every stored key returns 0, leaves `*old_out` NULL, releases nothing and leaves the tree unchanged |
| AvlLemmas.EraseMatch | avltree/avl.c:305-328 | erasing a stored key releases exactly that key, reports its value and returns 1 |
| AvlLemmas.EraseMatchEntries | avltree/avl.c:293-337 | erasing a stored key removes exactly that entry from the in-order walk |
| AvlLemmas.EraseMatchCount | avltree/avl.c:293-337 | erasing a stored key removes exactly one node |
| AvlLemmas.EraseKeepsOrder | avltree/avl.c:293-337 | erasure keeps a tree ordered and keeps only entries that were stored before |
| AvlLemmas.UnlinkKeepsOrder | avltree/avl.c:322-327 | moving the successor's key and value into a two-child node keeps the tree ordered |
| AvlLemmas.FindFindsPresent | avltree/avl.c:339-352 | in an ordered tree, a key that compares equal to a stored key is always found |
| AvlLemmas.ReleaseEachKeyOnce | avltree/avl.c:155-162 | `avlnode_delete` hands every stored key to `rel` exactly once: the released keys are the stored keys as a multiset, one per node |
| AvlLemmas.DefDupKeepsOrder | avltree/avl.c:66 | `def_dup` stores the key itself, so under a consistent comparator the stored copy compares equal to the key |
| Avl.ReleaseOrder | avltree/avl.c:155-162 | the keys `avlnode_delete` hands to `rel`: one per node, and a node's key after the keys of both its subtrees, so the root's key comes last |
| AvlLemmas.AscendingInsertsRotate | avltree/avl.c:231-257 | inserting 10, 20, 30 under integer difference ends with 20 at the root, 30 on its left and 10 on its right |
| AvlHeap.Node.constructor | avltree/avl.c:142-153 | a new node holds the given key and value, has no children and has height 0 |
| AvlHeap.UpdateHeight | avltree/avl.c:171-179 | rewrites only the node's height field, to what `Avl.UpdateHeight` computes |
| AvlHeap.HeightOf | avltree/avl.c:164-169 | `avlnode_height` on a heap slot (`AvlHeap.Height`: -1 for null, the cached field otherwise) equals `Avl.Height` of the tree value the slot spells out |
| AvlHeap.LRotation | avltree/avl.c:198-213 | relinks the same node objects into the tree that `Avl.LRotation` computes and returns the new occupant of the slot |
| AvlHeap.RRotation | avltree/avl.c:215-229 | relinks the same node objects into the tree that `Avl.RRotation` computes |
| AvlHeap.LRotationLeftChild | avltree/avl.c:245 | `avlnode_lrotation(&node->left)`: the left subtree becomes its left rotation and the rest of the node is kept |
| AvlHeap.RRotationRightChild | avltree/avl.c:253 | `avlnode_rrotation(&node->right)`: the right subtree becomes its right rotation and the rest of the node is kept |
| AvlHeap.Rotate | avltree/avl.c:231-257 | leaves in the slot the same node objects, arranged as `Avl.Rotate` arranges them |
| AvlHeap.Rebalance | avltree/avl.c:279-280 | height update followed by rotation, to what `Avl.Rotate(Avl.UpdateHeight(...))` computes, over the same objects |
| AvlHeap.RemoveMin | avltree/avl.c:181-195 | splits the objects into the remaining subtree and the detached node, to exactly what `Avl.RemoveMin` computes |
| AvlHeap.RemoveMinOfLeft | avltree/avl.c:191 | the recursive call on `&node->left` and the store back into the left slot |
| AvlHeap.RemoveMinOfRight | avltree/avl.c:323 | `avlnode_remove_min(&node->right)` and the store back into the right slot |
| AvlHeap.Insert | avltree/avl.c:261-291 | keeps every old object, adds only fresh ones, and leaves the tree, result and `*old_out` that `Avl.Insert` computes |
| AvlHeap.InsertIntoLeft | avltree/avl.c:273-274 | the recursive call on `&node->left` and the store back into the left slot |
| AvlHeap.InsertIntoRight | avltree/avl.c:275-276 | the recursive call on `&node->right` and the store back into the right slot |
| AvlHeap.Unlink | avltree/avl.c:308-327 | the matched node's slot ends as `Avl.Unlink` says, using only objects of the old subtree |
| AvlHeap.CopyChild | avltree/avl.c:308-321 | `**ptr = *temp`: the node takes over every field of its only child, and the slot then holds that child's subtree |
| AvlHeap.TakeSuccessor | avltree/avl.c:322-327 | a two-child node takes the key and value of the leftmost node of its right subtree, which is unlinked |
| AvlHeap.SetEntry | avltree/avl.c:324-325 | a node's key and value are overwritten and its links and height are kept |
| AvlHeap.Remove | avltree/avl.c:293-337 | uses only objects of the old subtree and leaves the tree, result, `*old_out` and released keys that `Avl.Remove` computes |
| AvlHeap.RemoveFromLeft | avltree/avl.c:300-301 | the recursive call on `&node->left` and the store back into the left slot |
| AvlHeap.RemoveFromRight | avltree/avl.c:302-303 | the recursive call on `&node->right` and the store back into the right slot |
| AvlHeap.Delete | avltree/avl.c:155-162 | the keys handed to `rel` are those of `Avl.ReleaseOrder`: left subtree, right subtree, then the node |
| AvlHeap.Find | avltree/avl.c:339-352 | returns null exactly when `Avl.Find` finds nothing, and otherwise a node of the tree holding the found key and value |
| AvlHeap.Count | avltree/avl.c:38 | the number of nodes reachable from the slot |
| AvlApi.AvlTree.constructor | avltree/avl.c:72-83 | a valid empty tree with size 0 and nothing released; a missing `dup` means `def_dup` |
| AvlApi.AvlTree.Insert | avltree/avl.c:115-122 | the tree stays valid and holds what `Avl.Insert` computes, with its result and `*old_out`; size and the released keys are unchanged |
| AvlApi.AvlTree.Erase | avltree/avl.c:124-131 | the tree stays valid and holds what `Avl.Remove` computes, starting from a NULL `*old_out`; the matched key is appended to the released keys; size is unchanged |
| AvlApi.AvlTree.Find | avltree/avl.c:92-99 | the value of the node the search stops at, NULL when it stops at none |
| AvlApi.AvlTree.FindPtr | avltree/avl.c:101-108 | the node whose value slot the search stops at, null exactly when it stops at none |
| AvlApi.AvlTree.HasKey | avltree/avl.c:110-113 | true exactly when the search stops at a node |
| AvlApi.AvlTree.Size | avltree/avl.c:133-135 | the stored `size` field; `Insert` and `Erase` each promise to leave it unchanged |
| AvlApi.AvlTree.Count | avltree/avl.c:38 | the number of items the tree holds, which `size` was meant to count |
| AvlApi.AvlTree.Delete | avltree/avl.c:85-90 | appends every stored key to the released keys, in the post-order `avlnode_delete` walks |
| AvlFindings.FindStopsAtNeighbour | avltree/avl.c:348 | with integer difference, a search for 10 in a tree holding only 11 stops at 11; the corrected search finds nothing |
| AvlFindings.FindExact | avltree/avl.c:339-352 | a found node's entry is stored in the tree and compares equal to the key |
| AvlFindings.FindExactIff | avltree/avl.c:339-352 | in an ordered tree the corrected search finds a node exactly when some stored key compares equal |
| AvlFindings.FindAnswersNeighbour | avltree/avl.c:339-352 | after inserting 11 then 10 with integer difference, the search as written for the stored key 10 reports 11's value; the corrected search reports 10's |
| AvlFindings.FindExactFindsEntry | avltree/avl.c:339-352 | in an ordered tree the corrected search returns exactly the stored entry whose key compares equal |
| AvlFindings.InsertFreshThenFind | avltree/avl.c:261-291 | inserting a key not yet stored and then searching for it returns `dup(key)` with the inserted value |
| AvlFindings.InsertExistingThenFind | avltree/avl.c:261-291 | inserting a stored key and then searching for it returns the stored key with the new value under `replace`, and the old entry without it |
| AvlFindings.EraseThenFind | avltree/avl.c:293-337 | after erasing a key from an ordered tree, the corrected search for it finds nothing |
| AvlFindings.SizeIgnoresInsert | avltree/avl.c:133-135 | after one insertion into a new tree the size is 0 while the tree holds one item |
| AvlFindings.LRotationFixed | avltree/avl.c:198-213 | the corrected left rotation keeps the in-order entries and gives a node |
| AvlFindings.RRotationFixed | avltree/avl.c:215-229 | the corrected right rotation keeps the in-order entries and gives a node |
| AvlFindings.RotateFixed | avltree/avl.c:231-257 | the corrected rotation keeps the in-order entries and non-negative heights |
| AvlFindings.RotateFixedBalances | avltree/avl.c:231-257 | a node with balanced children at most two apart in height becomes balanced, at most one taller than its taller child, and is left alone when already balanced |
| AvlFindings.InsertFixed | avltree/avl.c:261-291 | the code's insertion with the corrected rotation: the subtree is never empty, heights stay non-negative and the result is 0 or 1; `InsertFixedSameEntries` and `InsertFixedBalances` give what it keeps |
| AvlFindings.InsertFixedBalances | avltree/avl.c:261-291 | the corrected insertion keeps a tree balanced with correct heights, one level taller at most, and no taller when the key held a non-NULL value |
| AvlFindings.InsertFixedSameEntries | avltree/avl.c:261-291 | the corrected insertion gives the same in-order entries, result and `*old_out` as the code |
| AvlFindings.InsertLosesBalance | avltree/avl.c:244 | inserting 10, 30, 20 ends with 30 at the root over an empty left slot with stale heights, which is not balanced |
| AvlFindings.InsertFixedRestoresBalance | avltree/avl.c:244 | with the corrected rotation the same insertions put 20 at the root over 30 and 10, balanced |
| AvlFindings.FreedLeafIsUpdated | avltree/avl.c:315-333 | when the erase path ends at a leaf with a non-NULL value, the erase reports that value and releases its key, so the re-balancing step runs after the leaf was freed |
| AvlFindings.LeafEraseFreesThenUpdates | avltree/avl.c:315-333 | erasing the only key of a one-node tree with a non-NULL value: the code updates the freed node, while the model empties the tree, reports the value and releases the key |
| AvlFindings.NullReinsertRotates | avltree/avl.c:261-291 | with integer difference and NULL values, inserting 10, 30, 20 and then 20 again without `replace` returns 0 and NULL but rotates the root, so 10 becomes the root |
| AvlFindings.InsertPlaced | avltree/avl.c:261-291 | the corrected insertion, which re-balances the path only when a node was created; the subtree is never empty and heights stay non-negative |
| AvlFindings.InsertPlacedFresh | avltree/avl.c:261-291 | for a key not yet stored, the corrected insertion creates a node and gives the code's tree, result and `*old_out` |
| AvlFindings.InsertPlacedExisting | avltree/avl.c:278-288 | for a stored key, whatever its value, the corrected insertion creates no node, reports the stored value, keeps shape, keys and heights, and without `replace` leaves the tree unchanged; with a non-NULL stored value it agrees with the code |
| AvlFindings.NullReinsertPlacedKeeps | avltree/avl.c:278 | on the tree of the NULL re-insertion example the corrected insertion leaves the tree as it was |
| AvlFindings.NullEraseLeavesStale | avltree/avl.c:293-337 | with integer difference, erasing 20, whose value is NULL, from the balanced tree 10 over 20 returns 1 and NULL but leaves the root with height 1 over two empty slots, which is not balanced |
| AvlFindings.RemoveMinFixed | avltree/avl.c:181-195 | `avlnode_remove_min` with the corrected rotation: the detached node is the leftmost one with its links cleared, and its entry followed by the rest is the original walk |
| AvlFindings.UnlinkFixed | avltree/avl.c:308-327 | taking out the matched node with the corrected `avlnode_remove_min`: the slot holds the left walk followed by the right walk |
| AvlFindings.RemoveFixed | avltree/avl.c:293-337 | the corrected erasure, which re-balances every node on the path with the corrected rotation whatever value was erased; heights stay non-negative and the result is 0 or 1 |
| AvlFindings.RemoveFixedSameEntries | avltree/avl.c:293-337 | the corrected erasure leaves the same in-order walk, result, `*old_out` and released keys as the code's |
| AvlFindings.ShrinkLeft | avltree/avl.c:331-332 | re-balancing a balanced node whose left subtree lost at most one level gives a balanced node at most one level lower |
| AvlFindings.ShrinkRight | avltree/avl.c:331-332 | the same when the right subtree lost at most one level |
| AvlFindings.RemoveMinFixedBalances | avltree/avl.c:181-195 | the corrected `avlnode_remove_min` keeps a balanced subtree balanced and lowers it by at most one level |
| AvlFindings.UnlinkFixedBalances | avltree/avl.c:308-333 | taking out the matched node of a balanced subtree and re-balancing its slot keeps it balanced and lowers it by at most one level |
| AvlFindings.RemoveFixedBalances | avltree/avl.c:293-337 | the corrected erasure keeps every balanced tree balanced and lowers it by at most one level, whatever values it holds |
| AvlFindings.NullEraseFixedBalances | avltree/avl.c:331 | on the tree of the NULL erasure example the corrected erasure leaves the leaf 10 with height 0 |

## Left out

- Memory management is not modelled: `malloc` and `free`, allocation failure in `avltree_new` and `avlnode_new`, and the unchecked NULL that `avlnode_new` may return at avltree/avl.c:266. Allocation always succeeds. A freed node simply becomes unreachable.
- `def_cmp` is not modelled, because it subtracts pointers truncated to `int`. The comparator is a parameter, so a tree is built with a comparator always given.
- The key-ownership callbacks are abstract. `dup` is a function. `rel` is not called: the keys it would receive are appended to `released`.
- AvlHeap.Remove: the leaf case empties the slot and skips the height update. The code frees the node (avltree/avl.c:315-321) and then, when the erased value is not NULL, writes its height (avltree/avl.c:331-332); that access to freed memory is not reproduced on the heap. See Findings.
- AvlHeap.CopyChild: the child copied over its parent at avltree/avl.c:319 is freed by the code; the model leaves it unreachable.
- An AVL balance invariant is not claimed for the code as written. See Findings.
- AvlApi.AvlTree.Insert: always returns `*old_out`, standing for a caller that passes a non-NULL `old_out`. The uninitialised `out` of avltree/avl.c:116 is never read, because every path of `_avltree_insert` writes `*old_out` before testing it. `overwrite` is a `bool`.
- AvlApi.AvlTree.Erase: always returns `*old_out`, standing for a caller that passes a non-NULL `old_out`. The code writes it only when `old_out` is not NULL (avltree/avl.c:127-129).
- AvlLemmas.InsertExistingShape: promises an unchanged shape only when the stored value is not NULL. The restriction comes from the code, not from the proof. With a NULL stored value `*old_out` is NULL on return, so avltree/avl.c:278 re-balances the path, and the stale heights can restructure the tree (`AvlFindings.NullReinsertRotates`, see Findings). `AvlFindings.InsertPlacedExisting` proves the unconditional promise for the corrected insertion.
- AvlApi.AvlTree.FindPtr: returns the node whose `value` field is the slot, not a raw address. Writing a value through that slot is not modelled.
- AvlApi.AvlTree.Delete: freeing the nodes and the tree object is not modelled. Only the keys handed to `rel` are recorded.
- `avltrav_t` is declared in `avltree/avl.h` but never defined, so there is nothing to model.
- C `int` heights and the `size_t` counter are modelled as unbounded integers (`int` and `nat`); wrap-around is not modelled.
- There is no concurrency or I/O in the engine.

## Findings

None of these was executed; each is shown by the lemma or method named in its row.

| source | as written | input that shows it | evidently intended | confidence | as-written member | corrected member |
|---|---|---|---|---|---|---|
| avltree/avl.c:348 | the search goes right only when `cmp > 1`, so a comparison result of 1 counts as a match | integer-difference comparator, insert 11 and then 10, search for 10: `cmp(11, 10) == 1` stops at 11, so `avltree_find` returns 11's value for the stored key 10 | go right when `cmp > 0` | high, not executed | AvlFindings.FindAnswersNeighbour | AvlFindings.FindExact |
| avltree/avl.c:133-135 | `avltree_size` returns `size`, which `avltree_new` sets to 0 and nothing updates | a new tree with one inserted key reports size 0 | the number of stored items | high, not executed | AvlFindings.SizeIgnoresInsert | AvlApi.AvlTree.Count |
| avltree/avl.c:231-257 | the rotations lower the demoted node's height by a fixed 2 and leave the promoted node's height; the double-rotation tests need the inner grandchild to be taller by more than one, and the right-heavy branch tests the outer grandchild | integer-difference comparator, insert 10, 30, 20: no double rotation runs, and 30 ends at the root with an empty left slot over 10 (cached height 0) holding 20, real heights differing by 2 | rotate the child first when its inner grandchild is taller, and recompute both moved nodes' heights | high, not executed | AvlFindings.InsertLosesBalance | AvlFindings.InsertFixed |
| avltree/avl.c:315-333 | erasing a matched leaf frees it and empties its slot, and when its value is not NULL the height update at avltree/avl.c:331-332 still writes to the freed node | integer-difference comparator, a one-node tree holding 10 with a non-NULL value, erase 10 | skip the update once the slot is empty | high, not executed | AvlFindings.LeafEraseFreesThenUpdates | Avl.Remove |
| avltree/avl.c:278-288 | re-balancing after the recursive call is gated on `*old_out` being NULL, which also holds when the key was found with a NULL stored value; the path is then re-balanced although nothing below it changed, and the stale heights can rotate it | integer-difference comparator, NULL values: insert 10, 30, 20, then 20 again without `replace`; the result is 0 with `*old_out` NULL, and 10 replaces 30 at the root | re-balance only when a node was created, so a present key without `replace` leaves the tree unchanged | high, not executed | AvlFindings.NullReinsertRotates | AvlFindings.InsertPlaced |
| avltree/avl.c:331-333 | after a node is erased, the path is re-balanced only when the erased value is not NULL, so erasing an entry whose value is NULL leaves every height on the path stale | integer-difference comparator: erase 20, whose value is NULL, from 10 (height 1) over 20; the root keeps height 1 with no children | re-balance every node on the path after a node is erased, whatever its value | high, not executed | AvlFindings.NullEraseLeavesStale | AvlFindings.RemoveFixed |

The heap and tree layers model the code as written, except that erasing a leaf does not touch the freed node: `Avl.Remove` skips the height update once the slot is empty, and `AvlLemmas.EraseMatchEntries`, `AvlLemmas.EraseKeepsOrder` and `AvlFindings.EraseThenFind` are proved about it. The corrected definitions stand beside them in `AvlFindings`. `AvlFindings.InsertFixedSameEntries` proves that the corrected insertion differs from the code only in the shape of the tree.
