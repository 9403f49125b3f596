# LinkedBST in Dafny

This project models `LinkedBST` from `binary_search_tree/linkedbst.py`, a binary search
tree built from linked nodes. The model keeps the class's two fields:

- the root link, as a `Tree` value (`Leaf | Node(left, data, right)`);
- the node count from the collection base class, as `size`.

Every public operation of the tree core is a method or function of the Dafny class
`BinarySearchTree.LinkedBST`:

- construction from a collection;
- preorder iteration;
- inorder listing;
- `find` and `__contains__`;
- `clear`, `add`, `remove` and `replace`;
- `height`, `range_find` and `rebalance`;
- `successor` and `predecessor`.

Each operation is specified against functions on `Tree` values (module `Trees`, with
`Balance` for the rebuild), and the properties the source promises are proved about
those functions.

Modules:

- `Wrappers` (wrappers.dfy): `Option` and `Result`.
- `Seqs` (seqs.dfy): sorted sequences, positions, slices, splices, and the sub-sequence
  of keys between two bounds.
- `Trees` (trees.dfy): the node graph as a value. It holds traversals, the two ordering
  predicates, search, insertion, deletion (including lifting the maximum of the left
  subtree), overwrite, height and paths, and the chain of parents that `remove` and
  `replace` walk down.
- `Balance` (balance.dfy): `rebalance1` as a function, with the proofs that it keeps the
  keys and the order, and that with distinct keys it gives a tree of minimal height.
- `BinarySearchTree` (linkedbst.dfy): the `LinkedBST` class, the loops of `__iter__`,
  `remove`, `replace`, `successor` and `predecessor`, and the recursion of `inorder`.

Ordering. `add` sends a key equal to a node's key to the right. The strict reading,
left keys smaller and right keys greater or equal (the routing `add` uses at
linkedbst.py:109-120), is `Trees.IsStrictBST`.
`remove` lifts the maximum of the left subtree into a node, so once keys repeat, a copy
of a key can end up above an equal key in its left subtree. The order the mutators
really keep is therefore the non-strict `Trees.IsBST` (left `<=` node `<=` right). It
holds exactly when the inorder sequence is sorted.

`Trees.DeleteBreaksStrictOrder` shows the strict form being broken. Take the tree built
by adding 5, 3, 3, 8, then remove 5: the lower 3 is lifted into the root, above the
other 3.

`LinkedBST.Valid()` only ties `size` to the node count. The order is a separate
hypothesis, because `replace` overwrites a key without checking the order. Every
mutator except `replace` says in its contract that it keeps the order when the order
held before. `replace`'s contract gives the exact overwrite instead, and
`Trees.OverwriteKeepsBstIff` says when the order survives it.

Rebalancing with repeated keys can make a tree taller: `Balance.RebuildCanGrowTaller`
builds three equal keys at height 1 whose rebuild has height 2.

## Model

| member | source | states |
|---|---|---|
| BinarySearchTree.LinkedBST.constructor | binary_search_tree/linkedbst.py:18-22 | the new tree is the one `InsertAll` builds from an empty tree; it is ordered, its count matches its nodes, and it holds exactly the keys of the source collection, with multiplicity |
| BinarySearchTree.LinkedBST.AddAll | binary_search_tree/linkedbst.py:18-22 | adding each key of a collection in turn gives the tree `InsertAll` describes, adds exactly those keys to the multiset, keeps the count right and keeps the order |
| Trees.InsertAll | binary_search_tree/linkedbst.py:18-22 | adding the keys of a list in turn adds one node per key; the constructor's and `AddAll`'s contracts state the tree is exactly this one |
| BinarySearchTree.LinkedBST.IsEmpty | binary_search_tree/linkedbst.py:124 | the base class's `isEmpty`: with a correct count, true exactly when there is no root |
| BinarySearchTree.LinkedBST.Iter | binary_search_tree/linkedbst.py:40-51 | the stack-driven loop yields exactly the preorder sequence (node, left subtree, right subtree), which is a permutation of the keys |
| BinarySearchTree.PopAndPushChildren | binary_search_tree/linkedbst.py:45-51 | popping the top node and pushing its right then its left child leaves the remaining yield order as that node's key followed by the rest |
| Trees.PreorderIsPermutationOfInorder | binary_search_tree/linkedbst.py:40-51 | preorder and inorder visit the same keys with the same multiplicities |
| BinarySearchTree.LinkedBST.InorderList | binary_search_tree/linkedbst.py:57-68 | `inorder` lists the keys left subtree, node, right subtree; that list is sorted exactly when the tree is ordered |
| BinarySearchTree.AppendInorder | binary_search_tree/linkedbst.py:61-65 | the nested recursion appends exactly the inorder keys of the node to the list |
| Trees.BstIffSorted | binary_search_tree/linkedbst.py:57-68 | the ordering invariant holds if and only if the inorder sequence is sorted |
| BinarySearchTree.LinkedBST.Contains | binary_search_tree/linkedbst.py:78-80 | `in` is true exactly when `find` gives a value; on an ordered tree, exactly when the key is present |
| BinarySearchTree.LinkedBST.Find | binary_search_tree/linkedbst.py:82-96 | a returned value equals the item and is in the tree; on an ordered tree a present key is always found; the tree is not changed (a function of the state) |
| Trees.Find | binary_search_tree/linkedbst.py:86-94 | the search only reports a key it reached, and that key equals the item |
| Trees.FindComplete | binary_search_tree/linkedbst.py:86-94 | on an ordered tree the search path reaches a node holding any present key |
| Trees.PathIndex | binary_search_tree/linkedbst.py:86-94 | the node where the search stops holds the item, at this inorder position |
| BinarySearchTree.LinkedBST.Clear | binary_search_tree/linkedbst.py:99-102 | no root and a count of zero |
| BinarySearchTree.LinkedBST.Add | binary_search_tree/linkedbst.py:104-129 | the tree becomes the leaf insertion of the key, the count grows by one, the key multiset gains one copy of the key, and the order is kept |
| Trees.Insert | binary_search_tree/linkedbst.py:108-125 | the descent of `add` (left when smaller, right otherwise, a new leaf in the first empty slot) gives a non-empty tree with one more node; `Trees.InsertInorder`, `Trees.InsertContents` and `Trees.InsertKeepsBST` state where the key lands and what is kept |
| Trees.InsertInorder | binary_search_tree/linkedbst.py:108-120 | insertion puts the key into the inorder sequence at one position and moves no other key |
| Trees.InsertPosIsOrdered | binary_search_tree/linkedbst.py:108-120 | on an ordered tree, the new key lands after every key smaller than or equal to it (equal keys go right) and before every greater key |
| Trees.InsertContents | binary_search_tree/linkedbst.py:108-120 | insertion adds one occurrence of the key and no other key |
| Trees.InsertKeepsBST | binary_search_tree/linkedbst.py:108-120 | insertion keeps the ordering invariant |
| Trees.InsertKeepsStrictBST | binary_search_tree/linkedbst.py:108-120 | insertion alone also keeps the strict order (left keys smaller) |
| BinarySearchTree.LinkedBST.Remove | binary_search_tree/linkedbst.py:131-214 | an absent key raises KeyError and leaves root and count unchanged; a present key is returned, the node where the search stops is unlinked, the count drops by one, exactly one copy leaves the multiset, and the order is kept |
| BinarySearchTree.UnlinkNode | binary_search_tree/linkedbst.py:158-204 | the loop from the `pre_root` sentinel, the three removal cases and the relinking to the parent give exactly the tree `Delete` describes, and the removed item is the key |
| BinarySearchTree.LiftMaxInLeftSubtreeToTop | binary_search_tree/linkedbst.py:139-154 | the node takes the maximum key of its left subtree and that maximum node is replaced by its own left child; the inorder keys become those of the two subtrees |
| Trees.Max | binary_search_tree/linkedbst.py:145-150 | the key reached by walking right until there is no right child is the last inorder key; `Trees.MaxIsGreatest` says it is a greatest key on an ordered tree |
| Trees.RemoveMax | binary_search_tree/linkedbst.py:145-154 | replacing that rightmost node by its left child removes exactly one node; `Trees.RemoveMaxInorder` says which key goes |
| Trees.RemoveMaxInorder | binary_search_tree/linkedbst.py:145-154 | unlinking the rightmost node removes exactly the last inorder key, which is the key it held |
| Trees.MaxIsGreatest | binary_search_tree/linkedbst.py:145-154 | on an ordered tree the rightmost key is present and no key exceeds it |
| Trees.DeleteRoot | binary_search_tree/linkedbst.py:183-204 | removing a node's own key (two children, no left child, no right child) leaves exactly the keys of its two subtrees, in order |
| Trees.Delete | binary_search_tree/linkedbst.py:166-204 | the search loop of `remove` (equal stops, greater goes left, otherwise right) followed by `DeleteRoot` at the node it stops at; it has no contract of its own: `Trees.DeleteInorder`, `Trees.DeleteMultiset`, `Trees.DeleteMissing` and `Trees.DeleteKeepsBST` state which key goes, that a miss changes nothing, and what is kept |
| Trees.DeleteInorder | binary_search_tree/linkedbst.py:166-204 | on any tree where the search finds the key, removal deletes exactly that node's inorder position |
| Trees.DeleteMultiset | binary_search_tree/linkedbst.py:166-204 | removal takes one occurrence of the key from the multiset, and the node count drops by one |
| Trees.DeleteMissing | binary_search_tree/linkedbst.py:166-179 | when the search misses, removal changes nothing |
| Trees.DeleteKeepsBST | binary_search_tree/linkedbst.py:166-204 | removal keeps the non-strict ordering invariant |
| Trees.DeleteLastCopy | binary_search_tree/linkedbst.py:131-214 | on an ordered tree, removing the only copy of a key makes `find` miss it |
| Trees.DeleteBreaksStrictOrder | binary_search_tree/linkedbst.py:187-189 | adding 5, 3, 3, 8 gives a strictly ordered tree; removing 5 gives a tree that is ordered but not strictly |
| BinarySearchTree.LinkedBST.Replace | binary_search_tree/linkedbst.py:216-230 | the result is what `find` gives before the call; only the first node on the search path that holds the item gets the new key, at that inorder position; nothing changes on a miss; the count never changes |
| Trees.Overwrite | binary_search_tree/linkedbst.py:220-229 | the probe of `replace` overwriting the first matching node on the search path keeps the node count; `Trees.OverwriteInorder` and `Trees.OverwriteKeepsBstIff` state which key changes and when the order survives |
| Trees.OverwriteInorder | binary_search_tree/linkedbst.py:220-229 | overwrite changes exactly the inorder position of the node the search reaches |
| Trees.OverwriteMissing | binary_search_tree/linkedbst.py:220-230 | when the search misses, nothing changes |
| Trees.OverwriteKeepsBstIff | binary_search_tree/linkedbst.py:220-229 | on an ordered tree the order survives the overwrite if and only if the new key lies between the inorder neighbours of the overwritten node |
| BinarySearchTree.LinkedBST.Height | binary_search_tree/linkedbst.py:232-252 | on a non-empty tree the height is less than the node count, bounds every downward path, and is reached by one |
| Trees.Height | binary_search_tree/linkedbst.py:238-250 | the height of a non-empty tree is always below its number of nodes |
| Trees.HeightBoundsPaths | binary_search_tree/linkedbst.py:238-250 | no root-to-node path has more edges than the height |
| Trees.DeepestPath | binary_search_tree/linkedbst.py:238-250 | some root-to-node path has exactly as many edges as the height |
| Balance.SizeBelowPow2Height | binary_search_tree/linkedbst.py:238-250 | a tree of height h holds fewer than 2^(h+1) keys |
| BinarySearchTree.LinkedBST.RangeFind | binary_search_tree/linkedbst.py:261-266 | the result is the first-index slice of the inorder list on every tree, ordered or not: ValueError exactly when a bound is not a key, otherwise a contiguous slice; on an ordered tree, every key from `low` below `high` and then one copy of `high`, or nothing when `high < low` |
| BinarySearchTree.RangeSlice | binary_search_tree/linkedbst.py:266 | the slice from the first index of `low` to the first index of `high` inclusive fails with ValueError exactly when a bound is not in the list, and is otherwise a contiguous slice of the list |
| BinarySearchTree.RangeSliceAt | binary_search_tree/linkedbst.py:266 | with both bounds present, the slice is the elements from the first `low` up to the first `high`, then that `high`; it is empty when the first `high` comes before the first `low` |
| BinarySearchTree.RangeSliceSorted | binary_search_tree/linkedbst.py:265-266 | on a sorted list, the slice from the first `low` to the first `high` inclusive is the keys in [low, high) followed by `high` |
| BinarySearchTree.LinkedBST.Rebalance | binary_search_tree/linkedbst.py:268-283 | the new tree is the middle-first rebuild of the old inorder list; it is ordered, keeps every key and the count, and on an ordered tree keeps the inorder sequence |
| BinarySearchTree.LinkedBST.AddMiddleFirst | binary_search_tree/linkedbst.py:274-279 | adding the middle key and then recursing on both halves gives the rebuild function, adds one to the count per key and keeps the order |
| Balance.AddMiddleFirst | binary_search_tree/linkedbst.py:274-279 | rebuilding onto a non-empty tree, or from a non-empty list, gives a non-empty tree |
| Balance.AddMiddleFirstContents | binary_search_tree/linkedbst.py:274-279 | the rebuild adds every key of the list once and nothing else |
| Balance.AddMiddleFirstSize | binary_search_tree/linkedbst.py:274-279 | the rebuild adds one node per key of the list |
| Balance.AddMiddleFirstKeepsBST | binary_search_tree/linkedbst.py:274-279 | the rebuild keeps the ordering invariant |
| Balance.RebuildKeepsInorder | binary_search_tree/linkedbst.py:281-283 | rebuilding an empty tree from a sorted list gives that list back in inorder |
| Balance.AddMiddleFirstGoesLeft | binary_search_tree/linkedbst.py:274-279 | keys all smaller than the root's key all land in its left subtree |
| Balance.AddMiddleFirstGoesRight | binary_search_tree/linkedbst.py:274-279 | keys all at least the root's key all land in its right subtree |
| Balance.RebuildShape | binary_search_tree/linkedbst.py:274-279 | with distinct keys, the middle key is the root and the two halves are rebuilt below it |
| Balance.RebuildHeight | binary_search_tree/linkedbst.py:268-283 | with distinct keys, 2^height of the rebuilt tree is at most the number of keys |
| Balance.RebuildNoTaller | binary_search_tree/linkedbst.py:268-283 | with distinct keys, the rebuild is never taller than the tree it replaces |
| Balance.RebuildCanGrowTaller | binary_search_tree/linkedbst.py:268-283 | with repeated keys the rebuild can be taller: a tree of three 3s at height 1, reached by `add` and `remove`, is rebuilt as a chain of height 2 |
| BinarySearchTree.LinkedBST.Successor | binary_search_tree/linkedbst.py:285-297 | a result is the first inorder key greater than the item, on every tree; there is none exactly when no key is greater; on an ordered tree it is the smallest greater key |
| BinarySearchTree.LinkedBST.Predecessor | binary_search_tree/linkedbst.py:299-313 | a result is the last inorder key smaller than the item, on every tree; there is none exactly when no key is smaller; on an ordered tree it is the largest smaller key |

## Left out

- `__str__` (linkedbst.py:25-38) builds a display string and is not modelled.
- `is_balanced` (linkedbst.py:254-259) compares the height with a floating-point logarithm and is not modelled. `Balance.RebuildHeight` states the integer bound instead.
- `preorder`, `postorder` and `levelorder` (linkedbst.py:53-55, 70-76) are stubs that return `None`, and are not modelled.
- The benchmarking helpers (linkedbst.py:315-383) are not modelled. `make_simp_tree` and `make_random_tree` build trees, the latter from a shuffled copy of the list; `search_with_vocab` and `search_with_tree` look words up; `demo_bst` reads a file, samples words, times the searches and prints the results.
- abstractcollection.py, bstnode.py and linkedstack.py are not part of this model. Only what the tree uses from them is modelled: the `_size` count and `isEmpty`, a node as a `Tree` value, and a stack as a sequence whose top is its last element.
- Keys are integers rather than any comparable Python values.
- Python's call-depth limit is not modelled. `add`'s and `find`'s `recurse` (linkedbst.py:86-94, 108-120), `inorder`'s `recurse` (61-65) and `height1` (238-250) recurse once per level. On a chain deeper than about a thousand levels, as sorted input builds, they raise RecursionError. That error also reaches `remove` (through `in` at line 135) and `range_find`, `successor`, `predecessor` and `rebalance` (through `inorder`). In the model these operations always complete. Only the loops of `__iter__`, `replace` and `remove` are depth-safe in the source too.
- A node updated in place is modelled as a fresh path from the root to that node, so aliasing of node objects is not modelled.
- BinarySearchTree.LinkedBST.Iter: yields no keys lazily; it returns the whole preorder sequence that the generator yields, so a tree changed during iteration is not modelled.
- BinarySearchTree.LinkedBST.Remove: the `return None` statements at linkedbst.py:157 and :179 cannot be reached once the membership test at line 135 has passed, so they are not modelled.
- BinarySearchTree.LinkedBST.Height: requires a non-empty tree. On an empty tree the source fails with an attribute error on `None`, and that failure is not modelled.
- BinarySearchTree.LinkedBST.RangeFind: follows the code rather than its docstring. With repeated keys only the first copy of `high` is included, and a bound that is not a key raises ValueError rather than acting as a range limit.
- Balance.RebuildHeight: the minimal-height bound is proved only for distinct keys. With repeated keys an equal key can be routed away from the middle, and no height bound is stated.
- Balance.RebuildNoTaller: proved only for distinct keys. With repeated keys it is false, as `Balance.RebuildCanGrowTaller` shows.
- Trees.IsBST: the order the model proves is the non-strict one. The strict one is not kept by `remove` (see `Trees.DeleteBreaksStrictOrder`).
