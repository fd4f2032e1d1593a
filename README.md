# bstree: a verified model of the unbalanced binary-search-tree map

This project models `bstree/core.py` in Dafny. That file defines an unbalanced
binary-search-tree map with two classes:

- `Node` holds a read-only key, a value and two child links. Nodes compare by key alone.
- `BSTree` holds a root link and a running node count. It provides iterative lookup
  (`get`), insert-or-update (`add`) and three-case deletion (`remove`, through
  `_swap_node`). It also provides leftmost and rightmost descent (`_find_min_node`,
  `_find_max_node`, with `find_min` and `find_max` on top) and the container protocol:
  `len`, `in`, `bool`, `tree[key]` and `tree[key] = value`.

The model is imperative, like the source.

- `BstNode.Node` is a class. Its key is a `const` field; its value and links are mutable fields.
- `BstTree.BSTree` is a class with `root` and `count`. Every `while` loop of the source
  is a `while` loop over the heap, with invariants.
- Each tree carries three ghost fields:
  - `shape`, a `BstShape.Tree` value that the heap links mirror;
  - `Contents`, the key-to-value map the tree holds;
  - `Repr`, its footprint.
- `BSTree.Valid()` says four things:
  - the links from `root` form exactly the finite, unshared tree `shape`;
  - `shape` is ordered;
  - the nodes hold `Contents`;
  - `count` is never below the number of nodes, and it is zero exactly when there is no root.
- The operations are stated on `shape` as heap-free functions in `BstShape`: `Find`,
  `Leftmost`, `Rightmost`, `InsertShape` and `RemoveShape` (with `Splice`). The lemmas
  there prove what the tree promises about them: ordering kept, keys found, keys added
  and removed.
- Each method's `ensures` ties the new heap, `shape` and `Contents` to those functions.

The source's quirks are kept as written:

- **Two-children `remove`.** The search for a replacement starts at the target itself
  (bstree/core.py:144), so it finds the leftmost node of the target's left subtree. The
  link to the target is pointed at that node, which keeps its own right subtree, so the
  target's right subtree and the rest of its left subtree drop out of the tree. The count
  still goes down by one only.
  `RemoveTwoChildrenDropsRight` and `RemoveScenario` exhibit this. For that reason the
  count is an upper bound on the number of nodes, not an equality.
- **The `root` setter refuses `None`** (bstree/core.py:193-194). Removing the key of a
  root without children therefore fails with `TypeError` and changes nothing, the count
  included.
- **Missing nodes are dereferenced.** `find_min` and `find_max` on an empty tree, and
  `tree[key]` and `tree[key] = value` on an absent key, read or write a field of `None`. The model
  returns `Err(AttributeError)` or `Fail(AttributeError)` there (module `Wrappers`).

Keys are unbounded integers. Values have a type parameter `V`.

## Model

| member | source | states |
|---|---|---|
| BstNode.Node.constructor | bstree/core.py:20-24 | a new node holds the given key, value and both links |
| BstNode.Node.Lt | bstree/core.py:29-30 | `<` never holds between a node and itself, nor between two nodes with equal keys; `OrderedAgreesWithLt` shows that the smaller key gives the smaller node |
| BstNode.Node.Gt | bstree/core.py:32-33 | `a > b` holds exactly when `b < a` |
| BstNode.Node.Le | bstree/core.py:35-36 | `a <= b` holds exactly when `b < a` fails |
| BstNode.Node.Ge | bstree/core.py:38-39 | `a >= b` holds exactly when `a < b` fails |
| BstNode.Node.Eq | bstree/core.py:26-27 | `a == b` holds exactly when neither node is below the other, and exactly when both `<=` and `>=` hold; `OrderedAgreesWithLt` shows that distinct nodes of a tree are never `==` |
| BstShape.OrderedAgreesWithLt | bstree/core.py:26-30 | in an ordered tree, node `<` is the tree's order: every node on the left is `<` the top node, the top node is `<` every node on the right, and two nodes of the tree are `==` exactly when they are the same node |
| BstNode.LtIsStrictTotalOrder | bstree/core.py:26-30 | exactly one of `a < b`, `a == b`, `b < a` holds, and `<` is transitive |
| BstNode.ComparisonIgnoresValues | bstree/core.py:26-39 | all five comparisons depend on the keys only, never on values or links |
| BstShape.Find | bstree/core.py:84-92 | the subtree the search stops at, if not empty, holds the key at its top and is a subtree of the tree |
| BstShape.FindComplete | bstree/core.py:84-92 | on an ordered tree the search for a key fails exactly when the key is absent |
| BstShape.FindMember | bstree/core.py:84-92 | on an ordered tree the search for any node's key finds that very node |
| BstShape.OrderedDistinct | bstree/core.py:102-119 | an ordered tree never holds a node twice, so the links stay acyclic and unshared |
| BstShape.OrderedKeysCount | bstree/core.py:198-199 | an ordered tree holds as many distinct keys as it has nodes |
| BstShape.Leftmost | bstree/core.py:157-166 | the left-link chain ends at a node without a left child, which belongs to the tree; it is empty only for the empty tree |
| BstShape.Rightmost | bstree/core.py:168-177 | the right-link chain ends at a node without a right child, which belongs to the tree; it is empty only for the empty tree |
| BstShape.LeftmostIsMin | bstree/core.py:157-166 | on an ordered non-empty tree the leftmost node holds the smallest key |
| BstShape.RightmostIsMax | bstree/core.py:168-177 | on an ordered non-empty tree the rightmost node holds the largest key |
| BstShape.InsertShape | bstree/core.py:102-119 | where `add` puts a new key: a new leaf at the empty slot the descent reaches; the result is never empty and keeps the old top node (the new node becomes the top only of an empty tree) |
| BstShape.Splice | bstree/core.py:139-144 | what replaces the target: empty exactly when the target has no child; with two children, the leftmost node of the left subtree, which has no left child |
| BstShape.RemoveShape | bstree/core.py:121-147 | where `remove` leaves the tree: the descent with the subtree it stops at replaced by its `Splice`; the empty tree stays empty and the top node stays unless it holds the key |
| BstShape.ParentSurvives | bstree/core.py:129-145 | the node the descent came from stays in the tree after the removal below it |
| BstShape.InsertKeys | bstree/core.py:102-119 | insertion adds exactly the new key; a new key adds exactly the new node and one position; a present key leaves an ordered tree unchanged |
| BstShape.InsertOrdered | bstree/core.py:102-119 | insertion keeps the tree ordered |
| BstShape.InsertDistinct | bstree/core.py:106-117 | inserting a node not yet in the tree keeps the tree free of sharing |
| BstShape.HoldsInsert | bstree/core.py:106-117 | after inserting a leaf with a new key, the tree holds the old map plus that key with the leaf's value |
| BstShape.InsertPlug | bstree/core.py:102-119 | inserting below a position whose steps the key respects is inserting into the subtree at that position |
| BstShape.InsertScenario | bstree/core.py:94-119 | adding keys 5, 2, 8, 1, 9 builds 5 over 2 and 8, with 1 left of 2 and 9 right of 8 |
| BstShape.RemoveShrinks | bstree/core.py:121-147 | removal keeps only nodes and keys of the tree, keeps it ordered and unshared, loses at least one position when the key is found, and changes nothing when the key is absent |
| BstShape.RemoveKeys | bstree/core.py:139-145 | after removal the key is gone, and the keys of the subtree at the target are replaced by those of its replacement |
| BstShape.RemoveOneChildKeys | bstree/core.py:139-142 | when the target has at most one child, exactly its key disappears |
| BstShape.RemoveTwoChildrenDropsRight | bstree/core.py:143-145 | when the target has two children, every key of its right subtree disappears too, so strictly more than one key is lost |
| BstShape.HoldsRemove | bstree/core.py:139-147 | after removal the tree holds the old map restricted to the keys still in the tree |
| BstShape.RemovePlug | bstree/core.py:125-145 | removing below a position whose steps the key respects is removing from the subtree at that position |
| BstShape.RemoveScenario | bstree/core.py:143-147 | removing 5 from the tree above leaves only key 1: the leftmost node replaces 5 and keys 2, 8 and 9 are lost |
| BstTree.BSTree.constructor | bstree/core.py:77-79 | a new tree is valid, holds nothing, has count 0 and no root |
| BstTree.BSTree.SetRoot | bstree/core.py:191-196 | the root setter fails with `TypeError` and keeps the root for `None`, and installs any node |
| BstTree.BSTree.Get | bstree/core.py:81-92 | the result is `null` exactly when the key is absent; otherwise it is a node of the tree with that key and its value |
| BstTree.BSTree.Add | bstree/core.py:94-119 | afterwards the tree maps the key to the new value and stays valid; a present key changes no link, no count and no footprint; a new key adds one fresh node, placed where `InsertShape` puts it, and the count grows by one |
| BstTree.BSTree.Descend | bstree/core.py:100-119 | the descent stops at the node holding the key, or at a node whose link on the key's side is empty; the path from the root to it is recorded and respects the key |
| BstTree.BSTree.Hang | bstree/core.py:106-117 | a new leaf with an absent key is hung on the empty link: the shape becomes `InsertShape` of the old one, the map gains the key and the count grows by one |
| BstTree.BSTree.Attach | bstree/core.py:107-115 | writing the new leaf into the empty link makes the heap mirror the old tree with that leaf inserted |
| BstTree.BSTree.Overwrite | bstree/core.py:103-105 | writing a node's value changes what the tree holds at that key only, and keeps the tree valid |
| BstTree.BSTree.Remove | bstree/core.py:121-147 | fails with `TypeError` exactly when the root is childless and holds the key, and then changes nothing; an absent key changes nothing; otherwise the shape becomes `RemoveShape` of the old one, the key is gone and the count drops by exactly one; the map only loses keys; with at most one child exactly the key is lost, with two children strictly more; no node value changes, and nodes dropped from the tree keep their links |
| BstTree.BSTree.Locate | bstree/core.py:122-137 | the descent ends at the node holding the key, or at `null` where the search of the tree runs out; `parent` is the node it came from (`null` at the root), and the path from the root respects the key |
| BstTree.BSTree.Delete | bstree/core.py:139-147 | fails exactly for a childless root, and then nothing changes; otherwise the shape becomes `RemoveShape` of the old one, the count drops by one, the map keeps the keys still in the tree and the parent stays in the tree; only the parent's links can change, and no value changes |
| BstTree.BSTree.CommitRemove | bstree/core.py:147 | the count drops by one; the tree becomes `RemoveShape` of the old one, and the contents keep only the keys still in it |
| BstTree.BSTree.Unlink | bstree/core.py:139-145 | the link to the target now points at its replacement, so the heap mirrors the tree with the key removed; fails, with `TypeError` and no change, exactly for a childless root; no link other than the parent's changes, and no value changes |
| BstTree.BSTree.Replacement | bstree/core.py:139-144 | the replacement is the left subtree without a right child, the right subtree without a left child, or else the leftmost node below the target; it is `null` exactly when the target has no child |
| BstTree.BSTree.SwapNode | bstree/core.py:149-155 | without a parent the root setter is used; otherwise the parent's left link is rewritten if it is the current child, else its right link, and the other link and the root stay as they were |
| BstTree.BSTree.FindMinNode | bstree/core.py:157-166 | returns the top of `Leftmost` of the mirrored tree, a node without a left child; `null` exactly for `null` |
| BstTree.BSTree.FindMaxNode | bstree/core.py:168-177 | returns the top of `Rightmost` of the mirrored tree, a node without a right child; `null` exactly for `null` |
| BstTree.BSTree.FindMin | bstree/core.py:179-181 | fails with `AttributeError` exactly on an empty tree; otherwise returns a held key and its value, and no held key is smaller |
| BstTree.BSTree.FindMax | bstree/core.py:183-185 | fails with `AttributeError` exactly on an empty tree; otherwise returns a held key and its value, and no held key is larger |
| BstTree.BSTree.Len | bstree/core.py:198-199 | returns the running count, which is at least the number of held keys, and zero exactly when nothing is held |
| BstTree.Item.Key | bstree/core.py:202-205 | the key of a key argument, or the key of a node argument |
| BstTree.BSTree.Contains | bstree/core.py:201-207 | true exactly when the key, or the key of the given node, is held |
| BstTree.BSTree.IsTruthy | bstree/core.py:209-210 | true exactly when something is held, and exactly when the count is non-zero |
| BstTree.BSTree.GetItem | bstree/core.py:212-213 | the value held for the key, or `AttributeError` exactly when the key is absent |
| BstTree.BSTree.SetItem | bstree/core.py:215-217 | a present key gets the new value and nothing else changes: no link, no other value, no count, no root; an absent key fails with `AttributeError` and changes nothing |

## Left out

- The `isinstance` checks of the child setters and `is_node` (bstree/core.py:57-73, 228-233) are not modelled. Links are typed `Node?`, so a child that is not a node cannot be written. The root setter's refusal of `None` is kept, because it changes what `remove` does.
- The factories `_new_node` and `new_bstree` (bstree/core.py:220-241), `__slots__` and `__all__` are plain object construction or module plumbing. The model calls the constructors directly. The `Node` constructor takes both links as required arguments, where the source defaults them to `None`; every call passes `null`.
- Python compares keys of any types dynamically. The model fixes keys to `int`, which has one total order.
- `__eq__` without `__hash__` makes nodes unhashable in Python. Hashing is not part of the tree's behaviour.
- The exception types are Python's own. A raised exception is modelled as an `Err` or `Fail` result, and the operation returns at that point.
- Running time and degenerate chains from sorted input are not modelled.
- BstTree.BSTree.Add: for a present key the contract states that the shape, count and footprint are unchanged and only the map entry for the key changes. It does not list each unchanged link field one by one; that follows from the shape and the invariant.
