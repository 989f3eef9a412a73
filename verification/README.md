# Verified model of a collection of textbook data structures

The repository is a teaching collection of data structures in Python. This
project models its core in Dafny and proves what each structure promises.

The search trees cover four variants of one design:
- a plain binary search tree (Tree/BST.py);
- an AVL tree that rebalances after each change (Tree/AVL.py);
- a tree whose nodes record subtree sizes for `rank` and `range` queries
  (Tree/SizeBST.py);
- the combination of the two (BST/SizeAVL.py).

All four share one `Node` class with key, child, parent, height and size
fields. `SearchTree.Tree` is one class with two constant flags: `avl` says
whether it rebalances and `sized` whether it keeps sizes. The earlier
size-augmented tree under BST/ (BST/SizeBST.py, whose node operations
BST/AVLTree.py repeats line for line) has distinct keys. It is modelled by
the `CountedTree` node operations and the `SizedTree.SizeTree` class.

Each tree is a real object graph: the methods update `left`, `right`,
`parent`, `key`, `height` and `size` fields in place. A ghost `Shape` value
describes the nodes as a tree and a ghost `Ctx` describes the path from the
root to a subtree. The contracts say what the keys become (`InsertSorted`,
`RemoveOne`), that links, heights and sizes stay right, and that the AVL
trees stay balanced.

The other structures:
- the binary min-heap of Heap/Heap.py, a class over a sequence of items;
- the van Emde Boas tree of Tree/vEB.py, as a recursive datatype with its
  set of keys `Elems`;
- the trie of Tree/PrefixTree.py, a class whose nodes are addressed by the
  prefix that reaches them;
- the skip list of LinkList/SkipList.py, a class whose levels are sequences
  of cells, each cell carrying the number of the tower it belongs to.

BST/BST.py is not part of this model. BST/SizeBST.py and BST/AVLTree.py
extend it, so the tree-level `remove` and `find` they inherit are not
modelled for them.

## Model

| member | source | states |
|---|---|---|
| TreeShape.Node.constructor | Tree/BST.py:9-23 | a fresh node holds its key and parent and has no children; also Tree/AVL.py:13-22: an AVLNode starts with height 1; also Tree/SizeBST.py:20-29: a SizeBSTNode starts with size 1 |
| BstNode.Find | Tree/BST.py:63-88 | returns a node holding `k`; in a sorted tree, it returns null exactly when `k` is absent |
| BstNode.FindAtSpec | Tree/BST.py:63-88 | `find` returns the top of the place where `k` is or would be, and that place lies inside the tree |
| BstNode.FindMin | Tree/BST.py:178-192 | the leftmost node: first in key order, with no left child, holding a key no larger than any other |
| BstNode.FindMax | Tree/BST.py:162-176 | the rightmost node: last in key order, holding a key no smaller than any other |
| BstNode.NextLarger | Tree/BST.py:147-160 | the node that follows `self` in key order, found through the right subtree or the parent chain; null when `self` is last |
| BstNode.InsertUnder | Tree/BST.py:90-111 | the new leaf hangs at the insertion path: smaller keys go left, equal and larger keys go right; all links stay right |
| BstNode.InsertPathSplit | Tree/BST.py:90-111 | in a sorted tree the insertion place splits the keys into those at most `k` and those above `k` |
| BstNode.Splice | Tree/BST.py:118-130 | a node with at most one child is replaced by that child under its parent; no key changes |
| BstNode.SwapKeys | Tree/BST.py:131-145 | the two-child case trades the node's key with its successor's; no link changes |
| BstNode.Remove | Tree/BST.py:113-145 | returns the node that held the removed key; the keys of the subtree lose exactly that key; links stay right |
| BstNode.RemoveKeys | Tree/BST.py:131-145 | moving the successor's key up leaves the keys of the subtree in the same order, less the removed one |
| SortedKeys.InsertSortedSorted | Tree/BST.py:90-111 | inserting a key into a sorted sequence after every key not greater than it keeps the sequence sorted |
| SortedKeys.InsertSortedCount | Tree/BST.py:90-111 | the insertion adds one occurrence of the key and leaves the other counts alone |
| SortedKeys.RemoveOneCount | Tree/BST.py:113-145 | removal takes away exactly one occurrence of the key |
| SortedKeys.RemoveAnyOccurrence | Tree/BST.py:113-145 | in a sorted sequence, removing any one occurrence of a key gives the same sequence |
| SearchTree.Tree.constructor | Tree/BST.py:214-222 | an empty tree of the chosen variant satisfies the invariant |
| SearchTree.Tree.Find | Tree/BST.py:230-243 | the node holding `k`, or null exactly when `k` is not a key |
| SearchTree.Tree.FindMin | Tree/BST.py:317-320 | `None` exactly on an empty tree; otherwise the least key |
| SearchTree.Tree.FindMax | Tree/BST.py:322-325 | `None` exactly on an empty tree; otherwise the greatest key |
| SearchTree.Tree.NextLarger | Tree/BST.py:294-305 | null when `k` is absent; otherwise the node after `find(k)` in key order, or null when that node is last |
| SearchTree.Tree.NextLargerMeaning | Tree/BST.py:294-305 | the node found holds a key at least `k`, and there is one whenever some key exceeds `k` |
| SearchTree.Tree.Insert | Tree/BST.py:245-263 | the keys become `InsertSorted(old keys, k)` and the tree gains exactly one fresh node; the invariant holds, balance included for AVL trees; also Tree/AVL.py:123-138: AVL.insert: the same, with the rebalancing walk run from the new leaf under the strict rotation rule of the source; also Tree/SizeBST.py:114-129: SizeBST.insert: the same, with every size on the path recounted |
| SearchTree.Tree.Remove | Tree/BST.py:265-292 | the node holding `k` leaves the tree; the keys become `RemoveOne(old keys, k)`; the root case goes through a pseudoroot; also Tree/AVL.py:140-155: AVL.remove: the same, followed by the rebalancing walk from the removed node's parent; the tree ends balanced; also Tree/SizeBST.py:131-146: SizeBST.remove: the same, with the sizes recounted from the removed node's parent up |
| SearchTree.Tree.Hang | Tree/BST.py:277-280 | removing the root first hangs the tree under a fresh pseudoroot holding 0 |
| SearchTree.Tree.Lift | Tree/BST.py:281-288 | after removing the root, whatever hangs below the pseudoroot becomes the root and has no parent |
| SearchTree.Tree.UpdateInfo | Tree/AVL.py:24-25 | `_update_info`: one node's height, and in SizeAVL its size too, from its children's; also BST/SizeAVL.py:27-29: SizeAVLNode._update_info: height and size from the children |
| SearchTree.Tree.UpdateSizes | Tree/SizeBST.py:31-34 | the node's size and every ancestor's size are recounted; all sizes are right afterwards |
| SearchTree.Tree.LeftRotate | Tree/AVL.py:87-103 | the subtree becomes `RotateLeft` of itself under the same parent, or becomes the root; both moved nodes have their fields recomputed |
| SearchTree.Tree.RightRotate | Tree/AVL.py:105-121 | the mirror image of `LeftRotate` |
| SearchTree.Tree.DoubleLeft | Tree/AVL.py:77-78 | the right child is rotated right, then the node is rotated left |
| SearchTree.Tree.DoubleRight | Tree/AVL.py:83-84 | the mirror image |
| SearchTree.Tree.LeanLeft | Tree/AVL.py:73-78 | the right child is the heavy one: single rotation when its outer child is taller, and with the tie-inclusive rule also when they are equal; otherwise double |
| SearchTree.Tree.LeanRight | Tree/AVL.py:79-84 | the mirror image |
| SearchTree.Tree.Rotations | Tree/AVL.py:73-84 | the subtree becomes `Fix(subtree, strict)` in place with fields right |
| SearchTree.Tree.RepairAt | Tree/AVL.py:71-84 | one pass of the `_rebalance` loop: refresh the node's fields, then rotate as `Fix` says |
| SearchTree.Tree.Climb | Tree/AVL.py:71-85 | one pass keeps the nodes and keys in order and moves the walk strictly closer to its end; on the insertion walk it keeps `InsertWalk` |
| SearchTree.Tree.Rebalance | Tree/AVL.py:70-85 | the whole walk to the root leaves the same nodes and keys in the same order, every field right and the tree balanced |
| SearchTree.Tree.Rank | Tree/SizeBST.py:90-100 | the number of keys at most `k`; 0 on an empty tree; also BST/SizeAVL.py:96-106: the same for SizeAVL |
| SearchTree.Tree.Range | Tree/SizeBST.py:102-112 | for `k1 <= k2`, the number of keys in (k1, k2]; for `k2 < k1`, minus the number of keys in (k2, k1]; also BST/SizeAVL.py:108-118: the same for SizeAVL |
| SearchTree.Tree.List | Tree/AVL.py:157-161 | the corrected listing: the list given, followed by every key strictly between `k1` and `k2`, in order |
| SearchTree.Tree.ListAsWritten | Tree/AVL.py:157-161 | AVL.list as written: the list given, then only keys strictly between the bounds; when neither bound is a key, exactly those keys, in pre-order |
| SearchTree.Tree.CheckRi | Tree/BST.py:307-315 | `check_ri` passes exactly when the root has no parent, the links agree, each child's key is on its proper side, and the variant's fields are right; also Tree/AVL.py:163-171: AVL.check_ri: the same, with the chosen balance clause; also Tree/SizeBST.py:148-156: SizeBST.check_ri: the same, with the size test; also BST/SizeAVL.py:120-128: SizeAVL.check_ri: the same, with both |
| SearchTree.Tree.ValidPassesCheck | Tree/BST.py:307-315 | every valid tree passes its variant's check, the AVL ones with the corrected balance clause |
| SearchTree.Tree.Unlink | Tree/BST.py:265-292 | the node with key `k` is unlinked, through the pseudoroot when it is the root; the keys lose one `k` |
| SearchTree.Tree.Restore | Tree/AVL.py:140-155 | after unlinking, an AVL retraces and a SizeBST recounts; the invariant is restored and no other node is lost |
| SearchTree.MoveUp | Tree/AVL.py:85 | after a pass that did not rotate, the parent becomes the node to repair: both its children are balanced with right heights, and they differ by at most 2 |
| SearchTree.InsertKeys | Tree/BST.py:90-111 | hanging a leaf with `k` at its insertion place gives keys `InsertSorted(keys, k)` |
| SearchTree.RemovedKeys | Tree/BST.py:113-145 | removing a node from a sorted tree removes one occurrence of its key |
| AvlShape.RotateLeft | Tree/AVL.py:87-103 | the right child becomes the top and the old top its left child |
| AvlShape.RotateRight | Tree/AVL.py:105-121 | the mirror image |
| AvlShape.RotateLeftOrder | Tree/AVL.py:87-103 | a rotation keeps the keys and nodes in the same in-order sequence |
| AvlShape.RotateRightOrder | Tree/AVL.py:105-121 | the same for the right rotation |
| AvlShape.FixOrder | Tree/AVL.py:70-85 | a repair pass keeps the keys and nodes in order |
| AvlShape.FixBalanced | Tree/AVL.py:70-85 | at a node whose children are balanced and differ by at most 2, the tie-inclusive pass leaves a balanced subtree whose height grows by at most one; it leaves a subtree that was already balanced unchanged |
| AvlShape.SingleLeftBalanced | Tree/AVL.py:74-75 | the single left rotation balances a right-heavy node whose right child leans outward or is level |
| AvlShape.DoubleLeftBalanced | Tree/AVL.py:76-78 | the double rotation balances a right-heavy node whose right child leans inward |
| AvlShape.SingleRightBalanced | Tree/AVL.py:80-81 | the mirror image of the single case |
| AvlShape.DoubleRightBalanced | Tree/AVL.py:82-84 | the mirror image of the double case |
| AvlShape.RepairStep | Tree/AVL.py:70-85 | one pass of the walk keeps the subtree within one of its recorded height and still repairable |
| AvlShape.UntiedFix | Tree/AVL.py:74 | where the heavy child's children differ in height, the strict rule and the tie-inclusive rule choose the same rotation |
| AvlShape.RisingStep | Tree/AVL.py:70-85 | on the walk after an insertion, a pass leaves height `h` or `h + 1`; a subtree that grew has children of unequal height; a rotated subtree is again a state of the walk |
| AvlShape.RisingUp | Tree/AVL.py:85 | climbing to the parent after an insertion pass gives a state of the insertion walk, so the walk never meets a tie |
| AvlShape.StrictTieBreakUnbalances | Tree/AVL.py:74 | the strict rule leaves 3(2, 6(5(4), 7(·, 8))) unbalanced; the tie-inclusive rule balances it |
| TreeQueries.FieldsMeaning | Tree/AVL.py:63-68 | `_height` and `size` read the subtree's height and node count when the fields are right |
| TreeQueries.RankMeaning | Tree/SizeBST.py:36-58 | SizeBSTNode.rank: in a sorted subtree, the number of keys at most `k`; also BST/SizeAVL.py:31-55: SizeAVLNode.rank: the same |
| TreeQueries.RankSplit | Tree/SizeBST.py:36-58 | below the node's key only the left subtree counts; otherwise the left subtree, the node and the right part count |
| TreeQueries.RangeMeaning | Tree/SizeBST.py:102-112 | the difference of two ranks is the number of keys in (k1, k2] |
| TreeQueries.ListAsWritten | Tree/AVL.py:27-37 | AVLNode.list as written: it only appends keys strictly between the bounds, keys of the subtree, after the list given |
| TreeQueries.ListAsWrittenPreOrder | Tree/AVL.py:27-37 | the node listing appends the pre-order walk `PreOrder` to the list it is given |
| TreeQueries.PreOrderComplete | Tree/AVL.py:27-37 | when neither bound is a key, the walk yields each key strictly between the bounds exactly once |
| TreeQueries.ListAsWrittenComplete | Tree/AVL.py:27-37 | the listing as written holds exactly the keys strictly between the bounds, as a multiset, when neither bound is a key |
| TreeQueries.ListAsWrittenMissesKeys | Tree/AVL.py:34-37 | on root 1 with right child 2, `list(1, 3)` as written yields [] where the keys between are [2] |
| TreeQueries.ListMeaning | Tree/AVL.py:27-37 | the corrected listing appends exactly the keys strictly between the bounds, in sorted order |
| TreeQueries.CheckRi | Tree/BST.py:194-210 | BSTNode.check_ri: passes exactly when the links agree and each child's key is on its proper side; also Tree/AVL.py:39-57: AVLNode.check_ri: the same, with the balance clause as written or corrected; also Tree/SizeBST.py:60-80: SizeBSTNode.check_ri: the same, with every size one more than the children's; also BST/SizeAVL.py:57-79: SizeAVLNode.check_ri: the same, with both; also BST/SizeBST.py:131-151: the node check of the earlier SizeBST, with the size test; also BST/AVLTree.py:138-156: the node check of BST/AVLTree.py: with `NoBalance` and no size test, since its size sum is computed but never compared |
| TreeQueries.AsWrittenClauseVacuous | Tree/AVL.py:48-49 | the balance clause as written holds for every pair of heights |
| TreeQueries.AsWrittenCheckPassesChain | BST/SizeAVL.py:67-68 | the chain 1 -> 2 -> 3 with right heights passes `check_ri` as written and fails the corrected clause |
| TreeQueries.FieldsBalancedMeaning | Tree/AVL.py:48-49 | with right height fields, the corrected clause is the tree's balance |
| TreeQueries.SortedLocallyOrdered | Tree/BST.py:194-210 | a sorted tree passes the key comparisons of `check_ri` |
| TreeQueries.LocalOrderIsWeaker | Tree/BST.py:194-210 | the comparisons only look at neighbours: 2(1(·, 3)) passes although it is not sorted |
| CountedTree.Insert | BST/SizeBST.py:26-65 | the leaf goes in exactly when its key is absent; every size on the path gains one; otherwise nothing changes |
| CountedTree.DecrementAncestors | BST/SizeBST.py:84-87 | the loop up the parent pointers subtracts one from every size on the path |
| CountedTree.SpliceOut | BST/SizeBST.py:76-90 | the one-child case unlinks the node and takes one from every ancestor |
| CountedTree.Remove | BST/SizeBST.py:67-97 | corrected remove: the keys lose the node's key and every size in the tree is right afterwards |
| CountedTree.RemoveAsWritten | BST/SizeBST.py:67-97 | remove as written: links and keys as in the corrected one; in the two-child case the sizes on the successor's path are one too small and the size test fails |
| CountedTree.OffNotOk | BST/SizeBST.py:131-151 | sizes off by a nonzero amount on the path make the size test fail |
| SizedTree.SizeTree.constructor | BST/SizeBST.py:158-159 | an empty tree |
| SizedTree.SizeTree.Insert | BST/SizeBST.py:170-183 | the keys gain `k` exactly when it was absent; sizes and links stay right |
| SizedTree.SizeTree.Add | BST/SizeBST.py:182-183 | the non-empty case: `ok` exactly when the key was absent, the keys then `InsertSorted` |
| SizedTree.RankCounted | BST/SizeBST.py:99-129 | corrected node rank: the number of keys at most `k`, or below `k` without `count_k` |
| SizedTree.NodeRankAsWrittenSound | BST/SizeBST.py:99-129 | rank as written: when it answers, it is the corrected rank; it fails when `k` is above a node with a right child and no left child |
| SizedTree.RankAsWrittenFails | BST/SizeBST.py:129 | on root 1 with right child 2, `rank(3, True)` fails as written; the corrected rank is 2 |
| SizedTree.SizeTree.Rank | BST/SizeBST.py:185-199 | corrected rank of a non-empty tree: the number of keys at most the bound `count_k` selects |
| SizedTree.SizeTree.RankAsWritten | BST/SizeBST.py:185-199 | rank as written: when it answers, it is the count; it fails when the root has only a right child and `k` is above the root |
| SizedTree.SizeTree.Range | BST/SizeBST.py:201-209 | corrected range: for any bounds, the keys at most `k2` minus the keys below `k1`; for `k1 <= k2 + 1` the number of keys in [k1, k2], otherwise minus the number of keys in [k2 + 1, k1 - 1] |
| SizedTree.SizeTree.RangeAsWritten | BST/SizeBST.py:201-209 | range as written: answers exactly when both ranks do, and then gives the keys at most `k2` minus the keys below `k1`: the count in [k1, k2], or minus the count in [k2 + 1, k1 - 1] when `k1 > k2 + 1` |
| SizedTree.RangeCounted | BST/SizeBST.py:201-209 | the node-level difference of ranks is the keys at most `k2` minus the keys below `k1`: the count in [k1, k2], or minus the count in [k2 + 1, k1 - 1] when `k1 > k2 + 1` |
| SizedTree.SizeTree.CheckRi | BST/SizeBST.py:211-219 | passes exactly when the root has no parent, the links agree, the keys are locally ordered and the sizes are right |
| SizedTree.SizeTree.ValidPassesCheck | BST/SizeBST.py:211-219 | every valid tree passes `check_ri` |
| SizedTree.EdgeHeightMeaning | BST/AVLTree.py:8-12 | with right fields, `height` gives the subtree's height in edges, -1 for an absent node |
| SizedTree.UpdateHeight | BST/AVLTree.py:14-15 | `update_height` makes the node's height right from its children's |
| SizedTree.FreshLeafHeight | BST/AVLTree.py:22-31 | a new AVLNode's height of 1 disagrees with the convention of `height`, under which a leaf has height 0 |
| MinHeap.ParentChild | Heap/Heap.py:56-66 | the index helpers are inverse: each child's parent is the node, and the root's parent is -1 |
| MinHeap.SmallerChild | Heap/Heap.py:86-95 | the index of the smallest of a node and its children; the node on a tie, the left child on a tie between children |
| MinHeap.RootIsMin | Heap/Heap.py:98-107 | in heap order the root's key is a minimum |
| MinHeap.MinIsLeast | Heap/Heap.py:98-107 | the root of a heap is one of its items and no item has a smaller key |
| MinHeap.Heap.constructor | Heap/Heap.py:27-34 | `Heap(values)` is a heap holding exactly the given items |
| MinHeap.Heap.BuildHeap | Heap/Heap.py:36-54 | the items are appended, then sifted down from the last parent to the root; the result is a heap of the same multiset |
| MinHeap.Heap.HeapDown | Heap/Heap.py:68-74 | sift-down closes the one gap in heap order and only moves items |
| MinHeap.Heap.HeapTop | Heap/Heap.py:76-82 | sift-up closes the one break in heap order and only moves items |
| MinHeap.Heap.Min | Heap/Heap.py:98-107 | `None` exactly on an empty heap; otherwise an item with a minimal key |
| MinHeap.Heap.ExtractMin | Heap/Heap.py:109-126 | on an empty heap `None` and no change; otherwise returns the old root, a minimum, and the heap holds the other items, still in order |
| MinHeap.Heap.Insert | Heap/Heap.py:128-141 | the heap gains the item and stays in order |
| MinHeap.Heap.IsEmpty | Heap/Heap.py:143-155 | true exactly when `min` finds nothing |
| MinHeap.Heap.CheckRi | Heap/Heap.py:169-180 | passes exactly when the sequence is in heap order |
| VebTree.Universe | Tree/vEB.py:29-32 | for u = 2^k, the universe is the number of clusters times the cluster universe |
| VebTree.SplitKey | Tree/vEB.py:38-73 | `high` and `low` take a key of the universe to a cluster and a place in range, and `index` puts them back together |
| VebTree.Join | Tree/vEB.py:38-73 | `index` of a cluster and a place is a key of the universe, and `high` and `low` take it apart again |
| VebTree.FiledMem | Tree/vEB.py:38-60 | a key is filed exactly when its place is among the keys of its cluster |
| VebTree.FiledOf | Tree/vEB.py:62-73 | `index` puts a cluster and place back together into the key they came from |
| VebTree.Extremes | Tree/vEB.py:75-91 | the minimum and maximum fields hold the least and greatest key, and are missing exactly on the empty set |
| VanEmdeBoas.Blank | Tree/vEB.py:19-36 | `VEB(2^k)` is a valid tree with no keys |
| VanEmdeBoas.Minimum | Tree/vEB.py:75-82 | `None` exactly on the empty set; otherwise the least key |
| VanEmdeBoas.Maximum | Tree/vEB.py:84-91 | `None` exactly on the empty set; otherwise the greatest key |
| VanEmdeBoas.IsMember | Tree/vEB.py:93-105 | true exactly when the key is in the set |
| VanEmdeBoas.Successor | Tree/vEB.py:107-134 | the least key above `key`; `None` exactly when there is none |
| VanEmdeBoas.Predecessor | Tree/vEB.py:136-166 | the greatest key below `key`; `None` exactly when there is none |
| VanEmdeBoas.InsertEmpty | Tree/vEB.py:168-176 | an empty tree becomes the set {key} |
| VanEmdeBoas.Insert | Tree/vEB.py:178-199 | for a key not in the set: the tree stays valid and the set gains the key |
| VanEmdeBoas.InsertMember | Tree/vEB.py:93-105 | after `insert(key)`, `is_member` is true for the key and unchanged for every other key |
| VanEmdeBoas.Delete | Tree/vEB.py:201-234 | for a key in the set: the tree stays valid and the set loses the key |
| VanEmdeBoas.Unfiled | Tree/vEB.py:218-221 | the key taken out of the clusters: the key itself, or the least filed key when deleting the minimum |
| VanEmdeBoas.InsertAsWritten | Tree/vEB.py:178-199 | insert as written, for any key of the universe; on an absent key it equals `Insert` |
| VanEmdeBoas.DeleteAsWritten | Tree/vEB.py:201-234 | delete as written, for any key of the universe; on a present key it equals `Delete` |
| VanEmdeBoas.InsertTwiceCorrupts | Tree/vEB.py:186-195 | with u = 4, a second `insert(1)` files the minimum 1 in cluster 0 too and breaks the invariant |
| VanEmdeBoas.DeleteAbsentEmpties | Tree/vEB.py:208-210 | with u = 4, `delete(0)` on the set {2} leaves the empty set |
| VanEmdeBoas.Add | Tree/vEB.py:178-199 | insert with a membership guard: valid, and the set gains the key whether or not it was there |
| VanEmdeBoas.Discard | Tree/vEB.py:201-234 | delete with a membership guard: valid, and the set loses the key whether or not it was there |
| TrieState.Child | Tree/PrefixTree.py:22-27 | going to the child under a character creates it, unmarked, when missing, and keeps every other node |
| TrieState.Marking | Tree/PrefixTree.py:28 | marking the node at the end of the walk gives the invariant for the words plus the new one |
| TrieState.PrefixClosed | Tree/PrefixTree.py:16-28 | every prefix of a node's path is a node |
| TrieState.ReinsertKeepsNodes | Tree/PrefixTree.py:16-28 | all prefixes of an inserted word are nodes, so inserting it again creates no node |
| PrefixTree.Trie.constructor | Tree/PrefixTree.py:9-14 | only the root and no word |
| PrefixTree.Trie.Insert | Tree/PrefixTree.py:16-28 | the words gain the word, and the nodes gain exactly its missing prefixes |
| PrefixTree.Trie.SearchPrefix | Tree/PrefixTree.py:43-49 | finds a node exactly when the prefix is one, and it is the prefix's node |
| PrefixTree.Trie.Search | Tree/PrefixTree.py:30-35 | true exactly when the word was inserted |
| PrefixTree.Trie.StartsWith | Tree/PrefixTree.py:37-41 | true exactly when the prefix is empty or begins some inserted word |
| SkipLevels.Find | LinkList/SkipList.py:30-46 | the last node of the level whose key is at most the target, starting from the given node |
| SkipLevels.FindReaches | LinkList/SkipList.py:30-46 | on a sorted level, `find` stops on the target exactly when the level holds it |
| SkipLevels.Append | LinkList/SkipList.py:48-67 | the new node comes directly after the given one; the level gains exactly it, in the same order otherwise |
| SkipLevels.Delete | LinkList/SkipList.py:69-84 | the node's neighbours become adjacent; the level loses exactly it |
| SkipLevels.DeleteAppended | LinkList/SkipList.py:48-84 | deleting a node just appended gives back the level |
| SkipLevels.AppendDeleted | LinkList/SkipList.py:48-84 | appending a deleted node after its old predecessor gives back the level |
| SkipLevels.AppendOk | LinkList/SkipList.py:48-67 | a node of a new tower appended at its slot keeps the level well-formed |
| SkipLevels.DeleteOk | LinkList/SkipList.py:69-84 | deleting a node keeps the level well-formed and removes its tower from it |
| SkipLevels.Bottom | LinkList/SkipList.py:7-28 | `bottom` leads to the node of the same tower one level down |
| SkipList.Seek | LinkList/SkipList.py:169-181 | the level and position of a node holding `num`, the highest one of its tower, or -1 when `num` is absent |
| SkipList.Unlink | LinkList/SkipList.py:182-193 | deleting a tower from its top down removes that node from every level and nothing else |
| SkipList.Raise | LinkList/SkipList.py:150-167 | the new tower reaches `1 + Heads(coins)` levels, adding levels as needed; the bottom keys gain `num` |
| SkipList.Skiplist.constructor | LinkList/SkipList.py:93-100 | one level holding only the head; no keys |
| SkipList.Skiplist.Search | LinkList/SkipList.py:102-122 | true exactly when the target is a key |
| SkipList.Skiplist.Path | LinkList/SkipList.py:124-149 | the stack of slots: on each level, the node after which `num` goes |
| SkipList.Skiplist.Add | LinkList/SkipList.py:124-167 | the keys gain `num`; each of the lowest `1 + Heads(coins)` levels gains the new tower's node, and no other level changes |
| SkipList.Skiplist.Erase | LinkList/SkipList.py:169-193 | true exactly when `num` was a key; then one tower holding `num` leaves every level; otherwise nothing changes |

## Left out

- SearchTree.Tree.Find: requires a non-empty tree; `BST.find` at Tree/BST.py:230-243 calls `self.root.find` and fails on an empty tree.
- SearchTree.Tree.NextLarger: requires a non-empty tree, for the same reason (Tree/BST.py:294-305).
- SearchTree.Tree.Remove: requires `k` to be a key; `BST.remove` at Tree/BST.py:265-292 passes `find`'s null result to `remove` and fails when `k` is absent.
- SearchTree.Tree.Remove: AVL trees rebalance after a removal with the tie-inclusive rule. Tree/AVL.py:74 and 80 use a strict comparison, which can leave the tree unbalanced after a removal (see Findings). Insertion uses the strict rule, proved never to meet a tie (`AvlShape.RisingUp`, `AvlShape.UntiedFix`).
- SearchTree.Tree.List: the corrected listing; the listing as written is `SearchTree.Tree.ListAsWritten` (see Findings).
- SearchTree.Tree.ListAsWritten: returns the list the walk fills. `AVL.list` at Tree/AVL.py:157-161 returns it only for an empty tree and returns nothing otherwise, so a caller sees the keys only through the list it passed in. The default list shared between calls (`result = []`) is not modelled; the caller always passes its list.
- SizedTree.SizeTree.Rank: the corrected rank; the rank as written is `SizedTree.SizeTree.RankAsWritten` (see Findings). It requires a non-empty tree, since BST/SizeBST.py:199 calls `self.root.rank`.
- SizedTree.SizeTree.Range: the corrected range, built on the corrected rank; the range as written is `SizedTree.SizeTree.RangeAsWritten`. It also requires a non-empty tree.
- CountedTree.Remove: requires the removed node to have a parent. The tree-level remove of BST/SizeBST.py comes from BST/BST.py, which is not part of this model. If it hangs the root under a pseudoroot as Tree/BST.py:277-290 does, `SizeBST.__init__` (BST/SizeBST.py:158-159) gives it no node class with a `size` field, so removing the root would fail at BST/SizeBST.py:84-87 or 93-96.
- SizeBST.count (BST/SizeBST.py:161-168) is a stub that returns `None`; there is nothing to model.
- BST/AVLTree.py: `AVLNode.__init__` (lines 22-31) sets only `height`, and its base class comes from BST/BST.py, which is not part of this model. If that base is like Tree/BST.py's `BSTNode`, which has no `size`, then the `self.size += 1` in `AVLNode.insert` would fail. The model gives every node a size, so `CountedTree` models the copies of insert, remove and rank in BST/AVLTree.py:33-136 as those of BST/SizeBST.py.
- BST/AVLTree.py has no tree class and no rebalancing; `height` and `update_height` (lines 8-15) are modelled by `SizedTree.EdgeHeight` and `SizedTree.UpdateHeight`, although the file never calls them.
- VanEmdeBoas.Insert: requires the key to be absent. The source's `insert` accepts a present key and corrupts the tree; `VanEmdeBoas.InsertAsWritten` models that and `VanEmdeBoas.Add` is the guarded form (see Findings).
- VanEmdeBoas.Delete: requires the key to be present. The source's `delete` accepts an absent key and can remove another; `VanEmdeBoas.DeleteAsWritten` models that and `VanEmdeBoas.Discard` is the guarded form (see Findings).
- VanEmdeBoas: the universe is 2^k with k given as an exponent. Tree/vEB.py:29-32 computes `root_u_floor` and `root_u_ceil` with floating-point `math.log`; the model uses the exact exponents k/2 and k - k/2, the exponents `math.log` would give if it were exact; floating-point rounding of `math.log` is not modelled. Universes that are not powers of two are not modelled.
- VanEmdeBoas: the tree is a value, so `insert` and `delete` return a new tree where the source updates fields in place.
- SkipList.Skiplist.Add: requires `num >= 0`. The head of every level holds -1, so for a negative key the descent at LinkList/SkipList.py:136 never runs, the stack stays empty and `s.pop()` at line 148 fails. Keys are taken to be non-negative throughout, as the heads' -1 assumes.
- SkipList.Skiplist.Add: the coin flips of `random.choice` (LinkList/SkipList.py:150-167) are a parameter `coins`, a finite sequence; an exhausted sequence counts as a `False`.
- SkipList: the `prev`, `next` and `bottom` pointers are not modelled as objects. Each level is a sequence of cells in `next` order, and `bottom` is the cell of the same tower on the level below. Aliasing between node objects is therefore not captured.
- MinHeap: heap items are values with a key and a payload, not objects. `Node.__str__`, `print_values` and the other output helpers of Heap/Heap.py are not modelled.
- TreeShape.Node.constructor: the `_str` ASCII drawing and `__str__` of Tree/BST.py are not modelled. Neither are the demonstration blocks under `__main__`.
- PrefixTree: each node is kept in a map under the prefix that reaches it; its `children` dictionary is implied by that map.
- SearchTree: Tree/BST.py's `find` returns the first node with the key; duplicate keys follow the source: `insert` sends an equal key to the right.

## Findings

| source | as written | input that shows it | evidently intended | confidence | as-written member | corrected member |
|---|---|---|---|---|---|---|
| BST/SizeBST.py:93-96 | in the two-child case `remove` subtracts one from every ancestor of the successor, then calls the successor's own `remove`, which subtracts one from the same ancestors again | 4(2(1, 3), 5), remove the node holding 2: the node that then holds 3 records size 1 with a child below it | each ancestor loses one, once | high, not executed | CountedTree.RemoveAsWritten | CountedTree.Remove |
| BST/SizeBST.py:129 | `rank` reads `self.left.size` when the node has no left child | root 1 with only a right child 2, `rank(3, True)` | count the left subtree as 0 when it is absent | high, not executed | SizedTree.RankAsWrittenFails | SizedTree.SizeTree.Rank |
| Tree/AVL.py:74 | `_rebalance` chooses the double rotation when the heavy child's children have equal heights | remove 1 from the balanced tree 3(2(1), 6(5(4), 7(·, 8))): node 3 then double-rotates and the result is not balanced | a single rotation on a tie, as after a removal in the usual AVL algorithm | high, not executed | AvlShape.StrictTieBreakUnbalances | SearchTree.Tree.Remove |
| Tree/AVL.py:48-49 | the balance assertion is `d < 2 or d > -2`, which every difference `d` satisfies | the chain 1 -> 2 -> 3 with right heights passes `check_ri` | `-2 < d < 2` | high, not executed | TreeQueries.AsWrittenCheckPassesChain | TreeQueries.FieldsBalancedMeaning |
| Tree/AVL.py:27-37 | `list` stops at a node whose key equals a bound and does not visit the child towards the interval | root 1 with right child 2, `list(1, 3)` yields [] | every key strictly between the bounds | medium, not executed | TreeQueries.ListAsWrittenMissesKeys | SearchTree.Tree.List |
| Tree/vEB.py:186-195 | `insert` of a key already in the set files it again; the minimum ends up also filed in a cluster | u = 4: `insert(1)` twice | a present key leaves the set unchanged | medium, not executed | VanEmdeBoas.InsertTwiceCorrupts | VanEmdeBoas.Add |
| Tree/vEB.py:208-210 | `delete` empties a one-key tree whatever the key | u = 4, set {2}: `delete(0)` | an absent key leaves the set unchanged | medium, not executed | VanEmdeBoas.DeleteAbsentEmpties | VanEmdeBoas.Discard |
