# Balanced search trees, Fenwick tree and segment tree

This project models the tree templates of TreeTemplatesInJava and proves properties of the model.

**Ordered multisets.** Seven classes implement one interface, `BalancedTree`:
- the AVL tree;
- the size-balanced tree;
- the rotating treap;
- the split/merge ("FHQ") treap;
- the scapegoat tree;
- the red-black tree;
- the splay tree.

The interface is an ordered multiset of comparable values with seven operations: `clear`, `insert`, `delete`, `rank`, `select`, `predecessor` and `successor`. Each node stores a value once, with a repeat count and the size of its subtree counting repeats.

**Range sums.** Two further structures keep sums over positions `1..size`:
- the binary indexed (Fenwick) tree: point update, prefix query;
- the segment tree: range add, range sum, with lazy tags and nodes created on demand.

**How the model is organised**
- `OrderedMultiset` holds the abstract contract. The state is a `multiset<int>`. `Rank`, `Select`, `Predecessor` and `Successor` are defined on its unique sorted listing. Lemmas then say what each query means for the multiset alone, for example "the largest element strictly below `v`".
- `SearchTree` holds the shared node value `Tree<B>`. `B` is the variant's own field: AVL height, treap priority, scapegoat counters, red-black colour, or nothing. The module also holds the in-order listing (`Flatten`), the invariants, the rotations and the four query walks that the AVL, SB, treap and red-black trees share line for line.
- Each variant is a module with a class holding `root`. Its `Valid()` is the variant's invariant and `Contents()` is the stored multiset. Every operation is proved against the contract:
  - `insert` adds one copy;
  - `delete` removes one copy;
  - each query equals the contract's function of `Contents()`.
- The source's recursive node procedures are functions on tree values. Its loops are methods with loop invariants: the query walks, the red-black fix-ups, the splay loop, the Fenwick loops and the scapegoat `count`.
- `Zipper` models parent links, which the red-black and splay trees walk upwards. A walk is a focus subtree plus the list of its ancestors, nearest first. `Plug` rebuilds the whole tree from them, so father and child links agree by construction.
- `Fenwick` and `Segment` model the two range-sum structures on `int` with `+`.

## Model

| member | source | states |
|---|---|---|
| OrderedMultiset.Listing | utils/BalancedTree.java:5-19 | the listing of a multiset is sorted and holds exactly its elements |
| OrderedMultiset.SortedUnique | utils/BalancedTree.java:5-19 | two sorted sequences with the same elements are equal, so the listing is unique |
| OrderedMultiset.RankCountsBelow | utils/BalancedTree.java:12 | rank of an empty multiset is 1; adding x raises rank(v) by one exactly when x < v |
| OrderedMultiset.SelectInvertsRank | utils/BalancedTree.java:14 | select(k) succeeds iff 1 <= k <= size, and answers x iff rank(x) <= k < rank(x) + multiplicity of x |
| OrderedMultiset.PredecessorIsLargestBelow | utils/BalancedTree.java:16 | predecessor(v) fails iff no element is below v, and answers x iff x is stored, x < v and no stored element lies between x and v |
| OrderedMultiset.SuccessorIsSmallestAbove | utils/BalancedTree.java:18 | successor(v) fails iff no element is above v, and answers x iff x is stored, v < x and no stored element lies between v and x |
| OrderedMultiset.SelectInSorted | utils/BalancedTree.java:14 | on a sorted listing, position k holds x iff k falls within x's run of copies |
| OrderedMultiset.PredecessorInSorted | utils/BalancedTree.java:16 | on a sorted listing, the entry before the values below v is the largest value below v |
| OrderedMultiset.SuccessorInSorted | utils/BalancedTree.java:18 | on a sorted listing, the entry after the values at most v is the smallest value above v |
| OrderedMultiset.CountBelowPermutation | utils/BalancedTree.java:12 | the number of values below v does not depend on their order |
| OrderedMultiset.SortedCounts | utils/BalancedTree.java:12 | on a sorted listing, the values below v (at most v) are exactly the first CountBelow (CountAtMost) entries |
| OrderedMultiset.CountsGapIsMultiplicity | utils/BalancedTree.java:14 | the values at most x outnumber the values below x by exactly the multiplicity of x |
| SearchTree.FlattenSorted | trees/AVLTree.java:143-162 | search-tree order makes the in-order listing sorted |
| SearchTree.ListingIsFlatten | trees/AVLTree.java:210-227 | the in-order listing of an ordered tree is the sorted listing of its contents |
| SearchTree.FlattenLength | trees/AVLTree.java:53-64 | with sizes as pushUp computes them, a node's size is the number of values stored below it |
| SearchTree.PushUpKeeps | trees/AVLTree.java:53-64 | recomputing a size keeps listing, keys and order, and makes the node's size right when its children's are |
| SearchTree.RotationsKeep | trees/SBTree.java:80-102 | left and right rotation are inverse shapes; each keeps correct sizes |
| SearchTree.RotationShape | trees/SBTree.java:80-102 | a rotation keeps the listing and keys, and keeps search-tree order in both directions |
| SearchTree.LeftRotateRearranges | trees/SBTree.java:80-90 | leftRotate keeps listing, keys, order, positive repeats and sizes |
| SearchTree.RightRotateRearranges | trees/SBTree.java:92-102 | rightRotate keeps listing, keys, order, positive repeats and sizes |
| SearchTree.CountAtNode | trees/AVLTree.java:210-227 | the number of values below v follows the branch the rank walk takes at a node |
| SearchTree.SelectAtNode | trees/AVLTree.java:230-247 | the k-th value follows the branch the select walk takes at a node |
| SearchTree.ExtremeNodes | trees/AVLTree.java:69-89 | the leftmost node holds the least key and the rightmost the greatest |
| SearchTree.FirstIsMin | trees/AVLTree.java:69-78 | the first listed value is the leftmost node's |
| SearchTree.LastIsMax | trees/AVLTree.java:80-89 | the last listed value is the rightmost node's |
| SearchTree.GetMinNode | trees/AVLTree.java:69-78 | an empty tree raises NoSuchElement; otherwise the walk returns the leftmost node |
| SearchTree.GetMaxNode | trees/AVLTree.java:80-89 | an empty tree raises NoSuchElement; otherwise the walk returns the rightmost node |
| SearchTree.RankOf | trees/AVLTree.java:210-227 | the rank walk returns 1 + the number of stored values below v |
| SearchTree.SelectAt | trees/AVLTree.java:230-247 | the select walk returns the k-th listed value, or NoSuchElement when k is outside 1..size |
| SearchTree.PredecessorOf | trees/AVLTree.java:250-268 | the predecessor walk returns the largest listed value below v, or NoSuchElement |
| SearchTree.SuccessorOf | trees/AVLTree.java:271-289 | the successor walk returns the smallest listed value above v, or NoSuchElement |
| SearchTree.MinRepeatOne | trees/AVLTree.java:193-196 | setting the leftmost node's repeat to 1 keeps the shape, key and extra field |
| SearchTree.LeftRotate | trees/SBTree.java:80-90 | leftRotate of a node keeps the number of nodes and lifts the right child |
| SearchTree.RightRotate | trees/SBTree.java:92-102 | rightRotate of a node keeps the number of nodes and lifts the left child |
| SearchTree.MinNode | trees/AVLTree.java:69-78 | the node getMin reaches has no left child |
| SearchTree.MaxNode | trees/AVLTree.java:80-89 | the node getMax reaches has no right child |
| SearchTree.PushUp | trees/SBTree.java:45-53 | the size-only pushUp makes a node's size its repeat count plus its children's sizes and changes no other field |
| AVL.PushUp | trees/AVLTree.java:53-64 | size and height recomputed from the children; AVL.RotationsKeepHeights and SearchTree.FlattenLength state what this makes true |
| AVL.LeftRotate | trees/AVLTree.java:91-101 | leftRotate with both pushUps; its contract is in AVL.LeftRotateRearranges and AVL.RotationsKeepHeights |
| AVL.RightRotate | trees/AVLTree.java:103-113 | rightRotate with both pushUps; its contract is in AVL.RightRotateRearranges and AVL.RotationsKeepHeights |
| AVL.Maintain | trees/AVLTree.java:115-132 | the single or double rotation of a node two levels out of balance; AVL.MaintainKeeps, AVL.HeightsAfterMaintain and the four Balances lemmas state its effect |
| AVL.RemoveMin | trees/AVLTree.java:193-198 | what deleting the successor after setting its repeat to 1 does (AVL.DeleteReplaced); AVL.RemoveMinFlatten states its listing |
| AVL.InsertInto | trees/AVLTree.java:143-162 | insert keeps every stored height equal to what pushUp computes and returns a node |
| AVL.DeleteFrom | trees/AVLTree.java:168-202 | delete keeps every stored height equal to what pushUp computes |
| AVL.HeightsAfterMaintain | trees/AVLTree.java:115-132 | maintain leaves correct heights on a node whose children have them |
| AVL.RotationsKeepHeights | trees/AVLTree.java:91-113 | both rotations leave correct heights |
| AVL.MinRepeatOneKeepsHeights | trees/AVLTree.java:193-196 | setting the successor's repeat to 1 keeps every height |
| AVL.RemoveMinFlatten | trees/AVLTree.java:192-201 | the listing is the leftmost node's copies followed by the listing without that node |
| AVL.ReplaceElems | trees/AVLTree.java:192-201 | replacing a two-child node by its successor removes exactly that node's one copy |
| AVL.ReplaceSearch | trees/AVLTree.java:192-201 | replacing a two-child node by its successor keeps order, sizes and positive repeats |
| AVL.LeftRotateRearranges | trees/AVLTree.java:91-101 | the AVL leftRotate keeps listing, keys, order, positive repeats and sizes |
| AVL.RightRotateRearranges | trees/AVLTree.java:103-113 | the AVL rightRotate keeps listing, keys, order, positive repeats and sizes |
| AVL.MaintainKeeps | trees/AVLTree.java:115-132 | maintain keeps listing, keys, order, positive repeats and sizes |
| AVL.Rebuilt | trees/AVLTree.java:115-132 | pushUp then maintain stores exactly the node's values, in order, with correct sizes |
| AVL.InsertElems | trees/AVLTree.java:143-162 | insert adds exactly one copy of v |
| AVL.InsertKeys | trees/AVLTree.java:143-162 | insert adds v to the keys and no other key |
| AVL.InsertSearch | trees/AVLTree.java:143-162 | insert keeps order, sizes and positive repeats |
| AVL.RotateRightBalances | trees/AVLTree.java:115-132 | a single right rotation of a left-left heavy node balances it at height h + 2 |
| AVL.RotateLeftBalances | trees/AVLTree.java:115-132 | a single left rotation of a right-right heavy node balances it at height h + 2 |
| AVL.DoubleRotateRightBalances | trees/AVLTree.java:115-132 | a left-right double rotation balances the node at height h + 2 |
| AVL.DoubleRotateLeftBalances | trees/AVLTree.java:115-132 | a right-left double rotation balances the node at height h + 2 |
| AVL.InsertKeepsBalance | trees/AVLTree.java:143-162 | insert into a balanced tree gives a balanced tree whose height grew by at most one |
| AVL.DeleteReplaced | trees/AVLTree.java:193-198 | deleting the successor after setting its repeat to 1 removes exactly the leftmost node |
| AVL.DeleteElems | trees/AVLTree.java:168-202 | delete removes exactly one copy of v, and nothing when v is absent |
| AVL.DeleteKeys | trees/AVLTree.java:168-202 | delete adds no key |
| AVL.DeleteSearch | trees/AVLTree.java:168-202 | delete keeps order, sizes and positive repeats |
| AVL.AVLTree.constructor | trees/AVLTree.java:134-136 | a new tree is empty, valid and balanced |
| AVL.AVLTree.Clear | trees/AVLTree.java:139-141 | clear empties the tree |
| AVL.AVLTree.Insert | trees/AVLTree.java:164-166 | insert adds one copy, keeps the invariant, and keeps a balanced tree balanced |
| AVL.AVLTree.Delete | trees/AVLTree.java:205-207 | delete removes one copy of v (none when absent) and keeps the invariant |
| AVL.AVLTree.Rank | trees/AVLTree.java:210-227 | rank(v) is 1 + the number of stored values below v |
| AVL.AVLTree.Select | trees/AVLTree.java:230-247 | select(k) is the k-th smallest stored value, NoSuchElement outside 1..size |
| AVL.AVLTree.Predecessor | trees/AVLTree.java:250-268 | predecessor(v) is the largest stored value below v, or NoSuchElement |
| AVL.AVLTree.Successor | trees/AVLTree.java:271-289 | successor(v) is the smallest stored value above v, or NoSuchElement |
| SB.Maintain | trees/SBTree.java:104-136 | maintain(current, flag) with its nested recursion bounded by fuel; SB.MaintainKeeps states it only rearranges, SB.MaintainReenters that the unbounded source can call itself forever |
| SB.ReMaintain | trees/SBTree.java:133-135 | the children re-maintained with false and true, then the node with true and then false; SB.ReMaintainKeeps states it only rearranges |
| SB.InsertInto | trees/SBTree.java:147-165 | the recursive insert, handing maintain one more unit of fuel than the node count; SB.InsertElems, SB.InsertKeys and SB.InsertSearch state its effect for every fuel |
| SB.DeleteFrom | trees/SBTree.java:172-206 | the recursive delete without maintain; SB.DeleteElems, SB.DeleteKeys and SB.DeleteSearch state its effect |
| SB.RemoveMin | trees/SBTree.java:196-205 | what deleting the successor after setting its repeat to 1 does (SB.DeleteReplaced); SB.RemoveMinFlatten states its listing |
| SB.Rotate | trees/SBTree.java:104-136 | the rotation maintain performs on an unsettled node returns a node |
| SB.SettledMeans | trees/SBTree.java:104-136 | maintain returns a node unchanged exactly when neither grandchild on the grown side outweighs the other child |
| SB.RotateRearranges | trees/SBTree.java:104-136 | the rotation maintain chooses keeps listing, keys, order, positive repeats and sizes |
| SB.MaintainKeeps | trees/SBTree.java:104-136 | maintain, with its recursive calls, keeps listing, keys, order, positive repeats and sizes |
| SB.ReMaintainKeeps | trees/SBTree.java:104-136 | the two re-maintains after a rotation keep listing, keys, order, positive repeats and sizes |
| SB.Rebuilt | trees/SBTree.java:147-165 | pushUp then maintain stores exactly the node's values, in order, with correct sizes |
| SB.InsertElems | trees/SBTree.java:147-165 | insert adds exactly one copy of v |
| SB.InsertKeys | trees/SBTree.java:147-165 | insert adds v to the keys and no other key |
| SB.InsertSearch | trees/SBTree.java:147-165 | insert keeps order, sizes and positive repeats |
| SB.MaintainReenters | trees/SBTree.java:104-136 | maintain(T, false) on the tree T of the finding rotates into T' and calls maintain(T', true), which rotates back into T and, T being settled for true, calls maintain(T, false) again; the fuel drops by one per step |
| SB.RootTurns | trees/SBTree.java:121-134 | the double rotation of T and the re-maintained children give T' |
| SB.TurnReturns | trees/SBTree.java:109-134 | the double rotation of T' and the re-maintained children give T back |
| SB.ReachesBefore | trees/SBTree.java:147-170 | inserting 3, 3, 4, 5, 4, 2, 6, 3, 3, 4 into an empty tree builds the tree of the finding |
| SB.EarlyInserts | trees/SBTree.java:147-165 | the first five of those inserts give 4x2(3x2, 5) |
| SB.ThirdInsert | trees/SBTree.java:147-165 | inserting 4 into 3x2 hangs 4 on the right without rotating |
| SB.FourthInsert | trees/SBTree.java:147-165 | inserting 5 into 3x2(-, 4) rotates into 4(3x2, 5) |
| SB.FirstRotation | trees/SBTree.java:104-136 | maintain with the flag set rotates 3x2(-, 4(-, 5)) into 4(3x2, 5) for any fuel of at least one |
| SB.LateInserts | trees/SBTree.java:147-165 | the last five of those inserts give 4x3(3x4(2, -), 5(-, 6)) |
| SB.SixthInsert | trees/SBTree.java:147-165 | inserting 2 hangs it under 3x2 without rotating |
| SB.SeventhInsert | trees/SBTree.java:147-165 | inserting 6 hangs it under 5 without rotating |
| SB.ReachesLoop | trees/SBTree.java:147-165 | inserting 1 into that tree ends in maintain(T, false) at the root |
| SB.LowInsert | trees/SBTree.java:147-165 | inserting 1 into 3x4(2, -) rotates it into 2(1, 3x4) |
| SB.LowRotation | trees/SBTree.java:104-136 | maintain without the flag rotates 3x4(2(1, -), -) into 2(1, 3x4) for any fuel of at least one |
| SB.HighRotation | trees/SBTree.java:109-134 | maintain with the flag rotates 4x3(-, 5(-, 6)) into 5(4x3, 6) for any fuel of at least one |
| SB.DeleteReplaced | trees/SBTree.java:196-205 | deleting the successor after setting its repeat to 1 removes exactly the leftmost node |
| SB.DeleteElems | trees/SBTree.java:172-206 | delete removes exactly one copy of v, and nothing when v is absent |
| SB.DeleteKeys | trees/SBTree.java:172-206 | delete adds no key |
| SB.DeleteSearch | trees/SBTree.java:172-206 | delete keeps order, sizes and positive repeats |
| SB.SBTree.constructor | trees/SBTree.java:138-140 | a new tree is empty and valid |
| SB.SBTree.Clear | trees/SBTree.java:143-145 | clear empties the tree |
| SB.SBTree.Insert | trees/SBTree.java:168-170 | with the fuel-bounded maintain, insert adds one copy and keeps the invariant |
| SB.SBTree.Delete | trees/SBTree.java:209-211 | delete removes one copy of v (none when absent) and keeps the invariant |
| SB.SBTree.Rank | trees/SBTree.java:214-231 | rank(v) is 1 + the number of stored values below v |
| SB.SBTree.Select | trees/SBTree.java:234-251 | select(k) is the k-th smallest stored value, NoSuchElement outside 1..size |
| SB.SBTree.Predecessor | trees/SBTree.java:254-272 | predecessor(v) is the largest stored value below v, or NoSuchElement |
| SB.SBTree.Successor | trees/SBTree.java:275-293 | successor(v) is the smallest stored value above v, or NoSuchElement |
| Treap.Maintain | trees/Treap.java:99-107 | one rotation lifting a child of larger priority, left child first; Treap.MaintainKeeps and Treap.InsertHeap state its effect |
| Treap.DeleteFrom | trees/Treap.java:143-179 | the recursive delete, rotating a two-child node below its child of larger priority; Treap.DeleteElems, Treap.DeleteSearch and Treap.DeleteHeap state its effect |
| Treap.InsertInto | trees/Treap.java:118-136 | insert always returns a node |
| Treap.HeapBounded | trees/Treap.java:99-107 | in a heap-ordered treap no priority exceeds the root's |
| Treap.RotationsKeepPriorities | trees/Treap.java:75-97 | a rotation lifts the child's priority to the top and puts the old root's below it |
| Treap.InsertHeap | trees/Treap.java:118-136 | insert keeps heap order on priorities; the new root exceeds a bound only when its children stay within it |
| Treap.DeleteHeap | trees/Treap.java:143-179 | delete keeps heap order and never raises a priority bound |
| Treap.SinkRightHeap | trees/Treap.java:167-171 | rotating a node right and deleting below keeps heap order and priority bounds |
| Treap.SinkLeftHeap | trees/Treap.java:173-177 | rotating a node left and deleting below keeps heap order and priority bounds |
| Treap.MaintainKeeps | trees/Treap.java:99-107 | maintain keeps listing, keys, order, positive repeats and sizes |
| Treap.Rebuilt | trees/Treap.java:118-136 | pushUp then maintain stores exactly the node's values, in order, with correct sizes |
| Treap.InsertElems | trees/Treap.java:118-136 | insert adds exactly one copy of v |
| Treap.InsertKeys | trees/Treap.java:118-136 | insert adds v to the keys and no other key |
| Treap.InsertSearch | trees/Treap.java:118-136 | insert keeps order, sizes and positive repeats |
| Treap.DeleteElems | trees/Treap.java:143-179 | delete, rotating a two-child node down, removes exactly one copy of v |
| Treap.SinkRightElems | trees/Treap.java:167-171 | rotating a node right and deleting it below removes exactly its copy |
| Treap.SinkLeftElems | trees/Treap.java:173-177 | rotating a node left and deleting it below removes exactly its copy |
| Treap.DeleteKeys | trees/Treap.java:143-179 | delete adds no key |
| Treap.DeleteSearch | trees/Treap.java:143-179 | delete keeps order, sizes and positive repeats |
| Treap.Treap.constructor | trees/Treap.java:109-111 | a new treap is empty and valid |
| Treap.Treap.Clear | trees/Treap.java:114-116 | clear empties the treap |
| Treap.Treap.Insert | trees/Treap.java:139-141 | insert adds one copy and keeps order and heap order, for any priority |
| Treap.Treap.Delete | trees/Treap.java:182-184 | delete removes one copy of v (none when absent) and keeps order and heap order |
| Treap.Treap.Rank | trees/Treap.java:187-204 | rank(v) is 1 + the number of stored values below v |
| Treap.Treap.Select | trees/Treap.java:207-224 | select(k) is the k-th smallest stored value, NoSuchElement outside 1..size |
| Treap.Treap.Predecessor | trees/Treap.java:227-245 | predecessor(v) is the largest stored value below v, or NoSuchElement |
| Treap.Treap.Successor | trees/Treap.java:248-266 | successor(v) is the smallest stored value above v, or NoSuchElement |
| FHQ.SplitByKey | trees/FHQTreap.java:74-91 | the two parts share out the nodes of the tree |
| FHQ.SplitBySize | trees/FHQTreap.java:93-116 | the two parts share out the nodes of the tree |
| FHQ.Merge | trees/FHQTreap.java:118-135 | the merged tree has the nodes of both parts |
| FHQ.HeapRootIsLeast | trees/FHQTreap.java:118-135 | in a heap-ordered tree the root's priority is the least |
| FHQ.SplitByKeyFlatten | trees/FHQTreap.java:74-91 | the two listings concatenate to the tree's listing |
| FHQ.SplitByKeySides | trees/FHQTreap.java:74-91 | the first part holds the keys below v (at most v when close), the second the rest |
| FHQ.SplitByKeyHeap | trees/FHQTreap.java:74-91 | both parts stay heap-ordered and keep any priority lower bound |
| FHQ.SplitBySizeFlatten | trees/FHQTreap.java:93-116 | the two listings concatenate to the tree's listing |
| FHQ.SplitBySizeSides | trees/FHQTreap.java:93-116 | both parts are ordered and every key of the first is below every key of the second |
| FHQ.SplitBySizeHeap | trees/FHQTreap.java:93-116 | both parts stay heap-ordered and keep any priority lower bound |
| FHQ.SplitBySizeSelect | trees/FHQTreap.java:93-116 | the first part ends with the k-th listed value (the last one when k passes the end) |
| FHQ.MergeFlatten | trees/FHQTreap.java:118-135 | the merged listing is the first listing then the second |
| FHQ.MergeOrdered | trees/FHQTreap.java:118-135 | merging separated ordered parts gives an ordered tree |
| FHQ.MergeHeap | trees/FHQTreap.java:118-135 | merging keeps heap order and any priority lower bound |
| FHQ.MergeValid | trees/FHQTreap.java:118-135 | merging two separated treaps gives a treap with their listings concatenated |
| FHQ.SplitByKeyParts | trees/FHQTreap.java:74-91 | split by key of a treap gives two separated treaps divided at v |
| FHQ.SplitBySizeParts | trees/FHQTreap.java:93-116 | split by size of a treap gives two separated treaps |
| FHQ.RemergeByKey | trees/FHQTreap.java:74-135 | merge undoes split by key |
| FHQ.RemergeBySize | trees/FHQTreap.java:93-135 | merge undoes split by size |
| FHQ.RankBySplit | trees/FHQTreap.java:175-180 | one more than the size of the part below v is rank(v) |
| FHQ.PredecessorBySplit | trees/FHQTreap.java:197-208 | the greatest key of the part below v is predecessor(v); an empty part means NoSuchElement |
| FHQ.SuccessorBySplit | trees/FHQTreap.java:211-222 | the least key of the part above v is successor(v); an empty part means NoSuchElement |
| FHQ.SelectBySize | trees/FHQTreap.java:183-194 | as written, select(k) answers the k-th value, clamping k to the number stored |
| FHQ.SelectPastEnd | trees/FHQTreap.java:183-194 | with one value stored, select(2) answers that value where the contract says NoSuchElement |
| FHQ.SelectCheckedBySize | trees/FHQTreap.java:183-194 | adding the test k > size to the same split gives exactly the contract's select |
| FHQ.InsertInto | trees/FHQTreap.java:149-159 | insert by split and merge; FHQ.InsertElems and FHQ.InsertValid state its effect |
| FHQ.DeleteFrom | trees/FHQTreap.java:162-172 | delete by split and merge; FHQ.DeleteElems and FHQ.DeleteValid state its effect |
| FHQ.InsertElems | trees/FHQTreap.java:149-159 | insert adds exactly one copy of v |
| FHQ.InsertValid | trees/FHQTreap.java:149-159 | insert keeps order, heap order, sizes and positive repeats |
| FHQ.DeleteElems | trees/FHQTreap.java:162-172 | delete removes exactly one copy of v, and nothing when v is absent |
| FHQ.DeleteValid | trees/FHQTreap.java:162-172 | delete keeps order, heap order, sizes and positive repeats |
| FHQ.FHQTreap.constructor | trees/FHQTreap.java:139-141 | a new treap is empty and valid |
| FHQ.FHQTreap.Clear | trees/FHQTreap.java:144-146 | clear empties the treap |
| FHQ.FHQTreap.Insert | trees/FHQTreap.java:149-159 | insert adds one copy and keeps the invariant, for any priority |
| FHQ.FHQTreap.Delete | trees/FHQTreap.java:162-172 | delete removes one copy of v (none when absent) and keeps the invariant |
| FHQ.FHQTreap.Rank | trees/FHQTreap.java:175-180 | rank(v) is 1 + the number of stored values below v; contents unchanged |
| FHQ.FHQTreap.Select | trees/FHQTreap.java:183-194 | as written: the k-th smallest value, the largest when k passes the number stored |
| FHQ.FHQTreap.SelectChecked | trees/FHQTreap.java:183-194 | corrected select: exactly the k-th smallest value, NoSuchElement outside 1..size |
| FHQ.FHQTreap.Predecessor | trees/FHQTreap.java:197-208 | predecessor(v) is the largest stored value below v, or NoSuchElement |
| FHQ.FHQTreap.Successor | trees/FHQTreap.java:211-222 | successor(v) is the smallest stored value above v, or NoSuchElement |
| SG.Leaf | trees/SGTree.java:21-25 | a new node with one live copy and counters 1; SG.LeafBalanced states it is never a scapegoat |
| SG.Unbalance | trees/SGTree.java:48-52 | the source's ALPHA and BETA test with the int casts written out; SG.LeafBalanced and SG.FirstUnbalancedIsTopmost use it |
| SG.Enlarge | trees/SGTree.java:27-31 | enlarge changes only the node's own counts |
| SG.Reduce | trees/SGTree.java:33-39 | reduce changes only the node's own counts |
| SG.PushUp | trees/SGTree.java:54-68 | pushUp sets the size from the repeat and the children's sizes |
| SG.Modify | trees/SGTree.java:133-156 | modify keeps the node it starts from and creates one when inserting |
| SG.FirstUnbalanced | trees/SGTree.java:133-156 | the topmost unbalanced node on the search path, which modify records; SG.FirstUnbalancedIsTopmost and SG.ModifyScapegoat state what it finds |
| SG.FirstUnbalancedIsTopmost | trees/SGTree.java:133-156 | the scapegoat is unbalanced, on the search path, with every node above it balanced; with none, no node on the path is unbalanced |
| SG.LeafBalanced | trees/SGTree.java:21-25 | a new leaf is never a scapegoat |
| SG.ModifyScapegoat | trees/SGTree.java:133-156 | the node modify records is the topmost unbalanced node on the search path of the result |
| SG.EnlargeElems | trees/SGTree.java:27-31 | enlarge adds one copy |
| SG.ReduceElems | trees/SGTree.java:33-39 | reduce removes one copy, and nothing from a tombstone |
| SG.TombstoneElems | trees/SGTree.java:33-39 | a node with repeat 0 contributes no value |
| SG.ModifyInsertElems | trees/SGTree.java:133-156 | insert adds exactly one copy of v |
| SG.ModifyDeleteElems | trees/SGTree.java:133-156 | delete removes exactly one copy of v, and nothing when v is absent |
| SG.ModifyKeys | trees/SGTree.java:133-156 | insert adds v to the keys; delete keeps the keys, tombstones included |
| SG.ModifyValid | trees/SGTree.java:133-156 | modify keeps order, sizes and non-negative repeats |
| SG.Serialize | trees/SGTree.java:75-84 | serialize lists only live nodes |
| SG.UnSerialize | trees/SGTree.java:86-96 | unSerialize builds a tree with one node per buffer entry |
| SG.UnSerializeSpread | trees/SGTree.java:86-96 | the rebuilt subtree lists the buffer's values in order |
| SG.SerializeSpread | trees/SGTree.java:75-84 | the serialized nodes spell out the tree's listing |
| SG.UnSerializeHalved | trees/SGTree.java:86-96 | the subtree built from a buffer range lists the left half, the middle entry and the right half, in that order |
| SG.HalvedInOrder | trees/SGTree.java:86-96 | gathering the halves around the middle entry lists the whole range in buffer order |
| SG.SerializeOrder | trees/SGTree.java:75-84 | serialized keys are strictly increasing keys of the tree |
| SG.UnSerializeOrder | trees/SGTree.java:86-96 | a strictly increasing buffer gives an ordered tree |
| SG.UnSerializeFresh | trees/SGTree.java:86-96 | rebuilt nodes have correct sizes and counters equal to their node counts |
| SG.UnSerializeBalanced | trees/SGTree.java:86-96 | the rebuilt subtree is perfectly balanced |
| SG.Rebuilt | trees/SGTree.java:98-112 | serialize, then unSerialize the whole buffer; SG.RebuiltKeeps states its effect |
| SG.RebuildAt | trees/SGTree.java:98-112 | the rebuilt subtree linked back in place of the scapegoat; SG.RebuildAtKeeps states its effect |
| SG.RebuiltKeeps | trees/SGTree.java:98-112 | rebuilding keeps the listing and size, drops only tombstone keys, and yields a perfectly balanced tree |
| SG.RebuildAtKeeps | trees/SGTree.java:98-112 | rebuilding the scapegoat's subtree keeps the whole tree's listing, size and invariant |
| SG.Count | trees/SGTree.java:114-131 | count returns the number of stored values below v, or at most v when close |
| SG.SelectByCount | trees/SGTree.java:209-216 | select(count(v, false)) is predecessor(v) and select(count(v, true) + 1) is successor(v) |
| SG.SGTree.constructor | trees/SGTree.java:158-160 | a new tree is empty and valid |
| SG.SGTree.Clear | trees/SGTree.java:163-165 | clear empties the tree and drops a pending rebuild |
| SG.SGTree.Rebuild | trees/SGTree.java:98-112 | rebuild replaces the scapegoat's subtree by its rebuilt form and keeps the listing |
| SG.SGTree.Insert | trees/SGTree.java:168-173 | insert adds one copy, then rebuilds at the topmost unbalanced node, if any |
| SG.SGTree.Delete | trees/SGTree.java:176-181 | delete removes one copy (none when absent), then rebuilds at the topmost unbalanced node, if any |
| SG.SGTree.Rank | trees/SGTree.java:184-186 | rank(v) is 1 + the number of stored values below v |
| SG.SGTree.Select | trees/SGTree.java:189-206 | select(k) is the k-th smallest stored value, NoSuchElement outside 1..size, tombstones skipped |
| SG.SGTree.Predecessor | trees/SGTree.java:209-211 | predecessor(v) is the largest stored value below v, or NoSuchElement |
| SG.SGTree.Successor | trees/SGTree.java:214-216 | successor(v) is the smallest stored value above v, or NoSuchElement |
| Zipper.Attach | trees/RBTree.java:104-117 | a child linked back under its father keeps the father's fields and takes the side the walk came from |
| Zipper.Plug | trees/RBTree.java:48-53 | following father links to the root; Zipper.PlugFlatten, Zipper.PlugRearranged and RB.PlugRB state what it gives |
| Zipper.FrameOf | trees/RBTree.java:48-67 | a node is its frame with the child on the path put back |
| Zipper.PlugRearranged | trees/RBTree.java:104-117 | relinking a rearranged subtree in place rearranges the whole tree |
| Zipper.PlugShrunk | trees/RBTree.java:294-312 | lowering the sizes along a search path matches removing a copy below it |
| Zipper.PlugDetached | trees/RBTree.java:334-341 | lowering the sizes on the left spine by the successor's repeat matches detaching the successor |
| Zipper.PlugAbsent | trees/RBTree.java:313-318 | a value absent from where the search ended is absent from the whole tree |
| Zipper.TakeSuccessor | trees/RBTree.java:331-351 | the in-order successor is detached from the right subtree and takes the removed node's place, with sizes fixed |
| Zipper.PlugFlatten | trees/Splay.java:127-153 | the listing of the whole tree is the ancestors' left parts, then the focus, then their right parts |
| Zipper.PlugBumpSame | trees/Splay.java:166-175 | raising the sizes along the path changes nothing but sizes |
| Zipper.PlugGrown | trees/Splay.java:185-195 | hanging a new leaf at the end of a search path keeps the tree ordered |
| Zipper.KeyOnPath | trees/Splay.java:42-58 | the ancestors of a node holding k form the search path of k |
| Zipper.LastVisited | trees/Splay.java:42-58 | when the search for v ends at an empty child, no stored key lies between v and the last node visited |
| RB.RBHeight | trees/RBTree.java:10-44 | the black height of a red-black subtree is the count along its leftmost path |
| RB.PlugRB | trees/RBTree.java:158-200 | a red-black subtree under ancestors that keep the properties gives a red-black tree |
| RB.Blacken | trees/RBTree.java:198-200 | painting the root black keeps a red-black tree |
| RB.Paint | trees/RBTree.java:10-44 | recolouring keeps a node a node and an empty tree empty |
| RB.DescendRB | trees/RBTree.java:202-231 | stepping down a red-black tree keeps black heights consistent along the path |
| RB.InsertPlain | trees/RBTree.java:202-231 | the descent of insert with a new red leaf; RB.InsertPlainElems, RB.InsertPlainKeys and RB.InsertPlainSearch state its effect |
| RB.InsertPlainElems | trees/RBTree.java:202-231 | the descent of insert adds exactly one copy of v |
| RB.InsertPlainKeys | trees/RBTree.java:202-231 | the descent of insert adds v to the keys and no other key |
| RB.InsertPlainSearch | trees/RBTree.java:202-231 | the descent of insert keeps order, sizes and positive repeats and raises the size by one |
| RB.Recolour | trees/RBTree.java:164-169 | the red-uncle step; RB.RecolourClimbs and RB.RecolourKeeps state its effect |
| RB.Restructure | trees/RBTree.java:170-196 | the black-uncle rotations; RB.RestructureSettles and RB.RestructureKeeps state its effect |
| RB.RedRootFather | trees/RBTree.java:161-196 | the loop body when the red father is the root, so the grandfather tests read null; RB.RedRootFatherKeeps states its effect |
| RB.RecolourClimbs | trees/RBTree.java:164-169 | the red-uncle case moves the red-red violation two levels up and keeps black heights |
| RB.RecolourKeeps | trees/RBTree.java:164-169 | the red-uncle case changes only colours |
| RB.RestructureSettles | trees/RBTree.java:170-196 | the black-uncle case removes the violation and keeps black heights |
| RB.RestructureKeeps | trees/RBTree.java:170-196 | the black-uncle rotations keep listing, keys, order and sizes |
| RB.RestructureLeft | trees/RBTree.java:170-178 | the black-uncle rotations on the left side give a black-rooted subtree of the right black height |
| RB.RedRootFatherKeeps | trees/RBTree.java:158-200 | ending at a red father that is the root changes only colours |
| RB.FixInsert | trees/RBTree.java:158-200 | fixInsert rearranges the tree without changing its values, leaves a black root and restores the red-black properties |
| RB.Settle | trees/RBTree.java:158-200 | when the walk stops, painting the root black gives a red-black tree |
| RB.SpliceElems | trees/RBTree.java:319-330 | splicing out a node with one child removes its single copy |
| RB.SpliceShrunk | trees/RBTree.java:319-330 | splicing out a node with one empty child removes its one copy |
| RB.SuccessorShrunk | trees/RBTree.java:331-351 | putting the detached successor in place of the node removes its one copy |
| RB.SuccessorElems | trees/RBTree.java:331-351 | moving the successor into the removed node's place removes exactly its copy |
| RB.SuccessorOrder | trees/RBTree.java:331-351 | the moved successor keeps the tree ordered |
| RB.NearTurn | trees/RBTree.java:249-254 | the near-cousin rotation returns a node; RB.NearTurnKeeps states it only rearranges |
| RB.RedCousinTurn | trees/RBTree.java:238-243 | the red-cousin rotation leaves the focus on its side two levels below the new top; RB.RedCousinKeeps and RB.Resplit state the rest |
| RB.FarCousinTurn | trees/RBTree.java:255-259 | the far-cousin case; RB.FarCousinKeeps states it only rearranges |
| RB.NearTurnKeeps | trees/RBTree.java:249-254 | the near-cousin rotation keeps listing, keys, order and sizes |
| RB.RedCousinKeeps | trees/RBTree.java:238-243 | the red-cousin case keeps listing, keys, order and sizes |
| RB.FarCousinKeeps | trees/RBTree.java:255-259 | the far-cousin case keeps listing, keys, order and sizes |
| RB.Resplit | trees/RBTree.java:238-243 | after the red-cousin rotation the focus has two new ancestors and the same tree |
| RB.FixDelete | trees/RBTree.java:233-290 | fixDelete only recolours and rotates, keeping the values; fixDelete(null) changes nothing |
| RB.DescendPath | trees/RBTree.java:296-312 | each step of the delete walk extends the search path and lowers one size |
| RB.LowerElems | trees/RBTree.java:306-308 | lowering a repeat count above 1 removes one copy |
| RB.DeleteDone | trees/RBTree.java:292-352 | a removal followed by a rearrangement leaves a search tree holding one copy fewer |
| RB.InsertDone | trees/RBTree.java:202-231 | the insert descent leaves a search tree with one more copy of v |
| RB.RBTree.constructor | trees/RBTree.java:149-151 | a new tree is empty, valid and red-black |
| RB.RBTree.Clear | trees/RBTree.java:154-156 | clear empties the tree |
| RB.RBTree.Insert | trees/RBTree.java:202-231 | insert adds one copy, keeps the invariant, and keeps a red-black tree red-black |
| RB.RBTree.Delete | trees/RBTree.java:292-352 | delete removes one copy of v (none when absent) and keeps the search-tree invariant |
| RB.RBTree.Rank | trees/RBTree.java:354-372 | rank(v) is 1 + the number of stored values below v |
| RB.RBTree.Select | trees/RBTree.java:374-392 | select(k) is the k-th smallest stored value, NoSuchElement outside 1..size |
| RB.RBTree.Predecessor | trees/RBTree.java:394-413 | predecessor(v) is the largest stored value below v, or NoSuchElement |
| RB.RBTree.Successor | trees/RBTree.java:415-434 | successor(v) is the smallest stored value above v, or NoSuchElement |
| Splay.ZigKeeps | trees/Splay.java:97-125 | one rotation at the father keeps listing, keys and order, and makes the focus the subtree's root |
| Splay.Zig | trees/Splay.java:97-125 | a single rotation at the father returns a node |
| Splay.ZigZag | trees/Splay.java:127-153 | a double rotation at father and grandfather returns a node |
| Splay.ZigZagKeeps | trees/Splay.java:127-153 | a zig-zig or zig-zag step keeps listing, keys and order and lifts the focus two levels |
| Splay.SplayUp | trees/Splay.java:127-153 | splay rearranges the tree without changing its values, and makes the splayed node the root |
| Splay.SubtreesSized | trees/Splay.java:31-39 | under a valid root, every subtree the walk meets has correct sizes |
| Splay.GetNode | trees/Splay.java:42-58 | getNode returns the node holding v with its search path, or the empty child where the search ended |
| Splay.AdjacentRank | trees/Splay.java:235-252 | after splaying v or its last-visited neighbour, rank is read off the root |
| Splay.AdjacentPredecessor | trees/Splay.java:280-297 | after the splay, predecessor is the root, the maximum of its left subtree, or NoSuchElement |
| Splay.AdjacentSuccessor | trees/Splay.java:299-316 | after the splay, successor is the root, the minimum of its right subtree, or NoSuchElement |
| Splay.RootOneMore | trees/Splay.java:179-182 | one more copy at the root adds exactly one copy of its value |
| Splay.RootOneLess | trees/Splay.java:206-209 | one copy fewer at the root removes exactly one copy of its value |
| Splay.RootRemovedOnce | trees/Splay.java:211-232 | removing a root that holds one copy removes exactly that copy |
| Splay.RootRemovedNear | trees/Splay.java:201-203 | when v is absent, the root after the splay holds a value next to v |
| Splay.SuccessorRoot | trees/Splay.java:217-231 | the successor moved to the root leaves a search tree of both subtrees' values |
| Splay.InsertFoundBefore | trees/Splay.java:170-182 | raising sizes along the path to an equal node changes nothing but sizes |
| Splay.InsertLeafBefore | trees/Splay.java:185-195 | hanging a new leaf keeps the tree ordered and adds exactly one copy |
| Splay.InsertFoundAfter | trees/Splay.java:179-182 | splaying the equal node and raising its repeat adds exactly one copy |
| Splay.SplayTree.constructor | trees/Splay.java:157-159 | a new tree is empty and valid |
| Splay.SplayTree.Clear | trees/Splay.java:162-164 | clear empties the tree |
| Splay.SplayTree.Insert | trees/Splay.java:166-196 | insert adds one copy, keeps the invariant and leaves v at the root |
| Splay.SplayTree.SplayAt | trees/Splay.java:127-153 | splaying a node keeps the values and brings it to the root |
| Splay.SplayTree.SplayNear | trees/Splay.java:236-241 | the search and splay keep the values, report whether v is stored, and leave v or a neighbour of v at the root |
| Splay.SplayTree.RemoveRoot | trees/Splay.java:211-232 | the root is replaced by its one child or its successor, keeping all other values |
| Splay.SplayTree.DropRootCopy | trees/Splay.java:205-232 | one copy of the root's value is removed |
| Splay.SplayTree.Delete | trees/Splay.java:198-233 | as written: a stored v loses one copy; an absent v removes every copy of a neighbouring value |
| Splay.SplayTree.DeleteChecked | trees/Splay.java:198-233 | corrected delete: one copy of v fewer, nothing changes when v is absent or the tree is empty |
| Splay.SplayTree.Rank | trees/Splay.java:235-252 | rank(v) is 1 + the number of stored values below v; contents unchanged |
| Splay.SplayTree.Select | trees/Splay.java:254-278 | select(k) is the k-th smallest stored value, NoSuchElement outside 1..size; contents unchanged |
| Splay.SplayTree.Predecessor | trees/Splay.java:280-297 | predecessor(v) is the largest stored value below v, or NoSuchElement |
| Splay.SplayTree.Successor | trees/Splay.java:299-316 | successor(v) is the smallest stored value above v, or NoSuchElement |
| Splay.SelectWalk | trees/Splay.java:254-278 | the select walk stops at the node holding the k-th value, or at an empty child when there is none |
| Splay.SelectHere | trees/Splay.java:261-265 | the k-th value is at a node whose own size is stale exactly when its children's sizes say so |
| Fenwick.Lowbit | trees/BITree.java:24 | i & -i lies between 1 and i |
| Fenwick.LowbitIsLowestBit | trees/BITree.java:24 | i & -i is a power of two whose quotient with i is odd |
| Fenwick.LowbitNext | trees/BITree.java:24 | the next index of the update loop has a lowbit at least twice as large |
| Fenwick.LowbitShift | trees/BITree.java:24 | adding less than i & -i to i gives an index whose lowest bit is that of the addend |
| Fenwick.SumAdd | trees/BITree.java:22-29 | adding v at one position adds v to every range sum that contains it |
| Fenwick.UpdateStep | trees/BITree.java:24-28 | the update loop visits every cell covering the position and skips none |
| Fenwick.AccumulateStep | trees/BITree.java:22-29 | each step of the update loop keeps every visited cell the sum of its range |
| Fenwick.AccumulateDone | trees/BITree.java:22-29 | at the end of the update loop every cell sums its range of the updated values |
| Fenwick.RangeByPrefixes | Main.java:51-53 | the sum over [l, r] is query(r) - query(l - 1) |
| Fenwick.BITree.constructor | trees/BITree.java:15-20 | a new tree holds zero at every position |
| Fenwick.BITree.Update | trees/BITree.java:22-29 | update adds the value at one position, and changes nothing past the end |
| Fenwick.BITree.Query | trees/BITree.java:31-40 | query(i) is the sum of positions 1..i, and 0 for i <= 0 |
| Segment.OrFresh | trees/SegmentTree.java:42-48 | a created child holds the zero element like the absent one |
| Segment.Spread | trees/SegmentTree.java:39-52 | spread clears the tag and keeps the node's sum |
| Segment.InsertAt | trees/SegmentTree.java:62-76 | insert adds the value to the sum of every node on the way |
| Segment.UpdateNodePoints | trees/SegmentTree.java:34-37 | updateNode adds the value to every point of the node's range |
| Segment.SpreadPoints | trees/SegmentTree.java:39-52 | spread changes no point value |
| Segment.SpreadGood | trees/SegmentTree.java:39-52 | spread keeps every node's sum equal to its children's sums plus its tag's share |
| Segment.UpdateNode | trees/SegmentTree.java:34-37 | updateNode returns a node |
| Segment.UpdateNodeGood | trees/SegmentTree.java:34-37 | updateNode keeps the sum invariant |
| Segment.HalfGood | trees/SegmentTree.java:42-49 | pushing a tag into a child, created if absent, keeps the child's sum invariant |
| Segment.SpreadFull | trees/SegmentTree.java:39-52 | spread keeps every node present |
| Segment.InsertPoints | trees/SegmentTree.java:62-76 | insert adds the value at the index, clamped into the range, and nowhere else |
| Segment.InsertGood | trees/SegmentTree.java:62-76 | insert keeps the sum invariant |
| Segment.UpdatePoints | trees/SegmentTree.java:83-97 | update adds the value at every point of [l, r] and nowhere else |
| Segment.UpdateAt | trees/SegmentTree.java:83-97 | update returns a node |
| Segment.QueryAt | trees/SegmentTree.java:105-119 | query returns a node alongside its sum |
| Segment.UpdateGood | trees/SegmentTree.java:83-97 | update keeps the sum invariant |
| Segment.QueryPoints | trees/SegmentTree.java:105-119 | query changes no point value |
| Segment.QueryGood | trees/SegmentTree.java:105-119 | query keeps the sum invariant |
| Segment.DataIsSum | trees/SegmentTree.java:83-97 | under the invariant, a node's data is the sum of the points of its range |
| Segment.QuerySum | trees/SegmentTree.java:105-119 | query returns the sum of the points of [l, r] clipped to the node's range |
| Segment.NodeSum | trees/SegmentTree.java:105-119 | the points of a node's range sum to its tag's share plus the two halves' sums |
| Segment.SumClipped | trees/SegmentTree.java:105-119 | the clipped sums over the two halves add up to the clipped sum over the whole range |
| Segment.FullCanUpdate | trees/SegmentTree.java:83-97 | on a tree with every node present, update finds every child it visits whenever its walk stays inside [l, r] at the leaves |
| Segment.UpdatableQueryable | trees/SegmentTree.java:105-119 | where update can run, query can too |
| Segment.CanUpdateInside | trees/SegmentTree.java:83-97 | update can only run when its walk reaches no leaf outside [l, r]: never below the first leaf with l <= 1 and r < 1, never below the last with l > size and r >= size |
| Segment.CanQueryInside | trees/SegmentTree.java:105-119 | the same for query |
| Segment.FullCanRun | trees/SegmentTree.java:83-119 | on a tree with every node present, update and query can run if and only if their walk reaches no leaf outside [l, r] |
| Segment.InsertMakesPath | trees/SegmentTree.java:62-76 | insert creates every node from the root to the index's leaf |
| Segment.InsertKeepsPath | trees/SegmentTree.java:62-76 | insert keeps every node that existed before |
| Segment.PathsMakeFull | trees/SegmentTree.java:62-76 | once every position has been inserted, every node is present |
| Segment.InsertEachPaths | trees/SegmentTree.java:62-81 | after a run of inserts, every point that had a path, and every point an insert named, has one |
| Segment.FilledCanUpdate | trees/SegmentTree.java:62-130 | once every position of the range has been inserted, from any tree, every node is present and any update or query whose walk stays inside [l, r] at the leaves finds every child it visits |
| Segment.UpdateKeepsFull | trees/SegmentTree.java:83-97 | update keeps every node present |
| Segment.QueryKeepsFull | trees/SegmentTree.java:105-119 | query keeps every node present |
| Segment.InsertKeepsFull | trees/SegmentTree.java:62-76 | insert keeps every node present |
| Segment.SegmentTree.constructor | trees/SegmentTree.java:54-60 | a new tree has no nodes and every point is zero |
| Segment.SegmentTree.Insert | trees/SegmentTree.java:78-81 | insert(index, value) adds value at the clamped index and leaves the other points |
| Segment.SegmentTree.Update | trees/SegmentTree.java:99-103 | for any [l, r] whose walk finds its nodes (empty and partly outside ranges included), update(l, r, value) adds value at every point of [l, r] within 1..size and leaves the others; the new root is the one the walk leaves |
| Segment.SegmentTree.Query | trees/SegmentTree.java:126-130 | for any [l, r] whose walk finds its nodes (empty and partly outside ranges included), query(l, r) is the sum of the points of [l, r] within 1..size; the new root is the one the query's spreads leave, and no point changes |
| Segment.SegmentTree.QueryPoint | trees/SegmentTree.java:121-124 | for any index whose walk finds its nodes, query(index) is the value of that point; the new root is the one the query's spreads leave, and no point changes |

## Left out

- Nodes are immutable values. Each class holds its root, and parent links are a zipper. Aliasing between node objects and in-place mutation of shared nodes are not modelled. The source never shares a node between two places, so a value model sees the same trees.
- Values are `int` and the comparator is integer order. Java generics, `Comparable` and `compareTo` are not modelled.
- Java `int` overflow of sizes, counters, ranks and sums is not modelled: every integer is unbounded. This covers Fenwick cells and segment-tree sums as well.
- The treap priorities come from a random generator, which is not part of this model. `Treap.Treap.Insert` and `FHQ.FHQTreap.Insert` take the priority as a parameter, and their contracts hold for every priority.
- SB.Maintain: the source's maintain has no decreasing measure, and on some trees it never returns (see Findings). The model bounds the nested recursion by a fuel argument of one more than the node count and returns the tree as it stands when the fuel runs out. Every property proved about maintain and insert holds for every fuel.
- SB.SBTree.Insert: the contract is that of the fuel-bounded model. On inputs such as the one under Findings, the source's insert does not terminate. The model still adds one copy and keeps a search tree there, but the shape it returns is whatever the fuel cut-off leaves.
- AVL.AVLTree.Delete: does not promise that a balanced tree stays balanced. The source rebalances only the node that replaces a removed node with two children, not the nodes on the way back up.
- SB.SBTree.Delete: does not promise size balance afterwards, because the source's delete never calls maintain.
- RB.RBTree.Delete: does not promise the red-black properties afterwards. When the removed black node's replacement child is absent, fixDelete(null) returns at once, so a black height can drop. A corrected fixDelete is not part of this model.
- SG.Unbalance: the thresholds `(int)(real * 0.8)` and `(int)(real * 0.6)` are computed exactly, as `real * 4 / 5` and `real * 3 / 5` truncated toward zero, and the doubles are not modelled. No behaviour is lost for `int` counts. The exact products have fractional parts that are multiples of 0.2. The doubles nearest 0.8 and 0.6 are off by less than 5e-17, so for any `int` count the product's error stays far below 0.2. Where the exact product is an integer k, the computed double rounds back to k itself.
- SG.SGTree.Insert: the `unique` counter is an estimate in the source; its exact meaning is not proved, only that rebuilding leaves correct counters on rebuilt nodes.
- Splay.SplayTree.Delete: requires a nonempty tree. On an empty tree the source dereferences `root.father` and throws.
- Splay: the root's own size can be stale after insert or delete changes its repeat count, as in the source. The invariant asks for correct sizes below the root only, and select reads the root's size through its children.
- Segment.SegmentTree.constructor: requires size >= 1. With size 0 the root covers the empty range [1, 0], yet insert still adds to its sum.
- Segment.SegmentTree.Update: requires `CanUpdate`, which asks two things. First, every node the walk visits exists; on a tree that was never filled the source would dereference a missing child. `Segment.FilledCanUpdate` proves this holds once every position has been inserted, whatever the tree was before. It combines `Segment.InsertEachPaths` (built on `Segment.InsertMakesPath` and `Segment.InsertKeepsPath`), `Segment.PathsMakeFull` and `Segment.FullCanUpdate`. Second, the walk reaches no leaf outside [l, r]. `Segment.FullCanRun` proves that on a full tree this is all `CanUpdate` asks: it fails exactly when l <= 1 and r < 1, or l > size and r >= size (and, for size 1, whenever [l, r] misses 1). On those ranges the source goes below the first or last leaf. When that leaf holds no tag, it dereferences a missing child. When it holds a tag, spread creates nodes below it, and the walk either recurses without end or, when l = size + 1, updates a new node covering [size + 1, size]. SegmentTree.java:96 then sets the last leaf's sum to its old tag, dropping the values inserted at that point. The model does not follow the walk below a leaf.
- Segment.SegmentTree.Query: requires `CanQuery`, the query counterpart of the above (`Segment.CanQueryInside`, `Segment.FullCanRun`). On the excluded ranges, the source's query dereferences a missing child, recurses without end below a tagged leaf or, when l = size + 1, returns 0 after creating nodes below the last leaf.
- Segment.SegmentTree.QueryPoint: requires `CanQuery` for [index, index], which on a full tree means 1 <= index <= size. Outside that range, the source behaves as query does on the excluded ranges.
- Segment.Spread: `tag != zeroElement` compares boxed values by reference in the source; it is modelled as a value comparison. The two agree for the cached boxed zero that `+` returns.
- Fenwick.BITree.Update and Fenwick.BITree.Query take the source's `assert` lines as preconditions (index > 0; index <= length).
- Console input, the `Main` driver and `FastReader` are not part of this model. `utils.Pair` is a tuple or a pair of out-parameters.

## Findings

| source | as written | input that shows it | evidently intended | confidence | as-written member | corrected member |
|---|---|---|---|---|---|---|
| trees/FHQTreap.java:183-194 | select(k) splits off the first k values and returns the largest of them, throwing only when that part is empty | a treap holding only 5; select(2) returns 5 | NoSuchElementException for k greater than the number of values, as the other six trees do | not executed | FHQ.SelectPastEnd | FHQ.SelectCheckedBySize |
| trees/Splay.java:198-233 | when the value is absent, delete splays the last node visited and then falls through to the removal code, deleting that node with all its copies | a tree holding 5; delete(3) removes 5 | an absent value leaves the tree unchanged | not executed | Splay.SplayTree.Delete | Splay.SplayTree.DeleteChecked |
| trees/SBTree.java:104-136 | maintain recurses with no decreasing measure: after a rotation it re-maintains both children, then calls maintain(now, true) and maintain(that, false) | insert 3, 3, 4, 5, 4, 2, 6, 3, 3, 4 into an empty tree, then 1: at the root, maintain(T, false) with T = 4x3(2(1, 3x4), 5(-, 6)) reaches maintain(T, false) again before returning, so the recursion never ends | insert returns, having added one copy of 1 and kept a search tree | not executed | SB.MaintainReenters | SB.InsertElems |
