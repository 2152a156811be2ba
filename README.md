# Verified model of the gperftools-demo ordered sets and toy solvers

The repository is a family of suffix-index demonstrations. Each program inserts every suffix of a text into an ordered set of byte strings, then answers one lower-bound query: the smallest stored key not below the query. Every demo uses a different data structure. A few unrelated toy programs sit beside them.

This Dafny project models the core of those programs and proves what they promise:

- `Keys` and `OrderedSet`: byte-string keys, their lexicographic order (as `std::string_view` compares them), and the abstract contract every variant meets. The state is a strictly increasing sequence of keys. `Insert` adds one key; `LowerBound` returns the smallest key not below the query, or nothing.
- `BinaryTree`: the binary search tree shape shared by the AVL, treap and splay variants, with the in-order key sequence and the descent facts every lower-bound search relies on.
- `PersistentAvl` (suffix-avl-persistent.cc): immutable AVL nodes with stored heights, `MakeAndRebalance` with its single and double rotations, the recursive `Insert`, `LowerBound`, the `Checker` behind `Validate`, and the per-node reference count (`Counted`).
- `InPlaceAvl` (suffix-avl.cc): an AVL tree with balance factors, rewired in place through a path of parent links (modelled as a zipper), with `swap_child`, `swap_grand_child`, `insert_leaf`, `erase_at_leaf`, `erase_current`, `Insert`, `LowerBound` and `Validate`.
- `PersistentBTree` (suffix-btree-persistent.cc): copy-on-write B-tree nodes, the insert and replace views, node splitting, the recursive insert with split propagation and root split, the refcount-1 fast path, `LowerBound` and `Validate`.
- `CritBit` (critbit-tree.h): bit reading, the critical-bit search, `Insert`, `FindMinLeaf`, `LowerBound` (including the strict upper-bound mode), and the recursive validator.
- `SuffixTreap` (suffix-treap.cc): the 48-bit linear congruential generator, the split, `Insert`, `LowerBound`, `Validate` and `Clear`.
- `SuffixSplay` (suffix-splay.cc): move-to-top insertion, the naive insert, the top-down splay split with its zig-zig rotation, `LowerBound` with move-to-root, `RemoveRoot`, `Validate` and `Clear`.
- `SuffixTrie` and `TrieIndex` (suffix-trie.cc): the 256-way compressed trie, with its popcount-ranked child bitmap (`ArrayIndex`), child insertion, `ReadString`, `FindLCPLeaf`, `Insert`, `LowerBound` and `DoValidate`.
- `TrigramIndex`, `TrigramCaseInsensitive` and `TrigramSpaceful` (trigram-index.cc):
  - the positional trigram index and its posting lists;
  - conjunctive search over terms at fixed offsets;
  - case-insensitive search over disjunctions of case forms;
  - the word splitting of the "spaceful" search and the whitespace runs it uses.
- The colouring program (coloring.cc):
  - `ColorSets`: the 4-colour bitset;
  - `CopyOnWrite`: the reference-counted, copy-on-write two-level array;
  - `ColoringGraph`: the breadth-first distances and ordering;
  - `ColoringRename`: the renumbering of the graph and its undo;
  - `ColoringSearch`: constraint propagation (`DoPickColorAt`) and the backtracking search (`Rec`);
  - `ColoringMain`: the driver whose result is checked edge by edge.
- The knight's-tour program (knight-path.cc):
  - `KnightPosSet`: the bitset of visited squares;
  - `KnightPath`: the degree count, Warnsdorff move ordering, the backtracking solver and argument parsing.

Tree nodes that the source never changes after construction are Dafny datatype values. Objects whose fields the source updates (tree handles, checkers, the random generator, reference counts, the position set, the search state) are classes with `modifies` frames. Loops in the source are methods with loop invariants, proved against specification functions. Integer widths are written out where they matter (64-bit words, the 48-bit generator, 8-bit sizes).

## Model

| member | source | states |
|---|---|---|
| Keys.Lcp | suffix-trie.cc:275-277 | std::mismatch's offset: the common prefix length, no longer than either key |
| Keys.LcpFacts | suffix-trie.cc:275-277 | the keys agree below the common prefix length and differ at it when both go on |
| Keys.LessAt | suffix-avl.cc:448 | string_view comparison: past a common prefix, the first differing byte decides |
| Keys.PrefixLess | suffix-avl.cc:448 | a proper prefix sorts before the longer key |
| Keys.Trichotomy | suffix-avl.cc:448 | string_view comparison is a strict total order: exactly one of less, equal, greater |
| Keys.LessTransitive | suffix-avl.cc:448 | string_view comparison is transitive |
| OrderedSet.LowerBoundUnique | suffix-avl.cc:443-456 | the smallest key not below the query is determined by the stored keys |
| OrderedSet.LowerBound | suffix-avl.cc:443-456 | on sorted keys, the smallest key not below the query, or none when all are below |
| OrderedSet.UpperBound | suffix-trie.cc:418-480 | on sorted keys, the smallest key strictly above the query, or none |
| OrderedSet.InsertStrictlySorted | suffix-avl.cc:413-441 | inserting an absent key at its rank keeps strictly sorted keys strictly sorted |
| PersistentAvl.AvlHeightExact | suffix-avl-persistent.cc:59-61 | in a valid tree the stored height (0 for null) is the true height |
| PersistentAvl.MakeLeaf | suffix-avl-persistent.cc:67 | the one-key node is a valid AVL tree of height 1 holding exactly that key |
| PersistentAvl.MakeNode | suffix-avl-persistent.cc:69-72 | requires the balance assert (\|right height - left height\| < 2); the height is the larger child height + 1 and the in-order keys are left, value, right |
| PersistentAvl.ImbalanceTest | suffix-avl-persistent.cc:87-88 | for balances in [-2, 2] the `(balance & 3)` test singles out exactly -2 and 2 |
| PersistentAvl.Mk3 | suffix-avl-persistent.cc:106-121 | given mk3's order assertions, the rebuilt two-level tree is rooted at k2 and lists a, k1, b, k2, c, k3, d in order; valid pieces give a valid tree |
| PersistentAvl.Mk2 | suffix-avl-persistent.cc:124-143 | given mk2's order assertions, the tree is rooted at k1 or k2 as requested and lists a, k1, b, k2, c in order, with its height |
| PersistentAvl.SlowPathOrder | suffix-avl-persistent.cc:110-115 | strictly increasing in-order keys satisfy every key assertion of mk3 and mk2 (lines 128-131 too) |
| PersistentAvl.LeftInnerCase | suffix-avl-persistent.cc:145-155 | balance -2 with the left child leaning right: the left-right grandchild exists and mk3 lifting it gives a valid tree with the same keys |
| PersistentAvl.LeftOuterCase | suffix-avl-persistent.cc:156-158 | balance -2 otherwise: mk2 rooted at the old left child gives a valid tree with the same keys |
| PersistentAvl.RightInnerCase | suffix-avl-persistent.cc:159-165 | the mirror of LeftInnerCase for balance 2 and a right child leaning left |
| PersistentAvl.RightOuterCase | suffix-avl-persistent.cc:166-168 | the mirror of LeftOuterCase for balance 2 |
| PersistentAvl.MakeAndRebalanceSlowPath | suffix-avl-persistent.cc:96-170 | the heavy side is non-null; a double rotation (new root = inner grandchild) is chosen iff the heavy child leans inward; the result is valid, keeps the keys and is at most one level taller |
| PersistentAvl.MakeAndRebalance | suffix-avl-persistent.cc:85-94 | builds the plain node exactly when the bit test passes, otherwise rebalances; the result is always valid with in-order keys left, value, right |
| PersistentAvl.InsertRec | suffix-avl-persistent.cc:192-210 | inserting a new key into a valid strictly sorted tree yields a valid strictly sorted tree with one more key, at most one level taller |
| PersistentAvl.InsertRecElems | suffix-avl-persistent.cc:193-209 | the new in-order sequence is the old one with the key inserted at its rank (keys below a node go left, others right) |
| PersistentAvl.InsertAll | suffix-avl-persistent.cc:311-316 | inserting distinct keys one by one from empty yields a valid tree holding exactly those keys |
| PersistentAvl.InsertAllValid | suffix-avl-persistent.cc:215-263 | after any sequence of inserts Validate's height, balance and order checks all pass |
| PersistentAvl.Counted.IncRef | suffix-avl-persistent.cc:173-175 | null is ignored; otherwise the count goes up by one |
| PersistentAvl.Counted.DecRef | suffix-avl-persistent.cc:176-181 | null is ignored; otherwise the count goes down by one and the node is deleted exactly when it reaches 0 |
| PersistentAvl.Checker.Rec | suffix-avl-persistent.cc:229-263 | passes iff the subtree is balanced with exact stored heights and its keys continue the walk in nondecreasing order; then returns the height and the last key seen |
| PersistentAvl.DoValidate | suffix-avl-persistent.cc:222-277 | passes iff the tree is a valid AVL tree with nondecreasing in-order keys |
| PersistentAvl.AVLTree.Insert | suffix-avl-persistent.cc:186-213 | the tree stays valid and its in-order keys are the old ones with the new key at its rank; old nodes are values and are never changed |
| PersistentAvl.AVLTree.LowerBound | suffix-avl-persistent.cc:281-297 | returns the smallest stored key >= str, or none |
| PersistentAvl.AVLTree.Validate | suffix-avl-persistent.cc:215-220 | passes iff the tree is balanced with nondecreasing keys (an empty tree passes) |
| InPlaceAvl.BalancedIsExact | suffix-avl.cc:34-36 | a balanced tree stores exact balances (the local assert's [-1, 1] bound plus exactness) |
| InPlaceAvl.Leaf | suffix-avl.cc:370-377 | a fresh node (null children, balance 0) is a balanced tree of height 1 holding exactly its key |
| InPlaceAvl.WithChild | suffix-avl.cc:302-304 | overwriting child idx changes only that child link; the other child, the key and the balance are kept |
| InPlaceAvl.BalanceTowards | suffix-avl.cc:38-40 | equals the balance for idx 1 and its negation for idx 0 |
| InPlaceAvl.ImbalanceTest | suffix-avl.cc:42-47 | for balances in [-2, 2], `(balance & 3) == 2` holds iff the balance is -2 or 2 |
| InPlaceAvl.HeavyChild | suffix-avl.cc:284 | a node whose side idx is two levels taller has a non-null child there, and its height comes from that child |
| InPlaceAvl.SingleRotationElems | suffix-avl.cc:276-307 | swap_child keeps the in-order key sequence |
| InPlaceAvl.SingleRotationBalanced | suffix-avl.cc:284-300 | under swap_child's asserts the rotated subtree is balanced; it is one level lower iff the child's balance toward idx was 1, and then both balances are 0 |
| InPlaceAvl.SingleRotationCorrect | suffix-avl.cc:276-307 | swap_child keeps the keys, restores balance and reports a height drop exactly when the child leaned toward idx |
| InPlaceAvl.DoubleRotationElems | suffix-avl.cc:309-359 | swap_grand_child keeps the in-order key sequence |
| InPlaceAvl.DoubleRotationRightBalanced | suffix-avl.cc:337-358 | idx 1: the grandchild n21 exists, becomes the root with balance 0, and n and n2 get balances from the sign of its old balance |
| InPlaceAvl.DoubleRotationLeftBalanced | suffix-avl.cc:337-358 | the mirror case idx 0 |
| InPlaceAvl.DoubleRotationBalanced | suffix-avl.cc:337-358 | under swap_grand_child's asserts the result is balanced with root balance 0 and one level lower |
| InPlaceAvl.DoubleRotationCorrect | suffix-avl.cc:309-359 | swap_grand_child keeps the keys, restores balance and always lowers the height |
| InPlaceAvl.PlugElems | suffix-avl.cc:24-32 | the tree seen through the parent-link path lists the keys left of the cursor, the cursor subtree's keys, then the keys right of it |
| InPlaceAvl.PlugSameElems | suffix-avl.cc:302 | replacing the subtree behind the incoming link by one with the same keys keeps the whole tree's keys |
| InPlaceAvl.PlugHeight | suffix-avl.cc:82-88 | the tree is at least as tall as the path depth plus the cursor subtree's height |
| InPlaceAvl.PlugBalanced | suffix-avl.cc:24-32 | a balanced cursor subtree under fitting frames gives a balanced tree |
| InPlaceAvl.UnplugBalanced | suffix-avl.cc:24-32 | every cursor position in a balanced tree sees a balanced subtree under fitting frames |
| InPlaceAvl.Adjusted | suffix-avl.cc:258-259 | adding the growth to the cursor node's balance keeps its keys and height |
| InPlaceAvl.GrownImbalanced | suffix-avl.cc:260-262 | a balance of +-2 after growth is the case balance_locally handles, with the heavy child leaning (so a rotation lowers it) |
| InPlaceAvl.GrownRotated | suffix-avl.cc:260-262 | a rotation that brings the grown node back to its old height rebalances the whole tree, so the loop may stop |
| InPlaceAvl.GrownSettled | suffix-avl.cc:264-266 | a balance of 0 after growth means the subtree height did not change and the whole tree is balanced |
| InPlaceAvl.GrownRises | suffix-avl.cc:267-268 | otherwise the cursor subtree is balanced and one level taller (so stopping at the root is correct) |
| InPlaceAvl.GrownStep | suffix-avl.cc:270-271 | a grown node that still tilts hands the growth on to its parent |
| InPlaceAvl.GrownStart | suffix-avl.cc:253-255 | hanging a new leaf in the empty slot idx starts the upward walk in the grown state |
| InPlaceAvl.TreePath.constructor | suffix-avl.cc:29-32 | a fresh path is at the root link with the root as the current node |
| InPlaceAvl.TreePath.ResetToRoot | suffix-avl.cc:53-56 | returns to the root link; the current node is the whole tree |
| InPlaceAvl.TreePath.MoveUp | suffix-avl.cc:67-71 | pops one link; the current node becomes the parent and the tree is unchanged |
| InPlaceAvl.TreePath.MoveUpReturnIdx | suffix-avl.cc:73-80 | as MoveUp, and returns the side the cursor was on |
| InPlaceAvl.TreePath.MoveDown | suffix-avl.cc:82-88 | requires the depth bound of the link stack; pushes the link to child idx and returns that child; the tree is unchanged |
| InPlaceAvl.TreePath.SwapChild | suffix-avl.cc:276-307 | requires swap_child's asserts; the cursor subtree becomes the single rotation and the result says whether the height dropped |
| InPlaceAvl.TreePath.SwapGrandChild | suffix-avl.cc:309-359 | requires swap_grand_child's asserts; the cursor subtree becomes the double rotation |
| InPlaceAvl.TreePath.BalanceLocally | suffix-avl.cc:115-133 | rotates toward the heavy side; the result is balanced with the same keys, one level lower iff it reports true, and always lower right after an insertion |
| InPlaceAvl.TreePath.InsertLeaf | suffix-avl.cc:238-273 | hanging a leaf in the empty slot (or as the first node) and walking up keeps the whole tree balanced and inserts exactly that key at the slot's in-order position |
| InPlaceAvl.TreePath.WalkUpStep | suffix-avl.cc:257-272 | one loop round keeps the keys; it stops (balanced tree) after a rotation, at balance 0 or at the root, and otherwise moves up with the growth handed to the parent |
| InPlaceAvl.CursorKey | suffix-avl.cc:182-184 | the cursor node's key sits in the whole tree's in-order keys at CursorIndex: after the keys its frames put before it and its own left subtree |
| InPlaceAvl.LeafRemoved | suffix-avl.cc:135-136 | nulling the link to a childless cursor node removes exactly its key from the in-order keys, at the position of the keys before it |
| InPlaceAvl.ShrunkParent | suffix-avl.cc:140-141 | a balanced subtree one level lower than its frames expect makes the parent the next node of the walk, with the lost side as idx |
| InPlaceAvl.Shrink | suffix-avl.cc:172-173 | adding balance_delta (towards the side that did not shrink) to the cursor node's balance keeps its keys and height |
| InPlaceAvl.ShrunkSettled | suffix-avl.cc:174-177 | a balance of +-1 after adding balance_delta means the subtree kept its height, so the whole tree is balanced and the walk may stop |
| InPlaceAvl.ShrunkImbalanced | suffix-avl.cc:173-175 | a balance of +-2 after adding balance_delta is the case balance_locally handles: it leans away from the shrunk side, and the node keeps its old height |
| InPlaceAvl.ShrunkRotated | suffix-avl.cc:156-159 | a rotation that keeps the height leaves the whole tree balanced; one that lowers it leaves frames expecting one level more |
| InPlaceAvl.ShrunkRotatedUp | suffix-avl.cc:156-173 | after a rotation that lowered the subtree below a parent, that parent is the next node of the walk |
| InPlaceAvl.ShrunkLowered | suffix-avl.cc:151-173 | a balance of 0 after adding balance_delta means the subtree is balanced but one level lower, and its parent (if any) is the next node of the walk |
| InPlaceAvl.TreePath.ShrinkStep | suffix-avl.cc:151-179 | one loop round keeps the keys; it stops with a balanced tree (and the cursor where it was) at a +-1 balance, after a rotation that keeps the height, or at the root, and otherwise moves up with the loss handed to the parent |
| InPlaceAvl.TreePath.EraseAtLeaf | suffix-avl.cc:135-180 | the tree stays balanced and its in-order keys lose exactly the leaf's key, at its position |
| InPlaceAvl.StaleCursorAfterErase | suffix-avl.cc:156-164 | erasing the leaf 4 from the balanced tree 10{3{2{1},4},12{11,13{-,14}}} leaves node 3 at balance -2 below the root; the rotation towards its left child reduces the height, and afterwards the rotated-down node 3 is no longer the node behind the link, so node_ptr's check (suffix-avl.cc:58-61) fails |
| InPlaceAvl.TreePath.DescendClosest | suffix-avl.cc:210-220 | the walk takes one link to side closest, then the other side until it runs out: it stops at the closest descendant, whose other child is null, without changing the tree |
| InPlaceAvl.SwapBalanced | suffix-avl.cc:222-232 | trading the key of a frame and the cursor node keeps the frames valid and the tree balanced, since keys play no part in balance |
| InPlaceAvl.SwapLeftRemoves | suffix-avl.cc:222-233 | with the predecessor: after trading keys, removing n's key from its new spot leaves the same keys as removing it from its old spot |
| InPlaceAvl.SwapRightRemoves | suffix-avl.cc:222-233 | the same with the successor |
| InPlaceAvl.SwapKeys | suffix-avl.cc:222-233 | the same for either side, with the frame that held n's key now holding the descendant's |
| InPlaceAvl.SwapStep | suffix-avl.cc:205-235 | after the swap the cursor is on n's key in a lower node of a still balanced tree, and removing the key there is removing it from the tree as it was |
| InPlaceAvl.TreePath.SwapWithClosest | suffix-avl.cc:205-233 | the cursor ends on a node holding the old cursor key, strictly lower, in a balanced tree of the same size, where removing the cursor key leaves the same keys as removing it before the swap |
| InPlaceAvl.TreePath.EraseCurrent | suffix-avl.cc:182-236 | the tree stays balanced and its in-order keys lose exactly the cursor node's key, at the cursor's position |
| OrderedSet.RemoveInsertAt | suffix-avl.cc:135-136 | removing the key just inserted at a position gives the keys back (the partner of the in-order removal the erase operations promise) |
| OrderedSet.RemoveAtMultiset | suffix-avl.cc:135-136 | removal at a position takes away exactly one occurrence of the key there |
| InPlaceAvl.FewestNodesMono | suffix-avl.cc:22 | the minimum node count of an AVL tree grows with its height |
| InPlaceAvl.BalancedSize | suffix-avl.cc:22 | a balanced tree of height h has at least FewestNodes(h) keys |
| InPlaceAvl.FewestNodesGrowth | suffix-avl.cc:22 | FewestNodes(h) + 1 grows at least like (8/5)^h |
| InPlaceAvl.HeightBound | suffix-avl.cc:22 | fewer than 2^64 keys keep a balanced tree below 96 levels, inside kMaxLevels = 104 |
| InPlaceAvl.DescendStep | suffix-avl.cc:425-435 | one descent step (right when the node's key is below data, else left) keeps keys left of the cursor below data and keys right of it at or above data |
| InPlaceAvl.LeafPlacement | suffix-avl.cc:432-438 | where the descent ends the slot is empty, and hanging the leaf there inserts data before the keys equal to it |
| InPlaceAvl.Insert | suffix-avl.cc:413-441 | the tree stays balanced and sorted and its in-order keys are the old ones with data inserted at its rank |
| InPlaceAvl.LowerBound | suffix-avl.cc:443-456 | returns the smallest stored key >= str, or none |
| InPlaceAvl.Checker.Rec | suffix-avl.cc:463-488 | passes iff every stored balance in the subtree is exact and its keys continue the walk in nondecreasing order; then returns the height |
| InPlaceAvl.Validate | suffix-avl.cc:458-492 | passes iff every stored balance is exact and the in-order keys never decrease |
| PersistentBTree.Widths | suffix-btree-persistent.cc:134-141 | with 16-byte views and 8-byte pointers, kLeafWidth is 29, so a leaf splits at 14 and an internal node at 9 |
| PersistentBTree.InsertOp | suffix-btree-persistent.cc:70-91 | the view has one more element: elements[0..pos), then value, then elements[pos..) |
| PersistentBTree.ReplaceOp | suffix-btree-persistent.cc:97-116 | the view keeps the size and differs from elements only at pos |
| PersistentBTree.JoinSplit | suffix-btree-persistent.cc:121-131 | the in-order keys of a run of children split at any separator key inside the run |
| PersistentBTree.JoinAt | suffix-btree-persistent.cc:121-131 | a node's in-order keys are the keys before child pos, that child's keys, then the keys after it |
| PersistentBTree.MakeLeaf | suffix-btree-persistent.cc:211-222 | a new leaf holds exactly the given keys (at most kLeafWidth) and is held by one pointer |
| PersistentBTree.MakeInternal | suffix-btree-persistent.cc:185-209 | a new internal node holds the given keys and one more child than keys |
| PersistentBTree.FindInsertPos | suffix-btree-persistent.cc:241-246 | every key before the result is below value and every key from it on is >= value (std::lower_bound) |
| PersistentBTree.SplitLeaf | suffix-btree-persistent.cc:248-261 | a full leaf splits into two leaves of 14 keys with the middle key between; left ++ [key] ++ right is the original |
| PersistentBTree.SplitInternal | suffix-btree-persistent.cc:263-281 | a full internal node splits into two nodes of 9 keys around keys[9]; keys and children split to match |
| PersistentBTree.ReplaceChild | suffix-btree-persistent.cc:283-295 | the copy keeps the keys and differs only in child childIndex |
| PersistentBTree.InsertIntoLeaf | suffix-btree-persistent.cc:297-304 | the copy's keys are the leaf's keys with value placed at pos |
| PersistentBTree.InsertIntoInternal | suffix-btree-persistent.cc:306-321 | the split key goes in at pos and child pos is replaced by the split's left and right halves |
| PersistentBTree.MakeInternalFromSplit | suffix-btree-persistent.cc:323-330 | a new root with the split key and the two halves as its children |
| PersistentBTree.ChildSwapped | suffix-btree-persistent.cc:286-295 | swapping child pos replaces that child's run of keys and nothing else |
| PersistentBTree.SplitElems | suffix-btree-persistent.cc:248-281 | the halves of a split and the key between them hold the node's keys in order |
| PersistentBTree.InstalledSplit | suffix-btree-persistent.cc:306-321 | installing a split of child pos in place of that child keeps the node's in-order keys |
| PersistentBTree.ShapedChild | suffix-btree-persistent.cc:573-592 | every child of a valid node is a valid non-root node one level lower |
| PersistentBTree.SplitShaped | suffix-btree-persistent.cc:248-281 | the halves of a full valid node are valid non-root nodes with room, at the node's height |
| PersistentBTree.SwappedShaped | suffix-btree-persistent.cc:286-295 | swapping in a valid child of the same height keeps a node valid |
| PersistentBTree.InstalledShaped | suffix-btree-persistent.cc:306-321 | installing valid halves of child pos into a node with room keeps it valid |
| PersistentBTree.FromSplitShaped | suffix-btree-persistent.cc:323-330 | a root over two valid halves of equal height is a valid root one level higher |
| PersistentBTree.KeysSorted | suffix-btree-persistent.cc:549-557 | a node whose in-order keys increase has increasing keys of its own |
| PersistentBTree.Descend | suffix-btree-persistent.cc:403 | the child at the insert position holds exactly the keys between the separators around value |
| PersistentBTree.InsertBelow | suffix-btree-persistent.cc:418-431 | replacing the child at the insert position by that child with value inserted inserts value into the node |
| PersistentBTree.HalfReady | suffix-btree-persistent.cc:405-413 | a full node on a full path splits so that the half value goes into is ready for the second pass |
| PersistentBTree.SplitPath | suffix-btree-persistent.cc:405-414 | splitting the full child on value's path keeps the node valid with the same keys, and leaves value's new child ready for the second pass |
| PersistentBTree.Reattached | suffix-btree-persistent.cc:414 | putting the child with value inserted back in place inserts value into the node |
| PersistentBTree.LeafInserted | suffix-btree-persistent.cc:400 | a leaf with room takes value at its insert position and stays valid |
| PersistentBTree.Rec | suffix-btree-persistent.cc:391-432 | the first pass returns none exactly when a run of full nodes ends in a full leaf; the second pass always succeeds; a result is valid at the same height and is the old key sequence with value inserted at its rank |
| PersistentBTree.RecSplitting | suffix-btree-persistent.cc:405-415 | the second pass at an internal node keeps it valid at its height and inserts value at its rank |
| PersistentBTree.LowerBoundRec | suffix-btree-persistent.cc:519-537 | returns the smallest key of the subtree >= str (the child's answer, else the separator after it), or none |
| PersistentBTree.FastInsert | suffix-btree-persistent.cc:442-474 | the fast path applies iff every node on value's path has refcount 1 and the leaf has room; then only that leaf changes, keys are inserted at their rank and the path keeps its nodes |
| PersistentBTree.TryFastPath | suffix-btree-persistent.cc:442-474 | reports success exactly when the fast path applies; on failure nothing changes; on success the tree is the fast-path insertion |
| PersistentBTree.NewRootElems | suffix-btree-persistent.cc:507 | the keys of a new root are the left half's, the split key, then the right half's |
| PersistentBTree.RootSplit | suffix-btree-persistent.cc:497-505 | a full root on a full path splits into valid halves and the half value goes into is ready for the second pass |
| PersistentBTree.GrowRoot | suffix-btree-persistent.cc:497-508 | splitting a full root and inserting into the half value belongs to gives a valid tree one level taller with value inserted at its rank |
| PersistentBTree.ShapedWellFormed | suffix-btree-persistent.cc:195-198 | every internal node of a valid tree has one more child than keys |
| PersistentBTree.WalkStep | suffix-btree-persistent.cc:585-589 | visiting key i and then child i + 1 extends the in-order walk by both |
| PersistentBTree.KeyOutOfOrder | suffix-btree-persistent.cc:550-557 | a key out of order at position i makes the node's keys out of order |
| PersistentBTree.ChildMisfit | suffix-btree-persistent.cc:587-588 | an invalid child, or one of another height than the first, makes the node invalid |
| PersistentBTree.ShapedInternal | suffix-btree-persistent.cc:582-591 | an internal node within its size bounds is valid iff its children are valid at one height; its height is theirs + 1 |
| PersistentBTree.Checker.VisitKey | suffix-btree-persistent.cc:549-557 | passes iff the key is strictly above the previous one; it becomes the previous key |
| PersistentBTree.Checker.Rec | suffix-btree-persistent.cc:573-592 | passes iff the subtree is within the size bounds (root 1, non-root internal 9, non-root leaf 7, at most the width), has all leaves at one depth and continues the walk in strictly increasing order; returns the height |
| PersistentBTree.Checker.Children | suffix-btree-persistent.cc:582-591 | the loop over an internal node's keys and children passes iff the node is valid and continues the walk in order |
| PersistentBTree.Checker.KeyAndChild | suffix-btree-persistent.cc:586-588 | one loop round passes on key i and child i + 1, and a failure shows the node is invalid |
| PersistentBTree.Checker.VisitKeys | suffix-btree-persistent.cc:576-578 | the keys of a leaf pass iff they continue the walk in strictly increasing order |
| PersistentBTree.BTree.constructor | suffix-btree-persistent.cc:342-348 | the tree starts empty and valid |
| PersistentBTree.BTree.Insert | suffix-btree-persistent.cc:350-512 | the tree stays valid and its keys are the old ones with value inserted at its rank |
| PersistentBTree.BTree.LowerBound | suffix-btree-persistent.cc:514-540 | returns the smallest stored key >= str, or none |
| PersistentBTree.BTree.Validate | suffix-btree-persistent.cc:542-598 | passes iff the tree is valid; returns the height, 0 when empty |
| CritBit.Clz | critbit-tree.h:138-148 | std::countl_zero of a byte: 8 exactly for the zero byte |
| CritBit.ClzFacts | critbit-tree.h:138-148 | for a non-zero byte, the count of leading zeros lands on its highest set bit, with only zero bits before it |
| CritBit.XorBit | critbit-tree.h:135 | a bit of c1 ^ c2 is set exactly where c1 and c2 differ |
| CritBit.ByteOrder | critbit-tree.h:135-139 | two different bytes compare as their first differing bit, counted from the most significant bit |
| CritBit.GetBit | critbit-tree.h:79-84 | get_bit reads 0 or 1 |
| CritBit.BitAt | critbit-tree.h:79-84 | bit n * 8 + k of a string is bit k (MSB first) of byte n, reading a zero byte past the end |
| CritBit.FindCritBit | critbit-tree.h:98-152 | find_crit_bit returns none exactly when the two strings are identical |
| CritBit.FirstDiffAtByte | critbit-tree.h:127-151 | bytes that agree before n and differ at n first differ at bit n * 8 + countl_zero(c1 ^ c2) |
| CritBit.CritBitIsFirstDiff | critbit-tree.h:98-152 | for keys without zero bytes, find_crit_bit returns the least bit index at which they differ, a missing byte reading as 0 |
| CritBit.CritBitByPad | critbit-tree.h:105-132 | the compared bytes are those at the end of the common prefix, padded with 0 |
| CritBit.LessByPad | critbit-tree.h:89-92 | for keys without zero bytes, string order is the order of the padded bytes at their first difference |
| CritBit.BitOrder | critbit-tree.h:166-169 | for keys without zero bytes, a sorts before b exactly when a has 0 and b has 1 at their first differing bit |
| CritBit.ValidNoNul | critbit-tree.h:166 | every key of a valid tree is free of zero bytes |
| CritBit.Cohesive | critbit-tree.h:168-169 | all keys below an internal node agree on the bits before its index |
| CritBit.LeftBeforeRight | critbit-tree.h:168-169 | keys on the left of an internal node sort before keys on its right |
| CritBit.ValidSorted | critbit-tree.h:166-169 | the in-order keys of a valid tree are strictly increasing |
| CritBit.CritsIncrease | critbit-tree.h:168-169 | the index of an internal child exceeds its parent's |
| CritBit.DescendIn | critbit-tree.h:227-236 | the leaf key's path leads to belongs to the tree |
| CritBit.DescendFinds | critbit-tree.h:239-246 | in a valid tree a key is stored exactly when its path leads to it |
| CritBit.PathAgrees | critbit-tree.h:227-236 | the key agrees with the leaf its path reaches on every bit tested on the way |
| CritBit.CritGrows | critbit-tree.h:168-169 | indices strictly increase along any path of a valid tree |
| CritBit.GraftElems | critbit-tree.h:270-290 | putting the new internal node in place of the node at depth d adds exactly the new key |
| CritBit.NewBranchValid | critbit-tree.h:276-287 | the new internal node (new leaf on the side of its bit) is valid when the key first differs from the subtree's keys at its index and the subtree's index is larger |
| CritBit.GraftValid | critbit-tree.h:256-290 | grafting at the first node whose index exceeds the critical bit keeps the tree valid |
| CritBit.Decompose | critbit-tree.h:222-236 | a tree's keys are those left of a node on the path, the node's own, and those right of it |
| CritBit.PathSides | critbit-tree.h:341-343 | everything left of key's path below the stop point is below key and everything right of it above |
| CritBit.SlotSide | critbit-tree.h:281-287 | below the stop point all keys lie on one side of key, decided by key's bit at the critical index |
| CritBit.AnswerAtSplit | critbit-tree.h:293-301 | when a strictly increasing sequence splits into skipped keys then kept ones, the first kept key is the answer |
| CritBit.InsertCorrect | critbit-tree.h:243-290 | grafting where Insert's upward walk stops inserts exactly the (absent) key at its rank and keeps the tree valid |
| CritBit.RepIsMin | critbit-tree.h:398-407 | the leftmost leaf of a valid subtree holds its smallest key |
| CritBit.SlotFacts | critbit-tree.h:341-343 | where LowerBound's first upward walk stops, the subtree there is key's own leaf or lies wholly on one side of key |
| CritBit.StopBelow | critbit-tree.h:341-343 | every node above the stop point has an index below the critical bit |
| CritBit.AnswerInSlot | critbit-tree.h:360-368 | when key's bit at the critical index is 0 the answer is the smallest key of the stop subtree |
| CritBit.AnswerRightOf | critbit-tree.h:350-359 | when key's bit is 1, after popping the right turns the answer is the smallest key right of the last left turn, or none |
| CritBit.AnswerLeft | critbit-tree.h:337-343 | LowerBound's answer when key's bit at the critical index is 0 |
| CritBit.AnswerRight | critbit-tree.h:330-359 | LowerBound's answer when key's bit is 1, or key is stored and the query is strict |
| CritBit.ExactMatch | critbit-tree.h:330-333 | when the path ends at key itself, key is its own lower bound |
| CritBit.CheckRepsOnly | critbit-tree.h:418-498 | ValidateNodeRecursive as written: it returns the leftmost key, and the key's bit length for a leaf or the node's index otherwise |
| CritBit.ValidPassesRepsOnly | critbit-tree.h:418-498 | the check as written accepts every valid tree |
| CritBit.RepsDivergeAt | critbit-tree.h:457-484 | in a valid internal node the two representatives have bits 0 and 1 at its index and first differ there |
| CritBit.RepsOnlyAcceptsUnsorted | critbit-tree.h:443-484 | the check as written accepts a tree with keys 01, 81 and 01 80 (hex) whose keys are out of order |
| CritBit.CheckNode | critbit-tree.h:418-498 | the corrected check (an internal child's index must exceed its parent's) returns the leftmost key |
| CritBit.CheckNodeExact | critbit-tree.h:418-498 | on keys without zero bytes the corrected check passes exactly the valid trees |
| CritBit.CheckedBranchValid | critbit-tree.h:443-484 | an internal node with valid children that passes the corrected checks is valid |
| CritBit.CritBitTree.constructor | critbit-tree.h:195-196 | the tree starts empty and valid |
| CritBit.CritBitTree.Insert | critbit-tree.h:207-291 | requires a key without zero bytes; a present key changes nothing, otherwise the key is added at its rank; the tree stays valid |
| CritBit.CritBitTree.ValidateInvariants | critbit-tree.h:379-387 | with the corrected node check, passes exactly when the tree is valid |
| CritBit.CritBitTree.FindMinLeaf | critbit-tree.h:398-407 | always taking child 0 reaches the leftmost leaf, whose key is the subtree's smallest |
| CritBit.CritBitTree.LowerBound | critbit-tree.h:293-369 | requires a query without zero bytes; returns the smallest stored key >= key, or with reallyUpper the smallest key > key; none when there is none, and for an empty tree |
| CritBit.CritBitTree.PopAbove | critbit-tree.h:341-343 | pops the path entries whose index exceeds the critical bit; what remains is where the first walk stops |
| CritBit.CritBitTree.PopRightTurns | critbit-tree.h:350-353 | pops trailing right turns; the keys right of the path are unchanged and the last remaining step went left |
| CritBit.CritBitTree.SlotOf | critbit-tree.h:360-366 | the subtree the path's last step points to, or the root for an empty path |
| CritBit.CritBitTree.WalkDown | critbit-tree.h:310-319 | descends along key's bits to a leaf, recording key's whole path, and returns that leaf's key |
| CritBit.CritBitTree.RightAnswer | critbit-tree.h:350-368 | when key's bit at the critical index is 1 (or key was found and the bound is strict), the answer taken after climbing to the last left turn and switching it right is the bound LowerBound promises |
| CritBit.CritBitTree.LeftAnswer | critbit-tree.h:360-368 | when key's bit at the critical index is 0, the smallest key of the slot the path stopped at is the bound LowerBound promises |
| BinaryTree.SplitElems | suffix-treap.cc:63-81 | Split::Rec's left part followed by its right part, read in order, is the original tree in order |
| BinaryTree.SplitSides | suffix-treap.cc:74-80 | on a search tree the left part holds exactly the keys below value and the right part the others |
| BinaryTree.FillElems | suffix-treap.cc:84-101 | writing a subtree into the place reached by the descent puts its keys between the keys before and after the place |
| BinaryTree.DescendRight | suffix-treap.cc:93-94 | stepping right past a node whose key is below value keeps every key before the place below value |
| BinaryTree.DescendLeft | suffix-treap.cc:95-96 | stepping left keeps every key after the place at or above value |
| BinaryTree.InsertBetween | suffix-treap.cc:101 | a key placed between the keys below it and the keys not below it lands at its rank |
| BinaryTree.FilledInOrder | suffix-treap.cc:87-101 | writing the new node, with the split of the replaced subtree as its children, into the place inserts value in key order |
| BinaryTree.LowerBoundGoRight | suffix-treap.cc:112-113 | at a node whose key is below q, the lower bound lies in the right subtree |
| BinaryTree.LowerBoundGoLeft | suffix-treap.cc:114-116 | at a node whose key is not below q, the lower bound is the left subtree's, or else the node's key |
| BinaryTree.FindLowerBound | suffix-treap.cc:107-120 | the descent remembering the last node not below q returns the smallest key >= q, or none |
| SuffixTreap.WrapKeepsLow | suffix-treap.cc:24-31 | wrapping the uint64 product at 2^64 does not change its low 48 bits |
| SuffixTreap.NextRandom | suffix-treap.cc:24-31 | the masked result is below 2^48 |
| SuffixTreap.NextRandomIsLcg | suffix-treap.cc:24-31 | NextRandom is the 48-bit LCG step (0x5DEECE66D * rnd + 0xB) mod 2^48 |
| SuffixTreap.Rng.constructor | suffix-treap.cc:33 | the generator starts at NextRandom applied three times to 0xbeefcafe |
| SuffixTreap.Rng.Next | suffix-treap.cc:35-38 | each new node advances the generator once and takes the new state as its priority |
| SuffixTreap.HeapAbove | suffix-treap.cc:137-138 | in a heap-ordered tree whose root lies above p, every node lies above p |
| SuffixTreap.SplitEntries | suffix-treap.cc:63-81 | Split::Rec loses and duplicates no (key, priority) node |
| SuffixTreap.SplitHeap | suffix-treap.cc:63-81 | both parts of a heap-ordered tree are heap-ordered and keep any lower bound on priorities |
| SuffixTreap.FillEntries | suffix-treap.cc:101 | writing a subtree into the place adds its nodes to those outside the place |
| SuffixTreap.FillHeap | suffix-treap.cc:137-138 | the tree is heap-ordered exactly when the path around the place is, the subtree is, and the subtree's root fits below the place |
| SuffixTreap.PlacedEntries | suffix-treap.cc:89-101 | writing the new node into the place adds exactly its (key, priority) node |
| SuffixTreap.PlacedHeap | suffix-treap.cc:87-101 | the new node fits where the descent stops: every node passed has a smaller priority and the replaced subtree's nodes larger ones |
| SuffixTreap.Treap.constructor | suffix-treap.cc:41-42 | the treap starts empty, valid and heap-ordered |
| SuffixTreap.Treap.Insert | suffix-treap.cc:48-102 | adds exactly one node carrying value and the generator's next state, at value's rank; keys stay strictly increasing; heap order is kept when the new priority is fresh |
| SuffixTreap.Treap.LowerBound | suffix-treap.cc:105-120 | returns the smallest stored key >= str, or none |
| SuffixTreap.Treap.Clear | suffix-treap.cc:165-190 | deletes every node exactly once, in key order, counts them and leaves the root null |
| SuffixTreap.Deleter.Rec | suffix-treap.cc:171-180 | deletes the subtree's nodes in key order and counts each once |
| SuffixTreap.Checker.Rec | suffix-treap.cc:128-151 | passes iff every child's priority exceeds its parent's and keys strictly increase along the walk; returns the height |
| SuffixTreap.Validate | suffix-treap.cc:122-163 | passes iff the treap is heap-ordered with strictly increasing keys |
| SuffixSplay.SplitOpElems | suffix-splay.cc:98-137 | SplitOp::Rec with its zig-zig rotations keeps the in-order: the two parts read one after the other are the tree |
| SuffixSplay.RotatedElems | suffix-splay.cc:107-113 | the zig-zig rotation (l lifted above root) keeps the in-order keys; lines 126-130 are its mirror |
| SuffixSplay.GoLeftElems | suffix-splay.cc:139-149 | GoLeft keeps the in-order: root joins the right part ahead of the split of its left subtree |
| SuffixSplay.GoRightElems | suffix-splay.cc:150-160 | the mirror of GoLeftElems |
| SuffixSplay.SplitOpSides | suffix-splay.cc:98-137 | on a search tree without value, with the right first comparison, the first part holds exactly the keys below value and the second those above |
| SuffixSplay.GoLeftSides | suffix-splay.cc:139-149 | GoLeft puts keys below value left and the others right, whether or not the comparison was already made |
| SuffixSplay.GoRightSides | suffix-splay.cc:150-160 | the mirror of GoLeftSides |
| SuffixSplay.DetachMinElems | suffix-splay.cc:222-224 | the lower-bound node leaves its place to its right subtree; its key comes first and the rest keep their order |
| SuffixSplay.SplitAllBelow | suffix-splay.cc:213-215 | when nothing goes to the part not below str, the split leaves the tree as it was |
| SuffixSplay.LowerBoundAtSeam | suffix-splay.cc:182-230 | the lower bound of keys below q followed by keys not below q is the first of the latter |
| SuffixSplay.JoinLeftElems | suffix-splay.cc:250-257 | Join::RecLeft keeps the keys of both trees, left ones first |
| SuffixSplay.JoinRightElems | suffix-splay.cc:258-265 | Join::RecRight keeps the keys of both trees, left ones first |
| SuffixSplay.RootRemoved | suffix-splay.cc:268-270 | dropping the root key of a search tree keeps exactly the other keys, still strictly increasing |
| SuffixSplay.SplayTree.constructor | suffix-splay.cc:24-25 | the tree starts empty and valid |
| SuffixSplay.SplayTree.InsertMoveToTop | suffix-splay.cc:31-66 | adds exactly value at its rank, keeps keys strictly increasing, and makes the new node the root with smaller keys on its left and larger on its right |
| SuffixSplay.SplayTree.NonSplayUnbalancedInsert | suffix-splay.cc:68-81 | hangs a new leaf at the empty place reached; adds exactly value at its rank and keeps keys strictly increasing |
| SuffixSplay.SplayTree.Insert | suffix-splay.cc:163-169 | the top-down splay insert adds exactly value at its rank and makes it the root over keys below and above it |
| SuffixSplay.SplayTree.LowerBound | suffix-splay.cc:182-230 | returns the smallest key >= str or none; the key set is unchanged; a found node becomes the root, and with none the tree is left as it was |
| SuffixSplay.SplayTree.RemoveRoot | suffix-splay.cc:232-271 | an empty tree stays empty; otherwise exactly the root key is removed and the others keep their order |
| SuffixSplay.SplayTree.Clear | suffix-splay.cc:313-351 | without recursion, deletes every node exactly once in key order, counts them, and leaves the root null |
| SuffixSplay.PendingPush | suffix-splay.cc:335-341 | pushing a node on the parent chain (through its left link) puts its key and right subtree ahead of what was pending |
| SuffixSplay.Checker.Rec | suffix-splay.cc:279-299 | passes iff keys strictly increase along the walk; returns the height |
| SuffixSplay.Validate | suffix-splay.cc:273-311 | passes iff the in-order keys strictly increase |
| SuffixTrie.ReadString | suffix-trie.cc:230-235 | the byte of the key at a depth, 0 past its end; always below 256 |
| SuffixTrie.FirstKeyFirst | suffix-trie.cc:166-168 | stepping into the smallest child down to a leaf reaches the first key of a valid trie |
| SuffixTrie.FirstKeyMin | suffix-trie.cc:166-168 | that first key is a member and no key is smaller |
| SuffixTrie.ValidSorted | suffix-trie.cc:350-400 | the keys of a trie that validation accepts, read left to right, are strictly increasing |
| SuffixTrie.KeyChild | suffix-trie.cc:377-383 | every key of a valid node lies in the child labelled with its byte at the node's depth |
| SuffixTrie.SharedPrefix | suffix-trie.cc:384-390 | all keys of a valid node agree on their first depth bytes and are longer than the depth |
| SuffixTrie.ChildrenOrdered | suffix-trie.cc:391 | keys in a child with a smaller label are smaller than keys in a later child |
| SuffixTrie.FindChild | suffix-trie.cc:183-193 | the rank of ch among the node's labels, and the child at that rank exactly when ch is a label |
| SuffixTrie.Leftmost | suffix-trie.cc:266-268 | the GetSmallestChild descent returns the smallest key of the subtree |
| SuffixTrie.NoChildUniform | suffix-trie.cc:261-265 | with no child for the data's byte, no key below the node shares more with the data than the node's smallest key |
| SuffixTrie.ChildHoldsBest | suffix-trie.cc:259-260 | the child labelled with the data's byte holds a key sharing the longest prefix with the data |
| SuffixTrie.FindLCPLeaf | suffix-trie.cc:249-280 | the leaf returned is a stored key, lcp is its common prefix length with the data, and no stored key shares more |
| SuffixTrie.MakeFrom2 | suffix-trie.cc:144-164 | a two-child node at depth whose labels are the two bytes in increasing order and whose children follow that order |
| SuffixTrie.MakeInserting | suffix-trie.cc:117-142 | prev's labels with ch added at its rank pos and prev's children with the leaf moved in at pos, the others in order |
| SuffixTrie.SpliceChild | suffix-trie.cc:131-139 | the copy loop produces the children with the leaf at pos and the old children before and after it in order |
| SuffixTrie.AbsentAtLcp | suffix-trie.cc:322-323 | at the node of depth lcp no child carries the data's byte, as the source asserts |
| SuffixTrie.DescendPre | suffix-trie.cc:319-328 | above depth lcp the child for the data's byte exists and the walk's precondition holds one level down |
| SuffixTrie.InsertedValid | suffix-trie.cc:302-329 | the subtree rebuilt by the insertion walk is valid and holds the old keys plus data |
| SuffixTrie.PairValid | suffix-trie.cc:144-164 | two valid subtrees under distinct bytes at depth make a valid two-child node holding exactly their keys |
| SuffixTrie.InsertedChildValid | suffix-trie.cc:317-328 | above depth lcp, the child data's byte selects, valid with data added, leaves the node valid with data added |
| SuffixTrie.ForkAt | suffix-trie.cc:308-316 | at a leaf or a node deeper than lcp, the new node over the old subtree and data's leaf is the subtree the insertion defines |
| SuffixTrie.AddAt | suffix-trie.cc:318-325 | at a node of depth lcp, adding data's leaf at the rank of its byte gives the subtree the insertion defines |
| SuffixTrie.InsertWalk | suffix-trie.cc:302-329 | the walk down data's bytes and the rebuilding of the path above the new leaf give the trie the insertion defines |
| SuffixTrie.Insert | suffix-trie.cc:282-330 | on a valid (or empty) trie whose keys are not prefixes of the data nor it of them, the result is valid and lists the old keys with the data at its sorted rank |
| SuffixTrie.InsertedInOrder | suffix-trie.cc:282-330 | the whole trie after insertion is valid and its key list is the old list with the data inserted at its rank |
| SuffixTrie.NodeSides | suffix-trie.cc:439-441 | keys whose byte at the node's depth is below the byte R::Rec follows are below the query; keys agreeing on a larger byte lie on one side of it |
| SuffixTrie.ScanAbove | suffix-trie.cc:449-457 | the scan stops at the first label above ch, or at 256 with nothing found; with ch = 255 the place found for ch is kept |
| SuffixTrie.NoneAbove | suffix-trie.cc:449-457 | no label above the followed byte and nothing above the query under it: no key of the node is above the query |
| SuffixTrie.NextAfterGap | suffix-trie.cc:459-470 | the next labelled child after the gap: keys before it are at or below the query, and its smallest key decides for the rest |
| SuffixTrie.LowerBoundRec | suffix-trie.cc:428-471 | R::Rec returns the smallest key of the subtree strictly above the query, or nothing when there is none |
| SuffixTrie.NextAbove | suffix-trie.cc:448-470 | when the followed child holds nothing above the query, scanning to the next child and its smallest key answers the smallest key of the node above the query, or none |
| SuffixTrie.LowerBound | suffix-trie.cc:418-480 | the smallest stored key strictly above the query, or nothing when none is (an empty trie answers nothing) |
| SuffixTrie.LowerBoundAsWritten | suffix-trie.cc:418-421 | as written only a null place answers nothing; an empty trie behind a non-null place dereferences an empty pointer, and any other answer is the upper bound |
| SuffixTrie.StoredSize | suffix-trie.cc:221 | the size stored through the 8-bit constructor parameter: the count below 256, 0 for 256 |
| SuffixTrie.FullNodeSizeLost | suffix-trie.cc:117-127 | giving a node of 255 children its 256th as written records size 0, which validation rejects; with the count kept whole the node is valid |
| SuffixTrie.StepComplete | suffix-trie.cc:379-392 | in a valid node every child's returned prefix passes both per-child checks |
| SuffixTrie.AllChecked | suffix-trie.cc:397-399 | a node of the right size whose children all passed makes a valid node, and my_lcp starts all of its keys |
| SuffixTrie.CheckChild | suffix-trie.cc:378-395 | a failed check means the node is not valid; a passed one extends the checked children and keeps my_lcp's meaning |
| SuffixTrie.DoValidate | suffix-trie.cc:350-400 | accepts a subtree exactly when it is valid above min_depth, returning a prefix of all its keys at least as long as the node depth (the key itself for a leaf) |
| TrieIndex.NumElementsBefore | suffix-trie.cc:88-94 | the start count of the word plus the popcount of the lower bits, always below 256 |
| TrieIndex.InitInUse | suffix-trie.cc:96-98 | setting one bit keeps the index's four words and its start counts |
| TrieIndex.SetBitHas | suffix-trie.cc:96-98 | after setting bit b, exactly bit b and the bits already set are set |
| TrieIndex.InitInUseHas | suffix-trie.cc:83-87 | after InitInUse(ch), HasElement holds for ch and for the labels already present, and for nothing else |
| TrieIndex.InitInUseKeepsWidth | suffix-trie.cc:96-98 | setting a bit below 256 keeps every word within 64 bits |
| TrieIndex.MaskedPopcount | suffix-trie.cc:92-93 | the popcount of a word masked to its low n bits counts the set bits below n |
| TrieIndex.LabelsBelowFacts | suffix-trie.cc:83-87 | the labels below n are strictly increasing and are exactly the positions below n whose bit is set |
| TrieIndex.HasElementIsLabel | suffix-trie.cc:83-87 | HasElement(pos) holds exactly when pos is one of the node's labels |
| TrieIndex.NumElementsBeforeCounts | suffix-trie.cc:88-94 | on an index whose start counts are filled in, NumElementsBefore(pos) is the number of labels below pos |
| TrieIndex.FinishedInitialized | suffix-trie.cc:100-106 | filling in the start counts keeps the bits and the labels and leaves an initialised index |
| TrieIndex.FinishInitialization | suffix-trie.cc:100-106 | the loop stores the running popcount before each word, giving the filled-in index |
| TrieIndex.LabelsInsert | suffix-trie.cc:117-127 | setting an absent label ch inserts it into the labels at its rank, the number of labels below it |
| TrieIndex.LabelAtRank | suffix-trie.cc:183-193 | a present label ch sits in the labels at its rank |
| TrieIndex.BlankEmpty | suffix-trie.cc:79-81 | a zero-initialised index has no labels |
| TrieIndex.TwoIndexLabels | suffix-trie.cc:153-159 | a blank index with two distinct bytes set is initialised and its labels are the two bytes in increasing order |
| TrigramIndex.FromStringAt | trigram-index.cc:27-33 | the trigram's three bytes are the text's bytes at pos, pos + 1, pos + 2 |
| TrigramIndex.TrigramEquality | trigram-index.cc:50-52 | two trigrams are equal exactly when the three bytes they were taken from are |
| TrigramIndex.ToSpace | trigram-index.cc:41-43 | the result is never a tab or newline, and any other byte is kept |
| TrigramIndex.Spacify | trigram-index.cc:39-48 | each of the three bytes goes through ToSpace |
| TrigramIndex.SpacifyIdempotent | trigram-index.cc:39-48 | spacifying twice is spacifying once, and a spacified trigram holds no tab or newline |
| TrigramIndex.SpacifyAt | trigram-index.cc:403-406 | spacifying the trigram at p gives the trigram at p of the text with tabs and newlines turned to spaces |
| TrigramIndex.IndexStep | trigram-index.cc:403-407 | appending pos to its spacified trigram's posting list indexes one more position, keeping every list increasing |
| TrigramIndex.BuildIndex | trigram-index.cc:403-407 | the index lists, for every trigram, exactly the positions whose spacified trigram it is, in increasing order |
| TrigramIndex.CloseRun | trigram-index.cc:421-426 | closing a whitespace run at the next non-space byte appends a maximal run after the earlier ones |
| TrigramIndex.SpaceRuns | trigram-index.cc:410-431 | the runs are every maximal run of whitespace bytes, each as (start, length), left to right, including one reaching the end of the text |
| TrigramIndex.NextHit | trigram-index.cc:113 | std::lower_bound on a posting list: its first element not below x, or none when all are below |
| TrigramIndex.TermGap | trigram-index.cc:113-122 | a term with no posting in a window leaves no match of the conjunction in that window |
| TrigramIndex.FindConjunction | trigram-index.cc:108-126 | the first position at or after min_pos where every term's trigram occurs at the position plus its offset, or none |
| TrigramIndex.BestPos | trigram-index.cc:170-177 | the least position at or after min_pos where some term of the disjunction matches, or none |
| TrigramIndex.DisjGap | trigram-index.cc:178-187 | a disjunction with no match in a window leaves no match of the whole query there |
| TrigramIndex.FindConjunctionOfDisjunctions | trigram-index.cc:166-190 | the first position at or after min_pos where every disjunction has a matching term, or none |
| TrigramIndex.InsertBy | trigram-index.cc:146-149 | inserting one term into a list adds exactly that term |
| TrigramIndex.InsertBySorted | trigram-index.cc:146-149 | inserting into a list ordered by posting-list length keeps it ordered |
| TrigramIndex.SortBy | trigram-index.cc:146-149 | the terms afterwards are a permutation of the terms before, ordered by posting-list length |
| TrigramIndex.OffsetsFrom | trigram-index.cc:133-134 | every offset i, i + 3, ..., clamped to size - 3, starts a whole trigram of the query |
| TrigramIndex.CoveringOffset | trigram-index.cc:133-134 | every byte of the query lies in the trigram taken at one of those offsets |
| TrigramIndex.TermsAt | trigram-index.cc:133-142 | none exactly when one of the query's trigrams is missing from the index, else one term per offset with its posting list |
| TrigramIndex.PrepareSubstringSearch | trigram-index.cc:130-154 | EmptyAdvance exactly when a query trigram is not indexed; otherwise the terms, reordered smallest posting list first |
| TrigramIndex.TermHit | trigram-index.cc:113 | a posting of the query's trigram at an offset is exactly a place where the spacified text agrees with those three bytes |
| TrigramIndex.SubstringTermsExact | trigram-index.cc:130-154 | all prepared terms match at p exactly when the query occurs at p in the text read with tabs and newlines as spaces |
| TrigramIndex.AbsentTrigram | trigram-index.cc:136-139 | a query trigram missing from the index means the query occurs nowhere, so EmptyAdvance is right |
| TrigramIndex.TermsIncreasing | trigram-index.cc:108-126 | the prepared terms' posting lists are increasing, as FindConjunction's lower_bound needs |
| TrigramIndex.SubstringSearch | trigram-index.cc:130-154 | the advance function answers the first occurrence of the query at or after from, or none |
| TrigramCaseInsensitive.ToLower | trigram-index.cc:226-227 | an upper-case ASCII letter becomes its lower-case form (32 above it); anything else is kept |
| TrigramCaseInsensitive.Flip | trigram-index.cc:226-234 | upper case gains bit 0x20, lower case loses it; a letter stays a letter, changes, and keeps its lower-case form |
| TrigramCaseInsensitive.SameLetter | trigram-index.cc:224-234 | a byte has the same lower-case form as ch exactly when it is ch or, for a letter, ch with its case flipped |
| TrigramCaseInsensitive.CollectedExact | trigram-index.cc:213-235 | the terms the recursion collects from depth on are exactly the indexed trigrams that equal t up to depth and differ from it after depth only in letter case |
| TrigramCaseInsensitive.Adder.constructor | trigram-index.cc:211 | the adder holds the index and offset and no terms yet |
| TrigramCaseInsensitive.Adder.Rec | trigram-index.cc:213-235 | Rec restores the trigram it flips and appends exactly the collected case forms found in the index |
| TrigramCaseInsensitive.DisjsAt | trigram-index.cc:198-244 | none exactly when some offset has no indexed case form, else one disjunction per offset |
| TrigramCaseInsensitive.TotalHits | trigram-index.cc:249-255 | the sort key of a disjunction bounds the length of each of its posting lists |
| TrigramCaseInsensitive.CaseForms | trigram-index.cc:236-238 | the disjunction built at an offset is the list of its indexed case forms |
| TrigramCaseInsensitive.PrepareCISubstringSearch | trigram-index.cc:195-260 | EmptyAdvance exactly when an offset has no indexed case form; else the disjunctions, ordered by total hits |
| TrigramCaseInsensitive.DisjHitSound | trigram-index.cc:213-235 | a hit of some case form at an offset means the text agrees there with the query's three bytes up to case |
| TrigramCaseInsensitive.DisjHitComplete | trigram-index.cc:213-235 | agreement up to case at an offset means some collected case form has a hit there |
| TrigramCaseInsensitive.CITermsExact | trigram-index.cc:195-260 | every disjunction matches at p exactly when the query occurs at p, ignoring ASCII letter case, in the text read with tabs and newlines as spaces |
| TrigramCaseInsensitive.NoCaseForm | trigram-index.cc:240-242 | an offset with no indexed case form means the query occurs nowhere, so EmptyAdvance is right |
| TrigramCaseInsensitive.CISubstringSearch | trigram-index.cc:195-260 | the case-insensitive advance function answers the first case-insensitive occurrence at or after from, or none |
| TrigramSpaceful.JoinAppend | trigram-index.cc:292-299 | joining one more word, which starts with the space it shares with the previous word, adds the word without that space |
| TrigramSpaceful.WordEnd | trigram-index.cc:282-288 | the word length s is at least 1; the bytes before the last are not whitespace, and the last one is whitespace unless it ends the query |
| TrigramSpaceful.ShapeOfWord | trigram-index.cc:290-299 | each word is non-space bytes with at most one trailing whitespace byte, and every word after the first starts with the preceding whitespace byte |
| TrigramSpaceful.SplitStep | trigram-index.cc:279-302 | one round of the split loop consumes the next word and keeps the words joining to the query read so far |
| TrigramSpaceful.SplitWords | trigram-index.cc:271-302 | for a query not starting or ending in whitespace, at least one word; the words, overlapping in one whitespace byte, join back to the query, and each has the word shape |
| ColorSets.ColorSet.Reset | coloring.cc:48-52 | reset(bit) removes exactly that colour and keeps the others |
| ColorSets.ColorSet.Set | coloring.cc:53-60 | set(bit, true) adds exactly that colour; set(bit, false) is reset(bit) |
| ColorSets.ColorSet.MakeSingletonAtBit | coloring.cc:76-79 | the set afterwards holds exactly that colour |
| ColorSets.FullMembers | coloring.cc:43 | the default set (1 << kColors) - 1 holds exactly the colours 0 to 3 |
| ColorSets.CountMembers | coloring.cc:65-67 | the popcount of the byte is the number of colours in the set |
| ColorSets.CountIsOneExact | coloring.cc:69-71 | the value & (value - 1) test holds exactly when the set has one colour |
| ColorSets.EmptyMembers | coloring.cc:72-74 | is_empty holds exactly when the set has no colours |
| ColorSets.SetIndexHighest | coloring.cc:81-83 | 7 - countl_zero is -1 exactly for the empty set, else the highest colour present |
| ColorSets.SingletonIndex | coloring.cc:76-83 | after make_singleton_at_bit(bit), count_is_one holds and set_index is bit |
| ColorSets.SingleMember | coloring.cc:86-89 | a set of one colour is exactly {set_index} |
| ColorSets.GetColor | coloring.cc:86-89 | for a set of one colour, the colour it holds |
| ColorSets.ResetShrinks | coloring.cc:48-52 | reset gives a subset without that colour, differs from the set exactly when the colour was present, and stays in the palette |
| ColorSets.ResetSingleton | coloring.cc:48-52 | resetting the one colour of a singleton leaves the empty set |
| ColorSets.SingletonFacts | coloring.cc:76-83 | the singleton of a palette colour has one colour, that colour, as set_index, and lies in the palette |
| ColorSets.SubsetOfSingle | coloring.cc:69-71 | a non-empty subset of a one-colour set is that set |
| ColorSets.SubsetCount | coloring.cc:65-67 | a subset has at most as many colours, and a proper subset strictly fewer |
| CopyOnWrite.Leaf.constructor | coloring.cc:168-173 | a new leaf of 128 slots, each the full colour set, with no references yet |
| CopyOnWrite.Leaf.Copy | coloring.cc:113-114 | a copied leaf has the same slots in fresh storage and a refcount of 0 |
| CopyOnWrite.Leaf.Ref | coloring.cc:104 | Ref adds one to the refcount |
| CopyOnWrite.Leaf.UnRef | coloring.cc:105-111 | UnRef takes one from the refcount, and the leaf is released exactly when that leaves 0 |
| CopyOnWrite.LeafPtr.Of | coloring.cc:126 | a reference to a leaf holds it and adds one to its refcount |
| CopyOnWrite.LeafPtr.Copy | coloring.cc:127 | a copied reference holds the same leaf, which gains one holder |
| CopyOnWrite.LeafPtr.Reset | coloring.cc:161-165 | Reset drops the reference and the leaf it held loses one holder |
| CopyOnWrite.LeafPtr.Mutate | coloring.cc:151-159 | a leaf held only here is returned as is; a shared one is copied, the copy held here alone and the original left with one holder fewer |
| CopyOnWrite.NewChild | coloring.cc:195 | a new reference to a new leaf of full colour sets, held once |
| CopyOnWrite.NewChildren | coloring.cc:193-197 | Fanout fresh references to distinct fresh leaves of full colour sets, each leaf counted as held, none shared |
| CopyOnWrite.ColorArray.constructor | coloring.cc:193-197 | every one of the 2048 slots reads as the full colour set |
| CopyOnWrite.ColorArray.Write | coloring.cc:199-201 | writing slot idx changes that slot only; other leaves stay shared, and a shared leaf on the path is copied rather than written |
| ColoringGraph.Pigeonhole | coloring.cc:635-641 | distinct node ids below n number at most n, and n of them include every node |
| ColoringGraph.Missing | coloring.cc:635-641 | fewer than n distinct ids leave some node id out |
| ColoringGraph.Unreachable | coloring.cc:623-635 | a node outside a set closed under adjacency that holds the start is not reachable from the start |
| ColoringGraph.OrderingReaches | coloring.cc:612-644 | every node of a breadth-first ordering is reachable from its start |
| ColoringGraph.VisitPush | coloring.cc:626-632 | pushing an unseen neighbour keeps the visit's invariant: order distinct, seen marks exactly the ordered nodes, each reached from an earlier one |
| ColoringGraph.VisitNeighbours | coloring.cc:626-632 | the inner loop over one node's neighbours keeps the invariant and finishes that node |
| ColoringGraph.VisitedClosed | coloring.cc:623-633 | once every ordered node is processed, the order is closed under adjacency |
| ColoringGraph.VisitedParents | coloring.cc:623-633 | every node after the start was reached from an earlier node of the order |
| ColoringGraph.Find | coloring.cc:637-639 | std::find: the first index at or after from holding x, or the end when none does |
| ColoringGraph.BuildOrdering | coloring.cc:612-644 | an ordering of all nodes, each once, starting at start, each later node adjacent to an earlier one; none (the failed assertion) exactly when some node is unreachable |
| ColoringGraph.WalkBound | coloring.cc:556-566 | no walk from the start to a node is shorter than the recorded distance |
| ColoringGraph.WalkOfDistance | coloring.cc:556-566 | a node with a recorded distance has a walk from the start of exactly that length |
| ColoringGraph.DistancesShortest | coloring.cc:544-569 | a node has a distance exactly when it is reachable, and then it is the length of a shortest walk |
| ColoringGraph.MeasureStep | coloring.cc:559-564 | recording an unseen neighbour at one more than its parent keeps distances ranked in breadth-first order |
| ColoringGraph.Measure | coloring.cc:557-565 | one node's neighbours get their distances and the invariant moves past that node |
| ColoringGraph.MeasuredDistances | coloring.cc:556-566 | when the frontier is exhausted the recorded entries are the shortest-walk distances |
| ColoringGraph.RunDijkstra | coloring.cc:544-569 | the distance array holds, for every node reachable from i, the length of a shortest walk, and -1 for the others |
| ColoringRename.Insert | coloring.cc:480 | inserting into a sorted row keeps it sorted and adds exactly that id |
| ColoringRename.Sort | coloring.cc:480 | std::sort of a renamed row: sorted and a permutation of the row |
| ColoringRename.InvertOrdering | coloring.cc:463-467 | perm[ordering[i]] = i for every i: perm is the inverse permutation of the ordering |
| ColoringRename.InverseBack | coloring.cc:465-467 | an array with perm[ordering[k]] = k for all k is the ordering's inverse in both directions |
| ColoringRename.RenameRow | coloring.cc:476-479 | each neighbour id x of the copied row becomes perm[x] |
| ColoringRename.RenameRows | coloring.cc:474-482 | new row i is the sorted renaming of old row ordering[i] |
| ColoringRename.RenamedEdges | coloring.cc:484-499 | row i of the renamed graph has as many entries as old row ordering[i], and x is in it exactly when ordering[x] is a neighbour of ordering[i] |
| ColoringRename.RenamedGraphOk | coloring.cc:474-482 | the renamed graph is again a graph on the same nodes with in-range neighbour ids |
| ColoringRename.CheckRenamed | coloring.cc:485-499 | the isomorphism check passes exactly when each renamed row matches the old row's size and every renamed neighbour maps back into the old row |
| ColoringRename.RenameGraph | coloring.cc:447-501 | for a permutation the check never aborts, and the result is the renamed graph with perm the inverse ordering |
| ColoringRename.Undo | coloring.cc:503-521 | the undo function's colouring holds at node i the colour found at perm[i] of the renamed colouring |
| ColoringRename.ProperBack | coloring.cc:503-521 | a proper colouring of the renamed graph, pulled back through perm, is a proper colouring of the original graph |
| ColoringMain.StartSearch | coloring.cc:661-663 | the search starts from all-full colour sets with node 0 in the frontier, which meets the search's invariant |
| ColoringMain.AllReachable | coloring.cc:635-641 | a complete breadth-first ordering means every node is reachable from the start |
| ColoringMain.RenamedOrder | coloring.cc:654-659 | after renaming by a breadth-first ordering, every node other than 0 has a neighbour with a smaller id |
| ColoringMain.SettledSpreads | coloring.cc:391-395 | when node 0 is settled and every node is settled or untouched, every node is settled, since each has an earlier neighbour |
| ColoringMain.SettledProper | coloring.cc:681-693 | when every node is settled each set has one colour, and those colours differ on every edge |
| ColoringMain.FinalCheck | coloring.cc:679-693 | GetColor of every node, and no complaint exactly when adjacent nodes always have different colours |
| ColoringMain.SearchRenamed | coloring.cc:661-671 | a successful search leaves every node settled on one palette colour |
| ColoringMain.SearchSucceeded | coloring.cc:386-395 | the search's success leaves every node settled on a palette colour |
| ColoringMain.ColorGraph | coloring.cc:647-693 | abort exactly when the ordering does not reach every node; a colouring returned is proper on the original graph |
| ColoringSearch.TotalShrunk | coloring.cc:317 | colour sets that only shrink never raise the total colour count, and an equal total means nothing changed |
| ColoringSearch.SettledShrunk | coloring.cc:308-337 | a decided node stays decided while the sets around it only shrink and it keeps a colour |
| ColoringSearch.PropagateStart | coloring.cc:303-306 | the picked node made a singleton and queued meets the worklist loop's invariant |
| ColoringSearch.ResetStep | coloring.cc:315-331 | dropping the popped colour from a neighbour that keeps some colour enters it into the frontier and queues it when one colour is left |
| ColoringSearch.StackStep | coloring.cc:329-331 | narrowing a node's set, and queueing it when one colour is left, keeps every queued entry a node whose set is exactly that one colour |
| ColoringSearch.PropagateDone | coloring.cc:308-340 | with the queue empty, the result is the pick: only shrinking, the picked node a singleton, no changed set empty, the frontier grown by the changed nodes less the picked one, and every forced node decided |
| ColoringSearch.Propagate | coloring.cc:283-341 | the worklist loop: on success the pick described by PickedFrom; on failure some node has no colour left |
| ColoringSearch.PickKeepsSearch | coloring.cc:283-341 | a successful pick keeps the search invariant, only shrinks the sets, decides the picked node, and lowers the search measure |
| ColoringSearch.State.constructor | coloring.cc:266 | a new state: every node has every colour, the frontier is empty and the depth 0 |
| ColoringSearch.State.Copy | coloring.cc:267 | a copied state has the same graph, colouring, frontier and depth |
| ColoringSearch.State.DoPickColorAt | coloring.cc:283-341 | depth goes up by one; true leaves the pick PickedFrom describes, false a colouring with an empty set |
| ColoringSearch.State.PickColorAt | coloring.cc:271-277 | a new state one level deeper holding the pick, or none when the pick fails |
| ColoringSearch.State.ScanNode | coloring.cc:351-389 | scanning node i's colours either finds an impossible colour (taken at once) or keeps the best choice over the nodes up to i |
| ColoringSearch.State.ScanColor | coloring.cc:358-388 | one colour of node i: an impossible pick is taken at once; otherwise the candidate replaces the best one only when its node has strictly fewer colours left |
| ColoringSearch.State.Choose | coloring.cc:348-395 | -1 exactly when the frontier is empty; else a frontier node with a possible colour, the first node with the fewest colours left unless an impossible pick was found first |
| ColoringSearch.State.Exclude | coloring.cc:421-437 | the tried colour is removed from the chosen node; emptied exactly when no colour is left, else the next colour is the smallest one left |
| ColoringSearch.State.Retry | coloring.cc:419-440 | after excluding the failed colour, the next pick from the smallest colour left, with fewer colours at the node than before |
| ColoringSearch.State.Descend | coloring.cc:410-417 | a successful child search gives this state its colouring, with every node of the frontier decided |
| ColoringSearch.State.Rec | coloring.cc:343-444 | the frontier is kept and the sets only shrink; on success every frontier node is decided and every other node is decided or untouched |
| ColoringSearch.RecSucceeded | coloring.cc:410-416 | a child's success carries back: every node of the parent's frontier is decided in the child's colouring |
| KnightPosSet.ByteOf | knight-path.cc:79-84 | the byte of a position in capacity lies within the 2097152-byte buffer |
| KnightPosSet.BitOf | knight-path.cc:79-84 | the bit of a position within its byte is below 8 |
| KnightPosSet.SameBit | knight-path.cc:79-84 | two positions in capacity with the same byte and bit are the same position, so getbit is one to one |
| KnightPosSet.SetBit | knight-path.cc:58-60 | or-ing in a mask sets that bit and keeps the others |
| KnightPosSet.ClearBit | knight-path.cc:66-68 | and-ing with the inverted mask clears that bit and keeps the others |
| KnightPosSet.SetKeeps | knight-path.cc:56-62 | setting p's bit adds p to the positions the buffer holds and changes no other position |
| KnightPosSet.ClearKeeps | knight-path.cc:64-74 | clearing p's bit removes p and changes no other position |
| KnightPosSet.PosSet.constructor | knight-path.cc:46 | a new set is empty over a zeroed buffer |
| KnightPosSet.PosSet.Contains | knight-path.cc:52-55 | contains is true exactly when p is in the set |
| KnightPosSet.PosSet.Size | knight-path.cc:75 | size is the number of positions in the set |
| KnightPosSet.PosSet.Insert | knight-path.cc:56-63 | p is in the set afterwards, nothing else changes, and the result is true exactly when p was absent |
| KnightPosSet.PosSet.SetMember | knight-path.cc:60-62 | setting the bit of an absent position and counting it adds exactly that position |
| KnightPosSet.PosSet.Erase | knight-path.cc:64-74 | p is out of the set afterwards, nothing else changes, and the result is 1 exactly when p was present, else 0 |
| KnightPosSet.PosSet.ClearMember | knight-path.cc:67-70 | clearing the bit of a present position and uncounting it removes exactly that position |
| KnightPath.KnightMoveShape | knight-path.cc:239-242 | the eight kMoves_ offsets are exactly the steps of two along one axis and one along the other |
| KnightPath.KnightMoveSymmetric | knight-path.cc:239-242 | a knight move read backwards is a knight move |
| KnightPath.Reverse | knight-path.cc:215-217 | std::reverse: the same length, element i taken from the mirrored place |
| KnightPath.ListedPermuted | knight-path.cc:297-303 | a square listed among the moves is still listed after they are sorted |
| KnightPath.KnightTourSolver.constructor | knight-path.cc:176-188 | a solver for a rows by cols board within PosSet capacity, with rows * cols squares |
| KnightPath.KnightTourSolver.FreeCount | knight-path.cc:251-256 | counting the free squares among the first k moves gives at most k |
| KnightPath.KnightTourSolver.Degree | knight-path.cc:249-258 | a square has at most 8 free knight neighbours |
| KnightPath.KnightTourSolver.CalculateDegree | knight-path.cc:249-258 | the number of on-board, unvisited squares among the 8 knight moves, between 0 and 8 |
| KnightPath.KnightTourSolver.SortedOrder | knight-path.cc:297-303 | in a sorted span degrees never decrease, and on equal degree the square farther from the centre comes first |
| KnightPath.KnightTourSolver.InsertMove | knight-path.cc:297-303 | inserting a move into a sorted span keeps it sorted and adds exactly that move |
| KnightPath.KnightTourSolver.SortMoves | knight-path.cc:297-303 | the sort leaves a permutation of the moves, by degree and then farther from the centre first |
| KnightPath.KnightTourSolver.CollectMoves | knight-path.cc:286-294 | the collected entries are the free knight neighbours with their degrees, one per free neighbour |
| KnightPath.KnightTourSolver.SortedCandidates | knight-path.cc:295-304 | sorting the collected moves keeps exactly the free knight neighbours with their degrees |
| KnightPath.KnightTourSolver.GetSortedNextMoves | knight-path.cc:281-305 | exactly the on-board unvisited knight neighbours, each with its degree, sorted by degree and then farther from the centre first |
| KnightPath.KnightTourSolver.CompletionExtend | knight-path.cc:364-371 | a neighbour's completion with cur pushed on its end is a completion from cur |
| KnightPath.KnightTourSolver.CompletionShrink | knight-path.cc:350-371 | a completion from cur longer than one square continues through a free knight neighbour of cur |
| KnightPath.KnightTourSolver.CompletionThrough | knight-path.cc:361-375 | any completion from cur passes through one of the listed next moves |
| KnightPath.KnightTourSolver.SolveRecursive | knight-path.cc:347-381 | a path is a walk ending at cur over the unvisited squares that with them fills the board; none means no such walk exists, and the visited set is back as on entry |
| KnightPath.KnightTourSolver.TryMoves | knight-path.cc:364-375 | trying the moves in order: the first completion found, or none when no move leads to one, with the visited set restored |
| KnightPath.KnightTourSolver.ReverseWalk | knight-path.cc:215-217 | a reversed walk is a walk |
| KnightPath.KnightTourSolver.TourReversed | knight-path.cc:213-218 | the reversed completion from start over nothing visited is exactly a tour starting at start |
| KnightPath.KnightTourSolver.FindTourRecursive | knight-path.cc:208-219 | a returned path is a knight's tour of the board from the start; none means no tour from the start exists |
| KnightPath.SkipSpace | knight-path.cc:407 | atoi's leading whitespace skip: a suffix of the text that does not start with whitespace |
| KnightPath.DigitRun | knight-path.cc:407 | the length of the leading run of digits |
| KnightPath.DecimalValue | knight-path.cc:407 | the decimal digits of n read back give n |
| KnightPath.AtoiDigits | knight-path.cc:407 | atoi of a digit string is its value, and with a leading minus its negation |
| KnightPath.AtoiDecimal | knight-path.cc:407 | atoi reads back the decimal form of any n and of -n |
| KnightPath.ParseArguments | knight-path.cc:396-451 | a result exactly for 1, 2 or 4 arguments with a board side in 1 to 4096 and a start on the board; it is the requested side and start, 1001 and (0, 1) when not given |

## Left out

- Every program's `main`: text and file loading, interrupt checks, heap-sampling setup, the SIGINT handling and printing of offsets and context.
- The statistics of `Validate(print_stats)` (node counts, average depth as a double) are not modelled; the height, balance and order checks are.
- Pointer identity: nodes are values, so in-place rewiring through `Node**` places and parent-link arrays is modelled by zippers and rebuilt values. Aliasing between tree versions is therefore not observable in the model.
- Memory representation: placement new, sized delete, the tagged-pointer encoding of trie node pointers (a sum type here), prefetching and the local data-prefix shortcut.
- PersistentAvl.Checker.Rec: does not check that every reachable node's reference count is at least 1, because reference counts are modelled only locally.
- PersistentAvl.Counted.IncRef: the reference count is tracked per handle only; that a node is freed exactly when its last holder releases it is not proved for the whole tree.
- PersistentAvl.AVLTree.Insert: requires the key to be absent. The program inserts distinct suffixes, and the tree is designed for distinct keys. The source itself does not reject a duplicate; a duplicate trips the mk2/mk3 order asserts only when a rotation involves it, and a plain make_node path accepts it.
- InPlaceAvl.TreePath.EraseCurrent: the source swaps the two nodes by relinking them; the model trades their keys, which gives the same tree shape, balances and key positions, but node identity is not modelled. It requires fewer than 2^64 stored keys, as Insert does.
- CritBit.CritBitTree.LowerBound: requires a query without zero bytes, as Insert does for keys, because bit reading pads a short key with zero bytes and the crit-bit order agrees with string order only on keys without them.
- CopyOnWrite: the array shape is fixed at 16 leaf arrays of 128 slots (2048 slots). The source's size parameter kSize comes from a header that is not part of this model, and nothing here ties it to the graph size; the Write and ReadAt contracts do not depend on the shape.
- InPlaceAvl.Insert: requires fewer than 2^64 stored keys, which bounds the height below the fixed path depth.
- PersistentBTree.MakeLeaf: node storage filled by a loop is modelled as the sequence that loop produces; the same holds for PersistentBTree.MakeInternal.
- SuffixTreap.Treap.Insert: the heap order over priorities is proved only when the new priority differs from every stored one; that the generator never repeats within its period is not proved.
- SuffixSplay.SplayTree.LowerBound: the `root->value >= str` test on an empty right part can never succeed, and that branch is not modelled.
- Trigram index positions are unbounded naturals: 32-bit positions and a position colliding with kNoMatch are not modelled.
- TrigramIndex.SortBy: std::sort's order among equal keys is unspecified; an insertion sort stands in, and the promise proved is a sorted permutation.
- TrigramIndex.PrepareSubstringSearch: requires a query that is empty or at least 3 bytes long, since a query of 1 or 2 bytes would read a trigram past its end.
- The composite advance function of the spaceful search (trigram-index.cc:317-368) and the `std::function` wrappers are not modelled; the word splitting and the whitespace runs it consumes are.
- The environment switch GetBoolEnvDefaultTrue, `isatty` and the hash specialisation of `Trigram` are not modelled.
- ColoringSearch.State.Rec: the entropy heuristic (kColorEntropyDeltas, entropy_reduction and the entropy half of is_better) is floating point and is left out. As written, coloring.cc:383 passes the same state twice, so that half never decides; the model compares only the counts, keeping the earlier node on ties.
- ColoringMain.ColorGraph: FindCenterNode's random sampling is left out, so the start node is a parameter; the adjacency table kAdj, defined in a header that is not part of this model, is a parameter too.
- ColoringMain.ColorGraph: a failed search is not proved to mean that no 4-colouring exists.
- ColoringSearch.State: the colouring is held as a sequence of colour sets rather than the copy-on-write array. The array and its leaf sharing are modelled on their own in `CopyOnWrite`; the array copy constructor that shares leaves between states is not modelled.
- ColoringGraph.RunDijkstra: the source leaves unreached entries uninitialised; the model writes -1 there.
- PrintOrdering, PrintArrayStructure and the num_backtrackings / num_pick_colors counters are not modelled.
- The knight's-tour coroutine machinery (Task, solve_coroutine, find_tour_coroutine), ReporterThread, run_with_stack, the atomic statistics (record_backtrack) and the abort path are concurrency plumbing and are not modelled.
- KnightPath.KnightTourSolver.SortMoves: std::sort's order among moves with equal keys is unspecified; an insertion sort stands in. dist_sq_from_center's double is replaced by the exact integer four times its value (DistKey), which orders squares the same way.
- PersistentBTree.TryFastPath: a node's reference count is the one it carried when the insertion started; counts are not recomputed when nodes become shared. This decides whether the fast path is taken, not which keys the tree ends up holding.
- KnightPath.ParseArguments: atoi's behaviour on overflowing or non-numeric text is not modelled; arguments are integers.

## Findings

| source | as written | input that shows it | evidently intended | confidence | as-written member | corrected member |
|---|---|---|---|---|---|---|
| critbit-tree.h:443-484 | ValidateNodeRecursive checks each branch's representatives against its own crit bit, but never that a child branch's crit index exceeds its parent's | the tree Branch(8, Branch(0, Leaf 01, Leaf 81), Leaf 01 80) (keys in hex) passes, though its in-order keys 01, 81, 01 80 are not sorted | reject a branch whose child branch tests an earlier bit, so that a passing tree is sorted | not executed | CritBit.CheckRepsOnly, CritBit.RepsOnlyAcceptsUnsorted | CritBit.CheckNode, CritBit.CheckNodeExact |
| suffix-trie.cc:221 | `Node(uint8_t size, ...)` stores the child count in 8 bits | a node with 255 children gains its 256th child through MakeInserting, and the stored size becomes 0 | a count wide enough to hold 256 | not executed | SuffixTrie.FullNodeSizeLost | SuffixTrie.MakeInserting, SuffixTrie.InsertedValid |
| suffix-trie.cc:418-419 | LowerBound tests `root_place == nullptr`, which never holds for the address of the root field | LowerBound on an empty trie goes on to FindLCPLeaf and dereferences the null root node | test whether the trie is empty and answer nothing | not executed | SuffixTrie.LowerBoundAsWritten | SuffixTrie.LowerBound |
| suffix-avl.cc:156-164 | swap_child and swap_grand_child rewrite only the incoming link (suffix-avl.cc:307, 353) and leave the cached cursor node on the node they rotated down, so after a height-reducing rotation below the root, `parent = node_ptr()` at line 164 fails node_ptr's debug check (58-61); release builds overwrite the stale value at line 170 | erasing the leaf 4 from 10{3{2{1},4},12{11,13{-,14}}}: node 3 reaches balance -2, swap_child(0) lifts node 2 into the link while the cursor still holds node 3 | both rotations set `current_node = *link` after rewriting the link | not executed | InPlaceAvl.StaleCursorAfterErase | InPlaceAvl.TreePath.ShrinkStep, InPlaceAvl.TreePath.EraseAtLeaf |
